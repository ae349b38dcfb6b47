/** The hasher of schema.h, by which enumerations and unique items are compared: one entry on its stack for each
    finished value, and a hash that does not see the order of object members. */
module Hashing {
  import opened Bytes
  import opened Events
  import opened Dom

  /** The bits of a double: that of an integer converted, and those a literal is hashed by. */
  datatype Floats = Floats(ofInteger: int -> bv64, ofLiteral: Text -> (bv64, bv64))

  const OFFSET_BASIS: bv64 := 0xcbf29ce484222325

  /** `Hash`, with its prime. */
  function Hash(h: bv64, d: bv64): (r: bv64) { (h ^ d) * 0x100000001b3 }

  function Xor(h: bv64, x: bv64): (r: bv64) { h ^ x }

  /** The numbers of `Type`. */
  const NULL_TYPE: bv64 := 0
  const FALSE_TYPE: bv64 := 1
  const TRUE_TYPE: bv64 := 2
  const OBJECT_TYPE: bv64 := 3
  const ARRAY_TYPE: bv64 := 4
  const STRING_TYPE: bv64 := 5
  const NUMBER_TYPE: bv64 := 6

  function HashBytes(h: bv64, w: seq<Byte>): (r: bv64)
    decreases |w|
  {
    if w == [] then h else HashBytes(Hash(h, w[0] as bv64), w[1..])
  }

  /** `WriteBuffer`. */
  function BufferHash(t: bv64, w: seq<Byte>): (r: bv64) { HashBytes(Hash(OFFSET_BASIS, t), w) }

  /** The eight bytes of a word in memory order. */
  function WordBytes(x: bv64, n: nat): (w: seq<Byte>)
    requires n <= 8
  {
    if n == 0 then [] else [(x & 0xFF) as int] + WordBytes(x >> 8, n - 1)
  }

  /** The `Number` structure: the 64-bit pattern, then the double. */
  function NumberHash(u: bv64, d: bv64): (r: bv64) { BufferHash(NUMBER_TYPE, WordBytes(u, 8) + WordBytes(d, 8)) }

  function IntegerHash(floats: Floats, n: int): (r: bv64) {
    NumberHash((n % TWO_64) as bv64, floats.ofInteger(n))
  }

  function TextHash(w: Text): (r: bv64) { BufferHash(STRING_TYPE, w) }

  // ----- the handler -----

  /** Folding the popped entries: pairs by xor for an object, in order for an array. */
  function FoldPairs(h: bv64, kv: seq<bv64>): (r: bv64)
    decreases |kv|
  {
    if |kv| < 2 then h else FoldPairs(Xor(h, Hash(Hash(0, kv[0]), kv[1])), kv[2..])
  }

  function FoldElements(h: bv64, e: seq<bv64>): (r: bv64)
    decreases |e|
  {
    if e == [] then h else FoldElements(Hash(h, e[0]), e[1..])
  }

  /** One handler call on the stack; `None` where it would pop what is not there. */
  function Handle(floats: Floats, stack: seq<bv64>, e: Event): (r: Option<seq<bv64>>) {
    match e
    case Null => Some(stack + [BufferHash(NULL_TYPE, [])])
    case Bool(b) => Some(stack + [BufferHash(if b then TRUE_TYPE else FALSE_TYPE, [])])
    case Int(n) => Some(stack + [IntegerHash(floats, n)])
    case Uint(n) => Some(stack + [IntegerHash(floats, n)])
    case Int64(n) => Some(stack + [IntegerHash(floats, n)])
    case Uint64(n) => Some(stack + [IntegerHash(floats, n)])
    case Double(literal) => Some(stack + [NumberHash(floats.ofLiteral(literal).0, floats.ofLiteral(literal).1)])
    case String(str) => Some(stack + [TextHash(str)])
    case Key(str) => Some(stack + [TextHash(str)])
    case StartObject => Some(stack)
    case StartArray => Some(stack)
    case EndObject(count) =>
      if |stack| < 2 * count then None
      else Some(stack[..|stack| - 2 * count] + [FoldPairs(Hash(0, OBJECT_TYPE), stack[|stack| - 2 * count..])])
    case EndArray(count) =>
      if |stack| < count then None
      else Some(stack[..|stack| - count] + [FoldElements(Hash(0, ARRAY_TYPE), stack[|stack| - count..])])
  }

  function HandleAll(floats: Floats, stack: seq<bv64>, events: seq<Event>): (r: Option<seq<bv64>>)
    decreases |events|
  {
    if events == [] then Some(stack)
    else match Handle(floats, stack, events[0])
      case None => None
      case Some(next) => HandleAll(floats, next, events[1..])
  }

  // ----- the hash of a tree -----

  function HashOf(floats: Floats, v: Value): (r: bv64)
    decreases v, 0
  {
    match v
    case NullValue => BufferHash(NULL_TYPE, [])
    case BoolValue(b) => BufferHash(if b then TRUE_TYPE else FALSE_TYPE, [])
    case NumberValue(_, _) => IntegerHash(floats, NumberEvent(v).n)
    case DoubleValue(literal) => NumberHash(floats.ofLiteral(literal).0, floats.ofLiteral(literal).1)
    case StringValue(str) => TextHash(str)
    case ArrayValue(elements) => HashElements(floats, Hash(0, ARRAY_TYPE), elements)
    case ObjectValue(members) => HashMembers(floats, Hash(0, OBJECT_TYPE), members)
  }

  function HashElements(floats: Floats, h: bv64, elements: seq<Value>): (r: bv64)
    decreases elements, 1
  {
    if elements == [] then h else HashElements(floats, Hash(h, HashOf(floats, elements[0])), elements[1..])
  }

  function HashMembers(floats: Floats, h: bv64, members: seq<Member>): (r: bv64)
    decreases members, 1
  {
    if members == [] then h
    else HashMembers(floats, Xor(h, MemberHash(floats, members[0])), members[1..])
  }

  /** What a member adds to the xor of its object. */
  function MemberHash(floats: Floats, m: Member): (r: bv64)
    decreases m, 0
  {
    Hash(Hash(0, TextHash(m.name)), HashOf(floats, m.value))
  }

  // ----- one entry for each finished value -----

  /** The events take the stack from `a` to `b`. */
  ghost predicate Hashes(floats: Floats, a: seq<bv64>, events: seq<Event>, b: seq<bv64>) {
    HandleAll(floats, a, events) == Some(b)
  }

  lemma {:induction false} HashesThen(floats: Floats, a: seq<bv64>, d: seq<Event>, b: seq<bv64>, e: seq<Event>, c: seq<bv64>)
    requires Hashes(floats, a, d, b) && Hashes(floats, b, e, c)
    ensures Hashes(floats, a, d + e, c)
    decreases |d|
  {
    hide Handle;
    if d == [] {
      assert d + e == e;
    } else {
      assert (d + e)[0] == d[0] && (d + e)[1..] == d[1..] + e;
      HashesThen(floats, Handle(floats, a, d[0]).value, d[1..], b, e, c);
    }
  }

  lemma HashesOne(floats: Floats, a: seq<bv64>, e: Event)
    requires Handle(floats, a, e).Some?
    ensures Hashes(floats, a, [e], Handle(floats, a, e).value)
  {
    hide Handle;
    assert [e][1..] == [];
    assert HandleAll(floats, Handle(floats, a, e).value, []) == Handle(floats, a, e);
  }

  lemma HashesNothing(floats: Floats, a: seq<bv64>)
    ensures Hashes(floats, a, [], a)
  {
  }

  function ElementHashes(floats: Floats, elements: seq<Value>): (r: seq<bv64>)
    ensures |r| == |elements|
  {
    if elements == [] then [] else [HashOf(floats, elements[0])] + ElementHashes(floats, elements[1..])
  }

  function MemberHashes(floats: Floats, members: seq<Member>): (r: seq<bv64>)
    ensures |r| == 2 * |members|
  {
    if members == [] then []
    else [TextHash(members[0].name), HashOf(floats, members[0].value)] + MemberHashes(floats, members[1..])
  }

  lemma {:induction false} FoldsElements(floats: Floats, h: bv64, elements: seq<Value>)
    ensures FoldElements(h, ElementHashes(floats, elements)) == HashElements(floats, h, elements)
    decreases |elements|
  {
    hide Hash, HashOf;
    if elements != [] {
      assert ElementHashes(floats, elements)[1..] == ElementHashes(floats, elements[1..]);
      FoldsElements(floats, Hash(h, HashOf(floats, elements[0])), elements[1..]);
    }
  }

  lemma {:induction false} FoldsMembers(floats: Floats, h: bv64, members: seq<Member>)
    ensures FoldPairs(h, MemberHashes(floats, members)) == HashMembers(floats, h, members)
    decreases |members|
  {
    hide Hash, HashOf, TextHash, Xor;
    if members != [] {
      assert MemberHashes(floats, members)[2..] == MemberHashes(floats, members[1..]);
      FoldsMembers(floats, Xor(h, MemberHash(floats, members[0])), members[1..]);
    }
  }

  /** A container: its children's entries are popped and one is pushed. */
  lemma ContainerHashes(floats: Floats, stack: seq<bv64>, start: Event, inner: seq<Event>, cells: seq<bv64>, end: Event, h: bv64)
    requires start == StartArray || start == StartObject
    requires Hashes(floats, stack, inner, stack + cells) && Handle(floats, stack + cells, end) == Some(stack + [h])
    ensures Hashes(floats, stack, [start] + inner + [end], stack + [h])
  {
    hide Hashes;
    HashesOne(floats, stack, start);
    HashesOne(floats, stack + cells, end);
    HashesThen(floats, stack, [start], stack, inner, stack + cells);
    HashesThen(floats, stack, [start] + inner, stack + cells, [end], stack + [h]);
  }

  lemma ArrayPops(floats: Floats, stack: seq<bv64>, elements: seq<Value>)
    ensures Handle(floats, stack + ElementHashes(floats, elements), EndArray(|elements|))
         == Some(stack + [HashElements(floats, Hash(0, ARRAY_TYPE), elements)])
  {
    hide Hash, HashOf;
    var full := stack + ElementHashes(floats, elements);
    assert full[..|full| - |elements|] == stack && full[|full| - |elements|..] == ElementHashes(floats, elements);
    FoldsElements(floats, Hash(0, ARRAY_TYPE), elements);
  }

  lemma ObjectPops(floats: Floats, stack: seq<bv64>, members: seq<Member>)
    ensures Handle(floats, stack + MemberHashes(floats, members), EndObject(|members|))
         == Some(stack + [HashMembers(floats, Hash(0, OBJECT_TYPE), members)])
  {
    hide Hash, HashOf;
    var full := stack + MemberHashes(floats, members);
    assert full[..|full| - 2 * |members|] == stack && full[|full| - 2 * |members|..] == MemberHashes(floats, members);
    FoldsMembers(floats, Hash(0, OBJECT_TYPE), members);
  }

  /** Walking a value into the hasher pushes exactly one entry, its hash. */
  lemma {:induction false} ValueHashes(floats: Floats, v: Value, stack: seq<bv64>)
    ensures Hashes(floats, stack, Accept(v), stack + [HashOf(floats, v)])
    decreases v, 0
  {
    hide Hashes, Hash, BufferHash, NumberHash, IntegerHash, TextHash, FoldElements, FoldPairs, AcceptElements, AcceptMembers;
    match v
    case ArrayValue(elements) =>
      ElementsHash(floats, elements, stack);
      ArrayPops(floats, stack, elements);
      ContainerHashes(floats, stack, StartArray, AcceptElements(elements), ElementHashes(floats, elements), EndArray(|elements|), HashOf(floats, v));
    case ObjectValue(members) =>
      MembersHash(floats, members, stack);
      ObjectPops(floats, stack, members);
      ContainerHashes(floats, stack, StartObject, AcceptMembers(members), MemberHashes(floats, members), EndObject(|members|), HashOf(floats, v));
    case _ =>
      HashesOne(floats, stack, Accept(v)[0]);
  }

  lemma {:induction false} ElementsHash(floats: Floats, elements: seq<Value>, stack: seq<bv64>)
    ensures Hashes(floats, stack, AcceptElements(elements), stack + ElementHashes(floats, elements))
    decreases elements, 1
  {
    hide Accept, HashOf, Hashes;
    if elements == [] {
      HashesNothing(floats, stack);
      assert stack + ElementHashes(floats, elements) == stack;
    } else {
      var next := stack + [HashOf(floats, elements[0])];
      ValueHashes(floats, elements[0], stack);
      ElementsHash(floats, elements[1..], next);
      assert next + ElementHashes(floats, elements[1..]) == stack + ElementHashes(floats, elements);
      HashesThen(floats, stack, Accept(elements[0]), next, AcceptElements(elements[1..]), stack + ElementHashes(floats, elements));
    }
  }

  lemma {:induction false} MembersHash(floats: Floats, members: seq<Member>, stack: seq<bv64>)
    ensures Hashes(floats, stack, AcceptMembers(members), stack + MemberHashes(floats, members))
    decreases members, 1
  {
    hide Accept, HashOf, TextHash, Hashes;
    if members == [] {
      HashesNothing(floats, stack);
      assert stack + MemberHashes(floats, members) == stack;
    } else {
      var m := members[0];
      var named := stack + [TextHash(m.name)];
      var next := named + [HashOf(floats, m.value)];
      HashesOne(floats, stack, Key(m.name));
      ValueHashes(floats, m.value, named);
      HashesThen(floats, stack, [Key(m.name)], named, Accept(m.value), next);
      MembersHash(floats, members[1..], next);
      assert next + MemberHashes(floats, members[1..]) == stack + MemberHashes(floats, members);
      HashesThen(floats, stack, [Key(m.name)] + Accept(m.value), next, AcceptMembers(members[1..]), stack + MemberHashes(floats, members));
    }
  }

  // ----- equal up to member order -----

  /** Equal values: integers by number, objects up to the order of their members, at every depth. */
  ghost predicate Same(v: Value, w: Value)
    decreases v, 0
  {
    match v
    case NumberValue(_, _) => w.NumberValue? && NumberEvent(v).n == NumberEvent(w).n
    case ArrayValue(elements) => w.ArrayValue? && AllSame(elements, w.elements)
    case ObjectValue(members) => w.ObjectValue? && SameMembers(members, w.members)
    case _ => v == w
  }

  ghost predicate AllSame(a: seq<Value>, b: seq<Value>)
    decreases a, 1
  {
    if a == [] then b == [] else b != [] && Same(a[0], b[0]) && AllSame(a[1..], b[1..])
  }

  /** Each member of `a` has a partner of its own in `b`, and none is left over. */
  ghost predicate SameMembers(a: seq<Member>, b: seq<Member>)
    decreases a, 1
  {
    if a == [] then b == []
    else exists j :: 0 <= j < |b| && PartnerAt(a, b, j)
  }

  ghost predicate PartnerAt(a: seq<Member>, b: seq<Member>, j: nat)
    requires a != [] && j < |b|
    decreases a, 0
  {
    a[0].name == b[j].name && Same(a[0].value, b[j].value) && SameMembers(a[1..], b[..j] + b[j + 1..])
  }

  lemma {:induction false} SameAsItself(v: Value)
    ensures Same(v, v)
    decreases v, 0
  {
    match v
    case ArrayValue(elements) => AllSameAsThemselves(elements);
    case ObjectValue(members) => MembersSameAsThemselves(members);
    case _ =>
  }

  lemma {:induction false} AllSameAsThemselves(a: seq<Value>)
    ensures AllSame(a, a)
    decreases a, 1
  {
    if a != [] {
      SameAsItself(a[0]);
      AllSameAsThemselves(a[1..]);
    }
  }

  lemma {:induction false} MembersSameAsThemselves(a: seq<Member>)
    ensures SameMembers(a, a)
    decreases a, 1
  {
    PermutedIsSame(a, a);
  }

  /** Any reordering of an object's members is the same object. */
  lemma {:induction false} PermutedIsSame(a: seq<Member>, b: seq<Member>)
    requires multiset(a) == multiset(b)
    ensures SameMembers(a, b)
    decreases a, 0
  {
    hide Same, PartnerAt;
    if a == [] {
      assert |multiset(b)| == |b|;
    } else {
      assert a[0] in multiset(a) && a[0] in multiset(b);
      var j :| 0 <= j < |b| && b[j] == a[0];
      TakesOne(a, 0);
      TakesOne(b, j);
      assert a[..0] + a[0 + 1..] == a[1..];
      Cancels(a[0], multiset(a[1..]), multiset(b[..j] + b[j + 1..]));
      SameAsItself(a[0].value);
      PermutedIsSame(a[1..], b[..j] + b[j + 1..]);
      PartnerIs(a, b, j);
    }
  }

  lemma PartnerIs(a: seq<Member>, b: seq<Member>, j: nat)
    requires a != [] && j < |b| && a[0].name == b[j].name && Same(a[0].value, b[j].value)
    requires SameMembers(a[1..], b[..j] + b[j + 1..])
    ensures PartnerAt(a, b, j)
  {
    hide Same, SameMembers;
  }

  lemma Cancels(m: Member, a: multiset<Member>, b: multiset<Member>)
    requires multiset{m} + a == multiset{m} + b
    ensures a == b
  {
    assert a == (multiset{m} + a) - multiset{m};
    assert b == (multiset{m} + b) - multiset{m};
  }

  lemma TakesOne(s: seq<Member>, j: nat)
    requires j < |s|
    ensures multiset(s) == multiset{s[j]} + multiset(s[..j] + s[j + 1..])
  {
    assert s == s[..j] + [s[j]] + s[j + 1..];
  }

  lemma XorSwaps(h: bv64, a: bv64, b: bv64)
    ensures Xor(Xor(h, a), b) == Xor(Xor(h, b), a)
  {
    XorAssociates(h, a, b);
    XorAssociates(h, b, a);
    XorCommutes(a, b);
    hide Xor;
  }

  lemma XorAssociates(a: bv64, b: bv64, c: bv64)
    ensures Xor(Xor(a, b), c) == Xor(a, Xor(b, c))
  {
  }

  lemma XorCommutes(a: bv64, b: bv64)
    ensures Xor(a, b) == Xor(b, a)
  {
  }

  /** Any member may be folded first. */
  lemma {:induction false} FoldAnyFirst(floats: Floats, h: bv64, members: seq<Member>, j: nat)
    requires j < |members|
    ensures HashMembers(floats, h, members)
         == HashMembers(floats, Xor(h, MemberHash(floats, members[j])), members[..j] + members[j + 1..])
    decreases j
  {
    hide MemberHash, Xor;
    var rest := members[..j] + members[j + 1..];
    if j == 0 {
      assert rest == members[1..];
    } else {
      var first, m := MemberHash(floats, members[0]), MemberHash(floats, members[j]);
      FoldAnyFirst(floats, Xor(h, first), members[1..], j - 1);
      assert members[1..][..j - 1] + members[1..][j..] == rest[1..];
      XorSwaps(h, first, m);
    }
  }

  /** Values that are the same have one hash. */
  lemma {:induction false} SameHash(floats: Floats, v: Value, w: Value)
    requires Same(v, w)
    ensures HashOf(floats, v) == HashOf(floats, w)
    decreases v, 0
  {
    hide Hash, BufferHash, NumberHash, IntegerHash, TextHash;
    match v
    case ArrayValue(elements) => SameElementsHash(floats, Hash(0, ARRAY_TYPE), elements, w.elements);
    case ObjectValue(members) => SameMembersHash(floats, Hash(0, OBJECT_TYPE), members, w.members);
    case _ =>
  }

  lemma {:induction false} SameElementsHash(floats: Floats, h: bv64, a: seq<Value>, b: seq<Value>)
    requires AllSame(a, b)
    ensures HashElements(floats, h, a) == HashElements(floats, h, b)
    decreases a, 1
  {
    hide Hash, HashOf;
    if a != [] {
      SameHash(floats, a[0], b[0]);
      SameElementsHash(floats, Hash(h, HashOf(floats, a[0])), a[1..], b[1..]);
    }
  }

  lemma SameMemberHash(floats: Floats, m: Member, n: Member)
    requires m.name == n.name && HashOf(floats, m.value) == HashOf(floats, n.value)
    ensures MemberHash(floats, m) == MemberHash(floats, n)
  {
    hide Hash, HashOf, TextHash;
  }

  lemma {:induction false} SameMembersHash(floats: Floats, h: bv64, a: seq<Member>, b: seq<Member>)
    requires SameMembers(a, b)
    ensures HashMembers(floats, h, a) == HashMembers(floats, h, b)
    decreases a, 1
  {
    hide Hash, HashOf, TextHash, Xor, MemberHash;
    if a != [] {
      var j :| 0 <= j < |b| && PartnerAt(a, b, j);
      SameHash(floats, a[0].value, b[j].value);
      SameMemberHash(floats, a[0], b[j]);
      SameMembersHash(floats, Xor(h, MemberHash(floats, a[0])), a[1..], b[..j] + b[j + 1..]);
      FoldAnyFirst(floats, h, b, j);
    }
  }

  /** Two values that are the same give the hasher one and the same final stack. */
  lemma SameValuesHashAlike(floats: Floats, v: Value, w: Value)
    requires Same(v, w)
    ensures HandleAll(floats, [], Accept(v)) == HandleAll(floats, [], Accept(w)) == Some([HashOf(floats, v)])
  {
    hide HashOf, Accept, HandleAll;
    ValueHashes(floats, v, []);
    ValueHashes(floats, w, []);
    SameHash(floats, v, w);
    HashesIs(floats, [], Accept(v), [] + [HashOf(floats, v)]);
    HashesIs(floats, [], Accept(w), [] + [HashOf(floats, w)]);
    assert [] + [HashOf(floats, v)] == [HashOf(floats, v)];
  }

  lemma HashesIs(floats: Floats, a: seq<bv64>, events: seq<Event>, b: seq<bv64>)
    requires Hashes(floats, a, events, b)
    ensures HandleAll(floats, a, events) == Some(b)
  {
  }

  lemma StartsPushNothing(floats: Floats, stack: seq<bv64>)
    ensures Handle(floats, stack, StartObject) == Handle(floats, stack, StartArray) == Some(stack)
  {
  }

  // ----- the hasher object -----

  class Hasher {
    const floats: Floats
    var stack: seq<bv64>

    constructor (floats: Floats)
      ensures this.floats == floats && stack == []
    {
      this.floats := floats;
      stack := [];
    }

    /** `WriteBuffer`: FNV-1a over the type and the bytes. */
    method WriteBuffer(t: bv64, data: seq<Byte>)
      modifies this
      ensures stack == old(stack) + [BufferHash(t, data)]
    {
      hide Hash;
      var h := Hash(OFFSET_BASIS, t);
      assert data[0..] == data;
      for i := 0 to |data|
        invariant HashBytes(h, data[i..]) == BufferHash(t, data)
      {
        assert data[i..][1..] == data[i + 1..];
        h := Hash(h, data[i] as bv64);
      }
      stack := stack + [h];
    }

    method WriteNumber(u: bv64, d: bv64)
      modifies this
      ensures stack == old(stack) + [NumberHash(u, d)]
    {
      hide WordBytes, BufferHash;
      WriteBuffer(NUMBER_TYPE, WordBytes(u, 8) + WordBytes(d, 8));
    }

    method EndObject(memberCount: nat)
      requires Handle(floats, stack, Event.EndObject(memberCount)).Some?
      modifies this
      ensures Some(stack) == Handle(floats, old(stack), Event.EndObject(memberCount))
    {
      hide Hash, Xor;
      var h := Hash(0, OBJECT_TYPE);
      var kv := stack[|stack| - 2 * memberCount..];
      stack := stack[..|stack| - 2 * memberCount];
      assert kv[2 * 0..] == kv;
      for i := 0 to memberCount
        invariant FoldPairs(h, kv[2 * i..]) == FoldPairs(Hash(0, OBJECT_TYPE), kv)
      {
        assert kv[2 * i..][2..] == kv[2 * (i + 1)..];
        h := Xor(h, Hash(Hash(0, kv[2 * i]), kv[2 * i + 1]));
      }
      stack := stack + [h];
    }

    method EndArray(elementCount: nat)
      requires Handle(floats, stack, Event.EndArray(elementCount)).Some?
      modifies this
      ensures Some(stack) == Handle(floats, old(stack), Event.EndArray(elementCount))
    {
      hide Hash;
      var h := Hash(0, ARRAY_TYPE);
      var e := stack[|stack| - elementCount..];
      stack := stack[..|stack| - elementCount];
      assert e[0..] == e;
      for i := 0 to elementCount
        invariant FoldElements(h, e[i..]) == FoldElements(Hash(0, ARRAY_TYPE), e)
      {
        assert e[i..][1..] == e[i + 1..];
        h := Hash(h, e[i]);
      }
      stack := stack + [h];
    }

    method WriteInteger(n: int)
      modifies this
      ensures stack == old(stack) + [IntegerHash(floats, n)]
    {
      hide NumberHash;
      WriteNumber((n % TWO_64) as bv64, floats.ofInteger(n));
    }

    method WriteText(str: Text)
      modifies this
      ensures stack == old(stack) + [TextHash(str)]
    {
      hide BufferHash;
      WriteBuffer(STRING_TYPE, str);
    }

    /** The handler calls that push one entry. */
    method Leaf(e: Event)
      requires !e.StartObject? && !e.StartArray? && !e.EndObject? && !e.EndArray?
      modifies this
      ensures Some(stack) == Handle(floats, old(stack), e)
    {
      hide BufferHash, NumberHash, FoldPairs, FoldElements, IntegerHash, TextHash, Hash;
      match e
      case Null => WriteBuffer(NULL_TYPE, []);
      case Bool(b) => WriteBuffer(if b then TRUE_TYPE else FALSE_TYPE, []);
      case Int(n) => WriteInteger(n);
      case Uint(n) => WriteInteger(n);
      case Int64(n) => WriteInteger(n);
      case Uint64(n) => WriteInteger(n);
      case Double(literal) => WriteNumber(floats.ofLiteral(literal).0, floats.ofLiteral(literal).1);
      case String(str) => WriteText(str);
      case Key(str) => WriteText(str);
    }

    /** The handler calls. */
    method On(e: Event)
      requires Handle(floats, stack, e).Some?
      modifies this
      ensures Some(stack) == Handle(floats, old(stack), e)
    {
      StartsPushNothing(floats, stack);
      hide Handle;
      if e.StartObject? || e.StartArray? {
        return;
      }
      if e.EndObject? {
        EndObject(e.count);
      } else if e.EndArray? {
        EndArray(e.count);
      } else {
        Leaf(e);
      }
    }

    /** A value's whole walk, and `GetHashCode` of the one entry left. */
    method HashValue(v: Value) returns (h: bv64)
      requires stack == []
      modifies this
      ensures h == HashOf(floats, v) && stack == [h]
    {
      hide Handle, HashOf, Accept;
      var events := Accept(v);
      ValueHashes(floats, v, []);
      HashesIs(floats, [], events, [] + [HashOf(floats, v)]);
      assert events[0..] == events;
      for i := 0 to |events|
        invariant HandleAll(floats, stack, events[i..]) == HandleAll(floats, [], events)
      {
        assert events[i..][0] == events[i] && events[i..][1..] == events[i + 1..];
        On(events[i]);
      }
      assert events[|events|..] == [];
      h := stack[|stack| - 1];
    }
  }
}
