/** The value tree of document.h: number flags and constructors, the traversal `Accept`, and the handler methods
    by which a document builds a tree on its stack. */
module Dom {
  import opened Bytes
  import opened Events

  /** The four integer bits of a value's flags. */
  datatype NumberFlags = NumberFlags(isInt: bool, isUint: bool, isInt64: bool, isUint64: bool)

  /** `bits` is the 64-bit pattern held in the number union. */
  datatype Value =
    | NullValue
    | BoolValue(b: bool)
    | NumberValue(bits: nat, flags: NumberFlags)
    | DoubleValue(literal: Text)
    | StringValue(str: Text)
    | ArrayValue(elements: seq<Value>)
    | ObjectValue(members: seq<Member>)

  datatype Member = Member(name: Text, value: Value)

  // ----- numbers -----

  const TWO_31 := 0x8000_0000
  const TWO_32 := 0x1_0000_0000
  const TWO_63 := 0x8000_0000_0000_0000
  const TWO_64 := 0x1_0000_0000_0000_0000

  /** The pattern of a signed value. */
  function Pattern(n: int): (r: nat) { n % TWO_64 }

  /** `GenericValue(int)`. */
  function FromInt(i: int): (r: Value) {
    NumberValue(Pattern(i), if i >= 0 then NumberFlags(true, true, true, true) else NumberFlags(true, false, true, false))
  }

  /** `GenericValue(unsigned)`: the top bit decides. */
  function FromUint(u: int): (r: Value) {
    NumberValue(Pattern(u), if u / TWO_31 % 2 != 0 then NumberFlags(false, true, true, true) else NumberFlags(true, true, true, true))
  }

  /** `GenericValue(int64_t)`: masks on the non-negative pattern, a comparison below zero. */
  function FromInt64(i: int): (r: Value) {
    NumberValue(Pattern(i),
      if i >= 0 then NumberFlags(Pattern(i) / TWO_31 == 0, Pattern(i) / TWO_32 == 0, true, true)
      else NumberFlags(i >= -TWO_31, false, true, false))
  }

  /** `GenericValue(uint64_t)`. */
  function FromUint64(u: int): (r: Value) {
    NumberValue(Pattern(u), NumberFlags(Pattern(u) / TWO_31 == 0, Pattern(u) / TWO_32 == 0, Pattern(u) / TWO_63 % 2 == 0, true))
  }

  /** The integer a number value holds. */
  function Integer(v: Value): (r: int)
    requires v.NumberValue?
  {
    if v.flags.isUint64 then v.bits else v.bits - TWO_64
  }

  /** The one representation of an integer: each flag says whether it fits the type. */
  function Canonical(n: int): (r: Value) {
    NumberValue(Pattern(n), NumberFlags(-TWO_31 <= n < TWO_31, 0 <= n < TWO_32, -TWO_63 <= n < TWO_63, 0 <= n < TWO_64))
  }

  /** The event's own range, as its C++ parameter type gives it. */
  predicate InRange(e: Event) {
    match e
    case Int(n) => -TWO_31 <= n < TWO_31
    case Uint(n) => 0 <= n < TWO_32
    case Int64(n) => -TWO_63 <= n < TWO_63
    case Uint64(n) => 0 <= n < TWO_64
    case _ => true
  }

  function FromEvent(e: Event): (r: Value)
    requires e.Int? || e.Uint? || e.Int64? || e.Uint64?
  {
    match e
    case Int(n) => FromInt(n)
    case Uint(n) => FromUint(n)
    case Int64(n) => FromInt64(n)
    case Uint64(n) => FromUint64(n)
  }

  /** Whichever constructor an integer comes through, the value is the same and its flags say what it fits. */
  lemma ConstructorsAreCanonical(e: Event)
    requires (e.Int? || e.Uint? || e.Int64? || e.Uint64?) && InRange(e)
    ensures FromEvent(e) == Canonical(e.n)
    ensures Integer(FromEvent(e)) == e.n
  {
  }

  /** The pattern comparison of `operator==` is integer equality except across 2^64: a negative number equals the
      unsigned one with its pattern, and nothing else is confused. */
  lemma PatternEquality(m: int, n: int)
    requires -TWO_63 <= m < TWO_64 && -TWO_63 <= n < TWO_64
    ensures Canonical(m).bits == Canonical(n).bits <==> m == n || m == n - TWO_64 || n == m - TWO_64
  {
  }

  /** Minus one and the largest unsigned integer are taken for equal. */
  lemma PatternsCollide()
    ensures Canonical(-1).bits == Canonical(TWO_64 - 1).bits && Integer(Canonical(-1)) != Integer(Canonical(TWO_64 - 1))
  {
    PatternEquality(-1, TWO_64 - 1);
    ConstructorsAreCanonical(Int64(-1));
    ConstructorsAreCanonical(Uint64(TWO_64 - 1));
  }

  /** The low 32 bits as a signed int, `data_.n.i.i`. */
  function LowInt(bits: nat): (r: int) {
    if bits % TWO_32 >= TWO_31 then bits % TWO_32 - TWO_32 else bits % TWO_32
  }

  function SignedPattern(bits: nat): (r: int) {
    if bits >= TWO_63 then bits - TWO_64 else bits
  }

  /** The number cases of `Accept`, narrowest signed type first. */
  function NumberEvent(v: Value): (r: Event)
    requires v.NumberValue?
  {
    if v.flags.isInt then Int(LowInt(v.bits))
    else if v.flags.isUint then Uint(v.bits % TWO_32)
    else if v.flags.isInt64 then Int64(SignedPattern(v.bits))
    else Uint64(v.bits)
  }

  /** Visiting a canonical number raises an event with the very integer, in the event's range. */
  lemma NumberEventIsExact(n: int)
    requires -TWO_63 <= n < TWO_64
    ensures var e := NumberEvent(Canonical(n)); (e.Int? || e.Uint? || e.Int64? || e.Uint64?) && e.n == n && InRange(e)
  {
  }

  // ----- traversal -----

  /** `Accept`: the events a value raises, counts cast to 32 bits. */
  function Accept(v: Value): (events: seq<Event>)
    decreases v, 0
  {
    match v
    case NullValue => [Null]
    case BoolValue(b) => [Bool(b)]
    case NumberValue(_, _) => [NumberEvent(v)]
    case DoubleValue(literal) => [Double(literal)]
    case StringValue(str) => [String(str)]
    case ArrayValue(elements) => [StartArray] + AcceptElements(elements) + [EndArray(|elements|)]
    case ObjectValue(members) => [StartObject] + AcceptMembers(members) + [EndObject(|members|)]
  }

  function AcceptElements(elements: seq<Value>): (events: seq<Event>)
    decreases elements, 1
  {
    if elements == [] then [] else Accept(elements[0]) + AcceptElements(elements[1..])
  }

  function AcceptMembers(members: seq<Member>): (events: seq<Event>)
    decreases members, 1
  {
    if members == [] then []
    else [Key(members[0].name)] + Accept(members[0].value) + AcceptMembers(members[1..])
  }

  // ----- the document as a handler -----

  /** One handler call on the document's stack; `None` where it would pop what is not there. */
  function Push(stack: seq<Value>, e: Event): (r: Option<seq<Value>>) {
    match e
    case Null => Some(stack + [NullValue])
    case Bool(b) => Some(stack + [BoolValue(b)])
    case Int(n) => Some(stack + [FromInt(n)])
    case Uint(n) => Some(stack + [FromUint(n)])
    case Int64(n) => Some(stack + [FromInt64(n)])
    case Uint64(n) => Some(stack + [FromUint64(n)])
    case Double(literal) => Some(stack + [DoubleValue(literal)])
    case String(str) => Some(stack + [StringValue(str)])
    case Key(str) => Some(stack + [StringValue(str)])
    case StartObject => Some(stack + [ObjectValue([])])
    case StartArray => Some(stack + [ArrayValue([])])
    case EndArray(count) =>
      if |stack| < count + 1 then None
      else
        var base := |stack| - count;
        Some(stack[..base - 1] + [ArrayValue(stack[base..])])
    case EndObject(count) =>
      if |stack| < 2 * count + 1 then None
      else
        var base := |stack| - 2 * count;
        match MembersOf(stack[base..])
        case None => None
        case Some(members) => Some(stack[..base - 1] + [ObjectValue(members)])
  }

  /** The popped cells read as members: name, value, name, value. */
  function MembersOf(cells: seq<Value>): (r: Option<seq<Member>>) {
    if |cells| < 2 then Some([])
    else if !cells[0].StringValue? then None
    else match MembersOf(cells[2..])
      case None => None
      case Some(rest) => Some([Member(cells[0].str, cells[1])] + rest)
  }

  /** A run of handler calls. */
  function Build(stack: seq<Value>, events: seq<Event>): (r: Option<seq<Value>>)
    decreases |events|
  {
    if events == [] then Some(stack)
    else match Push(stack, events[0])
      case None => None
      case Some(next) => Build(next, events[1..])
  }

  lemma {:induction false} BuildAppend(stack: seq<Value>, a: seq<Event>, b: seq<Event>)
    ensures Build(stack, a + b) == match Build(stack, a) case None => None case Some(mid) => Build(mid, b)
    decreases |a|
  {
    hide Push;
    if a == [] {
      assert a + b == b;
    } else {
      assert (a + b)[0] == a[0] && (a + b)[1..] == a[1..] + b;
      var next := Push(stack, a[0]);
      if next.Some? {
        BuildAppend(next.value, a[1..], b);
      }
    }
  }

  /** The document: values pushed, containers folded in place on the stack. */
  class GenericDocument {
    var root: Value
    var stack: seq<Value>

    constructor ()
      ensures root == NullValue && stack == []
    {
      root, stack := NullValue, [];
    }

    method PushValue(v: Value)
      modifies this`stack
      ensures stack == old(stack) + [v]
    {
      stack := stack + [v];
    }

    /** `SetObjectRaw`'s copy of the popped cells. */
    static method CopyMembers(cells: seq<Value>, memberCount: nat) returns (members: seq<Member>)
      requires |cells| == 2 * memberCount && MembersOf(cells).Some?
      ensures Some(members) == MembersOf(cells)
    {
      members := [];
      var i := 0;
      assert cells[0..] == cells && members + MembersOf(cells).value == MembersOf(cells).value;
      while i < memberCount
        invariant i <= memberCount && MembersOf(cells[2 * i..]).Some?
        invariant MembersOf(cells) == Some(members + MembersOf(cells[2 * i..]).value)
      {
        ghost var rest := MembersOf(cells[2 * (i + 1)..]);
        assert cells[2 * i..][2..] == cells[2 * (i + 1)..];
        var m := Member(cells[2 * i].str, cells[2 * i + 1]);
        assert members + ([m] + rest.value) == members + [m] + rest.value;
        members := members + [m];
        i := i + 1;
      }
      assert members + [] == members;
    }

    /** `Pop<Member>(memberCount)`, then `SetObjectRaw` on the new top. */
    method EndObject(memberCount: nat)
      requires Push(stack, Event.EndObject(memberCount)).Some?
      modifies this`stack
      ensures Some(stack) == Push(old(stack), Event.EndObject(memberCount))
    {
      hide MembersOf;
      var base := |stack| - 2 * memberCount;
      var members := CopyMembers(stack[base..], memberCount);
      assert stack[..base][..base - 1] == old(stack)[..base - 1];
      stack := stack[..base];
      stack := stack[..|stack| - 1] + [ObjectValue(members)];
    }

    method EndArray(elementCount: nat)
      requires Push(stack, Event.EndArray(elementCount)).Some?
      modifies this`stack
      ensures Some(stack) == Push(old(stack), Event.EndArray(elementCount))
    {
      var base := |stack| - elementCount;
      var elements := stack[base..];
      stack := stack[..base];
      assert stack[..|stack| - 1] == old(stack)[..base - 1];
      stack := stack[..|stack| - 1] + [ArrayValue(elements)];
    }

    /** The handler calls. */
    method Handle(e: Event)
      requires Push(stack, e).Some?
      modifies this`stack
      ensures Some(stack) == Push(old(stack), e)
    {
      match e
      case Null => PushValue(NullValue);
      case Bool(b) => PushValue(BoolValue(b));
      case Int(n) => PushValue(FromInt(n));
      case Uint(n) => PushValue(FromUint(n));
      case Int64(n) => PushValue(FromInt64(n));
      case Uint64(n) => PushValue(FromUint64(n));
      case Double(literal) => PushValue(DoubleValue(literal));
      case String(str) => PushValue(StringValue(str));
      case Key(str) => PushValue(StringValue(str));
      case StartObject => PushValue(ObjectValue([]));
      case StartArray => PushValue(ArrayValue([]));
      case EndObject(count) => EndObject(count);
      case EndArray(count) => EndArray(count);
    }

    /** A run of handler calls. */
    method Receive(events: seq<Event>)
      requires Build(stack, events).Some?
      modifies this`stack
      ensures Some(stack) == Build(old(stack), events)
    {
      hide Push;
      var i := 0;
      assert events[0..] == events;
      while i < |events|
        invariant i <= |events| && Build(stack, events[i..]) == Build(old(stack), events)
      {
        assert events[i..][0] == events[i] && events[i..][1..] == events[i + 1..];
        Handle(events[i]);
        i := i + 1;
      }
    }

    /** The only value left, moved from the stack into the document. */
    method TakeRoot()
      requires |stack| == 1
      modifies this
      ensures [root] == old(stack) && stack == []
    {
      root := stack[|stack| - 1];
      stack := stack[..|stack| - 1];
    }

    method ClearStack()
      modifies this`stack
      ensures stack == []
    {
      stack := [];
    }
  }
}
