/** `operator==` of values: members are looked up by name, integers compared by their bit pattern. */
module Equality {
  import opened Bytes
  import opened Dom
  import opened PointerTree
  import Hashing

  /** How two numbers compare of which one at least is a double. */
  type Close = (Value, Value) -> bool

  /** `operator==`. */
  predicate Equal(close: Close, v: Value, w: Value)
    decreases v, 0
  {
    match v
    case NumberValue(bits, _) => if w.DoubleValue? then close(v, w) else w.NumberValue? && bits == w.bits
    case DoubleValue(_) => (w.DoubleValue? || w.NumberValue?) && close(v, w)
    case ArrayValue(elements) => w.ArrayValue? && |elements| == |w.elements| && AllEqual(close, elements, w.elements)
    case ObjectValue(members) => w.ObjectValue? && |members| == |w.members| && AllFound(close, members, w.members)
    case _ => v == w
  }

  predicate AllEqual(close: Close, a: seq<Value>, b: seq<Value>)
    requires |a| == |b|
    decreases a, 1
  {
    a == [] || (Equal(close, a[0], b[0]) && AllEqual(close, a[1..], b[1..]))
  }

  /** Each member of `a` equals the first one of its name in `b`. */
  predicate AllFound(close: Close, a: seq<Member>, b: seq<Member>)
    decreases a, 1
  {
    a == [] ||
    var k := FindMember(b, a[0].name);
    k < |b| && Equal(close, a[0].value, b[k].value) && AllFound(close, a[1..], b)
  }

  // ----- which trees are meant -----

  /** No object has two members of one name. */
  predicate Distinct(v: Value)
    decreases v, 0
  {
    match v
    case ArrayValue(elements) => AllDistinct(elements)
    case ObjectValue(members) => NamesDistinct(members) && MembersDistinct(members)
    case _ => true
  }

  predicate AllDistinct(elements: seq<Value>)
    decreases elements, 1
  {
    elements == [] || (Distinct(elements[0]) && AllDistinct(elements[1..]))
  }

  predicate MembersDistinct(members: seq<Member>)
    decreases members, 1
  {
    members == [] || (Distinct(members[0].value) && MembersDistinct(members[1..]))
  }

  predicate NamesDistinct(members: seq<Member>) {
    forall j, k :: 0 <= j < k < |members| ==> members[j].name != members[k].name
  }

  /** No double, and every pattern 64 bits wide. */
  predicate Exact(v: Value)
    decreases v, 0
  {
    match v
    case NumberValue(bits, _) => bits < TWO_64
    case DoubleValue(_) => false
    case ArrayValue(elements) => AllExact(elements)
    case ObjectValue(members) => MembersExact(members)
    case _ => true
  }

  predicate AllExact(elements: seq<Value>)
    decreases elements, 1
  {
    elements == [] || (Exact(elements[0]) && AllExact(elements[1..]))
  }

  predicate MembersExact(members: seq<Member>)
    decreases members, 1
  {
    members == [] || (Exact(members[0].value) && MembersExact(members[1..]))
  }

  // ----- patterns as unsigned numbers -----

  /** The tree with every integer replaced by the unsigned one of its pattern. */
  function Unsigned(v: Value): (r: Value)
    decreases v, 0
  {
    match v
    case NumberValue(bits, _) => Canonical(bits)
    case ArrayValue(elements) => ArrayValue(UnsignedElements(elements))
    case ObjectValue(members) => ObjectValue(UnsignedMembers(members))
    case _ => v
  }

  function UnsignedElements(elements: seq<Value>): (r: seq<Value>)
    ensures |r| == |elements|
    decreases elements, 1
  {
    if elements == [] then [] else [Unsigned(elements[0])] + UnsignedElements(elements[1..])
  }

  function UnsignedMembers(members: seq<Member>): (r: seq<Member>)
    ensures |r| == |members|
    ensures forall k :: 0 <= k < |r| ==> r[k] == Member(members[k].name, Unsigned(members[k].value))
    decreases members, 1
  {
    if members == [] then []
    else [Member(members[0].name, Unsigned(members[0].value))] + UnsignedMembers(members[1..])
  }

  /** A member taken out. */
  function Without(members: seq<Member>, j: nat): (r: seq<Member>)
    requires j < |members|
    ensures |r| == |members| - 1
    ensures forall k :: 0 <= k < j ==> r[k] == members[k]
    ensures forall k :: j <= k < |r| ==> r[k] == members[k + 1]
  {
    members[..j] + members[j + 1..]
  }

  lemma UnsignedWithout(members: seq<Member>, j: nat)
    requires j < |members|
    ensures UnsignedMembers(Without(members, j)) == Without(UnsignedMembers(members), j)
  {
    hide Unsigned, UnsignedMembers, Without;
    var a, b := UnsignedMembers(Without(members, j)), Without(UnsignedMembers(members), j);
    forall k | 0 <= k < |a| ensures a[k] == b[k] {
      assert Without(members, j)[k] == members[if k < j then k else k + 1];
    }
  }

  lemma UnsignedTail(members: seq<Member>)
    requires members != []
    ensures UnsignedMembers(members)[1..] == UnsignedMembers(members[1..])
  {
    hide Unsigned;
  }

  lemma {:induction false} ExactWithout(members: seq<Member>, j: nat)
    requires j < |members| && MembersExact(members)
    ensures MembersExact(Without(members, j)) && Exact(members[j].value)
    decreases |members|
  {
    if j == 0 {
      assert Without(members, 0) == members[1..];
    } else {
      ExactWithout(members[1..], j - 1);
      assert Without(members, j)[1..] == Without(members[1..], j - 1);
    }
  }

  lemma UnsignedNumbers(v: Value, w: Value)
    requires v.NumberValue? && w.NumberValue? && v.bits < TWO_64 && w.bits < TWO_64
    ensures Hashing.Same(Unsigned(v), Unsigned(w)) <==> v.bits == w.bits
  {
    NumberEventIsExact(v.bits);
    NumberEventIsExact(w.bits);
  }

  // ----- equality is sameness up to member order -----

  /** A member of `b` that no name of `a` asks for makes no difference. */
  lemma {:induction false} FoundWithout(close: Close, a: seq<Member>, b: seq<Member>, j: nat)
    requires j < |b| && forall k :: 0 <= k < |a| ==> a[k].name != b[j].name
    ensures AllFound(close, a, b) <==> AllFound(close, a, Without(b, j))
    decreases |a|
  {
    hide Equal, FindMember;
    if a != [] {
      FindAfterErase(b, j, a[0].name);
      FoundWithout(close, a[1..], b, j);
    }
  }

  /** Partners have the same names. */
  lemma {:induction false} PartnerNames(a: seq<Member>, b: seq<Member>, k: nat) returns (i: nat)
    requires Hashing.SameMembers(a, b) && k < |b|
    ensures i < |a| && a[i].name == b[k].name
    decreases |a|
  {
    hide Hashing.Same;
    var j :| 0 <= j < |b| && Hashing.PartnerAt(a, b, j);
    if j == k {
      i := 0;
    } else {
      var rest := PartnerNames(a[1..], b[..j] + b[j + 1..], if k < j then k else k - 1);
      i := rest + 1;
    }
  }

  /** On a tree without doublets of names, `operator==` is sameness up to the order of members at every depth, integers
      taken by their pattern. Of the other side nothing need be known but that it has no doubles. */
  lemma {:induction false} EqualIffSame(close: Close, v: Value, w: Value)
    requires Distinct(v) && Exact(v) && Exact(w)
    ensures Equal(close, v, w) <==> Hashing.Same(Unsigned(v), Unsigned(w))
    decreases v, 0
  {
    match v
    case NumberValue(_, _) => if w.NumberValue? { UnsignedNumbers(v, w); }
    case ArrayValue(elements) => if w.ArrayValue? { ElementsEqualIffSame(close, elements, w.elements); }
    case ObjectValue(members) => if w.ObjectValue? { MembersEqualIffSame(close, members, w.members); }
    case _ =>
  }

  lemma {:induction false} ElementsEqualIffSame(close: Close, a: seq<Value>, b: seq<Value>)
    requires AllDistinct(a) && AllExact(a) && AllExact(b)
    ensures |a| == |b| && AllEqual(close, a, b) <==> Hashing.AllSame(UnsignedElements(a), UnsignedElements(b))
    decreases a, 1
  {
    hide Equal, Hashing.Same, Unsigned;
    if a != [] && b != [] {
      EqualIffSame(close, a[0], b[0]);
      ElementsEqualIffSame(close, a[1..], b[1..]);
    }
  }

  /** A partner of the first member is the first of its name. */
  lemma FirstOfItsName(a: seq<Member>, b: seq<Member>, j: nat)
    requires a != [] && NamesDistinct(a) && j < |b| && a[0].name == b[j].name
    requires Hashing.SameMembers(UnsignedMembers(a[1..]), UnsignedMembers(Without(b, j)))
    ensures FindMember(b, a[0].name) == j
  {
    hide Hashing.SameMembers, FindMember;
    var k := FindMember(b, a[0].name);
    assert forall i :: 0 <= i < |a| - 1 ==> a[1..][i].name != a[0].name;
    if k < j {
      var i := PartnerNames(UnsignedMembers(a[1..]), UnsignedMembers(Without(b, j)), k);
    }
  }

  lemma {:induction false} MembersEqualIffSame(close: Close, a: seq<Member>, b: seq<Member>)
    requires NamesDistinct(a) && MembersDistinct(a) && MembersExact(a) && MembersExact(b)
    ensures |a| == |b| && AllFound(close, a, b) <==> Hashing.SameMembers(UnsignedMembers(a), UnsignedMembers(b))
    decreases a, 1
  {
    hide Equal, Hashing.Same, Unsigned, FindMember, Exact, Distinct, UnsignedMembers;
    if a != [] {
      if |a| == |b| && AllFound(close, a, b) {
        PartnersIfFound(close, a, b);
      }
      if Hashing.SameMembers(UnsignedMembers(a), UnsignedMembers(b)) {
        var j := SomePartner(UnsignedMembers(a), UnsignedMembers(b));
        FoundIfPartners(close, a, b, j);
      }
    }
  }

  lemma SomePartner(a: seq<Member>, b: seq<Member>) returns (j: nat)
    requires a != [] && Hashing.SameMembers(a, b)
    ensures j < |b| && Hashing.PartnerAt(a, b, j)
  {
    j :| 0 <= j < |b| && Hashing.PartnerAt(a, b, j);
  }

  lemma TailsAreFine(a: seq<Member>)
    requires a != [] && NamesDistinct(a) && MembersDistinct(a) && MembersExact(a)
    ensures NamesDistinct(a[1..]) && MembersDistinct(a[1..]) && MembersExact(a[1..])
    ensures Distinct(a[0].value) && Exact(a[0].value)
    ensures forall k :: 0 <= k < |a| - 1 ==> a[1..][k].name != a[0].name
  {
  }

  lemma {:induction false} PartnersIfFound(close: Close, a: seq<Member>, b: seq<Member>)
    requires a != [] && NamesDistinct(a) && MembersDistinct(a) && MembersExact(a) && MembersExact(b)
    requires |a| == |b| && AllFound(close, a, b)
    ensures Hashing.SameMembers(UnsignedMembers(a), UnsignedMembers(b))
    decreases a, 0
  {
    hide Equal, Hashing.Same, Unsigned, FindMember, Exact, Distinct, MembersExact, MembersDistinct, NamesDistinct, UnsignedMembers, Without;
    var ua, ub := UnsignedMembers(a), UnsignedMembers(b);
    var k := FindMember(b, a[0].name);
    TailsAreFine(a);
    ExactWithout(b, k);
    UnsignedWithout(b, k);
    UnsignedTail(a);
    EqualIffSame(close, a[0].value, b[k].value);
    FoundWithout(close, a[1..], b, k);
    MembersEqualIffSame(close, a[1..], Without(b, k));
    WithoutIs(ub, k);
    assert Hashing.PartnerAt(ua, ub, k);
  }

  lemma WithoutIs(members: seq<Member>, j: nat)
    requires j < |members|
    ensures Without(members, j) == members[..j] + members[j + 1..]
  {
  }

  lemma {:induction false} FoundIfPartners(close: Close, a: seq<Member>, b: seq<Member>, j: nat)
    requires a != [] && NamesDistinct(a) && MembersDistinct(a) && MembersExact(a) && MembersExact(b)
    requires j < |b| && Hashing.PartnerAt(UnsignedMembers(a), UnsignedMembers(b), j)
    ensures |a| == |b| && AllFound(close, a, b)
    decreases a, 0
  {
    hide Equal, Hashing.Same, Hashing.SameMembers, Unsigned, FindMember, Exact, Distinct, MembersExact, MembersDistinct,
      NamesDistinct, UnsignedMembers, Without;
    TailsAreFine(a);
    UnsignedWithout(b, j);
    UnsignedTail(a);
    WithoutIs(UnsignedMembers(b), j);
    ExactWithout(b, j);
    FirstOfItsName(a, b, j);
    EqualIffSame(close, a[0].value, b[j].value);
    MembersEqualIffSame(close, a[1..], Without(b, j));
    FoundWithout(close, a[1..], b, j);
  }

  // ----- sameness is an equivalence -----

  /** Two members taken out, in either order. */
  lemma WithoutTwice(c: seq<Member>, j: nat, k: nat)
    requires j < |c| && k < |c| && j != k
    ensures Without(Without(c, j), if k < j then k else k - 1) == Without(Without(c, k), if j < k then j else j - 1)
  {
    var x := Without(Without(c, j), if k < j then k else k - 1);
    var y := Without(Without(c, k), if j < k then j else j - 1);
    forall m | 0 <= m < |x| ensures x[m] == y[m] {
    }
  }

  /** Every member of `c` is the partner of one of `b`. */
  lemma {:induction false} PartnerOf(b: seq<Member>, c: seq<Member>, j: nat) returns (i: nat)
    requires Hashing.SameMembers(b, c) && j < |c|
    ensures i < |b| && b[i].name == c[j].name && Hashing.Same(b[i].value, c[j].value)
    ensures Hashing.SameMembers(Without(b, i), Without(c, j))
    decreases |b|
  {
    hide Hashing.Same, Without;
    var m := SomePartner(b, c);
    WithoutIs(c, m);
    TailIsWithout(b);
    if m == j {
      i := 0;
    } else {
      var j' := if j < m then j else j - 1;
      var rest := PartnerOf(b[1..], Without(c, m), j');
      i := rest + 1;
      WithoutTwice(c, m, j);
      var m' := if m < j then m else m - 1;
      TailWithout(b, i);
      WithoutIs(Without(c, j), m');
      assert Hashing.PartnerAt(Without(b, i), Without(c, j), m');
    }
  }

  lemma TailIsWithout(b: seq<Member>)
    requires b != []
    ensures Without(b, 0) == b[1..]
  {
  }

  lemma TailWithout(b: seq<Member>, i: nat)
    requires 0 < i < |b|
    ensures Without(b, i)[0] == b[0] && Without(b, i)[1..] == Without(b[1..], i - 1)
  {
  }

  /** Two values the same as a third are the same. */
  lemma {:induction false} SameAsOne(u: Value, v: Value, w: Value)
    requires Hashing.Same(u, w) && Hashing.Same(v, w)
    ensures Hashing.Same(u, v)
    decreases u, 0
  {
    match u
    case ArrayValue(elements) => ElementsSameAsOne(elements, v.elements, w.elements);
    case ObjectValue(members) => MembersSameAsOne(members, v.members, w.members);
    case _ =>
  }

  lemma {:induction false} ElementsSameAsOne(a: seq<Value>, b: seq<Value>, c: seq<Value>)
    requires Hashing.AllSame(a, c) && Hashing.AllSame(b, c)
    ensures Hashing.AllSame(a, b)
    decreases a, 1
  {
    hide Hashing.Same;
    if a != [] {
      SameAsOne(a[0], b[0], c[0]);
      ElementsSameAsOne(a[1..], b[1..], c[1..]);
    }
  }

  lemma {:induction false} MembersSameAsOne(a: seq<Member>, b: seq<Member>, c: seq<Member>)
    requires Hashing.SameMembers(a, c) && Hashing.SameMembers(b, c)
    ensures Hashing.SameMembers(a, b)
    decreases a, 1
  {
    hide Hashing.Same, Without;
    if a == [] {
      NonePartnered(b);
    } else {
      var j := SomePartner(a, c);
      var i := PartnerOf(b, c, j);
      WithoutIs(c, j);
      WithoutIs(b, i);
      SameAsOne(a[0].value, b[i].value, c[j].value);
      MembersSameAsOne(a[1..], Without(b, i), Without(c, j));
      assert Hashing.PartnerAt(a, b, i);
    }
  }

  lemma NonePartnered(b: seq<Member>)
    requires Hashing.SameMembers(b, [])
    ensures b == []
  {
  }

  // ----- what equality is then -----

  /** Among trees without doublets of names and without doubles `operator==` is an equivalence, and the hasher, given the
      patterns as unsigned numbers, does not tell equal values apart. */
  lemma EqualIsEquivalence(close: Close, floats: Hashing.Floats, u: Value, v: Value, w: Value)
    requires Distinct(u) && Distinct(v) && Exact(u) && Exact(v) && Exact(w)
    ensures Equal(close, u, u)
    ensures Equal(close, u, v) ==> Equal(close, v, u)
    ensures Equal(close, u, v) && Equal(close, v, w) ==> Equal(close, u, w)
    ensures Equal(close, u, v) ==> Hashing.HashOf(floats, Unsigned(u)) == Hashing.HashOf(floats, Unsigned(v))
  {
    hide Equal, Hashing.Same, Unsigned, Distinct, Exact, Hashing.HashOf;
    EqualIffSame(close, u, u);
    EqualIffSame(close, u, v);
    EqualIffSame(close, v, u);
    EqualIffSame(close, v, w);
    EqualIffSame(close, u, w);
    var x, y, z := Unsigned(u), Unsigned(v), Unsigned(w);
    Hashing.SameAsItself(x);
    Hashing.SameAsItself(y);
    Hashing.SameAsItself(z);
    if Hashing.Same(x, y) {
      Hashing.SameHash(floats, x, y);
      SameAsOne(y, x, y);
      if Hashing.Same(y, z) {
        SameAsOne(z, y, z);
        SameAsOne(x, z, y);
      }
    }
  }

  // ----- objects that repeat a name -----

  /** Members of one name are equal. */
  ghost predicate DoubletsEqual(close: Close, members: seq<Member>) {
    forall i, j :: 0 <= i < |members| && 0 <= j < |members| && members[i].name == members[j].name ==>
      Equal(close, members[i].value, members[j].value)
  }

  lemma {:induction false} FoundAt(close: Close, a: seq<Member>, b: seq<Member>)
    ensures AllFound(close, a, b) <==>
      forall i :: 0 <= i < |a| ==>
        FindMember(b, a[i].name) < |b| && Equal(close, a[i].value, b[FindMember(b, a[i].name)].value)
    decreases |a|
  {
    hide Equal, FindMember;
    if a != [] {
      FoundAt(close, a[1..], b);
      assert forall i :: 0 <= i < |a| - 1 ==> a[1..][i] == a[i + 1];
    }
  }

  lemma {:induction false} EachDistinct(members: seq<Member>, i: nat)
    requires i < |members| && MembersDistinct(members) && MembersExact(members)
    ensures Distinct(members[i].value) && Exact(members[i].value)
    decreases i
  {
    if i > 0 {
      EachDistinct(members[1..], i - 1);
    }
  }

  lemma {:induction false} EachExact(members: seq<Member>, i: nat)
    requires i < |members| && MembersExact(members)
    ensures Exact(members[i].value)
    decreases i
  {
    if i > 0 {
      EachExact(members[1..], i - 1);
    }
  }

  /** The note that an object repeating a name is never equal to another does not hold: such an object, its values
      without doublets themselves, equals some object exactly when its members of one name are equal. */
  lemma DoubletsMayEqual(close: Close, members: seq<Member>)
    requires MembersDistinct(members) && MembersExact(members)
    ensures (exists w :: Exact(w) && Equal(close, ObjectValue(members), w)) <==> DoubletsEqual(close, members)
  {
    hide Equal, Exact, FindMember, Distinct;
    if DoubletsEqual(close, members) {
      FoundAt(close, members, members);
      forall i | 0 <= i < |members|
        ensures FindMember(members, members[i].name) < |members|
      {
      }
      ObjectEqual(close, members, ObjectValue(members));
      assert Exact(ObjectValue(members)) && Equal(close, ObjectValue(members), ObjectValue(members)) by {
        ObjectExact(members);
      }
    }
    if w :| Exact(w) && Equal(close, ObjectValue(members), w) {
      ObjectEqual(close, members, w);
      ObjectExactInside(w);
      FoundAt(close, members, w.members);
      forall i, j | 0 <= i < |members| && 0 <= j < |members| && members[i].name == members[j].name
        ensures Equal(close, members[i].value, members[j].value)
      {
        var k := FindMember(w.members, members[i].name);
        var x, y, z := members[i].value, members[j].value, w.members[k].value;
        EachDistinct(members, i);
        EachDistinct(members, j);
        EachExact(w.members, k);
        EqualIffSame(close, x, z);
        EqualIffSame(close, y, z);
        EqualIffSame(close, x, y);
        SameAsOne(Unsigned(x), Unsigned(y), Unsigned(z));
      }
    }
  }

  lemma ObjectEqual(close: Close, members: seq<Member>, w: Value)
    ensures Equal(close, ObjectValue(members), w)
      <==> w.ObjectValue? && |members| == |w.members| && AllFound(close, members, w.members)
  {
  }

  lemma ObjectExact(members: seq<Member>)
    ensures Exact(ObjectValue(members)) == MembersExact(members)
  {
  }

  lemma ObjectExactInside(w: Value)
    requires Exact(w)
    ensures w.ObjectValue? ==> MembersExact(w.members)
  {
  }

  const NAME_A: Text := ['a' as int]
  const NAME_B: Text := ['b' as int]

  /** An object that repeats a name with one value equals itself, and another object that does not equal it back. */
  lemma DoubletsAreLopsided(close: Close)
    ensures var twice, both := ObjectValue([Member(NAME_A, NullValue), Member(NAME_A, NullValue)]),
                               ObjectValue([Member(NAME_A, NullValue), Member(NAME_B, NullValue)]);
      Equal(close, twice, twice) && Equal(close, twice, both) && !Equal(close, both, twice)
  {
    var a, b := Member(NAME_A, NullValue), Member(NAME_B, NullValue);
    assert FindMember([a, a], NAME_A) == 0 && FindMember([a, b], NAME_A) == 0;
    assert FindMember([a, a], NAME_B) == 2;
    FoundAt(close, [a, a], [a, a]);
    FoundAt(close, [a, a], [a, b]);
    FoundAt(close, [a, b], [a, a]);
    assert [a, b][1] == b;
  }
}
