/** Pointers of a compiled schema document by the text they print: `operator==` on pointers compares the index of a
    token beside its name, so that one text can have two entries. */
module SchemaTexts {
  import opened Bytes
  import opened Dom
  import opened PointerObject
  import opened PointerTree
  import opened SchemaPlaces
  import opened SchemaCompiler
  import Decimal
  import Pointer

  function NamesOf(p: seq<Ref>): (names: seq<Text>)
    ensures |names| == |p| && forall k :: 0 <= k < |p| ==> names[k] == p[k].name
  {
    if p == [] then [] else [p[0].name] + NamesOf(p[1..])
  }

  /** `Stringify`. */
  function TextOf(p: seq<Ref>): (r: Text) {
    Pointer.StringifySucceeds(false, NamesOf(p));
    Pointer.Stringify(false, NamesOf(p)).value
  }

  /** Two pointers print the same text exactly when their names agree. */
  lemma SameTextIff(p: seq<Ref>, q: seq<Ref>)
    ensures TextOf(p) == TextOf(q) <==> NamesOf(p) == NamesOf(q)
  {
    hide Pointer.Stringify, Pointer.Parse, NamesOf;
    Pointer.StringifySucceeds(false, NamesOf(p));
    Pointer.StringifySucceeds(false, NamesOf(q));
    Pointer.ParseStringify(false, NamesOf(p));
    Pointer.ParseStringify(false, NamesOf(q));
  }

  // ----- the tokens the compiler makes -----

  /** A name, or the index that the name denotes. */
  predicate Known(t: Ref) { t.index == INVALID_INDEX || t.index == IndexOf(t.name) }

  ghost predicate AllKnown(p: seq<Ref>) { forall k :: 0 <= k < |p| ==> Known(p[k]) }

  lemma {:induction false} DigitsAreFew(n: nat)
    ensures |Decimal.Digits(n)| <= n + 1
  {
    if n >= 10 {
      DigitsAreFew(n / 10);
    }
  }

  lemma IndexTokenKnown(k: nat)
    requires k < INVALID_INDEX
    ensures Known(IndexToken(k))
  {
    DigitsAreFew(k);
    DigitsAreCanonical(k);
    IndexIsExact(Decimal.Digits(k));
  }

  /** No array of the value has 2^32 - 1 elements or more. */
  predicate Sized(v: Value)
    decreases v, 0
  {
    match v
    case ArrayValue(elements) => |elements| < INVALID_INDEX && AllSized(elements)
    case ObjectValue(members) => MembersSized(members)
    case _ => true
  }

  predicate AllSized(elements: seq<Value>)
    decreases elements, 1
  {
    elements == [] || (Sized(elements[0]) && AllSized(elements[1..]))
  }

  predicate MembersSized(members: seq<Member>)
    decreases members, 1
  {
    members == [] || (Sized(members[0].value) && MembersSized(members[1..]))
  }

  lemma AppendKnown(p: seq<Ref>, t: Ref)
    requires AllKnown(p) && Known(t)
    ensures AllKnown(p + [t])
  {
  }

  /** Walking from a pointer of known tokens meets pointers of known tokens. */
  lemma {:induction false} BelowKnown(p: seq<Ref>, v: Value, c: Place)
    requires AllKnown(p) && Sized(v) && c in Below(p, v)
    ensures AllKnown(c.pointer)
    decreases v, 0
  {
    hide Known;
    if c != Place(p, v) {
      match v
      case ObjectValue(members) => BelowMembersKnown(p, members, c);
      case ArrayValue(elements) => BelowElementsKnown(p, elements, 0, c);
    }
  }

  lemma {:induction false} BelowMembersKnown(p: seq<Ref>, members: seq<Member>, c: Place)
    requires AllKnown(p) && MembersSized(members) && c in BelowMembers(p, members)
    ensures AllKnown(c.pointer)
    decreases members, 1
  {
    var t := NameToken(members[0].name);
    AppendKnown(p, t);
    if c in Below(p + [t], members[0].value) {
      BelowKnown(p + [t], members[0].value, c);
    } else {
      BelowMembersKnown(p, members[1..], c);
    }
  }

  lemma {:induction false} BelowElementsKnown(p: seq<Ref>, elements: seq<Value>, n: nat, c: Place)
    requires AllKnown(p) && AllSized(elements) && n + |elements| < INVALID_INDEX && c in BelowElements(p, elements, n)
    ensures AllKnown(c.pointer)
    decreases elements, 1
  {
    IndexTokenKnown(n);
    AppendKnown(p, IndexToken(n));
    if c in Below(p + [IndexToken(n)], elements[0]) {
      BelowKnown(p + [IndexToken(n)], elements[0], c);
    } else {
      BelowElementsKnown(p, elements[1..], n + 1, c);
    }
  }

  /** A reference adds known tokens to those of the object it starts from. */
  lemma ReferenceKnown(base: Place, f: Text)
    requires AllKnown(base.pointer) && ResolvePointer(base, f).Local?
    requires Pointer.Parse(f).Names? && forall name :: name in Pointer.Parse(f).names ==> |name| < PointerObject.TWO_32
    ensures AllKnown(ResolvePointer(base, f).pointer)
  {
    hide IndexOf, Pointer.Parse;
    var names := Pointer.Parse(f).names;
    var p := Refs(names);
    forall k | 0 <= k < |p| ensures Known(p[k]) {
      assert names[k] in names && Covered(names[k]) == names[k];
    }
  }

  // ----- two entries with one text -----

  lemma SamePointer(p: seq<Ref>, q: seq<Ref>)
    requires NamesOf(p) == NamesOf(q) && |p| == |q| && forall k :: 0 <= k < |p| ==> p[k].index == q[k].index
    ensures p == q
  {
    forall k | 0 <= k < |p| ensures p[k] == q[k] {
      assert NamesOf(p)[k] == NamesOf(q)[k];
    }
  }

  lemma DifferAt(p: seq<Ref>, q: seq<Ref>) returns (k: nat)
    requires NamesOf(p) == NamesOf(q) && p != q
    ensures k < |p| == |q| && p[k].index != q[k].index && p[k].name == q[k].name
  {
    assert |p| == |NamesOf(p)| == |q|;
    if forall k :: 0 <= k < |p| ==> p[k].index == q[k].index {
      SamePointer(p, q);
    }
    k :| 0 <= k < |p| && p[k].index != q[k].index;
    assert NamesOf(p)[k] == NamesOf(q)[k];
  }

  /** Different pointers of known tokens print the same text exactly when their names agree and some token, a number
      that is an index, is a name in one of them and an index in the other. */
  lemma SameTextOfTwo(p: seq<Ref>, q: seq<Ref>)
    requires AllKnown(p) && AllKnown(q)
    ensures p != q && TextOf(p) == TextOf(q) <==>
      NamesOf(p) == NamesOf(q)
      && exists k :: 0 <= k < |p| && 0 <= k < |q| && MetBothWays(p[k], q[k])
  {
    hide TextOf, IndexOf, NamesOf;
    SameTextIff(p, q);
    if p != q && NamesOf(p) == NamesOf(q) {
      var k := DifferAt(p, q);
      assert Known(p[k]) && Known(q[k]);
      assert MetBothWays(p[k], q[k]);
    }
  }

  /** One name, once without and once with its index. */
  predicate MetBothWays(t: Ref, u: Ref) {
    t.name == u.name && IndexOf(t.name) != INVALID_INDEX
    && ((t.index == INVALID_INDEX && u.index == IndexOf(u.name)) || (u.index == INVALID_INDEX && t.index == IndexOf(t.name)))
  }

  /** Two registered pointers without reference, of one text or not, have a schema each: the place they both name is then
      compiled twice. */
  lemma CompiledTwice(resolve: Resolver, universe: set<Place>, t: Tables, j: nat, k: nat)
    requires Valid(resolve, universe, t) && j < k < |t.entries|
    requires ReferenceOf(t.met[t.entries[j].pointer]).NoReference? && ReferenceOf(t.met[t.entries[k].pointer]).NoReference?
    ensures t.entries[j].pointer != t.entries[k].pointer
    ensures t.entries[j].owned && t.entries[k].owned && t.entries[j].schema != t.entries[k].schema
  {
    hide ReferenceOf;
    assert EntryFine(resolve, t, j) && EntryFine(resolve, t, k);
  }

  /** The member `0` as the walk and as a reference meets it. */
  lemma ZeroMetBothWays()
    ensures var zero: Text := ['0' as int];
      MetBothWays(NameToken(zero), RefOf(zero)) && TextOf([NameToken(zero)]) == TextOf([RefOf(zero)])
  {
    var zero: Text := ['0' as int];
    assert Covered(zero) == zero;
    assert Converted(zero, 1, 0) == Some(0) && Converted(zero, 0, 0) == Some(0);
    SameTextIff([NameToken(zero)], [RefOf(zero)]);
  }
}
