/** Which place a `$ref` denotes, and what the compiled schema document holds for it. */
module SchemaReferences {
  import opened Bytes
  import opened Dom
  import opened PointerObject
  import opened PointerTree
  import opened UriReference
  import opened SchemaPlaces
  import opened SchemaCompiler
  import opened SchemaTexts
  import Equality
  import Pointer
  import Utf8

  /** The pointer made of these names. */
  ghost predicate PointerOfNames(p: seq<Ref>, names: seq<Text>) {
    |p| == |names| && forall k :: 0 <= k < |p| ==> p[k] == RefOf(names[k])
  }

  // ----- what a reference denotes -----

  /** A pointer fragment is read from the object whose URI the reference names: what its names lead to there, under the
      pointer of that object and those names; and nothing when the fragment is no pointer or its names lead nowhere. */
  lemma ReferenceDenotes(context: Context, document: Value, source: seq<Ref>, text: Text, base: Place)
    requires var uri := UriReference.Resolve(UriReference.Parse(text), context.scope(source));
      FindId([], document, uri, context.docId, false) == Some(base) && IsPointerFragment(UriReference.Parse(text).frag)
    ensures var target := ResolveText(context, document, source, text);
      var parsed := Pointer.Parse(UriReference.Parse(text).frag);
      && (target.Local? || target.Broken?)
      && (parsed.Bad? ==> target.Broken?)
      && (parsed.Names? ==> forall q :: PointerOfNames(q, parsed.names) ==>
            match Get(base.value, q) case None => target.Broken? case Some(w) => target == Local(base.pointer + q, w))
  {
    hide Get, FindId, Pointer.Parse;
    var parsed := Pointer.Parse(UriReference.Parse(text).frag);
    if parsed.Names? {
      forall q | PointerOfNames(q, parsed.names) ensures q == Refs(parsed.names) {
      }
    }
  }

  /** Printed fragments have no NUL. */
  lemma {:induction false} PercentHasNoNul(u: Text)
    ensures 0 !in Pointer.Percent(u)
    decreases |u|
  {
    if u != [] {
      PercentHasNoNul(u[1..]);
    }
  }

  lemma {:induction false} EscapedHasNoNul(name: Text, j: nat)
    requires j <= |name| && Pointer.Escaped(true, name, j).Some?
    ensures 0 !in Pointer.Escaped(true, name, j).value
    decreases |name| - j
  {
    hide Pointer.Percent;
    if j < |name| {
      Pointer.EscapedStep(true, name, j);
      if !Pointer.Unreserved(name[j]) && name[j] != Pointer.SOLIDUS {
        var n := Utf8.CharLength(name, j);
        PercentHasNoNul(name[j..j + n]);
        EscapedHasNoNul(name, j + n);
      } else {
        EscapedHasNoNul(name, j + 1);
      }
    }
  }

  lemma {:induction false} PrintedHasNoNul(names: seq<Text>)
    requires Pointer.PrintedNames(true, names).Some?
    ensures 0 !in Pointer.PrintedNames(true, names).value
    decreases |names|
  {
    hide Pointer.Escaped;
    if names != [] {
      EscapedHasNoNul(names[0], 0);
      PrintedHasNoNul(names[1..]);
    }
  }

  /** The fragment that names print as is a pointer fragment and reads as those names. */
  lemma FragmentOf(names: seq<Text>)
    requires Pointer.Stringify(true, names).Some?
    ensures var text := Pointer.Stringify(true, names).value;
      && text != [] && text[0] == HASH && UriReference.Parse(text).frag == text && IsPointerFragment(text)
      && Pointer.Parse(text) == Pointer.Names(names)
  {
    hide Pointer.PrintedNames, Pointer.NamesFrom;
    var text := Pointer.Stringify(true, names).value;
    PrintedHasNoNul(names);
    Pointer.PrintedNamesHead(true, names);
    Pointer.ParseStringify(true, names);
    FragmentStays(text, Parts([], [], [], [], []));
  }

  /** In a document whose root is an object without an id, a reference made of a hash sign and the names of a path denotes
      exactly what the path leads to, under the pointer of those names, and nothing when it leads nowhere. */
  lemma PathIsDenoted(context: Context, document: Value, source: seq<Ref>, names: seq<Text>, q: seq<Ref>)
    requires document.ObjectValue? && GetMember(document, Ascii("id")).None?
    requires BaseText(context.scope(source)) == BaseText(context.docId)
    requires Pointer.Stringify(true, names).Some? && PointerOfNames(q, names)
    ensures ResolveText(context, document, source, Pointer.Stringify(true, names).value) ==
      match Get(document, q) case None => Broken case Some(w) => Local(q, w)
  {
    hide Get, Pointer.Parse, Pointer.Stringify, LocalUri, FindIdInMembers;
    var text := Pointer.Stringify(true, names).value;
    FragmentOf(names);
    FragmentStays(text, context.scope(source));
    RootMatches(context, document, UriReference.Resolve(UriReference.Parse(text), context.scope(source)));
    ReferenceDenotes(context, document, source, text, Place([], document));
    assert [] + q == q;
  }

  lemma RootMatches(context: Context, document: Value, uri: Parts)
    requires document.ObjectValue? && GetMember(document, Ascii("id")).None? && BaseText(uri) == BaseText(context.docId)
    ensures FindId([], document, uri, context.docId, false) == Some(Place([], document))
  {
  }

  // ----- the places of a document -----

  /** The pointer leads from the document to the value. */
  ghost predicate True(document: Value, c: Place) { Get(document, c.pointer) == Some(c.value) }

  lemma ThenChild(document: Value, c: Place, t: Ref, w: Value)
    requires True(document, c) && Child(c.value, t) == Some(w)
    ensures True(document, Place(c.pointer + [t], w))
  {
    GetThrough(document, c.pointer, [t]);
    assert [t][1..] == [] && Get(w, []) == Some(w);
  }

  /** In a document whose objects repeat no name every place met under it is true. */
  lemma {:induction false} BelowTrue(document: Value, p: seq<Ref>, v: Value, c: Place)
    requires True(document, Place(p, v)) && Equality.Distinct(v) && Sized(v) && c in Below(p, v)
    ensures True(document, c)
    decreases v, 0
  {
    hide True;
    if c != Place(p, v) {
      match v {
        case ObjectValue(members) => BelowMembersTrue(document, p, members, 0, c);
        case ArrayValue(elements) => BelowElementsTrue(document, p, elements, 0, c);
      }
    }
  }

  lemma {:induction false} BelowMembersTrue(document: Value, p: seq<Ref>, members: seq<Member>, k: nat, c: Place)
    requires k <= |members| && True(document, Place(p, ObjectValue(members))) && Equality.NamesDistinct(members)
    requires Equality.MembersDistinct(members[k..]) && MembersSized(members[k..]) && c in BelowMembers(p, members[k..])
    ensures True(document, c)
    decreases members[k..], 1
  {
    hide True;
    var rest := members[k..];
    assert rest[1..] == members[k + 1..];
    var t := NameToken(rest[0].name);
    if c in Below(p + [t], rest[0].value) {
      FindMemberIs(members, rest[0].name, k);
      ThenChild(document, Place(p, ObjectValue(members)), t, rest[0].value);
      BelowTrue(document, p + [t], rest[0].value, c);
    } else {
      BelowMembersTrue(document, p, members, k + 1, c);
    }
  }

  lemma {:induction false} BelowElementsTrue(document: Value, p: seq<Ref>, elements: seq<Value>, k: nat, c: Place)
    requires k <= |elements| < INVALID_INDEX && True(document, Place(p, ArrayValue(elements)))
    requires Equality.AllDistinct(elements[k..]) && AllSized(elements[k..]) && c in BelowElements(p, elements[k..], k)
    ensures True(document, c)
    decreases elements[k..], 1
  {
    hide True;
    var rest := elements[k..];
    assert rest[1..] == elements[k + 1..];
    var t := IndexToken(k);
    if c in Below(p + [t], rest[0]) {
      ThenChild(document, Place(p, ArrayValue(elements)), t, rest[0]);
      BelowTrue(document, p + [t], rest[0], c);
    } else {
      BelowElementsTrue(document, p, elements, k + 1, c);
    }
  }

  lemma {:induction false} ChildFine(v: Value, t: Ref)
    requires Equality.Distinct(v) && Sized(v) && Child(v, t).Some?
    ensures Equality.Distinct(Child(v, t).value) && Sized(Child(v, t).value)
  {
    if v.ObjectValue? {
      MemberFine(v.members, FindMember(v.members, t.name));
    } else {
      ElementFine(v.elements, t.index);
    }
  }

  lemma {:induction false} MemberFine(members: seq<Member>, k: nat)
    requires k < |members| && Equality.MembersDistinct(members) && MembersSized(members)
    ensures Equality.Distinct(members[k].value) && Sized(members[k].value)
    decreases k
  {
    if k > 0 {
      MemberFine(members[1..], k - 1);
    }
  }

  lemma {:induction false} ElementFine(elements: seq<Value>, k: nat)
    requires k < |elements| && Equality.AllDistinct(elements) && AllSized(elements)
    ensures Equality.Distinct(elements[k]) && Sized(elements[k])
    decreases k
  {
    if k > 0 {
      ElementFine(elements[1..], k - 1);
    }
  }

  lemma {:induction false} GetFine(v: Value, p: seq<Ref>)
    requires Equality.Distinct(v) && Sized(v) && Get(v, p).Some?
    ensures Equality.Distinct(Get(v, p).value) && Sized(Get(v, p).value)
    decreases |p|
  {
    hide Equality.Distinct, Sized, Child;
    if p != [] {
      ChildFine(v, p[0]);
      GetFine(Child(v, p[0]).value, p[1..]);
    }
  }

  /** Every place the compiler can reach is true. */
  lemma UniverseTrue(document: Value, start: Place, c: Place)
    requires Equality.Distinct(document) && Sized(document) && True(document, start) && c in Universe(document, start)
    ensures True(document, c)
  {
    hide Below, Nodes, Universe, Equality.Distinct, Sized, Get, ReferenceOf, Pointer.Parse, True;
    UniverseIs(document, start, c);
    RootTrue(document);
    if c in Below(start.pointer, start.value) {
      TrueFine(document, start);
      BelowTrue(document, start.pointer, start.value, c);
    } else if c in Below([], document) {
      BelowTrue(document, [], document, c);
    } else {
      var v, base :| Added(document, c, base, v);
      BelowTrue(document, [], document, base);
      var f := UriReference.Parse(ReferenceOf(v).text).frag;
      ThenPointer(document, base, f);
      var target := ResolvePointer(base, f);
      TrueFine(document, Place(target.pointer, target.value));
      BelowTrue(document, target.pointer, target.value, c);
    }
  }

  lemma RootTrue(document: Value)
    ensures True(document, Place([], document))
  {
  }

  lemma TrueFine(document: Value, c: Place)
    requires Equality.Distinct(document) && Sized(document) && True(document, c)
    ensures Equality.Distinct(c.value) && Sized(c.value)
  {
    GetFine(document, c.pointer);
  }

  lemma ThenPointer(document: Value, base: Place, f: Text)
    requires True(document, base) && ResolvePointer(base, f).Local?
    ensures True(document, Place(ResolvePointer(base, f).pointer, ResolvePointer(base, f).value))
  {
    hide Pointer.Parse;
    GetThrough(document, base.pointer, Refs(Pointer.Parse(f).names));
  }

  // ----- what the compiled document holds for it -----

  /** The entry of a schema that refers by the names of a path has the schema that is registered for that path, or the
      typeless one where the path leads to no object. */
  ghost predicate ReferenceRight(context: Context, document: Value, entries: seq<SchemaEntry>, source: seq<Ref>,
                                 names: seq<Text>, q: seq<Ref>)
    requires Pointer.Stringify(true, names).Some?
  {
    (&& PointerOfNames(q, names) && BaseText(context.scope(source)) == BaseText(context.docId)
     && Get(document, source).Some? && ReferenceOf(Get(document, source).value) == To(Pointer.Stringify(true, names).value)
     && Lookup(entries, source).Some?)
    ==>
      if Get(document, q).Some? && Get(document, q).value.ObjectValue? then Lookup(entries, q) == Lookup(entries, source)
      else Lookup(entries, source) == Some(Typeless)
  }

  lemma CompiledReference(context: Context, document: Value, start: Place, t: Tables, source: seq<Ref>, names: seq<Text>,
                          q: seq<Ref>)
    requires Equality.Distinct(document) && Sized(document) && True(document, start)
    requires document.ObjectValue? && GetMember(document, Ascii("id")).None?
    requires Valid(SchemaPlaces.Resolve(context, document), Universe(document, start), t) && Pointer.Stringify(true, names).Some?
    ensures ReferenceRight(context, document, t.entries, source, names, q)
  {
    hide Equality.Distinct, Sized, Get, Universe, Below, ReferenceOf, Pointer.Stringify, Pointer.Parse, Refs, ResolveText;
    if && PointerOfNames(q, names) && BaseText(context.scope(source)) == BaseText(context.docId)
       && Get(document, source).Some? && ReferenceOf(Get(document, source).value) == To(Pointer.Stringify(true, names).value)
       && Lookup(t.entries, source).Some?
    {
      var v := Get(document, source).value;
      var k := EntryFor(t, source);
      assert EntryFine(SchemaPlaces.Resolve(context, document), t, k);
      UniverseTrue(document, start, Place(source, t.met[source]));
      assert t.met[source] == v;
      PathIsDenoted(context, document, source, names, q);
      FragmentOf(names);
      if Get(document, q).Some? && Get(document, q).value.ObjectValue? {
        var m: nat :| HasEntry(t.entries, m, q, t.entries[k].schema);
        LookupIs(t.entries, m);
      }
    }
  }

  lemma EntryFor(t: Tables, p: seq<Ref>) returns (k: nat)
    requires Distinct(t.entries) && Lookup(t.entries, p).Some?
    ensures k < |t.entries| && t.entries[k].pointer == p && Lookup(t.entries, p) == Some(t.entries[k].schema)
  {
    LookupFinds(t.entries, p);
    k :| 0 <= k < |t.entries| && t.entries[k].pointer == p;
    LookupIs(t.entries, k);
  }
}
