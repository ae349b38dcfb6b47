/** Which places of a schema are subschemas, which reference it holds, and which object carries an id: each in terms of
    the keywords themselves. */
module SchemaKeywords {
  import opened Bytes
  import opened Dom
  import opened PointerObject
  import opened PointerTree
  import opened UriReference
  import opened SchemaPlaces

  // ----- keywords -----

  /** A keyword's value is what the one-name pointer leads to. */
  lemma KeywordIsChild(v: Value, name: Text)
    ensures GetMember(v, name) == if v.ObjectValue? then Get(v, [NameToken(name)]) else None
  {
    if v.ObjectValue? && GetMember(v, name).Some? {
      assert [NameToken(name)][1..] == [] && Get(GetMember(v, name).value, []) == GetMember(v, name);
    }
  }

  ghost predicate ValueOf(p: seq<Ref>, v: Value, name: string, c: Place) {
    GetMember(v, Ascii(name)) == Some(c.value) && c.pointer == p + [NameToken(Ascii(name))]
  }

  ghost predicate ElementOf(p: seq<Ref>, v: Value, name: string, c: Place) {
    exists q, k: nat :: ValueOf(p, v, name, q) && q.value.ArrayValue? && k < |q.value.elements|
      && c == Place(q.pointer + [IndexToken(k)], q.value.elements[k])
  }

  ghost predicate MemberOf(p: seq<Ref>, v: Value, name: string, c: Place) {
    exists q, k: nat :: ValueOf(p, v, name, q) && q.value.ObjectValue? && k < |q.value.members|
      && c == Place(q.pointer + [NameToken(q.value.members[k].name)], q.value.members[k].value)
  }

  lemma ElementPlacesAre(p: seq<Ref>, elements: seq<Value>, c: Place)
    ensures c in ElementPlaces(p, elements) <==> exists k: nat :: k < |elements| && c == Place(p + [IndexToken(k)], elements[k])
  {
    if k: nat :| k < |elements| && c == Place(p + [IndexToken(k)], elements[k]) {
      assert ElementPlaces(p, elements)[k] == c;
    }
  }

  lemma ArrayKeywordIs(p: seq<Ref>, v: Value, name: string, c: Place)
    ensures c in ArrayKeyword(p, v, Ascii(name)) <==> ElementOf(p, v, name, c)
  {
    hide ElementPlaces;
    if GetMember(v, Ascii(name)).Some? {
      var q := Place(p + [NameToken(Ascii(name))], GetMember(v, Ascii(name)).value);
      assert ValueOf(p, v, name, q);
      if q.value.ArrayValue? {
        ElementPlacesAre(q.pointer, q.value.elements, c);
      }
    }
  }

  lemma MemberPlacesAre(p: seq<Ref>, members: seq<Member>, c: Place)
    ensures c in MemberPlaces(p, members) <==>
      exists k: nat :: k < |members| && c == Place(p + [NameToken(members[k].name)], members[k].value)
  {
    if k: nat :| k < |members| && c == Place(p + [NameToken(members[k].name)], members[k].value) {
      assert MemberPlaces(p, members)[k] == c;
    }
  }

  lemma MapKeywordIs(p: seq<Ref>, v: Value, name: string, c: Place)
    ensures c in MapKeyword(p, v, Ascii(name)) <==> MemberOf(p, v, name, c)
  {
    hide MemberPlaces;
    if GetMember(v, Ascii(name)).Some? {
      var q := Place(p + [NameToken(Ascii(name))], GetMember(v, Ascii(name)).value);
      assert ValueOf(p, v, name, q);
      if q.value.ObjectValue? {
        MemberPlacesAre(q.pointer, q.value.members, c);
      }
    }
  }

  lemma {:induction false} ObjectMembersAre(p: seq<Ref>, members: seq<Member>, c: Place)
    ensures c in ObjectMemberPlaces(p, members) <==> c in MemberPlaces(p, members) && c.value.ObjectValue?
    decreases |members|
  {
    hide MemberPlaces;
    if members == [] {
      MemberPlacesAre(p, members, c);
    } else {
      MemberPlacesTail(p, members);
      ObjectMembersAre(p, members[1..], c);
    }
  }

  lemma DependencyKeywordIs(p: seq<Ref>, v: Value, name: string, c: Place)
    ensures c in DependencyKeyword(p, v, Ascii(name)) <==> MemberOf(p, v, name, c) && c.value.ObjectValue?
  {
    hide MemberPlaces, ObjectMemberPlaces;
    MapKeywordIs(p, v, name, c);
    match GetMember(v, Ascii(name))
    case Some(ObjectValue(members)) => ObjectMembersAre(p + [NameToken(Ascii(name))], members, c);
    case _ =>
  }

  lemma SingleKeywordIs(p: seq<Ref>, v: Value, name: string, c: Place)
    ensures c in AnyKeyword(p, v, Ascii(name)) <==> ValueOf(p, v, name, c)
    ensures c in ObjectKeyword(p, v, Ascii(name)) <==> ValueOf(p, v, name, c) && c.value.ObjectValue?
  {
  }

  /** The subschemas of a schema: the elements of `allOf`, `anyOf`, `oneOf` and `items`, the value of `not`, the members
      of `properties` and `patternProperties`, and, where they are objects, those of `dependencies` and the values of
      `items`, `additionalItems` and `additionalProperties`. */
  ghost predicate IsSubschema(p: seq<Ref>, v: Value, c: Place) {
    || ElementOf(p, v, "allOf", c) || ElementOf(p, v, "anyOf", c) || ElementOf(p, v, "oneOf", c) || ElementOf(p, v, "items", c)
    || ValueOf(p, v, "not", c)
    || MemberOf(p, v, "properties", c) || MemberOf(p, v, "patternProperties", c)
    || (c.value.ObjectValue?
        && (MemberOf(p, v, "dependencies", c) || ValueOf(p, v, "items", c) || ValueOf(p, v, "additionalItems", c)
            || ValueOf(p, v, "additionalProperties", c)))
  }

  lemma SubschemasExactly(p: seq<Ref>, v: Value, c: Place)
    ensures c in Subschemas(p, v) <==> IsSubschema(p, v, c)
  {
    hide ArrayKeyword, AnyKeyword, ObjectKeyword, MapKeyword, DependencyKeyword, Ascii, ElementOf, MemberOf, ValueOf;
    ArrayKeywordIs(p, v, "allOf", c);
    ArrayKeywordIs(p, v, "anyOf", c);
    ArrayKeywordIs(p, v, "oneOf", c);
    ArrayKeywordIs(p, v, "items", c);
    SingleKeywordIs(p, v, "not", c);
    SingleKeywordIs(p, v, "items", c);
    SingleKeywordIs(p, v, "additionalItems", c);
    SingleKeywordIs(p, v, "additionalProperties", c);
    MapKeywordIs(p, v, "properties", c);
    MapKeywordIs(p, v, "patternProperties", c);
    DependencyKeywordIs(p, v, "dependencies", c);
  }

  /** A schema refers to a text exactly when that text is what its `$ref` holds, and to nothing when it holds no text or
      an empty one. */
  lemma RefersExactly(resolve: Resolver, c: Place)
    ensures forall text :: ReferenceOf(c.value) == To(text) <==> GetMember(c.value, Ascii("$ref")) == Some(StringValue(text))
    ensures forall text :: GetMember(c.value, Ascii("$ref")) == Some(StringValue(text)) && text != [] ==>
      TargetOf(resolve, c) == resolve(c.pointer, text)
    ensures !(GetMember(c.value, Ascii("$ref")).Some? && GetMember(c.value, Ascii("$ref")).value.StringValue?) ==> TargetOf(resolve, c).Broken?
    ensures GetMember(c.value, Ascii("$ref")) == Some(StringValue([])) ==> TargetOf(resolve, c).Broken?
  {
  }

  // ----- ids -----

  /** An object and the URI it carries. */
  datatype Carrier = Carrier(place: Place, uri: Parts)

  /** The objects under a place in document order, each with its URI: that of what encloses it, unless it has an id of
      its own, which is resolved against that. */
  function Carriers(p: seq<Ref>, v: Value, base: Parts): (r: seq<Carrier>)
    decreases v, 0
  {
    match v
    case ObjectValue(members) =>
      var id := GetMember(v, Ascii("id"));
      var uri := if id.Some? && id.value.StringValue? then UriReference.Resolve(UriReference.Parse(id.value.str), base) else base;
      [Carrier(Place(p, v), uri)] + MemberCarriers(p, members, uri)
    case ArrayValue(elements) => ElementCarriers(p, elements, 0, base)
    case _ => []
  }

  function MemberCarriers(p: seq<Ref>, members: seq<Member>, base: Parts): (r: seq<Carrier>)
    decreases members, 1
  {
    if members == [] then []
    else Carriers(p + [NameToken(members[0].name)], members[0].value, base) + MemberCarriers(p, members[1..], base)
  }

  function ElementCarriers(p: seq<Ref>, elements: seq<Value>, n: nat, base: Parts): (r: seq<Carrier>)
    decreases elements, 1
  {
    if elements == [] then []
    else Carriers(p + [IndexToken(n)], elements[0], base) + ElementCarriers(p, elements[1..], n + 1, base)
  }

  /** The URI wanted, with its fragment or without it. */
  predicate Wanted(c: Carrier, find: Parts, full: bool) {
    c.uri.scheme + c.uri.auth + c.uri.path + c.uri.query + (if full then c.uri.frag else [])
      == find.scheme + find.auth + find.path + find.query + (if full then find.frag else [])
  }

  lemma MatchesIsWanted(c: Carrier, find: Parts, full: bool)
    ensures Matches(c.uri, find, full) <==> Wanted(c, find, full)
  {
    assert BaseText(c.uri) + [] == BaseText(c.uri) && BaseText(find) + [] == BaseText(find);
  }

  /** The first object of a list that is wanted, `None` where none is. */
  ghost predicate IsFirst(cs: seq<Carrier>, find: Parts, full: bool, found: Option<Place>) {
    match found
    case None => forall k :: 0 <= k < |cs| ==> !Wanted(cs[k], find, full)
    case Some(c) =>
      exists k ::
        && 0 <= k < |cs| && cs[k].place == c && Wanted(cs[k], find, full)
        && forall j :: 0 <= j < k ==> !Wanted(cs[j], find, full)
  }

  lemma FirstOfTwo(a: seq<Carrier>, b: seq<Carrier>, find: Parts, full: bool, x: Option<Place>, y: Option<Place>)
    requires IsFirst(a, find, full, x) && IsFirst(b, find, full, y)
    ensures IsFirst(a + b, find, full, if x.Some? then x else y)
  {
    hide Wanted;
    if x.Some? {
      var k :| 0 <= k < |a| && a[k].place == x.value && Wanted(a[k], find, full) && forall j :: 0 <= j < k ==> !Wanted(a[j], find, full);
      assert (a + b)[k] == a[k];
      assert forall j :: 0 <= j < k ==> (a + b)[j] == a[j];
    } else if y.Some? {
      var k :| 0 <= k < |b| && b[k].place == y.value && Wanted(b[k], find, full) && forall j :: 0 <= j < k ==> !Wanted(b[j], find, full);
      assert (a + b)[|a| + k] == b[k];
      forall j | 0 <= j < |a| + k ensures !Wanted((a + b)[j], find, full) {
        assert (a + b)[j] == if j < |a| then a[j] else b[j - |a|];
      }
    }
  }

  lemma FirstOfOne(c: Carrier, find: Parts, full: bool)
    ensures IsFirst([c], find, full, if Wanted(c, find, full) then Some(c.place) else None)
  {
    if Wanted(c, find, full) {
      assert [c][0].place == c.place;
    }
  }

  /** `FindId` finds the first object in document order that carries the URI. */
  lemma {:induction false} FindsFirst(p: seq<Ref>, v: Value, find: Parts, base: Parts, full: bool)
    ensures IsFirst(Carriers(p, v, base), find, full, FindId(p, v, find, base, full))
    decreases v, 0
  {
    hide IsFirst, Wanted, Matches, FindIdInMembers, FindIdInElements, MemberCarriers, ElementCarriers;
    match v
    case ObjectValue(members) =>
      var c := Carrier(Place(p, v), LocalUri(v, base));
      MatchesIsWanted(c, find, full);
      FirstOfOne(c, find, full);
      FindsFirstMember(p, members, find, c.uri, full);
      FirstOfTwo([c], MemberCarriers(p, members, c.uri), find, full,
                 if Wanted(c, find, full) then Some(c.place) else None, FindIdInMembers(p, members, find, c.uri, full));
    case ArrayValue(elements) =>
      FindsFirstElement(p, elements, 0, find, base, full);
    case _ =>
      FirstOfNone(find, full);
  }

  lemma FirstOfNone(find: Parts, full: bool)
    ensures IsFirst([], find, full, None)
  {
  }

  lemma {:induction false} FindsFirstMember(p: seq<Ref>, members: seq<Member>, find: Parts, base: Parts, full: bool)
    ensures IsFirst(MemberCarriers(p, members, base), find, full, FindIdInMembers(p, members, find, base, full))
    decreases members, 1
  {
    hide IsFirst, FindId, Carriers;
    if members == [] {
      FirstOfNone(find, full);
    } else {
      var q := p + [NameToken(members[0].name)];
      FindsFirst(q, members[0].value, find, base, full);
      FindsFirstMember(p, members[1..], find, base, full);
      FirstOfTwo(Carriers(q, members[0].value, base), MemberCarriers(p, members[1..], base), find, full,
                 FindId(q, members[0].value, find, base, full), FindIdInMembers(p, members[1..], find, base, full));
    }
  }

  lemma {:induction false} FindsFirstElement(p: seq<Ref>, elements: seq<Value>, n: nat, find: Parts, base: Parts, full: bool)
    ensures IsFirst(ElementCarriers(p, elements, n, base), find, full, FindIdInElements(p, elements, n, find, base, full))
    decreases elements, 1
  {
    hide IsFirst, FindId, Carriers;
    if elements == [] {
      FirstOfNone(find, full);
    } else {
      var q := p + [IndexToken(n)];
      FindsFirst(q, elements[0], find, base, full);
      FindsFirstElement(p, elements[1..], n + 1, find, base, full);
      FirstOfTwo(Carriers(q, elements[0], base), ElementCarriers(p, elements[1..], n + 1, base), find, full,
                 FindId(q, elements[0], find, base, full), FindIdInElements(p, elements[1..], n + 1, find, base, full));
    }
  }

  /** A plain name is looked for, with its whole URI, under the first object that carries the URI without it; a URI that
      no object carries is another document's. */
  lemma NameDenotes(context: Context, document: Value, source: seq<Ref>, text: Text, found: Option<Place>, named: Option<Place>)
    requires var uri := UriReference.Resolve(UriReference.Parse(text), context.scope(source));
      && found == FindId([], document, uri, context.docId, false)
      && (found.Some? ==> named == FindId(found.value.pointer, found.value.value, uri, UriReference.Parse(BaseText(uri)), true))
    ensures var uri := UriReference.Resolve(UriReference.Parse(text), context.scope(source));
      var target := ResolveText(context, document, source, text);
      && IsFirst(Carriers([], document, context.docId), uri, false, found)
      && (found.None? ==> match context.remote(uri) case None => target.Broken? case Some(n) => target == Remote(n))
      && (found.Some? && !IsPointerFragment(uri.frag) ==>
            && IsFirst(Carriers(found.value.pointer, found.value.value, UriReference.Parse(BaseText(uri))), uri, true, named)
            && match named case None => target.Broken? case Some(c) => target == Local(c.pointer, c.value))
  {
    hide FindId, Carriers, IsFirst, ResolvePointer;
    var uri := UriReference.Resolve(UriReference.Parse(text), context.scope(source));
    FindsFirst([], document, uri, context.docId, false);
    if found.Some? {
      FindsFirst(found.value.pointer, found.value.value, uri, UriReference.Parse(BaseText(uri)), true);
    }
  }
}
