/** The places a schema compiler visits: which subschemas a schema has, where a `$ref` points, and a finite universe
    closed under both. */
module SchemaPlaces {
  import opened Bytes
  import opened Dom
  import opened PointerObject
  import opened PointerTree
  import opened UriReference
  import Decimal
  import Pointer

  /** A value of the document with the pointer under which the compiler meets it. */
  datatype Place = Place(pointer: seq<Ref>, value: Value)

  function Ascii(s: string): (r: Text) { seq(|s|, k requires 0 <= k < |s| => s[k] as int % 256) }

  /** `Append` of a name, and of an array index. */
  function NameToken(name: Text): (r: Ref) { Ref(name, INVALID_INDEX) }
  function IndexToken(k: nat): (r: Ref) { Ref(Decimal.Digits(k), k) }

  /** `GetMember`. */
  function GetMember(v: Value, name: Text): (r: Option<Value>) {
    if v.ObjectValue? && FindMember(v.members, name) < |v.members| then Some(v.members[FindMember(v.members, name)].value)
    else None
  }

  // ----- the subschemas of a schema -----

  function ElementPlaces(p: seq<Ref>, elements: seq<Value>): (r: seq<Place>) {
    seq(|elements|, k requires 0 <= k < |elements| => Place(p + [IndexToken(k)], elements[k]))
  }

  function MemberPlaces(p: seq<Ref>, members: seq<Member>): (r: seq<Place>) {
    seq(|members|, k requires 0 <= k < |members| => Place(p + [NameToken(members[k].name)], members[k].value))
  }

  /** The object-valued members only. */
  function ObjectMemberPlaces(p: seq<Ref>, members: seq<Member>): (r: seq<Place>)
    ensures forall c :: c in r ==> c in MemberPlaces(p, members)
  {
    if members == [] then []
    else
      var rest := ObjectMemberPlaces(p, members[1..]);
      MemberPlacesTail(p, members);
      if members[0].value.ObjectValue? then [Place(p + [NameToken(members[0].name)], members[0].value)] + rest else rest
  }

  lemma MemberPlacesTail(p: seq<Ref>, members: seq<Member>)
    requires members != []
    ensures MemberPlaces(p, members) == [Place(p + [NameToken(members[0].name)], members[0].value)] + MemberPlaces(p, members[1..])
  {
  }

  /** `AssignIfExist` on an array keyword. */
  function ArrayKeyword(p: seq<Ref>, v: Value, name: Text): (r: seq<Place>) {
    match GetMember(v, name)
    case Some(ArrayValue(elements)) => ElementPlaces(p + [NameToken(name)], elements)
    case _ => []
  }

  function AnyKeyword(p: seq<Ref>, v: Value, name: Text): (r: seq<Place>) {
    match GetMember(v, name)
    case Some(w) => [Place(p + [NameToken(name)], w)]
    case None => []
  }

  function ObjectKeyword(p: seq<Ref>, v: Value, name: Text): (r: seq<Place>) {
    match GetMember(v, name)
    case Some(w) => if w.ObjectValue? then [Place(p + [NameToken(name)], w)] else []
    case None => []
  }

  function MapKeyword(p: seq<Ref>, v: Value, name: Text): (r: seq<Place>) {
    match GetMember(v, name)
    case Some(ObjectValue(members)) => MemberPlaces(p + [NameToken(name)], members)
    case _ => []
  }

  function DependencyKeyword(p: seq<Ref>, v: Value, name: Text): (r: seq<Place>) {
    match GetMember(v, name)
    case Some(ObjectValue(members)) => ObjectMemberPlaces(p + [NameToken(name)], members)
    case _ => []
  }

  /** The subschemas the `Schema` constructor creates, in its order (draft 4, no OpenAPI version). */
  function Subschemas(p: seq<Ref>, v: Value): (r: seq<Place>) {
    ArrayKeyword(p, v, Ascii("allOf")) + ArrayKeyword(p, v, Ascii("anyOf")) + ArrayKeyword(p, v, Ascii("oneOf"))
    + AnyKeyword(p, v, Ascii("not"))
    + MapKeyword(p, v, Ascii("properties")) + MapKeyword(p, v, Ascii("patternProperties"))
    + DependencyKeyword(p, v, Ascii("dependencies"))
    + ObjectKeyword(p, v, Ascii("additionalProperties"))
    + ObjectKeyword(p, v, Ascii("items")) + ArrayKeyword(p, v, Ascii("items"))
    + ObjectKeyword(p, v, Ascii("additionalItems"))
  }

  // ----- everything below a place -----

  /** The place and all places under it, as `CreateSchemaRecursive` walks them. */
  function Below(p: seq<Ref>, v: Value): (r: set<Place>)
    decreases v, 0
  {
    {Place(p, v)} +
    match v
    case ObjectValue(members) => BelowMembers(p, members)
    case ArrayValue(elements) => BelowElements(p, elements, 0)
    case _ => {}
  }

  function BelowMembers(p: seq<Ref>, members: seq<Member>): (r: set<Place>)
    decreases members, 1
  {
    if members == [] then {}
    else Below(p + [NameToken(members[0].name)], members[0].value) + BelowMembers(p, members[1..])
  }

  function BelowElements(p: seq<Ref>, elements: seq<Value>, n: nat): (r: set<Place>)
    decreases elements, 1
  {
    if elements == [] then {} else Below(p + [IndexToken(n)], elements[0]) + BelowElements(p, elements[1..], n + 1)
  }

  lemma {:induction false} MemberBelow(p: seq<Ref>, members: seq<Member>, k: nat)
    requires k < |members|
    ensures Below(p + [NameToken(members[k].name)], members[k].value) <= BelowMembers(p, members)
    decreases |members|
  {
    if k > 0 {
      MemberBelow(p, members[1..], k - 1);
    }
  }

  lemma {:induction false} ElementBelow(p: seq<Ref>, elements: seq<Value>, n: nat, k: nat)
    requires k < |elements|
    ensures Below(p + [IndexToken(n + k)], elements[k]) <= BelowElements(p, elements, n)
    decreases |elements|
  {
    if k > 0 {
      ElementBelow(p, elements[1..], n + 1, k - 1);
    }
  }

  lemma {:induction false} BelowAll(p: seq<Ref>, v: Value, c: Place)
    requires c in Below(p, v)
    ensures Below(c.pointer, c.value) <= Below(p, v)
    decreases v, 0
  {
    if c != Place(p, v) {
      match v
      case ObjectValue(members) => BelowAllMembers(p, members, c);
      case ArrayValue(elements) => BelowAllElements(p, elements, 0, c);
    }
  }

  lemma {:induction false} BelowAllMembers(p: seq<Ref>, members: seq<Member>, c: Place)
    requires c in BelowMembers(p, members)
    ensures Below(c.pointer, c.value) <= BelowMembers(p, members)
    decreases members, 1
  {
    var q := p + [NameToken(members[0].name)];
    if c in Below(q, members[0].value) {
      BelowAll(q, members[0].value, c);
    } else {
      BelowAllMembers(p, members[1..], c);
    }
  }

  lemma {:induction false} BelowAllElements(p: seq<Ref>, elements: seq<Value>, n: nat, c: Place)
    requires c in BelowElements(p, elements, n)
    ensures Below(c.pointer, c.value) <= BelowElements(p, elements, n)
    decreases elements, 1
  {
    var q := p + [IndexToken(n)];
    if c in Below(q, elements[0]) {
      BelowAll(q, elements[0], c);
    } else {
      BelowAllElements(p, elements[1..], n + 1, c);
    }
  }

  /** A keyword's value, and each child of that. */
  lemma KeywordBelow(p: seq<Ref>, v: Value, name: Text, w: Value)
    requires GetMember(v, name) == Some(w)
    ensures Below(p + [NameToken(name)], w) <= Below(p, v)
    ensures w.ArrayValue? ==> forall c :: c in ElementPlaces(p + [NameToken(name)], w.elements) ==> c in Below(p, v)
    ensures w.ObjectValue? ==> forall c :: c in MemberPlaces(p + [NameToken(name)], w.members) ==> c in Below(p, v)
  {
    var q := p + [NameToken(name)];
    MemberBelow(p, v.members, FindMember(v.members, name));
    if w.ArrayValue? {
      forall k: nat | k < |w.elements| ensures Place(q + [IndexToken(k)], w.elements[k]) in Below(p, v) {
        ElementBelow(q, w.elements, 0, k);
        assert Place(q + [IndexToken(0 + k)], w.elements[k]) in Below(q + [IndexToken(0 + k)], w.elements[k]);
      }
    }
    if w.ObjectValue? {
      forall k: nat | k < |w.members| ensures Place(q + [NameToken(w.members[k].name)], w.members[k].value) in Below(p, v) {
        MemberBelow(q, w.members, k);
      }
    }
  }

  ghost predicate AllBelow(p: seq<Ref>, v: Value, places: seq<Place>) {
    forall c :: c in places ==> c in Below(p, v)
  }

  lemma KeywordsBelow(p: seq<Ref>, v: Value, name: Text)
    ensures AllBelow(p, v, ArrayKeyword(p, v, name)) && AllBelow(p, v, AnyKeyword(p, v, name))
    ensures AllBelow(p, v, ObjectKeyword(p, v, name)) && AllBelow(p, v, MapKeyword(p, v, name))
    ensures AllBelow(p, v, DependencyKeyword(p, v, name))
  {
    hide BelowMembers, BelowElements, FindMember;
    if GetMember(v, name).Some? {
      KeywordBelow(p, v, name, GetMember(v, name).value);
      assert Place(p + [NameToken(name)], GetMember(v, name).value) in Below(p + [NameToken(name)], GetMember(v, name).value);
    }
  }

  lemma SubschemasBelow(p: seq<Ref>, v: Value)
    ensures AllBelow(p, v, Subschemas(p, v))
  {
    hide Below, ArrayKeyword, AnyKeyword, ObjectKeyword, MapKeyword, DependencyKeyword, Ascii;
    KeywordsBelow(p, v, Ascii("allOf"));
    KeywordsBelow(p, v, Ascii("anyOf"));
    KeywordsBelow(p, v, Ascii("oneOf"));
    KeywordsBelow(p, v, Ascii("not"));
    KeywordsBelow(p, v, Ascii("properties"));
    KeywordsBelow(p, v, Ascii("patternProperties"));
    KeywordsBelow(p, v, Ascii("dependencies"));
    KeywordsBelow(p, v, Ascii("additionalProperties"));
    KeywordsBelow(p, v, Ascii("items"));
    KeywordsBelow(p, v, Ascii("additionalItems"));
  }

  // ----- where references point -----

  /** The `$ref` member of a schema: absent, not a string, or its text. */
  datatype Reference = NoReference | NoText | To(text: Text)

  function ReferenceOf(v: Value): (r: Reference) {
    match GetMember(v, Ascii("$ref"))
    case None => NoReference
    case Some(StringValue(text)) => To(text)
    case Some(_) => NoText
  }

  /** What resolving a reference finds: a place in this document, a schema of another one, or nothing. */
  datatype Target = Local(pointer: seq<Ref>, value: Value) | Remote(schema: nat) | Broken

  type Resolver = (seq<Ref>, Text) -> Target

  /** The target of a schema met at a pointer. */
  function TargetOf(resolve: Resolver, c: Place): (r: Target) {
    match ReferenceOf(c.value)
    case To(text) => if text == [] then Broken else resolve(c.pointer, text)
    case _ => Broken
  }

  /** A set of places that the compiler cannot leave. */
  ghost predicate Closed(resolve: Resolver, universe: set<Place>) {
    && (forall c :: c in universe ==> Below(c.pointer, c.value) <= universe)
    && (forall c :: c in universe && TargetOf(resolve, c).Local? ==>
          Place(TargetOf(resolve, c).pointer, TargetOf(resolve, c).value) in universe)
  }

  // ----- references and ids -----

  /** What the schema document knows of URIs: its own, the scope in which the compiler meets the schema at a pointer, and
      the schemas of other documents. */
  datatype Context = Context(docId: Parts, scope: seq<Ref> -> Parts, remote: Parts -> Option<nat>)

  /** `Match`. */
  predicate Matches(a: Parts, b: Parts, full: bool) {
    if full then FullText(a) == FullText(b) else BaseText(a) == BaseText(b)
  }

  /** The URI of an object, its id resolved against that of what encloses it. */
  function LocalUri(v: Value, base: Parts): (r: Parts) {
    match GetMember(v, Ascii("id"))
    case Some(StringValue(text)) => UriReference.Resolve(UriReference.Parse(text), base)
    case _ => base
  }

  /** `FindId`: the first object in document order whose URI matches. */
  function FindId(p: seq<Ref>, v: Value, find: Parts, base: Parts, full: bool): (r: Option<Place>)
    ensures r.Some? ==> r.value in Below(p, v)
    decreases v, 0
  {
    match v
    case ObjectValue(members) =>
      var uri := LocalUri(v, base);
      if Matches(uri, find, full) then Some(Place(p, v)) else FindIdInMembers(p, members, find, uri, full)
    case ArrayValue(elements) => FindIdInElements(p, elements, 0, find, base, full)
    case _ => None
  }

  function FindIdInMembers(p: seq<Ref>, members: seq<Member>, find: Parts, base: Parts, full: bool): (r: Option<Place>)
    ensures r.Some? ==> r.value in BelowMembers(p, members)
    decreases members, 1
  {
    if members == [] then None
    else
      var found := FindId(p + [NameToken(members[0].name)], members[0].value, find, base, full);
      if found.Some? then found else FindIdInMembers(p, members[1..], find, base, full)
  }

  function FindIdInElements(p: seq<Ref>, elements: seq<Value>, n: nat, find: Parts, base: Parts, full: bool): (r: Option<Place>)
    ensures r.Some? ==> r.value in BelowElements(p, elements, n)
    decreases elements, 1
  {
    if elements == [] then None
    else
      var found := FindId(p + [IndexToken(n)], elements[0], find, base, full);
      if found.Some? then found else FindIdInElements(p, elements[1..], n + 1, find, base, full)
  }

  /** A fragment that is a pointer rather than a plain name. */
  predicate IsPointerFragment(f: Text) { |f| <= 1 || f[1] == Pointer.SOLIDUS }

  /** A pointer fragment, relative to the object whose URI matched. */
  function ResolvePointer(base: Place, f: Text): (r: Target) {
    match Pointer.Parse(f)
    case Bad(_, _) => Broken
    case Names(names) => match Get(base.value, Refs(names))
      case None => Broken
      case Some(w) => Local(base.pointer + Refs(names), w)
  }

  /** The local part of `HandleRefSchema`: a pointer, or a plain name that is looked for among the ids. */
  function ResolveAt(base: Place, uri: Parts): (r: Target) {
    if IsPointerFragment(uri.frag) then ResolvePointer(base, uri.frag)
    else match FindId(base.pointer, base.value, uri, UriReference.Parse(BaseText(uri)), true)
      case None => Broken
      case Some(c) => Local(c.pointer, c.value)
  }

  /** The reference of a schema met at a pointer, resolved in its scope: in this document if some object carries its
      URI, and in another one if not. */
  function ResolveText(context: Context, document: Value, source: seq<Ref>, text: Text): (r: Target) {
    var uri := UriReference.Resolve(UriReference.Parse(text), context.scope(source));
    match FindId([], document, uri, context.docId, false)
    case Some(base) => ResolveAt(base, uri)
    case None => match context.remote(uri)
      case Some(n) => Remote(n)
      case None => Broken
  }

  function Resolve(context: Context, document: Value): (r: Resolver) {
    (source, text) => ResolveText(context, document, source, text)
  }

  /** A reference whose URI is that of the document is resolved from the document's root, however it is spelled, where
      the root is an object without an id. */
  lemma OwnUriIsLocal(context: Context, document: Value, source: seq<Ref>, text: Text)
    requires document.ObjectValue? && GetMember(document, Ascii("id")).None?
    requires BaseText(UriReference.Resolve(UriReference.Parse(text), context.scope(source))) == BaseText(context.docId)
    requires IsPointerFragment(UriReference.Parse(text).frag)
    ensures ResolveText(context, document, source, text) == ResolvePointer(Place([], document), UriReference.Parse(text).frag)
  {
    hide ResolvePointer;
  }

  /** So in particular a reference that is only a fragment, in the document's own scope. */
  lemma FragmentIsLocal(context: Context, document: Value, source: seq<Ref>, text: Text)
    requires document.ObjectValue? && GetMember(document, Ascii("id")).None?
    requires BaseText(context.scope(source)) == BaseText(context.docId)
    requires text != [] && text[0] == HASH && 0 !in text && IsPointerFragment(text)
    ensures ResolveText(context, document, source, text) == ResolvePointer(Place([], document), text)
  {
    hide ResolvePointer;
    FragmentStays(text, context.scope(source));
    OwnUriIsLocal(context, document, source, text);
  }

  /** The values of a tree. */
  function Nodes(v: Value): (r: set<Value>)
    ensures v in r
    decreases v, 0
  {
    {v} +
    match v
    case ObjectValue(members) => MemberNodes(members)
    case ArrayValue(elements) => ElementNodes(elements)
    case _ => {}
  }

  function MemberNodes(members: seq<Member>): (r: set<Value>)
    ensures forall k :: 0 <= k < |members| ==> Nodes(members[k].value) <= r
    decreases members, 1
  {
    if members == [] then {} else Nodes(members[0].value) + MemberNodes(members[1..])
  }

  function ElementNodes(elements: seq<Value>): (r: set<Value>)
    ensures forall k :: 0 <= k < |elements| ==> Nodes(elements[k]) <= r
    decreases elements, 1
  {
    if elements == [] then {} else Nodes(elements[0]) + ElementNodes(elements[1..])
  }

  lemma {:induction false} GetIsNode(v: Value, p: seq<Ref>)
    requires Get(v, p).Some?
    ensures Nodes(Get(v, p).value) <= Nodes(v)
    decreases |p|
  {
    if p != [] {
      GetIsNode(Child(v, p[0]).value, p[1..]);
    }
  }

  lemma {:induction false} BelowIsNode(p: seq<Ref>, v: Value, c: Place)
    requires c in Below(p, v)
    ensures Nodes(c.value) <= Nodes(v)
    decreases v, 0
  {
    if c != Place(p, v) {
      match v
      case ObjectValue(members) => BelowMembersIsNode(p, members, c);
      case ArrayValue(elements) => BelowElementsIsNode(p, elements, 0, c);
    }
  }

  lemma {:induction false} BelowMembersIsNode(p: seq<Ref>, members: seq<Member>, c: Place)
    requires c in BelowMembers(p, members)
    ensures Nodes(c.value) <= MemberNodes(members)
    decreases members, 1
  {
    var q := p + [NameToken(members[0].name)];
    if c in Below(q, members[0].value) {
      BelowIsNode(q, members[0].value, c);
    } else {
      BelowMembersIsNode(p, members[1..], c);
    }
  }

  lemma {:induction false} BelowElementsIsNode(p: seq<Ref>, elements: seq<Value>, n: nat, c: Place)
    requires c in BelowElements(p, elements, n)
    ensures Nodes(c.value) <= ElementNodes(elements)
    decreases elements, 1
  {
    var q := p + [IndexToken(n)];
    if c in Below(q, elements[0]) {
      BelowIsNode(q, elements[0], c);
    } else {
      BelowElementsIsNode(p, elements[1..], n + 1, c);
    }
  }

  /** Everything below what the reference of `v` can point to when `base` carries its URI. */
  function BelowTarget(base: Place, v: Value): (r: set<Place>) {
    match ReferenceOf(v)
    case To(text) =>
      var target := ResolvePointer(base, UriReference.Parse(text).frag);
      if target.Local? then Below(target.pointer, target.value) else {}
    case _ => {}
  }

  function Universe(document: Value, start: Place): (r: set<Place>) {
    Below(start.pointer, start.value) + Below([], document)
    + set v, base, c | v in Nodes(document) && base in Below([], document) && c in BelowTarget(base, v) :: c
  }

  /** The places of the universe that a reference adds. */
  ghost predicate Added(document: Value, c: Place, base: Place, v: Value) {
    v in Nodes(document) && base in Below([], document) && c in BelowTarget(base, v)
  }

  lemma TargetIsNode(document: Value, base: Place, f: Text)
    requires base in Below([], document) && ResolvePointer(base, f).Local?
    ensures Nodes(ResolvePointer(base, f).value) <= Nodes(document)
  {
    hide Nodes, Get, Pointer.Parse, Below;
    BelowIsNode([], document, base);
    GetIsNode(base.value, Refs(Pointer.Parse(f).names));
  }

  lemma UniverseIs(document: Value, start: Place, c: Place)
    ensures c in Universe(document, start) <==>
      c in Below(start.pointer, start.value) || c in Below([], document) || exists v, base :: Added(document, c, base, v)
  {
    hide Below, BelowTarget, Nodes;
    if v, base :| Added(document, c, base, v) {
      assert v in Nodes(document) && base in Below([], document) && c in BelowTarget(base, v);
    }
    if c in Universe(document, start) && c !in Below(start.pointer, start.value) && c !in Below([], document) {
      var v, base :| v in Nodes(document) && base in Below([], document) && c in BelowTarget(base, v);
      assert Added(document, c, base, v);
    }
  }

  /** The places of the universe hold values of the document, and whatever lies below them is there too. */
  lemma UniverseDescends(document: Value, start: Place, c: Place)
    requires Nodes(start.value) <= Nodes(document) && c in Universe(document, start)
    ensures Below(c.pointer, c.value) <= Universe(document, start) && c.value in Nodes(document)
  {
    hide Below, ResolvePointer, ReferenceOf, Nodes, Universe;
    UniverseIs(document, start, c);
    if c in Below(start.pointer, start.value) {
      BelowAll(start.pointer, start.value, c);
      BelowIsNode(start.pointer, start.value, c);
    } else if c in Below([], document) {
      BelowAll([], document, c);
      BelowIsNode([], document, c);
    } else {
      var v, base :| Added(document, c, base, v);
      var t := ResolvePointer(base, UriReference.Parse(ReferenceOf(v).text).frag);
      BelowAll(t.pointer, t.value, c);
      TargetIsNode(document, base, UriReference.Parse(ReferenceOf(v).text).frag);
      BelowIsNode(t.pointer, t.value, c);
      forall d | d in Below(c.pointer, c.value) ensures d in Universe(document, start) {
        assert Added(document, d, base, v);
        UniverseIs(document, start, d);
      }
    }
    forall d | d in Below(c.pointer, c.value) ensures d in Universe(document, start) {
      UniverseIs(document, start, d);
    }
    NodeOfItself(c.value);
  }

  lemma NodeOfItself(v: Value)
    ensures v in Nodes(v)
  {
  }

  /** Whatever the scope, a reference of the document that is found in it leads into the universe. */
  lemma TargetInUniverse(context: Context, document: Value, start: Place, c: Place)
    requires c.value in Nodes(document) && TargetOf(Resolve(context, document), c).Local?
    ensures var t := TargetOf(Resolve(context, document), c); Place(t.pointer, t.value) in Universe(document, start)
  {
    hide Below, ReferenceOf, Nodes, Universe, FindId, ResolvePointer;
    var t := TargetOf(Resolve(context, document), c);
    var text := ReferenceOf(c.value).text;
    var uri := UriReference.Resolve(UriReference.Parse(text), context.scope(c.pointer));
    var base := FindId([], document, uri, context.docId, false).value;
    SelfBelow(Place(t.pointer, t.value));
    if IsPointerFragment(uri.frag) {
      assert t == ResolvePointer(base, UriReference.Parse(text).frag);
      assert Added(document, Place(t.pointer, t.value), base, c.value);
    } else {
      BelowAll([], document, base);
    }
    UniverseIs(document, start, Place(t.pointer, t.value));
  }

  /** For every document, cyclic or not and with whatever ids, a finite universe of places from which the compiler
      cannot escape. */
  lemma UniverseIsClosed(context: Context, document: Value, start: Place)
    requires Nodes(start.value) <= Nodes(document)
    ensures Closed(Resolve(context, document), Universe(document, start)) && start in Universe(document, start)
  {
    hide Below, Nodes, Universe, TargetOf, Resolve;
    var resolve, universe := Resolve(context, document), Universe(document, start);
    SelfBelow(start);
    UniverseIs(document, start, start);
    forall c | c in universe ensures Below(c.pointer, c.value) <= universe {
      UniverseDescends(document, start, c);
    }
    forall c | c in universe && TargetOf(resolve, c).Local?
      ensures Place(TargetOf(resolve, c).pointer, TargetOf(resolve, c).value) in universe
    {
      UniverseDescends(document, start, c);
      TargetInUniverse(context, document, start, c);
    }
  }

  lemma SelfBelow(c: Place)
    ensures c in Below(c.pointer, c.value)
  {
  }
}
