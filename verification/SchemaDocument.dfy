/** The schema document: compiling a document into `schemaMap_` by mutual recursion over subschemas and references. */
module SchemaDocument {
  import opened Bytes
  import opened Dom
  import opened PointerObject
  import opened PointerTree
  import opened SchemaPlaces
  import opened SchemaCompiler
  import opened SchemaReferences
  import opened SchemaTexts
  import Equality
  import Pointer

  /** The pointers of a set of places. */
  ghost function PointersOf(places: set<Place>): (r: set<seq<Ref>>) {
    set c | c in places :: c.pointer
  }

  /** Every object among the subschemas of the schema that entry `k` owns is registered. */
  ghost predicate ChildrenRegistered(t: Tables, k: nat)
    requires k < |t.entries|
  {
    var e := t.entries[k];
    e.owned && e.pointer in t.met ==>
      forall c :: c in Subschemas(e.pointer, t.met[e.pointer]) && c.value.ObjectValue? ==> Lookup(t.entries, c.pointer).Some?
  }

  /** So it is for all entries from `from` on. */
  ghost predicate CompleteFrom(t: Tables, from: nat) {
    forall k :: from <= k < |t.entries| ==> ChildrenRegistered(t, k)
  }

  /** Entries are only added, and what was met at a pointer stays. */
  ghost predicate Grows(t: Tables, u: Tables) {
    t.entries <= u.entries && forall p :: p in t.met ==> p in u.met && u.met[p] == t.met[p]
  }

  lemma CompleteGrows(t: Tables, u: Tables, from: nat)
    requires Grows(t, u) && CompleteFrom(t, from) && CompleteFrom(u, |t.entries|)
    requires forall k :: 0 <= k < |t.entries| ==> t.entries[k].pointer in t.met
    ensures CompleteFrom(u, from)
  {
    hide Subschemas, Lookup;
    forall k | from <= k < |u.entries| ensures ChildrenRegistered(u, k) {
      if k < |t.entries| {
        assert ChildrenRegistered(t, k) && u.entries[k] == t.entries[k];
        StillRegistered(t.entries, u.entries);
      }
    }
  }

  lemma NoneOwned(t: Tables, from: nat)
    requires forall k :: from <= k < |t.entries| ==> !t.entries[k].owned
    ensures CompleteFrom(t, from)
  {
  }

  lemma EntriesMet(universe: set<Place>, t: Tables)
    requires WellFormed(universe, t)
    ensures forall k :: 0 <= k < |t.entries| ==> t.entries[k].pointer in t.met
  {
    PointersAre(t.entries);
  }

  lemma GrowsEntries(t: Tables, u: Tables)
    requires Grows(t, u)
    ensures t.entries <= u.entries
  {
  }

  lemma NothingAdded(t: Tables)
    ensures Grows(t, t) && CompleteFrom(t, |t.entries|)
  {
  }

  lemma EntriesFollow(resolve: Resolver, universe: set<Place>, t: Tables)
    requires SchemaCompiler.Valid(resolve, universe, t)
    ensures forall k :: 0 <= k < |t.entries| ==> t.entries[k].pointer in t.met
  {
    EntriesMet(universe, t);
  }

  lemma NotMet(resolve: Resolver, universe: set<Place>, t: Tables, p: seq<Ref>)
    requires SchemaCompiler.Valid(resolve, universe, t) && p !in Pointers(t.entries) && p !in t.refs
    ensures p !in t.met
  {
    ElementsAre(t.refs);
  }

  /** From the registration of a schema to the end of its constructor. */
  lemma OwnComplete(first: Tables, own: Tables, settled: Tables, last: Tables, p: seq<Ref>, v: Value)
    requires own.entries == first.entries + [SchemaEntry(p, Own(first.created), true)] && own.met == first.met[p := v]
    requires p !in first.met && Grows(own, settled) && Grows(settled, last)
    requires CompleteFrom(settled, |own.entries|) && CompleteFrom(last, |settled.entries|)
    requires forall k :: 0 <= k < |settled.entries| ==> settled.entries[k].pointer in settled.met
    requires forall c :: c in Subschemas(p, v) && c.value.ObjectValue? ==> Lookup(last.entries, c.pointer).Some?
    ensures Grows(first, last) && CompleteFrom(last, |first.entries|)
  {
    hide Subschemas, Lookup;
    CompleteGrows(settled, last, |own.entries|);
    var n := |first.entries|;
    assert last.entries[n] == own.entries[n];
    forall k | n <= k < |last.entries| ensures ChildrenRegistered(last, k) {
    }
  }

  lemma GrowsTwice(t: Tables, u: Tables, w: Tables)
    requires Grows(t, u) && Grows(u, w)
    ensures Grows(t, w)
  {
  }

  class GenericSchemaDocument {
    const resolve: Resolver
    var schemaMap: seq<SchemaEntry>
    var schemaRef: seq<seq<Ref>>
    var created: nat
    ghost var met: map<seq<Ref>, Value>
    ghost const universe: set<Place>

    ghost function Standing(): (r: Tables)
      reads this
    {
      Tables(schemaMap, schemaRef, created, met)
    }

    ghost predicate Valid()
      reads this
    {
      SchemaCompiler.Valid(resolve, universe, Standing()) && Closed(resolve, universe)
    }

    /** Pointers of the universe that are not registered, and those that do not wait. */
    ghost function Unregistered(): (r: nat)
      reads this
    {
      |PointersOf(universe) - Pointers(schemaMap)|
    }

    ghost function NotWaiting(): (r: nat)
      reads this
    {
      |PointersOf(universe) - Elements(schemaRef)|
    }

    constructor (resolve: Resolver, ghost universe: set<Place>)
      requires Closed(resolve, universe)
      ensures this.resolve == resolve && this.universe == universe
      ensures Valid() && schemaMap == [] && schemaRef == []
    {
      this.resolve := resolve;
      this.universe := universe;
      schemaMap, schemaRef, created, met := [], [], 0, map[];
    }

    /** `GetSchema`. */
    method GetSchema(p: seq<Ref>) returns (r: Option<SchemaId>)
      ensures r == Lookup(schemaMap, p)
    {
      assert schemaMap[0..] == schemaMap;
      for k := 0 to |schemaMap|
        invariant Lookup(schemaMap, p) == Lookup(schemaMap[k..], p)
      {
        assert schemaMap[k..][1..] == schemaMap[k + 1..];
        if schemaMap[k].pointer == p {
          return Some(schemaMap[k].schema);
        }
      }
      r := None;
    }

    /** `IsCyclicRef`. */
    method IsCyclicRef(p: seq<Ref>) returns (r: bool)
      ensures r <==> p in schemaRef
    {
      for k := 0 to |schemaRef|
        invariant p !in schemaRef[..k]
      {
        if schemaRef[k] == p {
          return true;
        }
      }
      assert schemaRef[..|schemaRef|] == schemaRef;
      r := false;
    }

    /** `AddSchemaRefs`: the waiting references are popped into the map. */
    method AddSchemaRefs(schema: SchemaId)
      requires Valid() && Answers(resolve, Standing(), schema)
      modifies this
      ensures Valid() && schemaRef == [] && old(schemaMap) <= schemaMap
      ensures forall r :: r in old(schemaRef) ==> Lookup(schemaMap, r) == Some(schema)
      ensures old(schemaRef) == [] ==> schemaMap == old(schemaMap)
      ensures Grows(old(Standing()), Standing()) && CompleteFrom(Standing(), |old(schemaMap)|)
    {
      hide SchemaCompiler.Valid, Closed, WellFormed;
      ghost var start := Standing();
      Drains(resolve, universe, start, schema);
      ValidIsWellFormed(resolve, universe, start);
      DrainedLookup(universe, start, schema);
      while schemaRef != []
        invariant schemaMap + Drained(schemaRef, schema) == start.entries + Drained(start.refs, schema)
        invariant met == start.met && created == start.created && start.entries <= schemaMap
        decreases |schemaRef|
      {
        var source := schemaRef[|schemaRef| - 1];
        schemaRef := schemaRef[..|schemaRef| - 1];
        schemaMap := schemaMap + [SchemaEntry(source, schema, false)];
      }
      assert schemaMap + [] == schemaMap;
      assert Standing() == start.(entries := start.entries + Drained(start.refs, schema), refs := []);
      assert start.refs == [] ==> start.entries + Drained(start.refs, schema) == start.entries;
      NoneOwned(Standing(), |start.entries|);
    }

    /** `CreateSchema`. */
    method CreateSchema(p: seq<Ref>, v: Value) returns (schema: SchemaId)
      requires Valid() && Place(p, v) in universe && Awaits(resolve, Standing(), p, v)
      requires v.ObjectValue? ==> p !in schemaRef
      modifies this
      ensures Valid() && schemaRef == [] && old(schemaMap) <= schemaMap
      ensures if v.ObjectValue? then Lookup(schemaMap, p) == Some(schema) else schema == Typeless
      ensures forall r :: r in old(schemaRef) ==> Lookup(schemaMap, r) == Some(schema)
      ensures Grows(old(Standing()), Standing()) && CompleteFrom(Standing(), |old(schemaMap)|)
      decreases Unregistered(), NotWaiting(), 2
    {
      hide CompleteFrom, SchemaCompiler.Valid, Closed, Pointers, Elements, PointersOf, WellFormed;
      if v.ObjectValue? {
        var found := GetSchema(p);
        LookupMeansPointer(schemaMap, p);
        if found.Some? {
          FoundAnswers(resolve, universe, Standing(), p, v);
          schema := found.value;
          AddSchemaRefs(schema);
          LookupExtends(old(schemaMap), schemaMap, p);
        } else {
          var handled;
          handled, schema := HandleRefSchema(p, v);
          if !handled {
            schema := NewSchema(p, v);
          }
        }
      } else {
        schema := Typeless;
        AddSchemaRefs(schema);
      }
    }

    /** The push onto `schemaRef_`. */
    method PushRef(source: seq<Ref>, v: Value)
      requires Valid() && Place(source, v) in universe && Awaits(resolve, Standing(), source, v) && v.ObjectValue?
      requires source !in Pointers(schemaMap) && source !in schemaRef && !ReferenceOf(v).NoReference?
      modifies this
      ensures Valid() && schemaMap == old(schemaMap) && schemaRef == old(schemaRef) + [source] && met == old(met)[source := v]
      ensures created == old(created) && Grows(old(Standing()), Standing())
      ensures Unregistered() == old(Unregistered()) && NotWaiting() < old(NotWaiting())
    {
      hide SchemaCompiler.Valid, Closed, Pointers, Elements, PointersOf, WellFormed, ReferenceOf, TargetOf, Awaits;
      NotMet(resolve, universe, Standing(), source);
      ElementsAre(schemaRef);
      Waits(resolve, universe, Standing(), source, v);
      OneElementMore(schemaRef, source);
      InPointersOf(universe, Place(source, v));
      FewerLeft(PointersOf(universe), Elements(schemaRef), source);
      schemaRef := schemaRef + [source];
      met := met[source := v];
    }

    /** `HandleRefSchema`: false for a schema without reference. */
    method HandleRefSchema(source: seq<Ref>, v: Value) returns (handled: bool, schema: SchemaId)
      requires Valid() && Place(source, v) in universe && Awaits(resolve, Standing(), source, v) && v.ObjectValue?
      requires source !in Pointers(schemaMap) && source !in schemaRef
      modifies this
      ensures handled <==> !ReferenceOf(v).NoReference?
      ensures !handled ==> Standing() == old(Standing())
      ensures Valid() && old(schemaMap) <= schemaMap
      ensures handled ==> schemaRef == [] && Lookup(schemaMap, source) == Some(schema)
      ensures handled ==> forall r :: r in old(schemaRef) ==> Lookup(schemaMap, r) == Some(schema)
      ensures Grows(old(Standing()), Standing()) && CompleteFrom(Standing(), |old(schemaMap)|)
      decreases Unregistered(), NotWaiting(), 1
    {
      hide SchemaCompiler.Valid, Closed, Pointers, Elements, PointersOf, WellFormed, ReferenceOf, TargetOf, CompleteFrom, Grows,
        Lookup, Awaits, Answers;
      schema := Typeless;
      NothingAdded(Standing());
      if ReferenceOf(v).NoReference? {
        return false, schema;
      }
      handled := true;
      PushRef(source, v);
      ghost var pushed := Standing();
      var target := TargetOf(resolve, Place(source, v));
      TargetStays(resolve, universe, Place(source, v));
      match target {
        case Local(q, w) =>
          var cyclic := IsCyclicRef(q);
          if !cyclic {
            NewestAwaits(resolve, pushed, source, v, q, w);
            schema := CreateSchema(q, w);
            GrowsTwice(old(Standing()), pushed, Standing());
            return;
          }
        case Remote(n) =>
          schema := Foreign(n);
        case Broken =>
      }
      NewestIsAnswered(resolve, pushed, source, v, schema);
      AddSchemaRefs(schema);
      GrowsTwice(old(Standing()), pushed, Standing());
    }

    /** The start of the `Schema` constructor: it registers itself and its references. */
    method Register(p: seq<Ref>, v: Value) returns (schema: SchemaId, ghost own: Tables)
      requires Valid() && Place(p, v) in universe && Awaits(resolve, Standing(), p, v) && v.ObjectValue?
      requires p !in Pointers(schemaMap) && p !in schemaRef && ReferenceOf(v).NoReference?
      modifies this
      ensures Valid() && schemaRef == [] && old(schemaMap) <= schemaMap && Unregistered() < old(Unregistered())
      ensures Lookup(schemaMap, p) == Some(schema)
      ensures forall r :: r in old(schemaRef) ==> Lookup(schemaMap, r) == Some(schema)
      ensures p !in old(met) && own.met == old(met)[p := v]
      ensures own.entries == old(schemaMap) + [SchemaEntry(p, Own(old(created)), true)]
      ensures Grows(own, Standing()) && CompleteFrom(Standing(), |own.entries|)
    {
      hide SchemaCompiler.Valid, Closed, Pointers, Elements, PointersOf, WellFormed, ReferenceOf, TargetOf, CompleteFrom;
      NotMet(resolve, universe, Standing(), p);
      ElementsAre(schemaRef);
      Registers(resolve, universe, Standing(), p, v);
      schema := Own(created);
      OnePointerMore(schemaMap, SchemaEntry(p, schema, true));
      InPointersOf(universe, Place(p, v));
      FewerLeft(PointersOf(universe), Pointers(schemaMap), p);
      schemaMap := schemaMap + [SchemaEntry(p, schema, true)];
      created := created + 1;
      met := met[p := v];
      own := Standing();
      NewestAnswers(resolve, universe, own, p, v, schema);
      AddSchemaRefs(schema);
      LookupExtends(own.entries, schemaMap, p);
      PointersGrow(own.entries, schemaMap);
      FewerOrEqual(PointersOf(universe), Pointers(own.entries), Pointers(schemaMap));
    }

    /** The `Schema` constructor: registered first, it then creates its subschemas. */
    method NewSchema(p: seq<Ref>, v: Value) returns (schema: SchemaId)
      requires Valid() && Place(p, v) in universe && Awaits(resolve, Standing(), p, v) && v.ObjectValue?
      requires p !in Pointers(schemaMap) && p !in schemaRef && ReferenceOf(v).NoReference?
      modifies this
      ensures Valid() && schemaRef == [] && old(schemaMap) <= schemaMap
      ensures Lookup(schemaMap, p) == Some(schema)
      ensures forall r :: r in old(schemaRef) ==> Lookup(schemaMap, r) == Some(schema)
      ensures Grows(old(Standing()), Standing()) && CompleteFrom(Standing(), |old(schemaMap)|)
      decreases Unregistered(), NotWaiting(), 0
    {
      hide SchemaCompiler.Valid, Closed, Pointers, PointersOf, WellFormed, ReferenceOf, Subschemas, Below, CompleteFrom, Grows,
        Lookup, Awaits;
      ghost var own;
      schema, own := Register(p, v);
      ghost var settled := Standing();
      EntriesFollow(resolve, universe, settled);
      CreateSubschemas(p, v);
      OwnComplete(old(Standing()), own, settled, Standing(), p, v);
      GrowsEntries(old(Standing()), Standing());
      GrowsEntries(settled, Standing());
      LookupExtends(settled.entries, schemaMap, p);
      forall r | r in old(schemaRef) ensures Lookup(schemaMap, r) == Some(schema) {
        LookupExtends(settled.entries, schemaMap, r);
      }
    }

    /** The keywords of the constructor, one after another: afterwards every object among the subschemas is registered. */
    method CreateSubschemas(p: seq<Ref>, v: Value)
      requires Valid() && schemaRef == [] && Place(p, v) in universe
      modifies this
      ensures Valid() && schemaRef == [] && Unregistered() <= old(Unregistered())
      ensures Grows(old(Standing()), Standing()) && CompleteFrom(Standing(), |old(schemaMap)|)
      ensures forall c :: c in Subschemas(p, v) && c.value.ObjectValue? ==> Lookup(schemaMap, c.pointer).Some?
      decreases Unregistered(), NotWaiting(), 3
    {
      hide SchemaCompiler.Valid, Closed, Pointers, Elements, PointersOf, WellFormed, Subschemas, Below, CompleteFrom, Lookup;
      ghost var start := Standing();
      var places := Subschemas(p, v);
      SubschemasBelow(p, v);
      StaysBelow(resolve, universe, Place(p, v));
      NothingAdded(start);
      for k := 0 to |places|
        invariant Valid() && schemaRef == [] && Grows(start, Standing()) && CompleteFrom(Standing(), |start.entries|)
        invariant Unregistered() <= old(Unregistered())
        invariant forall j :: 0 <= j < k && places[j].value.ObjectValue? ==> Lookup(schemaMap, places[j].pointer).Some?
      {
        assert places[k] in places && places[k] in Below(p, v);
        ghost var last := Standing();
        EntriesFollow(resolve, universe, last);
        var _ := CreateSchema(places[k].pointer, places[k].value);
        PointersGrow(last.entries, schemaMap);
        FewerOrEqual(PointersOf(universe), Pointers(last.entries), Pointers(schemaMap));
        CompleteGrows(last, Standing(), |start.entries|);
        StillRegistered(last.entries, schemaMap);
      }
    }

    /** `CreateSchemaRecursive`: afterwards every object below the place is registered. */
    method CreateSchemaRecursive(p: seq<Ref>, v: Value)
      requires Valid() && schemaRef == [] && Place(p, v) in universe
      modifies this
      ensures Valid() && schemaRef == [] && old(schemaMap) <= schemaMap
      ensures forall c :: c in Below(p, v) && c.value.ObjectValue? ==> Lookup(schemaMap, c.pointer).Some?
      ensures Grows(old(Standing()), Standing()) && CompleteFrom(Standing(), |old(schemaMap)|)
      decreases v
    {
      hide SchemaCompiler.Valid, Closed, WellFormed, Lookup, CompleteFrom, Grows;
      ghost var start := Standing();
      NothingAdded(start);
      StaysBelow(resolve, universe, Place(p, v));
      match v {
        case ObjectValue(members) =>
          var _ := CreateSchema(p, v);
          ghost var first := schemaMap;
          for k := 0 to |members|
            invariant Valid() && schemaRef == [] && first <= schemaMap
            invariant Grows(start, Standing()) && CompleteFrom(Standing(), |start.entries|)
            invariant forall c :: c in BelowMembers(p, members[..k]) && c.value.ObjectValue? ==> Lookup(schemaMap, c.pointer).Some?
          {
            MemberBelow(p, members, k);
            ghost var last := schemaMap;
            assert members[k] < v;
            SelfBelow(Place(p + [NameToken(members[k].name)], members[k].value));
            ghost var before := Standing();
            EntriesFollow(resolve, universe, before);
            CreateSchemaRecursive(p + [NameToken(members[k].name)], members[k].value);
            GrowsTwice(start, before, Standing());
            GrowsEntries(before, Standing());
            CompleteGrows(before, Standing(), |start.entries|);
            BelowMembersGrow(p, members, k);
            StillRegistered(last, schemaMap);
          }
          assert members[..|members|] == members;
          StillRegistered(first, schemaMap);
        case ArrayValue(elements) =>
          ghost var first := schemaMap;
          for k := 0 to |elements|
            invariant Valid() && schemaRef == [] && first <= schemaMap
            invariant Grows(start, Standing()) && CompleteFrom(Standing(), |start.entries|)
            invariant forall c :: c in BelowElements(p, elements[..k], 0) && c.value.ObjectValue? ==> Lookup(schemaMap, c.pointer).Some?
          {
            ElementBelow(p, elements, 0, k);
            ghost var last := schemaMap;
            SelfBelow(Place(p + [IndexToken(k)], elements[k]));
            ghost var before := Standing();
            EntriesFollow(resolve, universe, before);
            CreateSchemaRecursive(p + [IndexToken(k)], elements[k]);
            GrowsTwice(start, before, Standing());
            GrowsEntries(before, Standing());
            CompleteGrows(before, Standing(), |start.entries|);
            BelowElementsGrow(p, elements, 0, k);
            StillRegistered(last, schemaMap);
          }
          assert elements[..|elements|] == elements;
        case _ =>
      }
    }
  }

  /** The document constructor: it always ends, with no reference left waiting, every object of the document registered
      (or the start pointer's schema and all it needs), and the invariants of the map. */
  method Compile(document: Value, start: seq<Ref>, context: Context) returns (doc: GenericSchemaDocument, root: SchemaId)
    ensures fresh(doc) && doc.Valid() && doc.schemaRef == [] && doc.resolve == Resolve(context, document)
    ensures start == [] ==> forall c :: c in Below([], document) && c.value.ObjectValue? ==> Lookup(doc.schemaMap, c.pointer).Some?
    ensures CompleteFrom(doc.Standing(), 0)
    ensures (start == [] && Equality.Distinct(document) && Sized(document) && document.ObjectValue?
             && GetMember(document, Ascii("id")).None?) ==>
      forall source, names, q :: Pointer.Stringify(true, names).Some? ==>
        ReferenceRight(context, document, doc.schemaMap, source, names, q)
    ensures match Get(document, start)
            case Some(v) => if v.ObjectValue? then Lookup(doc.schemaMap, start) == Some(root) else root == Typeless
            case None => root == Typeless && doc.schemaMap == []
  {
    hide Get, Below, Lookup, Equality.Distinct, Sized, Pointer.Stringify, ReferenceRight, GetMember, Universe;
    root := Typeless;
    GetRoot(document, start);
    var found := Get(document, start);
    var value := if found.Some? then found.value else document;
    UniverseIsClosed(context, document, Place(start, value));
    doc := new GenericSchemaDocument(Resolve(context, document), Universe(document, Place(start, value)));
    if found.None? {
      return;
    }
    if start == [] {
      doc.CreateSchemaRecursive([], document);
      if Equality.Distinct(document) && Sized(document) && document.ObjectValue? && GetMember(document, Ascii("id")).None? {
        forall source, names, q | Pointer.Stringify(true, names).Some?
          ensures ReferenceRight(context, document, doc.schemaMap, source, names, q)
        {
          RootTrue(document);
          CompiledReference(context, document, Place([], document), doc.Standing(), source, names, q);
        }
      }
      SelfBelow(Place([], document));
      if document.ObjectValue? {
        var schema := doc.GetSchema([]);
        root := schema.value;
      }
    } else {
      root := doc.CreateSchema(start, value);
    }
  }

  lemma GetRoot(document: Value, start: seq<Ref>)
    ensures Get(document, start).Some? ==> Nodes(Get(document, start).value) <= Nodes(document)
    ensures start == [] ==> Get(document, start) == Some(document)
  {
    if Get(document, start).Some? {
      GetIsNode(document, start);
    }
  }

  lemma ValidIsWellFormed(resolve: Resolver, universe: set<Place>, t: Tables)
    requires SchemaCompiler.Valid(resolve, universe, t)
    ensures WellFormed(universe, t)
  {
  }

  lemma InPointersOf(universe: set<Place>, c: Place)
    requires c in universe
    ensures c.pointer in PointersOf(universe)
  {
  }

  lemma TargetStays(resolve: Resolver, universe: set<Place>, c: Place)
    requires Closed(resolve, universe) && c in universe
    ensures TargetOf(resolve, c).Local? ==> Place(TargetOf(resolve, c).pointer, TargetOf(resolve, c).value) in universe
  {
  }

  lemma StaysBelow(resolve: Resolver, universe: set<Place>, c: Place)
    requires Closed(resolve, universe) && c in universe
    ensures Below(c.pointer, c.value) <= universe
  {
  }

  lemma NewestAwaits(resolve: Resolver, t: Tables, source: seq<Ref>, v: Value, q: seq<Ref>, w: Value)
    requires t.refs != [] && t.refs[|t.refs| - 1] == source && source in t.met && t.met[source] == v
    requires TargetOf(resolve, Place(source, v)) == Local(q, w)
    ensures Awaits(resolve, t, q, w)
  {
  }

  /** A reference that meets a waiting one, leads out of the document or nowhere. */
  lemma NewestIsAnswered(resolve: Resolver, t: Tables, source: seq<Ref>, v: Value, s: SchemaId)
    requires t.refs != [] && t.refs[|t.refs| - 1] == source && source in t.met && t.met[source] == v
    requires match TargetOf(resolve, Place(source, v))
             case Local(q, w) => s == Typeless && q in t.refs
             case Remote(n) => s == Foreign(n)
             case Broken => s == Typeless
    ensures Answers(resolve, t, s)
  {
  }

  lemma NewestAnswers(resolve: Resolver, universe: set<Place>, t: Tables, p: seq<Ref>, v: Value, s: SchemaId)
    requires SchemaCompiler.Valid(resolve, universe, t) && Awaits(resolve, t, p, v) && v.ObjectValue? && t.entries != []
    requires t.entries[|t.entries| - 1] == SchemaEntry(p, s, true)
    ensures Answers(resolve, t, s) && Lookup(t.entries, p) == Some(s)
  {
    hide TargetOf;
    assert HasEntry(t.entries, |t.entries| - 1, p, s);
    LookupIs(t.entries, |t.entries| - 1);
  }

  lemma PointersGrow(a: seq<SchemaEntry>, b: seq<SchemaEntry>)
    requires a <= b
    ensures Pointers(a) <= Pointers(b)
  {
    forall p | p in Pointers(a) ensures p in Pointers(b) {
      var k :| 0 <= k < |a| && a[k].pointer == p;
      assert b[k].pointer == p;
    }
  }

  lemma FewerOrEqual<T>(universe: set<T>, a: set<T>, b: set<T>)
    requires a <= b
    ensures |universe - b| <= |universe - a|
  {
    Subsets(universe - b, universe - a);
  }

  lemma {:induction false} Subsets<T>(a: set<T>, b: set<T>)
    requires a <= b
    ensures |a| <= |b|
  {
    assert b == a + (b - a);
  }

  lemma StillRegistered(a: seq<SchemaEntry>, b: seq<SchemaEntry>)
    requires a <= b
    ensures forall p :: Lookup(a, p).Some? ==> Lookup(b, p).Some?
  {
    forall p | Lookup(a, p).Some? ensures Lookup(b, p).Some? {
      LookupExtends(a, b, p);
    }
  }

  lemma {:induction false} BelowMembersGrow(p: seq<Ref>, members: seq<Member>, k: nat)
    requires k < |members|
    ensures BelowMembers(p, members[..k + 1])
         == BelowMembers(p, members[..k]) + Below(p + [NameToken(members[k].name)], members[k].value)
    decreases k
  {
    hide Below;
    if k == 0 {
      assert members[..1][1..] == [];
    } else {
      assert members[..k + 1][1..] == members[1..][..k] && members[..k][1..] == members[1..][..k - 1];
      BelowMembersGrow(p, members[1..], k - 1);
    }
  }

  lemma {:induction false} BelowElementsGrow(p: seq<Ref>, elements: seq<Value>, n: nat, k: nat)
    requires k < |elements|
    ensures BelowElements(p, elements[..k + 1], n)
         == BelowElements(p, elements[..k], n) + Below(p + [IndexToken(n + k)], elements[k])
    decreases k
  {
    hide Below;
    if k == 0 {
      assert elements[..1][1..] == [];
    } else {
      assert elements[..k + 1][1..] == elements[1..][..k] && elements[..k][1..] == elements[1..][..k - 1];
      BelowElementsGrow(p, elements[1..], n + 1, k - 1);
    }
  }
}
