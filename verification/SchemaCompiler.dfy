/** The `$ref` compiler of schema.h: schemas registered by pointer in `schemaMap_`, references waiting on `schemaRef_`,
    and mutual recursion that ends because every round uses up a pointer of the document. */
module SchemaCompiler {
  import opened Bytes
  import opened Dom
  import opened PointerObject
  import opened SchemaPlaces

  /** A schema: the shared typeless one, one this document made, or one of another document. */
  datatype SchemaId = Typeless | Own(n: nat) | Foreign(n: nat)

  datatype SchemaEntry = SchemaEntry(pointer: seq<Ref>, schema: SchemaId, owned: bool)

  /** `GetSchema`: the first entry for a pointer. */
  function Lookup(entries: seq<SchemaEntry>, p: seq<Ref>): (r: Option<SchemaId>) {
    if entries == [] then None
    else if entries[0].pointer == p then Some(entries[0].schema)
    else Lookup(entries[1..], p)
  }

  lemma {:induction false} LookupFinds(entries: seq<SchemaEntry>, p: seq<Ref>)
    ensures Lookup(entries, p).Some? <==> exists k :: 0 <= k < |entries| && entries[k].pointer == p
    ensures Lookup(entries, p).Some? ==>
      exists k :: 0 <= k < |entries| && entries[k].pointer == p && entries[k].schema == Lookup(entries, p).value
    decreases |entries|
  {
    if entries != [] && entries[0].pointer != p {
      LookupFinds(entries[1..], p);
      assert forall k :: 0 <= k < |entries| - 1 ==> entries[1..][k] == entries[k + 1];
      if Lookup(entries, p).Some? {
        var k :| 0 <= k < |entries| - 1 && entries[1..][k].pointer == p && entries[1..][k].schema == Lookup(entries, p).value;
        assert entries[k + 1].pointer == p;
      }
      if k :| 0 <= k < |entries| && entries[k].pointer == p {
        assert entries[1..][k - 1].pointer == p;
      }
    }
  }

  /** No pointer has two entries. */
  ghost predicate Distinct(entries: seq<SchemaEntry>) {
    forall j, k :: 0 <= j < k < |entries| ==> entries[j].pointer != entries[k].pointer
  }

  lemma {:induction false} LookupIs(entries: seq<SchemaEntry>, k: nat)
    requires Distinct(entries) && k < |entries|
    ensures Lookup(entries, entries[k].pointer) == Some(entries[k].schema)
    decreases |entries|
  {
    if k > 0 {
      assert forall j :: 0 <= j < |entries| - 1 ==> entries[1..][j] == entries[j + 1];
      LookupIs(entries[1..], k - 1);
    }
  }

  function Pointers(entries: seq<SchemaEntry>): (r: set<seq<Ref>>) {
    set k | 0 <= k < |entries| :: entries[k].pointer
  }

  function Elements<T>(s: seq<T>): (r: set<T>) { set k | 0 <= k < |s| :: s[k] }

  lemma OnePointerMore(entries: seq<SchemaEntry>, e: SchemaEntry)
    ensures Pointers(entries + [e]) == Pointers(entries) + {e.pointer}
  {
    var more := entries + [e];
    assert forall k :: 0 <= k < |entries| ==> more[k] == entries[k];
    assert more[|entries|] == e;
  }

  lemma OneElementMore<T>(s: seq<T>, x: T)
    ensures Elements(s + [x]) == Elements(s) + {x}
  {
    var more := s + [x];
    assert forall k :: 0 <= k < |s| ==> more[k] == s[k];
    assert more[|s|] == x;
  }

  /** One more element taken from a finite universe leaves fewer. */
  lemma FewerLeft<T>(universe: set<T>, used: set<T>, x: T)
    requires x in universe && x !in used
    ensures |universe - (used + {x})| < |universe - used|
  {
    assert universe - (used + {x}) == (universe - used) - {x};
  }

  // ----- what the two stacks keep -----

  /** The compiler's state, with the value met at each pointer that was registered or waits. */
  datatype Tables = Tables(entries: seq<SchemaEntry>, refs: seq<seq<Ref>>, created: nat, met: map<seq<Ref>, Value>)

  /** The stacks never repeat a pointer, and every pointer on them is one of the universe. */
  ghost predicate WellFormed(universe: set<Place>, t: Tables) {
    && Distinct(t.entries)
    && (forall j, k :: 0 <= j < k < |t.refs| ==> t.refs[j] != t.refs[k])
    && (forall p :: p in Elements(t.refs) ==> p !in Pointers(t.entries))
    && (forall p :: p in t.met <==> p in Pointers(t.entries) || p in Elements(t.refs))
    && forall p :: p in t.met ==> t.met[p].ObjectValue? && Place(p, t.met[p]) in universe
  }

  ghost predicate HasEntry(entries: seq<SchemaEntry>, k: nat, q: seq<Ref>, s: SchemaId) {
    k < |entries| && entries[k].pointer == q && entries[k].schema == s
  }

  /** The schema at entry `k` is what the target of its reference asks for. The target's own entry comes before it,
      except where a cycle made both typeless. */
  ghost predicate Settled(entries: seq<SchemaEntry>, k: nat, target: Target)
    requires k < |entries|
  {
    match target
    case Local(q, w) =>
      if w.ObjectValue? then
        exists m: nat :: HasEntry(entries, m, q, entries[k].schema) && (m < k || entries[k].schema == Typeless)
      else entries[k].schema == Typeless
    case Remote(n) => entries[k].schema == Foreign(n)
    case Broken => entries[k].schema == Typeless
  }

  /** An owned entry holds a schema of its own, made for a value without reference; any other entry is settled. */
  ghost predicate EntryFine(resolve: Resolver, t: Tables, k: nat)
    requires k < |t.entries|
  {
    var e := t.entries[k];
    && e.pointer in t.met
    && if e.owned then
         && e.schema.Own? && e.schema.n < t.created && ReferenceOf(t.met[e.pointer]).NoReference?
         && forall j :: 0 <= j < k && t.entries[j].owned ==> t.entries[j].schema != e.schema
       else !ReferenceOf(t.met[e.pointer]).NoReference? && Settled(t.entries, k, TargetOf(resolve, Place(e.pointer, t.met[e.pointer])))
  }

  /** The waiting reference `k`, and that it points to the next. */
  ghost predicate LinkFine(resolve: Resolver, t: Tables, k: nat)
    requires k < |t.refs|
  {
    && t.refs[k] in t.met && !ReferenceOf(t.met[t.refs[k]]).NoReference?
    && (k + 1 < |t.refs| ==>
        && t.refs[k + 1] in t.met
        && TargetOf(resolve, Place(t.refs[k], t.met[t.refs[k]])) == Local(t.refs[k + 1], t.met[t.refs[k + 1]]))
  }

  ghost predicate Valid(resolve: Resolver, universe: set<Place>, t: Tables) {
    && WellFormed(universe, t)
    && (forall k :: 0 <= k < |t.entries| ==> EntryFine(resolve, t, k))
    && forall k :: 0 <= k < |t.refs| ==> LinkFine(resolve, t, k)
  }

  /** The last waiting reference points here. */
  ghost predicate Awaits(resolve: Resolver, t: Tables, p: seq<Ref>, v: Value) {
    t.refs != [] ==>
      var r := t.refs[|t.refs| - 1];
      r in t.met && TargetOf(resolve, Place(r, t.met[r])) == Local(p, v)
  }

  /** A reference joins the waiting ones. */
  lemma Waits(resolve: Resolver, universe: set<Place>, t: Tables, p: seq<Ref>, v: Value)
    requires Valid(resolve, universe, t) && Awaits(resolve, t, p, v)
    requires p !in Pointers(t.entries) && p !in Elements(t.refs) && Place(p, v) in universe && v.ObjectValue?
    requires !ReferenceOf(v).NoReference?
    ensures Valid(resolve, universe, t.(refs := t.refs + [p], met := t.met[p := v]))
  {
    hide ReferenceOf, Settled, Pointers, Elements;
    var u := t.(refs := t.refs + [p], met := t.met[p := v]);
    OneElementMore(t.refs, p);
    ElementsAre(t.refs);
    PointersAre(t.entries);
    forall k | 0 <= k < |u.refs| ensures LinkFine(resolve, u, k) {
      if k < |t.refs| {
        assert LinkFine(resolve, t, k);
      }
    }
    forall k | 0 <= k < |u.entries| ensures EntryFine(resolve, u, k) {
      assert EntryFine(resolve, t, k);
    }
  }

  lemma ElementsAre<T>(s: seq<T>)
    ensures forall k :: 0 <= k < |s| ==> s[k] in Elements(s)
    ensures forall x :: x in Elements(s) <==> x in s
  {
  }

  lemma PointersAre(entries: seq<SchemaEntry>)
    ensures forall k :: 0 <= k < |entries| ==> entries[k].pointer in Pointers(entries)
    ensures forall p :: p in Pointers(entries) <==> exists k :: 0 <= k < |entries| && entries[k].pointer == p
  {
  }

  /** A schema is made and registers itself. */
  lemma Registers(resolve: Resolver, universe: set<Place>, t: Tables, p: seq<Ref>, v: Value)
    requires Valid(resolve, universe, t)
    requires p !in Pointers(t.entries) && p !in Elements(t.refs) && Place(p, v) in universe && v.ObjectValue?
    requires ReferenceOf(v).NoReference?
    ensures Valid(resolve, universe,
      Tables(t.entries + [SchemaEntry(p, Own(t.created), true)], t.refs, t.created + 1, t.met[p := v]))
  {
    hide ReferenceOf, Pointers, Elements;
    var e := SchemaEntry(p, Own(t.created), true);
    var u := Tables(t.entries + [e], t.refs, t.created + 1, t.met[p := v]);
    OnePointerMore(t.entries, e);
    ElementsAre(t.refs);
    PointersAre(t.entries);
    forall k | 0 <= k < |u.entries| ensures EntryFine(resolve, u, k) {
      if k < |t.entries| {
        assert EntryFine(resolve, t, k);
        EntryExtends(resolve, t, u, k);
      } else {
        forall j | 0 <= j < k && u.entries[j].owned ensures u.entries[j].schema != e.schema {
          assert EntryFine(resolve, t, j);
        }
      }
    }
    forall k | 0 <= k < |u.refs| ensures LinkFine(resolve, u, k) {
      assert LinkFine(resolve, t, k);
      assert k + 1 < |t.refs| ==> t.refs[k + 1] in Elements(t.refs);
    }
  }

  /** Entries stay fine when more are pushed. */
  lemma EntryExtends(resolve: Resolver, t: Tables, u: Tables, k: nat)
    requires k < |t.entries| && EntryFine(resolve, t, k)
    requires t.entries <= u.entries && t.created <= u.created
    requires t.entries[k].pointer in u.met && u.met[t.entries[k].pointer] == t.met[t.entries[k].pointer]
    ensures EntryFine(resolve, u, k)
  {
    hide ReferenceOf;
    var e := t.entries[k];
    assert u.entries[k] == e;
    if !e.owned {
      var target := TargetOf(resolve, Place(e.pointer, t.met[e.pointer]));
      if target.Local? && target.value.ObjectValue? {
        var m: nat :| HasEntry(t.entries, m, target.pointer, e.schema) && (m < k || e.schema == Typeless);
        assert HasEntry(u.entries, m, target.pointer, e.schema);
      }
    }
  }

  // ----- draining the waiting references -----

  /** What `AddSchemaRefs` pushes: the waiting pointers, last first, all with one schema. */
  function Drained(refs: seq<seq<Ref>>, s: SchemaId): (r: seq<SchemaEntry>)
    ensures |r| == |refs|
    ensures forall k :: 0 <= k < |refs| ==> r[k] == SchemaEntry(refs[|refs| - 1 - k], s, false)
  {
    if refs == [] then [] else [SchemaEntry(refs[|refs| - 1], s, false)] + Drained(refs[..|refs| - 1], s)
  }

  /** The schema is right for what the last waiting reference points to; on a cycle it is the typeless one. */
  ghost predicate Answers(resolve: Resolver, t: Tables, s: SchemaId) {
    t.refs != [] ==>
      var r := t.refs[|t.refs| - 1];
      && r in t.met
      && match TargetOf(resolve, Place(r, t.met[r]))
         case Local(q, w) =>
           if w.ObjectValue? then (exists m: nat :: HasEntry(t.entries, m, q, s)) || (s == Typeless && q in t.refs)
           else s == Typeless
         case Remote(n) => s == Foreign(n)
         case Broken => s == Typeless
  }

  lemma Drains(resolve: Resolver, universe: set<Place>, t: Tables, s: SchemaId)
    requires Valid(resolve, universe, t) && Answers(resolve, t, s)
    ensures Valid(resolve, universe, t.(entries := t.entries + Drained(t.refs, s), refs := []))
  {
    hide ReferenceOf, Pointers, Elements, Settled, TargetOf, WellFormed;
    var u := t.(entries := t.entries + Drained(t.refs, s), refs := []);
    DrainedWellFormed(universe, t, s);
    MetAreObjects(universe, t);
    forall k | 0 <= k < |u.entries| ensures EntryFine(resolve, u, k) {
      if k < |t.entries| {
        assert EntryFine(resolve, t, k);
        EntryExtends(resolve, t, u, k);
      } else {
        DrainedSettles(resolve, t, s, |t.refs| - 1 - (k - |t.entries|));
      }
    }
  }

  lemma DrainedWellFormed(universe: set<Place>, t: Tables, s: SchemaId)
    requires WellFormed(universe, t)
    ensures WellFormed(universe, t.(entries := t.entries + Drained(t.refs, s), refs := []))
    ensures forall k :: 0 <= k < |t.refs| ==> t.refs[k] in t.met
    ensures forall k :: 0 <= k < |t.entries| ==> t.entries[k].pointer in t.met
  {
    hide Pointers, Elements, Drained;
    DrainedPointers(t, s);
    var none: seq<seq<Ref>> := [];
    ElementsAre(t.refs);
    ElementsAre(none);
    PointersAre(t.entries);
  }

  lemma MetAreObjects(universe: set<Place>, t: Tables)
    requires WellFormed(universe, t)
    ensures forall p :: p in t.met ==> t.met[p].ObjectValue?
  {
  }

  lemma DrainedPointers(t: Tables, s: SchemaId)
    requires Distinct(t.entries) && forall j, k :: 0 <= j < k < |t.refs| ==> t.refs[j] != t.refs[k]
    requires forall p :: p in Elements(t.refs) ==> p !in Pointers(t.entries)
    ensures Distinct(t.entries + Drained(t.refs, s))
    ensures Pointers(t.entries + Drained(t.refs, s)) == Pointers(t.entries) + Elements(t.refs)
  {
    hide Drained;
    var n, d := |t.refs|, Drained(t.refs, s);
    var all := t.entries + d;
    assert forall k :: 0 <= k < n ==> d[k].pointer == t.refs[n - 1 - k];
    forall j, k | 0 <= j < k < |all| ensures all[j].pointer != all[k].pointer {
      if k >= |t.entries| {
        assert all[k].pointer == t.refs[n - 1 - (k - |t.entries|)];
        assert all[k].pointer in Elements(t.refs);
        if j < |t.entries| {
          assert t.entries[j].pointer in Pointers(t.entries);
        } else {
          assert all[j].pointer == t.refs[n - 1 - (j - |t.entries|)];
        }
      }
    }
    forall p | p in Pointers(t.entries) + Elements(t.refs) ensures p in Pointers(all) {
      if p in Pointers(t.entries) {
        var k :| 0 <= k < |t.entries| && t.entries[k].pointer == p;
        assert all[k].pointer == p;
      } else {
        var k :| 0 <= k < n && t.refs[k] == p;
        assert all[|t.entries| + (n - 1 - k)].pointer == p;
      }
    }
    forall p | p in Pointers(all) ensures p in Pointers(t.entries) + Elements(t.refs) {
      var k :| 0 <= k < |all| && all[k].pointer == p;
      if k >= |t.entries| {
        assert p == t.refs[n - 1 - (k - |t.entries|)];
      } else {
        assert t.entries[k].pointer == p;
      }
    }
  }

  /** The entry made of the waiting reference `i` is settled. */
  lemma DrainedSettles(resolve: Resolver, t: Tables, s: SchemaId, i: nat)
    requires i < |t.refs| && LinkFine(resolve, t, i) && Answers(resolve, t, s)
    requires forall p :: p in t.met ==> t.met[p].ObjectValue?
    ensures var all := t.entries + Drained(t.refs, s);
      var k := |t.entries| + (|t.refs| - 1 - i);
      all[k] == SchemaEntry(t.refs[i], s, false) && Settled(all, k, TargetOf(resolve, Place(t.refs[i], t.met[t.refs[i]])))
  {
    hide ReferenceOf, TargetOf;
    var n := |t.refs|;
    var all := t.entries + Drained(t.refs, s);
    var k := |t.entries| + (n - 1 - i);
    if i + 1 < n {
      assert HasEntry(all, k - 1, t.refs[i + 1], s);
    } else {
      var target := TargetOf(resolve, Place(t.refs[i], t.met[t.refs[i]]));
      if target.Local? && target.value.ObjectValue? {
        if m: nat :| HasEntry(t.entries, m, target.pointer, s) {
          assert HasEntry(all, m, target.pointer, s);
        } else {
          var j :| 0 <= j < n && t.refs[j] == target.pointer;
          assert HasEntry(all, |t.entries| + (n - 1 - j), target.pointer, s);
        }
      }
    }
  }

  // ----- what the finished map says -----

  /** A reference that got a schema of this document got it from the one entry that owns it. */
  lemma {:induction false} SchemaHasOwner(resolve: Resolver, universe: set<Place>, t: Tables, k: nat) returns (owner: nat)
    requires Valid(resolve, universe, t) && k < |t.entries| && t.entries[k].schema.Own?
    ensures owner <= k && t.entries[owner].owned && t.entries[owner].schema == t.entries[k].schema
    ensures forall j :: 0 <= j < |t.entries| && t.entries[j].owned && t.entries[j].schema == t.entries[k].schema ==> j == owner
    decreases k
  {
    hide ReferenceOf, WellFormed;
    assert EntryFine(resolve, t, k);
    var e := t.entries[k];
    if e.owned {
      owner := k;
      forall j | 0 <= j < |t.entries| && t.entries[j].owned && t.entries[j].schema == e.schema ensures j == k {
        assert EntryFine(resolve, t, j);
      }
    } else {
      var target := TargetOf(resolve, Place(e.pointer, t.met[e.pointer]));
      var m: nat :| HasEntry(t.entries, m, target.pointer, e.schema) && m < k;
      owner := SchemaHasOwner(resolve, universe, t, m);
    }
  }

  /** The target of entry `j`'s reference is the pointer of entry `k`. */
  ghost predicate RefersTo(resolve: Resolver, t: Tables, j: nat, k: nat) {
    && j < |t.entries| && k < |t.entries| && !t.entries[j].owned && t.entries[j].pointer in t.met
    && var target := TargetOf(resolve, Place(t.entries[j].pointer, t.met[t.entries[j].pointer]));
      target.Local? && target.value.ObjectValue? && target.pointer == t.entries[k].pointer
  }

  /** A reference and its target share one schema. */
  lemma TargetShares(resolve: Resolver, universe: set<Place>, t: Tables, j: nat, k: nat)
    requires Valid(resolve, universe, t) && RefersTo(resolve, t, j, k)
    ensures t.entries[j].schema == t.entries[k].schema && (k < j || t.entries[j].schema == Typeless)
  {
    hide ReferenceOf, TargetOf;
    assert EntryFine(resolve, t, j);
    var target := TargetOf(resolve, Place(t.entries[j].pointer, t.met[t.entries[j].pointer]));
    var m: nat :| HasEntry(t.entries, m, target.pointer, t.entries[j].schema) && (m < j || t.entries[j].schema == Typeless);
    assert Distinct(t.entries);
  }

  lemma {:induction false} ChainDescends(resolve: Resolver, universe: set<Place>, t: Tables, path: seq<nat>, i: nat)
    requires Valid(resolve, universe, t) && i < |path|
    requires forall n :: 0 <= n < |path| - 1 ==> RefersTo(resolve, t, path[n], path[n + 1])
    requires path[0] < |t.entries| && t.entries[path[0]].schema != Typeless
    ensures path[i] < |t.entries| && t.entries[path[i]].schema == t.entries[path[0]].schema && path[i] + i <= path[0]
    decreases i
  {
    if i > 0 {
      ChainDescends(resolve, universe, t, path, i - 1);
      assert RefersTo(resolve, t, path[i - 1], path[i - 1 + 1]);
      TargetShares(resolve, universe, t, path[i - 1], path[i]);
    }
  }

  /** Every pointer on a cycle of references is typeless. */
  lemma CycleIsTypeless(resolve: Resolver, universe: set<Place>, t: Tables, path: seq<nat>)
    requires Valid(resolve, universe, t) && |path| > 1 && path[|path| - 1] == path[0] < |t.entries|
    requires forall n :: 0 <= n < |path| - 1 ==> RefersTo(resolve, t, path[n], path[n + 1])
    ensures t.entries[path[0]].schema == Typeless
  {
    if t.entries[path[0]].schema != Typeless {
      ChainDescends(resolve, universe, t, path, |path| - 1);
    }
  }

  lemma {:induction false} LookupExtends(a: seq<SchemaEntry>, b: seq<SchemaEntry>, p: seq<Ref>)
    requires a <= b && Lookup(a, p).Some?
    ensures Lookup(b, p) == Lookup(a, p)
    decreases |a|
  {
    if a[0].pointer != p {
      LookupExtends(a[1..], b[1..], p);
    }
  }

  /** The schema found for a pointer answers the reference that points to it. */
  lemma FoundAnswers(resolve: Resolver, universe: set<Place>, t: Tables, p: seq<Ref>, v: Value)
    requires Valid(resolve, universe, t) && Awaits(resolve, t, p, v) && v.ObjectValue? && Lookup(t.entries, p).Some?
    ensures Answers(resolve, t, Lookup(t.entries, p).value)
  {
    hide TargetOf, WellFormed;
    LookupFinds(t.entries, p);
    var k :| 0 <= k < |t.entries| && t.entries[k].pointer == p && t.entries[k].schema == Lookup(t.entries, p).value;
    assert HasEntry(t.entries, k, p, Lookup(t.entries, p).value);
  }

  /** After the drain every pointer that waited has the schema. */
  lemma DrainedLookup(universe: set<Place>, t: Tables, s: SchemaId)
    requires WellFormed(universe, t)
    ensures forall r :: r in t.refs ==> Lookup(t.entries + Drained(t.refs, s), r) == Some(s)
  {
    DrainedPointers(t, s);
    var all := t.entries + Drained(t.refs, s);
    forall r | r in t.refs ensures Lookup(all, r) == Some(s) {
      var k :| 0 <= k < |t.refs| && t.refs[k] == r;
      LookupIs(all, |t.entries| + (|t.refs| - 1 - k));
    }
  }

  lemma LookupMeansPointer(entries: seq<SchemaEntry>, p: seq<Ref>)
    ensures Lookup(entries, p).Some? <==> p in Pointers(entries)
  {
    LookupFinds(entries, p);
    PointersAre(entries);
  }
}
