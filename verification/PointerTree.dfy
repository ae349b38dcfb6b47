/** Resolving and editing a tree by pointer: what `Get`, `Create`, `Set` and `Erase` compute, and their laws. */
module PointerTree {
  import opened Bytes
  import opened Dom
  import opened PointerObject
  import Decimal

  const DASH: Text := ['-' as int]

  // ----- looking things up -----

  /** `FindMember`: the index of the first member with that name, the member count when there is none. */
  function FindMember(members: seq<Member>, name: Text): (k: nat)
    ensures k <= |members| && (k < |members| ==> members[k].name == name)
    ensures forall m :: 0 <= m < k ==> members[m].name != name
  {
    if members == [] || members[0].name == name then 0 else 1 + FindMember(members[1..], name)
  }

  lemma {:induction false} FindMemberIs(members: seq<Member>, name: Text, k: nat)
    requires k <= |members| && (k < |members| ==> members[k].name == name)
    requires forall m :: 0 <= m < k ==> members[m].name != name
    ensures FindMember(members, name) == k
    decreases k
  {
    if k > 0 {
      assert forall m :: 0 <= m < k - 1 ==> members[1..][m] == members[m + 1];
      FindMemberIs(members[1..], name, k - 1);
    }
  }

  /** The child a token selects. */
  function Child(v: Value, t: Ref): (r: Option<Value>)
    ensures r.Some? ==> r.value < v
  {
    match v
    case ObjectValue(members) =>
      var k := FindMember(members, t.name);
      if k < |members| then assert members[k] < v; Some(members[k].value) else None
    case ArrayValue(elements) =>
      if t.index == INVALID_INDEX || t.index >= |elements| then None else Some(elements[t.index])
    case _ => None
  }

  /** `Get`. */
  function Get(v: Value, p: seq<Ref>): (r: Option<Value>)
    decreases |p|
  {
    if p == [] then Some(v)
    else match Child(v, p[0])
      case None => None
      case Some(w) => Get(w, p[1..])
  }

  lemma {:induction false} GetThrough(v: Value, p: seq<Ref>, q: seq<Ref>)
    ensures Get(v, p + q) == match Get(v, p) case None => None case Some(w) => Get(w, q)
    decreases |p|
  {
    if p == [] {
      assert p + q == q;
    } else {
      assert (p + q)[0] == p[0] && (p + q)[1..] == p[1..] + q;
      if Child(v, p[0]).Some? {
        GetThrough(Child(v, p[0]).value, p[1..], q);
      }
    }
  }

  // ----- creating and setting -----

  /** `v->IsArray() && t->name[0] == '-' && t->length == 1`. */
  predicate Appends(v: Value, t: Ref) { v.ArrayValue? && t.name == DASH }

  /** The value after the type change a token forces on it. */
  function Coerced(v: Value, t: Ref): (r: Value)
    ensures t.index == INVALID_INDEX ==> r.ObjectValue?
    ensures r.ArrayValue? || r.ObjectValue?
  {
    if t.index == INVALID_INDEX then if v.ObjectValue? then v else ObjectValue([])
    else if v.ArrayValue? || v.ObjectValue? then v
    else ArrayValue([])
  }

  /** Elements padded with nulls up to `n`. */
  function Padded(elements: seq<Value>, n: nat): (r: seq<Value>)
    ensures |r| == if |elements| < n then n else |elements|
    ensures elements <= r
  {
    if |elements| < n then elements + seq(n - |elements|, _ => NullValue) else elements
  }

  /** A container with room for the child a token selects, the slot of that child, and whether it was there. */
  datatype Room = Room(tree: Value, slot: nat, exist: bool)

  function SlotCount(v: Value): (r: nat) {
    match v
    case ArrayValue(elements) => |elements|
    case ObjectValue(members) => |members|
    case _ => 0
  }

  function ChildAt(v: Value, slot: nat): (r: Value)
    requires slot < SlotCount(v)
    ensures r < v
  {
    match v
    case ArrayValue(elements) => elements[slot]
    case ObjectValue(members) => assert members[slot] < v; members[slot].value
  }

  function WithChild(v: Value, slot: nat, w: Value): (r: Value)
    requires slot < SlotCount(v)
    ensures SlotCount(r) == SlotCount(v)
    ensures r.ArrayValue? == v.ArrayValue? && r.ObjectValue? == v.ObjectValue?
    ensures ChildAt(r, slot) == w
    ensures forall k :: 0 <= k < SlotCount(v) && k != slot ==> ChildAt(r, k) == ChildAt(v, k)
  {
    match v
    case ArrayValue(elements) => ArrayValue(elements[slot := w])
    case ObjectValue(members) => ObjectValue(members[slot := members[slot].(value := w)])
  }

  /** One round of `Create`. */
  function Entered(v: Value, t: Ref): (r: Room)
    ensures r.slot < SlotCount(r.tree)
  {
    if Appends(v, t) then Room(ArrayValue(v.elements + [NullValue]), |v.elements|, false)
    else
      match Coerced(v, t)
      case ArrayValue(elements) => Room(ArrayValue(Padded(elements, t.index + 1)), t.index, t.index < |elements|)
      case ObjectValue(members) =>
        var k := FindMember(members, t.name);
        if k < |members| then Room(ObjectValue(members), k, true)
        else Room(ObjectValue(members + [Member(t.name, NullValue)]), |members|, false)
  }

  /** The tree with a place for `p` in it holding `leaf` (its old or created value when there is none), and whether
      every value on the way existed. */
  datatype Created = Created(tree: Value, exist: bool)

  function Put(v: Value, p: seq<Ref>, leaf: Option<Value>): (r: Created)
    decreases |p|
  {
    if p == [] then Created(if leaf.Some? then leaf.value else v, true)
    else
      var room := Entered(v, p[0]);
      var below := Put(ChildAt(room.tree, room.slot), p[1..], leaf);
      Created(WithChild(room.tree, room.slot, below.tree), room.exist && below.exist)
  }

  /** `Create`. */
  function Create(v: Value, p: seq<Ref>): (r: Created) { Put(v, p, None) }

  /** `Set`. */
  function Set(v: Value, p: seq<Ref>, x: Value): (r: Value) { Put(v, p, Some(x)).tree }

  // ----- laws -----

  /** Tokens as `Parse` makes them: a lone dash is no index. */
  predicate Parsed(p: seq<Ref>) {
    forall k :: 0 <= k < |p| ==> p[k].name == DASH ==> p[k].index == INVALID_INDEX
  }

  /** The tokens of some names. */
  function Refs(names: seq<Text>): (p: seq<Ref>)
    ensures |p| == |names| && forall k :: 0 <= k < |p| ==> p[k] == RefOf(names[k])
    ensures Parsed(p)
  {
    if names == [] then [] else
      assert Covered(names[0]) == DASH ==> names[0][0] == '-' as int;
      [RefOf(names[0])] + Refs(names[1..])
  }

  /** A round enters the child that `Child` selects exactly when there is one. */
  lemma EnteredChild(v: Value, t: Ref)
    requires t.name == DASH ==> t.index == INVALID_INDEX
    ensures var room := Entered(v, t);
      if Child(v, t).Some? then room.exist && room.tree == v && ChildAt(v, room.slot) == Child(v, t).value
      else !room.exist && ChildAt(room.tree, room.slot) == NullValue
  {
  }

  /** What a child becomes by replacing the slot that was entered. */
  lemma EnteredThenChild(v: Value, t: Ref, w: Value)
    requires (t.name == DASH ==> t.index == INVALID_INDEX) && !Appends(v, t)
    ensures var room := Entered(v, t); Child(WithChild(room.tree, room.slot, w), t) == Some(w)
  {
    var room := Entered(v, t);
    if room.tree.ObjectValue? {
      var members := room.tree.members;
      var after := WithChild(room.tree, room.slot, w).members;
      assert forall m :: 0 <= m < |after| ==> after[m].name == members[m].name;
      FindMemberIs(after, t.name, room.slot);
    }
  }

  lemma WithSameChild(v: Value, slot: nat)
    requires slot < SlotCount(v)
    ensures WithChild(v, slot, ChildAt(v, slot)) == v
  {
    if v.ArrayValue? {
      assert v.elements[slot := v.elements[slot]] == v.elements;
    } else {
      assert v.members[slot := v.members[slot].(value := v.members[slot].value)] == v.members;
    }
  }

  /** `Create` reports an existing value exactly when `Get` resolves, and then changes nothing. */
  lemma {:induction false} CreateExistsIffGet(v: Value, p: seq<Ref>)
    requires Parsed(p)
    ensures Create(v, p).exist <==> Get(v, p).Some?
    ensures Get(v, p).Some? ==> Create(v, p).tree == v
    decreases |p|
  {
    if p != [] {
      EnteredChild(v, p[0]);
      var room := Entered(v, p[0]);
      if Child(v, p[0]).Some? {
        CreateExistsIffGet(Child(v, p[0]).value, p[1..]);
        WithSameChild(v, room.slot);
      }
    }
  }

  /** A dash token meets an array on the way. */
  predicate MeetsDash(v: Value, p: seq<Ref>)
    decreases |p|
  {
    p != [] && (Appends(v, p[0]) || (Child(v, p[0]).Some? && MeetsDash(Child(v, p[0]).value, p[1..])))
  }

  /** After `Set`, `Get` gives the value back exactly when no dash token met an array; when one did, the path does
      not resolve. */
  lemma {:induction false} GetAfterSet(v: Value, p: seq<Ref>, x: Value)
    requires Parsed(p)
    ensures Get(Set(v, p, x), p) == if MeetsDash(v, p) then None else Some(x)
    decreases |p|
  {
    if p != [] {
      var room := Entered(v, p[0]);
      var child := ChildAt(room.tree, room.slot);
      EnteredChild(v, p[0]);
      if Appends(v, p[0]) {
      } else {
        GetAfterSet(child, p[1..], x);
        EnteredThenChild(v, p[0], Set(child, p[1..], x));
      }
    }
  }

  /** The paths part at token `k`, where they name different children. */
  predicate PartAt(p: seq<Ref>, q: seq<Ref>, k: nat) {
    && k < |p| && k < |q| && p[..k] == q[..k] && p[k].name != q[k].name
    && (p[k].index != q[k].index || p[k].index == INVALID_INDEX)
  }

  /** The token turns an array into an object. */
  predicate Retypes(v: Value, t: Ref) { v.ArrayValue? && t.index == INVALID_INDEX && t.name != DASH }

  lemma SiblingAfterSet(v: Value, t: Ref, u: Ref, w: Value)
    requires (t.name == DASH ==> t.index == INVALID_INDEX) && (u.name == DASH ==> u.index == INVALID_INDEX)
    requires t.name != u.name && (t.index != u.index || t.index == INVALID_INDEX) && Child(v, u).Some?
    ensures var room := Entered(v, t);
      Child(WithChild(room.tree, room.slot, w), u) == if Retypes(v, t) then None else Child(v, u)
  {
    var room := Entered(v, t);
    var after := WithChild(room.tree, room.slot, w);
    if v.ObjectValue? {
      var k := FindMember(v.members, u.name);
      assert forall m :: 0 <= m < |room.tree.members| ==> after.members[m].name == room.tree.members[m].name;
      FindMemberIs(after.members, u.name, k);
    } else if Retypes(v, t) {
      assert after.members[0].name == t.name;
    }
  }

  /** A value on another path survives `Set` exactly when no ancestor changed its type where the paths part. */
  lemma {:induction false} OtherAfterSet(v: Value, p: seq<Ref>, q: seq<Ref>, x: Value, k: nat)
    requires Parsed(p) && Parsed(q) && PartAt(p, q, k) && Get(v, q).Some?
    ensures Get(v, q[..k]).Some?
    ensures Get(Set(v, p, x), q) == if Retypes(Get(v, q[..k]).value, p[k]) then None else Get(v, q)
    decreases k
  {
    var room := Entered(v, p[0]);
    var child := ChildAt(room.tree, room.slot);
    var w := Set(child, p[1..], x);
    if k == 0 {
      SiblingAfterSet(v, p[0], q[0], w);
    } else {
      assert p[0] == p[..k][0] == q[..k][0] == q[0];
      assert q[..k][1..] == q[1..][..k - 1] && p[..k][1..] == p[1..][..k - 1];
      EnteredChild(v, p[0]);
      EnteredThenChild(v, p[0], w);
      OtherAfterSet(child, p[1..], q[1..], x, k - 1);
    }
  }

  /** Names part the paths exactly when they differ and share no index; below 2^32 no two numbers do. */
  lemma DifferentNamesPart(a: Text, b: Text)
    ensures PartAt([RefOf(a)], [RefOf(b)], 0) <==> Covered(a) != Covered(b) && !ShareIndex(a, b)
    ensures a != b && |a| < PointerObject.TWO_32 && |b| < PointerObject.TWO_32
      && (AllDigits(a) ==> NumberOf(a) < PointerObject.TWO_32) && (AllDigits(b) ==> NumberOf(b) < PointerObject.TWO_32)
      ==> PartAt([RefOf(a)], [RefOf(b)], 0)
  {
    hide IndexOf, NumberOf, Climbs, ShareIndex;
    IndexNamesOne(a, b);
    if |a| < PointerObject.TWO_32 && |b| < PointerObject.TWO_32 {
      assert Covered(a) == a && Covered(b) == b;
    }
    if ShareIndex(a, b) {
      NumbersOfShared(a, b);
    }
  }

  lemma NumbersOfShared(a: Text, b: Text)
    requires ShareIndex(a, b)
    ensures AllDigits(a) && AllDigits(b)
  {
  }

  // ----- which containers an edit makes -----

  /** An object of this one member. */
  ghost predicate OnlyMember(c: Value, name: Text) { c.ObjectValue? && |c.members| == 1 && c.members[0].name == name }

  /** The members before, all but the value of the first one of the name as they were, or one member more. */
  ghost predicate MemberSet(before: seq<Member>, after: seq<Member>, name: Text) {
    if exists m :: m in before && m.name == name then
      && |after| == |before|
      && forall j :: 0 <= j < |before| ==>
           && after[j].name == before[j].name
           && (before[j].name != name || (exists i :: 0 <= i < j && before[i].name == name) ==> after[j] == before[j])
    else |after| == |before| + 1 && after[..|before|] == before && after[|before|].name == name
  }

  /** The container `c` that an edit leaves where `was` stood, or nothing, for the token below it: an array stays one for
      a dash, which adds an element, and for an index, up to which it is filled with nulls; an object stays one; and what
      was neither, or is an array under a name, becomes the array or the object that the token asks for. */
  ghost predicate Made(was: Option<Value>, t: Ref, c: Value) {
    match was
    case Some(ArrayValue(elements)) =>
      if t.name == DASH then
        c.ArrayValue? && |c.elements| == |elements| + 1 && c.elements[..|elements|] == elements
      else if t.index != INVALID_INDEX then
        && c.ArrayValue? && |c.elements| == (if t.index < |elements| then |elements| else t.index + 1)
        && forall j :: 0 <= j < |c.elements| && j != t.index ==>
             c.elements[j] == if j < |elements| then elements[j] else NullValue
      else OnlyMember(c, t.name)
    case Some(ObjectValue(members)) => c.ObjectValue? && MemberSet(members, c.members, t.name)
    case _ =>
      if t.index != INVALID_INDEX then
        c.ArrayValue? && |c.elements| == t.index + 1 && forall j :: 0 <= j < t.index ==> c.elements[j] == NullValue
      else OnlyMember(c, t.name)
  }

  lemma FirstOfName(members: seq<Member>, name: Text)
    ensures FindMember(members, name) < |members| <==> exists m :: m in members && m.name == name
  {
    var k := FindMember(members, name);
    if k < |members| {
      assert members[k] in members;
    }
  }

  /** One round makes the container, whatever is then put into it. */
  lemma RoundMakes(v: Value, t: Ref, w: Value)
    requires t.name == DASH ==> t.index == INVALID_INDEX
    ensures var room := Entered(v, t); Made(Some(v), t, WithChild(room.tree, room.slot, w))
  {
    hide FindMember;
    var room := Entered(v, t);
    var c := WithChild(room.tree, room.slot, w);
    if v.ObjectValue? {
      FirstOfName(v.members, t.name);
      MemberPut(v.members, t.name, w, c);
    }
  }

  lemma MemberPut(members: seq<Member>, name: Text, w: Value, c: Value)
    requires var k := FindMember(members, name);
      c == if k < |members| then ObjectValue(members[k := members[k].(value := w)]) else ObjectValue(members + [Member(name, w)])
    ensures MemberSet(members, c.members, name)
  {
    hide FindMember;
    FirstOfName(members, name);
  }

  /** The container at the `k`th token of an edit, no dash having added an element before. Below an element that a dash
      adds the edit goes on as in a null. */
  lemma {:induction false} PutMakes(v: Value, p: seq<Ref>, leaf: Option<Value>, k: nat)
    requires Parsed(p) && k < |p| && !MeetsDash(v, p[..k])
    ensures var c := Get(Put(v, p, leaf).tree, p[..k]);
      && c.Some? && Made(Get(v, p[..k]), p[k], c.value)
      && (Get(v, p[..k]).Some? && Appends(Get(v, p[..k]).value, p[k]) ==>
            c.value.elements[|c.value.elements| - 1] == Put(NullValue, p[k + 1..], leaf).tree)
    decreases k
  {
    var room := Entered(v, p[0]);
    var child := ChildAt(room.tree, room.slot);
    var below := Put(child, p[1..], leaf).tree;
    EnteredChild(v, p[0]);
    if k == 0 {
      RoundMakes(v, p[0], below);
    } else {
      hide MeetsDash, Made, Entered, WithChild, ChildAt;
      assert p[..k][0] == p[0] && p[..k][1..] == p[1..][..k - 1] && p[1..][k - 1] == p[k] && p[1..][k..] == p[k + 1..];
      DashBelow(v, p[..k], child);
      EnteredThenChild(v, p[0], below);
      PutMakes(child, p[1..], leaf, k - 1);
      if Child(v, p[0]).None? {
        NullIsNothing(p[1..][..k - 1], p[k], Get(Put(v, p, leaf).tree, p[..k]).value);
      }
    }
  }

  lemma DashBelow(v: Value, q: seq<Ref>, child: Value)
    requires q != [] && !MeetsDash(v, q) && (if Child(v, q[0]).Some? then child == Child(v, q[0]).value else child == NullValue)
    ensures !Appends(v, q[0]) && !MeetsDash(child, q[1..])
  {
  }

  /** What is made in place of nothing is made in place of a null. */
  lemma NullIsNothing(q: seq<Ref>, t: Ref, c: Value)
    requires Made(Get(NullValue, q), t, c)
    ensures Made(None, t, c) && (Get(NullValue, q).Some? ==> Get(NullValue, q).value == NullValue)
  {
  }

  /** After `Set`, and after `Create`, each container on the way is what its token made of what was there. */
  lemma EditMakes(v: Value, p: seq<Ref>, x: Value, k: nat)
    requires Parsed(p) && k < |p| && !MeetsDash(v, p[..k])
    ensures var c := Get(Set(v, p, x), p[..k]);
      && c.Some? && Made(Get(v, p[..k]), p[k], c.value)
      && (Get(v, p[..k]).Some? && Get(v, p[..k]).value.ArrayValue? && p[k].name == DASH ==>
            c.value.elements[|c.value.elements| - 1] == Set(NullValue, p[k + 1..], x))
    ensures var c := Get(Create(v, p).tree, p[..k]);
      && c.Some? && Made(Get(v, p[..k]), p[k], c.value)
      && (Get(v, p[..k]).Some? && Get(v, p[..k]).value.ArrayValue? && p[k].name == DASH ==>
            c.value.elements[|c.value.elements| - 1] == Create(NullValue, p[k + 1..]).tree)
  {
    hide Made, Put, MeetsDash, Get;
    PutMakes(v, p, Some(x), k);
    PutMakes(v, p, None, k);
  }

  /** In particular which containers are arrays. */
  lemma EditMakesArrays(v: Value, p: seq<Ref>, x: Value, k: nat)
    requires Parsed(p) && k < |p| && !MeetsDash(v, p[..k])
    ensures var was, c := Get(v, p[..k]), Get(Set(v, p, x), p[..k]);
      && c.Some?
      && (c.value.ArrayValue? <==>
            || (was.Some? && was.value.ArrayValue? && (p[k].name == DASH || p[k].index != INVALID_INDEX))
            || ((was.None? || (!was.value.ArrayValue? && !was.value.ObjectValue?)) && p[k].index != INVALID_INDEX))
      && (!c.value.ArrayValue? ==> c.value.ObjectValue?)
  {
    hide Put, MeetsDash, Get;
    EditMakes(v, p, x, k);
  }

  /** What `Create` leaves at a path with no dash on an array: the value that was there, or a null. */
  lemma {:induction false} GetAfterCreate(v: Value, p: seq<Ref>)
    requires Parsed(p) && !MeetsDash(v, p)
    ensures Get(Create(v, p).tree, p) == Some(if Get(v, p).Some? then Get(v, p).value else NullValue)
    decreases |p|
  {
    if p != [] {
      var room := Entered(v, p[0]);
      var child := ChildAt(room.tree, room.slot);
      EnteredChild(v, p[0]);
      DashBelow(v, p, child);
      GetAfterCreate(child, p[1..]);
      EnteredThenChild(v, p[0], Create(child, p[1..]).tree);
    }
  }

  // ----- erasing -----

  /** The slot of the child a token selects. */
  function SlotOf(v: Value, t: Ref): (k: nat)
    requires Child(v, t).Some?
    ensures k < SlotCount(v) && ChildAt(v, k) == Child(v, t).value
  {
    if v.ObjectValue? then FindMember(v.members, t.name) else t.index
  }

  /** The container without one slot, the later ones moved down. */
  function WithoutChild(v: Value, slot: nat): (r: Value)
    requires slot < SlotCount(v)
    ensures SlotCount(r) == SlotCount(v) - 1
    ensures forall k :: 0 <= k < slot ==> ChildAt(r, k) == ChildAt(v, k)
    ensures forall k :: slot <= k < SlotCount(r) ==> ChildAt(r, k) == ChildAt(v, k + 1)
  {
    match v
    case ArrayValue(elements) => ArrayValue(elements[..slot] + elements[slot + 1..])
    case ObjectValue(members) => ObjectValue(members[..slot] + members[slot + 1..])
  }

  datatype Erased = Erased(tree: Value, ok: bool)

  /** `Erase`. */
  function Erase(v: Value, p: seq<Ref>): (r: Erased)
    decreases |p|
  {
    if p == [] || Child(v, p[0]).None? then Erased(v, false)
    else if |p| == 1 then Erased(WithoutChild(v, SlotOf(v, p[0])), true)
    else
      var below := Erase(Child(v, p[0]).value, p[1..]);
      Erased(WithChild(v, SlotOf(v, p[0]), below.tree), below.ok)
  }

  /** Replacing the selected child keeps the selection. */
  lemma ChildReplaced(v: Value, t: Ref, w: Value)
    requires Child(v, t).Some?
    ensures Child(WithChild(v, SlotOf(v, t), w), t) == Some(w)
  {
    if v.ObjectValue? {
      var after := WithChild(v, SlotOf(v, t), w).members;
      assert forall m :: 0 <= m < |after| ==> after[m].name == v.members[m].name;
      FindMemberIs(after, t.name, SlotOf(v, t));
    }
  }

  /** `Erase` succeeds exactly on a path below the root that resolves; it takes that child out of its parent and a
      failure changes nothing. */
  lemma {:induction false} EraseRemoves(v: Value, p: seq<Ref>)
    ensures Erase(v, p).ok <==> p != [] && Get(v, p).Some?
    ensures !Erase(v, p).ok ==> Erase(v, p).tree == v
    ensures Erase(v, p).ok ==>
      var parent := p[..|p| - 1];
      Get(v, parent).Some? && Child(Get(v, parent).value, p[|p| - 1]).Some?
      && Get(Erase(v, p).tree, parent) == Some(WithoutChild(Get(v, parent).value, SlotOf(Get(v, parent).value, p[|p| - 1])))
    decreases |p|
  {
    if |p| > 1 && Child(v, p[0]).Some? {
      var child := Child(v, p[0]).value;
      EraseRemoves(child, p[1..]);
      WithSameChild(v, SlotOf(v, p[0]));
      ChildReplaced(v, p[0], Erase(child, p[1..]).tree);
      assert p[..|p| - 1][0] == p[0] && p[..|p| - 1][1..] == p[1..][..|p| - 2];
    } else if |p| == 1 {
      assert p[..0] == [];
    }
  }

  lemma {:induction false} FindAfterErase(members: seq<Member>, slot: nat, name: Text)
    requires slot < |members| && members[slot].name != name
    ensures var k := FindMember(members, name);
      FindMember(members[..slot] + members[slot + 1..], name) == if k < slot then k else k - 1
  {
    var k := FindMember(members, name);
    var after := members[..slot] + members[slot + 1..];
    assert forall m :: 0 <= m < slot ==> after[m] == members[m];
    assert forall m :: slot <= m < |after| ==> after[m] == members[m + 1];
    FindMemberIs(after, name, if k < slot then k else k - 1);
  }

  /** In an object, erasing one name leaves every other as it was. */
  lemma EraseKeepsNames(members: seq<Member>, name: Text, other: Ref)
    requires FindMember(members, name) < |members| && other.name != name
    ensures Child(WithoutChild(ObjectValue(members), FindMember(members, name)), other) == Child(ObjectValue(members), other)
  {
    hide FindMember;
    FindAfterErase(members, FindMember(members, name), other.name);
  }

  /** Replacing the child one token selects leaves what another selects. */
  lemma SiblingReplaced(v: Value, t: Ref, u: Ref, w: Value)
    requires t.name != u.name && (t.index != u.index || t.index == INVALID_INDEX) && Child(v, t).Some? && Child(v, u).Some?
    ensures Child(WithChild(v, SlotOf(v, t), w), u) == Child(v, u)
  {
    if v.ObjectValue? {
      var after := WithChild(v, SlotOf(v, t), w).members;
      assert forall m :: 0 <= m < |after| ==> after[m].name == v.members[m].name;
      FindMemberIs(after, u.name, FindMember(v.members, u.name));
    }
  }

  /** The token that selects an element's place after the one at `slot` was taken out. */
  function MovedDown(v: Value, slot: nat, t: Ref): (r: Ref) {
    if v.ArrayValue? && slot < t.index < |v.elements| then Ref(Decimal.Digits(t.index - 1), t.index - 1) else t
  }

  lemma SiblingAfterErase(v: Value, t: Ref, u: Ref)
    requires t.name != u.name && (t.index != u.index || t.index == INVALID_INDEX) && Child(v, t).Some? && Child(v, u).Some?
    requires u.index <= INVALID_INDEX
    ensures Child(WithoutChild(v, SlotOf(v, t)), MovedDown(v, SlotOf(v, t), u)) == Child(v, u)
  {
    hide FindMember, Decimal.Digits;
    if v.ObjectValue? {
      assert v == ObjectValue(v.members);
      EraseKeepsNames(v.members, t.name, u);
    } else {
      var after := WithoutChild(v, t.index).elements;
      assert |after| == |v.elements| - 1;
      if u.index < t.index {
        assert after[u.index] == v.elements[u.index];
      } else {
        assert after[u.index - 1] == v.elements[u.index];
      }
    }
  }

  /** Where a path that parts from an erased one leads afterwards. */
  function AfterErase(v: Value, p: seq<Ref>, q: seq<Ref>, k: nat): (r: seq<Ref>)
    requires k < |p| && k < |q| && Get(v, q[..k]).Some? && Child(Get(v, q[..k]).value, p[k]).Some?
  {
    if k < |p| - 1 then q
    else q[k := MovedDown(Get(v, q[..k]).value, SlotOf(Get(v, q[..k]).value, p[k]), q[k])]
  }

  /** Every path that parts from the erased one, its indices 32-bit numbers, still leads to its value, the array indices behind it one lower. */
  lemma {:induction false} OtherAfterErase(v: Value, p: seq<Ref>, q: seq<Ref>, k: nat)
    requires PartAt(p, q, k) && Get(v, p).Some? && Get(v, q).Some? && q[k].index <= INVALID_INDEX
    ensures Get(v, q[..k]).Some? && Child(Get(v, q[..k]).value, p[k]).Some?
    ensures Get(Erase(v, p).tree, AfterErase(v, p, q, k)) == Get(v, q)
    decreases k
  {
    hide MovedDown, WithChild, WithoutChild, SlotOf, Child;
    var child := Child(v, p[0]).value;
    if k == 0 {
      assert q[..0] == [];
      var q' := AfterErase(v, p, q, 0);
      assert q'[1..] == q[1..];
      if |p| == 1 {
        SiblingAfterErase(v, p[0], q[0]);
      } else {
        SiblingReplaced(v, p[0], q[0], Erase(child, p[1..]).tree);
      }
    } else {
      assert p[0] == p[..k][0] == q[..k][0] == q[0];
      assert q[..k][1..] == q[1..][..k - 1] && p[..k][1..] == p[1..][..k - 1];
      assert p[1..][k - 1] == p[k] && q[1..][k - 1] == q[k];
      OtherAfterErase(child, p[1..], q[1..], k - 1);
      ChildReplaced(v, p[0], Erase(child, p[1..]).tree);
      assert AfterErase(v, p, q, k)[1..] == AfterErase(child, p[1..], q[1..], k - 1);
    }
  }
}
