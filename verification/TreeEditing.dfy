/** The pointer operations on a tree held in a field: the loops of `Get`, `Create` and `Set`, with a place (a list of
    slots from the root) for the source's pointer into the tree. */
module TreeEditing {
  import opened Bytes
  import opened Dom
  import opened PointerObject
  import opened PointerTree
  import Pointer

  // ----- places in a tree -----

  /** The slots lead from the root to a value. */
  predicate Leads(root: Value, place: seq<nat>)
    decreases |place|
  {
    place == [] || (place[0] < SlotCount(root) && Leads(ChildAt(root, place[0]), place[1..]))
  }

  function ValueAt(root: Value, place: seq<nat>): (r: Value)
    requires Leads(root, place)
    decreases |place|
  {
    if place == [] then root else ValueAt(ChildAt(root, place[0]), place[1..])
  }

  /** Assigning through the pointer: the tree with another value at the place. */
  function Replace(root: Value, place: seq<nat>, w: Value): (r: Value)
    requires Leads(root, place)
    decreases |place|
  {
    if place == [] then w
    else WithChild(root, place[0], Replace(ChildAt(root, place[0]), place[1..], w))
  }

  lemma WithChildTwice(v: Value, slot: nat, a: Value, b: Value)
    requires slot < SlotCount(v)
    ensures WithChild(WithChild(v, slot, a), slot, b) == WithChild(v, slot, b)
  {
  }

  lemma {:induction false} ReplaceLeads(root: Value, place: seq<nat>, w: Value)
    requires Leads(root, place)
    ensures Leads(Replace(root, place, w), place) && ValueAt(Replace(root, place, w), place) == w
    ensures Replace(root, place, ValueAt(root, place)) == root
    ensures forall x :: Replace(Replace(root, place, w), place, x) == Replace(root, place, x)
    decreases |place|
  {
    if place != [] {
      var child := ChildAt(root, place[0]);
      ReplaceLeads(child, place[1..], w);
      WithSameChild(root, place[0]);
      forall x ensures Replace(Replace(root, place, w), place, x) == Replace(root, place, x) {
        WithChildTwice(root, place[0], Replace(child, place[1..], w), Replace(child, place[1..], x));
      }
    }
  }

  lemma {:induction false} DeeperPlace(root: Value, place: seq<nat>, slot: nat)
    requires Leads(root, place) && slot < SlotCount(ValueAt(root, place))
    ensures Leads(root, place + [slot]) && ValueAt(root, place + [slot]) == ChildAt(ValueAt(root, place), slot)
    ensures forall w :: Replace(root, place + [slot], w) == Replace(root, place, WithChild(ValueAt(root, place), slot, w))
    decreases |place|
  {
    if place == [] {
      assert [slot][1..] == [] && place + [slot] == [slot];
    } else {
      assert (place + [slot])[0] == place[0] && (place + [slot])[1..] == place[1..] + [slot];
      DeeperPlace(ChildAt(root, place[0]), place[1..], slot);
    }
  }

  /** Nulls pushed until there is an element at the index. */
  method PadTo(before: seq<Value>, index: nat) returns (elements: seq<Value>, exist: bool)
    ensures elements == Padded(before, index + 1) && (exist <==> index < |before|)
  {
    elements, exist := before, true;
    while index >= |elements|
      invariant before <= elements && elements == Padded(before, |elements|)
      invariant |elements| <= index + 1 || elements == before
      invariant exist <==> |elements| == |before|
      decreases index + 1 - |elements|
    {
      elements := elements + [NullValue];
      exist := false;
    }
    assert elements == Padded(before, index + 1);
  }

  /** A subtree that pointers are resolved in and edit. */
  class Subtree {
    var root: Value

    constructor (v: Value)
      ensures root == v
    {
      root := v;
    }

    /** `Get`, with the index of the token that did not resolve. */
    method Resolve(tokens: seq<Ref>) returns (r: Option<Value>, unresolved: nat)
      ensures r == Get(root, tokens)
      ensures r.None? ==> unresolved < |tokens| && Get(root, tokens[..unresolved]).Some?
      ensures r.None? ==> Child(Get(root, tokens[..unresolved]).value, tokens[unresolved]).None?
    {
      var v := root;
      assert tokens[0..] == tokens;
      for i := 0 to |tokens|
        invariant Get(root, tokens[..i]) == Some(v) && Get(root, tokens) == Get(v, tokens[i..])
      {
        var t := tokens[i];
        ghost var u := v;
        match v {
          case ObjectValue(members) =>
            var m := FindMember(members, t.name);
            if m == |members| {
              return None, i;
            }
            v := members[m].value;
          case ArrayValue(elements) =>
            if t.index == INVALID_INDEX || t.index >= |elements| {
              return None, i;
            }
            v := elements[t.index];
          case _ =>
            return None, i;
        }
        GetThrough(root, tokens[..i], [t]);
        assert tokens[..i + 1] == tokens[..i] + [t] && tokens[i..] == [t] + tokens[i + 1..];
        assert Get(u, [t]) == Some(v) by { assert [t][1..] == [] && Get(v, []) == Some(v); }
        GetThrough(u, [t], tokens[i + 1..]);
      }
      assert tokens[..|tokens|] == tokens;
      return Some(v), |tokens|;
    }

    /** One round of `Create` on the value at `place`. */
    method Enter(place: seq<nat>, t: Ref) returns (slot: nat, exist: bool)
      requires Leads(root, place)
      modifies this
      ensures var room := Entered(ValueAt(old(root), place), t);
        root == Replace(old(root), place, room.tree) && slot == room.slot && exist == room.exist
    {
      ReplaceLeads(root, place, ValueAt(root, place));
      exist := true;
      var v := ValueAt(root, place);
      if v.ArrayValue? && t.name == DASH {
        v, slot, exist := ArrayValue(v.elements + [NullValue]), |v.elements|, false;
      } else {
        if t.index == INVALID_INDEX {
          if !v.ObjectValue? {
            v := ObjectValue([]);
          }
        } else if !v.ArrayValue? && !v.ObjectValue? {
          v := ArrayValue([]);
        }
        if v.ArrayValue? {
          var elements;
          elements, exist := PadTo(v.elements, t.index);
          v, slot := ArrayValue(elements), t.index;
        } else {
          slot := FindMember(v.members, t.name);
          if slot == |v.members| {
            v, exist := ObjectValue(v.members + [Member(t.name, NullValue)]), false;
          }
        }
      }
      root := Replace(root, place, v);
    }

    /** `Create`: the place of the value, and whether it was there. */
    method Create(tokens: seq<Ref>) returns (place: seq<nat>, exist: bool)
      modifies this
      ensures Created(root, exist) == PointerTree.Create(old(root), tokens)
      ensures Leads(root, place) && forall x :: Replace(root, place, x) == PointerTree.Set(old(root), tokens, x)
    {
      hide Entered, WithChild, ChildAt;
      place, exist := [], true;
      ghost var start := root;
      assert tokens[0..] == tokens;
      for i := 0 to |tokens|
        invariant Leads(root, place)
        invariant forall leaf ::
          Put(start, tokens, leaf).tree == Replace(root, place, Put(ValueAt(root, place), tokens[i..], leaf).tree)
        invariant PointerTree.Create(start, tokens).exist
          == (exist && PointerTree.Create(ValueAt(root, place), tokens[i..]).exist)
      {
        assert tokens[i..][0] == tokens[i] && tokens[i..][1..] == tokens[i + 1..];
        ghost var before, v := root, ValueAt(root, place);
        ghost var room := Entered(v, tokens[i]);
        var slot, e := Enter(place, tokens[i]);
        ReplaceLeads(before, place, room.tree);
        DeeperPlace(root, place, slot);
        place := place + [slot];
        exist := exist && e;
      }
      assert tokens[|tokens|..] == [];
      ReplaceLeads(root, place, ValueAt(root, place));
      assert Put(start, tokens, None).tree == root;
      forall x ensures Replace(root, place, x) == PointerTree.Set(start, tokens, x) {
        assert Put(start, tokens, Some(x)).tree == Replace(root, place, x);
      }
    }

    /** `Set`: assign to what `Create` returns. */
    method Set(tokens: seq<Ref>, x: Value)
      modifies this
      ensures root == PointerTree.Set(old(root), tokens, x)
    {
      var place, exist := Create(tokens);
      root := Replace(root, place, x);
    }

    /** `Erase`: down to the parent of the last token, then out with the child. */
    method Erase(tokens: seq<Ref>) returns (ok: bool)
      modifies this
      ensures Erased(root, ok) == PointerTree.Erase(old(root), tokens)
    {
      hide WithChild, ChildAt, WithoutChild;
      if tokens == [] {
        return false;
      }
      ghost var start := root;
      var place: seq<nat> := [];
      var last := |tokens| - 1;
      assert tokens[0..] == tokens;
      for i := 0 to last
        invariant root == start && Leads(root, place)
        invariant var below := PointerTree.Erase(ValueAt(root, place), tokens[i..]);
          PointerTree.Erase(start, tokens) == Erased(Replace(root, place, below.tree), below.ok)
      {
        assert tokens[i..][0] == tokens[i] && tokens[i..][1..] == tokens[i + 1..];
        var v := ValueAt(root, place);
        ReplaceLeads(root, place, v);
        if Child(v, tokens[i]).None? {
          return false;
        }
        DeeperPlace(root, place, SlotOf(v, tokens[i]));
        place := place + [SlotOf(v, tokens[i])];
      }
      var v := ValueAt(root, place);
      ReplaceLeads(root, place, v);
      assert tokens[last..] == [tokens[last]];
      if Child(v, tokens[last]).None? {
        return false;
      }
      root := Replace(root, place, WithoutChild(v, SlotOf(v, tokens[last])));
      ok := true;
    }
  }

  // ----- by pointer text -----

  /** What the loops above read of a pointer's arrays. */
  method TokensOf(pointer: GenericPointer, ghost names: seq<Text>) returns (tokens: seq<Ref>)
    requires pointer.Holds(names)
    ensures tokens == Refs(names)
  {
    tokens := [];
    for k := 0 to pointer.tokenCount
      invariant |tokens| == k && forall m :: 0 <= m < k ==> tokens[m] == RefOf(names[m])
    {
      var t := pointer.tokens[k];
      TokenName(pointer.nameBuffer[..], names, k);
      tokens := tokens + [Ref(pointer.nameBuffer[t.name..t.name + t.length], t.index)];
    }
  }

  /** The covered bytes of a name in the buffer. */
  lemma TokenName(buffer: Text, names: seq<Text>, k: nat)
    requires Layout(names) <= buffer && k < |names|
    ensures var t := TokenOf(names, k); t.name + t.length <= |buffer| && buffer[t.name..t.name + t.length] == Covered(names[k])
  {
    hide Layout, IndexOf;
    LayoutAt(names, k);
    var at := |Layout(names[..k])|;
    assert buffer[at..at + |names[k]|] == Layout(names)[at..at + |names[k]|] == names[k];
    assert buffer[at..at + Wrap32(|names[k]|)] == names[k][..Wrap32(|names[k]|)];
  }

  method ParsedTokens(source: Text) returns (tokens: seq<Ref>)
    requires Pointer.Parse(source).Names?
    ensures tokens == Refs(Pointer.Parse(source).names)
  {
    hide Pointer.Parse;
    var pointer := new GenericPointer();
    pointer.Parse(source);
    tokens := TokensOf(pointer, Pointer.Parse(source).names);
  }

  /** `GetValueByPointer`. */
  method GetValueByPointer(tree: Subtree, source: Text) returns (r: Option<Value>)
    requires Pointer.Parse(source).Names?
    ensures r == Get(tree.root, Refs(Pointer.Parse(source).names))
  {
    var tokens := ParsedTokens(source);
    var unresolved;
    r, unresolved := tree.Resolve(tokens);
  }

  /** Of the paths that part from `p` and resolved, those keep their values that do not pass an array become an
      object. */
  ghost predicate OthersKept(was: Value, now: Value, p: seq<Ref>) {
    forall q, k: nat :: Parsed(q) && PartAt(p, q, k) && Get(was, q).Some? ==>
      && Get(was, q[..k]).Some?
      && Get(now, q) == if Retypes(Get(was, q[..k]).value, p[k]) then None else Get(was, q)
  }

  /** Each container on the way, no dash having added an element before, is what its token made of what was there. */
  ghost predicate MadeAlong(was: Value, now: Value, p: seq<Ref>) {
    forall k :: 0 <= k < |p| && !MeetsDash(was, p[..k]) ==>
      Get(now, p[..k]).Some? && Made(Get(was, p[..k]), p[k], Get(now, p[..k]).value)
  }

  lemma SetMakesAlong(was: Value, p: seq<Ref>, x: Value)
    requires Parsed(p)
    ensures MadeAlong(was, PointerTree.Set(was, p, x), p) && MadeAlong(was, PointerTree.Create(was, p).tree, p)
  {
    hide Made, MeetsDash, Get;
    forall k | 0 <= k < |p| && !MeetsDash(was, p[..k])
      ensures var c := Get(PointerTree.Set(was, p, x), p[..k]); c.Some? && Made(Get(was, p[..k]), p[k], c.value)
      ensures var c := Get(PointerTree.Create(was, p).tree, p[..k]); c.Some? && Made(Get(was, p[..k]), p[k], c.value)
    {
      EditMakes(was, p, x, k);
    }
  }

  /** `SetValueByPointer`: the same text then gets the value back unless a dash met an array. */
  method SetValueByPointer(tree: Subtree, source: Text, x: Value)
    requires Pointer.Parse(source).Names?
    modifies tree
    ensures var p := Refs(Pointer.Parse(source).names);
      && tree.root == PointerTree.Set(old(tree.root), p, x)
      && Get(tree.root, p) == (if MeetsDash(old(tree.root), p) then None else Some(x))
      && OthersKept(old(tree.root), tree.root, p) && MadeAlong(old(tree.root), tree.root, p)
  {
    ghost var was := tree.root;
    var tokens := ParsedTokens(source);
    tree.Set(tokens, x);
    SetMakesAlong(was, tokens, x);
    GetAfterSet(was, tokens, x);
    forall q, k: nat | Parsed(q) && PartAt(tokens, q, k) && Get(was, q).Some?
      ensures Get(was, q[..k]).Some?
      ensures Get(tree.root, q) == if Retypes(Get(was, q[..k]).value, tokens[k]) then None else Get(was, q)
    {
      OtherAfterSet(was, tokens, q, x, k);
    }
  }

  /** `CreateValueByPointer`: it tells whether the text resolved, and if so changes nothing. */
  method CreateValueByPointer(tree: Subtree, source: Text) returns (place: seq<nat>, exist: bool)
    requires Pointer.Parse(source).Names?
    modifies tree
    ensures var p := Refs(Pointer.Parse(source).names);
      && (exist <==> Get(old(tree.root), p).Some?) && (exist ==> tree.root == old(tree.root))
      && Created(tree.root, exist) == PointerTree.Create(old(tree.root), p) && MadeAlong(old(tree.root), tree.root, p)
      && (!exist && !MeetsDash(old(tree.root), p) ==> Get(tree.root, p) == Some(NullValue))
    ensures Leads(tree.root, place)
  {
    ghost var was := tree.root;
    var tokens := ParsedTokens(source);
    place, exist := tree.Create(tokens);
    CreateExistsIffGet(was, tokens);
    SetMakesAlong(was, tokens, NullValue);
    if !MeetsDash(was, tokens) {
      GetAfterCreate(was, tokens);
    }
  }

  /** Of the paths that part from `p` and resolved, each leads to its value, where it has moved down or not. */
  ghost predicate OthersMoved(was: Value, now: Value, p: seq<Ref>) {
    forall q: seq<Ref>, k: nat :: PartAt(p, q, k) && Get(was, q).Some? && q[k].index <= INVALID_INDEX ==>
      && Get(was, q[..k]).Some? && Child(Get(was, q[..k]).value, p[k]).Some?
      && Get(now, AfterErase(was, p, q, k)) == Get(was, q)
  }

  /** `EraseValueByPointer`. */
  method EraseValueByPointer(tree: Subtree, source: Text) returns (ok: bool)
    requires Pointer.Parse(source).Names?
    modifies tree
    ensures var p := Refs(Pointer.Parse(source).names);
      && (ok <==> p != [] && Get(old(tree.root), p).Some?)
      && (!ok ==> tree.root == old(tree.root))
      && (ok ==> OthersMoved(old(tree.root), tree.root, p))
      && Erased(tree.root, ok) == PointerTree.Erase(old(tree.root), p)
  {
    ghost var was := tree.root;
    var tokens := ParsedTokens(source);
    ok := tree.Erase(tokens);
    EraseRemoves(was, tokens);
    if ok {
      forall q: seq<Ref>, k: nat | PartAt(tokens, q, k) && Get(was, q).Some? && q[k].index <= INVALID_INDEX
        ensures Get(was, q[..k]).Some? && Child(Get(was, q[..k]).value, tokens[k]).Some?
        ensures Get(tree.root, AfterErase(was, tokens, q, k)) == Get(was, q)
      {
        OtherAfterErase(was, tokens, q, k);
      }
    }
  }
}
