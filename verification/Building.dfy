/** Parsing into a document: whatever text the reader accepts, the events it raises build exactly one value. */
module Building {
  import opened Bytes
  import opened Events
  import opened Grammar
  import opened Dom
  import Numbers
  import StringReading

  /** `delta` takes the document's stack from `before` to `after`. */
  ghost predicate Builds(before: seq<Value>, delta: seq<Event>, after: seq<Value>) {
    Build(before, delta) == Some(after)
  }

  lemma BuildsOne(before: seq<Value>, e: Event)
    requires Push(before, e).Some?
    ensures Builds(before, [e], Push(before, e).value)
  {
    assert [e][1..] == [];
  }

  lemma BuildsThen(a: seq<Value>, d: seq<Event>, b: seq<Value>, e: seq<Event>, c: seq<Value>)
    requires Builds(a, d, b) && Builds(b, e, c)
    ensures Builds(a, d + e, c)
  {
    BuildAppend(a, d, e);
  }

  lemma LeafBuilds(env: Env, s: Text, i: nat, trace: seq<Event>, stack: seq<Value>) returns (delta: seq<Event>, v: Value)
    requires i <= |s| && ReadLeaf(env, s, i, trace).Ok?
    ensures ReadLeaf(env, s, i, trace).trace == trace + delta && Builds(stack, delta, stack + [v])
  {
    hide Skip, Numbers.ReadNumber, StringReading.DecodeString;
    var t := ReadLeaf(env, s, i, trace).trace;
    var e := t[|trace|];
    delta := [e];
    assert Push(stack, e).Some?;
    BuildsOne(stack, e);
    v := Push(stack, e).value[|stack|];
  }

  /** A container closed with `count` cells on top of its placeholder. */
  lemma ClosingArray(stack: seq<Value>, vs: seq<Value>) returns (v: Value)
    ensures v == ArrayValue(vs) && Builds(stack + [ArrayValue([])] + vs, [EndArray(|vs|)], stack + [v])
  {
    v := ArrayValue(vs);
    var full := stack + [ArrayValue([])] + vs;
    assert full[|full| - |vs|..] == vs && full[..|full| - |vs| - 1] == stack;
    BuildsOne(full, EndArray(|vs|));
  }

  /** Name and value cells, as members lie on the stack. */
  ghost function Cells(ms: seq<Member>): (cells: seq<Value>)
    ensures |cells| == 2 * |ms|
  {
    if ms == [] then [] else [StringValue(ms[0].name), ms[0].value] + Cells(ms[1..])
  }

  lemma {:induction false} CellsAreMembers(ms: seq<Member>)
    ensures MembersOf(Cells(ms)) == Some(ms)
    decreases |ms|
  {
    if ms != [] {
      assert Cells(ms)[2..] == Cells(ms[1..]);
      CellsAreMembers(ms[1..]);
      assert [ms[0]] + ms[1..] == ms;
    }
  }

  lemma {:induction false} CellsAppend(ms: seq<Member>, m: Member)
    ensures Cells(ms + [m]) == Cells(ms) + [StringValue(m.name), m.value]
    decreases |ms|
  {
    if ms == [] {
      assert Cells([m][1..]) == [];
    } else {
      assert (ms + [m])[1..] == ms[1..] + [m];
      CellsAppend(ms[1..], m);
    }
  }

  lemma ClosingObject(stack: seq<Value>, ms: seq<Member>) returns (v: Value)
    ensures v == ObjectValue(ms) && Builds(stack + [ObjectValue([])] + Cells(ms), [EndObject(|ms|)], stack + [v])
  {
    v := ObjectValue(ms);
    var full := stack + [ObjectValue([])] + Cells(ms);
    assert full[|full| - 2 * |ms|..] == Cells(ms) && full[..|full| - 2 * |ms| - 1] == stack;
    CellsAreMembers(ms);
    BuildsOne(full, EndObject(|ms|));
  }

  lemma {:induction false} ValueBuilds(env: Env, s: Text, i: nat, trace: seq<Event>, stack: seq<Value>)
    returns (delta: seq<Event>, v: Value)
    requires i <= |s| < 0x1_0000_0000 && ReadValue(env, s, i, trace).Ok?
    ensures ReadValue(env, s, i, trace).trace == trace + delta && Builds(stack, delta, stack + [v])
    decreases |s| - i, 1
  {
    hide Skip, ReadLeaf, Builds, ReadString;
    if Peek(s, i) == '[' as int {
      var t := trace + [StartArray];
      BuildsOne(stack, StartArray);
      var open := stack + [ArrayValue([])];
      var q := Skip(env.flags, s, i + 1).pos;
      assert ReadValue(env, s, i, trace) == ArrayBody(env, s, q, t);
      if Peek(s, q) == ']' as int {
        v := ClosingArray(stack, []);
        assert open + [] == open;
        BuildsThen(stack, [StartArray], open, [EndArray(0)], stack + [v]);
        delta := [StartArray] + [EndArray(0)];
        assert t + [EndArray(0)] == trace + delta;
      } else {
        var rest;
        assert open + [] == open;
        rest, v := ElementsBuild(env, s, q, t, stack, []);
        BuildsThen(stack, [StartArray], open, rest, stack + [v]);
        delta := [StartArray] + rest;
        assert t + rest == trace + delta;
      }
    } else if Peek(s, i) == '{' as int {
      var t := trace + [StartObject];
      BuildsOne(stack, StartObject);
      var open := stack + [ObjectValue([])];
      var q := Skip(env.flags, s, i + 1).pos;
      assert open + Cells([]) == open;
      assert ReadValue(env, s, i, trace) == ObjectBody(env, s, q, t);
      if Peek(s, q) == '}' as int {
        v := ClosingObject(stack, []);
        BuildsThen(stack, [StartObject], open, [EndObject(0)], stack + [v]);
        delta := [StartObject] + [EndObject(0)];
        assert t + [EndObject(0)] == trace + delta;
      } else {
        var rest;
        rest, v := MembersBuild(env, s, q, t, stack, []);
        BuildsThen(stack, [StartObject], open, rest, stack + [v]);
        delta := [StartObject] + rest;
        assert t + rest == trace + delta;
      }
    } else {
      delta, v := LeafBuilds(env, s, i, trace, stack);
    }
  }

  lemma {:induction false} ElementsBuild(env: Env, s: Text, i: nat, trace: seq<Event>, stack: seq<Value>, vs: seq<Value>)
    returns (delta: seq<Event>, v: Value)
    requires |vs| <= i <= |s| < 0x1_0000_0000 && Elements(env, s, i, trace, |vs|).Ok?
    ensures Elements(env, s, i, trace, |vs|).trace == trace + delta
    ensures Builds(stack + [ArrayValue([])] + vs, delta, stack + [v])
    decreases |s| - i, 2
  {
    hide Skip, ReadValue, Builds;
    var before := stack + [ArrayValue([])] + vs;
    var d, e := ValueBuilds(env, s, i, trace, before);
    var o := ReadValue(env, s, i, trace);
    var vs' := vs + [e];
    assert before + [e] == stack + [ArrayValue([])] + vs';
    assert Elements(env, s, i, trace, |vs|) == ElementTail(env, s, o.pos, o.trace, |vs|);
    var q := Skip(env.flags, s, o.pos).pos;
    assert Inc(|vs|) == |vs'|;
    var rest;
    if Peek(s, q) == ',' as int {
      var r := Skip(env.flags, s, q + 1).pos;
      assert Elements(env, s, i, trace, |vs|) == AfterComma(env, s, r, o.trace, |vs'|);
      if env.flags.trailingCommas && Peek(s, r) == ']' as int {
        rest := [EndArray(|vs'|)];
        v := ClosingArray(stack, vs');
      } else {
        rest, v := ElementsBuild(env, s, r, o.trace, stack, vs');
      }
    } else {
      rest := [EndArray(|vs'|)];
      v := ClosingArray(stack, vs');
    }
    BuildsThen(before, d, before + [e], rest, stack + [v]);
    delta := d + rest;
    assert trace + d + rest == trace + delta;
  }

  /** A name, a colon and a value stand at `i`. */
  ghost predicate HasMember(env: Env, s: Text, i: nat, trace: seq<Event>)
    requires i <= |s|
  {
    Peek(s, i) == '"' as int &&
    var k := ReadString(env, s, i, trace, true);
    k.Ok? && Skip(env.flags, s, k.pos).To? &&
    var q := Skip(env.flags, s, k.pos).pos;
    Peek(s, q) == ':' as int && Skip(env.flags, s, q + 1).To? &&
    ReadValue(env, s, Skip(env.flags, s, q + 1).pos, k.trace).Ok?
  }

  lemma MembersHaveMember(env: Env, s: Text, i: nat, trace: seq<Event>, count: nat)
    requires i <= |s| && Members(env, s, i, trace, count).Ok?
    ensures HasMember(env, s, i, trace)
  {
    hide Skip, ReadValue, ReadString, MemberTail;
    var k := ReadString(env, s, i, trace, true);
    var q := Skip(env.flags, s, k.pos).pos;
    assert Members(env, s, i, trace, count) == MemberColon(env, s, q, k.trace, count);
    var r := Skip(env.flags, s, q + 1).pos;
    assert MemberColon(env, s, q, k.trace, count) == ValueOfMember(env, s, r, k.trace, count);
  }

  /** A name and a value. */
  lemma {:induction false} MemberBuilds(env: Env, s: Text, i: nat, trace: seq<Event>, count: nat, stack: seq<Value>)
    returns (p: nat, delta: seq<Event>, m: Member)
    requires i <= |s| < 0x1_0000_0000 && HasMember(env, s, i, trace)
    ensures i < p <= |s| && Members(env, s, i, trace, count) == MemberTail(env, s, p, trace + delta, count)
    ensures Builds(stack, delta, stack + [StringValue(m.name), m.value])
    decreases |s| - i, 2
  {
    hide Skip, ReadValue, Builds, MemberTail;
    var k := ReadString(env, s, i, trace, true);
    var key := k.trace[|trace|];
    assert k.trace == trace + [key];
    BuildsOne(stack, key);
    var q := Skip(env.flags, s, k.pos).pos;
    assert Members(env, s, i, trace, count) == MemberColon(env, s, q, k.trace, count);
    var r := Skip(env.flags, s, q + 1).pos;
    assert MemberColon(env, s, q, k.trace, count) == ValueOfMember(env, s, r, k.trace, count);
    var named := stack + [StringValue(key.str)];
    var d, v := ValueBuilds(env, s, r, k.trace, named);
    m := Member(key.str, v);
    p := ReadValue(env, s, r, k.trace).pos;
    assert named + [v] == stack + [StringValue(m.name), m.value];
    BuildsThen(stack, [key], named, d, named + [v]);
    delta := [key] + d;
    assert k.trace + d == trace + delta;
  }

  lemma {:induction false} MembersBuild(env: Env, s: Text, i: nat, trace: seq<Event>, stack: seq<Value>, ms: seq<Member>)
    returns (delta: seq<Event>, v: Value)
    requires |ms| <= i <= |s| < 0x1_0000_0000 && Members(env, s, i, trace, |ms|).Ok?
    ensures Members(env, s, i, trace, |ms|).trace == trace + delta
    ensures Builds(stack + [ObjectValue([])] + Cells(ms), delta, stack + [v])
    decreases |s| - i, 3
  {
    hide Skip, ReadValue, Builds, ReadString, Members, HasMember;
    var before := stack + [ObjectValue([])] + Cells(ms);
    MembersHaveMember(env, s, i, trace, |ms|);
    var p, d, m := MemberBuilds(env, s, i, trace, |ms|, before);
    var ms' := ms + [m];
    CellsAppend(ms, m);
    var after := stack + [ObjectValue([])] + Cells(ms');
    assert before + [StringValue(m.name), m.value] == after;
    var t := trace + d;
    var q := Skip(env.flags, s, p).pos;
    assert Inc(|ms|) == |ms'|;
    var rest;
    if Peek(s, q) == ',' as int {
      var r := Skip(env.flags, s, q + 1).pos;
      assert MemberTail(env, s, p, t, |ms|) == AfterMemberComma(env, s, r, t, |ms'|);
      if env.flags.trailingCommas && Peek(s, r) == '}' as int {
        rest := [EndObject(|ms'|)];
        v := ClosingObject(stack, ms');
      } else {
        rest, v := MembersBuild(env, s, r, t, stack, ms');
      }
    } else {
      rest := [EndObject(|ms'|)];
      v := ClosingObject(stack, ms');
    }
    BuildsThen(before, d, after, rest, stack + [v]);
    delta := d + rest;
    assert trace + d + rest == trace + delta;
  }

  /** The document's stack ends with exactly one value for every accepted text, whatever the handler kept. */
  lemma AcceptedBuildsOneValue(env: Env, s: Text, i: nat)
    requires i <= |s| < 0x1_0000_0000 && DocumentFrom(env, s, i, []).Ok?
    ensures Build([], DocumentFrom(env, s, i, []).trace).Some?
    ensures |Build([], DocumentFrom(env, s, i, []).trace).value| == 1
  {
    hide Skip, ReadValue;
    var q := Skip(env.flags, s, i).pos;
    var delta, v := ValueBuilds(env, s, q, [], []);
    assert [] + delta == delta;
  }
}
