/** Parsing a text into a document, successful or not: `ParseStream` with either parser. */
module Parsing {
  import opened Bytes
  import opened Events
  import opened Grammar
  import opened Dom
  import opened Building
  import Automaton
  import Numbers
  import Reader
  import StringReading

  // ----- the events of a parse that fails -----

  /** The events behind `trace` can all be handled with `stack` below them: no pop asks for more than is there. */
  ghost predicate Handled(stack: seq<Value>, trace: seq<Event>, t: seq<Event>) {
    trace <= t && Build(stack, t[|trace|..]).Some?
  }

  lemma HandledNone(stack: seq<Value>, trace: seq<Event>)
    ensures Handled(stack, trace, trace)
  {
    assert trace[|trace|..] == [];
  }

  lemma HandledThen(a: seq<Value>, trace: seq<Event>, d: seq<Event>, b: seq<Value>, t: seq<Event>)
    requires Builds(a, d, b) && Handled(b, trace + d, t)
    ensures Handled(a, trace, t)
  {
    assert t[|trace|..] == d + t[|trace + d|..];
    BuildAppend(a, d, t[|trace + d|..]);
  }

  lemma HandledOne(stack: seq<Value>, trace: seq<Event>, e: Event)
    requires Push(stack, e).Some?
    ensures Handled(stack, trace, trace + [e])
  {
    BuildsOne(stack, e);
    HandledNone(Push(stack, e).value, trace + [e]);
    HandledThen(stack, trace, [e], Push(stack, e).value, trace + [e]);
  }

  lemma LeafFails(env: Env, s: Text, i: nat, trace: seq<Event>, stack: seq<Value>)
    requires i <= |s| && ReadLeaf(env, s, i, trace).Fail?
    ensures Handled(stack, trace, ReadLeaf(env, s, i, trace).trace)
  {
    hide Skip, Numbers.ReadNumber, StringReading.DecodeString, Handled;
    var t := ReadLeaf(env, s, i, trace).trace;
    HandledNone(stack, trace);
    if t != trace {
      var e := t[|trace|];
      assert t == trace + [e] && Push(stack, e).Some?;
      HandledOne(stack, trace, e);
    }
  }

  /** Behind an opening bracket. */
  lemma OpenHandled(stack: seq<Value>, trace: seq<Event>, e: Event, t: seq<Event>)
    requires e.StartArray? || e.StartObject?
    requires Handled(stack + [if e.StartArray? then ArrayValue([]) else ObjectValue([])], trace + [e], t)
    ensures Handled(stack, trace, t)
  {
    BuildsOne(stack, e);
    HandledThen(stack, trace, [e], Push(stack, e).value, t);
  }

  lemma CloseArrayHandled(stack: seq<Value>, vs: seq<Value>, trace: seq<Event>)
    ensures Handled(stack + [ArrayValue([])] + vs, trace, trace + [EndArray(|vs|)])
  {
    var v := ClosingArray(stack, vs);
    HandledNone(stack + [v], trace + [EndArray(|vs|)]);
    HandledThen(stack + [ArrayValue([])] + vs, trace, [EndArray(|vs|)], stack + [v], trace + [EndArray(|vs|)]);
  }

  lemma CloseObjectHandled(stack: seq<Value>, ms: seq<Member>, trace: seq<Event>)
    ensures Handled(stack + [ObjectValue([])] + Cells(ms), trace, trace + [EndObject(|ms|)])
  {
    var v := ClosingObject(stack, ms);
    HandledNone(stack + [v], trace + [EndObject(|ms|)]);
    HandledThen(stack + [ObjectValue([])] + Cells(ms), trace, [EndObject(|ms|)], stack + [v], trace + [EndObject(|ms|)]);
  }

  lemma {:induction false} ValueFails(env: Env, s: Text, i: nat, trace: seq<Event>, stack: seq<Value>)
    requires i <= |s| < 0x1_0000_0000 && ReadValue(env, s, i, trace).Fail?
    ensures Handled(stack, trace, ReadValue(env, s, i, trace).trace)
    decreases |s| - i, 1
  {
    hide Skip, ReadLeaf, Handled, Elements, Members;
    if Peek(s, i) == '[' as int {
      assert ReadValue(env, s, i, trace) == ReadArray(env, s, i, trace);
      var t := trace + [StartArray];
      var open := stack + [ArrayValue([])];
      HandledOne(stack, trace, StartArray);
      var skipped := Skip(env.flags, s, i + 1);
      if env.keep(t) && skipped.To? {
        assert open + [] == open;
        assert ReadValue(env, s, i, trace) == ReadArray(env, s, i, trace) == ArrayBody(env, s, skipped.pos, t);
        if Peek(s, skipped.pos) == ']' as int {
          CloseArrayHandled(stack, [], t);
        } else {
          ElementsFail(env, s, skipped.pos, t, stack, []);
        }
        OpenHandled(stack, trace, StartArray, ReadValue(env, s, i, trace).trace);
      }
    } else if Peek(s, i) == '{' as int {
      assert ReadValue(env, s, i, trace) == ReadObject(env, s, i, trace);
      var t := trace + [StartObject];
      var open := stack + [ObjectValue([])];
      HandledOne(stack, trace, StartObject);
      var skipped := Skip(env.flags, s, i + 1);
      if env.keep(t) && skipped.To? {
        assert open + Cells([]) == open;
        assert ReadValue(env, s, i, trace) == ReadObject(env, s, i, trace) == ObjectBody(env, s, skipped.pos, t);
        if Peek(s, skipped.pos) == '}' as int {
          CloseObjectHandled(stack, [], t);
        } else {
          MembersFail(env, s, skipped.pos, t, stack, []);
        }
        OpenHandled(stack, trace, StartObject, ReadValue(env, s, i, trace).trace);
      }
    } else {
      LeafFails(env, s, i, trace, stack);
    }
  }

  lemma {:induction false} ElementsFail(env: Env, s: Text, i: nat, trace: seq<Event>, stack: seq<Value>, vs: seq<Value>)
    requires |vs| <= i <= |s| < 0x1_0000_0000 && Elements(env, s, i, trace, |vs|).Fail?
    ensures Handled(stack + [ArrayValue([])] + vs, trace, Elements(env, s, i, trace, |vs|).trace)
    decreases |s| - i, 2
  {
    hide Skip, ReadValue, Builds, Handled;
    var before := stack + [ArrayValue([])] + vs;
    var o := ReadValue(env, s, i, trace);
    if o.Fail? {
      ValueFails(env, s, i, trace, before);
      return;
    }
    var d, e := ValueBuilds(env, s, i, trace, before);
    var vs' := vs + [e];
    var after := stack + [ArrayValue([])] + vs';
    assert before + [e] == after && Inc(|vs|) == |vs'|;
    assert Elements(env, s, i, trace, |vs|) == ElementTail(env, s, o.pos, o.trace, |vs|);
    HandledNone(after, o.trace);
    CloseArrayHandled(stack, vs', o.trace);
    var tail := Skip(env.flags, s, o.pos);
    if tail.To? {
      assert ElementTail(env, s, o.pos, o.trace, |vs|) == ElementNext(env, s, tail.pos, o.trace, |vs'|);
    }
    if tail.To? && Peek(s, tail.pos) == ',' as int {
      var next := Skip(env.flags, s, tail.pos + 1);
      if next.To? {
        assert ElementNext(env, s, tail.pos, o.trace, |vs'|) == AfterComma(env, s, next.pos, o.trace, |vs'|);
      }
      if next.To? && !(env.flags.trailingCommas && Peek(s, next.pos) == ']' as int) {
        ElementsFail(env, s, next.pos, o.trace, stack, vs');
      }
    }
    HandledThen(before, trace, d, after, Elements(env, s, i, trace, |vs|).trace);
  }

  /** A name, and the value behind it, where one of them fails. */
  lemma {:induction false} MemberFails(env: Env, s: Text, i: nat, trace: seq<Event>, count: nat, stack: seq<Value>)
    requires i <= |s| < 0x1_0000_0000 && Members(env, s, i, trace, count).Fail?
    requires !HasMember(env, s, i, trace)
    ensures Handled(stack, trace, Members(env, s, i, trace, count).trace)
    decreases |s| - i, 2
  {
    hide Skip, ReadValue, Builds, Handled, StringReading.DecodeString;
    HandledNone(stack, trace);
    if Peek(s, i) == '"' as int {
      var k := ReadString(env, s, i, trace, true);
      if k.trace != trace {
        var key := k.trace[|trace|];
        assert k.trace == trace + [key];
        HandledOne(stack, trace, key);
        BuildsOne(stack, key);
        var named := stack + [StringValue(key.str)];
        if k.Ok? && Skip(env.flags, s, k.pos).To? {
          var q := Skip(env.flags, s, k.pos).pos;
          assert Members(env, s, i, trace, count) == MemberColon(env, s, q, k.trace, count);
          if Peek(s, q) == ':' as int && Skip(env.flags, s, q + 1).To? {
            var r := Skip(env.flags, s, q + 1).pos;
            assert MemberColon(env, s, q, k.trace, count) == ValueOfMember(env, s, r, k.trace, count);
            ValueFails(env, s, r, k.trace, named);
            HandledThen(stack, trace, [key], named, ReadValue(env, s, r, k.trace).trace);
          }
        }
      }
    }
  }

  lemma {:induction false} MembersFail(env: Env, s: Text, i: nat, trace: seq<Event>, stack: seq<Value>, ms: seq<Member>)
    requires |ms| <= i <= |s| < 0x1_0000_0000 && Members(env, s, i, trace, |ms|).Fail?
    ensures Handled(stack + [ObjectValue([])] + Cells(ms), trace, Members(env, s, i, trace, |ms|).trace)
    decreases |s| - i, 3
  {
    hide Skip, ReadValue, Builds, Handled, ReadString, HasMember, Members;
    var before := stack + [ObjectValue([])] + Cells(ms);
    if !HasMember(env, s, i, trace) {
      MemberFails(env, s, i, trace, |ms|, before);
      return;
    }
    var p, d, m := MemberBuilds(env, s, i, trace, |ms|, before);
    var ms' := ms + [m];
    CellsAppend(ms, m);
    var after := stack + [ObjectValue([])] + Cells(ms');
    assert before + [StringValue(m.name), m.value] == after && Inc(|ms|) == |ms'|;
    var t := trace + d;
    HandledNone(after, t);
    CloseObjectHandled(stack, ms', t);
    var tail := Skip(env.flags, s, p);
    if tail.To? {
      assert MemberTail(env, s, p, t, |ms|) == MemberNext(env, s, tail.pos, t, |ms'|);
    }
    if tail.To? && Peek(s, tail.pos) == ',' as int {
      var next := Skip(env.flags, s, tail.pos + 1);
      if next.To? {
        assert MemberNext(env, s, tail.pos, t, |ms'|) == AfterMemberComma(env, s, next.pos, t, |ms'|);
      }
      if next.To? && !(env.flags.trailingCommas && Peek(s, next.pos) == '}' as int) {
        MembersFail(env, s, next.pos, t, stack, ms');
      }
    }
    HandledThen(before, trace, d, after, Members(env, s, i, trace, |ms|).trace);
  }

  /** Whatever the text, both parsers raise events that a document can handle: an accepted text leaves one value, and
      a rejected one never makes a container pop more than was pushed. */
  lemma EveryTextHandled(env: Env, s: Text, i: nat)
    requires i <= |s| < 0x1_0000_0000
    ensures forall o :: o == DocumentFrom(env, s, i, []) || o == Automaton.IterativeDocumentFrom(env, s, i, []) ==>
      Build([], o.trace).Some? && (o.Ok? ==> |Build([], o.trace).value| == 1)
  {
    hide DocumentFrom, Automaton.IterativeDocumentFrom, Automaton.StrayStart, Automaton.BracketRefused;
    Automaton.ParsersAgree(env, s, i, []);
    if DocumentFrom(env, s, i, []).Ok? {
      AcceptedBuildsOneValue(env, s, i);
    } else {
      RejectedHandled(env, s, i);
    }
    assert Build([], []) == Some([]);
  }

  lemma RejectedHandled(env: Env, s: Text, i: nat)
    requires i <= |s| < 0x1_0000_0000 && DocumentFrom(env, s, i, []).Fail?
    ensures Build([], DocumentFrom(env, s, i, []).trace).Some?
  {
    hide Skip, ReadValue;
    var skipped := Skip(env.flags, s, i);
    if skipped.To? && Peek(s, skipped.pos) != 0 {
      if ReadValue(env, s, skipped.pos, []).Fail? {
        ValueFails(env, s, skipped.pos, [], []);
        var t := ReadValue(env, s, skipped.pos, []).trace;
        assert t[0..] == t;
      } else {
        var delta, v := ValueBuilds(env, s, skipped.pos, [], []);
        assert [] + delta == delta;
      }
    }
  }

  /** The document's own handlers always answer true. */
  predicate KeepOn(trace: seq<Event>) { true }

  /** `ParseStream` with either parser, from wherever the stream stands: success moves the one value built into the
      document and leaves the stream where the parse ended, failure leaves the document as it was, and the stack is
      empty after both. */
  method ParseStream(document: GenericDocument, flags: Flags, tooBig: Text -> bool, iterative: bool, input: Reader.StringStream)
    returns (error: ErrorCode, offset: nat)
    requires document.stack == [] && input.pos <= |input.text| < 0x1_0000_0000
    modifies document, input
    ensures document.stack == []
    ensures var env, s, i := Env(flags, KeepOn, tooBig), input.text, old(input.pos);
      var o := if iterative then Automaton.IterativeDocumentFrom(env, s, i, []) else DocumentFrom(env, s, i, []);
      if o.Ok? then error == NoError && Some([document.root]) == Build([], o.trace) && input.pos == o.pos <= |s|
      else error == o.code != NoError && offset == o.offset && document.root == old(document.root)
  {
    hide DocumentFrom, Automaton.IterativeDocumentFrom;
    var reader := new Reader.GenericReader(flags, tooBig);
    var handler := new Reader.Handler(KeepOn);
    EveryTextHandled(Env(flags, KeepOn, tooBig), input.text, input.pos);
    if iterative {
      reader.IterativeParse(input, handler);
    } else {
      reader.Parse(input, handler);
    }
    document.Receive(handler.trace);
    error, offset := reader.error, reader.errorOffset;
    if error == NoError {
      document.TakeRoot();
    }
    document.ClearStack();
  }
}
