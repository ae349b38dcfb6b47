/** A whole document parsed over its own source by the table-driven parser: strings are decoded into the very buffer
    the parser still reads. */
module InsituParsing {
  import opened Bytes
  import opened Events
  import opened Grammar
  import opened StringReading
  import opened TextSuffix
  import Automaton
  import InsituStream

  // ----- the strings of a run of events -----

  /** The names and string values among some events, in order. */
  function StringsOf(events: seq<Event>): (r: seq<Text>)
    ensures |r| <= |events|
  {
    if events == [] then []
    else
      var last := events[|events| - 1];
      StringsOf(events[..|events| - 1]) + if last.Key? || last.String? then [last.str] else []
  }

  lemma StringsAppend(events: seq<Event>, e: Event)
    ensures StringsOf(events + [e]) == StringsOf(events) + if e.Key? || e.String? then [e.str] else []
  {
    assert (events + [e])[..|events|] == events;
  }

  /** The strings the handler was given pointers to: each still stands where it was decoded, terminated, and the read
      cursor is past it. */
  ghost predicate Stands(buffer: seq<Byte>, places: seq<nat>, strs: seq<Text>, pos: nat) {
    && |places| == |strs| && pos <= |buffer|
    && forall k :: 0 <= k < |places| ==> places[k] + |strs[k]| + 1 <= pos && At(buffer, places[k], strs[k] + [0])
  }

  /** The buffer still agrees with the source from `pos` on. */
  ghost predicate Unread(buffer: seq<Byte>, s: Text, pos: nat) {
    |buffer| == |s| + 1 && buffer[|s|] == 0 && SameFrom(buffer[..|s|], s, pos)
  }

  lemma StillStands(before: seq<Byte>, after: seq<Byte>, places: seq<nat>, strs: seq<Text>, pos: nat, begin: nat)
    requires Stands(before, places, strs, pos) && pos <= begin <= |before| == |after| && after[..begin] == before[..begin]
    ensures Stands(after, places, strs, begin)
  {
    assert forall m :: 0 <= m < begin ==> after[m] == after[..begin][m] == before[..begin][m] == before[m];
    forall k | 0 <= k < |places| ensures At(after, places[k], strs[k] + [0]) {
      var i, n := places[k], |strs[k]| + 1;
      assert At(before, i, strs[k] + [0]);
      assert after[i..i + n] == before[i..i + n];
    }
  }

  // ----- tokens -----

  /** A string token: a name, or a value that begins with a quotation mark. */
  predicate StringMove(cur: Text, c: Automaton.Config)
    requires c.pos < |cur|
  {
    var dst := Automaton.Predict(c.state, Automaton.Tokenize(Peek(cur, c.pos)));
    dst.MemberKey? || (Peek(cur, c.pos) == '"' as int && (dst.MemberValue? || dst.Element? || dst.SingleValue?))
  }

  /** The event of a decoded string. */
  function StringEvent(cur: Text, c: Automaton.Config, str: Text): (e: Event)
    requires c.pos < |cur|
    ensures e.Key? || e.String?
    ensures e.str == str
  {
    if Automaton.Predict(c.state, Automaton.Tokenize(Peek(cur, c.pos))).MemberKey? then Key(str) else String(str)
  }

  /** What the machine does with a decoded string. */
  function AfterString(env: Env, cur: Text, c: Automaton.Config, r: StringResult): (m: Automaton.Move)
    requires c.pos < |cur|
  {
    match r
    case Rejected(code, offset) => Automaton.Halt(code, offset, c.trace)
    case Decoded(next, str) =>
      var trace := c.trace + [StringEvent(cur, c, str)];
      if !env.keep(trace) then Automaton.Halt(Termination, next, trace)
      else
        var dst := Automaton.Predict(c.state, Automaton.Tokenize(Peek(cur, c.pos)));
        Automaton.Go(Automaton.Config(if dst.SingleValue? then Automaton.Finish else dst, c.frames, next, trace))
  }

  lemma StringRead(env: Env, s: Text, i: nat, trace: seq<Event>, isKey: bool)
    requires i < |s|
    ensures ReadString(env, s, i, trace, isKey) ==
      match DecodeString(env.flags, s, i + 1, [])
      case Rejected(code, offset) => Fail(code, offset, trace)
      case Decoded(next, str) =>
        var t := trace + [if isKey then Key(str) else String(str)];
        if env.keep(t) then Ok(next, t) else Fail(Termination, next, t)
  {
    hide DecodeString;
  }

  lemma StringMoves(env: Env, cur: Text, c: Automaton.Config)
    requires c.pos < |cur| && Automaton.WellStacked(c.state, c.frames) && StringMove(cur, c)
    ensures Automaton.Step(env, cur, c) == AfterString(env, cur, c, DecodeString(env.flags, cur, c.pos + 1, []))
  {
    hide DecodeString, Automaton.WellStacked, ReadValue, ReadString, Automaton.Transit, Automaton.Predict, Automaton.Tokenize;
    var dst := Automaton.Predict(c.state, Automaton.Tokenize(Peek(cur, c.pos)));
    Automaton.ReadingMove(env, cur, c, dst);
    StringRead(env, cur, c.pos, c.trace, dst.MemberKey?);
    if !dst.MemberKey? {
      QuotedValue(env, cur, c.pos, c.trace);
    }
  }

  lemma QuotedValue(env: Env, s: Text, i: nat, trace: seq<Event>)
    requires i < |s| && Peek(s, i) == '"' as int
    ensures ReadValue(env, s, i, trace) == ReadString(env, s, i, trace, false)
  {
    hide ReadString;
  }

  /** Other tokens raise no string. */
  lemma OtherMoves(env: Env, cur: Text, c: Automaton.Config)
    requires c.pos < |cur| && Automaton.WellStacked(c.state, c.frames) && !StringMove(cur, c)
    ensures match Automaton.Step(env, cur, c)
      case Go(next) => StringsOf(next.trace) == StringsOf(c.trace)
      case Halt(_, _, trace) => StringsOf(trace) == StringsOf(c.trace)
  {
    hide ReadString, Automaton.WellStacked, ReadArray, ReadObject, StringsOf, ReadLeaf;
    if Peek(cur, c.pos) != '"' as int {
      LeafRaises(env, cur, c.pos, c.trace);
    }
    forall e: Event | !e.Key? && !e.String? ensures StringsOf(c.trace + [e]) == StringsOf(c.trace) {
      StringsAppend(c.trace, e);
      assert StringsOf(c.trace) + [] == StringsOf(c.trace);
    }
  }

  lemma LeafRaises(env: Env, s: Text, i: nat, trace: seq<Event>)
    requires i <= |s| && Peek(s, i) != '"' as int
    ensures var t := ReadLeaf(env, s, i, trace).trace;
      t == trace || exists e: Event :: t == trace + [e] && !e.Key? && !e.String?
  {
    hide ReadString, Matched;
  }

  // ----- the loop -----

  /** Behind the reader the decoded string and its terminator, in front of it the source. */
  lemma DecodedStands(before: seq<Byte>, after: seq<Byte>, s: Text, places: seq<nat>, strs: seq<Text>, pos: nat,
                      str: Text, next: nat)
    requires |before| == |after| && Unread(before, s, pos) && Stands(before, places, strs, pos)
    requires pos + 1 + |str| + 1 <= next <= |s|
    requires forall k :: 0 <= k <= pos ==> after[k] == before[k]
    requires forall k :: pos + 1 <= k < pos + 1 + |str| ==> after[k] == str[k - pos - 1]
    requires after[pos + 1 + |str|] == 0
    requires forall k :: next <= k < |after| ==> after[k] == before[k]
    ensures Unread(after, s, next) && Stands(after, places + [pos + 1], strs + [str], next)
  {
    var begin := pos + 1;
    assert after[..begin] == before[..begin];
    StillStands(before, after, places, strs, pos, begin);
    assert after[begin..begin + |str| + 1] == str + [0];
    assert forall k :: next <= k < |s| ==> after[..|s|][k] == before[..|s|][k] == s[k];
    var all, texts := places + [begin], strs + [str];
    forall k | 0 <= k < |all| ensures all[k] + |texts[k]| + 1 <= next && At(after, all[k], texts[k] + [0]) {
    }
  }

  /** What the string decoder leaves: nothing in front of the literal has changed, */
  lemma DecoderLeaves(stream: InsituStream.InsituStringStream, before: seq<Byte>, s: Text, places: seq<nat>, strs: seq<Text>,
                      pos: nat, out: Text)
    requires pos < |s| && Unread(before, s, pos) && Stands(before, places, strs, pos)
    requires stream.Rewriting(before[..|s|], pos + 1, out)
    ensures Stands(stream.head[..], places, strs, pos + 1)
  {
    hide Unread, Stands;
    LastIsNul(before, s, pos);
    assert stream.head[..pos + 1] == before[..pos + 1];
    StillStands(before, stream.head[..], places, strs, pos, pos + 1);
  }

  /** and a literal that was decoded stands in its place. */
  lemma DecoderDone(stream: InsituStream.InsituStringStream, before: seq<Byte>, s: Text, places: seq<nat>, strs: seq<Text>,
                    pos: nat, str: Text, next: nat)
    requires pos < |s| && Unread(before, s, pos) && Stands(before, places, strs, pos)
    requires stream.Rewriting(before[..|s|], pos + 1, str + [0]) && stream.dst <= next <= |s|
    ensures Unread(stream.head[..], s, next) && Stands(stream.head[..], places + [pos + 1], strs + [str], next)
  {
    hide Unread, Stands;
    LastIsNul(before, s, pos);
    DecodedStands(before, stream.head[..], s, places, strs, pos, str, next);
  }

  lemma LastIsNul(buffer: seq<Byte>, s: Text, pos: nat)
    requires Unread(buffer, s, pos)
    ensures |buffer| == |s| + 1 && buffer[|s|] == 0
  {
  }

  /** One string token, decoded over the source. */
  method TakeString(stream: InsituStream.InsituStringStream, env: Env, ghost s: Text, c: Automaton.Config, places: seq<nat>)
    returns (move: Automaton.Move, places': seq<nat>)
    requires Unread(stream.head[..], s, c.pos) && Stands(stream.head[..], places, StringsOf(c.trace), c.pos)
    requires c.pos < |s| && Automaton.WellStacked(c.state, c.frames) && StringMove(stream.head[..|s|], c)
    modifies stream, stream.head
    ensures move == Automaton.Step(env, s, c)
    ensures match move
      case Go(next) => Unread(stream.head[..], s, next.pos) && Stands(stream.head[..], places', StringsOf(next.trace), next.pos)
      case Halt(_, _, trace) => Stands(stream.head[..], places', StringsOf(trace), |s|)
  {
    hide DecodeString, Automaton.Step, StringsOf, Automaton.WellStacked, Unread, Stands, StringMove;
    ghost var before := stream.head[..];
    UnreadIs(before, s, c.pos, c.pos);
    LastIsNul(before, s, c.pos);
    var cur := stream.head[..stream.head.Length - 1];
    stream.src := c.pos + 1;
    assert before == cur + [0];
    StringMoves(env, cur, c);
    SameMove(env, cur, s, c);
    var r := stream.ParseStringToStream(env.flags, cur);
    move := AfterString(env, cur, c, r);
    if r.Decoded? {
      places' := places + [c.pos + 1];
      StringsAppend(c.trace, StringEvent(cur, c, r.str));
      DecoderDone(stream, before, s, places, StringsOf(c.trace), c.pos, r.str, r.next);
      StandsLater(stream.head[..], places', StringsOf(c.trace) + [r.str], r.next, |s|);
    } else {
      places' := places;
      ghost var out :| stream.Rewriting(cur, c.pos + 1, out);
      DecoderLeaves(stream, before, s, places, StringsOf(c.trace), c.pos, out);
      StandsLater(stream.head[..], places', StringsOf(c.trace), c.pos + 1, |s|);
    }
  }

  lemma StandsLater(buffer: seq<Byte>, places: seq<nat>, strs: seq<Text>, pos: nat, next: nat)
    requires pos <= next <= |buffer| && Stands(buffer, places, strs, pos)
    ensures Stands(buffer, places, strs, next)
  {
  }

  lemma UnreadIs(buffer: seq<Byte>, s: Text, pos: nat, next: nat)
    requires Unread(buffer, s, pos) && pos <= next
    ensures |buffer| == |s| + 1 && SameFrom(buffer[..|s|], s, next) && Unread(buffer, s, next)
  {
  }

  lemma AtStart(buffer: seq<Byte>, s: Text, pos: nat)
    requires buffer == s + [0] && pos <= |s|
    ensures buffer[..|s|] == s && Unread(buffer, s, pos) && Stands(buffer, [], StringsOf([]), pos)
    ensures Automaton.WellStacked(Automaton.Start, [])
  {
  }

  lemma StackedIsListed(c: Automaton.Config)
    requires Automaton.WellStacked(c.state, c.frames)
    ensures Automaton.Listed(c.state)
  {
  }

  /** One token that is no string: the buffer is only read. */
  lemma OtherToken(env: Env, buffer: seq<Byte>, s: Text, c: Automaton.Config, places: seq<nat>)
    requires c.pos < |s| && Unread(buffer, s, c.pos) && Stands(buffer, places, StringsOf(c.trace), c.pos)
    requires Automaton.WellStacked(c.state, c.frames) && !StringMove(buffer[..|s|], c)
    ensures Automaton.Step(env, buffer[..|s|], c) == Automaton.Step(env, s, c)
    ensures match Automaton.Step(env, s, c)
      case Go(next) => Unread(buffer, s, next.pos) && Stands(buffer, places, StringsOf(next.trace), next.pos)
      case Halt(_, _, trace) => Stands(buffer, places, StringsOf(trace), |s|)
  {
    hide Automaton.Step, StringsOf, Automaton.WellStacked, StringMove;
    SameMove(env, buffer[..|s|], s, c);
    OtherMoves(env, buffer[..|s|], c);
  }

  /** `Transit` on the present contents of the buffer. */
  method TakeToken(stream: InsituStream.InsituStringStream, env: Env, ghost s: Text, c: Automaton.Config, places: seq<nat>)
    returns (move: Automaton.Move, places': seq<nat>)
    requires Unread(stream.head[..], s, c.pos) && Stands(stream.head[..], places, StringsOf(c.trace), c.pos)
    requires c.pos < |s| && Automaton.WellStacked(c.state, c.frames)
    modifies stream, stream.head
    ensures move == Automaton.Step(env, s, c)
    ensures match move
      case Go(next) => Unread(stream.head[..], s, next.pos) && Stands(stream.head[..], places', StringsOf(next.trace), next.pos)
      case Halt(_, _, trace) => Stands(stream.head[..], places', StringsOf(trace), |s|)
  {
    hide Automaton.Step, StringsOf, Automaton.WellStacked, StringMove, Stands;
    UnreadIs(stream.head[..], s, c.pos, c.pos);
    var cur := stream.head[..stream.head.Length - 1];
    if StringMove(cur, c) {
      move, places' := TakeString(stream, env, s, c, places);
    } else {
      OtherToken(env, stream.head[..], s, c, places);
      move, places' := Automaton.Step(env, cur, c), places;
    }
  }

  /** `IterativeParse` with the in-situ flag. The result is that of the ordinary parse of the source; and where the
      parse ends, however it ends, every string the handler was given still stands in the buffer at its place, with its
      terminator. */
  method IterativeParseInsitu(stream: InsituStream.InsituStringStream, env: Env, ghost s: Text)
    returns (o: Outcome, places: seq<nat>)
    requires stream.head[..] == s + [0] && stream.src <= |s|
    modifies stream, stream.head
    ensures o == Automaton.IterativeDocumentFrom(env, s, old(stream.src), [])
    ensures Stands(stream.head[..], places, StringsOf(o.trace), |s|)
  {
    hide Skip, Automaton.Step, StringsOf, Automaton.WellStacked, Stands, Unread;
    places := [];
    AtStart(stream.head[..], s, stream.src);
    var skipped := Skip(env.flags, stream.head[..stream.head.Length - 1], stream.src);
    if skipped.Broken? {
      StandsLater(stream.head[..], places, StringsOf([]), stream.src, |s|);
      return SkipFail(skipped.offset, []), places;
    }
    UnreadIs(stream.head[..], s, stream.src, skipped.pos);
    StandsLater(stream.head[..], places, StringsOf([]), stream.src, skipped.pos);
    var c := Automaton.Config(Automaton.Start, [], skipped.pos, []);
    while Peek(stream.head[..stream.head.Length - 1], c.pos) != 0
      invariant c.pos <= |s| && stream.head.Length == |s| + 1 && Automaton.WellStacked(c.state, c.frames)
      invariant SameFrom(stream.head[..|s|], s, c.pos)
      invariant Unread(stream.head[..], s, c.pos) && Stands(stream.head[..], places, StringsOf(c.trace), c.pos)
      invariant Automaton.Run(env, s, c) == Automaton.IterativeDocumentFrom(env, s, old(stream.src), [])
      decreases |s| - c.pos
    {
      var move;
      move, places := TakeToken(stream, env, s, c, places);
      StackedIsListed(c);
      if move.Halt? {
        o := if move.code == NoError then Fail(Automaton.ErrorIn(c.state), c.pos, move.trace)
             else Fail(move.code, move.offset, move.trace);
        return;
      }
      var next := move.next;
      Automaton.StepKeepsStack(env, s, c);
      StandsLater(stream.head[..], places, StringsOf(next.trace), next.pos, |s|);
      if env.flags.stopWhenDone && next.state.Finish? {
        return Ok(next.pos, next.trace), places;
      }
      UnreadIs(stream.head[..], s, next.pos, next.pos);
      var cur := stream.head[..stream.head.Length - 1];
      SameSkip(env.flags, cur, s, next.pos);
      skipped := Skip(env.flags, cur, next.pos);
      if skipped.Broken? {
        return SkipFail(skipped.offset, next.trace), places;
      }
      UnreadIs(stream.head[..], s, next.pos, skipped.pos);
      StandsLater(stream.head[..], places, StringsOf(next.trace), next.pos, skipped.pos);
      c := next.(pos := skipped.pos);
    }
    StandsLater(stream.head[..], places, StringsOf(c.trace), c.pos, |s|);
    StackedIsListed(c);
    o := if c.state.Finish? then Ok(c.pos, c.trace) else Fail(Automaton.ErrorIn(c.state), c.pos, c.trace);
  }
}
