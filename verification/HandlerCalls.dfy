/** How the reader treats its handler, and what its errors tell: it goes on as long as no call is refused, after a refusal
    it stops with that error and calls no more, and every other error code describes the byte at its offset. */
module HandlerCalls {
  import opened Bytes
  import opened Events
  import opened Grammar
  import opened JsonGaps
  import opened StringReading
  import Automaton
  import Numbers

  /** What stands at the offset of an error. */
  predicate Tells(s: Text, code: ErrorCode, offset: nat) {
    var c := Peek(s, offset);
    match code
    case NoError => false
    case DocumentEmpty => c == 0
    case DocumentRootNotSingular => c != 0 && !BlankByte(c)
    case ObjectMissName => c != 0x22
    case ObjectMissColon => c != 0x3A
    case ObjectMissCommaOrCurlyBracket => c != 0x2C && c != 0x7D
    case ArrayMissCommaOrSquareBracket => c != 0x2C && c != 0x5D
    case StringUnicodeEscapeInvalidHex => c == 0x5C && Peek(s, offset + 1) == 0x75
    case StringUnicodeSurrogateInvalid => c == 0x5C && Peek(s, offset + 1) == 0x75
    case StringEscapeInvalid => c == 0x5C && Peek(s, offset + 1) !in {0x22, 0x5C, 0x2F, 0x62, 0x66, 0x6E, 0x72, 0x74, 0x75}
    case StringMissQuotationMark => c == 0
    case NumberTooBig => c == 0x2D || 0x30 <= c <= 0x39
    case NumberMissFraction => !(0x30 <= c <= 0x39) && offset > 0 && Peek(s, offset - 1) == 0x2E
    case NumberMissExponent => !(0x30 <= c <= 0x39) && offset > 0 && Peek(s, offset - 1) in {0x65, 0x45, 0x2B, 0x2D}
    case UnspecificSyntaxError => c != 0x2F && c != 0x2A && offset > 0
    case _ => true
  }

  /** Behind the calls made before, every call but the last was accepted, and the last too where the parse went well; it
      fails with a termination exactly when the last was refused. */
  ghost predicate Asked(env: Env, s: Text, before: seq<Event>, r: Outcome) {
    && before <= r.trace
    && (forall k :: |before| < k < |r.trace| ==> env.keep(r.trace[..k]))
    && (r.Ok? && before != r.trace ==> env.keep(r.trace))
    && (r.Fail? ==> (r.code == Termination <==> before != r.trace && !env.keep(r.trace)) && Tells(s, r.code, r.offset))
  }

  lemma AskedThen(env: Env, s: Text, before: seq<Event>, p: nat, mid: seq<Event>, r: Outcome)
    requires Asked(env, s, before, Ok(p, mid)) && Asked(env, s, mid, r)
    ensures Asked(env, s, before, r)
  {
    forall k | |before| < k < |r.trace| ensures env.keep(r.trace[..k]) {
      assert r.trace[..|mid|] == mid;
      if k < |mid| {
        assert r.trace[..k] == mid[..k];
      }
    }
  }

  lemma NothingAsked(env: Env, s: Text, trace: seq<Event>, r: Outcome)
    requires r.trace == trace && (r.Fail? ==> r.code != Termination && Tells(s, r.code, r.offset))
    ensures Asked(env, s, trace, r)
  {
  }

  lemma RaiseAsks(env: Env, s: Text, trace: seq<Event>, e: Event, pos: nat, offset: nat)
    ensures Asked(env, s, trace, Raise(env, trace, e, pos, offset))
  {
    assert (trace + [e])[..|trace|] == trace;
  }

  // ----- values without structure -----

  lemma {:induction false} DecodingTells(f: Flags, s: Text, i: nat, out: Text)
    requires i <= |s| && DecodeString(f, s, i, out).Rejected?
    ensures var r := DecodeString(f, s, i, out); r.code != Termination && Tells(s, r.code, r.offset)
    decreases |s| - i
  {
    hide StepAt;
    StepTells(f, s, i);
    if StepAt(f, s, i).Emit? {
      DecodingTells(f, s, StepAt(f, s, i).next, out + StepAt(f, s, i).bytes);
    }
  }

  lemma StepTells(f: Flags, s: Text, i: nat)
    requires i <= |s|
    ensures StepAt(f, s, i).Reject? ==> StepAt(f, s, i).code != Termination && Tells(s, StepAt(f, s, i).code, StepAt(f, s, i).offset)
  {
  }

  lemma LeafAsks(env: Env, s: Text, i: nat, trace: seq<Event>)
    requires i <= |s|
    ensures Asked(env, s, trace, ReadLeaf(env, s, i, trace))
  {
    hide Asked, Raise, ReadString, ReadNumber, ReadWord;
    var c := Peek(s, i);
    if c == 'n' as int {
      WordAsks(env, s, i, trace, ULL, Null);
    } else if c == 't' as int {
      WordAsks(env, s, i, trace, RUE, Bool(true));
    } else if c == 'f' as int {
      WordAsks(env, s, i, trace, ALSE, Bool(false));
    } else if c == '"' as int {
      StringAsks(env, s, i, trace, false);
    } else {
      NumberAsks(env, s, i, trace);
    }
  }

  lemma WordAsks(env: Env, s: Text, i: nat, trace: seq<Event>, rest: Text, e: Event)
    requires i < |s| && 0 !in rest
    ensures Asked(env, s, trace, ReadWord(env, s, i, trace, rest, e))
  {
    hide Asked, Raise, Matched;
    var n := Matched(s, i + 1, rest);
    RaiseAsks(env, s, trace, e, i + 1 + n, i + 1 + n);
    NothingAsked(env, s, trace, Fail(ValueInvalid, i + 1 + n, trace));
  }

  lemma StringAsks(env: Env, s: Text, i: nat, trace: seq<Event>, isKey: bool)
    requires i < |s|
    ensures Asked(env, s, trace, ReadString(env, s, i, trace, isKey))
  {
    hide Asked, Raise, DecodeString;
    match DecodeString(env.flags, s, i + 1, [])
    case Decoded(next, str) => RaiseAsks(env, s, trace, if isKey then Key(str) else String(str), next, next);
    case Rejected(code, offset) =>
      DecodingTells(env.flags, s, i + 1, []);
      NothingAsked(env, s, trace, Fail(code, offset, trace));
  }

  lemma FinishTells(s: Text, i: nat, p: nat, integer: Option<Event>, shift: nat, tooBig: Text -> bool)
    requires i < p <= |s| && (integer.Some? ==> IsNumberEvent(integer.value)) && (Peek(s, i) == 0x2D || 0x30 <= Peek(s, i) <= 0x39)
    ensures var r := Numbers.Finish(s, i, p, integer, shift, tooBig);
      r.NumberBad? ==> r.code != Termination && Tells(s, r.code, r.offset)
  {
    hide Numbers.ReadExponent;
  }

  lemma NumberTells(s: Text, i: nat, tooBig: Text -> bool)
    ensures var r := Numbers.ReadNumber(s, i, tooBig); r.NumberBad? ==> r.code != Termination && Tells(s, r.code, r.offset)
  {
    hide Numbers.Finish, Numbers.FractionShift, Numbers.Value, Numbers.IntegerEvent, Numbers.IntegerEnd, Numbers.DigitsEnd;
    var k := if Peek(s, i) == '-' as int then i + 1 else i;
    if Numbers.IsDigit(Peek(s, k)) {
      var p := Numbers.IntegerEnd(s, k);
      var v := Numbers.Value(s, k, p);
      var event := Numbers.IntegerEvent(k > i, v);
      if Peek(s, p) != '.' as int {
        FinishTells(s, i, p, event, 0, tooBig);
      } else if Numbers.IsDigit(Peek(s, p + 1)) {
        var shift := if event.None? then 0 else Numbers.FractionShift(s, p + 1, v, p - k - 1);
        FinishTells(s, i, Numbers.DigitsEnd(s, p + 1), None, shift, tooBig);
      }
    }
  }

  lemma NumberAsks(env: Env, s: Text, i: nat, trace: seq<Event>)
    requires i <= |s|
    ensures Asked(env, s, trace, ReadNumber(env, s, i, trace))
  {
    hide Asked, Raise, Numbers.ReadNumber;
    NumberTells(s, i, env.tooBig);
    match Numbers.ReadNumber(s, i, env.tooBig)
    case NumberRead(next, event) => RaiseAsks(env, s, trace, event, next, i);
    case NumberBad(code, offset) => NothingAsked(env, s, trace, Fail(code, offset, trace));
  }

  // ----- arrays and objects -----

  lemma {:induction false} ValueAsks(env: Env, s: Text, i: nat, trace: seq<Event>)
    requires i <= |s|
    ensures Asked(env, s, trace, ReadValue(env, s, i, trace))
    decreases |s| - i, 1
  {
    hide Asked, ReadLeaf, ReadArray, ReadObject;
    if Peek(s, i) == '{' as int {
      ObjectAsks(env, s, i, trace);
    } else if Peek(s, i) == '[' as int {
      ArrayAsks(env, s, i, trace);
    } else {
      LeafAsks(env, s, i, trace);
    }
  }

  lemma SkipFailAsks(env: Env, s: Text, i: nat, trace: seq<Event>)
    requires i <= |s| && Skip(env.flags, s, i).Broken?
    ensures Asked(env, s, trace, SkipFail(Skip(env.flags, s, i).offset, trace))
  {
    hide Skip;
    BrokenTells(env.flags, s, i);
  }

  lemma {:induction false} BlockTells(s: Text, i: nat)
    requires 0 < i <= |s| && BlockEnd(s, i).Broken?
    ensures BlockEnd(s, i).offset > 0 && Peek(s, BlockEnd(s, i).offset) == 0
    decreases |s| - i
  {
    if Peek(s, i) != 0 {
      BlockTells(s, i + 1);
    }
  }

  lemma {:induction false} BrokenTells(f: Flags, s: Text, i: nat)
    requires i <= |s| && Skip(f, s, i).Broken?
    ensures Tells(s, UnspecificSyntaxError, Skip(f, s, i).offset)
    decreases |s| - i
  {
    hide BlockEnd;
    var j := SkipSpaces(s, i);
    if CommentEnd(s, j).To? {
      BrokenTells(f, s, CommentEnd(s, j).pos);
    } else if Peek(s, j + 1) == '*' as int {
      BlockTells(s, j + 2);
    }
  }

  lemma {:induction false} ArrayAsks(env: Env, s: Text, i: nat, trace: seq<Event>)
    requires i < |s|
    ensures Asked(env, s, trace, ReadArray(env, s, i, trace))
    decreases |s| - i, 0
  {
    hide Asked, Skip, ArrayBody, SkipFail;
    RaiseAsks(env, s, trace, StartArray, i + 1, i + 1);
    var t := trace + [StartArray];
    if env.keep(t) {
      match Skip(env.flags, s, i + 1)
      case Broken(offset) =>
        SkipFailAsks(env, s, i + 1, t);
        AskedThen(env, s, trace, i + 1, t, SkipFail(offset, t));
      case To(q) =>
        ArrayBodyAsks(env, s, q, t);
        AskedThen(env, s, trace, i + 1, t, ArrayBody(env, s, q, t));
    }
  }

  lemma {:induction false} ArrayBodyAsks(env: Env, s: Text, i: nat, trace: seq<Event>)
    requires i <= |s|
    ensures Asked(env, s, trace, ArrayBody(env, s, i, trace))
    decreases |s| - i, 3
  {
    hide Asked, Raise, Elements;
    RaiseAsks(env, s, trace, EndArray(0), i + 1, i + 1);
    if Peek(s, i) != ']' as int {
      ElementsAsk(env, s, i, trace, 0);
    }
  }

  lemma {:induction false} ElementsAsk(env: Env, s: Text, i: nat, trace: seq<Event>, count: nat)
    requires i <= |s|
    ensures Asked(env, s, trace, Elements(env, s, i, trace, count))
    decreases |s| - i, 2
  {
    hide Asked, ReadValue, ElementTail;
    ValueAsks(env, s, i, trace);
    var o := ReadValue(env, s, i, trace);
    if o.Ok? {
      ElementTailAsks(env, s, o.pos, o.trace, count);
      AskedThen(env, s, trace, o.pos, o.trace, ElementTail(env, s, o.pos, o.trace, count));
    }
  }

  lemma {:induction false} ElementTailAsks(env: Env, s: Text, i: nat, trace: seq<Event>, count: nat)
    requires i <= |s|
    ensures Asked(env, s, trace, ElementTail(env, s, i, trace, count))
    decreases |s| - i, 1
  {
    hide Asked, Skip, ElementNext, SkipFail;
    match Skip(env.flags, s, i)
    case Broken(offset) => SkipFailAsks(env, s, i, trace);
    case To(q) => ElementNextAsks(env, s, q, trace, Inc(count));
  }

  lemma {:induction false} ElementNextAsks(env: Env, s: Text, i: nat, trace: seq<Event>, count: nat)
    requires i <= |s|
    ensures Asked(env, s, trace, ElementNext(env, s, i, trace, count))
    decreases |s| - i, 0
  {
    hide Asked, Skip, AfterComma, SkipFail, Raise;
    RaiseAsks(env, s, trace, EndArray(count), i + 1, i + 1);
    if Peek(s, i) == ',' as int {
      match Skip(env.flags, s, i + 1)
      case Broken(offset) => SkipFailAsks(env, s, i + 1, trace);
      case To(q) => AfterCommaAsks(env, s, q, trace, count);
    } else if Peek(s, i) != ']' as int {
      NothingAsked(env, s, trace, Fail(ArrayMissCommaOrSquareBracket, i, trace));
    }
  }

  lemma {:induction false} AfterCommaAsks(env: Env, s: Text, i: nat, trace: seq<Event>, count: nat)
    requires i <= |s|
    ensures Asked(env, s, trace, AfterComma(env, s, i, trace, count))
    decreases |s| - i, 3
  {
    hide Asked, Raise, Elements;
    RaiseAsks(env, s, trace, EndArray(count), i + 1, i);
    ElementsAsk(env, s, i, trace, count);
  }

  lemma {:induction false} ObjectAsks(env: Env, s: Text, i: nat, trace: seq<Event>)
    requires i < |s|
    ensures Asked(env, s, trace, ReadObject(env, s, i, trace))
    decreases |s| - i, 0
  {
    hide Asked, Skip, ObjectBody, SkipFail;
    RaiseAsks(env, s, trace, StartObject, i + 1, i + 1);
    var t := trace + [StartObject];
    if env.keep(t) {
      match Skip(env.flags, s, i + 1)
      case Broken(offset) =>
        SkipFailAsks(env, s, i + 1, t);
        AskedThen(env, s, trace, i + 1, t, SkipFail(offset, t));
      case To(q) =>
        ObjectBodyAsks(env, s, q, t);
        AskedThen(env, s, trace, i + 1, t, ObjectBody(env, s, q, t));
    }
  }

  lemma {:induction false} ObjectBodyAsks(env: Env, s: Text, i: nat, trace: seq<Event>)
    requires i <= |s|
    ensures Asked(env, s, trace, ObjectBody(env, s, i, trace))
    decreases |s| - i, 3
  {
    hide Asked, Raise, Members;
    RaiseAsks(env, s, trace, EndObject(0), i + 1, i + 1);
    if Peek(s, i) != '}' as int {
      MembersAsk(env, s, i, trace, 0);
    }
  }

  lemma {:induction false} MembersAsk(env: Env, s: Text, i: nat, trace: seq<Event>, count: nat)
    requires i <= |s|
    ensures Asked(env, s, trace, Members(env, s, i, trace, count))
    decreases |s| - i, 2
  {
    hide Asked, ReadString, Skip, MemberColon, SkipFail;
    if Peek(s, i) == '"' as int {
      StringAsks(env, s, i, trace, true);
      var o := ReadString(env, s, i, trace, true);
      if o.Ok? {
        match Skip(env.flags, s, o.pos)
        case Broken(offset) =>
          SkipFailAsks(env, s, o.pos, o.trace);
          AskedThen(env, s, trace, o.pos, o.trace, SkipFail(offset, o.trace));
        case To(q) =>
          ColonAsks(env, s, q, o.trace, count);
          AskedThen(env, s, trace, o.pos, o.trace, MemberColon(env, s, q, o.trace, count));
      }
    } else {
      NothingAsked(env, s, trace, Fail(ObjectMissName, i, trace));
    }
  }

  lemma {:induction false} ColonAsks(env: Env, s: Text, i: nat, trace: seq<Event>, count: nat)
    requires i <= |s|
    ensures Asked(env, s, trace, MemberColon(env, s, i, trace, count))
    decreases |s| - i, 2
  {
    hide Asked, Skip, ValueOfMember, SkipFail;
    if Peek(s, i) == ':' as int {
      match Skip(env.flags, s, i + 1)
      case Broken(offset) => SkipFailAsks(env, s, i + 1, trace);
      case To(q) => ValueOfMemberAsks(env, s, q, trace, count);
    } else {
      NothingAsked(env, s, trace, Fail(ObjectMissColon, i, trace));
    }
  }

  lemma {:induction false} ValueOfMemberAsks(env: Env, s: Text, i: nat, trace: seq<Event>, count: nat)
    requires i <= |s|
    ensures Asked(env, s, trace, ValueOfMember(env, s, i, trace, count))
    decreases |s| - i, 2
  {
    hide Asked, ReadValue, MemberTail;
    ValueAsks(env, s, i, trace);
    var o := ReadValue(env, s, i, trace);
    if o.Ok? {
      MemberTailAsks(env, s, o.pos, o.trace, count);
      AskedThen(env, s, trace, o.pos, o.trace, MemberTail(env, s, o.pos, o.trace, count));
    }
  }

  lemma {:induction false} MemberTailAsks(env: Env, s: Text, i: nat, trace: seq<Event>, count: nat)
    requires i <= |s|
    ensures Asked(env, s, trace, MemberTail(env, s, i, trace, count))
    decreases |s| - i, 1
  {
    hide Asked, Skip, MemberNext, SkipFail;
    match Skip(env.flags, s, i)
    case Broken(offset) => SkipFailAsks(env, s, i, trace);
    case To(q) => MemberNextAsks(env, s, q, trace, Inc(count));
  }

  lemma {:induction false} MemberNextAsks(env: Env, s: Text, i: nat, trace: seq<Event>, count: nat)
    requires i <= |s|
    ensures Asked(env, s, trace, MemberNext(env, s, i, trace, count))
    decreases |s| - i, 0
  {
    hide Asked, Skip, AfterMemberComma, SkipFail, Raise;
    RaiseAsks(env, s, trace, EndObject(count), i + 1, i + 1);
    if Peek(s, i) == ',' as int {
      match Skip(env.flags, s, i + 1)
      case Broken(offset) => SkipFailAsks(env, s, i + 1, trace);
      case To(q) => AfterMemberCommaAsks(env, s, q, trace, count);
    } else if Peek(s, i) != '}' as int {
      NothingAsked(env, s, trace, Fail(ObjectMissCommaOrCurlyBracket, i, trace));
    }
  }

  lemma {:induction false} AfterMemberCommaAsks(env: Env, s: Text, i: nat, trace: seq<Event>, count: nat)
    requires i <= |s|
    ensures Asked(env, s, trace, AfterMemberComma(env, s, i, trace, count))
    decreases |s| - i, 3
  {
    hide Asked, Raise, Members;
    RaiseAsks(env, s, trace, EndObject(count), i + 1, i);
    MembersAsk(env, s, i, trace, count);
  }

  // ----- whole texts -----

  lemma RootTailAsks(env: Env, s: Text, i: nat, trace: seq<Event>)
    requires i <= |s|
    ensures Asked(env, s, trace, RootTail(env, s, i, trace))
  {
    hide Skip;
    if Skip(env.flags, s, i).Broken? {
      BrokenTells(env.flags, s, i);
    }
    NothingAsked(env, s, trace, RootTail(env, s, i, trace));
  }

  /** Both parsers, for every text, handler and flag setting, but for the other code of the iterative one where the text
      begins with a stray bracket, comma or colon. */
  lemma ParsersAsk(env: Env, s: Text, i: nat, trace: seq<Event>)
    requires i <= |s|
    ensures Asked(env, s, trace, DocumentFrom(env, s, i, trace))
    ensures Asked(env, s, trace, Automaton.IterativeDocumentFrom(env, s, i, trace)) || Automaton.StrayStart(env, s, i)
  {
    hide Asked, Skip, ReadValue, RootTail, Automaton.IterativeDocumentFrom, SkipFail;
    var r := DocumentFrom(env, s, i, trace);
    match Skip(env.flags, s, i) {
      case Broken(offset) => SkipFailAsks(env, s, i, trace);
      case To(q) =>
        if Peek(s, q) == 0 {
          NothingAsked(env, s, trace, Fail(DocumentEmpty, q, trace));
        }
        ValueAsks(env, s, q, trace);
        var o := ReadValue(env, s, q, trace);
        if o.Ok? {
          RootTailAsks(env, s, o.pos, o.trace);
          AskedThen(env, s, trace, o.pos, o.trace, RootTail(env, s, o.pos, o.trace));
        }
    }
    IterativeAsks(env, s, i, trace);
  }

  lemma IterativeAsks(env: Env, s: Text, i: nat, trace: seq<Event>)
    requires i <= |s| && Asked(env, s, trace, DocumentFrom(env, s, i, trace))
    ensures Asked(env, s, trace, Automaton.IterativeDocumentFrom(env, s, i, trace)) || Automaton.StrayStart(env, s, i)
  {
    hide Skip, DocumentFrom, Automaton.IterativeDocumentFrom, Automaton.BracketRefused;
    Automaton.ParsersAgree(env, s, i, trace);
  }
}
