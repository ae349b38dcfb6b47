/** The table-driven iterative parser as a machine over configurations, and the proof that it computes what the
    recursive descent computes. */
module Automaton {
  import opened Bytes
  import opened Events
  import opened Grammar

  datatype State =
    | Finish
    | Error
    | Start
    | ObjectInitial
    | MemberKey
    | MemberValue
    | ObjectFinish
    | ArrayInitial
    | Element
    | ArrayFinish
    | SingleValue
    | ElementDelimiter
    | MemberDelimiter
    | KeyValueDelimiter

  datatype Token =
    | LeftBracket
    | RightBracket
    | LeftCurly
    | RightCurly
    | Comma
    | Colon
    | StringToken
    | FalseToken
    | TrueToken
    | NullToken
    | NumberToken

  function Tokenize(c: Byte): (token: Token) {
    if c == '[' as int then LeftBracket
    else if c == ']' as int then RightBracket
    else if c == '{' as int then LeftCurly
    else if c == '}' as int then RightCurly
    else if c == ',' as int then Comma
    else if c == ':' as int then Colon
    else if c == '"' as int then StringToken
    else if c == 'f' as int then FalseToken
    else if c == 't' as int then TrueToken
    else if c == 'n' as int then NullToken
    else NumberToken
  }

  predicate IsScalarToken(t: Token) {
    t.StringToken? || t.FalseToken? || t.TrueToken? || t.NullToken? || t.NumberToken?
  }

  /** The prediction table, row by row. */
  function Predict(state: State, t: Token): (dst: State)
    ensures !dst.Start? && !dst.Finish?
  {
    match state
    case Start =>
      if t.LeftBracket? then ArrayInitial
      else if t.LeftCurly? then ObjectInitial
      else if IsScalarToken(t) then SingleValue
      else Error
    case ObjectInitial =>
      if t.RightCurly? then ObjectFinish else if t.StringToken? then MemberKey else Error
    case MemberKey =>
      if t.Colon? then KeyValueDelimiter else Error
    case MemberValue =>
      if t.RightCurly? then ObjectFinish else if t.Comma? then MemberDelimiter else Error
    case ArrayInitial =>
      if t.LeftBracket? then ArrayInitial
      else if t.RightBracket? then ArrayFinish
      else if t.LeftCurly? then ObjectInitial
      else if IsScalarToken(t) then Element
      else Error
    case Element =>
      if t.RightBracket? then ArrayFinish else if t.Comma? then ElementDelimiter else Error
    case ElementDelimiter =>
      if t.LeftBracket? then ArrayInitial
      else if t.RightBracket? then ArrayFinish
      else if t.LeftCurly? then ObjectInitial
      else if IsScalarToken(t) then Element
      else Error
    case MemberDelimiter =>
      if t.RightCurly? then ObjectFinish else if t.StringToken? then MemberKey else Error
    case KeyValueDelimiter =>
      if t.LeftBracket? then ArrayInitial
      else if t.LeftCurly? then ObjectInitial
      else if IsScalarToken(t) then MemberValue
      else Error
    case Finish => Error
    case Error => Error
    case ObjectFinish => Error
    case ArrayFinish => Error
    case SingleValue => Error
  }

  /** `HandleError`: the code for a parse that fails in the given state. */
  function ErrorIn(state: State): (r: ErrorCode)
    requires Listed(state)
  {
    match state
    case Start => DocumentEmpty
    case Finish => DocumentRootNotSingular
    case ObjectInitial => ObjectMissName
    case MemberDelimiter => ObjectMissName
    case MemberKey => ObjectMissColon
    case MemberValue => ObjectMissCommaOrCurlyBracket
    case KeyValueDelimiter => ValueInvalid
    case ArrayInitial => ValueInvalid
    case ElementDelimiter => ValueInvalid
    case Element => ArrayMissCommaOrSquareBracket
  }

  /** The states `HandleError` knows; its last case asserts `Element`. */
  predicate Listed(state: State) {
    !state.Error? && !state.ObjectFinish? && !state.ArrayFinish? && !state.SingleValue?
  }

  // ----- configurations -----

  /** One open container: where to go on closing it, and the members or elements counted at its commas. */
  datatype Frame = Frame(ret: State, count: nat)

  datatype Config = Config(state: State, frames: seq<Frame>, pos: nat, trace: seq<Event>)

  /** The stack invariant: no container open exactly at the start and at the end, the bottom frame returns to
      Start, every other to a container state, and a container just opened has counted nothing. */
  ghost predicate WellStacked(state: State, frames: seq<Frame>) {
    && Listed(state)
    && (frames == [] <==> state.Start? || state.Finish?)
    && (frames != [] ==> frames[0].ret.Start?)
    && (forall k :: 0 < k < |frames| ==> frames[k].ret.Element? || frames[k].ret.MemberValue?)
    && (state.ArrayInitial? || state.ObjectInitial? ==> frames[|frames| - 1].count == 0)
  }

  function Top(frames: seq<Frame>): (r: Frame)
    requires frames != []
  {
    frames[|frames| - 1]
  }

  function Below(frames: seq<Frame>): (r: seq<Frame>)
    requires frames != []
  {
    frames[..|frames| - 1]
  }

  datatype Move = Go(next: Config) | Halt(code: ErrorCode, offset: nat, trace: seq<Event>)

  function Halted(o: Outcome): (r: Move)
    requires o.Fail?
  {
    Halt(o.code, o.offset, o.trace)
  }

  /** The state a container opened in `src` returns to. */
  function ReturnState(src: State): (r: State) {
    if src.ArrayInitial? || src.ElementDelimiter? then Element
    else if src.KeyValueDelimiter? then MemberValue
    else src
  }

  /** `Transit`; a halt without a code is the predicted error, left to `HandleError`. */
  function Transit(env: Env, s: Text, c: Config, dst: State): (m: Move)
    requires c.pos < |s| && WellStacked(c.state, c.frames)
    requires dst == Predict(c.state, Tokenize(Peek(s, c.pos)))
    ensures m.Go? ==> c.pos < m.next.pos <= |s|
  {
    var i, trace := c.pos, c.trace;
    match dst
    case Error => Halt(NoError, i, trace)
    case ObjectInitial =>
      var o := Raise(env, trace, StartObject, i + 1, i);
      if o.Fail? then Halted(o) else Go(Config(dst, c.frames + [Frame(ReturnState(c.state), 0)], o.pos, o.trace))
    case ArrayInitial =>
      var o := Raise(env, trace, StartArray, i + 1, i);
      if o.Fail? then Halted(o) else Go(Config(dst, c.frames + [Frame(ReturnState(c.state), 0)], o.pos, o.trace))
    case MemberKey =>
      var o := ReadString(env, s, i, trace, true);
      if o.Fail? then Halted(o) else Go(Config(dst, c.frames, o.pos, o.trace))
    case KeyValueDelimiter => Go(Config(dst, c.frames, i + 1, trace))
    case MemberValue =>
      var o := ReadValue(env, s, i, trace);
      if o.Fail? then Halted(o) else Go(Config(dst, c.frames, o.pos, o.trace))
    case Element =>
      var o := ReadValue(env, s, i, trace);
      if o.Fail? then Halted(o) else Go(Config(dst, c.frames, o.pos, o.trace))
    case MemberDelimiter =>
      Go(Config(dst, Below(c.frames) + [Frame(Top(c.frames).ret, Inc(Top(c.frames).count))], i + 1, trace))
    case ElementDelimiter =>
      Go(Config(dst, Below(c.frames) + [Frame(Top(c.frames).ret, Inc(Top(c.frames).count))], i + 1, trace))
    case ObjectFinish =>
      if !env.flags.trailingCommas && c.state.MemberDelimiter? then Halt(ObjectMissName, i, trace)
      else
        var count := if c.state.MemberValue? then Inc(Top(c.frames).count) else Top(c.frames).count;
        var o := Raise(env, trace, EndObject(count), i + 1, i);
        if o.Fail? then Halted(o)
        else Go(Config(if Top(c.frames).ret.Start? then Finish else Top(c.frames).ret, Below(c.frames), o.pos, o.trace))
    case ArrayFinish =>
      if !env.flags.trailingCommas && c.state.ElementDelimiter? then Halt(ValueInvalid, i, trace)
      else
        var count := if c.state.Element? then Inc(Top(c.frames).count) else Top(c.frames).count;
        var o := Raise(env, trace, EndArray(count), i + 1, i);
        if o.Fail? then Halted(o)
        else Go(Config(if Top(c.frames).ret.Start? then Finish else Top(c.frames).ret, Below(c.frames), o.pos, o.trace))
    case SingleValue =>
      var o := ReadValue(env, s, i, trace);
      if o.Fail? then Halted(o) else Go(Config(Finish, c.frames, o.pos, o.trace))
  }

  /** The two bracket-closing cases at once. */
  lemma ClosingMove(env: Env, s: Text, c: Config, dst: State)
    requires c.pos < |s| && WellStacked(c.state, c.frames)
    requires dst == Predict(c.state, Tokenize(Peek(s, c.pos))) && (dst.ObjectFinish? || dst.ArrayFinish?)
    ensures c.frames != [] && !Top(c.frames).ret.Error?
    ensures Transit(env, s, c, dst) ==
      if !env.flags.trailingCommas && (c.state.MemberDelimiter? || c.state.ElementDelimiter?) then
        Halt(if dst.ObjectFinish? then ObjectMissName else ValueInvalid, c.pos, c.trace)
      else
        var top := Top(c.frames);
        var count := if c.state.MemberValue? || c.state.Element? then Inc(top.count) else top.count;
        var o := Raise(env, c.trace, if dst.ObjectFinish? then EndObject(count) else EndArray(count), c.pos + 1, c.pos);
        if o.Fail? then Halted(o)
        else Go(Config(if top.ret.Start? then Finish else top.ret, Below(c.frames), o.pos, o.trace))
  {
    hide Raise, ReadValue, ReadString;
  }

  /** The two bracket-opening cases at once. */
  lemma OpeningMove(env: Env, s: Text, c: Config, dst: State)
    requires c.pos < |s| && WellStacked(c.state, c.frames)
    requires dst == Predict(c.state, Tokenize(Peek(s, c.pos))) && (dst.ObjectInitial? || dst.ArrayInitial?)
    ensures Transit(env, s, c, dst) ==
      var o := Raise(env, c.trace, if dst.ObjectInitial? then StartObject else StartArray, c.pos + 1, c.pos);
      if o.Fail? then Halted(o) else Go(Config(dst, c.frames + [Frame(ReturnState(c.state), 0)], o.pos, o.trace))
  {
    hide Raise, Predict, WellStacked;
  }

  /** The cases that read a name or a value. */
  lemma ReadingMove(env: Env, s: Text, c: Config, dst: State)
    requires c.pos < |s| && WellStacked(c.state, c.frames)
    requires dst == Predict(c.state, Tokenize(Peek(s, c.pos)))
    requires dst.MemberKey? || dst.MemberValue? || dst.Element? || dst.SingleValue?
    ensures Transit(env, s, c, dst) ==
      var o := if dst.MemberKey? then ReadString(env, s, c.pos, c.trace, true) else ReadValue(env, s, c.pos, c.trace);
      if o.Fail? then Halted(o) else Go(Config(if dst.SingleValue? then Finish else dst, c.frames, o.pos, o.trace))
  {
    hide ReadValue, ReadString, Predict, WellStacked;
  }

  /** The cases that read a colon or a comma. */
  lemma PunctuationMove(env: Env, s: Text, c: Config, dst: State)
    requires c.pos < |s| && WellStacked(c.state, c.frames)
    requires dst == Predict(c.state, Tokenize(Peek(s, c.pos)))
    requires dst.KeyValueDelimiter? || dst.MemberDelimiter? || dst.ElementDelimiter?
    ensures c.frames != []
    ensures Transit(env, s, c, dst) ==
      Go(Config(dst, if dst.KeyValueDelimiter? then c.frames
                     else Below(c.frames) + [Frame(Top(c.frames).ret, Inc(Top(c.frames).count))], c.pos + 1, c.trace))
  {
  }

  lemma ErrorMove(env: Env, s: Text, c: Config)
    requires c.pos < |s| && WellStacked(c.state, c.frames) && Predict(c.state, Tokenize(Peek(s, c.pos))).Error?
    ensures Transit(env, s, c, Error) == Halt(NoError, c.pos, c.trace)
  {
  }

  /** One round of the loop of `IterativeParse`. */
  function Step(env: Env, s: Text, c: Config): (m: Move)
    requires c.pos < |s| && WellStacked(c.state, c.frames)
    ensures m.Go? ==> c.pos < m.next.pos <= |s|
  {
    Transit(env, s, c, Predict(c.state, Tokenize(Peek(s, c.pos))))
  }

  /** The stack discipline is kept by every move: no underflow, only listed states, empty at Finish. */
  lemma StepKeepsStack(env: Env, s: Text, c: Config)
    requires c.pos < |s| && WellStacked(c.state, c.frames) && Step(env, s, c).Go?
    ensures WellStacked(Step(env, s, c).next.state, Step(env, s, c).next.frames)
  {
    hide ReadValue, ReadString, Raise;
  }

  /** The loop, from a position behind whitespace. */
  function Run(env: Env, s: Text, c: Config): (r: Outcome)
    requires c.pos <= |s| && WellStacked(c.state, c.frames)
    ensures r.Ok? ==> r.pos <= |s|
    decreases |s| - c.pos
  {
    if Peek(s, c.pos) == 0 then
      if c.state.Finish? then Ok(c.pos, c.trace) else Fail(ErrorIn(c.state), c.pos, c.trace)
    else
      match Step(env, s, c)
      case Halt(code, offset, trace) =>
        if code == NoError then Fail(ErrorIn(c.state), c.pos, trace) else Fail(code, offset, trace)
      case Go(next) =>
        StepKeepsStack(env, s, c);
        if env.flags.stopWhenDone && next.state.Finish? then Ok(next.pos, next.trace)
        else match Skip(env.flags, s, next.pos)
          case Broken(offset) => SkipFail(offset, next.trace)
          case To(q) => Run(env, s, next.(pos := q))
  }

  /** `IterativeParse`, from where an earlier parse may have left the stream. */
  function IterativeDocumentFrom(env: Env, s: Text, i: nat, trace: seq<Event>): (r: Outcome)
    requires i <= |s|
    ensures r.Ok? ==> r.pos <= |s|
  {
    match Skip(env.flags, s, i)
    case Broken(offset) => SkipFail(offset, trace)
    case To(q) => Run(env, s, Config(Start, [], q, trace))
  }

  function IterativeDocument(env: Env, s: Text): (r: Outcome) { IterativeDocumentFrom(env, s, 0, []) }

  /** The handler refuses a bracket, an opening one or a closing one that does not stand behind a trailing comma. */
  predicate RefusesAt(env: Env, s: Text, c: Config)
    requires c.pos < |s| && WellStacked(c.state, c.frames)
  {
    var dst := Predict(c.state, Tokenize(Peek(s, c.pos)));
    && Step(env, s, c).Halt? && Step(env, s, c).code == Termination
    && (dst.ObjectInitial? || dst.ArrayInitial?
        || ((dst.ObjectFinish? || dst.ArrayFinish?) && !c.state.MemberDelimiter? && !c.state.ElementDelimiter?))
  }

  /** The run ends with such a refusal. */
  predicate Refuses(env: Env, s: Text, c: Config)
    requires c.pos <= |s| && WellStacked(c.state, c.frames)
    decreases |s| - c.pos
  {
    Peek(s, c.pos) != 0 &&
    match Step(env, s, c)
    case Halt(_, _, _) => RefusesAt(env, s, c)
    case Go(next) =>
      StepKeepsStack(env, s, c);
      !(env.flags.stopWhenDone && next.state.Finish?)
      && Skip(env.flags, s, next.pos).To? && Refuses(env, s, next.(pos := Skip(env.flags, s, next.pos).pos))
  }

  /** A parse from `i` ends because the handler refuses a bracket, but for one behind a trailing comma. */
  predicate BracketRefused(env: Env, s: Text, i: nat, trace: seq<Event>)
    requires i <= |s|
  {
    Skip(env.flags, s, i).To? && Refuses(env, s, Config(Start, [], Skip(env.flags, s, i).pos, trace))
  }

  // ----- what a configuration still has to do, in terms of the recursive descent -----

  /** A value or container finished with outcome `o`; its frame returned to `ret`, the frames `below` are open. */
  ghost function Resume(env: Env, s: Text, ret: State, below: seq<Frame>, o: Outcome): (r: Outcome)
    requires o.Ok? ==> o.pos <= |s|
    decreases |below|
  {
    if o.Fail? then o
    else if below == [] then RootTail(env, s, o.pos, o.trace)
    else
      var up := if ret.Element? then ElementTail(env, s, o.pos, o.trace, Top(below).count)
                else MemberTail(env, s, o.pos, o.trace, Top(below).count);
      Resume(env, s, Top(below).ret, Below(below), up)
  }

  /** The rest of the innermost open container. */
  ghost function Body(env: Env, s: Text, state: State, count: nat, pos: nat, trace: seq<Event>): (r: Outcome)
    requires pos <= |s|
    ensures r.Ok? ==> r.pos <= |s|
  {
    match state
    case ArrayInitial => ArrayBody(env, s, pos, trace)
    case ElementDelimiter => AfterComma(env, s, pos, trace, count)
    case Element => ElementNext(env, s, pos, trace, Inc(count))
    case ObjectInitial => ObjectBody(env, s, pos, trace)
    case MemberDelimiter => AfterMemberComma(env, s, pos, trace, count)
    case MemberKey => MemberColon(env, s, pos, trace, count)
    case KeyValueDelimiter => ValueOfMember(env, s, pos, trace, count)
    case MemberValue => MemberNext(env, s, pos, trace, Inc(count))
    case _ => Ok(pos, trace)
  }

  ghost function Denote(env: Env, s: Text, c: Config): (r: Outcome)
    requires c.pos <= |s| && WellStacked(c.state, c.frames)
  {
    if c.state.Start? then Root(env, s, c.pos, c.trace)
    else if c.state.Finish? then
      if Peek(s, c.pos) != 0 then Fail(DocumentRootNotSingular, c.pos, c.trace) else Ok(c.pos, c.trace)
    else
      Resume(env, s, Top(c.frames).ret, Below(c.frames), Body(env, s, c.state, Top(c.frames).count, c.pos, c.trace))
  }

  /** After a move: whitespace is skipped, unless the root is done and the rest is not wanted. */
  ghost function After(env: Env, s: Text, c: Config): (r: Outcome)
    requires c.pos <= |s| && WellStacked(c.state, c.frames)
  {
    if env.flags.stopWhenDone && c.state.Finish? then Ok(c.pos, c.trace)
    else match Skip(env.flags, s, c.pos)
      case Broken(offset) => SkipFail(offset, c.trace)
      case To(q) => Denote(env, s, c.(pos := q))
  }

  /** Same verdict, same events in the same order with the same counts, same code; and the same offset, except
      where a bracket was refused: one parser reports it on the bracket and the other behind it. */
  predicate Agree(a: Outcome, b: Outcome, refused: bool) {
    if a.Ok? then a == b && !refused
    else
      && b.Fail? && a.code == b.code && a.trace == b.trace && b.offset == a.offset + (if refused then 1 else 0)
      && (refused ==> a.code == Termination)
  }

  /** Bytes no value can start with but punctuation that the tokenizer knows. */
  predicate ClosesNothing(c: Byte) {
    c == ']' as int || c == '}' as int || c == ',' as int || c == ':' as int
  }

  lemma InvalidValue(env: Env, s: Text, i: nat, trace: seq<Event>)
    requires i <= |s| && (ClosesNothing(Peek(s, i)) || Peek(s, i) == 0)
    ensures ReadValue(env, s, i, trace) == Fail(ValueInvalid, i, trace)
  {
  }

  // ----- the simulation -----

  /** What a step owes: a halt agrees with the denotation, a move keeps it. */
  ghost predicate Simulates(env: Env, s: Text, c: Config)
    requires c.pos < |s| && WellStacked(c.state, c.frames)
  {
    match Step(env, s, c)
    case Halt(code, offset, trace) =>
      Agree(if code == NoError then Fail(ErrorIn(c.state), c.pos, trace) else Fail(code, offset, trace), Denote(env, s, c),
            RefusesAt(env, s, c))
    case Go(next) => WellStacked(next.state, next.frames) && After(env, s, next) == Denote(env, s, c)
  }

  lemma ResumeFail(env: Env, s: Text, ret: State, below: seq<Frame>, o: Outcome)
    requires o.Fail?
    ensures Resume(env, s, ret, below, o) == o
  {
  }

  /** A container opened where a value was expected: its end feeds the enclosing container. */
  lemma OpensValue(env: Env, s: Text, c: Config, dst: State)
    requires c.pos < |s| && WellStacked(c.state, c.frames)
    requires dst == Predict(c.state, Tokenize(Peek(s, c.pos))) && (dst.ArrayInitial? || dst.ObjectInitial?)
    ensures Simulates(env, s, c)
  {
    hide Skip, Denote, Resume, Raise, ArrayBody, ObjectBody, WellStacked, Root;
    StepKeepsStack'(env, s, c);
    var ret := ReturnState(c.state);
    var opening := if dst.ObjectInitial? then StartObject else StartArray;
    var o := Raise(env, c.trace, opening, c.pos + 1, c.pos);
    RaiseOffset(env, c.trace, opening, c.pos + 1, c.pos);
    OpeningStates(c, Tokenize(Peek(s, c.pos)));
    ValueOpens(env, s, c);
    var v := ReadValue(env, s, c.pos, c.trace);
    if v.Fail? {
      ResumeFail(env, s, ret, c.frames, v);
    }
    if o.Ok? {
      var skipped := Skip(env.flags, s, o.pos);
      if skipped.To? {
        OpenedDenotes(env, s, dst, c.frames, ret, skipped.pos, o.trace);
      }
    }
  }

  lemma OpeningStates(c: Config, t: Token)
    requires WellStacked(c.state, c.frames) && (Predict(c.state, t).ArrayInitial? || Predict(c.state, t).ObjectInitial?)
    ensures c.state.Start? || c.state.ArrayInitial? || c.state.ElementDelimiter? || c.state.KeyValueDelimiter?
    ensures t.LeftBracket? || t.LeftCurly?
  {
  }

  lemma OpenedDenotes(env: Env, s: Text, dst: State, frames: seq<Frame>, ret: State, pos: nat, trace: seq<Event>)
    requires pos <= |s| && WellStacked(dst, frames + [Frame(ret, 0)]) && (dst.ArrayInitial? || dst.ObjectInitial?)
    ensures Denote(env, s, Config(dst, frames + [Frame(ret, 0)], pos, trace))
         == Resume(env, s, ret, frames, if dst.ObjectInitial? then ObjectBody(env, s, pos, trace) else ArrayBody(env, s, pos, trace))
  {
    hide Resume, ArrayBody, ObjectBody;
    assert Below(frames + [Frame(ret, 0)]) == frames;
  }

  lemma StepKeepsStack'(env: Env, s: Text, c: Config)
    requires c.pos < |s| && WellStacked(c.state, c.frames)
    ensures Step(env, s, c).Go? ==> WellStacked(Step(env, s, c).next.state, Step(env, s, c).next.frames)
  {
    if Step(env, s, c).Go? {
      StepKeepsStack(env, s, c);
    }
  }

  lemma RaiseOffset(env: Env, trace: seq<Event>, e: Event, pos: nat, offset: nat)
    ensures var a, b := Raise(env, trace, e, pos, offset), Raise(env, trace, e, pos, pos);
      if a.Ok? then a == b == Ok(pos, trace + [e])
      else b.Fail? && a.code == b.code == Termination && a.trace == b.trace && a.offset == offset && b.offset == pos
  {
  }

  /** Where a value is expected the denotation reads one and then resumes. */
  lemma ValueOpens(env: Env, s: Text, c: Config)
    requires c.pos < |s| && WellStacked(c.state, c.frames)
    requires c.state.Start? || c.state.ArrayInitial? || c.state.ElementDelimiter? || c.state.KeyValueDelimiter?
    requires Peek(s, c.pos) != ']' as int
    ensures Denote(env, s, c) == Resume(env, s, ReturnState(c.state), c.frames, ReadValue(env, s, c.pos, c.trace))
  {
    hide Skip, RootTail, ElementTail, MemberTail, ReadValue;
    var v := ReadValue(env, s, c.pos, c.trace);
    if !c.state.Start? {
      var count := Top(c.frames).count;
      var b := Body(env, s, c.state, count, c.pos, c.trace);
      assert Elements(env, s, c.pos, c.trace, count) == match v
        case Fail(code, offset, t) => Fail(code, offset, t)
        case Ok(p, t) => ElementTail(env, s, p, t, count);
      if v.Fail? {
        ResumeFail(env, s, Top(c.frames).ret, Below(c.frames), b);
      }
    }
  }

  /** Completing a value or container: skipping whitespace in the restored state is resuming. */
  lemma AfterIsResume(env: Env, s: Text, ret: State, below: seq<Frame>, pos: nat, trace: seq<Event>)
    requires pos <= |s| && (ret.Start? || ret.Element? || ret.MemberValue?)
    requires WellStacked(if ret.Start? then Finish else ret, below)
    ensures After(env, s, Config(if ret.Start? then Finish else ret, below, pos, trace))
         == Resume(env, s, ret, below, Ok(pos, trace))
  {
    hide Skip, ElementNext, MemberNext;
    if ret.Element? {
      assert Resume(env, s, ret, below, Ok(pos, trace))
          == Resume(env, s, Top(below).ret, Below(below), ElementTail(env, s, pos, trace, Top(below).count));
    } else if ret.MemberValue? {
      assert Resume(env, s, ret, below, Ok(pos, trace))
          == Resume(env, s, Top(below).ret, Below(below), MemberTail(env, s, pos, trace, Top(below).count));
    }
  }

  /** A value without structure. */
  lemma ReadsValue(env: Env, s: Text, c: Config, dst: State)
    requires c.pos < |s| && WellStacked(c.state, c.frames)
    requires dst == Predict(c.state, Tokenize(Peek(s, c.pos)))
    requires dst.Element? || dst.MemberValue? || dst.SingleValue?
    ensures Simulates(env, s, c)
  {
    hide ReadValue, After, Denote, Resume, Root;
    StepKeepsStack'(env, s, c);
    ValueOpens(env, s, c);
    var v := ReadValue(env, s, c.pos, c.trace);
    if v.Ok? {
      AfterIsResume(env, s, ReturnState(c.state), c.frames, v.pos, v.trace);
    } else {
      ResumeFail(env, s, ReturnState(c.state), c.frames, v);
    }
  }

  lemma ClosingStates(c: Config, b: Byte)
    ensures Predict(c.state, Tokenize(b)).ObjectFinish? ==>
      b == '}' as int && (c.state.ObjectInitial? || c.state.MemberValue? || c.state.MemberDelimiter?)
    ensures Predict(c.state, Tokenize(b)).ArrayFinish? ==>
      b == ']' as int && (c.state.ArrayInitial? || c.state.Element? || c.state.ElementDelimiter?)
  {
  }

  /** A closing bracket, after a value, at once, or behind a trailing comma. */
  lemma ClosesContainer(env: Env, s: Text, c: Config, dst: State)
    requires c.pos < |s| && WellStacked(c.state, c.frames)
    requires dst == Predict(c.state, Tokenize(Peek(s, c.pos))) && (dst.ObjectFinish? || dst.ArrayFinish?)
    ensures Simulates(env, s, c)
  {
    hide ReadValue, After, Resume, Skip, Raise, Transit, Tokenize, Predict;
    StepKeepsStack'(env, s, c);
    ClosingMove(env, s, c, dst);
    ClosingStates(c, Peek(s, c.pos));
    var top := Top(c.frames);
    var count := if c.state.MemberValue? || c.state.Element? then Inc(top.count) else top.count;
    var closing := if dst.ObjectFinish? then EndObject(count) else EndArray(count);
    RaiseOffset(env, c.trace, closing, c.pos + 1, c.pos);
    InvalidValue(env, s, c.pos, c.trace);
    var b := Body(env, s, c.state, top.count, c.pos, c.trace);
    assert Elements(env, s, c.pos, c.trace, top.count) == Fail(ValueInvalid, c.pos, c.trace);
    assert dst.ObjectFinish? ==> Members(env, s, c.pos, c.trace, top.count) == Fail(ObjectMissName, c.pos, c.trace);
    if b.Fail? {
      ResumeFail(env, s, top.ret, Below(c.frames), b);
    } else {
      AfterIsResume(env, s, top.ret, Below(c.frames), b.pos, b.trace);
    }
  }

  lemma PunctuationStates(c: Config, b: Byte)
    ensures Predict(c.state, Tokenize(b)).MemberKey? ==>
      b == '"' as int && (c.state.ObjectInitial? || c.state.MemberDelimiter?)
    ensures Predict(c.state, Tokenize(b)).KeyValueDelimiter? ==> b == ':' as int && c.state.MemberKey?
    ensures Predict(c.state, Tokenize(b)).MemberDelimiter? ==> b == ',' as int && c.state.MemberValue?
    ensures Predict(c.state, Tokenize(b)).ElementDelimiter? ==> b == ',' as int && c.state.Element?
  {
  }

  /** A member name, a colon, a comma. */
  lemma ReadsPunctuation(env: Env, s: Text, c: Config, dst: State)
    requires c.pos < |s| && WellStacked(c.state, c.frames)
    requires dst == Predict(c.state, Tokenize(Peek(s, c.pos)))
    requires dst.MemberKey? || dst.KeyValueDelimiter? || dst.MemberDelimiter? || dst.ElementDelimiter?
    ensures Simulates(env, s, c)
  {
    hide ReadValue, Resume, Skip, ReadString, ValueOfMember, Transit, Tokenize, Predict;
    StepKeepsStack'(env, s, c);
    PunctuationStates(c, Peek(s, c.pos));
    if dst.MemberKey? {
      ReadingMove(env, s, c, dst);
    } else {
      PunctuationMove(env, s, c, dst);
    }
    var top, below := Top(c.frames), Below(c.frames);
    var b := Body(env, s, c.state, top.count, c.pos, c.trace);
    var frame := Frame(top.ret, Inc(top.count));
    assert Top(below + [frame]) == frame && Below(below + [frame]) == below;
    assert dst.MemberKey? ==> Peek(s, c.pos) != '}' as int;
    assert dst.MemberKey? ==> b == Members(env, s, c.pos, c.trace, top.count);
    if b.Fail? {
      ResumeFail(env, s, top.ret, below, b);
    }
  }

  /** At the end of the text and at a predicted error the recursive descent fails at the same place with the code
      `HandleError` gives. */
  lemma StuckFails(env: Env, s: Text, c: Config)
    requires c.pos <= |s| && WellStacked(c.state, c.frames) && !c.state.Start?
    requires Peek(s, c.pos) == 0 || Predict(c.state, Tokenize(Peek(s, c.pos))).Error?
    requires c.state.Finish? ==> Peek(s, c.pos) != 0
    ensures Denote(env, s, c) == Fail(ErrorIn(c.state), c.pos, c.trace)
  {
    hide ReadValue, Resume, Skip, ReadString;
    if !c.state.Finish? {
      var top := Top(c.frames);
      var b := Body(env, s, c.state, top.count, c.pos, c.trace);
      if c.state.ArrayInitial? || c.state.ElementDelimiter? || c.state.KeyValueDelimiter? {
        InvalidValue(env, s, c.pos, c.trace);
        assert Elements(env, s, c.pos, c.trace, top.count) == Fail(ValueInvalid, c.pos, c.trace);
      }
      if c.state.ObjectInitial? || c.state.MemberDelimiter? {
        assert Members(env, s, c.pos, c.trace, top.count) == Fail(ObjectMissName, c.pos, c.trace);
      }
      ResumeFail(env, s, top.ret, Below(c.frames), b);
    }
  }

  lemma StepSimulates(env: Env, s: Text, c: Config)
    requires c.pos < |s| && WellStacked(c.state, c.frames) && Peek(s, c.pos) != 0
    requires c.state.Start? ==> !ClosesNothing(Peek(s, c.pos))
    ensures Simulates(env, s, c)
  {
    hide Simulates, Denote, After;
    var dst := Predict(c.state, Tokenize(Peek(s, c.pos)));
    match dst
    case ObjectInitial => OpensValue(env, s, c, dst);
    case ArrayInitial => OpensValue(env, s, c, dst);
    case Element => ReadsValue(env, s, c, dst);
    case MemberValue => ReadsValue(env, s, c, dst);
    case SingleValue => ReadsValue(env, s, c, dst);
    case ObjectFinish => ClosesContainer(env, s, c, dst);
    case ArrayFinish => ClosesContainer(env, s, c, dst);
    case MemberKey => ReadsPunctuation(env, s, c, dst);
    case KeyValueDelimiter => ReadsPunctuation(env, s, c, dst);
    case MemberDelimiter => ReadsPunctuation(env, s, c, dst);
    case ElementDelimiter => ReadsPunctuation(env, s, c, dst);
    case Error => ErrorSimulates(env, s, c);
  }

  lemma ErrorSimulates(env: Env, s: Text, c: Config)
    requires c.pos < |s| && WellStacked(c.state, c.frames) && !c.state.Start?
    requires Predict(c.state, Tokenize(Peek(s, c.pos))).Error? && Peek(s, c.pos) != 0
    ensures Simulates(env, s, c)
  {
    hide Denote;
    StuckFails(env, s, c);
  }

  /** The whole run of the machine computes the denotation of its configuration. */
  lemma {:induction false} RunSimulates(env: Env, s: Text, c: Config)
    requires c.pos <= |s| && WellStacked(c.state, c.frames)
    requires c.state.Start? ==> Peek(s, c.pos) != 0 && !ClosesNothing(Peek(s, c.pos))
    ensures Agree(Run(env, s, c), Denote(env, s, c), Refuses(env, s, c))
    decreases |s| - c.pos
  {
    hide Step, Skip, Transit, RefusesAt;
    if Peek(s, c.pos) == 0 {
      if !c.state.Finish? {
        StuckFails(env, s, c);
      }
    } else {
      StepSimulates(env, s, c);
      var move := Step(env, s, c);
      if move.Go? && !(env.flags.stopWhenDone && move.next.state.Finish?) {
        var skipped := Skip(env.flags, s, move.next.pos);
        if skipped.To? {
          NeverRestarts(env, s, c);
          RunSimulates(env, s, move.next.(pos := skipped.pos));
        }
      }
    }
  }

  lemma NeverRestarts(env: Env, s: Text, c: Config)
    requires c.pos < |s| && WellStacked(c.state, c.frames) && Step(env, s, c).Go?
    ensures !Step(env, s, c).next.state.Start?
  {
    hide ReadValue, ReadString, Raise;
  }

  /** The first token from `i` on is one no value starts with. */
  predicate StrayStart(env: Env, s: Text, i: nat)
    requires i <= |s|
  {
    Skip(env.flags, s, i).To? && ClosesNothing(Peek(s, Skip(env.flags, s, i).pos))
  }

  /** The two parsers of the reader compute the same result for every text, starting position, handler and flag
      setting, except where the first token is a stray closing bracket, comma or colon: both reject it there without
      an event, one calling the document empty, the other the value invalid. */
  lemma ParsersAgree(env: Env, s: Text, i: nat, trace: seq<Event>)
    requires i <= |s|
    ensures var a, b := IterativeDocumentFrom(env, s, i, trace), DocumentFrom(env, s, i, trace);
      if StrayStart(env, s, i) then
        var q := Skip(env.flags, s, i).pos;
        a == Fail(DocumentEmpty, q, trace) && b == Fail(ValueInvalid, q, trace)
      else Agree(a, b, BracketRefused(env, s, i, trace))
  {
    hide Skip, ReadValue, RootTail;
    var skipped := Skip(env.flags, s, i);
    if skipped.To? {
      var q := skipped.pos;
      var c := Config(Start, [], q, trace);
      if ClosesNothing(Peek(s, q)) {
        InvalidValue(env, s, q, trace);
        assert Step(env, s, c) == Halt(NoError, q, trace);
      } else if Peek(s, q) != 0 {
        RunSimulates(env, s, c);
      }
    }
  }

  /** Exactly when the two parsers report the same error code. */
  lemma CodesAgreeIff(env: Env, s: Text, i: nat, trace: seq<Event>)
    requires i <= |s| && IterativeDocumentFrom(env, s, i, trace).Fail? && DocumentFrom(env, s, i, trace).Fail?
    ensures IterativeDocumentFrom(env, s, i, trace).code == DocumentFrom(env, s, i, trace).code <==> !StrayStart(env, s, i)
  {
    hide Skip, DocumentFrom, IterativeDocumentFrom, BracketRefused;
    ParsersAgree(env, s, i, trace);
  }

  lemma {:induction false} NeverRefuses(env: Env, s: Text, c: Config)
    requires c.pos <= |s| && WellStacked(c.state, c.frames) && KeepsAll(env)
    ensures !Refuses(env, s, c)
    decreases |s| - c.pos
  {
    hide Step, Skip, RefusesAt;
    if Peek(s, c.pos) != 0 {
      KeepsBrackets(env, s, c);
      var move := Step(env, s, c);
      if move.Go? && Skip(env.flags, s, move.next.pos).To? {
        StepKeepsStack(env, s, c);
        NeverRefuses(env, s, move.next.(pos := Skip(env.flags, s, move.next.pos).pos));
      }
    }
  }

  lemma KeepsBrackets(env: Env, s: Text, c: Config)
    requires c.pos < |s| && WellStacked(c.state, c.frames) && KeepsAll(env)
    ensures !RefusesAt(env, s, c)
  {
    hide ReadValue, ReadString;
  }

  /** With a handler that never refuses, the two parsers are one function but for the stray first token. */
  lemma ParsersEqual(env: Env, s: Text, i: nat, trace: seq<Event>)
    requires i <= |s| && KeepsAll(env)
    ensures IterativeDocumentFrom(env, s, i, trace) == DocumentFrom(env, s, i, trace) <==> !StrayStart(env, s, i)
  {
    hide Skip, DocumentFrom, IterativeDocumentFrom, Refuses;
    ParsersAgree(env, s, i, trace);
    if Skip(env.flags, s, i).To? {
      NeverRefuses(env, s, Config(Start, [], Skip(env.flags, s, i).pos, trace));
    }
  }

  /** What recursive descent accepts, the machine accepts with the same result. */
  lemma AcceptedAlike(env: Env, s: Text, i: nat, trace: seq<Event>)
    requires i <= |s| && DocumentFrom(env, s, i, trace).Ok?
    ensures IterativeDocumentFrom(env, s, i, trace) == DocumentFrom(env, s, i, trace)
  {
    hide Skip, DocumentFrom, IterativeDocumentFrom, Refuses;
    ParsersAgree(env, s, i, trace);
  }

  const STRAY: Text := [']' as int]

  /** The text of a lone closing bracket: two codes for one place. */
  lemma StrayCodesDiffer(env: Env)
    ensures IterativeDocument(env, STRAY) == Fail(DocumentEmpty, 0, []) && Document(env, STRAY) == Fail(ValueInvalid, 0, [])
  {
    hide DocumentFrom, IterativeDocumentFrom;
    assert Skip(env.flags, STRAY, 0) == To(0);
    ParsersAgree(env, STRAY, 0, []);
  }
}
