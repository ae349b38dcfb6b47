/** The reader itself: a stream cursor, a handler, the shared stack and the parse result, changed step by step by
    the recursive-descent methods and by the iterative parser. */
module Reader {
  import opened Bytes
  import opened Events
  import opened StringReading
  import opened Grammar
  import Automaton
  import Numbers

  class StringStream {
    const text: Text
    var pos: nat

    constructor (text: Text)
      ensures this.text == text && pos == 0
    {
      this.text := text;
      pos := 0;
    }

    method Take()
      requires pos < |text|
      modifies this
      ensures pos == old(pos) + 1
    {
      pos := pos + 1;
    }

    /** `Consume`. */
    method Consume(expected: Byte) returns (taken: bool)
      requires expected != 0 && pos <= |text|
      modifies this
      ensures taken == (Peek(text, old(pos)) == expected)
      ensures pos == old(pos) + (if taken then 1 else 0) <= |text|
    {
      taken := Peek(text, pos) == expected;
      if taken {
        pos := pos + 1;
      }
    }
  }

  /** A handler: it sees every event and answers whether to go on. */
  class Handler {
    const keep: seq<Event> -> bool
    var trace: seq<Event>

    constructor (keep: seq<Event> -> bool)
      ensures this.keep == keep && trace == []
    {
      this.keep := keep;
      trace := [];
    }

    method Call(e: Event) returns (goOn: bool)
      modifies this
      ensures trace == old(trace) + [e] && goOn == keep(trace)
    {
      trace := trace + [e];
      goOn := keep(trace);
    }
  }

  /** What the one stack holds: decoded string units, and the frames of the iterative parser. */
  datatype Cell = Unit(c: Byte) | Return(state: Automaton.State) | Count(n: nat)

  function Units(w: Text): (r: seq<Cell>) {
    seq(|w|, k requires 0 <= k < |w| => Unit(w[k]))
  }

  class GenericReader {
    const flags: Flags
    const tooBig: Text -> bool
    var stack: seq<Cell>
    var error: ErrorCode
    var errorOffset: nat

    constructor (flags: Flags, tooBig: Text -> bool)
      ensures this.flags == flags && this.tooBig == tooBig && stack == [] && error == NoError
    {
      this.flags := flags;
      this.tooBig := tooBig;
      stack := [];
      error := NoError;
      errorOffset := 0;
    }

    ghost function EnvOf(h: Handler): (r: Env) { Env(flags, h.keep, tooBig) }

    ghost predicate Ready(input: StringStream)
      reads this, input
    {
      error == NoError && input.pos <= |input.text|
    }

    /** Where the reader stands: the parse result, the cursor and the events so far. */
    ghost function Result(input: StringStream, h: Handler): (r: Outcome)
      reads this, input, h
    {
      if error == NoError then Ok(input.pos, h.trace) else Fail(error, errorOffset, h.trace)
    }

    method SetParseError(code: ErrorCode, offset: nat)
      modifies this`error, this`errorOffset
      ensures error == code && errorOffset == offset
    {
      error := code;
      errorOffset := offset;
    }

    // ----- whitespace and comments -----

    method SkipWhitespace(input: StringStream)
      requires input.pos <= |input.text|
      modifies input
      ensures input.pos == SkipSpaces(input.text, old(input.pos))
    {
      while IsSpace(Peek(input.text, input.pos))
        invariant input.pos <= |input.text|
        invariant SkipSpaces(input.text, input.pos) == SkipSpaces(input.text, old(input.pos))
        decreases |input.text| - input.pos
      {
        input.Take();
      }
    }

    /** The block comment whose opening was consumed. */
    method SkipBlock(input: StringStream)
      requires Ready(input)
      modifies this`error, this`errorOffset, input
      ensures match BlockEnd(input.text, old(input.pos))
        case To(p) => Ready(input) && input.pos == p
        case Broken(p) => error == UnspecificSyntaxError && errorOffset == p
    {
      while true
        invariant Ready(input) && BlockEnd(input.text, input.pos) == BlockEnd(input.text, old(input.pos))
        decreases |input.text| - input.pos
      {
        if Peek(input.text, input.pos) == 0 {
          SetParseError(UnspecificSyntaxError, input.pos);
          return;
        }
        var star := input.Consume('*' as int);
        if star {
          var slash := input.Consume('/' as int);
          if slash {
            return;
          }
        } else {
          input.Take();
        }
      }
    }

    method SkipLine(input: StringStream)
      requires input.pos <= |input.text|
      modifies input
      ensures input.pos == LineEnd(input.text, old(input.pos))
    {
      while Peek(input.text, input.pos) != 0
        invariant input.pos <= |input.text| && LineEnd(input.text, input.pos) == LineEnd(input.text, old(input.pos))
        decreases |input.text| - input.pos
      {
        var c := Peek(input.text, input.pos);
        input.Take();
        if c == '\n' as int {
          return;
        }
      }
    }

    method SkipComment(input: StringStream)
      requires Ready(input) && Peek(input.text, input.pos) == '/' as int
      modifies this`error, this`errorOffset, input
      ensures match CommentEnd(input.text, old(input.pos))
        case To(p) => Ready(input) && input.pos == p
        case Broken(p) => error == UnspecificSyntaxError && errorOffset == p
    {
      input.Take();
      var star := input.Consume('*' as int);
      if star {
        SkipBlock(input);
        return;
      }
      var slash := input.Consume('/' as int);
      if slash {
        SkipLine(input);
      } else {
        SetParseError(UnspecificSyntaxError, input.pos);
      }
    }

    method SkipWhitespaceAndComments(input: StringStream)
      requires Ready(input)
      modifies this`error, this`errorOffset, input
      ensures match Skip(flags, input.text, old(input.pos))
        case To(p) => Ready(input) && input.pos == p
        case Broken(p) => error == UnspecificSyntaxError && errorOffset == p
    {
      hide CommentEnd, LineEnd, BlockEnd;
      SkipWhitespace(input);
      if flags.comments {
        while Peek(input.text, input.pos) == '/' as int
          invariant Ready(input) && SkipSpaces(input.text, input.pos) == input.pos
          invariant Skip(flags, input.text, input.pos) == Skip(flags, input.text, old(input.pos))
          decreases |input.text| - input.pos
        {
          SkipComment(input);
          if error != NoError {
            return;
          }
          SkipWhitespace(input);
        }
      }
    }

    // ----- values without structure -----

    method ParseWord(input: StringStream, h: Handler, rest: Text, e: Event)
      requires Ready(input) && input.pos < |input.text| && 0 !in rest
      modifies this`error, this`errorOffset, input, h
      ensures Result(input, h) == ReadWord(EnvOf(h), input.text, old(input.pos), old(h.trace), rest, e)
    {
      input.Take();
      ghost var start := input.pos;
      var n := 0;
      while n < |rest|
        invariant n <= |rest| && error == NoError && h.trace == old(h.trace)
        invariant input.pos == start + n <= |input.text|
        invariant n + Matched(input.text, input.pos, rest[n..]) == Matched(input.text, start, rest)
      {
        var taken := input.Consume(rest[n]);
        assert rest[n..][0] == rest[n] && rest[n..][1..] == rest[n + 1..];
        if !taken {
          SetParseError(ValueInvalid, input.pos);
          return;
        }
        n := n + 1;
      }
      var goOn := h.Call(e);
      if !goOn {
        SetParseError(Termination, input.pos);
      }
    }

    /** `ParseNull`, `ParseTrue`, `ParseFalse`. */
    method ParseNull(input: StringStream, h: Handler)
      requires Ready(input) && input.pos < |input.text|
      modifies this`error, this`errorOffset, input, h
      ensures Result(input, h) == ReadWord(EnvOf(h), input.text, old(input.pos), old(h.trace), ULL, Null)
    {
      ParseWord(input, h, ULL, Null);
    }

    method ParseTrue(input: StringStream, h: Handler)
      requires Ready(input) && input.pos < |input.text|
      modifies this`error, this`errorOffset, input, h
      ensures Result(input, h) == ReadWord(EnvOf(h), input.text, old(input.pos), old(h.trace), RUE, Bool(true))
    {
      ParseWord(input, h, RUE, Bool(true));
    }

    method ParseFalse(input: StringStream, h: Handler)
      requires Ready(input) && input.pos < |input.text|
      modifies this`error, this`errorOffset, input, h
      ensures Result(input, h) == ReadWord(EnvOf(h), input.text, old(input.pos), old(h.trace), ALSE, Bool(false))
    {
      ParseWord(input, h, ALSE, Bool(false));
    }

    /** `ParseStringToStream` onto the stack, `length` units of it; after a failure the units stay there until the
        parse is over. */
    method ParseStringToStack(text: Text, start: nat) returns (next: nat, length: nat)
      requires start <= |text| && error == NoError
      modifies this`stack, this`error, this`errorOffset
      ensures match DecodeString(flags, text, start, [])
        case Decoded(n, str) =>
          error == NoError && next == n && length == |str| + 1 && stack == old(stack) + Units(str + [0])
        case Rejected(code, offset) =>
          error == code && errorOffset == offset && |old(stack)| <= |stack| && stack[..|old(stack)|] == old(stack)
    {
      hide StepAt;
      next, length := start, 0;
      ghost var out: Text := [];
      assert stack == old(stack) + Units([]);
      while true
        invariant next <= |text| && error == NoError && length == |out| && stack == old(stack) + Units(out)
        invariant DecodeString(flags, text, next, out) == DecodeString(flags, text, start, [])
        decreases |text| - next
      {
        var step := StepAt(flags, text, next);
        match step
        case Emit(n, bytes) =>
          UnitsAppend(out, bytes);
          stack := stack + Units(bytes);
          out := out + bytes;
          length := length + |bytes|;
          next := n;
        case Close =>
          UnitsAppend(out, [0]);
          stack := stack + Units([0]);
          length := length + 1;
          next := next + 1;
          return;
        case Reject(code, offset) =>
          SetParseError(code, offset);
          return;
      }
    }

    lemma UnitsAppend(v: Text, w: Text)
      ensures Units(v) + Units(w) == Units(v + w)
    {
    }

    /** `StackStream::Pop`. */
    method PopUnits(length: nat, ghost below: seq<Cell>, ghost w: Text) returns (str: Text)
      requires stack == below + Units(w) && length == |w|
      modifies this`stack
      ensures stack == below && str == w
    {
      var n := |stack| - length;
      str := [];
      for k := 0 to length
        invariant str == w[..k]
      {
        assert stack[n + k] == Units(w)[k];
        str := str + [stack[n + k].c];
      }
      stack := stack[..n];
    }

    method ParseString(input: StringStream, h: Handler, isKey: bool)
      requires Ready(input) && input.pos < |input.text|
      modifies this`stack, this`error, this`errorOffset, input, h
      ensures Result(input, h) == ReadString(EnvOf(h), input.text, old(input.pos), old(h.trace), isKey)
      ensures error == NoError ==> stack == old(stack)
    {
      var next, length := ParseStringToStack(input.text, input.pos + 1);
      if error != NoError {
        return;
      }
      ghost var decoded := DecodeString(flags, input.text, input.pos + 1, []).str;
      input.pos := next;
      var str := PopUnits(length, old(stack), decoded + [0]);
      str := str[..length - 1];
      var goOn := h.Call(if isKey then Key(str) else String(str));
      if !goOn {
        SetParseError(Termination, input.pos);
      }
    }

    method ParseNumber(input: StringStream, h: Handler)
      requires Ready(input)
      modifies this`error, this`errorOffset, input, h
      ensures Result(input, h) == Grammar.ReadNumber(EnvOf(h), input.text, old(input.pos), old(h.trace))
    {
      hide Numbers.ReadNumber;
      var startOffset := input.pos;
      var r := Numbers.ParseNumber(input.text, input.pos, tooBig);
      match r
      case NumberBad(code, offset) =>
        SetParseError(code, offset);
      case NumberRead(next, event) =>
        input.pos := next;
        var goOn := h.Call(event);
        if !goOn {
          SetParseError(Termination, startOffset);
        }
    }

    // ----- recursive descent -----

    method ParseValue(input: StringStream, h: Handler)
      requires Ready(input)
      modifies this`stack, this`error, this`errorOffset, input, h
      ensures Result(input, h) == ReadValue(EnvOf(h), input.text, old(input.pos), old(h.trace))
      ensures error == NoError ==> stack == old(stack)
      decreases |input.text| - input.pos, 1
    {
      hide ReadArray, ReadObject, ReadWord, Grammar.ReadNumber, ReadString;
      var c := Peek(input.text, input.pos);
      if c == 'n' as int {
        ParseNull(input, h);
      } else if c == 't' as int {
        ParseTrue(input, h);
      } else if c == 'f' as int {
        ParseFalse(input, h);
      } else if c == '"' as int {
        ParseString(input, h, false);
      } else if c == '{' as int {
        ParseObject(input, h);
      } else if c == '[' as int {
        ParseArray(input, h);
      } else {
        ParseNumber(input, h);
      }
    }

    method ParseArray(input: StringStream, h: Handler)
      requires Ready(input) && Peek(input.text, input.pos) == '[' as int
      modifies this`stack, this`error, this`errorOffset, input, h
      ensures Result(input, h) == ReadArray(EnvOf(h), input.text, old(input.pos), old(h.trace))
      ensures error == NoError ==> stack == old(stack)
      decreases |input.text| - input.pos, 0
    {
      hide ReadValue, Skip, Elements;
      ghost var env, s := EnvOf(h), input.text;
      ghost var target := ReadArray(env, s, input.pos, h.trace);
      input.Take();
      var goOn := h.Call(StartArray);
      if !goOn {
        SetParseError(Termination, input.pos);
        return;
      }
      SkipWhitespaceAndComments(input);
      if error != NoError {
        return;
      }
      var empty := input.Consume(']' as int);
      if empty {
        goOn := h.Call(EndArray(0));
        if !goOn {
          SetParseError(Termination, input.pos);
        }
        return;
      }
      ParseElements(input, h);
    }

    /** The loop of `ParseArray`, the cursor on the first element. */
    method ParseElements(input: StringStream, h: Handler)
      requires Ready(input)
      modifies this`stack, this`error, this`errorOffset, input, h
      ensures Result(input, h) == Elements(EnvOf(h), input.text, old(input.pos), old(h.trace), 0)
      ensures error == NoError ==> stack == old(stack)
      decreases |input.text| - input.pos, 2
    {
      hide ReadValue, ElementTail, Skip;
      ghost var env, s := EnvOf(h), input.text;
      ghost var target := Elements(env, s, input.pos, h.trace, 0);
      var elementCount := 0;
      while true
        invariant Ready(input) && stack == old(stack) && old(input.pos) <= input.pos
        invariant Elements(env, s, input.pos, h.trace, elementCount) == target
        decreases |input.text| - input.pos
      {
        ParseValue(input, h);
        if error != NoError {
          return;
        }
        assert ElementTail(env, s, input.pos, h.trace, elementCount) == target;
        var more := NextElement(input, h, Inc(elementCount), elementCount);
        if !more {
          return;
        }
        elementCount := Inc(elementCount);
      }
    }

    /** What follows an element: a comma, with more to come unless it trails, or the closing bracket. */
    method NextElement(input: StringStream, h: Handler, elementCount: nat, ghost before: nat) returns (more: bool)
      requires Ready(input) && elementCount == Inc(before)
      modifies this`error, this`errorOffset, input, h
      ensures var target := ElementTail(EnvOf(h), input.text, old(input.pos), old(h.trace), before);
        if more then Ready(input) && old(input.pos) <= input.pos && Elements(EnvOf(h), input.text, input.pos, h.trace, elementCount) == target
        else Result(input, h) == target
    {
      hide ReadValue, Skip, Elements;
      ghost var env, s := EnvOf(h), input.text;
      ghost var target := ElementTail(env, s, input.pos, h.trace, before);
      more := false;
      SkipWhitespaceAndComments(input);
      if error != NoError {
        return;
      }
      assert ElementNext(env, s, input.pos, h.trace, elementCount) == target;
      var comma := input.Consume(',' as int);
      if comma {
        SkipWhitespaceAndComments(input);
        if error != NoError {
          return;
        }
      } else {
        var close := input.Consume(']' as int);
        if close {
          var goOn := h.Call(EndArray(elementCount));
          if !goOn {
            SetParseError(Termination, input.pos);
          }
        } else {
          SetParseError(ArrayMissCommaOrSquareBracket, input.pos);
        }
        return;
      }
      assert AfterComma(env, s, input.pos, h.trace, elementCount) == target;
      if flags.trailingCommas && Peek(input.text, input.pos) == ']' as int {
        var goOn := h.Call(EndArray(elementCount));
        if !goOn {
          SetParseError(Termination, input.pos);
          return;
        }
        input.Take();
        return;
      }
      more := true;
    }

    method ParseObject(input: StringStream, h: Handler)
      requires Ready(input) && Peek(input.text, input.pos) == '{' as int
      modifies this`stack, this`error, this`errorOffset, input, h
      ensures Result(input, h) == ReadObject(EnvOf(h), input.text, old(input.pos), old(h.trace))
      ensures error == NoError ==> stack == old(stack)
      decreases |input.text| - input.pos, 0
    {
      hide ReadValue, Skip, ReadString, Members;
      ghost var env, s := EnvOf(h), input.text;
      ghost var target := ReadObject(env, s, input.pos, h.trace);
      input.Take();
      var goOn := h.Call(StartObject);
      if !goOn {
        SetParseError(Termination, input.pos);
        return;
      }
      SkipWhitespaceAndComments(input);
      if error != NoError {
        return;
      }
      var empty := input.Consume('}' as int);
      if empty {
        goOn := h.Call(EndObject(0));
        if !goOn {
          SetParseError(Termination, input.pos);
        }
        return;
      }
      ParseMembers(input, h);
    }

    /** A member name, the colon and the value. */
    method ParseMember(input: StringStream, h: Handler, ghost count: nat)
      requires Ready(input)
      modifies this`stack, this`error, this`errorOffset, input, h
      ensures error == NoError ==> Ready(input) && stack == old(stack) && old(input.pos) < input.pos
      ensures Members(EnvOf(h), input.text, old(input.pos), old(h.trace), count)
           == if error == NoError then MemberTail(EnvOf(h), input.text, input.pos, h.trace, count) else Result(input, h)
      decreases |input.text| - input.pos, 2
    {
      hide ReadValue, Skip, ReadString, MemberTail;
      if Peek(input.text, input.pos) != '"' as int {
        SetParseError(ObjectMissName, input.pos);
        return;
      }
      ParseString(input, h, true);
      if error != NoError {
        return;
      }
      SkipWhitespaceAndComments(input);
      if error != NoError {
        return;
      }
      ghost var target := MemberColon(EnvOf(h), input.text, input.pos, h.trace, count);
      var colon := input.Consume(':' as int);
      if !colon {
        SetParseError(ObjectMissColon, input.pos);
        return;
      }
      SkipWhitespaceAndComments(input);
      if error != NoError {
        return;
      }
      assert target == ValueOfMember(EnvOf(h), input.text, input.pos, h.trace, count);
      ParseValue(input, h);
    }

    /** The loop of `ParseObject`, the cursor on the first member. */
    method ParseMembers(input: StringStream, h: Handler)
      requires Ready(input)
      modifies this`stack, this`error, this`errorOffset, input, h
      ensures Result(input, h) == Members(EnvOf(h), input.text, old(input.pos), old(h.trace), 0)
      ensures error == NoError ==> stack == old(stack)
      decreases |input.text| - input.pos, 3
    {
      hide ReadValue, Skip, ReadString, ReadArray, ArrayBody, ReadObject, ObjectBody, Members, MemberColon, ValueOfMember,
           Elements, ElementTail, ElementNext, AfterComma;
      ghost var env, s := EnvOf(h), input.text;
      ghost var target := Members(env, s, input.pos, h.trace, 0);
      var memberCount := 0;
      while true
        invariant Ready(input) && stack == old(stack) && old(input.pos) <= input.pos
        invariant Members(env, s, input.pos, h.trace, memberCount) == target
        decreases |input.text| - input.pos
      {
        ParseMember(input, h, memberCount);
        if error != NoError {
          return;
        }
        SkipWhitespaceAndComments(input);
        if error != NoError {
          return;
        }
        memberCount := Inc(memberCount);
        assert MemberNext(env, s, input.pos, h.trace, memberCount) == target;
        var c := Peek(input.text, input.pos);
        if c == ',' as int {
          input.Take();
          SkipWhitespaceAndComments(input);
          if error != NoError {
            return;
          }
        } else if c == '}' as int {
          input.Take();
          var goOn := h.Call(EndObject(memberCount));
          if !goOn {
            SetParseError(Termination, input.pos);
          }
          return;
        } else {
          SetParseError(ObjectMissCommaOrCurlyBracket, input.pos);
          return;
        }
        assert AfterMemberComma(env, s, input.pos, h.trace, memberCount) == target;
        if flags.trailingCommas && Peek(input.text, input.pos) == '}' as int {
          var goOn := h.Call(EndObject(memberCount));
          if !goOn {
            SetParseError(Termination, input.pos);
            return;
          }
          input.Take();
          return;
        }
      }
    }

    /** `Parse` without the iterative flag. */
    method Parse(input: StringStream, h: Handler)
      requires input.pos <= |input.text|
      modifies this`stack, this`error, this`errorOffset, input, h
      ensures Result(input, h) == DocumentFrom(EnvOf(h), input.text, old(input.pos), old(h.trace))
      ensures error == NoError ==> input.pos <= |input.text|
      ensures stack == []
    {
      hide Skip, ReadValue;
      SetParseError(NoError, 0);
      SkipWhitespaceAndComments(input);
      if error != NoError {
      } else if Peek(input.text, input.pos) == 0 {
        SetParseError(DocumentEmpty, input.pos);
      } else {
        ParseValue(input, h);
        if error == NoError && !flags.stopWhenDone {
          SkipWhitespaceAndComments(input);
          if error == NoError && Peek(input.text, input.pos) != 0 {
            SetParseError(DocumentRootNotSingular, input.pos);
          }
        }
      }
      stack := [];
    }

    // ----- the iterative parser -----

    /** `HandleError`: an error already set is kept. */
    method HandleError(state: Automaton.State, input: StringStream)
      requires Automaton.Listed(state)
      modifies this`error, this`errorOffset
      ensures if old(error) != NoError then error == old(error) && errorOffset == old(errorOffset)
              else error == Automaton.ErrorIn(state) && errorOffset == input.pos
    {
      if error == NoError {
        SetParseError(Automaton.ErrorIn(state), input.pos);
      }
    }

    /** What `Transit` leaves behind, as the machine's move. */
    ghost predicate Moved(m: Automaton.Move, d: Automaton.State, input: StringStream, h: Handler)
      reads this, input, h
    {
      match m
      case Go(next) =>
        && Ready(input) && d == next.state && stack == Cells(next.frames)
        && input.pos == next.pos && h.trace == next.trace
      case Halt(code, offset, trace) =>
        && d == Automaton.Error && h.trace == trace && error == code && (code != NoError ==> errorOffset == offset)
    }

    /** The two bracket-opening cases of `Transit`. */
    method Open(input: StringStream, h: Handler, src: Automaton.State, dst: Automaton.State,
                ghost frames: seq<Automaton.Frame>) returns (d: Automaton.State)
      requires Ready(input) && input.pos < |input.text| && stack == Cells(frames) && Automaton.WellStacked(src, frames)
      requires dst == Automaton.Predict(src, Automaton.Tokenize(Peek(input.text, input.pos)))
      requires dst == Automaton.ObjectInitial || dst == Automaton.ArrayInitial
      modifies this`stack, this`error, this`errorOffset, input, h
      ensures Moved(Automaton.Transit(EnvOf(h), input.text, Automaton.Config(src, frames, old(input.pos), old(h.trace)), dst),
                    d, input, h)
      ensures d == Automaton.Error ==> input.pos == old(input.pos)
    {
      hide Cells, Automaton.WellStacked, Automaton.Transit, Automaton.Predict, Automaton.ReturnState;
      Automaton.OpeningMove(EnvOf(h), input.text, Automaton.Config(src, frames, input.pos, h.trace), dst);
      var n := Automaton.ReturnState(src);
      stack := stack + [Return(n)];
      stack := stack + [Count(0)];
      CellsPush(frames, Automaton.Frame(n, 0));
      var goOn := h.Call(if dst == Automaton.ObjectInitial then StartObject else StartArray);
      if !goOn {
        SetParseError(Termination, input.pos);
        return Automaton.Error;
      }
      input.Take();
      d := dst;
    }

    /** The two pops of a closing bracket: the count, then the state to return to. */
    method PopFrame(ghost frames: seq<Automaton.Frame>) returns (count: nat, ret: Automaton.State)
      requires frames != [] && stack == Cells(frames)
      modifies this`stack
      ensures count == Automaton.Top(frames).count && ret == Automaton.Top(frames).ret
      ensures stack == Cells(Automaton.Below(frames))
    {
      hide Cells;
      CellsTop(frames);
      count := stack[|stack| - 1].n;
      stack := stack[..|stack| - 1];
      ret := stack[|stack| - 1].state;
      stack := stack[..|stack| - 1];
    }

    /** The two bracket-closing cases of `Transit`. */
    method Close(input: StringStream, h: Handler, src: Automaton.State, dst: Automaton.State,
                 ghost frames: seq<Automaton.Frame>) returns (d: Automaton.State)
      requires Ready(input) && input.pos < |input.text| && stack == Cells(frames) && Automaton.WellStacked(src, frames)
      requires dst == Automaton.Predict(src, Automaton.Tokenize(Peek(input.text, input.pos)))
      requires dst == Automaton.ObjectFinish || dst == Automaton.ArrayFinish
      modifies this`stack, this`error, this`errorOffset, input, h
      ensures Moved(Automaton.Transit(EnvOf(h), input.text, Automaton.Config(src, frames, old(input.pos), old(h.trace)), dst),
                    d, input, h)
      ensures d == Automaton.Error ==> input.pos == old(input.pos)
    {
      hide Cells, Automaton.Transit, Automaton.Predict, Automaton.WellStacked;
      Automaton.ClosingMove(EnvOf(h), input.text, Automaton.Config(src, frames, input.pos, h.trace), dst);
      if !flags.trailingCommas && (src == Automaton.MemberDelimiter || src == Automaton.ElementDelimiter) {
        SetParseError(if dst == Automaton.ObjectFinish then ObjectMissName else ValueInvalid, input.pos);
        return Automaton.Error;
      }
      var c, n := PopFrame(frames);
      if src == Automaton.MemberValue || src == Automaton.Element {
        c := Inc(c);
      }
      if n == Automaton.Start {
        n := Automaton.Finish;
      }
      var goOn := h.Call(if dst == Automaton.ObjectFinish then EndObject(c) else EndArray(c));
      if !goOn {
        SetParseError(Termination, input.pos);
        return Automaton.Error;
      }
      input.Take();
      d := n;
    }

    method Transit(input: StringStream, h: Handler, src: Automaton.State, dst: Automaton.State,
                   ghost frames: seq<Automaton.Frame>) returns (d: Automaton.State)
      requires Ready(input) && input.pos < |input.text| && stack == Cells(frames) && Automaton.WellStacked(src, frames)
      requires dst == Automaton.Predict(src, Automaton.Tokenize(Peek(input.text, input.pos)))
      modifies this`stack, this`error, this`errorOffset, input, h
      ensures Moved(Automaton.Transit(EnvOf(h), input.text, Automaton.Config(src, frames, old(input.pos), old(h.trace)), dst),
                    d, input, h)
      ensures d == Automaton.Error && error == NoError ==> input.pos == old(input.pos)
    {
      hide ReadValue, ReadString, Cells, Automaton.Transit, Automaton.Predict, Automaton.WellStacked;
      ghost var env, s, c := EnvOf(h), input.text, Automaton.Config(src, frames, input.pos, h.trace);
      match dst
      case Error =>
        Automaton.ErrorMove(env, s, c);
        d := dst;
      case ObjectInitial =>
        d := Open(input, h, src, dst, frames);
      case ArrayInitial =>
        d := Open(input, h, src, dst, frames);
      case MemberKey =>
        Automaton.ReadingMove(env, s, c, dst);
        ParseString(input, h, true);
        d := if error != NoError then Automaton.Error else dst;
      case KeyValueDelimiter =>
        Automaton.PunctuationMove(env, s, c, dst);
        input.Take();
        d := dst;
      case MemberValue =>
        Automaton.ReadingMove(env, s, c, dst);
        ParseValue(input, h);
        d := if error != NoError then Automaton.Error else dst;
      case Element =>
        Automaton.ReadingMove(env, s, c, dst);
        ParseValue(input, h);
        d := if error != NoError then Automaton.Error else dst;
      case MemberDelimiter =>
        Automaton.PunctuationMove(env, s, c, dst);
        input.Take();
        BumpTop(frames);
        d := dst;
      case ElementDelimiter =>
        Automaton.PunctuationMove(env, s, c, dst);
        input.Take();
        BumpTop(frames);
        d := dst;
      case ObjectFinish =>
        d := Close(input, h, src, dst, frames);
      case ArrayFinish =>
        d := Close(input, h, src, dst, frames);
      case SingleValue =>
        Automaton.ReadingMove(env, s, c, dst);
        ParseValue(input, h);
        d := if error != NoError then Automaton.Error else Automaton.Finish;
    }

    /** `*Top<SizeType>() = *Top<SizeType>() + 1`. */
    method BumpTop(ghost frames: seq<Automaton.Frame>)
      requires frames != [] && stack == Cells(frames)
      modifies this`stack
      ensures stack == Cells(Automaton.Below(frames)
                             + [Automaton.Frame(Automaton.Top(frames).ret, Inc(Automaton.Top(frames).count))])
    {
      CellsTop(frames);
      CellsPush(Automaton.Below(frames), Automaton.Frame(Automaton.Top(frames).ret, Inc(Automaton.Top(frames).count)));
      stack := stack[|stack| - 1 := Count(Inc(stack[|stack| - 1].n))];
    }

    /** `IterativeParse`. */
    method IterativeParse(input: StringStream, h: Handler)
      requires input.pos <= |input.text| && stack == []
      modifies this`stack, this`error, this`errorOffset, input, h
      ensures Result(input, h) == Automaton.IterativeDocumentFrom(EnvOf(h), input.text, old(input.pos), old(h.trace))
      ensures stack == [] && (error == NoError ==> input.pos <= |input.text|)
    {
      hide Skip, Automaton.Transit, Automaton.Predict, Automaton.Tokenize, Moved, IsSpace;
      SetParseError(NoError, 0);
      var state := Automaton.Start;
      ghost var env, s := EnvOf(h), input.text;
      ghost var frames: seq<Automaton.Frame> := [];
      SkipWhitespaceAndComments(input);
      if error != NoError {
        stack := [];
        return;
      }
      while Peek(input.text, input.pos) != 0
        invariant Ready(input) && stack == Cells(frames) && Automaton.WellStacked(state, frames)
        invariant Automaton.Run(env, s, Automaton.Config(state, frames, input.pos, h.trace))
               == Automaton.IterativeDocumentFrom(env, s, old(input.pos), old(h.trace))
        decreases |input.text| - input.pos
      {
        ghost var c := Automaton.Config(state, frames, input.pos, h.trace);
        ghost var move := Automaton.Step(env, s, c);
        var n := Automaton.Predict(state, Automaton.Tokenize(Peek(input.text, input.pos)));
        var d := Transit(input, h, state, n, frames);
        MovedHow(move, d, input, h);
        if d == Automaton.Error {
          NeverError(env, s, c);
          HandleError(state, input);
          stack := [];
          return;
        }
        Automaton.StepKeepsStack(env, s, c);
        state := d;
        frames := move.next.frames;
        if flags.stopWhenDone && state == Automaton.Finish {
          stack := [];
          return;
        }
        SkipWhitespaceAndComments(input);
        if error != NoError {
          stack := [];
          return;
        }
      }
      if state != Automaton.Finish {
        HandleError(state, input);
      }
      stack := [];
    }

    lemma MovedHow(m: Automaton.Move, d: Automaton.State, input: StringStream, h: Handler)
      requires Moved(m, d, input, h)
      ensures m.Go? ==> Ready(input) && d == m.next.state && stack == Cells(m.next.frames)
                        && input.pos == m.next.pos && h.trace == m.next.trace
      ensures m.Halt? ==> d == Automaton.Error && h.trace == m.trace && error == m.code
                          && (m.code != NoError ==> errorOffset == m.offset)
    {
    }

    lemma NeverError(env: Env, s: Text, c: Automaton.Config)
      requires c.pos < |s| && Automaton.WellStacked(c.state, c.frames)
      ensures Automaton.Step(env, s, c).Go? ==> !Automaton.Step(env, s, c).next.state.Error?
    {
      if Automaton.Step(env, s, c).Go? {
        Automaton.StepKeepsStack(env, s, c);
      }
    }
  }

  /** The frames of the iterative parser as they lie on the stack: return state, then count. */
  ghost function Cells(frames: seq<Automaton.Frame>): (cells: seq<Cell>)
    ensures |cells| == 2 * |frames|
  {
    if frames == [] then []
    else Cells(Automaton.Below(frames)) + [Return(Automaton.Top(frames).ret), Count(Automaton.Top(frames).count)]
  }

  lemma CellsPush(frames: seq<Automaton.Frame>, f: Automaton.Frame)
    ensures Cells(frames + [f]) == Cells(frames) + [Return(f.ret), Count(f.count)]
  {
    assert Automaton.Below(frames + [f]) == frames;
  }

  lemma CellsTop(frames: seq<Automaton.Frame>)
    requires frames != []
    ensures var cells := Cells(frames);
      && |cells| >= 2
      && cells[|cells| - 1] == Count(Automaton.Top(frames).count)
      && cells[|cells| - 2] == Return(Automaton.Top(frames).ret)
      && cells[..|cells| - 2] == Cells(Automaton.Below(frames))
  {
  }
}
