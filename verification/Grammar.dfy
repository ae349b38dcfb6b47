/** What the recursive-descent reader computes: for every text, handler and flag setting, the events raised and
    either the position reached or the error code and offset. The reader's methods and the table-driven parser
    are both proved against these functions. */
module Grammar {
  import opened Bytes
  import opened Events
  import opened StringReading
  import Numbers

  /** Flags, the handler as a predicate on the events so far (false stops the parse), and the double overflow test. */
  datatype Env = Env(flags: Flags, keep: seq<Event> -> bool, tooBig: Text -> bool)

  datatype Outcome =
    | Ok(pos: nat, trace: seq<Event>)
    | Fail(code: ErrorCode, offset: nat, trace: seq<Event>)

  /** `++count` on a 32-bit `SizeType`. */
  function Inc(count: nat): (r: nat) { (count + 1) % 0x1_0000_0000 }

  /** Calls the handler: on refusal the parse terminates with the given offset. */
  function Raise(env: Env, trace: seq<Event>, e: Event, pos: nat, offset: nat): (r: Outcome) {
    if env.keep(trace + [e]) then Ok(pos, trace + [e]) else Fail(Termination, offset, trace + [e])
  }

  // ----- whitespace and comments -----

  predicate IsSpace(c: Byte) { c == ' ' as int || c == '\n' as int || c == '\r' as int || c == '\t' as int }

  function SkipSpaces(s: Text, i: nat): (j: nat)
    requires i <= |s|
    ensures i <= j <= |s| && !IsSpace(Peek(s, j))
    decreases |s| - i
  {
    if IsSpace(Peek(s, i)) then SkipSpaces(s, i + 1) else i
  }

  datatype Skipped = To(pos: nat) | Broken(offset: nat)

  /** Inside a block comment. */
  function BlockEnd(s: Text, i: nat): (r: Skipped)
    requires i <= |s|
    ensures r.To? ==> i < r.pos <= |s|
    decreases |s| - i
  {
    if Peek(s, i) == 0 then Broken(i)
    else if Peek(s, i) == '*' as int && Peek(s, i + 1) == '/' as int then To(i + 2)
    else BlockEnd(s, i + 1)
  }

  /** Inside a line comment. */
  function LineEnd(s: Text, i: nat): (j: nat)
    requires i <= |s|
    ensures i <= j <= |s|
    decreases |s| - i
  {
    if Peek(s, i) == 0 then i
    else if Peek(s, i) == '\n' as int then i + 1
    else LineEnd(s, i + 1)
  }

  /** One comment, the cursor on its first slash. */
  function CommentEnd(s: Text, j: nat): (r: Skipped)
    requires j < |s| && s[j] == '/' as int
    ensures r.To? ==> j < r.pos <= |s|
  {
    if Peek(s, j + 1) == '*' as int then BlockEnd(s, j + 2)
    else if Peek(s, j + 1) == '/' as int then To(LineEnd(s, j + 2))
    else Broken(j + 1)
  }

  /** `SkipWhitespaceAndComments`. */
  function Skip(f: Flags, s: Text, i: nat): (r: Skipped)
    requires i <= |s|
    ensures r.To? ==> i <= r.pos <= |s| && !IsSpace(Peek(s, r.pos))
    decreases |s| - i
  {
    var j := SkipSpaces(s, i);
    if !f.comments || Peek(s, j) != '/' as int then To(j)
    else match CommentEnd(s, j)
      case Broken(offset) => Broken(offset)
      case To(k) => Skip(f, s, k)
  }

  function SkipFail(offset: nat, trace: seq<Event>): (r: Outcome) { Fail(UnspecificSyntaxError, offset, trace) }

  // ----- values without structure -----

  /** How many bytes of `w` match at `i`. */
  function Matched(s: Text, i: nat, w: Text): (n: nat)
    requires 0 !in w
    ensures n <= |w| && (n > 0 ==> i + n <= |s|)
    decreases |w|
  {
    if w == [] || Peek(s, i) != w[0] then 0 else 1 + Matched(s, i + 1, w[1..])
  }

  const ULL: Text := ['u' as int, 'l' as int, 'l' as int]
  const RUE: Text := ['r' as int, 'u' as int, 'e' as int]
  const ALSE: Text := ['a' as int, 'l' as int, 's' as int, 'e' as int]

  /** `ParseNull`, `ParseTrue` and `ParseFalse`: the first letter was seen, the others are consumed one by one. */
  function ReadWord(env: Env, s: Text, i: nat, trace: seq<Event>, rest: Text, e: Event): (r: Outcome)
    requires i < |s| && 0 !in rest
    ensures r.Ok? ==> i < r.pos <= |s|
    ensures r.Fail? ==> r.code != NoError
  {
    var n := Matched(s, i + 1, rest);
    if n == |rest| then Raise(env, trace, e, i + 1 + n, i + 1 + n) else Fail(ValueInvalid, i + 1 + n, trace)
  }

  function ReadString(env: Env, s: Text, i: nat, trace: seq<Event>, isKey: bool): (r: Outcome)
    requires i < |s|
    ensures r.Ok? ==> i < r.pos <= |s|
    ensures r.Fail? ==> r.code != NoError
  {
    match DecodeString(env.flags, s, i + 1, [])
    case Decoded(next, str) => Raise(env, trace, if isKey then Key(str) else String(str), next, next)
    case Rejected(code, offset) => Fail(code, offset, trace)
  }

  function ReadNumber(env: Env, s: Text, i: nat, trace: seq<Event>): (r: Outcome)
    requires i <= |s|
    ensures r.Ok? ==> i < r.pos <= |s|
    ensures r.Fail? ==> r.code != NoError
  {
    match Numbers.ReadNumber(s, i, env.tooBig)
    case NumberRead(next, event) => Raise(env, trace, event, next, i)
    case NumberBad(code, offset) => Fail(code, offset, trace)
  }

  function ReadLeaf(env: Env, s: Text, i: nat, trace: seq<Event>): (r: Outcome)
    requires i <= |s|
    ensures r.Ok? ==> i < r.pos <= |s|
    ensures r.Fail? ==> r.code != NoError
  {
    var c := Peek(s, i);
    if c == 'n' as int then ReadWord(env, s, i, trace, ULL, Null)
    else if c == 't' as int then ReadWord(env, s, i, trace, RUE, Bool(true))
    else if c == 'f' as int then ReadWord(env, s, i, trace, ALSE, Bool(false))
    else if c == '"' as int then ReadString(env, s, i, trace, false)
    else ReadNumber(env, s, i, trace)
  }

  // ----- recursive descent -----

  /** `ParseValue`. */
  function ReadValue(env: Env, s: Text, i: nat, trace: seq<Event>): (r: Outcome)
    requires i <= |s|
    ensures r.Ok? ==> i < r.pos <= |s|
    ensures r.Fail? ==> r.code != NoError
    decreases |s| - i, 1
  {
    if Peek(s, i) == '{' as int then ReadObject(env, s, i, trace)
    else if Peek(s, i) == '[' as int then ReadArray(env, s, i, trace)
    else ReadLeaf(env, s, i, trace)
  }

  /** `ParseArray`, the cursor on the bracket. */
  function ReadArray(env: Env, s: Text, i: nat, trace: seq<Event>): (r: Outcome)
    requires i < |s|
    ensures r.Ok? ==> i < r.pos <= |s|
    ensures r.Fail? ==> r.code != NoError
    decreases |s| - i, 0
  {
    match Raise(env, trace, StartArray, i + 1, i + 1)
    case Fail(code, offset, t) => Fail(code, offset, t)
    case Ok(p, t) =>
      match Skip(env.flags, s, p)
      case Broken(offset) => SkipFail(offset, t)
      case To(q) => ArrayBody(env, s, q, t)
  }

  /** After the bracket and whitespace. */
  function ArrayBody(env: Env, s: Text, i: nat, trace: seq<Event>): (r: Outcome)
    requires i <= |s|
    ensures r.Ok? ==> i < r.pos <= |s|
    ensures r.Fail? ==> r.code != NoError
    decreases |s| - i, 3
  {
    if Peek(s, i) == ']' as int then Raise(env, trace, EndArray(0), i + 1, i + 1)
    else Elements(env, s, i, trace, 0)
  }

  /** At an element, `count` of them read before. */
  function Elements(env: Env, s: Text, i: nat, trace: seq<Event>, count: nat): (r: Outcome)
    requires i <= |s|
    ensures r.Ok? ==> i < r.pos <= |s|
    ensures r.Fail? ==> r.code != NoError
    decreases |s| - i, 2
  {
    match ReadValue(env, s, i, trace)
    case Fail(code, offset, t) => Fail(code, offset, t)
    case Ok(p, t) => ElementTail(env, s, p, t, count)
  }

  /** Just after an element. */
  function ElementTail(env: Env, s: Text, i: nat, trace: seq<Event>, count: nat): (r: Outcome)
    requires i <= |s|
    ensures r.Ok? ==> i < r.pos <= |s|
    ensures r.Fail? ==> r.code != NoError
    decreases |s| - i, 1
  {
    match Skip(env.flags, s, i)
    case Broken(offset) => SkipFail(offset, trace)
    case To(q) => ElementNext(env, s, q, trace, Inc(count))
  }

  /** At the comma or the closing bracket. */
  function ElementNext(env: Env, s: Text, i: nat, trace: seq<Event>, count: nat): (r: Outcome)
    requires i <= |s|
    ensures r.Ok? ==> i < r.pos <= |s|
    ensures r.Fail? ==> r.code != NoError
    decreases |s| - i, 0
  {
    if Peek(s, i) == ',' as int then
      match Skip(env.flags, s, i + 1)
      case Broken(offset) => SkipFail(offset, trace)
      case To(q) => AfterComma(env, s, q, trace, count)
    else if Peek(s, i) == ']' as int then Raise(env, trace, EndArray(count), i + 1, i + 1)
    else Fail(ArrayMissCommaOrSquareBracket, i, trace)
  }

  /** After a comma and whitespace: a trailing comma closes the array when the flag allows it. */
  function AfterComma(env: Env, s: Text, i: nat, trace: seq<Event>, count: nat): (r: Outcome)
    requires i <= |s|
    ensures r.Ok? ==> i < r.pos <= |s|
    ensures r.Fail? ==> r.code != NoError
    decreases |s| - i, 3
  {
    if env.flags.trailingCommas && Peek(s, i) == ']' as int then Raise(env, trace, EndArray(count), i + 1, i)
    else Elements(env, s, i, trace, count)
  }

  /** `ParseObject`, the cursor on the brace. */
  function ReadObject(env: Env, s: Text, i: nat, trace: seq<Event>): (r: Outcome)
    requires i < |s|
    ensures r.Ok? ==> i < r.pos <= |s|
    ensures r.Fail? ==> r.code != NoError
    decreases |s| - i, 0
  {
    match Raise(env, trace, StartObject, i + 1, i + 1)
    case Fail(code, offset, t) => Fail(code, offset, t)
    case Ok(p, t) =>
      match Skip(env.flags, s, p)
      case Broken(offset) => SkipFail(offset, t)
      case To(q) => ObjectBody(env, s, q, t)
  }

  function ObjectBody(env: Env, s: Text, i: nat, trace: seq<Event>): (r: Outcome)
    requires i <= |s|
    ensures r.Ok? ==> i < r.pos <= |s|
    ensures r.Fail? ==> r.code != NoError
    decreases |s| - i, 3
  {
    if Peek(s, i) == '}' as int then Raise(env, trace, EndObject(0), i + 1, i + 1)
    else Members(env, s, i, trace, 0)
  }

  /** At a member name. */
  function Members(env: Env, s: Text, i: nat, trace: seq<Event>, count: nat): (r: Outcome)
    requires i <= |s|
    ensures r.Ok? ==> i < r.pos <= |s|
    ensures r.Fail? ==> r.code != NoError
    decreases |s| - i, 2
  {
    if Peek(s, i) != '"' as int then Fail(ObjectMissName, i, trace)
    else match ReadString(env, s, i, trace, true)
      case Fail(code, offset, t) => Fail(code, offset, t)
      case Ok(p, t) =>
        match Skip(env.flags, s, p)
        case Broken(offset) => SkipFail(offset, t)
        case To(q) => MemberColon(env, s, q, t, count)
  }

  /** After a name and whitespace. */
  function MemberColon(env: Env, s: Text, i: nat, trace: seq<Event>, count: nat): (r: Outcome)
    requires i <= |s|
    ensures r.Ok? ==> i < r.pos <= |s|
    ensures r.Fail? ==> r.code != NoError
    decreases |s| - i, 2
  {
    if Peek(s, i) != ':' as int then Fail(ObjectMissColon, i, trace)
    else match Skip(env.flags, s, i + 1)
      case Broken(offset) => SkipFail(offset, trace)
      case To(q) => ValueOfMember(env, s, q, trace, count)
  }

  function ValueOfMember(env: Env, s: Text, i: nat, trace: seq<Event>, count: nat): (r: Outcome)
    requires i <= |s|
    ensures r.Ok? ==> i < r.pos <= |s|
    ensures r.Fail? ==> r.code != NoError
    decreases |s| - i, 2
  {
    match ReadValue(env, s, i, trace)
    case Fail(code, offset, t) => Fail(code, offset, t)
    case Ok(p, t) => MemberTail(env, s, p, t, count)
  }

  /** Just after a member value. */
  function MemberTail(env: Env, s: Text, i: nat, trace: seq<Event>, count: nat): (r: Outcome)
    requires i <= |s|
    ensures r.Ok? ==> i < r.pos <= |s|
    ensures r.Fail? ==> r.code != NoError
    decreases |s| - i, 1
  {
    match Skip(env.flags, s, i)
    case Broken(offset) => SkipFail(offset, trace)
    case To(q) => MemberNext(env, s, q, trace, Inc(count))
  }

  function MemberNext(env: Env, s: Text, i: nat, trace: seq<Event>, count: nat): (r: Outcome)
    requires i <= |s|
    ensures r.Ok? ==> i < r.pos <= |s|
    ensures r.Fail? ==> r.code != NoError
    decreases |s| - i, 0
  {
    if Peek(s, i) == ',' as int then
      match Skip(env.flags, s, i + 1)
      case Broken(offset) => SkipFail(offset, trace)
      case To(q) => AfterMemberComma(env, s, q, trace, count)
    else if Peek(s, i) == '}' as int then Raise(env, trace, EndObject(count), i + 1, i + 1)
    else Fail(ObjectMissCommaOrCurlyBracket, i, trace)
  }

  function AfterMemberComma(env: Env, s: Text, i: nat, trace: seq<Event>, count: nat): (r: Outcome)
    requires i <= |s|
    ensures r.Ok? ==> i < r.pos <= |s|
    ensures r.Fail? ==> r.code != NoError
    decreases |s| - i, 3
  {
    if env.flags.trailingCommas && Peek(s, i) == '}' as int then Raise(env, trace, EndObject(count), i + 1, i)
    else Members(env, s, i, trace, count)
  }

  /** After the root value. */
  function RootTail(env: Env, s: Text, i: nat, trace: seq<Event>): (r: Outcome)
    requires i <= |s|
    ensures r.Ok? ==> i <= r.pos <= |s|
    ensures r.Fail? ==> r.code != NoError
  {
    if env.flags.stopWhenDone then Ok(i, trace)
    else match Skip(env.flags, s, i)
      case Broken(offset) => SkipFail(offset, trace)
      case To(q) => if Peek(s, q) != 0 then Fail(DocumentRootNotSingular, q, trace) else Ok(q, trace)
  }

  /** At the first non-blank byte of a text that is not empty. */
  function Root(env: Env, s: Text, i: nat, trace: seq<Event>): (r: Outcome)
    requires i <= |s|
    ensures r.Ok? ==> i < r.pos <= |s|
    ensures r.Fail? ==> r.code != NoError
  {
    match ReadValue(env, s, i, trace)
    case Fail(code, offset, t) => Fail(code, offset, t)
    case Ok(p, t) => RootTail(env, s, p, t)
  }

  /** `Parse` by recursive descent, from where an earlier parse may have left the stream, and with the events the
      handler has seen. */
  function DocumentFrom(env: Env, s: Text, i: nat, trace: seq<Event>): (r: Outcome)
    requires i <= |s|
    ensures r.Ok? ==> i < r.pos <= |s|
    ensures r.Fail? ==> r.code != NoError
  {
    match Skip(env.flags, s, i)
    case Broken(offset) => SkipFail(offset, trace)
    case To(q) => if Peek(s, q) == 0 then Fail(DocumentEmpty, q, trace) else Root(env, s, q, trace)
  }

  /** A whole text with a fresh handler. */
  function Document(env: Env, s: Text): (r: Outcome) { DocumentFrom(env, s, 0, []) }

  /** The handler refuses nothing, as that of a document. */
  ghost predicate KeepsAll(env: Env) { forall trace: seq<Event> :: env.keep(trace) }
}
