/** String literals as the writer prints them (`WriteString`), and the proof that the reader decodes them back. */
module StringWriting {
  import opened Bytes
  import opened Events
  import opened StringReading
  import Utf8

  /** UTF-8 output as is, UTF-8 output under `kWriteValidateEncodingFlag`, or ASCII output. */
  datatype Target = Plain | Validating | Ascii

  /** The `escape` table: 0 for a byte written as is, 'u' for the six-character form, else the escape letter. */
  function EscapeLetter(c: Byte): (r: Byte) {
    if c == 8 then 'b' as int
    else if c == 9 then 't' as int
    else if c == 10 then 'n' as int
    else if c == 12 then 'f' as int
    else if c == 13 then 'r' as int
    else if c < 0x20 then 'u' as int
    else if c == '"' as int || c == '\\' as int then c
    else 0
  }

  /** `\` and `u` and four upper-case digits of a 16-bit unit. */
  function UnitEscape(u: nat): (w: Text)
    requires u < 0x1_0000
  {
    ['\\' as int, 'u' as int, HexDigit(u / 0x1000 % 16), HexDigit(u / 0x100 % 16), HexDigit(u / 0x10 % 16), HexDigit(u % 16)]
  }

  /** One `\u` escape, or a surrogate pair of them above the basic plane. */
  function CodepointEscape(cp: nat): (w: Text)
    requires Utf8.IsScalar(cp)
  {
    if cp <= 0xD7FF || 0xE000 <= cp <= 0xFFFF then UnitEscape(cp)
    else
      var s := cp - 0x1_0000;
      UnitEscape(s / 0x400 + 0xD800) + UnitEscape(s % 0x400 + 0xDC00)
  }

  /** What one round of the writing loop appends, and where it goes on in the source; `None` when it fails. */
  datatype Chunk = Chunk(next: nat, bytes: Text)

  function EscapeByte(c: Byte): (w: Text)
    requires EscapeLetter(c) != 0
  {
    ['\\' as int, EscapeLetter(c)]
      + if EscapeLetter(c) == 'u' as int then ['0' as int, '0' as int, HexDigit(c / 16), HexDigit(c % 16)] else []
  }

  function WriteAt(target: Target, b: Text, j: nat): (r: Option<Chunk>)
    requires j < |b|
    ensures r.Some? ==> j < r.value.next <= |b|
  {
    var c := b[j];
    Utf8.DecodeIsGrammar(b, j);
    Utf8.ValidateIsGrammar(b, j);
    if target.Ascii? && c >= 0x80 then
      var d := Utf8.Decode(b, j);
      if !d.ok then None else
        Utf8.DecodeThenEncode(b, j);
        Some(Chunk(d.next, CodepointEscape(d.codepoint)))
    else if EscapeLetter(c) != 0 then Some(Chunk(j + 1, EscapeByte(c)))
    else if target.Validating? then
      var v := Utf8.Validate(b, j);
      if !v.ok then None else Some(Chunk(v.next, b[j..v.next]))
    else Some(Chunk(j + 1, [c]))
  }

  /** The body of the literal for `b[j..]`, without quotes. */
  function WriteBody(target: Target, b: Text, j: nat): (r: Option<Text>)
    requires j <= |b|
    decreases |b| - j
  {
    if j == |b| then Some([])
    else match WriteAt(target, b, j)
      case None => None
      case Some(chunk) => match WriteBody(target, b, chunk.next)
        case None => None
        case Some(rest) => Some(chunk.bytes + rest)
  }

  /** `WriteString`: the literal, or `None` where the source returns false. */
  function WriteString(target: Target, b: Text): (r: Option<Text>) {
    match WriteBody(target, b, 0)
    case None => None
    case Some(body) => Some([ '"' as int ] + body + [ '"' as int ])
  }

  /** The writing loop itself: appends to `os` until the source cursor reaches `length`. */
  method WriteStringTo(target: Target, b: Text, os: Text) returns (ok: bool, os': Text)
    ensures ok <==> WriteString(target, b).Some?
    ensures ok ==> os' == os + WriteString(target, b).value
  {
    hide WriteAt, WriteBody;
    os' := os + [ '"' as int ];
    var tell := 0;
    ghost var body: Text := [];
    while tell < |b|
      invariant tell <= |b| && os' == os + [ '"' as int ] + body
      invariant WriteBody(target, b, 0).Some? <==> WriteBody(target, b, tell).Some?
      invariant WriteBody(target, b, 0).Some? ==>
                  WriteBody(target, b, 0).value == body + WriteBody(target, b, tell).value
    {
      var chunk := WriteAt(target, b, tell);
      BodyStep(target, b, tell);
      if chunk.None? {
        return false, os';
      }
      os' := os' + chunk.value.bytes;
      body := body + chunk.value.bytes;
      tell := chunk.value.next;
    }
    BodyStep(target, b, tell);
    assert body + [] == body;
    os' := os' + [ '"' as int ];
    ok := true;
  }

  lemma BodyStep(target: Target, b: Text, j: nat)
    requires j <= |b|
    ensures j == |b| ==> WriteBody(target, b, j) == Some([])
    ensures j < |b| && WriteAt(target, b, j).None? ==> WriteBody(target, b, j).None?
    ensures j < |b| && WriteAt(target, b, j).Some? ==>
      var chunk := WriteAt(target, b, j).value;
      match WriteBody(target, b, chunk.next)
      case None => WriteBody(target, b, j).None?
      case Some(rest) => WriteBody(target, b, j) == Some(chunk.bytes + rest)
  {
    hide WriteAt;
  }

  // ----- when writing succeeds -----

  lemma {:induction false} SucceedsOnWellFormed(target: Target, b: Text, j: nat)
    requires j <= |b|
    ensures target.Plain? || Utf8.WellFormed(b, j) ==> WriteBody(target, b, j).Some?
    ensures !target.Plain? && WriteBody(target, b, j).Some? ==> Utf8.WellFormed(b, j)
    decreases |b| - j
  {
    if j < |b| {
      WriteAtIsGrammar(target, b, j);
      if WriteAt(target, b, j).Some? {
        SucceedsOnWellFormed(target, b, WriteAt(target, b, j).value.next);
      }
    }
  }

  /** Outside the plain target each round consumes exactly one UTF8-char. */
  lemma WriteAtIsGrammar(target: Target, b: Text, j: nat)
    requires j < |b|
    ensures !target.Plain? ==> (WriteAt(target, b, j).Some? <==> Utf8.CharLength(b, j) > 0)
    ensures !target.Plain? && WriteAt(target, b, j).Some? ==> WriteAt(target, b, j).value.next == j + Utf8.CharLength(b, j)
    ensures target.Plain? ==> WriteAt(target, b, j).Some? && WriteAt(target, b, j).value.next == j + 1
  {
    hide Utf8.Decode, Utf8.Validate;
    Utf8.DecodeIsGrammar(b, j);
    Utf8.ValidateIsGrammar(b, j);
  }

  // ----- reading back -----

  lemma UnitEscapeReads(t: Text, i: nat, u: nat)
    requires u < 0x1_0000 && At(t, i, UnitEscape(u))
    ensures i + 6 <= |t| && t[i] == '\\' as int && t[i + 1] == 'u' as int
    ensures Hex4(t, i + 2) == Some(u)
  {
    var w := UnitEscape(u);
    Utf8.BytesAt(t, i, w);
    assert t[i + 0] == w[0] && t[i + 1] == w[1] && t[i + 2] == w[2] && t[i + 3] == w[3];
    assert t[i + 4] == w[4] && t[i + 5] == w[5];
    HexDigitValue(u / 0x1000 % 16);
    HexDigitValue(u / 0x100 % 16);
    HexDigitValue(u / 0x10 % 16);
    HexDigitValue(u % 16);
    HexDigits(u);
  }

  lemma HexDigits(u: nat)
    requires u < 0x1_0000
    ensures u / 0x1000 % 16 * 0x1000 + u / 0x100 % 16 * 0x100 + u / 0x10 % 16 * 0x10 + u % 16 == u
  {
    assert u / 0x10 == u / 0x100 * 16 + u / 0x10 % 16;
    assert u / 0x100 == u / 0x1000 * 16 + u / 0x100 % 16;
  }

  /** A `\u` escape, or a pair of them, reads as the UTF-8 bytes of its code point. */
  lemma CodepointReads(f: Flags, t: Text, i: nat, cp: nat)
    requires Utf8.IsScalar(cp) && At(t, i, CodepointEscape(cp))
    ensures i <= |t| && StepAt(f, t, i) == Emit(i + |CodepointEscape(cp)|, Utf8.Encode(cp))
  {
    hide Utf8.Encode, Hex4, HexValue, UnitEscape, Utf8.Validate;
    if cp < 0x1_0000 {
      UnitEscapeLength(cp);
      UnitEscapeReads(t, i, cp);
      assert StepAt(f, t, i) == UnicodeStep(t, i);
    } else {
      var s := cp - 0x1_0000;
      var lead, trail := s / 0x400 + 0xD800, s % 0x400 + 0xDC00;
      UnitEscapeLength(lead);
      UnitEscapeLength(trail);
      AtSplit(t, i, UnitEscape(lead), UnitEscape(trail));
      UnitEscapeReads(t, i, lead);
      UnitEscapeReads(t, i + 6, trail);
      assert StepAt(f, t, i) == UnicodeStep(t, i);
      assert Peek(t, i + 6) == t[i + 6] && Peek(t, i + 7) == t[i + 7];
      assert (lead - 0xD800) * 0x400 + (trail - 0xDC00) + 0x1_0000 == cp;
    }
  }

  lemma UnitEscapeLength(u: nat)
    requires u < 0x1_0000
    ensures |UnitEscape(u)| == 6
  {
  }

  /** Every escaped byte reads as itself. */
  lemma EscapeReads(f: Flags, t: Text, i: nat, c: Byte)
    requires EscapeLetter(c) != 0 && At(t, i, EscapeByte(c))
    ensures i <= |t| && StepAt(f, t, i) == Emit(i + |EscapeByte(c)|, [c])
  {
    hide Utf8.Validate;
    var w := EscapeByte(c);
    if EscapeLetter(c) == 'u' as int {
      assert c / 0x1000 % 16 == 0 && c / 0x100 % 16 == 0 && c / 0x10 % 16 == c / 16;
      assert w == UnitEscape(c);
      UnitEscapeReads(t, i, c);
      assert Utf8.Encode(c) == [c];
    } else {
      Utf8.BytesAt(t, i, w);
      assert t[i + 0] == w[0] && t[i + 1] == w[1];
    }
  }

  /** Bytes the reader copies as they are. */
  ghost predicate Raw(w: Text) {
    forall k :: 0 <= k < |w| ==> w[k] >= 0x20 && w[k] != '"' as int && w[k] != '\\' as int
  }

  lemma {:induction false} RawReads(f: Flags, t: Text, i: nat, w: Text, out: Text)
    requires !f.validateEncoding && Raw(w) && At(t, i, w)
    ensures DecodeString(f, t, i, out) == DecodeString(f, t, i + |w|, out + w)
    decreases |w|
  {
    if w == [] {
      assert out + w == out;
    } else {
      hide Utf8.Validate, UnicodeStep;
      AtSplit(t, i, [w[0]], w[1..]);
      assert [w[0]] + w[1..] == w;
      AtByte(t, i, [w[0]], 0);
      RawReads(f, t, i + 1, w[1..], out + [w[0]]);
      assert out + [w[0]] + w[1..] == out + w;
    }
  }

  /** A UTF8-char is recognized by its own bytes, wherever they stand. */
  lemma CharLengthIsLocal(b: Text, j: nat, t: Text, i: nat)
    requires Utf8.CharLength(b, j) > 0 && At(t, i, b[j..j + Utf8.CharLength(b, j)])
    ensures Utf8.CharLength(t, i) == Utf8.CharLength(b, j)
  {
    var n := Utf8.CharLength(b, j);
    Utf8.CharBytes(b, j);
    Utf8.BytesAt(t, i, b[j..j + n]);
    assert t[i + 0] == b[j..j + n][0];
    if n > 1 { assert t[i + 1] == b[j..j + n][1]; }
    if n > 2 { assert t[i + 2] == b[j..j + n][2]; }
    if n > 3 { assert t[i + 3] == b[j..j + n][3]; }
  }

  /** The literal's bytes for the UTF8-char at `j`, the same in every target that writes it raw. */
  ghost function CharBody(target: Target, b: Text, j: nat): (w: Text)
    requires Utf8.CharLength(b, j) > 0
  {
    var n := Utf8.CharLength(b, j);
    if EscapeLetter(b[j]) != 0 then EscapeByte(b[j])
    else if target.Ascii? && b[j] >= 0x80 then
      Utf8.DecodeIsGrammar(b, j);
      Utf8.DecodeThenEncode(b, j);
      CodepointEscape(Utf8.Decode(b, j).codepoint)
    else b[j..j + n]
  }

  lemma {:induction false} PlainRun(b: Text, j: nat, n: nat)
    requires j + n <= |b|
    requires forall k :: j <= k < j + n ==> b[k] >= 0x80
    ensures WriteBody(Plain, b, j).Some? && WriteBody(Plain, b, j + n).Some?
    ensures WriteBody(Plain, b, j).value == b[j..j + n] + WriteBody(Plain, b, j + n).value
    decreases n
  {
    hide WriteBody;
    SucceedsOnWellFormed(Plain, b, j);
    if n > 0 {
      PlainRun(b, j + 1, n - 1);
      PlainRaw(b, j);
      assert b[j..j + n] == [b[j]] + b[j + 1..j + n];
    } else {
      assert b[j..j] == [];
    }
  }

  lemma PlainRaw(b: Text, j: nat)
    requires j < |b| && b[j] >= 0x80
    ensures WriteAt(Plain, b, j) == Some(Chunk(j + 1, [b[j]]))
    ensures WriteBody(Plain, b, j + 1).Some? ==> WriteBody(Plain, b, j) == Some([b[j]] + WriteBody(Plain, b, j + 1).value)
  {
  }

  /** On well-formed text all three targets write character by character. */
  lemma BodyByChar(target: Target, b: Text, j: nat)
    requires j < |b| && Utf8.WellFormed(b, j)
    ensures WriteBody(target, b, j).Some? && WriteBody(target, b, j + Utf8.CharLength(b, j)).Some?
    ensures WriteBody(target, b, j).value == CharBody(target, b, j) + WriteBody(target, b, j + Utf8.CharLength(b, j)).value
  {
    hide Utf8.Decode, Utf8.Validate;
    assert b[j..j + 1] == [b[j]];
    SucceedsOnWellFormed(target, b, j);
    SucceedsOnWellFormed(target, b, j + Utf8.CharLength(b, j));
    WriteAtIsGrammar(target, b, j);
    Utf8.CharBytes(b, j);
    if target.Plain? && b[j] >= 0x80 {
      PlainRun(b, j, Utf8.CharLength(b, j));
    } else {
      Utf8.DecodeIsGrammar(b, j);
      Utf8.ValidateIsGrammar(b, j);
    }
  }

  lemma CharReads(f: Flags, target: Target, b: Text, j: nat, t: Text, i: nat, out: Text)
    requires Utf8.CharLength(b, j) > 0 && At(t, i, CharBody(target, b, j))
    ensures DecodeString(f, t, i, out)
         == DecodeString(f, t, i + |CharBody(target, b, j)|, out + b[j..j + Utf8.CharLength(b, j)])
  {
    hide StepAt, Utf8.Decode, Utf8.CharLength, Utf8.Encode, CodepointEscape, EscapeByte;
    var n := Utf8.CharLength(b, j);
    Utf8.CharBytes(b, j);
    if EscapeLetter(b[j]) != 0 {
      EscapeReads(f, t, i, b[j]);
      assert b[j..j + n] == [b[j]];
    } else if target.Ascii? && b[j] >= 0x80 {
      Utf8.DecodeIsGrammar(b, j);
      Utf8.DecodeThenEncode(b, j);
      CodepointReads(f, t, i, Utf8.Decode(b, j).codepoint);
    } else if f.validateEncoding {
      ValidatedRead(f, b, j, t, i);
    } else {
      RawChar(b, j);
      RawReads(f, t, i, b[j..j + n], out);
    }
  }

  lemma ValidatedRead(f: Flags, b: Text, j: nat, t: Text, i: nat)
    requires Utf8.CharLength(b, j) > 0 && EscapeLetter(b[j]) == 0 && f.validateEncoding
    requires At(t, i, b[j..j + Utf8.CharLength(b, j)])
    ensures StepAt(f, t, i) == Emit(i + Utf8.CharLength(b, j), b[j..j + Utf8.CharLength(b, j)])
  {
    hide Utf8.Validate, UnicodeStep, Utf8.CharLength;
    CharLengthIsLocal(b, j, t, i);
    Utf8.ValidateIsGrammar(t, i);
    AtByte(t, i, b[j..j + Utf8.CharLength(b, j)], 0);
  }

  lemma RawChar(b: Text, j: nat)
    requires Utf8.CharLength(b, j) > 0 && EscapeLetter(b[j]) == 0
    ensures Raw(b[j..j + Utf8.CharLength(b, j)])
  {
    Utf8.CharBytes(b, j);
  }

  lemma {:induction false} CharsRead(f: Flags, target: Target, b: Text, j: nat, t: Text, i: nat, out: Text)
    requires j <= |b| && Utf8.WellFormed(b, j)
    requires WriteBody(target, b, j).Some? && At(t, i, WriteBody(target, b, j).value)
    ensures DecodeString(f, t, i, out) == DecodeString(f, t, i + |WriteBody(target, b, j).value|, out + b[j..])
    decreases |b| - j
  {
    hide WriteAt, DecodeString, Utf8.CharLength, CharBody;
    if j == |b| {
      assert out + b[j..] == out;
    } else {
      var n := Utf8.CharLength(b, j);
      BodyByChar(target, b, j);
      AtSplit(t, i, CharBody(target, b, j), WriteBody(target, b, j + n).value);
      CharReads(f, target, b, j, t, i, out);
      CharsRead(f, target, b, j + n, t, i + |CharBody(target, b, j)|, out + b[j..j + n]);
      assert out + b[j..j + n] + b[j + n..] == out + b[j..];
    }
  }

  lemma {:induction false} BytesRead(f: Flags, b: Text, j: nat, w: Text, t: Text, i: nat, out: Text)
    requires j <= |b| && !f.validateEncoding
    requires WriteBody(Plain, b, j) == Some(w) && At(t, i, w)
    ensures DecodeString(f, t, i, out) == DecodeString(f, t, i + |w|, out + b[j..])
    decreases |b| - j
  {
    hide StepAt, DecodeString, WriteAt, At;
    if j == |b| {
      assert out + b[j..] == out;
    } else {
      hide WriteBody;
      PlainAlways(b, j);
      var v, rest := WriteAt(Plain, b, j).value.bytes, WriteBody(Plain, b, j + 1).value;
      AtSplit(t, i, v, rest);
      ByteReads(f, b, j, t, i, out);
      BytesRead(f, b, j + 1, rest, t, i + |v|, out + [b[j]]);
      assert out + [b[j]] + b[j + 1..] == out + b[j..];
    }
  }

  lemma PlainAlways(b: Text, j: nat)
    requires j < |b|
    ensures WriteAt(Plain, b, j).Some? && WriteAt(Plain, b, j).value.next == j + 1
    ensures WriteBody(Plain, b, j).Some? && WriteBody(Plain, b, j + 1).Some?
    ensures WriteBody(Plain, b, j).value == WriteAt(Plain, b, j).value.bytes + WriteBody(Plain, b, j + 1).value
  {
    SucceedsOnWellFormed(Plain, b, j);
    SucceedsOnWellFormed(Plain, b, j + 1);
  }

  lemma ByteReads(f: Flags, b: Text, j: nat, t: Text, i: nat, out: Text)
    requires j < |b| && !f.validateEncoding
    requires At(t, i, WriteAt(Plain, b, j).value.bytes)
    ensures DecodeString(f, t, i, out) == DecodeString(f, t, i + |WriteAt(Plain, b, j).value.bytes|, out + [b[j]])
  {
    if EscapeLetter(b[j]) != 0 {
      EscapeReads(f, t, i, b[j]);
    } else {
      RawReads(f, t, i, [b[j]], out);
    }
  }

  /** Writing then reading a string gives it back: every byte string, NUL included, with plain output and no
      encoding check on reading; every well-formed UTF-8 string with any output and any reading flags. */
  lemma StringRoundTrip(f: Flags, target: Target, b: Text, t: Text, i: nat)
    requires (target.Plain? && !f.validateEncoding) || Utf8.WellFormed(b, 0)
    requires WriteString(target, b).Some? ==> At(t, i, WriteString(target, b).value)
    ensures WriteString(target, b).Some?
    ensures Peek(t, i) == '"' as int && i < |t|
    ensures DecodeString(f, t, i + 1, []) == Decoded(i + |WriteString(target, b).value|, b)
  {
    hide WriteAt, WriteBody, Utf8.CharLength, DecodeString, At, StepAt;
    SucceedsOnWellFormed(target, b, 0);
    var body, quote := WriteBody(target, b, 0).value, [ '"' as int ];
    AtSplit(t, i, quote + body, quote);
    AtSplit(t, i, quote, body);
    AtByte(t, i, quote, 0);
    AtByte(t, i + 1 + |body|, quote, 0);
    if Utf8.WellFormed(b, 0) {
      CharsRead(f, target, b, 0, t, i + 1, []);
    } else {
      BytesRead(f, b, 0, body, t, i + 1, []);
    }
    assert [] + b[0..] == b;
    ClosingQuote(f, t, i + 1 + |body|, b);
  }

  lemma ClosingQuote(f: Flags, t: Text, i: nat, out: Text)
    requires Peek(t, i) == '"' as int
    ensures DecodeString(f, t, i, out) == Decoded(i + 1, out)
  {
    hide UnicodeStep, Utf8.Validate;
  }
}
