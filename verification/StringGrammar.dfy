/** Which texts are strings and what they denote: the grammar of RFC 8259, section 7, against the reader; and which of
    the spellings of a string the writer chooses. */
module StringGrammar {
  import opened Bytes
  import opened Events
  import opened StringReading
  import opened JsonLiterals
  import opened StringWriting
  import Utf8

  // ----- the grammar -----

  /** What stands between the quotation marks: characters, and escapes of one letter, of one 16-bit unit, and of two. */
  datatype Piece =
    | Char(bytes: Text)
    | Letter(letter: Byte, meaning: Byte)
    | Unit(hex: Text)
    | Pair(high: Text, low: Text)

  ghost predicate IsHex(c: Byte) { 0x30 <= c <= 0x39 || 0x41 <= c <= 0x46 || 0x61 <= c <= 0x66 }

  function HexDigitOf(c: Byte): (n: int) { if c <= 0x39 then c - 0x30 else if c <= 0x46 then c - 0x37 else c - 0x57 }

  ghost predicate FourHex(d: Text) { |d| == 4 && IsHex(d[0]) && IsHex(d[1]) && IsHex(d[2]) && IsHex(d[3]) }

  function HexNumber(d: Text): (n: int)
    requires |d| == 4
  {
    HexDigitOf(d[0]) * 0x1000 + HexDigitOf(d[1]) * 0x100 + HexDigitOf(d[2]) * 0x10 + HexDigitOf(d[3])
  }

  /** The escapes of one letter: quotation mark, backslash, slash, and the controls b, f, n, r and t. */
  predicate Means(f: Flags, letter: Byte, c: Byte) {
    || ((letter == 0x22 || letter == 0x5C || letter == 0x2F) && c == letter)
    || (letter == 0x62 && c == 0x08) || (letter == 0x66 && c == 0x0C) || (letter == 0x6E && c == 0x0A)
    || (letter == 0x72 && c == 0x0D) || (letter == 0x74 && c == 0x09)
    || (f.escapedApostrophe && letter == 0x27 && c == 0x27)
  }

  ghost predicate WellPiece(f: Flags, p: Piece) {
    match p
    case Char(bytes) =>
      && bytes != [] && bytes[0] >= 0x20 && bytes[0] != 0x22 && bytes[0] != 0x5C
      && |bytes| == if f.validateEncoding then Utf8.CharLength(bytes, 0) else 1
    case Letter(letter, c) => Means(f, letter, c)
    case Unit(hex) => FourHex(hex) && !(0xD800 <= HexNumber(hex) <= 0xDFFF)
    case Pair(high, low) => FourHex(high) && FourHex(low) && 0xD800 <= HexNumber(high) <= 0xDBFF && 0xDC00 <= HexNumber(low) <= 0xDFFF
  }

  const ESCAPE_U: Text := [0x5C, 0x75]

  function Spelled(p: Piece): (w: Text) {
    match p
    case Char(bytes) => bytes
    case Letter(letter, _) => [0x5C, letter]
    case Unit(hex) => ESCAPE_U + hex
    case Pair(high, low) => (ESCAPE_U + high) + (ESCAPE_U + low)
  }

  ghost function Meaning(f: Flags, p: Piece): (w: Text)
    requires WellPiece(f, p)
  {
    match p
    case Char(bytes) => bytes
    case Letter(_, c) => [c]
    case Unit(hex) => HexBound(hex); Utf8.Encode(HexNumber(hex))
    case Pair(high, low) => Utf8.Encode(0x1_0000 + (HexNumber(high) - 0xD800) * 0x400 + (HexNumber(low) - 0xDC00))
  }

  lemma HexBound(d: Text)
    requires FourHex(d)
    ensures 0 <= HexNumber(d) < 0x1_0000
  {
  }

  ghost predicate WellPieces(f: Flags, ps: seq<Piece>) { forall k :: 0 <= k < |ps| ==> WellPiece(f, ps[k]) }

  function AllSpelled(ps: seq<Piece>): (w: Text) { if ps == [] then [] else Spelled(ps[0]) + AllSpelled(ps[1..]) }

  ghost function AllMeanings(f: Flags, ps: seq<Piece>): (w: Text)
    requires WellPieces(f, ps)
  {
    if ps == [] then [] else Meaning(f, ps[0]) + AllMeanings(f, ps[1..])
  }

  const QUOTE: Text := [0x22]

  // ----- pieces are read -----

  lemma HexRead(s: Text, i: nat, d: Text)
    requires At(s, i, d) && FourHex(d)
    ensures Hex4(s, i) == Some(HexNumber(d))
  {
    AtByte(s, i, d, 0);
    AtByte(s, i, d, 1);
    AtByte(s, i, d, 2);
    AtByte(s, i, d, 3);
  }

  lemma UnitRead(s: Text, i: nat, d: Text)
    requires At(s, i, ESCAPE_U + d) && FourHex(d)
    ensures i + 6 <= |s| && s[i] == 0x5C && s[i + 1] == 0x75 && Hex4(s, i + 2) == Some(HexNumber(d))
  {
    hide Hex4, HexNumber, FourHex;
    AtSplit(s, i, ESCAPE_U, d);
    AtByte(s, i, ESCAPE_U, 0);
    AtByte(s, i, ESCAPE_U, 1);
    HexRead(s, i + 2, d);
  }

  lemma CharRead(f: Flags, s: Text, i: nat, bytes: Text)
    requires WellPiece(f, Char(bytes)) && At(s, i, bytes)
    ensures i <= |s| && StepAt(f, s, i) == Emit(i + |bytes|, bytes)
  {
    hide Utf8.Validate, UnicodeStep, Utf8.CharLength, At;
    Within(s, i, bytes);
    AtByte(s, i, bytes, 0);
    if f.validateEncoding {
      assert bytes[0..|bytes|] == bytes;
      CharLengthIsLocal(bytes, 0, s, i);
      Utf8.ValidateIsGrammar(s, i);
      SamePiece(s, i, bytes, 0, |bytes|);
    }
  }

  lemma PieceRead(f: Flags, s: Text, i: nat, p: Piece)
    requires WellPiece(f, p) && At(s, i, Spelled(p))
    ensures i <= |s| && StepAt(f, s, i) == Emit(i + |Spelled(p)|, Meaning(f, p))
  {
    hide Utf8.Validate, Hex4, HexNumber, Utf8.Encode, Utf8.CharLength, At;
    Within(s, i, Spelled(p));
    match p
    case Char(bytes) =>
      CharRead(f, s, i, bytes);
    case Letter(letter, c) =>
      AtByte(s, i, Spelled(p), 0);
      AtByte(s, i, Spelled(p), 1);
    case Unit(hex) =>
      UnitRead(s, i, hex);
      assert StepAt(f, s, i) == UnicodeStep(s, i);
    case Pair(high, low) =>
      AtSplit(s, i, ESCAPE_U + high, ESCAPE_U + low);
      UnitRead(s, i, high);
      UnitRead(s, i + 6, low);
      assert StepAt(f, s, i) == UnicodeStep(s, i);
  }

  lemma {:induction false} PiecesRead(f: Flags, s: Text, i: nat, ps: seq<Piece>, out: Text)
    requires WellPieces(f, ps) && At(s, i, AllSpelled(ps)) && Peek(s, i + |AllSpelled(ps)|) == 0x22
    ensures i <= |s| && DecodeString(f, s, i, out) == Decoded(i + |AllSpelled(ps)| + 1, out + AllMeanings(f, ps))
    decreases |ps|
  {
    hide StepAt, At, Spelled, Meaning, WellPiece;
    Within(s, i, AllSpelled(ps));
    if ps == [] {
      QuoteCloses(f, s, i);
      assert out + [] == out;
    } else {
      AtSplit(s, i, Spelled(ps[0]), AllSpelled(ps[1..]));
      PieceRead(f, s, i, ps[0]);
      PiecesRead(f, s, i + |Spelled(ps[0])|, ps[1..], out + Meaning(f, ps[0]));
      assert out + Meaning(f, ps[0]) + AllMeanings(f, ps[1..]) == out + AllMeanings(f, ps);
    }
  }

  lemma QuoteCloses(f: Flags, s: Text, i: nat)
    requires Peek(s, i) == 0x22
    ensures i < |s| && StepAt(f, s, i) == Close
  {
    hide UnicodeStep, Utf8.Validate;
  }

  /** Every string of the grammar is read, as what it denotes. */
  lemma StringsAreRead(f: Flags, ps: seq<Piece>)
    requires WellPieces(f, ps)
    ensures StringText(f, QUOTE + AllSpelled(ps) + QUOTE, AllMeanings(f, ps))
  {
    hide At, DecodeString, AllSpelled, AllMeanings, WellPieces;
    var body := AllSpelled(ps);
    var w := QUOTE + body + QUOTE;
    AtWhole(w);
    AtSplit(w, 0, QUOTE + body, QUOTE);
    AtSplit(w, 0, QUOTE, body);
    AtByte(w, 1 + |body|, QUOTE, 0);
    AtByte(w, 0, QUOTE, 0);
    PiecesRead(f, w, 1, ps, []);
    assert [] + AllMeanings(f, ps) == AllMeanings(f, ps);
  }

  // ----- only they are -----

  lemma HexFound(s: Text, i: nat)
    requires Hex4(s, i).Some?
    ensures i + 4 <= |s| && FourHex(s[i..i + 4]) && HexNumber(s[i..i + 4]) == Hex4(s, i).value
  {
    var d := s[i..i + 4];
    assert d[0] == s[i] && d[1] == s[i + 1] && d[2] == s[i + 2] && d[3] == s[i + 3];
  }

  lemma EscapeAt(s: Text, i: nat)
    requires i + 6 <= |s| && s[i] == 0x5C && s[i + 1] == 0x75
    ensures At(s, i, ESCAPE_U + s[i + 2..i + 6])
  {
    assert s[i..i + 6] == ESCAPE_U + s[i + 2..i + 6];
  }

  lemma UnicodeFound(f: Flags, s: Text, i: nat) returns (p: Piece)
    requires i + 2 <= |s| && s[i] == 0x5C && s[i + 1] == 0x75 && UnicodeStep(s, i).Emit?
    ensures WellPiece(f, p) && At(s, i, Spelled(p)) && UnicodeStep(s, i) == Emit(i + |Spelled(p)|, Meaning(f, p))
  {
    hide Hex4, HexNumber, Utf8.Encode, At, FourHex;
    HexFound(s, i + 2);
    EscapeAt(s, i);
    var hex := s[i + 2..i + 6];
    if HexNumber(hex) < 0xD800 || HexNumber(hex) > 0xDFFF {
      p := Unit(hex);
    } else {
      HexFound(s, i + 8);
      EscapeAt(s, i + 6);
      var low := s[i + 8..i + 12];
      AtSplit(s, i, ESCAPE_U + hex, ESCAPE_U + low);
      p := Pair(hex, low);
    }
  }

  lemma CharFound(f: Flags, s: Text, i: nat)
    requires i < |s| && s[i] != 0x5C && StepAt(f, s, i).Emit?
    ensures var n := StepAt(f, s, i).next;
      i < n <= |s| && WellPiece(f, Char(s[i..n])) && StepAt(f, s, i) == Emit(n, s[i..n])
  {
    hide UnicodeStep, Utf8.Validate, Utf8.CharLength;
    if f.validateEncoding {
      Utf8.ValidateIsGrammar(s, i);
      var n := Utf8.CharLength(s, i);
      var w := s[i..i + n];
      assert w[0..n] == w && s[i..i + n] == w;
      CharLengthIsLocal(s, i, w, 0);
    } else {
      assert s[i..i + 1] == [s[i]];
    }
  }

  lemma StepFound(f: Flags, s: Text, i: nat) returns (p: Piece)
    requires i <= |s| && StepAt(f, s, i).Emit?
    ensures WellPiece(f, p) && At(s, i, Spelled(p)) && StepAt(f, s, i) == Emit(i + |Spelled(p)|, Meaning(f, p))
  {
    hide UnicodeStep, Utf8.Validate, Utf8.CharLength;
    assert i < |s|;
    if s[i] == 0x5C {
      if Unescape(Peek(s, i + 1)) != 0 || (f.escapedApostrophe && s[i + 1] == 0x27) {
        p := Letter(s[i + 1], if s[i + 1] == 0x27 then 0x27 else Unescape(s[i + 1]));
        assert s[i..i + 2] == Spelled(p);
      } else {
        p := UnicodeFound(f, s, i);
      }
    } else {
      CharFound(f, s, i);
      p := Char(s[i..StepAt(f, s, i).next]);
    }
  }

  lemma {:induction false} PiecesFound(f: Flags, s: Text, i: nat, out: Text) returns (ps: seq<Piece>)
    requires i <= |s| && DecodeString(f, s, i, out).Decoded?
    ensures WellPieces(f, ps) && At(s, i, AllSpelled(ps)) && Peek(s, i + |AllSpelled(ps)|) == 0x22
    ensures DecodeString(f, s, i, out) == Decoded(i + |AllSpelled(ps)| + 1, out + AllMeanings(f, ps))
    decreases |s| - i
  {
    hide StepAt, At, Spelled, Meaning, WellPiece;
    var step := StepAt(f, s, i);
    if step.Emit? {
      var p := StepFound(f, s, i);
      var rest := PiecesFound(f, s, step.next, out + step.bytes);
      ps := [p] + rest;
      assert ps[1..] == rest;
      AtSplit(s, i, Spelled(p), AllSpelled(rest));
      assert out + Meaning(f, p) + AllMeanings(f, rest) == out + AllMeanings(f, ps);
    } else {
      ps := [];
      Nothing(s, i);
      CloseIsMark(f, s, i);
      assert out + [] == out;
    }
  }

  lemma Nothing(s: Text, i: nat)
    requires i <= |s|
    ensures At(s, i, [])
  {
    assert s[i..i] == [];
  }

  /** Whatever is read as a string is one of the grammar, and denotes what was read. */
  lemma OnlyStringsAreRead(f: Flags, w: Text, str: Text) returns (ps: seq<Piece>)
    requires StringText(f, w, str)
    ensures WellPieces(f, ps) && w == QUOTE + AllSpelled(ps) + QUOTE && str == AllMeanings(f, ps)
  {
    hide DecodeString, AllSpelled, AllMeanings, WellPieces;
    ps := PiecesFound(f, w, 1, []);
    assert [] + AllMeanings(f, ps) == AllMeanings(f, ps);
    var body := AllSpelled(ps);
    assert w[1..1 + |body|] == body && w[|w| - 1] == 0x22;
    assert w == [w[0]] + w[1..1 + |body|] + [w[|w| - 1]];
  }

  // ----- what the writer chooses -----

  function UpperDigit(n: nat): (c: Byte)
    requires n < 16
  {
    if n < 10 then 0x30 + n else 0x37 + n
  }

  /** Four upper-case digits. */
  function UpperHex(u: nat): (w: Text)
    requires u < 0x1_0000
  {
    [UpperDigit(u / 0x1000), UpperDigit(u / 0x100 % 16), UpperDigit(u / 0x10 % 16), UpperDigit(u % 16)]
  }

  /** A byte in the literal: quotation mark and backslash behind a backslash, the five controls that have a letter by it,
      the others in four digits, and everything else as it is. */
  function ByteForm(c: Byte): (w: Text) {
    if c == 0x22 || c == 0x5C then [0x5C, c]
    else if c == 0x08 then [0x5C, 0x62]
    else if c == 0x09 then [0x5C, 0x74]
    else if c == 0x0A then [0x5C, 0x6E]
    else if c == 0x0C then [0x5C, 0x66]
    else if c == 0x0D then [0x5C, 0x72]
    else if c < 0x20 then ESCAPE_U + UpperHex(c)
    else [c]
  }

  function ByteForms(b: Text): (w: Text) { if b == [] then [] else ByteForm(b[0]) + ByteForms(b[1..]) }

  /** A character in ASCII output: above 0x7F as one unit, above 0xFFFF as two. */
  function CodeForm(cp: nat): (w: Text)
    requires Utf8.IsScalar(cp)
  {
    if cp < 0x80 then ByteForm(cp)
    else if cp < 0x1_0000 then ESCAPE_U + UpperHex(cp)
    else
      var high, low := 0xD800 + (cp - 0x1_0000) / 0x400, 0xDC00 + (cp - 0x1_0000) % 0x400;
      (ESCAPE_U + UpperHex(high)) + (ESCAPE_U + UpperHex(low))
  }

  function CodeForms(cps: seq<Utf8.Scalar>): (w: Text) { if cps == [] then [] else CodeForm(cps[0]) + CodeForms(cps[1..]) }

  lemma EscapeIsForm(c: Byte)
    ensures EscapeLetter(c) != 0 ==> EscapeByte(c) == ByteForm(c)
    ensures EscapeLetter(c) == 0 ==> ByteForm(c) == [c]
  {
    if c < 0x20 {
      assert c / 0x1000 == 0 && c / 0x100 % 16 == 0 && c / 0x10 % 16 == c / 16;
    }
  }

  /** The plain writer writes byte for byte. */
  lemma {:induction false} PlainForm(b: Text, j: nat)
    requires j <= |b|
    ensures WriteBody(Plain, b, j) == Some(ByteForms(b[j..]))
    decreases |b| - j
  {
    hide EscapeByte, ByteForm;
    if j < |b| {
      EscapeIsForm(b[j]);
      PlainForm(b, j + 1);
      assert b[j..][1..] == b[j + 1..];
    } else {
      assert b[j..] == [];
    }
  }

  /** The validating writer writes the same, of well-formed text and of no other. */
  lemma {:induction false} ValidatedForm(b: Text, j: nat)
    requires j <= |b|
    ensures WriteBody(Validating, b, j) == if Utf8.WellFormed(b, j) then Some(ByteForms(b[j..])) else None
    decreases |b| - j
  {
    hide ByteForms, CharBody, Utf8.CharLength;
    SucceedsOnWellFormed(Validating, b, j);
    if j < |b| && Utf8.WellFormed(b, j) {
      var n := Utf8.CharLength(b, j);
      BodyByChar(Validating, b, j);
      ValidatedForm(b, j + n);
      CharForm(b, j);
      FormsSplit(b[j..j + n], b[j + n..]);
      assert b[j..] == b[j..j + n] + b[j + n..];
    } else if j == |b| {
      assert b[j..] == [];
      NoForms();
    }
  }

  lemma NoForms()
    ensures ByteForms([]) == []
  {
  }

  lemma {:induction false} FormsSplit(a: Text, b: Text)
    ensures ByteForms(a + b) == ByteForms(a) + ByteForms(b)
    decreases |a|
  {
    hide ByteForm;
    if a == [] {
      assert a + b == b;
    } else {
      FormsSplit(a[1..], b);
      assert (a + b)[1..] == a[1..] + b;
    }
  }

  lemma {:induction false} HighForms(b: Text)
    requires forall k :: 0 <= k < |b| ==> b[k] >= 0x80
    ensures ByteForms(b) == b
    decreases |b|
  {
    if b != [] {
      HighForms(b[1..]);
      assert [b[0]] + b[1..] == b;
    }
  }

  lemma CharForm(b: Text, j: nat)
    requires Utf8.CharLength(b, j) > 0
    ensures CharBody(Validating, b, j) == ByteForms(b[j..j + Utf8.CharLength(b, j)])
  {
    hide Utf8.CharLength, ByteForm, EscapeByte;
    Utf8.CharBytes(b, j);
    var n := Utf8.CharLength(b, j);
    EscapeIsForm(b[j]);
    if n == 1 {
      assert b[j..j + 1] == [b[j]];
      assert [b[j]][1..] == [];
    } else {
      HighForms(b[j..j + n]);
    }
  }

  lemma CodeIsForm(cp: nat)
    requires Utf8.IsScalar(cp) && cp >= 0x80
    ensures CodepointEscape(cp) == CodeForm(cp)
  {
    hide ByteForm, UpperHex, UnitEscape;
    if cp >= 0x1_0000 {
      var s := cp - 0x1_0000;
      UnitIsUpper(s / 0x400 + 0xD800);
      UnitIsUpper(s % 0x400 + 0xDC00);
    } else {
      UnitIsUpper(cp);
    }
  }

  lemma UnitIsUpper(u: nat)
    requires u < 0x1_0000
    ensures UnitEscape(u) == ESCAPE_U + UpperHex(u)
  {
    assert u / 0x1000 % 16 == u / 0x1000;
  }

  /** The ASCII writer writes character for character. */
  lemma {:induction false} AsciiForm(b: Text, j: nat, cps: seq<Utf8.Scalar>)
    requires j <= |b| && b[j..] == Utf8.EncodeAll(cps)
    ensures WriteBody(Ascii, b, j) == Some(CodeForms(cps))
    decreases |cps|
  {
    hide CodeForm, CharBody, Utf8.CharLength, Utf8.Encode, Utf8.Decode;
    Utf8.EncodingIsWellFormed(b, j, cps);
    SucceedsOnWellFormed(Ascii, b, j);
    if cps != [] {
      var cp, rest := cps[0], Utf8.EncodeAll(cps[1..]);
      var w := Utf8.Encode(cp);
      assert b[j..j + |w|] == b[j..][..|w|] == w;
      Utf8.EncodeThenDecode(b, j, cp);
      BodyByChar(Ascii, b, j);
      AsciiCharForm(b, j, cp);
      assert b[j + |w|..] == b[j..][|w|..] == rest;
      AsciiForm(b, j + |w|, cps[1..]);
    }
  }

  lemma AsciiHead(b: Text, j: nat, cp: nat)
    requires Utf8.IsScalar(cp) && At(b, j, Utf8.Encode(cp))
    ensures j < |b| && (b[j] >= 0x80 <==> cp >= 0x80) && (cp < 0x80 ==> b[j] == cp && |Utf8.Encode(cp)| == 1)
  {
    AtByte(b, j, Utf8.Encode(cp), 0);
    Utf8.EncodedBytes(cp);
  }

  lemma AsciiCharForm(b: Text, j: nat, cp: nat)
    requires Utf8.IsScalar(cp) && At(b, j, Utf8.Encode(cp)) && Utf8.CharLength(b, j) == |Utf8.Encode(cp)|
    ensures CharBody(Ascii, b, j) == CodeForm(cp)
  {
    hide Utf8.CharLength, Utf8.Decode, CodepointEscape, EscapeByte, ByteForm, At, Utf8.Encode, UpperHex;
    Utf8.EncodeThenDecode(b, j, cp);
    AsciiHead(b, j, cp);
    EscapeIsForm(b[j]);
    if cp >= 0x80 {
      CodeIsForm(cp);
    } else {
      assert b[j..j + 1] == [b[j]];
    }
  }

  /** A whole literal of plain output, of every byte string; of validating output, of the well-formed ones only. */
  lemma BytesAreWritten(b: Text)
    ensures WriteString(Plain, b) == Some(QUOTE + ByteForms(b) + QUOTE)
    ensures WriteString(Validating, b) == if Utf8.WellFormed(b, 0) then Some(QUOTE + ByteForms(b) + QUOTE) else None
  {
    hide WriteBody, ByteForms, Utf8.WellFormed;
    PlainForm(b, 0);
    ValidatedForm(b, 0);
    assert b[0..] == b;
  }

  /** A whole literal of ASCII output, of every string of characters and of nothing else. */
  lemma CharactersAreWritten(b: Text)
    ensures forall cps: seq<Utf8.Scalar> :: b == Utf8.EncodeAll(cps) ==> WriteString(Ascii, b) == Some(QUOTE + CodeForms(cps) + QUOTE)
    ensures !Utf8.WellFormed(b, 0) ==> WriteString(Ascii, b).None?
  {
    hide WriteBody, CodeForms, Utf8.WellFormed, Utf8.EncodeAll;
    SucceedsOnWellFormed(Ascii, b, 0);
    assert b[0..] == b;
    forall cps: seq<Utf8.Scalar> | b == Utf8.EncodeAll(cps)
      ensures WriteString(Ascii, b) == Some(QUOTE + CodeForms(cps) + QUOTE)
    {
      AsciiForm(b, 0, cps);
    }
  }
}
