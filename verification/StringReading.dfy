/** String literals as the reader decodes them into a buffer of their own: `ParseHex4` and `ParseStringToStream` as
    functions of the text. */
module StringReading {
  import opened Bytes
  import opened Events
  import Utf8

  /** The `escape` table: the byte an escape letter stands for, 0 for none. */
  function Unescape(e: Byte): (r: Byte) {
    if e == '"' as int || e == '/' as int || e == '\\' as int then e
    else if e == 'b' as int then 8
    else if e == 'f' as int then 12
    else if e == 'n' as int then 10
    else if e == 'r' as int then 13
    else if e == 't' as int then 9
    else 0
  }

  /** The four hexadecimal digits at `i`, most significant first. */
  function Hex4(s: Text, i: nat): (r: Option<nat>)
    ensures r.Some? ==> r.value < 0x1_0000 && i + 4 <= |s|
  {
    var a, b, c, d := HexValue(Peek(s, i)), HexValue(Peek(s, i + 1)), HexValue(Peek(s, i + 2)), HexValue(Peek(s, i + 3));
    if a.Some? && b.Some? && c.Some? && d.Some?
    then Some(a.value * 0x1000 + b.value * 0x100 + c.value * 0x10 + d.value)
    else None
  }

  /** The accumulator of the digit loop after `n` digits. */
  function HexPrefix(s: Text, i: nat, n: nat): (r: Option<nat>) {
    if n == 0 then Some(0)
    else match (HexPrefix(s, i, n - 1), HexValue(Peek(s, i + n - 1)))
      case (Some(high), Some(v)) => Some(high * 16 + v)
      case (_, _) => None
  }

  lemma Hex4Prefix(s: Text, i: nat)
    ensures Hex4(s, i) == HexPrefix(s, i, 4)
  {
    assert HexPrefix(s, i, 1) == match HexValue(Peek(s, i)) case Some(v) => Some(v) case None => None;
    assert HexPrefix(s, i, 2) == match (HexPrefix(s, i, 1), HexValue(Peek(s, i + 1)))
      case (Some(high), Some(v)) => Some(high * 16 + v)
      case (_, _) => None;
  }

  lemma {:induction false} HexPrefixFails(s: Text, i: nat, n: nat, m: nat)
    requires n <= m && HexPrefix(s, i, n).None?
    ensures HexPrefix(s, i, m).None?
    decreases m
  {
    if n < m {
      HexPrefixFails(s, i, n, m - 1);
    }
  }

  /** What one round of the decoding loop does: append bytes and move on, stop at the quote, or fail. */
  datatype Step =
    | Emit(next: nat, bytes: Text)
    | Close
    | Reject(code: ErrorCode, offset: nat)

  /** A `\u` escape whose four digits start at `i + 2`; the error offset is that of the backslash. */
  function UnicodeStep(s: Text, i: nat): (r: Step)
    ensures r.Emit? ==> i + |r.bytes| < r.next <= |s|
    ensures !r.Close?
    ensures r.Reject? ==> r.code != NoError
  {
    match Hex4(s, i + 2)
    case None => Reject(StringUnicodeEscapeInvalidHex, i)
    case Some(cp) =>
      if cp < 0xD800 || cp > 0xDFFF then Emit(i + 6, Utf8.Encode(cp))
      else if cp > 0xDBFF then Reject(StringUnicodeSurrogateInvalid, i)
      else if Peek(s, i + 6) != '\\' as int || Peek(s, i + 7) != 'u' as int then
        Reject(StringUnicodeSurrogateInvalid, i)
      else match Hex4(s, i + 8)
        case None => Reject(StringUnicodeEscapeInvalidHex, i)
        case Some(low) =>
          if low < 0xDC00 || low > 0xDFFF then Reject(StringUnicodeSurrogateInvalid, i)
          else Emit(i + 12, Utf8.Encode((cp - 0xD800) * 0x400 + (low - 0xDC00) + 0x1_0000))
  }

  function StepAt(f: Flags, s: Text, i: nat): (r: Step)
    requires i <= |s|
    ensures r.Emit? ==> i + |r.bytes| <= r.next <= |s| && i < r.next
    ensures r.Close? ==> i < |s|
    ensures r.Reject? ==> r.code != NoError
  {
    var c, e := Peek(s, i), Peek(s, i + 1);
    if c == '\\' as int then
      if Unescape(e) != 0 then Emit(i + 2, [Unescape(e)])
      else if f.escapedApostrophe && e == '\'' as int then Emit(i + 2, [e])
      else if e == 'u' as int then UnicodeStep(s, i)
      else Reject(StringEscapeInvalid, i)
    else if c == '"' as int then Close
    else if c < 0x20 then Reject(if c == 0 then StringMissQuotationMark else StringInvalidEncoding, i)
    else if !f.validateEncoding then Emit(i + 1, [c])
    else
      Utf8.ValidateIsGrammar(s, i);
      if Utf8.Validate(s, i).ok then Emit(Utf8.Validate(s, i).next, s[i..Utf8.Validate(s, i).next])
      else Reject(StringInvalidEncoding, i)
  }

  datatype StringResult = Decoded(next: nat, str: Text) | Rejected(code: ErrorCode, offset: nat)

  /** Decoding from `i` (after the opening quote) with `out` already decoded. */
  function DecodeString(f: Flags, s: Text, i: nat, out: Text): (r: StringResult)
    requires i <= |s|
    ensures r.Decoded? ==> i < r.next <= |s|
    ensures r.Rejected? ==> r.code != NoError
    decreases |s| - i
  {
    match StepAt(f, s, i)
    case Emit(next, bytes) => DecodeString(f, s, next, out + bytes)
    case Close => Decoded(i + 1, out)
    case Reject(code, offset) => Rejected(code, offset)
  }
}
