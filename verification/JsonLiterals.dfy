/** Literals as texts of their own: a word, a number or a string reads the same alone and where it stands in a text. */
module JsonLiterals {
  import opened Bytes
  import opened Events
  import opened Grammar
  import opened Numbers
  import opened StringReading
  import Decimal
  import StringWriting
  import Utf8

  /** `w` stands in `s` at `i`: byte by byte, up to and with what follows `w` only where that is asked for. */
  lemma SameByte(s: Text, i: nat, w: Text, k: nat)
    requires At(s, i, w) && k < |w|
    ensures Peek(s, i + k) == Peek(w, k) == w[k]
  {
    AtByte(s, i, w, k);
  }

  lemma Within(s: Text, i: nat, w: Text)
    requires At(s, i, w)
    ensures i + |w| <= |s|
  {
  }

  lemma SamePiece(s: Text, i: nat, w: Text, a: nat, b: nat)
    requires At(s, i, w) && a <= b <= |w|
    ensures i + b <= |s| && s[i + a..i + b] == w[a..b] && At(s, i + a, w[a..b])
  {
    forall k | a <= k < b ensures s[i + k] == w[k] {
      AtByte(s, i, w, k);
    }
  }

  // ----- strings -----

  /** A quotation mark, what the decoder takes for `str`, and the closing mark. */
  predicate StringText(f: Flags, text: Text, str: Text) {
    |text| >= 2 && text[0] == '"' as int && DecodeString(f, text, 1, []) == Decoded(|text|, str)
  }

  /** The step at `i + j` in a text, told from the literal `w` at `i`. */
  function Moved(i: nat, step: Step): (r: Step) {
    match step
    case Emit(next, bytes) => Emit(i + next, bytes)
    case Close => Close
    case Reject(code, offset) => Reject(code, i + offset)
  }

  lemma HexMoves(s: Text, i: nat, w: Text, j: nat)
    requires At(s, i, w) && j + 4 <= |w|
    ensures Hex4(s, i + j) == Hex4(w, j)
  {
    SameByte(s, i, w, j);
    SameByte(s, i, w, j + 1);
    SameByte(s, i, w, j + 2);
    SameByte(s, i, w, j + 3);
  }

  lemma HexEndsEarly(w: Text, j: nat)
    ensures Hex4(w, j).Some? ==> j + 4 <= |w|
  {
  }

  /** An escape that is read within the literal, in it alone or in the text, is read alike in both. */
  lemma UnicodeMoves(s: Text, i: nat, w: Text, j: nat)
    requires At(s, i, w) && j < |w|
    requires UnicodeStep(w, j).Emit? || (UnicodeStep(s, i + j).Emit? && UnicodeStep(s, i + j).next <= i + |w|)
    ensures UnicodeStep(s, i + j) == Moved(i, UnicodeStep(w, j))
  {
    hide Hex4, Utf8.Encode, At;
    HexEndsEarly(w, j + 2);
    HexEndsEarly(w, j + 8);
    assert j + 6 <= |w|;
    HexMoves(s, i, w, j + 2);
    if j + 12 <= |w| {
      SameByte(s, i, w, j + 6);
      SameByte(s, i, w, j + 7);
      HexMoves(s, i, w, j + 8);
    }
  }

  lemma CharMoves(s: Text, i: nat, w: Text, j: nat)
    requires At(s, i, w) && j < |w|
    requires Utf8.CharLength(w, j) > 0 || (Utf8.CharLength(s, i + j) > 0 && j + Utf8.CharLength(s, i + j) <= |w|)
    ensures Utf8.CharLength(s, i + j) == Utf8.CharLength(w, j)
  {
    hide Utf8.CharLength;
    if Utf8.CharLength(w, j) > 0 {
      SamePiece(s, i, w, j, j + Utf8.CharLength(w, j));
      StringWriting.CharLengthIsLocal(w, j, s, i + j);
    } else {
      var n := Utf8.CharLength(s, i + j);
      SamePiece(s, i, w, j, j + n);
      assert At(w, j, s[i + j..i + j + n]) by { assert w[j..j + n] == s[i + j..i + j + n]; }
      StringWriting.CharLengthIsLocal(s, i + j, w, j);
    }
  }

  lemma RawMoves(f: Flags, s: Text, i: nat, w: Text, j: nat)
    requires At(s, i, w) && j < |w| && w[j] != '\\' as int
    requires !StepAt(f, w, j).Reject? || (StepAt(f, s, i + j).Emit? && StepAt(f, s, i + j).next <= i + |w|) || StepAt(f, s, i + j).Close?
    ensures StepAt(f, s, i + j) == Moved(i, StepAt(f, w, j))
  {
    hide Utf8.CharLength, Utf8.Validate, UnicodeStep, At;
    SameByte(s, i, w, j);
    Within(s, i, w);
    if f.validateEncoding && w[j] >= 0x20 && w[j] != '"' as int {
      Utf8.ValidateIsGrammar(s, i + j);
      Utf8.ValidateIsGrammar(w, j);
      CharMoves(s, i, w, j);
      SamePiece(s, i, w, j, j + Utf8.CharLength(w, j));
    }
  }

  lemma EscapeMoves(f: Flags, s: Text, i: nat, w: Text, j: nat)
    requires At(s, i, w) && j < |w| && w[j] == '\\' as int
    requires !StepAt(f, w, j).Reject? || (StepAt(f, s, i + j).Emit? && StepAt(f, s, i + j).next <= i + |w|)
    ensures StepAt(f, s, i + j) == Moved(i, StepAt(f, w, j))
  {
    hide UnicodeStep, Utf8.Validate, At;
    SameByte(s, i, w, j);
    Within(s, i, w);
    if j + 1 < |w| {
      SameByte(s, i, w, j + 1);
      if w[j + 1] == 'u' as int {
        UnicodeMoves(s, i, w, j);
      }
    } else {
      NulIsNoEscape();
      UnicodeIsLong(s, i + j);
    }
  }

  lemma NulIsNoEscape()
    ensures Unescape(0) == 0
  {
  }

  lemma UnicodeIsLong(s: Text, i: nat)
    ensures UnicodeStep(s, i).Emit? ==> UnicodeStep(s, i).next >= i + 6
  {
  }

  lemma StepMoves(f: Flags, s: Text, i: nat, w: Text, j: nat)
    requires At(s, i, w) && j < |w|
    requires !StepAt(f, w, j).Reject? || (StepAt(f, s, i + j).Emit? && StepAt(f, s, i + j).next <= i + |w|) || StepAt(f, s, i + j).Close?
    ensures StepAt(f, s, i + j) == Moved(i, StepAt(f, w, j))
  {
    if w[j] == '\\' as int {
      CloseIsMark(f, s, i + j);
      SameByte(s, i, w, j);
      EscapeMoves(f, s, i, w, j);
    } else {
      RawMoves(f, s, i, w, j);
    }
  }

  lemma CloseIsMark(f: Flags, s: Text, i: nat)
    requires i <= |s|
    ensures StepAt(f, s, i).Close? ==> Peek(s, i) == '"' as int
  {
    hide UnicodeStep, Utf8.Validate;
  }

  /** A literal decodes where it stands as it does alone, */
  lemma {:induction false} StringMoves(f: Flags, s: Text, i: nat, w: Text, j: nat, out: Text)
    requires At(s, i, w) && j <= |w| && DecodeString(f, w, j, out).Decoded?
    ensures i + j <= |s|
    ensures DecodeString(f, s, i + j, out) == Decoded(i + DecodeString(f, w, j, out).next, DecodeString(f, w, j, out).str)
    decreases |w| - j
  {
    hide StepAt, At;
    Within(s, i, w);
    var step := StepAt(f, w, j);
    EndRejects(f, w);
    StepMoves(f, s, i, w, j);
    if step.Emit? {
      StringMoves(f, s, i, w, step.next, out + step.bytes);
    }
  }

  lemma EndRejects(f: Flags, w: Text)
    ensures StepAt(f, w, |w|).Reject?
  {
  }

  /** and alone as where it stands. */
  lemma {:induction false} StringAlone(f: Flags, s: Text, i: nat, w: Text, j: nat, out: Text)
    requires At(s, i, w) && j <= |w| && i + j <= |s| && DecodeString(f, s, i + j, out).Decoded?
    requires DecodeString(f, s, i + j, out).next == i + |w|
    ensures DecodeString(f, w, j, out) == Decoded(|w|, DecodeString(f, s, i + j, out).str)
    decreases |w| - j
  {
    hide StepAt, At;
    Within(s, i, w);
    var step := StepAt(f, s, i + j);
    DecodedGoesOn(f, s, i + j, out);
    assert j < |w|;
    StepMoves(f, s, i, w, j);
    if step.Emit? {
      StringAlone(f, s, i, w, step.next - i, out + step.bytes);
    }
  }

  lemma DecodedGoesOn(f: Flags, s: Text, i: nat, out: Text)
    requires i <= |s| && DecodeString(f, s, i, out).Decoded?
    ensures var step := StepAt(f, s, i);
      i < DecodeString(f, s, i, out).next && !step.Reject? && (step.Emit? ==> step.next < DecodeString(f, s, i, out).next)
  {
    hide StepAt;
  }

  // ----- numbers -----

  /** A text that is read as a number to its end. */
  predicate NumberText(tooBig: Text -> bool, text: Text, e: Event) {
    text != [] && Numbers.ReadNumber(text, 0, tooBig) == NumberRead(|text|, e)
  }

  /** A run of digits in the literal, cut where the literal ends. */
  lemma {:induction false} DigitsMove(s: Text, i: nat, w: Text, a: nat)
    requires At(s, i, w) && a <= |w|
    ensures var e := DigitsEnd(s, i + a); DigitsEnd(w, a) == if e <= i + |w| then e - i else |w|
    decreases |w| - a
  {
    if a < |w| {
      SameByte(s, i, w, a);
      if IsDigit(w[a]) {
        DigitsMove(s, i, w, a + 1);
      }
    }
  }

  lemma {:induction false} ValueMoves(s: Text, i: nat, w: Text, a: nat, b: nat)
    requires At(s, i, w) && a <= b <= |w| && forall k :: a <= k < b ==> IsDigit(Peek(w, k))
    ensures forall k :: i + a <= k < i + b ==> IsDigit(Peek(s, k))
    ensures Value(s, i + a, i + b) == Value(w, a, b)
    decreases b
  {
    forall k | i + a <= k < i + b ensures IsDigit(Peek(s, k)) {
      SameByte(s, i, w, k - i);
    }
    if a < b {
      SameByte(s, i, w, b - 1);
      ValueMoves(s, i, w, a, b - 1);
    }
  }

  lemma {:induction false} FastMoves(s: Text, i: nat, w: Text, p: nat, significand: nat, digits: nat, shift: nat)
    requires At(s, i, w) && p <= |w| && DigitsEnd(s, i + p) <= i + |w|
    ensures var f := FastFraction(w, p, significand, digits, shift);
      f.next <= |w| && FastFraction(s, i + p, significand, digits, shift) == f.(next := i + f.next)
    decreases |w| - p
  {
    if p < |w| {
      SameByte(s, i, w, p);
      if IsDigit(w[p]) && significand <= 0x1F_FFFF_FFFF_FFFF {
        var n := significand * 10 + DigitAt(w, p);
        FastMoves(s, i, w, p + 1, n, if n != 0 then digits + 1 else digits, shift + 1);
      }
    }
  }

  lemma {:induction false} SlowMoves(s: Text, i: nat, w: Text, p: nat, positive: bool, digits: nat, shift: nat)
    requires At(s, i, w) && p <= |w| && DigitsEnd(s, i + p) <= i + |w|
    ensures SlowShift(s, i + p, positive, digits, shift) == SlowShift(w, p, positive, digits, shift)
    decreases |w| - p
  {
    if p < |w| {
      SameByte(s, i, w, p);
      if IsDigit(w[p]) {
        var positive' := positive || DigitAt(w, p) > 0;
        SlowMoves(s, i, w, p + 1, positive', if positive' then digits + 1 else digits, shift + 1);
        SlowMoves(s, i, w, p + 1, positive, digits, shift);
      }
    }
  }

  lemma FractionMoves(s: Text, i: nat, w: Text, p: nat, integer: nat, digits: nat)
    requires At(s, i, w) && p <= |w| && DigitsEnd(s, i + p) <= i + |w|
    ensures FractionShift(s, i + p, integer, digits) == FractionShift(w, p, integer, digits)
  {
    hide SlowShift, FastFraction, At;
    FastMoves(s, i, w, p, integer, digits, 0);
    var f := FastFraction(w, p, integer, digits, 0);
    DigitsEndSkips(s, i + p, i + f.next);
    SlowMoves(s, i, w, f.next, f.significand > 0, f.digits, f.shift);
  }

  lemma {:induction false} PositiveMoves(s: Text, i: nat, w: Text, p: nat, exp: nat, maxExp: nat)
    requires At(s, i, w) && p <= |w| && DigitsEnd(s, i + p) <= i + |w|
    ensures var e := PositiveExponent(w, p, exp, maxExp); PositiveExponent(s, i + p, exp, maxExp) == e.(next := i + e.next)
    decreases |w| - p
  {
    if p < |w| {
      SameByte(s, i, w, p);
      if IsDigit(w[p]) {
        PositiveMoves(s, i, w, p + 1, exp * 10 + DigitAt(w, p), maxExp);
      }
    }
  }

  lemma {:induction false} NegativeMoves(s: Text, i: nat, w: Text, p: nat, exp: nat, maxExp: int)
    requires At(s, i, w) && p <= |w| && DigitsEnd(s, i + p) <= i + |w|
    ensures var e := NegativeExponent(w, p, exp, maxExp); NegativeExponent(s, i + p, exp, maxExp) == e.(next := i + e.next)
    decreases |w| - p
  {
    if p < |w| {
      SameByte(s, i, w, p);
      if IsDigit(w[p]) {
        DigitsMove(s, i, w, p + 1);
        NegativeMoves(s, i, w, p + 1, exp * 10 + DigitAt(w, p), maxExp);
      }
    }
  }

  lemma ExponentMoves(s: Text, i: nat, w: Text, q: nat, minus: bool, shift: nat)
    requires At(s, i, w) && q < |w| && IsDigit(w[q]) && DigitsEnd(s, i + q) <= i + |w|
    ensures IsDigit(Peek(s, i + q)) && IsDigit(Peek(w, q))
    ensures var e := ReadExponent(w, q, minus, shift); ReadExponent(s, i + q, minus, shift) == e.(next := i + e.next)
  {
    hide PositiveExponent, NegativeExponent, At;
    SameByte(s, i, w, q);
    DigitsEndSkips(s, i + q, i + q + 1);
    NegativeMoves(s, i, w, q + 1, DigitAt(w, q), MaxExponent(true, shift));
    PositiveMoves(s, i, w, q + 1, DigitAt(w, q), 308 + shift);
  }

  /** An exponent that is not too large is read to the end of its digits. */
  lemma ExponentEnds(s: Text, q: nat, minus: bool, shift: nat)
    requires IsDigit(Peek(s, q)) && !ReadExponent(s, q, minus, shift).tooBig
    ensures ReadExponent(s, q, minus, shift).next == DigitsEnd(s, q)
  {
    hide PositiveExponent, NegativeExponent;
    DigitsEndSkips(s, q, q + 1);
  }

  lemma InRun(s: Text, a: nat, k: nat)
    requires a <= k
    ensures DigitsEnd(s, a) > k ==> IsDigit(Peek(s, k))
  {
  }

  /** A run of digits ends with the literal where no digit follows it. */
  lemma RunInside(s: Text, i: nat, w: Text, a: nat)
    requires At(s, i, w) && a <= |w| && !IsDigit(Peek(s, i + |w|))
    ensures DigitsEnd(s, i + a) <= i + |w|
  {
    InRun(s, i + a, i + |w|);
  }

  /** The end of a number, alone and in the text. */
  function MovedNumber(i: nat, r: NumberResult): (m: NumberResult) {
    match r
    case NumberRead(next, event) => NumberRead(i + next, event)
    case NumberBad(code, offset) => NumberBad(code, i + offset)
  }

  ghost predicate ReadsAlone(w: Text, r: NumberResult) { r.NumberRead? && r.next == |w| }
  ghost predicate ReadsThere(i: nat, w: Text, r: NumberResult) { r.NumberRead? && r.next == i + |w| }

  lemma FinishMoves(s: Text, i: nat, w: Text, p: nat, integer: Option<Event>, shift: nat, tooBig: Text -> bool)
    requires At(s, i, w) && 0 < p <= |w| && (integer.Some? ==> IsNumberEvent(integer.value))
    requires i + |w| <= |s|
    requires (Decimal.EndsNumber(Peek(s, i + |w|)) && ReadsAlone(w, Finish(w, 0, p, integer, shift, tooBig)))
          || ReadsThere(i, w, Finish(s, i, i + p, integer, shift, tooBig))
    ensures Finish(s, i, i + p, integer, shift, tooBig) == MovedNumber(i, Finish(w, 0, p, integer, shift, tooBig))
  {
    hide ReadExponent, At;
    if p == |w| || !(w[p] == 'e' as int || w[p] == 'E' as int) {
      if p < |w| { SameByte(s, i, w, p); }
      SamePiece(s, i, w, 0, p);
    } else {
      SameByte(s, i, w, p);
      FinishExponentMoves(s, i, w, p, integer, shift, tooBig);
    }
  }

  /** What `Finish` does at an exponent mark. */
  lemma FinishAtMark(s: Text, start: nat, p: nat, integer: Option<Event>, shift: nat, tooBig: Text -> bool)
    requires start < p < |s| && (s[p] == 'e' as int || s[p] == 'E' as int) && (integer.Some? ==> IsNumberEvent(integer.value))
    ensures var q := if Peek(s, p + 1) == '+' as int || Peek(s, p + 1) == '-' as int then p + 2 else p + 1;
      Finish(s, start, p, integer, shift, tooBig) ==
        if !IsDigit(Peek(s, q)) then NumberBad(NumberMissExponent, q)
        else
          var e := ReadExponent(s, q, Peek(s, p + 1) == '-' as int, shift);
          if e.tooBig || tooBig(s[start..e.next]) then NumberBad(NumberTooBig, start)
          else NumberRead(e.next, Double(s[start..e.next]))
  {
    hide ReadExponent;
  }

  /** The exponent lies inside the literal. */
  lemma ExponentInside(s: Text, i: nat, w: Text, p: nat, q: nat, integer: Option<Event>, shift: nat, tooBig: Text -> bool)
    requires At(s, i, w) && 0 < p < |w| && (integer.Some? ==> IsNumberEvent(integer.value))
    requires i + |w| <= |s| && (w[p] == 'e' as int || w[p] == 'E' as int) && s[i + p] == w[p]
    requires (Decimal.EndsNumber(Peek(s, i + |w|)) && ReadsAlone(w, Finish(w, 0, p, integer, shift, tooBig)))
          || ReadsThere(i, w, Finish(s, i, i + p, integer, shift, tooBig))
    requires q == if p + 1 < |w| && (w[p + 1] == '+' as int || w[p + 1] == '-' as int) then p + 2 else p + 1
    ensures p + 1 < |w| && q < |w| && IsDigit(w[q]) && DigitsEnd(s, i + q) <= i + |w|
  {
    hide ReadExponent, At, Finish, DigitsEnd;
    FinishAtMark(w, 0, p, integer, shift, tooBig);
    FinishAtMark(s, i, i + p, integer, shift, tooBig);
    if p + 1 < |w| {
      SameByte(s, i, w, p + 1);
    }
    if q < |w| {
      SameByte(s, i, w, q);
      if Decimal.EndsNumber(Peek(s, i + |w|)) {
        RunInside(s, i, w, q);
      } else {
        ExponentEnds(s, i + q, w[p + 1] == '-' as int, shift);
      }
    }
  }

  function MarkResult(literal: Text, e: Exponent, start: nat, tooBig: Text -> bool): (r: NumberResult) {
    if e.tooBig || tooBig(literal) then NumberBad(NumberTooBig, start) else NumberRead(e.next, Double(literal))
  }

  lemma FinishWithDigits(s: Text, start: nat, p: nat, q: nat, minus: bool, integer: Option<Event>, shift: nat, tooBig: Text -> bool)
    requires start < p < |s| && (s[p] == 'e' as int || s[p] == 'E' as int) && (integer.Some? ==> IsNumberEvent(integer.value))
    requires q == if Peek(s, p + 1) == '+' as int || Peek(s, p + 1) == '-' as int then p + 2 else p + 1
    requires IsDigit(Peek(s, q)) && minus == (Peek(s, p + 1) == '-' as int)
    ensures var e := ReadExponent(s, q, minus, shift);
      start <= e.next <= |s| && Finish(s, start, p, integer, shift, tooBig) == MarkResult(s[start..e.next], e, start, tooBig)
  {
    hide ReadExponent, Finish;
    FinishAtMark(s, start, p, integer, shift, tooBig);
  }

  lemma ResultMoves(i: nat, literal: Text, e: Exponent, tooBig: Text -> bool)
    ensures MarkResult(literal, e.(next := i + e.next), i, tooBig) == MovedNumber(i, MarkResult(literal, e, 0, tooBig))
  {
  }

  /** From the mark on, the digits of the exponent inside the literal. */
  lemma MarkMoves(s: Text, i: nat, w: Text, p: nat, q: nat, integer: Option<Event>, shift: nat, tooBig: Text -> bool)
    requires At(s, i, w) && 0 < p && p + 1 < |w| && q < |w| && (integer.Some? ==> IsNumberEvent(integer.value))
    requires i + |w| <= |s| && (w[p] == 'e' as int || w[p] == 'E' as int) && s[i + p] == w[p]
    requires q == if w[p + 1] == '+' as int || w[p + 1] == '-' as int then p + 2 else p + 1
    requires IsDigit(w[q]) && DigitsEnd(s, i + q) <= i + |w|
    ensures Finish(s, i, i + p, integer, shift, tooBig) == MovedNumber(i, Finish(w, 0, p, integer, shift, tooBig))
  {
    hide ReadExponent, At, Finish, DigitsEnd, Peek, IsDigit, MarkResult, MovedNumber;
    SameByte(s, i, w, p + 1);
    SameByte(s, i, w, q);
    var minus := w[p + 1] == '-' as int;
    FinishWithDigits(w, 0, p, q, minus, integer, shift, tooBig);
    FinishWithDigits(s, i, i + p, i + q, minus, integer, shift, tooBig);
    ExponentMoves(s, i, w, q, minus, shift);
    var e := ReadExponent(w, q, minus, shift);
    SamePiece(s, i, w, 0, e.next);
    ResultMoves(i, w[0..e.next], e, tooBig);
  }

  lemma FinishExponentMoves(s: Text, i: nat, w: Text, p: nat, integer: Option<Event>, shift: nat, tooBig: Text -> bool)
    requires At(s, i, w) && 0 < p < |w| && (integer.Some? ==> IsNumberEvent(integer.value))
    requires i + |w| <= |s| && (w[p] == 'e' as int || w[p] == 'E' as int) && Peek(s, i + p) == w[p]
    requires (Decimal.EndsNumber(Peek(s, i + |w|)) && ReadsAlone(w, Finish(w, 0, p, integer, shift, tooBig)))
          || ReadsThere(i, w, Finish(s, i, i + p, integer, shift, tooBig))
    ensures Finish(s, i, i + p, integer, shift, tooBig) == MovedNumber(i, Finish(w, 0, p, integer, shift, tooBig))
  {
    hide At, Finish, DigitsEnd, ReadsAlone, ReadsThere, Decimal.EndsNumber;
    var q := if p + 1 < |w| && (w[p + 1] == '+' as int || w[p + 1] == '-' as int) then p + 2 else p + 1;
    ExponentInside(s, i, w, p, q, integer, shift, tooBig);
    MarkMoves(s, i, w, p, q, integer, shift, tooBig);
  }

  /** The digits of the integer part, and the value they denote. */
  lemma IntegerMoves(s: Text, i: nat, w: Text, k: nat)
    requires At(s, i, w) && k < |w| && IsDigit(w[k]) && IntegerEnd(s, i + k) <= i + |w|
    requires Peek(s, i + k) == w[k]
    ensures IntegerEnd(s, i + k) == i + IntegerEnd(w, k)
    ensures Value(s, i + k, IntegerEnd(s, i + k)) == Value(w, k, IntegerEnd(w, k))
  {
    hide Value, At;
    if w[k] != '0' as int {
      DigitsMove(s, i, w, k);
    }
    ValueMoves(s, i, w, k, IntegerEnd(w, k));
  }

  /** The number from its integer part on. */
  function FromInteger(s: Text, start: nat, k: nat, tooBig: Text -> bool): (r: NumberResult)
    requires start <= k && IsDigit(Peek(s, k))
  {
    var minus := k > start;
    var p := IntegerEnd(s, k);
    var v := Value(s, k, p);
    if Peek(s, p) != '.' as int then Finish(s, start, p, IntegerEvent(minus, v), 0, tooBig)
    else if !IsDigit(Peek(s, p + 1)) then NumberBad(NumberMissFraction, p + 1)
    else
      var shift := if IntegerEvent(minus, v).None? then 0 else FractionShift(s, p + 1, v, p - k - 1);
      Finish(s, start, DigitsEnd(s, p + 1), None, shift, tooBig)
  }

  lemma NumberIs(s: Text, start: nat, tooBig: Text -> bool)
    ensures var k := if Peek(s, start) == '-' as int then start + 1 else start;
      Numbers.ReadNumber(s, start, tooBig) == if !IsDigit(Peek(s, k)) then NumberBad(ValueInvalid, k) else FromInteger(s, start, k, tooBig)
  {
    hide Finish, FractionShift, Value, IntegerEnd, IntegerEvent, DigitsEnd;
  }

  lemma FinishGoesOn(s: Text, start: nat, p: nat, integer: Option<Event>, shift: nat, tooBig: Text -> bool)
    requires start < p <= |s| && (integer.Some? ==> IsNumberEvent(integer.value))
    ensures var r := Finish(s, start, p, integer, shift, tooBig); r.NumberRead? ==> p <= r.next
  {
  }

  lemma FromIntegerMoves(s: Text, i: nat, w: Text, k: nat, tooBig: Text -> bool)
    requires At(s, i, w) && i + |w| <= |s| && k < |w| && k <= 1 && IsDigit(w[k]) && Peek(s, i + k) == w[k]
    requires (Decimal.EndsNumber(Peek(s, i + |w|)) && ReadsAlone(w, FromInteger(w, 0, k, tooBig)))
          || ReadsThere(i, w, FromInteger(s, i, i + k, tooBig))
    ensures FromInteger(s, i, i + k, tooBig) == MovedNumber(i, FromInteger(w, 0, k, tooBig))
  {
    hide Finish, FractionShift, Value, IntegerEvent, DigitsEnd, At, IntegerEnd;
    if ReadsThere(i, w, FromInteger(s, i, i + k, tooBig)) {
      InsideThere(s, i, w, k, tooBig);
    } else {
      InsideAlone(s, i, w, k, tooBig);
    }
    IntegerMoves(s, i, w, k);
    var p := IntegerEnd(w, k);
    var event := IntegerEvent(k > 0, Value(w, k, p));
    if p == |w| {
      FinishMoves(s, i, w, p, event, 0, tooBig);
    } else {
      SameByte(s, i, w, p);
      if w[p] != '.' as int {
        FinishMoves(s, i, w, p, event, 0, tooBig);
      } else {
        SameByte(s, i, w, p + 1);
        DigitsMove(s, i, w, p + 1);
        FractionMoves(s, i, w, p + 1, Value(w, k, p), p - k - 1);
        var shift := if event.None? then 0 else FractionShift(w, p + 1, Value(w, k, p), p - k - 1);
        FinishMoves(s, i, w, DigitsEnd(w, p + 1), None, shift, tooBig);
      }
    }
  }

  /** The integer part, and the fraction if there is one, lie inside the literal. */
  ghost predicate Inside(s: Text, i: nat, w: Text, k: nat)
    requires IsDigit(Peek(s, i + k))
  {
    var p := IntegerEnd(s, i + k);
    && p <= i + |w|
    && (p == i + |w| ==> Peek(s, p) != '.' as int)
    && (p < i + |w| && Peek(s, p) == '.' as int ==>
          p + 1 < i + |w| && IsDigit(Peek(s, p + 1)) && DigitsEnd(s, p + 1) <= i + |w|)
  }

  lemma InsideAlone(s: Text, i: nat, w: Text, k: nat, tooBig: Text -> bool)
    requires At(s, i, w) && i + |w| <= |s| && k < |w| && k <= 1 && IsDigit(w[k]) && Peek(s, i + k) == w[k]
    requires Decimal.EndsNumber(Peek(s, i + |w|)) && ReadsAlone(w, FromInteger(w, 0, k, tooBig))
    ensures Inside(s, i, w, k)
  {
    hide Finish, FractionShift, Value, IntegerEvent, DigitsEnd, At;
    RunInside(s, i, w, k);
    IntegerMoves(s, i, w, k);
    var p := IntegerEnd(w, k);
    if p < |w| {
      SameByte(s, i, w, p);
      if w[p] == '.' as int {
        assert p + 1 < |w|;
        SameByte(s, i, w, p + 1);
        RunInside(s, i, w, p + 1);
      }
    }
  }

  lemma InsideThere(s: Text, i: nat, w: Text, k: nat, tooBig: Text -> bool)
    requires At(s, i, w) && i + |w| <= |s| && k < |w| && k <= 1 && IsDigit(Peek(s, i + k))
    requires ReadsThere(i, w, FromInteger(s, i, i + k, tooBig))
    ensures Inside(s, i, w, k)
  {
    hide Finish, FractionShift, Value, IntegerEvent, At, IntegerEnd;
    var p := IntegerEnd(s, i + k);
    var event := IntegerEvent(i + k > i, Value(s, i + k, p));
    if Peek(s, p) != '.' as int {
      FinishGoesOn(s, i, p, event, 0, tooBig);
    } else {
      var shift := if event.None? then 0 else FractionShift(s, p + 1, Value(s, i + k, p), p - (i + k) - 1);
      FinishGoesOn(s, i, DigitsEnd(s, p + 1), None, shift, tooBig);
    }
  }

  /** A number reads where it stands as it does alone, if what follows it ends a number; */
  lemma NumberMoves(s: Text, i: nat, w: Text, tooBig: Text -> bool, e: Event)
    requires At(s, i, w) && NumberText(tooBig, w, e) && Decimal.EndsNumber(Peek(s, i + |w|))
    ensures Numbers.ReadNumber(s, i, tooBig) == NumberRead(i + |w|, e)
  {
    hide At, FromInteger, Numbers.ReadNumber;
    Within(s, i, w);
    var k := if Peek(w, 0) == '-' as int then 1 else 0;
    NumberIs(w, 0, tooBig);
    NumberIs(s, i, tooBig);
    SameByte(s, i, w, 0);
    assert k < |w|;
    SameByte(s, i, w, k);
    FromIntegerMoves(s, i, w, k, tooBig);
  }

  /** and alone as where it stands. */
  lemma NumberAlone(s: Text, i: nat, w: Text, tooBig: Text -> bool, e: Event)
    requires At(s, i, w) && w != [] && Numbers.ReadNumber(s, i, tooBig) == NumberRead(i + |w|, e)
    ensures NumberText(tooBig, w, e)
  {
    hide At, FromInteger, Numbers.ReadNumber;
    Within(s, i, w);
    NumberIs(w, 0, tooBig);
    NumberIs(s, i, tooBig);
    SameByte(s, i, w, 0);
    var k := if w[0] == '-' as int then 1 else 0;
    PastSign(s, i, i + k, tooBig);
    SameByte(s, i, w, k);
    FromIntegerMoves(s, i, w, k, tooBig);
  }

  lemma PastSign(s: Text, i: nat, k: nat, tooBig: Text -> bool)
    requires i <= k && IsDigit(Peek(s, k)) && FromInteger(s, i, k, tooBig).NumberRead?
    ensures k < FromInteger(s, i, k, tooBig).next
  {
    hide Finish, FractionShift, Value, IntegerEvent, IntegerEnd;
    var p := IntegerEnd(s, k);
    var event := IntegerEvent(k > i, Value(s, k, p));
    if Peek(s, p) != '.' as int {
      FinishGoesOn(s, i, p, event, 0, tooBig);
    } else {
      var shift := if event.None? then 0 else FractionShift(s, p + 1, Value(s, k, p), p - k - 1);
      FinishGoesOn(s, i, DigitsEnd(s, p + 1), None, shift, tooBig);
    }
  }
}
