/** Number literals: `ParseNumber` of the reader against the mathematical value of the digits. Doubles are
    reported by their literal; whether a literal overflows a double is decided by a parameter. */
module Numbers {
  import opened Bytes
  import opened Events

  newtype uint32 = x: int | 0 <= x < 0x1_0000_0000
  newtype uint64 = x: int | 0 <= x < 0x1_0000_0000_0000_0000

  predicate IsDigit(c: Byte) { '0' as int <= c <= '9' as int }

  function DigitAt(s: Text, i: nat): (d: nat)
    requires IsDigit(Peek(s, i))
    ensures d < 10
  {
    Peek(s, i) - '0' as int
  }

  /** First position from `i` on that holds no digit. */
  function DigitsEnd(s: Text, i: nat): (j: nat)
    ensures i <= j && !IsDigit(Peek(s, j))
    ensures forall k :: i <= k < j ==> IsDigit(Peek(s, k))
    ensures j > i ==> j <= |s|
    decreases if i < |s| then |s| - i else 0
  {
    if IsDigit(Peek(s, i)) then DigitsEnd(s, i + 1) else i
  }

  /** The number the digits in `[i, j)` denote. */
  function Value(s: Text, i: nat, j: nat): (v: nat)
    requires i <= j
    requires forall k :: i <= k < j ==> IsDigit(Peek(s, k))
    decreases j
  {
    if i == j then 0 else Value(s, i, j - 1) * 10 + DigitAt(s, j - 1)
  }

  // ----- what a literal means -----

  /** The event an integer literal must raise, `None` when only a double can hold it. */
  function IntegerEvent(minus: bool, v: nat): (r: Option<Event>)
    ensures r.Some? ==> IsNumberEvent(r.value)
  {
    if minus then
      if v <= 0x8000_0000 then Some(Int(0 - v))
      else if v <= 0x8000_0000_0000_0000 then Some(Int64(0 - v))
      else None
    else
      if v < 0x1_0000_0000 then Some(Uint(v))
      else if v < 0x1_0000_0000_0000_0000 then Some(Uint64(v))
      else None
  }

  /** Fraction digits kept in the significand while it is at most 2^53 - 1. */
  datatype Fraction = Fraction(next: nat, significand: nat, digits: nat, shift: nat)

  function FastFraction(s: Text, p: nat, significand: nat, digits: nat, shift: nat): (r: Fraction)
    ensures p <= r.next <= DigitsEnd(s, p) && r.shift == shift + (r.next - p)
    ensures r.next == DigitsEnd(s, p) || r.significand > 0x1F_FFFF_FFFF_FFFF
    decreases if p < |s| then |s| - p else 0
  {
    if !IsDigit(Peek(s, p)) || significand > 0x1F_FFFF_FFFF_FFFF then Fraction(p, significand, digits, shift)
    else
      var n := significand * 10 + DigitAt(s, p);
      FastFraction(s, p + 1, n, if n != 0 then digits + 1 else digits, shift + 1)
  }

  /** Fraction digits counted while fewer than 17 significant ones were seen; the rest are skipped. */
  function SlowShift(s: Text, p: nat, positive: bool, digits: nat, shift: nat): (r: nat)
    ensures shift <= r <= shift + (DigitsEnd(s, p) - p)
    decreases if p < |s| then |s| - p else 0
  {
    if !IsDigit(Peek(s, p)) then shift
    else if digits < 17 then
      var positive' := positive || DigitAt(s, p) > 0;
      SlowShift(s, p + 1, positive', if positive' then digits + 1 else digits, shift + 1)
    else SlowShift(s, p + 1, positive, digits, shift)
  }

  /** Minus the `expFrac` of the source, for fraction digits from `p` on. */
  function FractionShift(s: Text, p: nat, integer: nat, digits: nat): (r: nat)
    ensures r <= DigitsEnd(s, p) - p
  {
    var f := FastFraction(s, p, integer, digits, 0);
    DigitsEndSkips(s, p, f.next);
    SlowShift(s, f.next, f.significand > 0, f.digits, f.shift)
  }

  lemma {:induction false} DigitsEndSkips(s: Text, p: nat, q: nat)
    requires p <= q <= DigitsEnd(s, p)
    ensures DigitsEnd(s, q) == DigitsEnd(s, p)
    decreases q - p
  {
    if p < q {
      DigitsEndSkips(s, p + 1, q);
    }
  }

  datatype Exponent = Exponent(next: nat, exp: nat, tooBig: bool)

  /** The digits of a positive exponent after the first: reading stops as soon as `maxExp` is passed. */
  function PositiveExponent(s: Text, p: nat, exp: nat, maxExp: nat): (r: Exponent)
    ensures p <= r.next <= DigitsEnd(s, p) && (!r.tooBig ==> r.next == DigitsEnd(s, p))
    decreases if p < |s| then |s| - p else 0
  {
    if !IsDigit(Peek(s, p)) then Exponent(p, exp, false)
    else
      var e := exp * 10 + DigitAt(s, p);
      if e > maxExp then Exponent(p + 1, e, true) else PositiveExponent(s, p + 1, e, maxExp)
  }

  /** The digits of a negative exponent after the first: past `maxExp` the rest is skipped. */
  function NegativeExponent(s: Text, p: nat, exp: nat, maxExp: int): (r: Exponent)
    ensures r.next == DigitsEnd(s, p) && !r.tooBig
    decreases if p < |s| then |s| - p else 0
  {
    if !IsDigit(Peek(s, p)) then Exponent(p, exp, false)
    else
      var e := exp * 10 + DigitAt(s, p);
      if e > maxExp then Exponent(DigitsEnd(s, p + 1), e, false) else NegativeExponent(s, p + 1, e, maxExp)
  }

  /** C division, which truncates toward zero. */
  function CDiv(a: int, b: int): (r: int)
    requires b > 0
  {
    if a >= 0 then a / b else 0 - (0 - a) / b
  }

  function MaxExponent(minus: bool, shift: nat): (r: int) {
    if minus then CDiv(2147483639 - shift, 10) else 308 + shift
  }

  /** The exponent whose digits start at `p`, at least one being there. */
  function ReadExponent(s: Text, p: nat, minus: bool, shift: nat): (r: Exponent)
    requires IsDigit(Peek(s, p))
    ensures p < r.next <= DigitsEnd(s, p) <= |s|
  {
    var first := DigitAt(s, p);
    if minus then NegativeExponent(s, p + 1, first, MaxExponent(true, shift))
    else PositiveExponent(s, p + 1, first, 308 + shift)
  }

  datatype NumberResult = NumberRead(next: nat, event: Event) | NumberBad(code: ErrorCode, offset: nat)

  /** From the exponent mark, if there is one, to the end of the literal that began at `start`. */
  function Finish(s: Text, start: nat, p: nat, integer: Option<Event>, shift: nat, tooBig: Text -> bool): (r: NumberResult)
    requires start < p <= |s|
    requires integer.Some? ==> IsNumberEvent(integer.value)
    ensures r.NumberRead? ==> p <= r.next <= |s| && IsNumberEvent(r.event)
    ensures r.NumberBad? ==> r.code != NoError
  {
    if Peek(s, p) == 'e' as int || Peek(s, p) == 'E' as int then
      var signed := Peek(s, p + 1) == '+' as int || Peek(s, p + 1) == '-' as int;
      var q := if signed then p + 2 else p + 1;
      if !IsDigit(Peek(s, q)) then NumberBad(NumberMissExponent, q)
      else
        var e := ReadExponent(s, q, Peek(s, p + 1) == '-' as int, shift);
        if e.tooBig || tooBig(s[start..e.next]) then NumberBad(NumberTooBig, start)
        else NumberRead(e.next, Double(s[start..e.next]))
    else match integer
      case Some(event) => NumberRead(p, event)
      case None => if tooBig(s[start..p]) then NumberBad(NumberTooBig, start) else NumberRead(p, Double(s[start..p]))
  }

  /** End of the integer part: a leading zero stands alone. */
  function IntegerEnd(s: Text, k: nat): (p: nat)
    requires IsDigit(Peek(s, k))
    ensures k < p <= DigitsEnd(s, k)
  {
    if Peek(s, k) == '0' as int then k + 1 else DigitsEnd(s, k)
  }

  function ReadNumber(s: Text, start: nat, tooBig: Text -> bool): (r: NumberResult)
    ensures r.NumberRead? ==> start < r.next <= |s| && IsNumberEvent(r.event)
    ensures r.NumberBad? ==> r.code != NoError
  {
    var minus := Peek(s, start) == '-' as int;
    var k := if minus then start + 1 else start;
    if !IsDigit(Peek(s, k)) then NumberBad(ValueInvalid, k)
    else
      var p := IntegerEnd(s, k);
      var v := Value(s, k, p);
      if Peek(s, p) != '.' as int then Finish(s, start, p, IntegerEvent(minus, v), 0, tooBig)
      else if !IsDigit(Peek(s, p + 1)) then NumberBad(NumberMissFraction, p + 1)
      else
        var shift := if IntegerEvent(minus, v).None? then 0 else FractionShift(s, p + 1, v, p - k - 1);
        Finish(s, start, DigitsEnd(s, p + 1), None, shift, tooBig)
  }

  // ----- the machine arithmetic of the source -----

  /** `static_cast<int32_t>(~i + 1)`. */
  function Negated32(i: uint32): (r: int)
    ensures i <= 0x8000_0000 ==> r == 0 - i as int
  {
    var u := (0x1_0000_0000 - i as int) % 0x1_0000_0000;
    if u >= 0x8000_0000 then u - 0x1_0000_0000 else u
  }

  /** `static_cast<int64_t>(~i64 + 1)`. */
  function Negated64(i: uint64): (r: int)
    ensures i <= 0x8000_0000_0000_0000 ==> r == 0 - i as int
  {
    var u := (0x1_0000_0000_0000_0000 - i as int) % 0x1_0000_0000_0000_0000;
    if u >= 0x8000_0000_0000_0000 then u - 0x1_0000_0000_0000_0000 else u
  }

  function Pow10(n: nat): (r: nat)
    ensures r >= 1
  {
    if n == 0 then 1 else 10 * Pow10(n - 1)
  }

  lemma {:induction false} Pow10Grows(a: nat, b: nat)
    requires a <= b
    ensures Pow10(a) <= Pow10(b)
    decreases b
  {
    if a < b {
      Pow10Grows(a, b - 1);
    }
  }

  /** Values only grow as digits are appended. */
  lemma {:induction false} ValueGrows(s: Text, k: nat, p: nat, q: nat)
    requires k <= p <= q
    requires forall n :: k <= n < q ==> IsDigit(Peek(s, n))
    ensures Value(s, k, p) <= Value(s, k, q)
    decreases q
  {
    if p < q {
      ValueGrows(s, k, p, q - 1);
    }
  }

  /** The 32-bit loop: stops before the digit that would leave the range the sign allows. */
  method ParseInt32(s: Text, k: nat, minus: bool) returns (p: nat, i: uint32, use64bit: bool, significandDigit: nat)
    requires IsDigit(Peek(s, k)) && Peek(s, k) != '0' as int
    ensures k < p <= DigitsEnd(s, k) && significandDigit == p - k - 1
    ensures i as int == Value(s, k, p) && Pow10(p - k - 1) <= i as int < Pow10(p - k)
    ensures if use64bit then p < DigitsEnd(s, k) && Value(s, k, p + 1) > (if minus then 0x8000_0000 else 0xFFFF_FFFF)
            else p == DigitsEnd(s, k)
    ensures minus ==> i <= 0x8000_0000
  {
    p, use64bit, significandDigit := k + 1, false, 0;
    i := (Peek(s, k) - '0' as int) as uint32;
    DigitsEndSkips(s, k, k + 1);
    while IsDigit(Peek(s, p))
      invariant k < p <= DigitsEnd(s, k) && significandDigit == p - k - 1
      invariant i as int == Value(s, k, p) && Pow10(p - k - 1) <= i as int < Pow10(p - k)
      invariant minus ==> i <= 0x8000_0000
      decreases DigitsEnd(s, k) - p
    {
      var c := Peek(s, p);
      if minus {
        if i >= 214748364 && (i != 214748364 || c > '8' as int) {
          use64bit := true;
          break;
        }
      } else {
        if i >= 429496729 && (i != 429496729 || c > '5' as int) {
          use64bit := true;
          break;
        }
      }
      i := i * 10 + (c - '0' as int) as uint32;
      p := p + 1;
      significandDigit := significandDigit + 1;
    }
  }

  /** The 64-bit loop, entered where the 32-bit one gave up. */
  method ParseInt64(s: Text, k: nat, p0: nat, i: uint32, minus: bool, digits0: nat)
    returns (p: nat, i64: uint64, useDouble: bool, significandDigit: nat)
    requires k < p0 <= DigitsEnd(s, k) && digits0 == p0 - k - 1
    requires i as int == Value(s, k, p0) && Pow10(p0 - k - 1) <= i as int < Pow10(p0 - k)
    requires minus ==> i <= 0x8000_0000
    ensures p0 <= p <= DigitsEnd(s, k) && significandDigit == p - k - 1
    ensures i64 as int == Value(s, k, p)
    ensures if useDouble then
              p < DigitsEnd(s, k) && significandDigit >= 17
              && Value(s, k, p + 1) > (if minus then 0x8000_0000_0000_0000 else 0xFFFF_FFFF_FFFF_FFFF)
            else p == DigitsEnd(s, k) && (minus ==> i64 <= 0x8000_0000_0000_0000)
  {
    p, i64, useDouble, significandDigit := p0, i as uint64, false, digits0;
    while IsDigit(Peek(s, p))
      invariant p0 <= p <= DigitsEnd(s, k) && significandDigit == p - k - 1
      invariant i64 as int == Value(s, k, p) && i64 as int < Pow10(p - k)
      invariant minus ==> i64 <= 0x8000_0000_0000_0000
      decreases DigitsEnd(s, k) - p
    {
      var c := Peek(s, p);
      if minus {
        if i64 >= 0x0CCC_CCCC_CCCC_CCCC && (i64 != 0x0CCC_CCCC_CCCC_CCCC || c > '8' as int) {
          useDouble := true;
          ManyDigits(p - k, i64 as int);
          break;
        }
      } else {
        if i64 >= 0x1999_9999_9999_9999 && (i64 != 0x1999_9999_9999_9999 || c > '5' as int) {
          useDouble := true;
          ManyDigits(p - k, i64 as int);
          break;
        }
      }
      i64 := i64 * 10 + (c - '0' as int) as uint64;
      p := p + 1;
      significandDigit := significandDigit + 1;
    }
  }

  lemma ManyDigits(n: nat, v: int)
    requires 0x0CCC_CCCC_CCCC_CCCC <= v < Pow10(n)
    ensures n >= 18
  {
    assert Pow10(3) == 1_000 && Pow10(5) == 100_000 && Pow10(7) == 10_000_000 && Pow10(9) == 1_000_000_000;
    assert Pow10(11) == 100_000_000_000 && Pow10(13) == 10_000_000_000_000;
    assert Pow10(15) == 1_000_000_000_000_000 && Pow10(17) == 100_000_000_000_000_000;
    if n < 18 {
      Pow10Grows(n, 17);
    }
  }

  /** A value of the source's `int`. */
  ghost predicate InInt(n: int) { -0x8000_0000 <= n <= 0x7FFF_FFFF }

  /** Texts whose length keeps every `int` of number parsing in its range. */
  ghost predicate Moderate(s: Text) { |s| < 0x800_0000 }

  /** What `maxExp` is between for moderate texts. */
  ghost predicate ModerateExponent(maxExp: int) { 9 <= maxExp <= 214748363 }

  lemma MaxExponentIsModerate(s: Text, minus: bool, shift: nat)
    requires Moderate(s) && shift <= |s|
    ensures ModerateExponent(MaxExponent(minus, shift)) && InInt(2147483639 - shift) && InInt(308 + shift)
    ensures shift + MaxExponent(true, shift) * 10 + 9 <= 0x8000_0000
  {
  }

  /** One more digit of a moderate exponent: each intermediate value is an `int`. */
  method NextDigit(s: Text, p: nat, exp: nat, ghost maxExp: int) returns (e: nat)
    requires IsDigit(Peek(s, p)) && (ModerateExponent(maxExp) ==> exp <= maxExp)
    ensures e == exp * 10 + DigitAt(s, p) && (ModerateExponent(maxExp) ==> e <= maxExp * 10 + 9)
  {
    assert ModerateExponent(maxExp) ==> InInt(exp * 10) && InInt(exp * 10 + DigitAt(s, p));
    e := exp * 10 + (Peek(s, p) - '0' as int);
  }

  /** The digits of a negative exponent after the first, the rest skipped once it is too large. */
  method ParseNegativeExponent(s: Text, p0: nat, first: nat, maxExp: int) returns (p: nat, exp: nat)
    requires first < 10
    ensures ModerateExponent(maxExp) ==> exp <= maxExp * 10 + 9
    ensures Exponent(p, exp, false) == NegativeExponent(s, p0, first, maxExp)
  {
    p, exp := p0, first;
    while IsDigit(Peek(s, p))
      invariant NegativeExponent(s, p, exp, maxExp) == NegativeExponent(s, p0, first, maxExp)
      invariant ModerateExponent(maxExp) ==> exp <= maxExp
      decreases DigitsEnd(s, p) - p
    {
      exp := NextDigit(s, p, exp, maxExp);
      p := p + 1;
      if exp > maxExp {
        p := SkipDigits(s, p);
        return;
      }
    }
  }

  method SkipDigits(s: Text, q: nat) returns (p: nat)
    ensures p == DigitsEnd(s, q)
  {
    p := q;
    while IsDigit(Peek(s, p))
      invariant DigitsEnd(s, p) == DigitsEnd(s, q)
      decreases DigitsEnd(s, p) - p
    {
      p := p + 1;
    }
  }

  /** The digits of a positive exponent after the first, up to where it is too large. */
  method ParsePositiveExponent(s: Text, p0: nat, first: nat, maxExp: nat) returns (p: nat, exp: nat, tooBig: bool)
    requires first < 10
    ensures ModerateExponent(maxExp) ==> exp <= maxExp * 10 + 9
    ensures Exponent(p, exp, tooBig) == PositiveExponent(s, p0, first, maxExp)
  {
    p, exp, tooBig := p0, first, false;
    while IsDigit(Peek(s, p))
      invariant PositiveExponent(s, p, exp, maxExp) == PositiveExponent(s, p0, first, maxExp)
      invariant ModerateExponent(maxExp) ==> exp <= maxExp
      decreases DigitsEnd(s, p) - p
    {
      exp := NextDigit(s, p, exp, maxExp);
      p := p + 1;
      if exp > maxExp {
        tooBig := true;
        return;
      }
    }
  }

  /** The exponent, its first digit at `q`. For moderate texts the signed arithmetic on it stays in range. */
  method ParseExponentDigits(s: Text, q: nat, minus: bool, shift: nat) returns (p: nat, exp: nat, tooBig: bool)
    requires IsDigit(Peek(s, q)) && shift <= |s|
    ensures Exponent(p, exp, tooBig) == ReadExponent(s, q, minus, shift)
    ensures Moderate(s) ==> InInt(exp) && InInt(0 - exp) && InInt(if minus then 0 - exp - shift else exp - shift)
  {
    hide NegativeExponent, PositiveExponent;
    if Moderate(s) {
      MaxExponentIsModerate(s, minus, shift);
    }
    var first := Peek(s, q) - '0' as int;
    if minus {
      p, exp := ParseNegativeExponent(s, q + 1, first, MaxExponent(true, shift));
      tooBig := false;
    } else {
      p, exp, tooBig := ParsePositiveExponent(s, q + 1, first, 308 + shift);
    }
  }

  /** The first loop over the fraction digits, the significand in 64 bits. */
  method ParseFastFraction(s: Text, p0: nat, integer: uint64, digits0: nat)
    returns (p: nat, i64: uint64, significandDigit: nat, shift: nat)
    ensures FastFraction(s, p0, integer as int, digits0, 0) == Fraction(p, i64 as int, significandDigit, shift)
  {
    p, i64, significandDigit, shift := p0, integer, digits0, 0;
    while IsDigit(Peek(s, p)) && i64 <= 0x1F_FFFF_FFFF_FFFF
      invariant FastFraction(s, p, i64 as int, significandDigit, shift) == FastFraction(s, p0, integer as int, digits0, 0)
      decreases DigitsEnd(s, p) - p
    {
      i64 := i64 * 10 + (Peek(s, p) - '0' as int) as uint64;
      p := p + 1;
      shift := shift + 1;
      if i64 != 0 {
        significandDigit := significandDigit + 1;
      }
    }
  }

  /** The fraction digits from `p0` on; the result is minus the source's `expFrac`. */
  method ParseFraction(s: Text, p0: nat, integer: uint64, useDouble: bool, digits0: nat) returns (p: nat, shift: nat)
    requires useDouble ==> digits0 >= 17
    ensures p == DigitsEnd(s, p0) && shift <= |s|
    ensures shift == if useDouble then 0 else FractionShift(s, p0, integer as int, digits0)
  {
    hide FastFraction;
    p, shift := p0, 0;
    var significandDigit := digits0;
    var positive := true;
    if !useDouble {
      var i64;
      p, i64, significandDigit, shift := ParseFastFraction(s, p0, integer, digits0);
      DigitsEndSkips(s, p0, p);
      positive := i64 > 0;
    }
    ghost var q, positive0, digits1, shift0 := p, positive, significandDigit, shift;
    while IsDigit(Peek(s, p))
      invariant DigitsEnd(s, p) == DigitsEnd(s, p0)
      invariant SlowShift(s, p, positive, significandDigit, shift) == SlowShift(s, q, positive0, digits1, shift0)
      invariant useDouble ==> significandDigit >= 17 && shift == 0
      decreases DigitsEnd(s, p) - p
    {
      if significandDigit < 17 {
        positive := positive || Peek(s, p) > '0' as int;
        shift := shift + 1;
        if positive {
          significandDigit := significandDigit + 1;
        }
      }
      p := p + 1;
    }
  }

  /** The integer part: accumulators, and the digits a double swallows. */
  method ParseInteger(s: Text, k: nat, minus: bool)
    returns (p: nat, i: uint32, i64: uint64, use64bit: bool, useDouble: bool, significandDigit: nat)
    requires IsDigit(Peek(s, k))
    ensures p == IntegerEnd(s, k)
    ensures useDouble <==> IntegerEvent(minus, Value(s, k, p)).None?
    ensures useDouble ==> significandDigit >= 17
    ensures !useDouble ==> significandDigit == p - k - 1
    ensures !useDouble && use64bit ==> i64 as int == Value(s, k, p) > (if minus then 0x8000_0000 else 0xFFFF_FFFF)
    ensures !useDouble && !use64bit ==> i as int == Value(s, k, p) && (minus ==> i <= 0x8000_0000)
  {
    hide DigitsEnd, Pow10;
    p, i, i64, use64bit, useDouble, significandDigit := k, 0, 0, false, false, 0;
    if Peek(s, k) == '0' as int {
      p := k + 1;
      assert Value(s, k, p) == Value(s, k, k) * 10 + DigitAt(s, k);
      return;
    }
    p, i, use64bit, significandDigit := ParseInt32(s, k, minus);
    if use64bit {
      ValueGrows(s, k, p + 1, DigitsEnd(s, k));
      p, i64, useDouble, significandDigit := ParseInt64(s, k, p, i, minus, significandDigit);
      if useDouble {
        ValueGrows(s, k, p + 1, DigitsEnd(s, k));
        DigitsEndSkips(s, k, p);
        while IsDigit(Peek(s, p))
          invariant k < p <= DigitsEnd(s, k) && DigitsEnd(s, p) == DigitsEnd(s, k)
          decreases DigitsEnd(s, p) - p
        {
          p := p + 1;
        }
      }
    }
  }

  /** The exponent, if there is one, and the event. */
  method FinishNumber(s: Text, start: nat, p0: nat, integer: Option<Event>, shift: nat, tooBig: Text -> bool)
    returns (r: NumberResult)
    requires start < p0 <= |s| && shift <= |s| && (integer.Some? ==> IsNumberEvent(integer.value))
    ensures r == Finish(s, start, p0, integer, shift, tooBig)
  {
    hide ReadExponent, MaxExponent;
    var p, useDouble := p0, integer.None?;
    if Peek(s, p) == 'e' as int || Peek(s, p) == 'E' as int {
      p := p + 1;
      useDouble := true;
      var expMinus := Peek(s, p) == '-' as int;
      if Peek(s, p) == '+' as int || expMinus {
        p := p + 1;
      }
      if !IsDigit(Peek(s, p)) {
        return NumberBad(NumberMissExponent, p);
      }
      var exp, expTooBig;
      p, exp, expTooBig := ParseExponentDigits(s, p, expMinus, shift);
      if expTooBig {
        return NumberBad(NumberTooBig, start);
      }
    }
    if useDouble {
      if tooBig(s[start..p]) {
        return NumberBad(NumberTooBig, start);
      }
      r := NumberRead(p, Double(s[start..p]));
    } else {
      r := NumberRead(p, integer.value);
    }
  }

  /** `ParseNumber`: the literal at `start` is read exactly, integers without wrap-around. */
  method ParseNumber(s: Text, start: nat, tooBig: Text -> bool) returns (r: NumberResult)
    ensures r == ReadNumber(s, start, tooBig)
  {
    hide Finish, FractionShift, DigitsEnd, Value, IntegerEnd, Negated32, Negated64;
    var minus := Peek(s, start) == '-' as int;
    var k := if minus then start + 1 else start;
    if !IsDigit(Peek(s, k)) {
      return NumberBad(ValueInvalid, k);
    }
    var p, i, i64, use64bit, useDouble, significandDigit := ParseInteger(s, k, minus);
    if Peek(s, p) == '.' as int {
      p := p + 1;
      if !IsDigit(Peek(s, p)) {
        return NumberBad(NumberMissFraction, p);
      }
      var shift;
      p, shift := ParseFraction(s, p, if use64bit then i64 else i as uint64, useDouble, significandDigit);
      r := FinishNumber(s, start, p, None, shift, tooBig);
      return;
    }
    var event :=
      if useDouble then None
      else if use64bit then Some(if minus then Int64(Negated64(i64)) else Uint64(i64 as int))
      else Some(if minus then Int(Negated32(i)) else Uint(i as int));
    r := FinishNumber(s, start, p, event, 0, tooBig);
  }

  // ----- no signed overflow -----

  lemma {:induction false} PositiveExponentBound(s: Text, p: nat, exp: nat, maxExp: nat)
    requires exp <= maxExp
    ensures exp <= PositiveExponent(s, p, exp, maxExp).exp <= 10 * maxExp + 9
    decreases if p < |s| then |s| - p else 0
  {
    if IsDigit(Peek(s, p)) {
      var e := exp * 10 + DigitAt(s, p);
      if e <= maxExp {
        PositiveExponentBound(s, p + 1, e, maxExp);
      }
    }
  }

  lemma {:induction false} NegativeExponentBound(s: Text, p: nat, exp: nat, maxExp: nat)
    requires exp <= maxExp
    ensures exp <= NegativeExponent(s, p, exp, maxExp).exp <= 10 * maxExp + 9
    decreases if p < |s| then |s| - p else 0
  {
    if IsDigit(Peek(s, p)) {
      var e := exp * 10 + DigitAt(s, p);
      if e <= maxExp {
        NegativeExponentBound(s, p + 1, e, maxExp);
      }
    }
  }

  /** For texts under 2^27 bytes the signed arithmetic of the fraction and exponent stays within 32 bits: the
      exponent only grows while its digits are read, so its last value bounds every intermediate one. */
  lemma ExponentArithmeticFits(s: Text, p: nat, integer: nat, digits: nat, q: nat, minus: bool)
    requires |s| < 0x800_0000 && IsDigit(Peek(s, q))
    ensures var shift := FractionShift(s, p, integer, digits);
      var exp := ReadExponent(s, q, minus, shift).exp;
      && shift < 0x800_0000
      && -0x8000_0000 <= MaxExponent(minus, shift) <= 0x7FFF_FFFF
      && DigitAt(s, q) <= exp <= 0x7FFF_FFFF
      && (minus ==> -0x8000_0000 <= 0 - exp - shift)
      && (!minus ==> -0x8000_0000 <= exp - shift <= 0x7FFF_FFFF)
  {
    var shift := FractionShift(s, p, integer, digits);
    if DigitsEnd(s, p) > p { assert DigitsEnd(s, p) <= |s|; }
    if minus {
      NegativeExponentBound(s, q + 1, DigitAt(s, q), MaxExponent(true, shift));
    } else {
      PositiveExponentBound(s, q + 1, DigitAt(s, q), 308 + shift);
    }
  }
}
