/** Which texts are numbers: the grammar of RFC 8259, section 6, against the reader. */
module NumberGrammar {
  import opened Bytes
  import opened Events
  import opened Numbers
  import opened JsonLiterals

  // ----- the grammar -----

  ghost predicate DigitRun(d: Text) { d != [] && forall k :: 0 <= k < |d| ==> 0x30 <= d[k] <= 0x39 }

  ghost predicate IntPart(d: Text) { DigitRun(d) && (|d| > 1 ==> d[0] != 0x30) }

  ghost predicate FracPart(f: Text) { f == [] || (f[0] == '.' as int && DigitRun(f[1..])) }

  ghost predicate ExpPart(e: Text) {
    e == [] || ((e[0] == 'e' as int || e[0] == 'E' as int)
                && (DigitRun(e[1..]) || (|e| > 1 && (e[1] == '+' as int || e[1] == '-' as int) && DigitRun(e[2..]))))
  }

  /** An optional minus sign, the integer part, and optionally a fraction and an exponent. */
  datatype NumberParts = NumberParts(sign: Text, whole: Text, frac: Text, exp: Text)

  function PartsText(p: NumberParts): (w: Text) { p.sign + p.whole + p.frac + p.exp }

  ghost predicate WellParted(p: NumberParts) {
    (p.sign == [] || p.sign == ['-' as int]) && IntPart(p.whole) && FracPart(p.frac) && ExpPart(p.exp)
  }

  /** What such a number must be reported as: an integer by the smallest of the four types that holds it, by sign. */
  ghost function EventOf(p: NumberParts): (e: Event)
    requires WellParted(p)
  {
    var v, w := DecimalValue(p.whole), PartsText(p);
    if p.frac != [] || p.exp != [] then Double(w)
    else if p.sign != [] then
      if v <= 0x8000_0000 then Int(0 - v) else if v <= 0x8000_0000_0000_0000 then Int64(0 - v) else Double(w)
    else
      if v <= 0xFFFF_FFFF then Uint(v) else if v <= 0xFFFF_FFFF_FFFF_FFFF then Uint64(v) else Double(w)
  }

  /** The number that digits denote. */
  ghost function DecimalValue(d: Text): (v: nat)
    requires forall k :: 0 <= k < |d| ==> 0x30 <= d[k] <= 0x39
  {
    if d == [] then 0 else DecimalValue(d[..|d| - 1]) * 10 + (d[|d| - 1] - 0x30)
  }

  /** The digits of an exponent. */
  ghost function ExpDigits(e: Text): (d: Text)
    requires ExpPart(e) && e != []
    ensures DigitRun(d)
  {
    if e[1] == '+' as int || e[1] == '-' as int then e[2..] else e[1..]
  }

  /** An exponent that is not negative and more than `n`. */
  ghost predicate Exceeds(e: Text, n: nat)
    requires ExpPart(e)
  {
    e != [] && e[1] != '-' as int && DecimalValue(ExpDigits(e)) > n
  }

  /** How many zeros stand in front. */
  ghost function Zeros(d: Text): (z: nat)
    ensures z <= |d| && (forall k :: 0 <= k < z ==> d[k] == 0x30) && (z < |d| ==> d[z] != 0x30)
  {
    if d == [] || d[0] != 0x30 then 0 else 1 + Zeros(d[1..])
  }

  /** Where taking digits stops, counted from the first digit: behind seventeen significant ones, not counting the first
      digit of the number. */
  ghost function StopsAt(d: Text): (n: nat) { if Zeros(d) == 0 then 18 else Zeros(d) + 17 }

  /** How many digits of the fraction the reader takes into the significand. */
  ghost function Counted(p: NumberParts): (n: nat)
    requires WellParted(p)
  {
    if p.frac == [] then 0
    else
      var d := p.whole + p.frac[1..];
      if StopsAt(d) <= |p.whole| then 0 else if StopsAt(d) <= |d| then StopsAt(d) - |p.whole| else |d| - |p.whole|
  }

  // ----- runs of digits -----

  lemma {:induction false} RunIs(s: Text, i: nat, e: nat)
    requires i <= e && (forall k :: i <= k < e ==> IsDigit(Peek(s, k))) && !IsDigit(Peek(s, e))
    ensures DigitsEnd(s, i) == e
    decreases e - i
  {
    if i < e {
      RunIs(s, i + 1, e);
    }
  }

  lemma {:induction false} ValueIs(s: Text, i: nat, d: Text)
    requires At(s, i, d) && forall k :: 0 <= k < |d| ==> 0x30 <= d[k] <= 0x39
    ensures forall k :: i <= k < i + |d| ==> IsDigit(Peek(s, k))
    ensures Value(s, i, i + |d|) == DecimalValue(d)
    decreases |d|
  {
    forall k | i <= k < i + |d| ensures IsDigit(Peek(s, k)) {
      AtByte(s, i, d, k - i);
    }
    if d != [] {
      var high := d[..|d| - 1];
      assert d == high + [d[|d| - 1]];
      AtSplit(s, i, high, [d[|d| - 1]]);
      AtByte(s, i, d, |d| - 1);
      ValueIs(s, i, high);
    }
  }

  lemma RunAt(s: Text, i: nat, d: Text)
    requires At(s, i, d) && DigitRun(d) && !IsDigit(Peek(s, i + |d|))
    ensures DigitsEnd(s, i) == i + |d| && IsDigit(Peek(s, i)) && Peek(s, i) == d[0]
  {
    forall k | i <= k < i + |d| ensures IsDigit(Peek(s, k)) {
      AtByte(s, i, d, k - i);
    }
    AtByte(s, i, d, 0);
    RunIs(s, i, i + |d|);
  }

  /** The digits found from `i` on. */
  lemma RunFound(s: Text, i: nat)
    requires IsDigit(Peek(s, i))
    ensures i < DigitsEnd(s, i) <= |s| && DigitRun(s[i..DigitsEnd(s, i)])
  {
    var e := DigitsEnd(s, i);
    assert forall k :: i <= k < e ==> s[k] == Peek(s, k);
  }

  // ----- every number of the grammar is read -----

  lemma {:induction false} ValueGrows(s: Text, i: nat, j: nat, k: nat)
    requires i <= j <= k && forall m :: i <= m < k ==> IsDigit(Peek(s, m))
    ensures Value(s, i, j) <= Value(s, i, k)
    decreases k
  {
    if j < k {
      ValueGrows(s, i, j, k - 1);
    }
  }

  /** A positive exponent is refused exactly when its value passes the bound. */
  lemma {:induction false} PassesBound(s: Text, q: nat, p: nat, e: nat, bound: nat)
    requires q < p <= e && DigitsEnd(s, p) == e && forall m :: q <= m < e ==> IsDigit(Peek(s, m))
    requires Value(s, q, p) <= bound
    ensures PositiveExponent(s, p, Value(s, q, p), bound).tooBig <==> Value(s, q, e) > bound
    decreases e - p
  {
    if p < e {
      assert Value(s, q, p + 1) == Value(s, q, p) * 10 + DigitAt(s, p);
      if Value(s, q, p + 1) > bound {
        ValueGrows(s, q, p + 1, e);
      } else {
        PassesBound(s, q, p + 1, e, bound);
      }
    }
  }

  lemma {:induction false} NegativeIs(s: Text, q: nat, p: nat, e: nat, bound: int)
    requires q < p <= e && DigitsEnd(s, p) == e && forall m :: q <= m < e ==> IsDigit(Peek(s, m))
    requires p == e || Value(s, q, p) <= bound
    ensures var r := NegativeExponent(s, p, Value(s, q, p), bound);
      r.exp == Value(s, q, e) || (r.exp > bound && Value(s, q, e) > bound)
    decreases e - p
  {
    if p < e {
      assert Value(s, q, p + 1) == Value(s, q, p) * 10 + DigitAt(s, p);
      if Value(s, q, p + 1) > bound {
        ValueGrows(s, q, p + 1, e);
      } else {
        NegativeIs(s, q, p + 1, e, bound);
      }
    }
  }

  lemma {:induction false} PositiveIs(s: Text, q: nat, p: nat, e: nat, bound: nat)
    requires q < p <= e && DigitsEnd(s, p) == e && forall m :: q <= m < e ==> IsDigit(Peek(s, m))
    ensures var r := PositiveExponent(s, p, Value(s, q, p), bound); !r.tooBig ==> r.exp == Value(s, q, e)
    decreases e - p
  {
    if p < e {
      assert Value(s, q, p + 1) == Value(s, q, p) * 10 + DigitAt(s, p);
      PositiveIs(s, q, p + 1, e, bound);
    }
  }

  /** The exponent that is read is the one that is written, but for a negative one beyond what the fraction digits leave
      of 32 bits, which is read as some other beyond that. */
  lemma ExponentIsExact(w: Text, q: nat, minus: bool, shift: nat)
    requires q < |w| && DigitRun(w[q..]) && shift <= 2147483549
    ensures IsDigit(Peek(w, q))
    ensures var e, v, bound := ReadExponent(w, q, minus, shift), DecimalValue(w[q..]), (2147483639 - shift) / 10;
      if minus then e.exp == v || (e.exp > bound && v > bound) else !e.tooBig ==> e.exp == v
  {
    hide PositiveExponent, NegativeExponent, DecimalValue, Value;
    var d := w[q..];
    assert w[q..q + |d|] == d;
    RunAt(w, q, d);
    ValueIs(w, q, d);
    DigitsEndSkips(w, q, q + 1);
    FirstDigit(w, q);
    NegativeIs(w, q, q + 1, |w|, (2147483639 - shift) / 10);
    PositiveIs(w, q, q + 1, |w|, 308 + shift);
  }

  /** The exponent whose digits end the text. */
  lemma ExponentPasses(w: Text, q: nat, minus: bool, shift: nat)
    requires q < |w| && DigitRun(w[q..])
    ensures IsDigit(Peek(w, q))
    ensures var e := ReadExponent(w, q, minus, shift);
      && (e.tooBig <==> !minus && DecimalValue(w[q..]) > 308 + shift) && (!e.tooBig ==> e.next == |w|)
  {
    hide PositiveExponent, NegativeExponent, DecimalValue, Value;
    var d := w[q..];
    assert w[q..q + |d|] == d;
    RunAt(w, q, d);
    ValueIs(w, q, d);
    DigitsEndSkips(w, q, q + 1);
    FirstDigit(w, q);
    PassesBound(w, q, q + 1, |w|, 308 + shift);
  }

  lemma FirstDigit(w: Text, q: nat)
    requires IsDigit(Peek(w, q))
    ensures Value(w, q, q + 1) == DigitAt(w, q) <= 9
  {
    assert Value(w, q, q) == 0;
  }

  /** The exponent, or none, is read to the end of the text. */
  lemma ExponentRead(w: Text, p: nat, exp: Text, integer: Option<Event>, shift: nat, tooBig: Text -> bool)
    requires 0 < p <= |w| && w[p..] == exp && ExpPart(exp) && (integer.Some? ==> IsNumberEvent(integer.value))
    ensures Finish(w, 0, p, integer, shift, tooBig) ==
      if exp == [] && integer.Some? then NumberRead(|w|, integer.value)
      else if tooBig(w) || Exceeds(exp, 308 + shift) then NumberBad(NumberTooBig, 0)
      else NumberRead(|w|, Double(w))
  {
    hide ReadExponent, Finish, DigitsEnd, At, DigitRun, DecimalValue;
    assert w[0..|w|] == w;
    assert forall k :: 0 <= k < |exp| ==> w[p + k] == exp[k];
    if exp == [] {
      NoMark(w, p, integer, shift, tooBig);
    } else {
      FinishAtMark(w, 0, p, integer, shift, tooBig);
      var q := if Peek(w, p + 1) == '+' as int || Peek(w, p + 1) == '-' as int then p + 2 else p + 1;
      MarkedRun(w, p, exp, q);
      ExponentPasses(w, q, Peek(w, p + 1) == '-' as int, shift);
    }
  }

  lemma MarkedRun(w: Text, p: nat, exp: Text, q: nat)
    requires p <= |w| && w[p..] == exp && ExpPart(exp) && exp != []
    requires q == if Peek(w, p + 1) == '+' as int || Peek(w, p + 1) == '-' as int then p + 2 else p + 1
    ensures p + 1 < q + 1 <= |w| && DigitRun(w[q..]) && w[q..] == ExpDigits(exp) && Peek(w, p + 1) == exp[1]
  {
    assert forall k :: 0 <= k < |exp| ==> w[p + k] == exp[k];
    assert |exp| > 1 ==> exp[1..][0] == exp[1];
    assert w[q..] == exp[q - p..];
  }

  lemma NoMark(w: Text, p: nat, integer: Option<Event>, shift: nat, tooBig: Text -> bool)
    requires 0 < p == |w| && (integer.Some? ==> IsNumberEvent(integer.value))
    ensures Finish(w, 0, p, integer, shift, tooBig) ==
      match integer
      case Some(event) => NumberRead(p, event)
      case None => if tooBig(w[0..p]) then NumberBad(NumberTooBig, 0) else NumberRead(p, Double(w[0..p]))
  {
  }

  lemma PartsAt(u: NumberParts)
    ensures var w, k := PartsText(u), |u.sign|;
      var p := k + |u.whole|;
      var q := p + |u.frac|;
      && q <= |w| && w[..k] == u.sign && At(w, k, u.whole) && w[k..p] == u.whole && w[p..q] == u.frac && w[q..] == u.exp
  {
    var w, k := PartsText(u), |u.sign|;
    assert w[k..k + |u.whole|] == u.whole;
  }

  /** What follows the integer part is no digit. */
  lemma FollowsInt(u: NumberParts)
    requires WellParted(u)
    ensures var w, p := PartsText(u), |u.sign| + |u.whole|;
      && !IsDigit(Peek(w, p)) && (Peek(w, p) == '.' as int <==> u.frac != [])
      && Peek(w, 0) == (if u.sign == [] then u.whole[0] else '-' as int)
      && !IsDigit(Peek(w, p + |u.frac|))
  {
    PartsAt(u);
    var w, p := PartsText(u), |u.sign| + |u.whole|;
    var q := p + |u.frac|;
    assert u.frac != [] ==> w[p] == w[p..q][0];
    assert u.exp != [] ==> w[q] == w[q..][0];
    assert u.sign == [] ==> w[0] == w[0..p][0];
  }

  /** The integer part as the reader finds it. */
  lemma IntRead(u: NumberParts)
    requires WellParted(u)
    ensures var w, k := PartsText(u), |u.sign|;
      && k == (if Peek(w, 0) == '-' as int then 1 else 0) && IsDigit(Peek(w, k))
      && IntegerEnd(w, k) == k + |u.whole| && Value(w, k, k + |u.whole|) == DecimalValue(u.whole)
  {
    hide DigitsEnd, Value, ExpPart, FracPart;
    var w, k := PartsText(u), |u.sign|;
    PartsAt(u);
    FollowsInt(u);
    RunAt(w, k, u.whole);
    ValueIs(w, k, u.whole);
    IntEnds(w, k, u.whole);
  }

  /** The fraction as the reader finds it. */
  lemma FracRead(u: NumberParts)
    requires WellParted(u) && u.frac != []
    ensures var w, p := PartsText(u), |u.sign| + |u.whole|;
      Peek(w, p) == '.' as int && IsDigit(Peek(w, p + 1)) && DigitsEnd(w, p + 1) == p + |u.frac|
  {
    hide DigitsEnd, ExpPart, IntPart;
    var w, p := PartsText(u), |u.sign| + |u.whole|;
    PartsAt(u);
    FollowsInt(u);
    var run := u.frac[1..];
    assert w[p + 1..p + |u.frac|] == w[p..p + |u.frac|][1..] == run;
    assert At(w, p + 1, run);
    RunAt(w, p + 1, run);
  }

  lemma DueEvent(u: NumberParts)
    requires WellParted(u)
    ensures EventOf(u) ==
      if u.frac == [] && u.exp == [] && IntegerEvent(u.sign != [], DecimalValue(u.whole)).Some?
      then IntegerEvent(u.sign != [], DecimalValue(u.whole)).value
      else Double(PartsText(u))
  {
    hide DecimalValue, IntPart, FracPart, ExpPart, PartsText;
  }

  lemma ReadsIntegral(u: NumberParts, tooBig: Text -> bool)
    requires WellParted(u) && u.frac == []
    ensures Numbers.ReadNumber(PartsText(u), 0, tooBig)
         == Finish(PartsText(u), 0, |u.sign| + |u.whole|, IntegerEvent(u.sign != [], DecimalValue(u.whole)), 0, tooBig)
  {
    hide Finish, FractionShift, Value, IntegerEvent, DigitsEnd, Numbers.ReadNumber, ExpPart, FracPart, IntPart, FromInteger,
      PartsText, IntegerEnd, DecimalValue;
    PartsAt(u);
    FollowsInt(u);
    NumberIs(PartsText(u), 0, tooBig);
    IntRead(u);
    IntDigits(u.whole);
    FromIntegerIs(PartsText(u), |u.sign|, tooBig);
  }

  lemma ReadsFractional(u: NumberParts, tooBig: Text -> bool)
    requires WellParted(u) && u.frac != []
    ensures var q := |u.sign| + |u.whole| + |u.frac|;
      q <= |PartsText(u)| && Numbers.ReadNumber(PartsText(u), 0, tooBig) == Finish(PartsText(u), 0, q, None, Counted(u), tooBig)
  {
    hide Finish, FractionShift, Value, IntegerEvent, DigitsEnd, Numbers.ReadNumber, ExpPart, FracPart, IntPart, FromInteger,
      PartsText, IntegerEnd, DecimalValue;
    PartsAt(u);
    FollowsInt(u);
    NumberIs(PartsText(u), 0, tooBig);
    IntRead(u);
    IntDigits(u.whole);
    FromIntegerIs(PartsText(u), |u.sign|, tooBig);
    FracRead(u);
    ShiftIsCounted(u);
  }

  /** A number of the grammar is read to its end, in the event that is due, unless that is a double and the exponent is
      too large for the digits counted or the double would overflow. */
  lemma NumbersAreRead(u: NumberParts, tooBig: Text -> bool)
    requires WellParted(u)
    ensures Numbers.ReadNumber(PartsText(u), 0, tooBig) ==
      if EventOf(u).Double? && (tooBig(PartsText(u)) || Exceeds(u.exp, 308 + Counted(u))) then NumberBad(NumberTooBig, 0)
      else NumberRead(|PartsText(u)|, EventOf(u))
  {
    hide Finish, FractionShift, IntegerEvent, Numbers.ReadNumber, ExpPart, FracPart, IntPart, PartsText, DecimalValue,
      EventOf, Exceeds;
    PartsAt(u);
    IntDigits(u.whole);
    DueEvent(u);
    var event := IntegerEvent(u.sign != [], DecimalValue(u.whole));
    NoDouble(u.sign != [], DecimalValue(u.whole));
    NoExponent(308 + Counted(u));
    if u.frac == [] {
      ReadsIntegral(u, tooBig);
      ExponentRead(PartsText(u), |u.sign| + |u.whole|, u.exp, event, 0, tooBig);
    } else {
      ReadsFractional(u, tooBig);
      ExponentRead(PartsText(u), |u.sign| + |u.whole| + |u.frac|, u.exp, None, Counted(u), tooBig);
    }
  }

  lemma NoExponent(n: nat)
    ensures ExpPart([]) && !Exceeds([], n)
  {
  }

  lemma NoDouble(minus: bool, v: nat)
    ensures var e := IntegerEvent(minus, v); e.Some? ==> !e.value.Double?
  {
  }

  // ----- how many digits are counted -----

  lemma AllDigits(a: Text, b: Text)
    requires (forall k :: 0 <= k < |a| ==> 0x30 <= a[k] <= 0x39) && forall k :: 0 <= k < |b| ==> 0x30 <= b[k] <= 0x39
    ensures forall k :: 0 <= k < |a + b| ==> 0x30 <= (a + b)[k] <= 0x39
  {
  }

  lemma PrefixStep(d: Text, m: nat)
    requires m < |d| && forall k :: 0 <= k < |d| ==> 0x30 <= d[k] <= 0x39
    ensures DecimalValue(d[..m + 1]) == DecimalValue(d[..m]) * 10 + (d[m] - 0x30)
  {
    assert d[..m + 1][..m] == d[..m];
  }

  /** As many digits, a number that large at least if the first is no zero, and less than the next power in any case. */
  lemma {:induction false} PrefixBounds(d: Text, m: nat)
    requires m <= |d| && forall k :: 0 <= k < |d| ==> 0x30 <= d[k] <= 0x39
    ensures var z := Zeros(d);
      && DecimalValue(d[..m]) < Pow10(m) && (m <= z ==> DecimalValue(d[..m]) == 0)
      && (m > z ==> DecimalValue(d[..m]) >= Pow10(m - z - 1))
    decreases m
  {
    hide DecimalValue, Zeros;
    if m == 0 {
      NoDigits(d);
    } else {
      PrefixStep(d, m - 1);
      PrefixBounds(d, m - 1);
    }
  }

  lemma NoDigits(d: Text)
    ensures d[..0] == [] && DecimalValue([]) == 0
  {
  }

  lemma {:induction false} PowerGrows(m: nat, n: nat)
    requires m <= n
    ensures 1 <= Pow10(m) <= Pow10(n)
    decreases n
  {
    if m < n {
      PowerGrows(m, n - 1);
    } else if m > 0 {
      PowerGrows(m - 1, m - 1);
    }
  }

  /** Sixteen zeros make more than 2^53, eighteen no more than 2^63. */
  lemma Powers()
    ensures Pow10(16) > 0x1F_FFFF_FFFF_FFFF && Pow10(18) <= 0x8000_0000_0000_0000
  {
    assert Pow10(3) == 1000;
    assert Pow10(6) == 1000_000;
    assert Pow10(9) == 1000_000_000;
    assert Pow10(12) == 1000_000_000_000;
    assert Pow10(15) == 1000_000_000_000_000;
    assert Pow10(18) == 1000_000_000_000_000_000;
  }

  /** Behind `m` digits: the significant ones among them, and whether one of them is no zero. */
  ghost function Significant(d: Text, m: nat): (n: nat) {
    var b := StopsAt(d) - 17;
    if m <= b then 0 else m - b
  }

  /** The digits `d` stand in `w` from `off + m` on, to the end of their run. */
  ghost predicate RunBehind(w: Text, off: nat, d: Text, m: nat) {
    && m <= |d| && (forall k :: 0 <= k < |d| ==> 0x30 <= d[k] <= 0x39)
    && (forall k :: m <= k < |d| ==> Peek(w, off + k) == d[k]) && !IsDigit(Peek(w, off + |d|))
  }

  lemma {:induction false} SlowDone(w: Text, p: nat, positive: bool, digits: nat, shift: nat)
    requires digits >= 17
    ensures SlowShift(w, p, positive, digits, shift) == shift
    decreases if p < |w| then |w| - p else 0
  {
    if IsDigit(Peek(w, p)) {
      SlowDone(w, p + 1, positive, digits, shift);
    }
  }

  lemma NextSignificant(w: Text, off: nat, d: Text, m: nat)
    requires RunBehind(w, off, d, m) && 0 < m < |d|
    ensures IsDigit(Peek(w, off + m)) && DigitAt(w, off + m) == d[m] - 0x30
    ensures m + 1 > Zeros(d) <==> m > Zeros(d) || DigitAt(w, off + m) > 0
    ensures Significant(d, m + 1) == if m + 1 > Zeros(d) then Significant(d, m) + 1 else Significant(d, m)
  {
    hide Zeros;
    assert Peek(w, off + m) == d[m];
  }

  /** The slow loop goes on to where it stops, or to the end. */
  lemma {:induction false} SlowCounts(w: Text, off: nat, d: Text, m: nat, shift: nat)
    requires RunBehind(w, off, d, m) && 0 < m <= StopsAt(d)
    ensures SlowShift(w, off + m, m > Zeros(d), Significant(d, m), shift)
         == shift + (if StopsAt(d) <= |d| then StopsAt(d) else |d|) - m
    decreases |d| - m
  {
    hide Zeros;
    if m == StopsAt(d) {
      SlowDone(w, off + m, m > Zeros(d), Significant(d, m), shift);
    } else if m < |d| {
      NextSignificant(w, off, d, m);
      SlowCounts(w, off, d, m + 1, shift + 1);
    }
  }

  /** The fast loop hands over before that. */
  lemma {:induction false} FastCounts(w: Text, off: nat, d: Text, m: nat, shift: nat) returns (k: nat)
    requires RunBehind(w, off, d, m) && 0 < m <= StopsAt(d)
    ensures m <= k <= |d| && k <= StopsAt(d)
    ensures FastFraction(w, off + m, DecimalValue(d[..m]), Significant(d, m), shift)
         == Fraction(off + k, DecimalValue(d[..k]), Significant(d, k), shift + (k - m))
    decreases |d| - m
  {
    hide DecimalValue, Zeros, Pow10, Significant;
    k := m;
    if m < |d| {
      NextSignificant(w, off, d, m);
      PrefixBounds(d, m);
      if m == StopsAt(d) {
        Powers();
        PowerGrows(16, m - Zeros(d) - 1);
      } else if DecimalValue(d[..m]) <= 0x1F_FFFF_FFFF_FFFF {
        PrefixStep(d, m);
        NotZero(d, m + 1);
        k := FastCounts(w, off, d, m + 1, shift + 1);
      }
    }
  }

  /** Digits make no zero exactly when one of them is none. */
  lemma NotZero(d: Text, m: nat)
    requires m <= |d| && forall k :: 0 <= k < |d| ==> 0x30 <= d[k] <= 0x39
    ensures DecimalValue(d[..m]) > 0 <==> m > Zeros(d)
  {
    hide DecimalValue, Zeros, Pow10;
    PrefixBounds(d, m);
    if m > Zeros(d) {
      PowerGrows(0, m - Zeros(d) - 1);
    }
  }

  lemma FastThenSlow(w: Text, p: nat, v: nat, digits: nat, q: nat, significand: nat, more: nat, shift: nat)
    requires FastFraction(w, p, v, digits, 0) == Fraction(q, significand, more, shift)
    ensures FractionShift(w, p, v, digits) == SlowShift(w, q, significand > 0, more, shift)
  {
    hide FastFraction, SlowShift;
  }

  lemma BothCount(w: Text, off: nat, d: Text, m: nat)
    requires RunBehind(w, off, d, m) && 0 < m && (m == 1 || Zeros(d) == 0)
    ensures FractionShift(w, off + m, DecimalValue(d[..m]), m - 1)
         == if StopsAt(d) <= m then 0 else if StopsAt(d) <= |d| then StopsAt(d) - m else |d| - m
  {
    hide DecimalValue, Pow10, FastFraction, SlowShift, FractionShift, Significant, RunBehind, StopsAt, Zeros;
    DigitsOfRun(w, off, d, m, m);
    FirstSignificant(d, m);
    if m <= StopsAt(d) {
      var k := FastCounts(w, off, d, m, 0);
      DigitsOfRun(w, off, d, m, k);
      NotZero(d, k);
      SlowCounts(w, off, d, k, k - m);
      assert FastFraction(w, off + m, DecimalValue(d[..m]), m - 1, 0).next == off + k;
      FastThenSlow(w, off + m, DecimalValue(d[..m]), m - 1, off + k, DecimalValue(d[..k]), Significant(d, k), k - m);
    } else {
      FastStops(w, off, d, m);
      SlowDone(w, off + m, true, m - 1, 0);
      FastThenSlow(w, off + m, DecimalValue(d[..m]), m - 1, off + m, DecimalValue(d[..m]), m - 1, 0);
    }
  }

  lemma FirstSignificant(d: Text, m: nat)
    requires 0 < m && (m == 1 || Zeros(d) == 0)
    ensures Significant(d, m) == m - 1
  {
  }

  lemma DigitsOfRun(w: Text, off: nat, d: Text, m: nat, k: nat)
    requires RunBehind(w, off, d, m) && m <= k
    ensures m <= |d| && (k <= |d| ==> RunBehind(w, off, d, k)) && forall j :: 0 <= j < |d| ==> 0x30 <= d[j] <= 0x39
  {
  }

  /** With nineteen digits and more in front the fast loop takes none. */
  lemma FastStops(w: Text, off: nat, d: Text, m: nat)
    requires RunBehind(w, off, d, m) && m > StopsAt(d) && (m == 1 || Zeros(d) == 0)
    ensures FastFraction(w, off + m, DecimalValue(d[..m]), m - 1, 0) == Fraction(off + m, DecimalValue(d[..m]), m - 1, 0)
    ensures DecimalValue(d[..m]) > 0 && m - 1 >= 17
  {
    hide DecimalValue, Pow10, Zeros;
    PrefixBounds(d, m);
    Powers();
    PowerGrows(16, m - 1);
  }

  /** The digits of the fraction as they stand in the text, in front of them those of the integer part. */
  lemma FractionBytes(u: NumberParts)
    requires WellParted(u) && u.frac != []
    ensures RunBehind(PartsText(u), |u.sign| + 1, u.whole + u.frac[1..], |u.whole|)
  {
    hide PartsText, ExpPart, IntPart, DigitsEnd;
    var w, p := PartsText(u), |u.sign| + |u.whole| + 1;
    FollowsInt(u);
    IntDigits(u.whole);
    var run := u.frac[1..];
    AllDigits(u.whole, run);
    FractionAt(u);
    forall k | |u.whole| <= k < |u.whole + run| ensures Peek(w, |u.sign| + 1 + k) == (u.whole + run)[k] {
      AtByte(w, p, run, k - |u.whole|);
    }
  }

  lemma FractionAt(u: NumberParts)
    requires u.frac != []
    ensures At(PartsText(u), |u.sign| + |u.whole| + 1, u.frac[1..])
  {
    hide PartsText;
    PartsAt(u);
    var w, p := PartsText(u), |u.sign| + |u.whole| + 1;
    assert w[p..p + |u.frac| - 1] == w[p - 1..p - 1 + |u.frac|][1..];
  }

  lemma ShiftIsCounted(u: NumberParts)
    requires WellParted(u) && u.frac != []
    ensures (if IntegerEvent(u.sign != [], DecimalValue(u.whole)).None? then 0
             else FractionShift(PartsText(u), |u.sign| + |u.whole| + 1, DecimalValue(u.whole), |u.whole| - 1)) == Counted(u)
  {
    hide DecimalValue, FractionShift, PartsText, FracPart, ExpPart;
    var d := u.whole + u.frac[1..];
    FractionBytes(u);
    assert d[..|u.whole|] == u.whole;
    BothCount(PartsText(u), |u.sign| + 1, d, |u.whole|);
    PrefixBounds(d, |u.whole|);
    LargeInteger(u.sign != [], DecimalValue(u.whole), |u.whole|);
  }

  lemma LargeInteger(minus: bool, v: nat, n: nat)
    requires v < Pow10(n)
    ensures IntegerEvent(minus, v).None? ==> n >= 19
  {
    hide Pow10;
    Powers();
    if n < 19 {
      PowerGrows(n, 18);
    }
  }

  lemma IntDigits(d: Text)
    requires IntPart(d)
    ensures d != [] && forall k :: 0 <= k < |d| ==> 0x30 <= d[k] <= 0x39
  {
  }

  lemma IntEnds(w: Text, k: nat, d: Text)
    requires At(w, k, d) && IntPart(d) && DigitsEnd(w, k) == k + |d| && Peek(w, k) == d[0]
    ensures IsDigit(Peek(w, k)) && IntegerEnd(w, k) == k + |d|
  {
  }

  lemma FromIntegerIs(s: Text, k: nat, tooBig: Text -> bool)
    requires IsDigit(Peek(s, k))
    ensures var p := IntegerEnd(s, k);
      var event := IntegerEvent(k > 0, Value(s, k, p));
      FromInteger(s, 0, k, tooBig) ==
        if Peek(s, p) != '.' as int then Finish(s, 0, p, event, 0, tooBig)
        else if !IsDigit(Peek(s, p + 1)) then NumberBad(NumberMissFraction, p + 1)
        else Finish(s, 0, DigitsEnd(s, p + 1), None, if event.None? then 0 else FractionShift(s, p + 1, Value(s, k, p), p - k - 1), tooBig)
  {
    hide Finish, FractionShift, Value, IntegerEvent, DigitsEnd, IntegerEnd;
  }

  // ----- and nothing else is -----

  lemma ExponentFound(w: Text, p: nat, integer: Option<Event>, shift: nat, tooBig: Text -> bool)
    requires 0 < p <= |w| && (integer.Some? ==> IsNumberEvent(integer.value))
    requires var r := Finish(w, 0, p, integer, shift, tooBig); r.NumberRead? && r.next == |w|
    ensures ExpPart(w[p..])
  {
    hide ReadExponent, DigitsEnd;
    if p < |w| && (w[p] == 'e' as int || w[p] == 'E' as int) {
      FinishAtMark(w, 0, p, integer, shift, tooBig);
      var q := if Peek(w, p + 1) == '+' as int || Peek(w, p + 1) == '-' as int then p + 2 else p + 1;
      ExponentEnds(w, q, Peek(w, p + 1) == '-' as int, shift);
      RunFound(w, q);
      assert w[p..][q - p..] == w[q..];
      assert w[q..|w|] == w[q..];
    } else {
      assert p == |w|;
    }
  }

  lemma FracFound(w: Text, p: nat)
    requires p <= |w| && (Peek(w, p) == '.' as int ==> IsDigit(Peek(w, p + 1)))
    ensures var q := if Peek(w, p) == '.' as int then DigitsEnd(w, p + 1) else p;
      p <= q <= |w| && FracPart(w[p..q])
  {
    if Peek(w, p) == '.' as int {
      RunFound(w, p + 1);
      var q := DigitsEnd(w, p + 1);
      assert w[p..q][1..] == w[p + 1..q];
    }
  }

  /** A text that is read as a number to its end is one of the grammar. */
  lemma OnlyNumbersAreRead(w: Text, tooBig: Text -> bool, e: Event) returns (u: NumberParts)
    requires NumberText(tooBig, w, e)
    ensures WellParted(u) && PartsText(u) == w
  {
    hide Finish, FractionShift, Value, IntegerEvent, DigitsEnd, Numbers.ReadNumber, ExpPart, FracPart, IntPart, FromInteger,
      IntegerEnd, PartsText;
    var k := if w[0] == '-' as int then 1 else 0;
    NumberIs(w, 0, tooBig);
    FromIntegerIs(w, k, tooBig);
    var p := IntegerEnd(w, k);
    var event := IntegerEvent(k > 0, Value(w, k, p));
    IntFound(w, k);
    FracFound(w, p);
    var q := if Peek(w, p) == '.' as int then DigitsEnd(w, p + 1) else p;
    if Peek(w, p) != '.' as int {
      ExponentFound(w, p, event, 0, tooBig);
    } else {
      ExponentFound(w, q, None, if event.None? then 0 else FractionShift(w, p + 1, Value(w, k, p), p - k - 1), tooBig);
    }
    u := NumberParts(w[..k], w[k..p], w[p..q], w[q..]);
    assert k == 1 ==> w[..1] == ['-' as int];
    CutInFour(w, k, p, q);
  }

  lemma CutInFour(w: Text, k: nat, p: nat, q: nat)
    requires k <= p <= q <= |w|
    ensures PartsText(NumberParts(w[..k], w[k..p], w[p..q], w[q..])) == w
  {
    assert w[..k] + w[k..p] == w[..p];
    assert w[..p] + w[p..q] == w[..q];
  }

  lemma IntFound(w: Text, k: nat)
    requires IsDigit(Peek(w, k))
    ensures k < IntegerEnd(w, k) <= |w| && IntPart(w[k..IntegerEnd(w, k)])
  {
    RunFound(w, k);
  }
}
