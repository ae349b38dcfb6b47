/** Reading looks forward only: what every token function of the reader computes at a position depends on the text
    from that position on. */
module TextSuffix {
  import opened Bytes
  import opened Events
  import opened Grammar
  import opened Numbers
  import opened StringReading
  import Automaton
  import Utf8

  /** Two texts of one length that agree from `i` on. */
  ghost predicate SameFrom(a: Text, b: Text, i: nat) {
    |a| == |b| && forall k :: i <= k < |a| ==> a[k] == b[k]
  }

  lemma SamePeek(a: Text, b: Text, i: nat, k: nat)
    requires SameFrom(a, b, i) && i <= k
    ensures Peek(a, k) == Peek(b, k)
  {
  }

  lemma SameSlice(a: Text, b: Text, i: nat, j: nat, k: nat)
    requires SameFrom(a, b, i) && i <= j <= k <= |a|
    ensures a[j..k] == b[j..k]
  {
  }

  // ----- white space -----

  lemma {:induction false} SameSpaces(a: Text, b: Text, i: nat)
    requires SameFrom(a, b, i) && i <= |a|
    ensures SkipSpaces(a, i) == SkipSpaces(b, i)
    decreases |a| - i
  {
    if IsSpace(Peek(a, i)) {
      SameSpaces(a, b, i + 1);
    }
  }

  lemma {:induction false} SameBlock(a: Text, b: Text, i: nat)
    requires SameFrom(a, b, i) && i <= |a|
    ensures BlockEnd(a, i) == BlockEnd(b, i)
    decreases |a| - i
  {
    SamePeek(a, b, i, i + 1);
    if Peek(a, i) != 0 {
      SameBlock(a, b, i + 1);
    }
  }

  lemma {:induction false} SameLine(a: Text, b: Text, i: nat)
    requires SameFrom(a, b, i) && i <= |a|
    ensures LineEnd(a, i) == LineEnd(b, i)
    decreases |a| - i
  {
    if Peek(a, i) != 0 {
      SameLine(a, b, i + 1);
    }
  }

  lemma SameComment(a: Text, b: Text, j: nat)
    requires SameFrom(a, b, j) && j < |a| && a[j] == '/' as int
    ensures CommentEnd(a, j) == CommentEnd(b, j)
  {
    SamePeek(a, b, j, j + 1);
    if Peek(a, j + 1) != 0 {
      SameBlock(a, b, j + 2);
      SameLine(a, b, j + 2);
    }
  }

  lemma {:induction false} SameSkip(f: Flags, a: Text, b: Text, i: nat)
    requires SameFrom(a, b, i) && i <= |a|
    ensures Skip(f, a, i) == Skip(f, b, i)
    decreases |a| - i
  {
    hide CommentEnd;
    SameSpaces(a, b, i);
    var j := SkipSpaces(a, i);
    SamePeek(a, b, i, j);
    if f.comments && Peek(a, j) == '/' as int {
      SameComment(a, b, j);
      if CommentEnd(a, j).To? {
        SameSkip(f, a, b, CommentEnd(a, j).pos);
      }
    }
  }

  // ----- strings -----

  lemma SameHex4(a: Text, b: Text, i: nat)
    requires SameFrom(a, b, i)
    ensures Hex4(a, i) == Hex4(b, i)
  {
    SamePeek(a, b, i, i + 1);
    SamePeek(a, b, i, i + 2);
    SamePeek(a, b, i, i + 3);
  }

  lemma SameUnicode(a: Text, b: Text, i: nat)
    requires SameFrom(a, b, i)
    ensures UnicodeStep(a, i) == UnicodeStep(b, i)
  {
    hide Hex4, Utf8.Encode;
    SameHex4(a, b, i + 2);
    SamePeek(a, b, i, i + 6);
    SamePeek(a, b, i, i + 7);
    SameHex4(a, b, i + 8);
  }

  lemma SameChar(a: Text, b: Text, i: nat)
    requires SameFrom(a, b, i)
    ensures Utf8.CharLength(a, i) == Utf8.CharLength(b, i)
  {
    SamePeek(a, b, i, i + 1);
    SamePeek(a, b, i, i + 2);
    SamePeek(a, b, i, i + 3);
  }

  lemma SameValidate(a: Text, b: Text, i: nat)
    requires SameFrom(a, b, i) && i < |a|
    ensures Utf8.Validate(a, i).ok == Utf8.Validate(b, i).ok
    ensures Utf8.Validate(a, i).ok ==>
      i <= Utf8.Validate(a, i).next == Utf8.Validate(b, i).next <= |a|
      && a[i..Utf8.Validate(a, i).next] == b[i..Utf8.Validate(b, i).next]
  {
    hide Utf8.CharLength, Utf8.Validate;
    Utf8.ValidateIsGrammar(a, i);
    Utf8.ValidateIsGrammar(b, i);
    SameChar(a, b, i);
  }

  lemma SameStep(f: Flags, a: Text, b: Text, i: nat)
    requires SameFrom(a, b, i) && i <= |a|
    ensures StepAt(f, a, i) == StepAt(f, b, i)
  {
    hide UnicodeStep, Utf8.Validate, Unescape;
    SamePeek(a, b, i, i + 1);
    SameUnicode(a, b, i);
    if i < |a| {
      SameValidate(a, b, i);
    }
  }

  lemma {:induction false} SameString(f: Flags, a: Text, b: Text, i: nat, out: Text)
    requires SameFrom(a, b, i) && i <= |a|
    ensures DecodeString(f, a, i, out) == DecodeString(f, b, i, out)
    decreases |a| - i
  {
    hide StepAt;
    SameStep(f, a, b, i);
    var step := StepAt(f, a, i);
    if step.Emit? {
      SameString(f, a, b, step.next, out + step.bytes);
    }
  }

  // ----- numbers -----

  lemma {:induction false} SameDigitsEnd(a: Text, b: Text, i: nat)
    requires SameFrom(a, b, i)
    ensures DigitsEnd(a, i) == DigitsEnd(b, i)
    decreases if i < |a| then |a| - i else 0
  {
    if IsDigit(Peek(a, i)) {
      SameDigitsEnd(a, b, i + 1);
    }
  }

  lemma {:induction false} SameValue(a: Text, b: Text, i: nat, j: nat)
    requires SameFrom(a, b, i) && i <= j && forall k :: i <= k < j ==> IsDigit(Peek(a, k))
    ensures forall k :: i <= k < j ==> IsDigit(Peek(b, k))
    ensures Value(a, i, j) == Value(b, i, j)
    decreases j
  {
    forall k | i <= k < j ensures IsDigit(Peek(b, k)) {
      SamePeek(a, b, i, k);
    }
    if i < j {
      SameValue(a, b, i, j - 1);
    }
  }

  lemma {:induction false} SameFastFraction(a: Text, b: Text, p: nat, significand: nat, digits: nat, shift: nat)
    requires SameFrom(a, b, p)
    ensures FastFraction(a, p, significand, digits, shift) == FastFraction(b, p, significand, digits, shift)
    decreases if p < |a| then |a| - p else 0
  {
    if IsDigit(Peek(a, p)) && significand <= 0x1F_FFFF_FFFF_FFFF {
      var n := significand * 10 + DigitAt(a, p);
      SameFastFraction(a, b, p + 1, n, if n != 0 then digits + 1 else digits, shift + 1);
    }
  }

  lemma {:induction false} SameSlowShift(a: Text, b: Text, p: nat, positive: bool, digits: nat, shift: nat)
    requires SameFrom(a, b, p)
    ensures SlowShift(a, p, positive, digits, shift) == SlowShift(b, p, positive, digits, shift)
    decreases if p < |a| then |a| - p else 0
  {
    if IsDigit(Peek(a, p)) {
      var positive' := positive || DigitAt(a, p) > 0;
      SameSlowShift(a, b, p + 1, positive', if positive' then digits + 1 else digits, shift + 1);
      SameSlowShift(a, b, p + 1, positive, digits, shift);
    }
  }

  lemma SameFractionShift(a: Text, b: Text, p: nat, integer: nat, digits: nat)
    requires SameFrom(a, b, p)
    ensures FractionShift(a, p, integer, digits) == FractionShift(b, p, integer, digits)
  {
    hide SlowShift, FastFraction;
    SameFastFraction(a, b, p, integer, digits, 0);
    var f := FastFraction(a, p, integer, digits, 0);
    SameSlowShift(a, b, f.next, f.significand > 0, f.digits, f.shift);
  }

  lemma {:induction false} SamePositiveExponent(a: Text, b: Text, p: nat, exp: nat, maxExp: nat)
    requires SameFrom(a, b, p)
    ensures PositiveExponent(a, p, exp, maxExp) == PositiveExponent(b, p, exp, maxExp)
    decreases if p < |a| then |a| - p else 0
  {
    if IsDigit(Peek(a, p)) {
      SamePositiveExponent(a, b, p + 1, exp * 10 + DigitAt(a, p), maxExp);
    }
  }

  lemma {:induction false} SameNegativeExponent(a: Text, b: Text, p: nat, exp: nat, maxExp: int)
    requires SameFrom(a, b, p)
    ensures NegativeExponent(a, p, exp, maxExp) == NegativeExponent(b, p, exp, maxExp)
    decreases if p < |a| then |a| - p else 0
  {
    if IsDigit(Peek(a, p)) {
      SameDigitsEnd(a, b, p + 1);
      SameNegativeExponent(a, b, p + 1, exp * 10 + DigitAt(a, p), maxExp);
    }
  }

  lemma SameExponent(a: Text, b: Text, p: nat, minus: bool, shift: nat)
    requires SameFrom(a, b, p) && IsDigit(Peek(a, p))
    ensures IsDigit(Peek(b, p)) && ReadExponent(a, p, minus, shift) == ReadExponent(b, p, minus, shift)
  {
    hide PositiveExponent, NegativeExponent;
    var first := DigitAt(a, p);
    SameNegativeExponent(a, b, p + 1, first, MaxExponent(true, shift));
    SamePositiveExponent(a, b, p + 1, first, 308 + shift);
  }

  lemma SameFinish(a: Text, b: Text, start: nat, p: nat, integer: Option<Event>, shift: nat, tooBig: Text -> bool)
    requires SameFrom(a, b, start) && start < p <= |a| && (integer.Some? ==> IsNumberEvent(integer.value))
    ensures Finish(a, start, p, integer, shift, tooBig) == Finish(b, start, p, integer, shift, tooBig)
  {
    hide ReadExponent;
    SamePeek(a, b, start, p);
    SamePeek(a, b, start, p + 1);
    SamePeek(a, b, start, p + 2);
    SameSlice(a, b, start, start, p);
    if Peek(a, p) == 'e' as int || Peek(a, p) == 'E' as int {
      var signed := Peek(a, p + 1) == '+' as int || Peek(a, p + 1) == '-' as int;
      var q := if signed then p + 2 else p + 1;
      if IsDigit(Peek(a, q)) {
        SameExponent(a, b, q, Peek(a, p + 1) == '-' as int, shift);
        SameSlice(a, b, start, start, ReadExponent(a, q, Peek(a, p + 1) == '-' as int, shift).next);
      }
    }
  }

  lemma SameInteger(a: Text, b: Text, k: nat)
    requires SameFrom(a, b, k) && IsDigit(Peek(a, k))
    ensures IsDigit(Peek(b, k)) && IntegerEnd(a, k) == IntegerEnd(b, k)
    ensures Value(a, k, IntegerEnd(a, k)) == Value(b, k, IntegerEnd(b, k))
  {
    hide Value;
    SameDigitsEnd(a, b, k);
    SameValue(a, b, k, IntegerEnd(a, k));
  }

  lemma SameNumber(a: Text, b: Text, start: nat, tooBig: Text -> bool)
    requires SameFrom(a, b, start)
    ensures Numbers.ReadNumber(a, start, tooBig) == Numbers.ReadNumber(b, start, tooBig)
  {
    hide Finish, FractionShift, Value, DigitsEnd, IntegerEnd, IntegerEvent, SameFrom, Peek;
    var minus := Peek(a, start) == '-' as int;
    var k := if minus then start + 1 else start;
    SamePeek(a, b, start, start);
    SamePeek(a, b, start, k);
    SameLater(a, b, start, k);
    if IsDigit(Peek(a, k)) {
      SameInteger(a, b, k);
      var p := IntegerEnd(a, k);
      SamePeek(a, b, start, p);
      SamePeek(a, b, start, p + 1);
      var event := IntegerEvent(minus, Value(a, k, p));
      if Peek(a, p) != '.' as int {
        SameFinish(a, b, start, p, event, 0, tooBig);
      } else if IsDigit(Peek(a, p + 1)) {
        SameLater(a, b, start, p + 1);
        SameDigitsEnd(a, b, p + 1);
        SameFractionShift(a, b, p + 1, Value(a, k, p), p - k - 1);
        var shift := if event.None? then 0 else FractionShift(a, p + 1, Value(a, k, p), p - k - 1);
        SameFinish(a, b, start, DigitsEnd(a, p + 1), None, shift, tooBig);
      }
    }
  }

  lemma SameLater(a: Text, b: Text, i: nat, j: nat)
    requires SameFrom(a, b, i) && i <= j
    ensures SameFrom(a, b, j) && |a| == |b|
  {
  }

  // ----- values without structure, and the machine's step -----

  lemma {:induction false} SameMatched(a: Text, b: Text, i: nat, w: Text)
    requires SameFrom(a, b, i) && 0 !in w
    ensures Matched(a, i, w) == Matched(b, i, w)
    decreases |w|
  {
    if w != [] && Peek(a, i) == w[0] {
      SameMatched(a, b, i + 1, w[1..]);
    }
  }

  lemma SameReadString(env: Env, a: Text, b: Text, i: nat, trace: seq<Event>, isKey: bool)
    requires SameFrom(a, b, i) && i < |a|
    ensures ReadString(env, a, i, trace, isKey) == ReadString(env, b, i, trace, isKey)
  {
    hide DecodeString;
    SameString(env.flags, a, b, i + 1, []);
  }

  lemma SameLeaf(env: Env, a: Text, b: Text, i: nat, trace: seq<Event>)
    requires SameFrom(a, b, i) && i <= |a|
    ensures ReadLeaf(env, a, i, trace) == ReadLeaf(env, b, i, trace)
  {
    hide ReadString, Matched, Numbers.ReadNumber;
    SamePeek(a, b, i, i);
    if i < |a| {
      SameReadString(env, a, b, i, trace, false);
      SameMatched(a, b, i + 1, ULL);
      SameMatched(a, b, i + 1, RUE);
      SameMatched(a, b, i + 1, ALSE);
    }
    SameNumber(a, b, i, env.tooBig);
  }

  /** One move of the machine. */
  lemma SameMove(env: Env, a: Text, b: Text, c: Automaton.Config)
    requires SameFrom(a, b, c.pos) && c.pos < |a| && Automaton.WellStacked(c.state, c.frames)
    ensures Automaton.Step(env, a, c) == Automaton.Step(env, b, c)
  {
    hide ReadString, ReadLeaf, ReadObject, ReadArray, Raise, Automaton.WellStacked;
    SameReadString(env, a, b, c.pos, c.trace, true);
    SameLeaf(env, a, b, c.pos, c.trace);
    assert Peek(a, c.pos) == Peek(b, c.pos);
  }
}
