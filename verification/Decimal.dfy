/** Integers as the writer prints them, and the proof that the reader reads them back. The source's itoa tables
    are not modelled: the printer here is the mathematical one. */
module Decimal {
  import opened Bytes
  import opened Numbers

  function Digits(n: nat): (w: Text)
    ensures |w| > 0
  {
    if n < 10 then ['0' as int + n] else Digits(n / 10) + ['0' as int + n % 10]
  }

  /** `WriteInt`, `WriteUint`, `WriteInt64` and `WriteUint64`. */
  function Printed(n: int): (w: Text)
    ensures |w| > 0
  {
    if n < 0 then ['-' as int] + Digits(0 - n) else Digits(n)
  }

  /** Bytes that may follow a number without becoming part of it. */
  predicate EndsNumber(c: Byte) {
    !IsDigit(c) && c != '.' as int && c != 'e' as int && c != 'E' as int
  }

  predicate Fits64(n: int) {
    -0x8000_0000_0000_0000 <= n < 0x1_0000_0000_0000_0000
  }

  lemma {:induction false} DigitsValue(t: Text, i: nat, n: nat)
    requires At(t, i, Digits(n))
    ensures forall k :: i <= k < i + |Digits(n)| ==> IsDigit(Peek(t, k))
    ensures Value(t, i, i + |Digits(n)|) == n
    ensures n > 0 ==> Peek(t, i) != '0' as int
    ensures n == 0 ==> |Digits(n)| == 1 && Peek(t, i) == '0' as int
    decreases n
  {
    if n < 10 {
      AtByte(t, i, Digits(n), 0);
      assert Value(t, i, i + 1) == Value(t, i, i) * 10 + DigitAt(t, i);
    } else {
      var high, low := Digits(n / 10), ['0' as int + n % 10];
      AtSplit(t, i, high, low);
      AtByte(t, i + |high|, low, 0);
      DigitsValue(t, i, n / 10);
    }
  }

  lemma {:induction false} DigitsEndAt(t: Text, i: nat, j: nat)
    requires i <= j && !IsDigit(Peek(t, j))
    requires forall k :: i <= k < j ==> IsDigit(Peek(t, k))
    ensures DigitsEnd(t, i) == j
    decreases j - i
  {
    if i < j {
      DigitsEndAt(t, i + 1, j);
    }
  }

  /** A printed integer reads as the smallest event that holds it, 32-bit preferred. */
  lemma PrintedReads(t: Text, i: nat, n: int, tooBig: Text -> bool)
    requires Fits64(n) && At(t, i, Printed(n)) && EndsNumber(Peek(t, i + |Printed(n)|))
    ensures IntegerEvent(n < 0, if n < 0 then 0 - n else n).Some?
    ensures ReadNumber(t, i, tooBig)
         == NumberRead(i + |Printed(n)|, IntegerEvent(n < 0, if n < 0 then 0 - n else n).value)
  {
    var v := if n < 0 then 0 - n else n;
    var k := if n < 0 then i + 1 else i;
    var w := Digits(v);
    if n < 0 {
      AtSplit(t, i, ['-' as int], w);
      AtByte(t, i, ['-' as int], 0);
    }
    DigitsValue(t, k, v);
    DigitsEndAt(t, k, k + |w|);
    assert IsDigit(Peek(t, k));
    assert IntegerEnd(t, k) == k + |w|;
  }
}
