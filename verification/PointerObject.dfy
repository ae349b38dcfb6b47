/** The pointer object: `Parse` filling a token array and a name buffer through cursors, array indices of tokens,
    equality, and `Stringify` reading the names back. */
module PointerObject {
  import opened Bytes
  import opened Numbers
  import opened Pointer
  import Decimal
  import Utf8

  const TWO_32: nat := 0x1_0000_0000

  /** `kPointerInvalidIndex`. */
  const INVALID_INDEX: nat := 0xFFFF_FFFF

  // ----- array indices -----

  predicate AllDigits(t: Text) { forall k :: 0 <= k < |t| ==> IsDigit(t[k]) }

  /** Arithmetic on `SizeType`. */
  function Wrap32(n: nat): (r: nat)
    ensures r < TWO_32 && (n < TWO_32 ==> r == n)
  {
    n % TWO_32
  }

  /** The conversion loop on 32-bit integers; `None` where the overflow test fires. */
  function Converted(t: Text, j: nat, n: nat): (r: Option<nat>)
    requires j <= |t| && AllDigits(t)
    ensures n < TWO_32 && r.Some? ==> r.value < TWO_32
    decreases |t| - j
  {
    if j == |t| then Some(n)
    else
      var m := Wrap32(n * 10 + (t[j] - '0' as int));
      if m < n then None else Converted(t, j + 1, m)
  }

  /** The part of a name its 32-bit length covers. */
  function Covered(name: Text): (r: Text) { name[..Wrap32(|name|)] }

  function IndexOf(name: Text): (index: nat)
    ensures index <= INVALID_INDEX
  {
    var t := Covered(name);
    if !AllDigits(name) || t == [] || (|t| > 1 && t[0] == '0' as int) then INVALID_INDEX
    else match Converted(t, 0, 0)
      case None => INVALID_INDEX
      case Some(n) => n
  }

  /** What the digits of a name denote. */
  function NumberOf(t: Text): (r: nat)
    requires AllDigits(t)
  {
    Value(t, 0, |t|)
  }

  lemma {:induction false} ConvertsExactly(t: Text, j: nat)
    requires j <= |t| && AllDigits(t) && NumberOf(t) < TWO_32
    ensures Converted(t, j, Value(t, 0, j)) == Some(NumberOf(t))
    decreases |t| - j
  {
    hide Wrap32;
    if j < |t| {
      ValueGrows(t, 0, j + 1, |t|);
      assert DigitAt(t, j) == t[j] - '0' as int;
      ConvertsExactly(t, j + 1);
    }
  }

  lemma {:induction false} ValueOfPrefix(a: Text, b: Text, j: nat)
    requires j <= |a| && a <= b && AllDigits(b)
    ensures Value(a, 0, j) == Value(b, 0, j)
    decreases j
  {
    if j > 0 {
      ValueOfPrefix(a, b, j - 1);
    }
  }

  lemma LastDigitSplits(h: nat, d: nat)
    requires d < 10
    ensures (h * 10 + d) / 10 == h && (h * 10 + d) % 10 == d
  {
  }

  /** A digit string without leading zero is the decimal form of its value. */
  lemma {:induction false} CanonicalDigits(t: Text)
    requires AllDigits(t) && t != [] && (|t| > 1 ==> t[0] != '0' as int)
    ensures t == Decimal.Digits(NumberOf(t))
    ensures t[0] != '0' as int ==> NumberOf(t) > 0
    decreases |t|
  {
    var high := t[..|t| - 1];
    ValueOfPrefix(high, t, |high|);
    if |t| == 1 {
      assert t == [t[0]];
    } else {
      CanonicalDigits(high);
      LastDigitSplits(NumberOf(high), t[|t| - 1] - '0' as int);
      assert t == high + [t[|t| - 1]];
    }
  }

  predicate IsCanonical(t: Text) { AllDigits(t) && t != [] && (|t| > 1 ==> t[0] != '0' as int) }

  lemma IndexOfSmall(name: Text)
    requires |name| < TWO_32 && (IsCanonical(name) ==> NumberOf(name) < TWO_32)
    ensures IndexOf(name) == if IsCanonical(name) then NumberOf(name) else INVALID_INDEX
  {
    hide Converted;
    assert Covered(name) == name;
    if IsCanonical(name) {
      ConvertsExactly(name, 0);
    }
  }

  /** Below 2^32 a token's index is exact: it is valid for a decimal form alone, and then names that number. */
  lemma IndexIsExact(name: Text)
    requires |name| < TWO_32 && (AllDigits(name) ==> NumberOf(name) < TWO_32)
    ensures IndexOf(name) < INVALID_INDEX ==> name == Decimal.Digits(IndexOf(name))
    ensures forall n: nat :: n < INVALID_INDEX && name == Decimal.Digits(n) ==> IndexOf(name) == n
  {
    hide IndexOf, Decimal.Digits, Value;
    IndexOfSmall(name);
    if IsCanonical(name) {
      CanonicalDigits(name);
    }
    forall n: nat | n < INVALID_INDEX && name == Decimal.Digits(n) ensures IndexOf(name) == n {
      DigitsAreCanonical(n);
    }
  }

  lemma DigitsAreCanonical(n: nat)
    ensures var t := Decimal.Digits(n); AllDigits(t) && NumberOf(t) == n && (|t| > 1 ==> t[0] != '0' as int)
  {
    var t := Decimal.Digits(n);
    AtWhole(t);
    Decimal.DigitsValue(t, 0, n);
    forall k | 0 <= k < |t| ensures IsDigit(t[k]) {
      assert Peek(t, k) == t[k];
    }
  }

  // ----- when the overflow test misses a wrap -----

  /** The number of the first `j` digits, in 32 bits. */
  function Residue(t: Text, j: nat): (r: nat)
    requires j <= |t| && AllDigits(t)
    ensures r < TWO_32
  {
    Wrap32(Value(t, 0, j))
  }

  /** From digit `j` on no digit makes the 32-bit number drop, which is all that the test looks for. */
  predicate ClimbsFrom(t: Text, j: nat)
    requires AllDigits(t)
  {
    forall k :: j <= k < |t| ==> Residue(t, k) <= Residue(t, k + 1)
  }

  /** The covered part of a name is a canonical number whose residues never drop. */
  predicate Climbs(name: Text) { AllDigits(name) && IsCanonical(Covered(name)) && ClimbsFrom(Covered(name), 0) }

  lemma WrapsAlike(a: nat, d: nat)
    ensures Wrap32(Wrap32(a) * 10 + d) == Wrap32(a * 10 + d)
  {
    var q := a / TWO_32;
    assert a * 10 + d == Wrap32(a) * 10 + d + TWO_32 * (10 * q);
    ModMultiple(Wrap32(a) * 10 + d, 10 * q);
  }

  lemma {:induction false} ModMultiple(x: nat, q: nat)
    ensures (x + TWO_32 * q) % TWO_32 == x % TWO_32
    decreases q
  {
    if q > 0 {
      ModMultiple(x, q - 1);
      assert x + TWO_32 * q == x + TWO_32 * (q - 1) + TWO_32;
    }
  }

  /** The loop runs through the residues and stops at the first drop. */
  lemma {:induction false} ConvertsResidues(t: Text, j: nat)
    requires j <= |t| && AllDigits(t)
    ensures Converted(t, j, Residue(t, j)) == if ClimbsFrom(t, j) then Some(Residue(t, |t|)) else None
    decreases |t| - j
  {
    hide Wrap32;
    if j < |t| {
      assert DigitAt(t, j) == t[j] - '0' as int;
      WrapsAlike(Value(t, 0, j), DigitAt(t, j));
      assert Residue(t, j + 1) == Wrap32(Residue(t, j) * 10 + (t[j] - '0' as int));
      ConvertsResidues(t, j + 1);
    }
  }

  /** What the index of any name is. */
  lemma IndexIsResidue(name: Text)
    ensures var t := Covered(name);
      IndexOf(name) == if Climbs(name) then Residue(t, |t|) else INVALID_INDEX
  {
    hide Converted, Wrap32, ClimbsFrom;
    var t := Covered(name);
    if AllDigits(name) {
      assert AllDigits(t);
      assert Residue(t, 0) == 0;
      ConvertsResidues(t, 0);
    }
  }

  /** The index a name ought to have: the number it is the canonical form of, where that is an index at all. */
  function RightIndex(name: Text): (index: nat)
    ensures index <= INVALID_INDEX
  {
    if IsCanonical(name) && NumberOf(name) < INVALID_INDEX then NumberOf(name) else INVALID_INDEX
  }

  lemma {:induction false} NumberOutgrowsLength(t: Text, j: nat)
    requires 0 < j <= |t| && AllDigits(t) && t[0] != '0' as int
    ensures Value(t, 0, j) >= j
    decreases j
  {
    if j > 1 {
      NumberOutgrowsLength(t, j - 1);
    } else {
      assert Value(t, 0, 1) == Value(t, 0, 0) * 10 + DigitAt(t, 0);
    }
  }

  /** The index is wrong exactly where the number is too large and yet no residue drops on the way to one that is an
      index. */
  lemma IndexWrongIff(name: Text)
    ensures IndexOf(name) != RightIndex(name)
      <==> Climbs(name) && Residue(Covered(name), |Covered(name)|) != INVALID_INDEX
           && (|name| >= TWO_32 || NumberOf(name) >= TWO_32)
  {
    hide IndexOf, ClimbsFrom, Value;
    IndexIsResidue(name);
    if |name| < TWO_32 {
      assert Covered(name) == name;
      if IsCanonical(name) && NumberOf(name) < TWO_32 {
        IndexOfSmall(name);
      }
    } else if IsCanonical(name) {
      NumberOutgrowsLength(name, |name|);
    }
  }

  /** Both names have an index and their different numbers agree in the lower 32 bits. */
  predicate ShareIndex(a: Text, b: Text) {
    && Climbs(a) && Climbs(b)
    && var m, n := NumberOf(Covered(a)), NumberOf(Covered(b));
      m != n && Wrap32(m) == Wrap32(n) != INVALID_INDEX
  }

  /** One index has one name, except where two numbers share it, one of which is then past the 32 bits. */
  lemma IndexNamesOne(a: Text, b: Text)
    ensures Covered(a) != Covered(b) && IndexOf(a) == IndexOf(b) < INVALID_INDEX <==> ShareIndex(a, b)
    ensures ShareIndex(a, b) ==> NumberOf(Covered(a)) >= TWO_32 || NumberOf(Covered(b)) >= TWO_32
  {
    hide IndexOf, ClimbsFrom, Value;
    IndexIsResidue(a);
    IndexIsResidue(b);
    if Climbs(a) && Climbs(b) {
      CanonicalDigits(Covered(a));
      CanonicalDigits(Covered(b));
    }
  }

  const SIX_THOUSAND_MILLION: Text :=
    ['6' as int, '0' as int, '0' as int, '0' as int, '0' as int, '0' as int, '0' as int, '0' as int, '0' as int, '0' as int]

  lemma ZeroDigit(t: Text, j: nat, n: nat)
    requires j < |t| && AllDigits(t) && t[j] == '0' as int && n * 10 < TWO_32 && Value(t, 0, j) == n
    ensures Value(t, 0, j + 1) == 10 * n && Converted(t, j, n) == Converted(t, j + 1, 10 * n)
  {
    hide Wrap32;
  }

  lemma LastZero(t: Text, n: nat)
    requires t != [] && AllDigits(t) && t[|t| - 1] == '0' as int && n * 10 % TWO_32 >= n && Value(t, 0, |t| - 1) == n
    ensures NumberOf(t) == 10 * n && Converted(t, |t| - 1, n) == Some(n * 10 % TWO_32)
  {
    assert Converted(t, |t|, n * 10 % TWO_32) == Some(n * 10 % TWO_32);
  }

  lemma SixAndZeros(t: Text)
    requires |t| == 10 && AllDigits(t) && t[0] == '6' as int && forall k :: 1 <= k < 10 ==> t[k] == '0' as int
    ensures NumberOf(t) == 6_000_000_000 && Converted(t, 0, 0) == Some(1_705_032_704)
  {
    assert Value(t, 0, 1) == 6 && Converted(t, 0, 0) == Converted(t, 1, 6);
    hide Converted, Value, Wrap32, AllDigits;
    ZeroDigit(t, 1, 6);
    ZeroDigit(t, 2, 60);
    ZeroDigit(t, 3, 600);
    ZeroDigit(t, 4, 6_000);
    ZeroDigit(t, 5, 60_000);
    ZeroDigit(t, 6, 600_000);
    ZeroDigit(t, 7, 6_000_000);
    ZeroDigit(t, 8, 60_000_000);
    LastZero(t, 600_000_000);
  }

  /** The test for overflow misses some wraps: 6000000000 is taken for another index. */
  lemma OverflowMissed()
    ensures AllDigits(SIX_THOUSAND_MILLION) && NumberOf(SIX_THOUSAND_MILLION) == 6_000_000_000
    ensures IndexOf(SIX_THOUSAND_MILLION) == 1_705_032_704
  {
    hide Converted, Value, Wrap32;
    SixAndZeros(SIX_THOUSAND_MILLION);
    assert Covered(SIX_THOUSAND_MILLION) == SIX_THOUSAND_MILLION;
  }

  // ----- percent decoding through a stream -----

  class PercentDecodeStream {
    const s: Text
    var src: nat
    var valid: bool

    constructor (s: Text, i: nat)
      ensures this.s == s && src == i && valid
    {
      this.s := s;
      src, valid := i, true;
    }

    method Take() returns (c: Byte)
      modifies this
      ensures if IsTriplet(s, old(src)) then c == TripletValue(s, old(src)) && src == old(src) + 3 && valid == old(valid)
              else c == 0 && !valid
    {
      hide HexValue;
      if Peek(s, src) != '%' as int || src + 3 > |s| {
        valid := false;
        return 0;
      }
      ghost var i := src;
      src := src + 1;
      c := 0;
      for j := 0 to 2
        invariant src == i + 1 + j && i + 3 <= |s| && valid == old(valid)
        invariant j == 0 ==> c == 0
        invariant j == 1 ==> HexValue(s[i + 1]) == Some(c)
        invariant j == 2 ==> IsTriplet(s, i) && c == TripletValue(s, i)
      {
        var h := HexValue(s[src]);
        if h.None? {
          valid := false;
          return 0;
        }
        c := (c * 16 + h.value) % 256;
        src := src + 1;
      }
    }
  }

  lemma {:induction false} UnpercentAt(s: Text, i: nat, k: nat)
    requires k <= |Unpercent(s, i)|
    ensures i + 3 * k <= |s| || k == 0
    ensures IsTriplet(s, i + 3 * k) <==> k < |Unpercent(s, i)|
    ensures k < |Unpercent(s, i)| ==> Unpercent(s, i)[k] == TripletValue(s, i + 3 * k)
    ensures forall m :: i <= m < i + 3 * k ==> s[m] != SOLIDUS
    decreases k
  {
    if k > 0 {
      UnpercentAt(s, i + 3, k - 1);
    }
  }

  /** `len` bytes were taken from the triplets at `i` and put at `name`; `c` was the last, zero once they ran out. */
  ghost predicate Copied(stream: PercentDecodeStream, buffer: array<Byte>, name: nat, s: Text, i: nat, len: nat, c: Byte)
    reads stream, buffer
  {
    var u := Unpercent(s, i);
    && stream.s == s && len <= |u| + 1 && name + len <= buffer.Length
    && (stream.valid <==> len <= |u|)
    && (stream.valid ==> stream.src == i + 3 * len && forall m :: 0 <= m < len ==> buffer[name + m] == u[m])
    && (!stream.valid ==> c == 0)
  }

  /** Take from the stream, put to the buffer. */
  method Copy(stream: PercentDecodeStream, buffer: array<Byte>, name: nat, ghost s: Text, ghost i: nat, len: nat, ghost last: Byte)
    returns (c: Byte)
    requires name < i < |s| == buffer.Length && stream.valid && Copied(stream, buffer, name, s, i, len, last)
    modifies stream, buffer
    ensures c == Peek(Unpercent(s, i), len) && Copied(stream, buffer, name, s, i, len + 1, c)
    ensures buffer[..name] == old(buffer[..name])
  {
    hide Unpercent;
    UnpercentAt(s, i, len);
    c := stream.Take();
    buffer[name + len] := c;
  }

  /** `UTF8::Validate` from a percent stream into the name buffer at `name`. */
  method ValidateTriplets(buffer: array<Byte>, name: nat, s: Text, i: nat) returns (ok: bool, len: nat, tell: nat)
    requires name < i < |s| == buffer.Length
    modifies buffer
    ensures var n := Utf8.CharLength(Unpercent(s, i), 0);
      && (ok <==> n > 0)
      && (ok ==> len == n && tell == 3 * n && buffer[name..name + len] == Unpercent(s, i)[..len])
    ensures buffer[..name] == old(buffer[..name])
  {
    hide Unpercent, Utf8.GetRange, Utf8.TailMasks, Utf8.Hits, Utf8.CharLength;
    ghost var u := Unpercent(s, i);
    ghost var before := buffer[..name];
    var stream := new PercentDecodeStream(s, i);
    UnitStart(s, i);
    if u != [] {
      Utf8.ValidateIsGrammar(u, 0);
    }
    var c := Copy(stream, buffer, name, s, i, 0, 0);
    len, ok := 1, true;
    if c >= 0x80 {
      var masks := Utf8.TailMasks(Utf8.GetRange(c));
      if masks == [] {
        return false, len, 3;
      }
      for k := 0 to |masks|
        invariant Copied(stream, buffer, name, s, i, len, c) && len >= 1 && u != []
        invariant Utf8.ValidateTail(u, len, c, masks[k..], ok) == Utf8.Validate(u, 0)
        invariant buffer[..name] == before
      {
        if c != 0 {
          c := Copy(stream, buffer, name, s, i, len, c);
          len := len + 1;
        }
        assert masks[k..] != [] && masks[k..][0] == masks[k];
        Utf8.NulHitsNothing(masks[k]);
        ok := ok && Utf8.Hits(c, masks[k]);
        assert masks[k..][1..] == masks[k + 1..];
      }
    }
    tell := if stream.valid then stream.src - i else 0;
    ok := ok && stream.valid;
  }

  /** How the first triplet decides. */
  lemma UnitStart(s: Text, i: nat)
    ensures var u := Unpercent(s, i);
      && (u == [] ==> Utf8.CharLength(u, 0) == 0)
      && (u != [] && u[0] < 0x80 ==> Utf8.CharLength(u, 0) == 1)
  {
  }

  // ----- parsing into the buffers -----

  /** Solidi from `i` on. */
  function Slashes(s: Text, i: nat): (n: nat)
    decreases if i < |s| then |s| - i else 0
  {
    if i >= |s| then 0 else (if s[i] == SOLIDUS then 1 else 0) + Slashes(s, i + 1)
  }

  lemma {:induction false} SlashesSkip(s: Text, i: nat, j: nat)
    requires i <= j <= |s| && forall k :: i <= k < j ==> s[k] != SOLIDUS
    ensures Slashes(s, i) == Slashes(s, j)
    decreases j - i
  {
    if i < j {
      SlashesSkip(s, i + 1, j);
    }
  }

  /** A unit contains no solidus. */
  lemma UnitSkips(s: Text, i: nat, fragment: bool)
    requires i < |s| && s[i] != SOLIDUS && UnitAt(s, i, fragment).Put?
    ensures Slashes(s, i) == Slashes(s, UnitAt(s, i, fragment).next)
  {
    hide Unpercent, Utf8.CharLength, Slashes;
    var u := UnitAt(s, i, fragment);
    if fragment && s[i] == '%' as int {
      var n := Utf8.CharLength(Unpercent(s, i), 0);
      UnpercentAt(s, i, n);
    }
    SlashesSkip(s, i, u.next);
  }

  /** One round of the name loop: bytes go to the buffer at `name`. */
  method NameUnit(buffer: array<Byte>, name: nat, s: Text, i: nat, fragment: bool)
    returns (next: nat, len: nat, isNumber: bool, code: PointerError)
    requires name < i < |s| == buffer.Length
    modifies buffer
    ensures buffer[..name] == old(buffer[..name])
    ensures var u := UnitAt(s, i, fragment);
      if u.Put? then
        && code == NoPointerError && next == u.next && len == |u.bytes| && name + len < next
        && buffer[name..name + len] == u.bytes && (isNumber <==> AllDigits(u.bytes))
      else code == u.code && next == u.offset
  {
    hide Unpercent, Utf8.CharLength, Unescape, Unreserved, AllDigits;
    next, len, isNumber, code := i, 1, true, NoPointerError;
    var c := s[i];
    if fragment {
      if c == '%' as int {
        var valid, tell;
        valid, len, tell := ValidateTriplets(buffer, name, s, i);
        if !valid {
          return next, len, isNumber, InvalidPercentEncoding;
        }
        next := next + tell - 1;
        ghost var u := Unpercent(s, i);
        assert buffer[name] == buffer[name..name + len][0] == u[0];
        if len == 1 {
          c := buffer[name];
        } else {
          ManyBytes(u);
          return next + 1, len, false, NoPointerError;
        }
      } else if !Unreserved(c) {
        return next, len, isNumber, CharacterMustPercentEncode;
      }
    }
    var ok;
    next, c, ok := DecodeEscape(s, next + 1, c);
    if !ok {
      return next, len, isNumber, InvalidEscape;
    }
    isNumber := IsDigit(c);
    OneDigit(c);
    buffer[name] := c;
    assert buffer[name..name + 1] == [c];
    assert UnitAt(s, i, fragment) == Put(next, [c]);
  }

  lemma OneDigit(c: Byte)
    ensures AllDigits([c]) <==> IsDigit(c)
  {
    assert [c][0] == c;
  }

  /** `~0` and `~1`, from just after the byte that may be a tilde. */
  method DecodeEscape(s: Text, i: nat, c: Byte) returns (next: nat, c': Byte, ok: bool)
    requires i <= |s|
    ensures if ok then Unescape(s, i, c) == Put(next, [c']) else Unescape(s, i, c) == Stop(InvalidEscape, next)
  {
    next, c', ok := i, c, true;
    if c == TILDE {
      if next < |s| {
        c' := s[next];
        if c' == '0' as int {
          c' := TILDE;
        } else if c' == '1' as int {
          c' := SOLIDUS;
        } else {
          ok := false;
          return;
        }
        next := next + 1;
      } else {
        ok := false;
      }
    }
  }

  lemma ManyBytes(u: Text)
    requires Utf8.CharLength(u, 0) > 1
    ensures !AllDigits(u[..Utf8.CharLength(u, 0)])
  {
    Utf8.CharBytes(u, 0);
    assert u[..Utf8.CharLength(u, 0)][0] == u[0];
  }

  /** The name loop, from just after a solidus. */
  method ParseName(buffer: array<Byte>, start: nat, s: Text, from: nat, fragment: bool)
    returns (i: nat, name: nat, isNumber: bool, code: PointerError)
    requires start < from <= |s| == buffer.Length
    modifies buffer
    ensures buffer[..start] == old(buffer[..start])
    ensures var r := NameFrom(s, from, fragment, []);
      if r.Name? then
        && code == NoPointerError && i == r.next && start <= name < i && buffer[start..name] == r.name
        && (isNumber <==> AllDigits(r.name)) && Slashes(s, from) == Slashes(s, i)
      else code == r.code && i == r.offset
  {
    hide UnitAt, Slashes, AllDigits;
    i, name, isNumber, code := from, start, true, NoPointerError;
    ghost var before := buffer[..start];
    ghost var out: Text := [];
    NoDigits();
    while i < |s| && s[i] != SOLIDUS
      invariant from <= i <= |s| && start <= name < i
      invariant buffer[..start] == before && buffer[start..name] == out
      invariant isNumber <==> AllDigits(out)
      invariant Slashes(s, from) == Slashes(s, i)
      invariant NameFrom(s, from, fragment, []) == NameFrom(s, i, fragment, out)
      decreases |s| - i
    {
      ghost var u := UnitAt(s, i, fragment);
      ghost var kept := buffer[..name];
      var next, len, digits, c := NameUnit(buffer, name, s, i, fragment);
      if c != NoPointerError {
        assert buffer[..start] == buffer[..name][..start] == kept[..start];
        return next, name, isNumber, c;
      }
      UnitSkips(s, i, fragment);
      MoreDigits(out, u.bytes);
      assert buffer[..start] == kept[..start];
      assert buffer[start..name + len] == kept[start..] + u.bytes;
      i, name, isNumber, out := next, name + len, isNumber && digits, out + u.bytes;
    }
  }

  lemma NoDigits()
    ensures AllDigits([])
  {
  }

  lemma MoreDigits(a: Text, b: Text)
    ensures AllDigits(a + b) <==> AllDigits(a) && AllDigits(b)
  {
    if AllDigits(a + b) {
      forall k | 0 <= k < |a| ensures IsDigit(a[k]) { assert (a + b)[k] == a[k]; }
      forall k | 0 <= k < |b| ensures IsDigit(b[k]) { assert (a + b)[|a| + k] == b[k]; }
    }
  }

  /** The checks and the conversion loop after a name. */
  method ConvertIndex(buffer: array<Byte>, start: nat, length: nat, isNumber: bool, ghost name: Text) returns (index: nat)
    requires start + |name| <= buffer.Length && buffer[start..start + |name|] == name
    requires length == Wrap32(|name|) && (isNumber <==> AllDigits(name))
    ensures index == IndexOf(name)
  {
    hide Wrap32;
    ghost var t := Covered(name);
    assert forall k :: 0 <= k < length ==> buffer[start + k] == t[k] by {
      forall k | 0 <= k < length ensures buffer[start + k] == t[k] {
        assert buffer[start..start + |name|][k] == name[k];
      }
    }
    if !isNumber || length == 0 || (length > 1 && buffer[start] == '0' as int) {
      return INVALID_INDEX;
    }
    var n, j := 0, 0;
    while j < length
      invariant j <= length == |t| && AllDigits(t) && 0 <= n < TWO_32
      invariant Converted(t, 0, 0) == Converted(t, j, n)
    {
      var m := Wrap32(n * 10 + (buffer[start + j] - '0' as int));
      if m < n {
        return INVALID_INDEX;
      }
      n := m;
      j := j + 1;
    }
    index := n;
  }

  // ----- the object -----

  /** A token's name is a place in the name buffer. */
  datatype Token = Token(name: nat, length: nat, index: nat)

  /** The names one after another, each with its terminator. */
  function Layout(names: seq<Text>): (w: Text) {
    if names == [] then [] else Layout(names[..|names| - 1]) + names[|names| - 1] + [0]
  }

  lemma LayoutExtends(names: seq<Text>, name: Text)
    ensures Layout(names + [name]) == Layout(names) + name + [0]
  {
    assert (names + [name])[..|names|] == names;
  }

  /** Where the `k`th name lies, and its terminator. */
  lemma {:induction false} LayoutAt(names: seq<Text>, k: nat)
    requires k < |names|
    ensures var at := |Layout(names[..k])|;
      At(Layout(names), at, names[k]) && at + |names[k]| < |Layout(names)| && Layout(names)[at + |names[k]|] == 0
    decreases |names|
  {
    var init, last := names[..|names| - 1], names[|names| - 1];
    if k < |init| {
      assert init[..k] == names[..k];
      LayoutAt(init, k);
      var at := |Layout(names[..k])|;
      assert Layout(names)[at..at + |names[k]|] == Layout(init)[at..at + |names[k]|];
    } else {
      assert names[..k] == init;
      var at := |Layout(init)|;
      assert Layout(names)[at..at + |last|] == last;
    }
  }

  function TokenOf(names: seq<Text>, k: nat): (r: Token)
    requires k < |names|
  {
    Token(|Layout(names[..k])|, Wrap32(|names[k]|), IndexOf(names[k]))
  }

  /** What the tree operations see of a token. */
  datatype Ref = Ref(name: Text, index: nat)

  function RefOf(name: Text): (r: Ref) { Ref(Covered(name), IndexOf(name)) }

  class GenericPointer {
    var nameBuffer: array<Byte>
    var tokens: array<Token>
    var tokenCount: nat
    var parseErrorOffset: nat
    var parseErrorCode: PointerError

    constructor ()
      ensures tokenCount == 0 && parseErrorCode == NoPointerError && fresh(nameBuffer) && fresh(tokens)
    {
      nameBuffer, tokens := new Byte[0], new Token[0];
      tokenCount, parseErrorOffset, parseErrorCode := 0, 0, NoPointerError;
    }

    /** The arrays hold exactly these decoded names. */
    ghost predicate Holds(names: seq<Text>)
      reads `nameBuffer, `tokens, `tokenCount, nameBuffer, tokens
    {
      && tokens.Length == tokenCount == |names|
      && Layout(names) <= nameBuffer[..]
      && forall k :: 0 <= k < |names| ==> tokens[k] == TokenOf(names, k)
    }

    /** Parsing stands at `i` with the names so far stored through the two cursors. */
    ghost predicate Filled(s: Text, i: nat, name: nat, token: nat, names: seq<Text>)
      reads `nameBuffer, `tokens, `tokenCount, nameBuffer, tokens
    {
      && name <= i <= |s| == nameBuffer.Length && tokens.Length == tokenCount
      && token == |names| && token + Slashes(s, i) == tokenCount
      && name == |Layout(names)| && nameBuffer[..name] == Layout(names)
      && forall k :: 0 <= k < token ==> tokens[k] == TokenOf(names, k)
    }

    /** One round of the token loop, the cursor on a solidus. */
    method ParseToken(s: Text, from: nat, uriFragment: bool, start: nat, token: nat, ghost names: seq<Text>)
      returns (i: nat, name: nat, code: PointerError)
      requires from < |s| && s[from] == SOLIDUS && Filled(s, from, start, token, names)
      modifies nameBuffer, tokens
      ensures var r := NameFrom(s, from + 1, uriFragment, []);
        if r.Name? then code == NoPointerError && i == r.next && Filled(s, i, name, token + 1, names + [r.name])
        else code == r.code && i == r.offset
    {
      hide NameFrom, Slashes, IndexOf, Wrap32, Layout;
      SlashesStep(s, from);
      ghost var r := NameFrom(s, from + 1, uriFragment, []);
      var isNumber;
      i, name, isNumber, code := ParseName(nameBuffer, start, s, from + 1, uriFragment);
      if code != NoPointerError {
        return;
      }
      var length := Wrap32(name - start);
      var index := ConvertIndex(nameBuffer, start, length, isNumber, r.name);
      nameBuffer[name] := 0;
      name := name + 1;
      tokens[token] := Token(start, length, index);
      assert nameBuffer[..name] == Layout(names) + r.name + [0];
      LayoutExtends(names, r.name);
      TokensExtend(names, r.name);
    }

    /** `Parse`: every store lands in an array of `length` bytes and one token for each solidus. */
    method Parse(s: Text)
      modifies this
      ensures fresh(nameBuffer) && fresh(tokens)
      ensures parseErrorCode == if Pointer.Parse(s).Bad? then Pointer.Parse(s).code else NoPointerError
      ensures Pointer.Parse(s).Names? ==> nameBuffer.Length == |s| && Holds(Pointer.Parse(s).names)
      ensures Pointer.Parse(s).Bad? ==> Holds([]) && parseErrorOffset == Pointer.Parse(s).offset
    {
      hide NameFrom, Slashes, TokenOf, Filled, Holds;
      var count := CountSolidi(s);
      nameBuffer, tokens := new Byte[|s|], new Token[count];
      tokenCount := count;
      var uriFragment := IsFragment(s);
      var i := if uriFragment then 1 else 0;
      if i != |s| && Peek(s, i) != SOLIDUS {
        Fail(TokenMustBeginWithSolidus, i);
        return;
      }
      SlashesSkip(s, 0, i);
      ghost var names: seq<Text> := [];
      var name, token := 0, 0;
      FilledAtStart(s, i);
      while i < |s|
        invariant i <= |s| && fresh(nameBuffer) && fresh(tokens) && nameBuffer.Length == |s| && Filled(s, i, name, token, names)
        invariant i < |s| ==> s[i] == SOLIDUS
        invariant Pointer.Parse(s) == NamesFrom(s, i, uriFragment, names)
        decreases |s| - i
      {
        ghost var r := NameFrom(s, i + 1, uriFragment, []);
        var code;
        i, name, code := ParseToken(s, i, uriFragment, name, token, names);
        if code != NoPointerError {
          Fail(code, i);
          return;
        }
        names := names + [r.name];
        token := token + 1;
      }
      FilledAtEnd(s, name, token, names);
      parseErrorCode := NoPointerError;
    }

    /** The `error` label. */
    method Fail(code: PointerError, i: nat)
      modifies this
      ensures fresh(nameBuffer) && fresh(tokens) && Holds([]) && parseErrorOffset == i && parseErrorCode == code
    {
      tokens, nameBuffer := new Token[0], new Byte[0];
      tokenCount, parseErrorOffset, parseErrorCode := 0, i, code;
    }

    /** One name, printed from the buffer; the transcoder's stream starts inside the buffer too. */
    method StringifyName(uriFragment: bool, t: Token, os: Text, ghost name: Text) returns (ok: bool, os': Text)
      requires At(nameBuffer[..], t.name, name) && t.length == |name|
      requires t.name + |name| < nameBuffer.Length && nameBuffer[t.name + |name|] == 0
      ensures ok <==> Escaped(uriFragment, name, 0).Some?
      ensures ok ==> os' == os + Escaped(uriFragment, name, 0).value
    {
      hide Escaped, At, Utf8.Validate, Percent;
      os' := os;
      var j := 0;
      ghost var written: Text := [];
      BeforeNothing(Escaped(uriFragment, name, 0));
      while j < t.length
        invariant j <= |name| && os' == os + written
        invariant Escaped(uriFragment, name, 0) == Before(written, Escaped(uriFragment, name, j))
        decreases |name| - j
      {
        BufferByte(nameBuffer[..], t.name, name, j);
        EscapedRound(uriFragment, name, j);
        var c := nameBuffer[t.name + j];
        ghost var w: Text;
        ghost var next := j + 1;
        if c == TILDE {
          os' := os' + [TILDE];
          os' := os' + ['0' as int];
          w := [TILDE, '0' as int];
        } else if c == SOLIDUS {
          os' := os' + [TILDE];
          os' := os' + ['1' as int];
          w := [TILDE, '1' as int];
        } else if uriFragment && !Unreserved(c) {
          ValidateInBuffer(nameBuffer[..], t.name, name, j);
          var v := Utf8.Validate(nameBuffer[..], t.name + j);
          if !v.ok {
            return false, os';
          }
          var u := nameBuffer[t.name + j..v.next];
          os' := PutPercent(os', u);
          w := Percent(u);
          next := v.next - t.name;
          j := j + (v.next - t.name - j) - 1;
        } else {
          os' := os' + [c];
          w := [c];
        }
        j := j + 1;
        assert os' == os + (written + w);
        BeforeTwice(written, w, Escaped(uriFragment, name, next));
        written := written + w;
      }
      NameEnds(uriFragment, name);
      assert os + (written + []) == os + written;
      ok := true;
    }

    lemma HoldsSizes(names: seq<Text>)
      requires Holds(names)
      ensures tokens.Length == tokenCount == |names|
    {
    }

    /** Nothing parsed yet, and everything. */
    lemma FilledAtStart(s: Text, i: nat)
      requires i <= |s| == nameBuffer.Length && tokens.Length == tokenCount == Slashes(s, i)
      ensures Filled(s, i, 0, 0, [])
    {
    }

    lemma FilledAtEnd(s: Text, name: nat, token: nat, names: seq<Text>)
      requires Filled(s, |s|, name, token, names)
      ensures Holds(names)
    {
      EndOfSlashes(s);
    }

    /** The name of token `k` in the buffer, terminated. */
    lemma TokenInBuffer(names: seq<Text>, k: nat)
      requires Holds(names) && k < |names| && |names[k]| < TWO_32
      ensures var t := tokens[k];
        && At(nameBuffer[..], t.name, names[k]) && t.length == |names[k]|
        && t.name + |names[k]| < nameBuffer.Length && nameBuffer[t.name + |names[k]|] == 0
    {
      hide Layout;
      LayoutAt(names, k);
      InBuffer(nameBuffer[..], Layout(names), |Layout(names[..k])|, names[k]);
    }

    /** A solidus and a name. */
    method StringifyToken(uriFragment: bool, k: nat, os: Text, ghost names: seq<Text>) returns (ok: bool, os': Text)
      requires Holds(names) && k < |names| && |names[k]| < TWO_32
      ensures ok <==> Escaped(uriFragment, names[k], 0).Some?
      ensures ok ==> os' == os + ([SOLIDUS] + Escaped(uriFragment, names[k], 0).value)
    {
      hide Escaped, Layout, IndexOf, TokenOf, At;
      TokenInBuffer(names, k);
      ok, os' := StringifyName(uriFragment, tokens[k], os + [SOLIDUS], names[k]);
      if ok {
        assert os' == os + ([SOLIDUS] + Escaped(uriFragment, names[k], 0).value);
      }
    }

    /** The token loop of `Stringify`. */
    method StringifyTokens(uriFragment: bool, os: Text, ghost names: seq<Text>) returns (ok: bool, os': Text)
      requires Holds(names) && forall name :: name in names ==> |name| < TWO_32
      ensures ok <==> PrintedNames(uriFragment, names).Some?
      ensures ok ==> os' == os + PrintedNames(uriFragment, names).value
    {
      hide Escaped, PrintedNames, Before, Holds;
      HoldsSizes(names);
      os' := os;
      ghost var written: Text := [];
      BeforeNothing(PrintedNames(uriFragment, names));
      assert names[0..] == names;
      for k := 0 to tokenCount
        invariant os' == os + written
        invariant PrintedNames(uriFragment, names) == Before(written, PrintedNames(uriFragment, names[k..]))
      {
        PrintedStep(uriFragment, names, k);
        ghost var rest := PrintedNames(uriFragment, names[k + 1..]);
        ok, os' := StringifyToken(uriFragment, k, os', names);
        if !ok {
          BeforeNone(written);
          return;
        }
        ghost var w := [SOLIDUS] + Escaped(uriFragment, names[k], 0).value;
        BeforeTwice(written, w, rest);
        assert os' == os + (written + w);
        written := written + w;
      }
      NamesEnd(uriFragment, names, written);
      ok := true;
    }

    /** `Stringify` and `StringifyUriFragment`. */
    method Stringify(uriFragment: bool, os: Text, ghost names: seq<Text>) returns (ok: bool, os': Text)
      requires parseErrorCode == NoPointerError && Holds(names)
      requires forall name :: name in names ==> |name| < TWO_32
      ensures ok <==> Pointer.Stringify(uriFragment, names).Some?
      ensures ok ==> os' == os + Pointer.Stringify(uriFragment, names).value
    {
      hide Pointer.Stringify, PrintedNames, Holds;
      StringifyIs(uriFragment, names);
      ok, os' := StringifyTokens(uriFragment, if uriFragment then os + ['#' as int] else os, names);
    }

    /** `operator==`. */
    method Equals(rhs: GenericPointer, ghost names: seq<Text>, ghost rhsNames: seq<Text>) returns (equal: bool)
      requires Holds(names) && rhs.Holds(rhsNames)
      ensures equal <==>
        && parseErrorCode == NoPointerError && rhs.parseErrorCode == NoPointerError && |names| == |rhsNames|
        && forall k :: 0 <= k < |names| ==> RefOf(names[k]) == RefOf(rhsNames[k])
    {
      hide Layout, IndexOf, Wrap32;
      if parseErrorCode != NoPointerError || rhs.parseErrorCode != NoPointerError || tokenCount != rhs.tokenCount {
        return false;
      }
      for k := 0 to tokenCount
        invariant forall m :: 0 <= m < k ==> RefOf(names[m]) == RefOf(rhsNames[m])
      {
        var a, b := tokens[k], rhs.tokens[k];
        CoveredInBuffer(names, k, nameBuffer[..]);
        CoveredInBuffer(rhsNames, k, rhs.nameBuffer[..]);
        if a.index != b.index || a.length != b.length
           || (a.length != 0 && nameBuffer[a.name..a.name + a.length] != rhs.nameBuffer[b.name..b.name + b.length]) {
          assert RefOf(names[k]) != RefOf(rhsNames[k]);
          return false;
        }
        assert a.length == 0 ==> Covered(names[k]) == [] == Covered(rhsNames[k]);
      }
      equal := true;
    }

    static method CountSolidi(s: Text) returns (count: nat)
      ensures count == Slashes(s, 0)
    {
      count := 0;
      for i := 0 to |s|
        invariant count + Slashes(s, i) == Slashes(s, 0)
      {
        if s[i] == SOLIDUS {
          count := count + 1;
        }
      }
    }
  }

  lemma SlashesStep(s: Text, i: nat)
    requires i < |s| && s[i] == SOLIDUS
    ensures Slashes(s, i) == 1 + Slashes(s, i + 1)
  {
  }

  lemma EndOfSlashes(s: Text)
    ensures Slashes(s, |s|) == 0
  {
  }

  lemma TokensExtend(names: seq<Text>, name: Text)
    ensures forall k :: 0 <= k < |names| ==> TokenOf(names + [name], k) == TokenOf(names, k)
    ensures TokenOf(names + [name], |names|) == Token(|Layout(names)|, Wrap32(|name|), IndexOf(name))
  {
    forall k | 0 <= k <= |names| ensures (names + [name])[..k] == names[..k] {
    }
    assert names[..|names|] == names;
  }

  // ----- reading names back -----

  lemma BufferByte(buffer: Text, at: nat, name: Text, j: nat)
    requires At(buffer, at, name) && j < |name|
    ensures at + j < |buffer| && buffer[at + j] == name[j]
  {
    AtByte(buffer, at, name, j);
  }

  lemma InBuffer(buffer: Text, layout: Text, at: nat, name: Text)
    requires layout <= buffer && At(layout, at, name) && at + |name| < |layout|
    ensures At(buffer, at, name) && buffer[at + |name|] == layout[at + |name|]
  {
    assert buffer[at..at + |name|] == layout[at..at + |name|];
  }

  lemma CoveredInBuffer(names: seq<Text>, k: nat, buffer: Text)
    requires k < |names| && Layout(names) <= buffer
    ensures var t := TokenOf(names, k);
      t.name + t.length <= |buffer| && buffer[t.name..t.name + t.length] == Covered(names[k])
  {
    hide Layout, At, Wrap32;
    LayoutAt(names, k);
    InBuffer(buffer, Layout(names), |Layout(names[..k])|, names[k]);
    CoveredLength(names[k]);
    AtPrefix(buffer, |Layout(names[..k])|, names[k], Wrap32(|names[k]|));
  }

  lemma AtPrefix(buffer: Text, at: nat, name: Text, n: nat)
    requires At(buffer, at, name) && n <= |name|
    ensures at + n <= |buffer| && buffer[at..at + n] == name[..n]
  {
    assert buffer[at..at + n] == buffer[at..at + |name|][..n];
  }

  lemma CoveredLength(name: Text)
    ensures Wrap32(|name|) <= |name|
  {
  }

  /** A terminated name validates in the buffer as it does alone. */
  lemma ValidateInBuffer(buffer: Text, at: nat, name: Text, j: nat)
    requires At(buffer, at, name) && at + |name| < |buffer| && buffer[at + |name|] == 0 && j < |name|
    ensures var v, w := Utf8.Validate(buffer, at + j), Utf8.Validate(name, j);
      && (v.ok <==> w.ok)
      && (v.ok ==> v.next == at + w.next && j < w.next <= |name| && buffer[at + j..v.next] == name[j..w.next])
  {
    hide Utf8.Validate;
    Utf8.BytesAt(buffer, at, name);
    assert forall k :: 0 <= k <= |name| ==> Peek(buffer, at + k) == Peek(name, k);
    Utf8.ValidateIsGrammar(buffer, at + j);
    Utf8.ValidateIsGrammar(name, j);
    SameChar(buffer, at, name, j);
    if Utf8.CharLength(name, j) > 0 {
      var n := Utf8.CharLength(name, j);
      assert buffer[at + j..at + j + n] == buffer[at..at + |name|][j..j + n];
    }
  }

  lemma SameChar(buffer: Text, at: nat, name: Text, j: nat)
    requires at + |name| < |buffer| && j < |name| && forall k :: 0 <= k <= |name| ==> Peek(buffer, at + k) == Peek(name, k)
    ensures Utf8.CharLength(buffer, at + j) == Utf8.CharLength(name, j)
  {
    assert Peek(name, |name|) == 0 && Peek(buffer, at + j + 0) == Peek(name, j);
    assert Peek(buffer, at + (j + 1)) == Peek(name, j + 1);
    if j + 1 < |name| {
      assert Peek(buffer, at + (j + 2)) == Peek(name, j + 2);
      if j + 2 < |name| {
        assert Peek(buffer, at + (j + 3)) == Peek(name, j + 3);
      }
    }
  }

  method PutPercent(os: Text, u: Text) returns (os': Text)
    ensures os' == os + Percent(u)
  {
    os' := os;
    assert u[0..] == u;
    for k := 0 to |u|
      invariant os' + Percent(u[k..]) == os + Percent(u)
    {
      assert u[k..][0] == u[k] && u[k..][1..] == u[k + 1..];
      assert os' + (Triplet(u[k]) + Percent(u[k + 1..])) == os' + Triplet(u[k]) + Percent(u[k + 1..]);
      os' := os' + Triplet(u[k]);
    }
    assert u[|u|..] == [] && os' + [] == os';
  }

  lemma EscapedRound(fragment: bool, name: Text, j: nat)
    requires j < |name|
    ensures var c := name[j];
      if c == TILDE then Escaped(fragment, name, j) == Before([TILDE, '0' as int], Escaped(fragment, name, j + 1))
      else if c == SOLIDUS then Escaped(fragment, name, j) == Before([TILDE, '1' as int], Escaped(fragment, name, j + 1))
      else if fragment && !Unreserved(c) then
        var v := Utf8.Validate(name, j);
        if v.ok then v.next <= |name| && Escaped(fragment, name, j) == Before(Percent(name[j..v.next]), Escaped(fragment, name, v.next))
        else Escaped(fragment, name, j).None?
      else Escaped(fragment, name, j) == Before([c], Escaped(fragment, name, j + 1))
  {
    hide Utf8.Validate, Percent;
    Utf8.ValidateIsGrammar(name, j);
  }

  lemma NameEnds(fragment: bool, name: Text)
    ensures Escaped(fragment, name, |name|) == Some([])
  {
  }

  lemma PrintedStep(fragment: bool, names: seq<Text>, k: nat)
    requires k < |names|
    ensures var w := Escaped(fragment, names[k], 0);
      if w.None? then PrintedNames(fragment, names[k..]).None?
      else PrintedNames(fragment, names[k..]) == Before([SOLIDUS] + w.value, PrintedNames(fragment, names[k + 1..]))
  {
    hide Escaped;
    assert names[k..][0] == names[k] && names[k..][1..] == names[k + 1..];
  }

  lemma StringifyIs(fragment: bool, names: seq<Text>)
    ensures Pointer.Stringify(fragment, names).Some? <==> PrintedNames(fragment, names).Some?
    ensures PrintedNames(fragment, names).Some? ==>
      Pointer.Stringify(fragment, names).value == (if fragment then ['#' as int] else []) + PrintedNames(fragment, names).value
  {
    hide PrintedNames;
  }

  lemma BeforeNone(w: Text)
    ensures Before(w, None).None?
  {
  }

  lemma NamesEnd(fragment: bool, names: seq<Text>, written: Text)
    ensures Before(written, PrintedNames(fragment, names[|names|..])) == Some(written)
  {
    assert names[|names|..] == [] && written + [] == written;
  }

  lemma BeforeNothing(rest: Option<Text>)
    ensures Before([], rest) == rest
  {
    if rest.Some? {
      assert [] + rest.value == rest.value;
    }
  }

  lemma BeforeTwice(a: Text, b: Text, rest: Option<Text>)
    ensures Before(a, Before(b, rest)) == Before(a + b, rest)
  {
    if rest.Some? {
      assert a + (b + rest.value) == a + b + rest.value;
    }
  }
}
