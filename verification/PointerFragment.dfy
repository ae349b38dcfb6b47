/** JSON Pointers in URI fragments: which texts `Parse` accepts and what it makes of them, against RFC 6901,
    section 6, which decodes the percent signs before anything else. */
module PointerFragment {
  import opened Bytes
  import opened Pointer
  import opened PointerObject
  import StringWriting
  import Utf8

  // ----- percent decoding first -----

  /** `s` from `i` on with each triplet replaced by its byte. */
  function Decoded(s: Text, i: nat): (d: Text)
    requires i <= |s|
    ensures d == [] <==> i == |s|
    decreases |s| - i
  {
    if i == |s| then []
    else if IsTriplet(s, i) then [TripletValue(s, i)] + Decoded(s, i + 3)
    else [s[i]] + Decoded(s, i + 1)
  }

  predicate EscapeDigit(s: Text, i: nat) { Peek(s, i) == '0' as int || Peek(s, i) == '1' as int }

  /** Letters, digits, hyphen, full stop, underscore and tilde (RFC 3986, section 2.3). */
  predicate IsUnreserved(c: Byte) {
    0x30 <= c <= 0x39 || 0x41 <= c <= 0x5A || 0x61 <= c <= 0x7A || c == 0x2D || c == 0x2E || c == 0x5F || c == 0x7E
  }

  /** Every byte belongs to a triplet, is unreserved or a solidus, and behind a tilde, written either way, stands an
      unencoded 0 or 1. */
  ghost predicate Spelled(s: Text, i: nat)
    requires i <= |s|
    decreases |s| - i
  {
    i == |s| ||
    if IsTriplet(s, i) then (TripletValue(s, i) == TILDE ==> EscapeDigit(s, i + 3)) && Spelled(s, i + 3)
    else (s[i] == SOLIDUS || IsUnreserved(s[i])) && (s[i] == TILDE ==> EscapeDigit(s, i + 1)) && Spelled(s, i + 1)
  }

  ghost predicate Fine(s: Text, i: nat)
    requires i <= |s|
  {
    Spelled(s, i) && Utf8.WellFormed(Decoded(s, i), 0)
  }

  /** A lone number sign, or one with a solidus behind it, spelled so and decoding to UTF-8. */
  ghost predicate FragmentGrammar(s: Text) {
    IsFragment(s) && s != [] && (|s| == 1 || s[1] == SOLIDUS) && Fine(s, 1)
  }

  // ----- characters of the decoded text -----

  lemma {:induction false} WellFormedBehind(a: Text, b: Text, j: nat)
    requires j <= |b|
    ensures Utf8.WellFormed(a + b, |a| + j) <==> Utf8.WellFormed(b, j)
    decreases |b| - j
  {
    var t := a + b;
    assert Peek(t, |a| + j) == Peek(b, j) && Peek(t, |a| + j + 1) == Peek(b, j + 1);
    assert Peek(t, |a| + j + 2) == Peek(b, j + 2) && Peek(t, |a| + j + 3) == Peek(b, j + 3);
    assert Utf8.CharLength(t, |a| + j) == Utf8.CharLength(b, j);
    var n := Utf8.CharLength(b, j);
    if j < |b| && n > 0 {
      WellFormedBehind(a, b, j + n);
    }
  }

  /** The first character and the rest. */
  lemma FirstChar(ch: Text, rest: Text)
    requires ch != [] && Utf8.CharLength(ch + rest, 0) == |ch|
    ensures Utf8.WellFormed(ch + rest, 0) <==> Utf8.WellFormed(rest, 0)
  {
    hide Utf8.CharLength;
    WellFormedBehind(ch, rest, 0);
  }

  lemma AsciiFirst(c: Byte, rest: Text)
    requires c < 0x80
    ensures Utf8.WellFormed([c] + rest, 0) <==> Utf8.WellFormed(rest, 0)
  {
    assert Peek([c] + rest, 0) == c;
    FirstChar([c], rest);
  }

  /** The triplets at `i` and what follows them. */
  lemma {:induction false} DecodedRun(s: Text, i: nat, k: nat)
    requires i <= |s| && k <= |Unpercent(s, i)|
    ensures i + 3 * k <= |s| && Decoded(s, i) == Unpercent(s, i)[..k] + Decoded(s, i + 3 * k)
    decreases k
  {
    hide TripletValue, IsTriplet;
    if k > 0 {
      DecodedRun(s, i + 3, k - 1);
      assert Unpercent(s, i)[..k] == [TripletValue(s, i)] + Unpercent(s, i + 3)[..k - 1];
    }
  }

  lemma {:induction false} SpelledRun(s: Text, i: nat, k: nat)
    requires i <= |s| && k <= |Unpercent(s, i)| && i + 3 * k <= |s|
    ensures Spelled(s, i) ==> Spelled(s, i + 3 * k)
    ensures (forall m :: 0 <= m < k ==> Unpercent(s, i)[m] != TILDE) ==> (Spelled(s, i) <==> Spelled(s, i + 3 * k))
    decreases k
  {
    hide TripletValue, IsTriplet, Unreserved, EscapeDigit;
    if k > 0 {
      SpelledRun(s, i + 3, k - 1);
      var u := Unpercent(s, i);
      assert u[0] == TripletValue(s, i);
      var v := Unpercent(s, i + 3);
      assert forall m :: 0 <= m < k - 1 ==> v[m] == u[m + 1];
    }
  }

  lemma HighTails(t: Text, m: nat)
    requires Utf8.CharLength(t, 0) > m > 0
    ensures m < |t| && t[m] >= 0x80
  {
    Utf8.CharBytes(t, 0);
    assert Utf8.CharLength(t, 0) <= |t|;
  }

  lemma HighRun(u: Text)
    requires Utf8.CharLength(u, 0) > 1
    ensures var n := Utf8.CharLength(u, 0); n <= |u| && forall m :: 0 <= m < n ==> u[m] >= 0x80
  {
    Utf8.CharBytes(u, 0);
    forall m | 0 <= m < Utf8.CharLength(u, 0) ensures u[m] >= 0x80 {
      if m > 0 {
        HighTails(u, m);
      }
    }
  }

  /** A character of the decoded text that begins in triplets is spelled by triplets alone. */
  lemma CharInTriplets(s: Text, i: nat)
    requires i < |s| && Unpercent(s, i) != [] && Spelled(s, i)
    ensures Utf8.CharLength(Decoded(s, i), 0) == Utf8.CharLength(Unpercent(s, i), 0)
  {
    hide Utf8.CharLength, IsUnreserved;
    var u, d := Unpercent(s, i), Decoded(s, i);
    UnpercentAt(s, i, |u|);
    DecodedRun(s, i, |u|);
    SpelledRun(s, i, |u|);
    assert u[..|u|] == u;
    var n := Utf8.CharLength(u, 0);
    var m := Utf8.CharLength(d, 0);
    if n > 0 {
      assert At(d, 0, u[0..0 + n]) by { assert d[0..0 + n] == u[0..0 + n]; }
      StringWriting.CharLengthIsLocal(u, 0, d, 0);
    } else if m > 0 {
      if m <= |u| {
        assert At(u, 0, d[0..0 + m]) by { assert u[0..0 + m] == d[0..0 + m]; }
        StringWriting.CharLengthIsLocal(d, 0, u, 0);
      } else {
        HighTails(d, |u|);
        LiteralIsAscii(s, i + 3 * |u|);
      }
    }
  }

  lemma LiteralIsAscii(s: Text, i: nat)
    requires i <= |s| && Spelled(s, i) && !IsTriplet(s, i)
    ensures i < |s| ==> Decoded(s, i)[0] < 0x80
  {
  }

  // ----- one unit -----

  /** What stands in the decoded text for the bytes of a unit. */
  function Spelling(u: Text): (w: Text) {
    if u == [TILDE] then [TILDE, '0' as int] else if u == [SOLIDUS] then [TILDE, '1' as int] else u
  }

  /** Behind a tilde. */
  lemma DigitBehind(s: Text, i: nat)
    requires i <= |s| && EscapeDigit(s, i)
    ensures i < |s| && Decoded(s, i) == [s[i]] + Decoded(s, i + 1) && (Fine(s, i) <==> Fine(s, i + 1))
  {
    AsciiFirst(s[i], Decoded(s, i + 1));
  }

  /** A byte below 0x80, decoded or not, with the rest of its escape. */
  lemma ByteFine(s: Text, i: nat, c: Byte)
    requires i <= |s| && c < 0x80
    ensures var r := Unescape(s, i, c);
      ((c == TILDE ==> EscapeDigit(s, i)) && Spelled(s, i) && Utf8.WellFormed([c] + Decoded(s, i), 0))
        <==> r.Put? && Fine(s, r.next)
    ensures var r := Unescape(s, i, c);
      r.Put? ==> [c] + Decoded(s, i) == (if c == TILDE then Spelling(r.bytes) else [c]) + Decoded(s, r.next)
  {
    AsciiFirst(c, Decoded(s, i));
    if c == TILDE && EscapeDigit(s, i) {
      DigitBehind(s, i);
      assert [c] + ([s[i]] + Decoded(s, i + 1)) == [c, s[i]] + Decoded(s, i + 1);
    }
  }

  /** A round of the name loop succeeds, with a fine rest, exactly on a fine text. */
  lemma UnitFine(s: Text, i: nat)
    requires i < |s| && s[i] != SOLIDUS
    ensures var r := UnitAt(s, i, true); Fine(s, i) <==> r.Put? && Fine(s, r.next)
  {
    hide Utf8.CharLength, Utf8.WellFormed;
    if s[i] == '%' as int {
      var u := Unpercent(s, i);
      NoCharInNothing();
      if u != [] {
        var n := Utf8.CharLength(u, 0);
        var d := Decoded(s, i);
        if Spelled(s, i) {
          CharInTriplets(s, i);
        }
        if n == 1 {
          Utf8.CharBytes(u, 0);
          assert d == [u[0]] + Decoded(s, i + 3);
          ByteFine(s, i + 3, u[0]);
        } else if n > 1 {
          HighRun(u);
          DecodedRun(s, i, n);
          SpelledRun(s, i, n);
          if Spelled(s, i) {
            FirstChar(u[..n], Decoded(s, i + 3 * n));
          }
        } else if Fine(s, i) {
          NoCharNotWellFormed(d);
        }
      }
    } else if Unreserved(s[i]) {
      ByteFine(s, i + 1, s[i]);
    }
  }

  lemma NoCharInNothing()
    ensures Utf8.CharLength([], 0) == 0
  {
  }

  lemma NoCharNotWellFormed(d: Text)
    requires d != [] && Utf8.CharLength(d, 0) == 0
    ensures !Utf8.WellFormed(d, 0)
  {
  }

  // ----- acceptance -----

  lemma SolidusFine(s: Text, i: nat)
    requires i < |s| && s[i] == SOLIDUS
    ensures Decoded(s, i) == [SOLIDUS] + Decoded(s, i + 1) && (Fine(s, i) <==> Fine(s, i + 1))
  {
    AsciiFirst(SOLIDUS, Decoded(s, i + 1));
  }

  lemma {:induction false} NameFine(s: Text, i: nat, out: Text)
    requires i <= |s|
    ensures var r := NameFrom(s, i, true, out); Fine(s, i) <==> r.Name? && Fine(s, r.next)
    decreases |s| - i
  {
    hide Fine, UnitAt;
    if i < |s| && s[i] != SOLIDUS {
      UnitFine(s, i);
      var u := UnitAt(s, i, true);
      if u.Put? {
        NameFine(s, u.next, out + u.bytes);
      }
    }
  }

  lemma EmptyFine(s: Text)
    ensures Fine(s, |s|)
  {
  }

  lemma {:induction false} NamesFine(s: Text, i: nat, names: seq<Text>)
    requires i <= |s| && (i < |s| ==> s[i] == SOLIDUS)
    ensures NamesFrom(s, i, true, names).Names? <==> Fine(s, i)
    decreases |s| - i
  {
    hide Fine, NameFrom;
    if i == |s| {
      EmptyFine(s);
    } else {
      SolidusFine(s, i);
      NameFine(s, i + 1, []);
      var r := NameFrom(s, i + 1, true, []);
      if r.Name? {
        NamesFine(s, r.next, names + [r.name]);
      }
    }
  }

  /** Which fragments are accepted. */
  lemma AcceptsFragments(s: Text)
    requires IsFragment(s)
    ensures Parse(s).Names? <==> FragmentGrammar(s)
  {
    hide Fine;
    if |s| == 1 || s[1] == SOLIDUS {
      NamesFine(s, 1, []);
    }
  }

  // ----- the same names as by decoding first -----

  /** Solidi that stand behind percent signs. */
  ghost function EncodedSolidi(s: Text, i: nat): (n: nat)
    requires i <= |s|
    decreases |s| - i
  {
    if i == |s| then 0
    else if IsTriplet(s, i) then (if TripletValue(s, i) == SOLIDUS then 1 else 0) + EncodedSolidi(s, i + 3)
    else EncodedSolidi(s, i + 1)
  }

  /** High bytes are taken one by one from the decoded text. */
  lemma {:induction false} HighBytes(d: Text, j: nat, n: nat, out: Text)
    requires j + n <= |d| && forall m :: j <= m < j + n ==> d[m] >= 0x80
    ensures NameFrom(d, j, false, out) == NameFrom(d, j + n, false, out + d[j..j + n])
    decreases n
  {
    if n > 0 {
      HighBytes(d, j + 1, n - 1, out + [d[j]]);
      assert out + [d[j]] + d[j + 1..j + n] == out + d[j..j + n];
    } else {
      assert out + d[j..j] == out;
    }
  }

  /** Where the decoded text stands for `s` from `i` on, its parse goes on after a unit as the fragment's does. */
  lemma UnitSame(s: Text, i: nat, d: Text, j: nat, out: Text)
    requires i < |s| && s[i] != SOLIDUS && Fine(s, i) && EncodedSolidi(s, i) == 0
    requires j <= |d| && d[j..] == Decoded(s, i) && UnitAt(s, i, true).Put?
    ensures var r := UnitAt(s, i, true);
      exists j' :: j < j' <= |d| && d[j'..] == Decoded(s, r.next) && EncodedSolidi(s, r.next) == 0
        && NameFrom(d, j, false, out) == NameFrom(d, j', false, out + r.bytes)
  {
    hide Utf8.CharLength, Utf8.WellFormed, NameFrom;
    var r := UnitAt(s, i, true);
    var u := Unpercent(s, i);
    assert d[j] == d[j..][0];
    if s[i] == '%' as int && Utf8.CharLength(u, 0) > 1 {
      var n := Utf8.CharLength(u, 0);
      HighRun(u);
      DecodedRun(s, i, n);
      NoneEncoded(s, i, n);
      assert d[j..j + n] == d[j..][..n] == u[..n];
      assert forall m :: j <= m < j + n ==> d[m] == d[j..j + n][m - j];
      HighBytes(d, j, n, out);
      assert d[j + n..] == d[j..][n..];
    } else if s[i] == '%' as int {
      OneByte(s, i);
      ByteSame(s, i + 3, u[0], d, j, out);
    } else {
      ByteSame(s, i + 1, s[i], d, j, out);
    }
  }

  lemma OneByte(s: Text, i: nat)
    requires i < |s| && s[i] == '%' as int && UnitAt(s, i, true).Put? && Utf8.CharLength(Unpercent(s, i), 0) <= 1
    ensures var u := Unpercent(s, i);
      IsTriplet(s, i) && u != [] && u[0] == TripletValue(s, i) < 0x80 && UnitAt(s, i, true) == Unescape(s, i + 3, u[0])
  {
    hide Utf8.CharLength;
    NoCharInNothing();
    Utf8.CharBytes(Unpercent(s, i), 0);
  }

  lemma {:induction false} NoneEncoded(s: Text, i: nat, k: nat)
    requires i <= |s| && k <= |Unpercent(s, i)| && EncodedSolidi(s, i) == 0 && i + 3 * k <= |s|
    ensures EncodedSolidi(s, i + 3 * k) == 0
    decreases k
  {
    if k > 0 {
      NoneEncoded(s, i + 3, k - 1);
    }
  }

  /** A byte other than a solidus, `i` just behind it in `s`. */
  lemma ByteSame(s: Text, i: nat, c: Byte, d: Text, j: nat, out: Text)
    requires i <= |s| && c < 0x80 && c != SOLIDUS && EncodedSolidi(s, i) == 0 && Unescape(s, i, c).Put?
    requires j <= |d| && d[j..] == [c] + Decoded(s, i)
    ensures var r := Unescape(s, i, c);
      exists j' :: j < j' <= |d| && d[j'..] == Decoded(s, r.next) && EncodedSolidi(s, r.next) == 0
        && NameFrom(d, j, false, out) == NameFrom(d, j', false, out + r.bytes)
  {
    var r := Unescape(s, i, c);
    assert d[j] == d[j..][0] == c && d[j + 1..] == d[j..][1..] == Decoded(s, i);
    if c == TILDE {
      DigitBehind(s, i);
      assert d[j + 1] == d[j + 1..][0] == s[i] && d[j + 2..] == d[j + 1..][1..] == Decoded(s, i + 1);
      assert NameFrom(d, j, false, out) == NameFrom(d, j + 2, false, out + r.bytes);
    } else {
      assert NameFrom(d, j, false, out) == NameFrom(d, j + 1, false, out + r.bytes);
    }
  }

  lemma {:induction false} NameSame(s: Text, i: nat, d: Text, j: nat, out: Text) returns (j': nat)
    requires i <= |s| && Fine(s, i) && EncodedSolidi(s, i) == 0
    requires j <= |d| && d[j..] == Decoded(s, i)
    ensures var r := NameFrom(s, i, true, out);
      && r.Name? && NameFrom(d, j, false, out) == Name(j', r.name)
      && j' <= |d| && d[j'..] == Decoded(s, r.next) && Fine(s, r.next) && EncodedSolidi(s, r.next) == 0
    decreases |s| - i
  {
    hide Fine, UnitAt, EncodedSolidi;
    NameFine(s, i, out);
    if i == |s| || s[i] == SOLIDUS {
      j' := j;
      if i < |s| {
        SolidusFine(s, i);
        assert d[j] == d[j..][0] == SOLIDUS;
      }
    } else {
      UnitFine(s, i);
      UnitSame(s, i, d, j, out);
      var u := UnitAt(s, i, true);
      var k :| j < k <= |d| && d[k..] == Decoded(s, u.next) && EncodedSolidi(s, u.next) == 0
        && NameFrom(d, j, false, out) == NameFrom(d, k, false, out + u.bytes);
      j' := NameSame(s, u.next, d, k, out + u.bytes);
    }
  }

  lemma {:induction false} NamesSame(s: Text, i: nat, d: Text, j: nat, names: seq<Text>)
    requires i <= |s| && (i < |s| ==> s[i] == SOLIDUS) && Fine(s, i) && EncodedSolidi(s, i) == 0
    requires j <= |d| && d[j..] == Decoded(s, i)
    ensures j < |d| ==> d[j] == SOLIDUS
    ensures NamesFrom(s, i, true, names).Names? && NamesFrom(d, j, false, names) == NamesFrom(s, i, true, names)
    decreases |s| - i
  {
    hide Fine, NameFrom, EncodedSolidi;
    if i < |s| {
      SolidusFine(s, i);
      assert d[j] == d[j..][0] && d[j + 1..] == d[j..][1..] == Decoded(s, i + 1);
      NoneEncodedBehind(s, i);
      var j' := NameSame(s, i + 1, d, j + 1, []);
      var r := NameFrom(s, i + 1, true, []);
      NamesSame(s, r.next, d, j', names + [r.name]);
    }
  }

  lemma NoneEncodedBehind(s: Text, i: nat)
    requires i < |s| && s[i] == SOLIDUS
    ensures EncodedSolidi(s, i) == EncodedSolidi(s, i + 1)
  {
  }

  // ----- and otherwise fewer -----

  lemma {:induction false} NameKeepsSolidi(s: Text, i: nat, fragment: bool, out: Text)
    requires i <= |s| && NameFrom(s, i, fragment, out).Name?
    ensures Slashes(s, i) == Slashes(s, NameFrom(s, i, fragment, out).next)
    decreases |s| - i
  {
    hide UnitAt, Slashes;
    if i < |s| && s[i] != SOLIDUS {
      UnitSkips(s, i, fragment);
      var u := UnitAt(s, i, fragment);
      NameKeepsSolidi(s, u.next, fragment, out + u.bytes);
    }
  }

  /** A name for every solidus. */
  lemma {:induction false} NamesAreSolidi(s: Text, i: nat, fragment: bool, names: seq<Text>)
    requires i <= |s| && (i < |s| ==> s[i] == SOLIDUS) && NamesFrom(s, i, fragment, names).Names?
    ensures |NamesFrom(s, i, fragment, names).names| == |names| + Slashes(s, i)
    decreases |s| - i
  {
    hide NameFrom;
    if i < |s| {
      NameKeepsSolidi(s, i + 1, fragment, []);
      var r := NameFrom(s, i + 1, fragment, []);
      NamesAreSolidi(s, r.next, fragment, names + [r.name]);
    }
  }

  lemma {:induction false} SlashesBehind(a: Text, b: Text, j: nat)
    ensures Slashes(a + b, |a| + j) == Slashes(b, j)
    decreases if j < |b| then |b| - j else 0
  {
    if j < |b| {
      SlashesBehind(a, b, j + 1);
      assert (a + b)[|a| + j] == b[j];
    }
  }

  lemma SlashesHead(c: Byte, t: Text)
    ensures Slashes([c] + t, 0) == (if c == SOLIDUS then 1 else 0) + Slashes(t, 0)
  {
    SlashesBehind([c], t, 0);
    assert ([c] + t)[0] == c;
  }

  /** Decoding first brings the encoded solidi in addition. */
  lemma {:induction false} DecodedSolidi(s: Text, i: nat)
    requires i <= |s|
    ensures Slashes(Decoded(s, i), 0) == Slashes(s, i) + EncodedSolidi(s, i)
    decreases |s| - i
  {
    if i < |s| {
      if IsTriplet(s, i) {
        SlashesSkip(s, i, i + 3);
        SlashesHead(TripletValue(s, i), Decoded(s, i + 3));
        DecodedSolidi(s, i + 3);
      } else {
        SlashesHead(s[i], Decoded(s, i + 1));
        DecodedSolidi(s, i + 1);
      }
    }
  }

  /** An accepted fragment gives the names that section 6 of the RFC prescribes, those of its decoded text, exactly
      when no solidus in it is encoded: the code keeps such a solidus inside a name. */
  lemma FragmentLikeTheRfc(s: Text)
    requires IsFragment(s) && Parse(s).Names?
    ensures Parse(Decoded(s, 1)) == Parse(s) <==> EncodedSolidi(s, 1) == 0
  {
    hide Fine, EncodedSolidi, Decoded, Slashes;
    AcceptsFragments(s);
    var d := Decoded(s, 1);
    assert d[0..] == d;
    if 1 < |s| {
      SolidusFine(s, 1);
    }
    assert d == [] || d[0] == SOLIDUS;
    if EncodedSolidi(s, 1) == 0 {
      NamesSame(s, 1, d, 0, []);
    } else {
      DecodedSolidi(s, 1);
      NamesAreSolidi(s, 1, true, []);
      if Parse(d).Names? {
        NamesAreSolidi(d, 0, false, []);
      }
    }
  }

  const ENCODED_SOLIDUS: Text := ['#' as int, '/' as int, '%' as int, '2' as int, 'F' as int]

  /** The fragment of an encoded solidus gives one token, its decoded text two. */
  lemma EncodedSolidusStays()
    ensures Parse(ENCODED_SOLIDUS) == Names([[SOLIDUS]])
    ensures Decoded(ENCODED_SOLIDUS, 1) == [SOLIDUS, SOLIDUS] && Parse(Decoded(ENCODED_SOLIDUS, 1)) == Names([[], []])
  {
    var s := ENCODED_SOLIDUS;
    assert Unpercent(s, 5) == [] && Unpercent(s, 2) == [SOLIDUS];
    assert Utf8.CharLength([SOLIDUS], 0) == 1;
    assert UnitAt(s, 2, true) == Put(5, [SOLIDUS]);
    assert NameFrom(s, 5, true, [] + [SOLIDUS]) == Name(5, [SOLIDUS]);
    assert NameFrom(s, 2, true, []) == Name(5, [SOLIDUS]);
    assert NamesFrom(s, 5, true, [] + [[SOLIDUS]]) == Names([[SOLIDUS]]);
    assert Decoded(s, 5) == [] && Decoded(s, 2) == [SOLIDUS] && Decoded(s, 1) == [SOLIDUS, SOLIDUS];
    var d: Text := [SOLIDUS, SOLIDUS];
    assert NameFrom(d, 1, false, []) == Name(1, []) && NameFrom(d, 2, false, []) == Name(2, []);
    assert NamesFrom(d, 2, false, [] + [[]] + [[]]) == Names([[], []]);
    assert NamesFrom(d, 1, false, [] + [[]]) == Names([[], []]);
  }
}
