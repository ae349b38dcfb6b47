/** JSON Pointer text: `Parse` and `Stringify`, in the string and the URI fragment representation (RFC 6901). */
module Pointer {
  import opened Bytes
  import opened Numbers
  import StringWriting
  import Utf8

  datatype PointerError =
    | NoPointerError
    | TokenMustBeginWithSolidus
    | InvalidEscape
    | InvalidPercentEncoding
    | CharacterMustPercentEncode

  const TILDE: Byte := '~' as int
  const SOLIDUS: Byte := '/' as int

  /** `NeedPercentEncode`, negated: the unreserved characters of a URI. */
  predicate Unreserved(c: Byte) {
    || IsDigit(c)
    || 'A' as int <= c <= 'Z' as int
    || 'a' as int <= c <= 'z' as int
    || c == '-' as int || c == '.' as int || c == '_' as int || c == TILDE
  }

  // ----- parsing -----

  /** A `%XY` triplet stands at `i`. */
  predicate IsTriplet(s: Text, i: nat) {
    i + 3 <= |s| && s[i] == '%' as int && HexValue(s[i + 1]).Some? && HexValue(s[i + 2]).Some?
  }

  function TripletValue(s: Text, i: nat): (r: Byte)
    requires IsTriplet(s, i)
  {
    HexValue(s[i + 1]).value * 16 + HexValue(s[i + 2]).value
  }

  /** The bytes the triplets from `i` on stand for, up to the first byte that begins none. */
  function Unpercent(s: Text, i: nat): (u: Text)
    ensures i + 3 * |u| <= |s| || u == []
    decreases |s| - i
  {
    if IsTriplet(s, i) then [TripletValue(s, i)] + Unpercent(s, i + 3) else []
  }

  /** What one round of the name loop appends, and where it goes on. */
  datatype Unit = Put(next: nat, bytes: Text) | Stop(code: PointerError, offset: nat)

  /** A decoded byte, with `~0` and `~1` for a tilde and a solidus; `i` is just after the byte. */
  function Unescape(s: Text, i: nat, c: Byte): (r: Unit)
    requires i <= |s|
    ensures r.Put? ==> i <= r.next <= |s| && |r.bytes| == 1
    ensures r.Stop? ==> r.code == InvalidEscape
  {
    if c != TILDE then Put(i, [c])
    else if Peek(s, i) == '0' as int then Put(i + 1, [TILDE])
    else if Peek(s, i) == '1' as int then Put(i + 1, [SOLIDUS])
    else Stop(InvalidEscape, i)
  }

  function UnitAt(s: Text, i: nat, fragment: bool): (r: Unit)
    requires i < |s|
    ensures r.Put? ==> i < r.next <= |s| && |r.bytes| <= r.next - i
    ensures r.Stop? ==> r.code != NoPointerError
  {
    var c := s[i];
    if fragment && c == '%' as int then
      var u := Unpercent(s, i);
      var n := Utf8.CharLength(u, 0);
      if n == 0 then Stop(InvalidPercentEncoding, i)
      else if n == 1 then Unescape(s, i + 3, u[0])
      else Put(i + 3 * n, u[..n])
    else if fragment && !Unreserved(c) then Stop(CharacterMustPercentEncode, i)
    else Unescape(s, i + 1, c)
  }

  datatype NameResult = Name(next: nat, name: Text) | BadName(code: PointerError, offset: nat)

  /** A reference token from `i` on, `out` of it decoded before. */
  function NameFrom(s: Text, i: nat, fragment: bool, out: Text): (r: NameResult)
    requires i <= |s|
    ensures r.Name? ==> i <= r.next <= |s| && (r.next < |s| ==> s[r.next] == SOLIDUS)
    ensures r.BadName? ==> r.code != NoPointerError
    decreases |s| - i
  {
    if i == |s| || s[i] == SOLIDUS then Name(i, out)
    else match UnitAt(s, i, fragment)
      case Put(next, bytes) => NameFrom(s, next, fragment, out + bytes)
      case Stop(code, offset) => BadName(code, offset)
  }

  datatype Parsed = Names(names: seq<Text>) | Bad(code: PointerError, offset: nat)

  function NamesFrom(s: Text, i: nat, fragment: bool, names: seq<Text>): (r: Parsed)
    requires i <= |s| && (i < |s| ==> s[i] == SOLIDUS)
    ensures r.Bad? ==> r.code != NoPointerError
    decreases |s| - i
  {
    if i == |s| then Names(names)
    else match NameFrom(s, i + 1, fragment, [])
      case Name(next, name) => NamesFrom(s, next, fragment, names + [name])
      case BadName(code, offset) => Bad(code, offset)
  }

  predicate IsFragment(s: Text) { Peek(s, 0) == '#' as int }

  /** `Parse`: the decoded reference tokens, or the error code and offset. */
  function Parse(s: Text): (r: Parsed)
    ensures r.Bad? ==> r.code != NoPointerError
  {
    var i := if IsFragment(s) then 1 else 0;
    if i != |s| && Peek(s, i) != SOLIDUS then Bad(TokenMustBeginWithSolidus, i)
    else NamesFrom(s, i, IsFragment(s), [])
  }

  // ----- printing -----

  /** `PercentEncodeStream::Put`. */
  function Triplet(c: Byte): (w: Text)
    ensures |w| == 3
  {
    ['%' as int, HexDigit(c / 16), HexDigit(c % 16)]
  }

  function Percent(u: Text): (w: Text)
    ensures |w| == 3 * |u|
  {
    if u == [] then [] else Triplet(u[0]) + Percent(u[1..])
  }

  /** A name from `j` on; `None` where the transcoder fails. */
  function Escaped(fragment: bool, name: Text, j: nat): (r: Option<Text>)
    requires j <= |name|
    decreases |name| - j
  {
    if j == |name| then Some([])
    else if name[j] == TILDE then Before([TILDE, '0' as int], Escaped(fragment, name, j + 1))
    else if name[j] == SOLIDUS then Before([TILDE, '1' as int], Escaped(fragment, name, j + 1))
    else if fragment && !Unreserved(name[j]) then
      Utf8.ValidateIsGrammar(name, j);
      var v := Utf8.Validate(name, j);
      if !v.ok then None else Before(Percent(name[j..v.next]), Escaped(fragment, name, v.next))
    else Before([name[j]], Escaped(fragment, name, j + 1))
  }

  function Before(w: Text, rest: Option<Text>): (r: Option<Text>) {
    match rest case None => None case Some(t) => Some(w + t)
  }

  function PrintedNames(fragment: bool, names: seq<Text>): (r: Option<Text>) {
    if names == [] then Some([])
    else match Escaped(fragment, names[0], 0)
      case None => None
      case Some(w) => Before([SOLIDUS] + w, PrintedNames(fragment, names[1..]))
  }

  /** `Stringify`. */
  function Stringify(fragment: bool, names: seq<Text>): (r: Option<Text>) {
    if fragment then Before(['#' as int], PrintedNames(true, names)) else PrintedNames(false, names)
  }

  // ----- which texts are accepted -----

  /** RFC 6901, section 3: empty, or solidus-prefixed tokens in which each tilde begins an escape. */
  ghost predicate PointerGrammar(s: Text) {
    && (s == [] || s[0] == SOLIDUS)
    && forall k :: 0 <= k < |s| && s[k] == TILDE ==> Peek(s, k + 1) == '0' as int || Peek(s, k + 1) == '1' as int
  }

  lemma {:induction false} NameAccepted(s: Text, i: nat, out: Text)
    requires i <= |s|
    ensures var r := NameFrom(s, i, false, out);
      if r.Name? then forall k :: i <= k < r.next && s[k] == TILDE ==> Peek(s, k + 1) == '0' as int || Peek(s, k + 1) == '1' as int
      else exists k :: i <= k < |s| && s[k] == TILDE && Peek(s, k + 1) != '0' as int && Peek(s, k + 1) != '1' as int
    decreases |s| - i
  {
    if i < |s| && s[i] != SOLIDUS {
      var u := UnitAt(s, i, false);
      if u.Put? {
        NameAccepted(s, u.next, out + u.bytes);
      }
    }
  }

  lemma {:induction false} NamesAccepted(s: Text, i: nat, names: seq<Text>)
    requires i <= |s| && (i < |s| ==> s[i] == SOLIDUS)
    ensures NamesFrom(s, i, false, names).Names? <==>
      forall k :: i <= k < |s| && s[k] == TILDE ==> Peek(s, k + 1) == '0' as int || Peek(s, k + 1) == '1' as int
    decreases |s| - i
  {
    hide NameFrom;
    if i < |s| {
      NameAccepted(s, i + 1, []);
      var r := NameFrom(s, i + 1, false, []);
      if r.Name? {
        NamesAccepted(s, r.next, names + [r.name]);
      }
    }
  }

  /** A text that is no fragment is accepted exactly when it is a JSON Pointer of RFC 6901. */
  lemma AcceptsTheGrammar(s: Text)
    requires !IsFragment(s)
    ensures Parse(s).Names? <==> PointerGrammar(s)
  {
    if s == [] || s[0] == SOLIDUS {
      NamesAccepted(s, 0, []);
    }
  }

  // ----- text to tokens to text -----

  lemma {:induction false} NameKeeps(s: Text, i: nat, fragment: bool, out: Text)
    requires i <= |s| && NameFrom(s, i, fragment, out).Name?
    ensures out <= NameFrom(s, i, fragment, out).name
    decreases |s| - i
  {
    hide UnitAt;
    if i < |s| && s[i] != SOLIDUS {
      var u := UnitAt(s, i, fragment);
      NameKeeps(s, u.next, fragment, out + u.bytes);
    }
  }

  lemma {:induction false} NamePrints(s: Text, i: nat, out: Text)
    requires i <= |s| && NameFrom(s, i, false, out).Name?
    ensures var r := NameFrom(s, i, false, out);
      |out| <= |r.name| && Escaped(false, r.name, |out|) == Some(s[i..r.next])
    decreases |s| - i
  {
    var r := NameFrom(s, i, false, out);
    NameKeeps(s, i, false, out);
    if i < |s| && s[i] != SOLIDUS {
      var u := UnitAt(s, i, false);
      NamePrints(s, u.next, out + u.bytes);
      NameKeeps(s, u.next, false, out + u.bytes);
      assert r.name[|out|] == u.bytes[0];
      assert s[i..r.next] == s[i..u.next] + s[u.next..r.next];
      if s[i] == TILDE {
        assert s[i..u.next] == [TILDE, s[i + 1]];
      } else {
        assert s[i..u.next] == [s[i]];
      }
    } else {
      assert s[i..r.next] == [];
    }
  }

  lemma {:induction false} NamesKeep(s: Text, i: nat, fragment: bool, names: seq<Text>)
    requires i <= |s| && (i < |s| ==> s[i] == SOLIDUS) && NamesFrom(s, i, fragment, names).Names?
    ensures names <= NamesFrom(s, i, fragment, names).names
    decreases |s| - i
  {
    hide NameFrom;
    if i < |s| {
      var r := NameFrom(s, i + 1, fragment, []);
      NamesKeep(s, r.next, fragment, names + [r.name]);
    }
  }

  lemma {:induction false} NamesPrint(s: Text, i: nat, names: seq<Text>)
    requires i <= |s| && (i < |s| ==> s[i] == SOLIDUS) && NamesFrom(s, i, false, names).Names?
    ensures var all := NamesFrom(s, i, false, names).names;
      |names| <= |all| && PrintedNames(false, all[|names|..]) == Some(s[i..])
    decreases |s| - i
  {
    hide NameFrom, Escaped;
    NamesKeep(s, i, false, names);
    if i < |s| {
      var r := NameFrom(s, i + 1, false, []);
      var all := NamesFrom(s, i, false, names).names;
      NamePrints(s, i + 1, []);
      NamesPrint(s, r.next, names + [r.name]);
      NamesKeep(s, r.next, false, names + [r.name]);
      assert all[|names|..][0] == r.name && all[|names|..][1..] == all[|names + [r.name]|..];
      assert s[i..] == [SOLIDUS] + s[i + 1..r.next] + s[r.next..];
    }
  }

  /** Every accepted pointer text, fragments aside, is printed back unchanged. */
  lemma StringifyParse(s: Text)
    requires !IsFragment(s) && Parse(s).Names?
    ensures Stringify(false, Parse(s).names) == Some(s)
  {
    hide NamesFrom, PrintedNames;
    NamesPrint(s, 0, []);
    var all := Parse(s).names;
    assert all[0..] == all && s[0..] == s;
  }

  // ----- tokens to text to tokens -----

  lemma TripletReads(t: Text, i: nat, c: Byte)
    requires At(t, i, Triplet(c))
    ensures IsTriplet(t, i) && TripletValue(t, i) == c
  {
    var w := Triplet(c);
    Utf8.BytesAt(t, i, w);
    assert t[i + 0] == w[0] && t[i + 1] == w[1] && t[i + 2] == w[2];
    HexDigitValue(c / 16);
    HexDigitValue(c % 16);
  }

  lemma {:induction false} PercentReads(t: Text, i: nat, u: Text)
    requires At(t, i, Percent(u))
    ensures u <= Unpercent(t, i)
    decreases |u|
  {
    if u != [] {
      AtSplit(t, i, Triplet(u[0]), Percent(u[1..]));
      TripletReads(t, i, u[0]);
      PercentReads(t, i + 3, u[1..]);
      assert u == [u[0]] + u[1..];
    }
  }

  /** One UTF8-char behind percent signs is read as a unit. */
  lemma PercentUnit(name: Text, j: nat, t: Text, i: nat)
    requires j < |name| && Utf8.CharLength(name, j) > 0 && name[j] != TILDE && name[j] != SOLIDUS
    requires At(t, i, Percent(name[j..j + Utf8.CharLength(name, j)]))
    ensures i < |t| && UnitAt(t, i, true) == Put(i + 3 * Utf8.CharLength(name, j), name[j..j + Utf8.CharLength(name, j)])
    ensures t[i] != SOLIDUS
  {
    hide Percent;
    var n := Utf8.CharLength(name, j);
    var ch := name[j..j + n];
    PercentReads(t, i, ch);
    var u := Unpercent(t, i);
    assert u[..n] == ch;
    assert At(u, 0, ch) by { assert u[0..0 + n] == ch; }
    StringWriting.CharLengthIsLocal(name, j, u, 0);
    assert IsTriplet(t, i);
    if n == 1 {
      assert u[0] == name[j];
    }
  }

  /** What a byte that needs no percent sign is printed as. */
  function Plainly(c: Byte): (w: Text) {
    if c == TILDE then [TILDE, '0' as int] else if c == SOLIDUS then [TILDE, '1' as int] else [c]
  }

  lemma PlainUnit(fragment: bool, c: Byte, t: Text, i: nat)
    requires At(t, i, Plainly(c)) && (fragment ==> Unreserved(c) || c == SOLIDUS)
    ensures i < |t| && UnitAt(t, i, fragment) == Put(i + |Plainly(c)|, [c]) && t[i] != SOLIDUS
  {
    hide Unpercent;
    AtByte(t, i, Plainly(c), 0);
    if |Plainly(c)| == 2 {
      AtByte(t, i, Plainly(c), 1);
    }
  }

  lemma EscapedStep(fragment: bool, name: Text, j: nat)
    requires j < |name| && Escaped(fragment, name, j).Some?
    ensures if fragment && !Unreserved(name[j]) && name[j] != SOLIDUS then
              var n := Utf8.CharLength(name, j);
              && n > 0 && name[j] != TILDE && Escaped(fragment, name, j + n).Some?
              && Escaped(fragment, name, j).value == Percent(name[j..j + n]) + Escaped(fragment, name, j + n).value
            else
              && Escaped(fragment, name, j + 1).Some?
              && Escaped(fragment, name, j).value == Plainly(name[j]) + Escaped(fragment, name, j + 1).value
  {
    hide Utf8.Validate, Percent, Utf8.CharLength;
    Utf8.ValidateIsGrammar(name, j);
  }

  lemma NameStep(s: Text, i: nat, fragment: bool, out: Text)
    requires i < |s| && s[i] != SOLIDUS && UnitAt(s, i, fragment).Put?
    ensures var u := UnitAt(s, i, fragment); NameFrom(s, i, fragment, out) == NameFrom(s, u.next, fragment, out + u.bytes)
  {
    hide UnitAt;
  }

  /** The step both kinds of unit take. */
  lemma UnitReads(fragment: bool, name: Text, j: nat, t: Text, i: nat) returns (n: nat, w: Text)
    requires j < |name| && Escaped(fragment, name, j).Some? && At(t, i, Escaped(fragment, name, j).value)
    ensures n > 0 && j + n <= |name| && Escaped(fragment, name, j + n).Some?
    ensures Escaped(fragment, name, j).value == w + Escaped(fragment, name, j + n).value
    ensures i < |t| && t[i] != SOLIDUS && UnitAt(t, i, fragment) == Put(i + |w|, name[j..j + n])
    ensures At(t, i + |w|, Escaped(fragment, name, j + n).value)
  {
    hide Utf8.Validate, Percent, Unpercent, Utf8.CharLength, UnitAt, At, Plainly, Unreserved, Escaped;
    EscapedStep(fragment, name, j);
    var percent := fragment && !Unreserved(name[j]) && name[j] != SOLIDUS;
    n := if percent then Utf8.CharLength(name, j) else 1;
    w := if percent then Percent(name[j..j + n]) else Plainly(name[j]);
    AtSplit(t, i, w, Escaped(fragment, name, j + n).value);
    if percent {
      PercentUnit(name, j, t, i);
    } else {
      PlainUnit(fragment, name[j], t, i);
      assert name[j..j + 1] == [name[j]];
    }
  }

  lemma {:induction false} NameReads(fragment: bool, name: Text, j: nat, t: Text, i: nat, out: Text)
    requires j <= |name| && Escaped(fragment, name, j).Some? && At(t, i, Escaped(fragment, name, j).value)
    requires var end := i + |Escaped(fragment, name, j).value|; end == |t| || t[end] == SOLIDUS
    ensures i <= |t|
    ensures NameFrom(t, i, fragment, out) == Name(i + |Escaped(fragment, name, j).value|, out + name[j..])
    decreases |name| - j
  {
    hide UnitAt;
    if j == |name| {
      assert out + name[j..] == out;
    } else {
      hide Escaped, NameFrom, At;
      var n, w := UnitReads(fragment, name, j, t, i);
      NameStep(t, i, fragment, out);
      NameReads(fragment, name, j + n, t, i + |w|, out + name[j..j + n]);
      assert out + name[j..j + n] + name[j + n..] == out + name[j..];
    }
  }

  lemma PrintedNamesHead(fragment: bool, names: seq<Text>)
    requires PrintedNames(fragment, names).Some?
    ensures var w := PrintedNames(fragment, names).value; w != [] ==> w[0] == SOLIDUS
    ensures names == [] <==> PrintedNames(fragment, names).value == []
  {
    hide Escaped;
  }

  lemma SplitBehindSolidus(t: Text, i: nat, w: Text, rest: Text)
    requires i <= |t| && t[i..] == [SOLIDUS] + w + rest
    ensures var next := i + 1 + |w|;
      && next <= |t| && t[i] == SOLIDUS && At(t, i + 1, w) && t[next..] == rest && (next < |t| ==> t[next] == rest[0])
  {
    var all := [SOLIDUS] + w + rest;
    var next := i + 1 + |w|;
    assert forall k :: 0 <= k < |all| ==> t[i + k] == t[i..][k] == all[k];
    assert t[i + 1..next] == w;
    assert t[next..] == rest;
  }

  lemma PrintedHead(fragment: bool, names: seq<Text>)
    requires names != [] && PrintedNames(fragment, names).Some?
    ensures Escaped(fragment, names[0], 0).Some? && PrintedNames(fragment, names[1..]).Some?
    ensures PrintedNames(fragment, names).value
         == [SOLIDUS] + Escaped(fragment, names[0], 0).value + PrintedNames(fragment, names[1..]).value
  {
    hide Escaped;
  }

  lemma NamesStep(t: Text, i: nat, fragment: bool, before: seq<Text>)
    requires i < |t| && t[i] == SOLIDUS && NameFrom(t, i + 1, fragment, []).Name?
    ensures var r := NameFrom(t, i + 1, fragment, []);
      NamesFrom(t, i, fragment, before) == NamesFrom(t, r.next, fragment, before + [r.name])
  {
    hide NameFrom;
  }

  lemma {:induction false} NamesRead(fragment: bool, names: seq<Text>, t: Text, i: nat, before: seq<Text>)
    requires i <= |t| && PrintedNames(fragment, names) == Some(t[i..])
    ensures i < |t| ==> t[i] == SOLIDUS
    ensures NamesFrom(t, i, fragment, before) == Names(before + names)
    decreases |names|
  {
    hide Escaped, NameFrom, NamesFrom, PrintedNames, At;
    PrintedNamesHead(fragment, names);
    if names == [] {
      assert before + names == before;
      NoMoreNames(t, fragment, before);
    } else {
      PrintedHead(fragment, names);
      var w, rest := Escaped(fragment, names[0], 0).value, PrintedNames(fragment, names[1..]).value;
      PrintedNamesHead(fragment, names[1..]);
      var next := i + 1 + |w|;
      SplitBehindSolidus(t, i, w, rest);
      NameReads(fragment, names[0], 0, t, i + 1, []);
      assert [] + names[0][0..] == names[0];
      NamesStep(t, i, fragment, before);
      NamesRead(fragment, names[1..], t, next, before + [names[0]]);
      assert before + [names[0]] + names[1..] == before + names;
    }
  }

  lemma NoMoreNames(t: Text, fragment: bool, names: seq<Text>)
    ensures NamesFrom(t, |t|, fragment, names) == Names(names)
  {
  }

  /** Whatever `Stringify` prints, in either representation, parses back to the same reference tokens. */
  lemma ParseStringify(fragment: bool, names: seq<Text>)
    requires Stringify(fragment, names).Some?
    ensures Parse(Stringify(fragment, names).value) == Names(names)
  {
    hide PrintedNames, NamesFrom;
    var t := Stringify(fragment, names).value;
    var i := if fragment then 1 else 0;
    assert PrintedNames(fragment, names) == Some(t[i..]);
    PrintedNamesHead(fragment, names);
    NamesRead(fragment, names, t, i, []);
    assert [] + names == names;
  }

  // ----- when printing succeeds -----

  lemma {:induction false} EscapedSucceeds(fragment: bool, name: Text, j: nat)
    requires j <= |name|
    ensures Escaped(fragment, name, j).Some? <==> !fragment || Utf8.WellFormed(name, j)
    decreases |name| - j
  {
    if j < |name| {
      Utf8.ValidateIsGrammar(name, j);
      if fragment && !Unreserved(name[j]) && name[j] != SOLIDUS {
        var n := Utf8.CharLength(name, j);
        if n > 0 {
          EscapedSucceeds(fragment, name, j + n);
        }
      } else {
        assert Utf8.CharLength(name, j) == 1 || !fragment;
        EscapedSucceeds(fragment, name, j + 1);
      }
    }
  }

  /** `Stringify` always succeeds; `StringifyUriFragment` does exactly when every name is well-formed UTF-8. */
  lemma {:induction false} StringifySucceeds(fragment: bool, names: seq<Text>)
    ensures PrintedNames(fragment, names).Some? <==> !fragment || forall name :: name in names ==> Utf8.WellFormed(name, 0)
    ensures Stringify(fragment, names).Some? <==> !fragment || forall name :: name in names ==> Utf8.WellFormed(name, 0)
    decreases |names|
  {
    hide Escaped, Utf8.WellFormed;
    if names != [] {
      EscapedSucceeds(fragment, names[0], 0);
      StringifySucceeds(fragment, names[1..]);
      assert names == [names[0]] + names[1..];
    }
  }

  // ----- what the tokens of an accepted text are -----

  /** RFC 6901, section 4: behind a tilde, 0 stands for the tilde and 1 for a solidus. */
  function Untilde(w: Text): (name: Text) {
    if w == [] then []
    else if w[0] == 0x7E && |w| > 1 then [if w[1] == 0x30 then 0x7E else 0x2F] + Untilde(w[2..])
    else [w[0]] + Untilde(w[1..])
  }

  /** The segments, each behind its solidus. */
  function Joined(segments: seq<Text>): (s: Text) {
    if segments == [] then [] else [0x2F] + segments[0] + Joined(segments[1..])
  }

  lemma {:induction false} SegmentIsName(s: Text, i: nat, out: Text)
    requires i <= |s| && NameFrom(s, i, false, out).Name?
    ensures var r := NameFrom(s, i, false, out);
      && i <= r.next <= |s| && (r.next < |s| ==> s[r.next] == 0x2F) && 0x2F !in s[i..r.next]
      && r.name == out + Untilde(s[i..r.next])
    decreases |s| - i
  {
    hide UnitAt, Untilde;
    var r := NameFrom(s, i, false, out);
    if i < |s| && s[i] != SOLIDUS {
      var u := UnitAt(s, i, false);
      SegmentIsName(s, u.next, out + u.bytes);
      UnitUntildes(s, i, r.next);
      assert out + u.bytes + Untilde(s[u.next..r.next]) == out + (u.bytes + Untilde(s[u.next..r.next]));
    } else {
      assert out + Untilde(s[i..i]) == out by { NothingUntilded(s[i..i]); }
    }
  }

  lemma NothingUntilded(w: Text)
    requires |w| == 0
    ensures Untilde(w) == []
  {
  }

  /** One unit of a segment that ends at `e`. */
  lemma UnitUntildes(s: Text, i: nat, e: nat)
    requires i < e <= |s| && s[i] != SOLIDUS && UnitAt(s, i, false).Put? && UnitAt(s, i, false).next <= e
    ensures var u := UnitAt(s, i, false);
      && Untilde(s[i..e]) == u.bytes + Untilde(s[u.next..e]) && (0x2F in s[i..e] ==> 0x2F in s[u.next..e])
  {
    var u, w := UnitAt(s, i, false), s[i..e];
    assert w[0] == s[i];
    if s[i] == TILDE {
      assert w[1] == s[i + 1] && w[2..] == s[i + 2..e];
      assert w == [s[i], s[i + 1]] + s[i + 2..e];
    } else {
      assert w[1..] == s[i + 1..e];
      assert w == [s[i]] + s[i + 1..e];
    }
  }

  /** The tokens of an accepted text that is no fragment are its segments between solidi, unescaped. */
  lemma {:induction false} NamesAreSegments(s: Text, i: nat, names: seq<Text>) returns (segments: seq<Text>)
    requires i <= |s| && (i < |s| ==> s[i] == SOLIDUS) && NamesFrom(s, i, false, names).Names?
    ensures s[i..] == Joined(segments) && forall k :: 0 <= k < |segments| ==> 0x2F !in segments[k]
    ensures var all := NamesFrom(s, i, false, names).names;
      |all| == |names| + |segments| && all[..|names|] == names
      && forall k :: 0 <= k < |segments| ==> all[|names| + k] == Untilde(segments[k])
    decreases |s| - i
  {
    hide NameFrom, Untilde;
    segments := [];
    if i < |s| {
      SegmentIsName(s, i + 1, []);
      var r := NameFrom(s, i + 1, false, []);
      var w := s[i + 1..r.next];
      assert [] + Untilde(w) == Untilde(w);
      var rest := NamesAreSegments(s, r.next, names + [r.name]);
      segments := [w] + rest;
      assert segments[1..] == rest;
      assert s[i..] == [s[i]] + w + s[r.next..];
      var all := NamesFrom(s, i, false, names).names;
      assert all[..|names|] == all[..|names| + 1][..|names|] == names && all[|names|] == all[..|names| + 1][|names|];
      forall k | 0 <= k < |segments| ensures all[|names| + k] == Untilde(segments[k]) && 0x2F !in segments[k] {
        if k > 0 {
          assert segments[k] == rest[k - 1];
        }
      }
    }
  }

  lemma TokensAreSegments(s: Text) returns (segments: seq<Text>)
    requires !IsFragment(s) && Parse(s).Names?
    ensures s == Joined(segments) && |Parse(s).names| == |segments|
    ensures forall k :: 0 <= k < |segments| ==> 0x2F !in segments[k] && Parse(s).names[k] == Untilde(segments[k])
  {
    segments := NamesAreSegments(s, 0, []);
    assert s[0..] == s;
  }
}
