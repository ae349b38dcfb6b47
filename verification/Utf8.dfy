/** UTF-8 and UTF-16 code units: the DFA-table codec of encodings.h against the grammar of section 4 of
    RFC 3629 and the surrogate arithmetic of sections 2.1 and 2.2 of RFC 2781. */
module Utf8 {
  import opened Bytes

  /** Unicode scalar values: everything but the surrogates. */
  predicate IsScalar(cp: nat) {
    cp <= 0xD7FF || 0xE000 <= cp <= 0x10FFFF
  }

  type Scalar = cp: nat | IsScalar(cp)

  // ----- the codec of encodings.h -----

  /** `UTF8::GetRange`, the 256-entry character-class table written as its runs. */
  function GetRange(c: Byte): (r: bv8) {
    if c < 0x80 then 0
    else if c < 0x90 then 0x10
    else if c < 0xA0 then 0x40
    else if c < 0xC0 then 0x20
    else if c < 0xC2 then 8
    else if c < 0xE0 then 2
    else if c == 0xE0 then 10
    else if c < 0xED then 3
    else if c == 0xED then 4
    else if c < 0xF0 then 3
    else if c == 0xF0 then 11
    else if c < 0xF4 then 6
    else if c == 0xF4 then 5
    else 8
  }

  /** `RAPIDJSON_TRANS(mask)`: does the byte belong to one of the masked classes? */
  predicate Hits(c: Byte, mask: bv8) {
    GetRange(c) & mask != 0
  }

  /** The masks tested after a lead byte of the given class, in order; empty for a class that is no lead byte. */
  function TailMasks(lead: bv8): (r: seq<bv8>) {
    if lead == 2 then [0x70]
    else if lead == 3 then [0x70, 0x70]
    else if lead == 4 then [0x50, 0x70]
    else if lead == 5 then [0x10, 0x70, 0x70]
    else if lead == 6 then [0x70, 0x70, 0x70]
    else if lead == 10 then [0x20, 0x70]
    else if lead == 11 then [0x60, 0x70, 0x70]
    else []
  }

  /** Outcome of taking one code point from a stream. */
  datatype Taken = Taken(ok: bool, next: nat, codepoint: nat)

  /** `UTF8::Validate`: the guarded copies stop taking once a NUL was taken, and the mask tests go on. */
  function ValidateTail(s: Text, i: nat, c: Byte, masks: seq<bv8>, ok: bool): (r: Taken)
    ensures r.next >= i
    decreases |masks|
  {
    if masks == [] then Taken(ok, i, 0)
    else
      var d := if c != 0 then Peek(s, i) else c;
      ValidateTail(s, if c != 0 then i + 1 else i, d, masks[1..], ok && Hits(d, masks[0]))
  }

  function Validate(s: Text, i: nat): (r: Taken)
    ensures r.next > i
  {
    var c := Peek(s, i);
    if c < 0x80 then Taken(true, i + 1, 0)
    else
      var masks := TailMasks(GetRange(c));
      if masks == [] then Taken(false, i + 1, 0)
      else ValidateTail(s, i + 1, c, masks, true)
  }

  /** `(0xFF >> type) & c`. */
  function LeadBits(c: Byte): (r: nat) {
    var t := GetRange(c);
    if t == 2 then c % 64
    else if t == 3 then c % 32
    else if t == 4 then c % 16
    else if t == 5 then c % 8
    else if t == 6 then c % 4
    else 0
  }

  /** `RAPIDJSON_COPY` then `RAPIDJSON_TRANS` for each mask; takes are not guarded here. */
  function DecodeTail(s: Text, i: nat, cp: nat, masks: seq<bv8>, ok: bool): (r: Taken)
    ensures r.next >= i
    decreases |masks|
  {
    if masks == [] then Taken(ok, i, cp)
    else
      var d := Peek(s, i);
      DecodeTail(s, i + 1, cp * 64 + d % 64, masks[1..], ok && Hits(d, masks[0]))
  }

  function Decode(s: Text, i: nat): (r: Taken)
    ensures r.next > i
  {
    var c := Peek(s, i);
    if c < 0x80 then Taken(true, i + 1, c)
    else
      var masks := TailMasks(GetRange(c));
      if masks == [] then Taken(false, i + 1, LeadBits(c))
      else DecodeTail(s, i + 1, LeadBits(c), masks, true)
  }

  /** `UTF8::Encode`; the asserted bound on the code point is the precondition. */
  function Encode(cp: nat): (w: Text)
    requires cp <= 0x10FFFF
    ensures 1 <= |w| <= 4 && (cp <= 0xFFFF ==> |w| <= 3)
  {
    if cp <= 0x7F then [cp]
    else if cp <= 0x7FF then [0xC0 + cp / 64, 0x80 + cp % 64]
    else if cp <= 0xFFFF then [0xE0 + cp / 4096, 0x80 + cp / 64 % 64, 0x80 + cp % 64]
    else [0xF0 + cp / 262144, 0x80 + cp / 4096 % 64, 0x80 + cp / 64 % 64, 0x80 + cp % 64]
  }

  // ----- the grammar of section 4 of RFC 3629 -----

  predicate Tail(c: Byte) { 0x80 <= c <= 0xBF }

  /** Length of the UTF8-char starting at `i`, 0 when none does. */
  function CharLength(s: Text, i: nat): (n: nat)
    ensures n > 0 ==> i + n <= |s|
  {
    var a, b, c, d := Peek(s, i), Peek(s, i + 1), Peek(s, i + 2), Peek(s, i + 3);
    if i >= |s| then 0
    else if a <= 0x7F then 1
    else if 0xC2 <= a <= 0xDF && Tail(b) then 2
    else if a == 0xE0 && 0xA0 <= b <= 0xBF && Tail(c) then 3
    else if 0xE1 <= a <= 0xEC && Tail(b) && Tail(c) then 3
    else if a == 0xED && 0x80 <= b <= 0x9F && Tail(c) then 3
    else if 0xEE <= a <= 0xEF && Tail(b) && Tail(c) then 3
    else if a == 0xF0 && 0x90 <= b <= 0xBF && Tail(c) && Tail(d) then 4
    else if 0xF1 <= a <= 0xF3 && Tail(b) && Tail(c) && Tail(d) then 4
    else if a == 0xF4 && 0x80 <= b <= 0x8F && Tail(c) && Tail(d) then 4
    else 0
  }

  /** `s[i..]` is a sequence of UTF8-chars. */
  predicate WellFormed(s: Text, i: nat)
    decreases |s| - i
  {
    i >= |s| || (CharLength(s, i) > 0 && WellFormed(s, i + CharLength(s, i)))
  }

  // ----- one code point -----

  lemma HitsTail(c: Byte)
    ensures Hits(c, 0x70) <==> Tail(c)
    ensures Hits(c, 0x50) <==> 0x80 <= c <= 0x9F
    ensures Hits(c, 0x10) <==> 0x80 <= c <= 0x8F
    ensures Hits(c, 0x20) <==> 0xA0 <= c <= 0xBF
    ensures Hits(c, 0x60) <==> 0x90 <= c <= 0xBF
  {
    var r := GetRange(c);
    assert r == 0 || r == 0x10 || r == 0x40 || r == 0x20 || r == 8 || r == 2 || r == 3 || r == 4 || r == 5
        || r == 6 || r == 10 || r == 11;
  }

  lemma NulHitsNothing(mask: bv8)
    ensures !Hits(0, mask)
  {
  }

  /** A run of masks is passed exactly when each byte passes its own. */
  ghost predicate Pass(s: Text, i: nat, masks: seq<bv8>)
    decreases |masks|
  {
    masks == [] || (Hits(Peek(s, i), masks[0]) && Pass(s, i + 1, masks[1..]))
  }

  ghost predicate MultiByte(masks: seq<bv8>) {
    forall k :: 0 <= k < |masks| ==> forall c: Byte :: Hits(c, masks[k]) ==> c >= 0x80
  }

  lemma {:induction false} ValidateTailPasses(s: Text, i: nat, c: Byte, masks: seq<bv8>, ok: bool)
    requires MultiByte(masks)
    requires c == 0 ==> !ok
    ensures ValidateTail(s, i, c, masks, ok).ok <==> ok && Pass(s, i, masks)
    ensures ValidateTail(s, i, c, masks, ok).ok ==> ValidateTail(s, i, c, masks, ok).next == i + |masks|
    decreases |masks|
  {
    if masks != [] {
      var d := if c != 0 then Peek(s, i) else c;
      assert MultiByte(masks[1..]) by {
        assert forall k :: 0 <= k < |masks| - 1 ==> masks[1..][k] == masks[k + 1];
      }
      ValidateTailPasses(s, if c != 0 then i + 1 else i, d, masks[1..], ok && Hits(d, masks[0]));
    }
  }

  lemma {:induction false} DecodeTailPasses(s: Text, i: nat, cp: nat, masks: seq<bv8>, ok: bool)
    ensures DecodeTail(s, i, cp, masks, ok).ok <==> ok && Pass(s, i, masks)
    ensures DecodeTail(s, i, cp, masks, ok).next == i + |masks|
    decreases |masks|
  {
    if masks != [] {
      DecodeTailPasses(s, i + 1, cp * 64 + Peek(s, i) % 64, masks[1..], ok && Hits(Peek(s, i), masks[0]));
    }
  }

  lemma LeadMasks(c: Byte)
    ensures var m := TailMasks(GetRange(c));
      if 0xC2 <= c <= 0xDF then m == [0x70]
      else if c == 0xE0 then m == [0x20, 0x70]
      else if c == 0xED then m == [0x50, 0x70]
      else if 0xE1 <= c <= 0xEF then m == [0x70, 0x70]
      else if c == 0xF0 then m == [0x60, 0x70, 0x70]
      else if c == 0xF4 then m == [0x10, 0x70, 0x70]
      else if 0xF1 <= c <= 0xF3 then m == [0x70, 0x70, 0x70]
      else m == []
    ensures MultiByte(TailMasks(GetRange(c)))
  {
    forall d: Byte, m: bv8 | Hits(d, m) && m in [0x70, 0x20, 0x50, 0x60, 0x10]
      ensures d >= 0x80
    {
      HitsTail(d);
    }
  }

  lemma PassTail(s: Text, i: nat)
    ensures var c := Peek(s, i);
      c >= 0x80 ==> (TailMasks(GetRange(c)) != [] && Pass(s, i + 1, TailMasks(GetRange(c))) <==> CharLength(s, i) > 0)
    ensures Peek(s, i) >= 0x80 && CharLength(s, i) > 0 ==> CharLength(s, i) == 1 + |TailMasks(GetRange(Peek(s, i)))|
  {
    var c := Peek(s, i);
    LeadMasks(c);
    HitsTail(Peek(s, i + 1));
    HitsTail(Peek(s, i + 2));
    HitsTail(Peek(s, i + 3));
    var m := TailMasks(GetRange(c));
    if |m| >= 1 {
      assert Pass(s, i + 1, m) <==> Hits(Peek(s, i + 1), m[0]) && Pass(s, i + 2, m[1..]);
    }
    if |m| >= 2 {
      assert Pass(s, i + 2, m[1..]) <==> Hits(Peek(s, i + 2), m[1]) && Pass(s, i + 3, m[2..]) by {
        assert m[1..][1..] == m[2..];
      }
    }
    if |m| >= 3 {
      assert Pass(s, i + 3, m[2..]) <==> Hits(Peek(s, i + 3), m[2]) && Pass(s, i + 4, m[3..]) by {
        assert m[2..][1..] == m[3..];
      }
    }
  }

  /** The table-driven validator accepts exactly the UTF8-chars of RFC 3629 and takes exactly their bytes. */
  lemma ValidateIsGrammar(s: Text, i: nat)
    requires i < |s|
    ensures Validate(s, i).ok <==> CharLength(s, i) > 0
    ensures Validate(s, i).ok ==> Validate(s, i).next == i + CharLength(s, i) <= |s|
  {
    var c := Peek(s, i);
    LeadMasks(c);
    PassTail(s, i);
    if c >= 0x80 && TailMasks(GetRange(c)) != [] {
      ValidateTailPasses(s, i + 1, c, TailMasks(GetRange(c)), true);
    }
  }

  /** The decoder accepts the same characters as the grammar. */
  lemma DecodeIsGrammar(s: Text, i: nat)
    requires i < |s|
    ensures Decode(s, i).ok <==> CharLength(s, i) > 0
    ensures Decode(s, i).ok ==> Decode(s, i).next == i + CharLength(s, i) <= |s|
  {
    var c := Peek(s, i);
    LeadMasks(c);
    PassTail(s, i);
    if c >= 0x80 && TailMasks(GetRange(c)) != [] {
      DecodeTailPasses(s, i + 1, LeadBits(c), TailMasks(GetRange(c)), true);
    }
  }

  /** Base-64 digits: what the shifts and masks of the codec pick out. */
  lemma SixBitFields(x: nat, y: nat, z: nat, w: nat)
    requires y < 64 && z < 64 && w < 64
    ensures var cp := x * 262144 + y * 4096 + z * 64 + w;
      cp % 64 == w && cp / 64 == x * 4096 + y * 64 + z && cp / 64 % 64 == z
      && cp / 4096 == x * 64 + y && cp / 4096 % 64 == y && cp / 262144 == x
  {
    var cp := x * 262144 + y * 4096 + z * 64 + w;
    assert cp / 64 == x * 4096 + y * 64 + z;
    assert cp / 4096 == x * 64 + y;
  }

  /** The value the tail loop accumulates, in closed form. */
  lemma UnrollTail(s: Text, i: nat, cp: nat, masks: seq<bv8>, ok: bool)
    requires 1 <= |masks| <= 3
    ensures var b, c, d := Peek(s, i) % 64, Peek(s, i + 1) % 64, Peek(s, i + 2) % 64;
      DecodeTail(s, i, cp, masks, ok).codepoint
        == if |masks| == 1 then cp * 64 + b
           else if |masks| == 2 then (cp * 64 + b) * 64 + c
           else ((cp * 64 + b) * 64 + c) * 64 + d
  {
    var b, c := Peek(s, i) % 64, Peek(s, i + 1) % 64;
    var cp1 := cp * 64 + b;
    var ok1 := ok && Hits(Peek(s, i), masks[0]);
    assert DecodeTail(s, i, cp, masks, ok) == DecodeTail(s, i + 1, cp1, masks[1..], ok1);
    if |masks| > 1 {
      var cp2 := cp1 * 64 + c;
      var ok2 := ok1 && Hits(Peek(s, i + 1), masks[1..][0]);
      assert DecodeTail(s, i + 1, cp1, masks[1..], ok1) == DecodeTail(s, i + 2, cp2, masks[1..][1..], ok2);
    }
  }

  lemma LeadBitsValue(c: Byte)
    ensures 0xC2 <= c <= 0xDF ==> LeadBits(c) == c - 0xC0
    ensures 0xE0 <= c <= 0xEF ==> LeadBits(c) == c - 0xE0
    ensures 0xF0 <= c <= 0xF4 ==> LeadBits(c) == c - 0xF0
  {
  }

  /** The decoded value as a function of the bytes of a UTF8-char. */
  ghost function CharValue(n: nat, a: Byte, b: Byte, c: Byte, d: Byte): (r: int) {
    if n <= 1 then a
    else if n == 2 then (a - 0xC0) * 64 + (b - 0x80)
    else if n == 3 then (a - 0xE0) * 4096 + (b - 0x80) * 64 + (c - 0x80)
    else (a - 0xF0) * 262144 + (b - 0x80) * 4096 + (c - 0x80) * 64 + (d - 0x80)
  }

  lemma CharBytes(s: Text, i: nat)
    requires CharLength(s, i) > 0
    ensures var n := CharLength(s, i);
      && n <= 4
      && (n == 1 <==> s[i] < 0x80)
      && (n == 2 ==> 0xC2 <= s[i] <= 0xDF && Tail(s[i + 1]))
      && (n == 3 ==> 0xE0 <= s[i] <= 0xEF && Tail(s[i + 1]) && Tail(s[i + 2])
                     && (s[i] == 0xE0 ==> 0xA0 <= s[i + 1]) && (s[i] == 0xED ==> s[i + 1] <= 0x9F))
      && (n == 4 ==> 0xF0 <= s[i] <= 0xF4 && Tail(s[i + 1]) && Tail(s[i + 2]) && Tail(s[i + 3])
                     && (s[i] == 0xF0 ==> 0x90 <= s[i + 1]) && (s[i] == 0xF4 ==> s[i + 1] <= 0x8F))
  {
  }

  lemma DecodedValue(s: Text, i: nat)
    requires CharLength(s, i) > 0
    ensures Decode(s, i).codepoint
         == CharValue(CharLength(s, i), s[i], Peek(s, i + 1), Peek(s, i + 2), Peek(s, i + 3))
  {
    var c, n := s[i], CharLength(s, i);
    CharBytes(s, i);
    LeadBitsValue(c);
    if c >= 0x80 {
      var masks := TailMasks(GetRange(c));
      assert |masks| == n - 1 by { LeadMasks(c); }
      TailValue(s, i + 1, c, masks);
    }
  }

  lemma TailValue(s: Text, i: nat, c: Byte, masks: seq<bv8>)
    requires 1 <= |masks| <= 3
    requires Tail(Peek(s, i)) && (|masks| > 1 ==> Tail(Peek(s, i + 1))) && (|masks| > 2 ==> Tail(Peek(s, i + 2)))
    requires LeadBits(c) == if |masks| == 1 then c - 0xC0 else if |masks| == 2 then c - 0xE0 else c - 0xF0
    ensures DecodeTail(s, i, LeadBits(c), masks, true).codepoint
         == CharValue(1 + |masks|, c, Peek(s, i), Peek(s, i + 1), Peek(s, i + 2))
  {
    UnrollTail(s, i, LeadBits(c), masks, true);
  }

  lemma Encode2(a: Byte, b: Byte)
    requires 0xC2 <= a <= 0xDF && Tail(b)
    ensures var cp := CharValue(2, a, b, 0, 0); cp >= 0 && IsScalar(cp) && Encode(cp) == [a, b]
  {
    SixBitFields(0, 0, a - 0xC0, b - 0x80);
  }

  lemma Encode3(a: Byte, b: Byte, c: Byte)
    requires 0xE0 <= a <= 0xEF && Tail(b) && Tail(c)
    requires a == 0xE0 ==> 0xA0 <= b
    requires a == 0xED ==> b <= 0x9F
    ensures var cp := CharValue(3, a, b, c, 0); cp >= 0 && IsScalar(cp) && Encode(cp) == [a, b, c]
  {
    SixBitFields(0, a - 0xE0, b - 0x80, c - 0x80);
  }

  lemma Encode4(a: Byte, b: Byte, c: Byte, d: Byte)
    requires 0xF0 <= a <= 0xF4 && Tail(b) && Tail(c) && Tail(d)
    requires a == 0xF0 ==> 0x90 <= b
    requires a == 0xF4 ==> b <= 0x8F
    ensures var cp := CharValue(4, a, b, c, d); cp >= 0 && IsScalar(cp) && Encode(cp) == [a, b, c, d]
  {
    SixBitFields(a - 0xF0, b - 0x80, c - 0x80, d - 0x80);
  }

  /** The scalar value of a UTF8-char encodes to its bytes. */
  lemma CharEncodes(s: Text, i: nat)
    requires CharLength(s, i) > 0
    ensures var n := CharLength(s, i);
      var cp := CharValue(n, s[i], Peek(s, i + 1), Peek(s, i + 2), Peek(s, i + 3));
      cp >= 0 && IsScalar(cp) && Encode(cp) == s[i..i + n]
  {
    var n := CharLength(s, i);
    CharBytes(s, i);
    if n == 2 {
      Encode2(s[i], s[i + 1]);
    } else if n == 3 {
      Encode3(s[i], s[i + 1], s[i + 2]);
    } else if n == 4 {
      Encode4(s[i], s[i + 1], s[i + 2], s[i + 3]);
    }
  }

  /** What a decoded code point is: a scalar value whose encoding is the very bytes taken. */
  lemma DecodeThenEncode(s: Text, i: nat)
    requires Decode(s, i).ok && i < |s|
    ensures IsScalar(Decode(s, i).codepoint)
    ensures At(s, i, Encode(Decode(s, i).codepoint))
    ensures Decode(s, i).next == i + |Encode(Decode(s, i).codepoint)|
  {
    hide CharLength, Decode, Encode;
    DecodeIsGrammar(s, i);
    DecodedValue(s, i);
    CharEncodes(s, i);
  }

  /** Encoding is a right inverse of decoding on every scalar value, wherever the bytes stand. */
  lemma EncodeThenDecode(s: Text, i: nat, cp: nat)
    requires IsScalar(cp) && At(s, i, Encode(cp))
    ensures Decode(s, i) == Taken(true, i + |Encode(cp)|, cp)
    ensures CharLength(s, i) == |Encode(cp)|
  {
    BytesAt(s, i, Encode(cp));
    EncodedChar(s, i, cp);
    DecodeIsGrammar(s, i);
    DecodedValue(s, i);
  }

  lemma BytesAt(s: Text, i: nat, w: Text)
    requires At(s, i, w)
    ensures forall k :: 0 <= k < |w| ==> s[i + k] == w[k]
  {
    forall k | 0 <= k < |w| ensures s[i + k] == w[k] {
      AtByte(s, i, w, k);
    }
  }

  /** The bytes an encoding starts a UTF8-char with, length by length. */
  lemma EncodedBytes(cp: nat)
    requires IsScalar(cp)
    ensures var w := Encode(cp);
      && (|w| == 1 <==> w[0] < 0x80)
      && (|w| == 2 ==> 0xC2 <= w[0] <= 0xDF && Tail(w[1]) && CharValue(2, w[0], w[1], 0, 0) == cp)
      && (|w| == 3 ==> 0xE0 <= w[0] <= 0xEF && Tail(w[1]) && Tail(w[2]) && CharValue(3, w[0], w[1], w[2], 0) == cp
                       && (w[0] == 0xE0 ==> 0xA0 <= w[1]) && (w[0] == 0xED ==> w[1] <= 0x9F))
      && (|w| == 4 ==> 0xF0 <= w[0] <= 0xF4 && Tail(w[1]) && Tail(w[2]) && Tail(w[3])
                       && CharValue(4, w[0], w[1], w[2], w[3]) == cp
                       && (w[0] == 0xF0 ==> 0x90 <= w[1]) && (w[0] == 0xF4 ==> w[1] <= 0x8F))
  {
    assert cp == cp / 64 * 64 + cp % 64;
    assert cp / 64 == cp / 4096 * 64 + cp / 64 % 64;
    assert cp / 4096 == cp / 262144 * 64 + cp / 4096 % 64;
  }

  lemma EncodedChar(s: Text, i: nat, cp: nat)
    requires IsScalar(cp) && i + |Encode(cp)| <= |s|
    requires forall k :: 0 <= k < |Encode(cp)| ==> s[i + k] == Encode(cp)[k]
    ensures CharLength(s, i) == |Encode(cp)|
    ensures CharValue(|Encode(cp)|, s[i], Peek(s, i + 1), Peek(s, i + 2), Peek(s, i + 3)) == cp
  {
    var w := Encode(cp);
    EncodedBytes(cp);
    assert s[i + 0] == w[0];
    if |w| > 1 { assert s[i + 1] == w[1]; }
    if |w| > 2 { assert s[i + 2] == w[2]; }
    if |w| > 3 { assert s[i + 3] == w[3]; }
  }

  // ----- whole strings -----

  /** The UTF-8 form of a sequence of code points. */
  function EncodeAll(cps: seq<Scalar>): (w: Text) {
    if cps == [] then [] else Encode(cps[0]) + EncodeAll(cps[1..])
  }

  /** The grammar describes exactly the encodings of scalar-value sequences. */
  lemma {:induction false} WellFormedIsEncoding(s: Text, i: nat) returns (cps: seq<Scalar>)
    requires i <= |s| && WellFormed(s, i)
    ensures EncodeAll(cps) == s[i..]
    decreases |s| - i
  {
    hide CharLength, Decode, Encode, IsScalar;
    if i == |s| {
      cps := [];
    } else {
      DecodeIsGrammar(s, i);
      DecodeThenEncode(s, i);
      var d := Decode(s, i);
      var rest := WellFormedIsEncoding(s, d.next);
      cps := [d.codepoint] + rest;
      assert cps[1..] == rest;
      assert s[i..] == s[i..d.next] + s[d.next..];
    }
  }

  lemma {:induction false} EncodingIsWellFormed(s: Text, i: nat, cps: seq<Scalar>)
    requires At(s, i, EncodeAll(cps)) && i + |EncodeAll(cps)| == |s|
    ensures WellFormed(s, i)
    decreases |cps|
  {
    hide Encode, Decode, CharLength;
    if cps != [] {
      AtSplit(s, i, Encode(cps[0]), EncodeAll(cps[1..]));
      EncodeThenDecode(s, i, cps[0]);
      EncodingIsWellFormed(s, i + |Encode(cps[0])|, cps[1..]);
    }
  }

  /** Looping `Validate` over a NUL-terminated string copies it unchanged exactly when it is well-formed. */
  method ValidateString(s: Text) returns (ok: bool, os: Text)
    requires 0 !in s
    ensures ok <==> WellFormed(s, 0)
    ensures ok ==> os == s
  {
    var i := 0;
    os := [];
    while Peek(s, i) != 0
      invariant i <= |s| && os == s[..i]
      invariant WellFormed(s, 0) <==> WellFormed(s, i)
      decreases |s| - i
    {
      var v := Validate(s, i);
      ValidateIsGrammar(s, i);
      if !v.ok {
        return false, os;
      }
      os := os + s[i..v.next];
      i := v.next;
    }
    ok := true;
  }

  // ----- UTF-16 -----

  type Unit16 = x: int | 0 <= x < 0x1_0000

  function Peek16(s: seq<Unit16>, i: nat): (r: Unit16) {
    if i < |s| then s[i] else 0
  }

  /** `UTF16::Encode`; the asserts against surrogates and above 0x10FFFF are the precondition. */
  function Encode16(cp: nat): (w: seq<Unit16>)
    requires IsScalar(cp)
  {
    if cp <= 0xFFFF then [cp]
    else [(cp - 0x1_0000) / 0x400 + 0xD800, (cp - 0x1_0000) % 0x400 + 0xDC00]
  }

  /** `UTF16::Decode`. */
  function Decode16(s: seq<Unit16>, i: nat): (r: Taken)
    ensures r.next > i
  {
    var c := Peek16(s, i);
    if c < 0xD800 || c > 0xDFFF then Taken(true, i + 1, c)
    else if c <= 0xDBFF then
      var d := Peek16(s, i + 1);
      Taken(0xDC00 <= d <= 0xDFFF, i + 2, c % 0x400 * 0x400 + d % 0x400 + 0x1_0000)
    else Taken(false, i + 1, 0)
  }

  /** Section 2.1 and 2.2 of RFC 2781: decoding undoes encoding on every scalar value. */
  lemma Encode16ThenDecode(s: seq<Unit16>, i: nat, cp: nat)
    requires IsScalar(cp) && i + |Encode16(cp)| <= |s|
    requires s[i..i + |Encode16(cp)|] == Encode16(cp)
    ensures Decode16(s, i) == Taken(true, i + |Encode16(cp)|, cp)
  {
    var w := Encode16(cp);
    assert s[i] == s[i..i + |w|][0];
    if |w| == 2 {
      assert s[i + 1] == s[i..i + |w|][1];
    }
  }

  /** One unit below 0x10000; above it two, from the two halves of the surrogates, which make up the code point. */
  lemma Encode16Units(cp: nat)
    requires IsScalar(cp)
    ensures var w := Encode16(cp);
      if cp < 0x1_0000 then |w| == 1 && w[0] == cp
      else |w| == 2 && 0xD800 <= w[0] <= 0xDBFF && 0xDC00 <= w[1] <= 0xDFFF
           && var high: int, low: int := w[0], w[1]; cp == 0x1_0000 + (high - 0xD800) * 0x400 + (low - 0xDC00)
  {
  }

  /** `Transcoder<UTF8, UTF16>::Transcode` until the text ends. */
  function ToUtf16(s: Text, i: nat): (r: Option<seq<Unit16>>)
    decreases |s| - i
  {
    if i >= |s| then Some([])
    else
      var d := Decode(s, i);
      if !d.ok || !IsScalar(d.codepoint) then None
      else match ToUtf16(s, d.next)
        case None => None
        case Some(rest) => Some(Encode16(d.codepoint) + rest)
  }

  /** `Transcoder<UTF16, UTF8>::Transcode` until the text ends. */
  function ToUtf8(u: seq<Unit16>, i: nat): (r: Option<Text>)
    decreases |u| - i
  {
    if i >= |u| then Some([])
    else
      var d := Decode16(u, i);
      if !d.ok || d.codepoint > 0x10FFFF then None
      else match ToUtf8(u, d.next)
        case None => None
        case Some(rest) => Some(Encode(d.codepoint) + rest)
  }

  /** The UTF-16 form of a sequence of code points. */
  function Encode16All(cps: seq<Scalar>): (u: seq<Unit16>) {
    if cps == [] then [] else Encode16(cps[0]) + Encode16All(cps[1..])
  }

  lemma {:induction false} WideningEncodes(s: Text, i: nat, cps: seq<Scalar>)
    requires At(s, i, EncodeAll(cps)) && i + |EncodeAll(cps)| == |s|
    ensures ToUtf16(s, i) == Some(Encode16All(cps))
    decreases |cps|
  {
    hide Decode, CharLength, Encode, Encode16, At;
    if cps != [] {
      AtSplit(s, i, Encode(cps[0]), EncodeAll(cps[1..]));
      EncodeThenDecode(s, i, cps[0]);
      WideningEncodes(s, i + |Encode(cps[0])|, cps[1..]);
    }
  }

  lemma {:induction false} NarrowingEncodes(u: seq<Unit16>, j: nat, cps: seq<Scalar>)
    requires j <= |u| && u[j..] == Encode16All(cps)
    ensures ToUtf8(u, j) == Some(EncodeAll(cps))
    decreases |cps|
  {
    hide Decode16, Encode16, Encode;
    if cps != [] {
      var w := Encode16(cps[0]);
      assert u[j..j + |w|] == w by { assert u[j..][..|w|] == w; }
      assert u[j + |w|..] == Encode16All(cps[1..]) by { assert u[j..][|w|..] == Encode16All(cps[1..]); }
      Encode16ThenDecode(u, j, cps[0]);
      NarrowingEncodes(u, j + |w|, cps[1..]);
    } else {
      assert |u[j..]| == 0;
    }
  }

  lemma {:induction false} WidenedIsWellFormed(s: Text, i: nat)
    requires ToUtf16(s, i).Some?
    ensures WellFormed(s, i)
    decreases |s| - i
  {
    if i < |s| {
      DecodeIsGrammar(s, i);
      WidenedIsWellFormed(s, Decode(s, i).next);
    }
  }

  /** UTF-8 to UTF-16 succeeds exactly on well-formed text, and transcoding back gives the same bytes. */
  lemma TranscodeRoundTrip(s: Text)
    ensures ToUtf16(s, 0).Some? <==> WellFormed(s, 0)
    ensures ToUtf16(s, 0).Some? ==> ToUtf8(ToUtf16(s, 0).value, 0) == Some(s)
  {
    if ToUtf16(s, 0).Some? {
      WidenedIsWellFormed(s, 0);
    }
    if WellFormed(s, 0) {
      var cps := WellFormedIsEncoding(s, 0);
      assert s[0..] == s;
      WideningEncodes(s, 0, cps);
      NarrowingEncodes(Encode16All(cps), 0, cps);
    }
  }
}
