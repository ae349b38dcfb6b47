/** The in-situ string stream of stream.h, one buffer under a read and a write cursor, and the destructive
    string decoder that runs over it. */
module InsituStream {
  import opened Bytes
  import opened Events
  import opened StringReading
  import Utf8

  class InsituStringStream {
    const head: array<Byte>
    var src: nat
    var dst: nat

    /** The buffer holds the text and its NUL, with `out` written over it from `begin` on, behind the reader. */
    ghost predicate Rewriting(s: Text, begin: nat, out: Text)
      reads this, head
    {
      && head.Length == |s| + 1
      && dst == begin + |out| <= src <= head.Length
      && (forall k :: begin <= k < dst ==> head[k] == out[k - begin])
      && (forall k :: 0 <= k < begin || dst <= k < head.Length ==> head[k] == Peek(s, k))
    }

    method PeekCh() returns (c: Byte)
      requires src < head.Length
      ensures c == head[src]
    {
      c := head[src];
    }

    method Take() returns (c: Byte)
      requires src < head.Length
      modifies `src
      ensures c == head[old(src)] && src == old(src) + 1
    {
      c := head[src];
      src := src + 1;
    }

    method Put(c: Byte)
      requires dst < head.Length
      modifies `dst, head
      ensures dst == old(dst) + 1
      ensures head[old(dst)] == c
      ensures forall k :: 0 <= k < head.Length && k != old(dst) ==> head[k] == old(head[k])
    {
      head[dst] := c;
      dst := dst + 1;
    }

    method PutBegin(ghost s: Text) returns (begin: nat)
      requires head[..] == s + [0] && src <= |s|
      modifies `dst
      ensures begin == src && Rewriting(s, begin, [])
    {
      dst := src;
      begin := dst;
      assert forall k :: 0 <= k < head.Length ==> head[k] == head[..][k] == Peek(s, k);
    }

    /** Put after put: what `Rewriting` becomes. */
    method PutOut(ghost s: Text, ghost begin: nat, ghost out: Text, c: Byte)
      requires Rewriting(s, begin, out) && dst < src
      modifies `dst, head
      ensures Rewriting(s, begin, out + [c])
    {
      Put(c);
    }

    /** `RAPIDJSON_COPY`: take a byte and put it; `taken` is what was taken from `i` on. */
    method CopyByte(ghost s: Text, ghost begin: nat, ghost out: Text, ghost i: nat, ghost taken: Text) returns (c: Byte)
      requires Rewriting(s, begin, out + taken) && i <= src < head.Length && (src <= |s| ==> taken == s[i..src])
      modifies `src, `dst, head
      ensures c == Peek(s, old(src)) && src == old(src) + 1 && Rewriting(s, begin, out + (taken + [c]))
      ensures src <= |s| ==> taken + [c] == s[i..src]
    {
      c := Take();
      PutOut(s, begin, out + taken, c);
      assert out + taken + [c] == out + (taken + [c]);
    }

    /** `UTF8::Encode` onto the stream. */
    method Encode(ghost s: Text, ghost begin: nat, ghost out: Text, cp: nat)
      requires cp <= 0x10FFFF
      requires Rewriting(s, begin, out) && dst + |Utf8.Encode(cp)| <= src
      modifies `dst, head
      ensures Rewriting(s, begin, out + Utf8.Encode(cp))
    {
      var w := Utf8.Encode(cp);
      for k := 0 to |w|
        invariant Rewriting(s, begin, out + w[..k]) && src == old(src)
      {
        PutOut(s, begin, out + w[..k], w[k]);
        assert out + w[..k] + [w[k]] == out + w[..k + 1];
      }
      assert w[..|w|] == w;
    }

    /** `ParseHex4`: four digits or nothing; never reads past the NUL, which is no digit. */
    method ParseHex4(ghost s: Text, ghost begin: nat, ghost out: Text) returns (r: Option<nat>)
      requires Rewriting(s, begin, out) && src <= |s|
      modifies `src
      ensures r == Hex4(s, old(src))
      ensures r.Some? ==> src == old(src) + 4
      ensures old(src) <= src <= |s| && Rewriting(s, begin, out)
    {
      hide Hex4, HexValue;
      var codepoint := 0;
      ghost var i := src;
      for n := 0 to 4
        invariant src == i + n <= |s| && Rewriting(s, begin, out)
        invariant HexPrefix(s, i, n) == Some(codepoint)
      {
        var c := PeekCh();
        match HexValue(c)
        case None =>
          Hex4Prefix(s, i);
          HexPrefixFails(s, i, n + 1, 4);
          return None;
        case Some(v) =>
          codepoint := codepoint * 16 + v;
          var _ := Take();
      }
      Hex4Prefix(s, i);
      r := Some(codepoint);
    }

    /** `UTF8::Validate` with this stream as source and target; the guard stops taking after a NUL. */
    method Validate(ghost s: Text, ghost begin: nat, ghost out: Text) returns (ok: bool, ghost taken: Text)
      requires Rewriting(s, begin, out) && src < |s|
      modifies `src, `dst, head
      ensures ok == Utf8.Validate(s, old(src)).ok
      ensures old(src) <= src <= head.Length && Rewriting(s, begin, out + taken)
      ensures ok ==> src == Utf8.Validate(s, old(src)).next <= |s| && taken == s[old(src)..src]
    {
      hide Utf8.GetRange, Utf8.TailMasks, Utf8.Hits;
      ghost var i := src;
      assert out + [] == out;
      var c := CopyByte(s, begin, out, i, []);
      taken := [] + [c];
      if c < 0x80 {
        return true, taken;
      }
      var masks := Utf8.TailMasks(Utf8.GetRange(c));
      if masks == [] {
        return false, taken;
      }
      ok := true;
      for k := 0 to |masks|
        invariant i < src <= head.Length && (c == 0 ==> !ok) && (src == head.Length ==> c == 0)
        invariant src <= |s| ==> taken == s[i..src]
        invariant Rewriting(s, begin, out + taken)
        invariant Utf8.ValidateTail(s, src, c, masks[k..], ok) == Utf8.Validate(s, i)
      {
        if c != 0 {
          c := CopyByte(s, begin, out, i, taken);
          taken := taken + [c];
        }
        assert masks[k..] != [] && masks[k..][0] == masks[k];
        Utf8.NulHitsNothing(masks[k]);
        ok := ok && Utf8.Hits(c, masks[k]);
        assert masks[k..][1..] == masks[k + 1..];
      }
    }

    /** The `\\u` branch, from just after the letter; the escape began at `i`. */
    method ParseUnicode(ghost s: Text, ghost begin: nat, ghost out: Text, i: nat) returns (r: Step)
      requires Rewriting(s, begin, out) && src == i + 2 <= |s|
      modifies `src, `dst, head
      ensures r == UnicodeStep(s, i)
      ensures r.Emit? ==> src == r.next && Rewriting(s, begin, out + r.bytes)
      ensures r.Reject? ==> Rewriting(s, begin, out)
    {
      hide Utf8.Encode, Hex4, HexValue;
      var hex := ParseHex4(s, begin, out);
      if hex.None? {
        return Reject(StringUnicodeEscapeInvalidHex, i);
      }
      var codepoint := hex.value;
      if 0xD800 <= codepoint <= 0xDFFF {
        if codepoint > 0xDBFF {
          return Reject(StringUnicodeSurrogateInvalid, i);
        }
        var backslash := PeekCh();
        if backslash != '\\' as int {
          return Reject(StringUnicodeSurrogateInvalid, i);
        }
        var _ := Take();
        var u := PeekCh();
        if u != 'u' as int {
          return Reject(StringUnicodeSurrogateInvalid, i);
        }
        var _ := Take();
        var low := ParseHex4(s, begin, out);
        if low.None? {
          return Reject(StringUnicodeEscapeInvalidHex, i);
        }
        if low.value < 0xDC00 || low.value > 0xDFFF {
          return Reject(StringUnicodeSurrogateInvalid, i);
        }
        codepoint := (codepoint - 0xD800) * 0x400 + (low.value - 0xDC00) + 0x1_0000;
      }
      Encode(s, begin, out, codepoint);
      r := Emit(src, Utf8.Encode(codepoint));
    }

    /** The escape branch, the read cursor on the backslash. */
    method ParseEscape(f: Flags, ghost s: Text, ghost begin: nat, ghost out: Text) returns (r: Step)
      requires Rewriting(s, begin, out) && src < |s| && head[src] == '\\' as int
      modifies `src, `dst, head
      ensures r == StepAt(f, s, old(src)) && !r.Close?
      ensures r.Emit? ==> src == r.next && Rewriting(s, begin, out + r.bytes)
      ensures r.Reject? ==> Rewriting(s, begin, out)
    {
      var escapeOffset := src;
      var _ := Take();
      var e := PeekCh();
      if Unescape(e) != 0 {
        var _ := Take();
        PutOut(s, begin, out, Unescape(e));
        r := Emit(src, [Unescape(e)]);
      } else if f.escapedApostrophe && e == '\'' as int {
        var _ := Take();
        PutOut(s, begin, out, e);
        r := Emit(src, [e]);
      } else if e == 'u' as int {
        var _ := Take();
        r := ParseUnicode(s, begin, out, escapeOffset);
      } else {
        r := Reject(StringEscapeInvalid, escapeOffset);
      }
    }

    /** The last branch under `kParseValidateEncodingFlag`. */
    method ValidateUnit(f: Flags, ghost s: Text, ghost begin: nat, ghost out: Text) returns (r: Step)
      requires Rewriting(s, begin, out) && src < |s| && f.validateEncoding
      requires head[src] >= 0x20 && head[src] != '"' as int && head[src] != '\\' as int
      modifies `src, `dst, head
      ensures r == StepAt(f, s, old(src)) && !r.Close?
      ensures r.Emit? ==> src == r.next && Rewriting(s, begin, out + r.bytes)
      ensures r.Reject? ==> exists out' :: Rewriting(s, begin, out')
    {
      hide Utf8.Validate, Utf8.ValidateTail, UnicodeStep, Utf8.CharLength, Unescape;
      Utf8.ValidateIsGrammar(s, src);
      var offset, from := src, dst;
      var ok, taken := Validate(s, begin, out);
      if ok {
        assert head[from..dst] == taken;
        r := Emit(src, head[from..dst]);
      } else {
        r := Reject(StringInvalidEncoding, offset);
      }
    }

    /** One round of the decoding loop. */
    method Round(f: Flags, ghost s: Text, ghost begin: nat, ghost out: Text) returns (r: Step)
      requires Rewriting(s, begin, out) && src <= |s|
      modifies `src, `dst, head
      ensures r == StepAt(f, s, old(src))
      ensures r.Emit? ==> src == r.next && Rewriting(s, begin, out + r.bytes)
      ensures r.Close? ==> src == old(src) + 1 && Rewriting(s, begin, out)
      ensures r.Reject? ==> exists out' :: Rewriting(s, begin, out')
    {
      hide Utf8.Validate, Utf8.ValidateTail, UnicodeStep, Utf8.CharLength, Utf8.GetRange, Unescape;
      var offset := src;
      var c := PeekCh();
      if c == '\\' as int {
        r := ParseEscape(f, s, begin, out);
      } else if c == '"' as int {
        var _ := Take();
        r := Close;
      } else if c < 0x20 {
        r := Reject(if c == 0 then StringMissQuotationMark else StringInvalidEncoding, offset);
        assert Rewriting(s, begin, out);
      } else if f.validateEncoding {
        r := ValidateUnit(f, s, begin, out);
      } else {
        var _ := Take();
        PutOut(s, begin, out, c);
        r := Emit(src, [c]);
      }
    }

    /** `ParseStringToStream` decoding onto its own source, from just after the opening quote. The decoded bytes
        are those of the separate-buffer decoder, the terminator goes in behind the reader, and nothing from the
        read cursor on, nor before `begin`, is touched. */
    method ParseStringToStream(f: Flags, ghost s: Text) returns (r: StringResult)
      requires head[..] == s + [0] && src <= |s|
      modifies this, head
      ensures r == DecodeString(f, s, old(src), [])
      ensures r.Decoded? ==> src == r.next && Rewriting(s, old(src), r.str + [0])
      ensures r.Rejected? ==> exists out :: Rewriting(s, old(src), out)
    {
      hide StepAt;
      var begin := PutBegin(s);
      ghost var out: Text := [];
      while true
        invariant begin == old(src) <= src <= |s| && Rewriting(s, begin, out)
        invariant DecodeString(f, s, src, out) == DecodeString(f, s, begin, [])
        decreases |s| - src
      {
        var step := Round(f, s, begin, out);
        match step
        case Emit(_, bytes) =>
          out := out + bytes;
        case Close =>
          PutOut(s, begin, out, 0);
          assert head[begin..dst - 1] == out;
          return Decoded(src, head[begin..dst - 1]);
        case Reject(code, offset) =>
          return Rejected(code, offset);
      }
    }
  }
}
