/** Bytes, NUL-terminated text and hexadecimal digits, shared by every codec of the model. */
module Bytes {

  type Byte = x: int | 0 <= x < 256

  type Text = seq<Byte>

  /** What `*src_` reads: the byte at `i`, or the terminating NUL once the text is exhausted. */
  function Peek(s: Text, i: nat): (r: Byte) {
    if i < |s| then s[i] else 0
  }

  /** The bytes `w` stand in `s` from position `i` on. */
  ghost predicate At(s: Text, i: nat, w: Text) {
    i + |w| <= |s| && s[i..i + |w|] == w
  }

  lemma AtSplit(s: Text, i: nat, a: Text, b: Text)
    ensures At(s, i, a + b) <==> At(s, i, a) && At(s, i + |a|, b)
  {
    if At(s, i, a + b) {
      assert s[i..i + |a|] == (a + b)[..|a|] == a;
      assert s[i + |a|..i + |a| + |b|] == (a + b)[|a|..] == b;
    }
    if At(s, i, a) && At(s, i + |a|, b) {
      assert s[i..i + |a + b|] == s[i..i + |a|] + s[i + |a|..i + |a| + |b|];
    }
  }

  lemma AtWhole(w: Text)
    ensures At(w, 0, w) && At(w, |w|, [])
  {
    assert w[0..|w|] == w && w[|w|..|w|] == [];
  }

  lemma AtByte(s: Text, i: nat, w: Text, k: nat)
    requires At(s, i, w) && k < |w|
    ensures Peek(s, i + k) == w[k]
  {
    assert s[i..i + |w|][k] == s[i + k];
  }

  /** The `hexDigits` table of the writers. */
  function HexDigit(n: nat): (r: Byte)
    requires n < 16
  {
    if n < 10 then '0' as int + n else 'A' as int + n - 10
  }

  datatype Option<+T> = None | Some(value: T)

  /** Value of one hexadecimal digit, either case. */
  function HexValue(c: Byte): (r: Option<nat>)
    ensures r.Some? ==> r.value < 16 && c != 0
  {
    if '0' as int <= c <= '9' as int then Some(c - '0' as int)
    else if 'A' as int <= c <= 'F' as int then Some(c - 'A' as int + 10)
    else if 'a' as int <= c <= 'f' as int then Some(c - 'a' as int + 10)
    else None
  }

  lemma HexDigitValue(n: nat)
    requires n < 16
    ensures HexValue(HexDigit(n)) == Some(n)
  {
  }
}
