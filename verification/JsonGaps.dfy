/** What may stand between the tokens of a text: the four bytes of white space written out, and comments where the flags
    admit them. */
module JsonGaps {
  import opened Bytes
  import opened Events
  import opened Grammar

  /** Space, tab, line feed and carriage return (RFC 8259, section 2). */
  predicate BlankByte(c: Byte) { c == 0x20 || c == 0x09 || c == 0x0A || c == 0x0D }

  /** Without comments, skipping ends at the first byte that is none of the four. */
  lemma SkipsBlanks(f: Flags, s: Text, i: nat)
    requires i <= |s| && !f.comments
    ensures var r := Skip(f, s, i);
      r.To? && i <= r.pos <= |s| && !BlankByte(Peek(s, r.pos)) && forall k :: i <= k < r.pos ==> BlankByte(s[k])
  {
    SpacesAreBlank(s, i);
  }

  lemma {:induction false} SpacesAreBlank(s: Text, i: nat)
    requires i <= |s|
    ensures var j := SkipSpaces(s, i);
      i <= j <= |s| && !BlankByte(Peek(s, j)) && forall k :: i <= k < j ==> BlankByte(s[k])
    decreases |s| - i
  {
    if IsSpace(Peek(s, i)) {
      SpacesAreBlank(s, i + 1);
    }
  }

  // ----- comments -----

  const SLASH: Byte := '/' as int
  const STAR: Byte := '*' as int
  const NEWLINE: Byte := '\n' as int

  /** From slash and star to the first star and slash behind them. */
  ghost predicate BlockComment(w: Text) {
    && |w| >= 4 && w[0] == SLASH && w[1] == STAR && w[|w| - 2] == STAR && w[|w| - 1] == SLASH && 0 !in w
    && forall k :: 2 <= k < |w| - 2 ==> !(w[k] == STAR && w[k + 1] == SLASH)
  }

  /** Two slashes and the bytes behind them, a line feed not among them. */
  ghost predicate OpenLine(w: Text) {
    |w| >= 2 && w[0] == SLASH && w[1] == SLASH && forall k :: 2 <= k < |w| ==> w[k] != NEWLINE && w[k] != 0
  }

  ghost predicate LineComment(w: Text) { |w| >= 3 && OpenLine(w[..|w| - 1]) && w[|w| - 1] == NEWLINE }

  ghost predicate Comment(w: Text) { BlockComment(w) || LineComment(w) }

  /** White space, with comments in it where the flags admit them. */
  ghost predicate Gap(f: Flags, w: Text)
    decreases |w|
  {
    || w == []
    || (BlankByte(w[0]) && Gap(f, w[1..]))
    || (f.comments && exists n :: 0 < n <= |w| && Comment(w[..n]) && Gap(f, w[n..]))
  }

  /** The same at the end of a text, where the last line comment need not be ended. */
  ghost predicate FinalGap(f: Flags, w: Text) {
    Gap(f, w) || (f.comments && exists n :: 0 <= n <= |w| && Gap(f, w[..n]) && OpenLine(w[n..]))
  }

  // ----- a gap is skipped -----

  lemma SkipsOneBlank(f: Flags, s: Text, i: nat)
    requires i < |s| && BlankByte(s[i])
    ensures Skip(f, s, i) == Skip(f, s, i + 1)
  {
    assert SkipSpaces(s, i) == SkipSpaces(s, i + 1);
  }

  lemma {:induction false} BlockEnds(s: Text, i: nat, w: Text, k: nat)
    requires At(s, i, w) && BlockComment(w) && 2 <= k <= |w| - 2
    ensures BlockEnd(s, i + k) == To(i + |w|)
    decreases |w| - k
  {
    AtByte(s, i, w, k);
    AtByte(s, i, w, k + 1);
    if k < |w| - 2 {
      BlockEnds(s, i, w, k + 1);
    }
  }

  lemma {:induction false} LineEnds(s: Text, i: nat, w: Text, k: nat)
    requires At(s, i, w) && OpenLine(w) && 2 <= k <= |w|
    requires Peek(s, i + |w|) == NEWLINE || Peek(s, i + |w|) == 0
    ensures LineEnd(s, i + k) == if Peek(s, i + |w|) == 0 then i + |w| else i + |w| + 1
    decreases |w| - k
  {
    if k < |w| {
      AtByte(s, i, w, k);
      LineEnds(s, i, w, k + 1);
    }
  }

  lemma SkipsComment(f: Flags, s: Text, i: nat, w: Text)
    requires At(s, i, w) && Comment(w) && f.comments
    ensures Skip(f, s, i) == Skip(f, s, i + |w|)
  {
    AtByte(s, i, w, 0);
    AtByte(s, i, w, 1);
    if BlockComment(w) {
      BlockEnds(s, i, w, 2);
    } else {
      var line := w[..|w| - 1];
      assert w == line + [NEWLINE];
      AtSplit(s, i, line, [NEWLINE]);
      AtByte(s, i, w, |w| - 1);
      LineEnds(s, i, line, 2);
    }
    assert SkipSpaces(s, i) == i;
  }

  /** A byte at which skipping stops. */
  predicate Stops(f: Flags, c: Byte) { !BlankByte(c) && (f.comments ==> c != SLASH) }

  lemma SkipsGap(f: Flags, s: Text, i: nat, w: Text)
    requires At(s, i, w) && Gap(f, w) && Stops(f, Peek(s, i + |w|))
    ensures Skip(f, s, i) == To(i + |w|)
  {
    hide Skip, Gap;
    SkipsUpTo(f, s, i, w);
    StopsAtOnce(f, s, i + |w|);
  }

  lemma StopsAtOnce(f: Flags, s: Text, i: nat)
    requires i <= |s| && Stops(f, Peek(s, i))
    ensures Skip(f, s, i) == To(i)
  {
  }

  /** At the end of the text also a line comment that is not ended. */
  lemma SkipsFinalGap(f: Flags, s: Text, i: nat, w: Text)
    requires At(s, i, w) && FinalGap(f, w) && Peek(s, i + |w|) == 0
    ensures Skip(f, s, i) == To(i + |w|)
  {
    hide Skip, Gap, OpenLine, At;
    if Gap(f, w) {
      SkipsUpTo(f, s, i, w);
      InText(s, i, w);
      StopsAtOnce(f, s, i + |w|);
    } else {
      var n :| 0 <= n <= |w| && Gap(f, w[..n]) && OpenLine(w[n..]);
      assert w == w[..n] + w[n..];
      AtSplit(s, i, w[..n], w[n..]);
      SkipsUpTo(f, s, i, w[..n]);
      LastLine(f, s, i + n, w[n..]);
    }
  }

  lemma InText(s: Text, i: nat, w: Text)
    requires At(s, i, w)
    ensures i + |w| <= |s|
  {
  }

  lemma LastLine(f: Flags, s: Text, i: nat, w: Text)
    requires At(s, i, w) && OpenLine(w) && f.comments && Peek(s, i + |w|) == 0
    ensures Skip(f, s, i) == To(i + |w|)
  {
    AtByte(s, i, w, 0);
    AtByte(s, i, w, 1);
    LineEnds(s, i, w, 2);
    assert SkipSpaces(s, i) == i;
    StopsAtOnce(f, s, i + |w|);
  }

  /** The first piece of a gap. */
  lemma GapStep(f: Flags, w: Text) returns (n: nat)
    requires Gap(f, w) && w != []
    ensures 0 < n <= |w| && Gap(f, w[n..])
    ensures (n == 1 && BlankByte(w[0])) || (f.comments && Comment(w[..n]))
  {
    hide Comment;
    if BlankByte(w[0]) && Gap(f, w[1..]) {
      n := 1;
    } else {
      n :| 0 < n <= |w| && Comment(w[..n]) && Gap(f, w[n..]);
    }
  }

  lemma CommentHead(c: Text)
    requires Comment(c)
    ensures c != [] && c[0] == SLASH
  {
  }

  lemma GapHead(f: Flags, g: Text)
    requires Gap(f, g) && g != []
    ensures BlankByte(g[0]) || g[0] == SLASH
  {
    hide Gap, Comment;
    var n := GapStep(f, g);
    if Comment(g[..n]) {
      CommentHead(g[..n]);
    }
  }

  /** Skipping from the start of a gap is skipping from its end. */
  lemma {:induction false} SkipsUpTo(f: Flags, s: Text, i: nat, w: Text)
    requires At(s, i, w) && Gap(f, w)
    ensures i + |w| <= |s| && Skip(f, s, i) == Skip(f, s, i + |w|)
    decreases |w|
  {
    hide Skip, Comment, Gap, At;
    InText(s, i, w);
    if w != [] {
      var n := GapStep(f, w);
      assert w == w[..n] + w[n..];
      AtSplit(s, i, w[..n], w[n..]);
      if f.comments && Comment(w[..n]) {
        SkipsComment(f, s, i, w[..n]);
      } else {
        AtByte(s, i, w, 0);
        SkipsOneBlank(f, s, i);
      }
      SkipsUpTo(f, s, i + n, w[n..]);
    }
  }

  // ----- what is skipped is a gap -----

  lemma {:induction false} BlanksAreGap(f: Flags, w: Text)
    requires forall k :: 0 <= k < |w| ==> BlankByte(w[k])
    ensures Gap(f, w)
    decreases |w|
  {
    if w != [] {
      BlanksAreGap(f, w[1..]);
    }
  }

  lemma {:induction false} GapBehindBlanks(f: Flags, a: Text, b: Text)
    requires (forall k :: 0 <= k < |a| ==> BlankByte(a[k])) && Gap(f, b)
    ensures Gap(f, a + b)
    decreases |a|
  {
    if a == [] {
      assert a + b == b;
    } else {
      GapBehindBlanks(f, a[1..], b);
      assert (a + b)[1..] == a[1..] + b;
    }
  }

  lemma GapBehindComment(f: Flags, c: Text, b: Text)
    requires Comment(c) && Gap(f, b) && f.comments
    ensures Gap(f, c + b)
  {
    assert (c + b)[..|c|] == c && (c + b)[|c|..] == b;
  }

  lemma {:induction false} BlockIs(s: Text, j: nat, i: nat)
    requires j + 2 <= i <= |s| && s[j] == SLASH && s[j + 1] == STAR && BlockEnd(s, i).To?
    requires forall k :: j <= k < i ==> s[k] != 0
    requires forall k :: j + 2 <= k < i ==> !(s[k] == STAR && Peek(s, k + 1) == SLASH)
    ensures BlockComment(s[j..BlockEnd(s, i).pos])
    decreases |s| - i
  {
    if !(Peek(s, i) == STAR && Peek(s, i + 1) == SLASH) {
      BlockIs(s, j, i + 1);
    }
  }

  /** A line comment goes to its line feed, or to the end. */
  lemma {:induction false} LineIs(s: Text, j: nat, i: nat)
    requires j + 2 <= i <= |s| && s[j] == SLASH && s[j + 1] == SLASH
    requires forall k :: j + 2 <= k < i ==> s[k] != NEWLINE && s[k] != 0
    ensures var e := LineEnd(s, i);
      i <= e <= |s| && (LineComment(s[j..e]) || (Peek(s, e) == 0 && OpenLine(s[j..e])))
    decreases |s| - i
  {
    if Peek(s, i) == NEWLINE {
      assert s[j..i + 1][..i - j] == s[j..i];
    } else if Peek(s, i) != 0 {
      LineIs(s, j, i + 1);
    }
  }

  lemma CommentIs(s: Text, j: nat)
    requires j < |s| && s[j] == SLASH && CommentEnd(s, j).To?
    ensures var e := CommentEnd(s, j).pos;
      j < e <= |s| && (Comment(s[j..e]) || (Peek(s, e) == 0 && OpenLine(s[j..e])))
  {
    if Peek(s, j + 1) == STAR {
      BlockIs(s, j, j + 2);
    } else {
      LineIs(s, j, j + 2);
    }
  }

  /** What was skipped is a gap, but for a last line comment at the end. */
  lemma {:induction false} SkippedIsGap(f: Flags, s: Text, i: nat)
    requires i <= |s| && Skip(f, s, i).To?
    ensures var j := Skip(f, s, i).pos;
      && i <= j <= |s| && !BlankByte(Peek(s, j))
      && (Gap(f, s[i..j]) || (Peek(s, j) == 0 && FinalGap(f, s[i..j])))
    decreases |s| - i
  {
    hide Gap, CommentEnd;
    var j := SkipSpaces(s, i);
    SpacesAreBlank(s, i);
    var blanks := s[i..j];
    if !f.comments || Peek(s, j) != SLASH {
      BlanksAreGap(f, blanks);
    } else {
      CommentIs(s, j);
      var e := CommentEnd(s, j).pos;
      SkippedIsGap(f, s, e);
      var p := Skip(f, s, e).pos;
      assert s[i..p] == blanks + (s[j..e] + s[e..p]);
      if Comment(s[j..e]) {
        GapInFront(f, blanks, s[j..e], s[e..p]);
      } else {
        EndStays(f, s, e);
        BlanksAreGap(f, blanks);
        assert s[e..p] == [] && s[i..p][..j - i] == blanks && s[i..p][j - i..] == s[j..e];
      }
    }
  }

  lemma EndStays(f: Flags, s: Text, e: nat)
    requires e <= |s| && Peek(s, e) == 0
    ensures Skip(f, s, e) == To(e)
  {
  }

  lemma GapInFront(f: Flags, blanks: Text, c: Text, rest: Text)
    requires (forall k :: 0 <= k < |blanks| ==> BlankByte(blanks[k])) && Comment(c) && f.comments
    ensures Gap(f, rest) ==> Gap(f, blanks + (c + rest))
    ensures FinalGap(f, rest) ==> FinalGap(f, blanks + (c + rest))
  {
    hide Comment, Gap, OpenLine;
    if Gap(f, rest) {
      GapBehindComment(f, c, rest);
      GapBehindBlanks(f, blanks, c + rest);
    } else if FinalGap(f, rest) {
      var n :| 0 <= n <= |rest| && Gap(f, rest[..n]) && OpenLine(rest[n..]);
      GapBehindComment(f, c, rest[..n]);
      GapBehindBlanks(f, blanks, c + rest[..n]);
      var all := blanks + (c + rest);
      var m := |blanks| + |c| + n;
      assert all[..m] == blanks + (c + rest[..n]) && all[m..] == rest[n..];
    }
  }
}
