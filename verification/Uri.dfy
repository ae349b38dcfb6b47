/** The in-place path normaliser of uri.h against the remove_dot_segments routine of RFC 3986, section 5.2.4. */
module Uri {
  import opened Bytes

  const SLASH: Byte := '/' as int
  const DOT: Text := ['.' as int]
  const DOTDOT: Text := ['.' as int, '.' as int]

  // ----- what the loop computes -----

  /** The end of the segment that starts at `i`: the next slash or the end of the text. */
  function SegmentEnd(s: Text, i: nat): (e: nat)
    requires i <= |s|
    ensures i <= e <= |s| && (e < |s| ==> s[e] == SLASH)
    ensures forall k :: i <= k < e ==> s[k] != SLASH
    decreases |s| - i
  {
    if i == |s| || s[i] == SLASH then i else SegmentEnd(s, i + 1)
  }

  /** Just after the last slash of `out[..n]`, or its start. */
  function LastSlash(out: Text, n: nat): (k: nat)
    requires n <= |out|
    ensures k <= n && (k > 0 ==> out[k - 1] == SLASH)
    ensures forall m :: k <= m < n ==> out[m] != SLASH
  {
    if n == 0 || out[n - 1] == SLASH then n else LastSlash(out, n - 1)
  }

  /** `out` without its last segment; a lone leading slash stays. */
  function Parent(out: Text): (r: Text)
    ensures r <= out
  {
    if |out| <= 1 then out else out[..LastSlash(out, |out| - 1)]
  }

  /** The segment from `i` to `e` with the slash after it, if there is one. */
  function Slashed(s: Text, i: nat, e: nat): (w: Text)
    requires i <= e <= |s|
  {
    if e < |s| then s[i..e + 1] else s[i..e]
  }

  /** The loop from position `i`, with `out` already written. */
  function Walk(s: Text, i: nat, out: Text): (r: Text)
    decreases if i < |s| then |s| - i else 0
  {
    if i >= |s| then out
    else
      var e := SegmentEnd(s, i);
      if s[i..e] == DOTDOT then Walk(s, e + 1, Parent(out))
      else if s[i..e] == DOT then Walk(s, e + 1, out)
      else Walk(s, e + 1, out + Slashed(s, i, e))
  }

  function Normalized(s: Text): (r: Text) { Walk(s, 0, []) }

  // ----- the loop, in place -----

  /** Nothing written yet, or a slash last. */
  predicate Closed(out: Text) { out == [] || out[|out| - 1] == SLASH }

  lemma ParentCloses(out: Text)
    requires Closed(out)
    ensures Closed(Parent(out))
  {
  }

  /** `memmove` towards the start of the buffer. */
  method MoveDown(path: array<Byte>, to: nat, from: nat, count: nat)
    requires to <= from && from + count <= path.Length
    modifies path
    ensures forall m :: to <= m < to + count ==> path[m] == old(path[m - to + from])
    ensures forall m :: 0 <= m < to || from + count <= m < path.Length ==> path[m] == old(path[m])
  {
    ghost var before := path[..];
    for k := 0 to count
      invariant forall m :: to <= m < to + k ==> path[m] == before[m - to + from]
      invariant forall m :: from + k <= m < path.Length ==> path[m] == before[m]
      invariant forall m :: 0 <= m < to ==> path[m] == before[m]
    {
      path[to + k] := path[from + k];
    }
  }

  /** What stands in the buffer while the loop runs: `out` written, the text unread from `pathpos` on. */
  ghost predicate Rewriting(path: array<Byte>, pathlen: nat, s: Text, rest: Text, pathpos: nat, newpos: nat, out: Text)
    reads path
  {
    && |s| == pathlen < path.Length && newpos <= pathlen && newpos <= pathpos <= pathlen + 1
    && |out| == newpos && |rest| == path.Length - pathlen
    && (forall k :: 0 <= k < newpos ==> path[k] == out[k])
    && (forall k :: pathpos <= k < pathlen ==> path[k] == s[k])
    && (forall k :: pathlen <= k < path.Length ==> path[k] == rest[k - pathlen])
  }

  /** The length of the segment at `pathpos`. */
  method ScanSegment(path: array<Byte>, pathpos: nat, pathlen: nat, ghost s: Text) returns (slashpos: nat)
    requires pathpos < pathlen == |s| < path.Length && forall k :: pathpos <= k < pathlen ==> path[k] == s[k]
    ensures pathpos + slashpos == SegmentEnd(s, pathpos)
    ensures slashpos == 2 && path[pathpos] == '.' as int && path[pathpos + 1] == '.' as int
            <==> s[pathpos..pathpos + slashpos] == DOTDOT
    ensures slashpos == 1 && path[pathpos] == '.' as int <==> s[pathpos..pathpos + slashpos] == DOT
  {
    slashpos := 0;
    while pathpos + slashpos < pathlen && path[pathpos + slashpos] != SLASH
      invariant pathpos + slashpos <= SegmentEnd(s, pathpos)
    {
      slashpos := slashpos + 1;
    }
    NoDots(s[pathpos..pathpos + slashpos]);
  }

  lemma SlashedBytes(s: Text, i: nat, e: nat) returns (w: Text)
    requires i <= e <= |s|
    ensures w == Slashed(s, i, e) && |w| == e - i + (if e < |s| then 1 else 0)
    ensures forall k :: 0 <= k < |w| ==> w[k] == s[i + k]
  {
    w := Slashed(s, i, e);
  }

  /** Any other segment is moved to the new path, with its slash. */
  method KeepSegment(path: array<Byte>, pathlen: nat, ghost s: Text, ghost rest: Text, pathpos: nat, pos: nat, ghost out: Text,
                     slashpos: nat)
    returns (newpos: nat)
    requires Rewriting(path, pathlen, s, rest, pathpos, pos, out) && pathpos < pathlen && pathpos + slashpos == SegmentEnd(s, pathpos)
    modifies path
    ensures Rewriting(path, pathlen, s, rest, pathpos + slashpos + 1, newpos, out + Slashed(s, pathpos, pathpos + slashpos))
  {
    hide Slashed, SegmentEnd, Rewriting;
    ghost var w := SlashedBytes(s, pathpos, pathpos + slashpos);
    RewritingIs(path, pathlen, s, rest, pathpos, pos, out);
    MoveDown(path, pos, pathpos, slashpos);
    newpos := pos + slashpos;
    if pathpos + slashpos < pathlen {
      path[newpos] := SLASH;
      newpos := newpos + 1;
    }
    Kept(path, pathlen, s, rest, pathpos + slashpos + 1, pos, newpos, out, w);
  }

  lemma RewritingIs(path: array<Byte>, pathlen: nat, s: Text, rest: Text, pathpos: nat, newpos: nat, out: Text)
    requires Rewriting(path, pathlen, s, rest, pathpos, newpos, out)
    ensures |s| == pathlen < path.Length && newpos <= pathlen && newpos <= pathpos <= pathlen + 1
    ensures |out| == newpos && |rest| == path.Length - pathlen
    ensures forall k :: 0 <= k < newpos ==> path[k] == out[k]
    ensures forall k :: pathpos <= k < pathlen ==> path[k] == s[k]
    ensures forall k :: pathlen <= k < path.Length ==> path[k] == rest[k - pathlen]
  {
  }

  /** `w` written behind `out`. */
  lemma Kept(path: array<Byte>, pathlen: nat, s: Text, rest: Text, pathpos: nat, pos: nat, newpos: nat, out: Text, w: Text)
    requires |s| == pathlen < path.Length && newpos <= pathlen && newpos <= pathpos <= pathlen + 1
    requires |out| == pos && newpos == pos + |w| && |rest| == path.Length - pathlen
    requires forall k :: 0 <= k < pos ==> path[k] == out[k]
    requires forall k :: 0 <= k < |w| ==> path[pos + k] == w[k]
    requires forall k :: pathpos <= k < pathlen ==> path[k] == s[k]
    requires forall k :: pathlen <= k < path.Length ==> path[k] == rest[k - pathlen]
    ensures Rewriting(path, pathlen, s, rest, pathpos, newpos, out + w)
  {
    forall k | 0 <= k < newpos ensures path[k] == (out + w)[k] {
      if k >= pos {
        assert path[pos + (k - pos)] == w[k - pos];
      }
    }
  }

  /** `RemoveDotSegments` on a NUL-terminated buffer. The write position never passes the read position, and what
      lies behind the old terminator is untouched. */
  method RemoveDotSegments(path: array<Byte>, pathlen: nat) returns (newpos: nat)
    requires pathlen < path.Length && path[pathlen] == 0
    modifies path
    ensures newpos <= pathlen && path[newpos] == 0 && path[..newpos] == Normalized(old(path[..pathlen]))
    ensures path[pathlen..] == old(path[pathlen..])
  {
    hide Walk, Parent, Slashed, SegmentEnd;
    ghost var s := path[..pathlen];
    ghost var rest := path[pathlen..];
    ghost var out: Text := [];
    var pathpos := 0;
    newpos := 0;
    while pathpos < pathlen
      invariant Rewriting(path, pathlen, s, rest, pathpos, newpos, out) && (pathpos < pathlen ==> Closed(out))
      invariant Walk(s, pathpos, out) == Normalized(s)
      decreases pathlen + 1 - pathpos
    {
      WalkStep(s, pathpos, out);
      var slashpos := ScanSegment(path, pathpos, pathlen, s);
      if slashpos == 2 && path[pathpos] == '.' as int && path[pathpos + 1] == '.' as int {
        assert newpos == 0 || path[newpos - 1] == SLASH;
        newpos := BackUp(path, newpos, out);
        ParentCloses(out);
        out := Parent(out);
      } else if slashpos == 1 && path[pathpos] == '.' as int {
        // Discarded: the new path is unchanged.
      } else {
        newpos := KeepSegment(path, pathlen, s, rest, pathpos, newpos, out, slashpos);
        SlashedCloses(out, s, pathpos, pathpos + slashpos);
        out := out + Slashed(s, pathpos, pathpos + slashpos);
      }
      pathpos := pathpos + slashpos + 1;
    }
    WalkEnds(s, pathpos, out);
    path[newpos] := 0;
    assert newpos == pathlen ==> rest[0] == 0;
    assert path[..newpos] == out && path[pathlen..] == rest;
  }

  lemma SlashedCloses(out: Text, s: Text, i: nat, e: nat)
    requires i <= e < |s| ==> s[e] == SLASH
    requires i <= e <= |s|
    ensures e < |s| ==> Closed(out + Slashed(s, i, e))
  {
  }

  lemma NoDots(w: Text)
    ensures w == DOTDOT <==> |w| == 2 && w[0] == '.' as int && w[1] == '.' as int
    ensures w == DOT <==> |w| == 1 && w[0] == '.' as int
  {
  }

  lemma WalkStep(s: Text, i: nat, out: Text)
    requires i < |s|
    ensures var e := SegmentEnd(s, i);
      Walk(s, i, out) == Walk(s, e + 1,
        if s[i..e] == DOTDOT then Parent(out) else if s[i..e] == DOT then out else out + Slashed(s, i, e))
  {
  }

  lemma WalkEnds(s: Text, i: nat, out: Text)
    requires i >= |s|
    ensures Walk(s, i, out) == out
  {
  }

  /** Backing up over a `..` segment. */
  method BackUp(path: array<Byte>, pos: nat, ghost out: Text) returns (newpos: nat)
    requires pos == |out| <= path.Length && forall k :: 0 <= k < pos ==> path[k] == out[k]
    ensures newpos == |Parent(out)| <= pos
  {
    newpos := pos;
    var lastslashpos := newpos;
    if lastslashpos > 1 {
      lastslashpos := lastslashpos - 1;
      while lastslashpos > 0 && path[lastslashpos - 1] != SLASH
        invariant lastslashpos <= |out| - 1 && LastSlash(out, |out| - 1) == LastSlash(out, lastslashpos)
      {
        lastslashpos := lastslashpos - 1;
      }
      newpos := lastslashpos;
    }
  }

  // ----- no dot segments are left -----

  /** `s[i..e]` is a segment: it starts after a slash or at the start and ends at a slash or at the end. */
  ghost predicate Segment(s: Text, i: nat, e: nat) {
    && i <= e <= |s| && (i == 0 || s[i - 1] == SLASH) && (e == |s| || s[e] == SLASH)
    && forall k :: i <= k < e ==> s[k] != SLASH
  }

  ghost predicate DotFree(s: Text) {
    forall i: nat, e: nat :: Segment(s, i, e) ==> s[i..e] != DOT && s[i..e] != DOTDOT
  }

  /** A closed prefix has no segments of its own but the empty one at its end. */
  lemma PrefixDotFree(s: Text, n: nat)
    requires n <= |s| && DotFree(s) && Closed(s[..n])
    ensures DotFree(s[..n])
  {
    forall i: nat, e: nat | Segment(s[..n], i, e) ensures s[..n][i..e] != DOT && s[..n][i..e] != DOTDOT {
      assert n > 0 ==> s[..n][n - 1] == SLASH;
      if e < n {
        assert Segment(s, i, e) && s[..n][i..e] == s[i..e];
      }
    }
  }

  lemma AppendDotFree(out: Text, seg: Text, slashed: bool)
    requires Closed(out) && DotFree(out) && SLASH !in seg && seg != DOT && seg != DOTDOT
    ensures DotFree(out + seg + if slashed then [SLASH] else [])
  {
    var s := out + seg + if slashed then [SLASH] else [];
    assert forall k :: 0 <= k < |out| ==> s[k] == out[k];
    assert forall k :: |out| <= k < |out| + |seg| ==> s[k] == seg[k - |out|];
    assert slashed ==> s[|s| - 1] == SLASH;
    forall i: nat, e: nat | Segment(s, i, e) ensures s[i..e] != DOT && s[i..e] != DOTDOT {
      assert out != [] ==> s[|out| - 1] == SLASH;
      if e < |out| {
        assert Segment(out, i, e) && s[i..e] == out[i..e];
      } else if i == |out| && e == |out| + |seg| {
        assert s[i..e] == seg;
      }
    }
  }

  lemma SlashedIs(s: Text, i: nat, e: nat)
    requires i <= e <= |s| && (e < |s| ==> s[e] == SLASH)
    ensures Slashed(s, i, e) == s[i..e] + if e < |s| then [SLASH] else []
  {
  }

  lemma {:induction false} WalkDotFree(s: Text, i: nat, out: Text)
    requires DotFree(out) && (i < |s| ==> Closed(out))
    ensures DotFree(Walk(s, i, out))
    decreases if i < |s| then |s| - i else 0
  {
    hide DotFree, Parent, Walk, Slashed;
    if i >= |s| {
      WalkEnds(s, i, out);
    } else {
      var e := SegmentEnd(s, i);
      var seg := s[i..e];
      WalkStep(s, i, out);
      SlashedCloses(out, s, i, e);
      if seg == DOTDOT {
        ParentCloses(out);
        PrefixDotFree(out, |Parent(out)|);
        assert out[..|Parent(out)|] == Parent(out);
        WalkDotFree(s, e + 1, Parent(out));
      } else if seg == DOT {
        WalkDotFree(s, e + 1, out);
      } else {
        AppendDotFree(out, seg, e < |s|);
        SlashedIs(s, i, e);
        assert out + seg + (if e < |s| then [SLASH] else []) == out + Slashed(s, i, e);
        WalkDotFree(s, e + 1, out + Slashed(s, i, e));
      }
    }
  }

  lemma EmptyDotFree()
    ensures DotFree([])
  {
    var s: Text := [];
    forall i: nat, e: nat | Segment(s, i, e) ensures s[i..e] != DOT && s[i..e] != DOTDOT {
      assert |s[i..e]| == 0;
    }
  }

  /** Whatever the path, absolute or not, its normal form has no dot segment. */
  lemma NormalizedIsDotFree(s: Text)
    ensures DotFree(Normalized(s))
  {
    EmptyDotFree();
    WalkDotFree(s, 0, []);
  }

  lemma {:induction false} WalkCopies(s: Text, i: nat)
    requires DotFree(s) && i <= |s| && (i == 0 || i == |s| || s[i - 1] == SLASH)
    ensures Walk(s, i, s[..i]) == s
    decreases |s| - i
  {
    hide DotFree, Walk, Parent;
    if i < |s| {
      var e := SegmentEnd(s, i);
      SegmentIsNoDot(s, i, e);
      WalkStep(s, i, s[..i]);
      if e < |s| {
        assert s[..i] + Slashed(s, i, e) == s[..e + 1];
        WalkCopies(s, e + 1);
      } else {
        assert s[..i] + Slashed(s, i, e) == s;
        WalkEnds(s, e + 1, s);
      }
    } else {
      assert s[..i] == s;
      WalkEnds(s, i, s);
    }
  }

  lemma SegmentIsNoDot(s: Text, i: nat, e: nat)
    requires DotFree(s) && Segment(s, i, e)
    ensures s[i..e] != DOT && s[i..e] != DOTDOT
  {
  }

  /** A text without dot segments, and so a normalised one, is left as it is. */
  lemma NormalizedTwice(s: Text)
    ensures DotFree(s) ==> Normalized(s) == s
    ensures Normalized(Normalized(s)) == Normalized(s)
  {
    NormalizedIsDotFree(s);
    var n := Normalized(s);
    WalkCopies(n, 0);
    assert n[..0] == [];
    if DotFree(s) {
      WalkCopies(s, 0);
      assert s[..0] == [];
    }
  }

  // ----- the routine of the RFC -----

  predicate StartsWith(s: Text, w: Text) { w <= s }

  /** The output buffer without its last segment and the slash before it. */
  function WithoutLast(out: Text): (r: Text)
    ensures r <= out
    decreases |out|
  {
    if out == [] then []
    else if out[|out| - 1] == SLASH then out[..|out| - 1]
    else WithoutLast(out[..|out| - 1])
  }

  /** RFC 3986, section 5.2.4, steps 2A to 2E on the two buffers. */
  function RemoveDots(input: Text, output: Text): (r: Text)
    decreases |input|
  {
    if input == [] then output
    else if StartsWith(input, DOTDOT + [SLASH]) then RemoveDots(input[3..], output)
    else if StartsWith(input, DOT + [SLASH]) then RemoveDots(input[2..], output)
    else if StartsWith(input, [SLASH] + DOT + [SLASH]) then RemoveDots(input[2..], output)
    else if input == [SLASH] + DOT then RemoveDots([SLASH], output)
    else if StartsWith(input, [SLASH] + DOTDOT + [SLASH]) then RemoveDots(input[3..], WithoutLast(output))
    else if input == [SLASH] + DOTDOT then RemoveDots([SLASH], WithoutLast(output))
    else if input == DOT || input == DOTDOT then output
    else
      var e := SegmentEnd(input, 1);
      RemoveDots(input[e..], output + input[..e])
  }

  lemma {:induction false} SegmentEndIs(s: Text, i: nat, e: nat)
    requires i <= e <= |s| && (e < |s| ==> s[e] == SLASH) && forall k :: i <= k < e ==> s[k] != SLASH
    ensures SegmentEnd(s, i) == e
    decreases e - i
  {
    if i < e {
      SegmentEndIs(s, i + 1, e);
    }
  }

  lemma {:induction false} WithoutLastIs(out: Text, k: nat)
    requires 0 < k <= |out| && out[k - 1] == SLASH && forall m :: k <= m < |out| ==> out[m] != SLASH
    ensures WithoutLast(out) == out[..k - 1]
    decreases |out|
  {
    if k < |out| {
      var shorter := out[..|out| - 1];
      WithoutLastIs(shorter, k);
      assert shorter[..k - 1] == out[..k - 1];
    }
  }

  predicate Absolute(s: Text) { s == [] || s[0] == SLASH }

  /** Dropping the last segment means the same with the slash in front and with the slash behind. */
  lemma ParentIsWithoutLast(o: Text)
    requires Absolute(o)
    ensures Parent(o + [SLASH]) == WithoutLast(o) + [SLASH] && Absolute(WithoutLast(o))
  {
    if o != [] {
      var out := o + [SLASH];
      var k := LastSlash(out, |o|);
      assert k > 0 by { assert out[0] == SLASH; }
      assert o[k - 1] == out[k - 1];
      assert forall m :: k <= m < |o| ==> o[m] == out[m];
      WithoutLastIs(o, k);
      assert out[..k] == o[..k - 1] + [SLASH];
    }
  }

  lemma BehindSlash(s: Text, i: nat, e: nat)
    requires i <= e <= |s|
    ensures var input := [SLASH] + s[i..];
      && input[..e - i + 1] == [SLASH] + s[i..e] && input[e - i + 1..] == s[e..]
      && (e == |s| ==> input == [SLASH] + s[i..e])
  {
    var input := [SLASH] + s[i..];
    assert forall k :: 1 <= k < |input| ==> input[k] == s[i + k - 1];
  }

  /** Which of the prefixes of the routine a text of the form slash, segment, slash or end has. */
  lemma StepPrefixes(input: Text, seg: Text)
    requires SLASH !in seg && [SLASH] + seg <= input && (|input| == |seg| + 1 || input[|seg| + 1] == SLASH)
    ensures !StartsWith(input, DOTDOT + [SLASH]) && !StartsWith(input, DOT + [SLASH]) && input != DOT && input != DOTDOT
    ensures StartsWith(input, [SLASH] + DOT + [SLASH]) <==> seg == DOT && |input| > 2
    ensures input == [SLASH] + DOT <==> seg == DOT && |input| == 2
    ensures StartsWith(input, [SLASH] + DOTDOT + [SLASH]) <==> seg == DOTDOT && |input| > 3
    ensures input == [SLASH] + DOTDOT <==> seg == DOTDOT && |input| == 3
  {
    NoDots(seg);
    assert forall k :: 0 <= k < |seg| ==> input[k + 1] == seg[k];
    assert input[0] == ([SLASH] + seg)[0] == SLASH;
    if StartsWith(input, [SLASH] + DOT + [SLASH]) {
      assert input[1] == '.' as int && input[2] == SLASH;
    }
    if StartsWith(input, [SLASH] + DOTDOT + [SLASH]) {
      assert input[1] == '.' as int && input[2] == '.' as int && input[3] == SLASH;
    }
    if input == [SLASH] + DOT || input == [SLASH] + DOTDOT {
      assert seg == input[1..];
    }
  }

  /** One segment taken from the input buffer. */
  lemma RemoveDotsSegment(input: Text, seg: Text, o: Text)
    requires SLASH !in seg && [SLASH] + seg <= input && (|input| == |seg| + 1 || input[|seg| + 1] == SLASH)
    ensures var o' := if seg == DOTDOT then WithoutLast(o) else if seg == DOT then o else o + [SLASH] + seg;
      RemoveDots(input, o) ==
        if |input| > |seg| + 1 then RemoveDots(input[|seg| + 1..], o')
        else if seg == DOTDOT || seg == DOT then RemoveDots([SLASH], o')
        else o'
  {
    hide WithoutLast, StartsWith;
    StepPrefixes(input, seg);
    if seg != DOT && seg != DOTDOT {
      KeptSegment(input, seg, o);
    }
  }

  /** Step 2E. */
  lemma KeptSegment(input: Text, seg: Text, o: Text)
    requires SLASH !in seg && [SLASH] + seg <= input && (|input| == |seg| + 1 || input[|seg| + 1] == SLASH)
    ensures SegmentEnd(input, 1) == |seg| + 1 && o + input[..|seg| + 1] == o + [SLASH] + seg
    ensures |input| == |seg| + 1 ==> input[|seg| + 1..] == []
  {
    var w := [SLASH] + seg;
    assert forall k :: 0 <= k < |seg| ==> w[k + 1] == seg[k];
    assert forall k :: 0 <= k < |w| ==> input[k] == w[k];
    SegmentEndIs(input, 1, |w|);
    assert input[..|w|] == w;
    Grouped(o, seg);
  }

  lemma Grouped(o: Text, seg: Text)
    ensures o + ([SLASH] + seg) == o + [SLASH] + seg
  {
  }

  /** What the routine does with the segment between two slashes, or with the last one. */
  lemma RemoveDotsStep(s: Text, i: nat, o: Text)
    requires i < |s|
    ensures var e := SegmentEnd(s, i);
      var input := [SLASH] + s[i..];
      var o' := if s[i..e] == DOTDOT then WithoutLast(o) else if s[i..e] == DOT then o else o + [SLASH] + s[i..e];
      RemoveDots(input, o) ==
        if e < |s| then RemoveDots([SLASH] + s[e + 1..], o')
        else if s[i..e] == DOTDOT || s[i..e] == DOT then RemoveDots([SLASH], o')
        else o'
  {
    hide RemoveDots, WithoutLast, SegmentEnd;
    var e := SegmentEnd(s, i);
    var input := [SLASH] + s[i..];
    BehindSlash(s, i, e);
    if e < |s| {
      assert s[e..] == [SLASH] + s[e + 1..];
      assert input[e - i + 1] == input[e - i + 1..][0] == SLASH;
    }
    RemoveDotsSegment(input, s[i..e], o);
  }

  lemma {:induction false} WalkIsRemoveDots(s: Text, i: nat, o: Text)
    requires i <= |s| && Absolute(o)
    ensures Walk(s, i, o + [SLASH]) == RemoveDots([SLASH] + s[i..], o)
    decreases |s| - i
  {
    hide WithoutLast, Parent, RemoveDots, Walk;
    LoneSlash(o);
    if i == |s| {
      assert [SLASH] + s[i..] == [SLASH];
      WalkEnds(s, i, o + [SLASH]);
    } else {
      var e := SegmentEnd(s, i);
      RemoveDotsStep(s, i, o);
      WalkStep(s, i, o + [SLASH]);
      ParentIsWithoutLast(o);
      var o' := if s[i..e] == DOTDOT then WithoutLast(o) else if s[i..e] == DOT then o else o + [SLASH] + s[i..e];
      LoneSlash(o');
      if e < |s| {
        SlashedIs(s, i, e);
        assert o + [SLASH] + (s[i..e] + [SLASH]) == o + [SLASH] + s[i..e] + [SLASH];
        WalkIsRemoveDots(s, e + 1, o');
      } else {
        WalkEnds(s, e + 1, o' + [SLASH]);
        WalkEnds(s, e + 1, o');
      }
    }
  }

  lemma LoneSlash(o: Text)
    ensures RemoveDots([SLASH], o) == o + [SLASH]
  {
    SegmentEndIs([SLASH], 1, 1);
    assert [SLASH][..1] == [SLASH] && [SLASH][1..] == [];
    assert RemoveDots([], o + [SLASH]) == o + [SLASH];
  }

  /** On absolute paths the loop computes what the RFC prescribes. */
  lemma NormalizesLikeTheRfc(s: Text)
    requires Absolute(s)
    ensures Normalized(s) == RemoveDots(s, [])
  {
    if s != [] {
      hide RemoveDots;
      WalkStep(s, 0, []);
      assert SegmentEnd(s, 0) == 0 && s[0..1] == [SLASH];
      assert [] + Slashed(s, 0, 0) == [] + [SLASH];
      WalkIsRemoveDots(s, 1, []);
      assert [SLASH] + s[1..] == s;
    }
  }

  // ----- paths that are not absolute -----

  /** The fold behind `Strays`: of the path written so far, `depth` is the number of its segments and `rooted` says
      whether the first of them is empty. */
  predicate StraysFrom(s: Text, i: nat, depth: nat, rooted: bool, strayed: bool)
    decreases if i < |s| then |s| - i else 0
  {
    if i >= |s| then strayed
    else
      var e := SegmentEnd(s, i);
      if s[i..e] == DOTDOT then
        if rooted && depth == 1 then StraysFrom(s, e + 1, depth, rooted, false)
        else StraysFrom(s, e + 1, if depth == 0 then 0 else depth - 1, rooted, strayed || depth == 1)
      else if s[i..e] == DOT then StraysFrom(s, e + 1, depth, rooted, strayed)
      else StraysFrom(s, e + 1, depth + 1, if depth == 0 then e == i else rooted, strayed)
  }

  /** The path strays from the RFC when a `..` takes back the first segment of a path not written from the root, and
      is back when, an empty segment having been written since, a `..` meets the lone slash. */
  predicate Strays(s: Text) { StraysFrom(s, 0, 0, false, false) }

  function Slashes(out: Text): (n: nat)
    ensures Closed(out) ==> (n == 0 <==> out == [])
  {
    if out == [] then 0 else Slashes(out[..|out| - 1]) + if out[|out| - 1] == SLASH then 1 else 0
  }

  lemma {:induction false} SlashesAppend(a: Text, b: Text)
    ensures Slashes(a + b) == Slashes(a) + Slashes(b)
    decreases |b|
  {
    if b == [] {
      assert a + b == a;
    } else {
      var init := b[..|b| - 1];
      assert (a + b)[..|a + b| - 1] == a + init;
      SlashesAppend(a, init);
    }
  }

  lemma {:induction false} NoSlashes(w: Text)
    requires SLASH !in w
    ensures Slashes(w) == 0
    decreases |w|
  {
    if w != [] {
      NoSlashes(w[..|w| - 1]);
    }
  }

  /** `depth` and `rooted` describe what is written. */
  predicate Describes(depth: nat, rooted: bool, out: Text) {
    Closed(out) && depth == Slashes(out) && (depth > 0 ==> (rooted <==> out[0] == SLASH))
  }

  lemma DescribesParent(depth: nat, rooted: bool, out: Text)
    requires Describes(depth, rooted, out) && out != []
    ensures out == [SLASH] <==> rooted && depth == 1
    ensures out != [SLASH] ==> Describes(depth - 1, rooted, Parent(out))
    ensures out != [SLASH] ==> (Parent(out) == [] <==> depth == 1)
  {
    var n := |out| - 1;
    var k := LastSlash(out, n);
    assert out == out[..k] + out[k..n] + [SLASH];
    SlashesAppend(out[..k] + out[k..n], [SLASH]);
    SlashesAppend(out[..k], out[k..n]);
    NoSlashes(out[k..n]);
    assert [SLASH][..0] == [] && Slashes([SLASH]) == 1;
  }

  lemma DescribesSegment(depth: nat, rooted: bool, out: Text, seg: Text)
    requires Describes(depth, rooted, out) && SLASH !in seg
    ensures Describes(depth + 1, if depth == 0 then seg == [] else rooted, out + seg + [SLASH])
  {
    SlashesAppend(out + seg, [SLASH]);
    SlashesAppend(out, seg);
    NoSlashes(seg);
    assert Slashes([SLASH]) == 1 by { assert [SLASH][..0] == []; }
    var w := out + seg + [SLASH];
    assert out != [] ==> w[0] == out[0];
    assert out == [] && seg != [] ==> w[0] == seg[0];
  }

  lemma StraysStep(s: Text, i: nat, depth: nat, rooted: bool, strayed: bool)
    requires i < |s|
    ensures var e := SegmentEnd(s, i);
      StraysFrom(s, i, depth, rooted, strayed) ==
        if s[i..e] == DOTDOT then
          if rooted && depth == 1 then StraysFrom(s, e + 1, depth, rooted, false)
          else StraysFrom(s, e + 1, if depth == 0 then 0 else depth - 1, rooted, strayed || depth == 1)
        else if s[i..e] == DOT then StraysFrom(s, e + 1, depth, rooted, strayed)
        else StraysFrom(s, e + 1, depth + 1, if depth == 0 then e == i else rooted, strayed)
  {
  }

  /** Backing up over `/out` and over `out`. */
  lemma ParentBehindSlash(out: Text)
    requires Closed(out) && out != [SLASH]
    ensures Parent([SLASH] + out) == [SLASH] + Parent(out)
    ensures Parent([SLASH] + [SLASH]) == [SLASH]
  {
    var w := [SLASH] + out;
    if out != [] {
      var n := |out| - 1;
      LastSlashIs(w, n + 1, LastSlash(out, n) + 1);
    }
    LastSlashIs([SLASH] + [SLASH], 1, 1);
  }

  lemma {:induction false} LastSlashIs(out: Text, n: nat, k: nat)
    requires k <= n <= |out| && (k == 0 || out[k - 1] == SLASH) && forall m :: k <= m < n ==> out[m] != SLASH
    ensures LastSlash(out, n) == k
    decreases n
  {
    if k < n {
      LastSlashIs(out, n - 1, k);
    }
  }

  /** What begins at the root never strays. */
  lemma {:induction false} RootedNeverStrays(s: Text, i: nat, depth: nat)
    requires depth > 0
    ensures !StraysFrom(s, i, depth, true, false)
    decreases if i < |s| then |s| - i else 0
  {
    if i < |s| {
      var e := SegmentEnd(s, i);
      RootedNeverStrays(s, e + 1, if s[i..e] == DOTDOT && depth > 1 then depth - 1 else depth);
      RootedNeverStrays(s, e + 1, depth + 1);
    }
  }

  lemma StraysEnd(s: Text, i: nat, depth: nat, rooted: bool, strayed: bool)
    requires i >= |s|
    ensures StraysFrom(s, i, depth, rooted, strayed) == strayed
  {
  }

  lemma EmptyParent(depth: nat, rooted: bool)
    ensures Parent([]) == [] && Parent([SLASH]) == [SLASH] && Describes(0, rooted, [])
    ensures Describes(depth, rooted, []) ==> depth == 0
  {
  }

  /** Once strayed, the loop's text lacks the leading slash of the RFC's until they meet again. */
  lemma {:induction false} StrayedWalks(s: Text, i: nat, out: Text, depth: nat, rooted: bool)
    requires i < |s| ==> Describes(depth, rooted, out)
    ensures Walk(s, i, out) == Walk(s, i, [SLASH] + out) <==> !StraysFrom(s, i, depth, rooted, true)
    decreases if i < |s| then |s| - i else 0
  {
    hide Walk, Parent, Slashes, StraysFrom, Describes, LastSlash;
    var w := [SLASH] + out;
    if i >= |s| {
      WalkEnds(s, i, out);
      WalkEnds(s, i, w);
      StraysEnd(s, i, depth, rooted, true);
    } else {
      var e := SegmentEnd(s, i);
      WalkStep(s, i, out);
      WalkStep(s, i, w);
      StraysStep(s, i, depth, rooted, true);
      if s[i..e] == DOTDOT {
        if out == [] {
          ParentBehindSlash(out);
          EmptyParent(depth, rooted);
          StrayedWalks(s, e + 1, out, 0, rooted);
        } else {
          DescribesParent(depth, rooted, out);
          if out == [SLASH] {
            EmptyParent(depth, rooted);
            ParentBehindSlash([]);
            RootedNeverStrays(s, e + 1, 1);
          } else {
            Depths(depth, rooted, out);
            ParentBehindSlash(out);
            StrayedWalks(s, e + 1, Parent(out), depth - 1, rooted);
          }
        }
      } else if s[i..e] == DOT {
        StrayedWalks(s, e + 1, out, depth, rooted);
      } else {
        assert w + Slashed(s, i, e) == [SLASH] + (out + Slashed(s, i, e));
        SlashedIs(s, i, e);
        if e < |s| {
          DescribesSegment(depth, rooted, out, s[i..e]);
          assert out + s[i..e] + [SLASH] == out + (s[i..e] + [SLASH]);
        }
        StrayedWalks(s, e + 1, out + Slashed(s, i, e), depth + 1, if depth == 0 then e == i else rooted);
      }
    }
  }

  /** Taking back the last segment written, before and behind the slash. */
  lemma BacksUp(o: Text, depth: nat, rooted: bool)
    requires Describes(depth, rooted, o + [SLASH]) && o != []
    ensures depth > 0 && !(rooted && depth == 1)
    ensures depth == 1 ==> Parent(o + [SLASH]) == [] && WithoutLast(o) == []
    ensures depth > 1 ==> Parent(o + [SLASH]) == WithoutLast(o) + [SLASH] && Describes(depth - 1, rooted, Parent(o + [SLASH]))
  {
    hide Describes, Slashes, WithoutLast;
    var out := o + [SLASH];
    DescribesParent(depth, rooted, out);
    var k := LastSlash(out, |o|);
    assert forall m :: 0 <= m < |o| ==> o[m] == out[m];
    if k > 0 {
      WithoutLastIs(o, k);
      assert o[k - 1] == out[k - 1] == SLASH && out[..k] == o[..k - 1] + [SLASH];
      assert Parent(out) != [];
    } else {
      NoSegmentLeft(o);
      assert Parent(out) == [];
    }
    Depths(depth, rooted, out);
  }

  lemma Depths(depth: nat, rooted: bool, out: Text)
    requires Describes(depth, rooted, out) && out != []
    ensures depth > 0 && Closed(out)
  {
  }

  lemma {:induction false} NoSegmentLeft(o: Text)
    requires SLASH !in o
    ensures WithoutLast(o) == []
    decreases |o|
  {
    if o != [] {
      NoSegmentLeft(o[..|o| - 1]);
    }
  }

  lemma LoneDepth(depth: nat, rooted: bool)
    requires Describes(depth, rooted, [] + [SLASH])
    ensures rooted && depth == 1
  {
    assert [] + [SLASH] == [SLASH] && [SLASH][..0] == [] && Slashes([SLASH]) == 1;
  }

  lemma WalkEndsAt(s: Text, i: nat, out: Text)
    ensures i >= |s| ==> Walk(s, i, out) == out
  {
  }

  lemma StraysEndAt(s: Text, i: nat, depth: nat, rooted: bool, strayed: bool)
    ensures i >= |s| ==> StraysFrom(s, i, depth, rooted, strayed) == strayed
  {
  }

  /** The loop has nothing written where the routine goes on with a slash. */
  lemma FirstTakenBack(s: Text, e: nat, rooted: bool)
    requires e <= |s|
    ensures Walk(s, e + 1, []) == (if e < |s| then RemoveDots([SLASH] + s[e + 1..], []) else [SLASH])
      <==> !StraysFrom(s, e + 1, 0, rooted, true)
  {
    hide RemoveDots, Walk, StraysFrom;
    EmptyParent(0, rooted);
    StrayedWalks(s, e + 1, [], 0, rooted);
    assert [SLASH] + [] == [SLASH] == [] + [SLASH];
    if e < |s| {
      WalkIsRemoveDots(s, e + 1, []);
    } else {
      WalkEnds(s, e + 1, [SLASH]);
    }
  }

  /** In step with the RFC, whose input has the slash in front where the loop's text has it behind. */
  lemma {:induction false} InStep(s: Text, i: nat, o: Text, depth: nat, rooted: bool)
    requires i <= |s| && Describes(depth, rooted, o + [SLASH])
    ensures Walk(s, i, o + [SLASH]) == RemoveDots([SLASH] + s[i..], o) <==> !StraysFrom(s, i, depth, rooted, false)
    decreases |s| - i, 1
  {
    hide Walk, RemoveDots, StraysFrom, Describes;
    if i == |s| {
      LoneSlash(o);
      assert [SLASH] + s[i..] == [SLASH];
      WalkEnds(s, i, o + [SLASH]);
      StraysEnd(s, i, depth, rooted, false);
    } else if s[i..SegmentEnd(s, i)] == DOTDOT {
      InStepUp(s, i, o, depth, rooted);
    } else {
      InStepOn(s, i, o, depth, rooted);
    }
  }

  /** A `..` met in step. */
  lemma {:induction false} InStepUp(s: Text, i: nat, o: Text, depth: nat, rooted: bool)
    requires i < |s| && Describes(depth, rooted, o + [SLASH]) && s[i..SegmentEnd(s, i)] == DOTDOT
    ensures Walk(s, i, o + [SLASH]) == RemoveDots([SLASH] + s[i..], o) <==> !StraysFrom(s, i, depth, rooted, false)
    decreases |s| - i, 0
  {
    hide Walk, Parent, WithoutLast, RemoveDots, Slashes, StraysFrom, Describes, LastSlash, SegmentEnd, Slashed;
    var e := SegmentEnd(s, i);
    WalkStep(s, i, o + [SLASH]);
    RemoveDotsStep(s, i, o);
    StraysStep(s, i, depth, rooted, false);
    var up := WithoutLast(o);
    LoneSlash(up);
    if o == [] {
      EmptyParent(depth, rooted);
      NoSegmentLeft([]);
      LoneDepth(depth, rooted);
      assert [] + [SLASH] == [SLASH];
      StraysEndAt(s, e + 1, depth, rooted, false);
      WalkEndsAt(s, e + 1, [SLASH]);
      if e < |s| {
        InStep(s, e + 1, [], depth, rooted);
      }
    } else {
      BacksUp(o, depth, rooted);
      if depth == 1 {
        FirstTakenBack(s, e, rooted);
      } else {
        StraysEndAt(s, e + 1, depth - 1, rooted, false);
        WalkEndsAt(s, e + 1, up + [SLASH]);
        if e < |s| {
          InStep(s, e + 1, up, depth - 1, rooted);
        }
      }
    }
  }

  /** Any other segment. */
  lemma {:induction false} InStepOn(s: Text, i: nat, o: Text, depth: nat, rooted: bool)
    requires i < |s| && Describes(depth, rooted, o + [SLASH]) && s[i..SegmentEnd(s, i)] != DOTDOT
    ensures Walk(s, i, o + [SLASH]) == RemoveDots([SLASH] + s[i..], o) <==> !StraysFrom(s, i, depth, rooted, false)
    decreases |s| - i, 0
  {
    hide Walk, Parent, WithoutLast, RemoveDots, Slashes, StraysFrom, Describes, LastSlash, SegmentEnd, Slashed;
    var e := SegmentEnd(s, i);
    var seg, out := s[i..e], o + [SLASH];
    WalkStep(s, i, out);
    RemoveDotsStep(s, i, o);
    StraysStep(s, i, depth, rooted, false);
    LoneSlash(o);
    var o' := if seg == DOT then o else o + [SLASH] + seg;
    Depths(depth, rooted, out);
    SlashedIs(s, i, e);
    if e < |s| {
      DescribesSegment(depth, rooted, out, seg);
      assert out + (seg + [SLASH]) == o + [SLASH] + seg + [SLASH] == out + seg + [SLASH];
      InStep(s, e + 1, o', if seg == DOT then depth else depth + 1, rooted);
    } else {
      WalkEnds(s, e + 1, out);
      WalkEnds(s, e + 1, out + seg);
      assert out + (seg + []) == out + seg;
      StraysEnd(s, e + 1, depth, rooted, false);
      StraysEnd(s, e + 1, depth + 1, rooted, false);
    }
  }

  /** The routine before anything was written: dot segments go without a trace, the first other one moves. */
  lemma RemoveDotsStart(s: Text, i: nat)
    requires i < |s|
    ensures var e := SegmentEnd(s, i);
      var seg := s[i..e];
      RemoveDots(s[i..], []) ==
        if seg == DOTDOT || seg == DOT then if e < |s| then RemoveDots(s[e + 1..], []) else []
        else if e < |s| then RemoveDots([SLASH] + s[e + 1..], seg)
        else seg
  {
    hide RemoveDots;
    var e := SegmentEnd(s, i);
    var seg, input := s[i..e], s[i..];
    assert forall k :: 0 <= k < |seg| ==> input[k] == seg[k];
    assert input[|seg|..] == s[e..];
    if e < |s| {
      assert s[e..] == [SLASH] + s[e + 1..] && input[|seg| + 1..] == s[e + 1..];
    } else {
      assert input == seg;
    }
    if seg == [] {
      assert input == s[e..];
    } else {
      FirstSegmentMoves(input, seg);
      NothingToRemove();
    }
  }

  /** Which of the prefixes of the routine a text that does not begin with a slash has. */
  lemma StartPrefixes(input: Text, seg: Text)
    requires seg != [] && SLASH !in seg && seg <= input && (|input| == |seg| || input[|seg|] == SLASH)
    ensures !StartsWith(input, [SLASH] + DOT + [SLASH]) && input != [SLASH] + DOT
    ensures !StartsWith(input, [SLASH] + DOTDOT + [SLASH]) && input != [SLASH] + DOTDOT
    ensures StartsWith(input, DOT + [SLASH]) <==> seg == DOT && |input| > 1
    ensures StartsWith(input, DOTDOT + [SLASH]) <==> seg == DOTDOT && |input| > 2
    ensures input == DOT <==> seg == DOT && |input| == 1
    ensures input == DOTDOT <==> seg == DOTDOT && |input| == 2
  {
    NoDots(seg);
    assert forall k :: 0 <= k < |seg| ==> input[k] == seg[k];
    if StartsWith(input, DOT + [SLASH]) {
      assert input[0] == '.' as int && input[1] == SLASH;
    }
    if StartsWith(input, DOTDOT + [SLASH]) {
      assert input[0] == '.' as int && input[1] == '.' as int && input[2] == SLASH;
    }
    assert input[0] != SLASH;
  }

  /** The first segment taken from the input buffer. */
  lemma FirstSegmentMoves(input: Text, seg: Text)
    requires seg != [] && SLASH !in seg && seg <= input && (|input| == |seg| || input[|seg|] == SLASH)
    ensures RemoveDots(input, []) ==
      if seg == DOTDOT || seg == DOT then if |input| > |seg| then RemoveDots(input[|seg| + 1..], []) else []
      else RemoveDots(input[|seg|..], seg)
  {
    hide WithoutLast, StartsWith;
    StartPrefixes(input, seg);
    assert forall k :: 0 <= k < |seg| ==> input[k] == seg[k];
    SegmentEndIs(input, 1, |seg|);
    assert [] + input[..|seg|] == seg;
  }

  lemma NothingToRemove()
    ensures forall o :: RemoveDots([], o) == o
  {
  }

  lemma {:induction false} NothingWritten(s: Text, i: nat)
    requires i <= |s|
    ensures Walk(s, i, []) == RemoveDots(s[i..], []) <==> !StraysFrom(s, i, 0, false, false)
    decreases |s| - i
  {
    hide Walk, Parent, RemoveDots, Slashes, StraysFrom, Describes, Slashed, SegmentEnd;
    StraysEndAt(s, i, 0, false, false);
    WalkEndsAt(s, i, []);
    EmptyParent(0, false);
    if i == |s| {
      NothingToRemove();
      assert s[i..] == [];
    } else {
      var e := SegmentEnd(s, i);
      var seg := s[i..e];
      WalkStep(s, i, []);
      RemoveDotsStart(s, i);
      StraysStep(s, i, 0, false, false);
      StraysEndAt(s, e + 1, 0, false, false);
      StraysEndAt(s, e + 1, 1, seg == [], false);
      WalkEndsAt(s, e + 1, []);
      WalkEndsAt(s, e + 1, seg);
      SlashedIs(s, i, e);
      assert [] + Slashed(s, i, e) == if e < |s| then seg + [SLASH] else seg;
      if e < |s| {
        if seg == DOTDOT || seg == DOT {
          NothingWritten(s, e + 1);
        } else {
          DescribesSegment(0, false, [], seg);
          assert [] + seg + [SLASH] == seg + [SLASH];
          InStep(s, e + 1, seg, 1, seg == []);
        }
      }
    }
  }

  /** On any path, relative ones included, the loop computes what the RFC prescribes exactly when the path does not
      stray. */
  lemma LikeTheRfcUnlessStraying(s: Text)
    ensures Normalized(s) == RemoveDots(s, []) <==> !Strays(s)
    ensures Absolute(s) ==> !Strays(s)
  {
    NothingWritten(s, 0);
    assert s[0..] == s;
    if Absolute(s) {
      NormalizesLikeTheRfc(s);
    }
  }

  const A_SLASH_DOTDOT: Text := ['a' as int, SLASH] + DOTDOT

  lemma SegmentsOfExample(s: Text)
    requires s == A_SLASH_DOTDOT
    ensures |s| == 4 && SegmentEnd(s, 0) == 1 && SegmentEnd(s, 2) == 4
    ensures s[0..1] == ['a' as int] && s[2..4] == DOTDOT && s[0..1] != DOT && s[0..1] != DOTDOT
  {
    hide SegmentEnd;
    SegmentEndIs(s, 0, 1);
    SegmentEndIs(s, 2, 4);
  }

  lemma ExampleWalks(s: Text)
    requires s == A_SLASH_DOTDOT
    ensures Normalized(s) == [] && Strays(s)
  {
    hide StraysFrom, SegmentEnd, Walk, Parent, Slashed;
    SegmentsOfExample(s);
    StraysStep(s, 0, 0, false, false);
    StraysStep(s, 2, 1, false, false);
    StraysEnd(s, 5, 0, false, true);
    SlashedIs(s, 0, 1);
    assert [] + (['a' as int] + [SLASH]) == ['a' as int] + [SLASH];
    NoParent();
    WalkStep(s, 0, []);
    WalkStep(s, 2, ['a' as int] + [SLASH]);
    WalkEnds(s, 5, []);
  }

  lemma NoParent()
    ensures Parent(['a' as int] + [SLASH]) == [] && WithoutLast(['a' as int]) == []
  {
    NoSegmentLeft(['a' as int]);
    assert LastSlash(['a' as int] + [SLASH], 1) == 0;
  }

  /** For the path of a segment and two dots the RFC keeps a slash. */
  lemma RelativePathsDiffer()
    ensures Strays(A_SLASH_DOTDOT) && Normalized(A_SLASH_DOTDOT) == [] && RemoveDots(A_SLASH_DOTDOT, []) == [SLASH]
  {
    hide Strays, SegmentEnd, RemoveDots, Normalized, WithoutLast;
    var s := A_SLASH_DOTDOT;
    ExampleWalks(s);
    SegmentsOfExample(s);
    NoParent();
    assert s[0..] == s;
    RemoveDotsStart(s, 0);
    RemoveDotsStep(s, 2, ['a' as int]);
    LoneSlash([]);
  }
}
