/** The URI class of uri.h around its path normaliser: splitting a text into five parts, and resolving a reference
    against a base, beside the rules of RFC 3986, appendix B and section 5.2. */
module UriReference {
  import opened Bytes
  import opened Uri

  const COLON: Byte := ':' as int
  const QUESTION: Byte := '?' as int
  const HASH: Byte := '#' as int

  /** The parts with their delimiters: the colon of the scheme, the slashes of the authority and so on. */
  datatype Parts = Parts(scheme: Text, auth: Text, path: Text, query: Text, frag: Text)

  /** Everything but the fragment, and everything. */
  function BaseText(u: Parts): (w: Text) { u.scheme + u.auth + u.path + u.query }
  function FullText(u: Parts): (w: Text) { BaseText(u) + u.frag }

  // ----- splitting -----

  /** The first position from `i` on that holds one of the bytes, or the end. */
  function Until(s: Text, i: nat, stops: Text): (e: nat)
    requires i <= |s|
    ensures i <= e <= |s| && (e < |s| ==> s[e] in stops)
    ensures forall k :: i <= k < e ==> s[k] !in stops
    decreases |s| - i
  {
    if i == |s| || s[i] in stops then i else Until(s, i + 1, stops)
  }

  const ENDS_AUTHORITY: Text := [SLASH, QUESTION, HASH]

  function SchemeEnd(s: Text): (e: nat)
    ensures e <= |s|
  {
    var colon := Until(s, 0, [COLON]);
    if colon < Until(s, 0, ENDS_AUTHORITY) then colon + 1 else 0
  }

  function AuthEnd(s: Text, i: nat): (e: nat)
    requires i <= |s|
    ensures i <= e <= |s|
  {
    if i + 1 < |s| && s[i] == SLASH && s[i + 1] == SLASH then Until(s, i + 2, ENDS_AUTHORITY) else i
  }

  function QueryEnd(s: Text, i: nat): (e: nat)
    requires i <= |s|
    ensures i <= e <= |s|
  {
    if i < |s| && s[i] == QUESTION then Until(s, i + 1, [HASH]) else i
  }

  /** The cuts of `Parse`. */
  function Split(s: Text): (u: Parts) {
    var a := SchemeEnd(s);
    var b := AuthEnd(s, a);
    var c := Until(s, b, [QUESTION, HASH]);
    var d := QueryEnd(s, c);
    Parts(s[..a], s[a..b], s[b..c], s[c..d], s[d..])
  }

  /** The part the getters see: the bytes before the first NUL. */
  function CString(w: Text): (r: Text)
    ensures r <= w && (0 !in w ==> r == w)
  {
    w[..Until(w, 0, [0])]
  }

  /** `Parse`: an absolute path is normalised at once. */
  function Parse(s: Text): (u: Parts) {
    var raw := Split(s);
    var path := CString(raw.path);
    Parts(CString(raw.scheme), CString(raw.auth), if path != [] && path[0] == SLASH then Normalized(path) else path,
          CString(raw.query), CString(raw.frag))
  }

  // ----- what a split is -----

  ghost predicate Without(w: Text, stops: Text) { forall k :: 0 <= k < |w| ==> w[k] !in stops }

  /** The text has a colon before any byte that ends an authority. */
  ghost predicate HasScheme(s: Text) {
    exists k :: 0 <= k < |s| && s[k] == COLON && Without(s[..k], ENDS_AUTHORITY)
  }

  ghost predicate SchemeFine(u: Parts) {
    if u.scheme == [] then !HasScheme(FullText(u))
    else u.scheme[|u.scheme| - 1] == COLON && Without(u.scheme[..|u.scheme| - 1], ENDS_AUTHORITY + [COLON])
  }

  ghost predicate AuthFine(auth: Text, path: Text) {
    if auth == [] then !(Peek(path, 0) == SLASH && Peek(path, 1) == SLASH)
    else
      |auth| >= 2 && auth[0] == auth[1] == SLASH && Without(auth[2..], ENDS_AUTHORITY) && (path != [] ==> path[0] == SLASH)
  }

  ghost predicate QueryFine(query: Text, frag: Text) {
    && (query != [] ==> query[0] == QUESTION && Without(query, [HASH]))
    && (frag != [] ==> frag[0] == HASH)
  }

  /** The grammar of the five parts, after appendix B of the RFC. */
  ghost predicate WellSplit(u: Parts) {
    SchemeFine(u) && AuthFine(u.auth, u.path) && Without(u.path, [QUESTION, HASH]) && QueryFine(u.query, u.frag)
  }

  lemma {:induction false} UntilIs(s: Text, i: nat, stops: Text, e: nat)
    requires i <= e <= |s| && (e < |s| ==> s[e] in stops) && forall k :: i <= k < e ==> s[k] !in stops
    ensures Until(s, i, stops) == e
    decreases e - i
  {
    if i < e {
      UntilIs(s, i + 1, stops, e);
    }
  }

  lemma SchemeIsThere(s: Text)
    ensures SchemeEnd(s) > 0 <==> HasScheme(s)
    ensures SchemeEnd(s) > 0 ==> s[SchemeEnd(s) - 1] == COLON && Without(s[..SchemeEnd(s) - 1], ENDS_AUTHORITY + [COLON])
  {
    var colon, stop := Until(s, 0, [COLON]), Until(s, 0, ENDS_AUTHORITY);
    if colon < stop {
      assert Without(s[..colon], ENDS_AUTHORITY);
    }
    if k :| 0 <= k < |s| && s[k] == COLON && Without(s[..k], ENDS_AUTHORITY) {
      assert colon <= k;
      assert forall m :: 0 <= m < k ==> s[..k][m] == s[m];
    }
  }

  /** The bytes up to the first stop. */
  lemma UntilWithout(s: Text, i: nat, from: nat, stops: Text)
    requires i <= from <= |s|
    ensures Without(s[i..Until(s, from, stops)][from - i..], stops)
  {
    var e := Until(s, from, stops);
    assert s[i..e][from - i..] == s[from..e];
  }

  lemma PathIsThere(s: Text, b: nat)
    requires b <= |s|
    ensures var path := s[b..Until(s, b, [QUESTION, HASH])];
      && Without(path, [QUESTION, HASH])
      && (path != [] ==> path[0] == s[b] && path[0] != QUESTION && path[0] != HASH)
      && (Peek(path, 0) == SLASH && Peek(path, 1) == SLASH ==> b + 1 < |s| && s[b] == SLASH && s[b + 1] == SLASH)
  {
    var c := Until(s, b, [QUESTION, HASH]);
    UntilWithout(s, b, b, [QUESTION, HASH]);
    assert s[b..c][0..] == s[b..c];
  }

  lemma AuthIsThere(s: Text, a: nat)
    requires a <= |s|
    ensures var b := AuthEnd(s, a);
      var c := Until(s, b, [QUESTION, HASH]);
      AuthFine(s[a..b], s[b..c]) && Without(s[b..c], [QUESTION, HASH])
  {
    hide Without, Until, AuthFine, AuthEnd;
    var b := AuthEnd(s, a);
    var c := Until(s, b, [QUESTION, HASH]);
    PathIsThere(s, b);
    if b > a {
      AuthEndsThere(s, a);
      UntilWithout(s, a, a + 2, ENDS_AUTHORITY);
      PresentAuthFine(s[a..b], s[b..c]);
    } else {
      NoAuthThere(s, a);
      assert s[a..b] == [];
      AbsentAuthFine(s[b..c]);
    }
  }

  lemma NoAuthThere(s: Text, a: nat)
    requires a <= |s| && AuthEnd(s, a) == a
    ensures !(a + 1 < |s| && s[a] == SLASH && s[a + 1] == SLASH)
  {
  }

  lemma AbsentAuthFine(path: Text)
    requires !(Peek(path, 0) == SLASH && Peek(path, 1) == SLASH)
    ensures AuthFine([], path)
  {
  }

  lemma PresentAuthFine(auth: Text, path: Text)
    requires |auth| >= 2 && auth[0] == auth[1] == SLASH && Without(auth[2..], ENDS_AUTHORITY)
    requires path != [] ==> path[0] == SLASH
    ensures AuthFine(auth, path)
  {
  }

  lemma AuthEndsThere(s: Text, a: nat)
    requires a <= |s| && AuthEnd(s, a) > a
    ensures var b := AuthEnd(s, a);
      && b >= a + 2 && s[a] == s[a + 1] == SLASH && b == Until(s, a + 2, ENDS_AUTHORITY)
      && (b < |s| ==> s[b] == SLASH || s[b] == QUESTION || s[b] == HASH)
  {
  }

  lemma QueryIsThere(s: Text, c: nat)
    requires c <= |s| && (c < |s| ==> s[c] in [QUESTION, HASH])
    ensures QueryFine(s[c..QueryEnd(s, c)], s[QueryEnd(s, c)..])
  {
    var d := QueryEnd(s, c);
    assert forall k :: 0 <= k < d - c ==> s[c..d][k] == s[c + k];
  }

  /** Splitting keeps every byte, and its parts follow the grammar. */
  lemma SplitIsWell(s: Text)
    ensures WellSplit(Split(s)) && FullText(Split(s)) == s
  {
    hide Until, HasScheme, SchemeEnd, AuthEnd, QueryEnd, Without, AuthFine, QueryFine;
    var a := SchemeEnd(s);
    var b := AuthEnd(s, a);
    var c := Until(s, b, [QUESTION, HASH]);
    assert FullText(Split(s)) == s;
    SchemeIsThere(s);
    AuthIsThere(s, a);
    QueryIsThere(s, c);
    assert a > 0 ==> s[..a][..a - 1] == s[..a - 1];
  }

  lemma SchemeIs(s: Text, u: Parts)
    requires WellSplit(u) && FullText(u) == s
    ensures SchemeEnd(s) == |u.scheme|
  {
    var n := |u.scheme|;
    assert s[..n] == u.scheme;
    SchemeIsThere(s);
    if n > 0 {
      assert forall k :: 0 <= k < n - 1 ==> u.scheme[..n - 1][k] == s[k];
      assert s[n - 1] == COLON;
      UntilIs(s, 0, [COLON], n - 1);
      assert Until(s, 0, ENDS_AUTHORITY) > n - 1;
    }
  }

  /** The places of the parts in the whole. */
  lemma PartsAt(u: Parts)
    ensures var s, a := FullText(u), |u.scheme|;
      var b := a + |u.auth|;
      var c := b + |u.path|;
      c <= |s| && s[..a] == u.scheme && s[a..b] == u.auth && s[b..c] == u.path && s[c..] == u.query + u.frag
  {
  }

  lemma LastPartsAt(u: Parts)
    ensures var s, c := FullText(u), |u.scheme| + |u.auth| + |u.path|;
      c + |u.query| <= |s| && s[c..c + |u.query|] == u.query && s[c + |u.query|..] == u.frag
  {
  }

  lemma PathIs(s: Text, u: Parts)
    requires WellSplit(u) && FullText(u) == s
    ensures var b := |u.scheme| + |u.auth|; b <= |s| && Until(s, b, [QUESTION, HASH]) == b + |u.path|
  {
    hide HasScheme, FullText;
    PartsAt(u);
    var b := |u.scheme| + |u.auth|;
    var c := b + |u.path|;
    assert forall k :: b <= k < c ==> s[k] == s[b..c][k - b];
    assert c < |s| ==> s[c] == s[c..][0] == (u.query + u.frag)[0];
    UntilIs(s, b, [QUESTION, HASH], c);
  }

  lemma AuthIs(s: Text, u: Parts)
    requires WellSplit(u) && FullText(u) == s
    ensures var a := |u.scheme|; a <= |s| && AuthEnd(s, a) == a + |u.auth|
  {
    hide HasScheme, FullText, Until, SchemeFine, QueryFine;
    PartsAt(u);
    var a := |u.scheme|;
    var b := a + |u.auth|;
    FollowsAuth(s, u);
    if a < b {
      assert s[a..b][0] == s[a] && s[a..b][1] == s[a + 1];
      assert forall k :: a + 2 <= k < b ==> s[k] == s[a..b][2..][k - a - 2];
      UntilIs(s, a + 2, ENDS_AUTHORITY, b);
    }
  }

  /** What stands behind the authority, or in its place. */
  lemma FollowsAuth(s: Text, u: Parts)
    requires WellSplit(u) && FullText(u) == s
    ensures var b := |u.scheme| + |u.auth|;
      && b <= |s|
      && (u.auth != [] && b < |s| ==> s[b] in ENDS_AUTHORITY)
      && (u.auth == [] ==> !(b + 1 < |s| && s[b] == SLASH && s[b + 1] == SLASH))
  {
    hide HasScheme, FullText, Until, SchemeFine;
    PartsAt(u);
    var b := |u.scheme| + |u.auth|;
    var c := b + |u.path|;
    assert b < c ==> s[b] == s[b..c][0];
    assert b + 1 < c ==> s[b + 1] == s[b..c][1];
    assert c < |s| ==> s[c] == s[c..][0] == (u.query + u.frag)[0];
  }

  lemma QueryIs(s: Text, u: Parts)
    requires WellSplit(u) && FullText(u) == s
    ensures var c := |u.scheme| + |u.auth| + |u.path|; c <= |s| && QueryEnd(s, c) == c + |u.query|
  {
    var c := |u.scheme| + |u.auth| + |u.path|;
    var d := c + |u.query|;
    assert s[c..d] == u.query && s[d..] == u.frag;
    assert forall k :: c <= k < d ==> s[k] == u.query[k - c];
    assert d < |s| ==> s[d] == u.frag[0];
    if c < d {
      UntilIs(s, c + 1, [HASH], d);
    }
  }

  /** The split is the only one that follows the grammar. */
  lemma SplitIsUnique(s: Text, u: Parts)
    ensures Split(s) == u <==> WellSplit(u) && FullText(u) == s
  {
    hide WellSplit, Until, SchemeEnd, AuthEnd, QueryEnd;
    SplitIsWell(s);
    if WellSplit(u) && FullText(u) == s {
      SchemeIs(s, u);
      AuthIs(s, u);
      PathIs(s, u);
      QueryIs(s, u);
      PartsAt(u);
      LastPartsAt(u);
    }
  }

  // ----- resolving -----

  /** The last slash of the base path and what stands before it, then the path. */
  function Merged(base: Parts, path: Text): (r: Text) {
    (if base.auth != [] && base.path == [] then [SLASH] else []) + base.path[..LastSlash(base.path, |base.path|)] + path
  }

  /** `Resolve`. */
  function Resolve(u: Parts, base: Parts): (r: Parts)
    ensures r.frag == u.frag
  {
    if u.scheme != [] then Parts(u.scheme, u.auth, Normalized(u.path), u.query, u.frag)
    else if u.auth != [] then Parts(base.scheme, u.auth, Normalized(u.path), u.query, u.frag)
    else if u.path == [] then
      Parts(base.scheme, base.auth, base.path, if u.query == [] then base.query else u.query, u.frag)
    else if u.path[0] == SLASH then Parts(base.scheme, base.auth, Normalized(u.path), u.query, u.frag)
    else Parts(base.scheme, base.auth, Normalized(Merged(base, u.path)), u.query, u.frag)
  }

  /** RFC 3986, section 5.2.3. */
  function Merge(base: Parts, path: Text): (r: Text) {
    if base.auth != [] && base.path == [] then [SLASH] + path
    else base.path[..LastSlash(base.path, |base.path|)] + path
  }

  /** RFC 3986, section 5.2.2, on parts that are undefined when empty. */
  function Transform(r: Parts, base: Parts): (t: Parts) {
    if r.scheme != [] then Parts(r.scheme, r.auth, RemoveDots(r.path, []), r.query, r.frag)
    else
      var authority, path, query :=
        if r.auth != [] then r.auth else base.auth,
        if r.auth != [] then RemoveDots(r.path, [])
        else if r.path == [] then base.path
        else if r.path[0] == SLASH then RemoveDots(r.path, [])
        else RemoveDots(Merge(base, r.path), []),
        if r.auth == [] && r.path == [] && r.query == [] then base.query else r.query;
      Parts(base.scheme, authority, path, query, r.frag)
  }

  /** The path that resolving normalises; a reference without path takes that of the base as it is. */
  function DottedPath(u: Parts, base: Parts): (r: Option<Text>) {
    if u.scheme != [] || u.auth != [] then Some(u.path)
    else if u.path == [] then None
    else if u.path[0] == SLASH then Some(u.path)
    else Some(Merge(base, u.path))
  }

  /** Resolving is the transformation of the RFC exactly when the path it normalises does not stray. */
  lemma ResolvesLikeTheRfc(u: Parts, base: Parts)
    ensures Resolve(u, base) == Transform(u, base) <==> DottedPath(u, base).None? || !Strays(DottedPath(u, base).value)
  {
    hide Normalized, RemoveDots, Strays;
    LikeTheRfcUnlessStraying(u.path);
    LikeTheRfcUnlessStraying(Merge(base, u.path));
    assert Merged(base, u.path) == Merge(base, u.path);
  }

  /** So it is for every reference without a scheme, against a base whose path is absolute or behind an authority. */
  lemma HierarchicalResolves(u: Parts, base: Parts)
    requires u.scheme == [] && (u.auth != [] ==> Absolute(u.path))
    requires if base.path == [] then base.auth != [] else base.path[0] == SLASH
    ensures Resolve(u, base) == Transform(u, base)
  {
    hide Normalized, RemoveDots, Strays;
    ResolvesLikeTheRfc(u, base);
    if u.auth == [] && u.path != [] && u.path[0] != SLASH {
      var k := LastSlash(base.path, |base.path|);
      assert base.path != [] ==> k > 0;
      LikeTheRfcUnlessStraying(Merge(base, u.path));
    }
    LikeTheRfcUnlessStraying(u.path);
  }

  lemma FragmentSplits(s: Text)
    requires s != [] && s[0] == HASH
    ensures Split(s) == Parts([], [], [], [], s)
  {
    assert HASH in ENDS_AUTHORITY && HASH in [QUESTION, HASH];
    assert Until(s, 0, ENDS_AUTHORITY) == 0 && Until(s, 0, [QUESTION, HASH]) == 0;
  }

  /** A reference that is only a fragment stays with its base. */
  lemma FragmentStays(s: Text, base: Parts)
    requires s != [] && s[0] == HASH
    ensures BaseText(Resolve(Parse(s), base)) == BaseText(base) && Parse(s).frag == CString(s)
  {
    hide Split, CString;
    FragmentSplits(s);
  }

  // ----- the methods -----

  method Scan(s: Text, from: nat, stops: Text) returns (e: nat)
    requires from <= |s|
    ensures e == Until(s, from, stops)
  {
    e := from;
    while e < |s|
      invariant from <= e <= |s| && Until(s, e, stops) == Until(s, from, stops)
    {
      if s[e] in stops {
        break;
      }
      e := e + 1;
    }
  }

  /** A path copied into a buffer of its own and normalised there. */
  method NormalizeInBuffer(path: Text) returns (r: Text)
    ensures r == Normalized(path)
  {
    var buffer := new Byte[|path| + 1](k => if 0 <= k < |path| then path[k] else 0);
    assert buffer[..|path|] == path;
    var n := RemoveDotSegments(buffer, |path|);
    r := buffer[..n];
  }

  method ScanScheme(s: Text) returns (start: nat)
    ensures start == SchemeEnd(s)
  {
    hide Until;
    start := 0;
    var pos1 := Scan(s, 0, [COLON]);
    if pos1 != |s| {
      var pos2 := Scan(s, 0, ENDS_AUTHORITY);
      if pos1 < pos2 {
        start := pos1 + 1;
      }
    }
  }

  method ScanAuth(s: Text, start: nat) returns (end: nat)
    requires start <= |s|
    ensures end == AuthEnd(s, start)
  {
    end := start;
    if start + 1 < |s| && s[start] == SLASH && s[start + 1] == SLASH {
      end := Scan(s, start + 2, ENDS_AUTHORITY);
    }
  }

  method ScanQuery(s: Text, start: nat) returns (end: nat)
    requires start <= |s|
    ensures end == QueryEnd(s, start)
  {
    end := start;
    if start < |s| && s[start] == QUESTION {
      end := Scan(s, start + 1, [HASH]);
    }
  }

  /** `Parse`: four cuts, each part then read up to its terminator. */
  method ParseUri(s: Text) returns (u: Parts)
    ensures u == Parse(s)
  {
    hide Normalized, Until, SchemeEnd, AuthEnd, QueryEnd, CString;
    var a := ScanScheme(s);
    var b := ScanAuth(s, a);
    var c := Scan(s, b, [QUESTION, HASH]);
    var path := CString(s[b..c]);
    if path != [] && path[0] == SLASH {
      path := NormalizeInBuffer(path);
    }
    var d := ScanQuery(s, c);
    u := Parts(CString(s[..a]), CString(s[a..b]), path, CString(s[c..d]), CString(s[d..]));
  }

  /** `Resolve`, with the loop that looks for the last slash of the base path. */
  method ResolveUri(u: Parts, base: Parts) returns (r: Parts)
    ensures r == Resolve(u, base)
  {
    hide Normalized;
    r := u;
    if u.scheme != [] {
      var path := NormalizeInBuffer(u.path);
      return r.(path := path);
    }
    r := r.(scheme := base.scheme);
    if u.auth != [] {
      var path := NormalizeInBuffer(u.path);
      return r.(path := path);
    }
    r := r.(auth := base.auth);
    if u.path == [] {
      return r.(path := base.path, query := if u.query == [] then base.query else u.query);
    }
    var path := u.path;
    if path[0] != SLASH {
      var lastslashpos := |base.path|;
      while lastslashpos > 0 && base.path[lastslashpos - 1] != SLASH
        invariant 0 <= lastslashpos <= |base.path| && LastSlash(base.path, lastslashpos) == LastSlash(base.path, |base.path|)
      {
        lastslashpos := lastslashpos - 1;
      }
      path := (if base.auth != [] && base.path == [] then [SLASH] else []) + base.path[..lastslashpos] + u.path;
    }
    path := NormalizeInBuffer(path);
    r := r.(path := path);
  }
}
