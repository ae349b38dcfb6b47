/** What the reader accepts is a text of the grammar: from every successful parse the tree, its spelling and the gaps. */
module JsonAccepted {
  import opened Bytes
  import opened Events
  import opened Grammar
  import opened StringReading
  import opened JsonGaps
  import opened JsonLiterals
  import opened JsonText
  import Numbers

  // ----- putting a text together again -----

  /** A token, a gap, and a tight text. */
  function Before(gap: Text, g: seq<Text>): (h: seq<Text>)
    requires g != []
  {
    [[]] + ([gap] + g[1..])
  }

  lemma Led(f: Flags, s: Text, i: nat, gap: Text, g: seq<Text>, toks: seq<Text>)
    requires |g| == |toks| && toks != [] && AllGaps(f, g) && Gap(f, gap)
    requires At(s, i, gap) && At(s, i + |gap|, Tight(g, toks))
    ensures AllGaps(f, [gap] + g[1..]) && At(s, i, Spread([gap] + g[1..], toks))
    ensures |Spread([gap] + g[1..], toks)| == |gap| + |Tight(g, toks)|
  {
    hide Gap, Spread, At;
    assert ([gap] + g[1..])[1..] == g[1..];
    SpreadUnfolds([gap] + g[1..], toks);
    AtSplit(s, i, gap, Tight(g, toks));
  }

  lemma Joined(f: Flags, s: Text, i: nat, tok: Text, gap: Text, g: seq<Text>, rest: seq<Text>)
    requires |g| == |rest| && rest != [] && AllGaps(f, g) && Gap(f, gap)
    requires At(s, i, tok) && At(s, i + |tok|, gap) && At(s, i + |tok| + |gap|, Tight(g, rest))
    ensures var h := Before(gap, g);
      && |h| == |[tok] + rest| && AllGaps(f, h) && At(s, i, Tight(h, [tok] + rest))
      && |Tight(h, [tok] + rest)| == |tok| + |gap| + |Tight(g, rest)|
  {
    hide Gap, Spread, At;
    NoGap(f);
    Led(f, s, i + |tok|, gap, g, rest);
    var h := Before(gap, g);
    assert h[1..] == [gap] + g[1..] && ([tok] + rest)[1..] == rest;
    AtSplit(s, i, tok, Spread(h[1..], rest));
  }

  lemma NoGap(f: Flags)
    ensures Gap(f, [])
  {
  }

  /** Two stretches. */
  lemma Appended(f: Flags, s: Text, i: nat, g: seq<Text>, a: seq<Text>, h: seq<Text>, b: seq<Text>)
    requires |g| == |a| && a != [] && |h| == |b| && AllGaps(f, g) && AllGaps(f, h)
    requires At(s, i, Tight(g, a)) && At(s, i + |Tight(g, a)|, Spread(h, b))
    ensures AllGaps(f, g + h) && At(s, i, Tight(g + h, a + b))
    ensures |Tight(g + h, a + b)| == |Tight(g, a)| + |Spread(h, b)|
  {
    hide Gap, Spread, At, Tight;
    TightSplits(g + h, a, b);
    assert (g + h)[..|a|] == g && (g + h)[|a|..] == h;
    AtSplit(s, i, Tight(g, a), Spread(h, b));
  }

  lemma SkippedGap(f: Flags, s: Text, p: nat)
    requires p <= |s| && Skip(f, s, p).To? && Peek(s, Skip(f, s, p).pos) != 0
    ensures var q := Skip(f, s, p).pos; p <= q < |s| && Gap(f, s[p..q]) && At(s, p, s[p..q])
  {
    hide Gap, OpenLine, Skip;
    SkippedIsGap(f, s, p);
  }

  lemma AtOne(s: Text, i: nat, tok: Text)
    requires |tok| == 1 && i < |s| && s[i] == tok[0]
    ensures At(s, i, tok)
  {
    assert s[i..i + 1] == tok;
  }

  // ----- leaves -----

  lemma {:induction false} WordFound(s: Text, i: nat, w: Text)
    requires 0 !in w && i <= |s| && Matched(s, i, w) == |w|
    ensures At(s, i, w)
    decreases |w|
  {
    if w == [] {
      assert s[i..i] == w;
    } else {
      WordFound(s, i + 1, w[1..]);
      AtOne(s, i, [w[0]]);
      AtSplit(s, i, [w[0]], w[1..]);
      assert [w[0]] + w[1..] == w;
    }
  }

  lemma FoundWord(env: Env, s: Text, i: nat, trace: seq<Event>, w: Text, rest: Text, e: Event)
    requires w != [] && w[1..] == rest && 0 !in rest && i < |s| && s[i] == w[0] && ReadWord(env, s, i, trace, rest, e).Ok?
    ensures At(s, i, w) && ReadWord(env, s, i, trace, rest, e) == Ok(i + |w|, trace + [e])
  {
    hide At;
    WordFound(s, i + 1, rest);
    AtOne(s, i, [w[0]]);
    AtSplit(s, i, [w[0]], rest);
    assert [w[0]] + rest == w;
  }

  lemma FoundString(env: Env, s: Text, i: nat, trace: seq<Event>, isKey: bool) returns (w: Text, str: Text)
    requires i < |s| && s[i] == '"' as int && ReadString(env, s, i, trace, isKey).Ok?
    ensures StringText(env.flags, w, str) && At(s, i, w)
    ensures ReadString(env, s, i, trace, isKey) == Ok(i + |w|, trace + [if isKey then Key(str) else String(str)])
  {
    hide DecodeString;
    var r := DecodeString(env.flags, s, i + 1, []);
    w, str := s[i..r.next], r.str;
    StringAlone(env.flags, s, i, w, 1, []);
  }

  lemma FoundLeaf(env: Env, s: Text, i: nat, trace: seq<Event>) returns (w: Text, e: Event)
    requires i <= |s| && ReadLeaf(env, s, i, trace).Ok?
    ensures LeafText(env, w, e) && At(s, i, w) && ReadLeaf(env, s, i, trace) == Ok(i + |w|, trace + [e])
  {
    hide At, DecodeString, Numbers.ReadNumber, ReadWord, ReadString;
    var c := Peek(s, i);
    if c == 'n' as int {
      w, e := NULL_WORD, Null;
      FoundWord(env, s, i, trace, w, ULL, e);
    } else if c == 't' as int {
      w, e := TRUE_WORD, Bool(true);
      FoundWord(env, s, i, trace, w, RUE, e);
    } else if c == 'f' as int {
      w, e := FALSE_WORD, Bool(false);
      FoundWord(env, s, i, trace, w, ALSE, e);
    } else if c == '"' as int {
      var str;
      w, str := FoundString(env, s, i, trace, false);
      e := String(str);
    } else {
      w, e := FoundNumber(env, s, i, trace);
    }
  }

  lemma FoundNumber(env: Env, s: Text, i: nat, trace: seq<Event>) returns (w: Text, e: Event)
    requires i <= |s| && ReadNumber(env, s, i, trace).Ok?
    ensures IsNumberEvent(e) && NumberText(env.tooBig, w, e) && At(s, i, w)
    ensures ReadNumber(env, s, i, trace) == Ok(i + |w|, trace + [e])
  {
    hide Numbers.ReadNumber;
    var r := Numbers.ReadNumber(s, i, env.tooBig);
    w, e := s[i..r.next], r.event;
    NumberAlone(s, i, w, env.tooBig, e);
  }

  // ----- arrays -----

  /** A tree with its gaps at `i`, up to `end`, and what it adds to the events. */
  ghost predicate TreeAt(env: Env, s: Text, i: nat, t: Tree, g: seq<Text>, end: nat) {
    Well(env, t) && |g| == |Tokens(t)| && AllGaps(env.flags, g) && At(s, i, Tight(g, Tokens(t))) && end == i + |Tight(g, Tokens(t))|
  }

  ghost predicate ElementsAt(env: Env, s: Text, i: nat, elements: seq<Tree>, trailing: bool, g: seq<Text>, end: nat) {
    && elements != [] && ElementsWell(env, elements) && (trailing ==> env.flags.trailingCommas)
    && |g| == |ArrayRest(elements, trailing)| && AllGaps(env.flags, g)
    && At(s, i, Tight(g, ArrayRest(elements, trailing))) && end == i + |Tight(g, ArrayRest(elements, trailing))|
  }

  ghost predicate AfterElementAt(env: Env, s: Text, i: nat, elements: seq<Tree>, trailing: bool, g: seq<Text>, end: nat) {
    && ElementsWell(env, elements) && (trailing ==> env.flags.trailingCommas)
    && |g| == |AfterElement(elements, trailing)| && AllGaps(env.flags, g)
    && At(s, i, Spread(g, AfterElement(elements, trailing))) && end == i + |Spread(g, AfterElement(elements, trailing))|
  }

  lemma BracketAt(f: Flags, s: Text, q: nat, tok: Text)
    requires |tok| == 1 && q < |s| && s[q] == tok[0]
    ensures AllGaps(f, [[]]) && At(s, q, Tight([[]], [tok])) && |Tight([[]], [tok])| == 1
  {
    NoGap(f);
    TightOne([[]], tok);
    AtOne(s, q, tok);
  }

  /** The bracket behind the last element. */
  lemma ClosingAt(env: Env, s: Text, p: nat, q: nat) returns (g: seq<Text>)
    requires p <= q < |s| && Gap(env.flags, s[p..q]) && At(s, p, s[p..q]) && s[q] == ']' as int
    ensures AfterElementAt(env, s, p, [], false, g, q + 1)
  {
    hide Gap, At, Spread, Tight;
    BracketAt(env.flags, s, q, RIGHT_BRACKET);
    g := [s[p..q]] + [[]][1..];
    Led(env.flags, s, p, s[p..q], [[]], [RIGHT_BRACKET]);
    AfterElementIs([], false);
  }

  /** A comma, and what stands behind it. */
  lemma CommaAt(env: Env, s: Text, p: nat, q: nat, k: nat, elements: seq<Tree>, trailing: bool, h: seq<Text>, end: nat)
    returns (g: seq<Text>)
    requires p <= q < |s| && Gap(env.flags, s[p..q]) && At(s, p, s[p..q]) && s[q] == ',' as int
    requires q + 1 <= k <= |s| && Gap(env.flags, s[q + 1..k]) && At(s, q + 1, s[q + 1..k])
    requires ElementsWell(env, elements) && (trailing ==> env.flags.trailingCommas) && (elements != [] || trailing)
    requires |h| == |ArrayRest(elements, trailing)| && AllGaps(env.flags, h)
    requires At(s, k, Tight(h, ArrayRest(elements, trailing))) && end == k + |Tight(h, ArrayRest(elements, trailing))|
    ensures AfterElementAt(env, s, p, elements, trailing, g, end)
  {
    hide Gap, At, Spread, Tight, ArrayRest, AfterElement, ElementsWell;
    var rest := ArrayRest(elements, trailing);
    AtOne(s, q, COMMA);
    Joined(env.flags, s, q, COMMA, s[q + 1..k], h, rest);
    var h' := Before(s[q + 1..k], h);
    Led(env.flags, s, p, s[p..q], h', [COMMA] + rest);
    g := [s[p..q]] + h'[1..];
    AfterElementIs(elements, trailing);
  }

  lemma ArrayTailOk(env: Env, s: Text, p: nat, trace: seq<Event>, n: nat)
    requires p <= |s| && ElementTail(env, s, p, trace, n).Ok?
    ensures Skip(env.flags, s, p).To?
    ensures var q := Skip(env.flags, s, p).pos;
      && p <= q <= |s|
      && (Peek(s, q) != ',' as int ==>
            Peek(s, q) == ']' as int && ElementTail(env, s, p, trace, n) == Ok(q + 1, trace + [EndArray(Inc(n))]))
      && (Peek(s, q) == ',' as int ==> q < |s| && Skip(env.flags, s, q + 1).To?)
    ensures Peek(s, Skip(env.flags, s, p).pos) == ',' as int ==>
      var k := Skip(env.flags, s, Skip(env.flags, s, p).pos + 1).pos;
      && Skip(env.flags, s, p).pos < k <= |s|
      && ElementTail(env, s, p, trace, n) ==
           if env.flags.trailingCommas && Peek(s, k) == ']' as int then Ok(k + 1, trace + [EndArray(Inc(n))])
           else Elements(env, s, k, trace, Inc(n))
  {
    hide Skip, Elements;
    var q := Skip(env.flags, s, p).pos;
    assert ElementTail(env, s, p, trace, n) == ElementNext(env, s, q, trace, Inc(n));
    if Peek(s, q) == ',' as int {
      var k := Skip(env.flags, s, q + 1).pos;
      assert ElementNext(env, s, q, trace, Inc(n)) == AfterComma(env, s, k, trace, Inc(n));
    }
  }

  lemma ElementsHead(env: Env, s: Text, k: nat, trace: seq<Event>, n: nat)
    requires k <= |s| && Elements(env, s, k, trace, n).Ok?
    ensures ReadValue(env, s, k, trace).Ok? && Peek(s, k) != 0
    ensures var o := ReadValue(env, s, k, trace); k < o.pos && Elements(env, s, k, trace, n) == ElementTail(env, s, o.pos, o.trace, n)
  {
    hide ElementTail, ReadArray, ReadObject;
    if Peek(s, k) == 0 {
      NulIsNoValue(env, s, k, trace);
    }
  }

  lemma ElementsStart(env: Env, s: Text, k: nat, trace: seq<Event>, n: nat)
    requires k <= |s| && Elements(env, s, k, trace, n).Ok?
    ensures Peek(s, k) != 0
  {
    hide Elements, ReadValue, ElementTail;
    ElementsHead(env, s, k, trace, n);
  }

  lemma NulIsNoValue(env: Env, s: Text, k: nat, trace: seq<Event>)
    requires k <= |s| && Peek(s, k) == 0
    ensures ReadValue(env, s, k, trace).Fail?
  {
    hide ReadArray, ReadObject, FromInteger, Numbers.ReadNumber;
    NumberIs(s, k, env.tooBig);
  }

  lemma {:induction false} FoundAfterElement(env: Env, s: Text, p: nat, trace: seq<Event>, n: nat)
    returns (elements: seq<Tree>, trailing: bool, g: seq<Text>)
    requires p <= |s| && n < 0x1_0000_0000 && ElementTail(env, s, p, trace, n).Ok?
    ensures AfterElementAt(env, s, p, elements, trailing, g, ElementTail(env, s, p, trace, n).pos)
    ensures ElementTail(env, s, p, trace, n).trace
         == trace + ElementEvents(elements) + [EndArray((n + 1 + |elements|) % 0x1_0000_0000)]
    decreases |s| - p, 1
  {
    hide Gap, At, Skip, Elements, ElementTail, AfterElementAt, ArrayRest, Spread, Tight, ElementsWell, ElementEvents, Inc,
      ElementTokens, AllGaps;
    ArrayTailOk(env, s, p, trace, n);
    SkippedGap(env.flags, s, p);
    NoElements(env, trace);
    Counted(n, 0);
    var q := Skip(env.flags, s, p).pos;
    if Peek(s, q) != ',' as int {
      elements, trailing := [], false;
      g := ClosingAt(env, s, p, q);
    } else {
      var k := Skip(env.flags, s, q + 1).pos;
      var end := ElementTail(env, s, p, trace, n).pos;
      if env.flags.trailingCommas && Peek(s, k) == ']' as int {
        SkippedGap(env.flags, s, q + 1);
        elements, trailing := [], true;
        BracketAt(env.flags, s, k, RIGHT_BRACKET);
        ArrayRestHead(env, [], true);
        g := CommaAt(env, s, p, q, k, [], true, [[]], end);
      } else {
        ElementsStart(env, s, k, trace, Inc(n));
        SkippedGap(env.flags, s, q + 1);
        var h;
        elements, trailing, h := FoundElements(env, s, k, trace, Inc(n));
        g := CommaAt(env, s, p, q, k, elements, trailing, h, end);
        Counted(n, |elements|);
      }
    }
  }

  lemma Counted(n: nat, m: nat)
    ensures Inc(n) < 0x1_0000_0000 && Inc(n) == (n + 1) % 0x1_0000_0000 && (Inc(n) + m) % 0x1_0000_0000 == (n + 1 + m) % 0x1_0000_0000
  {
  }

  lemma NoElements(env: Env, trace: seq<Event>)
    ensures ElementsWell(env, []) && PairsWell(env, []) && trace + ElementEvents([]) == trace == trace + PairEvents([])
  {
  }

  lemma {:induction false} FoundElements(env: Env, s: Text, i: nat, trace: seq<Event>, n: nat)
    returns (elements: seq<Tree>, trailing: bool, g: seq<Text>)
    requires i <= |s| && n < 0x1_0000_0000 && Elements(env, s, i, trace, n).Ok?
    ensures ElementsAt(env, s, i, elements, trailing, g, Elements(env, s, i, trace, n).pos)
    ensures Elements(env, s, i, trace, n).trace
         == trace + ElementEvents(elements) + [EndArray((n + |elements|) % 0x1_0000_0000)]
    decreases |s| - i, 2
  {
    hide Gap, At, Skip, Elements, ElementTail, ArrayRest, AfterElement, Spread, Tight, Well, Tokens, TreeEvents, ReadValue;
    ElementsHead(env, s, i, trace, n);
    var o := ReadValue(env, s, i, trace);
    var t, g0 := FoundTree(env, s, i, trace);
    var rest, g1;
    rest, trailing, g1 := FoundAfterElement(env, s, o.pos, o.trace, n);
    elements, g := [t] + rest, g0 + g1;
    assert elements[1..] == rest;
    ArrayRestUnfolds(elements, trailing);
    Appended(env.flags, s, i, g0, Tokens(t), g1, AfterElement(rest, trailing));
    Grouped(trace, TreeEvents(t), ElementEvents(rest), EndArray((n + |elements|) % 0x1_0000_0000));
  }

  lemma ArrayOk(env: Env, s: Text, i: nat, trace: seq<Event>)
    requires i < |s| && Peek(s, i) == '[' as int && ReadValue(env, s, i, trace).Ok?
    ensures Skip(env.flags, s, i + 1).To?
    ensures var q, r := Skip(env.flags, s, i + 1).pos, ReadValue(env, s, i, trace);
      && i < q <= |s|
      && if Peek(s, q) == ']' as int then r == Ok(q + 1, trace + [StartArray] + [EndArray(0)])
         else r == Elements(env, s, q, trace + [StartArray], 0)
  {
    hide Skip, Elements;
    assert ReadValue(env, s, i, trace) == ReadArray(env, s, i, trace);
    var q := Skip(env.flags, s, i + 1).pos;
    assert ReadArray(env, s, i, trace) == ArrayBody(env, s, q, trace + [StartArray]);
  }

  /** The tree that was read. */
  lemma {:induction false} FoundTree(env: Env, s: Text, i: nat, trace: seq<Event>) returns (t: Tree, g: seq<Text>)
    requires i <= |s| && ReadValue(env, s, i, trace).Ok?
    ensures TreeAt(env, s, i, t, g, ReadValue(env, s, i, trace).pos)
    ensures ReadValue(env, s, i, trace).trace == trace + TreeEvents(t)
    decreases |s| - i, 1
  {
    hide Gap, At, Skip, ReadArray, ReadObject, ReadLeaf, Spread, Tight, LeafText, ElementTokens, PairTokens;
    if Peek(s, i) == '{' as int {
      t, g := FoundObject(env, s, i, trace);
    } else if Peek(s, i) == '[' as int {
      t, g := FoundArray(env, s, i, trace);
    } else {
      var w, e := FoundLeaf(env, s, i, trace);
      t, g := Leaf(w, e), [[]];
      TightOne([[]], w);
      NoGap(env.flags);
    }
  }

  lemma {:induction false} FoundArray(env: Env, s: Text, i: nat, trace: seq<Event>) returns (t: Tree, g: seq<Text>)
    requires i < |s| && Peek(s, i) == '[' as int && ReadValue(env, s, i, trace).Ok?
    ensures TreeAt(env, s, i, t, g, ReadValue(env, s, i, trace).pos)
    ensures ReadValue(env, s, i, trace).trace == trace + TreeEvents(t)
    decreases |s| - i, 0
  {
    hide Gap, At, Skip, ReadValue, Spread, Tight, ElementTokens, Elements, ElementsWell, ElementEvents;
    ArrayOk(env, s, i, trace);
    var q := Skip(env.flags, s, i + 1).pos;
    AtOne(s, i, LEFT_BRACKET);
    if Peek(s, q) == ']' as int {
      NoElements(env, trace);
      SkippedGap(env.flags, s, i + 1);
      BracketAt(env.flags, s, q, RIGHT_BRACKET);
      t, g := ArrayTree([], false), Before(s[i + 1..q], [[]]);
      Joined(env.flags, s, i, LEFT_BRACKET, s[i + 1..q], [[]], [RIGHT_BRACKET]);
      ArrayRestHead(env, [], false);
      assert Tokens(t) == [LEFT_BRACKET] + [RIGHT_BRACKET];
      assert ElementEvents([]) == [] by { EmptyEvents(); }
      Wrapped(trace, StartArray, [], EndArray(0));
    } else {
      ElementsStart(env, s, q, trace + [StartArray], 0);
      SkippedGap(env.flags, s, i + 1);
      var elements, trailing, h := FoundElements(env, s, q, trace + [StartArray], 0);
      t, g := ArrayTree(elements, trailing), Before(s[i + 1..q], h);
      Joined(env.flags, s, i, LEFT_BRACKET, s[i + 1..q], h, ArrayRest(elements, trailing));
      assert Tokens(t) == [LEFT_BRACKET] + ArrayRest(elements, trailing);
      Wrapped(trace, StartArray, ElementEvents(elements), EndArray(|elements| % 0x1_0000_0000));
    }
  }

  // ----- objects -----

  ghost predicate PairsAt(env: Env, s: Text, i: nat, pairs: seq<Pair>, trailing: bool, g: seq<Text>, end: nat) {
    && pairs != [] && PairsWell(env, pairs) && (trailing ==> env.flags.trailingCommas)
    && |g| == |ObjectRest(pairs, trailing)| && AllGaps(env.flags, g)
    && At(s, i, Tight(g, ObjectRest(pairs, trailing))) && end == i + |Tight(g, ObjectRest(pairs, trailing))|
  }

  ghost predicate AfterPairAt(env: Env, s: Text, i: nat, pairs: seq<Pair>, trailing: bool, g: seq<Text>, end: nat) {
    && PairsWell(env, pairs) && (trailing ==> env.flags.trailingCommas)
    && |g| == |AfterPair(pairs, trailing)| && AllGaps(env.flags, g)
    && At(s, i, Spread(g, AfterPair(pairs, trailing))) && end == i + |Spread(g, AfterPair(pairs, trailing))|
  }

  lemma ClosingCurlyAt(env: Env, s: Text, p: nat, q: nat) returns (g: seq<Text>)
    requires p <= q < |s| && Gap(env.flags, s[p..q]) && At(s, p, s[p..q]) && s[q] == '}' as int
    ensures AfterPairAt(env, s, p, [], false, g, q + 1)
  {
    hide Gap, At, Spread, Tight;
    BracketAt(env.flags, s, q, RIGHT_CURLY);
    g := [s[p..q]] + [[]][1..];
    Led(env.flags, s, p, s[p..q], [[]], [RIGHT_CURLY]);
    AfterPairIs([], false);
  }

  lemma MemberCommaAt(env: Env, s: Text, p: nat, q: nat, k: nat, pairs: seq<Pair>, trailing: bool, h: seq<Text>, end: nat)
    returns (g: seq<Text>)
    requires p <= q < |s| && Gap(env.flags, s[p..q]) && At(s, p, s[p..q]) && s[q] == ',' as int
    requires q + 1 <= k <= |s| && Gap(env.flags, s[q + 1..k]) && At(s, q + 1, s[q + 1..k])
    requires PairsWell(env, pairs) && (trailing ==> env.flags.trailingCommas) && (pairs != [] || trailing)
    requires |h| == |ObjectRest(pairs, trailing)| && AllGaps(env.flags, h)
    requires At(s, k, Tight(h, ObjectRest(pairs, trailing))) && end == k + |Tight(h, ObjectRest(pairs, trailing))|
    ensures AfterPairAt(env, s, p, pairs, trailing, g, end)
  {
    hide Gap, At, Spread, Tight, ObjectRest, AfterPair, PairsWell;
    var rest := ObjectRest(pairs, trailing);
    AtOne(s, q, COMMA);
    Joined(env.flags, s, q, COMMA, s[q + 1..k], h, rest);
    var h' := Before(s[q + 1..k], h);
    Led(env.flags, s, p, s[p..q], h', [COMMA] + rest);
    g := [s[p..q]] + h'[1..];
    AfterPairIs(pairs, trailing);
  }

  lemma ObjectTailOk(env: Env, s: Text, p: nat, trace: seq<Event>, n: nat)
    requires p <= |s| && MemberTail(env, s, p, trace, n).Ok?
    ensures Skip(env.flags, s, p).To?
    ensures var q := Skip(env.flags, s, p).pos;
      && p <= q <= |s|
      && (Peek(s, q) != ',' as int ==>
            Peek(s, q) == '}' as int && MemberTail(env, s, p, trace, n) == Ok(q + 1, trace + [EndObject(Inc(n))]))
      && (Peek(s, q) == ',' as int ==> q < |s| && Skip(env.flags, s, q + 1).To?)
    ensures Peek(s, Skip(env.flags, s, p).pos) == ',' as int ==>
      var k := Skip(env.flags, s, Skip(env.flags, s, p).pos + 1).pos;
      && Skip(env.flags, s, p).pos < k <= |s|
      && MemberTail(env, s, p, trace, n) ==
           if env.flags.trailingCommas && Peek(s, k) == '}' as int then Ok(k + 1, trace + [EndObject(Inc(n))])
           else Members(env, s, k, trace, Inc(n))
  {
    hide Skip, Members;
    var q := Skip(env.flags, s, p).pos;
    assert MemberTail(env, s, p, trace, n) == MemberNext(env, s, q, trace, Inc(n));
    if Peek(s, q) == ',' as int {
      var k := Skip(env.flags, s, q + 1).pos;
      assert MemberNext(env, s, q, trace, Inc(n)) == AfterMemberComma(env, s, k, trace, Inc(n));
    }
  }

  /** The parts of a member that was read. */
  lemma MembersOk(env: Env, s: Text, i: nat, trace: seq<Event>, n: nat) returns (p: nat, q: nat, k: nat, t: seq<Event>)
    requires i <= |s| && Members(env, s, i, trace, n).Ok?
    ensures i < p <= q < |s| && q < k <= |s| && s[i] == '"' as int && ReadString(env, s, i, trace, true) == Ok(p, t)
    ensures Skip(env.flags, s, p) == To(q) && s[q] == ':' as int && Skip(env.flags, s, q + 1) == To(k) && Peek(s, k) != 0
    ensures ReadValue(env, s, k, t).Ok? && k < ReadValue(env, s, k, t).pos
    ensures Members(env, s, i, trace, n) == MemberTail(env, s, ReadValue(env, s, k, t).pos, ReadValue(env, s, k, t).trace, n)
  {
    hide Skip, ReadString, ReadValue, MemberTail;
    p, t := ReadString(env, s, i, trace, true).pos, ReadString(env, s, i, trace, true).trace;
    q := Skip(env.flags, s, p).pos;
    assert Members(env, s, i, trace, n) == MemberColon(env, s, q, t, n);
    k := Skip(env.flags, s, q + 1).pos;
    assert MemberColon(env, s, q, t, n) == ValueOfMember(env, s, k, t, n);
    if Peek(s, k) == 0 {
      NulIsNoValue(env, s, k, t);
    }
  }

  lemma {:induction false} FoundAfterPair(env: Env, s: Text, p: nat, trace: seq<Event>, n: nat)
    returns (pairs: seq<Pair>, trailing: bool, g: seq<Text>)
    requires p <= |s| && n < 0x1_0000_0000 && MemberTail(env, s, p, trace, n).Ok?
    ensures AfterPairAt(env, s, p, pairs, trailing, g, MemberTail(env, s, p, trace, n).pos)
    ensures MemberTail(env, s, p, trace, n).trace
         == trace + PairEvents(pairs) + [EndObject((n + 1 + |pairs|) % 0x1_0000_0000)]
    decreases |s| - p, 1
  {
    hide Gap, At, Skip, Members, MemberTail, AfterPairAt, ObjectRest, Spread, Tight, PairsWell, PairEvents, Inc, PairTokens,
      AllGaps;
    ObjectTailOk(env, s, p, trace, n);
    SkippedGap(env.flags, s, p);
    NoElements(env, trace);
    Counted(n, 0);
    var q := Skip(env.flags, s, p).pos;
    if Peek(s, q) != ',' as int {
      pairs, trailing := [], false;
      g := ClosingCurlyAt(env, s, p, q);
    } else {
      var k := Skip(env.flags, s, q + 1).pos;
      var end := MemberTail(env, s, p, trace, n).pos;
      if env.flags.trailingCommas && Peek(s, k) == '}' as int {
        SkippedGap(env.flags, s, q + 1);
        pairs, trailing := [], true;
        BracketAt(env.flags, s, k, RIGHT_CURLY);
        ObjectRestHead(env, [], true);
        g := MemberCommaAt(env, s, p, q, k, [], true, [[]], end);
      } else {
        MembersStart(env, s, k, trace, Inc(n));
        SkippedGap(env.flags, s, q + 1);
        var h;
        pairs, trailing, h := FoundPairs(env, s, k, trace, Inc(n));
        g := MemberCommaAt(env, s, p, q, k, pairs, trailing, h, end);
        Counted(n, |pairs|);
      }
    }
  }

  lemma MembersStart(env: Env, s: Text, k: nat, trace: seq<Event>, n: nat)
    requires k <= |s| && Members(env, s, k, trace, n).Ok?
    ensures Peek(s, k) != 0
  {
    hide ReadString, Skip, MemberColon;
  }

  /** The name, the colon and the value. */
  lemma PairAt(env: Env, s: Text, i: nat, w: Text, q: nat, k: nat, toks: seq<Text>, h: seq<Text>) returns (g: seq<Text>)
    requires At(s, i, w) && i + |w| <= q < |s| && s[q] == ':' as int && q < k <= |s|
    requires Gap(env.flags, s[i + |w|..q]) && At(s, i + |w|, s[i + |w|..q])
    requires Gap(env.flags, s[q + 1..k]) && At(s, q + 1, s[q + 1..k])
    requires |h| == |toks| && toks != [] && AllGaps(env.flags, h) && At(s, k, Tight(h, toks))
    ensures |g| == |[w, COLON] + toks| && AllGaps(env.flags, g) && At(s, i, Tight(g, [w, COLON] + toks))
    ensures i + |Tight(g, [w, COLON] + toks)| == k + |Tight(h, toks)|
  {
    hide Gap, At, Spread, Tight;
    AtOne(s, q, COLON);
    Joined(env.flags, s, q, COLON, s[q + 1..k], h, toks);
    var h' := Before(s[q + 1..k], h);
    Joined(env.flags, s, i, w, s[i + |w|..q], h', [COLON] + toks);
    g := Before(s[i + |w|..q], h');
    assert [w] + ([COLON] + toks) == [w, COLON] + toks;
  }

  lemma {:induction false} FoundPairs(env: Env, s: Text, i: nat, trace: seq<Event>, n: nat)
    returns (pairs: seq<Pair>, trailing: bool, g: seq<Text>)
    requires i <= |s| && n < 0x1_0000_0000 && Members(env, s, i, trace, n).Ok?
    ensures PairsAt(env, s, i, pairs, trailing, g, Members(env, s, i, trace, n).pos)
    ensures Members(env, s, i, trace, n).trace
         == trace + PairEvents(pairs) + [EndObject((n + |pairs|) % 0x1_0000_0000)]
    decreases |s| - i, 2
  {
    hide Gap, At, Skip, Members, MemberTail, ObjectRest, AfterPair, Spread, Tight, Well, Tokens, TreeEvents, ReadValue, ReadString, StringText;
    var p, q, k, _ := MembersOk(env, s, i, trace, n);
    var w, name := FoundString(env, s, i, trace, true);
    SkippedGap(env.flags, s, p);
    SkippedGap(env.flags, s, q + 1);
    var keyed := trace + [Key(name)];
    var o := ReadValue(env, s, k, keyed);
    var t, g0 := FoundTree(env, s, k, keyed);
    var rest, g1;
    rest, trailing, g1 := FoundAfterPair(env, s, o.pos, o.trace, n);
    pairs := [Pair(w, name, t)] + rest;
    assert pairs[1..] == rest;
    Appended(env.flags, s, k, g0, Tokens(t), g1, AfterPair(rest, trailing));
    g := PairAt(env, s, i, w, q, k, Tokens(t) + AfterPair(rest, trailing), g0 + g1);
    ObjectRestUnfolds(pairs, trailing);
    assert keyed + TreeEvents(t) == trace + ([Key(name)] + TreeEvents(t));
    Grouped(trace, [Key(name)] + TreeEvents(t), PairEvents(rest), EndObject((n + |pairs|) % 0x1_0000_0000));
  }

  lemma ObjectOk(env: Env, s: Text, i: nat, trace: seq<Event>)
    requires i < |s| && Peek(s, i) == '{' as int && ReadValue(env, s, i, trace).Ok?
    ensures Skip(env.flags, s, i + 1).To?
    ensures var q, r := Skip(env.flags, s, i + 1).pos, ReadValue(env, s, i, trace);
      && i < q <= |s|
      && if Peek(s, q) == '}' as int then r == Ok(q + 1, trace + [StartObject] + [EndObject(0)])
         else r == Members(env, s, q, trace + [StartObject], 0)
  {
    hide Skip, Members;
    assert ReadValue(env, s, i, trace) == ReadObject(env, s, i, trace);
    var q := Skip(env.flags, s, i + 1).pos;
    assert ReadObject(env, s, i, trace) == ObjectBody(env, s, q, trace + [StartObject]);
  }

  lemma {:induction false} FoundObject(env: Env, s: Text, i: nat, trace: seq<Event>) returns (t: Tree, g: seq<Text>)
    requires i < |s| && Peek(s, i) == '{' as int && ReadValue(env, s, i, trace).Ok?
    ensures TreeAt(env, s, i, t, g, ReadValue(env, s, i, trace).pos)
    ensures ReadValue(env, s, i, trace).trace == trace + TreeEvents(t)
    decreases |s| - i, 0
  {
    hide Gap, At, Skip, ReadValue, Spread, Tight, PairTokens, Members, PairsWell, PairEvents;
    ObjectOk(env, s, i, trace);
    var q := Skip(env.flags, s, i + 1).pos;
    AtOne(s, i, LEFT_CURLY);
    if Peek(s, q) == '}' as int {
      NoElements(env, trace);
      SkippedGap(env.flags, s, i + 1);
      BracketAt(env.flags, s, q, RIGHT_CURLY);
      t, g := ObjectTree([], false), Before(s[i + 1..q], [[]]);
      Joined(env.flags, s, i, LEFT_CURLY, s[i + 1..q], [[]], [RIGHT_CURLY]);
      ObjectRestHead(env, [], false);
      assert Tokens(t) == [LEFT_CURLY] + [RIGHT_CURLY];
      assert PairEvents([]) == [] by { EmptyEvents(); }
      Wrapped(trace, StartObject, [], EndObject(0));
    } else {
      MembersStart(env, s, q, trace + [StartObject], 0);
      SkippedGap(env.flags, s, i + 1);
      var pairs, trailing, h := FoundPairs(env, s, q, trace + [StartObject], 0);
      t, g := ObjectTree(pairs, trailing), Before(s[i + 1..q], h);
      Joined(env.flags, s, i, LEFT_CURLY, s[i + 1..q], h, ObjectRest(pairs, trailing));
      assert Tokens(t) == [LEFT_CURLY] + ObjectRest(pairs, trailing);
      Wrapped(trace, StartObject, PairEvents(pairs), EndObject(|pairs| % 0x1_0000_0000));
    }
  }
}
