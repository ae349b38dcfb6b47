/** The texts the reader accepts, written down without it: trees of literals, brackets, commas and colons, and gaps
    between them (RFC 8259, section 2, with the comments and trailing commas that the flags admit). */
module JsonText {
  import opened Bytes
  import opened Events
  import opened Grammar
  import opened StringReading
  import opened JsonGaps
  import opened JsonLiterals
  import Decimal
  import Numbers

  // ----- trees -----

  /** A value as it is spelled. `trailing` says whether a comma stands behind the last child. */
  datatype Tree =
    | Leaf(text: Text, event: Event)
    | ArrayTree(elements: seq<Tree>, trailing: bool)
    | ObjectTree(pairs: seq<Pair>, trailing: bool)

  /** A name as it is spelled and as it reads, and its value. */
  datatype Pair = Pair(text: Text, name: Text, value: Tree)

  const LEFT_BRACKET: Text := ['[' as int]
  const RIGHT_BRACKET: Text := [']' as int]
  const LEFT_CURLY: Text := ['{' as int]
  const RIGHT_CURLY: Text := ['}' as int]
  const COMMA: Text := [',' as int]
  const COLON: Text := [':' as int]

  const NULL_WORD: Text := ['n' as int, 'u' as int, 'l' as int, 'l' as int]
  const TRUE_WORD: Text := ['t' as int, 'r' as int, 'u' as int, 'e' as int]
  const FALSE_WORD: Text := ['f' as int, 'a' as int, 'l' as int, 's' as int, 'e' as int]

  predicate LeafText(env: Env, text: Text, e: Event) {
    || (text == NULL_WORD && e == Null)
    || (text == TRUE_WORD && e == Bool(true))
    || (text == FALSE_WORD && e == Bool(false))
    || (e.String? && StringText(env.flags, text, e.str))
    || (IsNumberEvent(e) && NumberText(env.tooBig, text, e))
  }

  predicate Well(env: Env, t: Tree)
    decreases t, 0
  {
    match t
    case Leaf(text, e) => LeafText(env, text, e)
    case ArrayTree(elements, trailing) =>
      (trailing ==> env.flags.trailingCommas && elements != []) && ElementsWell(env, elements)
    case ObjectTree(pairs, trailing) => (trailing ==> env.flags.trailingCommas && pairs != []) && PairsWell(env, pairs)
  }

  predicate ElementsWell(env: Env, elements: seq<Tree>)
    decreases elements, 1
  {
    elements == [] || (Well(env, elements[0]) && ElementsWell(env, elements[1..]))
  }

  predicate PairsWell(env: Env, pairs: seq<Pair>)
    decreases pairs, 1
  {
    pairs == []
    || (StringText(env.flags, pairs[0].text, pairs[0].name) && Well(env, pairs[0].value) && PairsWell(env, pairs[1..]))
  }

  /** The tokens in order. */
  function Tokens(t: Tree): (r: seq<Text>)
    ensures r != []
    decreases t, 0
  {
    match t
    case Leaf(text, _) => [text]
    case ArrayTree(elements, trailing) => [LEFT_BRACKET] + ElementTokens(elements, trailing) + [RIGHT_BRACKET]
    case ObjectTree(pairs, trailing) => [LEFT_CURLY] + PairTokens(pairs, trailing) + [RIGHT_CURLY]
  }

  function CommaIf(more: bool): (r: seq<Text>) { if more then [COMMA] else [] }

  function ElementTokens(elements: seq<Tree>, trailing: bool): (r: seq<Text>)
    ensures elements == [] <==> r == []
    decreases elements, 1
  {
    if elements == [] then []
    else Tokens(elements[0]) + CommaIf(|elements| > 1 || trailing) + ElementTokens(elements[1..], trailing)
  }

  function PairTokens(pairs: seq<Pair>, trailing: bool): (r: seq<Text>)
    ensures pairs == [] <==> r == []
    decreases pairs, 1
  {
    if pairs == [] then []
    else
      [pairs[0].text] + ([COLON]
      + (Tokens(pairs[0].value) + CommaIf(|pairs| > 1 || trailing) + PairTokens(pairs[1..], trailing)))
  }

  /** The events in order, counts in 32 bits. */
  function TreeEvents(t: Tree): (r: seq<Event>)
    decreases t, 0
  {
    match t
    case Leaf(_, e) => [e]
    case ArrayTree(elements, _) => [StartArray] + ElementEvents(elements) + [EndArray(|elements| % 0x1_0000_0000)]
    case ObjectTree(pairs, _) => [StartObject] + PairEvents(pairs) + [EndObject(|pairs| % 0x1_0000_0000)]
  }

  function ElementEvents(elements: seq<Tree>): (r: seq<Event>)
    decreases elements, 1
  {
    if elements == [] then [] else TreeEvents(elements[0]) + ElementEvents(elements[1..])
  }

  function PairEvents(pairs: seq<Pair>): (r: seq<Event>)
    decreases pairs, 1
  {
    if pairs == [] then [] else [Key(pairs[0].name)] + TreeEvents(pairs[0].value) + PairEvents(pairs[1..])
  }

  /** The tokens with a gap in front of each. */
  function Spread(gaps: seq<Text>, toks: seq<Text>): (w: Text)
    requires |gaps| == |toks|
  {
    if toks == [] then [] else gaps[0] + toks[0] + Spread(gaps[1..], toks[1..])
  }

  ghost predicate AllGaps(f: Flags, gaps: seq<Text>) { forall k :: 0 <= k < |gaps| ==> Gap(f, gaps[k]) }

  lemma {:induction false} SpreadSplits(g: seq<Text>, a: seq<Text>, b: seq<Text>)
    requires |g| == |a| + |b|
    ensures Spread(g, a + b) == Spread(g[..|a|], a) + Spread(g[|a|..], b)
    decreases |a|
  {
    if a == [] {
      assert a + b == b && g[0..] == g;
    } else {
      assert (a + b)[0] == a[0] && (a + b)[1..] == a[1..] + b;
      SpreadSplits(g[1..], a[1..], b);
      assert g[1..][..|a| - 1] == g[..|a|][1..] && g[1..][|a| - 1..] == g[|a|..];
    }
  }

  lemma SpreadOne(g: Text, tok: Text)
    ensures Spread([g], [tok]) == g + tok
  {
    assert [g][1..] == [] && [tok][1..] == [];
    assert Spread([], []) == [];
  }

  /** The same without the first gap. */
  function Tight(gaps: seq<Text>, toks: seq<Text>): (w: Text)
    requires |gaps| == |toks| && toks != []
  {
    toks[0] + Spread(gaps[1..], toks[1..])
  }

  lemma SpreadUnfolds(g: seq<Text>, toks: seq<Text>)
    requires |g| == |toks| && toks != []
    ensures Spread(g, toks) == g[0] + Tight(g, toks) && Tight(g, toks) == toks[0] + Spread(g[1..], toks[1..])
  {
  }

  lemma TightSplits(g: seq<Text>, a: seq<Text>, b: seq<Text>)
    requires |g| == |a| + |b| && a != []
    ensures Tight(g, a + b) == Tight(g[..|a|], a) + Spread(g[|a|..], b)
  {
    hide Spread;
    var a', g' := a[1..], g[1..];
    assert (a + b)[1..] == a' + b;
    SpreadSplits(g', a', b);
    assert g'[..|a'|] == g[..|a|][1..] && g'[|a'|..] == g[|a|..];
  }

  // ----- a spread text is read -----

  /** A byte a token other than a bracket, comma or colon begins with. */
  predicate Begins(c: Byte) { Starts(c) && c != ']' as int && c != '}' as int }

  predicate Starts(c: Byte) { !BlankByte(c) && c != '/' as int && c != 0 }

  /** From behind one token over the gap to the next. */
  lemma NextToken(f: Flags, s: Text, i: nat, g: seq<Text>, toks: seq<Text>)
    requires |g| == |toks| && toks != [] && toks[0] != [] && Starts(toks[0][0]) && AllGaps(f, g)
    requires At(s, i, Spread(g, toks))
    ensures var q := i + |g[0]|;
      && Skip(f, s, i) == To(q) && q < |s| && Peek(s, q) == toks[0][0]
      && At(s, q, Tight(g, toks)) && q + |Tight(g, toks)| == i + |Spread(g, toks)|
  {
    hide At, Gap, Skip;
    var w := Tight(g, toks);
    assert Spread(g, toks) == g[0] + w;
    AtSplit(s, i, g[0], w);
    AtByte(s, i + |g[0]|, w, 0);
    SkipsGap(f, s, i, g[0]);
  }

  /** Over one token. */
  lemma PastToken(s: Text, i: nat, g: seq<Text>, toks: seq<Text>)
    requires |g| == |toks| && toks != [] && At(s, i, Tight(g, toks))
    ensures At(s, i, toks[0]) && At(s, i + |toks[0]|, Spread(g[1..], toks[1..])) && i + |toks[0]| <= |s|
  {
    AtSplit(s, i, toks[0], Spread(g[1..], toks[1..]));
  }

  lemma GapsSplit(f: Flags, g: seq<Text>, n: nat)
    requires AllGaps(f, g) && n <= |g|
    ensures AllGaps(f, g[..n]) && AllGaps(f, g[n..]) && (n < |g| ==> Gap(f, g[n]))
  {
    hide Gap;
  }

  /** Over one token and the gap behind it. */
  lemma StepsOver(f: Flags, s: Text, i: nat, g: seq<Text>, tok: Text, rest: seq<Text>)
    requires |g| == 1 + |rest| && rest != [] && rest[0] != [] && Starts(rest[0][0]) && AllGaps(f, g)
    requires At(s, i, Tight(g, [tok] + rest))
    ensures var q, k := i + |tok|, i + |tok| + |g[1]|;
      && q <= |s| && At(s, i, tok) && Skip(f, s, q) == To(k) && k < |s| && Peek(s, k) == rest[0][0] && AllGaps(f, g[1..])
      && At(s, k, Tight(g[1..], rest)) && k + |Tight(g[1..], rest)| == i + |Tight(g, [tok] + rest)|
  {
    hide At, Gap, Skip, Spread, Tight, AllGaps;
    var toks := [tok] + rest;
    assert toks[1..] == rest;
    SpreadUnfolds(g, toks);
    PastToken(s, i, g, toks);
    GapsSplit(f, g, 1);
    NextToken(f, s, i + |tok|, g[1..], rest);
  }

  /** What follows a value ends a number. */
  lemma GapEnds(f: Flags, s: Text, i: nat, g: seq<Text>, toks: seq<Text>)
    requires |g| == |toks| && toks != [] && AllGaps(f, g) && At(s, i, Spread(g, toks))
    requires toks[0] == COMMA || toks[0] == RIGHT_BRACKET || toks[0] == RIGHT_CURLY
    ensures Decimal.EndsNumber(Peek(s, i))
  {
    hide At, Gap, Spread, Tight, AllGaps;
    SpreadUnfolds(g, toks);
    GapsSplit(f, g, 0);
    var w := Spread(g, toks);
    AtByte(s, i, w, 0);
    if g[0] != [] {
      GapHead(f, g[0]);
    }
  }

  /** The tokens of one child, and those behind it. */
  lemma ChildAndRest(f: Flags, s: Text, i: nat, g: seq<Text>, first: seq<Text>, rest: seq<Text>)
    requires |g| == |first| + |rest| && first != [] && rest != [] && AllGaps(f, g) && At(s, i, Tight(g, first + rest))
    requires rest[0] == COMMA || rest[0] == RIGHT_BRACKET || rest[0] == RIGHT_CURLY
    ensures var g0, g1 := g[..|first|], g[|first|..];
      var p := i + |Tight(g0, first)|;
      && AllGaps(f, g0) && AllGaps(f, g1) && At(s, i, Tight(g0, first)) && At(s, p, Spread(g1, rest))
      && Decimal.EndsNumber(Peek(s, p)) && p + |Spread(g1, rest)| == i + |Tight(g, first + rest)|
  {
    hide At, Spread, Tight, Gap, AllGaps;
    var g0, g1 := g[..|first|], g[|first|..];
    GapsSplit(f, g, |first|);
    TightSplits(g, first, rest);
    AtSplit(s, i, Tight(g0, first), Spread(g1, rest));
    GapEnds(f, s, i + |Tight(g0, first)|, g1, rest);
  }

  lemma LeafHead(env: Env, text: Text, e: Event)
    requires LeafText(env, text, e)
    ensures text != [] && Begins(text[0]) && text[0] != '[' as int && text[0] != '{' as int
  {
    hide Numbers.ReadNumber, FromInteger;
    if IsNumberEvent(e) && NumberText(env.tooBig, text, e) {
      NumberIs(text, 0, env.tooBig);
    }
  }

  lemma TreeHead(env: Env, t: Tree)
    requires Well(env, t)
    ensures var c := Tokens(t)[0]; c != [] && Begins(c[0])
    ensures t.Leaf? ==> var c := Tokens(t)[0]; c[0] != '[' as int && c[0] != '{' as int
  {
    hide LeafText;
    if t.Leaf? {
      LeafHead(env, t.text, t.event);
    }
  }

  lemma ReadsWordAt(env: Env, s: Text, i: nat, trace: seq<Event>, w: Text, rest: Text, e: Event)
    requires KeepsAll(env) && w != [] && w[1..] == rest && 0 !in rest && At(s, i, w)
    ensures i < |s| && ReadWord(env, s, i, trace, rest, e) == Ok(i + |w|, trace + [e])
  {
    hide At;
    assert w == [w[0]] + rest;
    Within(s, i, w);
    AtSplit(s, i, [w[0]], rest);
    WordMatches(s, i + 1, rest);
  }

  lemma {:induction false} WordMatches(s: Text, i: nat, w: Text)
    requires 0 !in w && At(s, i, w)
    ensures Matched(s, i, w) == |w|
    decreases |w|
  {
    if w != [] {
      assert w == [w[0]] + w[1..];
      AtSplit(s, i, [w[0]], w[1..]);
      AtByte(s, i, w, 0);
      WordMatches(s, i + 1, w[1..]);
    }
  }

  lemma ReadsStringAt(env: Env, s: Text, i: nat, trace: seq<Event>, w: Text, str: Text, isKey: bool)
    requires KeepsAll(env) && StringText(env.flags, w, str) && At(s, i, w)
    ensures i < |s| && ReadString(env, s, i, trace, isKey) == Ok(i + |w|, trace + [if isKey then Key(str) else String(str)])
  {
    hide At, DecodeString;
    Within(s, i, w);
    StringMoves(env.flags, s, i, w, 1, []);
  }

  lemma ReadsLeafAt(env: Env, text: Text, e: Event, s: Text, i: nat, trace: seq<Event>)
    requires KeepsAll(env) && LeafText(env, text, e) && At(s, i, text)
    requires IsNumberEvent(e) ==> Decimal.EndsNumber(Peek(s, i + |text|))
    ensures i < |s| && ReadValue(env, s, i, trace) == Ok(i + |text|, trace + [e])
  {
    hide At, Matched, DecodeString, Numbers.ReadNumber, FromInteger, ReadWord, ReadString, ReadArray, ReadObject;
    LeafHead(env, text, e);
    AtByte(s, i, text, 0);
    Within(s, i, text);
    if text == NULL_WORD && e == Null {
      ReadsWordAt(env, s, i, trace, text, ULL, e);
    } else if text == TRUE_WORD && e == Bool(true) {
      ReadsWordAt(env, s, i, trace, text, RUE, e);
    } else if text == FALSE_WORD && e == Bool(false) {
      ReadsWordAt(env, s, i, trace, text, ALSE, e);
    } else if e.String? {
      ReadsStringAt(env, s, i, trace, text, e.str, false);
    } else {
      NumberHead(env.tooBig, text, e);
      NumberMoves(s, i, text, env.tooBig, e);
    }
  }

  lemma NumberHead(tooBig: Text -> bool, text: Text, e: Event)
    requires NumberText(tooBig, text, e)
    ensures text[0] == '-' as int || Numbers.IsDigit(text[0])
  {
    hide Numbers.ReadNumber, FromInteger;
    NumberIs(text, 0, tooBig);
  }

  // ----- arrays -----

  /** From an element on to the bracket. */
  function ArrayRest(elements: seq<Tree>, trailing: bool): (r: seq<Text>)
    ensures r != []
  {
    ElementTokens(elements, trailing) + [RIGHT_BRACKET]
  }

  /** From behind an element on. */
  function AfterElement(elements: seq<Tree>, trailing: bool): (r: seq<Text>)
    ensures r != []
  {
    CommaIf(elements != [] || trailing) + ArrayRest(elements, trailing)
  }

  lemma ArrayRestUnfolds(elements: seq<Tree>, trailing: bool)
    requires elements != []
    ensures ArrayRest(elements, trailing) == Tokens(elements[0]) + AfterElement(elements[1..], trailing)
  {
    hide Tokens;
  }

  lemma ArrayRestHead(env: Env, elements: seq<Tree>, trailing: bool)
    requires ElementsWell(env, elements)
    ensures var c := ArrayRest(elements, trailing)[0]; c != [] && Starts(c[0]) && (c[0] == ']' as int <==> elements == [])
    ensures elements == [] ==> ArrayRest(elements, trailing) == [RIGHT_BRACKET]
  {
    hide Well;
    if elements != [] {
      ArrayRestUnfolds(elements, trailing);
      hide Tokens;
      TreeHead(env, elements[0]);
    }
  }

  lemma TightOne(g: seq<Text>, tok: Text)
    requires |g| == 1
    ensures Tight(g, [tok]) == tok
  {
  }

  lemma ElementGoesOn(env: Env, s: Text, i: nat, trace: seq<Event>, n: nat)
    requires i <= |s| && ReadValue(env, s, i, trace).Ok?
    ensures var o := ReadValue(env, s, i, trace); Elements(env, s, i, trace, n) == ElementTail(env, s, o.pos, o.trace, n)
  {
    hide ReadValue, ElementTail;
  }

  lemma ClosesArray(env: Env, s: Text, p: nat, q: nat, trace: seq<Event>, n: nat)
    requires KeepsAll(env) && p <= |s| && Skip(env.flags, s, p) == To(q) && Peek(s, q) == ']' as int
    ensures ElementTail(env, s, p, trace, n) == Ok(q + 1, trace + [EndArray(Inc(n))])
  {
    hide Skip;
  }

  lemma PassesComma(env: Env, s: Text, p: nat, q: nat, k: nat, trace: seq<Event>, n: nat)
    requires KeepsAll(env) && p <= |s| && Skip(env.flags, s, p) == To(q) && q < |s| && Peek(s, q) == ',' as int
    requires Skip(env.flags, s, q + 1) == To(k)
    ensures Peek(s, k) != ']' as int ==> ElementTail(env, s, p, trace, n) == Elements(env, s, k, trace, Inc(n))
    ensures Peek(s, k) == ']' as int && env.flags.trailingCommas ==>
      ElementTail(env, s, p, trace, n) == Ok(k + 1, trace + [EndArray(Inc(n))])
  {
    hide Skip, Elements;
    assert ElementTail(env, s, p, trace, n) == ElementNext(env, s, q, trace, Inc(n));
    assert ElementNext(env, s, q, trace, Inc(n)) == AfterComma(env, s, k, trace, Inc(n));
  }

  /** The events of one child and of the rest. */
  lemma Grouped(trace: seq<Event>, first: seq<Event>, rest: seq<Event>, last: Event)
    ensures trace + first + rest + [last] == trace + (first + rest) + [last]
  {
  }

  lemma AfterElementIs(elements: seq<Tree>, trailing: bool)
    ensures AfterElement(elements, trailing) ==
      if elements == [] && !trailing then [RIGHT_BRACKET] else [COMMA] + ArrayRest(elements, trailing)
  {
    hide Tokens;
  }

  lemma NoEvents(trace: seq<Event>)
    ensures trace + ElementEvents([]) == trace && trace + PairEvents([]) == trace
  {
  }

  lemma Counts(n: nat)
    ensures Inc(n % 0x1_0000_0000) == (n + 1) % 0x1_0000_0000
  {
  }

  /** From behind an element to behind the bracket. */
  lemma {:induction false} ReadsAfterElement(env: Env, elements: seq<Tree>, trailing: bool, g: seq<Text>,
                                             s: Text, p: nat, trace: seq<Event>, n: nat)
    requires KeepsAll(env) && ElementsWell(env, elements) && (trailing ==> env.flags.trailingCommas)
    requires |g| == |AfterElement(elements, trailing)| && AllGaps(env.flags, g)
    requires At(s, p, Spread(g, AfterElement(elements, trailing)))
    ensures p <= |s|
    ensures ElementTail(env, s, p, trace, n % 0x1_0000_0000)
         == Ok(p + |Spread(g, AfterElement(elements, trailing))|,
               trace + ElementEvents(elements) + [EndArray((n + 1 + |elements|) % 0x1_0000_0000)])
    decreases elements, 2
  {
    hide AllGaps, At, Skip, Spread, Tight, Tokens, Inc, ElementTail, Elements, TreeEvents, ElementsWell, ElementTokens, ArrayRest, AfterElement;
    var f := env.flags;
    var toks := AfterElement(elements, trailing);
    var rest := ArrayRest(elements, trailing);
    ArrayRestHead(env, elements, trailing);
    AfterElementIs(elements, trailing);
    Within(s, p, Spread(g, toks));
    NextToken(f, s, p, g, toks);
    Counts(n);
    NoEvents(trace);
    var q := p + |g[0]|;
    if elements == [] && !trailing {
      TightOne(g, RIGHT_BRACKET);
      ClosesArray(env, s, p, q, trace, n % 0x1_0000_0000);
    } else {
      StepsOver(f, s, q, g, COMMA, rest);
      var k := q + 1 + |g[1]|;
      PassesComma(env, s, p, q, k, trace, n % 0x1_0000_0000);
      if elements == [] {
        TightOne(g[1..], RIGHT_BRACKET);
      } else {
        ReadsElements(env, elements, trailing, g[1..], s, k, trace, n + 1);
      }
    }
  }

  lemma {:induction false} ReadsElements(env: Env, elements: seq<Tree>, trailing: bool, g: seq<Text>,
                                         s: Text, i: nat, trace: seq<Event>, n: nat)
    requires KeepsAll(env) && elements != [] && ElementsWell(env, elements) && (trailing ==> env.flags.trailingCommas)
    requires |g| == |ArrayRest(elements, trailing)| && AllGaps(env.flags, g)
    requires At(s, i, Tight(g, ArrayRest(elements, trailing)))
    ensures i <= |s|
    ensures Elements(env, s, i, trace, n % 0x1_0000_0000)
         == Ok(i + |Tight(g, ArrayRest(elements, trailing))|,
               trace + ElementEvents(elements) + [EndArray((n + |elements|) % 0x1_0000_0000)])
    decreases elements, 1
  {
    hide At, Spread, Tight, ElementTokens, Elements, ElementTail, Tokens, Well, TreeEvents, AllGaps, ArrayRest, AfterElement,
      ReadValue;
    var first, rest := Tokens(elements[0]), AfterElement(elements[1..], trailing);
    ArrayRestUnfolds(elements, trailing);
    AfterElementIs(elements[1..], trailing);
    ChildAndRest(env.flags, s, i, g, first, rest);
    var g0, g1 := g[..|first|], g[|first|..];
    ReadsTree(env, elements[0], g0, s, i, trace);
    ElementGoesOn(env, s, i, trace, n % 0x1_0000_0000);
    ReadsAfterElement(env, elements[1..], trailing, g1, s, i + |Tight(g0, first)|, trace + TreeEvents(elements[0]), n);
    Grouped(trace, TreeEvents(elements[0]), ElementEvents(elements[1..]), EndArray((n + |elements|) % 0x1_0000_0000));
  }

  lemma {:induction false} ReadsTree(env: Env, t: Tree, g: seq<Text>, s: Text, i: nat, trace: seq<Event>)
    requires KeepsAll(env) && Well(env, t) && |g| == |Tokens(t)| && AllGaps(env.flags, g)
    requires At(s, i, Tight(g, Tokens(t)))
    requires t.Leaf? && IsNumberEvent(t.event) ==> Decimal.EndsNumber(Peek(s, i + |Tight(g, Tokens(t))|))
    ensures i <= |s|
    ensures ReadValue(env, s, i, trace) == Ok(i + |Tight(g, Tokens(t))|, trace + TreeEvents(t))
    decreases t, 0
  {
    hide AllGaps, At, Spread, Tight, ReadValue, LeafText, ElementTokens, PairTokens;
    Within(s, i, Tight(g, Tokens(t)));
    match t
    case Leaf(text, e) =>
      TightOne(g, text);
      ReadsLeafAt(env, text, e, s, i, trace);
    case ArrayTree(elements, trailing) =>
      ReadsArrayTree(env, elements, trailing, g, s, i, trace);
    case ObjectTree(pairs, trailing) =>
      ReadsObjectTree(env, pairs, trailing, g, s, i, trace);
  }

  lemma {:induction false} ReadsArrayTree(env: Env, elements: seq<Tree>, trailing: bool, g: seq<Text>,
                                          s: Text, i: nat, trace: seq<Event>)
    requires KeepsAll(env) && Well(env, ArrayTree(elements, trailing)) && |g| == |Tokens(ArrayTree(elements, trailing))|
    requires AllGaps(env.flags, g) && At(s, i, Tight(g, Tokens(ArrayTree(elements, trailing))))
    ensures i <= |s|
    ensures ReadValue(env, s, i, trace)
         == Ok(i + |Tight(g, Tokens(ArrayTree(elements, trailing)))|, trace + TreeEvents(ArrayTree(elements, trailing)))
    decreases elements, 3
  {
    hide AllGaps, At, Spread, Tight, ReadValue, ElementTokens, ElementsWell, Skip, ElementEvents;
    var toks, rest := Tokens(ArrayTree(elements, trailing)), ArrayRest(elements, trailing);
    assert toks == [LEFT_BRACKET] + rest;
    ArrayRestHead(env, elements, trailing);
    StepsOver(env.flags, s, i, g, LEFT_BRACKET, rest);
    AtByte(s, i, LEFT_BRACKET, 0);
    var q := i + 1 + |g[1]|;
    OpensArray(env, s, i, q, trace);
    if elements == [] {
      TightOne(g[1..], RIGHT_BRACKET);
      assert ElementEvents([]) == [] by { EmptyEvents(); }
      assert trace + [StartArray] + [EndArray(0)] == trace + ([StartArray] + [] + [EndArray(0)]);
    } else {
      ReadsElements(env, elements, trailing, g[1..], s, q, trace + [StartArray], 0);
      Wrapped(trace, StartArray, ElementEvents(elements), EndArray(|elements| % 0x1_0000_0000));
    }
  }

  lemma EmptyEvents()
    ensures ElementEvents([]) == [] && PairEvents([]) == []
  {
  }

  lemma Wrapped(trace: seq<Event>, first: Event, inner: seq<Event>, last: Event)
    ensures trace + [first] + inner + [last] == trace + ([first] + inner + [last])
  {
  }

  lemma OpensArray(env: Env, s: Text, i: nat, q: nat, trace: seq<Event>)
    requires KeepsAll(env) && i < |s| && Peek(s, i) == '[' as int && Skip(env.flags, s, i + 1) == To(q)
    ensures Peek(s, q) == ']' as int ==> ReadValue(env, s, i, trace) == Ok(q + 1, trace + [StartArray] + [EndArray(0)])
    ensures Peek(s, q) != ']' as int ==> ReadValue(env, s, i, trace) == Elements(env, s, q, trace + [StartArray], 0)
  {
    hide Skip, Elements;
    assert ReadValue(env, s, i, trace) == ReadArray(env, s, i, trace);
    assert ReadArray(env, s, i, trace) == ArrayBody(env, s, q, trace + [StartArray]);
  }

  // ----- objects -----

  function ObjectRest(pairs: seq<Pair>, trailing: bool): (r: seq<Text>)
    ensures r != []
  {
    PairTokens(pairs, trailing) + [RIGHT_CURLY]
  }

  function AfterPair(pairs: seq<Pair>, trailing: bool): (r: seq<Text>)
    ensures r != []
  {
    CommaIf(pairs != [] || trailing) + ObjectRest(pairs, trailing)
  }

  lemma ObjectRestUnfolds(pairs: seq<Pair>, trailing: bool)
    requires pairs != []
    ensures ObjectRest(pairs, trailing)
         == [pairs[0].text, COLON] + (Tokens(pairs[0].value) + AfterPair(pairs[1..], trailing))
  {
    hide Tokens;
  }

  lemma ObjectRestHead(env: Env, pairs: seq<Pair>, trailing: bool)
    requires PairsWell(env, pairs)
    ensures var c := ObjectRest(pairs, trailing)[0];
      c != [] && Starts(c[0]) && c[0] == if pairs == [] then '}' as int else '"' as int
    ensures pairs == [] ==> ObjectRest(pairs, trailing) == [RIGHT_CURLY]
  {
    hide Well, DecodeString, Tokens;
    if pairs != [] {
      ObjectRestUnfolds(pairs, trailing);
    }
  }

  lemma ClosesObject(env: Env, s: Text, p: nat, q: nat, trace: seq<Event>, n: nat)
    requires KeepsAll(env) && p <= |s| && Skip(env.flags, s, p) == To(q) && Peek(s, q) == '}' as int
    ensures MemberTail(env, s, p, trace, n) == Ok(q + 1, trace + [EndObject(Inc(n))])
  {
    hide Skip;
  }

  lemma PassesMemberComma(env: Env, s: Text, p: nat, q: nat, k: nat, trace: seq<Event>, n: nat)
    requires KeepsAll(env) && p <= |s| && Skip(env.flags, s, p) == To(q) && q < |s| && Peek(s, q) == ',' as int
    requires Skip(env.flags, s, q + 1) == To(k)
    ensures Peek(s, k) != '}' as int ==> MemberTail(env, s, p, trace, n) == Members(env, s, k, trace, Inc(n))
    ensures Peek(s, k) == '}' as int && env.flags.trailingCommas ==>
      MemberTail(env, s, p, trace, n) == Ok(k + 1, trace + [EndObject(Inc(n))])
  {
    hide Skip, Members;
    assert MemberTail(env, s, p, trace, n) == MemberNext(env, s, q, trace, Inc(n));
    assert MemberNext(env, s, q, trace, Inc(n)) == AfterMemberComma(env, s, k, trace, Inc(n));
  }

  lemma NameGoesOn(env: Env, s: Text, i: nat, p: nat, q: nat, k: nat, trace: seq<Event>, name: Text, n: nat)
    requires i < |s| && Peek(s, i) == '"' as int && p <= |s|
    requires ReadString(env, s, i, trace, true) == Ok(p, trace + [Key(name)])
    requires Skip(env.flags, s, p) == To(q) && q < |s| && Peek(s, q) == ':' as int && Skip(env.flags, s, q + 1) == To(k)
    ensures Members(env, s, i, trace, n) == ValueOfMember(env, s, k, trace + [Key(name)], n)
  {
    hide Skip, ReadString, ValueOfMember;
    assert Members(env, s, i, trace, n) == MemberColon(env, s, q, trace + [Key(name)], n);
  }

  lemma MemberGoesOn(env: Env, s: Text, i: nat, trace: seq<Event>, n: nat)
    requires i <= |s| && ReadValue(env, s, i, trace).Ok?
    ensures var o := ReadValue(env, s, i, trace); ValueOfMember(env, s, i, trace, n) == MemberTail(env, s, o.pos, o.trace, n)
  {
    hide ReadValue, MemberTail;
  }

  lemma AfterPairIs(pairs: seq<Pair>, trailing: bool)
    ensures AfterPair(pairs, trailing) ==
      if pairs == [] && !trailing then [RIGHT_CURLY] else [COMMA] + ObjectRest(pairs, trailing)
  {
    hide Tokens;
  }

  /** From behind a member to behind the brace. */
  lemma {:induction false} ReadsAfterPair(env: Env, pairs: seq<Pair>, trailing: bool, g: seq<Text>,
                                          s: Text, p: nat, trace: seq<Event>, n: nat)
    requires KeepsAll(env) && PairsWell(env, pairs) && (trailing ==> env.flags.trailingCommas)
    requires |g| == |AfterPair(pairs, trailing)| && AllGaps(env.flags, g)
    requires At(s, p, Spread(g, AfterPair(pairs, trailing)))
    ensures p <= |s|
    ensures MemberTail(env, s, p, trace, n % 0x1_0000_0000)
         == Ok(p + |Spread(g, AfterPair(pairs, trailing))|,
               trace + PairEvents(pairs) + [EndObject((n + 1 + |pairs|) % 0x1_0000_0000)])
    decreases pairs, 2
  {
    hide AllGaps, At, Skip, Spread, Tight, Tokens, Inc, MemberTail, Members, TreeEvents, PairsWell, PairTokens, ObjectRest, AfterPair;
    var f := env.flags;
    var toks := AfterPair(pairs, trailing);
    var rest := ObjectRest(pairs, trailing);
    ObjectRestHead(env, pairs, trailing);
    AfterPairIs(pairs, trailing);
    Within(s, p, Spread(g, toks));
    NextToken(f, s, p, g, toks);
    Counts(n);
    NoEvents(trace);
    var q := p + |g[0]|;
    if pairs == [] && !trailing {
      TightOne(g, RIGHT_CURLY);
      ClosesObject(env, s, p, q, trace, n % 0x1_0000_0000);
    } else {
      StepsOver(f, s, q, g, COMMA, rest);
      var k := q + 1 + |g[1]|;
      PassesMemberComma(env, s, p, q, k, trace, n % 0x1_0000_0000);
      if pairs == [] {
        TightOne(g[1..], RIGHT_CURLY);
      } else {
        ReadsPairs(env, pairs, trailing, g[1..], s, k, trace, n + 1);
      }
    }
  }

  /** From a name to the value behind its colon. */
  lemma ReadsNameAt(env: Env, pairs: seq<Pair>, trailing: bool, g: seq<Text>, s: Text, i: nat, trace: seq<Event>, n: nat)
    returns (k: nat)
    requires KeepsAll(env) && pairs != [] && PairsWell(env, pairs)
    requires |g| == |ObjectRest(pairs, trailing)| && AllGaps(env.flags, g)
    requires At(s, i, Tight(g, ObjectRest(pairs, trailing)))
    ensures var toks := Tokens(pairs[0].value) + AfterPair(pairs[1..], trailing);
      && |g| == 2 + |toks| && i <= |s| && k <= |s| && At(s, k, Tight(g[2..], toks))
      && k + |Tight(g[2..], toks)| == i + |Tight(g, ObjectRest(pairs, trailing))|
      && Members(env, s, i, trace, n) == ValueOfMember(env, s, k, trace + [Key(pairs[0].name)], n)
  {
    hide AllGaps, At, Spread, Tight, PairTokens, Members, ValueOfMember, Tokens, Skip, AfterPair, DecodeString, ReadString, ObjectRest, Well;
    var all := ObjectRest(pairs, trailing);
    var toks := Tokens(pairs[0].value) + AfterPair(pairs[1..], trailing);
    var text := pairs[0].text;
    ObjectRestUnfolds(pairs, trailing);
    assert all == [text] + ([COLON] + toks) && g[1..][1..] == g[2..];
    StepsOver(env.flags, s, i, g, text, [COLON] + toks);
    AtByte(s, i, text, 0);
    ReadsStringAt(env, s, i, trace, text, pairs[0].name, true);
    var p, q := i + |text|, i + |text| + |g[1]|;
    TreeHead(env, pairs[0].value);
    StepsOver(env.flags, s, q, g[1..], COLON, toks);
    k := q + 1 + |g[2]|;
    NameGoesOn(env, s, i, p, q, k, trace, pairs[0].name, n);
  }

  lemma {:induction false} ReadsPairs(env: Env, pairs: seq<Pair>, trailing: bool, g: seq<Text>,
                                      s: Text, i: nat, trace: seq<Event>, n: nat)
    requires KeepsAll(env) && pairs != [] && PairsWell(env, pairs) && (trailing ==> env.flags.trailingCommas)
    requires |g| == |ObjectRest(pairs, trailing)| && AllGaps(env.flags, g)
    requires At(s, i, Tight(g, ObjectRest(pairs, trailing)))
    ensures i <= |s|
    ensures Members(env, s, i, trace, n % 0x1_0000_0000)
         == Ok(i + |Tight(g, ObjectRest(pairs, trailing))|,
               trace + PairEvents(pairs) + [EndObject((n + |pairs|) % 0x1_0000_0000)])
    decreases pairs, 1
  {
    hide AllGaps, At, Spread, Tight, PairTokens, Members, MemberTail, Tokens, Well, TreeEvents, ObjectRest, AfterPair, ReadValue,
      ValueOfMember;
    var v, keyed := pairs[0].value, trace + [Key(pairs[0].name)];
    var k := ReadsNameAt(env, pairs, trailing, g, s, i, trace, n % 0x1_0000_0000);
    GapsSplit(env.flags, g, 2);
    var first, rest := Tokens(v), AfterPair(pairs[1..], trailing);
    AfterPairIs(pairs[1..], trailing);
    ChildAndRest(env.flags, s, k, g[2..], first, rest);
    var g0, g1 := g[2..][..|first|], g[2..][|first|..];
    ReadsTree(env, v, g0, s, k, keyed);
    MemberGoesOn(env, s, k, keyed, n % 0x1_0000_0000);
    ReadsAfterPair(env, pairs[1..], trailing, g1, s, k + |Tight(g0, first)|, keyed + TreeEvents(v), n);
    assert keyed + TreeEvents(v) == trace + ([Key(pairs[0].name)] + TreeEvents(v));
    Grouped(trace, [Key(pairs[0].name)] + TreeEvents(v), PairEvents(pairs[1..]), EndObject((n + |pairs|) % 0x1_0000_0000));
  }

  lemma {:induction false} ReadsObjectTree(env: Env, pairs: seq<Pair>, trailing: bool, g: seq<Text>,
                                           s: Text, i: nat, trace: seq<Event>)
    requires KeepsAll(env) && Well(env, ObjectTree(pairs, trailing)) && |g| == |Tokens(ObjectTree(pairs, trailing))|
    requires AllGaps(env.flags, g) && At(s, i, Tight(g, Tokens(ObjectTree(pairs, trailing))))
    ensures i <= |s|
    ensures ReadValue(env, s, i, trace)
         == Ok(i + |Tight(g, Tokens(ObjectTree(pairs, trailing)))|, trace + TreeEvents(ObjectTree(pairs, trailing)))
    decreases pairs, 3
  {
    hide AllGaps, At, Spread, Tight, ReadValue, PairTokens, PairsWell, Skip, PairEvents;
    var toks, rest := Tokens(ObjectTree(pairs, trailing)), ObjectRest(pairs, trailing);
    assert toks == [LEFT_CURLY] + rest;
    ObjectRestHead(env, pairs, trailing);
    StepsOver(env.flags, s, i, g, LEFT_CURLY, rest);
    AtByte(s, i, LEFT_CURLY, 0);
    var q := i + 1 + |g[1]|;
    OpensObject(env, s, i, q, trace);
    if pairs == [] {
      TightOne(g[1..], RIGHT_CURLY);
      assert PairEvents([]) == [] by { EmptyEvents(); }
      assert trace + [StartObject] + [EndObject(0)] == trace + ([StartObject] + [] + [EndObject(0)]);
    } else {
      ReadsPairs(env, pairs, trailing, g[1..], s, q, trace + [StartObject], 0);
      Wrapped(trace, StartObject, PairEvents(pairs), EndObject(|pairs| % 0x1_0000_0000));
    }
  }

  lemma OpensObject(env: Env, s: Text, i: nat, q: nat, trace: seq<Event>)
    requires KeepsAll(env) && i < |s| && Peek(s, i) == '{' as int && Skip(env.flags, s, i + 1) == To(q)
    ensures Peek(s, q) == '}' as int ==> ReadValue(env, s, i, trace) == Ok(q + 1, trace + [StartObject] + [EndObject(0)])
    ensures Peek(s, q) != '}' as int ==> ReadValue(env, s, i, trace) == Members(env, s, q, trace + [StartObject], 0)
  {
    hide Skip, Members;
    assert ReadValue(env, s, i, trace) == ReadObject(env, s, i, trace);
    assert ReadObject(env, s, i, trace) == ObjectBody(env, s, q, trace + [StartObject]);
  }
}
