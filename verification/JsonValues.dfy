/** Values and their texts: where the writers put white space between the tokens, and that the reader does not mind
    which white space stands there. */
module JsonValues {
  import opened Bytes
  import opened Events
  import opened Dom
  import opened Grammar
  import opened StringWriting
  import opened Writer
  import opened JsonGaps
  import opened JsonText
  import opened JsonLanguage
  import opened RoundTrip
  import Automaton
  import Decimal
  import JsonLiterals
  import Numbers
  import StringReading

  // ----- the tokens of a value -----

  function TreeOf(target: Target, v: Value): (t: Tree)
    requires Writable(target, v)
    decreases v, 0
  {
    match v
    case NullValue => Leaf(NULL_WORD, Event.Null)
    case BoolValue(b) => Leaf(if b then TRUE_WORD else FALSE_WORD, Bool(b))
    case NumberValue(_, _) => Leaf(Decimal.Printed(NumberEvent(v).n), AsRead(NumberEvent(v)))
    case StringValue(str) => Leaf(WriteString(target, str).value, String(str))
    case ArrayValue(elements) => ArrayTree(TreesOf(target, elements), false)
    case ObjectValue(members) => ObjectTree(PairsOf(target, members), false)
  }

  function TreesOf(target: Target, elements: seq<Value>): (r: seq<Tree>)
    requires AllWritable(target, elements)
    ensures |r| == |elements|
    decreases elements, 1
  {
    if elements == [] then [] else [TreeOf(target, elements[0])] + TreesOf(target, elements[1..])
  }

  function PairsOf(target: Target, members: seq<Member>): (r: seq<Pair>)
    requires AllMembersWritable(target, members)
    ensures |r| == |members|
    decreases members, 1
  {
    if members == [] then []
    else
      var m := members[0];
      [Pair(WriteString(target, m.name).value, m.name, TreeOf(target, m.value))] + PairsOf(target, members[1..])
  }

  lemma LeafFits(env: Env, target: Target, v: Value)
    requires Valid(v) && Legible(env.flags, target, v) && Writable(target, v) && !v.ArrayValue? && !v.ObjectValue?
    ensures Well(env, TreeOf(target, v)) && TreeEvents(TreeOf(target, v)) == AllAsRead(Accept(v))
  {
    hide WriteString, StringReading.DecodeString, Decimal.Printed, Numbers.ReadNumber, Canonical, LegibleString, At;
    assert AllAsRead(Accept(v)) == [AsRead(Accept(v)[0])];
    if v.NumberValue? {
      NumberEventIsExact(Integer(v));
      NumberFits(env.tooBig, Integer(v), NumberEvent(v));
    } else if v.StringValue? {
      StringFits(env.flags, target, v.str);
    }
  }

  lemma NumberFits(tooBig: Text -> bool, n: int, e: Event)
    requires Decimal.Fits64(n) && IsInteger(e) && e.n == n
    ensures IsNumberEvent(AsRead(e)) && JsonLiterals.NumberText(tooBig, Decimal.Printed(n), AsRead(e))
  {
    hide Numbers.ReadNumber, Decimal.Printed, At;
    var w := Decimal.Printed(n);
    AtWhole(w);
    Decimal.PrintedReads(w, 0, n, tooBig);
  }

  lemma StringFits(f: Flags, target: Target, str: Text)
    requires LegibleString(f, target, str)
    ensures WriteString(target, str).Some? && JsonLiterals.StringText(f, WriteString(target, str).value, str)
  {
    hide WriteString, StringReading.DecodeString, At;
    SucceedsOnWellFormed(target, str, 0);
    var w := if WriteString(target, str).Some? then WriteString(target, str).value else [];
    AtWhole(w);
    StringRoundTrip(f, target, str, w, 0);
  }

  /** Its tokens are well formed, and its events those that the reader reports. */
  lemma {:induction false} TreeFits(env: Env, target: Target, v: Value)
    requires Valid(v) && Legible(env.flags, target, v) && Writable(target, v)
    ensures Well(env, TreeOf(target, v)) && TreeEvents(TreeOf(target, v)) == AllAsRead(Accept(v))
    decreases v, 0
  {
    hide LeafText, AllAsRead, WriteString, Canonical, Well, TreeEvents, TreeOf, Accept;
    match v
    case ArrayValue(elements) =>
      TreesFit(env, target, elements);
      ArrayFits(env, target, elements);
    case ObjectValue(members) =>
      PairsFit(env, target, members);
      ObjectFits(env, target, members);
    case _ =>
      LeafFits(env, target, v);
  }

  lemma ArrayFits(env: Env, target: Target, elements: seq<Value>)
    requires |elements| < TWO_32 && AllWritable(target, elements) && ElementsWell(env, TreesOf(target, elements))
    requires ElementEvents(TreesOf(target, elements)) == AllAsRead(AcceptElements(elements))
    ensures Well(env, TreeOf(target, ArrayValue(elements)))
    ensures TreeEvents(TreeOf(target, ArrayValue(elements))) == AllAsRead(Accept(ArrayValue(elements)))
  {
    hide TreesOf, ElementsWell, ElementEvents, AllAsRead, AcceptElements;
    EnclosedAsRead(StartArray, AcceptElements(elements), EndArray(|elements|));
  }

  lemma ObjectFits(env: Env, target: Target, members: seq<Member>)
    requires |members| < TWO_32 && AllMembersWritable(target, members) && PairsWell(env, PairsOf(target, members))
    requires PairEvents(PairsOf(target, members)) == AllAsRead(AcceptMembers(members))
    ensures Well(env, TreeOf(target, ObjectValue(members)))
    ensures TreeEvents(TreeOf(target, ObjectValue(members))) == AllAsRead(Accept(ObjectValue(members)))
  {
    hide PairsOf, PairsWell, PairEvents, AllAsRead, AcceptMembers;
    EnclosedAsRead(StartObject, AcceptMembers(members), EndObject(|members|));
  }

  lemma EnclosedAsRead(first: Event, inner: seq<Event>, last: Event)
    requires !IsInteger(first) && !IsInteger(last)
    ensures AllAsRead([first] + inner + [last]) == [first] + AllAsRead(inner) + [last]
  {
    AllAsReadAppend([first], inner);
    AllAsReadAppend([first] + inner, [last]);
    ReadsAsIs(first);
    ReadsAsIs(last);
  }

  lemma {:induction false} TreesFit(env: Env, target: Target, elements: seq<Value>)
    requires AllValid(elements) && AllLegible(env.flags, target, elements) && AllWritable(target, elements)
    ensures ElementsWell(env, TreesOf(target, elements))
    ensures ElementEvents(TreesOf(target, elements)) == AllAsRead(AcceptElements(elements))
    decreases elements, 1
  {
    hide TreeOf, Well, TreeEvents, Accept;
    if elements != [] {
      TreeFits(env, target, elements[0]);
      TreesFit(env, target, elements[1..]);
      AllAsReadAppend(Accept(elements[0]), AcceptElements(elements[1..]));
      assert TreesOf(target, elements)[1..] == TreesOf(target, elements[1..]);
    }
  }

  lemma {:induction false} PairsFit(env: Env, target: Target, members: seq<Member>)
    requires AllMembersValid(members) && AllMembersLegible(env.flags, target, members) && AllMembersWritable(target, members)
    ensures PairsWell(env, PairsOf(target, members))
    ensures PairEvents(PairsOf(target, members)) == AllAsRead(AcceptMembers(members))
    decreases members, 1
  {
    hide TreeOf, Well, TreeEvents, Accept, WriteString, JsonLiterals.StringText, LegibleString, AllAsRead;
    if members != [] {
      var m := members[0];
      StringFits(env.flags, target, m.name);
      TreeFits(env, target, m.value);
      PairsFit(env, target, members[1..]);
      AllAsReadAppend([Key(m.name)], Accept(m.value));
      ReadsAsIs(Key(m.name));
      AllAsReadAppend([Key(m.name)] + Accept(m.value), AcceptMembers(members[1..]));
      assert PairsOf(target, members)[1..] == PairsOf(target, members[1..]);
    }
  }

  // ----- any gaps will do -----

  /** The tokens of a value, with any gaps before, between and behind them, are read by both parsers to the end, in the
      same events, and build the value. */
  lemma AnyGapsWillDo(env: Env, target: Target, v: Value, gaps: seq<Text>, last: Text)
    requires KeepsAll(env) && !env.flags.stopWhenDone && Valid(v) && Legible(env.flags, target, v) && Writable(target, v)
    requires |gaps| == |Tokens(TreeOf(target, v))| && AllGaps(env.flags, gaps) && FinalGap(env.flags, last)
    ensures var w := Spread(gaps, Tokens(TreeOf(target, v))) + last;
      && Document(env, w) == Automaton.IterativeDocument(env, w) == Ok(|w|, AllAsRead(Accept(v)))
      && Build([], AllAsRead(Accept(v))) == Some([v])
  {
    hide At, Spread, Gap, OpenLine, Well, Tokens, TreeOf, TreeEvents, Accept, AllAsRead, DocumentFrom,
      Automaton.IterativeDocumentFrom, Build;
    TreeFits(env, target, v);
    var w := Spread(gaps, Tokens(TreeOf(target, v))) + last;
    AtWhole(w);
    ReadsSpelled(env, w, 0, [], TreeOf(target, v), gaps, last);
    assert [] + TreeEvents(TreeOf(target, v)) == TreeEvents(TreeOf(target, v));
    ReadEventsBuild(v);
  }

  ghost predicate BlankRun(w: Text) { forall k :: 0 <= k < |w| ==> BlankByte(w[k]) }

  /** In particular any runs of spaces, tabs, line feeds and carriage returns. */
  lemma AnyBlanksWillDo(env: Env, target: Target, v: Value, gaps: seq<Text>, last: Text)
    requires KeepsAll(env) && !env.flags.stopWhenDone && Valid(v) && Legible(env.flags, target, v) && Writable(target, v)
    requires |gaps| == |Tokens(TreeOf(target, v))| && BlankRun(last) && forall k :: 0 <= k < |gaps| ==> BlankRun(gaps[k])
    ensures var w := Spread(gaps, Tokens(TreeOf(target, v))) + last;
      Document(env, w) == Automaton.IterativeDocument(env, w) == Ok(|w|, AllAsRead(Accept(v)))
  {
    hide Gap, DocumentFrom, Automaton.IterativeDocumentFrom, Spread, Tokens, TreeOf, Accept, AllAsRead, BlankRun;
    forall k | 0 <= k < |gaps| ensures Gap(env.flags, gaps[k]) {
      RunIsGap(env.flags, gaps[k]);
    }
    RunIsGap(env.flags, last);
    AnyGapsWillDo(env, target, v, gaps, last);
  }

  lemma RunIsGap(f: Flags, w: Text)
    requires BlankRun(w)
    ensures Gap(f, w)
  {
    BlanksAreGap(f, w);
  }

  // ----- the layout of the writers -----

  /** A line break and the indentation of a depth; nothing in compact text. */
  function NewLine(style: Style, depth: nat): (w: Text) {
    if style.Compact? then [] else ['\n' as int] + seq(depth * style.indentCount, _ => style.indentChar)
  }

  function BeforeElement(style: Style, depth: nat, first: bool): (w: Text) {
    if style.Compact? || !style.singleLineArray then NewLine(style, depth) else if first then [] else [' ' as int]
  }

  /** What stands between a colon and a value. */
  function BeforeValue(style: Style): (w: Text) { if style.Compact? then [] else [' ' as int] }

  /** What stands in front of each token: a new line in front of elements and names, a space behind a colon, a new line
      in front of a closing bracket unless nothing is inside; arrays on one line where that is asked for. */
  function Layout(style: Style, depth: nat, t: Tree): (r: seq<Text>)
    ensures |r| == |Tokens(t)| && r[0] == []
    decreases t, 0
  {
    match t
    case Leaf(_, _) => [[]]
    case ArrayTree(elements, trailing) =>
      var oneLine := style.Pretty? && style.singleLineArray;
      [[]] + ElementLayout(style, depth + 1, elements, trailing, true)
      + [if elements == [] || oneLine then [] else NewLine(style, depth)]
    case ObjectTree(pairs, trailing) =>
      [[]] + PairLayout(style, depth + 1, pairs, trailing) + [if pairs == [] then [] else NewLine(style, depth)]
  }

  function NoGapIf(more: bool): (r: seq<Text>)
    ensures |r| == |CommaIf(more)|
  {
    if more then [[]] else []
  }

  function ElementLayout(style: Style, depth: nat, elements: seq<Tree>, trailing: bool, first: bool): (r: seq<Text>)
    ensures |r| == |ElementTokens(elements, trailing)|
    decreases elements, 1
  {
    if elements == [] then []
    else
      [BeforeElement(style, depth, first)] + Layout(style, depth, elements[0])[1..] + NoGapIf(|elements| > 1 || trailing)
      + ElementLayout(style, depth, elements[1..], trailing, false)
  }

  function PairLayout(style: Style, depth: nat, pairs: seq<Pair>, trailing: bool): (r: seq<Text>)
    ensures |r| == |PairTokens(pairs, trailing)|
    decreases pairs, 1
  {
    if pairs == [] then []
    else
      [NewLine(style, depth)] + ([[]]
      + ([BeforeValue(style)] + Layout(style, depth, pairs[0].value)[1..]
         + NoGapIf(|pairs| > 1 || trailing) + PairLayout(style, depth, pairs[1..], trailing)))
  }

  lemma SpreadFirst(gap: Text, g: seq<Text>, toks: seq<Text>)
    requires |g| == |toks| && toks != []
    ensures Spread([gap] + g[1..], toks) == gap + Tight(g, toks)
  {
    hide Spread;
    assert ([gap] + g[1..])[1..] == g[1..];
    SpreadUnfolds([gap] + g[1..], toks);
  }

  lemma SpreadCons(gap: Text, g: seq<Text>, tok: Text, toks: seq<Text>)
    requires |g| == |toks|
    ensures Spread([gap] + g, [tok] + toks) == gap + tok + Spread(g, toks)
  {
    hide Spread;
    assert ([gap] + g)[1..] == g && ([tok] + toks)[1..] == toks;
    SpreadUnfolds([gap] + g, [tok] + toks);
    assert gap + (tok + Spread(g, toks)) == gap + tok + Spread(g, toks);
  }

  lemma SpreadNone()
    ensures Spread([], []) == []
  {
  }

  lemma Assoc<T>(a: seq<T>, b: seq<T>, c: seq<T>)
    ensures a + b + c == a + (b + c)
  {
  }

  lemma NothingBefore<T>(a: seq<T>)
    ensures [] + a == a
  {
  }

  function CommaBefore(more: bool): (w: Text) { if more then COMMA else [] }

  /** One child, the comma behind it if there are more, and the rest. */
  lemma Chained(before: Text, g: seq<Text>, toks: seq<Text>, more: bool, h: seq<Text>, rest: seq<Text>)
    requires |g| == |toks| && toks != [] && |h| == |rest| && (!more ==> rest == [])
    ensures Spread([before] + g[1..] + NoGapIf(more) + h, toks + CommaIf(more) + rest)
         == before + Tight(g, toks) + (CommaBefore(more) + Spread(h, rest))
  {
    hide Spread, Tight;
    var first := [before] + g[1..];
    Assoc(first, NoGapIf(more), h);
    Assoc(toks, CommaIf(more), rest);
    SpreadSplit(first, toks, NoGapIf(more) + h, CommaIf(more) + rest);
    SpreadFirst(before, g, toks);
    CommaThen(more, h, rest);
  }

  lemma SpreadSplit(g: seq<Text>, a: seq<Text>, h: seq<Text>, b: seq<Text>)
    requires |g| == |a| && |h| == |b|
    ensures Spread(g + h, a + b) == Spread(g, a) + Spread(h, b)
  {
    hide Spread;
    SpreadSplits(g + h, a, b);
    assert (g + h)[..|a|] == g && (g + h)[|a|..] == h;
  }

  lemma CommaThen(more: bool, h: seq<Text>, rest: seq<Text>)
    requires |h| == |rest| && (!more ==> rest == [])
    ensures Spread(NoGapIf(more) + h, CommaIf(more) + rest) == CommaBefore(more) + Spread(h, rest)
  {
    hide Spread;
    if more {
      SpreadCons([], h, COMMA, rest);
      NothingBefore(COMMA);
    } else {
      NothingBefore(h);
      NothingBefore(rest);
      NothingBefore(Spread(h, rest));
    }
  }

  lemma Bracketed(open: Text, inner: seq<Text>, toks: seq<Text>, last: Text, close: Text)
    requires |inner| == |toks|
    ensures Spread([[]] + inner + [last], [open] + toks + [close]) == open + Spread(inner, toks) + last + close
  {
    hide Spread;
    Assoc([[]], inner, [last]);
    Assoc([open], toks, [close]);
    SpreadCons([], inner + [last], open, toks + [close]);
    NothingBefore(open);
    SpreadSplit(inner, toks, [last], [close]);
    SpreadOne(last, close);
    Assoc(open, Spread(inner, toks), last + close);
    Assoc(open + Spread(inner, toks), last, close);
  }

  /** What each writer prints is the tokens of the value in that layout. */
  lemma {:induction false} PrintedIsLaidOut(style: Style, target: Target, depth: nat, v: Value)
    requires Writable(target, v)
    ensures Printed(style, target, depth, v) == Spread(Layout(style, depth, TreeOf(target, v)), Tokens(TreeOf(target, v)))
    decreases v, 0
  {
    hide *;
    PartsWritable(target, v);
    match v
    case ArrayValue(elements) =>
      ArrayParts(style, target, depth, elements);
      ElementsAreLaidOut(style, target, depth + 1, elements, 0);
      var trees := TreesOf(target, elements);
      var layout := ElementLayout(style, depth + 1, trees, false, true);
      NothingBefore(Spread(layout, ElementTokens(trees, false)));
      NoComma();
      Bracketed(LEFT_BRACKET, layout, ElementTokens(trees, false), Trail(style, depth, Level(true, |elements|)), RIGHT_BRACKET);
    case ObjectValue(members) =>
      ObjectParts(style, target, depth, members);
      MembersAreLaidOut(style, target, depth + 1, members, 0);
      var pairs := PairsOf(target, members);
      var layout := PairLayout(style, depth + 1, pairs, false);
      NothingBefore(Spread(layout, PairTokens(pairs, false)));
      NoComma();
      Bracketed(LEFT_CURLY, layout, PairTokens(pairs, false), Trail(style, depth, Level(false, 2 * |members|)), RIGHT_CURLY);
    case _ =>
      LeafIsLaidOut(style, target, depth, v);
  }

  lemma PartsWritable(target: Target, v: Value)
    requires Writable(target, v)
    ensures v.ArrayValue? ==> AllWritable(target, v.elements)
    ensures v.ObjectValue? ==> AllMembersWritable(target, v.members)
  {
  }

  lemma NoComma()
    ensures CommaBefore(false) == []
  {
  }

  lemma LeafIsLaidOut(style: Style, target: Target, depth: nat, v: Value)
    requires Writable(target, v) && !v.ArrayValue? && !v.ObjectValue?
    ensures Printed(style, target, depth, v) == Spread(Layout(style, depth, TreeOf(target, v)), Tokens(TreeOf(target, v)))
  {
    hide WriteString, Spread, Decimal.Printed, AsRead;
    SpreadOne([], TreeOf(target, v).text);
    NothingBefore(TreeOf(target, v).text);
  }

  /** The parts of an array, as it is printed and as it is laid out. */
  lemma ArrayParts(style: Style, target: Target, depth: nat, elements: seq<Value>)
    requires AllWritable(target, elements)
    ensures Writable(target, ArrayValue(elements))
    ensures var v, trees, last := ArrayValue(elements), TreesOf(target, elements), Trail(style, depth, Level(true, |elements|));
      && Printed(style, target, depth, v)
           == LEFT_BRACKET + PrintedElements(style, target, depth + 1, elements, 0) + last + RIGHT_BRACKET
      && Tokens(TreeOf(target, v)) == [LEFT_BRACKET] + ElementTokens(trees, false) + [RIGHT_BRACKET]
      && Layout(style, depth, TreeOf(target, v)) == [[]] + ElementLayout(style, depth + 1, trees, false, true) + [last]
  {
    hide PrintedElements, ElementTokens, ElementLayout;
  }

  lemma ObjectParts(style: Style, target: Target, depth: nat, members: seq<Member>)
    requires AllMembersWritable(target, members)
    ensures Writable(target, ObjectValue(members))
    ensures var v, pairs, last := ObjectValue(members), PairsOf(target, members), Trail(style, depth, Level(false, 2 * |members|));
      && Printed(style, target, depth, v)
           == LEFT_CURLY + PrintedMembers(style, target, depth + 1, members, 0) + last + RIGHT_CURLY
      && Tokens(TreeOf(target, v)) == [LEFT_CURLY] + PairTokens(pairs, false) + [RIGHT_CURLY]
      && Layout(style, depth, TreeOf(target, v)) == [[]] + PairLayout(style, depth + 1, pairs, false) + [last]
  {
    hide PrintedMembers, PairTokens, PairLayout;
  }

  lemma {:induction false} ElementsAreLaidOut(style: Style, target: Target, depth: nat, elements: seq<Value>, n: nat)
    requires AllWritable(target, elements)
    ensures var trees := TreesOf(target, elements);
      PrintedElements(style, target, depth, elements, n)
        == CommaBefore(n > 0 && elements != []) + Spread(ElementLayout(style, depth, trees, false, n == 0), ElementTokens(trees, false))
    decreases elements, 1
  {
    hide *;
    if elements == [] {
      NoElementText(style, target, depth, n);
    } else {
      ElementParts(style, target, depth, elements, n);
      var rest, t := elements[1..], TreeOf(target, elements[0]);
      var more, trees := rest != [], TreesOf(target, rest);
      PrintedIsLaidOut(style, target, depth, elements[0]);
      ElementsAreLaidOut(style, target, depth, rest, n + 1);
      var before, w := BeforeElement(style, depth, n == 0), Printed(style, target, depth, elements[0]);
      TightIsPrinted(style, depth, t);
      Chained(before, Layout(style, depth, t), Tokens(t), more, ElementLayout(style, depth, trees, false, false), ElementTokens(trees, false));
      Assoc(CommaBefore(n > 0), before, w);
      Assoc(CommaBefore(n > 0), before + w, PrintedElements(style, target, depth, rest, n + 1));
    }
  }

  lemma TightIsPrinted(style: Style, depth: nat, t: Tree)
    ensures Spread(Layout(style, depth, t), Tokens(t)) == Tight(Layout(style, depth, t), Tokens(t))
  {
    hide Spread, Tight;
    SpreadUnfolds(Layout(style, depth, t), Tokens(t));
    NothingBefore(Tight(Layout(style, depth, t), Tokens(t)));
  }

  lemma NoElementText(style: Style, target: Target, depth: nat, n: nat)
    ensures AllWritable(target, []) && PrintedElements(style, target, depth, [], n) == []
    ensures CommaBefore(false) + Spread(ElementLayout(style, depth, TreesOf(target, []), false, n == 0), ElementTokens(TreesOf(target, []), false)) == []
  {
    SpreadNone();
  }

  lemma ElementParts(style: Style, target: Target, depth: nat, elements: seq<Value>, n: nat)
    requires AllWritable(target, elements) && elements != []
    ensures Writable(target, elements[0]) && AllWritable(target, elements[1..])
    ensures var t, trees, more := TreeOf(target, elements[0]), TreesOf(target, elements[1..]), elements[1..] != [];
      && PrintedElements(style, target, depth, elements, n)
           == CommaBefore(n > 0) + BeforeElement(style, depth, n == 0) + Printed(style, target, depth, elements[0])
              + PrintedElements(style, target, depth, elements[1..], n + 1)
      && ElementTokens(TreesOf(target, elements), false) == Tokens(t) + CommaIf(more) + ElementTokens(trees, false)
      && ElementLayout(style, depth, TreesOf(target, elements), false, n == 0)
           == [BeforeElement(style, depth, n == 0)] + Layout(style, depth, t)[1..] + NoGapIf(more) + ElementLayout(style, depth, trees, false, false)
      && (!more ==> ElementTokens(trees, false) == [])
  {
    hide Printed, TreeOf, Tokens, Layout, CommaIf, NoGapIf, Lead, BeforeElement;
    assert TreesOf(target, elements)[1..] == TreesOf(target, elements[1..]);
    LeadElement(style, depth, n);
  }

  lemma LeadElement(style: Style, depth: nat, n: nat)
    ensures Lead(style, depth, Level(true, n)) == CommaBefore(n > 0) + BeforeElement(style, depth, n == 0)
  {
  }

  lemma {:induction false} MembersAreLaidOut(style: Style, target: Target, depth: nat, members: seq<Member>, n: nat)
    requires AllMembersWritable(target, members)
    ensures var pairs := PairsOf(target, members);
      PrintedMembers(style, target, depth, members, n)
        == CommaBefore(n > 0 && members != []) + Spread(PairLayout(style, depth, pairs, false), PairTokens(pairs, false))
    decreases members, 1
  {
    hide *;
    if members == [] {
      NoMemberText(style, target, depth, n);
    } else {
      var rest, m := members[1..], members[0];
      MemberParts(style, target, depth, members, n);
      var t, name := TreeOf(target, m.value), WriteString(target, m.name).value;
      var more, pairs := rest != [], PairsOf(target, rest);
      PrintedIsLaidOut(style, target, depth, m.value);
      MembersAreLaidOut(style, target, depth, rest, n + 1);
      TightIsPrinted(style, depth, t);
      var space, line := BeforeValue(style), NewLine(style, depth);
      var g, h := Layout(style, depth, t), PairLayout(style, depth, pairs, false);
      Chained(space, g, Tokens(t), more, h, PairTokens(pairs, false));
      var tailGaps, tail := [space] + g[1..] + NoGapIf(more) + h, Tokens(t) + CommaIf(more) + PairTokens(pairs, false);
      SpreadCons([], tailGaps, COLON, tail);
      SpreadCons(line, [[]] + tailGaps, name, [COLON] + tail);
      var w, last := Printed(style, target, depth, m.value), PrintedMembers(style, target, depth, rest, n + 1);
      Regroup(CommaBefore(n > 0), line, name, space, w, last);
    }
  }

  lemma Regroup(comma: Text, line: Text, name: Text, space: Text, w: Text, last: Text)
    ensures comma + line + name + (COLON + space) + w + last == comma + (line + name + ([] + COLON + (space + w + last)))
  {
    Assoc(comma, line, name);
    Assoc(comma, line + name, COLON + space);
    Assoc(comma, line + name + (COLON + space), w);
    Assoc(comma, line + name + (COLON + space) + w, last);
    NothingBefore(COLON);
    Assoc(line + name, COLON + space, w);
    Assoc(line + name, COLON + space + w, last);
    Assoc(COLON, space, w);
    Assoc(COLON, space + w, last);
  }

  lemma NoMemberText(style: Style, target: Target, depth: nat, n: nat)
    ensures AllMembersWritable(target, []) && PrintedMembers(style, target, depth, [], n) == []
    ensures CommaBefore(false) + Spread(PairLayout(style, depth, PairsOf(target, []), false), PairTokens(PairsOf(target, []), false)) == []
  {
    SpreadNone();
  }

  lemma MemberParts(style: Style, target: Target, depth: nat, members: seq<Member>, n: nat)
    requires AllMembersWritable(target, members) && members != []
    ensures WriteString(target, members[0].name).Some? && Writable(target, members[0].value) && AllMembersWritable(target, members[1..])
    ensures var t, pairs, more := TreeOf(target, members[0].value), PairsOf(target, members[1..]), members[1..] != [];
      var name, space, line := WriteString(target, members[0].name).value, BeforeValue(style), NewLine(style, depth);
      && PrintedMembers(style, target, depth, members, n)
           == CommaBefore(n > 0) + line + name + (COLON + space) + Printed(style, target, depth, members[0].value)
              + PrintedMembers(style, target, depth, members[1..], n + 1)
      && PairTokens(PairsOf(target, members), false) == [name] + ([COLON] + (Tokens(t) + CommaIf(more) + PairTokens(pairs, false)))
      && PairLayout(style, depth, PairsOf(target, members), false)
           == [line] + ([[]] + ([space] + Layout(style, depth, t)[1..] + NoGapIf(more) + PairLayout(style, depth, pairs, false)))
      && (!more ==> PairTokens(pairs, false) == [])
  {
    hide Printed, TreeOf, Tokens, Layout, CommaIf, NoGapIf, Lead, NewLine, WriteString, BeforeValue, CommaBefore;
    assert PairsOf(target, members)[1..] == PairsOf(target, members[1..]);
    LeadMember(style, depth, n);
  }

  lemma LeadMember(style: Style, depth: nat, n: nat)
    ensures Lead(style, depth, Level(false, 2 * n)) == CommaBefore(n > 0) + NewLine(style, depth)
    ensures Lead(style, depth, Level(false, 2 * n + 1)) == COLON + BeforeValue(style)
  {
  }
}
