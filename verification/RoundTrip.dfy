/** Printing a tree and parsing the text gives the tree back: `Accept` into `Writer` or `PrettyWriter`, the text
    into either parser, and the events into a document. */
module RoundTrip {
  import opened Bytes
  import opened Events
  import opened Dom
  import opened Grammar
  import opened StringWriting
  import opened Writer
  import opened Building
  import Automaton
  import Decimal
  import JsonGaps
  import Numbers
  import Printing
  import StringReading
  import Utf8

  // ----- trees a program can hold -----

  /** Numbers made by the constructors, and containers whose size fits the 32-bit `SizeType`. */
  predicate Valid(v: Value)
    decreases v, 0
  {
    match v
    case NumberValue(_, _) => -TWO_63 <= Integer(v) < TWO_64 && v == Canonical(Integer(v))
    case ArrayValue(elements) => |elements| < TWO_32 && AllValid(elements)
    case ObjectValue(members) => |members| < TWO_32 && AllMembersValid(members)
    case _ => true
  }

  predicate AllValid(elements: seq<Value>)
    decreases elements, 1
  {
    elements == [] || (Valid(elements[0]) && AllValid(elements[1..]))
  }

  predicate AllMembersValid(members: seq<Member>)
    decreases members, 1
  {
    members == [] || (Valid(members[0].value) && AllMembersValid(members[1..]))
  }

  /** A string the reader gets back: any bytes with plain output and no encoding check, else well-formed UTF-8. */
  predicate LegibleString(f: Flags, target: Target, str: Text) {
    (target.Plain? && !f.validateEncoding) || Utf8.WellFormed(str, 0)
  }

  /** Every string of the tree, names included, is one the reader gets back, and no double occurs. */
  predicate Legible(f: Flags, target: Target, v: Value)
    decreases v, 0
  {
    match v
    case StringValue(str) => LegibleString(f, target, str)
    case ArrayValue(elements) => AllLegible(f, target, elements)
    case ObjectValue(members) => AllMembersLegible(f, target, members)
    case DoubleValue(_) => false
    case _ => true
  }

  predicate AllLegible(f: Flags, target: Target, elements: seq<Value>)
    decreases elements, 1
  {
    elements == [] || (Legible(f, target, elements[0]) && AllLegible(f, target, elements[1..]))
  }

  predicate AllMembersLegible(f: Flags, target: Target, members: seq<Member>)
    decreases members, 1
  {
    members == []
    || (LegibleString(f, target, members[0].name) && Legible(f, target, members[0].value)
        && AllMembersLegible(f, target, members[1..]))
  }

  lemma {:induction false} LegibleIsWritable(f: Flags, target: Target, v: Value)
    requires Legible(f, target, v)
    ensures Writable(target, v)
    decreases v, 0
  {
    match v
    case StringValue(str) => SucceedsOnWellFormed(target, str, 0);
    case ArrayValue(elements) => AllLegibleWritable(f, target, elements);
    case ObjectValue(members) => AllMembersLegibleWritable(f, target, members);
    case _ =>
  }

  lemma {:induction false} AllLegibleWritable(f: Flags, target: Target, elements: seq<Value>)
    requires AllLegible(f, target, elements)
    ensures AllWritable(target, elements)
    decreases elements, 1
  {
    if elements != [] {
      LegibleIsWritable(f, target, elements[0]);
      AllLegibleWritable(f, target, elements[1..]);
    }
  }

  lemma {:induction false} AllMembersLegibleWritable(f: Flags, target: Target, members: seq<Member>)
    requires AllMembersLegible(f, target, members)
    ensures AllMembersWritable(target, members)
    decreases members, 1
  {
    if members != [] {
      SucceedsOnWellFormed(target, members[0].name, 0);
      LegibleIsWritable(f, target, members[0].value);
      AllMembersLegibleWritable(f, target, members[1..]);
    }
  }

  // ----- a tree walked into a document -----

  /** Open, children, close. */
  lemma EnclosedBuilds(stack: seq<Value>, start: Event, inner: seq<Event>, cells: seq<Value>, end: Event, after: seq<Value>)
    requires start == StartArray || start == StartObject
    requires var open := stack + [if start.StartArray? then ArrayValue([]) else ObjectValue([])];
      Builds(open, inner, open + cells) && Builds(open + cells, [end], after)
    ensures Builds(stack, [start] + inner + [end], after)
  {
    hide Builds;
    var open := stack + [if start.StartArray? then ArrayValue([]) else ObjectValue([])];
    BuildsOne(stack, start);
    BuildsThen(stack, [start], open, inner, open + cells);
    BuildsThen(stack, [start] + inner, open + cells, [end], after);
  }

  /** `Accept` into a document builds a copy of the tree, member order and duplicates kept. */
  lemma {:induction false} AcceptBuilds(v: Value, stack: seq<Value>)
    requires Valid(v)
    ensures Builds(stack, Accept(v), stack + [v])
    decreases v, 0
  {
    hide Builds, AcceptElements, AcceptMembers, Canonical, Cells;
    match v
    case ArrayValue(elements) =>
      AcceptElementsBuild(elements, stack + [ArrayValue([])]);
      var w := ClosingArray(stack, elements);
      EnclosedBuilds(stack, StartArray, AcceptElements(elements), elements, EndArray(|elements|), stack + [v]);
    case ObjectValue(members) =>
      AcceptMembersBuild(members, stack + [ObjectValue([])]);
      var w := ClosingObject(stack, members);
      EnclosedBuilds(stack, StartObject, AcceptMembers(members), Cells(members), EndObject(|members|), stack + [v]);
    case NumberValue(_, _) =>
      NumberBuilds(v, stack);
    case _ =>
      BuildsOne(stack, Accept(v)[0]);
  }

  lemma NumberBuilds(v: Value, stack: seq<Value>)
    requires v.NumberValue? && Valid(v)
    ensures Builds(stack, [NumberEvent(v)], stack + [v])
  {
    hide Builds;
    NumberEventIsExact(Integer(v));
    ConstructorsAreCanonical(NumberEvent(v));
    BuildsOne(stack, NumberEvent(v));
  }

  lemma {:induction false} AcceptElementsBuild(elements: seq<Value>, stack: seq<Value>)
    requires AllValid(elements)
    ensures Builds(stack, AcceptElements(elements), stack + elements)
    decreases elements, 1
  {
    hide Accept;
    if elements == [] {
      assert stack + elements == stack;
    } else {
      AcceptBuilds(elements[0], stack);
      AcceptElementsBuild(elements[1..], stack + [elements[0]]);
      assert stack + [elements[0]] + elements[1..] == stack + elements;
      BuildsThen(stack, Accept(elements[0]), stack + [elements[0]], AcceptElements(elements[1..]), stack + elements);
    }
  }

  lemma {:induction false} AcceptMembersBuild(members: seq<Member>, stack: seq<Value>)
    requires AllMembersValid(members)
    ensures Builds(stack, AcceptMembers(members), stack + Cells(members))
    decreases members, 1
  {
    hide Accept, Builds;
    if members == [] {
      assert stack + Cells(members) == stack;
      BuildsNothing(stack);
    } else {
      var m := members[0];
      var named := stack + [StringValue(m.name)];
      KeyBuilds(stack, m.name);
      AcceptBuilds(m.value, named);
      BuildsThen(stack, [Key(m.name)], named, Accept(m.value), named + [m.value]);
      AcceptMembersBuild(members[1..], named + [m.value]);
      assert named + [m.value] + Cells(members[1..]) == stack + Cells(members);
      BuildsThen(stack, [Key(m.name)] + Accept(m.value), named + [m.value], AcceptMembers(members[1..]), stack + Cells(members));
    }
  }

  lemma BuildsNothing(stack: seq<Value>)
    ensures Builds(stack, [], stack)
  {
  }

  lemma KeyBuilds(stack: seq<Value>, name: Text)
    ensures Builds(stack, [Key(name)], stack + [StringValue(name)])
  {
    BuildsOne(stack, Key(name));
  }

  // ----- the events of the reader -----

  predicate IsInteger(e: Event) { e.Int? || e.Uint? || e.Int64? || e.Uint64? }

  /** The event by which the reader reports what was written by `e`: an integer comes as the smallest unsigned,
      or negative, type that holds it. */
  function AsRead(e: Event): (r: Event) {
    if IsInteger(e) && Numbers.IntegerEvent(e.n < 0, if e.n < 0 then 0 - e.n else e.n).Some?
    then Numbers.IntegerEvent(e.n < 0, if e.n < 0 then 0 - e.n else e.n).value
    else e
  }

  function AllAsRead(events: seq<Event>): (r: seq<Event>)
    ensures |r| == |events|
  {
    seq(|events|, k requires 0 <= k < |events| => AsRead(events[k]))
  }

  lemma AllAsReadAppend(a: seq<Event>, b: seq<Event>)
    ensures AllAsRead(a + b) == AllAsRead(a) + AllAsRead(b)
  {
  }

  /** The document cannot tell the difference. */
  lemma {:induction false} ReadBuildsSame(stack: seq<Value>, events: seq<Event>)
    requires forall e :: e in events ==> InRange(e)
    ensures Build(stack, AllAsRead(events)) == Build(stack, events)
    decreases |events|
  {
    hide FromInt, FromUint, FromInt64, FromUint64, Canonical;
    if events != [] {
      var e := events[0];
      if IsInteger(e) {
        ConstructorsAreCanonical(e);
        ConstructorsAreCanonical(AsRead(e));
        assert AsRead(e).n == e.n;
      }
      assert AllAsRead(events)[0] == AsRead(e) && AllAsRead(events)[1..] == AllAsRead(events[1..]);
      assert Push(stack, AsRead(e)) == Push(stack, e);
      if Push(stack, e).Some? {
        ReadBuildsSame(Push(stack, e).value, events[1..]);
      }
    }
  }

  lemma {:induction false} AcceptInRange(v: Value)
    requires Valid(v)
    ensures forall e :: e in Accept(v) ==> InRange(e)
    decreases v, 0
  {
    match v
    case NumberValue(_, _) => NumberEventIsExact(Integer(v));
    case ArrayValue(elements) => ElementsInRange(elements);
    case ObjectValue(members) => MembersInRange(members);
    case _ =>
  }

  lemma {:induction false} ElementsInRange(elements: seq<Value>)
    requires AllValid(elements)
    ensures forall e :: e in AcceptElements(elements) ==> InRange(e)
    decreases elements, 1
  {
    if elements != [] {
      AcceptInRange(elements[0]);
      ElementsInRange(elements[1..]);
    }
  }

  lemma {:induction false} MembersInRange(members: seq<Member>)
    requires AllMembersValid(members)
    ensures forall e :: e in AcceptMembers(members) ==> InRange(e)
    decreases members, 1
  {
    if members != [] {
      AcceptInRange(members[0].value);
      MembersInRange(members[1..]);
    }
  }

  // ----- reading printed text -----

  ghost predicate Blank(w: Text) {
    forall k :: 0 <= k < |w| ==> JsonGaps.BlankByte(w[k])
  }

  predicate BlankIndent(style: Style) { style.Pretty? ==> JsonGaps.BlankByte(style.indentChar) }

  /** A byte at which skipping stops, comments allowed or not. */
  predicate Solid(c: Byte) { !JsonGaps.BlankByte(c) && c != '/' as int }

  lemma {:induction false} SkipsBlank(f: Flags, t: Text, i: nat, w: Text)
    requires Blank(w) && At(t, i, w) && Solid(Peek(t, i + |w|))
    ensures Skip(f, t, i) == To(i + |w|)
  {
    SpacesEnd(t, i, w);
  }

  lemma {:induction false} SpacesEnd(t: Text, i: nat, w: Text)
    requires Blank(w) && At(t, i, w) && !JsonGaps.BlankByte(Peek(t, i + |w|))
    ensures SkipSpaces(t, i) == i + |w|
    decreases |w|
  {
    if w != [] {
      assert w == [w[0]] + w[1..];
      AtSplit(t, i, [w[0]], w[1..]);
      AtByte(t, i, [w[0]], 0);
      SpacesEnd(t, i + 1, w[1..]);
    }
  }

  /** The comma or colon of a `Lead`. */
  function Separator(level: Level): (w: Text)
    ensures |w| <= 1 && (level.valueCount > 0 <==> |w| == 1)
    ensures |w| == 1 ==> w[0] == if level.inArray || level.valueCount % 2 == 0 then ',' as int else ':' as int
  {
    if level.valueCount == 0 then []
    else if level.inArray || level.valueCount % 2 == 0 then [',' as int] else [':' as int]
  }

  lemma LeadSplits(style: Style, depth: nat, level: Level) returns (blank: Text)
    requires BlankIndent(style)
    ensures Blank(blank) && Lead(style, depth, level) == Separator(level) + blank
  {
    blank := Lead(style, depth, level)[|Separator(level)|..];
  }

  lemma TrailIsBlank(style: Style, depth: nat, level: Level)
    requires BlankIndent(style)
    ensures Blank(Trail(style, depth, level))
    ensures Trail(style, depth, level) != [] ==> Trail(style, depth, level)[0] == '\n' as int
  {
  }

  lemma {:induction false} PrintedHead(style: Style, target: Target, depth: nat, v: Value)
    requires Writable(target, v)
    ensures var w := Printed(style, target, depth, v);
      w != [] && Solid(w[0]) && w[0] != ']' as int && w[0] != '}' as int && w[0] != 0
  {
    hide PrintedElements, PrintedMembers, WriteString, Decimal.Printed;
    match v
    case NumberValue(_, _) => PrintedNumberHead(NumberEvent(v).n);
    case StringValue(str) => LiteralHead(target, str);
    case _ =>
  }

  lemma LiteralHead(target: Target, str: Text)
    requires WriteString(target, str).Some?
    ensures WriteString(target, str).value != [] && WriteString(target, str).value[0] == '"' as int
  {
  }

  lemma PrintedNumberHead(n: int)
    ensures Decimal.Printed(n)[0] == '-' as int || Numbers.IsDigit(Decimal.Printed(n)[0])
  {
    if n >= 0 {
      DigitsHead(n);
    }
  }

  lemma {:induction false} DigitsHead(n: nat)
    ensures Numbers.IsDigit(Decimal.Digits(n)[0])
    decreases n
  {
    if n >= 10 {
      DigitsHead(n / 10);
    }
  }

  lemma ReadsWord(env: Env, t: Text, i: nat, trace: seq<Event>, w: Text, e: Event)
    requires KeepsAll(env) && w != [] && 0 !in w && At(t, i, w)
    ensures ReadWord(env, t, i, trace, w[1..], e) == Ok(i + |w|, trace + [e])
  {
    assert w == [w[0]] + w[1..];
    AtSplit(t, i, [w[0]], w[1..]);
    MatchesAll(t, i + 1, w[1..]);
  }

  lemma {:induction false} MatchesAll(t: Text, i: nat, w: Text)
    requires 0 !in w && At(t, i, w)
    ensures Matched(t, i, w) == |w|
    decreases |w|
  {
    if w != [] {
      assert w == [w[0]] + w[1..];
      AtSplit(t, i, [w[0]], w[1..]);
      AtByte(t, i, [w[0]], 0);
      MatchesAll(t, i + 1, w[1..]);
    }
  }

  lemma ReadsLiteral(env: Env, target: Target, str: Text, t: Text, i: nat, trace: seq<Event>, isKey: bool)
    requires KeepsAll(env) && LegibleString(env.flags, target, str)
    requires WriteString(target, str).Some? && At(t, i, WriteString(target, str).value)
    ensures i < |t| && Peek(t, i) == '"' as int
    ensures ReadString(env, t, i, trace, isKey)
         == Ok(i + |WriteString(target, str).value|, trace + [if isKey then Key(str) else String(str)])
  {
    hide WriteString, At, Utf8.WellFormed, StringReading.DecodeString;
    StringRoundTrip(env.flags, target, str, t, i);
  }

  lemma ReadsNumber(env: Env, n: int, t: Text, i: nat, trace: seq<Event>, e: Event)
    requires KeepsAll(env) && Decimal.Fits64(n) && IsInteger(e) && e.n == n
    requires At(t, i, Decimal.Printed(n)) && Decimal.EndsNumber(Peek(t, i + |Decimal.Printed(n)|))
    ensures i <= |t| && ReadNumber(env, t, i, trace) == Ok(i + |Decimal.Printed(n)|, trace + [AsRead(e)])
  {
    hide Numbers.ReadNumber, Decimal.Printed, Numbers.IntegerEvent;
    Decimal.PrintedReads(t, i, n, env.tooBig);
  }

  lemma ReadsLeaf(env: Env, style: Style, target: Target, depth: nat, v: Value, t: Text, i: nat, trace: seq<Event>)
    requires KeepsAll(env) && Valid(v) && Legible(env.flags, target, v) && Writable(target, v)
    requires !v.ArrayValue? && !v.ObjectValue?
    requires At(t, i, Printed(style, target, depth, v))
    requires Decimal.EndsNumber(Peek(t, i + |Printed(style, target, depth, v)|))
    ensures i <= |t|
    ensures ReadValue(env, t, i, trace)
         == Ok(i + |Printed(style, target, depth, v)|, trace + AllAsRead(Accept(v)))
  {
    hide WriteString, At, LegibleString, Numbers.IntegerEvent, Decimal.Printed, Canonical,
         ReadWord, ReadString, ReadNumber, ReadObject, ReadArray;
    var w := Printed(style, target, depth, v);
    PrintedHead(style, target, depth, v);
    AtByte(t, i, w, 0);
    assert AllAsRead(Accept(v)) == [AsRead(Accept(v)[0])];
    match v
    case NullValue => ReadsWord(env, t, i, trace, NULL, Null);
      assert NULL[1..] == ULL;
    case BoolValue(b) => ReadsWord(env, t, i, trace, if b then TRUE else FALSE, Bool(b));
      assert TRUE[1..] == RUE && FALSE[1..] == ALSE;
    case NumberValue(_, _) =>
      NumberEventIsExact(Integer(v));
      PrintedNumberHead(Integer(v));
      ReadsNumber(env, Integer(v), t, i, trace, NumberEvent(v));
    case StringValue(str) =>
      LiteralHead(target, str);
      ReadsLiteral(env, target, str, t, i, trace, false);
  }

  // ----- containers -----

  /** An array from just before its next element (`n` of them printed before) through its bracket. */
  function ElementsText(style: Style, target: Target, depth: nat, elements: seq<Value>, n: nat): (w: Text)
    requires AllWritable(target, elements)
  {
    PrintedElements(style, target, depth + 1, elements, n) + Trail(style, depth, Level(true, n + |elements|)) + [']' as int]
  }

  function MembersText(style: Style, target: Target, depth: nat, members: seq<Member>, n: nat): (w: Text)
    requires AllMembersWritable(target, members)
  {
    PrintedMembers(style, target, depth + 1, members, n) + Trail(style, depth, Level(false, 2 * (n + |members|))) + ['}' as int]
  }

  lemma ElementsTextUnfolds(style: Style, target: Target, depth: nat, elements: seq<Value>, n: nat)
    requires AllWritable(target, elements) && elements != []
    ensures ElementsText(style, target, depth, elements, n)
         == Lead(style, depth + 1, Level(true, n))
            + (Printed(style, target, depth + 1, elements[0]) + ElementsText(style, target, depth, elements[1..], n + 1))
  {
    hide Lead, Trail, Printed;
  }

  lemma MembersTextUnfolds(style: Style, target: Target, depth: nat, members: seq<Member>, n: nat)
    requires AllMembersWritable(target, members) && members != []
    ensures MembersText(style, target, depth, members, n)
         == Lead(style, depth + 1, Level(false, 2 * n))
            + (WriteString(target, members[0].name).value
               + (Lead(style, depth + 1, Level(false, 2 * n + 1))
                  + (Printed(style, target, depth + 1, members[0].value)
                     + MembersText(style, target, depth, members[1..], n + 1))))
  {
    hide Lead, Trail, Printed, WriteString;
  }

  /** After an element comes a comma, or the end of the array. */
  lemma ElementsTextHead(style: Style, target: Target, depth: nat, elements: seq<Value>, n: nat)
    requires AllWritable(target, elements) && n > 0 && BlankIndent(style)
    ensures var w := ElementsText(style, target, depth, elements, n);
      w != [] && Decimal.EndsNumber(w[0]) && w[0] != 0 && (elements != [] ==> w[0] == ',' as int)
  {
    if elements != [] {
      ElementsTextUnfolds(style, target, depth, elements, n);
      var blank := LeadSplits(style, depth + 1, Level(true, n));
    } else {
      TrailIsBlank(style, depth, Level(true, n));
    }
  }

  lemma MembersTextHead(style: Style, target: Target, depth: nat, members: seq<Member>, n: nat)
    requires AllMembersWritable(target, members) && n > 0 && BlankIndent(style)
    ensures var w := MembersText(style, target, depth, members, n);
      w != [] && Decimal.EndsNumber(w[0]) && w[0] != 0 && (members != [] ==> w[0] == ',' as int)
  {
    hide Printed, WriteString, Trail, Lead;
    if members != [] {
      MembersTextUnfolds(style, target, depth, members, n);
      var blank := LeadSplits(style, depth + 1, Level(false, 2 * n));
    } else {
      TrailIsBlank(style, depth, Level(false, 2 * n));
    }
  }

  /** A whole array or object is its bracket and the text of its children. */
  lemma PrintedContainer(style: Style, target: Target, depth: nat, v: Value)
    requires Writable(target, v)
    ensures v.ArrayValue? ==>
      Printed(style, target, depth, v) == ['[' as int] + ElementsText(style, target, depth, v.elements, 0)
    ensures v.ObjectValue? ==>
      Printed(style, target, depth, v) == ['{' as int] + MembersText(style, target, depth, v.members, 0)
  {
    hide Trail, PrintedElements, PrintedMembers;
  }

  /** Skipping the white space between `i` and a solid byte. */
  lemma SkipsTo(f: Flags, t: Text, i: nat, blank: Text, w: Text)
    requires Blank(blank) && w != [] && Solid(w[0]) && At(t, i, blank + w)
    ensures Skip(f, t, i) == To(i + |blank|) && At(t, i + |blank|, w) && Peek(t, i + |blank|) == w[0]
  {
    AtSplit(t, i, blank, w);
    AtByte(t, i + |blank|, w, 0);
    SkipsBlank(f, t, i, blank);
  }

  /** A separator, white space, and a solid byte. */
  lemma SkipsPast(f: Flags, t: Text, i: nat, c: Byte, blank: Text, w: Text)
    requires Solid(c) && Blank(blank) && w != [] && Solid(w[0]) && At(t, i, [c] + (blank + w))
    ensures i < |t| && Peek(t, i) == c && Skip(f, t, i) == To(i)
    ensures Skip(f, t, i + 1) == To(i + 1 + |blank|) && At(t, i + 1 + |blank|, w) && Peek(t, i + 1 + |blank|) == w[0]
  {
    hide Skip;
    assert [] + ([c] + (blank + w)) == [c] + (blank + w);
    SkipsTo(f, t, i, [], [c] + (blank + w));
    AtSplit(t, i, [c], blank + w);
    SkipsTo(f, t, i + 1, blank, w);
  }

  // ----- parsing what was printed -----

  /** The settings under which text is read back: a handler that never stops, blanks for indentation. */
  ghost predicate Plainly(env: Env, style: Style) { KeepsAll(env) && BlankIndent(style) }

  ghost predicate Fine(env: Env, target: Target, v: Value) {
    Valid(v) && Legible(env.flags, target, v) && Writable(target, v)
  }

  ghost predicate AllFine(env: Env, target: Target, elements: seq<Value>) {
    AllValid(elements) && AllLegible(env.flags, target, elements) && AllWritable(target, elements)
  }

  ghost predicate AllMembersFine(env: Env, target: Target, members: seq<Member>) {
    AllMembersValid(members) && AllMembersLegible(env.flags, target, members) && AllMembersWritable(target, members)
  }

  lemma LastElement(env: Env, style: Style, target: Target, depth: nat, n: nat, t: Text, p: nat, trace: seq<Event>)
    requires Plainly(env, style) && 0 < n < TWO_32 && At(t, p, ElementsText(style, target, depth, [], n))
    ensures p <= |t|
    ensures ElementTail(env, t, p, trace, n - 1)
         == Ok(p + |ElementsText(style, target, depth, [], n)|, trace + [EndArray(n)])
  {
    hide Skip, At, Elements;
    var trail := Trail(style, depth, Level(true, n));
    assert ElementsText(style, target, depth, [], n) == trail + [']' as int];
    TrailIsBlank(style, depth, Level(true, n));
    SkipsTo(env.flags, t, p, trail, [']' as int]);
  }

  lemma ElementThenTail(env: Env, t: Text, j: nat, trace: seq<Event>, n: nat)
    requires j <= |t| && ReadValue(env, t, j, trace).Ok?
    ensures var o := ReadValue(env, t, j, trace); Elements(env, t, j, trace, n) == ElementTail(env, t, o.pos, o.trace, n)
  {
    hide ReadValue, ElementTail;
  }

  lemma ElementComma(env: Env, t: Text, p: nat, q: nat, trace: seq<Event>, n: nat)
    requires 0 < n < TWO_32 && p < |t| && Skip(env.flags, t, p) == To(p) && Peek(t, p) == ',' as int
    requires Skip(env.flags, t, p + 1) == To(q) && Peek(t, q) != ']' as int
    ensures ElementTail(env, t, p, trace, n - 1) == Elements(env, t, q, trace, n)
  {
    hide Skip, Elements;
    assert ElementTail(env, t, p, trace, n - 1) == ElementNext(env, t, p, trace, n);
    assert ElementNext(env, t, p, trace, n) == AfterComma(env, t, q, trace, n);
  }

  /** From just after one element to the next. */
  lemma NextElement(env: Env, style: Style, target: Target, depth: nat, elements: seq<Value>, n: nat,
                    t: Text, p: nat, trace: seq<Event>)
    returns (q: nat)
    requires Plainly(env, style) && 0 < n < TWO_32 && AllWritable(target, elements) && elements != []
    requires At(t, p, ElementsText(style, target, depth, elements, n))
    ensures var w := Printed(style, target, depth + 1, elements[0]) + ElementsText(style, target, depth, elements[1..], n + 1);
      && q <= |t| && At(t, q, w) && q + |w| == p + |ElementsText(style, target, depth, elements, n)|
      && ElementTail(env, t, p, trace, n - 1) == Elements(env, t, q, trace, n)
  {
    hide Skip, At, Elements, Printed, Lead, ElementsText, ElementTail, Blank, LegibleString;
    var head := Printed(style, target, depth + 1, elements[0]);
    var w := head + ElementsText(style, target, depth, elements[1..], n + 1);
    ElementsTextUnfolds(style, target, depth, elements, n);
    PrintedHead(style, target, depth + 1, elements[0]);
    assert w[0] == head[0];
    var blank := LeadSplits(style, depth + 1, Level(true, n));
    var whole := ElementsText(style, target, depth, elements, n);
    assert Separator(Level(true, n)) == [',' as int];
    assert whole == [',' as int] + (blank + w);
    SkipsPast(env.flags, t, p, ',' as int, blank, w);
    q := p + 1 + |blank|;
    ElementComma(env, t, p, q, trace, n);
  }

  /** The trace of one child, then the rest of its container. */
  lemma Followed(trace: seq<Event>, first: seq<Event>, rest: seq<Event>, last: Event)
    ensures trace + AllAsRead(first) + AllAsRead(rest + [last]) == trace + AllAsRead(first + rest + [last])
    ensures rest == [] ==> rest + [last] == [last]
  {
    AllAsReadAppend(first, rest + [last]);
    hide AllAsRead;
    assert first + rest + [last] == first + (rest + [last]);
    assert trace + AllAsRead(first) + AllAsRead(rest + [last]) == trace + (AllAsRead(first) + AllAsRead(rest + [last]));
  }

  lemma {:induction false} ReadsElements(env: Env, style: Style, target: Target, depth: nat, elements: seq<Value>, n: nat,
                                         t: Text, j: nat, trace: seq<Event>)
    requires Plainly(env, style) && AllFine(env, target, elements) && elements != [] && n + |elements| < TWO_32
    requires At(t, j, Printed(style, target, depth + 1, elements[0]) + ElementsText(style, target, depth, elements[1..], n + 1))
    ensures j <= |t|
    ensures Elements(env, t, j, trace, n)
         == Ok(j + |Printed(style, target, depth + 1, elements[0]) + ElementsText(style, target, depth, elements[1..], n + 1)|,
               trace + AllAsRead(AcceptElements(elements) + [EndArray(n + |elements|)]))
    decreases elements, 1
  {
    hide At, Skip, ReadValue, Elements, ElementTail, Printed, ElementsText, Accept, AllAsRead;
    var head, rest := Printed(style, target, depth + 1, elements[0]), elements[1..];
    var w := ElementsText(style, target, depth, rest, n + 1);
    AtSplit(t, j, head, w);
    ElementsTextHead(style, target, depth, rest, n + 1);
    AtByte(t, j + |head|, w, 0);
    ReadsPrinted(env, style, target, depth + 1, elements[0], t, j, trace);
    ElementThenTail(env, t, j, trace, n);
    var first := AllAsRead(Accept(elements[0]));
    if rest == [] {
      LastElement(env, style, target, depth, n + 1, t, j + |head|, trace + first);
      Followed(trace, Accept(elements[0]), AcceptElements(rest), EndArray(n + 1));
      ReadsAsIs(EndArray(n + 1));
    } else {
      var q := NextElement(env, style, target, depth, rest, n + 1, t, j + |head|, trace + first);
      ReadsElements(env, style, target, depth, rest, n + 1, t, q, trace + first);
      Followed(trace, Accept(elements[0]), AcceptElements(rest), EndArray(n + |elements|));
    }
  }

  lemma ReadsAsIs(e: Event)
    requires !IsInteger(e)
    ensures AllAsRead([e]) == [e]
  {
  }

  /** The trace of an opening event, then the rest. */
  lemma Preceded(trace: seq<Event>, first: Event, inner: seq<Event>, last: Event)
    requires !IsInteger(first)
    ensures trace + [first] + AllAsRead(inner + [last]) == trace + AllAsRead([first] + inner + [last])
  {
    ReadsAsIs(first);
    AllAsReadAppend([first], inner + [last]);
    hide AllAsRead;
    assert [first] + inner + [last] == [first] + (inner + [last]);
    assert trace + [first] + AllAsRead(inner + [last]) == trace + ([first] + AllAsRead(inner + [last]));
  }

  lemma EntersArray(env: Env, t: Text, i: nat, q: nat, trace: seq<Event>)
    requires KeepsAll(env) && i < |t| && Skip(env.flags, t, i + 1) == To(q)
    ensures ReadArray(env, t, i, trace) == ArrayBody(env, t, q, trace + [StartArray])
    ensures Peek(t, q) != ']' as int ==> ReadArray(env, t, i, trace) == Elements(env, t, q, trace + [StartArray], 0)
  {
    hide Skip, Elements;
  }

  /** From the bracket to the first element. */
  lemma FirstElement(env: Env, style: Style, target: Target, depth: nat, elements: seq<Value>, t: Text, p: nat)
    returns (q: nat)
    requires Plainly(env, style) && AllWritable(target, elements) && elements != []
    requires At(t, p, ElementsText(style, target, depth, elements, 0))
    ensures var w := Printed(style, target, depth + 1, elements[0]) + ElementsText(style, target, depth, elements[1..], 1);
      && q <= |t| && At(t, q, w) && q + |w| == p + |ElementsText(style, target, depth, elements, 0)|
      && Skip(env.flags, t, p) == To(q) && Peek(t, q) != ']' as int
  {
    hide Skip, At, Printed, Lead, ElementsText, Blank;
    var head := Printed(style, target, depth + 1, elements[0]);
    var w := head + ElementsText(style, target, depth, elements[1..], 1);
    ElementsTextUnfolds(style, target, depth, elements, 0);
    PrintedHead(style, target, depth + 1, elements[0]);
    assert w[0] == head[0];
    var blank := LeadSplits(style, depth + 1, Level(true, 0));
    assert ElementsText(style, target, depth, elements, 0) == blank + w;
    SkipsTo(env.flags, t, p, blank, w);
    q := p + |blank|;
  }

  lemma {:induction false} ReadsArray(env: Env, style: Style, target: Target, depth: nat, elements: seq<Value>,
                                      t: Text, i: nat, trace: seq<Event>)
    requires Plainly(env, style) && AllFine(env, target, elements) && |elements| < TWO_32
    requires At(t, i, ['[' as int] + ElementsText(style, target, depth, elements, 0))
    ensures i < |t| && Peek(t, i) == '[' as int
    ensures ReadArray(env, t, i, trace)
         == Ok(i + 1 + |ElementsText(style, target, depth, elements, 0)|,
               trace + AllAsRead([StartArray] + AcceptElements(elements) + [EndArray(|elements|)]))
    decreases elements, 2
  {
    hide At, Skip, Elements, Printed, ElementsText, AllAsRead, ReadArray, ArrayBody;
    AtSplit(t, i, ['[' as int], ElementsText(style, target, depth, elements, 0));
    AtByte(t, i, ['[' as int], 0);
    Preceded(trace, StartArray, AcceptElements(elements), EndArray(|elements|));
    if elements == [] {
      ReadsEmptyArray(env, style, target, depth, t, i + 1, trace + [StartArray]);
      EntersArray(env, t, i, i + 1, trace);
      ReadsAsIs(EndArray(0));
      assert AcceptElements(elements) + [EndArray(0)] == [EndArray(0)];
    } else {
      var q := FirstElement(env, style, target, depth, elements, t, i + 1);
      EntersArray(env, t, i, q, trace);
      ReadsElements(env, style, target, depth, elements, 0, t, q, trace + [StartArray]);
    }
  }

  lemma ReadsEmptyArray(env: Env, style: Style, target: Target, depth: nat, t: Text, p: nat, trace: seq<Event>)
    requires Plainly(env, style) && At(t, p, ElementsText(style, target, depth, [], 0))
    ensures Skip(env.flags, t, p) == To(p) && p <= |t| && |ElementsText(style, target, depth, [], 0)| == 1
    ensures ArrayBody(env, t, p, trace) == Ok(p + 1, trace + [EndArray(0)])
  {
    hide Skip, At, Elements;
    assert ElementsText(style, target, depth, [], 0) == [] + [']' as int];
    SkipsTo(env.flags, t, p, [], [']' as int]);
  }

  // ----- objects -----

  lemma LastMember(env: Env, style: Style, target: Target, depth: nat, n: nat, t: Text, p: nat, trace: seq<Event>)
    requires Plainly(env, style) && 0 < n < TWO_32 && At(t, p, MembersText(style, target, depth, [], n))
    ensures p <= |t|
    ensures MemberTail(env, t, p, trace, n - 1)
         == Ok(p + |MembersText(style, target, depth, [], n)|, trace + [EndObject(n)])
  {
    hide Skip, At, Members;
    var trail := Trail(style, depth, Level(false, 2 * n));
    assert MembersText(style, target, depth, [], n) == trail + ['}' as int];
    TrailIsBlank(style, depth, Level(false, 2 * n));
    SkipsTo(env.flags, t, p, trail, ['}' as int]);
  }

  /** A member's name and what follows it up to the end of the object. */
  function MemberText(style: Style, target: Target, depth: nat, members: seq<Member>, n: nat): (w: Text)
    requires AllMembersWritable(target, members) && members != []
  {
    WriteString(target, members[0].name).value
    + (Lead(style, depth + 1, Level(false, 2 * n + 1))
       + (Printed(style, target, depth + 1, members[0].value) + MembersText(style, target, depth, members[1..], n + 1)))
  }

  lemma MembersTextSplits(style: Style, target: Target, depth: nat, members: seq<Member>, n: nat)
    requires AllMembersWritable(target, members) && members != []
    ensures MembersText(style, target, depth, members, n)
         == Lead(style, depth + 1, Level(false, 2 * n)) + MemberText(style, target, depth, members, n)
  {
    hide Lead, Printed, WriteString, MembersText;
    MembersTextUnfolds(style, target, depth, members, n);
  }

  lemma MemberTextHead(style: Style, target: Target, depth: nat, members: seq<Member>, n: nat)
    requires AllMembersWritable(target, members) && members != []
    ensures var w := MemberText(style, target, depth, members, n); w != [] && w[0] == '"' as int
  {
    hide Lead, Printed, MembersText, WriteString;
    LiteralHead(target, members[0].name);
  }

  lemma ValueThenTail(env: Env, t: Text, j: nat, trace: seq<Event>, n: nat)
    requires j <= |t| && ReadValue(env, t, j, trace).Ok?
    ensures var o := ReadValue(env, t, j, trace); ValueOfMember(env, t, j, trace, n) == MemberTail(env, t, o.pos, o.trace, n)
  {
    hide ReadValue, MemberTail;
  }

  lemma MemberComma(env: Env, t: Text, p: nat, q: nat, trace: seq<Event>, n: nat)
    requires 0 < n < TWO_32 && p < |t| && Skip(env.flags, t, p) == To(p) && Peek(t, p) == ',' as int
    requires Skip(env.flags, t, p + 1) == To(q) && Peek(t, q) != '}' as int
    ensures MemberTail(env, t, p, trace, n - 1) == Members(env, t, q, trace, n)
  {
    hide Skip, Members;
    assert MemberTail(env, t, p, trace, n - 1) == MemberNext(env, t, p, trace, n);
    assert MemberNext(env, t, p, trace, n) == AfterMemberComma(env, t, q, trace, n);
  }

  /** From just after one member to the next. */
  lemma NextMember(env: Env, style: Style, target: Target, depth: nat, members: seq<Member>, n: nat,
                   t: Text, p: nat, trace: seq<Event>)
    returns (q: nat)
    requires Plainly(env, style) && 0 < n < TWO_32 && AllMembersWritable(target, members) && members != []
    requires At(t, p, MembersText(style, target, depth, members, n))
    ensures var w := MemberText(style, target, depth, members, n);
      && q <= |t| && At(t, q, w) && q + |w| == p + |MembersText(style, target, depth, members, n)|
      && MemberTail(env, t, p, trace, n - 1) == Members(env, t, q, trace, n)
  {
    hide Skip, At, Members, Printed, Lead, WriteString, MembersText, MemberText, MemberTail, Blank;
    var w := MemberText(style, target, depth, members, n);
    MembersTextSplits(style, target, depth, members, n);
    MemberTextHead(style, target, depth, members, n);
    var blank := LeadSplits(style, depth + 1, Level(false, 2 * n));
    var whole := MembersText(style, target, depth, members, n);
    assert Separator(Level(false, 2 * n)) == [',' as int];
    assert whole == [',' as int] + (blank + w);
    SkipsPast(env.flags, t, p, ',' as int, blank, w);
    q := p + 1 + |blank|;
    MemberComma(env, t, p, q, trace, n);
  }

  lemma NameColon(env: Env, t: Text, j: nat, p: nat, q: nat, trace: seq<Event>, n: nat, key: Event)
    requires j < |t| && Peek(t, j) == '"' as int && ReadString(env, t, j, trace, true) == Ok(p, trace + [key])
    requires Skip(env.flags, t, p) == To(p) && p < |t| && Peek(t, p) == ':' as int && Skip(env.flags, t, p + 1) == To(q)
    ensures Members(env, t, j, trace, n) == ValueOfMember(env, t, q, trace + [key], n)
  {
    hide Skip, ValueOfMember, ReadString;
  }

  /** From a name to its value. */
  lemma ReadsName(env: Env, style: Style, target: Target, depth: nat, members: seq<Member>, n: nat,
                  t: Text, j: nat, trace: seq<Event>)
    returns (q: nat)
    requires Plainly(env, style) && AllMembersFine(env, target, members) && members != []
    requires At(t, j, MemberText(style, target, depth, members, n))
    ensures var w := Printed(style, target, depth + 1, members[0].value) + MembersText(style, target, depth, members[1..], n + 1);
      && j < q <= |t| && At(t, q, w) && q + |w| == j + |MemberText(style, target, depth, members, n)|
      && Members(env, t, j, trace, n) == ValueOfMember(env, t, q, trace + [Key(members[0].name)], n)
  {
    hide Skip, At, Printed, Lead, WriteString, MembersText, ReadString, ValueOfMember, Members, Blank;
    var head := Printed(style, target, depth + 1, members[0].value);
    var w := head + MembersText(style, target, depth, members[1..], n + 1);
    var literal := WriteString(target, members[0].name).value;
    PrintedHead(style, target, depth + 1, members[0].value);
    assert w[0] == head[0];
    var blank := LeadSplits(style, depth + 1, Level(false, 2 * n + 1));
    assert Separator(Level(false, 2 * n + 1)) == [':' as int];
    var colon := [':' as int] + (blank + w);
    assert Lead(style, depth + 1, Level(false, 2 * n + 1)) + w == colon;
    AtSplit(t, j, literal, colon);
    ReadsLiteral(env, target, members[0].name, t, j, trace, true);
    var p := j + |literal|;
    SkipsPast(env.flags, t, p, ':' as int, blank, w);
    q := p + 1 + |blank|;
    NameColon(env, t, j, p, q, trace, n, Key(members[0].name));
  }

  lemma {:induction false} ReadsMembers(env: Env, style: Style, target: Target, depth: nat, members: seq<Member>, n: nat,
                                        t: Text, j: nat, trace: seq<Event>)
    requires Plainly(env, style) && AllMembersFine(env, target, members) && members != [] && n + |members| < TWO_32
    requires At(t, j, MemberText(style, target, depth, members, n))
    ensures j <= |t|
    ensures Members(env, t, j, trace, n)
         == Ok(j + |MemberText(style, target, depth, members, n)|,
               trace + AllAsRead(AcceptMembers(members) + [EndObject(n + |members|)]))
    decreases members, 1
  {
    hide At, Skip, ReadValue, ValueOfMember, MemberTail, Printed, MembersText, MemberText, Accept, AllAsRead, Members,
      AllMembersFine, Fine, Writable, WriteString;
    var m, rest := members[0], members[1..];
    MembersFineParts(env, target, members);
    var q := ReadsName(env, style, target, depth, members, n, t, j, trace);
    var head := Printed(style, target, depth + 1, m.value);
    var w := MembersText(style, target, depth, rest, n + 1);
    AtSplit(t, q, head, w);
    MembersTextHead(style, target, depth, rest, n + 1);
    AtByte(t, q + |head|, w, 0);
    ReadsPrinted(env, style, target, depth + 1, m.value, t, q, trace + [Key(m.name)]);
    ValueThenTail(env, t, q, trace + [Key(m.name)], n);
    var first := [Key(m.name)] + Accept(m.value);
    ReadsAsIs(Key(m.name));
    AllAsReadAppend([Key(m.name)], Accept(m.value));
    var mid := trace + AllAsRead(first);
    assert trace + [Key(m.name)] + AllAsRead(Accept(m.value)) == mid;
    if rest == [] {
      LastMember(env, style, target, depth, n + 1, t, q + |head|, mid);
      Followed(trace, first, AcceptMembers(rest), EndObject(n + 1));
      ReadsAsIs(EndObject(n + 1));
    } else {
      var r := NextMember(env, style, target, depth, rest, n + 1, t, q + |head|, mid);
      ReadsMembers(env, style, target, depth, rest, n + 1, t, r, mid);
      Followed(trace, first, AcceptMembers(rest), EndObject(n + |members|));
    }
  }

  lemma MembersFineParts(env: Env, target: Target, members: seq<Member>)
    requires AllMembersFine(env, target, members) && members != []
    ensures AllMembersWritable(target, members) && Fine(env, target, members[0].value) && Writable(target, members[0].value)
    ensures AllMembersFine(env, target, members[1..]) && AllMembersWritable(target, members[1..])
  {
  }

  lemma ReadsEmptyObject(env: Env, style: Style, target: Target, depth: nat, t: Text, p: nat, trace: seq<Event>)
    requires Plainly(env, style) && At(t, p, MembersText(style, target, depth, [], 0))
    ensures Skip(env.flags, t, p) == To(p) && p <= |t| && |MembersText(style, target, depth, [], 0)| == 1
    ensures ObjectBody(env, t, p, trace) == Ok(p + 1, trace + [EndObject(0)])
  {
    hide Skip, At, Members;
    assert MembersText(style, target, depth, [], 0) == [] + ['}' as int];
    SkipsTo(env.flags, t, p, [], ['}' as int]);
  }

  lemma EntersObject(env: Env, t: Text, i: nat, q: nat, trace: seq<Event>)
    requires KeepsAll(env) && i < |t| && Skip(env.flags, t, i + 1) == To(q)
    ensures ReadObject(env, t, i, trace) == ObjectBody(env, t, q, trace + [StartObject])
    ensures Peek(t, q) != '}' as int ==> ReadObject(env, t, i, trace) == Members(env, t, q, trace + [StartObject], 0)
  {
    hide Skip, Members;
  }

  /** From the brace to the first name. */
  lemma FirstMember(env: Env, style: Style, target: Target, depth: nat, members: seq<Member>, t: Text, p: nat)
    returns (q: nat)
    requires Plainly(env, style) && AllMembersWritable(target, members) && members != []
    requires At(t, p, MembersText(style, target, depth, members, 0))
    ensures var w := MemberText(style, target, depth, members, 0);
      && q <= |t| && At(t, q, w) && q + |w| == p + |MembersText(style, target, depth, members, 0)|
      && Skip(env.flags, t, p) == To(q) && Peek(t, q) != '}' as int
  {
    hide Skip, At, Printed, Lead, MembersText, MemberText, Blank, WriteString;
    var w := MemberText(style, target, depth, members, 0);
    MembersTextSplits(style, target, depth, members, 0);
    MemberTextHead(style, target, depth, members, 0);
    var blank := LeadSplits(style, depth + 1, Level(false, 0));
    assert MembersText(style, target, depth, members, 0) == blank + w;
    SkipsTo(env.flags, t, p, blank, w);
    q := p + |blank|;
  }

  lemma {:induction false} ReadsObject(env: Env, style: Style, target: Target, depth: nat, members: seq<Member>,
                                       t: Text, i: nat, trace: seq<Event>)
    requires Plainly(env, style) && AllMembersFine(env, target, members) && |members| < TWO_32
    requires At(t, i, ['{' as int] + MembersText(style, target, depth, members, 0))
    ensures i < |t| && Peek(t, i) == '{' as int
    ensures ReadObject(env, t, i, trace)
         == Ok(i + 1 + |MembersText(style, target, depth, members, 0)|,
               trace + AllAsRead([StartObject] + AcceptMembers(members) + [EndObject(|members|)]))
    decreases members, 2
  {
    hide At, Skip, Members, MembersText, AllAsRead, MemberText, ReadObject, ObjectBody;
    AtSplit(t, i, ['{' as int], MembersText(style, target, depth, members, 0));
    AtByte(t, i, ['{' as int], 0);
    Preceded(trace, StartObject, AcceptMembers(members), EndObject(|members|));
    if members == [] {
      ReadsEmptyObject(env, style, target, depth, t, i + 1, trace + [StartObject]);
      EntersObject(env, t, i, i + 1, trace);
      ReadsAsIs(EndObject(0));
      assert AcceptMembers(members) + [EndObject(0)] == [EndObject(0)];
    } else {
      var q := FirstMember(env, style, target, depth, members, t, i + 1);
      EntersObject(env, t, i, q, trace);
      ReadsMembers(env, style, target, depth, members, 0, t, q, trace + [StartObject]);
    }
  }

  lemma {:induction false} ReadsPrinted(env: Env, style: Style, target: Target, depth: nat, v: Value,
                                        t: Text, i: nat, trace: seq<Event>)
    requires Plainly(env, style) && Fine(env, target, v)
    requires At(t, i, Printed(style, target, depth, v))
    requires Decimal.EndsNumber(Peek(t, i + |Printed(style, target, depth, v)|))
    ensures i <= |t|
    ensures ReadValue(env, t, i, trace) == Ok(i + |Printed(style, target, depth, v)|, trace + AllAsRead(Accept(v)))
    decreases v, 0
  {
    hide At, Printed, AllAsRead, ReadArray, ReadObject, ReadLeaf;
    if v.ArrayValue? {
      PrintedContainer(style, target, depth, v);
      ReadsArray(env, style, target, depth, v.elements, t, i, trace);
    } else if v.ObjectValue? {
      PrintedContainer(style, target, depth, v);
      ReadsObject(env, style, target, depth, v.members, t, i, trace);
    } else {
      ReadsLeaf(env, style, target, depth, v, t, i, trace);
    }
  }

  // ----- the whole way round -----

  lemma DocumentReads(env: Env, style: Style, target: Target, v: Value)
    requires Plainly(env, style) && Fine(env, target, v)
    ensures var w := Printed(style, target, 0, v); Document(env, w) == Ok(|w|, AllAsRead(Accept(v)))
  {
    hide At, Printed, AllAsRead, ReadValue, Skip;
    var w := Printed(style, target, 0, v);
    PrintedHead(style, target, 0, v);
    assert w == [] + w && w == w + [];
    AtWhole(w);
    SkipsTo(env.flags, w, 0, [], w);
    ReadsPrinted(env, style, target, 0, v, w, 0, []);
    SkipsBlank(env.flags, w, |w|, []);
    assert [] + AllAsRead(Accept(v)) == AllAsRead(Accept(v));
  }

  /** The events the reader raises for a printed value build that value. */
  lemma ReadEventsBuild(v: Value)
    requires Valid(v)
    ensures Build([], AllAsRead(Accept(v))) == Some([v])
  {
    hide AllAsRead, Build, Builds;
    AcceptBuilds(v, []);
    BuildsIs([], Accept(v), [] + [v]);
    assert [] + [v] == [v];
    AcceptInRange(v);
    ReadBuildsSame([], Accept(v));
  }

  /** A tree walked into either writer leaves it complete, and its text, parsed by either parser under any flags,
      rebuilds the very tree and nothing else on the document's stack. */
  lemma TreeRoundTrip(env: Env, style: Style, target: Target, v: Value)
    requires KeepsAll(env) && BlankIndent(style) && Valid(v) && Legible(env.flags, target, v)
    ensures var written := WriteAll(style, target, State([], [], false), Accept(v));
      && written.Some? && written.value.hasRoot && written.value.levels == []
      && Document(env, written.value.os).Ok?
      && Automaton.IterativeDocument(env, written.value.os).Ok?
      && Build([], Document(env, written.value.os).trace) == Some([v])
      && Build([], Automaton.IterativeDocument(env, written.value.os).trace) == Some([v])
  {
    hide Printed, DocumentFrom, Automaton.IterativeDocumentFrom, AllAsRead, Build, WriteAll;
    LegibleIsWritable(env.flags, target, v);
    Printing.WriterPrints(style, target, v);
    var w := Printed(style, target, 0, v);
    DocumentReads(env, style, target, v);
    Automaton.AcceptedAlike(env, w, 0, []);
    ReadEventsBuild(v);
  }

  lemma BuildsIs(before: seq<Value>, delta: seq<Event>, after: seq<Value>)
    requires Builds(before, delta, after)
    ensures Build(before, delta) == Some(after)
  {
  }

  // ----- several values in one stream -----

  ghost predicate EachFine(env: Env, target: Target, vs: seq<Value>) {
    forall k :: 0 <= k < |vs| ==> Fine(env, target, vs[k])
  }

  /** The texts of some values, each with a line break behind it. */
  ghost function Lines(env: Env, style: Style, target: Target, vs: seq<Value>): (w: Text)
    requires EachFine(env, target, vs)
  {
    if vs == [] then [] else Printed(style, target, 0, vs[0]) + (['\n' as int] + Lines(env, style, target, vs[1..]))
  }

  /** `n` parses of one stream, each going on where the one before ended, and what each leaves in its document. */
  function ParseMany(env: Env, iterative: bool, t: Text, i: nat, n: nat): (r: Option<seq<Value>>)
    requires i <= |t|
    decreases n
  {
    if n == 0 then Some([])
    else match if iterative then Automaton.IterativeDocumentFrom(env, t, i, []) else DocumentFrom(env, t, i, [])
      case Fail(_, _, _) => None
      case Ok(pos, trace) =>
        var rest := ParseMany(env, iterative, t, pos, n - 1);
        var built := Build([], trace);
        if rest.None? || built.None? then None else Some(built.value + rest.value)
  }

  /** One parse that stops when the value is done. */
  lemma StopsBehind(env: Env, style: Style, target: Target, v: Value, t: Text, i: nat, blank: Text, rest: Text)
    requires Plainly(env, style) && Fine(env, target, v) && env.flags.stopWhenDone && Blank(blank)
    requires At(t, i, blank + (Printed(style, target, 0, v) + (['\n' as int] + rest)))
    ensures var q := i + |blank| + |Printed(style, target, 0, v)|;
      && i <= q <= |t| && At(t, q, ['\n' as int] + rest)
      && DocumentFrom(env, t, i, []) == Automaton.IterativeDocumentFrom(env, t, i, []) == Ok(q, AllAsRead(Accept(v)))
  {
    hide At, Printed, AllAsRead, ReadValue, Skip, Automaton.IterativeDocumentFrom;
    var w := Printed(style, target, 0, v);
    PrintedHead(style, target, 0, v);
    var p := i + |blank|;
    AtSplit(t, i, blank, w + (['\n' as int] + rest));
    AtSplit(t, p, w, ['\n' as int] + rest);
    AtByte(t, p + |w|, ['\n' as int] + rest, 0);
    AtByte(t, p, w, 0);
    AtSplit(t, i, blank, w);
    SkipsTo(env.flags, t, i, blank, w);
    ReadsPrinted(env, style, target, 0, v, t, p, []);
    assert [] + AllAsRead(Accept(v)) == AllAsRead(Accept(v));
    Automaton.AcceptedAlike(env, t, i, []);
  }

  /** Values printed one after another come back, one from each parse of the stream. */
  lemma {:induction false} StreamRoundTrip(env: Env, iterative: bool, style: Style, target: Target, vs: seq<Value>,
                                           t: Text, i: nat, blank: Text)
    requires Plainly(env, style) && EachFine(env, target, vs) && env.flags.stopWhenDone && Blank(blank)
    requires i <= |t| && At(t, i, blank + Lines(env, style, target, vs))
    ensures ParseMany(env, iterative, t, i, |vs|) == Some(vs)
    decreases |vs|
  {
    hide At, Printed, AllAsRead, DocumentFrom, Automaton.IterativeDocumentFrom, Build, Fine;
    if vs != [] {
      FineIsValid(env, target, vs[0]);
      var rest := Lines(env, style, target, vs[1..]);
      StopsBehind(env, style, target, vs[0], t, i, blank, rest);
      var q := i + |blank| + |Printed(style, target, 0, vs[0])|;
      StreamRoundTrip(env, iterative, style, target, vs[1..], t, q, ['\n' as int]);
      ReadEventsBuild(vs[0]);
      assert [vs[0]] + vs[1..] == vs;
    }
  }

  lemma FineIsValid(env: Env, target: Target, v: Value)
    requires Fine(env, target, v)
    ensures Valid(v) && Writable(target, v)
  {
  }
}
