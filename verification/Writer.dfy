/** The writers: `Writer` and `PrettyWriter` as one machine over a level stack, and the tree printer they amount to. */
module Writer {
  import opened Bytes
  import opened Events
  import opened Dom
  import opened StringWriting
  import Decimal

  /** Which writer runs: the plain one, or the pretty one with its indentation and array option. */
  datatype Style = Compact | Pretty(indentChar: Byte, indentCount: nat, singleLineArray: bool)

  datatype Level = Level(inArray: bool, valueCount: nat)

  datatype State = State(os: Text, levels: seq<Level>, hasRoot: bool)

  function Repeat(c: Byte, n: nat): (w: Text) { seq(n, _ => c) }

  /** `WriteIndent` with `depth` open levels. */
  function Indent(style: Style, depth: nat): (w: Text) {
    if style.Compact? then [] else Repeat(style.indentChar, depth * style.indentCount)
  }

  /** What `Prefix` or `PrettyPrefix` puts before the next value of a level. */
  function Lead(style: Style, depth: nat, level: Level): (w: Text) {
    var n := level.valueCount;
    if style.Compact? then
      if n == 0 then [] else if level.inArray || n % 2 == 0 then [',' as int] else [':' as int]
    else if level.inArray then
      (if n == 0 then [] else if style.singleLineArray then [',' as int, ' ' as int] else [',' as int])
      + (if style.singleLineArray then [] else ['\n' as int] + Indent(style, depth))
    else
      (if n == 0 then ['\n' as int] else if n % 2 == 0 then [',' as int, '\n' as int] else [':' as int, ' ' as int])
      + (if n % 2 == 0 then Indent(style, depth) else [])
  }

  /** What goes before a closing bracket; `depth` levels stay open. */
  function Trail(style: Style, depth: nat, level: Level): (w: Text) {
    if style.Compact? || level.valueCount == 0 || (level.inArray && style.singleLineArray) then []
    else ['\n' as int] + Indent(style, depth)
  }

  /** `Prefix`, `None` where one of its assertions fails: a second root, or an object key that is no string. */
  function Prefixed(style: Style, st: State, isString: bool): (r: Option<State>) {
    if st.levels == [] then
      if st.hasRoot then None else Some(st.(hasRoot := true))
    else
      var level := st.levels[|st.levels| - 1];
      if !level.inArray && level.valueCount % 2 == 0 && !isString then None
      else Some(State(
        st.os + Lead(style, |st.levels|, level),
        st.levels[|st.levels| - 1 := level.(valueCount := level.valueCount + 1)],
        st.hasRoot))
  }

  const NULL: Text := ['n' as int, 'u' as int, 'l' as int, 'l' as int]
  const TRUE: Text := ['t' as int, 'r' as int, 'u' as int, 'e' as int]
  const FALSE: Text := ['f' as int, 'a' as int, 'l' as int, 's' as int, 'e' as int]

  /** The text of an event that opens or closes nothing; `None` for a string the target cannot write. */
  function Atom(target: Target, e: Event): (r: Option<Text>) {
    match e
    case Null => Some(NULL)
    case Bool(b) => Some(if b then TRUE else FALSE)
    case Int(n) => Some(Decimal.Printed(n))
    case Uint(n) => Some(Decimal.Printed(n))
    case Int64(n) => Some(Decimal.Printed(n))
    case Uint64(n) => Some(Decimal.Printed(n))
    case String(str) => WriteString(target, str)
    case Key(str) => WriteString(target, str)
    case _ => None
  }

  /** One handler call; `None` where the source asserts or returns false. Doubles are not modelled. */
  function Write(style: Style, target: Target, st: State, e: Event): (r: Option<State>) {
    match e
    case StartObject => Opened(Prefixed(style, st, false), Level(false, 0), '{' as int)
    case StartArray => Opened(Prefixed(style, st, false), Level(true, 0), '[' as int)
    case EndObject(_) => Closed(style, st, false, '}' as int)
    case EndArray(_) => Closed(style, st, true, ']' as int)
    case _ =>
      match (Prefixed(style, st, e.String? || e.Key?), Atom(target, e))
      case (Some(p), Some(w)) => Some(p.(os := p.os + w))
      case (_, _) => None
  }

  function Opened(st: Option<State>, level: Level, bracket: Byte): (r: Option<State>) {
    match st
    case None => None
    case Some(p) => Some(State(p.os + [bracket], p.levels + [level], p.hasRoot))
  }

  /** `EndObject` and `EndArray`, with their assertions. */
  function Closed(style: Style, st: State, inArray: bool, bracket: Byte): (r: Option<State>) {
    if st.levels == [] then None
    else
      var level := st.levels[|st.levels| - 1];
      if level.inArray != inArray || (!inArray && level.valueCount % 2 != 0) then None
      else Some(State(st.os + Trail(style, |st.levels| - 1, level) + [bracket], st.levels[..|st.levels| - 1], st.hasRoot))
  }

  function WriteAll(style: Style, target: Target, st: State, events: seq<Event>): (r: Option<State>)
    decreases |events|
  {
    if events == [] then Some(st)
    else match Write(style, target, st, events[0])
      case None => None
      case Some(next) => WriteAll(style, target, next, events[1..])
  }

  // ----- the writer object -----

  class GenericWriter {
    const style: Style
    const target: Target
    var os: Text
    var levels: seq<Level>
    var hasRoot: bool

    constructor (style: Style, target: Target)
      ensures this.style == style && this.target == target && Standing() == State([], [], false)
    {
      this.style := style;
      this.target := target;
      os, levels, hasRoot := [], [], false;
    }

    function Standing(): (r: State)
      reads this
    {
      State(os, levels, hasRoot)
    }

    /** `IsComplete`. */
    predicate IsComplete()
      reads this
    {
      hasRoot && levels == []
    }

    method Put(c: Byte)
      modifies this`os
      ensures os == old(os) + [c]
    {
      os := os + [c];
    }

    method PutAll(w: Text)
      modifies this`os
      ensures os == old(os) + w
    {
      os := os + w;
    }

    /** `PutN` of the indent character. */
    method WriteIndent()
      requires style.Pretty?
      modifies this`os
      ensures os == old(os) + Indent(style, |levels|)
    {
      var count := |levels| * style.indentCount;
      for k := 0 to count
        invariant os == old(os) + Repeat(style.indentChar, k)
      {
        Put(style.indentChar);
      }
    }

    /** `Prefix` or `PrettyPrefix`. */
    method Prefix(isString: bool)
      requires Prefixed(style, Standing(), isString).Some?
      modifies this
      ensures Some(Standing()) == Prefixed(style, old(Standing()), isString)
    {
      if levels == [] {
        hasRoot := true;
        return;
      }
      var level := levels[|levels| - 1];
      ghost var before := os;
      if style.Compact? {
        if level.valueCount > 0 {
          if level.inArray {
            Put(',' as int);
          } else {
            Put(if level.valueCount % 2 == 0 then ',' as int else ':' as int);
          }
        }
      } else if level.inArray {
        if level.valueCount > 0 {
          Put(',' as int);
          if style.singleLineArray {
            Put(' ' as int);
          }
        }
        if !style.singleLineArray {
          Put('\n' as int);
          WriteIndent();
        }
      } else {
        if level.valueCount > 0 {
          if level.valueCount % 2 == 0 {
            Put(',' as int);
            Put('\n' as int);
          } else {
            Put(':' as int);
            Put(' ' as int);
          }
        } else {
          Put('\n' as int);
        }
        if level.valueCount % 2 == 0 {
          WriteIndent();
        }
      }
      assert os == before + Lead(style, |levels|, level);
      levels := levels[|levels| - 1 := level.(valueCount := level.valueCount + 1)];
    }

    method Open(inArray: bool)
      requires Prefixed(style, Standing(), false).Some?
      modifies this
      ensures Some(Standing()) == Opened(Prefixed(style, old(Standing()), false), Level(inArray, 0),
                                         if inArray then '[' as int else '{' as int)
    {
      Prefix(false);
      levels := levels + [Level(inArray, 0)];
      Put(if inArray then '[' as int else '{' as int);
    }

    method Close(inArray: bool)
      requires Closed(style, Standing(), inArray, if inArray then ']' as int else '}' as int).Some?
      modifies this
      ensures Some(Standing()) == Closed(style, old(Standing()), inArray, if inArray then ']' as int else '}' as int)
    {
      var level := levels[|levels| - 1];
      ghost var before := os;
      levels := levels[..|levels| - 1];
      if style.Pretty? && level.valueCount != 0 && !(inArray && style.singleLineArray) {
        Put('\n' as int);
        WriteIndent();
      }
      assert os == before + Trail(style, |levels|, level);
      Put(if inArray then ']' as int else '}' as int);
    }

    /** The handler calls; `ok` is false for a string the target cannot write. */
    method Handle(e: Event) returns (ok: bool)
      requires !e.Double?
      requires Prefixed(style, Standing(), e.String? || e.Key?).Some? || e.EndObject? || e.EndArray?
      requires e.EndObject? ==> Closed(style, Standing(), false, '}' as int).Some?
      requires e.EndArray? ==> Closed(style, Standing(), true, ']' as int).Some?
      modifies this
      ensures ok <==> Write(style, target, old(Standing()), e).Some?
      ensures ok ==> Some(Standing()) == Write(style, target, old(Standing()), e)
    {
      ok := true;
      match e
      case StartObject => Open(false);
      case StartArray => Open(true);
      case EndObject(_) => Close(false);
      case EndArray(_) => Close(true);
      case String(str) => Prefix(true); ok, os := WriteStringTo(target, str, os);
      case Key(str) => Prefix(true); ok, os := WriteStringTo(target, str, os);
      case Null => Prefix(false); PutAll(NULL);
      case Bool(b) => Prefix(false); PutAll(if b then TRUE else FALSE);
      case Int(n) => Prefix(false); PutAll(Decimal.Printed(n));
      case Uint(n) => Prefix(false); PutAll(Decimal.Printed(n));
      case Int64(n) => Prefix(false); PutAll(Decimal.Printed(n));
      case Uint64(n) => Prefix(false); PutAll(Decimal.Printed(n));
    }
  }

  // ----- the tree printer -----

  /** Every string of the tree, names included, can be written, and no double occurs. */
  predicate Writable(target: Target, v: Value)
    decreases v, 0
  {
    match v
    case StringValue(str) => WriteString(target, str).Some?
    case ArrayValue(elements) => AllWritable(target, elements)
    case ObjectValue(members) => AllMembersWritable(target, members)
    case DoubleValue(_) => false
    case _ => true
  }

  predicate AllWritable(target: Target, elements: seq<Value>)
    decreases elements, 1
  {
    elements == [] || (Writable(target, elements[0]) && AllWritable(target, elements[1..]))
  }

  predicate AllMembersWritable(target: Target, members: seq<Member>)
    decreases members, 1
  {
    members == []
    || (WriteString(target, members[0].name).Some? && Writable(target, members[0].value)
        && AllMembersWritable(target, members[1..]))
  }

  /** The text of a value with `depth` levels open around it. */
  function Printed(style: Style, target: Target, depth: nat, v: Value): (w: Text)
    requires Writable(target, v)
    decreases v, 0
  {
    match v
    case NullValue => NULL
    case BoolValue(b) => if b then TRUE else FALSE
    case NumberValue(_, _) => Atom(target, NumberEvent(v)).value
    case StringValue(str) => WriteString(target, str).value
    case ArrayValue(elements) =>
      ['[' as int] + PrintedElements(style, target, depth + 1, elements, 0)
      + Trail(style, depth, Level(true, |elements|)) + [']' as int]
    case ObjectValue(members) =>
      ['{' as int] + PrintedMembers(style, target, depth + 1, members, 0)
      + Trail(style, depth, Level(false, 2 * |members|)) + ['}' as int]
  }

  /** The remaining elements of an array, `n` of them printed before. */
  function PrintedElements(style: Style, target: Target, depth: nat, elements: seq<Value>, n: nat): (w: Text)
    requires AllWritable(target, elements)
    decreases elements, 1
  {
    if elements == [] then []
    else
      Lead(style, depth, Level(true, n)) + Printed(style, target, depth, elements[0])
      + PrintedElements(style, target, depth, elements[1..], n + 1)
  }

  function PrintedMembers(style: Style, target: Target, depth: nat, members: seq<Member>, n: nat): (w: Text)
    requires AllMembersWritable(target, members)
    decreases members, 1
  {
    if members == [] then []
    else
      Lead(style, depth, Level(false, 2 * n)) + WriteString(target, members[0].name).value
      + Lead(style, depth, Level(false, 2 * n + 1)) + Printed(style, target, depth, members[0].value)
      + PrintedMembers(style, target, depth, members[1..], n + 1)
  }
}
