/** Walking a tree with `Accept` into a writer prints that tree: the event machine and the tree printer agree. */
module Printing {
  import opened Bytes
  import opened Events
  import opened Dom
  import opened StringWriting
  import opened Writer

  /** A value may be written next: no root yet, or inside an array, or after a name. */
  predicate AwaitsValue(st: State) {
    if st.levels == [] then !st.hasRoot
    else st.levels[|st.levels| - 1].inArray || st.levels[|st.levels| - 1].valueCount % 2 == 1
  }

  /** Exactly when a handler call is in order: one root, names of members first and each with a value, brackets that close
      what is open, and strings that the target can write. */
  lemma WritesIff(style: Style, target: Target, st: State, e: Event)
    ensures Write(style, target, st, e).Some? <==>
      && (if e.EndArray? then st.levels != [] && st.levels[|st.levels| - 1].inArray
          else if e.EndObject? then
            st.levels != [] && !st.levels[|st.levels| - 1].inArray && st.levels[|st.levels| - 1].valueCount % 2 == 0
          else if st.levels == [] then !st.hasRoot
          else e.String? || e.Key? || st.levels[|st.levels| - 1].inArray || st.levels[|st.levels| - 1].valueCount % 2 == 1)
      && (e.String? || e.Key? ==> WriteString(target, e.str).Some?) && !e.Double?
  {
    hide Lead, Trail, WriteString;
  }

  /** The state after writing, as one value of the current level, the text `w`. */
  function Wrote(style: Style, st: State, w: Text): (r: State)
    requires AwaitsValue(st)
  {
    var p := Prefixed(style, st, false).value;
    p.(os := p.os + w)
  }

  /** The same for `added` values of the innermost level. */
  function Extended(st: State, added: nat, w: Text): (r: State)
    requires st.levels != []
  {
    var top := |st.levels| - 1;
    State(st.os + w, st.levels[top := st.levels[top].(valueCount := st.levels[top].valueCount + added)], st.hasRoot)
  }

  lemma {:induction false} WriteAppend(style: Style, target: Target, st: State, a: seq<Event>, b: seq<Event>)
    ensures WriteAll(style, target, st, a + b)
         == match WriteAll(style, target, st, a) case None => None case Some(mid) => WriteAll(style, target, mid, b)
    decreases |a|
  {
    hide Write;
    if a == [] {
      assert a + b == b;
    } else {
      assert (a + b)[0] == a[0] && (a + b)[1..] == a[1..] + b;
      var next := Write(style, target, st, a[0]);
      if next.Some? {
        WriteAppend(style, target, next.value, a[1..], b);
      }
    }
  }

  /** The events take the writer from `a` to `b`. */
  ghost predicate Writes(style: Style, target: Target, a: State, events: seq<Event>, b: State) {
    WriteAll(style, target, a, events) == Some(b)
  }

  lemma WritesOne(style: Style, target: Target, a: State, e: Event, b: State)
    requires Write(style, target, a, e) == Some(b)
    ensures Writes(style, target, a, [e], b)
  {
    hide Write;
    assert [e][1..] == [];
    assert WriteAll(style, target, b, []) == Some(b);
  }

  lemma WritesThen(style: Style, target: Target, a: State, d: seq<Event>, b: State, e: seq<Event>, c: State)
    requires Writes(style, target, a, d, b) && Writes(style, target, b, e, c)
    ensures Writes(style, target, a, d + e, c)
  {
    WriteAppend(style, target, a, d, e);
  }

  /** The level opened on `st`. */
  function OpenedOn(style: Style, st: State, inArray: bool): (r: State)
    requires AwaitsValue(st)
    ensures |r.levels| == |st.levels| + 1 && r.levels[|st.levels|] == Level(inArray, 0)
    ensures r.levels[..|st.levels|] == Prefixed(style, st, false).value.levels
    ensures r.os == Prefixed(style, st, false).value.os + [if inArray then '[' as int else '{' as int]
    ensures r.hasRoot == Prefixed(style, st, false).value.hasRoot
  {
    Opened(Prefixed(style, st, false), Level(inArray, 0), if inArray then '[' as int else '{' as int).value
  }

  /** A level opened, filled with `n` values and closed leaves one more value written around it. */
  lemma ClosesOpened(style: Style, st: State, inArray: bool, n: nat, body: Text)
    requires AwaitsValue(st) && (inArray || n % 2 == 0)
    ensures var brackets := if inArray then ('[' as int, ']' as int) else ('{' as int, '}' as int);
      var w := [brackets.0] + body + Trail(style, |st.levels|, Level(inArray, n)) + [brackets.1];
      Closed(style, Extended(OpenedOn(style, st, inArray), n, body), inArray, brackets.1) == Some(Wrote(style, st, w))
  {
    hide Lead, Trail, OpenedOn;
    var brackets := if inArray then ('[' as int, ']' as int) else ('{' as int, '}' as int);
    var p := Prefixed(style, st, false).value;
    var full := Extended(OpenedOn(style, st, inArray), n, body);
    var trail := Trail(style, |st.levels|, Level(inArray, n));
    assert full.levels[|st.levels|] == Level(inArray, n);
    assert full.levels[..|full.levels| - 1] == p.levels;
    assert full.os + trail + [brackets.1] == p.os + ([brackets.0] + body + trail + [brackets.1]);
  }

  /** The events of a container: open, the children, close. */
  lemma WritesContainer(style: Style, target: Target, st: State, inArray: bool, n: nat, body: Text, inner: seq<Event>, count: nat)
    requires AwaitsValue(st) && (inArray || n % 2 == 0)
    requires var open := OpenedOn(style, st, inArray);
      Writes(style, target, open, inner, Extended(open, n, body))
    ensures var brackets := if inArray then ('[' as int, ']' as int) else ('{' as int, '}' as int);
      var w := [brackets.0] + body + Trail(style, |st.levels|, Level(inArray, n)) + [brackets.1];
      Writes(style, target, st,
             [if inArray then StartArray else StartObject] + inner + [if inArray then EndArray(count) else EndObject(count)],
             Wrote(style, st, w))
  {
    hide Lead, Trail, Writes, Closed, Wrote;
    var open := OpenedOn(style, st, inArray);
    var full := Extended(open, n, body);
    var start := if inArray then StartArray else StartObject;
    var end := if inArray then EndArray(count) else EndObject(count);
    ClosesOpened(style, st, inArray, n, body);
    var closed := Write(style, target, full, end).value;
    WritesOne(style, target, st, start, open);
    WritesThen(style, target, st, [start], open, inner, full);
    WritesOne(style, target, full, end, closed);
    WritesThen(style, target, st, [start] + inner, full, [end], closed);
  }

  lemma {:induction false} WritesValue(style: Style, target: Target, st: State, v: Value)
    requires Writable(target, v) && AwaitsValue(st)
    ensures Writes(style, target, st, Accept(v), Wrote(style, st, Printed(style, target, |st.levels|, v)))
    decreases v, 0
  {
    hide Lead, Trail, Writes, WriteString, Decimal.Printed, Extended, Wrote, PrintedElements, PrintedMembers;
    match v
    case ArrayValue(elements) =>
      WritesElements(style, target, OpenedOn(style, st, true), elements, 0);
      WritesContainer(style, target, st, true, |elements|,
                      PrintedElements(style, target, |st.levels| + 1, elements, 0), AcceptElements(elements), |elements|);
    case ObjectValue(members) =>
      WritesMembers(style, target, OpenedOn(style, st, false), members, 0);
      WritesContainer(style, target, st, false, 2 * |members|,
                      PrintedMembers(style, target, |st.levels| + 1, members, 0), AcceptMembers(members), |members|);
    case _ =>
      WritesLeaf(style, target, st, v);
  }

  lemma WritesLeaf(style: Style, target: Target, st: State, v: Value)
    requires Writable(target, v) && AwaitsValue(st) && !v.ArrayValue? && !v.ObjectValue?
    ensures Writes(style, target, st, Accept(v), Wrote(style, st, Printed(style, target, |st.levels|, v)))
  {
    hide Lead, Trail, Writes, WriteString, Decimal.Printed;
    WritesOne(style, target, st, Accept(v)[0], Wrote(style, st, Printed(style, target, |st.levels|, v)));
  }

  lemma ExtendedTwice(st: State, m: nat, a: Text, n: nat, b: Text)
    requires st.levels != []
    ensures Extended(Extended(st, m, a), n, b) == Extended(st, m + n, a + b)
  {
    assert st.os + a + b == st.os + (a + b);
  }

  lemma ExtendedByNothing(style: Style, target: Target, st: State)
    requires st.levels != []
    ensures Writes(style, target, st, [], Extended(st, 0, []))
  {
    var top := |st.levels| - 1;
    assert st.levels[top := st.levels[top].(valueCount := st.levels[top].valueCount + 0)] == st.levels;
    assert st.os + [] == st.os;
  }

  /** Writing an element extends the array's level by one. */
  lemma WroteElement(style: Style, st: State, n: nat, w: Text)
    requires st.levels != [] && st.levels[|st.levels| - 1] == Level(true, n)
    ensures var lead := Lead(style, |st.levels|, Level(true, n));
      var next := Wrote(style, st, w);
      next == Extended(st, 1, lead + w) && |next.levels| == |st.levels| && next.levels[|st.levels| - 1] == Level(true, n + 1)
  {
    hide Lead;
    var lead := Lead(style, |st.levels|, Level(true, n));
    assert st.os + lead + w == st.os + (lead + w);
  }

  lemma {:induction false} WritesElements(style: Style, target: Target, st: State, elements: seq<Value>, n: nat)
    requires AllWritable(target, elements)
    requires st.levels != [] && st.levels[|st.levels| - 1] == Level(true, n)
    ensures Writes(style, target, st, AcceptElements(elements),
                   Extended(st, |elements|, PrintedElements(style, target, |st.levels|, elements, n)))
    decreases elements, 1
  {
    hide Lead, Writes, Accept, Wrote;
    if elements == [] {
      ExtendedByNothing(style, target, st);
    } else {
      hide Printed, Extended;
      var depth := |st.levels|;
      var w := Printed(style, target, depth, elements[0]);
      WritesValue(style, target, st, elements[0]);
      var next := Wrote(style, st, w);
      WroteElement(style, st, n, w);
      WritesElements(style, target, next, elements[1..], n + 1);
      ExtendedTwice(st, 1, Lead(style, depth, Level(true, n)) + w,
                    |elements| - 1, PrintedElements(style, target, depth, elements[1..], n + 1));
      WritesThen(style, target, st, Accept(elements[0]), next, AcceptElements(elements[1..]),
                 Extended(st, |elements|, PrintedElements(style, target, depth, elements, n)));
    }
  }

  /** A name with its value. */
  lemma {:induction false} WritesMember(style: Style, target: Target, st: State, m: Member, n: nat)
    requires WriteString(target, m.name).Some? && Writable(target, m.value)
    requires st.levels != [] && st.levels[|st.levels| - 1] == Level(false, 2 * n)
    ensures var depth := |st.levels|;
      Writes(style, target, st, [Key(m.name)] + Accept(m.value),
             Extended(st, 2, Lead(style, depth, Level(false, 2 * n)) + WriteString(target, m.name).value
                             + Lead(style, depth, Level(false, 2 * n + 1)) + Printed(style, target, depth, m.value)))
    decreases m, 1
  {
    hide Lead, Writes, Printed, WriteString;
    var depth := |st.levels|;
    var a := Lead(style, depth, Level(false, 2 * n)) + WriteString(target, m.name).value;
    var b := Lead(style, depth, Level(false, 2 * n + 1)) + Printed(style, target, depth, m.value);
    var named := Extended(st, 1, a);
    assert Write(style, target, st, Key(m.name)).value.os == named.os;
    WritesOne(style, target, st, Key(m.name), named);
    WritesValue(style, target, named, m.value);
    var next := Extended(named, 1, b);
    assert Wrote(style, named, Printed(style, target, depth, m.value)).os == next.os;
    ExtendedTwice(st, 1, a, 1, b);
    WritesThen(style, target, st, [Key(m.name)], named, Accept(m.value), next);
    assert a + b == a + Lead(style, depth, Level(false, 2 * n + 1)) + Printed(style, target, depth, m.value);
  }

  lemma {:induction false} WritesMembers(style: Style, target: Target, st: State, members: seq<Member>, n: nat)
    requires AllMembersWritable(target, members)
    requires st.levels != [] && st.levels[|st.levels| - 1] == Level(false, 2 * n)
    ensures Writes(style, target, st, AcceptMembers(members),
                   Extended(st, 2 * |members|, PrintedMembers(style, target, |st.levels|, members, n)))
    decreases members, 1
  {
    hide Lead, WriteString, Writes;
    if members == [] {
      ExtendedByNothing(style, target, st);
    } else {
      hide Printed;
      var depth, m := |st.levels|, members[0];
      var w := Lead(style, depth, Level(false, 2 * n)) + WriteString(target, m.name).value
               + Lead(style, depth, Level(false, 2 * n + 1)) + Printed(style, target, depth, m.value);
      WritesMember(style, target, st, m, n);
      var next := Extended(st, 2, w);
      WritesMembers(style, target, next, members[1..], n + 1);
      ExtendedTwice(st, 2, w, 2 * (|members| - 1), PrintedMembers(style, target, depth, members[1..], n + 1));
      WritesThen(style, target, st, [Key(m.name)] + Accept(m.value), next, AcceptMembers(members[1..]),
                 Extended(st, 2 * |members|, PrintedMembers(style, target, depth, members, n)));
    }
  }

  /** A fresh writer that walks a tree ends complete, having put out exactly the printed tree. */
  lemma WriterPrints(style: Style, target: Target, v: Value)
    requires Writable(target, v)
    ensures WriteAll(style, target, State([], [], false), Accept(v))
         == Some(State(Printed(style, target, 0, v), [], true))
  {
    hide Printed;
    WritesValue(style, target, State([], [], false), v);
    assert [] + Printed(style, target, 0, v) == Printed(style, target, 0, v);
  }

  /** Where the machine goes on, the object can. */
  lemma WriteAllowsHandle(style: Style, target: Target, st: State, e: Event)
    requires Write(style, target, st, e).Some?
    ensures !e.Double?
    ensures Prefixed(style, st, e.String? || e.Key?).Some? || e.EndObject? || e.EndArray?
    ensures e.EndObject? ==> Closed(style, st, false, '}' as int).Some?
    ensures e.EndArray? ==> Closed(style, st, true, ']' as int).Some?
  {
  }

  /** `Accept` with a fresh writer: every call succeeds, and the writer ends complete with the text of the value. */
  method AcceptWriter(v: Value, writer: GenericWriter)
    requires Writable(writer.target, v) && writer.Standing() == State([], [], false)
    modifies writer
    ensures writer.IsComplete() && writer.os == Printed(writer.style, writer.target, 0, v)
  {
    hide Write, Printed, Prefixed, Closed;
    var events := Dom.Accept(v);
    WriterPrints(writer.style, writer.target, v);
    assert events[0..] == events;
    for i := 0 to |events|
      invariant WriteAll(writer.style, writer.target, writer.Standing(), events[i..])
             == Some(State(Printed(writer.style, writer.target, 0, v), [], true))
    {
      assert events[i..][0] == events[i] && events[i..][1..] == events[i + 1..];
      WriteAllowsHandle(writer.style, writer.target, writer.Standing(), events[i]);
      var ok := writer.Handle(events[i]);
    }
  }
}
