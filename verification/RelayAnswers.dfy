/** What gets through: every step of the relay by what it does to the requests, and requests answered, timed out and
    failed. The laws speak of who waits, who was called and what is under way, not of the tables. */
module RelayAnswers {
  import opened Bytes
  import opened Rpc
  import opened Relay

  // ----- requests -----

  /** The time a waiting request has left. */
  function TimeLeft(w: World, u: nat): (r: real)
    requires u in w.key && w.key[u].node in w.tables && w.key[u].id in w.tables[w.key[u].node].pending
  {
    w.tables[w.key[u].node].pending[w.key[u].id].timeout
  }

  /** The others wait or not as before, with the same time left. */
  ghost predicate OthersWait(w: World, x: World, except: set<nat>) {
    forall v :: v in w.key && v !in except ==>
      v in x.key && x.key[v] == w.key[v] && (Waits(x, v) <==> Waits(w, v)) && (Waits(w, v) ==> TimeLeft(x, v) == TimeLeft(w, v))
  }

  /** A request that is sent waits, if it has a callback, and its frame is under way; one that is not is taken back. */
  lemma RequestGoesOut(w: World, node: nat, target: nat, callback: bool, timeout: real, sent: bool)
    requires Inv(w) && Enabled(w, Request(node, target, callback, timeout, sent))
    ensures var x, u := Step(w, Request(node, target, callback, timeout, sent)), w.count;
      && u !in w.key && x.count == u + 1 && u in x.key && x.key[u].node == node && x.key[u].id > 0
      && (Waits(x, u) <==> callback && sent) && (Waits(x, u) ==> TimeLeft(x, u) == timeout)
      && (u in x.registered <==> callback) && (u in x.removed <==> callback && !sent)
      && x.flight == w.flight + (if sent then {Message(node, target, 0 - x.key[u].id, u)} else {})
      && x.registered - {u} == w.registered && x.removed - {u} == w.removed
      && x.firing == w.firing && x.runs == w.runs && x.handled == w.handled && OthersWait(w, x, {})
      && x.tables.Keys == w.tables.Keys
  {
    var x, u := Step(w, Request(node, target, callback, timeout, sent)), w.count;
    var id := w.tables[node].next;
    assert u !in w.registered && u !in w.removed;
    forall v | v in w.key
      ensures v in x.key && x.key[v] == w.key[v] && (Waits(x, v) <==> Waits(w, v)) && (Waits(w, v) ==> TimeLeft(x, v) == TimeLeft(w, v))
    {
    }
  }

  /** A request frame that arrives is handled, and its answer, if there is one, goes back under its number. */
  lemma RequestIsHandled(w: World, m: Message, answered: bool)
    requires Inv(w) && Enabled(w, Deliver(m, answered)) && m.serial < 0
    ensures var x := Step(w, Deliver(m, answered));
      && x.handled == w.handled + {m.origin}
      && x.flight == w.flight + (if answered then {Message(m.to, m.from, 0 - m.serial, m.origin)} else {})
      && x.tables == w.tables && x.key == w.key && x.count == w.count && x.registered == w.registered && x.removed == w.removed
      && x.firing == w.firing && x.runs == w.runs && OthersWait(w, x, {})
  {
  }

  /** A response that arrives calls its request if that waits, with its own answer, and otherwise nothing. */
  lemma ResponseCalls(w: World, m: Message, answered: bool)
    requires Inv(w) && Enabled(w, Deliver(m, answered)) && m.serial > 0
    ensures var x := Step(w, Deliver(m, answered));
      && (m.serial in w.tables[m.to].pending <==> Waits(w, m.origin))
      && x.runs == w.runs + (if Waits(w, m.origin) then [Ran(m.origin, Some(m.origin))] else [])
      && !Waits(x, m.origin) && OthersWait(w, x, {m.origin})
      && x.flight == w.flight && x.key == w.key && x.count == w.count && x.registered == w.registered && x.removed == w.removed
      && x.firing == w.firing && x.handled == w.handled && x.tables.Keys == w.tables.Keys
  {
    assert MessageFine(w, m);
    var x := Step(w, Deliver(m, answered));
    var k := w.key[m.origin];
    assert k == Key(m.to, m.serial);
    if k.id in w.tables[k.node].pending {
      assert EntryFine(w, k.node, k.id);
      forall v | v in w.key && v != m.origin
        ensures (Waits(x, v) <==> Waits(w, v)) && (Waits(w, v) ==> TimeLeft(x, v) == TimeLeft(w, v))
      {
        if Waits(w, v) {
          assert EntryFine(w, w.key[v].node, w.key[v].id);
          assert w.key[v] != k;
        }
      }
    }
  }

  ghost function RunsOf(w: World, u: nat): (r: set<nat>) { set k | 0 <= k < |w.runs| && w.runs[k].callback == u }

  /** Between `w` and `x` the frame `a` went under way, and its delivery calls `u`, this once, and ends its waiting. */
  ghost predicate AnswersWith(w: World, x: World, u: nat, a: Message) {
    && x.flight == w.flight + {a}
    && forall answered :: Enabled(x, Deliver(a, answered)) && CalledOnce(w, Step(x, Deliver(a, answered)), u)
  }

  ghost predicate CalledOnce(w: World, y: World, u: nat) {
    y.runs == w.runs + [Ran(u, Some(u))] && !Waits(y, u) && |RunsOf(y, u)| == 1
  }

  /** In every world that can be reached, a waiting request whose frame is under way to a server of the relay is answered
      by two deliveries: that frame, and the frame the server sends for it. Its callback is then called, this once, with
      its own answer, and waits no longer. */
  lemma RequestIsAnswered(nodes: set<nat>, actions: seq<Action>, u: nat, m: Message)
    requires CanRun(Start(nodes), actions)
    requires var w := Run(Start(nodes), actions);
      Waits(w, u) && m in w.flight && m.origin == u && m.serial < 0 && m.to in w.tables
    ensures var w := Run(Start(nodes), actions);
      && Enabled(w, Deliver(m, true))
      && exists a: Message :: a.from == m.to && a.to == m.from && AnswersWith(w, Step(w, Deliver(m, true)), u, a)
  {
    hide Inv, Step, Waits, RunsOf, OthersWait;
    StartKeeps(nodes);
    RunKeeps(Start(nodes), actions);
    var w := Run(Start(nodes), actions);
    RequestIsHandled(w, m, true);
    StepKeeps(w, Deliver(m, true));
    var x := Step(w, Deliver(m, true));
    var a := Message(m.to, m.from, 0 - m.serial, u);
    FrameOfRequest(w, m);
    StillWaits(w, x, u);
    forall answered ensures Enabled(x, Deliver(a, answered)) && CalledOnce(w, Step(x, Deliver(a, answered)), u)
    {
      ResponseCalls(x, a, answered);
      StepKeeps(x, Deliver(a, answered));
      RunsOnce(Step(x, Deliver(a, answered)), |w.runs|);
    }
    assert AnswersWith(w, x, u, a);
  }

  lemma FrameOfRequest(w: World, m: Message)
    requires Inv(w) && m in w.flight && m.serial < 0
    ensures Waits(w, m.origin) ==> m.from in w.tables
  {
    assert MessageFine(w, m);
  }

  lemma StillWaits(w: World, x: World, u: nat)
    requires OthersWait(w, x, {}) && Waits(w, u)
    ensures Waits(x, u)
  {
  }

  lemma RunsOnce(w: World, k: nat)
    requires Inv(w) && k < |w.runs|
    ensures |RunsOf(w, w.runs[k].callback)| == 1
  {
    assert RunsOf(w, w.runs[k].callback) == {k};
  }

  // ----- time -----

  /** Time that passes at a server takes out exactly the requests whose time is up; they are about to be called. */
  lemma TimeTakes(w: World, node: nat, dt: real)
    requires Inv(w) && Enabled(w, TimePasses(node, dt))
    ensures var x := Step(w, TimePasses(node, dt));
      && (forall u :: Waits(w, u) ==>
            if w.key[u].node != node then Waits(x, u) && TimeLeft(x, u) == TimeLeft(w, u)
            else if TimeLeft(w, u) <= dt then !Waits(x, u) && u in x.firing
            else Waits(x, u) && TimeLeft(x, u) == TimeLeft(w, u) - dt)
      && (forall u :: Waits(x, u) ==> Waits(w, u))
      && (forall u :: u in x.firing <==> u in w.firing || (Waits(w, u) && w.key[u].node == node && TimeLeft(w, u) <= dt))
      && x.flight == w.flight && x.key == w.key && x.count == w.count && x.registered == w.registered && x.removed == w.removed
      && x.runs == w.runs && x.handled == w.handled && x.tables.Keys == w.tables.Keys
  {
    var x := Step(w, TimePasses(node, dt));
    var t := w.tables[node];
    forall u | u in x.firing && u !in w.firing ensures Waits(w, u) && w.key[u].node == node && TimeLeft(w, u) <= dt {
      var id :| id in Expired(t, dt) && t.pending[id].callback == u;
      assert EntryFine(w, node, id);
    }
    forall u | Waits(w, u) && w.key[u].node == node && TimeLeft(w, u) <= dt ensures u in x.firing {
      assert w.key[u].id in Expired(t, dt);
    }
  }

  /** Failing a server takes out all its requests. */
  lemma FailTakes(w: World, node: nat)
    requires Inv(w) && Enabled(w, FailAll(node))
    ensures var x := Step(w, FailAll(node));
      && (forall u :: u in w.key ==>
            (Waits(x, u) <==> Waits(w, u) && w.key[u].node != node) && (Waits(x, u) ==> TimeLeft(x, u) == TimeLeft(w, u)))
      && (forall u :: u in x.firing <==> u in w.firing || (Waits(w, u) && w.key[u].node == node))
      && x.flight == w.flight && x.key == w.key && x.registered == w.registered && x.removed == w.removed
      && x.runs == w.runs && x.handled == w.handled && x.tables.Keys == w.tables.Keys
  {
    var x := Step(w, FailAll(node));
    var t := w.tables[node];
    forall u | u in x.firing && u !in w.firing ensures Waits(w, u) && w.key[u].node == node {
      var id :| id in t.pending.Keys && t.pending[id].callback == u;
      assert EntryFine(w, node, id);
    }
  }

  /** A callback that is due is called without a frame, and one lost frame is all a loss loses. */
  lemma DueIsCalled(w: World, u: nat, m: Message)
    requires Inv(w)
    ensures Enabled(w, CallBack(u)) ==>
      var x := Step(w, CallBack(u));
      x == w.(firing := w.firing - {u}, runs := w.runs + [Ran(u, None)]) && OthersWait(w, x, {})
    ensures Enabled(w, Lose(m)) ==> Step(w, Lose(m)) == w.(flight := w.flight - {m}) && OthersWait(w, Step(w, Lose(m)), {})
  {
  }

  /** A request that waits no longer, or never did, does not come to wait again. */
  lemma NeverAgain(w: World, a: Action, u: nat)
    requires Inv(w) && Enabled(w, a) && u in w.key && !Waits(w, u)
    ensures u in Step(w, a).key && !Waits(Step(w, a), u)
  {
    hide Step, Inv;
    match a
    case Request(node, target, callback, timeout, sent) => RequestGoesOut(w, node, target, callback, timeout, sent);
    case Deliver(m, answered) =>
      if m in w.flight { FrameHasSerial(w, m); }
      if m.serial > 0 { ResponseCalls(w, m, answered); } else { RequestIsHandled(w, m, answered); }
    case Lose(m) => DueIsCalled(w, 0, m);
    case TimePasses(node, dt) => TimeTakes(w, node, dt);
    case FailAll(node) => FailTakes(w, node);
    case CallBack(v) => DueIsCalled(w, v, Message(0, 0, 0, 0));
  }

  lemma FrameHasSerial(w: World, m: Message)
    requires Inv(w) && m in w.flight
    ensures m.serial != 0
  {
    assert MessageFine(w, m);
  }

  lemma {:induction false} NeverAgainInRun(w: World, actions: seq<Action>, u: nat)
    requires Inv(w) && CanRun(w, actions) && u in w.key && !Waits(w, u)
    ensures !Waits(Run(w, actions), u)
    decreases |actions|
  {
    hide Inv, Step, Enabled, Waits;
    if actions != [] {
      StepKeeps(w, actions[0]);
      NeverAgain(w, actions[0], u);
      NeverAgainInRun(Step(w, actions[0]), actions[1..], u);
    }
  }

  /** The time that passes at a server in a run. */
  function TimeAt(actions: seq<Action>, node: nat): (r: real) {
    if actions == [] then 0.0
    else
      (if actions[0].TimePasses? && actions[0].node == node then actions[0].dt else 0.0) + TimeAt(actions[1..], node)
  }

  /** A step that is no time at its server leaves a waiting request its time, or ends its waiting. */
  lemma KeepsTime(w: World, a: Action, u: nat)
    requires Inv(w) && Enabled(w, a) && Waits(w, u) && !(a.TimePasses? && a.node == w.key[u].node)
    ensures var x := Step(w, a); u in x.key && x.key[u] == w.key[u] && (Waits(x, u) ==> TimeLeft(x, u) == TimeLeft(w, u))
  {
    hide Step, Inv;
    match a
    case Request(node, target, callback, timeout, sent) => RequestGoesOut(w, node, target, callback, timeout, sent);
    case Deliver(m, answered) =>
      FrameHasSerial(w, m);
      if m.serial > 0 { ResponseCalls(w, m, answered); } else { RequestIsHandled(w, m, answered); }
    case Lose(m) => DueIsCalled(w, 0, m);
    case TimePasses(node, dt) => TimeTakes(w, node, dt);
    case FailAll(node) => FailTakes(w, node);
    case CallBack(v) => DueIsCalled(w, v, Message(0, 0, 0, 0));
  }

  /** No request outlives its timeout: once that much time has passed at its server it waits no longer, whatever else
      happened. */
  lemma {:induction false} TimesOut(w: World, actions: seq<Action>, u: nat)
    requires Inv(w) && CanRun(w, actions) && Waits(w, u) && TimeLeft(w, u) > 0.0
    requires TimeAt(actions, w.key[u].node) >= TimeLeft(w, u)
    ensures !Waits(Run(w, actions), u)
    decreases |actions|
  {
    hide Inv, Step, Enabled, Waits;
    assert actions != [];
    var a := actions[0];
    var x := Step(w, a);
    StepKeeps(w, a);
    WaitsMeans(w, u);
    if a.TimePasses? && a.node == w.key[u].node {
      TimeTakes(w, a.node, a.dt);
    } else {
      KeepsTime(w, a, u);
    }
    if Waits(x, u) {
      WaitsMeans(x, u);
      TimesOut(x, actions[1..], u);
    } else {
      NeverAgainInRun(x, actions[1..], u);
    }
  }

  lemma WaitsMeans(w: World, u: nat)
    requires Waits(w, u)
    ensures u in w.key && w.key[u].node in w.tables && w.key[u].id in w.tables[w.key[u].node].pending
  {
  }

  // ----- request numbers -----

  /** The number a manager gives after `n` others. */
  function NumberAfter(id: int, n: nat): (r: int) { if n == 0 then id else Advance(NumberAfter(id, n - 1)) }

  /** Numbers run through 1 to 2^31 - 1 in turn, so two of them are the same exactly when a multiple of that many requests
      lie between. */
  lemma {:induction false} NumbersCycle(id: int, n: nat)
    requires 1 <= id <= 0x7FFF_FFFF
    ensures 1 <= NumberAfter(id, n) <= 0x7FFF_FFFF && NumberAfter(id, n) == 1 + (id - 1 + n) % 0x7FFF_FFFF
    decreases n
  {
    if n > 0 {
      NumbersCycle(id, n - 1);
      NextInCycle(id - 1 + n - 1);
    }
  }

  lemma NextInCycle(k: nat)
    ensures 1 + (k + 1) % 0x7FFF_FFFF == Advance(1 + k % 0x7FFF_FFFF)
  {
    var q, r := k / LAST_ID, k % LAST_ID;
    assert k + 1 == q * LAST_ID + r + 1;
    if r == LAST_ID - 1 {
      assert k + 1 == (q + 1) * LAST_ID;
    }
  }
}
