/** Requests between servers over a relay that may lose, repeat and reorder frames. A request's frame carries the negated
    number of the request, its response the number; the relay's own outer frames carry no serial. Every callback is
    followed from its registration on; what a callback itself does are further steps. */
module Relay {
  import opened Bytes
  import opened Rpc

  /** An inner frame under way. `origin` is the request it was sent for, or answers. */
  datatype Message = Message(from: nat, to: nat, serial: int, origin: nat)

  /** Where a request is pending: the server and the request number. */
  datatype Key = Key(node: nat, id: int)

  /** A callback that was called, with the request its frame answers or without a frame. */
  datatype Ran = Ran(callback: nat, answer: Option<nat>)

  /** All servers and the relay. Requests are counted; `key` says where each was made and under which number. */
  datatype World = World(
    tables: map<nat, Table>,
    flight: set<Message>,
    count: nat,
    key: map<nat, Key>,
    registered: set<nat>,
    firing: set<nat>,
    runs: seq<Ran>,
    removed: set<nat>,
    handled: set<nat>)

  datatype Action =
    | Request(node: nat, target: nat, callback: bool, timeout: real, sent: bool)
    | Deliver(m: Message, answered: bool)
    | Lose(m: Message)
    | TimePasses(node: nat, dt: real)
    | FailAll(node: nat)
    | CallBack(u: nat)

  function Start(nodes: set<nat>): (r: World) {
    World(map n | n in nodes :: Table(1, map[]), {}, 0, map[], {}, {}, [], {}, {})
  }

  /** The next request number of a server is neither pending nor carried by a frame of its earlier use. */
  ghost predicate NumberIsFree(w: World, node: nat)
    requires node in w.tables
  {
    var id := w.tables[node].next;
    && id !in w.tables[node].pending
    && forall m :: m in w.flight ==> !(m.from == node && m.serial == 0 - id) && !(m.to == node && m.serial == id)
  }

  ghost predicate Enabled(w: World, a: Action) {
    match a
    case Request(node, _, _, _, _) => node in w.tables && NumberIsFree(w, node)
    case Deliver(m, _) => m in w.flight && m.to in w.tables
    case Lose(m) => m in w.flight
    case TimePasses(node, _) => node in w.tables
    case FailAll(node) => node in w.tables
    case CallBack(u) => u in w.firing
  }

  /** The callbacks of some of a server's requests. */
  function CallbacksOf(t: Table, ids: set<int>): (r: set<nat>)
    requires ids <= t.pending.Keys
  {
    set id | id in ids :: t.pending[id].callback
  }

  /** `requestServerPayload`: registered, sent, and taken back when sending failed. */
  function Requested(w: World, node: nat, target: nat, callback: bool, timeout: real, sent: bool): (r: World)
    requires node in w.tables
  {
    var t, u := w.tables[node], w.count;
    var id := t.next;
    var t1 := Register(t.(next := Advance(id)), id, if callback then Some(u) else None, timeout);
    w.(tables := w.tables[node := if sent then t1 else Remove(t1, id)],
       flight := if sent then w.flight + {Message(node, target, 0 - id, u)} else w.flight,
       count := u + 1,
       key := w.key[u := Key(node, id)],
       registered := if callback then w.registered + {u} else w.registered,
       removed := if callback && !sent then w.removed + {u} else w.removed)
  }

  /** `routeForwardToServer`: a response is matched with a pending request, a request is handled and may be answered. */
  function Delivered(w: World, m: Message, answered: bool): (r: World)
    requires m.to in w.tables
  {
    if m.serial > 0 then
      match Match(w.tables[m.to], m.serial)
      case None => w
      case Some(callback) =>
        w.(tables := w.tables[m.to := Remove(w.tables[m.to], m.serial)], runs := w.runs + [Ran(callback, Some(m.origin))])
    else if m.serial < 0 then
      w.(handled := w.handled + {m.origin},
         flight := if answered then w.flight + {Message(m.to, m.from, 0 - m.serial, m.origin)} else w.flight)
    else w
  }

  function Step(w: World, a: Action): (r: World)
    requires Enabled(w, a)
  {
    match a
    case Request(node, target, callback, timeout, sent) => Requested(w, node, target, callback, timeout, sent)
    case Deliver(m, answered) => Delivered(w, m, answered)
    case Lose(m) => w.(flight := w.flight - {m})
    case TimePasses(node, dt) =>
      var t := w.tables[node];
      w.(tables := w.tables[node := Elapse(t, dt)], firing := w.firing + CallbacksOf(t, Expired(t, dt)))
    case FailAll(node) =>
      var t := w.tables[node];
      w.(tables := w.tables[node := Clear(t)], firing := w.firing + CallbacksOf(t, t.pending.Keys))
    case CallBack(u) => w.(firing := w.firing - {u}, runs := w.runs + [Ran(u, None)])
  }

  // ----- what every step keeps -----

  /** Request `u` is pending where it was made. */
  ghost predicate Waits(w: World, u: nat) {
    && u in w.key && w.key[u].node in w.tables && w.key[u].id in w.tables[w.key[u].node].pending
    && w.tables[w.key[u].node].pending[w.key[u].id].callback == u
  }

  ghost predicate HasRun(w: World, u: nat) { exists k :: 0 <= k < |w.runs| && w.runs[k].callback == u }

  /** Every pending entry is the registration of its own callback, which was neither called nor removed. */
  ghost predicate EntryFine(w: World, node: nat, id: int)
    requires node in w.tables && id in w.tables[node].pending
  {
    var u := w.tables[node].pending[id].callback;
    && id > 0 && u in w.registered && u in w.key && w.key[u] == Key(node, id)
    && u !in w.firing && u !in w.removed && !HasRun(w, u)
  }

  ghost predicate TablesFine(w: World) {
    forall node :: node in w.tables ==>
      1 <= w.tables[node].next <= LAST_ID && forall id :: id in w.tables[node].pending ==> EntryFine(w, node, id)
  }

  /** Each registered callback is in exactly one place. */
  ghost predicate PlacesFine(w: World) {
    && (forall u: nat :: u in w.key <==> u < w.count)
    && w.registered <= w.key.Keys && w.firing <= w.registered && w.removed <= w.registered && w.handled <= w.key.Keys
    && w.firing !! w.removed
    && (forall k :: 0 <= k < |w.runs| ==> w.runs[k].callback in w.registered && w.runs[k].callback !in w.firing && w.runs[k].callback !in w.removed)
    && (forall j, k :: 0 <= j < k < |w.runs| ==> w.runs[j].callback != w.runs[k].callback)
    && forall u :: u in w.registered ==> Waits(w, u) || u in w.firing || u in w.removed || HasRun(w, u)
  }

  /** A frame belongs to the request whose number it carries, and no other request is pending under that number. */
  ghost predicate MessageFine(w: World, m: Message) {
    && m.serial != 0 && m.origin in w.key
    && (m.serial < 0 ==> w.key[m.origin] == Key(m.from, 0 - m.serial))
    && (m.serial > 0 ==> w.key[m.origin] == Key(m.to, m.serial) && m.origin in w.handled)
    && var k := w.key[m.origin];
       k.node in w.tables && k.id in w.tables[k.node].pending ==> w.tables[k.node].pending[k.id].callback == m.origin
  }

  /** A callback called with a frame got the answer to its own request, which the other server handled. */
  ghost predicate AnswersFine(w: World) {
    forall k :: 0 <= k < |w.runs| && w.runs[k].answer.Some? ==>
      w.runs[k].answer.value == w.runs[k].callback && w.runs[k].callback in w.handled
  }

  ghost predicate Inv(w: World) {
    TablesFine(w) && PlacesFine(w) && (forall m :: m in w.flight ==> MessageFine(w, m)) && AnswersFine(w)
  }

  lemma StartKeeps(nodes: set<nat>)
    ensures Inv(Start(nodes))
  {
  }

  lemma RequestKeeps(w: World, node: nat, target: nat, callback: bool, timeout: real, sent: bool)
    requires Inv(w) && node in w.tables && NumberIsFree(w, node)
    ensures Inv(Requested(w, node, target, callback, timeout, sent))
  {
    var x := Requested(w, node, target, callback, timeout, sent);
    var u, id := w.count, w.tables[node].next;
    assert x.runs == w.runs && x.firing == w.firing;
    assert !HasRun(w, u);
    forall n | n in x.tables ensures 1 <= x.tables[n].next <= LAST_ID && forall i :: i in x.tables[n].pending ==> EntryFine(x, n, i) {
      forall i | i in x.tables[n].pending ensures EntryFine(x, n, i) {
        if n != node || i != id {
          assert EntryFine(w, n, i);
        }
      }
    }
    forall v | v in x.registered ensures Waits(x, v) || v in x.firing || v in x.removed || HasRun(x, v) {
      if v != u {
        assert Waits(w, v) ==> w.key[v] != Key(node, id);
      }
    }
    forall m | m in x.flight ensures MessageFine(x, m) {
      if m in w.flight {
        assert MessageFine(w, m);
      }
    }
  }

  /** One more run of a callback that has not run yet. */
  lemma RunsGrow(w: World, x: World, u: nat)
    requires exists o :: x.runs == w.runs + [Ran(u, o)]
    ensures forall v :: HasRun(x, v) <==> HasRun(w, v) || v == u
  {
    assert x.runs[|w.runs|].callback == u;
    assert forall k :: 0 <= k < |w.runs| ==> x.runs[k] == w.runs[k];
  }

  lemma DeliverKeeps(w: World, m: Message, answered: bool)
    requires Inv(w) && m in w.flight && m.to in w.tables
    ensures Inv(Delivered(w, m, answered))
  {
    assert MessageFine(w, m);
    if m.serial > 0 {
      if m.serial in w.tables[m.to].pending {
        AnswerKeeps(w, m);
      }
    } else {
      var x := Delivered(w, m, answered);
      forall n | n in x.tables ensures 1 <= x.tables[n].next <= LAST_ID && forall i :: i in x.tables[n].pending ==> EntryFine(x, n, i) {
        forall i | i in x.tables[n].pending ensures EntryFine(x, n, i) {
          assert EntryFine(w, n, i);
        }
      }
      forall v | v in x.registered ensures Waits(x, v) || v in x.firing || v in x.removed || HasRun(x, v) {
        assert HasRun(w, v) ==> HasRun(x, v);
        assert Waits(w, v) ==> Waits(x, v);
      }
      forall n | n in x.flight ensures MessageFine(x, n) {
        if n in w.flight {
          assert MessageFine(w, n);
        }
      }
    }
  }

  /** A response meets its request. */
  lemma AnswerKeeps(w: World, m: Message)
    requires Inv(w) && m in w.flight && m.to in w.tables && m.serial > 0 && m.serial in w.tables[m.to].pending
    ensures Inv(Delivered(w, m, false))
  {
    var x := Delivered(w, m, false);
    var u := w.tables[m.to].pending[m.serial].callback;
    assert MessageFine(w, m) && EntryFine(w, m.to, m.serial);
    assert x.runs == w.runs + [Ran(u, Some(m.origin))];
    TakenKeeps(w, x, m.to, {m.serial}, {u});
  }

  /** The common part of every step that takes entries out of a table: their callbacks go to the firing ones or have
      just run. */
  lemma TakenKeeps(w: World, x: World, node: nat, ids: set<int>, taken: set<nat>)
    requires Inv(w) && node in w.tables && ids <= w.tables[node].pending.Keys && taken == CallbacksOf(w.tables[node], ids)
    requires x.tables.Keys == w.tables.Keys && forall n :: n in w.tables && n != node ==> x.tables[n] == w.tables[n]
    requires x.tables[node].next == w.tables[node].next && x.tables[node].pending.Keys == w.tables[node].pending.Keys - ids
    requires forall id :: id in x.tables[node].pending ==> x.tables[node].pending[id].callback == w.tables[node].pending[id].callback
    requires x.flight == w.flight && x.count == w.count && x.key == w.key && x.registered == w.registered
    requires x.removed == w.removed && x.handled == w.handled
    requires
      || (x.firing == w.firing + taken && x.runs == w.runs)
      || (exists u :: taken == {u} && x.firing == w.firing && x.runs == w.runs + [Ran(u, Some(u))] && u in w.handled)
    ensures Inv(x)
  {
    forall u | u in taken ensures u in w.registered && u !in w.firing && u !in w.removed && !HasRun(w, u) && u in w.key
      && w.key[u].node == node && w.key[u].id in ids
    {
      var id :| id in ids && w.tables[node].pending[id].callback == u;
      assert EntryFine(w, node, id);
    }
    HasRunAfter(w, x, taken);
    forall n | n in x.tables ensures 1 <= x.tables[n].next <= LAST_ID && forall i :: i in x.tables[n].pending ==> EntryFine(x, n, i) {
      forall i | i in x.tables[n].pending ensures EntryFine(x, n, i) {
        assert EntryFine(w, n, i);
        assert x.tables[n].pending[i].callback !in taken;
      }
    }
    forall v | v in x.registered ensures Waits(x, v) || v in x.firing || v in x.removed || HasRun(x, v) {
      if Waits(w, v) && !Waits(x, v) {
        assert v in taken;
      }
    }
    forall m | m in x.flight ensures MessageFine(x, m) {
      assert MessageFine(w, m);
    }
  }

  lemma HasRunAfter(w: World, x: World, taken: set<nat>)
    requires (exists u :: taken == {u} && x.runs == w.runs + [Ran(u, Some(u))]) || x.runs == w.runs
    ensures forall v :: HasRun(w, v) ==> HasRun(x, v)
    ensures forall v :: HasRun(x, v) ==> HasRun(w, v) || v in taken
    ensures x.runs != w.runs ==> forall v :: v in taken ==> HasRun(x, v)
  {
    assert forall k :: 0 <= k < |w.runs| ==> x.runs[k] == w.runs[k];
    if x.runs != w.runs {
      assert HasRun(x, x.runs[|w.runs|].callback);
    }
  }

  lemma CallKeeps(w: World, u: nat)
    requires Inv(w) && u in w.firing
    ensures Inv(Step(w, CallBack(u)))
  {
    var x := Step(w, CallBack(u));
    assert x.runs == w.runs + [Ran(u, None)];
    RunsGrow(w, x, u);
    forall n | n in x.tables ensures 1 <= x.tables[n].next <= LAST_ID && forall i :: i in x.tables[n].pending ==> EntryFine(x, n, i) {
      forall i | i in x.tables[n].pending ensures EntryFine(x, n, i) {
        assert EntryFine(w, n, i);
      }
    }
    forall v | v in x.registered ensures Waits(x, v) || v in x.firing || v in x.removed || HasRun(x, v) {
      assert Waits(w, v) ==> Waits(x, v);
    }
    forall m | m in x.flight ensures MessageFine(x, m) {
      assert MessageFine(w, m);
    }
  }

  lemma LoseKeeps(w: World, m: Message)
    requires Inv(w)
    ensures Inv(w.(flight := w.flight - {m}))
  {
    var x := w.(flight := w.flight - {m});
    assert forall v :: HasRun(x, v) <==> HasRun(w, v);
    assert forall v :: Waits(x, v) <==> Waits(w, v);
    forall n | n in x.tables ensures forall i :: i in x.tables[n].pending ==> EntryFine(x, n, i) {
      forall i | i in x.tables[n].pending ensures EntryFine(x, n, i) {
        assert EntryFine(w, n, i);
      }
    }
    forall n | n in x.flight ensures MessageFine(x, n) {
      assert MessageFine(w, n);
    }
  }

  lemma StepKeeps(w: World, a: Action)
    requires Inv(w) && Enabled(w, a)
    ensures Inv(Step(w, a))
  {
    hide Inv;
    match a
    case Request(node, target, callback, timeout, sent) => RequestKeeps(w, node, target, callback, timeout, sent);
    case Deliver(m, answered) => DeliverKeeps(w, m, answered);
    case Lose(m) => LoseKeeps(w, m);
    case TimePasses(node, dt) =>
      var t := w.tables[node];
      TakenKeeps(w, Step(w, a), node, Expired(t, dt), CallbacksOf(t, Expired(t, dt)));
    case FailAll(node) =>
      var t := w.tables[node];
      TakenKeeps(w, Step(w, a), node, t.pending.Keys, CallbacksOf(t, t.pending.Keys));
    case CallBack(u) => CallKeeps(w, u);
  }

  // ----- runs -----

  ghost predicate CanRun(w: World, actions: seq<Action>)
    decreases |actions|
  {
    actions == [] || (Enabled(w, actions[0]) && CanRun(Step(w, actions[0]), actions[1..]))
  }

  ghost function Run(w: World, actions: seq<Action>): (r: World)
    requires CanRun(w, actions)
    decreases |actions|
  {
    if actions == [] then w else Run(Step(w, actions[0]), actions[1..])
  }

  lemma {:induction false} RunKeeps(w: World, actions: seq<Action>)
    requires Inv(w) && CanRun(w, actions)
    ensures Inv(Run(w, actions))
    decreases |actions|
  {
    hide Inv, Step, Enabled;
    if actions != [] {
      StepKeeps(w, actions[0]);
      RunKeeps(Step(w, actions[0]), actions[1..]);
    }
  }

  /** The pending entries of all servers. */
  function Entries(w: World): (r: set<Key>) {
    set n, id | n in w.tables && id in w.tables[n].pending :: Key(n, id)
  }

  function Callbacks(runs: seq<Ran>): (r: set<nat>) { set k | 0 <= k < |runs| :: runs[k].callback }

  lemma {:induction false} DistinctCallbacks(runs: seq<Ran>)
    requires forall j, k :: 0 <= j < k < |runs| ==> runs[j].callback != runs[k].callback
    ensures |Callbacks(runs)| == |runs|
    decreases |runs|
  {
    if runs != [] {
      var n := |runs| - 1;
      DistinctCallbacks(runs[..n]);
      assert Callbacks(runs) == Callbacks(runs[..n]) + {runs[n].callback};
      assert runs[n].callback !in Callbacks(runs[..n]);
    }
  }

  lemma {:induction false} OneToOne(keys: set<Key>, us: set<nat>, key: map<nat, Key>)
    requires forall u :: u in us ==> u in key && key[u] in keys
    requires forall k :: k in keys ==> exists u :: u in us && key[u] == k
    requires forall u, v :: u in us && v in us && key[u] == key[v] ==> u == v
    ensures |keys| == |us|
    decreases |us|
  {
    if u :| u in us {
      OneToOne(keys - {key[u]}, us - {u}, key);
      assert us == us - {u} + {u} && keys == keys - {key[u]} + {key[u]};
    } else {
      assert us == {};
      assert keys == {};
    }
  }

  /** The registered callbacks whose request is pending. */
  ghost function Waiting(w: World): (r: set<nat>) { set u | u in w.registered && Waits(w, u) }

  lemma WaitingAreEntries(w: World)
    requires TablesFine(w)
    ensures |Entries(w)| == |Waiting(w)|
  {
    var waiting := Waiting(w);
    forall k | k in Entries(w) ensures exists u :: u in waiting && w.key[u] == k {
      assert EntryFine(w, k.node, k.id);
      assert w.tables[k.node].pending[k.id].callback in waiting;
    }
    forall u, v | u in waiting && v in waiting && w.key[u] == w.key[v] ensures u == v {
      assert Waits(w, u) && Waits(w, v);
    }
    forall u | u in waiting ensures w.key[u] in Entries(w) {
      assert Waits(w, u);
    }
    OneToOne(Entries(w), waiting, w.key);
  }

  lemma WaitingIsApart(w: World)
    requires TablesFine(w)
    ensures forall u :: u in Waiting(w) ==> u !in w.firing && u !in w.removed && !HasRun(w, u)
  {
    forall u | u in Waiting(w) ensures u !in w.firing && u !in w.removed && !HasRun(w, u) {
      assert EntryFine(w, w.key[u].node, w.key[u].id);
    }
  }

  lemma CallbacksHaveRun(w: World)
    ensures forall u :: u in Callbacks(w.runs) <==> HasRun(w, u)
  {
  }

  /** Registered is pending plus about to be called plus called plus removed. */
  lemma Accounting(w: World)
    requires Inv(w)
    ensures |w.registered| == |Entries(w)| + |w.firing| + |w.runs| + |w.removed|
  {
    hide MessageFine, AnswersFine, Entries, HasRun, Callbacks, Waits, EntryFine;
    WaitingAreEntries(w);
    DistinctCallbacks(w.runs);
    WaitingIsApart(w);
    CallbacksHaveRun(w);
    var waiting, ran := Waiting(w), Callbacks(w.runs);
    AllPlaces(w);
    Disjoint4(waiting, w.firing, ran, w.removed);
  }

  lemma AllPlaces(w: World)
    requires TablesFine(w) && PlacesFine(w)
    ensures w.registered == Waiting(w) + w.firing + Callbacks(w.runs) + w.removed
    ensures Waiting(w) !! w.firing !! Callbacks(w.runs) !! w.removed
  {
    hide TablesFine, Waits;
    WaitingIsApart(w);
    CallbacksHaveRun(w);
    forall u | u in w.registered ensures u in Waiting(w) + w.firing + Callbacks(w.runs) + w.removed {
    }
    forall u | u in Callbacks(w.runs) ensures u in w.registered && u !in w.firing && u !in w.removed {
    }
  }

  lemma Disjoint4(a: set<nat>, b: set<nat>, c: set<nat>, d: set<nat>)
    requires a !! b !! c !! d
    ensures |a + b + c + d| == |a| + |b| + |c| + |d|
  {
  }

  /** After any run over any such relay, each registered callback was called at most once, with a frame only when that
      frame answers its very request, and none is lost: it waits, is about to be called, was called or was removed. */
  lemma EveryRun(nodes: set<nat>, actions: seq<Action>)
    requires CanRun(Start(nodes), actions)
    ensures var w := Run(Start(nodes), actions);
      && (forall j, k :: 0 <= j < k < |w.runs| ==> w.runs[j].callback != w.runs[k].callback)
      && (forall k :: 0 <= k < |w.runs| ==> w.runs[k].callback in w.registered)
      && (forall k :: 0 <= k < |w.runs| && w.runs[k].answer.Some? ==>
            w.runs[k].answer.value == w.runs[k].callback && w.runs[k].callback in w.handled)
      && |w.registered| == |Entries(w)| + |w.firing| + |w.runs| + |w.removed|
  {
    hide TablesFine, MessageFine;
    StartKeeps(nodes);
    RunKeeps(Start(nodes), actions);
    Accounting(Run(Start(nodes), actions));
  }
}
