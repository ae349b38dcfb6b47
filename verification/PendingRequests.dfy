/** The request table as an object: its methods against the functions of `Rpc`. */
module PendingRequests {
  import opened Bytes
  import opened Framing
  import opened Rpc

  class RpcManager {
    var nextId: int
    var pending: map<int, Pending>
    /** The calls made so far. */
    ghost var calls: seq<Call>

    constructor ()
      ensures Standing() == Table(1, map[]) && calls == []
    {
      nextId, pending, calls := 1, map[], [];
    }

    function Standing(): (r: Table)
      reads this
    {
      Table(nextId, pending)
    }

    /** `nextRequestId`. */
    method NextRequestId() returns (id: int)
      requires 1 <= nextId <= LAST_ID
      modifies `nextId
      ensures id == old(nextId) && nextId == Advance(id) && 1 <= nextId <= LAST_ID
    {
      id := nextId;
      nextId := if nextId == LAST_ID then -LAST_ID - 1 else nextId + 1;
      if nextId <= 0 {
        nextId := 1;
      }
    }

    /** `addPending`; no callback, no entry. */
    method AddPending(id: int, callback: Option<nat>, timeout: real)
      modifies `pending
      ensures Standing() == Register(old(Standing()), id, callback, timeout)
    {
      if callback.None? {
        return;
      }
      pending := pending[id := Pending(callback.value, timeout)];
    }

    /** `resolve`: the entry is gone before its callback is called. */
    method Resolve(frame: Frame) returns (found: bool)
      modifies `pending, `calls
      ensures found <==> Match(old(Standing()), frame.serial).Some?
      ensures Standing() == if found then Rpc.Remove(old(Standing()), frame.serial) else old(Standing())
      ensures calls == if found then old(calls) + [Call(Match(old(Standing()), frame.serial).value, Reply(frame))] else old(calls)
    {
      if frame.serial <= 0 || frame.serial !in pending {
        return false;
      }
      var callback := pending[frame.serial].callback;
      pending := pending - {frame.serial};
      calls := calls + [Call(callback, Reply(frame))];
      found := true;
    }

    /** `remove`. */
    method Remove(id: int)
      modifies `pending
      ensures Standing() == Rpc.Remove(old(Standing()), id)
    {
      pending := pending - {id};
    }

    /** The loop of `update`: time passes for every entry, the expired ones are taken out while iterating. */
    method TakeExpired(dt: real) returns (ghost ids: seq<int>, callbacks: seq<nat>)
      modifies `pending
      ensures Standing() == Elapse(old(Standing()), dt)
      ensures Lists(ids, Expired(old(Standing()), dt)) && |callbacks| == |ids|
      ensures forall k :: 0 <= k < |ids| ==> ids[k] in old(pending) && callbacks[k] == old(pending)[ids[k]].callback
    {
      ghost var start := Standing();
      ids := [];
      callbacks := [];
      var todo := pending.Keys;
      while exists k :: k in todo
        invariant todo <= start.pending.Keys
        invariant forall id :: id in pending <==> id in start.pending && (id in todo || id !in Expired(start, dt))
        invariant forall id :: id in pending && id in todo ==> pending[id] == start.pending[id]
        invariant forall id :: id in pending && id !in todo ==> pending[id] == Shortened(start.pending[id], dt)
        invariant Lists(ids, Expired(start, dt) - todo)
        invariant |callbacks| == |ids| && forall k :: 0 <= k < |ids| ==> ids[k] in start.pending && callbacks[k] == start.pending[ids[k]].callback
        decreases |todo|
      {
        var id := Pick(todo);
        todo := todo - {id};
        var request := Shortened(pending[id], dt);
        if request.timeout <= 0.0 {
          callbacks := callbacks + [request.callback];
          pending := pending - {id};
          ids := ids + [id];
        } else {
          pending := pending[id := request];
        }
      }
      assert Expired(start, dt) - todo == Expired(start, dt);
      ghost var after := Elapse(start, dt).pending;
      assert forall id :: id in after <==> id in pending;
      assert forall id :: id in pending ==> pending[id] == after[id];
      assert pending == after;
    }

    /** `update`: only when the table is settled are the callbacks called. */
    method Update(dt: real) returns (ghost ids: seq<int>)
      modifies `pending, `calls
      ensures Standing() == Elapse(old(Standing()), dt)
      ensures Lists(ids, Expired(old(Standing()), dt))
      ensures calls == old(calls) + Failures(old(pending), ids, "request timeout")
    {
      hide Elapse, Lists, Expired;
      ghost var start := Standing();
      var callbacks;
      ids, callbacks := TakeExpired(dt);
      assert Failures(start.pending, ids, "request timeout") == ErrorCalls(callbacks, "request timeout");
      CallAll(callbacks, "request timeout");
    }

    /** `failAll`: the table is empty before the first callback is called. */
    method FailAll(error: string) returns (ghost ids: seq<int>)
      modifies `pending, `calls
      ensures Standing() == Clear(old(Standing()))
      ensures Lists(ids, old(pending).Keys)
      ensures calls == old(calls) + Failures(old(pending), ids, error)
    {
      ids := [];
      var callbacks: seq<nat> := [];
      var todo := pending.Keys;
      while exists k :: k in todo
        invariant pending == old(pending) && calls == old(calls) && todo <= pending.Keys && Lists(ids, pending.Keys - todo)
        invariant |callbacks| == |ids| && forall k :: 0 <= k < |ids| ==> ids[k] in pending && callbacks[k] == pending[ids[k]].callback
        decreases |todo|
      {
        var id := Pick(todo);
        todo := todo - {id};
        callbacks := callbacks + [pending[id].callback];
        ids := ids + [id];
      }
      assert pending.Keys - todo == pending.Keys;
      assert Failures(pending, ids, error) == ErrorCalls(callbacks, error);
      pending := map[];
      CallAll(callbacks, error);
    }

    /** The callbacks taken out are called one after the other. */
    method CallAll(callbacks: seq<nat>, error: string)
      modifies `calls
      ensures calls == old(calls) + ErrorCalls(callbacks, error)
    {
      for k := 0 to |callbacks|
        invariant calls == old(calls) + ErrorCalls(callbacks[..k], error)
      {
        calls := calls + [Call(callbacks[k], Error(error))];
        assert ErrorCalls(callbacks[..k + 1], error) == ErrorCalls(callbacks[..k], error) + [Call(callbacks[k], Error(error))];
      }
      assert callbacks[..|callbacks|] == callbacks;
    }
  }

  /** The next entry of an unordered table. */
  method Pick(todo: set<int>) returns (id: int)
    requires exists k :: k in todo
    ensures id in todo
  {
    id :| id in todo;
  }

  ghost function ErrorCalls(callbacks: seq<nat>, error: string): (r: seq<Call>) {
    seq(|callbacks|, k requires 0 <= k < |callbacks| => Call(callbacks[k], Error(error)))
  }
}
