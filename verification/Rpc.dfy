/** The table of pending requests: request numbers, callbacks with their timeouts, and the calls made to them. A callback
    is known by the number of the request it was registered for. */
module Rpc {
  import opened Bytes
  import opened Framing

  datatype Pending = Pending(callback: nat, timeout: real)

  /** The manager's state. */
  datatype Table = Table(next: int, pending: map<int, Pending>)

  const LAST_ID: int := 0x7FFF_FFFF

  /** `++m_nextRequestId`, wrapping to 1 as its guard intends. */
  function Advance(id: int): (r: int) { if id >= LAST_ID then 1 else id + 1 }

  function Register(t: Table, id: int, callback: Option<nat>, timeout: real): (r: Table) {
    if callback.None? then t else t.(pending := t.pending[id := Pending(callback.value, timeout)])
  }

  function Remove(t: Table, id: int): (r: Table) { t.(pending := t.pending - {id}) }

  /** The callback a response serial finds. */
  function Match(t: Table, serial: int): (r: Option<nat>) {
    if serial > 0 && serial in t.pending then Some(t.pending[serial].callback) else None
  }

  /** The requests whose time runs out within `dt`. */
  function Expired(t: Table, dt: real): (r: set<int>) {
    set id | id in t.pending && t.pending[id].timeout - dt <= 0.0
  }

  /** `update`: the others wait on with less time. */
  function Elapse(t: Table, dt: real): (r: Table) {
    t.(pending := map id | id in t.pending && id !in Expired(t, dt) :: Shortened(t.pending[id], dt))
  }

  function Shortened(p: Pending, dt: real): (r: Pending) { p.(timeout := p.timeout - dt) }

  function Clear(t: Table): (r: Table) { t.(pending := map[]) }

  /** What a callback is called with: a frame, or no frame and an error. */
  datatype Result = Reply(frame: Frame) | Error(message: string)

  datatype Call = Call(callback: nat, result: Result)

  /** Calls with an error to the callbacks of some requests, in some order. */
  function Failures(pending: map<int, Pending>, ids: seq<int>, message: string): (r: seq<Call>)
    requires forall k :: 0 <= k < |ids| ==> ids[k] in pending
    ensures |r| == |ids|
    ensures forall k :: 0 <= k < |ids| ==> r[k].callback == pending[ids[k]].callback && r[k].result == Error(message)
  {
    seq(|ids|, k requires 0 <= k < |ids| => Call(pending[ids[k]].callback, Error(message)))
  }

  /** The sequence lists the set, each element once. */
  ghost predicate Lists(ids: seq<int>, all: set<int>) {
    && (forall k :: 0 <= k < |ids| ==> ids[k] in all) && (forall id :: id in all ==> id in ids)
    && forall j, k :: 0 <= j < k < |ids| ==> ids[j] != ids[k]
  }
}
