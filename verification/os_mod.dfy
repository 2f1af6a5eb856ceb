/**
 The OS-conditional behavior: a configured array of bindings, each tagged
 in its `param2` with the OS it is meant for. On a key event the handler
 reads the current OS once and queues, in array order, every binding
 tagged with it.
 */
module OsMod {
  import opened OsTypes
  import opened Behavior
  import OsLayer

  /** The delay, in milliseconds, queued after each forwarded binding. */
  const QueueWait: nat := 15

  /** One `zmk_behavior_queue_add(event, binding, press, wait)` call. */
  datatype Queued = Queued(event: KeyEvent, binding: Binding, press: bool, wait: nat)

  /** What `queue_os` queues for the snapshot `os`: the bindings tagged with
      `os`, in array order, each with the caller's event and press flag. */
  function Queue(bindings: seq<Binding>, os: Word, event: KeyEvent, press: bool): (q: seq<Queued>)
    ensures |q| <= |bindings|
    ensures forall k :: 0 <= k < |q| ==>
      q[k] == Queued(event, q[k].binding, press, QueueWait) && q[k].binding.param2 == os
    decreases |bindings|
  {
    if |bindings| == 0 then []
    else
      var last := bindings[|bindings| - 1];
      Queue(bindings[..|bindings| - 1], os, event, press)
        + (if last.param2 == os then [Queued(event, last, press, QueueWait)] else [])
  }

  /** The positions of the bindings tagged with `os`. */
  function MatchIndices(bindings: seq<Binding>, os: Word): (idx: seq<nat>)
    ensures forall k :: 0 <= k < |idx| ==> idx[k] < |bindings| && bindings[idx[k]].param2 == os
    ensures forall k, l :: 0 <= k < l < |idx| ==> idx[k] < idx[l]
    ensures forall i :: 0 <= i < |bindings| && bindings[i].param2 == os ==> i in idx
    decreases |bindings|
  {
    if |bindings| == 0 then []
    else
      var n := |bindings| - 1;
      MatchIndices(bindings[..n], os) + (if bindings[n].param2 == os then [n] else [])
  }

  /** The queue is exactly the ordered subsequence of the bindings tagged
      with the snapshot OS: its k-th entry is the binding at the k-th
      matching position. */
  lemma {:induction false} QueueIsMatchingSubsequence(bindings: seq<Binding>, os: Word, event: KeyEvent, press: bool)
    ensures var q := Queue(bindings, os, event, press);
      var idx := MatchIndices(bindings, os);
      |q| == |idx| && forall k :: 0 <= k < |q| ==> q[k].binding == bindings[idx[k]]
    decreases |bindings|
  {
    if |bindings| > 0 {
      var n := |bindings| - 1;
      QueueIsMatchingSubsequence(bindings[..n], os, event, press);
    }
  }

  /** A table with no binding for the snapshot OS queues nothing. */
  lemma NoMatchQueuesNothing(bindings: seq<Binding>, os: Word, event: KeyEvent, press: bool)
    requires forall i :: 0 <= i < |bindings| ==> bindings[i].param2 != os
    ensures Queue(bindings, os, event, press) == []
  {
    QueueIsMatchingSubsequence(bindings, os, event, press);
  }

  /** `queue_os`: one snapshot of the current OS, then one pass over the
      array. The binding array and the store are not changed. */
  method QueueOs(bindings: seq<Binding>, s: OsLayer.Store, event: KeyEvent, press: bool)
    returns (queue: seq<Queued>)
    ensures queue == Queue(bindings, OsLayer.Get(s), event, press)
  {
    var currentOs := OsLayer.Get(s);
    queue := [];
    var i := 0;
    while i < |bindings|
      invariant 0 <= i <= |bindings|
      invariant queue == Queue(bindings[..i], currentOs, event, press)
    {
      var binding := bindings[i];
      assert bindings[..i + 1][..i] == bindings[..i];
      if binding.param2 == currentOs {
        queue := queue + [Queued(event, binding, press, QueueWait)];
      }
      i := i + 1;
    }
    assert bindings[..i] == bindings;
  }

  /** `on_keymap_binding_pressed`: queue the bindings for the OS current at
      press time as presses; the event is always consumed. */
  method OnPressed(bindings: seq<Binding>, s: OsLayer.Store, event: KeyEvent)
    returns (queue: seq<Queued>, rc: int)
    ensures queue == Queue(bindings, OsLayer.Get(s), event, true)
    ensures rc == BehaviorOpaque
  {
    queue := QueueOs(bindings, s, event, true);
    rc := BehaviorOpaque;
  }

  /** `on_keymap_binding_released` as written: it re-reads the OS current at
      release time and queues the matching bindings again as PRESSES. Nothing
      recorded at press time is consulted. */
  method OnReleased(bindings: seq<Binding>, s: OsLayer.Store, event: KeyEvent)
    returns (queue: seq<Queued>, rc: int)
    ensures queue == Queue(bindings, OsLayer.Get(s), event, true)
    ensures rc == BehaviorOpaque
  {
    queue := QueueOs(bindings, s, event, true);
    rc := BehaviorOpaque;
  }

  /** Three bindings A, B, C tagged Linux, Mac and Win. */
  function SampleTable(): seq<Binding> {
    [Binding(1, 0, Linux), Binding(2, 0, Mac), Binding(3, 0, Win)]
  }

  /** With the as-written handlers, pressing on Mac, selecting Linux while the
      key is held, then releasing presses B and then presses A: B is never
      released and A is never released either. */
  lemma ReleaseNotPaired(down: KeyEvent, up: KeyEvent)
    ensures var table := SampleTable();
      var atPress := OsLayer.Select(OsLayer.Init(true), Mac).store;
      var atRelease := OsLayer.Select(atPress, Linux).store;
      Queue(table, OsLayer.Get(atPress), down, true) == [Queued(down, table[1], true, QueueWait)]
      && Queue(table, OsLayer.Get(atRelease), up, true) == [Queued(up, table[0], true, QueueWait)]
  {
  }

  /** The bindings of a queue, in order. */
  function QueuedBindings(q: seq<Queued>): (bs: seq<Binding>)
    ensures |bs| == |q| && forall k :: 0 <= k < |q| ==> bs[k] == q[k].binding
  {
    seq(|q|, k requires 0 <= k < |q| => q[k].binding)
  }

  /** Release entries for the bindings pressed earlier. */
  function ReleaseEntries(bs: seq<Binding>, event: KeyEvent): (q: seq<Queued>)
    ensures |q| == |bs| && forall k :: 0 <= k < |q| ==> q[k] == Queued(event, bs[k], false, QueueWait)
  {
    seq(|bs|, k requires 0 <= k < |bs| => Queued(event, bs[k], false, QueueWait))
  }

  /** For each held key position, the bindings its press queued. */
  type PressRecords = map<nat, seq<Binding>>

  /** The press handler with pairing: queue as before and remember what was
      queued under the key position. */
  function PairedPressed(records: PressRecords, bindings: seq<Binding>, s: OsLayer.Store, event: KeyEvent)
    : (r: (seq<Queued>, PressRecords))
    ensures r.0 == Queue(bindings, OsLayer.Get(s), event, true)
    ensures event.position in r.1 && r.1[event.position] == QueuedBindings(r.0)
    ensures forall p :: p in records && p != event.position ==> p in r.1 && r.1[p] == records[p]
  {
    var q := Queue(bindings, OsLayer.Get(s), event, true);
    (q, records[event.position := QueuedBindings(q)])
  }

  /** The release handler with pairing: release exactly what the matching
      press queued, without reading the current OS; a release with no
      recorded press queues nothing. */
  function PairedReleased(records: PressRecords, event: KeyEvent): (r: (seq<Queued>, PressRecords))
    ensures event.position !in r.1 && r.1 == records - {event.position}
    ensures event.position !in records ==> r.0 == []
    ensures event.position in records ==>
      QueuedBindings(r.0) == records[event.position] && forall k :: 0 <= k < |r.0| ==> !r.0[k].press
  {
    if event.position in records then
      (ReleaseEntries(records[event.position], event), records - {event.position})
    else
      ([], records)
  }

  /** Pairing: whatever selection happens while the key is held, the release
      releases exactly the bindings the press pressed, and the record is
      consumed. */
  lemma PairedReleaseMatchesPress(records: PressRecords, bindings: seq<Binding>, s: OsLayer.Store,
                                  down: KeyEvent, up: KeyEvent)
    requires up.position == down.position
    ensures var (pq, held) := PairedPressed(records, bindings, s, down);
      var (rq, after) := PairedReleased(held, up);
      QueuedBindings(rq) == QueuedBindings(pq)
      && (forall k :: 0 <= k < |rq| ==> !rq[k].press && rq[k].event == up)
      && after == records - {down.position}
  {
  }

  /** On the scenario of `ReleaseNotPaired`, the paired handlers press B and
      then release B. */
  lemma PairedScenario(down: KeyEvent, up: KeyEvent)
    requires up.position == down.position
    ensures var table := SampleTable();
      var atPress := OsLayer.Select(OsLayer.Init(true), Mac).store;
      var (pq, held) := PairedPressed(map[], table, atPress, down);
      var (rq, after) := PairedReleased(held, up);
      pq == [Queued(down, table[1], true, QueueWait)]
      && rq == [Queued(up, table[1], false, QueueWait)]
      && after == map[]
  {
    var table := SampleTable();
    var atPress := OsLayer.Select(OsLayer.Init(true), Mac).store;
    var pq := Queue(table, OsLayer.Get(atPress), down, true);
    ReleaseNotPaired(down, up);
    assert pq == [Queued(down, table[1], true, QueueWait)];
    assert QueuedBindings(pq) == [table[1]];
    var held := map[down.position := [table[1]]];
    assert PairedPressed(map[], table, atPress, down) == (pq, held);
    assert held - {down.position} == map[];
  }
}
