/** The queue of locally issued input events that client-side prediction
    replays on top of the latest confirmed server snapshot
    (`PredictedEventHistory` and `EventSnapshot` in src/prediction.rs). */
module EventHistory {

  datatype Option<T> = None | Some(value: T)

  /** A server tick as the source stores it: an unsigned 32-bit integer. */
  type Tick = t: int | 0 <= t < 0x1_0000_0000

  /** One input event, the confirmed tick it was issued at and the frame
      time it was applied with. `Dt` stands for the source's `f32`. */
  datatype EventSnapshot<E, Dt> = EventSnapshot(value: E, tick: Tick, deltaTime: Dt)

  /** The index of the first entry whose tick is at least `t`, if any: the
      `position(|v| v.tick >= t)` that `remove_stale` searches for. */
  function FirstFresh<E, Dt>(s: seq<EventSnapshot<E, Dt>>, t: Tick): (r: Option<nat>)
    ensures r.Some? ==> r.value < |s| && s[r.value].tick >= t
    ensures r.Some? ==> forall j :: 0 <= j < r.value ==> s[j].tick < t
    ensures r.None? ==> forall j :: 0 <= j < |s| ==> s[j].tick < t
  {
    if s == [] then None
    else if s[0].tick >= t then Some(0)
    else match FirstFresh(s[1..], t)
      case None => None
      case Some(i) => Some(i + 1)
  }

  /** The queue left by `remove_stale(t)`: everything from the first entry
      with tick at least `t` on, or nothing when there is no such entry. */
  function WithoutStale<E, Dt>(s: seq<EventSnapshot<E, Dt>>, t: Tick): (r: seq<EventSnapshot<E, Dt>>)
    ensures |r| <= |s| && r == s[|s| - |r|..]
    ensures forall j :: 0 <= j < |s| - |r| ==> s[j].tick < t
    ensures r == [] || r[0].tick >= t
  {
    match FirstFresh(s, t)
    case Some(i) => s[i..]
    case None => []
  }

  /** The entries of `s` whose tick is at least `t`, in order. */
  function FreshEntries<E, Dt>(s: seq<EventSnapshot<E, Dt>>, t: Tick): seq<EventSnapshot<E, Dt>>
  {
    if s == [] then []
    else if s[0].tick >= t then [s[0]] + FreshEntries(s[1..], t)
    else FreshEntries(s[1..], t)
  }

  /** Ticks never decrease from the front of the queue to its back. */
  predicate TicksSorted<E, Dt>(s: seq<EventSnapshot<E, Dt>>)
  {
    forall i, j :: 0 <= i <= j < |s| ==> s[i].tick <= s[j].tick
  }

  /** The linear search of `iter().position(..)`. */
  method FindFirstFresh<E, Dt>(s: seq<EventSnapshot<E, Dt>>, t: Tick) returns (r: Option<nat>)
    ensures r == FirstFresh(s, t)
  {
    var i := 0;
    while i < |s|
      invariant 0 <= i <= |s|
      invariant forall j :: 0 <= j < i ==> s[j].tick < t
    {
      if s[i].tick >= t {
        FirstFreshUnique(s, t, i);
        return Some(i);
      }
      i := i + 1;
    }
    FirstFreshUnique(s, t, |s|);
    return None;
  }

  /** The characterisation in FirstFresh's contract pins its result down. */
  lemma FirstFreshUnique<E, Dt>(s: seq<EventSnapshot<E, Dt>>, t: Tick, k: nat)
    requires k <= |s|
    requires forall j :: 0 <= j < k ==> s[j].tick < t
    requires k < |s| ==> s[k].tick >= t
    ensures FirstFresh(s, t) == if k < |s| then Some(k) else None
  {
  }

  /** The event queue resource. The source keeps it in a `VecDeque`; here
      the queue is the sequence `entries`, front first. */
  class PredictedEventHistory<E, Dt> {
    var entries: seq<EventSnapshot<E, Dt>>

    /** `PredictedEventHistory::new`: an empty queue. */
    constructor ()
      ensures entries == []
    {
      entries := [];
    }

    /** `insert`: append one entry at the back. */
    method Insert(value: E, tick: Tick, deltaTime: Dt)
      modifies this
      ensures entries == old(entries) + [EventSnapshot(value, tick, deltaTime)]
    {
      entries := entries + [EventSnapshot(value, tick, deltaTime)];
    }

    /** `remove_stale`: drain the entries in front of the first one whose
        tick is at least `latestServerSnapshotTick`, or clear the queue. */
    method RemoveStale(latestServerSnapshotTick: Tick)
      modifies this
      ensures entries == WithoutStale(old(entries), latestServerSnapshotTick)
    {
      var position := FindFirstFresh(entries, latestServerSnapshotTick);
      match position
      case Some(lastIndex) =>
        entries := entries[lastIndex..];
      case None =>
        entries := [];
    }

    /** `predict`: trim as `remove_stale` does, then hand out the remaining
        entries front to back. */
    method Predict(latestServerSnapshotTick: Tick) returns (replay: seq<EventSnapshot<E, Dt>>)
      modifies this
      ensures entries == WithoutStale(old(entries), latestServerSnapshotTick)
      ensures replay == entries
    {
      RemoveStale(latestServerSnapshotTick);
      replay := entries;
    }
  }

  /** Trimming leaves nothing exactly when no entry has a tick of at least `t`. */
  lemma WithoutStaleEmptyIff<E, Dt>(s: seq<EventSnapshot<E, Dt>>, t: Tick)
    ensures WithoutStale(s, t) == [] <==> forall j :: 0 <= j < |s| ==> s[j].tick < t
  {
  }

  /** A second trim with the same or an older tick changes nothing. */
  lemma WithoutStaleIdempotent<E, Dt>(s: seq<EventSnapshot<E, Dt>>, t: Tick, t': Tick)
    requires t' <= t
    ensures WithoutStale(WithoutStale(s, t), t') == WithoutStale(s, t)
  {
  }

  /** Trimming at `t1` and then at a later `t2` is one trim at `t2`: the
      confirmed tick may advance in any number of steps. */
  lemma WithoutStaleCompose<E, Dt>(s: seq<EventSnapshot<E, Dt>>, t1: Tick, t2: Tick)
    requires t1 <= t2
    ensures WithoutStale(WithoutStale(s, t1), t2) == WithoutStale(s, t2)
  {
  }

  /** Trimming a queue that has one more entry at the back. An entry
      appended after a fresh one survives however old its own tick is. */
  lemma WithoutStaleAfterInsert<E, Dt>(s: seq<EventSnapshot<E, Dt>>, e: EventSnapshot<E, Dt>, t: Tick)
    ensures WithoutStale(s + [e], t) ==
              if WithoutStale(s, t) != [] || e.tick >= t then WithoutStale(s, t) + [e] else []
  {
    var s' := s + [e];
    match FirstFresh(s, t)
    case Some(i) =>
      FirstFreshUnique(s', t, i);
      assert s'[i..] == s[i..] + [e];
    case None =>
      FirstFreshUnique(s', t, if e.tick >= t then |s| else |s'|);
      assert s'[|s|..] == [e];
  }

  /** On a queue with non-decreasing ticks, trimming keeps exactly the
      entries whose tick is at least `t`. */
  lemma {:induction false} WithoutStaleSorted<E, Dt>(s: seq<EventSnapshot<E, Dt>>, t: Tick)
    requires TicksSorted(s)
    ensures WithoutStale(s, t) == FreshEntries(s, t)
  {
    if s != [] {
      assert TicksSorted(s[1..]);
      WithoutStaleSorted(s[1..], t);
      if s[0].tick >= t {
        FirstFreshUnique(s[1..], t, 0);
        assert s == [s[0]] + s[1..];
      } else {
        WithoutStaleDropStale(s, t);
      }
    }
  }

  /** A stale entry at the front is dropped like the rest of the stale prefix. */
  lemma WithoutStaleDropStale<E, Dt>(s: seq<EventSnapshot<E, Dt>>, t: Tick)
    requires s != [] && s[0].tick < t
    ensures WithoutStale(s, t) == WithoutStale(s[1..], t)
  {
  }

  /** Trimming at an older tick before appending does not change what a
      later trim leaves: the queue's contents after reconciliation depend
      only on the inputs issued and the newest confirmed tick. */
  lemma TrimThenInsert<E, Dt>(s: seq<EventSnapshot<E, Dt>>, e: EventSnapshot<E, Dt>, t0: Tick, t: Tick)
    requires t0 <= t
    ensures WithoutStale(WithoutStale(s, t0) + [e], t) == WithoutStale(s + [e], t)
  {
    WithoutStaleAfterInsert(WithoutStale(s, t0), e, t);
    WithoutStaleCompose(s, t0, t);
    WithoutStaleAfterInsert(s, e, t);
  }

  /** Events issued at ticks 10, 11 and 12, trimmed at confirmed tick 11:
      the trim keeps the entry whose tick equals the confirmed tick, so the
      tick-11 and tick-12 events remain. */
  lemma TrimKeepsEntryAtConfirmedTick<E, Dt>(a: E, b: E, c: E, dt: Dt)
    ensures var s := [EventSnapshot(a, 10, dt), EventSnapshot(b, 11, dt), EventSnapshot(c, 12, dt)];
            WithoutStale(s, 11) == [EventSnapshot(b, 11, dt), EventSnapshot(c, 12, dt)]
  {
    var s := [EventSnapshot(a, 10, dt), EventSnapshot(b, 11, dt), EventSnapshot(c, 12, dt)];
    FirstFreshUnique(s, 11, 1);
  }

  /** Appending an entry whose tick is no older than the last one keeps the
      ticks sorted: the caller's guarantee for `insert`. */
  lemma InsertKeepsSorted<E, Dt>(s: seq<EventSnapshot<E, Dt>>, e: EventSnapshot<E, Dt>)
    requires TicksSorted(s)
    requires s == [] || s[|s| - 1].tick <= e.tick
    ensures TicksSorted(s + [e])
  {
    var s' := s + [e];
    forall i, j | 0 <= i <= j < |s'|
      ensures s'[i].tick <= s'[j].tick
    {
      if j == |s| && i < |s| {
        assert s[i].tick <= s[|s| - 1].tick;
      }
    }
  }

  /** Trimming keeps a sorted queue sorted, since what remains is a suffix. */
  lemma WithoutStaleKeepsSorted<E, Dt>(s: seq<EventSnapshot<E, Dt>>, t: Tick)
    requires TicksSorted(s)
    ensures TicksSorted(WithoutStale(s, t))
  {
    var r := WithoutStale(s, t);
    var k := |s| - |r|;
    forall i, j | 0 <= i <= j < |r|
      ensures r[i].tick <= r[j].tick
    {
      assert r[i] == s[k + i] && r[j] == s[k + j];
    }
  }
}
