/** The two observer systems that apply input events to components
    (src/prediction.rs): `server_update_system`, the authoritative apply,
    and `predicted_update_system`, client-side reconciliation by replay.
    An ECS query becomes a sequence of rows in iteration order, each row
    holding the components the query reads; the component the system
    writes is the array element at the row's index. */
module PredictionSystems {
  import opened EventHistory
  import opened EventReplay

  // ---------------------------------------------------------------------
  // Server side

  /** One entity visited by the server query: its `NetworkOwner`, whether
      it carries the `Predicted` marker, and its context component `T`. */
  datatype ServerSubject<Entity, Ctx> = ServerSubject(owner: Entity, predicted: bool, context: Ctx)

  /** The subject is matched by `Without<Predicted>` and is owned by the
      client that sent the event. */
  predicate ServerApplies<Entity(==), Ctx>(s: ServerSubject<Entity, Ctx>, clientEntity: Entity)
  {
    !s.predicted && s.owner == clientEntity
  }

  /** `server_update_system`: apply the received event once to the
      component of every non-predicted subject owned by the sender, with
      the server's frame time. */
  method ServerUpdateSystem<Entity(==), C, E, Dt, Ctx>(apply: (C, E, Dt, Ctx) -> C,
                                                      clientEntity: Entity, event: E, deltaTime: Dt,
                                                      subjects: seq<ServerSubject<Entity, Ctx>>,
                                                      components: array<C>)
    requires components.Length == |subjects|
    modifies components
    ensures forall i :: 0 <= i < |subjects| && ServerApplies(subjects[i], clientEntity) ==>
              components[i] == apply(old(components[i]), event, deltaTime, subjects[i].context)
    ensures forall i :: 0 <= i < |subjects| && !ServerApplies(subjects[i], clientEntity) ==>
              components[i] == old(components[i])
  {
    var i := 0;
    while i < |subjects|
      invariant 0 <= i <= |subjects|
      invariant forall j :: 0 <= j < i && ServerApplies(subjects[j], clientEntity) ==>
                  components[j] == apply(old(components[j]), event, deltaTime, subjects[j].context)
      invariant forall j :: 0 <= j < i && !ServerApplies(subjects[j], clientEntity) ==>
                  components[j] == old(components[j])
      invariant forall j :: i <= j < |subjects| ==> components[j] == old(components[j])
    {
      var s := subjects[i];
      if !s.predicted && s.owner == clientEntity {
        components[i] := apply(components[i], event, deltaTime, s.context);
      }
      i := i + 1;
    }
  }

  // ---------------------------------------------------------------------
  // Client side

  /** One entity visited by the client query: its markers, what its
      `SnapshotBuffer` reports (`latest_snapshot`, `latest_snapshot_tick`),
      the last tick its `ConfirmHistory` confirms, and its context `T`. */
  datatype PredictedRow<C, Ctx> = PredictedRow(predicted: bool, interpolated: bool,
                                               latestSnapshot: C, latestSnapshotTick: Tick,
                                               confirmedTick: Tick, context: Ctx)

  /** The row is matched by `(With<Predicted>, Without<Interpolated>)`. */
  predicate InPredictedQuery<C, Ctx>(r: PredictedRow<C, Ctx>)
  {
    r.predicted && !r.interpolated
  }

  /** The shared history after one predicted row has been handled: the new
      event appended, tagged with the row's confirmed tick, then trimmed at
      the tick of its latest snapshot. */
  function Reconciled<C, E, Dt, Ctx>(h: seq<EventSnapshot<E, Dt>>, event: E, deltaTime: Dt,
                                     r: PredictedRow<C, Ctx>): seq<EventSnapshot<E, Dt>>
  {
    WithoutStale(h + [EventSnapshot(event, r.confirmedTick, deltaTime)], r.latestSnapshotTick)
  }

  /** The shared history after the system has visited `rows` in order. */
  function HistoryAfter<C, E, Dt, Ctx>(h: seq<EventSnapshot<E, Dt>>, event: E, deltaTime: Dt,
                                       rows: seq<PredictedRow<C, Ctx>>): seq<EventSnapshot<E, Dt>>
    decreases |rows|
  {
    if rows == [] then h
    else
      var before := HistoryAfter(h, event, deltaTime, rows[..|rows| - 1]);
      var r := rows[|rows| - 1];
      if InPredictedQuery(r) then Reconciled(before, event, deltaTime, r) else before
  }

  /** The inner loop of `predicted_update_system`: start from the latest
      confirmed snapshot and apply each unconfirmed event in turn. */
  method ReplayEvents<C, E, Dt, Ctx>(apply: (C, E, Dt, Ctx) -> C, base: C,
                                     events: seq<EventSnapshot<E, Dt>>, ctx: Ctx)
    returns (corrected: C)
    ensures corrected == Replay(apply, base, events, ctx)
  {
    corrected := base;
    var k := 0;
    while k < |events|
      invariant 0 <= k <= |events|
      invariant corrected == Replay(apply, base, events[..k], ctx)
    {
      ReplaySnoc(apply, base, events[..k], events[k], ctx);
      assert events[..k + 1] == events[..k] + [events[k]];
      corrected := apply(corrected, events[k].value, events[k].deltaTime, ctx);
      k := k + 1;
    }
    assert events[..k] == events;
  }

  /** The body of `predicted_update_system`'s loop for one predicted row:
      record the event with the row's confirmed tick, trim the history at
      the snapshot tick and replay what is left on the latest snapshot. */
  method ReconcileRow<C, E, Dt, Ctx>(apply: (C, E, Dt, Ctx) -> C, event: E, deltaTime: Dt,
                                     r: PredictedRow<C, Ctx>, history: PredictedEventHistory<E, Dt>)
    returns (corrected: C)
    modifies history
    ensures history.entries == Reconciled(old(history.entries), event, deltaTime, r)
    ensures corrected == Replay(apply, r.latestSnapshot, history.entries, r.context)
  {
    history.Insert(event, r.confirmedTick, deltaTime);
    var replay := history.Predict(r.latestSnapshotTick);
    corrected := ReplayEvents(apply, r.latestSnapshot, replay, r.context);
  }

  /** `predicted_update_system`: for every predicted row, record the local
      event in the shared history, replay the unconfirmed tail of the
      history on top of the latest snapshot, and overwrite the displayed
      component with the result. The snapshot data are values here, so
      they cannot change. */
  method PredictedUpdateSystem<C, E, Dt, Ctx>(apply: (C, E, Dt, Ctx) -> C,
                                             event: E, deltaTime: Dt,
                                             rows: seq<PredictedRow<C, Ctx>>,
                                             components: array<C>,
                                             history: PredictedEventHistory<E, Dt>)
    requires components.Length == |rows|
    modifies components, history
    ensures history.entries == HistoryAfter(old(history.entries), event, deltaTime, rows)
    ensures forall i :: 0 <= i < |rows| && InPredictedQuery(rows[i]) ==>
              components[i] == Replay(apply, rows[i].latestSnapshot,
                                      HistoryAfter(old(history.entries), event, deltaTime, rows[..i + 1]),
                                      rows[i].context)
    ensures forall i :: 0 <= i < |rows| && !InPredictedQuery(rows[i]) ==>
              components[i] == old(components[i])
  {
    ghost var h0 := history.entries;
    ghost var before := components[..];
    var i := 0;
    while i < |rows|
      invariant 0 <= i <= |rows|
      invariant history.entries == HistoryAfter(h0, event, deltaTime, rows[..i])
      invariant RowsUpdated(apply, h0, event, deltaTime, rows, before, components[..], i)
    {
      var r := rows[i];
      ghost var after := components[..];
      assert rows[..i + 1] == rows[..i] + [r];
      HistoryAfterStep(h0, event, deltaTime, rows[..i], r);
      if InPredictedQuery(r) {
        var corrected := ReconcileRow(apply, event, deltaTime, r, history);
        components[i] := corrected;
      }
      RowsUpdatedStep(apply, h0, event, deltaTime, rows, before, after, components[..], i);
      i := i + 1;
    }
    assert rows[..i] == rows;
    RowsUpdatedDone(apply, h0, event, deltaTime, rows, before, components[..]);
  }

  /** The component values `after` agree with what the system writes for
      the first `n` rows and still hold the values `before` elsewhere. */
  ghost predicate RowsUpdated<C, E, Dt, Ctx>(apply: (C, E, Dt, Ctx) -> C, h0: seq<EventSnapshot<E, Dt>>,
                                              event: E, deltaTime: Dt, rows: seq<PredictedRow<C, Ctx>>,
                                              before: seq<C>, after: seq<C>, n: nat)
  {
    && n <= |rows| && |before| == |rows| && |after| == |rows|
    && (forall j :: 0 <= j < n && InPredictedQuery(rows[j]) ==>
          after[j] == Replay(apply, rows[j].latestSnapshot,
                             HistoryAfter(h0, event, deltaTime, rows[..j + 1]), rows[j].context))
    && (forall j :: 0 <= j < n && !InPredictedQuery(rows[j]) ==> after[j] == before[j])
    && (forall j :: n <= j < |rows| ==> after[j] == before[j])
  }

  /** Handling row `n` extends `RowsUpdated` by that row. */
  lemma RowsUpdatedStep<C, E, Dt, Ctx>(apply: (C, E, Dt, Ctx) -> C, h0: seq<EventSnapshot<E, Dt>>,
                                       event: E, deltaTime: Dt, rows: seq<PredictedRow<C, Ctx>>,
                                       before: seq<C>, after: seq<C>, after': seq<C>, n: nat)
    requires RowsUpdated(apply, h0, event, deltaTime, rows, before, after, n) && n < |rows|
    requires InPredictedQuery(rows[n]) ==>
               after' == after[n := Replay(apply, rows[n].latestSnapshot,
                                           HistoryAfter(h0, event, deltaTime, rows[..n + 1]), rows[n].context)]
    requires !InPredictedQuery(rows[n]) ==> after' == after
    ensures RowsUpdated(apply, h0, event, deltaTime, rows, before, after', n + 1)
  {
  }

  /** Once every row is handled, `RowsUpdated` is the system's postcondition. */
  lemma RowsUpdatedDone<C, E, Dt, Ctx>(apply: (C, E, Dt, Ctx) -> C, h0: seq<EventSnapshot<E, Dt>>,
                                       event: E, deltaTime: Dt, rows: seq<PredictedRow<C, Ctx>>,
                                       before: seq<C>, after: seq<C>)
    requires RowsUpdated(apply, h0, event, deltaTime, rows, before, after, |rows|)
    ensures forall i :: 0 <= i < |rows| && InPredictedQuery(rows[i]) ==>
              after[i] == Replay(apply, rows[i].latestSnapshot,
                                 HistoryAfter(h0, event, deltaTime, rows[..i + 1]), rows[i].context)
    ensures forall i :: 0 <= i < |rows| && !InPredictedQuery(rows[i]) ==> after[i] == before[i]
  {
  }

  /** With a confirmed tick no older than the snapshot tick, the local
      event is felt at once: it is the last event replayed, on top of the
      state the older unconfirmed events lead to. */
  lemma NewEventReplayedLast<C, E, Dt, Ctx>(apply: (C, E, Dt, Ctx) -> C, h: seq<EventSnapshot<E, Dt>>,
                                            event: E, deltaTime: Dt, r: PredictedRow<C, Ctx>)
    requires r.confirmedTick >= r.latestSnapshotTick
    ensures Replay(apply, r.latestSnapshot, Reconciled(h, event, deltaTime, r), r.context) ==
              apply(Replay(apply, r.latestSnapshot, WithoutStale(h, r.latestSnapshotTick), r.context),
                    event, deltaTime, r.context)
  {
    var e := EventSnapshot(event, r.confirmedTick, deltaTime);
    WithoutStaleAfterInsert(h, e, r.latestSnapshotTick);
    ReplaySnoc(apply, r.latestSnapshot, WithoutStale(h, r.latestSnapshotTick), e, r.context);
  }

  /** Once the server has confirmed every earlier event, the prediction is
      the confirmed snapshot with only the new event applied. */
  lemma FullyConfirmedReplaysOnlyNewEvent<C, E, Dt, Ctx>(apply: (C, E, Dt, Ctx) -> C,
                                                         h: seq<EventSnapshot<E, Dt>>,
                                                         event: E, deltaTime: Dt, r: PredictedRow<C, Ctx>)
    requires r.confirmedTick >= r.latestSnapshotTick
    requires forall j :: 0 <= j < |h| ==> h[j].tick < r.latestSnapshotTick
    ensures Reconciled(h, event, deltaTime, r) == [EventSnapshot(event, r.confirmedTick, deltaTime)]
    ensures Replay(apply, r.latestSnapshot, Reconciled(h, event, deltaTime, r), r.context) ==
              apply(r.latestSnapshot, event, deltaTime, r.context)
  {
    WithoutStaleEmptyIff(h, r.latestSnapshotTick);
    NewEventReplayedLast(apply, h, event, deltaTime, r);
    WithoutStaleAfterInsert(h, EventSnapshot(event, r.confirmedTick, deltaTime), r.latestSnapshotTick);
  }

  /** A row outside the predicted query leaves the shared history alone;
      one inside it adds exactly the reconciliation step. */
  lemma HistoryAfterStep<C, E, Dt, Ctx>(h: seq<EventSnapshot<E, Dt>>, event: E, deltaTime: Dt,
                                        rows: seq<PredictedRow<C, Ctx>>, r: PredictedRow<C, Ctx>)
    ensures HistoryAfter(h, event, deltaTime, rows + [r]) ==
              if InPredictedQuery(r) then Reconciled(HistoryAfter(h, event, deltaTime, rows), event, deltaTime, r)
              else HistoryAfter(h, event, deltaTime, rows)
  {
    assert (rows + [r])[..|rows|] == rows;
  }

  /** Two frames, each with one predicted entity, whose snapshot ticks do
      not go backwards: the history is what trimming the whole input log at
      the newer snapshot tick leaves, so the first frame's trim loses
      nothing the second frame needs. */
  lemma ConsecutiveFramesTrimOnce<C, E, Dt, Ctx>(h: seq<EventSnapshot<E, Dt>>,
                                                 event1: E, deltaTime1: Dt, r1: PredictedRow<C, Ctx>,
                                                 event2: E, deltaTime2: Dt, r2: PredictedRow<C, Ctx>)
    requires r1.latestSnapshotTick <= r2.latestSnapshotTick
    ensures Reconciled(Reconciled(h, event1, deltaTime1, r1), event2, deltaTime2, r2) ==
              WithoutStale(h + [EventSnapshot(event1, r1.confirmedTick, deltaTime1),
                                EventSnapshot(event2, r2.confirmedTick, deltaTime2)],
                           r2.latestSnapshotTick)
  {
    var e1 := EventSnapshot(event1, r1.confirmedTick, deltaTime1);
    var e2 := EventSnapshot(event2, r2.confirmedTick, deltaTime2);
    var log := h + [e1];
    calc {
      Reconciled(Reconciled(h, event1, deltaTime1, r1), event2, deltaTime2, r2);
      WithoutStale(WithoutStale(log, r1.latestSnapshotTick) + [e2], r2.latestSnapshotTick);
      { TrimThenInsert(log, e2, r1.latestSnapshotTick, r2.latestSnapshotTick); }
      WithoutStale(log + [e2], r2.latestSnapshotTick);
      { assert log + [e2] == h + [e1, e2]; }
      WithoutStale(h + [e1, e2], r2.latestSnapshotTick);
    }
  }

  /** One predicted row whose confirmed tick is not older than its
      snapshot tick turns an empty history into that row's entry alone. */
  lemma OnePredictedRowFromEmpty<C, E, Dt, Ctx>(event: E, deltaTime: Dt, r1: PredictedRow<C, Ctx>)
    requires InPredictedQuery(r1) && r1.confirmedTick >= r1.latestSnapshotTick
    ensures HistoryAfter([], event, deltaTime, [r1]) == [EventSnapshot(event, r1.confirmedTick, deltaTime)]
  {
    var e1 := EventSnapshot(event, r1.confirmedTick, deltaTime);
    var none: seq<EventSnapshot<E, Dt>> := [];
    var noRows: seq<PredictedRow<C, Ctx>> := [];
    calc {
      HistoryAfter(none, event, deltaTime, [r1]);
      { HistoryAfterStep(none, event, deltaTime, noRows, r1); assert noRows + [r1] == [r1]; }
      WithoutStale(none + [e1], r1.latestSnapshotTick);
      { assert none + [e1] == [e1]; }
      WithoutStale([e1], r1.latestSnapshotTick);
      { FirstFreshUnique([e1], r1.latestSnapshotTick, 0); }
      [e1];
    }
  }

  /** The shared history receives the event once per predicted row. With
      two predicted rows whose snapshots do not make the first copy stale,
      an empty history ends up holding two copies of the event. */
  lemma TwoPredictedRowsKeepTwoCopies<C, E, Dt, Ctx>(event: E, deltaTime: Dt,
                                                     r1: PredictedRow<C, Ctx>, r2: PredictedRow<C, Ctx>)
    requires InPredictedQuery(r1) && InPredictedQuery(r2)
    requires r1.confirmedTick >= r1.latestSnapshotTick && r1.confirmedTick >= r2.latestSnapshotTick
    ensures HistoryAfter([], event, deltaTime, [r1, r2]) ==
              [EventSnapshot(event, r1.confirmedTick, deltaTime), EventSnapshot(event, r2.confirmedTick, deltaTime)]
  {
    var e1 := EventSnapshot(event, r1.confirmedTick, deltaTime);
    var e2 := EventSnapshot(event, r2.confirmedTick, deltaTime);
    var none: seq<EventSnapshot<E, Dt>> := [];
    calc {
      HistoryAfter(none, event, deltaTime, [r1, r2]);
      { HistoryAfterStep(none, event, deltaTime, [r1], r2); assert [r1] + [r2] == [r1, r2]; }
      Reconciled(HistoryAfter(none, event, deltaTime, [r1]), event, deltaTime, r2);
      { OnePredictedRowFromEmpty(event, deltaTime, r1); }
      Reconciled([e1], event, deltaTime, r2);
      WithoutStale([e1] + [e2], r2.latestSnapshotTick);
      { FirstFreshUnique([e1], r2.latestSnapshotTick, 0);
        WithoutStaleAfterInsert([e1], e2, r2.latestSnapshotTick); }
      WithoutStale([e1], r2.latestSnapshotTick) + [e2];
      { FirstFreshUnique([e1], r2.latestSnapshotTick, 0); }
      [e1] + [e2];
      [e1, e2];
    }
  }

  /** The second of those rows therefore applies the event twice on top of
      its snapshot. */
  lemma TwoPredictedRowsReplayEventTwice<C, E, Dt, Ctx>(apply: (C, E, Dt, Ctx) -> C,
                                                        event: E, deltaTime: Dt,
                                                        r1: PredictedRow<C, Ctx>, r2: PredictedRow<C, Ctx>)
    requires InPredictedQuery(r1) && InPredictedQuery(r2)
    requires r1.confirmedTick >= r1.latestSnapshotTick && r1.confirmedTick >= r2.latestSnapshotTick
    ensures Replay(apply, r2.latestSnapshot, HistoryAfter([], event, deltaTime, [r1, r2]), r2.context) ==
              apply(apply(r2.latestSnapshot, event, deltaTime, r2.context), event, deltaTime, r2.context)
  {
    var e1 := EventSnapshot(event, r1.confirmedTick, deltaTime);
    var e2 := EventSnapshot(event, r2.confirmedTick, deltaTime);
    var none: seq<EventSnapshot<E, Dt>> := [];
    TwoPredictedRowsKeepTwoCopies(event, deltaTime, r1, r2);
    ReplaySnoc(apply, r2.latestSnapshot, none, e1, r2.context);
    assert none + [e1] == [e1];
    ReplaySnoc(apply, r2.latestSnapshot, [e1], e2, r2.context);
    assert [e1] + [e2] == [e1, e2];
  }
}
