# Client-side prediction and reconciliation in bevy_replicon_snap

This project models the prediction core of bevy_replicon_snap, which is
`src/prediction.rs`. It then proves properties of that model in Dafny. The
prediction core has four parts:

- **The event history.** `PredictedEventHistory` is a FIFO queue of
  `EventSnapshot { value, tick, delta_time }` entries. It holds the input
  events the local client has issued (`event_history.dfy`, module
  `EventHistory`).
  - `insert` appends one entry at the back.
  - `remove_stale(T)` drops every entry in front of the first entry whose
    tick is at least `T`. If no entry has such a tick, it clears the queue.
  - `predict(T)` trims the queue the same way, then yields the entries that
    are left, front to back.
- **Replay.** The user's `Predict::apply_event` is a parameter
  `apply: (C, E, Dt, Ctx) -> C`. `Replay` is the left fold of `apply` over a
  queue (`replay.dfy`, module `EventReplay`). Because `apply` is a total
  function value, replay is deterministic: the same inputs always give the
  same state.
- **The role classifier.** This is the observer `owner_prediction_init_system`
  (`roles.dfy`, module `RoleClassifier`).
  - It visits every entity that has a `NetworkId`.
  - The trigger target gets the `Predicted` marker. Every other entity gets
    `Interpolated`.
  - The code compares each entity with the trigger target, not with an
    owner identity, and the model does the same.
  - The deferred `commands.entity(e).insert(..)` calls are modelled as the
    map from entity to role that the method returns.
  - `ApplyRoles` models what those inserts do to the marker components.
    An insert adds a marker and never removes the other one. So when the
    observer runs a second time for a different target, the first target
    ends up with both markers when it carries a `NetworkId`
    (`RepeatedClassificationOverlaps`).
- **The two update systems.** These are in `systems.dfy`, module
  `PredictionSystems`.
  - `server_update_system` applies a received event once to every subject
    that has no `Predicted` marker and whose `NetworkOwner` is the sending
    client.
  - `predicted_update_system` handles each entity with `Predicted` and
    without `Interpolated`, one after another. For each one it appends the
    event to the shared history, tagged with the entity's confirmed tick
    and the frame delta. It then replays `predict(latest_snapshot_tick)`
    on top of `latest_snapshot()` and writes the result into the
    component.
  - The history is shared by all rows of one call. So with two predicted
    entities the event enters the history twice, and unless the first
    copy is stale the second entity replays the event twice
    (`TwoPredictedRowsKeepTwoCopies`, `TwoPredictedRowsReplayEventTwice`).

How the model represents the code:

- Ticks are `u32`, modelled as a subset type of `int` bounded by 2^32. The
  code only compares ticks, so wrap-around never comes into play.
- The frame delta (`f32`), the component, the event and the context are
  opaque type parameters.
- An ECS query is a sequence of rows, in iteration order. Each row holds
  the marker flags and the components that the query reads.
- The component a system writes is an `array` element at the row's index.

Edge case at the confirmed tick: `remove_stale` keeps an entry whose tick
*equals* the confirmed tick. Take events issued at ticks 10, 11 and 12 and
a confirmed tick of 11. The events at ticks 11 and 12 are both replayed,
not only the one at tick 12 (`TrimKeepsEntryAtConfirmedTick`).

Ordering of ticks: `insert` does not enforce non-decreasing ticks. The
model does not assume they are sorted: only `WithoutStaleSorted` and the
two sortedness lemmas assume it. Sortedness is preserved by an insert whose tick is no
older than the last entry's (`InsertKeepsSorted`) and by every trim
(`WithoutStaleKeepsSorted`), so it holds whenever callers issue ticks in
non-decreasing order. Without sorting, the trim removes a prefix and is not a
filter. A stale entry that comes after a fresh one stays in the queue.

## Model

| member | source | states |
|---|---|---|
| `EventHistory.FirstFresh` | src/prediction.rs:64-67 | The index `position` finds: the first entry whose tick is at least the confirmed tick (every entry before it is older), or none when every entry is older |
| `EventHistory.FindFirstFresh` | src/prediction.rs:64-68 | The linear search returns exactly `FirstFresh`: the first entry whose tick is at least the given tick, or `None` exactly when every tick is older |
| `EventHistory.FirstFreshUnique` | src/prediction.rs:64-67 | At most one index fits "earlier entries stale, this one fresh", so the search result is unique |
| `EventHistory.WithoutStale` | src/prediction.rs:63-73 | The trimmed queue is a suffix of the original in the same order; only entries older than the tick were dropped; it is empty or its head has tick at least the tick |
| `EventHistory.PredictedEventHistory.constructor` | src/prediction.rs:52-54 | `new` creates an empty queue |
| `EventHistory.PredictedEventHistory.Insert` | src/prediction.rs:55-62 | The queue grows by exactly the entry `(value, tick, delta_time)` at the back; earlier entries keep their values and order |
| `EventHistory.PredictedEventHistory.RemoveStale` | src/prediction.rs:63-74 | Drains the stale prefix when a fresh entry exists and clears the queue otherwise; the new queue is `WithoutStale` of the old one |
| `EventHistory.PredictedEventHistory.Predict` | src/prediction.rs:76-79 | Leaves the queue as `remove_stale` does and yields exactly the remaining entries, front to back |
| `EventHistory.WithoutStaleEmptyIff` | src/prediction.rs:64-71 | The trim clears the queue if and only if every entry is older than the tick |
| `EventHistory.WithoutStaleIdempotent` | src/prediction.rs:63-74 | A second trim with the same or an older tick changes nothing |
| `EventHistory.WithoutStaleCompose` | src/prediction.rs:63-74 | Trimming at one tick and then at a later tick is the same as one trim at the later tick |
| `EventHistory.WithoutStaleAfterInsert` | src/prediction.rs:55-73 | Trimming after an append gives the old trim plus the new entry, unless nothing was fresh and the new entry is stale, in which case the queue is empty |
| `EventHistory.WithoutStaleDropStale` | src/prediction.rs:64-69 | A stale entry at the front is removed by the trim |
| `EventHistory.WithoutStaleSorted` | src/prediction.rs:55-72 | If ticks are non-decreasing, the trim keeps exactly the entries with tick at least the tick, in order |
| `EventHistory.InsertKeepsSorted` | src/prediction.rs:55-62 | Appending an entry whose tick is no older than the last entry's keeps the ticks non-decreasing |
| `EventHistory.WithoutStaleKeepsSorted` | src/prediction.rs:63-73 | Trimming a queue with non-decreasing ticks leaves a queue with non-decreasing ticks |
| `EventHistory.TrimThenInsert` | src/prediction.rs:142-150 | A trim at an older tick before an append does not change what a later trim leaves |
| `EventHistory.TrimKeepsEntryAtConfirmedTick` | src/prediction.rs:63-73 | Of entries at ticks 10, 11 and 12, trimming at 11 keeps the tick-11 and tick-12 entries |
| `EventReplay.Replay` | src/prediction.rs:149-156 | Defining equation, no contract: the state reached from the latest snapshot by applying each event's value and delta in queue order, with the row's context; its properties are `ReplayAppend` and `ReplaySnoc` |
| `EventReplay.ReplayAppend` | src/prediction.rs:150-156 | Replaying two queues one after the other is the same as replaying their concatenation |
| `EventReplay.ReplaySnoc` | src/prediction.rs:150-156 | The last event of a queue is applied last, to the state the earlier events lead to |
| `RoleClassifier.Classify` | src/prediction.rs:88-94 | Exactly the entities with a `NetworkId` get a role; an entity's role is `Predicted` if and only if it is the trigger target |
| `RoleClassifier.OwnerPredictionInit` | src/prediction.rs:82-95 | The loop gives each entity with a `NetworkId` exactly one role (`Predicted` for the trigger target, `Interpolated` otherwise); some entity is predicted if and only if the target has a `NetworkId` |
| `RoleClassifier.ApplyRoles` | src/prediction.rs:90-92 | An entity carries `Predicted` afterwards if and only if it carried it before or was given that role, and the same for `Interpolated`: each insert adds only its own marker and removes none |
| `RoleClassifier.FirstClassificationExclusive` | src/prediction.rs:88-94 | Starting from no markers, each entity with a `NetworkId` ends with exactly one of the two markers |
| `RoleClassifier.RepeatedClassificationOverlaps` | src/prediction.rs:82-94 | Two classifications with different targets leave the first target with both markers when it carries a `NetworkId` |
| `PredictionSystems.ServerApplies` | src/prediction.rs:115-118 | Defining equation, no contract: the query's `Without<Predicted>` filter and the owner test against the sending client |
| `PredictionSystems.ServerUpdateSystem` | src/prediction.rs:108-123 | Each non-predicted subject owned by the sending client gets the event applied exactly once; all other subjects are untouched |
| `PredictionSystems.InPredictedQuery` | src/prediction.rs:132-135 | Defining equation, no contract: the query's `(With<Predicted>, Without<Interpolated>)` filter |
| `PredictionSystems.Reconciled` | src/prediction.rs:142-150 | Defining equation, no contract: the shared history after one predicted row, that is the event appended with the row's confirmed tick and delta, then trimmed at the row's snapshot tick; its properties are `NewEventReplayedLast`, `FullyConfirmedReplaysOnlyNewEvent` and `ConsecutiveFramesTrimOnce` |
| `PredictionSystems.HistoryAfter` | src/prediction.rs:140-159 | Defining equation, no contract: the shared history after the loop has visited the given rows in order, with `Reconciled` applied for each predicted row only; its one-step unfolding is `HistoryAfterStep` |
| `PredictionSystems.ReplayEvents` | src/prediction.rs:149-156 | The inner loop's result is the left fold of `apply_event` over the events, starting from the latest snapshot |
| `PredictionSystems.ReconcileRow` | src/prediction.rs:142-158 | One pass of the loop body: the history becomes `Reconciled` of the old history for this row, and the corrected component is the fold of `apply_event` over the trimmed history from the latest snapshot |
| `PredictionSystems.PredictedUpdateSystem` | src/prediction.rs:126-160 | Each predicted row's component becomes the fold of `apply_event` over the shared history as it stands after that row's insert and `predict`; the history is the result of these steps in row order; other rows' components are untouched |
| `PredictionSystems.HistoryAfterStep` | src/prediction.rs:140-150 | A row outside the predicted query leaves the shared history alone; a row inside it appends `(event, confirmed tick, delta)` and then trims at its snapshot tick |
| `PredictionSystems.NewEventReplayedLast` | src/prediction.rs:142-156 | When the confirmed tick is at least the snapshot tick, the new event is applied last, on top of the unconfirmed older events |
| `PredictionSystems.FullyConfirmedReplaysOnlyNewEvent` | src/prediction.rs:142-156 | Once every earlier event is older than the snapshot tick, only the new event is replayed, directly on the latest snapshot |
| `PredictionSystems.ConsecutiveFramesTrimOnce` | src/prediction.rs:140-150 | Over two frames whose snapshot ticks do not go backwards, the history equals one trim of the whole input log at the newer tick |
| `PredictionSystems.OnePredictedRowFromEmpty` | src/prediction.rs:140-150 | From an empty history, one predicted row whose confirmed tick is not older than its snapshot tick leaves exactly that row's entry |
| `PredictionSystems.TwoPredictedRowsKeepTwoCopies` | src/prediction.rs:140-150 | From an empty history, two predicted rows whose snapshot ticks do not make the first copy stale leave two copies of the event, one per row, in row order |
| `PredictionSystems.TwoPredictedRowsReplayEventTwice` | src/prediction.rs:140-156 | In that case the second row's component is its latest snapshot with the event applied twice |

## Left out

- `predicted_snapshot_system` (src/prediction.rs:98-105): it only adds the frame's `f32` delta to the snapshot buffer's timer. Floating point is not modelled.
- `AppPredictionExt` (src/prediction.rs:162-201): observer and resource registration only, with no logic of its own.
- The `println!` calls at src/prediction.rs:119 and src/prediction.rs:157: debug output.
- `SnapshotBuffer` and `Interpolate`: `interpolation.rs` is not part of this model. `latest_snapshot()` and `latest_snapshot_tick()` are fields of each predicted query row.
- `Time::delta_secs()`: the server's and the client's frame deltas are parameters of the systems.
- `ConfirmHistory::last_tick()`: a field of each predicted query row.
- Bevy triggers, observers, queries and `Commands`: the query result is an explicit sequence of rows, the target and sending client are parameters, and the deferred inserts are a returned map. The ECS iteration order is whatever order the caller passes.
- The snapshot buffer's immutability: `SnapshotBuffer` is taken by shared reference in the code and is a value in the model. So "the snapshot buffer is not modified" holds by construction and is not stated as a separate contract.
- The `&mut Self` that `insert` and `remove_stale` return for chaining is dropped.
