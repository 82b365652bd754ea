/** Replaying input events through the user's `Predict::apply_event`
    (src/prediction.rs). The transition is a total function value, so the
    same state, event, frame time and context always give the same result. */
module EventReplay {
  import opened EventHistory

  /** The state reached from `base` by applying every event of `events`,
      front to back: a left fold of `apply` over the queue. */
  function Replay<C, E, Dt, Ctx>(apply: (C, E, Dt, Ctx) -> C, base: C,
                                 events: seq<EventSnapshot<E, Dt>>, ctx: Ctx): C
    decreases |events|
  {
    if events == [] then base
    else Replay(apply, apply(base, events[0].value, events[0].deltaTime, ctx), events[1..], ctx)
  }

  /** Replaying two queues one after the other is replaying their concatenation. */
  lemma {:induction false} ReplayAppend<C, E, Dt, Ctx>(apply: (C, E, Dt, Ctx) -> C, base: C,
                                                       a: seq<EventSnapshot<E, Dt>>,
                                                       b: seq<EventSnapshot<E, Dt>>, ctx: Ctx)
    ensures Replay(apply, base, a + b, ctx) == Replay(apply, Replay(apply, base, a, ctx), b, ctx)
    decreases |a|
  {
    if a != [] {
      var next := apply(base, a[0].value, a[0].deltaTime, ctx);
      assert (a + b)[0] == a[0] && (a + b)[1..] == a[1..] + b;
      ReplayAppend(apply, next, a[1..], b, ctx);
    } else {
      assert a + b == b;
    }
  }

  /** The last event of a queue is applied last, to the state the rest leads to. */
  lemma ReplaySnoc<C, E, Dt, Ctx>(apply: (C, E, Dt, Ctx) -> C, base: C,
                                  events: seq<EventSnapshot<E, Dt>>, e: EventSnapshot<E, Dt>, ctx: Ctx)
    ensures Replay(apply, base, events + [e], ctx) ==
              apply(Replay(apply, base, events, ctx), e.value, e.deltaTime, ctx)
  {
    ReplayAppend(apply, base, events, [e], ctx);
  }
}
