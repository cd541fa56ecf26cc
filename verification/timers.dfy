/** The optional value every component keeps in a timer ref (`undefined` or a handle). */
module Options {
  datatype Option<+T> = None | Some(value: T)
}

/**
 The browser's `setTimeout` / `clearTimeout` pair, as seen by one component.

 A queue maps every pending timer handle to the action its callback performs.
 Handles are positive and never reused, so a handle that was cleared, or that
 already fired, can never fire again. Time itself is not modelled: the moment
 a timer fires is an explicit event `Fire(id)` chosen by the environment.
 */
module Timers {
  import opened Options

  /** Browser timer handles are positive integers. */
  type TimerId = n: nat | n > 0 witness 1

  /** A pending callback: what it does, and the delay it was scheduled with. */
  datatype Timer<A> = Timer(action: A, delayMillis: nat)

  datatype Queue<A> = Queue(pending: map<TimerId, Timer<A>>, next: TimerId)

  /** Every pending handle was issued before `next`, so `next` is fresh. */
  predicate Valid<A>(q: Queue<A>) {
    forall id :: id in q.pending ==> id < q.next
  }

  /** No timer pending. */
  function Empty<A>(): (q: Queue<A>)
    ensures Valid(q) && q.pending == map[]
  {
    Queue(map[], 1)
  }

  /** `setTimeout(action, delay)`: a fresh handle, pending alongside every earlier timer. */
  function Schedule<A>(q: Queue<A>, action: A, delayMillis: nat): (r: (Queue<A>, TimerId))
    requires Valid(q)
    ensures Valid(r.0)
    ensures r.1 !in q.pending
    ensures r.0.pending == q.pending[r.1 := Timer(action, delayMillis)]
  {
    (Queue(q.pending[q.next := Timer(action, delayMillis)], q.next + 1), q.next)
  }

  /** `if (ref) clearTimeout(ref)`: drops the handle held in the ref, if any; every other timer stays. */
  function ClearRef<A>(q: Queue<A>, ref: Option<TimerId>): (r: Queue<A>)
    requires Valid(q)
    ensures Valid(r)
    ensures ref.None? ==> r == q
    ensures ref.Some? ==> ref.value !in r.pending && r.pending.Keys == q.pending.Keys - {ref.value}
    ensures forall id :: id in r.pending ==> id in q.pending && r.pending[id] == q.pending[id]
  {
    match ref
    case None => q
    case Some(id) => Queue(q.pending - {id}, q.next)
  }

  /**
   The callback of timer `id` runs: the timer and the queue without it, or
   None when `id` is not pending (cleared, already fired, never issued).
   */
  function Fire<A>(q: Queue<A>, id: TimerId): (r: Option<(Timer<A>, Queue<A>)>)
    requires Valid(q)
    ensures r.None? <==> id !in q.pending
    ensures r.Some? ==>
              && r.value.0 == q.pending[id]
              && Valid(r.value.1)
              && r.value.1.pending.Keys == q.pending.Keys - {id}
              && forall other :: other in r.value.1.pending ==> r.value.1.pending[other] == q.pending[other]
  {
    if id in q.pending then Some((q.pending[id], Queue(q.pending - {id}, q.next))) else None
  }
}
