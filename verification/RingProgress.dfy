/** How far a thread of the queue of src/utils/circlebuffer.h gets: every retry is paid for by another. */
module RingProgress {
  // Retries of a thread are bounded by the operations of the others, and its steps by its calls and failures.

  import opened CircleBuffer
  import opened RingSafety

  // A compare-and-swap of thread a that fails, and whether the counter was still the one it had loaded.
  predicate CasFailed<T>(s: Ring<T>, e: Event<T>, a: nat) {
    e.tid == a < |s.threads| &&
    match s.threads[a]
    case PushCas(_, t) => s.tail != t || e.act == CasFails
    case PopCas(h) => s.head != h || e.act == CasFails
    case _ => false
  }

  predicate Spurious<T>(s: Ring<T>, e: Event<T>, a: nat) { CasFailed(s, e, a) && Behind(s, a) == 0 }

  // How far the counter has moved since thread a loaded it.
  function Behind<T>(s: Ring<T>, a: nat): nat {
    if a >= |s.threads| then 0 else
    match s.threads[a]
    case PushCheck(_, t) => if t <= s.tail then s.tail - t else 0
    case PushCas(_, t) => if t <= s.tail then s.tail - t else 0
    case PopCheck(h) => if h <= s.head then s.head - h else 0
    case PopCas(h) => if h <= s.head then s.head - h else 0
    case _ => 0
  }

  // The steps a call still takes when no compare-and-swap fails.
  function StepsLeft<T>(s: Ring<T>, a: nat): (n: nat)
    ensures n <= 7
  {
    if a >= |s.threads| then 0 else
    match s.threads[a]
    case Idle => 0
    case PushStart(_) => 6
    case PushCheck(_, _) => 5
    case PushCas(_, _) => 4
    case PushWrite(_, _) => 3
    case PushPublish(_, _) => 2
    case PushOk(_) => 1
    case PushFailed(_) => 1
    case PopStart => 7
    case PopCheck(_) => 6
    case PopCas(_) => 5
    case PopRead(_) => 4
    case PopDestroy(_, _) => 3
    case PopRelease(_, _) => 2
    case PopOk(_, _) => 1
    case PopFailed(_) => 1
  }

  predicate Begins<T>(s: Ring<T>, e: Event<T>, a: nat) {
    e.tid == a < |s.threads| && s.threads[a] == Idle && (e.act.CallPush? || e.act.CallPop?)
  }

  // A step of thread a inside a call.
  predicate Works<T>(s: Ring<T>, e: Event<T>, a: nat) { e.tid == a < |s.threads| && s.threads[a] != Idle }

  function One(b: bool): nat { if b then 1 else 0 }

  // What thread a does, and what can delay it, counted over a run.
  datatype Tally = Tally(steps: nat, calls: nat, retries: nat, spurious: nat, others: nat)

  function Count<T>(s: Ring<T>, e: Event<T>, a: nat): Tally
    requires Shaped(s)
  {
    Tally(One(Works(s, e, a)), One(Begins(s, e, a)), One(CasFailed(s, e, a) && !Spurious(s, e, a)),
          One(Spurious(s, e, a)), if e.tid == a then 0 else |OpOf(s, e)|)
  }

  function Sum(x: Tally, y: Tally): Tally {
    Tally(x.steps + y.steps, x.calls + y.calls, x.retries + y.retries, x.spurious + y.spurious, x.others + y.others)
  }

  function CountAll<T>(s: Ring<T>, es: seq<Event<T>>, a: nat): Tally
    requires Shaped(s)
    decreases es
  {
    if es == [] then Tally(0, 0, 0, 0, 0) else Sum(Count(s, es[0], a), CountAll(Step(s, es[0]), es[1..], a))
  }

  lemma StepProgress<T>(s: Ring<T>, e: Event<T>, a: nat)
    requires Inv(s)
    ensures var c := Count(s, e, a);
            var s' := Step(s, e);
            && c.retries + Behind(s', a) <= Behind(s, a) + c.others
            && c.steps + StepsLeft(s', a) <= StepsLeft(s, a) + 7 * c.calls + 2 * (c.retries + c.spurious)
  {
    if a < |s.threads| {
      assert ThreadOk(s, a);
      if e.tid == a { OwnProgress(s, e); } else { OtherProgress(s, e, a); }
    }
  }

  lemma OwnProgress<T>(s: Ring<T>, e: Event<T>)
    requires Inv(s) && e.tid < |s.threads|
    ensures var a := e.tid;
            var c := Count(s, e, a);
            var s' := Step(s, e);
            && c.retries + Behind(s', a) <= Behind(s, a)
            && c.steps + StepsLeft(s', a) <= StepsLeft(s, a) + 7 * c.calls + 2 * (c.retries + c.spurious)
  {
    assert ThreadOk(s, e.tid);
  }

  lemma OtherProgress<T>(s: Ring<T>, e: Event<T>, a: nat)
    requires Inv(s) && a < |s.threads| && e.tid != a
    ensures Behind(Step(s, e), a) <= Behind(s, a) + |OpOf(s, e)|
    ensures StepsLeft(Step(s, e), a) == StepsLeft(s, a)
  {
    StepRefines(s, e);
    assert Step(s, e).threads[a] == s.threads[a];
    if e.tid < |s.threads| { assert ThreadOk(s, e.tid) && ThreadOk(s, a); }
    if e.tid < |s.threads| && s.threads[e.tid].PopCas? && s.threads[e.tid].h == s.head { StoredIs(s, s.head); }
  }

  lemma {:induction false} Progress<T>(s: Ring<T>, es: seq<Event<T>>, a: nat)
    requires Inv(s)
    ensures var c := CountAll(s, es, a);
            var s' := Run(s, es);
            && c.retries + Behind(s', a) <= Behind(s, a) + c.others
            && c.steps + StepsLeft(s', a) <= StepsLeft(s, a) + 7 * c.calls + 2 * (c.retries + c.spurious)
    decreases es
  {
    hide Step, Count;
    if es != [] {
      StepProgress(s, es[0], a);
      StepKeepsInv(s, es[0]);
      Progress(Step(s, es[0]), es[1..], a);
    }
  }

  ghost predicate Bounded(c: Tally) {
    c.retries <= c.others && c.steps <= 7 * c.calls + 2 * (c.others + c.spurious)
  }

  lemma FromIdle<T>(s: Ring<T>, es: seq<Event<T>>, a: nat)
    requires Inv(s) && (a < |s.threads| ==> s.threads[a] == Idle)
    ensures Bounded(CountAll(s, es, a))
  {
    Progress(s, es, a);
    assert Behind(s, a) == 0 && StepsLeft(s, a) == 0;
  }

  // In every run, a thread retries at most once for each operation another thread performs, and its
  // steps are bounded by its calls and by its failed compare-and-swaps: only progress elsewhere or
  // spurious failure can keep it busy.
  lemma LockFree<T>(capacity: nat, n: nat, es: seq<Event<T>>, a: nat)
    requires capacity > 0
    ensures Bounded(CountAll(Init(capacity, n), es, a))
  {
    InitInv<T>(capacity, n);
    FromIdle(Init(capacity, n), es, a);
  }
}
