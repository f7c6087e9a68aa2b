/** What a `false` result of push and pop means (src/utils/circlebuffer.h), and exactly when to trust it. */
module RingFailures {
  // With one popper a failing pop means that the queue is empty or its next value is still being pushed; with
  // several poppers a stale ticket can make a pop fail on a queue that is never empty, and likewise for push.

  import opened Wrappers
  import opened Arithmetic
  import opened CircleBuffer
  import opened RingSafety

  // ----- what a failing check means

  ghost predicate Published<T>(s: Ring<T>, k: nat) {
    k < s.tail && !PushHeld(s.threads, k)
  }

  ghost predicate Vacated<T>(s: Ring<T>, k: nat) {
    k < s.head && !PopHeld(s.threads, k)
  }

  lemma PublishedIff<T>(s: Ring<T>, k: nat)
    requires Inv(s)
    ensures Published(s, k) <==> k < At(s, k).tail || (At(s, k).tail == k == At(s, k).head)
  {
    StampCases(s, k);
    assert NodeOk(s, Slot(s, k));
  }

  lemma VacatedIff<T>(s: Ring<T>, k: nat)
    requires Inv(s)
    ensures Vacated(s, k) <==> k < At(s, k).tail
  {
    StampCases(s, k);
    assert NodeOk(s, Slot(s, k));
  }

  // The check of a pop holding ticket h fails exactly when ticket h is not published yet, or when
  // the node already carries the next lap's ticket because another popper was faster.
  lemma PopCheckFailsIff<T>(s: Ring<T>, h: nat)
    requires Inv(s)
    ensures At(s, h).head != h <==> !Published(s, h) || Published(s, h + s.capacity)
  {
    PublishedIff(s, h);
    PublishedIff(s, h + s.capacity);
    NextSlot(h, s.capacity);
    StampCases(s, h);
    assert NodeOk(s, Slot(s, h));
  }

  // The check of a push holding ticket t fails exactly when the previous lap's ticket is not
  // vacated yet, or when ticket t itself has come and gone.
  lemma PushCheckFailsIff<T>(s: Ring<T>, t: nat)
    requires Inv(s)
    ensures At(s, t).tail != t <==> (s.capacity <= t && !Vacated(s, t - s.capacity)) || Vacated(s, t)
  {
    VacatedIff(s, t);
    assert NodeOk(s, Slot(s, t));
    var c := At(s, t).tail;
    if c < t { SameSlot(c, t, s.capacity); }
    if s.capacity <= t {
      VacatedIff(s, t - s.capacity);
      NextSlot(t - s.capacity, s.capacity);
      if t - s.capacity < c { SameSlot(t - s.capacity, c, s.capacity); }
    }
  }

  // With an up-to-date ticket, false means empty (up to a push still in flight) ...
  lemma FreshPopFailsIff<T>(s: Ring<T>)
    requires Inv(s)
    ensures At(s, s.head).head != s.head <==> s.head == s.tail || PushHeld(s.threads, s.head)
  {
    PopCheckFailsIff(s, s.head);
    StampCases(s, s.head + s.capacity);
    NextSlot(s.head, s.capacity);
    BoundedContents(s);
  }

  // ... or full (up to a pop still in flight).
  lemma FreshPushFailsIff<T>(s: Ring<T>)
    requires Inv(s)
    ensures At(s, s.tail).tail != s.tail <==>
            s.tail - s.head == s.capacity || (s.capacity <= s.tail && PopHeld(s.threads, s.tail - s.capacity))
  {
    PushCheckFailsIff(s, s.tail);
    BoundedContents(s);
    if s.capacity <= s.tail { StampCases(s, s.tail - s.capacity); }
  }

  // ----- one popper, one pusher

  predicate Looking<T>(pc: Pc<T>) { pc.PopStart? || pc.PopCheck? || pc.PopCas? }

  predicate InPop<T>(pc: Pc<T>) { Looking(pc) || pc.PopRead? || pc.PopDestroy? || pc.PopRelease? }

  predicate Seeking<T>(pc: Pc<T>) { pc.PushStart? || pc.PushCheck? || pc.PushCas? }

  predicate InPush<T>(pc: Pc<T>) { Seeking(pc) || pc.PushWrite? || pc.PushPublish? }

  // The queue is empty, or the push of its next value is in flight.
  ghost predicate LooksEmpty<T>(s: Ring<T>) { s.head == s.tail || PushHeld(s.threads, s.head) }

  // The queue is full, or the pop that makes room is in flight.
  ghost predicate LooksFull<T>(s: Ring<T>) {
    s.tail - s.head == s.capacity || (s.capacity <= s.tail && PopHeld(s.threads, s.tail - s.capacity))
  }

  predicate PopTicketIs<T>(pc: Pc<T>, h: nat) { (pc.PopCheck? || pc.PopCas?) ==> pc.h == h }

  predicate PushTicketIs<T>(pc: Pc<T>, t: nat) { (pc.PushCheck? || pc.PushCas?) ==> pc.t == t }

  // No thread but c is inside a pop, so the ticket of c cannot be stale.
  ghost predicate SolePopper<T>(s: Ring<T>, c: nat) {
    && (forall a :: 0 <= a < |s.threads| && a != c ==> !InPop(s.threads[a]))
    && (c < |s.threads| ==> PopTicketIs(s.threads[c], s.head))
  }

  ghost predicate SolePusher<T>(s: Ring<T>, c: nat) {
    && (forall a :: 0 <= a < |s.threads| && a != c ==> !InPush(s.threads[a]))
    && (c < |s.threads| ==> PushTicketIs(s.threads[c], s.tail))
  }

  // Only threads of `who` call pop, or push.
  ghost predicate PopsOnlyBy<T>(es: seq<Event<T>>, who: set<nat>) {
    forall e :: e in es && e.act.CallPop? ==> e.tid in who
  }

  ghost predicate PushesOnlyBy<T>(es: seq<Event<T>>, who: set<nat>) {
    forall e :: e in es && e.act.CallPush? ==> e.tid in who
  }

  // At most c, of the n threads, is in `who`.
  ghost predicate Only(who: set<nat>, n: nat, c: nat) { forall a :: a in who && a < n ==> a == c }

  ghost predicate AtMostOne(who: set<nat>, n: nat) { exists c: nat :: Only(who, n, c) }

  lemma StepSolePopper<T>(s: Ring<T>, e: Event<T>, c: nat)
    requires Shaped(s) && SolePopper(s, c)
    requires e.act.CallPop? && e.tid < |s.threads| ==> e.tid == c
    ensures SolePopper(Step(s, e), c)
  {
    var s' := Step(s, e);
    forall a | 0 <= a < |s.threads| && a != c ensures !InPop(s'.threads[a]) {
      assert a != e.tid ==> s'.threads[a] == s.threads[a];
    }
    assert c < |s.threads| && c != e.tid ==> s'.threads[c] == s.threads[c] && s'.head == s.head;
  }

  lemma StepSolePusher<T>(s: Ring<T>, e: Event<T>, c: nat)
    requires Shaped(s) && SolePusher(s, c)
    requires e.act.CallPush? && e.tid < |s.threads| ==> e.tid == c
    ensures SolePusher(Step(s, e), c)
  {
    var s' := Step(s, e);
    forall a | 0 <= a < |s.threads| && a != c ensures !InPush(s'.threads[a]) {
      assert a != e.tid ==> s'.threads[a] == s.threads[a];
    }
    assert c < |s.threads| && c != e.tid ==> s'.threads[c] == s.threads[c] && s'.tail == s.tail;
  }

  lemma {:induction false} RunSolePopper<T>(s: Ring<T>, es: seq<Event<T>>, who: set<nat>, c: nat)
    requires Shaped(s) && SolePopper(s, c) && PopsOnlyBy(es, who) && Only(who, |s.threads|, c)
    ensures SolePopper(Run(s, es), c)
    decreases es
  {
    hide Step;
    if es != [] {
      assert es[0] in es;
      StepSolePopper(s, es[0], c);
      RunSolePopper(Step(s, es[0]), es[1..], who, c);
    }
  }

  lemma {:induction false} RunSolePusher<T>(s: Ring<T>, es: seq<Event<T>>, who: set<nat>, c: nat)
    requires Shaped(s) && SolePusher(s, c) && PushesOnlyBy(es, who) && Only(who, |s.threads|, c)
    ensures SolePusher(Run(s, es), c)
    decreases es
  {
    hide Step;
    if es != [] {
      assert es[0] in es;
      StepSolePusher(s, es[0], c);
      RunSolePusher(Step(s, es[0]), es[1..], who, c);
    }
  }

  // In every run in which only thread c calls pop, its stamp check fails exactly when the queue is
  // empty or its next value is still being pushed, whatever the other threads do.
  lemma SolePopFailsIff<T>(capacity: nat, n: nat, es: seq<Event<T>>, c: nat, act: Act<T>)
    requires capacity > 0 && c < n && PopsOnlyBy(es, {c})
    requires Run(Init(capacity, n), es).threads[c].PopCheck?
    ensures var s := Run(Init(capacity, n), es);
            Step(s, Event(c, act)).threads[c].PopFailed? <==> LooksEmpty(s)
  {
    var s := Run(Init(capacity, n), es);
    InitInv<T>(capacity, n);
    RunKeepsInv(Init(capacity, n), es);
    RunSolePopper(Init(capacity, n), es, {c}, c);
    FreshPopFailsIff(s);
  }

  // The mirror image: with one pusher, false means full or a node still being emptied.
  lemma SolePushFailsIff<T>(capacity: nat, n: nat, es: seq<Event<T>>, c: nat, act: Act<T>)
    requires capacity > 0 && c < n && PushesOnlyBy(es, {c})
    requires Run(Init(capacity, n), es).threads[c].PushCheck?
    ensures var s := Run(Init(capacity, n), es);
            Step(s, Event(c, act)).threads[c].PushFailed? <==> LooksFull(s)
  {
    var s := Run(Init(capacity, n), es);
    InitInv<T>(capacity, n);
    RunKeepsInv(Init(capacity, n), es);
    RunSolePusher(Init(capacity, n), es, {c}, c);
    FreshPushFailsIff(s);
  }

  // ----- whole calls

  // Thread q is looking for a value from s on, and its pop fails at the end of es.
  ghost predicate PopFailsIn<T>(s: Ring<T>, es: seq<Event<T>>, q: nat)
    requires Shaped(s) && q < |s.threads|
    decreases es
  {
    if es == [] then s.threads[q].PopFailed?
    else Looking(s.threads[q]) && PopFailsIn(Step(s, es[0]), es[1..], q)
  }

  ghost predicate PushFailsIn<T>(s: Ring<T>, es: seq<Event<T>>, q: nat)
    requires Shaped(s) && q < |s.threads|
    decreases es
  {
    if es == [] then s.threads[q].PushFailed?
    else Seeking(s.threads[q]) && PushFailsIn(Step(s, es[0]), es[1..], q)
  }

  // At some moment from s to the end of es the queue looks empty, or full.
  ghost predicate OnceEmpty<T>(s: Ring<T>, es: seq<Event<T>>)
    requires Shaped(s)
    decreases es
  {
    LooksEmpty(s) || (es != [] && OnceEmpty(Step(s, es[0]), es[1..]))
  }

  ghost predicate OnceFull<T>(s: Ring<T>, es: seq<Event<T>>)
    requires Shaped(s)
    decreases es
  {
    LooksFull(s) || (es != [] && OnceFull(Step(s, es[0]), es[1..]))
  }

  // A ticket goes stale only when another popper claims it.  With capacity 1 that claim empties the
  // queue, so even a stale failure is justified by a moment within the call.
  lemma {:induction false} FailedPopOnceEmpty<T>(s: Ring<T>, es: seq<Event<T>>, q: nat, who: set<nat>)
    requires Inv(s) && q < |s.threads| && Looking(s.threads[q]) && PopTicketIs(s.threads[q], s.head)
    requires PopFailsIn(s, es, q)
    requires s.capacity == 1 || (SolePopper(s, q) && PopsOnlyBy(es, who) && Only(who, |s.threads|, q))
    ensures OnceEmpty(s, es)
    decreases es
  {
    var e := es[0];
    assert e in es;
    var s1 := Step(s, e);
    StepKeepsInv(s, e);
    if s.capacity != 1 { StepSolePopper(s, e, q); }
    if !LooksEmpty(s) && !LooksEmpty(s1) {
      PopStepFresh(s, e, q);
      FailedPopOnceEmpty(s1, es[1..], q, who);
    }
  }

  lemma PopStepFresh<T>(s: Ring<T>, e: Event<T>, q: nat)
    requires Inv(s) && q < |s.threads| && Looking(s.threads[q]) && PopTicketIs(s.threads[q], s.head)
    requires s.capacity == 1 || SolePopper(s, q)
    requires !LooksEmpty(s) && !LooksEmpty(Step(s, e))
    ensures var pc := Step(s, e).threads[q]; (Looking(pc) && PopTicketIs(pc, Step(s, e).head)) || pc.PopRead?
  {
    if e.tid == q {
      FreshPopFailsIff(s);
    } else if Step(s, e).head != s.head {
      assert s.threads[e.tid].PopCas?;
      BoundedContents(s);
      StepKeepsInv(s, e);
    }
  }

  lemma {:induction false} FailedPushOnceFull<T>(s: Ring<T>, es: seq<Event<T>>, q: nat, who: set<nat>)
    requires Inv(s) && q < |s.threads| && Seeking(s.threads[q]) && PushTicketIs(s.threads[q], s.tail)
    requires PushFailsIn(s, es, q)
    requires s.capacity == 1 || (SolePusher(s, q) && PushesOnlyBy(es, who) && Only(who, |s.threads|, q))
    ensures OnceFull(s, es)
    decreases es
  {
    var e := es[0];
    assert e in es;
    var s1 := Step(s, e);
    StepKeepsInv(s, e);
    if s.capacity != 1 { StepSolePusher(s, e, q); }
    if !LooksFull(s) && !LooksFull(s1) {
      PushStepFresh(s, e, q);
      FailedPushOnceFull(s1, es[1..], q, who);
    }
  }

  lemma PushStepFresh<T>(s: Ring<T>, e: Event<T>, q: nat)
    requires Inv(s) && q < |s.threads| && Seeking(s.threads[q]) && PushTicketIs(s.threads[q], s.tail)
    requires s.capacity == 1 || SolePusher(s, q)
    requires !LooksFull(s) && !LooksFull(Step(s, e))
    ensures var pc := Step(s, e).threads[q]; (Seeking(pc) && PushTicketIs(pc, Step(s, e).tail)) || pc.PushWrite?
  {
    if e.tid == q {
      FreshPushFailsIff(s);
    } else if Step(s, e).tail != s.tail {
      assert s.threads[e.tid].PushCas? && ThreadOk(s, e.tid);
      StampIs(s, s.tail);
      BoundedContents(s);
    }
  }

  // ----- stale tickets

  // The ring after k pushes of v.
  function FilledRing<T>(capacity: nat, n: nat, k: nat, v: T): (s: Ring<T>)
    requires k <= capacity && capacity > 0
    ensures Shaped(s)
  {
    Ring(capacity, k, 0,
         seq(capacity, i requires 0 <= i < capacity => if i < k then Node(Some(v), i, i) else Node(None, i, -1)),
         seq(n, i => Idle), seq(k, i => v), map[])
  }

  lemma {:induction false} FillRing<T>(capacity: nat, n: nat, k: nat, v: T, p: nat) returns (es: seq<Event<T>>)
    requires k <= capacity && capacity > 0 && p < n
    ensures Run(Init(capacity, n), es) == FilledRing(capacity, n, k, v)
    ensures PopsOnlyBy(es, {})
  {
    if k == 0 {
      es := [];
      assert Init<T>(capacity, n).queue == FilledRing(capacity, n, 0, v).queue;
    } else {
      var before := FillRing(capacity, n, k - 1, v, p);
      FillRingOne(capacity, n, k - 1, v, p);
      RunConcat(Init(capacity, n), before, PushOf(p, v));
      es := before + PushOf(p, v);
    }
  }

  lemma FillRingOne<T>(capacity: nat, n: nat, k: nat, v: T, p: nat)
    requires k < capacity && p < n
    ensures Run(FilledRing(capacity, n, k, v), PushOf(p, v)) == FilledRing(capacity, n, k + 1, v)
  {
    var s, s' := FilledRing(capacity, n, k, v), FilledRing(capacity, n, k + 1, v);
    ModUnique(0, k, capacity);
    SoloPush(s, p, v);
    assert SetNode(s, k, Node(Some(v), k, k)).queue == s'.queue;
    assert s.pushed + [v] == s'.pushed;
  }

  lemma OnlyConcat<T>(x: seq<Event<T>>, y: seq<Event<T>>, who: set<nat>)
    ensures PopsOnlyBy(x, who) && PopsOnlyBy(y, who) ==> PopsOnlyBy(x + y, who)
    ensures PushesOnlyBy(x, who) && PushesOnlyBy(y, who) ==> PushesOnlyBy(x + y, who)
  {
  }

  lemma RunCons<T>(s: Ring<T>, e: Event<T>, es: seq<Event<T>>)
    requires Shaped(s)
    ensures Run(s, [e] + es) == Run(Step(s, e), es)
  {
    assert ([e] + es)[1..] == es;
  }

  ghost predicate Silent<T>(es: seq<Event<T>>, q: nat) { forall e :: e in es ==> e.tid != q }

  lemma {:induction false} SilentKeeps<T>(s: Ring<T>, es: seq<Event<T>>, q: nat)
    requires Shaped(s) && q < |s.threads| && Silent(es, q)
    ensures Run(s, es).threads[q] == s.threads[q]
    decreases es
  {
    if es != [] {
      assert es[0] in es;
      SilentKeeps(Step(s, es[0]), es[1..], q);
    }
  }

  // A thread that is not scheduled keeps looking.
  lemma {:induction false} SilentLooks<T>(s: Ring<T>, es: seq<Event<T>>, rest: seq<Event<T>>, q: nat)
    requires Shaped(s) && q < |s.threads| && Silent(es, q)
    ensures Looking(s.threads[q]) && PopFailsIn(Run(s, es), rest, q) ==> PopFailsIn(s, es + rest, q)
    ensures Seeking(s.threads[q]) && PushFailsIn(Run(s, es), rest, q) ==> PushFailsIn(s, es + rest, q)
    decreases es
  {
    if es == [] {
      assert es + rest == rest;
    } else {
      assert es[0] in es;
      assert (es + rest)[1..] == es[1..] + rest;
      SilentLooks(Step(s, es[0]), es[1..], rest, q);
    }
  }

  lemma {:induction false} CountersGrow<T>(s: Ring<T>, es: seq<Event<T>>)
    requires Shaped(s)
    ensures s.head <= Run(s, es).head && s.tail <= Run(s, es).tail
    decreases es
  {
    if es != [] { CountersGrow(Step(s, es[0]), es[1..]); }
  }

  lemma StepKeepsPublished<T>(s: Ring<T>, e: Event<T>, k: nat)
    requires Shaped(s) && Published(s, k)
    ensures Published(Step(s, e), k)
  {
    var s' := Step(s, e);
    forall a | 0 <= a < |s'.threads| ensures !PushOwns(s'.threads[a], k) {
      assert !PushOwns(s.threads[a], k);
      assert a != e.tid ==> s'.threads[a] == s.threads[a];
    }
  }

  // While the tickets from the head up to k are published and none beyond k is claimed, the queue is
  // never empty.
  lemma {:induction false} NeverEmpty<T>(s: Ring<T>, es: seq<Event<T>>, k: nat)
    requires Shaped(s) && (forall j :: s.head <= j <= k ==> Published(s, j)) && Run(s, es).head <= k
    ensures !OnceEmpty(s, es)
    decreases es
  {
    CountersGrow(s, es);
    assert Published(s, s.head);
    if es != [] {
      var s1 := Step(s, es[0]);
      CountersGrow(s1, es[1..]);
      forall j | s1.head <= j <= k ensures Published(s1, j) {
        CountersGrow(s, [es[0]]);
        assert Run(s, [es[0]]) == s1 by { assert [es[0]][1..] == []; }
        StepKeepsPublished(s, es[0], j);
      }
      NeverEmpty(s1, es[1..], k);
    }
  }

  // A queue that has not seen as many pushes as it has nodes is never full.
  lemma {:induction false} NeverFull<T>(s: Ring<T>, es: seq<Event<T>>)
    requires Shaped(s) && Run(s, es).tail < s.capacity
    ensures !OnceFull(s, es)
    decreases es
  {
    CountersGrow(s, es);
    if es != [] { NeverFull(Step(s, es[0]), es[1..]); }
  }

  // Between q's load of a ticket and its look at the node, p pops the value under that ticket and
  // refills the node.
  function Overtake<T>(p: nat, v: T): seq<Event<T>> { PopOf(p) + PushOf(p, v) }

  lemma OvertakeBy<T>(p: nat, q: nat, v: T)
    requires p != q
    ensures Silent(Overtake(p, v), q) && PopsOnlyBy(Overtake(p, v), {p})
  {
  }

  lemma OvertakePop<T>(capacity: nat, n: nat, v: T, p: nat, q: nat)
    requires capacity > 0 && p < n && q < n && p != q
    ensures var f := FilledRing(capacity, n, capacity, v);
            var s := Run(SetPc(f, q, PopCheck(0)), Overtake(p, v));
            && s.threads == f.threads[q := PopCheck(0)]
            && s.head == 1 && s.tail == capacity + 1 && s.capacity == capacity
            && At(s, 0).head == capacity
  {
    var f := FilledRing(capacity, n, capacity, v);
    var s := SetPc(f, q, PopCheck(0));
    ModUnique(0, 0, capacity);
    ModUnique(1, 0, capacity);
    SoloPop(s, p, v);
    var s1 := Run(s, PopOf(p));
    assert At(s1, s1.tail).tail == s1.tail;
    SoloPush(s1, p, v);
    RunConcat(s, PopOf(p), PushOf(p, v));
  }

  // Thread q has called pop on a full queue.
  function Called<T>(capacity: nat, n: nat, v: T, q: nat): (s: Ring<T>)
    requires capacity > 0 && q < n
    ensures Shaped(s)
  {
    SetPc(FilledRing(capacity, n, capacity, v), q, PopStart)
  }

  lemma CalledRun<T>(capacity: nat, n: nat, v: T, p: nat, q: nat) returns (es: seq<Event<T>>)
    requires capacity > 0 && p < n && q < n
    ensures Run(Init(capacity, n), es) == Called(capacity, n, v, q) && PopsOnlyBy(es, {q})
  {
    var before := FillRing(capacity, n, capacity, v, p);
    var call: Event<T> := Event(q, CallPop);
    es := before + [call];
    RunConcat(Init(capacity, n), before, [call]);
    assert [call][1..] == [];
  }

  // The call of q fails, and with at least two nodes the queue is not empty at any moment of it.
  lemma StalePopFails<T>(capacity: nat, n: nat, v: T, p: nat, q: nat) returns (es: seq<Event<T>>)
    requires capacity > 0 && p < n && q < n && p != q
    ensures PopFailsIn(Called(capacity, n, v, q), es, q)
    ensures PopsOnlyBy(es, {p})
    ensures capacity >= 2 ==> !OnceEmpty(Called(capacity, n, v, q), es)
  {
    var s := Called(capacity, n, v, q);
    var go := Event(q, Go);
    var s1 := Step(s, go);
    assert s1.threads == FilledRing(capacity, n, capacity, v).threads[q := PopCheck(0)];
    OvertakePop(capacity, n, v, p, q);
    var s2 := Run(s1, Overtake(p, v));
    OvertakeLooks(capacity, n, v, q, s2);
    hide Overtake;
    OvertakeBy(p, q, v);
    FailsAtOnce(s2, q);
    SilentLooks(s1, Overtake(p, v), [go], q);
    es := [go] + (Overtake(p, v) + [go]);
    assert es[1..] == Overtake(p, v) + [go];
    if capacity >= 2 {
      RunConcat(s1, Overtake(p, v), [go]);
      FullNeverEmpty(capacity, n, v, q, es);
    }
  }

  lemma FailsAtOnce<T>(s: Ring<T>, q: nat)
    requires Shaped(s) && q < |s.threads|
    ensures Run(s, [Event(q, Go)]) == Step(s, Event(q, Go))
    ensures s.threads[q].PopCheck? && Step(s, Event(q, Go)).threads[q].PopFailed? ==>
              PopFailsIn(s, [Event(q, Go)], q)
    ensures s.threads[q].PushCheck? && Step(s, Event(q, Go)).threads[q].PushFailed? ==>
              PushFailsIn(s, [Event(q, Go)], q)
  {
    var e: Event<T> := Event(q, Go);
    assert [e][1..] == [];
  }

  lemma FullNeverEmpty<T>(capacity: nat, n: nat, v: T, q: nat, es: seq<Event<T>>)
    requires capacity >= 2 && q < n && Run(Called(capacity, n, v, q), es).head <= 1
    ensures !OnceEmpty(Called(capacity, n, v, q), es)
  {
    var s := Called(capacity, n, v, q);
    forall j | 0 <= j <= 1 ensures Published(s, j) {
      assert forall a :: 0 <= a < n ==> !PushOwns(s.threads[a], j);
    }
    NeverEmpty(s, es, 1);
  }

  // ----- exactly when false can be trusted

  lemma TwoOf(who: set<nat>, n: nat) returns (p: nat, q: nat)
    requires !AtMostOne(who, n)
    ensures p in who && q in who && p < n && q < n && p != q
  {
    assert !Only(who, n, 0);
    p :| p in who && p < n && p != 0;
    assert !Only(who, n, p);
    q :| q in who && q < n && q != p;
  }

  // Whenever the check of a pop fails, the queue looks empty at that moment.
  ghost predicate PopCheckTrusted<T(!new)>(capacity: nat, n: nat, who: set<nat>)
    requires capacity > 0
  {
    forall es: seq<Event<T>>, q: nat ::
      q < n && PopsOnlyBy(es, who) && Run(Init(capacity, n), es).threads[q].PopCheck? &&
      Step(Run(Init(capacity, n), es), Event(q, Go)).threads[q].PopFailed? ==>
        LooksEmpty(Run(Init(capacity, n), es))
  }

  // For every capacity and number of threads, this holds exactly when at most one thread pops.
  lemma PopCheckTrustedIff<T(!new)>(capacity: nat, n: nat, who: set<nat>, v: T)
    requires capacity > 0
    ensures PopCheckTrusted<T>(capacity, n, who) <==> AtMostOne(who, n)
  {
    if c: nat :| Only(who, n, c) {
      forall es: seq<Event<T>>, q: nat |
        q < n && PopsOnlyBy(es, who) && Run(Init(capacity, n), es).threads[q].PopCheck? &&
        Step(Run(Init(capacity, n), es), Event(q, Go)).threads[q].PopFailed?
        ensures LooksEmpty(Run(Init(capacity, n), es))
      {
        InitInv<T>(capacity, n);
        RunKeepsInv(Init(capacity, n), es);
        RunSolePopper(Init(capacity, n), es, who, c);
        FreshPopFailsIff(Run(Init(capacity, n), es));
      }
    } else {
      var p, q := TwoOf(who, n);
      var es := StaleCheck(capacity, n, who, v, p, q);
    }
  }

  lemma OvertakeRun<T>(capacity: nat, n: nat, v: T, p: nat, q: nat)
    requires capacity > 0 && p < n && q < n && p != q
    ensures var s := Run(Called(capacity, n, v, q), [Event(q, Go)] + Overtake(p, v));
            s.threads[q].PopCheck? && Step(s, Event(q, Go)).threads[q].PopFailed? && !LooksEmpty(s)
  {
    hide Overtake;
    var s := Called(capacity, n, v, q);
    var s1 := Step(s, Event(q, Go));
    RunCons(s, Event(q, Go), Overtake(p, v));
    assert s1.threads == FilledRing(capacity, n, capacity, v).threads[q := PopCheck(0)];
    OvertakePop(capacity, n, v, p, q);
    OvertakeLooks(capacity, n, v, q, Run(s1, Overtake(p, v)));
  }

  lemma OvertakeLooks<T>(capacity: nat, n: nat, v: T, q: nat, s: Ring<T>)
    requires capacity > 0 && q < n && Shaped(s) && s.capacity == capacity
    requires s.threads == FilledRing(capacity, n, capacity, v).threads[q := PopCheck(0)]
    requires s.head == 1 && s.tail == capacity + 1 && At(s, 0).head == capacity
    ensures Step(s, Event(q, Go)).threads[q].PopFailed? && !LooksEmpty(s)
  {
    assert forall a, k: nat :: 0 <= a < n ==> !PushOwns(s.threads[a], k);
  }

  lemma StaleCheck<T>(capacity: nat, n: nat, who: set<nat>, v: T, p: nat, q: nat) returns (es: seq<Event<T>>)
    requires capacity > 0 && p < n && q < n && p != q && p in who && q in who
    ensures PopsOnlyBy(es, who) && Run(Init(capacity, n), es).threads[q].PopCheck?
    ensures Step(Run(Init(capacity, n), es), Event(q, Go)).threads[q].PopFailed?
    ensures !LooksEmpty(Run(Init(capacity, n), es))
  {
    hide Overtake, Step;
    var called := CalledRun(capacity, n, v, p, q);
    var rest := [Event(q, Go)] + Overtake(p, v);
    RunConcat(Init(capacity, n), called, rest);
    es := called + rest;
    OvertakeRun(capacity, n, v, p, q);
    OvertakeBy(p, q, v);
    OnlyConcat([Event(q, Go)], Overtake(p, v), who);
    OnlyConcat(called, rest, who);
  }

  // Whenever a pop returns false, the queue looked empty at some moment of the call.
  ghost predicate PopTrusted<T(!new)>(capacity: nat, n: nat, who: set<nat>)
    requires capacity > 0
  {
    forall before: seq<Event<T>>, es: seq<Event<T>>, q: nat ::
      q < n && PopsOnlyBy(before, who) && PopsOnlyBy(es, who) &&
      Run(Init(capacity, n), before).threads[q].PopStart? && PopFailsIn(Run(Init(capacity, n), before), es, q) ==>
        OnceEmpty(Run(Init(capacity, n), before), es)
  }

  // For every capacity and number of threads: exactly when at most one thread pops or there is only
  // one node.
  lemma PopTrustedIff<T(!new)>(capacity: nat, n: nat, who: set<nat>, v: T)
    requires capacity > 0
    ensures PopTrusted<T>(capacity, n, who) <==> capacity == 1 || AtMostOne(who, n)
  {
    hide Step, Inv, OnceEmpty;
    if capacity == 1 || AtMostOne(who, n) {
      forall before: seq<Event<T>>, es: seq<Event<T>>, q: nat |
        q < n && PopsOnlyBy(before, who) && PopsOnlyBy(es, who) &&
        Run(Init(capacity, n), before).threads[q].PopStart? && PopFailsIn(Run(Init(capacity, n), before), es, q)
        ensures OnceEmpty(Run(Init(capacity, n), before), es)
      {
        InitInv<T>(capacity, n);
        RunKeepsInv(Init(capacity, n), before);
        if c: nat :| Only(who, n, c) { RunSolePopper(Init(capacity, n), before, who, c); }
        FailedPopOnceEmpty(Run(Init(capacity, n), before), es, q, who);
      }
    } else {
      var p, q := TwoOf(who, n);
      var before := CalledRun(capacity, n, v, p, q);
      var es := StalePopFails(capacity, n, v, p, q);
      assert !OnceEmpty(Run(Init(capacity, n), before), es);
    }
  }

  // ----- the same for push

  // q has called push on a new queue.
  function PushCalled<T>(capacity: nat, n: nat, v: T, q: nat): (s: Ring<T>)
    requires capacity > 0 && q < n
    ensures Shaped(s)
  {
    SetPc(Init(capacity, n), q, PushStart(v))
  }

  // Between q's load of a ticket and its look at the node, p pushes under that ticket and pops again.
  function Undercut<T>(p: nat, v: T): seq<Event<T>> { PushOf(p, v) + PopOf(p) }

  lemma UndercutBy<T>(p: nat, q: nat, v: T)
    requires p != q
    ensures Silent(Undercut(p, v), q) && PushesOnlyBy(Undercut(p, v), {p})
  {
  }

  lemma UndercutPush<T>(capacity: nat, n: nat, v: T, p: nat, q: nat)
    requires capacity > 0 && p < n && q < n && p != q
    ensures var f := Init(capacity, n);
            var s := Run(SetPc(f, q, PushCheck(v, 0)), Undercut(p, v));
            && s.threads == f.threads[q := PushCheck(v, 0)]
            && s.head == 1 && s.tail == 1 && s.capacity == capacity
            && At(s, 0).tail == capacity
  {
    var s := SetPc(Init(capacity, n), q, PushCheck(v, 0));
    ModUnique(0, 0, capacity);
    SoloPush(s, p, v);
    var s1 := Run(s, PushOf(p, v));
    SoloPop(s1, p, v);
    RunConcat(s, PushOf(p, v), PopOf(p));
  }

  lemma UndercutLooks<T>(capacity: nat, n: nat, v: T, q: nat, s: Ring<T>)
    requires capacity > 0 && q < n && Shaped(s) && s.capacity == capacity
    requires s.threads == Init<T>(capacity, n).threads[q := PushCheck(v, 0)]
    requires s.head == 1 && s.tail == 1 && At(s, 0).tail == capacity
    ensures Step(s, Event(q, Go)).threads[q].PushFailed? && !LooksFull(s)
  {
    assert forall a, k: nat :: 0 <= a < n ==> !PopOwns(s.threads[a], k);
  }

  // The push of q fails on a queue that is empty again, and with at least two nodes was never full.
  lemma StalePushFails<T>(capacity: nat, n: nat, v: T, p: nat, q: nat) returns (es: seq<Event<T>>)
    requires capacity > 0 && p < n && q < n && p != q
    ensures PushFailsIn(PushCalled(capacity, n, v, q), es, q)
    ensures PushesOnlyBy(es, {p})
    ensures capacity >= 2 ==> !OnceFull(PushCalled(capacity, n, v, q), es)
  {
    var s := PushCalled(capacity, n, v, q);
    var go := Event(q, Go);
    var s1 := Step(s, go);
    assert s1.threads == Init<T>(capacity, n).threads[q := PushCheck(v, 0)];
    UndercutPush(capacity, n, v, p, q);
    var s2 := Run(s1, Undercut(p, v));
    UndercutLooks(capacity, n, v, q, s2);
    hide Undercut;
    UndercutBy(p, q, v);
    FailsAtOnce(s2, q);
    SilentLooks(s1, Undercut(p, v), [go], q);
    es := [go] + (Undercut(p, v) + [go]);
    assert es[1..] == Undercut(p, v) + [go];
    if capacity >= 2 {
      RunConcat(s1, Undercut(p, v), [go]);
      NeverFull(s, es);
    }
  }

  // Whenever the check of a push fails, the queue looks full at that moment.
  ghost predicate PushCheckTrusted<T(!new)>(capacity: nat, n: nat, who: set<nat>)
    requires capacity > 0
  {
    forall es: seq<Event<T>>, q: nat ::
      q < n && PushesOnlyBy(es, who) && Run(Init(capacity, n), es).threads[q].PushCheck? &&
      Step(Run(Init(capacity, n), es), Event(q, Go)).threads[q].PushFailed? ==>
        LooksFull(Run(Init(capacity, n), es))
  }

  // For every capacity and number of threads, this holds exactly when at most one thread pushes.
  lemma PushCheckTrustedIff<T(!new)>(capacity: nat, n: nat, who: set<nat>, v: T)
    requires capacity > 0
    ensures PushCheckTrusted<T>(capacity, n, who) <==> AtMostOne(who, n)
  {
    if c: nat :| Only(who, n, c) {
      forall es: seq<Event<T>>, q: nat |
        q < n && PushesOnlyBy(es, who) && Run(Init(capacity, n), es).threads[q].PushCheck? &&
        Step(Run(Init(capacity, n), es), Event(q, Go)).threads[q].PushFailed?
        ensures LooksFull(Run(Init(capacity, n), es))
      {
        InitInv<T>(capacity, n);
        RunKeepsInv(Init(capacity, n), es);
        RunSolePusher(Init(capacity, n), es, who, c);
        FreshPushFailsIff(Run(Init(capacity, n), es));
      }
    } else {
      var p, q := TwoOf(who, n);
      var es := StalePushCheck(capacity, n, who, v, p, q);
    }
  }

  lemma PushCalledRun<T>(capacity: nat, n: nat, v: T, q: nat) returns (es: seq<Event<T>>)
    requires capacity > 0 && q < n
    ensures Run(Init(capacity, n), es) == PushCalled(capacity, n, v, q) && PushesOnlyBy(es, {q})
  {
    es := [Event(q, CallPush(v))];
    assert es[1..] == [];
  }

  lemma UndercutRun<T>(capacity: nat, n: nat, v: T, p: nat, q: nat)
    requires capacity > 0 && p < n && q < n && p != q
    ensures var s := Run(PushCalled(capacity, n, v, q), [Event(q, Go)] + Undercut(p, v));
            s.threads[q].PushCheck? && Step(s, Event(q, Go)).threads[q].PushFailed? && !LooksFull(s)
  {
    hide Undercut;
    var s := PushCalled(capacity, n, v, q);
    var s1 := Step(s, Event(q, Go));
    RunCons(s, Event(q, Go), Undercut(p, v));
    assert s1.threads == Init<T>(capacity, n).threads[q := PushCheck(v, 0)];
    UndercutPush(capacity, n, v, p, q);
    UndercutLooks(capacity, n, v, q, Run(s1, Undercut(p, v)));
  }

  lemma StalePushCheck<T>(capacity: nat, n: nat, who: set<nat>, v: T, p: nat, q: nat) returns (es: seq<Event<T>>)
    requires capacity > 0 && p < n && q < n && p != q && p in who && q in who
    ensures PushesOnlyBy(es, who) && Run(Init(capacity, n), es).threads[q].PushCheck?
    ensures Step(Run(Init(capacity, n), es), Event(q, Go)).threads[q].PushFailed?
    ensures !LooksFull(Run(Init(capacity, n), es))
  {
    hide Undercut, Step;
    var called := PushCalledRun(capacity, n, v, q);
    var rest := [Event(q, Go)] + Undercut(p, v);
    RunConcat(Init(capacity, n), called, rest);
    es := called + rest;
    UndercutRun(capacity, n, v, p, q);
    UndercutBy(p, q, v);
    OnlyConcat([Event(q, Go)], Undercut(p, v), who);
    OnlyConcat(called, rest, who);
  }

  // Whenever a push returns false, the queue looked full at some moment of the call.
  ghost predicate PushTrusted<T(!new)>(capacity: nat, n: nat, who: set<nat>)
    requires capacity > 0
  {
    forall before: seq<Event<T>>, es: seq<Event<T>>, q: nat ::
      q < n && PushesOnlyBy(before, who) && PushesOnlyBy(es, who) &&
      Run(Init(capacity, n), before).threads[q].PushStart? && PushFailsIn(Run(Init(capacity, n), before), es, q) ==>
        OnceFull(Run(Init(capacity, n), before), es)
  }

  // For every capacity and number of threads: exactly when at most one thread pushes or there is only
  // one node.
  lemma PushTrustedIff<T(!new)>(capacity: nat, n: nat, who: set<nat>, v: T)
    requires capacity > 0
    ensures PushTrusted<T>(capacity, n, who) <==> capacity == 1 || AtMostOne(who, n)
  {
    hide Step, Inv, OnceFull;
    if capacity == 1 || AtMostOne(who, n) {
      forall before: seq<Event<T>>, es: seq<Event<T>>, q: nat |
        q < n && PushesOnlyBy(before, who) && PushesOnlyBy(es, who) &&
        Run(Init(capacity, n), before).threads[q].PushStart? && PushFailsIn(Run(Init(capacity, n), before), es, q)
        ensures OnceFull(Run(Init(capacity, n), before), es)
      {
        InitInv<T>(capacity, n);
        RunKeepsInv(Init(capacity, n), before);
        if c: nat :| Only(who, n, c) { RunSolePusher(Init(capacity, n), before, who, c); }
        FailedPushOnceFull(Run(Init(capacity, n), before), es, q, who);
      }
    } else {
      var p, q := TwoOf(who, n);
      var before := PushCalledRun(capacity, n, v, q);
      var es := StalePushFails(capacity, n, v, p, q);
      assert !OnceFull(Run(Init(capacity, n), before), es);
    }
  }
}
