/** What the queue of src/utils/circlebuffer.h guarantees in every interleaving of its threads. */
module RingSafety {
  // Exclusive nodes, conservation of tickets, and refinement of a bounded FIFO queue, for any number of threads.

  import opened Wrappers
  import opened Arithmetic
  import opened CircleBuffer
  import opened Sequences

  ghost predicate Reachable<T(!new)>(s: Ring<T>) {
    exists capacity: nat, n: nat, es: seq<Event<T>> :: capacity > 0 && s == Run(Init(capacity, n), es)
  }

  lemma ReachableInv<T(!new)>(s: Ring<T>)
    requires Reachable(s)
    ensures Inv(s)
  {
    var capacity: nat, n: nat, es: seq<Event<T>> :| capacity > 0 && s == Run(Init(capacity, n), es);
    InitInv<T>(capacity, n);
    RunKeepsInv(Init(capacity, n), es);
  }

  // ----- exclusive access

  predicate Owns<T>(pc: Pc<T>, k: nat) {
    PushOwns(pc, k) || PopOwns(pc, k)
  }

  // Two threads never work on the same node, whichever tickets they hold.
  lemma ExclusiveNodes<T(!new)>(s: Ring<T>, a: nat, b: nat, j: nat, k: nat)
    requires Reachable(s) && a < |s.threads| && b < |s.threads| && a != b
    requires Owns(s.threads[a], j) && Owns(s.threads[b], k)
    ensures Slot(s, j) != Slot(s, k)
  {
    ReachableInv(s);
    OwnerNodes(s, a, j);
  }

  // A node is constructed only when empty, read and destroyed only when it holds the value pushed
  // under the reader's own ticket, and that is the value pop returns.
  lemma TicketsMatch<T(!new)>(s: Ring<T>, a: nat)
    requires Reachable(s) && a < |s.threads|
    ensures match s.threads[a]
            case PushWrite(v, t) => t < |s.pushed| && s.pushed[t] == v && At(s, t).data == None
            case PushPublish(v, t) => t < |s.pushed| && s.pushed[t] == v && At(s, t).data == Some(v)
            case PopRead(h) => h < |s.pushed| && At(s, h).data == Some(s.pushed[h]) && h !in s.taken
            case PopDestroy(h, r) => h < |s.pushed| && s.pushed[h] == r && At(s, h).data == Some(r)
            case PopOk(h, r) => h < |s.pushed| && s.pushed[h] == r
            case _ => true
  {
    ReachableInv(s);
    assert ThreadOk(s, a);
  }

  // ----- conservation

  ghost predicate InFlight<T>(s: Ring<T>, k: nat) { PushHeld(s.threads, k) }

  ghost predicate Stored<T>(s: Ring<T>, k: nat)
    requires Shaped(s)
  {
    s.head <= k < |s.pushed| && At(s, k) == Node(Some(s.pushed[k]), k, k)
  }

  ghost predicate Leaving<T>(s: Ring<T>, k: nat) { PopHeld(s.threads, k) }

  ghost predicate Released<T>(s: Ring<T>, k: nat) {
    k < s.head && !PopHeld(s.threads, k) && k in s.taken && k < |s.pushed| && s.taken[k] == s.pushed[k]
  }

  // How the stamp of a ticket's node stands to the ticket.
  lemma StampCases<T>(s: Ring<T>, k: nat)
    requires Inv(s)
    ensures At(s, k).tail > k ==> At(s, k).tail >= k + s.capacity && k < s.head
    ensures At(s, k).tail < k ==> s.tail <= k
    ensures PushHeld(s.threads, k) || PopHeld(s.threads, k) ==> At(s, k).tail == k
    ensures PushHeld(s.threads, k) ==> At(s, k).head != k
    ensures PopHeld(s.threads, k) ==> At(s, k).head == k && k < s.head
  {
    var c := At(s, k).tail;
    assert NodeOk(s, Slot(s, k));
    if c > k { SameSlot(k, c, s.capacity); }
    if c < k { SameSlot(c, k, s.capacity); }
    if PushHeld(s.threads, k) {
      var a :| 0 <= a < |s.threads| && PushOwns(s.threads[a], k);
      assert ThreadOk(s, a);
    }
    if PopHeld(s.threads, k) {
      var a :| 0 <= a < |s.threads| && PopOwns(s.threads[a], k);
      assert ThreadOk(s, a);
    }
  }

  lemma TakenUnlessReading<T>(s: Ring<T>, k: nat)
    requires Inv(s) && k < s.head && !PopHeld(s.threads, k)
    ensures k in s.taken && s.taken[k] == s.pushed[k]
  {
    forall a | 0 <= a < |s.threads| ensures s.threads[a] != PopRead(k) {
      assert !PopOwns(s.threads[a], k);
    }
  }

  // Every ticket handed out is in exactly one place: with its pusher, in its node, with its popper,
  // or delivered; nothing is lost or duplicated.
  lemma Conservation<T(!new)>(s: Ring<T>, k: nat)
    requires Reachable(s) && k < s.tail
    ensures InFlight(s, k) || Stored(s, k) || Leaving(s, k) || Released(s, k)
    ensures InFlight(s, k) ==> !Stored(s, k) && !Leaving(s, k) && !Released(s, k)
    ensures Stored(s, k) ==> !Leaving(s, k) && !Released(s, k)
    ensures Leaving(s, k) ==> !Released(s, k)
  {
    ReachableInv(s);
    StampCases(s, k);
    assert NodeOk(s, Slot(s, k));
    if k < s.head && !PopHeld(s.threads, k) { TakenUnlessReading(s, k); }
  }

  // ----- refinement of a bounded FIFO queue

  datatype Op<T> = Enq(v: T) | Deq(v: T)

  function Contents<T>(s: Ring<T>): seq<T>
    requires s.head <= s.tail == |s.pushed|
  {
    s.pushed[s.head..]
  }

  // The abstract operation a step performs, if any: the one at a successful compare-and-swap, which
  // lies between the call and the return of the thread that performs it.
  function OpOf<T>(s: Ring<T>, e: Event<T>): seq<Op<T>>
    requires Shaped(s)
  {
    if e.tid >= |s.threads| || e.act == CasFails then [] else
    match s.threads[e.tid]
    case PushCas(v, t) => if s.tail == t then [Enq(v)] else []
    case PopCas(h) => if s.head == h < |s.pushed| then [Deq(s.pushed[h])] else []
    case _ => []
  }

  function Ops<T>(s: Ring<T>, es: seq<Event<T>>): seq<Op<T>>
    requires Shaped(s)
    decreases es
  {
    if es == [] then [] else
      OpOf(s, es[0]) + Ops(Step(s, es[0]), es[1..])
  }

  // A sequential queue holding at most `capacity` values; None when an operation is not legal.
  function Replay<T(==)>(capacity: nat, q: seq<T>, ops: seq<Op<T>>): Option<seq<T>>
    decreases ops
  {
    if ops == [] then Some(q) else
    match ops[0]
    case Enq(v) => if |q| < capacity then Replay(capacity, q + [v], ops[1..]) else None
    case Deq(v) => if q != [] && q[0] == v then Replay(capacity, q[1..], ops[1..]) else None
  }

  lemma BoundedContents<T>(s: Ring<T>)
    requires Inv(s)
    ensures s.tail - s.head <= s.capacity
    ensures At(s, s.tail).tail == s.tail ==> s.tail - s.head < s.capacity
  {
    StampCases(s, s.head);
    assert NodeOk(s, Slot(s, s.head));
    if At(s, s.tail).tail == s.tail {
      assert NodeOk(s, Slot(s, s.tail));
    }
  }

  lemma StepRefines<T>(s: Ring<T>, e: Event<T>)
    requires Inv(s)
    ensures Inv(Step(s, e))
    ensures |OpOf(s, e)| <= 1
    ensures Replay(s.capacity, Contents(s), OpOf(s, e)) == Some(Contents(Step(s, e)))
  {
    StepKeepsInv(s, e);
    if e.tid < |s.threads| && e.act != CasFails {
      var pc := s.threads[e.tid];
      assert ThreadOk(s, e.tid);
      if pc.PushCas? && s.tail == pc.t {
        StampIs(s, pc.t);
        BoundedContents(s);
        assert Contents(Step(s, e)) == Contents(s) + [pc.v];
      } else if pc.PopCas? && s.head == pc.h {
        StoredIs(s, pc.h);
        assert Contents(Step(s, e)) == Contents(s)[1..];
      }
    }
  }

  lemma {:induction false} ReplayConcat<T>(capacity: nat, q: seq<T>, x: seq<Op<T>>, y: seq<Op<T>>)
    requires |x| <= 1 && Replay(capacity, q, x).Some?
    ensures Replay(capacity, q, x + y) == Replay(capacity, Replay(capacity, q, x).value, y)
  {
    if x == [] {
      assert x + y == y;
    } else {
      assert (x + y)[1..] == y;
    }
  }

  // Every interleaving is a legal history of the sequential queue, and leaves its contents.
  lemma {:induction false} Linearizable<T>(s: Ring<T>, es: seq<Event<T>>)
    requires Inv(s)
    ensures Inv(Run(s, es))
    ensures Replay(s.capacity, Contents(s), Ops(s, es)) == Some(Contents(Run(s, es)))
    decreases es
  {
    hide Step, OpOf;
    if es != [] {
      StepRefines(s, es[0]);
      var s1 := Step(s, es[0]);
      Linearizable(s1, es[1..]);
      ReplayConcat(s.capacity, Contents(s), OpOf(s, es[0]), Ops(s1, es[1..]));
    }
  }

  // ----- every call takes effect once, within the call

  // The operation a thread has performed in a call that has not returned yet.
  function Pending<T>(s: Ring<T>, tid: nat): seq<Op<T>> {
    if tid >= |s.threads| then [] else
    match s.threads[tid]
    case PushWrite(v, _) => [Enq(v)]
    case PushPublish(v, _) => [Enq(v)]
    case PushOk(t) => if t < |s.pushed| then [Enq(s.pushed[t])] else []
    case PopRead(h) => if h < |s.pushed| then [Deq(s.pushed[h])] else []
    case PopDestroy(_, r) => [Deq(r)]
    case PopRelease(_, r) => [Deq(r)]
    case PopOk(_, r) => [Deq(r)]
    case _ => []
  }

  // What the thread's caller sees: the value pushed, or the value popped; nothing when the result is false.
  function Returned<T>(s: Ring<T>, e: Event<T>, tid: nat): seq<Op<T>> {
    if e.tid != tid || tid >= |s.threads| then [] else
    match s.threads[tid]
    case PushOk(t) => if t < |s.pushed| then [Enq(s.pushed[t])] else []
    case PopOk(_, r) => [Deq(r)]
    case _ => []
  }

  function OpBy<T>(s: Ring<T>, e: Event<T>, tid: nat): seq<Op<T>>
    requires Shaped(s)
  {
    if e.tid == tid then OpOf(s, e) else []
  }

  function OpsBy<T>(s: Ring<T>, es: seq<Event<T>>, tid: nat): seq<Op<T>>
    requires Shaped(s)
    decreases es
  {
    if es == [] then [] else OpBy(s, es[0], tid) + OpsBy(Step(s, es[0]), es[1..], tid)
  }

  function ReturnedAll<T>(s: Ring<T>, es: seq<Event<T>>, tid: nat): seq<Op<T>>
    requires Shaped(s)
    decreases es
  {
    if es == [] then [] else Returned(s, es[0], tid) + ReturnedAll(Step(s, es[0]), es[1..], tid)
  }

  lemma StepHistory<T>(s: Ring<T>, e: Event<T>, tid: nat)
    requires Inv(s)
    ensures Pending(s, tid) + OpBy(s, e, tid) == Returned(s, e, tid) + Pending(Step(s, e), tid)
  {
    if e.tid == tid {
      OwnStep(s, e);
    } else {
      OtherStep(s, e, tid);
    }
  }

  lemma OwnStep<T>(s: Ring<T>, e: Event<T>)
    requires Inv(s)
    ensures Pending(s, e.tid) + OpOf(s, e) == Returned(s, e, e.tid) + Pending(Step(s, e), e.tid)
  {
    if e.tid < |s.threads| {
      assert ThreadOk(s, e.tid);
      if s.threads[e.tid].PopCas? && s.threads[e.tid].h == s.head { StoredIs(s, s.head); }
    }
  }

  lemma OtherStep<T>(s: Ring<T>, e: Event<T>, tid: nat)
    requires Inv(s) && e.tid != tid
    ensures Pending(Step(s, e), tid) == Pending(s, tid)
  {
    if tid < |s.threads| {
      assert ThreadOk(s, tid);
      assert Step(s, e).threads[tid] == s.threads[tid] && s.pushed <= Step(s, e).pushed;
    }
  }

  // A thread's operations in the linearized history are, in its program order, exactly those whose
  // results it returned, up to the one in flight.  A thread outside a call has none in flight, so each
  // operation lies between the call and the return of its own push or pop, and a false result has none.
  lemma {:induction false} ThreadHistory<T>(s: Ring<T>, es: seq<Event<T>>, tid: nat)
    requires Inv(s)
    ensures Pending(s, tid) + OpsBy(s, es, tid) == ReturnedAll(s, es, tid) + Pending(Run(s, es), tid)
    decreases es
  {
    hide Step, OpOf, Pending, Returned;
    if es == [] {
      assert Pending(s, tid) + [] == Pending(s, tid) && [] + Pending(s, tid) == Pending(s, tid);
    } else {
      var s1 := Step(s, es[0]);
      var o, os := OpBy(s, es[0], tid), OpsBy(s1, es[1..], tid);
      var r, rs := Returned(s, es[0], tid), ReturnedAll(s1, es[1..], tid);
      StepKeepsInv(s, es[0]);
      StepHistory(s, es[0], tid);
      ThreadHistory(s1, es[1..], tid);
      Regroup(Pending(s, tid), o, os);
      Regroup(r, Pending(s1, tid), os);
      Regroup(r, rs, Pending(Run(s, es), tid));
    }
  }

  function Enqueued<T>(ops: seq<Op<T>>): seq<T> {
    if ops == [] then [] else (if ops[0].Enq? then [ops[0].v] else []) + Enqueued(ops[1..])
  }

  function Dequeued<T>(ops: seq<Op<T>>): seq<T> {
    if ops == [] then [] else (if ops[0].Deq? then [ops[0].v] else []) + Dequeued(ops[1..])
  }

  lemma {:induction false} ValuesConcat<T>(x: seq<Op<T>>, y: seq<Op<T>>)
    requires |x| <= 1
    ensures Enqueued(x + y) == Enqueued(x) + Enqueued(y)
    ensures Dequeued(x + y) == Dequeued(x) + Dequeued(y)
  {
    if x == [] {
      assert x + y == y;
    } else {
      assert (x + y)[1..] == y && x[1..] == [];
    }
  }

  function Popped<T>(s: Ring<T>): seq<T> {
    if s.head <= |s.pushed| then s.pushed[..s.head] else s.pushed
  }

  lemma OneOp<T>(v: T)
    ensures Enqueued([Enq(v)]) == [v] && Dequeued([Enq(v)]) == []
    ensures Enqueued([Deq(v)]) == [] && Dequeued([Deq(v)]) == [v]
  {
    assert [Enq(v)][1..] == [] && [Deq(v)][1..] == [];
  }

  lemma StepTickets<T>(s: Ring<T>, e: Event<T>)
    requires Inv(s)
    ensures |OpOf(s, e)| <= 1
    ensures Step(s, e).pushed == s.pushed + Enqueued(OpOf(s, e))
    ensures Popped(Step(s, e)) == Popped(s) + Dequeued(OpOf(s, e))
  {
    var s' := Step(s, e);
    if OpOf(s, e) == [] {
      assert s'.pushed == s.pushed && s'.head == s.head by {
        if e.tid < |s.threads| && s.threads[e.tid].PopCas? && s.threads[e.tid].h == s.head {
          assert ThreadOk(s, e.tid);
          StoredIs(s, s.head);
        }
      }
    } else {
      var pc := s.threads[e.tid];
      if pc.PushCas? {
        OneOp(pc.v);
        assert s'.pushed == s.pushed + [pc.v] && s'.head == s.head <= |s.pushed|;
        assert s'.pushed[..s.head] == s.pushed[..s.head];
      } else {
        OneOp(s.pushed[s.head]);
        assert s'.pushed == s.pushed && s'.head == s.head + 1;
      }
    }
  }

  // Ticket k is the k-th value enqueued and the k-th value dequeued, so with TicketsMatch values
  // leave in exactly the order in which they came.
  lemma {:induction false} TicketOrder<T>(s: Ring<T>, es: seq<Event<T>>)
    requires Inv(s)
    ensures Run(s, es).pushed == s.pushed + Enqueued(Ops(s, es))
    ensures Popped(Run(s, es)) == Popped(s) + Dequeued(Ops(s, es))
    decreases es
  {
    hide Step, OpOf;
    if es != [] {
      var s1, op, rest := Step(s, es[0]), OpOf(s, es[0]), Ops(Step(s, es[0]), es[1..]);
      StepTickets(s, es[0]);
      TicketOrder(s1, es[1..]) by { StepKeepsInv(s, es[0]); }
      ValuesConcat(op, rest);
      Regroup(s.pushed, Enqueued(op), Enqueued(rest));
      Regroup(Popped(s), Dequeued(op), Dequeued(rest));
    }
  }
}
