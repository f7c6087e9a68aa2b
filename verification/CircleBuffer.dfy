/**
 The lock-free bounded queue of src/utils/circlebuffer.h as a step machine.

 One step is one atomic load, store or compare-and-swap of one thread (or one of the two plain
 accesses to a node's data), so a list of events is one interleaving of any number of threads.
 Memory is sequentially consistent.  `pushed` and `taken` are history: the value pushed under each
 ticket, and the value read under each ticket.
 */
module CircleBuffer {
  import opened Wrappers
  import opened Arithmetic

  datatype Node<T> = Node(data: Option<T>, tail: int, head: int)

  // Where a thread stands inside push or pop; the argument is its local copy of the ticket counter.
  datatype Pc<T> =
    | Idle
    | PushStart(v: T)               // about to load _tail
    | PushCheck(v: T, t: nat)       // about to load node->tail
    | PushCas(v: T, t: nat)         // about to compare-and-swap _tail
    | PushWrite(v: T, t: nat)       // owns the node, about to construct its data
    | PushPublish(v: T, t: nat)     // about to store node->head
    | PushOk(t: nat)                // push returned true
    | PushFailed(t: nat)            // push returned false
    | PopStart                      // about to load _head
    | PopCheck(h: nat)              // about to load node->head
    | PopCas(h: nat)                // about to compare-and-swap _head
    | PopRead(h: nat)               // owns the node, about to copy its data
    | PopDestroy(h: nat, r: T)      // about to destroy the node's data
    | PopRelease(h: nat, r: T)      // about to store node->tail
    | PopOk(h: nat, r: T)           // pop returned true with r
    | PopFailed(h: nat)             // pop returned false

  datatype Ring<T> = Ring(
    capacity: nat, tail: nat, head: nat, queue: seq<Node<T>>, threads: seq<Pc<T>>,
    pushed: seq<T>, taken: map<nat, T>)

  datatype Act<T> = CallPush(v: T) | CallPop | Go | CasFails

  datatype Event<T> = Event(tid: nat, act: Act<T>)

  predicate Shaped<T>(s: Ring<T>) {
    s.capacity > 0 && |s.queue| == s.capacity
  }

  // The node a ticket names; the mask in the source is the remainder by a power of two
  // (Rounding.MaskIsRemainder).
  function Slot<T>(s: Ring<T>, ticket: nat): (i: nat)
    requires Shaped(s)
    ensures i < |s.queue|
  {
    ticket % s.capacity
  }

  function At<T>(s: Ring<T>, ticket: nat): Node<T>
    requires Shaped(s)
  {
    s.queue[Slot(s, ticket)]
  }

  function SetPc<T>(s: Ring<T>, tid: nat, pc: Pc<T>): Ring<T>
    requires tid < |s.threads|
  {
    s.(threads := s.threads[tid := pc])
  }

  function SetNode<T>(s: Ring<T>, ticket: nat, n: Node<T>): Ring<T>
    requires Shaped(s)
  {
    s.(queue := s.queue[Slot(s, ticket) := n])
  }

  // A request for capacity 0 wraps to a ring without nodes (Rounding.TicketsHaveNodesIff).
  function Init<T>(capacity: nat, threads: nat): (s: Ring<T>)
    ensures capacity > 0 ==> Shaped(s)
  {
    Ring(capacity, 0, 0, seq(capacity, i => Node(None, i, -1)), seq(threads, i => Idle), [], map[])
  }

  // One step of thread e.tid.  A compare-and-swap that fails, spuriously or not, reloads the local
  // counter and goes back to the stamp check.
  function Step<T>(s: Ring<T>, e: Event<T>): (s': Ring<T>)
    requires Shaped(s)
    ensures Shaped(s') && s'.capacity == s.capacity && |s'.threads| == |s.threads|
  {
    if e.tid >= |s.threads| then s else
    match s.threads[e.tid]
    case Idle =>
      (match e.act
       case CallPush(v) => SetPc(s, e.tid, PushStart(v))
       case CallPop => SetPc(s, e.tid, PopStart)
       case _ => s)
    case PushStart(v) => SetPc(s, e.tid, PushCheck(v, s.tail))
    case PushCheck(v, t) => SetPc(s, e.tid, if At(s, t).tail != t then PushFailed(t) else PushCas(v, t))
    case PushCas(v, t) =>
      if s.tail == t && e.act != CasFails
      then SetPc(s.(tail := t + 1, pushed := s.pushed + [v]), e.tid, PushWrite(v, t))
      else SetPc(s, e.tid, PushCheck(v, s.tail))
    case PushWrite(v, t) => SetPc(SetNode(s, t, At(s, t).(data := Some(v))), e.tid, PushPublish(v, t))
    case PushPublish(v, t) => SetPc(SetNode(s, t, At(s, t).(head := t)), e.tid, PushOk(t))
    case PopStart => SetPc(s, e.tid, PopCheck(s.head))
    case PopCheck(h) => SetPc(s, e.tid, if At(s, h).head != h then PopFailed(h) else PopCas(h))
    case PopCas(h) =>
      if s.head == h && e.act != CasFails
      then SetPc(s.(head := h + 1), e.tid, PopRead(h))
      else SetPc(s, e.tid, PopCheck(s.head))
    case PopRead(h) =>
      (match At(s, h).data
       case Some(r) => SetPc(s.(taken := s.taken[h := r]), e.tid, PopDestroy(h, r))
       case None => s)                             // a read before a write; ruled out by RingSafety.TicketsMatch
    case PopDestroy(h, r) => SetPc(SetNode(s, h, At(s, h).(data := None)), e.tid, PopRelease(h, r))
    case PopRelease(h, r) =>
      SetPc(SetNode(s, h, At(s, h).(tail := h + s.capacity)), e.tid, PopOk(h, r))
    case _ => SetPc(s, e.tid, Idle)                // the call has returned
  }

  function Run<T>(s: Ring<T>, es: seq<Event<T>>): (s': Ring<T>)
    requires Shaped(s)
    ensures Shaped(s') && s'.capacity == s.capacity && |s'.threads| == |s.threads|
    decreases es
  {
    if es == [] then s else Run(Step(s, es[0]), es[1..])
  }

  // ----- ownership and the invariant

  predicate PushOwns<T>(pc: Pc<T>, k: nat) {
    (pc.PushWrite? || pc.PushPublish?) && pc.t == k
  }

  predicate PopOwns<T>(pc: Pc<T>, k: nat) {
    (pc.PopRead? || pc.PopDestroy? || pc.PopRelease?) && pc.h == k
  }

  ghost predicate PushHeld<T>(ts: seq<Pc<T>>, k: nat) {
    exists a :: 0 <= a < |ts| && PushOwns(ts[a], k)
  }

  ghost predicate PopHeld<T>(ts: seq<Pc<T>>, k: nat) {
    exists a :: 0 <= a < |ts| && PopOwns(ts[a], k)
  }

  // The life of node i: empty with stamp `tail`, claimed by a pusher, full, claimed by a popper,
  // empty again with a stamp one capacity higher.
  ghost predicate NodeOk<T>(s: Ring<T>, i: nat)
    requires Shaped(s) && i < |s.queue|
  {
    var n := s.queue[i];
    && 0 <= n.tail && n.tail % s.capacity == i
    && s.tail <= n.tail + s.capacity
    && n.tail - s.capacity < s.head
    && (if n.head == n.tail then
          && n.tail < s.tail <= |s.pushed|
          && (s.head <= n.tail ==> n.data == Some(s.pushed[n.tail]))
          && (n.tail < s.head ==> PopHeld(s.threads, n.tail))
        else
          && n.head == (if n.tail < s.capacity then -1 else n.tail - s.capacity)
          && s.head <= n.tail
          && (s.tail <= n.tail ==> n.data == None)
          && (n.tail < s.tail ==> PushHeld(s.threads, n.tail)))
  }

  // What thread a knows about the ticket it holds.
  ghost predicate ThreadOk<T>(s: Ring<T>, a: nat)
    requires Shaped(s) && a < |s.threads|
  {
    match s.threads[a]
    case PushCheck(_, t) => t <= s.tail
    case PushCas(_, t) => t <= s.tail && t <= At(s, t).tail
    case PushWrite(v, t) =>
      t < s.tail <= |s.pushed| && v == s.pushed[t] && At(s, t) == Node(None, t, At(s, t).head)
      && At(s, t).head != t
    case PushPublish(v, t) =>
      t < s.tail <= |s.pushed| && v == s.pushed[t] && At(s, t) == Node(Some(v), t, At(s, t).head)
      && At(s, t).head != t
    case PushOk(t) => t < s.tail
    case PopCheck(h) => h <= s.head
    case PopCas(h) => h <= s.head && h <= At(s, h).head
    case PopRead(h) =>
      h < s.head && h < |s.pushed| && At(s, h) == Node(Some(s.pushed[h]), h, h) && h !in s.taken
    case PopDestroy(h, r) =>
      h < s.head && h < |s.pushed| && r == s.pushed[h] && At(s, h) == Node(Some(r), h, h)
    case PopRelease(h, r) =>
      h < s.head && h < |s.pushed| && r == s.pushed[h] && At(s, h) == Node(None, h, h)
    case PopOk(h, r) => h < s.head && h < |s.pushed| && r == s.pushed[h]
    case _ => true
  }

  // No two threads hold the same ticket on the same side.
  ghost predicate Apart<T>(p: Pc<T>, q: Pc<T>) {
    forall k: nat :: !(PushOwns(p, k) && PushOwns(q, k)) && !(PopOwns(p, k) && PopOwns(q, k))
  }

  ghost predicate HistoryOk<T>(s: Ring<T>) {
    && |s.pushed| == s.tail
    && s.head <= s.tail
    && (forall k :: k in s.taken ==> k < s.head && s.taken[k] == s.pushed[k])
    && (forall k: nat :: k < s.head && k !in s.taken ==> PopRead(k) in s.threads)
  }

  ghost predicate Inv<T>(s: Ring<T>) {
    && Shaped(s)
    && HistoryOk(s)
    && (forall i :: 0 <= i < |s.queue| ==> NodeOk(s, i))
    && (forall a :: 0 <= a < |s.threads| ==> ThreadOk(s, a))
    && (forall a, b :: 0 <= a < b < |s.threads| ==> Apart(s.threads[a], s.threads[b]))
  }

  lemma InitInv<T>(capacity: nat, threads: nat)
    requires capacity > 0
    ensures Inv(Init<T>(capacity, threads))
  {
    var s := Init<T>(capacity, threads);
    forall i | 0 <= i < |s.queue| ensures NodeOk(s, i) {
      ModUnique(0, i, capacity);
    }
  }

  // ----- every step keeps the invariant

  lemma HeldKept<T>(ts: seq<Pc<T>>, tid: nat, pc: Pc<T>, k: nat)
    requires tid < |ts|
    ensures PushHeld(ts, k) && !PushOwns(ts[tid], k) ==> PushHeld(ts[tid := pc], k)
    ensures PopHeld(ts, k) && !PopOwns(ts[tid], k) ==> PopHeld(ts[tid := pc], k)
    ensures PushOwns(pc, k) ==> PushHeld(ts[tid := pc], k)
    ensures PopOwns(pc, k) ==> PopHeld(ts[tid := pc], k)
  {
    var us := ts[tid := pc];
    assert us[tid] == pc;
    if PushHeld(ts, k) && !PushOwns(ts[tid], k) {
      var a :| 0 <= a < |ts| && PushOwns(ts[a], k);
      assert us[a] == ts[a];
    }
    if PopHeld(ts, k) && !PopOwns(ts[tid], k) {
      var a :| 0 <= a < |ts| && PopOwns(ts[a], k);
      assert us[a] == ts[a];
    }
  }

  lemma ReadKept<T>(ts: seq<Pc<T>>, tid: nat, pc: Pc<T>, k: nat)
    requires tid < |ts| && PopRead(k) in ts && ts[tid] != PopRead(k)
    ensures PopRead(k) in ts[tid := pc]
  {
    var a :| 0 <= a < |ts| && ts[a] == PopRead(k);
    assert ts[tid := pc][a] == ts[a];
  }

  // A step that owns nothing before and after and touches no shared word.
  lemma LocalKeepsInv<T>(s: Ring<T>, tid: nat, pc: Pc<T>)
    requires Inv(s) && tid < |s.threads|
    requires forall k: nat :: !PushOwns(s.threads[tid], k) && !PopOwns(s.threads[tid], k)
    requires forall k: nat :: !PushOwns(pc, k) && !PopOwns(pc, k)
    requires ThreadOk(SetPc(s, tid, pc), tid)
    ensures Inv(SetPc(s, tid, pc))
  {
    var s' := SetPc(s, tid, pc);
    forall i | 0 <= i < |s'.queue| ensures NodeOk(s', i) {
      assert NodeOk(s, i);
      HeldKept(s.threads, tid, pc, s.queue[i].tail);
    }
    forall a | 0 <= a < |s'.threads| ensures ThreadOk(s', a) {
      assert ThreadOk(s, a);
    }
    forall k: nat | k < s.head && k !in s.taken ensures PopRead(k) in s'.threads {
      assert !PopOwns(s.threads[tid], k);
      ReadKept(s.threads, tid, pc, k);
    }
  }

  lemma ClaimPushKeepsInv<T>(s: Ring<T>, tid: nat)
    requires Inv(s) && tid < |s.threads| && s.threads[tid].PushCas? && s.threads[tid].t == s.tail
    ensures Inv(Step(s, Event(tid, Go)))
  {
    var PushCas(v, t) := s.threads[tid];
    var pc := PushWrite(v, t);
    var s' := Step(s, Event(tid, Go));
    assert ThreadOk(s, tid) && NodeOk(s, Slot(s, t));
    StampIs(s, t);
    ClaimPushNodes(s, tid);
    forall a | 0 <= a < |s'.threads| ensures ThreadOk(s', a) {
      hide NodeOk, Apart, HistoryOk;
      assert ThreadOk(s, a);
    }
    forall k: nat | k < s.head && k !in s.taken ensures PopRead(k) in s'.threads {
      ReadKept(s.threads, tid, pc, k);
    }
    forall a | 0 <= a < |s.threads| && a != tid ensures Apart(s'.threads[a], pc) {
      assert ThreadOk(s, a);
    }
  }

  lemma ClaimPushNodes<T>(s: Ring<T>, tid: nat)
    requires Inv(s) && tid < |s.threads| && s.threads[tid].PushCas? && s.threads[tid].t == s.tail
    ensures var s' := Step(s, Event(tid, Go)); forall i :: 0 <= i < |s'.queue| ==> NodeOk(s', i)
  {
    var PushCas(v, t) := s.threads[tid];
    var pc := PushWrite(v, t);
    var s' := Step(s, Event(tid, Go));
    assert ThreadOk(s, tid) && NodeOk(s, Slot(s, t));
    StampIs(s, t);
    hide ThreadOk, Apart;
    forall i | 0 <= i < |s'.queue| ensures NodeOk(s', i) {
      assert NodeOk(s, i);
      var c := s.queue[i].tail;
      HeldKept(s.threads, tid, pc, c);
      if c + s.capacity == s.tail {
        NextSlot(c, s.capacity);
        assert false;
      }
    }
  }

  // A stamp that has caught up with an unclaimed ticket, or a stamp no younger than a ticket whose
  // turn is next, is that ticket.
  lemma StampIs<T>(s: Ring<T>, t: nat)
    requires Inv(s) && t == s.tail && t <= At(s, t).tail
    ensures At(s, t).tail == t && At(s, t).head != t && At(s, t).data == None
  {
    assert NodeOk(s, Slot(s, t));
    var c := At(s, t).tail;
    if t < c { SameSlot(t, c, s.capacity); }
  }

  lemma ClaimPopKeepsInv<T>(s: Ring<T>, tid: nat)
    requires Inv(s) && tid < |s.threads| && s.threads[tid].PopCas? && s.threads[tid].h == s.head
    ensures Inv(Step(s, Event(tid, Go)))
    ensures s.head < s.tail
  {
    var h := s.head;
    var pc: Pc<T> := PopRead(h);
    var s' := Step(s, Event(tid, Go));
    assert ThreadOk(s, tid) && NodeOk(s, Slot(s, h));
    StoredIs(s, h);
    ClaimPopNodes(s, tid);
    forall a | 0 <= a < |s'.threads| ensures ThreadOk(s', a) {
      hide NodeOk, Apart;
      assert ThreadOk(s, a);
    }
    assert s'.threads[tid] == pc;
    forall k: nat | k < s'.head && k !in s'.taken ensures PopRead(k) in s'.threads {
      if k < h { ReadKept(s.threads, tid, pc, k); }
    }
    forall a | 0 <= a < |s.threads| && a != tid ensures Apart(s'.threads[a], pc) {
      assert ThreadOk(s, a);
    }
  }

  lemma ClaimPopNodes<T>(s: Ring<T>, tid: nat)
    requires Inv(s) && tid < |s.threads| && s.threads[tid].PopCas? && s.threads[tid].h == s.head
    ensures var s' := Step(s, Event(tid, Go)); forall i :: 0 <= i < |s'.queue| ==> NodeOk(s', i)
  {
    var h := s.head;
    var pc: Pc<T> := PopRead(h);
    var s' := Step(s, Event(tid, Go));
    assert ThreadOk(s, tid) && NodeOk(s, Slot(s, h));
    StoredIs(s, h);
    hide ThreadOk, Apart;
    forall i | 0 <= i < |s'.queue| ensures NodeOk(s', i) {
      assert NodeOk(s, i);
      HeldKept(s.threads, tid, pc, s.queue[i].tail);
      if s.queue[i].tail == h { assert i == Slot(s, h); }
    }
  }

  lemma StoredIs<T>(s: Ring<T>, h: nat)
    requires Inv(s) && h == s.head && h <= At(s, h).head
    ensures h < s.tail && At(s, h) == Node(Some(s.pushed[h]), h, h)
  {
    var n := At(s, h);
    assert NodeOk(s, Slot(s, h));
    if h < n.tail {
      SameSlot(h, n.tail, s.capacity);
      assert false;
    }
  }

  // The three steps of a node's owner other than the last touch only that node.
  lemma OwnerNodes<T>(s: Ring<T>, tid: nat, k: nat)
    requires Inv(s) && tid < |s.threads| && (PushOwns(s.threads[tid], k) || PopOwns(s.threads[tid], k))
    ensures At(s, k).tail == k
    ensures PushOwns(s.threads[tid], k) ==> At(s, k).head != k
    ensures PopOwns(s.threads[tid], k) ==> At(s, k).head == k && k < s.head
    ensures forall a :: 0 <= a < |s.threads| && a != tid ==>
              forall j: nat :: (PushOwns(s.threads[a], j) || PopOwns(s.threads[a], j)) ==>
                Slot(s, j) != Slot(s, k)
  {
    assert ThreadOk(s, tid);
    forall a, j: nat | 0 <= a < |s.threads| && a != tid && (PushOwns(s.threads[a], j) || PopOwns(s.threads[a], j))
      ensures Slot(s, j) != Slot(s, k)
    {
      assert ThreadOk(s, a);
      assert Apart(s.threads[if a < tid then a else tid], s.threads[if a < tid then tid else a]);
    }
  }

  // A step of a node's owner that writes only that node and leaves the counters alone.
  function OwnerStep<T>(s: Ring<T>, tid: nat, k: nat, n: Node<T>, pc: Pc<T>, taken: map<nat, T>): (s': Ring<T>)
    requires Shaped(s) && tid < |s.threads|
    ensures Shaped(s')
  {
    SetPc(SetNode(s, k, n), tid, pc).(taken := taken)
  }

  ghost predicate Gives<T>(pc: Pc<T>, was: Pc<T>) {
    forall j: nat :: (PushOwns(pc, j) ==> PushOwns(was, j)) && (PopOwns(pc, j) ==> PopOwns(was, j))
  }

  lemma OwnerKeepsNodes<T>(s: Ring<T>, tid: nat, k: nat, n: Node<T>, pc: Pc<T>, taken: map<nat, T>)
    requires Inv(s) && tid < |s.threads| && (PushOwns(s.threads[tid], k) || PopOwns(s.threads[tid], k))
    ensures var s' := OwnerStep(s, tid, k, n, pc, taken);
            forall i :: 0 <= i < |s'.queue| && i != Slot(s, k) ==> NodeOk(s', i)
  {
    var s' := OwnerStep(s, tid, k, n, pc, taken);
    forall i | 0 <= i < |s'.queue| && i != Slot(s, k) ensures NodeOk(s', i) {
      assert NodeOk(s, i);
      HeldKept(s.threads, tid, pc, s.queue[i].tail);
    }
  }

  lemma OwnerKeepsThreads<T>(s: Ring<T>, tid: nat, k: nat, n: Node<T>, pc: Pc<T>, taken: map<nat, T>)
    requires Inv(s) && tid < |s.threads| && (PushOwns(s.threads[tid], k) || PopOwns(s.threads[tid], k))
    requires forall h :: h != k ==> (h in taken <==> h in s.taken)
    requires n.tail >= At(s, k).tail && n.head >= At(s, k).head
    ensures var s' := OwnerStep(s, tid, k, n, pc, taken);
            forall a :: 0 <= a < |s'.threads| && a != tid ==> ThreadOk(s', a)
  {
    var s' := OwnerStep(s, tid, k, n, pc, taken);
    OwnerNodes(s, tid, k);
    forall a | 0 <= a < |s'.threads| && a != tid ensures ThreadOk(s', a) {
      assert ThreadOk(s, a);
    }
  }

  lemma OwnerKeepsApart<T>(s: Ring<T>, tid: nat, pc: Pc<T>)
    requires Inv(s) && tid < |s.threads| && Gives(pc, s.threads[tid])
    ensures var ts := s.threads[tid := pc]; forall a, b :: 0 <= a < b < |ts| ==> Apart(ts[a], ts[b])
  {
    forall a | 0 <= a < |s.threads| && a != tid ensures Apart(s.threads[a], pc) && Apart(pc, s.threads[a]) {
      assert Apart(s.threads[if a < tid then a else tid], s.threads[if a < tid then tid else a]);
    }
  }

  lemma OwnerKeepsInv<T>(s: Ring<T>, tid: nat, k: nat, n: Node<T>, pc: Pc<T>, taken: map<nat, T>)
    requires Inv(s) && tid < |s.threads| && (PushOwns(s.threads[tid], k) || PopOwns(s.threads[tid], k))
    requires Gives(pc, s.threads[tid]) && forall h :: h != k ==> (h in taken <==> h in s.taken)
    requires n.tail >= At(s, k).tail && n.head >= At(s, k).head
    requires var s' := OwnerStep(s, tid, k, n, pc, taken); NodeOk(s', Slot(s, k)) && ThreadOk(s', tid) && HistoryOk(s')
    ensures Inv(OwnerStep(s, tid, k, n, pc, taken))
  {
    OwnerKeepsNodes(s, tid, k, n, pc, taken);
    OwnerKeepsThreads(s, tid, k, n, pc, taken);
    OwnerKeepsApart(s, tid, pc);
  }

  // No pop that is still to read is disturbed by a thread that is not reading.
  lemma HistoryKept<T>(s: Ring<T>, tid: nat, k: nat, n: Node<T>, pc: Pc<T>)
    requires Inv(s) && tid < |s.threads| && !s.threads[tid].PopRead?
    ensures HistoryOk(OwnerStep(s, tid, k, n, pc, s.taken))
  {
    forall j: nat | j < s.head && j !in s.taken ensures PopRead(j) in s.threads[tid := pc] {
      ReadKept(s.threads, tid, pc, j);
    }
  }

  lemma WriteKeepsInv<T>(s: Ring<T>, tid: nat)
    requires Inv(s) && tid < |s.threads| && s.threads[tid].PushWrite?
    ensures Inv(Step(s, Event(tid, Go)))
  {
    var PushWrite(v, t) := s.threads[tid];
    var pc := PushPublish(v, t);
    var n := At(s, t).(data := Some(v));
    assert ThreadOk(s, tid) && NodeOk(s, Slot(s, t));
    HeldKept(s.threads, tid, pc, t);
    HistoryKept(s, tid, t, n, pc);
    OwnerKeepsInv(s, tid, t, n, pc, s.taken);
  }

  lemma PublishKeepsInv<T>(s: Ring<T>, tid: nat)
    requires Inv(s) && tid < |s.threads| && s.threads[tid].PushPublish?
    ensures Inv(Step(s, Event(tid, Go)))
  {
    var PushPublish(v, t) := s.threads[tid];
    var pc: Pc<T> := PushOk(t);
    var n := At(s, t).(head := t);
    assert ThreadOk(s, tid) && NodeOk(s, Slot(s, t));
    HeldKept(s.threads, tid, pc, t);
    HistoryKept(s, tid, t, n, pc);
    OwnerKeepsInv(s, tid, t, n, pc, s.taken);
  }

  lemma ReadKeepsInv<T>(s: Ring<T>, tid: nat)
    requires Inv(s) && tid < |s.threads| && s.threads[tid].PopRead?
    ensures Inv(Step(s, Event(tid, Go)))
  {
    var h := s.threads[tid].h;
    assert ThreadOk(s, tid) && NodeOk(s, Slot(s, h));
    var pc := PopDestroy(h, s.pushed[h]);
    var taken := s.taken[h := s.pushed[h]];
    HeldKept(s.threads, tid, pc, h);
    forall j: nat | j < s.head && j !in taken ensures PopRead(j) in s.threads[tid := pc] {
      ReadKept(s.threads, tid, pc, j);
    }
    OwnerKeepsInv(s, tid, h, At(s, h), pc, taken);
    assert OwnerStep(s, tid, h, At(s, h), pc, taken) == Step(s, Event(tid, Go));
  }

  lemma DestroyKeepsInv<T>(s: Ring<T>, tid: nat)
    requires Inv(s) && tid < |s.threads| && s.threads[tid].PopDestroy?
    ensures Inv(Step(s, Event(tid, Go)))
  {
    var PopDestroy(h, r) := s.threads[tid];
    var pc := PopRelease(h, r);
    var n := At(s, h).(data := None);
    assert ThreadOk(s, tid) && NodeOk(s, Slot(s, h));
    HeldKept(s.threads, tid, pc, h);
    HistoryKept(s, tid, h, n, pc);
    OwnerKeepsInv(s, tid, h, n, pc, s.taken);
  }

  lemma ReleaseKeepsInv<T>(s: Ring<T>, tid: nat)
    requires Inv(s) && tid < |s.threads| && s.threads[tid].PopRelease?
    ensures Inv(Step(s, Event(tid, Go)))
  {
    var PopRelease(h, r) := s.threads[tid];
    var pc := PopOk(h, r);
    var n := At(s, h).(tail := h + s.capacity);
    NextSlot(h, s.capacity);
    assert ThreadOk(s, tid) && NodeOk(s, Slot(s, h));
    HeldKept(s.threads, tid, pc, h);
    HistoryKept(s, tid, h, n, pc);
    OwnerKeepsInv(s, tid, h, n, pc, s.taken);
  }

  // The steps of push; any action but a failing compare-and-swap drives a call forward.
  lemma PushStepKeepsInv<T>(s: Ring<T>, e: Event<T>)
    requires Inv(s) && e.tid < |s.threads|
    requires var pc := s.threads[e.tid];
             pc.PushStart? || pc.PushCheck? || pc.PushCas? || pc.PushWrite? || pc.PushPublish?
    ensures Inv(Step(s, e))
  {
    hide NodeOk, Apart, HistoryOk;
    assert ThreadOk(s, e.tid);
    match s.threads[e.tid]
    case PushStart(v) => LocalKeepsInv(s, e.tid, PushCheck(v, s.tail));
    case PushCheck(v, t) => LocalKeepsInv(s, e.tid, if At(s, t).tail != t then PushFailed(t) else PushCas(v, t));
    case PushCas(v, t) =>
      if s.tail == t && e.act != CasFails {
        ClaimPushKeepsInv(s, e.tid);
      } else {
        LocalKeepsInv(s, e.tid, PushCheck(v, s.tail));
      }
    case PushWrite(_, _) => WriteKeepsInv(s, e.tid);
    case PushPublish(_, _) => PublishKeepsInv(s, e.tid);
  }

  lemma PopStepKeepsInv<T>(s: Ring<T>, e: Event<T>)
    requires Inv(s) && e.tid < |s.threads|
    requires var pc := s.threads[e.tid];
             pc.PopStart? || pc.PopCheck? || pc.PopCas? || pc.PopRead? || pc.PopDestroy? || pc.PopRelease?
    ensures Inv(Step(s, e))
  {
    hide NodeOk, Apart, HistoryOk;
    assert ThreadOk(s, e.tid);
    match s.threads[e.tid]
    case PopStart => LocalKeepsInv(s, e.tid, PopCheck(s.head));
    case PopCheck(h) => LocalKeepsInv(s, e.tid, if At(s, h).head != h then PopFailed(h) else PopCas(h));
    case PopCas(h) =>
      if s.head == h && e.act != CasFails {
        ClaimPopKeepsInv(s, e.tid);
      } else {
        LocalKeepsInv(s, e.tid, PopCheck(s.head));
      }
    case PopRead(_) => ReadKeepsInv(s, e.tid);
    case PopDestroy(_, _) => DestroyKeepsInv(s, e.tid);
    case PopRelease(_, _) => ReleaseKeepsInv(s, e.tid);
  }

  lemma StepKeepsInv<T>(s: Ring<T>, e: Event<T>)
    requires Inv(s)
    ensures Inv(Step(s, e))
  {
    if e.tid < |s.threads| {
      var pc := s.threads[e.tid];
      if pc.PushStart? || pc.PushCheck? || pc.PushCas? || pc.PushWrite? || pc.PushPublish? {
        PushStepKeepsInv(s, e);
      } else if pc.PopStart? || pc.PopCheck? || pc.PopCas? || pc.PopRead? || pc.PopDestroy? || pc.PopRelease? {
        PopStepKeepsInv(s, e);
      } else {
        LocalKeepsInv(s, e.tid, Idle);
        LocalKeepsInv(s, e.tid, PopStart);
        if e.act.CallPush? { LocalKeepsInv(s, e.tid, PushStart(e.act.v)); }
      }
    }
  }

  lemma {:induction false} RunKeepsInv<T>(s: Ring<T>, es: seq<Event<T>>)
    requires Inv(s)
    ensures Inv(Run(s, es))
    decreases es
  {
    hide Step;
    if es != [] {
      StepKeepsInv(s, es[0]);
      RunKeepsInv(Step(s, es[0]), es[1..]);
    }
  }

  // ----- undisturbed calls

  lemma {:induction false} RunConcat<T>(s: Ring<T>, x: seq<Event<T>>, y: seq<Event<T>>)
    requires Shaped(s)
    ensures Run(s, x + y) == Run(Run(s, x), y)
    decreases x
  {
    hide Step;
    if x == [] {
      assert x + y == y;
    } else {
      assert (x + y)[1..] == x[1..] + y;
      RunConcat(Step(s, x[0]), x[1..], y);
    }
  }

  function PushOf<T>(tid: nat, v: T): (es: seq<Event<T>>) {
    [Event(tid, CallPush(v))] + seq(6, i => Event(tid, Go))
  }

  // A push that runs alone from a fresh node stores the value and returns.
  lemma SoloPush<T>(s: Ring<T>, tid: nat, v: T)
    requires Shaped(s) && tid < |s.threads| && s.threads[tid] == Idle && At(s, s.tail).tail == s.tail
    ensures Run(s, PushOf(tid, v)) ==
            SetNode(s, s.tail, Node(Some(v), s.tail, s.tail)).(tail := s.tail + 1, pushed := s.pushed + [v])
  {
    var t := s.tail;
    var es := PushOf(tid, v);
    var s1 := Step(s, es[0]);
    var s2 := Step(s1, es[1]);
    var s3 := Step(s2, es[2]);
    var s4 := Step(s3, es[3]);
    assert s4.threads[tid] == PushWrite(v, t);
    var s5 := Step(s4, es[4]);
    var s6 := Step(s5, es[5]);
    var s7 := Step(s6, es[6]);
    RunSeven(s, es);
    assert s7.threads == s.threads;
    assert s7.queue == s.queue[Slot(s, t) := Node(Some(v), t, t)];
  }

  function PopOf<T>(tid: nat): (es: seq<Event<T>>) {
    [Event(tid, CallPop), Event(tid, Go), Event(tid, Go), Event(tid, Go)] +
    [Event(tid, Go), Event(tid, Go), Event(tid, Go), Event(tid, Go)]
  }

  lemma RunFour<T>(s: Ring<T>, e0: Event<T>, e1: Event<T>, e2: Event<T>, e3: Event<T>)
    requires Shaped(s)
    ensures Run(s, [e0, e1, e2, e3]) == Step(Step(Step(Step(s, e0), e1), e2), e3)
  {
    var s1 := Step(s, e0);
    var s2 := Step(s1, e1);
    var s3 := Step(s2, e2);
    assert Run(s3, [e3]) == Step(s3, e3) by { assert [e3][1..] == []; }
    assert Run(s2, [e2, e3]) == Run(s3, [e3]) by { assert [e2, e3][1..] == [e3]; }
    assert Run(s1, [e1, e2, e3]) == Run(s2, [e2, e3]) by { assert [e1, e2, e3][1..] == [e2, e3]; }
    assert [e0, e1, e2, e3][1..] == [e1, e2, e3];
  }

  // A pop that runs alone from a stored value returns and frees the node for the next lap.
  lemma SoloPop<T>(s: Ring<T>, tid: nat, v: T)
    requires Shaped(s) && tid < |s.threads| && s.threads[tid] == Idle && At(s, s.head) == Node(Some(v), s.head, s.head)
    ensures Run(s, PopOf(tid)) ==
            SetNode(s, s.head, Node(None, s.head + s.capacity, s.head))
              .(head := s.head + 1, taken := s.taken[s.head := v])
  {
    var go := Event(tid, Go);
    RunConcat(s, [Event(tid, CallPop), go, go, go], [go, go, go, go]);
    RunFour(s, Event(tid, CallPop), go, go, go);
    SoloClaim(s, tid);
    var q := SetPc(s.(head := s.head + 1), tid, PopRead(s.head));
    RunFour(q, go, go, go, go);
    SoloTake(q, tid, s.head, v);
    assert q.threads[tid := Idle] == s.threads;
  }

  lemma SoloClaim<T>(s: Ring<T>, tid: nat)
    requires Shaped(s) && tid < |s.threads| && s.threads[tid] == Idle && At(s, s.head).head == s.head
    ensures var go := Event(tid, Go);
            Step(Step(Step(Step(s, Event(tid, CallPop)), go), go), go) ==
            SetPc(s.(head := s.head + 1), tid, PopRead(s.head))
  {
    var h := s.head;
    var s1 := Step(s, Event(tid, CallPop));
    var s2 := Step(s1, Event(tid, Go));
    assert s2.threads == s.threads[tid := PopCheck(h)];
    var s3 := Step(s2, Event(tid, Go));
    assert s3.threads == s.threads[tid := PopCas(h)];
    var s4 := Step(s3, Event(tid, Go));
    assert s4.threads == s.threads[tid := PopRead(h)];
  }

  lemma SoloTake<T>(q: Ring<T>, tid: nat, h: nat, v: T)
    requires Shaped(q) && tid < |q.threads| && q.threads[tid] == PopRead(h) && At(q, h) == Node(Some(v), h, h)
    ensures var go := Event(tid, Go);
            Step(Step(Step(Step(q, go), go), go), go) ==
            SetPc(SetNode(q, h, Node(None, h + q.capacity, h)).(taken := q.taken[h := v]), tid, Idle)
  {
    var s1 := Step(q, Event(tid, Go));
    assert s1.threads == q.threads[tid := PopDestroy(h, v)];
    var s2 := Step(s1, Event(tid, Go));
    assert s2.threads == q.threads[tid := PopRelease(h, v)];
    assert s2.queue == q.queue[Slot(q, h) := Node(None, h, h)];
    var s3 := Step(s2, Event(tid, Go));
    assert s3.threads == q.threads[tid := PopOk(h, v)];
    assert s3.queue == q.queue[Slot(q, h) := Node(None, h + q.capacity, h)];
    assert Step(s3, Event(tid, Go)).threads == q.threads[tid := Idle];
  }

  lemma RunSeven<T>(s: Ring<T>, es: seq<Event<T>>)
    requires Shaped(s) && |es| == 7
    ensures Run(s, es) ==
      Step(Step(Step(Step(Step(Step(Step(s, es[0]), es[1]), es[2]), es[3]), es[4]), es[5]), es[6])
  {
    var s1 := Step(s, es[0]);
    var s2 := Step(s1, es[1]);
    var s3 := Step(s2, es[2]);
    var s4 := Step(s3, es[3]);
    var s5 := Step(s4, es[4]);
    var s6 := Step(s5, es[5]);
    assert Run(s6, es[6..]) == Step(s6, es[6]) by { assert es[6..][1..] == []; }
    assert Run(s5, es[5..]) == Run(s6, es[6..]) by { assert es[5..][1..] == es[6..]; }
    assert Run(s4, es[4..]) == Run(s5, es[5..]) by { assert es[4..][1..] == es[5..]; }
    assert Run(s3, es[3..]) == Run(s4, es[4..]) by { assert es[3..][1..] == es[4..]; }
    assert Run(s2, es[2..]) == Run(s3, es[3..]) by { assert es[2..][1..] == es[3..]; }
    assert Run(s1, es[1..]) == Run(s2, es[2..]) by { assert es[1..][1..] == es[2..]; }
  }
}
