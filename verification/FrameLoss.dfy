/**
 Whether the frame reader of src/parse/parse_video.cc can lose a frame: a run that does for every queue as
 large as max_, and so the exact condition on max_.
 */
module FrameLoss {
  import opened Arithmetic
  import opened CircleBuffer
  import opened Rounding
  import opened FrameReader
  import Wrappers

  // ----- undisturbed turns

  function Produces(n: nat): seq<Turn> { seq(n, i => Produce(false, false)) }

  function Consumes(n: nat): seq<Turn> { seq(n, i => Consume(false)) }

  function ProduceN<T>(r: Reader<T>, n: nat): (r': Reader<T>)
    requires Wired(r)
    ensures Wired(r')
    decreases n
  {
    if n == 0 then r else ProduceN(ProducerStep(r, false, false), n - 1)
  }

  function ConsumeN<T>(r: Reader<T>, n: nat): (r': Reader<T>)
    requires Wired(r)
    ensures Wired(r')
    decreases n
  {
    if n == 0 then r else ConsumeN(ConsumerStep(r, false), n - 1)
  }

  lemma {:induction false} PlayProduces<T>(r: Reader<T>, n: nat)
    requires Wired(r)
    ensures Play(r, Produces(n)) == ProduceN(r, n)
    decreases n
  {
    hide ProducerStep;
    if n > 0 {
      assert Produces(n)[1..] == Produces(n - 1);
      PlayProduces(ProducerStep(r, false, false), n - 1);
    }
  }

  lemma {:induction false} PlayConsumes<T>(r: Reader<T>, n: nat)
    requires Wired(r)
    ensures Play(r, Consumes(n)) == ConsumeN(r, n)
    decreases n
  {
    hide ConsumerStep;
    if n > 0 {
      assert Consumes(n)[1..] == Consumes(n - 1);
      PlayConsumes(ConsumerStep(r, false), n - 1);
    }
  }

  lemma {:induction false} ProduceMore<T>(r: Reader<T>, a: nat, b: nat)
    requires Wired(r)
    ensures ProduceN(r, a + b) == ProduceN(ProduceN(r, a), b)
    decreases a
  {
    hide ProducerStep;
    if a > 0 {
      var next := ProducerStep(r, false, false);
      assert ProduceN(r, a + b) == ProduceN(next, a - 1 + b) && ProduceN(r, a) == ProduceN(next, a - 1);
      ProduceMore(next, a - 1, b);
    }
  }

  lemma {:induction false} ConsumeMore<T>(r: Reader<T>, a: nat, b: nat)
    requires Wired(r)
    ensures ConsumeN(r, a + b) == ConsumeN(ConsumeN(r, a), b)
    decreases a
  {
    hide ConsumerStep;
    if a > 0 {
      var next := ConsumerStep(r, false);
      assert ConsumeN(r, a + b) == ConsumeN(next, a - 1 + b) && ConsumeN(r, a) == ConsumeN(next, a - 1);
      ConsumeMore(next, a - 1, b);
    }
  }

  lemma {:induction false} PlayConcat<T>(r: Reader<T>, x: seq<Turn>, y: seq<Turn>)
    requires Wired(r)
    ensures Play(r, x + y) == Play(Play(r, x), y)
    decreases x
  {
    hide TurnStep;
    if x == [] {
      assert x + y == y;
    } else {
      assert (x + y)[1..] == x[1..] + y;
      PlayConcat(TurnStep(r, x[0]), x[1..], y);
    }
  }

  // ----- filling the queue

  // The reader after n frames have been pushed and none popped.
  function Filled<T>(frames: seq<T>, capacity: nat, n: nat): (r: Reader<T>)
    requires n <= capacity && n <= |frames| && capacity > 0
    ensures Wired(r)
  {
    Reader(Ring(capacity, n, 0,
                seq(capacity, i requires 0 <= i < capacity =>
                  if i < n then Node(Wrappers.Some(frames[i]), i, i) else Node(Wrappers.None, i, -1)),
                [Idle, Idle], frames[..n], map[]),
           capacity, frames, n, Loop, Waiting, [], [])
  }

  // r inside the push of frame v, with thread 0 at pc.
  function AtPush<T>(r: Reader<T>, pc: Pc<T>): Reader<T>
    requires |r.ring.threads| == 2
  {
    r.(producer := Pushing, ring := SetPc(r.ring, 0, pc))
  }

  // The size test passes and the push begins.
  lemma EnterPush<T>(r: Reader<T>)
    requires Wired(r) && r.producer == Loop && r.ring.threads[0] == Idle && r.total < |r.frames|
    requires r.ring.tail - r.ring.head < r.max
    ensures ProduceN(r, 3) == AtPush(r, PushStart(r.frames[r.total]))
  {
    var r2 := ProducerStep(ProducerStep(r, false, false), false, false);
    assert r2 == r.(producer := LoadTail(r.ring.head));
  }

  lemma LoadTicket<T>(r: Reader<T>, v: T)
    requires Wired(r) && Shaped(r.ring) && r.total < |r.frames|
    ensures ProduceN(AtPush(r, PushStart(v)), 1) == AtPush(r, PushCheck(v, r.ring.tail))
  {
    var q := AtPush(r, PushStart(v));
    assert ProduceN(q, 1) == ProducerStep(q, false, false);
    assert q.ring.threads[0 := PushCheck(v, r.ring.tail)] == r.ring.threads[0 := PushCheck(v, r.ring.tail)];
  }

  // From the stamp check on, an undisturbed push into a fresh node stores the frame.
  lemma FinishPush<T>(r: Reader<T>, v: T)
    requires Wired(r) && Shaped(r.ring) && r.total < |r.frames| && r.ring.threads[0] == Idle
    requires At(r.ring, r.ring.tail).tail == r.ring.tail
    ensures var t := r.ring.tail; var s := r.ring;
            ProduceN(AtPush(r, PushCheck(v, t)), 5) ==
            r.(producer := Loop, total := r.total + 1,
               ring := SetNode(s, t, Node(Wrappers.Some(v), t, t)).(tail := t + 1, pushed := s.pushed + [v]))
  {
    var t := r.ring.tail;
    var q0 := AtPush(r, PushCheck(v, t));
    var q1 := ProducerStep(q0, false, false);
    assert q1.ring.threads == r.ring.threads[0 := PushCas(v, t)];
    var q2 := ProducerStep(q1, false, false);
    assert q2.ring.threads == r.ring.threads[0 := PushWrite(v, t)];
    FinishWrite(q2, v, t);
    ProduceMore(q0, 2, 3);
    assert ProduceN(q0, 2) == q2;
    assert q2.ring.threads[0 := Idle] == r.ring.threads;
  }

  lemma FinishWrite<T>(q: Reader<T>, v: T, t: nat)
    requires Wired(q) && q.producer == Pushing && q.ring.threads[0] == PushWrite(v, t) && At(q.ring, t).tail == t
    ensures ProduceN(q, 3) ==
            q.(producer := Loop, total := q.total + 1,
               ring := SetPc(SetNode(q.ring, t, Node(Wrappers.Some(v), t, t)), 0, Idle))
  {
    hide ProduceN;
    var q1 := ProducerStep(q, false, false);
    assert q1.ring.threads[0] == PushPublish(v, t);
    var q2 := ProducerStep(q1, false, false);
    assert q2.ring.threads[0] == PushOk(t);
    var q3 := ProducerStep(q2, false, false);
    assert q3.ring.queue == q.ring.queue[Slot(q.ring, t) := Node(Wrappers.Some(v), t, t)];
    assert q3.ring.threads == q.ring.threads[0 := Idle];
    ProduceThree(q);
  }

  lemma ProduceThree<T>(r: Reader<T>)
    requires Wired(r)
    ensures ProduceN(r, 3) ==
            ProducerStep(ProducerStep(ProducerStep(r, false, false), false, false), false, false)
  {
    hide ProducerStep;
    var r1 := ProducerStep(r, false, false);
    var r2 := ProducerStep(r1, false, false);
    assert ProduceN(r, 3) == ProduceN(r1, 2) && ProduceN(r1, 2) == ProduceN(r2, 1);
    assert ProduceN(r2, 1) == ProduceN(ProducerStep(r2, false, false), 0);
  }

  lemma FillOne<T>(frames: seq<T>, capacity: nat, n: nat)
    requires n < capacity && n < |frames|
    ensures Play(Filled(frames, capacity, n), Produces(9)) == Filled(frames, capacity, n + 1)
  {
    hide ProduceN, Play;
    var r, f := Filled(frames, capacity, n), Filled(frames, capacity, n + 1);
    PlayProduces(r, 9);
    ModUnique(0, n, capacity);
    PushWhole(r, frames[n]);
    assert SetNode(r.ring, n, Node(Wrappers.Some(frames[n]), n, n)).queue == f.ring.queue;
    assert r.ring.pushed + [frames[n]] == f.ring.pushed;
  }

  // One undisturbed turn of the decoding loop.
  lemma PushWhole<T>(r: Reader<T>, v: T)
    requires Wired(r) && Shaped(r.ring) && r.producer == Loop && r.total < |r.frames| && r.ring.threads[0] == Idle
    requires r.ring.tail - r.ring.head < r.max && v == r.frames[r.total]
    requires At(r.ring, r.ring.tail).tail == r.ring.tail
    ensures var t := r.ring.tail;
            ProduceN(r, 9) ==
            r.(producer := Loop, total := r.total + 1,
               ring := SetNode(r.ring, t, Node(Wrappers.Some(v), t, t)).(tail := t + 1, pushed := r.ring.pushed + [v]))
  {
    hide ProduceN;
    EnterPush(r);
    ProduceMore(r, 3, 6);
    var q := AtPush(r, PushStart(v));
    ProduceMore(q, 1, 5);
    LoadTicket(r, v);
    FinishPush(r, v);
  }

  lemma {:induction false} FillMany<T>(frames: seq<T>, capacity: nat, n: nat) returns (ts: seq<Turn>)
    requires n <= capacity && n <= |frames| && capacity > 0
    ensures Play(Start(frames, capacity, capacity), ts) == Filled(frames, capacity, n) && NoStop(ts)
  {
    hide TurnStep;
    if n == 0 {
      ts := [];
      assert Start(frames, capacity, capacity).ring.queue == Filled(frames, capacity, 0).ring.queue;
    } else {
      var us := FillMany(frames, capacity, n - 1);
      FillOne(frames, capacity, n - 1);
      PlayConcat(Start(frames, capacity, capacity), us, Produces(9));
      ts := us + Produces(9);
    }
  }

  // ----- losing the next frame

  // The size test finds the queue not empty and the pop begins.
  lemma EnterPop<T>(r: Reader<T>)
    requires Wired(r) && r.consumer == Waiting && r.ring.threads[1] == Idle && r.ring.head < r.ring.tail
    requires r.ring.capacity > 0
    ensures ConsumeN(r, 3) == r.(consumer := Popping, ring := SetPc(r.ring, 1, PopStart))
  {
    hide ConsumeN;
    ConsumeThree(r);
    assert ConsumerStep(ConsumerStep(r, false), false) == r.(consumer := SizeTail(r.ring.head));
  }

  // The consumer has claimed ticket 0 but not vacated its node; size() already counts it as gone.
  lemma ClaimFirst<T>(frames: seq<T>, capacity: nat) returns (r: Reader<T>)
    requires 0 < capacity < |frames|
    ensures Wired(r) && r == Play(Filled(frames, capacity, capacity), Consumes(6))
    ensures var f := Filled(frames, capacity, capacity);
            r == f.(consumer := Popping, ring := f.ring.(head := 1, threads := [Idle, PopRead(0)]))
  {
    var f := Filled(frames, capacity, capacity);
    PlayConsumes(f, 6);
    ConsumeMore(f, 3, 3);
    var r3 := ConsumeN(f, 3);
    EnterPop(f);
    ModUnique(0, 0, capacity);
    ClaimNext(r3, 0);
    r := ConsumeN(r3, 3);
    assert r.ring.threads == [Idle, PopRead(0)];
  }

  lemma ClaimNext<T>(r: Reader<T>, h: nat)
    requires Wired(r) && r.consumer == Popping && r.ring.threads[1] == PopStart
    requires r.ring.head == h && At(r.ring, h).head == h
    ensures ConsumeN(r, 3) == r.(ring := SetPc(r.ring.(head := h + 1), 1, PopRead(h)))
  {
    hide ConsumeN;
    var r1 := ConsumerStep(r, false);
    assert r1.ring.threads == r.ring.threads[1 := PopCheck(h)];
    var r2 := ConsumerStep(r1, false);
    assert r2.ring.threads == r.ring.threads[1 := PopCas(h)];
    var r3 := ConsumerStep(r2, false);
    assert r3.ring.threads == r.ring.threads[1 := PopRead(h)];
    ConsumeThree(r);
  }

  lemma ConsumeThree<T>(r: Reader<T>)
    requires Wired(r)
    ensures ConsumeN(r, 3) == ConsumerStep(ConsumerStep(ConsumerStep(r, false), false), false)
  {
    hide ConsumerStep;
    var r1 := ConsumerStep(r, false);
    var r2 := ConsumerStep(r1, false);
    assert ConsumeN(r, 3) == ConsumeN(r1, 2) && ConsumeN(r1, 2) == ConsumeN(r2, 1);
    assert ConsumeN(r2, 1) == ConsumeN(ConsumerStep(r2, false), 0);
  }

  // With the first ticket claimed but its node not vacated, the next push passes the size test and
  // fails at the stamp check.
  lemma DropNext<T>(r: Reader<T>)
    requires Wired(r) && r.producer == Loop && r.total == r.ring.tail == r.ring.capacity == r.max < |r.frames|
    requires r.ring.head == 1 && r.ring.threads[0] == Idle && r.dropped == [] && r.ring.queue[0].tail == 0
    ensures Play(r, Produces(6)).dropped == [r.frames[r.total]]
  {
    hide Play, ProduceN;
    var v, t := r.frames[r.total], r.ring.tail;
    PlayProduces(r, 6);
    EnterPush(r);
    LoadTicket(r, v);
    ProduceMore(r, 3, 3);
    ProduceMore(AtPush(r, PushStart(v)), 1, 2);
    ModUnique(1, 0, r.ring.capacity);
    RejectPush(r, v);
  }

  lemma RejectPush<T>(r: Reader<T>, v: T)
    requires Wired(r) && Shaped(r.ring) && r.total < |r.frames|
    requires At(r.ring, r.ring.tail).tail != r.ring.tail && r.dropped == []
    ensures ProduceN(AtPush(r, PushCheck(v, r.ring.tail)), 2).dropped == [r.frames[r.total]]
  {
    var q0 := AtPush(r, PushCheck(v, r.ring.tail));
    var q1 := ProducerStep(q0, false, false);
    assert q1.ring.threads[0].PushFailed?;
    assert ProduceN(q0, 2) == ProducerStep(q1, false, false);
  }

  // Fill the queue, let the consumer claim the first frame, and the next push fails: its frame is lost.
  lemma LossyRun<T>(frames: seq<T>, capacity: nat) returns (ts: seq<Turn>)
    requires 0 < capacity < |frames|
    ensures Play(Start(frames, capacity, capacity), ts).dropped == [frames[capacity]] && NoStop(ts)
  {
    hide Play;
    var us := FillMany(frames, capacity, capacity);
    var r := ClaimFirst(frames, capacity);
    var s := Start(frames, capacity, capacity);
    PlayConcat(s, us, Consumes(6));
    PlayConcat(s, us + Consumes(6), Produces(6));
    DropNext(r);
    ts := us + Consumes(6) + Produces(6);
  }

  // ----- when frames can be lost

  ghost predicate NeverDrops<T(!new)>(max: nat, capacity: nat)
    requires capacity == 0 ==> max == 0
  {
    forall frames: seq<T>, ts: seq<Turn> :: Play(Start(frames, max, capacity), ts).dropped == []
  }

  ghost predicate NeverDelivers<T(!new)>(max: nat, capacity: nat)
    requires capacity == 0 ==> max == 0
  {
    forall frames: seq<T>, ts: seq<Turn> :: Play(Start(frames, max, capacity), ts).delivered == []
  }

  // The capacity the constructor of the queue computes (Rounding.RoundUp).
  ghost predicate Rounded(max: nat, capacity: nat) {
    if max == 0 then capacity == 0 else LeastPow2(max, capacity)
  }

  lemma TurnStaysUnused<T>(r: Reader<T>, t: Turn)
    requires Wired(r) && r.ring.capacity == 0
    ensures TurnStep(r, t).ring.capacity == 0
  {
  }

  lemma {:induction false} StaysUnused<T>(r: Reader<T>, ts: seq<Turn>)
    requires Wired(r) && r.ring.capacity == 0
    ensures Unused(Play(r, ts))
    decreases ts
  {
    hide TurnStep;
    if ts != [] {
      TurnStaysUnused(r, ts[0]);
      StaysUnused(TurnStep(r, ts[0]), ts[1..]);
    }
  }

  // With that capacity, no run ever drops a frame exactly when max_ is not itself a power of two.
  lemma NeverDropsIff<T(!new)>(max: nat, capacity: nat, frame: T)
    requires Rounded(max, capacity)
    ensures NeverDrops<T>(max, capacity) <==> !IsPow2(max)
    ensures max == 0 ==> NeverDelivers<T>(max, capacity)
  {
    hide Play;
    if max == 0 {
      forall frames: seq<T>, ts: seq<Turn> ensures Unused(Play(Start(frames, max, capacity), ts)) {
        StaysUnused(Start(frames, max, capacity), ts);
      }
      assert !IsPow2(0);
    } else if IsPow2(max) {
      assert max == capacity;
      var frames := seq(capacity + 1, i => frame);
      var ts := LossyRun(frames, capacity);
      assert Play(Start(frames, max, capacity), ts).dropped != [];
    } else {
      assert max < capacity;
      forall frames: seq<T>, ts: seq<Turn> ensures Play(Start(frames, max, capacity), ts).dropped == [] {
        FramesInOrder(frames, max, capacity, ts);
      }
    }
  }
}
