/** Whether the frame reader of src/parse/parse_video.cc can always finish. */
module ReaderProgress {
  // From every state a run without stop can reach, some continuation delivers every frame, exactly for the
  // buffer sizes that are not 0 and not a power of two.

  import opened Wrappers
  import opened Arithmetic
  import opened CircleBuffer
  import opened RingFailures
  import opened Rounding
  import opened FrameReader
  import opened FrameLoss

  // The producer ends only after its last frame.
  ghost predicate Unstopped<T>(r: Reader<T>) { r.producer == Finished ==> r.total == |r.frames| }

  lemma TurnUnstopped<T>(r: Reader<T>, t: Turn)
    requires Wired(r) && ProducerOk(r) && Unstopped(r) && (t.Produce? ==> !t.stop)
    ensures Unstopped(TurnStep(r, t))
  {
  }

  // A state from which no frame is lost and the producer has not been stopped.
  ghost predicate Alive<T>(r: Reader<T>) { ReaderInv(r) && Unstopped(r) }

  // ----- who moves next

  // Finish a push first, then empty the queue, then go for the next frame.
  function Choose<T>(r: Reader<T>): (t: Turn)
    ensures t.Produce? ==> !t.stop
  {
    if r.producer != Pushing && (r.consumer != Waiting || r.ring.head < r.ring.tail) then Consume(false)
    else Produce(false, false)
  }

  function PushRank<T>(pc: Pc<T>): nat {
    match pc
    case PushStart(_) => 7
    case PushCheck(_, _) => 6
    case PushCas(_, _) => 5
    case PushWrite(_, _) => 4
    case PushPublish(_, _) => 3
    case _ => 2
  }

  function ProducerRank<T>(r: Reader<T>): nat
    requires |r.ring.threads| == 2
  {
    match r.producer
    case Loop => 11
    case LoadTail(h) => if r.ring.tail - h < r.max then 8 else 10
    case LoadHead => 9
    case Pushing => PushRank(r.ring.threads[0])
    case Finished => 1
  }

  function PopRank<T>(pc: Pc<T>): nat {
    match pc
    case PopStart => 7
    case PopCheck(_) => 6
    case PopCas(_) => 5
    case PopRead(_) => 4
    case PopDestroy(_, _) => 3
    case PopRelease(_, _) => 2
    case PopOk(_, _) => 1
    case _ => 11                        // a pop that has failed and will be repeated
  }

  function ConsumerRank<T>(r: Reader<T>): nat
    requires |r.ring.threads| == 2
  {
    match r.consumer
    case Waiting => if r.ring.head < r.ring.tail then 10 else 0
    case SizeHead => 9
    case SizeTail(_) => 8
    case Popping => PopRank(r.ring.threads[1])
  }

  // Frames still to be pushed and to be delivered.
  function ToDo<T>(r: Reader<T>): int { 2 * |r.frames| - r.total - |r.delivered| }

  ghost predicate Closer<T>(r: Reader<T>, r': Reader<T>)
    requires |r.ring.threads| == 2 && |r'.ring.threads| == 2
  {
    || ToDo(r') < ToDo(r)
    || (ToDo(r') == ToDo(r) &&
        (ProducerRank(r') < ProducerRank(r) ||
         (ProducerRank(r') == ProducerRank(r) && ConsumerRank(r') < ConsumerRank(r))))
  }

  lemma PushAdvances<T>(r: Reader<T>)
    requires Wired(r) && ProducerOk(r) && r.producer == Pushing && Shaped(r.ring) && r.ring.head <= r.ring.tail
    requires r.ring.tail - r.ring.head < r.max ==> At(r.ring, r.ring.tail).tail == r.ring.tail
    ensures Closer(r, ProducerStep(r, false, false))
  {
  }

  lemma PopAdvances<T>(r: Reader<T>)
    requires Wired(r) && ConsumerOk(r) && r.producer != Pushing && Shaped(r.ring) && r.consumer == Popping
    requires var pc := r.ring.threads[1];
             (pc.PopCheck? ==> At(r.ring, pc.h).head == pc.h) && (pc.PopRead? ==> At(r.ring, pc.h).data.Some?)
    ensures Closer(r, ConsumerStep(r, false))
  {
  }

  lemma SizeAdvances<T>(r: Reader<T>)
    requires Wired(r) && r.producer != Pushing && Shaped(r.ring) && r.consumer != Popping
    requires r.consumer != Waiting || r.ring.head < r.ring.tail
    requires r.consumer.SizeTail? ==> r.consumer.h == r.ring.head
    requires r.ring.threads[1] == Idle
    ensures Closer(r, ConsumerStep(r, false))
  {
  }

  lemma LoopAdvances<T>(r: Reader<T>)
    requires Wired(r) && r.producer != Pushing && r.producer != Finished
    requires r.ring.head == r.ring.tail && r.max > 0 && r.ring.threads[0] == Idle
    ensures Closer(r, ProducerStep(r, false, false))
  {
  }

  // What the consumer finds while no push is under way.
  lemma PopFinds<T>(r: Reader<T>)
    requires ReaderInv(r) && r.producer != Pushing && r.consumer == Popping
    ensures var pc := r.ring.threads[1];
            (pc.PopCheck? ==> At(r.ring, pc.h).head == pc.h) && (pc.PopRead? ==> At(r.ring, pc.h).data.Some?)
  {
    assert ThreadOk(r.ring, 1);
    hide NodeOk, ThreadOk, Apart;
    FreshPopFailsIff(r.ring);
    forall a | 0 <= a < |r.ring.threads| ensures !PushOwns(r.ring.threads[a], r.ring.head) {
      assert a == 0 || a == 1;
    }
  }

  lemma ChooseAdvances<T>(r: Reader<T>)
    requires Alive(r) && r.max > 0 && r.delivered != r.frames
    ensures Wired(r) && Closer(r, TurnStep(r, Choose(r)))
  {
    RingFacts(r);
    if r.producer == Pushing {
      if r.ring.tail - r.ring.head < r.max { RoomForPush(r); }
      hide Inv, Closer;
      PushAdvances(r);
    } else if r.consumer != Waiting || r.ring.head < r.ring.tail {
      if r.consumer == Popping { PopFinds(r); }
      hide Inv, Closer;
      if r.consumer == Popping { PopAdvances(r); } else { SizeAdvances(r); }
    } else {
      assert r.producer != Finished by {
        if r.producer == Finished { Drained(r); }
      }
      hide Inv, Closer;
      LoopAdvances(r);
    }
  }

  // With the producer through and the queue drained, everything has been delivered.
  lemma Drained<T>(r: Reader<T>)
    requires ReaderInv(r) && r.total == |r.frames| && r.producer != Pushing
    requires r.ring.head == r.ring.tail && r.consumer == Waiting
    ensures r.delivered == r.frames
  {
    assert r.frames[..|r.frames|] + [] == r.frames;
  }

  lemma TurnKeepsAlive<T>(r: Reader<T>, t: Turn)
    requires Alive(r) && (t.Produce? ==> !t.stop)
    ensures var r' := TurnStep(r, t); Alive(r') && r'.frames == r.frames && r'.max == r.max && ToDo(r') >= 0
  {
    TurnKeepsInv(r, t);
    TurnKeepsFrames(r, t);
    TurnUnstopped(r, t);
    hide TurnStep, Inv;
  }

  lemma {:induction false} PlayKeepsAlive<T>(r: Reader<T>, ts: seq<Turn>)
    requires Alive(r) && NoStop(ts)
    ensures Alive(Play(r, ts)) && Play(r, ts).frames == r.frames && Play(r, ts).max == r.max
    decreases ts
  {
    hide Alive, TurnStep;
    assert Wired(r) by { AliveIsWired(r); }
    if ts != [] {
      TurnKeepsAlive(r, ts[0]);
      PlayKeepsAlive(TurnStep(r, ts[0]), ts[1..]);
    }
  }

  lemma AliveIsWired<T>(r: Reader<T>)
    requires Alive(r)
    ensures Wired(r) && ToDo(r) >= 0
  {
  }

  // Whatever has happened so far short of a stop, the reader can still deliver every frame.
  lemma {:induction false} CanFinish<T>(r: Reader<T>) returns (ts: seq<Turn>)
    requires Wired(r) && Alive(r) && r.max > 0 && ToDo(r) >= 0
    ensures NoStop(ts) && Play(r, ts).delivered == r.frames
    decreases ToDo(r), ProducerRank(r), ConsumerRank(r)
  {
    hide Wired, Alive, TurnStep, ProducerRank, ConsumerRank, ToDo;
    if r.delivered == r.frames {
      ts := [];
    } else {
      var t := Choose(r);
      ChooseAdvances(r);
      TurnKeepsAlive(r, t);
      hide Choose;
      var rest := CanFinish(TurnStep(r, t));
      ts := [t] + rest;
      assert ts[1..] == rest;
    }
  }

  // ----- a dropped frame is never made good

  function Holding<T>(pc: Pc<T>): nat { if Held(pc) then 1 else 0 }

  // Every frame taken from the decoder is in the queue's history or dropped, and every claimed one is
  // delivered or with the consumer.
  predicate Accounts<T>(r: Reader<T>) {
    && |r.ring.threads| == 2 && r.total <= |r.frames|
    && |r.ring.pushed| + |r.dropped| == r.total + (if Owed(r.ring.threads[0]) then 1 else 0)
    && |r.delivered| + Holding(r.ring.threads[1]) == r.ring.head
  }

  ghost predicate Counted<T>(r: Reader<T>) { Wired(r) && TwoSided(r) && Accounts(r) }

  lemma ProducerKeepsAccounts<T>(r: Reader<T>, stop: bool, casFails: bool)
    requires Wired(r) && Accounts(r) && !InPop(r.ring.threads[0])
    requires r.producer != Pushing ==> r.ring.threads[0] == Idle
    ensures var r' := ProducerStep(r, stop, casFails); Accounts(r') && |r.dropped| <= |r'.dropped|
  {
  }

  lemma ConsumerKeepsAccounts<T>(r: Reader<T>, casFails: bool)
    requires Wired(r) && Accounts(r) && !InPush(r.ring.threads[1])
    requires r.consumer != Popping ==> r.ring.threads[1] == Idle
    ensures var r' := ConsumerStep(r, casFails); Accounts(r') && r'.dropped == r.dropped
  {
    if r.consumer == Popping {
      hide InPush;
      PopStepCounts(r.ring, Event(1, ActOf(casFails)));
    }
  }

  lemma PopStepCounts<T>(s: Ring<T>, e: Event<T>)
    requires Shaped(s) && e.tid == 1 && |s.threads| == 2 && !InPush(s.threads[1]) && !e.act.CallPush?
    ensures var s' := Step(s, e); var returned := if s.threads[1].PopOk? then 1 else 0;
            && s'.threads[0] == s.threads[0] && s'.pushed == s.pushed
            && s'.head - Holding(s'.threads[1]) == s.head - Holding(s.threads[1]) + returned
  {
  }

  lemma TurnKeepsCounted<T>(r: Reader<T>, t: Turn)
    requires Counted(r)
    ensures var r' := TurnStep(r, t); Counted(r') && r'.frames == r.frames && |r.dropped| <= |r'.dropped|
  {
    TurnKeepsFrames(r, t);
    hide Inv, Accounts, ProducerStep, ConsumerStep, InPop, InPush;
    match t {
      case Produce(stop, casFails) =>
        ProducerKeepsAccounts(r, stop, casFails);
        ProducerKeepsSides(r, stop, casFails);
      case Consume(casFails) =>
        ConsumerKeepsAccounts(r, casFails);
        ConsumerKeepsSides(r, casFails);
    }
  }

  lemma {:induction false} PlayKeepsCounted<T>(r: Reader<T>, ts: seq<Turn>)
    requires Wired(r) && Counted(r)
    ensures var r' := Play(r, ts); Counted(r') && r'.frames == r.frames && |r.dropped| <= |r'.dropped|
    decreases ts
  {
    hide Wired, Counted, TurnStep;
    if ts != [] {
      TurnKeepsCounted(r, ts[0]);
      PlayKeepsCounted(TurnStep(r, ts[0]), ts[1..]);
    }
  }

  lemma DroppedIsMissing<T>(r: Reader<T>)
    requires Counted(r) && r.dropped != []
    ensures |r.delivered| < |r.frames|
  {
  }

  // ----- for which sizes the reader can always finish

  // From every state that a run without stop can reach, some run delivers every frame.
  ghost predicate AlwaysFinishes<T(!new)>(max: nat, capacity: nat)
    requires capacity == 0 ==> max == 0
  {
    forall frames: seq<T>, ts: seq<Turn> :: NoStop(ts) ==> Finishes(Play(Start(frames, max, capacity), ts))
  }

  ghost predicate Finishes<T>(r: Reader<T>)
    requires Wired(r)
  {
    exists ts: seq<Turn> :: NoStop(ts) && Play(r, ts).delivered == r.frames
  }

  lemma FinishesBelowCapacity<T>(frames: seq<T>, max: nat, capacity: nat, ts: seq<Turn>)
    requires 0 < max < capacity && NoStop(ts)
    ensures Finishes(Play(Start(frames, max, capacity), ts))
  {
    var s := Start(frames, max, capacity);
    StartInv(frames, max, capacity);
    PlayKeepsAlive(s, ts);
    var r := Play(s, ts);
    AliveIsWired(r);
    var us := CanFinish(r);
  }

  lemma NeverFinishes<T>(frames: seq<T>, max: nat, capacity: nat, ts: seq<Turn>)
    requires capacity > 0 && Play(Start(frames, max, capacity), ts).dropped != []
    ensures !Finishes(Play(Start(frames, max, capacity), ts))
  {
    hide Play;
    var s := Start(frames, max, capacity);
    InitInv<T>(capacity, 2);
    assert Counted(s);
    PlayKeepsCounted(s, ts);
    var r := Play(s, ts);
    forall us: seq<Turn> ensures Play(r, us).delivered != r.frames {
      PlayKeepsCounted(r, us);
      DroppedIsMissing(Play(r, us));
    }
  }

  // With the capacity the queue's constructor computes, the reader can always finish exactly when max_ is
  // neither 0 nor a power of two.
  lemma AlwaysFinishesIff<T(!new)>(max: nat, capacity: nat, frame: T)
    requires Rounded(max, capacity)
    ensures AlwaysFinishes<T>(max, capacity) <==> max > 0 && !IsPow2(max)
  {
    hide Play, Finishes;
    if max == 0 {
      var s := Start([frame], max, capacity);
      assert NoStop([]) && !Finishes(Play(s, [])) by { EmptyNeverFinishes(frame); }
    } else if IsPow2(max) {
      assert max == capacity;
      var frames := seq(capacity + 1, i => frame);
      var ts := LossyRun(frames, capacity);
      NeverFinishes(frames, max, capacity, ts);
    } else {
      assert max < capacity;
      forall frames: seq<T>, ts: seq<Turn> | NoStop(ts) ensures Finishes(Play(Start(frames, max, capacity), ts)) {
        FinishesBelowCapacity(frames, max, capacity, ts);
      }
    }
  }

  lemma EmptyNeverFinishes<T>(frame: T)
    ensures !Finishes(Play(Start([frame], 0, 0), []))
  {
    var s := Start([frame], 0, 0);
    forall us: seq<Turn> ensures Play(s, us).delivered != s.frames { StaysUnused(s, us); }
  }

  // ----- the buffer sizes of ParseVideo

  lemma ReadOut<T>(r: Reader<T>, h: nat, v: T)
    requires Wired(r) && Shaped(r.ring) && r.consumer == Popping && r.ring.threads[1] == PopRead(h)
    requires At(r.ring, h).data == Some(v)
    ensures var r' := ConsumerStep(ConsumerStep(ConsumerStep(r, false), false), false);
            r'.consumer == Popping && r'.ring.threads[1] == PopOk(h, v) && r'.delivered == r.delivered
  {
    var r1 := ConsumerStep(r, false);
    assert r1.ring.threads[1] == PopDestroy(h, v);
    var r2 := ConsumerStep(r1, false);
    assert r2.ring.threads[1] == PopRelease(h, v);
  }

  lemma FinishPop<T>(r: Reader<T>, h: nat, v: T)
    requires Wired(r) && Shaped(r.ring) && r.consumer == Popping && r.ring.threads[1] == PopRead(h)
    requires At(r.ring, h).data == Some(v)
    ensures ConsumeN(r, 4).delivered == r.delivered + [v]
  {
    hide ConsumeN, Slot, Unused;
    ReadOut(r, h, v);
    ConsumeThree(r);
    ConsumeMore(r, 3, 1);
    ConsumeOne(ConsumeN(r, 3));
  }

  lemma ConsumeOne<T>(r: Reader<T>)
    requires Wired(r)
    ensures ConsumeN(r, 1) == ConsumerStep(r, false)
  {
    assert ConsumeN(ConsumerStep(r, false), 0) == ConsumerStep(r, false);
  }

  // An undisturbed pop of a stored frame delivers it.
  lemma PopWhole<T>(r: Reader<T>, h: nat, v: T)
    requires Wired(r) && Shaped(r.ring) && r.consumer == Waiting && r.ring.threads[1] == Idle
    requires r.ring.head == h < r.ring.tail && At(r.ring, h).head == h && At(r.ring, h).data == Some(v)
    ensures ConsumeN(r, 10).delivered == r.delivered + [v]
  {
    hide ConsumeN, ConsumerStep;
    EnterPop(r);
    ConsumeMore(r, 3, 7);
    var r3 := r.(consumer := Popping, ring := SetPc(r.ring, 1, PopStart));
    ClaimNext(r3, h);
    ConsumeMore(r3, 3, 4);
    FinishPop(r3.(ring := SetPc(r3.ring.(head := h + 1), 1, PopRead(h))), h, v);
  }

  // Also a queue as large as max_ delivers what is pushed into it.
  lemma DeliversFirst<T>(frame: T, capacity: nat)
    requires capacity > 0
    ensures exists ts: seq<Turn> :: Play(Start([frame], capacity, capacity), ts).delivered == [frame]
  {
    hide Play, ConsumeN;
    var s := Start([frame], capacity, capacity);
    var us := FillMany([frame], capacity, 1);
    var f := Filled([frame], capacity, 1);
    ModUnique(0, 0, capacity);
    PopWhole(f, 0, frame);
    PlayConsumes(f, 10);
    PlayConcat(s, us, Consumes(10));
    assert Play(s, us + Consumes(10)).delivered == [frame];
  }

  // The constructor of ParseVideo clamps the requested size.
  function ClampBufferSize(bufferSize: nat): nat { if bufferSize > 20 then 20 else bufferSize }

  lemma SafeBufferSizes<T(!new)>(bufferSize: nat, capacity: nat, frame: T)
    requires Rounded(ClampBufferSize(bufferSize), capacity)
    ensures NeverDrops<T>(ClampBufferSize(bufferSize), capacity) <==> bufferSize !in {1, 2, 4, 8, 16}
    ensures AlwaysFinishes<T>(ClampBufferSize(bufferSize), capacity) <==> bufferSize !in {0, 1, 2, 4, 8, 16}
    ensures NeverDelivers<T>(ClampBufferSize(bufferSize), capacity) <==> bufferSize == 0
  {
    hide Play, Finishes;
    var max := ClampBufferSize(bufferSize);
    SmallPowers(max);
    NeverDropsIff(max, capacity, frame);
    AlwaysFinishesIff(max, capacity, frame);
    if max > 0 { DeliversSomething(max, capacity, frame); }
  }

  lemma SmallPowers(n: nat)
    requires n <= 20
    ensures IsPow2(n) <==> n in {1, 2, 4, 8, 16}
  {
    assert Pow2(0) == 1 && Pow2(1) == 2 && Pow2(2) == 4 && Pow2(3) == 8 && Pow2(4) == 16;
    if IsPow2(n) {
      var k: nat :| n == Pow2(k);
      if k >= 5 { Pow2Monotone(5, k); }
    }
  }

  lemma DeliversSomething<T(!new)>(max: nat, capacity: nat, frame: T)
    requires Rounded(max, capacity) && max > 0
    ensures !NeverDelivers<T>(max, capacity)
  {
    hide Play;
    if max == capacity {
      DeliversFirst(frame, capacity);
      var ts: seq<Turn> :| Play(Start([frame], capacity, capacity), ts).delivered == [frame];
    } else {
      FinishesBelowCapacity([frame], max, capacity, []);
      PlayNone([frame], max, capacity);
      var ts: seq<Turn> :| NoStop(ts) && Play(Start([frame], max, capacity), ts).delivered == [frame];
    }
  }

  lemma PlayNone<T>(frames: seq<T>, max: nat, capacity: nat)
    requires capacity == 0 ==> max == 0
    ensures Play(Start(frames, max, capacity), []) == Start(frames, max, capacity)
  {
  }
}
