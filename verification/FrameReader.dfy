/** The frame reader of src/parse/parse_video.cc: its decoding loop and its consumer on one CircleBuffer. */
module FrameReader {
  // A list of turns is one interleaving of the atomic steps of the producer running the decoding loop, which
  // is thread 0 of the queue, and the consumer calling GetParseDate, which is thread 1.

  import opened CircleBuffer
  import opened RingSafety
  import opened RingFailures

  datatype Producer =
    | Loop                     // testing stop_ and the frame count
    | LoadHead                 // in size(), about to load _head
    | LoadTail(h: nat)         // in size(), about to load _tail and compare with max_
    | Pushing
    | Finished

  datatype Consumer =
    | Waiting
    | SizeHead                 // in size(), about to load _head
    | SizeTail(h: nat)         // in size(), about to load _tail and compare with 0
    | Popping

  // `frames` are the frames the decoder yields; `dropped` and `delivered` are history.
  datatype Reader<T> = Reader(
    ring: Ring<T>, max: nat, frames: seq<T>, total: nat,
    producer: Producer, consumer: Consumer, dropped: seq<T>, delivered: seq<T>)

  // `stop` is the flag as the loop test sees it; `casFails` makes a weak compare-and-swap fail.
  datatype Turn = Produce(stop: bool, casFails: bool) | Consume(casFails: bool)

  function ActOf(casFails: bool): Act { if casFails then CasFails else Go }

  function Start<T>(frames: seq<T>, max: nat, capacity: nat): Reader<T> {
    Reader(Init(capacity, 2), max, frames, 0, Loop, Waiting, [], [])
  }

  // With a buffer size of 0 the queue has no nodes: the producer waits forever and the consumer finds
  // nothing, so neither touches it.
  predicate Unused<T>(r: Reader<T>) {
    && r.max == 0 && r.producer != Pushing && r.consumer != Popping
    && r.ring.head == r.ring.tail == r.total == 0 && r.dropped == [] && r.delivered == []
    && (r.producer.LoadTail? ==> r.producer.h == 0) && (r.consumer.SizeTail? ==> r.consumer.h == 0)
  }

  predicate Wired<T>(r: Reader<T>) {
    && |r.ring.queue| == r.ring.capacity && |r.ring.threads| == 2
    && (r.producer == Pushing || r.producer.LoadHead? || r.producer.LoadTail? ==> r.total < |r.frames|)
    && (r.ring.capacity == 0 ==> Unused(r))
  }

  function ProducerStep<T>(r: Reader<T>, stop: bool, casFails: bool): (r': Reader<T>)
    requires Wired(r)
    ensures Wired(r')
  {
    match r.producer
    case Loop => r.(producer := if stop || r.total >= |r.frames| then Finished else LoadHead)
    case LoadHead => r.(producer := LoadTail(r.ring.head))
    case LoadTail(h) =>
      if r.ring.tail - h >= r.max then r.(producer := LoadHead)      // sleep and try again
      else r.(producer := Pushing, ring := Step(r.ring, Event(0, CallPush(r.frames[r.total]))))
    case Pushing =>
      var returned := r.(producer := Loop, total := r.total + 1, ring := Step(r.ring, Event(0, ActOf(casFails))));
      (match r.ring.threads[0]
       case PushOk(_) => returned
       case PushFailed(_) => returned.(dropped := r.dropped + [r.frames[r.total]])   // the result is ignored
       case _ => r.(ring := Step(r.ring, Event(0, ActOf(casFails)))))
    case Finished => r
  }

  function ConsumerStep<T>(r: Reader<T>, casFails: bool): (r': Reader<T>)
    requires Wired(r)
    ensures Wired(r')
  {
    match r.consumer
    case Waiting => r.(consumer := SizeHead)
    case SizeHead => r.(consumer := SizeTail(r.ring.head))
    case SizeTail(h) =>
      if r.ring.tail == h then r.(consumer := Waiting)
      else r.(consumer := Popping, ring := Step(r.ring, Event(1, CallPop)))
    case Popping =>
      var stepped := r.(ring := Step(r.ring, Event(1, ActOf(casFails))));
      match r.ring.threads[1]
      case PopOk(_, x) => stepped.(consumer := Waiting, delivered := r.delivered + [x])
      case PopFailed(_) => stepped.(consumer := Waiting)
      case _ => stepped
  }

  function TurnStep<T>(r: Reader<T>, t: Turn): (r': Reader<T>)
    requires Wired(r)
    ensures Wired(r')
  {
    match t
    case Produce(stop, casFails) => ProducerStep(r, stop, casFails)
    case Consume(casFails) => ConsumerStep(r, casFails)
  }

  function Play<T>(r: Reader<T>, ts: seq<Turn>): (r': Reader<T>)
    requires Wired(r)
    ensures Wired(r')
    decreases ts
  {
    if ts == [] then r else Play(TurnStep(r, ts[0]), ts[1..])
  }

  // ----- what each side knows of the other

  // What each side knows of the other, whatever max_ and the capacity are: only the producer pushes and
  // only the consumer pops, so the consumer's ticket is up to date and the value it saw is still there.
  ghost predicate TwoSided<T>(r: Reader<T>) {
    && Inv(r.ring) && |r.ring.threads| == 2
    && !InPop(r.ring.threads[0]) && !InPush(r.ring.threads[1])
    && (r.producer != Pushing ==> r.ring.threads[0] == Idle)
    && (r.consumer != Popping ==> r.ring.threads[1] == Idle)
    && (r.consumer.SizeTail? ==> r.consumer.h == r.ring.head)
    && (r.consumer == Popping && Looking(r.ring.threads[1]) ==>
          r.ring.head < r.ring.tail && PopTicketIs(r.ring.threads[1], r.ring.head))
  }

  lemma ProducerKeepsSides<T>(r: Reader<T>, stop: bool, casFails: bool)
    requires Wired(r) && TwoSided(r)
    ensures TwoSided(ProducerStep(r, stop, casFails))
  {
    hide NodeOk, ThreadOk, Apart;
    if r.producer == Pushing {
      PushingKeepsSides(r, stop, casFails);
    } else if r.producer.LoadTail? {
      StepKeepsInv(r.ring, Event(0, CallPush(r.frames[r.total])));
    }
  }

  lemma PushingKeepsSides<T>(r: Reader<T>, stop: bool, casFails: bool)
    requires Wired(r) && TwoSided(r) && r.producer == Pushing
    ensures TwoSided(ProducerStep(r, stop, casFails))
  {
    hide Inv, InPop, InPush, Looking, PopTicketIs;
    var e := Event(0, ActOf(casFails));
    var s' := Step(r.ring, e);
    StepKeepsInv(r.ring, e);
    PushStepSides(r.ring, e);
    assert ProducerStep(r, stop, casFails).ring == s';
  }

  lemma PushStepSides<T>(s: Ring<T>, e: Event<T>)
    requires Shaped(s) && e.tid == 0 && |s.threads| == 2 && !InPop(s.threads[0]) && !e.act.CallPop?
    ensures var s' := Step(s, e);
            s'.threads[1] == s.threads[1] && s'.head == s.head && s.tail <= s'.tail && !InPop(s'.threads[0])
  {
  }

  lemma ConsumerKeepsSides<T>(r: Reader<T>, casFails: bool)
    requires Wired(r) && TwoSided(r)
    ensures TwoSided(ConsumerStep(r, casFails))
  {
    hide NodeOk, ThreadOk, Apart;
    if r.consumer == Popping {
      PoppingKeepsSides(r, casFails);
    } else if r.consumer.SizeTail? {
      StepKeepsInv(r.ring, Event(1, CallPop));
      assert r.ring.head <= r.ring.tail;
    }
  }

  lemma PoppingKeepsSides<T>(r: Reader<T>, casFails: bool)
    requires Wired(r) && TwoSided(r) && r.consumer == Popping
    ensures TwoSided(ConsumerStep(r, casFails))
  {
    hide Inv, InPop, InPush, Looking, PopTicketIs;
    var e := Event(1, ActOf(casFails));
    var s' := Step(r.ring, e);
    StepKeepsInv(r.ring, e);
    PopStepSides(r.ring, e);
    assert ConsumerStep(r, casFails).ring == s';
    assert Looking(s'.threads[1]) ==> s'.threads[1] != Idle by { LookingNotIdle(s'.threads[1]); }
  }

  lemma LookingNotIdle<T>(pc: Pc<T>)
    ensures Looking(pc) ==> pc != Idle && !pc.PopOk? && !pc.PopFailed?
  {
  }

  lemma PopStepSides<T>(s: Ring<T>, e: Event<T>)
    requires Shaped(s) && e.tid == 1 && |s.threads| == 2 && !InPush(s.threads[1]) && !e.act.CallPush?
    requires Looking(s.threads[1]) ==> s.head < s.tail && PopTicketIs(s.threads[1], s.head)
    requires s.threads[1] != Idle || !e.act.CallPop?
    ensures var s' := Step(s, e);
            && s'.threads[0] == s.threads[0] && !InPush(s'.threads[1])
            && (Looking(s'.threads[1]) ==> s'.head < s'.tail && PopTicketIs(s'.threads[1], s'.head))
  {
  }

  lemma {:induction false} PlayKeepsSides<T>(r: Reader<T>, ts: seq<Turn>)
    requires Wired(r) && TwoSided(r)
    ensures TwoSided(Play(r, ts))
    decreases ts
  {
    hide ProducerStep, ConsumerStep;
    if ts != [] {
      match ts[0] {
        case Produce(stop, casFails) => ProducerKeepsSides(r, stop, casFails);
        case Consume(casFails) => ConsumerKeepsSides(r, casFails);
      }
      PlayKeepsSides(TurnStep(r, ts[0]), ts[1..]);
    }
  }

  // ----- the invariant

  predicate Owed<T>(pc: Pc<T>) { pc.PushWrite? || pc.PushPublish? || pc.PushOk? }

  predicate Held<T>(pc: Pc<T>) { pc.PopRead? || pc.PopDestroy? || pc.PopRelease? || pc.PopOk? }

  ghost predicate ProducerOk<T>(r: Reader<T>) {
    && |r.ring.threads| == 2
    && var pc := r.ring.threads[0];
    && r.total <= |r.frames|
    && r.dropped == []
    && (r.producer.LoadTail? ==> r.producer.h <= r.ring.head)
    && (r.producer != Pushing ==> pc == Idle)
    && (r.producer == Pushing ==>
          r.total < |r.frames| &&
          match pc
          case PushStart(v) => v == r.frames[r.total] && r.ring.tail - r.ring.head < r.max
          case PushCheck(v, t) => v == r.frames[r.total] && t == r.ring.tail && r.ring.tail - r.ring.head < r.max
          case PushCas(v, t) => v == r.frames[r.total] && t == r.ring.tail && r.ring.tail - r.ring.head < r.max
          case PushWrite(_, _) => true
          case PushPublish(_, _) => true
          case PushOk(_) => true
          case _ => false)
    && r.ring.pushed == r.frames[..r.total] + (if Owed(pc) then [r.frames[r.total]] else [])
  }

  ghost predicate ConsumerOk<T>(r: Reader<T>) {
    && |r.ring.threads| == 2
    && var pc := r.ring.threads[1];
    && (r.consumer != Popping ==> pc == Idle)
    && (r.consumer == Popping ==>
          match pc
          case PopStart => true
          case PopCheck(h) => h == r.ring.head
          case PopCas(h) => h == r.ring.head
          case PopRead(h) => h + 1 == r.ring.head
          case PopDestroy(h, _) => h + 1 == r.ring.head
          case PopRelease(h, _) => h + 1 == r.ring.head
          case PopOk(h, _) => h + 1 == r.ring.head
          case PopFailed(h) => h == r.ring.head
          case _ => false)
    && |r.delivered| == r.ring.head - (if Held(pc) then 1 else 0)
    && r.delivered <= r.ring.pushed
  }

  ghost predicate ReaderInv<T>(r: Reader<T>) {
    TwoSided(r) && Wired(r) && r.max < r.ring.capacity && ProducerOk(r) && ConsumerOk(r)
  }

  // With one popper, only the last claimed ticket can still be leaving.
  lemma RoomForPush<T>(r: Reader<T>)
    requires ReaderInv(r) && r.ring.tail - r.ring.head < r.max
    ensures At(r.ring, r.ring.tail).tail == r.ring.tail
  {
    var s := r.ring;
    FreshPushFailsIff(s);
    if s.capacity <= s.tail {
      forall a | 0 <= a < |s.threads| ensures !PopOwns(s.threads[a], s.tail - s.capacity) {
        assert a == 0 || a == 1;
      }
    }
  }

  lemma ProducerKeepsProducer<T>(r: Reader<T>, stop: bool, casFails: bool)
    requires Wired(r) && ProducerOk(r) && r.ring.head <= r.ring.tail
    requires r.ring.tail - r.ring.head < r.max ==> At(r.ring, r.ring.tail).tail == r.ring.tail
    ensures ProducerOk(ProducerStep(r, stop, casFails))
  {
    if r.producer == Pushing && r.ring.threads[0].PushOk? {
      assert r.frames[..r.total + 1] == r.frames[..r.total] + [r.frames[r.total]];
    }
  }

  lemma ProducerKeepsConsumer<T>(r: Reader<T>, stop: bool, casFails: bool)
    requires Wired(r) && ProducerOk(r) && ConsumerOk(r)
    ensures ConsumerOk(ProducerStep(r, stop, casFails))
  {
    var r' := ProducerStep(r, stop, casFails);
    assert r'.ring.threads[1] == r.ring.threads[1];
    assert r'.ring.head == r.ring.head;
    assert r.ring.pushed <= r'.ring.pushed;
  }

  lemma ConsumerKeepsConsumer<T>(r: Reader<T>, casFails: bool)
    requires Wired(r) && ConsumerOk(r) && r.ring.head <= |r.ring.pushed|
    requires var pc := r.ring.threads[1]; pc.PopOk? ==> r.ring.head <= |r.ring.pushed| && pc.r == r.ring.pushed[pc.h]
    ensures ConsumerOk(ConsumerStep(r, casFails))
  {
  }

  lemma ConsumerKeepsProducer<T>(r: Reader<T>, casFails: bool)
    requires Wired(r) && ProducerOk(r) && ConsumerOk(r)
    ensures ProducerOk(ConsumerStep(r, casFails))
  {
    var r' := ConsumerStep(r, casFails);
    assert r'.ring.threads[0] == r.ring.threads[0];
    assert r.ring.head <= r'.ring.head && r'.ring.tail == r.ring.tail && r'.ring.pushed == r.ring.pushed;
  }

  lemma TurnKeepsFrames<T>(r: Reader<T>, t: Turn)
    requires Wired(r)
    ensures var r' := TurnStep(r, t);
            r'.frames == r.frames && r'.max == r.max && r'.ring.capacity == r.ring.capacity
  {
  }

  // What the two sides need to know of the queue.
  lemma RingFacts<T>(r: Reader<T>)
    requires ReaderInv(r)
    ensures Shaped(r.ring) && r.ring.head <= r.ring.tail == |r.ring.pushed|
    ensures var pc := r.ring.threads[1]; pc.PopOk? ==> pc.h < |r.ring.pushed| && pc.r == r.ring.pushed[pc.h]
  {
    assert ThreadOk(r.ring, 1);
  }

  lemma TurnKeepsInv<T>(r: Reader<T>, t: Turn)
    requires ReaderInv(r)
    ensures ReaderInv(TurnStep(r, t))
  {
    RingFacts(r);
    hide Inv, TwoSided, ProducerOk, ConsumerOk;
    TurnKeepsFrames(r, t);
    match t {
      case Produce(stop, casFails) =>
        ProducerKeepsSides(r, stop, casFails);
        if r.ring.tail - r.ring.head < r.max { RoomForPush(r); }
        ProducerKeepsProducer(r, stop, casFails);
        ProducerKeepsConsumer(r, stop, casFails);
      case Consume(casFails) =>
        ConsumerKeepsSides(r, casFails);
        ConsumerKeepsConsumer(r, casFails);
        ConsumerKeepsProducer(r, casFails);
    }
  }

  lemma {:induction false} PlayKeepsInv<T>(r: Reader<T>, ts: seq<Turn>)
    requires ReaderInv(r)
    ensures ReaderInv(Play(r, ts))
    decreases ts
  {
    hide TurnStep;
    if ts != [] {
      TurnKeepsInv(r, ts[0]);
      PlayKeepsInv(TurnStep(r, ts[0]), ts[1..]);
    }
  }

  lemma StartInv<T>(frames: seq<T>, max: nat, capacity: nat)
    requires max < capacity
    ensures ReaderInv(Start(frames, max, capacity))
  {
    InitInv<T>(capacity, 2);
  }

  // When max_ is strictly below the capacity, no frame is dropped and the consumer has received a
  // prefix of the decoded frames, in order, at every moment of every run.
  lemma FramesInOrder<T>(frames: seq<T>, max: nat, capacity: nat, ts: seq<Turn>)
    requires max < capacity
    ensures var r := Play(Start(frames, max, capacity), ts);
            r.dropped == [] && r.delivered <= frames && r.total <= |r.delivered| + capacity + 1
  {
    hide Play;
    StartInv(frames, max, capacity);
    PlayKeepsInv(Start(frames, max, capacity), ts);
    var r := Play(Start(frames, max, capacity), ts);
    PlayKeepsFrames(Start(frames, max, capacity), ts);
    BoundedContents(r.ring);
  }

  lemma {:induction false} PlayKeepsFrames<T>(r: Reader<T>, ts: seq<Turn>)
    requires Wired(r)
    ensures Play(r, ts).frames == r.frames && Play(r, ts).max == r.max
    ensures Play(r, ts).ring.capacity == r.ring.capacity
    decreases ts
  {
    hide TurnStep;
    if ts != [] {
      TurnKeepsFrames(r, ts[0]);
      PlayKeepsFrames(TurnStep(r, ts[0]), ts[1..]);
    }
  }

  // Once the producer has run through and the queue is drained, the consumer has every frame.
  lemma AllDelivered<T>(frames: seq<T>, max: nat, capacity: nat, ts: seq<Turn>)
    requires max < capacity
    requires var r := Play(Start(frames, max, capacity), ts);
             r.total == |frames| && r.ring.head == r.ring.tail && r.consumer == Waiting
    ensures Play(Start(frames, max, capacity), ts).delivered == frames
  {
    hide Play;
    StartInv(frames, max, capacity);
    PlayKeepsInv(Start(frames, max, capacity), ts);
    PlayKeepsFrames(Start(frames, max, capacity), ts);
  }

  // The producer is never told to stop.
  ghost predicate NoStop(ts: seq<Turn>) {
    forall k :: 0 <= k < |ts| && ts[k].Produce? ==> !ts[k].stop
  }

  // ----- what a false result of GetParseDate means

  // In every run, past its size test GetParseDate fails exactly when the producer has claimed but not
  // yet published the very next frame; it never fails on a frame that is there.
  lemma GetParseDateFailsIff<T>(frames: seq<T>, max: nat, capacity: nat, ts: seq<Turn>, casFails: bool)
    requires capacity > 0
    requires var r := Play(Start(frames, max, capacity), ts); r.consumer == Popping && r.ring.threads[1].PopCheck?
    ensures var r := Play(Start(frames, max, capacity), ts);
            && r.ring.head < r.ring.tail
            && (ConsumerStep(r, casFails).ring.threads[1].PopFailed? <==>
                r.producer == Pushing && PushOwns(r.ring.threads[0], r.ring.head))
  {
    hide Play;
    var s := Start(frames, max, capacity);
    InitInv<T>(capacity, 2);
    PlayKeepsSides(s, ts);
    var r := Play(s, ts);
    FreshPopFailsIff(r.ring);
    assert PushHeld(r.ring.threads, r.ring.head) <==> PushOwns(r.ring.threads[0], r.ring.head);
  }
}
