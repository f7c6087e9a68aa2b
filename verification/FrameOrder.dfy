/** When the tracks of the multi-object tracker (thirdparty/tracker/TrackerLib.cpp) stay in frame order. */
module FrameOrder {
  // An exact condition on the frame indices of the calls, which the caller chooses.

  import opened Assignment
  import opened Tracking
  import opened TrackingRuns

  // Any sequence of calls, whatever its frame indices.
  ghost predicate ValidCalls(p: Params, s: State, inputs: seq<Input>)
    decreases inputs
  {
    inputs == [] || (ValidInput(p, s, inputs[0]) && ValidCalls(p, Step(p, s, inputs[0]), inputs[1..]))
  }

  ghost predicate WithFrames(inputs: seq<Input>, frames: seq<int>) {
    |inputs| <= |frames| && forall k :: 0 <= k < |inputs| ==> inputs[k].frame == frames[k]
  }

  ghost predicate AllIncreasing(s: State) {
    forall id :: id in s.tracks ==> Increasing(s.tracks[id].objects)
  }

  // However the detections and choices fall, calls with these frame indices leave every track in order.
  ghost predicate KeepsOrder(p: Params, frames: seq<int>) {
    forall inputs :: WithFrames(inputs, frames) && ValidCalls(p, Empty, inputs) ==>
                       AllIncreasing(RunAll(p, Empty, inputs))
  }

  predicate StrictlyIncreasing(frames: seq<int>) {
    forall j, k :: 0 <= j < k < |frames| ==> frames[j] < frames[k]
  }

  // ----- increasing frame indices are enough

  lemma {:induction false} IncreasingIsValid(p: Params, s: State, frame: int, inputs: seq<Input>, frames: seq<int>)
    requires ValidCalls(p, s, inputs) && WithFrames(inputs, frames) && StrictlyIncreasing([frame] + frames)
    ensures ValidRun(p, s, frame, inputs)
    decreases |inputs|
  {
    hide Step, ValidInput;
    if inputs != [] {
      assert ([frame] + frames)[0] < ([frame] + frames)[1];
      assert [frames[0]] + frames[1..] == ([frame] + frames)[1..];
      IncreasingIsValid(p, Step(p, s, inputs[0]), inputs[0].frame, inputs[1..], frames[1..]);
    }
  }

  lemma InOrderWhenIncreasing(p: Params, inputs: seq<Input>, frames: seq<int>)
    requires ValidCalls(p, Empty, inputs) && WithFrames(inputs, frames) && StrictlyIncreasing(frames)
    ensures AllIncreasing(RunAll(p, Empty, inputs))
  {
    if inputs != [] {
      var before := frames[0] - 1;
      IncreasingIsValid(p, Empty, before, inputs, frames);
      RunKeepsInv(p, Empty, before, inputs);
      var s := RunAll(p, Empty, inputs);
      forall id | id in s.tracks ensures Increasing(s.tracks[id].objects) {
        assert InOrder(s.tracks[id], LastFrame(before, inputs));
      }
    }
  }

  lemma InOrderWhenSingle(p: Params, inputs: seq<Input>)
    requires p.maxObjects == 1
    ensures AllIncreasing(RunAll(p, Empty, inputs))
  {
    RunKeepsBase(p, Empty, inputs);
    var s := RunAll(p, Empty, inputs);
    forall id | id in s.tracks ensures Increasing(s.tracks[id].objects) {
      assert TrackOk(p, id, s.tracks[id]);
    }
  }

  // ----- and necessary

  const NoSenses := Senses([], map[], map[])

  // A call without detections, the call that starts a track, and the one that continues track 1.
  function Quiet(frame: int): Input {
    Input([], frame, 0, 0, NoSenses, map[], {}, {}, [])
  }

  function Appearing(det: Obj, frame: int): Input {
    Quiet(frame).(dets := [det.(frame := frame)])
  }

  function Staying(det: Obj, frame: int): Input {
    Appearing(det, frame).(senses := NoSenses.(similarity := [Cand(1, 0, 1.0)]), matchOf := map[1 := 0])
  }

  // Where nothing looks alike, a call ends with the tracking itself.
  lemma NothingToMerge(p: Params, s: State, i: Input)
    requires Base(p, s) && i.senses.alike == map[] && i.merges == []
    ensures Step(p, s, i) == Tracked(p, s, i)
    ensures p.useRectify ==> Plan(p, Dropped(p, Tracked(p, s, i), i), i.senses, i.merges)
  {
    hide NeverMeet, Nearest;
    var t := Tracked(p, s, i);
    TrackedKeepsBase(p, s, i);
    DropsNothing(p, t, i);
    assert BestFirst({}, []) && AllRejoining(p, t, i.senses, {});
  }

  lemma QuietStep(p: Params, frame: int)
    ensures ValidInput(p, Empty, Quiet(frame)) && Step(p, Empty, Quiet(frame)) == Empty
  {
    EachNone(p, Quiet(frame), Aging, Empty);
    assert AddTracks(Empty, [], Indices(0), 0) == Empty;
    NothingToMerge(p, Empty, Quiet(frame));
  }

  function Started(det: Obj, frame: int): State {
    State(map[1 := NewTrack(det.(frame := frame), 1)], {1}, 2)
  }

  lemma AppearingStep(p: Params, det: Obj, frame: int)
    ensures ValidInput(p, Empty, Appearing(det, frame))
    ensures Step(p, Empty, Appearing(det, frame)) == Started(det, frame)
  {
    var i := Appearing(det, frame);
    assert AddTracks(Empty, i.dets, Indices(1), 0) == Empty;
    assert AddTracks(Empty, i.dets, Indices(1), 1) == Started(det, frame);
    EachNone(p, i, Aging, Started(det, frame));
    NothingToMerge(p, Empty, i);
  }

  // A detection of positive size that stays where it is is no noise, whatever the parameters.
  lemma StayingAppends(p: Params, det: Obj, before: int, now: int)
    requires det.rect.w > 0 && det.rect.h > 0
    ensures AppendTo(p, NewTrack(det.(frame := before), 1), 1, det.(frame := now)).Some?
  {
    var side := if det.rect.w < det.rect.h then det.rect.w else det.rect.h;
    assert side * side > 0;
  }

  lemma StayingIsMatched(det: Obj, before: int, now: int)
    ensures Matched(Started(det, before), Staying(det, now))
  {
    var i, c := Staying(det, now), Cand(1, 0, 1.0);
    assert Free({c}, c) == {} && [c][1..] == [];
    assert Elements([c]) == {c} && BestFirst({c}, [c]);
    assert Indices(1) == {0};
    assert Solved({1}, 1, [c], {}, {}, {c}, [c]);
    assert MatchesOf({c}, i.matchOf);
  }

  // Only the last object of a track is ever compared with the new one.
  lemma StayingStep(p: Params, det: Obj, before: int, now: int)
    requires Base(p, Started(det, before)) && det.rect.w > 0 && det.rect.h > 0
    ensures ValidInput(p, Started(det, before), Staying(det, now))
    ensures var s := Step(p, Started(det, before), Staying(det, now));
            && 1 in s.tracks
            && s.tracks[1].objects == LastN([det.(frame := before, id := 1), det.(frame := now, id := 1)], p.maxObjects)
  {
    var s, i := Started(det, before), Staying(det, now);
    StayingIsMatched(det, before, now);
    NothingToMerge(p, s, i);
    StayingAppends(p, det, before, now);
    var appended := Each(p, i, Append, {1}, s);
    assert i.matchOf.Keys == {1};
    assert AddTracks(appended, i.dets, {}, 0) == appended;
    EachNone(p, i, Aging, appended);
    assert [det.(frame := before, id := 1)] + [det.(frame := now, id := 1)] ==
           [det.(frame := before, id := 1), det.(frame := now, id := 1)];
  }

  lemma TwoCalls(p: Params, s: State, first: Input, second: Input)
    requires ValidInput(p, s, first) && ValidInput(p, Step(p, s, first), second)
    ensures ValidCalls(p, s, [first, second])
    ensures RunAll(p, s, [first, second]) == Step(p, Step(p, s, first), second)
  {
    hide Step, ValidInput;
    assert [first, second][1..] == [second] && [second][1..] == [];
    assert RunAll(p, Step(p, s, first), [second]) == RunAll(p, Step(p, Step(p, s, first), second), []);
    assert ValidCalls(p, Step(p, Step(p, s, first), second), []);
  }

  lemma SeenTwice(p: Params, before: int, now: int, det: Obj)
    requires now <= before && p.maxObjects != 1 && det.rect.w > 0 && det.rect.h > 0
    ensures var inputs := [Appearing(det, before), Staying(det, now)];
            ValidCalls(p, Empty, inputs) && !AllIncreasing(RunAll(p, Empty, inputs))
  {
    var first, second := Appearing(det, before), Staying(det, now);
    AppearingStep(p, det, before);
    StepKeepsBase(p, Empty, first);
    StayingStep(p, det, before, now);
    TwoCalls(p, Empty, first, second);
    hide Step, ValidInput, Base;
    var s := Step(p, Started(det, before), second);
    assert s.tracks[1].objects[1].frame <= s.tracks[1].objects[0].frame;
  }

  // Only this detection is seen.
  ghost predicate OnlySeen(inputs: seq<Input>, det: Obj) {
    forall k, j :: 0 <= k < |inputs| && 0 <= j < |inputs[k].dets| ==>
                     inputs[k].dets[j] == det.(frame := inputs[k].frame)
  }

  // Two successive frame indices that do not increase, and any detection of positive size: the run in
  // which that detection is seen in these two frames only ends with a track out of order.
  lemma {:induction false} OutOfOrderRun(p: Params, frames: seq<int>, k: nat, det: Obj) returns (inputs: seq<Input>)
    requires k + 1 < |frames| && frames[k + 1] <= frames[k] && p.maxObjects != 1
    requires det.rect.w > 0 && det.rect.h > 0
    ensures WithFrames(inputs, frames) && ValidCalls(p, Empty, inputs) && !AllIncreasing(RunAll(p, Empty, inputs))
    ensures OnlySeen(inputs, det)
    decreases k
  {
    hide Step, ValidInput, AllIncreasing;
    if k > 0 {
      var rest := OutOfOrderRun(p, frames[1..], k - 1, det);
      QuietStep(p, frames[0]);
      inputs := [Quiet(frames[0])] + rest;
      assert inputs[1..] == rest;
    } else {
      SeenTwice(p, frames[0], frames[1], det);
      inputs := [Appearing(det, frames[0]), Staying(det, frames[1])];
    }
  }

  lemma {:induction false} StepByStep(frames: seq<int>)
    requires forall k :: 0 < k < |frames| ==> frames[k - 1] < frames[k]
    ensures StrictlyIncreasing(frames)
    decreases |frames|
  {
    if |frames| > 1 {
      var n := |frames| - 1;
      StepByStep(frames[..n]);
      forall j | 0 <= j < n ensures frames[j] < frames[n] {
        assert frames[..n][j] <= frames[..n][n - 1] && frames[n - 1] < frames[n];
      }
    }
  }

  // Over all runs: tracks stay in frame order exactly when the frame indices strictly increase, or tracks
  // hold one object only.
  lemma KeepsOrderIff(p: Params, frames: seq<int>)
    ensures KeepsOrder(p, frames) <==> StrictlyIncreasing(frames) || p.maxObjects == 1
  {
    if StrictlyIncreasing(frames) || p.maxObjects == 1 {
      forall inputs | WithFrames(inputs, frames) && ValidCalls(p, Empty, inputs)
        ensures AllIncreasing(RunAll(p, Empty, inputs))
      {
        if p.maxObjects == 1 { InOrderWhenSingle(p, inputs); } else { InOrderWhenIncreasing(p, inputs, frames); }
      }
    } else {
      if forall k :: 0 < k < |frames| ==> frames[k - 1] < frames[k] { StepByStep(frames); }
      var k :| 0 < k < |frames| && frames[k] <= frames[k - 1];
      var inputs := OutOfOrderRun(p, frames, k - 1, Obj(Rect(0, 0, 1, 1), 1.0, 0, 0));
    }
  }

  // The frame indices that pass the assertion of Process: timestamps are 40 times the frame index, and a
  // timestamp 0 is not compared with the one before.
  predicate Asserted(frames: seq<int>) {
    forall k :: 0 < k < |frames| && frames[k] > 0 ==> frames[k - 1] < frames[k]
  }

  // Under that assertion it is the frame index 0 after the first call, and nothing else, that lets tracks
  // go out of order.
  lemma AssertedKeepsOrderIff(p: Params, frames: seq<int>)
    requires Asserted(frames) && forall k :: 0 <= k < |frames| ==> frames[k] >= 0
    ensures KeepsOrder(p, frames) <==> (forall k :: 0 < k < |frames| ==> frames[k] != 0) || p.maxObjects == 1
  {
    KeepsOrderIff(p, frames);
    if StrictlyIncreasing(frames) {
      assert forall k :: 0 < k < |frames| ==> frames[0] < frames[k];
    }
    if forall k :: 0 < k < |frames| ==> frames[k] != 0 {
      StepByStep(frames);
    }
  }

  // A repeated frame index 0 and a return to it both pass the assertion.
  lemma BackToZero(p: Params)
    requires p.maxObjects != 1
    ensures Asserted([0, 0]) && !KeepsOrder(p, [0, 0])
    ensures Asserted([7, 0]) && !KeepsOrder(p, [7, 0])
  {
    KeepsOrderIff(p, [0, 0]);
    KeepsOrderIff(p, [7, 0]);
    assert [0, 0][1] <= [0, 0][0] && [7, 0][1] <= [7, 0][0];
  }
}
