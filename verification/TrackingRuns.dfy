/** What every run of the multi-object tracker (thirdparty/tracker/TrackerLib.cpp) guarantees. */
module TrackingRuns {
  // The state invariant of Tracking, what `lost` counts, that ids are not reused, and that matched tracks
  // survive.

  import opened Wrappers
  import opened Assignment
  import opened Tracking

  // ----- lost counts how far behind a track is

  // A track not yet seen or aged in the current frame, and one that was.  `exact` adds that no frame
  // has been skipped so far.
  ghost predicate Waiting(t: Track, frame: int, exact: bool) {
    t.objects != [] && Last(t).frame < frame && (exact ==> t.lost == frame - 1 - Last(t).frame)
  }

  ghost predicate Current(t: Track, frame: int, exact: bool) {
    t.objects != [] && (t.lost == 0 <==> Last(t).frame == frame) && (exact ==> t.lost == frame - Last(t).frame)
  }

  // Halfway through a call: the tracks in `pending` are still waiting.
  ghost predicate Phase(s: State, frame: int, pending: set<nat>, exact: bool) {
    forall id :: id in s.tracks ==>
      if id in pending then Waiting(s.tracks[id], frame, exact) else Current(s.tracks[id], frame, exact)
  }

  // Between calls, `lost` tells whether a track was seen in the last frame, and exactly how long ago
  // it was seen when no frame has been skipped.
  ghost predicate Settled(s: State, frame: int, exact: bool) { Phase(s, frame, {}, exact) }

  lemma AllWaiting(p: Params, s: State, before: int, now: int, exact: bool)
    requires Inv(p, s, before) && before < now && (exact ==> now == before + 1 && Settled(s, before, true))
    ensures Phase(s, now, s.active, exact)
  {
    forall id | id in s.tracks ensures Waiting(s.tracks[id], now, exact) {
      assert InOrder(s.tracks[id], before);
      assert exact ==> Current(s.tracks[id], before, true);
    }
  }

  lemma AppendPhase(p: Params, s: State, i: Input, exact: bool)
    requires Phase(s, i.frame, s.active, exact) && s.active == s.tracks.Keys
    requires i.matchOf.Keys + i.unmatchedTracks == s.active && i.matchOf.Keys !! i.unmatchedTracks
    requires forall t :: t in i.matchOf ==> i.matchOf[t] < |i.dets|
    requires forall d :: d in i.dets ==> d.frame == i.frame
    ensures Phase(Each(p, i, Append, i.matchOf.Keys, s), i.frame, i.unmatchedTracks, exact)
  {
    var s' := Each(p, i, Append, i.matchOf.Keys, s);
    forall id | id in s'.tracks
      ensures if id in i.unmatchedTracks then Waiting(s'.tracks[id], i.frame, exact)
              else Current(s'.tracks[id], i.frame, exact)
    {
      assert Waiting(s.tracks[id], i.frame, exact);
      if id in i.matchOf {
        assert i.dets[i.matchOf[id]] in i.dets;
        AppendedLast(p, s.tracks[id], id, i.dets[i.matchOf[id]]);
      }
    }
  }

  lemma AppendedLast(p: Params, t: Track, id: nat, det: Obj)
    requires AppendTo(p, t, id, det).Some?
    ensures var t' := AppendTo(p, t, id, det).value;
            t'.objects != [] && Last(t') == det.(id := id) && t'.lost == 0 && t'.predicted == det.rect
  {
  }

  lemma {:induction false} AddPhase(s: State, dets: seq<Obj>, ids: set<nat>, n: nat, frame: int,
                                     pending: set<nat>, exact: bool)
    requires Phase(s, frame, pending, exact) && n <= |dets| && forall d :: d in dets ==> d.frame == frame
    requires forall id :: id in s.tracks || id in pending ==> id < s.counter
    ensures var s' := AddTracks(s, dets, ids, n);
            Phase(s', frame, pending, exact) && s.counter <= s'.counter &&
            forall id :: id in s'.tracks || id in pending ==> id < s'.counter
    decreases n
  {
    if n > 0 {
      AddPhase(s, dets, ids, n - 1, frame, pending, exact);
      assert dets[n - 1] in dets;
    }
  }

  lemma AgePhase(p: Params, s: State, i: Input, pending: set<nat>, exact: bool)
    requires Phase(s, i.frame, pending, exact)
    ensures Settled(Each(p, i, Aging, pending, s), i.frame, exact)
  {
    var s' := Each(p, i, Aging, pending, s);
    forall id | id in s'.tracks ensures Current(s'.tracks[id], i.frame, exact) {
      assert if id in pending then Waiting(s.tracks[id], i.frame, exact) else Current(s.tracks[id], i.frame, exact);
    }
  }

  lemma TrimPhase(p: Params, s: State, i: Input, ids: set<nat>, exact: bool)
    requires Settled(s, i.frame, exact)
    ensures Settled(Each(p, i, Trimming, ids, s), i.frame, exact)
  {
    var s' := Each(p, i, Trimming, ids, s);
    forall id | id in s'.tracks ensures Current(s'.tracks[id], i.frame, exact) {
      assert Current(s.tracks[id], i.frame, exact);
    }
  }

  lemma TrackedSettles(p: Params, s: State, i: Input, frame: int, exact: bool)
    requires Inv(p, s, frame) && frame < i.frame && ValidInput(p, s, i)
    requires exact ==> i.frame == frame + 1 && Settled(s, frame, true)
    ensures Settled(Tracked(p, s, i), i.frame, exact)
  {
    AllWaiting(p, s, frame, i.frame, exact);
    if s.active != {} && i.dets != [] {
      MatchedParts(s, i);
      AppendPhase(p, s, i, exact);
      var appended := Each(p, i, Append, i.matchOf.Keys, s);
      AddPhase(appended, i.dets, i.unmatchedDets, |i.dets|, i.frame, i.unmatchedTracks, exact);
      var added := AddTracks(appended, i.dets, i.unmatchedDets, |i.dets|);
      AgePhase(p, added, i, i.unmatchedTracks, exact);
      TrimPhase(p, Each(p, i, Aging, i.unmatchedTracks, added), i, s.active, exact);
    } else {
      AddPhase(s, i.dets, Indices(|i.dets|), |i.dets|, i.frame, s.active, exact);
      AgePhase(p, AddTracks(s, i.dets, Indices(|i.dets|), |i.dets|), i, s.active, exact);
    }
  }

  lemma MergedCurrent(p: Params, s: State, id1: nat, id2: nat, frame: int, exact: bool)
    requires Inv(p, s, frame) && Settled(s, frame, exact) && Mergeable(s, id1, id2) && s.tracks[id2].lost == 0
    ensures Current(Merged(p, s.tracks[id1], s.tracks[id2]), frame, exact)
  {
    var t1, t2 := s.tracks[id1], s.tracks[id2];
    assert InOrder(t1, frame) && InOrder(t2, frame) && Current(t2, frame, exact);
    InterleaveLast(t1.objects, t2.objects, t1.objects[0].id);
  }

  lemma MergeOneSettles(p: Params, s: State, c: Cand, now: int, exact: bool)
    requires Inv(p, s, now) && Settled(s, now, exact) && Mergeable(s, c.track, c.det) && s.tracks[c.det].lost == 0
    ensures Settled(Merge(p, s, c.track, c.det), now, exact)
  {
    var s' := Merge(p, s, c.track, c.det);
    MergedCurrent(p, s, c.track, c.det, now, exact);
    forall id | id in s'.tracks ensures Current(s'.tracks[id], now, exact) {
      assert id != c.track ==> Current(s.tracks[id], now, exact);
    }
  }

  lemma {:induction false} MergeSettles(p: Params, s: State, merges: seq<Cand>, now: int, exact: bool)
    requires Inv(p, s, now) && Settled(s, now, exact) && PlanLeft(s, merges)
    requires forall c :: c in merges ==> s.tracks[c.det].lost == 0
    ensures Settled(MergeAll(p, s, merges), now, exact)
    decreases |merges|
  {
    if merges != [] {
      var c := merges[0];
      PlanMerges(p, s, merges);
      assert c in merges;
      MergeKeepsInv(p, s, c.track, c.det, now);
      MergeOneSettles(p, s, c, now, exact);
      RestUntouched(p, s, merges);
      MergeSettles(p, Merge(p, s, c.track, c.det), merges[1..], now, exact);
    }
  }

  lemma StepSettles(p: Params, s: State, i: Input, frame: int, exact: bool)
    requires Inv(p, s, frame) && frame < i.frame && ValidInput(p, s, i)
    requires exact ==> i.frame == frame + 1 && Settled(s, frame, true)
    ensures Settled(Step(p, s, i), i.frame, exact)
  {
    TrackedKeepsInv(p, s, i, frame);
    TrackedSettles(p, s, i, frame, exact);
    var t := Tracked(p, s, i);
    DropsNothing(p, t, i);
    if p.useRectify {
      PlanStart(p, t, i.senses, i.merges);
      MergeSettles(p, t, i.merges, i.frame, exact);
    }
  }

  // ----- whole runs

  ghost function RunAll(p: Params, s: State, inputs: seq<Input>): State
    decreases inputs
  {
    if inputs == [] then s else RunAll(p, Step(p, s, inputs[0]), inputs[1..])
  }

  // Frame indices increase from call to call.
  ghost predicate ValidRun(p: Params, s: State, frame: int, inputs: seq<Input>)
    decreases inputs
  {
    inputs == [] ||
    (frame < inputs[0].frame && ValidInput(p, s, inputs[0])
     && ValidRun(p, Step(p, s, inputs[0]), inputs[0].frame, inputs[1..]))
  }

  ghost function LastFrame(frame: int, inputs: seq<Input>): int {
    if inputs == [] then frame else inputs[|inputs| - 1].frame
  }

  // After any run: active ids are the tracked ids, ids are below the counter, and every track is a
  // non-empty strictly increasing list of its own objects, within its bounds and not forgotten, as
  // the assertion in AppendToTrack demands.
  lemma {:induction false} RunKeepsInv(p: Params, s: State, frame: int, inputs: seq<Input>)
    requires Inv(p, s, frame) && ValidRun(p, s, frame, inputs)
    ensures Inv(p, RunAll(p, s, inputs), LastFrame(frame, inputs))
    decreases |inputs|
  {
    hide Inv, Step, ValidInput;
    if inputs != [] {
      StepKeepsInv(p, s, inputs[0], frame);
      RunKeepsInv(p, Step(p, s, inputs[0]), inputs[0].frame, inputs[1..]);
    }
  }

  // Any run, whatever its frame indices.
  lemma {:induction false} RunKeepsBase(p: Params, s: State, inputs: seq<Input>)
    requires Base(p, s)
    ensures Base(p, RunAll(p, s, inputs))
    decreases |inputs|
  {
    hide Base, Step;
    if inputs != [] {
      StepKeepsBase(p, s, inputs[0]);
      RunKeepsBase(p, Step(p, s, inputs[0]), inputs[1..]);
    }
  }

  ghost predicate Consecutive(frame: int, inputs: seq<Input>) {
    forall k :: 0 <= k < |inputs| ==> inputs[k].frame == frame + 1 + k
  }

  // After any call `lost` is zero exactly for the tracks seen in it; when no frame is skipped it is the
  // distance from the last object of a track to the current frame.
  lemma {:induction false} RunSettles(p: Params, s: State, frame: int, inputs: seq<Input>, exact: bool)
    requires Inv(p, s, frame) && Settled(s, frame, exact) && ValidRun(p, s, frame, inputs)
    requires exact ==> Consecutive(frame, inputs)
    ensures Settled(RunAll(p, s, inputs), LastFrame(frame, inputs), exact)
    decreases |inputs|
  {
    hide Inv, Step, ValidInput, Settled;
    if inputs != [] {
      var i := inputs[0];
      StepKeepsInv(p, s, i, frame);
      StepSettles(p, s, i, frame, exact);
      assert exact ==> Consecutive(i.frame, inputs[1..]);
      RunSettles(p, Step(p, s, i), i.frame, inputs[1..], exact);
    }
  }

  // Every run from a new tracker.
  lemma EveryRun(p: Params, frame: int, inputs: seq<Input>)
    requires ValidRun(p, Empty, frame, inputs)
    ensures var s := RunAll(p, Empty, inputs);
            var now := LastFrame(frame, inputs);
            && Inv(p, s, now) && Settled(s, now, false)
            && (Consecutive(frame, inputs) ==>
                  forall id :: id in s.tracks ==>
                    && s.tracks[id].lost == now - Last(s.tracks[id]).frame
                    && s.tracks[id].lost <= p.forgetDelay
                    && (s.tracks[id].length < 3 ==> s.tracks[id].lost <= p.forgetDelay / 3))
  {
    var s := RunAll(p, Empty, inputs);
    var now := LastFrame(frame, inputs);
    RunKeepsInv(p, Empty, frame, inputs);
    RunSettles(p, Empty, frame, inputs, false);
    if Consecutive(frame, inputs) {
      RunSettles(p, Empty, frame, inputs, true);
      forall id | id in s.tracks
        ensures s.tracks[id].lost == now - Last(s.tracks[id]).frame && !LostTooLong(p, s.tracks[id])
      {
        assert Current(s.tracks[id], now, true) && TrackOk(p, id, s.tracks[id]);
      }
    }
  }

  // ----- ids are never reused

  lemma StepRevivesNothing(p: Params, s: State, i: Input, id: nat)
    requires s.counter > id && id !in s.tracks
    ensures Step(p, s, i).counter > id && id !in Step(p, s, i).tracks
  {
    AddTracksNew(s, i.dets, Indices(|i.dets|), |i.dets|, id);
    AddTracksNew(Each(p, i, Append, i.matchOf.Keys, s), i.dets, i.unmatchedDets, |i.dets|, id);
    MergeAllOnlyRemoves(p, Dropped(p, Tracked(p, s, i), i), i.merges, id);
  }

  lemma {:induction false} MergeAllOnlyRemoves(p: Params, s: State, merges: seq<Cand>, id: nat)
    requires id !in s.tracks
    ensures id !in MergeAll(p, s, merges).tracks && MergeAll(p, s, merges).counter == s.counter
    decreases merges
  {
    if merges != [] && Mergeable(s, merges[0].track, merges[0].det) {
      MergeAllOnlyRemoves(p, Merge(p, s, merges[0].track, merges[0].det), merges[1..], id);
    }
  }

  // Once an id has been given out and its track is gone, no later call brings it back.
  lemma {:induction false} RunRevivesNothing(p: Params, s: State, inputs: seq<Input>, id: nat)
    requires s.counter > id && id !in s.tracks
    ensures id !in RunAll(p, s, inputs).tracks
    decreases |inputs|
  {
    if inputs != [] {
      StepRevivesNothing(p, s, inputs[0], id);
      RunRevivesNothing(p, Step(p, s, inputs[0]), inputs[1..], id);
    }
  }

  // ----- matched tracks survive

  // A track matched in this frame to a detection with positive size survives the frame checks, unless
  // it was removed as noise.
  lemma MatchedSurvives(p: Params, s: State, i: Input, id: nat)
    requires Base(p, s) && ValidInput(p, s, i) && s.active != {} && i.dets != [] && id in i.matchOf
    requires forall d :: d in i.dets ==> d.rect.w > 0 && d.rect.h > 0
    ensures id in s.tracks && i.matchOf[id] < |i.dets|
    ensures var det := i.dets[i.matchOf[id]];
            var s' := Tracked(p, s, i);
            if AppendTo(p, s.tracks[id], id, det) == None then id !in s'.tracks
            else id in s'.tracks && s'.tracks[id].lost == 0 && s'.tracks[id].objects != [] &&
                 Last(s'.tracks[id]) == det.(id := id)
  {
    MatchedParts(s, i);
    assert i.dets[i.matchOf[id]] in i.dets;
    SurvivesChecks(p, s, i, id);
  }

  lemma SurvivesChecks(p: Params, s: State, i: Input, id: nat)
    requires s.active != {} && i.dets != [] && id in s.tracks && id < s.counter
    requires id in i.matchOf && i.matchOf[id] < |i.dets| && id !in i.unmatchedTracks
    requires i.dets[i.matchOf[id]].rect.w > 0 && i.dets[i.matchOf[id]].rect.h > 0
    ensures var det := i.dets[i.matchOf[id]];
            var s' := Tracked(p, s, i);
            if AppendTo(p, s.tracks[id], id, det) == None then id !in s'.tracks
            else id in s'.tracks && s'.tracks[id].lost == 0 && s'.tracks[id].objects != [] &&
                 Last(s'.tracks[id]) == det.(id := id)
  {
    hide Each, AddTracks, AppendTo;
    AppendedTo(p, s, i, id);
    var appended := Each(p, i, Append, i.matchOf.Keys, s);
    var added := AddTracks(appended, i.dets, i.unmatchedDets, |i.dets|);
    FrameChecks(p, i, i.unmatchedTracks, s.active, added, id);
    if id in appended.tracks {
      AddTracksFrame(appended, i.dets, i.unmatchedDets, |i.dets|, id);
    } else {
      AddTracksNew(appended, i.dets, i.unmatchedDets, |i.dets|, id);
    }
  }

  // What appending the matches does to one matched track.
  lemma AppendedTo(p: Params, s: State, i: Input, id: nat)
    requires id in i.matchOf && id in s.tracks && i.matchOf[id] < |i.dets|
    ensures var s' := Each(p, i, Append, i.matchOf.Keys, s);
            var det := i.dets[i.matchOf[id]];
            && s'.counter == s.counter
            && (id in s'.tracks <==> AppendTo(p, s.tracks[id], id, det).Some?)
            && (id in s'.tracks ==>
                  var t := s'.tracks[id];
                  t.objects != [] && Last(t) == det.(id := id) && t.lost == 0 && t.predicted == det.rect)
  {
    var det := i.dets[i.matchOf[id]];
    if AppendTo(p, s.tracks[id], id, det).Some? { AppendedLast(p, s.tracks[id], id, det); }
  }

  // Ageing leaves other tracks alone, and the frame check keeps a track just seen.
  lemma FrameChecks(p: Params, i: Input, ageing: set<nat>, checked: set<nat>, s: State, id: nat)
    requires id !in ageing
    ensures var s' := Each(p, i, Trimming, checked, Each(p, i, Aging, ageing, s));
            && (id !in s.tracks ==> id !in s'.tracks)
            && (id in s.tracks && s.tracks[id].lost == 0 &&
                s.tracks[id].predicted.w > 0 && s.tracks[id].predicted.h > 0 ==>
                  id in s'.tracks && s'.tracks[id].objects == s.tracks[id].objects && s'.tracks[id].lost == 0)
  {
    var aged := Each(p, i, Aging, ageing, s);
    assert id in aged.tracks <==> id in s.tracks;
    assert id in s.tracks ==> aged.tracks[id] == s.tracks[id];
  }

  lemma {:induction false} AddTracksNew(s: State, dets: seq<Obj>, ids: set<nat>, n: nat, id: nat)
    requires n <= |dets| && id !in s.tracks && id < s.counter
    ensures var s' := AddTracks(s, dets, ids, n); id !in s'.tracks && s.counter <= s'.counter
    decreases n
  {
    if n > 0 { AddTracksNew(s, dets, ids, n - 1, id); }
  }

  lemma {:induction false} AddTracksFrame(s: State, dets: seq<Obj>, ids: set<nat>, n: nat, id: nat)
    requires n <= |dets| && id in s.tracks && id < s.counter
    ensures var s' := AddTracks(s, dets, ids, n);
            id in s'.tracks && s'.tracks[id] == s.tracks[id] && s.counter <= s'.counter
    decreases n
  {
    if n > 0 { AddTracksFrame(s, dets, ids, n - 1, id); }
  }
}
