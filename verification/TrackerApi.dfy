/**
 The entry point of the tracker, thirdparty/tracker/TrackerLib_api.cpp: clamp the detections to the
 frame, track them, and give each detection the id of the track it belongs to.
 */
module TrackerApi {
  import opened Tracking
  import opened TrackingRuns
  import opened Placement
  import opened Tracker

  function Min(x: int, y: int): int { if y < x then y else x }
  function Max(x: int, y: int): int { if x < y then y else x }

  // The part of a rectangle inside the frame, at least one pixel wide and high.
  function Clamp(r: Rect, width: int, height: int): Rect {
    var left, top := Max(0, Min(width - 2, r.x)), Max(0, Min(height - 2, r.y));
    var right, bottom := Max(0, Min(width - 1, r.x + r.w)), Max(0, Min(height - 1, r.y + r.h));
    Rect(left, top, Max(1, right - left), Max(1, bottom - top))
  }

  // A clamped rectangle is never empty; it passes the tracker's frame check exactly when the frame has
  // two rows and columns; and clamping leaves alone what already passes.
  lemma ClampInside(r: Rect, width: int, height: int)
    ensures var c := Clamp(r, width, height);
            && c.w >= 1 && c.h >= 1
            && (!OutOfFrame(c, width, height) <==> width >= 2 && height >= 2)
    ensures r.w >= 1 && r.h >= 1 && !OutOfFrame(r, width, height) ==> Clamp(r, width, height) == r
  {
  }

  function Distance(x: int, y: int): nat { if x < y then y - x else x - y }

  // Along one axis, with the last pixel left out: of a side that meets the frame exactly the pixels in it
  // remain; any other side becomes the one pixel of the frame nearest to where it starts.
  ghost predicate CutOn(low: int, size: int, newLow: int, newSize: int, limit: int) {
    if limit < 1 then newLow == 0 && newSize == 1
    else if size > 0 && low < limit && low + size > 0 then
      newSize > 0 && forall q :: Spans(newLow, newSize, q) <==> Spans(low, size, q) && 0 <= q < limit
    else
      newSize == 1 && 0 <= newLow < limit && forall q :: 0 <= q < limit ==> Distance(newLow, low) <= Distance(q, low)
  }

  ghost predicate CutTo(r: Rect, c: Rect, width: int, height: int) {
    CutOn(r.x, r.w, c.x, c.w, width - 1) && CutOn(r.y, r.h, c.y, c.h, height - 1)
  }

  lemma ClampCuts(r: Rect, width: int, height: int)
    ensures CutTo(r, Clamp(r, width, height), width, height)
  {
  }

  // So the clamped rectangle is the only one for its input.
  lemma CutOnUnique(low: int, size: int, newLow: int, newSize: int, otherLow: int, otherSize: int, limit: int)
    requires CutOn(low, size, newLow, newSize, limit) && CutOn(low, size, otherLow, otherSize, limit)
    ensures newLow == otherLow && newSize == otherSize
  {
    if limit >= 1 {
      if size > 0 && low < limit && low + size > 0 {
        assert Spans(newLow, newSize, newLow) && Spans(otherLow, otherSize, otherLow);
        assert Spans(newLow, newSize, newLow + newSize - 1) && Spans(otherLow, otherSize, otherLow + otherSize - 1);
      } else {
        assert Distance(newLow, low) <= Distance(otherLow, low) <= Distance(newLow, low);
        assert 0 <= low < limit ==> Distance(newLow, low) <= Distance(low, low);
      }
    }
  }

  function Clamped(d: Obj, frame: int, width: int, height: int): Obj {
    Obj(Clamp(d.rect, width, height), d.confidence, frame, d.id)
  }

  function ClampedAll(inputs: seq<Obj>, frame: int, width: int, height: int): (r: seq<Obj>)
    ensures |r| == |inputs|
    ensures forall k :: 0 <= k < |r| ==> r[k] == Clamped(inputs[k], frame, width, height)
  {
    if inputs == [] then []
    else
      ClampedAll(inputs[..|inputs| - 1], frame, width, height) +
      [Clamped(inputs[|inputs| - 1], frame, width, height)]
  }

  // ----- aligning results to inputs

  predicate SameKey(x: Obj, y: Obj) { x.rect == y.rect && x.confidence == y.confidence }

  ghost predicate Found(det: Obj, results: seq<Obj>) { exists r :: r in results && SameKey(r, det) }

  // The id of the first result with the detection's rectangle and confidence.
  function IdOf(det: Obj, results: seq<Obj>, otherwise: int): (id: int)
    ensures Found(det, results) ==> exists r :: r in results && SameKey(r, det) && id == r.id
    ensures !Found(det, results) ==> id == otherwise
  {
    if results == [] then otherwise
    else if SameKey(results[0], det) then
      assert results[0] in results;
      results[0].id
    else IdOf(det, results[1..], otherwise)
  }

  class TrackerLibApi {
    const tracker: TrackerLib
    var frameWidth: int
    var frameHeight: int

    constructor (params: Params)
      ensures fresh(tracker) && tracker.params == params && tracker.Contents() == Empty
    {
      tracker := new TrackerLib(params);
      frameWidth, frameHeight := 0, 0;
    }

    method Run(inputs: seq<Obj>, frame: int, width: int, height: int, affinity: map<(nat, nat), real>,
               predict: map<nat, Rect>, alike: map<(nat, nat), real>, ghost lastFrame: int)
      returns (output: seq<Obj>, ghost i: Input)
      requires Base(tracker.params, tracker.Contents())
      modifies this, tracker
      ensures i.dets == Filtered(tracker.params, ClampedAll(inputs, frame, width, height)) && i.frame == frame
      ensures ValidInput(tracker.params, old(tracker.Contents()), i)
      ensures tracker.Contents() == Step(tracker.params, old(tracker.Contents()), i)
      ensures Base(tracker.params, tracker.Contents())
      ensures old(Inv(tracker.params, tracker.Contents(), lastFrame)) && lastFrame < frame ==>
                Inv(tracker.params, tracker.Contents(), frame) && Settled(tracker.Contents(), frame, false)
      ensures Aligned(inputs, output, frame, width, height,
                      Reported(tracker.params, tracker.Contents(), tracker.counter))
    {
      frameWidth, frameHeight := width, height;
      var clamped := ClampInputs(inputs, frame);
      ghost var before := tracker.Contents();
      forall d | d in clamped ensures d.frame == frame {
        var k :| 0 <= k < |clamped| && clamped[k] == d;
      }
      i := tracker.Process(clamped, frame, width, height, affinity, predict, alike);
      StepKeepsBase(tracker.params, before, i);
      if Inv(tracker.params, before, lastFrame) && lastFrame < frame {
        StepKeepsInv(tracker.params, before, i, lastFrame);
        StepSettles(tracker.params, before, i, lastFrame, false);
      }
      var results := tracker.TrackedDetections();
      output := AlignOutputs(inputs, clamped, results, frame);
    }

    method ClampInputs(inputs: seq<Obj>, frame: int) returns (clamped: seq<Obj>)
      ensures clamped == ClampedAll(inputs, frame, frameWidth, frameHeight)
      ensures forall k :: 0 <= k < |inputs| ==>
                && CutTo(inputs[k].rect, clamped[k].rect, frameWidth, frameHeight)
                && clamped[k].confidence == inputs[k].confidence && clamped[k].frame == frame
    {
      hide CutTo;
      clamped := [];
      for k := 0 to |inputs|
        invariant clamped == ClampedAll(inputs[..k], frame, frameWidth, frameHeight)
      {
        var rect := inputs[k].rect;
        var left, top := Max(0, Min(frameWidth - 2, rect.x)), Max(0, Min(frameHeight - 2, rect.y));
        var right := Max(0, Min(frameWidth - 1, rect.x + rect.w));
        var bottom := Max(0, Min(frameHeight - 1, rect.y + rect.h));
        var w, h := Max(1, right - left), Max(1, bottom - top);
        assert inputs[..k + 1][..k] == inputs[..k];
        clamped := clamped + [Obj(Rect(left, top, w, h), inputs[k].confidence, frame, inputs[k].id)];
      }
      assert inputs[..|inputs|] == inputs;
      forall k | 0 <= k < |inputs| ensures CutTo(inputs[k].rect, clamped[k].rect, frameWidth, frameHeight) {
        ClampCuts(inputs[k].rect, frameWidth, frameHeight);
      }
    }

    method Align(det: Obj, results: seq<Obj>, otherwise: int) returns (id: int)
      ensures id == IdOf(det, results, otherwise)
    {
      id := otherwise;
      for n := 0 to |results|
        invariant id == otherwise && IdOf(det, results, otherwise) == IdOf(det, results[n..], otherwise)
      {
        assert results[n..][1..] == results[n + 1..];
        if SameKey(results[n], det) {
          id := results[n].id;
          break;
        }
      }
    }

    method AlignOutputs(inputs: seq<Obj>, clamped: seq<Obj>, results: seq<Obj>, frame: int) returns (output: seq<Obj>)
      requires clamped == ClampedAll(inputs, frame, frameWidth, frameHeight)
      ensures Aligned(inputs, output, frame, frameWidth, frameHeight, results)
    {
      output := [];
      for k := 0 to |inputs|
        invariant Aligned(inputs[..k], output, frame, frameWidth, frameHeight, results)
      {
        var id := Align(clamped[k], results, inputs[k].id);
        output := output + [Obj(inputs[k].rect, inputs[k].confidence, frame, id)];
      }
      assert inputs[..|inputs|] == inputs;
    }
  }

  // One output per input, in order, with the input's own rectangle and confidence.
  ghost predicate Aligned(inputs: seq<Obj>, output: seq<Obj>, frame: int, width: int, height: int, results: seq<Obj>) {
    && |output| == |inputs|
    && forall k :: 0 <= k < |inputs| ==>
         output[k] == Obj(inputs[k].rect, inputs[k].confidence, frame,
                          IdOf(Clamped(inputs[k], frame, width, height), results, inputs[k].id))
  }

  // ----- what the ids mean

  // A detection is given the id of a live track whose last object is that very detection, in this
  // frame, also when tracks were merged.
  lemma IdIsLiveTrack(p: Params, s: State, now: int, det: Obj, otherwise: int)
    requires Inv(p, s, now) && Settled(s, now, false) && det.frame == now
    ensures var results := Reported(p, s, s.counter);
            var id := IdOf(det, results, otherwise);
            if Found(det, results) then id >= 0 && id in s.tracks && s.tracks[id].objects != [] &&
                                        Last(s.tracks[id]) == det.(id := id)
            else id == otherwise
  {
    var results := Reported(p, s, s.counter);
    if Found(det, results) {
      var r :| r in results && SameKey(r, det) && IdOf(det, results, otherwise) == r.id;
      var id: nat :| id < s.counter && ShownId(p, s, id) && Last(s.tracks[id]) == r;
      assert TrackOk(p, id, s.tracks[id]) && Current(s.tracks[id], now, false);
    }
  }

  // Two detections are given the same track id exactly when they agree in rectangle and confidence.
  lemma SameIdIff(p: Params, s: State, now: int, x: Obj, y: Obj, ox: int, oy: int)
    requires Inv(p, s, now) && Settled(s, now, false) && x.frame == now && y.frame == now
    requires Found(x, Reported(p, s, s.counter)) && Found(y, Reported(p, s, s.counter))
    ensures var results := Reported(p, s, s.counter);
            IdOf(x, results, ox) == IdOf(y, results, oy) <==> SameKey(x, y)
  {
    IdIsLiveTrack(p, s, now, x, ox);
    IdIsLiveTrack(p, s, now, y, oy);
    if SameKey(x, y) { SameKeySameId(x, y, Reported(p, s, s.counter), ox, oy); }
  }

  lemma {:induction false} SameKeySameId(x: Obj, y: Obj, results: seq<Obj>, ox: int, oy: int)
    requires SameKey(x, y) && Found(x, results)
    ensures IdOf(x, results, ox) == IdOf(y, results, oy)
  {
    if !SameKey(results[0], x) {
      assert Found(x, results[1..]);
      SameKeySameId(x, y, results[1..], ox, oy);
    }
  }

  // Because of the clamping, no detection that reaches the tracker is empty, so the frame check never
  // erases a track that was matched in this call.
  lemma ClampedNotEmpty(p: Params, inputs: seq<Obj>, frame: int, width: int, height: int)
    ensures forall d :: d in Filtered(p, ClampedAll(inputs, frame, width, height)) ==> d.rect.w > 0 && d.rect.h > 0
  {
    var all := ClampedAll(inputs, frame, width, height);
    forall d | d in Filtered(p, all) ensures d.rect.w > 0 && d.rect.h > 0 {
      assert d in all;
      var k :| 0 <= k < |all| && all[k] == d;
      ClampInside(inputs[k].rect, width, height);
    }
  }

  // A track matched in this call is gone before rejoining exactly when it was removed as noise.
  lemma MatchedTracksSurvive(p: Params, s: State, i: Input, inputs: seq<Obj>, width: int, height: int, id: nat)
    requires Base(p, s) && ValidInput(p, s, i) && s.active != {} && i.dets != [] && id in i.matchOf
    requires i.dets == Filtered(p, ClampedAll(inputs, i.frame, width, height))
    ensures id in s.tracks && i.matchOf[id] < |i.dets|
    ensures id in Tracked(p, s, i).tracks <==> AppendTo(p, s.tracks[id], id, i.dets[i.matchOf[id]]).Some?
  {
    ClampedNotEmpty(p, inputs, i.frame, width, height);
    MatchedSurvives(p, s, i, id);
  }

  ghost predicate DistinctKeys(dets: seq<Obj>) {
    forall j, k :: 0 <= j < |dets| && 0 <= k < |dets| && SameKey(dets[j], dets[k]) ==> j == k
  }

  // When the keys of the tracked detections are distinct, a detection is given the id of its own track
  // if that is long enough to be reported, and keeps its own id otherwise: when it was filtered out,
  // when its track was removed as noise, or when its track is still short.
  lemma OwnTrackId(p: Params, s: State, dets: seq<Obj>, place: map<nat, nat>, det: Obj, otherwise: int)
    requires Placed(s, dets, place) && DistinctKeys(dets)
    requires s.active == s.tracks.Keys && forall id :: id in s.tracks ==> id < s.counter
    ensures var id := IdOf(det, Reported(p, s, s.counter), otherwise);
            && (forall k :: k in place && SameKey(dets[k], det) ==>
                  id == if Shown(p, s.tracks[place[k]]) then place[k] else otherwise)
            && ((forall k :: k in place ==> !SameKey(dets[k], det)) ==> id == otherwise)
  {
    var results := Reported(p, s, s.counter);
    forall r | r in results && SameKey(r, det)
      ensures exists k :: k in place && SameKey(dets[k], det) && Shown(p, s.tracks[place[k]]) && r.id == place[k]
    {
      var id: nat :| id < s.counter && ShownId(p, s, id) && Last(s.tracks[id]) == r;
      assert id in place.Values;
      var k :| k in place && place[k] == id;
      assert PlacedAt(s, dets[k], id);
    }
    forall k | k in place && SameKey(dets[k], det) && Shown(p, s.tracks[place[k]]) ensures Found(det, results) {
      assert PlacedAt(s, dets[k], place[k]) && ShownId(p, s, place[k]);
      assert SameKey(Last(s.tracks[place[k]]), det);
    }
  }

  // One call, end to end: a place for every detection that passed the filter and was not noise, each in
  // a track of its own, and the id of that track in the output.
  lemma RunIds(p: Params, before: State, i: Input, inputs: seq<Obj>, output: seq<Obj>,
               width: int, height: int, frame: int)
    returns (place: map<nat, nat>)
    requires Inv(p, before, frame) && frame < i.frame && ValidInput(p, before, i)
    requires i.dets == Filtered(p, ClampedAll(inputs, i.frame, width, height)) && DistinctKeys(i.dets)
    requires var s := Step(p, before, i); Aligned(inputs, output, i.frame, width, height, Reported(p, s, s.counter))
    ensures Placed(Step(p, before, i), i.dets, place)
    ensures forall k: nat :: k in place <==> k < |i.dets| && !Noise(p, before, i, k)
    ensures forall j :: 0 <= j < |inputs| ==>
              OwnId(p, Step(p, before, i), i, place, inputs[j], output[j], width, height)
  {
    ClampedNotEmpty(p, inputs, i.frame, width, height);
    place := StepPlaces(p, before, i, frame);
    StepKeepsInv(p, before, i, frame);
    var s := Step(p, before, i);
    forall j | 0 <= j < |inputs| ensures OwnId(p, s, i, place, inputs[j], output[j], width, height) {
      OwnTrackId(p, s, i.dets, place, Clamped(inputs[j], i.frame, width, height), inputs[j].id);
    }
  }

  // x is given the id of its own track, if it has one that is reported, and keeps its id otherwise.
  ghost predicate OwnId(p: Params, s: State, i: Input, place: map<nat, nat>, x: Obj, out: Obj, width: int, height: int)
    requires forall k :: k in place ==> k < |i.dets| && place[k] in s.tracks
  {
    var det := Clamped(x, i.frame, width, height);
    && (forall k :: k in place && SameKey(i.dets[k], det) ==>
          out.id == if Shown(p, s.tracks[place[k]]) then place[k] else x.id)
    && ((forall k :: k in place ==> !SameKey(i.dets[k], det)) ==> out.id == x.id)
  }
}
