/**
 One detection from its first sight to the end of its track (thirdparty/tracker/TrackerLib.cpp): seen in
 the same place in n calls, then hidden for k calls, for all n and k.
 */
module Lifetime {
  import opened Assignment
  import opened Tracking
  import opened TrackingRuns
  import opened FrameOrder
  import opened TrackDecisions

  // ----- the calls

  function SeenAgain(det: Obj, frame: int, width: int, height: int): Input {
    Staying(det, frame).(width := width, height := height)
  }

  // While it is hidden, a track of several objects is predicted to stay.
  function Hidden(det: Obj, frame: int, width: int, height: int): Input {
    Quiet(frame).(width := width, height := height, senses := NoSenses.(predict := map[1 := det.rect]))
  }

  function CallAt(det: Obj, start: int, n: nat, width: int, height: int, j: nat): Input {
    if j == 0 then Appearing(det, start)            // there is no previous frame, so no frame size
    else if j < n then SeenAgain(det, start + j, width, height)
    else Hidden(det, start + j, width, height)
  }

  function Calls(det: Obj, start: int, n: nat, width: int, height: int, m: nat): (inputs: seq<Input>)
    ensures |inputs| == m
  {
    if m == 0 then [] else Calls(det, start, n, width, height, m - 1) + [CallAt(det, start, n, width, height, m - 1)]
  }

  // How long a hidden track is kept: a third of the delay for tracks of less than three detections and for
  // those that touch the border.
  function Patience(p: Params, rect: Rect, length: nat, width: int, height: int): nat {
    if length < 3 || rect.x < 0 || rect.y < 0 || rect.x + rect.w > width - 1 || rect.y + rect.h > height - 1
    then p.forgetDelay / 3 else p.forgetDelay
  }

  // ----- ageing

  // An unmatched track is kept exactly while its predicted rectangle has a size and its patience lasts.
  lemma AgeKeepsIff(p: Params, t: Track, predicted: Rect, width: int, height: int)
    ensures var r := Age(p, t, predicted, width, height);
            && (r.Some? <==>
                predicted.w > 0 && predicted.h > 0 && t.lost + 1 <= Patience(p, predicted, t.length, width, height))
            && (r.Some? ==> r.value.objects == t.objects && r.value.length == t.length && r.value.lost == t.lost + 1 &&
                            r.value.predicted == TrimRect(predicted, width, height))
  {
  }

  // The same for a whole call; a track of one object is predicted to stay.  When there are detections, the
  // trimmed rectangle is looked at once more, so that it must also start before the last column and row.
  lemma UnmatchedKeptIff(p: Params, s: State, i: Input, id: nat)
    requires Base(p, s) && ValidInput(p, s, i) && id in s.tracks
    requires i.dets != [] ==> id in i.unmatchedTracks
    ensures var t, s' := s.tracks[id], Tracked(p, s, i);
            var r := Predicted(i.senses, id, t);
            && (id in s'.tracks <==>
                && r.w > 0 && r.h > 0 && t.lost + 1 <= Patience(p, r, t.length, i.width, i.height)
                && (i.dets != [] ==> r.x < i.width - 1 && r.y < i.height - 1))
            && (id in s'.tracks ==> s'.tracks[id].objects == t.objects && s'.tracks[id].lost == t.lost + 1)
            && (|t.objects| == 1 ==> r == t.objects[0].rect)
  {
    var t := s.tracks[id];
    var r := Predicted(i.senses, id, t);
    AgeKeepsIff(p, t, r, i.width, i.height);
    if i.dets != [] {
      MatchedParts(s, i);
      var appended := Each(p, i, Append, i.matchOf.Keys, s);
      assert id in appended.tracks && appended.tracks[id] == t;
      AddTracksFrame(appended, i.dets, i.unmatchedDets, |i.dets|, id);
      hide AddTracks, Age, Patience;
      AgedTwice(p, i, s.active, AddTracks(appended, i.dets, i.unmatchedDets, |i.dets|), id);
    } else {
      assert AddTracks(s, i.dets, Indices(0), 0) == s;
    }
  }

  lemma AgedTwice(p: Params, i: Input, checked: set<nat>, s: State, id: nat)
    requires id in s.tracks && id in i.unmatchedTracks && id in checked
    ensures var t, s' := s.tracks[id], Each(p, i, Trimming, checked, Each(p, i, Aging, i.unmatchedTracks, s));
            var r := Predicted(i.senses, id, t);
            var aged := Age(p, t, r, i.width, i.height);
            && (id in s'.tracks <==> aged.Some? && r.x < i.width - 1 && r.y < i.height - 1)
            && (id in s'.tracks ==> s'.tracks[id].objects == t.objects && s'.tracks[id].lost == t.lost + 1)
  {
  }

  // ----- the states

  // All objects of a track are in one place, `last` the latest and last of them.
  ghost predicate InPlace(t: Track, last: Obj) {
    && t.objects != [] && Last(t) == last
    && forall k :: 0 <= k < |t.objects| ==> t.objects[k].rect == last.rect && t.objects[k].frame <= last.frame
  }

  // Track 1 alone, with its last object and how long it has been lost.
  ghost predicate OnlyTrack(s: State, last: Obj, length: nat, lost: nat) {
    && s.active == {1} && s.counter == 2 && s.tracks.Keys == {1}
    && InPlace(s.tracks[1], last) && s.tracks[1].length == length && s.tracks[1].lost == lost
  }

  ghost predicate NoTrack(s: State) { s.active == {} && s.counter == 2 && s.tracks == map[] }

  lemma FirstSeen(p: Params, det: Obj, frame: int)
    ensures var i := Appearing(det, frame);
            ValidInput(p, Empty, i) && OnlyTrack(Step(p, Empty, i), det.(frame := frame, id := 1), 1, 0)
  {
    AppearingStep(p, det, frame);
    hide Step, ValidInput;
  }

  lemma MatchedAgain(s: State, i: Input)
    requires s.active == {1} && |i.dets| == 1 && i.senses.similarity == [Cand(1, 0, 1.0)]
    requires i.matchOf == map[1 := 0] && i.unmatchedTracks == {} && i.unmatchedDets == {}
    ensures Matched(s, i) && InRange(i.senses.similarity, s.active, |i.dets|)
  {
    var c := Cand(1, 0, 1.0);
    assert Free({c}, c) == {} && [c][1..] == [];
    assert Elements([c]) == {c} && BestFirst({c}, [c]);
    assert Indices(1) == {0};
    assert Solved({1}, 1, [c], {}, {}, {c}, [c]);
    assert MatchesOf({c}, i.matchOf);
  }

  // A detection of positive size in the same place as the last one is appended.
  lemma AppendSamePlace(p: Params, t: Track, det: Obj)
    requires t.objects != [] && InPlace(t, Last(t)) && Last(t).frame <= det.frame
    requires Last(t).rect == det.rect && det.rect.w > 0 && det.rect.h > 0
    ensures AppendTo(p, t, 1, det).Some?
    ensures var t' := AppendTo(p, t, 1, det).value;
            InPlace(t', det.(id := 1)) && t'.length == t.length + 1 && t'.lost == 0 && t'.predicted == det.rect
  {
    var side := if det.rect.w < det.rect.h then det.rect.w else det.rect.h;
    assert side * side > 0;
  }

  lemma SeenStep(p: Params, s: State, det: Obj, frame: int, width: int, height: int, last: Obj, length: nat)
    requires Base(p, s) && OnlyTrack(s, last, length, 0) && last.rect == det.rect && last.frame <= frame
    requires det.rect.w > 0 && det.rect.h > 0
    ensures var i := SeenAgain(det, frame, width, height);
            ValidInput(p, s, i) && OnlyTrack(Step(p, s, i), det.(frame := frame, id := 1), length + 1, 0)
  {
    var i := SeenAgain(det, frame, width, height);
    MatchedAgain(s, i);
    NothingToMerge(p, s, i);
    SeenTracked(p, s, i, det, last, length);
    hide Matched, Tracked, Step, OnlyTrack;
  }

  lemma SeenTracked(p: Params, s: State, i: Input, det: Obj, last: Obj, length: nat)
    requires i == SeenAgain(det, i.frame, i.width, i.height)
    requires OnlyTrack(s, last, length, 0) && last.rect == det.rect && last.frame <= i.frame
    requires det.rect.w > 0 && det.rect.h > 0
    ensures OnlyTrack(Tracked(p, s, i), det.(frame := i.frame, id := 1), length + 1, 0)
  {
    AppendSamePlace(p, s.tracks[1], i.dets[0]);
    hide AppendTo, InPlace;
    var appended := Each(p, i, Append, {1}, s);
    assert i.matchOf.Keys == {1};
    assert AddTracks(appended, i.dets, {}, 0) == appended;
    EachNone(p, i, Aging, appended);
    assert Tracked(p, s, i) == Each(p, i, Trimming, {1}, appended);
    TrimKeepsPlace(p, i, appended, det.(frame := i.frame, id := 1), length + 1);
  }

  lemma TrimKeepsPlace(p: Params, i: Input, s: State, last: Obj, length: nat)
    requires OnlyTrack(s, last, length, 0) && s.tracks[1].predicted == last.rect && last.rect.w > 0 && last.rect.h > 0
    ensures OnlyTrack(Each(p, i, Trimming, {1}, s), last, length, 0)
  {
  }

  lemma HiddenStep(p: Params, s: State, det: Obj, frame: int, width: int, height: int,
                   last: Obj, length: nat, lost: nat)
    requires Base(p, s) && OnlyTrack(s, last, length, lost) && last.rect == det.rect && det.rect.w > 0 && det.rect.h > 0
    ensures var i := Hidden(det, frame, width, height);
            && ValidInput(p, s, i)
            && if lost + 1 <= Patience(p, det.rect, length, width, height)
               then OnlyTrack(Step(p, s, i), last, length, lost + 1) else NoTrack(Step(p, s, i))
  {
    var i := Hidden(det, frame, width, height);
    NothingToMerge(p, s, i);
    assert AddTracks(s, i.dets, Indices(0), 0) == s;
    assert Predicted(i.senses, 1, s.tracks[1]) == det.rect;
    assert Tracked(p, s, i) == Each(p, i, Aging, {1}, s);
  }

  lemma NothingLeft(p: Params, s: State, det: Obj, frame: int, width: int, height: int)
    requires NoTrack(s)
    ensures var i := Hidden(det, frame, width, height);
            ValidInput(p, s, i) && NoTrack(Step(p, s, i))
  {
    var i := Hidden(det, frame, width, height);
    EachNone(p, i, Aging, s);
    assert AddTracks(s, [], Indices(0), 0) == s;
    NothingToMerge(p, s, i);
  }

  // ----- the whole life

  lemma {:induction false} RunSnoc(p: Params, s: State, inputs: seq<Input>, i: Input)
    ensures RunAll(p, s, inputs + [i]) == Step(p, RunAll(p, s, inputs), i)
    ensures ValidCalls(p, s, inputs + [i]) <==> ValidCalls(p, s, inputs) && ValidInput(p, RunAll(p, s, inputs), i)
    decreases |inputs|
  {
    hide Step, ValidInput;
    if inputs == [] {
      assert ([] + [i])[1..] == [];
    } else {
      assert (inputs + [i])[1..] == inputs[1..] + [i];
      RunSnoc(p, Step(p, s, inputs[0]), inputs[1..], i);
    }
  }

  // Where m calls lead.
  ghost predicate LivesTo(p: Params, s: State, det: Obj, start: int, n: nat, width: int, height: int, m: nat) {
    if m <= n then m > 0 && OnlyTrack(s, det.(frame := start + m - 1, id := 1), m, 0)
    else if m - n <= Patience(p, det.rect, n, width, height)
    then n > 0 && OnlyTrack(s, det.(frame := start + n - 1, id := 1), n, m - n)
    else NoTrack(s)
  }

  lemma {:induction false} Lives(p: Params, det: Obj, start: int, n: nat, width: int, height: int, m: nat)
    requires n > 0 && m > 0 && det.rect.w > 0 && det.rect.h > 0
    ensures var inputs := Calls(det, start, n, width, height, m);
            ValidCalls(p, Empty, inputs) && LivesTo(p, RunAll(p, Empty, inputs), det, start, n, width, height, m)
    decreases m
  {
    hide ValidInput, Step, OnlyTrack, NoTrack, Patience;
    var i := CallAt(det, start, n, width, height, m - 1);
    var before := Calls(det, start, n, width, height, m - 1);
    RunSnoc(p, Empty, before, i);
    var s := RunAll(p, Empty, before);
    if m == 1 {
      FirstSeen(p, det, start);
    } else {
      Lives(p, det, start, n, width, height, m - 1);
      RunKeepsBase(p, Empty, before);
      LivesOn(p, s, det, start, n, width, height, m - 1);
    }
  }

  lemma LivesOn(p: Params, s: State, det: Obj, start: int, n: nat, width: int, height: int, m: nat)
    requires n > 0 && m > 0 && det.rect.w > 0 && det.rect.h > 0 && Base(p, s)
    requires LivesTo(p, s, det, start, n, width, height, m)
    ensures var i := CallAt(det, start, n, width, height, m);
            ValidInput(p, s, i) && LivesTo(p, Step(p, s, i), det, start, n, width, height, m + 1)
  {
    hide ValidInput, Step, OnlyTrack, NoTrack, Patience, Base;
    if m < n {
      SeenStep(p, s, det, start + m, width, height, det.(frame := start + m - 1, id := 1), m);
    } else if m - n <= Patience(p, det.rect, n, width, height) {
      HiddenStep(p, s, det, start + m, width, height, det.(frame := start + n - 1, id := 1), n, m - n);
    } else {
      NothingLeft(p, s, det, start + m, width, height);
    }
  }

  // A detection seen in n calls and hidden in the next k: its track is there with all n detections counted
  // exactly as long as k is within the delay, a third of it for short tracks and at the border, and gone
  // afterwards; it is reported exactly while it is seen and after more than the minimal number of calls.
  lemma LifeOfTrack(p: Params, det: Obj, start: int, n: nat, k: nat, width: int, height: int)
    requires n > 0 && det.rect.w > 0 && det.rect.h > 0
    ensures var inputs := Calls(det, start, n, width, height, n + k);
            var s := RunAll(p, Empty, inputs);
            var last := det.(frame := start + n - 1, id := 1);
            && ValidCalls(p, Empty, inputs)
            && (if k == 0 || k <= Patience(p, det.rect, n, width, height) then OnlyTrack(s, last, n, k) else NoTrack(s))
            && Reported(p, s, s.counter) == if k == 0 && n > p.minTrackDuration then [last] else []
  {
    var s := RunAll(p, Empty, Calls(det, start, n, width, height, n + k));
    Lives(p, det, start, n, width, height, n + k);
    hide RunAll, Calls, ValidCalls, OnlyTrack, NoTrack, Patience, Reported;
    if k == 0 || k <= Patience(p, det.rect, n, width, height) {
      OnlyReport(p, s, det.(frame := start + n - 1, id := 1), n, k);
    } else {
      NoReport(p, s);
    }
  }

  lemma OnlyReport(p: Params, s: State, last: Obj, length: nat, lost: nat)
    requires OnlyTrack(s, last, length, lost)
    ensures Reported(p, s, s.counter) == if lost == 0 && length > p.minTrackDuration then [last] else []
  {
    assert Reported(p, s, 0) == [] && Reported(p, s, 1) == [];
    assert Reported(p, s, 2) == Reported(p, s, 1) + if ShownId(p, s, 1) then [Last(s.tracks[1])] else [];
  }

  lemma NoReport(p: Params, s: State)
    requires NoTrack(s)
    ensures Reported(p, s, s.counter) == []
  {
    assert Reported(p, s, 0) == [] && Reported(p, s, 1) == [];
  }

  // ----- coming back

  // The detection is back but was not matched to track 1; the two tracks look alike.
  function Returning(det: Obj, frame: int, width: int, height: int, affinity: real, merges: seq<Cand>): Input {
    Input([det.(frame := frame)], frame, width, height,
          Senses([], map[1 := det.rect], map[(1, 2) := affinity]), map[], {1}, {0}, merges)
  }

  predicate InFrame(r: Rect, width: int, height: int) {
    r.x >= 0 && r.y >= 0 && r.w > 0 && r.h > 0 && r.x + r.w <= width - 1 && r.y + r.h <= height - 1
  }

  // The old track, lost, and a new one of a single object.
  ghost predicate TwoTracks(s: State, last: Obj, length: nat, lost: nat, back: Obj) {
    && s.active == {1, 2} && s.counter == 3 && s.tracks.Keys == {1, 2}
    && InPlace(s.tracks[1], last) && s.tracks[1].length == length && s.tracks[1].lost == lost
    && s.tracks[2] == NewTrack(back, 2)
  }

  lemma ReturnIsUnmatched(s: State, i: Input)
    requires s.active == {1} && |i.dets| == 1 && i.senses.similarity == [] && i.matchOf == map[]
    requires i.unmatchedTracks == {1} && i.unmatchedDets == {0}
    ensures Matched(s, i) && InRange(i.senses.similarity, s.active, |i.dets|)
  {
    assert Elements([]) == {} && BestFirst({}, []);
    assert Indices(1) == {0};
    assert Solved({1}, 1, [], {1}, {0}, {}, []);
    assert MatchesOf({}, i.matchOf);
  }

  lemma ReturnTracked(p: Params, s: State, i: Input, det: Obj, last: Obj, length: nat, lost: nat)
    requires OnlyTrack(s, last, length, lost) && last.rect == det.rect && InFrame(det.rect, i.width, i.height)
    requires (1, 2) in i.senses.alike
    requires i == Returning(det, i.frame, i.width, i.height, i.senses.alike[(1, 2)], i.merges)
    requires lost + 1 <= Patience(p, det.rect, length, i.width, i.height)
    ensures TwoTracks(Tracked(p, s, i), last, length, lost + 1, det.(frame := i.frame))
  {
    EachNone(p, i, Append, s);
    assert i.matchOf.Keys == {};
    assert AddTracks(s, i.dets, {0}, 0) == s;
    var added := AddTracks(s, i.dets, {0}, 1);
    assert added == AddTrack(s, det.(frame := i.frame));
    var aged := Each(p, i, Aging, {1}, added);
    assert Predicted(i.senses, 1, s.tracks[1]) == det.rect;
    assert TwoTracks(aged, last, length, lost + 1, det.(frame := i.frame)) && aged.tracks[1].predicted == det.rect;
  }

  lemma {:induction false} RelabelLast(a: seq<Obj>, x: Obj, id: int)
    requires forall k :: 0 <= k < |a| ==> a[k].frame < x.frame
    ensures NeverMeet(a, [x]) && Interleave(a, [x], id) == a + [x.(id := id)]
  {
    if a != [] {
      RelabelLast(a[1..], x, id);
      assert [a[0]] + (a[1..] + [x.(id := id)]) == a + [x.(id := id)];
    }
  }

  // The two are rejoined at once when the new track is as old as Rectify waits for and the old one was long
  // enough to be reported; everything else is in favour of it.
  predicate JoinsAtOnce(p: Params, length: nat) { p.rectifyLength == 1.0 && length > p.minTrackDuration }

  lemma ReturnRejoins(p: Params, t: State, senses: Senses, c: Cand, last: Obj, length: nat, lost: nat, back: Obj)
    requires TwoTracks(t, last, length, lost, back) && lost > 0 && last.frame < back.frame && last.rect == back.rect
    requires senses.alike.Keys == {(1, 2)} && back.rect.w >= 0 && back.rect.h >= 0
    ensures Rejoins(p, t, senses, c) <==> c == Cand(1, 2, senses.alike[(1, 2)]) && JoinsAtOnce(p, length)
  {
    var a, b := t.tracks[1].objects, t.tracks[2].objects;
    if c.track == 1 && c.det == 2 {
      RelabelLast(a, b[0], 1);
      NeverMeetSymmetric(a, b);
      hide NeverMeet, NearEnough, Nearest;
      SamePlaceNear(b, a, last.rect);
    }
  }

  // The track the two are rejoined to.
  lemma ReturnMerged(p: Params, t1: Track, t2: Track, back: Obj)
    requires t1.objects != [] && InPlace(t1, Last(t1)) && Last(t1).rect == back.rect && Last(t1).frame < back.frame
    requires t1.objects[0].id == 1 && t2 == NewTrack(back, 2)
    ensures NeverMeet(t1.objects, t2.objects)
    ensures var m := Merged(p, t1, t2);
            InPlace(m, back.(id := 1)) && m.length == t1.length + 1 && m.lost == 0
  {
    var a, x := t1.objects, back.(id := 2);
    RelabelLast(a, x, 1);
    hide NeverMeet, Interleave;
  }

  ghost predicate Rejoined(s: State, back: Obj, length: nat) {
    && s.active == {1} && s.counter == 3 && s.tracks.Keys == {1}
    && InPlace(s.tracks[1], back) && s.tracks[1].length == length && s.tracks[1].lost == 0
  }

  function ReturnMerges(p: Params, length: nat, affinity: real): seq<Cand> {
    if p.useRectify && JoinsAtOnce(p, length) then [Cand(1, 2, affinity)] else []
  }

  lemma ReturnPlan(p: Params, t: State, senses: Senses, last: Obj, length: nat, lost: nat, back: Obj)
    requires TwoTracks(t, last, length, lost, back) && lost > 0 && last.frame < back.frame && last.rect == back.rect
    requires senses.alike.Keys == {(1, 2)} && back.rect.w >= 0 && back.rect.h >= 0 && p.useRectify
    ensures Plan(p, t, senses, ReturnMerges(p, length, senses.alike[(1, 2)]))
  {
    var c := Cand(1, 2, senses.alike[(1, 2)]);
    forall d ensures Rejoins(p, t, senses, d) <==> d == c && JoinsAtOnce(p, length) {
      ReturnRejoins(p, t, senses, d, last, length, lost, back);
    }
    hide Rejoins, TwoTracks;
    var merges := ReturnMerges(p, length, senses.alike[(1, 2)]);
    var cands: set<Cand> := if JoinsAtOnce(p, length) then {c} else {};
    assert BestFirst({}, []);
    assert Free({c}, c) == {} && [c][1..] == [];
    assert BestFirst(cands, merges) && AllRejoining(p, t, senses, cands);
  }

  lemma ReturnMergeAll(p: Params, t: State, last: Obj, length: nat, lost: nat, back: Obj, c: Cand)
    requires TwoTracks(t, last, length, lost, back) && last.frame < back.frame && last.rect == back.rect
    requires t.tracks[1].objects[0].id == 1 && c.track == 1 && c.det == 2
    ensures Rejoined(MergeAll(p, t, [c]), back.(id := 1), length + 1)
  {
    ReturnMerged(p, t.tracks[1], t.tracks[2], back);
    hide Merged, NeverMeet, InPlace;
    assert Mergeable(t, 1, 2);
    assert [c][1..] == [];
    assert MergeAll(p, t, [c]) == MergeAll(p, Merge(p, t, 1, 2), []) == Merge(p, t, 1, 2);
  }

  lemma ReturnStep(p: Params, s: State, det: Obj, frame: int, width: int, height: int, affinity: real,
                   last: Obj, length: nat, lost: nat)
    requires Base(p, s) && OnlyTrack(s, last, length, lost) && last.rect == det.rect && last.frame < frame
    requires InFrame(det.rect, width, height) && lost + 1 <= Patience(p, det.rect, length, width, height)
    ensures var i := Returning(det, frame, width, height, affinity, ReturnMerges(p, length, affinity));
            && ValidInput(p, s, i)
            && if p.useRectify && JoinsAtOnce(p, length)
               then Rejoined(Step(p, s, i), det.(frame := frame, id := 1), length + 1)
               else TwoTracks(Step(p, s, i), last, length, lost + 1, det.(frame := frame))
  {
    var back := det.(frame := frame);
    var i := Returning(det, frame, width, height, affinity, ReturnMerges(p, length, affinity));
    ReturnIsUnmatched(s, i);
    ReturnTracked(p, s, i, det, last, length, lost);
    TrackedKeepsBase(p, s, i);
    var t := Tracked(p, s, i);
    DropsNothing(p, t, i);
    if p.useRectify { ReturnPlan(p, t, i.senses, last, length, lost + 1, back); }
    hide Plan, Tracked, Dropped, Matched, Patience;
    assert TrackOk(p, 1, t.tracks[1]);
    if p.useRectify && JoinsAtOnce(p, length) {
      ReturnMergeAll(p, t, last, length, lost + 1, back, Cand(1, 2, affinity));
    }
  }

  // A detection seen in n calls and hidden in k comes back to its place in time, but is not matched: it
  // starts track 2, which Rectify at once joins to track 1 exactly when it waits for a length of 1 and track 1
  // was long enough to be reported.
  lemma ComesBack(p: Params, det: Obj, start: int, n: nat, k: nat, width: int, height: int, affinity: real)
    requires n > 0 && InFrame(det.rect, width, height) && k + 1 <= Patience(p, det.rect, n, width, height)
    ensures var i := Returning(det, start + n + k, width, height, affinity, ReturnMerges(p, n, affinity));
            var inputs := Calls(det, start, n, width, height, n + k) + [i];
            var s := RunAll(p, Empty, inputs);
            && ValidCalls(p, Empty, inputs)
            && if p.useRectify && p.rectifyLength == 1.0 && n > p.minTrackDuration
               then Rejoined(s, det.(frame := start + n + k, id := 1), n + 1)
               else TwoTracks(s, det.(frame := start + n - 1, id := 1), n, k + 1, det.(frame := start + n + k))
  {
    hide Step, ValidInput, OnlyTrack, TwoTracks, Rejoined, Patience;
    var i := Returning(det, start + n + k, width, height, affinity, ReturnMerges(p, n, affinity));
    var before := Calls(det, start, n, width, height, n + k);
    LifeOfTrack(p, det, start, n, k, width, height);
    RunKeepsBase(p, Empty, before);
    RunSnoc(p, Empty, before, i);
    ReturnStep(p, RunAll(p, Empty, before), det, start + n + k, width, height, affinity,
               det.(frame := start + n - 1, id := 1), n, k);
  }
}
