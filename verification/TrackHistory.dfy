/**
 What a track of thirdparty/tracker/TrackerLib.cpp remembers, in every run: how many objects it keeps and
 which, and that its first object is its earliest.
 */
module TrackHistory {
  import opened Assignment
  import opened Tracking
  import opened TrackingRuns

  // Of a list the newest are kept, as many as the limit allows; a limit of 0 or less allows all.
  lemma LastNIs<T>(s: seq<T>, n: int)
    ensures |LastN(s, n)| == if 0 < n < |s| then n else |s|
    ensures s[..|s| - |LastN(s, n)|] + LastN(s, n) == s
  {
  }

  // ----- how many objects

  // length counts every object the track ever had, also those of the tracks merged into it; of these it
  // keeps as many as the limit allows.
  predicate Complete(p: Params, t: Track) {
    |t.objects| == if 0 < p.maxObjects < t.length then p.maxObjects else t.length
  }

  ghost predicate AllComplete(p: Params, s: State) {
    forall id :: id in s.tracks ==> Complete(p, s.tracks[id])
  }

  lemma EachComplete(p: Params, i: Input, op: Op, ids: set<nat>, s: State)
    requires AllComplete(p, s)
    ensures AllComplete(p, Each(p, i, op, ids, s))
  {
    var s' := Each(p, i, op, ids, s);
    forall id | id in s'.tracks ensures Complete(p, s'.tracks[id]) {
      ApplyComplete(p, i, op, id, s.tracks[id]);
    }
  }

  lemma ApplyComplete(p: Params, i: Input, op: Op, id: nat, t: Track)
    requires Complete(p, t)
    ensures Apply(p, i, op, id, t).Some? ==> Complete(p, Apply(p, i, op, id, t).value)
  {
    if op == Append && id in i.matchOf && i.matchOf[id] < |i.dets| {
      LastNIs(t.objects + [i.dets[i.matchOf[id]].(id := id)], p.maxObjects);
    }
  }

  lemma {:induction false} AddTracksComplete(p: Params, s: State, dets: seq<Obj>, ids: set<nat>, n: nat)
    requires AllComplete(p, s) && n <= |dets|
    ensures AllComplete(p, AddTracks(s, dets, ids, n))
    decreases n
  {
    if n > 0 { AddTracksComplete(p, s, dets, ids, n - 1); }
  }

  lemma {:induction false} InterleaveLength(a: seq<Obj>, b: seq<Obj>, id: int)
    requires NeverMeet(a, b)
    ensures |Interleave(a, b, id)| == |a| + |b|
    decreases |a| + |b|
  {
    if a == [] && b == [] {
    } else if b == [] || (a != [] && a[0].frame < b[0].frame) {
      InterleaveLength(a[1..], b, id);
    } else {
      InterleaveLength(a, b[1..], id);
    }
  }

  // Merging adds the lengths.
  lemma MergedComplete(p: Params, t1: Track, t2: Track)
    requires t1.objects != [] && t2.objects != [] && NeverMeet(t1.objects, t2.objects)
    requires Complete(p, t1) && Complete(p, t2)
    ensures Complete(p, Merged(p, t1, t2)) && Merged(p, t1, t2).length == t1.length + t2.length
  {
    InterleaveLength(t1.objects, t2.objects, t1.objects[0].id);
    LastNIs(Interleave(t1.objects, t2.objects, t1.objects[0].id), p.maxObjects);
  }

  lemma {:induction false} MergeAllComplete(p: Params, s: State, merges: seq<Cand>)
    requires AllComplete(p, s)
    ensures AllComplete(p, MergeAll(p, s, merges))
    decreases merges
  {
    if merges != [] && Mergeable(s, merges[0].track, merges[0].det) {
      MergedComplete(p, s.tracks[merges[0].track], s.tracks[merges[0].det]);
      MergeAllComplete(p, Merge(p, s, merges[0].track, merges[0].det), merges[1..]);
    }
  }

  lemma StepComplete(p: Params, s: State, i: Input)
    requires AllComplete(p, s)
    ensures AllComplete(p, Step(p, s, i))
  {
    hide AllComplete, Each, AddTracks, MergeAll;
    if s.active != {} && i.dets != [] {
      var appended := Each(p, i, Append, i.matchOf.Keys, s);
      EachComplete(p, i, Append, i.matchOf.Keys, s);
      AddTracksComplete(p, appended, i.dets, i.unmatchedDets, |i.dets|);
      var added := AddTracks(appended, i.dets, i.unmatchedDets, |i.dets|);
      EachComplete(p, i, Aging, i.unmatchedTracks, added);
      EachComplete(p, i, Trimming, s.active, Each(p, i, Aging, i.unmatchedTracks, added));
    } else {
      AddTracksComplete(p, s, i.dets, Indices(|i.dets|), |i.dets|);
      EachComplete(p, i, Aging, s.active, AddTracks(s, i.dets, Indices(|i.dets|), |i.dets|));
    }
    var t := Tracked(p, s, i);
    if p.dropForgotten { EachComplete(p, i, Dropping, t.tracks.Keys, t); }
    MergeAllComplete(p, Dropped(p, t, i), i.merges);
  }

  // In every run from a new tracker, whatever its frame indices.
  lemma {:induction false} RunComplete(p: Params, s: State, inputs: seq<Input>)
    requires AllComplete(p, s)
    ensures AllComplete(p, RunAll(p, s, inputs))
    decreases |inputs|
  {
    hide AllComplete, Step;
    if inputs != [] {
      StepComplete(p, s, inputs[0]);
      RunComplete(p, Step(p, s, inputs[0]), inputs[1..]);
    }
  }

  // ----- the first object

  ghost predicate FirstIsEarliest(t: Track) {
    forall k :: 0 <= k < |t.objects| ==> t.first.frame <= t.objects[k].frame
  }

  ghost predicate AllFirst(s: State) {
    forall id :: id in s.tracks ==> FirstIsEarliest(s.tracks[id])
  }

  lemma AppendFirst(p: Params, id: nat, t: Track, det: Obj, frame: int)
    requires FirstIsEarliest(t) && InOrder(t, frame) && frame <= det.frame && AppendTo(p, t, id, det).Some?
    ensures FirstIsEarliest(AppendTo(p, t, id, det).value)
  {
    hide Jumps, LastN;
    var all := t.objects + [det.(id := id)];
    var r := LastN(all, p.maxObjects);
    LastNIs(all, p.maxObjects);
    assert t.first.frame <= Last(t).frame;
    forall k | 0 <= k < |r| ensures t.first.frame <= r[k].frame {
      assert r[k] == all[|all| - |r| + k];
    }
  }

  lemma ApplyFirst(p: Params, i: Input, op: Op, id: nat, t: Track, frame: int)
    requires FirstIsEarliest(t) && InOrder(t, frame) && frame <= i.frame
    requires forall d :: d in i.dets ==> d.frame == i.frame
    ensures Apply(p, i, op, id, t).Some? ==> FirstIsEarliest(Apply(p, i, op, id, t).value)
  {
    if op == Append && id in i.matchOf && i.matchOf[id] < |i.dets| {
      var det := i.dets[i.matchOf[id]];
      assert det in i.dets;
      hide AppendTo, InOrder, FirstIsEarliest;
      if AppendTo(p, t, id, det).Some? { AppendFirst(p, id, t, det, frame); }
    }
  }

  lemma EachFirst(p: Params, i: Input, op: Op, ids: set<nat>, s: State, frame: int)
    requires AllFirst(s) && Ordered(s, frame) && frame <= i.frame
    requires forall d :: d in i.dets ==> d.frame == i.frame
    ensures AllFirst(Each(p, i, op, ids, s))
  {
    var s' := Each(p, i, op, ids, s);
    forall id | id in s'.tracks ensures FirstIsEarliest(s'.tracks[id]) {
      ApplyFirst(p, i, op, id, s.tracks[id], frame);
    }
  }

  lemma {:induction false} AddTracksFirst(s: State, dets: seq<Obj>, ids: set<nat>, n: nat)
    requires AllFirst(s) && n <= |dets|
    ensures AllFirst(AddTracks(s, dets, ids, n))
    decreases n
  {
    if n > 0 { AddTracksFirst(s, dets, ids, n - 1); }
  }

  // The first object of a merge is that of the track that starts earlier.
  lemma MergedFirst(p: Params, t1: Track, t2: Track, frame: int)
    requires InOrder(t1, frame) && InOrder(t2, frame) && NeverMeet(t1.objects, t2.objects)
    requires FirstIsEarliest(t1) && FirstIsEarliest(t2)
    ensures FirstIsEarliest(Merged(p, t1, t2))
  {
    var a, b := t1.objects, t2.objects;
    var low := if a[0].frame <= b[0].frame then t1.first.frame else t2.first.frame;
    WithinEnds(a, low, frame);
    WithinEnds(b, low, frame);
    InterleaveOk(a, b, a[0].id, low, frame);
    var m := Interleave(a, b, a[0].id);
    LastNIs(m, p.maxObjects);
    var r := LastN(m, p.maxObjects);
    forall k | 0 <= k < |r| ensures low <= r[k].frame {
      assert r[k] == m[|m| - |r| + k] && r[k] in m;
    }
    assert Merged(p, t1, t2).first.frame == low;
  }

  lemma {:induction false} MergeAllFirst(p: Params, s: State, merges: seq<Cand>, frame: int)
    requires AllFirst(s) && Inv(p, s, frame)
    ensures AllFirst(MergeAll(p, s, merges))
    decreases merges
  {
    if merges != [] && Mergeable(s, merges[0].track, merges[0].det) {
      var c := merges[0];
      MergedFirst(p, s.tracks[c.track], s.tracks[c.det], frame);
      MergeKeepsInv(p, s, c.track, c.det, frame);
      hide Inv, Merged;
      MergeAllFirst(p, Merge(p, s, c.track, c.det), merges[1..], frame);
    }
  }

  lemma TrackedFirst(p: Params, s: State, i: Input, frame: int)
    requires AllFirst(s) && Ordered(s, frame) && frame < i.frame && forall d :: d in i.dets ==> d.frame == i.frame
    ensures AllFirst(Tracked(p, s, i))
  {
    hide AllFirst, Ordered, Each, AddTracks;
    if s.active != {} && i.dets != [] {
      var appended := Each(p, i, Append, i.matchOf.Keys, s);
      EachFirst(p, i, Append, i.matchOf.Keys, s, frame);
      EachKeepsOrder(p, i, Append, i.matchOf.Keys, s, frame);
      var added := AddTracks(appended, i.dets, i.unmatchedDets, |i.dets|);
      AddTracksFirst(appended, i.dets, i.unmatchedDets, |i.dets|);
      AddTracksKeepsOrder(appended, i.dets, i.unmatchedDets, |i.dets|, i.frame);
      EachFirst(p, i, Aging, i.unmatchedTracks, added, i.frame);
      EachKeepsOrder(p, i, Aging, i.unmatchedTracks, added, i.frame);
      EachFirst(p, i, Trimming, s.active, Each(p, i, Aging, i.unmatchedTracks, added), i.frame);
    } else {
      LaterOrdered(s, frame, i.frame);
      AddTracksFirst(s, i.dets, Indices(|i.dets|), |i.dets|);
      AddTracksKeepsOrder(s, i.dets, Indices(|i.dets|), |i.dets|, i.frame);
      EachFirst(p, i, Aging, s.active, AddTracks(s, i.dets, Indices(|i.dets|), |i.dets|), i.frame);
    }
  }

  lemma LaterOrdered(s: State, frame: int, later: int)
    requires Ordered(s, frame) && frame <= later
    ensures Ordered(s, later)
  {
    forall id | id in s.tracks ensures InOrder(s.tracks[id], later) { assert InOrder(s.tracks[id], frame); }
  }

  lemma StepFirst(p: Params, s: State, i: Input, frame: int)
    requires AllFirst(s) && Inv(p, s, frame) && frame < i.frame && ValidInput(p, s, i)
    ensures AllFirst(Step(p, s, i))
  {
    TrackedFirst(p, s, i, frame);
    TrackedKeepsInv(p, s, i, frame);
    var t := Tracked(p, s, i);
    DropsNothing(p, t, i);
    hide AllFirst, Tracked, MergeAll;
    if p.useRectify { MergeAllFirst(p, t, i.merges, i.frame); }
  }

  // In every run with increasing frame indices.
  lemma {:induction false} RunFirst(p: Params, s: State, frame: int, inputs: seq<Input>)
    requires AllFirst(s) && Inv(p, s, frame) && ValidRun(p, s, frame, inputs)
    ensures AllFirst(RunAll(p, s, inputs))
    decreases |inputs|
  {
    hide AllFirst, Inv, Step, ValidInput;
    if inputs != [] {
      StepFirst(p, s, inputs[0], frame);
      StepKeepsInv(p, s, inputs[0], frame);
      RunFirst(p, Step(p, s, inputs[0]), inputs[0].frame, inputs[1..]);
    }
  }

  // ----- new ids

  // How many of the listed indices come before k.
  function Earlier(ids: set<nat>, k: nat): nat {
    if k == 0 then 0 else Earlier(ids, k - 1) + if k - 1 in ids then 1 else 0
  }

  // New tracks are numbered from the counter in the order of their detections.
  lemma {:induction false} AddTracksAt(s: State, dets: seq<Obj>, ids: set<nat>, n: nat)
    requires n <= |dets| && forall id :: id in s.tracks ==> id < s.counter
    ensures var s' := AddTracks(s, dets, ids, n);
            && s'.counter == s.counter + Earlier(ids, n)
            && (forall id :: id in s'.tracks ==> id < s'.counter)
            && (forall k: nat :: k < n && k in ids ==>
                  var id := s.counter + Earlier(ids, k);
                  id < s'.counter && id in s'.tracks && id in s'.active && s'.tracks[id] == NewTrack(dets[k], id))
            && (forall id :: id in s.tracks ==> id in s'.tracks && s'.tracks[id] == s.tracks[id])
    decreases n
  {
    if n > 0 {
      AddTracksAt(s, dets, ids, n - 1);
      hide NewTrack;
    }
  }

  // ----- what is reported

  // The last objects of the tracks seen in the last call that have had more than the minimal number of
  // detections, by ascending id.
  lemma {:induction false} ReportedAt(p: Params, s: State, n: nat) returns (ids: seq<nat>)
    ensures var r := Reported(p, s, n);
            && |ids| == |r| && (forall j, k :: 0 <= j < k < |ids| ==> ids[j] < ids[k])
            && (forall k :: 0 <= k < |ids| ==>
                  ids[k] in s.tracks &&
                  var all := s.tracks[ids[k]].objects; all != [] && r[k] == all[|all| - 1])
            && (forall id: nat :: id in ids <==>
                  && id < n && id in s.active && id in s.tracks && s.tracks[id].lost == 0
                  && s.tracks[id].objects != [] && s.tracks[id].length > p.minTrackDuration)
  {
    ids := [];
    if n > 0 {
      ids := ReportedAt(p, s, n - 1);
      if ShownId(p, s, n - 1) {
        forall k | 0 <= k < |ids| ensures ids[k] < n - 1 { assert ids[k] in ids; }
        ids := ids + [n - 1];
      }
    }
  }
}
