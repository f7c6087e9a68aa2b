/**
 The tracker object of thirdparty/tracker/TrackerLib.cpp.  Each method is proved against the value
 operations of Tracking: its contract gives the whole new state as a function of the old one.  Sets
 are visited in an arbitrary order, as the unordered containers and sets of the source leave it to
 their implementation; the result does not depend on it.  The choices a call makes, which detection
 goes to which track and which tracks are rejoined, are returned as the ghost input of that call.
 */
module Tracker {
  import opened Wrappers
  import opened Greedy
  import opened Assignment
  import opened Tracking
  import opened Rejoining

  class TrackerLib {
    const params: Params
    var tracks: map<nat, Track>
    var active: set<nat>
    var counter: nat
    var prevWidth: int
    var prevHeight: int

    ghost function Contents(): State
      reads this
    {
      State(tracks, active, counter)
    }

    constructor (params: Params)
      ensures this.params == params && Contents() == Empty && prevWidth == 0 && prevHeight == 0
    {
      this.params := params;
      tracks, active, counter := map[], {}, 1;
      prevWidth, prevHeight := 0, 0;
    }

    // ----- new tracks and new objects

    method AddNewTrack(det: Obj)
      modifies this`tracks, this`active, this`counter
      ensures Contents() == AddTrack(old(Contents()), det)
    {
      var t := NewTrack(det, counter);
      if counter !in tracks { tracks := tracks[counter := t]; }
      active := active + {counter};
      counter := counter + 1;
    }

    method AddAllNewTracks(dets: seq<Obj>)
      modifies this`tracks, this`active, this`counter
      ensures Contents() == AddTracks(old(Contents()), dets, Indices(|dets|), |dets|)
    {
      for n := 0 to |dets|
        invariant Contents() == AddTracks(old(Contents()), dets, Indices(|dets|), n)
      {
        AddNewTrack(dets[n]);
      }
    }

    // The ids of a set are visited in ascending order.
    method AddNewTracks(dets: seq<Obj>, ids: set<nat>)
      requires ids <= Indices(|dets|)
      modifies this`tracks, this`active, this`counter
      ensures Contents() == AddTracks(old(Contents()), dets, ids, |dets|)
    {
      for n := 0 to |dets|
        invariant Contents() == AddTracks(old(Contents()), dets, ids, n)
      {
        if n in ids { AddNewTrack(dets[n]); }
      }
    }

    method AppendToTrack(id: nat, det: Obj)
      requires id in tracks ==> tracks[id].objects != [] && tracks[id].lost <= params.forgetDelay
      modifies this`tracks, this`active
      ensures Contents() == if id in old(tracks)
                            then Put(old(Contents()), id, AppendTo(params, old(tracks)[id], id, det))
                            else old(Contents())
    {
      if id in tracks {
        var cur := tracks[id];
        if 2 * |cur.objects| < params.minTrackDuration {
          if Jumps(cur.objects[|cur.objects| - 1].rect, det.rect) {
            active := active - {id};
            tracks := tracks - {id};
            return;
          }
        }
        var objects := DropOldest(cur.objects + [det.(id := id)], params.maxObjects);
        cur := cur.(objects := objects, predicted := det.rect, lost := 0, length := cur.length + 1);
        tracks := tracks[id := cur];
      }
    }

    // ----- lost tracks

    method EraseTrackIfBBoxIsOutOfFrame(id: nat) returns (erased: bool)
      modifies this`tracks, this`active
      ensures Contents() == if id in old(tracks)
                            then Put(old(Contents()), id, Trim(params, old(tracks)[id], prevWidth, prevHeight))
                            else old(Contents())
      ensures erased <==> id in old(tracks) && id !in tracks
    {
      if id in tracks {
        var cur := tracks[id];
        if cur.predicted.w <= 0 || cur.predicted.h <= 0 {
          active, tracks := active - {id}, tracks - {id};
          return true;
        }
        var xmin, ymin := cur.predicted.x, cur.predicted.y;
        var xmax, ymax := xmin + cur.predicted.w, ymin + cur.predicted.h;
        var flag := false;
        var rect := cur.predicted;
        if xmin < 0 { rect, flag := rect.(x := 0), true; }
        if ymin < 0 { rect, flag := rect.(y := 0), true; }
        if xmax > prevWidth - 1 { rect, flag := rect.(w := prevWidth - 1 - xmin), true; }
        if ymax > prevHeight - 1 { rect, flag := rect.(h := prevHeight - 1 - ymin), true; }
        tracks := tracks[id := cur.(predicted := rect)];
        if cur.lost > params.forgetDelay / 3 && flag {
          active, tracks := active - {id}, tracks - {id};
          assert tracks == old(tracks) - {id};
          return true;
        }
      }
      return false;
    }

    method EraseTrackIfItWasLostTooManyFramesAgo(id: nat) returns (erased: bool)
      modifies this`tracks, this`active
      ensures Contents() == if id in old(tracks) && LostTooLong(params, old(tracks)[id])
                            then Put(old(Contents()), id, None) else old(Contents())
      ensures erased <==> id in old(tracks) && id !in tracks
    {
      if id in tracks {
        var cur := tracks[id];
        if cur.lost > params.forgetDelay || (cur.length < 3 && cur.lost > params.forgetDelay / 3) {
          active, tracks := active - {id}, tracks - {id};
          return true;
        }
      }
      return false;
    }

    method UpdateLostTrackAndEraseIfItsNeeded(id: nat, senses: Senses) returns (erased: bool)
      modifies this`tracks, this`active
      ensures Contents() == if id in old(tracks)
                            then Put(old(Contents()), id,
                                     Age(params, old(tracks)[id], Predicted(senses, id, old(tracks)[id]),
                                         prevWidth, prevHeight))
                            else old(Contents())
      ensures erased <==> id in old(tracks) && id !in tracks
    {
      if id in tracks {
        var cur := tracks[id];
        cur := cur.(lost := cur.lost + 1);
        cur := cur.(predicted := Predicted(senses, id, cur));
        tracks := tracks[id := cur];
        erased := EraseTrackIfBBoxIsOutOfFrame(id);
        if !erased { erased := EraseTrackIfItWasLostTooManyFramesAgo(id); }
        if id in tracks {
          assert tracks == old(tracks)[id := tracks[id]];
        } else {
          assert tracks == old(tracks) - {id};
        }
        return;
      }
      return false;
    }

    method UpdateLostTracks(ids: set<nat>, senses: Senses, ghost i: Input)
      requires i.senses == senses && i.width == prevWidth && i.height == prevHeight
      modifies this`tracks, this`active
      ensures Contents() == Each(params, i, Aging, ids, old(Contents()))
    {
      var rest := ids;
      EachNone(params, i, Aging, Contents());
      assert ids - rest == {};
      while rest != {}
        invariant rest <= ids && Contents() == Each(params, i, Aging, ids - rest, old(Contents()))
      {
        var id :| id in rest;
        EachMore(params, i, Aging, ids - rest, old(Contents()), id);
        assert ids - (rest - {id}) == ids - rest + {id};
        var _ := UpdateLostTrackAndEraseIfItsNeeded(id, senses);
        rest := rest - {id};
      }
      assert ids - rest == ids;
    }

    method EraseTracksOutOfFrame(ids: set<nat>, ghost i: Input)
      requires i.width == prevWidth && i.height == prevHeight
      modifies this`tracks, this`active
      ensures Contents() == Each(params, i, Trimming, ids, old(Contents()))
    {
      var rest := ids;
      EachNone(params, i, Trimming, Contents());
      assert ids - rest == {};
      while rest != {}
        invariant rest <= ids && Contents() == Each(params, i, Trimming, ids - rest, old(Contents()))
      {
        var id :| id in rest;
        EachMore(params, i, Trimming, ids - rest, old(Contents()), id);
        assert ids - (rest - {id}) == ids - rest + {id};
        var _ := EraseTrackIfBBoxIsOutOfFrame(id);
        rest := rest - {id};
      }
      assert ids - rest == ids;
    }

    method DropForgottenTracks(ghost i: Input)
      modifies this`tracks, this`active
      ensures Contents() == Each(params, i, Dropping, old(tracks).Keys, old(Contents()))
    {
      var ids := tracks.Keys;
      var rest := ids;
      EachNone(params, i, Dropping, Contents());
      assert ids - rest == {};
      while rest != {}
        invariant rest <= ids && Contents() == Each(params, i, Dropping, ids - rest, old(Contents()))
      {
        var id :| id in rest;
        EachMore(params, i, Dropping, ids - rest, old(Contents()), id);
        assert ids - (rest - {id}) == ids - rest + {id};
        if tracks[id].lost > params.forgetDelay {
          active := active - {id};
          tracks := tracks - {id};
        }
        rest := rest - {id};
      }
      assert ids - rest == ids;
    }

    // ----- merging

    method MergeTrack(id1: nat, id2: nat)
      requires Mergeable(Contents(), id1, id2)
      modifies this`tracks, this`active
      ensures Contents() == Merge(params, old(Contents()), id1, id2)
    {
      var track1, track2 := tracks[id1], tracks[id2];
      track1 := track1.(lost := 0, length := track1.length + track2.length, predicted := track2.predicted);
      if track1.objects[0].frame > track2.objects[0].frame {
        // The first object may be one of those the loop is about to relabel.
        var first := track2.first;
        if first in track2.objects { first := first.(id := track1.objects[0].id); }
        track1 := track1.(first := first);
      }
      var tmp := MergeObjects(track1.objects, track2.objects, track1.objects[0].id, params.maxObjects);
      track1 := track1.(objects := tmp);
      tracks := tracks[id1 := track1];
      active := active - {id2};
      tracks := tracks - {id2};
    }

    // Rejoin a track that was lost with a track that is as old as rectifyLength and was seen just now.
    method Rectify(senses: Senses) returns (ghost merges: seq<Cand>)
      requires Base(params, Contents())
      modifies this`tracks, this`active
      ensures Plan(params, old(Contents()), senses, merges)
      ensures Contents() == MergeAll(params, old(Contents()), merges)
    {
      var newIds, lostIds := FindNewAndLost();
      merges := [];
      ghost var s := Contents();
      ghost var cands: set<Cand> := {};
      var list := RejoinCandidates(senses, newIds, lostIds);
      AllPairs(params, s, senses, list, newIds, lostIds);
      if newIds != {} && lostIds != {} {
        var sorted := SortDescending(list, Score);
        SameElements(sorted, list);
        assert forall c :: c in sorted <==> c in Elements(sorted);
        merges := MergeGreedily(sorted, senses);
        list := sorted;
      } else {
        assert Elements(list) == {};
      }
      cands := Elements(list);
      assert BestFirst(cands, merges) && AllRejoining(params, s, senses, cands);
    }

    method FindNewAndLost() returns (newIds: set<nat>, lostIds: set<nat>)
      requires active == tracks.Keys
      ensures newIds == (set id | id in tracks && IsNew(params, tracks[id]))
      ensures lostIds == (set id | id in tracks && IsLost(params, tracks[id]))
    {
      newIds, lostIds := {}, {};
      var rest := active;
      while rest != {}
        invariant rest <= active
        invariant newIds == (set id | id in tracks && id !in rest && IsNew(params, tracks[id]))
        invariant lostIds == (set id | id in tracks && id !in rest && IsLost(params, tracks[id]))
      {
        var id :| id in rest;
        if tracks[id].lost == 0 {
          if tracks[id].length as real == params.rectifyLength { newIds := newIds + {id}; }
        } else if tracks[id].objects != [] && tracks[id].length > params.minTrackDuration {
          lostIds := lostIds + {id};
        }
        rest := rest - {id};
      }
    }

    method RejoinCandidates(senses: Senses, newIds: set<nat>, lostIds: set<nat>) returns (list: seq<Cand>)
      requires Base(params, Contents())
      requires newIds == (set id | id in tracks && IsNew(params, tracks[id]))
      requires lostIds == (set id | id in tracks && IsLost(params, tracks[id]))
      ensures Lists(params, Contents(), senses, list, (set n, l | n in newIds && l in lostIds :: (l, n)))
    {
      list := [];
      ghost var done: set<(nat, nat)> := {};
      var newRest := newIds;
      while newRest != {}
        invariant newRest <= newIds && Lists(params, Contents(), senses, list, done)
        invariant done == (set n, l | n in newIds - newRest && l in lostIds :: (l, n))
      {
        var newId :| newId in newRest;
        var lostRest := lostIds;
        ghost var before := done;
        while lostRest != {}
          invariant lostRest <= lostIds && Lists(params, Contents(), senses, list, done)
          invariant done == before + (set l | l in lostIds - lostRest :: (l, newId))
        {
          var lostId :| lostId in lostRest;
          NeverMeetSymmetric(tracks[newId].objects, tracks[lostId].objects);
          var gap, nearest := GetClosestLocation(tracks[newId].objects, tracks[lostId].objects);
          if gap != 0 && NearEnough(gap, nearest) && (lostId, newId) in senses.alike {
            list := list + [Cand(lostId, newId, senses.alike[(lostId, newId)])];
          }
          done := done + {(lostId, newId)};
          lostRest := lostRest - {lostId};
        }
        newRest := newRest - {newId};
        assert done == (set n, l | n in newIds - newRest && l in lostIds :: (l, n));
      }
    }

    method MergeGreedily(sorted: seq<Cand>, senses: Senses) returns (ghost chosen: seq<Cand>)
      requires Base(params, Contents()) && Descending(sorted, Score)
      requires forall c :: c in sorted ==> Rejoins(params, Contents(), senses, c)
      modifies this`tracks, this`active
      ensures BestFirst(Elements(sorted), chosen)
      ensures Contents() == MergeAll(params, old(Contents()), chosen)
    {
      var mergedLost: set<nat>, mergedNew: set<nat> := {}, {};
      chosen := [];
      ghost var s := Contents();
      for k := 0 to |sorted|
        invariant chosen == Scan(sorted[..k], ShareEnd)
        invariant mergedLost == (set c | c in chosen :: c.track) && mergedNew == (set c | c in chosen :: c.det)
        invariant Contents() == MergeAll(params, s, chosen)
      {
        var c := sorted[k];
        assert sorted[..k + 1][..k] == sorted[..k];
        FreeEnds(chosen, c);
        if c.track !in mergedLost && c.det !in mergedNew {
          ScanPlan(params, s, senses, sorted[..k + 1]);
          MergeAllSnoc(params, s, chosen, c);
          MergeTrack(c.track, c.det);
          mergedLost := mergedLost + {c.track};
          mergedNew := mergedNew + {c.det};
          chosen := chosen + [c];
        }
      }
      assert sorted[..|sorted|] == sorted;
      ScanIsPick(sorted, ShareEnd);
      PickIsBestFirst(sorted);
    }

    // ----- one frame

    method PreProcess(detections: seq<Obj>) returns (filtered: seq<Obj>)
      ensures filtered == Filtered(params, detections)
    {
      filtered := [];
      for k := 0 to |detections|
        invariant filtered == Filtered(params, detections[..k])
      {
        var det := detections[k];
        assert detections[..k + 1][..k] == detections[..k];
        if det.confidence > params.minDetConf && det.rect.w != 0 {
          var aspect := det.rect.h as real / det.rect.w as real;
          var height := det.rect.h as real;
          if params.minAspect <= aspect <= params.maxAspect && params.minHeight <= height <= params.maxHeight {
            filtered := filtered + [det];
          }
        }
      }
      assert detections[..|detections|] == detections;
    }

    // `affinity` holds the affinity of the pairs that reach the threshold.
    method ComputeSimilarityMatrix(detections: nat, affinity: map<(nat, nat), real>) returns (similarity: seq<Cand>)
      requires active == tracks.Keys
      ensures InRange(similarity, active, detections)
      ensures forall c: Cand :: c in similarity <==>
                c.track in active && c.det < detections &&
                (c.track, c.det) in affinity && affinity[(c.track, c.det)] == c.score
    {
      similarity := [];
      var rest := active;
      while rest != {}
        invariant rest <= active
        invariant forall c: Cand :: c in similarity <==>
                    c.track in active && c.track !in rest && c.det < detections &&
                    (c.track, c.det) in affinity && affinity[(c.track, c.det)] == c.score
      {
        var id :| id in rest;
        ghost var before := similarity;
        for j := 0 to detections
          invariant forall c: Cand :: c in similarity <==>
                      c in before || (c.track == id && c.det < j &&
                      (c.track, c.det) in affinity && affinity[(c.track, c.det)] == c.score)
        {
          if (id, j) in affinity { similarity := similarity + [Cand(id, j, affinity[(id, j)])]; }
        }
        rest := rest - {id};
      }
    }

    method AppendMatches(matches: set<Cand>, detections: seq<Obj>, ghost i: Input)
      requires Base(params, Contents()) && MatchesOf(matches, i.matchOf) && i.dets == detections
      requires forall c :: c in matches ==> c.det < |detections|
      requires forall c, d :: c in matches && d in matches && ShareEnd(c, d) ==> c == d
      modifies this`tracks, this`active
      ensures Contents() == Each(params, i, Append, i.matchOf.Keys, old(Contents()))
    {
      var rest := matches;
      ghost var s := Contents();
      ghost var done: set<nat> := {};
      EachNone(params, i, Append, s);
      while rest != {}
        invariant rest <= matches && done == (set c | c in matches - rest :: c.track)
        invariant Contents() == Each(params, i, Append, done, s)
      {
        var c :| c in rest;
        assert c.track !in done by {
          if c.track in done {
            var d :| d in matches - rest && d.track == c.track;
            assert ShareEnd(c, d);
          }
        }
        EachMore(params, i, Append, done, s, c.track);
        if c.track in tracks { assert TrackOk(params, c.track, s.tracks[c.track]); }
        AppendToTrack(c.track, detections[c.det]);
        rest := rest - {c};
        done := done + {c.track};
      }
      assert done == i.matchOf.Keys;
    }

    // Assign the detections to the active tracks and bring every track up to date.
    method TrackMatched(detections: seq<Obj>, senses: Senses, ghost i0: Input)
      returns (ghost i: Input)
      requires Base(params, Contents()) && active != {} && detections != []
      requires InRange(senses.similarity, active, |detections|)
      requires i0.dets == detections && i0.senses == senses && i0.width == prevWidth && i0.height == prevHeight
      modifies this`tracks, this`active, this`counter
      ensures i == i0.(matchOf := i.matchOf, unmatchedTracks := i.unmatchedTracks, unmatchedDets := i.unmatchedDets)
      ensures Matched(old(Contents()), i)
      ensures Contents() == Tracked(params, old(Contents()), i)
    {
      var activeTracks := active;
      var unmatchedTracks, unmatchedDets, matches :=
        SolveAssignmentProblem(activeTracks, |detections|, senses.similarity);
      i := Choices(Contents(), i0, unmatchedTracks, unmatchedDets, matches);
      AppendMatches(matches, detections, i);
      AddNewTracks(detections, unmatchedDets);
      UpdateLostTracks(unmatchedTracks, senses, i);
      EraseTracksOutOfFrame(activeTracks, i);
    }

    // One call: filter, assign or create, age, drop, rejoin.  The returned input records the choices
    // made in it.
    method Process(input: seq<Obj>, frame: int, width: int, height: int, affinity: map<(nat, nat), real>,
                   predict: map<nat, Rect>, alike: map<(nat, nat), real>)
      returns (ghost i: Input)
      requires Base(params, Contents())
      requires forall d :: d in input ==> d.frame == frame
      modifies this
      ensures i.dets == Filtered(params, input) && i.frame == frame
      ensures i.width == old(prevWidth) && i.height == old(prevHeight)
      ensures i.senses.predict == predict && i.senses.alike == alike
      ensures ValidInput(params, old(Contents()), i)
      ensures Contents() == Step(params, old(Contents()), i)
      ensures prevWidth == width && prevHeight == height
    {
      ghost var s := Contents();
      var detections := PreProcess(input);
      var similarity := ComputeSimilarityMatrix(|detections|, affinity);
      var senses := Senses(similarity, predict, alike);
      i := Input(detections, frame, prevWidth, prevHeight, senses, map[], {}, {}, []);
      if active != {} && detections != [] {
        i := TrackMatched(detections, senses, i);
      } else {
        var activeTracks := active;
        AddAllNewTracks(detections);
        UpdateLostTracks(activeTracks, senses, i);
      }
      assert Contents() == Tracked(params, s, i);
      TrackedKeepsBase(params, s, i);
      DropsNothing(params, Contents(), i);
      prevWidth, prevHeight := width, height;
      if params.dropForgotten { DropForgottenTracks(i); }
      assert Contents() == Dropped(params, Tracked(params, s, i), i);
      if params.useRectify {
        ghost var merges := Rectify(senses);
        TrackedIgnoresMerges(params, s, i, merges);
        TrackedIgnoresMerges(params, Tracked(params, s, i), i, merges);
        i := i.(merges := merges);
      }
    }

    method TrackedDetections() returns (detections: seq<Obj>)
      requires forall id :: id in active ==> id in tracks && id < counter
      ensures detections == Reported(params, Contents(), counter)
    {
      detections := [];
      for id := 0 to counter
        invariant detections == Reported(params, Contents(), id)
      {
        if id in active {
          var t := tracks[id];
          if t.objects != [] && t.length > params.minTrackDuration && t.lost == 0 {
            detections := detections + [t.objects[|t.objects| - 1]];
          }
        }
      }
    }
  }

  // The choices SolveAssignmentProblem made, recorded in the input.
  lemma Choices(s: State, i: Input, unmatchedTracks: set<nat>, unmatchedDets: set<nat>, matches: set<Cand>)
    returns (j: Input)
    requires InRange(i.senses.similarity, s.active, |i.dets|)
    requires exists chosen ::
               Solved(s.active, |i.dets|, i.senses.similarity, unmatchedTracks, unmatchedDets, matches, chosen)
    ensures j == i.(matchOf := j.matchOf, unmatchedTracks := unmatchedTracks, unmatchedDets := unmatchedDets)
    ensures Matched(s, j) && MatchesOf(matches, j.matchOf)
    ensures unmatchedDets <= Indices(|i.dets|) && forall c :: c in matches ==> c.det < |i.dets|
    ensures forall c, d :: c in matches && d in matches && ShareEnd(c, d) ==> c == d
  {
    var chosen :| Solved(s.active, |i.dets|, i.senses.similarity, unmatchedTracks, unmatchedDets, matches, chosen);
    MatchesStable(s.active, |i.dets|, i.senses.similarity, unmatchedTracks, unmatchedDets, matches, chosen);
    j := i.(matchOf := MapOf(matches), unmatchedTracks := unmatchedTracks, unmatchedDets := unmatchedDets);
    assert Solved(s.active, |j.dets|, j.senses.similarity, j.unmatchedTracks, j.unmatchedDets, matches, chosen);
    forall c | c in matches ensures c.det < |i.dets| {
      assert c in i.senses.similarity;
    }
  }

  // ----- what Rectify lists

  // list holds the mergeable ones among the pairs, with their affinity.
  ghost predicate Lists(p: Params, s: State, senses: Senses, list: seq<Cand>, pairs: set<(nat, nat)>) {
    forall c :: c in list <==> (c.track, c.det) in pairs && Rejoins(p, s, senses, c)
  }

  lemma AllPairs(p: Params, s: State, senses: Senses, list: seq<Cand>, newIds: set<nat>, lostIds: set<nat>)
    requires newIds == (set id | id in s.tracks && IsNew(p, s.tracks[id]))
    requires lostIds == (set id | id in s.tracks && IsLost(p, s.tracks[id]))
    requires Lists(p, s, senses, list, (set n, l | n in newIds && l in lostIds :: (l, n)))
    ensures forall c :: c in list <==> Rejoins(p, s, senses, c)
  {
  }

  // Scanning pairs that may be merged chooses a set of merges that can be carried out.
  lemma ScanPlan(p: Params, s: State, senses: Senses, list: seq<Cand>)
    requires Base(p, s) && forall c :: c in list ==> Rejoins(p, s, senses, c)
    ensures PlanLeft(s, Scan(list, ShareEnd))
  {
    ScanIsPick(list, ShareEnd);
    PickIndependent(list, ShareEnd);
    PickFrom(list, ShareEnd);
    forall c | c in Pick(list, ShareEnd) ensures Mergeable(s, c.track, c.det) {
      assert Rejoins(p, s, senses, c) && TrackOk(p, c.det, s.tracks[c.det]);
    }
    forall c, d | c in Pick(list, ShareEnd) && d in Pick(list, ShareEnd) ensures c.track != d.det {
      assert Rejoins(p, s, senses, c) && Rejoins(p, s, senses, d);
    }
  }

  lemma {:induction false} MergeAllSnoc(p: Params, s: State, merges: seq<Cand>, c: Cand)
    requires PlanLeft(s, merges + [c])
    ensures Mergeable(MergeAll(p, s, merges), c.track, c.det)
    ensures MergeAll(p, s, merges + [c]) == Merge(p, MergeAll(p, s, merges), c.track, c.det)
    decreases |merges|
  {
    PlanMerges(p, s, merges + [c]);
    if merges == [] {
      assert merges + [c] == [c] && [c][1..] == [];
    } else {
      assert (merges + [c])[1..] == merges[1..] + [c];
      MergeAllSnoc(p, Merge(p, s, merges[0].track, merges[0].det), merges[1..], c);
    }
  }
}
