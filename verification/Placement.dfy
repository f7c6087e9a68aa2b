/**
 Where the detections of a frame end up in the tracker (thirdparty/tracker/TrackerLib.cpp): each is the
 last object of a track of its own, unless the track it was matched to was removed as noise, and no
 other track counts as seen.
 */
module Placement {
  import opened Wrappers
  import opened Assignment
  import opened Tracking
  import opened TrackingRuns

  ghost predicate PlacedAt(s: State, d: Obj, id: nat) {
    && id in s.tracks && s.tracks[id].objects != []
    && Last(s.tracks[id]) == d.(id := id) && s.tracks[id].lost == 0
  }

  // place names the track of each placed detection.
  ghost predicate Placed(s: State, dets: seq<Obj>, place: map<nat, nat>) {
    && (forall k :: k in place ==> k < |dets| && PlacedAt(s, dets[k], place[k]))
    && (forall j, k :: j in place && k in place && place[j] == place[k] ==> j == k)
    && (forall id :: id in s.tracks && s.tracks[id].lost == 0 ==> id in place.Values)
  }

  // The same halfway through a call, while the tracks in `pending` still wait.
  ghost predicate Placing(s: State, dets: seq<Obj>, place: map<nat, nat>, pending: set<nat>) {
    && (forall k :: k in place ==>
          k < |dets| && PlacedAt(s, dets[k], place[k]) && s.tracks[place[k]].predicted == dets[k].rect &&
          place[k] < s.counter && place[k] !in pending)
    && (forall j, k :: j in place && k in place && place[j] == place[k] ==> j == k)
    && (forall id :: id in s.tracks && id !in pending && s.tracks[id].lost == 0 ==> id in place.Values)
  }

  // The track the detection was matched to is removed.
  ghost predicate Noise(p: Params, s: State, i: Input, k: nat) {
    s.active != {} && k < |i.dets| &&
    exists t :: t in i.matchOf && i.matchOf[t] == k && t in s.tracks && AppendTo(p, s.tracks[t], t, i.dets[k]) == None
  }

  // The detection of each match, and the track it went to, leaving out the tracks removed.
  ghost function Inverse(m: map<nat, nat>, kept: set<nat>): (r: map<nat, nat>)
    requires forall t, u :: t in m && u in m && m[t] == m[u] ==> t == u
    ensures forall k :: k in r <==> exists t :: t in m && t in kept && m[t] == k
    ensures forall t :: t in m && t in kept ==> m[t] in r && r[m[t]] == t
    ensures forall k :: k in r ==> r[k] in m && r[k] in kept && m[r[k]] == k
  {
    map t | t in m && t in kept :: m[t] := t
  }

  lemma AppendPlaces(p: Params, s: State, i: Input) returns (place: map<nat, nat>)
    requires Base(p, s) && ValidInput(p, s, i) && s.active != {} && i.dets != []
    ensures Placing(Each(p, i, Append, i.matchOf.Keys, s), i.dets, place, i.unmatchedTracks)
    ensures forall k: nat :: k in place <==> k < |i.dets| && k !in i.unmatchedDets && !Noise(p, s, i, k)
  {
    MatchedParts(s, i);
    AppendedBelow(p, s, i);
    AppendAddsNone(p, s, i);
    hide Matched, InRange, Each, AppendTo, PlacedAt, Plan, Noise, Placing, TrackOk, Inverse;
    var s' := Each(p, i, Append, i.matchOf.Keys, s);
    place := Inverse(i.matchOf, s'.tracks.Keys);
    forall t | t in i.matchOf
      ensures t in s'.tracks <==> AppendTo(p, s.tracks[t], t, i.dets[i.matchOf[t]]).Some?
      ensures t in s'.tracks ==> Home(s', i.dets, i.matchOf, t)
    {
      AppendPlace(p, s, i, t);
    }
    MatchesPlace(s', i.dets, i.matchOf, i.unmatchedTracks);
    NoiseIff(p, s, i, s'.tracks.Keys);
  }

  // Track t ends in the detection it was matched to.
  ghost predicate Home(s: State, dets: seq<Obj>, matchOf: map<nat, nat>, t: nat) {
    t in matchOf && matchOf[t] < |dets| && PlacedAt(s, dets[matchOf[t]], t) &&
    s.tracks[t].predicted == dets[matchOf[t]].rect
  }

  lemma MatchesPlace(s: State, dets: seq<Obj>, matchOf: map<nat, nat>, pending: set<nat>)
    requires forall t, u :: t in matchOf && u in matchOf && matchOf[t] == matchOf[u] ==> t == u
    requires forall t :: t in matchOf && t in s.tracks ==> Home(s, dets, matchOf, t) && t < s.counter && t !in pending
    requires forall id :: id in s.tracks && id !in pending ==> id in matchOf
    ensures Placing(s, dets, Inverse(matchOf, s.tracks.Keys), pending)
  {
    hide PlacedAt, Inverse;
    var place := Inverse(matchOf, s.tracks.Keys);
    forall k | k in place ensures Home(s, dets, matchOf, place[k]) && matchOf[place[k]] == k {}
    forall id | id in s.tracks && id !in pending ensures id in place.Values {
      assert place[matchOf[id]] == id;
    }
  }

  lemma AppendPlace(p: Params, s: State, i: Input, t: nat)
    requires t in i.matchOf && t in s.tracks && i.matchOf[t] < |i.dets|
    ensures var s' := Each(p, i, Append, i.matchOf.Keys, s);
            && (t in s'.tracks <==> AppendTo(p, s.tracks[t], t, i.dets[i.matchOf[t]]).Some?)
            && (t in s'.tracks ==> Home(s', i.dets, i.matchOf, t))
  {
    AppendedTo(p, s, i, t);
  }

  lemma AppendAddsNone(p: Params, s: State, i: Input)
    ensures Each(p, i, Append, i.matchOf.Keys, s).tracks.Keys <= s.tracks.Keys
  {
  }

  lemma NoiseIff(p: Params, s: State, i: Input, kept: set<nat>)
    requires Matched(s, i) && InRange(i.senses.similarity, s.active, |i.dets|)
    requires s.active != {} && s.active <= s.tracks.Keys
    requires forall t :: t in i.matchOf ==> i.matchOf[t] < |i.dets| && t in s.tracks
    requires forall t :: t in i.matchOf ==> (t in kept <==> AppendTo(p, s.tracks[t], t, i.dets[i.matchOf[t]]).Some?)
    ensures forall k: nat :: (exists t :: t in i.matchOf && t in kept && i.matchOf[t] == k) <==>
                             k < |i.dets| && k !in i.unmatchedDets && !Noise(p, s, i, k)
  {
    hide Matched, InRange, AppendTo;
    MatchedParts(s, i);
    forall k: nat
      ensures (exists t :: t in i.matchOf && t in kept && i.matchOf[t] == k) <==>
              k < |i.dets| && k !in i.unmatchedDets && !Noise(p, s, i, k)
    {
      if t :| t in i.matchOf && i.matchOf[t] == k {
        assert i.matchOf[t] in i.matchOf.Values;
        assert Noise(p, s, i, k) <==> t !in kept;
      } else {
        assert k < |i.dets| ==> k in Indices(|i.dets|);
      }
    }
  }

  ghost predicate Below(s: State, pending: set<nat>) {
    forall id :: id in s.tracks || id in pending ==> id < s.counter
  }

  lemma {:induction false} AddPlaces(s: State, dets: seq<Obj>, ids: set<nat>, n: nat, before: map<nat, nat>,
                                      pending: set<nat>)
    returns (place: map<nat, nat>)
    requires Placing(s, dets, before, pending) && n <= |dets| && Below(s, pending)
    requires forall k :: k in before ==> k !in ids
    ensures Placing(AddTracks(s, dets, ids, n), dets, place, pending) && Below(AddTracks(s, dets, ids, n), pending)
    ensures forall k: nat :: k in place <==> k in before || (k in ids && k < n)
    decreases n
  {
    hide Placing, Below, AddTrack;
    if n == 0 {
      place := before;
    } else {
      var s1 := AddTracks(s, dets, ids, n - 1);
      var earlier := AddPlaces(s, dets, ids, n - 1, before, pending);
      if n - 1 in ids {
        assert AddTracks(s, dets, ids, n) == AddTrack(s1, dets[n - 1]);
        AddPlace(s1, dets, n - 1, earlier, pending);
        place := earlier[n - 1 := s1.counter];
      } else {
        assert AddTracks(s, dets, ids, n) == s1;
        place := earlier;
      }
    }
  }

  lemma AddPlace(s: State, dets: seq<Obj>, n: nat, before: map<nat, nat>, pending: set<nat>)
    requires Placing(s, dets, before, pending) && n < |dets| && n !in before && Below(s, pending)
    ensures Placing(AddTrack(s, dets[n]), dets, before[n := s.counter], pending) && Below(AddTrack(s, dets[n]), pending)
  {
    var place := before[n := s.counter];
    var s' := AddTrack(s, dets[n]);
    forall id | id in s'.tracks && id !in pending && s'.tracks[id].lost == 0 ensures id in place.Values {
      if id == s.counter {
        assert place[n] == id;
      } else {
        var k :| k in before && before[k] == id;
        assert place[k] == id;
      }
    }
  }

  lemma AgePlaces(p: Params, s: State, i: Input, place: map<nat, nat>, pending: set<nat>)
    requires Placing(s, i.dets, place, pending)
    ensures Placing(Each(p, i, Aging, pending, s), i.dets, place, {})
  {
    var s' := Each(p, i, Aging, pending, s);
    forall id | id in s'.tracks && s'.tracks[id].lost == 0 ensures id in place.Values {
      assert id !in pending;
    }
  }

  lemma TrimPlaces(p: Params, s: State, i: Input, place: map<nat, nat>, ids: set<nat>)
    requires Placing(s, i.dets, place, {})
    requires forall d :: d in i.dets ==> d.rect.w > 0 && d.rect.h > 0
    ensures Placed(Each(p, i, Trimming, ids, s), i.dets, place)
  {
    var s' := Each(p, i, Trimming, ids, s);
    forall k | k in place ensures PlacedAt(s', i.dets[k], place[k]) {
      assert i.dets[k] in i.dets;
      TrimPlace(p, s, i, ids, i.dets[k], place[k]);
    }
    forall id | id in s'.tracks && s'.tracks[id].lost == 0 ensures id in place.Values {
      assert s.tracks[id].lost == 0;
    }
  }

  lemma TrimPlace(p: Params, s: State, i: Input, ids: set<nat>, d: Obj, id: nat)
    requires PlacedAt(s, d, id) && s.tracks[id].predicted == d.rect && d.rect.w > 0 && d.rect.h > 0
    ensures PlacedAt(Each(p, i, Trimming, ids, s), d, id)
  {
    assert !Erases(p, i, Trimming, s, id);
  }

  lemma TrackedPlaces(p: Params, s: State, i: Input) returns (place: map<nat, nat>)
    requires Base(p, s) && ValidInput(p, s, i)
    requires forall d :: d in i.dets ==> d.rect.w > 0 && d.rect.h > 0
    ensures Placed(Tracked(p, s, i), i.dets, place)
    ensures forall k: nat :: k in place <==> k < |i.dets| && !Noise(p, s, i, k)
  {
    hide Base, ValidInput, Placed, Tracked, Noise;
    if s.active != {} && i.dets != [] {
      place := MatchedPlaces(p, s, i);
    } else {
      place := FreshPlaces(p, s, i);
    }
  }

  // The branch without tracks or without detections.
  lemma FreshPlaces(p: Params, s: State, i: Input) returns (place: map<nat, nat>)
    requires Base(p, s) && (s.active == {} || i.dets == [])
    ensures Placed(Tracked(p, s, i), i.dets, place)
    ensures forall k: nat :: k in place <==> k < |i.dets| && !Noise(p, s, i, k)
  {
    hide Base, Placing, Placed, Below, Each, AddTracks;
    NothingPlaced(p, s, i.dets);
    place := AddPlaces(s, i.dets, Indices(|i.dets|), |i.dets|, map[], s.active);
    var added := AddTracks(s, i.dets, Indices(|i.dets|), |i.dets|);
    AgePlaces(p, added, i, place, s.active);
    AllPlaced(Each(p, i, Aging, s.active, added), i.dets, place);
  }

  lemma NothingPlaced(p: Params, s: State, dets: seq<Obj>)
    requires Base(p, s)
    ensures Placing(s, dets, map[], s.active) && Below(s, s.active)
  {
  }

  lemma AllPlaced(s: State, dets: seq<Obj>, place: map<nat, nat>)
    requires Placing(s, dets, place, {})
    ensures Placed(s, dets, place)
  {
  }

  lemma MatchedPlaces(p: Params, s: State, i: Input) returns (place: map<nat, nat>)
    requires Base(p, s) && ValidInput(p, s, i) && s.active != {} && i.dets != []
    requires forall d :: d in i.dets ==> d.rect.w > 0 && d.rect.h > 0
    ensures Placed(Tracked(p, s, i), i.dets, place)
    ensures forall k: nat :: k in place <==> k < |i.dets| && !Noise(p, s, i, k)
  {
    hide Base, Placing, Placed, Below, Each, AddTracks, Noise;
    MatchedParts(s, i);
    var matched := AppendPlaces(p, s, i);
    var appended := Each(p, i, Append, i.matchOf.Keys, s);
    AppendedBelow(p, s, i);
    place := AddPlaces(appended, i.dets, i.unmatchedDets, |i.dets|, matched, i.unmatchedTracks);
    var added := AddTracks(appended, i.dets, i.unmatchedDets, |i.dets|);
    AgePlaces(p, added, i, place, i.unmatchedTracks);
    TrimPlaces(p, Each(p, i, Aging, i.unmatchedTracks, added), i, place, s.active);
    UnmatchedNotNoise(p, s, i);
  }

  lemma AppendedBelow(p: Params, s: State, i: Input)
    requires Base(p, s) && i.unmatchedTracks <= s.active
    ensures Below(Each(p, i, Append, i.matchOf.Keys, s), i.unmatchedTracks)
    ensures Each(p, i, Append, i.matchOf.Keys, s).counter == s.counter
  {
  }

  lemma UnmatchedNotNoise(p: Params, s: State, i: Input)
    requires ValidInput(p, s, i) && s.active != {} && i.dets != []
    ensures forall k :: k in i.unmatchedDets ==> k < |i.dets| && !Noise(p, s, i, k)
  {
    MatchedParts(s, i);
    forall k | k in i.unmatchedDets ensures k < |i.dets| && !Noise(p, s, i, k) {
      assert k in Indices(|i.dets|);
      assert k !in i.matchOf.Values;
    }
  }

  // ----- through the merges

  // The later of two last objects is the last object of the merge.
  lemma {:induction false} InterleaveEnd(a: seq<Obj>, b: seq<Obj>, id: int)
    requires NeverMeet(a, b) && Increasing(a) && Increasing(b) && b != []
    requires a == [] || LastFrameOf(a) < LastFrameOf(b)
    ensures var m := Interleave(a, b, id); m != [] && m[|m| - 1] == b[|b| - 1].(id := id)
    decreases |a| + |b|
  {
    FirstBelowLast(b);
    if a != [] { FirstBelowLast(a); }
    if a != [] && a[0].frame < b[0].frame {
      TailOk(a);
      InterleaveEnd(a[1..], b, id);
    } else if |b| > 1 {
      TailOk(b);
      InterleaveEnd(a, b[1..], id);
    } else {
      assert b[1..] == [] && a == [];
    }
  }

  lemma MergePlace(p: Params, s: State, dets: seq<Obj>, before: map<nat, nat>, c: Cand, now: int)
    returns (place: map<nat, nat>)
    requires Inv(p, s, now) && Settled(s, now, false) && Placed(s, dets, before)
    requires Mergeable(s, c.track, c.det) && s.tracks[c.det].lost == 0 && s.tracks[c.track].lost != 0
    ensures Placed(Merge(p, s, c.track, c.det), dets, place) && place.Keys == before.Keys
  {
    var k :| k in before && before[k] == c.det;
    place := before[k := c.track];
    assert PlacedAt(s, dets[k], c.det);
    MergedEnd(p, s, c, now);
    MovedPlace(s, Merge(p, s, c.track, c.det), dets, before, k, c.track);
  }

  // Moving one detection to a track that was not seen before.
  lemma MovedPlace(s: State, s': State, dets: seq<Obj>, before: map<nat, nat>, k: nat, id: nat)
    requires Placed(s, dets, before) && k in before && id !in before.Values
    requires PlacedAt(s', dets[k], id)
    requires forall x :: x in s'.tracks <==> x in s.tracks && x != before[k]
    requires forall x :: x in s'.tracks && x != id ==> s'.tracks[x] == s.tracks[x]
    ensures Placed(s', dets, before[k := id])
  {
    var place := before[k := id];
    forall j | j in place ensures PlacedAt(s', dets[j], place[j]) {
      if j != k { assert PlacedAt(s, dets[j], before[j]); }
    }
    forall x | x in s'.tracks && s'.tracks[x].lost == 0 ensures x in place.Values {
      if x == id {
        assert place[k] == x;
      } else {
        var j :| j in before && before[j] == x;
        assert place[j] == x;
      }
    }
  }

  lemma MergedEnd(p: Params, s: State, c: Cand, now: int)
    requires Inv(p, s, now) && Settled(s, now, false) && Mergeable(s, c.track, c.det)
    requires s.tracks[c.det].lost == 0 && s.tracks[c.track].lost != 0
    ensures var t := Merged(p, s.tracks[c.track], s.tracks[c.det]);
            t.objects != [] && t.lost == 0 && Last(t) == Last(s.tracks[c.det]).(id := c.track)
  {
    var a, b := s.tracks[c.track], s.tracks[c.det];
    assert InOrder(a, now) && InOrder(b, now) && TrackOk(p, c.track, a);
    assert Current(a, now, false) && Current(b, now, false);
    InterleaveEnd(a.objects, b.objects, a.objects[0].id);
  }

  lemma {:induction false} MergeAllPlaces(p: Params, s: State, dets: seq<Obj>, before: map<nat, nat>,
                                           merges: seq<Cand>, now: int)
    returns (place: map<nat, nat>)
    requires Inv(p, s, now) && Settled(s, now, false) && Placed(s, dets, before) && PlanLeft(s, merges)
    requires forall c :: c in merges ==> s.tracks[c.det].lost == 0 && s.tracks[c.track].lost != 0
    ensures Placed(MergeAll(p, s, merges), dets, place) && place.Keys == before.Keys
    decreases |merges|
  {
    place := before;
    if merges != [] {
      var c := merges[0];
      assert c in merges;
      PlanMerges(p, s, merges);
      var s1 := Merge(p, s, c.track, c.det);
      MergeKeepsInv(p, s, c.track, c.det, now);
      MergeOneSettles(p, s, c, now, false);
      place := MergePlace(p, s, dets, before, c, now);
      RestUntouched(p, s, merges);
      place := MergeAllPlaces(p, s1, dets, place, merges[1..], now);
    }
  }

  // After a call every detection that passed the filter is the last object of a track of its own,
  // unless its track was removed as noise; and these are all the tracks seen in this call.
  lemma StepPlaces(p: Params, s: State, i: Input, frame: int) returns (place: map<nat, nat>)
    requires Inv(p, s, frame) && frame < i.frame && ValidInput(p, s, i)
    requires forall d :: d in i.dets ==> d.rect.w > 0 && d.rect.h > 0
    ensures Placed(Step(p, s, i), i.dets, place)
    ensures forall k: nat :: k in place <==> k < |i.dets| && !Noise(p, s, i, k)
  {
    place := TrackedPlaces(p, s, i);
    TrackedKeepsInv(p, s, i, frame);
    TrackedSettles(p, s, i, frame, false);
    var t := Tracked(p, s, i);
    DropsNothing(p, t, i);
    if p.useRectify {
      PlanStart(p, t, i.senses, i.merges);
      place := MergeAllPlaces(p, t, i.dets, place, i.merges, i.frame);
    }
  }
}
