/**
 The state of the multi-object tracker (thirdparty/tracker/TrackerLib.cpp) as a value, the effect of
 each operation on it, and what every run keeps.  The class TrackerLib.TrackerLib implements these
 operations in place.

 Image content and floating point enter as data: `similarity` lists the track and detection pairs that
 pass the affinity threshold, `predict` holds the rectangles PredictRect3 computes for tracks of
 several objects, and `alike` the affinity of the (lost, new) pairs that pass Rectify's appearance test.
 */
module Tracking {
  import opened Wrappers
  import opened Assignment

  datatype Rect = Rect(x: int, y: int, w: int, h: int)

  datatype Obj = Obj(rect: Rect, confidence: real, frame: int, id: int)

  datatype Track = Track(objects: seq<Obj>, predicted: Rect, lost: nat, length: nat, first: Obj)

  datatype Params = Params(
    minTrackDuration: nat, forgetDelay: nat, minDetConf: real,
    minAspect: real, maxAspect: real, minHeight: real, maxHeight: real,
    maxObjects: int, dropForgotten: bool, useRectify: bool, rectifyLength: real)

  datatype State = State(tracks: map<nat, Track>, active: set<nat>, counter: nat)

  datatype Senses = Senses(
    similarity: seq<Cand>, predict: map<nat, Rect>, alike: map<(nat, nat), real>)

  // One call of Process: the filtered detections, the frame, and the choices made in it.
  datatype Input = Input(
    dets: seq<Obj>, frame: int, width: int, height: int, senses: Senses,
    matchOf: map<nat, nat>, unmatchedTracks: set<nat>, unmatchedDets: set<nat>, merges: seq<Cand>)

  // Pixel q is one of the `size` ones from `low`.
  predicate Spans(low: int, size: int, q: int) { low <= q < low + size }

  // ----- single tracks

  function LastN<T>(s: seq<T>, n: int): (r: seq<T>)
    ensures |r| <= |s| && (n > 0 ==> |r| <= n)
  {
    if n > 0 && |s| > n then s[|s| - n..] else s
  }

  function Last(t: Track): Obj
    requires t.objects != []
  {
    t.objects[|t.objects| - 1]
  }

  function NewTrack(det: Obj, id: nat): Track {
    var d := det.(id := id);
    Track([d], d.rect, 0, 1, d)
  }

  // The integer nearest to half of n; OpenCV rounds halves to the even one.
  function RoundHalf(n: int): int {
    if n % 2 == 0 || n / 2 % 2 == 0 then n / 2 else n / 2 + 1
  }

  // The pixel nearest to the middle of a side.
  function Middle(low: int, size: int): int { RoundHalf(2 * low + size) }

  // Whether the centre of b is farther from the centre of a than the shorter side of b.
  predicate Jumps(a: Rect, b: Rect) {
    var dx := Middle(a.x, a.w) - Middle(b.x, b.w);
    var dy := Middle(a.y, a.h) - Middle(b.y, b.h);
    var side := if b.w < b.h then b.w else b.h;
    side < 0 || dx * dx + dy * dy > side * side
  }

  // AppendToTrack: a short track whose detection jumped is noise and is removed.
  function AppendTo(p: Params, t: Track, id: nat, det: Obj): Option<Track> {
    if 2 * |t.objects| < p.minTrackDuration && t.objects != [] && Jumps(Last(t).rect, det.rect) then None
    else Some(t.(objects := LastN(t.objects + [det.(id := id)], p.maxObjects),
                 predicted := det.rect, lost := 0, length := t.length + 1))
  }

  predicate OutOfFrame(r: Rect, width: int, height: int) {
    r.x < 0 || r.y < 0 || r.x + r.w > width - 1 || r.y + r.h > height - 1
  }

  function TrimRect(r: Rect, width: int, height: int): Rect {
    Rect(if r.x < 0 then 0 else r.x,
         if r.y < 0 then 0 else r.y,
         if r.x + r.w > width - 1 then width - 1 - r.x else r.w,
         if r.y + r.h > height - 1 then height - 1 - r.y else r.h)
  }

  // EraseTrackIfBBoxIsOutOfFrame; None is erased.
  function Trim(p: Params, t: Track, width: int, height: int): Option<Track> {
    if t.predicted.w <= 0 || t.predicted.h <= 0 then None
    else if t.lost > p.forgetDelay / 3 && OutOfFrame(t.predicted, width, height) then None
    else Some(t.(predicted := TrimRect(t.predicted, width, height)))
  }

  predicate LostTooLong(p: Params, t: Track) {
    t.lost > p.forgetDelay || (t.length < 3 && t.lost > p.forgetDelay / 3)
  }

  // UpdateLostTrackAndEraseIfItsNeeded.
  function Age(p: Params, t: Track, predicted: Rect, width: int, height: int): Option<Track> {
    match Trim(p, t.(lost := t.lost + 1, predicted := predicted), width, height)
    case None => None
    case Some(t') => if LostTooLong(p, t') then None else Some(t')
  }

  // PreProcess keeps, in order, the detections within the configured ranges.
  predicate Passes(p: Params, d: Obj) {
    && d.confidence > p.minDetConf
    && d.rect.w != 0 && p.minAspect <= d.rect.h as real / d.rect.w as real <= p.maxAspect
    && p.minHeight <= d.rect.h as real <= p.maxHeight
  }

  function Filtered(p: Params, dets: seq<Obj>): (r: seq<Obj>)
    ensures |r| <= |dets| && forall d :: d in r <==> d in dets && Passes(p, d)
  {
    if dets == [] then []
    else
      var r := Filtered(p, dets[..|dets| - 1]);
      if Passes(p, dets[|dets| - 1]) then r + [dets[|dets| - 1]] else r
  }

  // ----- operations on the state

  datatype Op = Append | Aging | Trimming | Dropping

  // PredictRect3: a track of one object stays where it is.
  function Predicted(senses: Senses, id: nat, t: Track): Rect {
    if |t.objects| == 1 then t.objects[0].rect
    else if id in senses.predict then senses.predict[id] else Rect(0, 0, 0, 0)
  }

  function Apply(p: Params, i: Input, op: Op, id: nat, t: Track): Option<Track> {
    match op
    case Append =>
      if id in i.matchOf && i.matchOf[id] < |i.dets|
      then AppendTo(p, t, id, i.dets[i.matchOf[id]]) else Some(t)
    case Aging => Age(p, t, Predicted(i.senses, id, t), i.width, i.height)
    case Trimming => Trim(p, t, i.width, i.height)
    case Dropping => if t.lost > p.forgetDelay then None else Some(t)
  }

  predicate Erases(p: Params, i: Input, op: Op, s: State, id: nat) {
    id in s.tracks && Apply(p, i, op, id, s.tracks[id]) == None
  }

  // The effect of one operation on each of the given tracks; tracks do not affect each other.
  function Each(p: Params, i: Input, op: Op, ids: set<nat>, s: State): State {
    s.(tracks := map id | id in s.tracks && !(id in ids && Erases(p, i, op, s, id)) ::
                   if id in ids then Apply(p, i, op, id, s.tracks[id]).value else s.tracks[id],
       active := set id | id in s.active && !(id in ids && Erases(p, i, op, s, id)))
  }

  // One operation on one track; an unknown id is ignored.
  function Put(s: State, id: nat, t: Option<Track>): State {
    match t
    case None => s.(tracks := s.tracks - {id}, active := s.active - {id})
    case Some(t') => s.(tracks := s.tracks[id := t'])
  }

  function One(p: Params, i: Input, op: Op, s: State, id: nat): State {
    if id in s.tracks then Put(s, id, Apply(p, i, op, id, s.tracks[id])) else s
  }

  lemma EachNone(p: Params, i: Input, op: Op, s: State)
    ensures Each(p, i, op, {}, s) == s
  {
    assert Each(p, i, op, {}, s).tracks == s.tracks;
    assert Each(p, i, op, {}, s).active == s.active;
  }

  // The operations on different tracks can be carried out one after the other, in any order.
  lemma EachMore(p: Params, i: Input, op: Op, ids: set<nat>, s: State, id: nat)
    requires id !in ids
    ensures Each(p, i, op, ids + {id}, s) == One(p, i, op, Each(p, i, op, ids, s), id)
  {
    var l, r := Each(p, i, op, ids + {id}, s), One(p, i, op, Each(p, i, op, ids, s), id);
    assert l.tracks.Keys == r.tracks.Keys;
    assert l.tracks == r.tracks;
    assert l.active == r.active;
  }

  // tracks_.emplace keeps an existing entry; KeysBelow rules that out.
  function AddTrack(s: State, det: Obj): State {
    State(if s.counter in s.tracks then s.tracks else s.tracks[s.counter := NewTrack(det, s.counter)],
          s.active + {s.counter}, s.counter + 1)
  }

  // New tracks for the detections listed in ids, in ascending order, up to index n.
  function AddTracks(s: State, dets: seq<Obj>, ids: set<nat>, n: nat): State
    requires n <= |dets|
  {
    if n == 0 then s else
      var s' := AddTracks(s, dets, ids, n - 1);
      if n - 1 in ids then AddTrack(s', dets[n - 1]) else s'
  }

  // ----- merging two tracks

  ghost predicate NoCommonFrame(a: seq<Obj>, b: seq<Obj>) {
    forall i, j :: 0 <= i < |a| && 0 <= j < |b| ==> a[i].frame != b[j].frame
  }

  // Walking both tracks, always advancing the one with the earlier frame, never stands on equal frames.
  // For tracks in frame order this is having no common frame (NeverMeetIff).
  ghost predicate NeverMeet(a: seq<Obj>, b: seq<Obj>)
    decreases |a| + |b|
  {
    a == [] || b == [] ||
    (a[0].frame != b[0].frame &&
     if a[0].frame < b[0].frame then NeverMeet(a[1..], b) else NeverMeet(a, b[1..]))
  }

  const FAR := 10000

  function Gap(x: Obj, y: Obj): nat {
    if x.frame < y.frame then y.frame - x.frame else x.frame - y.frame
  }

  // The first pair that walk stands on with the least frame gap below `gap`, and that gap.
  ghost function Nearest(a: seq<Obj>, b: seq<Obj>, gap: nat, best: Option<(Obj, Obj)>): (nat, Option<(Obj, Obj)>)
    decreases |a| + |b|
  {
    if a == [] || b == [] then (gap, best) else
      var (gap', best') := if Gap(a[0], b[0]) < gap then (Gap(a[0], b[0]), Some((a[0], b[0]))) else (gap, best);
      if a[0].frame < b[0].frame then Nearest(a[1..], b, gap', best')
      else if a[0].frame > b[0].frame then Nearest(a, b[1..], gap', best')
      else (gap', best')
  }

  function Half(n: int): int { if n >= 0 then n / 2 else -(-n / 2) }

  // Whether a side of one rectangle has moved too far for the frames in between.
  predicate Moved(lowX: int, sizeX: int, lowY: int, sizeY: int, gap: nat) {
    var d := RoundHalf(2 * lowX + sizeX - (2 * lowY + sizeY));
    2 * (if d < 0 then -d else d) > Half(sizeX + sizeY) * (if gap < 3 then gap else 3)
  }

  // Rectify's test of the nearest pair; without one both offsets are 0.
  predicate NearEnough(gap: nat, nearest: Option<(Obj, Obj)>) {
    match nearest
    case None => true
    case Some(n) =>
      var x, y := n.0.rect, n.1.rect;
      !Moved(x.x, x.w, y.x, y.w, gap) && !Moved(x.y, x.h, y.y, y.h, gap)
  }

  // The merge along that walk, with the objects of b relabelled.
  ghost function Interleave(a: seq<Obj>, b: seq<Obj>, id: int): seq<Obj>
    requires NeverMeet(a, b)
    decreases |a| + |b|
  {
    if a == [] && b == [] then []
    else if b == [] || (a != [] && a[0].frame < b[0].frame) then [a[0]] + Interleave(a[1..], b, id)
    else [b[0].(id := id)] + Interleave(a, b[1..], id)
  }

  ghost function Merged(p: Params, t1: Track, t2: Track): Track
    requires t1.objects != [] && t2.objects != [] && NeverMeet(t1.objects, t2.objects)
  {
    var id := t1.objects[0].id;
    Track(LastN(Interleave(t1.objects, t2.objects, id), p.maxObjects),
          t2.predicted, 0, t1.length + t2.length,
          if t1.objects[0].frame <= t2.objects[0].frame then t1.first
          else if t2.first in t2.objects then t2.first.(id := id)      // relabelled through the shared object
          else t2.first)
  }

  // MergeTrack needs both tracks, with objects, and its loop must not stand on equal frames.
  ghost predicate Mergeable(s: State, id1: nat, id2: nat) {
    && id1 in s.tracks && id2 in s.tracks && id1 != id2
    && s.tracks[id1].objects != [] && s.tracks[id2].objects != []
    && NeverMeet(s.tracks[id1].objects, s.tracks[id2].objects)
  }

  ghost function Merge(p: Params, s: State, id1: nat, id2: nat): State
    requires Mergeable(s, id1, id2)
  {
    s.(tracks := s.tracks[id1 := Merged(p, s.tracks[id1], s.tracks[id2])] - {id2}, active := s.active - {id2})
  }

  // The merges of one Rectify call; each candidate is a (lost id, new id, affinity) triple.
  ghost function MergeAll(p: Params, s: State, merges: seq<Cand>): State
    decreases merges
  {
    if merges == [] then s
    else if Mergeable(s, merges[0].track, merges[0].det)
    then MergeAll(p, Merge(p, s, merges[0].track, merges[0].det), merges[1..])
    else s                                  // the source would loop forever; ruled out by PlanMerges
  }

  predicate IsNew(p: Params, t: Track) { t.lost == 0 && t.length as real == p.rectifyLength }

  predicate IsLost(p: Params, t: Track) { t.lost != 0 && t.objects != [] && t.length > p.minTrackDuration }

  // A pair Rectify may merge.
  ghost predicate Rejoins(p: Params, s: State, senses: Senses, c: Cand) {
    && c.track in s.tracks && c.det in s.tracks
    && IsLost(p, s.tracks[c.track]) && IsNew(p, s.tracks[c.det])
    && NeverMeet(s.tracks[c.track].objects, s.tracks[c.det].objects)
    && (var n := Nearest(s.tracks[c.det].objects, s.tracks[c.track].objects, FAR, None); NearEnough(n.0, n.1))
    && (c.track, c.det) in senses.alike && senses.alike[(c.track, c.det)] == c.score
  }

  // merges is a greedy choice among all the pairs Rectify may merge.
  ghost predicate Plan(p: Params, s: State, senses: Senses, merges: seq<Cand>) {
    exists cands: set<Cand> :: BestFirst(cands, merges) && AllRejoining(p, s, senses, cands)
  }

  ghost predicate AllRejoining(p: Params, s: State, senses: Senses, cands: set<Cand>) {
    forall c :: c in cands <==> Rejoins(p, s, senses, c)
  }

  // ----- one call of Process

  function Tracked(p: Params, s: State, i: Input): State {
    if s.active != {} && i.dets != [] then
      var appended := Each(p, i, Append, i.matchOf.Keys, s);
      var added := AddTracks(appended, i.dets, i.unmatchedDets, |i.dets|);
      var aged := Each(p, i, Aging, i.unmatchedTracks, added);
      Each(p, i, Trimming, s.active, aged)
    else
      var added := AddTracks(s, i.dets, Indices(|i.dets|), |i.dets|);
      Each(p, i, Aging, s.active, added)
  }

  function Dropped(p: Params, s: State, i: Input): State {
    if p.dropForgotten then Each(p, i, Dropping, s.tracks.Keys, s) else s
  }

  ghost function Step(p: Params, s: State, i: Input): State {
    var dropped := Dropped(p, Tracked(p, s, i), i);
    if p.useRectify then MergeAll(p, dropped, i.merges) else dropped
  }

  // TrackedDetections reports the last object of every track seen in the last frame that is long
  // enough, in ascending order of id; these are the ones below n.
  predicate Shown(p: Params, t: Track) {
    t.objects != [] && t.length > p.minTrackDuration && t.lost == 0
  }

  predicate ShownId(p: Params, s: State, id: nat) { id in s.active && id in s.tracks && Shown(p, s.tracks[id]) }

  function Reported(p: Params, s: State, n: nat): (r: seq<Obj>)
    ensures forall d :: d in r <==> exists id: nat :: id < n && ShownId(p, s, id) && Last(s.tracks[id]) == d
  {
    if n == 0 then []
    else Reported(p, s, n - 1) + if ShownId(p, s, n - 1) then [Last(s.tracks[n - 1])] else []
  }

  // The matching is one the assignment can return for the given similarities.
  ghost predicate Matched(s: State, i: Input) {
    exists matches: set<Cand>, chosen: seq<Cand> ::
      && Solved(s.active, |i.dets|, i.senses.similarity, i.unmatchedTracks, i.unmatchedDets, matches, chosen)
      && MatchesOf(matches, i.matchOf)
  }

  // The map form of a set of matches.
  ghost predicate MatchesOf(matches: set<Cand>, matchOf: map<nat, nat>) {
    && matchOf.Keys == (set c | c in matches :: c.track)
    && (forall c :: c in matches ==> matchOf[c.track] == c.det)
  }

  ghost function MapOf(matches: set<Cand>): (m: map<nat, nat>)
    requires forall c, d :: c in matches && d in matches && ShareEnd(c, d) ==> c == d
    ensures MatchesOf(matches, m)
  {
    assert forall c, d :: c in matches && d in matches && c.track == d.track ==> ShareEnd(c, d);
    map c | c in matches :: c.track := c.det
  }

  ghost predicate ValidInput(p: Params, s: State, i: Input) {
    && (forall d :: d in i.dets ==> d.frame == i.frame)
    && InRange(i.senses.similarity, s.active, |i.dets|)
    && (s.active != {} && i.dets != [] ==> Matched(s, i))
    && (p.useRectify ==> Plan(p, Dropped(p, Tracked(p, s, i), i), i.senses, i.merges))
  }

  lemma EachIgnoresMerges(p: Params, i: Input, merges: seq<Cand>, op: Op, ids: set<nat>, s: State)
    ensures Each(p, i.(merges := merges), op, ids, s) == Each(p, i, op, ids, s)
  {
    hide AppendTo, Age, Trim;
    var j := i.(merges := merges);
    forall id | id in s.tracks ensures Apply(p, j, op, id, s.tracks[id]) == Apply(p, i, op, id, s.tracks[id]) {}
    assert Each(p, j, op, ids, s).tracks == Each(p, i, op, ids, s).tracks;
    assert Each(p, j, op, ids, s).active == Each(p, i, op, ids, s).active;
  }

  // Everything before Rectify is independent of the merges it will choose.
  lemma TrackedIgnoresMerges(p: Params, s: State, i: Input, merges: seq<Cand>)
    ensures Tracked(p, s, i.(merges := merges)) == Tracked(p, s, i)
    ensures Dropped(p, s, i.(merges := merges)) == Dropped(p, s, i)
  {
    EachIgnoresMerges(p, i, merges, Append, i.matchOf.Keys, s);
    var added := AddTracks(Each(p, i, Append, i.matchOf.Keys, s), i.dets, i.unmatchedDets, |i.dets|);
    EachIgnoresMerges(p, i, merges, Aging, i.unmatchedTracks, added);
    EachIgnoresMerges(p, i, merges, Trimming, s.active, Each(p, i, Aging, i.unmatchedTracks, added));
    EachIgnoresMerges(p, i, merges, Aging, s.active, AddTracks(s, i.dets, Indices(|i.dets|), |i.dets|));
    EachIgnoresMerges(p, i, merges, Dropping, s.tracks.Keys, s);
  }

  // ----- the invariant of every run

  ghost predicate Increasing(s: seq<Obj>) {
    forall i, j :: 0 <= i < j < |s| ==> s[i].frame < s[j].frame
  }

  ghost predicate TrackOk(p: Params, id: nat, t: Track) {
    && t.objects != [] && (forall k :: 0 <= k < |t.objects| ==> t.objects[k].id == id)
    && |t.objects| <= t.length && !LostTooLong(p, t)
    && (p.maxObjects > 0 ==> |t.objects| <= p.maxObjects)
  }

  ghost predicate InOrder(t: Track, frame: int) {
    t.objects != [] && Increasing(t.objects) && Last(t).frame <= frame
  }

  // What every call keeps, whatever its frame index is.
  ghost predicate Base(p: Params, s: State) {
    && s.active == s.tracks.Keys
    && (forall id :: id in s.tracks ==> id < s.counter && TrackOk(p, id, s.tracks[id]))
  }

  // What calls keep besides while frame indices increase (and only then, see FrameOrder).
  ghost predicate Ordered(s: State, frame: int) {
    forall id :: id in s.tracks ==> InOrder(s.tracks[id], frame)
  }

  ghost predicate Inv(p: Params, s: State, frame: int) { Base(p, s) && Ordered(s, frame) }

  const Empty := State(map[], {}, 1)

  lemma AppendKeepsTrack(p: Params, id: nat, t: Track, det: Obj)
    requires TrackOk(p, id, t) && AppendTo(p, t, id, det).Some?
    ensures TrackOk(p, id, AppendTo(p, t, id, det).value)
  {
  }

  // Appending keeps the frame order exactly when the new frame is later than the last one (or a track
  // holds only one object).  FrameOrder.KeepsOrderIff is the same for whole runs.
  lemma AppendKeepsOrderIff(p: Params, id: nat, t: Track, det: Obj)
    requires t.objects != [] && Increasing(t.objects) && AppendTo(p, t, id, det).Some?
    ensures Increasing(AppendTo(p, t, id, det).value.objects) <==> Last(t).frame < det.frame || p.maxObjects == 1
    ensures AppendTo(p, t, id, det).value.objects != [] && Last(AppendTo(p, t, id, det).value).frame == det.frame
  {
    var all := t.objects + [det.(id := id)];
    var r := LastN(all, p.maxObjects);
    var skipped := |all| - |r|;
    assert r == all[skipped..];
    if Last(t).frame < det.frame {
      forall j, k | 0 <= j < k < |r| ensures r[j].frame < r[k].frame {
        assert k + skipped < |t.objects| ==> t.objects[j + skipped].frame < t.objects[k + skipped].frame;
        assert j + skipped < |t.objects| - 1 ==> t.objects[j + skipped].frame < Last(t).frame;
      }
    } else if p.maxObjects != 1 {
      assert r[|r| - 2] == Last(t) && r[|r| - 1] == det.(id := id);
    }
  }

  lemma ApplyKeepsTrack(p: Params, i: Input, op: Op, id: nat, t: Track)
    requires TrackOk(p, id, t)
    ensures Apply(p, i, op, id, t).Some? ==> TrackOk(p, id, Apply(p, i, op, id, t).value)
  {
    if op == Append && id in i.matchOf && i.matchOf[id] < |i.dets| {
      var det := i.dets[i.matchOf[id]];
      if AppendTo(p, t, id, det).Some? { AppendKeepsTrack(p, id, t, det); }
    }
  }

  lemma EachKeepsBase(p: Params, i: Input, op: Op, ids: set<nat>, s: State)
    requires Base(p, s)
    ensures Base(p, Each(p, i, op, ids, s))
  {
    var s' := Each(p, i, op, ids, s);
    forall id | id in s'.tracks ensures id < s'.counter && TrackOk(p, id, s'.tracks[id]) {
      ApplyKeepsTrack(p, i, op, id, s.tracks[id]);
    }
  }

  lemma ApplyKeepsOrder(p: Params, i: Input, op: Op, id: nat, t: Track, frame: int)
    requires InOrder(t, frame) && frame <= i.frame
    requires op == Append ==> frame < i.frame && forall d :: d in i.dets ==> d.frame == i.frame
    ensures Apply(p, i, op, id, t).Some? ==> InOrder(Apply(p, i, op, id, t).value, i.frame)
  {
    if op == Append && id in i.matchOf && i.matchOf[id] < |i.dets| {
      var det := i.dets[i.matchOf[id]];
      assert det in i.dets;
      if AppendTo(p, t, id, det).Some? { AppendKeepsOrderIff(p, id, t, det); }
    }
  }

  lemma EachKeepsOrder(p: Params, i: Input, op: Op, ids: set<nat>, s: State, frame: int)
    requires Ordered(s, frame) && frame <= i.frame
    requires op == Append ==> frame < i.frame && forall d :: d in i.dets ==> d.frame == i.frame
    ensures Ordered(Each(p, i, op, ids, s), i.frame)
  {
    var s' := Each(p, i, op, ids, s);
    forall id | id in s'.tracks ensures InOrder(s'.tracks[id], i.frame) {
      ApplyKeepsOrder(p, i, op, id, s.tracks[id], frame);
    }
  }

  lemma {:induction false} AddTracksKeepsBase(p: Params, s: State, dets: seq<Obj>, ids: set<nat>, n: nat)
    requires Base(p, s) && n <= |dets|
    ensures Base(p, AddTracks(s, dets, ids, n))
    decreases n
  {
    if n > 0 { AddTracksKeepsBase(p, s, dets, ids, n - 1); }
  }

  lemma {:induction false} AddTracksKeepsOrder(s: State, dets: seq<Obj>, ids: set<nat>, n: nat, frame: int)
    requires Ordered(s, frame) && n <= |dets| && forall d :: d in dets ==> d.frame == frame
    ensures Ordered(AddTracks(s, dets, ids, n), frame)
    decreases n
  {
    if n > 0 {
      AddTracksKeepsOrder(s, dets, ids, n - 1, frame);
      assert dets[n - 1] in dets;
    }
  }

  // ----- merging keeps the invariant

  lemma {:induction false} NeverMeetSymmetric(a: seq<Obj>, b: seq<Obj>)
    ensures NeverMeet(a, b) == NeverMeet(b, a)
    decreases |a| + |b|
  {
    if a != [] && b != [] {
      if a[0].frame < b[0].frame { NeverMeetSymmetric(a[1..], b); } else { NeverMeetSymmetric(a, b[1..]); }
    }
  }

  // For tracks in frame order the walk finds every common frame.
  lemma {:induction false} NeverMeetIff(a: seq<Obj>, b: seq<Obj>)
    requires Increasing(a) && Increasing(b)
    ensures NeverMeet(a, b) <==> NoCommonFrame(a, b)
    decreases |a| + |b|
  {
    if a != [] && b != [] {
      if a[0].frame < b[0].frame {
        NeverMeetIff(a[1..], b);
        HeadAlone(a, b);
      } else if a[0].frame > b[0].frame {
        NeverMeetIff(a, b[1..]);
        HeadAlone(b, a);
      }
    }
  }

  lemma HeadAlone(a: seq<Obj>, b: seq<Obj>)
    requires a != [] && b != [] && Increasing(a) && Increasing(b) && a[0].frame < b[0].frame
    ensures Increasing(a[1..])
    ensures NoCommonFrame(a, b) <==> NoCommonFrame(a[1..], b)
    ensures NoCommonFrame(b, a) <==> NoCommonFrame(b, a[1..])
  {
    assert forall i :: 0 <= i < |a| - 1 ==> a[1..][i] == a[i + 1];
    assert forall j :: 0 <= j < |b| ==> a[0].frame < b[j].frame;
    assert forall i :: 0 < i < |a| ==> a[i] == a[1..][i - 1];
  }

  lemma {:induction false} InterleaveIds(a: seq<Obj>, b: seq<Obj>, id: int)
    requires NeverMeet(a, b) && forall k :: 0 <= k < |a| ==> a[k].id == id
    ensures var m := Interleave(a, b, id);
            |m| == |a| + |b| && forall k :: 0 <= k < |m| ==> m[k].id == id
    decreases |a| + |b|
  {
    if a == [] && b == [] {
    } else if b == [] || (a != [] && a[0].frame < b[0].frame) {
      InterleaveIds(a[1..], b, id);
    } else {
      InterleaveIds(a, b[1..], id);
    }
  }

  // The merge of two tracks in frame order is in frame order.
  lemma {:induction false} InterleaveOk(a: seq<Obj>, b: seq<Obj>, id: int, low: int, high: int)
    requires NeverMeet(a, b) && Increasing(a) && Increasing(b)
    requires forall o :: o in a || o in b ==> low <= o.frame <= high
    ensures var m := Interleave(a, b, id);
            |m| == |a| + |b| && Increasing(m) && forall o :: o in m ==> low <= o.frame <= high
    decreases |a| + |b|
  {
    if a == [] && b == [] {
    } else if b == [] || (a != [] && a[0].frame < b[0].frame) {
      HeadBelow(a, b, high);
      TailOk(a);
      InterleaveOk(a[1..], b, id, a[0].frame + 1, high);
    } else {
      HeadBelow(b, a, high);
      TailOk(b);
      InterleaveOk(a, b[1..], id, b[0].frame + 1, high);
    }
  }

  lemma TailOk(a: seq<Obj>)
    requires a != [] && Increasing(a)
    ensures Increasing(a[1..])
  {
    assert forall i :: 0 <= i < |a| - 1 ==> a[1..][i] == a[i + 1];
  }

  lemma HeadBelow(a: seq<Obj>, b: seq<Obj>, high: int)
    requires a != [] && Increasing(a) && Increasing(b) && (b != [] ==> a[0].frame < b[0].frame)
    requires forall o :: o in a || o in b ==> o.frame <= high
    ensures forall o :: o in a[1..] || o in b ==> a[0].frame + 1 <= o.frame <= high
  {
    forall o | o in a[1..] ensures a[0].frame < o.frame {
      var k :| 0 <= k < |a| - 1 && a[1..][k] == o;
      assert a[0].frame < a[k + 1].frame;
    }
    forall o | o in b ensures a[0].frame < o.frame {
      var k :| 0 <= k < |b| && b[k] == o;
      assert k == 0 || b[0].frame < b[k].frame;
    }
  }

  ghost function LastFrameOf(a: seq<Obj>): int
    requires a != []
  {
    a[|a| - 1].frame
  }

  lemma FirstBelowLast(a: seq<Obj>)
    requires a != [] && Increasing(a)
    ensures a[0].frame <= LastFrameOf(a) && (|a| > 1 ==> LastFrameOf(a[1..]) == LastFrameOf(a))
  {
  }

  lemma LastOfCons(x: Obj, m: seq<Obj>)
    requires m != []
    ensures LastFrameOf([x] + m) == LastFrameOf(m)
  {
  }

  lemma {:induction false} InterleaveLast(a: seq<Obj>, b: seq<Obj>, id: int)
    requires NeverMeet(a, b) && Increasing(a) && Increasing(b) && a != [] && b != []
    ensures var m := Interleave(a, b, id);
            m != [] && LastFrameOf(m) == if LastFrameOf(a) < LastFrameOf(b) then LastFrameOf(b) else LastFrameOf(a)
    decreases |a| + |b|
  {
    FirstBelowLast(a);
    FirstBelowLast(b);
    if a[0].frame < b[0].frame {
      TailOk(a);
      var m := Interleave(a[1..], b, id);
      if |a| == 1 {
        assert a[1..] == [];
        InterleaveRest(b, id);
      } else {
        InterleaveLast(a[1..], b, id);
      }
      LastOfCons(a[0], m);
    } else {
      TailOk(b);
      var m := Interleave(a, b[1..], id);
      if |b| == 1 {
        assert b[1..] == [];
        InterleaveSame(a, id);
      } else {
        InterleaveLast(a, b[1..], id);
      }
      LastOfCons(b[0].(id := id), m);
    }
  }

  // The merge holds exactly the objects of a and the relabelled objects of b; being in frame order
  // (InterleaveOk), it is the only such list.
  lemma {:induction false} InterleaveContents(a: seq<Obj>, b: seq<Obj>, id: int)
    requires NeverMeet(a, b)
    ensures multiset(Interleave(a, b, id)) == multiset(a) + multiset(Relabelled(b, id))
    decreases |a| + |b|
  {
    if a == [] && b == [] {
    } else if b == [] || (a != [] && a[0].frame < b[0].frame) {
      var m := Interleave(a[1..], b, id);
      InterleaveContents(a[1..], b, id);
      assert Interleave(a, b, id) == [a[0]] + m;
      HeadCounted(a[0], a, Relabelled(b, id), m);
    } else {
      var m := Interleave(a, b[1..], id);
      var x := b[0].(id := id);
      InterleaveContents(a, b[1..], id);
      assert Interleave(a, b, id) == [x] + m;
      RelabelledCons(b, id);
      HeadCounted(x, Relabelled(b, id), a, m);
    }
  }

  lemma RelabelledCons(b: seq<Obj>, id: int)
    requires b != []
    ensures Relabelled(b, id) == [b[0].(id := id)] + Relabelled(b[1..], id)
    ensures Relabelled(b, id)[1..] == Relabelled(b[1..], id)
  {
  }

  lemma HeadCounted(x: Obj, p: seq<Obj>, q: seq<Obj>, m: seq<Obj>)
    requires p != [] && p[0] == x && multiset(m) == multiset(p[1..]) + multiset(q)
    ensures multiset([x] + m) == multiset(p) + multiset(q)
  {
    assert p == [x] + p[1..];
    assert multiset([x] + m) == multiset{x} + multiset(m);
    assert multiset(p) == multiset{x} + multiset(p[1..]);
  }

  ghost function Relabelled(s: seq<Obj>, id: int): seq<Obj> {
    if s == [] then [] else [s[0].(id := id)] + Relabelled(s[1..], id)
  }

  lemma {:induction false} InterleaveRest(b: seq<Obj>, id: int)
    requires b != []
    ensures var m := Interleave([], b, id); m != [] && LastFrameOf(m) == LastFrameOf(b)
  {
    if |b| > 1 { InterleaveRest(b[1..], id); }
  }

  lemma {:induction false} InterleaveSame(a: seq<Obj>, id: int)
    ensures Interleave(a, [], id) == a
  {
    if a != [] { InterleaveSame(a[1..], id); }
  }

  lemma MergedOk(p: Params, id: nat, t1: Track, t2: Track)
    requires TrackOk(p, id, t1) && t2.objects != [] && |t2.objects| <= t2.length && NeverMeet(t1.objects, t2.objects)
    ensures TrackOk(p, id, Merged(p, t1, t2))
  {
    InterleaveIds(t1.objects, t2.objects, id);
    NotForgotten(p, Merged(p, t1, t2));
  }

  lemma MergedInOrder(p: Params, t1: Track, t2: Track, frame: int)
    requires InOrder(t1, frame) && InOrder(t2, frame) && NeverMeet(t1.objects, t2.objects)
    ensures InOrder(Merged(p, t1, t2), frame)
  {
    var a, b := t1.objects, t2.objects;
    var low := if a[0].frame < b[0].frame then a[0].frame else b[0].frame;
    WithinEnds(a, low, frame);
    WithinEnds(b, low, frame);
    InterleaveOk(a, b, a[0].id, low, frame);
    KeptOk(Interleave(a, b, a[0].id), p.maxObjects, frame);
  }

  lemma KeptOk(m: seq<Obj>, n: int, frame: int)
    requires m != [] && Increasing(m) && forall o :: o in m ==> o.frame <= frame
    ensures var r := LastN(m, n); r != [] && Increasing(r) && r[|r| - 1].frame <= frame
  {
    var r := LastN(m, n);
    var skipped := |m| - |r|;
    assert r == m[skipped..];
    assert m[|m| - 1] in m;
    forall j, k | 0 <= j < k < |r| ensures r[j].frame < r[k].frame {
      assert m[skipped + j].frame < m[skipped + k].frame;
    }
  }

  lemma NotForgotten(p: Params, t: Track)
    requires t.lost == 0
    ensures !LostTooLong(p, t)
  {
  }

  lemma WithinEnds(a: seq<Obj>, low: int, high: int)
    requires a != [] && Increasing(a) && low <= a[0].frame && a[|a| - 1].frame <= high
    ensures forall o :: o in a ==> low <= o.frame <= high
  {
    forall o | o in a ensures low <= o.frame <= high {
      var k :| 0 <= k < |a| && a[k] == o;
      assert k == 0 || a[0].frame < a[k].frame;
      assert k == |a| - 1 || a[k].frame < a[|a| - 1].frame;
    }
  }

  lemma MergeKeepsBase(p: Params, s: State, id1: nat, id2: nat)
    requires Base(p, s) && Mergeable(s, id1, id2)
    ensures Base(p, Merge(p, s, id1, id2))
  {
    MergedOk(p, id1, s.tracks[id1], s.tracks[id2]);
  }

  lemma MergeKeepsInv(p: Params, s: State, id1: nat, id2: nat, frame: int)
    requires Inv(p, s, frame) && Mergeable(s, id1, id2)
    ensures Inv(p, Merge(p, s, id1, id2), frame)
  {
    MergeKeepsBase(p, s, id1, id2);
    MergedInOrder(p, s.tracks[id1], s.tracks[id2], frame);
  }

  lemma {:induction false} MergeAllKeepsBase(p: Params, s: State, merges: seq<Cand>)
    requires Base(p, s)
    ensures Base(p, MergeAll(p, s, merges))
    decreases merges
  {
    if merges != [] && Mergeable(s, merges[0].track, merges[0].det) {
      MergeKeepsBase(p, s, merges[0].track, merges[0].det);
      MergeAllKeepsBase(p, Merge(p, s, merges[0].track, merges[0].det), merges[1..]);
    }
  }

  lemma {:induction false} MergeAllKeepsInv(p: Params, s: State, merges: seq<Cand>, frame: int)
    requires Inv(p, s, frame)
    ensures Inv(p, MergeAll(p, s, merges), frame)
    decreases merges
  {
    if merges != [] && Mergeable(s, merges[0].track, merges[0].det) {
      MergeKeepsInv(p, s, merges[0].track, merges[0].det, frame);
      MergeAllKeepsInv(p, Merge(p, s, merges[0].track, merges[0].det), merges[1..], frame);
    }
  }

  // A plan in progress: pairs still to be merged, each id at most once.
  ghost predicate PlanLeft(s: State, merges: seq<Cand>) {
    && Matching(merges)
    && (forall c :: c in merges ==> Mergeable(s, c.track, c.det))
    && (forall c, d :: c in merges && d in merges ==> c.track != d.det)
  }

  // No merge of a plan ever meets the looping case: each id occurs at most once, so every pair is as
  // untouched as when the walk over it was found to get through.
  lemma PlanMerges(p: Params, s: State, merges: seq<Cand>)
    requires PlanLeft(s, merges) && merges != []
    ensures Mergeable(s, merges[0].track, merges[0].det)
    ensures PlanLeft(Merge(p, s, merges[0].track, merges[0].det), merges[1..])
  {
    var c := merges[0];
    assert c in merges;
    forall d | d in merges[1..] ensures Mergeable(Merge(p, s, c.track, c.det), d.track, d.det) {
      var k :| 0 <= k < |merges[1..]| && merges[1..][k] == d;
      assert merges[k + 1] == d && !ShareEnd(merges[0], merges[k + 1]);
      assert d in merges;
    }
  }

  lemma RestUntouched(p: Params, s: State, merges: seq<Cand>)
    requires PlanLeft(s, merges) && merges != [] && Mergeable(s, merges[0].track, merges[0].det)
    ensures var s' := Merge(p, s, merges[0].track, merges[0].det);
            forall d :: d in merges[1..] ==>
              && d in merges
              && d.track in s'.tracks && s'.tracks[d.track] == s.tracks[d.track]
              && d.det in s'.tracks && s'.tracks[d.det] == s.tracks[d.det]
  {
    assert merges[0] in merges;
    forall d | d in merges[1..] ensures d in merges && !ShareEnd(merges[0], d) {
      var k :| 0 <= k < |merges[1..]| && merges[1..][k] == d;
      assert merges[k + 1] == d;
    }
  }

  // A plan is carried out in full: its new ids disappear, its lost ids hold the merge of the two
  // tracks as they were, and nothing else changes.
  lemma {:induction false} PlanCarriedOut(p: Params, s: State, merges: seq<Cand>, id: nat)
    requires PlanLeft(s, merges)
    ensures var s' := MergeAll(p, s, merges);
            && (id in s'.tracks <==> id in s.tracks && forall c :: c in merges ==> c.det != id)
            && (id in s.tracks && (forall c :: c in merges ==> c.track != id && c.det != id) ==>
                  id in s'.tracks && s'.tracks[id] == s.tracks[id])
            && (forall c :: c in merges && c.track == id ==>
                  id in s'.tracks && s'.tracks[id] == Merged(p, s.tracks[id], s.tracks[c.det]))
    decreases |merges|
  {
    if merges != [] {
      var c := merges[0];
      assert c in merges;
      PlanMerges(p, s, merges);
      RestUntouched(p, s, merges);
      hide Merged, NeverMeet;
      var s1 := Merge(p, s, c.track, c.det);
      PlanCarriedOut(p, s1, merges[1..], id);
      forall d | d in merges[1..] ensures d.track != c.track && d.det != c.det {
        var k :| 0 <= k < |merges[1..]| && merges[1..][k] == d;
        assert merges[k + 1] == d && !ShareEnd(merges[0], merges[k + 1]);
      }
    }
  }

  lemma PlanStart(p: Params, s: State, senses: Senses, merges: seq<Cand>)
    requires Base(p, s) && Plan(p, s, senses, merges)
    ensures PlanLeft(s, merges)
    ensures forall c :: c in merges ==> Rejoins(p, s, senses, c)
  {
    var cands: set<Cand> :| BestFirst(cands, merges) && AllRejoining(p, s, senses, cands);
    BestFirstMatching(cands, merges);
    forall c | c in merges ensures Mergeable(s, c.track, c.det) {
      assert Rejoins(p, s, senses, c);
    }
  }

  // ----- one call

  lemma MapFacts(matches: set<Cand>, m: map<nat, nat>)
    requires MatchesOf(matches, m)
    requires forall c, d :: c in matches && d in matches && ShareEnd(c, d) ==> c == d
    ensures forall t, u :: t in m && u in m && m[t] == m[u] ==> t == u
    ensures m.Values == (set c | c in matches :: c.det)
  {
    forall t, u | t in m && u in m && m[t] == m[u] ensures t == u {
      var c :| c in matches && c.track == t;
      var d :| d in matches && d.track == u;
      assert ShareEnd(c, d);
    }
    forall c | c in matches ensures c.det in m.Values { assert m[c.track] == c.det; }
    forall k | k in m.Values ensures k in (set c | c in matches :: c.det) {
      var t :| t in m && m[t] == k;
      var c :| c in matches && c.track == t;
    }
  }

  // Every track and every detection is matched or not, and no two tracks share a detection.
  lemma MatchedParts(s: State, i: Input)
    requires Matched(s, i) && InRange(i.senses.similarity, s.active, |i.dets|)
    ensures i.matchOf.Keys + i.unmatchedTracks == s.active && i.matchOf.Keys !! i.unmatchedTracks
    ensures forall t, u :: t in i.matchOf && u in i.matchOf && i.matchOf[t] == i.matchOf[u] ==> t == u
    ensures i.unmatchedDets + i.matchOf.Values == Indices(|i.dets|) && i.unmatchedDets !! i.matchOf.Values
    ensures forall t :: t in i.matchOf ==> i.matchOf[t] < |i.dets|
  {
    var matches: set<Cand>, chosen: seq<Cand> :|
      && Solved(s.active, |i.dets|, i.senses.similarity, i.unmatchedTracks, i.unmatchedDets, matches, chosen)
      && MatchesOf(matches, i.matchOf);
    MatchedPartition(s.active, |i.dets|, i.senses.similarity, i.unmatchedTracks, i.unmatchedDets, matches, chosen);
    MatchesStable(s.active, |i.dets|, i.senses.similarity, i.unmatchedTracks, i.unmatchedDets, matches, chosen);
    MapFacts(matches, i.matchOf);
    forall t | t in i.matchOf ensures i.matchOf[t] in Indices(|i.dets|) {
      assert i.matchOf[t] in i.matchOf.Values;
    }
  }

  lemma TrackedKeepsBase(p: Params, s: State, i: Input)
    requires Base(p, s)
    ensures Base(p, Tracked(p, s, i))
  {
    if s.active != {} && i.dets != [] {
      var appended := Each(p, i, Append, i.matchOf.Keys, s);
      EachKeepsBase(p, i, Append, i.matchOf.Keys, s);
      var added := AddTracks(appended, i.dets, i.unmatchedDets, |i.dets|);
      AddTracksKeepsBase(p, appended, i.dets, i.unmatchedDets, |i.dets|);
      EachKeepsBase(p, i, Aging, i.unmatchedTracks, added);
      EachKeepsBase(p, i, Trimming, s.active, Each(p, i, Aging, i.unmatchedTracks, added));
    } else {
      AddTracksKeepsBase(p, s, i.dets, Indices(|i.dets|), |i.dets|);
      EachKeepsBase(p, i, Aging, s.active, AddTracks(s, i.dets, Indices(|i.dets|), |i.dets|));
    }
  }

  lemma TrackedKeepsOrder(p: Params, s: State, i: Input, frame: int)
    requires Ordered(s, frame) && frame < i.frame && forall d :: d in i.dets ==> d.frame == i.frame
    ensures Ordered(Tracked(p, s, i), i.frame)
  {
    if s.active != {} && i.dets != [] {
      var appended := Each(p, i, Append, i.matchOf.Keys, s);
      EachKeepsOrder(p, i, Append, i.matchOf.Keys, s, frame);
      var added := AddTracks(appended, i.dets, i.unmatchedDets, |i.dets|);
      AddTracksKeepsOrder(appended, i.dets, i.unmatchedDets, |i.dets|, i.frame);
      EachKeepsOrder(p, i, Aging, i.unmatchedTracks, added, i.frame);
      EachKeepsOrder(p, i, Trimming, s.active, Each(p, i, Aging, i.unmatchedTracks, added), i.frame);
    } else {
      assert Ordered(s, i.frame) by {
        forall id | id in s.tracks ensures InOrder(s.tracks[id], i.frame) { assert InOrder(s.tracks[id], frame); }
      }
      AddTracksKeepsOrder(s, i.dets, Indices(|i.dets|), |i.dets|, i.frame);
      EachKeepsOrder(p, i, Aging, s.active, AddTracks(s, i.dets, Indices(|i.dets|), |i.dets|), i.frame);
    }
  }

  lemma TrackedKeepsInv(p: Params, s: State, i: Input, frame: int)
    requires Inv(p, s, frame) && frame < i.frame && forall d :: d in i.dets ==> d.frame == i.frame
    ensures Inv(p, Tracked(p, s, i), i.frame)
  {
    TrackedKeepsBase(p, s, i);
    TrackedKeepsOrder(p, s, i, frame);
  }

  // Every track lost for too long is erased when it ages, so dropping forgotten tracks finds nothing.
  lemma DropsNothing(p: Params, s: State, i: Input)
    requires Base(p, s)
    ensures Dropped(p, s, i) == s
  {
    var d := Each(p, i, Dropping, s.tracks.Keys, s);
    forall id | id in s.tracks ensures !Erases(p, i, Dropping, s, id) {
      assert TrackOk(p, id, s.tracks[id]);
    }
    assert d.tracks == s.tracks;
    assert d.active == s.active;
  }

  // One call, whatever its frame index.
  lemma StepKeepsBase(p: Params, s: State, i: Input)
    requires Base(p, s)
    ensures Base(p, Step(p, s, i))
  {
    TrackedKeepsBase(p, s, i);
    var t := Tracked(p, s, i);
    DropsNothing(p, t, i);
    if p.useRectify { MergeAllKeepsBase(p, t, i.merges); }
  }

  // One call with a later frame index than all before.
  lemma StepKeepsInv(p: Params, s: State, i: Input, frame: int)
    requires Inv(p, s, frame) && frame < i.frame && ValidInput(p, s, i)
    ensures Inv(p, Step(p, s, i), i.frame)
  {
    TrackedKeepsInv(p, s, i, frame);
    var t := Tracked(p, s, i);
    DropsNothing(p, t, i);
    if p.useRectify { MergeAllKeepsInv(p, t, i.merges, i.frame); }
  }
}
