/** What the tracker (thirdparty/tracker/TrackerLib.cpp) decides from rectangles, in their coordinates. */
module TrackDecisions {
  // When a matched detection is a jump that removes its track, when a lost and a new track are close enough
  // to be rejoined, what trimming to the frame does, and which detections pass the filter.

  import opened Wrappers
  import opened Sequences
  import opened Assignment
  import opened Tracking
  import opened TrackingRuns
  import opened Placement
  import opened Tracker

  // ----- rounding

  // Twice the pixel nearest to n / 2, halves going to the even pixel.
  function Even(n: int): int { if n % 2 == 0 then n else if n % 4 == 1 then n - 1 else n + 1 }

  lemma RoundHalfIs(n: int)
    ensures 2 * RoundHalf(n) == Even(n) && n - 1 <= Even(n) <= n + 1
  {
  }

  lemma SquareMonotone(a: int, b: int)
    requires -b <= a <= b
    ensures a * a <= b * b
  {
    assert (b - a) * (b + a) == b * b - a * a;
    ProductSign(b - a, b + a);
  }

  lemma ProductSign(a: int, b: int)
    requires a >= 0 && b >= 0
    ensures a * b >= 0
  {
  }

  lemma SquareStrict(a: int, b: int)
    requires b >= 0 && (a > b || a < -b)
    ensures a * a > b * b
  {
    var c := if a < 0 then -a else a;
    assert a * a == c * c;
    SquareMonotone(b + 1, c);
    assert (b + 1) * (b + 1) == b * b + 2 * b + 1;
  }

  // ----- jumps

  // In half pixels: the centre of b is farther from the centre of a than a side of b.
  predicate FarFrom(a: Rect, b: Rect) {
    var dx := Even(2 * a.x + a.w) - Even(2 * b.x + b.w);
    var dy := Even(2 * a.y + a.h) - Even(2 * b.y + b.h);
    b.w < 0 || b.h < 0 || dx * dx + dy * dy > (2 * b.w) * (2 * b.w) || dx * dx + dy * dy > (2 * b.h) * (2 * b.h)
  }

  lemma JumpsIff(a: Rect, b: Rect)
    ensures Jumps(a, b) <==> FarFrom(a, b)
  {
    RoundHalfIs(2 * a.x + a.w);
    RoundHalfIs(2 * b.x + b.w);
    RoundHalfIs(2 * a.y + a.h);
    RoundHalfIs(2 * b.y + b.h);
    var dx := Middle(a.x, a.w) - Middle(b.x, b.w);
    var dy := Middle(a.y, a.h) - Middle(b.y, b.h);
    if b.w >= 0 && b.h >= 0 {
      SumOfSquares(dx, dy, b.w);
      SumOfSquares(dx, dy, b.h);
      if b.w < b.h { SquareMonotone(b.w, b.h); } else { SquareMonotone(b.h, b.w); }
    }
  }

  lemma SumOfSquares(x: int, y: int, side: int)
    ensures x * x + y * y > side * side <==>
            (2 * x) * (2 * x) + (2 * y) * (2 * y) > (2 * side) * (2 * side)
  {
    assert (2 * x) * (2 * x) == 4 * (x * x) && (2 * y) * (2 * y) == 4 * (y * y);
    assert (2 * side) * (2 * side) == 4 * (side * side);
  }

  // Between rectangles of even sizes nothing is rounded.
  lemma FarFromEven(a: Rect, b: Rect)
    requires a.w % 2 == 0 && a.h % 2 == 0 && b.w % 2 == 0 && b.h % 2 == 0 && b.w >= 0 && b.h >= 0
    ensures var dx, dy := 2 * a.x + a.w - 2 * b.x - b.w, 2 * a.y + a.h - 2 * b.y - b.h;
            var side := 2 * if b.w < b.h then b.w else b.h;
            FarFrom(a, b) <==> dx * dx + dy * dy > side * side
  {
    EvenSize(a.x, a.w);
    EvenSize(a.y, a.h);
    EvenSize(b.x, b.w);
    EvenSize(b.y, b.h);
    hide Even;
    if b.w < b.h { SquareMonotone(2 * b.w, 2 * b.h); } else { SquareMonotone(2 * b.h, 2 * b.w); }
  }

  lemma EvenSize(low: int, size: int)
    requires size % 2 == 0
    ensures Even(2 * low + size) == 2 * low + size
  {
    var m := low + size / 2;
    assert size == 2 * (size / 2);
    hide Even;
    EvenDouble(m);
    assert 2 * low + size == 2 * m;
  }

  lemma EvenDouble(m: int)
    ensures Even(2 * m) == 2 * m
  {
    assert (2 * m) % 2 == 0;
  }

  // In general rounding moves each centre by half a pixel at most.
  lemma FarFromBounds(a: Rect, b: Rect)
    requires b.w >= 0 && b.h >= 0
    ensures var dx, dy := 2 * a.x + a.w - 2 * b.x - b.w, 2 * a.y + a.h - 2 * b.y - b.h;
            var side := 2 * if b.w < b.h then b.w else b.h;
            && (dx > side + 2 || dx < -side - 2 || dy > side + 2 || dy < -side - 2 ==> FarFrom(a, b))
            && (Outer(dx) * Outer(dx) + Outer(dy) * Outer(dy) <= side * side ==> !FarFrom(a, b))
  {
    var dx, dy := 2 * a.x + a.w - 2 * b.x - b.w, 2 * a.y + a.h - 2 * b.y - b.h;
    var ex := Even(2 * a.x + a.w) - Even(2 * b.x + b.w);
    var ey := Even(2 * a.y + a.h) - Even(2 * b.y + b.h);
    assert dx - 2 <= ex <= dx + 2 && dy - 2 <= ey <= dy + 2;
    hide Even;
    BetweenBounds(ex, ey, dx, dy, 2 * b.w, 2 * b.h);
  }

  lemma BetweenBounds(ex: int, ey: int, dx: int, dy: int, w: int, h: int)
    requires dx - 2 <= ex <= dx + 2 && dy - 2 <= ey <= dy + 2 && w >= 0 && h >= 0
    ensures var side := if w < h then w else h;
            var far := ex * ex + ey * ey > w * w || ex * ex + ey * ey > h * h;
            && (dx > side + 2 || dx < -side - 2 || dy > side + 2 || dy < -side - 2 ==> far)
            && (Outer(dx) * Outer(dx) + Outer(dy) * Outer(dy) <= side * side ==> !far)
  {
    SquareMonotone(ex, Outer(dx));
    SquareMonotone(ey, Outer(dy));
    SquareNatural(ex);
    SquareNatural(ey);
    if w < h { SquareMonotone(w, h); } else { SquareMonotone(h, w); }
    var side := if w < h then w else h;
    if ex > side || ex < -side { SquareStrict(ex, side); }
    if ey > side || ey < -side { SquareStrict(ey, side); }
  }

  lemma SquareNatural(a: int)
    ensures a * a >= 0
  {
  }

  function Outer(n: int): int { if n < 0 then 2 - n else n + 2 }

  lemma NotFarFromItself(a: Rect)
    requires a.w >= 0 && a.h >= 0
    ensures !FarFrom(a, a)
  {
    SquareNatural(2 * a.w);
    SquareNatural(2 * a.h);
  }

  // A matched detection removes its track exactly when the track is young and its last rectangle is far.
  lemma AppendRemovesIff(p: Params, t: Track, id: nat, det: Obj)
    requires t.objects != []
    ensures AppendTo(p, t, id, det) == None <==>
            2 * |t.objects| < p.minTrackDuration && FarFrom(Last(t).rect, det.rect)
  {
    hide Jumps, FarFrom;
    JumpsIff(Last(t).rect, det.rect);
  }

  // The same for a whole call: a matched track is gone before rejoining in this case only, and ends in its
  // detection otherwise.
  lemma MatchedRemovedIff(p: Params, s: State, i: Input, id: nat)
    requires Base(p, s) && ValidInput(p, s, i) && s.active != {} && i.dets != [] && id in i.matchOf
    requires forall d :: d in i.dets ==> d.rect.w > 0 && d.rect.h > 0
    ensures id in s.tracks && s.tracks[id].objects != [] && i.matchOf[id] < |i.dets|
    ensures var t, det, s' := s.tracks[id], i.dets[i.matchOf[id]], Tracked(p, s, i);
            if 2 * |t.objects| < p.minTrackDuration && FarFrom(Last(t).rect, det.rect) then id !in s'.tracks
            else PlacedAt(s', det, id)
  {
    hide Tracked, AppendTo, FarFrom, ValidInput;
    MatchedSurvives(p, s, i, id);
    assert TrackOk(p, id, s.tracks[id]);
    AppendRemovesIff(p, s.tracks[id], id, i.dets[i.matchOf[id]]);
  }

  // Detection k of a call is noise exactly when it is matched to a young track that was last seen far away;
  // with a minimal duration of at most 2 no detection is.
  lemma NoiseMeans(p: Params, s: State, i: Input, k: nat)
    requires Base(p, s)
    ensures Noise(p, s, i, k) <==>
            s.active != {} && k < |i.dets| &&
            exists t :: t in i.matchOf && i.matchOf[t] == k && t in s.tracks && s.tracks[t].objects != [] &&
                        2 * |s.tracks[t].objects| < p.minTrackDuration &&
                        FarFrom(Last(s.tracks[t]).rect, i.dets[k].rect)
    ensures p.minTrackDuration <= 2 ==> !Noise(p, s, i, k)
  {
    hide AppendTo, FarFrom;
    if s.active != {} && k < |i.dets| {
      forall t | t in i.matchOf && t in s.tracks
        ensures s.tracks[t].objects != []
        ensures AppendTo(p, s.tracks[t], t, i.dets[k]) == None <==>
                2 * |s.tracks[t].objects| < p.minTrackDuration && FarFrom(Last(s.tracks[t]).rect, i.dets[k].rect)
      {
        assert TrackOk(p, t, s.tracks[t]);
        AppendRemovesIff(p, s.tracks[t], t, i.dets[k]);
      }
    }
  }

  // ----- rejoining

  // Along one axis, in half pixels: the centres are at most as far apart as the mean side reaches in `gap`
  // frames, three at most.
  predicate NearOn(lowX: int, sizeX: int, lowY: int, sizeY: int, gap: nat) {
    var apart := Even(2 * lowX + sizeX - 2 * lowY - sizeY);
    var sum := sizeX + sizeY;
    var reach := sum / 2 * (if gap < 3 then gap else 3);
    if sum >= 0 then -reach <= apart <= reach else sum == -1 && apart == 0
  }

  predicate CentresNear(a: Rect, b: Rect, gap: nat) {
    NearOn(a.x, a.w, b.x, b.w, gap) && NearOn(a.y, a.h, b.y, b.h, gap)
  }

  lemma MovedIff(lowX: int, sizeX: int, lowY: int, sizeY: int, gap: nat)
    requires gap > 0
    ensures !Moved(lowX, sizeX, lowY, sizeY, gap) <==> NearOn(lowX, sizeX, lowY, sizeY, gap)
  {
    RoundHalfIs(2 * lowX + sizeX - (2 * lowY + sizeY));
    hide RoundHalf, Even;
    var k := if gap < 3 then gap else 3;
    var sum := sizeX + sizeY;
    if sum < -1 {
      assert Half(sum) <= -1;
      Shrinks(Half(sum), k);
    } else if sum == -1 {
      assert Half(sum) == 0;
    }
  }

  lemma Shrinks(m: int, k: nat)
    requires m <= -1 && k > 0
    ensures m * k < 0
  {
  }

  // Between sides of even sum and distance nothing is rounded; in general rounding shifts the limit by at
  // most a pixel and a half.
  lemma NearOnBounds(lowX: int, sizeX: int, lowY: int, sizeY: int, gap: nat)
    requires sizeX + sizeY >= 0
    ensures var apart := 2 * lowX + sizeX - 2 * lowY - sizeY;
            var distance := if apart < 0 then -apart else apart;
            var k := if gap < 3 then gap else 3;
            var limit := (sizeX + sizeY) * k;
            && ((sizeX + sizeY) % 2 == 0 ==> (NearOn(lowX, sizeX, lowY, sizeY, gap) <==> 2 * distance <= limit))
            && (NearOn(lowX, sizeX, lowY, sizeY, gap) ==> 2 * distance <= limit + 2)
            && (2 * distance + 2 + k <= limit ==> NearOn(lowX, sizeX, lowY, sizeY, gap))
  {
    var apart, sum := 2 * lowX + sizeX - 2 * lowY - sizeY, sizeX + sizeY;
    var k := if gap < 3 then gap else 3;
    HalfTimes(sum, k);
    RoundHalfIs(apart);
    if sum % 2 == 0 { EvenSize(lowX - lowY - sizeY, sum); }
    hide Even, RoundHalf;
    RoundedLimits(apart, Even(apart), sum / 2 * k, sum % 2 * k, k);
  }

  // Limits on a rounded distance, as limits on the distance.
  lemma RoundedLimits(apart: int, rounded: int, reach: int, rest: int, k: int)
    requires apart - 1 <= rounded <= apart + 1 && 0 <= rest <= k
    ensures var distance := if apart < 0 then -apart else apart;
            && (rounded == apart && rest == 0 ==> (-reach <= rounded <= reach <==> 2 * distance <= 2 * reach + rest))
            && (-reach <= rounded <= reach ==> 2 * distance <= 2 * reach + rest + 2)
            && (2 * distance + 2 + k <= 2 * reach + rest ==> -reach <= rounded <= reach)
  {
  }

  lemma HalfTimes(sum: nat, k: nat)
    ensures sum * k == 2 * (sum / 2 * k) + sum % 2 * k && sum % 2 * k <= k && (sum % 2 == 0 ==> sum % 2 * k == 0)
  {
    assert sum == 2 * (sum / 2) + sum % 2;
    assert sum * k == (2 * (sum / 2)) * k + sum % 2 * k;
  }

  lemma NearOnSame(low: int, size: int, gap: nat)
    requires size >= 0
    ensures NearOn(low, size, low, size, gap)
  {
    ProductSign(size, if gap < 3 then gap else 3);
  }

  // What is near at one gap is near at every larger one.
  lemma NearOnLater(lowX: int, sizeX: int, lowY: int, sizeY: int, gap: nat, later: nat)
    requires NearOn(lowX, sizeX, lowY, sizeY, gap) && gap <= later
    ensures NearOn(lowX, sizeX, lowY, sizeY, later)
  {
    var m := (sizeX + sizeY) / 2;
    var k, l := if gap < 3 then gap else 3, if later < 3 then later else 3;
    hide Even;
    if sizeX + sizeY >= 0 { ProductSign(m, l - k); assert m * l == m * k + m * (l - k); }
  }

  // The pair that stands first among those with the least gap, in both tracks.
  ghost predicate FirstAt(a: seq<Obj>, b: seq<Obj>, g: nat, n: Option<(Obj, Obj)>) {
    exists i: nat, j: nat :: LeastAt(a, b, g, n, i, j)
  }

  ghost predicate LeastAt(a: seq<Obj>, b: seq<Obj>, g: nat, n: Option<(Obj, Obj)>, i: nat, j: nat) {
    && i < |a| && j < |b| && n == Some((a[i], b[j])) && g == Gap(a[i], b[j])
    && forall x, y :: 0 <= x < |a| && 0 <= y < |b| ==> g < Gap(a[x], b[y]) || (g == Gap(a[x], b[y]) && i <= x && j <= y)
  }

  ghost predicate AtLeast(a: seq<Obj>, b: seq<Obj>, gap: nat) {
    forall x, y :: 0 <= x < |a| && 0 <= y < |b| ==> gap <= Gap(a[x], b[y])
  }

  // An earlier head is closest to the other head.
  lemma HeadClosest(a: seq<Obj>, b: seq<Obj>)
    requires a != [] && b != [] && Increasing(a) && Increasing(b) && a[0].frame < b[0].frame
    ensures Increasing(a[1..])
    ensures forall y :: 0 <= y < |b| ==> Gap(a[0], b[0]) <= Gap(a[0], b[y]) && Gap(a[0], b[y]) == Gap(b[y], a[0])
  {
    TailOk(a);
    forall y | 0 <= y < |b| ensures b[0].frame <= b[y].frame { assert y == 0 || b[0].frame < b[y].frame; }
  }

  lemma LeastInTail(a: seq<Obj>, b: seq<Obj>, g: nat, n: Option<(Obj, Obj)>)
    requires a != []
    requires FirstAt(a[1..], b, g, n) && forall y :: 0 <= y < |b| ==> g < Gap(a[0], b[y])
    ensures FirstAt(a, b, g, n)
  {
    var i: nat, j: nat :| LeastAt(a[1..], b, g, n, i, j);
    forall x, y | 0 <= x < |a| && 0 <= y < |b|
      ensures g < Gap(a[x], b[y]) || (g == Gap(a[x], b[y]) && i + 1 <= x && j <= y)
    {
      assert x > 0 ==> a[x] == a[1..][x - 1];
    }
    assert LeastAt(a, b, g, n, i + 1, j);
  }

  lemma LeastInOther(a: seq<Obj>, b: seq<Obj>, g: nat, n: Option<(Obj, Obj)>)
    requires b != []
    requires FirstAt(a, b[1..], g, n) && forall x :: 0 <= x < |a| ==> g < Gap(a[x], b[0])
    ensures FirstAt(a, b, g, n)
  {
    var i: nat, j: nat :| LeastAt(a, b[1..], g, n, i, j);
    forall x, y | 0 <= x < |a| && 0 <= y < |b|
      ensures g < Gap(a[x], b[y]) || (g == Gap(a[x], b[y]) && i <= x && j + 1 <= y)
    {
      assert y > 0 ==> b[y] == b[1..][y - 1];
    }
    assert LeastAt(a, b, g, n, i, j + 1);
  }

  lemma HeadsLeast(a: seq<Obj>, b: seq<Obj>)
    requires a != [] && b != [] && AtLeast(a, b, Gap(a[0], b[0]))
    ensures FirstAt(a, b, Gap(a[0], b[0]), Some((a[0], b[0])))
  {
    assert LeastAt(a, b, Gap(a[0], b[0]), Some((a[0], b[0])), 0, 0);
  }

  lemma AtLeastCons(a: seq<Obj>, b: seq<Obj>, g: nat)
    requires a != [] && AtLeast(a[1..], b, g) && forall y :: 0 <= y < |b| ==> g <= Gap(a[0], b[y])
    ensures AtLeast(a, b, g)
  {
    forall x, y | 0 <= x < |a| && 0 <= y < |b| ensures g <= Gap(a[x], b[y]) {
      assert x > 0 ==> a[x] == a[1..][x - 1];
    }
  }

  lemma AtLeastOther(a: seq<Obj>, b: seq<Obj>, g: nat)
    requires b != [] && AtLeast(a, b[1..], g) && forall x :: 0 <= x < |a| ==> g <= Gap(a[x], b[0])
    ensures AtLeast(a, b, g)
  {
    forall x, y | 0 <= x < |a| && 0 <= y < |b| ensures g <= Gap(a[x], b[y]) {
      assert y > 0 ==> b[y] == b[1..][y - 1];
    }
  }

  // On tracks in frame order the walk finds the first pair with the least gap, below the given one.
  lemma {:induction false} NearestIsFirst(a: seq<Obj>, b: seq<Obj>, gap: nat, best: Option<(Obj, Obj)>)
    requires Increasing(a) && Increasing(b)
    ensures var r := Nearest(a, b, gap, best);
            (r == (gap, best) && AtLeast(a, b, gap)) || (r.0 < gap && FirstAt(a, b, r.0, r.1))
    decreases |a| + |b|
  {
    if a != [] && b != [] {
      var g := if Gap(a[0], b[0]) < gap then Gap(a[0], b[0]) else gap;
      var n := if Gap(a[0], b[0]) < gap then Some((a[0], b[0])) else best;
      var r := Nearest(a, b, gap, best);
      if a[0].frame < b[0].frame {
        HeadClosest(a, b);
        NearestIsFirst(a[1..], b, g, n);
        hide Nearest, Increasing, AtLeast, FirstAt, Gap;
        if r.0 < g { LeastInTail(a, b, r.0, r.1); } else { AtLeastCons(a, b, g); if g < gap { HeadsLeast(a, b); } }
      } else if a[0].frame > b[0].frame {
        HeadClosest(b, a);
        NearestIsFirst(a, b[1..], g, n);
        hide Nearest, Increasing, AtLeast, FirstAt;
        if r.0 < g { LeastInOther(a, b, r.0, r.1); } else { AtLeastOther(a, b, g); if g < gap { HeadsLeast(a, b); } }
      } else if g < gap {
        HeadsLeast(a, b);
      }
    }
  }

  // Tracks without equal frames on the walk are never at gap 0, and the nearest pair is one of theirs.
  lemma {:induction false} NearestPair(a: seq<Obj>, b: seq<Obj>, gap: nat, best: Option<(Obj, Obj)>)
    requires NeverMeet(a, b) && gap > 0
    ensures var r := Nearest(a, b, gap, best);
            && r.0 > 0
            && (r == (gap, best) ||
                (r.1.Some? && r.1.value.0 in a && r.1.value.1 in b && r.0 == Gap(r.1.value.0, r.1.value.1) < gap))
    decreases |a| + |b|
  {
    if a != [] && b != [] {
      var g := if Gap(a[0], b[0]) < gap then Gap(a[0], b[0]) else gap;
      var n := if Gap(a[0], b[0]) < gap then Some((a[0], b[0])) else best;
      if a[0].frame < b[0].frame { NearestPair(a[1..], b, g, n); } else { NearestPair(a, b[1..], g, n); }
    }
  }

  lemma NearEnoughIff(gap: nat, nearest: Option<(Obj, Obj)>)
    requires gap > 0
    ensures NearEnough(gap, nearest) <==>
            nearest.None? || CentresNear(nearest.value.0.rect, nearest.value.1.rect, gap)
  {
    hide Moved, NearOn;
    if nearest.Some? {
      var x, y := nearest.value.0.rect, nearest.value.1.rect;
      MovedIff(x.x, x.w, y.x, y.w, gap);
      MovedIff(x.y, x.h, y.y, y.h, gap);
    }
  }

  lemma SamePlaceNear(a: seq<Obj>, b: seq<Obj>, place: Rect)
    requires NeverMeet(a, b) && (forall o :: o in a || o in b ==> o.rect == place) && place.w >= 0 && place.h >= 0
    ensures var r := Nearest(a, b, FAR, None); r.0 > 0 && NearEnough(r.0, r.1)
  {
    NearestPair(a, b, FAR, None);
    var r := Nearest(a, b, FAR, None);
    NearEnoughIff(r.0, r.1);
    NearOnSame(place.x, place.w, r.0);
    NearOnSame(place.y, place.h, r.0);
  }

  // What RejoinCandidates lists: of a lost and a new track that look alike and whose walk gets through, it
  // lists exactly those whose nearest objects have near centres, or that are 10000 frames apart.
  lemma ListedIff(p: Params, s: State, senses: Senses, list: seq<Cand>, newIds: set<nat>, lostIds: set<nat>,
                  lostId: nat, newId: nat)
    requires newIds == (set id | id in s.tracks && IsNew(p, s.tracks[id]))
    requires lostIds == (set id | id in s.tracks && IsLost(p, s.tracks[id]))
    requires Lists(p, s, senses, list, (set n, l | n in newIds && l in lostIds :: (l, n)))
    requires lostId in lostIds && newId in newIds && (lostId, newId) in senses.alike
    requires NeverMeet(s.tracks[lostId].objects, s.tracks[newId].objects)
    ensures var a, b := s.tracks[newId].objects, s.tracks[lostId].objects;
            var (gap, nearest) := Nearest(a, b, 10000, None);
            && (Cand(lostId, newId, senses.alike[(lostId, newId)]) in list <==>
                nearest.None? || CentresNear(nearest.value.0.rect, nearest.value.1.rect, gap))
            && (nearest.Some? ==>
                  var before, after := nearest.value.0.frame, nearest.value.1.frame;
                  gap > 0 && gap == if before < after then after - before else before - after)
            && (Increasing(a) && Increasing(b) ==>
                  if nearest.None? then AtLeast(a, b, 10000) else gap < 10000 && FirstAt(a, b, gap, nearest))
  {
    hide NearEnough, CentresNear, IsNew, IsLost;
    var a, b := s.tracks[newId].objects, s.tracks[lostId].objects;
    var c := Cand(lostId, newId, senses.alike[(lostId, newId)]);
    NeverMeetSymmetric(b, a);
    NearestPair(a, b, FAR, None);
    var r := Nearest(a, b, FAR, None);
    NearEnoughIff(r.0, r.1);
    assert c in list <==> Rejoins(p, s, senses, c);
    if Increasing(a) && Increasing(b) { NearestIsFirst(a, b, FAR, None); }
  }

  // A person who comes back to the same place is always listed.
  lemma SamePlaceListed(p: Params, s: State, senses: Senses, list: seq<Cand>, newIds: set<nat>, lostIds: set<nat>,
                        lostId: nat, newId: nat, place: Rect)
    requires newIds == (set id | id in s.tracks && IsNew(p, s.tracks[id]))
    requires lostIds == (set id | id in s.tracks && IsLost(p, s.tracks[id]))
    requires Lists(p, s, senses, list, (set n, l | n in newIds && l in lostIds :: (l, n)))
    requires lostId in lostIds && newId in newIds && (lostId, newId) in senses.alike
    requires NeverMeet(s.tracks[lostId].objects, s.tracks[newId].objects)
    requires forall o :: o in s.tracks[lostId].objects || o in s.tracks[newId].objects ==> o.rect == place
    requires place.w >= 0 && place.h >= 0
    ensures Cand(lostId, newId, senses.alike[(lostId, newId)]) in list
  {
    hide IsNew, IsLost, NearEnough;
    var a, b := s.tracks[newId].objects, s.tracks[lostId].objects;
    NeverMeetSymmetric(b, a);
    SamePlaceNear(a, b, place);
    assert Rejoins(p, s, senses, Cand(lostId, newId, senses.alike[(lostId, newId)]));
  }

  // ----- trimming to the frame

  // Along one axis, with the last pixel left out.  A side that starts inside is cut at the border; one that
  // starts before it is moved to 0, and keeps its size unless it also ends beyond.
  ghost predicate TrimmedOn(low: int, size: int, newLow: int, newSize: int, limit: int) {
    if low >= 0 then
      newLow == low && forall q :: Spans(newLow, newSize, q) <==> Spans(low, size, q) && q < limit
    else
      newLow == 0 && newSize == if low + size <= limit then size else limit - low
  }

  lemma TrimMeans(r: Rect, width: int, height: int)
    ensures var c := TrimRect(r, width, height);
            TrimmedOn(r.x, r.w, c.x, c.w, width - 1) && TrimmedOn(r.y, r.h, c.y, c.h, height - 1)
    ensures !OutOfFrame(r, width, height) <==> TrimRect(r, width, height) == r
    ensures !OutOfFrame(TrimRect(r, width, height), width, height) <==>
            (r.x >= 0 || r.w <= width - 1) && (r.y >= 0 || r.h <= height - 1)
  {
  }

  // ----- the filter

  // Without division: within the aspect ratios exactly when the height is between the two multiples of the width.
  lemma PassesIff(p: Params, d: Obj)
    requires d.rect.w > 0
    ensures Passes(p, d) <==>
            && d.confidence > p.minDetConf
            && p.minAspect * d.rect.w as real <= d.rect.h as real <= p.maxAspect * d.rect.w as real
            && p.minHeight <= d.rect.h as real <= p.maxHeight
  {
    Ratio(d.rect.h as real, d.rect.w as real, p.minAspect);
    Ratio(d.rect.h as real, d.rect.w as real, p.maxAspect);
  }

  lemma Ratio(n: real, d: real, r: real)
    requires d > 0.0
    ensures r <= n / d <==> r * d <= n
    ensures n / d <= r <==> n <= r * d
  {
    var q := n / d;
    assert q * d == n;
    Scale(r, q, d);
    Scale(q, r, d);
  }

  lemma Scale(a: real, b: real, d: real)
    requires d > 0.0
    ensures a <= b <==> a * d <= b * d
  {
    if a <= b { Product(b - a, d); } else { ProductPositive(a - b, d); }
  }

  lemma Product(x: real, d: real)
    requires x >= 0.0 && d > 0.0
    ensures x * d >= 0.0
  {
  }

  lemma ProductPositive(x: real, d: real)
    requires x > 0.0 && d > 0.0
    ensures x * d > 0.0
  {
  }

  // The filter keeps the passing detections in their order, each as often as it comes.
  lemma {:induction false} FilteredAt(p: Params, dets: seq<Obj>) returns (at: seq<nat>)
    ensures Selects(Filtered(p, dets), dets, at, d => Passes(p, d))
    decreases |dets|
  {
    hide Passes, Selects;
    if dets == [] {
      at := [];
      NothingSelected(d => Passes(p, d));
    } else {
      var n := |dets| - 1;
      at := FilteredAt(p, dets[..n]);
      SelectsSnoc(Filtered(p, dets[..n]), dets[..n], at, d => Passes(p, d), dets[n]);
      assert dets[..n] + [dets[n]] == dets;
      if Passes(p, dets[n]) { at := at + [n]; }
    }
  }

  lemma NothingSelected(passes: Obj -> bool)
    ensures Selects([], [], [], passes)
  {
  }
}
