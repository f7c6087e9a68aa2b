/**
 The track-to-detection assignment of thirdparty/tracker/TrackerLib.cpp: sort the candidate triples
 by score, then scan, taking a candidate when both its ends are still free.
 */
module Assignment {
  import opened Greedy

  // A (track id, detection index, score) triple.
  datatype Cand = Cand(track: nat, det: nat, score: real)

  function Score(c: Cand): real { c.score }

  predicate ShareEnd(c: Cand, d: Cand) { c.track == d.track || c.det == d.det }

  ghost predicate Matching(m: seq<Cand>) { Independent(m, ShareEnd) }

  // ----- greedy choice as a relation

  // `chosen` repeatedly takes a best remaining candidate and discards those sharing an end with it,
  // until none remains.  Ties may be broken in any way.
  ghost predicate BestFirst(cands: set<Cand>, chosen: seq<Cand>) {
    if chosen == [] then cands == {}
    else
      && chosen[0] in cands
      && (forall c :: c in cands ==> c.score <= chosen[0].score)
      && BestFirst(Free(cands, chosen[0]), chosen[1..])
  }

  ghost function Free(cands: set<Cand>, x: Cand): set<Cand> {
    set c | c in cands && !ShareEnd(x, c)
  }

  ghost function Elements(s: seq<Cand>): set<Cand> { set c | c in s }

  // Scanning any list sorted by descending score is a best-first choice.
  lemma {:induction false} PickIsBestFirst(s: seq<Cand>)
    requires Descending(s, Score)
    ensures BestFirst(Elements(s), Pick(s, ShareEnd))
    decreases |s|
  {
    if s != [] {
      var r := Survivors(s[1..], s[0], ShareEnd);
      SurvivorsDescend(s[1..], s[0], ShareEnd, Score);
      PickIsBestFirst(r);
      assert Elements(r) == Free(Elements(s), s[0]);
      assert Pick(s, ShareEnd)[1..] == Pick(r, ShareEnd);
      forall c | c in Elements(s) ensures c.score <= s[0].score {
        var i :| 0 <= i < |s| && s[i] == c;
        assert i == 0 || Score(s[0]) >= Score(s[i]);
      }
    } else {
      assert Elements(s) == {};
    }
  }

  ghost predicate DistinctScores(cands: set<Cand>) {
    forall c, d :: c in cands && d in cands && c.score == d.score ==> c == d
  }

  // Without ties there is only one best-first choice.
  lemma {:induction false} BestFirstUnique(cands: set<Cand>, x: seq<Cand>, y: seq<Cand>)
    requires DistinctScores(cands) && BestFirst(cands, x) && BestFirst(cands, y)
    ensures x == y
    decreases |x|
  {
    if x != [] {
      assert x[0].score == y[0].score;
      BestFirstUnique(Free(cands, x[0]), x[1..], y[1..]);
    }
  }

  lemma {:induction false} BestFirstMatching(cands: set<Cand>, chosen: seq<Cand>)
    requires BestFirst(cands, chosen)
    ensures Matching(chosen) && forall c :: c in chosen ==> c in cands
    decreases |chosen|
  {
    if chosen != [] {
      BestFirstMatching(Free(cands, chosen[0]), chosen[1..]);
      assert forall i :: 0 < i < |chosen| ==> chosen[i] in chosen[1..];
    }
  }

  // Stability: every candidate shares an end with a chosen one of at least its score (itself, if chosen).
  lemma {:induction false} BestFirstStable(cands: set<Cand>, chosen: seq<Cand>, c: Cand)
    requires BestFirst(cands, chosen) && c in cands
    ensures exists k :: k in chosen && ShareEnd(k, c) && k.score >= c.score
    decreases |chosen|
  {
    if ShareEnd(chosen[0], c) {
      assert chosen[0] in chosen;
    } else {
      BestFirstStable(Free(cands, chosen[0]), chosen[1..], c);
      var k :| k in chosen[1..] && ShareEnd(k, c) && k.score >= c.score;
      assert k in chosen;
    }
  }

  // ----- at least half of any matching

  function Total(m: seq<Cand>): real {
    if m == [] then 0.0 else m[0].score + Total(m[1..])
  }

  function AtTrack(m: seq<Cand>, t: nat): nat {
    if m == [] then 0 else (if m[0].track == t then 1 else 0) + AtTrack(m[1..], t)
  }

  function AtDet(m: seq<Cand>, d: nat): nat {
    if m == [] then 0 else (if m[0].det == d then 1 else 0) + AtDet(m[1..], d)
  }

  lemma {:induction false} NoneAtTrack(m: seq<Cand>, t: nat)
    requires forall i :: 0 <= i < |m| ==> m[i].track != t
    ensures AtTrack(m, t) == 0
  {
    if m != [] { NoneAtTrack(m[1..], t); }
  }

  lemma {:induction false} NoneAtDet(m: seq<Cand>, d: nat)
    requires forall i :: 0 <= i < |m| ==> m[i].det != d
    ensures AtDet(m, d) == 0
  {
    if m != [] { NoneAtDet(m[1..], d); }
  }

  lemma {:induction false} AtMostOneEnd(m: seq<Cand>, x: Cand)
    requires Matching(m)
    ensures AtTrack(m, x.track) <= 1 && AtDet(m, x.det) <= 1
    decreases |m|
  {
    if m != [] {
      AtMostOneEnd(m[1..], x);
      if m[0].track == x.track { NoneAtTrack(m[1..], x.track); }
      if m[0].det == x.det { NoneAtDet(m[1..], x.det); }
    }
  }

  function Sharing(m: seq<Cand>, x: Cand): nat {
    if m == [] then 0 else (if ShareEnd(x, m[0]) then 1 else 0) + Sharing(m[1..], x)
  }

  lemma {:induction false} AtMostTwoShare(m: seq<Cand>, x: Cand)
    ensures Sharing(m, x) <= AtTrack(m, x.track) + AtDet(m, x.det)
  {
    if m != [] { AtMostTwoShare(m[1..], x); }
  }

  function Times(n: nat, s: real): real {
    if n == 0 then 0.0 else s + Times(n - 1, s)
  }

  lemma {:induction false} RemovedCount(m: seq<Cand>, x: Cand)
    ensures |m| == |Survivors(m, x, ShareEnd)| + Sharing(m, x)
    decreases |m|
  {
    if m != [] {
      RemovedCount(m[1..], x);
      SurvivorsCons(m, x, ShareEnd);
    }
  }

  lemma {:induction false} RemovedTotal(m: seq<Cand>, x: Cand)
    requires forall i :: 0 <= i < |m| ==> m[i].score <= x.score
    ensures Total(m) <= Total(Survivors(m, x, ShareEnd)) + Times(Sharing(m, x), x.score)
    decreases |m|
  {
    if m != [] {
      RemovedTotal(m[1..], x);
      SurvivorsCons(m, x, ShareEnd);
      hide Survivors;
      var r := Survivors(m[1..], x, ShareEnd);
      if ShareEnd(x, m[0]) {
        assert Times(Sharing(m, x), x.score) == x.score + Times(Sharing(m[1..], x), x.score);
      } else {
        TotalCons(m[0], r);
      }
    }
  }

  lemma TotalCons(c: Cand, r: seq<Cand>)
    ensures Total([c] + r) == c.score + Total(r)
  {
    assert ([c] + r)[1..] == r;
  }

  lemma {:induction false} SurvivorsIndependent(m: seq<Cand>, x: Cand)
    requires Matching(m)
    ensures Matching(Survivors(m, x, ShareEnd))
    decreases |m|
  {
    if m != [] {
      SurvivorsIndependent(m[1..], x);
      var r := Survivors(m[1..], x, ShareEnd);
      forall j | 0 <= j < |r| ensures !ShareEnd(m[0], r[j]) {
        assert r[j] in m[1..];
      }
    }
  }

  // The code is greedy, not the Kuhn-Munkres algorithm its header announces: its guarantee is half
  // the total score, and half the size, of any matching over the same candidates.
  lemma {:induction false} HalfOptimal(cands: set<Cand>, chosen: seq<Cand>, m: seq<Cand>)
    requires BestFirst(cands, chosen) && Matching(m)
    requires forall c :: c in m ==> c in cands
    requires forall c :: c in cands ==> c.score >= 0.0
    ensures Total(m) <= 2.0 * Total(chosen) && |m| <= 2 * |chosen|
    decreases |chosen|
  {
    if chosen == [] {
      assert forall i :: 0 <= i < |m| ==> m[i] in cands;
    } else {
      var x := chosen[0];
      var r := Survivors(m, x, ShareEnd);
      RemovedCount(m, x);
      RemovedTotal(m, x);
      AtMostTwoShare(m, x);
      AtMostOneEnd(m, x);
      SurvivorsIndependent(m, x);
      HalfOptimal(Free(cands, x), chosen[1..], r);
      var n := Sharing(m, x);
      assert x.score >= 0.0 && Times(n, x.score) <= 2.0 * x.score by { TimesTwo(n, x.score); }
    }
  }

  // The factor 2 is attained: the middle candidate shares an end with both others.
  lemma HalfAttained(w: real)
    requires w > 0.0
    ensures var c, m := Cand(1, 0, w), [Cand(1, 1, w), Cand(2, 0, w)];
            && BestFirst({c, m[0], m[1]}, [c]) && Matching(m)
            && Total(m) == 2.0 * Total([c]) && |m| == 2 * |[c]|
  {
    var c, m := Cand(1, 0, w), [Cand(1, 1, w), Cand(2, 0, w)];
    assert Free({c, m[0], m[1]}, c) == {};
    assert [c][1..] == [] && m[1..] == [m[1]] && m[1..][1..] == [];
  }

  // ----- when the first choices are the best ones

  function Ends(c: Cand): (nat, nat) { (c.track, c.det) }

  // c and d share one end each with x, and not with each other.
  predicate Around(c: (nat, nat), x: (nat, nat), d: (nat, nat)) {
    c.0 == x.0 && c.1 != x.1 && d.1 == x.1 && d.0 != x.0
  }

  // No listed pair is in between two others: a track listed with several detections is the only one that
  // those detections are listed with.
  ghost predicate NoneBetween(pairs: set<(nat, nat)>) {
    forall c, x, d :: c in pairs && x in pairs && d in pairs ==> !Around(c, x, d)
  }

  // One non-negative score for every listed pair, and no other candidate.
  ghost predicate Scored(cands: set<Cand>, pairs: set<(nat, nat)>) {
    && (set c | c in cands :: Ends(c)) == pairs
    && (forall c :: c in cands ==> c.score >= 0.0)
    && (forall c, d :: c in cands && d in cands && Ends(c) == Ends(d) ==> c == d)
  }

  // Whatever the scores and however ties fall, the best-first choice has the largest total.
  ghost predicate AlwaysBest(pairs: set<(nat, nat)>) {
    forall cands, chosen, m ::
      Scored(cands, pairs) && BestFirst(cands, chosen) && Matching(m) && Elements(m) <= cands ==>
        Total(m) <= Total(chosen)
  }

  lemma {:induction false} AtMostOneShares(m: seq<Cand>, x: Cand)
    requires Matching(m)
    requires forall c, d :: c in m && d in m ==> !Around(Ends(c), Ends(x), Ends(d))
    ensures Sharing(m, x) <= 1
    decreases |m|
  {
    if m != [] {
      AtMostOneShares(m[1..], x);
      if ShareEnd(x, m[0]) {
        forall i | 0 < i < |m| ensures !ShareEnd(x, m[i]) {
          assert !ShareEnd(m[0], m[i]);
          assert !Around(Ends(m[0]), Ends(x), Ends(m[i])) && !Around(Ends(m[i]), Ends(x), Ends(m[0]));
        }
        NoneShares(m[1..], x);
      }
    }
  }

  lemma {:induction false} NoneShares(m: seq<Cand>, x: Cand)
    requires forall i :: 0 <= i < |m| ==> !ShareEnd(x, m[i])
    ensures Sharing(m, x) == 0
  {
    if m != [] { NoneShares(m[1..], x); }
  }

  // With no candidate in between two others a best-first choice is a largest matching of the largest
  // total, also when a pair is listed with several scores.
  lemma {:induction false} BestWhenNoneBetween(cands: set<Cand>, chosen: seq<Cand>, m: seq<Cand>)
    requires BestFirst(cands, chosen) && Matching(m) && Elements(m) <= cands
    requires forall c :: c in cands ==> c.score >= 0.0
    requires NoneBetween(set c | c in cands :: Ends(c))
    ensures Total(m) <= Total(chosen) && |m| <= |chosen|
    decreases |chosen|
  {
    if chosen == [] {
      assert forall i :: 0 <= i < |m| ==> m[i] in Elements(m);
    } else {
      var x := chosen[0];
      var r := Survivors(m, x, ShareEnd);
      assert forall c :: c in m ==> c in Elements(m);
      RemovedCount(m, x);
      RemovedTotal(m, x);
      AtMostOneShares(m, x);
      SurvivorsIndependent(m, x);
      BestWhenNoneBetween(Free(cands, x), chosen[1..], r);
      assert Times(1, x.score) == x.score + Times(0, x.score);
    }
  }

  lemma {:induction false} HasBest(cands: set<Cand>)
    requires cands != {}
    ensures exists x :: x in cands && forall c :: c in cands ==> c.score <= x.score
  {
    var y :| y in cands;
    var rest := cands - {y};
    if rest != {} {
      HasBest(rest);
      var x :| x in rest && forall c :: c in rest ==> c.score <= x.score;
      assert forall c :: c in cands ==> c == y || c in rest;
      if x.score < y.score {
        assert forall c :: c in cands ==> c.score <= y.score;
      }
    } else {
      assert cands == {y};
    }
  }

  lemma {:induction false} HasBestFirst(cands: set<Cand>)
    ensures exists chosen :: BestFirst(cands, chosen)
    decreases cands
  {
    if cands == {} {
      assert BestFirst(cands, []);
    } else {
      HasBest(cands);
      var x :| x in cands && forall c :: c in cands ==> c.score <= x.score;
      assert x !in Free(cands, x) && Free(cands, x) <= cands;
      HasBestFirst(Free(cands, x));
      var rest :| BestFirst(Free(cands, x), rest);
      assert ([x] + rest)[1..] == rest;
      assert BestFirst(cands, [x] + rest);
    }
  }

  // The scores under which the pair in between is taken first and is worth less than its neighbours.
  function Misleading(c: (nat, nat), x: (nat, nat), d: (nat, nat), p: (nat, nat)): real {
    if p == x then 3.0 else if p == c || p == d then 2.0 else 0.0
  }

  lemma {:induction false} NothingLeft(m: seq<Cand>)
    requires forall i :: 0 <= i < |m| ==> m[i].score == 0.0
    ensures Total(m) == 0.0
  {
    if m != [] { NothingLeft(m[1..]); }
  }

  // A strictly best candidate is all the score there is when what it leaves is worth nothing.
  lemma TopIsAll(cands: set<Cand>, chosen: seq<Cand>, top: Cand)
    requires BestFirst(cands, chosen) && top in cands
    requires forall k :: k in cands && k != top ==> k.score < top.score && (ShareEnd(top, k) || k.score == 0.0)
    ensures Total(chosen) == top.score
  {
    assert chosen[0] == top;
    var rest: seq<Cand> := chosen[1..];
    BestFirstMatching(Free(cands, top), rest);
    forall i | 0 <= i < |rest| ensures rest[i].score == 0.0 {
      assert rest[i] in Free(cands, top);
    }
    NothingLeft(rest);
  }

  ghost function MisleadingCands(pairs: set<(nat, nat)>, c: (nat, nat), x: (nat, nat), d: (nat, nat)): set<Cand> {
    set p | p in pairs :: Cand(p.0, p.1, Misleading(c, x, d, p))
  }

  lemma MisleadingScored(pairs: set<(nat, nat)>, c: (nat, nat), x: (nat, nat), d: (nat, nat))
    ensures Scored(MisleadingCands(pairs, c, x, d), pairs)
  {
    var cands := MisleadingCands(pairs, c, x, d);
    forall p | p in pairs ensures p in (set k | k in cands :: Ends(k)) {
      var k := Cand(p.0, p.1, Misleading(c, x, d, p));
      assert k in cands && Ends(k) == p;
    }
  }

  lemma MisledByBetween(pairs: set<(nat, nat)>, c: (nat, nat), x: (nat, nat), d: (nat, nat))
    requires c in pairs && x in pairs && d in pairs && Around(c, x, d)
    ensures !AlwaysBest(pairs)
  {
    var cands := MisleadingCands(pairs, c, x, d);
    MisleadingScored(pairs, c, x, d);
    var top, a, b := Cand(x.0, x.1, 3.0), Cand(c.0, c.1, 2.0), Cand(d.0, d.1, 2.0);
    assert top in cands && a in cands && b in cands by {
      assert Misleading(c, x, d, x) == 3.0 && Misleading(c, x, d, c) == Misleading(c, x, d, d) == 2.0;
    }
    HasBestFirst(cands);
    var chosen :| BestFirst(cands, chosen);
    TopIsAll(cands, chosen, top);
    assert [a, b][1..] == [b] && [b][1..] == [];
    assert Total([a, b]) == a.score + Total([b]) && Total([b]) == b.score + Total([]);
    assert Matching([a, b]) && Elements([a, b]) <= cands;
  }

  // Exactly then: the choice has the largest total for all scores if and only if no listed pair is in
  // between two others.
  lemma AlwaysBestIff(pairs: set<(nat, nat)>)
    ensures AlwaysBest(pairs) <==> NoneBetween(pairs)
  {
    if NoneBetween(pairs) {
      forall cands, chosen, m |
        Scored(cands, pairs) && BestFirst(cands, chosen) && Matching(m) && Elements(m) <= cands
        ensures Total(m) <= Total(chosen)
      {
        BestWhenNoneBetween(cands, chosen, m);
      }
    } else {
      var c, x, d :| c in pairs && x in pairs && d in pairs && Around(c, x, d);
      MisledByBetween(pairs, c, x, d);
    }
  }

  // Scores counted from a floor.
  function Above(m: seq<Cand>, floor: real): (r: seq<Cand>)
    ensures |r| == |m| && forall i :: 0 <= i < |m| ==> r[i] == Lift(m[i], floor)
  {
    if m == [] then [] else [Lift(m[0], floor)] + Above(m[1..], floor)
  }

  function Lift(c: Cand, floor: real): Cand { c.(score := c.score - floor) }

  ghost function AllAbove(cands: set<Cand>, floor: real): set<Cand> { set c | c in cands :: Lift(c, floor) }

  lemma {:induction false} BestFirstAbove(cands: set<Cand>, chosen: seq<Cand>, floor: real)
    requires BestFirst(cands, chosen)
    ensures BestFirst(AllAbove(cands, floor), Above(chosen, floor))
    decreases |chosen|
  {
    if chosen != [] {
      BestFirstAbove(Free(cands, chosen[0]), chosen[1..], floor);
      FreeAbove(cands, chosen[0], floor);
      assert Above(chosen, floor)[1..] == Above(chosen[1..], floor);
    }
  }

  lemma FreeAbove(cands: set<Cand>, x: Cand, floor: real)
    ensures Free(AllAbove(cands, floor), Lift(x, floor)) == AllAbove(Free(cands, x), floor)
  {
    forall c | c in cands && !ShareEnd(Lift(x, floor), Lift(c, floor))
      ensures Lift(c, floor) in AllAbove(Free(cands, x), floor)
    {
      assert c in Free(cands, x);
    }
  }

  // The same guarantee for scores of any sign, counted from a common floor.
  lemma HalfOptimalAbove(cands: set<Cand>, chosen: seq<Cand>, m: seq<Cand>, floor: real)
    requires BestFirst(cands, chosen) && Matching(m)
    requires forall c :: c in m ==> c in cands
    requires forall c :: c in cands ==> c.score >= floor
    ensures Total(Above(m, floor)) <= 2.0 * Total(Above(chosen, floor)) && |m| <= 2 * |chosen|
  {
    BestFirstAbove(cands, chosen, floor);
    var lifted := Above(m, floor);
    forall i, j | 0 <= i < j < |lifted| ensures !ShareEnd(lifted[i], lifted[j]) {
      assert !ShareEnd(m[i], m[j]);
    }
    forall c | c in lifted ensures c in AllAbove(cands, floor) {
      var i :| 0 <= i < |lifted| && lifted[i] == c;
      assert m[i] in m;
    }
    HalfOptimal(AllAbove(cands, floor), Above(chosen, floor), lifted);
  }

  lemma TimesTwo(n: nat, s: real)
    requires n <= 2 && s >= 0.0
    ensures Times(n, s) <= 2.0 * s
  {
    assert Times(2, s) == s + Times(1, s) && Times(1, s) == s + Times(0, s);
  }

  // ----- SolveAssignmentProblem

  ghost predicate InRange(similarity: seq<Cand>, trackIds: set<nat>, detections: nat) {
    forall c :: c in similarity ==> c.track in trackIds && c.det < detections
  }

  function Indices(n: nat): (r: set<nat>)
    ensures forall d: nat :: d in r <==> d < n
  {
    if n == 0 then {} else Indices(n - 1) + {n - 1}
  }

  // A run of SolveAssignmentProblem: a best-first choice and what it leaves over.
  ghost predicate Solved(trackIds: set<nat>, detections: nat, similarity: seq<Cand>,
                         unmatchedTracks: set<nat>, unmatchedDetections: set<nat>, matches: set<Cand>,
                         chosen: seq<Cand>)
  {
    && BestFirst(Elements(similarity), chosen)
    && matches == Elements(chosen)
    && unmatchedTracks == trackIds - (set c | c in chosen :: c.track)
    && unmatchedDetections == Indices(detections) - (set c | c in chosen :: c.det)
  }

  method SolveAssignmentProblem(trackIds: set<nat>, detections: nat, similarity: seq<Cand>)
    returns (unmatchedTracks: set<nat>, unmatchedDetections: set<nat>, matches: set<Cand>)
    requires trackIds != {} && detections > 0
    requires InRange(similarity, trackIds, detections)
    ensures exists chosen ::
              Solved(trackIds, detections, similarity, unmatchedTracks, unmatchedDetections, matches, chosen)
  {
    var sorted := SortDescending(similarity, Score);
    unmatchedTracks, unmatchedDetections, matches := trackIds, {}, {};
    for d := 0 to detections
      invariant unmatchedDetections == Indices(d)
    {
      unmatchedDetections := unmatchedDetections + {d};
    }
    ghost var chosen := [];
    for i := 0 to |sorted|
      invariant chosen == Scan(sorted[..i], ShareEnd)
      invariant matches == Elements(chosen)
      invariant unmatchedTracks == trackIds - (set c | c in chosen :: c.track)
      invariant unmatchedDetections == Indices(detections) - (set c | c in chosen :: c.det)
    {
      var c := sorted[i];
      assert c in multiset(similarity);
      assert sorted[..i + 1][..i] == sorted[..i];
      FreeEnds(chosen, c);
      if c.track in unmatchedTracks && c.det in unmatchedDetections {
        matches := matches + {c};
        unmatchedTracks := unmatchedTracks - {c.track};
        unmatchedDetections := unmatchedDetections - {c.det};
        chosen := chosen + [c];
      }
    }
    assert sorted[..|sorted|] == sorted;
    ScanIsPick(sorted, ShareEnd);
    PickIsBestFirst(sorted);
    SameElements(sorted, similarity);
    assert Solved(trackIds, detections, similarity, unmatchedTracks, unmatchedDetections, matches, chosen);
  }

  lemma FreeEnds(chosen: seq<Cand>, c: Cand)
    ensures Clashes(chosen, c, ShareEnd) <==>
            c.track in (set k | k in chosen :: k.track) || c.det in (set k | k in chosen :: k.det)
  {
    if c.track in (set k | k in chosen :: k.track) {
      var k :| k in chosen && k.track == c.track;
      assert ShareEnd(k, c);
    }
    if c.det in (set k | k in chosen :: k.det) {
      var k :| k in chosen && k.det == c.det;
      assert ShareEnd(k, c);
    }
  }

  lemma SameElements(a: seq<Cand>, b: seq<Cand>)
    requires multiset(a) == multiset(b)
    ensures Elements(a) == Elements(b)
  {
    forall c | c in a ensures c in b { assert c in multiset(b); }
    forall c | c in b ensures c in a { assert c in multiset(a); }
  }

  // What a solved assignment means for its caller: the matches are candidates, no two share an end,
  // and every candidate shares an end with a match of at least its score ...
  lemma MatchesStable(trackIds: set<nat>, detections: nat, similarity: seq<Cand>,
                      unmatchedTracks: set<nat>, unmatchedDetections: set<nat>, matches: set<Cand>, chosen: seq<Cand>)
    requires Solved(trackIds, detections, similarity, unmatchedTracks, unmatchedDetections, matches, chosen)
    ensures matches <= Elements(similarity)
    ensures forall c, d :: c in matches && d in matches && ShareEnd(c, d) ==> c == d
    ensures forall c :: c in similarity ==> exists k :: k in matches && ShareEnd(k, c) && k.score >= c.score
  {
    BestFirstMatching(Elements(similarity), chosen);
    forall c, d | c in matches && d in matches && ShareEnd(c, d) ensures c == d {
      var i :| 0 <= i < |chosen| && chosen[i] == c;
      var j :| 0 <= j < |chosen| && chosen[j] == d;
      assert !(i < j) && !(j < i);
    }
    forall c | c in similarity ensures exists k :: k in matches && ShareEnd(k, c) && k.score >= c.score {
      BestFirstStable(Elements(similarity), chosen, c);
      var k :| k in chosen && ShareEnd(k, c) && k.score >= c.score;
      assert k in matches;
    }
  }

  // ... and matched and unmatched ids partition the tracks and the detections.
  lemma MatchedPartition(trackIds: set<nat>, detections: nat, similarity: seq<Cand>,
                         unmatchedTracks: set<nat>, unmatchedDetections: set<nat>, matches: set<Cand>,
                         chosen: seq<Cand>)
    requires InRange(similarity, trackIds, detections)
    requires Solved(trackIds, detections, similarity, unmatchedTracks, unmatchedDetections, matches, chosen)
    ensures unmatchedTracks + (set c | c in matches :: c.track) == trackIds
    ensures unmatchedTracks !! (set c | c in matches :: c.track)
    ensures unmatchedDetections + (set c | c in matches :: c.det) == Indices(detections)
    ensures unmatchedDetections !! (set c | c in matches :: c.det)
  {
    BestFirstMatching(Elements(similarity), chosen);
    assert (set c | c in matches :: c.track) == (set c | c in chosen :: c.track);
    assert (set c | c in matches :: c.det) == (set c | c in chosen :: c.det);
    forall c | c in chosen ensures c.track in trackIds && c.det in Indices(detections) {
      assert c in similarity;
    }
  }
}
