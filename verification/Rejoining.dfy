/**
 The two loops of thirdparty/tracker/TrackerLib.cpp that walk two tracks: the one that finds how close
 two tracks come, and the one that merges them.  The second makes no progress on equal frames; the
 first, run beforehand, is what rules them out, for any two tracks.
 */
module Rejoining {
  import opened Wrappers
  import opened Tracking

  // The first pair on the walk with the least frame gap and that gap, capped at FAR.  The gap is 0 exactly
  // when the walk stands on equal frames; on tracks in frame order it is the least gap of all pairs.
  method GetClosestLocation(a: seq<Obj>, b: seq<Obj>) returns (gap: nat, nearest: Option<(Obj, Obj)>)
    ensures (gap, nearest) == Nearest(a, b, FAR, None)
    ensures match nearest
            case None => gap == FAR
            case Some(n) => n.0 in a && n.1 in b && gap == Gap(n.0, n.1) < FAR
    ensures gap == 0 <==> !NeverMeet(a, b)
    ensures Increasing(a) && Increasing(b) ==>
              forall i, j :: 0 <= i < |a| && 0 <= j < |b| ==> gap <= Gap(a[i], b[j])
  {
    var i, j := 0, 0;
    gap, nearest := FAR, None;
    assert a[0..] == a && b[0..] == b;
    while i < |a| && j < |b|
      invariant 0 <= i <= |a| && 0 <= j <= |b| && 0 < gap <= FAR
      invariant NeverMeet(a, b) <==> NeverMeet(a[i..], b[j..])
      invariant Nearest(a, b, FAR, None) == Nearest(a[i..], b[j..], gap, nearest)
      invariant Increasing(a) && Increasing(b) ==> PassedFar(a, b, i, j, gap)
      invariant match nearest
                case None => gap == FAR
                case Some(n) => n.0 in a && n.1 in b && gap == Gap(n.0, n.1) < FAR
      decreases |a| - i + |b| - j
    {
      if Increasing(a) && Increasing(b) { PassOne(a, b, i, j, gap); }
      WalkOn(a, b, i, j, gap, nearest);
      if Gap(a[i], b[j]) < gap {
        gap, nearest := Gap(a[i], b[j]), Some((a[i], b[j]));
      }
      if a[i].frame < b[j].frame {
        i := i + 1;
      } else if a[i].frame > b[j].frame {
        j := j + 1;
      } else {
        return;
      }
    }
  }

  // One step of the walk.
  lemma WalkOn(a: seq<Obj>, b: seq<Obj>, i: nat, j: nat, gap: nat, best: Option<(Obj, Obj)>)
    requires i < |a| && j < |b|
    ensures var closer := Gap(a[i], b[j]) < gap;
            var gap' := if closer then Gap(a[i], b[j]) else gap;
            var best' := if closer then Some((a[i], b[j])) else best;
            var was := Nearest(a[i..], b[j..], gap, best);
            && (a[i].frame < b[j].frame ==>
                  was == Nearest(a[i + 1..], b[j..], gap', best') &&
                  (NeverMeet(a[i..], b[j..]) <==> NeverMeet(a[i + 1..], b[j..])))
            && (a[i].frame > b[j].frame ==>
                  was == Nearest(a[i..], b[j + 1..], gap', best') &&
                  (NeverMeet(a[i..], b[j..]) <==> NeverMeet(a[i..], b[j + 1..])))
            && (a[i].frame == b[j].frame ==> was == (gap', best') && !NeverMeet(a[i..], b[j..]))
  {
    assert a[i..][1..] == a[i + 1..] && b[j..][1..] == b[j + 1..];
    assert a[i..][0] == a[i] && b[j..][0] == b[j];
  }

  // Every pair with an end before the cursors is at least gap apart.
  ghost predicate PassedFar(a: seq<Obj>, b: seq<Obj>, i: nat, j: nat, gap: nat) {
    forall x, y :: 0 <= x < |a| && 0 <= y < |b| && (x < i || y < j) ==> gap <= Gap(a[x], b[y])
  }

  lemma PassOne(a: seq<Obj>, b: seq<Obj>, i: nat, j: nat, gap: nat)
    requires Increasing(a) && Increasing(b) && i < |a| && j < |b| && PassedFar(a, b, i, j, gap)
    ensures var g := if Gap(a[i], b[j]) < gap then Gap(a[i], b[j]) else gap;
            && (a[i].frame <= b[j].frame ==> PassedFar(a, b, i + 1, j, g))
            && (a[i].frame >= b[j].frame ==> PassedFar(a, b, i, j + 1, g))
  {
    assert forall y :: j < y < |b| ==> b[j].frame < b[y].frame;
    assert forall x :: i < x < |a| ==> a[i].frame < a[x].frame;
  }

  // ----- the merge loop

  // Where one turn of the loop leaves its two cursors.
  function Turn(a: seq<Obj>, b: seq<Obj>, at: (nat, nat)): (nat, nat) {
    if !Within(a, b, at) then at
    else if a[at.0].frame < b[at.1].frame then (at.0 + 1, at.1)
    else if a[at.0].frame > b[at.1].frame then (at.0, at.1 + 1)
    else at
  }

  predicate Within(a: seq<Obj>, b: seq<Obj>, at: (nat, nat)) { at.0 < |a| && at.1 < |b| }

  function After(a: seq<Obj>, b: seq<Obj>, turns: nat): (nat, nat) {
    if turns == 0 then (0, 0) else Turn(a, b, After(a, b, turns - 1))
  }

  ghost predicate At(a: seq<Obj>, b: seq<Obj>, turns: nat, i: nat, j: nat) { After(a, b, turns) == (i, j) }

  lemma OneTurn(a: seq<Obj>, b: seq<Obj>, turns: nat, i: nat, j: nat)
    requires At(a, b, turns, i, j) && i < |a| && j < |b|
    ensures a[i].frame < b[j].frame ==> At(a, b, turns + 1, i + 1, j)
    ensures a[i].frame > b[j].frame ==> At(a, b, turns + 1, i, j + 1)
    ensures a[i].frame == b[j].frame ==> At(a, b, turns + 1, i, j)
  {
  }

  // When the walk stands on equal frames the loop stays within both tracks for ever.
  lemma {:induction false} StuckForever(a: seq<Obj>, b: seq<Obj>, turns: nat)
    requires !NeverMeet(a, b)
    ensures var at := After(a, b, turns); Within(a, b, at) && !NeverMeet(a[at.0..], b[at.1..])
  {
    if turns == 0 {
      assert a[0..] == a && b[0..] == b;
    } else {
      StuckForever(a, b, turns - 1);
      var at := After(a, b, turns - 1);
      assert a[at.0..][1..] == a[at.0 + 1..] && b[at.1..][1..] == b[at.1 + 1..];
    }
  }

  lemma {:induction false} EveryTurnMoves(a: seq<Obj>, b: seq<Obj>, turns: nat)
    requires NeverMeet(a, b)
    ensures var at := After(a, b, turns);
            && at.0 <= |a| && at.1 <= |b| && NeverMeet(a[at.0..], b[at.1..])
            && (Within(a, b, at) ==> at.0 + at.1 == turns)
  {
    if turns == 0 {
      assert a[0..] == a && b[0..] == b;
    } else {
      EveryTurnMoves(a, b, turns - 1);
      var at := After(a, b, turns - 1);
      if Within(a, b, at) {
        assert a[at.0..][1..] == a[at.0 + 1..] && b[at.1..][1..] == b[at.1 + 1..];
      }
    }
  }

  ghost predicate MergeLoopEnds(a: seq<Obj>, b: seq<Obj>) {
    exists turns: nat :: !Within(a, b, After(a, b, turns))
  }

  // The merge loop ends exactly when the walk never stands on equal frames, which is what the zero test
  // of GetClosestLocation finds out; on tracks in frame order, when they share no frame.
  lemma MergeLoopEndsIff(a: seq<Obj>, b: seq<Obj>)
    ensures MergeLoopEnds(a, b) <==> NeverMeet(a, b)
    ensures Increasing(a) && Increasing(b) ==> (MergeLoopEnds(a, b) <==> NoCommonFrame(a, b))
  {
    if NeverMeet(a, b) {
      EveryTurnMoves(a, b, |a| + |b|);
      assert !Within(a, b, After(a, b, |a| + |b|));
    } else {
      forall turns: nat ensures Within(a, b, After(a, b, turns)) {
        StuckForever(a, b, turns);
      }
    }
    if Increasing(a) && Increasing(b) { NeverMeetIff(a, b); }
  }

  // ----- trimming from the front

  method DropOldest(s: seq<Obj>, maxObjects: int) returns (r: seq<Obj>)
    ensures r == LastN(s, maxObjects)
  {
    r := s;
    if maxObjects > 0 {
      while |r| > maxObjects
        invariant |r| <= |s| && r == s[|s| - |r|..]
        invariant |r| >= maxObjects || r == s
        decreases |r|
      {
        r := r[1..];
      }
    }
  }

  // Trimming after every element leaves what trimming once at the end would leave.
  lemma TrimEarly(s: seq<Obj>, x: Obj, n: int)
    ensures LastN(LastN(s, n) + [x], n) == LastN(s + [x], n)
  {
  }

  // ----- merging

  // With cursors at i and j, tmp is what is kept of the part of the merge already done.
  ghost predicate Partly(a: seq<Obj>, b: seq<Obj>, id: int, n: int, i: nat, j: nat, done: seq<Obj>, tmp: seq<Obj>) {
    && NeverMeet(a, b) && i <= |a| && j <= |b| && NeverMeet(a[i..], b[j..])
    && tmp == LastN(done, n)
    && Interleave(a, b, id) == done + Interleave(a[i..], b[j..], id)
  }

  // `id` is the id of the first track's objects; those of the second track take it over.  The loop
  // over both tracks, which stops where MergeLoopEnds says:
  method MergeBoth(a: seq<Obj>, b: seq<Obj>, id: int, maxObjects: int)
    returns (tmp: seq<Obj>, i: nat, j: nat, ghost done: seq<Obj>, ghost turns: nat)
    requires NeverMeet(a, b)
    ensures Partly(a, b, id, maxObjects, i, j, done, tmp)
    ensures After(a, b, turns) == (i, j) && !Within(a, b, (i, j))
  {
    tmp, i, j, done, turns := [], 0, 0, [], 0;
    NothingDone(a, b, id, maxObjects);
    while i < |a| && j < |b|
      invariant Partly(a, b, id, maxObjects, i, j, done, tmp) && At(a, b, turns, i, j)
      decreases |a| - i + |b| - j
    {
      OneTurn(a, b, turns, i, j);
      if a[i].frame < b[j].frame {
        done := TakeA(a, b, id, maxObjects, i, j, done, tmp);
        tmp := tmp + [a[i]];
        i := i + 1;
      } else if a[i].frame > b[j].frame {
        done := TakeB(a, b, id, maxObjects, i, j, done, tmp);
        tmp := tmp + [b[j].(id := id)];
        j := j + 1;
      }
      tmp := DropOldest(tmp, maxObjects);
      turns := turns + 1;
    }
  }

  // ... and the loops over what is left of either.
  method MergeObjects(a: seq<Obj>, b: seq<Obj>, id: int, maxObjects: int) returns (tmp: seq<Obj>)
    requires NeverMeet(a, b)
    ensures tmp == LastN(Interleave(a, b, id), maxObjects)
  {
    var i, j;
    ghost var done, turns;
    tmp, i, j, done, turns := MergeBoth(a, b, id, maxObjects);
    while i < |a|
      invariant Partly(a, b, id, maxObjects, i, j, done, tmp) && (i < |a| ==> j == |b|)
    {
      done := TakeA(a, b, id, maxObjects, i, j, done, tmp);
      tmp := tmp + [a[i]];
      i := i + 1;
      tmp := DropOldest(tmp, maxObjects);
    }
    while j < |b|
      invariant Partly(a, b, id, maxObjects, i, j, done, tmp) && i == |a|
    {
      done := TakeB(a, b, id, maxObjects, i, j, done, tmp);
      tmp := tmp + [b[j].(id := id)];
      j := j + 1;
      tmp := DropOldest(tmp, maxObjects);
    }
    AllDone(a, b, id, maxObjects, done, tmp);
  }

  lemma NothingDone(a: seq<Obj>, b: seq<Obj>, id: int, n: int)
    requires NeverMeet(a, b)
    ensures Partly(a, b, id, n, 0, 0, [], [])
  {
    assert a[0..] == a && b[0..] == b;
    assert Interleave(a, b, id) == [] + Interleave(a, b, id);
  }

  lemma AllDone(a: seq<Obj>, b: seq<Obj>, id: int, n: int, done: seq<Obj>, tmp: seq<Obj>)
    requires Partly(a, b, id, n, |a|, |b|, done, tmp)
    ensures tmp == LastN(Interleave(a, b, id), n)
  {
    assert Interleave(a, b, id) == done;
  }

  lemma TakeA(a: seq<Obj>, b: seq<Obj>, id: int, n: int, i: nat, j: nat, done: seq<Obj>, tmp: seq<Obj>)
    returns (done': seq<Obj>)
    requires Partly(a, b, id, n, i, j, done, tmp) && i < |a| && (j < |b| ==> a[i].frame < b[j].frame)
    ensures Partly(a, b, id, n, i + 1, j, done', LastN(tmp + [a[i]], n))
  {
    done' := done + [a[i]];
    TrimEarly(done, a[i], n);
    assert a[i..][1..] == a[i + 1..];
    var m := Interleave(a[i + 1..], b[j..], id);
    assert Interleave(a[i..], b[j..], id) == [a[i]] + m;
    assert done + ([a[i]] + m) == done' + m;
  }

  lemma TakeB(a: seq<Obj>, b: seq<Obj>, id: int, n: int, i: nat, j: nat, done: seq<Obj>, tmp: seq<Obj>)
    returns (done': seq<Obj>)
    requires Partly(a, b, id, n, i, j, done, tmp) && j < |b| && (i < |a| ==> a[i].frame > b[j].frame)
    ensures Partly(a, b, id, n, i, j + 1, done', LastN(tmp + [b[j].(id := id)], n))
  {
    var x := b[j].(id := id);
    done' := done + [x];
    TrimEarly(done, x, n);
    assert b[j..][1..] == b[j + 1..];
    var m := Interleave(a[i..], b[j + 1..], id);
    assert Interleave(a[i..], b[j..], id) == [x] + m;
    assert done + ([x] + m) == done' + m;
  }
}
