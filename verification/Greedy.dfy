/** Greedy selection from an ordered list: take the first element, drop all it clashes with, repeat. */
module Greedy {
  // Non-maximum suppression (src/pipeline/decorator_stage/yolo_decorator_stage.cc) and the track assignment
  // (thirdparty/tracker/TrackerLib.cpp) are both instances.

  // The elements of s that x does not clash with, in order.
  function Survivors<T>(s: seq<T>, x: T, clash: (T, T) -> bool): (r: seq<T>)
    ensures |r| <= |s|
    ensures forall y :: y in r ==> y in s && !clash(x, y)
    ensures forall y :: y in s && !clash(x, y) ==> y in r
  {
    if s == [] then []
    else (if clash(x, s[0]) then [] else [s[0]]) + Survivors(s[1..], x, clash)
  }

  lemma SurvivorsCons<T>(s: seq<T>, x: T, clash: (T, T) -> bool)
    requires s != []
    ensures Survivors(s, x, clash) ==
            if clash(x, s[0]) then Survivors(s[1..], x, clash) else [s[0]] + Survivors(s[1..], x, clash)
  {
  }

  // The specification: keep the head, delete what clashes with it, recurse.
  function Pick<T>(s: seq<T>, clash: (T, T) -> bool): seq<T>
    decreases |s|
  {
    if s == [] then [] else [s[0]] + Pick(Survivors(s[1..], s[0], clash), clash)
  }

  ghost predicate Clashes<T>(kept: seq<T>, x: T, clash: (T, T) -> bool) {
    exists k :: 0 <= k < |kept| && clash(kept[k], x)
  }

  // What a left-to-right scan has kept after each prefix.
  ghost function Scan<T>(s: seq<T>, clash: (T, T) -> bool): seq<T> {
    if s == [] then [] else
      var kept := Scan(s[..|s| - 1], clash);
      if Clashes(kept, s[|s| - 1], clash) then kept else kept + [s[|s| - 1]]
  }

  ghost function ScanFrom<T>(kept: seq<T>, s: seq<T>, clash: (T, T) -> bool): seq<T>
    decreases s
  {
    if s == [] then kept
    else ScanFrom(if Clashes(kept, s[0], clash) then kept else kept + [s[0]], s[1..], clash)
  }

  lemma {:induction false} ScanFromSnoc<T>(kept: seq<T>, s: seq<T>, x: T, clash: (T, T) -> bool)
    ensures var r := ScanFrom(kept, s, clash);
            ScanFrom(kept, s + [x], clash) == if Clashes(r, x, clash) then r else r + [x]
    decreases s
  {
    if s == [] {
      assert (s + [x])[1..] == [];
    } else {
      assert (s + [x])[1..] == s[1..] + [x];
      ScanFromSnoc(if Clashes(kept, s[0], clash) then kept else kept + [s[0]], s[1..], x, clash);
    }
  }

  lemma {:induction false} ScanIsScanFrom<T>(s: seq<T>, clash: (T, T) -> bool)
    ensures Scan(s, clash) == ScanFrom([], s, clash)
    decreases |s|
  {
    if s != [] {
      var n := |s| - 1;
      ScanIsScanFrom(s[..n], clash);
      ScanFromSnoc([], s[..n], s[n], clash);
      assert s == s[..n] + [s[n]];
    }
  }

  // s without what clashes with anything in kept.
  ghost function Unblocked<T>(kept: seq<T>, s: seq<T>, clash: (T, T) -> bool): seq<T> {
    if s == [] then []
    else (if Clashes(kept, s[0], clash) then [] else [s[0]]) + Unblocked(kept, s[1..], clash)
  }

  lemma {:induction false} UnblockedMore<T>(kept: seq<T>, x: T, s: seq<T>, clash: (T, T) -> bool)
    ensures Unblocked(kept + [x], s, clash) == Survivors(Unblocked(kept, s, clash), x, clash)
    decreases s
  {
    if s != [] {
      UnblockedMore(kept, x, s[1..], clash);
      assert Clashes(kept + [x], s[0], clash) <==> Clashes(kept, s[0], clash) || clash(x, s[0]) by {
        assert (kept + [x])[|kept|] == x;
        assert forall k :: 0 <= k < |kept| ==> (kept + [x])[k] == kept[k];
      }
      var u := Unblocked(kept, s[1..], clash);
      if !Clashes(kept, s[0], clash) { assert ([s[0]] + u)[1..] == u; } else { assert [] + u == u; }
    }
  }

  lemma {:induction false} ScanFromIsPick<T>(kept: seq<T>, s: seq<T>, clash: (T, T) -> bool)
    ensures ScanFrom(kept, s, clash) == kept + Pick(Unblocked(kept, s, clash), clash)
    decreases s
  {
    if s != [] {
      if Clashes(kept, s[0], clash) {
        ScanFromIsPick(kept, s[1..], clash);
        assert Unblocked(kept, s, clash) == Unblocked(kept, s[1..], clash);
      } else {
        ScanFromIsPick(kept + [s[0]], s[1..], clash);
        PickUnblocked(kept, s, clash);
      }
    }
  }

  lemma PickUnblocked<T>(kept: seq<T>, s: seq<T>, clash: (T, T) -> bool)
    requires s != [] && !Clashes(kept, s[0], clash)
    ensures kept + [s[0]] + Pick(Unblocked(kept + [s[0]], s[1..], clash), clash) ==
            kept + Pick(Unblocked(kept, s, clash), clash)
  {
    var u := Unblocked(kept, s[1..], clash);
    UnblockedMore(kept, s[0], s[1..], clash);
    PickCons(s[0], u, clash);
    var p := Pick(Survivors(u, s[0], clash), clash);
    assert kept + [s[0]] + p == kept + ([s[0]] + p);
  }

  lemma PickCons<T>(x: T, u: seq<T>, clash: (T, T) -> bool)
    ensures Pick([x] + u, clash) == [x] + Pick(Survivors(u, x, clash), clash)
  {
    assert ([x] + u)[1..] == u;
  }

  lemma {:induction false} UnblockedByNone<T>(s: seq<T>, clash: (T, T) -> bool)
    ensures Unblocked([], s, clash) == s
  {
    if s != [] { UnblockedByNone(s[1..], clash); }
  }

  // A scan that skips what clashes with the kept elements computes the recursive specification.
  lemma ScanIsPick<T>(s: seq<T>, clash: (T, T) -> bool)
    ensures Scan(s, clash) == Pick(s, clash)
  {
    ScanIsScanFrom(s, clash);
    ScanFromIsPick([], s, clash);
    UnblockedByNone(s, clash);
  }

  // ----- what a selection guarantees

  ghost predicate Independent<T>(s: seq<T>, clash: (T, T) -> bool) {
    forall i, j :: 0 <= i < j < |s| ==> !clash(s[i], s[j])
  }

  lemma {:induction false} PickFrom<T>(s: seq<T>, clash: (T, T) -> bool)
    ensures forall x :: x in Pick(s, clash) ==> x in s
    decreases |s|
  {
    if s != [] { PickFrom(Survivors(s[1..], s[0], clash), clash); }
  }

  lemma ConsWithin<T>(s: seq<T>, a: seq<T>)
    requires s != [] && multiset(a) <= multiset(s[1..])
    ensures multiset(a) <= multiset(s) && multiset([s[0]] + a) <= multiset(s)
  {
    assert s == [s[0]] + s[1..];
  }

  lemma {:induction false} SurvivorsWithin<T>(s: seq<T>, x: T, clash: (T, T) -> bool)
    ensures multiset(Survivors(s, x, clash)) <= multiset(s)
    decreases s
  {
    if s != [] {
      SurvivorsCons(s, x, clash);
      hide Survivors;
      SurvivorsWithin(s[1..], x, clash);
      ConsWithin(s, Survivors(s[1..], x, clash));
    }
  }

  // Nothing is selected more often than it is listed.
  lemma {:induction false} PickWithin<T>(s: seq<T>, clash: (T, T) -> bool)
    ensures multiset(Pick(s, clash)) <= multiset(s)
    decreases |s|
  {
    if s != [] {
      hide Survivors;
      var r := Survivors(s[1..], s[0], clash);
      assert Pick(s, clash) == [s[0]] + Pick(r, clash);
      hide Pick;
      SurvivorsWithin(s[1..], s[0], clash);
      PickWithin(r, clash);
      ConsWithin(s, Pick(r, clash));
    }
  }

  lemma {:induction false} PickIndependent<T>(s: seq<T>, clash: (T, T) -> bool)
    ensures Independent(Pick(s, clash), clash)
    decreases |s|
  {
    if s != [] {
      var r := Survivors(s[1..], s[0], clash);
      PickIndependent(r, clash);
      PickFrom(r, clash);
    }
  }

  // An independent list is selected whole.
  lemma {:induction false} PickWhole<T>(s: seq<T>, clash: (T, T) -> bool)
    requires Independent(s, clash)
    ensures Pick(s, clash) == s
    decreases |s|
  {
    if s != [] {
      SurviveWhole(s[1..], s[0], clash);
      PickWhole(s[1..], clash);
    }
  }

  lemma {:induction false} SurviveWhole<T>(s: seq<T>, x: T, clash: (T, T) -> bool)
    requires forall i :: 0 <= i < |s| ==> !clash(x, s[i])
    ensures Survivors(s, x, clash) == s
  {
    if s != [] { SurviveWhole(s[1..], x, clash); }
  }

  // ----- lists sorted by a key

  ghost predicate Descending<T>(s: seq<T>, key: T -> real) {
    forall i, j :: 0 <= i < j < |s| ==> key(s[i]) >= key(s[j])
  }

  ghost predicate SortOf<T>(sorted: seq<T>, s: seq<T>, key: T -> real) {
    multiset(sorted) == multiset(s) && Descending(sorted, key)
  }

  lemma {:induction false} SurvivorsDescend<T>(s: seq<T>, x: T, clash: (T, T) -> bool, key: T -> real)
    requires Descending(s, key)
    ensures Descending(Survivors(s, x, clash), key)
    decreases s
  {
    if s != [] {
      SurvivorsDescend(s[1..], x, clash, key);
      var r := Survivors(s[1..], x, clash);
      forall j | 0 <= j < |r| ensures key(s[0]) >= key(r[j]) {
        assert r[j] in s[1..];
      }
    }
  }

  lemma {:induction false} PickDescends<T>(s: seq<T>, clash: (T, T) -> bool, key: T -> real)
    requires Descending(s, key)
    ensures Descending(Pick(s, clash), key)
    decreases |s|
  {
    if s != [] {
      var r := Survivors(s[1..], s[0], clash);
      SurvivorsDescend(s[1..], s[0], clash, key);
      PickDescends(r, clash, key);
      PickFrom(r, clash);
      forall j | 0 <= j < |Pick(r, clash)| ensures key(s[0]) >= key(Pick(r, clash)[j]) {
        assert Pick(r, clash)[j] in s[1..];
      }
    }
  }

  // Every element is kept or clashes with a kept element of at least its key.
  lemma {:induction false} PickCovers<T>(s: seq<T>, x: T, clash: (T, T) -> bool, key: T -> real)
    requires Descending(s, key) && x in s
    ensures x in Pick(s, clash) || exists k :: k in Pick(s, clash) && clash(k, x) && key(k) >= key(x)
    decreases |s|
  {
    var r := Survivors(s[1..], s[0], clash);
    assert s[0] in Pick(s, clash);
    if x != s[0] {
      assert x in s[1..];
      if clash(s[0], x) {
        var i :| 0 <= i < |s| && s[i] == x;
        assert key(s[0]) >= key(x);
      } else {
        SurvivorsDescend(s[1..], s[0], clash, key);
        PickCovers(r, x, clash, key);
        assert forall k :: k in Pick(r, clash) ==> k in Pick(s, clash);
      }
    }
  }

  ghost predicate StrictlyDescending<T>(s: seq<T>, key: T -> real) {
    forall i, j :: 0 <= i < j < |s| ==> key(s[i]) > key(s[j])
  }

  lemma {:induction false} SurvivorsStrict<T>(s: seq<T>, x: T, clash: (T, T) -> bool, key: T -> real)
    requires StrictlyDescending(s, key)
    ensures StrictlyDescending(Survivors(s, x, clash), key)
    decreases s
  {
    if s != [] {
      SurvivorsStrict(s[1..], x, clash, key);
      var r := Survivors(s[1..], x, clash);
      forall j | 0 <= j < |r| ensures key(s[0]) > key(r[j]) {
        assert r[j] in s[1..];
      }
    }
  }

  ghost predicate Within<T(!new)>(r: seq<T>, s: seq<T>) { forall x :: x in r ==> x in s }

  // Every element of s is in r or clashes with one of at least its key.
  ghost predicate Covers<T(!new)>(r: seq<T>, s: seq<T>, clash: (T, T) -> bool, key: T -> real) {
    forall x :: x in s ==> x in r || exists k :: k in r && clash(k, x) && key(k) >= key(x)
  }

  // The element of the largest key can only be covered by itself.
  lemma FirstPicked<T(!new)>(s: seq<T>, r: seq<T>, clash: (T, T) -> bool, key: T -> real)
    requires s != [] && StrictlyDescending(s, key) && StrictlyDescending(r, key)
    requires Within(r, s) && Covers(r, s, clash, key)
    ensures r != [] && r[0] == s[0] && s[0] !in s[1..] && s[0] !in r[1..]
  {
    forall x | x in s && x != s[0] ensures key(s[0]) > key(x) {
      var i :| 0 <= i < |s| && s[i] == x;
    }
    assert s[0] in s;
    assert s[0] in r;
    var j :| 0 <= j < |r| && r[j] == s[0];
    assert r[0] in s;
  }

  // What is left after the first pick is covered by the rest of r.
  lemma RestCovered<T(!new)>(s: seq<T>, r: seq<T>, clash: (T, T) -> bool, key: T -> real)
    requires s != [] && r != [] && r[0] == s[0] && s[0] !in s[1..] && s[0] !in r[1..] && Independent(r, clash)
    requires Within(r, s) && Covers(r, s, clash, key)
    ensures var rest := Survivors(s[1..], s[0], clash);
            Within(r[1..], rest) && Covers(r[1..], rest, clash, key)
  {
    var rest, r' := Survivors(s[1..], s[0], clash), r[1..];
    hide Survivors;
    forall x | x in r' ensures x in rest {
      var i :| 0 < i < |r| && r[i] == x;
      assert !clash(r[0], r[i]) && x in s;
    }
    forall x | x in rest ensures x in r' || exists k :: k in r' && clash(k, x) && key(k) >= key(x) {
      assert x in s[1..] && x in s;
      if x !in r {
        var k :| k in r && clash(k, x) && key(k) >= key(x);
        assert k in r';
      }
    }
  }

  lemma WithinSome<T(!new)>(r: seq<T>, s: seq<T>)
    requires Within(r, s) && r != []
    ensures s != []
  {
    assert r[0] in s;
  }

  lemma TailStays<T>(r: seq<T>, clash: (T, T) -> bool, key: T -> real)
    requires r != [] && StrictlyDescending(r, key)
    ensures StrictlyDescending(r[1..], key) && (Independent(r, clash) ==> Independent(r[1..], clash))
  {
  }

  // Without ties, being independent, in order and covering leaves only one selection.
  lemma {:induction false} PickUnique<T(!new)>(s: seq<T>, r: seq<T>, clash: (T, T) -> bool, key: T -> real)
    requires StrictlyDescending(s, key) && StrictlyDescending(r, key)
    requires Independent(r, clash) && Within(r, s) && Covers(r, s, clash, key)
    ensures r == Pick(s, clash)
    decreases |s|
  {
    hide Survivors, Within, Covers, StrictlyDescending, Independent;
    if s == [] {
      if r != [] { WithinSome(r, s); }
    } else {
      FirstPicked(s, r, clash, key);
      RestCovered(s, r, clash, key);
      TailStays(r, clash, key);
      TailStays(s, clash, key);
      SurvivorsStrict(s[1..], s[0], clash, key);
      var rest := Survivors(s[1..], s[0], clash);
      assert Pick(s, clash) == [s[0]] + Pick(rest, clash);
      assert r == [s[0]] + r[1..];
      hide Pick;
      PickUnique(rest, r[1..], clash, key);
    }
  }

  // ----- the sort

  // std::sort leaves the order of equal keys open; the results above hold for every sorted order.
  method SortDescending<T>(s: seq<T>, key: T -> real) returns (sorted: seq<T>)
    ensures SortOf(sorted, s, key)
  {
    sorted := [];
    for i := 0 to |s|
      invariant SortOf(sorted, s[..i], key)
    {
      ghost var was := sorted;
      sorted := InsertDescending(sorted, s[i], key);
      assert s[..i + 1] == s[..i] + [s[i]];
    }
    assert s[..|s|] == s;
  }

  method InsertDescending<T>(s: seq<T>, x: T, key: T -> real) returns (r: seq<T>)
    requires Descending(s, key)
    ensures SortOf(r, s + [x], key)
  {
    var j := |s|;
    while j > 0 && key(s[j - 1]) < key(x)
      invariant 0 <= j <= |s|
      invariant forall k :: j <= k < |s| ==> key(s[k]) < key(x)
    {
      j := j - 1;
    }
    r := s[..j] + [x] + s[j..];
    InsertKeepsAll(s, x, j);
    forall k | 0 <= k < j ensures key(s[k]) >= key(x) {
      assert key(s[k]) >= key(s[j - 1]);
    }
    InsertKeepsOrder(s, x, j, key);
  }

  lemma InsertKeepsAll<T>(s: seq<T>, x: T, j: nat)
    requires j <= |s|
    ensures multiset(s[..j] + [x] + s[j..]) == multiset(s + [x])
  {
    assert s == s[..j] + s[j..];
  }

  lemma InsertKeepsOrder<T>(s: seq<T>, x: T, j: nat, key: T -> real)
    requires j <= |s| && Descending(s, key)
    requires forall k :: 0 <= k < j ==> key(s[k]) >= key(x)
    requires forall k :: j <= k < |s| ==> key(s[k]) < key(x)
    ensures Descending(s[..j] + [x] + s[j..], key)
  {
    var r := s[..j] + [x] + s[j..];
    assert forall k :: 0 <= k < j ==> r[k] == s[k];
    assert r[j] == x;
    assert forall k :: j < k < |r| ==> r[k] == s[k - 1];
  }
}
