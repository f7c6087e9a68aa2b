/**
 Greedy minimum-cost association on a matrix (FindAssociationPairs of
 src/pipeline/decorator_stage/yolo_decorator_stage.cc): take the smallest entry, overwrite its row
 and column with the largest float, repeat while the minimum is within the gate.
 */
module Association {
  import opened Greedy
  import opened Assignment

  const FLOAT_MAX := 340282346638528859811704183484516925440.0

  type Matrix = seq<seq<real>>

  ghost predicate Rectangular(m: Matrix, rows: nat, cols: nat) {
    |m| == rows && forall i :: 0 <= i < rows ==> |m[i]| == cols
  }

  ghost function Row(cost: array2<real>, i: nat): (r: seq<real>)
    requires i < cost.Length0
    reads cost
    ensures |r| == cost.Length1 && forall j :: 0 <= j < |r| ==> r[j] == cost[i, j]
  {
    seq(cost.Length1, j requires 0 <= j < cost.Length1 reads cost => cost[i, j])
  }

  ghost function Snapshot(cost: array2<real>): (m: Matrix)
    reads cost
    ensures Rectangular(m, cost.Length0, cost.Length1)
    ensures forall i, j :: 0 <= i < cost.Length0 && 0 <= j < cost.Length1 ==> m[i][j] == cost[i, j]
  {
    seq(cost.Length0, i requires 0 <= i < cost.Length0 reads cost => Row(cost, i))
  }

  // An entry as a candidate: small costs are high scores.
  function Entry(i: nat, j: nat, cost: real): Cand { Cand(i, j, -cost) }

  ghost function Gated(m: Matrix, gate: real): set<Cand> {
    set i, j | 0 <= i < |m| && 0 <= j < |m[i]| && m[i][j] <= gate :: Entry(i, j, m[i][j])
  }

  // pairs maps exactly the chosen rows, each to its column.
  ghost predicate PairsOf(pairs: map<nat, nat>, chosen: seq<Cand>) {
    && (forall i :: 0 <= i < |chosen| ==> chosen[i].track in pairs && pairs[chosen[i].track] == chosen[i].det)
    && (forall r :: r in pairs ==> Cand(r, pairs[r], 0.0) in Ends(chosen))
  }

  ghost function Ends(chosen: seq<Cand>): set<Cand> {
    set c | c in chosen :: c.(score := 0.0)
  }

  ghost predicate Ascending(s: seq<nat>) {
    forall i, j :: 0 <= i < j < |s| ==> s[i] < s[j]
  }

  // orphans lists, in ascending order, the indices below n that are not used.
  ghost predicate Complement(orphans: seq<nat>, n: nat, used: set<nat>) {
    Ascending(orphans) && forall i: nat :: i in orphans <==> i < n && i !in used
  }

  // What a completed run establishes about the matrix it was given.
  ghost predicate Associated(m: Matrix, rows: nat, cols: nat, gate: real,
                             pairs: map<nat, nat>, orphanRows: seq<nat>, orphanCols: seq<nat>, chosen: seq<Cand>)
  {
    && BestFirst(Gated(m, gate), chosen)
    && PairsOf(pairs, chosen)
    && Complement(orphanRows, rows, pairs.Keys)
    && Complement(orphanCols, cols, pairs.Values)
  }

  // ----- the loop

  // A best-first choice still in progress, with the candidates that remain.
  ghost predicate Choosing(cands: set<Cand>, chosen: seq<Cand>, rest: set<Cand>) {
    if chosen == [] then rest == cands
    else
      && chosen[0] in cands
      && (forall c :: c in cands ==> c.score <= chosen[0].score)
      && Choosing(Free(cands, chosen[0]), chosen[1..], rest)
  }

  lemma {:induction false} ChooseNext(cands: set<Cand>, chosen: seq<Cand>, rest: set<Cand>, x: Cand)
    requires Choosing(cands, chosen, rest)
    requires x in rest && forall c :: c in rest ==> c.score <= x.score
    ensures Choosing(cands, chosen + [x], Free(rest, x))
    decreases |chosen|
  {
    if chosen == [] {
      assert (chosen + [x])[1..] == [];
    } else {
      assert (chosen + [x])[1..] == chosen[1..] + [x];
      ChooseNext(Free(cands, chosen[0]), chosen[1..], rest, x);
    }
  }

  lemma {:induction false} ChooseDone(cands: set<Cand>, chosen: seq<Cand>)
    requires Choosing(cands, chosen, {})
    ensures BestFirst(cands, chosen)
    decreases |chosen|
  {
    if chosen != [] { ChooseDone(Free(cands, chosen[0]), chosen[1..]); }
  }

  // The entries within the gate whose row and column are not blanked yet.
  ghost function Remaining(m: Matrix, gate: real, rowsUsed: set<nat>, colsUsed: set<nat>): set<Cand> {
    set c | c in Gated(m, gate) && c.track !in rowsUsed && c.det !in colsUsed
  }

  // The overwritten matrix against the original.
  ghost predicate Blanked(cost: array2<real>, m: Matrix, rowsUsed: set<nat>, colsUsed: set<nat>)
    reads cost
  {
    && Rectangular(m, cost.Length0, cost.Length1)
    && forall i: nat, j: nat :: i < cost.Length0 && j < cost.Length1 ==>
         cost[i, j] == if i in rowsUsed || j in colsUsed then FLOAT_MAX else m[i][j]
  }

  ghost predicate Smallest(cost: array2<real>, row: nat, col: nat)
    reads cost
  {
    && row < cost.Length0 && col < cost.Length1
    && forall i, j :: 0 <= i < cost.Length0 && 0 <= j < cost.Length1 ==> cost[row, col] <= cost[i, j]
  }

  // Any position of a smallest coefficient will do: the source leaves ties to the matrix library.
  method MinCoeff(cost: array2<real>) returns (row: nat, col: nat)
    requires cost.Length0 > 0 && cost.Length1 > 0
    ensures Smallest(cost, row, col)
  {
    row, col := 0, 0;
    for c := 0 to cost.Length1
      invariant row < cost.Length0 && col < cost.Length1
      invariant forall i, j :: 0 <= i < cost.Length0 && 0 <= j < c ==> cost[row, col] <= cost[i, j]
    {
      for r := 0 to cost.Length0
        invariant row < cost.Length0 && col < cost.Length1
        invariant forall i, j :: 0 <= i < cost.Length0 && 0 <= j < c ==> cost[row, col] <= cost[i, j]
        invariant forall i :: 0 <= i < r ==> cost[row, col] <= cost[i, c]
      {
        if cost[r, c] < cost[row, col] {
          row, col := r, c;
        }
      }
    }
  }

  method BlankRowAndColumn(cost: array2<real>, row: nat, col: nat)
    requires row < cost.Length0 && col < cost.Length1
    modifies cost
    ensures forall i, j :: 0 <= i < cost.Length0 && 0 <= j < cost.Length1 ==>
              cost[i, j] == if i == row || j == col then FLOAT_MAX else old(cost[i, j])
  {
    forall j | 0 <= j < cost.Length1 { cost[row, j] := FLOAT_MAX; }
    forall i | 0 <= i < cost.Length0 { cost[i, col] := FLOAT_MAX; }
  }

  // std::set_difference of 0..n-1 and the sorted matched indices.
  method Orphans(n: nat, used: set<nat>) returns (orphans: seq<nat>)
    ensures Complement(orphans, n, used)
  {
    orphans := [];
    for i := 0 to n
      invariant Complement(orphans, i, used)
    {
      if i !in used {
        assert forall k :: 0 <= k < |orphans| ==> orphans[k] in orphans;
        orphans := orphans + [i];
      }
    }
  }

  method FindAssociationPairs(cost: array2<real>, gate: real)
    returns (ok: bool, pairs: map<nat, nat>, orphanRows: seq<nat>, orphanCols: seq<nat>,
             ghost chosen: seq<Cand>, ghost turns: nat)
    requires gate < FLOAT_MAX
    modifies cost
    ensures ok <==> cost.Length0 > 0 && cost.Length1 > 0
    ensures !ok ==> pairs == map[] && orphanRows == orphanCols == []
    ensures ok ==>
              Associated(old(Snapshot(cost)), cost.Length0, cost.Length1, gate, pairs, orphanRows, orphanCols, chosen)
    ensures turns == |chosen| == |pairs| && turns <= cost.Length0 && turns <= cost.Length1
  {
    hide Choosing, Gated, BestFirst, Complement, PairsOf, Remaining;
    ok, pairs, orphanRows, orphanCols, chosen, turns := false, map[], [], [], [], 0;
    if cost.Length0 == 0 || cost.Length1 == 0 {
      return;
    }
    ghost var m := Snapshot(cost);
    var rows: set<nat>, cols: set<nat> := {}, {};
    var row: nat, col: nat := MinCoeff(cost);
    NothingChosen(m, gate);
    while cost[row, col] <= gate
      invariant Smallest(cost, row, col)
      invariant Blanked(cost, m, rows, cols)
      invariant Choosing(Gated(m, gate), chosen, Remaining(m, gate, rows, cols))
      invariant Recorded(chosen, pairs, rows, cols)
      invariant turns == |chosen| == |pairs|
      decreases Indices(cost.Length0) - rows
    {
      BestRemaining(cost, m, gate, rows, cols, row, col);
      ghost var x := Entry(row, col, m[row][col]);
      TakeNext(m, gate, chosen, pairs, rows, cols, x);
      chosen := chosen + [x];
      pairs := pairs[row := col];
      BlankRowAndColumn(cost, row, col);
      rows, cols := rows + {row}, cols + {col};
      row, col := MinCoeff(cost);
      turns := turns + 1;
    }
    hide Smallest;
    NoneRemaining(cost, m, gate, rows, cols);
    ChooseDone(Gated(m, gate), chosen);
    orphanRows := Orphans(cost.Length0, rows);
    orphanCols := Orphans(cost.Length1, cols);
    ok := true;
    FewMatches(m, cost.Length0, cost.Length1, gate, pairs, orphanRows, orphanCols, chosen);
  }

  // ----- a gate the loop cannot pass

  function Blank(m: Matrix, row: nat, col: nat): (r: Matrix)
    ensures |r| == |m| && forall i :: 0 <= i < |m| ==> |r[i]| == |m[i]|
    ensures forall i, j :: 0 <= i < |m| && 0 <= j < |m[i]| ==>
              r[i][j] == if i == row || j == col then FLOAT_MAX else m[i][j]
  {
    seq(|m|, i requires 0 <= i < |m| =>
      seq(|m[i]|, j requires 0 <= j < |m[i]| => if i == row || j == col then FLOAT_MAX else m[i][j]))
  }

  // The matrix after turns of the loop that blanked the given rows and columns.
  function BlankAll(m: Matrix, picks: seq<(nat, nat)>): Matrix
    decreases picks
  {
    if picks == [] then m else BlankAll(Blank(m, picks[0].0, picks[0].1), picks[1..])
  }

  ghost predicate Finite(m: Matrix) {
    forall i, j :: 0 <= i < |m| && 0 <= j < |m[i]| ==> m[i][j] <= FLOAT_MAX
  }

  // With a gate at or above the largest float the test of the loop holds after any number of turns, so
  // FindAssociationPairs must demand a smaller one.
  lemma {:induction false} GateTooLarge(m: Matrix, rows: nat, cols: nat, gate: real, picks: seq<(nat, nat)>)
    requires Rectangular(m, rows, cols) && rows > 0 && cols > 0 && Finite(m) && gate >= FLOAT_MAX
    ensures var r := BlankAll(m, picks);
            exists i, j :: 0 <= i < |r| && 0 <= j < |r[i]| && r[i][j] <= gate
    decreases picks
  {
    if picks == [] {
      assert m[0][0] <= gate;
    } else {
      var next := Blank(m, picks[0].0, picks[0].1);
      GateTooLarge(next, rows, cols, gate, picks[1..]);
      var r := BlankAll(next, picks[1..]);
      assert BlankAll(m, picks) == r;
      var i, j :| 0 <= i < |r| && 0 <= j < |r[i]| && r[i][j] <= gate;
    }
  }

  lemma NothingChosen(m: Matrix, gate: real)
    ensures Choosing(Gated(m, gate), [], Remaining(m, gate, {}, {})) && Recorded([], map[], {}, {})
  {
    assert Remaining(m, gate, {}, {}) == Gated(m, gate);
  }

  lemma TakeNext(m: Matrix, gate: real, chosen: seq<Cand>, pairs: map<nat, nat>, rows: set<nat>, cols: set<nat>,
                 x: Cand)
    requires Choosing(Gated(m, gate), chosen, Remaining(m, gate, rows, cols))
    requires Recorded(chosen, pairs, rows, cols)
    requires x in Remaining(m, gate, rows, cols)
    requires forall c :: c in Remaining(m, gate, rows, cols) ==> c.score <= x.score
    ensures Choosing(Gated(m, gate), chosen + [x], Remaining(m, gate, rows + {x.track}, cols + {x.det}))
    ensures Recorded(chosen + [x], pairs[x.track := x.det], rows + {x.track}, cols + {x.det})
    ensures |pairs[x.track := x.det]| == |pairs| + 1
  {
    ChooseNext(Gated(m, gate), chosen, Remaining(m, gate, rows, cols), x);
    assert Free(Remaining(m, gate, rows, cols), x) == Remaining(m, gate, rows + {x.track}, cols + {x.det});
    RecordNext(chosen, pairs, rows, cols, x);
  }

  // The bookkeeping of the loop: the pairs and indices recorded are those chosen.
  ghost predicate Recorded(chosen: seq<Cand>, pairs: map<nat, nat>, rows: set<nat>, cols: set<nat>) {
    PairsOf(pairs, chosen) && rows == pairs.Keys && cols == pairs.Values
  }

  lemma RecordNext(chosen: seq<Cand>, pairs: map<nat, nat>, rows: set<nat>, cols: set<nat>, x: Cand)
    requires Recorded(chosen, pairs, rows, cols) && x.track !in rows && x.det !in cols
    ensures Recorded(chosen + [x], pairs[x.track := x.det], rows + {x.track}, cols + {x.det})
    ensures |pairs[x.track := x.det]| == |pairs| + 1
  {
    hide Ends;
    EndsNext(chosen, x);
    ValuesNext(pairs, x.track, x.det);
  }

  lemma EndsNext(chosen: seq<Cand>, x: Cand)
    ensures Ends(chosen + [x]) == Ends(chosen) + {x.(score := 0.0)}
  {
    assert x in chosen + [x];
    forall c | c in chosen ensures c in chosen + [x] {}
  }

  lemma ValuesNext(pairs: map<nat, nat>, r: nat, d: nat)
    requires r !in pairs
    ensures pairs[r := d].Values == pairs.Values + {d}
  {
    var q := pairs[r := d];
    assert q[r] == d;
    forall v | v in pairs.Values ensures v in q.Values {
      var k :| k in pairs && pairs[k] == v;
      assert q[k] == v;
    }
  }

  lemma BestRemaining(cost: array2<real>, m: Matrix, gate: real, rows: set<nat>, cols: set<nat>, row: nat, col: nat)
    requires Blanked(cost, m, rows, cols) && gate < FLOAT_MAX
    requires Smallest(cost, row, col) && cost[row, col] <= gate
    ensures row !in rows && col !in cols
    ensures Entry(row, col, m[row][col]) in Remaining(m, gate, rows, cols)
    ensures forall c :: c in Remaining(m, gate, rows, cols) ==> c.score <= -m[row][col]
  {
    assert cost[row, col] == m[row][col];
    forall c | c in Remaining(m, gate, rows, cols) ensures c.score <= -m[row][col] {
      assert cost[c.track, c.det] == m[c.track][c.det];
    }
  }

  lemma NoneRemaining(cost: array2<real>, m: Matrix, gate: real, rows: set<nat>, cols: set<nat>)
    requires Blanked(cost, m, rows, cols)
    requires forall i, j :: 0 <= i < cost.Length0 && 0 <= j < cost.Length1 ==> gate < cost[i, j]
    ensures Remaining(m, gate, rows, cols) == {}
  {
    forall c | c in Gated(m, gate) ensures c.track in rows || c.det in cols {
      assert gate < cost[c.track, c.det];
    }
  }

  // ----- what an association means

  // A pair is one of the chosen entries.
  lemma PairChosen(pairs: map<nat, nat>, chosen: seq<Cand>, r: nat)
    requires PairsOf(pairs, chosen) && r in pairs
    ensures exists c :: c in chosen && c.track == r && c.det == pairs[r]
  {
    assert Cand(r, pairs[r], 0.0) in Ends(chosen);
  }

  // Every match was within the gate; no row and no column is matched twice.
  lemma MatchesWithinGate(m: Matrix, rows: nat, cols: nat, gate: real,
                          pairs: map<nat, nat>, orphanRows: seq<nat>, orphanCols: seq<nat>, chosen: seq<Cand>)
    requires Rectangular(m, rows, cols)
    requires Associated(m, rows, cols, gate, pairs, orphanRows, orphanCols, chosen)
    ensures forall r :: r in pairs ==> r < rows && pairs[r] < cols && m[r][pairs[r]] <= gate
    ensures forall r, r' :: r in pairs && r' in pairs && pairs[r] == pairs[r'] ==> r == r'
  {
    BestFirstMatching(Gated(m, gate), chosen);
    forall r | r in pairs ensures r < rows && pairs[r] < cols && m[r][pairs[r]] <= gate {
      PairChosen(pairs, chosen, r);
      var c :| c in chosen && c.track == r && c.det == pairs[r];
      assert c in Gated(m, gate);
    }
    forall r, r' | r in pairs && r' in pairs && pairs[r] == pairs[r'] ensures r == r' {
      PairChosen(pairs, chosen, r);
      PairChosen(pairs, chosen, r');
      var c :| c in chosen && c.track == r && c.det == pairs[r];
      var c' :| c' in chosen && c'.track == r' && c'.det == pairs[r'];
      assert ShareEnd(c, c') && ShareEnd(c', c);
      var i :| 0 <= i < |chosen| && chosen[i] == c;
      var j :| 0 <= j < |chosen| && chosen[j] == c';
      assert !(i < j) && !(j < i);
    }
  }

  // No orphan row and orphan column could still have been matched.
  lemma NoAdmissibleOrphans(m: Matrix, rows: nat, cols: nat, gate: real,
                            pairs: map<nat, nat>, orphanRows: seq<nat>, orphanCols: seq<nat>, chosen: seq<Cand>,
                            r: nat, c: nat)
    requires Rectangular(m, rows, cols)
    requires Associated(m, rows, cols, gate, pairs, orphanRows, orphanCols, chosen)
    requires r in orphanRows && c in orphanCols
    ensures m[r][c] > gate
  {
    if m[r][c] <= gate {
      var e := Entry(r, c, m[r][c]);
      assert e in Gated(m, gate);
      BestFirstStable(Gated(m, gate), chosen, e);
      assert false;
    }
  }

  // A choice has at most min(rows, cols) entries; FindAssociationPairs makes one per turn of its loop.
  lemma FewMatches(m: Matrix, rows: nat, cols: nat, gate: real,
                   pairs: map<nat, nat>, orphanRows: seq<nat>, orphanCols: seq<nat>, chosen: seq<Cand>)
    requires Rectangular(m, rows, cols)
    requires Associated(m, rows, cols, gate, pairs, orphanRows, orphanCols, chosen)
    ensures |chosen| <= rows && |chosen| <= cols
  {
    BestFirstMatching(Gated(m, gate), chosen);
    forall i | 0 <= i < |chosen| ensures chosen[i].track < rows && chosen[i].det < cols {
      assert chosen[i] in Gated(m, gate);
    }
    DistinctBelow(seq(|chosen|, i requires 0 <= i < |chosen| => chosen[i].track), rows);
    DistinctBelow(seq(|chosen|, i requires 0 <= i < |chosen| => chosen[i].det), cols);
  }

  lemma {:induction false} DistinctBelow(s: seq<nat>, n: nat)
    requires forall i :: 0 <= i < |s| ==> s[i] < n
    requires forall i, j :: 0 <= i < j < |s| ==> s[i] != s[j]
    ensures |s| <= n
    decreases n
  {
    if s != [] {
      assert s[0] < n;
      if k :| 0 <= k < |s| && s[k] == n - 1 {
        DistinctBelow(s[..k] + s[k + 1..], n - 1);
      } else {
        DistinctBelow(s, n - 1);
      }
    }
  }

  // With pairwise distinct admissible costs, repeated minimum with blanking and sort-then-scan, as in
  // SolveAssignmentProblem, are the same algorithm.
  lemma BlankingIsScanning(m: Matrix, rows: nat, cols: nat, gate: real,
                           pairs: map<nat, nat>, orphanRows: seq<nat>, orphanCols: seq<nat>, chosen: seq<Cand>,
                           sorted: seq<Cand>)
    requires Associated(m, rows, cols, gate, pairs, orphanRows, orphanCols, chosen)
    requires DistinctScores(Gated(m, gate))
    requires Elements(sorted) == Gated(m, gate) && Descending(sorted, Score)
    ensures chosen == Pick(sorted, ShareEnd)
  {
    PickIsBestFirst(sorted);
    BestFirstUnique(Gated(m, gate), chosen, Pick(sorted, ShareEnd));
  }
}
