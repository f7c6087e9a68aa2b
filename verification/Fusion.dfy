/**
 Fusing bodies, heads and faces into persons (ComputeAssociate of
 src/pipeline/decorator_stage/yolo_decorator_stage.cc), up to the hand packages.
 */
module Fusion {
  import opened Assignment
  import opened Association
  import opened Suppression

  datatype Person = Person(body: Box, head: Box, face: Box, faceObserved: bool, headObserved: bool)

  const NO_BOX := Box(0.0, 0.0, 0.0, 0.0, 0.0)
  const GATE := 0.8
  const FLOAT_EPSILON := 0.00000011920929

  // Overlap ratio without the border line; 0 when the union is about 0.
  function Iou(a: Box, b: Box): real {
    var w := Max(0.0, Min(a.x2, b.x2) - Max(a.x1, b.x1));
    var h := Max(0.0, Min(a.y2, b.y2) - Max(a.y1, b.y1));
    var area := w * h;
    var rest := (a.x2 - a.x1) * (a.y2 - a.y1) + (b.x2 - b.x1) * (b.y2 - b.y1) - area;
    if -FLOAT_EPSILON <= rest <= FLOAT_EPSILON then 0.0 else area / rest
  }

  function HeadBox(head: BodyInfo): Box { head.box.(conf := head.related.conf) }

  // The head of a body without a matched head: its related box, or the top third of the body when
  // that box is degenerate.
  function GuessedHead(body: BodyInfo): Box {
    var h, b := body.related, body.box;
    if h.x2 - h.x1 < 2.0 || h.y2 - h.y1 < 2.0
    then Box(b.x1, b.y1, b.x2, b.y1 + (b.y2 - b.y1) / 3.0, h.conf)
    else h
  }

  // ----- what the ratio measures

  predicate InteriorOf(b: Box, x: real, y: real) { b.x1 < x < b.x2 && b.y1 < y < b.y2 }

  ghost predicate ShareInterior(a: Box, b: Box) {
    exists x, y :: InteriorOf(a, x, y) && InteriorOf(b, x, y)
  }

  function InnerSide(lo: real, hi: real, lo': real, hi': real): real {
    var left, right := if lo < lo' then lo' else lo, if hi < hi' then hi else hi';
    if right <= left then 0.0 else right - left
  }

  function InnerArea(a: Box, b: Box): real { InnerSide(a.x1, a.x2, b.x1, b.x2) * InnerSide(a.y1, a.y2, b.y1, b.y2) }

  function Extent(b: Box): real { (b.x2 - b.x1) * (b.y2 - b.y1) }

  // What the two cover together is too small for a ratio.
  predicate Negligible(a: Box, b: Box) { Extent(a) + Extent(b) - InnerArea(a, b) <= 0.00000011920929 }

  lemma InnerWithin(a: Box, b: Box)
    requires WellFormed(a) && WellFormed(b)
    ensures 0.0 <= InnerArea(a, b) <= Extent(a) && InnerArea(a, b) <= Extent(b)
    ensures InnerArea(a, b) == InnerArea(b, a)
  {
    hide InnerSide, Max, Min;
    var w, h := InnerSide(a.x1, a.x2, b.x1, b.x2), InnerSide(a.y1, a.y2, b.y1, b.y2);
    SideWithin(a.x1, a.x2, b.x1, b.x2);
    SideWithin(a.y1, a.y2, b.y1, b.y2);
    ProductMonotone(w, h, a.x2 - a.x1, a.y2 - a.y1);
    ProductMonotone(w, h, b.x2 - b.x1, b.y2 - b.y1);
    NonNegative(w, h);
  }

  lemma SideWithin(lo: real, hi: real, lo': real, hi': real)
    requires lo <= hi && lo' <= hi'
    ensures var s := InnerSide(lo, hi, lo', hi');
            && 0.0 <= s <= hi - lo && s <= hi' - lo' && s == InnerSide(lo', hi', lo, hi)
            && s == Max(0.0, Min(hi, hi') - Max(lo, lo'))
  {
  }

  lemma InteriorIff(a: Box, b: Box)
    ensures ShareInterior(a, b) <==>
            InnerSide(a.x1, a.x2, b.x1, b.x2) > 0.0 && InnerSide(a.y1, a.y2, b.y1, b.y2) > 0.0
    ensures InnerArea(a, b) > 0.0 <==> ShareInterior(a, b)
  {
    var w, h := InnerSide(a.x1, a.x2, b.x1, b.x2), InnerSide(a.y1, a.y2, b.y1, b.y2);
    if w > 0.0 && h > 0.0 {
      var left, top := Max(a.x1, b.x1), Max(a.y1, b.y1);
      assert InteriorOf(a, left + w / 2.0, top + h / 2.0) && InteriorOf(b, left + w / 2.0, top + h / 2.0);
    }
    assert w > 0.0 && h > 0.0 ==> w * h > 0.0;
    assert w == 0.0 || h == 0.0 ==> w * h == 0.0;
  }

  lemma IouIs(a: Box, b: Box)
    requires WellFormed(a) && WellFormed(b)
    ensures Iou(a, b) == if Negligible(a, b) then 0.0
                         else InnerArea(a, b) / (Extent(a) + Extent(b) - InnerArea(a, b))
  {
    hide InnerSide, Max, Min;
    InnerWithin(a, b);
    SideWithin(a.x1, a.x2, b.x1, b.x2);
    SideWithin(a.y1, a.y2, b.y1, b.y2);
    assert 0.0 <= (a.x2 - a.x1) * (a.y2 - a.y1) == Extent(a);
    assert 0.0 <= (b.x2 - b.x1) * (b.y2 - b.y1) == Extent(b);
    var area := Max(0.0, Min(a.x2, b.x2) - Max(a.x1, b.x1)) * Max(0.0, Min(a.y2, b.y2) - Max(a.y1, b.y1));
    assert area == InnerArea(a, b);
    hide InnerArea, Extent;
  }

  lemma QuotientBounds(n: real, d: real)
    requires 0.0 <= n <= d && d > 0.0
    ensures 0.0 <= n / d <= 1.0 && (n == d ==> n / d == 1.0) && (n == 0.0 ==> n / d == 0.0)
    ensures n / d >= 0.2 <==> 5.0 * n >= d
  {
    var r := n / d;
    assert r * d == n;
    AtLeastFifth(r, n, d);
  }

  lemma AtLeastFifth(r: real, n: real, d: real)
    requires d > 0.0 && r * d == n
    ensures r >= 0.2 <==> 5.0 * n >= d
  {
    if r >= 0.2 {
      NonNegative(r - 0.2, d);
      assert (r - 0.2) * d == r * d - 0.2 * d;
    } else {
      assert (0.2 - r) * d > 0.0;
      assert (0.2 - r) * d == 0.2 * d - r * d;
    }
  }

  // The ratio lies between 0 and 1, is 0 for boxes that share no interior point and 1 for a box with itself,
  // does not depend on the order, and reaches the gate exactly when six times the common area is at least
  // the sum of the areas; where the two together cover next to nothing it is 0.
  lemma IouMeans(a: Box, b: Box)
    requires WellFormed(a) && WellFormed(b)
    ensures 0.0 <= Iou(a, b) <= 1.0 && Iou(a, b) == Iou(b, a)
    ensures !ShareInterior(a, b) || Negligible(a, b) ==> Iou(a, b) == 0.0
    ensures SamePlace(a, b) && Extent(a) > 0.00000011920929 ==> Iou(a, b) == 1.0
    ensures !Negligible(a, b) ==> (Iou(a, b) >= 0.2 <==> 6.0 * InnerArea(a, b) >= Extent(a) + Extent(b))
  {
    IouIs(a, b);
    IouIs(b, a);
    InnerWithin(a, b);
    InteriorIff(a, b);
    if SamePlace(a, b) { assert InnerArea(a, b) == Extent(a) by { InnerOfSame(a, b); } }
    hide Iou, InnerArea, Extent, ShareInterior;
    if !Negligible(a, b) { QuotientBounds(InnerArea(a, b), Extent(a) + Extent(b) - InnerArea(a, b)); }
  }

  lemma InnerOfSame(a: Box, b: Box)
    requires WellFormed(a) && SamePlace(a, b)
    ensures InnerArea(a, b) == Extent(a) == Extent(b)
  {
    assert InnerSide(a.x1, a.x2, b.x1, b.x2) == a.x2 - a.x1;
    assert InnerSide(a.y1, a.y2, b.y1, b.y2) == a.y2 - a.y1;
  }

  method CostMatrix(a: seq<Box>, b: seq<Box>) returns (cost: array2<real>)
    ensures fresh(cost) && cost.Length0 == |a| && cost.Length1 == |b|
    ensures Snapshot(cost) == Costs(a, b)
  {
    hide Iou;
    cost := new real[|a|, |b|]((_, _) => 0.0);
    for i := 0 to |a|
      invariant forall k, j :: 0 <= k < i && 0 <= j < |b| ==> cost[k, j] == 1.0 - Iou(a[k], b[j])
    {
      for j := 0 to |b|
        invariant forall k, l :: 0 <= k < i && 0 <= l < |b| ==> cost[k, l] == 1.0 - Iou(a[k], b[l])
        invariant forall l :: 0 <= l < j ==> cost[i, l] == 1.0 - Iou(a[i], b[l])
      {
        cost[i, j] := 1.0 - Iou(a[i], b[j]);
      }
    }
    assert forall i :: 0 <= i < |a| ==> Snapshot(cost)[i] == Costs(a, b)[i];
  }

  function CostRow(x: Box, b: seq<Box>): (r: seq<real>)
    ensures |r| == |b| && forall j :: 0 <= j < |r| ==> r[j] == 1.0 - Iou(x, b[j])
  {
    seq(|b|, j requires 0 <= j < |b| => 1.0 - Iou(x, b[j]))
  }

  function Costs(a: seq<Box>, b: seq<Box>): (m: Matrix)
    ensures Rectangular(m, |a|, |b|)
    ensures forall i, j :: 0 <= i < |a| && 0 <= j < |b| ==> m[i][j] == 1.0 - Iou(a[i], b[j])
  {
    seq(|a|, i requires 0 <= i < |a| => CostRow(a[i], b))
  }

  ghost predicate Injective(m: map<nat, nat>) {
    forall x, y :: x in m && y in m && m[x] == m[y] ==> x == y
  }

  // m holds a best-first choice of the admissible pairs by cost.
  ghost predicate ChosenBy(a: seq<Box>, b: seq<Box>, m: map<nat, nat>, chosen: seq<Cand>) {
    BestFirst(Gated(Costs(a, b), GATE), chosen) && PairsOf(m, chosen) && |m| == |chosen|
  }

  // Such a matching is one-to-one, within the gate, and no admissible pair could extend it.
  ghost predicate Fitted(a: seq<Box>, b: seq<Box>, m: map<nat, nat>) {
    && (exists chosen :: ChosenBy(a, b, m, chosen))
    && Injective(m)
    && (forall i :: i in m ==> i < |a| && m[i] < |b| && 1.0 - Iou(a[i], b[m[i]]) <= GATE)
    && (forall i, j :: 0 <= i < |a| && 0 <= j < |b| && i !in m && j !in m.Values ==> 1.0 - Iou(a[i], b[j]) > GATE)
  }

  method Associate(a: seq<Box>, b: seq<Box>) returns (pairs: map<nat, nat>, orphanRows: seq<nat>)
    ensures Fitted(a, b, pairs)
    ensures |a| > 0 && |b| > 0 ==> Complement(orphanRows, |a|, pairs.Keys)
    ensures |a| == 0 || |b| == 0 ==> pairs == map[] && orphanRows == []
  {
    var cost := CostMatrix(a, b);
    ghost var m := Snapshot(cost);
    var ok, orphanCols;
    ghost var chosen, turns;
    ok, pairs, orphanRows, orphanCols, chosen, turns := FindAssociationPairs(cost, GATE);
    if !ok {
      assert Gated(m, GATE) == {} && BestFirst({}, []);
      chosen := [];
    }
    assert ChosenBy(a, b, pairs, chosen);
    if ok {
      MatchesWithinGate(m, |a|, |b|, GATE, pairs, orphanRows, orphanCols, chosen);
      forall i, j | 0 <= i < |a| && 0 <= j < |b| && i !in pairs && j !in pairs.Values
        ensures 1.0 - Iou(a[i], b[j]) > GATE
      {
        NoAdmissibleOrphans(m, |a|, |b|, GATE, pairs, orphanRows, orphanCols, chosen, i, j);
      }
    }
  }

  // For pairwise distinct admissible costs there is only one such matching.
  lemma ChosenUnique(a: seq<Box>, b: seq<Box>, m: map<nat, nat>, x: seq<Cand>, m': map<nat, nat>, y: seq<Cand>)
    requires ChosenBy(a, b, m, x) && ChosenBy(a, b, m', y)
    requires DistinctScores(Gated(Costs(a, b), GATE))
    ensures m == m'
  {
    hide DistinctScores, Gated, Costs, BestFirst, PairsOf;
    BestFirstUnique(Gated(Costs(a, b), GATE), x, y);
    SamePairs(m, m', x);
  }

  lemma SamePairs(m: map<nat, nat>, m': map<nat, nat>, chosen: seq<Cand>)
    requires PairsOf(m, chosen) && PairsOf(m', chosen)
    ensures m == m'
  {
    hide PairsOf;
    PairsFixed(m, m', chosen);
    PairsFixed(m', m, chosen);
  }

  lemma PairsFixed(m: map<nat, nat>, m': map<nat, nat>, chosen: seq<Cand>)
    requires PairsOf(m, chosen) && PairsOf(m', chosen)
    ensures forall r :: r in m ==> r in m' && m'[r] == m[r]
    ensures m.Keys <= m'.Keys
  {
    forall r | r in m ensures r in m' && m'[r] == m[r] {
      PairChosen(m, chosen, r);
      var c :| c in chosen && c.track == r && c.det == m[r];
      var i :| 0 <= i < |chosen| && chosen[i] == c;
    }
  }

  // Of any one-to-one set of admissible pairs it has at least half the size and half the total margin
  // below the gate.
  lemma ChosenHalfOptimal(a: seq<Box>, b: seq<Box>, m: map<nat, nat>, chosen: seq<Cand>, other: seq<Cand>)
    requires ChosenBy(a, b, m, chosen) && Matching(other)
    requires forall c :: c in other ==> c in Gated(Costs(a, b), GATE)
    ensures |other| <= 2 * |m| && Total(Above(other, -GATE)) <= 2.0 * Total(Above(chosen, -GATE))
  {
    HalfOptimalAbove(Gated(Costs(a, b), GATE), chosen, other, -GATE);
  }

  // ----- the persons

  function BodyRelated(s: seq<BodyInfo>): (r: seq<Box>)
    ensures |r| == |s| && forall i :: 0 <= i < |s| ==> r[i] == s[i].related
  {
    seq(|s|, i requires 0 <= i < |s| => s[i].related)
  }

  function Boxes(s: seq<BodyInfo>): (r: seq<Box>)
    ensures |r| == |s| && forall i :: 0 <= i < |s| ==> r[i] == s[i].box
  {
    seq(|s|, i requires 0 <= i < |s| => s[i].box)
  }

  function Heads(s: seq<Person>): (r: seq<Box>)
    ensures |r| == |s| && forall i :: 0 <= i < |s| ==> r[i] == s[i].head
  {
    seq(|s|, i requires 0 <= i < |s| => s[i].head)
  }

  // Person k stands for body order[k]; headOf names the matched head of a body.
  ghost predicate StandsFor(p: Person, bodies: seq<BodyInfo>, heads: seq<BodyInfo>, i: nat, headOf: map<nat, nat>) {
    && i < |bodies| && p.body == bodies[i].box
    && (p.headObserved <==> i in headOf)
    && (i in headOf ==> headOf[i] < |heads| && p.head == HeadBox(heads[headOf[i]]))
    && (i !in headOf ==> p.head == GuessedHead(bodies[i]))
  }

  ghost predicate BodiesFused(bodies: seq<BodyInfo>, heads: seq<BodyInfo>, persons: seq<Person>,
                              order: seq<nat>, headOf: map<nat, nat>)
  {
    && |order| == |persons|
    && (forall k :: 0 <= k < |persons| ==> StandsFor(persons[k], bodies, heads, order[k], headOf))
    && (forall k, l :: 0 <= k < l < |order| ==> order[k] != order[l])
  }

  // faceOf names the person of a matched face.
  ghost predicate FacesFused(faces: seq<BodyInfo>, before: seq<Person>, persons: seq<Person>, faceOf: map<nat, nat>) {
    && |persons| == |before|
    && (forall f :: f in faceOf ==> f < |faces| && faceOf[f] < |persons|)
    && (forall f :: f in faceOf ==>
          persons[faceOf[f]] == before[faceOf[f]].(faceObserved := true, face := faces[f].box))
    && (forall k :: 0 <= k < |persons| && k !in faceOf.Values ==> persons[k] == before[k])
  }

  // One person per matched body, in the unspecified order of an unordered map.
  method MatchedPersons(bodies: seq<BodyInfo>, heads: seq<BodyInfo>, pairs: map<nat, nat>)
    returns (persons: seq<Person>, ghost order: seq<nat>)
    requires forall i :: i in pairs ==> i < |bodies| && pairs[i] < |heads|
    ensures BodiesFused(bodies, heads, persons, order, pairs)
    ensures forall i: nat :: i in order <==> i in pairs
    ensures forall k :: 0 <= k < |persons| ==> !persons[k].faceObserved
  {
    persons, order := [], [];
    var left := pairs.Keys;
    while left != {}
      invariant left <= pairs.Keys
      invariant BodiesFused(bodies, heads, persons, order, pairs)
      invariant forall i: nat :: i in order <==> i in pairs && i !in left
      invariant forall k :: 0 <= k < |persons| ==> !persons[k].faceObserved
      decreases left
    {
      var i :| i in left;
      left := left - {i};
      assert i !in order;
      persons := persons + [Person(bodies[i].box, HeadBox(heads[pairs[i]]), NO_BOX, false, true)];
      order := order + [i];
    }
  }

  method UnmatchedPersons(bodies: seq<BodyInfo>, heads: seq<BodyInfo>, rows: seq<nat>, ghost pairs: map<nat, nat>)
    returns (persons: seq<Person>)
    requires forall i :: i in rows ==> i < |bodies| && i !in pairs
    requires Ascending(rows)
    ensures BodiesFused(bodies, heads, persons, rows, pairs)
    ensures forall k :: 0 <= k < |persons| ==> !persons[k].faceObserved
  {
    persons := [];
    for k := 0 to |rows|
      invariant BodiesFused(bodies, heads, persons, rows[..k], pairs)
      invariant forall k :: 0 <= k < |persons| ==> !persons[k].faceObserved
    {
      var i := rows[k];
      assert i in rows;
      persons := persons + [Person(bodies[i].box, GuessedHead(bodies[i]), NO_BOX, false, false)];
      assert rows[..k + 1] == rows[..k] + [i];
    }
    assert rows[..|rows|] == rows;
  }

  lemma FusedConcat(bodies: seq<BodyInfo>, heads: seq<BodyInfo>, p: seq<Person>, q: seq<Person>,
                    x: seq<nat>, y: seq<nat>, pairs: map<nat, nat>)
    requires BodiesFused(bodies, heads, p, x, pairs) && BodiesFused(bodies, heads, q, y, pairs)
    requires forall i :: i in x ==> i !in y
    ensures BodiesFused(bodies, heads, p + q, x + y, pairs)
  {
    forall k, l | 0 <= k < l < |x + y| ensures (x + y)[k] != (x + y)[l] {
      if k < |x| <= l {
        assert x[k] in x && y[l - |x|] in y;
      }
    }
  }

  // Marks the person of every matched face, whatever the order.
  method MarkFaces(faces: seq<BodyInfo>, before: seq<Person>, pairs: map<nat, nat>) returns (persons: seq<Person>)
    requires Injective(pairs) && forall f :: f in pairs ==> f < |faces| && pairs[f] < |before|
    ensures FacesFused(faces, before, persons, pairs)
  {
    persons := before;
    var left := pairs.Keys;
    while left != {}
      invariant left <= pairs.Keys && |persons| == |before|
      invariant forall f :: f in pairs && f !in left ==>
                  persons[pairs[f]] == before[pairs[f]].(faceObserved := true, face := faces[f].box)
      invariant forall k :: 0 <= k < |persons| && (forall f :: f in pairs && f !in left ==> pairs[f] != k) ==>
                  persons[k] == before[k]
      decreases left
    {
      var f :| f in left;
      left := left - {f};
      persons := persons[pairs[f] := persons[pairs[f]].(faceObserved := true, face := faces[f].box)];
    }
  }

  // What ComputeAssociate promises: with at least one head, one person per body, a head claimed by
  // at most one person, a face given to at most one person and at most one face each.  Without heads
  // the first association returns early with no orphans, and every body is lost.
  ghost predicate Fused(bodies: seq<BodyInfo>, heads: seq<BodyInfo>, faces: seq<BodyInfo>, persons: seq<Person>,
                        fused: seq<Person>, order: seq<nat>, headOf: map<nat, nat>, faceOf: map<nat, nat>)
  {
    && Fitted(BodyRelated(bodies), Boxes(heads), headOf)
    && BodiesFused(bodies, heads, fused, order, headOf)
    && (heads != [] ==> forall i: nat :: i in order <==> i < |bodies|)
    && (heads == [] ==> fused == [])
    && (forall k :: 0 <= k < |fused| ==> !fused[k].faceObserved)
    && Fitted(BodyRelated(faces), Heads(fused), faceOf)
    && FacesFused(faces, fused, persons, faceOf)
  }

  method ComputeAssociate(bodies: seq<BodyInfo>, heads: seq<BodyInfo>, faces: seq<BodyInfo>)
    returns (persons: seq<Person>)
    ensures exists fused, order, headOf, faceOf :: Fused(bodies, heads, faces, persons, fused, order, headOf, faceOf)
  {
    hide ChosenBy, BodiesFused, FacesFused;
    var headOf, unmatched := Associate(BodyRelated(bodies), Boxes(heads));
    var fused; ghost var order;
    fused, order := FuseBodies(bodies, heads, headOf, unmatched);
    var faceOf, _ := Associate(BodyRelated(faces), Heads(fused));
    persons := MarkFaces(faces, fused, faceOf);
    assert Fused(bodies, heads, faces, persons, fused, order, headOf, faceOf);
  }

  method FuseBodies(bodies: seq<BodyInfo>, heads: seq<BodyInfo>, headOf: map<nat, nat>, unmatched: seq<nat>)
    returns (fused: seq<Person>, ghost order: seq<nat>)
    requires forall i :: i in headOf ==> i < |bodies| && headOf[i] < |heads|
    requires bodies != [] && heads != [] ==> Complement(unmatched, |bodies|, headOf.Keys)
    requires bodies == [] || heads == [] ==> headOf == map[] && unmatched == []
    ensures BodiesFused(bodies, heads, fused, order, headOf)
    ensures heads != [] ==> forall i: nat :: i in order <==> i < |bodies|
    ensures heads == [] ==> fused == []
    ensures forall k :: 0 <= k < |fused| ==> !fused[k].faceObserved
  {
    var matched;
    matched, order := MatchedPersons(bodies, heads, headOf);
    var rest := UnmatchedPersons(bodies, heads, unmatched, headOf);
    FusedConcat(bodies, heads, matched, rest, order, unmatched, headOf);
    fused, order := matched + rest, order + unmatched;
    assert |order| > 0 ==> order[0] in order;
  }

  // One person per body exactly when there is a head to look at or no body to lose.
  lemma OnePersonPerBodyIff(bodies: seq<BodyInfo>, heads: seq<BodyInfo>, faces: seq<BodyInfo>, persons: seq<Person>,
                            fused: seq<Person>, order: seq<nat>, headOf: map<nat, nat>, faceOf: map<nat, nat>)
    requires Fused(bodies, heads, faces, persons, fused, order, headOf, faceOf)
    ensures |persons| == |bodies| <==> heads != [] || bodies == []
    ensures heads != [] ==> forall i: nat :: i in order <==> i < |bodies|
    ensures forall k, l :: 0 <= k < l < |persons| ==> order[k] != order[l]
    ensures forall k :: 0 <= k < |persons| ==> order[k] < |bodies| && persons[k].body == bodies[order[k]].box
  {
    assert forall k :: 0 <= k < |persons| ==> persons[k].body == fused[k].body;
    if heads != [] {
      Permutes(order, |bodies|);
    }
  }

  lemma {:induction false} Permutes(s: seq<nat>, n: nat)
    requires forall i, j :: 0 <= i < j < |s| ==> s[i] != s[j]
    requires forall i: nat :: i in s <==> i < n
    ensures |s| == n
    decreases n
  {
    if s == [] {
      assert 0 !in s;
    } else {
      assert s[0] in s;
      assert n - 1 in s;
      var k :| 0 <= k < |s| && s[k] == n - 1;
      var r := s[..k] + s[k + 1..];
      assert forall i :: 0 <= i < |r| ==> r[i] == s[if i < k then i else i + 1];
      forall i: nat | i < n - 1 ensures i in r {
        assert i in s;
        var j :| 0 <= j < |s| && s[j] == i;
        assert r[if j < k then j else j - 1] == i;
      }
      forall i: nat | i in r ensures i < n - 1 {
        var j :| 0 <= j < |r| && r[j] == i;
        var j' := if j < k then j else j + 1;
        assert s[j'] == i && j' != k;
        assert i in s;
      }
      Permutes(r, n - 1);
    }
  }

  // Matched heads and faces are shared by no two persons.
  lemma HeadsAndFacesOnce(bodies: seq<BodyInfo>, heads: seq<BodyInfo>, faces: seq<BodyInfo>, persons: seq<Person>,
                          fused: seq<Person>, order: seq<nat>, headOf: map<nat, nat>, faceOf: map<nat, nat>,
                          k: nat, l: nat)
    requires Fused(bodies, heads, faces, persons, fused, order, headOf, faceOf)
    requires k < |persons| && l < |persons| && k != l
    ensures persons[k].headObserved && persons[l].headObserved ==>
              order[k] in headOf && order[l] in headOf && headOf[order[k]] != headOf[order[l]]
    ensures persons[k].headObserved ==> persons[k].head == HeadBox(heads[headOf[order[k]]])
    ensures persons[k].faceObserved <==> k in faceOf.Values
    ensures forall f, g :: f in faceOf && g in faceOf && faceOf[f] == faceOf[g] == k ==> f == g
  {
    assert order[k] != order[l];
    if k in faceOf.Values {
      var f :| f in faceOf && faceOf[f] == k;
    }
  }

  // ----- what the matches have in common

  // Enough in common to be matched: a sixth of the two areas together, of boxes that cover something.
  predicate EnoughShared(a: Box, b: Box) { !Negligible(a, b) && 6.0 * InnerArea(a, b) >= Extent(a) + Extent(b) }

  lemma EnoughSharedIff(a: Box, b: Box)
    requires WellFormed(a) && WellFormed(b)
    ensures 1.0 - Iou(a, b) <= GATE <==> EnoughShared(a, b)
    ensures EnoughShared(a, b) ==> ShareInterior(a, b)
    ensures SamePlace(a, b) && Extent(a) > 0.00000011920929 ==> EnoughShared(a, b)
  {
    IouMeans(a, b);
    hide Iou, InnerArea, Extent, Negligible, ShareInterior;
  }

  // Matched pairs have enough in common, and no two boxes left over do.
  lemma FittedShares(a: seq<Box>, b: seq<Box>, m: map<nat, nat>, i: nat, j: nat)
    requires Fitted(a, b, m) && i < |a| && j < |b| && WellFormed(a[i]) && WellFormed(b[j])
    ensures i in m && m[i] == j ==> EnoughShared(a[i], b[j]) && ShareInterior(a[i], b[j])
    ensures i !in m && j !in m.Values ==>
              !EnoughShared(a[i], b[j]) && !(SamePlace(a[i], b[j]) && Extent(a[i]) > 0.00000011920929)
  {
    hide Iou, EnoughShared, ShareInterior, SamePlace, Extent, ChosenBy;
    EnoughSharedIff(a[i], b[j]);
  }

  // What ComputeAssociate promises about places: a matched head lies where the detector put it and meets the
  // box in which its body expects a head; bodies and heads left over do not; and a face meets the head of its
  // person.
  lemma PlacesAgree(bodies: seq<BodyInfo>, heads: seq<BodyInfo>, faces: seq<BodyInfo>, persons: seq<Person>,
                    fused: seq<Person>, order: seq<nat>, headOf: map<nat, nat>, faceOf: map<nat, nat>)
    requires Fused(bodies, heads, faces, persons, fused, order, headOf, faceOf)
    requires forall b :: b in bodies || b in faces ==> WellFormed(b.related)
    requires forall b :: b in heads ==> WellFormed(b.box)
    ensures forall k :: 0 <= k < |persons| && persons[k].headObserved ==>
              && order[k] in headOf && order[k] < |bodies| && headOf[order[k]] < |heads|
              && SamePlace(persons[k].head, heads[headOf[order[k]]].box)
              && persons[k].head.conf == heads[headOf[order[k]]].related.conf
              && ShareInterior(bodies[order[k]].related, persons[k].head)
              && EnoughShared(bodies[order[k]].related, persons[k].head)
    ensures forall i, j :: 0 <= i < |bodies| && 0 <= j < |heads| && i !in headOf && j !in headOf.Values ==>
              && !EnoughShared(bodies[i].related, heads[j].box)
              && !(SamePlace(bodies[i].related, heads[j].box) && Extent(heads[j].box) > 0.00000011920929)
    ensures forall k :: 0 <= k < |persons| && persons[k].faceObserved && WellFormed(persons[k].head) ==>
              exists f :: 0 <= f < |faces| && persons[k].face == faces[f].box &&
                          ShareInterior(faces[f].related, persons[k].head)
  {
    hide EnoughShared, ShareInterior, Extent, Fitted, WellFormed, GuessedHead;
    forall k | 0 <= k < |persons| && persons[k].headObserved
      ensures && order[k] in headOf && order[k] < |bodies| && headOf[order[k]] < |heads|
              && SamePlace(persons[k].head, heads[headOf[order[k]]].box)
              && persons[k].head.conf == heads[headOf[order[k]]].related.conf
              && ShareInterior(bodies[order[k]].related, persons[k].head)
              && EnoughShared(bodies[order[k]].related, persons[k].head)
    {
      HeadPlace(bodies, heads, persons, fused, order, headOf, faces, faceOf, k);
    }
    forall i, j | 0 <= i < |bodies| && 0 <= j < |heads| && i !in headOf && j !in headOf.Values
      ensures && !EnoughShared(bodies[i].related, heads[j].box)
              && !(SamePlace(bodies[i].related, heads[j].box) && Extent(heads[j].box) > 0.00000011920929)
    {
      assert bodies[i] in bodies && heads[j] in heads;
      FittedShares(BodyRelated(bodies), Boxes(heads), headOf, i, j);
      if SamePlace(bodies[i].related, heads[j].box) { SameExtent(bodies[i].related, heads[j].box); }
    }
    forall k | 0 <= k < |persons| && persons[k].faceObserved && WellFormed(persons[k].head)
      ensures exists f :: 0 <= f < |faces| && persons[k].face == faces[f].box &&
                          ShareInterior(faces[f].related, persons[k].head)
    {
      assert k in faceOf.Values;
      var f :| f in faceOf && faceOf[f] == k;
      assert faces[f] in faces;
      FittedShares(BodyRelated(faces), Heads(fused), faceOf, f, k);
    }
  }

  lemma SameExtent(a: Box, b: Box)
    requires SamePlace(a, b)
    ensures Extent(a) == Extent(b)
  {
  }

  lemma HeadPlace(bodies: seq<BodyInfo>, heads: seq<BodyInfo>, persons: seq<Person>, fused: seq<Person>,
                  order: seq<nat>, headOf: map<nat, nat>, faces: seq<BodyInfo>, faceOf: map<nat, nat>, k: nat)
    requires Fused(bodies, heads, faces, persons, fused, order, headOf, faceOf)
    requires forall b :: b in bodies ==> WellFormed(b.related)
    requires forall b :: b in heads ==> WellFormed(b.box)
    requires k < |persons| && persons[k].headObserved
    ensures order[k] in headOf && order[k] < |bodies| && headOf[order[k]] < |heads|
    ensures SamePlace(persons[k].head, heads[headOf[order[k]]].box)
    ensures persons[k].head.conf == heads[headOf[order[k]]].related.conf
    ensures ShareInterior(bodies[order[k]].related, persons[k].head)
    ensures EnoughShared(bodies[order[k]].related, persons[k].head)
  {
    hide Fitted, WellFormed, GuessedHead;
    assert StandsFor(fused[k], bodies, heads, order[k], headOf);
    assert persons[k].head == fused[k].head && persons[k].headObserved == fused[k].headObserved;
    var i, j := order[k], headOf[order[k]];
    assert bodies[i] in bodies && heads[j] in heads;
    FittedShares(BodyRelated(bodies), Boxes(heads), headOf, i, j);
    SameShares(bodies[i].related, heads[j].box, persons[k].head);
  }

  // The measures look at coordinates only.
  lemma SameShares(a: Box, b: Box, b': Box)
    requires SamePlace(b, b') && ShareInterior(a, b) && EnoughShared(a, b)
    ensures ShareInterior(a, b') && EnoughShared(a, b')
  {
    var x, y :| InteriorOf(a, x, y) && InteriorOf(b, x, y);
    assert InteriorOf(b', x, y);
    SameExtent(b, b');
    SameInner(a, b, b');
    hide InnerArea, Extent;
  }

  lemma SameInner(a: Box, b: Box, b': Box)
    requires SamePlace(b, b')
    ensures InnerArea(a, b) == InnerArea(a, b')
  {
    hide InnerSide;
  }

  // A guessed head keeps the related box when that is at least two pixels wide and high; otherwise it is the
  // upper third of the body.
  lemma GuessedHeadMeans(body: BodyInfo)
    requires WellFormed(body.box)
    ensures var g, r, b := GuessedHead(body), body.related, body.box;
            if r.x2 >= r.x1 + 2.0 && r.y2 >= r.y1 + 2.0 then g == r
            else
              && g.x1 == b.x1 && g.x2 == b.x2 && g.y1 == b.y1 <= g.y2 <= b.y2
              && 3.0 * (g.y2 - g.y1) == b.y2 - b.y1 && g.conf == r.conf
  {
  }
}
