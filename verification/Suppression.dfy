/**
 Non-maximum suppression and score filtering of src/pipeline/decorator_stage/yolo_decorator_stage.cc.
 Coordinates and confidences are reals.
 */
module Suppression {
  import opened Greedy
  import opened Sequences

  datatype Box = Box(x1: real, y1: real, x2: real, y2: real, conf: real)

  datatype BodyInfo = BodyInfo(box: Box, related: Box, attrs: seq<(int, real)>)

  const IOU_THRESHOLD := 0.5
  const BOX_THRESHOLD := 0.3

  function Conf(b: BodyInfo): real { b.box.conf }

  function Min(a: real, b: real): real { if b < a then b else a }

  function Max(a: real, b: real): real { if a < b then b else a }

  // Pixel areas count both border lines.
  function Span(lo: real, hi: real): real { hi - lo + 1.0 }

  function Area(b: Box): real { Span(b.x1, b.x2) * Span(b.y1, b.y2) }

  function Width(a: Box, b: Box): real { Span(Max(a.x1, b.x1), Min(a.x2, b.x2)) }

  function Height(a: Box, b: Box): real { Span(Max(a.y1, b.y1), Min(a.y2, b.y2)) }

  function Union(a: Box, b: Box): real { Area(a) + Area(b) - Width(a, b) * Height(a, b) }

  // The suppression test.  A zero union divides a positive intersection by zero, which is infinite
  // in floating point and so above the threshold.
  predicate Overlaps(p: BodyInfo, q: BodyInfo) {
    var a, b := p.box, q.box;
    var w, h := Width(a, b), Height(a, b);
    w > 0.0 && h > 0.0 && (Union(a, b) == 0.0 || w * h / Union(a, b) > IOU_THRESHOLD)
  }

  predicate WellFormed(b: Box) { b.x1 <= b.x2 && b.y1 <= b.y2 }

  lemma NonNegative(x: real, y: real)
    requires x >= 0.0 && y >= 0.0
    ensures x * y >= 0.0
  {
  }

  lemma ProductMonotone(w: real, h: real, w': real, h': real)
    requires 0.0 <= w <= w' && 0.0 <= h <= h'
    ensures w * h <= w' * h'
  {
    NonNegative(w' - w, h);
    NonNegative(w', h' - h);
    assert w' * h' == w * h + (w' - w) * h + w' * (h' - h);
  }

  lemma AreaAtLeastOne(b: Box)
    requires WellFormed(b)
    ensures Area(b) >= 1.0
  {
    ProductAtLeastOne(Span(b.x1, b.x2), Span(b.y1, b.y2));
  }

  lemma ProductAtLeastOne(w: real, h: real)
    requires w >= 1.0 && h >= 1.0
    ensures w * h >= 1.0
  {
    NonNegative(w - 1.0, h - 1.0);
    assert (w - 1.0) * (h - 1.0) == w * h - w - h + 1.0;
  }

  lemma IntersectionWithin(a: Box, b: Box)
    requires WellFormed(a) && Width(a, b) > 0.0 && Height(a, b) > 0.0
    ensures Width(a, b) * Height(a, b) <= Area(a)
  {
    ProductMonotone(Width(a, b), Height(a, b), Span(a.x1, a.x2), Span(a.y1, a.y2));
  }

  // Boxes the right way round are never divided by zero.
  lemma UnionPositive(a: Box, b: Box)
    requires WellFormed(a) && WellFormed(b) && Width(a, b) > 0.0 && Height(a, b) > 0.0
    ensures Union(a, b) >= 1.0
  {
    AreaAtLeastOne(b);
    IntersectionWithin(a, b);
    UnionFromParts(Area(a), Area(b), Width(a, b) * Height(a, b));
  }

  lemma UnionFromParts(a: real, b: real, common: real)
    requires b >= 1.0 && common <= a
    ensures a + b - common >= 1.0
  {
  }

  lemma OverlapsSymmetric(p: BodyInfo, q: BodyInfo)
    ensures Overlaps(p, q) == Overlaps(q, p)
  {
    SidesSymmetric(p.box, q.box);
    hide Width, Height, Area;
    var common := Width(p.box, q.box) * Height(p.box, q.box);
    assert Union(p.box, q.box) == Area(p.box) + Area(q.box) - common;
    assert Union(q.box, p.box) == Area(q.box) + Area(p.box) - common;
    hide Union;
  }

  lemma SidesSymmetric(a: Box, b: Box)
    ensures Width(a, b) == Width(b, a) && Height(a, b) == Height(b, a)
  {
  }

  // ----- what the test measures

  // The length two sides have in common, border lines included.
  function CommonSide(lo: real, hi: real, lo': real, hi': real): real {
    var left, right := if lo < lo' then lo' else lo, if hi < hi' then hi else hi';
    if right + 1.0 <= left then 0.0 else right - left + 1.0
  }

  function CommonArea(a: Box, b: Box): real {
    CommonSide(a.x1, a.x2, b.x1, b.x2) * CommonSide(a.y1, a.y2, b.y1, b.y2)
  }

  // More than half of what the two cover together is common to both.
  predicate MostlyShared(a: Box, b: Box) {
    3.0 * CommonArea(a, b) > (a.x2 - a.x1 + 1.0) * (a.y2 - a.y1 + 1.0) + (b.x2 - b.x1 + 1.0) * (b.y2 - b.y1 + 1.0)
  }

  predicate SamePlace(a: Box, b: Box) { a.x1 == b.x1 && a.y1 == b.y1 && a.x2 == b.x2 && a.y2 == b.y2 }

  predicate NoCommonPixel(a: Box, b: Box) {
    a.x2 + 1.0 <= b.x1 || b.x2 + 1.0 <= a.x1 || a.y2 + 1.0 <= b.y1 || b.y2 + 1.0 <= a.y1
  }

  lemma OverlapsIff(p: BodyInfo, q: BodyInfo)
    requires WellFormed(p.box) && WellFormed(q.box)
    ensures Overlaps(p, q) <==> MostlyShared(p.box, q.box)
  {
    hide Width, Height, Union, Area, CommonArea, MostlyShared;
    var a, b := p.box, q.box;
    MostlySharedIs(a, b);
    if Width(a, b) > 0.0 && Height(a, b) > 0.0 {
      UnionPositive(a, b);
      SharedSides(a, b);
      OverlapTest(p, q);
    } else {
      AreaAtLeastOne(a);
      AreaAtLeastOne(b);
      NothingShared(a, b);
    }
  }

  // The test on boxes that have a common part.
  lemma OverlapTest(p: BodyInfo, q: BodyInfo)
    requires Width(p.box, q.box) > 0.0 && Height(p.box, q.box) > 0.0 && Union(p.box, q.box) > 0.0
    ensures Overlaps(p, q) <==>
            3.0 * (Width(p.box, q.box) * Height(p.box, q.box)) > Area(p.box) + Area(q.box)
  {
    hide Width, Height, Area;
    MoreThanHalf(Width(p.box, q.box) * Height(p.box, q.box), Union(p.box, q.box));
  }

  lemma MostlySharedIs(a: Box, b: Box)
    ensures MostlyShared(a, b) <==> 3.0 * CommonArea(a, b) > Area(a) + Area(b)
  {
    hide CommonArea;
    assert (a.x2 - a.x1 + 1.0) * (a.y2 - a.y1 + 1.0) == Area(a);
    assert (b.x2 - b.x1 + 1.0) * (b.y2 - b.y1 + 1.0) == Area(b);
  }

  lemma SharedSides(a: Box, b: Box)
    requires Width(a, b) > 0.0 && Height(a, b) > 0.0
    ensures CommonArea(a, b) == Width(a, b) * Height(a, b)
  {
    assert CommonSide(a.x1, a.x2, b.x1, b.x2) == Width(a, b);
    assert CommonSide(a.y1, a.y2, b.y1, b.y2) == Height(a, b);
  }

  lemma NothingShared(a: Box, b: Box)
    requires Width(a, b) <= 0.0 || Height(a, b) <= 0.0
    ensures CommonArea(a, b) == 0.0
  {
    assert CommonSide(a.x1, a.x2, b.x1, b.x2) == 0.0 || CommonSide(a.y1, a.y2, b.y1, b.y2) == 0.0;
  }

  lemma MoreThanHalf(n: real, d: real)
    requires d > 0.0
    ensures n / d > 0.5 <==> 2.0 * n > d
  {
    var r := n / d;
    assert r * d == n;
    if r > 0.5 { assert (r - 0.5) * d > 0.0; } else { NonNegative(0.5 - r, d); }
    assert (r - 0.5) * d == r * d - 0.5 * d;
  }

  // Boxes in the same place overlap, boxes without a common pixel do not.
  lemma OverlapsAtEnds(p: BodyInfo, q: BodyInfo)
    requires WellFormed(p.box) && WellFormed(q.box)
    ensures SamePlace(p.box, q.box) ==> Overlaps(p, q)
    ensures NoCommonPixel(p.box, q.box) ==> !Overlaps(p, q)
  {
    if SamePlace(p.box, q.box) {
      OverlapsIff(p, q);
      AreaAtLeastOne(p.box);
    }
  }

  ghost predicate AllWellFormed(s: seq<BodyInfo>) { forall b :: b in s ==> WellFormed(b.box) }

  // In terms of coordinates and confidences: the best come first; no two kept boxes share most of their
  // area, in particular none are in the same place; a box that is not kept shares most with a kept one of at
  // least its confidence; and a box that has no pixel in common with any other is kept.
  ghost predicate Separated(boxes: seq<BodyInfo>, kept: seq<BodyInfo>) {
    && (forall i, j :: 0 <= i < |kept| && 0 <= j < |kept| && i != j ==>
          !MostlyShared(kept[i].box, kept[j].box) && !SamePlace(kept[i].box, kept[j].box))
    && (forall i, j :: 0 <= i < j < |kept| ==> kept[i].box.conf >= kept[j].box.conf)
    && (forall b :: b in boxes ==>
          b in kept || exists k :: k in kept && MostlyShared(k.box, b.box) && k.box.conf >= b.box.conf)
    && (forall b :: b in boxes && (forall o :: o in boxes && o != b ==> NoCommonPixel(o.box, b.box)) ==> b in kept)
  }

  lemma SuppressedSeparates(boxes: seq<BodyInfo>, kept: seq<BodyInfo>)
    requires AllWellFormed(boxes) && Suppressed(boxes, kept)
    ensures Separated(boxes, kept)
  {
    hide Overlaps, MostlyShared, SamePlace, NoCommonPixel, WellFormed;
    forall i, j | 0 <= i < j < |kept| ensures kept[i].box.conf >= kept[j].box.conf {
      assert Conf(kept[i]) >= Conf(kept[j]);
    }
    forall b | b in kept ensures b in boxes { assert b in multiset(kept) && b in multiset(boxes); }
    forall i, j | 0 <= i < |kept| && 0 <= j < |kept| && i != j
      ensures !MostlyShared(kept[i].box, kept[j].box) && !SamePlace(kept[i].box, kept[j].box)
    {
      assert kept[i] in boxes && kept[j] in boxes;
      OverlapsIff(kept[i], kept[j]);
      OverlapsAtEnds(kept[i], kept[j]);
    }
    forall b | b in boxes && b !in kept
      ensures exists k :: k in kept && MostlyShared(k.box, b.box) && k.box.conf >= b.box.conf
      ensures exists o :: o in boxes && o != b && !NoCommonPixel(o.box, b.box)
    {
      var k :| k in kept && Overlaps(k, b) && Conf(k) >= Conf(b);
      OverlapsIff(k, b);
      OverlapsAtEnds(k, b);
    }
  }

  // The output, appended to what was there, is the recursive selection from some confidence order of
  // the input.
  method NMSProcess(boxes: seq<BodyInfo>, before: seq<BodyInfo>) returns (kept: seq<BodyInfo>)
    ensures exists sorted :: SortOf(sorted, boxes, Conf) && kept == before + Pick(sorted, Overlaps)
    ensures before <= kept && (AllWellFormed(boxes) ==> Separated(boxes, kept[|before|..]))
  {
    hide Separated;
    var sorted := SortDescending(boxes, Conf);
    var selected := SelectUnmasked(sorted, Overlaps);
    kept := before + selected;
    SuppressionResult(boxes, sorted);
    if AllWellFormed(boxes) { SuppressedSeparates(boxes, selected); }
    assert kept[|before|..] == selected;
  }

  // The cursor loop of NMSProcess: skip masked boxes, keep the next one, mask what it overlaps.
  method SelectUnmasked(sorted: seq<BodyInfo>, overlaps: (BodyInfo, BodyInfo) -> bool) returns (kept: seq<BodyInfo>)
    ensures kept == Pick(sorted, overlaps)
  {
    hide Scan, Pick, Clashes;
    kept := [];
    var selectIdx, numBox := 0, |sorted|;
    var maskMerged := new bool[numBox](_ => false);
    var allMerged := false;
    StartSelecting(maskMerged, sorted, overlaps);
    while !allMerged
      invariant 0 <= selectIdx <= numBox == |sorted| == maskMerged.Length
      invariant Selecting(maskMerged, sorted, selectIdx, kept, overlaps)
      invariant allMerged ==> selectIdx == numBox
      decreases !allMerged, numBox - selectIdx
    {
      while selectIdx < numBox && maskMerged[selectIdx]
        invariant 0 <= selectIdx <= numBox
        invariant Selecting(maskMerged, sorted, selectIdx, kept, overlaps)
      {
        SkipMasked(maskMerged, sorted, selectIdx, kept, overlaps);
        selectIdx := selectIdx + 1;
      }
      if selectIdx == numBox {
        allMerged := true;
      } else {
        TakeUnmasked(maskMerged, sorted, selectIdx, kept, overlaps);
        ghost var was := kept;
        kept := kept + [sorted[selectIdx]];
        maskMerged[selectIdx] := true;
        selectIdx := selectIdx + 1;
        MaskOverlapping(maskMerged, sorted, selectIdx, was, overlaps);
      }
    }
    assert sorted[..numBox] == sorted;
    ScanIsPick(sorted, overlaps);
  }

  // Up to the cursor the kept boxes are what a scan keeps; after it the mask is up to date.
  ghost predicate Selecting(mask: array<bool>, sorted: seq<BodyInfo>, selectIdx: nat, kept: seq<BodyInfo>,
                            overlaps: (BodyInfo, BodyInfo) -> bool)
    requires mask.Length == |sorted| && selectIdx <= |sorted|
    reads mask
  {
    kept == Scan(sorted[..selectIdx], overlaps) && Masked(mask, sorted, selectIdx, kept, overlaps)
  }

  lemma StartSelecting(mask: array<bool>, sorted: seq<BodyInfo>, overlaps: (BodyInfo, BodyInfo) -> bool)
    requires mask.Length == |sorted| && forall k :: 0 <= k < mask.Length ==> !mask[k]
    ensures Selecting(mask, sorted, 0, [], overlaps)
  {
  }

  lemma SkipMasked(mask: array<bool>, sorted: seq<BodyInfo>, selectIdx: nat, kept: seq<BodyInfo>,
                   overlaps: (BodyInfo, BodyInfo) -> bool)
    requires mask.Length == |sorted| && selectIdx < |sorted| && mask[selectIdx]
    requires Selecting(mask, sorted, selectIdx, kept, overlaps)
    ensures Selecting(mask, sorted, selectIdx + 1, kept, overlaps)
  {
    ScanNext(sorted, selectIdx, overlaps);
  }

  lemma TakeUnmasked(mask: array<bool>, sorted: seq<BodyInfo>, selectIdx: nat, kept: seq<BodyInfo>,
                     overlaps: (BodyInfo, BodyInfo) -> bool)
    requires mask.Length == |sorted| && selectIdx < |sorted| && !mask[selectIdx]
    requires Selecting(mask, sorted, selectIdx, kept, overlaps)
    ensures kept + [sorted[selectIdx]] == Scan(sorted[..selectIdx + 1], overlaps)
    ensures Masked(mask, sorted, selectIdx + 1, kept, overlaps)
  {
    ScanNext(sorted, selectIdx, overlaps);
  }

  // The inner loop of NMSProcess: mask the later boxes that the newly kept one overlaps.
  method MaskOverlapping(maskMerged: array<bool>, sorted: seq<BodyInfo>, selectIdx: nat, ghost was: seq<BodyInfo>,
                         overlaps: (BodyInfo, BodyInfo) -> bool)
    requires 0 < selectIdx <= |sorted| == maskMerged.Length
    requires Masked(maskMerged, sorted, selectIdx, was, overlaps)
    modifies maskMerged
    ensures Masked(maskMerged, sorted, selectIdx, was + [sorted[selectIdx - 1]], overlaps)
  {
    ghost var kept := was + [sorted[selectIdx - 1]];
    for i := selectIdx to maskMerged.Length
      invariant forall k :: selectIdx <= k < i ==> (maskMerged[k] <==> Clashes(kept, sorted[k], overlaps))
      invariant forall k :: i <= k < maskMerged.Length ==> (maskMerged[k] <==> Clashes(was, sorted[k], overlaps))
    {
      ClashesNext(was, sorted[selectIdx - 1], sorted[i], overlaps);
      if !maskMerged[i] && overlaps(sorted[selectIdx - 1], sorted[i]) {
        maskMerged[i] := true;
      }
    }
  }

  // From selectIdx on, exactly the boxes overlapping a kept one are masked.
  ghost predicate Masked(mask: array<bool>, sorted: seq<BodyInfo>, selectIdx: nat, kept: seq<BodyInfo>,
                         overlaps: (BodyInfo, BodyInfo) -> bool)
    requires mask.Length == |sorted|
    reads mask
  {
    forall k :: selectIdx <= k < |sorted| ==> (mask[k] <==> Clashes(kept, sorted[k], overlaps))
  }

  lemma ScanNext(s: seq<BodyInfo>, n: nat, overlaps: (BodyInfo, BodyInfo) -> bool)
    requires n < |s|
    ensures var r := Scan(s[..n], overlaps);
            Scan(s[..n + 1], overlaps) == if Clashes(r, s[n], overlaps) then r else r + [s[n]]
  {
    assert s[..n + 1][..n] == s[..n];
  }

  lemma ClashesNext(was: seq<BodyInfo>, x: BodyInfo, y: BodyInfo, overlaps: (BodyInfo, BodyInfo) -> bool)
    ensures Clashes(was + [x], y, overlaps) <==> Clashes(was, y, overlaps) || overlaps(x, y)
  {
    assert (was + [x])[|was|] == x;
    if Clashes(was, y, overlaps) {
      var k :| 0 <= k < |was| && overlaps(was[k], y);
      assert (was + [x])[k] == was[k];
    }
  }

  // ----- what suppression guarantees

  // Kept boxes come in descending confidence and no two overlap above the threshold, in either
  // order; every input box is kept or overlaps a kept box of at least its confidence; and the first
  // kept box is a most confident one.
  ghost predicate Suppressed(boxes: seq<BodyInfo>, kept: seq<BodyInfo>) {
    && Descending(kept, Conf) && Scattered(kept)
    && multiset(kept) <= multiset(boxes)
    && Covers(kept, boxes, Overlaps, Conf)
    && (boxes != [] ==> kept != [] && forall b :: b in boxes ==> Conf(b) <= Conf(kept[0]))
  }

  // No two positions of s overlap: a property of the multiset, not of the order.
  ghost predicate Scattered(s: seq<BodyInfo>) {
    forall i, j :: 0 <= i < |s| && 0 <= j < |s| && i != j ==> !Overlaps(s[i], s[j])
  }

  lemma SuppressionResult(boxes: seq<BodyInfo>, sorted: seq<BodyInfo>)
    requires SortOf(sorted, boxes, Conf)
    ensures Suppressed(boxes, Pick(sorted, Overlaps))
  {
    hide Pick, Overlaps, Scattered, Covers;
    PickDescends(sorted, Overlaps, Conf);
    PickWithin(sorted, Overlaps);
    KeptScattered(sorted);
    KeptCovers(boxes, sorted);
    if boxes != [] { FirstKept(boxes, sorted); }
  }

  lemma KeptScattered(sorted: seq<BodyInfo>)
    ensures Scattered(Pick(sorted, Overlaps))
  {
    hide Pick, Overlaps;
    var kept := Pick(sorted, Overlaps);
    PickIndependent(sorted, Overlaps);
    forall i, j | 0 <= i < |kept| && 0 <= j < |kept| && i != j ensures !Overlaps(kept[i], kept[j]) {
      OverlapsSymmetric(kept[i], kept[j]);
    }
  }

  lemma KeptCovers(boxes: seq<BodyInfo>, sorted: seq<BodyInfo>)
    requires SortOf(sorted, boxes, Conf)
    ensures Covers(Pick(sorted, Overlaps), boxes, Overlaps, Conf)
  {
    hide Pick, Overlaps;
    var kept := Pick(sorted, Overlaps);
    forall b | b in boxes
      ensures b in kept || exists k :: k in kept && Overlaps(k, b) && Conf(k) >= Conf(b)
    {
      assert b in multiset(boxes);
      PickCovers(sorted, b, Overlaps, Conf);
    }
  }

  lemma FirstKept(boxes: seq<BodyInfo>, sorted: seq<BodyInfo>)
    requires SortOf(sorted, boxes, Conf) && boxes != []
    ensures var kept := Pick(sorted, Overlaps); kept != [] && forall b :: b in boxes ==> Conf(b) <= Conf(kept[0])
  {
    hide Overlaps;
    assert boxes[0] in multiset(boxes);
    forall b | b in boxes ensures Conf(b) <= Conf(sorted[0]) {
      assert b in multiset(sorted);
      var i :| 0 <= i < |sorted| && sorted[i] == b;
      assert i == 0 || Conf(sorted[0]) >= Conf(sorted[i]);
    }
  }

  ghost predicate DistinctConf(boxes: seq<BodyInfo>) {
    forall i, j :: 0 <= i < j < |boxes| ==> Conf(boxes[i]) != Conf(boxes[j])
  }

  // Without equal confidences these properties leave a single result ...
  lemma SuppressedIff(boxes: seq<BodyInfo>, sorted: seq<BodyInfo>, kept: seq<BodyInfo>)
    requires DistinctConf(boxes) && SortOf(sorted, boxes, Conf)
    ensures Suppressed(boxes, kept) <==> kept == Pick(sorted, Overlaps)
  {
    hide Overlaps, Pick;
    SuppressionResult(boxes, sorted);
    if Suppressed(boxes, kept) {
      StrictlyWithin(boxes, sorted);
      StrictlyWithin(boxes, kept);
      forall b | b in kept ensures b in sorted { assert b in multiset(kept) && b in multiset(boxes); }
      forall b | b in sorted ensures b in boxes { assert b in multiset(sorted); }
      PickUnique(sorted, kept, Overlaps, Conf);
    }
  }

  // ... which does not depend on the order in which the boxes come.
  lemma InputOrderIrrelevant(boxes: seq<BodyInfo>, others: seq<BodyInfo>,
                             sorted: seq<BodyInfo>, resorted: seq<BodyInfo>)
    requires DistinctConf(boxes) && multiset(boxes) == multiset(others)
    requires SortOf(sorted, boxes, Conf) && SortOf(resorted, others, Conf)
    ensures Pick(sorted, Overlaps) == Pick(resorted, Overlaps)
  {
    SuppressionResult(boxes, resorted);
    SuppressedIff(boxes, sorted, Pick(resorted, Overlaps));
  }

  lemma StrictlyWithin(boxes: seq<BodyInfo>, s: seq<BodyInfo>)
    requires DistinctConf(boxes) && multiset(s) <= multiset(boxes) && Descending(s, Conf)
    ensures StrictlyDescending(s, Conf)
  {
    forall i, j | 0 <= i < j < |s| ensures Conf(s[i]) > Conf(s[j]) {
      TwoPlaces(boxes, s, i, j);
    }
  }

  // Suppressing the output again keeps it whole, however its ties are sorted.
  lemma Idempotent(sorted: seq<BodyInfo>, resorted: seq<BodyInfo>)
    requires Descending(sorted, Conf) && SortOf(resorted, Pick(sorted, Overlaps), Conf)
    ensures Pick(resorted, Overlaps) == resorted
  {
    KeptScattered(sorted);
    ShuffleIndependent(Pick(sorted, Overlaps), resorted);
    PickWhole(resorted, Overlaps);
  }

  lemma ShuffleIndependent(s: seq<BodyInfo>, r: seq<BodyInfo>)
    requires Scattered(s) && multiset(s) == multiset(r)
    ensures Scattered(r)
  {
    forall i, j | 0 <= i < |r| && 0 <= j < |r| && i != j ensures !Overlaps(r[i], r[j]) {
      TwoPlaces(s, r, i, j);
    }
  }

  // Two positions of r are two positions of any list that has all of it.
  lemma TwoPlaces(s: seq<BodyInfo>, r: seq<BodyInfo>, i: nat, j: nat)
    requires multiset(r) <= multiset(s) && i < |r| && j < |r| && i != j
    ensures exists k, l :: 0 <= k < |s| && 0 <= l < |s| && k != l && s[k] == r[i] && s[l] == r[j]
  {
    assert r[i] in multiset(r);
    var k :| 0 <= k < |s| && s[k] == r[i];
    ElsewhereIn(r, i, j);
    var l := Elsewhere(s, k, r[j]);
  }

  lemma ElsewhereIn(r: seq<BodyInfo>, i: nat, j: nat)
    requires i < |r| && j < |r| && i != j
    ensures r[j] in multiset(r) - multiset{r[i]}
  {
    Removed(r, i);
    var rest := r[..i] + r[i + 1..];
    assert rest[if j < i then j else j - 1] == r[j];
    assert r[j] in multiset(rest);
  }

  lemma Elsewhere(s: seq<BodyInfo>, k: nat, x: BodyInfo) returns (l: nat)
    requires k < |s| && x in multiset(s) - multiset{s[k]}
    ensures l < |s| && l != k && s[l] == x
  {
    Removed(s, k);
    var rest := s[..k] + s[k + 1..];
    assert x in multiset(rest);
    l :| 0 <= l < |rest| && rest[l] == x;
    l := if l < k then l else l + 1;
  }

  lemma Removed(s: seq<BodyInfo>, k: nat)
    requires k < |s|
    ensures multiset(s[..k] + s[k + 1..]) == multiset(s) - multiset{s[k]}
  {
    assert s == s[..k] + [s[k]] + s[k + 1..];
  }

  // ----- FilterBoxByScore

  function KeepScored(s: seq<BodyInfo>): seq<BodyInfo> {
    if s == [] then [] else (if Conf(s[0]) < BOX_THRESHOLD then [] else [s[0]]) + KeepScored(s[1..])
  }

  // Every class's vector is filtered in place.
  method FilterBoxByScore(classes: array<seq<BodyInfo>>)
    modifies classes
    ensures forall c :: 0 <= c < classes.Length ==> classes[c] == KeepScored(old(classes[c]))
  {
    for c := 0 to classes.Length
      invariant forall k :: 0 <= k < c ==> classes[k] == KeepScored(old(classes[k]))
      invariant forall k :: c <= k < classes.Length ==> classes[k] == old(classes[k])
    {
      classes[c] := EraseLowScores(classes[c]);
    }
  }

  // Erasing at the iterator leaves it on the next element.
  method EraseLowScores(v: seq<BodyInfo>) returns (r: seq<BodyInfo>)
    ensures r == KeepScored(v)
  {
    r := v;
    var i := 0;
    assert [] + KeepScored(v) == KeepScored(v) && v[0..] == v;
    while i < |r|
      invariant 0 <= i <= |r|
      invariant r[..i] + KeepScored(r[i..]) == KeepScored(v)
      decreases |r| - i
    {
      EraseNext(r, i);
      if Conf(r[i]) < BOX_THRESHOLD {
        r := r[..i] + r[i + 1..];
      } else {
        i := i + 1;
      }
    }
    assert r[..i] == r && r[i..] == [];
  }

  lemma EraseNext(r: seq<BodyInfo>, i: nat)
    requires i < |r|
    ensures Conf(r[i]) < BOX_THRESHOLD ==>
              (r[..i] + r[i + 1..])[..i] == r[..i] && (r[..i] + r[i + 1..])[i..] == r[i + 1..] &&
              r[..i] + KeepScored(r[i..]) == r[..i] + KeepScored(r[i + 1..])
    ensures Conf(r[i]) >= BOX_THRESHOLD ==>
              r[..i] + KeepScored(r[i..]) == r[..i + 1] + KeepScored(r[i + 1..])
  {
    assert r[i..][1..] == r[i + 1..];
    var k := KeepScored(r[i + 1..]);
    if Conf(r[i]) >= BOX_THRESHOLD {
      assert KeepScored(r[i..]) == [r[i]] + k;
      assert r[..i] + ([r[i]] + k) == r[..i + 1] + k;
    } else {
      assert KeepScored(r[i..]) == [] + k;
      assert [] + k == k;
    }
  }

  lemma {:induction false} KeepScoredIn(s: seq<BodyInfo>, b: BodyInfo)
    ensures multiset(KeepScored(s))[b] == if Conf(b) < BOX_THRESHOLD then 0 else multiset(s)[b]
  {
    if s != [] {
      KeepScoredIn(s[1..], b);
      assert s == [s[0]] + s[1..];
    }
  }

  predicate HighScore(b: BodyInfo) { b.box.conf >= 0.3 }

  // What is erased is exactly what scores below 0.3; the rest keeps its order.
  lemma {:induction false} KeepScoredAt(s: seq<BodyInfo>) returns (at: seq<nat>)
    ensures Selects(KeepScored(s), s, at, HighScore)
    decreases |s|
  {
    hide Selects;
    if s == [] {
      at := [];
      NothingSelected();
    } else {
      var n := |s| - 1;
      at := KeepScoredAt(s[..n]);
      KeepScoredSnoc(s[..n], s[n]);
      var rest := KeepScored(s[..n]);
      SelectsSnoc(rest, s[..n], at, HighScore, s[n]);
      assert rest + [] == rest;
      assert s[..n] + [s[n]] == s;
      if s[n].box.conf >= 0.3 { at := at + [n]; }
    }
  }

  lemma NothingSelected()
    ensures Selects([], [], [], HighScore)
  {
  }

  lemma {:induction false} KeepScoredSnoc(s: seq<BodyInfo>, x: BodyInfo)
    ensures KeepScored(s + [x]) == KeepScored(s) + if x.box.conf >= 0.3 then [x] else []
  {
    if s == [] {
      assert ([] + [x])[1..] == [];
    } else {
      assert (s + [x])[1..] == s[1..] + [x];
      KeepScoredSnoc(s[1..], x);
      Regroup(if Conf(s[0]) < BOX_THRESHOLD then [] else [s[0]], KeepScored(s[1..]),
              if x.box.conf >= 0.3 then [x] else []);
    }
  }

  lemma {:induction false} KeepThenSurvive(s: seq<BodyInfo>, x: BodyInfo)
    ensures Survivors(KeepScored(s), x, Overlaps) == KeepScored(Survivors(s, x, Overlaps))
    decreases |s|
  {
    if s != [] {
      KeepThenSurvive(s[1..], x);
      SurvivorsCons(s, x, Overlaps);
      var k, r := KeepScored(s[1..]), Survivors(s[1..], x, Overlaps);
      if Conf(s[0]) >= BOX_THRESHOLD {
        assert KeepScored(s) == [s[0]] + k && ([s[0]] + k)[1..] == k;
        SurvivorsCons(KeepScored(s), x, Overlaps);
      } else {
        assert KeepScored(s) == k;
      }
      if !Overlaps(x, s[0]) { assert ([s[0]] + r)[1..] == r; }
    }
  }

  lemma {:induction false} NoneScored(s: seq<BodyInfo>)
    requires forall b :: b in s ==> Conf(b) < BOX_THRESHOLD
    ensures KeepScored(s) == []
  {
    if s != [] { NoneScored(s[1..]); }
  }

  lemma {:induction false} FilterPick(s: seq<BodyInfo>)
    requires Descending(s, Conf)
    ensures KeepScored(Pick(s, Overlaps)) == Pick(KeepScored(s), Overlaps)
    decreases |s|
  {
    if s != [] {
      var r := Survivors(s[1..], s[0], Overlaps);
      if Conf(s[0]) < BOX_THRESHOLD {
        forall b | b in s ensures Conf(b) < BOX_THRESHOLD {
          var i :| 0 <= i < |s| && s[i] == b;
          assert i == 0 || Conf(s[0]) >= Conf(s[i]);
        }
        NoneScored(s);
        PickFrom(s, Overlaps);
        NoneScored(Pick(s, Overlaps));
      } else {
        SurvivorsDescend(s[1..], s[0], Overlaps, Conf);
        FilterPick(r);
        KeepThenSurvive(s[1..], s[0]);
        assert ([s[0]] + Pick(r, Overlaps))[1..] == Pick(r, Overlaps);
        assert KeepScored(s)[1..] == KeepScored(s[1..]);
      }
    }
  }

  // Dropping low scores after suppression, as StagePostProcess does, gives the sequence that dropping
  // them first would give, in the corresponding confidence order.
  lemma FilterCommutes(boxes: seq<BodyInfo>, sorted: seq<BodyInfo>)
    requires SortOf(sorted, boxes, Conf)
    ensures SortOf(KeepScored(sorted), KeepScored(boxes), Conf)
    ensures KeepScored(Pick(sorted, Overlaps)) == Pick(KeepScored(sorted), Overlaps)
  {
    FilterPick(sorted);
    forall b ensures multiset(KeepScored(sorted))[b] == multiset(KeepScored(boxes))[b] {
      KeepScoredIn(sorted, b);
      KeepScoredIn(boxes, b);
    }
    KeepScoredDescends(sorted);
  }

  lemma {:induction false} KeepScoredFrom(s: seq<BodyInfo>)
    ensures forall b :: b in KeepScored(s) ==> b in s
  {
    if s != [] { KeepScoredFrom(s[1..]); }
  }

  lemma {:induction false} KeepScoredDescends(s: seq<BodyInfo>)
    requires Descending(s, Conf)
    ensures Descending(KeepScored(s), Conf)
  {
    if s != [] {
      KeepScoredDescends(s[1..]);
      KeepScoredFrom(s[1..]);
      var k := KeepScored(s[1..]);
      forall j | 0 <= j < |k| ensures Conf(s[0]) >= Conf(k[j]) {
        assert k[j] in s[1..];
      }
    }
  }
}
