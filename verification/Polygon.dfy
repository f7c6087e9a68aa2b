/**
 The even-odd point test (PointInPolygon of src/pipeline/decorator_stage/upload_decorator_stage.cc),
 over the reals: what it computes does not depend on where or in which direction the list of vertices
 starts, an inside point lies in the bounding box, and for upright rectangles and right triangles it
 decides exactly what it should, with the left and lower sides outside.
 */
module Polygon {
  datatype Point = Point(x: real, y: real)

  predicate Straddles(p: Point, a: Point, b: Point) { (a.y >= p.y) != (b.y >= p.y) }

  // Where the line through a and b has height p.y.
  function MeetX(p: Point, a: Point, b: Point): real
    requires Straddles(p, a, b)
  {
    (b.x - a.x) * (p.y - a.y) / (b.y - a.y) + a.x
  }

  // The test of one edge, from vertices[i] = a and its predecessor vertices[j] = b.
  predicate Crosses(p: Point, a: Point, b: Point) {
    Straddles(p, a, b) && p.x <= MeetX(p, a, b)
  }

  // The parity of the crossed edges of an open path.
  predicate OddPath(p: Point, path: seq<Point>) {
    if |path| <= 1 then false else Crosses(p, path[1], path[0]) != OddPath(p, path[1..])
  }

  // The specification: the parity over the closed path.
  predicate Inside(p: Point, vertices: seq<Point>) {
    vertices != [] && OddPath(p, [vertices[|vertices| - 1]] + vertices)
  }

  method PointInPolygon(p: Point, vertices: seq<Point>) returns (inside: bool)
    ensures inside == Inside(p, vertices)
  {
    var nvert := |vertices|;
    inside := false;
    var i, j := 0, nvert - 1;
    ghost var closed := if nvert == 0 then [] else [vertices[nvert - 1]] + vertices;
    while i < nvert
      invariant 0 <= i <= nvert && (i < nvert ==> j == if i == 0 then nvert - 1 else i - 1)
      invariant inside == OddPath(p, closed[..if nvert == 0 then 0 else i + 1])
    {
      assert closed[..i + 2] == closed[..i + 1] + [vertices[i]];
      OddSnoc(p, closed[..i + 1], vertices[i]);
      if Crosses(p, vertices[i], vertices[j]) {
        inside := !inside;
      }
      j := i;
      i := i + 1;
    }
    assert nvert > 0 ==> closed[..i + 1] == closed;
  }

  lemma {:induction false} OddSnoc(p: Point, path: seq<Point>, x: Point)
    requires path != []
    ensures OddPath(p, path + [x]) == (OddPath(p, path) != Crosses(p, x, path[|path| - 1]))
  {
    if |path| == 1 {
      assert (path + [x])[1..] == [x];
    } else {
      assert (path + [x])[1..] == path[1..] + [x];
      OddSnoc(p, path[1..], x);
    }
  }

  lemma {:induction false} OddConcat(p: Point, a: seq<Point>, x: Point, b: seq<Point>)
    ensures OddPath(p, a + [x] + b) == (OddPath(p, a + [x]) != OddPath(p, [x] + b))
    decreases b
  {
    if b == [] {
      assert a + [x] + b == a + [x] && [x] + b == [x];
    } else {
      var n := |b| - 1;
      OddConcat(p, a, x, b[..n]);
      assert a + [x] + b == (a + [x] + b[..n]) + [b[n]];
      assert [x] + b == ([x] + b[..n]) + [b[n]];
      OddSnoc(p, a + [x] + b[..n], b[n]);
      OddSnoc(p, [x] + b[..n], b[n]);
      assert (a + [x] + b[..n])[|a + [x] + b[..n]| - 1] == ([x] + b[..n])[n];
    }
  }

  // ----- rotation

  // Starting the vertex list anywhere else on the cycle does not change the answer.
  lemma RotationInvariant(p: Point, a: seq<Point>, b: seq<Point>)
    ensures Inside(p, a + b) == Inside(p, b + a)
  {
    if a == [] || b == [] {
      assert a + b == b + a;
    } else {
      var x, y := a[|a| - 1], b[|b| - 1];
      var a', b' := a[..|a| - 1], b[..|b| - 1];
      assert a == a' + [x] && b == b' + [y];
      assert [y] + (a + b) == ([y] + a') + [x] + b;
      assert [x] + (b + a) == ([x] + b') + [y] + a;
      OddConcat(p, [y] + a', x, b);
      OddConcat(p, [x] + b', y, a);
      assert ([y] + a') + [x] == [y] + a && ([x] + b') + [y] == [x] + b;
    }
  }

  // ----- reversal

  function Reversed(s: seq<Point>): (r: seq<Point>)
    ensures |r| == |s|
  {
    if s == [] then [] else Reversed(s[1..]) + [s[0]]
  }

  // The meeting point does not depend on the direction of the edge.
  lemma MeetSymmetric(p: Point, a: Point, b: Point)
    requires Straddles(p, a, b)
    ensures MeetX(p, a, b) == MeetX(p, b, a)
  {
    Interpolate(b.x - a.x, p.y - a.y, p.y - b.y, b.y - a.y);
  }

  // Interpolating over a difference d from either end of a gap h.
  lemma Interpolate(d: real, s: real, r: real, h: real)
    requires h != 0.0 && s - r == h
    ensures d * s / h == (-d) * r / -h + d
  {
    assert d * s == d * r + d * h;
    assert d * s / h == d * r / h + d * h / h;
    assert d * h / h == d;
    assert (-d) * r == -(d * r);
    assert -(d * r) / -h == d * r / h;
  }

  lemma CrossesSymmetric(p: Point, a: Point, b: Point)
    ensures Crosses(p, a, b) == Crosses(p, b, a)
  {
    if Straddles(p, a, b) { MeetSymmetric(p, a, b); }
  }

  lemma {:induction false} OddReversed(p: Point, s: seq<Point>)
    ensures OddPath(p, Reversed(s)) == OddPath(p, s)
  {
    if |s| >= 2 {
      OddReversed(p, s[1..]);
      OddSnoc(p, Reversed(s[1..]), s[0]);
      ReversedEnds(s[1..]);
      CrossesSymmetric(p, s[0], s[1]);
    }
  }

  lemma ReversedEnds(s: seq<Point>)
    requires s != []
    ensures Reversed(s)[|s| - 1] == s[0]
  {
  }

  lemma {:induction false} ReversedSnoc(s: seq<Point>, x: Point)
    ensures Reversed(s + [x]) == [x] + Reversed(s)
  {
    if s == [] {
      assert ([] + [x])[1..] == [];
    } else {
      assert (s + [x])[1..] == s[1..] + [x];
      ReversedSnoc(s[1..], x);
    }
  }

  // Nor does the orientation of the polygon.
  lemma ReversalInvariant(p: Point, s: seq<Point>)
    ensures Inside(p, Reversed(s)) == Inside(p, s)
  {
    if s != [] {
      var n := |s| - 1;
      var y, rest := s[n], s[..n];
      assert s == rest + [y];
      ReversedSnoc(rest, y);
      OddReversed(p, [y] + s);
      assert ([y] + s)[1..] == s;
      assert Reversed([y] + s) == Reversed(s) + [y];
      assert Reversed(s) + [y] == [y] + (Reversed(rest) + [y]);
      // The reversed list starts at y; move y to the end of the cycle.
      RotationInvariant(p, [y], Reversed(rest));
      var r := Reversed(rest) + [y];
      assert r[|r| - 1] == y;
    }
  }

  // ----- the bounding box

  // A straddling edge meets the horizontal line through p between its end points.
  lemma MeetBetween(p: Point, a: Point, b: Point, lo: real, hi: real)
    requires Straddles(p, a, b) && lo <= a.x <= hi && lo <= b.x <= hi
    ensures lo <= MeetX(p, a, b) <= hi
  {
    hide MeetX;
    if a.y < b.y {
      MeetUpward(p, a, b, lo, hi);
    } else {
      MeetSymmetric(p, a, b);
      MeetUpward(p, b, a, lo, hi);
    }
  }

  lemma MeetUpward(p: Point, a: Point, b: Point, lo: real, hi: real)
    requires a.y < p.y <= b.y && lo <= a.x <= hi && lo <= b.x <= hi
    ensures lo <= MeetX(p, a, b) <= hi
  {
    var d, s, h := b.x - a.x, p.y - a.y, b.y - a.y;
    UnitFraction(s, h);
    MultiplyFirst(d, s, h);
    Convex(a.x, d, s / h, lo, hi);
  }

  lemma MultiplyFirst(d: real, s: real, h: real)
    requires h != 0.0
    ensures d * s / h == d * (s / h)
  {
    var t := s / h;
    assert t * h == s;
    assert d * s == (d * t) * h;
  }

  lemma UnitFraction(n: real, d: real)
    requires 0.0 <= n <= d && d > 0.0
    ensures 0.0 <= n / d <= 1.0
  {
    assert n / d * d == n;
  }

  lemma Convex(u: real, d: real, t: real, lo: real, hi: real)
    requires 0.0 <= t <= 1.0 && lo <= u <= hi && lo <= u + d <= hi
    ensures lo <= d * t + u <= hi
  {
    var m := Scaled(d, t);
    Offset(u, d, m, lo, hi);
  }

  lemma Offset(u: real, d: real, m: real, lo: real, hi: real)
    requires lo <= u <= hi && lo <= u + d <= hi && (0.0 <= m <= d || d <= m <= 0.0)
    ensures lo <= m + u <= hi
  {
  }

  // A fraction of d lies between 0 and d.
  lemma Scaled(d: real, t: real) returns (m: real)
    requires 0.0 <= t <= 1.0
    ensures m == d * t && (0.0 <= m <= d || d <= m <= 0.0)
  {
    m := d * t;
    var rest := d * (1.0 - t);
    assert m + rest == d;
    if d >= 0.0 {
      assert m >= 0.0 && rest >= 0.0;
    } else {
      assert m <= 0.0 && rest <= 0.0;
    }
  }

  // Left of every vertex each straddling edge is crossed, so the parity tells whether the ends of the
  // path lie on different sides of the line: a closed path crosses an even number of times.
  lemma {:induction false} LeftParity(p: Point, path: seq<Point>)
    requires path != [] && forall i :: 0 <= i < |path| ==> p.x <= path[i].x
    ensures OddPath(p, path) == Straddles(p, path[0], path[|path| - 1])
  {
    if |path| > 1 {
      LeftParity(p, path[1..]);
      if Straddles(p, path[1], path[0]) {
        MeetBetween(p, path[1], path[0], p.x, Max(path[0].x, path[1].x));
      }
    }
  }

  function Max(a: real, b: real): real { if a < b then b else a }

  lemma {:induction false} NoCrossing(p: Point, path: seq<Point>)
    requires forall i, j :: 0 <= i < |path| && 0 <= j < |path| ==> !Crosses(p, path[i], path[j])
    ensures !OddPath(p, path)
  {
    if |path| > 1 { NoCrossing(p, path[1..]); }
  }

  // An inside point lies strictly right of the leftmost and above the lowest vertex, and not beyond
  // the rightmost and the highest.
  lemma InsideBox(p: Point, vertices: seq<Point>)
    requires Inside(p, vertices)
    ensures exists i :: 0 <= i < |vertices| && vertices[i].x < p.x
    ensures exists i :: 0 <= i < |vertices| && p.x <= vertices[i].x
    ensures exists i :: 0 <= i < |vertices| && vertices[i].y < p.y
    ensures exists i :: 0 <= i < |vertices| && p.y <= vertices[i].y
  {
    var n := |vertices|;
    var closed := [vertices[n - 1]] + vertices;
    assert forall i :: 0 <= i <= n ==> closed[i] in vertices;
    if forall i :: 0 <= i < n ==> p.x <= vertices[i].x {
      LeftParity(p, closed);
      assert false;
    }
    var a, b := SomeCrossing(p, closed);
    CrossedEdge(p, a, b);
    assert a in vertices && b in vertices;
  }

  lemma SomeCrossing(p: Point, path: seq<Point>) returns (a: Point, b: Point)
    requires OddPath(p, path)
    ensures a in path && b in path && Crosses(p, a, b)
  {
    hide Crosses;
    if forall i, j :: 0 <= i < |path| && 0 <= j < |path| ==> !Crosses(p, path[i], path[j]) {
      NoCrossing(p, path);
      assert false;
    }
    var i, j :| 0 <= i < |path| && 0 <= j < |path| && Crosses(p, path[i], path[j]);
    a, b := path[i], path[j];
  }

  // A crossed edge has an end on either side of the height of p, and one not left of p.
  lemma CrossedEdge(p: Point, a: Point, b: Point)
    requires Crosses(p, a, b)
    ensures p.x <= a.x || p.x <= b.x
    ensures (a.y < p.y && p.y <= b.y) || (b.y < p.y && p.y <= a.y)
  {
    if p.x > a.x && p.x > b.x {
      MeetBetween(p, a, b, if a.x < b.x then a.x else b.x, Max(a.x, b.x));
      assert false;
    }
  }

  // ----- rectangles

  // The rectangle between two opposite corners, from the lower left one along the x axis.
  function Rectangle(minX: real, minY: real, maxX: real, maxY: real): seq<Point> {
    [Point(minX, minY), Point(maxX, minY), Point(maxX, maxY), Point(minX, maxY)]
  }

  // An upright edge meets every height it straddles at its own x.
  lemma UprightMeets(p: Point, a: Point, b: Point)
    requires Straddles(p, a, b) && a.x == b.x
    ensures MeetX(p, a, b) == a.x
  {
    assert (b.x - a.x) * (p.y - a.y) == 0.0;
  }

  // The parity of four edges.
  lemma FourEdges(p: Point, a: Point, b: Point, c: Point, d: Point)
    ensures Inside(p, [a, b, c, d]) ==
            (Crosses(p, a, d) != (Crosses(p, b, a) != (Crosses(p, c, b) != Crosses(p, d, c))))
  {
    hide Crosses;
    assert [d] + [a, b, c, d] == [d, a, b, c, d];
    assert [d, a, b, c, d][1..] == [a, b, c, d] && [a, b, c, d][1..] == [b, c, d];
    assert [b, c, d][1..] == [c, d] && [c, d][1..] == [d];
    assert OddPath(p, [c, d]) == Crosses(p, d, c);
    assert OddPath(p, [b, c, d]) == (Crosses(p, c, b) != OddPath(p, [c, d]));
    assert OddPath(p, [a, b, c, d]) == (Crosses(p, b, a) != OddPath(p, [b, c, d]));
  }

  // On a rectangle the bounds of InsideBox are exact: the left and lower sides are outside, the right and
  // upper sides inside.
  lemma RectangleIff(p: Point, minX: real, minY: real, maxX: real, maxY: real)
    requires minX <= maxX && minY <= maxY
    ensures Inside(p, Rectangle(minX, minY, maxX, maxY)) <==> minX < p.x <= maxX && minY < p.y <= maxY
  {
    var r := Rectangle(minX, minY, maxX, maxY);
    FourEdges(p, r[0], r[1], r[2], r[3]);
    if Straddles(p, r[0], r[3]) { UprightMeets(p, r[0], r[3]); }
    if Straddles(p, r[2], r[1]) { UprightMeets(p, r[2], r[1]); }
    hide MeetX;
  }

  // ----- slanted edges

  // Without division: an edge is crossed when it straddles the height of p and p is not right of the line
  // through it, which the sign of a cross product tells.
  lemma CrossesIff(p: Point, a: Point, b: Point)
    ensures Crosses(p, a, b) <==>
            (a.y < p.y <= b.y && (p.x - a.x) * (b.y - a.y) <= (b.x - a.x) * (p.y - a.y)) ||
            (b.y < p.y <= a.y && (p.x - b.x) * (a.y - b.y) <= (a.x - b.x) * (p.y - b.y))
  {
    if a.y < p.y <= b.y {
      UpwardCrosses(p, a, b);
    } else if b.y < p.y <= a.y {
      CrossesSymmetric(p, a, b);
      UpwardCrosses(p, b, a);
    }
  }

  lemma UpwardCrosses(p: Point, a: Point, b: Point)
    requires a.y < p.y <= b.y
    ensures Crosses(p, a, b) <==> (p.x - a.x) * (b.y - a.y) <= (b.x - a.x) * (p.y - a.y)
  {
    Proportion((b.x - a.x) * (p.y - a.y), b.y - a.y, p.x - a.x);
  }

  lemma Proportion(n: real, d: real, r: real)
    requires d > 0.0
    ensures r <= n / d <==> r * d <= n
  {
    var q := n / d;
    assert q * d == n;
    if r <= q { assert (q - r) * d >= 0.0; } else { assert (r - q) * d > 0.0; }
    assert (q - r) * d == q * d - r * d && (r - q) * d == r * d - q * d;
  }

  // The right triangle with legs along the axes from (x, y).
  function RightTriangle(x: real, y: real, w: real, h: real): seq<Point> {
    [Point(x, y), Point(x + w, y), Point(x, y + h)]
  }

  lemma ThreeEdges(p: Point, a: Point, b: Point, c: Point)
    ensures Inside(p, [a, b, c]) == (Crosses(p, a, c) != (Crosses(p, b, a) != Crosses(p, c, b)))
  {
    hide Crosses;
    assert [c] + [a, b, c] == [c, a, b, c];
    assert [c, a, b, c][1..] == [a, b, c] && [a, b, c][1..] == [b, c] && [b, c][1..] == [c];
    assert OddPath(p, [b, c]) == Crosses(p, c, b);
    assert OddPath(p, [a, b, c]) == (Crosses(p, b, a) != OddPath(p, [b, c]));
  }

  // A point is inside exactly when it lies right of and above the legs and not beyond the slanted side.
  lemma RightTriangleIff(p: Point, x: real, y: real, w: real, h: real)
    requires w > 0.0 && h > 0.0
    ensures Inside(p, RightTriangle(x, y, w, h)) <==>
            x < p.x && y < p.y && (p.x - x) * h + (p.y - y) * w <= w * h
  {
    var a, b, c := Point(x, y), Point(x + w, y), Point(x, y + h);
    ThreeEdges(p, a, b, c);
    CrossesIff(p, a, c);
    CrossesIff(p, b, a);
    CrossesIff(p, c, b);
    hide Crosses, Inside;
    TriangleSides(p.x - x, p.y - y, w, h);
  }

  lemma TriangleSides(u: real, v: real, w: real, h: real)
    requires w > 0.0 && h > 0.0
    ensures (u - w) * h <= -w * v <==> u * h + v * w <= w * h
    ensures u * h <= 0.0 * v <==> u <= 0.0
    ensures v > h && u > 0.0 ==> u * h + v * w > w * h
    ensures u <= 0.0 && v <= h ==> u * h + v * w <= w * h
  {
    if u <= 0.0 { assert u * h <= 0.0; } else { assert u * h > 0.0; }
    if v > h { assert (v - h) * w > 0.0; } else { assert (h - v) * w >= 0.0; }
  }
}
