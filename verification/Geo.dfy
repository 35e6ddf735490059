/** Ray casting (geo-rs/src/main.rs): the crossing-parity loop and the algebra of its
    answer. Floats are modelled as reals. */
module Geo {

  datatype Point = Point(x: real, y: real)

  // ---------------------------------------------------------------------------
  // One edge
  // ---------------------------------------------------------------------------

  predicate Straddles(p: Point, q: Point, lat: real) { (p.y > lat) != (q.y > lat) }

  /** Where the edge meets the horizontal line, as the code computes it from vertex `p`
      and its predecessor `q`. */
  function XInt(p: Point, q: Point, lat: real): real
    requires p.y != q.y
  {
    (q.x - p.x) * (lat - p.y) / (q.y - p.y) + p.x
  }

  predicate Crosses(p: Point, q: Point, lon: real, lat: real) {
    Straddles(p, q, lat) && lon < XInt(p, q, lat)
  }

  lemma Scaled(d: real, a: real, b: real)
    requires b != 0.0
    ensures (d * a / b) * b == d * a
  {
  }

  /** The intersection does not depend on the direction of the edge. */
  lemma XIntSymmetric(p: Point, q: Point, lat: real)
    requires p.y != q.y
    ensures XInt(p, q, lat) == XInt(q, p, lat)
  {
    var b := q.y - p.y;
    var u, v := (q.x - p.x) * (lat - p.y) / b, (p.x - q.x) * (lat - q.y) / (p.y - q.y);
    Scaled(q.x - p.x, lat - p.y, b);
    Scaled(p.x - q.x, lat - q.y, p.y - q.y);
    assert u * b == (q.x - p.x) * (lat - p.y);
    assert v * -b == (p.x - q.x) * (lat - q.y);
    assert v * b == (q.x - p.x) * (lat - q.y);
    assert (u - v) * b == (q.x - p.x) * b;
    Cancel(u - v, q.x - p.x, b);
  }

  lemma Cancel(s: real, t: real, b: real)
    requires b != 0.0 && s * b == t * b
    ensures s == t
  {
    assert (s - t) * b == 0.0;
  }

  lemma CrossesSymmetric(p: Point, q: Point, lon: real, lat: real)
    ensures Crosses(p, q, lon, lat) == Crosses(q, p, lon, lat)
  {
    if Straddles(p, q, lat) { XIntSymmetric(p, q, lat); }
  }

  /** A straddling edge meets the line between its endpoints. */
  lemma XIntBetween(p: Point, q: Point, lat: real, lo: real, hi: real)
    requires Straddles(p, q, lat)
    requires lo <= p.x <= hi && lo <= q.x <= hi
    ensures lo <= XInt(p, q, lat) <= hi
  {
    var a, b, d := lat - p.y, q.y - p.y, q.x - p.x;
    var u := d * a / b;
    Scaled(d, a, b);
    assert XInt(p, q, lat) == u + p.x;
    if b > 0.0 {
      Fraction(u, d, a, b);
    } else {
      assert u * -b == d * -a;
      Fraction(u, d, -a, -b);
    }
  }

  /** A fraction between 0 and 1 of `d` lies between 0 and `d`. */
  lemma Fraction(u: real, d: real, a: real, b: real)
    requires u * b == d * a && 0.0 <= a <= b && b > 0.0
    ensures 0.0 <= d ==> 0.0 <= u <= d
    ensures d <= 0.0 ==> d <= u <= 0.0
  {
    var ub, da, db := u * b, d * a, d * b;
    Spread(d, a, b - a);
    if d >= 0.0 {
      Times(d, a);
      Times(d, b - a);
      Order(u, d, b, ub, db);
      Order(0.0, u, b, 0.0, ub);
    } else {
      Times(-d, a);
      Times(-d, b - a);
      Order(d, u, b, db, ub);
      Order(u, 0.0, b, ub, 0.0);
    }
  }

  lemma Spread(d: real, a: real, c: real)
    ensures d * (a + c) == d * a + d * c && -d * a == -(d * a) && -d * c == -(d * c)
  {
  }

  /** Division by a positive number keeps the order; sb and tb are the products. */
  lemma Order(s: real, t: real, b: real, sb: real, tb: real)
    requires b > 0.0 && sb == s * b && tb == t * b && sb <= tb
    ensures s <= t
  {
    assert (t - s) * b == tb - sb;
  }

  // ---------------------------------------------------------------------------
  // Paths and rings
  // ---------------------------------------------------------------------------

  function PathParity(vs: seq<Point>, lon: real, lat: real): bool {
    if |vs| < 2 then false else Crosses(vs[1], vs[0], lon, lat) != PathParity(vs[1..], lon, lat)
  }

  /** The parity of crossings of the closed ring. */
  function RingParity(ring: seq<Point>, lon: real, lat: real): bool {
    if ring == [] then false
    else Crosses(ring[0], ring[|ring| - 1], lon, lat) != PathParity(ring, lon, lat)
  }

  predicate Inside(ring: seq<Point>, lon: real, lat: real) {
    |ring| >= 3 && RingParity(ring, lon, lat)
  }

  /** The early return for fewer than three vertices changes no answer. */
  lemma SmallRings(ring: seq<Point>, lon: real, lat: real)
    ensures Inside(ring, lon, lat) == RingParity(ring, lon, lat)
  {
    if |ring| == 2 {
      CrossesSymmetric(ring[0], ring[1], lon, lat);
      assert !PathParity(ring[1..], lon, lat);
    }
  }

  method PointInPolygon(lon: real, lat: real, ring: seq<Point>) returns (inside: bool)
    ensures inside == Inside(ring, lon, lat)
  {
    var n := |ring|;
    if n < 3 { return false; }
    inside := false;
    var j := n - 1;
    for i := 0 to n
      invariant j == if i == 0 then n - 1 else i - 1
      invariant inside == Prefix(ring, i, lon, lat)
    {
      var p, q := ring[i], ring[j];
      PrefixStep(ring, i, lon, lat);
      hide Prefix, XInt;
      if (p.y > lat) != (q.y > lat) {
        if lon < XInt(p, q, lat) {
          inside := !inside;
        }
      }
      j := i;
    }
    PrefixAll(ring, lon, lat);
  }

  /** The crossings of the first `i` edges the loop looks at, the closing edge first. */
  predicate Prefix(ring: seq<Point>, i: nat, lon: real, lat: real)
    requires ring != [] && i <= |ring|
  {
    i > 0 && Crosses(ring[0], ring[|ring| - 1], lon, lat) != PathParity(ring[..i], lon, lat)
  }

  lemma PrefixStep(ring: seq<Point>, i: nat, lon: real, lat: real)
    requires i < |ring|
    ensures Prefix(ring, i + 1, lon, lat) ==
            (Prefix(ring, i, lon, lat) != Crosses(ring[i], ring[if i == 0 then |ring| - 1 else i - 1], lon, lat))
  {
    hide Crosses;
    if i > 0 {
      assert ring[..i + 1] == ring[..i] + [ring[i]];
      PathSnoc(ring[..i], ring[i], lon, lat);
    }
  }

  lemma PrefixAll(ring: seq<Point>, lon: real, lat: real)
    requires ring != []
    ensures Prefix(ring, |ring|, lon, lat) == RingParity(ring, lon, lat)
  {
    assert ring[..|ring|] == ring;
  }

  lemma {:induction false} PathSnoc(vs: seq<Point>, p: Point, lon: real, lat: real)
    requires vs != []
    ensures PathParity(vs + [p], lon, lat) == (PathParity(vs, lon, lat) != Crosses(p, vs[|vs| - 1], lon, lat))
  {
    hide Crosses;
    if |vs| == 1 {
      assert (vs + [p])[1..] == [p];
    } else {
      PathSnoc(vs[1..], p, lon, lat);
      assert (vs + [p])[1..] == vs[1..] + [p];
    }
  }

  /** Paths joined end to end add up. */
  lemma {:induction false} PathJoin(a: seq<Point>, b: seq<Point>, lon: real, lat: real)
    requires a != [] && b != [] && a[|a| - 1] == b[0]
    ensures PathParity(a + b[1..], lon, lat) == (PathParity(a, lon, lat) != PathParity(b, lon, lat))
  {
    hide Crosses;
    if |a| == 1 {
      assert a + b[1..] == b;
    } else {
      PathJoin(a[1..], b, lon, lat);
      assert (a + b[1..])[1..] == a[1..] + b[1..];
    }
  }

  /** A ring is the path that returns to its start. */
  lemma RingIsPath(ring: seq<Point>, lon: real, lat: real)
    requires ring != []
    ensures RingParity(ring, lon, lat) == PathParity(ring + [ring[0]], lon, lat)
  {
    PathSnoc(ring, ring[0], lon, lat);
  }

  // ---------------------------------------------------------------------------
  // Cutting along a chord
  // ---------------------------------------------------------------------------

  /** Cutting a ring along any chord: the whole is the exclusive or of the parts. */
  lemma ChordCut(ring: seq<Point>, i: nat, j: nat, lon: real, lat: real)
    requires i <= j < |ring|
    ensures Inside(ring, lon, lat) ==
            (Inside(ring[i..j + 1], lon, lat) != Inside(ring[j..] + ring[..i + 1], lon, lat))
  {
    hide Crosses, PathParity;
    var part1, part2 := ring[i..j + 1], ring[j..] + ring[..i + 1];
    SmallRings(ring, lon, lat);
    SmallRings(part1, lon, lat);
    SmallRings(part2, lon, lat);
    CrossesSymmetric(ring[i], ring[j], lon, lat);
    ThreePaths(ring, i, j, lon, lat);
    TwoPaths(ring, i, j, lon, lat);
  }

  lemma ThreePaths(ring: seq<Point>, i: nat, j: nat, lon: real, lat: real)
    requires i <= j < |ring|
    ensures PathParity(ring, lon, lat) ==
            (PathParity(ring[..i + 1], lon, lat) != (PathParity(ring[i..j + 1], lon, lat) != PathParity(ring[j..], lon, lat)))
  {
    hide PathParity;
    PathJoin(ring[..i + 1], ring[i..j + 1], lon, lat);
    assert ring[..i + 1] + ring[i..j + 1][1..] == ring[..j + 1];
    PathJoin(ring[..j + 1], ring[j..], lon, lat);
    assert ring[..j + 1] + ring[j..][1..] == ring;
  }

  lemma TwoPaths(ring: seq<Point>, i: nat, j: nat, lon: real, lat: real)
    requires i <= j < |ring|
    ensures PathParity(ring[j..] + ring[..i + 1], lon, lat) ==
            (PathParity(ring[j..], lon, lat) != (Crosses(ring[0], ring[|ring| - 1], lon, lat) != PathParity(ring[..i + 1], lon, lat)))
  {
    hide PathParity, Crosses;
    var head, tail := ring[..i + 1], ring[j..];
    PathSnoc(tail, ring[0], lon, lat);
    PathJoin(tail + [ring[0]], head, lon, lat);
    assert (tail + [ring[0]]) + head[1..] == tail + head;
  }

  /** The triangles from the first vertex to each edge. */
  function FanParity(ring: seq<Point>, lon: real, lat: real): bool {
    var n := |ring|;
    if n < 3 then false
    else FanParity(ring[..n - 1], lon, lat) != Inside([ring[n - 2], ring[n - 1], ring[0]], lon, lat)
  }

  /** The answer for a polygon is the exclusive or of the answers for its fan of triangles. */
  lemma {:induction false} FanDecomposition(ring: seq<Point>, lon: real, lat: real)
    ensures Inside(ring, lon, lat) == FanParity(ring, lon, lat)
  {
    var n := |ring|;
    if n >= 3 {
      FanDecomposition(ring[..n - 1], lon, lat);
      ChordCut(ring, 0, n - 2, lon, lat);
      assert ring[0..n - 1] == ring[..n - 1];
      assert ring[n - 2..] + ring[..1] == [ring[n - 2], ring[n - 1], ring[0]];
    }
  }

  // ---------------------------------------------------------------------------
  // What does not change the answer
  // ---------------------------------------------------------------------------

  lemma RotationInvariant(ring: seq<Point>, k: nat, lon: real, lat: real)
    requires k <= |ring|
    ensures Inside(ring[k..] + ring[..k], lon, lat) == Inside(ring, lon, lat)
  {
    var r := ring[k..] + ring[..k];
    SmallRings(ring, lon, lat);
    SmallRings(r, lon, lat);
    if k == 0 || k == |ring| {
      assert r == ring;
    } else {
      assert !PathParity(ring[k..k + 1], lon, lat);
      hide Crosses, PathParity;
      RingIsPath(r, lon, lat);
      ThreePaths(ring, k, k, lon, lat);
      TwoPaths(ring, k, k, lon, lat);
      assert ring[k..] + ring[..k + 1] == r + [r[0]];
    }
  }

  function Reverse(vs: seq<Point>): (r: seq<Point>)
    ensures |r| == |vs| && (vs != [] ==> r[0] == vs[|vs| - 1] && r[|r| - 1] == vs[0])
  {
    if vs == [] then [] else Reverse(vs[1..]) + [vs[0]]
  }

  lemma {:induction false} PathReversal(vs: seq<Point>, lon: real, lat: real)
    ensures PathParity(Reverse(vs), lon, lat) == PathParity(vs, lon, lat)
  {
    if |vs| >= 2 {
      CrossesSymmetric(vs[0], vs[1], lon, lat);
      hide Crosses;
      PathReversal(vs[1..], lon, lat);
      PathSnoc(Reverse(vs[1..]), vs[0], lon, lat);
    }
  }

  lemma ReversalInvariant(ring: seq<Point>, lon: real, lat: real)
    ensures Inside(Reverse(ring), lon, lat) == Inside(ring, lon, lat)
  {
    PathReversal(ring, lon, lat);
    if ring != [] { CrossesSymmetric(ring[0], ring[|ring| - 1], lon, lat); }
  }

  lemma RepeatedVertexInvariant(ring: seq<Point>, k: nat, lon: real, lat: real)
    requires k < |ring|
    ensures Inside(ring[..k + 1] + ring[k..], lon, lat) == Inside(ring, lon, lat)
  {
    var head, tail := ring[..k + 1], ring[k..];
    SmallRings(ring, lon, lat);
    SmallRings(head + tail, lon, lat);
    assert !Crosses(ring[k], ring[k], lon, lat) && !PathParity(ring[k..k + 1], lon, lat);
    hide Crosses, PathParity;
    ThreePaths(ring, k, k, lon, lat);
    PathSnoc(head, ring[k], lon, lat);
    PathJoin(head + [ring[k]], tail, lon, lat);
    assert (head + [ring[k]]) + tail[1..] == head + tail;
  }

  // ---------------------------------------------------------------------------
  // The bounding box
  // ---------------------------------------------------------------------------

  /** How often a path straddles the line, by parity: its ends tell. */
  function StraddleParity(vs: seq<Point>, lat: real): bool {
    if |vs| < 2 then false else Straddles(vs[1], vs[0], lat) != StraddleParity(vs[1..], lat)
  }

  lemma {:induction false} StraddleEnds(vs: seq<Point>, lat: real)
    requires vs != []
    ensures StraddleParity(vs, lat) == Straddles(vs[0], vs[|vs| - 1], lat)
  {
    if |vs| >= 2 { StraddleEnds(vs[1..], lat); }
  }

  predicate InBox(vs: seq<Point>, lo: Point, hi: Point) {
    forall p | p in vs :: lo.x <= p.x <= hi.x && lo.y <= p.y <= hi.y
  }

  lemma {:induction false} WestOfBox(vs: seq<Point>, lo: Point, hi: Point, lon: real, lat: real)
    requires InBox(vs, lo, hi) && lon < lo.x
    ensures PathParity(vs, lon, lat) == StraddleParity(vs, lat)
  {
    if |vs| >= 2 {
      if Straddles(vs[1], vs[0], lat) { XIntBetween(vs[1], vs[0], lat, lo.x, hi.x); }
      WestOfBox(vs[1..], lo, hi, lon, lat);
    }
  }

  lemma {:induction false} OffBox(vs: seq<Point>, lo: Point, hi: Point, lon: real, lat: real)
    requires InBox(vs, lo, hi) && (lon >= hi.x || lat < lo.y || lat >= hi.y)
    ensures !PathParity(vs, lon, lat)
  {
    if |vs| >= 2 {
      if Straddles(vs[1], vs[0], lat) { XIntBetween(vs[1], vs[0], lat, lo.x, hi.x); }
      OffBox(vs[1..], lo, hi, lon, lat);
    }
  }

  /** A point inside lies in every box around the ring, the east and north sides excluded. */
  lemma InsideBox(ring: seq<Point>, lo: Point, hi: Point, lon: real, lat: real)
    requires InBox(ring, lo, hi) && Inside(ring, lon, lat)
    ensures lo.x <= lon < hi.x && lo.y <= lat < hi.y
  {
    var closed := ring + [ring[0]];
    RingIsPath(ring, lon, lat);
    StraddleEnds(closed, lat);
    if lon < lo.x {
      WestOfBox(closed, lo, hi, lon, lat);
    } else if !(lon < hi.x && lo.y <= lat < hi.y) {
      OffBox(closed, lo, hi, lon, lat);
    }
  }

  // ---------------------------------------------------------------------------
  // Orientation
  // ---------------------------------------------------------------------------

  /** Positive when (lon, lat) is strictly to the left of the directed line p -> q. */
  function Side(p: Point, q: Point, lon: real, lat: real): real {
    (q.x - p.x) * (lat - p.y) - (lon - p.x) * (q.y - p.y)
  }

  /** An edge is counted exactly when it goes up with the point strictly on its left, or
      down with the point strictly on its right: no division is needed. */
  lemma CrossesBySide(p: Point, q: Point, lon: real, lat: real)
    ensures Crosses(p, q, lon, lat) <==>
            (p.y <= lat < q.y && Side(p, q, lon, lat) > 0.0) || (q.y <= lat < p.y && Side(p, q, lon, lat) < 0.0)
  {
    if Straddles(p, q, lat) {
      var d, a, b, e := q.x - p.x, lat - p.y, q.y - p.y, lon - p.x;
      var u := d * a / b;
      SideFactor(d, a, b, e);
      assert Side(p, q, lon, lat) == d * a - e * b;
      assert lon < XInt(p, q, lat) <==> u - e > 0.0;
      SignOfProduct(u - e, b);
    }
  }

  lemma SideFactor(d: real, a: real, b: real, e: real)
    requires b != 0.0
    ensures d * a - e * b == (d * a / b - e) * b
  {
    Scaled(d, a, b);
    Distribute(d * a / b, e, b);
  }

  lemma Distribute(s: real, t: real, b: real)
    ensures (s - t) * b == s * b - t * b
  {
  }

  lemma SignOfProduct(s: real, b: real)
    ensures b > 0.0 ==> (s * b > 0.0 <==> s > 0.0)
    ensures b < 0.0 ==> (s * b < 0.0 <==> s > 0.0)
  {
  }

  /** The sides of a point weigh the vertices to the point itself. */
  lemma Barycentre(a: Point, b: Point, c: Point, lon: real, lat: real)
    ensures Side(b, c, lon, lat) * (a.y - lat) + Side(c, a, lon, lat) * (b.y - lat) + Side(a, b, lon, lat) * (c.y - lat) == 0.0
  {
  }

  /** The answer for a triangle, edge by edge. */
  lemma TriangleParity(a: Point, b: Point, c: Point, lon: real, lat: real)
    ensures Inside([a, b, c], lon, lat) ==
            (Crosses(a, b, lon, lat) != (Crosses(b, c, lon, lat) != Crosses(c, a, lon, lat)))
  {
    var ring := [a, b, c];
    CrossesSymmetric(a, b, lon, lat);
    CrossesSymmetric(b, c, lon, lat);
    CrossesSymmetric(c, a, lon, lat);
    hide Crosses;
    assert ring[1..] == [b, c] && [b, c][1..] == [c];
    assert PathParity([b, c], lon, lat) == Crosses(c, b, lon, lat);
    assert PathParity(ring, lon, lat) == (Crosses(b, a, lon, lat) != Crosses(c, b, lon, lat));
  }

  /** Every point strictly inside a triangle (strictly left of its three edges) is inside. */
  lemma TriangleInterior(a: Point, b: Point, c: Point, lon: real, lat: real)
    requires Side(a, b, lon, lat) > 0.0 && Side(b, c, lon, lat) > 0.0 && Side(c, a, lon, lat) > 0.0
    ensures Inside([a, b, c], lon, lat)
  {
    TriangleParity(a, b, c, lon, lat);
    CrossesBySide(a, b, lon, lat);
    CrossesBySide(b, c, lon, lat);
    CrossesBySide(c, a, lon, lat);
    SomeAboveSomeNot(a, b, c, lon, lat);
    hide Crosses, Side, Inside;
  }

  /** A point inside a counterclockwise triangle is never strictly right of an edge:
      first with `a` alone on its side of the horizontal line. */
  lemma ApexSides(a: Point, b: Point, c: Point, lon: real, lat: real)
    requires Side(a, b, lon, lat) + Side(b, c, lon, lat) + Side(c, a, lon, lat) > 0.0
    requires (b.y > lat) == (c.y > lat) != (a.y > lat)
    requires Inside([a, b, c], lon, lat)
    ensures Side(a, b, lon, lat) >= 0.0 && Side(b, c, lon, lat) >= 0.0 && Side(c, a, lon, lat) >= 0.0
  {
    TriangleParity(a, b, c, lon, lat);
    CrossesBySide(a, b, lon, lat);
    CrossesBySide(b, c, lon, lat);
    CrossesBySide(c, a, lon, lat);
    Barycentre(a, b, c, lon, lat);
    var u, v, w := Side(b, c, lon, lat), Side(c, a, lon, lat), Side(a, b, lon, lat);
    hide Crosses, Side, Inside;
    if a.y > lat {
      Balance(u, v, w, a.y - lat, lat - b.y, lat - c.y);
    } else {
      Balance(u, v, w, lat - a.y, b.y - lat, c.y - lat);
    }
  }

  lemma Balance(u: real, v: real, w: real, r: real, s: real, t: real)
    requires u * r == v * s + w * t && r >= 0.0 && s >= 0.0 && t >= 0.0
    requires r > 0.0 || (s > 0.0 && t > 0.0)
    ensures v >= 0.0 && w >= 0.0 && (r > 0.0 || v > 0.0 || w > 0.0) ==> u >= 0.0
    ensures v <= 0.0 && w <= 0.0 && (r > 0.0 || v < 0.0 || w < 0.0) ==> u <= 0.0
  {
    if v >= 0.0 && w >= 0.0 {
      assert v * s >= 0.0 && w * t >= 0.0;
      if u < 0.0 { Times(-u, r); Times(v, s); Times(w, t); }
    }
    if v <= 0.0 && w <= 0.0 {
      assert v * s <= 0.0 && w * t <= 0.0;
      if u > 0.0 { Times(u, r); Times(-v, s); Times(-w, t); }
    }
  }

  lemma Times(s: real, t: real)
    ensures s > 0.0 && t > 0.0 ==> s * t > 0.0
    ensures s >= 0.0 && t >= 0.0 ==> s * t >= 0.0
    ensures -s * t == -(s * t)
  {
  }

  /** Off the lines through its edges, a counterclockwise triangle is answered exactly:
      inside means strictly left of all three. */
  lemma TriangleExact(a: Point, b: Point, c: Point, lon: real, lat: real)
    requires Side(a, b, lon, lat) + Side(b, c, lon, lat) + Side(c, a, lon, lat) > 0.0
    requires Side(a, b, lon, lat) != 0.0 && Side(b, c, lon, lat) != 0.0 && Side(c, a, lon, lat) != 0.0
    ensures Inside([a, b, c], lon, lat) <==>
            Side(a, b, lon, lat) > 0.0 && Side(b, c, lon, lat) > 0.0 && Side(c, a, lon, lat) > 0.0
  {
    if Side(a, b, lon, lat) > 0.0 && Side(b, c, lon, lat) > 0.0 && Side(c, a, lon, lat) > 0.0 {
      TriangleInterior(a, b, c, lon, lat);
    } else if Inside([a, b, c], lon, lat) {
      TriangleParity(a, b, c, lon, lat);
      RotationInvariant([a, b, c], 1, lon, lat);
      RotationInvariant([a, b, c], 2, lon, lat);
      assert [a, b, c][1..] + [a, b, c][..1] == [b, c, a];
      assert [a, b, c][2..] + [a, b, c][..2] == [c, a, b];
      hide Side, Inside;
      if (b.y > lat) == (c.y > lat) {
        ApexSides(a, b, c, lon, lat);
      } else if (c.y > lat) == (a.y > lat) {
        ApexSides(b, c, a, lon, lat);
      } else {
        ApexSides(c, a, b, lon, lat);
      }
    }
  }

  lemma SomeAboveSomeNot(a: Point, b: Point, c: Point, lon: real, lat: real)
    requires Side(a, b, lon, lat) > 0.0 && Side(b, c, lon, lat) > 0.0 && Side(c, a, lon, lat) > 0.0
    ensures a.y > lat || b.y > lat || c.y > lat
    ensures a.y <= lat || b.y <= lat || c.y <= lat
  {
    Barycentre(a, b, c, lon, lat);
    WeightedSigns(Side(b, c, lon, lat), Side(c, a, lon, lat), Side(a, b, lon, lat), a.y - lat, b.y - lat, c.y - lat);
  }

  lemma WeightedSigns(u: real, v: real, w: real, r: real, s: real, t: real)
    requires u > 0.0 && v > 0.0 && w > 0.0 && u * r + v * s + w * t == 0.0
    ensures r <= 0.0 || s <= 0.0 || t <= 0.0
    ensures r > 0.0 || s > 0.0 || t > 0.0 || (r == 0.0 && s == 0.0 && t == 0.0)
  {
    if r > 0.0 && s > 0.0 && t > 0.0 { PositiveSum(u, v, w, r, s, t); }
    if r <= 0.0 && s <= 0.0 && t <= 0.0 {
      assert u * r <= 0.0 && v * s <= 0.0 && w * t <= 0.0;
    }
  }

  lemma PositiveSum(u: real, v: real, w: real, r: real, s: real, t: real)
    requires u > 0.0 && v > 0.0 && w > 0.0 && r > 0.0 && s > 0.0 && t > 0.0
    ensures u * r + v * s + w * t > 0.0
  {
    assert u * r > 0.0 && v * s > 0.0 && w * t > 0.0;
  }
}
