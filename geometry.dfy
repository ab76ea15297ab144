/** Points of the ground plane and the formulas that MapObject computes over a vertex list. */
module Geometry {

  /** A point of the ground plane, with the source's coordinate names x and z. */
  datatype Vertex2d = Vertex2d(x: real, z: real)

  const Origin: Vertex2d := Vertex2d(0.0, 0.0)

  function Plus(a: Vertex2d, b: Vertex2d): Vertex2d {
    Vertex2d(a.x + b.x, a.z + b.z)
  }

  function Abs(r: real): real {
    if r < 0.0 then -r else r
  }

  /** The z-component of the cross product of a and b, one term of the shoelace sum. */
  function Cross(a: Vertex2d, b: Vertex2d): real {
    a.x * b.z - b.x * a.z
  }

  /** Every vertex of vs moved by d. */
  function Translate(vs: seq<Vertex2d>, d: Vertex2d): seq<Vertex2d> {
    seq(|vs|, i requires 0 <= i < |vs| => Plus(vs[i], d))
  }

  /** Sum of Cross(vs[i], vs[i + 1]) for i from 0 to |vs| - 2: consecutive pairs only,
      with no closing term from the last vertex back to the first. */
  function OpenCrossSum(vs: seq<Vertex2d>): real
    decreases |vs|
  {
    if |vs| < 2 then 0.0
    else OpenCrossSum(vs[..|vs| - 1]) + Cross(vs[|vs| - 2], vs[|vs| - 1])
  }

  /** The quantity MapObject.area() returns: half the magnitude of the open cross sum. */
  function OpenShoelaceArea(vs: seq<Vertex2d>): real {
    Abs(OpenCrossSum(vs)) / 2.0
  }

  /** The area of the polygon vs by the shoelace formula, closing edge included. */
  function ShoelaceArea(vs: seq<Vertex2d>): real {
    if |vs| == 0 then 0.0
    else Abs(OpenCrossSum(vs) + Cross(vs[|vs| - 1], vs[0])) / 2.0
  }

  function SumX(vs: seq<Vertex2d>): real
    decreases |vs|
  {
    if |vs| == 0 then 0.0 else SumX(vs[..|vs| - 1]) + vs[|vs| - 1].x
  }

  function SumZ(vs: seq<Vertex2d>): real
    decreases |vs|
  {
    if |vs| == 0 then 0.0 else SumZ(vs[..|vs| - 1]) + vs[|vs| - 1].z
  }

  /** The arithmetic mean of the vertices; the origin for an empty list. */
  function Centroid(vs: seq<Vertex2d>): Vertex2d {
    if |vs| == 0 then Origin
    else Vertex2d(SumX(vs) / (|vs| as real), SumZ(vs) / (|vs| as real))
  }

  /** The placeholder outline of a fresh District: three copies of one point. */
  function Degenerate(v: Vertex2d): seq<Vertex2d> {
    [v, v, v]
  }

  /** The outline of a Building: the axis-aligned unit square centred on c, listed
      lower-left, upper-left, upper-right, lower-right. */
  function UnitSquare(c: Vertex2d): seq<Vertex2d> {
    [Vertex2d(c.x - 0.5, c.z - 0.5), Vertex2d(c.x - 0.5, c.z + 0.5),
     Vertex2d(c.x + 0.5, c.z + 0.5), Vertex2d(c.x + 0.5, c.z - 0.5)]
  }

  /** Moving every vertex by d moves each coordinate sum by |vs| times d. */
  lemma {:induction false} SumsTranslate(vs: seq<Vertex2d>, d: Vertex2d)
    ensures SumX(Translate(vs, d)) == SumX(vs) + (|vs| as real) * d.x
    ensures SumZ(Translate(vs, d)) == SumZ(vs) + (|vs| as real) * d.z
  {
    if |vs| > 0 {
      var init := vs[..|vs| - 1];
      assert Translate(vs, d)[..|vs| - 1] == Translate(init, d);
      SumsTranslate(init, d);
    }
  }

  /** The centroid moves with the polygon. */
  lemma CentroidTranslate(vs: seq<Vertex2d>, d: Vertex2d)
    requires |vs| > 0
    ensures Centroid(Translate(vs, d)) == Plus(Centroid(vs), d)
  {
    SumsTranslate(vs, d);
    var n := |vs| as real;
    DivideShifted(SumX(vs), n, d.x);
    DivideShifted(SumZ(vs), n, d.z);
  }

  lemma DivideShifted(s: real, n: real, a: real)
    requires n > 0.0
    ensures (s + n * a) / n == s / n + a
  {
    var q := s / n;
    assert q * n == s;
    assert (q + a) * n == s + n * a;
  }

  /** Appending a vertex adds its coordinates to the sums and its cross term to the open sum. */
  lemma SumsSnoc(vs: seq<Vertex2d>, v: Vertex2d)
    ensures SumX(vs + [v]) == SumX(vs) + v.x
    ensures SumZ(vs + [v]) == SumZ(vs) + v.z
    ensures |vs| > 0 ==> OpenCrossSum(vs + [v]) == OpenCrossSum(vs) + Cross(vs[|vs| - 1], v)
  {
    assert (vs + [v])[..|vs|] == vs;
  }

  /** The centroid of a degenerate outline is its one point, and its area is zero. */
  lemma DegenerateShape(v: Vertex2d)
    ensures |Degenerate(v)| == 3
    ensures Centroid(Degenerate(v)) == v
    ensures OpenShoelaceArea(Degenerate(v)) == 0.0
    ensures ShoelaceArea(Degenerate(v)) == 0.0
  {
    SumsSnoc([], v);
    SumsSnoc([v], v);
    SumsSnoc([v, v], v);
    assert [v] + [v] == [v, v] && [v, v] + [v] == Degenerate(v);
    assert Cross(v, v) == 0.0;
  }

  /** The unit square is centred on its centre and has area 1. */
  lemma UnitSquareShape(c: Vertex2d)
    ensures |UnitSquare(c)| == 4
    ensures Centroid(UnitSquare(c)) == c
    ensures ShoelaceArea(UnitSquare(c)) == 1.0
  {
    var vs := UnitSquare(c);
    SumsSnoc([], vs[0]);
    SumsSnoc(vs[..1], vs[1]);
    SumsSnoc(vs[..2], vs[2]);
    SumsSnoc(vs[..3], vs[3]);
    assert [] + [vs[0]] == vs[..1] && vs[..1] + [vs[1]] == vs[..2];
    assert vs[..2] + [vs[2]] == vs[..3] && vs[..3] + [vs[3]] == vs;
    UnitSquareCrossSum(c);
    assert Cross(vs[3], vs[0]) == c.z - 0.5;
  }

  lemma UnitSquareCrossSum(c: Vertex2d)
    ensures OpenCrossSum(UnitSquare(c)) == -c.z - 1.5
  {
    var vs := UnitSquare(c);
    SumsSnoc(vs[..1], vs[1]);
    SumsSnoc(vs[..2], vs[2]);
    SumsSnoc(vs[..3], vs[3]);
    assert vs[..1] + [vs[1]] == vs[..2] && vs[..2] + [vs[2]] == vs[..3] && vs[..3] + [vs[3]] == vs;
    assert Cross(vs[0], vs[1]) == c.x - 0.5;
    assert Cross(vs[1], vs[2]) == -c.z - 0.5;
    assert Cross(vs[2], vs[3]) == -c.x - 0.5;
  }

  /** Cross product of two translated points, expanded. */
  lemma CrossTranslate(a: Vertex2d, b: Vertex2d, d: Vertex2d)
    ensures Cross(Plus(a, d), Plus(b, d)) == Cross(a, b) + Cross(d, b) - Cross(d, a)
  {
  }

  /** Translating the polygon changes the open sum by a telescoped term that depends on
      its first and last vertex only. */
  lemma {:induction false} OpenCrossSumTranslate(vs: seq<Vertex2d>, d: Vertex2d)
    requires |vs| > 0
    ensures OpenCrossSum(Translate(vs, d))
            == OpenCrossSum(vs) + Cross(d, vs[|vs| - 1]) - Cross(d, vs[0])
  {
    if |vs| >= 2 {
      var init := vs[..|vs| - 1];
      assert Translate(vs, d)[..|vs| - 1] == Translate(init, d);
      OpenCrossSumTranslate(init, d);
      CrossTranslate(vs[|vs| - 2], vs[|vs| - 1], d);
    }
  }

  /** The shoelace area, closing edge included, does not depend on where the polygon is. */
  lemma ShoelaceTranslationInvariant(vs: seq<Vertex2d>, d: Vertex2d)
    ensures ShoelaceArea(Translate(vs, d)) == ShoelaceArea(vs)
  {
    if |vs| > 0 {
      OpenCrossSumTranslate(vs, d);
      CrossTranslate(vs[|vs| - 1], vs[0], d);
    }
  }

  /** As written, area() of a unit square depends on where the square lies: it is
      |z + 1.5| / 2 for the square centred on (x, z), whatever x is. */
  lemma OpenAreaOfUnitSquare(c: Vertex2d)
    ensures OpenShoelaceArea(UnitSquare(c)) == Abs(c.z + 1.5) / 2.0
  {
    UnitSquareCrossSum(c);
  }

  /** A concrete witness: the unit square centred on the origin has area 1, but the
      open sum gives 0.75. */
  lemma OpenAreaMissesClosingEdge()
    ensures OpenShoelaceArea(UnitSquare(Origin)) == 0.75
    ensures ShoelaceArea(UnitSquare(Origin)) == 1.0
  {
    OpenAreaOfUnitSquare(Origin);
    UnitSquareShape(Origin);
  }
}
