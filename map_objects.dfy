/** The objects drawn on the map: Districts (folders) and Buildings (files), and the two
    measurements every map object offers over its vertex list. */
module MapObjects {
  import opened Geometry

  /** A file. Nothing in the layout changes a Building once it is made, so it is a value;
      giving a name a new Building replaces the whole value. */
  datatype Building = Building(name: string, vertices: seq<Vertex2d>, force: Vertex2d, height: real)

  /** The Building constructor: the given outline and height, and no force yet. */
  function NewBuilding(name: string, vertices: seq<Vertex2d>, height: real): Building {
    Building(name, vertices, Origin, height)
  }

  /** What a District's children dictionary holds under a name. */
  datatype Child = DistrictNode(district: District) | BuildingNode(building: Building)

  /** The names a plain JavaScript object such as a children dictionary answers without
      holding them: the properties of Object.prototype. A lookup of one of these that
      the dictionary does not hold itself finds a function (or, for "__proto__", the
      prototype object), never undefined. */
  const InheritedKeys: set<string> := {
    "constructor", "hasOwnProperty", "isPrototypeOf", "propertyIsEnumerable",
    "toLocaleString", "toString", "valueOf", "__defineGetter__", "__defineSetter__",
    "__lookupGetter__", "__lookupSetter__", "__proto__"}

  /** The one key whose assignment on a plain object replaces its prototype instead of
      storing an entry. */
  const PrototypeKey: string := "__proto__"

  /** A folder. Its children dictionary is updated in place while files are added; its
      name, outline and force are set by the constructor and never reassigned. */
  class District {
    const name: string
    const vertices: seq<Vertex2d>
    const force: Vertex2d
    var children: map<string, Child>

    /** A District at (x, z) whose outline is three copies of that point, with no
        children and no force. */
    constructor (name: string, x: real, z: real)
      ensures this.name == name
      ensures vertices == Degenerate(Vertex2d(x, z))
      ensures force == Origin
      ensures children == map[]
    {
      this.name := name;
      this.vertices := [Vertex2d(x, z), Vertex2d(x, z), Vertex2d(x, z)];
      this.force := Origin;
      this.children := map[];
    }
  }

  /** The loop of MapObject.area(): the cross products of consecutive vertices summed,
      up to the last pair. */
  method SumCrossProducts(vertices: seq<Vertex2d>) returns (outer: real)
    ensures outer == OpenCrossSum(vertices)
  {
    outer := 0.0;
    var i := 0;
    while i < |vertices| - 1
      invariant 0 <= i
      invariant |vertices| > 0 ==> i < |vertices| && outer == OpenCrossSum(vertices[..i + 1])
      invariant |vertices| == 0 ==> outer == 0.0
    {
      assert vertices[..i + 2][..i + 1] == vertices[..i + 1];
      outer := outer + (vertices[i].x * vertices[i + 1].z - vertices[i + 1].x * vertices[i].z);
      i := i + 1;
    }
    if |vertices| > 0 {
      assert vertices[..i + 1] == vertices;
    }
  }

  /** MapObject.area() of an object with these vertices: the open sum, halved, as a
      magnitude. */
  method Area(vertices: seq<Vertex2d>) returns (area: real)
    ensures area == OpenShoelaceArea(vertices)
    ensures area >= 0.0
  {
    var outer := SumCrossProducts(vertices);
    area := Abs(outer) / 2.0;
  }

  /** The area the polygon encloses: area() with the term from the last vertex back to
      the first added before halving. */
  method PolygonArea(vertices: seq<Vertex2d>) returns (area: real)
    ensures area == ShoelaceArea(vertices)
    ensures area >= 0.0
  {
    var outer := SumCrossProducts(vertices);
    if |vertices| > 0 {
      var last := vertices[|vertices| - 1];
      outer := outer + (last.x * vertices[0].z - vertices[0].x * last.z);
    }
    area := Abs(outer) / 2.0;
  }

  /** MapObject.barycenter() of an object with these vertices: each coordinate of each
      vertex divided by the vertex count and summed, which is the mean vertex; the
      origin when there are no vertices. */
  method Barycenter(vertices: seq<Vertex2d>) returns (center: Vertex2d)
    ensures center == Centroid(vertices)
  {
    var x := 0.0;
    var z := 0.0;
    var n := |vertices|;
    var i := 0;
    while i < n
      invariant 0 <= i <= n
      invariant n > 0 ==> x == SumX(vertices[..i]) / (n as real)
      invariant n > 0 ==> z == SumZ(vertices[..i]) / (n as real)
      invariant n == 0 ==> x == 0.0 && z == 0.0
    {
      assert vertices[..i + 1][..i] == vertices[..i];
      SplitQuotient(SumX(vertices[..i]), vertices[i].x, n as real);
      SplitQuotient(SumZ(vertices[..i]), vertices[i].z, n as real);
      x := x + vertices[i].x / (n as real);
      z := z + vertices[i].z / (n as real);
      i := i + 1;
    }
    assert vertices[..i] == vertices;
    center := Vertex2d(x, z);
  }

  lemma SplitQuotient(s: real, a: real, n: real)
    requires n > 0.0
    ensures (s + a) / n == s / n + a / n
  {
  }

  /** A fresh District has three vertices, all at its position, so area() is 0 and
      barycenter() is that position. */
  lemma FreshDistrictShape(x: real, z: real)
    ensures |Degenerate(Vertex2d(x, z))| == 3
    ensures forall i :: 0 <= i < 3 ==> Degenerate(Vertex2d(x, z))[i] == Vertex2d(x, z)
    ensures OpenShoelaceArea(Degenerate(Vertex2d(x, z))) == 0.0
    ensures Centroid(Degenerate(Vertex2d(x, z))) == Vertex2d(x, z)
  {
    DegenerateShape(Vertex2d(x, z));
  }

  /** The Building addBuilding places at offset c: four vertices, the unit square
      around c, height 1, no force; barycenter() is c and the polygon's true area is 1. */
  lemma PlacedBuildingShape(name: string, c: Vertex2d)
    ensures NewBuilding(name, UnitSquare(c), 1.0).name == name
    ensures NewBuilding(name, UnitSquare(c), 1.0).height == 1.0
    ensures NewBuilding(name, UnitSquare(c), 1.0).force == Origin
    ensures |NewBuilding(name, UnitSquare(c), 1.0).vertices| == 4
    ensures Centroid(NewBuilding(name, UnitSquare(c), 1.0).vertices) == c
    ensures ShoelaceArea(NewBuilding(name, UnitSquare(c), 1.0).vertices) == 1.0
  {
    UnitSquareShape(c);
  }
}
