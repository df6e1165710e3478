/**
 * The game state: a geodesic sphere built once when the state is entered,
 * coloured land and sea, and drawn on every update turned a little further
 * about the y axis.
 *
 * The square root, the golden ratio, the sine and cosine of the rotation and
 * the random land centres come in as parameters: `normalize` projects a point
 * onto the sphere of radius `icosahedronRadius`, `t` is the golden ratio, and
 * `sin`/`cos` give the sine and cosine of an angle.
 */
module Game {
  import opened Geometry
  import opened Edges
  import opened Subdivision
  import opened Icosahedron
  import opened Biomes
  import opened Render

  /** One painted triangle: the face and its fill colour. */
  datatype Paint = Paint(face: Face, fill: string)

  /** What one update draws: the turned vertices, the faces back to front, and the wireframe edges. */
  datatype Frame = Frame(rotated: seq<Point>, order: seq<nat>, painted: seq<Paint>, wireframe: seq<Edge>)

  /** The fill colours of a mesh: one per face, by the land and sea rule. */
  function Fills(vs: seq<Point>, fs: seq<Face>, centers: seq<Point>, r: real): (fills: seq<string>)
    requires ValidFaces(fs, |vs|)
    ensures |fills| == |fs|
    ensures forall i :: 0 <= i < |fs| ==> fills[i] == Color(FaceColors(vs, fs, centers, r)[i])
  {
    var biomes := FaceColors(vs, fs, centers, r);
    seq(|fs|, i requires 0 <= i < |fs| => Color(biomes[i]))
  }

  /** The two fills are different colours, so a fill tells land from sea. */
  lemma ColorsDiffer()
    ensures Color(Land) != Color(Sea)
  {
    assert Color(Land)[1] != Color(Sea)[1];
  }

  class GameState {
    var icosahedronRadius: real
    var rotation: real
    var detail: nat
    var faceColors: seq<string>
    var rotationSpeed: real
    var landCenters: seq<Point>
    var numLandCenters: nat
    var vertices: seq<Point>
    var faces: seq<Face>
    var showWireframe: bool

    /** Every face refers to existing vertices and has a colour. */
    ghost predicate Valid()
      reads this
    {
      ValidFaces(faces, |vertices|) && |faceColors| == |faces|
    }

    /** The settings the game starts with, and no mesh yet. */
    constructor()
      ensures icosahedronRadius == 180.0 && rotation == 0.0 && detail == 3
      ensures rotationSpeed == 0.001 && numLandCenters == 7 && !showWireframe
      ensures faceColors == [] && landCenters == [] && vertices == [] && faces == []
      ensures Valid()
    {
      icosahedronRadius := 180.0;
      rotation := 0.0;
      detail := 3;
      faceColors := [];
      rotationSpeed := 0.001;
      landCenters := [];
      numLandCenters := 7;
      vertices := [];
      faces := [];
      showWireframe := false;
    }

    /** Entering the state resets the rotation and builds the mesh. */
    method OnEnter(t: real, normalize: Point -> Point, centers: seq<Point>)
      requires |centers| == numLandCenters
      modifies this
      ensures rotation == 0.0
      ensures (vertices, faces) == Subdivided(BaseVertices(t, normalize), BASE_FACES, detail, normalize)
      ensures |faces| == 20 * Pow4(detail)
      ensures landCenters == centers
      ensures faceColors == Fills(vertices, faces, centers, icosahedronRadius)
      ensures Valid()
      ensures icosahedronRadius == old(icosahedronRadius) && detail == old(detail)
      ensures rotationSpeed == old(rotationSpeed) && numLandCenters == old(numLandCenters)
      ensures showWireframe == old(showWireframe)
    {
      rotation := 0.0;
      SetupMesh(t, normalize, centers);
    }

    /**
     * Build the icosahedron, subdivide it `detail` times when `detail` is
     * positive, and colour the faces.
     */
    method SetupMesh(t: real, normalize: Point -> Point, centers: seq<Point>)
      requires |centers| == numLandCenters
      modifies this
      ensures (vertices, faces) == Subdivided(BaseVertices(t, normalize), BASE_FACES, detail, normalize)
      ensures |faces| == 20 * Pow4(detail)
      ensures landCenters == centers
      ensures faceColors == Fills(vertices, faces, centers, icosahedronRadius)
      ensures Valid()
      ensures icosahedronRadius == old(icosahedronRadius) && rotation == old(rotation) && detail == old(detail)
      ensures rotationSpeed == old(rotationSpeed) && numLandCenters == old(numLandCenters)
      ensures showWireframe == old(showWireframe)
    {
      var vs := BaseVertices(t, normalize);
      var fs := BASE_FACES;
      BaseMeshValid();
      if detail > 0 {
        vs, fs := Subdivide(vs, fs, detail, normalize);
      }
      vertices := vs;
      faces := fs;
      AssignLandSeaColors(centers);
    }

    /** Record the land centres and colour every face by them. */
    method AssignLandSeaColors(centers: seq<Point>)
      requires ValidFaces(faces, |vertices|)
      requires |centers| == numLandCenters
      modifies this
      ensures vertices == old(vertices) && faces == old(faces) && showWireframe == old(showWireframe)
      ensures icosahedronRadius == old(icosahedronRadius) && rotation == old(rotation) && detail == old(detail)
      ensures rotationSpeed == old(rotationSpeed) && numLandCenters == old(numLandCenters)
      ensures landCenters == centers
      ensures faceColors == Fills(vertices, faces, centers, icosahedronRadius)
      ensures Valid()
    {
      landCenters := centers;
      faceColors := Fills(vertices, faces, landCenters, icosahedronRadius);
    }

    /**
     * Advance the rotation and draw one frame: every face once, farthest
     * first, in its own colour, then, when the overlay is on, every
     * undirected edge once.
     */
    method OnUpdate(delta: real, sin: real -> real, cos: real -> real) returns (frame: Frame)
      requires Valid()
      modifies this
      ensures Valid()
      ensures icosahedronRadius == old(icosahedronRadius) && detail == old(detail)
      ensures faceColors == old(faceColors) && rotationSpeed == old(rotationSpeed)
      ensures landCenters == old(landCenters) && numLandCenters == old(numLandCenters)
      ensures vertices == old(vertices) && faces == old(faces) && showWireframe == old(showWireframe)
      ensures rotation == old(rotation) + rotationSpeed * delta
      ensures frame.rotated == RotateAll(vertices, sin(rotation), cos(rotation))
      ensures |frame.order| == |faces| && multiset(frame.order) == multiset(Range(|faces|))
      ensures forall i :: 0 <= i < |frame.order| ==> frame.order[i] < |faces|
      ensures forall i, j :: 0 <= i < j < |frame.order| ==>
        Depth(frame.rotated, faces[frame.order[i]]) > Depth(frame.rotated, faces[frame.order[j]]) ||
        (Depth(frame.rotated, faces[frame.order[i]]) == Depth(frame.rotated, faces[frame.order[j]]) &&
         frame.order[i] < frame.order[j])
      ensures |frame.painted| == |frame.order|
      ensures forall k :: 0 <= k < |frame.painted| ==>
        frame.painted[k] == Paint(faces[frame.order[k]], faceColors[frame.order[k]])
      ensures frame.wireframe == if showWireframe then UniqueEdges(faces) else []
    {
      rotation := rotation + rotationSpeed * delta;
      var rot := rotation;
      var rotated := RotateAll(vertices, sin(rot), cos(rot));
      var order := DrawOrder(rotated, faces);
      var painted: seq<Paint> := [];
      for k := 0 to |order|
        invariant |painted| == k
        invariant forall m :: 0 <= m < k ==> painted[m] == Paint(faces[order[m]], faceColors[order[m]])
      {
        var i := order[k];
        painted := painted + [Paint(faces[i], faceColors[i])];
      }
      var wireframe: seq<Edge> := [];
      if showWireframe {
        wireframe := WireframeEdges(faces);
      }
      frame := Frame(rotated, order, painted, wireframe);
    }
  }

  /**
   * When the projection puts every point on the sphere of radius r, every
   * vertex of the built mesh lies on it, at any detail.
   */
  lemma MeshOnSphere(t: real, normalize: Point -> Point, detail: nat, r: real)
    requires forall p :: OnSphere(normalize(p), r)
    ensures ValidFaces(BASE_FACES, |BaseVertices(t, normalize)|)
    ensures forall k :: 0 <= k < |Subdivided(BaseVertices(t, normalize), BASE_FACES, detail, normalize).0| ==>
      OnSphere(Subdivided(BaseVertices(t, normalize), BASE_FACES, detail, normalize).0[k], r)
  {
    BaseMeshValid();
    var vs := BaseVertices(t, normalize);
    assert forall k :: 0 <= k < |vs| ==> OnSphere(vs[k], r);
    SubdividedOnSphere(vs, BASE_FACES, detail, normalize, r);
  }
}
