/**
 * Vertices, faces and undirected edge keys of the geodesic sphere mesh.
 *
 * Coordinates are exact reals. The projection onto the sphere of radius r
 * (`normalize(v, r)`, which needs a square root) is not computed here: every
 * operation that needs it takes it as a parameter `normalize: Point -> Point`.
 */
module Geometry {

  /** A vertex position. */
  datatype Point = Point(x: real, y: real, z: real)

  /** A triangle given by three indices into the vertex sequence, in winding order. */
  datatype Face = Face(a: nat, b: nat, c: nat)

  /** A directed edge (i, j) between two vertex indices. */
  type Edge = (nat, nat)

  /** An undirected edge, written with the smaller index first. */
  type EdgeKey = k: (nat, nat) | k.0 <= k.1 witness (0, 0)

  /** The order-independent key of the edge between i and j. */
  function Key(i: nat, j: nat): (k: EdgeKey)
    ensures k == (i, j) || k == (j, i)
  {
    if i < j then (i, j) else (j, i)
  }

  /** The key of a directed edge. */
  function EdgeKeyOf(e: Edge): EdgeKey
  {
    Key(e.0, e.1)
  }

  /** Two index pairs have the same key exactly when they name the same pair of vertices. */
  lemma KeyCharacterization(i: nat, j: nat, p: nat, q: nat)
    ensures Key(i, j) == Key(p, q) <==> (i == p && j == q) || (i == q && j == p)
  {
  }

  /** The key does not depend on the direction of the edge. */
  lemma KeySymmetric(i: nat, j: nat)
    ensures Key(i, j) == Key(j, i)
  {
  }

  /** The three directed edges of a face, in the order the renderer walks them: ab, bc, ca. */
  function FaceEdges(f: Face): (es: seq<Edge>)
    ensures |es| == 3
  {
    [(f.a, f.b), (f.b, f.c), (f.c, f.a)]
  }

  /** Every index of face `f` is below `n`. */
  predicate ValidFace(f: Face, n: nat)
  {
    f.a < n && f.b < n && f.c < n
  }

  /** Every face of `fs` refers only to vertices below `n`. */
  predicate ValidFaces(fs: seq<Face>, n: nat)
  {
    forall i :: 0 <= i < |fs| ==> ValidFace(fs[i], n)
  }

  /** The componentwise mean of two points, before it is projected back onto the sphere. */
  function Average(p: Point, q: Point): (m: Point)
    ensures m.x - p.x == q.x - m.x && m.y - p.y == q.y - m.y && m.z - p.z == q.z - m.z
  {
    Point((p.x + q.x) / 2.0, (p.y + q.y) / 2.0, (p.z + q.z) / 2.0)
  }

  /** The midpoint vertex of an edge: the mean of its ends, projected onto the sphere. */
  function Midpoint(p: Point, q: Point, normalize: Point -> Point): Point
  {
    normalize(Average(p, q))
  }

  /** The squared Euclidean norm of a point. */
  function SquaredNorm(p: Point): real
  {
    p.x * p.x + p.y * p.y + p.z * p.z
  }

  /** A point lies on the sphere of radius r about the origin. */
  predicate OnSphere(p: Point, r: real)
  {
    SquaredNorm(p) == r * r
  }
}
