/**
 * The base mesh: the twelve vertices and twenty faces of a regular
 * icosahedron, and the counts of the mesh after subdivision.
 */
module Icosahedron {
  import opened Geometry
  import opened Edges
  import opened Subdivision

  /**
   * The twelve corners, before projection onto the sphere: cyclic permutations
   * of (±1, ±t, 0), where t is the golden ratio (1 + sqrt 5) / 2.
   */
  function BaseCorners(t: real): (ps: seq<Point>)
    ensures |ps| == 12
  {
    [
      Point(-1.0, t, 0.0), Point(1.0, t, 0.0), Point(-1.0, -t, 0.0), Point(1.0, -t, 0.0),
      Point(0.0, -1.0, t), Point(0.0, 1.0, t), Point(0.0, -1.0, -t), Point(0.0, 1.0, -t),
      Point(t, 0.0, -1.0), Point(t, 0.0, 1.0), Point(-t, 0.0, -1.0), Point(-t, 0.0, 1.0)
    ]
  }

  /** The base vertices: each corner projected onto the sphere. */
  function BaseVertices(t: real, normalize: Point -> Point): (vs: seq<Point>)
    ensures |vs| == 12
    ensures forall k :: 0 <= k < 12 ==> vs[k] == normalize(BaseCorners(t)[k])
  {
    var corners := BaseCorners(t);
    seq(12, k requires 0 <= k < 12 => normalize(corners[k]))
  }

  /** The twenty faces of the icosahedron, as vertex-index triples. */
  const BASE_FACES: seq<Face> := [
    Face(0, 11, 5), Face(0, 5, 1), Face(0, 1, 7), Face(0, 7, 10), Face(0, 10, 11),
    Face(1, 5, 9), Face(5, 11, 4), Face(11, 10, 2), Face(10, 7, 6), Face(7, 1, 8),
    Face(3, 9, 4), Face(3, 4, 2), Face(3, 2, 6), Face(3, 6, 8), Face(3, 8, 9),
    Face(4, 9, 5), Face(2, 4, 11), Face(6, 2, 10), Face(8, 6, 7), Face(9, 8, 1)
  ]

  /** The thirty edges of the icosahedron, as keys in increasing order. */
  const BASE_EDGE_KEYS: seq<EdgeKey> := [
    (0, 1), (0, 5), (0, 7), (0, 10), (0, 11), (1, 5),
    (1, 7), (1, 8), (1, 9), (2, 3), (2, 4), (2, 6),
    (2, 10), (2, 11), (3, 4), (3, 6), (3, 8), (3, 9),
    (4, 5), (4, 9), (4, 11), (5, 9), (5, 11), (6, 7),
    (6, 8), (6, 10), (7, 8), (7, 10), (8, 9), (10, 11)
  ]

  /** The base mesh has twenty faces over twelve vertices. */
  lemma BaseMeshValid()
    ensures |BASE_FACES| == 20
    ensures ValidFaces(BASE_FACES, 12)
  {
  }

  /** The base faces have exactly the thirty listed undirected edges. */
  lemma BaseEdgesAre()
    ensures FaceKeys(BASE_FACES) == set k | k in BASE_EDGE_KEYS
  {
    BaseEdgesWithin();
    BaseEdgesAll();
  }

  lemma BaseEdgesWithin()
    ensures FaceKeys(BASE_FACES) <= set k | k in BASE_EDGE_KEYS
  {
    BaseFacesWithin(0, 10);
    BaseFacesWithin(10, 20);
    forall f | f in BASE_FACES ensures KeysOf(FaceEdges(f)) <= set k | k in BASE_EDGE_KEYS {
      var i :| 0 <= i < 20 && BASE_FACES[i] == f;
    }
  }

  /** The edges of base faces lo .. hi-1 are among the thirty listed keys. */
  lemma BaseFacesWithin(lo: nat, hi: nat)
    requires lo <= hi <= 20 && hi - lo <= 10
    ensures forall i :: lo <= i < hi ==> KeysOf(FaceEdges(BASE_FACES[i])) <= set k | k in BASE_EDGE_KEYS
  {
    forall i | lo <= i < hi ensures KeysOf(FaceEdges(BASE_FACES[i])) <= set k | k in BASE_EDGE_KEYS {
      FaceEdgeKeys(BASE_FACES[i]);
    }
  }

  lemma BaseEdgesAll()
    ensures (set k | k in BASE_EDGE_KEYS) <= FaceKeys(BASE_FACES)
  {
    BaseEdgesLow();
    BaseEdgesHigh();
    forall k | k in BASE_EDGE_KEYS ensures k in FaceKeys(BASE_FACES) {
    }
  }

  lemma BaseEdgesLow()
    ensures (0, 1) in FaceKeys(BASE_FACES) && (0, 5) in FaceKeys(BASE_FACES) && (0, 7) in FaceKeys(BASE_FACES) && (0, 10) in FaceKeys(BASE_FACES) && (0, 11) in FaceKeys(BASE_FACES)
    ensures (1, 5) in FaceKeys(BASE_FACES) && (1, 7) in FaceKeys(BASE_FACES) && (1, 8) in FaceKeys(BASE_FACES) && (1, 9) in FaceKeys(BASE_FACES) && (2, 3) in FaceKeys(BASE_FACES)
    ensures (2, 4) in FaceKeys(BASE_FACES) && (2, 6) in FaceKeys(BASE_FACES) && (2, 10) in FaceKeys(BASE_FACES) && (2, 11) in FaceKeys(BASE_FACES) && (3, 4) in FaceKeys(BASE_FACES)
  {
    FaceKeysInclude(BASE_FACES, Face(0, 5, 1));
    FaceKeysInclude(BASE_FACES, Face(0, 1, 7));
    FaceKeysInclude(BASE_FACES, Face(0, 10, 11));
    FaceKeysInclude(BASE_FACES, Face(11, 10, 2));
    FaceKeysInclude(BASE_FACES, Face(3, 4, 2));
    FaceKeysInclude(BASE_FACES, Face(3, 2, 6));
    FaceKeysInclude(BASE_FACES, Face(9, 8, 1));
  }

  lemma BaseEdgesHigh()
    ensures (3, 6) in FaceKeys(BASE_FACES) && (3, 8) in FaceKeys(BASE_FACES) && (3, 9) in FaceKeys(BASE_FACES) && (4, 5) in FaceKeys(BASE_FACES) && (4, 9) in FaceKeys(BASE_FACES)
    ensures (4, 11) in FaceKeys(BASE_FACES) && (5, 9) in FaceKeys(BASE_FACES) && (5, 11) in FaceKeys(BASE_FACES) && (6, 7) in FaceKeys(BASE_FACES) && (6, 8) in FaceKeys(BASE_FACES)
    ensures (6, 10) in FaceKeys(BASE_FACES) && (7, 8) in FaceKeys(BASE_FACES) && (7, 10) in FaceKeys(BASE_FACES) && (8, 9) in FaceKeys(BASE_FACES) && (10, 11) in FaceKeys(BASE_FACES)
  {
    FaceKeysInclude(BASE_FACES, Face(0, 10, 11));
    FaceKeysInclude(BASE_FACES, Face(1, 5, 9));
    FaceKeysInclude(BASE_FACES, Face(5, 11, 4));
    FaceKeysInclude(BASE_FACES, Face(10, 7, 6));
    FaceKeysInclude(BASE_FACES, Face(7, 1, 8));
    FaceKeysInclude(BASE_FACES, Face(3, 9, 4));
    FaceKeysInclude(BASE_FACES, Face(3, 6, 8));
    FaceKeysInclude(BASE_FACES, Face(3, 8, 9));
  }

  /** The keys of a face of the list are among the keys of the list. */
  lemma FaceKeysInclude(fs: seq<Face>, f: Face)
    requires f in fs
    ensures Key(f.a, f.b) in FaceKeys(fs) && Key(f.b, f.c) in FaceKeys(fs) && Key(f.c, f.a) in FaceKeys(fs)
  {
    FaceEdgeKeys(f);
  }

  /** Lexicographic order on edge keys. */
  predicate KeyLess(p: EdgeKey, q: EdgeKey)
  {
    p.0 < q.0 || (p.0 == q.0 && p.1 < q.1)
  }

  /** A strictly increasing sequence of keys has as many distinct keys as entries. */
  lemma {:induction false} IncreasingKeysCard(ks: seq<EdgeKey>)
    requires forall i :: 0 <= i < |ks| - 1 ==> KeyLess(ks[i], ks[i + 1])
    ensures forall i :: 0 < i < |ks| ==> KeyLess(ks[0], ks[i])
    ensures |set k | k in ks| == |ks|
  {
    if ks != [] {
      var tail := ks[1..];
      IncreasingKeysCard(tail);
      forall i | 1 < i < |ks| ensures KeyLess(ks[0], ks[i]) {
        assert ks[i] == tail[i - 1];
      }
      assert (set k | k in ks) == {ks[0]} + (set k | k in tail);
      assert ks[0] !in (set k | k in tail);
    }
  }

  /** The icosahedron has thirty distinct undirected edges. */
  lemma BaseEdgeCount()
    ensures |FaceKeys(BASE_FACES)| == 30
    ensures |UniqueEdges(BASE_FACES)| == 30
  {
    BaseEdgesAre();
    IncreasingKeysCard(BASE_EDGE_KEYS);
    UniqueEdgesCount(BASE_FACES);
  }

  /** One pass over the icosahedron gives 12 + 30 = 42 vertices and 4 * 20 = 80 faces. */
  lemma OnePassCounts(t: real, normalize: Point -> Point)
    ensures ValidFaces(BASE_FACES, |BaseVertices(t, normalize)|)
    ensures |Pass(BaseVertices(t, normalize), BASE_FACES, normalize).0| == 42
    ensures |Pass(BaseVertices(t, normalize), BASE_FACES, normalize).1| == 80
  {
    BaseEdgeCount();
    PassShape(BaseVertices(t, normalize), BASE_FACES, normalize);
  }

  /** After `detail` passes the sphere has 20 * 4^detail faces. */
  lemma FaceCount(t: real, normalize: Point -> Point, detail: nat)
    ensures ValidFaces(BASE_FACES, |BaseVertices(t, normalize)|)
    ensures |Subdivided(BaseVertices(t, normalize), BASE_FACES, detail, normalize).1| == 20 * Pow4(detail)
  {
  }
}
