/**
 * Subdivision of a triangle mesh: every pass replaces each face (a, b, c) by
 * four faces built from the midpoints ab, bc, ca of its edges. Midpoint
 * vertices are appended to the vertex sequence and shared between the faces
 * of a pass through a cache keyed by the undirected edge.
 */
module Subdivision {
  import opened Geometry
  import opened Edges

  /** Every edge of `u` joins two vertices below `n`. */
  predicate EndpointsBelow(u: seq<Edge>, n: nat)
  {
    forall e :: e in u ==> e.0 < n && e.1 < n
  }

  /** The vertices a pass appends: the midpoint of each edge of `u`, in order. */
  function MidVertices(vs: seq<Point>, u: seq<Edge>, normalize: Point -> Point): (m: seq<Point>)
    requires EndpointsBelow(u, |vs|)
    ensures |m| == |u|
    ensures forall k :: 0 <= k < |u| ==> m[k] == Midpoint(vs[u[k].0], vs[u[k].1], normalize)
  {
    if u == [] then []
    else
      var e := u[|u| - 1];
      MidVertices(vs, u[..|u| - 1], normalize) + [Midpoint(vs[e.0], vs[e.1], normalize)]
  }

  /** The midpoint cache after the edges of `u` were met, when the pass started with `base` vertices. */
  function MidCache(u: seq<Edge>, base: nat): map<EdgeKey, nat>
  {
    if u == [] then map[]
    else MidCache(u[..|u| - 1], base)[EdgeKeyOf(u[|u| - 1]) := base + |u| - 1]
  }

  /** The cache holds the midpoints of all three edges of every face of `fs`. */
  predicate CacheCovers(cache: map<EdgeKey, nat>, fs: seq<Face>)
  {
    forall i :: 0 <= i < |fs| ==>
      Key(fs[i].a, fs[i].b) in cache && Key(fs[i].b, fs[i].c) in cache && Key(fs[i].c, fs[i].a) in cache
  }

  /** The four faces that replace face `f`: three corners and the central triangle. */
  function Children(f: Face, cache: map<EdgeKey, nat>): seq<Face>
    requires Key(f.a, f.b) in cache && Key(f.b, f.c) in cache && Key(f.c, f.a) in cache
  {
    var ab, bc, ca := cache[Key(f.a, f.b)], cache[Key(f.b, f.c)], cache[Key(f.c, f.a)];
    [Face(f.a, ab, ca), Face(f.b, bc, ab), Face(f.c, ca, bc), Face(ab, bc, ca)]
  }

  /** The faces a pass produces: the children of each face, in the order of the faces. */
  function PassFaces(fs: seq<Face>, cache: map<EdgeKey, nat>): seq<Face>
    requires CacheCovers(cache, fs)
  {
    if fs == [] then []
    else PassFaces(fs[..|fs| - 1], cache) + Children(fs[|fs| - 1], cache)
  }

  /** The vertices and faces after one subdivision pass over (vs, fs). */
  function Pass(vs: seq<Point>, fs: seq<Face>, normalize: Point -> Point): (seq<Point>, seq<Face>)
    requires ValidFaces(fs, |vs|)
  {
    PassWellFormed(fs, |vs|);
    var u := UniqueEdges(fs);
    (vs + MidVertices(vs, u, normalize), PassFaces(fs, MidCache(u, |vs|)))
  }

  /** A pass over valid faces only reads valid vertices and only looks up cached edges. */
  lemma PassWellFormed(fs: seq<Face>, n: nat)
    requires ValidFaces(fs, n)
    ensures EndpointsBelow(UniqueEdges(fs), n)
    ensures CacheCovers(MidCache(UniqueEdges(fs), n), fs)
  {
    var u := UniqueEdges(fs);
    UniqueEdgesEndpoints(fs, n);
    UniqueEdgesKeys(fs);
    MidCacheFacts(u, n);
    FaceKeysCovered(fs, MidCache(u, n));
  }

  /** 4^d */
  function Pow4(d: nat): (p: nat)
    ensures p >= 1
  {
    if d == 0 then 1 else 4 * Pow4(d - 1)
  }

  /** The mesh after `detail` subdivision passes. */
  function Subdivided(vs: seq<Point>, fs: seq<Face>, detail: nat, normalize: Point -> Point): (r: (seq<Point>, seq<Face>))
    requires ValidFaces(fs, |vs|)
    ensures ValidFaces(r.1, |r.0|)
    ensures |r.1| == |fs| * Pow4(detail)
    ensures |vs| <= |r.0| && r.0[..|vs|] == vs
    decreases detail
  {
    if detail == 0 then (vs, fs)
    else
      var prev := Subdivided(vs, fs, detail - 1, normalize);
      PassExtends(vs, fs, detail, prev.0, prev.1, normalize);
      Pass(prev.0, prev.1, normalize)
  }

  /** One more pass keeps the faces valid, multiplies the face count by four and keeps the old vertices. */
  lemma PassExtends(vs: seq<Point>, fs: seq<Face>, detail: nat, pv: seq<Point>, pf: seq<Face>, normalize: Point -> Point)
    requires detail > 0
    requires ValidFaces(pf, |pv|) && |pf| == |fs| * Pow4(detail - 1)
    requires |vs| <= |pv| && pv[..|vs|] == vs
    ensures ValidFaces(Pass(pv, pf, normalize).1, |Pass(pv, pf, normalize).0|)
    ensures |Pass(pv, pf, normalize).1| == |fs| * Pow4(detail)
    ensures |vs| <= |Pass(pv, pf, normalize).0| && Pass(pv, pf, normalize).0[..|vs|] == vs
  {
    PassShape(pv, pf, normalize);
    var next := Pass(pv, pf, normalize).0;
    assert next[..|vs|] == next[..|pv|][..|vs|];
    Pow4Times(|fs|, detail);
  }

  lemma Pow4Times(n: nat, d: nat)
    requires d > 0
    ensures n * Pow4(d) == 4 * (n * Pow4(d - 1))
  {
    calc {
      n * Pow4(d);
      n * (4 * Pow4(d - 1));
      4 * (n * Pow4(d - 1));
    }
  }

  // ---------------------------------------------------------------------------
  // The imperative pass, as the game runs it.

  /**
   * Look up or create the midpoint vertex of the edge (a, b). A cached edge,
   * in either direction, returns its vertex and changes nothing; a new edge
   * appends its midpoint and records its index under the edge's key.
   */
  method GetMid(vertices: seq<Point>, midCache: map<EdgeKey, nat>, a: nat, b: nat, normalize: Point -> Point)
    returns (vertices': seq<Point>, midCache': map<EdgeKey, nat>, m: nat)
    requires a < |vertices| && b < |vertices|
    ensures Key(a, b) in midCache ==> vertices' == vertices && midCache' == midCache && m == midCache[Key(a, b)]
    ensures Key(a, b) !in midCache ==>
      && vertices' == vertices + [Midpoint(vertices[a], vertices[b], normalize)]
      && m == |vertices|
      && midCache' == midCache[Key(a, b) := m]
    ensures Key(a, b) in midCache' && Key(b, a) in midCache' && midCache'[Key(b, a)] == m
    ensures vertices <= vertices'
  {
    var k := Key(a, b);
    vertices', midCache' := vertices, midCache;
    if k !in midCache {
      var mid := Midpoint(vertices[a], vertices[b], normalize);
      vertices' := vertices' + [mid];
      midCache' := midCache'[k := |vertices'| - 1];
    }
    m := midCache'[k];
  }

  /**
   * The state of a pass after the edges `d` were met: the appended vertices are
   * their midpoints, in order, and the cache maps each of them to its vertex.
   */
  ghost predicate PassState(vs: seq<Point>, d: seq<Edge>, vertices: seq<Point>, cache: map<EdgeKey, nat>, normalize: Point -> Point)
  {
    && DistinctKeys(d)
    && EndpointsBelow(d, |vs|)
    && vertices == vs + MidVertices(vs, d, normalize)
    && cache == MidCache(d, |vs|)
  }

  /** One subdivision pass with a fresh midpoint cache. */
  method SubdividePass(vs: seq<Point>, fs: seq<Face>, normalize: Point -> Point)
    returns (vertices: seq<Point>, faces: seq<Face>)
    requires ValidFaces(fs, |vs|)
    ensures (vertices, faces) == Pass(vs, fs, normalize)
    ensures |faces| == 4 * |fs|
    ensures |vertices| == |vs| + |FaceKeys(fs)| && vertices[..|vs|] == vs
    ensures ValidFaces(faces, |vertices|)
  {
    var newFaces: seq<Face> := [];
    var midCache: map<EdgeKey, nat> := map[];
    vertices := vs;
    for i := 0 to |fs|
      invariant PassState(vs, UniqueEdges(fs[..i]), vertices, midCache, normalize)
      invariant CacheCovers(midCache, fs[..i])
      invariant newFaces == PassFaces(fs[..i], midCache)
    {
      ghost var d0, before := UniqueEdges(fs[..i]), midCache;
      var Face(a, b, c) := fs[i];
      assert ValidFace(fs[i], |vs|);
      var ab, bc, ca;
      ghost var v0 := vertices;
      vertices, midCache, ab := GetMid(vertices, midCache, a, b, normalize);
      ghost var d1 := Visit(d0, (a, b));
      GetMidStep(vs, d0, v0, before, a, b, normalize, vertices, midCache, ab);
      ghost var v1, c1 := vertices, midCache;
      vertices, midCache, bc := GetMid(vertices, midCache, b, c, normalize);
      ghost var d2 := Visit(d1, (b, c));
      GetMidStep(vs, d1, v1, c1, b, c, normalize, vertices, midCache, bc);
      ghost var v2, c2 := vertices, midCache;
      vertices, midCache, ca := GetMid(vertices, midCache, c, a, normalize);
      GetMidStep(vs, d2, v2, c2, c, a, normalize, vertices, midCache, ca);
      newFaces := newFaces + [Face(a, ab, ca), Face(b, bc, ab), Face(c, ca, bc), Face(ab, bc, ca)];

      VisitAllThree(d0, fs[i]);
      UniqueEdgesSnoc(fs, i);
      PassFacesAgree(fs[..i], before, midCache);
      CacheCoversSnoc(fs, i, midCache);
      PassFacesSnoc(fs, i, midCache);
    }
    assert fs[..|fs|] == fs;
    faces := newFaces;
    PassShape(vs, fs, normalize);
  }

  /** GetMid on edge (a, b) moves the pass state from the edges `d` to the edges `d` then (a, b). */
  lemma GetMidStep(vs: seq<Point>, d: seq<Edge>, vertices: seq<Point>, cache: map<EdgeKey, nat>,
                   a: nat, b: nat, normalize: Point -> Point,
                   vertices': seq<Point>, cache': map<EdgeKey, nat>, m: nat)
    requires PassState(vs, d, vertices, cache, normalize) && a < |vs| && b < |vs|
    requires Key(a, b) in cache ==> vertices' == vertices && cache' == cache && m == cache[Key(a, b)]
    requires Key(a, b) !in cache ==>
      && vertices' == vertices + [Midpoint(vertices[a], vertices[b], normalize)]
      && m == |vertices|
      && cache' == cache[Key(a, b) := m]
    ensures PassState(vs, Visit(d, (a, b)), vertices', cache', normalize)
    ensures Key(a, b) in cache' && cache'[Key(a, b)] == m
    ensures forall k :: k in cache ==> k in cache' && cache'[k] == cache[k]
  {
    if Key(a, b) in cache {
      GetMidCached(vs, d, vertices, cache, a, b, normalize);
    } else {
      GetMidFresh(vs, d, vertices, cache, a, b, normalize);
    }
  }

  /** A cached edge was met before: the edge list and the pass state stay as they are. */
  lemma GetMidCached(vs: seq<Point>, d: seq<Edge>, vertices: seq<Point>, cache: map<EdgeKey, nat>,
                     a: nat, b: nat, normalize: Point -> Point)
    requires PassState(vs, d, vertices, cache, normalize) && Key(a, b) in cache
    ensures Visit(d, (a, b)) == d
  {
    MidCacheKeys(d, |vs|);
  }

  /** A new edge is appended to the edge list, its midpoint to the vertices and its index to the cache. */
  lemma GetMidFresh(vs: seq<Point>, d: seq<Edge>, vertices: seq<Point>, cache: map<EdgeKey, nat>,
                    a: nat, b: nat, normalize: Point -> Point)
    requires PassState(vs, d, vertices, cache, normalize) && a < |vs| && b < |vs| && Key(a, b) !in cache
    ensures PassState(vs, Visit(d, (a, b)), vertices + [Midpoint(vertices[a], vertices[b], normalize)],
                      cache[Key(a, b) := |vertices|], normalize)
  {
    var d', mid := Visit(d, (a, b)), Midpoint(vs[a], vs[b], normalize);
    var m := MidVertices(vs, d, normalize);
    assert EdgeKeyOf((a, b)) !in KeysOf(d) by {
      MidCacheKeys(d, |vs|);
    }
    assert DistinctKeys(d') by {
      VisitFacts(d, (a, b));
    }
    var n := |vs|;
    assert d' == d + [(a, b)];
    EndpointsAppend(d, (a, b), n);
    MidVerticesAppend(vs, d, (a, b), normalize);
    CacheAppend(d, (a, b), n);
    assert vertices[a] == vs[a] && vertices[b] == vs[b];
    assert vertices + [mid] == vs + (m + [mid]);
    assert |vertices| == |vs| + |d|;
  }

  lemma CacheCoversSnoc(fs: seq<Face>, i: nat, cache: map<EdgeKey, nat>)
    requires i < |fs| && CacheCovers(cache, fs[..i])
    requires Key(fs[i].a, fs[i].b) in cache && Key(fs[i].b, fs[i].c) in cache && Key(fs[i].c, fs[i].a) in cache
    ensures CacheCovers(cache, fs[..i + 1])
  {
    var g := fs[..i + 1];
    forall j | 0 <= j < |g|
      ensures Key(g[j].a, g[j].b) in cache && Key(g[j].b, g[j].c) in cache && Key(g[j].c, g[j].a) in cache
    {
      if j < i {
        assert g[j] == fs[..i][j];
      }
    }
  }

  lemma PassFacesSnoc(fs: seq<Face>, i: nat, cache: map<EdgeKey, nat>)
    requires i < |fs| && CacheCovers(cache, fs[..i + 1])
    ensures CacheCovers(cache, fs[..i])
    ensures PassFaces(fs[..i + 1], cache) == PassFaces(fs[..i], cache) + Children(fs[i], cache)
  {
    assert fs[..i + 1][..i] == fs[..i];
  }

  /** `detail` subdivision passes, each with its own cache; faces are replaced, vertices appended. */
  method Subdivide(vs: seq<Point>, fs: seq<Face>, detail: nat, normalize: Point -> Point)
    returns (vertices: seq<Point>, faces: seq<Face>)
    requires ValidFaces(fs, |vs|)
    ensures (vertices, faces) == Subdivided(vs, fs, detail, normalize)
    ensures |faces| == |fs| * Pow4(detail)
    ensures |vs| <= |vertices| && vertices[..|vs|] == vs
    ensures ValidFaces(faces, |vertices|)
    ensures detail == 0 ==> vertices == vs && faces == fs
  {
    vertices, faces := vs, fs;
    for d := 0 to detail
      invariant (vertices, faces) == Subdivided(vs, fs, d, normalize)
    {
      vertices, faces := SubdividePass(vertices, faces, normalize);
    }
  }

  // ---------------------------------------------------------------------------
  // Lemmas about the pass.

  /** The edges met in a valid face list join valid vertices. */
  lemma UniqueEdgesEndpoints(fs: seq<Face>, n: nat)
    requires ValidFaces(fs, n)
    ensures EndpointsBelow(UniqueEdges(fs), n)
  {
    forall e | e in UniqueEdges(fs) ensures e.0 < n && e.1 < n {
      UniqueEdgesFromFaces(fs, e);
    }
  }

  /** The cache holds exactly the keys of the edges met. */
  lemma {:induction false} MidCacheKeys(u: seq<Edge>, base: nat)
    ensures MidCache(u, base).Keys == KeysOf(u)
  {
    if u != [] {
      var init, last := u[..|u| - 1], u[|u| - 1];
      assert u == init + [last];
      MidCacheKeys(init, base);
      KeysOfAppend(init, last);
    }
  }

  /** With distinct keys, the cache maps the k-th met edge to the k-th new vertex, and nothing else. */
  lemma {:induction false} MidCacheFacts(u: seq<Edge>, base: nat)
    requires DistinctKeys(u)
    ensures MidCache(u, base).Keys == KeysOf(u)
    ensures forall k :: 0 <= k < |u| ==> MidCache(u, base)[EdgeKeyOf(u[k])] == base + k
    ensures forall key :: key in MidCache(u, base) ==> base <= MidCache(u, base)[key] < base + |u|
  {
    if u != [] {
      var init, last := u[..|u| - 1], u[|u| - 1];
      assert u == init + [last];
      assert DistinctKeys(init);
      MidCacheFacts(init, base);
      var prev := MidCache(init, base);
      var m := MidCache(u, base);
      assert m == prev[EdgeKeyOf(last) := base + |init|] by {
        CacheAppend(init, last, base);
      }
      assert m.Keys == KeysOf(u) by {
        KeysOfAppend(init, last);
      }
      forall k | 0 <= k < |u| ensures m[EdgeKeyOf(u[k])] == base + k {
        if k < |init| {
          assert EdgeKeyOf(u[k]) != EdgeKeyOf(last);
          assert u[k] == init[k];
        }
      }
    }
  }

  /** A cache holding every key of `fs` covers `fs`. */
  lemma FaceKeysCovered(fs: seq<Face>, cache: map<EdgeKey, nat>)
    requires FaceKeys(fs) <= cache.Keys
    ensures CacheCovers(cache, fs)
  {
    forall i | 0 <= i < |fs|
      ensures Key(fs[i].a, fs[i].b) in cache && Key(fs[i].b, fs[i].c) in cache && Key(fs[i].c, fs[i].a) in cache
    {
      var f := fs[i];
      assert f in fs;
      assert EdgeKeyOf((f.a, f.b)) in FaceKeys(fs) && (f.a, f.b) in FaceEdges(f);
      assert EdgeKeyOf((f.b, f.c)) in FaceKeys(fs) && (f.b, f.c) in FaceEdges(f);
      assert EdgeKeyOf((f.c, f.a)) in FaceKeys(fs) && (f.c, f.a) in FaceEdges(f);
    }
  }

  lemma EndpointsAppend(d: seq<Edge>, e: Edge, n: nat)
    requires EndpointsBelow(d, n) && e.0 < n && e.1 < n
    ensures EndpointsBelow(d + [e], n)
  {
    forall x | x in d + [e] ensures x.0 < n && x.1 < n {
      if x != e {
        assert x in d;
      }
    }
  }

  lemma MidVerticesAppend(vs: seq<Point>, d: seq<Edge>, e: Edge, normalize: Point -> Point)
    requires EndpointsBelow(d, |vs|) && EndpointsBelow(d + [e], |vs|)
    ensures MidVertices(vs, d + [e], normalize) == MidVertices(vs, d, normalize) + [Midpoint(vs[e.0], vs[e.1], normalize)]
  {
    assert (d + [e])[..|d|] == d;
  }

  lemma CacheAppend(d: seq<Edge>, e: Edge, base: nat)
    ensures MidCache(d + [e], base) == MidCache(d, base)[EdgeKeyOf(e) := base + |d|]
  {
    assert (d + [e])[..|d|] == d;
  }

  lemma VisitAllThree(d: seq<Edge>, f: Face)
    ensures VisitAll(d, FaceEdges(f)) == Visit(Visit(Visit(d, (f.a, f.b)), (f.b, f.c)), (f.c, f.a))
  {
    var es := FaceEdges(f);
    assert es[..1][..0] == es[..0] && |es[..0]| == 0;
    assert VisitAll(d, es[..1]) == Visit(d, es[0]);
    assert es[..2][..1] == es[..1];
    assert VisitAll(d, es[..2]) == Visit(VisitAll(d, es[..1]), es[1]);
    assert es[..2] == es[..|es| - 1];
  }

  /** The faces produced for `fs` depend only on the entries of the cache that `fs` uses. */
  lemma {:induction false} PassFacesAgree(fs: seq<Face>, c1: map<EdgeKey, nat>, c2: map<EdgeKey, nat>)
    requires CacheCovers(c1, fs)
    requires forall k :: k in c1 ==> k in c2 && c2[k] == c1[k]
    ensures CacheCovers(c2, fs)
    ensures PassFaces(fs, c1) == PassFaces(fs, c2)
  {
    if fs != [] {
      PassFacesAgree(fs[..|fs| - 1], c1, c2);
    }
  }

  /** The children of face i sit at positions 4i .. 4i+3 of the produced faces. */
  lemma {:induction false} PassFacesLayout(fs: seq<Face>, cache: map<EdgeKey, nat>, i: nat)
    requires CacheCovers(cache, fs) && i < |fs|
    ensures |PassFaces(fs, cache)| == 4 * |fs|
    ensures PassFaces(fs, cache)[4 * i .. 4 * i + 4] == Children(fs[i], cache)
  {
    var init := fs[..|fs| - 1];
    if i < |init| {
      PassFacesLayout(init, cache, i);
    } else if init != [] {
      PassFacesLayout(init, cache, 0);
    }
    assert PassFaces(fs, cache) == PassFaces(init, cache) + Children(fs[|fs| - 1], cache);
  }

  /** Every face produced from a covered face list refers to the original vertices or the cached midpoints. */
  lemma {:induction false} PassFacesValid(fs: seq<Face>, cache: map<EdgeKey, nat>, n: nat)
    requires CacheCovers(cache, fs) && ValidFaces(fs, n)
    requires forall key :: key in cache ==> cache[key] < n
    ensures |PassFaces(fs, cache)| == 4 * |fs|
    ensures ValidFaces(PassFaces(fs, cache), n)
  {
    if fs != [] {
      PassFacesValid(fs[..|fs| - 1], cache, n);
      var p := PassFaces(fs[..|fs| - 1], cache);
      var ch := Children(fs[|fs| - 1], cache);
      assert forall j :: 0 <= j < |ch| ==> ValidFace(ch[j], n);
      assert forall j :: 0 <= j < |p + ch| ==> (p + ch)[j] == if j < |p| then p[j] else ch[j - |p|];
    }
  }

  /**
   * The shape of one pass: four faces per face, one new vertex per distinct
   * undirected edge, old vertices untouched, all indices valid.
   */
  lemma PassShape(vs: seq<Point>, fs: seq<Face>, normalize: Point -> Point)
    requires ValidFaces(fs, |vs|)
    ensures |Pass(vs, fs, normalize).1| == 4 * |fs|
    ensures |Pass(vs, fs, normalize).0| == |vs| + |FaceKeys(fs)|
    ensures Pass(vs, fs, normalize).0[..|vs|] == vs
    ensures ValidFaces(Pass(vs, fs, normalize).1, |Pass(vs, fs, normalize).0|)
  {
    PassGrowth(vs, fs, normalize);
    PassFacesShape(vs, fs, normalize);
  }

  lemma PassGrowth(vs: seq<Point>, fs: seq<Face>, normalize: Point -> Point)
    requires ValidFaces(fs, |vs|)
    ensures |Pass(vs, fs, normalize).0| == |vs| + |FaceKeys(fs)|
    ensures Pass(vs, fs, normalize).0[..|vs|] == vs
  {
    var u := UniqueEdges(fs);
    UniqueEdgesCount(fs);
    UniqueEdgesEndpoints(fs, |vs|);
    assert (vs + MidVertices(vs, u, normalize))[..|vs|] == vs;
  }

  lemma PassFacesShape(vs: seq<Point>, fs: seq<Face>, normalize: Point -> Point)
    requires ValidFaces(fs, |vs|)
    ensures |Pass(vs, fs, normalize).1| == 4 * |fs|
    ensures ValidFaces(Pass(vs, fs, normalize).1, |vs| + |UniqueEdges(fs)|)
    ensures |Pass(vs, fs, normalize).0| == |vs| + |UniqueEdges(fs)|
  {
    var u := UniqueEdges(fs);
    var cache := MidCache(u, |vs|);
    var n := |vs| + |u|;
    assert CacheCovers(cache, fs) && (forall key :: key in cache ==> cache[key] < n) by {
      UniqueEdgesKeys(fs);
      MidCacheFacts(u, |vs|);
      FaceKeysCovered(fs, cache);
    }
    assert ValidFaces(fs, n) by {
      forall i | 0 <= i < |fs| ensures ValidFace(fs[i], n) {
        assert ValidFace(fs[i], |vs|);
      }
    }
    PassFacesValid(fs, cache, n);
    UniqueEdgesEndpoints(fs, |vs|);
    assert Pass(vs, fs, normalize) == (vs + MidVertices(vs, u, normalize), PassFaces(fs, cache));
  }

  /**
   * The midpoints of one pass: each distinct undirected edge of `fs` has exactly
   * one midpoint vertex, it is new (at or beyond the old vertex count), it is the
   * midpoint of that edge's ends in either direction, and different edges have
   * different midpoint vertices.
   */
  lemma PassMidpoints(vs: seq<Point>, fs: seq<Face>, normalize: Point -> Point, p: nat, q: nat)
    requires ValidFaces(fs, |vs|)
    requires Key(p, q) in FaceKeys(fs)
    ensures p < |vs| && q < |vs|
    ensures var cache := MidCache(UniqueEdges(fs), |vs|);
      && Key(p, q) in cache
      && |vs| <= cache[Key(p, q)] < |Pass(vs, fs, normalize).0|
      && Pass(vs, fs, normalize).0[cache[Key(p, q)]] == Midpoint(vs[p], vs[q], normalize)
      && Pass(vs, fs, normalize).0[cache[Key(p, q)]] == Midpoint(vs[q], vs[p], normalize)
  {
    var u := UniqueEdges(fs);
    var cache := MidCache(u, |vs|);
    assert Key(p, q) in cache && exists k :: 0 <= k < |u| && EdgeKeyOf(u[k]) == Key(p, q) && cache[Key(p, q)] == |vs| + k by {
      UniqueEdgesKeys(fs);
      MidCacheFacts(u, |vs|);
      var e :| e in u && EdgeKeyOf(e) == Key(p, q);
      var k :| 0 <= k < |u| && u[k] == e;
      assert EdgeKeyOf(u[k]) == Key(p, q) && cache[Key(p, q)] == |vs| + k;
    }
    var k :| 0 <= k < |u| && EdgeKeyOf(u[k]) == Key(p, q) && cache[Key(p, q)] == |vs| + k;
    var e := u[k];
    UniqueEdgesEndpoints(fs, |vs|);
    assert e in u;
    KeyCharacterization(e.0, e.1, p, q);
    var mids := MidVertices(vs, u, normalize);
    assert Pass(vs, fs, normalize).0 == vs + mids;
    assert (vs + mids)[|vs| + k] == mids[k] == Midpoint(vs[e.0], vs[e.1], normalize);
    MidpointSymmetric(vs[p], vs[q], normalize);
  }

  /** Different undirected edges of a pass get different midpoint vertices. */
  lemma PassMidpointsDistinct(vs: seq<Point>, fs: seq<Face>, k1: EdgeKey, k2: EdgeKey)
    requires k1 in FaceKeys(fs) && k2 in FaceKeys(fs) && k1 != k2
    ensures var cache := MidCache(UniqueEdges(fs), |vs|);
      k1 in cache && k2 in cache && cache[k1] != cache[k2]
  {
    var u := UniqueEdges(fs);
    UniqueEdgesKeys(fs);
    MidCacheFacts(u, |vs|);
    var e1 :| e1 in u && EdgeKeyOf(e1) == k1;
    var e2 :| e2 in u && EdgeKeyOf(e2) == k2;
    var i :| 0 <= i < |u| && u[i] == e1;
    var j :| 0 <= j < |u| && u[j] == e2;
  }

  /**
   * Face i = (a, b, c) of the input becomes faces 4i .. 4i+3 of the output:
   * [a, ab, ca], [b, bc, ab], [c, ca, bc], [ab, bc, ca], where xy is the
   * midpoint vertex of the edge between x and y.
   */
  lemma PassLayout(vs: seq<Point>, fs: seq<Face>, normalize: Point -> Point, i: nat)
    requires ValidFaces(fs, |vs|) && i < |fs|
    ensures var f, cache, out := fs[i], MidCache(UniqueEdges(fs), |vs|), Pass(vs, fs, normalize).1;
      && Key(f.a, f.b) in cache && Key(f.b, f.c) in cache && Key(f.c, f.a) in cache
      && |out| == 4 * |fs|
      && var ab, bc, ca := cache[Key(f.a, f.b)], cache[Key(f.b, f.c)], cache[Key(f.c, f.a)];
         && out[4 * i] == Face(f.a, ab, ca)
         && out[4 * i + 1] == Face(f.b, bc, ab)
         && out[4 * i + 2] == Face(f.c, ca, bc)
         && out[4 * i + 3] == Face(ab, bc, ca)
  {
    var u := UniqueEdges(fs);
    var cache := MidCache(u, |vs|);
    assert CacheCovers(cache, fs) by {
      UniqueEdgesKeys(fs);
      MidCacheFacts(u, |vs|);
      FaceKeysCovered(fs, cache);
    }
    PassFacesLayout(fs, cache, i);
    var out := PassFaces(fs, cache);
    UniqueEdgesEndpoints(fs, |vs|);
    assert Pass(vs, fs, normalize).1 == out;
    var ch := out[4 * i .. 4 * i + 4];
    assert out[4 * i] == ch[0] && out[4 * i + 1] == ch[1] && out[4 * i + 2] == ch[2] && out[4 * i + 3] == ch[3];
  }

  /** The midpoint of an edge does not depend on its direction. */
  lemma MidpointSymmetric(p: Point, q: Point, normalize: Point -> Point)
    ensures Midpoint(p, q, normalize) == Midpoint(q, p, normalize)
  {
  }

  /** No pass at all leaves the mesh as it is. */
  lemma SubdividedZero(vs: seq<Point>, fs: seq<Face>, normalize: Point -> Point)
    requires ValidFaces(fs, |vs|)
    ensures Subdivided(vs, fs, 0, normalize) == (vs, fs)
  {
  }

  /**
   * If the projection puts every point on the sphere of radius r, and so do
   * the starting vertices, every vertex of every pass lies on that sphere.
   */
  lemma {:induction false} SubdividedOnSphere(vs: seq<Point>, fs: seq<Face>, detail: nat, normalize: Point -> Point, r: real)
    requires ValidFaces(fs, |vs|)
    requires forall k :: 0 <= k < |vs| ==> OnSphere(vs[k], r)
    requires forall p :: OnSphere(normalize(p), r)
    ensures forall k :: 0 <= k < |Subdivided(vs, fs, detail, normalize).0| ==> OnSphere(Subdivided(vs, fs, detail, normalize).0[k], r)
  {
    if detail > 0 {
      var prev := Subdivided(vs, fs, detail - 1, normalize);
      SubdividedOnSphere(vs, fs, detail - 1, normalize, r);
      PassOnSphere(prev.0, prev.1, normalize, r);
    }
  }

  /** A pass whose projection lands on the sphere keeps every vertex on it. */
  lemma PassOnSphere(vs: seq<Point>, fs: seq<Face>, normalize: Point -> Point, r: real)
    requires ValidFaces(fs, |vs|)
    requires forall k :: 0 <= k < |vs| ==> OnSphere(vs[k], r)
    requires forall p :: OnSphere(normalize(p), r)
    ensures forall k :: 0 <= k < |Pass(vs, fs, normalize).0| ==> OnSphere(Pass(vs, fs, normalize).0[k], r)
  {
    var u := UniqueEdges(fs);
    UniqueEdgesEndpoints(fs, |vs|);
    var mids := MidVertices(vs, u, normalize);
    assert Pass(vs, fs, normalize).0 == vs + mids;
    forall k | 0 <= k < |mids| ensures OnSphere(mids[k], r) {
      assert mids[k] == normalize(Average(vs[u[k].0], vs[u[k].1]));
    }
  }
}
