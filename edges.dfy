/**
 * The distinct undirected edges of a face list, in the order in which a walk
 * over the faces first meets them. Both the wireframe overlay and the midpoint
 * cache of a subdivision pass visit edges in this order: per face, ab, bc, ca.
 */
module Edges {
  import opened Geometry

  /** The keys of the edges in `d`. */
  function KeysOf(d: seq<Edge>): set<EdgeKey>
  {
    set e | e in d :: EdgeKeyOf(e)
  }

  /** No two edges in `d` name the same undirected edge. */
  predicate DistinctKeys(d: seq<Edge>)
  {
    forall i, j :: 0 <= i < j < |d| ==> EdgeKeyOf(d[i]) != EdgeKeyOf(d[j])
  }

  /** The undirected edges of a face list, as a set of keys. */
  function FaceKeys(fs: seq<Face>): set<EdgeKey>
  {
    set f, e | f in fs && e in FaceEdges(f) :: EdgeKeyOf(e)
  }

  /** Visit edge `e`: keep it when its undirected edge has not been seen yet. */
  function Visit(d: seq<Edge>, e: Edge): seq<Edge>
  {
    if EdgeKeyOf(e) in KeysOf(d) then d else d + [e]
  }

  /** Visit the edges of `es` in order. */
  function VisitAll(d: seq<Edge>, es: seq<Edge>): seq<Edge>
  {
    if es == [] then d else Visit(VisitAll(d, es[..|es| - 1]), es[|es| - 1])
  }

  /** Each undirected edge of `fs` once, directed as first met, in first-met order. */
  function UniqueEdges(fs: seq<Face>): seq<Edge>
  {
    if fs == [] then [] else VisitAll(UniqueEdges(fs[..|fs| - 1]), FaceEdges(fs[|fs| - 1]))
  }

  lemma KeysOfAppend(d: seq<Edge>, e: Edge)
    ensures KeysOf(d + [e]) == KeysOf(d) + {EdgeKeyOf(e)}
  {
    assert forall x :: x in d + [e] <==> x in d || x == e;
  }

  /** Visiting one edge keeps the keys distinct, extends the list, and adds the edge's key. */
  lemma VisitFacts(d: seq<Edge>, e: Edge)
    requires DistinctKeys(d)
    ensures DistinctKeys(Visit(d, e))
    ensures KeysOf(Visit(d, e)) == KeysOf(d) + {EdgeKeyOf(e)}
    ensures d <= Visit(d, e)
  {
    KeysOfAppend(d, e);
    if EdgeKeyOf(e) !in KeysOf(d) {
      var d' := d + [e];
      forall i, j | 0 <= i < j < |d'| ensures EdgeKeyOf(d'[i]) != EdgeKeyOf(d'[j]) {
        if j == |d| {
          assert d'[i] in d;
        }
      }
    }
  }

  lemma {:induction false} VisitAllFacts(d: seq<Edge>, es: seq<Edge>)
    requires DistinctKeys(d)
    ensures DistinctKeys(VisitAll(d, es))
    ensures KeysOf(VisitAll(d, es)) == KeysOf(d) + KeysOf(es)
    ensures d <= VisitAll(d, es)
  {
    if es != [] {
      var init := es[..|es| - 1];
      VisitAllFacts(d, init);
      VisitFacts(VisitAll(d, init), es[|es| - 1]);
      assert es == init + [es[|es| - 1]];
      KeysOfAppend(init, es[|es| - 1]);
    }
  }

  lemma FaceKeysAppend(fs: seq<Face>, f: Face)
    ensures FaceKeys(fs + [f]) == FaceKeys(fs) + KeysOf(FaceEdges(f))
  {
    assert forall g :: g in fs + [f] <==> g in fs || g == f;
  }

  /** The emitted edges name each undirected edge of the faces exactly once. */
  lemma {:induction false} UniqueEdgesKeys(fs: seq<Face>)
    ensures DistinctKeys(UniqueEdges(fs))
    ensures KeysOf(UniqueEdges(fs)) == FaceKeys(fs)
  {
    if fs != [] {
      var init, last := fs[..|fs| - 1], fs[|fs| - 1];
      UniqueEdgesKeys(init);
      VisitAllFacts(UniqueEdges(init), FaceEdges(last));
      assert fs == init + [last];
      FaceKeysAppend(init, last);
    }
  }

  /** The number of emitted edges is the number of distinct undirected edges. */
  lemma UniqueEdgesCount(fs: seq<Face>)
    ensures |UniqueEdges(fs)| == |FaceKeys(fs)|
  {
    UniqueEdgesKeys(fs);
    DistinctKeysCard(UniqueEdges(fs));
  }

  lemma {:induction false} DistinctKeysCard(d: seq<Edge>)
    requires DistinctKeys(d)
    ensures |KeysOf(d)| == |d|
  {
    if d != [] {
      var init, last := d[..|d| - 1], d[|d| - 1];
      assert d == init + [last];
      assert DistinctKeys(init);
      DistinctKeysCard(init);
      KeysOfAppend(init, last);
      assert forall e :: e in init ==> EdgeKeyOf(e) != EdgeKeyOf(last) by {
        forall e | e in init ensures EdgeKeyOf(e) != EdgeKeyOf(last) {
          var i :| 0 <= i < |init| && init[i] == e;
          assert d[i] == e;
        }
      }
    }
  }

  /** Every emitted edge is, with its direction, an edge of one of the faces. */
  lemma {:induction false} UniqueEdgesFromFaces(fs: seq<Face>, e: Edge)
    requires e in UniqueEdges(fs)
    ensures exists i :: 0 <= i < |fs| && e in FaceEdges(fs[i])
  {
    if fs != [] {
      var init, last := fs[..|fs| - 1], fs[|fs| - 1];
      VisitAllSource(UniqueEdges(init), FaceEdges(last), e);
      if e in UniqueEdges(init) {
        UniqueEdgesFromFaces(init, e);
        var i :| 0 <= i < |init| && e in FaceEdges(init[i]);
        assert fs[i] == init[i];
      } else {
        assert e in FaceEdges(fs[|fs| - 1]);
      }
    }
  }

  lemma {:induction false} VisitAllSource(d: seq<Edge>, es: seq<Edge>, e: Edge)
    requires e in VisitAll(d, es)
    ensures e in d || e in es
  {
    if es != [] {
      var init := es[..|es| - 1];
      if e in VisitAll(d, init) {
        VisitAllSource(d, init, e);
        if e in init {
          assert e in es;
        }
      }
    }
  }

  /** The edges found in a prefix of the faces come first, unchanged, in the full list. */
  lemma {:induction false} UniqueEdgesPrefix(fs: seq<Face>, n: nat)
    requires n <= |fs|
    ensures UniqueEdges(fs[..n]) <= UniqueEdges(fs)
  {
    if n < |fs| {
      var init := fs[..|fs| - 1];
      assert fs[..n] == init[..n];
      UniqueEdgesPrefix(init, n);
      UniqueEdgesKeys(init);
      VisitAllFacts(UniqueEdges(init), FaceEdges(fs[|fs| - 1]));
    } else {
      assert fs[..n] == fs;
    }
  }

  /** Walking one more face extends the edge list by visiting that face's three edges. */
  lemma UniqueEdgesSnoc(fs: seq<Face>, n: nat)
    requires n < |fs|
    ensures UniqueEdges(fs[..n + 1]) == VisitAll(UniqueEdges(fs[..n]), FaceEdges(fs[n]))
  {
    assert fs[..n + 1][..n] == fs[..n];
  }

  /** The keys of a face's three edges. */
  lemma FaceEdgeKeys(f: Face)
    ensures KeysOf(FaceEdges(f)) == {Key(f.a, f.b), Key(f.b, f.c), Key(f.c, f.a)}
  {
    var es := FaceEdges(f);
    assert es[0] in es && es[1] in es && es[2] in es;
    forall k | k in KeysOf(es) ensures k in {Key(f.a, f.b), Key(f.b, f.c), Key(f.c, f.a)} {
      var e :| e in es && EdgeKeyOf(e) == k;
    }
  }
}
