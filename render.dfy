/**
 * One frame of the software renderer: the vertices are turned about the y
 * axis, the faces are drawn back to front by the mean depth of their corners
 * (the painter's algorithm), and the wireframe overlay draws every undirected
 * edge once. The canvas calls themselves and the perspective divide are not
 * modelled; what is modelled is which faces and edges are drawn, and in what
 * order.
 */
module Render {
  import opened Geometry
  import opened Edges

  /**
   * Turn p about the y axis by the angle whose sine and cosine are s and c.
   * The height of the point is unchanged.
   */
  function Rotate(p: Point, s: real, c: real): (q: Point)
    ensures q.y == p.y
  {
    Point(p.x * c - p.z * s, p.y, p.x * s + p.z * c)
  }

  /** The angle zero (sine 0, cosine 1) leaves every point where it is. */
  lemma RotateIdentity(p: Point)
    ensures Rotate(p, 0.0, 1.0) == p
  {
  }

  /** A rotation (s² + c² = 1) keeps the distance from the origin. */
  lemma RotateKeepsNorm(p: Point, s: real, c: real)
    requires s * s + c * c == 1.0
    ensures SquaredNorm(Rotate(p, s, c)) == SquaredNorm(p)
  {
    var q := Rotate(p, s, c);
    var x, z := p.x, p.z;
    calc {
      q.x * q.x + q.z * q.z;
      ==
      (x * c - z * s) * (x * c - z * s) + (x * s + z * c) * (x * s + z * c);
      == { Expand(x, z, s, c); }
      (x * x + z * z) * (s * s + c * c);
      ==
      x * x + z * z;
    }
  }

  lemma Expand(x: real, z: real, s: real, c: real)
    ensures (x * c - z * s) * (x * c - z * s) + (x * s + z * c) * (x * s + z * c)
         == (x * x + z * z) * (s * s + c * c)
  {
  }

  /** The vertices of one frame. */
  function RotateAll(vs: seq<Point>, s: real, c: real): (rs: seq<Point>)
    ensures |rs| == |vs|
    ensures forall i :: 0 <= i < |vs| ==> rs[i] == Rotate(vs[i], s, c)
  {
    seq(|vs|, i requires 0 <= i < |vs| => Rotate(vs[i], s, c))
  }

  /** A rotated sphere is still the same sphere. */
  lemma RotateAllOnSphere(vs: seq<Point>, s: real, c: real, r: real)
    requires s * s + c * c == 1.0
    requires forall i :: 0 <= i < |vs| ==> OnSphere(vs[i], r)
    ensures forall i :: 0 <= i < |vs| ==> OnSphere(RotateAll(vs, s, c)[i], r)
  {
    forall i | 0 <= i < |vs| ensures OnSphere(RotateAll(vs, s, c)[i], r) {
      RotateKeepsNorm(vs[i], s, c);
    }
  }

  /** A face index paired with the depth it is sorted by. */
  datatype FaceDepth = FaceDepth(index: nat, z: real)

  /** The depth of a face: the mean z of its three corners. */
  function Depth(rotated: seq<Point>, f: Face): real
    requires ValidFace(f, |rotated|)
  {
    (rotated[f.a].z + rotated[f.b].z + rotated[f.c].z) / 3.0
  }

  /** The sort keys of the faces, one per face and in face order. */
  function FaceDepths(rotated: seq<Point>, fs: seq<Face>): (ds: seq<FaceDepth>)
    requires ValidFaces(fs, |rotated|)
    ensures |ds| == |fs|
    ensures forall i :: 0 <= i < |fs| ==> ds[i] == FaceDepth(i, Depth(rotated, fs[i]))
  {
    seq(|fs|, i requires 0 <= i < |fs| => FaceDepth(i, Depth(rotated, fs[i])))
  }

  /**
   * x is drawn before y: it is farther away (larger z), or as far and earlier
   * in the face list, since the sort is stable.
   */
  predicate DrawnBefore(x: FaceDepth, y: FaceDepth)
  {
    x.z > y.z || (x.z == y.z && x.index < y.index)
  }

  /** The face indices of a list of sort keys, in order. */
  function Indices(ds: seq<FaceDepth>): (ks: seq<nat>)
    ensures |ks| == |ds|
  {
    seq(|ds|, k requires 0 <= k < |ds| => ds[k].index)
  }

  /** The indices 0, 1, ..., n - 1. */
  function Range(n: nat): (ks: seq<nat>)
    ensures |ks| == n
  {
    seq(n, k requires 0 <= k < n => k)
  }

  /** Every index below n occurs exactly once in Range(n), and no other does. */
  lemma {:induction false} RangeCounts(n: nat)
    ensures forall k: nat :: multiset(Range(n))[k] == if k < n then 1 else 0
  {
    if n > 0 {
      RangeCounts(n - 1);
      assert Range(n) == Range(n - 1) + [n - 1];
    }
  }

  /** Rearranging the sort keys rearranges their indices the same way. */
  lemma {:induction false} IndicesPermutation(xs: seq<FaceDepth>, ys: seq<FaceDepth>)
    requires multiset(xs) == multiset(ys)
    ensures multiset(Indices(xs)) == multiset(Indices(ys))
  {
    if xs == [] {
      assert |ys| == |multiset(ys)| == 0;
    } else {
      var x := xs[0];
      assert x in multiset(ys);
      var k :| 0 <= k < |ys| && ys[k] == x;
      var rest := ys[..k] + ys[k + 1..];
      assert multiset(xs[1..]) == multiset(rest) by {
        RemoveAt(ys, k);
        assert xs == [x] + xs[1..];
      }
      IndicesPermutation(xs[1..], rest);
      IndicesRemoveAt(ys, k);
      IndicesRemoveAt(xs, 0);
      assert xs[..0] + xs[1..] == xs[1..];
      Cancel(multiset(Indices(xs)), multiset(Indices(ys)), x.index);
    }
  }

  lemma Cancel<T>(m: multiset<T>, n: multiset<T>, x: T)
    requires x in m && x in n && m - multiset{x} == n - multiset{x}
    ensures m == n
  {
    assert m == (m - multiset{x}) + multiset{x};
    assert n == (n - multiset{x}) + multiset{x};
  }

  /** Removing the key at position k removes one occurrence of its index. */
  lemma IndicesRemoveAt(ys: seq<FaceDepth>, k: nat)
    requires k < |ys|
    ensures ys[k].index in multiset(Indices(ys))
    ensures multiset(Indices(ys[..k] + ys[k + 1..])) == multiset(Indices(ys)) - multiset{ys[k].index}
  {
    var iy := Indices(ys);
    assert iy[k] == ys[k].index;
    RemoveAt(iy, k);
    assert Indices(ys[..k] + ys[k + 1..]) == iy[..k] + iy[k + 1..];
  }

  /** Removing the element at position k removes one occurrence of it. */
  lemma RemoveAt<T>(s: seq<T>, k: nat)
    requires k < |s|
    ensures multiset(s[..k] + s[k + 1..]) == multiset(s) - multiset{s[k]}
  {
    assert s == s[..k] + [s[k]] + s[k + 1..];
  }

  /**
   * Sort the keys farthest first, keeping the order of equally deep faces,
   * as the stable library sort does with the comparator (f1, f2) => f2.z - f1.z.
   * The key at position i is that of face i, as the face list produces them.
   */
  method SortByDepth(a: array<FaceDepth>)
    requires forall p :: 0 <= p < a.Length ==> a[p].index == p
    modifies a
    ensures forall p, q :: 0 <= p < q < a.Length ==> DrawnBefore(a[p], a[q])
    ensures multiset(a[..]) == multiset(old(a[..]))
  {
    for i := 0 to a.Length
      invariant forall p, q :: 0 <= p < q < i ==> DrawnBefore(a[p], a[q])
      invariant forall p :: 0 <= p < i ==> a[p].index < i
      invariant forall q :: i <= q < a.Length ==> a[q].index == q
      invariant multiset(a[..]) == multiset(old(a[..]))
    {
      Insert(a, i);
    }
  }

  /** Move the key at position i left past the nearer keys before it. */
  method Insert(a: array<FaceDepth>, i: nat)
    requires i < a.Length
    requires forall p, q :: 0 <= p < q < i ==> DrawnBefore(a[p], a[q])
    requires forall p :: 0 <= p < i ==> a[p].index < i
    requires forall q :: i <= q < a.Length ==> a[q].index == q
    modifies a
    ensures forall p, q :: 0 <= p < q <= i ==> DrawnBefore(a[p], a[q])
    ensures forall p :: 0 <= p <= i ==> a[p].index <= i
    ensures forall q :: i < q < a.Length ==> a[q] == old(a[q])
    ensures multiset(a[..]) == multiset(old(a[..]))
  {
    var j: nat := i;
    InsertingStart(a[..], i);
    while j > 0 && a[j - 1].z < a[j].z
      invariant j <= i
      invariant Inserting(a[..], i, j)
      invariant forall q :: i < q < a.Length ==> a[q] == old(a[q])
      invariant multiset(a[..]) == multiset(old(a[..]))
    {
      ghost var s := a[..];
      a[j - 1], a[j] := a[j], a[j - 1];
      assert Inserting(a[..], i, j - 1) && multiset(a[..]) == multiset(s) by {
        assert a[..] == s[j - 1 := s[j]][j := s[j - 1]];
        InsertingStep(s, i, j);
        SwapMultiset(s, j - 1, j);
      }
      j := j - 1;
    }
    InsertingDone(a[..], i, j);
  }

  /**
   * Insertion of the key of face i is under way and has reached position j:
   * the keys up to i are in drawing order except the moving one at j, which
   * comes before everything after it and has the largest index.
   */
  ghost predicate Inserting(s: seq<FaceDepth>, i: nat, j: nat)
  {
    && j <= i < |s|
    && (forall p, q :: 0 <= p < q <= i && p != j && q != j ==> DrawnBefore(s[p], s[q]))
    && (forall q :: j < q <= i ==> DrawnBefore(s[j], s[q]))
    && (0 < j < i ==> DrawnBefore(s[j - 1], s[j + 1]))
    && s[j].index == i
    && (forall p :: 0 <= p <= i && p != j ==> s[p].index < i)
  }

  lemma InsertingStart(s: seq<FaceDepth>, i: nat)
    requires i < |s|
    requires forall p, q :: 0 <= p < q < i ==> DrawnBefore(s[p], s[q])
    requires forall p :: 0 <= p < i ==> s[p].index < i
    requires s[i].index == i
    ensures Inserting(s, i, i)
  {
  }

  /** Swapping the moving key with a nearer key before it moves the insertion one step left. */
  lemma InsertingStep(s: seq<FaceDepth>, i: nat, j: nat)
    requires Inserting(s, i, j) && 0 < j && s[j - 1].z < s[j].z
    ensures Inserting(s[j - 1 := s[j]][j := s[j - 1]], i, j - 1)
  {
  }

  /** Swapping two entries keeps the multiset of entries. */
  lemma SwapMultiset<T>(s: seq<T>, x: nat, y: nat)
    requires x < |s| && y < |s|
    ensures multiset(s[x := s[y]][y := s[x]]) == multiset(s)
  {
  }

  /** Once the key before the moving one is not nearer, the first i + 1 keys are in drawing order. */
  lemma InsertingDone(s: seq<FaceDepth>, i: nat, j: nat)
    requires Inserting(s, i, j) && (j == 0 || s[j - 1].z >= s[j].z)
    ensures forall p, q :: 0 <= p < q <= i ==> DrawnBefore(s[p], s[q])
    ensures forall p :: 0 <= p <= i ==> s[p].index <= i
  {
  }

  /**
   * The order in which the faces are painted: a permutation of the face
   * indices, farthest face first, equally deep faces in face order.
   */
  method DrawOrder(rotated: seq<Point>, fs: seq<Face>) returns (order: seq<nat>)
    requires ValidFaces(fs, |rotated|)
    ensures |order| == |fs|
    ensures multiset(order) == multiset(Range(|fs|))
    ensures forall i :: 0 <= i < |order| ==> order[i] < |fs|
    ensures forall i, j :: 0 <= i < j < |order| ==>
      Depth(rotated, fs[order[i]]) > Depth(rotated, fs[order[j]]) ||
      (Depth(rotated, fs[order[i]]) == Depth(rotated, fs[order[j]]) && order[i] < order[j])
  {
    var entries := FaceDepths(rotated, fs);
    var a := new FaceDepth[|entries|](k requires 0 <= k < |entries| => entries[k]);
    assert a[..] == entries;
    SortByDepth(a);
    order := Indices(a[..]);
    forall k | 0 <= k < a.Length
      ensures a[k].index < |fs| && a[k].z == Depth(rotated, fs[a[k].index])
    {
      assert a[k] in multiset(entries) by {
        assert a[..][k] in multiset(a[..]);
      }
    }
    IndicesPermutation(a[..], entries);
    assert Indices(entries) == Range(|fs|);
  }

  /**
   * The wireframe overlay: walk every face's edges ab, bc, ca and draw each
   * undirected edge the first time it is met, remembering the drawn keys.
   */
  method WireframeEdges(fs: seq<Face>) returns (edges: seq<Edge>)
    ensures edges == UniqueEdges(fs)
    ensures DistinctKeys(edges)
    ensures KeysOf(edges) == FaceKeys(fs)
  {
    var drawn: set<EdgeKey> := {};
    edges := [];
    for f := 0 to |fs|
      invariant edges == UniqueEdges(fs[..f])
      invariant drawn == KeysOf(edges)
    {
      var es := FaceEdges(fs[f]);
      ghost var before := edges;
      for k := 0 to 3
        invariant edges == VisitAll(before, es[..k])
        invariant drawn == KeysOf(edges)
      {
        assert es[..k + 1][..k] == es[..k];
        var (i, j) := es[k];
        var edgeKey := Key(i, j);
        if edgeKey in drawn {
          continue;
        }
        drawn := drawn + {edgeKey};
        KeysOfAppend(edges, (i, j));
        edges := edges + [(i, j)];
      }
      assert es[..3] == es;
      UniqueEdgesSnoc(fs, f);
    }
    assert fs[..|fs|] == fs;
    UniqueEdgesKeys(fs);
  }

  /** Every edge of every face is covered by a drawn edge, in one direction or the other. */
  lemma WireframeCovers(fs: seq<Face>, i: nat)
    requires i < |fs|
    ensures forall e :: e in FaceEdges(fs[i]) ==>
      exists d :: d in UniqueEdges(fs) && (d == e || d == (e.1, e.0))
  {
    UniqueEdgesKeys(fs);
    assert fs[i] in fs;
    forall e | e in FaceEdges(fs[i])
      ensures exists d :: d in UniqueEdges(fs) && (d == e || d == (e.1, e.0))
    {
      assert EdgeKeyOf(e) in FaceKeys(fs);
      var d :| d in UniqueEdges(fs) && EdgeKeyOf(d) == EdgeKeyOf(e);
      KeyCharacterization(d.0, d.1, e.0, e.1);
    }
  }
}
