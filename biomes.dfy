/**
 * Land and sea: each face is land when its centroid lies strictly within
 * 0.55 r of some land centre, and sea otherwise. The land centres are drawn at
 * random by the application; here they are an input.
 */
module Biomes {
  import opened Geometry

  datatype Biome = Land | Sea

  /** The fill colours of the two biomes. */
  function Color(b: Biome): string
  {
    match b
    case Land => "#27ae60"
    case Sea => "#3498db"
  }

  /** The land radius is this fraction of the sphere radius. */
  const LAND_RADIUS_FACTOR: real := 0.55

  /** The mean of a face's three vertices (not projected back onto the sphere). */
  function Centroid(vs: seq<Point>, f: Face): Point
    requires ValidFace(f, |vs|)
  {
    var p, q, s := vs[f.a], vs[f.b], vs[f.c];
    Point((p.x + q.x + s.x) / 3.0, (p.y + q.y + s.y) / 3.0, (p.z + q.z + s.z) / 3.0)
  }

  function SquaredDistance(p: Point, q: Point): (d: real)
    ensures d >= 0.0
  {
    (p.x - q.x) * (p.x - q.x) + (p.y - q.y) * (p.y - q.y) + (p.z - q.z) * (p.z - q.z)
  }

  /** The distance from p to q is strictly less than `radius`, compared without a square root. */
  predicate StrictlyWithin(p: Point, q: Point, radius: real)
  {
    radius > 0.0 && SquaredDistance(p, q) < radius * radius
  }

  /**
   * The squared comparison is the game's test: for the distance `dist`
   * (the non-negative root of the squared distance), dist < radius exactly
   * when StrictlyWithin holds.
   */
  lemma StrictlyWithinIsDistanceTest(p: Point, q: Point, radius: real, dist: real)
    requires dist >= 0.0 && dist * dist == SquaredDistance(p, q)
    ensures StrictlyWithin(p, q, radius) <==> dist < radius
  {
    if dist < radius {
      MulMonotone(dist, dist, radius);
      MulStrict(dist, radius, radius);
      calc {
        SquaredDistance(p, q);
        ==
        dist * dist;
        <=
        dist * radius;
        <
        radius * radius;
      }
    } else if radius > 0.0 {
      MulMonotone(radius, radius, dist);
      MulMonotone(dist, radius, dist);
      calc {
        radius * radius;
        <=
        radius * dist;
        ==
        dist * radius;
        <=
        dist * dist;
        ==
        SquaredDistance(p, q);
      }
    }
  }

  lemma MulPositive(a: real, b: real)
    requires a > 0.0 && b > 0.0
    ensures a * b > 0.0
  {
  }

  lemma MulMonotone(a: real, b: real, c: real)
    requires a >= 0.0 && b <= c
    ensures a * b <= a * c
  {
    assert a * c - a * b == a * (c - b);
    MulNonnegative(a, c - b);
  }

  lemma MulStrict(a: real, b: real, c: real)
    requires a < b && c > 0.0
    ensures a * c < b * c
  {
    MulPositive(b - a, c);
    assert (b - a) * c == b * c - a * c;
  }

  lemma MulNonnegative(a: real, b: real)
    requires a >= 0.0 && b >= 0.0
    ensures a * b >= 0.0
  {
  }

  /** A point is land when some centre is strictly within `landRadius`; the first such centre decides. */
  function Classify(p: Point, centers: seq<Point>, landRadius: real): (b: Biome)
    ensures b == Land <==> exists i :: 0 <= i < |centers| && StrictlyWithin(p, centers[i], landRadius)
  {
    if centers == [] then Sea
    else if StrictlyWithin(p, centers[0], landRadius) then Land
    else
      var rest := Classify(p, centers[1..], landRadius);
      assert forall i :: 1 <= i < |centers| ==> centers[i] == centers[1..][i - 1];
      rest
  }

  /** The biome of every face, for a sphere of radius r and the given land centres. */
  function FaceColors(vs: seq<Point>, fs: seq<Face>, centers: seq<Point>, r: real): (colors: seq<Biome>)
    requires ValidFaces(fs, |vs|)
    ensures |colors| == |fs|
    ensures forall i :: 0 <= i < |fs| ==>
      (colors[i] == Land <==>
        exists j :: 0 <= j < |centers| && StrictlyWithin(Centroid(vs, fs[i]), centers[j], LAND_RADIUS_FACTOR * r))
  {
    var landRadius := r * LAND_RADIUS_FACTOR;
    seq(|fs|, i requires 0 <= i < |fs| => Classify(Centroid(vs, fs[i]), centers, landRadius))
  }

  /** Without land centres every face is sea. */
  lemma NoCentersAllSea(vs: seq<Point>, fs: seq<Face>, r: real)
    requires ValidFaces(fs, |vs|)
    ensures forall i :: 0 <= i < |fs| ==> FaceColors(vs, fs, [], r)[i] == Sea
  {
  }

  /** A centroid that coincides with a land centre is land, on a sphere of positive radius. */
  lemma CentroidAtCenterIsLand(vs: seq<Point>, fs: seq<Face>, centers: seq<Point>, r: real, i: nat, j: nat)
    requires ValidFaces(fs, |vs|) && i < |fs| && j < |centers| && r > 0.0
    requires Centroid(vs, fs[i]) == centers[j]
    ensures FaceColors(vs, fs, centers, r)[i] == Land
  {
    var landRadius := LAND_RADIUS_FACTOR * r;
    MulPositive(landRadius, landRadius);
    calc {
      SquaredDistance(Centroid(vs, fs[i]), centers[j]);
      ==
      SquaredDistance(centers[j], centers[j]);
      ==
      0.0;
      <
      landRadius * landRadius;
    }
  }

  /** A centroid exactly at the land radius from its only land centre is sea: the test is strict. */
  lemma CentroidAtThresholdIsSea(vs: seq<Point>, fs: seq<Face>, center: Point, r: real, i: nat)
    requires ValidFaces(fs, |vs|) && i < |fs|
    requires SquaredDistance(Centroid(vs, fs[i]), center) == (LAND_RADIUS_FACTOR * r) * (LAND_RADIUS_FACTOR * r)
    ensures FaceColors(vs, fs, [center], r)[i] == Sea
  {
  }
}
