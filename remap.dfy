/**
 * What `MeshTexture::apply` computes, as functions of the reference data and
 * the target mesh, and the properties of that result.
 *
 * `PointMap` and `FacetMap` are what apply's two collecting loops build: each
 * target element is resolved to a reference index, and an element that does
 * not resolve is skipped (no placeholder). `Remap` is the final material.
 */
module TextureRemap {
  import opened MeshCore

  /** The material apply leaves behind: its binding and colour list. */
  datatype Output = Output(binding: Binding, colors: seq<Color>)

  /** Every target point has an exactly equal reference point. */
  predicate AllResolve(refPoints: seq<Point>, points: seq<Point>) {
    forall i :: 0 <= i < |points| ==> points[i] in refPoints
  }

  /** The reference index of each target point, with no point skipped. */
  function Resolved(refPoints: seq<Point>, points: seq<Point>): seq<nat> {
    seq(|points|, i requires 0 <= i < |points| => FindExact(refPoints, points[i]))
  }

  /** The colours at the given reference indices, in order. */
  function ColorsOf(textureColor: seq<Color>, indices: seq<nat>): (r: seq<Color>)
    requires forall k :: 0 <= k < |indices| ==> indices[k] < |textureColor|
  {
    seq(|indices|, k requires 0 <= k < |indices| => textureColor[indices[k]])
  }

  lemma ColorsOfSnoc(textureColor: seq<Color>, indices: seq<nat>, x: nat)
    requires forall k :: 0 <= k < |indices| ==> indices[k] < |textureColor|
    requires x < |textureColor|
    ensures ColorsOf(textureColor, indices + [x]) == ColorsOf(textureColor, indices) + [textureColor[x]]
  {
  }

  /**
   * The point loop: for each target point in order, the reference index the
   * point index returns, kept only when it is below the reference point count.
   */
  function PointMap(refPoints: seq<Point>, points: seq<Point>): (r: seq<nat>)
    ensures |r| <= |points|
    ensures forall k :: 0 <= k < |r| ==> r[k] < |refPoints| && refPoints[r[k]] in points
  {
    if points == [] then []
    else
      var n := |points| - 1;
      var pos := FindExact(refPoints, points[n]);
      PointMap(refPoints, points[..n]) + (if pos < |refPoints| then [pos] else [])
  }

  /** Reference facets matching the mapped corners of target facet `f`. */
  function Found(refFacets: seq<Facet>, pointMap: seq<nat>, f: Facet): seq<nat>
    requires f.Within(|pointMap|)
  {
    GetIndices(refFacets, pointMap[f.p0], pointMap[f.p1], pointMap[f.p2])
  }

  /** Every target facet's mapped corners match exactly one reference facet. */
  predicate AllUnique(refFacets: seq<Facet>, pointMap: seq<nat>, facets: seq<Facet>)
    requires forall j :: 0 <= j < |facets| ==> facets[j].Within(|pointMap|)
  {
    forall j :: 0 <= j < |facets| ==> |Found(refFacets, pointMap, facets[j])| == 1
  }

  /**
   * The facet loop: for each target facet in order, the reference facet its
   * mapped corners select, kept only when exactly one reference facet matches.
   */
  function FacetMap(refFacets: seq<Facet>, pointMap: seq<nat>, facets: seq<Facet>): (r: seq<nat>)
    requires forall j :: 0 <= j < |facets| ==> facets[j].Within(|pointMap|)
    ensures |r| <= |facets|
    ensures forall k :: 0 <= k < |r| ==> r[k] < |refFacets|
  {
    if facets == [] then []
    else
      var n := |facets| - 1;
      var found := Found(refFacets, pointMap, facets[n]);
      FacetMap(refFacets, pointMap, facets[..n]) + (if |found| == 1 then [found[0]] else [])
  }

  /**
   * The material apply produces for the given target mesh, from the binding
   * chosen at construction, the reference mesh and the reference colours.
   */
  function Remap(binding: Binding, refPoints: seq<Point>, refFacets: seq<Facet>,
                 textureColor: seq<Color>, target: Kernel): (r: Output)
    requires target.Wellformed()
    requires binding == PerVertex ==> |textureColor| == |refPoints|
    requires binding == PerFace ==> |textureColor| == |refFacets|
    ensures r.binding == Overall || r.binding == binding
    ensures r.binding == Overall ==> r.colors == []
    ensures binding == Overall ==> r == Output(Overall, [])
  {
    if binding == PerVertex then
      var diffuseColor := ColorsOf(textureColor, PointMap(refPoints, target.points));
      if |diffuseColor| == |target.points| then Output(PerVertex, diffuseColor)
      else Output(Overall, [])
    else if binding == PerFace then
      var pointMap := PointMap(refPoints, target.points);
      var diffuseColor :=
        if |pointMap| == |target.points|
        then ColorsOf(textureColor, FacetMap(refFacets, pointMap, target.facets))
        else [];
      if |diffuseColor| == |target.facets| then Output(PerFace, diffuseColor)
      else Output(Overall, [])
    else
      Output(Overall, [])
  }

  /**
   * The point loop keeps every point exactly when every point resolves, and
   * then holds each point's reference index at that point's position.
   */
  lemma {:induction false} PointMapResolves(refPoints: seq<Point>, points: seq<Point>)
    ensures |PointMap(refPoints, points)| == |points| <==> AllResolve(refPoints, points)
    ensures AllResolve(refPoints, points) ==> PointMap(refPoints, points) == Resolved(refPoints, points)
  {
    if points != [] {
      var n := |points| - 1;
      var prefix := points[..n];
      PointMapResolves(refPoints, prefix);
      var pos := FindExact(refPoints, points[n]);
      assert AllResolve(refPoints, points) <==> AllResolve(refPoints, prefix) && points[n] in refPoints by {
        if AllResolve(refPoints, prefix) && points[n] in refPoints {
          forall i | 0 <= i < |points| ensures points[i] in refPoints {
            if i < n { assert points[i] == prefix[i]; }
          }
        }
      }
      if AllResolve(refPoints, points) {
        assert PointMap(refPoints, points) == Resolved(refPoints, prefix) + [pos];
      }
    }
  }

  /**
   * The facet loop keeps every facet exactly when every facet's mapped corners
   * match exactly one reference facet, and then holds that facet's index at
   * the target facet's position.
   */
  lemma {:induction false} FacetMapResolves(refFacets: seq<Facet>, pointMap: seq<nat>, facets: seq<Facet>)
    requires forall j :: 0 <= j < |facets| ==> facets[j].Within(|pointMap|)
    ensures |FacetMap(refFacets, pointMap, facets)| == |facets| <==> AllUnique(refFacets, pointMap, facets)
    ensures AllUnique(refFacets, pointMap, facets) ==>
      forall j :: 0 <= j < |facets| ==> FacetMap(refFacets, pointMap, facets)[j] == Found(refFacets, pointMap, facets[j])[0]
  {
    if facets != [] {
      var n := |facets| - 1;
      var prefix := facets[..n];
      FacetMapResolves(refFacets, pointMap, prefix);
      assert AllUnique(refFacets, pointMap, facets) <==>
             AllUnique(refFacets, pointMap, prefix) && |Found(refFacets, pointMap, facets[n])| == 1 by {
        if AllUnique(refFacets, pointMap, prefix) && |Found(refFacets, pointMap, facets[n])| == 1 {
          forall j | 0 <= j < |facets| ensures |Found(refFacets, pointMap, facets[j])| == 1 {
            if j < n { assert facets[j] == prefix[j]; }
          }
        }
      }
      if AllUnique(refFacets, pointMap, facets) {
        forall j | 0 <= j < |facets|
          ensures FacetMap(refFacets, pointMap, facets)[j] == Found(refFacets, pointMap, facets[j])[0]
        {
          if j < n { assert facets[j] == prefix[j]; }
        }
      }
    }
  }

  /**
   * Vertex path: apply commits a per-vertex colouring exactly when every
   * target point has an exact reference match, and the colour of each target
   * point is then the reference colour of its matching reference point. Any
   * unmatched point leaves the material empty and unbound.
   */
  lemma VertexPath(refPoints: seq<Point>, refFacets: seq<Facet>, textureColor: seq<Color>, target: Kernel)
    requires target.Wellformed()
    requires |textureColor| == |refPoints|
    ensures var r := Remap(PerVertex, refPoints, refFacets, textureColor, target);
      && (r.binding == PerVertex <==> AllResolve(refPoints, target.points))
      && (r.binding != PerVertex ==> r == Output(Overall, []))
      && (r.binding == PerVertex ==>
            && |r.colors| == |target.points|
            && forall i :: 0 <= i < |target.points| ==>
                 FindExact(refPoints, target.points[i]) < |refPoints| &&
                 refPoints[FindExact(refPoints, target.points[i])] == target.points[i] &&
                 r.colors[i] == textureColor[FindExact(refPoints, target.points[i])])
  {
    PointMapResolves(refPoints, target.points);
  }

  /**
   * Face path: apply commits a per-face colouring exactly when the target has
   * no facets, or every target point resolves and every target facet's
   * resolved corners match exactly one reference facet; each target facet's
   * colour is then the colour of that reference facet, in target facet order.
   */
  lemma FacePath(refPoints: seq<Point>, refFacets: seq<Facet>, textureColor: seq<Color>, target: Kernel)
    requires target.Wellformed()
    requires |textureColor| == |refFacets|
    ensures forall j :: 0 <= j < |target.facets| ==> target.facets[j].Within(|Resolved(refPoints, target.points)|)
    ensures var r := Remap(PerFace, refPoints, refFacets, textureColor, target);
      var resolved := Resolved(refPoints, target.points);
      && (r.binding == PerFace <==>
            target.facets == [] ||
            (AllResolve(refPoints, target.points) && AllUnique(refFacets, resolved, target.facets)))
      && (r.binding != PerFace ==> r == Output(Overall, []))
      && (r.binding == PerFace ==>
            && |r.colors| == |target.facets|
            && forall j :: 0 <= j < |target.facets| ==>
                 |Found(refFacets, resolved, target.facets[j])| == 1 &&
                 r.colors[j] == textureColor[Found(refFacets, resolved, target.facets[j])[0]])
  {
    PointMapResolves(refPoints, target.points);
    var pointMap := PointMap(refPoints, target.points);
    if |pointMap| == |target.points| {
      FacetMapResolves(refFacets, pointMap, target.facets);
    }
  }

  /**
   * Empty targets commit trivially: no target points commit an empty
   * per-vertex colouring, and no target facets commit an empty per-face
   * colouring even when the target points do not all resolve.
   */
  lemma EmptyTargetCommits(refPoints: seq<Point>, refFacets: seq<Facet>, textureColor: seq<Color>, target: Kernel)
    requires target.Wellformed()
    ensures target.points == [] && |textureColor| == |refPoints| ==>
      Remap(PerVertex, refPoints, refFacets, textureColor, target) == Output(PerVertex, [])
    ensures target.facets == [] && |textureColor| == |refFacets| ==>
      Remap(PerFace, refPoints, refFacets, textureColor, target) == Output(PerFace, [])
  {
  }

  /**
   * Two distinct reference facets sharing the resolved corners of one target
   * facet make that facet ambiguous; it is skipped, and the whole per-face
   * colouring is discarded.
   */
  lemma FaceAmbiguityDiscards(refPoints: seq<Point>, refFacets: seq<Facet>, textureColor: seq<Color>,
                              target: Kernel, j: nat, k1: nat, k2: nat)
    requires target.Wellformed()
    requires |textureColor| == |refFacets|
    requires j < |target.facets|
    requires k1 < k2 < |refFacets|
    requires var f := target.facets[j];
      var a, b, c := FindExact(refPoints, target.points[f.p0]), FindExact(refPoints, target.points[f.p1]),
                     FindExact(refPoints, target.points[f.p2]);
      refFacets[k1].HasCorners(a, b, c) && refFacets[k2].HasCorners(a, b, c)
    ensures Remap(PerFace, refPoints, refFacets, textureColor, target) == Output(Overall, [])
  {
    FacePath(refPoints, refFacets, textureColor, target);
    var resolved := Resolved(refPoints, target.points);
    var found := Found(refFacets, resolved, target.facets[j]);
    assert k1 in found && k2 in found;
    assert |found| != 1;
  }

  /** A strictly increasing sequence spans at least its length. */
  lemma {:induction false} IncreasingSpread(s: seq<nat>)
    requires forall k, l :: 0 <= k < l < |s| ==> s[k] < s[l]
    ensures |s| > 0 ==> s[0] + |s| - 1 <= s[|s| - 1]
  {
    if |s| > 1 {
      IncreasingSpread(s[..|s| - 1]);
    }
  }

  /** No two reference points share a position. */
  predicate DistinctPoints(points: seq<Point>) {
    forall i, k :: 0 <= i < k < |points| ==> points[i] != points[k]
  }

  /** No reference facet has all the corners of another one. */
  predicate DistinctFacets(facets: seq<Facet>) {
    forall j, k :: 0 <= j < |facets| && 0 <= k < |facets| && j != k ==>
      !facets[k].HasCorners(facets[j].p0, facets[j].p1, facets[j].p2)
  }

  lemma FindExactDistinct(points: seq<Point>, i: nat)
    requires DistinctPoints(points)
    requires i < |points|
    ensures FindExact(points, points[i]) == i
  {
    var r := FindExact(points, points[i]);
    assert points[i] in points;
  }

  /**
   * Identity remap, per vertex: applying to the reference mesh itself, when
   * its points are pairwise distinct, gives back the reference colours.
   */
  lemma IdentityRemapVertex(refPoints: seq<Point>, refFacets: seq<Facet>, textureColor: seq<Color>)
    requires Kernel(refPoints, refFacets).Wellformed()
    requires DistinctPoints(refPoints)
    requires |textureColor| == |refPoints|
    ensures Remap(PerVertex, refPoints, refFacets, textureColor, Kernel(refPoints, refFacets))
            == Output(PerVertex, textureColor)
  {
    var target := Kernel(refPoints, refFacets);
    assert AllResolve(refPoints, refPoints) by {
      forall i | 0 <= i < |refPoints| ensures refPoints[i] in refPoints { }
    }
    VertexPath(refPoints, refFacets, textureColor, target);
    var r := Remap(PerVertex, refPoints, refFacets, textureColor, target);
    forall i | 0 <= i < |refPoints| ensures r.colors[i] == textureColor[i] {
      FindExactDistinct(refPoints, i);
    }
  }

  /**
   * Identity remap, per face: applying to the reference mesh itself, when its
   * points are pairwise distinct and no facet repeats another's corners,
   * gives back the reference colours.
   */
  lemma IdentityRemapFace(refPoints: seq<Point>, refFacets: seq<Facet>, textureColor: seq<Color>)
    requires Kernel(refPoints, refFacets).Wellformed()
    requires DistinctPoints(refPoints)
    requires DistinctFacets(refFacets)
    requires |textureColor| == |refFacets|
    ensures Remap(PerFace, refPoints, refFacets, textureColor, Kernel(refPoints, refFacets))
            == Output(PerFace, textureColor)
  {
    var target := Kernel(refPoints, refFacets);
    var resolved := Resolved(refPoints, refPoints);
    assert AllResolve(refPoints, refPoints) by {
      forall i | 0 <= i < |refPoints| ensures refPoints[i] in refPoints { }
    }
    forall i | 0 <= i < |refPoints| ensures resolved[i] == i {
      FindExactDistinct(refPoints, i);
    }
    forall j | 0 <= j < |refFacets| ensures Found(refFacets, resolved, refFacets[j]) == [j] {
      var f := refFacets[j];
      var found := Found(refFacets, resolved, f);
      assert found == GetIndices(refFacets, f.p0, f.p1, f.p2);
      assert j in found;
      forall k | 0 <= k < |found| ensures found[k] == j {
        assert refFacets[found[k]].HasCorners(f.p0, f.p1, f.p2);
      }
      IncreasingSpread(found);
    }
    FacePath(refPoints, refFacets, textureColor, target);
  }
}
