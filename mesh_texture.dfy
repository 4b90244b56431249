/**
 * `MeshTexture`: carries the colours of a reference mesh over to an edited
 * mesh by matching exact point positions.
 *
 * The constructor decides which binding is usable and builds the lookup
 * indexes for it; `Apply` rewrites a destination material for a target mesh.
 * The exact-match point index is modelled by the point sequence it was built
 * over (queried with `FindExact`), and the point-to-facets index by the facet
 * sequence it was built over (queried with `GetIndices`).
 */
module Mesh {
  import opened MeshCore
  import opened TextureRemap

  class MeshTexture {
    /** The retained copy of the reference material. */
    const materialRefMesh: Material
    var countPointsRefMesh: nat
    var binding: Binding
    /** The exact-match point index, when built. */
    var kdTree: Option<seq<Point>>
    /** The point-to-facets index, when built. */
    var refPnt2Fac: Option<seq<Facet>>

    /**
     * An index exists exactly for a usable binding, the facet index only for
     * the per-face one, and the retained colours still number one per
     * indexed element.
     */
    ghost predicate Valid()
      reads this, materialRefMesh
    {
      && (kdTree.Some? <==> binding != Overall)
      && (refPnt2Fac.Some? <==> binding == PerFace)
      && (kdTree.Some? ==> countPointsRefMesh == |kdTree.value|)
      && (binding == PerVertex ==> |materialRefMesh.diffuseColor| == countPointsRefMesh)
      && (binding == PerFace ==> |materialRefMesh.diffuseColor| == |refPnt2Fac.value|)
    }

    /** The reference points the point index was built over (none without one). */
    ghost function RefPoints(): seq<Point>
      reads this
    {
      if kdTree.Some? then kdTree.value else []
    }

    /** The reference facets the facet index was built over (none without one). */
    ghost function RefFacets(): seq<Facet>
      reads this
    {
      if refPnt2Fac.Some? then refPnt2Fac.value else []
    }

    /**
     * Per-vertex colours are usable only when declared so and one per point,
     * per-face ones only when declared so and one per facet; anything else
     * builds no index.
     */
    constructor (mesh: Kernel, material: Material)
      ensures fresh(materialRefMesh)
      ensures materialRefMesh.binding == material.binding
      ensures materialRefMesh.diffuseColor == material.diffuseColor
      ensures countPointsRefMesh == |mesh.points|
      ensures binding == PerVertex <==>
                material.binding == PerVertex && |material.diffuseColor| == |mesh.points|
      ensures binding == PerFace <==>
                material.binding == PerFace && |material.diffuseColor| == |mesh.facets|
      ensures binding == Overall <==> kdTree == None
      ensures binding != Overall ==> kdTree == Some(mesh.points)
      ensures refPnt2Fac == (if binding == PerFace then Some(mesh.facets) else None)
      ensures Valid()
    {
      materialRefMesh := new Material(material.binding, material.diffuseColor);
      var countPoints := |mesh.points|;
      countPointsRefMesh := countPoints;
      var countFacets := |mesh.facets|;
      binding := Overall;
      kdTree := None;
      refPnt2Fac := None;
      if material.binding == PerVertex && |material.diffuseColor| == countPoints {
        binding := PerVertex;
        kdTree := Some(mesh.points);
      } else if material.binding == PerFace && |material.diffuseColor| == countFacets {
        binding := PerFace;
        kdTree := Some(mesh.points);
        refPnt2Fac := Some(mesh.facets);
      }
    }

    /**
     * Resets `material` to unbound and empty, then commits the remapped
     * colours of the selected path only if every target element resolved.
     * The colours are read from a snapshot taken before the reset, so the
     * result is the same when `material` is `materialRefMesh` itself.
     */
    method Apply(mesh: Kernel, material: Material)
      requires Valid()
      requires mesh.Wellformed()
      modifies material
      ensures var r := Remap(binding, RefPoints(), RefFacets(), old(materialRefMesh.diffuseColor), mesh);
              material.binding == r.binding && material.diffuseColor == r.colors
      ensures material != materialRefMesh ==> Valid()
    {
      var textureColor := materialRefMesh.diffuseColor;
      material.diffuseColor := [];
      material.binding := Overall;

      if kdTree.Some? {
        var points := mesh.points;
        var facets := mesh.facets;
        if binding == PerVertex {
          var diffuseColor := CollectVertexColors(kdTree.value, countPointsRefMesh, textureColor, points);
          if |diffuseColor| == |points| {
            material.diffuseColor := diffuseColor;
            material.binding := PerVertex;
          }
        } else if binding == PerFace {
          var diffuseColor: seq<Color> := [];
          var pointMap := BuildPointMap(kdTree.value, countPointsRefMesh, points);
          if |pointMap| == |points| {
            diffuseColor := CollectFaceColors(refPnt2Fac.value, textureColor, pointMap, facets);
          }
          if |diffuseColor| == |facets| {
            material.diffuseColor := diffuseColor;
            material.binding := PerFace;
          }
        }
      }
    }
  }

  /**
   * The vertex loop: the reference colour of each target point that the
   * point index resolves below the reference point count, in target order.
   */
  method CollectVertexColors(refPoints: seq<Point>, countPointsRefMesh: nat, textureColor: seq<Color>,
                             points: seq<Point>) returns (diffuseColor: seq<Color>)
    requires countPointsRefMesh == |refPoints| == |textureColor|
    ensures diffuseColor == ColorsOf(textureColor, PointMap(refPoints, points))
  {
    diffuseColor := [];
    var index := 0;
    while index < |points|
      invariant index <= |points|
      invariant diffuseColor == ColorsOf(textureColor, PointMap(refPoints, points[..index]))
    {
      var pos := FindExact(refPoints, points[index]);
      assert points[..index + 1][..index] == points[..index];
      if pos < countPointsRefMesh {
        ColorsOfSnoc(textureColor, PointMap(refPoints, points[..index]), pos);
        diffuseColor := diffuseColor + [textureColor[pos]];
      }
      index := index + 1;
    }
    assert points[..index] == points;
  }

  /**
   * The point-remap loop of the face path: the reference index of each target
   * point that the point index resolves below the reference point count.
   */
  method BuildPointMap(refPoints: seq<Point>, countPointsRefMesh: nat, points: seq<Point>)
    returns (pointMap: seq<nat>)
    requires countPointsRefMesh == |refPoints|
    ensures pointMap == PointMap(refPoints, points)
  {
    pointMap := [];
    var index := 0;
    while index < |points|
      invariant index <= |points|
      invariant pointMap == PointMap(refPoints, points[..index])
    {
      var pos := FindExact(refPoints, points[index]);
      assert points[..index + 1][..index] == points[..index];
      if pos < countPointsRefMesh {
        pointMap := pointMap + [pos];
      }
      index := index + 1;
    }
    assert points[..index] == points;
  }

  /**
   * The facet loop: the colour of the one reference facet matching each
   * target facet's remapped corners, skipping facets with no or several
   * matches, in target order.
   */
  method CollectFaceColors(refFacets: seq<Facet>, textureColor: seq<Color>, pointMap: seq<nat>,
                           facets: seq<Facet>) returns (diffuseColor: seq<Color>)
    requires |textureColor| == |refFacets|
    requires forall j :: 0 <= j < |facets| ==> facets[j].Within(|pointMap|)
    ensures diffuseColor == ColorsOf(textureColor, FacetMap(refFacets, pointMap, facets))
  {
    diffuseColor := [];
    var j := 0;
    while j < |facets|
      invariant j <= |facets|
      invariant diffuseColor == ColorsOf(textureColor, FacetMap(refFacets, pointMap, facets[..j]))
    {
      var f := facets[j];
      var found := GetIndices(refFacets, pointMap[f.p0], pointMap[f.p1], pointMap[f.p2]);
      assert facets[..j + 1][..j] == facets[..j];
      if |found| == 1 {
        ColorsOfSnoc(textureColor, FacetMap(refFacets, pointMap, facets[..j]), found[0]);
        diffuseColor := diffuseColor + [textureColor[found[0]]];
      }
      j := j + 1;
    }
    assert facets[..j] == facets;
  }
}
