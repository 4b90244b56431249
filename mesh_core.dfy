/**
 * The mesh kernel and material types the texture remapping works on, and the
 * two lookup collaborators it queries: the exact-match point index (a k-d tree
 * in the mesh kernel) and the point-to-facets index.
 *
 * Points and colours are opaque: the remapping only ever compares points for
 * exact equality and copies colours around.
 */
module MeshCore {

  /** A point position; the only thing observed of it is exact equality. */
  type Point(==)

  /** A diffuse colour value; copied, never inspected. */
  type Color

  datatype Option<T> = None | Some(value: T)

  /** How the colours of a material attach to a mesh. */
  datatype Binding = Overall | PerVertex | PerFace

  /** A triangle, given by the indices of its three corner points. */
  datatype Facet = Facet(p0: nat, p1: nat, p2: nat)
  {
    /** Every corner index is below `n`. */
    predicate Within(n: nat) {
      p0 < n && p1 < n && p2 < n
    }

    /** Point `i` is one of the corners. */
    predicate HasCorner(i: nat) {
      i == p0 || i == p1 || i == p2
    }

    /** Each of `a`, `b` and `c` is a corner. */
    predicate HasCorners(a: nat, b: nat, c: nat) {
      HasCorner(a) && HasCorner(b) && HasCorner(c)
    }
  }

  /** The storage of a mesh: its points and its triangles, both in index order. */
  datatype Kernel = Kernel(points: seq<Point>, facets: seq<Facet>)
  {
    /** Every facet names points that exist. */
    predicate Wellformed() {
      forall j :: 0 <= j < |facets| ==> facets[j].Within(|points|)
    }
  }

  /** A material: a binding tag and the colour list it qualifies. */
  class Material {
    var binding: Binding
    var diffuseColor: seq<Color>

    constructor (binding: Binding, diffuseColor: seq<Color>)
      ensures this.binding == binding && this.diffuseColor == diffuseColor
    {
      this.binding := binding;
      this.diffuseColor := diffuseColor;
    }
  }

  /**
   * Exact-match query of the point index built over `points`: the index of a
   * point equal to `p`, or `|points|` ("not found") when there is none.
   */
  function FindExact(points: seq<Point>, p: Point): (r: nat)
    ensures r <= |points|
    ensures r < |points| <==> p in points
    ensures r < |points| ==> points[r] == p
  {
    if |points| == 0 then 0
    else if points[0] == p then 0
    else 1 + FindExact(points[1..], p)
  }

  /**
   * Query of the point-to-facets index built over `facets`: the indices, in
   * increasing order, of every facet that has all of `a`, `b` and `c` as
   * corners.
   */
  function GetIndices(facets: seq<Facet>, a: nat, b: nat, c: nat): (r: seq<nat>)
    ensures forall k :: 0 <= k < |r| ==> r[k] < |facets| && facets[r[k]].HasCorners(a, b, c)
    ensures forall j :: 0 <= j < |facets| && facets[j].HasCorners(a, b, c) ==> j in r
    ensures forall k, l :: 0 <= k < l < |r| ==> r[k] < r[l]
  {
    if facets == [] then []
    else
      var n := |facets| - 1;
      var r' := GetIndices(facets[..n], a, b, c);
      if facets[n].HasCorners(a, b, c) then r' + [n] else r'
  }
}
