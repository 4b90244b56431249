# MeshTexture colour remapping, modelled in Dafny

FreeCAD's `Mesh::MeshTexture` keeps a mesh's colouring through an edit such as
a cut. It is built once from the reference mesh and its material. The
constructor decides whether the material's colours are usable per vertex or
per face. It then builds an exact-match point index and, for per-face colours,
a point-to-facets index. `apply` takes the edited mesh and a destination
material. It resets that material to `OVERALL` with no colours, then resolves
every target point, and for per-face colours every target triangle, to its
reference counterpart by exact position. It commits the remapped colours only
if every target element resolved. Otherwise the material stays empty and
unbound.

Files:

- `mesh_core.dfy` (module `MeshCore`): opaque `Point` and `Color` types, the
  `Binding` tag, facets as index triples, the mesh `Kernel`, the `Material`
  class, and the two index queries. `FindExact` returns a point index or
  "not found". `GetIndices` returns the facets incident to three points.
- `remap.dfy` (module `TextureRemap`): what `apply` computes, as functions.
  `PointMap` and `FacetMap` are what its collecting loops build. `Remap` is
  the final material. The lemmas about them state the commit rules.
- `mesh_texture.dfy` (module `Mesh`): the `MeshTexture` class. It has the
  constructor, `Apply`, and one method per collecting loop of `apply`.

The two index structures are modelled by the sequences they were built over.
The point index is the reference point sequence, queried with `FindExact`.
The point-to-facets index is the reference facet sequence, queried with
`GetIndices`. The destination material may be the very object that holds
the retained reference colours (`materialRefMesh`). `Apply` states its result
in terms of the reference colours as they were before the call, so the
aliased call is covered by the same contract.

## Model

| member | source | states |
|---|---|---|
| `MeshCore.FindExact` | src/Mod/Mesh/App/MeshTexture.cpp:64-66 | The exact-match query returns an index below the point count iff the queried point is a reference point. That index holds an equal point. "Not found" is the point count, which fails the `pos < countPointsRefMesh` guard. |
| `MeshCore.GetIndices` | src/Mod/Mesh/App/MeshTexture.cpp:91-93 | The facet lookup returns, strictly increasing, exactly the indices of the reference facets that have all three given points as corners. |
| `TextureRemap.PointMap` | src/Mod/Mesh/App/MeshTexture.cpp:78-85 | The point remap holds at most one entry per target point. Every entry is a valid reference point index whose point occurs in the target. |
| `TextureRemap.FacetMap` | src/Mod/Mesh/App/MeshTexture.cpp:89-97 | The facet remap holds at most one entry per target facet. Every entry is a valid reference facet index, so reading its colour is in range. |
| `TextureRemap.Remap` | src/Mod/Mesh/App/MeshTexture.cpp:49-106 | The result binding is `OVERALL` or the constructor's binding. An `OVERALL` result has no colours. With no usable binding, every apply yields `OVERALL` with no colours. |
| `TextureRemap.PointMapResolves` | src/Mod/Mesh/App/MeshTexture.cpp:80-88 | The point remap has one entry per target point iff every target point has an exactly equal reference point. It is then the reference index of each target point, in target order. |
| `TextureRemap.FacetMapResolves` | src/Mod/Mesh/App/MeshTexture.cpp:90-100 | The facet remap has one entry per target facet iff every facet's remapped corners match exactly one reference facet. It then holds that facet at each target position. |
| `TextureRemap.VertexPath` | src/Mod/Mesh/App/MeshTexture.cpp:62-74 | The per-vertex path commits `PER_VERTEX` iff every target point resolves. The output then has one colour per target point: the reference colour of the point's exact match. Otherwise the output is `OVERALL` and empty, never partial. |
| `TextureRemap.FacePath` | src/Mod/Mesh/App/MeshTexture.cpp:76-103 | The per-face path commits `PER_FACE` iff the target has no facets, or every target point resolves and every target facet matches exactly one reference facet. The output is then that facet's colour per target facet, in target order. Otherwise it is `OVERALL` and empty. |
| `TextureRemap.EmptyTargetCommits` | src/Mod/Mesh/App/MeshTexture.cpp:71-103 | The length guards pass trivially on empty targets. No target points commits `PER_VERTEX` with no colours. No target facets commits `PER_FACE` with no colours, even if points fail to resolve. |
| `TextureRemap.FaceAmbiguityDiscards` | src/Mod/Mesh/App/MeshTexture.cpp:91-103 | Two distinct reference facets can match one target facet's resolved corners. That facet is then skipped, and the whole per-face result is discarded (`OVERALL`, empty). |
| `TextureRemap.IdentityRemapVertex` | src/Mod/Mesh/App/MeshTexture.cpp:62-74 | Remapping per vertex onto the reference mesh itself gives back the reference colours and `PER_VERTEX`, when its points are pairwise distinct. |
| `TextureRemap.IdentityRemapFace` | src/Mod/Mesh/App/MeshTexture.cpp:76-103 | Remapping per face onto the reference mesh itself gives back the reference colours and `PER_FACE`. This needs pairwise distinct points and no facet having all the corners of another. |
| `Mesh.MeshTexture.constructor` | src/Mod/Mesh/App/MeshTexture.cpp:32-47 | The binding is `PER_VERTEX` iff declared so with one colour per point. It is `PER_FACE` iff declared so with one colour per facet. Otherwise no index is built. The point index is built for either usable binding, the facet index only for `PER_FACE`. The reference material is retained as a fresh copy. |
| `Mesh.MeshTexture.Apply` | src/Mod/Mesh/App/MeshTexture.cpp:49-106 | The destination material ends as `Remap` of the constructor's binding and indexes, the target mesh and the reference colours as they were before the call. This holds also when the destination is the retained reference material. Any other destination leaves the retained state intact. |
| `Mesh.CollectVertexColors` | src/Mod/Mesh/App/MeshTexture.cpp:63-69 | The vertex loop collects, in target order, the reference colour of each target point that resolves, and skips the others. |
| `Mesh.BuildPointMap` | src/Mod/Mesh/App/MeshTexture.cpp:78-85 | The point-remap loop builds exactly `PointMap` of the target points. |
| `Mesh.CollectFaceColors` | src/Mod/Mesh/App/MeshTexture.cpp:89-97 | The facet loop collects, in target order, the colour of the one reference facet matching each target facet's remapped corners. It skips facets with zero or several matches. |

## Left out

- The k-d tree behind `FindExact` and its floating-point coordinate comparison. Points are opaque values with exact equality. The query is modelled as a search that returns the first equal reference point. With duplicate reference positions, the real tree may return a different one of the equal points. Every remap property is stated through `FindExact`, so it holds for whichever index is returned.
- The internals of the point-to-facets index. `GetIndices` is a filter over the reference facets. Facet corners are compared as indices, so degenerate facets are handled as such a filter would handle them.
- Mesh storage (`MeshObject`, `getKernel`, `GetPoints`, `GetFacets`). A mesh is a point sequence and a facet sequence. `Apply` requires every target facet corner to name a target point, because the source indexes `pointMap` with facet corners unchecked.
- `MeshTexture.h` is not part of this model. The member `materialRefMesh` is modelled as a copy of the caller's material made by the constructor. The default of `binding` is taken to be `OVERALL`.
- Mesh.MeshTexture.Apply requires the retained colours to still number one per indexed element (`Valid`). This is because the source reads them at an unchecked position. An apply whose destination is the retained material overwrites those colours, so after it this may no longer hold.
- `App::Color` contents and material serialisation. Colours are opaque values.
- `std::vector` capacity handling (`reserve`) and `swap`. The swap is modelled as assignment.
- `unsigned long` widths. Indices and counts are unbounded naturals, since no arithmetic on them can wrap here.
- The collecting loops of `apply` are separate methods (`CollectVertexColors`, `BuildPointMap`, `CollectFaceColors`). `Apply` calls them at the points where the source runs the loops inline.
