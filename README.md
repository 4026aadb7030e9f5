# mammaltag: mesh extraction and seal-tag engraving sizing

mammaltag builds a seal tag, a triangular prism with filleted edges whose
bottom face carries engraved text, with the OpenCascade modelling kernel. It
turns the finished solid into an indexed triangle mesh for the renderer. This
project models two parts of `src/main/cad.ts`:

- **Mesh extraction** (`shapeToMesh`). The faces of the solid are walked in
  enumeration order, and faces with no triangulation are skipped. Every
  other face appends:
  - each node's position to `vertices`;
  - each node's normal, negated on a reversed face, to `normals`;
  - each triangle's 1-based node numbers to `indices`, made 0-based and
    shifted by the running vertex offset, with the second and third corner
    swapped on a reversed face.

  The offset then grows by the face's node count.
  - `Mesh` defines the result as the function `Extract` of the face
    sequence and proves what it promises: lengths, index bounds, where each
    face lands, orientation handling, distinct corners and append-only
    composition.
  - `MeshExtraction.ShapeToMesh` is the loop itself: a `while` over faces
    with a `for` over nodes (`PushNodes`) and a `for` over triangles
    (`PushTriangles`). It is proved to compute exactly `Extract`.
- **Engraving sizing** (`cad:build-seal-tag`). `SealTag` covers:
  - the rule that only non-empty text is engraved;
  - the font-size clamp;
  - the recess depth with its floor;
  - the plane the text is laid in and the length of the extrusion;
  - the choice of body handed to mesh extraction.

A face is `Option<FaceTri>`, where `None` means the kernel had no
triangulation for it. A `FaceTri` holds the nodes, the triangles with
1-based node numbers, and the reversed flag. Each node pairs its position,
already moved into model space by the face's location, with its normal as
the triangulation stores it, in the triangulation's own frame. Coordinates
are `real`.

## Model

| member | source | states |
|---|---|---|
| Mesh.Oriented | src/main/cad.ts:72-73 | An emitted normal component keeps its size. Its sign changes exactly on a reversed face, unless it is zero. |
| Mesh.FacePositions | src/main/cad.ts:67-69 | A face contributes 3 position numbers per node. `Mesh.FacePositionsAt` says which numbers go where. |
| Mesh.FaceNormals | src/main/cad.ts:71-73 | A face contributes 3 oriented normal numbers per node. `Mesh.FaceNormalsAt` says which numbers go where. |
| Mesh.Corner | src/main/cad.ts:81-85 | Each emitted corner is one of the triangle's node numbers. The first corner is always n1. On a forward face the corners keep the order (n1, n2, n3). |
| Mesh.CornersPermute | src/main/cad.ts:81-85 | In either winding, the three emitted corners are the triangle's three node numbers, each used once. |
| Mesh.FaceIndices | src/main/cad.ts:76-86 | A face contributes 3 indices per triangle. `Mesh.FaceIndicesAt` says which indices go where. |
| Mesh.NodeCount | src/main/cad.ts:55-88 | The vertex offset after a run of faces. It is at least the node count of every triangulated face in the run. |
| Mesh.TriangleCount | src/main/cad.ts:55-86 | The triangles emitted for a run of faces. It is at least the triangle count of every triangulated face in the run. |
| Mesh.Vertices | src/main/cad.ts:46-74 | The reference for the `vertices` buffer the face loop builds: 3 numbers per node of the triangulated faces. |
| Mesh.Normals | src/main/cad.ts:46-74 | The reference for the `normals` buffer: 3 numbers per node of the triangulated faces. |
| Mesh.Indices | src/main/cad.ts:46-92 | The reference for the `indices` buffer: 3 indices per triangle of the triangulated faces. |
| Mesh.Extract | src/main/cad.ts:32-99 | The mesh has 3 numbers per node of every triangulated face in both `vertices` and `normals`, and 3 indices per triangle. |
| Mesh.Snoc | src/main/cad.ts:55-89 | One more face changes nothing when it has no triangulation. Otherwise it adds its node and triangle counts and appends its positions, its oriented normals and its indices offset by the nodes already emitted. |
| Mesh.FacePositionsAt | src/main/cad.ts:67-69 | Node i's position is copied unchanged to entries 3i, 3i+1 and 3i+2 of the face's positions. |
| Mesh.FaceNormalsAt | src/main/cad.ts:71-73 | Node i's normal is copied to entries 3i..3i+2 unchanged on a forward face and negated component by component on a reversed one. |
| Mesh.FaceIndicesAt | src/main/cad.ts:76-86 | Triangle j (n1, n2, n3) is emitted at 3j..3j+2 as (n1-1+o, n2-1+o, n3-1+o), or as (n1-1+o, n3-1+o, n2-1+o) on a reversed face. |
| Mesh.FaceIndicesShift | src/main/cad.ts:78-80 | Raising the vertex offset by k raises every index of the face by k. |
| Mesh.FaceIndicesBounded | src/main/cad.ts:78-80 | If every node number of a face is in 1..nbNodes, every index it emits is in [offset, offset + nbNodes). |
| Mesh.FaceIndicesDistinct | src/main/cad.ts:78-85 | If a triangle names three different nodes, its three emitted indices differ, in either winding. |
| Mesh.CountsAppend | src/main/cad.ts:67-88 | Node and triangle totals over two runs of faces add up. |
| Mesh.VerticesAppend | src/main/cad.ts:46-74 | The positions of a + b are those of a, untouched, followed by those of b. |
| Mesh.NormalsAppend | src/main/cad.ts:46-74 | The normals of a + b are those of a, untouched, followed by those of b. |
| Mesh.IndicesAppend | src/main/cad.ts:76-92 | The indices of a + b are those of a, untouched, followed by those of b shifted by the node count of a. |
| Mesh.ExtractAppend | src/main/cad.ts:46-92 | The output is append-only: later faces never change what earlier faces emitted, and the vertex offset is the only coupling between them. |
| Mesh.ExtractFaceAt | src/main/cad.ts:46-92 | Triangulated face k occupies `vertices`/`normals` from 3·(nodes before it) and `indices` from 3·(triangles before it), holding exactly its own positions, oriented normals and indices offset by the nodes before it. |
| Mesh.IndicesInBounds | src/main/cad.ts:78-88 | If every face is well indexed, every emitted index is at least 0 and below \|vertices\|/3. |
| Mesh.TrianglesDistinct | src/main/cad.ts:78-85 | If no triangle repeats a node number, every emitted triangle is three different indices. |
| Mesh.UntriangulatedFacesIgnored | src/main/cad.ts:55-89 | Dropping the faces without a triangulation changes neither the node count (the final vertex offset) nor any output buffer. |
| MeshExtraction.PushNodes | src/main/cad.ts:67-74 | The node loop appends exactly the face's positions to `vertices` and its oriented normals to `normals`, leaving what was there before. |
| MeshExtraction.PushTriangles | src/main/cad.ts:76-86 | The triangle loop appends exactly the face's remapped, re-wound indices to `indices`, leaving what was there before. |
| MeshExtraction.ShapeToMesh | src/main/cad.ts:32-99 | The loop computes exactly `Extract(faces)`. The loop invariant keeps the vertex offset equal to the nodes of the triangulated faces so far. |
| SealTag.FontSize | src/main/cad.ts:246-249 | The font size is at most (width·0.8)/(len·0.6) and at most depth·0.4, and equals one of the two. |
| SealTag.TextFitsWidth | src/main/cad.ts:245-249 | At 0.6 of the font size per character, the text line is never wider than 80 % of the bottom face's width. |
| SealTag.FontSizePositive | src/main/cad.ts:246-249 | A positive width and depth give a positive font size. |
| SealTag.FontSizeShrinksWithLength | src/main/cad.ts:246-249 | For a non-negative width, longer text never gets a larger font. |
| SealTag.EngraveDepth | src/main/cad.ts:274 | The recess depth is at least 0.02 and at least height·0.05, and equals one of them. It is less than the tag's height exactly when the height exceeds 0.02. |
| SealTag.ExtrusionLength | src/main/cad.ts:275 | The text tool is extruded strictly further than the recess depth. |
| SealTag.PlanEngraving | src/main/cad.ts:242-275 | An engraving is planned if and only if the text is present and non-empty. It then carries the clamped font size and a tool that starts below the bottom face (y = −0.01) and ends exactly the recess depth above it. |
| SealTag.FinalBody | src/main/cad.ts:242-292 | Absent or empty text hands the filleted body to mesh extraction unchanged. Otherwise the body handed on is the kernel's cut result for the planned engraving. |

## Left out

- The kernel's meshing call (`cad.ts:33`), the face explorer (`cad.ts:40-47`, `91`) and the triangulation lookup (`cad.ts:49-53`) are foreign calls. Their result is the input face sequence.
- The face location transform (`cad.ts:48`, `57`, `68`) is applied inside the kernel, so node positions are taken as already transformed. The source does not transform the normals: `cad.ts:71` reads `tri.Normal_1(i)` in the triangulation's own frame. `Node.normal` is that untransformed normal. On a face whose location includes a rotation, the emitted normals are therefore not in the same frame as the positions. The model reproduces this and does not state anything about the normals' direction in model space.
- Normal computation for triangulations without normals (`cad.ts:63-65`) happens inside the kernel. Each node carries its normal as input.
- The conversion to `Float32Array`/`Uint32Array` (`cad.ts:94-98`) is not modelled. Coordinates stay `real` and indices stay `int`, so float32 rounding and the unsigned wrap of a negative index from a malformed triangulation are outside the model. `Mesh.IndicesInBounds` shows that no index is negative when the faces are well indexed.
- SealTag.FontSize: computed over `real`. JavaScript double rounding and `Math.min` on NaN or infinite inputs are not modelled.
- SealTag.EngraveDepth: computed over `real`. JavaScript double rounding and `Math.max` on NaN are not modelled.
- SealTag.PlanEngraving: counts the text's characters. JavaScript's `text.length` counts UTF-16 code units, so a character outside the Basic Multilingual Plane counts once here and twice in the source.
- The following are kernel construction calls with no visible source:
  - the body construction (the profile, prism and fillets at `cad.ts:165-239`);
  - the text builder (`cad.ts:250-271`), including glyph outlines and alignment;
  - the prism of the text and the boolean cut (`cad.ts:276-289`).

  `SealTag.FinalBody` takes the cut as a function parameter.
- Font lookup and loading (`findSystemFont`, `ensureFont`, `cad.ts:102-137`) are file-system I/O. When the text is non-empty and no candidate font exists, `findSystemFont` throws (`cad.ts:118-120`, reached from `cad.ts:243`) and the whole build request fails. `SealTag.FinalBody` assumes the font loads and does not model that failure.
- Kernel loading (`getOC`, `cad.ts:8-23`) is asynchronous module loading with a process-lifetime cache.
- The IPC handler registration and the hello-world build (`cad.ts:139-161`) are Electron plumbing around calls into the kernel.
- `src/main/index.ts`, `src/preload/index.ts` and `src/renderer/*` are not part of this model: window, IPC bridge and user interface code.
- A failed engraving cut is not recovered. `cad.ts:288-289` assigns `textCut.Shape()` without checking the cut's status, and `SealTag.FinalBody` likewise always uses the cut's result.
- Whatever shape the text builder returns is extruded and cut, for any text with `text.length > 0`, including text of only spaces (`cad.ts:274-289`). The model does the same: `SealTag.PlanEngraving` plans an engraving for every non-empty text. The shape of the text itself is the kernel's and is not modelled.
