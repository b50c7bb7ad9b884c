# Lab4 software rasterizer — a Dafny model of its core

Lab4 is a small CPU renderer written in Rust. It loads an OBJ mesh, runs a
programmable vertex and fragment shader over it, and rasterizes the
triangles into a colour and depth framebuffer. An input layer turns key
events into per-action flags. This project models the discrete core of
that renderer and proves what each piece promises:

- **Raster target** (`buffers.dfy`). `Framebuffer` is a class over two
  arrays of `width * height` cells. `PutPixel` is the nearest-wins depth
  test. Every method is proved against a function on the `Image` value
  (`NewImage`, `FillColor`, `FillDepth`, `Put`). The lemmas about those
  functions cover:
  - the row-major index;
  - bounds;
  - strict depth comparison, where a tie keeps the earlier write;
  - order independence of writes at distinct depths;
  - monotone depth.
- **Triangle rasterizer** (`raster.dfy`). It uses:
  - barycentric weights with their identities;
  - the closed all-weights-non-negative coverage rule;
  - depth interpolated linearly;
  - attributes interpolated with 1/w weights.

  `RasterTriangle` runs the nested pixel loops over the clamped bounding
  box and writes through `PutPixel`. It is proved equal to the fold
  `RasterImage`. `RasterCell` then states the outcome in every pixel: the
  shaded colour and interpolated depth where the centre is covered and
  strictly nearer, and the old cell everywhere else. No pixel is lost to
  the clamp.
- **Draw pipeline** (`pipeline.dfy`). It has two stages:
  - The vertex stage runs the vertex program once per vertex into
    index-aligned buffers, with uv = (0, 0).
  - The triangle loop rejects any triangle with a clip w ≤ 0. It then
    divides by w, maps through the viewport, normalises the normals and
    rasterizes with the fragment program.

  `DrawMesh` is proved equal to the fold `DrawSpec`. The lemmas about it
  cover composition in mesh order, monotone depth, rejected triangles and
  the empty mesh.
- **OBJ face handling** (`model.dfy`, with Rust's `str` helpers in
  `text.dfy`). This covers:
  - `parse_face_token`;
  - the per-line logic of `load_obj`: `v` and `vn` records, `(v, vn)` key
    deduplication, fan triangulation and every error path.

  `LoadObj` is proved equal to the fold `LoadObjSpec`. It returns only
  well-formed meshes, in which every triangle index is below the vertex
  count. That is the precondition `DrawMesh` needs. The dedup map is a
  bijection between the keys seen and the vertices built.
- **Input** (`controls.dfy`). `Input` is a class holding a map from action
  to `held`/`pressed`/`released`. `ActionDown`, `ActionUp` and
  `BeginFrame` are proved against the table functions `Down`, `Up` and
  `Cleared`. The lemmas cover each transition, key repeat, isolation of
  actions, the frame reset and an invariant over whole event sequences.

The floating-point arithmetic is modelled on `real`. The depth `+inf` is
the constructor `Far`. Three float operations that the source leaves to
`f32` are parameters (`FloatOps`):

- `Vec3::normalize`;
- the `length().is_finite()` test;
- `str::parse::<f32>`.

A shader is a pair of function values, with the frame's uniforms bound
into them.

The code and its unit test disagree on one input, and the model follows
the code. `parse_face_token("1/2/3")` returns `(1, Some(3))`
(`Lab4/src/scene/model.rs:154-163`), but the test at
`Lab4/src/scene/model.rs:176` expects an error. `FaceTokenFullForm` proves
what the code returns.

## Model

| member | source | states |
|---|---|---|
| Buffers.Idx | Lab4/src/renderer/buffers.rs:34-39 | a cell index exists exactly when 0 ≤ x < width and 0 ≤ y < height; it is below width·height and decodes back to (x, y) by division and remainder |
| Buffers.IdxInjective | Lab4/src/renderer/buffers.rs:34-39 | two in-range pixels with the same cell index are the same pixel |
| Buffers.IdxCovers | Lab4/src/renderer/buffers.rs:34-39 | every cell index below width·height is the index of pixel (i mod width, i div width) |
| Buffers.Put | Lab4/src/renderer/buffers.rs:50-57 | `put_pixel` on an image keeps both arrays of length width·height and the dimensions unchanged |
| Buffers.Rgb | Lab4/src/renderer/buffers.rs:8 | `Color::rgb`, an opaque colour (alpha 255); `NewImageIsCleared` states that a new image's cells are `Rgb(0, 0, 0)`, i.e. (0, 0, 0, 255) |
| Buffers.NewImage | Lab4/src/renderer/buffers.rs:26-32 | the image `Framebuffer::new` builds; its contents are stated by `NewImageIsCleared` and the constructor's ensures |
| Buffers.FillColor | Lab4/src/renderer/buffers.rs:41-43 | `clear_color` on an image; `FillColorSpec` states that every colour cell takes c and depth is untouched, and `Framebuffer.ClearColor` is proved equal to it |
| Buffers.FillDepth | Lab4/src/renderer/buffers.rs:45-47 | `clear_depth` on an image; `ClearDepthThenPutWrites` states that colour is untouched and that every in-range write afterwards passes the depth test, and `Framebuffer.ClearDepth` is proved equal to it |
| Buffers.NewImageIsCleared | Lab4/src/renderer/buffers.rs:26-32 | a new target has width·height cells, each opaque black (0,0,0,255) at depth +inf |
| Buffers.FillColorSpec | Lab4/src/renderer/buffers.rs:41-43 | clearing colour sets every colour cell to c and leaves depth and dimensions alone |
| Buffers.ClearDepthThenPutWrites | Lab4/src/renderer/buffers.rs:45-55 | clearing depth leaves colour alone, and afterwards any write to an in-range pixel passes the depth test and stores its colour and depth |
| Buffers.PutOutOfBounds | Lab4/src/renderer/buffers.rs:50-51 | a write outside the target changes nothing |
| Buffers.PutCell | Lab4/src/renderer/buffers.rs:50-57 | a write changes only the cell of (x, y), and that cell only when z is strictly nearer than the stored depth, setting colour c and depth z |
| Buffers.PutNeverRaisesDepth | Lab4/src/renderer/buffers.rs:52-55 | no cell's stored depth becomes farther |
| Buffers.PutTieKeepsEarlier | Lab4/src/renderer/buffers.rs:52-55 | a write at exactly the stored depth is rejected, so the earlier write stays |
| Buffers.PutOrderIndependent | Lab4/src/renderer/buffers.rs:52-55 | two writes to one pixel at distinct depths give the same image in either order |
| Buffers.NearestWins | Lab4/src/renderer/buffers.rs:52-55 | after a depth clear, the nearer of two writes leaves its colour, whichever comes first |
| Buffers.Framebuffer.constructor | Lab4/src/renderer/buffers.rs:26-32 | the new framebuffer holds `NewImage(w, h)` in fresh arrays |
| Buffers.Framebuffer.ClearColor | Lab4/src/renderer/buffers.rs:41-43 | the loop leaves exactly `FillColor` of the old contents |
| Buffers.Framebuffer.ClearDepth | Lab4/src/renderer/buffers.rs:45-47 | the loop leaves exactly `FillDepth` of the old contents |
| Buffers.Framebuffer.PutPixel | Lab4/src/renderer/buffers.rs:50-57 | the framebuffer afterwards holds `Put` of its old contents |
| Raster.Barycentric | Lab4/src/renderer/raster.rs:21-28 | weights exist exactly when the triangle has non-zero area, and they sum to 1 |
| Raster.BarycentricReconstructs | Lab4/src/renderer/raster.rs:21-28 | the weights reproduce the point: w0·p0 + w1·p1 + w2·p2 = px in both coordinates |
| Raster.BarycentricAtVertices | Lab4/src/renderer/raster.rs:21-28 | at each vertex the weights are the unit weight of that vertex |
| Raster.Inside | Lab4/src/renderer/raster.rs:31-33 | `inside_triangle`, the closed all-weights-non-negative test; `InsideWithinExtents`, `BoxHoldsCoverage` and `ScaledWeightsPositive` state what it guarantees |
| Raster.PerspInterp1 | Lab4/src/renderer/raster.rs:37-40 | `persp_interp1`; `PerspInterpAtVertex`, `PerspInterpBetween` and `PerspInterpConstant` state its properties |
| Raster.PerspInterp2 | Lab4/src/renderer/raster.rs:44-49 | `persp_interp2`, per component; `PerspInterpVecAtVertex` states vertex exactness |
| Raster.PerspInterp3 | Lab4/src/renderer/raster.rs:53-59 | `persp_interp3`, per component; `PerspInterpVecAtVertex` states vertex exactness |
| Raster.PerspInterpAtVertex | Lab4/src/renderer/raster.rs:37-40 | with weights (c,0,0), (0,c,0) or (0,0,c), c ≠ 0, `persp_interp1` returns that vertex's attribute exactly |
| Raster.PerspInterpVecAtVertex | Lab4/src/renderer/raster.rs:44-59 | the same vertex exactness for `persp_interp2` and `persp_interp3` |
| Raster.PerspInterpBetween | Lab4/src/renderer/raster.rs:37-40 | with non-negative weights of positive sum the result lies between the smallest and largest attribute |
| Raster.PerspInterpConstant | Lab4/src/renderer/raster.rs:37-40 | a constant attribute interpolates to itself |
| Raster.ScaledWeightsPositive | Lab4/src/renderer/raster.rs:93-95 | for a covered pixel and positive 1/w, the perspective weights have a positive sum, so every interpolation denominator is non-zero |
| Raster.FragmentAt | Lab4/src/renderer/raster.rs:93-102 | the depth and varyings of a covered pixel; `FragmentAtVertex` states that at a vertex it carries that vertex's depth and attributes |
| Raster.Cover | Lab4/src/renderer/raster.rs:90-102 | the fragment a pixel centre produces when its weights pass `Inside`; `CoveredCentreInExtents`, `BoxHoldsCoverage` and `RasterCell` state its role |
| Raster.FragmentAtVertex | Lab4/src/renderer/raster.rs:93-101 | at vertex 0's weights the fragment has that vertex's depth, position and uv; its normal is the renormalised vertex normal, or the vertex's own normal when that is not finite |
| Raster.BoundingBox | Lab4/src/renderer/raster.rs:75-78 | the clamped box has min_x ≥ 0, max_x ≤ width−1, min_y ≥ 0 and max_y ≤ height−1, so every visited pixel is in range |
| Raster.InsideWithinExtents | Lab4/src/renderer/raster.rs:90-91 | a point with all weights ≥ 0 lies within the triangle's x and y extents |
| Raster.CoveredCentreInExtents | Lab4/src/renderer/raster.rs:90-91 | a covered pixel centre lies within the triangle's extents |
| Raster.BoxHoldsCoverage | Lab4/src/renderer/raster.rs:75-91 | every in-range pixel whose centre is covered lies inside the clamped box, so the loops visit it |
| Raster.RasterImage | Lab4/src/renderer/raster.rs:62-107 | rasterizing keeps the target's dimensions and array lengths |
| Raster.ShadeAt | Lab4/src/renderer/raster.rs:90-104 | one pixel: put the shaded fragment if the centre is covered; `ShadeAtCell` states that only that pixel's cell changes, to its `CellAfter` value |
| Raster.Row | Lab4/src/renderer/raster.rs:89-105 | the x loop over one row, left to right; `RowCell` states each cell it produces |
| Raster.Rows | Lab4/src/renderer/raster.rs:88-106 | the y loop over the box, top to bottom; `RowsCell` states each cell it produces |
| Raster.ShadeAtCell | Lab4/src/renderer/raster.rs:90-104 | shading one pixel changes at most that pixel's cell, as `CellAfter` says |
| Raster.RowCell | Lab4/src/renderer/raster.rs:89-104 | after one row span, every cell of the span is as `CellAfter` says and every other cell is untouched |
| Raster.RowsCell | Lab4/src/renderer/raster.rs:88-104 | after the rows of a box, every cell inside the box is as `CellAfter` says and every cell outside is untouched |
| Raster.RasterCell | Lab4/src/renderer/raster.rs:62-107 | each in-range pixel ends with the shaded colour and interpolated depth if its centre is covered (all weights ≥ 0) and strictly nearer than the stored depth, and keeps its old cell otherwise |
| Raster.RasterNeverRaisesDepth | Lab4/src/renderer/raster.rs:103-104 | rasterizing never makes a stored depth farther, since every write goes through the depth test |
| Raster.RasterLeavesUncovered | Lab4/src/renderer/raster.rs:90-91 | a pixel whose centre is not covered keeps its colour and depth |
| Raster.RasterTriangle | Lab4/src/renderer/raster.rs:62-107 | the nested loops leave exactly `RasterImage` of the old contents (which is the old contents on an empty target or an empty box) |
| Pipeline.InputOf | Lab4/src/renderer/pipeline.rs:49-53 | the vertex-shader input for one mesh vertex; `VertexStage` states that the vertex program runs on it once per vertex, in order |
| Pipeline.ClipPositions | Lab4/src/renderer/pipeline.rs:45-57 | the clip positions of the vertex stage; `VertexStage` is the loop that fills them, and `DrawMesh` draws with them |
| Pipeline.VaryBuffer | Lab4/src/renderer/pipeline.rs:45-57 | the per-vertex varyings of the vertex stage, index-aligned with the clip positions; `VertexStage` fills them |
| Pipeline.VaryOf | Lab4/src/renderer/pipeline.rs:56 | the (pos_ws, nrm_ws, uv) kept from one vertex output; `VertexStage` states that vertex i's varyings are `VaryOf` of its output |
| Pipeline.FragmentShade | Lab4/src/renderer/pipeline.rs:95-97 | the closure passed to `raster_triangle`, which ignores x, y and z; `DrawTriangle` and `AcceptedTriangleCell` use it |
| Pipeline.Ndc | Lab4/src/renderer/pipeline.rs:68-72 | the NDC point has w = 1, and its x, y and z times the clip w give back the clip coordinates |
| Pipeline.Assemble | Lab4/src/renderer/pipeline.rs:59-94 | a triangle is accepted exactly when all three clip w are > 0; then every inv_w is positive and is the reciprocal of its w, the depths are the z of the viewport-mapped NDC points, and the varyings carry normalised normals |
| Pipeline.TriangleStep | Lab4/src/renderer/pipeline.rs:59-97 | one triangle's effect keeps the target's dimensions |
| Pipeline.DrawTris | Lab4/src/renderer/pipeline.rs:59-98 | drawing the triangles in order keeps the target's dimensions |
| Pipeline.DrawSpec | Lab4/src/renderer/pipeline.rs:35-98 | `draw_mesh` on an image keeps the target's dimensions |
| Pipeline.BehindCameraSkipped | Lab4/src/renderer/pipeline.rs:65 | a triangle with a vertex at clip w ≤ 0 leaves the image unchanged |
| Pipeline.AcceptedTriangleCell | Lab4/src/renderer/pipeline.rs:94-97 | an accepted triangle leaves in each pixel the fragment program's colour and the interpolated depth where covered and nearer, and the old cell elsewhere |
| Pipeline.DrawSplit | Lab4/src/renderer/pipeline.rs:59 | drawing A then B equals drawing B over the image A left: triangles go in mesh order, each seeing the depth left by earlier ones |
| Pipeline.DrawNeverRaisesDepth | Lab4/src/renderer/pipeline.rs:59-98 | drawing any number of triangles never makes a stored depth farther |
| Pipeline.EmptyMeshDrawsNothing | Lab4/src/renderer/pipeline.rs:59-98 | a well-formed mesh that is empty (no vertices or no triangles) leaves the image unchanged |
| Pipeline.VertexStage | Lab4/src/renderer/pipeline.rs:45-57 | the vertex program runs once per vertex: both buffers have one entry per vertex, the i-th being the output for vertex i |
| Pipeline.DrawTriangle | Lab4/src/renderer/pipeline.rs:60-97 | one pass of the triangle loop leaves exactly `TriangleStep` of the old contents |
| Pipeline.DrawMesh | Lab4/src/renderer/pipeline.rs:35-99 | the framebuffer afterwards holds `DrawSpec` of its old contents |
| Model.Mesh.IsEmpty | Lab4/src/scene/model.rs:27 | `Mesh::is_empty`: no vertices or no triangles; `Pipeline.EmptyMeshDrawsNothing` states that such a well-formed mesh draws nothing |
| Model.ParseFaceToken | Lab4/src/scene/model.rs:141-166 | `parse_face_token`: an accepted position is a u32 and a normal is an i32; `FaceTokenAccepted` states exactly which tokens are accepted and what they give, and the other `FaceToken…` lemmas give the canonical spellings and each error |
| Model.FaceTokenPlain | Lab4/src/scene/model.rs:144-148 | "a" parses to (a, None) for every u32 a |
| Model.FaceTokenNoNormal | Lab4/src/scene/model.rs:149-153 | "a/b" parses to (a, None) whatever b holds: the texture field is never read |
| Model.FaceTokenWithNormal | Lab4/src/scene/model.rs:154-163 | "a/b/c", including "a//c", parses to (a, Some(c)) for every u32 a and non-negative i32 c |
| Model.FaceTokenEmptyNormal | Lab4/src/scene/model.rs:154-163 | "a//" parses to (a, None): an empty normal field counts as absent |
| Model.FaceTokenFullForm | Lab4/src/scene/model.rs:154-163 | "1/2/3" parses to (1, Some(3)) |
| Model.FaceTokenAccepted | Lab4/src/scene/model.rs:141-165 | a token is accepted iff it has at most three fields, a u32 first field, and a third field that is absent, empty or an i32; then v is that u32 and vn the i32 of a non-empty third field, absent otherwise |
| Model.FaceTokenInvalidV | Lab4/src/scene/model.rs:146-156 | with at most three fields, a first field that is not a u32 is `InvalidV` |
| Model.FaceTokenInvalidVn | Lab4/src/scene/model.rs:157-161 | a non-empty third field that is not an i32 is `InvalidVn` |
| Model.FaceTokenNegativeNormal | Lab4/src/scene/model.rs:154-162 | "a/b/-c" parses to (a, Some(−c)) for every c up to 2^31: the sign is accepted here |
| Model.FaceTokenTooManyFields | Lab4/src/scene/model.rs:164 | more than three '/'-separated fields is an error |
| Model.KeyOf | Lab4/src/scene/model.rs:95 | the dedup key, with -1 for a missing normal; `SentinelNormalCollides` states that "a//-1" and "a" share a key, and `ResolveReuses` that a seen key is reused |
| Model.ResolveRef | Lab4/src/scene/model.rs:95-113 | resolving one token fails only for an unseen key; on success the key maps to the returned index, earlier keys keep theirs, vertices only grow and positions, normals and triangles are unchanged |
| Model.ResolveReuses | Lab4/src/scene/model.rs:95-97 | a key seen before returns its existing vertex index and adds no vertex |
| Model.InsertFreshIndex | Lab4/src/scene/model.rs:109-111 | mapping an unseen key to an index above all others keeps the dedup map injective and grows it by exactly one entry |
| Model.InsertKeepsDedupSound | Lab4/src/scene/model.rs:109-111 | adding the vertex of an unseen valid key under index `vertices.len()` keeps the dedup map a bijection onto the vertices it denotes |
| Model.ResolvePreservesInv | Lab4/src/scene/model.rs:95-113 | resolving a token keeps the invariant, adds at most one vertex (none for a known key), returns the index the dedup map now gives the token's key, and leaves every earlier key's index as it was |
| Model.FaceIndices | Lab4/src/scene/model.rs:92-115 | the token loop gives one index per token and only appends vertices; `FaceIndicesPreservesInv` states the rest |
| Model.FaceIndicesNameTokens | Lab4/src/scene/model.rs:93-114 | in any state, each token's key maps to that token's index, and keys known before the face keep their indices |
| Model.FaceIndicesPreservesInv | Lab4/src/scene/model.rs:92-115 | a face's tokens keep the invariant and give one index each: for token j, the index the dedup map gives j's key, so `vertices[idx[j]]` is the vertex token j names; keys known before the face keep their indices |
| Model.Fan | Lab4/src/scene/model.rs:117-119 | the fan triangulation of a face; `FanShape` and `FanInRange` state its shape and range |
| Model.FaceStep | Lab4/src/scene/model.rs:86-119 | one face line: resolve every token, then append the fan; `FaceStepPreservesInv` states that it keeps the invariant |
| Model.Fields | Lab4/src/scene/model.rs:72-73 | the words after the record keyword; `FieldsAfterKeyword` states that a keyword followed by words gives back exactly those words |
| Model.FieldsAfterKeyword | Lab4/src/scene/model.rs:80-81 | for any keyword and whitespace-free words joined by single spaces, the fields are exactly the words, in order |
| Model.ParseCoords | Lab4/src/scene/model.rs:72-85 | three coordinates read in order: success needs three fields that all parse, to those values; a failure is the line's incomplete or invalid error |
| Model.LineStep | Lab4/src/scene/model.rs:66-123 | one line of the file; `LineStepPreservesInv`, `IgnoredLines` and `ShortFaceRejected` state its cases |
| Model.LoadLines | Lab4/src/scene/model.rs:65-124 | the line loop from the empty state; `LoadLinesInv` and `LoadLinesErrStops` state its properties |
| Model.LoadObjSpec | Lab4/src/scene/model.rs:51-126 | `load_obj` before the normal recomputation; `LoadedMeshWellFormed` states its result, and `LoadObj` is proved equal to it |
| Model.FanShape | Lab4/src/scene/model.rs:117-119 | a face of k indices gives k−2 triangles (f0, f[i−1], f[i]) for i in 2..k |
| Model.FanInRange | Lab4/src/scene/model.rs:117-119 | fan triangles use only the face's indices |
| Model.FaceStepPreservesInv | Lab4/src/scene/model.rs:86-119 | a face line keeps the invariant and appends exactly k−2 triangles to the existing ones |
| Model.GrowKeepsInv | Lab4/src/scene/model.rs:77-85 | pushing a position or a normal keeps the invariant: every existing key still denotes the vertex it was built from |
| Model.LineStepPreservesInv | Lab4/src/scene/model.rs:65-123 | every line, of any kind, keeps the invariant |
| Model.LoadLinesInv | Lab4/src/scene/model.rs:65-124 | the state after any successful prefix of lines satisfies the invariant |
| Model.LoadedMeshWellFormed | Lab4/src/scene/model.rs:51-132 | a loaded mesh has every triangle index below its vertex count, and one vertex per distinct (v, vn) key |
| Model.IgnoredLines | Lab4/src/scene/model.rs:67-123 | blank lines, `#` comments and unrecognised records change nothing |
| Model.ShortFaceRejected | Lab4/src/scene/model.rs:88-89 | a face line with fewer than three vertex tokens is an error |
| Model.OutOfRangeRejected | Lab4/src/scene/model.rs:100-105 | an unseen key with an out-of-range position index, or an out-of-range normal index, is an error |
| Model.SentinelNormalCollides | Lab4/src/scene/model.rs:95 | "a//-1" has the same key as "a": it reuses a's vertex once "a" was seen, and is an out-of-range error otherwise |
| Model.FaceIndicesErrStops | Lab4/src/scene/model.rs:93-94 | the first failing token ends the face with its error |
| Model.LoadLinesErrStops | Lab4/src/scene/model.rs:65-124 | the first failing line ends the load with its error |
| Model.AppendFan | Lab4/src/scene/model.rs:117-119 | the fan loop appends exactly `Fan(f)` |
| Model.ProcessFace | Lab4/src/scene/model.rs:86-119 | the token loop and the fan loop give exactly `FaceStep` |
| Model.ProcessLine | Lab4/src/scene/model.rs:66-123 | one pass of the line loop gives exactly `LineStep`: skip, push a position, push a normalised normal, process a face, or the first error |
| Model.LoadObj | Lab4/src/scene/model.rs:51-132 | the line loop gives exactly `LoadObjSpec`, and every mesh it returns is well formed |
| Text.Trim | Lab4/src/scene/model.rs:67 | `str::trim` returns the slice of s between a whitespace prefix and a whitespace suffix, with no whitespace left at either end; it is empty exactly when s is all whitespace |
| Text.Split | Lab4/src/scene/model.rs:142 | `str::split('/')` gives at least one piece, none holding the separator |
| Text.SplitJoin | Lab4/src/scene/model.rs:142 | joining the pieces with the separator gives the token back |
| Text.SplitNoSep | Lab4/src/scene/model.rs:142 | a string without the separator splits into itself alone |
| Text.SplitCons | Lab4/src/scene/model.rs:142 | a + sep + b splits into a's piece followed by b's pieces, when a holds no separator |
| Text.SplitThree | Lab4/src/scene/model.rs:142 | "a/b/c" with separator-free a, b and c splits into exactly [a, b, c] |
| Text.SplitTwo | Lab4/src/scene/model.rs:142 | "a/b" with separator-free a and b splits into exactly [a, b] |
| Text.SplitSnoc | Lab4/src/scene/model.rs:142 | x + sep + c splits into x's pieces followed by c, when c holds no separator |
| Text.SplitWhitespace | Lab4/src/scene/model.rs:88 | `split_whitespace` gives non-empty words without whitespace |
| Text.SplitWhitespaceKeepsText | Lab4/src/scene/model.rs:88 | the words concatenated are exactly s with its whitespace removed, in order |
| Text.SplitWhitespaceEmpty | Lab4/src/scene/model.rs:88 | there are no words exactly when s is all whitespace |
| Text.SplitWhitespaceCons | Lab4/src/scene/model.rs:88 | after leading whitespace, a whitespace-free run that ends at whitespace or at the end of s is the next word, whole |
| Text.SplitWhitespaceJoin | Lab4/src/scene/model.rs:88 | words joined by any whitespace character split back into exactly those words |
| Text.ParseU32 | Lab4/src/scene/model.rs:146 | `parse::<u32>` yields a value only for an optional '+' followed by at least one digit, and the value is below 2^32 and is what the digits spell; any other character, a '-' or an empty string gives None |
| Text.ParseU32Accepts | Lab4/src/scene/model.rs:146 | every non-empty digit run below 2^32, with or without a '+', parses to the value it spells |
| Text.ParseI32 | Lab4/src/scene/model.rs:160 | `parse::<i32>` yields a value only for an optional sign followed by at least one digit; the value is in [−2^31, 2^31), its magnitude is what the digits spell, and it is negative only after a '-' |
| Text.ParseI32Accepts | Lab4/src/scene/model.rs:160 | every non-empty digit run parses to its value after no sign or '+' when below 2^31, and to its negation after '-' when at most 2^31 |
| Text.ParseU32RoundTrip | Lab4/src/scene/model.rs:146 | every u32 written in decimal parses back to itself |
| Text.ParseI32RoundTrip | Lab4/src/scene/model.rs:160 | every non-negative i32 written in decimal parses back to itself |
| Text.ParseI32NegRoundTrip | Lab4/src/scene/model.rs:160 | every negative i32 written as '-' and its magnitude parses back to itself |
| Controls.Entry | Lab4/src/scene/input.rs:77-85 | an action's state, or all flags false when it was never recorded; `UnrecordedIsIdle` states this |
| Controls.Down | Lab4/src/scene/input.rs:52-58 | `action_down` on the table; `DownPresses`, `DownRepeatIgnored` and `EventsTouchOnlyTheirAction` state its cases |
| Controls.Up | Lab4/src/scene/input.rs:61-67 | `action_up` on the table; `UpReleases`, `UpWhenNotHeldIgnored` and `EventsTouchOnlyTheirAction` state its cases |
| Controls.Cleared | Lab4/src/scene/input.rs:70-75 | `begin_frame` on the table; `ClearedResetsEdges` states that it clears the edge flags and keeps held |
| Controls.DownPresses | Lab4/src/scene/input.rs:52-58 | a down on an action that is not held makes it held and pressed, and keeps its released flag |
| Controls.DownRepeatIgnored | Lab4/src/scene/input.rs:54-57 | a down on an action already held changes none of its flags, so key repeat does not re-trigger pressed |
| Controls.UpReleases | Lab4/src/scene/input.rs:61-67 | an up on a held action clears held and sets released, keeping pressed |
| Controls.UpWhenNotHeldIgnored | Lab4/src/scene/input.rs:61-67 | an up on an action that is not held changes none of its flags |
| Controls.EventsTouchOnlyTheirAction | Lab4/src/scene/input.rs:52-67 | down and up change only the named action's entry |
| Controls.ClearedResetsEdges | Lab4/src/scene/input.rs:70-75 | the frame reset clears pressed and released for every action and keeps every held flag |
| Controls.UnrecordedIsIdle | Lab4/src/scene/input.rs:77-85 | an action never recorded reads as not held, not pressed and not released |
| Controls.ApplyKeepsConsistent | Lab4/src/scene/input.rs:52-75 | every event keeps each action's flags coherent: pressed and not held implies released, released and held implies pressed |
| Controls.RunConsistent | Lab4/src/scene/input.rs:52-75 | any sequence of events from a coherent table (the empty one included) reaches only coherent tables |
| Controls.PressedNeedsDown | Lab4/src/scene/input.rs:52-58 | an action not pressed stays not pressed through any events that include no down for it |
| Controls.ReleasedNeedsUp | Lab4/src/scene/input.rs:61-67 | an action not released stays not released through any events that include no up for it |
| Controls.HeldFollowsLastEvent | Lab4/src/scene/input.rs:52-67 | an action is held exactly when its last down-or-up event was a down |
| Controls.Input.constructor | Lab4/src/scene/input.rs:49 | a new input has an empty table |
| Controls.Input.ActionDown | Lab4/src/scene/input.rs:52-58 | the table afterwards is `Down` of the old one, the entry created if absent |
| Controls.Input.ActionUp | Lab4/src/scene/input.rs:61-67 | the table afterwards is `Up` of the old one, the entry created if absent |
| Controls.Input.BeginFrame | Lab4/src/scene/input.rs:70-75 | the loop over the entries leaves exactly `Cleared` of the old table |
| Controls.Input.IsHeld | Lab4/src/scene/input.rs:77-78 | true exactly when the action is recorded with held set |
| Controls.Input.IsPressed | Lab4/src/scene/input.rs:80-81 | true exactly when the action is recorded with pressed set |
| Controls.Input.IsReleased | Lab4/src/scene/input.rs:83-84 | true exactly when the action is recorded with released set |

## Left out

- Floating point: coordinates, depths and attributes are `real`. The model
  has no f32 rounding, NaN or infinities other than the initial depth. A
  triangle of zero area gets no weights. In the source its weights come
  out infinite or NaN and the `>= 0` test rejects them, so such a triangle
  draws nothing there either.
- Raster.RasterTriangle: it requires every `inv_w` to be positive, which
  `draw_mesh` guarantees by its w > 0 filter. Called directly with other
  input, the source would divide by a possibly zero sum.
- `Vec3::normalize`, the `length().is_finite()` fallback and
  `str::parse::<f32>` are parameters (`FloatOps`), left uninterpreted.
  Matrix–vector products are modelled exactly over `real`. The rest of
  `Lab4/src/math` is not part of this model: constructors, rotation and
  noise.
- `Color::from_f32_rgb` and `Framebuffer::save_png` are left out. They are
  f32 rounding and image-file export.
- `recompute_normals` and the `had_normals` test at
  `Lab4/src/scene/model.rs:128-131` are left out, because they are float
  vector math. `LoadObjSpec` is the mesh before that step. The step changes
  only normals, so the index invariant carries over.
- File opening and line reading in `load_obj` are left out. The model
  takes the lines as a sequence of strings.
- Errors are a datatype of kinds (`ObjError`). The source's messages, and
  the axis they name for a bad coordinate, are not modelled.
- Shaders: every concrete shader, `make_shader`, the shader's `name()` and
  the uniforms are left out. A shader is a pair of pure functions with the
  uniforms bound in. No source shader changes its own state between
  calls, so passing `&mut self` is not modelled. The unused `_mvp`
  product at `Lab4/src/renderer/pipeline.rs:42` is left out too.
- Pipeline.DrawMesh: it requires a well-formed mesh. On an out-of-range
  index the source panics when it indexes `clip_positions`.
- Integer widths: `i32` pixel coordinates, `usize` cell indices and the
  `u32` vertex counter are unbounded. The index computation cannot
  overflow at realistic target sizes.
- OBJ index wrap-around is modelled only as the release-build result:
  - A position index of 0 wraps `v_i - 1` and is an out-of-range error.
    A debug build panics instead.
  - `vn_i - 1` for `vn_i = i32::MIN` overflows. The model treats it as out
    of range.
- The window and event loop, the key-to-action mapping, the camera, the
  timer and `main.rs` are left out. They are I/O and application glue.
- `Text` models only what the loader uses from Rust's `str`: `trim`,
  `split`, `split_whitespace`, `starts_with`, and parsing into `u32` and
  `i32`. Whitespace is Unicode White_Space by code point.
