/**
 * `draw_mesh`: run the vertex program once per mesh vertex, then for each
 * triangle in mesh order reject it if any clip w is not positive, divide by
 * w, map through the viewport, gather the varyings and rasterize it with
 * the fragment program as the pixel callback.
 */
module Pipeline {
  import opened Wrappers
  import opened Geometry
  import opened Buffers
  import opened Raster
  import opened Model

  /** Vertex-program input. */
  datatype VertexIn = VertexIn(pos: Vec3, nrm: Vec3, uv: Vec2)

  /** Vertex-program output: the clip-space position and the varyings. */
  datatype VertexOut = VertexOut(clipPos: Vec4, posWs: Vec3, nrmWs: Vec3, uv: Vec2)

  /**
   * The shader capability: a vertex program and a fragment program, with the
   * frame's uniforms already bound into them.
   */
  datatype Shader = Shader(vertex: VertexIn -> VertexOut, fragment: Varyings -> Color)

  /** What the vertex stage hands the shader for mesh vertex v: its position and normal, uv zero. */
  function InputOf(v: Vertex): VertexIn
  {
    VertexIn(v.pos, v.nrm, Vec2(0.0, 0.0))
  }

  /** The per-vertex varyings kept from the vertex program's output. */
  function VaryOf(o: VertexOut): Varyings
  {
    Varyings(o.posWs, o.nrmWs, o.uv)
  }

  /** Perspective division: the point whose coordinates times w give back the clip position. */
  function Ndc(c: Vec4): (r: Vec4)
    requires c.w != 0.0
    ensures r.w == 1.0
    ensures r.x * c.w == c.x && r.y * c.w == c.y && r.z * c.w == c.z
  {
    Vec4(c.x / c.w, c.y / c.w, c.z / c.w, 1.0)
  }

  /** The fragment program as the rasterizer's pixel callback: it ignores x, y and z. */
  function FragmentShade(sh: Shader): Shade
  {
    (x: int, y: int, z: real, v: Varyings) => sh.fragment(v)
  }

  /** The clip positions and varyings of a mesh: one vertex-program run per vertex, index-aligned. */
  function ClipPositions(mesh: Mesh, sh: Shader): seq<Vec4>
  {
    seq(|mesh.vertices|, i requires 0 <= i < |mesh.vertices| => sh.vertex(InputOf(mesh.vertices[i])).clipPos)
  }

  function VaryBuffer(mesh: Mesh, sh: Shader): seq<Varyings>
  {
    seq(|mesh.vertices|, i requires 0 <= i < |mesh.vertices| => VaryOf(sh.vertex(InputOf(mesh.vertices[i]))))
  }

  /** The buffers hold an entry for every index a triangle names. */
  predicate Indexable(tris: seq<Triangle>, clip: seq<Vec4>, vary: seq<Varyings>)
  {
    |clip| == |vary| && forall t :: t in tris ==> InRange(t, |clip|)
  }

  /**
   * The rasterizer input of one triangle, or None when a vertex lies on or
   * behind the camera plane (clip w <= 0).
   */
  function Assemble(t: Triangle, clip: seq<Vec4>, vary: seq<Varyings>, viewport: Mat4, ops: FloatOps): (r: Option<RasterInput>)
    requires InRange(t, |clip|) && InRange(t, |vary|)
    ensures r.Some? <==> clip[t.i0].w > 0.0 && clip[t.i1].w > 0.0 && clip[t.i2].w > 0.0
    ensures r.Some? ==> PositiveInvW(r.value)
    ensures r.Some? ==>
      r.value.invW.t0 * clip[t.i0].w == 1.0 && r.value.invW.t1 * clip[t.i1].w == 1.0 && r.value.invW.t2 * clip[t.i2].w == 1.0
    ensures r.Some? ==>
      r.value.z == Tri(r.value.p.t0.z, r.value.p.t1.z, r.value.p.t2.z) &&
      r.value.p.t0 == MulVec(viewport, Ndc(clip[t.i0])) &&
      r.value.p.t1 == MulVec(viewport, Ndc(clip[t.i1])) &&
      r.value.p.t2 == MulVec(viewport, Ndc(clip[t.i2]))
    ensures r.Some? ==>
      r.value.v.t0 == vary[t.i0].(nrmWs := ops.normalize(vary[t.i0].nrmWs)) &&
      r.value.v.t1 == vary[t.i1].(nrmWs := ops.normalize(vary[t.i1].nrmWs)) &&
      r.value.v.t2 == vary[t.i2].(nrmWs := ops.normalize(vary[t.i2].nrmWs))
  {
    var c0, c1, c2 := clip[t.i0], clip[t.i1], clip[t.i2];
    if c0.w <= 0.0 || c1.w <= 0.0 || c2.w <= 0.0 then None
    else
      var sp0, sp1, sp2 := MulVec(viewport, Ndc(c0)), MulVec(viewport, Ndc(c1)), MulVec(viewport, Ndc(c2));
      var v0, v1, v2 := vary[t.i0], vary[t.i1], vary[t.i2];
      Some(RasterInput(
        Tri(sp0, sp1, sp2),
        Tri(sp0.z, sp1.z, sp2.z),
        Tri(1.0 / c0.w, 1.0 / c1.w, 1.0 / c2.w),
        Tri(v0.(nrmWs := ops.normalize(v0.nrmWs)), v1.(nrmWs := ops.normalize(v1.nrmWs)), v2.(nrmWs := ops.normalize(v2.nrmWs)))))
  }

  /** One triangle's effect on the image: nothing if rejected, else the rasterizer's. */
  function TriangleStep(img: Image, t: Triangle, clip: seq<Vec4>, vary: seq<Varyings>, viewport: Mat4, sh: Shader, ops: FloatOps): (r: Image)
    requires img.Valid() && InRange(t, |clip|) && InRange(t, |vary|)
    ensures r.Valid() && r.width == img.width && r.height == img.height
  {
    match Assemble(t, clip, vary, viewport, ops)
    case None => img
    case Some(tri) => RasterImage(img, tri, FragmentShade(sh), ops)
  }

  /** The triangles in order, each drawn over the image the previous ones left. */
  function DrawTris(img: Image, tris: seq<Triangle>, clip: seq<Vec4>, vary: seq<Varyings>, viewport: Mat4, sh: Shader, ops: FloatOps): (r: Image)
    requires img.Valid() && Indexable(tris, clip, vary)
    ensures r.Valid() && r.width == img.width && r.height == img.height
  {
    if |tris| == 0 then img
    else
      var last := tris[|tris| - 1];
      assert last in tris;
      TriangleStep(DrawTris(img, tris[..|tris| - 1], clip, vary, viewport, sh, ops), last, clip, vary, viewport, sh, ops)
  }

  /** `draw_mesh` on an image. */
  function DrawSpec(img: Image, mesh: Mesh, sh: Shader, viewport: Mat4, ops: FloatOps): (r: Image)
    requires img.Valid() && mesh.WellFormed()
    ensures r.Valid() && r.width == img.width && r.height == img.height
  {
    DrawTris(img, mesh.indices, ClipPositions(mesh, sh), VaryBuffer(mesh, sh), viewport, sh, ops)
  }

  // ---------------------------------------------------------------------------
  // Properties
  // ---------------------------------------------------------------------------

  /** A triangle with a vertex on or behind the camera plane leaves the image as it was. */
  lemma BehindCameraSkipped(img: Image, t: Triangle, clip: seq<Vec4>, vary: seq<Varyings>, viewport: Mat4, sh: Shader, ops: FloatOps)
    requires img.Valid() && InRange(t, |clip|) && InRange(t, |vary|)
    requires clip[t.i0].w <= 0.0 || clip[t.i1].w <= 0.0 || clip[t.i2].w <= 0.0
    ensures TriangleStep(img, t, clip, vary, viewport, sh, ops) == img
  {
  }

  /**
   * What an accepted triangle leaves in each in-range pixel: the fragment
   * program's colour and the interpolated depth where the pixel centre is
   * covered and nearer than the stored depth, the old cell elsewhere.
   */
  lemma AcceptedTriangleCell(img: Image, t: Triangle, clip: seq<Vec4>, vary: seq<Varyings>, viewport: Mat4, sh: Shader, ops: FloatOps, x: int, y: int)
    requires img.Valid() && InRange(t, |clip|) && InRange(t, |vary|)
    requires Assemble(t, clip, vary, viewport, ops).Some?
    requires 0 <= x < img.width && 0 <= y < img.height
    ensures var tri, i := Assemble(t, clip, vary, viewport, ops).value, Idx(img.width, img.height, x, y).value;
      var r := TriangleStep(img, t, clip, vary, viewport, sh, ops);
      (r.color[i], r.depth[i]) == CellAfter(img, tri, FragmentShade(sh), ops, x, y)
  {
    RasterCell(img, Assemble(t, clip, vary, viewport, ops).value, FragmentShade(sh), ops, x, y);
  }

  /** Drawing a list of triangles is drawing its first part, then the rest over the result. */
  lemma {:induction false} DrawSplit(img: Image, a: seq<Triangle>, b: seq<Triangle>, clip: seq<Vec4>, vary: seq<Varyings>, viewport: Mat4, sh: Shader, ops: FloatOps)
    requires img.Valid() && Indexable(a + b, clip, vary)
    ensures Indexable(a, clip, vary) && Indexable(b, clip, vary)
    ensures DrawTris(img, a + b, clip, vary, viewport, sh, ops) ==
      DrawTris(DrawTris(img, a, clip, vary, viewport, sh, ops), b, clip, vary, viewport, sh, ops)
    decreases |b|
  {
    assert forall t :: t in a ==> t in a + b;
    assert forall t :: t in b ==> t in a + b;
    if |b| > 0 {
      var b' := b[..|b| - 1];
      assert (a + b)[..|a + b| - 1] == a + b';
      assert forall t :: t in a + b' ==> t in a + b;
      DrawSplit(img, a, b', clip, vary, viewport, sh, ops);
    } else {
      assert a + b == a;
    }
  }

  /** Drawing triangles never makes a stored depth farther. */
  lemma {:induction false} DrawNeverRaisesDepth(img: Image, tris: seq<Triangle>, clip: seq<Vec4>, vary: seq<Varyings>, viewport: Mat4, sh: Shader, ops: FloatOps, j: nat)
    requires img.Valid() && Indexable(tris, clip, vary) && j < img.width * img.height
    ensures NoFarther(DrawTris(img, tris, clip, vary, viewport, sh, ops).depth[j], img.depth[j])
  {
    if |tris| > 0 {
      var prefix := tris[..|tris| - 1];
      var last := tris[|tris| - 1];
      assert last in tris;
      assert forall t :: t in prefix ==> t in tris;
      DrawNeverRaisesDepth(img, prefix, clip, vary, viewport, sh, ops, j);
      var mid := DrawTris(img, prefix, clip, vary, viewport, sh, ops);
      match Assemble(last, clip, vary, viewport, ops)
      case None =>
      case Some(tri) =>
        RasterNeverRaisesDepth(mid, tri, FragmentShade(sh), ops, j);
    }
  }

  /** An empty well-formed mesh draws nothing. */
  lemma EmptyMeshDrawsNothing(img: Image, mesh: Mesh, sh: Shader, viewport: Mat4, ops: FloatOps)
    requires img.Valid() && mesh.WellFormed() && mesh.IsEmpty()
    ensures DrawSpec(img, mesh, sh, viewport, ops) == img
  {
    if |mesh.indices| > 0 {
      TriangleNamesVertices(mesh, 0);
      assert false;
    }
  }

  // ---------------------------------------------------------------------------
  // The imperative stage
  // ---------------------------------------------------------------------------

  /** The vertex stage: one vertex-program run per vertex, in order, into index-aligned buffers. */
  method VertexStage(mesh: Mesh, sh: Shader) returns (clip: seq<Vec4>, vary: seq<Varyings>)
    ensures |clip| == |mesh.vertices| && |vary| == |mesh.vertices|
    ensures forall i :: 0 <= i < |mesh.vertices| ==>
      clip[i] == sh.vertex(InputOf(mesh.vertices[i])).clipPos && vary[i] == VaryOf(sh.vertex(InputOf(mesh.vertices[i])))
  {
    clip, vary := [], [];
    var i := 0;
    while i < |mesh.vertices|
      invariant 0 <= i <= |mesh.vertices| && |clip| == i && |vary| == i
      invariant forall k :: 0 <= k < i ==>
        clip[k] == sh.vertex(InputOf(mesh.vertices[k])).clipPos && vary[k] == VaryOf(sh.vertex(InputOf(mesh.vertices[k])))
    {
      var v := mesh.vertices[i];
      var vout := sh.vertex(VertexIn(v.pos, v.nrm, Vec2(0.0, 0.0)));
      clip := clip + [vout.clipPos];
      vary := vary + [Varyings(vout.posWs, vout.nrmWs, vout.uv)];
      i := i + 1;
    }
  }

  /** The body of the triangle loop: reject, project, gather and rasterize one triangle. */
  method DrawTriangle(fb: Framebuffer, t: Triangle, clip: seq<Vec4>, vary: seq<Varyings>, viewport: Mat4, sh: Shader, ops: FloatOps)
    requires fb.Valid() && InRange(t, |clip|) && InRange(t, |vary|)
    modifies fb.color, fb.depth
    ensures fb.Contents() == TriangleStep(old(fb.Contents()), t, clip, vary, viewport, sh, ops)
  {
    var cp0, cp1, cp2 := clip[t.i0], clip[t.i1], clip[t.i2];
    if cp0.w <= 0.0 || cp1.w <= 0.0 || cp2.w <= 0.0 {
      return;
    }
    var sp0, sp1, sp2 := MulVec(viewport, Ndc(cp0)), MulVec(viewport, Ndc(cp1)), MulVec(viewport, Ndc(cp2));
    var v0, v1, v2 := vary[t.i0], vary[t.i1], vary[t.i2];
    var rin := RasterInput(
      Tri(sp0, sp1, sp2),
      Tri(sp0.z, sp1.z, sp2.z),
      Tri(1.0 / cp0.w, 1.0 / cp1.w, 1.0 / cp2.w),
      Tri(Varyings(v0.posWs, ops.normalize(v0.nrmWs), v0.uv),
          Varyings(v1.posWs, ops.normalize(v1.nrmWs), v1.uv),
          Varyings(v2.posWs, ops.normalize(v2.nrmWs), v2.uv)));
    assert Assemble(t, clip, vary, viewport, ops) == Some(rin);
    RasterTriangle(fb, rin, FragmentShade(sh), ops);
  }

  /** `draw_mesh` over the framebuffer. */
  method DrawMesh(fb: Framebuffer, mesh: Mesh, sh: Shader, viewport: Mat4, ops: FloatOps)
    requires fb.Valid() && mesh.WellFormed()
    modifies fb.color, fb.depth
    ensures fb.Contents() == DrawSpec(old(fb.Contents()), mesh, sh, viewport, ops)
  {
    var clip, vary := VertexStage(mesh, sh);
    assert clip == ClipPositions(mesh, sh) && vary == VaryBuffer(mesh, sh);
    var k := 0;
    while k < |mesh.indices|
      invariant 0 <= k <= |mesh.indices|
      invariant Indexable(mesh.indices[..k], clip, vary)
      invariant fb.Contents() == DrawTris(old(fb.Contents()), mesh.indices[..k], clip, vary, viewport, sh, ops)
    {
      var t := mesh.indices[k];
      assert t in mesh.indices;
      assert mesh.indices[..k + 1] == mesh.indices[..k] + [t];
      DrawTriangle(fb, t, clip, vary, viewport, sh, ops);
      k := k + 1;
    }
    assert mesh.indices[..k] == mesh.indices;
  }
}
