/**
 * The triangle rasterizer: a clamped integer bounding box, a closed
 * barycentric coverage test at pixel centres, depth interpolated linearly in
 * screen space, attributes interpolated with 1/w weights, and every write
 * made through the depth-tested `put_pixel`.
 */
module Raster {
  import opened Wrappers
  import opened Geometry
  import opened Buffers

  /** The attributes interpolated across a triangle. */
  datatype Varyings = Varyings(posWs: Vec3, nrmWs: Vec3, uv: Vec2)

  /** One screen-space triangle: positions, mapped depths, reciprocal clip w and varyings per vertex. */
  datatype RasterInput = RasterInput(p: Tri<Vec4>, z: Tri<real>, invW: Tri<real>, v: Tri<Varyings>)

  /** What reaches the fragment stage for one covered pixel. */
  datatype Fragment = Fragment(z: real, vary: Varyings)

  datatype Weights = Weights(w0: real, w1: real, w2: real)

  /** The pixel-shading callback: pixel x, pixel y, interpolated depth, varyings. */
  type Shade = (int, int, real, Varyings) -> Color

  /** Every vertex has a positive reciprocal w, as the draw pipeline guarantees. */
  predicate PositiveInvW(tri: RasterInput)
  {
    tri.invW.t0 > 0.0 && tri.invW.t1 > 0.0 && tri.invW.t2 > 0.0
  }

  function Screen(p: Vec4): Vec2
  {
    Vec2(p.x, p.y)
  }

  /** Twice the signed area of the triangle, the denominator of the area-ratio formula. */
  function Denom(p0: Vec2, p1: Vec2, p2: Vec2): real
  {
    (p1.y - p2.y) * (p0.x - p2.x) + (p2.x - p1.x) * (p0.y - p2.y)
  }

  /**
   * Area-ratio barycentric weights of px. A degenerate triangle (zero area)
   * has none: in the source its f32 division yields an infinite or NaN weight,
   * which the `>= 0` coverage test then rejects.
   */
  function Barycentric(p0: Vec2, p1: Vec2, p2: Vec2, px: Vec2): (r: Option<Weights>)
    ensures r.Some? <==> Denom(p0, p1, p2) != 0.0
    ensures r.Some? ==> r.value.w0 + r.value.w1 + r.value.w2 == 1.0
  {
    var denom := Denom(p0, p1, p2);
    if denom == 0.0 then None
    else
      var w0 := ((p1.y - p2.y) * (px.x - p2.x) + (p2.x - p1.x) * (px.y - p2.y)) / denom;
      var w1 := ((p2.y - p0.y) * (px.x - p2.x) + (p0.x - p2.x) * (px.y - p2.y)) / denom;
      Some(Weights(w0, w1, 1.0 - w0 - w1))
  }

  /** The closed coverage rule: all three weights non-negative. */
  predicate Inside(w: Weights)
  {
    w.w0 >= 0.0 && w.w1 >= 0.0 && w.w2 >= 0.0
  }

  /** `persp_interp1`: the attributes averaged with the given (1/w-scaled) weights. */
  function PerspInterp1(w: Tri<real>, a: Tri<real>): real
    requires w.t0 + w.t1 + w.t2 != 0.0
  {
    (a.t0 * w.t0 + a.t1 * w.t1 + a.t2 * w.t2) / (w.t0 + w.t1 + w.t2)
  }

  /** `persp_interp2`, component by component. */
  function PerspInterp2(w: Tri<real>, a: Tri<Vec2>): Vec2
    requires w.t0 + w.t1 + w.t2 != 0.0
  {
    Vec2(PerspInterp1(w, Tri(a.t0.x, a.t1.x, a.t2.x)),
         PerspInterp1(w, Tri(a.t0.y, a.t1.y, a.t2.y)))
  }

  /** `persp_interp3`, component by component. */
  function PerspInterp3(w: Tri<real>, a: Tri<Vec3>): Vec3
    requires w.t0 + w.t1 + w.t2 != 0.0
  {
    Vec3(PerspInterp1(w, Tri(a.t0.x, a.t1.x, a.t2.x)),
         PerspInterp1(w, Tri(a.t0.y, a.t1.y, a.t2.y)),
         PerspInterp1(w, Tri(a.t0.z, a.t1.z, a.t2.z)))
  }

  lemma MulNonNeg(a: real, b: real)
    requires a >= 0.0 && b >= 0.0
    ensures a * b >= 0.0
  {
  }

  lemma MulPos(a: real, b: real)
    requires a > 0.0 && b > 0.0
    ensures a * b > 0.0
  {
  }

  /** Barycentric weights of a covered pixel, scaled by positive 1/w, have a positive sum. */
  lemma ScaledWeightsPositive(w: Weights, invW: Tri<real>)
    requires Inside(w) && w.w0 + w.w1 + w.w2 == 1.0
    requires invW.t0 > 0.0 && invW.t1 > 0.0 && invW.t2 > 0.0
    ensures w.w0 * invW.t0 + w.w1 * invW.t1 + w.w2 * invW.t2 > 0.0
  {
    var a, b, c := w.w0 * invW.t0, w.w1 * invW.t1, w.w2 * invW.t2;
    MulNonNeg(w.w0, invW.t0);
    MulNonNeg(w.w1, invW.t1);
    MulNonNeg(w.w2, invW.t2);
    if w.w0 > 0.0 {
      MulPos(w.w0, invW.t0);
      assert a > 0.0;
    } else if w.w1 > 0.0 {
      MulPos(w.w1, invW.t1);
      assert b > 0.0;
    } else {
      assert w.w2 > 0.0;
      MulPos(w.w2, invW.t2);
      assert c > 0.0;
    }
    assert a + b + c > 0.0;
  }

  /** The fragment of a covered pixel with weights w: interpolated depth and varyings. */
  function FragmentAt(tri: RasterInput, w: Weights, ops: FloatOps): Fragment
    requires PositiveInvW(tri) && Inside(w) && w.w0 + w.w1 + w.w2 == 1.0
  {
    ScaledWeightsPositive(w, tri.invW);
    var wp := Tri(w.w0 * tri.invW.t0, w.w1 * tri.invW.t1, w.w2 * tri.invW.t2);
    var z := w.w0 * tri.z.t0 + w.w1 * tri.z.t1 + w.w2 * tri.z.t2;
    var v := tri.v;
    var pos := PerspInterp3(wp, Tri(v.t0.posWs, v.t1.posWs, v.t2.posWs));
    var n := ops.normalize(PerspInterp3(wp, Tri(v.t0.nrmWs, v.t1.nrmWs, v.t2.nrmWs)));
    var nrm := if ops.finiteLength(n) then n else v.t0.nrmWs;
    var uv := PerspInterp2(wp, Tri(v.t0.uv, v.t1.uv, v.t2.uv));
    Fragment(z, Varyings(pos, nrm, uv))
  }

  /** The pixel centre of (x, y). */
  function Centre(x: int, y: int): Vec2
  {
    Vec2(x as real + 0.5, y as real + 0.5)
  }

  /** The fragment pixel (x, y) produces, if its centre is covered by the triangle. */
  function Cover(tri: RasterInput, x: int, y: int, ops: FloatOps): Option<Fragment>
    requires PositiveInvW(tri)
  {
    match Barycentric(Screen(tri.p.t0), Screen(tri.p.t1), Screen(tri.p.t2), Centre(x, y))
    case None => None
    case Some(w) => if Inside(w) then Some(FragmentAt(tri, w, ops)) else None
  }

  function Min3(a: real, b: real, c: real): real
  {
    if a <= b && a <= c then a else if b <= c then b else c
  }

  function Max3(a: real, b: real, c: real): real
  {
    if a >= b && a >= c then a else if b >= c then b else c
  }

  function Ceil(r: real): int
  {
    -((-r).Floor)
  }

  datatype Box = Box(minX: int, maxX: int, minY: int, maxY: int)

  /**
   * The triangle's integer bounding box (floor of the minimum, ceiling of the
   * maximum), clamped to the target: every pixel of the box is in range.
   */
  function BoundingBox(p: Tri<Vec4>, width: nat, height: nat): (b: Box)
    requires width > 0 && height > 0
    ensures 0 <= b.minX && b.maxX <= width - 1
    ensures 0 <= b.minY && b.maxY <= height - 1
  {
    var minX := Min3(p.t0.x, p.t1.x, p.t2.x).Floor;
    var maxX := Ceil(Max3(p.t0.x, p.t1.x, p.t2.x));
    var minY := Min3(p.t0.y, p.t1.y, p.t2.y).Floor;
    var maxY := Ceil(Max3(p.t0.y, p.t1.y, p.t2.y));
    Box(if minX < 0 then 0 else minX, if maxX > width - 1 then width - 1 else maxX,
        if minY < 0 then 0 else minY, if maxY > height - 1 then height - 1 else maxY)
  }

  /** Shading one pixel: `put_pixel(x, y, z, shade(x, y, z, varyings))` if it is covered. */
  function ShadeAt(img: Image, tri: RasterInput, shade: Shade, ops: FloatOps, x: int, y: int): (r: Image)
    requires img.Valid() && PositiveInvW(tri)
    ensures r.Valid() && r.width == img.width && r.height == img.height
  {
    match Cover(tri, x, y, ops)
    case None => img
    case Some(f) => Put(img, x, y, f.z, shade(x, y, f.z, f.vary))
  }

  /** Columns lo .. hi-1 of row y, shaded left to right. */
  function Row(img: Image, tri: RasterInput, shade: Shade, ops: FloatOps, y: int, lo: int, hi: int): (r: Image)
    requires img.Valid() && PositiveInvW(tri)
    ensures r.Valid() && r.width == img.width && r.height == img.height
    decreases hi - lo
  {
    if hi <= lo then img
    else ShadeAt(Row(img, tri, shade, ops, y, lo, hi - 1), tri, shade, ops, hi - 1, y)
  }

  /** Rows lo .. hi-1, top to bottom, each over columns xlo .. xhi-1. */
  function Rows(img: Image, tri: RasterInput, shade: Shade, ops: FloatOps, lo: int, hi: int, xlo: int, xhi: int): (r: Image)
    requires img.Valid() && PositiveInvW(tri)
    ensures r.Valid() && r.width == img.width && r.height == img.height
    decreases hi - lo
  {
    if hi <= lo then img
    else Row(Rows(img, tri, shade, ops, lo, hi - 1, xlo, xhi), tri, shade, ops, hi - 1, xlo, xhi)
  }

  /** `raster_triangle` on an image: the box's pixels in row-major order. */
  function RasterImage(img: Image, tri: RasterInput, shade: Shade, ops: FloatOps): (r: Image)
    requires img.Valid() && PositiveInvW(tri)
    ensures r.Valid() && r.width == img.width && r.height == img.height
  {
    if img.width == 0 || img.height == 0 then img
    else
      var b := BoundingBox(tri.p, img.width, img.height);
      if b.minX > b.maxX || b.minY > b.maxY then img
      else Rows(img, tri, shade, ops, b.minY, b.maxY + 1, b.minX, b.maxX + 1)
  }

  /**
   * The cell of in-range pixel (x, y) once the triangle has been drawn over
   * img: the shaded colour and the interpolated depth if the pixel is covered
   * and nearer than what is stored, the old cell otherwise.
   */
  function CellAfter(img: Image, tri: RasterInput, shade: Shade, ops: FloatOps, x: int, y: int): (Color, Depth)
    requires img.Valid() && PositiveInvW(tri) && 0 <= x < img.width && 0 <= y < img.height
  {
    var i := Idx(img.width, img.height, x, y).value;
    match Cover(tri, x, y, ops)
    case Some(f) =>
      if Nearer(f.z, img.depth[i]) then (shade(x, y, f.z, f.vary), Z(f.z)) else (img.color[i], img.depth[i])
    case None => (img.color[i], img.depth[i])
  }

  // ---------------------------------------------------------------------------
  // Barycentric weights and interpolation
  // ---------------------------------------------------------------------------

  /** The weights reconstruct the point: px = w0*p0 + w1*p1 + w2*p2. */
  lemma BarycentricReconstructs(p0: Vec2, p1: Vec2, p2: Vec2, px: Vec2)
    requires Denom(p0, p1, p2) != 0.0
    ensures var w := Barycentric(p0, p1, p2, px).value;
      w.w0 * p0.x + w.w1 * p1.x + w.w2 * p2.x == px.x &&
      w.w0 * p0.y + w.w1 * p1.y + w.w2 * p2.y == px.y
  {
    var d := Denom(p0, p1, p2);
    var w := Barycentric(p0, p1, p2, px).value;
    var a, b, c, e := p0.x - p2.x, p0.y - p2.y, p1.x - p2.x, p1.y - p2.y;
    var dx, dy := px.x - p2.x, px.y - p2.y;
    assert d == e * a - c * b;
    assert w.w0 * d == e * dx - c * dy;
    assert w.w1 * d == -b * dx + a * dy;
    assert (w.w0 * a + w.w1 * c) * d == dx * d;
    assert (w.w0 * b + w.w1 * e) * d == dy * d;
    assert w.w0 * a + w.w1 * c == dx;
    assert w.w0 * b + w.w1 * e == dy;
  }

  /** At a vertex the weights are that vertex's unit weight. */
  lemma BarycentricAtVertices(p0: Vec2, p1: Vec2, p2: Vec2)
    requires Denom(p0, p1, p2) != 0.0
    ensures Barycentric(p0, p1, p2, p0) == Some(Weights(1.0, 0.0, 0.0))
    ensures Barycentric(p0, p1, p2, p1) == Some(Weights(0.0, 1.0, 0.0))
    ensures Barycentric(p0, p1, p2, p2) == Some(Weights(0.0, 0.0, 1.0))
  {
    var d := Denom(p0, p1, p2);
    var n00 := (p1.y - p2.y) * (p0.x - p2.x) + (p2.x - p1.x) * (p0.y - p2.y);
    var n10 := (p2.y - p0.y) * (p0.x - p2.x) + (p0.x - p2.x) * (p0.y - p2.y);
    assert n00 == d && n10 == 0.0;
    assert n00 / d == 1.0 && n10 / d == 0.0;
    var b0 := Barycentric(p0, p1, p2, p0);
    assert b0.Some?;
    assert b0.value.w0 == n00 / d && b0.value.w1 == n10 / d;
    assert b0.value.w2 == 1.0 - n00 / d - n10 / d;
    var n01 := (p1.y - p2.y) * (p1.x - p2.x) + (p2.x - p1.x) * (p1.y - p2.y);
    var n11 := (p2.y - p0.y) * (p1.x - p2.x) + (p0.x - p2.x) * (p1.y - p2.y);
    assert n01 == 0.0 && n11 == d;
    assert n01 / d == 0.0 && n11 / d == 1.0;
    var b1 := Barycentric(p0, p1, p2, p1);
    assert b1.Some?;
    assert b1.value.w0 == n01 / d && b1.value.w1 == n11 / d;
    assert b1.value.w2 == 1.0 - n01 / d - n11 / d;
    var n02 := (p1.y - p2.y) * (p2.x - p2.x) + (p2.x - p1.x) * (p2.y - p2.y);
    var n12 := (p2.y - p0.y) * (p2.x - p2.x) + (p0.x - p2.x) * (p2.y - p2.y);
    assert n02 == 0.0 && n12 == 0.0;
    var b2 := Barycentric(p0, p1, p2, p2);
    assert b2.Some?;
    assert b2.value.w0 == n02 / d && b2.value.w1 == n12 / d;
    assert b2.value.w2 == 1.0 - n02 / d - n12 / d;
  }

  lemma MulLe(w: real, a: real, b: real)
    requires w >= 0.0 && a <= b
    ensures w * a <= w * b
  {
  }

  /** With non-negative weights summing to s, the weighted sum lies between s*min and s*max. */
  lemma WeightedSumBetween(w: Tri<real>, a: Tri<real>)
    requires w.t0 >= 0.0 && w.t1 >= 0.0 && w.t2 >= 0.0
    ensures var s, m, mm := w.t0 + w.t1 + w.t2, Min3(a.t0, a.t1, a.t2), Max3(a.t0, a.t1, a.t2);
      s * m <= a.t0 * w.t0 + a.t1 * w.t1 + a.t2 * w.t2 <= s * mm
  {
    var m, mm := Min3(a.t0, a.t1, a.t2), Max3(a.t0, a.t1, a.t2);
    MulLe(w.t0, m, a.t0); MulLe(w.t1, m, a.t1); MulLe(w.t2, m, a.t2);
    MulLe(w.t0, a.t0, mm); MulLe(w.t1, a.t1, mm); MulLe(w.t2, a.t2, mm);
    assert a.t0 * w.t0 + a.t1 * w.t1 + a.t2 * w.t2 == w.t0 * a.t0 + w.t1 * a.t1 + w.t2 * a.t2;
    assert (w.t0 + w.t1 + w.t2) * m == w.t0 * m + w.t1 * m + w.t2 * m;
    assert (w.t0 + w.t1 + w.t2) * mm == w.t0 * mm + w.t1 * mm + w.t2 * mm;
  }

  lemma CancelPositive(r: real, m: real, s: real)
    requires s > 0.0
    ensures r * s <= m * s ==> r <= m
    ensures m * s <= r * s ==> m <= r
  {
    if r > m {
      MulPos(r - m, s);
    }
    if m > r {
      MulPos(m - r, s);
    }
  }

  /**
   * Perspective-correct interpolation is a weighted average: with
   * non-negative weights it never leaves the range of the vertex attributes.
   */
  lemma PerspInterpBetween(w: Tri<real>, a: Tri<real>)
    requires w.t0 >= 0.0 && w.t1 >= 0.0 && w.t2 >= 0.0 && w.t0 + w.t1 + w.t2 > 0.0
    ensures Min3(a.t0, a.t1, a.t2) <= PerspInterp1(w, a) <= Max3(a.t0, a.t1, a.t2)
  {
    var s := w.t0 + w.t1 + w.t2;
    var num := a.t0 * w.t0 + a.t1 * w.t1 + a.t2 * w.t2;
    var m, mm := Min3(a.t0, a.t1, a.t2), Max3(a.t0, a.t1, a.t2);
    var r := PerspInterp1(w, a);
    WeightedSumBetween(w, a);
    assert r * s == num;
    assert m * s <= r * s <= mm * s;
    CancelPositive(r, mm, s);
    CancelPositive(r, m, s);
  }

  /** A constant attribute interpolates to itself. */
  lemma PerspInterpConstant(w: Tri<real>, k: real)
    requires w.t0 + w.t1 + w.t2 != 0.0
    ensures PerspInterp1(w, Tri(k, k, k)) == k
  {
    assert k * w.t0 + k * w.t1 + k * w.t2 == k * (w.t0 + w.t1 + w.t2);
  }

  /** Interpolating with the weights (c, 0, 0), (0, c, 0) or (0, 0, c) returns that vertex's attribute exactly. */
  lemma PerspInterpAtVertex(c: real, a: Tri<real>)
    requires c != 0.0
    ensures PerspInterp1(Tri(c, 0.0, 0.0), a) == a.t0
    ensures PerspInterp1(Tri(0.0, c, 0.0), a) == a.t1
    ensures PerspInterp1(Tri(0.0, 0.0, c), a) == a.t2
  {
    assert a.t0 * c + a.t1 * 0.0 + a.t2 * 0.0 == a.t0 * c;
    assert a.t0 * 0.0 + a.t1 * c + a.t2 * 0.0 == a.t1 * c;
    assert a.t0 * 0.0 + a.t1 * 0.0 + a.t2 * c == a.t2 * c;
  }

  /** The same exactness for two- and three-component attributes. */
  lemma PerspInterpVecAtVertex(c: real, a2: Tri<Vec2>, a3: Tri<Vec3>)
    requires c != 0.0
    ensures PerspInterp2(Tri(c, 0.0, 0.0), a2) == a2.t0
    ensures PerspInterp2(Tri(0.0, c, 0.0), a2) == a2.t1
    ensures PerspInterp2(Tri(0.0, 0.0, c), a2) == a2.t2
    ensures PerspInterp3(Tri(c, 0.0, 0.0), a3) == a3.t0
    ensures PerspInterp3(Tri(0.0, c, 0.0), a3) == a3.t1
    ensures PerspInterp3(Tri(0.0, 0.0, c), a3) == a3.t2
  {
    PerspInterpAtVertex(c, Tri(a2.t0.x, a2.t1.x, a2.t2.x));
    PerspInterpAtVertex(c, Tri(a2.t0.y, a2.t1.y, a2.t2.y));
    PerspInterpAtVertex(c, Tri(a3.t0.x, a3.t1.x, a3.t2.x));
    PerspInterpAtVertex(c, Tri(a3.t0.y, a3.t1.y, a3.t2.y));
    PerspInterpAtVertex(c, Tri(a3.t0.z, a3.t1.z, a3.t2.z));
  }

  /**
   * Vertex exactness: a fragment with vertex 0's unit weight carries vertex
   * 0's depth, position and attribute, and its normal (renormalised, or the
   * vertex's own when that is not finite).
   */
  lemma FragmentAtVertex(tri: RasterInput, ops: FloatOps)
    requires PositiveInvW(tri)
    ensures var f := FragmentAt(tri, Weights(1.0, 0.0, 0.0), ops);
      var n := ops.normalize(tri.v.t0.nrmWs);
      f.z == tri.z.t0 && f.vary.posWs == tri.v.t0.posWs && f.vary.uv == tri.v.t0.uv &&
      f.vary.nrmWs == (if ops.finiteLength(n) then n else tri.v.t0.nrmWs)
  {
    var c := tri.invW.t0;
    assert Tri(1.0 * c, 0.0 * tri.invW.t1, 0.0 * tri.invW.t2) == Tri(c, 0.0, 0.0);
    PerspInterpVecAtVertex(c, Tri(tri.v.t0.uv, tri.v.t1.uv, tri.v.t2.uv), Tri(tri.v.t0.posWs, tri.v.t1.posWs, tri.v.t2.posWs));
    PerspInterpVecAtVertex(c, Tri(tri.v.t0.uv, tri.v.t1.uv, tri.v.t2.uv), Tri(tri.v.t0.nrmWs, tri.v.t1.nrmWs, tri.v.t2.nrmWs));
  }

  // ---------------------------------------------------------------------------
  // The bounding box and the cells the rasterizer writes
  // ---------------------------------------------------------------------------

  lemma ConvexBetween(w: Weights, a: real, b: real, c: real)
    requires Inside(w) && w.w0 + w.w1 + w.w2 == 1.0
    ensures Min3(a, b, c) <= w.w0 * a + w.w1 * b + w.w2 * c <= Max3(a, b, c)
  {
    WeightedSumBetween(Tri(w.w0, w.w1, w.w2), Tri(a, b, c));
    assert w.w0 * a + w.w1 * b + w.w2 * c == a * w.w0 + b * w.w1 + c * w.w2;
  }

  lemma FloorBelowCentre(m: real, x: int)
    requires m <= x as real + 0.5
    ensures m.Floor <= x
  {
  }

  lemma CeilAboveCentre(m: real, x: int)
    requires x as real + 0.5 <= m
    ensures x <= Ceil(m)
  {
  }

  /** A point with non-negative weights lies within the triangle's extents. */
  lemma InsideWithinExtents(p0: Vec2, p1: Vec2, p2: Vec2, px: Vec2)
    requires Denom(p0, p1, p2) != 0.0 && Inside(Barycentric(p0, p1, p2, px).value)
    ensures Min3(p0.x, p1.x, p2.x) <= px.x <= Max3(p0.x, p1.x, p2.x)
    ensures Min3(p0.y, p1.y, p2.y) <= px.y <= Max3(p0.y, p1.y, p2.y)
  {
    var w := Barycentric(p0, p1, p2, px).value;
    BarycentricReconstructs(p0, p1, p2, px);
    ConvexBetween(w, p0.x, p1.x, p2.x);
    ConvexBetween(w, p0.y, p1.y, p2.y);
  }

  /** A covered pixel centre lies within the triangle's extents. */
  lemma CoveredCentreInExtents(tri: RasterInput, ops: FloatOps, x: int, y: int)
    requires PositiveInvW(tri) && Cover(tri, x, y, ops).Some?
    ensures Min3(tri.p.t0.x, tri.p.t1.x, tri.p.t2.x) <= x as real + 0.5 <= Max3(tri.p.t0.x, tri.p.t1.x, tri.p.t2.x)
    ensures Min3(tri.p.t0.y, tri.p.t1.y, tri.p.t2.y) <= y as real + 0.5 <= Max3(tri.p.t0.y, tri.p.t1.y, tri.p.t2.y)
  {
    InsideWithinExtents(Screen(tri.p.t0), Screen(tri.p.t1), Screen(tri.p.t2), Centre(x, y));
  }

  /** The clamped box loses nothing: every covered in-range pixel lies inside it. */
  lemma BoxHoldsCoverage(tri: RasterInput, ops: FloatOps, width: nat, height: nat, x: int, y: int)
    requires PositiveInvW(tri) && 0 <= x < width && 0 <= y < height
    requires Cover(tri, x, y, ops).Some?
    ensures var b := BoundingBox(tri.p, width, height);
      b.minX <= x <= b.maxX && b.minY <= y <= b.maxY
  {
    CoveredCentreInExtents(tri, ops, x, y);
    FloorBelowCentre(Min3(tri.p.t0.x, tri.p.t1.x, tri.p.t2.x), x);
    CeilAboveCentre(Max3(tri.p.t0.x, tri.p.t1.x, tri.p.t2.x), x);
    FloorBelowCentre(Min3(tri.p.t0.y, tri.p.t1.y, tri.p.t2.y), y);
    CeilAboveCentre(Max3(tri.p.t0.y, tri.p.t1.y, tri.p.t2.y), y);
  }

  /** Shading one pixel changes at most that pixel's cell, as CellAfter says. */
  lemma ShadeAtCell(img: Image, tri: RasterInput, shade: Shade, ops: FloatOps, x: int, y: int, x': int, y': int)
    requires img.Valid() && PositiveInvW(tri)
    requires 0 <= x < img.width && 0 <= y < img.height && 0 <= x' < img.width && 0 <= y' < img.height
    ensures var r, i := ShadeAt(img, tri, shade, ops, x, y), Idx(img.width, img.height, x', y').value;
      (r.color[i], r.depth[i]) == if x == x' && y == y' then CellAfter(img, tri, shade, ops, x', y') else (img.color[i], img.depth[i])
  {
    var i := Idx(img.width, img.height, x', y').value;
    match Cover(tri, x, y, ops)
    case None =>
    case Some(f) =>
      PutCell(img, x, y, f.z, shade(x, y, f.z, f.vary), i);
      if Idx(img.width, img.height, x, y) == Some(i) {
        IdxInjective(img.width, img.height, x, y, x', y');
      }
  }

  /** After a row span, each cell of the span is as CellAfter says and every other cell is untouched. */
  lemma {:induction false} RowCell(img: Image, tri: RasterInput, shade: Shade, ops: FloatOps, y: int, lo: int, hi: int, x': int, y': int)
    requires img.Valid() && PositiveInvW(tri)
    requires 0 <= lo && hi <= img.width && 0 <= y < img.height && 0 <= x' < img.width && 0 <= y' < img.height
    ensures var r, i := Row(img, tri, shade, ops, y, lo, hi), Idx(img.width, img.height, x', y').value;
      (r.color[i], r.depth[i]) == if y' == y && lo <= x' < hi then CellAfter(img, tri, shade, ops, x', y') else (img.color[i], img.depth[i])
    decreases hi - lo
  {
    if hi > lo {
      var prev := Row(img, tri, shade, ops, y, lo, hi - 1);
      RowCell(img, tri, shade, ops, y, lo, hi - 1, x', y');
      ShadeAtCell(prev, tri, shade, ops, hi - 1, y, x', y');
    }
  }

  /** After rows lo .. hi-1 over columns xlo .. xhi-1, each cell is as CellAfter says inside that box and untouched outside. */
  lemma {:induction false} RowsCell(img: Image, tri: RasterInput, shade: Shade, ops: FloatOps, lo: int, hi: int, xlo: int, xhi: int, x': int, y': int)
    requires img.Valid() && PositiveInvW(tri)
    requires 0 <= lo && hi <= img.height && 0 <= xlo && xhi <= img.width
    requires 0 <= x' < img.width && 0 <= y' < img.height
    ensures var r, i := Rows(img, tri, shade, ops, lo, hi, xlo, xhi), Idx(img.width, img.height, x', y').value;
      (r.color[i], r.depth[i]) ==
        if lo <= y' < hi && xlo <= x' < xhi then CellAfter(img, tri, shade, ops, x', y') else (img.color[i], img.depth[i])
    decreases hi - lo
  {
    if hi > lo {
      var prev := Rows(img, tri, shade, ops, lo, hi - 1, xlo, xhi);
      RowsCell(img, tri, shade, ops, lo, hi - 1, xlo, xhi, x', y');
      RowCell(prev, tri, shade, ops, hi - 1, xlo, xhi, x', y');
    }
  }

  /**
   * What `raster_triangle` leaves in each in-range pixel: the shaded colour
   * and interpolated depth where the pixel centre is covered and strictly
   * nearer than the stored depth, the previous cell everywhere else.
   */
  lemma RasterCell(img: Image, tri: RasterInput, shade: Shade, ops: FloatOps, x: int, y: int)
    requires img.Valid() && PositiveInvW(tri) && 0 <= x < img.width && 0 <= y < img.height
    ensures var r, i := RasterImage(img, tri, shade, ops), Idx(img.width, img.height, x, y).value;
      (r.color[i], r.depth[i]) == CellAfter(img, tri, shade, ops, x, y)
  {
    var b := BoundingBox(tri.p, img.width, img.height);
    if Cover(tri, x, y, ops).Some? {
      BoxHoldsCoverage(tri, ops, img.width, img.height, x, y);
    }
    if b.minX <= b.maxX && b.minY <= b.maxY {
      RowsCell(img, tri, shade, ops, b.minY, b.maxY + 1, b.minX, b.maxX + 1, x, y);
    }
  }

  /** Drawing a triangle never makes a stored depth farther. */
  lemma RasterNeverRaisesDepth(img: Image, tri: RasterInput, shade: Shade, ops: FloatOps, j: nat)
    requires img.Valid() && PositiveInvW(tri) && j < img.width * img.height
    ensures NoFarther(RasterImage(img, tri, shade, ops).depth[j], img.depth[j])
  {
    IdxCovers(img.width, img.height, j);
    RasterCell(img, tri, shade, ops, j % img.width, j / img.width);
  }

  /** A pixel whose centre the triangle does not cover keeps its colour and depth. */
  lemma RasterLeavesUncovered(img: Image, tri: RasterInput, shade: Shade, ops: FloatOps, x: int, y: int)
    requires img.Valid() && PositiveInvW(tri) && 0 <= x < img.width && 0 <= y < img.height
    requires Cover(tri, x, y, ops).None?
    ensures var r, i := RasterImage(img, tri, shade, ops), Idx(img.width, img.height, x, y).value;
      r.color[i] == img.color[i] && r.depth[i] == img.depth[i]
  {
    RasterCell(img, tri, shade, ops, x, y);
  }

  /** `raster_triangle` over the framebuffer, pixel by pixel through `put_pixel`. */
  method RasterTriangle(fb: Framebuffer, tri: RasterInput, shade: Shade, ops: FloatOps)
    requires fb.Valid() && PositiveInvW(tri)
    modifies fb.color, fb.depth
    ensures fb.Contents() == RasterImage(old(fb.Contents()), tri, shade, ops)
  {
    if fb.width == 0 || fb.height == 0 {
      return;
    }
    var b := BoundingBox(tri.p, fb.width, fb.height);
    if b.minX > b.maxX || b.minY > b.maxY {
      return;
    }
    var p0, p1, p2 := Screen(tri.p.t0), Screen(tri.p.t1), Screen(tri.p.t2);
    var y := b.minY;
    while y <= b.maxY
      invariant b.minY <= y <= b.maxY + 1
      invariant fb.Contents() == Rows(old(fb.Contents()), tri, shade, ops, b.minY, y, b.minX, b.maxX + 1)
    {
      ghost var rowStart := fb.Contents();
      var x := b.minX;
      while x <= b.maxX
        invariant b.minX <= x <= b.maxX + 1
        invariant fb.Contents() == Row(rowStart, tri, shade, ops, y, b.minX, x)
      {
        var w := Barycentric(p0, p1, p2, Centre(x, y));
        if w.Some? && Inside(w.value) {
          var f := FragmentAt(tri, w.value, ops);
          var col := shade(x, y, f.z, f.vary);
          fb.PutPixel(x, y, f.z, col);
        }
        x := x + 1;
      }
      y := y + 1;
    }
  }
}
