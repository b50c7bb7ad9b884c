/**
 * The raster target: a row-major colour array and a depth array of the same
 * length, cleared in place and written one pixel at a time behind a strict
 * nearest-wins depth test.
 *
 * `Image` is the value a `Framebuffer` holds at any moment; the pure
 * functions on `Image` specify the class's methods, and the lemmas about
 * those functions are the properties the renderer relies on.
 */
module Buffers {
  import opened Wrappers

  newtype byte = x: int | 0 <= x < 256

  /** An RGBA colour, one byte per channel (`Color::rgba`). */
  datatype Color = Color(r: byte, g: byte, b: byte, a: byte)

  /** `Color::rgb`: an opaque colour. */
  function Rgb(r: byte, g: byte, b: byte): Color
  {
    Color(r, g, b, 255)
  }

  /** A stored depth: `Far` is the +infinity that means "nothing drawn yet". */
  datatype Depth = Far | Z(value: real)

  /** The strict test `z < depth[i]`: a finite depth is nearer than +infinity. */
  predicate Nearer(z: real, d: Depth)
  {
    d.Far? || z < d.value
  }

  /** `a` is at most as far as `b`. */
  predicate NoFarther(a: Depth, b: Depth)
  {
    b.Far? || (a.Z? && a.value <= b.value)
  }

  datatype Image = Image(width: nat, height: nat, color: seq<Color>, depth: seq<Depth>)
  {
    /** Both arrays hold exactly width * height cells. */
    predicate Valid()
    {
      |color| == width * height && |depth| == width * height
    }
  }

  lemma MulMono(a: int, b: int, w: nat)
    requires a <= b
    ensures a * w <= b * w
  {
  }

  lemma RowMajorDecode(width: nat, x: int, y: int)
    requires 0 <= x < width && 0 <= y
    ensures (y * width + x) / width == y && (y * width + x) % width == x
  {
    var i := y * width + x;
    var q, r := i / width, i % width;
    assert q * width + r == y * width + x && 0 <= r < width;
    if q > y {
      MulMono(y + 1, q, width);
    } else if q < y {
      MulMono(q + 1, y, width);
    }
    assert q == y;
  }

  lemma RowMajorBound(width: nat, height: nat, x: int, y: int)
    requires 0 <= x < width && 0 <= y < height
    ensures y * width + x < width * height
  {
    assert y * width + x < y * width + width == (y + 1) * width;
    assert (y + 1) * width <= height * width by {
      assert y + 1 <= height;
    }
  }

  /**
   * `Framebuffer::idx`: the row-major cell of pixel (x, y), when it lies in
   * [0, width) x [0, height). The cell is in range and decodes back to (x, y).
   */
  function Idx(width: nat, height: nat, x: int, y: int): (r: Option<nat>)
    ensures r.Some? <==> 0 <= x < width && 0 <= y < height
    ensures r.Some? ==> r.value < width * height
    ensures r.Some? ==> r.value / width == y && r.value % width == x
  {
    if x < 0 || y < 0 then None
    else if x >= width || y >= height then None
    else
      RowMajorBound(width, height, x, y);
      RowMajorDecode(width, x, y);
      Some(y * width + x)
  }

  /** Two in-range pixels share a cell only if they are the same pixel. */
  lemma IdxInjective(width: nat, height: nat, x: int, y: int, x': int, y': int)
    requires Idx(width, height, x, y).Some? && Idx(width, height, x, y) == Idx(width, height, x', y')
    ensures x == x' && y == y'
  {
  }

  /** Every cell index of the image is the index of exactly one pixel. */
  lemma IdxCovers(width: nat, height: nat, i: nat)
    requires i < width * height
    ensures Idx(width, height, i % width, i / width) == Some(i)
  {
    var x, y := i % width, i / width;
    assert i == y * width + x;
    if y >= height {
      MulMono(height, y, width);
    }
  }

  /** The image `Framebuffer::new(width, height)` holds: opaque black, depth +infinity. */
  function NewImage(width: nat, height: nat): Image
  {
    Image(width, height, seq(width * height, _ => Rgb(0, 0, 0)), seq(width * height, _ => Far))
  }

  /** `clear_color(c)` on an image. */
  function FillColor(img: Image, c: Color): Image
  {
    img.(color := seq(|img.color|, _ => c))
  }

  /** `clear_depth()` on an image. */
  function FillDepth(img: Image): Image
  {
    img.(depth := seq(|img.depth|, _ => Far))
  }

  /** `put_pixel(x, y, z, c)` on an image: write both cells only when z is strictly nearer. */
  function Put(img: Image, x: int, y: int, z: real, c: Color): (r: Image)
    requires img.Valid()
    ensures r.Valid() && r.width == img.width && r.height == img.height
  {
    match Idx(img.width, img.height, x, y)
    case None => img
    case Some(i) =>
      if Nearer(z, img.depth[i]) then img.(color := img.color[i := c], depth := img.depth[i := Z(z)])
      else img
  }

  // ---------------------------------------------------------------------------
  // Properties of the raster target
  // ---------------------------------------------------------------------------

  /** A new image has w*h cells of opaque black at depth +infinity. */
  lemma NewImageIsCleared(width: nat, height: nat)
    ensures NewImage(width, height).Valid()
    ensures forall i :: 0 <= i < width * height ==>
      NewImage(width, height).color[i] == Color(0, 0, 0, 255) && NewImage(width, height).depth[i] == Far
  {
  }

  /** Clearing colour sets every colour cell and leaves depth and dimensions alone. */
  lemma FillColorSpec(img: Image, c: Color)
    requires img.Valid()
    ensures FillColor(img, c).Valid() && FillColor(img, c).depth == img.depth
    ensures forall i :: 0 <= i < |img.color| ==> FillColor(img, c).color[i] == c
  {
  }

  /**
   * After clearing depth, every finite-depth write to an in-range pixel
   * passes the depth test; colour is untouched by the clear itself.
   */
  lemma ClearDepthThenPutWrites(img: Image, x: int, y: int, z: real, c: Color)
    requires img.Valid() && 0 <= x < img.width && 0 <= y < img.height
    ensures FillDepth(img).color == img.color && FillDepth(img).Valid()
    ensures var i := Idx(img.width, img.height, x, y).value;
      Put(FillDepth(img), x, y, z, c).color[i] == c && Put(FillDepth(img), x, y, z, c).depth[i] == Z(z)
  {
  }

  /** A write to a pixel outside the target is a no-op. */
  lemma PutOutOfBounds(img: Image, x: int, y: int, z: real, c: Color)
    requires img.Valid() && !(0 <= x < img.width && 0 <= y < img.height)
    ensures Put(img, x, y, z, c) == img
  {
  }

  /**
   * `put_pixel` changes at most the cell of (x, y); it writes colour and depth
   * there exactly when z is strictly nearer than the stored depth.
   */
  lemma PutCell(img: Image, x: int, y: int, z: real, c: Color, j: nat)
    requires img.Valid() && j < img.width * img.height
    ensures var r := Put(img, x, y, z, c);
      if Idx(img.width, img.height, x, y) == Some(j) && Nearer(z, img.depth[j])
      then r.color[j] == c && r.depth[j] == Z(z)
      else r.color[j] == img.color[j] && r.depth[j] == img.depth[j]
  {
  }

  /** A stored depth never increases. */
  lemma PutNeverRaisesDepth(img: Image, x: int, y: int, z: real, c: Color, j: nat)
    requires img.Valid() && j < img.width * img.height
    ensures NoFarther(Put(img, x, y, z, c).depth[j], img.depth[j])
  {
    PutCell(img, x, y, z, c, j);
  }

  /** At equal depth the earlier write is kept. */
  lemma PutTieKeepsEarlier(img: Image, x: int, y: int, z: real, c: Color)
    requires img.Valid()
    requires 0 <= x < img.width && 0 <= y < img.height
    requires img.depth[Idx(img.width, img.height, x, y).value] == Z(z)
    ensures Put(img, x, y, z, c) == img
  {
  }

  /**
   * Two writes to one pixel at distinct depths commute: the nearer one's
   * colour is left whichever comes first.
   */
  lemma PutOrderIndependent(img: Image, x: int, y: int, z1: real, c1: Color, z2: real, c2: Color)
    requires img.Valid() && z1 != z2
    ensures Put(Put(img, x, y, z1, c1), x, y, z2, c2) == Put(Put(img, x, y, z2, c2), x, y, z1, c1)
  {
    match Idx(img.width, img.height, x, y)
    case None =>
    case Some(i) =>
      var d := img.depth[i];
      if Nearer(z1, d) && Nearer(z2, d) {
        if z1 < z2 {
          assert Put(Put(img, x, y, z1, c1), x, y, z2, c2) == Put(img, x, y, z1, c1);
        } else {
          assert Put(Put(img, x, y, z2, c2), x, y, z1, c1) == Put(img, x, y, z2, c2);
        }
      }
  }

  /** Nearest wins: after a clear, the nearer of two writes is what the pixel shows. */
  lemma NearestWins(img: Image, x: int, y: int, z1: real, c1: Color, z2: real, c2: Color)
    requires img.Valid() && 0 <= x < img.width && 0 <= y < img.height && z1 < z2
    ensures var i := Idx(img.width, img.height, x, y).value;
      Put(Put(FillDepth(img), x, y, z1, c1), x, y, z2, c2).color[i] == c1 &&
      Put(Put(FillDepth(img), x, y, z2, c2), x, y, z1, c1).color[i] == c1
  {
    PutOrderIndependent(FillDepth(img), x, y, z1, c1, z2, c2);
  }

  /** The raster target. Its dimensions and arrays are fixed at construction; the cells change in place. */
  class Framebuffer {
    const width: nat
    const height: nat
    const color: array<Color>
    const depth: array<Depth>

    predicate Valid()
    {
      color.Length == width * height && depth.Length == width * height
    }

    /** The image the framebuffer holds. */
    function Contents(): (img: Image)
      reads color, depth
    {
      Image(width, height, color[..], depth[..])
    }

    constructor (w: nat, h: nat)
      ensures Valid() && fresh(color) && fresh(depth)
      ensures Contents() == NewImage(w, h)
    {
      width, height := w, h;
      color := new Color[w * h](_ => Rgb(0, 0, 0));
      depth := new Depth[w * h](_ => Far);
    }

    method ClearColor(c: Color)
      requires Valid()
      modifies color
      ensures Contents() == FillColor(old(Contents()), c)
    {
      var i := 0;
      while i < color.Length
        invariant 0 <= i <= color.Length
        invariant forall k :: 0 <= k < i ==> color[k] == c
      {
        color[i] := c;
        i := i + 1;
      }
    }

    method ClearDepth()
      requires Valid()
      modifies depth
      ensures Contents() == FillDepth(old(Contents()))
    {
      var i := 0;
      while i < depth.Length
        invariant 0 <= i <= depth.Length
        invariant forall k :: 0 <= k < i ==> depth[k] == Far
      {
        depth[i] := Far;
        i := i + 1;
      }
    }

    method PutPixel(x: int, y: int, z: real, c: Color)
      requires Valid()
      modifies color, depth
      ensures Contents() == Put(old(Contents()), x, y, z, c)
    {
      match Idx(width, height, x, y)
      case None =>
      case Some(i) =>
        if Nearer(z, depth[i]) {
          depth[i] := Z(z);
          color[i] := c;
        }
    }
  }
}
