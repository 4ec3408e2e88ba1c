/** TGA images, the calls that drawing one makes, and what a call does to a buffer. */
module Images {
  import opened Words
  import opened Blend
  import opened Scaling
  import opened TgaPixels

  // ---- TGA files -----------------------------------------------------------------------------

  /** The header fields the drawing code looks at, and the bytes after the header and the id. */
  datatype Image = Image(width: u16, height: u16, depth: u8, descriptor: u8, pixels: seq<u8>)

  function Word16(low: u8, high: u8): u16
  {
    var w: nat := high;
    low + 256 * w
  }

  /** The packed 18-byte header at the start of a file. */
  function Parse(data: seq<u8>): Image
    requires HasHeader(data)
  {
    Image(Word16(data[12], data[13]), Word16(data[14], data[15]), data[16], data[17], data[18 + data[0]..])
  }

  function ByteAt(data: seq<u8>, k: nat): u8 { if k < |data| then data[k] else 0 }

  /** Rows are stored bottom up unless bit 5 of the descriptor is set. */
  function FlipY(img: Image): bool { And(img.descriptor, 0x20) == 0 }

  /** Any depth but 32 is read as three bytes a pixel. */
  function PixelBytes(img: Image): nat { if img.depth == 32 then 4 else 3 }

  /** All the pixels the header announces are there. */
  ghost predicate Complete(img: Image)
  {
    img.width * img.height * PixelBytes(img) <= |img.pixels|
  }

  /** Offset of a pixel: 32-bit arithmetic for the index, and for the three-byte offset. */
  function Offset(img: Image, i: nat, j: nat): nat
  {
    var index := (i * img.width + j) % 0x1_0000_0000;
    if img.depth == 32 then 4 * index else index * 3 % 0x1_0000_0000
  }

  /** The colour at column j of row i. The bytes of a word do not overlap, so or-ing them
      adds them. */
  function ColorAt(img: Image, i: nat, j: nat): u32
  {
    var at := Offset(img, i, j);
    var low := ByteAt(img.pixels, at) + 256 * ByteAt(img.pixels, at + 1) + 0x1_0000 * ByteAt(img.pixels, at + 2);
    low + if img.depth == 32 then 0x100_0000 * ByteAt(img.pixels, at + 3) else 0xFF00_0000
  }

  lemma IndexInside(i: nat, j: nat, w: u16, h: u16)
    requires i < h && j < w
    ensures 0 <= i * w + j < w * h < W32
  {
    MulOrder(w, i + 1, h);
    assert w * (i + 1) == i * w + w;
    MulOrder(w, h, 0xFFFF);
  }

  lemma ModBelow(a: nat)
    ensures 0 <= a % 0x1_0000_0000 <= a
  {
  }

  /** Every read of a complete image is inside it. */
  lemma ReadsInside(img: Image, i: nat, j: nat)
    requires Complete(img) && i < img.height && j < img.width
    ensures Offset(img, i, j) + PixelBytes(img) <= |img.pixels|
  {
    IndexInside(i, j, img.width, img.height);
    var index, n := i * img.width + j, img.width * img.height;
    assert index % 0x1_0000_0000 == index;
    ModBelow(index * 3);
    MulOrder(PixelBytes(img), index + 1, n);
  }

  /** Where the bytes end that scaled drawing reads for row i, column j of the target. */
  function SampleEnd(img: Image, width: u32, height: u32, i: nat, j: nat): nat
    requires 0 < width && 0 < height
  {
    Offset(img, Source(img.height, height, i), Source(img.width, width, j)) + PixelBytes(img)
  }

  /** Every pixel that scaled drawing samples is there. */
  ghost predicate Readable(img: Image, width: u32, height: u32)
    requires 0 < width && 0 < height
  {
    forall i: nat, j: nat :: i < height && j < width ==> SampleEnd(img, width, height, i, j) <= |img.pixels|
  }

  /** A complete image with pixels is readable at every size. */
  lemma CompleteReadable(img: Image, width: u32, height: u32)
    requires Complete(img) && 0 < img.width && 0 < img.height && 0 < width && 0 < height
    ensures Readable(img, width, height)
  {
    forall i: nat, j: nat | i < height && j < width
      ensures SampleEnd(img, width, height, i, j) <= |img.pixels|
    {
      SourceInside(img.height, height, i);
      SourceInside(img.width, width, j);
      ReadsInside(img, Source(img.height, height, i), Source(img.width, width, j));
    }
  }

  lemma SourceOfNothing(target: u32, j: nat)
    requires 0 < target
    ensures Source(0, target, j) == 0
  {
    DivModUnique(0, target, 0, 0);
  }

  /** The last column that is sampled of an image that may have none. */
  function LastColumn(img: Image, width: u32): nat
    requires 0 < width
  {
    Source(img.width, width, width - 1)
  }

  lemma EmptySample(img: Image, width: u32, height: u32, i: nat, j: nat)
    requires (img.width == 0 || img.height == 0) && i < height && j < width
    ensures SampleEnd(img, width, height, i, j) == (Source(img.width, width, j) + 1) * PixelBytes(img)
    ensures Source(img.width, width, j) <= LastColumn(img, width)
  {
    var row, column := Source(img.height, height, i), Source(img.width, width, j);
    SourceOfNothing(width, j);
    SourceOfNothing(width, width - 1);
    SourceOfNothing(height, i);
    if img.width != 0 {
      SourceInside(img.width, width, j);
      SourceMonotone(img.width, width, j, width - 1);
    }
    SmallOffset(img, row, column);
  }

  lemma SmallOffset(img: Image, row: nat, column: nat)
    requires row * img.width == 0 && column < 0x1_0000
    ensures Offset(img, row, column) == column * PixelBytes(img)
  {
  }

  /** An image without pixels, which has colour for no target pixel, is sampled all the same: in
      row 0, up to the last column. It is readable if and only if the file has these bytes. */
  lemma EmptyReadable(img: Image, width: u32, height: u32)
    requires (img.width == 0 || img.height == 0) && 0 < width && 0 < height
    ensures Readable(img, width, height) <==> (LastColumn(img, width) + 1) * PixelBytes(img) <= |img.pixels|
  {
    forall i: nat, j: nat | i < height && j < width
      ensures SampleEnd(img, width, height, i, j) <= (LastColumn(img, width) + 1) * PixelBytes(img)
    {
      EmptySample(img, width, height, i, j);
      MulOrder(PixelBytes(img), Source(img.width, width, j) + 1, LastColumn(img, width) + 1);
    }
    EmptySample(img, width, height, 0, width - 1);
  }

  // ---- Draw calls --------------------------------------------------------------------------------

  /** Rows are counted from the bottom when the image is stored bottom up; 32-bit wrap. */
  function TargetRow(flip: bool, y: u32, rows: nat, i: nat): u32
  {
    if flip then (y + rows - 1 - i) % 0x1_0000_0000 else (y + i) % 0x1_0000_0000
  }

  datatype Call = Call(x: u32, y: u32, color: u32)

  /** A drawing of an image: at its own size, or scaled. */
  datatype Blit =
    | Native(img: Image, x: u32, y: u32)
    | Scaled(img: Image, x: u32, y: u32, width: u32, height: u32)
  {
    function Cols(): nat { if Native? then img.width else width }
    function Rows(): nat { if Native? then img.height else height }

    /** What is passed to put_pixel_alpha for row i, column j of the target. */
    function CallAt(i: nat, j: nat): Call
      requires Scaled? ==> 0 < width && 0 < height
    {
      var color :=
        if Native? then ColorAt(img, i, j)
        else ColorAt(img, Source(img.height, height, i), Source(img.width, width, j));
      Call((x + j) % 0x1_0000_0000, TargetRow(FlipY(img), y, Rows(), i), color)
    }

    /** The calls made before row i, column j, in order. */
    function Calls(i: nat, j: nat): seq<Call>
      requires Scaled? ==> 0 < width && 0 < height
      decreases i, j
    {
      if 0 < j then Calls(i, j - 1) + [CallAt(i, j - 1)]
      else if 0 < i then Calls(i - 1, Cols())
      else []
    }
  }

  /** Scaling to the image's own size makes exactly the calls of the unscaled drawing, for
      both depths and both row orders. */
  lemma {:induction false} NativeScale(img: Image, x: u32, y: u32, i: nat, j: nat)
    requires 0 < img.width && 0 < img.height
    requires i <= img.height && j <= img.width && (i == img.height ==> j == 0)
    ensures Scaled(img, x, y, img.width, img.height).Calls(i, j) == Native(img, x, y).Calls(i, j)
    decreases i, j
  {
    if 0 < j {
      NativeScale(img, x, y, i, j - 1);
      SourceNative(img.height, i);
      SourceNative(img.width, j - 1);
    } else if 0 < i {
      NativeScale(img, x, y, i - 1, img.width);
    }
  }

  // ---- The back buffer -------------------------------------------------------------------------------

  datatype Geometry = Geometry(width: nat, height: nat, stride: nat)

  /** Pixels after one call: outside the screen and fully transparent pixels are skipped. */
  function PutAlpha(g: Geometry, buf: seq<u32>, c: Call): (r: seq<u32>)
    requires g.width <= g.stride && |buf| == g.height * g.stride
    ensures |r| == |buf|
  {
    if c.x >= g.width || c.y >= g.height || Alpha(c.color) == 0 then buf
    else
      PixelInside(g, |buf|, c.x, c.y);
      var at := c.y * g.stride + c.x;
      if Alpha(c.color) == 255 then buf[at := c.color]
      else
        BlendExact(c.color, buf[at]);
        buf[at := BlendWord(c.color, buf[at])]
  }

  lemma PixelInside(g: Geometry, n: nat, x: nat, y: nat)
    requires g.width <= g.stride && n == g.height * g.stride && x < g.width && y < g.height
    ensures y * g.stride + x < n
  {
    MulOrder(g.stride, y, g.height - 1);
    assert g.stride * (g.height - 1) == n - g.stride && g.stride * y == y * g.stride;
  }

  function Draw(g: Geometry, buf: seq<u32>, calls: seq<Call>): (r: seq<u32>)
    requires g.width <= g.stride && |buf| == g.height * g.stride
    ensures |r| == |buf|
    decreases |calls|
  {
    if calls == [] then buf
    else PutAlpha(g, Draw(g, buf, calls[..|calls| - 1]), calls[|calls| - 1])
  }

  /** Drawing scaled at native size leaves the same back buffer as drawing the image. */
  lemma NativeScaleBuffer(g: Geometry, buf: seq<u32>, img: Image, x: u32, y: u32)
    requires g.width <= g.stride && |buf| == g.height * g.stride
    requires 0 < img.width && 0 < img.height
    ensures Draw(g, buf, Scaled(img, x, y, img.width, img.height).Calls(img.height, 0))
         == Draw(g, buf, Native(img, x, y).Calls(img.height, 0))
  {
    NativeScale(img, x, y, img.height, 0);
  }

  lemma NativeCall(b: Blit, i: nat, j: nat)
    requires b.Native?
    ensures b.CallAt(i, j) == Call((b.x + j) % 0x1_0000_0000, TargetRow(FlipY(b.img), b.y, b.img.height, i),
                                   ColorAt(b.img, i, j))
  {
  }

  lemma ScaledCall(b: Blit, i: nat, j: nat, srcY: nat, srcX: nat)
    requires b.Scaled? && 0 < b.width && 0 < b.height
    requires srcY == Source(b.img.height, b.height, i) && srcX == Source(b.img.width, b.width, j)
    ensures b.CallAt(i, j) == Call((b.x + j) % 0x1_0000_0000, TargetRow(FlipY(b.img), b.y, b.height, i),
                                   ColorAt(b.img, srcY, srcX))
  {
  }

  lemma DrawOneMore(g: Geometry, buf: seq<u32>, b: Blit, i: nat, j: nat)
    requires g.width <= g.stride && |buf| == g.height * g.stride
    requires b.Scaled? ==> 0 < b.width && 0 < b.height
    ensures Draw(g, buf, b.Calls(i, j + 1)) == PutAlpha(g, Draw(g, buf, b.Calls(i, j)), b.CallAt(i, j))
  {
    var calls := b.Calls(i, j + 1);
    assert calls[..|calls| - 1] == b.Calls(i, j);
  }
}
