/** What the back buffer holds after a drawing, pixel by pixel. */
module Pictures {
  import opened Words
  import opened Blend
  import opened Scaling
  import opened TgaPixels
  import opened Images

  /** A colour put over a pixel. */
  function Shade(bg: u32, color: u32): u32
  {
    if Alpha(color) == 0 then bg
    else if Alpha(color) == 255 then color
    else
      BlendExact(color, bg);
      BlendWord(color, bg)
  }

  lemma SameOffset(stride: nat, x: nat, y: nat, x': nat, y': nat)
    requires x < stride && x' < stride
    ensures y * stride + x == y' * stride + x' <==> x == x' && y == y'
  {
    DivModUnique(y * stride + x, stride, y, x);
    DivModUnique(y' * stride + x', stride, y', x');
  }

  /** One call changes the pixel it names, if that is on the screen, and no other. */
  lemma PutAt(g: Geometry, buf: seq<u32>, c: Call, px: u32, py: u32, at: nat)
    requires g.width <= g.stride && |buf| == g.height * g.stride
    requires px < g.width && py < g.height && at == py * g.stride + px < |buf|
    ensures PutAlpha(g, buf, c)[at] == if c.x == px && c.y == py then Shade(buf[at], c.color) else buf[at]
  {
    if c.x < g.width && c.y < g.height {
      PixelInside(g, |buf|, c.x, c.y);
      SameOffset(g.stride, c.x, c.y, px, py);
    }
  }

  // ---- Which call hits a pixel -----------------------------------------------------------------

  /** How far p is from start, going up and wrapping round at 2^32. */
  function Ahead(start: u32, p: u32): u32 { if start <= p then p - start else p + 0x1_0000_0000 - start }

  /** Stepping a from start arrives at p exactly when a is the distance. */
  lemma Arrives(start: u32, a: u32, p: u32)
    ensures (start + a) % 0x1_0000_0000 == p <==> a == Ahead(start, p)
  {
    var w, sum: nat := 0x1_0000_0000, start + a;
    if sum < w {
      DivModUnique(sum, w, 0, sum);
    } else {
      DivModUnique(sum, w, 1, sum - w);
    }
  }

  /** The row of the image that is drawn in screen row py. */
  function RowAt(b: Blit, py: u32): int
  {
    if FlipY(b.img) then b.Rows() - 1 - Ahead(b.y, py) else Ahead(b.y, py)
  }

  /** Column px and row py of the screen lie in the picture. */
  predicate Covers(b: Blit, px: u32, py: u32)
  {
    Ahead(b.x, px) < b.Cols() && Ahead(b.y, py) < b.Rows()
  }

  lemma RowHits(b: Blit, i: nat, py: u32)
    requires i < b.Rows()
    ensures TargetRow(FlipY(b.img), b.y, b.Rows(), i) == py <==> i == RowAt(b, py)
  {
    if FlipY(b.img) {
      Arrives(b.y, b.Rows() - 1 - i, py);
    } else {
      Arrives(b.y, i, py);
    }
  }

  /** Each call names one pixel, and each pixel of the picture is named by one call. */
  lemma CallHits(b: Blit, i: nat, j: nat, px: u32, py: u32)
    requires b.Scaled? ==> 0 < b.width && 0 < b.height
    requires i < b.Rows() && j < b.Cols()
    ensures b.CallAt(i, j).x == px && b.CallAt(i, j).y == py <==> j == Ahead(b.x, px) && i == RowAt(b, py)
  {
    Arrives(b.x, j, px);
    RowHits(b, i, py);
  }

  /** The call for this pixel comes before row i, column j. */
  predicate DrawnBefore(b: Blit, px: u32, py: u32, i: nat, j: nat)
  {
    Covers(b, px, py) && (RowAt(b, py) < i || (RowAt(b, py) == i && Ahead(b.x, px) < j))
  }

  lemma DrawnNext(b: Blit, px: u32, py: u32, i: nat, j: nat)
    requires i < b.Rows() && j < b.Cols()
    ensures DrawnBefore(b, px, py, i, j + 1) <==>
              DrawnBefore(b, px, py, i, j) || (j == Ahead(b.x, px) && i == RowAt(b, py))
    ensures DrawnBefore(b, px, py, i, j) ==> !(j == Ahead(b.x, px) && i == RowAt(b, py))
    ensures DrawnBefore(b, px, py, i + 1, 0) <==> DrawnBefore(b, px, py, i, b.Cols())
  {
  }

  /** The pixel after the calls before row i, column j. */
  function Pixel(b: Blit, bg: u32, px: u32, py: u32, i: nat, j: nat): u32
    requires b.Scaled? ==> 0 < b.width && 0 < b.height
  {
    if DrawnBefore(b, px, py, i, j) then Shade(bg, b.CallAt(RowAt(b, py), Ahead(b.x, px)).color) else bg
  }

  lemma PixelNext(b: Blit, bg: u32, px: u32, py: u32, i: nat, j: nat)
    requires b.Scaled? ==> 0 < b.width && 0 < b.height
    requires i < b.Rows() && j < b.Cols()
    ensures var c, before := b.CallAt(i, j), Pixel(b, bg, px, py, i, j);
            Pixel(b, bg, px, py, i, j + 1) == if c.x == px && c.y == py then Shade(before, c.color) else before
  {
    CallHits(b, i, j, px, py);
    DrawnNext(b, px, py, i, j);
  }

  lemma {:induction false} PixelSoFar(g: Geometry, buf: seq<u32>, b: Blit, px: u32, py: u32, at: nat, i: nat, j: nat)
    requires g.width <= g.stride && |buf| == g.height * g.stride
    requires px < g.width && py < g.height && at == py * g.stride + px < |buf|
    requires b.Scaled? ==> 0 < b.width && 0 < b.height
    requires i <= b.Rows() && j <= b.Cols() && (i == b.Rows() ==> j == 0)
    ensures Draw(g, buf, b.Calls(i, j))[at] == Pixel(b, buf[at], px, py, i, j)
    decreases i, j
  {
    if 0 < j {
      PixelSoFar(g, buf, b, px, py, at, i, j - 1);
      PixelCall(g, buf, b, px, py, at, i, j - 1);
    } else if 0 < i {
      PixelSoFar(g, buf, b, px, py, at, i - 1, b.Cols());
      if 0 < b.Cols() {
        DrawnNext(b, px, py, i - 1, 0);
      }
    }
  }

  lemma PixelCall(g: Geometry, buf: seq<u32>, b: Blit, px: u32, py: u32, at: nat, i: nat, j: nat)
    requires g.width <= g.stride && |buf| == g.height * g.stride
    requires px < g.width && py < g.height && at == py * g.stride + px < |buf|
    requires b.Scaled? ==> 0 < b.width && 0 < b.height
    requires i < b.Rows() && j < b.Cols()
    requires Draw(g, buf, b.Calls(i, j))[at] == Pixel(b, buf[at], px, py, i, j)
    ensures Draw(g, buf, b.Calls(i, j + 1))[at] == Pixel(b, buf[at], px, py, i, j + 1)
  {
    DrawOneMore(g, buf, b, i, j);
    PutAt(g, Draw(g, buf, b.Calls(i, j)), b.CallAt(i, j), px, py, at);
    PixelNext(b, buf[at], px, py, i, j);
  }

  /** After a drawing, native or scaled, at any position, even across the 2^32 wrap: a pixel the
      picture covers is the image's colour for its row and column put once over what was there,
      and every other pixel is as before. */
  lemma PixelDrawn(g: Geometry, buf: seq<u32>, b: Blit, px: u32, py: u32)
    requires g.width <= g.stride && |buf| == g.height * g.stride && px < g.width && py < g.height
    requires b.Scaled? ==> 0 < b.width && 0 < b.height
    ensures py * g.stride + px < |buf|
    ensures Draw(g, buf, b.Calls(b.Rows(), 0))[py * g.stride + px] ==
            if Covers(b, px, py)
            then Shade(buf[py * g.stride + px], b.CallAt(RowAt(b, py), Ahead(b.x, px)).color)
            else buf[py * g.stride + px]
  {
    PixelInside(g, |buf|, px, py);
    PixelSoFar(g, buf, b, px, py, py * g.stride + px, b.Rows(), 0);
  }

  // ---- From the bytes of the file to the screen ------------------------------------------------

  lemma ShadeIsOver(bg: u32, color: u32)
    ensures Over(bg, color, Shade(bg, color))
  {
    if 0 < Alpha(color) < 255 {
      BlendExact(color, bg);
      ChannelsOver(bg, color, BlendWord(color, bg));
    }
  }

  lemma ChannelsOver(bg: u32, color: u32, out: u32)
    requires 0 < Alpha(color) < 255 && Alpha(out) == 255
    requires Red(out) == Channel(Red(color), Red(bg), Alpha(color))
    requires Green(out) == Channel(Green(color), Green(bg), Alpha(color))
    requires Blue(out) == Channel(Blue(color), Blue(bg), Alpha(color))
    ensures Over(bg, color, out)
  {
  }

  /** One call, in terms of the packed colours. */
  lemma PutIsOver(g: Geometry, buf: seq<u32>, c: Call)
    requires g.width <= g.stride && |buf| == g.height * g.stride
    ensures Put(buf, PutAlpha(g, buf, c), g.width, g.height, g.stride, c.x, c.y, c.color)
  {
    if c.x < g.width && c.y < g.height {
      PixelInside(g, |buf|, c.x, c.y);
      PutAt(g, buf, c, c.x, c.y, c.y * g.stride + c.x);
      ShadeIsOver(buf[c.y * g.stride + c.x], c.color);
    }
  }

  lemma FourBytes(b0: nat, b1: nat, b2: nat, b3: nat)
    requires b0 < 256 && b1 < 256 && b2 < 256 && b3 < 256
    ensures var c := b0 + 256 * b1 + 0x1_0000 * b2 + 0x100_0000 * b3;
            c < W32 && c % 256 == b0 && c / 256 % 256 == b1 && c / 0x1_0000 % 256 == b2 && c / 0x100_0000 == b3
  {
    var c := b0 + 256 * b1 + 0x1_0000 * b2 + 0x100_0000 * b3;
    var q1, q2 := b1 + 256 * b2 + 0x1_0000 * b3, b2 + 256 * b3;
    DivModUnique(c, 256, q1, b0);
    DivModUnique(q1, 256, q2, b1);
    DivModUnique(q2, 256, b3, b2);
    DivModUnique(c, 0x1_0000, q2, b0 + 256 * b1);
    DivModUnique(c, 0x100_0000, b3, b0 + 256 * b1 + 0x1_0000 * b2);
  }

  /** The 32-bit offset is the pixel's own if and only if that is below 2^32. */
  lemma OffsetExact(img: Image, i: nat, j: nat)
    requires i < img.height && j < img.width && img.depth != 32
    ensures Offset(img, i, j) == 3 * (i * img.width + j) <==> 3 * (i * img.width + j) < W32
  {
    IndexInside(i, j, img.width, img.height);
    SmallMod(i * img.width + j);
    if 3 * (i * img.width + j) < W32 {
      SmallMod(3 * (i * img.width + j));
    }
  }

  lemma SmallMod(a: nat)
    requires a < W32
    ensures a % 0x1_0000_0000 == a
  {
  }

  lemma PixelBytesAre(data: seq<u8>, at: nat)
    requires HasHeader(data)
    ensures |Parse(data).pixels| == |data| - 18 - Byte(data, 0)
    ensures forall k :: at <= k < |Parse(data).pixels| ==> Parse(data).pixels[k] == Byte(data, 18 + Byte(data, 0) + k)
  {
  }

  /** Where a pixel's bytes lie in the file. */
  lemma OffsetInFile(data: seq<u8>, row: nat, column: nat, index: nat)
    requires HasHeader(data)
    requires var img := Parse(data); index == row * img.width + column < W32
    ensures var img := Parse(data);
            Offset(img, row, column) == if img.depth == 32 then 4 * index else 3 * index % 0x1_0000_0000
  {
    SmallMod(index);
  }

  /** A sampled pixel is the file's. */
  lemma SampleIsPixel(data: seq<u8>, row: nat, column: nat, bg: u32)
    requires HasHeader(data)
    requires var img := Parse(data);
             row * img.width + column < W32 && Offset(img, row, column) + PixelBytes(img) <= |img.pixels|
    ensures PixelOver(data, row, column, bg, Shade(bg, ColorAt(Parse(data), row, column)))
  {
    var index := row * Parse(data).width + column;
    if data[16] == 32 {
      DeepSample(data, row, column, index, bg);
    } else {
      OpaqueSample(data, row, column, index, bg);
    }
  }

  lemma DeepSample(data: seq<u8>, row: nat, column: nat, index: nat, bg: u32)
    requires HasHeader(data) && data[16] == 32
    requires var img := Parse(data);
             index == row * img.width + column < W32 && Offset(img, row, column) + 4 <= |img.pixels|
    ensures PixelOver(data, row, column, bg, Shade(bg, ColorAt(Parse(data), row, column)))
  {
    var color := ColorAt(Parse(data), row, column);
    DeepColor(data, row, column, index);
    ShadeIsOver(bg, color);
    DeepPixel(data, row, column, index, bg, color, Shade(bg, color));
  }

  lemma OpaqueSample(data: seq<u8>, row: nat, column: nat, index: nat, bg: u32)
    requires HasHeader(data) && data[16] != 32
    requires var img := Parse(data);
             index == row * img.width + column < W32 && Offset(img, row, column) + 3 <= |img.pixels|
    ensures PixelOver(data, row, column, bg, Shade(bg, ColorAt(Parse(data), row, column)))
  {
    var color := ColorAt(Parse(data), row, column);
    OpaqueColor(data, row, column, index);
    OpaquePixel(data, row, column, index, bg, color);
  }

  /** The colour at 32 bits, from the bytes of the file. */
  lemma DeepColor(data: seq<u8>, row: nat, column: nat, index: nat)
    requires HasHeader(data) && data[16] == 32
    requires var img := Parse(data);
             index == row * img.width + column < W32 && Offset(img, row, column) + 4 <= |img.pixels|
    ensures var p := 18 + Byte(data, 0) + 4 * index;
            && p + 3 < |data|
            && ColorAt(Parse(data), row, column) == Byte(data, p) + 256 * Byte(data, p + 1)
                 + 0x1_0000 * Byte(data, p + 2) + 0x100_0000 * Byte(data, p + 3)
  {
    OffsetInFile(data, row, column, index);
    PixelBytesAre(data, 4 * index);
    DeepBytes(Parse(data), row, column);
  }

  /** The colour at any other depth. */
  lemma OpaqueColor(data: seq<u8>, row: nat, column: nat, index: nat)
    requires HasHeader(data) && data[16] != 32
    requires var img := Parse(data);
             index == row * img.width + column < W32 && Offset(img, row, column) + 3 <= |img.pixels|
    ensures var p, c := 18 + Byte(data, 0) + 3 * index % 0x1_0000_0000, ColorAt(Parse(data), row, column);
            && p + 2 < |data|
            && c % 256 == Byte(data, p) && c / 256 % 256 == Byte(data, p + 1)
            && c / 0x1_0000 % 256 == Byte(data, p + 2) && c / 0x100_0000 == 255
  {
    OffsetInFile(data, row, column, index);
    PixelBytesAre(data, 3 * index % 0x1_0000_0000);
    OpaqueBytes(Parse(data), row, column);
  }

  lemma DeepPixel(data: seq<u8>, row: nat, column: nat, index: nat, bg: u32, color: nat, out: u32)
    requires HasHeader(data) && data[16] == 32 && index == row * (Byte(data, 12) + 256 * Byte(data, 13)) + column
    requires var p := 18 + Byte(data, 0) + 4 * index;
             && p + 3 < |data|
             && color == Byte(data, p) + 256 * Byte(data, p + 1) + 0x1_0000 * Byte(data, p + 2)
                           + 0x100_0000 * Byte(data, p + 3)
    requires Over(bg, color, out)
    ensures PixelOver(data, row, column, bg, out)
  {
  }

  lemma OpaquePixel(data: seq<u8>, row: nat, column: nat, index: nat, bg: u32, out: u32)
    requires HasHeader(data) && data[16] != 32 && index == row * (Byte(data, 12) + 256 * Byte(data, 13)) + column
    requires var p := 18 + Byte(data, 0) + 3 * index % 0x1_0000_0000;
             && p + 2 < |data|
             && out % 256 == Byte(data, p) && out / 256 % 256 == Byte(data, p + 1)
             && out / 0x1_0000 % 256 == Byte(data, p + 2) && out / 0x100_0000 == 255
    ensures PixelOver(data, row, column, bg, out)
  {
  }

  lemma DeepBytes(img: Image, row: nat, column: nat)
    requires img.depth == 32 && Offset(img, row, column) + 4 <= |img.pixels|
    ensures var at := Offset(img, row, column);
            ColorAt(img, row, column) == img.pixels[at] + 256 * ByteAt(img.pixels, at + 1)
              + 0x1_0000 * ByteAt(img.pixels, at + 2) + 0x100_0000 * ByteAt(img.pixels, at + 3)
  {
  }

  /** Below 32 bits a colour has its three bytes, and full opacity. */
  lemma OpaqueBytes(img: Image, row: nat, column: nat)
    requires img.depth != 32 && Offset(img, row, column) + 3 <= |img.pixels|
    ensures var c, at := ColorAt(img, row, column), Offset(img, row, column);
            && c % 256 == img.pixels[at] && c / 256 % 256 == img.pixels[at + 1]
            && c / 0x1_0000 % 256 == img.pixels[at + 2] && c / 0x100_0000 == 255
  {
    var at := Offset(img, row, column);
    FourBytes(img.pixels[at], img.pixels[at + 1], img.pixels[at + 2], 255);
  }

  lemma FlipBit(d: u8)
    ensures And(d, 0x20) == 0 <==> d / 32 % 2 == 0
  {
    ShlOne(5);
    TestBit(d, 5);
    assert Shl64(1, 5) == 0x20;
    assert Bit(d, 5) == Bit(d / 2, 4) == Bit(d / 2 / 2, 3) == Bit(d / 2 / 2 / 2, 2);
    assert Bit(d / 2 / 2 / 2, 2) == Bit(d / 2 / 2 / 2 / 2, 1) == Bit(d / 2 / 2 / 2 / 2 / 2, 0);
  }

  lemma AheadIsPast(start: u32, p: u32)
    ensures Ahead(start, p) == Past(start, p)
  {
    var w: nat := 0x1_0000_0000;
    if start <= p {
      DivModUnique(p - start, w, 0, p - start);
    } else {
      DivModUnique(p - start, w, -1, p - start + w);
    }
  }

  /** The place of a pixel in the buffer. */
  function At(g: Geometry, px: nat, py: nat): (r: nat)
    requires px < g.width <= g.stride && py < g.height
    ensures r < g.height * g.stride
  {
    PixelInside(g, g.height * g.stride, px, py);
    py * g.stride + px
  }

  ghost predicate NativeDrawn(g: Geometry, before: seq<u32>, after: seq<u32>, data: seq<u8>, x: u32, y: u32)
    requires HasHeader(data) && g.width <= g.stride && |before| == |after| == g.height * g.stride
  {
    forall px: u32, py: u32 {:trigger At(g, px, py)} :: px < g.width && py < g.height ==>
      NativePixel(data, x, y, px, py, before[At(g, px, py)], after[At(g, px, py)])
  }

  ghost predicate ScaledDrawn(g: Geometry, before: seq<u32>, after: seq<u32>, data: seq<u8>, x: u32, y: u32,
                              tw: u32, th: u32)
    requires HasHeader(data) && 0 < tw && 0 < th && g.width <= g.stride && |before| == |after| == g.height * g.stride
  {
    forall px: u32, py: u32 {:trigger At(g, px, py)} :: px < g.width && py < g.height ==>
      ScaledPixel(data, x, y, tw, th, px, py, before[At(g, px, py)], after[At(g, px, py)])
  }

  /** The coordinates of a pixel in the picture, and its row. */
  lemma PixelPlace(data: seq<u8>, b: Blit, px: u32, py: u32)
    requires HasHeader(data) && b.img == Parse(data)
    ensures Ahead(b.x, px) == Past(b.x, px) && Ahead(b.y, py) == Past(b.y, py)
    ensures RowAt(b, py) == RowDown(data, b.Rows(), Past(b.y, py))
  {
    AheadIsPast(b.x, px);
    AheadIsPast(b.y, py);
    FlipBit(data[17]);
  }

  lemma NativePixelIs(g: Geometry, buf: seq<u32>, data: seq<u8>, x: u32, y: u32, px: u32, py: u32)
    requires g.width <= g.stride && |buf| == g.height * g.stride && px < g.width && py < g.height
    requires HasHeader(data) && Complete(Parse(data))
    ensures var b := Native(Parse(data), x, y);
            NativePixel(data, x, y, px, py, buf[At(g, px, py)], Draw(g, buf, b.Calls(b.Rows(), 0))[At(g, px, py)])
  {
    var b := Native(Parse(data), x, y);
    PixelDrawn(g, buf, b, px, py);
    PixelPlace(data, b, px, py);
    if Covers(b, px, py) {
      NativeCovered(data, b, RowAt(b, py), Ahead(b.x, px), buf[At(g, px, py)]);
    }
  }

  lemma NativeCovered(data: seq<u8>, b: Blit, row: nat, column: nat, bg: u32)
    requires HasHeader(data) && Complete(Parse(data)) && b.Native? && b.img == Parse(data)
    requires row < b.img.height && column < b.img.width
    ensures PixelOver(data, row, column, bg, Shade(bg, b.CallAt(row, column).color))
  {
    ReadsInside(b.img, row, column);
    IndexInside(row, column, b.img.width, b.img.height);
    SampleIsPixel(data, row, column, bg);
  }

  lemma NativeIsDrawn(g: Geometry, buf: seq<u32>, data: seq<u8>, x: u32, y: u32)
    requires g.width <= g.stride && |buf| == g.height * g.stride
    requires HasHeader(data) && Complete(Parse(data))
    ensures var b := Native(Parse(data), x, y);
            NativeDrawn(g, buf, Draw(g, buf, b.Calls(b.Rows(), 0)), data, x, y)
  {
    var b := Native(Parse(data), x, y);
    forall px: u32, py: u32 | px < g.width && py < g.height
      ensures NativePixel(data, x, y, px, py, buf[At(g, px, py)], Draw(g, buf, b.Calls(b.Rows(), 0))[At(g, px, py)])
    {
      NativePixelIs(g, buf, data, x, y, px, py);
    }
  }

  /** Where a target index samples: 16.16 arithmetic that never overflows. */
  lemma SourceRaw(size: u16, target: u32, j: nat)
    requires j < target
    ensures Source(size, target, j) == Sampled(size, target, j)
    ensures 0 < size ==> Source(size, target, j) < size
  {
    if size == 0 {
      SourceOfNothing(target, j);
      DivModUnique(0, target, 0, 0);
      assert j * 0 == 0;
    } else {
      SourceIs(size, target, j);
      SourceInside(size, target, j);
    }
  }

  lemma SampleIndex(img: Image, row: nat, column: nat)
    requires (0 < img.height ==> row < img.height) && (0 < img.width ==> column < img.width)
    requires (img.height == 0 ==> row == 0) && (img.width == 0 ==> column == 0)
    ensures 0 <= row * img.width + column < W32
  {
    if 0 < img.width && 0 < img.height {
      IndexInside(row, column, img.width, img.height);
    }
  }

  lemma ScaledPixelIs(g: Geometry, buf: seq<u32>, data: seq<u8>, x: u32, y: u32, tw: u32, th: u32, px: u32, py: u32)
    requires g.width <= g.stride && |buf| == g.height * g.stride && px < g.width && py < g.height
    requires HasHeader(data) && 0 < tw && 0 < th && Readable(Parse(data), tw, th)
    ensures var b := Scaled(Parse(data), x, y, tw, th);
            ScaledPixel(data, x, y, tw, th, px, py,
                        buf[At(g, px, py)], Draw(g, buf, b.Calls(b.Rows(), 0))[At(g, px, py)])
  {
    var b := Scaled(Parse(data), x, y, tw, th);
    PixelDrawn(g, buf, b, px, py);
    if Covers(b, px, py) {
      ScaledCovered(data, b, RowAt(b, py), Ahead(b.x, px), buf[At(g, px, py)]);
    }
    ScaledFrom(data, b, px, py, buf[At(g, px, py)], Draw(g, buf, b.Calls(b.Rows(), 0))[At(g, px, py)]);
  }

  lemma ScaledFrom(data: seq<u8>, b: Blit, px: u32, py: u32, bg: u32, out: u32)
    requires HasHeader(data) && b.Scaled? && b.img == Parse(data) && 0 < b.width && 0 < b.height
    requires if Covers(b, px, py)
             then PixelOver(data, Sampled(b.img.height, b.height, RowAt(b, py)),
                            Sampled(b.img.width, b.width, Ahead(b.x, px)), bg, out)
             else out == bg
    ensures ScaledPixel(data, b.x, b.y, b.width, b.height, px, py, bg, out)
  {
    PixelPlace(data, b, px, py);
  }

  lemma ScaledCovered(data: seq<u8>, b: Blit, i: nat, j: nat, bg: u32)
    requires HasHeader(data) && b.Scaled? && b.img == Parse(data) && i < b.height && j < b.width
    requires Readable(b.img, b.width, b.height)
    ensures PixelOver(data, Sampled(b.img.height, b.height, i), Sampled(b.img.width, b.width, j),
                      bg, Shade(bg, b.CallAt(i, j).color))
  {
    var row, column := Source(b.img.height, b.height, i), Source(b.img.width, b.width, j);
    SourceRaw(b.img.height, b.height, i);
    SourceRaw(b.img.width, b.width, j);
    SourceOfNothing(b.height, i);
    SourceOfNothing(b.width, j);
    SampleIndex(b.img, row, column);
    assert SampleEnd(b.img, b.width, b.height, i, j) <= |b.img.pixels|;
    SampleIsPixel(data, row, column, bg);
  }

  lemma ScaledIsDrawn(g: Geometry, buf: seq<u32>, data: seq<u8>, x: u32, y: u32, tw: u32, th: u32)
    requires g.width <= g.stride && |buf| == g.height * g.stride
    requires HasHeader(data) && 0 < tw && 0 < th && Readable(Parse(data), tw, th)
    ensures var b := Scaled(Parse(data), x, y, tw, th);
            ScaledDrawn(g, buf, Draw(g, buf, b.Calls(b.Rows(), 0)), data, x, y, tw, th)
  {
    var b := Scaled(Parse(data), x, y, tw, th);
    forall px: u32, py: u32 | px < g.width && py < g.height
      ensures ScaledPixel(data, x, y, tw, th, px, py,
                          buf[At(g, px, py)], Draw(g, buf, b.Calls(b.Rows(), 0))[At(g, px, py)])
    {
      ScaledPixelIs(g, buf, data, x, y, tw, th, px, py);
    }
  }
}
