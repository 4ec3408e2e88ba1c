/** The back buffer: pixels with alpha, and the two ways of drawing a TGA image. */
module Framebuffers {
  import opened Words
  import opened Blend
  import opened Scaling
  import opened TgaPixels
  import opened Images
  import opened Pictures

  class Framebuffer {
    const width: nat
    const height: nat
    const pitch: nat
    const back: array<u32>

    /** The geometry the firmware reports; the buffer has height * pitch bytes, and a pixel's
        offset fits the 32 bits put_pixel_alpha keeps it in. */
    ghost predicate Valid()
    {
      width <= pitch / 4 && back.Length == height * (pitch / 4) && back.Length <= W32
    }

    function Shape(): Geometry { Geometry(width, height, pitch / 4) }

    constructor (width: nat, height: nat, pitch: nat, back: array<u32>)
      requires width <= pitch / 4 && back.Length == height * (pitch / 4) && back.Length <= W32
      ensures Valid() && this.back == back && Shape() == Geometry(width, height, pitch / 4)
    {
      this.width, this.height, this.pitch, this.back := width, height, pitch, back;
    }

    method PutPixel(x: u32, y: u32, color: u32)
      requires Valid() && x < width && y < height
      modifies back
      ensures y * (pitch / 4) + x < back.Length
      ensures back[..] == old(back[..])[y * (pitch / 4) + x := color]
    {
      PixelInside(Shape(), back.Length, x, y);
      back[y * (pitch / 4) + x] := color;
    }

    method PutPixelAlpha(x: u32, y: u32, color: u32)
      requires Valid()
      modifies back
      ensures back[..] == PutAlpha(Shape(), old(back[..]), Call(x, y, color))
      ensures Put(old(back[..]), back[..], width, height, pitch / 4, x, y, color)
    {
      PutIsOver(Shape(), back[..], Call(x, y, color));
      if x >= width || y >= height {
        return;
      }
      AlphaIs(color);
      PixelInside(Shape(), back.Length, x, y);
      var alpha := AlphaOf(color);
      if alpha == 0 {
        return;
      }
      if alpha == 255 {
        PutPixel(x, y, color);
        return;
      }
      var offset := (y * (pitch / 4) + x) % 0x1_0000_0000;
      DivModUnique(y * (pitch / 4) + x, W32, 0, y * (pitch / 4) + x);
      var bg := back[offset];
      BlendExact(color, bg);
      var rb := BlendMasked(color, bg, alpha, 0xFF00FF);
      var g := BlendMasked(color, bg, alpha, 0x00FF00);
      back[offset] := Or(Or(rb, g), 0xFF00_0000);
    }

    method DrawTgaImage(x: u32, y: u32, data: seq<u8>)
      requires Valid() && HasHeader(data) && Complete(Parse(data))
      modifies back
      ensures var img := Parse(data);
              back[..] == Draw(Shape(), old(back[..]), Native(img, x, y).Calls(img.height, 0))
      ensures NativeDrawn(Shape(), old(back[..]), back[..], data, x, y)
    {
      NativeIsDrawn(Shape(), back[..], data, x, y);
      var img := Parse(data);
      ghost var blit, start := Native(img, x, y), back[..];
      for i := 0 to img.height
        invariant back[..] == Draw(Shape(), start, blit.Calls(i, 0))
      {
        ImageRow(x, y, img, i, blit, start);
        assert blit.Calls(i + 1, 0) == blit.Calls(i, img.width);
      }
    }

    /** The inner loop of draw_tga_image. */
    method ImageRow(x: u32, y: u32, img: Image, i: nat, ghost b: Blit, ghost start: seq<u32>)
      requires Valid() && Complete(img) && i < img.height && |start| == back.Length
      requires b == Native(img, x, y)
      requires back[..] == Draw(Shape(), start, b.Calls(i, 0))
      modifies back
      ensures back[..] == Draw(Shape(), start, b.Calls(i, img.width))
    {
      var h, flip := img.height, FlipY(img);
      for j := 0 to img.width
        invariant back[..] == Draw(Shape(), start, b.Calls(i, j))
      {
        ReadsInside(img, i, j);
        var color := ColorAt(img, i, j);
        var drawY := TargetRow(flip, y, h, i);
        NativeCall(b, i, j);
        DrawOneMore(Shape(), start, b, i, j);
        PutPixelAlpha((x + j) % 0x1_0000_0000, drawY, color);
      }
    }

    /** The target sizes are divisors: zero faults. All pixels sampled must be in the file. */
    method DrawTgaScaled(x: u32, y: u32, targetW: u32, targetH: u32, data: seq<u8>)
      requires Valid() && HasHeader(data)
      requires 0 < targetW && 0 < targetH && Readable(Parse(data), targetW, targetH)
      modifies back
      ensures back[..] == Draw(Shape(), old(back[..]), Scaled(Parse(data), x, y, targetW, targetH).Calls(targetH, 0))
      ensures ScaledDrawn(Shape(), old(back[..]), back[..], data, x, y, targetW, targetH)
    {
      ScaledIsDrawn(Shape(), back[..], data, x, y, targetW, targetH);
      var img := Parse(data);
      var xRatio := Ratio(img.width, targetW);
      var yRatio := Ratio(img.height, targetH);
      ghost var blit, start := Scaled(img, x, y, targetW, targetH), back[..];
      for i := 0 to targetH
        invariant back[..] == Draw(Shape(), start, blit.Calls(i, 0))
      {
        ScaledRow(x, y, targetW, targetH, img, xRatio, i, Step(i, yRatio), blit, start);
        assert blit.Calls(i + 1, 0) == blit.Calls(i, targetW);
      }
    }

    /** The inner loop of draw_tga_scaled; srcY does not depend on the column. */
    method ScaledRow(x: u32, y: u32, targetW: u32, targetH: u32, img: Image,
                     xRatio: u32, i: nat, srcY: nat, ghost b: Blit, ghost start: seq<u32>)
      requires Valid() && 0 < targetW && i < targetH && |start| == back.Length
      requires Readable(img, targetW, targetH)
      requires xRatio == Ratio(img.width, targetW) && srcY == Source(img.height, targetH, i)
      requires b == Scaled(img, x, y, targetW, targetH)
      requires back[..] == Draw(Shape(), start, b.Calls(i, 0))
      modifies back
      ensures back[..] == Draw(Shape(), start, b.Calls(i, targetW))
    {
      for j := 0 to targetW
        invariant back[..] == Draw(Shape(), start, b.Calls(i, j))
      {
        ScaledOne(x, y, targetW, targetH, img, xRatio, i, j, srcY, b, start);
      }
    }

    /** The body of the inner loop. */
    method ScaledOne(x: u32, y: u32, targetW: u32, targetH: u32, img: Image,
                     xRatio: u32, i: nat, j: nat, srcY: nat, ghost b: Blit, ghost start: seq<u32>)
      requires Valid() && j < targetW && i < targetH && |start| == back.Length
      requires Readable(img, targetW, targetH)
      requires xRatio == Ratio(img.width, targetW) && srcY == Source(img.height, targetH, i)
      requires b == Scaled(img, x, y, targetW, targetH)
      requires back[..] == Draw(Shape(), start, b.Calls(i, j))
      modifies back
      ensures back[..] == Draw(Shape(), start, b.Calls(i, j + 1))
    {
      var srcX := Step(j, xRatio);
      assert srcX == Source(img.width, targetW, j);
      var color := ColorAt(img, srcY, srcX);
      assert SampleEnd(img, targetW, targetH, i, j) <= |img.pixels|;
      var drawY := TargetRow(FlipY(img), y, targetH, i);
      ScaledCall(b, i, j, srcY, srcX);
      DrawOneMore(Shape(), start, b, i, j);
      PutPixelAlpha((x + j) % 0x1_0000_0000, drawY, color);
    }
  }
}
