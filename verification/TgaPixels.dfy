/** The bytes of a TGA file and the pixels they stand for, field by field: width in bytes 12 and
    13, height in 14 and 15, depth in 16, descriptor in 17, and the pixels after the 18 bytes of
    the header and the id, whose length is byte 0. Bytes go blue, green, red, alpha. */
module TgaPixels {
  import opened Words

  function Byte(data: seq<u8>, k: nat): nat
    requires k < |data|
  {
    data[k]
  }

  ghost predicate HasHeader(data: seq<u8>)
  {
    18 <= |data| && 18 + Byte(data, 0) <= |data|
  }

  /** One channel on its own, in unbounded arithmetic with a floor division. */
  function Channel(fg: nat, bg: nat, alpha: nat): int { bg + (fg - bg) * alpha / 256 }

  /** A colour with its alpha in the top byte, put over bg, gives out. */
  ghost predicate Over(bg: nat, color: nat, out: nat)
  {
    var alpha := color / 0x100_0000;
    if alpha == 0 then out == bg
    else if alpha == 255 then out == color
    else
      && out / 0x100_0000 == 255
      && out / 0x1_0000 % 256 == Channel(color / 0x1_0000 % 256, bg / 0x1_0000 % 256, alpha)
      && out / 256 % 256 == Channel(color / 256 % 256, bg / 256 % 256, alpha)
      && out % 256 == Channel(color % 256, bg % 256, alpha)
  }

  /** One pixel drawn at (x, y): on the screen, it is put over what was there; nothing else
      changes. */
  ghost predicate Put(before: seq<u32>, after: seq<u32>, width: nat, height: nat, stride: nat,
                      x: u32, y: u32, color: u32)
  {
    && |after| == |before|
    && (x >= width || y >= height || color / 0x100_0000 == 0 ==> after == before)
    && (x < width && y < height ==>
          var at := y * stride + x;
          && at < |before| && Over(before[at], color, after[at])
          && forall k :: 0 <= k < |before| && k != at ==> after[k] == before[k])
  }

  /** The pixel at a row and column of the file, put over bg, gives out. Below 32 bits a pixel
      is opaque, and its offset is cut to 32 bits. */
  ghost predicate PixelOver(data: seq<u8>, row: int, column: int, bg: u32, out: u32)
    requires HasHeader(data)
  {
    var first, index := 18 + Byte(data, 0), row * (Byte(data, 12) + 256 * Byte(data, 13)) + column;
    if data[16] == 32 then
      var p := first + 4 * index;
      && 0 <= p && p + 3 < |data|
      && Over(bg, Byte(data, p) + 256 * Byte(data, p + 1) + 0x1_0000 * Byte(data, p + 2)
                  + 0x100_0000 * Byte(data, p + 3), out)
    else
      var p := first + 3 * index % 0x1_0000_0000;
      && 0 <= p && p + 2 < |data|
      && out % 256 == data[p] && out / 256 % 256 == data[p + 1] && out / 0x1_0000 % 256 == data[p + 2]
      && out / 0x100_0000 == 255
  }

  /** How far a coordinate is past the corner of the picture, going round at 2^32. */
  function Past(corner: u32, p: u32): u32 { (p - corner) % 0x1_0000_0000 }

  /** The row that is drawn this far down: bit 5 of the descriptor says top row first. */
  function RowDown(data: seq<u8>, rows: nat, down: nat): int
    requires |data| >= 18
  {
    if data[17] / 32 % 2 == 1 then down else rows - 1 - down
  }

  /** The screen's pixel (px, py) after the file was drawn with its corner at (x, y). */
  ghost predicate NativePixel(data: seq<u8>, x: u32, y: u32, px: u32, py: u32, bg: u32, out: u32)
    requires HasHeader(data)
  {
    var w, h := Byte(data, 12) + 256 * Byte(data, 13), Byte(data, 14) + 256 * Byte(data, 15);
    var column, down := Past(x, px), Past(y, py);
    if column < w && down < h then PixelOver(data, RowDown(data, h, down), column, bg, out) else out == bg
  }

  /** The index that is sampled for index j of the target, in 16.16 arithmetic. */
  function Sampled(size: nat, target: nat, j: int): int
    requires 0 < target
  {
    j * (size * 0x1_0000 / target) / 0x1_0000
  }

  /** The same after it was drawn scaled to tw by th pixels. */
  ghost predicate ScaledPixel(data: seq<u8>, x: u32, y: u32, tw: u32, th: u32, px: u32, py: u32, bg: u32, out: u32)
    requires HasHeader(data) && 0 < tw && 0 < th
  {
    var w, h := Byte(data, 12) + 256 * Byte(data, 13), Byte(data, 14) + 256 * Byte(data, 15);
    var column, down := Past(x, px), Past(y, py);
    if column < tw && down < th then
      PixelOver(data, Sampled(h, th, RowDown(data, th, down)), Sampled(w, tw, column), bg, out)
    else out == bg
  }
}
