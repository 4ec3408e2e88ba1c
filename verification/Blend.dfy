/** The packed alpha blend: red and blue share one 32-bit word, all arithmetic wraps. */
module Blend {
  import opened Words
  import opened TgaPixels

  function Red(c: u32): nat { c / 0x1_0000 % 256 }
  function Green(c: u32): nat { c / 256 % 256 }
  function Blue(c: u32): nat { c % 256 }
  function Alpha(c: u32): nat { c / 0x100_0000 }

  /** `(color >> 24) & 0xFF` */
  function AlphaOf(color: u32): nat { And(Shr(color, 24), 0xFF) }

  /** The expression for one mask, as the code computes it. */
  function BlendMasked(color: u32, bg: u32, alpha: nat, mask: u32): nat
  {
    var c, b := And(color, mask), And(bg, mask);
    var product := (c - b) % 0x1_0000_0000 * alpha % 0x1_0000_0000;
    And((Shr(product, 8) + b) % 0x1_0000_0000, mask)
  }

  function BlendWord(color: u32, bg: u32): nat
  {
    var alpha := AlphaOf(color);
    Or(Or(BlendMasked(color, bg, alpha, 0xFF00FF), BlendMasked(color, bg, alpha, 0x00FF00)), 0xFF00_0000)
  }

  // ---- Masks -------------------------------------------------------------------------------

  lemma P8()
    ensures Pow2(8) == 256
  {
    Pow2Values();
  }

  lemma P16()
    ensures Pow2(16) == 0x1_0000
  {
    Pow2Values();
  }

  lemma P24()
    ensures Pow2(24) == 0x100_0000
  {
    Pow2Values();
  }

  lemma Bits8(a: nat)
    ensures Shr(a, 8) == a / 256 && Low(a, 8) == a % 256
  {
    P8();
    ShrLow(a, 8);
  }

  /** `a & 0xFF` */
  lemma ByteMask(a: nat, m: nat)
    requires m == 0xFF
    ensures And(a, m) == a % 256
  {
    P8();
    AndLowMask(a, 8);
    Bits8(a);
  }

  lemma AlphaIs(c: u32)
    ensures AlphaOf(c) == Alpha(c) < 256
  {
    Shr24(c);
    ByteMask(Shr(c, 24), 0xFF);
  }

  lemma Shr24(c: nat)
    ensures Shr(c, 24) == c / 0x100_0000
  {
    P24();
    ShrLow(c, 24);
  }

  /** `c & 0xFF00FF` keeps bytes 0 and 2. */
  lemma MaskRB(c: nat, m: nat)
    requires m == 0xFF00FF
    ensures And(c, m) == c / 0x1_0000 % 256 * 0x1_0000 + c % 256
  {
    LowByte(c);
    MaskHalves(c, m, c / 0x1_0000, c % 0x1_0000, 0xFF);
  }

  lemma LowByte(c: nat)
    ensures c % 0x1_0000 % 256 == c % 256
  {
  }

  lemma MaskHalves(c: nat, m: nat, hi: nat, lo: nat, ff: nat)
    requires c == hi * 0x1_0000 + lo && m == ff * 0x1_0000 + ff
    requires lo < 0x1_0000 && ff == 0xFF
    ensures And(c, m) == hi % 256 * 0x1_0000 + lo % 256
  {
    CatBytes(hi, lo);
    CatBytes(ff, ff);
    AndCat(hi, ff, lo, ff, 16);
    ByteMask(hi, ff);
    ByteMask(lo, ff);
    CatBytes(hi % 256, lo % 256);
  }

  lemma CatBytes(hi: nat, lo: nat)
    requires lo < 0x1_0000
    ensures Cat(hi, lo, 16) == hi * 0x1_0000 + lo
  {
    P16();
    CatValue(hi, lo, 16);
  }

  /** `c & 0x00FF00` keeps byte 1. */
  lemma MaskG(c: nat, m: nat)
    requires m == 0xFF00
    ensures And(c, m) == c / 256 % 256 * 256
  {
    var hi, lo, ff := c / 256, c % 256, 0xFF;
    P8();
    CatValue(hi, lo, 8);
    CatValue(ff, 0, 8);
    AndCat(hi, ff, lo, 0, 8);
    ByteMask(hi, ff);
    AndZero(lo);
    CatValue(hi % 256, 0, 8);
  }

  // ---- One channel ---------------------------------------------------------------------------

  lemma MulBounds(d: nat, alpha: nat)
    requires d < 256 && 0 < alpha < 255
    ensures 0 <= d * alpha <= d * 256 && d * alpha <= 255 * alpha < 65025
  {
  }

  lemma ProductRange(fg: nat, bg: nat, alpha: nat)
    requires fg < 256 && bg < 256 && 0 < alpha < 255
    ensures var x := (fg - bg) * alpha;
            -65025 < x < 65025 && (bg <= fg ==> 0 <= x <= 256 * (fg - bg)) && (fg <= bg ==> 256 * (fg - bg) <= x <= 0)
  {
    if bg <= fg {
      MulBounds(fg - bg, alpha);
    } else {
      MulBounds(bg - fg, alpha);
      assert (fg - bg) * alpha == -((bg - fg) * alpha);
    }
  }

  /** A blended channel lies between background and foreground. */
  lemma ChannelBetween(fg: nat, bg: nat, alpha: nat)
    requires fg < 256 && bg < 256 && 0 < alpha < 255
    ensures bg <= fg ==> bg <= Channel(fg, bg, alpha) <= fg
    ensures fg <= bg ==> fg <= Channel(fg, bg, alpha) <= bg
  {
    ProductRange(fg, bg, alpha);
  }

  lemma ModProduct(a: int, alpha: nat, m: nat)
    requires 0 < m
    ensures a % m * alpha % m == a * alpha % m
  {
    var q, r := a / m, a % m;
    var q', r' := r * alpha / m, r * alpha % m;
    assert a * alpha == m * (q * alpha) + r * alpha;
    assert a * alpha == m * (q * alpha + q') + r';
    DivModUnique(a * alpha, m, q * alpha + q', r');
  }

  // ---- The packed words -------------------------------------------------------------------------

  /** The red-blue word: x and y are the products of the two channels. Neither a borrow from
      blue nor a carry from red gets into the other. */
  lemma PackedSum(x: int, y: int, br: nat, bb: nat, s: nat)
    requires -65025 < x < 65025 && -65025 < y < 65025 && br < 256 && bb < 256
    requires 0 <= br + x / 256 < 256 && 0 <= bb + y / 256 < 256
    requires s == (0x1_0000 * x + y) % 0x1_0000_0000 / 256 + 0x1_0000 * br + bb
    ensures s < W32 && s % 256 == bb + y / 256 && s / 0x1_0000 % 256 == br + x / 256
  {
    var t := 0x1_0000 * x + y;
    var k := t / 0x1_0000_0000;
    assert -1 <= k <= 0;
    assert t % 0x1_0000_0000 == t - k * W32;
    var v := bb + y / 256;
    assert (t - k * W32) / 256 == 256 * x + y / 256 - k * 0x100_0000;
    assert s == 256 * x + v + 0x1_0000 * br - k * 0x100_0000;
    var u := x / 256;
    assert s / 0x1_0000 == u + br - 256 * k;
  }

  /** What the code computes for one mask, in terms of the product before it wraps. */
  lemma MaskedIs(color: u32, bg: u32, alpha: nat, mask: u32, t: int)
    requires t == (And(color, mask) - And(bg, mask)) * alpha
    ensures BlendMasked(color, bg, alpha, mask) == And((t % 0x1_0000_0000 / 256 + And(bg, mask)) % 0x1_0000_0000, mask)
  {
    ModProduct(And(color, mask) - And(bg, mask), alpha, W32);
    Bits8(t % 0x1_0000_0000);
  }

  /** The product of a channel's difference, and what the channel becomes. */
  lemma ChannelProduct(fg: nat, bg: nat, alpha: nat) returns (x: int)
    requires fg < 256 && bg < 256 && 0 < alpha < 255
    ensures x == (fg - bg) * alpha && -65025 < x < 65025
    ensures Channel(fg, bg, alpha) == bg + x / 256 && 0 <= bg + x / 256 < 256
  {
    x := (fg - bg) * alpha;
    ProductRange(fg, bg, alpha);
    ChannelBetween(fg, bg, alpha);
  }

  lemma Distribute(diff: int, k: int, r: int, b: int, alpha: nat)
    requires diff == k * r + b
    ensures diff * alpha == k * (r * alpha) + b * alpha
  {
    assert diff * alpha == (k * r) * alpha + b * alpha;
    assert (k * r) * alpha == k * (r * alpha);
  }

  lemma BlendRB(color: u32, bg: u32, alpha: nat, mask: u32)
    requires 0 < alpha < 255 && mask == 0xFF00FF
    ensures BlendMasked(color, bg, alpha, mask)
         == Channel(Red(color), Red(bg), alpha) * 0x1_0000 + Channel(Blue(color), Blue(bg), alpha)
    ensures 0 <= Channel(Red(color), Red(bg), alpha) < 256 && 0 <= Channel(Blue(color), Blue(bg), alpha) < 256
  {
    MaskRB(color, mask);
    MaskRB(bg, mask);
    var x := ChannelProduct(Red(color), Red(bg), alpha);
    var y := ChannelProduct(Blue(color), Blue(bg), alpha);
    var diff := And(color, mask) - And(bg, mask);
    Distribute(diff, 0x1_0000, Red(color) - Red(bg), Blue(color) - Blue(bg), alpha);
    MaskedIs(color, bg, alpha, mask, 0x1_0000 * x + y);
    SumRB(x, y, Red(bg), Blue(bg), And(bg, mask), mask);
  }

  /** Adding the background back and masking again. */
  lemma SumRB(x: int, y: int, br: nat, bb: nat, b: nat, mask: u32)
    requires -65025 < x < 65025 && -65025 < y < 65025 && br < 256 && bb < 256
    requires 0 <= br + x / 256 < 256 && 0 <= bb + y / 256 < 256
    requires b == br * 0x1_0000 + bb && mask == 0xFF00FF
    ensures And(((0x1_0000 * x + y) % 0x1_0000_0000 / 256 + b) % 0x1_0000_0000, mask)
         == (br + x / 256) * 0x1_0000 + bb + y / 256
  {
    var s := (0x1_0000 * x + y) % 0x1_0000_0000 / 256 + b;
    PackedSum(x, y, br, bb, s);
    DivModUnique(s, W32, 0, s);
    MaskRB(s, mask);
  }

  lemma GreenSum(x: int, b: nat, s: nat)
    requires -65025 < x < 65025 && b < 256 && 0 <= b + x / 256 < 256
    requires s == 256 * x % 0x1_0000_0000 / 256 + 256 * b
    ensures s < W32 && s / 256 % 256 == b + x / 256
  {
    var k := 256 * x / 0x1_0000_0000;
    assert -1 <= k <= 0;
    assert s == x - k * 0x100_0000 + 256 * b;
    assert s / 256 == x / 256 - k * 0x1_0000 + b;
  }

  lemma BlendG(color: u32, bg: u32, alpha: nat, mask: u32)
    requires 0 < alpha < 255 && mask == 0x00FF00
    ensures BlendMasked(color, bg, alpha, mask) == Channel(Green(color), Green(bg), alpha) * 256
    ensures 0 <= Channel(Green(color), Green(bg), alpha) < 256
  {
    MaskG(color, mask);
    MaskG(bg, mask);
    var x := ChannelProduct(Green(color), Green(bg), alpha);
    var diff := And(color, mask) - And(bg, mask);
    Distribute(diff, 256, Green(color) - Green(bg), 0, alpha);
    MaskedIs(color, bg, alpha, mask, 256 * x);
    SumG(x, Green(bg), And(bg, mask), mask);
  }

  lemma SumG(x: int, g: nat, b: nat, mask: u32)
    requires -65025 < x < 65025 && g < 256 && 0 <= g + x / 256 < 256 && b == g * 256 && mask == 0xFF00
    ensures And((256 * x % 0x1_0000_0000 / 256 + b) % 0x1_0000_0000, mask) == (g + x / 256) * 256
  {
    var s := 256 * x % 0x1_0000_0000 / 256 + b;
    GreenSum(x, g, s);
    DivModUnique(s, W32, 0, s);
    MaskG(s, mask);
  }

  /** The three parts occupy different bytes. */
  lemma Assemble(r: nat, g: nat, b: nat, full: nat)
    requires r < 256 && g < 256 && b < 256 && full == 0xFF00_0000
    ensures Or(Or(r * 0x1_0000 + b, g * 256), full) == 0xFF00_0000 + r * 0x1_0000 + g * 256 + b
  {
    AssembleLow(r, g, b);
    var low := r * 0x1_0000 + g * 256 + b;
    OrSymmetric(low, full);
    P24();
    OrDisjoint(0xFF, low, 24);
  }

  lemma AssembleLow(r: nat, g: nat, b: nat)
    requires r < 256 && g < 256 && b < 256
    ensures Or(r * 0x1_0000 + b, g * 256) == r * 0x1_0000 + g * 256 + b
  {
    CatBytes(r, b);
    CatBytes(0, g * 256);
    OrCat(r, 0, b, g * 256, 16);
    OrZero(r);
    OrDisjointBelow(g, b);
    CatBytes(r, g * 256 + b);
  }

  lemma OrDisjointBelow(g: nat, b: nat)
    requires b < 256
    ensures Or(b, g * 256) == g * 256 + b
  {
    P8();
    OrDisjoint(g, b, 8);
    OrSymmetric(b, g * 256);
  }

  lemma {:induction false} OrSymmetric(a: nat, b: nat)
    ensures Or(a, b) == Or(b, a)
    decreases a + b
  {
    if a != 0 && b != 0 {
      OrSymmetric(a / 2, b / 2);
    }
  }

  /** For every alpha strictly between 0 and 255 the wrapping code gives each channel
      bg + floor((fg - bg) * alpha / 256), and full opacity. */
  lemma BlendExact(color: u32, bg: u32)
    requires 0 < Alpha(color) < 255
    ensures BlendWord(color, bg) < W32
    ensures var out: u32 := BlendWord(color, bg);
            && Red(out) == Channel(Red(color), Red(bg), Alpha(color))
            && Green(out) == Channel(Green(color), Green(bg), Alpha(color))
            && Blue(out) == Channel(Blue(color), Blue(bg), Alpha(color))
            && Alpha(out) == 255
  {
    var r, g, b := BlendParts(color, bg);
    Bytes(r, g, b);
  }

  lemma BlendParts(color: u32, bg: u32) returns (r: nat, g: nat, b: nat)
    requires 0 < Alpha(color) < 255
    ensures r == Channel(Red(color), Red(bg), Alpha(color)) < 256
    ensures g == Channel(Green(color), Green(bg), Alpha(color)) < 256
    ensures b == Channel(Blue(color), Blue(bg), Alpha(color)) < 256
    ensures BlendWord(color, bg) == 0xFF00_0000 + r * 0x1_0000 + g * 256 + b
  {
    AlphaIs(color);
    var alpha := Alpha(color);
    BlendRB(color, bg, alpha, 0xFF00FF);
    BlendG(color, bg, alpha, 0x00FF00);
    r := Channel(Red(color), Red(bg), alpha);
    g := Channel(Green(color), Green(bg), alpha);
    b := Channel(Blue(color), Blue(bg), alpha);
    Assemble(r, g, b, 0xFF00_0000);
  }

  lemma Bytes(r: nat, g: nat, b: nat)
    requires r < 256 && g < 256 && b < 256
    ensures var w := 0xFF00_0000 + r * 0x1_0000 + g * 256 + b;
            w < W32 && Red(w) == r && Green(w) == g && Blue(w) == b && Alpha(w) == 255
  {
  }
}
