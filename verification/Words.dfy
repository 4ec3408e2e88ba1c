/** Machine words as naturals, with the C bitwise operators defined bit by bit.
    All the shift and mask facts the other modules need are proved here, so that
    the rest of the project reasons about plain integer arithmetic. */
module Words {

  const W64: nat := 0x1_0000_0000_0000_0000
  const W32: nat := 0x1_0000_0000

  type u64 = x: int | 0 <= x < W64
  type u32 = x: int | 0 <= x < W32
  type u16 = x: int | 0 <= x < 0x1_0000
  type u8 = x: int | 0 <= x < 0x100

  function Pow2(k: nat): (r: nat)
    ensures 0 < r
  {
    if k == 0 then 1 else 2 * Pow2(k - 1)
  }

  function And(a: nat, b: nat): nat
  {
    if a == 0 || b == 0 then 0 else (if a % 2 == 1 && b % 2 == 1 then 1 else 0) + 2 * And(a / 2, b / 2)
  }

  function Or(a: nat, b: nat): nat
    decreases a + b
  {
    if a == 0 then b else if b == 0 then a
    else (if a % 2 == 1 || b % 2 == 1 then 1 else 0) + 2 * Or(a / 2, b / 2)
  }

  function Shr(a: nat, k: nat): nat
    decreases k, a
  {
    if k == 0 then a else Shr(a / 2, k - 1)
  }

  /** The low k bits. */
  function Low(a: nat, k: nat): nat
    decreases k, a
  {
    if k == 0 then 0 else a % 2 + 2 * Low(a / 2, k - 1)
  }

  function Shl64(a: nat, k: nat): nat { a * Pow2(k) % 0x1_0000_0000_0000_0000 }

  function Not64(a: u64): u64 { W64 - 1 - a }

  /** Bit k of a, counting from the least significant. */
  predicate Bit(a: nat, k: nat)
    decreases k, a
  {
    if k == 0 then a % 2 == 1 else Bit(a / 2, k - 1)
  }

  // ---- Powers of two ---------------------------------------------------------

  lemma {:induction false} Pow2Add(j: nat, k: nat)
    ensures Pow2(j + k) == Pow2(j) * Pow2(k)
  {
    if j == 0 {
    } else {
      Pow2Add(j - 1, k);
      assert Pow2(j + k) == 2 * (Pow2(j - 1) * Pow2(k)) == Pow2(j) * Pow2(k);
    }
  }

  lemma {:induction false} Pow2Bound(k: nat, n: nat)
    requires k < n
    ensures 2 * Pow2(k) <= Pow2(n)
  {
    if k + 1 < n {
      Pow2Bound(k, n - 1);
    }
  }

  lemma Pow2Values()
    ensures Pow2(8) == 0x100 && Pow2(9) == 0x200 && Pow2(12) == 0x1000 && Pow2(16) == 0x1_0000
    ensures Pow2(21) == 0x20_0000 && Pow2(24) == 0x100_0000 && Pow2(30) == 0x4000_0000
    ensures Pow2(32) == W32 && Pow2(39) == 0x80_0000_0000 && Pow2(63) == 0x8000_0000_0000_0000
    ensures Pow2(52) == 0x10_0000_0000_0000
  {
    Pow2UpTo30();
    Pow2Add(9, 30);
    Pow2Add(16, 16);
    Pow2Add(24, 39);
    Pow2Add(1, 30);
    Pow2Add(21, 31);
  }

  lemma Pow2UpTo30()
    ensures Pow2(8) == 0x100 && Pow2(9) == 0x200 && Pow2(12) == 0x1000 && Pow2(16) == 0x1_0000
    ensures Pow2(21) == 0x20_0000 && Pow2(24) == 0x100_0000 && Pow2(30) == 0x4000_0000
  {
    Pow2Add(9, 12);
    Pow2Add(9, 21);
    Pow2Add(12, 12);
  }

  lemma Pow2_64()
    ensures Pow2(64) == W64
  {
    Pow2Values();
    Pow2Add(32, 32);
  }

  lemma MulStrict(d: int, x: int)
    requires 0 < d
    ensures 0 < x ==> d <= d * x
    ensures x < 0 ==> d * x <= -d
  {
  }

  lemma DivModUnique(a: int, d: int, q: int, r: int)
    requires 0 <= r < d
    requires a == d * q + r
    ensures a / d == q && a % d == r
  {
    var x := a / d - q;
    assert d * x == d * (a / d) - d * q == r - a % d;
    MulStrict(d, x);
  }

  lemma {:induction false} ShrLowSplit(a: nat, k: nat)
    ensures a == Shr(a, k) * Pow2(k) + Low(a, k) && Low(a, k) < Pow2(k)
    decreases k
  {
    if k != 0 {
      ShrLowSplit(a / 2, k - 1);
      assert Shr(a, k) * Pow2(k) == 2 * (Shr(a, k) * Pow2(k - 1));
    }
  }

  /** A right shift is a division, the bits shifted out are the remainder. */
  lemma ShrLow(a: nat, k: nat)
    ensures Shr(a, k) == a / Pow2(k) && Low(a, k) == a % Pow2(k)
  {
    ShrLowSplit(a, k);
    DivModUnique(a, Pow2(k), Shr(a, k), Low(a, k));
  }

  // ---- Splitting And and Or at a bit position ---------------------------------

  /** The k low bits of lo below the bits of hi. */
  function Cat(hi: nat, lo: nat, k: nat): nat
    decreases k, hi, lo
  {
    if k == 0 then hi else lo % 2 + 2 * Cat(hi, lo / 2, k - 1)
  }

  lemma CatHalf(hi: nat, lo: nat, k: nat)
    requires 0 < k
    ensures Cat(hi, lo, k) % 2 == lo % 2 && Cat(hi, lo, k) / 2 == Cat(hi, lo / 2, k - 1)
  {
  }

  lemma {:induction false} CatValue(hi: nat, lo: nat, k: nat)
    requires lo < Pow2(k)
    ensures Cat(hi, lo, k) == hi * Pow2(k) + lo
    decreases k
  {
    if k != 0 {
      CatValue(hi, lo / 2, k - 1);
      assert hi * Pow2(k) == 2 * (hi * Pow2(k - 1));
    }
  }

  /** Every number is the concatenation of its high and its low bits. */
  lemma {:induction false} CatShrLow(a: nat, k: nat)
    ensures Cat(Shr(a, k), Low(a, k), k) == a
    decreases k
  {
    if k != 0 {
      CatShrLow(a / 2, k - 1);
    }
  }

  lemma AndHalf(a: nat, b: nat)
    ensures And(a, b) == (if a % 2 == 1 && b % 2 == 1 then 1 else 0) + 2 * And(a / 2, b / 2)
  {
  }

  lemma OrHalf(a: nat, b: nat)
    ensures Or(a, b) == (if a % 2 == 1 || b % 2 == 1 then 1 else 0) + 2 * Or(a / 2, b / 2)
  {
  }

  lemma {:induction false} AndCat(a1: nat, b1: nat, a0: nat, b0: nat, k: nat)
    ensures And(Cat(a1, a0, k), Cat(b1, b0, k)) == Cat(And(a1, b1), And(a0, b0), k)
    decreases k
  {
    if k != 0 {
      AndCat(a1, b1, a0 / 2, b0 / 2, k - 1);
      AndHalf(Cat(a1, a0, k), Cat(b1, b0, k));
      CatHalf(a1, a0, k);
      CatHalf(b1, b0, k);
      AndHalf(a0, b0);
    }
  }

  /** And works on the bits above and below position k separately. */
  lemma AndSplit(a: nat, b: nat, k: nat)
    ensures And(a, b) == Cat(And(Shr(a, k), Shr(b, k)), And(Low(a, k), Low(b, k)), k)
  {
    CatShrLow(a, k);
    CatShrLow(b, k);
    AndCat(Shr(a, k), Shr(b, k), Low(a, k), Low(b, k), k);
  }

  lemma {:induction false} OrCat(a1: nat, b1: nat, a0: nat, b0: nat, k: nat)
    ensures Or(Cat(a1, a0, k), Cat(b1, b0, k)) == Cat(Or(a1, b1), Or(a0, b0), k)
    decreases k
  {
    if k != 0 {
      OrCat(a1, b1, a0 / 2, b0 / 2, k - 1);
      OrHalf(Cat(a1, a0, k), Cat(b1, b0, k));
      CatHalf(a1, a0, k);
      CatHalf(b1, b0, k);
      OrHalf(a0, b0);
    }
  }

  /** Or works on the bits above and below position k separately. */
  lemma OrSplit(a: nat, b: nat, k: nat)
    ensures Or(a, b) == Cat(Or(Shr(a, k), Shr(b, k)), Or(Low(a, k), Low(b, k)), k)
  {
    CatShrLow(a, k);
    CatShrLow(b, k);
    OrCat(Shr(a, k), Shr(b, k), Low(a, k), Low(b, k), k);
  }

  lemma {:induction false} OrBound(a: nat, b: nat, k: nat)
    requires a < Pow2(k) && b < Pow2(k)
    ensures Or(a, b) < Pow2(k)
    ensures a <= Or(a, b) && b <= Or(a, b)
    decreases k
  {
    if k == 0 {
    } else {
      OrBound(a / 2, b / 2, k - 1);
      OrHalf(a, b);
    }
  }

  lemma {:induction false} AndBound(a: nat, b: nat)
    ensures And(a, b) <= a && And(a, b) <= b
  {
    if a == 0 || b == 0 {
    } else {
      AndBound(a / 2, b / 2);
    }
  }

  lemma OrFits64(a: u64, b: u64)
    ensures Or(a, b) < W64
  {
    Pow2_64();
    OrBound(a, b, 64);
  }

  // ---- Masks -----------------------------------------------------------------

  lemma {:induction false} AndLowMask(a: nat, k: nat)
    ensures And(a, Pow2(k) - 1) == Low(a, k)
    decreases k
  {
    if k != 0 {
      AndLowMask(a / 2, k - 1);
      AndHalf(a, Pow2(k) - 1);
      assert (Pow2(k) - 1) / 2 == Pow2(k - 1) - 1;
    }
  }

  lemma AndZero(a: nat)
    ensures And(a, 0) == 0 && And(0, a) == 0
  {
  }

  /** A mask with j ones above k zeros clears the low k bits. */
  lemma HighMask(w: nat, m: nat, j: nat, k: nat)
    requires Shr(w, k) < Pow2(j) && Shr(m, k) == Pow2(j) - 1 && Low(m, k) == 0
    ensures And(w, m) == Shr(w, k) * Pow2(k)
  {
    AndSplit(w, m, k);
    AndLowMask(Shr(w, k), j);
    LowSmall(Shr(w, k), j);
    CatValue(Shr(w, k), 0, k);
  }

  /** `w & ~0xFFF` clears the page offset. */
  lemma PageMask(w: u64)
    ensures And(w, Not64(0xFFF)) == w / 4096 * 4096
  {
    PageBits(w);
    PageMaskShape();
    PageNumberBits(w);
    HighMask(w, Not64(0xFFF), 52, 12);
  }

  lemma PageNumberBits(w: u64)
    ensures w / 4096 < Pow2(52) && Pow2(12) == 4096
  {
    Pow2Values();
  }

  lemma PageMaskShape()
    ensures Shr(Not64(0xFFF), 12) == Pow2(52) - 1 && Low(Not64(0xFFF), 12) == 0
  {
    PageBits(Not64(0xFFF));
    Pow2Values();
  }

  /** `w & ~7` rounds down to a multiple of 8. */
  lemma EightMask(w: u64)
    ensures And(w, Not64(7)) == w / 8 * 8
  {
    EightMaskShape();
    ShrLow(w, 3);
    Pow2Add(30, 31);
    Pow2Values();
    assert Pow2(3) == 8;
    HighMask(w, Not64(7), 61, 3);
  }

  lemma EightMaskShape()
    ensures Shr(Not64(7), 3) == Pow2(61) - 1 && Low(Not64(7), 3) == 0
  {
    assert Pow2(3) == 8;
    ShrLow(Not64(7), 3);
    Pow2Values();
    Pow2Add(30, 31);
    Pow2Add(1, 30);
  }

  lemma PageBits(a: nat)
    ensures Shr(a, 12) == a / 4096 && Low(a, 12) == a % 4096
  {
    Pow2Values();
    ShrLow(a, 12);
  }

  /** Or works on the page number and the page offset separately. */
  lemma OrPage(a: nat, b: nat)
    ensures Or(a, b) / 4096 == Or(a / 4096, b / 4096)
    ensures Or(a, b) % 4096 == Or(a % 4096, b % 4096)
  {
    PageBits(a);
    PageBits(b);
    OrSplit(a, b, 12);
    Pow2Values();
    OrBound(a % 4096, b % 4096, 12);
    CatValue(Or(a / 4096, b / 4096), Or(a % 4096, b % 4096), 12);
  }

  lemma OrZero(a: nat)
    ensures Or(a, 0) == a && Or(0, a) == a
  {
  }

  lemma {:induction false} LowSmall(a: nat, k: nat)
    requires a < Pow2(k)
    ensures Low(a, k) == a && Shr(a, k) == 0
    decreases k
  {
    if k != 0 {
      LowSmall(a / 2, k - 1);
    }
  }

  /** `w & 1` is the low bit. */
  lemma LowBit(w: nat)
    ensures And(w, 1) == w % 2
  {
    AndLowMask(w, 1);
  }

  /** Or-ing a value below 2^k into a multiple of 2^k adds it. */
  lemma OrDisjoint(hi: nat, lo: nat, k: nat)
    requires lo < Pow2(k)
    ensures Or(hi * Pow2(k), lo) == hi * Pow2(k) + lo
  {
    CatValue(hi, 0, k);
    CatValue(0, lo, k);
    OrCat(hi, 0, 0, lo, k);
    CatValue(hi, lo, k);
  }

  // ---- Single bits -----------------------------------------------------------

  lemma {:induction false} BitOr(a: nat, b: nat, k: nat)
    ensures Bit(Or(a, b), k) <==> Bit(a, k) || Bit(b, k)
    decreases k
  {
    OrHalf(a, b);
    if k != 0 {
      BitOr(a / 2, b / 2, k - 1);
    }
  }

  lemma {:induction false} BitAnd(a: nat, b: nat, k: nat)
    ensures Bit(And(a, b), k) <==> Bit(a, k) && Bit(b, k)
    decreases k
  {
    AndHalf(a, b);
    if k != 0 {
      BitAnd(a / 2, b / 2, k - 1);
    }
  }

  lemma {:induction false} BitPow2(k: nat, j: nat)
    ensures Bit(Pow2(k), j) <==> j == k
    decreases j
  {
    if j == 0 {
    } else if k == 0 {
      BitZero(j - 1);
    } else {
      BitPow2(k - 1, j - 1);
    }
  }

  lemma {:induction false} BitZero(j: nat)
    ensures !Bit(0, j)
  {
    if 0 < j {
      BitZero(j - 1);
    }
  }

  lemma {:induction false} BitNot(a: nat, n: nat, k: nat)
    requires a < Pow2(n) && k < n
    ensures Bit(Pow2(n) - 1 - a, k) <==> !Bit(a, k)
    decreases k
  {
    if k != 0 {
      assert (Pow2(n) - 1 - a) / 2 == Pow2(n - 1) - 1 - a / 2;
      BitNot(a / 2, n - 1, k - 1);
    }
  }

  lemma {:induction false} TestBit(a: nat, k: nat)
    ensures And(a, Pow2(k)) != 0 <==> Bit(a, k)
    decreases k
  {
    AndHalf(a, Pow2(k));
    if k != 0 {
      TestBit(a / 2, k - 1);
    } else {
      AndZero(a / 2);
    }
  }

  lemma ShlOne(k: nat)
    requires k < 64
    ensures Shl64(1, k) == Pow2(k) < W64
  {
    Pow2_64();
    Pow2Bound(k, 64);
  }
}
