/** 16.16 fixed-point scaling: which source column or row each target one reads. */
module Scaling {
  import opened Words

  /** `(size << 16) / target`, in 32 bits. */
  function Ratio(size: u16, target: u32): u32
    requires 0 < target
  {
    size * 0x1_0000 / target
  }

  /** `(j * ratio) >> 16`, in 32 bits. */
  function Step(j: nat, ratio: u32): nat { j * ratio % 0x1_0000_0000 / 0x1_0000 }

  /** The source index that target index j reads. */
  function Source(size: u16, target: u32, j: nat): nat
    requires 0 < target
  {
    Step(j, Ratio(size, target))
  }

  lemma RatioBounds(size: u16, target: u32, j: nat)
    requires 0 < size && j < target
    ensures j * Ratio(size, target) < size * 0x1_0000
    ensures j * size * 0x1_0000 - j * target < j * Ratio(size, target) * target <= j * size * 0x1_0000 || j == 0
  {
    var r, n := Ratio(size, target), size * 0x1_0000;
    assert r * target <= n < r * target + target;
    if j != 0 {
      MulOrder(j, r * target, n);
      MulOrder(j, n, r * target + target);
      assert j * (r * target) == j * r * target && j * (r * target + target) == j * r * target + j * target;
      assert j * n == j * size * 0x1_0000;
      if r != 0 {
        MulOrder(r, j, target);
        assert j * r == r * j && r * target == target * r;
      }
    }
  }

  lemma MulOrder(k: nat, a: int, b: int)
    requires a <= b
    ensures k * a <= k * b
    ensures 0 < k && a < b ==> k * a < k * b
  {
  }

  /** The product never overflows and the source index is inside the image. */
  lemma SourceInside(size: u16, target: u32, j: nat)
    requires 0 < size && j < target
    ensures j * Ratio(size, target) < W32
    ensures Source(size, target, j) < size
  {
    RatioBounds(size, target, j);
    DivModUnique(j * Ratio(size, target), W32, 0, j * Ratio(size, target));
  }

  lemma SourceIs(size: u16, target: u32, j: nat)
    requires 0 < size && j < target
    ensures Source(size, target, j) == j * Ratio(size, target) / 0x1_0000
  {
    RatioBounds(size, target, j);
    DivModUnique(j * Ratio(size, target), W32, 0, j * Ratio(size, target));
  }

  lemma SourceMonotone(size: u16, target: u32, i: nat, j: nat)
    requires 0 < size && i <= j < target
    ensures Source(size, target, i) <= Source(size, target, j)
  {
    SourceIs(size, target, i);
    SourceIs(size, target, j);
    MulOrder(Ratio(size, target), i, j);
  }

  lemma FloorBounds(m: nat, t: nat)
    requires 0 < t
    ensures 0 <= m / t && m / t * t <= m < m / t * t + t
  {
  }

  lemma RoundUp(j: nat)
    ensures j <= (j + 0xFFFF) / 0x1_0000 * 0x1_0000
  {
  }

  lemma NotAbove(p: nat, t: nat, m: nat, e: nat)
    requires p * t <= m * 0x1_0000 && m < e * t + t
    ensures p / 0x1_0000 <= e
  {
    assert t * ((e + 1) * 0x1_0000) == (e * t + t) * 0x1_0000;
    if (e + 1) * 0x1_0000 <= p {
      MulOrder(t, (e + 1) * 0x1_0000, p);
    }
  }

  lemma NotBelow(p: nat, t: nat, m: nat, e: nat, j: nat, k: nat)
    requires m * 0x1_0000 - j * t < p * t && e * t <= m && j <= k * 0x1_0000
    ensures e - k <= p / 0x1_0000
  {
    MulOrder(t, j, k * 0x1_0000);
    assert t * ((e - k) * 0x1_0000) == (e * t) * 0x1_0000 - t * (k * 0x1_0000);
    if p < (e - k) * 0x1_0000 {
      MulOrder(t, p, (e - k) * 0x1_0000);
    }
  }

  /** How far the index is from the exact floor(j * size / target): never above it, and
      below it by at most one for every 65536 target columns up to j, rounded up. */
  lemma SourceError(size: u16, target: u32, j: nat)
    requires 0 < size && j < target
    ensures var exact := j * size / target;
            exact - (j + 0xFFFF) / 0x1_0000 <= Source(size, target, j) <= exact
  {
    SourceIs(size, target, j);
    RatioBounds(size, target, j);
    var p, m := j * Ratio(size, target), j * size;
    var e := m / target;
    FloorBounds(m, target);
    NotAbove(p, target, m, e);
    RoundUp(j);
    if j != 0 {
      NotBelow(p, target, m, e, j, (j + 0xFFFF) / 0x1_0000);
    }
  }

  /** For targets up to 65536 the index is exact or one less. */
  lemma SourceWithinOne(size: u16, target: u32, j: nat)
    requires 0 < size && j < target <= 0x1_0000
    ensures var exact := j * size / target; exact - 1 <= Source(size, target, j) <= exact
  {
    SourceError(size, target, j);
  }

  /** At native size every index maps to itself. */
  lemma SourceNative(size: u16, j: nat)
    requires 0 < size && j < size
    ensures Source(size, size, j) == j
  {
    DivModUnique(size * 0x1_0000, size, 0x1_0000, 0);
    SourceIs(size, size, j);
  }

  // ---- The exact error -------------------------------------------------------------------------

  /** What dividing by target leaves of the 16.16 size. */
  function Rest(size: u16, target: u32): nat
    requires 0 < target
  {
    size * 0x1_0000 % target
  }

  lemma DivMod(a: nat, d: nat)
    requires 0 < d
    ensures a == d * (a / d) + a % d && 0 <= a % d < d
  {
  }

  /** j * size / target is what remains after dropping 16 bits of the exact product. */
  lemma ExactIndex(j: nat, size: nat, target: nat, r: nat, rest: nat)
    requires 0 < target && size * 0x1_0000 == target * r + rest
    ensures j * size / target == (j * r + j * rest / target) / 0x1_0000
  {
    var q, u := j * rest / target, j * rest % target;
    DivMod(j * rest, target);
    ProductParts(j, size, target, r, rest, q, u);
    Drop16(j * size, target, j * r + q, u);
  }

  lemma Drop16(a: nat, target: nat, p: nat, u: nat)
    requires a * 0x1_0000 == target * p + u && u < target
    ensures a / target == p / 0x1_0000
  {
    var e, f := p / 0x1_0000, p % 0x1_0000;
    MulOrder(target, f, 0xFFFF);
    Quotient(a, target, e, f, u);
  }

  lemma ProductParts(j: nat, size: nat, target: nat, r: nat, rest: nat, q: nat, u: nat)
    requires size * 0x1_0000 == target * r + rest && j * rest == target * q + u
    ensures j * size * 0x1_0000 == target * (j * r + q) + u
  {
    assert j * size * 0x1_0000 == j * (size * 0x1_0000) == j * (target * r) + j * rest;
    assert j * (target * r) == target * (j * r);
    assert target * (j * r + q) == target * (j * r) + target * q;
  }

  lemma Quotient(a: nat, target: nat, e: nat, f: nat, u: nat)
    requires a * 0x1_0000 == target * (e * 0x1_0000 + f) + u && u < target && target * f <= target * 0xFFFF
    ensures a / target == e
  {
    assert target * (e * 0x1_0000 + f) == target * e * 0x1_0000 + target * f;
    var d := a - target * e;
    assert d * 0x1_0000 == target * f + u;
    DivModUnique(a, target, e, d);
  }

  /** What the rest adds up to over j columns. */
  function Drift(size: u16, target: u32, j: nat): nat
    requires 0 < target
  {
    j * Rest(size, target) / target
  }

  lemma ExactDrift(size: u16, target: u32, j: nat)
    requires 0 < target
    ensures j * size / target == (j * Ratio(size, target) + Drift(size, target, j)) / 0x1_0000
  {
    DivMod(size * 0x1_0000, target);
    ExactIndex(j, size, target, Ratio(size, target), Rest(size, target));
  }

  /** The error of the code at each target index. */
  lemma SourceErrorIs(size: u16, target: u32, j: nat)
    requires 0 < size && j < target
    ensures j * size / target - Source(size, target, j)
         == (j * Ratio(size, target) % 0x1_0000 + Drift(size, target, j)) / 0x1_0000
  {
    SourceIs(size, target, j);
    ExactDrift(size, target, j);
    DropLow(j * Ratio(size, target), Drift(size, target, j), j * size / target, Source(size, target, j));
  }

  lemma DropLow(p: nat, q: nat, exact: nat, source: nat)
    requires exact == (p + q) / 0x1_0000 && source == p / 0x1_0000
    ensures exact - source == (p % 0x1_0000 + q) / 0x1_0000
  {
  }

  /** If the division leaves no rest, as for every power of two up to 65536, every index is
      exact, however large the target. */
  lemma SourceExact(size: u16, target: u32, j: nat)
    requires 0 < size && j < target && Rest(size, target) == 0
    ensures Source(size, target, j) == j * size / target
  {
    SourceErrorIs(size, target, j);
    DivModUnique(0, target, 0, 0);
    assert j * Rest(size, target) == 0;
  }

  /** Past 65536 the index can be two too small, though not for every target. */
  lemma MissesByTwo()
    ensures Source(5, 196608, 196607) == 2 && 196607 * 5 / 196608 == 4
    ensures Source(4098, 65809, 65793) == 65793 * 4098 / 65809 - 2
    ensures Rest(8, 0x8_0000) == 0
  {
    SourceIs(5, 196608, 196607);
    SourceIs(4098, 65809, 65793);
  }
}
