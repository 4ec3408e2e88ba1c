/** The theory of the heap's chunk list: layouts as sequences, the two operations on
    them, and what coalescing makes true of every order of operations. */
module Chunks {

  /** A header of 32 bytes at addr, followed by size bytes of data. */
  datatype Chunk = Chunk(addr: nat, size: nat, used: bool) {
    function Data(): nat { addr + 32 }
    function End(): nat { addr + 32 + size }
  }

  type Layout = seq<Chunk>

  /** The chunks cover [lo, hi) in order, with no gap and no overlap. */
  ghost predicate Tiles(cs: Layout, lo: nat, hi: nat)
  {
    && cs != [] && cs[0].addr == lo && cs[|cs| - 1].End() == hi
    && forall i :: 0 <= i < |cs| - 1 ==> cs[i + 1].addr == cs[i].End()
  }

  /** No two neighbours are both free. */
  ghost predicate Canonical(cs: Layout)
  {
    forall i :: 0 <= i < |cs| - 1 ==> cs[i].used || cs[i + 1].used
  }

  ghost predicate Aligned(cs: Layout)
  {
    forall i :: 0 <= i < |cs| ==> cs[i].addr % 8 == 0 && cs[i].size % 8 == 0
  }

  ghost function Live(cs: Layout): set<Chunk>
  {
    set c | c in cs && c.used
  }

  // ---- Operations --------------------------------------------------------------------

  predicate Fit(c: Chunk, n: nat) { !c.used && n <= c.size }

  /** The index of the first chunk that fits, or the number of chunks. */
  function FirstFit(cs: Layout, n: nat): (k: nat)
    ensures k <= |cs|
    ensures k < |cs| ==> Fit(cs[k], n)
    ensures forall j :: 0 <= j < k ==> !Fit(cs[j], n)
  {
    if cs == [] || Fit(cs[0], n) then 0 else 1 + FirstFit(cs[1..], n)
  }

  /** The block that allocation makes of a free chunk: the rest is split off when it has
      room for a header and 8 bytes. */
  function Taken(c: Chunk, n: nat): Chunk
  {
    Chunk(c.addr, if c.size >= n + 40 then n else c.size, true)
  }

  function AllocAt(cs: Layout, k: nat, n: nat): Layout
    requires k < |cs| && Fit(cs[k], n)
  {
    if cs[k].size >= n + 40 then
      cs[..k] + [Taken(cs[k], n), Chunk(cs[k].addr + 32 + n, cs[k].size - n - 32, false)] + cs[k + 1..]
    else
      cs[k := Taken(cs[k], n)]
  }

  /** Chunk j absorbs chunk j + 1. */
  function MergeAt(cs: Layout, j: nat): Layout
    requires j + 1 < |cs|
  {
    cs[..j] + [Chunk(cs[j].addr, cs[j].size + 32 + cs[j + 1].size, cs[j].used)] + cs[j + 2..]
  }

  function Unmark(cs: Layout, k: nat): Layout
    requires k < |cs|
  {
    cs[k := Chunk(cs[k].addr, cs[k].size, false)]
  }

  function MergeNext(cs: Layout, k: nat): (r: Layout)
    requires k < |cs|
    ensures k < |r|
  {
    if k + 1 < |cs| && !cs[k + 1].used then MergeAt(cs, k) else cs
  }

  function MergePrev(cs: Layout, k: nat): Layout
    requires k < |cs|
  {
    if 0 < k && !cs[k - 1].used then MergeAt(cs, k - 1) else cs
  }

  function FreeAt(cs: Layout, k: nat): Layout
    requires k < |cs|
  {
    MergePrev(MergeNext(Unmark(cs, k), k), k)
  }

  // ---- Tiling ----------------------------------------------------------------------------

  lemma {:induction false} Ordered(cs: Layout, lo: nat, hi: nat, i: nat, j: nat)
    requires Tiles(cs, lo, hi) && i < j < |cs|
    ensures cs[i].End() <= cs[j].addr
    decreases j - i
  {
    if i + 1 < j {
      Ordered(cs, lo, hi, i + 1, j);
    }
  }

  lemma Bounds(cs: Layout, lo: nat, hi: nat, i: nat)
    requires Tiles(cs, lo, hi) && i < |cs|
    ensures lo <= cs[i].addr && cs[i].End() <= hi
  {
    if 0 < i {
      Ordered(cs, lo, hi, 0, i);
    }
    if i < |cs| - 1 {
      Ordered(cs, lo, hi, i, |cs| - 1);
    }
  }

  lemma SameAddress(cs: Layout, lo: nat, hi: nat, i: nat, j: nat)
    requires Tiles(cs, lo, hi) && i < |cs| && j < |cs| && cs[i].addr == cs[j].addr
    ensures i == j
  {
    if i < j {
      Ordered(cs, lo, hi, i, j);
    } else if j < i {
      Ordered(cs, lo, hi, j, i);
    }
  }

  /** Two live blocks overlap neither in their headers nor in their data. */
  lemma LiveDisjoint(cs: Layout, lo: nat, hi: nat, c: Chunk, d: Chunk)
    requires Tiles(cs, lo, hi) && c in Live(cs) && d in Live(cs) && c != d
    ensures c.End() <= d.addr || d.End() <= c.addr
    ensures lo <= c.addr && c.End() <= hi
  {
    var i :| 0 <= i < |cs| && cs[i] == c;
    var j :| 0 <= j < |cs| && cs[j] == d;
    Bounds(cs, lo, hi, i);
    if i < j {
      Ordered(cs, lo, hi, i, j);
    } else {
      Ordered(cs, lo, hi, j, i);
    }
  }

  /** The sizes and one header each add up to the heap. */
  ghost function Total(cs: Layout): nat
  {
    if cs == [] then 0 else Total(cs[..|cs| - 1]) + cs[|cs| - 1].size + 32
  }

  lemma {:induction false} TotalIsLength(cs: Layout, lo: nat, hi: nat)
    requires Tiles(cs, lo, hi)
    ensures Total(cs) == hi - lo
    decreases |cs|
  {
    if |cs| == 1 {
      assert Total(cs[..0]) == 0;
    } else {
      TotalIsLength(cs[..|cs| - 1], lo, cs[|cs| - 1].addr);
    }
  }

  lemma AllocTiles(cs: Layout, lo: nat, hi: nat, k: nat, n: nat)
    requires Tiles(cs, lo, hi) && k < |cs| && Fit(cs[k], n)
    ensures Tiles(AllocAt(cs, k, n), lo, hi)
  {
    var r := AllocAt(cs, k, n);
    if cs[k].size >= n + 40 {
      assert r[|r| - 1].End() == hi;
      forall i | 0 <= i < |r| - 1
        ensures r[i + 1].addr == r[i].End()
      {
        assert i > k + 1 ==> r[i] == cs[i - 1] && r[i + 1] == cs[i];
        assert i < k - 1 ==> r[i] == cs[i] && r[i + 1] == cs[i + 1];
      }
    }
  }

  /** A split puts the free rest next to the block just taken, never next to a free chunk. */
  lemma AllocCanonical(cs: Layout, k: nat, n: nat)
    requires Canonical(cs) && k < |cs| && Fit(cs[k], n)
    ensures Canonical(AllocAt(cs, k, n))
  {
    var r := AllocAt(cs, k, n);
    if cs[k].size >= n + 40 {
      forall i | 0 <= i < |r| - 1
        ensures r[i].used || r[i + 1].used
      {
        assert i > k + 1 ==> r[i] == cs[i - 1] && r[i + 1] == cs[i];
        assert i < k - 1 ==> r[i] == cs[i] && r[i + 1] == cs[i + 1];
      }
    }
  }

  /** What an allocation of n bytes does to a layout at index k, chunk by chunk. The chunk was free
      and large enough. If it has 40 bytes more than n, it is cut to n and the rest, less a header,
      stays free; else it is taken whole. Every other chunk stays as it is. */
  ghost predicate Carved(before: Layout, k: nat, n: nat, after: Layout)
  {
    && k < |before| && k < |after| && !before[k].used && n <= before[k].size
    && after[..k] == before[..k]
    && after[k].addr == before[k].addr && after[k].used && n <= after[k].size < n + 40
    && if before[k].size < n + 40 then
         && after[k].size == before[k].size
         && after[k + 1..] == before[k + 1..]
       else
         && after[k].size == n
         && k + 1 < |after| && !after[k + 1].used
         && after[k + 1].addr == after[k].addr + 32 + n
         && after[k + 1].addr + 32 + after[k + 1].size == before[k].addr + 32 + before[k].size
         && after[k + 2..] == before[k + 1..]
  }

  lemma AllocCarves(cs: Layout, k: nat, n: nat)
    requires k < |cs| && Fit(cs[k], n)
    ensures Carved(cs, k, n, AllocAt(cs, k, n))
  {
    var r := AllocAt(cs, k, n);
    assert r[..k] == cs[..k];
    if cs[k].size >= n + 40 {
      assert r[k + 2..] == cs[k + 1..];
    } else {
      assert r[k + 1..] == cs[k + 1..];
    }
  }

  lemma AllocAligned(cs: Layout, k: nat, n: nat)
    requires Aligned(cs) && k < |cs| && Fit(cs[k], n) && n % 8 == 0
    ensures Aligned(AllocAt(cs, k, n))
  {
    var r := AllocAt(cs, k, n);
    assert Aligned([cs[k]]) && cs[k].addr % 8 == 0 && cs[k].size % 8 == 0;
    forall i | 0 <= i < |r| && i != k
      ensures r[i].addr % 8 == 0 && r[i].size % 8 == 0
    {
      assert i < k ==> r[i] == cs[i];
      assert k + 1 < i ==> r[i] == cs[i - (|r| - |cs|)];
    }
  }

  lemma MergeTiles(cs: Layout, lo: nat, hi: nat, j: nat)
    requires Tiles(cs, lo, hi) && j + 1 < |cs|
    ensures Tiles(MergeAt(cs, j), lo, hi)
  {
  }

  lemma FreeTiles(cs: Layout, lo: nat, hi: nat, k: nat)
    requires Tiles(cs, lo, hi) && k < |cs|
    ensures Tiles(FreeAt(cs, k), lo, hi)
  {
    var c0 := Unmark(cs, k);
    assert Tiles(c0, lo, hi);
    var c1 := MergeNext(c0, k);
    if k + 1 < |c0| && !c0[k + 1].used {
      MergeTiles(c0, lo, hi, k);
    }
    if 0 < k && !c1[k - 1].used {
      MergeTiles(c1, lo, hi, k - 1);
    }
  }

  lemma MergeAligned(cs: Layout, j: nat)
    requires Aligned(cs) && j + 1 < |cs|
    ensures Aligned(MergeAt(cs, j))
  {
  }

  lemma FreeAligned(cs: Layout, k: nat)
    requires Aligned(cs) && k < |cs|
    ensures Aligned(FreeAt(cs, k))
  {
    var c0 := Unmark(cs, k);
    var c1 := MergeNext(c0, k);
    if k + 1 < |c0| && !c0[k + 1].used {
      MergeAligned(c0, k);
    }
    if 0 < k && !c1[k - 1].used {
      MergeAligned(c1, k - 1);
    }
  }

  /** No two neighbours are both free, but for chunk k and the one before it. */
  ghost predicate CanonicalBut(cs: Layout, k: nat)
  {
    forall i :: 0 <= i < |cs| - 1 && i != k - 1 ==> cs[i].used || cs[i + 1].used
  }

  lemma MergeNextCanonical(cs: Layout, k: nat)
    requires Canonical(cs) && k < |cs| && cs[k].used
    ensures !MergeNext(Unmark(cs, k), k)[k].used && CanonicalBut(MergeNext(Unmark(cs, k), k), k)
  {
    var r := MergeNext(Unmark(cs, k), k);
    var d := |cs| - |r|;
    forall i | 0 <= i < |r| - 1 && i != k - 1
      ensures r[i].used || r[i + 1].used
    {
      assert i < k ==> r[i] == cs[i] && r[i + 1] == cs[i + 1];
      assert i >= k ==> r[i + 1] == cs[i + 1 + d] && (i > k ==> r[i] == cs[i + d]);
    }
  }

  lemma MergePrevCanonical(cs: Layout, k: nat)
    requires k < |cs| && !cs[k].used && CanonicalBut(cs, k)
    ensures Canonical(MergePrev(cs, k))
  {
    var r := MergePrev(cs, k);
    var d := |cs| - |r|;
    forall i | 0 <= i < |r| - 1
      ensures r[i].used || r[i + 1].used
    {
      assert i < k - 1 ==> r[i] == cs[i] && (cs[i].used || cs[i + 1].used);
      assert i >= k - 1 ==> r[i + 1] == cs[i + 1 + d] && (cs[i + d].used || cs[i + 1 + d].used || i + d == k - 1);
      assert i >= k ==> r[i] == cs[i + d];
    }
  }

  /** Freeing merges on both sides, so it leaves no two free neighbours. */
  lemma FreeCanonical(cs: Layout, k: nat)
    requires Canonical(cs) && k < |cs| && cs[k].used
    ensures Canonical(FreeAt(cs, k))
  {
    MergeNextCanonical(cs, k);
    MergePrevCanonical(MergeNext(Unmark(cs, k), k), k);
  }

  // ---- Live blocks ----------------------------------------------------------------------------

  lemma AllocLive(cs: Layout, lo: nat, hi: nat, k: nat, n: nat)
    requires Tiles(cs, lo, hi) && k < |cs| && Fit(cs[k], n)
    ensures Taken(cs[k], n) !in Live(cs)
    ensures Live(AllocAt(cs, k, n)) == Live(cs) + {Taken(cs[k], n)}
  {
    var r, t := AllocAt(cs, k, n), Taken(cs[k], n);
    if t in cs {
      var j :| 0 <= j < |cs| && cs[j] == t;
      SameAddress(cs, lo, hi, j, k);
    }
    assert r[k] == t;
    forall c: Chunk | c.used
      ensures c in r <==> c in cs || c == t
    {
      if c in cs {
        var j :| 0 <= j < |cs| && cs[j] == c;
        assert r[if j <= k then j else j + |r| - |cs|] == c;
      }
    }
  }

  lemma MergeLive(cs: Layout, j: nat)
    requires j + 1 < |cs| && !cs[j].used && !cs[j + 1].used
    ensures Live(MergeAt(cs, j)) == Live(cs)
  {
    var r := MergeAt(cs, j);
    forall c: Chunk | c.used
      ensures c in r <==> c in cs
    {
      if c in cs {
        var i :| 0 <= i < |cs| && cs[i] == c;
        assert r[if i < j then i else i - 1] == c;
      }
    }
  }

  lemma FreeLive(cs: Layout, lo: nat, hi: nat, k: nat)
    requires Tiles(cs, lo, hi) && k < |cs| && cs[k].used
    ensures Live(FreeAt(cs, k)) == Live(cs) - {cs[k]}
  {
    var c0 := Unmark(cs, k);
    assert Live(c0) == Live(cs) - {cs[k]} by {
      forall c: Chunk | c.used
        ensures c in c0 <==> c in cs && c != cs[k]
      {
        if c in cs && c != cs[k] {
          var i :| 0 <= i < |cs| && cs[i] == c;
          assert c0[i] == c;
        }
        if c in c0 {
          var i :| 0 <= i < |cs| && c0[i] == c;
          if cs[i] == cs[k] {
            SameAddress(cs, lo, hi, i, k);
          }
        }
      }
    }
    var c1 := MergeNext(c0, k);
    if k + 1 < |c0| && !c0[k + 1].used {
      MergeLive(c0, k);
    }
    if 0 < k && !c1[k - 1].used {
      MergeLive(c1, k - 1);
    }
  }

  // ---- The layout is a function of the live blocks ----------------------------------------------

  lemma SameChunk(cs: Layout, ds: Layout, lo: nat, hi: nat, k: nat)
    requires Tiles(cs, lo, hi) && Tiles(ds, lo, hi) && Canonical(cs) && Canonical(ds) && Live(cs) == Live(ds)
    requires k < |cs| && k < |ds| && cs[k].addr == ds[k].addr
    ensures cs[k] == ds[k]
  {
    if cs[k].used {
      LiveAtSameIndex(cs, ds, lo, hi, k);
    } else if ds[k].used {
      LiveAtSameIndex(ds, cs, lo, hi, k);
    } else if cs[k].size < ds[k].size {
      FreeNotShorter(cs, ds, lo, hi, k);
    } else if ds[k].size < cs[k].size {
      FreeNotShorter(ds, cs, lo, hi, k);
    }
  }

  lemma LiveAtSameIndex(cs: Layout, ds: Layout, lo: nat, hi: nat, k: nat)
    requires Tiles(ds, lo, hi) && Live(cs) == Live(ds)
    requires k < |cs| && k < |ds| && cs[k].addr == ds[k].addr && cs[k].used
    ensures cs[k] == ds[k]
  {
    assert cs[k] in Live(ds);
    var j :| 0 <= j < |ds| && ds[j] == cs[k];
    SameAddress(ds, lo, hi, j, k);
  }

  /** Of two free chunks at the same address neither is shorter: what follows the shorter
      one would be a live block inside the other. */
  lemma FreeNotShorter(cs: Layout, ds: Layout, lo: nat, hi: nat, k: nat)
    requires Tiles(cs, lo, hi) && Tiles(ds, lo, hi) && Canonical(cs) && Live(cs) == Live(ds)
    requires k < |cs| && k < |ds| && cs[k].addr == ds[k].addr && !cs[k].used
    ensures ds[k].size <= cs[k].size
  {
    if cs[k].size < ds[k].size {
      Bounds(ds, lo, hi, k);
      var next := cs[k + 1];
      assert next in Live(ds);
      var j :| 0 <= j < |ds| && ds[j] == next;
      if j <= k {
        if j < k {
          Ordered(ds, lo, hi, j, k);
        }
      } else {
        Ordered(ds, lo, hi, k, j);
      }
    }
  }

  lemma {:induction false} SamePrefix(cs: Layout, ds: Layout, lo: nat, hi: nat, k: nat)
    requires Tiles(cs, lo, hi) && Tiles(ds, lo, hi) && Canonical(cs) && Canonical(ds) && Live(cs) == Live(ds)
    requires k <= |cs|
    ensures k <= |ds| && cs[..k] == ds[..k]
  {
    if k != 0 {
      SamePrefix(cs, ds, lo, hi, k - 1);
      Bounds(cs, lo, hi, k - 1);
      if k != 1 {
        assert ds[k - 2] == ds[..k - 1][k - 2] == cs[..k - 1][k - 2] == cs[k - 2];
      }
      SameChunk(cs, ds, lo, hi, k - 1);
      assert cs[..k] == cs[..k - 1] + [cs[k - 1]];
      assert ds[..k] == ds[..k - 1] + [ds[k - 1]];
    }
  }

  /** The chunk list is determined by the set of live blocks, whatever led to it. */
  lemma Unique(cs: Layout, ds: Layout, lo: nat, hi: nat)
    requires Tiles(cs, lo, hi) && Tiles(ds, lo, hi) && Canonical(cs) && Canonical(ds)
    requires Live(cs) == Live(ds)
    ensures cs == ds
  {
    SamePrefix(cs, ds, lo, hi, |cs|);
    SamePrefix(ds, cs, lo, hi, |ds|);
  }

  // ---- Order independence -------------------------------------------------------------------------

  /** A layout the heap can be in: any sequence of operations that fits keeps this. */
  ghost predicate Good(cs: Layout, lo: nat, hi: nat)
  {
    Tiles(cs, lo, hi) && Canonical(cs) && Aligned(cs)
  }

  /** Index of the live block at address a, or the number of chunks. */
  function Find(cs: Layout, a: nat): (k: nat)
    ensures k <= |cs|
    ensures k < |cs| ==> cs[k].used && cs[k].addr == a
    ensures k == |cs| ==> forall c :: c in cs && c.used ==> c.addr != a
  {
    if cs == [] || (cs[0].used && cs[0].addr == a) then 0 else 1 + Find(cs[1..], a)
  }

  /** kfree by address; freeing what is not live changes nothing. */
  function Free(cs: Layout, a: nat): Layout
  {
    var k := Find(cs, a);
    if k < |cs| then FreeAt(cs, k) else cs
  }

  lemma FreeGood(cs: Layout, lo: nat, hi: nat, a: nat)
    requires Good(cs, lo, hi)
    ensures Good(Free(cs, a), lo, hi)
    ensures forall c :: c in Live(Free(cs, a)) <==> c in Live(cs) && c.addr != a
  {
    var k := Find(cs, a);
    if k < |cs| {
      FreeAtGood(cs, lo, hi, k);
      OnlyLiveAt(cs, lo, hi, k);
    }
  }

  lemma FreeAtGood(cs: Layout, lo: nat, hi: nat, k: nat)
    requires Good(cs, lo, hi) && k < |cs| && cs[k].used
    ensures Good(FreeAt(cs, k), lo, hi) && Live(FreeAt(cs, k)) == Live(cs) - {cs[k]}
  {
    FreeTiles(cs, lo, hi, k);
    FreeCanonical(cs, k);
    FreeAligned(cs, k);
    FreeLive(cs, lo, hi, k);
  }

  lemma OnlyLiveAt(cs: Layout, lo: nat, hi: nat, k: nat)
    requires Tiles(cs, lo, hi) && k < |cs| && cs[k].used
    ensures forall c :: c in Live(cs) - {cs[k]} <==> c in Live(cs) && c.addr != cs[k].addr
  {
    forall c | c in Live(cs) && c.addr == cs[k].addr
      ensures c == cs[k]
    {
      var j :| 0 <= j < |cs| && cs[j] == c;
      SameAddress(cs, lo, hi, j, k);
    }
  }

  lemma AllocGood(cs: Layout, lo: nat, hi: nat, k: nat, n: nat)
    requires Good(cs, lo, hi) && k < |cs| && Fit(cs[k], n) && n % 8 == 0
    ensures Good(AllocAt(cs, k, n), lo, hi)
  {
    AllocTiles(cs, lo, hi, k, n);
    AllocCanonical(cs, k, n);
    AllocAligned(cs, k, n);
  }

  lemma FreeTwice(cs: Layout, lo: nat, hi: nat, a: nat, b: nat)
    requires Good(cs, lo, hi)
    ensures Good(Free(Free(cs, a), b), lo, hi)
    ensures forall c :: c in Live(Free(Free(cs, a), b)) <==> c in Live(cs) && c.addr != a && c.addr != b
  {
    FreeGood(cs, lo, hi, a);
    FreeGood(Free(cs, a), lo, hi, b);
  }

  /** Frees commute. */
  lemma FreesCommute(cs: Layout, lo: nat, hi: nat, a: nat, b: nat)
    requires Good(cs, lo, hi)
    ensures Free(Free(cs, a), b) == Free(Free(cs, b), a)
  {
    FreeTwice(cs, lo, hi, a, b);
    FreeTwice(cs, lo, hi, b, a);
    Unique(Free(Free(cs, a), b), Free(Free(cs, b), a), lo, hi);
  }

  /** Freeing the block just allocated restores the list exactly, split or not. */
  lemma FreeUndoesAlloc(cs: Layout, lo: nat, hi: nat, k: nat, n: nat)
    requires Good(cs, lo, hi) && k < |cs| && Fit(cs[k], n) && n % 8 == 0
    ensures Free(AllocAt(cs, k, n), cs[k].addr) == cs
  {
    var r := AllocAt(cs, k, n);
    AllocGood(cs, lo, hi, k, n);
    AllocLive(cs, lo, hi, k, n);
    FreeGood(r, lo, hi, cs[k].addr);
    forall c | c in Live(cs)
      ensures c.addr != cs[k].addr
    {
      var j :| 0 <= j < |cs| && cs[j] == c;
      if c.addr == cs[k].addr {
        SameAddress(cs, lo, hi, j, k);
      }
    }
    Unique(Free(r, cs[k].addr), cs, lo, hi);
  }

  datatype Op = Alloc(n: nat) | Release(addr: nat)

  /** One operation; an allocation that fits nowhere is not part of a run. */
  ghost predicate Possible(cs: Layout, op: Op)
  {
    op.Alloc? ==> op.n % 8 == 0 && FirstFit(cs, op.n) < |cs|
  }

  function Apply(cs: Layout, op: Op): Layout
  {
    match op
    case Alloc(n) => var k := FirstFit(cs, n); if k < |cs| then AllocAt(cs, k, n) else cs
    case Release(a) => Free(cs, a)
  }

  ghost predicate IsRun(states: seq<Layout>, ops: seq<Op>)
  {
    && |states| == |ops| + 1
    && forall i :: 0 <= i < |ops| ==> Possible(states[i], ops[i]) && states[i + 1] == Apply(states[i], ops[i])
  }

  lemma {:induction false} RunGood(states: seq<Layout>, ops: seq<Op>, lo: nat, hi: nat, i: nat)
    requires IsRun(states, ops) && Good(states[0], lo, hi) && i < |states|
    ensures Good(states[i], lo, hi)
  {
    if i != 0 {
      RunGood(states, ops, lo, hi, i - 1);
      match ops[i - 1]
      case Alloc(n) => AllocGood(states[i - 1], lo, hi, FirstFit(states[i - 1], n), n);
      case Release(a) => FreeGood(states[i - 1], lo, hi, a);
    }
  }

  /** Any two runs from the same start, however long, that leave the same blocks live leave
      the same chunk list. */
  lemma HistoryIndependence(s: seq<Layout>, sOps: seq<Op>, t: seq<Layout>, tOps: seq<Op>, lo: nat, hi: nat)
    requires IsRun(s, sOps) && IsRun(t, tOps) && s[0] == t[0] && Good(s[0], lo, hi)
    requires Live(s[|sOps|]) == Live(t[|tOps|])
    ensures s[|sOps|] == t[|tOps|]
  {
    RunGood(s, sOps, lo, hi, |sOps|);
    RunGood(t, tOps, lo, hi, |tOps|);
    Unique(s[|sOps|], t[|tOps|], lo, hi);
  }

  /** The chunk that init makes. */
  function Initial(lo: nat, hi: nat): Layout
    requires lo + 32 <= hi
  {
    [Chunk(lo, hi - lo - 32, false)]
  }

  /** A run that ends with nothing live ends with the single chunk that init made. */
  lemma AllFreed(states: seq<Layout>, ops: seq<Op>, lo: nat, hi: nat)
    requires lo % 8 == 0 && hi % 8 == 0 && lo + 32 <= hi
    requires IsRun(states, ops) && states[0] == Initial(lo, hi) && Live(states[|ops|]) == {}
    ensures states[|ops|] == Initial(lo, hi)
  {
    RunGood(states, ops, lo, hi, |ops|);
    Unique(states[|ops|], Initial(lo, hi), lo, hi);
  }

  /** Freeing every live block, in any order and with any repetition, restores that chunk. */
  lemma FreeEverything(cs: Layout, lo: nat, hi: nat, order: seq<nat>)
    requires lo % 8 == 0 && hi % 8 == 0 && lo + 32 <= hi && Good(cs, lo, hi)
    requires forall c :: c in Live(cs) ==> c.addr in order
    ensures FreeMany(cs, order) == Initial(lo, hi)
  {
    FreeManyLive(cs, lo, hi, order);
    Unique(FreeMany(cs, order), Initial(lo, hi), lo, hi);
  }

  function FreeMany(cs: Layout, order: seq<nat>): Layout
    decreases |order|
  {
    if order == [] then cs else FreeMany(Free(cs, order[0]), order[1..])
  }

  lemma {:induction false} FreeManyLive(cs: Layout, lo: nat, hi: nat, order: seq<nat>)
    requires Good(cs, lo, hi)
    ensures Good(FreeMany(cs, order), lo, hi)
    ensures forall c :: c in Live(FreeMany(cs, order)) <==> c in Live(cs) && c.addr !in order
    decreases |order|
  {
    if order != [] {
      FreeGood(cs, lo, hi, order[0]);
      FreeManyLive(Free(cs, order[0]), lo, hi, order[1..]);
    }
  }
}
