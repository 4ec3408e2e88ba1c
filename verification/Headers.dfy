/** The heap's headers as they lie in memory, linked by address, and how they encode a
    layout. The null pointer is address 0. */
module Headers {
  import opened Chunks

  datatype Header = Header(size: nat, used: bool, next: nat, prev: nat)

  type HeaderMemory = map<nat, Header>

  /** The address of chunk i; null past either end. */
  function AddrAt(cs: Layout, i: int): nat { if 0 <= i < |cs| then cs[i].addr else 0 }

  function HeaderOf(cs: Layout, i: nat): Header
    requires i < |cs|
  {
    Header(cs[i].size, cs[i].used, AddrAt(cs, i + 1), AddrAt(cs, i - 1))
  }

  /** Every chunk has its header at its address; next and prev are its neighbours. */
  ghost predicate Linked(h: HeaderMemory, cs: Layout)
  {
    forall i: nat {:trigger HeaderOf(cs, i)} | i < |cs| :: cs[i].addr in h && h[cs[i].addr] == HeaderOf(cs, i)
  }

  /** next and prev are mutually inverse along the list. */
  lemma NextPrev(h: HeaderMemory, cs: Layout, i: nat)
    requires Linked(h, cs) && i < |cs|
    ensures cs[i].addr in h
    ensures var c := h[cs[i].addr];
            && (i + 1 < |cs| ==> c.next in h && h[c.next].prev == cs[i].addr)
            && (0 < i ==> c.prev in h && h[c.prev].next == cs[i].addr)
  {
    var c := HeaderOf(cs, i);
    if i + 1 < |cs| {
      var n := HeaderOf(cs, i + 1);
    }
    if 0 < i {
      var p := HeaderOf(cs, i - 1);
    }
  }

  /** The header at chunk i's address holds chunk i; its links are null only at the ends. */
  lemma HeaderFacts(h: HeaderMemory, cs: Layout, lo: nat, hi: nat, i: nat)
    requires Linked(h, cs) && Tiles(cs, lo, hi) && 0 < lo && i < |cs|
    ensures cs[i].addr in h && h[cs[i].addr] == HeaderOf(cs, i)
    ensures lo <= cs[i].addr && cs[i].End() <= hi
    ensures AddrAt(cs, i + 1) != 0 <==> i + 1 < |cs|
    ensures AddrAt(cs, i - 1) != 0 <==> 0 < i
  {
    var own := HeaderOf(cs, i);
    Bounds(cs, lo, hi, i);
    if i + 1 < |cs| {
      Bounds(cs, lo, hi, i + 1);
    }
    if 0 < i {
      Bounds(cs, lo, hi, i - 1);
    }
  }

  // ---- The writes of the three list operations -----------------------------------------------

  /** `if (next) next->prev = a` */
  function SetPrev(h: HeaderMemory, next: nat, a: nat): HeaderMemory
    requires next != 0 ==> next in h
  {
    if next != 0 then h[next := h[next].(prev := a)] else h
  }

  /** Splitting the chunk at a after n bytes of data. */
  function Split(h: HeaderMemory, a: nat, n: nat): HeaderMemory
    requires a in h && n + 32 <= h[a].size && (h[a].next != 0 ==> h[a].next in h)
  {
    var rest := a + 32 + n;
    var h1 := h[rest := Header(h[a].size - n - 32, false, h[a].next, a)];
    var h2 := SetPrev(h1, h[a].next, rest);
    h2[a := Header(n, h[a].used, rest, h[a].prev)]
  }

  function SetUsed(h: HeaderMemory, a: nat, used: bool): HeaderMemory
    requires a in h
  {
    h[a := h[a].(used := used)]
  }

  /** The chunk at a absorbs the one after it. */
  function Merge(h: HeaderMemory, a: nat): HeaderMemory
    requires a in h && h[a].next in h && (h[h[a].next].next != 0 ==> h[h[a].next].next in h)
  {
    var b := h[h[a].next];
    var h1 := h[a := Header(h[a].size + 32 + b.size, h[a].used, b.next, h[a].prev)];
    SetPrev(h1, b.next, a)
  }

  lemma SetUsedLinked(h: HeaderMemory, cs: Layout, lo: nat, hi: nat, k: nat, used: bool)
    requires Linked(h, cs) && Tiles(cs, lo, hi) && k < |cs|
    ensures cs[k].addr in h
    ensures Linked(SetUsed(h, cs[k].addr, used), cs[k := Chunk(cs[k].addr, cs[k].size, used)])
  {
    var ds := cs[k := Chunk(cs[k].addr, cs[k].size, used)];
    var own := HeaderOf(cs, k);
    forall i: nat | i < |ds|
      ensures ds[i].addr in h && SetUsed(h, cs[k].addr, used)[ds[i].addr] == HeaderOf(ds, i)
    {
      var before := HeaderOf(cs, i);
      if ds[i].addr == cs[k].addr {
        SameAddress(cs, lo, hi, i, k);
      }
    }
  }

  lemma MergeLinked(h: HeaderMemory, cs: Layout, lo: nat, hi: nat, j: nat)
    requires Linked(h, cs) && Tiles(cs, lo, hi) && 0 < lo && j + 1 < |cs|
    ensures cs[j].addr in h && h[cs[j].addr].next in h
    ensures var b := h[h[cs[j].addr].next]; b.next != 0 ==> b.next in h
    ensures Linked(Merge(h, cs[j].addr), MergeAt(cs, j))
  {
    var own, absorbed := HeaderOf(cs, j), HeaderOf(cs, j + 1);
    Bounds(cs, lo, hi, j + 1);
    if j + 2 < |cs| {
      var after := HeaderOf(cs, j + 2);
    }
    var r, h' := MergeAt(cs, j), Merge(h, cs[j].addr);
    forall i: nat | i < |r|
      ensures r[i].addr in h' && h'[r[i].addr] == HeaderOf(r, i)
    {
      var from := if i <= j then i else i + 1;
      var before := HeaderOf(cs, from);
      assert r[i].addr == cs[from].addr;
      if cs[from].addr == cs[j].addr {
        SameAddress(cs, lo, hi, from, j);
      }
      if j + 2 < |cs| && cs[from].addr == cs[j + 2].addr {
        SameAddress(cs, lo, hi, from, j + 2);
      }
    }
  }

  lemma SplitLinked(h: HeaderMemory, cs: Layout, lo: nat, hi: nat, k: nat, n: nat)
    requires Linked(h, cs) && Tiles(cs, lo, hi) && 0 < lo && k < |cs| && n + 40 <= cs[k].size
    ensures var a := cs[k].addr;
            a in h && h[a].size == cs[k].size && (h[a].next != 0 ==> h[a].next in h)
    ensures Linked(Split(h, cs[k].addr, n), SplitAt(cs, k, n))
  {
    HeaderFacts(h, cs, lo, hi, k);
    if k + 1 < |cs| {
      HeaderFacts(h, cs, lo, hi, k + 1);
    }
    var r, h' := SplitAt(cs, k, n), Split(h, cs[k].addr, n);
    forall i: nat | i < |r|
      ensures r[i].addr in h' && h'[r[i].addr] == HeaderOf(r, i)
    {
      if i == k + 1 {
        RestHeader(h, cs, lo, hi, k, n);
      } else {
        SplitHeader(h, cs, lo, hi, k, n, if i <= k then i else i - 1);
      }
    }
  }

  /** The header of the rest after a split. */
  lemma RestHeader(h: HeaderMemory, cs: Layout, lo: nat, hi: nat, k: nat, n: nat)
    requires Linked(h, cs) && Tiles(cs, lo, hi) && 0 < lo && k < |cs| && n + 40 <= cs[k].size
    requires cs[k].addr in h && h[cs[k].addr] == HeaderOf(cs, k)
    requires k + 1 < |cs| ==> cs[k + 1].addr in h
    ensures var h', rest := Split(h, cs[k].addr, n), cs[k].addr + 32 + n;
            rest in h' && h'[rest] == HeaderOf(SplitAt(cs, k, n), k + 1)
  {
    RestIsNew(cs, lo, hi, k, n, k);
    if k + 1 < |cs| {
      RestIsNew(cs, lo, hi, k, n, k + 1);
    }
  }

  /** The header of an old chunk, the split one included, after a split. */
  lemma SplitHeader(h: HeaderMemory, cs: Layout, lo: nat, hi: nat, k: nat, n: nat, from: nat)
    requires Linked(h, cs) && Tiles(cs, lo, hi) && 0 < lo && k < |cs| && n + 40 <= cs[k].size && from < |cs|
    requires cs[k].addr in h && h[cs[k].addr] == HeaderOf(cs, k)
    requires k + 1 < |cs| ==> cs[k + 1].addr in h && cs[k + 1].addr != 0
    ensures var h', i := Split(h, cs[k].addr, n), if from <= k then from else from + 1;
            cs[from].addr in h' && h'[cs[from].addr] == HeaderOf(SplitAt(cs, k, n), i)
  {
    HeaderFacts(h, cs, lo, hi, from);
    RestIsNew(cs, lo, hi, k, n, from);
    if cs[from].addr == cs[k].addr {
      SameAddress(cs, lo, hi, from, k);
    }
    if k + 1 < |cs| && cs[from].addr == cs[k + 1].addr {
      SameAddress(cs, lo, hi, from, k + 1);
    }
  }

  /** The header of the split-off rest lies inside the old chunk, at no header's address. */
  lemma RestIsNew(cs: Layout, lo: nat, hi: nat, k: nat, n: nat, i: nat)
    requires Tiles(cs, lo, hi) && k < |cs| && n + 40 <= cs[k].size && i < |cs|
    ensures cs[i].addr != cs[k].addr + 32 + n
  {
    if i < k {
      Ordered(cs, lo, hi, i, k);
    } else if k < i {
      Ordered(cs, lo, hi, k, i);
    }
  }

  /** The layout after a split, before the first part is marked used. */
  function SplitAt(cs: Layout, k: nat, n: nat): Layout
    requires k < |cs| && n + 40 <= cs[k].size
  {
    cs[..k] + [Chunk(cs[k].addr, n, cs[k].used), Chunk(cs[k].addr + 32 + n, cs[k].size - n - 32, false)] + cs[k + 1..]
  }

  lemma SplitTiles(cs: Layout, lo: nat, hi: nat, k: nat, n: nat)
    requires Tiles(cs, lo, hi) && k < |cs| && n + 40 <= cs[k].size
    ensures Tiles(SplitAt(cs, k, n), lo, hi)
  {
    var r := SplitAt(cs, k, n);
    forall i | 0 <= i < |r| - 1
      ensures r[i + 1].addr == r[i].End()
    {
      assert i > k + 1 ==> r[i] == cs[i - 1] && r[i + 1] == cs[i];
      assert i < k - 1 ==> r[i] == cs[i] && r[i + 1] == cs[i + 1];
    }
  }

  lemma SplitAligned(cs: Layout, k: nat, n: nat)
    requires Aligned(cs) && k < |cs| && n + 40 <= cs[k].size && n % 8 == 0
    ensures Aligned(SplitAt(cs, k, n))
  {
    var r := SplitAt(cs, k, n);
    assert cs[k].addr % 8 == 0 && cs[k].size % 8 == 0;
    forall i | 0 <= i < |r|
      ensures r[i].addr % 8 == 0 && r[i].size % 8 == 0
    {
      assert i < k ==> r[i] == cs[i];
      assert k + 1 < i ==> r[i] == cs[i - 1];
    }
  }

  /** The layout after the first half of an allocation. */
  function SplitIfWorth(cs: Layout, k: nat, n: nat): Layout
    requires k < |cs|
  {
    if n + 40 <= cs[k].size then SplitAt(cs, k, n) else cs
  }

  /** Allocation is a split, if it is worth it, and then the mark. */
  lemma SplitThenMark(cs: Layout, k: nat, n: nat)
    requires k < |cs| && Fit(cs[k], n)
    ensures k < |SplitIfWorth(cs, k, n)|
    ensures var split := SplitIfWorth(cs, k, n);
            split[k := Chunk(split[k].addr, split[k].size, true)] == AllocAt(cs, k, n)
  {
  }

  lemma AppendLinked(h: HeaderMemory, cs: Layout, lo: nat, hi: nat, size: nat)
    requires Linked(h, cs) && Tiles(cs, lo, hi)
    ensures cs[|cs| - 1].addr in h
    ensures var last := cs[|cs| - 1].addr;
            Linked(h[hi := Header(size, false, 0, last)][last := h[last].(next := hi)], cs + [Chunk(hi, size, false)])
  {
    var last := cs[|cs| - 1].addr;
    var own := HeaderOf(cs, |cs| - 1);
    var r := cs + [Chunk(hi, size, false)];
    var h' := h[hi := Header(size, false, 0, last)][last := h[last].(next := hi)];
    Bounds(cs, lo, hi, |cs| - 1);
    forall i: nat | i < |r|
      ensures r[i].addr in h' && h'[r[i].addr] == HeaderOf(r, i)
    {
      if i < |cs| {
        AppendLinkedAt(h, cs, lo, hi, i);
        assert r[i] == cs[i] && (i + 1 < |cs| ==> r[i + 1] == cs[i + 1]);
      }
    }
  }

  lemma AppendLinkedAt(h: HeaderMemory, cs: Layout, lo: nat, hi: nat, i: nat)
    requires Linked(h, cs) && Tiles(cs, lo, hi) && i < |cs|
    ensures cs[i].addr in h && cs[i].addr < hi && h[cs[i].addr] == HeaderOf(cs, i)
    ensures cs[i].addr == cs[|cs| - 1].addr ==> i == |cs| - 1
  {
    var before := HeaderOf(cs, i);
    Bounds(cs, lo, hi, i);
    if cs[i].addr == cs[|cs| - 1].addr {
      SameAddress(cs, lo, hi, i, |cs| - 1);
    }
  }

  // ---- What is written -----------------------------------------------------------------------

  ghost predicate HasHeader(cs: Layout, a: nat)
  {
    exists i: nat :: i < |cs| && cs[i].addr == a
  }

  /** Every header that changed belongs to a chunk of cs. */
  ghost predicate WritesIn(h: HeaderMemory, h': HeaderMemory, cs: Layout)
  {
    forall a :: a in h' && !(a in h && h'[a] == h[a]) ==> HasHeader(cs, a)
  }

  ghost predicate Within(cs: Layout, ds: Layout)
  {
    forall i: nat :: i < |cs| ==> HasHeader(ds, cs[i].addr)
  }

  lemma WritesTrans(h: HeaderMemory, h1: HeaderMemory, h2: HeaderMemory, cs: Layout, ds: Layout, es: Layout)
    requires WritesIn(h, h1, cs) && WritesIn(h1, h2, ds) && Within(cs, es) && Within(ds, es)
    ensures WritesIn(h, h2, es)
  {
    forall a | a in h2 && !(a in h && h2[a] == h[a])
      ensures HasHeader(es, a)
    {
      assert HasHeader(cs, a) || HasHeader(ds, a);
    }
  }

  lemma SameAddresses(cs: Layout, ds: Layout)
    requires |cs| == |ds| && forall i :: 0 <= i < |cs| ==> cs[i].addr == ds[i].addr
    ensures Within(cs, ds)
  {
  }

  lemma WithinTrans(cs: Layout, ds: Layout, es: Layout)
    requires Within(cs, ds) && Within(ds, es)
    ensures Within(cs, es)
  {
    forall i: nat | i < |cs|
      ensures HasHeader(es, cs[i].addr)
    {
      assert HasHeader(ds, cs[i].addr);
    }
  }

  lemma MergeWithin(cs: Layout, j: nat)
    requires j + 1 < |cs|
    ensures Within(MergeAt(cs, j), cs)
  {
    var r := MergeAt(cs, j);
    forall i: nat | i < |r|
      ensures HasHeader(cs, r[i].addr)
    {
      assert r[i].addr == cs[if i <= j then i else i + 1].addr;
    }
  }

  lemma SetUsedWrites(h: HeaderMemory, cs: Layout, k: nat, used: bool)
    requires k < |cs| && cs[k].addr in h
    ensures WritesIn(h, SetUsed(h, cs[k].addr, used), cs)
  {
  }

  lemma MergeWrites(h: HeaderMemory, cs: Layout, lo: nat, hi: nat, j: nat)
    requires Linked(h, cs) && Tiles(cs, lo, hi) && 0 < lo && j + 1 < |cs|
    ensures cs[j].addr in h && h[cs[j].addr].next in h
    ensures var b := h[h[cs[j].addr].next]; b.next != 0 ==> b.next in h
    ensures WritesIn(h, Merge(h, cs[j].addr), cs)
  {
    MergeLinked(h, cs, lo, hi, j);
    var own, absorbed := HeaderOf(cs, j), HeaderOf(cs, j + 1);
    assert j + 2 < |cs| ==> HasHeader(cs, cs[j + 2].addr);
    assert HasHeader(cs, cs[j].addr);
  }

  lemma SplitWrites(h: HeaderMemory, cs: Layout, lo: nat, hi: nat, k: nat, n: nat)
    requires Linked(h, cs) && Tiles(cs, lo, hi) && 0 < lo && k < |cs| && n + 40 <= cs[k].size
    ensures var a := cs[k].addr;
            a in h && h[a].size == cs[k].size && (h[a].next != 0 ==> h[a].next in h)
    ensures WritesIn(h, Split(h, cs[k].addr, n), SplitAt(cs, k, n))
  {
    SplitLinked(h, cs, lo, hi, k, n);
    var own, r := HeaderOf(cs, k), SplitAt(cs, k, n);
    assert r[k].addr == cs[k].addr && r[k + 1].addr == cs[k].addr + 32 + n;
    assert k + 1 < |cs| ==> r[k + 2] == cs[k + 1];
    assert HasHeader(r, r[k].addr) && HasHeader(r, r[k + 1].addr);
    assert k + 1 < |cs| ==> HasHeader(r, r[k + 2].addr);
  }

  /** The data of a live block is never written: every header that changes lies outside. */
  lemma DataUntouched(h: HeaderMemory, h': HeaderMemory, cs: Layout, lo: nat, hi: nat, c: Chunk, a: nat)
    requires Tiles(cs, lo, hi) && WritesIn(h, h', cs) && c in Live(cs)
    requires a in h' && !(a in h && h'[a] == h[a])
    ensures a + 32 <= c.Data() || c.End() <= a
  {
    assert HasHeader(cs, a);
    var i: nat :| i < |cs| && cs[i].addr == a;
    var j :| 0 <= j < |cs| && cs[j] == c;
    if i < j {
      Ordered(cs, lo, hi, i, j);
    } else if j < i {
      Ordered(cs, lo, hi, j, i);
    }
  }
}
