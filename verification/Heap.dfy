/** The kernel heap: a first-fit list of chunks over pages that are mapped from allocator
    frames. Header fields are read and written by address. */
module Heap {
  import opened Words
  import opened PageTree
  import opened Vmm
  import opened HeapPages
  import opened Chunks
  import opened Headers

  const HEAP_START: nat := 0x1000_0000_0000
  const HEAP_INITIAL_PAGES: nat := 1024

  /** Data bytes of the chunk that growing by 64 pages adds. */
  const GROWN: nat := 64 * 4096 - 32

  /** `(size + 7) & ~7` in 64 bits. */
  function Align8(n: u64): nat { And((n + 7) % 0x1_0000_0000_0000_0000, Not64(7)) }

  /** Rounding up keeps at least the request exactly when adding 7 does not wrap round;
      when it does, the request becomes a block of size 0. */
  lemma Align8Value(n: u64)
    ensures Align8(n) % 8 == 0 && Align8(n) < W64
    ensures Align8(n) >= n <==> n <= W64 - 8
    ensures n <= W64 - 8 ==> Align8(n) < n + 8
    ensures n > W64 - 8 ==> Align8(n) == 0
    ensures n % 8 == 0 ==> Align8(n) == n
  {
    var w: u64 := (n + 7) % 0x1_0000_0000_0000_0000;
    Wrapped(n + 7);
    EightMask(w);
    RoundDown(n, w);
  }

  lemma RoundDown(n: u64, w: u64)
    requires w == if n <= W64 - 8 then n + 7 else n + 7 - W64
    ensures w / 8 * 8 % 8 == 0 && w / 8 * 8 < W64
    ensures n <= W64 - 8 ==> n <= w / 8 * 8 < n + 8
    ensures n > W64 - 8 ==> w / 8 * 8 == 0
    ensures n % 8 == 0 ==> w / 8 * 8 == n
  {
  }

  /** A 64-bit sum below twice 2^64 wraps round at most once. */
  lemma Wrapped(sum: nat)
    requires sum < 2 * 0x1_0000_0000_0000_0000
    ensures sum % 0x1_0000_0000_0000_0000
         == if sum < 0x1_0000_0000_0000_0000 then sum else sum - 0x1_0000_0000_0000_0000
  {
    var d: nat := 0x1_0000_0000_0000_0000;
    if sum < d {
      DivModUnique(sum, d, 0, sum);
    } else {
      DivModUnique(sum, d, 1, sum - d);
    }
  }

  /** kmalloc returns an address, or touches an address that is not mapped; the page-fault
      handler halts the machine. */
  datatype Outcome = Returned(ptr: nat) | PageFault(addr: nat)

  /** Growth keeps the tiling exactly when the new chunk starts where the old heap ended. */
  lemma GrowthTiles(cs: Layout, lo: nat, hi: nat, at: nat, size: nat)
    requires Tiles(cs, lo, hi)
    ensures Tiles(cs + [Chunk(at, size, false)], lo, at + 32 + size) <==> at == hi
  {
    var r := cs + [Chunk(at, size, false)];
    assert r[|cs| - 1] == cs[|cs| - 1] && r[|cs|].addr == at;
    if at == hi {
      forall i | 0 <= i < |r| - 1
        ensures r[i + 1].addr == r[i].End()
      {
      }
    }
  }

  /** Growth does not merge: it leaves no two free neighbours exactly when the last chunk was
      in use. */
  lemma GrowthCanonical(cs: Layout, at: nat)
    requires Canonical(cs) && cs != []
    ensures Canonical(cs + [Chunk(at, GROWN, false)]) <==> cs[|cs| - 1].used
  {
    var r := cs + [Chunk(at, GROWN, false)];
    assert r[|cs| - 1] == cs[|cs| - 1] && !r[|cs|].used;
  }

  /** One growth satisfies a request that nothing fitted exactly when it is no larger than
      the chunk that growth adds; otherwise asking again finds nothing again. */
  lemma {:induction false} GrowthFits(cs: Layout, at: nat, n: nat)
    requires FirstFit(cs, n) == |cs|
    ensures FirstFit(cs + [Chunk(at, GROWN, false)], n) == if n <= GROWN then |cs| else |cs| + 1
    decreases |cs|
  {
    var r := cs + [Chunk(at, GROWN, false)];
    if cs == [] {
      assert r[0] == Chunk(at, GROWN, false) && r[1..] == [];
    } else {
      assert r[0] == cs[0] && r[1..] == cs[1..] + [Chunk(at, GROWN, false)];
      GrowthFits(cs[1..], at, n);
    }
  }

  lemma InitialChunk(h: HeaderMemory)
    ensures var cs := Initial(HEAP_START, HEAP_START + 4096 * HEAP_INITIAL_PAGES);
            && Good(cs, HEAP_START, HEAP_START + 4096 * HEAP_INITIAL_PAGES)
            && Linked(h[HEAP_START := Header(HEAP_INITIAL_PAGES * 4096 - 32, false, 0, 0)], cs)
  {
  }

  /** A page is mapped to something other than the null address exactly when it is mapped. */
  lemma TargetNotNull(w: u64)
    requires w / 4096 != 0
    ensures Target(w) != 0
  {
    PageMask(w);
  }

  lemma PageEnd(pages: nat)
    ensures (HEAP_START + 4096 * pages) % 8 == 0
  {
    DivModUnique(HEAP_START + 4096 * pages, 8, 0x200_0000_0000 + 512 * pages, 0);
  }

  lemma Partition(all: set<nat>, free: set<nat>, tables: set<nat>, data: set<nat>)
    requires free <= all && tables <= all - free && data == all - free - tables
    ensures all == free + tables + data && free !! tables !! data
  {
  }

  lemma FirstFitIs(cs: Layout, n: nat, k: nat)
    requires k <= |cs| && (k < |cs| ==> Fit(cs[k], n))
    requires forall j :: 0 <= j < k ==> !Fit(cs[j], n)
    ensures FirstFit(cs, n) == k
  {
    var f := FirstFit(cs, n);
  }

  class KernelHeap {
    const vmm: AddressSpace
    var heapStart: nat
    var heapEnd: nat
    var headers: HeaderMemory
    ghost var chunks: Layout
    /** Pages the heap has been extended by so far. */
    ghost var pages: nat

    /** The pages up to heapEnd, and no others, are mapped, each to a frame of its own. */
    ghost predicate Backed()
      reads `heapEnd, `pages, vmm, vmm.pmm, vmm.pmm.ram
    {
      && vmm.Valid()
      && heapEnd == HEAP_START + 4096 * pages && pages <= MAX_PAGES
      && HeapTables(vmm.tree, pages)
      && HeapMapped(vmm.tree.leaf, pages, vmm.DataFrames())
    }

    /** The chunks tile the heap and their headers link them in order. */
    ghost predicate ListOk()
      reads `heapStart, `heapEnd, `headers, `chunks
    {
      && heapStart == HEAP_START && heapEnd <= 0x8000_0000_0000
      && Tiles(chunks, HEAP_START, heapEnd) && Aligned(chunks)
      && Linked(headers, chunks)
    }

    ghost predicate Valid()
      reads this, vmm, vmm.pmm, vmm.pmm.ram
    {
      Backed() && ListOk()
    }

    constructor (vmm: AddressSpace)
      ensures this.vmm == vmm && heapEnd == HEAP_START && pages == 0
    {
      this.vmm := vmm;
      heapStart, heapEnd, headers := 0, HEAP_START, map[];
      chunks, pages := [], 0;
    }

    /** Every managed frame is in exactly one place: free, a page table, or under one heap
        page; and every heap page has a frame of its own. */
    lemma Conservation()
      requires Backed()
      ensures vmm.pmm.managed == vmm.pmm.free + vmm.TableFrames() + PageFrames(vmm.tree.leaf)
      ensures vmm.pmm.free !! vmm.TableFrames() !! PageFrames(vmm.tree.leaf)
      ensures |PageFrames(vmm.tree.leaf)| == pages
    {
      CountPageFrames(vmm.tree.leaf, pages);
      Partition(vmm.pmm.managed, vmm.pmm.free, vmm.TableFrames(), PageFrames(vmm.tree.leaf));
    }

    /** A frame for heap data. */
    method AllocData() returns (phys: nat, ghost f: nat)
      requires vmm.Valid()
      modifies vmm.pmm`freePages, vmm.pmm`free, vmm.pmm.ram
      ensures vmm.Valid()
      ensures phys == f * 4096 && f < 0x100_0000_0000
      ensures phys == 0 ==> vmm.pmm.free == old(vmm.pmm.free) == {}
      ensures phys != 0 ==>
        && f in old(vmm.pmm.free) && |vmm.pmm.free| == |old(vmm.pmm.free)| - 1
        && f !in old(vmm.DataFrames()) && vmm.DataFrames() == old(vmm.DataFrames()) + {f}
    {
      ghost var pmm, mem0, free0 := vmm.pmm, vmm.pmm.ram[..], vmm.pmm.free;
      phys := vmm.pmm.Alloc();
      f := phys / 4096;
      KeptBitmap(mem0, pmm.ram[..], pmm.bitmap, pmm.totalPages, pmm.managed);
      TreeInKept(mem0, pmm.ram[..], vmm.tree, pmm.managed, free0, pmm.free, pmm.managed);
    }

    /** Under way to end pages; if there are frames enough, left of them will remain. */
    ghost predicate Growing(enough: bool, end: nat, left: int)
      reads `heapEnd, `pages, vmm, vmm.pmm, vmm.pmm.ram
    {
      && vmm.Valid() && heapEnd == HEAP_START + 4096 * pages && pages <= end <= MAX_PAGES
      && MappedBelow(vmm.tree.leaf, FIRST_PAGE + pages)
      && (enough ==> Backed() && 0 <= left && |vmm.pmm.free| == left + Cost(pages, end))
    }

    /** Maps count more pages at the end of the heap, as long as frames last. */
    method Expand(count: nat)
      requires vmm.Valid() && heapEnd == HEAP_START + 4096 * pages && pages + count <= MAX_PAGES
      requires MappedBelow(vmm.tree.leaf, FIRST_PAGE + pages)
      modifies `heapEnd, `pages, vmm`tree, vmm.pmm`freePages, vmm.pmm`free, vmm.pmm.ram
      ensures vmm.Valid() && heapEnd == HEAP_START + 4096 * pages && pages <= old(pages) + count
      ensures MappedBelow(vmm.tree.leaf, FIRST_PAGE + pages)
      ensures old(Backed()) && Cost(old(pages), old(pages) + count) <= |old(vmm.pmm.free)| ==>
        && Backed() && pages == old(pages) + count
        && |vmm.pmm.free| == |old(vmm.pmm.free)| - Cost(old(pages), pages)
    {
      ghost var end, left := pages + count, |vmm.pmm.free| - Cost(pages, pages + count);
      ExpandTo(count, Backed() && 0 <= left, end, left);
    }

    /** The loop of expand. */
    method ExpandTo(count: nat, ghost enough: bool, ghost end: nat, ghost left: int)
      requires Growing(enough, end, left) && pages + count == end
      modifies `heapEnd, `pages, vmm`tree, vmm.pmm`freePages, vmm.pmm`free, vmm.pmm.ram
      ensures Growing(enough, end, left) && (enough ==> pages == end)
    {
      for i := 0 to count
        invariant Growing(enough, end, left) && pages + (count - i) == end
      {
        var ok := ExpandByOne(enough, end, left);
        if !ok {
          return;
        }
      }
    }

    /** One round of expand. */
    method ExpandByOne(ghost enough: bool, ghost end: nat, ghost left: int) returns (ok: bool)
      requires Growing(enough, end, left) && pages < end
      modifies `heapEnd, `pages, vmm`tree, vmm.pmm`freePages, vmm.pmm`free, vmm.pmm.ram
      ensures Growing(enough, end, left)
      ensures if ok then pages == old(pages) + 1 else pages == old(pages) && !enough
    {
      ok := MapNext(enough);
    }

    /** Maps the page at heap_end and moves heap_end past it. */
    method MapNext(ghost enough: bool) returns (ok: bool)
      requires vmm.Valid() && heapEnd == HEAP_START + 4096 * pages && pages < MAX_PAGES
      requires MappedBelow(vmm.tree.leaf, FIRST_PAGE + pages)
      requires enough ==> Backed() && 1 + NewTables(pages) <= |vmm.pmm.free|
      modifies `heapEnd, `pages, vmm`tree, vmm.pmm`freePages, vmm.pmm`free, vmm.pmm.ram
      ensures vmm.Valid() && heapEnd == HEAP_START + 4096 * pages
      ensures pages == old(pages) + (if ok then 1 else 0)
      ensures MappedBelow(vmm.tree.leaf, FIRST_PAGE + pages)
      ensures enough ==>
        ok && Backed() && |vmm.pmm.free| == |old(vmm.pmm.free)| - 1 - NewTables(old(pages))
    {
      ghost var data, k, f := vmm.DataFrames(), pages, 0;
      var phys: nat;
      phys, f := AllocData();
      if phys == 0 {
        return false;
      }
      MapFrame(phys, f, data, enough);
      ok := true;
    }

    method MapFrame(phys: nat, ghost f: nat, ghost data: set<nat>, ghost enough: bool)
      requires vmm.Valid() && heapEnd == HEAP_START + 4096 * pages && pages < MAX_PAGES
      requires MappedBelow(vmm.tree.leaf, FIRST_PAGE + pages)
      requires phys == f * 4096 && 0 < f < 0x100_0000_0000 && f !in data && vmm.DataFrames() == data + {f}
      requires enough ==>
        HeapTables(vmm.tree, pages) && HeapMapped(vmm.tree.leaf, pages, data) && NewTables(pages) <= |vmm.pmm.free|
      modifies `heapEnd, `pages, vmm`tree, vmm.pmm`freePages, vmm.pmm`free, vmm.pmm.ram
      ensures vmm.Valid() && heapEnd == HEAP_START + 4096 * pages && pages == old(pages) + 1
      ensures MappedBelow(vmm.tree.leaf, FIRST_PAGE + pages)
      ensures enough ==> Backed() && |vmm.pmm.free| == |old(vmm.pmm.free)| - NewTables(old(pages))
    {
      assert heapEnd / 4096 == FIRST_PAGE + pages;
      MapPage(heapEnd, phys, pages, f, data, enough);
      Advance(enough);
    }

    /** `heap_end = heap_end + 4096`, once the page is mapped. */
    method Advance(ghost enough: bool)
      requires vmm.Valid() && heapEnd == HEAP_START + 4096 * pages && pages < MAX_PAGES
      requires enough ==>
        HeapTables(vmm.tree, pages + 1) && HeapMapped(vmm.tree.leaf, pages + 1, vmm.DataFrames())
      modifies `heapEnd, `pages
      ensures vmm.Valid() && heapEnd == HEAP_START + 4096 * pages && pages == old(pages) + 1
      ensures enough ==> Backed()
    {
      heapEnd := heapEnd + 4096;
      pages := pages + 1;
    }

    /** The call of VMM::map for heap page k. */
    method MapPage(v: u64, phys: nat, ghost k: nat, ghost f: nat, ghost data: set<nat>, ghost enough: bool)
      requires vmm.Valid() && v / 4096 == FIRST_PAGE + k && k < MAX_PAGES
      requires MappedBelow(vmm.tree.leaf, FIRST_PAGE + k)
      requires phys == f * 4096 && 0 < f < 0x100_0000_0000 && f !in data
      requires enough ==>
        HeapTables(vmm.tree, k) && HeapMapped(vmm.tree.leaf, k, data) && NewTables(k) <= |vmm.pmm.free|
      modifies vmm`tree, vmm.pmm`freePages, vmm.pmm`free, vmm.pmm.ram
      ensures vmm.Valid() && vmm.DataFrames() == old(vmm.DataFrames())
      ensures MappedBelow(vmm.tree.leaf, FIRST_PAGE + k + 1)
      ensures enough ==>
        && HeapTables(vmm.tree, k + 1) && HeapMapped(vmm.tree.leaf, k + 1, data + {f})
        && |vmm.pmm.free| == |old(vmm.pmm.free)| - NewTables(k)
    {
      ghost var t, free := vmm.tree, vmm.pmm.free;
      DataEntry(f);
      vmm.Map(v, phys, FLAG_WRITABLE);
      NextBelow(t, free, vmm.tree, vmm.pmm.free, k, f);
      if enough {
        NextPage(t, free, vmm.tree, vmm.pmm.free, k, data, f);
      }
    }

    /** Maps the first 4 MiB and makes one free chunk of them. */
    method Init() returns (r: Outcome)
      requires Backed() && pages == 0
      modifies this, vmm`tree, vmm.pmm`freePages, vmm.pmm`free, vmm.pmm.ram
      ensures vmm.Valid()
      ensures |old(vmm.pmm.free)| >= 1028 ==>
        && r == Returned(HEAP_START) && Valid() && pages == HEAP_INITIAL_PAGES
        && chunks == Initial(HEAP_START, heapEnd) && Good(chunks, HEAP_START, heapEnd)
        && |vmm.pmm.free| == |old(vmm.pmm.free)| - 1028
      ensures r.PageFault? ==> HEAP_START / 4096 !in vmm.tree.leaf
    {
      InitialCost();
      Expand(HEAP_INITIAL_PAGES);
      r := FirstChunk();
    }

    /** The second half of init: the header of the first chunk. */
    method FirstChunk() returns (r: Outcome)
      requires vmm.Valid() && MappedBelow(vmm.tree.leaf, FIRST_PAGE + pages)
      modifies `heapStart, `headers, `chunks
      ensures r == if HEAP_START / 4096 in vmm.tree.leaf then Returned(HEAP_START) else PageFault(HEAP_START)
      ensures Backed() && pages == HEAP_INITIAL_PAGES ==>
        && r == Returned(HEAP_START) && Valid()
        && chunks == Initial(HEAP_START, heapEnd) && Good(chunks, HEAP_START, heapEnd)
    {
      heapStart := HEAP_START;
      var phys := vmm.VirtToPhys(heapStart);
      if heapStart / 4096 in vmm.tree.leaf {
        TargetNotNull(vmm.tree.leaf[heapStart / 4096]);
      }
      if phys == 0 {
        return PageFault(heapStart);
      }
      InitialChunk(headers);
      headers := headers[heapStart := Header(HEAP_INITIAL_PAGES * 4096 - 32, false, 0, 0)];
      chunks := Initial(HEAP_START, HEAP_START + 4096 * HEAP_INITIAL_PAGES);
      r := Returned(heapStart);
    }

    // ---- kmalloc -------------------------------------------------------------------------

    /** kmalloc as the code has it. The first chunk that fits is taken. When none fits, the
        heap is extended first and heap_end, already advanced, is then used as the address of
        the new chunk: that page is not mapped, so the write faults. */
    method Kmalloc(request: u64) returns (r: Outcome)
      requires Valid() && pages + 64 < MAX_PAGES
      modifies `heapEnd, `pages, `headers, `chunks, vmm`tree, vmm.pmm`freePages, vmm.pmm`free, vmm.pmm.ram
      ensures var n := Align8(request);
              var k := FirstFit(old(chunks), n);
              if k < |old(chunks)| then
                && Valid() && r == Returned(old(chunks)[k].addr + 32)
                && chunks == AllocAt(old(chunks), k, n) && Carved(old(chunks), k, n, chunks)
                && WritesIn(old(headers), headers, chunks)
                && heapEnd == old(heapEnd) && vmm.tree == old(vmm.tree) && vmm.pmm.free == old(vmm.pmm.free)
              else
                && r == PageFault(heapEnd) && heapEnd / 4096 !in vmm.tree.leaf
                && chunks == old(chunks) && headers == old(headers)
                && (Cost(old(pages), old(pages) + 64) <= |old(vmm.pmm.free)| ==>
                      Backed() && pages == old(pages) + 64)
    {
      var size: u64 := Align8Size(request);
      var found := TakeFirstFit(size);
      if found != 0 {
        return Returned(found);
      }
      r := GrowAndFault();
    }

    /** Growth, up to the first write to the new chunk's header. */
    method GrowAndFault() returns (r: Outcome)
      requires Backed() && pages + 64 < MAX_PAGES
      modifies `heapEnd, `pages, vmm`tree, vmm.pmm`freePages, vmm.pmm`free, vmm.pmm.ram
      ensures r == PageFault(heapEnd) && heapEnd / 4096 !in vmm.tree.leaf
      ensures Cost(old(pages), old(pages) + 64) <= |old(vmm.pmm.free)| ==> Backed() && pages == old(pages) + 64
    {
      MappedIsBelow();
      Expand(64);
      var phys := vmm.VirtToPhys(heapEnd);
      assert phys == 0;
      r := PageFault(heapEnd);
    }

    method Align8Size(request: u64) returns (size: u64)
      ensures size == Align8(request) && size % 8 == 0
    {
      Align8Value(request);
      size := And((request + 7) % 0x1_0000_0000_0000_0000, Not64(7));
    }

    lemma MappedIsBelow()
      requires Backed()
      ensures MappedBelow(vmm.tree.leaf, FIRST_PAGE + pages)
    {
      forall page | page in vmm.tree.leaf
        ensures page < FIRST_PAGE + pages && vmm.tree.leaf[page] / 4096 != 0
      {
        assert vmm.tree.leaf[page] / 4096 in PageFrames(vmm.tree.leaf);
        assert vmm.tree.leaf[page] / 4096 in vmm.pmm.managed;
      }
    }

    /** The search loop: the address of the data, or null if no chunk fits. */
    method TakeFirstFit(size: u64) returns (ptr: nat)
      requires ListOk() && size % 8 == 0
      modifies `headers, `chunks
      ensures ListOk()
      ensures var k := FirstFit(old(chunks), size);
              if k < |old(chunks)| then
                && chunks == AllocAt(old(chunks), k, size) && Carved(old(chunks), k, size, chunks)
                && ptr == old(chunks)[k].addr + 32 != 0
              else
                chunks == old(chunks) && headers == old(headers) && ptr == 0
      ensures WritesIn(old(headers), headers, chunks)
    {
      var current := heapStart;
      ghost var i := 0;
      HeaderIs(0);
      while current != 0
        invariant i <= |chunks| && current == AddrAt(chunks, i) && (current != 0 <==> i < |chunks|)
        invariant unchanged(this)
        invariant forall j :: 0 <= j < i ==> !Fit(chunks[j], size)
        decreases |chunks| - i
      {
        HeaderIs(i);
        var h := headers[current];
        if h.used || h.size < size {
          current := h.next;
          i := i + 1;
          continue;
        }
        FirstFitIs(chunks, size, i);
        Take(current, size, i);
        return current + 32;
      }
      FirstFitIs(chunks, size, |chunks|);
      ptr := 0;
    }

    lemma HeaderIs(i: nat)
      requires ListOk() && i < |chunks|
      ensures chunks[i].addr in headers && headers[chunks[i].addr] == HeaderOf(chunks, i)
      ensures HEAP_START <= chunks[i].addr && chunks[i].End() <= heapEnd
      ensures AddrAt(chunks, i + 1) != 0 <==> i + 1 < |chunks|
      ensures AddrAt(chunks, i - 1) != 0 <==> 0 < i
    {
      HeaderFacts(headers, chunks, HEAP_START, heapEnd, i);
    }

    /** Splits the chunk at current if the rest is worth a header, and marks it used. */
    method Take(current: nat, size: u64, ghost k: nat)
      requires ListOk() && size % 8 == 0
      requires k < |chunks| && current == chunks[k].addr && Fit(chunks[k], size)
      modifies `headers, `chunks
      ensures ListOk() && chunks == AllocAt(old(chunks), k, size) && Carved(old(chunks), k, size, chunks)
      ensures WritesIn(old(headers), headers, chunks)
    {
      AllocCarves(chunks, k, size);
      ghost var cs, headers0 := chunks, headers;
      SplitChunk(current, size, k);
      ghost var split, headers1 := chunks, headers;
      Mark(current, k, true);
      SplitThenMark(cs, k, size);
      SameAddresses(split, chunks);
      WritesTrans(headers0, headers1, headers, split, split, chunks);
    }

    /** Puts a header of its own on the rest, if it has room for that and 8 bytes. */
    method SplitChunk(current: nat, size: u64, ghost k: nat)
      requires ListOk() && size % 8 == 0
      requires k < |chunks| && current == chunks[k].addr && Fit(chunks[k], size)
      modifies `headers, `chunks
      ensures ListOk() && chunks == SplitIfWorth(old(chunks), k, size)
      ensures WritesIn(old(headers), headers, chunks)
    {
      HeaderIs(k);
      if headers[current].size >= (size + 40) % 0x1_0000_0000_0000_0000 {
        SplitOff(current, size, k);
      }
    }

    /** The writes of a split. */
    method SplitOff(current: nat, size: nat, ghost k: nat)
      requires ListOk() && size % 8 == 0
      requires k < |chunks| && current == chunks[k].addr && size + 40 <= chunks[k].size
      modifies `headers, `chunks
      ensures ListOk() && chunks == SplitAt(old(chunks), k, size)
      ensures WritesIn(old(headers), headers, chunks)
    {
      SplitTiles(chunks, HEAP_START, heapEnd, k, size);
      SplitAligned(chunks, k, size);
      SplitLinked(headers, chunks, HEAP_START, heapEnd, k, size);
      SplitWrites(headers, chunks, HEAP_START, heapEnd, k, size);
      HeaderIs(k);
      ghost var before := headers;
      var h, rest := headers[current], current + 32 + size;
      headers := headers[rest := Header(h.size - size - 32, false, h.next, current)];
      if h.next != 0 {
        headers := headers[h.next := headers[h.next].(prev := rest)];
      }
      headers := headers[current := headers[current].(next := rest, size := size)];
      assert headers == Split(before, current, size);
      chunks := SplitAt(chunks, k, size);
    }

    /** `header->used = used`. */
    method Mark(header: nat, ghost k: nat, used: bool)
      requires ListOk() && k < |chunks| && header == chunks[k].addr
      modifies `headers, `chunks
      ensures ListOk()
      ensures chunks == old(chunks)[k := Chunk(old(chunks)[k].addr, old(chunks)[k].size, used)]
      ensures WritesIn(old(headers), headers, old(chunks)) && Within(chunks, old(chunks))
    {
      HeaderIs(k);
      SetUsedLinked(headers, chunks, HEAP_START, heapEnd, k, used);
      SetUsedWrites(headers, chunks, k, used);
      ghost var marked := chunks[k := Chunk(chunks[k].addr, chunks[k].size, used)];
      SameAddresses(marked, chunks);
      headers := headers[header := headers[header].(used := used)];
      chunks := marked;
    }

    // ---- kfree ----------------------------------------------------------------------------------

    /** Frees the block whose data is at ptr and merges it with free neighbours. Only the
        list changes: the pages stay mapped. */
    method Kfree(ptr: nat)
      requires ListOk()
      requires ptr == 0 || (32 <= ptr && Find(chunks, ptr - 32) < |chunks|)  // null or a live block
      modifies `headers, `chunks
      ensures ListOk()
      ensures chunks == if ptr == 0 then old(chunks) else Free(old(chunks), ptr - 32)
      ensures WritesIn(old(headers), headers, old(chunks))
    {
      if ptr != 0 {
        FreeBlock(ptr - 32);
      }
    }

    method FreeBlock(header: nat)
      requires ListOk() && Find(chunks, header) < |chunks|
      modifies `headers, `chunks
      ensures ListOk() && chunks == Free(old(chunks), header)
      ensures WritesIn(old(headers), headers, old(chunks))
    {
      ghost var cs, headers0, k := chunks, headers, Find(chunks, header);
      Mark(header, k, false);
      ghost var cs1, headers1 := chunks, headers;
      MergeForward(header, k);
      ghost var cs2, headers2 := chunks, headers;
      MergeBackward(header, k);
      SameAddresses(cs, cs);
      WithinTrans(cs2, cs1, cs);
      WritesTrans(headers0, headers1, headers2, cs, cs1, cs);
      WritesTrans(headers0, headers2, headers, cs, cs2, cs);
    }

    /** Merge with the next chunk if it is free. */
    method MergeForward(header: nat, ghost k: nat)
      requires ListOk() && k < |chunks| && header == chunks[k].addr
      modifies `headers, `chunks
      ensures ListOk() && chunks == MergeNext(old(chunks), k)
      ensures WritesIn(old(headers), headers, old(chunks)) && Within(chunks, old(chunks))
    {
      SameAddresses(chunks, chunks);
      HeaderIs(k);
      var next := headers[header].next;
      if next != 0 {
        HeaderIs(k + 1);
        if !headers[next].used {
          Absorb(header, k);
        }
      }
    }

    /** Merge with the previous chunk if it is free. */
    method MergeBackward(header: nat, ghost k: nat)
      requires ListOk() && k < |chunks| && header == chunks[k].addr
      modifies `headers, `chunks
      ensures ListOk() && chunks == MergePrev(old(chunks), k)
      ensures WritesIn(old(headers), headers, old(chunks)) && Within(chunks, old(chunks))
    {
      SameAddresses(chunks, chunks);
      HeaderIs(k);
      var prev := headers[header].prev;
      if prev != 0 {
        HeaderIs(k - 1);
        if !headers[prev].used {
          Absorb(prev, k - 1);
        }
      }
    }

    /** The chunk at a takes in the one after it. */
    method Absorb(a: nat, ghost j: nat)
      requires ListOk() && j + 1 < |chunks| && a == chunks[j].addr
      modifies `headers, `chunks
      ensures ListOk() && chunks == MergeAt(old(chunks), j)
      ensures WritesIn(old(headers), headers, old(chunks)) && Within(chunks, old(chunks))
    {
      MergeWrites(headers, chunks, HEAP_START, heapEnd, j);
      MergeWithin(chunks, j);
      MergeLinked(headers, chunks, HEAP_START, heapEnd, j);
      MergeTiles(chunks, HEAP_START, heapEnd, j);
      MergeAligned(chunks, j);
      HeaderIs(j);
      HeaderIs(j + 1);
      ghost var before := headers;
      var b := headers[headers[a].next];
      headers := headers[a := Header(headers[a].size + 32 + b.size, headers[a].used, b.next, headers[a].prev)];
      if b.next != 0 {
        headers := headers[b.next := headers[b.next].(prev := a)];
      }
      assert headers == Merge(before, a);
      chunks := MergeAt(chunks, j);
    }

    // ---- Heap memory -----------------------------------------------------------------------------

    ghost predicate InHeap(v: nat)
      reads `heapEnd
    {
      HEAP_START <= v < heapEnd && v % 8 == 0
    }

    /** The data frame under address v. */
    ghost function FrameOf(v: nat): nat
      reads `heapEnd, `pages, vmm, vmm.pmm, vmm.pmm.ram
      requires Backed() && InHeap(v)
    {
      vmm.tree.leaf[v / 4096] / 4096
    }

    lemma FrameOfIs(v: nat)
      requires Backed() && InHeap(v)
      ensures FrameOf(v) in vmm.DataFrames() && FrameOf(v) * 512 + 512 <= vmm.pmm.ram.Length
      ensures v / 4096 in vmm.tree.leaf && Target(vmm.tree.leaf[v / 4096]) == FrameOf(v) * 4096
    {
      var page := v / 4096;
      assert FIRST_PAGE <= page < FIRST_PAGE + pages;
      assert vmm.tree.leaf[page] / 4096 in PageFrames(vmm.tree.leaf);
      PageMask(vmm.tree.leaf[page]);
    }

    /** The word at address v, through the page tables. */
    ghost function WordAt(v: nat): u64
      reads `heapEnd, `pages, vmm, vmm.pmm, vmm.pmm.ram
      requires Backed() && InHeap(v)
    {
      FrameOfIs(v);
      Word(vmm.pmm.ram[..], FrameOf(v), v % 4096 / 8)
    }

    /** Two addresses of the heap lead to one word only if they are the same. */
    lemma PlacesApart(v: nat, u: nat)
      requires Backed() && InHeap(v) && InHeap(u)
      ensures FrameOf(v) == FrameOf(u) && v % 4096 / 8 == u % 4096 / 8 <==> v == u
    {
      FrameOfIs(v);
      FrameOfIs(u);
      WordIndex(v);
      WordIndex(u);
    }

    static lemma WordIndex(v: nat)
      requires v % 8 == 0
      ensures v == v / 4096 * 4096 + v % 4096 / 8 * 8 && v % 4096 / 8 < 512
    {
    }

    static lemma PlaceIndex(v: nat, f: nat)
      requires v % 8 == 0
      ensures (f * 4096 + v % 4096) / 8 == f * 512 + v % 4096 / 8
    {
    }

    /** A word read through the page tables. */
    method Load(v: u64) returns (w: u64)
      requires Backed() && InHeap(v) && heapEnd <= 0x8000_0000_0000
      ensures w == WordAt(v)
    {
      FrameOfIs(v);
      WordIndex(v);
      PlaceIndex(v, FrameOf(v));
      var phys := vmm.VirtToPhys(v);
      w := vmm.pmm.ram[(phys + v % 4096) / 8];
    }

    /** A word written through the page tables: it changes what is read at that address and at no
        other heap address, and neither the bitmap, the page tables nor a mapping. */
    method Store(v: u64, w: u64)
      requires Backed() && InHeap(v) && heapEnd <= 0x8000_0000_0000
      modifies vmm.pmm.ram
      ensures Backed()
      ensures forall u: nat :: InHeap(u) ==> WordAt(u) == if u == v then w else old(WordAt(u))
    {
      FrameOfIs(v);
      WordIndex(v);
      var phys := vmm.VirtToPhys(v);
      ghost var mem, f, k := vmm.pmm.ram[..], FrameOf(v), v % 4096 / 8;
      StoreWord(phys, v % 4096 / 8, w, f);
      forall u: nat | InHeap(u)
        ensures WordAt(u) == if u == v then w else old(WordAt(u))
      {
        FrameOfIs(u);
        WordIndex(u);
        PlacesApart(v, u);
        WordUpdate(mem, f, k, w, FrameOf(u), u % 4096 / 8);
      }
    }

    /** A word of a data frame is written. */
    method StoreWord(phys: nat, k: nat, w: u64, ghost f: nat)
      requires Backed() && f in vmm.DataFrames() && phys == f * 4096 && k < 512
      modifies vmm.pmm.ram
      ensures Backed() && f * 512 + 512 <= vmm.pmm.ram.Length
      ensures vmm.pmm.ram[..] == old(vmm.pmm.ram[..])[f * 512 + k := w]
    {
      ghost var mem := vmm.pmm.ram[..];
      vmm.WriteWord(phys, k, w, f);
      KeptOutside(mem, vmm.pmm.ram[..], f * 512, 512, vmm.TableFrames());
      TreeInKept(mem, vmm.pmm.ram[..], vmm.tree, vmm.pmm.managed, vmm.pmm.free, vmm.pmm.free, vmm.TableFrames());
    }

    // ---- A variant that is not the repository's code ----------------------------------------------

    /** kmalloc as it would be if it put the new chunk at the heap's end from before expand.
        The list then stays a tiling. Asking again succeeds, so there is one recursion. */
    method KmallocSavedEnd(request: u64) returns (ptr: nat)
      requires Valid()
      requires FirstFit(chunks, Align8(request)) == |chunks| ==>
        && Align8(request) <= GROWN && pages + 64 <= MAX_PAGES
        && Cost(pages, pages + 64) <= |vmm.pmm.free|
      modifies `heapEnd, `pages, `headers, `chunks, vmm`tree, vmm.pmm`freePages, vmm.pmm`free, vmm.pmm.ram
      ensures Valid()
      ensures var n := Align8(request);
              var k := FirstFit(old(chunks), n);
              if k < |old(chunks)| then
                && ptr == old(chunks)[k].Data() && chunks == AllocAt(old(chunks), k, n)
                && pages == old(pages) && vmm.pmm.free == old(vmm.pmm.free)
              else
                var grown := old(chunks) + [Chunk(old(heapEnd), GROWN, false)];
                && FirstFit(grown, n) == k && chunks == AllocAt(grown, k, n) && ptr == old(heapEnd) + 32
                && pages == old(pages) + 64
                && |vmm.pmm.free| == |old(vmm.pmm.free)| - Cost(old(pages), old(pages) + 64)
      decreases if FirstFit(chunks, Align8(request)) < |chunks| then 0 else 1
    {
      var size := Align8Size(request);
      var found := TakeFirstFit(size);
      if found != 0 {
        return found;
      }
      GrowthFits(chunks, heapEnd, size);
      Grow();
      Align8Value(size);
      ptr := KmallocSavedEnd(size);
    }

    /** Extends the heap and appends one chunk that covers the new pages. */
    method Grow()
      requires Valid() && pages + 64 <= MAX_PAGES && Cost(pages, pages + 64) <= |vmm.pmm.free|
      modifies `heapEnd, `pages, `headers, `chunks, vmm`tree, vmm.pmm`freePages, vmm.pmm`free, vmm.pmm.ram
      ensures Valid() && pages == old(pages) + 64
      ensures chunks == old(chunks) + [Chunk(old(heapEnd), GROWN, false)]
      ensures |vmm.pmm.free| == |old(vmm.pmm.free)| - Cost(old(pages), old(pages) + 64)
    {
      PageEnd(pages);
      var saved := heapEnd;
      ExpandFully();
      AppendPages(saved);
    }

    method AppendPages(at: nat)
      requires Backed() && heapStart == HEAP_START && heapEnd == at + 64 * 4096 <= 0x8000_0000_0000 && at % 8 == 0
      requires Tiles(chunks, HEAP_START, at) && Aligned(chunks) && Linked(headers, chunks)
      modifies `headers, `chunks
      ensures Valid() && chunks == old(chunks) + [Chunk(at, GROWN, false)]
    {
      Append(at);
    }

    /** expand(64) with frames enough. */
    method ExpandFully()
      requires Backed() && pages + 64 <= MAX_PAGES && Cost(pages, pages + 64) <= |vmm.pmm.free|
      modifies `heapEnd, `pages, vmm`tree, vmm.pmm`freePages, vmm.pmm`free, vmm.pmm.ram
      ensures Backed() && pages == old(pages) + 64 && heapEnd == old(heapEnd) + 64 * 4096 <= 0x8000_0000_0000
      ensures |vmm.pmm.free| == |old(vmm.pmm.free)| - Cost(old(pages), old(pages) + 64)
    {
      MappedIsBelow();
      Expand(64);
    }

    /** Walks to the last chunk and links a new one of 64 pages after it, at address at. */
    method Append(at: nat)
      requires heapStart == HEAP_START && heapEnd == at + 64 * 4096 <= 0x8000_0000_0000
      requires Tiles(chunks, HEAP_START, at) && Aligned(chunks) && Linked(headers, chunks)
      requires at % 8 == 0
      modifies `headers, `chunks
      ensures ListOk() && chunks == old(chunks) + [Chunk(at, GROWN, false)]
    {
      var last := heapStart;
      ghost var i := 0;
      HeaderFacts(headers, chunks, HEAP_START, at, 0);
      while headers[last].next != 0
        invariant i < |chunks| && last == chunks[i].addr && unchanged(this)
        invariant last in headers && (headers[last].next != 0 <==> i + 1 < |chunks|)
        invariant headers[last] == HeaderOf(chunks, i)
        decreases |chunks| - i
      {
        last := headers[last].next;
        i := i + 1;
        HeaderFacts(headers, chunks, HEAP_START, at, i);
      }
      AppendLinked(headers, chunks, HEAP_START, at, GROWN);
      GrowthTiles(chunks, HEAP_START, at, at, GROWN);
      headers := headers[at := Header(64 * 4096 - 32, false, 0, last)];
      headers := headers[last := headers[last].(next := at)];
      chunks := chunks + [Chunk(at, GROWN, false)];
    }
  }
}
