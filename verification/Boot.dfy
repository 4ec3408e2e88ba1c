/** The order in which the kernel brings its memory up: frames, then page tables, then the
    heap. */
module Boot {
  import opened Words
  import opened Pmm
  import opened PageTree
  import opened Vmm
  import opened HeapPages
  import opened Chunks
  import opened Heap

  /** What VMM::init leaves behind is a heap of no pages. */
  lemma NoHeapYet(root: nat)
    ensures HeapTables(Tree(map[[] := root], map[]), 0)
    ensures HeapMapped(map[], 0, {})
  {
  }

  /** Brings memory up over a memory map m, with the boot loader's root table at cr3. The
      heap is null when there is no bitmap, no root table, or no mapped first page. */
  method Start(ram: array<u64>, m: seq<Entry>, cr3: nat) returns (pmm: Allocator, heap: KernelHeap?)
    requires ValidMap(m, ram.Length) && ram.Length < 0x2_0000_0000_0000
    requires cr3 % 4096 == 0 && cr3 / 4096 * 512 + 512 <= ram.Length && !InUsableEntry(m, cr3 / 4096)
    modifies ram
    ensures fresh(pmm) && pmm.ram == ram
    ensures pmm.bitmap == 0 <==> NoPlace(m, pmm.totalPages)
    ensures pmm.bitmap != 0 ==> pmm.Valid() && Manages(pmm.managed, m, pmm.bitmap, pmm.totalPages)
    ensures pmm.bitmap != 0 && 1029 <= |pmm.managed| ==>
      && heap != null && heap.vmm.pmm == pmm && heap.Valid()
      && heap.pages == HEAP_INITIAL_PAGES && heap.chunks == Initial(HEAP_START, heap.heapEnd)
      && pmm.freePages == |pmm.managed| - 1029
  {
    pmm := new Allocator(ram);
    heap := null;
    pmm.Init(m);
    if pmm.bitmap == 0 {
      return;
    }
    ChosenInUsable(m, pmm.totalPages, pmm.bitmap, pmm.BitmapFrames(), cr3 / 4096, ram.Length);
    heap := StartHeap(pmm, cr3);
  }

  /** The part after the frame allocator is up and every managed frame is free. */
  method StartHeap(pmm: Allocator, cr3: nat) returns (heap: KernelHeap?)
    requires pmm.Valid() && pmm.free == pmm.managed
    requires cr3 % 4096 == 0 && cr3 / 4096 * 512 + 512 <= pmm.ram.Length
    requires cr3 / 4096 !in pmm.managed && cr3 / 4096 !in pmm.BitmapFrames()
    modifies pmm`freePages, pmm`free, pmm.ram
    ensures pmm.Valid()
    ensures 1029 <= |pmm.managed| ==>
      && heap != null && heap.vmm.pmm == pmm && heap.Valid()
      && heap.pages == HEAP_INITIAL_PAGES && heap.chunks == Initial(HEAP_START, heap.heapEnd)
      && pmm.freePages == |pmm.managed| - 1029
  {
    var vmm := StartPages(pmm, cr3);
    heap := null;
    if vmm != null {
      heap := StartChunks(vmm);
    }
  }

  method StartPages(pmm: Allocator, cr3: nat) returns (vmm: AddressSpace?)
    requires pmm.Valid() && pmm.free == pmm.managed
    requires cr3 % 4096 == 0 && cr3 / 4096 * 512 + 512 <= pmm.ram.Length
    requires cr3 / 4096 !in pmm.managed && cr3 / 4096 !in pmm.BitmapFrames()
    modifies pmm`freePages, pmm`free, pmm.ram
    ensures pmm.Valid()
    ensures vmm == null ==> pmm.managed == {}
    ensures vmm != null ==>
      && fresh(vmm) && vmm.pmm == pmm && vmm.Valid() && |pmm.free| == |pmm.managed| - 1
      && HeapTables(vmm.tree, 0) && HeapMapped(vmm.tree.leaf, 0, vmm.DataFrames())
  {
    var v := new AddressSpace(pmm);
    v.Init(cr3);
    if v.pml4 == 0 {
      return null;
    }
    ghost var root := v.pml4 / 4096;
    NoHeapYet(root);
    assert v.TableFrames() == {root};
    assert v.DataFrames() == {};
    vmm := v;
  }

  method StartChunks(vmm: AddressSpace) returns (heap: KernelHeap?)
    requires vmm.Valid() && |vmm.pmm.free| == |vmm.pmm.managed| - 1
    requires HeapTables(vmm.tree, 0) && HeapMapped(vmm.tree.leaf, 0, vmm.DataFrames())
    modifies vmm`tree, vmm.pmm`freePages, vmm.pmm`free, vmm.pmm.ram
    ensures vmm.pmm.Valid()
    ensures 1029 <= |vmm.pmm.managed| ==>
      && heap != null && heap.vmm == vmm && heap.Valid()
      && heap.pages == HEAP_INITIAL_PAGES && heap.chunks == Initial(HEAP_START, heap.heapEnd)
      && vmm.pmm.freePages == |vmm.pmm.managed| - 1029
  {
    heap := null;
    var h := new KernelHeap(vmm);
    var r := h.Init();
    if r.Returned? {
      heap := h;
    }
  }

  lemma ChosenInUsable(m: seq<Entry>, total: nat, bitmap: nat, own: set<nat>, frame: nat, ramWords: nat)
    requires ValidMap(m, ramWords) && !InUsableEntry(m, frame)
    requires exists i: nat :: Chosen(m, i, total) && bitmap * 8 == m[i].base && own <= m[i].Pages()
    ensures frame !in own && frame !in UsablePages(m, |m|)
  {
    UsableAre(m, ramWords);
    var i: nat :| Chosen(m, i, total) && bitmap * 8 == m[i].base && own <= m[i].Pages();
    EntryInUsable(m, i, |m|);
  }

  // ---- The first request after boot ------------------------------------------------------------

  /** The first block taken from the fresh heap: it does not fit, and growth faults, if and only
      if it is larger than 4 MiB - 32, and not so large that rounding up wraps round to 0. */
  lemma FirstRequest(n: u64)
    ensures var cs := Initial(HEAP_START, HEAP_START + 4096 * HEAP_INITIAL_PAGES);
            FirstFit(cs, Align8(n)) == |cs| <==> 4096 * HEAP_INITIAL_PAGES - 32 < n <= W64 - 8
  {
    Align8Value(n);
    var cs := Initial(HEAP_START, HEAP_START + 4096 * HEAP_INITIAL_PAGES);
    FirstFitIs(cs, Align8(n), if Fit(cs[0], Align8(n)) then 0 else 1);
  }

  /** Framebuffer::init, which makes that request: a back buffer for the screen. */
  method BackBuffer(heap: KernelHeap, height: u64, pitch: u64) returns (r: Outcome)
    requires heap.Valid() && heap.pages == HEAP_INITIAL_PAGES
    requires heap.chunks == Initial(HEAP_START, heap.heapEnd)
    modifies heap`heapEnd, heap`pages, heap`headers, heap`chunks
    modifies heap.vmm`tree, heap.vmm.pmm`freePages, heap.vmm.pmm`free, heap.vmm.pmm.ram
    ensures var bytes: u64 := height * pitch % 0x1_0000_0000_0000_0000;
            r.PageFault? <==> 4096 * HEAP_INITIAL_PAGES - 32 < bytes <= W64 - 8
  {
    var bytes: u64 := height * pitch % 0x1_0000_0000_0000_0000;
    FirstRequest(bytes);
    r := heap.Kmalloc(bytes);
  }

  /** A screen of 1920 by 1080 pixels of four bytes is too large: boot page-faults. */
  lemma FullHdFaults()
    ensures var cs := Initial(HEAP_START, HEAP_START + 4096 * HEAP_INITIAL_PAGES);
            FirstFit(cs, Align8(1080 * 7680)) == |cs|
  {
    FirstRequest(1080 * 7680);
  }
}
