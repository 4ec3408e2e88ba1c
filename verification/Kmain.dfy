/** Processes on the heap, and the end of the kernel's boot: creating processes, starting
    them, and the first timer interrupt. */
module Kmain {
  import opened Words
  import opened HeapPages
  import opened Chunks
  import opened Heap
  import opened Machine
  import opened Scheduling
  import opened Processes

  /** sizeof(Process) */
  const RECORD: u64 := 40

  const STACK_SIZE: u64 := 16384

  // ---- Stacks in heap blocks ------------------------------------------------------------------

  /** The stack of p is a live block. */
  ghost predicate StackIn(cs: Layout, p: Proc)
  {
    exists c :: c in Live(cs) && c.Data() == p.stack && STACK_SIZE <= c.size
  }

  ghost predicate OnHeap(cs: Layout, procs: seq<Proc>)
  {
    forall i :: 0 <= i < |procs| ==> StackIn(cs, procs[i])
  }

  lemma AllocKeepsStacks(cs: Layout, lo: nat, hi: nat, k: nat, n: nat, procs: seq<Proc>)
    requires Tiles(cs, lo, hi) && k < |cs| && Fit(cs[k], n) && OnHeap(cs, procs)
    ensures OnHeap(AllocAt(cs, k, n), procs)
  {
    AllocLive(cs, lo, hi, k, n);
    forall i | 0 <= i < |procs|
      ensures StackIn(AllocAt(cs, k, n), procs[i])
    {
      assert StackIn(cs, procs[i]);
      var c :| c in Live(cs) && c.Data() == procs[i].stack && STACK_SIZE <= c.size;
    }
  }

  /** kfree of any block that is not a stack leaves every stack live. */
  lemma FreeKeepsStacks(cs: Layout, lo: nat, hi: nat, a: nat, procs: seq<Proc>)
    requires Good(cs, lo, hi) && OnHeap(cs, procs)
    requires forall i :: 0 <= i < |procs| ==> procs[i].stack != a + 32
    ensures OnHeap(Free(cs, a), procs)
  {
    FreeGood(cs, lo, hi, a);
    forall i | 0 <= i < |procs|
      ensures StackIn(Free(cs, a), procs[i])
    {
      assert StackIn(cs, procs[i]);
      var c :| c in Live(cs) && c.Data() == procs[i].stack && STACK_SIZE <= c.size;
    }
  }

  /** A stack that kmalloc returns is apart from all stacks that are live, and with the next
      pid this is all that creating a process needs. */
  lemma NewStackApart(cs: Layout, lo: nat, hi: nat, k: nat, n: nat, s: Sys, pid: nat)
    requires Tiles(cs, lo, hi) && hi < W64 && k < |cs| && Fit(cs[k], n) && STACK_SIZE <= n
    requires OnHeap(cs, s.procs) && forall i :: 0 <= i < |s.procs| ==> s.procs[i].pid < pid
    ensures CanCreate(s, pid, cs[k].Data())
    ensures OnHeap(AllocAt(cs, k, n), Insert(s.procs, NewProc(pid, cs[k].Data())))
  {
    var ds, t, new' := AllocAt(cs, k, n), Taken(cs[k], n), NewProc(pid, cs[k].Data());
    AllocLive(cs, lo, hi, k, n);
    AllocTiles(cs, lo, hi, k, n);
    Bounds(cs, lo, hi, k);
    forall i | 0 <= i < |s.procs|
      ensures Apart(s.procs[i], new')
    {
      assert StackIn(cs, s.procs[i]);
      var c :| c in Live(cs) && c.Data() == s.procs[i].stack && STACK_SIZE <= c.size;
      LiveDisjoint(ds, lo, hi, c, t);
    }
    AllocKeepsStacks(cs, lo, hi, k, n, s.procs);
    assert StackIn(ds, new');
  }

  // ---- create_process on the heap -------------------------------------------------------------------

  /** The scheduler's state is sound, and every stack is a live heap block. */
  ghost predicate Sound(kernel: Kernel, heap: KernelHeap)
    reads kernel, kernel.ring, heap, heap.vmm, heap.vmm.pmm, heap.vmm.pmm.ram
  {
    && heap.Valid() && heap.pages + 64 < MAX_PAGES
    && kernel.Linked() && kernel.rsp < W64 && Inv(kernel.Abstract())
    && OnHeap(heap.chunks, kernel.Procs())
  }

  /** The layout after the two allocations of create_process, if both fit. */
  ghost predicate BothFit(cs: Layout)
  {
    && FirstFit(cs, RECORD) < |cs|
    && var ds := AllocAt(cs, FirstFit(cs, RECORD), RECORD);
       FirstFit(ds, STACK_SIZE) < |ds|
  }

  /** The layout after both. */
  ghost function AfterBoth(cs: Layout): Layout
    requires BothFit(cs)
  {
    var ds := AllocAt(cs, FirstFit(cs, RECORD), RECORD);
    AllocAt(ds, FirstFit(ds, STACK_SIZE), STACK_SIZE)
  }

  // ---- How many processes fit ------------------------------------------------------------------------

  /** Every chunk is in use but the last, which has this many bytes free; or no chunk is free. */
  ghost predicate Room(cs: Layout, size: nat)
  {
    && cs != [] && (forall i :: 0 <= i < |cs| - 1 ==> cs[i].used)
    && if cs[|cs| - 1].used then size == 0 else cs[|cs| - 1].size == size
  }

  /** An allocation from the last chunk. */
  lemma RoomAlloc(cs: Layout, size: nat, n: nat)
    requires Room(cs, size) && 0 < n
    ensures var k := FirstFit(cs, n);
            && (k < |cs| <==> n <= size)
            && (n <= size ==> Room(AllocAt(cs, k, n), if n + 40 <= size then size - n - 32 else 0))
  {
    var last := |cs| - 1;
    FirstFitIs(cs, n, if n <= size then last else |cs|);
    if n <= size {
      AllocCarves(cs, last, n);
      var r := AllocAt(cs, last, n);
      assert forall i :: 0 <= i < last ==> r[i] == cs[i];
    }
  }

  /** What creating a process leaves of a free tail. */
  function Left(size: nat): nat { if 16496 <= size then size - 16488 else 0 }

  /** Creating a process takes 16488 bytes off a free tail, and works exactly if there are 16456. */
  lemma RoomBoth(cs: Layout, size: nat)
    requires Room(cs, size)
    ensures BothFit(cs) <==> 16456 <= size
    ensures 16456 <= size ==> Room(AfterBoth(cs), Left(size))
  {
    RoomAlloc(cs, size, RECORD);
    if 40 <= size {
      var ds, rest := AllocAt(cs, FirstFit(cs, RECORD), RECORD), if 80 <= size then size - 72 else 0;
      RoomAlloc(ds, rest, STACK_SIZE);
    }
  }

  /** count processes fit a free tail of this size. */
  predicate Enough(size: nat, count: nat) { count == 0 || 16456 + 16488 * (count - 1) <= size }

  lemma RoomStep(cs: Layout, size: nat, count: nat)
    requires Room(cs, size) && 0 < count
    ensures Enough(size, count) <==> BothFit(cs) && Enough(Left(size), count - 1)
    ensures BothFit(cs) ==> Room(AfterBoth(cs), Left(size))
  {
    RoomBoth(cs, size);
  }

  /** A block from the heap. */
  method Block(heap: KernelHeap, n: u64) returns (r: Outcome)
    requires heap.Valid() && heap.pages + 64 < MAX_PAGES && n % 8 == 0 && n <= STACK_SIZE
    modifies heap`heapEnd, heap`pages, heap`headers, heap`chunks
    modifies heap.vmm`tree, heap.vmm.pmm`freePages, heap.vmm.pmm`free, heap.vmm.pmm.ram
    ensures var k := FirstFit(old(heap.chunks), n);
            if k < |old(heap.chunks)| then
              && heap.Valid() && heap.pages == old(heap.pages) && heap.chunks == AllocAt(old(heap.chunks), k, n)
              && r == Returned(old(heap.chunks)[k].Data())
            else
              r.PageFault?
  {
    Align8Value(n);
    r := heap.Kmalloc(n);
  }

  /** A live block of at least n bytes of data at this address. */
  ghost predicate Holds(cs: Layout, data: nat, n: nat)
  {
    exists c :: c in Live(cs) && c.addr + 32 == data && n <= c.size
  }

  /** The record has 40 bytes and the stack 16384, and each is apart from the other and from all
      blocks that were live before, stacks and records among them. */
  ghost predicate Placed(before: Layout, record: nat, stack: nat, after: Layout)
  {
    && Holds(after, record, 40) && Holds(after, stack, 16384)
    && (record + 40 <= stack || stack + 16384 <= record)
    && Live(before) <= Live(after)
    && forall c :: c in Live(before) ==>
         && (record + 40 <= c.addr || c.addr + 32 + c.size <= record)
         && (stack + 16384 <= c.addr || c.addr + 32 + c.size <= stack)
  }

  /** Where the record goes, and the stack. */
  ghost function RecordAt(cs: Layout): nat
    requires BothFit(cs)
  {
    cs[FirstFit(cs, RECORD)].addr + 32
  }

  ghost function StackAt(cs: Layout): nat
    requires BothFit(cs)
  {
    var ds := AllocAt(cs, FirstFit(cs, RECORD), RECORD);
    ds[FirstFit(ds, STACK_SIZE)].addr + 32
  }

  lemma BothPlaced(cs: Layout, lo: nat, hi: nat)
    requires Tiles(cs, lo, hi) && BothFit(cs)
    ensures Placed(cs, RecordAt(cs), StackAt(cs), AfterBoth(cs))
  {
    var k := FirstFit(cs, RECORD);
    var ds := AllocAt(cs, k, RECORD);
    var l := FirstFit(ds, STACK_SIZE);
    var es, t, u := AfterBoth(cs), Taken(cs[k], RECORD), Taken(ds[l], STACK_SIZE);
    AllocLive(cs, lo, hi, k, RECORD);
    AllocTiles(cs, lo, hi, k, RECORD);
    AllocLive(ds, lo, hi, l, STACK_SIZE);
    AllocTiles(ds, lo, hi, l, STACK_SIZE);
    LiveDisjoint(es, lo, hi, t, u);
    assert t in Live(es) && u in Live(es);
    forall c | c in Live(cs)
      ensures t.End() <= c.addr || c.End() <= t.addr
      ensures u.End() <= c.addr || c.End() <= u.addr
    {
      LiveDisjoint(es, lo, hi, c, t);
      LiveDisjoint(es, lo, hi, c, u);
    }
  }

  /** The two blocks are all that creating a process needs. */
  lemma BothServe(cs: Layout, lo: nat, hi: nat, s: Sys, pid: nat)
    requires Tiles(cs, lo, hi) && hi < W64 && BothFit(cs)
    requires OnHeap(cs, s.procs) && forall i :: 0 <= i < |s.procs| ==> s.procs[i].pid < pid
    ensures CanCreate(s, pid, StackAt(cs)) && OnHeap(AfterBoth(cs), Insert(s.procs, NewProc(pid, StackAt(cs))))
  {
    var k := FirstFit(cs, RECORD);
    var ds := AllocAt(cs, k, RECORD);
    AllocKeepsStacks(cs, lo, hi, k, RECORD, s.procs);
    AllocTiles(cs, lo, hi, k, RECORD);
    NewStackApart(ds, lo, hi, FirstFit(ds, STACK_SIZE), STACK_SIZE, s, pid);
  }

  lemma FreshHeapFits()
    ensures BothFit(Initial(HEAP_START, HEAP_START + 0x40_0000))
  {
    RoomBoth(Initial(HEAP_START, HEAP_START + 0x40_0000), 0x40_0000 - 32);
  }

  /** The two calls of kmalloc in create_process: the record, then the stack. */
  method Blocks(heap: KernelHeap, ghost s: Sys, ghost pid: nat) returns (r: Outcome, record: nat)
    requires heap.Valid() && heap.pages + 64 < MAX_PAGES
    requires OnHeap(heap.chunks, s.procs) && forall i :: 0 <= i < |s.procs| ==> s.procs[i].pid < pid
    modifies heap`heapEnd, heap`pages, heap`headers, heap`chunks
    modifies heap.vmm`tree, heap.vmm.pmm`freePages, heap.vmm.pmm`free, heap.vmm.pmm.ram
    ensures r.Returned? <==> BothFit(old(heap.chunks))
    ensures r.Returned? ==>
      && heap.Valid() && heap.pages == old(heap.pages) && CanCreate(s, pid, r.ptr)
      && OnHeap(heap.chunks, Insert(s.procs, NewProc(pid, r.ptr)))
      && heap.chunks == AfterBoth(old(heap.chunks)) && Placed(old(heap.chunks), record, r.ptr, heap.chunks)
  {
    if BothFit(heap.chunks) {
      BothServe(heap.chunks, HEAP_START, heap.heapEnd, s, pid);
      BothPlaced(heap.chunks, HEAP_START, heap.heapEnd);
    }
    r, record := TwoBlocks(heap);
  }

  /** The stack; the record's place is not needed further on. */
  method StackFor(ghost kernel: Kernel, heap: KernelHeap, ghost s: Sys, ghost pid: nat) returns (r: Outcome)
    requires kernel.rsp < W64
    requires heap.Valid() && heap.pages + 64 < MAX_PAGES
    requires OnHeap(heap.chunks, s.procs) && forall i :: 0 <= i < |s.procs| ==> s.procs[i].pid < pid
    modifies heap`heapEnd, heap`pages, heap`headers, heap`chunks
    modifies heap.vmm`tree, heap.vmm.pmm`freePages, heap.vmm.pmm`free, heap.vmm.pmm.ram
    ensures r.Returned? <==> BothFit(old(heap.chunks))
    ensures r.Returned? ==>
      && heap.Valid() && heap.pages == old(heap.pages) && CanCreate(s, pid, r.ptr)
      && OnHeap(heap.chunks, Insert(s.procs, NewProc(pid, r.ptr)))
      && heap.chunks == AfterBoth(old(heap.chunks))
    ensures kernel.rsp < W64 && kernel.Abstract() == old(kernel.Abstract())
  {
    var record: nat;
    r, record := Blocks(heap, s, pid);
  }

  method TwoBlocks(heap: KernelHeap) returns (r: Outcome, record: nat)
    requires heap.Valid() && heap.pages + 64 < MAX_PAGES
    modifies heap`heapEnd, heap`pages, heap`headers, heap`chunks
    modifies heap.vmm`tree, heap.vmm.pmm`freePages, heap.vmm.pmm`free, heap.vmm.pmm.ram
    ensures r.Returned? <==> BothFit(old(heap.chunks))
    ensures r.Returned? ==>
      && heap.Valid() && heap.pages == old(heap.pages) && heap.chunks == AfterBoth(old(heap.chunks))
      && record == RecordAt(old(heap.chunks)) && r.ptr == StackAt(old(heap.chunks))
  {
    record := 0;
    r := Block(heap, RECORD);
    if r.PageFault? {
      return;
    }
    record := r.ptr;
    r := Block(heap, STACK_SIZE);
  }

  /** create_process with its two calls of kmalloc. It faults, and no process is created, if
      and only if one of them would have to grow the heap; in the fresh heap both fit. */
  method Spawn(kernel: Kernel, heap: KernelHeap, entry: u64) returns (r: Outcome)
    requires Sound(kernel, heap)
    modifies kernel, kernel.ring
    modifies heap`heapEnd, heap`pages, heap`headers, heap`chunks
    modifies heap.vmm`tree, heap.vmm.pmm`freePages, heap.vmm.pmm`free, heap.vmm.pmm.ram
    ensures r.Returned? <==> BothFit(old(heap.chunks))
    ensures old(heap.chunks) == Initial(HEAP_START, HEAP_START + 0x40_0000) ==> r.Returned?
    ensures r.PageFault? ==> unchanged(kernel) && unchanged(kernel.ring)
    ensures r.Returned? ==>
      && Sound(kernel, heap) && heap.chunks == AfterBoth(old(heap.chunks))
      && kernel.nextPid == old(kernel.nextPid) + 1
      && CanCreate(old(kernel.Abstract()), old(kernel.nextPid), r.ptr)
      && kernel.Abstract() == Create(old(kernel.Abstract()), old(kernel.nextPid), entry, old(kernel.cs), r.ptr)
    ensures forall p :: p in kernel.records ==> p in old(kernel.records) || fresh(p)
  {
    FreshHeapFits();
    r := SpawnOn(kernel, heap, entry, kernel.Abstract());
  }

  method SpawnOn(kernel: Kernel, heap: KernelHeap, entry: u64, ghost s: Sys) returns (r: Outcome)
    requires Sound(kernel, heap) && s == kernel.Abstract()
    modifies kernel, kernel.ring
    modifies heap`heapEnd, heap`pages, heap`headers, heap`chunks
    modifies heap.vmm`tree, heap.vmm.pmm`freePages, heap.vmm.pmm`free, heap.vmm.pmm.ram
    ensures r.Returned? <==> BothFit(old(heap.chunks))
    ensures r.PageFault? ==> unchanged(kernel) && unchanged(kernel.ring)
    ensures r.Returned? ==>
      && Sound(kernel, heap) && heap.chunks == AfterBoth(old(heap.chunks))
      && kernel.nextPid == old(kernel.nextPid) + 1
      && CanCreate(s, old(kernel.nextPid), r.ptr)
      && kernel.Abstract() == Create(s, old(kernel.nextPid), entry, old(kernel.cs), r.ptr)
    ensures forall p :: p in kernel.records ==> p in old(kernel.records) || fresh(p)
  {
    kernel.PidIsNew();
    r := StackFor(kernel, heap, s, kernel.nextPid);
    if r.Returned? {
      CreateWith(kernel, heap, entry, r.ptr, s);
    }
  }

  /** create_process once it has its blocks. */
  method CreateWith(kernel: Kernel, ghost heap: KernelHeap, entry: u64, stack: nat, ghost s: Sys)
    requires kernel.Linked() && kernel.rsp < W64 && s == kernel.Abstract() && Inv(s)
    requires heap.Valid() && heap.pages + 64 < MAX_PAGES
    requires CanCreate(s, kernel.nextPid, stack)
    requires OnHeap(heap.chunks, Insert(s.procs, NewProc(kernel.nextPid, stack)))
    modifies kernel, kernel.ring
    ensures Sound(kernel, heap) && kernel.nextPid == old(kernel.nextPid) + 1 && heap.chunks == old(heap.chunks)
    ensures kernel.Abstract() == Create(s, old(kernel.nextPid), entry, old(kernel.cs), stack)
    ensures forall p :: p in kernel.records ==> p in old(kernel.records) || fresh(p)
  {
    CreateInv(s, kernel.nextPid, entry, kernel.cs, stack);
    kernel.CreateProcess(entry, stack);
  }

  // ---- The end of kmain ---------------------------------------------------------------------------------

  /** The processes that have been created from the given entries: the first one leads, and the
      latest is next in turn. */
  ghost predicate Created(s: Sys, entries: seq<u64>, cs: u64)
  {
    && !s.running && s.cpu.cs == cs && |s.procs| == |entries|
    && (entries != [] ==> StartsAt(s, 0, entries[0], cs))
    && (1 < |entries| ==> StartsAt(s, 1, entries[|entries| - 1], cs))
  }

  /** The process at index i is about to start at entry. */
  ghost predicate StartsAt(s: Sys, i: nat, entry: u64, cs: u64)
  {
    i < |s.procs| && s.procs[i].Top() < W64 && ViewAt(s, i) == View(Fresh(entry, cs, s.procs[i].Top()), map[])
  }

  lemma CreatedNext(s: Sys, entries: seq<u64>, cs: u64, pid: nat, entry: u64, stack: nat)
    requires Inv(s) && Created(s, entries, cs) && CanCreate(s, pid, stack)
    ensures Created(Create(s, pid, entry, cs, stack), entries + [entry], cs)
  {
    CreateFresh(s, pid, entry, cs, stack);
    if entries != [] {
      CreateOthers(s, pid, entry, cs, stack, 0);
    }
  }

  lemma Prefix(entries: seq<u64>, i: nat)
    requires i < |entries|
    ensures entries[..i + 1] == entries[..i] + [entries[i]]
  {
  }

  /** Creates the process for entry i. */
  method SpawnNext(kernel: Kernel, heap: KernelHeap, entries: seq<u64>, i: nat, ghost cs: u64) returns (r: Outcome)
    requires i < |entries| && Sound(kernel, heap) && Created(kernel.Abstract(), entries[..i], cs)
    modifies kernel, kernel.ring
    modifies heap`heapEnd, heap`pages, heap`headers, heap`chunks
    modifies heap.vmm`tree, heap.vmm.pmm`freePages, heap.vmm.pmm`free, heap.vmm.pmm.ram
    ensures r.Returned? <==> BothFit(old(heap.chunks))
    ensures r.Returned? ==> Sound(kernel, heap) && Created(kernel.Abstract(), entries[..i + 1], cs)
    ensures r.Returned? ==> heap.chunks == AfterBoth(old(heap.chunks))
    ensures forall p :: p in kernel.records ==> p in old(kernel.records) || fresh(p)
  {
    ghost var s, pid := kernel.Abstract(), kernel.nextPid;
    r := Spawn(kernel, heap, entries[i]);
    if r.Returned? {
      CreatedNext(s, entries[..i], cs, pid, entries[i], r.ptr);
      Prefix(entries, i);
    }
  }

  /** Creates a process for each entry from entry i on. It stops at the first that does not fit
      the heap. */
  method SpawnFrom(kernel: Kernel, heap: KernelHeap, entries: seq<u64>, i: nat, ghost cs: u64, ghost size: nat)
    returns (r: Outcome)
    requires i <= |entries| && Sound(kernel, heap) && Created(kernel.Abstract(), entries[..i], cs)
    modifies kernel, kernel.records
    modifies heap`heapEnd, heap`pages, heap`headers, heap`chunks
    modifies heap.vmm`tree, heap.vmm.pmm`freePages, heap.vmm.pmm`free, heap.vmm.pmm.ram
    ensures r.Returned? ==> Sound(kernel, heap) && Created(kernel.Abstract(), entries[..|entries|], cs)
    ensures old(Room(heap.chunks, size)) ==> (r.Returned? <==> Enough(size, |entries| - i))
    ensures forall p :: p in kernel.records ==> p in old(kernel.records) || fresh(p)
    decreases |entries| - i
  {
    if i == |entries| {
      return Returned(0);
    }
    if Room(heap.chunks, size) {
      RoomStep(heap.chunks, size, |entries| - i);
    }
    r := SpawnNext(kernel, heap, entries, i, cs);
    if r.Returned? {
      r := SpawnFrom(kernel, heap, entries, i + 1, cs, Left(size));
    }
  }

  /** From the boot code at cpu to the first process, and one timer interrupt later to the one
      created last: each starts at its entry, with zeroed registers and an empty stack. */
  method Launch(cpu: Context, mem: Memory, heap: KernelHeap, entries: seq<u64>, clobbered: Gpr)
    returns (kernel: Kernel, r: Outcome)
    requires AllRegs(cpu.gpr) && heap.Valid() && heap.pages + 64 < MAX_PAGES
    requires 1 < |entries| && RAX in clobbered
    modifies heap`heapEnd, heap`pages, heap`headers, heap`chunks
    modifies heap.vmm`tree, heap.vmm.pmm`freePages, heap.vmm.pmm`free, heap.vmm.pmm.ram
    ensures fresh(kernel)
    ensures old(heap.chunks) == Initial(HEAP_START, HEAP_START + 0x40_0000) ==> (r.Returned? <==> |entries| <= 254)
    ensures r.Returned? ==>
      && (forall reg: Reg :: reg in kernel.gpr && kernel.gpr[reg] == 0)
      && kernel.rip == entries[|entries| - 1] && kernel.cs == cpu.cs && kernel.ss == 0 && Bit(kernel.rflags, 9)
      && kernel.ring != [] && kernel.rsp == kernel.ring[0].stack + 16384
    ensures r.Returned? ==>
      && kernel.rsp < W64 && kernel.Linked() && Inv(kernel.Abstract()) && kernel.running
      && |kernel.Procs()| == |entries| && kernel.Procs()[0].Top() < W64
      && kernel.Cpu() == Fresh(entries[|entries| - 1], cpu.cs, kernel.Procs()[0].Top())
  {
    kernel := new Kernel(cpu, mem);
    r := SpawnAndStart(kernel, heap, entries, cpu.cs, clobbered, 0x40_0000 - 32);
    if r.Returned? {
      FreshStarts(entries[|entries| - 1], cpu.cs, kernel.Procs()[0].stack);
    }
  }

  method SpawnAndStart(kernel: Kernel, heap: KernelHeap, entries: seq<u64>, ghost cs: u64, clobbered: Gpr,
                       ghost size: nat)
    returns (r: Outcome)
    requires 1 < |entries| && RAX in clobbered
    requires Sound(kernel, heap) && Created(kernel.Abstract(), entries[..0], cs) && kernel.records == {}
    modifies kernel
    modifies heap`heapEnd, heap`pages, heap`headers, heap`chunks
    modifies heap.vmm`tree, heap.vmm.pmm`freePages, heap.vmm.pmm`free, heap.vmm.pmm.ram
    ensures old(Room(heap.chunks, size)) ==> (r.Returned? <==> Enough(size, |entries|))
    ensures r.Returned? ==>
      && kernel.Linked() && kernel.rsp < W64 && Inv(kernel.Abstract()) && kernel.running
      && |kernel.Procs()| == |entries| && kernel.Procs()[0].Top() < W64
      && kernel.Cpu() == Fresh(entries[|entries| - 1], cs, kernel.Procs()[0].Top())
  {
    r := SpawnFrom(kernel, heap, entries, 0, cs, size);
    if r.Returned? {
      assert entries[..|entries|] == entries;
      FirstTurns(kernel, entries, cs, clobbered);
    }
  }

  lemma FirstTurn(s: Sys, gpr: Gpr, entries: seq<u64>, cs: u64)
    requires Inv(s) && Created(s, entries, cs) && 1 < |entries|
    ensures var s1 := Begin(s, gpr);
            && Inv(s1) && s1.running && TickReady(s1, map[]) && |s1.procs| == |entries|
            && s1.cpu == Fresh(entries[0], cs, s1.procs[0].Top())
            && StartsAt(s1, 1, entries[|entries| - 1], cs)
  {
    BeginTransparent(s, gpr, 0);
    BeginTransparent(s, gpr, 1);
    var s1 := Begin(s, gpr);
    assert s1.cpu == ViewAt(s1, 0).ctx == ViewAt(s, 0).ctx;
  }

  lemma SecondTurn(s: Sys, entry: u64, cs: u64)
    requires Inv(s) && TickReady(s, map[]) && StartsAt(s, 1, entry, cs)
    ensures var s1 := Timer(s, map[], map[]);
            && Inv(s1) && s1.running && |s1.procs| == |s.procs|
            && s1.procs[0].Top() < W64 && s1.cpu == Fresh(entry, cs, s1.procs[0].Top())
  {
    TickInv(s, map[], map[]);
    TickTransparent(s, map[], map[], 0);
    SwitchAt(s.procs, FramePointer(s.cpu), 0);
    var s1 := Timer(s, map[], map[]);
    assert s1.cpu == ViewAt(s1, 0).ctx == ViewAt(s, 1).ctx;
  }

  /** start_scheduling, and a timer interrupt before the first process has done anything. */
  method FirstTurns(kernel: Kernel, ghost entries: seq<u64>, ghost cs: u64, clobbered: Gpr)
    requires kernel.Linked() && kernel.rsp < W64 && Inv(kernel.Abstract())
    requires Created(kernel.Abstract(), entries, cs) && 1 < |entries| && RAX in clobbered
    modifies kernel, kernel.ring
    ensures kernel.Linked() && kernel.rsp < W64 && Inv(kernel.Abstract()) && kernel.running
    ensures |kernel.Procs()| == |entries| && kernel.Procs()[0].Top() < W64
    ensures kernel.Cpu() == Fresh(entries[|entries| - 1], cs, kernel.Procs()[0].Top())
  {
    FirstTurn(kernel.Abstract(), kernel.gpr, entries, cs);
    kernel.StartScheduling();
    SecondTurn(kernel.Abstract(), entries[|entries| - 1], cs);
    kernel.InterruptStubTimer(map[], clobbered);
  }
}
