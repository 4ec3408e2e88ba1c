/** The physical page allocator: a bitmap of 64-bit words, one bit a page, stored
    inside the memory it describes. Addresses are physical: the higher-half offset
    the kernel adds to reach them is erased. */
module Pmm {
  import opened Words

  /** The n numbers from lo on. */
  ghost function Interval(lo: nat, n: nat): (r: set<nat>)
    ensures forall p :: p in r <==> lo <= p < lo + n
    ensures |r| == n
  {
    if n == 0 then {} else Interval(lo, n - 1) + {lo + n - 1}
  }

  /** The entry type value 0 of the boot loader's memory map. */
  const USABLE: nat := 0

  datatype Entry = Entry(base: u64, length: u64, kind: nat) {
    predicate Usable() { kind == USABLE }
    function Top(): nat { base + length }
    ghost function Pages(): set<nat> { Interval(base / 4096, length / 4096) }
  }

  /** What the Limine boot protocol promises of its usable entries: page aligned,
      not overlapping, page 0 excluded; and that they describe memory that exists. */
  ghost predicate ValidMap(m: seq<Entry>, ramWords: nat)
  {
    && (forall e :: e in m && e.kind == 0 ==>
          e.base % 4096 == 0 && e.length % 4096 == 0 && 4096 <= e.base && e.base + e.length <= 8 * ramWords)
    && (forall i, j :: 0 <= i < j < |m| && m[i].kind == 0 && m[j].kind == 0 ==> Disjoint(m[i], m[j]))
  }

  /** No byte belongs to both entries. */
  ghost predicate Disjoint(d: Entry, e: Entry)
  {
    d.length == 0 || e.length == 0 || d.base + d.length <= e.base || e.base + e.length <= d.base
  }

  lemma DisjointPages(d: Entry, e: Entry)
    requires Disjoint(d, e) && d.base % 4096 == d.length % 4096 == e.base % 4096 == e.length % 4096 == 0
    ensures d.Pages() !! e.Pages()
  {
    forall p | p in d.Pages()
      ensures p !in e.Pages()
    {
      PageInEntry(d, p);
      PageInEntry(e, p);
    }
  }

  /** A page of an aligned entry is one whose bytes lie in it. */
  lemma PageInEntry(e: Entry, p: nat)
    requires e.base % 4096 == e.length % 4096 == 0
    ensures p in e.Pages() <==> e.base <= p * 4096 < e.base + e.length
  {
  }

  /** top is where the highest usable entry ends, or 0 if there is none. */
  ghost predicate IsHighest(m: seq<Entry>, top: nat)
  {
    && (forall e :: e in m && e.kind == 0 ==> e.base + e.length <= top)
    && (top == 0 || exists e :: e in m && e.kind == 0 && e.base + e.length == top)
  }

  /** Large enough to hold the bitmap of total pages. */
  predicate Fits(e: Entry, total: nat)
  {
    e.kind == 0 && e.length >= (total + 63) / 64 * 8
  }

  /** Entry i is the one the bitmap goes into. */
  ghost predicate Chosen(m: seq<Entry>, i: nat, total: nat)
  {
    i < |m| && Fits(m[i], total) && forall k :: 0 <= k < i ==> !Fits(m[k], total)
  }

  /** The pages of the usable entries among the first n. */
  ghost function UsablePages(m: seq<Entry>, n: nat): set<nat>
    requires n <= |m|
  {
    if n == 0 then {}
    else UsablePages(m, n - 1) + if m[n - 1].Usable() then m[n - 1].Pages() else {}
  }

  /** The page at p lies in an entry that the boot loader calls usable. */
  ghost predicate InUsableEntry(m: seq<Entry>, p: nat)
  {
    exists e :: e in m && e.kind == 0 && e.base <= p * 4096 < e.base + e.length
  }

  /** UsablePages in terms of the fields of the entries. */
  lemma {:induction false} UsablePagesAre(m: seq<Entry>, n: nat, ramWords: nat, p: nat)
    requires ValidMap(m, ramWords) && n <= |m|
    ensures p in UsablePages(m, n) <==> InUsableEntry(m[..n], p)
  {
    if n != 0 {
      UsablePagesAre(m, n - 1, ramWords, p);
      var last := m[n - 1];
      assert m[..n] == m[..n - 1] + [last] && last in m;
      if last.kind == 0 {
        PageInEntry(last, p);
      }
    }
  }

  lemma UsableAre(m: seq<Entry>, ramWords: nat)
    requires ValidMap(m, ramWords)
    ensures forall p: nat :: p in UsablePages(m, |m|) <==> InUsableEntry(m, p)
  {
    assert m[..|m|] == m;
    forall p: nat
      ensures p in UsablePages(m, |m|) <==> InUsableEntry(m, p)
    {
      UsablePagesAre(m, |m|, ramWords, p);
    }
  }

  /** The page at p holds a byte of the bitmap, which has 8 bytes for each 64 pages begun. */
  ghost predicate HasBitmapByte(bitmap: nat, total: nat, p: nat)
  {
    bitmap * 8 < p * 4096 + 4096 && p * 4096 < bitmap * 8 + (total + 63) / 64 * 8
  }

  /** The managed frames: every usable page that holds no part of the bitmap. */
  ghost predicate Manages(managed: set<nat>, m: seq<Entry>, bitmap: nat, total: nat)
  {
    forall p: nat :: p in managed <==> InUsableEntry(m, p) && !HasBitmapByte(bitmap, total, p)
  }

  /** No usable entry is long enough for the bitmap. */
  ghost predicate NoPlace(m: seq<Entry>, total: nat)
  {
    forall e :: e in m ==> !Fits(e, total)
  }

  /** The frames of the bitmap are those with a byte of it. */
  lemma BitmapBytes(bitmap: nat, total: nat, p: nat)
    requires bitmap % 512 == 0
    ensures p in Interval(bitmap / 512, BitmapPages(total)) <==> HasBitmapByte(bitmap, total, p)
  {
    assert bitmap * 8 == bitmap / 512 * 4096;
  }

  /** free has the pages from start to p more than before. */
  ghost predicate Gained(before: set<nat>, free: set<nat>, start: nat, p: nat)
  {
    forall q :: q in free <==> q in before || start <= q < p
  }

  lemma GainedNext(before: set<nat>, free: set<nat>, start: nat, p: nat)
    requires Gained(before, free, start, p) && start <= p && p !in before
    ensures p !in free && Gained(before, free + {p}, start, p + 1)
  {
  }

  lemma PageAddress(f: nat)
    ensures f * 4096 / 4096 == f && f * 4096 % 4096 == 0
  {
  }

  lemma EntryPages(e: Entry, total: nat)
    requires 4096 <= e.base && e.Top() <= total * 4096
    ensures forall p :: p in e.Pages() ==> 0 < p < total
  {
  }

  lemma {:induction false} UsableBelow(m: seq<Entry>, n: nat, ramWords: nat, total: nat)
    requires ValidMap(m, ramWords) && n <= |m|
    requires IsHighest(m, total * 4096)
    ensures forall p :: p in UsablePages(m, n) ==> 0 < p < total
  {
    if n != 0 {
      UsableBelow(m, n - 1, ramWords, total);
      if m[n - 1].Usable() {
        assert m[n - 1] in m;
        EntryPages(m[n - 1], total);
      }
    }
  }

  lemma {:induction false} UsableDisjoint(m: seq<Entry>, n: nat, j: nat, ramWords: nat)
    requires ValidMap(m, ramWords) && n <= j < |m| && m[j].Usable()
    ensures UsablePages(m, n) !! m[j].Pages()
  {
    if n != 0 {
      UsableDisjoint(m, n - 1, j, ramWords);
      assert m[n - 1] in m && m[j] in m;
      if m[n - 1].Usable() {
        DisjointPages(m[n - 1], m[j]);
      }
    }
  }

  lemma {:induction false} EntryInUsable(m: seq<Entry>, i: nat, n: nat)
    requires i < n <= |m| && m[i].Usable()
    ensures m[i].Pages() <= UsablePages(m, n)
  {
    if i + 1 < n {
      EntryInUsable(m, i, n - 1);
    }
  }

  /** The pages of the bitmap lie wholly in an entry that is long enough. */
  lemma BitmapInEntry(e: Entry, total: nat)
    requires Fits(e, total) && e.base % 4096 == 0 && e.length % 4096 == 0
    ensures Interval(e.base / 4096, BitmapPages(total)) <= e.Pages()
    ensures e.base / 8 % 512 == 0 && e.base / 8 / 512 == e.base / 4096
    ensures e.base / 8 + BitmapWords(total) <= e.Top() / 8
  {
    PagesFit(e.length, BitmapWords(total));
    BaseWords(e.base, e.length, BitmapWords(total));
  }

  lemma PagesFit(length: nat, words: nat)
    requires length % 4096 == 0 && words * 8 <= length
    ensures (words * 8 + 4096 - 1) / 4096 <= length / 4096
  {
  }

  lemma BaseWords(base: nat, length: nat, words: nat)
    requires base % 4096 == 0 && words * 8 <= length
    ensures base / 8 % 512 == 0 && base / 8 / 512 == base / 4096
    ensures base / 8 + words <= (base + length) / 8
  {
  }

  lemma BitmapFramesAre(bitmap: nat, total: nat, start: nat, count: nat)
    requires bitmap % 512 == 0 && start == bitmap * 8 / 4096 && count == BitmapPages(total)
    ensures forall p :: p in Interval(bitmap / 512, BitmapPages(total)) <==> start <= p < start + count
  {
    assert bitmap * 8 / 4096 == bitmap / 512;
  }

  lemma UsableEntry(m: seq<Entry>, i: nat, ramWords: nat, total: nat)
    requires ValidMap(m, ramWords) && IsHighest(m, total * 4096)
    requires i < |m| && m[i].Usable()
    ensures 4096 <= m[i].base && m[i].Top() <= total * 4096
  {
    assert m[i] in m;
  }

  function BitmapWords(total: nat): nat { (total + 63) / 64 }

  function BitmapPages(total: nat): nat { (BitmapWords(total) * 8 + 4096 - 1) / 4096 }

  /** Two memories agree outside the n words from lo on. */
  ghost predicate SameOutside(a: seq<u64>, b: seq<u64>, lo: nat, n: nat)
  {
    |a| == |b| && forall k :: 0 <= k < |a| && !(lo <= k < lo + n) ==> b[k] == a[k]
  }

  lemma SameOutsideTrans(a: seq<u64>, b: seq<u64>, c: seq<u64>, lo: nat, n: nat)
    requires SameOutside(a, b, lo, n) && SameOutside(b, c, lo, n)
    ensures SameOutside(a, c, lo, n)
  {
  }

  ghost predicate InRam(ramWords: nat, bitmap: nat, total: nat)
  {
    bitmap + BitmapWords(total) <= ramWords
  }

  /** The bit of frame p is clear. */
  ghost predicate IsFree(mem: seq<u64>, bitmap: nat, p: nat)
    requires bitmap + p / 64 < |mem|
  {
    !Bit(mem[bitmap + p / 64], p % 64)
  }

  /** The bitmap marks exactly the frames of free as free. */
  ghost predicate Represents(mem: seq<u64>, bitmap: nat, total: nat, free: set<nat>)
    requires InRam(|mem|, bitmap, total)
  {
    && (forall p :: p in free ==> p < total)
    && (forall p: nat {:trigger IsFree(mem, bitmap, p)} :: p < total ==> (IsFree(mem, bitmap, p) <==> p in free))
  }

  // ---- Runs of the allocator ---------------------------------------------------

  datatype Event = Allocated(frame: nat) | Exhausted | Freed(frame: nat)

  /** What one call does to the set of free frames. */
  ghost predicate Step(free: set<nat>, e: Event, free': set<nat>)
  {
    match e
    case Allocated(f) => f in free && (forall g :: g in free ==> f <= g) && free' == free - {f}
    case Exhausted => free == {} && free' == {}
    case Freed(f) => f !in free && free' == free + {f}
  }

  ghost predicate IsRun(states: seq<set<nat>>, events: seq<Event>)
  {
    && |states| == |events| + 1
    && forall i :: 0 <= i < |events| ==> Step(states[i], events[i], states[i + 1])
  }

  /** No frame is handed out twice without a free of that frame in between. */
  lemma {:induction false} NoDoubleHandout(states: seq<set<nat>>, events: seq<Event>, i: nat, j: nat, f: nat)
    requires IsRun(states, events)
    requires i < j < |events| && events[i] == events[j] == Allocated(f)
    ensures exists k :: i < k < j && events[k] == Freed(f)
  {
    assert Step(states[i], events[i], states[i + 1]) && Step(states[j], events[j], states[j + 1]);
    if forall k :: i < k < j ==> events[k] != Freed(f) {
      StaysTaken(states, events, i + 1, j, f);
      assert false;
    }
  }

  lemma {:induction false} StaysTaken(states: seq<set<nat>>, events: seq<Event>, i: nat, j: nat, f: nat)
    requires IsRun(states, events)
    requires i <= j <= |events| && f !in states[i]
    requires forall k :: i <= k < j ==> events[k] != Freed(f)
    ensures f !in states[j]
    decreases j - i
  {
    if i < j {
      assert Step(states[i], events[i], states[i + 1]);
      StaysTaken(states, events, i + 1, j, f);
    }
  }

  /** Frees minus allocations. */
  ghost function Net(events: seq<Event>): int
  {
    if events == [] then 0
    else
      var last := events[|events| - 1];
      Net(events[..|events| - 1]) + if last.Freed? then 1 else if last.Allocated? then -1 else 0
  }

  /** Over a run the number of free frames changes by exactly frees minus allocations. */
  lemma {:induction false} RunBalance(states: seq<set<nat>>, events: seq<Event>, n: nat)
    requires IsRun(states, events) && n <= |events|
    ensures |states[n]| == |states[0]| + Net(events[..n])
  {
    if n != 0 {
      RunBalance(states, events, n - 1);
      assert Step(states[n - 1], events[n - 1], states[n]);
      assert events[..n][..n - 1] == events[..n - 1];
    }
  }

  // ---- Bitmap words --------------------------------------------------------------

  lemma SetFrame(mem: seq<u64>, bitmap: nat, total: nat, free: set<nat>, p: nat)
    requires InRam(|mem|, bitmap, total) && p < total && Represents(mem, bitmap, total, free)
    ensures Shl64(1, p % 64) < W64
    ensures var k := bitmap + p / 64; var w := Or(mem[k], Shl64(1, p % 64));
            w < W64 && Represents(mem[k := w], bitmap, total, free - {p})
  {
    var k, b := bitmap + p / 64, p % 64;
    ShlOne(b);
    OrFits64(mem[k], Shl64(1, b));
    var mem' := mem[k := Or(mem[k], Shl64(1, b))];
    forall q: nat | q < total
      ensures IsFree(mem', bitmap, q) <==> q in free && q != p
    {
      assert IsFree(mem, bitmap, q) <==> q in free;
      if q / 64 == p / 64 {
        BitOr(mem[k], Pow2(b), q % 64);
        BitPow2(b, q % 64);
      }
    }
  }

  lemma ClearFrame(mem: seq<u64>, bitmap: nat, total: nat, free: set<nat>, p: nat)
    requires InRam(|mem|, bitmap, total) && p < total && Represents(mem, bitmap, total, free)
    ensures Shl64(1, p % 64) < W64
    ensures var k := bitmap + p / 64; var w := And(mem[k], Not64(Shl64(1, p % 64)));
            w < W64 && Represents(mem[k := w], bitmap, total, free + {p})
  {
    var k, b := bitmap + p / 64, p % 64;
    ShlOne(b);
    Pow2_64();
    AndBound(mem[k], Not64(Pow2(b)));
    var mem' := mem[k := And(mem[k], Not64(Pow2(b)))];
    forall q: nat | q < total
      ensures IsFree(mem', bitmap, q) <==> q in free || q == p
    {
      assert IsFree(mem, bitmap, q) <==> q in free;
      if q / 64 == p / 64 {
        BitAnd(mem[k], Not64(Pow2(b)), q % 64);
        BitNot(Pow2(b), 64, q % 64);
        BitPow2(b, q % 64);
      }
    }
  }

  /** All-ones words mark every frame used. */
  lemma AllSet(mem: seq<u64>, bitmap: nat, total: nat)
    requires InRam(|mem|, bitmap, total)
    requires forall k :: bitmap <= k < bitmap + BitmapWords(total) ==> mem[k] == W64 - 1
    ensures Represents(mem, bitmap, total, {})
  {
    forall p: nat | p < total
      ensures !IsFree(mem, bitmap, p)
    {
      Pow2_64();
      BitNot(0, 64, p % 64);
      BitZero(p % 64);
    }
  }

  // ---- The allocator ----------------------------------------------------------------

  class Allocator {
    const ram: array<u64>
    var bitmap: nat  // index in ram of the first bitmap word; 0 is the null pointer
    var totalPages: nat
    var freePages: nat
    /** The frames the allocator hands out and takes back. */
    ghost var managed: set<nat>

    /** The frames whose bit is clear. */
    ghost var free: set<nat>

    ghost predicate Coherent()
      reads this, ram
    {
      InRam(ram.Length, bitmap, totalPages) && Represents(ram[..], bitmap, totalPages, free)
    }

    ghost function BitmapFrames(): set<nat>
      reads this
    {
      Interval(bitmap / 512, BitmapPages(totalPages))
    }

    ghost predicate Valid()
      reads this, ram
    {
      && ram.Length < 0x2_0000_0000_0000  // physical addresses are below 2^52
      && bitmap != 0 && bitmap % 512 == 0
      && Coherent()
      && totalPages * 512 <= ram.Length
      && (forall p :: p in managed ==> 0 < p < totalPages)
      && managed !! BitmapFrames()
      && free <= managed
      && freePages == |free|
    }

    constructor (ram: array<u64>)
      ensures this.ram == ram && bitmap == 0 && freePages == 0
    {
      this.ram := ram;
      bitmap, totalPages, freePages := 0, 0, 0;
      managed, free := {}, {};
    }

    /** Builds the bitmap from the memory map m. An absent map behaves like an empty one. */
    method Init(m: seq<Entry>)
      requires ValidMap(m, ram.Length) && ram.Length < 0x2_0000_0000_0000
      requires bitmap == 0 && freePages == 0
      modifies this, ram
      ensures IsHighest(m, totalPages * 4096)
      ensures bitmap == 0 <==> NoPlace(m, totalPages)
      ensures bitmap == 0 ==> ram[..] == old(ram[..]) && freePages == 0
      ensures bitmap != 0 ==> Valid()
      ensures bitmap != 0 ==> Manages(managed, m, bitmap, totalPages)
      ensures bitmap != 0 ==> free == managed == UsablePages(m, |m|) - BitmapFrames()
      ensures bitmap != 0 ==>
        exists i: nat :: Chosen(m, i, totalPages) && bitmap * 8 == m[i].base && BitmapFrames() <= m[i].Pages()
      ensures SameOutside(old(ram[..]), ram[..], bitmap, BitmapWords(totalPages))
    {
      var highest := HighestUsable(m);
      totalPages := highest / 4096;
      assert totalPages * 4096 == highest;
      ghost var chosen := PlaceBitmap(m);
      if bitmap == 0 {
        return;
      }
      Build(m, chosen);
      ManagedAre(m);
    }

    /** The managed frames in terms of the fields of the map. */
    lemma ManagedAre(m: seq<Entry>)
      requires ValidMap(m, ram.Length) && bitmap % 512 == 0
      requires managed == UsablePages(m, |m|) - BitmapFrames()
      ensures Manages(managed, m, bitmap, totalPages)
    {
      UsableAre(m, ram.Length);
      forall p: nat
        ensures p in BitmapFrames() <==> HasBitmapByte(bitmap, totalPages, p)
      {
        BitmapBytes(bitmap, totalPages, p);
      }
    }

    method Build(m: seq<Entry>, ghost chosen: nat)
      requires ValidMap(m, ram.Length) && ram.Length < 0x2_0000_0000_0000 && IsHighest(m, totalPages * 4096)
      requires totalPages * 512 <= ram.Length
      requires bitmap != 0 && bitmap % 512 == 0 && InRam(ram.Length, bitmap, totalPages) && freePages == 0
      requires Chosen(m, chosen, totalPages) && BitmapFrames() <= m[chosen].Pages()
      modifies `freePages, `free, `managed, ram
      ensures Valid() && free == managed == UsablePages(m, |m|) - BitmapFrames()
      ensures SameOutside(old(ram[..]), ram[..], bitmap, BitmapWords(totalPages))
    {
      ghost var ram0, words := ram[..], BitmapWords(totalPages);
      FreeUsable(m);
      ghost var ram1 := ram[..];
      UsableBelow(m, |m|, ram.Length, totalPages);
      EntryInUsable(m, chosen, |m|);
      ReserveBitmap();
      managed := free;
      SameOutsideTrans(ram0, ram1, ram[..], bitmap, words);
    }

    /** Steps 3 and 4. */
    method FreeUsable(m: seq<Entry>)
      requires ValidMap(m, ram.Length) && IsHighest(m, totalPages * 4096)
      requires InRam(ram.Length, bitmap, totalPages) && freePages == 0
      modifies `freePages, `free, ram
      ensures Coherent() && free == UsablePages(m, |m|) && freePages == |free|
      ensures SameOutside(old(ram[..]), ram[..], bitmap, BitmapWords(totalPages))
    {
      ghost var ram0 := ram[..];
      Fill((totalPages + 63) / 64);
      ghost var ram1 := ram[..];
      ClearUsable(m);
      SameOutsideTrans(ram0, ram1, ram[..], bitmap, BitmapWords(totalPages));
    }

    /** Step 1: the highest usable address. */
    method HighestUsable(m: seq<Entry>) returns (highest: nat)
      requires ValidMap(m, ram.Length)
      ensures IsHighest(m, highest) && highest % 4096 == 0 && highest <= 8 * ram.Length
    {
      highest := 0;
      for i := 0 to |m|
        invariant forall k :: 0 <= k < i && m[k].Usable() ==> m[k].Top() <= highest
        invariant highest == 0 || exists e :: e in m && e.Usable() && e.Top() == highest
        invariant highest % 4096 == 0 && highest <= 8 * ram.Length
      {
        if m[i].Usable() {
          var top := m[i].Top();
          assert m[i] in m;
          if top > highest {
            highest := top;
          }
        }
      }
    }

    /** Step 2: the bitmap goes to the start of the first usable entry that can hold it. */
    method PlaceBitmap(m: seq<Entry>) returns (ghost chosen: nat)
      requires ValidMap(m, ram.Length) && bitmap == 0
      modifies `bitmap
      ensures bitmap == 0 <==> NoPlace(m, totalPages)
      ensures bitmap != 0 ==> Chosen(m, chosen, totalPages) && bitmap * 8 == m[chosen].base
      ensures bitmap != 0 ==> BitmapFrames() <= m[chosen].Pages()
      ensures bitmap != 0 ==> bitmap % 512 == 0 && InRam(ram.Length, bitmap, totalPages)
    {
      var bitmapSize := (totalPages + 63) / 64 * 8;
      chosen := 0;
      for i := 0 to |m|
        invariant forall k :: 0 <= k < i ==> !Fits(m[k], totalPages)
        invariant bitmap == 0
      {
        if m[i].Usable() && m[i].length >= bitmapSize {
          assert m[i] in m;
          BitmapInEntry(m[i], totalPages);
          bitmap, chosen := m[i].base / 8, i;
          return;
        }
      }
    }

    /** Step 3: every page starts used. */
    method Fill(words: nat)
      requires InRam(ram.Length, bitmap, totalPages) && words == BitmapWords(totalPages)
      modifies `free, ram
      ensures Coherent() && free == {}
      ensures SameOutside(old(ram[..]), ram[..], bitmap, words)
    {
      for w := 0 to words
        invariant forall k :: 0 <= k < ram.Length ==>
          ram[k] == if bitmap <= k < bitmap + w then W64 - 1 else old(ram[k])
      {
        ram[bitmap + w] := W64 - 1;
      }
      AllSet(ram[..], bitmap, totalPages);
      free := {};
    }

    /** Step 4: the pages of the usable entries become free. */
    method ClearUsable(m: seq<Entry>)
      requires Coherent() && ValidMap(m, ram.Length)
      requires IsHighest(m, totalPages * 4096)
      requires free == {} && freePages == 0
      modifies `freePages, `free, ram
      ensures Coherent() && free == UsablePages(m, |m|) && freePages == |free|
      ensures forall p: nat :: p in free <==> InUsableEntry(m, p)
      ensures SameOutside(old(ram[..]), ram[..], bitmap, BitmapWords(totalPages))
    {
      UsableAre(m, ram.Length);
      ghost var ram0, words := ram[..], BitmapWords(totalPages);
      for i := 0 to |m|
        invariant Coherent() && free == UsablePages(m, i) && freePages == |free|
        invariant SameOutside(ram0, ram[..], bitmap, words)
      {
        ghost var before := ram[..];
        if m[i].Usable() {
          ClearNext(m, i);
        }
        SameOutsideTrans(ram0, before, ram[..], bitmap, words);
      }
    }

    method ClearNext(m: seq<Entry>, i: nat)
      requires Coherent() && ValidMap(m, ram.Length) && IsHighest(m, totalPages * 4096)
      requires i < |m| && m[i].Usable() && free == UsablePages(m, i) && freePages == |free|
      modifies `freePages, `free, ram
      ensures Coherent() && free == UsablePages(m, i + 1) && freePages == |free|
      ensures SameOutside(old(ram[..]), ram[..], bitmap, BitmapWords(totalPages))
    {
      UsableDisjoint(m, i, i, ram.Length);
      UsableEntry(m, i, ram.Length, totalPages);
      ClearEntry(m[i]);
    }

    method ClearEntry(e: Entry)
      requires Coherent()
      requires 4096 <= e.base && e.Top() <= totalPages * 4096
      requires freePages == |free| && free !! e.Pages()
      modifies `freePages, `free, ram
      ensures Coherent() && free == old(free) + e.Pages() && freePages == |free|
      ensures SameOutside(old(ram[..]), ram[..], bitmap, BitmapWords(totalPages))
    {
      EntryPages(e, totalPages);
      var start, count := e.base / 4096, e.length / 4096;
      ghost var before := free;
      for p := start to start + count
        invariant Coherent() && freePages == |free| && Gained(before, free, start, p)
        invariant SameOutside(old(ram[..]), ram[..], bitmap, BitmapWords(totalPages))
      {
        assert p in e.Pages();
        GainedNext(before, free, start, p);
        BitmapClear(p);
        freePages := freePages + 1;
      }
    }

    /** Step 5: the pages of the bitmap itself are taken out. */
    method ReserveBitmap()
      requires Coherent() && bitmap % 512 == 0
      requires BitmapFrames() <= free && freePages == |free|
      modifies `freePages, `free, ram
      ensures Coherent() && free == old(free) - BitmapFrames() && freePages == |free|
      ensures SameOutside(old(ram[..]), ram[..], bitmap, BitmapWords(totalPages))
    {
      ghost var before, own := free, BitmapFrames();
      var start, count := bitmap * 8 / 4096, ((totalPages + 63) / 64 * 8 + 4095) / 4096;
      BitmapFramesAre(bitmap, totalPages, start, count);
      for p := start to start + count
        invariant Coherent() && freePages == |free|
        invariant forall q :: q in free <==> q in before && !(start <= q < p)
        invariant SameOutside(old(ram[..]), ram[..], bitmap, BitmapWords(totalPages))
      {
        assert p in own;
        BitmapSet(p);
        freePages := freePages - 1;
      }
    }

    method BitmapSet(page: nat)
      requires Coherent() && page < totalPages
      modifies `free, ram
      ensures Coherent() && free == old(free) - {page}
      ensures page in old(free) ==> |free| == |old(free)| - 1
      ensures SameOutside(old(ram[..]), ram[..], bitmap, BitmapWords(totalPages))
    {
      SetFrame(ram[..], bitmap, totalPages, free, page);
      var k := bitmap + page / 64;
      var w: u64 := Or(ram[k], Shl64(1, page % 64));
      ghost var before := ram[..];
      ram[k] := w;
      assert ram[..] == before[k := w];
      free := free - {page};
    }

    method BitmapClear(page: nat)
      requires Coherent() && page < totalPages
      modifies `free, ram
      ensures Coherent() && free == old(free) + {page}
      ensures page !in old(free) ==> |free| == |old(free)| + 1
      ensures SameOutside(old(ram[..]), ram[..], bitmap, BitmapWords(totalPages))
    {
      ClearFrame(ram[..], bitmap, totalPages, free, page);
      var k := bitmap + page / 64;
      var w: u64 := And(ram[k], Not64(Shl64(1, page % 64)));
      ghost var before := ram[..];
      ram[k] := w;
      assert ram[..] == before[k := w];
      free := free + {page};
    }

    method BitmapTest(page: nat) returns (used: bool)
      requires Coherent() && page < totalPages
      ensures used <==> page !in free
    {
      ShlOne(page % 64);
      assert IsFree(ram[..], bitmap, page) <==> page in free;
      TestBit(ram[bitmap + page / 64], page % 64);
      used := And(ram[bitmap + page / 64], Shl64(1, page % 64)) != 0;
    }

    /** First fit over the bitmap. A null result means that no frame was free. */
    method Alloc() returns (r: nat)
      requires Valid()
      modifies `freePages, `free, ram
      ensures Valid()
      ensures r % 4096 == 0 && r < 8 * ram.Length
      ensures Step(old(free), if r == 0 then Exhausted else Allocated(r / 4096), free)
      ensures r == 0 ==> ram[..] == old(ram[..])
      ensures SameOutside(old(ram[..]), ram[..], bitmap, BitmapWords(totalPages))
    {
      for i := 0 to totalPages
        invariant unchanged(this) && unchanged(ram)
        invariant forall p: nat :: p < i ==> p !in free
      {
        var used := BitmapTest(i);
        if !used {
          TakeFrame(i);
          PageAddress(i);
          return i * 4096;
        }
      }
      assert forall p :: p in free ==> p < totalPages;
      return 0;
    }

    /** Marks a free frame used and counts it. */
    method TakeFrame(i: nat)
      requires Valid() && i in free
      modifies `freePages, `free, ram
      ensures Valid() && free == old(free) - {i}
      ensures SameOutside(old(ram[..]), ram[..], bitmap, BitmapWords(totalPages))
    {
      BitmapSet(i);
      freePages := freePages - 1;
    }

    /** Gives back a frame that was allocated. */
    method Release(page: u64)
      requires Valid()
      requires page / 4096 in managed - free
      modifies `freePages, `free, ram
      ensures Valid()
      ensures Step(old(free), Freed(page / 4096), free)
      ensures SameOutside(old(ram[..]), ram[..], bitmap, BitmapWords(totalPages))
    {
      BitmapClear(page / 4096);
      freePages := freePages + 1;
    }
  }
}
