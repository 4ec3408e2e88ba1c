/** Virtual memory: the four-level walk over tables that live in allocator frames.
    Physical addresses stand for the higher-half pointers the kernel uses. */
module Vmm {
  import opened Words
  import opened Pmm
  import opened PageTree

  const FLAG_PRESENT: u64 := 1
  const FLAG_WRITABLE: u64 := 2
  const FLAG_USER: u64 := 4
  const FLAG_NX: u64 := 0x8000_0000_0000_0000

  /** What map passes for table entries: writable, user. */
  const TABLE_PERMISSIONS: u64 := 6

  /** `(uint64_t)phys | flags | FLAG_PRESENT`. */
  function EntryWord(phys: nat, flags: nat): nat { Or(Or(phys, flags), FLAG_PRESENT) }

  /** `entry & ~0xFFF`. */
  function Target(entry: u64): nat { And(entry, Not64(0xFFF)) }

  /** The tables on the way to a page, down to a level. */
  ghost function Upper(page: nat, level: nat): set<Path>
    requires level <= 3
  {
    set l: nat | 1 <= l <= level :: PathTo(page)[..l]
  }

  /** Levels of the walk to a page, down to a level, that have no table yet. */
  ghost function MissingTo(t: Tree, page: nat, level: nat): nat
    requires level <= 3
  {
    if level == 0 then 0
    else MissingTo(t, page, level - 1) + if PathTo(page)[..level] in t.node then 0 else 1
  }

  /** Levels of a walk above the pages. */
  const LEVELS: nat := 3

  ghost function Walk(page: nat): set<Path> { Upper(page, 3) }

  ghost function Missing(t: Tree, page: nat): nat { MissingTo(t, page, 3) }

  lemma WholePath(page: nat)
    ensures PathTo(page)[..3] == PathTo(page) && |PathTo(page)| == 3
    ensures Walk(page) == {PathTo(page)[..1]} + {PathTo(page)[..2]} + {PathTo(page)[..3]}
  {
  }

  /** The number of missing levels, one by one. */
  lemma MissingLevels(t: Tree, page: nat)
    ensures MissingTo(t, page, 0) == 0
    ensures MissingTo(t, page, 1) == (if PathTo(page)[..1] in t.node then 0 else 1)
    ensures MissingTo(t, page, 2) == MissingTo(t, page, 1) + (if PathTo(page)[..2] in t.node then 0 else 1)
    ensures Missing(t, page) == MissingTo(t, page, 2) + (if PathTo(page)[..3] in t.node then 0 else 1)
  {
  }

  /** One step of the walk: table n is found, or created in the lowest free frame, or
      cannot be created. */
  ghost predicate Grown(t: Tree, free: set<nat>, n: Path, t': Tree, free': set<nat>, next: nat)
  {
    if n in t.node then
      t' == t && free' == free && next == t.node[n] * 4096
    else if next == 0 then
      t' == t && free' == free == {}
    else
      && Step(free, Allocated(next / 4096), free') && next % 4096 == 0
      && t' == t.(node := t.node[n := next / 4096])
  }

  /** Tables that exist stay where they are, and every frame taken becomes a table. */
  ghost predicate Grows(t: Tree, free: set<nat>, t': Tree, free': set<nat>)
  {
    && (forall p :: p in t.node ==> p in t'.node && t'.node[p] == t.node[p])
    && free' <= free
    && t'.node.Values == t.node.Values + (free - free')
  }

  lemma GrowsTrans(t: Tree, free: set<nat>, t': Tree, free': set<nat>, t'': Tree, free'': set<nat>)
    requires Grows(t, free, t', free') && Grows(t', free', t'', free'')
    ensures Grows(t, free, t'', free'')
  {
  }

  /** What map does to the tree and to the free frames. It takes one frame for each
      missing level. If there are too few, it takes them all and maps nothing. */
  ghost predicate MapEffect(t: Tree, free: set<nat>, t': Tree, free': set<nat>, page: nat, word: nat)
  {
    && Grows(t, free, t', free')
    && if Missing(t, page) <= |free| then
         && |free'| == |free| - Missing(t, page)
         && t'.node.Keys == t.node.Keys + Walk(page)
         && word < W64 && t'.leaf == t.leaf[page := word]
       else
         free' == {} && t'.leaf == t.leaf
  }

  /** The walk to a page has come down to a level: the tables up to there exist, made of those
      that were missing before. */
  ghost predicate Walked(mem0: seq<u64>, t0: Tree, free0: set<nat>, mem: seq<u64>, t: Tree, free: set<nat>,
                         managed: set<nat>, page: nat, level: nat)
  {
    && level <= 3
    && [] in t0.node && OthersKept(mem0, mem, t0, managed, free0)
    && Grows(t0, free0, t, free) && t.leaf == t0.leaf
    && t.node.Keys == t0.node.Keys + Upper(page, level)
    && |free| == |free0| - MissingTo(t0, page, level)
    && PathTo(page)[..level] in t.node
  }

  /** The walk to a page has taken all the frames there were, and they are too few. */
  ghost predicate Short(mem0: seq<u64>, t0: Tree, free0: set<nat>, mem: seq<u64>, t: Tree, free: set<nat>,
                        managed: set<nat>, page: nat)
  {
    && [] in t0.node && OthersKept(mem0, mem, t0, managed, free0)
    && Grows(t0, free0, t, free) && t.leaf == t0.leaf
    && free == {} && |free0| < Missing(t0, page)
  }

  lemma WalkedStart(mem: seq<u64>, t: Tree, free: set<nat>, managed: set<nat>, page: nat)
    requires [] in t.node
    ensures Walked(mem, t, free, mem, t, free, managed, page, 0)
  {
    assert PathTo(page)[..0] == [];
    assert Upper(page, 0) == {};
  }

  lemma NextPath(page: nat, level: nat)
    requires page < LOWER_PAGES && level < 3
    ensures PathTo(page)[..level] + [PathTo(page)[level]] == PathTo(page)[..level + 1]
    ensures |PathTo(page)[..level]| == level && PathTo(page)[level] < Width(PathTo(page)[..level])
  {
    NumPathTo(page);
  }

  lemma WalkedNext(mem0: seq<u64>, t0: Tree, free0: set<nat>, mem: seq<u64>, t: Tree, free: set<nat>,
                   managed: set<nat>, page: nat, level: nat,
                   mem': seq<u64>, t': Tree, free': set<nat>, next: nat)
    requires Shape(t0) && Walked(mem0, t0, free0, mem, t, free, managed, page, level) && level < 3
    requires Grown(t, free, PathTo(page)[..level + 1], t', free', next) && OthersKept(mem, mem', t, managed, free)
    requires next == 0 ==> PathTo(page)[..level + 1] !in t.node
    ensures if next == 0 then Short(mem0, t0, free0, mem', t', free', managed, page)
            else Walked(mem0, t0, free0, mem', t', free', managed, page, level + 1)
                 && next == t'.node[PathTo(page)[..level + 1]] * 4096
  {
    var n := PathTo(page)[..level + 1];
    GrownGrows(t, free, n, t', free', next);
    GrowsTrans(t0, free0, t, free, t', free');
    OthersTrans(mem0, mem, mem', t0, free0, t, free, managed);
    StillMissing(t0, t, page, level);
    if next == 0 {
      MissingFrom(t0, page, level);
    } else {
      UpperNext(page, level);
    }
  }

  lemma UpperNext(page: nat, level: nat)
    requires level < 3
    ensures Upper(page, level + 1) == Upper(page, level) + {PathTo(page)[..level + 1]}
  {
  }

  /** The tables made so far say nothing of the next level. */
  lemma StillMissing(t0: Tree, t: Tree, page: nat, level: nat)
    requires level < 3 && t.node.Keys == t0.node.Keys + Upper(page, level)
    ensures PathTo(page)[..level + 1] in t.node <==> PathTo(page)[..level + 1] in t0.node
  {
    var n := PathTo(page)[..level + 1];
    assert |n| == level + 1 && forall p :: p in Upper(page, level) ==> |p| <= level;
    assert n in t.node <==> n in t.node.Keys;
  }

  /** A table that is missing has nothing below it, so all levels from there on are missing. */
  lemma MissingFrom(t: Tree, page: nat, level: nat)
    requires Shape(t) && level < 3 && PathTo(page)[..level + 1] !in t.node
    ensures MissingTo(t, page, level) < Missing(t, page)
  {
    MissingLevels(t, page);
    MissingBelow(t, page);
  }

  /** At the bottom, all tables of the walk exist and the missing ones have been paid for. */
  lemma WalkedDown(mem0: seq<u64>, t0: Tree, free0: set<nat>, mem: seq<u64>, t: Tree, free: set<nat>,
                   managed: set<nat>, page: nat)
    requires Walked(mem0, t0, free0, mem, t, free, managed, page, 3)
    ensures |free| == |free0| - Missing(t0, page) && t.node.Keys == t0.node.Keys + Walk(page)
    ensures PathTo(page)[..3] == PathTo(page) && PathTo(page) in t.node
  {
    WholePath(page);
  }

  lemma GrownGrows(t: Tree, free: set<nat>, n: Path, t': Tree, free': set<nat>, next: nat)
    requires Grown(t, free, n, t', free', next)
    ensures Grows(t, free, t', free') && t'.leaf == t.leaf
    ensures next != 0 || n in t.node ==> t'.node.Keys == t.node.Keys + {n} && next == t'.node[n] * 4096
    ensures next != 0 ==> |free'| == |free| - if n in t.node then 0 else 1
  {
    if n in t.node {
      assert t.node.Keys + {n} == t.node.Keys;
    } else if next != 0 {
      NewNode(t, free, n, t', free', next / 4096);
    }
  }

  /** One new table in a frame that was free. */
  lemma NewNode(t: Tree, free: set<nat>, n: Path, t': Tree, free': set<nat>, f: nat)
    requires n !in t.node && f in free && free' == free - {f} && t' == t.(node := t.node[n := f])
    ensures Grows(t, free, t', free') && |free'| == |free| - 1
    ensures t'.node.Keys == t.node.Keys + {n}
  {
    NodeValues(t, n, f);
    TakeOne(free, f);
  }

  lemma TakeOne(free: set<nat>, f: nat)
    requires f in free
    ensures free - (free - {f}) == {f} && |free - {f}| == |free| - 1
  {
  }

  /** A table that is missing has nothing below it. */
  lemma MissingBelow(t: Tree, page: nat)
    requires Shape(t)
    ensures PathTo(page)[..1] !in t.node ==> PathTo(page)[..2] !in t.node
    ensures PathTo(page)[..2] !in t.node ==> PathTo(page)[..3] !in t.node && PathTo(page) !in t.node
  {
    var q := PathTo(page);
    WholePath(page);
    assert Parent(q) == q[..2] && Parent(q[..2]) == q[..1];
  }

  /** All words of the given frames are the same in both memories. */
  ghost predicate Kept(mem: seq<u64>, mem': seq<u64>, frames: set<nat>)
  {
    && |mem| == |mem'|
    && forall f, i: nat {:trigger Word(mem', f, i)} ::
         f in frames && i < 512 && f * 512 + 512 <= |mem| ==> Word(mem', f, i) == Word(mem, f, i)
  }

  /** Entries 256 to 511 of the root table are the same in both memories. */
  ghost predicate UpperHalfKept(mem: seq<u64>, mem': seq<u64>, root: nat)
  {
    && |mem| == |mem'|
    && forall i: nat {:trigger Word(mem', root, i)} ::
         256 <= i < 512 && root * 512 + 512 <= |mem| ==> Word(mem', root, i) == Word(mem, root, i)
  }

  lemma KeptTrans(a: seq<u64>, b: seq<u64>, c: seq<u64>, frames: set<nat>)
    requires Kept(a, b, frames) && Kept(b, c, frames)
    ensures Kept(a, c, frames)
  {
    forall f, i: nat | f in frames && i < 512 && f * 512 + 512 <= |a|
      ensures Word(c, f, i) == Word(a, f, i)
    {
      assert Word(b, f, i) == Word(a, f, i);
    }
  }

  lemma KeptOutside(a: seq<u64>, b: seq<u64>, lo: nat, n: nat, frames: set<nat>)
    requires SameOutside(a, b, lo, n)
    requires forall f :: f in frames ==> f * 512 + 512 <= lo || lo + n <= f * 512
    ensures Kept(a, b, frames)
  {
  }

  /** First all frames keep their words, and then all but frame f do. */
  lemma KeptButOne(a: seq<u64>, b: seq<u64>, c: seq<u64>, managed: set<nat>, o: nat, f: nat)
    requires Kept(a, b, managed + {o}) && SameOutside(b, c, f * 512, 512) && o != f
    ensures Kept(a, c, managed - {f}) && Kept(a, c, {o})
  {
    KeptOutside(b, c, f * 512, 512, managed + {o} - {f});
    KeptTrans(a, b, c, managed + {o} - {f});
  }

  /** Words of a frame that is not a bitmap frame are not bitmap words. */
  lemma OutsideBitmap(bitmap: nat, total: nat, f: nat)
    requires bitmap % 512 == 0 && f !in Interval(bitmap / 512, BitmapPages(total))
    ensures f * 512 + 512 <= bitmap || bitmap + BitmapWords(total) <= f * 512
  {
    assert BitmapWords(total) <= BitmapPages(total) * 512;
  }

  lemma KeptBitmap(a: seq<u64>, b: seq<u64>, bitmap: nat, total: nat, frames: set<nat>)
    requires SameOutside(a, b, bitmap, BitmapWords(total)) && bitmap % 512 == 0
    requires frames !! Interval(bitmap / 512, BitmapPages(total))
    ensures Kept(a, b, frames)
  {
    forall f | f in frames
      ensures f * 512 + 512 <= bitmap || bitmap + BitmapWords(total) <= f * 512
    {
      OutsideBitmap(bitmap, total, f);
    }
    KeptOutside(a, b, bitmap, BitmapWords(total), frames);
  }

  /** A change inside a frame that is not a bitmap frame leaves the bitmap alone. */
  lemma BitmapKept(a: seq<u64>, b: seq<u64>, bitmap: nat, total: nat, free: set<nat>, f: nat)
    requires SameOutside(a, b, f * 512, 512) && InRam(|a|, bitmap, total)
    requires bitmap % 512 == 0 && f !in Interval(bitmap / 512, BitmapPages(total))
    requires Represents(a, bitmap, total, free)
    ensures Represents(b, bitmap, total, free)
  {
    OutsideBitmap(bitmap, total, f);
    forall p: nat | p < total
      ensures IsFree(b, bitmap, p) <==> p in free
    {
      assert IsFree(a, bitmap, p) <==> p in free;
    }
  }

  /** The tables of t are allocated frames, and memory holds what t calls for. */
  ghost predicate TreeIn(mem: seq<u64>, t: Tree, managed: set<nat>, free: set<nat>)
  {
    && Shape(t)
    && FitsIn(mem, t)
    && Encodes(mem, t)
    && t.node.Values <= managed - free
  }

  /** What a change to the tree leaves alone: the data frames, which are neither free nor
      tables, and the upper half of the root table. */
  ghost predicate OthersKept(a: seq<u64>, b: seq<u64>, t: Tree, managed: set<nat>, free: set<nat>)
    requires [] in t.node
  {
    Kept(a, b, managed - free - t.node.Values) && UpperHalfKept(a, b, t.node[[]])
  }

  lemma TreeInKept(a: seq<u64>, b: seq<u64>, t: Tree, managed: set<nat>, free: set<nat>, free': set<nat>,
                   frames: set<nat>)
    requires TreeIn(a, t, managed, free) && free' <= free
    requires Kept(a, b, frames) && t.node.Values <= frames
    ensures TreeIn(b, t, managed, free')
  {
    forall p, i: nat | p in t.node && i < 512
      ensures Word(b, t.node[p], i) == Word(a, t.node[p], i)
    {
      assert t.node[p] in t.node.Values;
    }
    EncodesFrame(a, b, t);
  }

  lemma NodeValues(t: Tree, n: Path, f: nat)
    requires n !in t.node
    ensures t.node[n := f].Values == t.node.Values + {f}
  {
    var m := t.node[n := f];
    assert m[n] == f;
    assert forall q :: q in t.node ==> m[q] == t.node[q];
  }

  /** What creating a table does: b is a after the bitmap and the new frame f have been
      written, and then the parent's entry is set. */
  lemma GrowMemory(a: seq<u64>, b: seq<u64>, t: Tree, managed: set<nat>, free: set<nat>,
                   p: Path, i: nat, f: nat, w: u64)
    requires TreeIn(a, t, managed, free) && f in free && f in managed
    requires Kept(a, b, managed - {f}) && f * 512 + 512 <= |b| && Zeroed(b, f)
    requires p in t.node && |p| < 3 && i < Width(p) && p + [i] !in t.node && w == f * 4096 + TABLE_FLAGS
    ensures t.node[p] * 512 + i < |b|
    ensures var c := b[t.node[p] * 512 + i := w];
            && TreeIn(c, Tree(t.node[p + [i] := f], t.leaf), managed, free - {f})
            && OthersKept(a, c, t, managed, free)
  {
    var c := b[t.node[p] * 512 + i := w];
    TreeInKept(a, b, t, managed, free, free, managed - {f});
    AddTable(b, t, p, i, f, w);
    NodeValues(t, p + [i], f);
    assert t.node[p] in t.node.Values && t.node[[]] in t.node.Values && !Collide(t, [], p);
    forall g, j: nat | g in managed - {f} && j < 512 && g * 512 + 512 <= |a| && (g != t.node[p] || j != i)
      ensures Word(c, g, j) == Word(a, g, j)
    {
      WordUpdate(b, t.node[p], i, w, g, j);
      assert Word(b, g, j) == Word(a, g, j);
    }
  }

  lemma OthersTrans(a: seq<u64>, b: seq<u64>, c: seq<u64>, t: Tree, free: set<nat>, t': Tree, free': set<nat>,
                    managed: set<nat>)
    requires [] in t.node && Grows(t, free, t', free')
    requires OthersKept(a, b, t, managed, free) && OthersKept(b, c, t', managed, free')
    ensures OthersKept(a, c, t, managed, free)
  {
    assert managed - free' - t'.node.Values == managed - free - t.node.Values;
    KeptTrans(a, b, c, managed - free - t.node.Values);
    var root := t.node[[]];
    forall i: nat | 256 <= i < 512 && root * 512 + 512 <= |a|
      ensures Word(c, root, i) == Word(a, root, i)
    {
      assert Word(b, root, i) == Word(a, root, i);
    }
  }

  /** Writing entry i of the last-level table at p. */
  lemma LeafMemory(a: seq<u64>, t: Tree, managed: set<nat>, free: set<nat>, p: Path, i: nat, page: nat, w: u64)
    requires TreeIn(a, t, managed, free) && p in t.node && |p| == 3 && i < 512
    requires page == Num(p) * 512 + i && (w == 0 || w % 2 == 1)
    ensures t.node[p] * 512 + i < |a|
    ensures var c := a[t.node[p] * 512 + i := w];
            TreeIn(c, WithLeaf(t, page, w), managed, free) && OthersKept(a, c, t, managed, free)
  {
    SetLeaf(a, t, p, i, page, w);
    WriteKept(a, t, p, i, w, managed, free);
  }

  /** A write to a last-level table touches neither data frames nor the root table. */
  lemma WriteKept(a: seq<u64>, t: Tree, p: Path, i: nat, w: u64, managed: set<nat>, free: set<nat>)
    requires Shape(t) && p in t.node && |p| == 3 && i < 512 && t.node[p] * 512 + 512 <= |a|
    ensures OthersKept(a, a[t.node[p] * 512 + i := w], t, managed, free)
  {
    assert t.node[p] in t.node.Values && !Collide(t, [], p);
    forall g: nat, j: nat | j < 512 && g * 512 + 512 <= |a| && g != t.node[p]
      ensures Word(a[t.node[p] * 512 + i := w], g, j) == Word(a, g, j)
    {
      WordUpdate(a, t.node[p], i, w, g, j);
    }
  }

  /** b is a with entries 256 to n of frame o copied to frame f. */
  ghost predicate UpperCopied(a: seq<u64>, b: seq<u64>, o: nat, f: nat, n: nat)
  {
    && SameOutside(a, b, f * 512, 512)
    && f * 512 + 512 <= |a| && o * 512 + 512 <= |a|
    && (forall j: nat :: j < 256 || n <= j < 512 ==> Word(b, f, j) == Word(a, f, j))
    && (forall j: nat :: 256 <= j < n && j < 512 ==> Word(b, f, j) == Word(a, o, j))
  }

  lemma CopyStep(a: seq<u64>, b: seq<u64>, o: nat, f: nat, i: nat)
    requires 256 <= i < 512 && UpperCopied(a, b, o, f, i)
    ensures UpperCopied(a, b[f * 512 + i := Word(b, o, i)], o, f, i + 1)
  {
    var b' := b[f * 512 + i := Word(b, o, i)];
    assert Word(b, o, i) == Word(a, o, i);
    forall j: nat | j < 512
      ensures Word(b', f, j) == if j == i then Word(a, o, i) else Word(b, f, j)
    {
      WordUpdate(b, f, i, Word(b, o, i), f, j);
    }
  }

  /** A root table whose lower half is zero encodes the tree without pages. */
  lemma RootOnly(mem: seq<u64>, f: nat)
    requires f * 512 + 512 <= |mem|
    requires forall i: nat :: i < 256 ==> Word(mem, f, i) == 0
    ensures var t := Tree(map[[] := f], map[]);
            Shape(t) && FitsIn(mem, t) && Encodes(mem, t) && t.node.Values == {f}
  {
    var t := Tree(map[[] := f], map[]);
    assert t.node[[]] == f;
    forall i: nat | i < 256
      ensures EntryOf(t, [], i) == 0
    {
      assert [] + [i] != [];
    }
  }

  /** What init leaves in memory. */
  lemma RootMemory(a: seq<u64>, b: seq<u64>, c: seq<u64>, managed: set<nat>, free: set<nat>, o: nat, f: nat)
    requires Kept(a, b, managed - {f}) && Kept(a, b, {o}) && f in managed && f !in free
    requires UpperCopied(b, c, o, f, 512) && Zeroed(b, f)
    ensures TreeIn(c, Tree(map[[] := f], map[]), managed, free) && Kept(a, c, managed - {f})
    ensures forall i: nat :: 256 <= i < 512 ==> Word(c, f, i) == Word(a, o, i)
  {
    forall i: nat | i < 256
      ensures Word(c, f, i) == 0
    {
      assert Word(b, f, i) == 0;
    }
    RootOnly(c, f);
    KeptOutside(b, c, f * 512, 512, managed - {f});
    KeptTrans(a, b, c, managed - {f});
    forall i: nat | 256 <= i < 512
      ensures Word(c, f, i) == Word(a, o, i)
    {
      assert Word(b, o, i) == Word(a, o, i);
    }
  }

  // ---- Arithmetic of one entry and of the four indices ------------------------------------

  lemma TableEntry(f: nat)
    requires f < 0x100_0000_0000
    ensures f * 4096 + TABLE_FLAGS < W64
    ensures EntryWord(f * 4096, TABLE_PERMISSIONS) == f * 4096 + TABLE_FLAGS
    ensures And(f * 4096 + TABLE_FLAGS, FLAG_PRESENT) != 0
    ensures Target(f * 4096 + TABLE_FLAGS) == f * 4096
  {
    SmallOrs();
    OrPage(f * 4096, 6);
    OrZero(f);
    OrZero(6);
    assert Or(f * 4096, 6) == f * 4096 + 6;
    OrPage(f * 4096 + 6, 1);
    LowBit(f * 4096 + 7);
    PageMask(f * 4096 + 7);
  }

  lemma SmallOrs()
    ensures Or(FLAG_WRITABLE, FLAG_USER) == 6 && Or(6, 1) == 7 && Or(2, 1) == 3
  {
  }

  /** The entry of a writable kernel page. */
  lemma DataEntry(f: nat)
    requires f < 0x100_0000_0000
    ensures f * 4096 + 3 < W64
    ensures EntryWord(f * 4096, FLAG_WRITABLE) == f * 4096 + 3
  {
    SmallOrs();
    OrPage(f * 4096, 2);
    OrZero(f);
    OrZero(2);
    assert Or(f * 4096, 2) == f * 4096 + 2;
    OrPage(f * 4096 + 2, 1);
  }

  lemma EntryWordFacts(phys: u64, flags: u64)
    ensures EntryWord(phys, flags) < W64 && EntryWord(phys, flags) % 2 == 1
  {
    OrFits64(phys, flags);
    OrFits64(Or(phys, flags), 1);
    OrHalf(Or(phys, flags), 1);
  }

  /** `(v >> shift) & 0x1FF`. */
  function Index(v: u64, shift: nat): nat { And(Shr(v, shift), 0x1FF) }

  lemma IndexValue(v: u64, shift: nat)
    ensures Index(v, shift) == v / Pow2(shift) % 512
  {
    Pow2Values();
    AndLowMask(Shr(v, shift), 9);
    ShrLow(Shr(v, shift), 9);
    ShrLow(v, shift);
  }

  lemma IndexValues(v: u64)
    ensures Index(v, 39) == v / 0x80_0000_0000 % 512 && Index(v, 30) == v / 0x4000_0000 % 512
    ensures Index(v, 21) == v / 0x20_0000 % 512 && Index(v, 12) == v / 0x1000 % 512
  {
    IndexValue(v, 39);
    IndexValue(v, 30);
    IndexValue(v, 21);
    IndexValue(v, 12);
    Pow2Values();
  }

  lemma PageDivisions(v: nat)
    ensures v / 4096 / 0x800_0000 == v / 0x80_0000_0000
    ensures v / 4096 / 0x4_0000 == v / 0x4000_0000 && v / 4096 / 512 == v / 0x20_0000
  {
  }

  /** The four indices of a lower-half address name its page: section 4.5 of the
      Intel SDM, Volume 3A. */
  lemma Indices(v: u64)
    requires v < 0x8000_0000_0000
    ensures v / 4096 < LOWER_PAGES
    ensures GoodPath(PathTo(v / 4096)) && PathTo(v / 4096) == [Index(v, 39), Index(v, 30), Index(v, 21)]
    ensures Index(v, 12) == v / 4096 % 512
  {
    IndexValues(v);
    PageDivisions(v);
    NumPathTo(v / 4096);
    assert PathTo(v / 4096)[0] == Index(v, 39);
  }

  // ---- Reading back what was mapped -------------------------------------------------------------

  /** A mapping reads back as the frame that was mapped exactly when the flags have no bit
      above the page offset that the address does not have. */
  lemma ReadsBack(phys: u64, flags: u64)
    requires phys % 4096 == 0
    ensures EntryWord(phys, flags) < W64
    ensures Target(EntryWord(phys, flags)) == phys <==> Or(phys / 4096, flags / 4096) == phys / 4096
  {
    EntryWordFacts(phys, flags);
    OrPage(phys, flags);
    OrPage(Or(phys, flags), 1);
    OrZero(Or(phys, flags) / 4096);
    PageMask(EntryWord(phys, flags));
  }

  /** For the flags the kernel defines, that is: exactly when no-execute is not set. */
  lemma ReadsBackUnlessNx(phys: u64, low: u64, nx: bool)
    requires phys % 4096 == 0 && phys < 0x10_0000_0000_0000 && low < 4096
    ensures Or(low, if nx then FLAG_NX else 0) < W64
    ensures var w := EntryWord(phys, Or(low, if nx then FLAG_NX else 0));
            w < W64 && (Target(w) == phys <==> !nx)
  {
    var hi: u64 := if nx then FLAG_NX else 0;
    OrFits64(low, hi);
    OrPage(low, hi);
    OrZero(hi / 4096);
    ReadsBack(phys, Or(low, hi));
    OrZero(phys / 4096);
    if nx {
      Pow2Values();
      OrBound(phys / 4096, hi / 4096, 52);
    }
  }

  // ---- The address space ----------------------------------------------------------------------------

  class AddressSpace {
    const pmm: Allocator
    var pml4: nat
    ghost var tree: Tree

    ghost predicate Valid()
      reads this, pmm, pmm.ram
    {
      && pmm.Valid()
      && TreeIn(pmm.ram[..], tree, pmm.managed, pmm.free)
      && pml4 == tree.node[[]] * 4096
    }

    ghost function TableFrames(): set<nat>
      reads this
    {
      tree.node.Values
    }

    /** Managed frames that are neither free nor tables. */
    ghost function DataFrames(): set<nat>
      reads this, pmm
    {
      pmm.managed - pmm.free - TableFrames()
    }

    constructor (pmm: Allocator)
      ensures this.pmm == pmm && pml4 == 0
    {
      this.pmm := pmm;
      pml4, tree := 0, Tree(map[], map[]);
    }

    /** memset(page, 0, 4096), by words. */
    method ZeroFrame(page: nat)
      requires pmm.Valid() && page % 4096 == 0
      requires page / 4096 * 512 + 512 <= pmm.ram.Length && page / 4096 !in pmm.BitmapFrames()
      modifies pmm.ram
      ensures pmm.Valid()
      ensures Zeroed(pmm.ram[..], page / 4096)
      ensures SameOutside(old(pmm.ram[..]), pmm.ram[..], page / 4096 * 512, 512)
    {
      var start := page / 8;
      for i := 0 to 512
        invariant forall k :: 0 <= k < pmm.ram.Length ==>
          pmm.ram[k] == if start <= k < start + i then 0 else old(pmm.ram[k])
      {
        pmm.ram[start + i] := 0;
      }
      BitmapKept(old(pmm.ram[..]), pmm.ram[..], pmm.bitmap, pmm.totalPages, pmm.free, page / 4096);
    }

    /** `table[index] = w`. */
    method WriteWord(table: nat, index: nat, w: u64, ghost f: nat)
      requires pmm.Valid() && table == f * 4096 && index < 512
      requires f !in pmm.BitmapFrames() && f * 512 + 512 <= pmm.ram.Length
      modifies pmm.ram
      ensures pmm.Valid()
      ensures pmm.ram[..] == old(pmm.ram[..])[f * 512 + index := w]
    {
      ghost var before := pmm.ram[..];
      pmm.ram[table / 8 + index] := w;
      assert pmm.ram[..] == before[f * 512 + index := w];
      BitmapKept(before, pmm.ram[..], pmm.bitmap, pmm.totalPages, pmm.free, f);
    }

    /** A zeroed frame, or null. */
    method NewTable() returns (frame: nat, ghost f: nat)
      requires pmm.Valid()
      modifies pmm`freePages, pmm`free, pmm.ram
      ensures pmm.Valid() && frame == f * 4096
      ensures Step(old(pmm.free), if frame == 0 then Exhausted else Allocated(f), pmm.free)
      ensures frame == 0 ==> pmm.ram[..] == old(pmm.ram[..])
      ensures frame != 0 ==> f in pmm.managed && Zeroed(pmm.ram[..], f)
      ensures frame != 0 ==> Kept(old(pmm.ram[..]), pmm.ram[..], pmm.managed - {f})
    {
      ghost var mem0 := pmm.ram[..];
      frame := pmm.Alloc();
      f := frame / 4096;
      if frame != 0 {
        ghost var mem1 := pmm.ram[..];
        KeptBitmap(mem0, mem1, pmm.bitmap, pmm.totalPages, pmm.managed);
        ZeroFrame(frame);
        KeptOutside(mem1, pmm.ram[..], f * 512, 512, pmm.managed - {f});
        KeptTrans(mem0, mem1, pmm.ram[..], pmm.managed - {f});
      }
    }

    /** Takes a frame for the root table and copies the boot loader's upper half, entries
        256 to 511, from the table at oldPml4. Without a free frame the root is null. */
    method Init(oldPml4: nat)
      requires pmm.Valid()
      requires oldPml4 % 4096 == 0 && oldPml4 / 4096 * 512 + 512 <= pmm.ram.Length
      requires oldPml4 / 4096 !in pmm.free && oldPml4 / 4096 !in pmm.BitmapFrames()
      modifies this, pmm`freePages, pmm`free, pmm.ram
      ensures pmm.Valid()
      ensures Step(old(pmm.free), if pml4 == 0 then Exhausted else Allocated(pml4 / 4096), pmm.free)
      ensures pml4 != 0 ==> Valid() && tree == Tree(map[[] := pml4 / 4096], map[])
      ensures pml4 != 0 ==> Kept(old(pmm.ram[..]), pmm.ram[..], pmm.managed - {pml4 / 4096})
      ensures pml4 / 4096 * 512 + 512 <= pmm.ram.Length
      ensures pml4 != 0 ==> forall i: nat :: 256 <= i < 512 ==>
        Word(pmm.ram[..], pml4 / 4096, i) == old(Word(pmm.ram[..], oldPml4 / 4096, i))
    {
      ghost var mem0, o := pmm.ram[..], oldPml4 / 4096;
      ghost var f := RootFrame(o);
      ghost var mem2 := pmm.ram[..];
      CopyUpperHalf(oldPml4, o, f);
      tree := Tree(map[[] := f], map[]);
      if pml4 != 0 {
        RootMemory(mem0, mem2, pmm.ram[..], pmm.managed, pmm.free, o, f);
      }
    }

    /** The first half of init: a frame for the root table, zeroed. */
    method RootFrame(ghost o: nat) returns (ghost f: nat)
      requires pmm.Valid() && o !in pmm.BitmapFrames() && o !in pmm.free && o * 512 + 512 <= pmm.ram.Length
      modifies `pml4, pmm`freePages, pmm`free, pmm.ram
      ensures pmm.Valid() && pml4 == f * 4096 && f !in pmm.BitmapFrames() && f * 512 + 512 <= pmm.ram.Length
      ensures Step(old(pmm.free), if pml4 == 0 then Exhausted else Allocated(f), pmm.free)
      ensures Zeroed(pmm.ram[..], f)
      ensures pml4 != 0 ==> Kept(old(pmm.ram[..]), pmm.ram[..], pmm.managed - {f})
      ensures pml4 != 0 ==> Kept(old(pmm.ram[..]), pmm.ram[..], {o})
    {
      ghost var mem0, frames := pmm.ram[..], pmm.managed + {o};
      pml4 := pmm.Alloc();
      f := pml4 / 4096;
      ghost var mem1 := pmm.ram[..];
      KeptBitmap(mem0, mem1, pmm.bitmap, pmm.totalPages, frames);
      ZeroFrame(pml4);
      if pml4 != 0 {
        KeptButOne(mem0, mem1, pmm.ram[..], pmm.managed, o, f);
      }
    }

    /** The copying loop of init. */
    method CopyUpperHalf(oldPml4: nat, ghost o: nat, ghost f: nat)
      requires pmm.Valid() && pml4 == f * 4096 && oldPml4 == o * 4096
      requires f * 512 + 512 <= pmm.ram.Length && f !in pmm.BitmapFrames() && o * 512 + 512 <= pmm.ram.Length
      modifies pmm.ram
      ensures pmm.Valid()
      ensures UpperCopied(old(pmm.ram[..]), pmm.ram[..], o, f, 512)
    {
      ghost var mem0 := pmm.ram[..];
      for i := 256 to 512
        invariant pmm.Valid() && UpperCopied(mem0, pmm.ram[..], o, f, i)
      {
        CopyStep(mem0, pmm.ram[..], o, f, i);
        var w := ReadWord(oldPml4, i, o);
        WriteWord(pml4, i, w, f);
      }
    }

    /** `table[index]`. */
    method ReadWord(table: nat, index: nat, ghost f: nat) returns (w: u64)
      requires table == f * 4096 && index < 512 && f * 512 + 512 <= pmm.ram.Length
      ensures w == Word(pmm.ram[..], f, index)
    {
      w := pmm.ram[table / 8 + index];
    }

    method GetOrCreateTable(table: nat, index: nat, flags: u64, ghost p: Path) returns (next: nat)
      requires Valid()
      requires p in tree.node && |p| < 3 && table == tree.node[p] * 4096 && index < Width(p)
      requires flags == TABLE_PERMISSIONS
      modifies `tree, pmm`freePages, pmm`free, pmm.ram
      ensures Valid()
      ensures Grown(old(tree), old(pmm.free), p + [index], tree, pmm.free, next)
      ensures next == 0 ==> p + [index] !in old(tree).node
      ensures OthersKept(old(pmm.ram[..]), pmm.ram[..], old(tree), pmm.managed, old(pmm.free))
    {
      ReadTableEntry(p, index);
      var entry := pmm.ram[table / 8 + index];
      if And(entry, FLAG_PRESENT) != 0 {
        return Target(entry);
      }
      next := CreateTable(table, index, flags, p);
    }

    method CreateTable(table: nat, index: nat, flags: u64, ghost p: Path) returns (frame: nat)
      requires Valid()
      requires p in tree.node && |p| < 3 && table == tree.node[p] * 4096 && index < Width(p)
      requires flags == TABLE_PERMISSIONS
      requires p + [index] !in tree.node
      modifies `tree, pmm`freePages, pmm`free, pmm.ram
      ensures Valid()
      ensures Grown(old(tree), old(pmm.free), p + [index], tree, pmm.free, frame)
      ensures OthersKept(old(pmm.ram[..]), pmm.ram[..], old(tree), pmm.managed, old(pmm.free))
    {
      ghost var mem0, free0 := pmm.ram[..], pmm.free;
      ghost var f: nat;
      frame, f := NewTable();
      if frame != 0 {
        AttachTable(table, index, flags, frame, p, f, mem0, free0);
      }
    }

    /** `table[index] = new_table_phys | flags | FLAG_PRESENT`. Memory was mem0 and the free
        frames were free0 before frame f was taken. */
    method AttachTable(table: nat, index: nat, flags: u64, frame: nat,
                       ghost p: Path, ghost f: nat, ghost mem0: seq<u64>, ghost free0: set<nat>)
      requires pmm.Valid() && TreeIn(mem0, tree, pmm.managed, free0) && pml4 == tree.node[[]] * 4096
      requires f in free0 && f in pmm.managed && pmm.free == free0 - {f} && frame == f * 4096
      requires Kept(mem0, pmm.ram[..], pmm.managed - {f}) && Zeroed(pmm.ram[..], f)
      requires p in tree.node && |p| < 3 && table == tree.node[p] * 4096 && index < Width(p)
      requires p + [index] !in tree.node && flags == TABLE_PERMISSIONS
      modifies `tree, pmm.ram
      ensures Valid()
      ensures tree == Tree(old(tree).node[p + [index] := f], old(tree).leaf)
      ensures OthersKept(mem0, pmm.ram[..], old(tree), pmm.managed, free0)
    {
      TableEntry(f);
      var word: u64 := EntryWord(frame, flags);
      GrowMemory(mem0, pmm.ram[..], tree, pmm.managed, free0, p, index, f, word);
      assert tree.node[p] in tree.node.Values;
      WriteWord(table, index, word, tree.node[p]);
      tree := Tree(tree.node[p + [index] := f], tree.leaf);
    }

    /** What the code sees when it looks at entry index of the table at p. */
    lemma ReadTableEntry(p: Path, index: nat)
      requires Valid()
      requires p in tree.node && |p| < 3 && index < Width(p)
      ensures tree.node[p] * 512 + 512 <= pmm.ram.Length
      ensures var entry := pmm.ram[tree.node[p] * 512 + index];
              if p + [index] in tree.node
              then And(entry, FLAG_PRESENT) != 0 && Target(entry) == tree.node[p + [index]] * 4096 != 0
              else And(entry, FLAG_PRESENT) == 0
    {
      assert Word(pmm.ram[..], tree.node[p], index) == EntryOf(tree, p, index);
      assert tree.node[p] in tree.node.Values;
      if p + [index] in tree.node {
        assert tree.node[p + [index]] in tree.node.Values;
        TableEntry(tree.node[p + [index]]);
      } else {
        AndZero(1);
      }
    }

    /** A table entry is the frame of the next table, present, writable and for user mode. */
    lemma TableEntriesAre(p: Path, index: nat)
      requires Valid() && p in tree.node && |p| < 3 && index < Width(p) && p + [index] in tree.node
      ensures tree.node[p] * 512 + 512 <= pmm.ram.Length
      ensures pmm.ram[tree.node[p] * 512 + index] == tree.node[p + [index]] * 4096 + 1 + 2 + 4
    {
      assert Word(pmm.ram[..], tree.node[p], index) == EntryOf(tree, p, index);
    }

    lemma ReadLeafEntry(page: nat)
      requires Valid()
      requires page < LOWER_PAGES && PathTo(page) in tree.node
      ensures tree.node[PathTo(page)] * 512 + 512 <= pmm.ram.Length
      ensures var entry := pmm.ram[tree.node[PathTo(page)] * 512 + page % 512];
              if page in tree.leaf
              then And(entry, FLAG_PRESENT) != 0 && entry == tree.leaf[page]
              else And(entry, FLAG_PRESENT) == 0
    {
      var p := PathTo(page);
      NumPathTo(page);
      assert Word(pmm.ram[..], tree.node[p], page % 512) == EntryOf(tree, p, page % 512);
      if page in tree.leaf {
        LowBit(tree.leaf[page]);
      } else {
        AndZero(1);
      }
    }

    /** Maps the page of v to phys. Nothing is mapped when a table cannot be allocated. */
    method Map(v: u64, phys: u64, flags: u64)
      requires Valid() && v < 0x8000_0000_0000
      modifies `tree, pmm`freePages, pmm`free, pmm.ram
      ensures Valid()
      ensures MapEffect(old(tree), old(pmm.free), tree, pmm.free, v / 4096, EntryWord(phys, flags))
      ensures DataFrames() == old(DataFrames())
      ensures OthersKept(old(pmm.ram[..]), pmm.ram[..], old(tree), pmm.managed, old(pmm.free))
    {
      var pml4Index, pdptIndex, pdIndex, ptIndex := Index(v, 39), Index(v, 30), Index(v, 21), Index(v, 12);
      ghost var mem0, tree0, free0 := pmm.ram[..], tree, pmm.free;
      Indices(v);
      var pt := WalkOrCreate(v / 4096, pml4Index, pdptIndex, pdIndex);
      if pt == 0 {
        return;
      }
      WalkedDown(mem0, tree0, free0, pmm.ram[..], tree, pmm.free, pmm.managed, v / 4096);
      EntryWordFacts(phys, flags);
      ghost var mem1, tree1 := pmm.ram[..], tree;
      SetLeafEntry(v / 4096, EntryWord(phys, flags), pt, ptIndex);
      OthersTrans(mem0, mem1, pmm.ram[..], tree0, free0, tree1, pmm.free, pmm.managed);
    }

    /** The three-level walk of map. */
    method WalkOrCreate(ghost page: nat, pml4Index: nat, pdptIndex: nat, pdIndex: nat) returns (pt: nat)
      requires Valid() && page < LOWER_PAGES && [pml4Index, pdptIndex, pdIndex] == PathTo(page)
      modifies `tree, pmm`freePages, pmm`free, pmm.ram
      ensures Valid()
      ensures if pt == 0
              then Short(old(pmm.ram[..]), old(tree), old(pmm.free), pmm.ram[..], tree, pmm.free, pmm.managed, page)
              else Walked(old(pmm.ram[..]), old(tree), old(pmm.free), pmm.ram[..], tree, pmm.free, pmm.managed,
                          page, LEVELS)
                   && pt == tree.node[PathTo(page)[..LEVELS]] * 4096
    {
      assert PathTo(page)[..0] == [];
      WalkedStart(pmm.ram[..], tree, pmm.free, pmm.managed, page);
      pt := WalkFromRoot(pml4Index, pdptIndex, pdIndex, page, 0, pmm.ram[..], tree, pmm.free);
    }

    /** The walk of map, from the root on. */
    method WalkFromRoot(pml4Index: nat, pdptIndex: nat, pdIndex: nat, ghost page: nat, ghost level: nat,
                        ghost mem0: seq<u64>, ghost t0: Tree, ghost free0: set<nat>)
      returns (pt: nat)
      requires Valid() && page < LOWER_PAGES && level == 0 && [pml4Index, pdptIndex, pdIndex] == PathTo(page)
      requires Shape(t0) && Walked(mem0, t0, free0, pmm.ram[..], tree, pmm.free, pmm.managed, page, level)
      requires pml4 == tree.node[PathTo(page)[..level]] * 4096
      modifies `tree, pmm`freePages, pmm`free, pmm.ram
      ensures Valid()
      ensures if pt == 0
              then Short(mem0, t0, free0, pmm.ram[..], tree, pmm.free, pmm.managed, page)
              else Walked(mem0, t0, free0, pmm.ram[..], tree, pmm.free, pmm.managed, page, level + 3)
                   && pt == tree.node[PathTo(page)[..level + 3]] * 4096
    {
      var pdpt := Descend(pml4, pml4Index, page, level, mem0, t0, free0);
      if pdpt == 0 {
        return 0;
      }
      pt := WalkBelow(pdpt, pdptIndex, pdIndex, page, level + 1, mem0, t0, free0);
    }

    /** The last two levels of the walk of map. */
    method WalkBelow(pdpt: nat, pdptIndex: nat, pdIndex: nat, ghost page: nat, ghost level: nat,
                     ghost mem0: seq<u64>, ghost t0: Tree, ghost free0: set<nat>)
      returns (pt: nat)
      requires Valid() && page < LOWER_PAGES && level == 1 && [pdptIndex, pdIndex] == PathTo(page)[1..]
      requires Shape(t0) && Walked(mem0, t0, free0, pmm.ram[..], tree, pmm.free, pmm.managed, page, level)
      requires pdpt == tree.node[PathTo(page)[..level]] * 4096
      modifies `tree, pmm`freePages, pmm`free, pmm.ram
      ensures Valid()
      ensures if pt == 0
              then Short(mem0, t0, free0, pmm.ram[..], tree, pmm.free, pmm.managed, page)
              else Walked(mem0, t0, free0, pmm.ram[..], tree, pmm.free, pmm.managed, page, level + 2)
                   && pt == tree.node[PathTo(page)[..level + 2]] * 4096
    {
      var pd := Descend(pdpt, pdptIndex, page, level, mem0, t0, free0);
      if pd == 0 {
        return 0;
      }
      pt := Descend(pd, pdIndex, page, level + 1, mem0, t0, free0);
    }

    /** One level of the walk of map to a page. */
    method Descend(table: nat, index: nat, ghost page: nat, ghost level: nat,
                   ghost mem0: seq<u64>, ghost t0: Tree, ghost free0: set<nat>)
      returns (next: nat)
      requires Valid() && page < LOWER_PAGES && level < 3 && index == PathTo(page)[level]
      requires Shape(t0) && Walked(mem0, t0, free0, pmm.ram[..], tree, pmm.free, pmm.managed, page, level)
      requires table == tree.node[PathTo(page)[..level]] * 4096
      modifies `tree, pmm`freePages, pmm`free, pmm.ram
      ensures Valid()
      ensures if next == 0
              then Short(mem0, t0, free0, pmm.ram[..], tree, pmm.free, pmm.managed, page)
              else Walked(mem0, t0, free0, pmm.ram[..], tree, pmm.free, pmm.managed, page, level + 1)
                   && next == tree.node[PathTo(page)[..level + 1]] * 4096
    {
      ghost var mem, t, free := pmm.ram[..], tree, pmm.free;
      SmallOrs();
      NextPath(page, level);
      next := GetOrCreateTable(table, index, Or(FLAG_WRITABLE, FLAG_USER), PathTo(page)[..level]);
      WalkedNext(mem0, t0, free0, mem, t, free, pmm.managed, page, level, pmm.ram[..], tree, pmm.free, next);
    }

    /** `pt[ptIndex] = w`. */
    method SetLeafEntry(ghost page: nat, w: u64, pt: nat, ptIndex: nat)
      requires Valid()
      requires page < LOWER_PAGES && PathTo(page) in tree.node
      requires pt == tree.node[PathTo(page)] * 4096 && ptIndex == page % 512 && (w == 0 || w % 2 == 1)
      modifies `tree, pmm.ram
      ensures Valid()
      ensures tree == WithLeaf(old(tree), page, w)
      ensures OthersKept(old(pmm.ram[..]), pmm.ram[..], old(tree), pmm.managed, pmm.free)
    {
      ghost var p := PathTo(page);
      NumPathTo(page);
      assert page == Num(p) * 512 + ptIndex;
      LeafMemory(pmm.ram[..], tree, pmm.managed, pmm.free, p, ptIndex, page, w);
      assert tree.node[p] in tree.node.Values;
      WriteWord(pt, ptIndex, w, tree.node[p]);
      tree := WithLeaf(tree, page, w);
    }

    /** Removes the page of v. Tables are never given back. */
    method Unmap(v: u64)
      requires Valid() && v < 0x8000_0000_0000
      modifies `tree, pmm.ram
      ensures Valid()
      ensures tree == Tree(old(tree).node, old(tree).leaf - {v / 4096})
      ensures OthersKept(old(pmm.ram[..]), pmm.ram[..], old(tree), pmm.managed, pmm.free)
    {
      var pml4Index, pdptIndex, pdIndex, ptIndex := Index(v, 39), Index(v, 30), Index(v, 21), Index(v, 12);
      var pt := FindTable(v, pml4Index, pdptIndex, pdIndex);
      if pt == 0 {
        return;
      }
      Indices(v);
      SetLeafEntry(v / 4096, 0, pt, ptIndex);
    }

    /** The three-level walk that unmap and virt_to_phys share. */
    method FindTable(ghost v: u64, pml4Index: nat, pdptIndex: nat, pdIndex: nat) returns (pt: nat)
      requires Valid() && v < 0x8000_0000_0000
      requires [pml4Index, pdptIndex, pdIndex] == [Index(v, 39), Index(v, 30), Index(v, 21)]
      ensures var q := PathTo(v / 4096);
              if q in tree.node then pt == tree.node[q] * 4096 != 0 else pt == 0 && v / 4096 !in tree.leaf
    {
      ghost var page := v / 4096;
      Indices(v);
      NoPath(page);
      var pdpt := Follow(pml4, pml4Index, page, 0);
      if pdpt == 0 {
        return 0;
      }
      var pd := Follow(pdpt, pdptIndex, page, 1);
      if pd == 0 {
        return 0;
      }
      pt := Follow(pd, pdIndex, page, 2);
    }

    /** Where the walk to a page ends early. */
    lemma NoPath(page: nat)
      requires Valid()
      ensures PathTo(page)[..0] == [] && PathTo(page)[..3] == PathTo(page)
      ensures PathTo(page)[..1] !in tree.node || PathTo(page)[..2] !in tree.node ==> PathTo(page) !in tree.node
      ensures PathTo(page) !in tree.node ==> page !in tree.leaf
    {
      WholePath(page);
      MissingBelow(tree, page);
      assert page in tree.leaf ==> LeafOk(tree, page);
    }

    /** One level of the walk: the table an entry leads to, or null if it is not present. */
    method Follow(table: nat, index: nat, ghost page: nat, ghost level: nat) returns (next: nat)
      requires Valid() && page < LOWER_PAGES && level < 3 && index == PathTo(page)[level]
      requires PathTo(page)[..level] in tree.node && table == tree.node[PathTo(page)[..level]] * 4096
      ensures var n := PathTo(page)[..level + 1];
              if n in tree.node then next == tree.node[n] * 4096 != 0 else next == 0
    {
      NextPath(page, level);
      ReadTableEntry(PathTo(page)[..level], index);
      if And(pmm.ram[table / 8 + index], FLAG_PRESENT) == 0 {
        return 0;
      }
      next := Target(pmm.ram[table / 8 + index]);
    }

    /** The frame base the page of v is mapped to, or null. */
    method VirtToPhys(v: u64) returns (phys: nat)
      requires Valid() && v < 0x8000_0000_0000
      ensures phys == if v / 4096 in tree.leaf then Target(tree.leaf[v / 4096]) else 0
    {
      var pml4Index, pdptIndex, pdIndex, ptIndex := Index(v, 39), Index(v, 30), Index(v, 21), Index(v, 12);
      var pt := FindTable(v, pml4Index, pdptIndex, pdIndex);
      if pt == 0 {
        return 0;
      }
      Indices(v);
      ReadLeafEntry(v / 4096);
      if And(pmm.ram[pt / 8 + ptIndex], FLAG_PRESENT) == 0 {
        return 0;
      }
      phys := Target(pmm.ram[pt / 8 + ptIndex]);
    }
  }
}
