/** Which page tables and frames the heap's pages cost: the heap maps consecutive pages
    from 2^44 on, and nothing else is mapped in the lower half. */
module HeapPages {
  import opened Words
  import opened PageTree
  import opened Vmm

  /** The page of virtual address 2^44. */
  const FIRST_PAGE: nat := 0x1_0000_0000

  /** The most pages a heap from 2^44 can have below 2^47. */
  const MAX_PAGES: nat := 0x7_0000_0000

  function Ceil(a: nat, b: nat): nat
    requires 0 < b
  {
    (a + b - 1) / b
  }

  /** One more page needs a new table at a level exactly when its index there starts over. */
  function NewTables(k: nat): nat
  {
    (if k % 0x800_0000 == 0 then 1 else 0) + (if k % 0x4_0000 == 0 then 1 else 0) + (if k % 512 == 0 then 1 else 0)
  }

  lemma CeilNext(k: nat, b: nat)
    requires 0 < b
    ensures Ceil(k + 1, b) == Ceil(k, b) + if k % b == 0 then 1 else 0
    ensures Ceil(k + 1, b) == k / b + 1
  {
    var q, r := k / b, k % b;
    DivModUnique(k + b, b, q + 1, r);
    if r == 0 {
      DivModUnique(k + b - 1, b, q, b - 1);
    } else {
      DivModUnique(k + b - 1, b, q + 1, r - 1);
    }
  }

  /** Frames it takes to go from k heap pages to n, one page after the other. */
  function Cost(k: nat, n: nat): nat
    decreases n - k
  {
    if n <= k then 0 else 1 + NewTables(k) + Cost(k + 1, n)
  }

  /** The data frames, and the tables of the three levels, of k heap pages. */
  function TotalCost(k: nat): nat
  {
    k + Ceil(k, 512) + Ceil(k, 0x4_0000) + Ceil(k, 0x800_0000)
  }

  lemma {:induction false} CostClosedForm(k: nat, n: nat)
    requires k <= n
    ensures Cost(k, n) == TotalCost(n) - TotalCost(k)
    decreases n - k
  {
    if k < n {
      CostClosedForm(k + 1, n);
      CeilNext(k, 512);
      CeilNext(k, 0x4_0000);
      CeilNext(k, 0x800_0000);
    }
  }

  /** What the kernel's initial heap of 1024 pages takes. */
  lemma InitialCost()
    ensures Cost(0, 1024) == 1028
  {
    CostClosedForm(0, 1024);
  }

  /** n is one of the table numbers that k pages reach when a table spans b pages. */
  predicate InRange(n: nat, k: nat, b: nat)
    requires 0 < b
  {
    FIRST_PAGE / b <= n < FIRST_PAGE / b + Ceil(k, b)
  }

  /** The tables are exactly those on the way to the first k heap pages. */
  ghost predicate HeapTables(t: Tree, k: nat)
  {
    && (forall p {:trigger Num(p)} :: GoodPath(p) && |p| == 1 ==> (p in t.node <==> InRange(Num(p), k, 0x800_0000)))
    && (forall p {:trigger Num(p)} :: GoodPath(p) && |p| == 2 ==> (p in t.node <==> InRange(Num(p), k, 0x4_0000)))
    && (forall p {:trigger Num(p)} :: GoodPath(p) && |p| == 3 ==> (p in t.node <==> InRange(Num(p), k, 512)))
  }

  lemma RangeNext(k: nat, b: nat, n: nat)
    requires 0 < b && FIRST_PAGE % b == 0
    ensures (FIRST_PAGE + k) / b == FIRST_PAGE / b + k / b
    ensures InRange((FIRST_PAGE + k) / b, k, b) <==> k % b != 0
    ensures InRange(n, k + 1, b) <==> InRange(n, k, b) || n == (FIRST_PAGE + k) / b
  {
    CeilNext(k, b);
    DivModUnique(FIRST_PAGE + k, b, FIRST_PAGE / b + k / b, k % b);
  }

  /** Mapping heap page k makes exactly the tables it costs. */
  lemma HeapMissing(t: Tree, k: nat)
    requires HeapTables(t, k) && k < MAX_PAGES
    ensures Missing(t, FIRST_PAGE + k) == NewTables(k)
  {
    var page := FIRST_PAGE + k;
    var q := PathTo(page);
    NumPathTo(page);
    RangeNext(k, 512, 0);
    RangeNext(k, 0x4_0000, 0);
    RangeNext(k, 0x800_0000, 0);
    WholePath(page);
    MissingLevels(t, page);
    assert GoodPath(q[..1]) && GoodPath(q[..2]) && GoodPath(q[..3]);
  }

  lemma HeapTablesNext(t: Tree, t': Tree, k: nat)
    requires HeapTables(t, k) && k < MAX_PAGES
    requires t'.node.Keys == t.node.Keys + Walk(FIRST_PAGE + k)
    ensures HeapTables(t', k + 1)
  {
    var page := FIRST_PAGE + k;
    var q := PathTo(page);
    NumPathTo(page);
    WholePath(page);
    assert GoodPath(q[..1]) && GoodPath(q[..2]) && GoodPath(q[..3]);
    forall p | GoodPath(p) && 1 <= |p|
      ensures p in t'.node <==> p in t.node || Num(p) == Num(q[..|p|])
    {
      if Num(p) == Num(q[..|p|]) {
        NumInjective(p, q[..|p|]);
      }
      assert q[..3] == q;
    }
    forall p | GoodPath(p) && 1 <= |p|
      ensures p in t'.node <==>
                InRange(Num(p), k + 1, if |p| == 1 then 0x800_0000 else if |p| == 2 then 0x4_0000 else 512)
    {
      assert q[..3] == q;
      RangeNext(k, if |p| == 1 then 0x800_0000 else if |p| == 2 then 0x4_0000 else 512, Num(p));
    }
  }

  /** Nothing is mapped from page bound on, and nothing is mapped to frame 0. */
  ghost predicate MappedBelow(leaf: map<nat, u64>, bound: nat)
  {
    forall page :: page in leaf ==> page < bound && leaf[page] / 4096 != 0
  }

  /** The frames the mapped pages lead to. */
  ghost function PageFrames(leaf: map<nat, u64>): set<nat>
  {
    set page | page in leaf :: leaf[page] / 4096
  }

  /** k heap pages are mapped, writable, each to a frame of its own; the frames are exactly
      those of data. */
  ghost predicate HeapMapped(leaf: map<nat, u64>, k: nat, data: set<nat>)
  {
    && (forall page {:trigger page in leaf} :: page in leaf <==> FIRST_PAGE <= page < FIRST_PAGE + k)
    && (forall page {:trigger leaf[page]} :: page in leaf ==> leaf[page] % 4096 == 3)
    && (forall page, other ::
          page in leaf && other in leaf && leaf[page] / 4096 == leaf[other] / 4096 ==> page == other)
    && PageFrames(leaf) == data
  }

  lemma HeapMappedNext(leaf: map<nat, u64>, k: nat, data: set<nat>, f: nat, w: u64)
    requires HeapMapped(leaf, k, data) && f !in data && w == f * 4096 + 3
    ensures HeapMapped(leaf[FIRST_PAGE + k := w], k + 1, data + {f})
  {
    var page := FIRST_PAGE + k;
    var leaf' := leaf[page := w];
    assert w / 4096 == f && w % 4096 == 3;
    forall p | p in leaf
      ensures leaf[p] / 4096 in data
    {
    }
    forall g
      ensures g in PageFrames(leaf') <==> g in data + {f}
    {
      if g in data {
        var p :| p in leaf && leaf[p] / 4096 == g;
        assert p in leaf' && leaf'[p] / 4096 == g;
      }
      if g == f {
        assert leaf'[page] / 4096 == g;
      }
    }
  }

  /** k pages that share no frame lead to k frames. */
  lemma {:induction false} CountPageFrames(leaf: map<nat, u64>, k: nat)
    requires forall page {:trigger page in leaf} :: page in leaf <==> FIRST_PAGE <= page < FIRST_PAGE + k
    requires forall page, other ::
               page in leaf && other in leaf && leaf[page] / 4096 == leaf[other] / 4096 ==> page == other
    ensures |PageFrames(leaf)| == k
  {
    if k == 0 {
      assert PageFrames(leaf) == {};
    } else {
      var last := FIRST_PAGE + k - 1;
      var rest := leaf - {last};
      CountPageFrames(rest, k - 1);
      var f := leaf[last] / 4096;
      forall g
        ensures g in PageFrames(leaf) <==> g in PageFrames(rest) || g == f
      {
        if g in PageFrames(leaf) && g != f {
          var page :| page in leaf && leaf[page] / 4096 == g;
          assert page in rest && rest[page] / 4096 == g;
        }
        if g in PageFrames(rest) {
          var page :| page in rest && rest[page] / 4096 == g;
          assert page in leaf && leaf[page] / 4096 == g;
        }
        if g == f {
          assert last in leaf && leaf[last] / 4096 == g;
        }
      }
      assert f !in PageFrames(rest);
      assert PageFrames(leaf) == PageFrames(rest) + {f};
    }
  }

  /** Mapping the next heap page to a new data frame f. */
  lemma NextPage(t: Tree, free: set<nat>, t': Tree, free': set<nat>, k: nat, data: set<nat>, f: nat)
    requires HeapTables(t, k) && HeapMapped(t.leaf, k, data) && k < MAX_PAGES && f !in data
    requires MapEffect(t, free, t', free', FIRST_PAGE + k, f * 4096 + 3) && NewTables(k) <= |free|
    ensures HeapTables(t', k + 1) && HeapMapped(t'.leaf, k + 1, data + {f})
    ensures |free'| == |free| - NewTables(k)
  {
    HeapMissing(t, k);
    HeapTablesNext(t, t', k);
    HeapMappedNext(t.leaf, k, data, f, f * 4096 + 3);
  }

  /** Whether or not the frames sufficed, nothing is mapped past the page asked for. */
  lemma NextBelow(t: Tree, free: set<nat>, t': Tree, free': set<nat>, k: nat, f: nat)
    requires MappedBelow(t.leaf, FIRST_PAGE + k) && 0 < f
    requires MapEffect(t, free, t', free', FIRST_PAGE + k, f * 4096 + 3)
    ensures MappedBelow(t'.leaf, FIRST_PAGE + k + 1)
  {
    assert (f * 4096 + 3) / 4096 == f;
  }
}
