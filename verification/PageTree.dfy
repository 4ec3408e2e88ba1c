/** Four-level page tables as a tree of frames, and the words that encode it.
    A table is named by its path: the indices walked from the PML4 to reach it.
    Only the lower half is described, so the first index is below 256. */
module PageTree {
  import opened Words

  type Path = seq<nat>

  /** node: the frame of each table. leaf: the entry word of each mapped page. */
  datatype Tree = Tree(node: map<Path, nat>, leaf: map<nat, u64>)

  /** Pages of the lower half: addresses below 2^47. */
  const LOWER_PAGES: nat := 0x8_0000_0000

  /** What get_or_create_table puts in the flag bits: present, writable, user. */
  const TABLE_FLAGS: nat := 7

  ghost predicate GoodPath(p: Path)
  {
    |p| <= 3 && (forall i :: 0 <= i < |p| ==> p[i] < 512) && (p != [] ==> p[0] < 256)
  }

  /** Entries of the table at p that belong to the lower half. */
  ghost function Width(p: Path): nat { if p == [] then 256 else 512 }

  function Parent(p: Path): Path
    requires p != []
  {
    p[..|p| - 1]
  }

  /** A path read as a number in base 512. */
  function Num(p: Path): nat
  {
    if p == [] then 0 else Num(Parent(p)) * 512 + p[|p| - 1]
  }

  /** The path of the table that holds the entry of a page. */
  function PathTo(page: nat): Path
  {
    [page / 0x800_0000, page / 0x4_0000 % 512, page / 512 % 512]
  }

  lemma {:induction false} NumInjective(p: Path, q: Path)
    requires GoodPath(p) && GoodPath(q) && |p| == |q| && Num(p) == Num(q)
    ensures p == q
    decreases |p|
  {
    if p != [] {
      NumInjective(Parent(p), Parent(q));
      assert p == Parent(p) + [p[|p| - 1]] && q == Parent(q) + [q[|q| - 1]];
    }
  }

  lemma NumOfThree(p: Path)
    requires |p| == 3
    ensures Num(p[..1]) == p[0] && Num(p[..2]) == p[0] * 512 + p[1]
    ensures Num(p) == (p[0] * 512 + p[1]) * 512 + p[2]
  {
    assert Parent(p) == p[..2] && Parent(p[..2]) == p[..1] && Parent(p[..1]) == [];
  }

  lemma NumPathTo(page: nat)
    requires page < LOWER_PAGES
    ensures GoodPath(PathTo(page)) && Num(PathTo(page)) == page / 512
    ensures Num(PathTo(page)[..2]) == page / 0x4_0000
    ensures Num(PathTo(page)[..1]) == page / 0x800_0000
  {
    NumOfThree(PathTo(page));
  }

  lemma Digits(a: nat, b: nat, c: nat, i: nat)
    requires a < 256 && b < 512 && c < 512 && i < 512
    ensures var page := ((a * 512 + b) * 512 + c) * 512 + i;
            page < LOWER_PAGES && page / 0x800_0000 == a && page / 0x4_0000 % 512 == b && page / 512 % 512 == c
  {
    var page := ((a * 512 + b) * 512 + c) * 512 + i;
    assert page / 512 == (a * 512 + b) * 512 + c;
    assert page / 0x4_0000 == a * 512 + b;
  }

  /** The table path is determined by the page number without its last nine bits. */
  lemma PathToOf(p: Path, i: nat)
    requires GoodPath(p) && |p| == 3 && i < 512
    ensures Num(p) * 512 + i < LOWER_PAGES && PathTo(Num(p) * 512 + i) == p
  {
    NumOfThree(p);
    Digits(p[0], p[1], p[2], i);
  }

  // ---- Shape ----------------------------------------------------------------------

  /** Every table but the root is referenced by its parent, and by nothing else:
      tables are told apart by their frames, so the structure is a tree. */
  ghost predicate Shape(t: Tree)
  {
    && [] in t.node
    && (forall p :: p in t.node ==> GoodPath(p))
    && (forall p {:trigger Parent(p)} :: p in t.node && p != [] ==> Parent(p) in t.node)
    && (forall p, q {:trigger Collide(t, p, q)} :: !Collide(t, p, q))
    && (forall page {:trigger page in t.leaf} :: page in t.leaf ==> LeafOk(t, page))
  }

  /** Two tables in one frame. */
  ghost predicate Collide(t: Tree, p: Path, q: Path)
  {
    p in t.node && q in t.node && p != q && t.node[p] == t.node[q]
  }

  ghost predicate LeafOk(t: Tree, page: nat)
  {
    page in t.leaf && page < LOWER_PAGES && PathTo(page) in t.node && t.leaf[page] % 2 == 1
  }

  /** The word that entry i of the table at p must hold. */
  ghost function EntryOf(t: Tree, p: Path, i: nat): nat
  {
    if |p| < 3 then
      if p + [i] in t.node then t.node[p + [i]] * 4096 + TABLE_FLAGS else 0
    else
      var page := Num(p) * 512 + i;
      if page in t.leaf then t.leaf[page] else 0
  }

  /** Word i of frame f. */
  function Word(mem: seq<u64>, f: nat, i: nat): u64
    requires f * 512 + i < |mem|
  {
    mem[f * 512 + i]
  }

  ghost predicate FitsIn(mem: seq<u64>, t: Tree)
  {
    forall p :: p in t.node ==> t.node[p] * 512 + 512 <= |mem|
  }

  /** The table frames hold exactly the words the tree calls for. */
  ghost predicate Encodes(mem: seq<u64>, t: Tree)
    requires FitsIn(mem, t)
  {
    forall p, i: nat {:trigger EntryOf(t, p, i)} ::
      p in t.node && i < Width(p) ==> Word(mem, t.node[p], i) == EntryOf(t, p, i)
  }

  ghost predicate Zeroed(mem: seq<u64>, f: nat)
    requires f * 512 + 512 <= |mem|
  {
    forall i: nat :: i < 512 ==> Word(mem, f, i) == 0
  }

  lemma WordUpdate(mem: seq<u64>, f: nat, i: nat, w: u64, g: nat, j: nat)
    requires f * 512 + 512 <= |mem| && g * 512 + 512 <= |mem| && i < 512 && j < 512
    ensures Word(mem[f * 512 + i := w], g, j) == if g == f && j == i then w else Word(mem, g, j)
  {
  }

  /** Memory outside the table frames does not matter. */
  lemma EncodesFrame(mem: seq<u64>, mem': seq<u64>, t: Tree)
    requires |mem'| == |mem| && Shape(t) && FitsIn(mem, t) && Encodes(mem, t)
    requires forall p, i: nat :: p in t.node && i < 512 ==> Word(mem', t.node[p], i) == Word(mem, t.node[p], i)
    ensures Encodes(mem', t)
  {
  }

  // ---- The three updates ---------------------------------------------------------------

  /** Hanging a zeroed frame f under entry i of the table at p. */
  lemma AddTable(mem: seq<u64>, t: Tree, p: Path, i: nat, f: nat, w: u64)
    requires Shape(t) && FitsIn(mem, t) && Encodes(mem, t)
    requires p in t.node && |p| < 3 && i < Width(p) && p + [i] !in t.node
    requires f * 512 + 512 <= |mem| && Zeroed(mem, f) && f !in t.node.Values
    requires w == f * 4096 + TABLE_FLAGS
    ensures var t' := t.(node := t.node[p + [i] := f]);
            var mem' := mem[t.node[p] * 512 + i := w];
            Shape(t') && FitsIn(mem', t') && Encodes(mem', t')
  {
    var n := p + [i];
    var t' := t.(node := t.node[n := f]);
    var mem' := mem[t.node[p] * 512 + i := w];
    assert Parent(n) == p;
    assert t.node[p] in t.node.Values;
    forall x, y
      ensures !Collide(t', x, y)
    {
      assert !Collide(t, x, y);
      assert x in t.node ==> t.node[x] in t.node.Values;
      assert y in t.node ==> t.node[y] in t.node.Values;
    }
    forall q, j: nat | q in t'.node && j < Width(q)
      ensures Word(mem', t'.node[q], j) == EntryOf(t', q, j)
    {
      WordUpdate(mem, t.node[p], i, w, t'.node[q], j);
      assert !Collide(t, p, q);
      assert Parent(q + [j]) == q;
      if q == n {
        NewTableEmpty(t, n, j);
      } else {
        assert EntryOf(t, q, j) == Word(mem, t.node[q], j);
        assert q + [j] == n ==> q == p && j == i by {
          assert (q + [j])[|q|] == j && (p + [i])[|p|] == i;
        }
      }
    }
  }

  lemma NewTableEmpty(t: Tree, n: Path, j: nat)
    requires Shape(t) && n !in t.node && GoodPath(n) && j < 512
    ensures n + [j] !in t.node && EntryOf(t, n, j) == 0
  {
    assert Parent(n + [j]) == n;
    if |n| == 3 {
      PathToOf(n, j);
    }
  }

  /** The tree with the entry word of a page replaced; zero removes the page. */
  function WithLeaf(t: Tree, page: nat, w: u64): Tree
  {
    Tree(t.node, if w == 0 then t.leaf - {page} else t.leaf[page := w])
  }

  /** Writing entry i of the last-level table at p. */
  lemma SetLeaf(mem: seq<u64>, t: Tree, p: Path, i: nat, page: nat, w: u64)
    requires Shape(t) && FitsIn(mem, t) && Encodes(mem, t)
    requires p in t.node && |p| == 3 && i < 512 && page == Num(p) * 512 + i && (w == 0 || w % 2 == 1)
    ensures var t' := WithLeaf(t, page, w);
            var mem' := mem[t.node[p] * 512 + i := w];
            Shape(t') && FitsIn(mem', t') && Encodes(mem', t')
  {
    SetLeafShape(t, p, i, page, w);
    SetLeafEncodes(mem, t, p, i, page, w);
  }

  lemma SetLeafShape(t: Tree, p: Path, i: nat, page: nat, w: u64)
    requires Shape(t) && p in t.node && |p| == 3 && i < 512 && page == Num(p) * 512 + i && (w == 0 || w % 2 == 1)
    ensures Shape(WithLeaf(t, page, w))
  {
    PathToOf(p, i);
    var t' := WithLeaf(t, page, w);
    forall x, y
      ensures !Collide(t', x, y)
    {
      assert !Collide(t, x, y);
    }
    forall other | other in t'.leaf
      ensures LeafOk(t', other)
    {
      assert other != page ==> LeafOk(t, other);
    }
  }

  lemma SetLeafEncodes(mem: seq<u64>, t: Tree, p: Path, i: nat, page: nat, w: u64)
    requires Shape(t) && FitsIn(mem, t) && Encodes(mem, t)
    requires p in t.node && |p| == 3 && i < 512 && page == Num(p) * 512 + i
    ensures var t' := WithLeaf(t, page, w);
            var mem' := mem[t.node[p] * 512 + i := w];
            FitsIn(mem', t') && Encodes(mem', t')
  {
    var t' := WithLeaf(t, page, w);
    var mem' := mem[t.node[p] * 512 + i := w];
    forall q, j: nat {:trigger EntryOf(t', q, j)} | q in t'.node && j < Width(q)
      ensures Word(mem', t.node[q], j) == EntryOf(t', q, j)
    {
      WordUpdate(mem, t.node[p], i, w, t.node[q], j);
      assert !Collide(t, p, q);
      SetLeafEntry(t, p, i, page, w, q, j);
      var e := EntryOf(t, q, j);
    }
  }

  lemma SetLeafEntry(t: Tree, p: Path, i: nat, page: nat, w: u64, q: Path, j: nat)
    requires Shape(t) && p in t.node && |p| == 3 && i < 512 && page == Num(p) * 512 + i
    requires q in t.node && j < Width(q)
    ensures EntryOf(WithLeaf(t, page, w), q, j)
         == if t.node[q] == t.node[p] && j == i then w else EntryOf(t, q, j)
  {
    assert !Collide(t, p, q);
    SamePage(p, i, q, j);
  }

  lemma SamePage(p: Path, i: nat, q: Path, j: nat)
    requires GoodPath(p) && GoodPath(q) && |p| == 3 && i < 512 && j < 512
    ensures |q| == 3 && Num(q) * 512 + j == Num(p) * 512 + i ==> q == p && j == i
  {
    if |q| == 3 && Num(q) * 512 + j == Num(p) * 512 + i {
      NumInjective(p, q);
    }
  }
}
