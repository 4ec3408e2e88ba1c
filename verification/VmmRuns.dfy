/** Address spaces over whole runs: any sequence of map, unmap and frame allocator calls. */
module VmmRuns {
  import opened Pmm
  import opened PageTree
  import opened Vmm

  datatype State = State(tree: Tree, free: set<nat>)

  /** ok: there were frames enough for the tables that were missing. */
  datatype Change =
    | Mapping(page: nat, word: nat, ok: bool)
    | Unmapping(page: nat)
    | Frames(call: Event)

  /** What one call does; a frame that is a table is not given back. */
  ghost predicate Next(s: State, c: Change, s': State)
  {
    match c
    case Mapping(page, word, ok) =>
      MapEffect(s.tree, s.free, s'.tree, s'.free, page, word) && (ok <==> Missing(s.tree, page) <= |s.free|)
    case Unmapping(page) =>
      s' == State(Tree(s.tree.node, s.tree.leaf - {page}), s.free)
    case Frames(call) =>
      s'.tree == s.tree && Step(s.free, call, s'.free) && (call.Freed? ==> call.frame !in s.tree.node.Values)
  }

  ghost predicate IsHistory(states: seq<State>, changes: seq<Change>)
  {
    && |states| == |changes| + 1
    && forall i :: 0 <= i < |changes| ==> Next(states[i], changes[i], states[i + 1])
  }

  /** The plain page map that the calls describe, with no tables in sight. */
  ghost function Meaning(changes: seq<Change>): map<nat, nat>
  {
    if changes == [] then map[]
    else
      var m := Meaning(changes[..|changes| - 1]);
      match changes[|changes| - 1]
      case Mapping(page, word, ok) => if ok then m[page := word] else m
      case Unmapping(page) => m - {page}
      case Frames(_) => m
  }

  /** In every reachable state the tables translate as the plain map does: failed maps,
      table creation and frame traffic are invisible. */
  lemma {:induction false} RunMeaning(states: seq<State>, changes: seq<Change>, n: nat)
    requires IsHistory(states, changes) && n <= |changes| && states[0].tree.leaf == map[]
    ensures states[n].tree.leaf == Meaning(changes[..n])
  {
    if n != 0 {
      RunMeaning(states, changes, n - 1);
      assert Next(states[n - 1], changes[n - 1], states[n]);
      assert changes[..n][..n - 1] == changes[..n - 1];
    }
  }

  /** Tables, once made, stay at their frames, and no table's frame is ever free. */
  lemma {:induction false} RunOwnership(states: seq<State>, changes: seq<Change>, i: nat, j: nat)
    requires IsHistory(states, changes) && i <= j <= |changes|
    requires states[i].tree.node.Values !! states[i].free
    ensures states[j].tree.node.Values !! states[j].free
    ensures forall p :: p in states[i].tree.node ==>
              p in states[j].tree.node && states[j].tree.node[p] == states[i].tree.node[p]
    decreases j
  {
    if i < j {
      RunOwnership(states, changes, i, j - 1);
      assert Next(states[j - 1], changes[j - 1], states[j]);
    }
  }

  lemma SamePath(page: nat, other: nat)
    requires page / 512 == other / 512
    ensures PathTo(page) == PathTo(other)
  {
    PageQuotients(page);
    PageQuotients(other);
  }

  lemma PageQuotients(page: nat)
    ensures page / 0x4_0000 == page / 512 / 512 && page / 0x800_0000 == page / 512 / 0x4_0000
  {
  }

  /** Once a page has been mapped, mapping it or any page of the same table again, whatever
      was unmapped or mapped since, takes no frame and cannot fail. */
  lemma RemapTakesNone(states: seq<State>, changes: seq<Change>, i: nat, j: nat)
    requires IsHistory(states, changes) && i < j < |changes|
    requires states[i].tree.node.Values !! states[i].free
    requires changes[i].Mapping? && changes[i].ok
    requires changes[j].Mapping? && changes[j].page / 512 == changes[i].page / 512
    ensures changes[j].ok && states[j + 1].free == states[j].free
    ensures states[j + 1].tree.leaf == states[j].tree.leaf[changes[j].page := changes[j].word]
  {
    assert Next(states[i], changes[i], states[i + 1]) && Next(states[j], changes[j], states[j + 1]);
    RunOwnership(states, changes, i, i + 1);
    RunOwnership(states, changes, i + 1, j);
    var page, other := changes[i].page, changes[j].page;
    SamePath(page, other);
    NothingMissing(states[i + 1].tree, states[j].tree, page, other);
    SameSize(states[j + 1].free, states[j].free);
  }

  lemma NothingMissing(t: Tree, t': Tree, page: nat, other: nat)
    requires Walk(page) <= t.node.Keys && PathTo(page) == PathTo(other)
    requires forall p :: p in t.node ==> p in t'.node
    ensures Missing(t', other) == 0
  {
    var q := PathTo(page);
    WholePath(page);
    MissingLevels(t', other);
    assert q[..1] in Walk(page) && q[..2] in Walk(page) && q in Walk(page);
  }

  lemma {:induction false} SameSize(a: set<nat>, b: set<nat>)
    requires a <= b && |a| == |b|
    ensures a == b
  {
    if x :| x in b && x !in a {
      assert a <= b - {x};
      Fewer(a, b - {x});
      assert false;
    }
  }

  lemma {:induction false} Fewer(a: set<nat>, b: set<nat>)
    requires a <= b
    ensures |a| <= |b|
  {
    if x :| x in a {
      Fewer(a - {x}, b - {x});
    }
  }

  /** A map that fails exhausts the allocator; from then until a frame comes back, mapping
      works exactly for the pages whose tables all exist. */
  lemma {:induction false} AfterFailure(states: seq<State>, changes: seq<Change>, i: nat, j: nat)
    requires IsHistory(states, changes) && i < j <= |changes|
    requires changes[i].Mapping? && !changes[i].ok
    requires forall k :: i < k < j ==> !(changes[k].Frames? && changes[k].call.Freed?)
    ensures states[j].free == {}
    ensures j < |changes| && changes[j].Mapping? ==>
      (changes[j].ok <==> Missing(states[j].tree, changes[j].page) == 0)
    decreases j
  {
    assert Next(states[j - 1], changes[j - 1], states[j]);
    if i + 1 < j {
      AfterFailure(states, changes, i, j - 1);
    }
    if j < |changes| {
      assert Next(states[j], changes[j], states[j + 1]);
    }
  }
}
