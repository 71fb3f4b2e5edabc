/** Shrinking page tables: free_page of kernel/vmem.c, with the present test made at the level just
    reached, indexed as LVL_ADDR intends, and frames handed to kfree through a pointer variable. */
module Unmap {
  import opened Options
  import opened Kalloc
  import opened PageTree
  import opened Vmem

  // ---- what pruning does to the tree and the free list ---------------------------------

  predicate HasChild(nodes: Nodes, p: Path) {
    exists j :: 0 <= j < WORDS && Sub(p, j) in nodes
  }

  /** The upward loop: drop the path tables from level `i` up for as long as they are empty. */
  function Prune(nodes: Nodes, free: seq<int>, va: int, i: int): (Nodes, seq<int>)
    requires i <= 3 && (i >= 0 ==> PathOf(va, i) in nodes && Closed(nodes))
    decreases i + 1
  {
    if i < 0 || HasChild(nodes, PathOf(va, i)) then (nodes, free)
    else
      var p := PathOf(va, i);
      LeafRemoved(nodes, p);
      Prune(nodes - {p}, [nodes[p]] + free, va, i - 1)
  }

  lemma LeafRemoved(nodes: Nodes, p: Path)
    requires Closed(nodes) && p in nodes && !HasChild(nodes, p)
    ensures Closed(nodes - {p}) && (p.Sub? ==> p.parent in nodes - {p})
  {
    if p.Sub? {
      assert Level(p.parent) < Level(p);
    }
  }

  /** Only path nodes go, and a path table stays exactly when something is left below it. */
  lemma {:induction false} PruneExact(nodes: Nodes, free: seq<int>, va: int, i: int)
    requires i <= 3 && (i >= 0 ==> PathOf(va, i) in nodes && Closed(nodes))
    requires forall k :: i < k <= 3 ==> PathOf(va, k) !in nodes && !HasChild(nodes, PathOf(va, k))
    ensures var nodes' := Prune(nodes, free, va, i).0;
      && (forall q :: q in nodes' ==> q in nodes && nodes'[q] == nodes[q])
      && (forall q :: q in nodes && q !in nodes' ==> q == PathOf(va, Level(q)) && Level(q) <= i)
      && (forall k :: 0 <= k <= 3 ==> (PathOf(va, k) in nodes' <==> HasChild(nodes', PathOf(va, k))))
    decreases i + 1
  {
    if i >= 0 {
      var p := PathOf(va, i);
      if !HasChild(nodes, p) {
        LeafRemoved(nodes, p);
        PruneExact(nodes - {p}, [nodes[p]] + free, va, i - 1);
      }
    }
  }

  /** No frame appears or disappears: what leaves the tree goes on the list. */
  lemma {:induction false} PruneConserves(nodes: Nodes, free: seq<int>, va: int, i: int)
    requires i <= 3 && (i >= 0 ==> PathOf(va, i) in nodes && Closed(nodes))
    ensures var (nodes', free') := Prune(nodes, free, va, i);
      nodes'.Values + Listed(free') == nodes.Values + Listed(free)
    decreases i + 1
  {
    if i >= 0 {
      var p := PathOf(va, i);
      if !HasChild(nodes, p) {
        LeafRemoved(nodes, p);
        PruneConserves(nodes - {p}, [nodes[p]] + free, va, i - 1);
        ValuesSplit(nodes, p);
      }
    }
  }

  // ---- memory during pruning -----------------------------------------------------------

  /** A tree, but for entry `j` of the table at `p`, which still points at a node that is gone. */
  ghost predicate TreeBut(mem: Memory, nodes: Nodes, p: Path, j: int) {
    && Top in nodes && Closed(nodes) && p in nodes && Level(p) < 4 && 0 <= j < WORDS && Sub(p, j) !in nodes
    && nodes[p] in mem && |mem[nodes[p]]| == WORDS
    && TableOK(mem[nodes[p] := mem[nodes[p]][j := 0]], nodes, p)
    && forall q {:trigger TableOK(mem, nodes, q)} :: q in nodes && q != p && Level(q) < 4 ==> TableOK(mem, nodes, q)
  }

  /** Dropping a childless node leaves one stale entry, in its parent. */
  lemma DropNode(mem: Memory, mem': Memory, nodes: Nodes, p: Path)
    requires Tree(mem, nodes) && p in nodes && p.Sub? && !HasChild(nodes, p)
    requires mem'.Keys == mem.Keys && forall g :: g in mem && g != nodes[p] ==> mem'[g] == mem[g]
    requires forall q :: q in nodes && nodes[q] == nodes[p] ==> q == p
    ensures TreeBut(mem', nodes - {p}, p.parent, p.index)
  {
    var nodes', t := nodes - {p}, p.parent;
    LeafRemoved(nodes, p);
    assert Level(t) + 1 == Level(p);
    assert TableOK(mem, nodes, t);
    forall q | q in nodes' && q != t && Level(q) < 4 ensures TableOK(mem', nodes', q) {
      assert TableOK(mem, nodes, q);
      SameTable(mem, mem', nodes, nodes', q);
    }
  }

  /** Clearing the stale entry completes the tree. */
  lemma ClearStale(mem: Memory, nodes: Nodes, p: Path, j: int, pool: set<int>)
    requires TreeBut(mem, nodes, p, j) && Owned(nodes, pool)
    ensures Tree(mem[nodes[p] := mem[nodes[p]][j := 0]], nodes)
  {
    var mem' := mem[nodes[p] := mem[nodes[p]][j := 0]];
    forall q | q in nodes && Level(q) < 4 ensures TableOK(mem', nodes, q) {
      if q != p {
        assert TableOK(mem, nodes, q) && Apart(nodes, pool, p, q);
        SameTable(mem, mem', nodes, nodes, q);
      }
    }
  }

  /** Frames of the tree are allocated and nowhere else in it. */
  ghost predicate Kept(a: Allocator, nodes: Nodes)
    reads a
  {
    Owned(nodes, a.pool) && forall p :: p in nodes ==> nodes[p] !in a.free
  }

  /** A table page without present entries. */
  ghost predicate Blank(mem: Memory, table: int) {
    table in mem && |mem[table]| == WORDS && forall j :: 0 <= j < WORDS ==> !Present(mem[table][j])
  }

  /** A page that kfree has linked in holds no present entry: `next` is page aligned, so bit 10 is clear. */
  lemma FreedIsBlank(mem: Memory, f: int, free: seq<int>)
    requires f in mem && mem[f] == ZeroPage()[0 := Link(free, 0)]
    requires forall g :: g in free ==> IsFrame(g)
    ensures Blank(mem, f)
  {
    if free != [] {
      assert free[0] in free;
      assert free[0] / 1024 == 4 * (free[0] / 4096);
    }
  }

  lemma {:induction false} NothingBelow(nodes: Nodes, q: Path)
    requires Closed(nodes) && q in nodes && !HasChild(nodes, Top)
    ensures q == Top
  {
    if q.Sub? {
      NothingBelow(nodes, q.parent);
    }
  }

  lemma KeptDrop(nodes: Nodes, p: Path, pool: set<int>)
    requires Owned(nodes, pool)
    ensures Owned(nodes - {p}, pool)
  {
    forall q, r | q in nodes - {p} && r in nodes - {p} ensures Apart(nodes - {p}, pool, q, r) {
      assert Apart(nodes, pool, q, r);
    }
  }

  lemma Unshared(nodes: Nodes, p: Path, pool: set<int>)
    requires Owned(nodes, pool) && p in nodes && nodes[p] in pool
    ensures forall q :: q in nodes && nodes[q] == nodes[p] ==> q == p
  {
    forall q | q in nodes && nodes[q] == nodes[p] ensures q == p {
      assert Apart(nodes, pool, p, q);
    }
  }

  /** The scan for a present entry. */
  method AnyPresent(a: Allocator, table: int) returns (found: bool)
    requires table in a.mem && |a.mem[table]| == WORDS
    ensures found <==> !Blank(a.mem, table)
  {
    var j := 0;
    while j < WORDS
      invariant 0 <= j <= WORDS
      invariant forall k :: 0 <= k < j ==> !Present(a.mem[table][k])
    {
      if Present(a.mem[table][j]) {
        return true;
      }
      j := j + 1;
    }
    return false;
  }

  /** kfree of the table at level i once nothing hangs below it. */
  method DropTable(a: Allocator, table: int, va: int, i: nat, ghost nodes: Nodes)
    requires a.Valid() && Space(a, nodes) && i <= 3
    requires PathOf(va, i) in nodes && nodes[PathOf(va, i)] == table && !HasChild(nodes, PathOf(va, i))
    modifies a
    ensures a.Valid() && a.pool == old(a.pool) && a.mem.Keys == old(a.mem).Keys
    ensures forall g :: g in a.mem && g != table ==> a.mem[g] == old(a.mem)[g]
    ensures a.free == [table] + old(a.free) && Kept(a, nodes - {PathOf(va, i)})
    ensures i > 0 ==> TreeBut(a.mem, nodes - {PathOf(va, i)}, PathOf(va, i - 1), Index(va, i - 1))
    ensures i == 0 ==> nodes - {PathOf(va, i)} == map[] && Blank(a.mem, table)
  {
    assert TableOK(a.mem, nodes, PathOf(va, i));
    Unshared(nodes, PathOf(va, i), a.pool);
    KeptDrop(nodes, PathOf(va, i), a.pool);
    hide Owned, Tree, TreeBut, TableOK, IsList;
    a.Kfree(table);
    assert a.pool == old(a.pool);
    Last(a.mem, old(a.mem), nodes, va, i, old(a.pool));
    FreedIsBlank(a.mem, table, old(a.free));
  }

  /** One pass of the upward loop: clear the entry, then free the table if nothing is left in it. */
  method PruneLevel(a: Allocator, table: int, va: int, i: nat, ghost nodes: Nodes)
    returns (stop: bool, ghost nodes': Nodes)
    requires a.Valid() && i <= 3
    requires TreeBut(a.mem, nodes, PathOf(va, i), Index(va, i)) && Kept(a, nodes)
    requires nodes[PathOf(va, i)] == table
    modifies a
    ensures a.Valid() && a.pool == old(a.pool) && a.mem.Keys == old(a.mem).Keys
    ensures forall g :: g in a.mem && g != table ==> a.mem[g] == old(a.mem)[g]
    ensures stop <==> HasChild(nodes, PathOf(va, i))
    ensures stop ==> nodes' == nodes && a.free == old(a.free) && Space(a, nodes')
    ensures !stop ==> nodes' == nodes - {PathOf(va, i)} && a.free == [table] + old(a.free) && Kept(a, nodes')
    ensures !stop && i > 0 ==> TreeBut(a.mem, nodes', PathOf(va, i - 1), Index(va, i - 1))
    ensures !stop && i == 0 ==> nodes' == map[] && Blank(a.mem, table)
  {
    ClearStale(a.mem, nodes, PathOf(va, i), Index(va, i), a.pool);
    a.Store(table, Index(va, i), 0);
    assert TableOK(a.mem, nodes, PathOf(va, i));
    stop := AnyPresent(a, table);
    nodes' := nodes;
    if !stop {
      DropTable(a, table, va, i, nodes);
      nodes' := nodes - {PathOf(va, i)};
    }
  }

  /** Freeing the table reached at level i: the parent's entry is stale, or the whole tree is gone. */
  lemma Last(mem': Memory, mem: Memory, nodes: Nodes, va: int, i: nat, pool: set<int>)
    requires i <= 3 && Tree(mem, nodes) && PathOf(va, i) in nodes && !HasChild(nodes, PathOf(va, i))
    requires Owned(nodes, pool)
    requires mem'.Keys == mem.Keys && forall g :: g in mem && g != nodes[PathOf(va, i)] ==> mem'[g] == mem[g]
    ensures i > 0 ==> TreeBut(mem', nodes - {PathOf(va, i)}, PathOf(va, i - 1), Index(va, i - 1))
    ensures i == 0 ==> nodes - {PathOf(va, i)} == map[]
  {
    var p := PathOf(va, i);
    if i > 0 {
      Unshared(nodes, p, pool);
      DropNode(mem, mem', nodes, p);
    } else {
      forall q | q in nodes ensures q == Top {
        NothingBelow(nodes, q);
      }
    }
  }

  // ---- free_page -----------------------------------------------------------------------

  /** What a root pointer refers to: a tree, or after the last unmap a freed page without entries. */
  ghost predicate Rooted(a: Allocator, root: int, nodes: Nodes)
    reads a
  {
    if Top in nodes then Space(a, nodes) && nodes[Top] == root else nodes == map[] && Blank(a.mem, root)
  }

  lemma SpaceRooted(a: Allocator, root: int, nodes: Nodes)
    requires Space(a, nodes) && nodes[Top] == root
    ensures Rooted(a, root, nodes)
  {
  }

  /** The downward loop: the frames met on the walk, all five exactly when `va` is mapped. */
  method Descend(a: Allocator, root: int, va: int, ghost nodes: Nodes) returns (levels: seq<int>)
    requires a.Valid() && Rooted(a, root, nodes)
    ensures 1 <= |levels| <= 5
    ensures |levels| == 5 <==> PathOf(va, 4) in nodes
    ensures |levels| == 5 ==> Top in nodes && forall k :: 0 <= k <= 4 ==>
      PathOf(va, k) in nodes && levels[k] == nodes[PathOf(va, k)]
  {
    levels := [root];
    if Top in nodes {
      assert Closed(nodes);
    }
    hide Rooted, Closed, Present, Phys;
    var i := 1;
    while i < 5
      invariant 1 <= i <= 5 && |levels| == i && levels[0] == root
      invariant i > 1 ==> Top in nodes
      invariant Top in nodes ==> forall k :: 0 <= k < i ==> PathOf(va, k) in nodes && levels[k] == nodes[PathOf(va, k)]
    {
      EntryOnWalk(a, root, nodes, va, i - 1, levels[i - 1]);
      if !Present(a.mem[levels[i - 1]][Index(va, i - 1)]) {
        return;
      }
      levels := levels + [Phys(a.mem[levels[i - 1]][Index(va, i - 1)])];
      i := i + 1;
    }
  }

  lemma EntryOnWalk(a: Allocator, root: int, nodes: Nodes, va: int, i: nat, table: int)
    requires Rooted(a, root, nodes) && i <= 3
    requires if Top in nodes then PathOf(va, i) in nodes && nodes[PathOf(va, i)] == table else i == 0 && table == root
    ensures table in a.mem && |a.mem[table]| == WORDS
    ensures var w := a.mem[table][Index(va, i)];
      && (Present(w) <==> PathOf(va, i + 1) in nodes)
      && (Present(w) ==> Top in nodes && nodes[PathOf(va, i + 1)] == Phys(w))
      && (!Present(w) ==> PathOf(va, 4) !in nodes)
  {
    if Top in nodes {
      ReadEntry(a, nodes, va, i);
      if PathOf(va, i + 1) !in nodes {
        PrefixMissing(nodes, va, i + 1, 4);
      }
    }
  }

  /** The upward loop computes Prune. */
  method PruneUp(a: Allocator, levels: seq<int>, va: int, ghost nodes: Nodes) returns (ghost nodes': Nodes)
    requires a.Valid() && |levels| == 5
    requires TreeBut(a.mem, nodes, PathOf(va, 3), Index(va, 3)) && Kept(a, nodes)
    requires forall k :: 0 <= k <= 3 ==> PathOf(va, k) in nodes && levels[k] == nodes[PathOf(va, k)]
    modifies a
    ensures a.Valid() && a.pool == old(a.pool) && a.mem.Keys == old(a.mem).Keys
    ensures Rooted(a, levels[0], nodes')
    ensures (nodes', a.free) == Prune(nodes, old(a.free), va, 3)
    ensures forall g :: g in a.mem && g !in Tables(nodes) ==> a.mem[g] == old(a.mem)[g]
  {
    hide TableOK, Owned, IsList, Blank;
    nodes' := nodes;
    var i := 3;
    while i >= 0
      invariant -1 <= i <= 3
      invariant a.Valid() && a.pool == old(a.pool) && a.mem.Keys == old(a.mem).Keys
      invariant forall k :: 0 <= k <= i ==> PathOf(va, k) in nodes' && levels[k] == nodes'[PathOf(va, k)]
      invariant i >= 0 ==> TreeBut(a.mem, nodes', PathOf(va, i), Index(va, i)) && Kept(a, nodes')
      invariant i < 0 ==> nodes' == map[] && Blank(a.mem, levels[0])
      invariant Prune(nodes', a.free, va, i) == Prune(nodes, old(a.free), va, 3)
      invariant forall g :: g in a.mem && g !in Tables(nodes) ==> a.mem[g] == old(a.mem)[g]
    {
      assert PathOf(va, i) in nodes && levels[i] in Tables(nodes);
      var stop;
      stop, nodes' := PruneLevel(a, levels[i], va, i, nodes');
      if stop {
        return;
      }
      i := i - 1;
    }
  }

  /** The frame to be freed exists, and no other position of the tree refers to it. */
  ghost predicate Freeable(mem: Memory, nodes: Nodes, p: Path) {
    p in nodes ==> nodes[p] in mem && IsFrame(nodes[p]) && forall q :: q in nodes && nodes[q] == nodes[p] ==> q == p
  }

  lemma AdoptLeaf(nodes: Nodes, p: Path, pool: set<int>)
    requires Owned(nodes, pool) && p in nodes && forall q :: q in nodes && nodes[q] == nodes[p] ==> q == p
    ensures Owned(nodes - {p}, pool + {nodes[p]})
  {
    var nodes' := nodes - {p};
    forall q, r | q in nodes' && r in nodes' ensures Apart(nodes', pool + {nodes[p]}, q, r) {
      assert Apart(nodes, pool, q, r);
    }
  }

  /** The leaf goes first. */
  method FreeLeaf(a: Allocator, frame: int, va: int, ghost nodes: Nodes)
    requires a.Valid() && Space(a, nodes) && PathOf(va, 4) in nodes && nodes[PathOf(va, 4)] == frame
    requires Freeable(a.mem, nodes, PathOf(va, 4))
    modifies a
    ensures a.Valid() && a.free == [frame] + old(a.free) && a.pool == old(a.pool) + {frame}
    ensures a.mem.Keys == old(a.mem).Keys && forall g :: g in a.mem && g != frame ==> a.mem[g] == old(a.mem)[g]
    ensures TreeBut(a.mem, nodes - {PathOf(va, 4)}, PathOf(va, 3), Index(va, 3))
    ensures Kept(a, nodes - {PathOf(va, 4)})
  {
    ghost var leaf := PathOf(va, 4);
    forall j | 0 <= j < WORDS ensures Sub(leaf, j) !in nodes {
      assert Level(Sub(leaf, j)) == 5;
    }
    AdoptLeaf(nodes, leaf, a.pool);
    hide Owned, Tree, TableOK, IsList;
    a.Kfree(frame);
    DropNode(old(a.mem), a.mem, nodes, leaf);
  }

  // ---- what it means -------------------------------------------------------------------

  /** A root pointer reads as the map of its leaves, even when the tree is gone. */
  lemma RootedTranslates(a: Allocator, root: int, nodes: Nodes)
    requires Rooted(a, root, nodes)
    ensures forall v :: Translate(a.mem, root, v) == LeafAt(nodes, v)
  {
    if Top in nodes {
      TreeRefinesMap(a.mem, nodes);
    } else {
      assert forall v :: Walk(a.mem, root, v, 0) == None;
    }
  }

  /** The tree after unmapping `va`: the leaf and the tables left empty are gone, nothing else is. */
  ghost predicate Shrunk(nodes: Nodes, nodes': Nodes, va: int) {
    && PathOf(va, 4) !in nodes'
    && (forall q :: q in nodes' ==> q in nodes && nodes'[q] == nodes[q])
    && (forall q :: q in nodes && q !in nodes' ==> q == PathOf(va, Level(q)))
    && (PathOf(va, 4) in nodes ==>
          forall k :: 0 <= k <= 3 ==> (PathOf(va, k) in nodes' <==> HasChild(nodes', PathOf(va, k))))
  }

  lemma PruneShrinks(nodes: Nodes, free: seq<int>, va: int)
    requires Closed(nodes) && PathOf(va, 4) in nodes
    ensures var n := nodes - {PathOf(va, 4)}; Closed(n) && PathOf(va, 3) in n
    ensures Shrunk(nodes, Prune(nodes - {PathOf(va, 4)}, free, va, 3).0, va)
  {
    forall j | 0 <= j < WORDS ensures Sub(PathOf(va, 4), j) !in nodes {
      assert Level(Sub(PathOf(va, 4), j)) == 5;
    }
    LeafRemoved(nodes, PathOf(va, 4));
    PruneExact(nodes - {PathOf(va, 4)}, free, va, 3);
  }

  lemma ShrunkLeaves(nodes: Nodes, nodes': Nodes, va: int)
    requires Shrunk(nodes, nodes', va) && va >= 0
    ensures forall v :: v >= 0 ==>
      LeafAt(nodes', v) == if PageNumber(v) == PageNumber(va) then None else LeafAt(nodes, v)
  {
    forall v | v >= 0
      ensures LeafAt(nodes', v) == if PageNumber(v) == PageNumber(va) then None else LeafAt(nodes, v)
    {
      SamePath(v, va);
    }
  }

  lemma ValuesSplit(nodes: Nodes, p: Path)
    requires p in nodes
    ensures nodes.Values == (nodes - {p}).Values + {nodes[p]}
  {
    forall f | f in nodes.Values ensures f in (nodes - {p}).Values + {nodes[p]} {
      var q :| q in nodes && nodes[q] == f;
      assert q != p ==> q in nodes - {p};
    }
  }

  /** free_page: unmap one page, freeing its frame and every table that is left empty. */
  method FreePage(a: Allocator, root: int, va: int, ghost nodes: Nodes) returns (ghost nodes': Nodes)
    requires a.Valid() && Rooted(a, root, nodes) && va >= 0 && Freeable(a.mem, nodes, PathOf(va, 4))
    modifies a
    ensures a.Valid() && Rooted(a, root, nodes') && a.mem.Keys == old(a.mem).Keys
    // exactly this page stops translating
    ensures forall v :: v >= 0 ==>
      Translate(a.mem, root, v) == if PageNumber(v) == PageNumber(va) then None else old(Translate(a.mem, root, v))
    ensures Shrunk(nodes, nodes', va)
    // a table on the path stays exactly if it still has an entry
    ensures PathOf(va, 4) in nodes ==> forall k :: 0 <= k <= 3 ==>
      (PathOf(va, k) in nodes' <==> exists j :: 0 <= j < 512 && Sub(PathOf(va, k), j) in nodes')
    ensures PathOf(va, 4) !in nodes ==> View(a, nodes') == old(View(a, nodes))
    // the frames that leave the tree go on the list, and only they are written
    ensures nodes'.Values + Listed(a.free) == nodes.Values + Listed(old(a.free))
    ensures a.pool == old(a.pool) + if PathOf(va, 4) in nodes then {nodes[PathOf(va, 4)]} else {}
    ensures forall g :: g in a.mem && (g !in nodes.Values || g !in a.pool) ==> a.mem[g] == old(a.mem)[g]
  {
    RootedTranslates(a, root, nodes);
    nodes' := FreePath(a, root, va, nodes);
    RootedTranslates(a, root, nodes');
    if PathOf(va, 4) in nodes {
      ghost var leaf := PathOf(va, 4);
      PruneShrinks(nodes, [nodes[leaf]] + old(a.free), va);
      PruneConserves(nodes - {leaf}, [nodes[leaf]] + old(a.free), va, 3);
      ValuesSplit(nodes, leaf);
    }
    ShrunkLeaves(nodes, nodes', va);
    ShrunkTables(nodes, nodes', va);
  }

  lemma ShrunkTables(nodes: Nodes, nodes': Nodes, va: int)
    requires Shrunk(nodes, nodes', va)
    ensures PathOf(va, 4) in nodes ==> forall k :: 0 <= k <= 3 ==>
      (PathOf(va, k) in nodes' <==> exists j :: 0 <= j < 512 && Sub(PathOf(va, k), j) in nodes')
  {
  }

  /** free_page in terms of Prune. */
  method FreePath(a: Allocator, root: int, va: int, ghost nodes: Nodes) returns (ghost nodes': Nodes)
    requires a.Valid() && Rooted(a, root, nodes) && Freeable(a.mem, nodes, PathOf(va, 4))
    modifies a
    ensures a.Valid() && Rooted(a, root, nodes') && a.mem.Keys == old(a.mem).Keys
    ensures forall g :: g in a.mem && (g !in nodes.Values || g !in a.pool) ==> a.mem[g] == old(a.mem)[g]
    ensures PathOf(va, 4) !in nodes ==> View(a, nodes') == old(View(a, nodes))
    ensures PathOf(va, 4) in nodes ==>
      && a.pool == old(a.pool) + {nodes[PathOf(va, 4)]}
      && Top in nodes && Closed(nodes - {PathOf(va, 4)}) && PathOf(va, 3) in nodes - {PathOf(va, 4)}
      && (nodes', a.free) == Prune(nodes - {PathOf(va, 4)}, [nodes[PathOf(va, 4)]] + old(a.free), va, 3)
  {
    var levels := Descend(a, root, va, nodes);
    if |levels| < 5 {
      return nodes;
    }
    FreeLeaf(a, levels[4], va, nodes);
    forall g | g in Tables(nodes - {PathOf(va, 4)}) ensures g in nodes.Values && g in a.pool {
    }
    nodes' := PruneUp(a, levels, va, nodes - {PathOf(va, 4)});
  }
}
