/** Every kernel operation that moves frames, on one pool: allocator, page tables and processes. */
module System {
  import opened Options
  import opened Kalloc
  import opened PageTree
  import opened Vmem
  import opened Footprint
  import opened Unmap
  import opened Teardown
  import opened Clone
  import opened Process
  import opened Kernel
  import opened Lifecycle
  import opened Ownership

  /** The books describe the allocator, its pool is partitioned, and every tree is well formed. */
  ghost predicate Balanced(a: Allocator, b: Books)
    reads a
  {
    a.Valid() && b.free == a.free && b.pool == a.pool && Partition(b) && Sound(a.mem, b)
  }

  /** An operation moved frames between the free list and `x` and left the books balanced. */
  ghost predicate Moved(a: Allocator, b: Books, b': Books, x: Owner)
    reads a
  {
    Balanced(a, b') && Exchange(b, b', x)
  }

  // ---- frames handed to a caller -------------------------------------------------------

  lemma LooseApart(b: Books)
    requires Partition(b)
    ensures Listed(b.free) !! b.loose && b.loose <= b.pool
  {
    forall f | f in b.loose ensures f in b.pool && f !in Listed(b.free) {
      assert Holds(b, Loose, f);
      assert f in Listed(b.free) ==> Holds(b, FreeList, f);
    }
  }

  lemma SettleLoose(b: Books, b': Books, mem: Memory, mem': Memory)
    requires Partition(b) && Sound(mem, b)
    requires b'.pool == b.pool && b'.spaces == b.spaces && b'.table == b.table && b'.building == b.building
    requires Listed(b'.free) + b'.loose == Listed(b.free) + b.loose && Listed(b'.free) !! b'.loose
    requires mem'.Keys == mem.Keys && forall g :: g in mem && g !in b.free && g !in b.loose ==> mem'[g] == mem[g]
    ensures Exchange(b, b', Loose) && Partition(b') && Sound(mem', b')
  {
    LooseExchange(b, b');
    assert WritesOnly(b, Loose, mem, mem');
    hide Partition, Sound, Exchange, WritesOnly;
    Settle(b, b', Loose, mem, mem');
  }

  /** kalloc for a caller that keeps the frame. */
  method TakeFrame(a: Allocator, ghost b: Books) returns (f: int, ghost b': Books)
    requires Balanced(a, b)
    modifies a
    ensures Moved(a, b, b', Loose) && b'.spaces == b.spaces && b'.table == b.table
    ensures b'.building == b.building
    ensures f == NULL <==> old(a.free) == []
    ensures f != NULL ==> f == b.free[0]
    ensures b'.loose == if f == NULL then b.loose else b.loose + {f}
  {
    LooseApart(b);
    hide Partition, Sound, Exchange;
    f := a.Kalloc();
    b' := b.(free := a.free, loose := if f == NULL then b.loose else b.loose + {f});
    if f != NULL {
      assert b.free == [f] + a.free;
    }
    SettleLoose(b, b', old(a.mem), a.mem);
  }

  /** kfree of a frame taken before. */
  method ReturnFrame(a: Allocator, f: int, ghost b: Books) returns (ghost b': Books)
    requires Balanced(a, b) && f in b.loose
    modifies a
    ensures Moved(a, b, b', Loose) && b'.spaces == b.spaces && b'.table == b.table
    ensures b'.building == b.building
    ensures b'.loose == b.loose - {f} && f in a.free
  {
    LooseApart(b);
    hide Partition, Sound, Exchange;
    a.Kfree(f);
    b' := b.(free := a.free, loose := b.loose - {f});
    SettleLoose(b, b', old(a.mem), a.mem);
  }

  // ---- page tables ---------------------------------------------------------------------

  /** The tree at `root`, if any, is sound and holds nothing that is free. */
  lemma PagesApart(b: Books, mem: Memory, root: int)
    requires Partition(b) && Sound(mem, b)
    ensures Listed(b.free) !! Holding(b, Pages(root)) && Holding(b, Pages(root)) <= b.pool
    ensures root in b.spaces ==>
      SpaceIn(mem, b.free, b.pool, b.spaces[root]) && Top in b.spaces[root] && b.spaces[root][Top] == root
    ensures root in b.free ==> root !in b.spaces
  {
    forall f | f in Holding(b, Pages(root)) ensures f in b.pool && f !in Listed(b.free) {
      assert Holds(b, Pages(root), f);
      assert f in Listed(b.free) ==> Holds(b, FreeList, f);
    }
  }

  /** The books when only the tree at `root` and the free list changed. */
  ghost predicate TreeOnly(b: Books, b': Books, root: int) {
    && b'.pool == b.pool && b'.loose == b.loose && b'.table == b.table && b'.building == b.building
    && b'.spaces - {root} == b.spaces - {root}
  }

  lemma SettlePages(b: Books, b': Books, root: int, mem: Memory, mem': Memory)
    requires Partition(b) && Sound(mem, b) && TreeOnly(b, b', root)
    requires Listed(b'.free) + Holding(b', Pages(root)) == Listed(b.free) + Holding(b, Pages(root))
    requires Listed(b'.free) !! Holding(b', Pages(root))
    requires mem'.Keys == mem.Keys
    requires forall g :: g in mem && g !in b.free && g !in Holding(b, Pages(root)) ==> mem'[g] == mem[g]
    requires root in b'.spaces ==> SpaceIn(mem', b'.free, b'.pool, b'.spaces[root]) && b'.spaces[root][Top] == root
    ensures Exchange(b, b', Pages(root)) && Partition(b') && Sound(mem', b')
  {
    PagesExchange(b, b', root);
    assert WritesOnly(b, Pages(root), mem, mem');
    forall r | r in b'.spaces && r != root ensures r in b.spaces && b'.spaces[r] == b.spaces[r] {
      assert r in b'.spaces - {root};
    }
    hide Partition, Sound, Exchange, WritesOnly, SpaceIn, Holding;
    Settle(b, b', Pages(root), mem, mem');
  }

  /** Without the set of pool frames: what the tree and the list hold together stays the same. */
  lemma SameTogether(b: Books, b': Books, root: int)
    requires b'.pool == b.pool
    requires (forall f :: f in b.free ==> f in b.pool) && forall f :: f in b'.free ==> f in b.pool
    requires root in b.spaces && (root !in b'.spaces ==> b.spaces[root].Values <= b.pool)
    requires (if root in b'.spaces then b'.spaces[root].Values else {}) + Listed(b'.free) ==
      b.spaces[root].Values + Listed(b.free)
    ensures Listed(b'.free) + Holding(b', Pages(root)) == Listed(b.free) + Holding(b, Pages(root))
  {
    forall f
      ensures f in Listed(b'.free) + Holding(b', Pages(root)) <==> f in Listed(b.free) + Holding(b, Pages(root))
    {
      var v' := if root in b'.spaces then b'.spaces[root].Values else {};
      assert f in v' + Listed(b'.free) <==> f in b.spaces[root].Values + Listed(b.free);
    }
  }

  lemma EmptyRoot(mem: Memory, root: int, free: seq<int>, pool: set<int>)
    requires root in mem && mem[root] == ZeroPage() && root in pool && root !in free
    ensures SpaceIn(mem, free, pool, map[Top := root])
    ensures forall nodes: Nodes :: nodes == map[Top := root] ==> nodes.Values * pool == {root}
  {
    var nodes: Nodes := map[Top := root];
    EmptyTable(mem, nodes, Top);
    assert Apart(nodes, pool, Top, Top);
    assert nodes[Top] == root;
  }

  /** A fresh root table, as make_kpagetable allocates it. */
  method NewSpace(a: Allocator, ghost b: Books) returns (root: int, ghost b': Books)
    requires Balanced(a, b)
    modifies a
    ensures root == NULL <==> old(a.free) == []
    ensures root == NULL ==> b' == b && Balanced(a, b')
    ensures root != NULL ==> Moved(a, b, b', Pages(root)) && b'.spaces == b.spaces[root := map[Top := root]]
    ensures root != NULL ==> root == b.free[0] && root in b.pool && b'.table == b.table && b'.loose == b.loose
    ensures root != NULL ==> b'.building == b.building
  {
    hide Partition, Sound, Exchange, a.Valid, SpaceIn;
    PagesApart(b, a.mem, Link(b.free, 0));
    FreeInPool(a);
    if b.free != [] {
      PoolFrame(a, b.free[0]);
    }
    root := a.Kalloc();
    b' := b;
    if root != NULL {
      assert b.free == [root] + a.free;
      EmptyRoot(a.mem, root, a.free, a.pool);
      b' := b.(free := a.free, spaces := b.spaces[root := map[Top := root]]);
      SettlePages(b, b', root, old(a.mem), a.mem);
    }
  }

  lemma TablesHeld(b: Books, root: int, mem: Memory)
    requires root in b.spaces && SpaceIn(mem, b.free, b.pool, b.spaces[root])
    ensures forall g :: g in Tables(b.spaces[root]) ==> g in Holding(b, Pages(root))
  {
  }

  lemma GrowthFacts(s: Snapshot, t: Snapshot, va: int)
    requires Growth(s, t, va)
    ensures t.pool == s.pool && t.mem.Keys == s.mem.Keys && Held(t) == Held(s)
    ensures forall g :: g in s.mem && g !in Tables(s.nodes) && g !in s.free ==> t.mem[g] == s.mem[g]
  {
  }

  /** The books after the tree at `root` became `nodes`. */
  ghost function Rebooked(b: Books, root: int, nodes: Nodes, free: seq<int>): Books {
    b.(free := free, spaces := b.spaces[root := nodes])
  }

  lemma SettleGrowth(b: Books, root: int, nodes: Nodes, free: seq<int>, va: int, mem: Memory, mem': Memory)
    requires Partition(b) && Sound(mem, b) && root in b.spaces
    requires SpaceIn(mem', free, b.pool, nodes) && Top in nodes && nodes[Top] == root
    requires Growth(Snapshot(mem, b.free, b.pool, b.spaces[root]), Snapshot(mem', free, b.pool, nodes), va)
    ensures var b' := Rebooked(b, root, nodes, free);
      Exchange(b, b', Pages(root)) && Partition(b') && Sound(mem', b') && TreeOnly(b, b', root)
  {
    hide Partition, Sound, Exchange, TreeOnly, Growth, SpaceIn;
    var b' := Rebooked(b, root, nodes, free);
    SpaceOf(b, root, mem);
    TablesHeld(b, root, mem);
    GrowthFacts(Snapshot(mem, b.free, b.pool, b.spaces[root]), Snapshot(mem', free, b.pool, nodes), va);
    RebookedOnly(b, root, nodes, free, mem');
    SettlePages(b, b', root, mem, mem');
  }

  lemma SpaceOf(b: Books, root: int, mem: Memory)
    requires Sound(mem, b) && root in b.spaces
    ensures SpaceIn(mem, b.free, b.pool, b.spaces[root])
  {
    hide SpaceIn;
  }

  lemma RebookedOnly(b: Books, root: int, nodes: Nodes, free: seq<int>, mem': Memory)
    requires root in b.spaces && SpaceIn(mem', free, b.pool, nodes)
    ensures var b' := Rebooked(b, root, nodes, free);
      TreeOnly(b, b', root) && b'.spaces[root] == nodes && Listed(b'.free) !! Holding(b', Pages(root))
  {
  }

  /** A caller's address is entered for `va`. */
  predicate Entered(nodes: Nodes, nodes': Nodes, va: int, pa: int) {
    pa != 0 && PathOf(va, 4) in nodes' && PathOf(va, 4) !in nodes
  }

  /** After get_physical_page the page is mapped if it was before or could be, and the tree and the list together
      hold the same frames, but for a caller's address that is entered. */
  ghost predicate PageEntered(nodes: Nodes, free: seq<int>, nodes': Nodes, free': seq<int>, va: int, pa: int,
                              kind: int) {
    && (PathOf(va, 4) in nodes' <==> PathOf(va, 4) in nodes || (0 <= kind <= 2 && Need(nodes, va, pa, 0) <= |free|))
    && nodes'.Values + Listed(free') ==
         nodes.Values + Listed(free) + (if Entered(nodes, nodes', va, pa) then {pa % PHYS_LIMIT} else {})
    && nodes.Values <= nodes'.Values
  }

  lemma PageEnteredIntro(s: Snapshot, t: Snapshot, root: int, va: int, pa: int, kind: int)
    requires Tree(s.mem, s.nodes) && Tree(t.mem, t.nodes) && s.nodes[Top] == root == t.nodes[Top]
    requires Growth(s, t, va) && NewFrames(s.nodes, t.nodes, s.free, pa)
    requires Translate(s.mem, root, va).Some? ==> t == s
    requires Translate(s.mem, root, va).None? ==>
      if 0 <= kind <= 2 && Need(s.nodes, va, pa, 0) <= |s.free| then
        Translate(t.mem, root, va).Some? && (pa != 0 ==> Translate(t.mem, root, va) == Some(pa % PHYS_LIMIT))
      else Translate(t.mem, root, va).None?
    ensures PageEntered(s.nodes, s.free, t.nodes, t.free, va, pa, kind)
  {
    assert Closed(t.nodes);
    WalkIsLeaf(s.mem, s.nodes, va, 0);
    WalkIsLeaf(t.mem, t.nodes, va, 0);
    KeptValues(s, t, va);
    hide Growth, NewFrames, Need, TableOK, Closed, Listed;
    EnteredFrames(s, t, va, pa, Entered(s.nodes, t.nodes, va, pa));
  }

  /** get_physical_page, reduced to what the books need. */
  method GrowTree(a: Allocator, root: int, va: int, pa: int, kind: int, ghost nodes: Nodes)
    returns (r: int, ghost nodes': Nodes)
    requires a.Valid() && SpaceIn(a.mem, a.free, a.pool, nodes) && Top in nodes && nodes[Top] == root
    requires va >= 0 && pa >= 0 && (pa != 0 ==> pa % PHYS_LIMIT !in a.pool)
    modifies a
    ensures a.Valid() && a.pool == old(a.pool)
    ensures SpaceIn(a.mem, a.free, a.pool, nodes') && Top in nodes' && nodes'[Top] == root
    ensures Growth(Snapshot(old(a.mem), old(a.free), a.pool, nodes), Snapshot(a.mem, a.free, a.pool, nodes'), va)
    ensures PageEntered(nodes, old(a.free), nodes', a.free, va, pa, kind)
  {
    hide Growth, NewFrames, Translate, PageNumber, PageEntered, Need, Missing, a.Valid;
    r, nodes' := GetPhysicalPage(a, root, va, pa, kind, nodes);
    GrowthFacts(old(View(a, nodes)), View(a, nodes'), va);
    PageEnteredIntro(old(View(a, nodes)), View(a, nodes'), root, va, pa, kind);
  }

  lemma FreeInPool(a: Allocator)
    requires a.Valid()
    ensures forall f :: f in a.free ==> f in a.pool
  {
  }

  /** get_physical_page on one of the trees. */
  method Grow(a: Allocator, root: int, va: int, pa: int, kind: int, ghost b: Books) returns (r: int, ghost b': Books)
    requires Balanced(a, b) && root in b.spaces && va >= 0 && pa >= 0 && (pa != 0 ==> pa % PHYS_LIMIT !in a.pool)
    modifies a
    ensures Moved(a, b, b', Pages(root)) && root in b'.spaces && TreeOnly(b, b', root)
    ensures PageEntered(b.spaces[root], b.free, b'.spaces[root], b'.free, va, pa, kind)
  {
    PagesApart(b, a.mem, root);
    hide Partition, Sound, Exchange, Growth, SpaceIn, TreeOnly, PageEntered, a.Valid;
    ghost var nodes;
    r, nodes := GrowTree(a, root, va, pa, kind, b.spaces[root]);
    b' := Rebooked(b, root, nodes, a.free);
    SettleGrowth(b, root, nodes, a.free, va, old(a.mem), a.mem);
  }

  lemma SettleShrink(b: Books, b': Books, root: int, mem: Memory, mem': Memory)
    requires Partition(b) && Sound(mem, b) && TreeOnly(b, b', root) && root in b.spaces
    requires root in b'.spaces ==> SpaceIn(mem', b'.free, b'.pool, b'.spaces[root]) && b'.spaces[root][Top] == root
    requires forall f :: f in b'.free ==> f in b.pool
    requires (if root in b'.spaces then b'.spaces[root].Values else {}) + Listed(b'.free) ==
      b.spaces[root].Values + Listed(b.free)
    requires mem'.Keys == mem.Keys
    requires forall g :: g in mem && (g !in b.spaces[root].Values || g !in b.pool) ==> mem'[g] == mem[g]
    ensures Exchange(b, b', Pages(root)) && Partition(b') && Sound(mem', b')
  {
    assert forall f :: f in b.free ==> Holds(b, FreeList, f);
    if root !in b'.spaces {
      assert forall f :: f in b.spaces[root].Values ==> f in {} + Listed(b'.free);
    }
    SameTogether(b, b', root);
    assert Listed(b'.free) !! Holding(b', Pages(root));
    hide Partition, Sound, Exchange, TreeOnly, SpaceIn;
    SettlePages(b, b', root, mem, mem');
  }

  /** free_page, reduced to what the books need. */
  method ShrinkTree(a: Allocator, root: int, va: int, ghost nodes: Nodes) returns (ghost nodes': Nodes)
    requires a.Valid() && SpaceIn(a.mem, a.free, a.pool, nodes) && Top in nodes && nodes[Top] == root && va >= 0
    requires PathOf(va, 4) in nodes ==> nodes[PathOf(va, 4)] in a.pool
    modifies a
    ensures a.Valid() && a.pool == old(a.pool) && a.mem.Keys == old(a.mem).Keys
    ensures Top in nodes' ==> SpaceIn(a.mem, a.free, a.pool, nodes') && nodes'[Top] == root
    ensures Top !in nodes' ==> nodes'.Values == {}
    ensures PathOf(va, 4) !in nodes'
    ensures nodes'.Values + Listed(a.free) == nodes.Values + Listed(old(a.free))
    ensures forall g :: g in a.mem && (g !in nodes.Values || g !in a.pool) ==> a.mem[g] == old(a.mem)[g]
  {
    hide a.Valid, Translate, Rooted, Shrunk, SpaceIn, Freeable, PageNumber;
    OwnedIn(a, nodes);
    FreeableLeaf(a, nodes, va);
    SpaceRooted(a, root, nodes);
    PoolSame(a.pool, nodes, va);
    nodes' := FreePage(a, root, va, nodes);
    RootedSpace(a, root, nodes');
    LeafGone(nodes, nodes', va);
  }

  lemma OwnedIn(a: Allocator, nodes: Nodes)
    requires SpaceIn(a.mem, a.free, a.pool, nodes)
    ensures Owned(nodes, a.pool)
  {
  }

  lemma PoolSame(pool: set<int>, nodes: Nodes, va: int)
    requires PathOf(va, 4) in nodes ==> nodes[PathOf(va, 4)] in pool
    ensures pool + (if PathOf(va, 4) in nodes then {nodes[PathOf(va, 4)]} else {}) == pool
  {
  }

  lemma LeafGone(nodes: Nodes, nodes': Nodes, va: int)
    requires Shrunk(nodes, nodes', va)
    ensures PathOf(va, 4) !in nodes'
  {
  }

  lemma FreeableLeaf(a: Allocator, nodes: Nodes, va: int)
    requires a.Valid() && Owned(nodes, a.pool) && (PathOf(va, 4) in nodes ==> nodes[PathOf(va, 4)] in a.pool)
    ensures Freeable(a.mem, nodes, PathOf(va, 4))
  {
    if PathOf(va, 4) in nodes {
      PoolFrame(a, nodes[PathOf(va, 4)]);
      Unshared(nodes, PathOf(va, 4), a.pool);
    }
  }

  lemma RootedSpace(a: Allocator, root: int, nodes: Nodes)
    requires Rooted(a, root, nodes)
    ensures Top in nodes ==> SpaceIn(a.mem, a.free, a.pool, nodes) && nodes[Top] == root
    ensures Top !in nodes ==> nodes.Values == {}
  {
  }

  /** free_page on one of the trees, for a page the allocator provided. */
  method UnmapPage(a: Allocator, root: int, va: int, ghost b: Books) returns (ghost b': Books)
    requires Balanced(a, b) && root in b.spaces && va >= 0
    requires PathOf(va, 4) in b.spaces[root] ==> b.spaces[root][PathOf(va, 4)] in b.pool
    modifies a
    ensures Moved(a, b, b', Pages(root)) && TreeOnly(b, b', root)
    ensures root in b'.spaces ==> PathOf(va, 4) !in b'.spaces[root]
    ensures (if root in b'.spaces then b'.spaces[root].Values else {}) + Listed(b'.free) ==
      b.spaces[root].Values + Listed(b.free)
  {
    hide Partition, Sound, Exchange, SpaceIn, a.Valid;
    PagesApart(b, a.mem, root);
    FreeInPool(a);
    ghost var nodes := ShrinkTree(a, root, va, b.spaces[root]);
    FreeInPool(a);
    b' := if Top in nodes then Rebooked(b, root, nodes, a.free) else b.(free := a.free, spaces := b.spaces - {root});
    SettleShrink(b, b', root, old(a.mem), a.mem);
  }

  /** free_pagetable on one of the trees, when the allocator provided all of its pages. */
  method DropSpace(a: Allocator, root: int, ghost b: Books) returns (ghost b': Books)
    requires Balanced(a, b) && root in b.spaces && b.spaces[root].Values <= b.pool
    modifies a
    ensures Moved(a, b, b', Pages(root)) && TreeOnly(b, b', root) && root !in b'.spaces
  {
    PagesApart(b, a.mem, root);
    hide Partition, Sound, Exchange, SpaceIn, IsList, IsFrame;
    FreePagetable(a, root, b.spaces[root]);
    b' := b.(free := a.free, spaces := b.spaces - {root});
    SettleShrink(b, b', root, old(a.mem), a.mem);
  }

  // ---- processes -----------------------------------------------------------------------

  /** A live process has a stack frame and a separate trap frame. */
  ghost predicate TwoFrames(b: Books) {
    forall i :: 0 <= i < |b.table| && b.table[i].state != FREE && i !in b.building ==>
      b.table[i].stackFrame != b.table[i].trapFrame
  }

  /** Slots under construction are not FREE. */
  ghost predicate BuildingLive(b: Books) {
    forall i :: i in b.building ==> 0 <= i < |b.table| && b.table[i].state != FREE
  }

  lemma SlotApart(b: Books, i: int)
    requires Partition(b) && 0 <= i < |b.table| && b.table[i].state != FREE && i !in b.building
    ensures b.table[i].stackFrame in b.pool && b.table[i].stackFrame !in b.free
    ensures b.table[i].trapFrame in b.pool && b.table[i].trapFrame !in b.free
  {
    forall f | f in Holding(b, Slot(i)) ensures f in b.pool && f !in b.free {
      assert Holds(b, Slot(i), f);
      assert f in b.free ==> Holds(b, FreeList, f);
    }
    assert b.table[i].stackFrame in Holding(b, Slot(i)) && b.table[i].trapFrame in Holding(b, Slot(i));
  }

  lemma SettleSlot(b: Books, b': Books, i: int, mem: Memory, mem': Memory)
    requires Partition(b) && Sound(mem, b) && b'.pool == b.pool && b'.loose == b.loose && b'.spaces == b.spaces
    requires forall k :: k != i ==> Holding(b', Slot(k)) == Holding(b, Slot(k))
    requires Listed(b'.free) + Holding(b', Slot(i)) == Listed(b.free) + Holding(b, Slot(i))
    requires Listed(b'.free) !! Holding(b', Slot(i))
    requires mem'.Keys == mem.Keys
    requires forall g :: g in mem && g !in b.free && g !in Holding(b, Slot(i)) ==> mem'[g] == mem[g]
    ensures Exchange(b, b', Slot(i)) && Partition(b') && Sound(mem', b')
  {
    SlotExchange(b, b', i);
    assert WritesOnly(b, Slot(i), mem, mem');
    hide Partition, Sound, Exchange, WritesOnly, Holding;
    Settle(b, b', Slot(i), mem, mem');
  }

  /** The books after a fork: slot i took the first two frames of the list, or nothing moved. */
  lemma ForkBooks(b: Books, b': Books, i: int, code: int, cur: int, pid: int, mem: Memory, mem': Memory)
    requires Partition(b) && Sound(mem, b) && b'.pool == b.pool && b'.loose == b.loose && b'.spaces == b.spaces
    requires Distinct(b.free) && TwoFrames(b) && 0 <= cur < |b.table| && b'.building == b.building
    requires code == 0 ==> i !in b.building
    requires code == 0 ==>
      && FirstFree(b.table, i) && |b.free| >= 2 && b'.free == b.free[2..]
      && b'.table == Published(b.table, i, cur, b.free[0], b.free[1], pid)
    requires code != 0 ==> b'.free == b.free && Unforked(b.table, b'.table)
    requires mem'.Keys == mem.Keys && forall g :: g in mem && g !in b.free ==> mem'[g] == mem[g]
    ensures Exchange(b, b', Slot(i)) && Partition(b') && Sound(mem', b') && TwoFrames(b')
  {
    assert Listed(b.free) !! Holding(b, Slot(i)) by {
      forall f | f in Holding(b, Slot(i)) ensures f !in Listed(b.free) {
        assert Holds(b, Slot(i), f);
        assert f in Listed(b.free) ==> Holds(b, FreeList, f);
      }
    }
    if code == 0 {
      assert b.free == [b.free[0], b.free[1]] + b'.free;
    }
    hide Partition, Sound, Exchange;
    SettleSlot(b, b', i, mem, mem');
  }

  lemma FreeIsNotBuilding(b: Books, i: int)
    requires BuildingLive(b) && FirstFree(b.table, i)
    ensures i !in b.building
  {
  }

  lemma PublishedPid(t: Table, i: int, cur: int, stack: int, trap: int, pid: int)
    requires FirstFree(t, i) && 0 <= cur < |t|
    ensures |Published(t, i, cur, stack, trap, pid)| == |t| && Published(t, i, cur, stack, trap, pid)[i].pid == pid
    ensures 0 <= i < |t|
  {
  }

  /** sys_fork by the current process. */
  method Fork(m: Machine, a: Allocator, stray: seq<int>, ghost b: Books)
    returns (code: int, ghost slot: int, ghost b': Books)
    requires Balanced(a, b) && m.Valid() && b.table == m.procs[..] && TwoFrames(b)
    requires m.procs[m.cur].state != FREE && |stray| == WORDS && BuildingLive(b)
    modifies m.procs, a
    ensures Moved(a, b, b', Slot(slot)) && b'.table == m.procs[..] && TwoFrames(b')
    ensures code == 0 <==> AnyFree(b.table) && |b.free| >= 2
    ensures code == 0 ==>
      FirstFree(b.table, slot) && b'.table == Published(b.table, slot, m.cur, b.free[0], b.free[1], b'.table[slot].pid)
    ensures code != 0 ==> Unforked(b.table, b'.table)
    ensures b'.spaces == b.spaces && b'.loose == b.loose && b'.building == b.building
    ensures var from := b.table[m.cur].stackFrame; code == 0 && from in old(a.mem) && from !in b.free ==>
      b.free[0] in a.mem && a.mem[b.free[0]] == old(a.mem)[from]
  {
    hide Partition, Sound, Exchange, LeastUnused, AnyFree, TwoFrames;
    hide Unforked, FirstFree, Published, StackImage, a.Valid;
    NoFrameTwice(a);
    ghost var pid;
    code, slot, pid := SysFork(m, a, stray);
    b' := b.(free := a.free, table := m.procs[..]);
    if code == 0 {
      PublishedPid(b.table, slot, m.cur, b.free[0], b.free[1], pid);
      FreeIsNotBuilding(b, slot);
    }
    ForkBooks(b, b', slot, code, m.cur, pid, old(a.mem), a.mem);
  }

  /** kill_process, for a pid whose first holder is a live process. */
  method Kill(m: Machine, a: Allocator, pid: int, ghost b: Books) returns (code: int, ghost slot: int, ghost b': Books)
    requires Balanced(a, b) && m.Valid() && b.table == m.procs[..] && TwoFrames(b)
    requires forall i :: FirstWithPid(b.table, pid, i) ==> b.table[i].state != FREE && i !in b.building
    modifies m.procs, a
    ensures Moved(a, b, b', Slot(slot)) && b'.table == m.procs[..] && TwoFrames(b')
    ensures code == 0 <==> Used(b.table, pid)
    ensures code == 0 ==> FirstWithPid(b.table, pid, slot) && b'.table == Killed(b.table, slot)
    ensures code != 0 ==> b'.table == b.table
    ensures b'.spaces == b.spaces && b'.loose == b.loose && b'.building == b.building
  {
    forall i | FirstWithPid(b.table, pid, i)
      ensures CanRelease(b.table[i], a.mem, a.free) && {b.table[i].stackFrame, b.table[i].trapFrame} <= b.pool
    {
      SlotApart(b, i);
      PoolFrame(a, b.table[i].stackFrame);
      PoolFrame(a, b.table[i].trapFrame);
    }
    hide Partition, Sound, Exchange, Used, CanRelease, IsList, FirstWithPid, TwoFrames, IsFrame;
    code, slot := KillProcess(m, a, pid);
    if code == 0 {
      assert FirstWithPid(b.table, pid, slot);
      assert b.pool + {b.table[slot].stackFrame, b.table[slot].trapFrame} == b.pool;
    }
    b' := b.(free := a.free, table := m.procs[..]);
    if code == 0 {
      KillWrites(old(a.mem), old(a.head), b.table[slot]);
    }
    KillBooks(b, b', slot, code, old(a.mem), a.mem);
  }

  lemma KillWrites(mem: Memory, head: int, p: Proc)
    ensures var mem' := KillFrees(mem, head, p).0;
      forall g :: g in mem && g != p.stackFrame && g != p.trapFrame ==> g in mem' && mem'[g] == mem[g]
  {
  }

  /** The books after a kill: the slot's two frames are back at the front of the list. */
  lemma KillBooks(b: Books, b': Books, i: int, code: int, mem: Memory, mem': Memory)
    requires Partition(b) && Sound(mem, b) && b'.pool == b.pool && b'.loose == b.loose && b'.spaces == b.spaces
    requires TwoFrames(b) && mem'.Keys == mem.Keys && b'.building == b.building
    requires code == 0 ==> i !in b.building
    requires code == 0 ==>
      && 0 <= i < |b.table| && b.table[i].state != FREE && b'.table == Killed(b.table, i)
      && b'.free == [b.table[i].trapFrame, b.table[i].stackFrame] + b.free
      && forall g :: g in mem && g != b.table[i].stackFrame && g != b.table[i].trapFrame ==> mem'[g] == mem[g]
    requires code != 0 ==> b'.free == b.free && b'.table == b.table && mem' == mem
    ensures Exchange(b, b', Slot(i)) && Partition(b') && Sound(mem', b') && TwoFrames(b')
  {
    assert Listed(b.free) !! Holding(b, Slot(i)) by {
      forall f | f in Holding(b, Slot(i)) ensures f !in Listed(b.free) {
        assert Holds(b, Slot(i), f);
        assert f in Listed(b.free) ==> Holds(b, FreeList, f);
      }
    }
    hide Partition, Sound, Exchange;
    SettleSlot(b, b', i, mem, mem');
  }

  // ---- fork, step by step --------------------------------------------------------------

  lemma SlotOnly(b: Books, b': Books, i: int)
    requires |b'.table| == |b.table| && forall k :: 0 <= k < |b.table| && k != i ==> b'.table[k] == b.table[k]
    requires b'.building - {i} == b.building - {i}
    ensures forall k :: k != i ==> Holding(b', Slot(k)) == Holding(b, Slot(k))
  {
    forall k | k != i ensures Holding(b', Slot(k)) == Holding(b, Slot(k)) {
      assert k in b'.building <==> k in b'.building - {i};
      assert k in b.building <==> k in b.building - {i};
    }
  }

  /** What a step of fork may do to the books: move frames between the list and the slot, whose entry alone changes. */
  lemma SettleChild(b: Books, b': Books, i: int, mem: Memory, mem': Memory)
    requires Partition(b) && Sound(mem, b) && b'.pool == b.pool && b'.loose == b.loose && b'.spaces == b.spaces
    requires |b'.table| == |b.table| && forall k :: 0 <= k < |b.table| && k != i ==> b'.table[k] == b.table[k]
    requires b'.building - {i} == b.building - {i}
    requires Listed(b'.free) + Holding(b', Slot(i)) == Listed(b.free) + Holding(b, Slot(i))
    requires Listed(b'.free) !! Holding(b', Slot(i))
    requires mem'.Keys == mem.Keys
    requires forall g :: g in mem && g !in b.free && g !in Holding(b, Slot(i)) ==> mem'[g] == mem[g]
    ensures Exchange(b, b', Slot(i)) && Partition(b') && Sound(mem', b')
  {
    SlotOnly(b, b', i);
    hide Partition, Sound, Exchange, Holding;
    SettleSlot(b, b', i, mem, mem');
  }

  lemma ChildApart(b: Books, i: int)
    requires Partition(b) && i in b.building
    ensures Listed(b.free) !! b.building[i] && b.building[i] <= b.pool
  {
    forall f | f in b.building[i] ensures f in b.pool && f !in Listed(b.free) {
      assert Holds(b, Slot(i), f);
      assert f in Listed(b.free) ==> Holds(b, FreeList, f);
    }
  }

  /** Reserving a slot: a child under construction that has no frame yet. */
  method BeginFork(m: Machine, ghost a: Allocator, ghost b: Books) returns (slot: int, ghost b': Books)
    requires Balanced(a, b) && m.Valid() && b.table == m.procs[..] && BuildingLive(b)
    modifies m.procs
    ensures Balanced(a, b') && (slot != -1 ==> Exchange(b, b', Slot(slot)))
    ensures slot == -1 <==> !AnyFree(b.table)
    ensures slot == -1 ==> b' == b && m.procs[..] == old(m.procs[..])
    ensures slot != -1 ==>
      && FirstFree(b.table, slot)
      && b' == b.(table := Reserved(b.table, slot), building := b.building[slot := {}]) && b'.table == m.procs[..]
  {
    hide Partition, Sound, Exchange, AnyFree, a.Valid;
    slot := ReserveSlot(m);
    b' := b;
    if slot != -1 {
      FreeIsNotBuilding(b, slot);
      b' := b.(table := m.procs[..], building := b.building[slot := {}]);
      SettleChild(b, b', slot, a.mem, a.mem);
    }
  }

  /** The stack frame. */
  method ForkTakesStack(m: Machine, a: Allocator, i: int, ghost b: Books) returns (stack: int, ghost b': Books)
    requires Balanced(a, b) && m.Valid() && b.table == m.procs[..] && 0 <= i < PROCCNT
    requires i in b.building && b.building[i] == {}
    modifies m.procs, a
    ensures Moved(a, b, b', Slot(i)) && b'.table == m.procs[..]
    ensures stack == NULL <==> b.free == []
    ensures stack == NULL ==>
      b' == b.(table := b.table[i := b.table[i].(state := FREE)], building := b.building - {i})
    ensures stack != NULL ==> b.free == [stack] + b'.free && b' == b.(free := b'.free,
      table := b.table[i := b.table[i].(stackFrame := stack)], building := b.building[i := {stack}])
  {
    NoFrameTwice(a);
    hide Partition, Sound, Exchange, a.Valid;
    stack := ForkStack(m, a, i);
    if stack == NULL {
      b' := b.(table := m.procs[..], building := b.building - {i});
    } else {
      FirstApart(stack, a.free);
      b' := b.(free := a.free, table := m.procs[..], building := b.building[i := {stack}]);
    }
    SettleChild(b, b', i, old(a.mem), a.mem);
  }

  /** The trap frame, or the stack frame goes back. */
  method ForkTakesTrap(m: Machine, a: Allocator, i: int, stack: int, ghost b: Books)
    returns (trap: int, ghost b': Books)
    requires Balanced(a, b) && m.Valid() && b.table == m.procs[..] && 0 <= i < PROCCNT
    requires i in b.building && b.building[i] == {stack}
    modifies m.procs, a
    ensures Moved(a, b, b', Slot(i)) && b'.table == m.procs[..]
    ensures trap == NULL <==> b.free == []
    ensures trap == NULL ==> b' == b.(free := [stack],
      table := b.table[i := b.table[i].(state := FREE, stackFrame := NULL)], building := b.building - {i})
    ensures trap != NULL ==> trap != stack && b.free == [trap] + b'.free && b' == b.(free := b'.free,
      table := b.table[i := b.table[i].(trapFrame := trap)], building := b.building[i := {stack, trap}])
  {
    ChildApart(b, i);
    NoFrameTwice(a);
    hide Partition, Sound, Exchange, a.Valid;
    assert stack in b.building[i];
    trap := ForkTrap(m, a, i, stack);
    if trap == NULL {
      b' := b.(free := a.free, table := m.procs[..], building := b.building - {i});
    } else {
      FirstApart(trap, a.free);
      b' := b.(free := a.free, table := m.procs[..], building := b.building[i := {stack, trap}]);
    }
    SettleChild(b, b', i, old(a.mem), a.mem);
  }

  /** The copy of the stack, the registers, and publication. */
  method EndFork(m: Machine, a: Allocator, i: int, caller: int, stack: int, trap: int, stray: seq<int>, ghost b: Books)
    returns (pid: int, ghost b': Books)
    requires Balanced(a, b) && m.Valid() && b.table == m.procs[..] && 0 <= i < PROCCNT && |stray| == WORDS
    requires 0 <= caller < PROCCNT && caller != i && stack != trap
    requires i in b.building && b.building[i] == {stack, trap}
    requires b.table[i].stackFrame == stack && b.table[i].trapFrame == trap
    modifies m.procs, a
    ensures Moved(a, b, b', Slot(i)) && b'.table == m.procs[..] && LeastUnused(b.table, pid)
    ensures b' == b.(table := Published(b.table, i, caller, stack, trap, pid), building := b.building - {i})
    // the child's stack holds what the caller's does
    ensures b.table[caller].stackFrame in old(a.mem) ==>
      stack in a.mem && a.mem[stack] == old(a.mem)[b.table[caller].stackFrame]
  {
    ChildApart(b, i);
    assert stack in b.building[i];
    PoolFrame(a, stack);
    hide Partition, Sound, Exchange, a.Valid, LeastUnused;
    CopyStack(a, m.procs[caller].stackFrame, stack, stray);
    pid := BuildChild(m, i, caller, stack);
    b' := b.(table := m.procs[..], building := b.building - {i});
    SettleChild(b, b', i, old(a.mem), a.mem);
  }

  // ---- clone ---------------------------------------------------------------------------

  /** clone_pagetable into a fresh root, for a tree all of whose pages came from the allocator. If the frames do not
      suffice, all of them are left with the caller. */
  method CloneSpace(a: Allocator, root: int, ghost b: Books) returns (to: int, ghost b': Books)
    requires Balanced(a, b) && root in b.spaces && b.spaces[root].Values <= b.pool
    modifies a
    ensures to != NULL <==> |b.spaces[root]| <= |b.free|
    ensures to != NULL ==>
      && Moved(a, b, b', Pages(to)) && TreeOnly(b, b', to)
      && b.free != [] && to == b.free[0] && to !in b.spaces && to in b'.spaces
      && b'.spaces[to].Keys == b.spaces[root].Keys && b'.spaces[to].Values <= b.pool
    ensures to == NULL ==> Moved(a, b, b', Loose) && b' == b.(free := [], loose := b.loose + Listed(b.free))
  {
    hide Partition, Sound, Exchange, SpaceIn, TreeOnly, a.Valid, Listed;
    PagesApart(b, a.mem, root);
    PagesApart(b, a.mem, Link(b.free, 0));
    ListedInPool(a);
    LooseApart(b);
    FirstIn(b.free);
    var code;
    ghost var copy;
    to, code, copy := TakeAndClone(a, root, b.spaces[root]);
    if code == 0 {
      b' := b.(free := a.free, spaces := b.spaces[to := copy]);
      CloneBooks(b, b', to, copy, old(a.mem), a.mem);
    } else {
      to, b' := NULL, b.(free := a.free, loose := b.loose + Listed(b.free));
      NothingListed();
      SettleLoose(b, b', old(a.mem), a.mem);
    }
  }

  lemma ListedInPool(a: Allocator)
    requires a.Valid()
    ensures Listed(a.free) <= a.pool
  {
  }

  lemma FirstIn(free: seq<int>)
    ensures free != [] ==> free[0] in free && Link(free, 0) == free[0]
    ensures forall f :: f in free <==> f in Listed(free)
  {
  }

  lemma NothingListed()
    ensures Listed([]) == {}
  {
  }

  /** A fresh root and clone_pagetable into it. */
  method TakeAndClone(a: Allocator, root: int, ghost nodes: Nodes) returns (to: int, code: int, ghost copy: Nodes)
    requires a.Valid() && SpaceIn(a.mem, a.free, a.pool, nodes) && Top in nodes && nodes[Top] == root
    requires nodes.Values <= a.pool
    modifies a
    ensures a.Valid() && a.pool == old(a.pool) && a.mem.Keys == old(a.mem).Keys
    ensures forall g :: g in a.mem && g !in old(a.free) ==> a.mem[g] == old(a.mem)[g]
    ensures code == 0 <==> |nodes| <= |old(a.free)|
    ensures code == 0 ==>
      && old(a.free) != [] && to == old(a.free)[0] && to != NULL
      && SpaceIn(a.mem, a.free, a.pool, copy) && Top in copy && copy[Top] == to && copy.Keys == nodes.Keys
      && Listed(a.free) + copy.Values == Listed(old(a.free)[1..]) + {to}
    ensures code != 0 ==> a.free == []
  {
    HasTop(nodes);
    PoolThere(a, nodes);
    hide SpaceIn, Confined, Listed, a.Valid, Level;
    to := Take(a, nodes);
    code, copy := -1, map[];
    if to != NULL {
      code, copy := ClonePagetable(a, root, to, nodes);
      TakenAndCloned(old(a.mem), old(a.free), to, a.mem, a.free);
      if code == 0 {
        TopKey(nodes, copy);
      }
    }
  }

  lemma TopKey(nodes: Nodes, copy: Nodes)
    requires copy.Keys == nodes.Keys && Top in nodes
    ensures Top in copy
  {
  }

  lemma HasTop(nodes: Nodes)
    requires Top in nodes
    ensures |nodes| >= 1
  {
    assert nodes.Keys >= {Top};
    assert |nodes.Keys| >= 1;
  }

  lemma PoolThere(a: Allocator, nodes: Nodes)
    requires a.Valid() && nodes.Values <= a.pool
    ensures forall p :: p in nodes ==> nodes[p] in a.mem
  {
    forall p | p in nodes ensures nodes[p] in a.mem {
      assert nodes[p] in nodes.Values;
      PoolFrame(a, nodes[p]);
    }
  }

  /** A frame is taken from the list and a copy made: only frames that were on the list are written. */
  lemma TakenAndCloned(mem: Memory, free: seq<int>, f: int, mem': Memory, free': seq<int>)
    requires f in mem && free != [] && free[0] == f && Confined(mem[f := ZeroPage()], free[1..], mem', free', f)
    ensures mem'.Keys == mem.Keys && forall g :: g in mem && g !in free ==> mem'[g] == mem[g]
  {
    assert f in free && forall g :: g in free[1..] ==> g in free;
  }

  lemma CloneBooks(b: Books, b': Books, to: int, copy: Nodes, mem: Memory, mem': Memory)
    requires Partition(b) && Sound(mem, b) && b.free != [] && to == b.free[0] && to !in b.spaces
    requires b' == b.(free := b'.free, spaces := b.spaces[to := copy])
    requires SpaceIn(mem', b'.free, b.pool, copy) && Top in copy && copy[Top] == to
    requires Listed(b'.free) + copy.Values == Listed(b.free[1..]) + {to} && Listed(b.free) <= b.pool
    requires mem'.Keys == mem.Keys && forall g :: g in mem && g !in b.free ==> mem'[g] == mem[g]
    ensures Exchange(b, b', Pages(to)) && Partition(b') && Sound(mem', b') && TreeOnly(b, b', to)
    ensures copy.Values <= b.pool
  {
    assert b.free == [to] + b.free[1..] && Listed(b.free) == Listed(b.free[1..]) + {to};
    assert copy.Values <= Listed(b.free);
    NotListed(copy, mem', b'.free, b.pool);
    assert Holding(b', Pages(to)) == copy.Values && Holding(b, Pages(to)) == {};
    assert TreeOnly(b, b', to);
    hide Partition, Sound, Exchange, SpaceIn, TreeOnly, Holding;
    SettlePages(b, b', to, mem, mem');
  }

  lemma NotListed(copy: Nodes, mem: Memory, free: seq<int>, pool: set<int>)
    requires SpaceIn(mem, free, pool, copy)
    ensures Listed(free) !! copy.Values
  {
  }
}
