/** map_region and unmap_region of kernel/vmem.c. */
module Regions {
  import opened Options
  import opened Kalloc
  import opened PageTree
  import opened Vmem
  import opened Unmap
  import opened Footprint

  /** The page of the k-th address of a region. */
  function Nth(va: int, k: nat): int {
    PageNumber(At(va, k))
  }

  /** `v` lies on one of the first `n` pages of the region. */
  ghost predicate Visited(v: int, va: int, n: int) {
    exists k :: 0 <= k < n && Nth(va, k) == PageNumber(v)
  }

  /** Every mapped page among the first n can be given back to the allocator. */
  ghost predicate RegionFreeable(mem: Memory, nodes: Nodes, va: int, n: int) {
    forall k :: 0 <= k < n ==> Freeable(mem, nodes, PathOf(At(va, k), 4))
  }

  lemma ShrunkFreeable(mem: Memory, mem': Memory, nodes: Nodes, nodes': Nodes, v: int, va: int, n: int)
    requires RegionFreeable(mem, nodes, va, n) && mem'.Keys == mem.Keys && Shrunk(nodes, nodes', v)
    ensures RegionFreeable(mem', nodes', va, n)
    ensures nodes'.Values <= nodes.Values
  {
  }

  /** How many pages the loop visits. */
  function Pages(lo: int, hi: int): nat {
    if lo < hi then (hi - lo + PAGE_SIZE - 1) / PAGE_SIZE else 0
  }

  /** unmap_region, for bounds that do not run over the end of the 64-bit address space. */
  method UnmapRegion(a: Allocator, root: int, lo: int, hi: int, ghost nodes: Nodes) returns (ghost nodes': Nodes)
    requires a.Valid() && Rooted(a, root, nodes)
    requires 0 <= lo && hi + PAGE_SIZE <= 0x1_0000_0000_0000_0000
    requires RegionFreeable(a.mem, nodes, lo, Pages(lo, hi))
    modifies a
    ensures a.Valid() && Rooted(a, root, nodes') && a.mem.Keys == old(a.mem).Keys
    ensures forall v :: v >= 0 ==>
      Translate(a.mem, root, v) == if Visited(v, lo, Pages(lo, hi)) then None else old(Translate(a.mem, root, v))
    ensures nodes'.Values + Listed(a.free) == nodes.Values + Listed(old(a.free))
    // the pool takes in whatever was mapped there
    ensures a.pool == old(a.pool) + old(Leaves(a.mem, root, lo, Pages(lo, hi)))
    ensures forall g :: g in a.mem && g !in nodes.Values ==> a.mem[g] == old(a.mem)[g]
  {
    hide *;
    LeavesNext(a.mem, root, lo, 0);
    nodes' := nodes;
    var va := lo;
    ghost var k := 0;
    VisitOne(lo, 0);
    PagesBound(lo, hi, 0);
    while va < hi
      invariant va == At(lo, k) >= lo && 0 <= k <= Pages(lo, hi)
      invariant va < hi <==> k < Pages(lo, hi)
      invariant a.Valid() && Rooted(a, root, nodes') && a.mem.Keys == old(a.mem).Keys
      invariant RegionFreeable(a.mem, nodes', lo, Pages(lo, hi))
      invariant forall v :: v >= 0 ==>
        Translate(a.mem, root, v) == if Visited(v, lo, k) then None else old(Translate(a.mem, root, v))
      invariant nodes'.Values + Listed(a.free) == nodes.Values + Listed(old(a.free))
      invariant a.pool == old(a.pool) + Leaves(old(a.mem), root, lo, k)
      invariant nodes'.Values <= nodes.Values
      invariant forall g :: g in a.mem && g !in nodes.Values ==> a.mem[g] == old(a.mem)[g]
      decreases Pages(lo, hi) - k
    {
      ghost var mem, before := a.mem, nodes';
      FreeableAt(a.mem, nodes', lo, Pages(lo, hi), k);
      LeavesOnce(a, root, nodes', old(a.mem), lo, k);
      nodes' := FreePage(a, root, va, nodes');
      ShrunkFreeable(mem, a.mem, before, nodes', va, lo, Pages(lo, hi));
      VisitOne(lo, k);
      va := va + PAGE_SIZE;
      PagesBound(lo, hi, k);
      k := k + 1;
      PagesBound(lo, hi, k);
    }
  }

  /** The frame of page k, unless an earlier page of the region was the same page. */
  lemma LeavesOnce(a: Allocator, root: int, nodes: Nodes, mem: Memory, lo: int, k: nat)
    requires Rooted(a, root, nodes) && lo >= 0
    requires forall v :: v >= 0 ==>
      Translate(a.mem, root, v) == if Visited(v, lo, k) then None else Translate(mem, root, v)
    ensures var p := PathOf(At(lo, k), 4);
      Leaves(mem, root, lo, k + 1) == Leaves(mem, root, lo, k) + if p in nodes then {nodes[p]} else {}
  {
    var v := At(lo, k);
    RootedTranslates(a, root, nodes);
    LeavesNext(mem, root, lo, k);
    assert Translate(a.mem, root, v) == LeafAt(nodes, v);
    if Visited(v, lo, k) {
      var j :| 0 <= j < k && Nth(lo, j) == PageNumber(v);
      hide Translate, Leaves, Rooted;
      SamePage(mem, root, At(lo, j), v);
      LeafListed(mem, root, lo, k, j);
    }
  }

  lemma LeafListed(mem: Memory, root: int, lo: int, k: nat, j: nat)
    requires j < k
    ensures Translate(mem, root, At(lo, j)).Some? ==> Translate(mem, root, At(lo, j)).value in Leaves(mem, root, lo, k)
  {
    hide Translate, At;
  }

  lemma PagesBound(lo: int, hi: int, k: nat)
    ensures At(lo, k) < hi <==> k < Pages(lo, hi)
    ensures lo <= At(lo, k) && At(lo, 0) == lo && At(lo, k + 1) == At(lo, k) + PAGE_SIZE
  {
  }

  lemma FreeableAt(mem: Memory, nodes: Nodes, va: int, n: int, k: nat)
    requires RegionFreeable(mem, nodes, va, n) && k < n
    ensures Freeable(mem, nodes, PathOf(At(va, k), 4))
  {
  }

  lemma VisitOne(va: int, k: nat)
    ensures forall v :: !Visited(v, va, 0)
    ensures forall v :: Visited(v, va, k + 1) <==> Visited(v, va, k) || PageNumber(v) == PageNumber(At(va, k))
  {
    assert Nth(va, k) == PageNumber(At(va, k));
  }

  // ---- map_region ----------------------------------------------------------------------

  /** The physical frames still to be entered exist and belong to nobody. (Address 0 asks for a fresh one.) */
  ghost predicate Foreign(mem: Memory, pool: set<int>, nodes: Nodes, pa: int, m: int, n: int) {
    forall k :: m <= k < n && At(pa, k) != 0 ==>
      IsFrame(At(pa, k)) && At(pa, k) in mem
      && At(pa, k) !in pool && At(pa, k) !in nodes.Values
  }

  /** No address of the region is one of the allocator's frames. */
  ghost predicate Outside(pool: set<int>, pa: int, n: int) {
    forall k :: 0 <= k < n && At(pa, k) != 0 ==> At(pa, k) % PHYS_LIMIT !in pool
  }

  lemma OutsideAt(pool: set<int>, pa: int, n: int, m: nat)
    requires Outside(pool, pa, n) && m < n && pa >= 0
    ensures At(pa, m) >= 0 && (At(pa, m) != 0 ==> At(pa, m) % PHYS_LIMIT !in pool)
  {
  }

  /** The pages entered so far, and those still to come, can be handed to kfree by a rollback. */
  ghost predicate Undoable(mem: Memory, pool: set<int>, nodes: Nodes, va: int, pa: int, m: int, n: int) {
    Foreign(mem, pool, nodes, pa, m, n) && RegionFreeable(mem, nodes, va, n)
  }

  lemma ForeignNext(mem: Memory, pool: set<int>, nodes: Nodes, pa: int, m: int, n: int)
    requires Foreign(mem, pool, nodes, pa, m, n) && 0 <= m < n && pa >= 0
    ensures var f := At(pa, m);
      f >= 0 && (f != 0 ==> f % PHYS_LIMIT == f && IsFrame(f) && f in mem && f !in pool && f !in nodes.Values)
  {
  }

  /** The new nodes of one growth step, one per level, tables from the free list. */
  ghost predicate NewNodes(nodes: Nodes, nodes': Nodes, free: seq<int>, pa: int, va: int) {
    && (forall q :: q in nodes ==> q in nodes' && nodes'[q] == nodes[q])
    && (forall q :: q in nodes' && q !in nodes ==> q == PathOf(va, Level(q)) && Level(q) <= 4)
    && (forall q :: q in nodes' && q !in nodes && Level(q) < 4 ==> nodes'[q] in free)
    && NewFrames(nodes, nodes', free, pa)
  }

  lemma Unaliased(nodes: Nodes, nodes': Nodes, pool: set<int>, free: seq<int>, pa: int, va: int, p: Path)
    requires NewNodes(nodes, nodes', free, pa, va) && Owned(nodes', pool)
    requires forall q :: q in nodes ==> nodes[q] !in free
    requires forall f :: f in free ==> f in pool
    requires pa != 0 ==> pa % PHYS_LIMIT == pa && pa !in pool && pa !in nodes.Values
    requires p in nodes' && (p in nodes ==> forall q :: q in nodes && nodes[q] == nodes[p] ==> q == p)
    requires Level(p) == 4
    ensures forall q :: q in nodes' && nodes'[q] == nodes'[p] ==> q == p
  {
    forall q | q in nodes' && nodes'[q] == nodes'[p] ensures q == p {
      assert Apart(nodes', pool, p, q);
    }
  }

  /** Entering page m keeps every mapped frame of the region fit for rollback. */
  lemma GrownFreeable(mem: Memory, mem': Memory, nodes: Nodes, nodes': Nodes, pool: set<int>, free: seq<int>,
                      pa: int, v: int, va: int, n: int)
    requires NewNodes(nodes, nodes', free, pa, v) && Owned(nodes', pool) && mem'.Keys == mem.Keys
    requires forall q :: q in nodes ==> nodes[q] !in free
    requires forall f :: f in free ==> f in pool
    requires forall f :: f in pool ==> f in mem && IsFrame(f)
    requires pa != 0 ==> pa % PHYS_LIMIT == pa && IsFrame(pa) && pa in mem && pa !in pool && pa !in nodes.Values
    requires RegionFreeable(mem, nodes, va, n)
    ensures RegionFreeable(mem', nodes', va, n)
  {
    forall k | 0 <= k < n ensures Freeable(mem', nodes', PathOf(At(va, k), 4)) {
      var p := PathOf(At(va, k), 4);
      assert Freeable(mem, nodes, p);
      if p in nodes' {
        Unaliased(nodes, nodes', pool, free, pa, v, p);
      }
    }
  }

  lemma GrownForeign(mem: Memory, mem': Memory, nodes: Nodes, nodes': Nodes, pool: set<int>, free: seq<int>,
                     pa: int, m: nat, n: int)
    requires Foreign(mem, pool, nodes, pa, m, n) && mem'.Keys == mem.Keys && m < n
    requires forall f :: f in free ==> f in pool
    requires NewFrames(nodes, nodes', free, At(pa, m))
    requires forall q :: q in nodes ==> q in nodes' && nodes'[q] == nodes[q]
    requires pa >= 0
    ensures Foreign(mem', pool, nodes', pa, m + 1, n)
  {
    ForeignNext(mem, pool, nodes, pa, m, n);
    forall f | f in nodes'.Values && f !in nodes.Values ensures f in pool || f == At(pa, m) {
      var q :| q in nodes' && nodes'[q] == f;
    }
  }

  /** Everything one turn of the loop has to hand on to the next. */
  method MapNext(a: Allocator, root: int, va: int, pa: int, m: nat, n: nat, kind: int, ghost nodes: Nodes)
    returns (code: int, ghost nodes': Nodes)
    requires a.Valid() && Space(a, nodes) && nodes[Top] == root && va >= 0 && pa >= 0 && m < n
    requires Outside(a.pool, pa, n)
    modifies a
    ensures a.Valid() && Space(a, nodes') && Top in nodes' && nodes'[Top] == root
    ensures a.pool == old(a.pool) && a.mem.Keys == old(a.mem).Keys
    ensures old(Undoable(a.mem, a.pool, nodes, va, pa, m, n)) ==> Undoable(a.mem, a.pool, nodes', va, pa, m + 1, n)
    ensures OnlyPage(old(a.mem), a.mem, root, At(va, m))
    ensures code == 0 || code == -1
    ensures var v := At(va, m);
      && (code == -1 ==> Translate(a.mem, root, v) == old(Translate(a.mem, root, v)))
      && (code == 0 ==> Mapped(old(Translate(a.mem, root, v)), Translate(a.mem, root, v), At(pa, m), a.pool))
    ensures old(Translate(a.mem, root, At(va, m))).None? ==>
      var need := Need(nodes, At(va, m), At(pa, m), 0);
      && (code == 0 <==> 0 <= kind <= 2 && need <= |old(a.free)|)
      && (code == 0 ==>
          && |a.free| == |old(a.free)| - need
          && nodes'.Keys == nodes.Keys + PathTables(At(va, m)) + {PathOf(At(va, m), 4)})
    ensures old(Translate(a.mem, root, At(va, m))).Some? ==>
      && nodes' == nodes && a.free == old(a.free)
      && code == if old(Translate(a.mem, root, At(va, m))).value == 0 then -1 else 0
    ensures old(Translate(a.mem, root, At(va, m))).Some? <==> PathOf(At(va, m), 4) in nodes
    ensures nodes'.Values + Listed(a.free) == nodes.Values + Listed(old(a.free)) +
      if code == 0 && At(pa, m) != 0 && old(Translate(a.mem, root, At(va, m))).None?
      then {At(pa, m) % PHYS_LIMIT} else {}
  {
    hide Outside, Growth, NewFrames, NewNodes, Space, Owned, RegionFreeable, Foreign, Mapped;
    hide Translate, PageNumber, Need, IsFrame, Closed, IsList, At, Pages;
    ghost var undoable := Undoable(a.mem, a.pool, nodes, va, pa, m, n);
    if undoable {
      ForeignNext(a.mem, a.pool, nodes, pa, m, n);
    }
    OutsideAt(a.pool, pa, n, m);
    PagesBound(va, At(va, n), m);
    SpaceFacts(a, nodes);
    ghost var before := Translate(a.mem, root, At(va, m));
    SpaceTranslates(a, nodes, At(va, m));
    code, nodes' := MapPage(a, root, At(va, m), At(pa, m), kind, nodes);
    SpaceFacts(a, nodes');
    GrowthNodes(old(View(a, nodes)), View(a, nodes'), At(pa, m), At(va, m));
    SpaceTranslates(a, nodes', At(va, m));
    MappedValue(before, Translate(a.mem, root, At(va, m)), At(pa, m), a.pool);
    if code == 0 && before.None? {
      PathEntered(old(View(a, nodes)), View(a, nodes'), At(va, m));
    }
    EnteredFrames(old(View(a, nodes)), View(a, nodes'), At(va, m), At(pa, m),
                  code == 0 && At(pa, m) != 0 && before.None?);
    if undoable {
      GrownFreeable(old(a.mem), a.mem, nodes, nodes', a.pool, old(a.free), At(pa, m), At(va, m), va, n);
      GrownForeign(old(a.mem), a.mem, nodes, nodes', a.pool, old(a.free), pa, m, n);
    }
  }

  lemma SpaceFacts(a: Allocator, nodes: Nodes)
    requires a.Valid() && Space(a, nodes)
    ensures Closed(nodes) && Top in nodes && Owned(nodes, a.pool)
    ensures forall q :: q in nodes ==> nodes[q] !in a.free
    ensures forall f :: f in a.free ==> f in a.pool
    ensures forall f :: f in a.pool ==> f in a.mem && IsFrame(f)
  {
  }

  lemma SpaceTranslates(a: Allocator, nodes: Nodes, v: int)
    requires Space(a, nodes)
    ensures Translate(a.mem, nodes[Top], v) == LeafAt(nodes, v)
  {
    TreeRefinesMap(a.mem, nodes);
  }

  lemma MappedValue(before: Option<int>, now: Option<int>, pa: int, pool: set<int>)
    ensures Mapped(before, now, pa, pool) ==>
      now.Some? && (before.None? && pa != 0 ==> now.value == pa % PHYS_LIMIT) && (before.Some? ==> now == before)
  {
  }

  lemma GrowthNodes(s: Snapshot, t: Snapshot, pa: int, va: int)
    requires Growth(s, t, va) && NewFrames(s.nodes, t.nodes, s.free, pa) && Closed(t.nodes)
    ensures NewNodes(s.nodes, t.nodes, s.free, pa, va)
    ensures forall q :: q in s.nodes ==> q in t.nodes && t.nodes[q] == s.nodes[q]
  {
  }

  /** Pages of a region of at most 2^36 pages are different. */
  lemma NewPage(va: int, m: nat)
    requires va >= 0 && m < PHYS_LIMIT
    ensures forall k :: 0 <= k < m ==> PageNumber(At(va, k)) != PageNumber(At(va, m))
    ensures forall k :: 0 <= k <= m ==> At(va, k) >= 0
    ensures !Visited(At(va, m), va, m)
  {
    forall k | 0 <= k < m ensures PageNumber(At(va, k)) != PageNumber(At(va, m)) {
      Apart36(va / PAGE_SIZE + k, va / PAGE_SIZE + m);
    }
  }

  lemma Apart36(x: int, y: int)
    requires x < y < x + PHYS_LIMIT
    ensures x % PHYS_LIMIT != y % PHYS_LIMIT
  {
  }

  /** The first m pages are mapped, everything else translates as it did. */
  ghost predicate RegionMapped(mem: Memory, mem': Memory, root: int, va: int, pa: int, m: int, pool: set<int>) {
    && (forall v :: v >= 0 && !Visited(v, va, m) ==> Translate(mem', root, v) == Translate(mem, root, v))
    && (forall k :: 0 <= k < m ==>
          Mapped(Translate(mem, root, At(va, k)), Translate(mem', root, At(va, k)), At(pa, k), pool))
  }

  /** Only the page of `v` may translate differently. */
  ghost predicate OnlyPage(mem: Memory, mem': Memory, root: int, v: int) {
    forall w :: w >= 0 && PageNumber(w) != PageNumber(v) ==> Translate(mem', root, w) == Translate(mem, root, w)
  }

  lemma RegionMappedMore(mem: Memory, mid: Memory, mem': Memory, root: int, va: int, pa: int, m: nat, pool: set<int>)
    requires RegionMapped(mem, mid, root, va, pa, m, pool) && va >= 0 && m < PHYS_LIMIT
    requires OnlyPage(mid, mem', root, At(va, m))
    requires Mapped(Translate(mid, root, At(va, m)), Translate(mem', root, At(va, m)), At(pa, m), pool)
    ensures RegionMapped(mem, mem', root, va, pa, m + 1, pool)
  {
    hide Translate, Mapped, PageNumber, Visited, At;
    NewPage(va, m);
    VisitOne(va, m);
    forall k | 0 <= k < m + 1
      ensures Mapped(Translate(mem, root, At(va, k)), Translate(mem', root, At(va, k)), At(pa, k), pool)
    {
      if k < m {
        assert PageNumber(At(va, k)) != PageNumber(At(va, m));
      }
    }
  }

  lemma RegionMappedSame(mem: Memory, mid: Memory, mem': Memory, root: int, va: int, pa: int, m: nat, pool: set<int>)
    requires RegionMapped(mem, mid, root, va, pa, m, pool) && va >= 0
    requires OnlyPage(mid, mem', root, At(va, m)) && Translate(mem', root, At(va, m)) == Translate(mid, root, At(va, m))
    ensures RegionMapped(mem, mem', root, va, pa, m, pool)
  {
    forall v | v >= 0 ensures Translate(mem', root, v) == Translate(mid, root, v) {
      if PageNumber(v) == PageNumber(At(va, m)) {
        SamePage(mem', root, v, At(va, m));
        SamePage(mid, root, v, At(va, m));
      }
    }
    hide Translate, Mapped, PageNumber, Visited;
  }

  lemma RegionUntouched(mem: Memory, mid: Memory, root: int, va: int, pa: int, m: nat, pool: set<int>)
    requires RegionMapped(mem, mid, root, va, pa, m, pool) && va >= 0 && m < PHYS_LIMIT
    ensures Translate(mid, root, At(va, m)) == Translate(mem, root, At(va, m))
  {
    NewPage(va, m);
    hide Translate, Mapped, PageNumber, Visited;
  }

  lemma SamePage(mem: Memory, root: int, v: int, w: int)
    requires v >= 0 && w >= 0 && PageNumber(v) == PageNumber(w)
    ensures Translate(mem, root, v) == Translate(mem, root, w)
  {
    SamePath(v, w);
    PathUnfolded(v);
    PathUnfolded(w);
    SameWalk(mem, root, v, w, 0);
  }

  lemma {:induction false} SameWalk(mem: Memory, table: int, v: int, w: int, i: nat)
    requires i <= 4 && forall k :: 0 <= k < 4 ==> Index(v, k) == Index(w, k)
    ensures Walk(mem, table, v, i) == Walk(mem, table, w, i)
    decreases 4 - i
  {
    if i < 4 && table in mem && |mem[table]| == WORDS {
      assert Index(v, i) == Index(w, i);
      SameWalk(mem, Phys(mem[table][Index(v, i)]), v, w, i + 1);
    }
  }

  /** The loop of map_region up to its first failure; `m` pages were entered. */
  method MapPages(a: Allocator, root: int, va: int, pa: int, n: nat, kind: int, ghost nodes: Nodes)
    returns (m: nat, ghost nodes': Nodes)
    requires a.Valid() && Space(a, nodes) && nodes[Top] == root
    requires va >= 0 && pa >= 0 && n <= PHYS_LIMIT && Outside(a.pool, pa, n)
    modifies a
    ensures m <= n
    ensures a.Valid() && Space(a, nodes') && Top in nodes' && nodes'[Top] == root
    ensures a.pool == old(a.pool) && a.mem.Keys == old(a.mem).Keys
    ensures RegionMapped(old(a.mem), a.mem, root, va, pa, m, a.pool)
    ensures old(Undoable(a.mem, a.pool, nodes, va, pa, 0, n)) ==> RegionFreeable(a.mem, nodes', va, n)
    ensures m == n <==> AllOK(old(a.mem), root, va, n, kind) && Demand(nodes, va, pa, 0, n) <= |old(a.free)|
    ensures nodes'.Values + Listed(a.free) == nodes.Values + Listed(old(a.free)) + Given(old(a.mem), root, va, pa, m)
  {
    hide *;
    SpaceFacts(a, nodes);
    RegionMappedNone(a.mem, root, va, pa, a.pool);
    GivenNext(a.mem, root, va, pa, 0);
    NoneOK(a.mem, root, va, kind);
    ghost var undoable := Undoable(a.mem, a.pool, nodes, va, pa, 0, n);
    nodes' := nodes;
    m := 0;
    while m < n
      invariant m <= n
      invariant a.Valid() && Space(a, nodes') && Top in nodes' && nodes'[Top] == root
      invariant a.pool == old(a.pool) && a.mem.Keys == old(a.mem).Keys
      invariant undoable ==> Undoable(a.mem, a.pool, nodes', va, pa, m, n)
      invariant RegionMapped(old(a.mem), a.mem, root, va, pa, m, a.pool)
      invariant AllOK(old(a.mem), root, va, m, kind)
      invariant |a.free| - Demand(nodes', va, pa, m, n) == |old(a.free)| - Demand(nodes, va, pa, 0, n)
      invariant nodes'.Values + Listed(a.free) ==
        nodes.Values + Listed(old(a.free)) + Given(old(a.mem), root, va, pa, m)
    {
      ghost var mid, was := a.mem, nodes';
      var code;
      RegionUntouched(old(a.mem), mid, root, va, pa, m, a.pool);
      AllOKNext(old(a.mem), root, va, n, m, kind);
      SpaceFacts(a, nodes');
      GivenNext(old(a.mem), root, va, pa, m);
      code, nodes' := MapNext(a, root, va, pa, m, n, kind, nodes');
      if PathOf(At(va, m), 4) in was {
        DemandMapped(was, va, pa, m, n);
      } else {
        DemandAtLeast(was, va, pa, m, n);
        if code == 0 {
          DemandNext(was, nodes', va, pa, m, n);
        }
      }
      if code == -1 {
        RegionMappedSame(old(a.mem), mid, a.mem, root, va, pa, m, a.pool);
        StillFreeable(a.mem, a.pool, nodes', va, pa, m + 1, n);
        return;
      }
      RegionMappedMore(old(a.mem), mid, a.mem, root, va, pa, m, a.pool);
      m := m + 1;
    }
    StillFreeable(a.mem, a.pool, nodes', va, pa, m, n);
    NoDemand(nodes', va, pa, n);
  }

  lemma NoDemand(nodes: Nodes, va: int, pa: int, n: nat)
    ensures Demand(nodes, va, pa, n, n) == 0
  {
  }

  lemma StillFreeable(mem: Memory, pool: set<int>, nodes: Nodes, va: int, pa: int, m: int, n: int)
    ensures Undoable(mem, pool, nodes, va, pa, m, n) ==> RegionFreeable(mem, nodes, va, n)
  {
  }

  lemma RegionMappedNone(mem: Memory, root: int, va: int, pa: int, pool: set<int>)
    ensures RegionMapped(mem, mem, root, va, pa, 0, pool)
  {
  }

  /** No page of the region translates. */
  ghost predicate Unmapped(mem: Memory, root: int, va: int, n: nat) {
    forall k :: 0 <= k < n ==> Translate(mem, root, At(va, k)).None?
  }

  /** A mapped page is mapped elsewhere than at address 0, and for an unmapped one the kind is known. */
  ghost predicate PageOK(before: Option<int>, kind: int) {
    (before.Some? ==> before.value != 0) && (before.None? ==> 0 <= kind <= 2)
  }

  ghost predicate AllOK(mem: Memory, root: int, va: int, n: nat, kind: int) {
    forall k :: 0 <= k < n ==> PageOK(Translate(mem, root, At(va, k)), kind)
  }

  lemma NoneOK(mem: Memory, root: int, va: int, kind: int)
    ensures AllOK(mem, root, va, 0, kind)
  {
  }

  lemma AllOKNext(mem: Memory, root: int, va: int, n: nat, m: nat, kind: int)
    requires m < n
    ensures AllOK(mem, root, va, m + 1, kind) <==>
      AllOK(mem, root, va, m, kind) && PageOK(Translate(mem, root, At(va, m)), kind)
    ensures AllOK(mem, root, va, n, kind) ==> PageOK(Translate(mem, root, At(va, m)), kind)
    ensures var before := Translate(mem, root, At(va, m));
      PageOK(before, kind) <==> (before.Some? ==> before.value != 0) && (before.None? ==> 0 <= kind <= 2)
  {
    hide Translate, At;
  }

  /** Every page can be mapped, and the free list is long enough. */
  ghost predicate EnoughFor(mem: Memory, root: int, nodes: Nodes, va: int, pa: int, n: nat, kind: int, frames: nat) {
    AllOK(mem, root, va, n, kind) && Demand(nodes, va, pa, 0, n) <= frames
  }

  /** The rest of map_region once the bounds are known to be aligned: n pages. */
  method MapAligned(a: Allocator, root: int, va: int, pa: int, n: nat, kind: int, ghost nodes: Nodes)
    returns (code: int, ghost m: nat, ghost nodes': Nodes)
    requires a.Valid() && Space(a, nodes) && nodes[Top] == root && va >= 0 && pa >= 0
    requires n <= PHYS_LIMIT && At(va, n) + PAGE_SIZE <= 0x1_0000_0000_0000_0000 && Outside(a.pool, pa, n)
    requires Undoable(a.mem, a.pool, nodes, va, pa, 0, n) || EnoughFor(a.mem, root, nodes, va, pa, n, kind, |a.free|)
    modifies a
    ensures a.Valid() && Rooted(a, root, nodes') && a.mem.Keys == old(a.mem).Keys
    ensures code == 0 || code == -1
    ensures code == 0 ==> a.pool == old(a.pool) && m == n
    ensures code == 0 ==> RegionMapped(old(a.mem), a.mem, root, va, pa, n, a.pool)
    ensures code == -1 ==> m < n
    ensures code == -1 ==> forall v :: v >= 0 ==>
      Translate(a.mem, root, v) == if Visited(v, va, m) then None else old(Translate(a.mem, root, v))
    ensures nodes'.Values + Listed(a.free) == nodes.Values + Listed(old(a.free)) + Given(old(a.mem), root, va, pa, m)
    ensures code == -1 ==>
      a.pool == old(a.pool) + Leaves(old(a.mem), root, va, m) + Given(old(a.mem), root, va, pa, m)
    ensures code == -1 && Unmapped(old(a.mem), root, va, n) ==>
      (a.pool == old(a.pool) <==> forall k :: 0 <= k < m ==> At(pa, k) == 0)
    ensures code == 0 <==> AllOK(old(a.mem), root, va, n, kind) && Demand(nodes, va, pa, 0, n) <= |old(a.free)|
  {
    SpaceRooted(a, root, nodes);
    var done;
    done, nodes' := MapPages(a, root, va, pa, n, kind, nodes);
    m := done;
    SpaceRooted(a, root, nodes');
    if done == n {
      return 0, m, nodes';
    }
    PagesExact(va, m);
    ghost var mid := a.mem;
    assert At(va, m) + PAGE_SIZE <= 0x1_0000_0000_0000_0000;
    hide *;
    nodes' := UnmapRegion(a, root, va, At(va, done), nodes');
    RolledBack(old(a.mem), mid, a.mem, root, va, pa, m, old(a.pool));
    LeavesMapped(old(a.mem), mid, root, va, pa, m, old(a.pool));
    PoolKept(old(a.mem), root, va, pa, m, n, old(a.pool));
    code := -1;
  }

  /** map_region, with 0 returned on success. `m` pages were entered before the outcome was known. */
  method MapRegion(a: Allocator, root: int, va: int, pa: int, size: nat, kind: int, ghost nodes: Nodes)
    returns (code: int, ghost m: nat, ghost nodes': Nodes)
    requires a.Valid() && Space(a, nodes) && nodes[Top] == root && va >= 0 && pa >= 0
    requires va % 4096 == 0 && (va + size) % 4096 == 0 && pa % 4096 == 0 ==>
      && size <= PHYS_LIMIT * PAGE_SIZE && va + size + PAGE_SIZE <= 0x1_0000_0000_0000_0000
      && Outside(a.pool, pa, size / PAGE_SIZE)
      && (Undoable(a.mem, a.pool, nodes, va, pa, 0, size / PAGE_SIZE)
          || EnoughFor(a.mem, root, nodes, va, pa, size / PAGE_SIZE, kind, |a.free|))
    modifies a
    ensures a.Valid() && Rooted(a, root, nodes') && a.mem.Keys == old(a.mem).Keys
    ensures code == 0 || code == -1
    // misaligned: nothing happens
    ensures va % 4096 != 0 || (va + size) % 4096 != 0 || pa % 4096 != 0 ==>
      code == -1 && m == 0 && View(a, nodes') == old(View(a, nodes))
    // success: every page of the region translates as asked, nothing else changes
    ensures code == 0 ==> a.pool == old(a.pool) && m == size / 4096
    ensures code == 0 ==> RegionMapped(old(a.mem), a.mem, root, va, pa, size / 4096, a.pool)
    // failure: the pages entered so far are unmapped again, and so is anything that was there before
    ensures code == -1 && va % 4096 == 0 && (va + size) % 4096 == 0 && pa % 4096 == 0 ==> m < size / 4096
    ensures code == -1 ==> forall v :: v >= 0 ==>
      Translate(a.mem, root, v) == if Visited(v, va, m) then None else old(Translate(a.mem, root, v))
    // ... their frames go to the list, and the pool takes in those the allocator did not own
    ensures nodes'.Values + Listed(a.free) == nodes.Values + Listed(old(a.free)) + Given(old(a.mem), root, va, pa, m)
    ensures code == -1 ==>
      a.pool == old(a.pool) + Leaves(old(a.mem), root, va, m) + Given(old(a.mem), root, va, pa, m)
    ensures (code == -1 && va % 4096 == 0 && (va + size) % 4096 == 0 && pa % 4096 == 0
             && Unmapped(old(a.mem), root, va, size / 4096)) ==>
      (a.pool == old(a.pool) <==> forall k :: 0 <= k < m ==> At(pa, k) == 0)
    // which of the two
    ensures va % 4096 == 0 && (va + size) % 4096 == 0 && pa % 4096 == 0 ==>
      (code == 0 <==>
       && (forall k :: 0 <= k && 4096 * k < size ==>
             var before := old(Translate(a.mem, root, va + 4096 * k));
             (before.Some? ==> before.value != 0) && (before.None? ==> 0 <= kind <= 2))
       && Demand(nodes, va, pa, 0, size / 4096) <= |old(a.free)|)
    // ... and what an unmapped region then translates to
    ensures (code == 0 && 0 < pa && pa + size <= PHYS_LIMIT
             && forall k :: 0 <= k && 4096 * k < size ==> old(Translate(a.mem, root, va + 4096 * k)).None?) ==>
      forall k :: 0 <= k && 4096 * k < size ==> Translate(a.mem, root, va + 4096 * k) == Some(pa + 4096 * k)
  {
    hide *;
    GivenNext(a.mem, root, va, pa, 0);
    LeavesNext(a.mem, root, va, 0);
    VisitOne(va, 0);
    if va % 4096 != 0 || (va + size) % 4096 != 0 || pa % 4096 != 0 {
      SpaceRooted(a, root, nodes);
      SpaceFacts(a, nodes);
      return -1, 0, nodes;
    }
    WholePages(va, size);
    UnmappedLiteral(a.mem, root, va, size);
    AllOKLiteral(a.mem, root, va, size, kind);
    code, m, nodes' := MapAligned(a, root, va, pa, size / 4096, kind, nodes);
    if code == 0 {
      TranslatesLiteral(old(a.mem), a.mem, root, va, pa, size, a.pool);
    }
  }

  lemma WholePages(va: int, size: nat)
    requires va % 4096 == 0 && (va + size) % 4096 == 0
    ensures size % 4096 == 0 && At(va, size / 4096) == va + size && (size == 0 <==> size / 4096 == 0)
    ensures PAGE_SIZE == 4096
  {
  }

  /** The pages of a region, counted and written out. */
  lemma UnmappedLiteral(mem: Memory, root: int, va: int, size: nat)
    requires size % 4096 == 0
    ensures (forall k :: 0 <= k && 4096 * k < size ==> Translate(mem, root, va + 4096 * k).None?) <==>
      Unmapped(mem, root, va, size / 4096)
  {
    hide Translate;
    if forall k :: 0 <= k && 4096 * k < size ==> Translate(mem, root, va + 4096 * k).None? {
      forall k | 0 <= k < size / 4096 ensures Translate(mem, root, At(va, k)).None? {
        assert At(va, k) == va + 4096 * k;
      }
    } else {
      var k :| 0 <= k && 4096 * k < size && !Translate(mem, root, va + 4096 * k).None?;
      assert At(va, k) == va + 4096 * k && k < size / 4096;
    }
  }

  lemma AllOKLiteral(mem: Memory, root: int, va: int, size: nat, kind: int)
    requires size % 4096 == 0
    ensures (forall k :: 0 <= k && 4096 * k < size ==>
               var before := Translate(mem, root, va + 4096 * k);
               (before.Some? ==> before.value != 0) && (before.None? ==> 0 <= kind <= 2)) <==>
      AllOK(mem, root, va, size / 4096, kind)
  {
    hide Translate;
    if forall k :: 0 <= k && 4096 * k < size ==> PageOK(Translate(mem, root, va + 4096 * k), kind) {
      forall k | 0 <= k < size / 4096 ensures PageOK(Translate(mem, root, At(va, k)), kind) {
        assert At(va, k) == va + 4096 * k;
      }
    } else {
      var k :| 0 <= k && 4096 * k < size && !PageOK(Translate(mem, root, va + 4096 * k), kind);
      assert At(va, k) == va + 4096 * k && k < size / 4096;
    }
  }

  lemma TranslatesLiteral(mem: Memory, mem': Memory, root: int, va: int, pa: int, size: nat, pool: set<int>)
    requires RegionMapped(mem, mem', root, va, pa, size / 4096, pool) && size % 4096 == 0
    ensures 0 < pa && pa + size <= PHYS_LIMIT && Unmapped(mem, root, va, size / 4096) ==>
      forall k :: 0 <= k && 4096 * k < size ==> Translate(mem', root, va + 4096 * k) == Some(pa + 4096 * k)
  {
    hide Translate, RegionMapped;
    if 0 < pa && pa + size <= PHYS_LIMIT && Unmapped(mem, root, va, size / 4096) {
      RegionTranslates(mem, mem', root, va, pa, size / 4096, pool);
      forall k | 0 <= k && 4096 * k < size ensures Translate(mem', root, va + 4096 * k) == Some(pa + 4096 * k) {
        assert At(va, k) == va + 4096 * k && At(pa, k) == pa + 4096 * k && 0 <= k < size / 4096;
      }
    }
  }

  /** On an unmapped region page k translates to the k-th physical address; if that is 0, to a fresh frame.
      So with pa = 0 only the first page is fresh, and page k > 0 lands at physical address 4096 * k. */
  lemma RegionTranslates(mem: Memory, mem': Memory, root: int, va: int, pa: int, n: nat, pool: set<int>)
    requires RegionMapped(mem, mem', root, va, pa, n, pool) && Unmapped(mem, root, va, n)
    requires 0 <= pa && pa + n * PAGE_SIZE <= PHYS_LIMIT
    ensures forall k :: 0 <= k < n ==>
      if At(pa, k) == 0 then Translate(mem', root, At(va, k)).Some? && Translate(mem', root, At(va, k)).value in pool
      else Translate(mem', root, At(va, k)) == Some(At(pa, k))
    ensures forall k :: 0 <= k < n && At(pa, k) == 0 ==> pa == 0 && k == 0
  {
    hide Translate;
    forall k | 0 <= k < n
      ensures if At(pa, k) == 0
        then Translate(mem', root, At(va, k)).Some? && Translate(mem', root, At(va, k)).value in pool
              else Translate(mem', root, At(va, k)) == Some(At(pa, k))
    {
      assert Mapped(Translate(mem, root, At(va, k)), Translate(mem', root, At(va, k)), At(pa, k), pool);
    }
  }

  /** What a rollback finds mapped: older pages, the caller's, and frames of the pool. */
  lemma LeavesMapped(mem: Memory, mid: Memory, root: int, va: int, pa: int, m: nat, pool: set<int>)
    requires RegionMapped(mem, mid, root, va, pa, m, pool)
    ensures pool + Leaves(mid, root, va, m) == pool + Leaves(mem, root, va, m) + Given(mem, root, va, pa, m)
  {
    hide Translate, At;
    forall k | 0 <= k < m
      ensures Mapped(Translate(mem, root, At(va, k)), Translate(mid, root, At(va, k)), At(pa, k), pool)
    {
    }
  }

  lemma PoolKept(mem: Memory, root: int, va: int, pa: int, m: nat, n: nat, pool: set<int>)
    requires m <= n && Outside(pool, pa, n)
    ensures Unmapped(mem, root, va, n) ==>
      (pool + Leaves(mem, root, va, m) + Given(mem, root, va, pa, m) == pool <==>
       forall k :: 0 <= k < m ==> At(pa, k) == 0)
  {
    hide Translate, At;
    if Unmapped(mem, root, va, n) {
      assert Leaves(mem, root, va, m) == {};
      var given := Given(mem, root, va, pa, m);
      forall k | 0 <= k < m && At(pa, k) != 0
        ensures At(pa, k) % PHYS_LIMIT in given && At(pa, k) % PHYS_LIMIT !in pool
      {
      }
      if forall k :: 0 <= k < m ==> At(pa, k) == 0 {
        assert given == {};
      } else {
        var k :| 0 <= k < m && At(pa, k) != 0;
        assert At(pa, k) % PHYS_LIMIT in pool + {} + given;
      }
    }
  }

  lemma PagesExact(va: int, m: nat)
    ensures Pages(va, At(va, m)) == m
  {
  }

  lemma RolledBack(mem: Memory, mid: Memory, mem': Memory, root: int, va: int, pa: int, m: nat, pool: set<int>)
    requires RegionMapped(mem, mid, root, va, pa, m, pool)
    requires forall v :: v >= 0 ==>
      Translate(mem', root, v) == if Visited(v, va, m) then None else Translate(mid, root, v)
    ensures forall v :: v >= 0 ==>
      Translate(mem', root, v) == if Visited(v, va, m) then None else Translate(mem, root, v)
  {
  }
}
