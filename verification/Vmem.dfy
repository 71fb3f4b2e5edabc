/** Growing page tables: get_physical_page and map_page of kernel/vmem.c. */
module Vmem {
  import opened Options
  import opened Kalloc
  import opened PageTree

  lemma EmptyTable(mem: Memory, nodes: Nodes, q: Path)
    requires q in nodes && nodes[q] in mem && mem[nodes[q]] == ZeroPage()
    requires forall i :: 0 <= i < WORDS ==> Sub(q, i) !in nodes
    ensures TableOK(mem, nodes, q)
  {
  }

  lemma ChangedTable(mem: Memory, nodes: Nodes, p: Path, i: int, w: int, f: int)
    requires p in nodes && TableOK(mem, nodes, p)
    requires 0 <= i < WORDS && Sub(p, i) !in nodes && Present(w) && Phys(w) == f
    ensures TableOK(mem[nodes[p] := mem[nodes[p]][i := w]], nodes[Sub(p, i) := f], p)
  {
  }

  lemma TableThere(mem: Memory, nodes: Nodes, p: Path)
    requires p in nodes && TableOK(mem, nodes, p)
    ensures nodes[p] in mem && |mem[nodes[p]]| == WORDS
  {
  }

  /** Writing one entry that points at a fresh, empty frame adds exactly one node. */
  lemma AddNode(mem: Memory, nodes: Nodes, p: Path, i: int, w: int, f: int, pool: set<int>)
    requires Tree(mem, nodes) && Owned(nodes, pool)
    requires p in nodes && Level(p) < 4 && TableOK(mem, nodes, p)
    requires 0 <= i < WORDS && Sub(p, i) !in nodes
    requires Present(w) && Phys(w) == f
    requires Level(p) < 3 ==> f in mem && f in pool && f !in nodes.Values && mem[f] == ZeroPage()
    ensures Tree(mem[nodes[p] := mem[nodes[p]][i := w]], nodes[Sub(p, i) := f])
  {
    hide Present, Phys, ZeroPage, TableOK;
    TableThere(mem, nodes, p);
    var mem', nodes' := mem[nodes[p] := mem[nodes[p]][i := w]], nodes[Sub(p, i) := f];
    forall q | q in nodes' && Level(q) < 4 ensures TableOK(mem', nodes', q) {
      if q in nodes {
        assert TableOK(mem, nodes, q);
        TableThere(mem, nodes, q);
      }
      if q == p {
        ChangedTable(mem, nodes, p, i, w, f);
      } else if q in nodes {
        assert Apart(nodes, pool, p, q);
        SameTable(mem, mem', nodes, nodes', q);
      } else {
        EmptyTable(mem', nodes', q);
      }
    }
  }

  lemma OwnNode(nodes: Nodes, q: Path, f: int, pool: set<int>)
    requires Owned(nodes, pool) && q !in nodes
    requires f in pool ==> f !in nodes.Values
    requires Level(q) < 4 ==> f in pool
    ensures Owned(nodes[q := f], pool)
  {
    var nodes' := nodes[q := f];
    forall p, r | p in nodes' && r in nodes' ensures Apart(nodes', pool, p, r) {
      if p in nodes && r in nodes {
        assert Apart(nodes, pool, p, r);
      }
    }
  }

  /** A tree only depends on the frames of its tables. */
  lemma TreeFrame(mem: Memory, mem': Memory, nodes: Nodes)
    requires Tree(mem, nodes)
    requires forall p :: p in nodes && Level(p) < 4 ==>
      nodes[p] in mem' && nodes[p] in mem && mem'[nodes[p]] == mem[nodes[p]]
    ensures Tree(mem', nodes)
  {
    forall p | p in nodes && Level(p) < 4 ensures TableOK(mem', nodes, p) {
      assert TableOK(mem, nodes, p);
      SameTable(mem, mem', nodes, nodes, p);
    }
  }

  /** kalloc, seen from a tree that is left alone. */
  method Take(a: Allocator, ghost nodes: Nodes) returns (f: int)
    requires a.Valid() && Space(a, nodes)
    modifies a
    ensures a.Valid() && Space(a, nodes)
    ensures a.pool == old(a.pool) && a.mem.Keys == old(a.mem).Keys
    ensures f == NULL <==> old(a.free) == []
    ensures f == NULL ==> a.free == old(a.free) && a.mem == old(a.mem)
    ensures f != NULL ==> f in a.mem && IsFrame(f) && a.mem == old(a.mem)[f := ZeroPage()]
    ensures f != NULL ==> old(a.free) == [f] + a.free
    ensures f != NULL ==> f in a.pool && f !in a.free && f !in nodes.Values
  {
    f := a.Kalloc();
    if f != NULL {
      assert f in old(a.free);
      forall p | p in nodes && Level(p) < 4 ensures nodes[p] != f {
        assert TableOK(old(a.mem), nodes, p);
      }
      forall p | p in nodes && Level(p) < 4 ensures nodes[p] in old(a.mem) {
        assert TableOK(old(a.mem), nodes, p);
      }
      TreeFrame(old(a.mem), a.mem, nodes);
    }
  }

  /** kfree of a frame that is not in the tree, seen from the tree. */
  method Give(a: Allocator, f: int, ghost nodes: Nodes)
    requires a.Valid() && Space(a, nodes)
    requires f in a.mem && IsFrame(f) && f !in a.free && f in a.pool && f !in nodes.Values
    modifies a
    ensures a.Valid() && Space(a, nodes)
    ensures a.pool == old(a.pool) && a.mem.Keys == old(a.mem).Keys && a.free == [f] + old(a.free)
    ensures forall g :: g in a.mem && g != f ==> a.mem[g] == old(a.mem)[g]
  {
    forall p | p in nodes && Level(p) < 4 ensures nodes[p] in a.mem {
      assert TableOK(a.mem, nodes, p);
    }
    a.Kfree(f);
    TreeFrame(old(a.mem), a.mem, nodes);
    assert a.pool == old(a.pool);
  }

  /** The two switches that build an entry: by level, and for a leaf by kind. */
  method EntryFor(level: nat, kind: int, pa: int, own: bool) returns (w: int)
    requires pa >= 0
    ensures Present(w) && Phys(w) == pa % PHYS_LIMIT
    ensures pa < PHYS_LIMIT ==> Phys(w) == pa
    ensures w == if level < 3 || (kind == 0 && !own) then TableEntry(pa) else LeafEntry(pa, kind)
  {
    w := if level < 3 || (kind == 0 && !own) then TableEntry(pa) else LeafEntry(pa, kind);
  }

  /** Store an entry that adds the node at Sub(p, slot). */
  method Point(a: Allocator, table: int, slot: int, w: int, ghost p: Path, ghost f: int, ghost nodes: Nodes)
    requires a.Valid() && Space(a, nodes)
    requires p in nodes && Level(p) < 4 && nodes[p] == table
    requires 0 <= slot < WORDS && Sub(p, slot) !in nodes
    requires Present(w) && Phys(w) == f && f !in a.free
    requires f in a.pool ==> f !in nodes.Values
    requires Level(p) < 3 ==> f in a.mem && f in a.pool && a.mem[f] == ZeroPage()
    modifies a`mem
    ensures a.Valid() && Space(a, nodes[Sub(p, slot) := f])
    ensures table in old(a.mem) && |old(a.mem)[table]| == WORDS
    ensures a.mem == old(a.mem)[table := old(a.mem)[table][slot := w]]
  {
    assert TableOK(a.mem, nodes, p);
    AddNode(a.mem, nodes, p, slot, w, f, a.pool);
    OwnNode(nodes, Sub(p, slot), f, a.pool);
    a.Store(table, slot, w);
  }

  // ---- what growth changes -------------------------------------------------------------

  /** Everything a tree operation can see or change. */
  datatype Snapshot = Snapshot(mem: Memory, free: seq<int>, pool: set<int>, nodes: Nodes)

  ghost function View(a: Allocator, nodes: Nodes): Snapshot
    reads a
  {
    Snapshot(a.mem, a.free, a.pool, nodes)
  }

  /** Frames of the pool that are either free or part of this tree. */
  ghost function Held(s: Snapshot): set<int> {
    Listed(s.free) + s.nodes.Values * s.pool
  }

  /** Nothing is lost or moved, and every new node lies on the walk for `va`. */
  ghost predicate Grown(nodes: Nodes, nodes': Nodes, va: int) {
    && (forall q :: q in nodes ==> q in nodes' && nodes'[q] == nodes[q])
    && (forall q :: q in nodes' && q !in nodes ==> q == PathOf(va, Level(q)))
  }

  /** From s to t the tree grew along `va`, out of the front of the free list only. */
  ghost predicate Growth(s: Snapshot, t: Snapshot, va: int) {
    && t.pool == s.pool && t.mem.Keys == s.mem.Keys
    && Grown(s.nodes, t.nodes, va)
    && |t.free| <= |s.free| && t.free == s.free[|s.free| - |t.free|..]
    && (forall q :: q in t.nodes && q !in s.nodes && Level(q) < 4 ==> t.nodes[q] in s.free)
    && (forall g :: g in s.mem && g !in Tables(s.nodes) && g !in s.free ==> t.mem[g] == s.mem[g])
    && Held(t) == Held(s)
  }

  lemma GrowthTrans(s: Snapshot, t: Snapshot, u: Snapshot, va: int)
    requires Growth(s, t, va) && Growth(t, u, va)
    ensures Growth(s, u, va)
  {
    forall g | g in s.mem && g !in Tables(s.nodes) && g !in s.free ensures u.mem[g] == s.mem[g] {
      assert g !in Tables(t.nodes);
    }
  }

  lemma GrowthIdle(s: Snapshot, t: Snapshot, va: int)
    requires t.nodes == s.nodes && t.free == s.free && t.pool == s.pool && t.mem.Keys == s.mem.Keys
    requires forall g :: g in s.mem && g !in Tables(s.nodes) && g !in s.free ==> t.mem[g] == s.mem[g]
    ensures Growth(s, t, va)
  {
  }

  /** One more node under a table of the tree. */
  lemma GrowthOne(s: Snapshot, t: Snapshot, va: int, i: nat, f: int)
    requires i < 4 && PathOf(va, i) in s.nodes && PathOf(va, i + 1) !in s.nodes
    requires t.nodes == s.nodes[PathOf(va, i + 1) := f]
    requires t.pool == s.pool && t.mem.Keys == s.mem.Keys
    requires (s.free == [f] + t.free && f in s.pool) || (i == 3 && t.free == s.free && f !in s.pool)
    requires forall g :: g in s.mem && g != s.nodes[PathOf(va, i)] && g !in s.free ==> t.mem[g] == s.mem[g]
    ensures Growth(s, t, va)
  {
    assert s.nodes[PathOf(va, i)] in Tables(s.nodes);
    assert t.nodes.Values == s.nodes.Values + {f} by {
      assert t.nodes[PathOf(va, i + 1)] == f;
      forall g | g in s.nodes.Values ensures g in t.nodes.Values {
        var q :| q in s.nodes && s.nodes[q] == g;
        assert t.nodes[q] == g;
      }
    }
  }

  /** The branch of get_physical_page that enters a caller-supplied address at the last level. */
  method GivenEntry(a: Allocator, table: int, va: int, pa: int, kind: int, ghost nodes: Nodes)
    returns (ok: bool, ghost nodes': Nodes)
    requires a.Valid() && Space(a, nodes)
    requires PathOf(va, 3) in nodes && nodes[PathOf(va, 3)] == table && PathOf(va, 4) !in nodes
    requires pa > 0 && pa % PHYS_LIMIT !in a.pool
    modifies a
    ensures a.Valid() && Space(a, nodes') && Growth(old(View(a, nodes)), View(a, nodes'), va)
    ensures ok <==> 0 <= kind <= 2
    ensures a.free == old(a.free) && a.pool == old(a.pool)
    ensures nodes' == if ok then nodes[PathOf(va, 4) := pa % PHYS_LIMIT] else nodes
    ensures ok ==>
      && table in a.mem && |a.mem[table]| == WORDS
      && a.mem[table][Index(va, 3)] == if kind == 0 then TableEntry(pa) else LeafEntry(pa, kind)
  {
    hide Growth, Space, a.Valid, Present, Phys, TableEntry, LeafEntry, PathOf, Index, Level, ZeroPage, IsFrame;
    PathNext(va, 3);
    if kind != 0 && kind != 1 && kind != 2 {
      GrowthIdle(old(View(a, nodes)), View(a, nodes), va);
      return false, nodes;
    }
    NotFree(a, pa % PHYS_LIMIT);
    var w := EntryFor(3, kind, pa, false);
    Point(a, table, Index(va, 3), w, PathOf(va, 3), pa % PHYS_LIMIT, nodes);
    nodes' := nodes[PathOf(va, 4) := pa % PHYS_LIMIT];
    GrowthOne(old(View(a, nodes)), View(a, nodes'), va, 3, pa % PHYS_LIMIT);
    return true, nodes';
  }

  /** The kalloc branch of get_physical_page: a new table, or at the last level a new page. */
  method AllocEntry(a: Allocator, table: int, va: int, level: nat, kind: int, ghost nodes: Nodes)
    returns (ok: bool, ghost nodes': Nodes)
    requires a.Valid() && Space(a, nodes)
    requires level < 4 && PathOf(va, level) in nodes && nodes[PathOf(va, level)] == table
    requires PathOf(va, level + 1) !in nodes
    modifies a
    ensures a.Valid() && Space(a, nodes') && Growth(old(View(a, nodes)), View(a, nodes'), va)
    ensures ok <==> old(a.free) != [] && (level == 3 ==> 0 <= kind <= 2)
    ensures a.free == if ok then old(a.free)[1..] else old(a.free)
    ensures a.pool == old(a.pool)
    ensures nodes' == if ok then nodes[PathOf(va, level + 1) := old(a.free)[0]] else nodes
    ensures ok ==>
      && old(a.free)[0] > 0 && table in a.mem && |a.mem[table]| == WORDS
      && a.mem[table][Index(va, level)] ==
           if level < 3 then TableEntry(old(a.free)[0]) else LeafEntry(old(a.free)[0], kind)
  {
    hide Growth, Space, a.Valid, Present, Phys, IsFrame, ZeroPage, TableEntry, LeafEntry, PathOf, Index, Level;
    PathNext(va, level);
    var f := Take(a, nodes);
    if f == NULL {
      GrowthIdle(old(View(a, nodes)), View(a, nodes), va);
      return false, nodes;
    }
    FrameInField(f);
    if level == 3 && kind != 0 && kind != 1 && kind != 2 {
      Give(a, f, nodes);
      GrowthIdle(old(View(a, nodes)), View(a, nodes), va);
      return false, nodes;
    }
    var w := EntryFor(level, kind, f, true);
    Point(a, table, Index(va, level), w, PathOf(va, level), f, nodes);
    nodes' := nodes[PathOf(va, level + 1) := f];
    GrowthOne(old(View(a, nodes)), View(a, nodes'), va, level, f);
    return true, nodes';
  }

  lemma PathNext(va: int, i: nat)
    ensures PathOf(va, i + 1) == Sub(PathOf(va, i), Index(va, i)) && Level(PathOf(va, i)) == i
  {
  }

  lemma NotFree(a: Allocator, f: int)
    requires a.Valid() && f !in a.pool
    ensures f !in a.free
  {
  }

  lemma FrameInField(f: int)
    requires IsFrame(f)
    ensures 0 < f < PHYS_LIMIT
  {
  }

  /** How many tables below level `i` are missing on the walk for `va`. */
  function Missing(nodes: Nodes, va: int, i: nat): nat
    decreases 3 - i
  {
    if i >= 3 then 0 else (if PathOf(va, i + 1) in nodes then 0 else 1) + Missing(nodes, va, i + 1)
  }

  /** Frames get_physical_page has to find for an address that is not mapped yet. */
  function Need(nodes: Nodes, va: int, pa: int, i: nat): nat {
    Missing(nodes, va, i) + if pa == 0 then 1 else 0
  }

  lemma {:induction false} MissingBelow(nodes: Nodes, va: int, i: nat, j: nat, f: int)
    requires i <= j
    ensures Missing(nodes[PathOf(va, i) := f], va, j) == Missing(nodes, va, j)
    decreases 3 - j
  {
    if j < 3 {
      assert Level(PathOf(va, j + 1)) != Level(PathOf(va, i));
      MissingBelow(nodes, va, i, j + 1, f);
    }
  }

  datatype Outcome = Outcome(r: int, nodes: Nodes, free: seq<int>)

  /** What the walk does to the tree and the free list from level `i` on. */
  function Insert(nodes: Nodes, free: seq<int>, va: int, pa: int, kind: int, i: nat): Outcome
    requires i <= 4 && PathOf(va, i) in nodes
    decreases 4 - i
  {
    if i == 4 then Outcome(nodes[PathOf(va, 4)], nodes, free)
    else
      var q := PathOf(va, i + 1);
      if q in nodes then Insert(nodes, free, va, pa, kind, i + 1)
      else if i == 3 && !(0 <= kind <= 2) then Outcome(NULL, nodes, free)
      else if i == 3 && pa != 0 then Outcome(pa, nodes[q := pa % PHYS_LIMIT], free)
      else if free == [] then Outcome(NULL, nodes, free)
      else Insert(nodes[q := free[0]], free[1..], va, pa, kind, i + 1)
  }

  /** A mapped address is only looked up. */
  lemma {:induction false} InsertMapped(nodes: Nodes, free: seq<int>, va: int, pa: int, kind: int, i: nat)
    requires i <= 4 && PathOf(va, i) in nodes && Closed(nodes) && PathOf(va, 4) in nodes
    ensures Insert(nodes, free, va, pa, kind, i) == Outcome(nodes[PathOf(va, 4)], nodes, free)
    decreases 4 - i
  {
    if i < 4 {
      if PathOf(va, i + 1) !in nodes {
        PrefixMissing(nodes, va, i + 1, 4);
      }
      InsertMapped(nodes, free, va, pa, kind, i + 1);
    }
  }

  /** An unmapped address gets a page exactly when the kind is known and the frames suffice. */
  lemma {:induction false} InsertUnmapped(nodes: Nodes, free: seq<int>, va: int, pa: int, kind: int, i: nat)
    requires i <= 3 && PathOf(va, i) in nodes && PathOf(va, 4) !in nodes
    ensures var o := Insert(nodes, free, va, pa, kind, i);
      if 0 <= kind <= 2 && Need(nodes, va, pa, i) <= |free| then
        && PathOf(va, 4) in o.nodes
        && o.r == (if pa == 0 then free[Missing(nodes, va, i)] else pa)
        && o.nodes[PathOf(va, 4)] == (if pa == 0 then o.r else pa % PHYS_LIMIT)
        && |o.free| == |free| - Need(nodes, va, pa, i)
      else
        o.r == NULL && PathOf(va, 4) !in o.nodes
    decreases 3 - i
  {
    if i < 3 {
      var q := PathOf(va, i + 1);
      assert Level(q) != Level(PathOf(va, 4));
      if q in nodes {
        InsertUnmapped(nodes, free, va, pa, kind, i + 1);
      } else if free != [] {
        MissingBelow(nodes, va, i + 1, i + 1, free[0]);
        InsertUnmapped(nodes[q := free[0]], free[1..], va, pa, kind, i + 1);
      }
    }
  }

  /** New nodes take their frames from the free list, except a leaf entered by address. */
  ghost predicate NewFrames(nodes: Nodes, nodes': Nodes, free: seq<int>, pa: int) {
    forall q :: q in nodes' && q !in nodes ==> nodes'[q] in free || (pa != 0 && nodes'[q] == pa % PHYS_LIMIT)
  }

  lemma {:induction false} InsertKeeps(nodes: Nodes, free: seq<int>, va: int, pa: int, kind: int, i: nat)
    requires i <= 4 && PathOf(va, i) in nodes
    ensures forall q :: q in nodes ==>
      q in Insert(nodes, free, va, pa, kind, i).nodes && Insert(nodes, free, va, pa, kind, i).nodes[q] == nodes[q]
    decreases 4 - i
  {
    if i < 4 {
      var q := PathOf(va, i + 1);
      if q in nodes {
        InsertKeeps(nodes, free, va, pa, kind, i + 1);
      } else if free != [] {
        InsertKeeps(nodes[q := free[0]], free[1..], va, pa, kind, i + 1);
      }
    }
  }

  lemma {:induction false} InsertFrames(nodes: Nodes, free: seq<int>, va: int, pa: int, kind: int, i: nat)
    requires i <= 4 && PathOf(va, i) in nodes
    ensures NewFrames(nodes, Insert(nodes, free, va, pa, kind, i).nodes, free, pa)
    decreases 4 - i
  {
    if i < 4 {
      var q := PathOf(va, i + 1);
      if q in nodes {
        InsertFrames(nodes, free, va, pa, kind, i + 1);
      } else if free != [] && (i < 3 || (pa == 0 && 0 <= kind <= 2)) {
        var o := Insert(nodes[q := free[0]], free[1..], va, pa, kind, i + 1);
        assert o == Insert(nodes, free, va, pa, kind, i);
        InsertFrames(nodes[q := free[0]], free[1..], va, pa, kind, i + 1);
        InsertKeeps(nodes[q := free[0]], free[1..], va, pa, kind, i + 1);
        hide Insert, PathOf, Level;
      }
    }
  }

  /** Growth is a map update at the page of `va` at most. */
  lemma GrowthLeaves(s: Snapshot, t: Snapshot, va: int)
    requires Tree(s.mem, s.nodes) && Tree(t.mem, t.nodes) && Growth(s, t, va) && va >= 0
    ensures t.nodes[Top] == s.nodes[Top]
    ensures Translate(t.mem, s.nodes[Top], va) == LeafAt(t.nodes, va)
    ensures Translate(s.mem, s.nodes[Top], va) == LeafAt(s.nodes, va)
    ensures forall v :: v >= 0 && PageNumber(v) != PageNumber(va) ==>
      Translate(t.mem, s.nodes[Top], v) == Translate(s.mem, s.nodes[Top], v)
  {
    TreeRefinesMap(s.mem, s.nodes);
    TreeRefinesMap(t.mem, t.nodes);
    forall v | v >= 0 && PageNumber(v) != PageNumber(va) ensures LeafAt(t.nodes, v) == LeafAt(s.nodes, v) {
      SamePath(v, va);
    }
  }

  /** Reading the entry that the walk meets at level i. */
  lemma ReadEntry(a: Allocator, nodes: Nodes, va: int, i: nat)
    requires Space(a, nodes) && i < 4 && PathOf(va, i) in nodes
    ensures nodes[PathOf(va, i)] in a.mem && |a.mem[nodes[PathOf(va, i)]]| == WORDS && 0 <= Index(va, i) < WORDS
    ensures var w := a.mem[nodes[PathOf(va, i)]][Index(va, i)];
      && (PathOf(va, i + 1) in nodes <==> Present(w))
      && (PathOf(va, i + 1) in nodes ==> nodes[PathOf(va, i + 1)] == Phys(w))
  {
    assert TableOK(a.mem, nodes, PathOf(va, i));
    assert PathOf(va, i + 1) == Sub(PathOf(va, i), Index(va, i));
  }

  /** The entry that get_physical_page stores for a new page `r`, by its kind and origin. */
  ghost predicate LeafStored(mem: Memory, nodes: Nodes, va: int, pa: int, kind: int, r: int) {
    && PathOf(va, 3) in nodes && nodes[PathOf(va, 3)] in mem && |mem[nodes[PathOf(va, 3)]]| == WORDS && r > 0
    && mem[nodes[PathOf(va, 3)]][Index(va, 3)] ==
         if pa != 0 && kind == 0 then TableEntry(r) else LeafEntry(r, kind)
  }

  /** One pass of the loop in get_physical_page: `next` is the frame one level down, or NULL. */
  method StepDown(a: Allocator, table: int, va: int, i: nat, pa: int, kind: int, ghost nodes: Nodes)
    returns (next: int, ghost nodes': Nodes)
    requires a.Valid() && Space(a, nodes)
    requires i < 4 && PathOf(va, i) in nodes && nodes[PathOf(va, i)] == table
    requires pa >= 0 && (pa != 0 ==> pa % PHYS_LIMIT !in a.pool)
    modifies a
    ensures a.Valid() && Space(a, nodes') && Growth(old(View(a, nodes)), View(a, nodes'), va)
    ensures a.pool == old(a.pool)
    ensures PathOf(va, i + 1) in nodes ==> View(a, nodes') == old(View(a, nodes))
    ensures next == NULL || i == 3 ==> Insert(nodes, old(a.free), va, pa, kind, i) == Outcome(next, nodes', a.free)
    ensures next != NULL && i < 3 ==>
      && PathOf(va, i + 1) in nodes' && nodes'[PathOf(va, i + 1)] == next
      && Insert(nodes, old(a.free), va, pa, kind, i) == Insert(nodes', a.free, va, pa, kind, i + 1)
    ensures forall q :: q in nodes' ==> q in nodes || q == PathOf(va, i + 1)
    ensures i == 3 && next != NULL && PathOf(va, 4) !in nodes ==> LeafStored(a.mem, nodes', va, pa, kind, next)
  {
    hide Growth, Space, a.Valid, Present, Phys, TableEntry, LeafEntry;
    ReadEntry(a, nodes, va, i);
    nodes' := nodes;
    if !Present(a.mem[table][Index(va, i)]) {
      var ok: bool;
      if i == 3 && pa != 0 {
        ok, nodes' := GivenEntry(a, table, va, pa, kind, nodes);
        return if ok then pa else NULL, nodes';
      }
      ok, nodes' := AllocEntry(a, table, va, i, kind, nodes);
      if !ok {
        return NULL, nodes';
      }
      ReadEntry(a, nodes', va, i);
    } else {
      GrowthIdle(View(a, nodes), View(a, nodes), va);
    }
    next := Phys(a.mem[table][Index(va, i)]);
    NodeNotNull(a, nodes', PathOf(va, i + 1));
  }

  lemma NodeNotNull(a: Allocator, nodes: Nodes, p: Path)
    requires a.Valid() && Space(a, nodes) && p in nodes
    ensures Level(p) < 4 ==> nodes[p] != NULL
  {
    if Level(p) < 4 {
      PoolFrame(a, nodes[p]);
    }
  }

  lemma FreeNotNull(a: Allocator)
    requires a.Valid()
    ensures forall k :: 0 <= k < |a.free| ==> a.free[k] != NULL
  {
    forall k | 0 <= k < |a.free| ensures a.free[k] != NULL {
      assert a.free[k] in a.free;
    }
  }

  lemma TopOf(a: Allocator, nodes: Nodes)
    requires Space(a, nodes)
    ensures Top in nodes && Closed(nodes)
  {
  }

  /** The walk that began in state s has come to `table` on level i, in state t. */
  ghost predicate WalkAt(s: Snapshot, t: Snapshot, va: int, pa: int, kind: int, i: nat, table: int) {
    && i <= 4 && Top in s.nodes && Closed(s.nodes)
    && Growth(s, t, va) && (PathOf(va, 4) in s.nodes ==> t == s)
    && (i < 4 && PathOf(va, 4) !in s.nodes ==> PathOf(va, 4) !in t.nodes)
    && (i == 4 && PathOf(va, 4) !in s.nodes ==> LeafStored(t.mem, t.nodes, va, pa, kind, table))
    && (i < 4 ==>
          && PathOf(va, i) in t.nodes && table == t.nodes[PathOf(va, i)]
          && Insert(t.nodes, t.free, va, pa, kind, i) == Insert(s.nodes, s.free, va, pa, kind, 0))
    && (i == 4 ==> Outcome(table, t.nodes, t.free) == Insert(s.nodes, s.free, va, pa, kind, 0))
  }

  /** The walk has ended with `r`. */
  ghost predicate WalkDone(s: Snapshot, t: Snapshot, va: int, pa: int, kind: int, r: int) {
    && Top in s.nodes && Growth(s, t, va) && (PathOf(va, 4) in s.nodes ==> t == s)
    && Outcome(r, t.nodes, t.free) == Insert(s.nodes, s.free, va, pa, kind, 0)
    && (r != NULL && PathOf(va, 4) !in s.nodes ==> LeafStored(t.mem, t.nodes, va, pa, kind, r))
  }

  lemma WalkStart(s: Snapshot, va: int, pa: int, kind: int)
    requires Top in s.nodes && Closed(s.nodes)
    ensures WalkAt(s, s, va, pa, kind, 0, s.nodes[Top])
  {
    GrowthIdle(s, s, va);
    hide Growth, Insert;
  }

  lemma PathsDiffer(va: int, i: nat, j: nat)
    ensures i != j ==> PathOf(va, i) != PathOf(va, j)
  {
    assert Level(PathOf(va, i)) == i && Level(PathOf(va, j)) == j;
  }

  lemma WalkNext(s: Snapshot, t: Snapshot, u: Snapshot, va: int, pa: int, kind: int, i: nat, table: int, next: int)
    requires i < 4 && WalkAt(s, t, va, pa, kind, i, table) && Growth(t, u, va)
    requires PathOf(va, i + 1) in t.nodes ==> u == t
    requires next == NULL || i == 3 ==> Insert(t.nodes, t.free, va, pa, kind, i) == Outcome(next, u.nodes, u.free)
    requires next != NULL && i < 3 ==>
      && PathOf(va, i + 1) in u.nodes && u.nodes[PathOf(va, i + 1)] == next
      && Insert(t.nodes, t.free, va, pa, kind, i) == Insert(u.nodes, u.free, va, pa, kind, i + 1)
    requires forall q :: q in u.nodes ==> q in t.nodes || q == PathOf(va, i + 1)
    requires i == 3 && next != NULL && PathOf(va, 4) !in t.nodes ==> LeafStored(u.mem, u.nodes, va, pa, kind, next)
    ensures if next == NULL then WalkDone(s, u, va, pa, kind, next) else WalkAt(s, u, va, pa, kind, i + 1, next)
  {
    hide Growth, Insert, Closed, LeafStored, PathOf, Level;
    GrowthTrans(s, t, u, va);
    PathsDiffer(va, i + 1, 4);
    if PathOf(va, i + 1) !in s.nodes {
      PrefixMissing(s.nodes, va, i + 1, 4);
    }
  }

  /** The loop of get_physical_page computes Insert. */
  method WalkDown(a: Allocator, root: int, va: int, pa: int, kind: int, ghost nodes: Nodes)
    returns (r: int, ghost nodes': Nodes)
    requires a.Valid() && Space(a, nodes) && nodes[Top] == root
    requires pa >= 0 && (pa != 0 ==> pa % PHYS_LIMIT !in a.pool)
    modifies a
    ensures a.Valid() && Space(a, nodes')
    ensures WalkDone(old(View(a, nodes)), View(a, nodes'), va, pa, kind, r)
  {
    hide Growth, Space, a.Valid, Closed, Insert, PathOf, WalkAt, WalkDone, LeafStored;
    TopOf(a, nodes);
    ghost var start := View(a, nodes);
    WalkStart(start, va, pa, kind);
    r, nodes' := root, nodes;
    var i := 0;
    while i <= 3
      invariant 0 <= i <= 4
      invariant a.Valid() && Space(a, nodes') && a.pool == old(a.pool)
      invariant WalkAt(start, View(a, nodes'), va, pa, kind, i, r)
    {
      ghost var before, table := View(a, nodes'), r;
      WalkAtFacts(start, before, va, pa, kind, i, r);
      r, nodes' := StepDown(a, r, va, i, pa, kind, nodes');
      WalkNext(start, before, View(a, nodes'), va, pa, kind, i, table, r);
      if r == NULL {
        return;
      }
      i := i + 1;
    }
    WalkEnds(start, View(a, nodes'), va, pa, kind, r);
  }

  lemma WalkAtFacts(s: Snapshot, t: Snapshot, va: int, pa: int, kind: int, i: nat, table: int)
    requires i < 4 && WalkAt(s, t, va, pa, kind, i, table)
    ensures PathOf(va, i) in t.nodes && t.nodes[PathOf(va, i)] == table
  {
  }

  lemma WalkEnds(s: Snapshot, t: Snapshot, va: int, pa: int, kind: int, r: int)
    requires WalkAt(s, t, va, pa, kind, 4, r)
    ensures WalkDone(s, t, va, pa, kind, r)
  {
    hide Growth, Insert, Closed, LeafStored;
  }

  /** get_physical_page. `nodes` is the tree before the call, `nodes'` the tree after it. */
  method GetPhysicalPage(a: Allocator, root: int, va: int, pa: int, kind: int, ghost nodes: Nodes)
    returns (r: int, ghost nodes': Nodes)
    requires a.Valid() && Space(a, nodes) && nodes[Top] == root
    requires va >= 0 && pa >= 0 && (pa != 0 ==> pa % PHYS_LIMIT !in a.pool)
    modifies a
    ensures a.Valid() && Space(a, nodes') && nodes'[Top] == root
    ensures Growth(old(View(a, nodes)), View(a, nodes'), va) && NewFrames(nodes, nodes', old(a.free), pa)
    // no other page is affected
    ensures forall v :: v >= 0 && PageNumber(v) != PageNumber(va) ==>
      Translate(a.mem, root, v) == old(Translate(a.mem, root, v))
    // an existing mapping is returned, never replaced
    ensures old(Translate(a.mem, root, va)).Some? ==>
      View(a, nodes') == old(View(a, nodes)) && Some(r) == old(Translate(a.mem, root, va))
    // otherwise one is made exactly when the kind is known and enough frames are free
    ensures old(Translate(a.mem, root, va)).None? ==>
      if 0 <= kind <= 2 && Need(nodes, va, pa, 0) <= |old(a.free)| then
        && r == (if pa == 0 then old(a.free)[Missing(nodes, va, 0)] else pa)
        && Translate(a.mem, root, va) == Some(if pa == 0 then r else pa % PHYS_LIMIT)
        && r != NULL && |a.free| == |old(a.free)| - Need(nodes, va, pa, 0)
        && LeafStored(a.mem, nodes', va, pa, kind, r)
      else
        r == NULL && Translate(a.mem, root, va).None?
  {
    TopOf(a, nodes);
    FreeNotNull(a);
    hide Growth, Owned, TableOK, IsList, Closed, Walk, Insert, PageNumber, NewFrames, LeafStored;
    r, nodes' := WalkDown(a, root, va, pa, kind, nodes);
    assert Outcome(r, nodes', a.free) == Insert(nodes, old(a.free), va, pa, kind, 0);
    GrowthLeaves(old(View(a, nodes)), View(a, nodes'), va);
    InsertFrames(nodes, old(a.free), va, pa, kind, 0);
    if PathOf(va, 4) in nodes {
      InsertMapped(nodes, old(a.free), va, pa, kind, 0);
    } else {
      InsertUnmapped(nodes, old(a.free), va, pa, kind, 0);
    }
  }

  /** A page after mapping it: an older mapping wins, then the given address, then a fresh frame. */
  ghost predicate Mapped(before: Option<int>, now: Option<int>, pa: int, pool: set<int>) {
    if before.Some? then now == before
    else if pa != 0 then now == Some(pa % PHYS_LIMIT)
    else now.Some? && now.value in pool
  }

  /** map_page: -1 exactly when the walk yields NULL, which includes a page already mapped at address 0. */
  method MapPage(a: Allocator, root: int, va: int, pa: int, kind: int, ghost nodes: Nodes)
    returns (code: int, ghost nodes': Nodes)
    requires a.Valid() && Space(a, nodes) && nodes[Top] == root
    requires va >= 0 && pa >= 0 && (pa != 0 ==> pa % PHYS_LIMIT !in a.pool)
    modifies a
    ensures a.Valid() && Space(a, nodes') && Top in nodes' && nodes'[Top] == root
    ensures Growth(old(View(a, nodes)), View(a, nodes'), va) && NewFrames(nodes, nodes', old(a.free), pa)
    ensures a.pool == old(a.pool) && a.mem.Keys == old(a.mem).Keys
    ensures forall v :: v >= 0 && PageNumber(v) != PageNumber(va) ==>
      Translate(a.mem, root, v) == old(Translate(a.mem, root, v))
    ensures code == 0 || code == -1
    ensures code == -1 ==> Translate(a.mem, root, va) == old(Translate(a.mem, root, va))
    ensures code == 0 ==> Mapped(old(Translate(a.mem, root, va)), Translate(a.mem, root, va), pa, a.pool)
    ensures old(Translate(a.mem, root, va)).None? ==>
      && (code == 0 <==> 0 <= kind <= 2 && Need(nodes, va, pa, 0) <= |old(a.free)|)
      && (code == 0 ==> |a.free| == |old(a.free)| - Need(nodes, va, pa, 0))
      && (code == 0 <==> Translate(a.mem, root, va).Some?)
    ensures old(Translate(a.mem, root, va)).Some? ==>
      && View(a, nodes') == old(View(a, nodes))
      && code == if old(Translate(a.mem, root, va)).value == 0 then -1 else 0
  {
    var frame;
    frame, nodes' := GetPhysicalPage(a, root, va, pa, kind, nodes);
    code := if frame == NULL then -1 else 0;
  }
}
