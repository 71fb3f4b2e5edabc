/** free_pagetable of kernel/vmem.c, its four nested loops folded into one loop per table,
    with frames handed to kfree through a pointer variable. */
module Teardown {
  import opened Kalloc
  import opened PageTree
  import opened Vmem

  /** Frame `f` sits below one of the first `i` entries of `p`. */
  ghost predicate EarlyFrame(nodes: Nodes, p: Path, i: int, f: int) {
    exists q :: q in nodes && Early(q, p, i) && nodes[q] == f
  }

  /** Frame `f` sits at `p` or below. */
  ghost predicate FrameUnder(nodes: Nodes, p: Path, f: int) {
    exists q :: q in nodes && Under(q, p) && nodes[q] == f
  }

  lemma FramesNext(nodes: Nodes, p: Path, i: int)
    ensures forall f :: EarlyFrame(nodes, p, i + 1, f) <==>
      EarlyFrame(nodes, p, i, f) || FrameUnder(nodes, Sub(p, i), f)
  {
    forall q ensures Early(q, p, i + 1) <==> Early(q, p, i) || Under(q, Sub(p, i)) {
      EarlyNext(q, p, i);
    }
  }

  lemma FramesAll(nodes: Nodes, p: Path)
    requires Closed(nodes) && p in nodes
    ensures forall f :: FrameUnder(nodes, p, f) <==> EarlyFrame(nodes, p, WORDS, f) || f == nodes[p]
    ensures forall f :: !EarlyFrame(nodes, p, 0, f)
    ensures Level(p) == 4 ==> forall f :: !EarlyFrame(nodes, p, WORDS, f)
  {
    forall q | q in nodes && Early(q, p, WORDS) ensures Level(p) < 4 {
      EarlyIsBelow(q, p, WORDS);
    }
    forall q | q in nodes ensures (Under(q, p) <==> q == p || Early(q, p, WORDS)) && !Early(q, p, 0) {
      EarlyAll(nodes, q, p);
    }
  }

  lemma NothingUnder(nodes: Nodes, p: Path)
    requires Closed(nodes) && p !in nodes
    ensures forall f :: !FrameUnder(nodes, p, f)
  {
    forall q | q in nodes ensures !Under(q, p) {
      AbsentUnder(nodes, p, q);
    }
  }

  /** The part of a tree below `p` is intact in memory and wholly the allocator's. */
  ghost predicate Intact(mem: Memory, nodes: Nodes, p: Path, pool: set<int>, free: seq<int>) {
    && Closed(nodes) && Owned(nodes, pool)
    && (forall q {:trigger nodes[q]} :: q in nodes && Under(q, p) ==> nodes[q] in pool && nodes[q] !in free)
    && (forall q {:trigger TableOK(mem, nodes, q)} :: q in nodes && Under(q, p) && Level(q) < 4 ==>
          TableOK(mem, nodes, q))
  }

  /** While the first i branches are being freed, branch i stays intact and so does the table itself. */
  lemma StillIntact(mem: Memory, mem': Memory, nodes: Nodes, p: Path, pool: set<int>, free: seq<int>, free': seq<int>,
                    i: int)
    requires Intact(mem, nodes, p, pool, free) && p in nodes && Level(p) < 4
    requires Freed(mem, free, mem', free', EarlyFrames(nodes, p, i))
    ensures TableOK(mem', nodes, p) && nodes[p] in mem' && nodes[p] !in free'
    ensures Intact(mem', nodes, Sub(p, i), pool, free')
  {
    assert Under(p, p);
    EarlyIsBelow(p, p, i);
    KeptTable(mem, mem', nodes, p, pool, free, free', i, p);
    forall q | q in nodes && Under(q, Sub(p, i))
      ensures nodes[q] in pool && nodes[q] !in free' && (Level(q) < 4 ==> TableOK(mem', nodes, q))
    {
      EarlyNext(q, p, i);
      KeptTable(mem, mem', nodes, p, pool, free, free', i, q);
    }
  }

  lemma KeptTable(mem: Memory, mem': Memory, nodes: Nodes, p: Path, pool: set<int>, free: seq<int>, free': seq<int>,
                  i: int, q: Path)
    requires Intact(mem, nodes, p, pool, free) && q in nodes && Under(q, p) && !Early(q, p, i)
    requires mem'.Keys == mem.Keys
    requires forall g :: g in mem && !EarlyFrame(nodes, p, i, g) ==> mem'[g] == mem[g]
    requires forall f :: f in free' ==> f in free || EarlyFrame(nodes, p, i, f)
    ensures nodes[q] in pool && nodes[q] !in free' && (Level(q) < 4 ==> TableOK(mem', nodes, q))
  {
    assert nodes[q] in pool && nodes[q] !in free;
    NotFreed(nodes, p, i, pool, q);
    assert !EarlyFrame(nodes, p, i, nodes[q]);
    hide EarlyFrame, Owned, Early, Under;
    if Level(q) < 4 {
      assert TableOK(mem, nodes, q);
      SameTable(mem, mem', nodes, nodes, q);
    }
  }

  lemma NotFreed(nodes: Nodes, p: Path, i: int, pool: set<int>, q: Path)
    requires Owned(nodes, pool) && q in nodes && nodes[q] in pool && !Early(q, p, i)
    ensures !EarlyFrame(nodes, p, i, nodes[q])
  {
    forall r | r in nodes && Early(r, p, i) ensures nodes[r] != nodes[q] {
      assert Apart(nodes, pool, q, r);
    }
  }

  lemma EntryAt(mem: Memory, nodes: Nodes, p: Path, i: int)
    requires p in nodes && TableOK(mem, nodes, p) && 0 <= i < WORDS
    ensures nodes[p] in mem && |mem[nodes[p]]| == WORDS
    ensures Sub(p, i) in nodes <==> Present(mem[nodes[p]][i])
    ensures Sub(p, i) in nodes ==> nodes[Sub(p, i)] == Phys(mem[nodes[p]][i])
  {
  }

  /** Exactly the frames that satisfy `gone` were cleared and put on the list. */
  ghost predicate Freed(mem: Memory, free: seq<int>, mem': Memory, free': seq<int>, gone: iset<int>) {
    && mem'.Keys == mem.Keys
    && (forall f :: f in free' <==> f in free || f in gone)
    && (forall g :: g in mem && g !in gone ==> mem'[g] == mem[g])
  }

  ghost function EarlyFrames(nodes: Nodes, p: Path, i: int): iset<int> {
    iset f | EarlyFrame(nodes, p, i, f)
  }

  ghost function FramesUnder(nodes: Nodes, p: Path): iset<int> {
    iset f | FrameUnder(nodes, p, f)
  }

  lemma FreedNext(mem: Memory, free: seq<int>, mid: Memory, free1: seq<int>, mem': Memory, free': seq<int>,
                  nodes: Nodes, p: Path, i: int)
    requires Freed(mem, free, mid, free1, EarlyFrames(nodes, p, i))
    requires Freed(mid, free1, mem', free', FramesUnder(nodes, Sub(p, i)))
    ensures Freed(mem, free, mem', free', EarlyFrames(nodes, p, i + 1))
  {
    FramesNext(nodes, p, i);
  }

  lemma FreedNone(mem: Memory, free: seq<int>, mid: Memory, free1: seq<int>, nodes: Nodes, p: Path, i: int)
    requires Closed(nodes) && Sub(p, i) !in nodes && Freed(mem, free, mid, free1, EarlyFrames(nodes, p, i))
    ensures Freed(mem, free, mid, free1, EarlyFrames(nodes, p, i + 1))
  {
    FramesNext(nodes, p, i);
    NothingUnder(nodes, Sub(p, i));
  }

  lemma FreedStart(mem: Memory, free: seq<int>, nodes: Nodes, p: Path)
    requires Closed(nodes) && p in nodes
    ensures Freed(mem, free, mem, free, EarlyFrames(nodes, p, 0))
    ensures Level(p) == 4 ==> Freed(mem, free, mem, free, EarlyFrames(nodes, p, WORDS))
  {
    FramesAll(nodes, p);
  }

  lemma FreedAll(mem: Memory, free: seq<int>, mid: Memory, free1: seq<int>, mem': Memory, nodes: Nodes, p: Path)
    requires Closed(nodes) && p in nodes && Freed(mem, free, mid, free1, EarlyFrames(nodes, p, WORDS))
    requires mem'.Keys == mid.Keys && forall g :: g in mid && g != nodes[p] ==> mem'[g] == mid[g]
    ensures Freed(mem, free, mem', [nodes[p]] + free1, FramesUnder(nodes, p))
  {
    FramesAll(nodes, p);
  }

  /** Free the frame at `p` and everything below it. */
  method FreeBelow(a: Allocator, frame: int, level: nat, ghost p: Path, ghost nodes: Nodes)
    requires a.Valid() && level <= 4 && p in nodes && Level(p) == level && nodes[p] == frame
    requires Intact(a.mem, nodes, p, a.pool, a.free)
    modifies a
    ensures a.Valid() && a.pool == old(a.pool)
    ensures Freed(old(a.mem), old(a.free), a.mem, a.free, FramesUnder(nodes, p))
    decreases 4 - level, 2, 0
  {
    IntactAt(a, nodes, p);
    FreedStart(a.mem, a.free, nodes, p);
    hide Freed, FramesUnder, EarlyFrames, Intact, Closed, ZeroPage, IsFrame;
    if level < 4 {
      FreeEntries(a, frame, level, p, nodes);
    }
    ghost var mid, free1 := a.mem, a.free;
    a.Kfree(frame);
    FreedAll(old(a.mem), old(a.free), mid, free1, a.mem, nodes, p);
  }

  /** The loop over the entries of one table. */
  method FreeEntries(a: Allocator, frame: int, level: nat, ghost p: Path, ghost nodes: Nodes)
    requires a.Valid() && level < 4 && p in nodes && Level(p) == level && nodes[p] == frame
    requires Intact(a.mem, nodes, p, a.pool, a.free)
    modifies a
    ensures a.Valid() && a.pool == old(a.pool) && frame !in a.free
    ensures Freed(old(a.mem), old(a.free), a.mem, a.free, EarlyFrames(nodes, p, WORDS))
    decreases 4 - level, 1, 0
  {
    hide Freed, FramesUnder, EarlyFrames, Intact, TableOK, Closed, Level, a.Valid;
    IntactAt(a, nodes, p);
    FreedStart(a.mem, a.free, nodes, p);
    var i := 0;
    while i < WORDS
      invariant 0 <= i <= WORDS
      invariant a.Valid() && a.pool == old(a.pool)
      invariant Freed(old(a.mem), old(a.free), a.mem, a.free, EarlyFrames(nodes, p, i))
    {
      FreeEntry(a, frame, level, i, p, nodes, old(a.mem), old(a.free));
      i := i + 1;
    }
    StillIntact(old(a.mem), a.mem, nodes, p, a.pool, old(a.free), a.free, WORDS);
  }

  /** One round of that loop: the entry is followed only if it is present. */
  method FreeEntry(a: Allocator, frame: int, level: nat, i: nat, ghost p: Path, ghost nodes: Nodes, ghost mem0: Memory,
                   ghost free0: seq<int>)
    requires a.Valid() && level < 4 && i < WORDS && p in nodes && Level(p) == level && nodes[p] == frame
    requires Closed(nodes)
    requires Intact(mem0, nodes, p, a.pool, free0) && Freed(mem0, free0, a.mem, a.free, EarlyFrames(nodes, p, i))
    modifies a
    ensures a.Valid() && a.pool == old(a.pool)
    ensures Freed(mem0, free0, a.mem, a.free, EarlyFrames(nodes, p, i + 1))
    decreases 4 - level, 0, 0
  {
    ChildLevels(p);
    hide Freed, FramesUnder, EarlyFrames, Intact, IsList, TableOK, Closed, Present, Phys, a.Valid;
    StillIntact(mem0, a.mem, nodes, p, a.pool, free0, a.free, i);
    EntryAt(a.mem, nodes, p, i);
    var w := a.Load(frame, i);
    ghost var mid, free1 := a.mem, a.free;
    if Present(w) {
      FreeBelow(a, Phys(w), level + 1, Sub(p, i), nodes);
      FreedNext(mem0, free0, mid, free1, a.mem, a.free, nodes, p, i);
    } else {
      FreedNone(mem0, free0, mid, free1, nodes, p, i);
    }
  }

  lemma IntactAt(a: Allocator, nodes: Nodes, p: Path)
    requires a.Valid() && p in nodes && Intact(a.mem, nodes, p, a.pool, a.free)
    ensures Closed(nodes)
    ensures nodes[p] in a.pool && nodes[p] !in a.free && nodes[p] in a.mem && IsFrame(nodes[p])
  {
    assert Under(p, p);
    PoolFrame(a, nodes[p]);
  }

  lemma ChildLevels(p: Path)
    ensures forall i :: Level(Sub(p, i)) == Level(p) + 1
  {
  }

  /** free_pagetable: the whole tree goes back to the free list, each frame once, and nothing else is written. */
  method FreePagetable(a: Allocator, root: int, ghost nodes: Nodes)
    requires a.Valid() && Space(a, nodes) && nodes[Top] == root
    requires forall p :: p in nodes ==> nodes[p] in a.pool
    modifies a
    ensures a.Valid() && a.pool == old(a.pool) && a.mem.Keys == old(a.mem).Keys
    ensures Listed(a.free) == Listed(old(a.free)) + nodes.Values
    ensures Listed(old(a.free)) !! nodes.Values && Distinct(a.free)
    ensures forall g :: g in a.mem && g !in nodes.Values ==> a.mem[g] == old(a.mem)[g]
  {
    hide a.Valid, Tree, Owned, Intact, Freed, FramesUnder, TableOK;
    WholeIntact(a, nodes);
    FreeBelow(a, root, 0, Top, nodes);
    WholeFreed(old(a.mem), old(a.free), a.mem, a.free, nodes);
    NoFrameTwice(a);
  }

  lemma WholeIntact(a: Allocator, nodes: Nodes)
    requires Space(a, nodes) && forall p :: p in nodes ==> nodes[p] in a.pool
    ensures Intact(a.mem, nodes, Top, a.pool, a.free)
    ensures Top in nodes && Level(Top) == 0
  {
    hide Owned, TableOK;
  }

  lemma WholeFreed(mem: Memory, free: seq<int>, mem': Memory, free': seq<int>, nodes: Nodes)
    requires Freed(mem, free, mem', free', FramesUnder(nodes, Top))
    ensures mem'.Keys == mem.Keys && (forall f :: f in free' <==> f in free || f in nodes.Values)
    ensures forall g :: g in mem && g !in nodes.Values ==> mem'[g] == mem[g]
  {
    forall q: Path ensures Under(q, Top) {
      UnderTop(q);
    }
    assert forall f :: f in FramesUnder(nodes, Top) <==> f in nodes.Values;
  }

  lemma NoFrameTwice(a: Allocator)
    requires a.Valid()
    ensures Distinct(a.free)
  {
  }
}
