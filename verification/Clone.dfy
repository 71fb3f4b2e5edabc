/** clone_pagetable of kernel/vmem.c as intended: the copy goes to the table given, each new frame
    receives the whole page, and the four nested loops are folded into one loop per table. */
module Clone {
  import opened Options
  import opened Kalloc
  import opened PageTree
  import opened Vmem

  /** Two positions of the copy do not share a frame. */
  ghost predicate Unequal(copy: Nodes, q: Path, r: Path)
    requires q in copy && r in copy
  {
    copy[q] == copy[r] ==> q == r
  }

  /** The source pages still read as they did in `src`. */
  ghost predicate SourceKept(src: Memory, mem: Memory, nodes: Nodes) {
    && (forall q :: q in nodes ==> nodes[q] in mem && nodes[q] in src && mem[nodes[q]] == src[nodes[q]])
    && (forall q {:trigger TableOK(src, nodes, q)} :: q in nodes && Level(q) < 4 ==> TableOK(src, nodes, q))
    && Closed(nodes)
  }

  /** At `q` the copy holds a table for its own children, or the bytes of the source page. */
  ghost predicate CopyAt(src: Memory, mem: Memory, nodes: Nodes, copy: Nodes, q: Path) {
    q in copy && q in nodes && nodes[q] in src && copy[q] in mem &&
    if Level(q) < 4 then TableOK(mem, copy, q) else mem[copy[q]] == src[nodes[q]]
  }

  /** New frames come from the list and are different. */
  ghost predicate Taken(copy: Nodes, p: Path, free: seq<int>, free': seq<int>) {
    && (forall q :: q in copy && q != p ==> copy[q] in free && copy[q] !in free')
    && (forall q, r {:trigger Unequal(copy, q, r)} :: q in copy && r in copy ==> Unequal(copy, q, r))
  }

  /** `copy` is a complete copy of everything at and below `p`. */
  ghost predicate Cloned(src: Memory, mem: Memory, nodes: Nodes, copy: Nodes, p: Path, free: seq<int>,
                         free': seq<int>) {
    && (forall q :: q in copy <==> q in nodes && Under(q, p))
    && (forall q {:trigger CopyAt(src, mem, nodes, copy, q)} :: q in copy ==> CopyAt(src, mem, nodes, copy, q))
    && Taken(copy, p, free, free')
  }

  /** `copy` covers the first `i` branches below `p`; later entries of the new table are still raw. */
  ghost predicate Partial(src: Memory, mem: Memory, nodes: Nodes, copy: Nodes, p: Path, i: int, free: seq<int>,
                          free': seq<int>) {
    && 0 <= i && p in copy && p in nodes && nodes[p] in src
    && (forall q :: q in copy <==> q in nodes && (q == p || Early(q, p, i)))
    && (forall q {:trigger CopyAt(src, mem, nodes, copy, q)} :: q in copy && q != p ==>
          CopyAt(src, mem, nodes, copy, q))
    && copy[p] in mem && |mem[copy[p]]| == WORDS && |src[nodes[p]]| == WORDS
    && (forall k :: i <= k < WORDS ==> mem[copy[p]][k] == src[nodes[p]][k])
    && (forall k :: 0 <= k < i && k < WORDS ==>
          && (Sub(p, k) in copy <==> Present(mem[copy[p]][k]))
          && (Sub(p, k) in copy ==> copy[Sub(p, k)] == Phys(mem[copy[p]][k])))
    && Taken(copy, p, free, free')
  }

  /** Every frame that left the list is in the copy, once. */
  ghost predicate Accounted(copy: Nodes, to: int, free: seq<int>, free': seq<int>) {
    |free'| + |copy| == |free| + 1 && Listed(free') + copy.Values == Listed(free) + {to}
  }

  /** A copy of part of what lies at and below `p`, but not of all of it. */
  ghost predicate Cut(nodes: Nodes, copy: Nodes, p: Path) {
    && (forall q :: q in copy ==> q in nodes && Under(q, p))
    && exists q :: q in nodes && Under(q, p) && q !in copy
  }

  lemma AccountedJoin(copy: Nodes, c: Nodes, to: int, f: int, free0: seq<int>, free1: seq<int>, free2: seq<int>,
                      free3: seq<int>)
    requires Accounted(copy, to, free0, free1) && free1 == [f] + free2 && Accounted(c, f, free2, free3)
    requires forall q :: q in copy ==> q !in c
    ensures Accounted(copy + c, to, free0, free3)
  {
    hide Listed;
    JoinCount(copy, c);
    JoinValues(copy, c);
    ListedCons(f, free2);
    SetsJoin(Listed(free3), copy.Values, c.Values, Listed(free2), f, Listed(free0), to);
  }

  lemma AccountedStart(p: Path, to: int, free: seq<int>)
    ensures Accounted(map[p := to], to, free, free)
  {
    var copy := map[p := to];
    assert copy[p] == to && copy.Values == {to};
  }

  lemma ListedCons(f: int, free: seq<int>)
    ensures Listed([f] + free) == Listed(free) + {f}
  {
  }

  lemma SetsJoin(l3: set<int>, v: set<int>, w: set<int>, l2: set<int>, f: int, l0: set<int>, to: int)
    requires l3 + w == l2 + {f} && l2 + {f} + v == l0 + {to}
    ensures l3 + (v + w) == l0 + {to}
  {
    assert l3 + (v + w) == (l3 + w) + v;
  }

  lemma JoinCount(copy: Nodes, c: Nodes)
    requires forall q :: q in copy ==> q !in c
    ensures |copy + c| == |copy| + |c|
  {
    assert (copy + c).Keys == copy.Keys + c.Keys && copy.Keys !! c.Keys;
    KeyCount(copy);
    KeyCount(c);
    KeyCount(copy + c);
  }

  lemma KeyCount(m: Nodes)
    ensures |m| == |m.Keys|
  {
  }

  lemma JoinValues(copy: Nodes, c: Nodes)
    requires forall q :: q in copy ==> q !in c
    ensures (copy + c).Values == copy.Values + c.Values
  {
    var all := copy + c;
    forall f | f in copy.Values ensures f in all.Values {
      var q :| q in copy && copy[q] == f;
      assert all[q] == f;
    }
    forall f | f in c.Values ensures f in all.Values {
      var q :| q in c && c[q] == f;
      assert all[q] == f;
    }
  }

  /** What is copied before branch i has nothing in common with it. */
  lemma PartialApart(src: Memory, mem: Memory, nodes: Nodes, copy: Nodes, c: Nodes, p: Path, i: int, free: seq<int>,
                     free': seq<int>)
    requires Partial(src, mem, nodes, copy, p, i, free, free') && forall q :: q in c ==> Under(q, Sub(p, i))
    ensures forall q :: q in copy ==> q !in c
  {
    forall q | q in c ensures q !in copy {
      BranchApart(p, i, q);
    }
  }

  lemma CutHere(src: Memory, mem: Memory, nodes: Nodes, copy: Nodes, p: Path, i: int, free: seq<int>, free': seq<int>)
    requires Partial(src, mem, nodes, copy, p, i, free, free') && Sub(p, i) in nodes
    ensures Cut(nodes, copy, p)
  {
    BranchApart(p, i, Sub(p, i));
    EarlyNext(Sub(p, i), p, i);
    forall q | q in copy ensures Under(q, p) {
      EarlyIsBelow(q, p, i);
    }
  }

  lemma CutBelow(src: Memory, mem: Memory, nodes: Nodes, copy: Nodes, c: Nodes, p: Path, i: int, free: seq<int>,
                 free': seq<int>)
    requires Partial(src, mem, nodes, copy, p, i, free, free') && Cut(nodes, c, Sub(p, i))
    ensures Cut(nodes, copy + c, p)
  {
    forall q | q in copy + c ensures q in nodes && Under(q, p) {
      EarlyIsBelow(q, p, i);
      EarlyNext(q, p, i);
    }
    var q :| q in nodes && Under(q, Sub(p, i)) && q !in c;
    BranchApart(p, i, q);
    EarlyNext(q, p, i);
    assert q !in copy + c;
  }

  /** Writing to frames outside the copy leaves it a copy. */
  lemma CopyFrame(src: Memory, mem: Memory, mem': Memory, nodes: Nodes, copy: Nodes, copy': Nodes, q: Path)
    requires CopyAt(src, mem, nodes, copy, q) && q in copy' && copy'[q] == copy[q]
    requires copy[q] in mem' && mem'[copy[q]] == mem[copy[q]]
    requires forall i :: 0 <= i < WORDS ==>
      && (Sub(q, i) in copy' <==> Sub(q, i) in copy)
      && (Sub(q, i) in copy ==> copy'[Sub(q, i)] == copy[Sub(q, i)])
    ensures CopyAt(src, mem', nodes, copy', q)
  {
    if Level(q) < 4 {
      SameTable(mem, mem', copy, copy', q);
    }
  }

  lemma TakenJoin(copy: Nodes, c: Nodes, p: Path, b: Path, free0: seq<int>, free1: seq<int>, free2: seq<int>,
                  free3: seq<int>)
    requires Taken(copy, p, free0, free1) && Taken(c, b, free2, free3)
    requires p in copy && copy[p] !in free0 && b in c
    requires free1 == [c[b]] + free2 && Distinct(free1)
    requires forall f :: f in free1 ==> f in free0
    requires forall f :: f in free3 ==> f in free2
    requires forall q :: q in copy ==> q !in c
    ensures Taken(copy + c, p, free0, free3)
  {
    var all := copy + c;
    forall q | q in c ensures c[q] in free1 {
      assert q != b ==> c[q] in free2;
    }
    forall q | q in copy ensures copy[q] !in free1 {
    }
    forall q, r | q in all && r in all ensures Unequal(all, q, r) {
      if q in c && r in c {
        assert Unequal(c, q, r);
      } else if q in copy && r in copy && q !in c && r !in c {
        assert Unequal(copy, q, r);
      }
    }
    forall q | q in all && q != p ensures all[q] in free0 && all[q] !in free3 {
      if q == b {
        assert free1[0] == c[b];
        assert c[b] !in free2 by {
          assert forall k :: 0 <= k < |free2| ==> free2[k] == free1[k + 1];
        }
      }
    }
  }

  /** A finished branch is separate from the branches before it. */
  lemma BranchApart(p: Path, i: int, q: Path)
    ensures Under(q, Sub(p, i)) ==> q != p && !Early(q, p, i)
    ensures Under(q, Sub(p, i)) ==> forall k :: !Early(Sub(q, k), p, i)
    ensures !Under(q, Sub(p, i)) && q != p ==> forall k :: !Under(Sub(q, k), Sub(p, i))
  {
    EarlyNext(q, p, i);
    if Under(q, Sub(p, i)) {
      UnderLevel(q, Sub(p, i));
    }
  }

  lemma PartialNext(src: Memory, mem: Memory, mem': Memory, nodes: Nodes, copy: Nodes, c: Nodes, p: Path, i: int,
                    w: int,
                    free0: seq<int>, free1: seq<int>, free2: seq<int>, free3: seq<int>)
    requires Partial(src, mem, nodes, copy, p, i, free0, free1) && i < WORDS && copy[p] !in free0
    requires Cloned(src, mem', nodes, c, Sub(p, i), free2, free3)
    requires Sub(p, i) in c && free1 == [c[Sub(p, i)]] + free2 && Distinct(free1)
    requires (forall f :: f in free1 ==> f in free0) && (forall f :: f in free3 ==> f in free2)
    requires Present(w) && Phys(w) == c[Sub(p, i)]
    requires mem'.Keys == mem.Keys && mem'[copy[p]] == mem[copy[p]][i := w]
    requires forall g :: g in mem && g !in free1 && g != copy[p] ==> mem'[g] == mem[g]
    ensures Partial(src, mem', nodes, copy + c, p, i + 1, free0, free3)
    ensures p in copy + c && (copy + c)[p] == copy[p]
  {
    var all := copy + c;
    forall q ensures Early(q, p, i + 1) <==> Early(q, p, i) || Under(q, Sub(p, i)) {
      EarlyNext(q, p, i);
    }
    forall q | q in copy ensures q !in c {
      BranchApart(p, i, q);
    }
    TakenJoin(copy, c, p, Sub(p, i), free0, free1, free2, free3);
    forall q | q in all && q != p ensures CopyAt(src, mem', nodes, all, q) {
      BranchApart(p, i, q);
      if q in c {
        assert CopyAt(src, mem', nodes, c, q);
        CopyFrame(src, mem', mem', nodes, c, all, q);
      } else {
        assert CopyAt(src, mem, nodes, copy, q) && Unequal(copy, q, p);
        CopyFrame(src, mem, mem', nodes, copy, all, q);
      }
    }
    forall k | 0 <= k < i ensures Sub(p, k) !in c {
      BranchApart(p, i, Sub(p, k));
    }
  }

  lemma PartialSkip(src: Memory, mem: Memory, nodes: Nodes, copy: Nodes, p: Path, i: int, free0: seq<int>,
                    free1: seq<int>)
    requires Partial(src, mem, nodes, copy, p, i, free0, free1) && i < WORDS
    requires Closed(nodes) && Sub(p, i) !in nodes && !Present(src[nodes[p]][i])
    ensures Partial(src, mem, nodes, copy, p, i + 1, free0, free1)
  {
    forall q | q in nodes ensures Early(q, p, i + 1) <==> Early(q, p, i) {
      EarlyNext(q, p, i);
      AbsentUnder(nodes, Sub(p, i), q);
    }
  }

  lemma PartialDone(src: Memory, mem: Memory, nodes: Nodes, copy: Nodes, p: Path, free0: seq<int>, free1: seq<int>)
    requires Partial(src, mem, nodes, copy, p, WORDS, free0, free1) && Closed(nodes) && Level(p) < 4
    ensures Cloned(src, mem, nodes, copy, p, free0, free1)
  {
    forall q | q in nodes ensures Under(q, p) <==> q == p || Early(q, p, WORDS) {
      EarlyAll(nodes, q, p);
    }
    assert TableOK(mem, copy, p);
  }

  /** Only frames from the list and the target change, and the list only shrinks. */
  ghost predicate Confined(mem: Memory, free: seq<int>, mem': Memory, free': seq<int>, to: int) {
    && mem'.Keys == mem.Keys
    && (forall f :: f in free' ==> f in free)
    && (forall g :: g in mem && g !in free && g != to ==> mem'[g] == mem[g])
  }

  /** Source frames are neither free nor the target. */
  ghost predicate SourceSafe(nodes: Nodes, free: seq<int>, to: int) {
    forall q :: q in nodes ==> nodes[q] !in free && nodes[q] != to
  }

  lemma SourceStays(src: Memory, mem: Memory, free: seq<int>, mem': Memory, free': seq<int>, nodes: Nodes, to: int)
    requires SourceKept(src, mem, nodes) && SourceSafe(nodes, free, to) && Confined(mem, free, mem', free', to)
    ensures SourceKept(src, mem', nodes)
  {
  }

  lemma PartialStart(src: Memory, mem: Memory, nodes: Nodes, p: Path, to: int, free: seq<int>)
    requires SourceKept(src, mem, nodes) && p in nodes && to in mem && mem[to] == src[nodes[p]]
    ensures Level(p) < 4 ==> Partial(src, mem, nodes, map[p := to], p, 0, free, free)
    ensures Level(p) == 4 ==> Cloned(src, mem, nodes, map[p := to], p, free, free)
  {
    var copy := map[p := to];
    forall q | q in nodes ensures !Early(q, p, 0) && (Under(q, p) <==> q == p || Early(q, p, WORDS)) {
      EarlyAll(nodes, q, p);
      if Early(q, p, WORDS) {
        EarlyIsBelow(q, p, WORDS);
      }
    }
    assert Unequal(copy, p, p);
    if Level(p) < 4 {
      assert TableOK(src, nodes, p);
    } else {
      assert CopyAt(src, mem, nodes, copy, p);
      forall q | q in nodes && Early(q, p, WORDS) ensures false {
        EarlyIsBelow(q, p, WORDS);
      }
    }
  }

  /** Copy the page at `p`, then everything below it, into `to` and freshly allocated frames. */
  method CloneBelow(a: Allocator, from: int, to: int, level: nat, ghost p: Path, ghost nodes: Nodes, ghost src: Memory)
    returns (ok: bool, ghost copy: Nodes)
    requires a.Valid() && level <= 4 && p in nodes && Level(p) == level && nodes[p] == from
    requires to in a.mem && to !in a.free
    requires SourceKept(src, a.mem, nodes) && SourceSafe(nodes, a.free, to)
    modifies a
    ensures a.Valid() && a.pool == old(a.pool)
    ensures Confined(old(a.mem), old(a.free), a.mem, a.free, to)
    ensures ok ==> Cloned(src, a.mem, nodes, copy, p, old(a.free), a.free) && p in copy && copy[p] == to
    ensures Accounted(copy, to, old(a.free), a.free)
    ensures !ok ==> a.free == [] && Cut(nodes, copy, p)
    decreases 4 - level, 1
  {
    hide Partial, Cloned, SourceSafe, IsList, Cut, Accounted;
    assert from in a.mem;
    a.CopyPage(from, to);
    copy := map[p := to];
    AccountedStart(p, to, a.free);
    SourceStays(src, old(a.mem), old(a.free), a.mem, a.free, nodes, to);
    PartialStart(src, a.mem, nodes, p, to, a.free);
    if level == 4 {
      return true, copy;
    }
    ghost var mid := a.mem;
    hide SourceKept;
    ok, copy := CloneEntries(a, from, to, level, p, nodes, src, copy);
  }

  /** The loop over the entries of one table. */
  method CloneEntries(a: Allocator, from: int, to: int, level: nat, ghost p: Path, ghost nodes: Nodes,
                      ghost src: Memory, ghost start: Nodes)
    returns (ok: bool, ghost copy: Nodes)
    requires a.Valid() && level < 4 && p in nodes && Level(p) == level && nodes[p] == from
    requires to in a.mem && to !in a.free && p in start && start[p] == to
    requires SourceKept(src, a.mem, nodes) && SourceSafe(nodes, a.free, to)
    requires Partial(src, a.mem, nodes, start, p, 0, a.free, a.free) && Accounted(start, to, a.free, a.free)
    modifies a
    ensures a.Valid() && a.pool == old(a.pool)
    ensures Confined(old(a.mem), old(a.free), a.mem, a.free, to)
    ensures ok ==> Cloned(src, a.mem, nodes, copy, p, old(a.free), a.free) && p in copy && copy[p] == to
    ensures Accounted(copy, to, old(a.free), a.free)
    ensures !ok ==> a.free == [] && Cut(nodes, copy, p)
    decreases 4 - level, 0
  {
    copy := start;
    hide Partial, Cloned, SourceKept, SourceSafe, IsList, Present, Phys, Accounted, Cut;
    var i := 0;
    while i < WORDS
      invariant 0 <= i <= WORDS
      invariant a.Valid() && a.pool == old(a.pool)
      invariant Confined(old(a.mem), old(a.free), a.mem, a.free, to)
      invariant SourceKept(src, a.mem, nodes) && SourceSafe(nodes, a.free, to)
      invariant Partial(src, a.mem, nodes, copy, p, i, old(a.free), a.free) && p in copy && copy[p] == to
      invariant Accounted(copy, to, old(a.free), a.free)
    {
      SourceEntry(src, a.mem, nodes, p, i);
      if Present(a.mem[from][i]) {
        ok, copy := CloneEntry(a, Phys(a.mem[from][i]), to, level, i, p, nodes, src, copy, old(a.mem), old(a.free));
        if !ok {
          return;
        }
      } else {
        PartialSkip(src, a.mem, nodes, copy, p, i, old(a.free), a.free);
      }
      i := i + 1;
    }
    SourceEntry(src, a.mem, nodes, p, 0);
    PartialDone(src, a.mem, nodes, copy, p, old(a.free), a.free);
    ok := true;
  }

  /** One present entry: a new frame, an entry for it, and the branch below. */
  method CloneEntry(a: Allocator, child: int, to: int, level: nat, i: nat, ghost p: Path, ghost nodes: Nodes,
                    ghost src: Memory,
                    ghost copy: Nodes, ghost mem0: Memory, ghost free0: seq<int>)
    returns (ok: bool, ghost copy': Nodes)
    requires a.Valid() && level < 4 && Level(p) == level && Level(Sub(p, i)) == level + 1
    requires i < WORDS && Sub(p, i) in nodes && nodes[Sub(p, i)] == child
    requires to in a.mem && to !in free0 && p in copy && copy[p] == to
    requires SourceKept(src, a.mem, nodes) && SourceSafe(nodes, a.free, to)
    requires Confined(mem0, free0, a.mem, a.free, to)
    requires Partial(src, a.mem, nodes, copy, p, i, free0, a.free) && Accounted(copy, to, free0, a.free)
    modifies a
    ensures a.Valid() && a.pool == old(a.pool)
    ensures Confined(mem0, free0, a.mem, a.free, to)
    ensures SourceKept(src, a.mem, nodes) && SourceSafe(nodes, a.free, to)
    ensures ok ==> Partial(src, a.mem, nodes, copy', p, i + 1, free0, a.free) && p in copy' && copy'[p] == to
    ensures Accounted(copy', to, free0, a.free)
    ensures !ok ==> a.free == [] && Cut(nodes, copy', p)
    decreases 4 - level, 0, 0
  {
    hide Partial, Cloned, SourceKept, SourceSafe, Confined, Present, Phys, Accounted, Cut;
    ghost var mem1 := a.mem;
    CutHere(src, a.mem, nodes, copy, p, i, free0, a.free);
    ConfinedFacts(mem0, free0, a.mem, a.free, to);
    var f := a.Kalloc();
    if f == NULL {
      return false, copy;
    }
    var w := EntryFor(0, 0, f, true);
    a.Store(to, i, w);
    ghost var free1 := old(a.free);
    assert free1 == [f] + a.free;
    SourceStep(src, old(a.mem), free1, a.mem, a.free, nodes, to, f);
    ghost var mid, free2, c := a.mem, a.free, map[];
    ok, c := CloneBelow(a, child, f, level + 1, Sub(p, i), nodes, src);
    ConfinedJoin(mem0, free0, old(a.mem), free1, mid, free2, a.mem, a.free, to, f);
    SourceStays(src, old(a.mem), free1, a.mem, a.free, nodes, to);
    SafeStays(nodes, free1, a.free, to, old(a.mem), a.mem);
    copy' := copy + c;
    BranchKeys(src, a.mem, nodes, c, Sub(p, i), free2, a.free, ok);
    PartialApart(src, mem1, nodes, copy, c, p, i, free0, free1);
    AccountedJoin(copy, c, to, f, free0, free1, free2, a.free);
    if !ok {
      CutBelow(src, mem1, nodes, copy, c, p, i, free0, free1);
    }
    if ok {
      ConfinedFacts(mid, free2, a.mem, a.free, f);
      PartialNext(src, old(a.mem), a.mem, nodes, copy, c, p, i, w, free0, free1, free2, a.free);
    }
  }

  lemma BranchKeys(src: Memory, mem: Memory, nodes: Nodes, c: Nodes, b: Path, free: seq<int>, free': seq<int>, ok: bool)
    requires if ok then Cloned(src, mem, nodes, c, b, free, free') else Cut(nodes, c, b)
    ensures forall q :: q in c ==> Under(q, b)
  {
  }

  lemma ConfinedFacts(mem: Memory, free: seq<int>, mem': Memory, free': seq<int>, to: int)
    requires Confined(mem, free, mem', free', to)
    ensures mem'.Keys == mem.Keys && (forall f :: f in free' ==> f in free)
    ensures forall g :: g in mem && g !in free && g != to ==> mem'[g] == mem[g]
  {
  }

  lemma SafeStays(nodes: Nodes, free: seq<int>, free': seq<int>, to: int, mem: Memory, mem': Memory)
    requires SourceSafe(nodes, free, to) && Confined(mem, free, mem', free', to)
    ensures SourceSafe(nodes, free', to)
  {
  }

  lemma SourceStep(src: Memory, mem: Memory, free: seq<int>, mem': Memory, free': seq<int>, nodes: Nodes, to: int,
                   f: int)
    requires SourceKept(src, mem, nodes) && SourceSafe(nodes, free, to) && free == [f] + free'
    requires mem'.Keys == mem.Keys && forall g :: g in mem && g != f && g != to ==> mem'[g] == mem[g]
    ensures SourceKept(src, mem', nodes) && SourceSafe(nodes, free', f)
  {
    assert f in free;
  }

  lemma ConfinedJoin(mem0: Memory, free0: seq<int>, mem1: Memory, free1: seq<int>, mem2: Memory, free2: seq<int>,
                     mem3: Memory, free3: seq<int>, to: int, f: int)
    requires Confined(mem0, free0, mem1, free1, to) && free1 == [f] + free2
    requires mem2.Keys == mem1.Keys && forall g :: g in mem1 && g != f && g != to ==> mem2[g] == mem1[g]
    requires Confined(mem2, free2, mem3, free3, f)
    ensures Confined(mem1, free1, mem3, free3, to)
    ensures Confined(mem0, free0, mem3, free3, to)
  {
    assert f in free1;
  }

  lemma SourceEntry(src: Memory, mem: Memory, nodes: Nodes, p: Path, i: int)
    requires SourceKept(src, mem, nodes) && p in nodes && Level(p) < 4 && 0 <= i < WORDS
    ensures Closed(nodes) && nodes[p] in mem && nodes[p] in src && mem[nodes[p]] == src[nodes[p]]
    ensures |mem[nodes[p]]| == WORDS
    ensures Sub(p, i) in nodes <==> Present(mem[nodes[p]][i])
    ensures Sub(p, i) in nodes ==> nodes[Sub(p, i)] == Phys(mem[nodes[p]][i])
    ensures Level(Sub(p, i)) == Level(p) + 1
  {
    assert TableOK(src, nodes, p);
  }

  lemma CloneIsTree(src: Memory, mem: Memory, nodes: Nodes, copy: Nodes, free: seq<int>, free': seq<int>,
                    pool: set<int>)
    requires Cloned(src, mem, nodes, copy, Top, free, free') && Tree(src, nodes) && Top in copy
    requires copy[Top] in pool && forall f :: f in free ==> f in pool
    ensures Tree(mem, copy) && Owned(copy, pool) && copy.Keys == nodes.Keys
  {
    forall q ensures Under(q, Top) {
      UnderTop(q);
    }
    forall q | q in copy && Level(q) < 4 ensures TableOK(mem, copy, q) {
      assert CopyAt(src, mem, nodes, copy, q);
    }
    forall q, r | q in copy && r in copy ensures Apart(copy, pool, q, r) {
      assert Unequal(copy, q, r);
    }
  }

  lemma CloneIsSeparate(src: Memory, mem: Memory, nodes: Nodes, copy: Nodes, free: seq<int>, free': seq<int>)
    requires Cloned(src, mem, nodes, copy, Top, free, free') && Top in copy
    requires SourceSafe(nodes, free, copy[Top])
    ensures copy.Values !! nodes.Values
    ensures forall q :: q in copy && q != Top ==> copy[q] in free && copy[q] !in free'
    ensures forall q :: q in copy && Level(q) == 4 ==>
      q in nodes && nodes[q] in src && copy[q] in mem && mem[copy[q]] == src[nodes[q]]
  {
    forall q | q in copy && Level(q) == 4
      ensures q in nodes && nodes[q] in src && copy[q] in mem && mem[copy[q]] == src[nodes[q]]
    {
      assert CopyAt(src, mem, nodes, copy, q);
    }
  }

  /** `v` translates in both trees or in neither, and then to pages with equal contents. */
  ghost predicate SamePages(mem: Memory, from: int, mem': Memory, to: int, v: int) {
    match (Translate(mem, from, v), Translate(mem', to, v))
    case (Some(f), Some(g)) => f != g && f in mem && g in mem' && mem'[g] == mem[f]
    case (None, None) => true
    case _ => false
  }

  lemma ClonedTranslates(mem: Memory, mem': Memory, nodes: Nodes, copy: Nodes)
    requires Tree(mem, nodes) && Tree(mem', copy) && copy.Keys == nodes.Keys && copy.Values !! nodes.Values
    requires forall p :: p in nodes ==> nodes[p] in mem
    requires forall p :: p in copy && Level(p) == 4 ==>
      p in nodes && nodes[p] in mem && copy[p] in mem' && mem'[copy[p]] == mem[nodes[p]]
    ensures forall v :: SamePages(mem, nodes[Top], mem', copy[Top], v)
  {
    TreeRefinesMap(mem, nodes);
    TreeRefinesMap(mem', copy);
    hide Tree, Translate;
    forall v ensures SamePages(mem, nodes[Top], mem', copy[Top], v) {
      var p := PathOf(v, 4);
      assert p in copy.Keys <==> p in nodes.Keys;
      if p in nodes {
        assert nodes[p] in nodes.Values && copy[p] in copy.Values;
      }
    }
  }

  /** clone_pagetable. On success the copy is a tree of its own with the same pages and the same bytes. */
  method ClonePagetable(a: Allocator, from: int, to: int, ghost nodes: Nodes) returns (code: int, ghost copy: Nodes)
    requires a.Valid() && Space(a, nodes) && nodes[Top] == from
    requires forall p :: p in nodes ==> nodes[p] in a.mem
    requires to in a.pool && to !in a.free && to !in nodes.Values
    modifies a
    ensures a.Valid() && a.pool == old(a.pool) && code in {0, -1}
    // it succeeds exactly if there is a frame for every node but the root
    ensures code == 0 <==> |nodes| - 1 <= |old(a.free)|
    // the frames that left the list are those of the copy
    ensures code == 0 ==> Listed(a.free) + copy.Values == Listed(old(a.free)) + {to}
    ensures code == 0 ==> |a.free| == |old(a.free)| - (|nodes| - 1)
    ensures code == -1 ==> a.free == []
    // nothing but the target and frames from the list is written
    ensures Confined(old(a.mem), old(a.free), a.mem, a.free, to)
    // the source keeps its tree and every byte of its pages
    ensures Space(a, nodes) && forall p :: p in nodes ==> nodes[p] in a.mem && a.mem[nodes[p]] == old(a.mem)[nodes[p]]
    // the copy has the same shape, its own frames, and equal page contents
    ensures code == 0 ==> Space(a, copy) && copy[Top] == to && copy.Keys == nodes.Keys
    ensures code == 0 ==> copy.Values !! nodes.Values
    // the same addresses translate, to pages with the same words
    ensures code == 0 ==> forall v :: SamePages(old(a.mem), from, a.mem, to, v)
    ensures code == 0 ==> forall p :: p in copy && Level(p) == 4 ==>
      copy[p] in a.mem && a.mem[copy[p]] == old(a.mem)[nodes[p]]
  {
    assert SourceKept(a.mem, a.mem, nodes) && SourceSafe(nodes, a.free, to);
    ghost var src, free := a.mem, a.free;
    var ok;
    hide Cloned, SourceKept, SourceSafe, IsList, Owned, TableOK, Accounted, Cut, SamePages;
    ok, copy := CloneBelow(a, from, to, 0, Top, nodes, a.mem);
    SourceStays(src, src, free, a.mem, a.free, nodes, to);
    SourceTree(src, a.mem, nodes);
    SafeStays(nodes, free, a.free, to, src, a.mem);
    SafeFacts(nodes, a.free, to);
    if ok {
      CloneIsTree(src, a.mem, nodes, copy, free, a.free, a.pool);
      CloneIsSeparate(src, a.mem, nodes, copy, free, a.free);
      ClonedTranslates(src, a.mem, nodes, copy);
    }
    CloneCount(nodes, copy, to, free, a.free, ok);
    code := if ok then 0 else -1;
  }

  lemma CloneCount(nodes: Nodes, copy: Nodes, to: int, free: seq<int>, free': seq<int>, ok: bool)
    requires Accounted(copy, to, free, free')
    requires if ok then copy.Keys == nodes.Keys else free' == [] && Cut(nodes, copy, Top)
    ensures ok <==> |nodes| - 1 <= |free|
    ensures ok ==> |free'| == |free| - (|nodes| - 1)
    ensures Listed(free') + copy.Values == Listed(free) + {to}
  {
    if ok {
      assert |copy.Keys| == |nodes.Keys|;
    } else {
      var q :| q in nodes && Under(q, Top) && q !in copy;
      FewerKeys(copy, nodes, q);
    }
  }

  lemma FewerKeys(copy: Nodes, nodes: Nodes, q: Path)
    requires (forall p :: p in copy ==> p in nodes) && q in nodes && q !in copy
    ensures |copy| < |nodes|
  {
    var rest := nodes.Keys - copy.Keys;
    assert nodes.Keys == copy.Keys + rest && q in rest;
    assert |nodes.Keys| == |copy.Keys| + |rest|;
  }

  lemma SourceTree(src: Memory, mem: Memory, nodes: Nodes)
    requires SourceKept(src, mem, nodes) && Top in nodes
    ensures Tree(mem, nodes)
    ensures forall q :: q in nodes ==> nodes[q] in mem && nodes[q] in src && mem[nodes[q]] == src[nodes[q]]
  {
    forall q | q in nodes && Level(q) < 4 ensures TableOK(mem, nodes, q) {
      assert TableOK(src, nodes, q);
      SameTable(src, mem, nodes, nodes, q);
    }
  }

  lemma SafeFacts(nodes: Nodes, free: seq<int>, to: int)
    requires SourceSafe(nodes, free, to)
    ensures forall q :: q in nodes ==> nodes[q] !in free
  {
  }
}
