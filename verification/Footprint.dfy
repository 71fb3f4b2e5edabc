/** What a region of pages costs and holds: the tables it needs, the frames mapped in it, and the frames a caller
    supplies for it. */
module Footprint {
  import opened Options
  import opened Sets
  import opened Kalloc
  import opened PageTree
  import opened Vmem

  /** The k-th page-sized step from an address. */
  function At(base: int, k: int): int {
    base + k * PAGE_SIZE
  }

  // ---- tables --------------------------------------------------------------------------

  /** The tables below the root on the walk for `v`. */
  function PathTables(v: int): set<Path> {
    {PathOf(v, 1)} + {PathOf(v, 2)} + {PathOf(v, 3)}
  }

  /** The tables below the root that pages m..n of the region use. */
  function RegionTables(va: int, m: nat, n: nat): set<Path>
    decreases n - m
  {
    if m >= n then {} else PathTables(At(va, m)) + RegionTables(va, m + 1, n)
  }

  /** Frames needed to map pages m..n of a region: one for each distinct table that is missing, and one for a page that
      is not mapped yet where the physical address is 0. */
  function Demand(nodes: Nodes, va: int, pa: int, m: nat, n: nat): nat {
    |RegionTables(va, m, n) - nodes.Keys| +
    if m < n && At(pa, m) == 0 && PathOf(At(va, m), 4) !in nodes then 1 else 0
  }

  lemma JoinSize(s: set<Path>, t: set<Path>)
    requires s !! t
    ensures |s + t| == |s| + |t|
  {
  }

  lemma OneMore(s: set<Path>, a: Path, keys: set<Path>)
    requires a !in s
    ensures |s + {a} - keys| == |s - keys| + if a in keys then 0 else 1
  {
    if a in keys {
      assert s + {a} - keys == s - keys;
    } else {
      assert s + {a} - keys == (s - keys) + {a};
    }
  }

  lemma ThreePaths(a: Path, b: Path, c: Path, keys: set<Path>)
    requires a != b && a != c && b != c
    ensures |{a} + {b} + {c} - keys| ==
      (if a in keys then 0 else 1) + (if b in keys then 0 else 1) + (if c in keys then 0 else 1)
  {
    assert {a} - keys == if a in keys then {} else {a};
    OneMore({a}, b, keys);
    OneMore({a} + {b}, c, keys);
  }

  /** The walk's own count of missing tables. */
  lemma MissingIsCount(nodes: Nodes, v: int)
    ensures Missing(nodes, v, 0) == |PathTables(v) - nodes.Keys|
  {
    var a, b, c := PathOf(v, 1), PathOf(v, 2), PathOf(v, 3);
    assert Level(a) == 1 && Level(b) == 2 && Level(c) == 3;
    assert Missing(nodes, v, 2) == if c in nodes then 0 else 1;
    assert Missing(nodes, v, 1) == (if b in nodes then 0 else 1) + Missing(nodes, v, 2);
    hide PathOf, Level;
    ThreePaths(a, b, c, nodes.Keys);
  }

  lemma SplitSize(own: set<Path>, rest: set<Path>, keys: set<Path>, keys': set<Path>, leaf: Path)
    requires keys' == keys + own + {leaf} && leaf !in rest
    ensures |own + rest - keys| == |own - keys| + |rest - keys'|
  {
    assert own + rest - keys == (own - keys) + (rest - keys');
    JoinSize(own - keys, rest - keys');
  }

  lemma {:induction false} TablesOnly(va: int, m: nat, n: nat)
    ensures forall p :: p in RegionTables(va, m, n) ==> Level(p) <= 3
    decreases n - m
  {
    if m < n {
      TablesOnly(va, m + 1, n);
    }
  }

  lemma LeafIsNoTable(va: int, m: nat, n: nat)
    ensures PathOf(At(va, m), 4) !in RegionTables(va, m + 1, n)
  {
    TablesOnly(va, m + 1, n);
    assert Level(PathOf(At(va, m), 4)) == 4;
  }

  /** Mapping one page uses up its share of the demand. */
  lemma DemandNext(nodes: Nodes, nodes': Nodes, va: int, pa: int, m: nat, n: nat)
    requires m < n && pa >= 0 && PathOf(At(va, m), 4) !in nodes
    requires nodes'.Keys == nodes.Keys + PathTables(At(va, m)) + {PathOf(At(va, m), 4)}
    ensures Demand(nodes, va, pa, m, n) == Need(nodes, At(va, m), At(pa, m), 0) + Demand(nodes', va, pa, m + 1, n)
  {
    hide PathOf, Level, PathTables, Missing;
    LeafIsNoTable(va, m, n);
    MissingIsCount(nodes, At(va, m));
    SplitSize(PathTables(At(va, m)), RegionTables(va, m + 1, n), nodes.Keys, nodes'.Keys, PathOf(At(va, m), 4));
  }

  /** A page that cannot be mapped asks for more than is left. */
  lemma DemandAtLeast(nodes: Nodes, va: int, pa: int, m: nat, n: nat)
    requires m < n && PathOf(At(va, m), 4) !in nodes
    ensures Need(nodes, At(va, m), At(pa, m), 0) <= Demand(nodes, va, pa, m, n)
  {
    MissingIsCount(nodes, At(va, m));
    SubsetSize(PathTables(At(va, m)) - nodes.Keys, RegionTables(va, m, n) - nodes.Keys);
  }

  /** A page that is mapped already asks for nothing. */
  lemma DemandMapped(nodes: Nodes, va: int, pa: int, m: nat, n: nat)
    requires m < n && pa >= 0 && Closed(nodes) && PathOf(At(va, m), 4) in nodes
    ensures Demand(nodes, va, pa, m, n) == Demand(nodes, va, pa, m + 1, n)
  {
    MappedTables(nodes, At(va, m));
    hide PathOf, PathTables;
    assert RegionTables(va, m, n) - nodes.Keys == RegionTables(va, m + 1, n) - nodes.Keys;
  }

  lemma MappedTables(nodes: Nodes, v: int)
    requires Closed(nodes) && PathOf(v, 4) in nodes
    ensures PathTables(v) <= nodes.Keys
  {
    hide PathOf;
    forall i: nat | 1 <= i <= 3 ensures PathOf(v, i) in nodes {
      if PathOf(v, i) !in nodes {
        PrefixMissing(nodes, v, i, 4);
      }
    }
  }

  // ---- frames --------------------------------------------------------------------------

  /** The frames to which the first n pages of the region translate. */
  function Leaves(mem: Memory, root: int, va: int, n: nat): set<int> {
    set k | 0 <= k < n && Translate(mem, root, At(va, k)).Some? :: Translate(mem, root, At(va, k)).value
  }

  /** The caller's addresses that are entered into the first n pages: those of pages not mapped before. */
  function Given(mem: Memory, root: int, va: int, pa: int, n: nat): set<int> {
    set k | 0 <= k < n && At(pa, k) != 0 && Translate(mem, root, At(va, k)).None? :: At(pa, k) % PHYS_LIMIT
  }

  lemma LeavesNext(mem: Memory, root: int, va: int, n: nat)
    ensures Leaves(mem, root, va, 0) == {}
    ensures var t := Translate(mem, root, At(va, n));
      Leaves(mem, root, va, n + 1) == Leaves(mem, root, va, n) + if t.Some? then {t.value} else {}
  {
    hide Translate, At;
  }

  lemma GivenNext(mem: Memory, root: int, va: int, pa: int, n: nat)
    ensures Given(mem, root, va, pa, 0) == {}
    ensures Given(mem, root, va, pa, n + 1) == Given(mem, root, va, pa, n) +
      if At(pa, n) != 0 && Translate(mem, root, At(va, n)).None? then {At(pa, n) % PHYS_LIMIT} else {}
  {
    hide Translate, At;
  }

  /** Entering a page adds exactly its path. */
  lemma PathEntered(s: Snapshot, t: Snapshot, va: int)
    requires Growth(s, t, va) && Closed(t.nodes) && Top in s.nodes && PathOf(va, 4) in t.nodes
    ensures t.nodes.Keys == s.nodes.Keys + PathTables(va) + {PathOf(va, 4)}
  {
    hide PathOf, Held, Tables;
    forall i: nat | 1 <= i <= 4 ensures PathOf(va, i) in t.nodes {
      if PathOf(va, i) !in t.nodes {
        PrefixMissing(t.nodes, va, i, 4);
      }
    }
    forall q | q in t.nodes && q !in s.nodes ensures q in PathTables(va) + {PathOf(va, 4)} {
      OnPath(va, q);
    }
  }

  lemma OnPath(va: int, q: Path)
    requires q == PathOf(va, Level(q)) && Level(q) <= 4 && q != Top
    ensures q in PathTables(va) + {PathOf(va, 4)}
  {
    var n := Level(q);
    hide PathOf;
    assert n == 1 || n == 2 || n == 3 || n == 4;
  }

  /** The frames of tree and list together stay the same, but for a caller's page that is entered. */
  lemma EnteredFrames(s: Snapshot, t: Snapshot, va: int, pa: int, entered: bool)
    requires Growth(s, t, va) && NewFrames(s.nodes, t.nodes, s.free, pa) && Closed(t.nodes)
    requires if entered then PathOf(va, 4) in t.nodes && t.nodes[PathOf(va, 4)] == pa % PHYS_LIMIT
             else pa == 0 || PathOf(va, 4) !in t.nodes || PathOf(va, 4) in s.nodes
    ensures t.nodes.Values + Listed(t.free) ==
      s.nodes.Values + Listed(s.free) + if entered then {pa % PHYS_LIMIT} else {}
  {
    hide Growth, NewFrames, Closed, PathOf, Listed;
    NewValues(s, t, va, pa, entered);
    KeptValues(s, t, va);
    FreeKept(s, t, va);
    ValueOf(t.nodes, PathOf(va, 4));
    Together(t.nodes.Values, Listed(t.free), s.nodes.Values, Listed(s.free), if entered then {pa % PHYS_LIMIT} else {});
  }

  lemma ValueOf(nodes: Nodes, p: Path)
    ensures p in nodes ==> nodes[p] in nodes.Values
  {
  }

  lemma Together(values: set<int>, list: set<int>, values0: set<int>, list0: set<int>, added: set<int>)
    requires forall f :: f in values ==> f in values0 || f in list0 || f in added
    requires forall f :: f in list ==> f in list0
    requires values0 <= values && added <= values && forall f :: f in list0 ==> f in values || f in list
    ensures values + list == values0 + list0 + added
  {
    forall f ensures f in values + list <==> f in values0 + list0 + added {
    }
  }

  lemma InListed(free: seq<int>)
    ensures forall f :: f in free <==> f in Listed(free)
  {
  }

  lemma NewValues(s: Snapshot, t: Snapshot, va: int, pa: int, entered: bool)
    requires Growth(s, t, va) && NewFrames(s.nodes, t.nodes, s.free, pa) && Closed(t.nodes)
    requires !entered ==> pa == 0 || PathOf(va, 4) !in t.nodes || PathOf(va, 4) in s.nodes
    ensures forall f :: f in t.nodes.Values ==>
      f in s.nodes.Values || f in Listed(s.free) || (entered && f == pa % PHYS_LIMIT)
  {
    hide Held, Tables, PathOf, Listed;
    InListed(s.free);
    forall f | f in t.nodes.Values
      ensures f in s.nodes.Values || f in Listed(s.free) || (entered && f == pa % PHYS_LIMIT)
    {
      var q :| q in t.nodes && t.nodes[q] == f;
      if q in s.nodes {
        assert s.nodes[q] == f;
      } else {
        assert q == PathOf(va, Level(q)) && Level(q) <= 4;
      }
    }
  }

  lemma KeptValues(s: Snapshot, t: Snapshot, va: int)
    requires Growth(s, t, va)
    ensures s.nodes.Values <= t.nodes.Values
  {
    forall f | f in s.nodes.Values ensures f in t.nodes.Values {
      var q :| q in s.nodes && s.nodes[q] == f;
      assert t.nodes[q] == f;
    }
  }

  lemma FreeKept(s: Snapshot, t: Snapshot, va: int)
    requires Growth(s, t, va)
    ensures forall f :: f in Listed(s.free) ==> f in t.nodes.Values || f in Listed(t.free)
    ensures forall f :: f in Listed(t.free) ==> f in Listed(s.free)
  {
    hide Tables, PathOf, Level;
    forall f | f in s.free ensures f in t.nodes.Values || f in t.free {
      assert f in Held(s) && f in Held(t);
    }
  }
}
