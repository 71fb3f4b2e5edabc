/** Four-level page tables in physical memory (kernel/vmem.c), and the plain map they stand for. */
module PageTree {
  import opened Options
  import opened Kalloc

  // ---- entries -------------------------------------------------------------------------

  /** GET_PAGE_SET: bit 10 of an entry. */
  predicate Present(w: int) {
    w / 1024 % 2 == 1
  }

  /** GET_PHYSICAL_ADDR: bits 47..12 of an entry. */
  function Phys(w: int): int {
    w / 4096 % PHYS_LIMIT
  }

  /** LVL_ADDR: the nine address bits that select the entry at `level`. */
  function Index(va: int, level: nat): (i: int)
    ensures 0 <= i < WORDS
  {
    var shifted :=
      if level == 0 then va / 0x80_0000_0000
      else if level == 1 then va / 0x4000_0000
      else if level == 2 then va / 0x20_0000
      else va / 0x1000;
    shifted % WORDS
  }

  /** The page number an address belongs to: bits 47..12. */
  function PageNumber(va: int): int {
    va / 0x1000 % PHYS_LIMIT
  }

  /** PGDPUD_ENTRY and PMD_ENTRY applied to 0. */
  function TableEntry(pa: int): (w: int)
    requires pa >= 0
    ensures Present(w) && Phys(w) == pa % PHYS_LIMIT
  {
    Fields(0, pa % PHYS_LIMIT, 1);
    pa % PHYS_LIMIT * 4096 + 1024 + 1
  }

  /** Attribute bits above the address field and below bit 10 do not disturb an entry. */
  lemma Fields(k: int, pa: int, low: int)
    requires 0 <= pa < PHYS_LIMIT && 0 <= low < 1024
    ensures var w := k * 0x1_0000_0000_0000 + pa * 4096 + 1024 + low; Present(w) && Phys(w) == pa
  {
    LowField(k * PHYS_LIMIT + pa, low);
    HighField(k, pa);
  }

  lemma LowField(n: int, low: int)
    requires 0 <= low < 1024
    ensures (n * 4096 + 1024 + low) / 4096 == n && (n * 4096 + 1024 + low) / 1024 % 2 == 1
  {
    assert (n * 4096 + 1024 + low) / 1024 == 2 * (2 * n) + 1;
  }

  lemma HighField(k: int, pa: int)
    requires 0 <= pa < PHYS_LIMIT
    ensures (k * PHYS_LIMIT + pa) % PHYS_LIMIT == pa
  {
  }

  /** KERNEL_ENTRY (0), DEVICE_ENTRY (1) and USER_ENTRY (2) applied to 0. */
  function LeafEntry(pa: int, kind: int): (w: int)
    requires pa >= 0
    ensures Present(w) && Phys(w) == pa % PHYS_LIMIT
  {
    var high := if kind == 2 then 0x60 else 0x20;
    var low := if kind == 0 then 4 else if kind == 1 then 0 else 64 + 4;
    Fields(high, pa % PHYS_LIMIT, low);
    high * 0x1_0000_0000_0000 + pa % PHYS_LIMIT * 4096 + 1024 + low
  }

  // ---- paths ---------------------------------------------------------------------------

  /** A position in the tree: the entry indices followed from the root. */
  datatype Path = Top | Sub(parent: Path, index: int)

  function Level(p: Path): nat {
    if p.Top? then 0 else Level(p.parent) + 1
  }

  /** The first `n` steps of the walk for `va`. */
  function PathOf(va: int, n: nat): (p: Path)
    ensures Level(p) == n
  {
    if n == 0 then Top else Sub(PathOf(va, n - 1), Index(va, n - 1))
  }

  /** The frames of a tree by position: tables at levels 0..3, leaves at level 4. */
  type Nodes = map<Path, int>

  // ---- well-formed trees ---------------------------------------------------------------

  ghost predicate Closed(nodes: Nodes) {
    forall p :: p in nodes ==>
      Level(p) <= 4 && (p.Sub? ==> p.parent in nodes && 0 <= p.index < WORDS)
  }

  /** The table at `p` has a present entry exactly where `p` has a child, pointing at it. */
  ghost predicate TableOK(mem: Memory, nodes: Nodes, p: Path)
    requires p in nodes
  {
    && nodes[p] in mem
    && |mem[nodes[p]]| == WORDS
    && forall i :: 0 <= i < WORDS ==>
         && (Sub(p, i) in nodes <==> Present(mem[nodes[p]][i]))
         && (Sub(p, i) in nodes ==> nodes[Sub(p, i)] == Phys(mem[nodes[p]][i]))
  }

  /** A table is unaffected by changes to other frames and to nodes that are not its children. */
  lemma SameTable(mem: Memory, mem': Memory, nodes: Nodes, nodes': Nodes, q: Path)
    requires q in nodes && q in nodes' && nodes'[q] == nodes[q] && TableOK(mem, nodes, q)
    requires nodes[q] in mem' && mem'[nodes[q]] == mem[nodes[q]]
    requires forall i :: 0 <= i < WORDS ==>
      && (Sub(q, i) in nodes' <==> Sub(q, i) in nodes)
      && (Sub(q, i) in nodes ==> nodes'[Sub(q, i)] == nodes[Sub(q, i)])
    ensures TableOK(mem', nodes', q)
  {
  }

  ghost predicate Tree(mem: Memory, nodes: Nodes) {
    && Top in nodes
    && Closed(nodes)
    && forall p {:trigger TableOK(mem, nodes, p)} :: p in nodes && Level(p) < 4 ==> TableOK(mem, nodes, p)
  }

  /** Two positions do not share a pool frame. */
  ghost predicate Apart(nodes: Nodes, pool: set<int>, p: Path, q: Path)
    requires p in nodes && q in nodes
  {
    nodes[p] == nodes[q] && nodes[p] in pool ==> p == q
  }

  /** Tables belong to the allocator's pool and no pool frame occurs twice. */
  ghost predicate Owned(nodes: Nodes, pool: set<int>) {
    && (forall p :: p in nodes && Level(p) < 4 ==> nodes[p] in pool)
    && (forall p, q {:trigger Apart(nodes, pool, p, q)} :: p in nodes && q in nodes ==> Apart(nodes, pool, p, q))
  }

  /** A tree whose frames are the pool's but not on the free list. */
  ghost predicate SpaceIn(mem: Memory, free: seq<int>, pool: set<int>, nodes: Nodes) {
    Tree(mem, nodes) && Owned(nodes, pool) && forall p :: p in nodes ==> nodes[p] !in free
  }

  ghost predicate Space(a: Allocator, nodes: Nodes)
    reads a
  {
    SpaceIn(a.mem, a.free, a.pool, nodes)
  }

  function Tables(nodes: Nodes): set<int> {
    set p | p in nodes && Level(p) < 4 :: nodes[p]
  }

  // ---- branches of a tree ----------------------------------------------------------------

  /** `q` is `p` or lies below it. */
  predicate Under(q: Path, p: Path) {
    q == p || (q.Sub? && Under(q.parent, p))
  }

  /** `q` lies below one of the first `i` entries of `p`. */
  predicate Early(q: Path, p: Path, i: int) {
    q.Sub? && ((q.parent == p && q.index < i) || Early(q.parent, p, i))
  }

  lemma {:induction false} EarlyIsBelow(q: Path, p: Path, i: int)
    ensures Early(q, p, i) ==> Level(q) > Level(p) && Under(q, p)
  {
    if q.Sub? {
      EarlyIsBelow(q.parent, p, i);
    }
  }

  lemma {:induction false} UnderLevel(q: Path, p: Path)
    requires Under(q, p)
    ensures Level(q) >= Level(p)
  {
    if q != p {
      UnderLevel(q.parent, p);
    }
  }

  lemma {:induction false} EarlyNext(q: Path, p: Path, i: int)
    ensures Early(q, p, i + 1) <==> Early(q, p, i) || Under(q, Sub(p, i))
    ensures Under(q, Sub(p, i)) ==> !Early(q, p, i) && Under(q, p)
  {
    EarlyIsBelow(p, p, i);
    if q.Sub? {
      EarlyNext(q.parent, p, i);
      if Under(q.parent, Sub(p, i)) {
        UnderLevel(q.parent, Sub(p, i));
      }
    }
  }

  lemma {:induction false} EarlyAll(nodes: Nodes, q: Path, p: Path)
    requires Closed(nodes) && q in nodes
    ensures Under(q, p) <==> q == p || Early(q, p, WORDS)
    ensures !Early(q, p, 0)
  {
    if q.Sub? {
      EarlyAll(nodes, q.parent, p);
    }
  }

  lemma {:induction false} AbsentUnder(nodes: Nodes, p: Path, q: Path)
    requires Closed(nodes) && p !in nodes && q in nodes
    ensures !Under(q, p)
  {
    if q.Sub? {
      AbsentUnder(nodes, p, q.parent);
    }
  }

  lemma {:induction false} UnderTop(q: Path)
    ensures Under(q, Top)
  {
    if q.Sub? {
      UnderTop(q.parent);
    }
  }

  // ---- the software walk ---------------------------------------------------------------

  /** What a reader of memory finds for `va`, starting at `table` on `level`. */
  function Walk(mem: Memory, table: int, va: int, level: nat): Option<int>
    requires level <= 4
    decreases 4 - level
  {
    if level == 4 then Some(table)
    else if table in mem && |mem[table]| == WORDS && Present(mem[table][Index(va, level)]) then
      Walk(mem, Phys(mem[table][Index(va, level)]), va, level + 1)
    else None
  }

  function Translate(mem: Memory, root: int, va: int): Option<int> {
    Walk(mem, root, va, 0)
  }

  function LeafAt(nodes: Nodes, va: int): Option<int> {
    var p := PathOf(va, 4);
    if p in nodes then Some(nodes[p]) else None
  }

  lemma {:induction false} PrefixMissing(nodes: Nodes, va: int, m: nat, n: nat)
    requires Closed(nodes) && m <= n && PathOf(va, m) !in nodes
    ensures PathOf(va, n) !in nodes
    decreases n
  {
    if m < n {
      PrefixMissing(nodes, va, m, n - 1);
      assert PathOf(va, n).parent == PathOf(va, n - 1);
    }
  }

  lemma {:induction false} WalkIsLeaf(mem: Memory, nodes: Nodes, va: int, level: nat)
    requires Tree(mem, nodes) && level <= 4 && PathOf(va, level) in nodes
    ensures Walk(mem, nodes[PathOf(va, level)], va, level) == LeafAt(nodes, va)
    decreases 4 - level
  {
    if level < 4 {
      var p := PathOf(va, level);
      assert TableOK(mem, nodes, p);
      assert PathOf(va, level + 1) == Sub(p, Index(va, level));
      if PathOf(va, level + 1) in nodes {
        WalkIsLeaf(mem, nodes, va, level + 1);
      } else {
        PrefixMissing(nodes, va, level + 1, 4);
      }
    }
  }

  /** A tree in memory is the map of its leaves. */
  lemma TreeRefinesMap(mem: Memory, nodes: Nodes)
    requires Tree(mem, nodes)
    ensures forall va :: Translate(mem, nodes[Top], va) == LeafAt(nodes, va)
  {
    forall va ensures Translate(mem, nodes[Top], va) == LeafAt(nodes, va) {
      WalkIsLeaf(mem, nodes, va, 0);
    }
  }

  lemma PathUnfolded(va: int)
    ensures PathOf(va, 4) == Sub(Sub(Sub(Sub(Top, Index(va, 0)), Index(va, 1)), Index(va, 2)), Index(va, 3))
  {
    assert PathOf(va, 1) == Sub(Top, Index(va, 0));
    assert PathOf(va, 2) == Sub(PathOf(va, 1), Index(va, 1));
    assert PathOf(va, 3) == Sub(PathOf(va, 2), Index(va, 2));
  }

  /** Two addresses take the same walk exactly when bits 47..12 agree. */
  lemma SamePath(va: int, vb: int)
    requires va >= 0 && vb >= 0
    ensures PathOf(va, 4) == PathOf(vb, 4) <==> PageNumber(va) == PageNumber(vb)
  {
    PathUnfolded(va);
    PathUnfolded(vb);
    PageDigits(va);
    PageDigits(vb);
  }

  lemma PageDigits(va: int)
    requires va >= 0
    ensures PageNumber(va) ==
      Index(va, 0) * 0x800_0000 + Index(va, 1) * 0x4_0000 + Index(va, 2) * 0x200 + Index(va, 3)
  {
    NestedShift(va);
    Digits(va / 0x1000);
  }

  lemma NestedShift(x: int)
    requires x >= 0
    ensures x / 0x20_0000 == x / 0x1000 / 512
    ensures x / 0x4000_0000 == x / 0x20_0000 / 512
    ensures x / 0x80_0000_0000 == x / 0x4000_0000 / 512
  {
  }

  lemma Digits(n: int)
    requires n >= 0
    ensures n % PHYS_LIMIT ==
      n / 512 / 512 / 512 % 512 * 0x800_0000 + n / 512 / 512 % 512 * 0x4_0000 + n / 512 % 512 * 512 + n % 512
  {
  }
}
