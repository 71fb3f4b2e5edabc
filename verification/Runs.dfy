/** Whole runs of the kernel operations that move frames, in any order, on one allocator and one process
    table. Whatever is requested, every frame of the pool has exactly one owner afterwards. */
module Runs {
  import opened Options
  import opened Kalloc
  import opened PageTree
  import opened Vmem
  import opened Footprint
  import opened Teardown
  import opened Process
  import Scheduling
  import opened Kernel
  import opened Lifecycle
  import opened Ownership
  import opened System

  datatype Request =
    | Take | Return(frame: int)
    | Create | MapFresh(root: int, va: nat, kind: int) | MapGiven(root: int, va: nat, pa: nat, kind: int)
    | Unmap(root: int, va: nat) | Destroy(root: int) | Copy(root: int)
    | ForkCurrent(stray: seq<int>)
    | ForkBegin | ForkStack(slot: int) | ForkTrap(slot: int) | ForkEnd(slot: int, stray: seq<int>)
    | KillPid(pid: int) | Schedule | Sleep(lk: int) | Wakeup(lk: int)

  /** How far a fork has come: the slot is reserved, then it has one frame, then both. */
  datatype Pending =
    | Reserved(caller: int)
    | HasStack(caller: int, stack: int)
    | HasBoth(caller: int, stack: int, trap: int)

  function FramesOf(p: Pending): set<int> {
    match p
    case Reserved(_) => {}
    case HasStack(_, stack) => {stack}
    case HasBoth(_, stack, trap) => {stack, trap}
  }

  /** What the callers of the kernel know: page tables in use, those holding the allocator's pages only, frames
      taken, forks that have been interrupted, and a range of addresses in which all of the allocator's frames lie. */
  datatype Ledger = Ledger(roots: set<int>, pure: set<int>, taken: set<int>, forks: map<int, Pending>, lo: int, hi: int)

  predicate InRange(l: Ledger, f: int) {
    l.lo <= f < l.hi
  }

  /** The current process is live, and so is every process with a pid. */
  ghost predicate Tidy(t: Table, cur: int) {
    && 0 <= cur < |t| && t[cur].state != FREE
    && forall i :: 0 <= i < |t| && t[i].pid != 0 ==> t[i].state != FREE
  }

  /** A page table holds frames of the pool and, apart from them, only addresses outside the range. */
  ghost predicate Ranged(nodes: Nodes, pool: set<int>, l: Ledger) {
    forall f :: f in nodes.Values ==> f in pool || !InRange(l, f)
  }

  /** The ledger agrees with the books. */
  ghost predicate Agrees(l: Ledger, b: Books) {
    && l.roots == b.spaces.Keys && l.taken == b.loose
    && (forall r :: r in l.pure <==> r in b.spaces && b.spaces[r].Values <= b.pool)
    && (forall f :: f in b.pool ==> InRange(l, f))
    && (forall r :: r in b.spaces ==> Ranged(b.spaces[r], b.pool, l))
  }

  /** The slot of an interrupted fork is not FREE and names the frames the fork has taken. */
  ghost predicate Underway(p: Pending, t: Table, i: int) {
    && 0 <= i < |t| && t[i].state != FREE && t[i].pid == 0 && 0 <= p.caller < |t| && p.caller != i
    && (!p.Reserved? ==> t[i].stackFrame == p.stack)
    && (p.HasBoth? ==> t[i].trapFrame == p.trap && p.stack != p.trap)
  }

  ghost predicate ForksAgree(l: Ledger, b: Books) {
    && l.forks.Keys == b.building.Keys
    && forall i :: i in l.forks ==> b.building[i] == FramesOf(l.forks[i]) && Underway(l.forks[i], b.table, i)
  }

  /** The state between two requests. */
  ghost predicate Running(m: Machine, a: Allocator, l: Ledger, b: Books)
    reads m, m.procs, a
  {
    && Balanced(a, b) && m.Valid() && b.table == m.procs[..]
    && TwoFrames(b) && Tidy(b.table, m.cur) && Agrees(l, b) && ForksAgree(l, b)
  }

  /** A kill keeps the books in order if whoever is hit is a live process, not the current one and not a child under
      construction. */
  ghost predicate KillSafe(b: Books, cur: int, pid: int) {
    forall i :: FirstWithPid(b.table, pid, i) ==> b.table[i].state != FREE && i != cur && i !in b.building
  }

  /** What a request achieves, in terms of the books before and after it. */
  ghost predicate Answered(r: Request, l: Ledger, b: Books, cur: int, b': Books, cur': int) {
    match r
    case Take => b'.loose == b.loose + if b.free == [] then {} else {b.free[0]}
    case Return(f) => f in b.loose ==> b'.loose == b.loose - {f} && f in b'.free
    case Create => b.free != [] ==> b.free[0] in b'.spaces
    case MapFresh(root, va, kind) => root in b.spaces ==> Answer(b, b', root, va, 0, kind)
    case MapGiven(root, va, pa, kind) =>
      root in b.spaces && pa > 0 && !(l.lo <= pa % PHYS_LIMIT < l.hi) ==> Answer(b, b', root, va, pa, kind)
    case Unmap(root, va) => root in b.spaces && LeafInPool(b, root, va) && root in b'.spaces ==>
      PathOf(va, 4) !in b'.spaces[root]
    case Destroy(root) => root in b.spaces && b.spaces[root].Values <= b.pool ==> root !in b'.spaces
    case Copy(root) => root in b.spaces && b.spaces[root].Values <= b.pool ==> Copied(b, b', root)
    case ForkBegin => ForkBegun(b, b')
    case ForkStack(i) => i in l.forks && l.forks[i].Reserved? && (i != cur || b.free != []) ==>
      if b.free == [] then Abandoned(b', i, b.free) else Taking(b, b', i, {})
    case ForkTrap(i) => i in l.forks && l.forks[i].HasStack? && (i != cur || b.free != []) ==>
      if b.free == [] then Abandoned(b', i, [l.forks[i].stack]) else Taking(b, b', i, {l.forks[i].stack})
    case ForkEnd(i, stray) => |stray| == WORDS && i in l.forks && l.forks[i].HasBoth? ==> Born(l.forks[i], b, b', i)
    case ForkCurrent(stray) => |stray| == WORDS ==> Forked(b, cur, b')
    case KillPid(pid) => KillSafe(b, cur, pid) ==> forall i :: FirstWithPid(b.table, pid, i) ==>
      b'.table == Killed(b.table, i)
    case Schedule => |b'.table| == |b.table| && 0 <= cur < |b.table| && IsNext(b'.table, cur, cur')
    case Sleep(lk) => 0 <= cur < |b.table| && b'.table == Slept(b.table, cur, lk)
    case Wakeup(lk) => b'.table == Awake(b.table, lk)
  }

  /** A fork that completes leaves in the child's stack frame what is in the caller's. */
  ghost predicate StackCopied(r: Request, l: Ledger, b: Books, cur: int, mem: Memory, mem': Memory) {
    match r
    case ForkCurrent(stray) =>
      |stray| == WORDS && AnyFree(b.table) && |b.free| >= 2 && 0 <= cur < |b.table|
      && b.table[cur].stackFrame in mem && b.table[cur].stackFrame !in b.free ==>
        b.free[0] in mem' && mem'[b.free[0]] == mem[b.table[cur].stackFrame]
    case ForkEnd(i, stray) =>
      |stray| == WORDS && i in l.forks && l.forks[i].HasBoth? && 0 <= l.forks[i].caller < |b.table|
      && b.table[l.forks[i].caller].stackFrame in mem ==>
        l.forks[i].stack in mem' && mem'[l.forks[i].stack] == mem[b.table[l.forks[i].caller].stackFrame]
    case _ => true
  }

  /** A copy of the tree with as many nodes, if the frames suffice; else the caller is left with all of them. */
  ghost predicate Copied(b: Books, b': Books, root: int)
    requires root in b.spaces
  {
    if |b.spaces[root]| <= |b.free| then
      b.free != [] && b.free[0] in b'.spaces && b'.spaces[b.free[0]].Keys == b.spaces[root].Keys
    else b'.free == [] && b'.loose == b.loose + Listed(b.free)
  }

  ghost predicate ForkBegun(b: Books, b': Books) {
    AnyFree(b.table) ==>
      exists i :: FirstFree(b.table, i) && i in b'.building && b'.table == Process.Reserved(b.table, i)
  }

  ghost predicate Taking(b: Books, b': Books, i: int, had: set<int>) {
    b.free != [] && i in b'.building && b'.building[i] == had + {b.free[0]}
  }

  ghost predicate Abandoned(b': Books, i: int, free: seq<int>) {
    i !in b'.building && b'.free == free && 0 <= i < |b'.table| && b'.table[i].state == FREE
  }

  ghost predicate Born(p: Pending, b: Books, b': Books, i: int) {
    p.HasBoth? && i !in b'.building && 0 <= i < |b.table| && 0 <= p.caller < |b.table| &&
    exists pid :: LeastUnused(b.table, pid) && b'.table == Published(b.table, i, p.caller, p.stack, p.trap, pid)
  }

  ghost predicate Answer(b: Books, b': Books, root: int, va: nat, pa: nat, kind: int) {
    root in b.spaces && root in b'.spaces && PageEntered(b.spaces[root], b.free, b'.spaces[root], b'.free, va, pa, kind)
  }

  ghost predicate LeafInPool(b: Books, root: int, va: nat)
    requires root in b.spaces
  {
    PathOf(va, 4) in b.spaces[root] ==> b.spaces[root][PathOf(va, 4)] in b.pool
  }

  /** A fork succeeds if there is a slot and two frames, and else changes nothing that matters. */
  ghost predicate Forked(b: Books, cur: int, b': Books) {
    if AnyFree(b.table) && |b.free| >= 2 then
      exists i, pid :: FirstFree(b.table, i) && 0 <= cur < |b.table|
        && b'.table == Published(b.table, i, cur, b.free[0], b.free[1], pid)
    else Unforked(b.table, b'.table)
  }

  // ---- process operations that move no frame -------------------------------------------

  /** Slots keep their frames and nobody comes to life or dies. */
  ghost predicate SameFrames(t: Table, t': Table) {
    |t'| == |t| && forall i :: 0 <= i < |t| ==>
      && t'[i].stackFrame == t[i].stackFrame && t'[i].trapFrame == t[i].trapFrame && t'[i].pid == t[i].pid
      && (t'[i].state == FREE <==> t[i].state == FREE)
  }

  lemma SameHoldings(b: Books, t: Table)
    requires SameFrames(b.table, t)
    ensures forall o, f :: Holds(b.(table := t), o, f) <==> Holds(b, o, f)
  {
    forall o ensures Holding(b.(table := t), o) == Holding(b, o) {
    }
  }

  /** Where nobody's holdings change, nothing has moved. */
  lemma NothingMoved(b: Books, b': Books)
    requires Partition(b) && b'.pool == b.pool && forall o, f :: Holds(b', o, f) <==> Holds(b, o, f)
    ensures Partition(b') && Exchange(b, b', Loose) && Moves(b, b')
  {
    hide Holds;
    forall f | f in b'.pool ensures exists o :: Holds(b', o, f) {
      var o :| Holds(b, o, f);
      assert Holds(b', o, f);
    }
    assert Exchange(b, b', Loose);
  }

  /** Where slots and forks are left alone, they stay in order. */
  lemma SlotsStay(l: Ledger, b: Books, l': Ledger, b': Books)
    requires TwoFrames(b) && ForksAgree(l, b)
    requires l'.forks == l.forks && b'.table == b.table && b'.building == b.building
    ensures TwoFrames(b') && ForksAgree(l', b')
  {
  }

  lemma ForksKeepFrames(l: Ledger, b: Books, b': Books)
    requires ForksAgree(l, b) && b'.building == b.building && SameFrames(b.table, b'.table)
    ensures ForksAgree(l, b')
  {
  }

  lemma SettleTable(b: Books, t: Table, mem: Memory)
    requires Partition(b) && Sound(mem, b) && SameFrames(b.table, t) && TwoFrames(b)
    ensures var b' := b.(table := t); Partition(b') && Sound(mem, b') && TwoFrames(b') && Moves(b, b')
  {
    SameHoldings(b, t);
    hide Partition, Exchange, Moves, SpaceIn, Holds;
    NothingMoved(b, b.(table := t));
  }

  lemma ScheduledFrames(s: Scheduling.Sys, n: int)
    requires Scheduling.Shape(s) && Tidy(s.procs, s.cur) && Scheduling.Enabled(s, Scheduling.Schedule(n))
    ensures var t := Scheduling.Apply(s, Scheduling.Schedule(n)).procs;
      SameFrames(s.procs, t) && Tidy(t, n) && IsNext(t, s.cur, n)
  {
  }

  lemma SleptFrames(t: Table, cur: int, lk: int)
    requires Tidy(t, cur)
    ensures SameFrames(t, Slept(t, cur, lk)) && Tidy(Slept(t, cur, lk), cur)
  {
  }

  lemma AwakeFrames(t: Table, cur: int, lk: int)
    requires Tidy(t, cur)
    ensures SameFrames(t, Awake(t, lk)) && Tidy(Awake(t, lk), cur)
  {
  }

  /** scheduler. */
  method ServeSchedule(m: Machine, a: Allocator, l: Ledger, ghost b: Books) returns (ghost b': Books)
    requires Running(m, a, l, b)
    modifies m, m.procs
    ensures Running(m, a, l, b') && Moves(b, b') && Answered(Schedule, l, b, old(m.cur), b', m.cur)
  {
    TidyCur(b.table, m.cur);
    hide Partition, Sound, Moves, Tidy, SameFrames, Agrees, ForksAgree, TwoFrames, Awake, Slept, IsNext, a.Valid;
    hide Scheduling.Apply, Scheduling.Enabled;
    ghost var before := m.View();
    m.Scheduler();
    b' := b.(table := m.procs[..]);
    ScheduledFrames(before, m.cur);
    SameSize(b.table, b'.table);
    AgreesTable(l, b, b');
    ForksKeepFrames(l, b, b');
    SettleTable(b, m.procs[..], a.mem);
  }

  /** sleep. */
  method ServeSleep(m: Machine, a: Allocator, lk: int, l: Ledger, ghost b: Books) returns (ghost b': Books)
    requires Running(m, a, l, b)
    modifies m, m.procs
    ensures Running(m, a, l, b') && Moves(b, b') && Answered(Sleep(lk), l, b, old(m.cur), b', m.cur)
  {
    TidyCur(b.table, m.cur);
    hide Partition, Sound, Moves, Tidy, SameFrames, Agrees, ForksAgree, TwoFrames, Awake, Slept, IsNext, a.Valid;
    m.Sleep(lk);
    b' := b.(table := m.procs[..]);
    SleptFrames(b.table, m.cur, lk);
    SameSize(b.table, b'.table);
    AgreesTable(l, b, b');
    ForksKeepFrames(l, b, b');
    SettleTable(b, m.procs[..], a.mem);
  }

  /** wakeup. */
  method ServeWakeup(m: Machine, a: Allocator, lk: int, l: Ledger, ghost b: Books) returns (ghost b': Books)
    requires Running(m, a, l, b)
    modifies m, m.procs
    ensures Running(m, a, l, b') && Moves(b, b') && Answered(Wakeup(lk), l, b, old(m.cur), b', m.cur)
  {
    TidyCur(b.table, m.cur);
    hide Partition, Sound, Moves, Tidy, SameFrames, Agrees, ForksAgree, TwoFrames, Awake, Slept, IsNext, a.Valid;
    m.Wakeup(lk);
    b' := b.(table := m.procs[..]);
    AwakeFrames(b.table, m.cur, lk);
    SameSize(b.table, b'.table);
    AgreesTable(l, b, b');
    ForksKeepFrames(l, b, b');
    SettleTable(b, m.procs[..], a.mem);
  }

  lemma SameSize(t: Table, t': Table)
    requires SameFrames(t, t')
    ensures |t'| == |t|
  {
  }

  // ---- frames and page tables ----------------------------------------------------------

  lemma MovedFacts(a: Allocator, b: Books, b': Books, x: Owner)
    requires Moved(a, b, b', x)
    ensures Balanced(a, b') && b'.pool == b.pool && Exchange(b, b', x) && Moves(b, b')
  {
    hide Balanced;
  }

  lemma Stayed(a: Allocator, b: Books)
    requires Balanced(a, b)
    ensures Moves(b, b)
  {
    hide Sound, a.Valid, Moves;
    NothingMoved(b, b);
  }

  lemma EmptyTree(root: int, b: Books, l: Ledger)
    requires root in b.pool
    ensures var nodes: Nodes := map[Top := root]; nodes.Values <= b.pool && Ranged(nodes, b.pool, l)
  {
    var nodes: Nodes := map[Top := root];
    assert nodes.Values == {root} by {
      assert nodes[Top] == root;
    }
  }

  lemma AgreesTaken(l: Ledger, b: Books, b': Books)
    requires Agrees(l, b) && b'.spaces == b.spaces && b'.pool == b.pool
    ensures Agrees(l.(taken := b'.loose), b')
  {
    SameRange(b, l, l.(taken := b'.loose));
    hide Ranged, InRange;
  }

  lemma SameRange(b: Books, l: Ledger, l': Ledger)
    requires l'.lo == l.lo && l'.hi == l.hi
    ensures forall f :: InRange(l', f) <==> InRange(l, f)
    ensures forall r :: r in b.spaces ==> (Ranged(b.spaces[r], b.pool, l') <==> Ranged(b.spaces[r], b.pool, l))
  {
  }

  lemma AgreesNew(l: Ledger, b: Books, b': Books, root: int)
    requires Agrees(l, b) && b'.spaces == b.spaces[root := map[Top := root]] && b'.pool == b.pool && b'.loose == b.loose
    requires root in b.pool
    ensures Agrees(l.(roots := l.roots + {root}, pure := l.pure + {root}), b')
  {
    EmptyTree(root, b, l);
    hide Ranged, InRange;
  }

  /** kalloc by a caller. */
  method ServeTake(m: Machine, a: Allocator, l: Ledger, ghost b: Books) returns (l': Ledger, ghost b': Books)
    requires Running(m, a, l, b)
    modifies a
    ensures Running(m, a, l', b') && Moves(b, b') && Answered(Take, l, b, m.cur, b', m.cur)
  {
    hide Exchange, TwoFrames, ForksAgree, Tidy, Moves, Agrees, Partition, Sound, a.Valid;
    var f;
    f, b' := TakeFrame(a, b);
    MovedFacts(a, b, b', Loose);
    AgreesTaken(l, b, b');
    TakenOf(l, b);
    l' := if f == NULL then l else l.(taken := l.taken + {f});
    SlotsStay(l, b, l', b');
  }

  lemma TakenOf(l: Ledger, b: Books)
    requires Agrees(l, b)
    ensures l.taken == b.loose && l.roots == b.spaces.Keys
  {
  }

  /** kfree by a caller. */
  method ServeReturn(m: Machine, a: Allocator, f: int, l: Ledger, ghost b: Books) returns (l': Ledger, ghost b': Books)
    requires Running(m, a, l, b)
    modifies a
    ensures Running(m, a, l', b') && Moves(b, b') && Answered(Return(f), l, b, m.cur, b', m.cur)
  {
    hide Exchange, TwoFrames, ForksAgree, Tidy, Moves, Agrees, Partition, Sound, a.Valid;
    TakenOf(l, b);
    Stayed(a, b);
    l', b' := l, b;
    if f in l.taken {
      b' := ReturnFrame(a, f, b);
      MovedFacts(a, b, b', Loose);
      AgreesTaken(l, b, b');
      l' := l.(taken := l.taken - {f});
      SlotsStay(l, b, l', b');
    }
  }

  /** A new page table. */
  method ServeCreate(m: Machine, a: Allocator, l: Ledger, ghost b: Books) returns (l': Ledger, ghost b': Books)
    requires Running(m, a, l, b)
    modifies a
    ensures Running(m, a, l', b') && Moves(b, b') && Answered(Create, l, b, m.cur, b', m.cur)
  {
    hide Exchange, TwoFrames, ForksAgree, Tidy, Moves, Agrees, Partition, Sound, a.Valid;
    Stayed(a, b);
    var root;
    root, b' := NewSpace(a, b);
    l' := l;
    if root != NULL {
      MovedFacts(a, b, b', Pages(root));
      AgreesNew(l, b, b', root);
      l' := l.(roots := l.roots + {root}, pure := l.pure + {root});
      SlotsStay(l, b, l', b');
    }
  }

  /** Is this frame on the free list? Found by following the links. */
  method OnList(a: Allocator, f: int) returns (yes: bool)
    requires a.Valid()
    ensures yes <==> f in a.free
  {
    var at := a.head;
    ghost var i := 0;
    while at != NULL
      invariant 0 <= i <= |a.free| && at == Link(a.free, i) && f !in a.free[..i]
      decreases |a.free| - i
    {
      if at == f {
        return true;
      }
      at := a.mem[at][0];
      i := i + 1;
    }
    assert a.free[..i] == a.free;
    return false;
  }

  /** A table that leaves the books is on the free list. */
  lemma RootListed(b: Books, b': Books, root: int, mem: Memory, mem': Memory)
    requires Partition(b) && Sound(mem, b) && Sound(mem', b') && Exchange(b, b', Pages(root)) && root in b.spaces
    ensures root in b'.spaces <==> root !in b'.free
  {
    assert b.spaces[root][Top] == root && Holds(b, Pages(root), root);
    if root in b'.spaces {
      assert b'.spaces[root][Top] == root;
    }
  }

  lemma OtherTrees(b: Books, b': Books, root: int)
    requires TreeOnly(b, b', root)
    ensures forall r :: r != root ==> (r in b'.spaces <==> r in b.spaces)
    ensures forall r :: r != root && r in b.spaces ==> b'.spaces[r] == b.spaces[r]
    ensures b'.table == b.table && b'.pool == b.pool && b'.loose == b.loose && b'.building == b.building
  {
    forall r | r != root ensures r in b'.spaces <==> r in b.spaces {
      assert r in b'.spaces - {root} <==> r in b'.spaces;
      assert r in b.spaces - {root} <==> r in b.spaces;
    }
    forall r | r != root && r in b.spaces ensures b'.spaces[r] == b.spaces[r] {
      assert (b'.spaces - {root})[r] == (b.spaces - {root})[r];
    }
  }

  /** The ledger after one tree changed, stays pure or not, or is gone. */
  lemma AgreesTree(l: Ledger, b: Books, b': Books, root: int, pure: bool)
    requires Agrees(l, b) && TreeOnly(b, b', root) && root in b.spaces
    requires root in b'.spaces ==> Ranged(b'.spaces[root], b.pool, l) && (pure <==> b'.spaces[root].Values <= b.pool)
    requires root !in b'.spaces ==> !pure
    ensures var roots := if root in b'.spaces then l.roots else l.roots - {root};
      Agrees(l.(roots := roots, pure := if pure then l.pure + {root} else l.pure - {root}), b')
  {
    OtherTrees(b, b', root);
    hide TreeOnly, Ranged, InRange;
    var roots := if root in b'.spaces then l.roots else l.roots - {root};
    assert forall r :: r in roots <==> r in b'.spaces.Keys;
  }

  /** Whether the tree stays pure, and that it stays in range, when a page is mapped. */
  lemma MapValues(l: Ledger, b: Books, b': Books, root: int, va: nat, pa: nat, kind: int)
    requires Agrees(l, b) && Answer(b, b', root, va, pa, kind) && b'.pool == b.pool && Listed(b.free) <= b.pool
    requires Listed(b'.free) <= b.pool
    requires pa != 0 ==> !InRange(l, pa % PHYS_LIMIT)
    ensures Ranged(b'.spaces[root], b.pool, l)
    ensures b'.spaces[root].Values <= b.pool <==> root in l.pure && !Entered(b.spaces[root], b'.spaces[root], va, pa)
  {
    var old', new' := b.spaces[root].Values, b'.spaces[root].Values;
    var entered := Entered(b.spaces[root], b'.spaces[root], va, pa);
    hide InRange, Entered;
    assert new' + Listed(b'.free) == old' + Listed(b.free) + (if entered then {pa % PHYS_LIMIT} else {});
    assert forall f :: f in new' ==> f in new' + Listed(b'.free);
    assert old' <= new';
    if entered {
      assert pa % PHYS_LIMIT !in b.pool;
      assert pa % PHYS_LIMIT in new' + Listed(b'.free);
    }
  }

  /** get_physical_page on a page table in use. */
  method ServeMap(m: Machine, a: Allocator, root: int, va: nat, pa: nat, kind: int, l: Ledger, ghost b: Books)
    returns (l': Ledger, ghost b': Books)
    requires Running(m, a, l, b) && root in b.spaces && (pa != 0 ==> !InRange(l, pa % PHYS_LIMIT))
    modifies a
    ensures Running(m, a, l', b') && Moves(b, b') && Answer(b, b', root, va, pa, kind)
  {
    hide Exchange, TwoFrames, ForksAgree, Tidy, Moves, Agrees, Partition, Sound;
    hide TreeOnly, PageEntered, Translate, InRange, Entered, a.Valid;
    PoolInRange(l, b);
    FreeInPool(a);
    TreeTranslates(a, b, root, va);
    var before := Translate(a.mem, root, va);
    var frame;
    frame, b' := Grow(a, root, va, pa, kind, b);
    MovedFacts(a, b, b', Pages(root));
    FreeInPool(a);
    FreeSets(b, b');
    OtherTrees(b, b', root);
    TreeTranslates(a, b', root, va);
    MapValues(l, b, b', root, va, pa, kind);
    EnteredIs(b.spaces[root], b'.spaces[root], va, pa);
    var entered := pa != 0 && before.None? && Translate(a.mem, root, va).Some?;
    PureIs(l, b, root);
    AgreesTree(l, b, b', root, root in l.pure && !entered);
    l' := if entered then l.(pure := l.pure - {root}) else l;
    SlotsStay(l, b, l', b');
  }

  lemma PoolInRange(l: Ledger, b: Books)
    requires Agrees(l, b)
    ensures forall f :: f in b.pool ==> InRange(l, f)
  {
  }

  lemma PureRoot(l: Ledger, b: Books, root: int)
    requires Agrees(l, b) && root in l.pure
    ensures root in b.spaces && b.spaces[root].Values <= b.pool && root in l.roots
  {
  }

  lemma PureIs(l: Ledger, b: Books, root: int)
    requires Agrees(l, b) && root in b.spaces
    ensures root in l.pure <==> b.spaces[root].Values <= b.pool
    ensures root in l.pure ==> l.pure + {root} == l.pure
    ensures root !in l.pure ==> l.pure - {root} == l.pure
    ensures root in l.roots
  {
  }

  lemma EnteredIs(nodes: Nodes, nodes': Nodes, va: int, pa: int)
    ensures Entered(nodes, nodes', va, pa) <==> pa != 0 && LeafAt(nodes, va).None? && LeafAt(nodes', va).Some?
  {
  }

  lemma FreeSets(b: Books, b': Books)
    requires (forall f :: f in b.free ==> f in b.pool) && b'.pool == b.pool && forall f :: f in b'.free ==> f in b.pool
    ensures Listed(b.free) <= b.pool && Listed(b'.free) <= b.pool
  {
    forall f | f in Listed(b.free) ensures f in b.pool {
    }
    forall f | f in Listed(b'.free) ensures f in b.pool {
    }
  }

  /** What the walk finds in a tree on the books. */
  lemma TreeTranslates(a: Allocator, b: Books, root: int, va: int)
    requires Balanced(a, b) && root in b.spaces
    ensures Translate(a.mem, root, va) == LeafAt(b.spaces[root], va)
  {
    SpaceOf(b, root, a.mem);
    TreeRefinesMap(a.mem, b.spaces[root]);
  }

  /** free_page on a page table in use, for a page that is unmapped or came from the allocator. */
  method ServeUnmap(m: Machine, a: Allocator, root: int, va: nat, l: Ledger, ghost b: Books)
    returns (l': Ledger, ghost b': Books)
    requires Running(m, a, l, b) && root in b.spaces && LeafInPool(b, root, va)
    modifies a
    ensures Running(m, a, l', b') && Moves(b, b') && (root in b'.spaces ==> PathOf(va, 4) !in b'.spaces[root])
  {
    hide Exchange, TwoFrames, ForksAgree, Tidy, Moves, Agrees, Partition, Sound, TreeOnly, InRange, a.Valid;
    FreeInPool(a);
    b' := UnmapPage(a, root, va, b);
    MovedFacts(a, b, b', Pages(root));
    FreeInPool(a);
    FreeSets(b, b');
    RootListed(b, b', root, old(a.mem), a.mem);
    UnmapValues(l, b, b', root);
    PureIs(l, b, root);
    var gone := OnList(a, root);
    AgreesTree(l, b, b', root, root in l.pure && !gone);
    OtherTrees(b, b', root);
    l' := if gone then l.(roots := l.roots - {root}, pure := l.pure - {root}) else l;
    SlotsStay(l, b, l', b');
  }

  lemma UnmapValues(l: Ledger, b: Books, b': Books, root: int)
    requires Agrees(l, b) && root in b.spaces && b'.pool == b.pool
    requires Listed(b.free) <= b.pool && Listed(b'.free) <= b.pool
    requires (if root in b'.spaces then b'.spaces[root].Values else {}) + Listed(b'.free) ==
      b.spaces[root].Values + Listed(b.free)
    ensures root in b'.spaces ==>
      Ranged(b'.spaces[root], b.pool, l) && (root in l.pure <==> b'.spaces[root].Values <= b.pool)
  {
    if root in b'.spaces {
      var old', new' := b.spaces[root].Values, b'.spaces[root].Values;
      hide InRange;
      assert forall f :: f in new' ==> f in old' + Listed(b.free);
      assert forall f :: f in old' ==> f in new' + Listed(b'.free);
    }
  }

  /** free_pagetable on a page table all of whose pages came from the allocator. */
  method ServeDestroy(m: Machine, a: Allocator, root: int, l: Ledger, ghost b: Books)
    returns (l': Ledger, ghost b': Books)
    requires Running(m, a, l, b) && root in l.pure
    modifies a
    ensures Running(m, a, l', b') && Moves(b, b') && root !in b'.spaces
  {
    hide Exchange, TwoFrames, ForksAgree, Tidy, Moves, Agrees, Partition, Sound, TreeOnly, InRange, a.Valid;
    PureRoot(l, b, root);
    b' := DropSpace(a, root, b);
    MovedFacts(a, b, b', Pages(root));
    OtherTrees(b, b', root);
    AgreesTree(l, b, b', root, false);
    l' := l.(roots := l.roots - {root}, pure := l.pure - {root});
    SlotsStay(l, b, l', b');
  }

  /** The frames on the free list, found by following the links. */
  method FreeFrames(a: Allocator) returns (frames: set<int>)
    requires a.Valid()
    ensures frames == Listed(a.free)
  {
    frames := {};
    var at := a.head;
    ghost var i := 0;
    while at != NULL
      invariant 0 <= i <= |a.free| && at == Link(a.free, i) && frames == Listed(a.free[..i])
      decreases |a.free| - i
    {
      assert a.free[..i + 1] == a.free[..i] + [at];
      frames := frames + {at};
      at := a.mem[at][0];
      i := i + 1;
    }
    assert a.free[..i] == a.free;
  }

  lemma AgreesCopy(l: Ledger, b: Books, b': Books, to: int)
    requires Agrees(l, b) && TreeOnly(b, b', to) && to !in b.spaces && to in b'.spaces && b'.spaces[to].Values <= b.pool
    ensures Agrees(l.(roots := l.roots + {to}, pure := l.pure + {to}), b')
  {
    OtherTrees(b, b', to);
    SameRange(b, l, l.(roots := l.roots + {to}, pure := l.pure + {to}));
    assert Ranged(b'.spaces[to], b.pool, l.(roots := l.roots + {to}, pure := l.pure + {to}));
    hide TreeOnly, Ranged, InRange;
    assert forall r :: r in l.roots + {to} <==> r in b'.spaces.Keys;
  }

  /** clone_pagetable of a page table all of whose pages came from the allocator, into a fresh root. */
  method ServeCopy(m: Machine, a: Allocator, root: int, l: Ledger, ghost b: Books) returns (l': Ledger, ghost b': Books)
    requires Running(m, a, l, b) && root in l.pure
    modifies a
    ensures Running(m, a, l', b') && Moves(b, b') && root in b.spaces && Copied(b, b', root)
  {
    hide Exchange, TwoFrames, ForksAgree, Tidy, Moves, Agrees, Partition, Sound, TreeOnly, InRange, Listed, a.Valid;
    PureRoot(l, b, root);
    TakenOf(l, b);
    var frames := FreeFrames(a);
    var to;
    to, b' := CloneSpace(a, root, b);
    if to != NULL {
      MovedFacts(a, b, b', Pages(to));
      OtherTrees(b, b', to);
      AgreesCopy(l, b, b', to);
      l' := l.(roots := l.roots + {to}, pure := l.pure + {to});
    } else {
      MovedFacts(a, b, b', Loose);
      AgreesTaken(l, b, b');
      l' := l.(taken := l.taken + frames);
    }
    SlotsStay(l, b, l', b');
  }

  /** Requests on page tables. Those that name no page table in use, enter an address in the range, or would free
      an address that a caller entered are refused. */
  method ServePages(m: Machine, a: Allocator, r: Request, l: Ledger, ghost b: Books)
    returns (l': Ledger, ghost b': Books)
    requires Running(m, a, l, b) && (r.MapFresh? || r.MapGiven? || r.Unmap? || r.Destroy? || r.Copy?)
    modifies a
    ensures Running(m, a, l', b') && Moves(b, b') && Answered(r, l, b, m.cur, b', m.cur)
  {
    hide Exchange, TwoFrames, ForksAgree, Tidy, Moves, Agrees, Balanced, Answer, Copied, Translate;
    TakenOf(l, b);
    Stayed(a, b);
    l', b' := l, b;
    var root := r.root;
    if root !in l.roots {
      return;
    }
    match r {
      case MapFresh(_, va, kind) =>
        l', b' := ServeMap(m, a, root, va, 0, kind, l, b);
      case MapGiven(_, va, pa, kind) =>
        if pa > 0 && !InRange(l, pa % PHYS_LIMIT) {
          l', b' := ServeMap(m, a, root, va, pa, kind, l, b);
        }
      case Unmap(_, va) =>
        var leaf := Translate(a.mem, root, va);
        TreeTranslates(a, b, root, va);
        LeafRange(l, b, root, va);
        if leaf.None? || InRange(l, leaf.value) {
          l', b' := ServeUnmap(m, a, root, va, l, b);
        }
      case Destroy(_) =>
        PureIs(l, b, root);
        if root in l.pure {
          l', b' := ServeDestroy(m, a, root, l, b);
        }
      case Copy(_) =>
        PureIs(l, b, root);
        if root in l.pure {
          l', b' := ServeCopy(m, a, root, l, b);
        }
    }
  }

  /** A leaf is in the range exactly if it is the allocator's. */
  lemma LeafRange(l: Ledger, b: Books, root: int, va: nat)
    requires Agrees(l, b) && root in b.spaces
    ensures LeafInPool(b, root, va) <==>
      LeafAt(b.spaces[root], va).None? || InRange(l, LeafAt(b.spaces[root], va).value)
  {
    var nodes := b.spaces[root];
    assert Ranged(nodes, b.pool, l);
    if PathOf(va, 4) in nodes {
      assert nodes[PathOf(va, 4)] in nodes.Values;
    }
  }

  // ---- fork and kill -------------------------------------------------------------------

  lemma TidyFork(t: Table, t': Table, cur: int, i: int, stack: int, trap: int, pid: int)
    requires Tidy(t, cur) && FirstFree(t, i) && t' == Published(t, i, cur, stack, trap, pid)
    ensures Tidy(t', cur)
  {
  }

  lemma TidyUnforked(t: Table, t': Table, cur: int)
    requires Tidy(t, cur) && Unforked(t, t')
    ensures Tidy(t', cur)
  {
  }

  lemma TidyKill(t: Table, cur: int, i: int)
    requires Tidy(t, cur) && 0 <= i < |t| && i != cur
    ensures Tidy(Killed(t, i), cur)
  {
  }

  lemma AgreesTable(l: Ledger, b: Books, b': Books)
    requires Agrees(l, b) && b'.spaces == b.spaces && b'.pool == b.pool && b'.loose == b.loose
    ensures Agrees(l, b')
  {
    hide Ranged, InRange;
  }

  /** sys_fork. */
  method ServeFork(m: Machine, a: Allocator, stray: seq<int>, l: Ledger, ghost b: Books) returns (ghost b': Books)
    requires Running(m, a, l, b) && |stray| == WORDS
    modifies m.procs, a
    ensures Running(m, a, l, b') && Moves(b, b') && Forked(b, m.cur, b')
    ensures StackCopied(ForkCurrent(stray), l, b, m.cur, old(a.mem), a.mem)
  {
    TidyCur(b.table, m.cur);
    ForksLive(l, b);
    hide Balanced, Exchange, TwoFrames, FirstFree, Published, Unforked, AnyFree, Tidy, Agrees, ForksAgree, Moves;
    hide BuildingLive;
    var code: int;
    ghost var slot: int;
    code, slot, b' := Fork(m, a, stray, b);
    MovedFacts(a, b, b', Slot(slot));
    AgreesTable(l, b, b');
    if code == 0 {
      TidyFork(b.table, b'.table, m.cur, slot, b.free[0], b.free[1], b'.table[slot].pid);
      ForksAfterFork(l, b, b', slot, m.cur, b.free[0], b.free[1], b'.table[slot].pid);
    } else {
      TidyUnforked(b.table, b'.table, m.cur);
      ForksUnforked(l, b, b');
    }
  }

  lemma ForksLive(l: Ledger, b: Books)
    requires ForksAgree(l, b)
    ensures BuildingLive(b) && l.forks.Keys == b.building.Keys
  {
    forall i | i in b.building ensures 0 <= i < |b.table| && b.table[i].state != FREE {
      assert i in l.forks && Underway(l.forks[i], b.table, i);
    }
  }

  lemma ForksAfterFork(l: Ledger, b: Books, b': Books, i: int, cur: int, stack: int, trap: int, pid: int)
    requires ForksAgree(l, b) && b'.building == b.building && FirstFree(b.table, i) && 0 <= cur < |b.table|
    requires b'.table == Published(b.table, i, cur, stack, trap, pid)
    ensures ForksAgree(l, b')
  {
  }

  lemma ForksUnforked(l: Ledger, b: Books, b': Books)
    requires ForksAgree(l, b) && b'.building == b.building && Unforked(b.table, b'.table)
    ensures ForksAgree(l, b')
  {
  }

  lemma ForksSameTable(l: Ledger, b: Books, b': Books)
    requires ForksAgree(l, b) && b'.building == b.building && b'.table == b.table
    ensures ForksAgree(l, b')
  {
  }

  lemma ForksAfterKill(l: Ledger, b: Books, b': Books, i: int)
    requires ForksAgree(l, b) && b'.building == b.building && 0 <= i < |b.table| && i !in b.building
    requires b'.table == Killed(b.table, i)
    ensures ForksAgree(l, b')
  {
  }

  lemma TidyCur(t: Table, cur: int)
    requires Tidy(t, cur)
    ensures 0 <= cur < |t| && t[cur].state != FREE
  {
  }

  /** kill_process of a process that may be killed. */
  method ServeKill(m: Machine, a: Allocator, pid: int, l: Ledger, ghost b: Books) returns (ghost b': Books)
    requires Running(m, a, l, b) && KillSafe(b, m.cur, pid)
    modifies m.procs, a
    ensures Running(m, a, l, b') && Moves(b, b')
    ensures forall i :: FirstWithPid(b.table, pid, i) ==> b'.table == Killed(b.table, i)
  {
    hide Balanced, Exchange, TwoFrames, Used, Killed, Tidy, Agrees, ForksAgree, Moves;
    var code: int;
    ghost var slot: int;
    code, slot, b' := Kill(m, a, pid, b);
    MovedFacts(a, b, b', Slot(slot));
    AgreesTable(l, b, b');
    if code == 0 {
      TidyKill(b.table, m.cur, slot);
      ForksAfterKill(l, b, b', slot);
    } else {
      NobodyFirst(b.table, pid);
      ForksSameTable(l, b, b');
    }
  }

  lemma NobodyFirst(t: Table, pid: int)
    requires !Used(t, pid)
    ensures forall i :: !FirstWithPid(t, pid, i)
  {
  }

  /** The test a caller can make before kill_process: the first slot with the pid is live, not the current one, and no
      fork is at work on it. */
  method MayKill(m: Machine, forks: map<int, Pending>, pid: int, ghost b: Books) returns (safe: bool)
    requires m.Valid() && b.table == m.procs[..] && forks.Keys == b.building.Keys
    ensures safe <==> KillSafe(b, m.cur, pid)
  {
    var i := FindPid(m, pid);
    if i == -1 {
      NobodyFirst(m.procs[..], pid);
      return true;
    }
    safe := m.procs[i].state != FREE && i != m.cur && i !in forks;
    assert i in forks <==> i in b.building;
    assert FirstWithPid(m.procs[..], pid, i);
  }

  method ServeLife(m: Machine, a: Allocator, r: Request, l: Ledger, ghost b: Books) returns (ghost b': Books)
    requires Running(m, a, l, b) && (r.ForkCurrent? || r.KillPid?)
    modifies m.procs, a
    ensures Running(m, a, l, b') && Moves(b, b') && Answered(r, l, b, m.cur, b', m.cur)
    ensures StackCopied(r, l, b, m.cur, old(a.mem), a.mem)
  {
    hide Balanced, Exchange, TwoFrames, Tidy, Agrees, ForksAgree, Moves, Forked, KillSafe, FirstWithPid, Killed;
    hide BuildingLive;
    ForksLive(l, b);
    Stayed(a, b);
    b' := b;
    match r {
      case ForkCurrent(stray) =>
        if |stray| == WORDS {
          b' := ServeFork(m, a, stray, l, b);
        }
      case KillPid(pid) =>
        var safe := MayKill(m, l.forks, pid, b);
        if safe {
          b' := ServeKill(m, a, pid, l, b);
        }
    }
  }

  // ---- fork, interrupted ---------------------------------------------------------------

  /** The books and the ledger after a step of the fork into slot i, which goes on. */
  lemma ForkGoesOn(l: Ledger, b: Books, b': Books, i: int, p: Pending)
    requires ForksAgree(l, b) && TwoFrames(b) && b'.building == b.building[i := FramesOf(p)]
    requires |b'.table| == |b.table| && forall k :: 0 <= k < |b.table| && k != i ==> b'.table[k] == b.table[k]
    requires Underway(p, b'.table, i)
    ensures ForksAgree(l.(forks := l.forks[i := p]), b') && TwoFrames(b')
  {
  }

  /** ... and after one that ends it. */
  lemma ForkOver(l: Ledger, b: Books, b': Books, i: int)
    requires ForksAgree(l, b) && TwoFrames(b) && b'.building == b.building - {i} && 0 <= i < |b.table|
    requires |b'.table| == |b.table| && forall k :: 0 <= k < |b.table| && k != i ==> b'.table[k] == b.table[k]
    requires b'.table[i].state == FREE || b'.table[i].stackFrame != b'.table[i].trapFrame
    ensures ForksAgree(l.(forks := l.forks - {i}), b') && TwoFrames(b')
  {
  }

  lemma TidySlot(t: Table, t': Table, cur: int, i: int)
    requires Tidy(t, cur) && |t'| == |t| && 0 <= i < |t| && forall k :: 0 <= k < |t| && k != i ==> t'[k] == t[k]
    requires t'[i].state != FREE || (t'[i].pid == 0 && i != cur)
    ensures Tidy(t', cur)
  {
  }

  lemma AgreesForks(l: Ledger, l': Ledger, b: Books, b': Books)
    requires Agrees(l, b) && b'.spaces == b.spaces && b'.pool == b.pool && b'.loose == b.loose
    requires l' == l.(forks := l'.forks)
    ensures Agrees(l', b')
  {
    SameRange(b, l, l');
    hide Ranged, InRange;
  }

  /** The reservation. */
  method ServeBegin(m: Machine, a: Allocator, l: Ledger, ghost b: Books) returns (l': Ledger, ghost b': Books)
    requires Running(m, a, l, b)
    modifies m.procs
    ensures Running(m, a, l', b') && Moves(b, b') && Answered(ForkBegin, l, b, m.cur, b', m.cur)
  {
    TidyCur(b.table, m.cur);
    ForksLive(l, b);
    hide Exchange, TwoFrames, ForksAgree, Tidy, Moves, Agrees, Partition, Sound, AnyFree, a.Valid;
    Stayed(a, b);
    var slot;
    slot, b' := BeginFork(m, a, b);
    l' := l;
    if slot != -1 {
      l' := l.(forks := l.forks[slot := Reserved(m.cur)]);
      ForkGoesOn(l, b, b', slot, Reserved(m.cur));
      TidySlot(b.table, b'.table, m.cur, slot);
      AgreesForks(l, l', b, b');
      ExchangeMoves(b, b', Slot(slot));
    }
  }

  lemma ExchangeMoves(b: Books, b': Books, x: Owner)
    requires Exchange(b, b', x)
    ensures Moves(b, b')
  {
  }

  lemma ForkAt(l: Ledger, b: Books, i: int)
    requires ForksAgree(l, b) && i in l.forks
    ensures i in b.building && b.building[i] == FramesOf(l.forks[i]) && Underway(l.forks[i], b.table, i)
  {
  }

  /** The first allocation. */
  method ServeStack(m: Machine, a: Allocator, i: int, l: Ledger, ghost b: Books) returns (l': Ledger, ghost b': Books)
    requires Running(m, a, l, b)
    modifies m.procs, a
    ensures Running(m, a, l', b') && Moves(b, b') && Answered(ForkStack(i), l, b, m.cur, b', m.cur)
  {
    hide Exchange, TwoFrames, ForksAgree, Tidy, Moves, Agrees, Partition, Sound, a.Valid;
    Stayed(a, b);
    l', b' := l, b;
    EmptyHead(a);
    if i in l.forks && l.forks[i].Reserved? && (i != m.cur || a.head != NULL) {
      ForkAt(l, b, i);
      var stack;
      stack, b' := ForkTakesStack(m, a, i, b);
      MovedFacts(a, b, b', Slot(i));
      if stack == NULL {
        l' := l.(forks := l.forks - {i});
        ForkOver(l, b, b', i);
      } else {
        var p := HasStack(l.forks[i].caller, stack);
        l' := l.(forks := l.forks[i := p]);
        ForkGoesOn(l, b, b', i, p);
      }
      TidySlot(b.table, b'.table, m.cur, i);
      AgreesForks(l, l', b, b');
    }
  }

  lemma EmptyHead(a: Allocator)
    requires a.Valid()
    ensures a.head == NULL <==> a.free == []
  {
    if a.free != [] {
      assert a.free[0] in a.free;
    }
  }

  /** The second. */
  method ServeTrap(m: Machine, a: Allocator, i: int, l: Ledger, ghost b: Books) returns (l': Ledger, ghost b': Books)
    requires Running(m, a, l, b)
    modifies m.procs, a
    ensures Running(m, a, l', b') && Moves(b, b') && Answered(ForkTrap(i), l, b, m.cur, b', m.cur)
  {
    hide Exchange, TwoFrames, ForksAgree, Tidy, Moves, Agrees, Partition, Sound, a.Valid;
    Stayed(a, b);
    l', b' := l, b;
    EmptyHead(a);
    if i in l.forks && l.forks[i].HasStack? && (i != m.cur || a.head != NULL) {
      ForkAt(l, b, i);
      var trap;
      trap, b' := ForkTakesTrap(m, a, i, l.forks[i].stack, b);
      MovedFacts(a, b, b', Slot(i));
      if trap == NULL {
        l' := l.(forks := l.forks - {i});
        ForkOver(l, b, b', i);
      } else {
        var p := HasBoth(l.forks[i].caller, l.forks[i].stack, trap);
        l' := l.(forks := l.forks[i := p]);
        ForkGoesOn(l, b, b', i, p);
        assert {l.forks[i].stack, trap} == {l.forks[i].stack} + {trap};
      }
      TidySlot(b.table, b'.table, m.cur, i);
      AgreesForks(l, l', b, b');
    }
  }

  /** Copy, registers and publication. */
  method ServeEnd(m: Machine, a: Allocator, i: int, stray: seq<int>, l: Ledger, ghost b: Books)
    returns (l': Ledger, ghost b': Books)
    requires Running(m, a, l, b)
    modifies m.procs, a
    ensures Running(m, a, l', b') && Moves(b, b') && Answered(ForkEnd(i, stray), l, b, m.cur, b', m.cur)
    ensures StackCopied(ForkEnd(i, stray), l, b, m.cur, old(a.mem), a.mem)
  {
    hide Exchange, TwoFrames, ForksAgree, Tidy, Moves, Agrees, Partition, Sound, LeastUnused, a.Valid;
    Stayed(a, b);
    l', b' := l, b;
    if i in l.forks && l.forks[i].HasBoth? && |stray| == WORDS {
      ForkAt(l, b, i);
      var p, pid := l.forks[i], 0;
      pid, b' := EndFork(m, a, i, p.caller, p.stack, p.trap, stray, b);
      MovedFacts(a, b, b', Slot(i));
      l' := l.(forks := l.forks - {i});
      ForkOver(l, b, b', i);
      TidySlot(b.table, b'.table, m.cur, i);
      AgreesForks(l, l', b, b');
    }
  }

  // ---- runs ----------------------------------------------------------------------------

  /** One live process, in slot 0, and everything else on the free list. */
  lemma FirstBooks(b: Books)
    requires b.spaces == map[] && b.loose == {} && |b.table| == PROCCNT && b.building == map[]
    requires forall i :: 0 <= i < PROCCNT ==> (b.table[i].state != FREE <==> i == 0)
    requires b.pool == Listed(b.free) + {b.table[0].stackFrame, b.table[0].trapFrame}
    requires b.table[0].stackFrame !in b.free && b.table[0].trapFrame !in b.free
    ensures Partition(b)
  {
    forall f | f in b.pool ensures exists o :: Holds(b, o, f) {
      assert Holds(b, FreeList, f) || Holds(b, Slot(0), f);
    }
  }

  /** The first process gets the first two frames after kalloc_init, as create_first_process intends. */
  method Boot(m: Machine, a: Allocator, lo: int, hi: int) returns (l: Ledger, ghost b: Books)
    requires m.Valid() && a.Valid() && m.cur == 0 && |a.free| >= 2 && a.pool == Listed(a.free)
    requires forall f :: f in a.pool ==> lo <= f < hi
    requires forall i :: 0 <= i < PROCCNT ==> m.procs[i].state == FREE && m.procs[i].pid == 0
    modifies m.procs, a
    ensures Running(m, a, l, b) && b.pool == old(a.pool)
  {
    hide Partition, a.Valid, SpaceIn;
    NoFrameTwice(a);
    var stack := a.Kalloc();
    var trap := a.Kalloc();
    ghost var first := old(a.free);
    assert first == [stack, trap] + a.free;
    m.procs[0] := m.procs[0].(state := WAITING, stackFrame := stack, trapFrame := trap);
    m.procs[0] := m.procs[0].(state := RUNNABLE, pid := 0);
    b := Books(a.free, a.pool, map[], m.procs[..], {}, map[]);
    l := Ledger({}, {}, {}, map[], lo, hi);
    assert a.pool == Listed(b.free) + {stack, trap};
    FirstBooks(b);
  }

  method Serve(m: Machine, a: Allocator, r: Request, l: Ledger, ghost b: Books) returns (l': Ledger, ghost b': Books)
    requires Running(m, a, l, b)
    modifies m, m.procs, a
    ensures Running(m, a, l', b') && Moves(b, b') && Answered(r, l, b, old(m.cur), b', m.cur)
    ensures StackCopied(r, l, b, old(m.cur), old(a.mem), a.mem)
  {
    hide Running, Moves, Answered;
    l' := l;
    match r {
      case Take => l', b' := ServeTake(m, a, l, b);
      case Return(f) => l', b' := ServeReturn(m, a, f, l, b);
      case Create => l', b' := ServeCreate(m, a, l, b);
      case ForkCurrent(_) => b' := ServeLife(m, a, r, l, b);
      case KillPid(_) => b' := ServeLife(m, a, r, l, b);
      case ForkBegin => l', b' := ServeBegin(m, a, l, b);
      case ForkStack(i) => l', b' := ServeStack(m, a, i, l, b);
      case ForkTrap(i) => l', b' := ServeTrap(m, a, i, l, b);
      case ForkEnd(i, stray) => l', b' := ServeEnd(m, a, i, stray, l, b);
      case Schedule => b' := ServeSchedule(m, a, l, b);
      case Sleep(lk) => b' := ServeSleep(m, a, lk, l, b);
      case Wakeup(lk) => b' := ServeWakeup(m, a, lk, l, b);
      case _ => l', b' := ServePages(m, a, r, l, b);
    }
  }

  /** A moment of a run. */
  datatype Moment = Moment(books: Books, ledger: Ledger, cur: int, mem: Memory)

  /** The requests of a run and the moments between them: each was answered, and moved frames between the free list
      and one other owner only. */
  ghost predicate Recorded(requests: seq<Request>, run: seq<Moment>) {
    && |run| == |requests| + 1
    && forall i :: 0 <= i < |requests| ==>
         && Answered(requests[i], run[i].ledger, run[i].books, run[i].cur, run[i + 1].books, run[i + 1].cur)
         && StackCopied(requests[i], run[i].ledger, run[i].books, run[i].cur, run[i].mem, run[i + 1].mem)
         && Moves(run[i].books, run[i + 1].books)
  }

  lemma RecordMore(requests: seq<Request>, run: seq<Moment>, r: Request, next: Moment)
    requires Recorded(requests, run)
    requires var last := run[|run| - 1];
      && Answered(r, last.ledger, last.books, last.cur, next.books, next.cur) && Moves(last.books, next.books)
      && StackCopied(r, last.ledger, last.books, last.cur, last.mem, next.mem)
    ensures Recorded(requests + [r], run + [next])
  {
    hide Answered, Moves, StackCopied;
    var more, longer := requests + [r], run + [next];
    forall i | 0 <= i < |more|
      ensures Answered(more[i], longer[i].ledger, longer[i].books, longer[i].cur,
                       longer[i + 1].books, longer[i + 1].cur)
      ensures Moves(longer[i].books, longer[i + 1].books)
      ensures StackCopied(more[i], longer[i].ledger, longer[i].books, longer[i].cur,
                          longer[i].mem, longer[i + 1].mem)
    {
      if i < |requests| {
        assert more[i] == requests[i] && longer[i] == run[i] && longer[i + 1] == run[i + 1];
      }
    }
  }

  /** At every moment of a recorded run the pool is what it was and has exactly one owner for each of its frames. */
  lemma RecordConserves(requests: seq<Request>, run: seq<Moment>, n: nat)
    requires Recorded(requests, run) && n < |run| && Partition(run[0].books)
    ensures Partition(run[n].books) && run[n].books.pool == run[0].books.pool
  {
    hide Answered, Moves, Partition, StackCopied;
    var books := seq(n + 1, i requires 0 <= i <= n => run[i].books);
    forall i | 0 <= i < n ensures Moves(books[i], books[i + 1]) {
      assert Moves(run[i].books, run[i + 1].books);
    }
    RunConserves(books);
  }

  /** Frame conservation: after any sequence of requests the pool is what it was, and at every moment it is the disjoint
      union of the free list, the page tables, the frames of live processes and the frames callers hold. */
  method ServeAll(m: Machine, a: Allocator, requests: seq<Request>, l: Ledger, ghost b: Books)
    returns (l': Ledger, ghost run: seq<Moment>)
    requires Running(m, a, l, b)
    modifies m, m.procs, a
    ensures Recorded(requests, run) && run[0] == Moment(b, l, old(m.cur), old(a.mem))
    ensures forall n :: 0 <= n < |run| ==> Partition(run[n].books) && run[n].books.pool == b.pool
    ensures run[|requests|] == Moment(run[|requests|].books, l', m.cur, a.mem)
    ensures Running(m, a, l', run[|requests|].books)
  {
    hide Running, Answered, Moves, Partition, StackCopied;
    RunningFacts(m, a, l, b);
    l' := l;
    ghost var now := b;
    run := [Moment(b, l, m.cur, a.mem)];
    var i := 0;
    while i < |requests|
      invariant 0 <= i <= |requests|
      invariant Recorded(requests[..i], run) && run[0] == Moment(b, l, old(m.cur), old(a.mem))
      invariant run[i] == Moment(now, l', m.cur, a.mem)
      invariant Running(m, a, l', now)
    {
      ghost var cur, ledger, before := m.cur, l', now;
      l', now := Serve(m, a, requests[i], l', now);
      RecordMore(requests[..i], run, requests[i], Moment(now, l', m.cur, a.mem));
      run := run + [Moment(now, l', m.cur, a.mem)];
      assert requests[..i + 1] == requests[..i] + [requests[i]];
      i := i + 1;
    }
    assert requests[..i] == requests;
    forall n | 0 <= n < |run| ensures Partition(run[n].books) && run[n].books.pool == b.pool {
      RecordConserves(requests, run, n);
    }
  }

  lemma RunningFacts(m: Machine, a: Allocator, l: Ledger, b: Books)
    requires Running(m, a, l, b)
    ensures Partition(b)
  {
  }
}
