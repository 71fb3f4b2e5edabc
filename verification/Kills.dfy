/** When kill_process keeps the books in order: exactly when the slot it hits is live and not the current one. */
module Kills {
  import opened Kalloc
  import opened PageTree
  import opened Process
  import Scheduling
  import Kernel
  import opened Lifecycle
  import opened Ownership
  import opened System
  import opened Runs

  /** The state between two requests, on values. */
  ghost predicate Orderly(mem: Memory, head: int, b: Books, l: Ledger, cur: int) {
    && Healthy(mem, head, b.free, b.pool) && Partition(b) && Sound(mem, b)
    && TwoFrames(b) && Tidy(b.table, cur) && Agrees(l, b) && ForksAgree(l, b)
  }

  lemma RunningIsOrderly(m: Kernel.Machine, a: Allocator, l: Ledger, b: Books)
    ensures Running(m, a, l, b) <==>
      m.Valid() && b.table == m.procs[..] && b.free == a.free && b.pool == a.pool && Orderly(a.mem, a.head, b, l, m.cur)
  {
    hide Partition, Sound, TwoFrames, Tidy, Agrees, ForksAgree, Healthy;
  }

  /** kfree is given two frames, and with whatever list it leaves the books are in order again. */
  ghost predicate KillKeeps(mem: Memory, head: int, b: Books, l: Ledger, cur: int, i: int)
    requires 0 <= i < |b.table|
  {
    var (mem', head') := KillFrees(mem, head, b.table[i]);
    IsFrame(b.table[i].stackFrame) && IsFrame(b.table[i].trapFrame) &&
    exists free' :: Orderly(mem', head', b.(free := free', table := Killed(b.table, i)), l, cur)
  }

  lemma KillOfLive(mem: Memory, head: int, b: Books, l: Ledger, cur: int, i: int)
    requires Orderly(mem, head, b, l, cur) && 0 <= i < |b.table|
    requires b.table[i].state != FREE && i != cur && i !in b.building
    ensures KillKeeps(mem, head, b, l, cur, i)
  {
    var p := b.table[i];
    var (mem', head') := KillFrees(mem, head, p);
    var free' := [p.trapFrame, p.stackFrame] + b.free;
    var b' := b.(free := free', table := Killed(b.table, i));
    SlotApart(b, i);
    assert CanRelease(p, mem, b.free);
    BothReleased(mem, head, b.free, p);
    assert Healthy(mem', head', free', b.pool);
    hide Partition, Sound, Agrees, ForksAgree, IsList, Healthy, Tidy;
    KillWrites(mem, head, p);
    KillBooks(b, b', i, 0, mem, mem');
    TidyKill(b.table, cur, i);
    AgreesTable(l, b, b');
    ForksAfterKill(l, b, b', i);
    assert Orderly(mem', head', b', l, cur);
  }

  lemma KillOfCurrent(mem: Memory, head: int, b: Books, l: Ledger, cur: int)
    requires 0 <= cur < |b.table|
    ensures !KillKeeps(mem, head, b, l, cur, cur)
  {
    hide Partition, Sound, Agrees, ForksAgree, Healthy, TwoFrames;
  }

  lemma DeadChild(l: Ledger, b: Books, i: int)
    requires i in b.building && 0 <= i < |b.table| && b.table[i].state == FREE
    ensures !ForksAgree(l, b)
  {
    assert ForksAgree(l, b) ==> i in l.forks && Underway(l.forks[i], b.table, i);
  }

  /** The slot of a fork that is going on would be FREE, and the fork's frames both on the list and its own. */
  lemma KillOfChild(mem: Memory, head: int, b: Books, l: Ledger, cur: int, i: int)
    requires 0 <= i < |b.table| && i in b.building
    ensures !KillKeeps(mem, head, b, l, cur, i)
  {
    hide Partition, Sound, Agrees, Healthy, TwoFrames, Tidy;
    forall free' ensures !ForksAgree(l, b.(free := free', table := Killed(b.table, i))) {
      DeadChild(l, b.(free := free', table := Killed(b.table, i)), i);
    }
  }

  /** The list that two kfree calls leave begins with the two frames and goes on where the old list began. */
  lemma ListAfterKill(mem: Memory, head: int, p: Proc, free': seq<int>)
    requires var (mem', head') := KillFrees(mem, head, p); IsList(mem', head', free')
    requires p.stackFrame != NULL && p.trapFrame != NULL
    ensures |free'| >= 2 && free'[0] == p.trapFrame && free'[1] == p.stackFrame && Link(free', 2) == head
  {
  }

  /** If one of the two frames was free before, there is no such list. */
  lemma KillOfFreeFrames(mem: Memory, head: int, free: seq<int>, p: Proc, free': seq<int>)
    requires IsList(mem, head, free) && NULL !in free && p.stackFrame != NULL && p.trapFrame != NULL
    requires p.stackFrame in free || p.trapFrame in free
    ensures var (mem', head') := KillFrees(mem, head, p); !IsList(mem', head', free')
  {
    var (mem', head') := KillFrees(mem, head, p);
    if IsList(mem', head', free') {
      ListAfterKill(mem, head, p, free');
      var some := {p.stackFrame, p.trapFrame};
      var i :| 0 <= i < |free| && free[i] in some;
      var j := FirstAmong(free, some, i);
      ListsRunOn(mem, head, free, mem', head', free', 2, j);
    }
  }

  /** A frame that a dead slot still names and that is not free belongs to somebody else. */
  lemma StaleFrame(b: Books, i: int, free': seq<int>, f: int)
    requires Partition(b) && 0 <= i < |b.table| && b.table[i].state == FREE && i !in b.building
    requires f in free' && f in b.pool && f !in b.free
    ensures !Partition(b.(free := free', table := Killed(b.table, i)))
  {
    var b' := b.(free := free', table := Killed(b.table, i));
    var o :| Holds(b, o, f);
    assert Holds(b', o, f) && Holds(b', FreeList, f) && o != FreeList;
  }

  lemma KillOfDead(mem: Memory, head: int, b: Books, l: Ledger, cur: int, i: int, free': seq<int>)
    requires Orderly(mem, head, b, l, cur) && 0 <= i < |b.table| && b.table[i].state == FREE && i !in b.building
    requires IsFrame(b.table[i].stackFrame) && IsFrame(b.table[i].trapFrame)
    ensures var (mem', head') := KillFrees(mem, head, b.table[i]);
      !Orderly(mem', head', b.(free := free', table := Killed(b.table, i)), l, cur)
  {
    var p := b.table[i];
    var (mem', head') := KillFrees(mem, head, p);
    NoNull(mem, head, b.free, b.pool);
    hide Partition, Sound, Agrees, ForksAgree, TwoFrames, Tidy, IsList;
    if Orderly(mem', head', b.(free := free', table := Killed(b.table, i)), l, cur) {
      ListAfterKill(mem, head, p, free');
      assert free'[0] in free' && free'[1] in free';
      if p.stackFrame in b.free || p.trapFrame in b.free {
        KillOfFreeFrames(mem, head, b.free, p, free');
      } else {
        StaleFrame(b, i, free', p.stackFrame);
      }
    }
  }

  lemma NoNull(mem: Memory, head: int, free: seq<int>, pool: set<int>)
    requires Healthy(mem, head, free, pool)
    ensures IsList(mem, head, free) && NULL !in free
  {
  }

  /** kill_process keeps the books in order exactly when the slot it hits is live, not the current one, and not under
      construction. */
  lemma KillKeepsIff(mem: Memory, head: int, b: Books, l: Ledger, cur: int, pid: int, i: int)
    requires Orderly(mem, head, b, l, cur) && FirstWithPid(b.table, pid, i)
    ensures KillKeeps(mem, head, b, l, cur, i) <==> b.table[i].state != FREE && i != cur && i !in b.building
    ensures KillKeeps(mem, head, b, l, cur, i) <==> KillSafe(b, cur, pid)
  {
    hide Orderly;
    if i == cur {
      KillOfCurrent(mem, head, b, l, cur);
    } else if i in b.building {
      KillOfChild(mem, head, b, l, cur, i);
    } else if b.table[i].state != FREE {
      KillOfLive(mem, head, b, l, cur, i);
    } else {
      forall free' | IsFrame(b.table[i].stackFrame) && IsFrame(b.table[i].trapFrame)
        ensures !Orderly(KillFrees(mem, head, b.table[i]).0, KillFrees(mem, head, b.table[i]).1,
                         b.(free := free', table := Killed(b.table, i)), l, cur)
      {
        KillOfDead(mem, head, b, l, cur, i, free');
      }
    }
    OneFirst(b.table, pid, i);
  }

  lemma OneFirst(t: Table, pid: int, i: int)
    requires FirstWithPid(t, pid, i)
    ensures forall j :: FirstWithPid(t, pid, j) ==> j == i
  {
  }

  // ---- where it fails ------------------------------------------------------------------

  /** The current process is killed, and the next scheduler call makes it live again: its frames are on the list and
      its own at the same time. */
  lemma KilledCurrentKeepsFrames(s: Scheduling.Sys, b: Books, n: int, free': seq<int>)
    requires Scheduling.Shape(s) && Scheduling.Enabled(s, Scheduling.Kill(s.cur))
    requires Scheduling.Enabled(Scheduling.Apply(s, Scheduling.Kill(s.cur)), Scheduling.Schedule(n))
    requires b.table == s.procs && b.table[s.cur].stackFrame in free' && s.cur !in b.building
    ensures var t := Scheduling.Apply(Scheduling.Apply(s, Scheduling.Kill(s.cur)), Scheduling.Schedule(n));
      !Partition(b.(free := free', table := t.procs))
  {
    var t := Scheduling.Apply(Scheduling.Apply(s, Scheduling.Kill(s.cur)), Scheduling.Schedule(n));
    var b', f := b.(free := free', table := t.procs), b.table[s.cur].stackFrame;
    assert Holds(b', FreeList, f) && Holds(b', Slot(s.cur), f);
  }

  /** A child under construction is killed: the frames taken for it are on the list, and the fork goes on with them. */
  lemma KilledChildKeepsFrames(b: Books, i: int, free': seq<int>)
    requires 0 <= i < |b.table| && i in b.building && b.table[i].stackFrame in b.building[i]
    requires b.table[i].stackFrame in free'
    ensures !Partition(b.(free := free', table := Killed(b.table, i)))
  {
    var b', f := b.(free := free', table := Killed(b.table, i)), b.table[i].stackFrame;
    assert Holds(b', FreeList, f) && Holds(b', Slot(i), f);
  }

  /** A child that was dispatched while under construction is given up for want of a trap frame: it is the current
      process, the next scheduler call makes it live, and it claims NULL as its stack frame. */
  lemma AbandonedCurrentClaimsNull(s: Scheduling.Sys, b: Books, n: int)
    requires Scheduling.Shape(s) && s.cur in s.building
    requires Scheduling.Enabled(Scheduling.Apply(s, Scheduling.Abort(s.cur, NULL)), Scheduling.Schedule(n))
    requires forall f :: f in b.pool ==> IsFrame(f)
    requires var t := Scheduling.Apply(Scheduling.Apply(s, Scheduling.Abort(s.cur, NULL)), Scheduling.Schedule(n));
      b.table == t.procs
    requires s.cur !in b.building
    ensures !Partition(b)
  {
    assert Holds(b, Slot(s.cur), NULL);
  }

  /** A process is killed and leaves a free slot with pid 0; if no slot before it has pid 0, kill_process(0) frees the
      same two frames again and the free list becomes circular. */
  lemma KillZeroFreesTwice(mem: Memory, head: int, b: Books, l: Ledger, cur: int, i: int, free': seq<int>)
    requires Orderly(mem, head, b, l, cur) && 0 <= i < |b.table|
    requires b.table[i].state != FREE && i != cur && i !in b.building
    requires forall j :: 0 <= j < i ==> b.table[j].pid != 0
    ensures FirstWithPid(Killed(b.table, i), 0, i)
    ensures var (mem1, head1) := KillFrees(mem, head, b.table[i]);
      var (mem2, head2) := KillFrees(mem1, head1, Killed(b.table, i)[i]);
      !IsList(mem2, head2, free')
  {
    var p := b.table[i];
    var (mem1, head1) := KillFrees(mem, head, p);
    SlotApart(b, i);
    assert CanRelease(p, mem, b.free);
    NoNull(mem, head, b.free, b.pool);
    BothReleased(mem, head, b.free, p);
    hide Orderly, Partition, Sound, Agrees, ForksAgree, TwoFrames, Tidy, IsList, Healthy;
    var free1 := [p.trapFrame, p.stackFrame] + b.free;
    assert free1[1] in free1;
    SameFrees(mem1, head1, p, Killed(b.table, i)[i]);
    KillOfFreeFrames(mem1, head1, free1, p, free');
  }

  lemma SameFrees(mem: Memory, head: int, p: Proc, q: Proc)
    requires p.stackFrame == q.stackFrame && p.trapFrame == q.trapFrame
    ensures KillFrees(mem, head, p) == KillFrees(mem, head, q)
  {
  }

  // ---- the first process, as written ---------------------------------------------------

  /** create_first_process leaves the first frame in a local variable and slot 0 without a stack frame, so sp is
      computed from NULL. */
  method FirstProcessAsWritten(m: Kernel.Machine, a: Allocator) returns (ghost lost: int)
    requires m.Valid() && a.Valid() && |a.free| >= 2 && m.procs[0].stackFrame == NULL
    modifies m.procs, a
    ensures a.Valid() && lost == old(a.free)[0] && a.free == old(a.free)[2..]
    ensures m.procs[..] == old(m.procs[..])[0 := old(m.procs[0]).(
      regs := ZERO_REGS.(sp := StackTop(NULL)), trapFrame := old(a.free)[1], state := RUNNABLE, pid := 0)]
  {
    hide a.Valid;
    m.procs[0] := m.procs[0].(state := WAITING);
    lost := a.Kalloc();
    var trap := a.Kalloc();
    m.procs[0] := m.procs[0].(regs := ZERO_REGS);
    m.procs[0] := m.procs[0].(regs := m.procs[0].regs.(sp := StackTop(m.procs[0].stackFrame)));
    m.procs[0] := m.procs[0].(trapFrame := trap);
    m.procs[0] := m.procs[0].(state := RUNNABLE);
    m.procs[0] := m.procs[0].(pid := 0);
  }

  /** With such a slot no account of the frames is in order: the process claims NULL, which is no frame. */
  lemma FirstProcessBreaksPartition(b: Books)
    requires |b.table| > 0 && b.table[0].state != FREE && b.table[0].stackFrame == NULL && 0 !in b.building
    requires forall f :: f in b.pool ==> IsFrame(f)
    ensures !Partition(b)
  {
    assert Holds(b, Slot(0), NULL);
  }

  /** And killing it hands NULL to kfree first: whatever was free is lost, but for the trap frame. */
  lemma KillOfFirstLosesList(mem: Memory, head: int, p: Proc, free': seq<int>)
    requires p.stackFrame == NULL && p.trapFrame != NULL && NULL !in free'
    requires var (mem', head') := KillFrees(mem, head, p); IsList(mem', head', free')
    ensures free' == [p.trapFrame]
  {
    assert free'[0] == p.trapFrame && Link(free', 1) == NULL;
  }
}
