/** sys_fork and kill_process of kernel/process.c, with the frames they take and give back.
    The slot test of kill_process is the intended comparison; the stack copy is a whole-page copy. */
module Lifecycle {
  import opened Kalloc
  import opened Process
  import opened Kernel
  import Scheduling

  ghost predicate FirstWithPid(t: Table, pid: int, i: int) {
    0 <= i < |t| && t[i].pid == pid && forall j :: 0 <= j < i ==> t[j].pid != pid
  }

  ghost predicate FirstFree(t: Table, i: int) {
    0 <= i < |t| && t[i].state == FREE && forall j :: 0 <= j < i ==> t[j].state != FREE
  }

  predicate AnyFree(t: Table) {
    exists i :: 0 <= i < |t| && t[i].state == FREE
  }

  /** A slot's two frames can be handed to kfree one after the other. */
  predicate CanRelease(p: Proc, mem: Memory, free: seq<int>) {
    && p.stackFrame != p.trapFrame
    && p.stackFrame in mem && IsFrame(p.stackFrame) && p.stackFrame !in free
    && p.trapFrame in mem && IsFrame(p.trapFrame) && p.trapFrame !in free
  }

  /** The loop that reserves a slot; -1 when there is none. */
  method ReserveSlot(m: Machine) returns (slot: int)
    requires m.Valid()
    modifies m.procs
    ensures slot == -1 <==> !AnyFree(old(m.procs[..]))
    ensures slot == -1 ==> m.procs[..] == old(m.procs[..])
    ensures slot != -1 ==> FirstFree(old(m.procs[..]), slot) && m.procs[..] == Reserved(old(m.procs[..]), slot)
    ensures slot == -1 ==> forall j :: 0 <= j < 64 ==> old(m.procs[..])[j].state != FREE
    ensures slot != -1 ==>
      && 0 <= slot < 64 && old(m.procs[..])[slot].state == FREE
      && (forall j :: 0 <= j < slot ==> old(m.procs[..])[j].state != FREE)
      && m.procs[..] == old(m.procs[..])[slot := old(m.procs[..])[slot].(state := WAITING)]
  {
    slot := 0;
    while slot < PROCCNT
      invariant 0 <= slot <= PROCCNT
      invariant m.procs[..] == old(m.procs[..])
      invariant forall j :: 0 <= j < slot ==> m.procs[j].state != FREE
    {
      if m.procs[slot].state == FREE {
        m.procs[slot] := m.procs[slot].(state := WAITING);
        return;
      }
      slot := slot + 1;
    }
    slot := -1;
  }

  /** A failed fork leaves the table alone, but for the frame pointer of a slot that is FREE again. */
  ghost predicate Unforked(t: Table, t': Table) {
    |t'| == |t| && forall i :: 0 <= i < |t| ==>
      t'[i] == t[i] || (t[i].state == FREE && t'[i] == t[i].(stackFrame := t'[i].stackFrame))
  }

  lemma PoolListed(a: Allocator)
    requires a.Valid()
    ensures Distinct(a.free) && forall f :: f in a.free ==> f in a.pool && f in a.mem && IsFrame(f)
  {
  }

  /** The first allocation: the stack frame, or the slot is FREE again. */
  method ForkStack(m: Machine, a: Allocator, i: int) returns (stack: int)
    requires m.Valid() && a.Valid() && 0 <= i < PROCCNT
    modifies m.procs, a
    ensures a.Valid() && a.pool == old(a.pool) && a.mem.Keys == old(a.mem).Keys
    ensures stack == NULL <==> old(a.free) == []
    ensures stack != NULL ==>
      && old(a.free) == [stack] + a.free && a.mem == old(a.mem)[stack := ZeroPage()]
      && m.procs[..] == old(m.procs[..])[i := old(m.procs[i]).(stackFrame := stack)]
    ensures stack == NULL ==>
      && a.free == old(a.free) && a.mem == old(a.mem)
      && m.procs[..] == old(m.procs[..])[i := old(m.procs[i]).(state := FREE)]
  {
    hide a.Valid, IsFrame;
    PoolListed(a);
    stack := a.Kalloc();
    if stack == NULL {
      m.procs[i] := m.procs[i].(state := FREE);
    } else {
      assert old(a.free)[0] in old(a.free);
      m.procs[i] := m.procs[i].(stackFrame := stack);
    }
  }

  /** The second: the trap frame, or the stack frame goes back and the slot is FREE again. */
  method ForkTrap(m: Machine, a: Allocator, i: int, stack: int) returns (trap: int)
    requires m.Valid() && a.Valid() && 0 <= i < PROCCNT
    requires stack in a.pool && stack !in a.free
    modifies m.procs, a
    ensures a.Valid() && a.pool == old(a.pool) && a.mem.Keys == old(a.mem).Keys
    ensures trap == NULL <==> old(a.free) == []
    ensures trap != NULL ==>
      && old(a.free) == [trap] + a.free && a.mem == old(a.mem)[trap := ZeroPage()]
      && m.procs[..] == old(m.procs[..])[i := old(m.procs[i]).(trapFrame := trap)]
    ensures trap == NULL ==>
      && a.free == [stack] && (forall g :: g in a.mem && g != stack ==> a.mem[g] == old(a.mem)[g])
      && m.procs[..] == old(m.procs[..])[i := old(m.procs[i]).(state := FREE, stackFrame := NULL)]
  {
    PoolFrame(a, stack);
    PoolListed(a);
    hide a.Valid, IsFrame;
    trap := a.Kalloc();
    if trap == NULL {
      a.Kfree(stack);
      m.procs[i] := m.procs[i].(state := FREE);
      m.procs[i] := m.procs[i].(stackFrame := NULL);
    } else {
      assert old(a.free)[0] in old(a.free);
      m.procs[i] := m.procs[i].(trapFrame := trap);
    }
  }

  /** The two allocations: both frames, or neither and the slot FREE again. */
  method ForkFrames(m: Machine, a: Allocator, i: int) returns (stack: int, trap: int)
    requires m.Valid() && a.Valid() && 0 <= i < PROCCNT
    modifies m.procs, a
    ensures a.Valid() && a.pool == old(a.pool) && a.mem.Keys == old(a.mem).Keys
    ensures trap != NULL <==> |old(a.free)| >= 2
    ensures trap != NULL ==>
      && stack == old(a.free)[0] && trap == old(a.free)[1] && a.free == old(a.free)[2..]
      && stack in a.mem && stack !in a.free && trap !in a.free && stack != trap
      && a.mem == old(a.mem)[stack := ZeroPage()][trap := ZeroPage()]
      && m.procs[..] == old(m.procs[..])[i := old(m.procs[i]).(stackFrame := stack, trapFrame := trap)]
    ensures trap == NULL ==> a.free == old(a.free)
    ensures trap == NULL ==>
      m.procs[..] == old(m.procs[..])[i := old(m.procs[i]).(state := FREE, stackFrame := m.procs[i].stackFrame)]
    ensures forall g :: g in a.mem && g !in old(a.free) ==> a.mem[g] == old(a.mem)[g]
  {
    PoolListed(a);
    hide a.Valid, IsFrame;
    trap := NULL;
    stack := ForkStack(m, a, i);
    if stack != NULL {
      FirstApart(stack, a.free);
      trap := ForkTrap(m, a, i, stack);
    }
  }

  lemma FirstApart(f: int, rest: seq<int>)
    requires Distinct([f] + rest)
    ensures f !in rest && f in [f] + rest
  {
    forall i | 0 <= i < |rest| ensures rest[i] != f {
      assert ([f] + rest)[i + 1] == rest[i] && ([f] + rest)[0] == f;
    }
    assert ([f] + rest)[0] == f;
  }

  /** Registers, pid, parent and state of the child. */
  method BuildChild(m: Machine, i: int, caller: int, stack: int) returns (pid: int)
    requires m.Valid() && 0 <= i < PROCCNT && 0 <= caller < PROCCNT && i != caller
    modifies m.procs
    ensures LeastUnused(old(m.procs[..]), pid) && pid <= PROCCNT + 1
    ensures m.procs[..] == old(m.procs[..])[i := old(m.procs[i]).(
      regs := old(m.procs[caller]).regs.(sp := StackTop(stack)), pid := pid, parent := caller, state := RUNNABLE)]
  {
    m.procs[i] := m.procs[i].(regs := ZERO_REGS.(sp := StackTop(stack)));
    var from := m.procs[caller].regs;
    m.procs[i] := m.procs[i].(regs := from.(sp := m.procs[i].regs.sp));
    pid := m.GetPid();
    SamePids(old(m.procs[..]), m.procs[..], pid);
    m.procs[i] := m.procs[i].(pid := pid);
    m.procs[i] := m.procs[i].(parent := caller);
    m.procs[i] := m.procs[i].(state := RUNNABLE);
  }

  lemma SamePids(t: Table, t': Table, pid: int)
    requires |t| == |t'| && (forall i :: 0 <= i < |t| ==> t'[i].pid == t[i].pid) && LeastUnused(t', pid)
    ensures LeastUnused(t, pid)
  {
    forall q ensures Used(t, q) <==> Used(t', q) {
      if Used(t, q) {
        var i :| 0 <= i < |t| && t[i].pid == q;
        assert t'[i].pid == q;
      }
    }
  }

  /** Field by field: what a fork puts into the child's slot. */
  lemma PublishedFields(t: Table, i: int, caller: int, stack: int, trap: int, pid: int)
    requires 0 <= i < |t| && 0 <= caller < |t|
    ensures var t' := Published(t, i, caller, stack, trap, pid);
      && |t'| == |t| && (forall k :: 0 <= k < |t| && k != i ==> t'[k] == t[k])
      && t'[i].stackFrame == stack && t'[i].trapFrame == trap && t'[i].pid == pid && t'[i].parent == caller
      && t'[i].state == RUNNABLE && t'[i].pagetable == t[i].pagetable && t'[i].waitOn == t[i].waitOn
      && t'[i].regs == t[caller].regs.(sp := stack + 4095 * 4096)
  {
  }

  /** ... what a kill takes out of one ... */
  lemma KilledFields(t: Table, i: int)
    requires 0 <= i < |t|
    ensures var t' := Killed(t, i);
      && |t'| == |t| && (forall k :: 0 <= k < |t| && k != i ==> t'[k] == t[k])
      && t'[i] == t[i].(pid := 0, state := FREE, regs := Regs(0, 0, 0, 0, 0, 0, 0, 0, 0, 0, 0, 0, 0))
  {
  }

  /** ... and which frames it gives away, in which order. */
  lemma KillFreesBoth(mem: Memory, head: int, p: Proc)
    requires p.stackFrame != p.trapFrame
    ensures var (mem', head') := KillFrees(mem, head, p);
      && head' == p.trapFrame && p.trapFrame in mem' && p.stackFrame in mem'
      && |mem'[p.trapFrame]| == 512 == |mem'[p.stackFrame]|
      && mem'[p.trapFrame][0] == p.stackFrame && mem'[p.stackFrame][0] == head
      && (forall i :: 1 <= i < 512 ==> mem'[p.trapFrame][i] == 0 == mem'[p.stackFrame][i])
      && forall g :: g in mem && g != p.stackFrame && g != p.trapFrame ==> g in mem' && mem'[g] == mem[g]
  {
  }

  /** The page copied to the child: the caller's stack frame, cleared if it was free and has just been allocated. */
  function StackImage(mem: Memory, free: seq<int>, from: int, stray: seq<int>): seq<int>
    requires |free| >= 2
  {
    if from == free[0] || from == free[1] then ZeroPage() else if from in mem then mem[from] else stray
  }

  method CopyStack(a: Allocator, from: int, to: int, stray: seq<int>)
    requires a.Valid() && to in a.mem && to !in a.free && |stray| == WORDS
    modifies a`mem
    ensures a.Valid() && a.mem == old(a.mem)[to := if from in old(a.mem) then old(a.mem)[from] else stray]
  {
    if from in a.mem {
      a.CopyPage(from, to);
    } else {
      a.mem := a.mem[to := stray];
    }
  }

  /** sys_fork by the current process; 0 stands for reaching the end of the function. `stray` is what is read where
      the caller's stack_frame does not point to known memory, as when it was never set. */
  method SysFork(m: Machine, a: Allocator, stray: seq<int>) returns (code: int, ghost slot: int, ghost pid: int)
    requires m.Valid() && a.Valid() && m.procs[m.cur].state != FREE && |stray| == WORDS
    modifies m.procs, a
    ensures a.Valid() && a.pool == old(a.pool) && a.mem.Keys == old(a.mem).Keys
    ensures code == if AnyFree(old(m.procs[..])) && |old(a.free)| >= 2 then 0 else -1
    // all ...
    ensures code == 0 ==>
      && FirstFree(old(m.procs[..]), slot) && LeastUnused(old(m.procs[..]), pid) && pid <= 65
      && a.free == old(a.free)[2..]
      && m.procs[..] == Published(old(m.procs[..]), slot, m.cur, old(a.free)[0], old(a.free)[1], pid)
      && a.mem[old(a.free)[0]] == StackImage(old(a.mem), old(a.free), old(m.procs[m.cur]).stackFrame, stray)
    // the child's stack holds what the caller's did
    ensures var from := old(m.procs[m.cur]).stackFrame;
      code == 0 && from in old(a.mem) && from !in old(a.free) ==>
        old(a.free)[0] in a.mem && a.mem[old(a.free)[0]] == old(a.mem)[from]
    // ... or nothing
    ensures code == -1 ==> a.free == old(a.free) && Unforked(old(m.procs[..]), m.procs[..])
    ensures forall g :: g in a.mem && g !in old(a.free) ==> a.mem[g] == old(a.mem)[g]
  {
    var i := ReserveSlot(m);
    slot, pid := i, 0;
    if i == -1 {
      return -1, slot, pid;
    }
    assert i != m.cur;
    ghost var caller := m.procs[m.cur];
    hide LeastUnused, IsList, AnyFree;
    var stack, trap := ForkFrames(m, a, i);
    if trap == NULL {
      return -1, slot, pid;
    }
    assert m.procs[m.cur] == caller;
    CopyStack(a, m.procs[m.cur].stackFrame, stack, stray);
    ghost var before := m.procs[..];
    var p := BuildChild(m, i, m.cur, stack);
    pid := p;
    SamePids(old(m.procs[..]), before, pid);
    code := 0;
  }

  /** What the two kfree calls of kill_process write. */
  function KillFrees(mem: Memory, head: int, p: Proc): (Memory, int) {
    (mem[p.stackFrame := ZeroPage()[0 := head]][p.trapFrame := ZeroPage()[0 := p.stackFrame]], p.trapFrame)
  }

  /** kill_process: the first slot with this pid is cleared and both its frames are handed to kfree, whatever they
      are. If they can be released, they go back to the list. */
  method KillProcess(m: Machine, a: Allocator, pid: int) returns (code: int, ghost slot: int)
    requires m.Valid() && a.Valid()
    modifies m.procs, a
    ensures code == if Used(old(m.procs[..]), pid) then 0 else -1
    ensures code == -1 ==>
      m.procs[..] == old(m.procs[..]) && a.free == old(a.free) && a.mem == old(a.mem) && a.pool == old(a.pool)
    ensures code == -1 ==> a.Valid()
    ensures code == 0 ==>
      && FirstWithPid(old(m.procs[..]), pid, slot)
      && m.procs[..] == Killed(old(m.procs[..]), slot)
      && m.procs[..] == old(m.procs[..])[slot := old(m.procs[..])[slot].(
           pid := 0, state := FREE, regs := Regs(0, 0, 0, 0, 0, 0, 0, 0, 0, 0, 0, 0, 0))]
      && (a.mem, a.head) == KillFrees(old(a.mem), old(a.head), old(m.procs[..])[slot])
    ensures code == 0 && CanRelease(old(m.procs[..])[slot], old(a.mem), old(a.free)) ==>
      var p := old(m.procs[..])[slot];
      && a.Valid() && a.mem.Keys == old(a.mem).Keys
      && a.free == [p.trapFrame, p.stackFrame] + old(a.free)
      && a.pool == old(a.pool) + {p.stackFrame, p.trapFrame}
  {
    var i := FindPid(m, pid);
    slot := i;
    if i == -1 {
      return -1, slot;
    }
    ghost var p := m.procs[i];
    m.procs[i] := m.procs[i].(state := ProcState.KILLED);
    m.procs[i] := m.procs[i].(pid := 0);
    m.procs[i] := m.procs[i].(regs := ZERO_REGS);
    ReleaseBoth(a, m.procs[i].stackFrame, m.procs[i].trapFrame, p);
    m.procs[i] := m.procs[i].(state := FREE);
    code := 0;
  }

  /** The two kfree calls. */
  method ReleaseBoth(a: Allocator, stack: int, trap: int, ghost p: Proc)
    requires a.Valid() && p.stackFrame == stack && p.trapFrame == trap
    modifies a
    ensures (a.mem, a.head) == KillFrees(old(a.mem), old(a.head), p)
    ensures CanRelease(p, old(a.mem), old(a.free)) ==>
      && a.Valid() && a.mem.Keys == old(a.mem).Keys
      && a.free == [trap, stack] + old(a.free) && a.pool == old(a.pool) + {stack, trap}
  {
    ghost var mem, head := a.mem, a.head;
    a.Release(stack);
    a.Release(trap);
    if CanRelease(p, mem, a.free) {
      BothReleased(mem, head, a.free, p);
      a.free := [trap, stack] + a.free;
      a.pool := a.pool + {stack, trap};
    }
  }

  lemma BothReleased(mem: Memory, head: int, free: seq<int>, p: Proc)
    requires IsList(mem, head, free) && CanRelease(p, mem, free)
    ensures var (mem', head') := KillFrees(mem, head, p);
      IsList(mem', head', [p.trapFrame, p.stackFrame] + free) && mem'.Keys == mem.Keys
  {
    var mid := mem[p.stackFrame := ZeroPage()[0 := head]];
    ListExtends(mem, head, free, p.stackFrame);
    ListExtends(mid, p.stackFrame, [p.stackFrame] + free, p.trapFrame);
    assert [p.trapFrame] + ([p.stackFrame] + free) == [p.trapFrame, p.stackFrame] + free;
  }

  /** The slot search of kill_process; -1 when no slot holds the pid. */
  method FindPid(m: Machine, pid: int) returns (slot: int)
    requires m.Valid()
    ensures slot == -1 <==> !Used(m.procs[..], pid)
    ensures slot != -1 ==> FirstWithPid(m.procs[..], pid, slot)
    ensures slot == -1 ==> forall j :: 0 <= j < 64 ==> m.procs[j].pid != pid
    ensures slot != -1 ==>
      0 <= slot < 64 && m.procs[slot].pid == pid && forall j :: 0 <= j < slot ==> m.procs[j].pid != pid
  {
    slot := 0;
    while slot < PROCCNT
      invariant 0 <= slot <= PROCCNT
      invariant forall j :: 0 <= j < slot ==> m.procs[j].pid != pid
    {
      if m.procs[slot].pid == pid {
        assert m.procs[..][slot].pid == pid;
        return;
      }
      slot := slot + 1;
    }
    slot := -1;
  }

  /** The search as written, where the loop's end test assigns: only slot 0 is ever examined. */
  function LiteralFind(t: Table, pid: int): int
    requires |t| > 0
  {
    if t[0].pid == pid then 0 else -1
  }

  /** The written search finds the right slot exactly for the pid in slot 0 and for pids nobody has. */
  lemma LiteralFindAgrees(t: Table, pid: int, slot: int)
    requires |t| > 0
    requires if slot == -1 then !Used(t, pid) else FirstWithPid(t, pid, slot)
    ensures LiteralFind(t, pid) == slot <==> t[0].pid == pid || !Used(t, pid)
  {
    if slot != -1 {
      assert t[slot].pid == pid;
    }
  }

  /** The child's stack pointer never lies in its stack frame: the index counts frames, not bytes. */
  lemma StackTopOutsideFrame(stack: int)
    ensures !(stack <= StackTop(stack) <= stack + PAGE_SIZE)
  {
  }

  // ---- fork and kill as steps of a run -------------------------------------------------

  /** A completed fork is a reservation followed by a publication. */
  lemma ForkRefinesSteps(s: Scheduling.Sys, slot: int, stack: int, trap: int, pid: int)
    requires Scheduling.Shape(s) && FirstFree(s.procs, slot) && LeastUnused(s.procs, pid)
    requires s.procs[s.cur].state != FREE
    ensures var run := [Scheduling.Reserve(slot), Scheduling.Publish(slot, stack, trap, pid)];
      Scheduling.Legal(s, run) && Scheduling.After(s, run).procs == Published(s.procs, slot, s.cur, stack, trap, pid)
  {
    var run := [Scheduling.Reserve(slot), Scheduling.Publish(slot, stack, trap, pid)];
    var s1 := Scheduling.Apply(s, run[0]);
    SamePids(s1.procs, s.procs, pid);
    Scheduling.Run2(s, run[0], run[1]);
  }

  /** A fork that fails after reserving is a reservation that is given up. */
  lemma FailedForkRefinesSteps(s: Scheduling.Sys, slot: int, stack: int)
    requires Scheduling.Shape(s) && FirstFree(s.procs, slot)
    ensures var run := [Scheduling.Reserve(slot), Scheduling.Abort(slot, stack)];
      Scheduling.Legal(s, run) && Scheduling.After(s, run).procs == s.procs[slot := s.procs[slot].(stackFrame := stack)]
  {
    Scheduling.Run2(s, Scheduling.Reserve(slot), Scheduling.Abort(slot, stack));
  }

  /** Killing by a pid in use is a kill step of the first slot that has it. */
  lemma KillRefinesStep(s: Scheduling.Sys, pid: int, slot: int)
    requires Scheduling.Shape(s) && FirstWithPid(s.procs, pid, slot)
    ensures Scheduling.Enabled(s, Scheduling.Kill(slot))
    ensures Scheduling.Apply(s, Scheduling.Kill(slot)).procs == Killed(s.procs, slot)
  {
  }
}
