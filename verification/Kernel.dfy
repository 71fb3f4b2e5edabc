/** kernel/process.c and switch_to of kernel/user_context.S, on the real table and registers. */
module Kernel {
  import opened Process
  import opened Scheduling

  // ---- struct process as words (kernel/definitions.h) -----------------------------------

  /** The word at offset 8 * k of a process. */
  function Word(p: Proc, k: nat): int {
    match k
    case 0 => p.regs.x19 case 1 => p.regs.x20 case 2 => p.regs.x21 case 3 => p.regs.x22 case 4 => p.regs.x23
    case 5 => p.regs.x24 case 6 => p.regs.x25 case 7 => p.regs.x26 case 8 => p.regs.x27 case 9 => p.regs.x28
    case 10 => p.regs.fp case 11 => p.regs.lr case 12 => p.regs.sp
    case 13 => p.stackFrame case 14 => p.trapFrame case 15 => p.parent
    case _ => p.pagetable
  }

  function SetWord(p: Proc, k: nat, v: int): Proc
    requires k <= 12
  {
    var r := p.regs;
    p.(regs :=
      match k
      case 0 => r.(x19 := v) case 1 => r.(x20 := v) case 2 => r.(x21 := v) case 3 => r.(x22 := v) case 4 => r.(x23 := v)
      case 5 => r.(x24 := v) case 6 => r.(x25 := v) case 7 => r.(x26 := v) case 8 => r.(x27 := v) case 9 => r.(x28 := v)
      case 10 => r.(fp := v) case 11 => r.(lr := v)
      case _ => r.(sp := v))
  }

  /** stp: two registers to the pair of words at offset 16 * k. */
  function StorePair(p: Proc, k: nat, v: int, w: int): Proc
    requires k <= 5
  {
    SetWord(SetWord(p, 2 * k, v), 2 * k + 1, w)
  }

  lemma UsedAre(t: Table, pid: int)
    requires forall q :: 1 <= q < pid ==> Used(t, q)
    ensures forall q :: 1 <= q < pid ==> q in PidSet(t)
  {
    forall q | 1 <= q < pid ensures q in PidSet(t) {
      assert Used(t, q);
    }
  }

  class Machine {
    const procs: array<Proc>
    /** tpidr_el1 as a slot number, the callee-saved registers, and ttbr0_el1. */
    var cur: int
    var cpu: Regs
    var ttbr: int

    ghost predicate Valid()
      reads this
    {
      procs.Length == PROCCNT && 0 <= cur < PROCCNT
    }

    ghost function View(): Sys
      reads this, procs
    {
      Sys(procs[..], cur, {}, cpu, ttbr)
    }

    constructor (start: Sys)
      requires Shape(start)
      ensures Valid() && fresh(procs) && procs.Length == 64 && View() == start.(building := {})
    {
      procs := new Proc[PROCCNT](i requires 0 <= i < PROCCNT => start.procs[i]);
      cur, cpu, ttbr := start.cur, start.cpu, start.ttbr;
      new;
      assert procs[..] == start.procs;
    }

    /** switch_to, store by store and load by load. */
    method SwitchTo(prev: int, next: int)
      requires Valid() && 0 <= prev < PROCCNT && 0 <= next < PROCCNT
      modifies this, procs
      ensures Valid()
      ensures procs[..] == old(procs[..])[prev := old(procs[prev]).(regs := old(cpu))]
      ensures cpu == procs[next].regs && ttbr == procs[next].pagetable && cur == next
    {
      procs[prev] := StorePair(procs[prev], 0, cpu.x19, cpu.x20);
      procs[prev] := StorePair(procs[prev], 1, cpu.x21, cpu.x22);
      procs[prev] := StorePair(procs[prev], 2, cpu.x23, cpu.x24);
      procs[prev] := StorePair(procs[prev], 3, cpu.x25, cpu.x26);
      procs[prev] := StorePair(procs[prev], 4, cpu.x27, cpu.x28);
      procs[prev] := StorePair(procs[prev], 5, cpu.fp, cpu.lr);
      procs[prev] := SetWord(procs[prev], 12, cpu.sp);
      assert procs[prev].regs == cpu;
      var p := procs[next];
      cpu := cpu.(x19 := Word(p, 0), x20 := Word(p, 1));
      cpu := cpu.(x21 := Word(p, 2), x22 := Word(p, 3));
      cpu := cpu.(x23 := Word(p, 4), x24 := Word(p, 5));
      cpu := cpu.(x25 := Word(p, 6), x26 := Word(p, 7));
      cpu := cpu.(x27 := Word(p, 8), x28 := Word(p, 9));
      cpu := cpu.(fp := Word(p, 10), lr := Word(p, 11));
      cpu := cpu.(sp := Word(p, 12));
      ttbr := Word(p, 16);
      cur := next;
    }

    /** getpid: the byte counter stops at the least unused pid, 65 at the latest. */
    method GetPid() returns (pid: int)
      requires Valid()
      ensures LeastUnused(procs[..], pid) && 1 <= pid <= 65
      ensures forall i :: 0 <= i < procs.Length ==> procs[i].pid != pid
      ensures forall q :: 1 <= q < pid ==> q in PidSet(procs[..])
    {
      pid := 1;
      while true
        invariant 1 <= pid <= PROCCNT + 1
        invariant forall q :: 1 <= q < pid ==> Used(procs[..], q)
        decreases PROCCNT + 1 - pid
      {
        var i := 0;
        while i < PROCCNT
          invariant 0 <= i < PROCCNT
          invariant forall k :: 0 <= k < i ==> procs[k].pid != pid
        {
          if procs[i].pid == pid {
            break;
          }
          if i == PROCCNT - 1 {
            UsedAre(procs[..], pid);
            return;
          }
          i := i + 1;
        }
        assert procs[..][i].pid == pid;
        PigeonholePids(procs[..], pid);
        pid := pid + 1;
      }
    }

    /** scheduler: mark the current process RUNNABLE, find the next RUNNABLE slot, switch. */
    method Scheduler()
      requires Valid()
      modifies this, procs
      ensures Valid()
      ensures Enabled(old(View()), Schedule(cur)) && View() == Apply(old(View()), Schedule(cur))
      // the first RUNNABLE slot after the old one, else the first from slot 0 on; the old one itself is RUNNABLE
      ensures cur == old(cur) || old(procs[..])[cur].state == RUNNABLE
      ensures cur > old(cur) ==> forall k :: old(cur) < k < cur ==> old(procs[..])[k].state != RUNNABLE
      ensures cur <= old(cur) ==>
        forall k :: old(cur) < k < 64 || 0 <= k < cur ==> old(procs[..])[k].state != RUNNABLE
      // its registers and page table are loaded, those of the old one saved
      ensures procs[..] == old(procs[..])[old(cur) := old(procs[cur]).(state := RUNNABLE, regs := old(cpu))]
      ensures cpu == procs[cur].regs && ttbr == procs[cur].pagetable
    {
      procs[cur] := procs[cur].(state := RUNNABLE);
      ghost var marked := procs[..];
      assert forall k :: 0 <= k < 64 && k != old(cur) ==> marked[k] == old(procs[..])[k];
      var next := cur + 1;
      ghost var wrapped := false;
      while true
        invariant procs[..] == marked && cur == old(cur) && cpu == old(cpu)
        invariant 0 <= next <= PROCCNT
        invariant if wrapped then next == 0 else next == cur + 1
        invariant wrapped ==> forall k :: cur < k < PROCCNT ==> marked[k].state != RUNNABLE
        decreases !wrapped
      {
        while next < PROCCNT
          invariant procs[..] == marked && cur == old(cur) && cpu == old(cpu)
          invariant if wrapped then 0 <= next <= cur else cur < next <= PROCCNT
          invariant forall k :: (if wrapped then 0 else cur + 1) <= k < next ==> marked[k].state != RUNNABLE
          invariant wrapped ==> forall k :: cur < k < PROCCNT ==> marked[k].state != RUNNABLE
        {
          if procs[next].state == RUNNABLE {
            ScanFindsNext(old(View()), marked, next);
            ghost var last := cur;
            assert next > last ==> forall k :: last < k < next ==> old(procs[..])[k].state != RUNNABLE;
            assert next <= last ==>
              forall k :: last < k < 64 || 0 <= k < next ==> old(procs[..])[k].state != RUNNABLE;
            SwitchTo(cur, next);
            return;
          }
          assert marked[next].state != RUNNABLE;
          next := next + 1;
        }
        next, wrapped := 0, true;
      }
    }

    /** sleep, without the lock hand-over. */
    method Sleep(lk: int)
      requires Valid()
      modifies procs
      ensures procs[..] == Slept(old(procs[..]), cur, lk)
      ensures procs[..] == old(procs[..])[cur := old(procs[cur]).(state := WAITING, waitOn := lk)]
    {
      procs[cur] := procs[cur].(state := WAITING);
      procs[cur] := procs[cur].(waitOn := lk);
    }

    /** wakeup: one pass over the table. */
    method Wakeup(lk: int)
      requires Valid()
      modifies procs
      ensures procs[..] == Awake(old(procs[..]), lk)
      ensures forall k :: 0 <= k < procs.Length ==>
        if old(procs[k]).state == WAITING && old(procs[k]).waitOn == lk
        then procs[k] == old(procs[k]).(state := RUNNABLE, waitOn := 0)
        else procs[k] == old(procs[k])
    {
      var i := 0;
      while i < PROCCNT
        invariant 0 <= i <= PROCCNT
        invariant forall k :: 0 <= k < PROCCNT ==> procs[k] == if k < i then Woken(old(procs[k]), lk) else old(procs[k])
      {
        if procs[i].state == WAITING && procs[i].waitOn == lk {
          procs[i] := procs[i].(state := RUNNABLE);
          procs[i] := procs[i].(waitOn := NO_LOCK);
        }
        i := i + 1;
      }
    }
  }
}
