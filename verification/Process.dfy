/** The process table of kernel/process.c as values: slots, and what each kernel operation does to them. */
module Process {
  import opened Sets

  const PROCCNT := 64
  const NO_LOCK := 0

  datatype ProcState = FREE | RUNNING | RUNNABLE | WAITING | KILLED

  /** The registers switch_to saves and restores. */
  datatype Regs = Regs(x19: int, x20: int, x21: int, x22: int, x23: int, x24: int, x25: int, x26: int, x27: int,
                       x28: int, fp: int, lr: int, sp: int)

  const ZERO_REGS := Regs(0, 0, 0, 0, 0, 0, 0, 0, 0, 0, 0, 0, 0)

  /** struct process. Parents are slot numbers, locks are non-zero identifiers. */
  datatype Proc = Proc(regs: Regs, stackFrame: int, trapFrame: int, parent: int, pagetable: int,
                       state: ProcState, pid: int, waitOn: int)

  type Table = seq<Proc>

  // ---- pids ----------------------------------------------------------------------------

  predicate Used(t: Table, pid: int) {
    exists i :: 0 <= i < |t| && t[i].pid == pid
  }

  /** The least positive pid that no slot holds. */
  ghost predicate LeastUnused(t: Table, pid: int) {
    pid >= 1 && !Used(t, pid) && forall q :: 1 <= q < pid ==> Used(t, q)
  }

  ghost predicate PidsDistinct(t: Table) {
    forall i, j :: 0 <= i < j < |t| && t[i].pid != 0 ==> t[i].pid != t[j].pid
  }

  function PidSet(t: Table): set<int> {
    set i | 0 <= i < |t| :: t[i].pid
  }

  lemma {:induction false} PidSetSize(t: Table)
    ensures |PidSet(t)| <= |t|
  {
    if |t| > 0 {
      var s := t[..|t| - 1];
      PidSetSize(s);
      assert PidSet(t) == PidSet(s) + {t[|t| - 1].pid};
    } else {
      assert PidSet(t) == {};
    }
  }

  function UpTo(n: nat): set<int> {
    if n == 0 then {} else UpTo(n - 1) + {n}
  }

  lemma {:induction false} UpToSize(n: nat)
    ensures |UpTo(n)| == n && forall q :: q in UpTo(n) <==> 1 <= q <= n
  {
    if n > 0 {
      UpToSize(n - 1);
    }
  }

  /** Pigeonhole: a table of n slots cannot use more than n positive pids. */
  lemma PigeonholePids(t: Table, n: nat)
    requires forall q :: 1 <= q <= n ==> Used(t, q)
    ensures n <= |t|
  {
    UpToSize(n);
    forall q | q in UpTo(n) ensures q in PidSet(t) {
      assert Used(t, q);
    }
    PidSetSize(t);
    SubsetSize(UpTo(n), PidSet(t));
  }

  // ---- operations on the table ---------------------------------------------------------

  /** free_registers and the bookkeeping of kill_process. Frame pointers and wait_on stay as they were. */
  function Killed(t: Table, i: int): Table
    requires 0 <= i < |t|
  {
    t[i := t[i].(pid := 0, regs := ZERO_REGS, state := FREE)]
  }

  function Reserved(t: Table, i: int): Table
    requires 0 <= i < |t|
  {
    t[i := t[i].(state := WAITING)]
  }

  /** The stack pointer given to a child: element 4095 of an array of whole page frames. */
  function StackTop(stack: int): int {
    stack + 4095 * 4096
  }

  /** The finished child of `caller` in slot i. */
  function Published(t: Table, i: int, caller: int, stack: int, trap: int, pid: int): Table
    requires 0 <= i < |t| && 0 <= caller < |t|
  {
    t[i := t[i].(regs := t[caller].regs.(sp := StackTop(stack)), stackFrame := stack, trapFrame := trap,
                 pid := pid, parent := caller, state := RUNNABLE)]
  }

  function Slept(t: Table, cur: int, lk: int): Table
    requires 0 <= cur < |t|
  {
    t[cur := t[cur].(state := WAITING, waitOn := lk)]
  }

  function Woken(p: Proc, lk: int): Proc {
    if p.state == WAITING && p.waitOn == lk then p.(state := RUNNABLE, waitOn := NO_LOCK) else p
  }

  function Awake(t: Table, lk: int): Table {
    seq(|t|, i requires 0 <= i < |t| => Woken(t[i], lk))
  }

  // ---- round robin ---------------------------------------------------------------------

  /** Steps from slot c forward to slot n, going all the way round when they are equal. */
  function Dist(c: int, n: int): int {
    if n > c then n - c else n - c + PROCCNT
  }

  /** n is the first RUNNABLE slot after c in cyclic order, c itself coming last. */
  ghost predicate IsNext(t: Table, c: int, n: int) {
    && 0 <= n < |t| && t[n].state == RUNNABLE
    && forall k :: 0 <= k < |t| && t[k].state == RUNNABLE ==> Dist(c, n) <= Dist(c, k)
  }
}
