/** Runs of the process subsystem: any interleaving of scheduling, fork (split where it can be
    interrupted), kill, sleep, wakeup and ordinary execution. */
module Scheduling {
  import opened Process

  /** Process table, current slot, children under construction, and the CPU's registers and translation base. */
  datatype Sys = Sys(procs: Table, cur: int, building: set<int>, cpu: Regs, ttbr: int)

  datatype Step =
    | Schedule(next: int)
    | Reserve(slot: int)
    | Abort(slot: int, stack: int)
    | Publish(slot: int, stack: int, trap: int, pid: int)
    | Kill(slot: int)
    | Sleep(lk: int)
    | Wakeup(lk: int)
    | Execute(regs: Regs)

  predicate Shape(s: Sys) {
    |s.procs| == PROCCNT && 0 <= s.cur < PROCCNT && forall b :: b in s.building ==> 0 <= b < PROCCNT
  }

  /** The table with the current process saved and marked RUNNABLE, as the scheduler leaves it. */
  function SwitchedOut(s: Sys): Table
    requires Shape(s)
  {
    s.procs[s.cur := s.procs[s.cur].(state := RUNNABLE, regs := s.cpu)]
  }

  ghost predicate Enabled(s: Sys, step: Step)
    requires Shape(s)
  {
    match step
    case Schedule(n) => IsNext(SwitchedOut(s), s.cur, n)
    case Reserve(i) => 0 <= i < PROCCNT && s.procs[i].state == FREE && forall j :: 0 <= j < i ==>
      s.procs[j].state != FREE
    case Abort(i, _) => i in s.building
    case Publish(i, _, _, pid) => i in s.building && LeastUnused(s.procs, pid)
    case Kill(i) => 0 <= i < PROCCNT && forall j :: 0 <= j < i ==> s.procs[j].pid != s.procs[i].pid
    case Sleep(lk) => lk != NO_LOCK
    case Wakeup(lk) => lk != NO_LOCK
    case Execute(_) => true
  }

  ghost function Apply(s: Sys, step: Step): Sys
    requires Shape(s) && Enabled(s, step)
  {
    match step
    case Schedule(n) =>
      var t := SwitchedOut(s);
      s.(procs := t, cur := n, cpu := t[n].regs, ttbr := t[n].pagetable)
    case Reserve(i) => s.(procs := Reserved(s.procs, i), building := s.building + {i})
    case Abort(i, stack) =>
      s.(procs := s.procs[i := s.procs[i].(state := FREE, stackFrame := stack)], building := s.building - {i})
    case Publish(i, stack, trap, pid) =>
      s.(procs := Published(s.procs, i, s.cur, stack, trap, pid), building := s.building - {i})
    case Kill(i) => s.(procs := Killed(s.procs, i))
    case Sleep(lk) => s.(procs := Slept(s.procs, s.cur, lk))
    case Wakeup(lk) => s.(procs := Awake(s.procs, lk))
    case Execute(regs) => s.(cpu := regs)
  }

  ghost predicate Legal(s: Sys, steps: seq<Step>)
    decreases |steps|
  {
    steps == [] || (Shape(s) && Enabled(s, steps[0]) && Legal(Apply(s, steps[0]), steps[1..]))
  }

  /** The state after a run. */
  ghost function After(s: Sys, steps: seq<Step>): Sys
    requires Legal(s, steps)
    decreases |steps|
  {
    if steps == [] then s else After(Apply(s, steps[0]), steps[1..])
  }

  // ---- what every run keeps ------------------------------------------------------------

  /** Shape, distinct non-zero pids that fit in a byte, and the current slot's translation base in force. */
  ghost predicate Inv(s: Sys) {
    && Shape(s)
    && PidsDistinct(s.procs)
    && (forall i :: 0 <= i < |s.procs| ==> 0 <= s.procs[i].pid <= PROCCNT + 1)
    && s.ttbr == s.procs[s.cur].pagetable
  }

  lemma StepKeepsInv(s: Sys, step: Step)
    requires Inv(s) && Enabled(s, step)
    ensures Inv(Apply(s, step))
  {
    if step.Publish? {
      PigeonholePids(s.procs, step.pid - 1);
      assert forall i :: 0 <= i < |s.procs| ==> s.procs[i].pid != step.pid by {
        assert !Used(s.procs, step.pid);
      }
    }
  }

  lemma {:induction false} RunKeepsInv(s: Sys, steps: seq<Step>)
    requires Inv(s) && Legal(s, steps)
    ensures Inv(After(s, steps))
    decreases |steps|
  {
    if steps != [] {
      StepKeepsInv(s, steps[0]);
      RunKeepsInv(Apply(s, steps[0]), steps[1..]);
    }
  }

  /** The scheduler's choice is determined by the table. */
  lemma NextIsUnique(t: Table, c: int, m: int, n: int)
    requires |t| == PROCCNT && IsNext(t, c, m) && IsNext(t, c, n)
    ensures m == n
  {
    assert Dist(c, m) == Dist(c, n);
  }

  /** What the scheduler's two scans establish about the slot they stop at. */
  lemma ScanFindsNext(s: Sys, marked: Table, next: int)
    requires Shape(s) && marked == s.procs[s.cur := s.procs[s.cur].(state := RUNNABLE)]
    requires 0 <= next < PROCCNT && marked[next].state == RUNNABLE
    requires if next > s.cur then forall k :: s.cur < k < next ==> marked[k].state != RUNNABLE
             else forall k :: 0 <= k < next || s.cur < k < PROCCNT ==> marked[k].state != RUNNABLE
    ensures Enabled(s, Schedule(next))
    ensures Apply(s, Schedule(next)).procs == marked[s.cur := marked[s.cur].(regs := s.cpu)]
  {
    var t := SwitchedOut(s);
    assert forall k :: 0 <= k < PROCCNT ==> t[k].state == marked[k].state;
  }

  // ---- bounded waiting -----------------------------------------------------------------

  /** p is RUNNABLE in every state of the run. */
  ghost predicate StaysRunnable(s: Sys, steps: seq<Step>, p: int)
    requires Legal(s, steps)
    decreases |steps|
  {
    0 <= p < |s.procs| && s.procs[p].state == RUNNABLE &&
    (steps != [] ==> StaysRunnable(Apply(s, steps[0]), steps[1..], p))
  }

  function Switches(steps: seq<Step>): nat {
    if steps == [] then 0 else (if steps[0].Schedule? then 1 else 0) + Switches(steps[1..])
  }

  /** Some scheduler call of the run hands the CPU to p. */
  predicate Dispatched(steps: seq<Step>, p: int) {
    exists k :: 0 <= k < |steps| && steps[k] == Schedule(p)
  }

  /** Round robin: each scheduler call dispatches p or brings the current slot closer to it. */
  lemma CloserOrDispatched(s: Sys, n: int, p: int)
    requires Shape(s) && Enabled(s, Schedule(n)) && 0 <= p < PROCCNT && p != s.cur && s.procs[p].state == RUNNABLE
    ensures n == p || 1 <= Dist(n, p) < Dist(s.cur, p)
  {
    assert SwitchedOut(s)[p].state == RUNNABLE;
  }

  /** A waiting process that stays RUNNABLE is dispatched within Dist(cur, p) <= 63 scheduler calls. */
  lemma {:induction false} BoundedWaiting(s: Sys, steps: seq<Step>, p: int)
    requires Inv(s) && Legal(s, steps) && p != s.cur && StaysRunnable(s, steps, p)
    requires Switches(steps) >= Dist(s.cur, p)
    ensures Dispatched(steps, p)
    ensures Dist(s.cur, p) <= 63
    decreases |steps|
  {
    if steps != [] {
      StepKeepsInv(s, steps[0]);
      if steps[0] == Schedule(p) {
        return;
      }
      if steps[0].Schedule? {
        CloserOrDispatched(s, steps[0].next, p);
      }
      var s' := Apply(s, steps[0]);
      BoundedWaiting(s', steps[1..], p);
      var k :| 0 <= k < |steps[1..]| && steps[1..][k] == Schedule(p);
      assert steps[k + 1] == Schedule(p);
    }
  }

  // ---- context preservation ------------------------------------------------------------

  /** A slot that holds a finished process. */
  predicate Live(s: Sys, p: int) {
    0 <= p < |s.procs| && s.procs[p].state != FREE && p !in s.building
  }

  /** Until the last step p is off the CPU, and nobody kills it. */
  ghost predicate Away(s: Sys, steps: seq<Step>, p: int)
    requires Legal(s, steps)
    decreases |steps|
  {
    steps != [] ==> s.cur != p && steps[0] != Kill(p) && Away(Apply(s, steps[0]), steps[1..], p)
  }

  lemma StepKeepsContext(s: Sys, step: Step, p: int)
    requires Shape(s) && Enabled(s, step) && Live(s, p) && s.cur != p && step != Kill(p)
    ensures Live(Apply(s, step), p)
    ensures Apply(s, step).procs[p].regs == s.procs[p].regs
    ensures Apply(s, step).procs[p].pagetable == s.procs[p].pagetable
    ensures Apply(s, step).cur == p ==> Apply(s, step).cpu == s.procs[p].regs
  {
  }

  lemma {:induction false} ContextKept(s: Sys, steps: seq<Step>, p: int)
    requires Inv(s) && Legal(s, steps) && Live(s, p) && s.cur != p && Away(s, steps, p)
    ensures var t := After(s, steps);
      p < |t.procs| && t.procs[p].regs == s.procs[p].regs && t.procs[p].pagetable == s.procs[p].pagetable
    ensures After(s, steps).cur == p ==> After(s, steps).cpu == s.procs[p].regs
    decreases |steps|
  {
    if steps != [] {
      var s' := Apply(s, steps[0]);
      StepKeepsInv(s, steps[0]);
      StepKeepsContext(s, steps[0], p);
      if steps[1..] == [] {
        assert After(s, steps) == s';
      } else {
        ContextKept(s', steps[1..], p);
      }
    }
  }

  /** A process that is switched out and not killed resumes with the registers it had,
      on its own page table, whatever ran in between. */
  lemma ContextPreserved(s: Sys, next: int, steps: seq<Step>)
    requires Inv(s) && Live(s, s.cur) && next != s.cur
    requires Legal(s, [Schedule(next)] + steps)
    requires Away(Apply(s, Schedule(next)), steps, s.cur)
    ensures var t := After(Apply(s, Schedule(next)), steps);
      t.cur == s.cur ==> t.cpu == s.cpu && t.ttbr == s.ttbr
  {
    var run := [Schedule(next)] + steps;
    assert run[0] == Schedule(next) && run[1..] == steps;
    StepKeepsInv(s, Schedule(next));
    var s1 := Apply(s, Schedule(next));
    ContextKept(s1, steps, s.cur);
    RunKeepsInv(s1, steps);
  }

  // ---- sleepers ------------------------------------------------------------------------

  /** p waits for lock lk, off the CPU. */
  predicate SleepsOn(s: Sys, p: int, lk: int) {
    0 <= p < |s.procs| && p != s.cur && p !in s.building && s.procs[p].state == WAITING && s.procs[p].waitOn == lk
  }

  lemma StepLeavesAsleep(s: Sys, step: Step, p: int, lk: int)
    requires Shape(s) && Enabled(s, step) && SleepsOn(s, p, lk) && step != Kill(p) && step != Wakeup(lk)
    ensures SleepsOn(Apply(s, step), p, lk) && Apply(s, step).procs[p] == s.procs[p]
  {
  }

  /** In every run in which nobody kills it or wakes this lock, a sleeper stays as it is and is never dispatched. */
  lemma {:induction false} SleeperStays(s: Sys, steps: seq<Step>, p: int, lk: int)
    requires Inv(s) && Legal(s, steps) && SleepsOn(s, p, lk) && Kill(p) !in steps && Wakeup(lk) !in steps
    ensures SleepsOn(After(s, steps), p, lk) && After(s, steps).procs[p] == s.procs[p] && !Dispatched(steps, p)
    decreases |steps|
  {
    if steps != [] {
      assert steps[0] in steps && steps[0] != Schedule(p);
      StepLeavesAsleep(s, steps[0], p, lk);
      StepKeepsInv(s, steps[0]);
      SleeperStays(Apply(s, steps[0]), steps[1..], p, lk);
      forall k | 0 <= k < |steps| ensures steps[k] != Schedule(p) {
        assert k > 0 ==> steps[k] == steps[1..][k - 1];
      }
    }
  }

  /** After any such run, a wakeup makes it RUNNABLE exactly if it is for its own lock. */
  lemma WokenByItsLock(s: Sys, steps: seq<Step>, p: int, lk: int, lk': int)
    requires Inv(s) && Legal(s, steps) && SleepsOn(s, p, lk) && Kill(p) !in steps && Wakeup(lk) !in steps && lk' != 0
    ensures var t := After(s, steps);
      && Shape(t) && Enabled(t, Wakeup(lk')) && p < |Apply(t, Wakeup(lk')).procs|
      && (Apply(t, Wakeup(lk')).procs[p].state == RUNNABLE <==> lk' == lk)
      && (lk' == lk ==> Apply(t, Wakeup(lk')).procs[p] == s.procs[p].(state := RUNNABLE, waitOn := 0))
      && (lk' != lk ==> Apply(t, Wakeup(lk')).procs[p] == s.procs[p])
  {
    SleeperStays(s, steps, p, lk);
    RunKeepsInv(s, steps);
  }

  /** What sleep leaves behind: the current process waits for the lock it was given. */
  lemma SleepsOnWhatItWasGiven(s: Sys, lk: int)
    requires Shape(s) && lk != 0
    ensures Enabled(s, Sleep(lk))
    ensures var t := Apply(s, Sleep(lk));
      && |t.procs| == |s.procs| && t.procs[s.cur] == s.procs[s.cur].(state := WAITING, waitOn := lk)
      && forall k :: 0 <= k < |s.procs| && k != s.cur ==> t.procs[k] == s.procs[k]
  {
  }

  // ---- half-built children -------------------------------------------------------------

  /** A kill that hits a slot waiting for no lock, not the current one, and no child under construction. */
  predicate CleanKill(s: Sys, i: int)
    requires 0 <= i < |s.procs|
  {
    s.procs[i].waitOn == NO_LOCK && i != s.cur && i !in s.building
  }

  /** Every kill of the run is clean. */
  ghost predicate CleanKills(s: Sys, steps: seq<Step>)
    requires Legal(s, steps)
    decreases |steps|
  {
    steps != [] ==>
      && (steps[0].Kill? ==> CleanKill(s, steps[0].slot))
      && CleanKills(Apply(s, steps[0]), steps[1..])
  }

  /** Free slots and children under construction wait for no lock; the latter are never current. */
  ghost predicate Quiet(s: Sys) {
    && Shape(s)
    && s.procs[s.cur].state != FREE && s.cur !in s.building
    && (forall i :: 0 <= i < PROCCNT && s.procs[i].state == FREE ==> s.procs[i].waitOn == NO_LOCK && i !in s.building)
    && (forall b :: b in s.building ==>
          s.procs[b].state == WAITING && s.procs[b].waitOn == NO_LOCK && s.procs[b].pid == 0)
    && (forall i :: 0 <= i < PROCCNT && s.procs[i].state == FREE ==> s.procs[i].pid == 0)
  }

  lemma StepKeepsQuiet(s: Sys, step: Step)
    requires Quiet(s) && Enabled(s, step)
    requires step.Kill? ==> CleanKill(s, step.slot)
    ensures Quiet(Apply(s, step))
  {
  }

  /** The scheduler and wakeup pass over a child under construction. */
  lemma PassesOver(s: Sys, step: Step, b: int)
    requires Quiet(s) && Enabled(s, step) && b in s.building && (step.Schedule? || step.Wakeup?)
    ensures var t := Apply(s, step); t.procs[b] == s.procs[b] && t.cur != b
  {
  }

  lemma {:induction false} RunKeepsQuiet(s: Sys, steps: seq<Step>)
    requires Quiet(s) && Legal(s, steps) && CleanKills(s, steps)
    ensures Quiet(After(s, steps))
    decreases |steps|
  {
    if steps != [] {
      StepKeepsQuiet(s, steps[0]);
      RunKeepsQuiet(Apply(s, steps[0]), steps[1..]);
    }
  }

  /** After every run with clean kills, the next scheduler or wakeup step leaves half-built children alone. */
  lemma NoHalfBuiltDispatch(s: Sys, steps: seq<Step>, step: Step, b: int)
    requires Quiet(s) && Legal(s, steps) && CleanKills(s, steps)
    requires var t := After(s, steps); Shape(t) && Enabled(t, step) && b in t.building
    requires step.Schedule? || step.Wakeup?
    ensures var t := After(s, steps); Apply(t, step).procs[b] == t.procs[b] && Apply(t, step).cur != b
  {
    RunKeepsQuiet(s, steps);
    PassesOver(After(s, steps), step, b);
  }

  /** The condition on kills is exact. */
  lemma KillStaysQuiet(s: Sys, i: int)
    requires Quiet(s) && Enabled(s, Kill(i))
    ensures Quiet(Apply(s, Kill(i))) <==> CleanKill(s, i)
  {
    if CleanKill(s, i) {
      StepKeepsQuiet(s, Kill(i));
    } else {
      assert Apply(s, Kill(i)).procs[i].state == FREE;
    }
  }

  /** kill_process leaves wait_on behind: the slot's next child is woken before it is built. */
  lemma StaleWaitWakesChild(s: Sys, i: int, lk: int)
    requires Quiet(s) && Enabled(s, Kill(i)) && s.procs[i].waitOn == lk != NO_LOCK
    requires forall j :: 0 <= j < i ==> s.procs[j].state != FREE
    ensures var run := [Kill(i), Reserve(i), Wakeup(lk)];
      Legal(s, run) && Shape(After(s, run)) && i in After(s, run).building && After(s, run).procs[i].state == RUNNABLE
  {
    var s1 := Apply(s, Kill(i));
    var s2 := Apply(s1, Reserve(i));
    assert s2.procs[i].state == WAITING && s2.procs[i].waitOn == lk;
    Run3(s, Kill(i), Reserve(i), Wakeup(lk));
  }

  /** Nor may the current process be killed: its slot can be reserved for a child, and the next scheduler call
      makes that child RUNNABLE before it is built. */
  lemma KilledCurrentWakesChild(s: Sys, n: int)
    requires Quiet(s) && Enabled(s, Kill(s.cur)) && forall j :: 0 <= j < s.cur ==> s.procs[j].state != FREE
    requires var s2 := Apply(Apply(s, Kill(s.cur)), Reserve(s.cur)); Enabled(s2, Schedule(n))
    ensures var run := [Kill(s.cur), Reserve(s.cur), Schedule(n)];
      && Legal(s, run) && Shape(After(s, run))
      && s.cur in After(s, run).building && After(s, run).procs[s.cur].state == RUNNABLE
  {
    Run3(s, Kill(s.cur), Reserve(s.cur), Schedule(n));
  }

  /** Nor a child under construction, which kill_process(0) hits if no slot before it has pid 0: its slot is free
      again and the next fork reserves it while the first is still building there. */
  lemma KilledChildReservedTwice(s: Sys, b: int)
    requires Quiet(s) && b in s.building && forall j :: 0 <= j < b ==> s.procs[j].pid != 0 && s.procs[j].state != FREE
    ensures Enabled(s, Kill(b)) && b in Apply(s, Kill(b)).building
    ensures Enabled(Apply(s, Kill(b)), Reserve(b)) && !Quiet(Apply(s, Kill(b)))
  {
    assert Apply(s, Kill(b)).procs[b].state == FREE;
  }

  lemma RunCons(s: Sys, step: Step, rest: seq<Step>)
    requires Shape(s) && Enabled(s, step) && Legal(Apply(s, step), rest)
    ensures Legal(s, [step] + rest) && After(s, [step] + rest) == After(Apply(s, step), rest)
  {
    var run := [step] + rest;
    assert run[0] == step && run[1..] == rest;
  }

  lemma Run2(s: Sys, a: Step, b: Step)
    requires Shape(s) && Enabled(s, a)
    requires var s1 := Apply(s, a); Shape(s1) && Enabled(s1, b)
    ensures Legal(s, [a, b]) && After(s, [a, b]) == Apply(Apply(s, a), b)
  {
    RunCons(Apply(s, a), b, []);
    RunCons(s, a, [b]);
    assert [b] + [] == [b] && [a] + [b] == [a, b];
  }

  lemma Run3(s: Sys, a: Step, b: Step, c: Step)
    requires Shape(s) && Enabled(s, a)
    requires var s1 := Apply(s, a); Shape(s1) && Enabled(s1, b)
    requires var s2 := Apply(Apply(s, a), b); Shape(s2) && Enabled(s2, c)
    ensures Legal(s, [a, b, c]) && After(s, [a, b, c]) == Apply(Apply(Apply(s, a), b), c)
  {
    RunCons(Apply(Apply(s, a), b), c, []);
    RunCons(Apply(s, a), b, [c]);
    RunCons(s, a, [b, c]);
    assert [c] + [] == [c] && [b] + [c] == [b, c] && [a] + [b, c] == [a, b, c];
  }

  /** scheduler() marks the current process RUNNABLE whatever its state was, so a sleeper does not stay asleep. */
  lemma SleepDoesNotSurviveSchedule(s: Sys, lk: int, n: int)
    requires Shape(s) && lk != NO_LOCK && Legal(s, [Sleep(lk), Schedule(n)])
    ensures var t := After(s, [Sleep(lk), Schedule(n)]); |t.procs| == PROCCNT && t.procs[s.cur].state == RUNNABLE
  {
    var run := [Sleep(lk), Schedule(n)];
    assert run[1..] == [Schedule(n)] && run[1..][1..] == [];
    var s1 := Apply(s, Sleep(lk));
    assert After(s1, [Schedule(n)]) == Apply(s1, Schedule(n));
  }
}
