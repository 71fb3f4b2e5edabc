/** The sleep lock of kernel/lock.c with sleep and wakeup of kernel/process.c, for any number of
    processes and any interleaving. `sleep` is completed as its comment intends: the process blocks
    until it is RUNNABLE again and then retakes the spinlock. */
module SleepLock {
  /** Program points of sleeplock_acquire (with sleep) and sleeplock_release (with wakeup). */
  datatype Place =
    | Idle
    | WantSpin | Test | MarkWaiting | MarkLock | DropSpin | Asleep   // acquire: test, and the three stores of sleep
    | Take | TakeDone                                                  // acquire: locked = 1, then release the spinlock
    | Owner                                                            // the sleep lock is held
    | WantRelease | Unlock | Waking(next: nat) | ReleaseDone           // release: locked = 0, the wakeup scan, release

  datatype Proc = Proc(at: Place, waiting: bool, onLock: bool)

  /** `spin` is the process holding the spinlock, or -1. */
  datatype State = State(spin: int, locked: bool, procs: seq<Proc>)

  predicate Init(s: State) {
    s.spin == -1 && !s.locked && forall p :: 0 <= p < |s.procs| ==> s.procs[p] == Proc(Idle, false, false)
  }

  function Goto(s: State, p: int, at: Place): State
    requires 0 <= p < |s.procs|
  {
    s.(procs := s.procs[p := s.procs[p].(at := at)])
  }

  /** One atomic action of process p; a process that cannot move stays where it is. With `blocks` false,
      sleep returns without blocking or retaking the spinlock, as it is written. */
  function Next(s: State, p: int, blocks: bool): State
    requires 0 <= p < |s.procs|
  {
    match s.procs[p].at
    case Idle => Goto(s, p, WantSpin)
    case WantSpin => if s.spin == -1 then Goto(s.(spin := p), p, Test) else s
    case Test => Goto(s, p, if s.locked then MarkWaiting else Take)
    case MarkWaiting => s.(procs := s.procs[p := s.procs[p].(at := MarkLock, waiting := true)])
    case MarkLock => s.(procs := s.procs[p := s.procs[p].(at := DropSpin, onLock := true)])
    case DropSpin => Goto(s.(spin := -1), p, if blocks then Asleep else Test)
    case Asleep => if s.procs[p].waiting then s else Goto(s, p, WantSpin)
    case Take => Goto(s.(locked := true), p, TakeDone)
    case TakeDone => Goto(s.(spin := -1), p, Owner)
    case Owner => Goto(s, p, WantRelease)
    case WantRelease => if s.spin == -1 then Goto(s.(spin := p), p, Unlock) else s
    case Unlock => Goto(s.(locked := false), p, Waking(0))
    case Waking(j) =>
      if j >= |s.procs| then Goto(s, p, ReleaseDone)
      else
        var q := s.procs[j];
        var t := if q.waiting && q.onLock then s.(procs := s.procs[j := q.(waiting := false, onLock := false)]) else s;
        Goto(t, p, Waking(j + 1))
    case ReleaseDone => Goto(s.(spin := -1), p, Idle)
  }

  function Run(s: State, schedule: seq<int>, blocks: bool): State
    requires forall k :: 0 <= k < |schedule| ==> 0 <= schedule[k] < |s.procs|
    decreases |schedule|
  {
    if schedule == [] then s else Run(Next(s, schedule[0], blocks), schedule[1..], blocks)
  }

  // ---- what every run keeps ------------------------------------------------------------

  predicate HasSpin(at: Place) {
    at.Test? || at.MarkWaiting? || at.MarkLock? || at.DropSpin? || at.Take? || at.TakeDone?
    || at.Unlock? || at.Waking? || at.ReleaseDone?
  }

  predicate HasLock(at: Place) {
    at.TakeDone? || at.Owner? || at.WantRelease? || at.Unlock?
  }

  predicate Holder(s: State, p: int) {
    0 <= p < |s.procs| && HasLock(s.procs[p].at)
  }

  predicate SpinHolder(s: State, p: int) {
    0 <= p < |s.procs| && HasSpin(s.procs[p].at)
  }

  /** p waits for this lock. */
  predicate Waits(s: State, p: int) {
    0 <= p < |s.procs| && s.procs[p].waiting && s.procs[p].onLock
  }

  /** A releaser has cleared the lock and its scan has not passed p yet. */
  predicate AboutToWake(s: State, r: int, p: int) {
    0 <= r < |s.procs| && s.procs[r].at.Waking? && s.procs[r].at.next <= p
  }

  predicate InSleep(at: Place) {
    at.DropSpin? || at.Asleep?
  }

  ghost predicate MutualExclusion(s: State) {
    forall p, q :: Holder(s, p) && Holder(s, q) ==> p == q
  }

  /** Nobody waits for a lock that is free, except while its releaser is still scanning towards them. */
  ghost predicate NoLostWakeup(s: State) {
    forall p :: Waits(s, p) ==> s.locked || AboutToWake(s, s.spin, p)
  }

  /** The spinlock has one holder, the process at a protected program point. */
  ghost predicate SpinInv(s: State) {
    && (forall p :: SpinHolder(s, p) <==> 0 <= p < |s.procs| && s.spin == p)
    && (s.spin == -1 || 0 <= s.spin < |s.procs|)
  }

  /** `locked` is set exactly while some process holds the lock, and what the spinlock holder has seen still holds. */
  ghost predicate LockInv(s: State) {
    && MutualExclusion(s)
    && (s.locked <==> exists p :: Holder(s, p))
    && (0 <= s.spin < |s.procs| ==>
          var at := s.procs[s.spin].at;
          && (at.MarkWaiting? || at.MarkLock? || at.DropSpin? ==> s.locked)
          && (at.Take? || at.Waking? || at.ReleaseDone? ==> !s.locked))
  }

  ghost predicate SleepInv(s: State) {
    forall p :: 0 <= p < |s.procs| && InSleep(s.procs[p].at) && s.procs[p].waiting ==> s.procs[p].onLock
  }

  ghost predicate Inv(s: State) {
    SpinInv(s) && LockInv(s) && SleepInv(s) && NoLostWakeup(s)
  }

  /** A step of p moves nobody else. */
  lemma OthersStay(s: State, p: int, q: int)
    requires 0 <= p < |s.procs| && q != p
    ensures Holder(Next(s, p, true), q) <==> Holder(s, q)
    ensures SpinHolder(Next(s, p, true), q) <==> SpinHolder(s, q)
  {
  }

  lemma StepKeepsSpin(s: State, p: int)
    requires SpinInv(s) && 0 <= p < |s.procs|
    ensures SpinInv(Next(s, p, true))
  {
    var t := Next(s, p, true);
    assert SpinHolder(s, p) <==> HasSpin(s.procs[p].at);
    forall q | q != p ensures SpinHolder(t, q) <==> SpinHolder(s, q) {
      OthersStay(s, p, q);
    }
  }

  lemma StepKeepsLock(s: State, p: int)
    requires SpinInv(s) && LockInv(s) && 0 <= p < |s.procs|
    ensures LockInv(Next(s, p, true))
  {
    var t, at := Next(s, p, true), s.procs[p].at;
    assert SpinHolder(s, p) <==> HasSpin(at);
    assert Holder(s, p) <==> HasLock(at);
    assert Holder(t, p) <==> HasLock(t.procs[p].at);
    forall q | q != p ensures Holder(t, q) <==> Holder(s, q) {
      OthersStay(s, p, q);
    }
    if s.locked && at != Unlock {
      var h :| Holder(s, h);
      assert Holder(t, h);
    }
  }

  lemma StepKeepsInv(s: State, p: int)
    requires Inv(s) && 0 <= p < |s.procs|
    ensures Inv(Next(s, p, true))
  {
    StepKeepsSpin(s, p);
    StepKeepsLock(s, p);
    StepKeepsWakeups(s, p);
    StepKeepsSleep(s, p);
  }

  lemma StepKeepsSleep(s: State, p: int)
    requires SleepInv(s) && 0 <= p < |s.procs|
    ensures SleepInv(Next(s, p, true))
  {
    var t := Next(s, p, true);
    forall q | 0 <= q < |s.procs| && InSleep(t.procs[q].at) && t.procs[q].waiting ensures t.procs[q].onLock {
      if q != p {
        SameFlags(s, p, q);
      }
    }
  }

  lemma SameFlags(s: State, p: int, q: int)
    requires 0 <= p < |s.procs| && 0 <= q < |s.procs| && q != p
    ensures var t := Next(s, p, true);
      |t.procs| == |s.procs| && t.procs[q].at == s.procs[q].at && (t.procs[q].waiting ==> t.procs[q] == s.procs[q])
  {
  }

  lemma StepKeepsWakeups(s: State, p: int)
    requires Inv(s) && 0 <= p < |s.procs|
    ensures NoLostWakeup(Next(s, p, true))
  {
    var t, at := Next(s, p, true), s.procs[p].at;
    assert SpinHolder(s, p) <==> HasSpin(at);
    assert Holder(s, p) <==> HasLock(at);
    forall q | Waits(t, q) ensures t.locked || AboutToWake(t, t.spin, q) {
      if at == MarkLock && q == p {
        assert s.locked;
      } else if at == MarkWaiting && q == p {
        assert s.locked;
      } else {
        assert Waits(s, q);
      }
    }
  }

  /** Mutual exclusion and no lost wakeup, in every run. */
  lemma {:induction false} RunIsSafe(s: State, schedule: seq<int>)
    requires Inv(s) && forall k :: 0 <= k < |schedule| ==> 0 <= schedule[k] < |s.procs|
    ensures var t := Run(s, schedule, true); Inv(t) && MutualExclusion(t) && NoLostWakeup(t)
    decreases |schedule|
  {
    if schedule != [] {
      StepKeepsInv(s, schedule[0]);
      RunIsSafe(Next(s, schedule[0], true), schedule[1..]);
    }
  }

  /** In every run from the start, a sleeper can go on, or the lock is held, or its wakeup is under way. */
  lemma NoSleeperForgotten(s: State, schedule: seq<int>, p: int)
    requires Init(s) && forall k :: 0 <= k < |schedule| ==> 0 <= schedule[k] < |s.procs|
    requires var t := Run(s, schedule, true); 0 <= p < |t.procs| && t.procs[p].at == Asleep
    ensures var t := Run(s, schedule, true);
      Next(t, p, true) != t || (exists h :: h != p && Holder(t, h)) || (t.spin != p && AboutToWake(t, t.spin, p))
  {
    InitInv(s);
    RunIsSafe(s, schedule);
    var t := Run(s, schedule, true);
    if t.procs[p].waiting {
      assert Waits(t, p) && !SpinHolder(t, p) && !Holder(t, p);
      if t.locked {
        var h :| Holder(t, h);
        assert h != p;
      }
    } else {
      assert Next(t, p, true).procs[p].at == WantSpin;
    }
  }

  lemma InitInv(s: State)
    requires Init(s)
    ensures Inv(s)
  {
  }

  // ---- sleep as written ----------------------------------------------------------------

  lemma {:induction false} RunAppend(s: State, schedule: seq<int>, p: int, blocks: bool)
    requires 0 <= p < |s.procs| && forall k :: 0 <= k < |schedule| ==> 0 <= schedule[k] < |s.procs|
    ensures |Run(s, schedule, blocks).procs| == |s.procs|
    ensures Run(s, schedule + [p], blocks) == Next(Run(s, schedule, blocks), p, blocks)
    decreases |schedule|
  {
    if schedule == [] {
      assert schedule + [p] == [p] && [p][1..] == [];
    } else {
      RunAppend(Next(s, schedule[0], blocks), schedule[1..], p, blocks);
      assert (schedule + [p])[0] == schedule[0] && (schedule + [p])[1..] == schedule[1..] + [p];
    }
  }

  /** The only step that differs is the one that leaves sleep. */
  lemma SameStep(s: State, p: int)
    requires 0 <= p < |s.procs| && s.procs[p].at != DropSpin
    ensures Next(s, p, false) == Next(s, p, true)
  {
  }

  /** A step of the written code keeps the spinlock's invariant exactly when it does not leave sleep. */
  lemma WrittenStepSafeIff(s: State, p: int)
    requires Inv(s) && 0 <= p < |s.procs|
    ensures Inv(Next(s, p, false)) <==> s.procs[p].at != DropSpin
  {
    if s.procs[p].at == DropSpin {
      var t := Next(s, p, false);
      assert SpinHolder(t, p) && t.spin == -1;
    } else {
      SameStep(s, p);
      StepKeepsInv(s, p);
    }
  }

  /** Nobody is inside sleep. */
  ghost predicate Calm(s: State) {
    forall p :: 0 <= p < |s.procs| ==>
      var at := s.procs[p].at; at != MarkWaiting && at != MarkLock && at != DropSpin
  }

  /** Whoever tests the lock finds it free. */
  predicate Uncontended(s: State, schedule: seq<int>)
    requires forall k :: 0 <= k < |schedule| ==> 0 <= schedule[k] < |s.procs|
    decreases |schedule|
  {
    schedule == [] ||
    ((s.procs[schedule[0]].at == Test ==> !s.locked) && Uncontended(Next(s, schedule[0], false), schedule[1..]))
  }

  lemma NotLeaving(s: State, p: int)
    requires Calm(s) && 0 <= p < |s.procs|
    ensures s.procs[p].at != DropSpin && |Next(s, p, false).procs| == |s.procs|
  {
  }

  lemma CalmStep(s: State, p: int)
    requires Calm(s) && 0 <= p < |s.procs| && (s.procs[p].at == Test ==> !s.locked)
    ensures Calm(Next(s, p, false))
  {
    var t := Next(s, p, false);
    assert s.procs[p].at != DropSpin;
    SameStep(s, p);
    forall q | 0 <= q < |t.procs|
      ensures var at := t.procs[q].at; at != MarkWaiting && at != MarkLock && at != DropSpin
    {
      if q != p {
        SameFlags(s, p, q);
        assert t.procs[q].at == s.procs[q].at;
      }
    }
  }

  /** The lock as written is safe in every run in which nobody finds it taken. */
  lemma {:induction false} UncontendedRunIsSafe(s: State, schedule: seq<int>)
    requires Inv(s) && Calm(s) && forall k :: 0 <= k < |schedule| ==> 0 <= schedule[k] < |s.procs|
    requires Uncontended(s, schedule)
    ensures var t := Run(s, schedule, false); Inv(t) && Calm(t) && MutualExclusion(t) && NoLostWakeup(t)
    decreases |schedule|
  {
    if schedule != [] {
      var p := schedule[0];
      assert s.procs[p].at != DropSpin;
      WrittenStepSafeIff(s, p);
      CalmStep(s, p);
      UncontendedRunIsSafe(Next(s, p, false), schedule[1..]);
    }
  }

  /** p takes n steps in a row. */
  function Turns(s: State, p: int, n: nat): (t: State)
    requires 0 <= p < |s.procs|
    ensures |t.procs| == |s.procs|
    decreases n
  {
    if n == 0 then s else Turns(Next(s, p, false), p, n - 1)
  }

  lemma {:induction false} RunTurns(s: State, done: seq<int>, p: int, n: nat) returns (done': seq<int>)
    requires (forall k :: 0 <= k < |done| ==> 0 <= done[k] < |s.procs|) && 0 <= p < |s.procs|
    ensures |Run(s, done, false).procs| == |s.procs|
    ensures (forall k :: 0 <= k < |done'| ==> 0 <= done'[k] < |s.procs|)
    ensures Run(s, done', false) == Turns(Run(s, done, false), p, n)
    decreases n
  {
    RunAppend(s, done, p, false);
    if n == 0 {
      return done;
    }
    done' := RunTurns(s, done + [p], p, n - 1);
  }

  /** Two processes, where they are, and the state of both locks. */
  ghost predicate Scene(s: State, spin: int, locked: bool, h: int, hAt: Place, p: int, pAt: Place) {
    && h != p && 0 <= h < |s.procs| && 0 <= p < |s.procs| && s.spin == spin && s.locked == locked
    && s.procs[h].at == hAt && s.procs[p].at == pAt
  }

  /** The wakeup scan of h runs to its end; p is not moved by it. */
  lemma {:induction false} ScanEnds(s: State, h: int, p: int, j: nat, pAt: Place) returns (n: nat)
    requires j <= |s.procs| && Scene(s, h, false, h, Waking(j), p, pAt)
    ensures Scene(Turns(s, h, n), h, false, h, ReleaseDone, p, pAt)
    decreases |s.procs| - j
  {
    var t := Next(s, h, false);
    if j == |s.procs| {
      n := 1;
      assert Turns(s, h, 1) == t;
    } else {
      assert Scene(t, h, false, h, Waking(j + 1), p, pAt);
      n := ScanEnds(t, h, p, j + 1, pAt);
      n := n + 1;
    }
  }

  /** A process that leaves sleep while h holds the lock tests it without the spinlock; h releases. */
  lemma Slip(s: State, h: int, p: int)
    requires Scene(s, p, true, h, Owner, p, DropSpin) || Scene(s, p, true, h, WantRelease, p, DropSpin)
    ensures Scene(Turns(s, p, 1), -1, true, h, s.procs[h].at, p, Test)
    ensures var n := if s.procs[h].at == Owner then 3 else 2;
      Scene(Turns(Turns(s, p, 1), h, n), h, false, h, Waking(0), p, Test)
  {
    var t := Next(s, p, false);
    assert Turns(s, p, 1) == t;
    var u := if s.procs[h].at == Owner then Next(t, h, false) else t;
    assert Scene(u, -1, true, h, WantRelease, p, Test);
    var v := Next(u, h, false);
    assert Scene(v, h, true, h, Unlock, p, Test);
    var w := Next(v, h, false);
    assert Turns(u, h, 2) == Turns(v, h, 1) == w;
    assert s.procs[h].at == Owner ==> Turns(t, h, 3) == Turns(u, h, 2);
  }

  /** It takes the lock together with the next process that finds it free. */
  lemma Collide(s: State, h: int, p: int)
    requires Scene(s, h, false, h, ReleaseDone, p, Take)
    ensures Scene(Turns(Turns(s, h, 5), p, 1), h, true, h, TakeDone, p, TakeDone)
  {
    var a := Next(s, h, false);
    var b := Next(a, h, false);
    var c := Next(b, h, false);
    assert Scene(c, h, false, h, Test, p, Take);
    var d := Next(c, h, false);
    var e := Next(d, h, false);
    assert Scene(e, h, true, h, TakeDone, p, Take);
    assert Turns(d, h, 1) == e && Turns(c, h, 2) == e && Turns(b, h, 3) == e;
    assert Turns(a, h, 4) == e && Turns(s, h, 5) == e;
    assert Turns(e, p, 1) == Next(e, p, false);
  }

  /** From every state that satisfies the invariant and has a process about to leave sleep, two processes can come
      to hold the lock: sleep neither blocks nor retakes the spinlock. */
  lemma LeavingSleepBreaksExclusion(s: State, p: int) returns (schedule: seq<int>)
    requires Inv(s) && 0 <= p < |s.procs| && s.procs[p].at == DropSpin
    ensures forall k :: 0 <= k < |schedule| ==> 0 <= schedule[k] < |s.procs|
    ensures !MutualExclusion(Run(s, schedule, false))
  {
    hide Inv, Run, Turns, Next, MutualExclusion;
    var h := HolderOutside(s, p);
    Slip(s, h, p);
    var n := if s.procs[h].at == Owner then 3 else 2;
    var t := Turns(Turns(s, p, 1), h, n);
    TestFree(t, h, p);
    var m := ScanEnds(Turns(t, p, 1), h, p, 0, Take);
    Collide(Turns(Turns(t, p, 1), h, m), h, p);
    RunNothing(s);
    schedule := RunTurns(s, [], p, 1);
    schedule := RunTurns(s, schedule, h, n);
    schedule := RunTurns(s, schedule, p, 1);
    schedule := RunTurns(s, schedule, h, m);
    schedule := RunTurns(s, schedule, h, 5);
    schedule := RunTurns(s, schedule, p, 1);
    TwoHolders(Run(s, schedule, false), h, p);
  }

  /** Whoever holds the lock while p goes to sleep is outside all spinlock sections. */
  lemma HolderOutside(s: State, p: int) returns (h: int)
    requires Inv(s) && 0 <= p < |s.procs| && s.procs[p].at == DropSpin
    ensures Scene(s, p, true, h, Owner, p, DropSpin) || Scene(s, p, true, h, WantRelease, p, DropSpin)
  {
    assert SpinHolder(s, p) && s.locked;
    h :| Holder(s, h);
    assert SpinHolder(s, h) <==> s.spin == h;
  }

  lemma TestFree(s: State, h: int, p: int)
    requires Scene(s, h, false, h, Waking(0), p, Test)
    ensures Scene(Turns(s, p, 1), h, false, h, Waking(0), p, Take)
  {
    assert Turns(s, p, 1) == Next(s, p, false);
  }

  lemma RunNothing(s: State)
    ensures Run(s, [], false) == s
  {
  }

  lemma TwoHolders(s: State, h: int, p: int)
    requires Scene(s, h, true, h, TakeDone, p, TakeDone)
    ensures !MutualExclusion(s)
  {
    assert Holder(s, h) && Holder(s, p);
  }

  /** So does every process that finds the lock taken, sooner or later: it is bound to leave sleep. */
  lemma ContentionBreaksExclusion(s: State, p: int) returns (schedule: seq<int>)
    requires Inv(s) && 0 <= p < |s.procs| && s.procs[p].at == Test && s.locked
    ensures forall k :: 0 <= k < |schedule| ==> 0 <= schedule[k] < |s.procs|
    ensures !MutualExclusion(Run(s, schedule, false))
  {
    var a := Next(s, p, false);
    WrittenStepSafeIff(s, p);
    var b := Next(a, p, false);
    WrittenStepSafeIff(a, p);
    var c := Next(b, p, false);
    WrittenStepSafeIff(b, p);
    assert c.procs[p].at == DropSpin;
    hide Inv, Next, MutualExclusion;
    var rest := LeavingSleepBreaksExclusion(c, p);
    RunCons(b, p, rest);
    RunCons(a, p, [p] + rest);
    schedule := [p] + ([p] + ([p] + rest));
    RunCons(s, p, [p] + ([p] + rest));
  }

  lemma RunCons(s: State, p: int, rest: seq<int>)
    requires 0 <= p < |s.procs| && forall k :: 0 <= k < |rest| ==> 0 <= rest[k] < |s.procs|
    ensures Run(s, [p] + rest, false) == Run(Next(s, p, false), rest, false)
  {
    var all := [p] + rest;
    assert all[0] == p && all[1..] == rest;
  }

  /** And a run in which somebody finds the lock taken can, from that point on, be continued to two holders. */
  lemma {:induction false} ContendedRunCanFail(s: State, schedule: seq<int>) returns (k: nat, rest: seq<int>)
    requires Inv(s) && Calm(s) && forall i :: 0 <= i < |schedule| ==> 0 <= schedule[i] < |s.procs|
    requires !Uncontended(s, schedule)
    ensures k < |schedule| && forall i :: 0 <= i < |rest| ==> 0 <= rest[i] < |s.procs|
    ensures !MutualExclusion(Run(s, schedule[..k] + rest, false))
    decreases |schedule|
  {
    hide Inv, Calm, MutualExclusion, Run;
    var p := schedule[0];
    if s.procs[p].at == Test && s.locked {
      k := 0;
      rest := ContentionBreaksExclusion(s, p);
      assert schedule[..0] + rest == rest;
    } else {
      NotLeaving(s, p);
      WrittenStepSafeIff(s, p);
      CalmStep(s, p);
      hide Next;
      k, rest := ContendedRunCanFail(Next(s, p, false), schedule[1..]);
      RunCons(s, p, schedule[1..][..k] + rest);
      assert schedule[..k + 1] + rest == [p] + (schedule[1..][..k] + rest);
      k := k + 1;
    }
  }

  /** Process h takes the lock. */
  lemma TakeLock(s: State, h: int, p: int)
    requires Inv(s) && Scene(s, -1, false, h, Idle, p, Idle)
    ensures var t := Turns(s, h, 5); Inv(t) && Scene(t, -1, true, h, Owner, p, Idle)
  {
    var a := Next(s, h, false);
    WrittenStepSafeIff(s, h);
    var b := Next(a, h, false);
    WrittenStepSafeIff(a, h);
    var c := Next(b, h, false);
    WrittenStepSafeIff(b, h);
    var d := Next(c, h, false);
    WrittenStepSafeIff(c, h);
    var e := Next(d, h, false);
    WrittenStepSafeIff(d, h);
    assert Scene(e, -1, true, h, Owner, p, Idle);
    hide Inv, Next, Scene;
    assert Turns(d, h, 1) == e && Turns(c, h, 2) == e && Turns(b, h, 3) == e;
    assert Turns(a, h, 4) == e && Turns(s, h, 5) == e;
  }

  /** Process p comes to test it. */
  lemma FindTaken(s: State, h: int, p: int)
    requires Inv(s) && Scene(s, -1, true, h, Owner, p, Idle)
    ensures var t := Turns(s, p, 2); Inv(t) && Scene(t, p, true, h, Owner, p, Test)
  {
    var a := Next(s, p, false);
    WrittenStepSafeIff(s, p);
    var b := Next(a, p, false);
    WrittenStepSafeIff(a, p);
    assert Scene(b, p, true, h, Owner, p, Test);
    hide Inv, Next, Scene;
    assert Turns(a, p, 1) == b && Turns(s, p, 2) == b;
  }

  /** From the start, any two of any number of processes can come to hold the lock together. */
  lemma UnfinishedSleepBreaksExclusion(s: State) returns (schedule: seq<int>)
    requires Init(s) && |s.procs| >= 2
    ensures forall k :: 0 <= k < |schedule| ==> 0 <= schedule[k] < |s.procs|
    ensures !MutualExclusion(Run(s, schedule, false))
  {
    InitInv(s);
    assert Scene(s, -1, false, 0, Idle, 1, Idle);
    TakeLock(s, 0, 1);
    FindTaken(Turns(s, 0, 5), 0, 1);
    var t := Turns(Turns(s, 0, 5), 1, 2);
    assert Run(s, [], false) == s;
    hide Inv, Turns, MutualExclusion, Run;
    var start := RunTurns(s, [], 0, 5);
    start := RunTurns(s, start, 1, 2);
    var rest := ContentionBreaksExclusion(t, 1);
    schedule := start + rest;
    RunJoin(s, start, rest);
  }

  lemma {:induction false} RunJoin(s: State, a: seq<int>, b: seq<int>)
    requires (forall k :: 0 <= k < |a| ==> 0 <= a[k] < |s.procs|) && forall k :: 0 <= k < |b| ==> 0 <= b[k] < |s.procs|
    ensures |Run(s, a, false).procs| == |s.procs| && Run(s, a + b, false) == Run(Run(s, a, false), b, false)
    decreases |a|
  {
    if a == [] {
      assert a + b == b;
    } else {
      assert (a + b)[0] == a[0] && (a + b)[1..] == a[1..] + b;
      RunJoin(Next(s, a[0], false), a[1..], b);
    }
  }
}
