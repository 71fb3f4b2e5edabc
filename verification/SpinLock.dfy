/** The spinlock of kernel/lock.c under any interleaving of any number of cores, one atomic access at a time. */
module SpinLock {
  /** Where a core is: outside, past the test-and-set, past the owner write, past a successful
      owner check in release, or past resetting the owner. */
  datatype Place = Outside | Won | Critical | Checked | Reset

  datatype State = State(locked: bool, cpu: int, at: seq<Place>)

  datatype Step =
    | TestAndSet(core: int)
    | WriteOwner(core: int)
    | Check(core: int)
    | ResetOwner(core: int)
    | Clear(core: int)

  predicate Init(s: State) {
    !s.locked && s.cpu == -1 && forall c :: 0 <= c < |s.at| ==> s.at[c] == Outside
  }

  /** A core may call release whenever it is not inside acquire or release. */
  predicate Enabled(s: State, step: Step) {
    0 <= step.core < |s.at| &&
    match step
    case TestAndSet(c) => s.at[c] == Outside
    case WriteOwner(c) => s.at[c] == Won
    case Check(c) => s.at[c] == Outside || s.at[c] == Critical
    case ResetOwner(c) => s.at[c] == Checked
    case Clear(c) => s.at[c] == Reset
  }

  function Apply(s: State, step: Step): State
    requires Enabled(s, step)
  {
    match step
    case TestAndSet(c) => if s.locked then s else s.(locked := true, at := s.at[c := Won])
    case WriteOwner(c) => s.(cpu := c, at := s.at[c := Critical])
    case Check(c) => if s.cpu == c then s.(at := s.at[c := Checked]) else s
    case ResetOwner(c) => s.(cpu := 0, at := s.at[c := Reset])
    case Clear(c) => s.(locked := false, at := s.at[c := Outside])
  }

  predicate Legal(s: State, run: seq<Step>)
    decreases |run|
  {
    run == [] || (Enabled(s, run[0]) && Legal(Apply(s, run[0]), run[1..]))
  }

  function After(s: State, run: seq<Step>): State
    requires Legal(s, run)
    decreases |run|
  {
    if run == [] then s else After(Apply(s, run[0]), run[1..])
  }

  /** A release call of core 0 comes from its critical section, or the owner check turns it away. */
  predicate CoreZeroBehaves(s: State, run: seq<Step>)
    requires Legal(s, run)
    decreases |run|
  {
    run == [] ||
    ((run[0] == Check(0) ==> s.at[0] == Critical || s.cpu != 0) && CoreZeroBehaves(Apply(s, run[0]), run[1..]))
  }

  predicate Holds(s: State, c: int) {
    0 <= c < |s.at| && s.at[c] != Outside
  }

  ghost predicate MutualExclusion(s: State) {
    forall c, d :: Holds(s, c) && Holds(s, d) ==> c == d
  }

  ghost predicate Inv(s: State) {
    && MutualExclusion(s)
    && (forall c :: Holds(s, c) ==> s.locked)
    && (s.locked ==> exists c :: Holds(s, c))
    && (forall c :: Holds(s, c) && (s.at[c] == Critical || s.at[c] == Checked) ==> s.cpu == c)
    && (0 < s.cpu < |s.at| ==> s.at[s.cpu] == Critical || s.at[s.cpu] == Checked)
  }

  lemma StepKeepsInv(s: State, step: Step)
    requires Inv(s) && Enabled(s, step) && (step == Check(0) ==> s.at[0] == Critical || s.cpu != 0)
    ensures Inv(Apply(s, step))
  {
    var t := Apply(s, step);
    match step
    case TestAndSet(c) =>
      if !s.locked {
        assert Holds(t, c);
        assert forall d :: Holds(t, d) && d != c ==> Holds(s, d);
      }
    case WriteOwner(c) =>
      assert Holds(s, c) && Holds(t, c);
      assert forall d :: Holds(t, d) ==> Holds(s, d);
    case Check(c) =>
      assert s.cpu == c ==> Holds(s, c) && Holds(t, c);
      assert forall d :: Holds(t, d) ==> Holds(s, d);
    case ResetOwner(c) =>
      assert Holds(s, c) && Holds(t, c);
      assert forall d :: Holds(t, d) ==> Holds(s, d);
    case Clear(c) =>
      assert Holds(s, c);
      assert forall d :: Holds(t, d) ==> Holds(s, d) && d != c;
  }

  /** Mutual exclusion in every run, even when other cores try to release locks they do not hold. */
  lemma {:induction false} RunIsExclusive(s: State, run: seq<Step>)
    requires Inv(s) && Legal(s, run) && CoreZeroBehaves(s, run)
    ensures Inv(After(s, run)) && MutualExclusion(After(s, run))
    decreases |run|
  {
    if run != [] {
      StepKeepsInv(s, run[0]);
      RunIsExclusive(Apply(s, run[0]), run[1..]);
    }
  }

  lemma InitInv(s: State)
    requires Init(s)
    ensures Inv(s)
  {
  }

  /** For every core but 0 the owner check of release is exact. */
  lemma OwnerCheckExact(s: State, run: seq<Step>, c: int)
    requires Init(s) && Legal(s, run) && CoreZeroBehaves(s, run) && 0 < c < |After(s, run).at|
    requires Enabled(After(s, run), Check(c))
    ensures After(s, run).cpu == c <==> After(s, run).at[c] == Critical
  {
    InitInv(s);
    RunIsExclusive(s, run);
  }

  /** A release call keeps the invariant exactly when the caller is the owner or the check turns it away. */
  lemma CheckSafeIff(s: State, c: int)
    requires Inv(s) && Enabled(s, Check(c))
    ensures Inv(Apply(s, Check(c))) <==> s.at[c] == Critical || s.cpu != c
    ensures c != 0 ==> Inv(Apply(s, Check(c)))
  {
    var t := Apply(s, Check(c));
    if c != 0 || s.at[c] == Critical {
      StepKeepsInv(s, Check(c));
    } else if s.cpu == c {
      assert t.at[0] == Checked && Holds(t, 0);
      if s.locked {
        var d :| Holds(s, d);
        assert Holds(t, d);
      }
    }
  }

  lemma {:induction false} RunAppend(s: State, run: seq<Step>, step: Step)
    requires Legal(s, run) && Enabled(After(s, run), step)
    ensures Legal(s, run + [step]) && After(s, run + [step]) == Apply(After(s, run), step)
    decreases |run|
  {
    if run == [] {
      assert run + [step] == [step] && [step][1..] == [];
    } else {
      RunAppend(Apply(s, run[0]), run[1..], step);
      assert (run + [step])[0] == run[0] && (run + [step])[1..] == run[1..] + [step];
    }
  }

  /** The core has taken the lock and has not begun to release it. */
  predicate Inside(s: State, c: int) {
    0 <= c < |s.at| && (s.at[c] == Won || s.at[c] == Critical)
  }

  ghost predicate TwoInside(s: State) {
    exists c, d :: c != d && Inside(s, c) && Inside(s, d)
  }

  /** One more step of a run that is being built. */
  lemma Extend(s: State, run: seq<Step>, t: State, step: Step) returns (run': seq<Step>, t': State)
    requires Legal(s, run) && After(s, run) == t && Enabled(t, step)
    ensures run' == run + [step] && t' == Apply(t, step) && Legal(s, run') && After(s, run') == t'
  {
    RunAppend(s, run, step);
    run', t' := run + [step], Apply(t, step);
  }

  /** While another core has just won the lock, core 0 passes the check, clears the lock and takes it too. */
  lemma StrayRelease(s: State, d: int) returns (run: seq<Step>)
    requires s.locked && s.cpu == 0 && 0 < d < |s.at| && s.at[0] == Outside && s.at[d] == Won
    ensures Legal(s, run) && TwoInside(After(s, run))
  {
    run := [];
    var t := s;
    run, t := Extend(s, run, t, Check(0));
    run, t := Extend(s, run, t, ResetOwner(0));
    run, t := Extend(s, run, t, Clear(0));
    run, t := Extend(s, run, t, TestAndSet(0));
    assert Inside(t, 0) && Inside(t, d);
  }

  /** The lock is free: another core wins it first. */
  lemma StrayReleaseOfFree(s: State) returns (run: seq<Step>)
    requires !s.locked && s.cpu == 0 && |s.at| >= 2 && s.at[0] == Outside && s.at[1] == Outside
    ensures Legal(s, run) && TwoInside(After(s, run))
  {
    var t := Apply(s, TestAndSet(1));
    var rest := StrayRelease(t, 1);
    run := [TestAndSet(1)] + rest;
    assert run[0] == TestAndSet(1) && run[1..] == rest;
  }

  /** From every state that satisfies the invariant, a release call of core 0 that passes the check from outside can
      lead to two cores inside. */
  lemma StrayReleaseBreaksExclusion(s: State) returns (run: seq<Step>)
    requires Inv(s) && |s.at| >= 2 && s.cpu == 0 && s.at[0] == Outside
    ensures Legal(s, run) && TwoInside(After(s, run))
  {
    if s.locked {
      var d :| Holds(s, d);
      assert s.at[d] == Won || s.at[d] == Reset;
      if s.at[d] == Won {
        run := StrayRelease(s, d);
      } else {
        var t := Apply(s, Clear(d));
        assert d == 1 || !Holds(s, 1);
        var rest := StrayReleaseOfFree(t);
        run := [Clear(d)] + rest;
        assert run[0] == Clear(d) && run[1..] == rest;
      }
    } else {
      assert !Holds(s, 1);
      run := StrayReleaseOfFree(s);
    }
  }

  /** Every run that violates the condition on core 0 can, from that point on, be continued to two cores inside. */
  lemma {:induction false} StrayRunCanFail(s: State, run: seq<Step>) returns (k: nat, rest: seq<Step>)
    requires Inv(s) && |s.at| >= 2 && Legal(s, run) && !CoreZeroBehaves(s, run)
    ensures k < |run| && Legal(s, run[..k] + rest) && TwoInside(After(s, run[..k] + rest))
    decreases |run|
  {
    var step := run[0];
    if step == Check(0) && s.at[0] != Critical && s.cpu == 0 {
      k := 0;
      rest := StrayReleaseBreaksExclusion(s);
      assert run[..0] + rest == rest;
    } else {
      StepKeepsInv(s, step);
      hide Inv, TwoInside;
      k, rest := StrayRunCanFail(Apply(s, step), run[1..]);
      var all := run[..k + 1] + rest;
      assert all[0] == step && all[1..] == run[1..][..k] + rest;
      k := k + 1;
    }
  }

  /** release stores 0 as the owner, which is core 0: without the condition two cores get in, from the start. */
  lemma CoreZeroBreaksExclusion(s: State) returns (run: seq<Step>)
    requires Init(s) && |s.at| >= 2
    ensures Legal(s, run) && TwoInside(After(s, run))
  {
    InitInv(s);
    run := [];
    var t := s;
    run, t := Extend(s, run, t, TestAndSet(1));
    run, t := Extend(s, run, t, WriteOwner(1));
    run, t := Extend(s, run, t, Check(1));
    run, t := Extend(s, run, t, ResetOwner(1));
    run, t := Extend(s, run, t, Clear(1));
    var rest := StrayReleaseOfFree(t);
    RunJoin(s, run, rest);
    run := run + rest;
  }

  lemma {:induction false} RunJoin(s: State, a: seq<Step>, b: seq<Step>)
    requires Legal(s, a) && Legal(After(s, a), b)
    ensures Legal(s, a + b) && After(s, a + b) == After(After(s, a), b)
    decreases |a|
  {
    if a == [] {
      assert a + b == b;
    } else {
      RunJoin(Apply(s, a[0]), a[1..], b);
      assert (a + b)[0] == a[0] && (a + b)[1..] == a[1..] + b;
    }
  }

  /** Two cores inside is more than a broken invariant: mutual exclusion is gone. */
  lemma TwoInsideIsNoExclusion(s: State)
    requires TwoInside(s)
    ensures !MutualExclusion(s)
  {
    var c, d :| c != d && Inside(s, c) && Inside(s, d);
    assert Holds(s, c) && Holds(s, d);
  }
}
