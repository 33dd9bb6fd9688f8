/** Who hears of a stop: the members that are registered when it is decided, and which of
    the others. */
module MembersStop {
  import opened Collections
  import opened Wrappers
  import opened Members

  /** The step on which the group decides to stop signals all that are registered. */
  lemma StopSignalsTheRegistered(s: State, step: Step, s': State)
    requires Inv(s) && Next(s, step, s') && !s.vars.signaledToStop && s'.vars.signaledToStop
    ensures s'.vars.group.Keys <= s'.told
  {
  }

  /** The group goes on from s, and nobody signals it any more. */
  ghost predicate GoesOn(s: State, steps: seq<Step>, run: seq<State>) {
    && |run| == |steps| + 1 && run[0] == s
    && forall k | 0 <= k < |steps| :: Next(run[k], steps[k], run[k + 1]) && !steps[k].TakeSignal?
  }

  ghost predicate LeadsTo(s: State, steps: seq<Step>, run: seq<State>, to: State) {
    GoesOn(s, steps, run) && run[|steps|] == to
  }

  lemma GoesOnFrom(s: State, step: Step, s': State, steps: seq<Step>, run: seq<State>)
    requires Next(s, step, s') && !step.TakeSignal? && GoesOn(s', steps, run)
    ensures GoesOn(s, [step] + steps, [s] + run) && ([s] + run)[|[step] + steps|] == run[|steps|]
  {
    var steps', run' := [step] + steps, [s] + run;
    forall k | 0 <= k < |steps'|
      ensures Next(run'[k], steps'[k], run'[k + 1]) && !steps'[k].TakeSignal?
    {
      if k > 0 {
        assert run'[k] == run[k - 1] && steps'[k] == steps[k - 1] && run'[k + 1] == run[k];
      }
    }
  }

  lemma {:induction false} GoingOnKeepsInv(s: State, steps: seq<Step>, run: seq<State>, k: nat)
    requires Inv(s) && GoesOn(s, steps, run) && k < |run|
    ensures Inv(run[k])
  {
    if k > 0 {
      GoingOnKeepsInv(s, steps, run, k - 1);
      StepKeepsInv(run[k - 1], steps[k - 1], run[k]);
    }
  }

  /** The group is to stop and is still at it. */
  ghost predicate Stopping(s: State) {
    Inv(s) && s.phase == Looping && s.vars.signaledToStop
  }

  // ------------------------------------------------------------ when p is signalled yet

  ghost predicate IsTold(s: State, p: Proc, steps: seq<Step>, run: seq<State>) {
    GoesOn(s, steps, run) && p in run[|steps|].told
  }

  /** Some exit may yet signal p. */
  ghost predicate CanBeTold(s: State, p: Proc) {
    exists steps, run :: IsTold(s, p, steps, run)
  }

  predicate Loud(member: Member) {
    member.restart.signal != Continue
  }

  /** A member other than p, registered or on its way, has the group signalled when it
      exits. */
  ghost predicate AnotherIsLoud(s: State, p: Proc) {
    || (exists q :: q in s.vars.group && q != p && Loud(s.vars.group[q]))
    || (exists q :: q in s.started && q != p && Loud(s.started[q]))
    || (exists q :: q in s.envoking && q != p && Loud(s.envoking[q]))
    || (exists k :: 0 <= k < |s.launching| && Loud(s.launching[k]))
  }

  ghost predicate LeftOut(s: State, p: Proc) {
    s.vars.signaledToStop && p < s.next && p !in s.told && !AnotherIsLoud(s, p)
  }

  lemma MoveAddsNoneLoud(s: State, p: Proc, step: Step, s': State)
    requires Next(s, step, s') && (step.Ready? || step.Gather? || step.TakeStarted?) && AnotherIsLoud(s', p)
    ensures AnotherIsLoud(s, p)
  {
    if step.Ready? {
      assert s.envoking[step.p] == s'.started[step.p];
    } else {
      assert s.started[step.p] == s'.vars.group[step.p];
    }
  }

  lemma BeginAddsNoneLoud(s: State, p: Proc, k: nat, s': State)
    requires Next(s, Begin(k), s') && AnotherIsLoud(s', p)
    ensures AnotherIsLoud(s, p)
  {
    assert s'.envoking[s.next] == s.launching[k];
    if j :| 0 <= j < |s'.launching| && Loud(s'.launching[j]) {
      assert s'.launching[j] == s.launching[if j < k then j else j + 1];
    }
  }

  lemma ExitLeavesOut(s: State, p: Proc, step: Step, s': State)
    requires Awaited(s) && s.phase == Looping && LeftOut(s, p) && Next(s, step, s') && step.TakeExit?
    ensures LeftOut(s', p)
  {
    assert step.p in s.vars.group;
    assert s'.vars.group == s.vars.group - {step.p};
  }

  lemma StepLeavesOut(s: State, p: Proc, step: Step, s': State)
    requires Inv(s) && LeftOut(s, p) && !s.phase.Gathering? && Next(s, step, s') && !step.TakeSignal?
    ensures LeftOut(s', p) && !s'.phase.Gathering?
  {
    match step
    case TakeExit(_, _) => ExitLeavesOut(s, p, step, s');
    case Begin(k) => if AnotherIsLoud(s', p) { BeginAddsNoneLoud(s, p, k, s'); }
    case Ready(_) => if AnotherIsLoud(s', p) { MoveAddsNoneLoud(s, p, step, s'); }
    case TakeStarted(_) => if AnotherIsLoud(s', p) { MoveAddsNoneLoud(s, p, step, s'); }
    case _ =>
  }

  lemma {:induction false} StaysLeftOut(s: State, p: Proc, steps: seq<Step>, run: seq<State>, k: nat)
    requires Inv(s) && LeftOut(s, p) && !s.phase.Gathering? && GoesOn(s, steps, run) && k < |run|
    ensures Inv(run[k]) && LeftOut(run[k], p) && !run[k].phase.Gathering?
  {
    if k > 0 {
      StaysLeftOut(s, p, steps, run, k - 1);
      StepKeepsInv(run[k - 1], steps[k - 1], run[k]);
      StepLeavesOut(run[k - 1], p, steps[k - 1], run[k]);
    }
  }

  lemma ToldFurtherOn(s: State, p: Proc, step: Step, s': State)
    requires Next(s, step, s') && !step.TakeSignal? && CanBeTold(s', p)
    ensures CanBeTold(s, p)
  {
    var steps, run :| IsTold(s', p, steps, run);
    GoesOnFrom(s, step, s', steps, run);
    assert IsTold(s, p, [step] + steps, [s] + run);
  }

  lemma SelectsWith(s: State, p: Proc)
    requires Inv(s) && s.phase == Looping && Tracked(s, p)
    ensures Selecting(s)
  {
    CountZero(s);
  }

  // The states after single steps.

  function Begun(s: State): State
    requires s.launching != []
  {
    s.(launching := s.launching[..0] + s.launching[1..], envoking := s.envoking[s.next := s.launching[0]],
       live := s.live + {s.next}, next := s.next + 1)
  }

  function Readied(s: State, p: Proc): State
    requires p in s.envoking
  {
    s.(envoking := s.envoking - {p}, started := s.started[p := s.envoking[p]])
  }

  function Registered(s: State, p: Proc): State
    requires p in s.started
  {
    s.(started := s.started - {p}, vars := s.vars.(group := s.vars.group[p := s.started[p]]),
       waiting := s.waiting + {p})
  }

  function Died(s: State, p: Proc): State {
    s.(live := s.live - {p}, results := s.results[p := None])
  }

  function Reported(s: State, p: Proc): State {
    s.(waiting := s.waiting - {p}, exits := s.exits + {p})
  }

  function Exited(s: State, p: Proc): State
    requires p in s.vars.group && p in s.results
  {
    var o := OnExit(s.vars, p, s.results[p], None);
    s.(exits := s.exits - {p}, vars := o.vars, told := if o.signalled then s.told + o.vars.group.Keys else s.told,
       launching := if o.launch.Some? then s.launching + [o.launch.value] else s.launching)
  }

  lemma BegunNext(s: State)
    requires Inv(s) && s.launching != []
    ensures Next(s, Begin(0), Begun(s)) && Inv(Begun(s))
  {
    StepKeepsInv(s, Begin(0), Begun(s));
  }

  lemma ReadiedNext(s: State, p: Proc)
    requires Inv(s) && p in s.envoking
    ensures Next(s, Ready(p), Readied(s, p)) && Inv(Readied(s, p))
  {
    StepKeepsInv(s, Ready(p), Readied(s, p));
  }

  lemma RegisteredNext(s: State, p: Proc)
    requires Inv(s) && s.phase == Looping && p in s.started
    ensures Next(s, TakeStarted(p), Registered(s, p)) && Inv(Registered(s, p))
  {
    SelectsWith(s, p);
    StepKeepsInv(s, TakeStarted(p), Registered(s, p));
  }

  lemma DiedNext(s: State, p: Proc)
    requires Inv(s) && p in s.live
    ensures Next(s, Die(p, None), Died(s, p)) && Inv(Died(s, p))
  {
    StepKeepsInv(s, Die(p, None), Died(s, p));
  }

  lemma ReportedNext(s: State, p: Proc)
    requires Inv(s) && p in s.waiting && p in s.results
    ensures Next(s, Report(p), Reported(s, p)) && Inv(Reported(s, p))
  {
    StepKeepsInv(s, Report(p), Reported(s, p));
  }

  lemma ExitedNext(s: State, p: Proc)
    requires Inv(s) && s.phase == Looping && p in s.exits
    ensures p in s.vars.group && p in s.results
    ensures Next(s, TakeExit(p, None), Exited(s, p)) && Inv(Exited(s, p))
  {
    assert Tracked(s, p);
    SelectsWith(s, p);
    StepKeepsInv(s, TakeExit(p, None), Exited(s, p));
  }

  /** A registered loud member exits while p is registered: p is told. */
  lemma LoudExitTells(s: State, p: Proc, q: Proc)
    requires Stopping(s) && p in s.vars.group && q in s.vars.group && q != p && Loud(s.vars.group[q])
    ensures CanBeTold(s, p)
    decreases if q in s.exits then 0 else if q in s.results then 1 else 2
  {
    assert Tracked(s, q);
    if q in s.exits {
      ExitedNext(s, q);
      var s' := Exited(s, q);
      assert IsTold(s', p, [], [s']);
      ToldFurtherOn(s, p, TakeExit(q, None), s');
    } else if q in s.results {
      ReportedNext(s, q);
      LoudExitTells(Reported(s, q), p, q);
      ToldFurtherOn(s, p, Report(q), Reported(s, q));
    } else {
      DiedNext(s, q);
      LoudExitTells(Died(s, q), p, q);
      ToldFurtherOn(s, p, Die(q, None), Died(s, q));
    }
  }

  lemma LoudStartedTells(s: State, p: Proc, q: Proc)
    requires Stopping(s) && p in s.vars.group && q in s.started && q != p && Loud(s.started[q])
    ensures CanBeTold(s, p)
  {
    RegisteredNext(s, q);
    LoudExitTells(Registered(s, q), p, q);
    ToldFurtherOn(s, p, TakeStarted(q), Registered(s, q));
  }

  lemma LoudEnvokingTells(s: State, p: Proc, q: Proc)
    requires Stopping(s) && p in s.vars.group && q in s.envoking && q != p && Loud(s.envoking[q])
    ensures CanBeTold(s, p)
  {
    ReadiedNext(s, q);
    LoudStartedTells(Readied(s, q), p, q);
    ToldFurtherOn(s, p, Ready(q), Readied(s, q));
  }

  lemma LoudLaunchingTells(s: State, p: Proc, k: nat)
    requires Stopping(s) && p in s.vars.group && k < |s.launching| && Loud(s.launching[k])
    ensures CanBeTold(s, p)
  {
    var s' := s.(launching := s.launching[..k] + s.launching[k + 1..], envoking := s.envoking[s.next := s.launching[k]],
                 live := s.live + {s.next}, next := s.next + 1);
    StepKeepsInv(s, Begin(k), s');
    assert Tracked(s, p);
    LoudEnvokingTells(s', p, s.next);
    ToldFurtherOn(s, p, Begin(k), s');
  }

  lemma RegisteredCanBeTold(s: State, p: Proc)
    requires Stopping(s) && p in s.vars.group && AnotherIsLoud(s, p)
    ensures CanBeTold(s, p)
  {
    if q :| q in s.vars.group && q != p && Loud(s.vars.group[q]) {
      LoudExitTells(s, p, q);
    } else if q :| q in s.started && q != p && Loud(s.started[q]) {
      LoudStartedTells(s, p, q);
    } else if q :| q in s.envoking && q != p && Loud(s.envoking[q]) {
      LoudEnvokingTells(s, p, q);
    } else {
      var k :| 0 <= k < |s.launching| && Loud(s.launching[k]);
      LoudLaunchingTells(s, p, k);
    }
  }

  lemma ReadiedStaysLoud(s: State, p: Proc)
    requires Inv(s) && p in s.envoking && AnotherIsLoud(s, p)
    ensures AnotherIsLoud(Readied(s, p), p)
  {
    var s' := Readied(s, p);
    if q :| q in s.envoking && q != p && Loud(s.envoking[q]) {
      assert q in s'.envoking && s'.envoking[q] == s.envoking[q];
    } else if q :| q in s.started && q != p && Loud(s.started[q]) {
      assert q in s'.started && s'.started[q] == s.started[q];
    }
  }

  lemma RegisteredStaysLoud(s: State, p: Proc)
    requires Inv(s) && p in s.started && AnotherIsLoud(s, p)
    ensures AnotherIsLoud(Registered(s, p), p)
  {
    var s' := Registered(s, p);
    if q :| q in s.started && q != p && Loud(s.started[q]) {
      assert q in s'.started && s'.started[q] == s.started[q];
    } else if q :| q in s.vars.group && q != p && Loud(s.vars.group[q]) {
      assert q in s'.vars.group && s'.vars.group[q] == s.vars.group[q];
    }
  }

  lemma StartedCanBeTold(s: State, p: Proc)
    requires Stopping(s) && p in s.started && AnotherIsLoud(s, p)
    ensures CanBeTold(s, p)
  {
    RegisteredStaysLoud(s, p);
    RegisteredNext(s, p);
    RegisteredCanBeTold(Registered(s, p), p);
    ToldFurtherOn(s, p, TakeStarted(p), Registered(s, p));
  }

  lemma TrackedCanBeTold(s: State, p: Proc)
    requires Stopping(s) && Tracked(s, p) && AnotherIsLoud(s, p)
    ensures CanBeTold(s, p)
  {
    if p in s.envoking {
      ReadiedStaysLoud(s, p);
      ReadiedNext(s, p);
      StartedCanBeTold(Readied(s, p), p);
      ToldFurtherOn(s, p, Ready(p), Readied(s, p));
    } else if p in s.started {
      StartedCanBeTold(s, p);
    } else {
      RegisteredCanBeTold(s, p);
    }
  }

  /** Once the group is to stop, a process that it knows or is starting and that has not
      been signalled yet can still be signalled without a further signal from outside if
      and only if some other member, registered or on its way, has the group signalled
      when it exits. */
  lemma CanBeToldIff(s: State, p: Proc)
    requires Stopping(s) && Tracked(s, p) && p !in s.told
    ensures CanBeTold(s, p) <==> AnotherIsLoud(s, p)
  {
    if AnotherIsLoud(s, p) {
      TrackedCanBeTold(s, p);
    } else if CanBeTold(s, p) {
      var steps, run :| IsTold(s, p, steps, run);
      StaysLeftOut(s, p, steps, run, |steps|);
      assert false;
    }
  }

  // ------------------------------------------------------------ who is left out for good

  /** The group goes on to a state with a living registered process that was never
      signalled, and that no further exit can signal. */
  ghost predicate LeavesOut(s: State, steps: seq<Step>, run: seq<State>, p: Proc) {
    && GoesOn(s, steps, run)
    && var to := run[|steps|];
    && p in to.live && p in to.vars.group && p !in to.told && !CanBeTold(to, p)
  }

  ghost predicate SomeoneIsLeftOut(s: State) {
    exists steps, run, p :: LeavesOut(s, steps, run, p)
  }

  lemma LeftOutFurtherOn(s: State, step: Step, s': State)
    requires Next(s, step, s') && !step.TakeSignal? && SomeoneIsLeftOut(s')
    ensures SomeoneIsLeftOut(s)
  {
    var steps, run, p :| LeavesOut(s', steps, run, p);
    GoesOnFrom(s, step, s', steps, run);
    assert LeavesOut(s, [step] + steps, [s] + run, p);
  }

  /** Nothing is left but p, which is registered last. */
  lemma LastIsLeftOut(s: State, p: Proc)
    requires Stopping(s) && p in s.started && p in s.live
    requires s.launching == [] && s.envoking == map[] && s.vars.group == map[] && forall q | q in s.started :: q == p
    ensures SomeoneIsLeftOut(s)
  {
    var s' := Registered(s, p);
    RegisteredNext(s, p);
    assert forall q | q in s'.vars.group :: q == p;
    assert forall q :: q !in s'.started;
    CanBeToldIff(s', p);
    assert LeavesOut(s', [], [s'], p);
    LeftOutFurtherOn(s, TakeStarted(p), s');
  }

  /** While p is started but not registered yet, everything else may come to its end. */
  lemma {:induction false} OthersMayGo(s: State, p: Proc)
    requires Stopping(s) && p in s.started && p in s.live
    ensures SomeoneIsLeftOut(s)
    decreases |s.launching|, |s.envoking.Keys|, |s.started.Keys|, |s.vars.group.Keys|, |s.waiting|, |s.live|, 1
  {
    if s.launching != [] {
      BegunNext(s);
      OthersMayGo(Begun(s), p);
      LeftOutFurtherOn(s, Begin(0), Begun(s));
    } else if s.envoking.Keys != {} {
      var q := Pick(s.envoking.Keys);
      ReadiedNext(s, q);
      SizeOfMinus(s.envoking, q);
      OthersMayGo(Readied(s, q), p);
      LeftOutFurtherOn(s, Ready(q), Readied(s, q));
    } else if s.started.Keys - {p} != {} {
      var q := Pick(s.started.Keys - {p});
      RegisteredNext(s, q);
      SizeOfMinus(s.started, q);
      OthersMayGo(Registered(s, q), p);
      LeftOutFurtherOn(s, TakeStarted(q), Registered(s, q));
    } else if s.vars.group.Keys != {} {
      var q := Pick(s.vars.group.Keys);
      OneMayGo(s, p, q);
    } else {
      assert s.envoking == map[] && s.vars.group == map[];
      forall q | q in s.started
        ensures q == p
      {
        assert q !in s.started.Keys - {p};
      }
      LastIsLeftOut(s, p);
    }
  }

  lemma OneMayGo(s: State, p: Proc, q: Proc)
    requires Stopping(s) && p in s.started && p in s.live && q in s.vars.group
    ensures SomeoneIsLeftOut(s)
    decreases |s.launching|, |s.envoking.Keys|, |s.started.Keys|, |s.vars.group.Keys|, |s.waiting|, |s.live|, 0
  {
    assert Tracked(s, q);
    if q in s.exits {
      ExitedNext(s, q);
      SizeOfMinus(s.vars.group, q);
      assert Exited(s, q).vars.group == s.vars.group - {q};
      OthersMayGo(Exited(s, q), p);
      LeftOutFurtherOn(s, TakeExit(q, None), Exited(s, q));
    } else if q in s.results {
      ReportedNext(s, q);
      OthersMayGo(Reported(s, q), p);
      LeftOutFurtherOn(s, Report(q), Reported(s, q));
    } else {
      DiedNext(s, q);
      OthersMayGo(Died(s, q), p);
      LeftOutFurtherOn(s, Die(q, None), Died(s, q));
    }
  }

  lemma EnvokingIsLeftOut(s: State, p: Proc)
    requires Stopping(s) && p in s.envoking && p in s.live
    ensures SomeoneIsLeftOut(s)
  {
    ReadiedNext(s, p);
    OthersMayGo(Readied(s, p), p);
    LeftOutFurtherOn(s, Ready(p), Readied(s, p));
  }

  /** Everything alive has been signalled, and nothing more is going to be started. */
  ghost predicate EveryoneKnows(s: State) {
    s.vars.signaledToStop && s.launching == [] && forall p | p in s.live :: p in s.told
  }

  lemma StepKeepsKnowing(s: State, step: Step, s': State)
    requires EveryoneKnows(s) && Next(s, step, s')
    ensures EveryoneKnows(s')
  {
  }

  lemma {:induction false} KnowingLasts(s: State, steps: seq<Step>, run: seq<State>, k: nat)
    requires EveryoneKnows(s) && GoesOn(s, steps, run) && k < |run|
    ensures EveryoneKnows(run[k])
  {
    if k > 0 {
      KnowingLasts(s, steps, run, k - 1);
      StepKeepsKnowing(run[k - 1], steps[k - 1], run[k]);
    }
  }

  /** Nothing is on its way: no member is about to be started, and no living process is
      being started or waits to be registered. */
  ghost predicate NoneOnTheWay(s: State) {
    s.launching == [] && forall p | p in s.live :: p in s.vars.group
  }

  /** A stop reaches everyone, whatever comes after it, if and only if nothing was on its
      way when it was decided: otherwise the group may go on so that a member which was
      just being restarted is registered, lives, and is never signalled. */
  lemma StopReachesEveryoneIff(before: State, step: Step, s: State)
    requires Inv(before) && Next(before, step, s) && !before.vars.signaledToStop && s.vars.signaledToStop
    ensures SomeoneIsLeftOut(s) <==> !NoneOnTheWay(s)
  {
    StepKeepsInv(before, step, s);
    StopSignalsTheRegistered(before, step, s);
    if NoneOnTheWay(s) {
      assert EveryoneKnows(s);
      if SomeoneIsLeftOut(s) {
        var steps, run, p :| LeavesOut(s, steps, run, p);
        KnowingLasts(s, steps, run, |steps|);
        assert false;
      }
    } else {
      SomethingOnTheWay(s);
    }
  }

  lemma SomethingOnTheWay(s: State)
    requires Stopping(s) && !NoneOnTheWay(s)
    ensures SomeoneIsLeftOut(s)
  {
    if s.launching != [] {
      BegunNext(s);
      EnvokingIsLeftOut(Begun(s), s.next);
      LeftOutFurtherOn(s, Begin(0), Begun(s));
    } else {
      var p :| p in s.live && p !in s.vars.group;
      assert Tracked(s, p);
      if p in s.envoking {
        EnvokingIsLeftOut(s, p);
      } else {
        OthersMayGo(s, p);
      }
    }
  }

  // ------------------------------------------------------------ a group that gets there

  /** The group of one member, registered and alive. */
  ghost predicate OneRuns(s: State, member: Member) {
    && s.phase == Looping && s.vars == Vars(map[0 := member], 1, false, None)
    && s.launching == [] && s.envoking == map[] && s.started == map[] && s.waiting == {0} && s.exits == {}
    && s.live == {0} && s.results == map[] && s.told == {} && s.next == 1
  }

  lemma OneStarts(member: Member) returns (steps: seq<Step>, run: seq<State>)
    ensures IsRun([member], steps, run) && OneRuns(run[|steps|], member)
  {
    var s0 := Init([member]);
    var s1 := Begun(s0);
    var s2 := Readied(s1, 0);
    var s3 := s2.(started := s2.started - {0}, vars := s2.vars.(group := s2.vars.group[0 := s2.started[0]]));
    var s4 := s3.(phase := Looping, vars := s3.vars.(desiredCount := |s3.vars.group|), waiting := s3.vars.group.Keys);
    assert s1.launching == [];
    assert s2.envoking == map[];
    assert s3.started == map[] && |s3.vars.group| == 1;
    steps, run := [Begin(0), Ready(0), Gather(0), StartLoop], [s0, s1, s2, s3, s4];
    assert Next(s0, Begin(0), s1) && Next(s1, Ready(0), s2) && Next(s2, Gather(0), s3) && Next(s3, StartLoop, s4);
  }

  /** The member exits and is to be restarted; only then the signal comes. */
  lemma OneIsRestarted(s4: State, member: Member) returns (steps: seq<Step>, run: seq<State>)
    requires OneRuns(s4, member) && member.restart.attemptRestart
    ensures |steps| == 4 && |run| == 5 && run[0] == s4 && steps[3] == TakeSignal
    ensures forall k | 0 <= k < 4 :: Next(run[k], steps[k], run[k + 1])
    ensures !run[3].vars.signaledToStop && run[4].vars.signaledToStop && run[4].launching != []
  {
    var s5 := Died(s4, 0);
    var s6 := Reported(s5, 0);
    var o := OnExit(s6.vars, 0, None, Some(1));
    var s7 := s6.(exits := s6.exits - {0}, vars := o.vars,
                  told := if o.signalled then s6.told + o.vars.group.Keys else s6.told,
                  launching := s6.launching + [o.launch.value]);
    var s8 := s7.(vars := s7.vars.(signaledToStop := true), told := s7.told + s7.vars.group.Keys);
    steps, run := [Die(0, None), Report(0), TakeExit(0, Some(1)), TakeSignal], [s4, s5, s6, s7, s8];
    assert Next(s4, Die(0, None), s5) && Next(s5, Report(0), s6) && Next(s6, TakeExit(0, Some(1)), s7) &&
        Next(s7, TakeSignal, s8);
  }

  /** Every group of one member that is to be restarted can get there from its start: the
      member is being restarted when the stop is signalled, and then left out for good. */
  lemma OneIsLeftOut(member: Member) returns (steps: seq<Step>, run: seq<State>)
    requires member.restart.attemptRestart
    ensures IsRun([member], steps, run)
    ensures |steps| > 0 && steps[|steps| - 1] == TakeSignal && SomeoneIsLeftOut(run[|steps|])
  {
    var first, states := OneStarts(member);
    var next, rest := OneIsRestarted(states[|first|], member);
    steps, run := first + next, states + rest[1..];
    RunGoesOn([member], first, states, next, rest);
    assert steps[|steps| - 1] == TakeSignal;
    RunKeepsInv([member], steps, run, |steps| - 1);
    StopReachesEveryoneIff(rest[3], TakeSignal, rest[4]);
  }

  lemma RunGoesOn(members: seq<Member>, first: seq<Step>, states: seq<State>, next: seq<Step>, rest: seq<State>)
    requires IsRun(members, first, states) && |rest| == |next| + 1 && rest[0] == states[|first|]
    requires forall k | 0 <= k < |next| :: Next(rest[k], next[k], rest[k + 1])
    ensures IsRun(members, first + next, states + rest[1..])
    ensures forall k | 0 <= k < |rest| :: (states + rest[1..])[|first| + k] == rest[k]
  {
    var steps, run := first + next, states + rest[1..];
    forall k | 0 <= k < |steps|
      ensures Next(run[k], steps[k], run[k + 1])
    {
      if k >= |first| {
        assert run[k] == rest[k - |first|] && run[k + 1] == rest[k + 1 - |first|];
      }
    }
  }
}
