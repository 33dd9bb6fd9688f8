/** When a group decides to stop, which members it starts again, and what it returns. */
module MembersRestart {
  import opened Wrappers
  import opened Members

  /** A signal from outside, or the exit of a member that is not to be restarted and whose
      exit has the group signalled. */
  ghost predicate DecidesToStop(s: State, step: Step) {
    || step.TakeSignal?
    || (step.TakeExit? && step.p in s.vars.group
        && !s.vars.group[step.p].restart.attemptRestart && s.vars.group[step.p].restart.signal != Continue)
  }

  ghost predicate DecidedBefore(steps: seq<Step>, run: seq<State>, k: nat)
    requires |run| == |steps| + 1 && k <= |steps|
  {
    exists j :: 0 <= j < k && DecidesToStop(run[j], steps[j])
  }

  lemma StepDecides(s: State, step: Step, s': State)
    requires Inv(s) && Next(s, step, s')
    ensures s'.vars.signaledToStop <==> s.vars.signaledToStop || DecidesToStop(s, step)
  {
    if step.TakeExit? {
      assert step.p in s.vars.group;
    }
  }

  /** In every state of every run the group is to stop if and only if a signal was received
      or a member exited that is not to be restarted and has the rest signalled. */
  lemma {:induction false} StopsIff(members: seq<Member>, steps: seq<Step>, run: seq<State>, k: nat)
    requires IsRun(members, steps, run) && k < |run|
    ensures run[k].vars.signaledToStop <==> DecidedBefore(steps, run, k)
  {
    if k > 0 {
      StopsIff(members, steps, run, k - 1);
      RunKeepsInv(members, steps, run, k - 1);
      StepDecides(run[k - 1], steps[k - 1], run[k]);
      assert DecidedBefore(steps, run, k) <==>
             DecidedBefore(steps, run, k - 1) || DecidesToStop(run[k - 1], steps[k - 1]);
    }
  }

  /** In every run an exit starts the member again, with the runner that was loaded and all
      else as it was, if and only if no decision to stop was taken before, the member is to
      be restarted and there is such a runner; only then does the count stay. It signals
      the rest if and only if that is the member's signal. */
  lemma RestartsIff(members: seq<Member>, steps: seq<Step>, run: seq<State>, k: nat)
    requires IsRun(members, steps, run) && k < |steps| && steps[k].TakeExit?
    ensures steps[k].p in run[k].vars.group
    ensures var s, s', p, loaded := run[k], run[k + 1], steps[k].p, steps[k].loaded;
            var member := s.vars.group[p];
            var again := !DecidedBefore(steps, run, k) && member.restart.attemptRestart && loaded.Some?;
            && s'.launching ==
                 s.launching + (if again then [Member(member.name, loaded.value, member.restart)] else [])
            && s'.vars.desiredCount == s.vars.desiredCount - (if again then 0 else 1)
            && s'.vars.group == s.vars.group - {p}
            && s'.told == s.told + if member.restart.signal != Continue then s.vars.group.Keys - {p} else {}
  {
    RunKeepsInv(members, steps, run, k);
    StopsIff(members, steps, run, k);
    assert Next(run[k], steps[k], run[k + 1]);
    ExitRestarts(run[k], steps[k], run[k + 1]);
  }

  lemma ExitRestarts(s: State, step: Step, s': State)
    requires Inv(s) && Next(s, step, s') && step.TakeExit?
    ensures step.p in s.vars.group
    ensures var member := s.vars.group[step.p];
            var again := !s.vars.signaledToStop && member.restart.attemptRestart && step.loaded.Some?;
            && s'.launching ==
                 s.launching + (if again then [Member(member.name, step.loaded.value, member.restart)] else [])
            && s'.vars.desiredCount == s.vars.desiredCount - (if again then 0 else 1)
            && s'.vars.group == s.vars.group - {step.p}
            && s'.told == s.told + if member.restart.signal != Continue then s.vars.group.Keys - {step.p} else {}
  {
    assert step.p in s.vars.group;
    assert s.launching + [] == s.launching;
    assert s.told + {} == s.told;
  }

  /** Nothing else starts a member or signals one: all other steps of a run leave the
      members to be started as they are, or take one of them away to start it. */
  lemma OnlyExitsRestart(members: seq<Member>, steps: seq<Step>, run: seq<State>, k: nat)
    requires IsRun(members, steps, run) && k < |steps| && !steps[k].TakeExit?
    ensures if steps[k].Begin?
            then steps[k].k < |run[k].launching| &&
                 run[k + 1].launching == run[k].launching[..steps[k].k] + run[k].launching[steps[k].k + 1..]
            else run[k + 1].launching == run[k].launching
    ensures run[k + 1].told == if steps[k].TakeSignal? then run[k].told + run[k].vars.group.Keys else run[k].told
  {
    assert Next(run[k], steps[k], run[k + 1]);
  }

  // ----------------------------------------------------------------- what Run returns

  /** The last member that ended with an error before the group was to stop. */
  ghost predicate LastFault(steps: seq<Step>, run: seq<State>, k: nat, j: nat)
    requires |run| == |steps| + 1 && k <= |steps|
  {
    j < k && IsFault(run[j], steps[j]) && forall m | j < m < k :: !IsFault(run[m], steps[m])
  }

  ghost predicate Names(s: State, step: Step, err: Option<string>) {
    && step.TakeExit? && step.p in s.vars.group && step.p in s.results && s.results[step.p].Some?
    && err == Some(s.vars.group[step.p].name + " exited with error: " + s.results[step.p].value)
  }

  lemma FaultIsNamed(s: State, step: Step, s': State)
    requires Inv(s) && Next(s, step, s')
    ensures if IsFault(s, step) then Names(s, step, s'.vars.errToReturn) else s'.vars.errToReturn == s.vars.errToReturn
  {
    if step.TakeExit? {
      assert step.p in s.vars.group;
    }
  }

  /** In every run the error that Run is to return names the last member that ended with
      one before the group was to stop, and what it ended with. */
  lemma {:induction false} ErrorIsOfLastFault(members: seq<Member>, steps: seq<Step>, run: seq<State>, k: nat)
    requires IsRun(members, steps, run) && k < |run|
    ensures run[k].vars.errToReturn.Some? ==>
              exists j: nat :: LastFault(steps, run, k, j) && Names(run[j], steps[j], run[k].vars.errToReturn)
    ensures run[k].vars.errToReturn.None? ==> forall j | 0 <= j < k :: !IsFault(run[j], steps[j])
  {
    if k > 0 {
      ErrorIsOfLastFault(members, steps, run, k - 1);
      RunKeepsInv(members, steps, run, k - 1);
      FaultIsNamed(run[k - 1], steps[k - 1], run[k]);
      if IsFault(run[k - 1], steps[k - 1]) {
        assert LastFault(steps, run, k, k - 1);
      } else if run[k].vars.errToReturn.Some? {
        var j: nat :| LastFault(steps, run, k - 1, j) && Names(run[j], steps[j], run[k - 1].vars.errToReturn);
        assert LastFault(steps, run, k, j);
      }
    }
  }
}
