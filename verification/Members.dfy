/** A process group that restarts its members, at large: the variables of the select loop,
    the goroutines that start members and wait for them, and the processes themselves. */
module Members {
  import opened Collections
  import opened Wrappers

  type Proc = int

  datatype Signal = Continue | Interrupt | OtherSignal(number: nat)

  datatype Restart = Restart(attemptRestart: bool, signal: Signal)

  /** The runner is known by a number; what it does is up to it. */
  datatype Member = Member(name: string, runner: nat, restart: Restart)

  /** The variables of the loop. */
  datatype Vars = Vars(group: map<Proc, Member>, desiredCount: int, signaledToStop: bool, errToReturn: Option<string>)

  /** What handling an exit does: the new variables, whether the rest of the group is
      signalled, and the member to start, if any. */
  datatype Outcome = Outcome(vars: Vars, signalled: bool, launch: Option<Member>)

  /** `loaded` is the next runner, if the member's runner is a Loader and has one. */
  function OnExit(v: Vars, p: Proc, err: Option<string>, loaded: Option<nat>): Outcome
    requires p in v.group
  {
    var member := v.group[p];
    var signalled := member.restart.signal != Continue;
    var left := v.(group := v.group - {p}, desiredCount := v.desiredCount - 1);
    if v.signaledToStop then Outcome(left, signalled, None)
    else
      var noted := if err.Some? then left.(errToReturn := Some(member.name + " exited with error: " + err.value))
          else left;
      if !member.restart.attemptRestart then Outcome(noted.(signaledToStop := signalled), signalled, None)
      else if loaded.None? then Outcome(noted, signalled, None)
      else Outcome(noted.(desiredCount := noted.desiredCount + 1), signalled, Some(member.(runner := loaded.value)))
  }

  // ---------------------------------------------------------------- the group at large

  datatype Phase = Gathering(size: nat) | Looping | Returned(err: Option<string>) | Panicked

  /** Members about to be started (`launching`), being started (`envoking`), started but
      not yet registered (`started`); goroutines that wait for a registered process, and
      exits that they have sent but that are not yet received; the processes alive, and
      how the others ended; those ever signalled. */
  datatype State = State(
    phase: Phase, vars: Vars, launching: seq<Member>, envoking: map<Proc, Member>, started: map<Proc, Member>,
    waiting: set<Proc>, exits: set<Proc>, live: set<Proc>, results: map<Proc, Option<string>>, told: set<Proc>,
    next: Proc)

  datatype Step =
    | Begin(k: nat)
    | Ready(p: Proc)
    | Gather(p: Proc)
    | StartLoop
    | Die(p: Proc, err: Option<string>)
    | Report(p: Proc)
    | TakeSignal
    | TakeStarted(p: Proc)
    | TakeExit(p: Proc, loaded: Option<nat>)
    | Return

  function Init(members: seq<Member>): State {
    State(Gathering(|members|), Vars(map[], 0, false, None), members, map[], map[], {}, {}, {}, map[], {}, 0)
  }

  predicate Selecting(s: State) {
    s.phase == Looping && s.vars.desiredCount != 0
  }

  ghost predicate Next(s: State, step: Step, s': State) {
    match step
    case Begin(k) =>
      && k < |s.launching|
      && s' == s.(launching := s.launching[..k] + s.launching[k + 1..],
          envoking := s.envoking[s.next := s.launching[k]],
                  live := s.live + {s.next}, next := s.next + 1)
    case Ready(p) =>
      p in s.envoking && s' == s.(envoking := s.envoking - {p}, started := s.started[p := s.envoking[p]])
    case Gather(p) =>
      && s.phase.Gathering? && |s.vars.group| < s.phase.size && p in s.started
      && s' == s.(started := s.started - {p}, vars := s.vars.(group := s.vars.group[p := s.started[p]]))
    case StartLoop =>
      && s.phase.Gathering? && |s.vars.group| == s.phase.size
      && s' == s.(phase := Looping, vars := s.vars.(desiredCount := |s.vars.group|), waiting := s.vars.group.Keys)
    case Die(p, err) => p in s.live && s' == s.(live := s.live - {p}, results := s.results[p := err])
    case Report(p) =>
      p in s.waiting && p in s.results && s' == s.(waiting := s.waiting - {p}, exits := s.exits + {p})
    case TakeSignal =>
      Selecting(s) && s' == s.(vars := s.vars.(signaledToStop := true), told := s.told + s.vars.group.Keys)
    case TakeStarted(p) =>
      && Selecting(s) && p in s.started
      && s' == s.(started := s.started - {p}, vars := s.vars.(group := s.vars.group[p := s.started[p]]),
                  waiting := s.waiting + {p})
    case TakeExit(p, loaded) =>
      && Selecting(s) && p in s.exits && p in s.results
      && if p !in s.vars.group then s' == s.(phase := Panicked)
         else
           var o := OnExit(s.vars, p, s.results[p], loaded);
           s' == s.(exits := s.exits - {p}, vars := o.vars,
                    told := if o.signalled then s.told + o.vars.group.Keys else s.told,
                    launching := if o.launch.Some? then s.launching + [o.launch.value] else s.launching)
    case Return => s.phase == Looping && s.vars.desiredCount == 0 && s' == s.(phase := Returned(s.vars.errToReturn))
  }

  /** The members that are wanted: registered or on their way. */
  function Count(s: State): nat {
    |s.vars.group.Keys| + |s.started.Keys| + |s.envoking.Keys| + |s.launching|
  }

  /** Every process is in one place at a time. */
  ghost predicate Apart(s: State) {
    s.envoking.Keys !! s.started.Keys && s.envoking.Keys !! s.vars.group.Keys && s.started.Keys !! s.vars.group.Keys
  }

  ghost predicate Tracked(s: State, p: Proc) {
    p in s.envoking || p in s.started || p in s.vars.group
  }

  /** The processes that are tracked are alive or have ended, and no others are alive. */
  ghost predicate Fates(s: State) {
    && (forall p | Tracked(s, p) :: p < s.next && (p in s.live <==> p !in s.results))
    && (forall p | p in s.live :: Tracked(s, p))
    && (forall p | p in s.results :: p < s.next)
  }

  /** Nothing is signalled before it is registered. */
  ghost predicate Signalled(s: State) {
    forall p | p in s.told :: p < s.next && p !in s.envoking && p !in s.started
  }

  /** Every registered process is waited for exactly once. */
  ghost predicate Awaited(s: State) {
    && (forall p | p in s.exits :: p in s.results && p !in s.waiting)
    && (if s.phase.Gathering? then s.waiting == {} && s.exits == {}
        else forall p :: p in s.vars.group <==> p in s.waiting || p in s.exits)
  }

  /** The count is right. */
  ghost predicate Counted(s: State) {
    match s.phase
    case Gathering(size) => Count(s) == size && !s.vars.signaledToStop
    case Looping => s.vars.desiredCount == Count(s)
    case Returned(_) => s.vars.desiredCount == Count(s) == 0
    case Panicked => false
  }

  ghost predicate Inv(s: State) {
    Apart(s) && Fates(s) && Signalled(s) && Awaited(s) && Counted(s)
  }

  lemma SizeOfMinus<K, V>(m: map<K, V>, k: K)
    requires k in m
    ensures (m - {k}).Keys == m.Keys - {k} && |(m - {k}).Keys| == |m.Keys| - 1
  {
    assert (m - {k}).Keys == m.Keys - {k};
  }

  lemma SizeOfPlus<K, V>(m: map<K, V>, k: K, v: V)
    requires k !in m
    ensures m[k := v].Keys == m.Keys + {k} && |m[k := v].Keys| == |m.Keys| + 1
  {
  }

  lemma StepKeepsApart(s: State, step: Step, s': State)
    requires Apart(s) && Fates(s) && Next(s, step, s')
    ensures Apart(s')
  {
    if step.Begin? {
      assert forall p | Tracked(s, p) :: p < s.next;
    }
  }

  lemma MoveKeepsFates(s: State, step: Step, s': State)
    requires Fates(s) && Next(s, step, s') && (step.Ready? || step.Gather? || step.TakeStarted?)
    ensures Fates(s')
  {
    assert forall p :: Tracked(s', p) <==> Tracked(s, p);
  }

  lemma BeginKeepsFates(s: State, step: Step, s': State)
    requires Fates(s) && Next(s, step, s') && step.Begin?
    ensures Fates(s')
  {
    assert forall p :: Tracked(s', p) <==> Tracked(s, p) || p == s.next;
    assert s.next !in s.results;
  }

  lemma DieKeepsFates(s: State, step: Step, s': State)
    requires Fates(s) && Next(s, step, s') && step.Die?
    ensures Fates(s')
  {
    assert forall p :: Tracked(s', p) <==> Tracked(s, p);
    assert Tracked(s, step.p);
  }

  lemma ExitKeepsFates(s: State, step: Step, s': State)
    requires Fates(s) && Awaited(s) && s.phase == Looping && Next(s, step, s') && step.TakeExit?
    ensures Fates(s')
  {
    assert step.p in s.vars.group;
    assert Tracked(s, step.p);
    assert s'.vars.group == s.vars.group - {step.p};
    assert forall p | Tracked(s', p) :: Tracked(s, p);
    assert forall p | Tracked(s, p) && p != step.p :: Tracked(s', p);
  }

  lemma StepKeepsFates(s: State, step: Step, s': State)
    requires Fates(s) && Awaited(s) && Next(s, step, s')
    ensures Fates(s')
  {
    match step
    case Begin(_) => BeginKeepsFates(s, step, s');
    case Ready(_) => MoveKeepsFates(s, step, s');
    case Gather(_) => MoveKeepsFates(s, step, s');
    case TakeStarted(_) => MoveKeepsFates(s, step, s');
    case TakeExit(_, _) => ExitKeepsFates(s, step, s');
    case Die(_, _) => DieKeepsFates(s, step, s');
    case _ => assert forall p :: Tracked(s', p) <==> Tracked(s, p);
  }

  lemma ExitTells(s: State, step: Step, s': State)
    requires Next(s, step, s') && step.TakeExit? && !s'.phase.Panicked?
    ensures forall p | p in s'.told :: p in s.told || p in s.vars.group
  {
    assert s'.vars.group == s.vars.group - {step.p};
  }

  lemma StepKeepsSignalled(s: State, step: Step, s': State)
    requires Apart(s) && Fates(s) && Signalled(s) && Next(s, step, s') && !s'.phase.Panicked?
    ensures Signalled(s')
  {
    forall p | p in s'.told
      ensures p < s'.next && p !in s'.envoking && p !in s'.started
    {
      if step.TakeExit? {
        ExitTells(s, step, s');
      }
      assert p in s.told || p in s.vars.group;
      assert p in s.vars.group ==> Tracked(s, p);
    }
  }

  lemma ExitKeepsAwaited(s: State, step: Step, s': State)
    requires Awaited(s) && Next(s, step, s') && step.TakeExit?
    ensures Awaited(s') && step.p in s.vars.group
  {
    assert s'.vars.group == s.vars.group - {step.p};
  }

  lemma StepKeepsAwaited(s: State, step: Step, s': State)
    requires Apart(s) && Fates(s) && Awaited(s) && Next(s, step, s')
    ensures Awaited(s')
  {
    match step
    case TakeExit(_, _) => ExitKeepsAwaited(s, step, s');
    case TakeStarted(p) => assert p !in s.vars.group;
    case _ =>
  }

  lemma BeginKeepsCount(s: State, step: Step, s': State)
    requires Fates(s) && Next(s, step, s') && step.Begin?
    ensures Count(s') == Count(s)
  {
    assert !Tracked(s, s.next);
    SizeOfPlus(s.envoking, s.next, s.launching[step.k]);
  }

  lemma ReadyKeepsCount(s: State, step: Step, s': State)
    requires Apart(s) && Next(s, step, s') && step.Ready?
    ensures Count(s') == Count(s)
  {
    SizeOfMinus(s.envoking, step.p);
    SizeOfPlus(s.started, step.p, s.envoking[step.p]);
  }

  lemma RegisterKeepsCount(s: State, step: Step, s': State)
    requires Apart(s) && Next(s, step, s') && (step.Gather? || step.TakeStarted?)
    ensures Count(s') == Count(s)
  {
    SizeOfMinus(s.started, step.p);
    SizeOfPlus(s.vars.group, step.p, s.started[step.p]);
  }

  lemma ExitKeepsCounted(s: State, step: Step, s': State)
    requires Counted(s) && Next(s, step, s') && step.TakeExit? && step.p in s.vars.group
    ensures Counted(s')
  {
    SizeOfMinus(s.vars.group, step.p);
    assert s'.vars.group == s.vars.group - {step.p};
  }

  lemma StepKeepsCounted(s: State, step: Step, s': State)
    requires Apart(s) && Fates(s) && Awaited(s) && Counted(s) && Next(s, step, s')
    ensures Counted(s')
  {
    match step
    case Begin(_) => BeginKeepsCount(s, step, s');
    case Ready(_) => ReadyKeepsCount(s, step, s');
    case Gather(_) => RegisterKeepsCount(s, step, s');
    case TakeStarted(_) => RegisterKeepsCount(s, step, s');
    case TakeExit(_, _) =>
      ExitKeepsAwaited(s, step, s');
      ExitKeepsCounted(s, step, s');
    case _ =>
  }

  lemma StepKeepsInv(s: State, step: Step, s': State)
    requires Inv(s) && Next(s, step, s')
    ensures Inv(s')
  {
    StepKeepsApart(s, step, s');
    StepKeepsFates(s, step, s');
    StepKeepsAwaited(s, step, s');
    StepKeepsCounted(s, step, s');
    StepKeepsSignalled(s, step, s');
  }

  // ---------------------------------------------------------------- over whole runs

  ghost predicate IsRun(members: seq<Member>, steps: seq<Step>, run: seq<State>) {
    && |run| == |steps| + 1 && run[0] == Init(members)
    && forall k | 0 <= k < |steps| :: Next(run[k], steps[k], run[k + 1])
  }

  lemma {:induction false} RunKeepsInv(members: seq<Member>, steps: seq<Step>, run: seq<State>, k: nat)
    requires IsRun(members, steps, run) && k < |run|
    ensures Inv(run[k])
  {
    if k > 0 {
      RunKeepsInv(members, steps, run, k - 1);
      StepKeepsInv(run[k - 1], steps[k - 1], run[k]);
    }
  }

  /** The count is always the number of members registered or on their way, and every exit
      that arrives is of a registered process: the loop never panics. */
  lemma NeverPanics(members: seq<Member>, steps: seq<Step>, run: seq<State>, k: nat)
    requires IsRun(members, steps, run) && k < |run|
    ensures !run[k].phase.Panicked?
    ensures !run[k].phase.Gathering? ==>
              && run[k].vars.desiredCount == Count(run[k])
              && forall p | p in run[k].exits :: p in run[k].vars.group
  {
    RunKeepsInv(members, steps, run, k);
  }

  /** Nothing is alive, registered or on its way. */
  ghost predicate NothingLeft(s: State) {
    s.live == {} && s.vars.group == map[] && s.started == map[] && s.envoking == map[] && s.launching == []
  }

  lemma CountZero(s: State)
    requires Fates(s)
    ensures Count(s) == 0 <==> NothingLeft(s)
  {
    if Count(s) == 0 {
      assert s.vars.group == map[] && s.started == map[] && s.envoking == map[];
      if s.live != {} {
        var p := Pick(s.live);
        assert false;
      }
    }
    if s.vars.group == map[] && s.started == map[] && s.envoking == map[] {
      assert s.vars.group.Keys == {} && s.started.Keys == {} && s.envoking.Keys == {};
    }
  }

  /** Run returns only when nothing is left, and does not select again once that is so. */
  lemma ReturnsWhenNothingIsLeft(members: seq<Member>, steps: seq<Step>, run: seq<State>, k: nat)
    requires IsRun(members, steps, run) && k < |run|
    ensures run[k].phase.Returned? ==> NothingLeft(run[k])
    ensures run[k].phase == Looping ==> (NothingLeft(run[k]) <==> !Selecting(run[k]))
  {
    RunKeepsInv(members, steps, run, k);
    CountZero(run[k]);
  }

  /** The exit of a member that ended with an error, before the group was to stop. */
  ghost predicate IsFault(s: State, step: Step) {
    step.TakeExit? && !s.vars.signaledToStop && step.p in s.results && s.results[step.p].Some?
  }

  lemma FaultIsNoted(s: State, step: Step, s': State)
    requires Awaited(s) && Counted(s) && Next(s, step, s')
    ensures s'.vars.errToReturn.Some? <==> s.vars.errToReturn.Some? || IsFault(s, step)
  {
  }

  ghost predicate ReturnsItsError(s: State) {
    s.phase.Returned? ==> s.phase.err == s.vars.errToReturn
  }

  lemma StepReturnsItsError(s: State, step: Step, s': State)
    requires ReturnsItsError(s) && Awaited(s) && Counted(s) && Next(s, step, s')
    ensures ReturnsItsError(s')
  {
  }

  ghost predicate FaultBefore(steps: seq<Step>, run: seq<State>, k: nat)
    requires |run| == |steps| + 1 && k <= |steps|
  {
    exists j :: 0 <= j < k && IsFault(run[j], steps[j])
  }

  /** Run returns nil if and only if no member's error arrived before it was told to stop. */
  lemma {:induction false} FailsOnFaultsOnly(members: seq<Member>, steps: seq<Step>, run: seq<State>, k: nat)
    requires IsRun(members, steps, run) && k < |run|
    ensures run[k].vars.errToReturn.Some? <==> FaultBefore(steps, run, k)
    ensures ReturnsItsError(run[k])
  {
    if k > 0 {
      FailsOnFaultsOnly(members, steps, run, k - 1);
      RunKeepsInv(members, steps, run, k - 1);
      StepReturnsItsError(run[k - 1], steps[k - 1], run[k]);
      FaultIsNoted(run[k - 1], steps[k - 1], run[k]);
      assert FaultBefore(steps, run, k) <==> FaultBefore(steps, run, k - 1) || IsFault(run[k - 1], steps[k - 1]);
    }
  }

  /** Once the group is to stop, every exit brings it nearer to its return: the count falls
      by one, and otherwise stays. */
  lemma StoppingOnlyCountsDown(s: State, step: Step, s': State)
    requires Inv(s) && s.vars.signaledToStop && Next(s, step, s')
    ensures s'.vars.signaledToStop && s'.vars.errToReturn == s.vars.errToReturn
    ensures s'.vars.desiredCount == s.vars.desiredCount - (if step.TakeExit? then 1 else 0)
    ensures |s'.launching| <= |s.launching|
  {
  }

  /** From a state in which a selection is due, something can always happen, unless the
      group is waiting for a process that is alive or for one still being started. */
  lemma NeverStuck(s: State)
    requires Inv(s) && Selecting(s) && s.launching == [] && s.envoking == map[] && s.live == {}
    ensures exists step, s' :: Next(s, step, s') && (step.TakeExit? || step.TakeStarted? || step.Report?)
  {
    CountZero(s);
    if s.started != map[] {
      var p := Pick(s.started.Keys);
      var s' := s.(started := s.started - {p}, vars := s.vars.(group := s.vars.group[p := s.started[p]]),
          waiting := s.waiting + {p});
      assert Next(s, TakeStarted(p), s');
    } else {
      assert s.vars.group != map[];
      var p := Pick(s.vars.group.Keys);
      assert Tracked(s, p);
      if p in s.exits {
        var o := OnExit(s.vars, p, s.results[p], None);
        var s' := s.(exits := s.exits - {p}, vars := o.vars,
                     told := if o.signalled then s.told + o.vars.group.Keys else s.told);
        assert Next(s, TakeExit(p, None), s');
      } else {
        var s' := s.(waiting := s.waiting - {p}, exits := s.exits + {p});
        assert Next(s, Report(p), s');
      }
    }
  }
}
