/** The select loop of Run as the code has it, against the group at large. */
module MembersLoop {
  import opened Wrappers
  import opened Members

  class Loop {
    var group: map<Proc, Member>
    var desiredCount: int
    var signaledToStop: bool
    var errToReturn: Option<string>

    ghost function State(): Vars
      reads this
    {
      Vars(group, desiredCount, signaledToStop, errToReturn)
    }

    constructor (gathered: map<Proc, Member>)
      ensures State() == Vars(gathered, |gathered|, false, None)
    {
      group, desiredCount, signaledToStop, errToReturn := gathered, |gathered|, false, None;
    }

    /** Returns the processes to signal. */
    method OnSignal() returns (signalled: set<Proc>)
      modifies this
      ensures State() == old(State()).(signaledToStop := true) && signalled == group.Keys
    {
      signaledToStop := true;
      signalled := group.Keys;
    }

    method OnStarted(p: Proc, member: Member)
      modifies this
      ensures State() == old(State()).(group := old(group)[p := member])
    {
      group := group[p := member];
    }

    /** The process must be known, or the loop panics. */
    method Exited(p: Proc, err: Option<string>, loaded: Option<nat>)
      returns (signalled: set<Proc>, launch: Option<Member>)
      requires p in group
      modifies this
      ensures var outcome := OnExit(old(State()), p, err, loaded);
              && State() == outcome.vars && launch == outcome.launch
              && signalled == if outcome.signalled then group.Keys else {}
      ensures var member := old(group)[p];
              && group == old(group) - {p}
              && signalled == (if member.restart.signal != Continue then group.Keys else {})
              && launch == (if !old(signaledToStop) && member.restart.attemptRestart && loaded.Some?
                            then Some(Member(member.name, loaded.value, member.restart)) else None)
              && desiredCount == old(desiredCount) - (if launch.Some? then 0 else 1)
              && (signaledToStop <==>
                    old(signaledToStop) || (!member.restart.attemptRestart && member.restart.signal != Continue))
              && errToReturn == if !old(signaledToStop) && err.Some?
                                then Some(member.name + " exited with error: " + err.value) else old(errToReturn)
    {
      var member := group[p];
      signalled, launch := {}, None;
      group := group - {p};
      desiredCount := desiredCount - 1;
      var restart := member.restart;
      if restart.signal != Continue {
        signalled := group.Keys;
      }
      if signaledToStop {
        return;
      }
      if err.Some? {
        errToReturn := Some(member.name + " exited with error: " + err.value);
      }
      if !restart.attemptRestart {
        if restart.signal != Continue {
          signaledToStop := true;
        }
        return;
      }
      if loaded.None? {
        return;
      }
      desiredCount := desiredCount + 1;
      launch := Some(Member(member.name, loaded.value, member.restart));
    }
  }

  // ---------------------------------------------------------------- the whole loop

  /** What the select receives. */
  datatype Receipt =
    | GotSignal
    | GotStarted(p: Proc, member: Member)
    | GotExit(p: Proc, err: Option<string>, loaded: Option<nat>)

  function ReceiptOf(s: State, step: Step): Option<Receipt> {
    match step
    case TakeSignal => Some(GotSignal)
    case TakeStarted(p) => if p in s.started then Some(GotStarted(p, s.started[p])) else None
    case TakeExit(p, loaded) => if p in s.results then Some(GotExit(p, s.results[p], loaded)) else None
    case _ => None
  }

  /** The group from when the loop starts: the loop's own steps and those around it. */
  ghost predicate LoopRun(steps: seq<Step>, run: seq<State>) {
    && |run| == |steps| + 1 && Inv(run[0]) && !run[0].phase.Gathering?
    && forall k | 0 <= k < |steps| :: Next(run[k], steps[k], run[k + 1])
  }

  ghost function Receipts(steps: seq<Step>, run: seq<State>): seq<Receipt>
    requires |run| == |steps| + 1
  {
    if steps == [] then []
    else
      var rest := Receipts(steps[1..], run[1..]);
      match ReceiptOf(run[0], steps[0])
      case None => rest
      case Some(r) => [r] + rest
  }

  /** The members that the steps hand over to be started, in order. */
  ghost function Launched(steps: seq<Step>, run: seq<State>): seq<Member>
    requires |run| == |steps| + 1
  {
    if steps == [] then []
    else
      Appended(run[0].launching, run[1].launching) + Launched(steps[1..], run[1..])
  }

  /** A step of the goroutines or processes leaves the loop alone. */
  lemma QuietStep(s: State, step: Step, s': State)
    requires Inv(s) && !s.phase.Gathering? && Next(s, step, s') && ReceiptOf(s, step).None?
    ensures Inv(s') && !s'.phase.Gathering?
    ensures s'.vars == s.vars && s'.told == s.told && |s'.launching| <= |s.launching|
  {
    StepKeepsInv(s, step, s');
  }

  lemma RunFrom(steps: seq<Step>, run: seq<State>)
    requires LoopRun(steps, run) && steps != []
    ensures LoopRun(steps[1..], run[1..])
  {
    StepKeepsInv(run[0], steps[0], run[1]);
    forall k | 0 <= k < |steps[1..]|
      ensures Next(run[1..][k], steps[1..][k], run[1..][k + 1])
    {
      assert Next(run[k + 1], steps[k + 1], run[k + 2]);
    }
  }

  /** The next step at which the loop receives something, and what comes after it. */
  lemma {:induction false} NextReceipt(steps: seq<Step>, run: seq<State>)
    returns (s: State, step: Step, later: seq<Step>, states: seq<State>)
    requires LoopRun(steps, run) && Receipts(steps, run) != []
    ensures LoopRun(later, states) && Inv(s) && Next(s, step, states[0])
    ensures s.vars == run[0].vars && s.told == run[0].told
    ensures ReceiptOf(s, step) == Some(Receipts(steps, run)[0]) && Receipts(later, states) == Receipts(steps, run)[1..]
    ensures Launched(steps, run) == Appended(s.launching, states[0].launching) + Launched(later, states)
    ensures states[|later|] == run[|steps|]
    decreases |steps|
  {
    RunFrom(steps, run);
    if ReceiptOf(run[0], steps[0]).None? {
      QuietStep(run[0], steps[0], run[1]);
      s, step, later, states := NextReceipt(steps[1..], run[1..]);
    } else {
      s, step, later, states := run[0], steps[0], steps[1..], run[1..];
    }
  }

  /** Without anything more to receive the loop's variables stay. */
  lemma {:induction false} NothingReceived(steps: seq<Step>, run: seq<State>)
    requires LoopRun(steps, run) && Receipts(steps, run) == []
    ensures run[|steps|].vars == run[0].vars && run[|steps|].told == run[0].told && Launched(steps, run) == []
    ensures Inv(run[|steps|]) && !run[|steps|].phase.Gathering?
    decreases |steps|
  {
    if steps != [] {
      RunFrom(steps, run);
      QuietStep(run[0], steps[0], run[1]);
      NothingReceived(steps[1..], run[1..]);
    }
  }

  /** What is received is received by a loop that selects, and an exit is of a process that
      it knows. */
  lemma ReceivedWhileSelecting(s: State, step: Step, s': State)
    requires Inv(s) && Next(s, step, s') && ReceiptOf(s, step).Some?
    ensures s.vars.desiredCount != 0
    ensures step.TakeExit? ==> step.p in s.vars.group
  {
  }

  ghost function Appended(before: seq<Member>, after: seq<Member>): seq<Member> {
    if |after| > |before| then [after[|after| - 1]] else []
  }

  /** One receipt: the loop does what the step does. */
  method Receive(loop: Loop, receipt: Receipt, ghost s: State, ghost step: Step, ghost s': State)
    returns (signalled: set<Proc>, launched: seq<Member>)
    requires Next(s, step, s') && ReceiptOf(s, step) == Some(receipt) && loop.State() == s.vars
    requires step.TakeExit? ==> step.p in s.vars.group
    modifies loop
    ensures loop.State() == s'.vars && s'.told == s.told + signalled
    ensures launched == Appended(s.launching, s'.launching)
  {
    signalled, launched := {}, [];
    match receipt
    case GotSignal =>
      signalled := loop.OnSignal();
    case GotStarted(p, member) =>
      loop.OnStarted(p, member);
    case GotExit(p, err, loaded) =>
      var launch;
      signalled, launch := loop.Exited(p, err, loaded);
      if launch.Some? {
        launched := [launch.value];
      }
  }

  /** One turn of the loop, and what is left of the run after it. */
  method Turn(loop: Loop, receipt: Receipt, ghost steps: seq<Step>, ghost run: seq<State>)
    returns (signalled: set<Proc>, launched: seq<Member>, ghost later: seq<Step>, ghost states: seq<State>)
    requires LoopRun(steps, run) && Receipts(steps, run) != [] && receipt == Receipts(steps, run)[0]
    requires loop.State() == run[0].vars
    modifies loop
    ensures LoopRun(later, states) && states[|later|] == run[|steps|]
    ensures loop.State() == states[0].vars && states[0].told == run[0].told + signalled
    ensures Receipts(later, states) == Receipts(steps, run)[1..]
    ensures Launched(steps, run) == launched + Launched(later, states)
  {
    ghost var s, step;
    s, step, later, states := NextReceipt(steps, run);
    ReceivedWhileSelecting(s, step, states[0]);
    signalled, launched := Receive(loop, receipt, s, step, states[0]);
  }

  /** Run, over whatever it receives while the group goes on around it: it never panics,
      its variables are at all times those of the group at large, it signals and starts
      what these do, and it returns exactly when nothing is left of the group. */
  method Run(gathered: map<Proc, Member>, receipts: seq<Receipt>, ghost steps: seq<Step>, ghost run: seq<State>)
    returns (returned: bool, err: Option<string>, signalled: set<Proc>, launched: seq<Member>)
    requires LoopRun(steps, run) && run[0].vars == Vars(gathered, |gathered|, false, None)
    requires receipts == Receipts(steps, run)
    ensures returned <==> NothingLeft(run[|steps|])
    ensures err == run[|steps|].vars.errToReturn
    ensures run[|steps|].told == run[0].told + signalled
    ensures launched == Launched(steps, run)
  {
    var loop := new Loop(gathered);
    signalled, launched := {}, [];
    ghost var later, states := steps, run;
    var i := 0;
    while loop.desiredCount != 0 && i < |receipts|
      invariant i <= |receipts| && fresh(loop)
      invariant Abreast(steps, run, later, states, signalled, launched)
      invariant loop.State() == states[0].vars && Receipts(later, states) == receipts[i..]
      decreases |receipts| - i
    {
      assert receipts[i..][0] == receipts[i] && receipts[i..][1..] == receipts[i + 1..];
      var told, started;
      told, started, later, states := Turn(loop, receipts[i], later, states);
      assert launched + (started + Launched(later, states)) == launched + started + Launched(later, states);
      signalled, launched := signalled + told, launched + started;
      i := i + 1;
    }
    assert receipts[|receipts|..] == [];
    Ends(steps, run, later, states, signalled, launched);
    returned, err := loop.desiredCount == 0, loop.errToReturn;
  }

  /** The rest of the run, once the loop has caught up with it. */
  ghost predicate Abreast(steps: seq<Step>, run: seq<State>, later: seq<Step>, states: seq<State>, signalled: set<Proc>,
                          launched: seq<Member>)
    requires |run| == |steps| + 1
  {
    && LoopRun(later, states) && states[|later|] == run[|steps|]
    && states[0].told == run[0].told + signalled
    && launched + Launched(later, states) == Launched(steps, run)
  }

  lemma Ends(steps: seq<Step>, run: seq<State>, later: seq<Step>, states: seq<State>, signalled: set<Proc>,
             launched: seq<Member>)
    requires |run| == |steps| + 1 && Abreast(steps, run, later, states, signalled, launched)
    requires states[0].vars.desiredCount == 0 || Receipts(later, states) == []
    ensures run[|steps|].vars == states[0].vars && run[|steps|].told == run[0].told + signalled
    ensures launched == Launched(steps, run)
    ensures states[0].vars.desiredCount == 0 <==> NothingLeft(run[|steps|])
  {
    if states[0].vars.desiredCount == 0 {
      ReceivedNoMore(later, states);
    }
    NothingReceived(later, states);
    CountZero(run[|steps|]);
  }

  /** A loop whose count is zero receives nothing more. */
  lemma ReceivedNoMore(steps: seq<Step>, run: seq<State>)
    requires LoopRun(steps, run) && run[0].vars.desiredCount == 0
    ensures Receipts(steps, run) == []
  {
    if Receipts(steps, run) != [] {
      var s, step, later, states := NextReceipt(steps, run);
      ReceivedWhileSelecting(s, step, states[0]);
    }
  }
}
