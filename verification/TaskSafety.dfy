/** What holds over every run of the task protocol. */
module TaskSafety {
  import opened Wrappers
  import opened TaskModel
  import opened TaskProtocol
  import opened TaskVerdicts

  // ---------------------------------------------------------------- preservation

  lemma PutCurrent(s: State, key: string, v: Version, k: string)
    requires k in Put(s, key, v).nodes
    ensures var s' := Put(s, key, v);
            if k == key then s'.nodes[k] != [] && Current(s'.nodes[k]) == v
            else k in s.nodes && s'.nodes[k] == s.nodes[k]
  {
  }

  /** A new version has a new index, so nothing in flight takes it for what it read. */
  lemma PutKeepsFlights(s: State, key: string, v: Version)
    requires Inv(s) && v.index == s.index + 1
    ensures var s' := Put(s, key, v); forall op | op in s'.flights :: FlightInv(s', s'.flights[op])
  {
    var s' := Put(s, key, v);
    forall op | op in s'.flights && s'.flights[op].Swap? ensures FlightInv(s', s'.flights[op]) {
      var f := s.flights[op];
      assert FlightInv(s, f);
      forall k | k in s'.nodes && Holds(s', k, f.readIndex) ensures Current(s'.nodes[k]).value == Parsed(f.readTask) {
        PutCurrent(s, key, v, k);
        assert k != key && Holds(s, k, f.readIndex);
      }
    }
  }

  lemma PutKeepsNodes(s: State, key: string, v: Version)
    requires Inv(s) && v.index == s.index + 1
    requires Chain((if key in s.nodes then s.nodes[key] else []) + [v])
    requires v.value.Parsed? ==> v.value.task.updatedAt <= s.clock
    ensures var s' := Put(s, key, v); forall k | k in s'.nodes :: NodeInv(s', k)
  {
    var s' := Put(s, key, v);
    forall k | k in s'.nodes ensures NodeInv(s', k) {
      PutCurrent(s, key, v, k);
      if k != key {
        assert NodeInv(s, k);
      }
    }
  }

  lemma PutKeepsIndices(s: State, key: string, v: Version)
    requires Inv(s) && v.index == s.index + 1
    ensures IndexInv(Put(s, key, v))
  {
    var s' := Put(s, key, v);
    forall k, k' | k in s'.nodes && k' in s'.nodes && k != k' && s'.nodes[k] != [] && s'.nodes[k'] != []
      ensures Current(s'.nodes[k]).index != Current(s'.nodes[k']).index
    {
      PutCurrent(s, key, v, k);
      PutCurrent(s, key, v, k');
      assert k in s.nodes ==> NodeInv(s, k);
      assert k' in s.nodes ==> NodeInv(s, k');
    }
    forall c, k | c in s'.commits ensures !Holds(s', k, c.readIndex) {
      if Holds(s', k, c.readIndex) {
        PutCurrent(s, key, v, k);
        assert k != key ==> Holds(s, k, c.readIndex);
      }
    }
  }

  lemma CreateKeepsInv(s: State, key: string, v: Version)
    requires Inv(s) && key !in s.nodes && v.index == s.index + 1
    requires v.value.Parsed? ==> v.cause == Desired && v.value.task.state == Pending
    requires v.value.Parsed? ==> v.value.task.updatedAt <= s.clock
    ensures Inv(Put(s, key, v))
  {
    assert [] + [v] == [v];
    PutKeepsFlights(s, key, v);
    PutKeepsNodes(s, key, v);
    PutKeepsIndices(s, key, v);
  }

  lemma FlightsDropped(s: State, flights: map<nat, Flight>)
    requires Inv(s) && forall op | op in flights :: op in s.flights && flights[op] == s.flights[op]
    ensures Inv(s.(flights := flights))
  {
    var s' := s.(flights := flights);
    forall op | op in s'.flights ensures FlightInv(s', s'.flights[op]) {
      SameStoreFlight(s, s', s.flights[op]);
    }
    forall key | key in s'.nodes ensures NodeInv(s', key) {
      assert NodeInv(s, key);
    }
    SameStoreIndices(s, s');
  }

  lemma SameStoreFlight(s: State, s': State, f: Flight)
    requires s'.nodes == s.nodes && s'.index == s.index && FlightInv(s, f)
    ensures FlightInv(s', f)
  {
    if f.Swap? {
      forall key | key in s'.nodes && Holds(s', key, f.readIndex)
        ensures Current(s'.nodes[key]).value == Parsed(f.readTask)
      {
        assert Holds(s, key, f.readIndex);
      }
    }
  }

  lemma SameStoreIndices(s: State, s': State)
    requires s'.nodes == s.nodes && s'.index == s.index && s'.commits == s.commits && IndexInv(s)
    ensures IndexInv(s')
  {
    forall c, key | c in s'.commits ensures !Holds(s', key, c.readIndex) {
      assert !Holds(s, key, c.readIndex);
    }
  }

  lemma FlightAdded(s: State, op: nat, f: Flight)
    requires Inv(s) && op !in s.flights && FlightInv(s, f)
    ensures Inv(s.(flights := s.flights[op := f]))
  {
    var s' := s.(flights := s.flights[op := f]);
    forall o | o in s'.flights ensures FlightInv(s', s'.flights[o]) {
      SameStoreFlight(s, s', s'.flights[o]);
    }
    forall key | key in s'.nodes ensures NodeInv(s', key) {
      assert NodeInv(s, key);
    }
    SameStoreIndices(s, s');
  }

  /** What a read leaves in flight fits the invariant. */
  lemma ReadFits(s: State, key: string, f: Flight)
    requires Inv(s) && key in s.nodes && s.nodes[key] != [] && f.Swap?
    requires Current(s.nodes[key]).value == Parsed(f.readTask) && Current(s.nodes[key]).index == f.readIndex
    requires LifecycleEdge(f.readTask, f.newTask) && f.newTask.updatedAt >= s.clock
    requires Writes(f.cause, f.readTask, f.newTask)
    ensures FlightInv(s, f)
  {
    assert NodeInv(s, key);
    forall k | k in s.nodes && Holds(s, k, f.readIndex) ensures Current(s.nodes[k]).value == Parsed(f.readTask) {
      assert k == key;
    }
  }

  // ---------------------------------------------------------------- the two writes

  /** A swap that takes effect replaces exactly the version its operation read, by one
      lifecycle edge, at the key it read it from. */
  lemma SwapReplacesRead(s: State, op: nat)
    requires Inv(s) && op in s.flights && s.flights[op].Swap?
    requires Holds(s, s.flights[op].key, s.flights[op].readIndex) && s.flights[op].newTask.updatedAt <= s.clock
    ensures var f := s.flights[op];
            Follows(Current(s.nodes[f.key]), Version(s.index + 1, f.readIndex, Parsed(f.newTask), f.cause))
  {
    assert FlightInv(s, s.flights[op]);
  }

  lemma ChainGrows(versions: seq<Version>, v: Version)
    requires Chain(versions) && Follows(Current(versions), v)
    ensures Chain(versions + [v])
  {
    var longer := versions + [v];
    forall k | 0 < k < |longer| ensures Follows(longer[k - 1], longer[k]) {
      if k < |versions| {
        assert Follows(versions[k - 1], versions[k]);
      }
    }
  }

  lemma SwapKeepsInv(s: State, op: nat, flights: map<nat, Flight>)
    requires Inv(s) && op in s.flights && s.flights[op].Swap?
    requires Holds(s, s.flights[op].key, s.flights[op].readIndex) && s.flights[op].newTask.updatedAt <= s.clock
    requires forall o | o in flights :: o in s.flights && flights[o] == s.flights[o]
    ensures var f := s.flights[op];
            var v := Version(s.index + 1, f.readIndex, Parsed(f.newTask), f.cause);
            Inv(Put(s, f.key, v).(flights := flights, commits := s.commits +
                [Commit(op, f.key, f.readIndex, s.index + 1)]))
  {
    var f := s.flights[op];
    var v := Version(s.index + 1, f.readIndex, Parsed(f.newTask), f.cause);
    var put := Put(s, f.key, v);
    assert NodeInv(s, f.key);
    SwapReplacesRead(s, op);
    ChainGrows(s.nodes[f.key], v);
    PutKeepsFlights(s, f.key, v);
    PutKeepsNodes(s, f.key, v);
    PutKeepsIndices(s, f.key, v);
    assert Inv(put);
    FlightsDropped(put, flights);
    CommitKeepsInv(s, put.(flights := flights), f.key, Commit(op, f.key, f.readIndex, s.index + 1));
  }

  lemma CommitKeepsInv(s: State, put: State, key: string, c: Commit)
    requires Inv(s) && Inv(put) && put.commits == s.commits && put.index == s.index + 1 == c.index
    requires Holds(s, key, c.readIndex) && Holds(put, key, c.index)
    requires forall k | k in put.nodes && k != key :: k in s.nodes && put.nodes[k] == s.nodes[k]
    ensures Inv(put.(commits := s.commits + [c]))
  {
    var s' := put.(commits := s.commits + [c]);
    assert NodeInv(s, key);
    forall k | k in s'.nodes ensures NodeInv(s', k) {
      assert NodeInv(put, k);
    }
    forall op | op in s'.flights ensures FlightInv(s', s'.flights[op]) {
      SameStoreFlight(put, s', s'.flights[op]);
    }
    forall d, k | d in s'.commits ensures !Holds(s', k, d.readIndex) {
      if d == c {
        assert k in s.nodes && Holds(s, k, c.readIndex) ==> k == key;
      } else {
        assert d in s.commits && !Holds(put, k, d.readIndex);
      }
    }
    forall d | d in s.commits ensures d.readIndex != c.readIndex {
      assert !Holds(s, key, d.readIndex);
    }
  }

  lemma DeleteKeepsInv(s: State, key: string)
    requires Inv(s)
    ensures Inv(s.(nodes := s.nodes - {key}))
  {
    var s' := s.(nodes := s.nodes - {key});
    forall k | k in s'.nodes ensures NodeInv(s', k) {
      assert NodeInv(s, k);
    }
    forall op | op in s'.flights && s'.flights[op].Swap? ensures FlightInv(s', s'.flights[op]) {
      var f := s.flights[op];
      assert FlightInv(s, f);
      forall k | k in s'.nodes && Holds(s', k, f.readIndex) ensures Current(s'.nodes[k]).value == Parsed(f.readTask) {
        assert Holds(s, k, f.readIndex);
      }
    }
    forall c, k | c in s'.commits ensures !Holds(s', k, c.readIndex) {
      assert !Holds(s, k, c.readIndex);
    }
  }

  /** Every step of every process keeps the invariant. */
  lemma StepKeepsInv(s: State, step: Step, s': State)
    requires Inv(s) && Next(s, step, s')
    ensures Inv(s')
  {
    match step
    case Tick(now) =>
      forall key | key in s'.nodes ensures NodeInv(s', key) {
        assert NodeInv(s, key);
      }
      forall op | op in s'.flights ensures FlightInv(s', s'.flights[op]) {
        SameStoreFlight(s, s', s'.flights[op]);
      }
      SameStoreIndices(s, s');
    case DesireTask(task, firstTry, thisTry) =>
      if task.guid !in s.nodes {
        CreateKeepsInv(s, task.guid, Version(s.index + 1, 0, Parsed(NewTask(task, firstTry, thisTry)), Desired));
      }
    case WriteGarbage(key) =>
      CreateKeepsInv(s, key, Version(s.index + 1, 0, Unparsable, Foreign));
    case ReadForOperation(op, guid, operation, stamp) =>
      var v := Current(s.nodes[guid]);
      RewriteIsEdge(operation, v.value.task, stamp);
      var f := Swap(guid, v.index, v.value.task, Rewrite(operation, v.value.task, stamp), Operated(operation));
      ReadFits(s, guid, f);
      FlightAdded(s, op, f);
    case ReadForResolve(op, guid) =>
      var v := Current(s.nodes[guid]);
      FlightAdded(s, op, Removal(guid, v.index, v.value, true));
    case ListForConvergence(op, key, now, stamp, alive, settings) =>
      var v := Current(s.nodes[key]);
      if v.value.Unparsable? {
        FlightAdded(s, op, Removal(key, v.index, v.value, false));
      } else {
        ConvergedIsEdge(v.value.task, now, alive, settings, stamp);
        var t := Converged(v.value.task, now, alive, settings).value.(updatedAt := stamp);
        var f := Swap(v.value.task.guid, v.index, v.value.task, t, Convergence(now, alive, settings));
        ReadFits(s, key, f);
        FlightAdded(s, op, f);
      }
    case TrySwap(op, answered) =>
      var f := s.flights[op];
      var flights := if answered || f.cause.Convergence? then s.flights - {op} else s.flights;
      if Holds(s, f.key, f.readIndex) {
        SwapKeepsInv(s, op, flights);
      } else {
        FlightsDropped(s, flights);
      }
    case TryDelete(op, answered) =>
      var flights := if answered || !s.flights[op].retried then s.flights - {op} else s.flights;
      FlightsDropped(s, flights);
      DeleteKeepsInv(s.(flights := flights), s.flights[op].key);
  }

  // ---------------------------------------------------------------- whole runs

  ghost predicate IsRun(states: seq<State>, steps: seq<Step>) {
    && |states| == |steps| + 1 && states[0] == Init
    && forall i | 0 <= i < |steps| :: Next(states[i], steps[i], states[i + 1])
  }

  lemma {:induction false} RunKeepsInv(states: seq<State>, steps: seq<Step>, i: nat)
    requires IsRun(states, steps) && i < |states|
    ensures Inv(states[i])
  {
    if i > 0 {
      RunKeepsInv(states, steps, i - 1);
      StepKeepsInv(states[i - 1], steps[i - 1], states[i]);
    }
  }

  /** No lost update: every version of a task but the first replaces exactly the version
      its writer had read, by one lifecycle edge. */
  lemma VersionsFollow(states: seq<State>, steps: seq<Step>, i: nat, key: string, k: nat)
    requires IsRun(states, steps) && i < |states| && key in states[i].nodes && k + 1 < |states[i].nodes[key]|
    ensures var versions := states[i].nodes[key];
            && versions[k + 1].readFrom == versions[k].index
            && versions[k].value.Parsed? && versions[k + 1].value.Parsed?
            && LifecycleEdge(versions[k].value.task, versions[k + 1].value.task)
  {
    RunKeepsInv(states, steps, i);
    assert NodeInv(states[i], key);
    assert Follows(states[i].nodes[key][k], states[i].nodes[key][k + 1]);
  }

  /** Of all writes ever attempted from the same version, at most one took effect, however
      often lost answers made an operation try again. */
  lemma OneCommitAVersion(states: seq<State>, steps: seq<Step>, i: nat, a: nat, b: nat)
    requires IsRun(states, steps) && i < |states|
    requires a < |states[i].commits| && b < |states[i].commits|
    requires states[i].commits[a].readIndex == states[i].commits[b].readIndex
    ensures a == b
  {
    RunKeepsInv(states, steps, i);
  }

  predicate Over(t: Task) {
    t.state == Completed || t.state == Resolving
  }

  /** Once completed, a task changes in nothing but its state and update time until its
      key is deleted, and it only moves between completed and resolving. */
  lemma {:induction false} CompletedIsFrozen(versions: seq<Version>, a: nat, b: nat)
    requires Chain(versions) && a <= b < |versions|
    requires versions[a].value.Parsed? && Over(versions[a].value.task)
    ensures versions[b].value.Parsed? && Over(versions[b].value.task)
            && Settled(versions[a].value.task, versions[b].value.task)
    decreases b - a
  {
    if a < b {
      CompletedIsFrozen(versions, a, b - 1);
      assert Follows(versions[b - 1], versions[b]);
    }
  }

  /** Along one lifetime the identity and creation time of a task stay, and its update
      time never runs back. */
  lemma {:induction false} TimesAreMonotone(versions: seq<Version>, a: nat, b: nat)
    requires Chain(versions) && a <= b < |versions| && versions[a].value.Parsed?
    ensures versions[b].value.Parsed?
            && versions[b].value.task.guid == versions[a].value.task.guid
            && versions[b].value.task.definition == versions[a].value.task.definition
            && versions[b].value.task.createdAt == versions[a].value.task.createdAt
            && versions[a].value.task.updatedAt <= versions[b].value.task.updatedAt
    decreases b - a
  {
    if a < b {
      TimesAreMonotone(versions, a, b - 1);
      assert Follows(versions[b - 1], versions[b]);
    }
  }

  ghost predicate ClaimedBy(v: Version, executorID: string) {
    v.cause == Operated(ClaimTask(executorID))
  }

  ghost predicate StartedBy(v: Version, executorID: string, handle: string) {
    v.cause == Operated(StartTask(executorID, handle))
  }

  ghost predicate NoClaimIn(versions: seq<Version>, a: nat, b: nat)
    requires b <= |versions|
  {
    forall k | a <= k < b :: !(versions[k].cause.Operated? && versions[k].cause.op.ClaimTask?)
  }

  /** A claimed task carries the executor of the latest successful claim. */
  lemma {:induction false} ClaimedHasClaimant(versions: seq<Version>, b: nat) returns (c: nat)
    requires Chain(versions) && b < |versions| && versions[b].value.Parsed? && versions[b].value.task.state == Claimed
    ensures c <= b && ClaimedBy(versions[c], versions[b].value.task.executorID) && NoClaimIn(versions, c + 1, b + 1)
  {
    assert b > 0;
    assert Follows(versions[b - 1], versions[b]);
    c := b;
  }

  /** A running task carries the executor of the latest successful claim in its lifetime
      and the container handle that the same executor passed when it started the task. */
  lemma {:induction false} RunningHasStarter(versions: seq<Version>, b: nat) returns (c: nat, r: nat)
    requires Chain(versions) && b < |versions| && versions[b].value.Parsed? && versions[b].value.task.state == Running
    ensures var t := versions[b].value.task;
            && c < r <= b
            && ClaimedBy(versions[c], t.executorID) && StartedBy(versions[r], t.executorID, t.containerHandle)
            && NoClaimIn(versions, c + 1, b + 1)
  {
    assert b > 0;
    assert Follows(versions[b - 1], versions[b]);
    c := ClaimedHasClaimant(versions, b - 1);
    r := b;
  }

  /** The outcome t carries was reported by an executor, or is a converger's verdict. */
  /** What the converger saw: the task was past its time to be claimed, or its executor was
      not there. */
  predicate Justified(cause: Cause, t: Task)
    requires cause.Convergence?
  {
    || (t.failureReason == NOT_CLAIMED && cause.now - t.createdAt >= cause.settings.timeToClaim)
    || (t.failureReason == DISAPPEARED && t.executorID !in cause.alive)
  }

  ghost predicate OutcomeFrom(v: Version, t: Task) {
    || v.cause == Operated(CompleteTask(t.failed, t.failureReason, t.result))
    || (v.cause.Convergence? && t.failed && Justified(v.cause, t))
  }

  /** Every completed or resolving task carries the outcome of the version that completed it. */
  lemma {:induction false} OverHasOutcome(versions: seq<Version>, b: nat) returns (c: nat)
    requires Chain(versions) && b < |versions| && versions[b].value.Parsed? && Over(versions[b].value.task)
    ensures c <= b && OutcomeFrom(versions[c], versions[b].value.task)
  {
    assert b > 0;
    assert Follows(versions[b - 1], versions[b]);
    if Over(versions[b - 1].value.task) {
      c := OverHasOutcome(versions, b - 1);
    } else {
      c := b;
    }
  }

  // ------------------------------------------------- the same, between states of a run

  ghost predicate PresentThroughout(states: seq<State>, i: nat, j: nat, key: string)
    requires j < |states|
  {
    forall m | i <= m <= j :: key in states[m].nodes
  }

  /** A key's versions are only ever added to, until the key is deleted. */
  lemma StepExtends(s: State, step: Step, s': State, key: string)
    requires Next(s, step, s') && key in s.nodes && key in s'.nodes
    ensures s.nodes[key] <= s'.nodes[key]
  {
  }

  lemma {:induction false} LifetimeExtends(states: seq<State>, steps: seq<Step>, i: nat, j: nat, key: string)
    requires IsRun(states, steps) && i <= j < |states| && PresentThroughout(states, i, j, key)
    ensures Chain(states[i].nodes[key]) && Chain(states[j].nodes[key]) && states[i].nodes[key] <= states[j].nodes[key]
    decreases j - i
  {
    RunKeepsInv(states, steps, i);
    RunKeepsInv(states, steps, j);
    assert NodeInv(states[i], key) && NodeInv(states[j], key);
    if i < j {
      LifetimeExtends(states, steps, i, j - 1, key);
      StepExtends(states[j - 1], steps[j - 1], states[j], key);
    }
  }

  function CurrentTask(s: State, key: string): Option<Task> {
    if key in s.nodes && s.nodes[key] != [] && Current(s.nodes[key]).value.Parsed?
    then Some(Current(s.nodes[key]).value.task) else None
  }

  /** Over any stretch of a run in which its key is not deleted, a completed task keeps
      every field but state and update time, and stays completed or resolving. */
  lemma CompletedStaysFrozen(states: seq<State>, steps: seq<Step>, i: nat, j: nat, key: string)
    requires IsRun(states, steps) && i <= j < |states| && PresentThroughout(states, i, j, key)
    requires CurrentTask(states[i], key).Some? && Over(CurrentTask(states[i], key).value)
    ensures CurrentTask(states[j], key).Some?
    ensures Over(CurrentTask(states[j], key).value)
            && Settled(CurrentTask(states[i], key).value, CurrentTask(states[j], key).value)
  {
    LifetimeExtends(states, steps, i, j, key);
    CompletedIsFrozen(states[j].nodes[key], |states[i].nodes[key]| - 1, |states[j].nodes[key]| - 1);
  }

  /** Over such a stretch creation time and identity stay and the update time never runs back. */
  lemma TimesStayMonotone(states: seq<State>, steps: seq<Step>, i: nat, j: nat, key: string)
    requires IsRun(states, steps) && i <= j < |states| && PresentThroughout(states, i, j, key)
    requires CurrentTask(states[i], key).Some?
    ensures CurrentTask(states[j], key).Some?
    ensures var t, t' := CurrentTask(states[i], key).value, CurrentTask(states[j], key).value;
            t'.createdAt == t.createdAt && t'.guid == t.guid && t.updatedAt <= t'.updatedAt
  {
    LifetimeExtends(states, steps, i, j, key);
    TimesAreMonotone(states[j].nodes[key], |states[i].nodes[key]| - 1, |states[j].nodes[key]| - 1);
  }

  /** In every reachable state a running task belongs to the latest claimant, who also
      passed its container handle. */
  lemma RunningBelongsToClaimant(states: seq<State>, steps: seq<Step>, i: nat, key: string) returns (c: nat, r: nat)
    requires IsRun(states, steps) && i < |states|
    requires CurrentTask(states[i], key).Some? && CurrentTask(states[i], key).value.state == Running
    ensures var versions, t := states[i].nodes[key], CurrentTask(states[i], key).value;
            && c < r < |versions|
            && ClaimedBy(versions[c], t.executorID) && StartedBy(versions[r], t.executorID, t.containerHandle)
            && NoClaimIn(versions, c + 1, |versions|)
  {
    LifetimeExtends(states, steps, i, i, key);
    c, r := RunningHasStarter(states[i].nodes[key], |states[i].nodes[key]| - 1);
  }

  /** In every reachable state the outcome of a completed or resolving task is the one an
      executor reported, or a converger's verdict. */
  lemma CompletedHasOutcome(states: seq<State>, steps: seq<Step>, i: nat, key: string) returns (c: nat)
    requires IsRun(states, steps) && i < |states|
    requires CurrentTask(states[i], key).Some? && Over(CurrentTask(states[i], key).value)
    ensures c < |states[i].nodes[key]| && OutcomeFrom(states[i].nodes[key][c], CurrentTask(states[i], key).value)
  {
    LifetimeExtends(states, steps, i, i, key);
    c := OverHasOutcome(states[i].nodes[key], |states[i].nodes[key]| - 1);
  }

  /** In every reachable state, what a converger wrote was due when it looked, and is what
      the task was to become; it writes at no other time. */
  lemma ConvergedWhenDue(states: seq<State>, steps: seq<Step>, i: nat, key: string, k: nat)
    requires IsRun(states, steps) && i < |states| && key in states[i].nodes && k + 1 < |states[i].nodes[key]|
    requires states[i].nodes[key][k + 1].cause.Convergence?
    ensures var versions := states[i].nodes[key];
            && versions[k].value.Parsed? && versions[k + 1].value.Parsed?
            && var t, t', c := versions[k].value.task, versions[k + 1].value.task, versions[k + 1].cause;
            && Due(t, c.now, c.alive, c.settings) && Becomes(t, t', c.now, c.alive, c.settings)
            && t.updatedAt <= t'.updatedAt
  {
    RunKeepsInv(states, steps, i);
    assert NodeInv(states[i], key);
    var versions := states[i].nodes[key];
    assert Follows(versions[k], versions[k + 1]);
    var c := versions[k + 1].cause;
    ActsIfDue(versions[k].value.task, c.now, c.alive, c.settings, versions[k + 1].value.task.updatedAt);
  }

  /** A converger that lists a task can go on to write it if and only if it is due. */
  lemma WritesIfDue(s: State, op: nat, key: string, now: int, stamp: int, alive: set<string>, settings: Settings)
    requires op !in s.flights && CurrentTask(s, key).Some? && s.clock <= now <= stamp
    ensures (exists s' :: Next(s, ListForConvergence(op, key, now, stamp, alive, settings), s')) <==>
            Due(CurrentTask(s, key).value, now, alive, settings)
  {
    var t := CurrentTask(s, key).value;
    ActsIfDue(t, now, alive, settings, stamp);
    if Due(t, now, alive, settings) {
      var v := Current(s.nodes[key]);
      var s' := s.(flights := s.flights[op := Swap(t.guid, v.index, t,
                       Converged(t, now, alive, settings).value.(updatedAt := stamp),
                       Convergence(now, alive, settings))]);
      assert Next(s, ListForConvergence(op, key, now, stamp, alive, settings), s');
    }
  }

  // ------------------------------------------------------------- what was desired

  /** The step that created the lifetime that the key holds now. */
  lemma {:induction false} FirstIsDesired(states: seq<State>, steps: seq<Step>, i: nat, key: string) returns (j: nat)
    requires IsRun(states, steps) && i < |states| && key in states[i].nodes && states[i].nodes[key] != []
    requires states[i].nodes[key][0].value.Parsed?
    ensures j < i && PresentThroughout(states, j + 1, i, key) && key !in states[j].nodes
    ensures steps[j].DesireTask? && steps[j].task.guid == key
    ensures states[i].nodes[key][0].value.task == NewTask(steps[j].task, steps[j].firstTry, steps[j].thisTry)
  {
    RunKeepsInv(states, steps, i);
    assert i > 0 && Next(states[i - 1], steps[i - 1], states[i]);
    if key in states[i - 1].nodes {
      RunKeepsInv(states, steps, i - 1);
      assert NodeInv(states[i - 1], key);
      StepExtends(states[i - 1], steps[i - 1], states[i], key);
      j := FirstIsDesired(states, steps, i - 1, key);
    } else {
      j := i - 1;
    }
  }

  /** Every version of a task belongs to a DesireTask that found its key free: it is kept at
      its own guid, with the definition and the time of creation that it was desired with,
      or the time of the first try if none was given; and it began as it was desired,
      pending, whatever state it was passed with. */
  lemma VersionsAreOfDesired(states: seq<State>, steps: seq<Step>, i: nat, key: string, k: nat) returns (j: nat)
    requires IsRun(states, steps) && i < |states| && key in states[i].nodes && k < |states[i].nodes[key]|
    requires states[i].nodes[key][k].value.Parsed?
    ensures j < i && steps[j].DesireTask? && key !in states[j].nodes && PresentThroughout(states, j + 1, i, key)
    ensures var given, first, t := steps[j].task, states[i].nodes[key][0].value, states[i].nodes[key][k].value.task;
            && t.guid == key == given.guid && t.definition == given.definition
            && t.createdAt == (if given.createdAt == 0 then steps[j].firstTry else given.createdAt)
            && first == Parsed(given.(createdAt := t.createdAt, updatedAt := steps[j].thisTry, state := Pending))
  {
    RunKeepsInv(states, steps, i);
    assert NodeInv(states[i], key);
    var versions := states[i].nodes[key];
    assert |versions| > 1 ==> Follows(versions[0], versions[1]);
    j := FirstIsDesired(states, steps, i, key);
    TimesAreMonotone(versions, 0, k);
  }
}
