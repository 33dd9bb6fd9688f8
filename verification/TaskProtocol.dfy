/** Any number of stagers, executors and convergers over one compare-and-swap store.
    An operation reads in one step and writes in a later one; anything may happen in
    between, and a write whose answer is lost is tried again. */
module TaskProtocol {
  import opened Wrappers
  import opened TaskModel

  /** A stored value either parses as a task or does not. */
  datatype Value = Parsed(task: Task) | Unparsable

  datatype Cause =
    | Desired
    | Operated(op: Operation)
    | Convergence(now: int, alive: set<string>, settings: Settings)
    | Foreign

  /** One version of a key: the store index of its write, and of the version that the
      writer had read (0 if it created the key). */
  datatype Version = Version(index: nat, readFrom: nat, value: Value, cause: Cause)

  /** A write in flight: the task read, and the task to swap in at `key`; or the value
      read, and the key to delete. A removal does not look at the value again. ResolveTask
      retries its removal until it is answered, a converger tries once. */
  datatype Flight =
    | Swap(key: string, readIndex: nat, readTask: Task, newTask: Task, cause: Cause)
    | Removal(key: string, readIndex: nat, read: Value, retried: bool)

  datatype Commit = Commit(op: nat, key: string, readIndex: nat, index: nat)

  /** Every key holds its versions since it was created, the current one last. */
  datatype State = State(
    nodes: map<string, seq<Version>>, index: nat, clock: int, flights: map<nat, Flight>, commits: seq<Commit>)

  const Init := State(map[], 0, 0, map[], [])

  function Current(versions: seq<Version>): Version
    requires versions != []
  {
    versions[|versions| - 1]
  }

  datatype Step =
    | Tick(now: int)
    | DesireTask(task: Task, firstTry: int, thisTry: int)
    | WriteGarbage(key: string)
    | ReadForOperation(op: nat, guid: string, operation: Operation, stamp: int)
    | ReadForResolve(op: nat, guid: string)
    | ListForConvergence(op: nat, key: string, now: int, stamp: int, alive: set<string>, settings: Settings)
    | TrySwap(op: nat, answered: bool)
    | TryDelete(op: nat, answered: bool)

  /** DesireTask stamps the creation time once, if the caller did not, and the update
      time on every try. */
  function NewTask(task: Task, firstTry: int, thisTry: int): Task {
    task.(createdAt := if task.createdAt == 0 then firstTry else task.createdAt, updatedAt := thisTry, state := Pending)
  }

  function Put(s: State, key: string, version: Version): State {
    s.(index := s.index + 1,
       nodes := s.nodes[key := (if key in s.nodes then s.nodes[key] else []) + [version]])
  }

  predicate Holds(s: State, key: string, index: nat) {
    key in s.nodes && s.nodes[key] != [] && Current(s.nodes[key]).index == index
  }

  ghost predicate Next(s: State, step: Step, s': State) {
    match step
    case Tick(now) => now >= s.clock && s' == s.(clock := now)
    case DesireTask(task, firstTry, thisTry) =>
      // Create fails, and changes nothing, if the key exists.
      && firstTry <= thisTry <= s.clock
      && s' == if task.guid in s.nodes then s
               else Put(s, task.guid, Version(s.index + 1, 0, Parsed(NewTask(task, firstTry, thisTry)), Desired))
    case WriteGarbage(key) => key !in s.nodes && s' == Put(s, key, Version(s.index + 1, 0, Unparsable, Foreign))
    case ReadForOperation(op, guid, operation, stamp) =>
      && op !in s.flights && guid in s.nodes && s.nodes[guid] != []
      && stamp >= s.clock
      && var v := Current(s.nodes[guid]);
      && v.value.Parsed? && Check(operation, v.value.task).Success?
      && s' == s.(flights := s.flights[op := Swap(guid, v.index, v.value.task, Rewrite(operation, v.value.task, stamp),
                                                  Operated(operation))])
    case ReadForResolve(op, guid) =>
      && op !in s.flights && guid in s.nodes && s.nodes[guid] != []
      && var v := Current(s.nodes[guid]);
      && v.value.Parsed? && v.value.task.state == Resolving
      && s' == s.(flights := s.flights[op := Removal(guid, v.index, v.value, true)])
    case ListForConvergence(op, key, now, stamp, alive, settings) =>
      && op !in s.flights && key in s.nodes && s.nodes[key] != []
      && s.clock <= now <= stamp
      && var v := Current(s.nodes[key]);
      && if v.value.Unparsable? then s' == s.(flights := s.flights[op := Removal(key, v.index, v.value, false)])
         else
           && var t := Converged(v.value.task, now, alive, settings);
           && t.Some?
           // The swap goes to the key made from the task's own guid.
           && s' == s.(flights := s.flights[op := Swap(v.value.task.guid, v.index, v.value.task,
                                                       t.value.(updatedAt := stamp),
                                                       Convergence(now, alive, settings))])
    case TrySwap(op, answered) =>
      && op in s.flights && s.flights[op].Swap?
      && var f := s.flights[op];
      && f.newTask.updatedAt <= s.clock
      && var flights := if answered || f.cause.Convergence? then s.flights - {op} else s.flights;
      && s' == if Holds(s, f.key, f.readIndex)
               then Put(s, f.key, Version(s.index + 1, f.readIndex, Parsed(f.newTask), f.cause)).(
                      flights := flights, commits := s.commits + [Commit(op, f.key, f.readIndex, s.index + 1)])
               else s.(flights := flights)
    case TryDelete(op, answered) =>
      && op in s.flights && s.flights[op].Removal?
      && var f := s.flights[op];
      && s' == s.(flights := if answered || !f.retried then s.flights - {op} else s.flights, nodes := s.nodes - {f.key})
  }

  // ---------------------------------------------------------------- the invariant

  /** Successive versions come from each other by one lifecycle edge each, written by an
      operation that had read exactly the version it replaced; time does not run back. */
  ghost predicate Follows(v: Version, v': Version) {
    && v'.readFrom == v.index < v'.index
    && v.value.Parsed? && v'.value.Parsed?
    && LifecycleEdge(v.value.task, v'.value.task)
    && v.value.task.updatedAt <= v'.value.task.updatedAt
    && Writes(v'.cause, v.value.task, v'.value.task)
  }

  /** t' is what the named cause makes of t. */
  ghost predicate Writes(cause: Cause, t: Task, t': Task) {
    match cause
    case Operated(op) => Check(op, t).Success? && t' == Rewrite(op, t, t'.updatedAt)
    case Convergence(now, alive, settings) =>
      var c := Converged(t, now, alive, settings);
      c.Some? && t' == c.value.(updatedAt := t'.updatedAt)
    case _ => false
  }

  ghost predicate Chain(versions: seq<Version>) {
    && versions != []
    && (versions[0].value.Parsed? ==> versions[0].cause == Desired && versions[0].value.task.state == Pending)
    && forall k | 0 < k < |versions| :: Follows(versions[k - 1], versions[k])
  }

  ghost predicate NodeInv(s: State, key: string)
    requires key in s.nodes
  {
    var versions := s.nodes[key];
    && Chain(versions)
    && Current(versions).index <= s.index
    && (Current(versions).value.Parsed? ==> Current(versions).value.task.updatedAt <= s.clock)
  }

  /** A swap in flight still knows the version it has read: whoever holds that index
      now holds that very task. */
  ghost predicate FlightInv(s: State, f: Flight) {
    f.Swap? ==>
      && f.readIndex <= s.index
      && (forall key | key in s.nodes && Holds(s, key, f.readIndex) ::
            Current(s.nodes[key]).value == Parsed(f.readTask))
      && LifecycleEdge(f.readTask, f.newTask)
      && f.readTask.updatedAt <= f.newTask.updatedAt
      && Writes(f.cause, f.readTask, f.newTask)
  }

  /** Indices are never shared or reused. */
  ghost predicate IndexInv(s: State) {
    && (forall k, k' | k in s.nodes && k' in s.nodes && k != k' && s.nodes[k] != [] && s.nodes[k'] != [] ::
          Current(s.nodes[k]).index != Current(s.nodes[k']).index)
    && (forall c | c in s.commits :: c.readIndex < c.index <= s.index)
    && (forall c, key | c in s.commits :: !Holds(s, key, c.readIndex))
    && (forall i, j | 0 <= i < j < |s.commits| :: s.commits[i].readIndex != s.commits[j].readIndex)
  }

  ghost predicate Inv(s: State) {
    && (forall key | key in s.nodes :: NodeInv(s, key))
    && (forall op | op in s.flights :: FlightInv(s, s.flights[op]))
    && IndexInv(s)
  }
}
