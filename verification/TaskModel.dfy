/** Tasks, the operations on them and what each operation writes back. Every operation
    reads a task, checks it, and swaps in a rewritten copy. */
module TaskModel {
  import opened Wrappers

  datatype TaskState = Invalid | Pending | Claimed | Running | Completed | Resolving

  /** `definition` stands for the fields no operation writes: domain, actions, stack,
      limits, log configuration and annotation. */
  datatype Task = Task(
    guid: string, definition: string, createdAt: int, updatedAt: int, state: TaskState,
    executorID: string, containerHandle: string, result: string, failed: bool, failureReason: string)

  datatype Error = NoSuchTask | WrongState | WrongExecutor | ComparisonFailed | KeyExists | KeyNotFound

  /** The operations that read one task and swap it. */
  datatype Operation =
    | ClaimTask(executorID: string)
    | StartTask(executorID: string, containerHandle: string)
    | CompleteTask(failed: bool, failureReason: string, result: string)
    | ResolvingTask

  /** The checks between the read and the write. */
  function Check(op: Operation, task: Task): Result<(), Error> {
    match op
    case ClaimTask(_) => if task.state != Pending then Failure(WrongState) else Success(())
    case StartTask(executorID, _) =>
      if task.state != Claimed then Failure(WrongState)
      else if task.executorID != executorID then Failure(WrongExecutor)
      else Success(())
    case CompleteTask(_, _, _) => if task.state != Running then Failure(WrongState) else Success(())
    case ResolvingTask => if task.state != Completed then Failure(WrongState) else Success(())
  }

  /** The task written back, stamped with the time taken after the read. */
  function Rewrite(op: Operation, task: Task, stamp: int): Task {
    match op
    case ClaimTask(executorID) => task.(updatedAt := stamp, state := Claimed, executorID := executorID)
    case StartTask(_, handle) => task.(updatedAt := stamp, state := Running, containerHandle := handle)
    case CompleteTask(failed, reason, result) =>
      task.(updatedAt := stamp, state := Completed, failed := failed, failureReason := reason, result := result)
    case ResolvingTask => task.(updatedAt := stamp, state := Resolving)
  }

  // ---------------------------------------------------------------- convergence

  datatype Settings = Settings(timeToClaim: int, convergenceInterval: int)

  function MarkTaskFailed(task: Task, reason: string): Task {
    task.(state := Completed, failed := true, failureReason := reason)
  }

  function DemoteToPending(task: Task): Task {
    task.(state := Pending, executorID := "", containerHandle := "")
  }

  function DemoteToCompleted(task: Task): Task {
    task.(state := Completed)
  }

  const NOT_CLAIMED := "not claimed within time limit"
  const DISAPPEARED := "executor disappeared before completion"

  /** What a converger schedules for a listed task, if anything; `alive` are the
      executors present and `now` the time it looks at the clock. */
  function Converged(task: Task, now: int, alive: set<string>, settings: Settings): Option<Task> {
    var kick := now - task.updatedAt >= settings.convergenceInterval;
    match task.state
    case Pending =>
      if now - task.createdAt >= settings.timeToClaim then Some(MarkTaskFailed(task, NOT_CLAIMED))
      else if kick then Some(task)
      else None
    case Claimed =>
      if task.executorID !in alive then Some(MarkTaskFailed(task, DISAPPEARED))
      else if kick then Some(DemoteToPending(task))
      else None
    case Running =>
      if task.executorID !in alive then Some(MarkTaskFailed(task, DISAPPEARED)) else None
    case Completed => if kick then Some(task) else None
    case Resolving => if kick then Some(DemoteToCompleted(task)) else None
    case Invalid => None
  }

  // ---------------------------------------------------------------- the lifecycle

  /** The edges of the lifecycle, by the states at their ends. */
  predicate StateEdge(from: TaskState, to: TaskState) {
    match from
    case Pending => to == Claimed || to == Pending || to == Completed
    case Claimed => to == Running || to == Pending || to == Completed
    case Running => to == Completed
    case Completed => to == Resolving || to == Completed
    case Resolving => to == Completed
    case Invalid => false
  }

  /** One lifecycle edge: what each may change, and what it must not touch. */
  predicate LifecycleEdge(t: Task, t': Task) {
    && StateEdge(t.state, t'.state)
    && t'.guid == t.guid && t'.definition == t.definition && t'.createdAt == t.createdAt
    && (t.state == Pending && t'.state == Pending ==> t' == t.(updatedAt := t'.updatedAt))
    && (t'.state == Claimed ==> t' == t.(state := Claimed, updatedAt := t'.updatedAt, executorID := t'.executorID))
    && (t'.state == Running ==>
          t' == t.(state := Running, updatedAt := t'.updatedAt, containerHandle := t'.containerHandle))
    && (t.state == Claimed && t'.state == Pending ==>
          t' == t.(state := Pending, updatedAt := t'.updatedAt, executorID := "", containerHandle := ""))
    && (t'.state == Completed && (t.state == Pending || t.state == Claimed) ==>
          t'.failed && t'.result == t.result)
    && (t'.state == Completed && t.state != Completed && t.state != Resolving ==>
          t'.executorID == t.executorID && t'.containerHandle == t.containerHandle)
    && (t.state == Completed || t.state == Resolving ==> Settled(t, t'))
  }

  /** t' differs from t in nothing but the state and the time of the update. */
  predicate Settled(t: Task, t': Task) {
    t' == t.(state := t'.state, updatedAt := t'.updatedAt)
  }

  lemma RewriteIsEdge(op: Operation, task: Task, stamp: int)
    requires Check(op, task).Success?
    ensures LifecycleEdge(task, Rewrite(op, task, stamp))
    ensures Carries(op, Rewrite(op, task, stamp)) && Rewrite(op, task, stamp).updatedAt == stamp
  {
  }

  /** The task is where the operation leads to, with what the caller passed. */
  predicate Carries(op: Operation, t: Task) {
    match op
    case ClaimTask(executorID) => t.state == Claimed && t.executorID == executorID
    case StartTask(executorID, handle) =>
      t.state == Running && t.executorID == executorID && t.containerHandle == handle
    case CompleteTask(failed, reason, result) =>
      t.state == Completed && t.failed == failed && t.failureReason == reason && t.result == result
    case ResolvingTask => t.state == Resolving
  }

  /** A pending task can be claimed, a claimed one started by its claimant, a running one
      completed, a completed one resolved, and nothing else. */
  lemma AcceptedIff(op: Operation, task: Task)
    ensures Check(op, task).Success? <==>
            || (op.ClaimTask? && task.state == Pending)
            || (op.StartTask? && task.state == Claimed && task.executorID == op.executorID)
            || (op.CompleteTask? && task.state == Running)
            || (op.ResolvingTask? && task.state == Completed)
    ensures Check(op, task) == Failure(WrongExecutor) <==>
            op.StartTask? && task.state == Claimed && task.executorID != op.executorID
    ensures Check(op, task).Success? || Check(op, task) in {Failure(WrongState), Failure(WrongExecutor)}
  {
  }

  lemma ConvergedIsEdge(task: Task, now: int, alive: set<string>, settings: Settings, stamp: int)
    requires Converged(task, now, alive, settings).Some?
    ensures LifecycleEdge(task, Converged(task, now, alive, settings).value.(updatedAt := stamp))
  {
  }
}
