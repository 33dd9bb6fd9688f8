/** When a converger acts on a task and what it makes of it, in terms of the task, the
    clock, the executors and the settings alone. */
module TaskVerdicts {
  import opened Wrappers
  import opened TaskModel

  /** Nobody has claimed the task in time. */
  predicate Unclaimed(t: Task, now: int, settings: Settings) {
    t.state == Pending && now - t.createdAt >= settings.timeToClaim
  }

  /** The executor that has the task is not there any more. */
  predicate Orphaned(t: Task, alive: set<string>) {
    (t.state == Claimed || t.state == Running) && t.executorID !in alive
  }

  /** The task has rested in a state that somebody should have taken it out of. */
  predicate Stalled(t: Task, now: int, settings: Settings) {
    && t.state != Running && t.state != Invalid
    && now - t.updatedAt >= settings.convergenceInterval
  }

  predicate Due(t: Task, now: int, alive: set<string>, settings: Settings) {
    Unclaimed(t, now, settings) || Orphaned(t, alive) || Stalled(t, now, settings)
  }

  predicate FailedFor(t: Task, t': Task, reason: string) {
    t' == t.(state := Completed, failed := true, failureReason := reason, updatedAt := t'.updatedAt)
  }

  /** What a task that is due becomes. */
  predicate Becomes(t: Task, t': Task, now: int, alive: set<string>, settings: Settings) {
    if Unclaimed(t, now, settings) then FailedFor(t, t', "not claimed within time limit")
    else if Orphaned(t, alive) then FailedFor(t, t', "executor disappeared before completion")
    else if t.state == Claimed then
      t' == t.(state := Pending, executorID := "", containerHandle := "", updatedAt := t'.updatedAt)
    else if t.state == Resolving then t' == t.(state := Completed, updatedAt := t'.updatedAt)
    else t' == t.(updatedAt := t'.updatedAt)
  }

  /** A converger acts on a listed task exactly if it is due. */
  lemma ActsIfDue(t: Task, now: int, alive: set<string>, settings: Settings, stamp: int)
    ensures Converged(t, now, alive, settings).Some? <==> Due(t, now, alive, settings)
    ensures Due(t, now, alive, settings) ==>
        Becomes(t, Converged(t, now, alive, settings).value.(updatedAt := stamp), now, alive, settings)
  {
  }

  /** What becomes of a task, edge by edge, when a converger that looks at it at `now`
      writes t', or leaves it if nothing is due. */
  predicate Treated(t: Task, t': Task, now: int, alive: set<string>, settings: Settings) {
    if Due(t, now, alive, settings) then Becomes(t, t', now, alive, settings) else t' == t
  }

  /** A task that is not over is completed, always as failed, exactly if it is pending past
      its time to be claimed or its executor is gone; a claimed one goes back to pending
      exactly if its executor is there but has let it rest, a resolving one to completed
      exactly if its stager has; and no other state changes. */
  lemma TreatedIff(t: Task, t': Task, now: int, alive: set<string>, settings: Settings)
    requires Treated(t, t', now, alive, settings)
    ensures var resting := now - t.updatedAt >= settings.convergenceInterval;
            && (t.state != Completed && t.state != Resolving ==>
                  (t'.state == Completed <==>
                     (t.state == Pending && now - t.createdAt >= settings.timeToClaim) ||
                     ((t.state == Claimed || t.state == Running) && t.executorID !in alive)))
            && (t.state == Claimed ==> (t'.state == Pending <==> t.executorID in alive && resting))
            && (t.state == Resolving ==> (t'.state == Completed <==> resting))
            && (t'.state != t.state ==> t'.state == Completed || (t.state == Claimed && t'.state == Pending))
    ensures t.state != Resolving && t'.state == Completed != t.state ==>
              t'.failed && t'.result == t.result &&
              t'.failureReason == if t.state == Pending then NOT_CLAIMED else DISAPPEARED
    ensures t'.state == t.state || t.state == Resolving ==> t' == t.(state := t'.state, updatedAt := t'.updatedAt)
  {
  }
}
