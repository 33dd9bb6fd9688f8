/** The task operations as the code runs them against a store: reads and writes that may
    go unanswered are retried; a converger lists, schedules, swaps and deletes. */
module TaskBBS {
  import opened Wrappers
  import opened TaskModel
  import opened TaskProtocol
  import opened Stores

  type TaskStore = Store<Value>

  class TaskBBS {
    const store: TaskStore
    /** What the time provider answers. */
    var clock: int

    constructor (store: TaskStore, clock: int)
      ensures this.store == store && this.clock == clock
    {
      this.store, this.clock := store, clock;
    }

    method GetTask(guid: string) returns (r: Result<(Task, nat), Error>)
      modifies store`fates
      ensures store.fates == AfterRead(old(store.fates))
      ensures r == if guid in store.nodes && store.nodes[guid].value.Parsed?
                   then Success((store.nodes[guid].value.task, store.nodes[guid].index)) else Failure(NoSuchTask)
    {
      while true
        invariant AfterRead(store.fates) == AfterRead(old(store.fates))
        decreases |store.fates|
      {
        var node := store.Get(guid);
        if node == Failure(Timeout) {
          continue;
        }
        if node.Failure? || node.value.value.Unparsable? {
          return Failure(NoSuchTask);
        }
        return Success((node.value.value.task, node.value.index));
      }
    }

    /** ClaimTask, StartTask, CompleteTask and ResolvingTask. With nobody else writing,
        the rewritten task gets into the store exactly once whatever answers are lost;
        but the operation reports a failure if the write took effect unanswered. */
    method Operate(guid: string, op: Operation) returns (r: Result<(), Error>)
      requires store.Valid()
      modifies store
      ensures store.Valid()
      ensures var task := TaskAt(old(store.nodes), guid);
              if task.Failure? || Check(op, task.value).Failure?
              then store.nodes == old(store.nodes) &&
                  r == (if task.Failure? then Failure(NoSuchTask) else Check(op, task.value))
              else store.nodes == old(store.nodes)[guid := StoredNode(Parsed(Rewrite(op, task.value, clock)),
                  old(store.index) + 1)]
                   && (r.Success? <==> !EffectLost(AfterRead(old(store.fates))))
                   && (r.Failure? ==> r.error == ComparisonFailed)
    {
      var read := GetTask(guid);
      if read.Failure? {
        return Failure(read.error);
      }
      var (task, oldIndex) := read.value;
      var checked := Check(op, task);
      if checked.Failure? {
        return checked;
      }
      var newTask := Rewrite(op, task, clock);
      ghost var fates := store.fates;
      ghost var swapped := old(store.nodes)[guid := StoredNode(Parsed(newTask), old(store.index) + 1)];
      while true
        invariant store.Valid()
        invariant if store.nodes == old(store.nodes) && store.Holds(guid, oldIndex)
                  then store.index == old(store.index) && (EffectLost(store.fates) <==> EffectLost(fates))
                  else store.nodes == swapped && EffectLost(fates)
        decreases |store.fates|
      {
        var answer := store.CompareAndSwapByIndex(oldIndex, guid, Parsed(newTask));
        if answer == Failure(Timeout) {
          continue;
        }
        return if answer.Success? then Success(()) else Failure(ComparisonFailed);
      }
    }

    /** With nobody else writing, DesireTask creates the task iff its key is free, and
        again reports failure iff the creation went unanswered. */
    method DesireTask(task: Task) returns (r: Result<(), Error>)
      requires store.Valid()
      modifies store
      ensures store.Valid()
      ensures if task.guid in old(store.nodes) then store.nodes == old(store.nodes) && r == Failure(KeyExists)
              else store.nodes == old(store.nodes)[task.guid := StoredNode(Parsed(NewTask(task, clock, clock)),
                  old(store.index) + 1)]
                   && r == if EffectLost(old(store.fates)) then Failure(KeyExists) else Success(())
    {
      var newTask := NewTask(task, clock, clock);
      while true
        invariant store.Valid()
        invariant if task.guid !in store.nodes
                  then store.nodes == old(store.nodes) && store.index == old(store.index)
                       && (EffectLost(store.fates) <==> EffectLost(old(store.fates)))
                  else if task.guid in old(store.nodes) then store.nodes == old(store.nodes)
                  else store.nodes == old(store.nodes)[task.guid := StoredNode(Parsed(newTask), old(store.index) + 1)]
                       && EffectLost(old(store.fates))
        decreases |store.fates|
      {
        var answer := store.Create(task.guid, Parsed(newTask));
        if answer == Failure(Timeout) {
          continue;
        }
        return if answer.Success? then Success(()) else Failure(KeyExists);
      }
    }

    /** ResolveTask checks the state it read, then deletes whatever the key holds. */
    method ResolveTask(guid: string) returns (r: Result<(), Error>)
      requires store.Valid()
      modifies store
      ensures store.Valid()
      ensures var task := TaskAt(old(store.nodes), guid);
              if task.Failure? then store.nodes == old(store.nodes) && r == Failure(NoSuchTask)
              else if task.value.state != Resolving then store.nodes == old(store.nodes) && r == Failure(WrongState)
              else store.nodes == old(store.nodes) - {guid}
                   && r == if EffectLost(AfterRead(old(store.fates))) then Failure(KeyNotFound) else Success(())
    {
      var read := GetTask(guid);
      if read.Failure? {
        return Failure(read.error);
      }
      if read.value.0.state != Resolving {
        return Failure(WrongState);
      }
      ghost var fates := store.fates;
      while true
        invariant store.Valid()
        invariant if guid in store.nodes
                  then store.nodes == old(store.nodes) && (EffectLost(store.fates) <==> EffectLost(fates))
                  else store.nodes == old(store.nodes) - {guid} && EffectLost(fates)
        decreases |store.fates|
      {
        var answer := store.Delete(guid);
        if answer == Failure(Timeout) {
          continue;
        }
        return if answer.Success? then Success(()) else Failure(KeyNotFound);
      }
    }
  }

  function TaskAt(nodes: map<string, StoredNode<Value>>, guid: string): Result<Task, Error> {
    if guid in nodes && nodes[guid].value.Parsed? then Success(nodes[guid].value.task) else Failure(NoSuchTask)
  }

  /** A claim that takes effect and fails: the read is answered, the swap is carried out and
      its answer lost, and the retry finds the version gone. */
  method ClaimFailsAlthoughDone(store: TaskStore, guid: string, executorID: string, clock: int)
    returns (r: Result<(), Error>)
    requires store.Valid() && store.fates == [Answered, LostAfter]
    requires TaskAt(store.nodes, guid).Success? && TaskAt(store.nodes, guid).value.state == Pending
    modifies store
    ensures r == Failure(ComparisonFailed)
    ensures TaskAt(store.nodes, guid)
         == Success(Rewrite(ClaimTask(executorID), old(TaskAt(store.nodes, guid).value), clock))
  {
    var bbs := new TaskBBS(store, clock);
    assert AfterRead(store.fates) == [LostAfter];
    r := bbs.Operate(guid, ClaimTask(executorID));
  }
}
