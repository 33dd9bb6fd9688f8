/** One pass of the task converger against a store that nobody else writes, and how many
    passes it takes until a pass changes nothing. */
module TaskConvergence {
  import opened Collections
  import opened Wrappers
  import opened TaskModel
  import opened TaskProtocol
  import opened TaskVerdicts
  import opened Stores
  import opened TaskBBS

  type Values = map<string, Value>

  type Nodes = map<string, StoredNode<Value>>

  /** The values a store holds, without their indices. */
  function ValuesOf(nodes: Nodes): Values {
    map k | k in nodes :: nodes[k].value
  }

  /** What a pass writes at a key that holds this task, if anything. A task kept at a key
      other than its own guid's is never written: the swap goes to the other key. */
  function Written(key: string, task: Task, now: int, alive: set<string>, settings: Settings): Option<Task> {
    var c := Converged(task, now, alive, settings);
    if c.Some? && task.guid == key then Some(c.value.(updatedAt := now)) else None
  }

  function PassValue(key: string, task: Task, now: int, alive: set<string>, settings: Settings): Value {
    var w := Written(key, task, now, alive, settings);
    Parsed(if w.Some? then w.value else task)
  }

  /** A whole pass: unparsable nodes are deleted, tasks are converged. */
  function Pass(m: Values, now: int, alive: set<string>, settings: Settings): Values {
    map k | k in m && m[k].Parsed? :: PassValue(k, m[k].task, now, alive, settings)
  }

  datatype CompareAndSwappableTask = CompareAndSwappableTask(oldIndex: nat, newTask: Task)

  ghost predicate ScheduledFrom(nodes: Nodes, key: string, c: CompareAndSwappableTask,
                                now: int, alive: set<string>, settings: Settings)
  {
    && key in nodes && nodes[key].value.Parsed? && nodes[key].index == c.oldIndex
    && Converged(nodes[key].value.task, now, alive, settings) == Some(c.newTask)
  }

  ghost predicate AllScheduled(nodes: Nodes, keys: seq<string>, cas: seq<CompareAndSwappableTask>,
                               now: int, alive: set<string>, settings: Settings)
  {
    && |keys| == |cas|
    && (forall i | 0 <= i < |keys| :: ScheduledFrom(nodes, keys[i], cas[i], now, alive, settings))
    && (forall i, j | 0 <= i < j < |keys| :: keys[i] != keys[j])
  }

  /** The node at key k after the swaps for `keys` of the batch. */
  ghost predicate SwappedNode(before: Nodes, after: Nodes, keys: seq<string>,
                              k: string, index: nat, now: int, alive: set<string>, settings: Settings)
    requires k in before && k in after
  {
    if k in keys && before[k].value.Parsed?
    then after[k].value == PassValue(k, before[k].value.task, now, alive, settings)
         && if before[k].value.task.guid == k then after[k].index > index else after[k] == before[k]
    else after[k] == before[k]
  }

  ghost predicate Swapped(before: Nodes, after: Nodes, keys: seq<string>,
                          index: nat, now: int, alive: set<string>, settings: Settings)
  {
    && before.Keys == after.Keys
    && forall k | k in before :: SwappedNode(before, after, keys, k, index, now, alive, settings)
  }

  lemma SwapOne(before: Nodes, between: Nodes, after: Nodes,
                keys: seq<string>, key: string, c: CompareAndSwappableTask, index: nat, index': nat, now: int,
                alive: set<string>, settings: Settings)
    requires Swapped(before, between, keys, index, now, alive, settings)
    requires ScheduledFrom(before, key, c, now, alive, settings) && key !in keys
    requires forall k | k in before :: before[k].index <= index < index'
    requires forall k | k in before && k != key :: before[k].index != before[key].index
    requires var task := c.newTask.(updatedAt := now);
             after == if task.guid in between && between[task.guid].index == c.oldIndex
                      then between[task.guid := StoredNode(Parsed(task), index')] else between
    ensures Swapped(before, after, keys + [key], index, now, alive, settings)
  {
    var task := c.newTask.(updatedAt := now);
    assert SwappedNode(before, between, keys, key, index, now, alive, settings);
    assert task.guid in before ==> SwappedNode(before, between, keys, task.guid, index, now, alive, settings);
    assert task.guid == before[key].value.task.guid;
    assert task.guid != key ==> after == between;
    forall k | k in before ensures SwappedNode(before, after, keys + [key], k, index, now, alive, settings) {
      assert SwappedNode(before, between, keys, k, index, now, alive, settings);
    }
  }

  /** batchCompareAndSwapTasks: the swaps run in any order; each compares with the index
      that was listed. */
  method BatchCompareAndSwapTasks(store: TaskStore, cas: seq<CompareAndSwappableTask>, ghost keys: seq<string>,
      now: int,
                                  ghost alive: set<string>, ghost settings: Settings)
    requires store.Valid() && store.fates == []
    requires AllScheduled(store.nodes, keys, cas, now, alive, settings)
    modifies store
    ensures store.Valid() && store.fates == []
    ensures Swapped(old(store.nodes), store.nodes, keys, old(store.index), now, alive, settings)
  {
    for i := 0 to |cas|
      invariant store.Valid() && store.fates == [] && store.index >= old(store.index)
      invariant Swapped(old(store.nodes), store.nodes, keys[..i], old(store.index), now, alive, settings)
    {
      ghost var between, index := store.nodes, store.index;
      assert ScheduledFrom(old(store.nodes), keys[i], cas[i], now, alive, settings);
      var task := cas[i].newTask.(updatedAt := now);
      var answer := store.CompareAndSwapByIndex(cas[i].oldIndex, task.guid, Parsed(task));
      SwapOne(old(store.nodes), between, store.nodes, keys[..i], keys[i], cas[i], old(store.index), index + 1, now,
          alive,
              settings);
      assert keys[..i + 1] == keys[..i] + [keys[i]];
    }
    assert keys[..|cas|] == keys;
  }

  ghost predicate IsListing(listing: seq<(string, StoredNode<Value>)>, nodes: Nodes) {
    && (forall k, n :: (k, n) in listing <==> k in nodes && nodes[k] == n)
    && (forall i, j | 0 <= i < j < |listing| :: listing[i].0 != listing[j].0)
  }

  /** The loop of ConvergeTask over the listed nodes: what to delete and what to swap. */
  method Schedule(listing: seq<(string, StoredNode<Value>)>, now: int, alive: set<string>, settings: Settings,
                  ghost nodes: Nodes)
    returns (keysToDelete: seq<string>, tasksToCAS: seq<CompareAndSwappableTask>, ghost keys: seq<string>)
    requires IsListing(listing, nodes)
    ensures AllScheduled(nodes, keys, tasksToCAS, now, alive, settings)
    ensures forall k | k in keysToDelete :: k in nodes && nodes[k].value.Unparsable?
    ensures forall k | k in nodes :: Handled((k, nodes[k]), keys, keysToDelete, now, alive, settings)
  {
    keysToDelete, tasksToCAS, keys := [], [], [];
    for i := 0 to |listing|
      invariant AllScheduled(nodes, keys, tasksToCAS, now, alive, settings)
      invariant forall k | k in keys :: exists j :: 0 <= j < i && listing[j].0 == k
      invariant forall k | k in keysToDelete :: k in nodes && nodes[k].value.Unparsable?
      invariant forall j | 0 <= j < i :: Handled(listing[j], keys, keysToDelete, now, alive, settings)
    {
      var (key, node) := listing[i];
      assert (key, node) in listing;
      assert key !in keys;
      match node.value
      case Unparsable =>
        keysToDelete := keysToDelete + [key];
      case Parsed(task) =>
        var scheduled := Converged(task, now, alive, settings);
        if scheduled.Some? {
          tasksToCAS := tasksToCAS + [CompareAndSwappableTask(node.index, scheduled.value)];
          keys := keys + [key];
        }
    }
    forall k | k in nodes ensures Handled((k, nodes[k]), keys, keysToDelete, now, alive, settings) {
      assert (k, nodes[k]) in listing;
    }
  }

  /** The store's Delete of several keys. */
  method DeleteAll(store: TaskStore, keys: seq<string>)
    requires store.Valid() && store.fates == []
    modifies store
    ensures store.Valid() && store.fates == []
    ensures store.nodes == old(store.nodes) - Elements(keys)
  {
    for i := 0 to |keys|
      invariant store.Valid() && store.fates == []
      invariant store.nodes == old(store.nodes) - Elements(keys[..i])
    {
      var answer := store.Delete(keys[i]);
      assert Elements(keys[..i + 1]) == Elements(keys[..i]) + {keys[i]};
    }
    assert keys[..|keys|] == keys;
  }

  /** ConvergeTask: list the tasks, schedule swaps and deletions, then carry them out. */
  method ConvergeTask(store: TaskStore, now: int, alive: set<string>, settings: Settings)
    requires store.Valid() && store.fates == []
    modifies store
    ensures store.Valid() && store.fates == []
    ensures ValuesOf(store.nodes) == Pass(ValuesOf(old(store.nodes)), now, alive, settings)
    ensures forall k :: k in store.nodes <==> k in old(store.nodes) && old(store.nodes)[k].value.Parsed?
    ensures forall k | k in store.nodes ::
              ConvergedNode(k, old(store.nodes)[k], store.nodes[k], old(store.index), now, alive, settings)
  {
    var listing := store.ListRecursively();
    var keysToDelete, tasksToCAS; ghost var keys;
    keysToDelete, tasksToCAS, keys := Schedule(listing, now, alive, settings, store.nodes);
    BatchCompareAndSwapTasks(store, tasksToCAS, keys, now, alive, settings);
    ghost var swapped := store.nodes;
    DeleteAll(store, keysToDelete);
    PassDone(old(store.nodes), swapped, keys, keysToDelete, store.nodes, old(store.index), now, alive, settings);
    NodesDone(old(store.nodes), swapped, keys, keysToDelete, store.nodes, old(store.index), now, alive, settings);
  }

  /** A task that is due and kept at its own key is written anew, all others are not. */
  predicate ConvergedNode(k: string, before: StoredNode<Value>, after: StoredNode<Value>, index: nat, now: int,
                          alive: set<string>, settings: Settings)
    requires before.value.Parsed?
  {
    var t := before.value.task;
    if t.guid == k && Due(t, now, alive, settings) then
      && after.index > index && after.value.Parsed?
      && Becomes(t, after.value.task, now, alive, settings) && after.value.task.updatedAt == now
    else after == before
  }

  /** After ConvergeTask, a task at its own key is completed, as failed, exactly if it was
      pending past its time to be claimed or its executor is gone; a claimed one is pending
      again exactly if its executor is there but has let it rest, a resolving one completed
      again exactly if its stager has; a pending or completed one that rests gets a new
      update time and nothing else; and the node of any other task is the same as before. */
  lemma ConvergedNodeIff(k: string, before: StoredNode<Value>, after: StoredNode<Value>, index: nat, now: int,
                         alive: set<string>, settings: Settings)
    requires before.value.Parsed? && before.value.task.guid == k && before.index <= index
    requires ConvergedNode(k, before, after, index, now, alive, settings)
    ensures var t := before.value.task;
            var overdue := t.state == Pending && now - t.createdAt >= settings.timeToClaim;
            var orphaned := (t.state == Claimed || t.state == Running) && t.executorID !in alive;
            var resting := now - t.updatedAt >= settings.convergenceInterval;
            && (after == before <==>
                  !overdue && !orphaned && (resting ==> t.state == Running || t.state == Invalid))
            && after.value.Parsed?
            && var t' := after.value.task;
            && (t.state != Completed && t.state != Resolving ==> (t'.state == Completed <==> overdue || orphaned))
            && (overdue ==>
                  t' == t.(state := Completed, failed := true, failureReason := NOT_CLAIMED, updatedAt := now))
            && (orphaned ==>
                  t' == t.(state := Completed, failed := true, failureReason := DISAPPEARED, updatedAt := now))
            && (t.state == Claimed ==> (t'.state == Pending <==> !orphaned && resting))
            && (t.state == Resolving ==> (t'.state == Completed <==> resting))
            && (t.state == Resolving && resting ==> t' == t.(state := Completed, updatedAt := now))
            && ((t.state == Pending && !overdue) || t.state == Completed ==>
                  t' == if resting then t.(updatedAt := now) else t)
  {
    if Due(before.value.task, now, alive, settings) {
      TreatedIff(before.value.task, after.value.task, now, alive, settings);
    }
  }

  lemma NodesDone(before: Nodes, swapped: Nodes, keys: seq<string>,
                  keysToDelete: seq<string>, after: Nodes, index: nat, now: int, alive: set<string>,
                  settings: Settings)
    requires forall k | k in before :: Handled((k, before[k]), keys, keysToDelete, now, alive, settings)
    requires forall k | k in keysToDelete :: k in before && before[k].value.Unparsable?
    requires Swapped(before, swapped, keys, index, now, alive, settings)
    requires after == swapped - Elements(keysToDelete)
    ensures forall k :: k in after <==> k in before && before[k].value.Parsed?
    ensures forall k | k in after :: ConvergedNode(k, before[k], after[k], index, now, alive, settings)
  {
    forall k | k in before
      ensures k in after <==> before[k].value.Parsed?
      ensures k in after ==> ConvergedNode(k, before[k], after[k], index, now, alive, settings)
    {
      assert SwappedNode(before, swapped, keys, k, index, now, alive, settings);
      assert Handled((k, before[k]), keys, keysToDelete, now, alive, settings);
      if before[k].value.Parsed? {
        ActsIfDue(before[k].value.task, now, alive, settings, now);
      }
    }
  }

  ghost predicate Handled(entry: (string, StoredNode<Value>), keys: seq<string>, keysToDelete: seq<string>, now: int,
                          alive: set<string>, settings: Settings)
  {
    match entry.1.value
    case Unparsable => entry.0 in keysToDelete
    case Parsed(task) => Converged(task, now, alive, settings).Some? <==> entry.0 in keys
  }

  lemma PassDone(before: Nodes, swapped: Nodes, keys: seq<string>,
                 keysToDelete: seq<string>, after: Nodes, index: nat, now: int, alive: set<string>,
                 settings: Settings)
    requires forall k | k in before :: Handled((k, before[k]), keys, keysToDelete, now, alive, settings)
    requires forall k | k in keysToDelete :: k in before && before[k].value.Unparsable?
    requires Swapped(before, swapped, keys, index, now, alive, settings)
    requires after == swapped - Elements(keysToDelete)
    ensures ValuesOf(after) == Pass(ValuesOf(before), now, alive, settings)
  {
    var m, p := ValuesOf(after), Pass(ValuesOf(before), now, alive, settings);
    forall k ensures (k in m <==> k in p) && (k in m ==> m[k] == p[k]) {
      if k in before {
        assert SwappedNode(before, swapped, keys, k, index, now, alive, settings);
        assert Handled((k, before[k]), keys, keysToDelete, now, alive, settings);
      }
    }
  }

  // ------------------------------------------------------------------- fixpoints

  /** Only an over-age claimed task, pending again after the first pass, is due for a
      second write: it is then failed, being older than the time to claim allows. */
  predicate NeedsSecondPass(key: string, task: Task, now: int, alive: set<string>, settings: Settings) {
    && task.guid == key && task.state == Claimed && task.executorID in alive
    && now - task.updatedAt >= settings.convergenceInterval
    && now - task.createdAt >= settings.timeToClaim
  }

  /** With the clock and the executors standing still, a pass writes a task that the
      previous pass has seen iff it needs the second pass, and then for the last time. */
  lemma SecondWrite(key: string, task: Task, now: int, alive: set<string>, settings: Settings)
    requires settings.convergenceInterval > 0
    ensures var t1 := PassValue(key, task, now, alive, settings).task;
            var t2 := PassValue(key, t1, now, alive, settings).task;
            && (Written(key, t1, now, alive, settings).Some? <==> NeedsSecondPass(key, task, now, alive, settings))
            && Written(key, t2, now, alive, settings).None?
  {
  }

  /** No value of the store would be written by a pass. */
  predicate Settled(m: Values, now: int, alive: set<string>, settings: Settings) {
    forall k | k in m :: m[k].Parsed? && Written(k, m[k].task, now, alive, settings).None?
  }

  lemma SettledIsFixpoint(m: Values, now: int, alive: set<string>, settings: Settings)
    requires Settled(m, now, alive, settings)
    ensures Pass(m, now, alive, settings) == m
  {
  }

  /** Two passes settle every store; one pass does exactly if no task needs the second. */
  lemma TwoPassesSettle(m: Values, now: int, alive: set<string>, settings: Settings)
    requires settings.convergenceInterval > 0
    ensures var m1 := Pass(m, now, alive, settings); var m2 := Pass(m1, now, alive, settings);
            && Settled(m2, now, alive, settings) && Pass(m2, now, alive, settings) == m2
            && (Settled(m1, now, alive, settings) <==>
                forall k | k in m && m[k].Parsed? :: !NeedsSecondPass(k, m[k].task, now, alive, settings))
  {
    var m1 := Pass(m, now, alive, settings);
    var m2 := Pass(m1, now, alive, settings);
    forall k | k in m && m[k].Parsed?
      ensures Written(k, m1[k].task, now, alive, settings).Some? <==>
          NeedsSecondPass(k, m[k].task, now, alive, settings)
      ensures k in m2 && m2[k].Parsed? && Written(k, m2[k].task, now, alive, settings).None?
    {
      SecondWrite(k, m[k].task, now, alive, settings);
    }
    SettledIsFixpoint(m2, now, alive, settings);
  }
}
