/** Late deletions: ResolveTask and the convergers delete a key because of what they have
    read there, whatever it holds by then. */
module TaskRemoval {
  import opened Wrappers
  import opened TaskModel
  import opened TaskProtocol
  import opened TaskSafety

  /** The versions at the key include the one that was read. */
  ghost predicate OfReadLifetime(s: State, f: Flight)
    requires f.Removal? && f.key in s.nodes
  {
    exists k :: 0 <= k < |s.nodes[f.key]| && s.nodes[f.key][k].index == f.readIndex
  }

  /** The value is as good a reason for the removal as the one read: it does not parse
      either, or it is the same task with the same outcome, still over. */
  ghost predicate SameReason(read: Value, now: Value) {
    match read
    case Unparsable => now.Unparsable?
    case Parsed(t) => now.Parsed? && Over(now.task) && Settled(t, now.task)
  }

  ghost predicate ReadAt(s: State, f: Flight)
    requires f.Removal?
  {
    && f.key in s.nodes && s.nodes[f.key] != []
    && Current(s.nodes[f.key]).index == f.readIndex && Current(s.nodes[f.key]).value == f.read
    && (f.read.Parsed? ==> f.read.task.state == Resolving)
  }

  /** Where a removal in flight was read. */
  lemma {:induction false} RemovalWasRead(states: seq<State>, steps: seq<Step>, j: nat, op: nat) returns (i: nat)
    requires IsRun(states, steps) && j < |states| && op in states[j].flights && states[j].flights[op].Removal?
    ensures i <= j && ReadAt(states[i], states[j].flights[op])
  {
    assert j > 0;
    assert Next(states[j - 1], steps[j - 1], states[j]);
    if op in states[j - 1].flights {
      i := RemovalWasRead(states, steps, j - 1, op);
    } else {
      i := j - 1;
    }
  }

  lemma {:induction false} IndexGrows(states: seq<State>, steps: seq<Step>, m: nat, j: nat)
    requires IsRun(states, steps) && m <= j < |states|
    ensures states[m].index <= states[j].index
    decreases j
  {
    if m < j {
      IndexGrows(states, steps, m, j - 1);
      assert Next(states[j - 1], steps[j - 1], states[j]);
    }
  }

  /** What a step writes has the next index. */
  lemma StepWritesNext(s: State, step: Step, s': State, key: string, k: nat)
    requires Next(s, step, s') && key in s'.nodes && k < |s'.nodes[key]|
    ensures s'.nodes[key][k].index == s.index + 1 ||
        (key in s.nodes && k < |s.nodes[key]| && s'.nodes[key][k] == s.nodes[key][k])
  {
  }

  /** A key that was absent holds only versions written since. */
  lemma {:induction false} BornLater(states: seq<State>, steps: seq<Step>, m: nat, j: nat, key: string, k: nat)
    requires IsRun(states, steps) && m <= j < |states| && key !in states[m].nodes
    requires key in states[j].nodes && k < |states[j].nodes[key]|
    ensures states[j].nodes[key][k].index > states[m].index
    decreases j
  {
    assert m < j;
    var s := states[j - 1];
    IndexGrows(states, steps, m, j - 1);
    StepWritesNext(s, steps[j - 1], states[j], key, k);
    if key in s.nodes && k < |s.nodes[key]| && states[j].nodes[key][k] == s.nodes[key][k] {
      BornLater(states, steps, m, j - 1, key, k);
    }
  }

  /** An unparsable value is the only version of its lifetime. */
  lemma GarbageStandsAlone(versions: seq<Version>, k: nat)
    requires Chain(versions) && k < |versions| && versions[k].value.Unparsable?
    ensures |versions| == 1
  {
    assert k > 0 ==> Follows(versions[k - 1], versions[k]);
    assert k + 1 < |versions| ==> Follows(versions[k], versions[k + 1]);
  }

  /** As long as the key was not deleted, what it holds is as good a reason. */
  lemma ReasonLasts(states: seq<State>, steps: seq<Step>, i: nat, j: nat, f: Flight)
    requires IsRun(states, steps) && i <= j < |states| && f.Removal? && ReadAt(states[i], f)
    requires PresentThroughout(states, i, j, f.key)
    ensures OfReadLifetime(states[j], f) && SameReason(f.read, Current(states[j].nodes[f.key]).value)
  {
    LifetimeExtends(states, steps, i, j, f.key);
    var before, after := states[i].nodes[f.key], states[j].nodes[f.key];
    assert after[|before| - 1] == before[|before| - 1];
    if f.read.Parsed? {
      CompletedIsFrozen(after, |before| - 1, |after| - 1);
    } else {
      GarbageStandsAlone(after, |before| - 1);
    }
  }

  /** In every reachable state with a removal in flight for a key that is there: the key
      holds the lifetime that was read if and only if it was not deleted in between, and
      then it is removed for as good a reason as was read. Otherwise everything that will
      be removed was written after the read. */
  lemma RemovesWhatWasReadIff(states: seq<State>, steps: seq<Step>, j: nat, op: nat) returns (i: nat)
    requires IsRun(states, steps) && j < |states| && op in states[j].flights && states[j].flights[op].Removal?
    requires states[j].flights[op].key in states[j].nodes
    ensures var f := states[j].flights[op];
            && i <= j && ReadAt(states[i], f)
            && (PresentThroughout(states, i, j, f.key) <==> OfReadLifetime(states[j], f))
            && (OfReadLifetime(states[j], f) ==> SameReason(f.read, Current(states[j].nodes[f.key]).value))
            && (!OfReadLifetime(states[j], f) ==> forall v | v in states[j].nodes[f.key] :: v.index > f.readIndex)
  {
    var f := states[j].flights[op];
    i := RemovalWasRead(states, steps, j, op);
    RunKeepsInv(states, steps, j);
    assert NodeInv(states[j], f.key);
    if PresentThroughout(states, i, j, f.key) {
      ReasonLasts(states, steps, i, j, f);
    } else {
      var m :| i <= m <= j && f.key !in states[m].nodes;
      RunKeepsInv(states, steps, i);
      assert NodeInv(states[i], f.key);
      IndexGrows(states, steps, i, m);
      forall k | 0 <= k < |states[j].nodes[f.key]|
        ensures states[j].nodes[f.key][k].index > f.readIndex
      {
        BornLater(states, steps, m, j, f.key, k);
      }
    }
  }

  // ------------------------------------------------------------------ how it goes wrong

  /** From every state with a resolving task: the removal takes effect, its answer is
      lost, the task is desired again, and the retry removes the pending task. */
  lemma RetryRemovesPending(s: State, op: nat, guid: string, task: Task)
    returns (s1: State, s2: State, s3: State, s4: State)
    requires Inv(s) && op !in s.flights && task.guid == guid
    requires CurrentTask(s, guid).Some? && CurrentTask(s, guid).value.state == Resolving
    ensures Next(s, ReadForResolve(op, guid), s1) && Next(s1, TryDelete(op, false), s2)
    ensures Next(s2, DesireTask(task, s.clock, s.clock), s3) && Next(s3, TryDelete(op, true), s4)
    ensures CurrentTask(s3, guid).Some? && CurrentTask(s3, guid).value.state == Pending
    ensures guid !in s4.nodes
  {
    var v := Current(s.nodes[guid]);
    s1 := s.(flights := s.flights[op := Removal(guid, v.index, v.value, true)]);
    s2 := s1.(nodes := s1.nodes - {guid});
    s3 := Put(s2, guid, Version(s2.index + 1, 0, Parsed(NewTask(task, s.clock, s.clock)), Desired));
    s4 := s3.(flights := s3.flights - {op}, nodes := s3.nodes - {guid});
  }

  /** From the start: two convergers list an unparsable value, one deletes it, the task is
      desired, and the other converger deletes the pending task. */
  lemma SecondConvergerRemovesPending(task: Task) returns (states: seq<State>, steps: seq<Step>)
    ensures IsRun(states, steps) && |steps| == 6 && steps[5] == TryDelete(1, true)
    ensures CurrentTask(states[5], task.guid).Some? && CurrentTask(states[5], task.guid).value.state == Pending
    ensures task.guid !in states[6].nodes
  {
    var settings := Settings(1, 1);
    var key := task.guid;
    var garbage := Version(1, 0, Unparsable, Foreign);
    var removal := Removal(key, 1, Unparsable, false);
    var s0 := Init;
    var s1 := Put(s0, key, garbage);
    var s2 := s1.(flights := map[0 := removal]);
    var s3 := s1.(flights := map[0 := removal, 1 := removal]);
    var s4 := s1.(flights := map[1 := removal], nodes := map[]);
    var s5 := Put(s4, key, Version(2, 0, Parsed(NewTask(task, 0, 0)), Desired));
    var s6 := s5.(flights := map[], nodes := map[]);
    steps := [WriteGarbage(key), ListForConvergence(0, key, 0, 0, {}, settings),
        ListForConvergence(1, key, 0, 0, {}, settings),
        TryDelete(0, true), DesireTask(task, 0, 0), TryDelete(1, true)];
    states := [s0, s1, s2, s3, s4, s5, s6];
    var none: seq<Version> := [];
    assert none + [garbage] == [garbage];
    assert s1.nodes == map[key := [garbage]];
    assert s3.flights - {0} == s4.flights && s3.nodes - {key} == s4.nodes;
    assert s5.flights - {1} == s6.flights && s5.nodes - {key} == s6.nodes;
    assert Next(s0, steps[0], s1) && Next(s1, steps[1], s2) && Next(s2, steps[2], s3);
    assert Next(s3, steps[3], s4) && Next(s4, steps[4], s5) && Next(s5, steps[5], s6);
  }
}
