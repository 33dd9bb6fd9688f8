/** The periodic sweep that notices what the handler has missed: instances of dead
    executors, applications that are not as desired, and processes nobody wants. */
module LRPConvergence {
  import opened Wrappers
  import opened DeltaForce
  import opened Handler

  datatype Listing<+T> = Found(value: T) | KeyNotFound | Failed

  /** A stored desired application, or a value that does not parse as one. */
  datatype DesiredNode = DesiredNode(key: string, index: nat, value: Option<DesiredLRP>)

  datatype ActualKey = ActualKey(processGuid: string, index: int, instanceGuid: string)

  /** A desired application to be written back unchanged, so that its watchers look again. */
  datatype Kick = Kick(oldIndex: nat, lrp: DesiredLRP)

  /** What one sweep does to the store, in order. */
  datatype Sweep = Sweep(deadActuals: seq<ActualKey>, badDesired: seq<string>, kicks: seq<Kick>, stops: seq<Request>)

  /** The instances of a process whose executor is alive, in the order listed. */
  function AliveOf(lrps: seq<ActualLRP>, alive: set<string>, processGuid: string): seq<ActualLRP> {
    if lrps == [] then []
    else
      var last := lrps[|lrps| - 1];
      AliveOf(lrps[..|lrps| - 1], alive, processGuid) +
      if last.executorID in alive && last.processGuid == processGuid then [last] else []
  }

  lemma {:induction false} AliveOfHolds(lrps: seq<ActualLRP>, alive: set<string>, processGuid: string, lrp: ActualLRP)
    ensures lrp in AliveOf(lrps, alive, processGuid) <==>
            lrp in lrps && lrp.executorID in alive && lrp.processGuid == processGuid
  {
    if lrps != [] {
      AliveOfHolds(lrps[..|lrps| - 1], alive, processGuid, lrp);
      assert lrps == lrps[..|lrps| - 1] + [lrps[|lrps| - 1]];
    }
  }

  function DeadKeys(lrps: seq<ActualLRP>, alive: set<string>): seq<ActualKey> {
    if lrps == [] then []
    else
      var last := lrps[|lrps| - 1];
      DeadKeys(lrps[..|lrps| - 1], alive) +
      if last.executorID in alive then [] else [ActualKey(last.processGuid, last.index, last.instanceGuid)]
  }

  predicate IsDeadKey(key: ActualKey, lrp: ActualLRP, alive: set<string>) {
    lrp.executorID !in alive && key == ActualKey(lrp.processGuid, lrp.index, lrp.instanceGuid)
  }

  /** A key is given up if and only if it is that of a listed instance whose executor is
      not alive. */
  lemma {:induction false} DeadKeysHold(lrps: seq<ActualLRP>, alive: set<string>, key: ActualKey)
    ensures key in DeadKeys(lrps, alive) <==> exists lrp :: lrp in lrps && IsDeadKey(key, lrp, alive)
  {
    if lrps != [] {
      var before, last := lrps[..|lrps| - 1], lrps[|lrps| - 1];
      DeadKeysHold(before, alive, key);
      assert lrps == before + [last];
      assert key in DeadKeys(lrps, alive) <==> key in DeadKeys(before, alive) || IsDeadKey(key, last, alive);
    }
  }

  ghost predicate Grouped(byProcess: map<string, seq<ActualLRP>>, lrps: seq<ActualLRP>, alive: set<string>) {
    forall guid: string :: (if guid in byProcess then byProcess[guid] else []) == AliveOf(lrps, alive, guid)
  }

  function Under(byProcess: map<string, seq<ActualLRP>>, guid: string): seq<ActualLRP> {
    if guid in byProcess then byProcess[guid] else []
  }

  method PruneActualsWithMissingExecutors(lrps: seq<ActualLRP>, alive: set<string>)
    returns (byProcess: map<string, seq<ActualLRP>>, keysToDelete: seq<ActualKey>)
    ensures Grouped(byProcess, lrps, alive) && keysToDelete == DeadKeys(lrps, alive)
  {
    byProcess, keysToDelete := map[], [];
    for k := 0 to |lrps|
      invariant Grouped(byProcess, lrps[..k], alive) && keysToDelete == DeadKeys(lrps[..k], alive)
    {
      var actual := lrps[k];
      assert lrps[..k + 1][..k] == lrps[..k];
      if actual.executorID in alive {
        byProcess := byProcess[actual.processGuid := Under(byProcess, actual.processGuid) + [actual]];
      } else {
        keysToDelete := keysToDelete + [ActualKey(actual.processGuid, actual.index, actual.instanceGuid)];
      }
    }
    assert lrps[..|lrps|] == lrps;
  }

  method NeedsReconciliation(desiredLRP: DesiredLRP, lrps: seq<ActualLRP>) returns (needs: bool)
    ensures needs <==> !AsDesired(desiredLRP.instances, Instances(lrps))
  {
    var actuals: seq<ActualInstance> := [];
    for k := 0 to |lrps|
      invariant actuals == Instances(lrps[..k])
    {
      actuals := actuals + [ActualInstance(lrps[k].index, lrps[k].instanceGuid)];
    }
    assert lrps[..|lrps|] == lrps;
    var result := Reconcile(desiredLRP.instances, actuals);
    needs := !result.Empty();
  }

  ghost predicate IsUnwanted(known: set<string>, byProcess: map<string, seq<ActualLRP>>, r: Request) {
    exists guid, lrp :: UnwantedIn(known, byProcess, guid, lrp, r)
  }

  ghost predicate UnwantedIn(known: set<string>, byProcess: map<string, seq<ActualLRP>>, guid: string, lrp: ActualLRP,
      r: Request) {
    && guid in byProcess && guid !in known && lrp in byProcess[guid]
    && r == StopInstance(guid, lrp.instanceGuid, lrp.index)
  }

  /** The processes are visited in some order, as a map is. */
  method InstancesToStop(known: set<string>, byProcess: map<string, seq<ActualLRP>>) returns (stops: seq<Request>)
    ensures forall r :: r in stops <==> IsUnwanted(known, byProcess, r)
  {
    stops := [];
    var rest := byProcess.Keys;
    while rest != {}
      invariant rest <= byProcess.Keys
      invariant forall r | r in stops :: IsUnwanted(known, byProcess, r)
      invariant forall guid, lrp, r | guid !in rest && UnwantedIn(known, byProcess, guid, lrp, r) :: r in stops
      decreases rest
    {
      var guid :| guid in rest;
      rest := rest - {guid};
      if guid !in known {
        var more := StopAll(guid, byProcess[guid]);
        forall r | r in more
          ensures IsUnwanted(known, byProcess, r)
        {
          var lrp :| lrp in byProcess[guid] && r == StopInstance(guid, lrp.instanceGuid, lrp.index);
          assert UnwantedIn(known, byProcess, guid, lrp, r);
        }
        stops := stops + more;
      }
    }
  }

  method StopAll(guid: string, actuals: seq<ActualLRP>) returns (stops: seq<Request>)
    ensures |stops| == |actuals|
    ensures forall k | 0 <= k < |actuals| :: stops[k] == StopInstance(guid, actuals[k].instanceGuid, actuals[k].index)
    ensures forall r | r in stops :: exists lrp ::
        lrp in actuals && r == StopInstance(guid, lrp.instanceGuid, lrp.index)
  {
    stops := [];
    for k := 0 to |actuals|
      invariant |stops| == k
      invariant forall j | 0 <= j < k :: stops[j] == StopInstance(guid, actuals[j].instanceGuid, actuals[j].index)
    {
      stops := stops + [StopInstance(guid, actuals[k].instanceGuid, actuals[k].index)];
    }
    forall r | r in stops
      ensures exists lrp :: lrp in actuals && r == StopInstance(guid, lrp.instanceGuid, lrp.index)
    {
      var k :| 0 <= k < |stops| && stops[k] == r;
      assert actuals[k] in actuals;
    }
  }

  predicate Known(nodes: seq<DesiredNode>, guid: string) {
    exists k | 0 <= k < |nodes| :: nodes[k].value.Some? && nodes[k].value.value.processGuid == guid
  }

  /** The node is of an application whose live instances are not as desired. */
  predicate OffTarget(node: DesiredNode, lrps: seq<ActualLRP>, alive: set<string>) {
    && node.value.Some?
    && !AsDesired(node.value.value.instances, Instances(AliveOf(lrps, alive, node.value.value.processGuid)))
  }

  function Kicks(nodes: seq<DesiredNode>, lrps: seq<ActualLRP>, alive: set<string>): seq<Kick> {
    if nodes == [] then []
    else
      var last := nodes[|nodes| - 1];
      Kicks(nodes[..|nodes| - 1], lrps, alive) + if OffTarget(last, lrps, alive)
          then [Kick(last.index, last.value.value)] else []
  }

  predicate IsKickOf(kick: Kick, node: DesiredNode, lrps: seq<ActualLRP>, alive: set<string>) {
    OffTarget(node, lrps, alive) && kick == Kick(node.index, node.value.value)
  }

  /** An application is looked at again if and only if its live instances are off target:
      by Reconcile's account, too few, too many or doubled. */
  lemma {:induction false} KicksHold(nodes: seq<DesiredNode>, lrps: seq<ActualLRP>, alive: set<string>, kick: Kick)
    ensures kick in Kicks(nodes, lrps, alive) <==>
            exists k | 0 <= k < |nodes| :: IsKickOf(kick, nodes[k], lrps, alive)
  {
    if nodes != [] {
      var before := nodes[..|nodes| - 1];
      KicksHold(before, lrps, alive, kick);
      if k :| 0 <= k < |before| && IsKickOf(kick, before[k], lrps, alive) {
        assert nodes[k] == before[k];
      }
    }
  }

  function BadKeys(nodes: seq<DesiredNode>): seq<string> {
    if nodes == [] then []
    else
      var last := nodes[|nodes| - 1];
      BadKeys(nodes[..|nodes| - 1]) + if last.value.None? then [last.key] else []
  }

  /** The key of a desired application is removed if and only if its value does not parse. */
  lemma {:induction false} BadKeysHold(nodes: seq<DesiredNode>, key: string)
    ensures key in BadKeys(nodes) <==> exists node :: node in nodes && node.value.None? && node.key == key
  {
    if nodes != [] {
      BadKeysHold(nodes[..|nodes| - 1], key);
      assert nodes == nodes[..|nodes| - 1] + [nodes[|nodes| - 1]];
    }
  }

  function Nodes(desired: Listing<seq<DesiredNode>>): seq<DesiredNode> {
    if desired.Found? then desired.value else []
  }

  /** `actuals` is None if they cannot be listed or one of them does not parse.
      No executors and no desired applications are both possible listings, not failures:
      the first gives up every instance, the second stops every live one. An instance of a
      desired process is never stopped here: its application is only looked at again. A
      desired application that does not parse is removed, and counts as not desired. */
  method ConvergeLRPs(executors: Listing<set<string>>, actuals: Option<seq<ActualLRP>>,
      desired: Listing<seq<DesiredNode>>)
    returns (sweep: Sweep)
    ensures executors.Failed? || actuals.None? ==> sweep == Sweep([], [], [], [])
    ensures !executors.Failed? && actuals.Some? ==>
              var lrps, alive, nodes := actuals.value, if executors.Found? then executors.value else {}, Nodes(desired);
              && sweep.deadActuals == DeadKeys(lrps, alive)
              && (desired.Failed? ==> sweep == Sweep(sweep.deadActuals, [], [], []))
              && (!desired.Failed? ==>
                    && sweep.badDesired == BadKeys(nodes)
                    && sweep.kicks == Kicks(nodes, lrps, alive)
                    && forall r :: r in sweep.stops <==>
                         exists x :: x in lrps && x.executorID in alive && !Known(nodes, x.processGuid) &&
                             r == StopOf(x))
  {
    sweep := Sweep([], [], [], []);
    if executors.Failed? || actuals.None? {
      return;
    }
    var alive := if executors.Found? then executors.value else {};
    var lrps := actuals.value;
    var byProcess, keysToDelete := PruneActualsWithMissingExecutors(lrps, alive);
    sweep := sweep.(deadActuals := keysToDelete);
    if desired.Failed? {
      return;
    }
    var nodes := Nodes(desired);
    var kicks, bad, known := Inspect(nodes, byProcess, lrps, alive);
    var stops := InstancesToStop(known, byProcess);
    sweep := Sweep(keysToDelete, bad, kicks, stops);
    forall r
      ensures r in stops <==>
              exists x :: x in lrps && x.executorID in alive && !Known(nodes, x.processGuid) && r == StopOf(x)
    {
      UnwantedAreUndesired(known, byProcess, lrps, alive, nodes, r);
    }
  }

  method Inspect(nodes: seq<DesiredNode>, byProcess: map<string, seq<ActualLRP>>, ghost lrps: seq<ActualLRP>,
                 ghost alive: set<string>)
    returns (kicks: seq<Kick>, bad: seq<string>, known: set<string>)
    requires Grouped(byProcess, lrps, alive)
    ensures kicks == Kicks(nodes, lrps, alive) && bad == BadKeys(nodes)
    ensures forall guid :: guid in known <==> Known(nodes, guid)
  {
    kicks, bad, known := [], [], {};
    for k := 0 to |nodes|
      invariant kicks == Kicks(nodes[..k], lrps, alive) && bad == BadKeys(nodes[..k])
      invariant forall guid :: guid in known <==> Known(nodes[..k], guid)
    {
      var node := nodes[k];
      assert nodes[..k + 1] == nodes[..k] + [node];
      OneNodeMore(nodes[..k], node);
      if node.value.None? {
        bad := bad + [node.key];
      } else {
        var desiredLRP := node.value.value;
        known := known + {desiredLRP.processGuid};
        var needs := NeedsReconciliation(desiredLRP, Under(byProcess, desiredLRP.processGuid));
        if needs {
          kicks := kicks + [Kick(node.index, desiredLRP)];
        }
      }
    }
    assert nodes[..|nodes|] == nodes;
  }

  lemma OneNodeMore(nodes: seq<DesiredNode>, node: DesiredNode)
    ensures forall guid :: Known(nodes + [node], guid) <==>
                           Known(nodes, guid) || (node.value.Some? && node.value.value.processGuid == guid)
    ensures (nodes + [node])[..|nodes|] == nodes
  {
    var more := nodes + [node];
    forall guid
      ensures Known(more, guid) <==> Known(nodes, guid) || (node.value.Some? && node.value.value.processGuid == guid)
    {
      assert more[|nodes|] == node;
      if Known(nodes, guid) {
        var k :| 0 <= k < |nodes| && nodes[k].value.Some? && nodes[k].value.value.processGuid == guid;
        assert more[k] == nodes[k];
      }
    }
  }

  lemma UnwantedAreUndesired(known: set<string>, byProcess: map<string, seq<ActualLRP>>, lrps: seq<ActualLRP>,
                             alive: set<string>, nodes: seq<DesiredNode>, r: Request)
    requires Grouped(byProcess, lrps, alive) && forall guid :: guid in known <==> Known(nodes, guid)
    ensures IsUnwanted(known, byProcess, r) <==>
            exists x :: x in lrps && x.executorID in alive && !Known(nodes, x.processGuid) && r == StopOf(x)
  {
    if IsUnwanted(known, byProcess, r) {
      var guid, lrp :| UnwantedIn(known, byProcess, guid, lrp, r);
      AliveOfHolds(lrps, alive, guid, lrp);
    }
    if x :| x in lrps && x.executorID in alive && !Known(nodes, x.processGuid) && r == StopOf(x) {
      AliveOfHolds(lrps, alive, x.processGuid, x);
      assert UnwantedIn(known, byProcess, x.processGuid, x, r);
    }
  }
}
