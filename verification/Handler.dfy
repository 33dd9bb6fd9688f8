/** From a change of a desired application to the requests that answer it. */
module Handler {
  import opened Wrappers
  import opened DeltaForce

  /** What the handler does not look at (stack, actions, routes) is one field. */
  datatype DesiredLRP = DesiredLRP(processGuid: string, instances: int, details: string)

  datatype DesiredLRPChange = DesiredLRPChange(before: Option<DesiredLRP>, after: Option<DesiredLRP>)

  datatype ActualLRP = ActualLRP(processGuid: string, instanceGuid: string, executorID: string, index: int)

  datatype Request =
    | StartAuction(lrp: DesiredLRP, index: int, instanceGuid: string)
    | StopInstance(processGuid: string, instanceGuid: string, index: int)
    | StopAuction(processGuid: string, index: int)

  function Instances(lrps: seq<ActualLRP>): (r: seq<ActualInstance>) {
    seq(|lrps|, p requires 0 <= p < |lrps| => ActualInstance(lrps[p].index, lrps[p].instanceGuid))
  }

  function StopOf(lrp: ActualLRP): Request {
    StopInstance(lrp.processGuid, lrp.instanceGuid, lrp.index)
  }

  predicate Listed(lrps: seq<ActualLRP>, guid: string) {
    exists p | 0 <= p < |lrps| :: lrps[p].instanceGuid == guid
  }

  /** The last instance listed under a guid. */
  predicate LastListed(lrps: seq<ActualLRP>, guid: string, lrp: ActualLRP) {
    exists p | 0 <= p < |lrps| ::
      && lrps[p] == lrp && lrp.instanceGuid == guid
      && forall q | p < q < |lrps| :: lrps[q].instanceGuid != guid
  }

  ghost predicate ByGuid(lrps: seq<ActualLRP>, byGuid: map<string, ActualLRP>) {
    && (forall guid :: guid in byGuid <==> Listed(lrps, guid))
    && forall guid | guid in byGuid :: LastListed(lrps, guid, byGuid[guid])
  }

  lemma OneListedMore(lrps: seq<ActualLRP>, lrp: ActualLRP, byGuid: map<string, ActualLRP>)
    requires ByGuid(lrps, byGuid)
    ensures ByGuid(lrps + [lrp], byGuid[lrp.instanceGuid := lrp])
  {
    var more := lrps + [lrp];
    forall guid
      ensures guid in byGuid[lrp.instanceGuid := lrp] <==> Listed(more, guid)
    {
      assert more[|lrps|] == lrp;
      if Listed(lrps, guid) {
        var p :| 0 <= p < |lrps| && lrps[p].instanceGuid == guid;
        assert more[p].instanceGuid == guid;
      }
    }
    var next := byGuid[lrp.instanceGuid := lrp];
    forall guid | guid in next
      ensures LastListed(more, guid, next[guid])
    {
      if guid == lrp.instanceGuid {
        assert more[|lrps|] == lrp;
      } else {
        var p :| 0 <= p < |lrps| && lrps[p] == byGuid[guid] && forall q | p < q < |lrps| ::
            lrps[q].instanceGuid != guid;
        assert more[p] == byGuid[guid];
      }
    }
  }

  method ActualsForProcessGuid(lrps: seq<ActualLRP>)
    returns (actuals: seq<ActualInstance>, byGuid: map<string, ActualLRP>)
    ensures actuals == Instances(lrps) && ByGuid(lrps, byGuid)
  {
    actuals, byGuid := [], map[];
    for p := 0 to |lrps|
      invariant actuals == Instances(lrps[..p]) && ByGuid(lrps[..p], byGuid)
    {
      assert lrps[..p + 1] == lrps[..p] + [lrps[p]];
      OneListedMore(lrps[..p], lrps[p], byGuid);
      actuals := actuals + [ActualInstance(lrps[p].index, lrps[p].instanceGuid)];
      byGuid := byGuid[lrps[p].instanceGuid := lrps[p]];
    }
    assert lrps[..|lrps|] == lrps;
  }

  /** Where uuid.NewV4 and the preprocessor fail. */
  datatype Help = Help(newGuid: nat -> Option<string>, preProcess: (DesiredLRP, int, string) -> Option<DesiredLRP>) {
    function Start(lrp: DesiredLRP, draw: nat, index: int): Option<Request> {
      match newGuid(draw)
      case None => None
      case Some(guid) =>
        match preProcess(lrp, index, guid)
        case None => None
        case Some(ready) => Some(StartAuction(ready, index, guid))
    }
  }

  predicate Missing(n: int, lrps: seq<ActualLRP>, index: int) {
    0 <= index < n && !Covered(Instances(lrps), index)
  }

  predicate Doubled(n: int, lrps: seq<ActualLRP>, index: int) {
    0 <= index < n && |Positions(Instances(lrps), index)| > 1
  }

  /** Start auctions for missing indices in ascending order, leaving none out, up to the
      first one that cannot be prepared. */
  ghost predicate Starts(lrp: DesiredLRP, n: int, lrps: seq<ActualLRP>, help: Help, requests: seq<Request>) {
    exists missing: seq<int> ::
      && Ascending(missing) && (forall i :: i in missing <==> Missing(n, lrps, i))
      && |requests| <= |missing|
      && (forall k | 0 <= k < |requests| :: help.Start(lrp, k, missing[k]) == Some(requests[k]))
      && (|requests| < |missing| ==> help.Start(lrp, |requests|, missing[|requests|]) == None)
  }

  /** One stop for every instance beyond the wanted indices, in the order listed, then
      one stop auction for every index with several instances, in ascending order. */
  ghost predicate Stops(lrp: DesiredLRP, n: int, lrps: seq<ActualLRP>, requests: seq<Request>) {
    exists doubled: seq<int> ::
      && Ascending(doubled) && (forall i :: i in doubled <==> Doubled(n, lrps, i))
      && var beyond := Beyond(n, Instances(lrps));
      && |requests| == |beyond| + |doubled|
      && (forall k | 0 <= k < |beyond| :: IsStopFor(lrps, beyond[k], requests[k]))
      && forall k | 0 <= k < |doubled| :: requests[|beyond| + k] == StopAuction(lrp.processGuid, doubled[k])
  }

  ghost predicate IsStopFor(lrps: seq<ActualLRP>, guid: string, request: Request) {
    exists lrp :: LastListed(lrps, guid, lrp) && request == StopOf(lrp)
  }

  /** A request that was prepared with the given draw of a guid. */
  predicate CarriesDraw(help: Help, lrp: DesiredLRP, draw: nat, r: Request) {
    && r.StartAuction? && help.newGuid(draw) == Some(r.instanceGuid)
    && help.preProcess(lrp, r.index, r.instanceGuid) == Some(r.lrp)
  }

  /** Each start auction carries the guid that was drawn for it and the application as
      preprocessed for its index and guid; and one that is not made lacks one of the two. */
  lemma StartsCarryDraws(lrp: DesiredLRP, n: int, lrps: seq<ActualLRP>, help: Help, requests: seq<Request>)
    requires Starts(lrp, n, lrps, help, requests)
    ensures forall k | 0 <= k < |requests| ::
              CarriesDraw(help, lrp, k, requests[k]) && Missing(n, lrps, requests[k].index)
    ensures forall k, k' | 0 <= k < k' < |requests| :: requests[k].index < requests[k'].index
    ensures (exists i :: Missing(n, lrps, i) && forall r | r in requests :: r.index != i) ==>
              help.newGuid(|requests|).None? ||
              exists i :: Missing(n, lrps, i) && (forall r | r in requests :: r.index < i) &&
                help.preProcess(lrp, i, help.newGuid(|requests|).value).None?
  {
    var missing: seq<int> :| Ascending(missing) && (forall i :: i in missing <==> Missing(n, lrps, i))
      && |requests| <= |missing|
      && (forall k | 0 <= k < |requests| :: help.Start(lrp, k, missing[k]) == Some(requests[k]))
      && (|requests| < |missing| ==> help.Start(lrp, |requests|, missing[|requests|]) == None);
    forall k | 0 <= k < |requests|
      ensures CarriesDraw(help, lrp, k, requests[k]) && requests[k].index == missing[k]
      ensures Missing(n, lrps, requests[k].index)
    {
      assert missing[k] in missing;
    }
    if i :| Missing(n, lrps, i) && forall r | r in requests :: r.index != i {
      var k :| 0 <= k < |missing| && missing[k] == i;
      assert k >= |requests|;
      assert missing[|requests|] in missing;
    }
  }

  method RequestStarts(lrp: DesiredLRP, indices: seq<int>, help: Help) returns (requests: seq<Request>, done: bool)
    ensures |requests| <= |indices| && (done <==> |requests| == |indices|)
    ensures forall k | 0 <= k < |requests| :: help.Start(lrp, k, indices[k]) == Some(requests[k])
    ensures !done ==> help.Start(lrp, |requests|, indices[|requests|]) == None
  {
    requests := [];
    for k := 0 to |indices|
      invariant |requests| == k
      invariant forall j | 0 <= j < k :: help.Start(lrp, j, indices[j]) == Some(requests[j])
    {
      var start := help.Start(lrp, k, indices[k]);
      if start.None? {
        return requests, false;
      }
      requests := requests + [start.value];
    }
    done := true;
  }

  method RequestStops(ghost lrps: seq<ActualLRP>, guids: seq<string>, byGuid: map<string, ActualLRP>)
    returns (requests: seq<Request>)
    requires ByGuid(lrps, byGuid) && forall guid | guid in guids :: Listed(lrps, guid)
    ensures |requests| == |guids|
    ensures forall k | 0 <= k < |guids| :: IsStopFor(lrps, guids[k], requests[k])
  {
    requests := [];
    for k := 0 to |guids|
      invariant |requests| == k
      invariant forall j | 0 <= j < k :: IsStopFor(lrps, guids[j], requests[j])
    {
      assert guids[k] in guids;
      var actualToStop := byGuid[guids[k]];
      assert LastListed(lrps, guids[k], actualToStop);
      requests := requests + [StopInstance(actualToStop.processGuid, actualToStop.instanceGuid, actualToStop.index)];
    }
  }

  method RequestStopAuctions(processGuid: string, indices: seq<int>) returns (requests: seq<Request>)
    ensures |requests| == |indices|
    ensures forall k | 0 <= k < |indices| :: requests[k] == StopAuction(processGuid, indices[k])
  {
    requests := [];
    for k := 0 to |indices|
      invariant |requests| == k
      invariant forall j | 0 <= j < k :: requests[j] == StopAuction(processGuid, indices[j])
    {
      requests := requests + [StopAuction(processGuid, indices[k])];
    }
  }

  /** What is requested once the number of instances is known. */
  method RequestDifference(desiredLRP: DesiredLRP, desiredInstances: int, lrps: seq<ActualLRP>, help: Help)
    returns (requests: seq<Request>)
    ensures if AllCovered(desiredInstances, Instances(lrps)) then Stops(desiredLRP, desiredInstances, lrps, requests)
            else Starts(desiredLRP, desiredInstances, lrps, help, requests)
    ensures forall k | 0 <= k < |requests| && requests[k].StartAuction? ::
              !AllCovered(desiredInstances, Instances(lrps)) && CarriesDraw(help, desiredLRP, k, requests[k])
  {
    var actuals, byGuid := ActualsForProcessGuid(lrps);
    var delta := Reconcile(desiredInstances, actuals);

    var started;
    requests, started := RequestStarts(desiredLRP, delta.indicesToStart, help);
    if !started || |delta.indicesToStart| > 0 {
      assert delta.indicesToStart[0] in delta.indicesToStart;
      assert Starts(desiredLRP, desiredInstances, lrps, help, requests);
      StartsCarryDraws(desiredLRP, desiredInstances, lrps, help, requests);
      return;
    }
    AllAreCovered(desiredInstances, lrps, delta.indicesToStart);
    GuidsAreListed(desiredInstances, lrps);
    var stops := RequestStops(lrps, delta.guidsToStop, byGuid);
    var auctions := RequestStopAuctions(desiredLRP.processGuid, delta.indicesToStopAllButOne);
    requests := stops + auctions;
    assert Stops(desiredLRP, desiredInstances, lrps, requests);
    StopsStartNothing(desiredLRP, desiredInstances, lrps, requests);
  }

  /** An application that is there no more wants no instances; for any other, what it was
      before does not matter. Requests that the store refuses are only logged, so `requests`
      are those that were made, whether or not they took effect. */
  method ProcessDesiredChange(change: DesiredLRPChange, fetched: Option<seq<ActualLRP>>, help: Help)
    returns (requests: seq<Request>)
    requires change.before.Some? || change.after.Some?
    ensures fetched.None? ==> requests == []
    ensures fetched.Some? && change.after.None? ==> Stops(change.before.value, 0, fetched.value, requests)
    ensures fetched.Some? && change.after.Some? ==>
              var lrp, n := change.after.value, change.after.value.instances;
              if AllCovered(n, Instances(fetched.value)) then Stops(lrp, n, fetched.value, requests)
              else Starts(lrp, n, fetched.value, help, requests)
    ensures forall k | 0 <= k < |requests| && requests[k].StartAuction? ::
              change.after.Some? && CarriesDraw(help, change.after.value, k, requests[k])
  {
    requests := [];
    var desiredLRP, desiredInstances;
    if change.after.None? {
      desiredLRP := change.before.value;
      desiredInstances := 0;
    } else {
      desiredLRP := change.after.value;
      desiredInstances := desiredLRP.instances;
    }
    if fetched.None? {
      return;
    }
    requests := RequestDifference(desiredLRP, desiredInstances, fetched.value, help);
  }

  lemma StopsStartNothing(lrp: DesiredLRP, n: int, lrps: seq<ActualLRP>, requests: seq<Request>)
    requires Stops(lrp, n, lrps, requests)
    ensures forall k | 0 <= k < |requests| :: !requests[k].StartAuction?
  {
    var beyond := Beyond(n, Instances(lrps));
    var doubled: seq<int> :|
      && Ascending(doubled) && (forall i :: i in doubled <==> Doubled(n, lrps, i))
      && |requests| == |beyond| + |doubled|
      && (forall k | 0 <= k < |beyond| :: IsStopFor(lrps, beyond[k], requests[k]))
      && forall k | 0 <= k < |doubled| :: requests[|beyond| + k] == StopAuction(lrp.processGuid, doubled[k]);
    forall k | |beyond| <= k < |requests|
      ensures !requests[k].StartAuction?
    {
      var j := k - |beyond|;
      assert requests[|beyond| + j] == StopAuction(lrp.processGuid, doubled[j]);
    }
  }

  lemma AllAreCovered(n: int, lrps: seq<ActualLRP>, missing: seq<int>)
    requires missing == [] && forall i :: i in missing <==> Missing(n, lrps, i)
    ensures AllCovered(n, Instances(lrps))
  {
    forall i | 0 <= i < n
      ensures Covered(Instances(lrps), i)
    {
      assert i !in missing;
    }
  }

  lemma GuidsAreListed(n: int, lrps: seq<ActualLRP>)
    ensures forall guid | guid in Beyond(n, Instances(lrps)) :: Listed(lrps, guid)
  {
    forall guid | guid in Beyond(n, Instances(lrps))
      ensures Listed(lrps, guid)
    {
      BeyondHolds(n, Instances(lrps), guid);
    }
  }
}
