/** What the handler's requests mean for the instances of a process: which instances it
    names, and when it names the right ones. */
module ReconcileRequests {
  import opened Collections
  import opened Wrappers
  import opened DeltaForce
  import opened Handler

  /** The instances of one process. */
  type World = set<ActualLRP>

  predicate Occupied(world: World, index: int) {
    exists x | x in world :: x.index == index
  }

  predicate Several(world: World, index: int) {
    exists x, y | x in world && y in world :: x != y && x.index == index && y.index == index
  }

  predicate AllOccupied(n: int, world: World) {
    forall i | 0 <= i < n :: Occupied(world, i)
  }

  /** One instance at every wanted index and none anywhere else. */
  predicate Settled(n: int, world: World) {
    && (forall i | 0 <= i < n :: Occupied(world, i) && !Several(world, i))
    && forall x | x in world :: 0 <= x.index < n
  }

  predicate DistinctGuids(world: World) {
    forall x, y | x in world && y in world && x.instanceGuid == y.instanceGuid :: x == y
  }

  /** An instance at an index below both the wanted ones and the unwanted ones. */
  predicate Stray(n: int, x: ActualLRP) {
    x.index < 0 && x.index < n
  }

  // ---------------------------------------------------------------- what is requested

  /** The reason for a request, in terms of the instances that were seen. */
  ghost predicate Justified(n: int, seen: World, r: Request) {
    match r
    case StartAuction(_, i, _) => 0 <= i < n && !Occupied(seen, i)
    case StopInstance(_, _, _) => AllOccupied(n, seen) && exists x :: x in seen && x.index >= n && r == StopOf(x)
    case StopAuction(_, i) => AllOccupied(n, seen) && 0 <= i < n && Several(seen, i)
  }

  /** All the requests that there is a reason for, and one start auction for an index. */
  ghost predicate Issued(n: int, seen: World, pending: set<Request>) {
    && (forall r | r in pending :: Justified(n, seen, r))
    && (forall i | 0 <= i < n && !Occupied(seen, i) :: StartPending(pending, i))
    && (forall r, r' | r in pending && r' in pending && r.StartAuction? && r'.StartAuction? && r.index == r'.index ::
        r == r')
    && (AllOccupied(n, seen) ==>
          && (forall x | x in seen && x.index >= n :: StopOf(x) in pending)
          && (forall i | 0 <= i < n && Several(seen, i) :: AuctionPending(pending, i)))
  }

  ghost predicate StartPending(pending: set<Request>, i: int) {
    exists r :: r in pending && r.StartAuction? && r.index == i
  }

  ghost predicate AuctionPending(pending: set<Request>, i: int) {
    exists r :: r in pending && r.StopAuction? && r.index == i
  }

  ghost predicate Lists(lrps: seq<ActualLRP>, world: World) {
    && (forall x :: x in world <==> x in lrps)
    && (forall p, q | 0 <= p < q < |lrps| :: lrps[p] != lrps[q])
  }

  lemma CoveredMeansOccupied(lrps: seq<ActualLRP>, world: World, i: int)
    requires Lists(lrps, world)
    ensures Covered(Instances(lrps), i) <==> Occupied(world, i)
  {
    if Covered(Instances(lrps), i) {
      var p :| 0 <= p < |lrps| && Instances(lrps)[p].index == i;
      assert lrps[p] in world;
    }
    if Occupied(world, i) {
      var x :| x in world && x.index == i;
      var p :| 0 <= p < |lrps| && lrps[p] == x;
      assert Instances(lrps)[p].index == i;
    }
  }

  lemma TwoElements<T>(s: set<T>)
    requires |s| > 1
    ensures exists p, q :: p in s && q in s && p != q
  {
    var p :| p in s;
    assert |s - {p}| > 0;
    var q :| q in s - {p};
  }

  lemma DoubledMeansSeveral(lrps: seq<ActualLRP>, world: World, i: int)
    requires Lists(lrps, world)
    ensures |Positions(Instances(lrps), i)| > 1 <==> Several(world, i)
  {
    var positions := Positions(Instances(lrps), i);
    if |positions| > 1 {
      TwoElements(positions);
      var p, q :| p in positions && q in positions && p != q;
      assert lrps[p] in world && lrps[q] in world && lrps[p] != lrps[q];
    }
    if Several(world, i) {
      var x, y :| x in world && y in world && x != y && x.index == i && y.index == i;
      var p :| 0 <= p < |lrps| && lrps[p] == x;
      var q :| 0 <= q < |lrps| && lrps[q] == y;
      assert p in positions && q in positions - {p};
      assert |positions - {p}| == |positions| - 1;
    }
  }

  /** The result of Reconcile is empty exactly when the instances are as desired, unless
      there are strays, which it overlooks. */
  lemma AsDesiredMeansSettled(n: int, lrps: seq<ActualLRP>, world: World)
    requires Lists(lrps, world)
    ensures AsDesired(n, Instances(lrps)) && (forall x | x in world :: !Stray(n, x)) <==> Settled(n, world)
  {
    forall i | 0 <= i < n
      ensures |Positions(Instances(lrps), i)| == 1 <==> Occupied(world, i) && !Several(world, i)
    {
      CoveredMeansOccupied(lrps, world, i);
      DoubledMeansSeveral(lrps, world, i);
      if Covered(Instances(lrps), i) {
        var p :| 0 <= p < |lrps| && Instances(lrps)[p].index == i;
        assert p in Positions(Instances(lrps), i);
      } else {
        assert Positions(Instances(lrps), i) == {};
      }
    }
    forall p | 0 <= p < |lrps|
      ensures lrps[p] in world && Instances(lrps)[p].index == lrps[p].index
    {
    }
  }

  // ---------------------------------------------------------------- the handler's part

  /** Every instance beyond the wanted indices is stopped by the request made for its
      guid: the last one listed under the guid is that instance, or one stored at the
      same key. */
  ghost predicate EachStopsItself(n: int, lrps: seq<ActualLRP>) {
    forall x, y | x in lrps && x.index >= n && LastListed(lrps, x.instanceGuid, y) :: StopOf(y) == StopOf(x)
  }

  function StopsBeyond(n: int, lrps: seq<ActualLRP>): set<Request> {
    set x | x in lrps && x.index >= n :: StopOf(x)
  }

  ghost predicate AreStops(n: int, lrps: seq<ActualLRP>, stops: seq<Request>) {
    var beyond := Beyond(n, Instances(lrps));
    |stops| == |beyond| && forall k | 0 <= k < |beyond| :: IsStopFor(lrps, beyond[k], stops[k])
  }

  lemma InBeyond(n: int, lrps: seq<ActualLRP>, guid: string)
    ensures guid in Beyond(n, Instances(lrps)) <==> exists x :: x in lrps && x.index >= n && x.instanceGuid == guid
  {
    BeyondHolds(n, Instances(lrps), guid);
    if p :| 0 <= p < |lrps| && Instances(lrps)[p].guid == guid && Instances(lrps)[p].index >= n {
      assert lrps[p] in lrps;
    }
    if x :| x in lrps && x.index >= n && x.instanceGuid == guid {
      var p :| 0 <= p < |lrps| && lrps[p] == x;
      assert Instances(lrps)[p].guid == guid;
    }
  }

  lemma OneLastListed(lrps: seq<ActualLRP>, guid: string, x: ActualLRP, y: ActualLRP)
    requires LastListed(lrps, guid, x) && LastListed(lrps, guid, y)
    ensures x == y
  {
  }

  /** The request made for the guid of an instance beyond. */
  lemma StopMadeFor(n: int, lrps: seq<ActualLRP>, stops: seq<Request>, x: ActualLRP) returns (y: ActualLRP)
    requires AreStops(n, lrps, stops) && x in lrps && x.index >= n
    ensures LastListed(lrps, x.instanceGuid, y) && StopOf(y) in stops
  {
    InBeyond(n, lrps, x.instanceGuid);
    var beyond := Beyond(n, Instances(lrps));
    var k :| 0 <= k < |beyond| && beyond[k] == x.instanceGuid;
    assert IsStopFor(lrps, beyond[k], stops[k]);
    y :| LastListed(lrps, x.instanceGuid, y) && stops[k] == StopOf(y);
  }

  /** The instance beyond that a request was made for. */
  lemma MadeForSome(n: int, lrps: seq<ActualLRP>, stops: seq<Request>, r: Request) returns (x: ActualLRP, y: ActualLRP)
    requires AreStops(n, lrps, stops) && r in stops
    ensures x in lrps && x.index >= n && LastListed(lrps, x.instanceGuid, y) && r == StopOf(y)
  {
    var beyond := Beyond(n, Instances(lrps));
    var k :| 0 <= k < |stops| && stops[k] == r;
    assert IsStopFor(lrps, beyond[k], stops[k]);
    y :| LastListed(lrps, beyond[k], y) && stops[k] == StopOf(y);
    InBeyond(n, lrps, beyond[k]);
    x :| x in lrps && x.index >= n && x.instanceGuid == beyond[k];
  }

  /** The stop requests are exactly those of the instances beyond if and only if each of
      these is the last one listed under its guid, up to the key that it is stored at. */
  lemma StopsAreThoseBeyondIff(n: int, lrps: seq<ActualLRP>, stops: seq<Request>)
    requires AreStops(n, lrps, stops)
    ensures Elements(stops) == StopsBeyond(n, lrps) <==> EachStopsItself(n, lrps)
  {
    if Elements(stops) == StopsBeyond(n, lrps) {
      forall x, y | x in lrps && x.index >= n && LastListed(lrps, x.instanceGuid, y)
        ensures StopOf(y) == StopOf(x)
      {
        assert StopOf(x) in StopsBeyond(n, lrps);
        var x', y' := MadeForSome(n, lrps, stops, StopOf(x));
        OneLastListed(lrps, x.instanceGuid, y, y');
      }
    }
    if EachStopsItself(n, lrps) {
      forall r
        ensures r in stops <==> r in StopsBeyond(n, lrps)
      {
        if r in stops {
          var x, y := MadeForSome(n, lrps, stops, r);
          assert r == StopOf(x);
        }
        if r in StopsBeyond(n, lrps) {
          var x :| x in lrps && x.index >= n && StopOf(x) == r;
          var y := StopMadeFor(n, lrps, stops, x);
        }
      }
    }
  }

  /** Some stop goes to an instance that is not beyond if and only if some instance beyond
      is listed before one that shares its guid and is not. */
  lemma StopGoesAstrayIff(n: int, lrps: seq<ActualLRP>, stops: seq<Request>)
    requires AreStops(n, lrps, stops)
    ensures (exists r :: r in stops && r.StopInstance? && r.index < n) <==>
            exists x, y :: x in lrps && x.index >= n && LastListed(lrps, x.instanceGuid, y) && y.index < n
  {
    if r :| r in stops && r.StopInstance? && r.index < n {
      var x, y := MadeForSome(n, lrps, stops, r);
    }
    if x, y :| x in lrps && x.index >= n && LastListed(lrps, x.instanceGuid, y) && y.index < n {
      var y' := StopMadeFor(n, lrps, stops, x);
      OneLastListed(lrps, x.instanceGuid, y, y');
      assert StopOf(y) in stops;
    }
  }

  lemma DistinctStopThemselves(n: int, lrps: seq<ActualLRP>, world: World)
    requires Lists(lrps, world) && DistinctGuids(world)
    ensures EachStopsItself(n, lrps)
  {
    forall x, y | x in lrps && x.index >= n && LastListed(lrps, x.instanceGuid, y)
      ensures y == x
    {
      assert x in world && y in world;
    }
  }

  lemma StopsComeApart(lrp: DesiredLRP, n: int, lrps: seq<ActualLRP>, requests: seq<Request>)
    returns (stops: seq<Request>, auctions: seq<Request>, doubled: seq<int>)
    requires Stops(lrp, n, lrps, requests)
    ensures requests == stops + auctions && AreStops(n, lrps, stops)
    ensures forall i :: i in doubled <==> Doubled(n, lrps, i)
    ensures |auctions| == |doubled|
    ensures forall k | 0 <= k < |doubled| :: auctions[k] == StopAuction(lrp.processGuid, doubled[k])
  {
    doubled :|
      && Ascending(doubled) && (forall i :: i in doubled <==> Doubled(n, lrps, i))
      && var beyond := Beyond(n, Instances(lrps));
      && |requests| == |beyond| + |doubled|
      && (forall k | 0 <= k < |beyond| :: IsStopFor(lrps, beyond[k], requests[k]))
      && forall k | 0 <= k < |doubled| :: requests[|beyond| + k] == StopAuction(lrp.processGuid, doubled[k]);
    var b := |Beyond(n, Instances(lrps))|;
    stops, auctions := requests[..b], requests[b..];
  }

  /** What ProcessDesiredChange issues when every wanted index is covered is what there is
      reason for if and only if each instance beyond is stopped by its own request. */
  lemma StopsAreIssuedIff(lrp: DesiredLRP, n: int, lrps: seq<ActualLRP>, world: World, requests: seq<Request>)
    requires Lists(lrps, world) && AllCovered(n, Instances(lrps)) && Stops(lrp, n, lrps, requests)
    ensures Issued(n, world, Elements(requests)) <==> EachStopsItself(n, lrps)
  {
    var stops, auctions, doubled := StopsComeApart(lrp, n, lrps, requests);
    forall i | 0 <= i < n
      ensures Occupied(world, i)
    {
      CoveredMeansOccupied(lrps, world, i);
    }
    AuctionsNameDoubled(lrp.processGuid, n, lrps, world, doubled, auctions);
    StopsAreThoseBeyondIff(n, lrps, stops);
    forall r | r in stops
      ensures r.StopInstance?
    {
      var x, y := MadeForSome(n, lrps, stops, r);
    }
    PartsAreIssuedIff(n, lrps, world, stops, auctions);
  }

  lemma SomethingIn<T>(s: seq<T>)
    ensures s != [] ==> exists i :: i in s
  {
    if s != [] {
      assert s[0] in s;
    }
  }

  /** The requests for an application that is there no more: the stops of all its instances
      at indices from zero on, and nothing else, if and only if each of these is the last
      one listed under its guid; so always when the guids are distinct. */
  lemma DeletedIsStoppedIff(lrp: DesiredLRP, lrps: seq<ActualLRP>, requests: seq<Request>)
    requires Stops(lrp, 0, lrps, requests)
    ensures Elements(requests) == StopsBeyond(0, lrps) <==> EachStopsItself(0, lrps)
    ensures (forall x, y | x in lrps && y in lrps && x.instanceGuid == y.instanceGuid :: x == y) ==>
              Elements(requests) == StopsBeyond(0, lrps)
  {
    var stops, auctions, doubled := StopsComeApart(lrp, 0, lrps, requests);
    SomethingIn(doubled);
    assert requests == stops;
    StopsAreThoseBeyondIff(0, lrps, stops);
  }

  lemma PartsAreIssuedIff(n: int, lrps: seq<ActualLRP>, world: World, stops: seq<Request>, auctions: seq<Request>)
    requires Lists(lrps, world) && AllOccupied(n, world)
    requires forall r | r in stops :: r.StopInstance?
    requires forall r | r in auctions :: r.StopAuction? && 0 <= r.index < n && Several(world, r.index)
    requires forall i | 0 <= i < n && Several(world, i) :: AuctionPending(Elements(auctions), i)
    ensures Issued(n, world, Elements(stops + auctions)) <==> Elements(stops) == StopsBeyond(n, lrps)
  {
    var pending := Elements(stops + auctions);
    assert forall r :: r in pending <==> r in stops || r in auctions;
    forall i | 0 <= i < n && Several(world, i)
      ensures AuctionPending(pending, i)
    {
      var r :| r in Elements(auctions) && r.StopAuction? && r.index == i;
      assert r in pending;
    }
    if Issued(n, world, pending) {
      forall r
        ensures r in stops <==> r in StopsBeyond(n, lrps)
      {
        if r in stops {
          assert Justified(n, world, r);
        }
        if r in StopsBeyond(n, lrps) {
          var x :| x in lrps && x.index >= n && StopOf(x) == r;
          assert x in world;
        }
      }
    }
    if Elements(stops) == StopsBeyond(n, lrps) {
      forall r | r in stops
        ensures Justified(n, world, r)
      {
        assert r in StopsBeyond(n, lrps);
      }
      forall x | x in world && x.index >= n
        ensures StopOf(x) in pending
      {
        assert StopOf(x) in StopsBeyond(n, lrps);
      }
    }
  }

  lemma AuctionsNameDoubled(processGuid: string, n: int, lrps: seq<ActualLRP>, world: World, doubled: seq<int>,
                            auctions: seq<Request>)
    requires Lists(lrps, world) && forall i :: i in doubled <==> Doubled(n, lrps, i)
    requires |auctions| == |doubled|
    requires forall k | 0 <= k < |doubled| :: auctions[k] == StopAuction(processGuid, doubled[k])
    ensures forall r | r in auctions :: r.StopAuction? && 0 <= r.index < n && Several(world, r.index)
    ensures forall i | 0 <= i < n && Several(world, i) :: AuctionPending(Elements(auctions), i)
  {
    forall k | 0 <= k < |doubled|
      ensures Several(world, doubled[k]) && 0 <= doubled[k] < n
    {
      assert doubled[k] in doubled;
      DoubledMeansSeveral(lrps, world, doubled[k]);
    }
    forall i | 0 <= i < n && Several(world, i)
      ensures AuctionPending(Elements(auctions), i)
    {
      DoubledMeansSeveral(lrps, world, i);
      assert Doubled(n, lrps, i);
      var k :| 0 <= k < |doubled| && doubled[k] == i;
      assert auctions[k] in auctions;
    }
  }

  lemma MissingMeansUnoccupied(n: int, lrps: seq<ActualLRP>, world: World)
    requires Lists(lrps, world)
    ensures forall i :: Missing(n, lrps, i) <==> 0 <= i < n && !Occupied(world, i)
  {
    forall i
      ensures Missing(n, lrps, i) <==> 0 <= i < n && !Occupied(world, i)
    {
      CoveredMeansOccupied(lrps, world, i);
    }
  }

  lemma StartsNameMissing(lrp: DesiredLRP, n: int, lrps: seq<ActualLRP>, help: Help, requests: seq<Request>)
    returns (missing: seq<int>)
    requires Starts(lrp, n, lrps, help, requests)
    ensures Ascending(missing) && forall i :: i in missing <==> Missing(n, lrps, i)
    ensures |requests| <= |missing|
    ensures forall k | 0 <= k < |requests| :: requests[k].StartAuction? && requests[k].index == missing[k]
    ensures |requests| < |missing| ==> help.Start(lrp, |requests|, missing[|requests|]) == None
  {
    missing :|
      && Ascending(missing) && (forall i :: i in missing <==> Missing(n, lrps, i))
      && |requests| <= |missing|
      && (forall k | 0 <= k < |requests| :: help.Start(lrp, k, missing[k]) == Some(requests[k]))
      && (|requests| < |missing| ==> help.Start(lrp, |requests|, missing[|requests|]) == None);
  }

  /** The draw gives a guid, and the application is preprocessed for it. */
  predicate CanStart(help: Help, lrp: DesiredLRP, draw: nat, index: int) {
    help.newGuid(draw).Some? && help.preProcess(lrp, index, help.newGuid(draw).value).Some?
  }

  /** What ProcessDesiredChange issues when some wanted index is not covered: something
      that is justified at any rate, and all of it when nothing fails. */
  lemma StartsAreIssued(lrp: DesiredLRP, n: int, lrps: seq<ActualLRP>, world: World, help: Help, requests: seq<Request>)
    requires Lists(lrps, world) && !AllCovered(n, Instances(lrps)) && Starts(lrp, n, lrps, help, requests)
    ensures forall r | r in requests :: Justified(n, world, r)
    ensures (forall k, i :: CanStart(help, lrp, k, i)) ==> Issued(n, world, Elements(requests))
  {
    var missing := StartsNameMissing(lrp, n, lrps, help, requests);
    MissingMeansUnoccupied(n, lrps, world);
    forall r | r in requests
      ensures Justified(n, world, r)
    {
      var k :| 0 <= k < |requests| && requests[k] == r;
      assert missing[k] in missing;
    }
    if forall k, i :: CanStart(help, lrp, k, i) {
      assert |requests| < |missing| ==> CanStart(help, lrp, |requests|, missing[|requests|]);
      StartsAreComplete(n, world, missing, requests);
      var i :| 0 <= i < n && !Covered(Instances(lrps), i);
      assert Missing(n, lrps, i);
    }
  }

  lemma StartsAreComplete(n: int, world: World, missing: seq<int>, requests: seq<Request>)
    requires Ascending(missing) && |requests| == |missing|
    requires forall k | 0 <= k < |requests| :: requests[k].StartAuction? && requests[k].index == missing[k]
    requires forall i :: i in missing <==> 0 <= i < n && !Occupied(world, i)
    ensures var pending := Elements(requests);
            && (forall i | 0 <= i < n && !Occupied(world, i) :: StartPending(pending, i))
            && forall r, r' | r in pending && r' in pending && r.StartAuction? && r'.StartAuction? &&
                r.index == r'.index :: r == r'
  {
    var pending := Elements(requests);
    forall i | 0 <= i < n && !Occupied(world, i)
      ensures StartPending(pending, i)
    {
      var k :| 0 <= k < |missing| && missing[k] == i;
      assert requests[k] in pending;
    }
    forall r, r' | r in pending && r' in pending && r.index == r'.index
      ensures r == r'
    {
      var k :| 0 <= k < |requests| && requests[k] == r;
      var k' :| 0 <= k' < |requests| && requests[k'] == r';
      assert missing[k] == missing[k'];
    }
  }

  const SHARED := [ActualLRP("p", "g", "e", 1), ActualLRP("p", "g", "e", 0)]

  /** An input that fails the condition: with two instances under one guid the stop goes to
      the one that is listed last, and that is the only instance at a wanted index. */
  lemma SharedGuidStopsTheWrongOne(lrp: DesiredLRP, requests: seq<Request>)
    requires Stops(lrp, 1, SHARED, requests)
    ensures AllCovered(1, Instances(SHARED)) && StopInstance("p", "g", 0) in requests
  {
    var actuals := Instances(SHARED);
    assert actuals[1].index == 0;
    assert actuals[0].index >= 1 && actuals[0].guid == "g";
    BeyondHolds(1, actuals, "g");
    var k :| 0 <= k < |Beyond(1, actuals)| && Beyond(1, actuals)[k] == "g";
    assert IsStopFor(SHARED, "g", requests[k]);
    var x :| LastListed(SHARED, "g", x) && requests[k] == StopOf(x);
    assert SHARED[1].instanceGuid == "g";
  }
}
