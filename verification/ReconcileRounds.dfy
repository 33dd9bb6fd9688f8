/** Rounds of the loop: what is issued for the instances as they are takes effect, all of
    it, before the next run of the handler. */
module ReconcileRounds {
  import opened Collections
  import opened DeltaForce
  import opened Handler
  import opened ReconcileRequests
  import opened ReconcileLoop

  ghost predicate OnlyEffects(steps: seq<Step>, run: seq<Loop>) {
    |run| == |steps| + 1 && forall k | 0 <= k < |steps| :: steps[k].Effect? && Next(run[k], steps[k], run[k + 1])
  }

  function Issue(n: int, world: World, pending: set<Request>): Loop {
    Loop(n, multiset{}, world, world, pending)
  }

  ghost predicate IsRound(n: int, world: World, world': World, steps: seq<Step>, run: seq<Loop>) {
    && OnlyEffects(steps, run)
    && run[0] == Issue(n, world, run[0].pending) && Issued(n, world, run[0].pending)
    && run[|steps|].world == world' && run[|steps|].pending == {}
  }

  ghost predicate Round(n: int, world: World, world': World) {
    exists steps, run :: IsRound(n, world, world', steps, run)
  }

  /** In the course of a round that starts instances. */
  ghost predicate Filling(n: int, seen: World, s: Loop) {
    && DistinctGuids(s.world) && seen <= s.world <= s.ever
    && (forall x | x in s.world && x !in seen ::
        0 <= x.index < n && !Occupied(seen, x.index) && !StartPending(s.pending, x.index))
    && (forall r | r in s.pending :: r.StartAuction? && 0 <= r.index < n && !Occupied(seen, r.index))
    && (forall r, r' | r in s.pending && r' in s.pending && r.index == r'.index :: r == r')
    && (forall i | 0 <= i < n && !Occupied(seen, i) :: StartPending(s.pending, i) || Occupied(s.world, i))
    && (forall i | !Occupied(seen, i) :: !Several(s.world, i))
  }

  lemma FillingStep(n: int, seen: World, s: Loop, step: Step, s': Loop)
    requires Filling(n, seen, s) && step.Effect? && Next(s, step, s')
    ensures Filling(n, seen, s')
  {
    var r := step.r;
    var x: ActualLRP :| x.index == r.index && x.instanceGuid == r.instanceGuid &&
        (forall y | y in s.ever :: y.instanceGuid != r.instanceGuid) && s'.world == s.world + {x};
    assert !StartPending(s'.pending, r.index);
    assert StartPending(s.pending, r.index);
    forall i | 0 <= i < n && !Occupied(seen, i)
      ensures StartPending(s'.pending, i) || Occupied(s'.world, i)
    {
      if i == r.index {
        assert x in s'.world;
      } else if StartPending(s.pending, i) {
        var q :| q in s.pending && q.StartAuction? && q.index == i;
        assert q in s'.pending;
      } else {
        var y :| y in s.world && y.index == i;
        assert y in s'.world;
      }
    }
    forall i | !Occupied(seen, i)
      ensures !Several(s'.world, i)
    {
      assert forall y | y in s.world && y.index == r.index :: y in seen || !StartPending(s.pending, r.index);
      assert !Several(s.world, i);
    }
  }

  /** In the course of a round that stops instances. */
  ghost predicate Trimming(n: int, seen: World, s: Loop) {
    && s.world <= seen
    && (forall r | r in s.pending :: (r.StopInstance? && r.index >= n) || (r.StopAuction? && 0 <= r.index < n))
    && (forall x | x in s.world && x.index >= n :: StopOf(x) in s.pending)
    && (forall i | 0 <= i < n :: Occupied(s.world, i) && (Several(s.world, i) ==> AuctionPending(s.pending, i)))
    && (forall x | x in seen && Stray(n, x) :: x in s.world)
  }

  lemma TrimmingKeepsOccupied(n: int, s: Loop, r: Request, s': Loop, i: int)
    requires Next(s, Effect(r), s') && 0 <= i < n && Occupied(s.world, i) && (r.StopInstance? ==> r.index >= n)
    ensures Occupied(s'.world, i)
  {
    var x :| x in s.world && x.index == i;
    match r
    case StartAuction(_, _, _) => assert x in s'.world;
    case StopInstance(_, _, _) => assert x in s'.world;
    case StopAuction(_, j) =>
      if Occupied(s.world, j) {
        var kept :| kept in s.world && kept.index == j && s'.world == KeepOne(s.world, kept);
        assert kept in s'.world && (i != j ==> x in s'.world);
      }
  }

  lemma TrimmingStep(n: int, seen: World, s: Loop, step: Step, s': Loop)
    requires Trimming(n, seen, s) && step.Effect? && Next(s, step, s')
    ensures Trimming(n, seen, s')
  {
    var r := step.r;
    assert s'.world <= s.world;
    forall i | 0 <= i < n
      ensures Occupied(s'.world, i)
    {
      TrimmingKeepsOccupied(n, s, r, s', i);
    }
    forall i | 0 <= i < n && Several(s'.world, i)
      ensures AuctionPending(s'.pending, i)
    {
      var y, z :| y in s'.world && z in s'.world && y != z && y.index == i && z.index == i;
      assert Several(s.world, i);
      var q :| q in s.pending && q.StopAuction? && q.index == i;
      if r.StopAuction? && r.index == i {
        assert false;
      }
      assert q in s'.pending;
    }
  }

  lemma {:induction false} FillingRun(n: int, seen: World, steps: seq<Step>, run: seq<Loop>, k: nat)
    requires OnlyEffects(steps, run) && Filling(n, seen, run[0]) && k < |run|
    ensures Filling(n, seen, run[k])
  {
    if k > 0 {
      FillingRun(n, seen, steps, run, k - 1);
      FillingStep(n, seen, run[k - 1], steps[k - 1], run[k]);
    }
  }

  lemma {:induction false} TrimmingRun(n: int, seen: World, steps: seq<Step>, run: seq<Loop>, k: nat)
    requires OnlyEffects(steps, run) && Trimming(n, seen, run[0]) && k < |run|
    ensures Trimming(n, seen, run[k])
  {
    if k > 0 {
      TrimmingRun(n, seen, steps, run, k - 1);
      TrimmingStep(n, seen, run[k - 1], steps[k - 1], run[k]);
    }
  }

  /** A round that finds indices missing fills every one of them, once, and does nothing
      else. */
  lemma FillingRound(n: int, world: World, world': World)
    requires DistinctGuids(world) && !AllOccupied(n, world) && Round(n, world, world')
    ensures AllOccupied(n, world') && DistinctGuids(world') && world <= world'
    ensures forall x | x in world' && x !in world ::
        0 <= x.index < n && !Occupied(world, x.index) && !Several(world', x.index)
  {
    var steps, run :| IsRound(n, world, world', steps, run);
    forall i | !Occupied(world, i)
      ensures !Several(world, i)
    {
    }
    assert Filling(n, world, run[0]);
    FillingRun(n, world, steps, run, |steps|);
    forall i | 0 <= i < n
      ensures Occupied(world', i)
    {
      if Occupied(world, i) {
        var x :| x in world && x.index == i;
        assert x in world';
      }
    }
  }

  /** A round that finds every wanted index covered leaves one instance at each, and at no
      other index, but for the strays, all of which stay. */
  lemma TrimmingRound(n: int, world: World, world': World)
    requires AllOccupied(n, world) && Round(n, world, world')
    ensures world' <= world
    ensures forall i | 0 <= i < n :: Occupied(world', i) && !Several(world', i)
    ensures forall x | x in world' && !(0 <= x.index < n) :: Stray(n, x)
    ensures forall x | x in world && Stray(n, x) :: x in world'
  {
    var steps, run :| IsRound(n, world, world', steps, run);
    TrimmingRun(n, world, steps, run, |steps|);
  }

  /** Two rounds settle any number of distinct instances, wherever they are, if and only
      if none of them is a stray. */
  lemma TwoRoundsSettle(n: int, world: World, between: World, world': World)
    requires DistinctGuids(world) && Round(n, world, between) && Round(n, between, world')
    ensures Settled(n, world') <==> forall x | x in world :: !Stray(n, x)
  {
    if AllOccupied(n, world) {
      TrimmingRound(n, world, between);
    } else {
      FillingRound(n, world, between);
    }
    TrimmingRound(n, between, world');
    if x :| x in world && Stray(n, x) {
      assert x in world';
    }
  }

  /** Once settled, nothing is requested, so nothing changes. */
  lemma SettledStays(n: int, world: World, pending: set<Request>)
    requires Settled(n, world)
    ensures Issued(n, world, pending) <==> pending == {}
  {
    forall r
      ensures !Justified(n, world, r)
    {
    }
  }

  // ---------------------------------------------------------------- every round can happen

  /** The guids of the starts are new, and no two of them are the same. */
  ghost predicate Drainable(s: Loop) {
    && s.world <= s.ever
    && (forall r, y | r in s.pending && r.StartAuction? && y in s.ever :: y.instanceGuid != r.instanceGuid)
    && forall r, r' | r in s.pending && r' in s.pending && r.StartAuction? && r'.StartAuction? && r != r' ::
         r.instanceGuid != r'.instanceGuid
  }

  lemma EffectIsPossible(s: Loop, r: Request) returns (s': Loop)
    requires Drainable(s) && r in s.pending
    ensures Next(s, Effect(r), s') && Drainable(s') && s'.pending == s.pending - {r}
  {
    var world';
    match r {
      case StartAuction(_, i, guid) =>
        var x := ActualLRP("", guid, "", i);
        world' := s.world + {x};
        assert TakesEffect(s.world, s.ever, r, world');
      case StopInstance(_, _, _) =>
        world' := set x | x in s.world && StopOf(x) != r;
      case StopAuction(_, i) =>
        if Occupied(s.world, i) {
          var kept :| kept in s.world && kept.index == i;
          world' := KeepOne(s.world, kept);
        } else {
          world' := s.world;
        }
    }
    s' := s.(world := world', ever := s.ever + world', pending := s.pending - {r});
  }

  /** All that is pending can take effect. */
  lemma {:induction false} Drain(s: Loop) returns (steps: seq<Step>, run: seq<Loop>)
    requires Drainable(s)
    ensures OnlyEffects(steps, run) && run[0] == s && run[|steps|].pending == {}
    decreases |s.pending|
  {
    if s.pending == {} {
      steps, run := [], [s];
    } else {
      var r := Pick(s.pending);
      var s' := EffectIsPossible(s, r);
      var steps', run' := Drain(s');
      steps, run := [Effect(r)] + steps', [s] + run';
      forall k | 0 <= k < |steps|
        ensures steps[k].Effect? && Next(run[k], steps[k], run[k + 1])
      {
        if k > 0 {
          assert run[k] == run'[k - 1] && steps[k] == steps'[k - 1] && run[k + 1] == run'[k];
        }
      }
    }
  }

  function Zeros(n: nat): string {
    seq(n, _ => '0')
  }

  function StartFor(n: int, length: nat, i: nat): Request {
    StartAuction(DesiredLRP("", n, ""), i, Zeros(length + i))
  }

  function StartsFor(n: int, world: World, length: nat): set<Request> {
    set i | 0 <= i < n && !Occupied(world, i) :: StartFor(n, length, i)
  }

  function StopsFor(n: int, world: World): set<Request> {
    (set x | x in world && x.index >= n :: StopOf(x)) + (set i | 0 <= i < n && Several(world, i) :: StopAuction("", i))
  }

  lemma SomethingIsIssued(n: int, world: World) returns (pending: set<Request>)
    ensures Issued(n, world, pending) && Drainable(Issue(n, world, pending))
  {
    if AllOccupied(n, world) {
      pending := StopsFor(n, world);
      forall i | 0 <= i < n && Several(world, i)
        ensures AuctionPending(pending, i)
      {
        assert StopAuction("", i) in pending;
      }
    } else {
      var longer := FreshGuid(world);
      pending := StartsFor(n, world, |longer|);
      StartsAreDrainable(n, world, |longer|);
    }
  }

  lemma StartsAreDrainable(n: int, world: World, length: nat)
    requires !AllOccupied(n, world) && forall x | x in world :: |x.instanceGuid| < length
    ensures Issued(n, world, StartsFor(n, world, length))
    ensures Drainable(Issue(n, world, StartsFor(n, world, length)))
  {
    var pending := StartsFor(n, world, length);
    StartsAreNumbered(n, world, length, pending);
    NumberedAreIssued(n, world, length, pending);
    NumberedAreDrainable(n, world, length, pending);
  }

  /** Each pending start is the one for its index. */
  ghost predicate Numbered(n: int, world: World, length: nat, pending: set<Request>) {
    forall r | r in pending ::
      r.StartAuction? && 0 <= r.index < n && !Occupied(world, r.index) && r == StartFor(n, length, r.index)
  }

  lemma StartsAreNumbered(n: int, world: World, length: nat, pending: set<Request>)
    requires pending == StartsFor(n, world, length)
    ensures Numbered(n, world, length, pending)
    ensures forall i | 0 <= i < n && !Occupied(world, i) :: StartPending(pending, i)
  {
    forall i | 0 <= i < n && !Occupied(world, i)
      ensures StartPending(pending, i)
    {
      assert StartFor(n, length, i) in pending;
    }
  }

  lemma NumberedAreIssued(n: int, world: World, length: nat, pending: set<Request>)
    requires !AllOccupied(n, world) && Numbered(n, world, length, pending)
    requires forall i | 0 <= i < n && !Occupied(world, i) :: StartPending(pending, i)
    ensures Issued(n, world, pending)
  {
  }

  lemma NumberedAreDrainable(n: int, world: World, length: nat, pending: set<Request>)
    requires Numbered(n, world, length, pending) && forall x | x in world :: |x.instanceGuid| < length
    ensures Drainable(Issue(n, world, pending))
  {
    forall r | r in pending
      ensures |r.instanceGuid| == length + r.index
    {
      assert r == StartFor(n, length, r.index);
    }
  }

  /** From every state of the instances there is a round. */
  lemma RoundExists(n: int, world: World) returns (world': World)
    ensures Round(n, world, world')
  {
    var pending := SomethingIsIssued(n, world);
    var steps, run := Drain(Issue(n, world, pending));
    world' := run[|steps|].world;
    assert IsRound(n, world, world', steps, run);
  }

  /** Two rounds are always possible, and wherever they lead there is no settling later
      than that: without strays all is settled, and with one it never is. */
  lemma TwoRoundsLead(n: int, world: World) returns (between: World, world': World)
    requires DistinctGuids(world)
    ensures Round(n, world, between) && Round(n, between, world')
    ensures Settled(n, world') <==> forall x | x in world :: !Stray(n, x)
  {
    between := RoundExists(n, world);
    world' := RoundExists(n, between);
    TwoRoundsSettle(n, world, between, world');
  }
}
