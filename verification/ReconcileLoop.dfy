/** Reconciliation as a closed loop: the wanted number changes, every change and every kick
    starts a run of the handler, a run lists the instances and issues its requests, and
    each request takes effect some time later, in any order. */
module ReconcileLoop {
  import opened Collections
  import opened Wrappers
  import opened DeltaForce
  import opened Handler
  import opened ReconcileRequests

  /** `runs` are the wanted numbers of the handler runs that have not listed the instances
      yet; a run keeps the number of the change that started it. `ever` holds the
      instances that there are and those that there have been. */
  datatype Loop = Loop(wanted: int, runs: multiset<int>, world: World, ever: World, pending: set<Request>)

  function Init(world: World, wanted: int): Loop {
    Loop(wanted, multiset{wanted}, world, world, {})
  }

  /** An auctioned start brings up one instance under the requested guid, which no other
      instance has or had. A stop removes the instance that it names, by guid and by
      index. A stop auction keeps one of the instances that are at the index by then. */
  ghost predicate TakesEffect(world: World, ever: World, r: Request, world': World) {
    match r
    case StartAuction(_, i, guid) =>
      exists x: ActualLRP ::
        x.index == i && x.instanceGuid == guid && (forall y | y in ever :: y.instanceGuid != guid) &&
            world' == world + {x}
    case StopInstance(_, _, _) => world' == set x | x in world && StopOf(x) != r
    case StopAuction(_, i) =>
      if Occupied(world, i) then exists kept :: kept in world && kept.index == i && world' == KeepOne(world, kept)
      else world' == world
  }

  function KeepOne(world: World, kept: ActualLRP): World {
    set x | x in world && (x.index != kept.index || x == kept)
  }

  /** A run may see a listing that is out of date, may fail after some of its requests,
      and may overlap other runs, for the same number or another. */
  datatype Step =
    | Want(n: int)
    | Kick
    | Handle(n: int, seen: World)
    | Effect(r: Request)
    | Lose(r: Request)

  ghost predicate Next(s: Loop, step: Step, s': Loop) {
    match step
    case Want(n) => s' == s.(wanted := n, runs := s.runs + multiset{n})
    case Kick => s' == s.(runs := s.runs + multiset{s.wanted})
    case Handle(n, seen) =>
      && n in s.runs && seen <= s.ever
      && s' == s.(runs := s.runs - multiset{n}, pending := s'.pending)
      && s.pending <= s'.pending && forall r | r in s'.pending - s.pending :: Justified(n, seen, r)
    case Effect(r) =>
      && r in s.pending && TakesEffect(s.world, s.ever, r, s'.world)
      && s' == s.(world := s'.world, ever := s.ever + s'.world, pending := s.pending - {r})
    case Lose(r) => r in s.pending && s' == s.(pending := s.pending - {r})
  }

  /** Guids are not used twice, and what is to be stopped is or was an instance. */
  ghost predicate Sound(s: Loop) {
    && s.world <= s.ever && DistinctGuids(s.ever)
    && forall r | r in s.pending && r.StopInstance? :: Names(s.ever, r)
  }

  ghost predicate Names(instances: World, r: Request) {
    exists x :: x in instances && r == StopOf(x)
  }

  lemma StepKeepsSound(s: Loop, step: Step, s': Loop)
    requires Sound(s) && Next(s, step, s')
    ensures Sound(s')
  {
    forall r | r in s'.pending && r.StopInstance?
      ensures Names(s'.ever, r)
    {
      if r in s.pending {
        assert Names(s.ever, r);
      } else {
        assert Justified(step.n, step.seen, r);
      }
    }
  }

  // ------------------------------------------------- when an index can lose its instance

  /** A stop is pending for an instance at the index, or a run with a smaller number has
      yet to list the instances. */
  ghost predicate Threatened(s: Loop, i: int) {
    StopNamed(s, i) || exists n :: n in s.runs && n <= i
  }

  ghost predicate StopNamed(s: Loop, i: int) {
    exists x :: x in s.world && x.index == i && StopOf(x) in s.pending
  }

  lemma UnthreatenedStep(s: Loop, step: Step, s': Loop, i: int)
    requires Sound(s) && Next(s, step, s') && !step.Want? && 0 <= i < s.wanted && !Threatened(s, i)
    ensures s'.wanted == s.wanted && !Threatened(s', i)
    ensures Occupied(s.world, i) ==> Occupied(s'.world, i)
  {
    match step
    case Kick =>
      assert forall n | n in s'.runs :: n in s.runs || n == s.wanted;
    case Handle(n, seen) =>
      assert forall m | m in s'.runs :: m in s.runs;
      forall x | x in s'.world && x.index == i
        ensures StopOf(x) !in s'.pending
      {
        assert n > i && StopOf(x) !in s.pending;
        assert StopOf(x) in s'.pending ==> Justified(n, seen, StopOf(x));
      }
    case Effect(r) =>
      UnthreatenedEffect(s, r, s', i);
    case Lose(r) =>
  }

  lemma UnthreatenedEffect(s: Loop, r: Request, s': Loop, i: int)
    requires Sound(s) && Next(s, Effect(r), s') && !StopNamed(s, i)
    ensures !StopNamed(s', i)
    ensures Occupied(s.world, i) ==> Occupied(s'.world, i)
  {
    forall x | x in s'.world && x.index == i
      ensures StopOf(x) !in s'.pending
    {
      if x !in s.world {
        assert StopOf(x) in s.pending ==> Names(s.ever, StopOf(x));
      }
    }
    if Occupied(s.world, i) {
      var x :| x in s.world && x.index == i;
      assert StopOf(x) !in s.pending;
      match r
      case StartAuction(_, _, _) => assert x in s'.world;
      case StopInstance(_, _, _) => assert x in s'.world;
      case StopAuction(_, j) =>
        if Occupied(s.world, j) {
          var kept :| kept in s.world && kept.index == j && s'.world == KeepOne(s.world, kept);
          assert kept in s'.world && (i != j ==> x in s'.world);
        }
    }
  }

  /** The loop goes on from s without a change of the wanted number; if `upToDate`, every
      run sees the instances as they are. */
  ghost predicate GoesOn(s: Loop, steps: seq<Step>, run: seq<Loop>, upToDate: bool) {
    && |run| == |steps| + 1 && run[0] == s
    && forall k | 0 <= k < |steps| :: GoesOnBy(run[k], steps[k], run[k + 1], upToDate)
  }

  ghost predicate GoesOnBy(s: Loop, step: Step, s': Loop, upToDate: bool) {
    && Next(s, step, s') && !step.Want?
    && (upToDate && step.Handle? ==> step.seen == s.world)
  }

  ghost predicate Loses(s: Loop, steps: seq<Step>, run: seq<Loop>, upToDate: bool, i: int) {
    GoesOn(s, steps, run, upToDate) && !Occupied(run[|steps|].world, i)
  }

  ghost predicate CanLose(s: Loop, i: int, upToDate: bool) {
    exists steps, run :: Loses(s, steps, run, upToDate, i)
  }

  lemma {:induction false} UnthreatenedStays(s: Loop, steps: seq<Step>, run: seq<Loop>, upToDate: bool, i: int, k: nat)
    requires Sound(s) && 0 <= i < s.wanted && !Threatened(s, i) && Occupied(s.world, i)
    requires GoesOn(s, steps, run, upToDate) && k < |run|
    ensures Sound(run[k]) && run[k].wanted == s.wanted && !Threatened(run[k], i) && Occupied(run[k].world, i)
  {
    if k > 0 {
      UnthreatenedStays(s, steps, run, upToDate, i, k - 1);
      assert GoesOnBy(run[k - 1], steps[k - 1], run[k], upToDate);
      StepKeepsSound(run[k - 1], steps[k - 1], run[k]);
      UnthreatenedStep(run[k - 1], steps[k - 1], run[k], i);
    }
  }

  lemma LosesFurtherOn(s: Loop, step: Step, s': Loop, i: int)
    requires GoesOnBy(s, step, s', true) && CanLose(s', i, true)
    ensures CanLose(s, i, true)
  {
    var steps, run :| Loses(s', steps, run, true, i);
    var steps', run' := [step] + steps, [s] + run;
    forall k | 0 <= k < |steps'|
      ensures GoesOnBy(run'[k], steps'[k], run'[k + 1], true)
    {
      if k > 0 {
        assert run'[k] == run[k - 1] && steps'[k] == steps[k - 1] && run'[k + 1] == run[k];
      }
    }
    assert run'[|steps'|] == run[|steps|];
    assert Loses(s, steps', run', true, i);
  }

  /** The named instance is alone at its index. */
  lemma LastOneStopped(s: Loop, i: int, x: ActualLRP)
    requires x in s.world && x.index == i && StopOf(x) in s.pending
    requires forall y | y in s.world && y.index == i :: y == x
    ensures CanLose(s, i, true)
  {
    var r := StopOf(x);
    var world' := set y | y in s.world && StopOf(y) != r;
    var s' := s.(world := world', ever := s.ever + world', pending := s.pending - {r});
    assert GoesOnBy(s, Effect(r), s', true);
    assert Loses(s', [], [s'], true, i);
    LosesFurtherOn(s, Effect(r), s', i);
  }

  /** A stop auction at the index keeps just the instance whose stop is pending. */
  lemma AuctionKeepsTheNamed(s: Loop, i: int, x: ActualLRP, r: Request)
    requires x in s.world && x.index == i && StopOf(x) in s.pending
    requires r in s.pending && r.StopAuction? && r.index == i
    ensures CanLose(s, i, true)
  {
    var world' := KeepOne(s.world, x);
    var s' := s.(world := world', ever := s.ever + world', pending := s.pending - {r});
    assert GoesOnBy(s, Effect(r), s', true);
    LastOneStopped(s', i, x);
    LosesFurtherOn(s, Effect(r), s', i);
  }

  /** A run that sees several instances at the index asks for a stop auction. */
  lemma AuctionIsAskedFor(s: Loop, i: int, x: ActualLRP)
    requires 0 <= i < s.wanted && AllOccupied(s.wanted, s.world) && Several(s.world, i) && s.world <= s.ever
    requires x in s.world && x.index == i && StopOf(x) in s.pending
    ensures CanLose(s, i, true)
  {
    var r := StopAuction("", i);
    var kicked := s.(runs := s.runs + multiset{s.wanted});
    var s' := kicked.(runs := kicked.runs - multiset{s.wanted}, pending := s.pending + {r});
    assert Justified(s.wanted, s.world, r);
    assert GoesOnBy(s, Kick, kicked, true);
    assert GoesOnBy(kicked, Handle(s.wanted, s.world), s', true);
    AuctionKeepsTheNamed(s', i, x, r);
    LosesFurtherOn(kicked, Handle(s.wanted, s.world), s', i);
    LosesFurtherOn(s, Kick, kicked, i);
  }

  lemma NamedLoses(s: Loop, i: int)
    requires 0 <= i < s.wanted && AllOccupied(s.wanted, s.world) && s.world <= s.ever && StopNamed(s, i)
    ensures CanLose(s, i, true)
  {
    var x :| x in s.world && x.index == i && StopOf(x) in s.pending;
    if Several(s.world, i) {
      AuctionIsAskedFor(s, i, x);
    } else {
      LastOneStopped(s, i, x);
    }
  }

  /** A run with a smaller number asks for the stop of every instance at the index. */
  lemma StaleRunLoses(s: Loop, i: int, n: int)
    requires 0 <= i < s.wanted && AllOccupied(s.wanted, s.world) && s.world <= s.ever && n in s.runs && n <= i
    ensures CanLose(s, i, true)
  {
    assert Occupied(s.world, i);
    var x :| x in s.world && x.index == i;
    var s' := s.(runs := s.runs - multiset{n}, pending := s.pending + {StopOf(x)});
    assert Justified(n, s.world, StopOf(x));
    assert GoesOnBy(s, Handle(n, s.world), s', true);
    assert StopNamed(s', i);
    NamedLoses(s', i);
    LosesFurtherOn(s, Handle(n, s.world), s', i);
  }

  function Gaps(s: Loop): set<int> {
    set j | 0 <= j < s.wanted && !Occupied(s.world, j)
  }

  /** Filling one gap, by way of a kick, a run and its start auction, leaves every other
      threat in place. */
  lemma GapIsFilled(s: Loop, i: int, j: int) returns (kicked: Loop, handled: Loop, s': Loop, r: Request)
    requires Sound(s) && Threatened(s, i) && 0 <= i < s.wanted && j in Gaps(s)
    ensures GoesOnBy(s, Kick, kicked, true) && GoesOnBy(kicked, Handle(s.wanted, s.world), handled, true)
    ensures GoesOnBy(handled, Effect(r), s', true)
    ensures s'.wanted == s.wanted && Threatened(s', i) && Gaps(s') <= Gaps(s) - {j}
  {
    var guid := FreshGuid(s.ever);
    r := StartAuction(DesiredLRP("", 0, ""), j, guid);
    kicked := s.(runs := s.runs + multiset{s.wanted});
    handled := kicked.(runs := kicked.runs - multiset{s.wanted}, pending := s.pending + {r});
    assert Justified(s.wanted, s.world, r);
    assert handled.runs == s.runs;
    var x := ActualLRP("", guid, "", j);
    var world' := s.world + {x};
    s' := handled.(world := world', ever := s.ever + world', pending := handled.pending - {r});
    assert x in s'.world && Occupied(s'.world, j);
    assert forall k | Occupied(s.world, k) :: Occupied(s'.world, k) by {
      forall k | Occupied(s.world, k)
        ensures Occupied(s'.world, k)
      {
        var y :| y in s.world && y.index == k;
        assert y in s'.world;
      }
    }
    assert j !in Gaps(s');
    if StopNamed(s, i) {
      var y :| y in s.world && y.index == i && StopOf(y) in s.pending;
      assert y in s'.world && StopOf(y) in s'.pending;
    }
  }

  /** There is always a guid that was never used: a longer one. */
  lemma {:induction false} FreshGuid(ever: World) returns (guid: string)
    ensures forall x | x in ever :: |x.instanceGuid| < |guid|
  {
    if ever == {} {
      guid := "";
    } else {
      var x :| x in ever;
      guid := FreshGuid(ever - {x});
      if |guid| <= |x.instanceGuid| {
        guid := x.instanceGuid + "0";
      }
    }
  }

  lemma {:induction false} ThreatenedLoses(s: Loop, i: int)
    requires Sound(s) && 0 <= i < s.wanted && Threatened(s, i)
    ensures CanLose(s, i, true)
    decreases |Gaps(s)|
  {
    if j: int :| 0 <= j < s.wanted && !Occupied(s.world, j) {
      var kicked, handled, s', r := GapIsFilled(s, i, j);
      StepKeepsSound(s, Kick, kicked);
      StepKeepsSound(kicked, Handle(s.wanted, s.world), handled);
      StepKeepsSound(handled, Effect(r), s');
      SubsetSize(Gaps(s'), Gaps(s) - {j});
      ThreatenedLoses(s', i);
      LosesFurtherOn(handled, Effect(r), s', i);
      LosesFurtherOn(kicked, Handle(s.wanted, s.world), handled, i);
      LosesFurtherOn(s, Kick, kicked, i);
    } else if StopNamed(s, i) {
      NamedLoses(s, i);
    } else {
      var n :| n in s.runs && n <= i;
      StaleRunLoses(s, i, n);
    }
  }

  /** As long as the wanted number stays what it is, a wanted index that has an instance
      can lose its last one, however the runs and their requests go on, if and only if a
      stop is already pending for an instance there, or a run for a smaller number has yet
      to list the instances. That is so even if every run sees the instances as they are. */
  lemma CanLoseIff(s: Loop, i: int, upToDate: bool)
    requires Sound(s) && 0 <= i < s.wanted && Occupied(s.world, i)
    ensures CanLose(s, i, upToDate) <==> Threatened(s, i)
  {
    if Threatened(s, i) {
      ThreatenedLoses(s, i);
      var steps, run :| Loses(s, steps, run, true, i);
      assert forall k | 0 <= k < |steps| :: GoesOnBy(run[k], steps[k], run[k + 1], true);
      assert Loses(s, steps, run, upToDate, i);
    } else if CanLose(s, i, upToDate) {
      var steps, run :| Loses(s, steps, run, upToDate, i);
      UnthreatenedStays(s, steps, run, upToDate, i, |steps|);
      assert false;
    }
  }

  // ---------------------------------------------------------------- whole runs

  ghost predicate IsRun(world: World, wanted: int, steps: seq<Step>, run: seq<Loop>) {
    && |run| == |steps| + 1 && run[0] == Init(world, wanted)
    && forall k | 0 <= k < |steps| :: Next(run[k], steps[k], run[k + 1])
  }

  lemma {:induction false} RunKeepsSound(world: World, wanted: int, steps: seq<Step>, run: seq<Loop>, k: nat)
    requires DistinctGuids(world) && IsRun(world, wanted, steps, run) && k < |run|
    ensures Sound(run[k])
  {
    if k > 0 {
      RunKeepsSound(world, wanted, steps, run, k - 1);
      StepKeepsSound(run[k - 1], steps[k - 1], run[k]);
    }
  }

  /** In every state of every run. */
  lemma LosesOnlyIfThreatened(world: World, wanted: int, steps: seq<Step>, run: seq<Loop>, k: nat, i: int,
      upToDate: bool)
    requires DistinctGuids(world) && IsRun(world, wanted, steps, run) && k < |run|
    requires 0 <= i < run[k].wanted && Occupied(run[k].world, i)
    ensures CanLose(run[k], i, upToDate) <==> Threatened(run[k], i)
  {
    RunKeepsSound(world, wanted, steps, run, k);
    CanLoseIff(run[k], i, upToDate);
  }

  /** No run is for less than is wanted, and no stop for an index that is wanted. */
  ghost predicate NoneThreatened(s: Loop) {
    && (forall n | n in s.runs :: n >= s.wanted)
    && (forall r | r in s.pending && r.StopInstance? :: r.index >= s.wanted)
  }

  ghost predicate NeverGrows(steps: seq<Step>, run: seq<Loop>) {
    |run| == |steps| + 1 && forall k | 0 <= k < |steps| && steps[k].Want? :: steps[k].n <= run[k].wanted
  }

  lemma StepKeepsNoneThreatened(s: Loop, step: Step, s': Loop)
    requires NoneThreatened(s) && Next(s, step, s') && (step.Want? ==> step.n <= s.wanted)
    ensures NoneThreatened(s') && s'.wanted <= s.wanted
  {
    if step.Handle? {
      assert forall m | m in s'.runs :: m in s.runs;
      forall r | r in s'.pending && r.StopInstance? && r !in s.pending
        ensures r.index >= s.wanted
      {
        assert Justified(step.n, step.seen, r);
      }
    } else if step.Want? || step.Kick? {
      assert forall m | m in s'.runs :: m in s.runs || m == s'.wanted;
    }
  }

  /** If the wanted number never grows, an index that is still wanted never loses its last
      instance: however late, lost, repeated or overlapping the requests of any number of
      handler runs are, and whatever listings they were made from. */
  lemma {:induction false} NeverUncovered(world: World, wanted: int, steps: seq<Step>, run: seq<Loop>, i: int, j: nat,
      k: nat)
    requires DistinctGuids(world) && IsRun(world, wanted, steps, run) && NeverGrows(steps, run)
    requires j <= k < |run| && 0 <= i < run[k].wanted
    ensures NoneThreatened(run[k]) && run[k].wanted <= run[j].wanted
    ensures Occupied(run[j].world, i) ==> Occupied(run[k].world, i)
    decreases k
  {
    if k > 0 {
      WantedFalls(run[k - 1], steps[k - 1], run[k]);
      NeverUncovered(world, wanted, steps, run, i, if j < k then j else k - 1, k - 1);
      RunKeepsSound(world, wanted, steps, run, k - 1);
      SafeStep(run[k - 1], steps[k - 1], run[k], i);
    }
  }

  lemma WantedFalls(s: Loop, step: Step, s': Loop)
    requires Next(s, step, s') && (step.Want? ==> step.n <= s.wanted)
    ensures s'.wanted <= s.wanted
  {
  }

  lemma SafeStep(s: Loop, step: Step, s': Loop, i: int)
    requires Sound(s) && NoneThreatened(s) && Next(s, step, s') && (step.Want? ==> step.n <= s.wanted)
    requires 0 <= i < s'.wanted
    ensures NoneThreatened(s') && (Occupied(s.world, i) ==> Occupied(s'.world, i))
  {
    StepKeepsNoneThreatened(s, step, s');
    if !step.Want? {
      UnthreatenedStep(s, step, s', i);
    }
  }

  /** When the number grows the guarantee is lost: a stop requested for one wanted instance
      takes effect when two are wanted again. */
  lemma GrowthUncovers() returns (world: World, steps: seq<Step>, run: seq<Loop>)
    ensures DistinctGuids(world) && IsRun(world, 1, steps, run) && |steps| == 3
    ensures run[2].wanted == 2 == run[3].wanted
    ensures AllOccupied(2, run[2].world) && Threatened(run[2], 1)
    ensures !Occupied(run[3].world, 1)
  {
    var x, y := ActualLRP("p", "a", "e", 0), ActualLRP("p", "b", "e", 1);
    world := {x, y};
    assert x in world && y in world;
    assert Occupied(world, 0) && Occupied(world, 1);
    var r := StopOf(y);
    var s0 := Init(world, 1);
    var s1 := s0.(runs := multiset{}, pending := {r});
    var s2 := s1.(wanted := 2, runs := multiset{2});
    var s3 := s2.(world := {x}, pending := {});
    FirstIsStopped(s0, x, y, s1);
    SecondIsWanted(s1, s2);
    StopComesLate(s2, x, y, s3);
    steps, run := [Handle(1, world), Want(2), Effect(r)], [s0, s1, s2, s3];
    assert StopNamed(s2, 1);
  }

  lemma FirstIsStopped(s: Loop, x: ActualLRP, y: ActualLRP, s': Loop)
    requires s == Init({x, y}, 1) && x.index == 0 && y.index == 1
    requires s' == s.(runs := multiset{}, pending := {StopOf(y)})
    ensures Next(s, Handle(1, {x, y}), s')
  {
    assert x in s.world && y in s.world;
    assert Occupied(s.world, 0);
    assert Justified(1, s.world, StopOf(y));
    assert s.runs - multiset{1} == multiset{};
  }

  lemma SecondIsWanted(s: Loop, s': Loop)
    requires s.runs == multiset{} && s' == s.(wanted := 2, runs := multiset{2})
    ensures Next(s, Want(2), s')
  {
    assert s.runs + multiset{2} == multiset{2};
  }

  lemma StopComesLate(s: Loop, x: ActualLRP, y: ActualLRP, s': Loop)
    requires s.world == {x, y} == s.ever && s.pending == {StopOf(y)} && StopOf(x) != StopOf(y)
    requires s' == s.(world := {x}, pending := {})
    ensures Next(s, Effect(StopOf(y)), s')
  {
    assert s'.world == set z | z in s.world && StopOf(z) != StopOf(y);
    assert s.ever + s'.world == s.ever;
    assert s.pending - {StopOf(y)} == {};
  }
}
