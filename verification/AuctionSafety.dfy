/** What holds over every run of the auction protocol. */
module AuctionSafety {
  import opened AuctionProtocol

  lemma PutCurrent(s: State, key: string, value: Value, cause: Cause, k: string)
    requires k in Put(s, key, value, cause).nodes
    ensures var s' := Put(s, key, value, cause);
            if k == key then Present(s', k) && Current(s'.nodes[k]) == Version(s.index + 1, value, cause)
            else k in s.nodes && s'.nodes[k] == s.nodes[k]
  {
  }

  lemma PutKeepsFlights(s: State, key: string, value: Value, cause: Cause)
    requires Inv(s)
    ensures var s' := Put(s, key, value, cause); forall op | op in s'.flights :: FlightInv(s', s'.flights[op])
  {
    var s' := Put(s, key, value, cause);
    forall op | op in s'.flights ensures FlightInv(s', s'.flights[op]) {
      var f := s.flights[op];
      assert FlightInv(s, f);
      if f.Kick? {
        forall k | k in s'.nodes && HoldsIndex(s', k, f.readIndex) ensures HoldsValue(s', k, f.auction) {
          PutCurrent(s, key, value, cause, k);
          assert k != key && HoldsIndex(s, k, f.readIndex);
        }
      }
    }
  }

  lemma PutKeepsNodes(s: State, key: string, value: Value, cause: Cause)
    requires Inv(s)
    requires Chain((if key in s.nodes then s.nodes[key] else []) + [Version(s.index + 1, value, cause)])
    ensures var s' := Put(s, key, value, cause);
            && (forall k | k in s'.nodes :: NodeInv(s', k))
            && (forall k, k' | k in s'.nodes && k' in s'.nodes && k != k' && Present(s', k) && Present(s', k') ::
                  Current(s'.nodes[k]).index != Current(s'.nodes[k']).index)
  {
    var s' := Put(s, key, value, cause);
    forall k | k in s'.nodes ensures NodeInv(s', k) && (k != key ==> Current(s'.nodes[k]).index <= s.index) {
      PutCurrent(s, key, value, cause, k);
      if k != key {
        assert NodeInv(s, k);
      }
    }
    PutCurrent(s, key, value, cause, key);
    forall k, k' | k in s'.nodes && k' in s'.nodes && k != k' && Present(s', k) && Present(s', k')
      ensures Current(s'.nodes[k]).index != Current(s'.nodes[k']).index
    {
      PutCurrent(s, key, value, cause, k);
      PutCurrent(s, key, value, cause, k');
      assert k != key && k' != key ==> Present(s, k) && Present(s, k');
    }
  }

  lemma PutKeepsInv(s: State, key: string, value: Value, cause: Cause)
    requires Inv(s)
    requires Chain((if key in s.nodes then s.nodes[key] else []) + [Version(s.index + 1, value, cause)])
    ensures Inv(Put(s, key, value, cause))
  {
    PutKeepsFlights(s, key, value, cause);
    PutKeepsNodes(s, key, value, cause);
  }

  lemma CreateKeepsInv(s: State, key: string, value: Value, cause: Cause)
    requires Inv(s) && key !in s.nodes
    requires if value.Parsed? then cause == Requested && value.auction.state == Pending else cause == Foreign
    ensures Inv(Put(s, key, value, cause))
  {
    assert [] + [Version(s.index + 1, value, cause)] == [Version(s.index + 1, value, cause)];
    PutKeepsInv(s, key, value, cause);
  }

  lemma FollowKeepsInv(s: State, key: string, value: Value, cause: Cause)
    requires Inv(s) && Present(s, key)
    requires Follows(Current(s.nodes[key]), Version(s.index + 1, value, cause))
    ensures Inv(Put(s, key, value, cause))
  {
    assert NodeInv(s, key);
    ChainGrows(s.nodes[key], Version(s.index + 1, value, cause));
    PutKeepsInv(s, key, value, cause);
  }

  lemma ChainGrows(versions: seq<Version>, v: Version)
    requires Chain(versions) && Follows(Current(versions), v)
    ensures Chain(versions + [v])
  {
    var longer := versions + [v];
    forall k | 0 < k < |longer| ensures Follows(longer[k - 1], longer[k]) {
      if k < |versions| {
        assert Follows(versions[k - 1], versions[k]);
      }
    }
  }

  /** Changing the flights, or deleting a key, keeps the invariant. */
  lemma ShrinkKeepsInv(s: State, s': State)
    requires Inv(s) && s'.index == s.index
    requires forall key | key in s'.nodes :: key in s.nodes && s'.nodes[key] == s.nodes[key]
    requires forall op | op in s'.flights :: FlightInv(s, s'.flights[op])
    ensures Inv(s')
  {
    forall key | key in s'.nodes ensures NodeInv(s', key) {
      assert NodeInv(s, key);
    }
    forall op | op in s'.flights ensures FlightInv(s', s'.flights[op]) {
      var f := s'.flights[op];
      assert FlightInv(s, f);
      if f.Kick? {
        forall key | key in s'.nodes && HoldsIndex(s', key, f.readIndex) ensures HoldsValue(s', key, f.auction) {
          assert HoldsIndex(s, key, f.readIndex);
        }
      }
    }
    forall k, k' | k in s'.nodes && k' in s'.nodes && k != k' && Present(s', k) && Present(s', k')
      ensures Current(s'.nodes[k]).index != Current(s'.nodes[k']).index
    {
      assert Present(s, k) && Present(s, k');
    }
  }

  lemma KickFits(s: State, key: string)
    requires Inv(s) && Present(s, key) && Current(s.nodes[key]).value.Parsed?
    requires Current(s.nodes[key]).value.auction.state == Pending
    ensures FlightInv(s, Kick(Current(s.nodes[key]).index, Current(s.nodes[key]).value.auction))
  {
    var v := Current(s.nodes[key]);
    assert NodeInv(s, key);
    forall k | k in s.nodes && HoldsIndex(s, k, v.index) ensures HoldsValue(s, k, v.value.auction) {
      assert k == key;
    }
  }

  lemma StepKeepsInv(s: State, step: Step, s': State)
    requires Inv(s) && Next(s, step, s')
    ensures Inv(s')
  {
    match step
    case Tick(now) =>
      ShrinkKeepsInv(s, s');
    case RequestAuction(auction, now) =>
      if auction.key !in s.nodes {
        CreateKeepsInv(s, auction.key, Parsed(Request(auction, now)), Requested);
      }
    case WriteGarbage(key) =>
      CreateKeepsInv(s, key, Unparsable, Foreign);
    case ObserveForClaim(op, key, stamp) =>
      ShrinkKeepsInv(s, s');
    case ResolveAuction(op, key) =>
      ShrinkKeepsInv(s, s');
    case ListForConvergence(op, key, now, kickPending, expireClaimed) =>
      var v := Current(s.nodes[key]);
      if v.value.Parsed? && v.value.auction.state == Pending {
        KickFits(s, key);
      }
      ShrinkKeepsInv(s, s');
    case TryClaim(op, answered) =>
      var f := s.flights[op];
      assert FlightInv(s, f);
      if HoldsValue(s, f.seen.key, f.seen) {
        FollowKeepsInv(s, f.seen.key, Parsed(f.changed), ClaimOf(f.seen));
        ShrinkKeepsInv(Put(s, f.seen.key, Parsed(f.changed), ClaimOf(f.seen)), s');
      } else {
        ShrinkKeepsInv(s, s');
      }
    case TryKick(op) =>
      var f := s.flights[op];
      assert FlightInv(s, f);
      if HoldsIndex(s, f.auction.key, f.readIndex) {
        FollowKeepsInv(s, f.auction.key, Parsed(f.auction), Kicked);
        ShrinkKeepsInv(Put(s, f.auction.key, Parsed(f.auction), Kicked), s');
      } else {
        ShrinkKeepsInv(s, s');
      }
    case TryDelete(op, answered) =>
      ShrinkKeepsInv(s, s');
  }

  // ---------------------------------------------------------------- whole runs

  ghost predicate IsRun(states: seq<State>, steps: seq<Step>) {
    && |states| == |steps| + 1 && states[0] == Init
    && forall i | 0 <= i < |steps| :: Next(states[i], steps[i], states[i + 1])
  }

  lemma {:induction false} RunKeepsInv(states: seq<State>, steps: seq<Step>, i: nat)
    requires IsRun(states, steps) && i < |states|
    ensures Inv(states[i])
  {
    if i > 0 {
      RunKeepsInv(states, steps, i - 1);
      StepKeepsInv(states[i - 1], steps[i - 1], states[i]);
    }
  }

  /** A lifetime is pending with one unchanging value until it is claimed, and claimed ever after. */
  lemma {:induction false} PendingThenClaimed(versions: seq<Version>, a: nat, b: nat)
    requires Chain(versions) && a <= b < |versions| && versions[a].value.Parsed?
    ensures versions[b].value.Parsed?
    ensures versions[a].value.auction.state == Claimed ==> versions[b].value.auction.state == Claimed
    ensures versions[b].value.auction.state == Pending ==> versions[b].value == versions[a].value
    decreases b - a
  {
    if a < b {
      PendingThenClaimed(versions, a, b - 1);
      assert Follows(versions[b - 1], versions[b]);
    }
  }

  ghost predicate PendingClaim(v: Version) {
    v.cause.ClaimOf? && v.cause.seen.state == Pending
  }

  /** Per created auction at most one claim of an auction seen pending takes effect. */
  lemma OnePendingClaim(versions: seq<Version>, a: nat, b: nat)
    requires Chain(versions) && a < |versions| && b < |versions|
    requires PendingClaim(versions[a]) && PendingClaim(versions[b])
    ensures a == b
  {
    var first, second := if a < b then a else b, if a < b then b else a;
    if first < second {
      assert first > 0 && second > 0;
      assert Follows(versions[first - 1], versions[first]) && Follows(versions[second - 1], versions[second]);
      PendingThenClaimed(versions, first, second - 1);
    }
  }

  /** The same over a run: whatever is delayed, retried or repeated, no reachable state
      has a key whose current lifetime saw two such claims. */
  lemma OnePendingClaimInRuns(states: seq<State>, steps: seq<Step>, i: nat, key: string, a: nat, b: nat)
    requires IsRun(states, steps) && i < |states| && key in states[i].nodes
    requires a < |states[i].nodes[key]| && b < |states[i].nodes[key]|
    requires PendingClaim(states[i].nodes[key][a]) && PendingClaim(states[i].nodes[key][b])
    ensures a == b
  {
    RunKeepsInv(states, steps, i);
    assert NodeInv(states[i], key);
    OnePendingClaim(states[i].nodes[key], a, b);
  }

  /** A kick changes no value anywhere, so it never turns a claimed auction back into a
      pending one, and every claim in flight compares as it would have without it. */
  lemma KickIsInvisible(states: seq<State>, steps: seq<Step>, i: nat, key: string, auction: Auction)
    requires IsRun(states, steps) && i < |steps| && steps[i].TryKick?
    ensures HoldsValue(states[i + 1], key, auction) <==> HoldsValue(states[i], key, auction)
  {
    RunKeepsInv(states, steps, i);
    var s := states[i];
    assert Next(s, steps[i], states[i + 1]);
    assert FlightInv(s, s.flights[steps[i].op]);
  }

  ghost predicate PresentThroughout(states: seq<State>, i: nat, j: nat, key: string)
    requires j < |states|
  {
    forall m | i <= m <= j :: key in states[m].nodes
  }

  lemma {:induction false} LifetimeExtends(states: seq<State>, steps: seq<Step>, i: nat, j: nat, key: string)
    requires IsRun(states, steps) && i <= j < |states| && PresentThroughout(states, i, j, key)
    ensures Chain(states[i].nodes[key]) && Chain(states[j].nodes[key]) && states[i].nodes[key] <= states[j].nodes[key]
    decreases j - i
  {
    RunKeepsInv(states, steps, i);
    RunKeepsInv(states, steps, j);
    assert NodeInv(states[i], key) && NodeInv(states[j], key);
    if i < j {
      LifetimeExtends(states, steps, i, j - 1, key);
      assert Next(states[j - 1], steps[j - 1], states[j]);
    }
  }

  /** As long as the key is not deleted, an auction seen pending can be claimed until
      somebody has claimed it: whoever fails to claim it finds it claimed. */
  lemma ClaimableUntilClaimed(states: seq<State>, steps: seq<Step>, i: nat, j: nat, key: string, seen: Auction)
    requires IsRun(states, steps) && i <= j < |states| && PresentThroughout(states, i, j, key)
    requires HoldsValue(states[i], key, seen) && seen.state == Pending
    ensures Present(states[j], key) && Current(states[j].nodes[key]).value.Parsed?
    ensures HoldsValue(states[j], key, seen) || Current(states[j].nodes[key]).value.auction.state == Claimed
  {
    LifetimeExtends(states, steps, i, j, key);
    var a, b := |states[i].nodes[key]| - 1, |states[j].nodes[key]| - 1;
    PendingThenClaimed(states[j].nodes[key], a, b);
    NeverInvalid(states[j].nodes[key], b);
  }

  lemma {:induction false} NeverInvalid(versions: seq<Version>, b: nat)
    requires Chain(versions) && b < |versions| && versions[b].value.Parsed?
    ensures versions[b].value.auction.state != Invalid
  {
    if b > 0 {
      assert Follows(versions[b - 1], versions[b]);
      NeverInvalid(versions, b - 1);
    }
  }

  /** Without the watch filter the guarantee is lost: claiming does not look at the state,
      so an auction seen claimed is claimed a second time. */
  lemma ClaimedIsClaimedAgain(s: State, op: nat, key: string, stamp: int) returns (s1: State, s2: State)
    requires Inv(s) && op !in s.flights && Present(s, key) && Current(s.nodes[key]).value.Parsed?
    requires Current(s.nodes[key]).value.auction.key == key && Current(s.nodes[key]).value.auction.state == Claimed
    ensures Next(s, ObserveForClaim(op, key, stamp), s1) && Next(s1, TryClaim(op, true), s2)
    ensures s2.nodes[key] == s.nodes[key] +
        [Version(s.index + 1, Parsed(Current(s.nodes[key]).value.auction.(updatedAt := stamp)),
                                                     ClaimOf(Current(s.nodes[key]).value.auction))]
  {
    var seen := Current(s.nodes[key]).value.auction;
    s1 := s.(flights := s.flights[op := Claim(seen, ClaimChange(seen, stamp))]);
    s2 := Put(s1, key, Parsed(ClaimChange(seen, stamp)), ClaimOf(seen)).(flights := s1.flights - {op});
  }

  // ------------------------------------------------------------- what was requested

  /** The step that created the lifetime that the key holds now. */
  lemma {:induction false} FirstIsRequested(states: seq<State>, steps: seq<Step>, i: nat, key: string) returns (j: nat)
    requires IsRun(states, steps) && i < |states| && Present(states[i], key) && states[i].nodes[key][0].value.Parsed?
    ensures j < i && PresentThroughout(states, j + 1, i, key) && key !in states[j].nodes
    ensures steps[j].RequestAuction? && steps[j].auction.key == key
    ensures states[i].nodes[key][0].value.auction == Request(steps[j].auction, steps[j].now)
  {
    assert i > 0 && Next(states[i - 1], steps[i - 1], states[i]);
    if key in states[i - 1].nodes {
      RunKeepsInv(states, steps, i - 1);
      assert NodeInv(states[i - 1], key);
      j := FirstIsRequested(states, steps, i - 1, key);
    } else {
      j := i - 1;
    }
  }

  lemma {:induction false} DetailsStay(versions: seq<Version>, b: nat)
    requires Chain(versions) && b < |versions| && versions[0].value.Parsed?
    ensures versions[b].value.Parsed?
    ensures var first, now := versions[0].value.auction, versions[b].value.auction;
            now == first.(state := now.state, updatedAt := now.updatedAt)
  {
    if b > 0 {
      DetailsStay(versions, b - 1);
      assert Follows(versions[b - 1], versions[b]);
    }
  }

  /** Every version of an auction belongs to a request that found its key free, and differs
      from what was requested in nothing but its state and the time of its update; it began
      pending, whatever state it was passed with, at the time of the request. */
  lemma VersionsAreOfRequested(states: seq<State>, steps: seq<Step>, i: nat, key: string, k: nat) returns (j: nat)
    requires IsRun(states, steps) && i < |states| && key in states[i].nodes && k < |states[i].nodes[key]|
    requires states[i].nodes[key][k].value.Parsed?
    ensures j < i && steps[j].RequestAuction? && key !in states[j].nodes && PresentThroughout(states, j + 1, i, key)
    ensures var given, versions := steps[j].auction, states[i].nodes[key];
            var auction := versions[k].value.auction;
            && given.key == key
            && auction == given.(state := auction.state, updatedAt := auction.updatedAt)
            && versions[0].value == Parsed(given.(state := Pending, updatedAt := steps[j].now))
  {
    RunKeepsInv(states, steps, i);
    assert NodeInv(states[i], key);
    var versions := states[i].nodes[key];
    assert |versions| > 1 ==> Follows(versions[0], versions[1]);
    j := FirstIsRequested(states, steps, i, key);
    DetailsStay(versions, k);
  }
}
