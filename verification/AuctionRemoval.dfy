/** Late deletions of auctions: a converger deletes a key because of what it has listed
    there, whatever it holds by then. */
module AuctionRemoval {
  import opened AuctionProtocol
  import opened AuctionSafety

  /** The versions at the key include the one that was read. */
  ghost predicate OfReadLifetime(s: State, f: Flight)
    requires f.Expiry? && f.key in s.nodes
  {
    exists k :: 0 <= k < |s.nodes[f.key]| && s.nodes[f.key][k].index == f.readIndex
  }

  /** The value does not parse either, or it is still a claimed auction. */
  ghost predicate SameReason(read: Value, now: Value) {
    match read
    case Unparsable => now.Unparsable?
    case Parsed(_) => now.Parsed? && now.auction.state == Claimed
  }

  ghost predicate ReadAt(s: State, f: Flight)
    requires f.Expiry?
  {
    && Present(s, f.key)
    && Current(s.nodes[f.key]).index == f.readIndex && Current(s.nodes[f.key]).value == f.read
    && (f.read.Parsed? ==> f.read.auction.state == Claimed)
  }

  /** Where a removal in flight was read. A claim is removed only if it was older than the
      limit of the converger that listed it. */
  lemma {:induction false} ExpiryWasRead(states: seq<State>, steps: seq<Step>, j: nat, op: nat) returns (i: nat)
    requires IsRun(states, steps) && j < |states| && op in states[j].flights && states[j].flights[op].Expiry?
    ensures i < j && ReadAt(states[i], states[j].flights[op])
    ensures var f, step := states[j].flights[op], steps[i];
            && step.ListForConvergence? && step.key == f.key
            && (f.read.Parsed? ==>
                  f.read.auction.state == Claimed && step.now - f.read.auction.updatedAt > step.expireClaimed)
  {
    assert j > 0;
    assert Next(states[j - 1], steps[j - 1], states[j]);
    if op in states[j - 1].flights {
      i := ExpiryWasRead(states, steps, j - 1, op);
    } else {
      i := j - 1;
    }
  }

  /** Likewise for a kick: the auction was listed pending for longer than the limit. */
  lemma {:induction false} KickWasRead(states: seq<State>, steps: seq<Step>, j: nat, op: nat) returns (i: nat)
    requires IsRun(states, steps) && j < |states| && op in states[j].flights && states[j].flights[op].Kick?
    ensures i < j
    ensures var f, step := states[j].flights[op], steps[i];
            && step.ListForConvergence? && HoldsIndex(states[i], step.key, f.readIndex)
            && HoldsValue(states[i], step.key, f.auction)
            && f.auction.state == Pending && step.now - f.auction.updatedAt > step.kickPending
  {
    assert j > 0;
    assert Next(states[j - 1], steps[j - 1], states[j]);
    if op in states[j - 1].flights {
      i := KickWasRead(states, steps, j - 1, op);
    } else {
      i := j - 1;
    }
  }

  /** What a converger goes on to do with a node that it lists: delete what does not parse
      or has been claimed for too long, kick what has been pending for too long, and leave
      the rest. */
  lemma ListingDecides(s: State, op: nat, key: string, now: int, kickPending: int, expireClaimed: int, s': State)
    requires Next(s, ListForConvergence(op, key, now, kickPending, expireClaimed), s')
    ensures var value := Current(s.nodes[key]).value;
            var expired := value.Unparsable? ||
                (value.auction.state == Claimed && now - value.auction.updatedAt > expireClaimed);
            var idle := value.Parsed? && value.auction.state == Pending && now - value.auction.updatedAt > kickPending;
            && (op in s'.flights <==> expired || idle)
            && (expired ==> s'.flights[op] == Expiry(key, Current(s.nodes[key]).index, value))
            && (idle ==> s'.flights[op] == Kick(Current(s.nodes[key]).index, value.auction))
            && s'.nodes == s.nodes
  {
  }

  lemma {:induction false} IndexGrows(states: seq<State>, steps: seq<Step>, m: nat, j: nat)
    requires IsRun(states, steps) && m <= j < |states|
    ensures states[m].index <= states[j].index
    decreases j
  {
    if m < j {
      IndexGrows(states, steps, m, j - 1);
      assert Next(states[j - 1], steps[j - 1], states[j]);
    }
  }

  /** What a step writes has the next index. */
  lemma StepWritesNext(s: State, step: Step, s': State, key: string, k: nat)
    requires Next(s, step, s') && key in s'.nodes && k < |s'.nodes[key]|
    ensures s'.nodes[key][k].index == s.index + 1 ||
        (key in s.nodes && k < |s.nodes[key]| && s'.nodes[key][k] == s.nodes[key][k])
  {
  }

  /** A key that was absent holds only versions written since. */
  lemma {:induction false} BornLater(states: seq<State>, steps: seq<Step>, m: nat, j: nat, key: string, k: nat)
    requires IsRun(states, steps) && m <= j < |states| && key !in states[m].nodes
    requires key in states[j].nodes && k < |states[j].nodes[key]|
    ensures states[j].nodes[key][k].index > states[m].index
    decreases j
  {
    assert m < j;
    var s := states[j - 1];
    IndexGrows(states, steps, m, j - 1);
    StepWritesNext(s, steps[j - 1], states[j], key, k);
    if key in s.nodes && k < |s.nodes[key]| && states[j].nodes[key][k] == s.nodes[key][k] {
      BornLater(states, steps, m, j - 1, key, k);
    }
  }

  /** An unparsable value is the only version of its lifetime. */
  lemma GarbageStandsAlone(versions: seq<Version>, k: nat)
    requires Chain(versions) && k < |versions| && versions[k].value.Unparsable?
    ensures |versions| == 1
  {
    assert k > 0 ==> Follows(versions[k - 1], versions[k]);
    assert k + 1 < |versions| ==> Follows(versions[k], versions[k + 1]);
  }

  /** As long as the key was not deleted, what it holds is as good a reason. */
  lemma ReasonLasts(states: seq<State>, steps: seq<Step>, i: nat, j: nat, f: Flight)
    requires IsRun(states, steps) && i <= j < |states| && f.Expiry? && ReadAt(states[i], f)
    requires PresentThroughout(states, i, j, f.key)
    ensures OfReadLifetime(states[j], f) && SameReason(f.read, Current(states[j].nodes[f.key]).value)
  {
    LifetimeExtends(states, steps, i, j, f.key);
    var before, after := states[i].nodes[f.key], states[j].nodes[f.key];
    assert after[|before| - 1] == before[|before| - 1];
    if f.read.Parsed? {
      PendingThenClaimed(after, |before| - 1, |after| - 1);
    } else {
      GarbageStandsAlone(after, |before| - 1);
    }
  }

  /** In every reachable state with a converger's removal in flight for a key that is
      there: the key holds the lifetime that was listed if and only if it was not deleted
      in between, and then it still is a claimed auction or unparsable. Otherwise all that
      will be removed was written after the listing. */
  lemma RemovesWhatWasListedIff(states: seq<State>, steps: seq<Step>, j: nat, op: nat) returns (i: nat)
    requires IsRun(states, steps) && j < |states| && op in states[j].flights && states[j].flights[op].Expiry?
    requires states[j].flights[op].key in states[j].nodes
    ensures var f := states[j].flights[op];
            && i <= j && ReadAt(states[i], f)
            && (PresentThroughout(states, i, j, f.key) <==> OfReadLifetime(states[j], f))
            && Present(states[j], f.key)
            && (OfReadLifetime(states[j], f) ==> SameReason(f.read, Current(states[j].nodes[f.key]).value))
            && (!OfReadLifetime(states[j], f) ==> forall v | v in states[j].nodes[f.key] :: v.index > f.readIndex)
  {
    var f := states[j].flights[op];
    i := ExpiryWasRead(states, steps, j, op);
    RunKeepsInv(states, steps, j);
    assert NodeInv(states[j], f.key);
    if PresentThroughout(states, i, j, f.key) {
      ReasonLasts(states, steps, i, j, f);
    } else {
      var m :| i <= m <= j && f.key !in states[m].nodes;
      RunKeepsInv(states, steps, i);
      assert NodeInv(states[i], f.key);
      IndexGrows(states, steps, i, m);
      forall k | 0 <= k < |states[j].nodes[f.key]|
        ensures states[j].nodes[f.key][k].index > f.readIndex
      {
        BornLater(states, steps, m, j, f.key, k);
      }
    }
  }

  /** From every state with a claimed auction that two convergers have listed as expired:
      one deletes it, it is requested again, and the other deletes the pending auction. */
  lemma SecondConvergerRemovesPending(s: State, a: nat, b: nat, key: string, auction: Auction, now: int)
    returns (s1: State, s2: State, s3: State)
    requires Inv(s) && Present(s, key) && auction.key == key && a != b && a in s.flights && b in s.flights
    requires s.flights[a].Expiry? && s.flights[a].key == key && s.flights[b].Expiry? && s.flights[b].key == key
    ensures Next(s, TryDelete(a, true), s1) && Next(s1, RequestAuction(auction, now), s2)
    ensures Next(s2, TryDelete(b, true), s3)
    ensures HoldsValue(s2, key, Request(auction, now)) && Request(auction, now).state == Pending
    ensures key !in s3.nodes
  {
    s1 := s.(flights := s.flights - {a}, nodes := s.nodes - {key});
    s2 := Put(s1, key, Parsed(Request(auction, now)), Requested);
    s3 := s2.(flights := s2.flights - {b}, nodes := s2.nodes - {key});
  }
}
