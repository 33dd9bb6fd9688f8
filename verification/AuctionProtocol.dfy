/** Start and stop auctions: requesters, claimants, resolvers and convergers over one
    store. Claims compare the stored value, kicks compare the stored index. The two kinds
    of auction run the same protocol; only their keys and payloads differ. */
module AuctionProtocol {

  datatype AuctionState = Invalid | Pending | Claimed

  /** `key` is made from the process guid and index of the auction, `details` stands for
      the rest of what identifies it. */
  datatype Auction = Auction(key: string, details: string, state: AuctionState, updatedAt: int)

  datatype Value = Parsed(auction: Auction) | Unparsable

  datatype Cause =
    | Requested
    | ClaimOf(seen: Auction)
    | Kicked
    | Foreign

  datatype Version = Version(index: nat, value: Value, cause: Cause)

  /** A claim, a converger's kick, a resolver's removal, which is retried until it is
      answered, or a converger's removal of what it has read, which is tried once. Neither
      removal looks at the value again. */
  datatype Flight =
    | Claim(seen: Auction, changed: Auction)
    | Kick(readIndex: nat, auction: Auction)
    | Removal(key: string)
    | Expiry(key: string, readIndex: nat, read: Value)

  datatype State = State(nodes: map<string, seq<Version>>, index: nat, clock: int, flights: map<nat, Flight>)

  const Init := State(map[], 0, 0, map[])

  function Current(versions: seq<Version>): Version
    requires versions != []
  {
    versions[|versions| - 1]
  }

  predicate Present(s: State, key: string) {
    key in s.nodes && s.nodes[key] != []
  }

  /** The auction as RequestLRP...Auction first stores it. */
  function Request(auction: Auction, now: int): Auction {
    auction.(state := Pending, updatedAt := now)
  }

  /** The auction as ClaimLRP...Auction changes it, whatever its state. */
  function ClaimChange(seen: Auction, stamp: int): Auction {
    seen.(state := Claimed, updatedAt := stamp)
  }

  /** What a converger does with an auction listed at time `now`. */
  datatype Verdict = Leave | KickIt | ExpireIt

  function Converged(auction: Auction, now: int, kickPending: int, expireClaimed: int): Verdict {
    match auction.state
    case Pending => if now - auction.updatedAt > kickPending then KickIt else Leave
    case Claimed => if now - auction.updatedAt > expireClaimed then ExpireIt else Leave
    case Invalid => Leave
  }

  datatype Step =
    | Tick(now: int)
    | RequestAuction(auction: Auction, now: int)
    | WriteGarbage(key: string)
    | ObserveForClaim(op: nat, key: string, stamp: int)
    | ResolveAuction(op: nat, key: string)
    | ListForConvergence(op: nat, key: string, now: int, kickPending: int, expireClaimed: int)
    | TryClaim(op: nat, answered: bool)
    | TryKick(op: nat)
    | TryDelete(op: nat, answered: bool)

  function Put(s: State, key: string, value: Value, cause: Cause): State {
    s.(index := s.index + 1,
       nodes := s.nodes[key := (if key in s.nodes then s.nodes[key] else []) + [Version(s.index + 1, value, cause)]])
  }

  predicate HoldsValue(s: State, key: string, auction: Auction) {
    Present(s, key) && Current(s.nodes[key]).value == Parsed(auction)
  }

  predicate HoldsIndex(s: State, key: string, index: nat) {
    Present(s, key) && Current(s.nodes[key]).index == index
  }

  ghost predicate Next(s: State, step: Step, s': State) {
    match step
    case Tick(now) => now >= s.clock && s' == s.(clock := now)
    case RequestAuction(auction, now) =>
      // Create fails, and changes nothing, if the key exists.
      s' == if auction.key in s.nodes then s else Put(s, auction.key, Parsed(Request(auction, now)), Requested)
    case WriteGarbage(key) => key !in s.nodes && s' == Put(s, key, Unparsable, Foreign)
    case ObserveForClaim(op, key, stamp) =>
      && op !in s.flights && Present(s, key) && Current(s.nodes[key]).value.Parsed?
      && var seen := Current(s.nodes[key]).value.auction;
      && s' == s.(flights := s.flights[op := Claim(seen, ClaimChange(seen, stamp))])
    case ResolveAuction(op, key) => op !in s.flights && s' == s.(flights := s.flights[op := Removal(key)])
    case ListForConvergence(op, key, now, kickPending, expireClaimed) =>
      && op !in s.flights && Present(s, key) && now >= s.clock
      && var v := Current(s.nodes[key]);
      && if v.value.Unparsable? then s' == s.(flights := s.flights[op := Expiry(key, v.index, v.value)])
         else (match Converged(v.value.auction, now, kickPending, expireClaimed)
               case KickIt => s' == s.(flights := s.flights[op := Kick(v.index, v.value.auction)])
               case ExpireIt => s' == s.(flights := s.flights[op := Expiry(key, v.index, v.value)])
               case Leave => s' == s)
    case TryClaim(op, answered) =>
      && op in s.flights && s.flights[op].Claim?
      && var f := s.flights[op];
      && s' == (if HoldsValue(s, f.seen.key, f.seen) then Put(s, f.seen.key, Parsed(f.changed), ClaimOf(f.seen)) else s)
               .(flights := if answered then s.flights - {op} else s.flights)
    case TryKick(op) =>
      && op in s.flights && s.flights[op].Kick?
      && var f := s.flights[op];
      && s' == (if HoldsIndex(s, f.auction.key, f.readIndex)
          then Put(s, f.auction.key, Parsed(f.auction), Kicked) else s)
               .(flights := s.flights - {op})
    case TryDelete(op, answered) =>
      && op in s.flights && (s.flights[op].Removal? || s.flights[op].Expiry?)
      && s' == s.(flights := if answered || s.flights[op].Expiry? then s.flights - {op} else s.flights,
                  nodes := s.nodes - {s.flights[op].key})
  }

  // ---------------------------------------------------------------- the invariant

  /** A kick repeats the value of the version before it; a claim replaces exactly the
      auction it had seen. */
  ghost predicate Follows(v: Version, v': Version) {
    && v.value.Parsed? && v'.value.Parsed?
    && match v'.cause
       case Kicked => v'.value == v.value && v.value.auction.state == Pending
       case ClaimOf(seen) =>
         && v.value == Parsed(seen)
         && v'.value.auction == ClaimChange(seen, v'.value.auction.updatedAt)
       case _ => false
  }

  ghost predicate Chain(versions: seq<Version>) {
    && versions != []
    && (if versions[0].value.Parsed? then versions[0].cause == Requested && versions[0].value.auction.state == Pending
        else versions[0].cause == Foreign)
    && forall k | 0 < k < |versions| :: Follows(versions[k - 1], versions[k])
  }

  ghost predicate FlightInv(s: State, f: Flight) {
    match f
    case Claim(seen, changed) => changed == ClaimChange(seen, changed.updatedAt)
    case Kick(readIndex, auction) =>
      && auction.state == Pending && readIndex <= s.index
      && (forall key | key in s.nodes && HoldsIndex(s, key, readIndex) :: HoldsValue(s, key, auction))
    case _ => true
  }

  ghost predicate NodeInv(s: State, key: string)
    requires key in s.nodes
  {
    Chain(s.nodes[key]) && Current(s.nodes[key]).index <= s.index
  }

  ghost predicate Inv(s: State) {
    && (forall key | key in s.nodes :: NodeInv(s, key))
    && (forall op | op in s.flights :: FlightInv(s, s.flights[op]))
    && (forall k, k' | k in s.nodes && k' in s.nodes && k != k' && Present(s, k) && Present(s, k') ::
          Current(s.nodes[k]).index != Current(s.nodes[k']).index)
  }
}
