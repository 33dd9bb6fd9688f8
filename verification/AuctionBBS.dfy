/** The auction operations as the code runs them against a store. One class serves start
    and stop auctions. */
module AuctionBBS {
  import opened Collections
  import opened Wrappers
  import opened Stores
  import opened AuctionProtocol

  type AuctionStore = Store<Value>

  datatype CompareAndSwappableAuction = CompareAndSwappableAuction(oldIndex: nat, auction: Auction)

  type Nodes = map<string, StoredNode<Value>>

  /** What becomes of a stored node in one converger pass. */
  function NodeVerdict(value: Value, now: int, kickPending: int, expireClaimed: int): Verdict {
    match value
    case Unparsable => ExpireIt
    case Parsed(auction) => Converged(auction, now, kickPending, expireClaimed)
  }

  /** The pass deletes what is expired or unparsable and keeps every other value; the
      kicked auctions, and only they, get a new index. */
  ghost predicate PassResult(before: Nodes, after: Nodes, index: nat, now: int, kickPending: int, expireClaimed: int) {
    && (forall k :: k in after <==> Stays(k, before, now, kickPending, expireClaimed))
    && (forall k | k in after :: PassNode(k, before, after, index, now, kickPending, expireClaimed))
  }

  ghost predicate Stays(k: string, before: Nodes, now: int, kickPending: int, expireClaimed: int) {
    k in before && !NodeVerdict(before[k].value, now, kickPending, expireClaimed).ExpireIt?
  }

  ghost predicate PassNode(k: string, before: Nodes, after: Nodes, index: nat, now: int, kickPending: int,
      expireClaimed: int)
    requires k in before && k in after
  {
    && after[k].value == before[k].value
    && if NodeVerdict(before[k].value, now, kickPending, expireClaimed).KickIt? && before[k].value.auction.key == k
       then after[k].index > index else after[k] == before[k]
  }

  ghost predicate Scheduled(nodes: Nodes, keys: seq<string>, cas: seq<CompareAndSwappableAuction>, now: int,
                            kickPending: int, expireClaimed: int)
  {
    && |keys| == |cas| && (forall i, j | 0 <= i < j < |keys| :: keys[i] != keys[j])
    && forall i | 0 <= i < |keys| ::
         && keys[i] in nodes && nodes[keys[i]] == StoredNode(Parsed(cas[i].auction), cas[i].oldIndex)
         && Converged(cas[i].auction, now, kickPending, expireClaimed).KickIt?
  }

  ghost predicate Handled(k: string, node: StoredNode<Value>, keysToDelete: seq<string>, kicked: seq<string>, now: int,
                          kickPending: int, expireClaimed: int)
  {
    match NodeVerdict(node.value, now, kickPending, expireClaimed)
    case ExpireIt => k in keysToDelete && k !in kicked
    case KickIt => k in kicked && k !in keysToDelete
    case Leave => k !in kicked && k !in keysToDelete
  }

  class AuctionBBS {
    const store: AuctionStore
    var clock: int

    constructor (store: AuctionStore, clock: int)
      ensures this.store == store && this.clock == clock
    {
      this.store, this.clock := store, clock;
    }

    method RequestAuction(auction: Auction) returns (r: Result<(), StoreError>)
      requires store.Valid()
      modifies store
      ensures store.Valid()
      ensures if auction.key in old(store.nodes) then store.nodes == old(store.nodes) && r == Failure(KeyPresent)
              else store.nodes == old(store.nodes)[auction.key := StoredNode(Parsed(Request(auction, clock)),
                  old(store.index) + 1)]
                   && r == if EffectLost(old(store.fates)) then Failure(KeyPresent) else Success(())
    {
      var lrp := Request(auction, clock);
      while true
        invariant store.Valid()
        invariant if auction.key !in store.nodes
                  then store.nodes == old(store.nodes) && store.index == old(store.index)
                       && (EffectLost(store.fates) <==> EffectLost(old(store.fates)))
                  else if auction.key in old(store.nodes) then store.nodes == old(store.nodes)
                  else store.nodes == old(store.nodes)[auction.key := StoredNode(Parsed(lrp), old(store.index) + 1)]
                       && EffectLost(old(store.fates))
        decreases |store.fates|
      {
        r := store.Create(auction.key, Parsed(lrp));
        if r == Failure(Timeout) {
          continue;
        }
        return;
      }
    }

    /** The claim swaps by value. With nobody else writing it takes effect exactly once if
        the store holds the auction as seen and not already as claimed now; a claim that
        leaves the value as it is may be repeated. */
    method ClaimAuction(seen: Auction) returns (r: Result<(), StoreError>)
      requires store.Valid()
      modifies store
      ensures store.Valid()
      ensures var holds := seen.key in old(store.nodes) && old(store.nodes)[seen.key].value == Parsed(seen);
              if !holds then store.nodes == old(store.nodes) && r.Failure?
              else seen.key in store.nodes && store.nodes[seen.key].value == Parsed(ClaimChange(seen, clock))
                   && store.nodes == old(store.nodes)[seen.key := store.nodes[seen.key]]
                   && (r.Success? <==> !EffectLost(old(store.fates)) || ClaimChange(seen, clock) == seen)
    {
      var originalValue, changedValue := Parsed(seen), Parsed(ClaimChange(seen, clock));
      ghost var holds := seen.key in store.nodes && store.nodes[seen.key].value == originalValue;
      while true
        invariant store.Valid()
        invariant !holds ==> store.nodes == old(store.nodes)
        invariant holds ==> seen.key in store.nodes
        invariant holds ==> store.nodes == old(store.nodes)[seen.key := store.nodes[seen.key]]
        invariant holds ==> if store.nodes[seen.key].value == originalValue
                            then changedValue == originalValue ||
                                (EffectLost(store.fates) <==> EffectLost(old(store.fates)))
                            else store.nodes[seen.key].value == changedValue && EffectLost(old(store.fates))
        decreases |store.fates|
      {
        r := store.CompareAndSwap(seen.key, originalValue, changedValue);
        if r == Failure(Timeout) {
          continue;
        }
        return;
      }
    }

    /** Resolving deletes the key whatever it holds. */
    method ResolveAuction(auction: Auction) returns (r: Result<(), StoreError>)
      requires store.Valid()
      modifies store
      ensures store.Valid() && store.nodes == old(store.nodes) - {auction.key}
      ensures r.Success? <==> auction.key in old(store.nodes) && !EffectLost(old(store.fates))
    {
      while true
        invariant store.Valid()
        invariant if store.nodes == old(store.nodes)
                  then auction.key in store.nodes ==> (EffectLost(store.fates) <==> EffectLost(old(store.fates)))
                  else store.nodes == old(store.nodes) - {auction.key} && EffectLost(old(store.fates))
        decreases |store.fates|
      {
        r := store.Delete(auction.key);
        if r == Failure(Timeout) {
          continue;
        }
        return;
      }
    }

    /** ConvergeLRP...Auctions with nobody else writing and every request answered. What is
        unparsable or a claim that has expired goes; of what stays, the nodes of auctions
        pending for too long, and no others, are written anew with the value that they have. */
    method ConvergeAuctions(kickPending: int, expireClaimed: int)
      requires store.Valid() && store.fates == []
      modifies store
      ensures store.Valid() && store.fates == []
      ensures PassResult(old(store.nodes), store.nodes, old(store.index), clock, kickPending, expireClaimed)
      ensures forall k | k in old(store.nodes) ::
                var value := old(store.nodes)[k].value;
                k !in store.nodes <==>
                value.Unparsable? ||
                (value.auction.state == Claimed && clock - value.auction.updatedAt > expireClaimed)
      ensures forall k | k in store.nodes ::
                && k in old(store.nodes) && store.nodes[k].value == old(store.nodes)[k].value
                && (store.nodes[k].index == old(store.nodes)[k].index || store.nodes[k].index > old(store.index))
                && var auction := store.nodes[k].value.auction;
                && (store.nodes[k].index != old(store.nodes)[k].index <==>
                      auction.state == Pending && auction.key == k && clock - auction.updatedAt > kickPending)
    {
      var listing := store.ListRecursively();
      var keysToDelete, auctionsToCAS; ghost var kicked;
      keysToDelete, auctionsToCAS, kicked := Schedule(listing, kickPending, expireClaimed, store.nodes);
      for i := 0 to |keysToDelete|
        invariant store.Valid() && store.fates == [] && store.index == old(store.index)
        invariant store.nodes == old(store.nodes) - Elements(keysToDelete[..i])
      {
        var answer := store.Delete(keysToDelete[i]);
        assert Elements(keysToDelete[..i + 1]) == Elements(keysToDelete[..i]) + {keysToDelete[i]};
      }
      assert keysToDelete[..|keysToDelete|] == keysToDelete;
      BatchCompareAndSwap(auctionsToCAS, kicked, keysToDelete, old(store.nodes), kickPending, expireClaimed);
      AllDone(old(store.nodes), store.nodes, keysToDelete, kicked, old(store.index), clock, kickPending, expireClaimed);
      PassMeans(old(store.nodes), store.nodes, old(store.index), clock, kickPending, expireClaimed);
    }

    method Schedule(listing: seq<(string, StoredNode<Value>)>, kickPending: int, expireClaimed: int, ghost nodes: Nodes)
      returns (keysToDelete: seq<string>, auctionsToCAS: seq<CompareAndSwappableAuction>, ghost kicked: seq<string>)
      requires forall k, n :: (k, n) in listing <==> k in nodes && nodes[k] == n
      requires forall i, j | 0 <= i < j < |listing| :: listing[i].0 != listing[j].0
      ensures Scheduled(nodes, kicked, auctionsToCAS, clock, kickPending, expireClaimed)
      ensures forall k | k in keysToDelete :: k in nodes
      ensures forall k | k in nodes :: Handled(k, nodes[k], keysToDelete, kicked, clock, kickPending, expireClaimed)
    {
      keysToDelete, auctionsToCAS, kicked := [], [], [];
      for i := 0 to |listing|
        invariant Scheduled(nodes, kicked, auctionsToCAS, clock, kickPending, expireClaimed)
        invariant forall k | k in kicked || k in keysToDelete :: k in nodes && exists j ::
            0 <= j < i && listing[j].0 == k
        invariant forall j | 0 <= j < i ::
                    Handled(listing[j].0, listing[j].1, keysToDelete, kicked, clock, kickPending, expireClaimed)
      {
        var (key, node) := listing[i];
        assert (key, node) in listing;
        assert key !in kicked && key !in keysToDelete;
        match NodeVerdict(node.value, clock, kickPending, expireClaimed)
        case ExpireIt =>
          keysToDelete := keysToDelete + [key];
        case KickIt =>
          auctionsToCAS := auctionsToCAS + [CompareAndSwappableAuction(node.index, node.value.auction)];
          kicked := kicked + [key];
        case Leave =>
      }
      forall k | k in nodes ensures Handled(k, nodes[k], keysToDelete, kicked, clock, kickPending, expireClaimed) {
        assert (k, nodes[k]) in listing;
      }
    }

    lemma IsListedOnce(listed: Nodes, before: Nodes, kicked: seq<string>, cas: seq<CompareAndSwappableAuction>,
                       deleted: seq<string>, i: nat, kickPending: int, expireClaimed: int)
      requires Scheduled(listed, kicked, cas, clock, kickPending, expireClaimed) && i < |cas|
      requires before == listed - Elements(deleted) && forall k | k in kicked :: k !in deleted
      requires forall k, k' | k in listed && k' in listed && listed[k].index == listed[k'].index :: k == k'
      ensures var key := kicked[i];
              && key in before && key !in kicked[..i]
              && before[key] == StoredNode(Parsed(cas[i].auction), cas[i].oldIndex)
              && forall k | k in before && k != key :: before[k].index != before[key].index
    {
      assert kicked[i] in kicked;
    }

    /** One swap of the batch. */
    method KickAuction(c: CompareAndSwappableAuction, ghost before: Nodes, ghost keys: seq<string>, ghost key: string,
                       ghost index: nat)
      requires store.Valid() && store.fates == [] && index <= store.index
      requires AllKicked(before, store.nodes, keys, index) && key in before && key !in keys
      requires before[key] == StoredNode(Parsed(c.auction), c.oldIndex)
      requires forall k | k in before :: before[k].index <= index
      requires forall k | k in before && k != key :: before[k].index != before[key].index
      modifies store
      ensures store.Valid() && store.fates == [] && index <= store.index
      ensures AllKicked(before, store.nodes, keys + [key], index)
    {
      ghost var between, next := store.nodes, store.index + 1;
      var answer := store.CompareAndSwapByIndex(c.oldIndex, c.auction.key, Parsed(c.auction));
      KickOne(before, between, store.nodes, keys, key, c, index, next);
    }

    method BatchCompareAndSwap(cas: seq<CompareAndSwappableAuction>, ghost kicked: seq<string>,
                               ghost deleted: seq<string>, ghost listed: Nodes, ghost kickPending: int,
                               ghost expireClaimed: int)
      requires store.Valid() && store.fates == []
      requires Scheduled(listed, kicked, cas, clock, kickPending, expireClaimed)
      requires store.nodes == listed - Elements(deleted) && forall k | k in kicked :: k !in deleted
      requires forall k, k' | k in listed && k' in listed && listed[k].index == listed[k'].index :: k == k'
      modifies store
      ensures store.Valid() && store.fates == []
      ensures AllKicked(listed - Elements(deleted), store.nodes, kicked, old(store.index))
    {
      ghost var before := store.nodes;
      for i := 0 to |cas|
        invariant store.Valid() && store.fates == [] && store.index >= old(store.index)
        invariant AllKicked(before, store.nodes, kicked[..i], old(store.index))
      {
        IsListedOnce(listed, before, kicked, cas, deleted, i, kickPending, expireClaimed);
        KickAuction(cas[i], before, kicked[..i], kicked[i], old(store.index));
        TakeOneMore(kicked, i);
      }
      assert kicked[..|cas|] == kicked;
    }
  }

  /** The node at k after the kicks for `keys`. */
  ghost predicate KickedNode(before: Nodes, after: Nodes, keys: seq<string>, k: string, index: nat)
    requires k in before
  {
    && k in after
    && if k in keys && before[k].value.Parsed? && before[k].value.auction.key == k
       then after[k].value == before[k].value && after[k].index > index else after[k] == before[k]
  }

  ghost predicate AllKicked(before: Nodes, after: Nodes, keys: seq<string>, index: nat) {
    before.Keys == after.Keys && forall k | k in before :: KickedNode(before, after, keys, k, index)
  }

  /** A swap by index reaches just the node that the index was listed with. */
  lemma KickOne(before: Nodes, between: Nodes, after: Nodes, keys: seq<string>, key: string,
                c: CompareAndSwappableAuction, index: nat, index': nat)
    requires AllKicked(before, between, keys, index) && key in before && key !in keys
    requires before[key] == StoredNode(Parsed(c.auction), c.oldIndex)
    requires forall k | k in before :: before[k].index <= index < index'
    requires forall k | k in before && k != key :: before[k].index != before[key].index
    requires var node := StoredNode(Parsed(c.auction), index');
             after == if c.auction.key in between && between[c.auction.key].index == c.oldIndex
                      then between[c.auction.key := node] else between
    ensures AllKicked(before, after, keys + [key], index)
  {
    assert KickedNode(before, between, keys, key, index);
    assert c.auction.key in before ==> KickedNode(before, between, keys, c.auction.key, index);
    assert c.auction.key != key ==> after == between;
    forall k | k in before ensures KickedNode(before, after, keys + [key], k, index) {
      assert KickedNode(before, between, keys, k, index);
    }
  }

  lemma AllDone(before: Nodes, after: Nodes, keysToDelete: seq<string>, kicked: seq<string>, index: nat, now: int,
                kickPending: int, expireClaimed: int)
    requires forall k | k in before :: Handled(k, before[k], keysToDelete, kicked, now, kickPending, expireClaimed)
    requires AllKicked(before - Elements(keysToDelete), after, kicked, index)
    ensures PassResult(before, after, index, now, kickPending, expireClaimed)
  {
    var kept := before - Elements(keysToDelete);
    forall k ensures k in after <==> Stays(k, before, now, kickPending, expireClaimed) {
      if k in before {
        assert Handled(k, before[k], keysToDelete, kicked, now, kickPending, expireClaimed);
      }
    }
    forall k | k in after ensures PassNode(k, before, after, index, now, kickPending, expireClaimed) {
      assert KickedNode(kept, after, kicked, k, index);
      assert Handled(k, before[k], keysToDelete, kicked, now, kickPending, expireClaimed);
    }
  }

  lemma PassMeans(before: Nodes, after: Nodes, index: nat, now: int, kickPending: int, expireClaimed: int)
    requires PassResult(before, after, index, now, kickPending, expireClaimed)
    requires forall k | k in before :: before[k].index <= index
    ensures forall k | k in before ::
              var value := before[k].value;
              k !in after <==>
              value.Unparsable? || (value.auction.state == Claimed && now - value.auction.updatedAt > expireClaimed)
    ensures forall k | k in after ::
              && k in before && after[k].value == before[k].value && after[k].value.Parsed?
              && (after[k].index == before[k].index || after[k].index > index)
              && var auction := after[k].value.auction;
              && (after[k].index != before[k].index <==>
                    auction.state == Pending && auction.key == k && now - auction.updatedAt > kickPending)
  {
    forall k | k in before
      ensures var value := before[k].value;
              k !in after <==>
              value.Unparsable? || (value.auction.state == Claimed && now - value.auction.updatedAt > expireClaimed)
    {
      assert k in after <==> Stays(k, before, now, kickPending, expireClaimed);
    }
    forall k | k in after
      ensures k in before && PassNode(k, before, after, index, now, kickPending, expireClaimed)
    {
      assert Stays(k, before, now, kickPending, expireClaimed);
    }
  }
}
