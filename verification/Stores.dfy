/** The store the BBS code writes to: atomic, with a global index, and with requests
    whose answers may be lost. */
module Stores {
  import opened Wrappers

  datatype StoredNode<V> = StoredNode(value: V, index: nat)

  /** What becomes of a request: it is answered, or the answer times out before or after
      the store has carried it out. */
  datatype Fate = Answered | LostBefore | LostAfter

  datatype StoreError = Timeout | KeyMissing | KeyPresent | CompareFailed

  /** An atomic key-value store that gives every write the next index. `fates` are the
      fates of the coming requests; later ones are answered. */
  class Store<V(==)> {
    var nodes: map<string, StoredNode<V>>
    var index: nat
    var fates: seq<Fate>

    constructor ()
      ensures nodes == map[] && index == 0 && fates == [] && Valid()
    {
      nodes, index, fates := map[], 0, [];
    }

    ghost predicate Valid()
      reads this
    {
      && (forall k | k in nodes :: nodes[k].index <= index)
      && (forall k, k' | k in nodes && k' in nodes && nodes[k].index == nodes[k'].index :: k == k')
    }

    function Fate(): Fate
      reads this
    {
      if fates == [] then Answered else fates[0]
    }

    function Rest(): seq<Fate>
      reads this
    {
      if fates == [] then [] else fates[1..]
    }

    method Get(key: string) returns (r: Result<StoredNode<V>, StoreError>)
      modifies this`fates
      ensures fates == old(Rest())
      ensures r == if old(Fate()) != Answered then Failure(Timeout)
                   else if key in nodes then Success(nodes[key]) else Failure(KeyMissing)
    {
      var fate := Fate();
      fates := Rest();
      if fate != Answered {
        return Failure(Timeout);
      }
      r := if key in nodes then Success(nodes[key]) else Failure(KeyMissing);
    }

    /** All nodes, in no particular order. */
    method ListRecursively() returns (listing: seq<(string, StoredNode<V>)>)
      ensures forall k, n :: (k, n) in listing <==> k in nodes && nodes[k] == n
      ensures forall i, j | 0 <= i < j < |listing| :: listing[i].0 != listing[j].0
    {
      listing := [];
      var rest := nodes.Keys;
      while rest != {}
        invariant rest <= nodes.Keys
        invariant forall k, n :: (k, n) in listing <==> k in nodes && k !in rest && nodes[k] == n
        invariant forall i | 0 <= i < |listing| :: listing[i].0 !in rest
        invariant forall i, j | 0 <= i < j < |listing| :: listing[i].0 != listing[j].0
      {
        var k :| k in rest;
        listing := listing + [(k, nodes[k])];
        rest := rest - {k};
      }
    }

    method Create(key: string, value: V) returns (r: Result<(), StoreError>)
      requires Valid()
      modifies this
      ensures Valid() && fates == old(Rest())
      ensures var effect := old(Fate()) != LostBefore && key !in old(nodes);
              && index == old(index) + (if effect then 1 else 0)
              && nodes == if effect then old(nodes)[key := StoredNode(value, old(index) + 1)] else old(nodes)
      ensures r == if old(Fate()) != Answered then Failure(Timeout)
                   else if key in old(nodes) then Failure(KeyPresent) else Success(())
    {
      var fate := Fate();
      fates := Rest();
      r := if fate != Answered then Failure(Timeout) else if key in nodes then Failure(KeyPresent) else Success(());
      if fate != LostBefore && key !in nodes {
        index := index + 1;
        nodes := nodes[key := StoredNode(value, index)];
      }
    }

    predicate Holds(key: string, oldIndex: nat)
      reads this
    {
      key in nodes && nodes[key].index == oldIndex
    }

    method CompareAndSwapByIndex(oldIndex: nat, key: string, value: V) returns (r: Result<(), StoreError>)
      requires Valid()
      modifies this
      ensures Valid() && fates == old(Rest())
      ensures var effect := old(Fate()) != LostBefore && old(Holds(key, oldIndex));
              && index == old(index) + (if effect then 1 else 0)
              && nodes == if effect then old(nodes)[key := StoredNode(value, old(index) + 1)] else old(nodes)
      ensures r == if old(Fate()) != Answered then Failure(Timeout)
                   else if key !in old(nodes) then Failure(KeyMissing)
                   else if old(nodes)[key].index != oldIndex then Failure(CompareFailed) else Success(())
    {
      var fate := Fate();
      fates := Rest();
      r := if fate != Answered then Failure(Timeout)
           else if key !in nodes then Failure(KeyMissing)
           else if nodes[key].index != oldIndex then Failure(CompareFailed) else Success(());
      if fate != LostBefore && key in nodes && nodes[key].index == oldIndex {
        index := index + 1;
        nodes := nodes[key := StoredNode(value, index)];
      }
    }

    /** The swap that compares values: it does not matter which version holds the value. */
    method CompareAndSwap(key: string, oldValue: V, value: V) returns (r: Result<(), StoreError>)
      requires Valid()
      modifies this
      ensures Valid() && fates == old(Rest())
      ensures var effect := old(Fate()) != LostBefore && key in old(nodes) && old(nodes)[key].value == oldValue;
              && index == old(index) + (if effect then 1 else 0)
              && nodes == if effect then old(nodes)[key := StoredNode(value, old(index) + 1)] else old(nodes)
      ensures r == if old(Fate()) != Answered then Failure(Timeout)
                   else if key !in old(nodes) then Failure(KeyMissing)
                   else if old(nodes)[key].value != oldValue then Failure(CompareFailed) else Success(())
    {
      var fate := Fate();
      fates := Rest();
      r := if fate != Answered then Failure(Timeout)
           else if key !in nodes then Failure(KeyMissing)
           else if nodes[key].value != oldValue then Failure(CompareFailed) else Success(());
      if fate != LostBefore && key in nodes && nodes[key].value == oldValue {
        index := index + 1;
        nodes := nodes[key := StoredNode(value, index)];
      }
    }

    method Delete(key: string) returns (r: Result<(), StoreError>)
      requires Valid()
      modifies this`nodes, this`fates
      ensures Valid() && fates == old(Rest())
      ensures nodes == if old(Fate()) != LostBefore then old(nodes) - {key} else old(nodes)
      ensures r == if old(Fate()) != Answered then Failure(Timeout)
                   else if key !in old(nodes) then Failure(KeyMissing) else Success(())
    {
      var fate := Fate();
      fates := Rest();
      r := if fate != Answered then Failure(Timeout) else if key !in nodes then Failure(KeyMissing) else Success(());
      if fate != LostBefore {
        nodes := nodes - {key};
      }
    }
  }

  // ------------------------------------------------------------ fates of the retries

  /** The fates left once a read was answered. */
  function AfterRead(fates: seq<Fate>): seq<Fate> {
    if fates == [] then [] else if fates[0] == Answered then fates[1..] else AfterRead(fates[1..])
  }

  /** Some attempt of a write that changes the store takes effect without an answer. */
  predicate EffectLost(fates: seq<Fate>) {
    fates != [] && (fates[0] == LostAfter || (fates[0] == LostBefore && EffectLost(fates[1..])))
  }
}
