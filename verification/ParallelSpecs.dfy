/** How the specs of a suite are divided among parallel nodes. */
module ParallelSpecs {

  /** The first index and the number of specs of a node; nodes are numbered from 1. */
  function ParallelizedIndexRange(length: nat, parallelTotal: nat, parallelNode: int): (int, int)
    requires length == 0 || parallelTotal >= 1
  {
    if length == 0 then (0, 0)
    else if parallelTotal >= length then
      if parallelNode > length then (0, 0) else (parallelNode - 1, 1)
    else
      var minTestsPerNode := length / parallelTotal;
      var numMaxLoadNodes := length % parallelTotal;
      var maxTestsPerNode := minTestsPerNode + if numMaxLoadNodes != 0 then 1 else 0;
      var numPrecedingMaxLoadNodes := if parallelNode > numMaxLoadNodes then numMaxLoadNodes else parallelNode - 1;
      var numPrecedingMinLoadNodes := if parallelNode <= numMaxLoadNodes then 0 else parallelNode - numMaxLoadNodes - 1;
      (numPrecedingMaxLoadNodes * maxTestsPerNode + numPrecedingMinLoadNodes * minTestsPerNode,
       if parallelNode > numMaxLoadNodes then minTestsPerNode else maxTestsPerNode)
  }

  function Start(length: nat, total: nat, node: int): int
    requires length == 0 || total >= 1
  {
    ParallelizedIndexRange(length, total, node).0
  }

  function Size(length: nat, total: nat, node: int): int
    requires length == 0 || total >= 1
  {
    ParallelizedIndexRange(length, total, node).1
  }

  /** How many specs the first k nodes have between them: an even share each, and one
      more for as many of them as there are specs left over. */
  function Before(length: nat, total: nat, k: nat): nat
    requires total >= 1
  {
    k * (length / total) + if k < length % total then k else length % total
  }

  lemma AllBefore(length: nat, total: nat)
    requires total >= 1
    ensures Before(length, total, 0) == 0 && Before(length, total, total) == length
  {
    assert length == total * (length / total) + length % total;
  }

  lemma ShareWhenFew(length: nat, total: nat, k: nat)
    requires total >= length && total >= 1 && k <= total
    ensures Before(length, total, k) == if k < length then k else length
  {
    if total == length {
      assert length / total == 1 && length % total == 0;
    } else {
      assert length / total == 0 && length % total == length;
    }
  }

  lemma OneShareMore(q: nat, k: nat)
    ensures (k + 1) * q == k * q + q
  {
  }

  lemma ShareOfLater(q: nat, r: nat, node: nat)
    requires node > r
    ensures r * (q + 1) + (node - r - 1) * q == (node - 1) * q + r
  {
    assert r * (q + 1) == r * q + r;
    assert r * q + (node - r - 1) * q == (r + (node - r - 1)) * q;
  }

  /** The ranges follow each other without gap or overlap. (An empty range starts at 0
      when there are more nodes than specs.) */
  lemma RangesAreAdjacent(length: nat, total: nat, node: nat)
    requires 1 <= node <= total
    ensures Size(length, total, node) == Before(length, total, node) - Before(length, total, node - 1)
    ensures Size(length, total, node) != 0 ==> Start(length, total, node) == Before(length, total, node - 1)
  {
    if length == 0 || total >= length {
      ShareWhenFew(length, total, node);
      ShareWhenFew(length, total, node - 1);
    } else {
      var q, r := length / total, length % total;
      OneShareMore(q, node - 1);
      if node > r {
        ShareOfLater(q, r, node);
      } else {
        assert (node - 1) * (q + 1) == (node - 1) * q + (node - 1);
      }
    }
  }

  /** No node has more than one spec more than another. */
  lemma RangesAreBalanced(length: nat, total: nat, node: nat, other: nat)
    requires 1 <= node <= total && 1 <= other <= total
    ensures Size(length, total, node) <= Size(length, total, other) + 1
    ensures node <= other ==> Size(length, total, node) >= Size(length, total, other)
  {
  }

  predicate Runs(length: nat, total: nat, node: nat, i: int)
    requires total >= 1
  {
    Start(length, total, node) <= i < Start(length, total, node) + Size(length, total, node)
  }

  lemma {:induction false} BeforeGrows(length: nat, total: nat, k: nat, k': nat)
    requires total >= 1 && k <= k' <= total
    ensures Before(length, total, k) <= Before(length, total, k')
  {
    if k < k' {
      BeforeGrows(length, total, k, k' - 1);
      OneShareMore(length / total, k' - 1);
    }
  }

  lemma {:induction false} SomeNodeRuns(length: nat, total: nat, k: nat, i: nat) returns (node: nat)
    requires total >= 1 && k <= total && i < Before(length, total, k)
    ensures 1 <= node <= k && Runs(length, total, node, i)
  {
    if k == 0 {
      AllBefore(length, total);
      assert false;
    } else if i < Before(length, total, k - 1) {
      node := SomeNodeRuns(length, total, k - 1, i);
    } else {
      RangesAreAdjacent(length, total, k);
      node := k;
    }
  }

  lemma RunsMeansBetween(length: nat, total: nat, node: nat, i: int)
    requires 1 <= node <= total && Runs(length, total, node, i)
    ensures Before(length, total, node - 1) <= i < Before(length, total, node) <= length
  {
    RangesAreAdjacent(length, total, node);
    AllBefore(length, total);
    BeforeGrows(length, total, node, total);
  }

  lemma OneNodeOnly(length: nat, total: nat, node: nat, other: nat, i: int)
    requires 1 <= node <= total && 1 <= other <= total
    requires Runs(length, total, node, i) && Runs(length, total, other, i)
    ensures node == other
  {
    RunsMeansBetween(length, total, node, i);
    RunsMeansBetween(length, total, other, i);
    if node < other {
      BeforeGrows(length, total, node, other - 1);
    } else if other < node {
      BeforeGrows(length, total, other, node - 1);
    }
  }

  /** Every spec is run by exactly one node, and nodes run nothing else. */
  lemma ExactlyOneNodeRuns(length: nat, total: nat, i: int)
    requires total >= 1
    ensures 0 <= i < length <==> exists node :: 1 <= node <= total && Runs(length, total, node, i)
    ensures forall node, other | 1 <= node <= total && 1 <= other <= total
              && Runs(length, total, node, i) && Runs(length, total, other, i) :: node == other
  {
    if 0 <= i < length {
      AllBefore(length, total);
      var node := SomeNodeRuns(length, total, total, i);
    }
    if node :| 1 <= node <= total && Runs(length, total, node, i) {
      RunsMeansBetween(length, total, node, i);
    }
    forall node, other | 1 <= node <= total && 1 <= other <= total
        && Runs(length, total, node, i) && Runs(length, total, other, i)
      ensures node == other
    {
      OneNodeOnly(length, total, node, other, i);
    }
  }

  /** The nodes that can be asked for their specs: those from 1 to total, any later one if
      there are no more specs than nodes, and any node at all if there are no specs. */
  predicate Served(length: nat, total: nat, node: int) {
    length == 0 || (1 <= node && 1 <= total && (node <= total || length <= total))
  }

  predicate InRange(length: nat, total: nat, node: int)
    requires length == 0 || total >= 1
  {
    var start, count := Start(length, total, node), Size(length, total, node);
    count == 0 || 0 <= start <= start + count <= length
  }

  function Trimmed<T>(specs: seq<T>, total: nat, node: int): (r: seq<T>)
    requires Served(|specs|, total, node)
  {
    RangeIsInside(|specs|, total, node);
    var start, count := Start(|specs|, total, node), Size(|specs|, total, node);
    if count == 0 then [] else specs[start..start + count]
  }

  lemma RangeIsInside(length: nat, total: nat, node: int)
    requires Served(length, total, node)
    ensures 0 <= Start(length, total, node) && 0 <= Size(length, total, node)
    ensures Start(length, total, node) + Size(length, total, node) <= length
  {
    if length > 0 && node <= total {
      RangesAreAdjacent(length, total, node);
      AllBefore(length, total);
      BeforeGrows(length, total, node - 1, node);
      BeforeGrows(length, total, node, total);
      if total < length {
        assert length / total >= 1;
      }
    }
  }

  lemma LaterRangeIsOutside(length: nat, total: nat, node: nat)
    requires 1 <= total < length && node > total
    ensures Size(length, total, node) >= 1 && Start(length, total, node) >= length
  {
    StartOfLater(length, total, node);
    MoreShares(node - 1, total, length / total);
  }

  lemma StartOfLater(length: nat, total: nat, node: nat)
    requires 1 <= total < length && node > length % total
    ensures Start(length, total, node) == (node - 1) * (length / total) + length % total
    ensures Size(length, total, node) == length / total >= 1
  {
    ShareOfLater(length / total, length % total, node);
  }

  lemma MoreShares(a: nat, b: nat, q: nat)
    requires a >= b
    ensures a * q >= b * q
  {
  }

  lemma EarlierRangeIsOutside(length: nat, total: nat, node: int)
    requires 1 <= total < length && node < 1
    ensures Size(length, total, node) >= 1 && Start(length, total, node) < 0
  {
    var q, r := length / total, length % total;
    assert q >= 1;
    var most := q + if r != 0 then 1 else 0;
    assert (node - 1) * most <= -1 * most;
  }

  /** The slice of a node is in range if and only if the node is one that is served. */
  lemma InRangeIff(length: nat, total: nat, node: int)
    requires length == 0 || total >= 1
    ensures InRange(length, total, node) <==> Served(length, total, node)
  {
    if Served(length, total, node) {
      RangeIsInside(length, total, node);
    } else if total < length {
      if node < 1 {
        EarlierRangeIsOutside(length, total, node);
      } else {
        LaterRangeIsOutside(length, total, node);
      }
    }
  }

  /** What the first k nodes run, one node after the other. */
  function RunByFirst<T>(specs: seq<T>, total: nat, k: nat): seq<T>
    requires k <= total
  {
    if k == 0 then [] else RunByFirst(specs, total, k - 1) + Trimmed(specs, total, k)
  }

  lemma {:induction false} FirstNodesRunAPrefix<T>(specs: seq<T>, total: nat, k: nat)
    requires k <= total && total >= 1
    ensures Before(|specs|, total, k) <= |specs|
    ensures RunByFirst(specs, total, k) == specs[..Before(|specs|, total, k)]
  {
    AllBefore(|specs|, total);
    BeforeGrows(|specs|, total, k, total);
    if k > 0 {
      FirstNodesRunAPrefix(specs, total, k - 1);
      NextNodeRunsNext(specs, total, k);
    }
  }

  lemma NextNodeRunsNext<T>(specs: seq<T>, total: nat, k: nat)
    requires 1 <= k <= total
    ensures Before(|specs|, total, k - 1) <= Before(|specs|, total, k) <= |specs|
    ensures specs[..Before(|specs|, total, k - 1)] + Trimmed(specs, total, k) == specs[..Before(|specs|, total, k)]
  {
    AllBefore(|specs|, total);
    BeforeGrows(|specs|, total, k - 1, k);
    BeforeGrows(|specs|, total, k, total);
    RangesAreAdjacent(|specs|, total, k);
  }

  /** Put one after the other, the lists of all the nodes are the list of all specs. */
  lemma TrimsRebuildTheSuite<T>(specs: seq<T>, total: nat)
    requires total >= 1
    ensures RunByFirst(specs, total, total) == specs
  {
    FirstNodesRunAPrefix(specs, total, total);
    AllBefore(|specs|, total);
  }

  class Specs<T> {
    var specs: seq<T>

    constructor (specs: seq<T>)
      ensures this.specs == specs
    {
      this.specs := specs;
    }

    /** For any other node the slice would be out of range. */
    method TrimForParallelization(total: nat, node: int)
      requires Served(|specs|, total, node)
      modifies this
      ensures specs == Trimmed(old(specs), total, node)
    {
      var (startIndex, count) := ParallelizedIndexRange(|specs|, total, node);
      if count == 0 {
        specs := [];
      } else {
        RangeIsInside(|specs|, total, node);
        specs := specs[startIndex..startIndex + count];
      }
    }
  }
}
