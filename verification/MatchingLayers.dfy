/** What the guide layers are: breadth-first layers whose last one is the first
    right layer with a free node, or a stuck search that has no way on. */
module MatchingLayers {
  import opened Wrappers
  import opened Collections
  import opened Graphs
  import opened MatchingSpec

  // ---------------------------------------------------------------- guide layers

  /** The layers grown so far: the free left nodes, and each further layer reached
      from the one before. `used` is the set of all their nodes. */
  ghost predicate Grown(bg: BipartiteGraph, M: set<Edge>, layers: seq<Layer>, used: set<Node>) {
    && |layers| > 0
    && (forall n :: n in layers[0] <==> n in bg.left && FreeIn(M, n))
    && NoneEmpty(layers)
    && Sided(bg, layers)
    && Collects(layers, used)
    && LayersDisjoint(layers)
    && Preceded(bg, M, layers)
  }

  ghost predicate NoneEmpty(layers: seq<Layer>) {
    forall k | 0 <= k < |layers| :: layers[k] != []
  }

  ghost predicate Sided(bg: BipartiteGraph, layers: seq<Layer>) {
    forall k, n | 0 <= k < |layers| && n in layers[k] :: n in Side(bg, k)
  }

  ghost predicate Collects(layers: seq<Layer>, used: set<Node>) {
    forall n :: n in used <==> exists k :: 0 <= k < |layers| && n in layers[k]
  }

  ghost predicate Preceded(bg: BipartiteGraph, M: set<Edge>, layers: seq<Layer>) {
    forall k, n | 0 < k < |layers| && n in layers[k] :: HasPredecessor(bg, M, layers, k, n)
  }

  ghost predicate LayersDisjoint(layers: seq<Layer>) {
    && (forall j, k, n | 0 <= j < k < |layers| && n in layers[j] :: n !in layers[k])
    && (forall k | 0 <= k < |layers| :: Distinct(layers[k]))
  }

  ghost predicate HasPredecessor(bg: BipartiteGraph, M: set<Edge>, layers: seq<Layer>, k: nat, n: Node)
    requires 0 < k <= |layers|
  {
    exists v | v in layers[k - 1] :: Step(bg, M, k, n, v)
  }

  ghost predicate WithinLayers(layers: seq<Layer>, last: int, n: Node) {
    exists j :: 0 <= j < |layers| && j <= last && n in layers[j]
  }

  /** Every step out of a layer before `upTo` leads to a node at most one layer on. */
  ghost predicate Closed(bg: BipartiteGraph, M: set<Edge>, layers: seq<Layer>, upTo: nat)
    requires upTo <= |layers|
  {
    forall k, v, n | 0 <= k < upTo && v in layers[k] && Leads(bg, M, k, v, n) :: WithinLayers(layers, k + 1, n)
  }

  /** n can be reached from v on layer k. */
  ghost predicate Leads(bg: BipartiteGraph, M: set<Edge>, k: nat, v: Node, n: Node) {
    n in Side(bg, k + 1) && Step(bg, M, k + 1, n, v)
  }

  ghost predicate NoFreeRight(bg: BipartiteGraph, M: set<Edge>, used: set<Node>) {
    forall n | n in used && n in bg.right :: !FreeIn(M, n)
  }

  lemma {:induction false} ReachedDistinct(bg: BipartiteGraph, M: set<Edge>, level: nat, v: Node,
                                           candidates: seq<Node>, used: set<Node>)
    requires Distinct(candidates)
    ensures Distinct(Reached(bg, M, level, v, candidates, used))
  {
    if candidates != [] {
      ReachedDistinct(bg, M, level, v, candidates[1..], used);
      ReachedElements(bg, M, level, v, candidates[1..], used);
    }
  }

  lemma {:induction false} NextLayerDistinct(bg: BipartiteGraph, M: set<Edge>, level: nat, last: Layer, used: set<Node>)
    requires Distinct(Side(bg, level))
    ensures Distinct(NextLayer(bg, M, level, last, used))
  {
    if last != [] {
      var reached := Reached(bg, M, level, last[0], Side(bg, level), used);
      ReachedDistinct(bg, M, level, last[0], Side(bg, level), used);
      NextLayerElements(bg, M, level, last[1..], used + Elements(reached));
      NextLayerDistinct(bg, M, level, last[1..], used + Elements(reached));
      DistinctConcat(reached, NextLayer(bg, M, level, last[1..], used + Elements(reached)));
    }
  }

  lemma {:induction false} FreeNodesDistinct(M: set<Edge>, nodes: seq<Node>)
    requires Distinct(nodes)
    ensures Distinct(FreeNodes(M, nodes))
  {
    if nodes != [] {
      FreeNodesDistinct(M, nodes[1..]);
      FreeNodesElements(M, nodes[1..]);
    }
  }

  lemma AppendLayer(layers: seq<Layer>, used: set<Node>, next: Layer)
    requires LayersDisjoint(layers) && Distinct(next)
    requires Collects(layers, used)
    requires forall n | n in next :: n !in used
    ensures LayersDisjoint(layers + [next])
    ensures Collects(layers + [next], used + Elements(next))
  {
    var grown := layers + [next];
    forall n ensures n in used + Elements(next) <==> exists k :: 0 <= k < |grown| && n in grown[k] {
      if n in used {
        var k :| 0 <= k < |layers| && n in layers[k];
        assert n in grown[k];
      }
      if n in next {
        assert n in grown[|layers|];
      }
    }
  }

  lemma AppendPredecessors(bg: BipartiteGraph, M: set<Edge>, layers: seq<Layer>, used: set<Node>, next: Layer)
    requires |layers| > 0 && next == NextLayer(bg, M, |layers|, layers[|layers| - 1], used)
    requires Preceded(bg, M, layers)
    ensures Preceded(bg, M, layers + [next])
  {
    var grown := layers + [next];
    NextLayerElements(bg, M, |layers|, layers[|layers| - 1], used);
    forall k, n | 0 < k < |grown| && n in grown[k] ensures HasPredecessor(bg, M, grown, k, n) {
      assert grown[k - 1] == layers[k - 1];
      if k < |layers| {
        assert HasPredecessor(bg, M, layers, k, n);
      }
    }
  }

  lemma GrowOne(bg: BipartiteGraph, M: set<Edge>, layers: seq<Layer>, used: set<Node>, next: Layer)
    requires bg.WellFormed() && Grown(bg, M, layers, used)
    requires next == NextLayer(bg, M, |layers|, layers[|layers| - 1], used) && next != []
    ensures Grown(bg, M, layers + [next], used + Elements(next))
  {
    FreshLayer(bg, M, |layers|, layers[|layers| - 1], used);
    NextLayerDistinct(bg, M, |layers|, layers[|layers| - 1], used);
    AppendLayer(layers, used, next);
    AppendSide(bg, layers, next);
    AppendPredecessors(bg, M, layers, used, next);
    assert (layers + [next])[0] == layers[0];
  }

  lemma FreshLayer(bg: BipartiteGraph, M: set<Edge>, level: nat, last: Layer, used: set<Node>)
    ensures forall n | n in NextLayer(bg, M, level, last, used) :: n in Side(bg, level) && n !in used
  {
    NextLayerElements(bg, M, level, last, used);
  }

  lemma AppendSide(bg: BipartiteGraph, layers: seq<Layer>, next: Layer)
    requires NoneEmpty(layers) && Sided(bg, layers) && next != [] && forall n | n in next :: n in Side(bg, |layers|)
    ensures NoneEmpty(layers + [next]) && Sided(bg, layers + [next])
  {
  }

  lemma CloseOne(bg: BipartiteGraph, M: set<Edge>, layers: seq<Layer>, used: set<Node>, next: Layer)
    requires Grown(bg, M, layers, used) && Closed(bg, M, layers, |layers| - 1)
    requires next == NextLayer(bg, M, |layers|, layers[|layers| - 1], used)
    ensures Closed(bg, M, layers + [next], |layers|)
    ensures next == [] ==> Closed(bg, M, layers, |layers|)
  {
    var grown := layers + [next];
    NextLayerElements(bg, M, |layers|, layers[|layers| - 1], used);
    forall k, v, n | 0 <= k < |layers| && v in layers[k] && Leads(bg, M, k, v, n)
      ensures WithinLayers(grown, k + 1, n)
      ensures next == [] ==> WithinLayers(layers, k + 1, n)
    {
      if k < |layers| - 1 {
        assert WithinLayers(layers, k + 1, n);
      } else if n in next {
        assert n in grown[|layers|];
      } else {
        assert n in used;
        assert WithinLayers(layers, k + 1, n);
      }
      if WithinLayers(layers, k + 1, n) {
        var j :| 0 <= j < |layers| && j <= k + 1 && n in layers[j];
        assert n in grown[j];
      }
    }
  }

  /** What GrowLayers promises: either guide layers whose last layer is the first
      right layer with a free node, or a used set closed under every step with no
      free right node in it. */
  ghost predicate Guide(bg: BipartiteGraph, M: set<Edge>, layers: seq<Layer>) {
    && |layers| >= 2 && Odd(|layers| - 1)
    && HasFree(M, layers[|layers| - 1])
    && (exists used :: Grown(bg, M, layers, used))
    && Closed(bg, M, layers, |layers| - 1)
    && NoneFreeBelow(bg, M, layers)
  }

  ghost predicate NoneFreeBelow(bg: BipartiteGraph, M: set<Edge>, layers: seq<Layer>) {
    forall k, n | 0 <= k < |layers| - 1 && n in layers[k] && n in bg.right :: !FreeIn(M, n)
  }

  ghost predicate Stuck(bg: BipartiteGraph, M: set<Edge>, used: set<Node>) {
    && (forall n | n in bg.left && FreeIn(M, n) :: n in used)
    && NoFreeRight(bg, M, used)
    && (forall e | e in bg.edges && e !in M && e.node1 in used :: e.node2 in used)
    && (forall e | e in bg.edges && e in M :: e.node2 in used ==> e.node1 in used)
    && (forall n | n in used && n in bg.left && !FreeIn(M, n) ::
          exists r :: r in used && Edge(n, r) in M && Edge(n, r) in bg.edges)
  }

  lemma {:induction false} GrowLayersResult(bg: BipartiteGraph, M: set<Edge>, layers: seq<Layer>, used: set<Node>)
    requires bg.WellFormed() && Grown(bg, M, layers, used)
    requires Closed(bg, M, layers, |layers| - 1) && NoFreeRight(bg, M, used)
    ensures var guide := GrowLayers(bg, M, layers, used);
            if guide == [] then exists z :: Stuck(bg, M, z) else Guide(bg, M, guide)
    decreases |Unused(bg, used)|
  {
    var next := NextLayer(bg, M, |layers|, layers[|layers| - 1], used);
    var used' := used + Elements(next);
    CloseOne(bg, M, layers, used, next);
    if next == [] {
      StuckWhenEmpty(bg, M, layers, used);
    } else if Odd(|layers|) && HasFree(M, next) {
      GrowOne(bg, M, layers, used, next);
      DoneIsGuide(bg, M, layers, used, next);
    } else {
      GrowOne(bg, M, layers, used, next);
      UnusedShrinks(bg, M, |layers|, layers[|layers| - 1], used);
      GrowLayersResult(bg, M, layers + [next], used');
    }
  }

  lemma NoneFreeBefore(bg: BipartiteGraph, M: set<Edge>, layers: seq<Layer>, used: set<Node>, next: Layer)
    requires Collects(layers, used) && NoFreeRight(bg, M, used)
    ensures NoneFreeBelow(bg, M, layers + [next])
  {
    forall k, n | 0 <= k < |layers| && n in layers[k] && n in bg.right ensures !FreeIn(M, n) {
      assert n in used;
    }
  }

  lemma DoneIsGuide(bg: BipartiteGraph, M: set<Edge>, layers: seq<Layer>, used: set<Node>, next: Layer)
    requires |layers| > 0 && Collects(layers, used) && NoFreeRight(bg, M, used)
    requires Grown(bg, M, layers + [next], used + Elements(next)) && Closed(bg, M, layers + [next], |layers|)
    requires Odd(|layers|) && HasFree(M, next)
    ensures Guide(bg, M, layers + [next])
  {
    NoneFreeBefore(bg, M, layers, used, next);
    assert (layers + [next])[|layers|] == next;
  }

  lemma StuckWhenEmpty(bg: BipartiteGraph, M: set<Edge>, layers: seq<Layer>, used: set<Node>)
    requires bg.WellFormed() && Grown(bg, M, layers, used)
    requires Closed(bg, M, layers, |layers|) && NoFreeRight(bg, M, used)
    ensures Stuck(bg, M, used)
  {
    forall e | e in bg.edges && e !in M && e.node1 in used ensures e.node2 in used {
      StuckOutside(bg, M, layers, used, e);
    }
    forall e | e in bg.edges && e in M && e.node2 in used ensures e.node1 in used {
      StuckInside(bg, M, layers, used, e);
    }
    forall n | n in used && n in bg.left && !FreeIn(M, n)
      ensures exists r :: r in used && Edge(n, r) in M && Edge(n, r) in bg.edges
    {
      StuckMatched(bg, M, layers, used, n);
    }
  }

  lemma StuckOutside(bg: BipartiteGraph, M: set<Edge>, layers: seq<Layer>, used: set<Node>, e: Edge)
    requires bg.WellFormed() && Sided(bg, layers) && Collects(layers, used) && Closed(bg, M, layers, |layers|)
    requires e in bg.edges && e !in M && e.node1 in used
    ensures e.node2 in used
  {
    var k :| 0 <= k < |layers| && e.node1 in layers[k];
    assert !Odd(k) && Leads(bg, M, k, e.node1, e.node2);
    assert WithinLayers(layers, k + 1, e.node2);
  }

  lemma StuckInside(bg: BipartiteGraph, M: set<Edge>, layers: seq<Layer>, used: set<Node>, e: Edge)
    requires bg.WellFormed() && Sided(bg, layers) && Collects(layers, used) && Closed(bg, M, layers, |layers|)
    requires e in bg.edges && e in M && e.node2 in used
    ensures e.node1 in used
  {
    var k :| 0 <= k < |layers| && e.node2 in layers[k];
    assert Odd(k) && Leads(bg, M, k, e.node2, e.node1);
    assert WithinLayers(layers, k + 1, e.node1);
  }

  lemma StuckMatched(bg: BipartiteGraph, M: set<Edge>, layers: seq<Layer>, used: set<Node>, n: Node)
    requires bg.WellFormed() && Grown(bg, M, layers, used)
    requires n in used && n in bg.left && !FreeIn(M, n)
    ensures exists r :: r in used && Edge(n, r) in M && Edge(n, r) in bg.edges
  {
    var k :| 0 <= k < |layers| && n in layers[k];
    assert HasPredecessor(bg, M, layers, k, n);
    var r :| r in layers[k - 1] && Step(bg, M, k, n, r);
    assert r in used;
  }

  /** The whole of createSLAPGuideLayers. */
  lemma GuideLayersResult(bg: BipartiteGraph, M: set<Edge>)
    requires bg.WellFormed()
    ensures GuideLayers(bg, M) != [] ==> Guide(bg, M, GuideLayers(bg, M))
    ensures GuideLayers(bg, M) == [] ==> exists z :: Stuck(bg, M, z)
  {
    var free := FreeNodes(M, bg.left);
    FreeNodesElements(M, bg.left);
    if free == [] {
      assert forall n | n in bg.left :: !FreeIn(M, n) by {
        forall n | n in bg.left ensures !FreeIn(M, n) {
          assert n !in free;
        }
      }
      assert Stuck(bg, M, {});
    } else {
      FreeNodesDistinct(M, bg.left);
      forall n ensures n in Elements(free) <==> exists k :: 0 <= k < |[free]| && n in [free][k] {
        assert [free][0] == free;
      }
      assert Grown(bg, M, [free], Elements(free));
      GrowLayersResult(bg, M, [free], Elements(free));
    }
  }
}
