/** The recursions of the search, one step at a time, for computing it on given graphs. */
module MatchingUnrolled {
  import opened Wrappers
  import opened Collections
  import opened Graphs
  import opened MatchingSpec

  function Keep(c: bool, n: Node, rest: seq<Node>): seq<Node> {
    if c then [n] + rest else rest
  }

  lemma ReachedFrom(bg: BipartiteGraph, M: set<Edge>, level: nat, v: Node, side: seq<Node>, used: set<Node>, j: nat)
    requires j < |side|
    ensures Reached(bg, M, level, v, side[j..], used)
         == Keep(side[j] !in used && Step(bg, M, level, side[j], v), side[j],
                 Reached(bg, M, level, v, side[j + 1..], used))
  {
    assert side[j..][0] == side[j] && side[j..][1..] == side[j + 1..];
  }

  predicate Reaches(bg: BipartiteGraph, M: set<Edge>, level: nat, v: Node, used: set<Node>, n: Node) {
    n !in used && Step(bg, M, level, n, v)
  }

  lemma FreeNodesFrom(M: set<Edge>, nodes: seq<Node>, j: nat)
    requires j < |nodes|
    ensures FreeNodes(M, nodes[j..]) == Keep(FreeIn(M, nodes[j]), nodes[j], FreeNodes(M, nodes[j + 1..]))
  {
    assert nodes[j..][0] == nodes[j] && nodes[j..][1..] == nodes[j + 1..];
  }

  lemma NextLayerFrom(bg: BipartiteGraph, M: set<Edge>, level: nat, last: Layer, used: set<Node>, j: nat,
                      reached: Layer)
    requires j < |last| && reached == Reached(bg, M, level, last[j], Side(bg, level), used)
    ensures NextLayer(bg, M, level, last[j..], used)
         == reached + NextLayer(bg, M, level, last[j + 1..], used + Elements(reached))
  {
    assert last[j..][0] == last[j] && last[j..][1..] == last[j + 1..];
  }

  predicate Eligible(bg: BipartiteGraph, M: set<Edge>, level: nat, u: Node, used: set<Node>, v: Node) {
    v !in used && Step(bg, M, level, u, v)
  }

  lemma {:induction false} PickFirst(bg: BipartiteGraph, M: set<Edge>, layers: seq<Layer>, level: nat, u: Node,
                                     candidates: seq<Node>, used: set<Node>, i: nat)
    requires 0 < level < |layers| && i < |candidates|
    requires forall k | 0 <= k < i :: !Eligible(bg, M, level, u, used, candidates[k])
    requires Eligible(bg, M, level, u, used, candidates[i])
    requires Search(bg, M, layers, level - 1, candidates[i], used).Some?
    ensures SearchFrom(bg, M, layers, level, u, candidates, used)
         == Some([u] + Search(bg, M, layers, level - 1, candidates[i], used).value)
  {
    if i > 0 {
      assert !Eligible(bg, M, level, u, used, candidates[0]);
      forall k | 0 <= k < i - 1 ensures !Eligible(bg, M, level, u, used, candidates[1..][k]) {
        assert candidates[1..][k] == candidates[k + 1];
      }
      PickFirst(bg, M, layers, level, u, candidates[1..], used, i - 1);
    }
  }

  lemma {:induction false} PickNone(bg: BipartiteGraph, M: set<Edge>, layers: seq<Layer>, level: nat, u: Node,
                                    candidates: seq<Node>, used: set<Node>)
    requires 0 < level < |layers|
    requires forall k | 0 <= k < |candidates| :: !Eligible(bg, M, level, u, used, candidates[k])
    ensures SearchFrom(bg, M, layers, level, u, candidates, used) == None
  {
    if candidates != [] {
      assert !Eligible(bg, M, level, u, used, candidates[0]);
      PickNone(bg, M, layers, level, u, candidates[1..], used);
    }
  }

  lemma CollectFrom(bg: BipartiteGraph, M: set<Edge>, layers: seq<Layer>, starts: seq<Node>, j: nat, used: set<Node>)
    requires |layers| > 0 && j < |starts|
    ensures var found := Search(bg, M, layers, |layers| - 1, starts[j], used);
            Collect(bg, M, layers, starts[j..], used)
            == if found.Some? then [found.value] + Collect(bg, M, layers, starts[j + 1..], used + Elements(found.value))
               else Collect(bg, M, layers, starts[j + 1..], used)
  {
    assert starts[j..][0] == starts[j] && starts[j..][1..] == starts[j + 1..];
  }

  lemma SlapOfOne(u: Node, v: Node)
    ensures Elements(SlapEdges([u, v])) == {Edge(v, u)}
  {
    assert [u, v][1..] == [v];
    assert PathEdges(0, [v]) == [];
    assert PathEdges(1, [u, v]) == [StepEdge(1, u, v)];
  }

  lemma SlapOfThree(a: Node, b: Node, c: Node, d: Node)
    ensures Elements(SlapEdges([a, b, c, d])) == {Edge(b, a), Edge(b, c), Edge(d, c)}
  {
    assert [a, b, c, d][1..] == [b, c, d];
    assert [b, c, d][1..] == [c, d];
    SlapOfOne(c, d);
    assert PathEdges(2, [b, c, d]) == [StepEdge(2, b, c)] + PathEdges(1, [c, d]);
    assert PathEdges(3, [a, b, c, d]) == [StepEdge(3, a, b)] + PathEdges(2, [b, c, d]);
  }
}
