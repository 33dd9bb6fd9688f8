/** A concrete input on which a path is started from a matched node and ConsistOf is right
    all the same: starts that stay free are sufficient for that, not necessary. */
module MatchingSufficient {
  import opened Wrappers
  import opened Collections
  import opened Graphs
  import opened MatchingSpec
  import opened MatchingAugment
  import opened MatchingTheorems
  import opened MatchingUnrolled
  import opened ConsistOf

  const VALUES: seq<int> := [0, 1, 2]
  const MATCHERS: seq<int> := [0, 1, 2]

  predicate Matches(v: int, w: int) {
    (v, w) in {(0, 0), (0, 2), (1, 0), (1, 1), (1, 2), (2, 2)}
  }

  function L(i: int): Node { Node(i) }

  function R(j: int): Node { Node(j + 3) }

  ghost predicate Sample(bg: BipartiteGraph) {
    && bg.left == [L(0), L(1), L(2)]
    && bg.right == [R(0), R(1), R(2)]
    && (forall i, j | 0 <= i < 3 && 0 <= j < 3 :: Edge(L(i), R(j)) in bg.edges <==> Matches(i, j))
  }

  lemma SampleGraph(bg: BipartiteGraph)
    requires GraphOf(bg, VALUES, MATCHERS, Matches)
    ensures Sample(bg) && bg.WellFormed()
  {
    forall i, j | 0 <= i < 3 && 0 <= j < 3 ensures Edge(L(i), R(j)) in bg.edges <==> Matches(i, j) {
      assert bg.left[i] == L(i) && bg.right[j] == R(j);
    }
  }

  /** The nodes of a side of three that are kept. */
  function Kept(side: seq<Node>, a: bool, b: bool, c: bool): seq<Node>
    requires |side| == 3
  {
    Keep(a, side[0], Keep(b, side[1], Keep(c, side[2], [])))
  }

  lemma Reached3(bg: BipartiteGraph, M: set<Edge>, level: nat, v: Node, side: seq<Node>, used: set<Node>)
    requires |side| == 3
    ensures Reached(bg, M, level, v, side, used)
         == Kept(side, Reaches(bg, M, level, v, used, side[0]), Reaches(bg, M, level, v, used, side[1]),
                 Reaches(bg, M, level, v, used, side[2]))
  {
    assert side[3..] == [] && side[0..] == side;
    ReachedFrom(bg, M, level, v, side, used, 2);
    ReachedFrom(bg, M, level, v, side, used, 1);
    ReachedFrom(bg, M, level, v, side, used, 0);
  }

  lemma FreeNodes3(M: set<Edge>, nodes: seq<Node>)
    requires |nodes| == 3
    ensures FreeNodes(M, nodes) == Kept(nodes, FreeIn(M, nodes[0]), FreeIn(M, nodes[1]), FreeIn(M, nodes[2]))
  {
    assert nodes[3..] == [] && nodes[0..] == nodes;
    FreeNodesFrom(M, nodes, 2);
    FreeNodesFrom(M, nodes, 1);
    FreeNodesFrom(M, nodes, 0);
  }

  // ------------------------------------------------------------------- first phase

  const TOP1: Layer := [R(0), R(2), R(1)]

  const M1: set<Edge> := {Edge(L(0), R(0)), Edge(L(1), R(2))}

  lemma FirstRow(bg: BipartiteGraph, i: nat, used: set<Node>)
    requires Sample(bg) && i < 3
    ensures Reached(bg, {}, 1, L(i), bg.right, used)
         == Kept(bg.right, R(0) !in used && Matches(i, 0), R(1) !in used && Matches(i, 1),
                 R(2) !in used && Matches(i, 2))
  {
    Reached3(bg, {}, 1, L(i), bg.right, used);
  }

  lemma FirstRows(bg: BipartiteGraph, used0: set<Node>, used1: set<Node>, used2: set<Node>)
    requires Sample(bg) && R(0) !in used0 && R(1) !in used0 && R(2) !in used0
    requires used1 == used0 + {R(0), R(2)} && used2 == used1 + {R(1)}
    ensures Reached(bg, {}, 1, L(0), bg.right, used0) == [R(0), R(2)]
    ensures Reached(bg, {}, 1, L(1), bg.right, used1) == [R(1)]
    ensures Reached(bg, {}, 1, L(2), bg.right, used2) == []
  {
    FirstRow(bg, 0, used0);
    FirstRow(bg, 1, used1);
    FirstRow(bg, 2, used2);
  }

  lemma FirstTop(bg: BipartiteGraph, used: set<Node>)
    requires Sample(bg) && used == Elements(bg.left)
    ensures NextLayer(bg, {}, 1, bg.left, used) == TOP1
  {
    var used1 := used + {R(0), R(2)};
    var used2 := used1 + {R(1)};
    assert Elements([R(0), R(2)]) == {R(0), R(2)} && Elements([R(1)]) == {R(1)};
    FirstRows(bg, used, used1, used2);
    NextOfThree(bg, bg.left, used, used1, used2);
    assert [R(0), R(2)] + ([R(1)] + []) == TOP1;
  }

  lemma NextOfThree(bg: BipartiteGraph, last: Layer, used: set<Node>, used1: set<Node>, used2: set<Node>)
    requires |last| == 3
    requires used1 == used + Elements(Reached(bg, {}, 1, last[0], bg.right, used))
    requires used2 == used1 + Elements(Reached(bg, {}, 1, last[1], bg.right, used1))
    requires Reached(bg, {}, 1, last[2], bg.right, used2) == []
    ensures NextLayer(bg, {}, 1, last, used)
         == Reached(bg, {}, 1, last[0], bg.right, used) + (Reached(bg, {}, 1, last[1], bg.right, used1) + [])
  {
    NextLayerFrom(bg, {}, 1, last, used, 0, Reached(bg, {}, 1, last[0], bg.right, used));
    NextLayerFrom(bg, {}, 1, last, used1, 1, Reached(bg, {}, 1, last[1], bg.right, used1));
    NextLayerFrom(bg, {}, 1, last, used2, 2, []);
    assert last[0..] == last && last[3..] == [];
  }

  lemma FirstLayers(bg: BipartiteGraph)
    requires Sample(bg)
    ensures GuideLayers(bg, {}) == [bg.left, TOP1]
  {
    FreeNodes3({}, bg.left);
    assert FreeNodes({}, bg.left) == bg.left;
    FirstTop(bg, Elements(bg.left));
    assert R(0) in TOP1;
  }

  /** A right node of the first phase takes the first of its neighbours that is not used. */
  lemma FirstSearch(bg: BipartiteGraph, j: nat, used: set<Node>, i: nat)
    requires Sample(bg) && j < 3 && i < 3 && Matches(i, j) && L(i) !in used
    requires forall k | 0 <= k < i :: L(k) in used || !Matches(k, j)
    ensures Search(bg, {}, [bg.left, TOP1], 1, R(j), used) == Some([R(j), L(i)])
  {
    var layers, used' := [bg.left, TOP1], used + {R(j)};
    forall k | 0 <= k < i ensures !Eligible(bg, {}, 1, R(j), used', bg.left[k]) {
      assert bg.left[k] == L(k);
    }
    assert bg.left[i] == L(i);
    assert Search(bg, {}, layers, 0, L(i), used') == Some([L(i)]);
    PickFirst(bg, {}, layers, 1, R(j), bg.left, used', i);
    assert [R(j)] + [L(i)] == [R(j), L(i)];
  }

  lemma LastSearchFails(bg: BipartiteGraph, used: set<Node>)
    requires Sample(bg) && L(1) in used
    ensures Search(bg, {}, [bg.left, TOP1], 1, R(1), used) == None
  {
    var used' := used + {R(1)};
    forall k | 0 <= k < 3 ensures !Eligible(bg, {}, 1, R(1), used', bg.left[k]) {
      assert bg.left[k] == L(k);
    }
    PickNone(bg, {}, [bg.left, TOP1], 1, R(1), bg.left, used');
  }

  lemma FirstPhase(bg: BipartiteGraph)
    requires Sample(bg)
    ensures Phase(bg, {}) == [[R(0), L(0)], [R(2), L(1)]]
  {
    FirstLayers(bg);
    var layers := [bg.left, TOP1];
    var used1 := {} + Elements([R(0), L(0)]);
    var used2 := used1 + Elements([R(2), L(1)]);
    assert L(0) in [R(0), L(0)] && L(1) in [R(2), L(1)];
    FirstSearch(bg, 0, {}, 0);
    FirstSearch(bg, 2, used1, 1);
    LastSearchFails(bg, used2);
    CollectFrom(bg, {}, layers, TOP1, 0, {});
    CollectFrom(bg, {}, layers, TOP1, 1, used1);
    CollectFrom(bg, {}, layers, TOP1, 2, used2);
    assert TOP1[0..] == TOP1 && TOP1[3..] == [];
  }

  lemma AfterFirst(bg: BipartiteGraph)
    requires Sample(bg)
    ensures AfterPhase(bg, {}) == M1
  {
    FirstPhase(bg);
    SlapOfOne(R(0), L(0));
    SlapOfOne(R(2), L(1));
    var paths := [[R(0), L(0)], [R(2), L(1)]];
    assert paths[1..] == [[R(2), L(1)]] && paths[1..][1..] == [];
  }

  // ------------------------------------------------------------------ second phase

  const LAYERS2: seq<Layer> := [[L(2)], [R(2)], [L(1)], [R(0), R(1)]]

  lemma SecondFree(bg: BipartiteGraph)
    requires Sample(bg)
    ensures FreeNodes(M1, bg.left) == [L(2)]
    ensures !HasFree(M1, [R(2)]) && HasFree(M1, [R(0), R(1)]) && !FreeIn(M1, R(0))
  {
    FreeNodes3(M1, bg.left);
    assert Touches(Edge(L(0), R(0)), L(0)) && Touches(Edge(L(0), R(0)), R(0));
    assert Touches(Edge(L(1), R(2)), L(1)) && Touches(Edge(L(1), R(2)), R(2));
    assert FreeIn(M1, R(1)) && R(1) in [R(0), R(1)];
  }

  /** A layer of one node grows by what this node reaches. */
  lemma GrowByOne(bg: BipartiteGraph, layers: seq<Layer>, used: set<Node>, n: Node, next: Layer)
    requires |layers| > 0 && layers[|layers| - 1] == [n] && next != []
    requires Reached(bg, M1, |layers|, n, Side(bg, |layers|), used) == next
    ensures GrowLayers(bg, M1, layers, used)
         == if Odd(|layers|) && HasFree(M1, next) then layers + [next]
            else GrowLayers(bg, M1, layers + [next], used + Elements(next))
  {
    var last := [n];
    NextLayerFrom(bg, M1, |layers|, last, used, 0, next);
    assert last[0..] == last && last[1..] == [];
    assert next + [] == next;
  }

  lemma SecondReached(bg: BipartiteGraph)
    requires Sample(bg)
    ensures Reached(bg, M1, 1, L(2), bg.right, {L(2)}) == [R(2)]
    ensures Reached(bg, M1, 2, R(2), bg.left, {L(2), R(2)}) == [L(1)]
    ensures Reached(bg, M1, 3, L(1), bg.right, {L(2), R(2), L(1)}) == [R(0), R(1)]
  {
    Reached3(bg, M1, 1, L(2), bg.right, {L(2)});
    Reached3(bg, M1, 2, R(2), bg.left, {L(2), R(2)});
    Reached3(bg, M1, 3, L(1), bg.right, {L(2), R(2), L(1)});
  }

  const GROWN1: seq<Layer> := [[L(2)]]

  const GROWN2: seq<Layer> := [[L(2)], [R(2)]]

  const GROWN3: seq<Layer> := [[L(2)], [R(2)], [L(1)]]

  lemma SecondGrow1(bg: BipartiteGraph)
    requires Sample(bg)
    ensures GrowLayers(bg, M1, GROWN1, {L(2)}) == GrowLayers(bg, M1, GROWN2, {L(2), R(2)})
  {
    SecondFree(bg);
    SecondReached(bg);
    assert {L(2)} + Elements([R(2)]) == {L(2), R(2)} && GROWN1 + [[R(2)]] == GROWN2;
    GrowByOne(bg, GROWN1, {L(2)}, L(2), [R(2)]);
  }

  lemma SecondGrow2(bg: BipartiteGraph)
    requires Sample(bg)
    ensures GrowLayers(bg, M1, GROWN2, {L(2), R(2)}) == GrowLayers(bg, M1, GROWN3, {L(2), R(2), L(1)})
  {
    SecondReached(bg);
    assert {L(2), R(2)} + Elements([L(1)]) == {L(2), R(2), L(1)} && GROWN2 + [[L(1)]] == GROWN3;
    GrowByOne(bg, GROWN2, {L(2), R(2)}, R(2), [L(1)]);
  }

  lemma SecondGrow3(bg: BipartiteGraph)
    requires Sample(bg)
    ensures GrowLayers(bg, M1, GROWN3, {L(2), R(2), L(1)}) == LAYERS2
  {
    SecondFree(bg);
    SecondReached(bg);
    assert GROWN3 + [[R(0), R(1)]] == LAYERS2;
    GrowByOne(bg, GROWN3, {L(2), R(2), L(1)}, L(1), [R(0), R(1)]);
  }

  lemma SecondLayers(bg: BipartiteGraph)
    requires Sample(bg)
    ensures GuideLayers(bg, M1) == LAYERS2
  {
    SecondFree(bg);
    SecondGrow1(bg);
    SecondGrow2(bg);
    SecondGrow3(bg);
    assert Elements([L(2)]) == {L(2)};
  }

  /** One step down into a layer of one node. */
  lemma SearchStep(bg: BipartiteGraph, level: nat, u: Node, used: set<Node>, v: Node, below: Path)
    requires 0 < level < 4 && LAYERS2[level - 1] == [v]
    requires Eligible(bg, M1, level, u, used + {u}, v)
    requires Search(bg, M1, LAYERS2, level - 1, v, used + {u}) == Some(below)
    ensures Search(bg, M1, LAYERS2, level, u, used) == Some([u] + below)
  {
    PickFirst(bg, M1, LAYERS2, level, u, [v], used + {u}, 0);
  }

  /** The second phase starts a path in the right node 0, which is matched. */
  lemma SecondSearch(bg: BipartiteGraph)
    requires Sample(bg)
    ensures Search(bg, M1, LAYERS2, 3, R(0), {}).Some?
  {
    var u0: set<Node> := {};
    var u1 := u0 + {R(0)};
    var u2 := u1 + {L(1)};
    SearchStep(bg, 1, R(2), u2, L(2), [L(2)]);
    SearchStep(bg, 2, L(1), u1, R(2), [R(2)] + [L(2)]);
    SearchStep(bg, 3, R(0), u0, L(1), [L(1)] + ([R(2)] + [L(2)]));
  }

  lemma SecondStartIsMatched(bg: BipartiteGraph)
    requires Sample(bg)
    ensures Phase(bg, M1) != [] && !AllStartsFree(M1, Phase(bg, M1))
  {
    SecondLayers(bg);
    SecondFree(bg);
    SecondSearch(bg);
    var starts := [R(0), R(1)];
    CollectFrom(bg, M1, LAYERS2, starts, 0, {});
    assert starts[0..] == starts;
    assert Phase(bg, M1)[0][0] == R(0);
    assert !StartFree(M1, Phase(bg, M1)[0]);
  }

  // -------------------------------------------------------------------- the result

  lemma StartsAreNotFree(bg: BipartiteGraph)
    requires bg.WellFormed() && Sample(bg)
    ensures !StartsStayFree(bg, {})
  {
    FirstPhase(bg);
    AfterFirst(bg);
    SecondStartIsMatched(bg);
    PhaseStep(bg, {});
    assert !StartsStayFree(bg, M1);
  }

  lemma IsAssignable()
    ensures Assignable(VALUES, MATCHERS, Matches)
  {
    var f: seq<nat> := [0, 1, 2];
    forall i | 0 <= i < |f|
      ensures f[i] < |MATCHERS| && Matches(VALUES[i], MATCHERS[f[i]])
    {
      assert i == 0 || i == 1 || i == 2;
    }
    assert Assignment(VALUES, MATCHERS, Matches, f);
  }

  /** The run starts a path in a matched node, so its result is no matching; yet there is
      an assignment, and ConsistOf finds as many edges as values. */
  lemma RightAllTheSame(bg: BipartiteGraph)
    requires GraphOf(bg, VALUES, MATCHERS, Matches)
    ensures !StartsStayFree(bg, {}) && !IsMatching(bg, Run(bg, {}))
    ensures Assignable(VALUES, MATCHERS, Matches) && |Run(bg, {})| == |VALUES|
  {
    SampleGraph(bg);
    StartsAreNotFree(bg);
    LargestIff(bg);
    IsAssignable();
    NeverMissed(bg, VALUES, MATCHERS, Matches);
  }
}
