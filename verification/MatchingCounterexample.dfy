/** A concrete input on which LargestMatching does not return a matching, and ConsistOf
    succeeds although one matcher matches no value at all: five values, five matchers. */
module MatchingCounterexample {
  import opened Wrappers
  import opened Collections
  import opened Graphs
  import opened MatchingSpec
  import opened MatchingAugment
  import opened MatchingTheorems
  import opened MatchingUnrolled
  import opened ConsistOf
  import Matching

  const VALUES: seq<int> := [0, 1, 2, 3, 4]
  const MATCHERS: seq<int> := [0, 1, 2, 3, 4]

  /** Which value matches which matcher; nothing matches the last matcher. */
  predicate Matches(v: int, w: int) {
    (v, w) in {(0, 0), (0, 1), (1, 0), (2, 1), (3, 2), (3, 3), (4, 2)}
  }

  function L(i: int): Node { Node(i) }

  function R(j: int): Node { Node(j + 5) }

  ghost predicate Sample(bg: BipartiteGraph) {
    && bg.left == [L(0), L(1), L(2), L(3), L(4)]
    && bg.right == [R(0), R(1), R(2), R(3), R(4)]
    && (forall i, j | 0 <= i < 5 && 0 <= j < 5 :: Edge(L(i), R(j)) in bg.edges <==> Matches(i, j))
  }

  lemma SampleGraph(bg: BipartiteGraph)
    requires GraphOf(bg, VALUES, MATCHERS, Matches)
    ensures Sample(bg) && bg.WellFormed()
  {
    forall i, j | 0 <= i < 5 && 0 <= j < 5 ensures Edge(L(i), R(j)) in bg.edges <==> Matches(i, j) {
      assert bg.left[i] == L(i) && bg.right[j] == R(j);
    }
  }

  // ----------------------------------------------------------- unrolled recursions

  /** The nodes of a side of five that are kept. */
  function Kept(side: seq<Node>, a: bool, b: bool, c: bool, d: bool, e: bool): seq<Node>
    requires |side| == 5
  {
    Keep(a, side[0], Keep(b, side[1], Keep(c, side[2], Keep(d, side[3], Keep(e, side[4], [])))))
  }

  lemma Reached5(bg: BipartiteGraph, M: set<Edge>, level: nat, v: Node, side: seq<Node>, used: set<Node>)
    requires |side| == 5
    ensures Reached(bg, M, level, v, side, used)
         == Kept(side, Reaches(bg, M, level, v, used, side[0]), Reaches(bg, M, level, v, used, side[1]),
                 Reaches(bg, M, level, v, used, side[2]), Reaches(bg, M, level, v, used, side[3]),
                 Reaches(bg, M, level, v, used, side[4]))
  {
    assert side[5..] == [];
    ReachedFrom(bg, M, level, v, side, used, 4);
    ReachedFrom(bg, M, level, v, side, used, 3);
    ReachedFrom(bg, M, level, v, side, used, 2);
    ReachedFrom(bg, M, level, v, side, used, 1);
    ReachedFrom(bg, M, level, v, side, used, 0);
    assert side[0..] == side;
  }

  lemma FreeNodes5(M: set<Edge>, nodes: seq<Node>)
    requires |nodes| == 5
    ensures FreeNodes(M, nodes)
         == Kept(nodes, FreeIn(M, nodes[0]), FreeIn(M, nodes[1]), FreeIn(M, nodes[2]), FreeIn(M, nodes[3]),
                 FreeIn(M, nodes[4]))
  {
    FreeNodesFrom(M, nodes, 4);
    FreeNodesFrom(M, nodes, 3);
    FreeNodesFrom(M, nodes, 2);
    FreeNodesFrom(M, nodes, 1);
    FreeNodesFrom(M, nodes, 0);
    assert nodes[0..] == nodes;
  }

  // ------------------------------------------------------------------- first phase

  /** The right nodes among `used` are the first k. */
  ghost predicate FirstUsed(used: set<Node>, k: nat) {
    forall j | 0 <= j < 5 :: R(j) in used <==> j < k
  }

  lemma FirstRow(bg: BipartiteGraph, i: nat, used: set<Node>, k: nat, expected: Layer)
    requires Sample(bg) && i < 5 && FirstUsed(used, k)
    requires expected == Kept(bg.right, 0 >= k && Matches(i, 0), 1 >= k && Matches(i, 1), 2 >= k && Matches(i, 2),
                              3 >= k && Matches(i, 3), 4 >= k && Matches(i, 4))
    ensures NextLayer(bg, {}, 1, bg.left[i..], used)
         == expected + NextLayer(bg, {}, 1, bg.left[i + 1..], used + Elements(expected))
  {
    Reached5(bg, {}, 1, L(i), bg.right, used);
    NextLayerFrom(bg, {}, 1, bg.left, used, i, expected);
  }

  lemma FirstRowEmpty(bg: BipartiteGraph, i: nat, used: set<Node>, k: nat)
    requires Sample(bg) && i < 5 && FirstUsed(used, k)
    requires forall j | k <= j < 5 :: !Matches(i, j)
    ensures NextLayer(bg, {}, 1, bg.left[i..], used) == NextLayer(bg, {}, 1, bg.left[i + 1..], used)
  {
    FirstRow(bg, i, used, k, []);
    assert used + Elements([]) == used;
  }

  lemma FirstNextLast(bg: BipartiteGraph, used: set<Node>)
    requires Sample(bg) && FirstUsed(used, 4)
    ensures NextLayer(bg, {}, 1, bg.left[4..], used) == []
  {
    FirstRowEmpty(bg, 4, used, 4);
    assert bg.left[5..] == [];
  }

  lemma FirstNextTail(bg: BipartiteGraph, used: set<Node>)
    requires Sample(bg) && FirstUsed(used, 2)
    ensures NextLayer(bg, {}, 1, bg.left[3..], used) == [R(2), R(3)]
  {
    var expected := [R(2), R(3)];
    FirstRow(bg, 3, used, 2, expected);
    FirstNextLast(bg, used + Elements(expected));
  }

  lemma FirstNextMiddle(bg: BipartiteGraph, used: set<Node>)
    requires Sample(bg) && FirstUsed(used, 2)
    ensures NextLayer(bg, {}, 1, bg.left[1..], used) == [R(2), R(3)]
  {
    FirstRowEmpty(bg, 1, used, 2);
    FirstRowEmpty(bg, 2, used, 2);
    FirstNextTail(bg, used);
  }

  lemma UsedByFirst(used: set<Node>)
    requires FirstUsed(used, 0)
    ensures FirstUsed(used + Elements([R(0), R(1)]), 2)
  {
  }

  lemma FirstNext(bg: BipartiteGraph, used: set<Node>)
    requires Sample(bg) && FirstUsed(used, 0)
    ensures NextLayer(bg, {}, 1, bg.left, used) == [R(0), R(1), R(2), R(3)]
  {
    var expected := [R(0), R(1)];
    FirstRow(bg, 0, used, 0, expected);
    UsedByFirst(used);
    FirstNextMiddle(bg, used + Elements(expected));
    assert bg.left[0..] == bg.left;
    assert expected + [R(2), R(3)] == [R(0), R(1), R(2), R(3)];
  }

  lemma FirstLayers(bg: BipartiteGraph)
    requires Sample(bg)
    ensures GuideLayers(bg, {}) == [bg.left, [R(0), R(1), R(2), R(3)]]
  {
    FreeNodes5({}, bg.left);
    assert FreeNodes({}, bg.left) == bg.left;
    FirstNext(bg, Elements(bg.left));
    assert R(0) in [R(0), R(1), R(2), R(3)];
  }

  lemma FirstSearch(bg: BipartiteGraph, layers: seq<Layer>, j: nat, used: set<Node>, i: nat)
    requires Sample(bg) && j < 5 && i < 5 && |layers| == 2 && layers[0] == bg.left
    requires Matches(i, j) && L(i) !in used
    requires forall k | 0 <= k < i :: L(k) in used || !Matches(k, j)
    ensures Search(bg, {}, layers, 1, R(j), used) == Some([R(j), L(i)])
  {
    var used' := used + {R(j)};
    forall k | 0 <= k < i ensures !Eligible(bg, {}, 1, R(j), used', bg.left[k]) {
      assert bg.left[k] == L(k);
    }
    assert bg.left[i] == L(i);
    assert Search(bg, {}, layers, 0, L(i), used') == Some([L(i)]);
    PickFirst(bg, {}, layers, 1, R(j), bg.left, used', i);
    assert [R(j)] + [L(i)] == [R(j), L(i)];
  }

  lemma FirstSearchFails(bg: BipartiteGraph, layers: seq<Layer>, j: nat, used: set<Node>)
    requires Sample(bg) && j < 5 && |layers| == 2 && layers[0] == bg.left
    requires forall k | 0 <= k < 5 :: L(k) in used || !Matches(k, j)
    ensures Search(bg, {}, layers, 1, R(j), used) == None
  {
    var used' := used + {R(j)};
    forall k | 0 <= k < 5 ensures !Eligible(bg, {}, 1, R(j), used', bg.left[k]) {
      assert bg.left[k] == L(k);
    }
    PickNone(bg, {}, layers, 1, R(j), bg.left, used');
  }

  const PHASE1: seq<Path> := [[R(0), L(0)], [R(1), L(2)], [R(2), L(3)]]

  const STARTS1: seq<Node> := [R(0), R(1), R(2), R(3)]

  lemma FirstCollect(bg: BipartiteGraph, layers: seq<Layer>, j: nat, used: set<Node>, i: nat)
    requires Sample(bg) && j < 4 && i < 5 && |layers| == 2 && layers[0] == bg.left
    requires Matches(i, j) && L(i) !in used
    requires forall k | 0 <= k < i :: L(k) in used || !Matches(k, j)
    ensures Collect(bg, {}, layers, STARTS1[j..], used)
         == [[R(j), L(i)]] + Collect(bg, {}, layers, STARTS1[j + 1..], used + {R(j), L(i)})
  {
    FirstSearch(bg, layers, j, used, i);
    assert STARTS1[j] == R(j);
    CollectFrom(bg, {}, layers, STARTS1, j, used);
    assert Elements([R(j), L(i)]) == {R(j), L(i)};
  }

  lemma FirstCollectLast(bg: BipartiteGraph, layers: seq<Layer>, used: set<Node>)
    requires Sample(bg) && |layers| == 2 && layers[0] == bg.left && L(3) in used
    ensures Collect(bg, {}, layers, STARTS1[3..], used) == []
  {
    FirstSearchFails(bg, layers, 3, used);
    CollectFrom(bg, {}, layers, STARTS1, 3, used);
    assert STARTS1[4..] == [];
  }

  lemma FirstCollectTail(bg: BipartiteGraph, layers: seq<Layer>, used: set<Node>)
    requires Sample(bg) && |layers| == 2 && layers[0] == bg.left && L(3) !in used
    ensures Collect(bg, {}, layers, STARTS1[2..], used) == [[R(2), L(3)]]
  {
    FirstCollect(bg, layers, 2, used, 3);
    FirstCollectLast(bg, layers, used + {R(2), L(3)});
  }

  lemma FirstCollectAll(bg: BipartiteGraph, layers: seq<Layer>)
    requires Sample(bg) && |layers| == 2 && layers[0] == bg.left
    ensures Collect(bg, {}, layers, STARTS1, {}) == PHASE1
  {
    var used := {} + {R(0), L(0)};
    FirstCollect(bg, layers, 0, {}, 0);
    FirstCollect(bg, layers, 1, used, 2);
    FirstCollectTail(bg, layers, used + {R(1), L(2)});
    assert STARTS1[0..] == STARTS1;
  }

  lemma FirstPhase(bg: BipartiteGraph)
    requires Sample(bg)
    ensures Phase(bg, {}) == PHASE1
  {
    FirstLayers(bg);
    FirstCollectAll(bg, [bg.left, STARTS1]);
  }

  /** The edges matched after the first and the second phase. */
  const M1: set<Edge> := {Edge(L(0), R(0)), Edge(L(2), R(1)), Edge(L(3), R(2))}

  const M2: set<Edge> :=
    {Edge(L(0), R(1)), Edge(L(2), R(1)), Edge(L(1), R(0)), Edge(L(3), R(3)), Edge(L(4), R(2))}

  lemma AfterFirst(bg: BipartiteGraph)
    requires Sample(bg)
    ensures AfterPhase(bg, {}) == M1
  {
    FirstPhase(bg);
    SlapOfOne(R(0), L(0));
    SlapOfOne(R(1), L(2));
    SlapOfOne(R(2), L(3));
    assert PHASE1[1..] == [[R(1), L(2)], [R(2), L(3)]];
    assert PHASE1[1..][1..] == [[R(2), L(3)]];
    assert PHASE1[1..][1..][1..] == [];
  }

  // ------------------------------------------------------------------ second phase

  lemma SecondFree(bg: BipartiteGraph)
    requires Sample(bg)
    ensures FreeNodes(M1, bg.left) == [L(1), L(4)]
    ensures !HasFree(M1, [R(0), R(2)]) && HasFree(M1, [R(1), R(3)])
  {
    FreeNodes5(M1, bg.left);
    assert Touches(Edge(L(0), R(0)), L(0)) && Touches(Edge(L(0), R(0)), R(0));
    assert Touches(Edge(L(2), R(1)), L(2));
    assert Touches(Edge(L(3), R(2)), L(3)) && Touches(Edge(L(3), R(2)), R(2));
    assert FreeIn(M1, R(3)) && R(3) in [R(1), R(3)];
  }

  /** On an odd level v reaches the right nodes by unmatched edges, on an even level
      the left nodes by matched ones. */
  lemma SecondRow(bg: BipartiteGraph, level: nat, i: nat, used: set<Node>, expected: Layer)
    requires Sample(bg) && i < 5
    requires Odd(level) ==>
               expected == Kept(bg.right, RowKeeps(i, 0, used), RowKeeps(i, 1, used), RowKeeps(i, 2, used),
                                RowKeeps(i, 3, used), RowKeeps(i, 4, used))
    requires !Odd(level) ==>
               expected == Kept(bg.left, ColumnKeeps(0, i, used), ColumnKeeps(1, i, used), ColumnKeeps(2, i, used),
                                ColumnKeeps(3, i, used), ColumnKeeps(4, i, used))
    ensures Reached(bg, M1, level, if Odd(level) then L(i) else R(i), Side(bg, level), used) == expected
  {
    if Odd(level) {
      Reached5(bg, M1, level, L(i), bg.right, used);
    } else {
      Reached5(bg, M1, level, R(i), bg.left, used);
    }
  }

  predicate RowKeeps(i: nat, j: nat, used: set<Node>) {
    R(j) !in used && Matches(i, j) && Edge(L(i), R(j)) !in M1
  }

  predicate ColumnKeeps(i: nat, j: nat, used: set<Node>) {
    L(i) !in used && Matches(i, j) && Edge(L(i), R(j)) in M1
  }

  /** A layer of two whose nodes reach one new node each. */
  lemma NextOfTwo(bg: BipartiteGraph, M: set<Edge>, level: nat, a: Node, b: Node, used: set<Node>, x: Node, y: Node)
    requires Reached(bg, M, level, a, Side(bg, level), used) == [x]
    requires Reached(bg, M, level, b, Side(bg, level), used + {x}) == [y]
    ensures NextLayer(bg, M, level, [a, b], used) == [x, y]
  {
    var last := [a, b];
    assert Elements([x]) == {x};
    NextLayerFrom(bg, M, level, last, used, 0, [x]);
    NextLayerFrom(bg, M, level, last, used + {x}, 1, [y]);
    assert last[0..] == last && last[2..] == [];
    assert [x] + [y] == [x, y];
  }

  const USED1: set<Node> := {L(1), L(4)}

  const USED2: set<Node> := USED1 + {R(0), R(2)}

  const USED3: set<Node> := USED2 + {L(0), L(3)}

  lemma SecondNext1(bg: BipartiteGraph)
    requires Sample(bg)
    ensures NextLayer(bg, M1, 1, [L(1), L(4)], USED1) == [R(0), R(2)]
  {
    var used := USED1;
    SecondRow(bg, 1, 1, used, [R(0)]);
    SecondRow(bg, 1, 4, used + {R(0)}, [R(2)]);
    NextOfTwo(bg, M1, 1, L(1), L(4), used, R(0), R(2));
  }

  lemma SecondNext2(bg: BipartiteGraph)
    requires Sample(bg)
    ensures NextLayer(bg, M1, 2, [R(0), R(2)], USED2) == [L(0), L(3)]
  {
    var used := USED2;
    SecondRow(bg, 2, 0, used, [L(0)]);
    SecondRow(bg, 2, 2, used + {L(0)}, [L(3)]);
    NextOfTwo(bg, M1, 2, R(0), R(2), used, L(0), L(3));
  }

  lemma SecondNext3(bg: BipartiteGraph)
    requires Sample(bg)
    ensures NextLayer(bg, M1, 3, [L(0), L(3)], USED3) == [R(1), R(3)]
  {
    var used := USED3;
    SecondRow(bg, 3, 0, used, [R(1)]);
    SecondRow(bg, 3, 3, used + {R(1)}, [R(3)]);
    NextOfTwo(bg, M1, 3, L(0), L(3), used, R(1), R(3));
  }

  const LAYERS2: seq<Layer> := [[L(1), L(4)], [R(0), R(2)], [L(0), L(3)], [R(1), R(3)]]

  lemma GrowFrom(bg: BipartiteGraph, layers: seq<Layer>, used: set<Node>, a: Node, b: Node, grown: seq<Layer>)
    requires |layers| > 0 && NextLayer(bg, M1, |layers|, layers[|layers| - 1], used) == [a, b]
    requires grown == layers + [[a, b]]
    ensures GrowLayers(bg, M1, layers, used)
         == if Odd(|layers|) && HasFree(M1, [a, b]) then grown else GrowLayers(bg, M1, grown, used + {a, b})
  {
    assert Elements([a, b]) == {a, b};
  }

  const GROWN1: seq<Layer> := [[L(1), L(4)]]

  const GROWN2: seq<Layer> := [[L(1), L(4)], [R(0), R(2)]]

  const GROWN3: seq<Layer> := [[L(1), L(4)], [R(0), R(2)], [L(0), L(3)]]

  lemma SecondGrow3(bg: BipartiteGraph)
    requires Sample(bg)
    ensures GrowLayers(bg, M1, GROWN3, USED3) == LAYERS2
  {
    SecondFree(bg);
    SecondNext3(bg);
    assert LAYERS2 == GROWN3 + [[R(1), R(3)]];
    GrowFrom(bg, GROWN3, USED3, R(1), R(3), LAYERS2);
  }

  lemma SecondGrow2(bg: BipartiteGraph)
    requires Sample(bg)
    ensures GrowLayers(bg, M1, GROWN2, USED2) == GrowLayers(bg, M1, GROWN3, USED3)
  {
    SecondNext2(bg);
    assert GROWN3 == GROWN2 + [[L(0), L(3)]];
    GrowFrom(bg, GROWN2, USED2, L(0), L(3), GROWN3);
  }

  lemma SecondGrow1(bg: BipartiteGraph)
    requires Sample(bg)
    ensures GrowLayers(bg, M1, GROWN1, USED1) == GrowLayers(bg, M1, GROWN2, USED2)
  {
    SecondFree(bg);
    SecondNext1(bg);
    assert GROWN2 == GROWN1 + [[R(0), R(2)]];
    GrowFrom(bg, GROWN1, USED1, R(0), R(2), GROWN2);
  }

  lemma SecondLayers(bg: BipartiteGraph)
    requires Sample(bg)
    ensures GuideLayers(bg, M1) == LAYERS2
  {
    SecondFree(bg);
    SecondGrow3(bg);
    SecondGrow2(bg);
    SecondGrow1(bg);
    assert Elements([L(1), L(4)]) == USED1;
  }

  /** One step down into a layer of two nodes, whose first eligible one is v. */
  lemma SearchStep(bg: BipartiteGraph, level: nat, u: Node, used: set<Node>, a: Node, b: Node, v: Node, below: Path)
    requires 0 < level < 4 && LAYERS2[level - 1] == [a, b] && (v == a || v == b)
    requires v == b ==> a in used + {u}
    requires Eligible(bg, M1, level, u, used + {u}, v)
    requires Search(bg, M1, LAYERS2, level - 1, v, used + {u}) == Some(below)
    ensures Search(bg, M1, LAYERS2, level, u, used) == Some([u] + below)
  {
    var candidates := [a, b];
    if v == a {
      PickFirst(bg, M1, LAYERS2, level, u, candidates, used + {u}, 0);
    } else {
      PickFirst(bg, M1, LAYERS2, level, u, candidates, used + {u}, 1);
    }
  }

  const PATH1: Path := [R(1), L(0), R(0), L(1)]

  const PATH2: Path := [R(3), L(3), R(2), L(4)]

  /** The first path starts in the right node 1, which is matched already. */
  lemma SecondSearch1(bg: BipartiteGraph)
    requires Sample(bg)
    ensures Search(bg, M1, LAYERS2, 3, R(1), {}) == Some(PATH1)
  {
    var u0: set<Node> := {};
    var u1 := u0 + {R(1)};
    var u2 := u1 + {L(0)};
    SearchStep(bg, 1, R(0), u2, L(1), L(4), L(1), [L(1)]);
    SearchStep(bg, 2, L(0), u1, R(0), R(2), R(0), [R(0)] + [L(1)]);
    SearchStep(bg, 3, R(1), u0, L(0), L(3), L(0), [L(0)] + ([R(0)] + [L(1)]));
    assert [R(1)] + ([L(0)] + ([R(0)] + [L(1)])) == PATH1;
  }

  lemma SecondSearch2(bg: BipartiteGraph, used: set<Node>)
    requires Sample(bg) && used == Elements(PATH1)
    ensures Search(bg, M1, LAYERS2, 3, R(3), used) == Some(PATH2)
  {
    var u1 := used + {R(3)};
    var u2 := u1 + {L(3)};
    assert L(0) in PATH1 && R(0) in PATH1 && L(1) in PATH1;
    assert L(3) !in PATH1 && R(2) !in PATH1 && L(4) !in PATH1;
    SearchStep(bg, 1, R(2), u2, L(1), L(4), L(4), [L(4)]);
    SearchStep(bg, 2, L(3), u1, R(0), R(2), R(2), [R(2)] + [L(4)]);
    SearchStep(bg, 3, R(3), used, L(0), L(3), L(3), [L(3)] + ([R(2)] + [L(4)]));
    assert [R(3)] + ([L(3)] + ([R(2)] + [L(4)])) == PATH2;
  }

  lemma SecondPhase(bg: BipartiteGraph)
    requires Sample(bg)
    ensures Phase(bg, M1) == [PATH1, PATH2]
  {
    SecondLayers(bg);
    SecondSearch1(bg);
    SecondSearch2(bg, Elements(PATH1));
    var starts := [R(1), R(3)];
    CollectFrom(bg, M1, LAYERS2, starts, 0, {});
    CollectFrom(bg, M1, LAYERS2, starts, 1, {} + Elements(PATH1));
    assert {} + Elements(PATH1) == Elements(PATH1);
    assert starts[0..] == starts && starts[2..] == [];
  }

  lemma TogglesOfSecond()
    ensures Toggle(Toggle(M1, {Edge(L(0), R(1)), Edge(L(0), R(0)), Edge(L(1), R(0))}),
                   {Edge(L(3), R(3)), Edge(L(3), R(2)), Edge(L(4), R(2))}) == M2
  {
    assert Toggle(M1, {Edge(L(0), R(1)), Edge(L(0), R(0)), Edge(L(1), R(0))})
        == {Edge(L(2), R(1)), Edge(L(3), R(2)), Edge(L(0), R(1)), Edge(L(1), R(0))};
  }

  lemma AfterSecond(bg: BipartiteGraph)
    requires Sample(bg)
    ensures AfterPhase(bg, M1) == M2
  {
    SecondPhase(bg);
    SlapOfThree(R(1), L(0), R(0), L(1));
    SlapOfThree(R(3), L(3), R(2), L(4));
    TogglesOfSecond();
    var paths := [PATH1, PATH2];
    assert paths[1..] == [PATH2] && paths[1..][1..] == [];
    assert ToggleAll(M1, paths) == ToggleAll(Toggle(M1, Elements(SlapEdges(PATH1))), [PATH2]);
  }

  // -------------------------------------------------------------------- the result

  lemma ThirdPhase(bg: BipartiteGraph)
    requires Sample(bg)
    ensures Phase(bg, M2) == []
  {
    assert Touches(Edge(L(0), R(1)), L(0)) && Touches(Edge(L(1), R(0)), L(1)) && Touches(Edge(L(2), R(1)), L(2));
    assert Touches(Edge(L(3), R(3)), L(3)) && Touches(Edge(L(4), R(2)), L(4));
    FreeNodes5(M2, bg.left);
  }

  lemma RunEndsIn(bg: BipartiteGraph)
    requires bg.WellFormed() && Sample(bg)
    ensures Run(bg, {}) == M2
  {
    FirstPhase(bg);
    AfterFirst(bg);
    Matching.RunStep(bg, {});
    SecondPhase(bg);
    AfterSecond(bg);
    Matching.RunStep(bg, M1);
    ThirdPhase(bg);
  }

  /** Values 1 and 2 match one matcher each, and value 0 only these two. */
  lemma NoInjection(a: int, b: int, c: int)
    requires Matches(0, a) && Matches(1, b) && Matches(2, c)
    ensures a == b || a == c
  {
  }

  lemma AssignedMatches(f: seq<nat>, i: nat)
    requires Assignment(VALUES, MATCHERS, Matches, f) && i < 5
    ensures f[i] < 5 && Matches(i, f[i])
  {
    Numbered(i);
    Numbered(f[i]);
    assert Matches(VALUES[i], MATCHERS[f[i]]);
  }

  lemma Numbered(k: nat)
    requires k < 5
    ensures VALUES[k] == k && MATCHERS[k] == k
  {
    assert k == 0 || k == 1 || k == 2 || k == 3 || k == 4;
  }

  lemma NoAssignment()
    ensures !Assignable(VALUES, MATCHERS, Matches)
  {
    if f :| Assignment(VALUES, MATCHERS, Matches, f) {
      AssignedMatches(f, 0);
      AssignedMatches(f, 1);
      AssignedMatches(f, 2);
      NoInjection(f[0], f[1], f[2]);
    }
  }

  lemma TooSmall(bg: BipartiteGraph, N: set<Edge>)
    requires GraphOf(bg, VALUES, MATCHERS, Matches) && IsMatching(bg, N)
    ensures |N| < 5
  {
    MatchedLefts(N);
    LeftsBounded(bg, N);
    if |N| == 5 {
      AllLeftsMatched(bg, VALUES, MATCHERS, Matches, N);
      NoAssignment();
    }
  }

  lemma DoubledEdges()
    ensures |M2| == 5 && !RightUnique(M2)
  {
    assert Edge(L(0), R(1)) in M2 && Edge(L(2), R(1)) in M2;
    var rest := M2 - {Edge(L(0), R(1)), Edge(L(2), R(1))};
    assert rest == {Edge(L(1), R(0)), Edge(L(3), R(3)), Edge(L(4), R(2))};
  }

  /** The run ends with five edges, two of them at the same right node, in a graph
      without a matching of five edges. */
  lemma NotAMatching(bg: BipartiteGraph)
    requires GraphOf(bg, VALUES, MATCHERS, Matches)
    ensures |Run(bg, {})| == 5 && !IsMatching(bg, Run(bg, {}))
    ensures forall N | IsMatching(bg, N) :: |N| < 5
  {
    SampleGraph(bg);
    RunEndsIn(bg);
    DoubledEdges();
    forall N | IsMatching(bg, N) ensures |N| < 5 {
      TooSmall(bg, N);
    }
  }

  lemma RunsToFive(bg: BipartiteGraph)
    requires GraphOf(bg, VALUES, MATCHERS, Matches)
    ensures |Run(bg, {})| == |VALUES|
  {
    NotAMatching(bg);
  }

  lemma LastMatcherUnmatched(v: int)
    ensures !Matches(v, MATCHERS[4])
  {
  }

  method MatchSample() returns (success: bool)
    ensures success
  {
    ghost var bg;
    success, bg := Match(VALUES, MATCHERS, Matches);
    RunsToFive(bg);
  }

  /** ConsistOf succeeds on this input, although no value matches the last matcher. */
  method AcceptsUnassignable() returns (success: bool)
    ensures success
    ensures forall v: int :: !Matches(v, MATCHERS[4])
    ensures !Assignable(VALUES, MATCHERS, Matches)
  {
    success := MatchSample();
    NoAssignment();
    forall v: int ensures !Matches(v, MATCHERS[4]) {
      LastMatcherUnmatched(v);
    }
  }
}
