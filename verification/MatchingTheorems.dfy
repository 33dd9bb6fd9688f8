/** The theorems about whole phases and whole runs: progress and termination, the
    cover that bounds every matching, and exactly when the result is a matching. */
module MatchingTheorems {
  import opened Collections
  import opened Graphs
  import opened MatchingSpec
  import opened MatchingLayers
  import opened MatchingPaths
  import opened MatchingAugment

  // ---------------------------------------------------------------- one phase

  /** A phase finds no path exactly when there are no guide layers; its paths are
      node-disjoint and alternating; and it is maximal: no guide path avoids them all. */
  lemma PhaseResult(bg: BipartiteGraph, M: set<Edge>)
    requires bg.WellFormed() && Reachable(bg, M)
    ensures Phase(bg, M) == [] <==> GuideLayers(bg, M) == []
    ensures AllSlaps(bg, M, Phase(bg, M)) && Disjoint(Phase(bg, M))
    ensures PhaseMaximal(bg, M)
  {
    var layers := GuideLayers(bg, M);
    if layers != [] {
      var q := SomeGuidePath(bg, M, layers);
      PhasePaths(bg, M, layers);
      assert Meets(Phase(bg, M), q);
    }
  }

  lemma GuideIsPreceded(bg: BipartiteGraph, M: set<Edge>, layers: seq<Layer>)
    requires Guide(bg, M, layers)
    ensures Preceded(bg, M, layers) && layers[|layers| - 1] != []
  {
    var used :| Grown(bg, M, layers, used);
  }

  lemma GuideGives(bg: BipartiteGraph, M: set<Edge>, layers: seq<Layer>)
    requires bg.WellFormed() && layers == GuideLayers(bg, M) && layers != []
    ensures Layered(bg, M, layers) && LayersDisjoint(layers)
    ensures Preceded(bg, M, layers) && layers[|layers| - 1] != []
  {
    GuideLayersResult(bg, M);
    GuideIsLayered(bg, M, layers);
    GuideIsPreceded(bg, M, layers);
  }

  lemma SomeGuidePath(bg: BipartiteGraph, M: set<Edge>, layers: seq<Layer>) returns (q: Path)
    requires bg.WellFormed() && layers == GuideLayers(bg, M) && layers != []
    ensures Layered(bg, M, layers) && LayersDisjoint(layers)
    ensures GuidePath(bg, M, layers, |layers| - 1, q)
  {
    GuideGives(bg, M, layers);
    q := Descend(bg, M, layers, |layers| - 1, layers[|layers| - 1][0]);
  }

  ghost predicate Meets(paths: seq<Path>, q: Path) {
    exists p | p in paths :: !(Elements(q) !! Elements(p))
  }

  ghost predicate PhaseMaximal(bg: BipartiteGraph, M: set<Edge>) {
    var layers := GuideLayers(bg, M);
    forall q | layers != [] && GuidePath(bg, M, layers, |layers| - 1, q) :: Meets(Phase(bg, M), q)
  }

  lemma PhasePaths(bg: BipartiteGraph, M: set<Edge>, layers: seq<Layer>)
    requires layers == GuideLayers(bg, M) && Layered(bg, M, layers) && LayersDisjoint(layers)
    ensures AllSlaps(bg, M, Phase(bg, M)) && Disjoint(Phase(bg, M)) && PhaseMaximal(bg, M)
  {
    CollectResult(bg, M, layers, layers[|layers| - 1], {});
    PathsAreSlaps(bg, M, layers, Phase(bg, M));
    forall q | GuidePath(bg, M, layers, |layers| - 1, q) ensures Meets(Phase(bg, M), q) {
      BlockedMeets(Phase(bg, M), q);
    }
  }

  lemma PathsAreSlaps(bg: BipartiteGraph, M: set<Edge>, layers: seq<Layer>, paths: seq<Path>)
    requires Layered(bg, M, layers)
    requires forall p | p in paths :: GuidePath(bg, M, layers, |layers| - 1, p) && Distinct(p)
    ensures AllSlaps(bg, M, paths)
  {
    forall i | 0 <= i < |paths| ensures Slap(bg, M, paths[i]) {
      assert paths[i] in paths;
      GuidePathSlap(bg, M, layers, paths[i]);
    }
  }

  lemma BlockedMeets(paths: seq<Path>, q: Path)
    requires Blocked(paths, {}, q)
    ensures Meets(paths, q)
  {
  }

  lemma LeftsBounded(bg: BipartiteGraph, M: set<Edge>)
    requires bg.WellFormed() && M <= Elements(bg.edges)
    ensures Lefts(M) <= Elements(bg.left) && |Lefts(M)| <= |bg.left|
  {
    SubsetSize(Lefts(M), Elements(bg.left));
    ElementsSize(bg.left);
  }

  /** One phase matches exactly as many more left nodes as it found paths, unmatches
      none, and keeps every left node to one edge. The right nodes keep to one edge
      iff they did before and every path started in a free node. */
  lemma PhaseProgress(bg: BipartiteGraph, M: set<Edge>)
    requires bg.WellFormed() && Reachable(bg, M)
    ensures var paths := Phase(bg, M); var M' := AfterPhase(bg, M);
            && Reachable(bg, M')
            && Lefts(M) <= Lefts(M') && |Lefts(M')| == |Lefts(M)| + |paths| <= |bg.left|
            && (IsMatching(bg, M') <==> IsMatching(bg, M) && AllStartsFree(M, paths))
  {
    PhaseResult(bg, M);
    ToggleAllResult(bg, M, Phase(bg, M));
    LeftsBounded(bg, AfterPhase(bg, M));
  }

  /** What termination needs of it. */
  lemma PhaseStep(bg: BipartiteGraph, M: set<Edge>)
    requires bg.WellFormed() && Reachable(bg, M)
    ensures Reachable(bg, AfterPhase(bg, M))
    ensures Phase(bg, M) != [] ==> |Lefts(M)| < |Lefts(AfterPhase(bg, M))| <= |bg.left|
  {
    PhaseProgress(bg, M);
  }

  // ---------------------------------------------------------------- whole runs

  /** LargestMatching, started from the matched edges M. */
  function Run(bg: BipartiteGraph, M: set<Edge>): set<Edge>
    requires bg.WellFormed() && Reachable(bg, M)
    decreases |bg.left| - |Lefts(M)|
  {
    PhaseStep(bg, M);
    if Phase(bg, M) == [] then M else Run(bg, AfterPhase(bg, M))
  }

  /** Every path taken in the run started in a node free at the time: the check
      that the loop over the last layer does not make. */
  ghost predicate StartsStayFree(bg: BipartiteGraph, M: set<Edge>)
    requires bg.WellFormed() && Reachable(bg, M)
    decreases |bg.left| - |Lefts(M)|
  {
    PhaseStep(bg, M);
    Phase(bg, M) != [] ==>
      AllStartsFree(M, Phase(bg, M)) && StartsStayFree(bg, AfterPhase(bg, M))
  }

  lemma {:induction false} RunResult(bg: BipartiteGraph, M: set<Edge>)
    requires bg.WellFormed() && Reachable(bg, M)
    ensures Reachable(bg, Run(bg, M)) && Lefts(M) <= Lefts(Run(bg, M))
    ensures IsMatching(bg, Run(bg, M)) <==> IsMatching(bg, M) && StartsStayFree(bg, M)
    ensures exists z :: Stuck(bg, Run(bg, M), z)
    decreases |bg.left| - |Lefts(M)|
  {
    PhaseProgress(bg, M);
    if Phase(bg, M) == [] {
      PhaseResult(bg, M);
      GuideLayersResult(bg, M);
    } else {
      RunResult(bg, AfterPhase(bg, M));
    }
  }

  // ---------------------------------------------------------------- Koenig's cover

  ghost predicate Covers(C: set<Node>, edges: seq<Edge>) {
    forall e | e in edges :: e.node1 in C || e.node2 in C
  }

  /** An injective image is as large as its source. */
  lemma {:induction false} InjectionSize<A, B>(m: map<A, B>)
    requires forall x, y | x in m && y in m && m[x] == m[y] :: x == y
    ensures |m.Values| == |m|
  {
    if m != map[] {
      var x :| x in m;
      var rest := m - {x};
      InjectionSize(rest);
      assert m.Values == rest.Values + {m[x]};
      assert m[x] !in rest.Values;
      assert m.Keys == rest.Keys + {x};
    }
  }

  lemma MatchedLefts(M: set<Edge>)
    requires LeftUnique(M)
    ensures |Lefts(M)| == |M|
  {
    var m := map e | e in M :: e.node1;
    InjectionSize(m);
    assert m.Keys == M && m.Values == Lefts(M);
  }

  /** No matching is larger than a cover. */
  lemma CoverBounds(bg: BipartiteGraph, N: set<Edge>, C: set<Node>)
    requires bg.WellFormed() && IsMatching(bg, N) && Covers(C, bg.edges)
    ensures |N| <= |C|
  {
    var m := map e | e in N :: if e.node1 in C then e.node1 else e.node2;
    forall e, f | e in m && f in m && m[e] == m[f] ensures e == f {
      assert e in bg.edges && f in bg.edges;
    }
    InjectionSize(m);
    assert m.Keys == N;
    assert m.Values <= C by {
      forall e | e in N ensures m[e] in C {
        assert e in bg.edges;
      }
    }
    SubsetSize(m.Values, C);
  }

  /** The left nodes the stuck search did not use and the right nodes it did. */
  ghost function Cover(bg: BipartiteGraph, z: set<Node>): set<Node> {
    (Elements(bg.left) - z) + (Elements(bg.right) * z)
  }

  lemma CoverCovers(bg: BipartiteGraph, M: set<Edge>, z: set<Node>)
    requires bg.WellFormed() && Reachable(bg, M) && Stuck(bg, M, z)
    ensures Covers(Cover(bg, z), bg.edges)
  {
    forall e | e in bg.edges ensures e.node1 in Cover(bg, z) || e.node2 in Cover(bg, z) {
      if e.node1 in z && e in M {
        assert Touches(e, e.node1);
        var r :| r in z && Edge(e.node1, r) in M && Edge(e.node1, r) in bg.edges;
        assert e == Edge(e.node1, r);
      }
    }
  }

  ghost predicate CoveredBy(M: set<Edge>, z: set<Node>, c: Node, e: Edge) {
    e in M && ((c !in z && e.node1 == c) || (c in z && e.node2 == c && e.node1 in z))
  }

  lemma CoverSize(bg: BipartiteGraph, M: set<Edge>, z: set<Node>)
    requires bg.WellFormed() && Reachable(bg, M) && Stuck(bg, M, z)
    ensures |Cover(bg, z)| <= |M|
  {
    forall c | c in Cover(bg, z) ensures exists e :: CoveredBy(M, z, c, e) {
      assert !FreeIn(M, c);
      var e :| e in M && Touches(e, c);
      assert e in bg.edges;
      assert CoveredBy(M, z, c, e);
    }
    var m := map c | c in Cover(bg, z) :: var e :| CoveredBy(M, z, c, e); e;
    InjectionSize(m);
    assert m.Keys == Cover(bg, z);
    SubsetSize(m.Values, M);
  }

  // ---------------------------------------------------------------- main theorems

  /** Whatever starts the phases took, the result is no smaller than any matching of
      the graph, and never has more edges than left nodes. */
  lemma AtLeastAnyMatching(bg: BipartiteGraph)
    requires bg.WellFormed()
    ensures var r := Run(bg, {});
            && Reachable(bg, r) && |r| <= |bg.left|
            && (forall N | IsMatching(bg, N) :: |N| <= |r|)
            && (exists C :: Covers(C, bg.edges) && |C| <= |r|)
  {
    var r := Run(bg, {});
    RunResult(bg, {});
    MatchedLefts(r);
    LeftsBounded(bg, r);
    var z :| Stuck(bg, r, z);
    CoverCovers(bg, r, z);
    CoverSize(bg, r, z);
    forall N | IsMatching(bg, N) ensures |N| <= |r| {
      CoverBounds(bg, N, Cover(bg, z));
    }
  }

  /** The result is a matching, and then a largest one, exactly when no phase took a
      path from a right node that was already matched. */
  lemma LargestIff(bg: BipartiteGraph)
    requires bg.WellFormed()
    ensures var r := Run(bg, {});
            && (IsMatching(bg, r) <==> StartsStayFree(bg, {}))
            && (StartsStayFree(bg, {}) ==> IsMatching(bg, r) && forall N | IsMatching(bg, N) :: |N| <= |r|)
  {
    RunResult(bg, {});
    AtLeastAnyMatching(bg);
  }

  // ---------------------------------------------------------------- shortest paths

  /** p descends by guide steps from level `level` to a free left node, through any
      nodes at all. With a free right node on top this is an augmenting path. */
  ghost predicate Descent(bg: BipartiteGraph, M: set<Edge>, level: nat, p: Path)
    decreases level
  {
    && |p| == level + 1
    && p[0] in Side(bg, level)
    && if level == 0 then FreeIn(M, p[0])
       else Step(bg, M, level, p[0], p[1]) && Descent(bg, M, level - 1, p[1..])
  }

  lemma {:induction false} DescentWithinLayers(bg: BipartiteGraph, M: set<Edge>, layers: seq<Layer>, level: nat,
      p: Path)
    requires bg.WellFormed() && level < |layers| - 1 && Closed(bg, M, layers, |layers| - 1)
    requires forall n | n in bg.left && FreeIn(M, n) :: n in layers[0]
    requires forall k, n | 0 <= k < |layers| && n in layers[k] :: n in Side(bg, k)
    requires Descent(bg, M, level, p)
    ensures WithinLayers(layers, level, p[0])
    decreases level
  {
    if level > 0 {
      DescentWithinLayers(bg, M, layers, level - 1, p[1..]);
      var j :| 0 <= j < |layers| && j <= level - 1 && p[1] in layers[j];
      DescentSide(bg, M, level, p);
      SameSide(bg, p[1], j, level - 1);
      assert Leads(bg, M, j, p[1], p[0]);
      assert WithinLayers(layers, j + 1, p[0]);
    }
  }

  lemma SameSide(bg: BipartiteGraph, n: Node, j: nat, k: nat)
    requires bg.WellFormed() && n in Side(bg, j) && n in Side(bg, k)
    ensures Odd(j) == Odd(k) && Odd(j + 1) == Odd(k + 1)
  {
  }

  lemma {:induction false} DescentSide(bg: BipartiteGraph, M: set<Edge>, level: nat, p: Path)
    requires level > 0 && Descent(bg, M, level, p)
    ensures p[1] in Side(bg, level - 1)
  {
  }

  lemma GuideFacts(bg: BipartiteGraph, M: set<Edge>, layers: seq<Layer>)
    requires Guide(bg, M, layers)
    ensures Closed(bg, M, layers, |layers| - 1)
    ensures forall n | n in bg.left && FreeIn(M, n) :: n in layers[0]
    ensures forall k, n | 0 <= k < |layers| && n in layers[k] :: n in Side(bg, k)
  {
  }

  /** The guide layers are as short as they can be: every augmenting path takes at
      least as many steps as the paths of the phase. */
  lemma PhasePathsAreShortest(bg: BipartiteGraph, M: set<Edge>, level: nat, p: Path)
    requires bg.WellFormed() && GuideLayers(bg, M) != []
    requires Descent(bg, M, level, p) && p[0] in bg.right && FreeIn(M, p[0])
    ensures level >= |GuideLayers(bg, M)| - 1
  {
    GuideLayersResult(bg, M);
    var layers := GuideLayers(bg, M);
    if level < |layers| - 1 {
      GuideFacts(bg, M, layers);
      DescentWithinLayers(bg, M, layers, level, p);
      assert false;
    }
  }
}
