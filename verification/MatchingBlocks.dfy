/** Graphs that fall into complete blocks, as those of an equality do: one phase settles
    them, so no path is ever started from a matched node. */
module MatchingBlocks {
  import opened Wrappers
  import opened Collections
  import opened Graphs
  import opened MatchingSpec
  import opened MatchingLayers
  import opened MatchingPaths
  import opened MatchingAugment
  import opened MatchingTheorems

  /** Left nodes with a common neighbour have all their neighbours in common. */
  ghost predicate Blocks(edges: seq<Edge>) {
    forall v, v', w, w' | Edge(v, w) in edges && Edge(v', w) in edges && Edge(v, w') in edges :: Edge(v', w') in edges
  }

  /** A guide path stays in the block of the left node that it leads down to. */
  lemma {:induction false} PathInBlock(bg: BipartiteGraph, M: set<Edge>, layers: seq<Layer>, level: nat, p: Path)
    requires Blocks(bg.edges) && GuidePath(bg, M, layers, level, p)
    ensures Odd(level) ==> Edge(p[level], p[0]) in bg.edges
    ensures level > 0 && !Odd(level) ==> exists r :: Edge(p[level], r) in bg.edges && Edge(p[0], r) in bg.edges
    decreases level
  {
    if level > 0 {
      PathInBlock(bg, M, layers, level - 1, p[1..]);
      assert p[1..][level - 1] == p[level] && p[1..][0] == p[1];
      if level > 1 && Odd(level) {
        var r :| Edge(p[level], r) in bg.edges && Edge(p[1], r) in bg.edges;
        assert Edge(p[1], p[0]) in bg.edges;
      }
    }
  }

  /** The guide layers of the first phase are the left nodes and their neighbours. */
  lemma FirstLayers(bg: BipartiteGraph, l: Node, r: Node)
    requires bg.WellFormed() && Edge(l, r) in bg.edges
    ensures var layers := GuideLayers(bg, {});
            |layers| == 2 && GuidePath(bg, {}, layers, 1, [r, l])
  {
    var layers := GuideLayers(bg, {});
    GuideLayersResult(bg, {});
    if layers == [] {
      var z :| Stuck(bg, {}, z);
      NotStuckAtFirst(bg, z, l, r);
    }
    var used :| Grown(bg, {}, layers, used);
    OnlyTwoLayers(bg, layers, used);
    assert l in layers[0];
    assert Leads(bg, {}, 0, l, r);
    var j :| 0 <= j < 2 && r in layers[j];
    assert r in Side(bg, j);
    assert [r, l][1..] == [l];
  }

  lemma NotStuckAtFirst(bg: BipartiteGraph, z: set<Node>, l: Node, r: Node)
    requires bg.WellFormed() && Edge(l, r) in bg.edges
    ensures !Stuck(bg, {}, z)
  {
    assert FreeIn({}, l) && FreeIn({}, r);
    assert Edge(l, r).node1 == l && Edge(l, r).node2 == r;
  }

  lemma SecondLayerNode(bg: BipartiteGraph, layers: seq<Layer>, used: set<Node>) returns (n: Node)
    requires |layers| > 1 && Grown(bg, {}, layers, used)
    ensures n in layers[1] && n in bg.right && FreeIn({}, n)
  {
    n := layers[1][0];
    assert n in layers[1] && n in Side(bg, 1);
  }

  lemma OnlyTwoLayers(bg: BipartiteGraph, layers: seq<Layer>, used: set<Node>)
    requires Guide(bg, {}, layers) && Grown(bg, {}, layers, used)
    ensures |layers| == 2
  {
    var n := SecondLayerNode(bg, layers, used);
  }

  /** An edge of one path of a phase, and of no other, is matched after it. */
  lemma {:induction false} ToggledOnce(M: set<Edge>, paths: seq<Path>, j: nat, e: Edge)
    requires j < |paths| && e in SlapEdges(paths[j]) && e !in M
    requires forall k | 0 <= k < |paths| && k != j :: e !in SlapEdges(paths[k])
    ensures e in ToggleAll(M, paths)
    decreases |paths|
  {
    var M' := Toggle(M, Elements(SlapEdges(paths[0])));
    if j == 0 {
      NeverToggled(M', paths[1..], e);
    } else {
      ToggledOnce(M', paths[1..], j - 1, e);
    }
  }

  lemma {:induction false} NeverToggled(M: set<Edge>, paths: seq<Path>, e: Edge)
    requires e in M && forall k | 0 <= k < |paths| :: e !in SlapEdges(paths[k])
    ensures e in ToggleAll(M, paths)
    decreases |paths|
  {
    if paths != [] {
      NeverToggled(Toggle(M, Elements(SlapEdges(paths[0]))), paths[1..], e);
    }
  }

  lemma FirstPathIsAnEdge(bg: BipartiteGraph, p: Path)
    requires bg.WellFormed() && |GuideLayers(bg, {})| == 2 && p in Phase(bg, {})
    ensures |p| == 2 && SlapEdges(p) == [Edge(p[1], p[0])]
  {
    var layers := GuideLayers(bg, {});
    GuideLayersResult(bg, {});
    GuideIsLayered(bg, {}, layers);
    CollectResult(bg, {}, layers, layers[1], {});
    assert PathEdges(0, p[1..]) == [];
  }

  lemma EdgeOfNoOther(bg: BipartiteGraph, paths: seq<Path>, j: nat, k: nat, e: Edge)
    requires j < |paths| && k < |paths| && j != k && Disjoint(paths) && AllSlaps(bg, {}, paths)
    requires e.node1 in paths[j]
    ensures e !in SlapEdges(paths[k])
  {
    assert Slap(bg, {}, paths[k]);
    assert Elements(paths[k]) !! Elements(paths[j]);
    assert e.node1 in Elements(paths[j]);
    assert e.node1 !in Elements(paths[k]);
  }

  /** The paths of the first phase are single edges, and all of them are matched after it. */
  lemma FirstPathIsMatched(bg: BipartiteGraph, p: Path)
    requires bg.WellFormed() && |GuideLayers(bg, {})| == 2 && p in Phase(bg, {})
    ensures |p| == 2 && Edge(p[1], p[0]) in AfterPhase(bg, {})
  {
    var paths := Phase(bg, {});
    PhaseResult(bg, {});
    FirstPathIsAnEdge(bg, p);
    var e := Edge(p[1], p[0]);
    var j :| 0 <= j < |paths| && paths[j] == p;
    forall k | 0 <= k < |paths| && k != j
      ensures e !in SlapEdges(paths[k])
    {
      EdgeOfNoOther(bg, paths, j, k, e);
    }
    ToggledOnce({}, paths, j, e);
  }

  lemma MaximalMeets(bg: BipartiteGraph, M: set<Edge>, layers: seq<Layer>, q: Path)
    requires PhaseMaximal(bg, M) && layers == GuideLayers(bg, M) && layers != []
    requires GuidePath(bg, M, layers, |layers| - 1, q)
    ensures Meets(Phase(bg, M), q)
  {
  }

  lemma MeetingNode(paths: seq<Path>, q: Path) returns (p: Path, n: Node)
    requires Meets(paths, q)
    ensures p in paths && n in p && n in q
  {
    p :| p in paths && !(Elements(q) !! Elements(p));
    n :| n in Elements(q) && n in Elements(p);
  }

  /** The first phase leaves no edge both of whose nodes are free. */
  lemma FirstPhaseMatches(bg: BipartiteGraph, l: Node, r: Node)
    requires bg.WellFormed() && Edge(l, r) in bg.edges
    ensures !FreeIn(AfterPhase(bg, {}), l) || !FreeIn(AfterPhase(bg, {}), r)
  {
    FirstPhaseMeets(bg, l, r);
    var p, n := MeetingNode(Phase(bg, {}), [r, l]);
    FirstPathIsMatched(bg, p);
    NotFreeOnPath(AfterPhase(bg, {}), p, n);
    assert n == r || n == l;
  }

  lemma FirstPhaseMeets(bg: BipartiteGraph, l: Node, r: Node)
    requires bg.WellFormed() && Edge(l, r) in bg.edges
    ensures |GuideLayers(bg, {})| == 2 && Meets(Phase(bg, {}), [r, l])
  {
    FirstLayers(bg, l, r);
    PhaseResult(bg, {});
    MaximalMeets(bg, {}, GuideLayers(bg, {}), [r, l]);
  }

  lemma NotFreeOnPath(M: set<Edge>, p: Path, n: Node)
    requires |p| == 2 && Edge(p[1], p[0]) in M && n in p
    ensures !FreeIn(M, n)
  {
    assert Touches(Edge(p[1], p[0]), n);
  }

  /** A guide path from a free right node down to a free left one. */
  lemma FreePath(bg: BipartiteGraph, M: set<Edge>, layers: seq<Layer>) returns (p: Path)
    requires bg.WellFormed() && layers == GuideLayers(bg, M) && layers != []
    ensures var top := |layers| - 1;
            && Odd(top) && GuidePath(bg, M, layers, top, p)
            && FreeIn(M, p[0]) && FreeIn(M, p[top])
  {
    GuideLayersResult(bg, M);
    GuideIsPreceded(bg, M, layers);
    GuideIsLayered(bg, M, layers);
    var top := |layers| - 1;
    var r :| r in layers[top] && FreeIn(M, r);
    p := Descend(bg, M, layers, top, r);
    GuidePathEnd(bg, M, layers, top, p);
  }

  /** In a graph of blocks nothing is left to do after one phase. */
  lemma SecondPhaseIsEmpty(bg: BipartiteGraph)
    requires bg.WellFormed() && Blocks(bg.edges)
    ensures GuideLayers(bg, AfterPhase(bg, {})) == []
  {
    var M := AfterPhase(bg, {});
    var layers := GuideLayers(bg, M);
    if layers != [] {
      var p := FreePath(bg, M, layers);
      PathInBlock(bg, M, layers, |layers| - 1, p);
      FirstPhaseMatches(bg, p[|layers| - 1], p[0]);
      assert false;
    }
  }

  /** In a graph of blocks every path starts in a free node, so the result is a largest
      matching. */
  lemma BlocksStayFree(bg: BipartiteGraph)
    requires bg.WellFormed() && Blocks(bg.edges)
    ensures StartsStayFree(bg, {}) && IsMatching(bg, Run(bg, {}))
  {
    PhaseResult(bg, {});
    PhaseStep(bg, {});
    SecondPhaseIsEmpty(bg);
    forall i | 0 <= i < |Phase(bg, {})|
      ensures StartFree({}, Phase(bg, {})[i])
    {
      assert Slap(bg, {}, Phase(bg, {})[i]);
    }
    LargestIff(bg);
  }
}
