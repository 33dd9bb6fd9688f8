/** The matching algorithm as the code runs it, proved to compute the functions of
    MatchingSpec. */
module Matching {
  import opened Wrappers
  import opened Collections
  import opened Graphs
  import opened MatchingSpec
  import opened MatchingAugment
  import opened MatchingLayers
  import opened MatchingPaths
  import opened MatchingTheorems

  /** The shared map of used nodes that the search marks and unmarks, as the set of
      the nodes it maps to true. */
  class Marks {
    var used: set<Node>

    constructor ()
      ensures used == {}
    {
      used := {};
    }

    method Set(n: Node, value: bool)
      modifies this
      ensures used == if value then old(used) + {n} else old(used) - {n}
    {
      used := if value then used + {n} else used - {n};
    }
  }

  ghost predicate OnSides(bg: BipartiteGraph, layers: seq<Layer>) {
    forall k, n | 0 <= k < |layers| && n in layers[k] :: n in Side(bg, k)
  }

  /** Between neighbouring levels FindByNodes finds exactly the step edge. */
  lemma FoundEdge(bg: BipartiteGraph, level: nat, u: Node, v: Node)
    requires bg.WellFormed() && level > 0 && u in Side(bg, level) && v in Side(bg, level - 1)
    ensures forall e | e in bg.edges :: Joins(e, u, v) <==> e == StepEdge(level, u, v)
  {
  }

  lemma {:induction false} PathEdgesNodes(level: nat, p: Path)
    requires |p| <= level + 1
    ensures forall e | e in PathEdges(level, p) :: e.node1 in p && e.node2 in p
  {
    if |p| >= 2 {
      PathEdgesNodes(level - 1, p[1..]);
    }
  }

  method FindDisjointSLAPHelper(bg: BipartiteGraph, currentNode: Node, prefix: EdgeSet, currentLevel: nat,
                                matching: EdgeSet, guideLayers: seq<Layer>, marks: Marks)
    returns (slap: EdgeSet, found: bool)
    requires bg.WellFormed() && OnSides(bg, guideLayers)
    requires currentLevel < |guideLayers| && currentNode in Side(bg, currentLevel) && currentNode !in marks.used
    modifies marks
    ensures var path := Search(bg, Elements(matching), guideLayers, currentLevel, currentNode, old(marks.used));
            && found == path.Some?
            && (found ==> slap == prefix + PathEdges(currentLevel, path.value)
                          && marks.used == old(marks.used) + Elements(path.value))
            && (!found ==> marks.used == old(marks.used))
    decreases currentLevel
  {
    ghost var M := Elements(matching);
    ghost var path := Search(bg, M, guideLayers, currentLevel, currentNode, marks.used);
    marks.Set(currentNode, true);
    if currentLevel == 0 {
      return prefix, true;
    }
    var currentSLAP := prefix;
    var below := guideLayers[currentLevel - 1];
    for i := 0 to |below|
      invariant marks.used == old(marks.used) + {currentNode}
      invariant currentSLAP == prefix
      invariant path == SearchFrom(bg, M, guideLayers, currentLevel, currentNode, below[i..], marks.used)
    {
      var nextNode := below[i];
      assert below[i..][0] == nextNode && below[i..][1..] == below[i + 1..];
      assert nextNode in guideLayers[currentLevel - 1];
      if nextNode in marks.used {
        continue;
      }
      var edge := FindByNodes(bg.edges, currentNode, nextNode);
      FoundEdge(bg, currentLevel, currentNode, nextNode);
      if edge.None? {
        continue;
      }
      var matched := Contains(matching, edge.value);
      if matched == Odd(currentLevel) {
        continue;
      }
      currentSLAP := currentSLAP + [edge.value];
      slap, found := FindDisjointSLAPHelper(bg, nextNode, currentSLAP, currentLevel - 1, matching, guideLayers, marks);
      if found {
        assert path.value[1..] ==
               Search(bg, M, guideLayers, currentLevel - 1, nextNode, old(marks.used) + {currentNode}).value;
        return;
      }
      currentSLAP := currentSLAP[..|currentSLAP| - 1];
    }
    marks.Set(currentNode, false);
    return [], false;
  }

  // One iteration of each loop, against the function that specifies the loop.

  lemma ReachedStep(bg: BipartiteGraph, M: set<Edge>, level: nat, v: Node, side: seq<Node>, j: nat, used: set<Node>,
                    sofar: Layer)
    requires j < |side|
    ensures var rest := Reached(bg, M, level, v, side[j + 1..], used);
            sofar + Reached(bg, M, level, v, side[j..], used)
            == if side[j] !in used && Step(bg, M, level, side[j], v) then sofar + [side[j]] + rest else sofar + rest
  {
    assert side[j..][0] == side[j] && side[j..][1..] == side[j + 1..];
    assert sofar + ([side[j]] + Reached(bg, M, level, v, side[j + 1..], used))
        == sofar + [side[j]] + Reached(bg, M, level, v, side[j + 1..], used);
  }

  lemma NextLayerStep(bg: BipartiteGraph, M: set<Edge>, level: nat, last: Layer, i: nat, used: set<Node>, sofar: Layer)
    requires i < |last|
    ensures var reached := Reached(bg, M, level, last[i], Side(bg, level), used);
            sofar + NextLayer(bg, M, level, last[i..], used)
            == sofar + reached + NextLayer(bg, M, level, last[i + 1..], used + Elements(reached))
  {
    assert last[i..][0] == last[i] && last[i..][1..] == last[i + 1..];
  }

  lemma FreeNodesStep(M: set<Edge>, nodes: seq<Node>, i: nat, sofar: Layer)
    requires i < |nodes|
    ensures sofar + FreeNodes(M, nodes[i..])
         == if FreeIn(M, nodes[i]) then sofar + [nodes[i]] + FreeNodes(M, nodes[i + 1..])
            else sofar + FreeNodes(M, nodes[i + 1..])
  {
    assert nodes[i..][0] == nodes[i] && nodes[i..][1..] == nodes[i + 1..];
  }

  lemma CollectStep(bg: BipartiteGraph, M: set<Edge>, layers: seq<Layer>, starts: seq<Node>, i: nat, used: set<Node>,
                    sofar: seq<Path>)
    requires |layers| > 0 && i < |starts|
    ensures var found := Search(bg, M, layers, |layers| - 1, starts[i], used);
            sofar + Collect(bg, M, layers, starts[i..], used)
            == if found.Some?
               then sofar + [found.value] + Collect(bg, M, layers, starts[i + 1..], used + Elements(found.value))
               else sofar + Collect(bg, M, layers, starts[i + 1..], used)
  {
    assert starts[i..][0] == starts[i] && starts[i..][1..] == starts[i + 1..];
  }

  /** The inner breadth-first loop: the nodes on the far side that v newly reaches,
      and whether a free right node is among them. */
  method ReachFrom(bg: BipartiteGraph, matching: EdgeSet, level: nat, v: Node, marks: Marks)
    returns (reached: Layer, done: bool)
    requires bg.WellFormed() && level > 0 && v in Side(bg, level - 1)
    modifies marks
    ensures reached == Reached(bg, Elements(matching), level, v, Side(bg, level), old(marks.used))
    ensures marks.used == old(marks.used) + Elements(reached)
    ensures done <==> Odd(level) && HasFree(Elements(matching), reached)
  {
    ghost var M, used := Elements(matching), marks.used;
    var side := Side(bg, level);
    reached, done := [], false;
    for j := 0 to |side|
      invariant forall k | j <= k < |side| :: side[k] !in reached
      invariant reached + Reached(bg, M, level, v, side[j..], used) == Reached(bg, M, level, v, side, used)
      invariant marks.used == used + Elements(reached)
      invariant done <==> Odd(level) && HasFree(M, reached)
    {
      var node := side[j];
      ReachedStep(bg, M, level, v, side, j, used, reached);
      if node in marks.used {
        continue;
      }
      var edge := FindByNodes(bg.edges, node, v);
      FoundEdge(bg, level, node, v);
      if edge.None? {
        continue;
      }
      var matched := Contains(matching, edge.value);
      if matched == Odd(level) {
        continue;
      }
      HasFreeAppend(M, reached, node);
      ElementsConcat(reached, [node]);
      reached := reached + [node];
      marks.Set(node, true);
      if Odd(level) {
        var free := Free(matching, node);
        done := done || free;
      }
    }
  }

  lemma HasFreeAppend(M: set<Edge>, layer: Layer, n: Node)
    ensures HasFree(M, layer + [n]) <==> HasFree(M, layer) || FreeIn(M, n)
  {
    HasFreeConcat(M, layer, [n]);
    assert n in [n];
  }

  lemma HasFreeConcat(M: set<Edge>, a: Layer, b: Layer)
    ensures HasFree(M, a + b) <==> HasFree(M, a) || HasFree(M, b)
  {
    forall m ensures m in a + b <==> m in a || m in b {}
  }

  /** One pass of the breadth-first loop. */
  method NextGuideLayer(bg: BipartiteGraph, matching: EdgeSet, lastLayer: Layer, level: nat, marks: Marks)
    returns (currentLayer: Layer, done: bool)
    requires bg.WellFormed() && level > 0 && forall i | 0 <= i < |lastLayer| :: lastLayer[i] in Side(bg, level - 1)
    modifies marks
    ensures currentLayer == NextLayer(bg, Elements(matching), level, lastLayer, old(marks.used))
    ensures marks.used == old(marks.used) + Elements(currentLayer)
    ensures done <==> Odd(level) && HasFree(Elements(matching), currentLayer)
  {
    ghost var M, used := Elements(matching), marks.used;
    currentLayer, done := [], false;
    for i := 0 to |lastLayer|
      invariant marks.used == used + Elements(currentLayer)
      invariant currentLayer + NextLayer(bg, M, level, lastLayer[i..], marks.used)
             == NextLayer(bg, M, level, lastLayer, used)
      invariant done <==> Odd(level) && HasFree(M, currentLayer)
    {
      NextLayerStep(bg, M, level, lastLayer, i, marks.used, currentLayer);
      var reached, free := ReachFrom(bg, matching, level, lastLayer[i], marks);
      HasFreeConcat(M, currentLayer, reached);
      ElementsConcat(currentLayer, reached);
      currentLayer, done := currentLayer + reached, done || free;
    }
  }

  method FreeLeft(bg: BipartiteGraph, matching: EdgeSet, marks: Marks) returns (layer: Layer)
    requires marks.used == {}
    modifies marks
    ensures layer == FreeNodes(Elements(matching), bg.left)
    ensures marks.used == Elements(layer)
  {
    ghost var M := Elements(matching);
    layer := [];
    for i := 0 to |bg.left|
      invariant layer + FreeNodes(M, bg.left[i..]) == FreeNodes(M, bg.left)
      invariant marks.used == Elements(layer)
    {
      FreeNodesStep(M, bg.left, i, layer);
      var free := Free(matching, bg.left[i]);
      if free {
        marks.Set(bg.left[i], true);
        layer := layer + [bg.left[i]];
      }
    }
  }

  lemma LayerOnSide(bg: BipartiteGraph, M: set<Edge>, level: nat, last: Layer, used: set<Node>)
    ensures var next := NextLayer(bg, M, level, last, used);
            forall i | 0 <= i < |next| :: next[i] in Side(bg, level)
  {
    NextLayerElements(bg, M, level, last, used);
  }

  lemma GuideShape(bg: BipartiteGraph, M: set<Edge>)
    requires bg.WellFormed() && GuideLayers(bg, M) != []
    ensures var layers := GuideLayers(bg, M);
            |layers| >= 2 && OnSides(bg, layers) && LayersDisjoint(layers)
  {
    GuideLayersResult(bg, M);
    GuideFacts(bg, M, GuideLayers(bg, M));
    GuideIsLayered(bg, M, GuideLayers(bg, M));
  }

  method CreateSLAPGuideLayers(bg: BipartiteGraph, matching: EdgeSet) returns (guideLayers: seq<Layer>)
    requires bg.WellFormed()
    ensures guideLayers == GuideLayers(bg, Elements(matching))
  {
    ghost var M := Elements(matching);
    var marks := new Marks();
    var currentLayer := FreeLeft(bg, matching, marks);
    FreeNodesElements(M, bg.left);
    if |currentLayer| == 0 {
      return [];
    }
    guideLayers := [currentLayer];
    var done := false;
    while !done
      invariant |guideLayers| > 0 && guideLayers[|guideLayers| - 1] == currentLayer
      invariant forall i | 0 <= i < |currentLayer| :: currentLayer[i] in Side(bg, |guideLayers| - 1)
      invariant GuideLayers(bg, M) ==
                if done then guideLayers else GrowLayers(bg, M, guideLayers, marks.used)
      decreases !done, |Unused(bg, marks.used)|
    {
      var lastLayer, used := currentLayer, marks.used;
      currentLayer, done := NextGuideLayer(bg, matching, lastLayer, |guideLayers|, marks);
      if |currentLayer| == 0 {
        return [];
      }
      UnusedShrinks(bg, M, |guideLayers|, lastLayer, used);
      LayerOnSide(bg, M, |guideLayers|, lastLayer, used);
      guideLayers := guideLayers + [currentLayer];
    }
  }

  /** The edges of the paths, one edge set a path. */
  ghost predicate EdgesOf(result: seq<EdgeSet>, paths: seq<Path>) {
    |result| == |paths| && forall i | 0 <= i < |paths| :: result[i] == SlapEdges(paths[i])
  }

  lemma EdgesOfAppend(result: seq<EdgeSet>, paths: seq<Path>, path: Path)
    requires EdgesOf(result, paths)
    ensures EdgesOf(result + [SlapEdges(path)], paths + [path])
  {
  }

  ghost predicate NoneUsedFrom(starts: seq<Node>, i: nat, used: set<Node>) {
    forall k | i <= k < |starts| :: starts[k] !in used
  }

  lemma LaterStartsStayUnused(bg: BipartiteGraph, M: set<Edge>, layers: seq<Layer>, starts: seq<Node>, i: nat,
                              used: set<Node>)
    requires |layers| > 0 && LayersDisjoint(layers) && starts == layers[|layers| - 1]
    requires i < |starts| && NoneUsedFrom(starts, i, used)
    requires Search(bg, M, layers, |layers| - 1, starts[i], used).Some?
    ensures NoneUsedFrom(starts, i + 1, used + Elements(Search(bg, M, layers, |layers| - 1, starts[i], used).value))
  {
    OneStartAPath(bg, M, layers, starts, i, used);
  }

  method MaximalDisjointSLAPCollection(bg: BipartiteGraph, matching: EdgeSet) returns (result: seq<EdgeSet>)
    requires bg.WellFormed() && Reachable(bg, Elements(matching))
    ensures EdgesOf(result, Phase(bg, Elements(matching)))
  {
    ghost var M := Elements(matching);
    result := [];
    var guideLayers := CreateSLAPGuideLayers(bg, matching);
    if |guideLayers| == 0 {
      return;
    }
    var top := |guideLayers| - 1;
    GuideShape(bg, M);
    var marks := new Marks();
    ghost var paths: seq<Path> := [];
    var starts := guideLayers[top];
    for i := 0 to |starts|
      invariant EdgesOf(result, paths)
      invariant NoneUsedFrom(starts, i, marks.used)
      invariant paths + Collect(bg, M, guideLayers, starts[i..], marks.used) == Phase(bg, M)
    {
      CollectStep(bg, M, guideLayers, starts, i, marks.used, paths);
      ghost var used := marks.used;
      var slap, found := TryStart(bg, matching, guideLayers, starts, i, marks);
      if found {
        ghost var path := Search(bg, M, guideLayers, top, starts[i], used).value;
        EdgesOfAppend(result, paths, path);
        result := result + [slap];
        paths := paths + [path];
      }
    }
  }

  /** One round: a path from the start, if there is one, with its nodes marked. */
  method TryStart(bg: BipartiteGraph, matching: EdgeSet, guideLayers: seq<Layer>, starts: seq<Node>, i: nat,
                  marks: Marks)
    returns (slap: EdgeSet, found: bool)
    requires bg.WellFormed() && OnSides(bg, guideLayers) && |guideLayers| > 0 && LayersDisjoint(guideLayers)
    requires starts == guideLayers[|guideLayers| - 1] && i < |starts| && NoneUsedFrom(starts, i, marks.used)
    modifies marks
    ensures var path := Search(bg, Elements(matching), guideLayers, |guideLayers| - 1, starts[i], old(marks.used));
            && found == path.Some?
            && (found ==> slap == SlapEdges(path.value) && marks.used == old(marks.used) + Elements(path.value))
            && (!found ==> marks.used == old(marks.used))
    ensures NoneUsedFrom(starts, i + 1, marks.used)
  {
    var top := |guideLayers| - 1;
    ghost var path := Search(bg, Elements(matching), guideLayers, top, starts[i], marks.used);
    ghost var used := marks.used;
    slap, found := FindDisjointSLAPHelper(bg, starts[i], [], top, matching, guideLayers, marks);
    if found {
      MarkEdges(slap, marks, top, path.value);
      LaterStartsStayUnused(bg, Elements(matching), guideLayers, starts, i, used);
    }
  }

  /** Marking both ends of every edge of a found path marks nothing new. */
  method MarkEdges(slap: EdgeSet, marks: Marks, ghost level: nat, ghost path: Path)
    requires |path| == level + 1 && slap == PathEdges(level, path) && Elements(path) <= marks.used
    modifies marks
    ensures marks.used == old(marks.used)
  {
    PathEdgesNodes(level, path);
    for j := 0 to |slap|
      invariant marks.used == old(marks.used)
    {
      assert slap[j] in slap;
      marks.Set(slap[j].node1, true);
      marks.Set(slap[j].node2, true);
    }
  }

  /** For every graph: no matching is larger, every left node keeps to one edge, and
      the result is itself a matching exactly when all path starts stayed free. */
  method LargestMatching(bg: BipartiteGraph) returns (matching: EdgeSet)
    requires bg.WellFormed()
    ensures Distinct(matching) && Elements(matching) == Run(bg, {})
    ensures |matching| == |Run(bg, {})| <= |bg.left|
    ensures forall N | IsMatching(bg, N) :: |N| <= |matching|
    ensures IsMatching(bg, Elements(matching)) <==> StartsStayFree(bg, {})
  {
    matching := [];
    assert Elements(matching) == {};
    var paths := MaximalDisjointSLAPCollection(bg, matching);
    while |paths| > 0
      invariant Distinct(matching)
      invariant Reachable(bg, Elements(matching)) && Run(bg, Elements(matching)) == Run(bg, {})
      invariant EdgesOf(paths, Phase(bg, Elements(matching)))
      decreases |bg.left| - |Lefts(Elements(matching))|
    {
      RunStep(bg, Elements(matching));
      matching := TogglePaths(bg, matching, paths);
      paths := MaximalDisjointSLAPCollection(bg, matching);
    }
    RunSummary(bg, matching);
  }

  lemma RunSummary(bg: BipartiteGraph, matching: EdgeSet)
    requires bg.WellFormed() && Distinct(matching) && Elements(matching) == Run(bg, {})
    ensures |matching| == |Run(bg, {})| <= |bg.left|
    ensures forall N | IsMatching(bg, N) :: |N| <= |matching|
    ensures IsMatching(bg, Elements(matching)) <==> StartsStayFree(bg, {})
  {
    DistinctSize(matching);
    AtLeastAnyMatching(bg);
    LargestIff(bg);
  }

  lemma RunStep(bg: BipartiteGraph, M: set<Edge>)
    requires bg.WellFormed() && Reachable(bg, M) && Phase(bg, M) != []
    ensures Reachable(bg, AfterPhase(bg, M)) && Run(bg, AfterPhase(bg, M)) == Run(bg, M)
    ensures |Lefts(M)| < |Lefts(AfterPhase(bg, M))| <= |bg.left|
  {
    PhaseStep(bg, M);
  }

  /** The loop over the paths of one phase. */
  method TogglePaths(bg: BipartiteGraph, before: EdgeSet, paths: seq<EdgeSet>) returns (matching: EdgeSet)
    requires bg.WellFormed() && Reachable(bg, Elements(before)) && Distinct(before)
    requires EdgesOf(paths, Phase(bg, Elements(before)))
    ensures Distinct(matching) && Elements(matching) == AfterPhase(bg, Elements(before))
  {
    ghost var M := Elements(before);
    ghost var phase := Phase(bg, M);
    matching := before;
    PhaseResult(bg, M);
    for i := 0 to |paths|
      invariant Distinct(matching)
      invariant ToggleAll(Elements(matching), phase[i..]) == AfterPhase(bg, M)
    {
      assert phase[i..][0] == phase[i] && phase[i..][1..] == phase[i + 1..];
      var toggled := SymmetricDifference(matching, paths[i]);
      assert Slap(bg, M, phase[i]);
      SurvivorsOfDistinct(matching, paths[i], toggled);
      matching := toggled;
    }
  }
}
