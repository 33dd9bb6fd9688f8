/** What one run of the matching search computes, as functions of the graph and
    the set M of edges matched so far. The methods in module Matching are proved
    to compute these functions; the theorems about them are in the theorem modules. */
module MatchingSpec {
  import opened Wrappers
  import opened Collections
  import opened Graphs

  type Layer = seq<Node>

  predicate Odd(n: int) {
    n % 2 == 1
  }

  /** The edge between u on level `level` and v on the level below; odd levels
      hold right nodes. */
  function StepEdge(level: nat, u: Node, v: Node): Edge {
    if Odd(level) then Edge(v, u) else Edge(u, v)
  }

  /** A guide step down from an odd level uses an unmatched edge, one down from
      an even level a matched edge. */
  predicate Step(bg: BipartiteGraph, M: set<Edge>, level: nat, u: Node, v: Node) {
    && StepEdge(level, u, v) in bg.edges
    && ((StepEdge(level, u, v) in M) != Odd(level))
  }

  function Side(bg: BipartiteGraph, level: nat): seq<Node> {
    if Odd(level) then bg.right else bg.left
  }

  function FreeNodes(M: set<Edge>, nodes: seq<Node>): Layer {
    if nodes == [] then []
    else (if FreeIn(M, nodes[0]) then [nodes[0]] else []) + FreeNodes(M, nodes[1..])
  }

  /** The candidates that v on level `level - 1` newly reaches. */
  function Reached(bg: BipartiteGraph, M: set<Edge>, level: nat, v: Node, candidates: seq<Node>, used: set<Node>)
    : seq<Node>
  {
    if candidates == [] then []
    else
      (if candidates[0] !in used && Step(bg, M, level, candidates[0], v) then [candidates[0]] else [])
      + Reached(bg, M, level, v, candidates[1..], used)
  }

  function NextLayer(bg: BipartiteGraph, M: set<Edge>, level: nat, last: Layer, used: set<Node>): Layer {
    if last == [] then []
    else
      var reached := Reached(bg, M, level, last[0], Side(bg, level), used);
      reached + NextLayer(bg, M, level, last[1..], used + Elements(reached))
  }

  lemma {:induction false} FreeNodesElements(M: set<Edge>, nodes: seq<Node>)
    ensures forall n :: n in FreeNodes(M, nodes) <==> n in nodes && FreeIn(M, n)
  {
    if nodes != [] {
      FreeNodesElements(M, nodes[1..]);
    }
  }

  lemma {:induction false} ReachedElements(bg: BipartiteGraph, M: set<Edge>, level: nat, v: Node,
                                           candidates: seq<Node>, used: set<Node>)
    ensures forall n :: n in Reached(bg, M, level, v, candidates, used) <==>
                          n in candidates && n !in used && Step(bg, M, level, n, v)
  {
    if candidates != [] {
      ReachedElements(bg, M, level, v, candidates[1..], used);
    }
  }

  /** A layer holds the unused nodes of its side that some node of the last layer reaches. */
  lemma {:induction false} NextLayerElements(bg: BipartiteGraph, M: set<Edge>, level: nat, last: Layer, used: set<Node>)
    ensures forall n :: n in NextLayer(bg, M, level, last, used) <==>
                          n in Side(bg, level) && n !in used && exists v | v in last :: Step(bg, M, level, n, v)
  {
    if last != [] {
      var reached := Reached(bg, M, level, last[0], Side(bg, level), used);
      ReachedElements(bg, M, level, last[0], Side(bg, level), used);
      NextLayerElements(bg, M, level, last[1..], used + Elements(reached));
    }
  }

  function Unused(bg: BipartiteGraph, used: set<Node>): set<Node> {
    Elements(bg.left + bg.right) - used
  }

  predicate HasFree(M: set<Edge>, layer: Layer) {
    exists n | n in layer :: FreeIn(M, n)
  }

  /** Breadth-first growth of the layers until a right layer holds a free node
      (the grown layers are the guide) or a layer is empty (there is no guide). */
  function GrowLayers(bg: BipartiteGraph, M: set<Edge>, layers: seq<Layer>, used: set<Node>): (guide: seq<Layer>)
    requires |layers| > 0
    decreases |Unused(bg, used)|
  {
    var next := NextLayer(bg, M, |layers|, layers[|layers| - 1], used);
    if next == [] then []
    else if Odd(|layers|) && HasFree(M, next) then layers + [next]
    else
      UnusedShrinks(bg, M, |layers|, layers[|layers| - 1], used);
      GrowLayers(bg, M, layers + [next], used + Elements(next))
  }

  lemma UnusedShrinks(bg: BipartiteGraph, M: set<Edge>, level: nat, last: Layer, used: set<Node>)
    requires NextLayer(bg, M, level, last, used) != []
    ensures |Unused(bg, used + Elements(NextLayer(bg, M, level, last, used)))| < |Unused(bg, used)|
  {
    var next := NextLayer(bg, M, level, last, used);
    NextLayerElements(bg, M, level, last, used);
    assert next[0] in next;
    assert Unused(bg, used + Elements(next)) < Unused(bg, used);
    SmallerSet(Unused(bg, used + Elements(next)), Unused(bg, used));
  }

  lemma {:induction false} SmallerSet<T>(a: set<T>, b: set<T>)
    requires a < b
    ensures |a| < |b|
  {
    assert b == a + (b - a);
  }

  function GuideLayers(bg: BipartiteGraph, M: set<Edge>): seq<Layer> {
    var free := FreeNodes(M, bg.left);
    if free == [] then [] else GrowLayers(bg, M, [free], Elements(free))
  }

  type Path = seq<Node>

  /** Depth-first search from u on level `level` down to level 0, avoiding used. */
  function Search(bg: BipartiteGraph, M: set<Edge>, layers: seq<Layer>, level: nat, u: Node, used: set<Node>)
    : (path: Option<Path>)
    requires level < |layers|
    ensures path.Some? ==> |path.value| == level + 1 && path.value[0] == u
    decreases level, |layers| + 1, 0
  {
    if level == 0 then Some([u])
    else SearchFrom(bg, M, layers, level, u, layers[level - 1], used + {u})
  }

  /** The same search once only `candidates` of the layer below remain to be tried. */
  function SearchFrom(bg: BipartiteGraph, M: set<Edge>, layers: seq<Layer>, level: nat, u: Node,
                      candidates: seq<Node>, used: set<Node>)
    : (path: Option<Path>)
    requires 0 < level < |layers|
    ensures path.Some? ==> |path.value| == level + 1 && path.value[0] == u
    decreases level, 0, |candidates|
  {
    if candidates == [] then None
    else
      var below := if candidates[0] !in used && Step(bg, M, level, u, candidates[0])
                   then Search(bg, M, layers, level - 1, candidates[0], used) else None;
      if below.Some? then Some([u] + below.value)
      else SearchFrom(bg, M, layers, level, u, candidates[1..], used)
  }

  /** The paths found from the given starts; each one blocks its nodes for the next. */
  function Collect(bg: BipartiteGraph, M: set<Edge>, layers: seq<Layer>, starts: seq<Node>, used: set<Node>)
    : seq<Path>
    requires |layers| > 0
  {
    if starts == [] then []
    else
      match Search(bg, M, layers, |layers| - 1, starts[0], used)
      case None => Collect(bg, M, layers, starts[1..], used)
      case Some(p) => [p] + Collect(bg, M, layers, starts[1..], used + Elements(p))
  }

  /** The collection of paths of one phase. */
  function Phase(bg: BipartiteGraph, M: set<Edge>): seq<Path> {
    var layers := GuideLayers(bg, M);
    if layers == [] then [] else Collect(bg, M, layers, layers[|layers| - 1], {})
  }

  /** The edges of a path that starts on level `level`. */
  function PathEdges(level: nat, p: Path): EdgeSet
    requires |p| <= level + 1
  {
    if |p| < 2 then [] else [StepEdge(level, p[0], p[1])] + PathEdges(level - 1, p[1..])
  }

  /** The paths of a phase run from an odd level all the way down to level 0. */
  function SlapEdges(p: Path): EdgeSet {
    if p == [] then [] else PathEdges(|p| - 1, p)
  }

  function ToggleAll(M: set<Edge>, paths: seq<Path>): set<Edge>
    decreases |paths|
  {
    if paths == [] then M else ToggleAll(Toggle(M, Elements(SlapEdges(paths[0]))), paths[1..])
  }

  /** The matched edges after one phase. */
  function AfterPhase(bg: BipartiteGraph, M: set<Edge>): set<Edge> {
    ToggleAll(M, Phase(bg, M))
  }
}
