/** What toggling augmenting paths does to a set of matched edges: every left node
    keeps at most one edge, one left node more is matched, and the right nodes stay
    matched at most once exactly if the path starts in a free right node. */
module MatchingAugment {
  import opened Collections
  import opened Graphs
  import opened MatchingSpec
  import opened MatchingLayers
  import opened MatchingPaths

  ghost predicate LeftUnique(M: set<Edge>) {
    forall e, f | e in M && f in M && e.node1 == f.node1 :: e == f
  }

  ghost predicate RightUnique(M: set<Edge>) {
    forall e, f | e in M && f in M && e.node2 == f.node2 :: e == f
  }

  /** The sets of matched edges the search passes through. */
  ghost predicate Reachable(bg: BipartiteGraph, M: set<Edge>) {
    M <= Elements(bg.edges) && LeftUnique(M)
  }

  ghost predicate IsMatching(bg: BipartiteGraph, M: set<Edge>) {
    Reachable(bg, M) && RightUnique(M)
  }

  function Lefts(M: set<Edge>): set<Node> {
    set e | e in M :: e.node1
  }

  function Rights(M: set<Edge>): set<Node> {
    set e | e in M :: e.node2
  }

  /** P alternates with respect to M from the right node `start` to the free left
      node `end`: its unmatched edges pair up the nodes of its matched edges anew,
      and `start` and `end` besides. */
  ghost predicate Alternates(bg: BipartiteGraph, M: set<Edge>, P: set<Edge>, start: Node, end: Node) {
    && P <= Elements(bg.edges)
    && LeftUnique(P - M) && RightUnique(P - M) && RightUnique(P * M)
    && Lefts(P - M) == Lefts(P * M) + {end}
    && Rights(P - M) == Rights(P * M) + {start} && start !in Rights(P * M)
    && end in bg.left && FreeIn(M, end)
    && start in bg.right
  }

  // ------------------------------------------------- guide paths alternate

  /** A and R are the edges a path adds and removes. On an even level the first node
      is a left one that only loses an edge. */
  ghost predicate Balanced(A: set<Edge>, R: set<Edge>, odd: bool, u: Node, end: Node) {
    && LeftUnique(A) && RightUnique(A) && RightUnique(R)
    && (odd ==> Lefts(A) == Lefts(R) + {end} && Rights(A) == Rights(R) + {u} && u !in Rights(R))
    && (!odd ==> Lefts(A) + {u} == Lefts(R) + {end} && Rights(A) == Rights(R) && u !in Lefts(A))
  }

  lemma AddEdge(A: set<Edge>, e: Edge)
    ensures Lefts({e} + A) == {e.node1} + Lefts(A)
    ensures Rights({e} + A) == {e.node2} + Rights(A)
    ensures LeftUnique(A) && e.node1 !in Lefts(A) ==> LeftUnique({e} + A)
    ensures RightUnique(A) && e.node2 !in Rights(A) ==> RightUnique({e} + A)
  {
    assert e in {e} + A;
    assert forall f | f in A :: f in {e} + A;
  }

  lemma ExtendToOdd(A: set<Edge>, R: set<Edge>, u: Node, v: Node, end: Node)
    requires Balanced(A, R, false, v, end) && u !in Rights(A)
    ensures Balanced({Edge(v, u)} + A, R, true, u, end)
  {
    AddEdge(A, Edge(v, u));
  }

  lemma ExtendToEven(A: set<Edge>, R: set<Edge>, u: Node, v: Node, end: Node)
    requires Balanced(A, R, true, v, end) && u !in Lefts(A)
    ensures Balanced(A, {Edge(u, v)} + R, false, u, end)
  {
    AddEdge(R, Edge(u, v));
  }

  lemma SplitEdge(M: set<Edge>, Q: set<Edge>, e: Edge)
    ensures e in M ==> {e} + Q - M == Q - M && ({e} + Q) * M == {e} + (Q * M)
    ensures e !in M ==> {e} + Q - M == {e} + (Q - M) && ({e} + Q) * M == Q * M
  {
  }

  lemma ExtendBalanced(bg: BipartiteGraph, M: set<Edge>, Q: set<Edge>, level: nat, u: Node, v: Node, end: Node)
    requires level > 0 && Step(bg, M, level, u, v)
    requires Balanced(Q - M, Q * M, Odd(level - 1), v, end)
    requires forall e | e in Q :: !Touches(e, u)
    ensures var P := {StepEdge(level, u, v)} + Q; Balanced(P - M, P * M, Odd(level), u, end)
  {
    SplitEdge(M, Q, StepEdge(level, u, v));
    if Odd(level) {
      ExtendToOdd(Q - M, Q * M, u, v, end);
    } else {
      ExtendToEven(Q - M, Q * M, u, v, end);
    }
  }

  lemma {:induction false} GuidePathEdges(bg: BipartiteGraph, M: set<Edge>, layers: seq<Layer>, level: nat, p: Path)
    requires GuidePath(bg, M, layers, level, p) && Distinct(p)
    ensures var P := PathEdges(level, p);
            && Elements(P) <= Elements(bg.edges) && Distinct(P)
            && (forall e | e in P :: e.node1 in p && e.node2 in p)
    decreases level
  {
    if level > 0 {
      GuidePathEdges(bg, M, layers, level - 1, p[1..]);
      assert p[0] !in p[1..];
    }
  }

  lemma {:induction false} GuidePathBalanced(bg: BipartiteGraph, M: set<Edge>, layers: seq<Layer>, level: nat, p: Path)
    requires GuidePath(bg, M, layers, level, p) && Distinct(p)
    ensures var P := Elements(PathEdges(level, p)); Balanced(P - M, P * M, Odd(level), p[0], p[level])
    decreases level
  {
    if level > 0 {
      var rest := p[1..];
      GuidePathBalanced(bg, M, layers, level - 1, rest);
      GuidePathEdges(bg, M, layers, level - 1, rest);
      var Q := Elements(PathEdges(level - 1, rest));
      assert Elements(PathEdges(level, p)) == {StepEdge(level, p[0], p[1])} + Q;
      assert p[0] !in rest;
      ExtendBalanced(bg, M, Q, level, p[0], p[1], p[level]);
    }
  }

  /** The part of Guide that the paths through the layers depend on. */
  ghost predicate Layered(bg: BipartiteGraph, M: set<Edge>, layers: seq<Layer>) {
    && |layers| >= 2 && Odd(|layers| - 1)
    && (forall n | n in layers[0] :: n in bg.left && FreeIn(M, n))
    && (forall n | n in layers[|layers| - 1] :: n in bg.right)
  }

  lemma GuideIsLayered(bg: BipartiteGraph, M: set<Edge>, layers: seq<Layer>)
    requires Guide(bg, M, layers)
    ensures Layered(bg, M, layers) && LayersDisjoint(layers)
  {
    var used :| Grown(bg, M, layers, used);
    forall n | n in layers[|layers| - 1] ensures n in bg.right {
      assert n in Side(bg, |layers| - 1);
    }
  }

  /** The collected paths of a phase alternate. */
  lemma GuidePathAlternates(bg: BipartiteGraph, M: set<Edge>, layers: seq<Layer>, p: Path)
    requires Layered(bg, M, layers) && GuidePath(bg, M, layers, |layers| - 1, p) && Distinct(p)
    ensures Alternates(bg, M, Elements(SlapEdges(p)), p[0], p[|p| - 1])
  {
    var top := |layers| - 1;
    GuidePathBalanced(bg, M, layers, top, p);
    GuidePathEdges(bg, M, layers, top, p);
    GuidePathEnd(bg, M, layers, top, p);
  }

  lemma {:induction false} GuidePathEnd(bg: BipartiteGraph, M: set<Edge>, layers: seq<Layer>, level: nat, p: Path)
    requires GuidePath(bg, M, layers, level, p)
    ensures p[level] in layers[0]
    decreases level
  {
    if level > 0 {
      GuidePathEnd(bg, M, layers, level - 1, p[1..]);
    }
  }

  // ----------------------------------------------------------- toggling one path

  lemma ToggleLeft(bg: BipartiteGraph, M: set<Edge>, P: set<Edge>, start: Node, end: Node)
    requires Reachable(bg, M) && Alternates(bg, M, P, start, end)
    ensures Reachable(bg, Toggle(M, P))
    ensures Lefts(Toggle(M, P)) == Lefts(M) + {end}
  {
    var M' := Toggle(M, P);
    forall e, f | e in M' && f in M' && e.node1 == f.node1 ensures e == f {
      if e in M && f !in M {
        LeftSwapped(bg, M, P, start, end, e, f);
      } else if e !in M && f in M {
        LeftSwapped(bg, M, P, start, end, f, e);
      }
    }
    forall n | n in Lefts(M) ensures n in Lefts(M') {
      var e :| e in M && e.node1 == n;
      if e in P {
        assert n in Lefts(P * M);
        assert n in Lefts(P - M);
      } else {
        assert e in M';
      }
    }
    assert end in Lefts(P - M);
    assert Lefts(P * M) <= Lefts(M);
    forall n | n in Lefts(M') ensures n in Lefts(M) + {end} {
      var e :| e in M' && e.node1 == n;
      if e !in M {
        assert n in Lefts(P - M);
      }
    }
  }

  /** A kept edge and an added edge never meet in a left node. */
  lemma LeftSwapped(bg: BipartiteGraph, M: set<Edge>, P: set<Edge>, start: Node, end: Node, e: Edge, f: Edge)
    requires Reachable(bg, M) && Alternates(bg, M, P, start, end)
    requires e in M - P && f in P - M
    ensures e.node1 != f.node1
  {
    assert f.node1 in Lefts(P * M) + {end};
    assert Touches(e, e.node1);
    if f.node1 != end {
      var g :| g in P * M && g.node1 == f.node1;
    }
  }

  lemma ToggleRight(bg: BipartiteGraph, M: set<Edge>, P: set<Edge>, start: Node, end: Node)
    requires bg.WellFormed() && Reachable(bg, M) && Alternates(bg, M, P, start, end)
    ensures RightUnique(Toggle(M, P)) <==> RightUnique(M) && FreeIn(M, start)
  {
    if RightUnique(M) && FreeIn(M, start) {
      ToggleKeepsMatching(bg, M, P, start, end);
    }
    if RightUnique(Toggle(M, P)) {
      ToggleReflectsMatching(bg, M, P, start, end);
    }
  }

  lemma ToggleKeepsMatching(bg: BipartiteGraph, M: set<Edge>, P: set<Edge>, start: Node, end: Node)
    requires Alternates(bg, M, P, start, end) && RightUnique(M) && FreeIn(M, start)
    ensures RightUnique(Toggle(M, P))
  {
    forall e, f | e in M - P && f in P - M ensures e.node2 != f.node2 {
      assert f.node2 in Rights(P * M) + {start};
      assert Touches(e, e.node2);
      if f.node2 != start {
        var g :| g in P * M && g.node2 == f.node2;
      }
    }
  }

  /** A right node with two edges never gets rid of the second one. */
  lemma ToggleReflectsMatching(bg: BipartiteGraph, M: set<Edge>, P: set<Edge>, start: Node, end: Node)
    requires bg.WellFormed() && Reachable(bg, M) && Alternates(bg, M, P, start, end)
    requires RightUnique(Toggle(M, P))
    ensures RightUnique(M) && FreeIn(M, start)
  {
    var M' := Toggle(M, P);
    assert start in Rights(P - M);
    var s :| s in P - M && s.node2 == start;
    assert s in M';
    forall e | e in M ensures !Touches(e, start) {
      assert e in P ==> e.node2 in Rights(P * M);
      assert e !in P ==> e in M';
      assert e in bg.edges;
    }
    forall e, f | e in M && f in M && e.node2 == f.node2 ensures e == f {
      if e in P && f !in P {
        RightKept(M, P, start, e, f);
      } else if e !in P && f in P {
        RightKept(M, P, start, f, e);
      }
    }
  }

  lemma RightKept(M: set<Edge>, P: set<Edge>, start: Node, e: Edge, f: Edge)
    requires Rights(P - M) == Rights(P * M) + {start} && RightUnique(Toggle(M, P))
    requires e in P * M && f in M - P
    ensures e.node2 != f.node2
  {
    assert e.node2 in Rights(P * M);
    var g :| g in P - M && g.node2 == e.node2;
    assert g in Toggle(M, P) && f in Toggle(M, P);
  }

  // ---------------------------------------------------- toggling a whole collection

  /** Toggling one path leaves every node-disjoint path alternating, and its start as
      free or matched as it was. */
  lemma ToggleKeepsDisjoint(bg: BipartiteGraph, M: set<Edge>, P: set<Edge>, Q: set<Edge>, start: Node, end: Node)
    requires Alternates(bg, M, Q, start, end)
    requires forall e, f | e in P && f in Q :: e.node1 != f.node1 && e.node2 != f.node2
    requires bg.WellFormed() && P <= Elements(bg.edges)
    ensures Alternates(bg, Toggle(M, P), Q, start, end)
    ensures FreeIn(Toggle(M, P), start) <==> FreeIn(M, start)
  {
    var M' := Toggle(M, P);
    assert Q - M' == Q - M && Q * M' == Q * M;
    assert end in Lefts(Q - M) && start in Rights(Q - M);
    var a :| a in Q && a.node1 == end;
    var b :| b in Q && b.node2 == start;
    assert a in bg.edges && b in bg.edges && forall e | e in P :: e in bg.edges;
    forall e | Touches(e, end) || Touches(e, start) ensures e in M' <==> e in M {}
  }

  /** A path of a phase, with the edges to toggle for it. */
  ghost predicate Slap(bg: BipartiteGraph, M: set<Edge>, p: Path) {
    && |p| > 0 && Distinct(SlapEdges(p))
    && Alternates(bg, M, Elements(SlapEdges(p)), p[0], p[|p| - 1])
    && forall e | e in SlapEdges(p) :: e.node1 in p && e.node2 in p
  }

  ghost predicate AllSlaps(bg: BipartiteGraph, M: set<Edge>, paths: seq<Path>) {
    forall i | 0 <= i < |paths| :: Slap(bg, M, paths[i])
  }

  ghost predicate StartFree(M: set<Edge>, p: Path) {
    |p| > 0 && FreeIn(M, p[0])
  }

  ghost predicate AllStartsFree(M: set<Edge>, paths: seq<Path>) {
    forall i | 0 <= i < |paths| :: StartFree(M, paths[i])
  }

  lemma GuidePathSlap(bg: BipartiteGraph, M: set<Edge>, layers: seq<Layer>, p: Path)
    requires Layered(bg, M, layers) && GuidePath(bg, M, layers, |layers| - 1, p) && Distinct(p)
    ensures Slap(bg, M, p)
  {
    GuidePathAlternates(bg, M, layers, p);
    GuidePathEdges(bg, M, layers, |layers| - 1, p);
  }

  lemma ToggleKeepsOther(bg: BipartiteGraph, M: set<Edge>, p: Path, q: Path)
    requires bg.WellFormed() && Slap(bg, M, p) && Slap(bg, M, q) && Elements(p) !! Elements(q)
    ensures var M' := Toggle(M, Elements(SlapEdges(p)));
            Slap(bg, M', q) && (StartFree(M', q) <==> StartFree(M, q))
  {
    var P, Q := Elements(SlapEdges(p)), Elements(SlapEdges(q));
    forall e, f | e in P && f in Q ensures e.node1 != f.node1 && e.node2 != f.node2 {
      assert e.node1 in Elements(p) && e.node2 in Elements(p);
      assert f.node1 in Elements(q) && f.node2 in Elements(q);
    }
    assert P <= Elements(bg.edges);
    ToggleKeepsDisjoint(bg, M, P, Q, q[0], q[|q| - 1]);
  }

  lemma ToggleKeepsRest(bg: BipartiteGraph, M: set<Edge>, paths: seq<Path>)
    requires bg.WellFormed() && |paths| > 0 && AllSlaps(bg, M, paths) && Disjoint(paths)
    ensures var M' := Toggle(M, Elements(SlapEdges(paths[0])));
            && AllSlaps(bg, M', paths[1..])
            && (AllStartsFree(M', paths[1..]) <==> AllStartsFree(M, paths[1..]))
  {
    var M' := Toggle(M, Elements(SlapEdges(paths[0])));
    forall i | 0 <= i < |paths[1..]|
      ensures Slap(bg, M', paths[1..][i]) && (StartFree(M', paths[1..][i]) <==> StartFree(M, paths[1..][i]))
    {
      ToggleKeepsOther(bg, M, paths[0], paths[i + 1]);
    }
  }

  lemma AllStartsSplit(M: set<Edge>, paths: seq<Path>)
    requires paths != []
    ensures AllStartsFree(M, paths) <==> StartFree(M, paths[0]) && AllStartsFree(M, paths[1..])
  {
    if AllStartsFree(M, paths[1..]) {
      forall i | 1 <= i < |paths| ensures StartFree(M, paths[i]) {
        assert paths[i] == paths[1..][i - 1];
      }
    }
  }

  lemma ToggleOne(bg: BipartiteGraph, M: set<Edge>, P: set<Edge>, start: Node, end: Node)
    requires bg.WellFormed() && Reachable(bg, M) && Alternates(bg, M, P, start, end)
    ensures var M' := Toggle(M, P);
            && Reachable(bg, M')
            && Lefts(M) <= Lefts(M') && |Lefts(M')| == |Lefts(M)| + 1
            && (RightUnique(M') <==> RightUnique(M) && FreeIn(M, start))
  {
    ToggleLeft(bg, M, P, start, end);
    ToggleRight(bg, M, P, start, end);
    assert end !in Lefts(M) by {
      assert forall e | e in M :: !Touches(e, end);
    }
  }

  /** The effect of toggling a collection of disjoint alternating paths. */
  lemma {:induction false} ToggleAllResult(bg: BipartiteGraph, M: set<Edge>, paths: seq<Path>)
    requires bg.WellFormed() && Reachable(bg, M) && AllSlaps(bg, M, paths) && Disjoint(paths)
    ensures var M' := ToggleAll(M, paths);
            && Reachable(bg, M')
            && Lefts(M) <= Lefts(M') && |Lefts(M')| == |Lefts(M)| + |paths|
            && (RightUnique(M') <==> RightUnique(M) && AllStartsFree(M, paths))
    decreases |paths|
  {
    if paths != [] {
      var p := paths[0];
      var P := Elements(SlapEdges(p));
      ToggleOne(bg, M, P, p[0], p[|p| - 1]);
      ToggleKeepsRest(bg, M, paths);
      ToggleAllResult(bg, Toggle(M, P), paths[1..]);
      AllStartsSplit(M, paths);
    }
  }
}
