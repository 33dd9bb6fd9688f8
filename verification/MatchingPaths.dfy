/** What the depth-first search finds in the guide layers, and what a phase collects. */
module MatchingPaths {
  import opened Wrappers
  import opened Collections
  import opened Graphs
  import opened MatchingSpec
  import opened MatchingLayers

  // ---------------------------------------------------------------- the search

  /** p descends one layer a node, by guide steps, from `level` to level 0. */
  ghost predicate GuidePath(bg: BipartiteGraph, M: set<Edge>, layers: seq<Layer>, level: nat, p: Path)
    decreases level
  {
    && level < |layers| && |p| == level + 1
    && p[0] in layers[level]
    && (level > 0 ==> Step(bg, M, level, p[0], p[1]) && GuidePath(bg, M, layers, level - 1, p[1..]))
  }

  lemma {:induction false} SearchSound(bg: BipartiteGraph, M: set<Edge>, layers: seq<Layer>, level: nat, u: Node,
                                       used: set<Node>)
    requires level < |layers| && u in layers[level] && u !in used
    ensures var r := Search(bg, M, layers, level, u, used);
            r.Some? ==> GuidePath(bg, M, layers, level, r.value) && r.value[0] == u
                        && Distinct(r.value) && Elements(r.value) !! used
    decreases level, |layers| + 1, 0
  {
    if level > 0 {
      SearchFromSound(bg, M, layers, level, u, layers[level - 1], used + {u});
    }
  }

  lemma {:induction false} SearchFromSound(bg: BipartiteGraph, M: set<Edge>, layers: seq<Layer>, level: nat, u: Node,
                                           candidates: seq<Node>, used: set<Node>)
    requires 0 < level < |layers| && u in layers[level] && u in used
    requires forall i | 0 <= i < |candidates| :: candidates[i] in layers[level - 1]
    ensures var r := SearchFrom(bg, M, layers, level, u, candidates, used);
            r.Some? ==> GuidePath(bg, M, layers, level, r.value) && r.value[0] == u
                        && Distinct(r.value) && Elements(r.value) !! used - {u}
    decreases level, 0, |candidates|
  {
    if candidates != [] {
      var v := candidates[0];
      if v !in used && Step(bg, M, level, u, v) {
        SearchSound(bg, M, layers, level - 1, v, used);
        var below := Search(bg, M, layers, level - 1, v, used);
        if below.Some? {
          assert ([u] + below.value)[1..] == below.value;
          forall i | 0 <= i < |below.value| ensures below.value[i] != u {
            assert below.value[i] in Elements(below.value);
          }
        }
      }
      SearchFromSound(bg, M, layers, level, u, candidates[1..], used);
    }
  }

  lemma {:induction false} GuidePathWithin(bg: BipartiteGraph, M: set<Edge>, layers: seq<Layer>, level: nat, p: Path,
                                           n: Node)
    requires GuidePath(bg, M, layers, level, p) && n in p
    ensures exists k :: 0 <= k <= level && n in layers[k]
    decreases level
  {
    if n != p[0] {
      GuidePathWithin(bg, M, layers, level - 1, p[1..], n);
    }
  }

  /** The search is exhaustive: it finds a path whenever one avoids the used nodes. */
  lemma {:induction false} SearchComplete(bg: BipartiteGraph, M: set<Edge>, layers: seq<Layer>, level: nat, u: Node,
                                          used: set<Node>, q: Path)
    requires LayersDisjoint(layers) && GuidePath(bg, M, layers, level, q) && q[0] == u && Elements(q) !! used
    ensures Search(bg, M, layers, level, u, used).Some?
    decreases level, |layers| + 1, 0
  {
    if level > 0 {
      if u in q[1..] {
        GuidePathWithin(bg, M, layers, level - 1, q[1..], u);
      }
      assert Elements(q[1..]) !! used + {u};
      SearchFromComplete(bg, M, layers, level, u, layers[level - 1], used + {u}, q[1..]);
    }
  }

  lemma {:induction false} SearchFromComplete(bg: BipartiteGraph, M: set<Edge>, layers: seq<Layer>, level: nat, u: Node,
                                              candidates: seq<Node>, used: set<Node>, q: Path)
    requires 0 < level < |layers| && LayersDisjoint(layers)
    requires GuidePath(bg, M, layers, level - 1, q) && Elements(q) !! used
    requires Step(bg, M, level, u, q[0]) && q[0] in candidates
    ensures SearchFrom(bg, M, layers, level, u, candidates, used).Some?
    decreases level, 0, |candidates|
  {
    if q[0] == candidates[0] {
      assert q[0] in Elements(q);
      SearchComplete(bg, M, layers, level - 1, q[0], used, q);
    } else {
      SearchFromComplete(bg, M, layers, level, u, candidates[1..], used, q);
    }
  }

  /** From every node of a layer a guide path leads down. */
  lemma {:induction false} Descend(bg: BipartiteGraph, M: set<Edge>, layers: seq<Layer>, level: nat, u: Node)
    returns (p: Path)
    requires Preceded(bg, M, layers) && level < |layers| && u in layers[level]
    ensures GuidePath(bg, M, layers, level, p) && p[0] == u
    decreases level
  {
    if level == 0 {
      p := [u];
    } else {
      assert HasPredecessor(bg, M, layers, level, u);
      var v :| v in layers[level - 1] && Step(bg, M, level, u, v);
      var below := Descend(bg, M, layers, level - 1, v);
      p := [u] + below;
      assert p[1..] == below;
    }
  }

  // ---------------------------------------------------------------- one phase

  ghost predicate Disjoint(paths: seq<Path>) {
    forall i, j | 0 <= i < j < |paths| :: Elements(paths[i]) !! Elements(paths[j])
  }

  ghost predicate Blocked(paths: seq<Path>, used: set<Node>, q: Path) {
    (exists n :: n in q && n in used) || (exists p | p in paths :: !(Elements(q) !! Elements(p)))
  }

  /** The collected paths are guide paths from distinct starts, pairwise disjoint and
      disjoint from `used`; every guide path from one of the starts meets one of them. */
  lemma {:induction false} CollectResult(bg: BipartiteGraph, M: set<Edge>, layers: seq<Layer>, starts: seq<Node>,
                                         used: set<Node>)
    requires |layers| > 0 && LayersDisjoint(layers)
    requires forall i | 0 <= i < |starts| :: starts[i] in layers[|layers| - 1] && starts[i] !in used
    requires Distinct(starts)
    ensures var paths := Collect(bg, M, layers, starts, used);
            && (forall p | p in paths :: GuidePath(bg, M, layers, |layers| - 1, p) && Distinct(p)
                                         && p[0] in starts && Elements(p) !! used)
            && Disjoint(paths)
            && (forall q | GuidePath(bg, M, layers, |layers| - 1, q) && q[0] in starts :: Blocked(paths, used, q))
  {
    if starts != [] {
      var top := |layers| - 1;
      SearchSound(bg, M, layers, top, starts[0], used);
      var found := Search(bg, M, layers, top, starts[0], used);
      var used' := if found.Some? then used + Elements(found.value) else used;
      forall i | 1 <= i < |starts| ensures starts[i] !in used' {
        if found.Some? && starts[i] in found.value {
          assert starts[i] != starts[0];
          GuidePathWithin(bg, M, layers, top - 1, found.value[1..], starts[i]);
        }
      }
      CollectResult(bg, M, layers, starts[1..], used');
      forall q | GuidePath(bg, M, layers, top, q) && q[0] in starts
        ensures Blocked(Collect(bg, M, layers, starts, used), used, q)
      {
        BlockedStep(bg, M, layers, starts, used, q);
      }
    }
  }

  /** A path blocked by what the later starts collect, or by the first start's path, is
      blocked by both together. */
  lemma BlockedStep(bg: BipartiteGraph, M: set<Edge>, layers: seq<Layer>, starts: seq<Node>, used: set<Node>, q: Path)
    requires |layers| > 0 && LayersDisjoint(layers) && starts != []
    requires GuidePath(bg, M, layers, |layers| - 1, q) && q[0] in starts
    requires var found := Search(bg, M, layers, |layers| - 1, starts[0], used);
             var used' := if found.Some? then used + Elements(found.value) else used;
             && (found.Some? ==> |found.value| > 0 && found.value[0] == starts[0])
             && (q[0] in starts[1..] ==> Blocked(Collect(bg, M, layers, starts[1..], used'), used', q))
    ensures Blocked(Collect(bg, M, layers, starts, used), used, q)
  {
    var found := Search(bg, M, layers, |layers| - 1, starts[0], used);
    var paths := Collect(bg, M, layers, starts, used);
    if q[0] != starts[0] {
      if found.Some? && exists n :: n in q && n in used + Elements(found.value) {
        assert found.value in paths;
      }
    } else if found.None? {
      StartBlocked(bg, M, layers, used, q);
    } else {
      assert q[0] in Elements(q) && found.value in paths;
    }
  }

  lemma StartBlocked(bg: BipartiteGraph, M: set<Edge>, layers: seq<Layer>, used: set<Node>, q: Path)
    requires |layers| > 0 && LayersDisjoint(layers) && GuidePath(bg, M, layers, |layers| - 1, q)
    requires Search(bg, M, layers, |layers| - 1, q[0], used).None?
    ensures exists n :: n in q && n in used
  {
    if Elements(q) !! used {
      SearchComplete(bg, M, layers, |layers| - 1, q[0], used, q);
    } else {
      var n :| n in Elements(q) && n in used;
      assert n in q && n in used;
    }
  }

  /** A found path uses up no other start. */
  lemma OneStartAPath(bg: BipartiteGraph, M: set<Edge>, layers: seq<Layer>, starts: seq<Node>, i: nat, used: set<Node>)
    requires |layers| > 0 && LayersDisjoint(layers) && starts == layers[|layers| - 1]
    requires i < |starts| && forall k | i <= k < |starts| :: starts[k] !in used
    requires Search(bg, M, layers, |layers| - 1, starts[i], used).Some?
    ensures var p := Search(bg, M, layers, |layers| - 1, starts[i], used).value;
            forall k | i < k < |starts| :: starts[k] !in p
  {
    SearchSound(bg, M, layers, |layers| - 1, starts[i], used);
    var p := Search(bg, M, layers, |layers| - 1, starts[i], used).value;
    forall k | i < k < |starts| ensures starts[k] !in p {
      if starts[k] in p[1..] {
        GuidePathWithin(bg, M, layers, |layers| - 2, p[1..], starts[k]);
      }
      assert starts[k] != p[0];
    }
  }
}
