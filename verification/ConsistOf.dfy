/** The ConsistOf matcher: values and matchers are paired up by LargestMatching. */
module ConsistOf {
  import opened Wrappers
  import opened Collections
  import opened Graphs
  import opened MatchingAugment
  import opened MatchingTheorems
  import opened MatchingBlocks
  import Matching

  /** f assigns to every value a matcher of its own that it matches. */
  ghost predicate Assignment<V, W>(values: seq<V>, matchers: seq<W>, matches: (V, W) -> bool, f: seq<nat>) {
    && |f| == |values| && Distinct(f)
    && forall i | 0 <= i < |f| :: f[i] < |matchers| && matches(values[i], matchers[f[i]])
  }

  ghost predicate Assignable<V, W>(values: seq<V>, matchers: seq<W>, matches: (V, W) -> bool) {
    exists f :: Assignment(values, matchers, matches, f)
  }

  ghost predicate MatchesSome<V, W>(v: V, matchers: seq<W>, matches: (V, W) -> bool) {
    exists w | w in matchers :: matches(v, w)
  }

  ghost predicate EachMatchesSome<V, W>(values: seq<V>, matchers: seq<W>, matches: (V, W) -> bool) {
    forall i | 0 <= i < |values| :: MatchesSome(values[i], matchers, matches)
  }

  /** Values that share a matcher share all their matchers, as when the elements are
      compared for equality. */
  ghost predicate Difunctional<V, W>(values: seq<V>, matchers: seq<W>, matches: (V, W) -> bool) {
    forall v, v', w, w' {:trigger matches(v, w'), matches(v', w)}
      | v in values && v' in values && w in matchers && w' in matchers ::
      matches(v, w) && matches(v', w) && matches(v, w') ==> matches(v', w')
  }

  lemma EqualityIsDifunctional<V>(values: seq<V>, elements: seq<V>)
    ensures Difunctional(values, elements, (v, w) => v == w)
  {
  }

  /** The graph of the values on the left and the matchers on the right. */
  ghost predicate GraphOf<V, W>(bg: BipartiteGraph, values: seq<V>, matchers: seq<W>, matches: (V, W) -> bool) {
    && bg.WellFormed()
    && |bg.left| == |values| && |bg.right| == |matchers|
    && (forall i | 0 <= i < |bg.left| :: bg.left[i] == Node(i))
    && (forall j | 0 <= j < |bg.right| :: bg.right[j] == Node(j + |values|))
    && (forall i, j | 0 <= i < |bg.left| && 0 <= j < |bg.right| ::
          Edge(bg.left[i], bg.right[j]) in bg.edges <==> matches(values[i], matchers[j]))
  }

  /** With as many values as matchers: a complete assignment is never missed, success
      leaves no value without some matcher, and success is backed by a complete
      assignment whenever the path starts stayed free in `bg`, as they do whenever values
      that share a matcher share all their matchers. */
  method Match<V, W>(values: seq<V>, matchers: seq<W>, matches: (V, W) -> bool)
    returns (success: bool, ghost bg: BipartiteGraph)
    ensures |values| == |matchers| ==> GraphOf(bg, values, matchers, matches)
    ensures success <==> |values| == |matchers| && |Run(bg, {})| == |values|
    ensures |values| == |matchers| && Assignable(values, matchers, matches) ==> success
    ensures success ==> EachMatchesSome(values, matchers, matches)
    ensures success && StartsStayFree(bg, {}) ==> Assignable(values, matchers, matches)
    ensures Difunctional(values, matchers, matches) && |values| == |matchers| ==>
              StartsStayFree(bg, {}) && (success <==> Assignable(values, matchers, matches))
  {
    bg := BipartiteGraph([], [], []);
    if |values| != |matchers| {
      return false, bg;
    }
    var neighbours: (V, W) -> Result<bool, bool> := (v, w) => Success(matches(v, w));
    var graph := NewBipartiteGraph(values, matchers, neighbours);
    bg := graph.value;
    assert GraphOf(bg, values, matchers, matches);
    var matching := Matching.LargestMatching(graph.value);
    success := |matching| == |values|;
    MatchResult(bg, values, matchers, matches);
  }

  lemma MatchResult<V, W>(bg: BipartiteGraph, values: seq<V>, matchers: seq<W>, matches: (V, W) -> bool)
    requires GraphOf(bg, values, matchers, matches) && |values| == |matchers|
    ensures Assignable(values, matchers, matches) ==> |Run(bg, {})| == |values|
    ensures |Run(bg, {})| == |values| ==> EachMatchesSome(values, matchers, matches)
    ensures |Run(bg, {})| == |values| && StartsStayFree(bg, {}) ==> Assignable(values, matchers, matches)
    ensures Difunctional(values, matchers, matches) ==> StartsStayFree(bg, {})
  {
    if Difunctional(values, matchers, matches) {
      DifunctionalStaysFree(bg, values, matchers, matches);
    }
    if Assignable(values, matchers, matches) {
      NeverMissed(bg, values, matchers, matches);
    }
    if |Run(bg, {})| == |values| {
      SuccessBacked(bg, values, matchers, matches);
    }
  }

  /** When values that share a matcher share all their matchers, no path is ever started
      from a matched node. */
  lemma DifunctionalStaysFree<V, W>(bg: BipartiteGraph, values: seq<V>, matchers: seq<W>, matches: (V, W) -> bool)
    requires GraphOf(bg, values, matchers, matches) && Difunctional(values, matchers, matches)
    ensures StartsStayFree(bg, {})
  {
    forall a, b, c, d | Edge(a, c) in bg.edges && Edge(b, c) in bg.edges && Edge(a, d) in bg.edges
      ensures Edge(b, d) in bg.edges
    {
      var i, k := Matched(bg, values, matchers, matches, Edge(a, c));
      var i', k' := Matched(bg, values, matchers, matches, Edge(b, c));
      var i'', k'' := Matched(bg, values, matchers, matches, Edge(a, d));
      assert values[i] in values && values[i'] in values && matchers[k] in matchers && matchers[k''] in matchers;
      assert Edge(bg.left[i'], bg.right[k'']) == Edge(b, d);
    }
    BlocksStayFree(bg);
  }

  /** The value and the matcher of an edge. */
  lemma Matched<V, W>(bg: BipartiteGraph, values: seq<V>, matchers: seq<W>, matches: (V, W) -> bool, e: Edge)
    returns (i: nat, j: nat)
    requires GraphOf(bg, values, matchers, matches) && e in bg.edges
    ensures i < |values| && j < |matchers| && e == Edge(Node(i), Node(j + |values|)) && matches(values[i], matchers[j])
  {
    i :| i < |bg.left| && bg.left[i] == e.node1;
    j :| j < |bg.right| && bg.right[j] == e.node2;
    assert e == Edge(bg.left[i], bg.right[j]);
  }

  lemma SuccessBacked<V, W>(bg: BipartiteGraph, values: seq<V>, matchers: seq<W>, matches: (V, W) -> bool)
    requires GraphOf(bg, values, matchers, matches) && |Run(bg, {})| == |values|
    ensures EachMatchesSome(values, matchers, matches)
    ensures StartsStayFree(bg, {}) ==> Assignable(values, matchers, matches)
  {
    var r := Run(bg, {});
    RunIsReachable(bg);
    AllLeftsMatched(bg, values, matchers, matches, r);
  }

  lemma RunIsReachable(bg: BipartiteGraph)
    requires bg.WellFormed()
    ensures Reachable(bg, Run(bg, {}))
    ensures StartsStayFree(bg, {}) ==> IsMatching(bg, Run(bg, {}))
  {
    RunResult(bg, {});
  }

  lemma NeverMissed<V, W>(bg: BipartiteGraph, values: seq<V>, matchers: seq<W>, matches: (V, W) -> bool)
    requires GraphOf(bg, values, matchers, matches) && Assignable(values, matchers, matches)
    ensures |Run(bg, {})| == |values|
  {
    AtLeastAnyMatching(bg);
    var f :| Assignment(values, matchers, matches, f);
    AssignmentIsMatching(bg, values, matchers, matches, f);
  }

  ghost function PairEdge(f: seq<nat>, i: nat): Edge
    requires i < |f|
  {
    Edge(Node(i), Node(f[i] + |f|))
  }

  lemma AssignmentIsMatching<V, W>(bg: BipartiteGraph, values: seq<V>, matchers: seq<W>, matches: (V, W) -> bool,
                                   f: seq<nat>)
    requires GraphOf(bg, values, matchers, matches) && Assignment(values, matchers, matches, f)
    ensures exists N :: IsMatching(bg, N) && |N| == |values|
  {
    var m := map i: nat | i < |f| :: PairEdge(f, i);
    InjectionSize(m);
    IndexSetSize(|f|, m.Keys);
    forall i | i in m ensures m[i] in bg.edges {
      assert PairEdge(f, i) == Edge(bg.left[i], bg.right[f[i]]);
    }
    PairsMatch(f, m.Values);
    assert IsMatching(bg, m.Values);
  }

  lemma PairsMatch(f: seq<nat>, N: set<Edge>)
    requires Distinct(f) && forall e :: e in N ==> exists i: nat :: i < |f| && e == PairEdge(f, i)
    ensures LeftUnique(N) && RightUnique(N)
  {
  }

  lemma {:induction false} IndexSetSize(n: nat, s: set<nat>)
    requires forall i: nat :: i in s <==> i < n
    ensures |s| == n
  {
    if n > 0 {
      IndexSetSize(n - 1, s - {n - 1});
      assert s == (s - {n - 1}) + {n - 1};
    }
  }

  lemma AllLeftsMatched<V, W>(bg: BipartiteGraph, values: seq<V>, matchers: seq<W>, matches: (V, W) -> bool,
                              M: set<Edge>)
    requires GraphOf(bg, values, matchers, matches) && Reachable(bg, M) && |M| == |values|
    ensures EachMatchesSome(values, matchers, matches)
    ensures IsMatching(bg, M) ==> Assignable(values, matchers, matches)
  {
    MatchedLefts(M);
    LeftsBounded(bg, M);
    DistinctSize(bg.left);
    SameSize(Lefts(M), Elements(bg.left));
    forall i: nat | i < |values| ensures HasPartner(bg, M, i) {
      assert bg.left[i] in Lefts(M);
      var e :| e in M && e.node1 == bg.left[i];
      assert e in bg.edges;
      var j: nat :| j < |bg.right| && bg.right[j] == e.node2;
      assert e == Edge(bg.left[i], bg.right[j]);
      assert PartnerOf(bg, M, i, j);
    }
    forall i: nat | i < |values| ensures MatchesSome(values[i], matchers, matches) {
      assert HasPartner(bg, M, i);
      var j: nat :| PartnerOf(bg, M, i, j);
      assert Edge(bg.left[i], bg.right[j]) in bg.edges;
      assert matchers[j] in matchers;
    }
    if IsMatching(bg, M) {
      var f := Partners(bg, M, |values|);
      PartnersAssign(bg, values, matchers, matches, M, f);
    }
  }

  ghost predicate HasPartner(bg: BipartiteGraph, M: set<Edge>, i: nat) {
    exists j: nat :: PartnerOf(bg, M, i, j)
  }

  lemma {:induction false} Partners(bg: BipartiteGraph, M: set<Edge>, n: nat) returns (f: seq<nat>)
    requires forall i: nat | i < n :: HasPartner(bg, M, i)
    ensures |f| == n && forall i | 0 <= i < n :: PartnerOf(bg, M, i, f[i])
  {
    if n == 0 {
      f := [];
    } else {
      f := Partners(bg, M, n - 1);
      assert HasPartner(bg, M, n - 1);
      var j: nat :| PartnerOf(bg, M, n - 1, j);
      f := f + [j];
    }
  }

  ghost predicate PartnerOf(bg: BipartiteGraph, M: set<Edge>, i: nat, j: nat) {
    i < |bg.left| && j < |bg.right| && Edge(bg.left[i], bg.right[j]) in M
  }

  lemma PartnersAssign<V, W>(bg: BipartiteGraph, values: seq<V>, matchers: seq<W>, matches: (V, W) -> bool,
                             M: set<Edge>, f: seq<nat>)
    requires GraphOf(bg, values, matchers, matches) && IsMatching(bg, M)
    requires |f| == |values| && forall i | 0 <= i < |f| :: PartnerOf(bg, M, i, f[i])
    ensures Assignment(values, matchers, matches, f)
  {
    forall i | 0 <= i < |f| ensures f[i] < |matchers| && matches(values[i], matchers[f[i]]) {
      assert PartnerOf(bg, M, i, f[i]);
      assert Edge(bg.left[i], bg.right[f[i]]) in bg.edges;
    }
    forall i, k | 0 <= i < k < |f| ensures f[i] != f[k] {
      assert PartnerOf(bg, M, i, f[i]) && PartnerOf(bg, M, k, f[k]);
      assert Edge(bg.left[i], bg.right[f[i]]).node1 != Edge(bg.left[k], bg.right[f[k]]).node1;
    }
  }
}
