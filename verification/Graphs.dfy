/** The data the matching algorithm works on: nodes, edges, edge sets and
    bipartite graphs, with the edge-set operations of the `edge` package. */
module Graphs {
  import opened Collections
  import opened Wrappers

  datatype Node = Node(id: int)

  datatype Edge = Edge(node1: Node, node2: Node)

  /** Go's EdgeSet is a slice: an ordered list that may repeat an edge. */
  type EdgeSet = seq<Edge>

  predicate Touches(e: Edge, n: Node) {
    e.node1 == n || e.node2 == n
  }

  predicate Joins(e: Edge, a: Node, b: Node) {
    (e.node1 == a && e.node2 == b) || (e.node1 == b && e.node2 == a)
  }

  /** No edge of M ends in n. */
  predicate FreeIn(M: set<Edge>, n: Node) {
    forall e | e in M :: !Touches(e, n)
  }

  /** The edges that belong to exactly one of the two sets. */
  function Toggle(M: set<Edge>, P: set<Edge>): set<Edge> {
    (M - P) + (P - M)
  }

  method Free(ec: EdgeSet, node: Node) returns (free: bool)
    ensures free <==> FreeIn(Elements(ec), node)
  {
    for i := 0 to |ec|
      invariant forall j | 0 <= j < i :: !Touches(ec[j], node)
    {
      if ec[i].node1 == node || ec[i].node2 == node {
        assert ec[i] in Elements(ec);
        return false;
      }
    }
    return true;
  }

  method Contains(ec: EdgeSet, edge: Edge) returns (found: bool)
    ensures found <==> edge in Elements(ec)
  {
    for i := 0 to |ec|
      invariant edge !in ec[..i]
    {
      if ec[i] == edge {
        return true;
      }
    }
    return false;
  }

  method FindByNodes(ec: EdgeSet, node1: Node, node2: Node) returns (edge: Option<Edge>)
    ensures edge.Some? ==> edge.value in ec && Joins(edge.value, node1, node2)
    ensures edge.None? ==> forall e | e in ec :: !Joins(e, node1, node2)
  {
    for i := 0 to |ec|
      invariant forall j | 0 <= j < i :: !Joins(ec[j], node1, node2)
    {
      if Joins(ec[i], node1, node2) {
        return Some(ec[i]);
      }
    }
    return None;
  }

  /** An edge survives iff it is in the first list xor it occurs an odd number
      of times in the second. The order of the result is Go's map order, that is,
      arbitrary. */
  ghost predicate Survives(ec: EdgeSet, ec2: EdgeSet, e: Edge) {
    (e in ec) != (multiset(ec2)[e] % 2 == 1)
  }

  method SymmetricDifference(ec: EdgeSet, ec2: EdgeSet) returns (result: EdgeSet)
    ensures Distinct(result)
    ensures forall e :: e in result <==> Survives(ec, ec2, e)
  {
    var toInclude: map<Edge, bool> := map[];
    for i := 0 to |ec|
      invariant forall e :: e in toInclude <==> e in ec[..i]
      invariant forall e | e in toInclude :: toInclude[e]
    {
      toInclude := toInclude[ec[i] := true];
    }
    for i := 0 to |ec2|
      invariant forall e :: e in toInclude <==> e in ec || e in ec2[..i]
      invariant forall e | e in toInclude :: toInclude[e] <==> Survives(ec, ec2[..i], e)
    {
      assert ec2[..i + 1] == ec2[..i] + [ec2[i]];
      toInclude := toInclude[ec2[i] := !(ec2[i] in toInclude && toInclude[ec2[i]])];
    }
    assert ec2[..|ec2|] == ec2;
    result := [];
    var rest := toInclude.Keys;
    while rest != {}
      invariant rest <= toInclude.Keys
      invariant Distinct(result)
      invariant forall e :: e in result <==> e in toInclude && e !in rest && toInclude[e]
    {
      var e :| e in rest;
      if toInclude[e] {
        result := result + [e];
      }
      rest := rest - {e};
    }
  }

  /** Toggling a list without repetitions is the set-theoretic symmetric difference. */
  lemma SurvivorsOfDistinct(ec: EdgeSet, ec2: EdgeSet, result: EdgeSet)
    requires Distinct(ec2)
    requires forall e :: e in result <==> Survives(ec, ec2, e)
    ensures Elements(result) == Toggle(Elements(ec), Elements(ec2))
  {
    forall e ensures multiset(ec2)[e] == if e in ec2 then 1 else 0 {
      CountOfDistinct(ec2, e);
    }
  }

  lemma {:induction false} CountOfDistinct(s: EdgeSet, e: Edge)
    requires Distinct(s)
    ensures multiset(s)[e] == if e in s then 1 else 0
  {
    if s != [] {
      CountOfDistinct(s[1..], e);
      assert s == [s[0]] + s[1..];
    }
  }

  datatype BipartiteGraph = BipartiteGraph(left: seq<Node>, right: seq<Node>, edges: EdgeSet) {
    /** What NewBipartiteGraph establishes and the search relies on. */
    ghost predicate WellFormed() {
      && Distinct(left)
      && Distinct(right)
      && (forall n | n in left :: n !in right)
      && (forall e | e in edges :: e.node1 in left && e.node2 in right)
    }
  }

  /** Nodes are numbered left first, then right; an edge runs from left to right
      iff the two values are neighbours. The first neighbour call that fails aborts. */
  ghost predicate Represents<V, W, E>(bg: BipartiteGraph, leftValues: seq<V>, rightValues: seq<W>,
                                      neighbours: (V, W) -> Result<bool, E>)
  {
    && |bg.left| == |leftValues| && |bg.right| == |rightValues|
    && (forall i | 0 <= i < |bg.left| :: bg.left[i] == Node(i))
    && (forall j | 0 <= j < |bg.right| :: bg.right[j] == Node(j + |leftValues|))
    && (forall i, j | 0 <= i < |bg.left| && 0 <= j < |bg.right| ::
          Edge(bg.left[i], bg.right[j]) in bg.edges <==> neighbours(leftValues[i], rightValues[j]) == Success(true))
  }

  method NewBipartiteGraph<V, W, E>(leftValues: seq<V>, rightValues: seq<W>, neighbours: (V, W) -> Result<bool, E>)
    returns (bg: Result<BipartiteGraph, E>)
    ensures bg.Success? <==> forall v, w | v in leftValues && w in rightValues :: neighbours(v, w).Success?
    ensures bg.Success? ==> bg.value.WellFormed() && Represents(bg.value, leftValues, rightValues, neighbours)
    ensures bg.Failure? ==> exists v, w | v in leftValues && w in rightValues :: neighbours(v, w) == Failure(bg.error)
  {
    var left: seq<Node> := [];
    for i := 0 to |leftValues|
      invariant |left| == i && forall k | 0 <= k < i :: left[k] == Node(k)
    {
      left := left + [Node(i)];
    }
    var right: seq<Node> := [];
    for j := 0 to |rightValues|
      invariant |right| == j && forall k | 0 <= k < j :: right[k] == Node(k + |left|)
    {
      right := right + [Node(j + |left|)];
    }
    var edges: EdgeSet := [];
    for i := 0 to |leftValues|
      invariant forall e | e in edges :: e.node1 in left[..i] && e.node2 in right
      invariant forall a, b | 0 <= a < i && 0 <= b < |right| ::
          neighbours(leftValues[a], rightValues[b]).Success? &&
          (Edge(left[a], right[b]) in edges <==> neighbours(leftValues[a], rightValues[b]).value)
    {
      ghost var before := edges;
      for j := 0 to |rightValues|
        invariant forall e | e in edges :: e in before || (e.node1 == left[i] && e.node2 in right[..j])
        invariant forall e | e in before :: e in edges
        invariant forall b | 0 <= b < j ::
            neighbours(leftValues[i], rightValues[b]).Success? &&
            (Edge(left[i], right[b]) in edges <==> neighbours(leftValues[i], rightValues[b]).value)
      {
        var adjacent := neighbours(leftValues[i], rightValues[j]);
        if adjacent.Failure? {
          assert leftValues[i] in leftValues && rightValues[j] in rightValues;
          return Failure(adjacent.error);
        }
        if adjacent.value {
          edges := edges + [Edge(left[i], right[j])];
        }
      }
    }
    return Success(BipartiteGraph(left, right, edges));
  }
}
