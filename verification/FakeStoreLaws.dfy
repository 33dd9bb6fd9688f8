/** Laws of the flat store that the in-memory tree refines. */
module FakeStoreLaws {
  import opened Wrappers
  import opened FakeStore

  /** g holds all that f holds, except possibly another leaf at p. */
  ghost predicate Extends(g: Flat, f: Flat, p: Path) {
    && f.dirs <= g.dirs
    && forall q | q in f.leaves && q != p :: q in g.leaves && g.leaves[q] == f.leaves[q]
  }

  lemma {:induction false} PrefixesAreDirs(f: Flat, p: Path, i: nat)
    requires WellFormed(f) && (p in f.dirs || p in f.leaves) && i < |p|
    ensures p[..i] in f.dirs
    decreases |p| - i
  {
    if i + 1 < |p| {
      PrefixesAreDirs(f, p, i + 1);
      assert Parent(p[..i + 1]) == p[..i];
    } else {
      assert Parent(p) == p[..i];
    }
  }

  lemma SetKeepsWellFormed(f: Flat, p: Path, node: StoreNode)
    requires WellFormed(f)
    ensures WellFormed(SetFlat(f, p, node))
  {
    var g := SetFlat(f, p, node);
    if p != [] && SetResult(f, p).Success? {
      assert forall q | q in ProperPrefixes(p) && q in f.leaves :: LeafAbove(f, p);
      forall q | q in ProperPrefixes(p)
        ensures q == [] || Parent(q) in ProperPrefixes(p)
      {
        var i :| 0 <= i < |p| && q == p[..i];
        if i > 0 {
          assert Parent(q) == p[..i - 1];
        }
      }
      assert Parent(p) in ProperPrefixes(p);
      assert p !in ProperPrefixes(p);
    }
  }

  lemma DeleteKeepsWellFormed(f: Flat, p: Path)
    requires WellFormed(f) && p != []
    ensures WellFormed(DeleteFlat(f, p))
  {
    var g := DeleteFlat(f, p);
    forall q | (q in g.dirs || q in g.leaves) && q != []
      ensures Parent(q) in g.dirs
    {
      assert p <= Parent(q) ==> p <= q;
    }
  }

  /** A set is refused exactly when no well-formed store could hold the new leaf beside
      all that there is; when it is not, the result is the least such store. */
  lemma RefusedOnlyIfImpossible(f: Flat, p: Path, node: StoreNode)
    requires WellFormed(f) && p != []
    ensures SetResult(f, p).Success? <==>
            exists g :: WellFormed(g) && Extends(g, f, p) && p in g.leaves && g.leaves[p] == node
    ensures forall g | WellFormed(g) && Extends(g, f, p) && p in g.leaves && g.leaves[p] == node ::
              SetFlat(f, p, node).dirs <= g.dirs && SetFlat(f, p, node).leaves.Keys <= g.leaves.Keys
  {
    if SetResult(f, p).Success? {
      SetKeepsWellFormed(f, p, node);
      var g := SetFlat(f, p, node);
      assert WellFormed(g) && Extends(g, f, p) && p in g.leaves && g.leaves[p] == node;
    }
    forall g | WellFormed(g) && Extends(g, f, p) && p in g.leaves
      ensures SetResult(f, p).Success? && ProperPrefixes(p) <= g.dirs
    {
      forall i | 0 <= i < |p|
        ensures p[..i] in g.dirs && p[..i] !in f.leaves
      {
        PrefixesAreDirs(g, p, i);
        assert p[..i] != p;
      }
    }
  }

  /** What is read after a set: the new leaf, its directories, and otherwise what was
      read before. */
  lemma GetAfterSet(f: Flat, p: Path, node: StoreNode, q: Path)
    requires WellFormed(f) && p != [] && SetResult(f, p).Success?
    ensures GetResult(SetFlat(f, p, node), q) ==
            if q == p then Success(node)
            else if q <= p then Failure(NodeIsDirectory)
            else GetResult(f, q)
  {
    if q <= p && q != p {
      assert q == p[..|q|];
      assert q in ProperPrefixes(p);
      assert q !in f.leaves;
    }
  }

  lemma GetAfterDelete(f: Flat, p: Path, q: Path)
    ensures GetResult(DeleteFlat(f, p), q) == if p <= q then Failure(KeyNotFound) else GetResult(f, q)
  {
  }

  /** The later of two sets of a key counts. */
  lemma SetTwice(f: Flat, p: Path, node: StoreNode, node': StoreNode)
    requires WellFormed(f)
    ensures SetFlat(SetFlat(f, p, node), p, node') == SetFlat(f, p, node')
  {
    if p != [] && SetResult(f, p).Success? {
      var g := SetFlat(f, p, node);
      assert p !in ProperPrefixes(p);
      assert !LeafAbove(g, p) by {
        forall i | 0 <= i < |p|
          ensures p[..i] !in g.leaves
        {
          assert p[..i] !in f.leaves && p[..i] != p;
        }
      }
      assert g.leaves[p := node'] == f.leaves[p := node'];
      assert g.dirs + ProperPrefixes(p) == f.dirs + ProperPrefixes(p);
    }
  }

  lemma AboveIsDir(f: Flat, p: Path, q: Path)
    requires WellFormed(f) && Exists(f, q) && p <= q && p != q
    ensures p in f.dirs
  {
    PrefixesAreDirs(f, q, |p|);
    assert q[..|p|] == p;
  }

  lemma NothingBelowAbsent(f: Flat, p: Path)
    requires WellFormed(f) && !Exists(f, p)
    ensures forall q | q in f.leaves || q in f.dirs :: !(p <= q)
  {
    forall q | q in f.leaves || q in f.dirs
      ensures !(p <= q)
    {
      if p <= q && p != q {
        AboveIsDir(f, p, q);
      }
    }
  }

  lemma DeleteAfterSet(f: Flat, p: Path, node: StoreNode)
    requires WellFormed(f) && p != [] && SetResult(f, p).Success? && !Exists(f, p)
    ensures DeleteFlat(SetFlat(f, p, node), p) == Flat(f.leaves, f.dirs + ProperPrefixes(p))
  {
    NothingBelowAbsent(f, p);
    var g := DeleteFlat(SetFlat(f, p, node), p);
    assert forall q | q in ProperPrefixes(p) :: |q| < |p|;
    assert g.leaves == f.leaves;
    assert g.dirs == f.dirs + ProperPrefixes(p);
  }

  lemma PrefixesOfParent(f: Flat, p: Path)
    requires WellFormed(f) && p != []
    ensures Parent(p) in f.dirs <==> f.dirs + ProperPrefixes(p) == f.dirs
  {
    assert Parent(p) in ProperPrefixes(p);
    if Parent(p) in f.dirs {
      forall q | q in ProperPrefixes(p)
        ensures q in f.dirs
      {
        var i :| 0 <= i < |p| && q == p[..i];
        if i < |p| - 1 {
          PrefixesAreDirs(f, Parent(p), i);
          assert Parent(p)[..i] == p[..i];
        }
      }
    }
  }

  /** Deleting a key that was newly set leaves the directories behind that the set had to
      make: it undoes the set if and only if there were none to make. */
  lemma DeleteUndoesSetIff(f: Flat, p: Path, node: StoreNode)
    requires WellFormed(f) && p != [] && SetResult(f, p).Success? && !Exists(f, p)
    ensures DeleteFlat(SetFlat(f, p, node), p) == f <==> Parent(p) in f.dirs
  {
    DeleteAfterSet(f, p, node);
    PrefixesOfParent(f, p);
  }

  // ------------------------------------------------------------- several at a time

  /** One node more: it is set exactly if none before it was refused. */
  lemma {:induction false} SetOneMore(f: Flat, nodes: seq<StoreNode>, node: StoreNode)
    ensures var (g, r), p := SetAll(f, nodes), KeyComponents(node.key);
            SetAll(f, nodes + [node]) ==
              if r.Failure? then (g, r)
              else if p == [] then (g, Success(()))
              else (SetFlat(g, p, node), SetResult(g, p))
    decreases |nodes|
  {
    var all := nodes + [node];
    if nodes == [] {
      assert all == [node] && all[1..] == [];
    } else {
      assert all[0] == nodes[0] && all[1..] == nodes[1..] + [node];
      SetOneMore(SetFlat(f, KeyComponents(nodes[0].key), nodes[0]), nodes[1..], node);
    }
  }

  ghost predicate SetsBelow(nodes: seq<StoreNode>, q: Path) {
    exists i :: 0 <= i < |nodes| && q <= KeyComponents(nodes[i].key) != q
  }

  ghost predicate LastSetOf(nodes: seq<StoreNode>, q: Path, i: nat) {
    && i < |nodes| && KeyComponents(nodes[i].key) == q
    && forall j | i < j < |nodes| :: KeyComponents(nodes[j].key) != q
  }

  /** A leaf is in the way of all that would be set below it. */
  lemma {:induction false} NothingBelowLeaf(f: Flat, nodes: seq<StoreNode>, q: Path)
    requires q in f.leaves && SetAll(f, nodes).1.Success?
    ensures !SetsBelow(nodes, q) && q in SetAll(f, nodes).0.leaves
    decreases |nodes|
  {
    if nodes != [] {
      var p := KeyComponents(nodes[0].key);
      assert p != [] ==> forall i | 0 <= i < |p| :: p[..i] !in f.leaves;
      assert q <= p ==> q == p[..|q|];
      NothingBelowLeaf(SetFlat(f, p, nodes[0]), nodes[1..], q);
      assert forall i | 0 < i < |nodes| :: nodes[i] == nodes[1..][i - 1];
    }
  }

  /** After several sets, none of them refused: the last set of a key counts, everything
      above a key is a directory, and all else reads as before. */
  lemma {:induction false} GetAfterSets(f: Flat, nodes: seq<StoreNode>, q: Path)
    requires WellFormed(f) && q != [] && SetAll(f, nodes).1.Success?
    ensures WellFormed(SetAll(f, nodes).0)
    ensures forall i: nat | LastSetOf(nodes, q, i) :: GetResult(SetAll(f, nodes).0, q) == Success(nodes[i])
    ensures SetsBelow(nodes, q) ==> GetResult(SetAll(f, nodes).0, q) == Failure(NodeIsDirectory)
    ensures (forall i | 0 <= i < |nodes| :: !(q <= KeyComponents(nodes[i].key))) ==>
              GetResult(SetAll(f, nodes).0, q) == GetResult(f, q)
    decreases |nodes|
  {
    if nodes != [] {
      var p, rest := KeyComponents(nodes[0].key), nodes[1..];
      var g := SetFlat(f, p, nodes[0]);
      SetKeepsWellFormed(f, p, nodes[0]);
      GetAfterSets(g, rest, q);
      assert forall i | 0 < i < |nodes| :: nodes[i] == rest[i - 1];
      FirstOfSets(f, nodes, q);
      forall i: nat | LastSetOf(nodes, q, i)
        ensures GetResult(SetAll(f, nodes).0, q) == Success(nodes[i])
      {
        if i > 0 {
          assert LastSetOf(rest, q, i - 1);
        }
      }
    }
  }

  /** What the first set does to the reading of q, if no later one is at or below q. */
  lemma FirstOfSets(f: Flat, nodes: seq<StoreNode>, q: Path)
    requires WellFormed(f) && q != [] && nodes != [] && SetAll(f, nodes).1.Success?
    requires var g := SetFlat(f, KeyComponents(nodes[0].key), nodes[0]);
             && (SetsBelow(nodes[1..], q) ==> GetResult(SetAll(f, nodes).0, q) == Failure(NodeIsDirectory))
             && ((forall i | 0 <= i < |nodes[1..]| :: !(q <= KeyComponents(nodes[1..][i].key))) ==>
                   GetResult(SetAll(f, nodes).0, q) == GetResult(g, q))
    ensures LastSetOf(nodes, q, 0) ==> GetResult(SetAll(f, nodes).0, q) == Success(nodes[0])
    ensures SetsBelow(nodes, q) ==> GetResult(SetAll(f, nodes).0, q) == Failure(NodeIsDirectory)
    ensures (forall i | 0 <= i < |nodes| :: !(q <= KeyComponents(nodes[i].key))) ==>
              GetResult(SetAll(f, nodes).0, q) == GetResult(f, q)
  {
    var p, rest := KeyComponents(nodes[0].key), nodes[1..];
    var g := SetFlat(f, p, nodes[0]);
    assert forall i | 0 <= i < |rest| :: rest[i] == nodes[i + 1];
    if p != [] {
      GetAfterSet(f, p, nodes[0], q);
    }
    if LastSetOf(nodes, q, 0) {
      NothingBelowLeaf(g, rest, q);
    } else if q <= p && q != p {
      SetKeepsWellFormed(f, p, nodes[0]);
      DirectoryStays(g, rest, q);
    }
  }

  lemma {:induction false} DirectoryStays(f: Flat, nodes: seq<StoreNode>, q: Path)
    requires q in f.dirs && WellFormed(f) && SetAll(f, nodes).1.Success?
    ensures q in SetAll(f, nodes).0.dirs && WellFormed(SetAll(f, nodes).0)
    decreases |nodes|
  {
    if nodes != [] {
      var p := KeyComponents(nodes[0].key);
      SetKeepsWellFormed(f, p, nodes[0]);
      DirectoryStays(SetFlat(f, p, nodes[0]), nodes[1..], q);
    }
  }

  /** One key more: it is deleted exactly if none before it was missing. */
  lemma {:induction false} DeleteOneMore(f: Flat, keys: seq<string>, key: string)
    ensures var (g, r), p := DeleteAll(f, keys), KeyComponents(key);
            DeleteAll(f, keys + [key]) ==
              if r.Failure? then (g, r)
              else if Exists(g, p) then (DeleteFlat(g, p), Success(())) else (g, Failure(KeyNotFound))
    decreases |keys|
  {
    var all := keys + [key];
    if keys == [] {
      assert all == [key] && all[1..] == [];
    } else {
      assert all[0] == keys[0] && all[1..] == keys[1..] + [key];
      if Exists(f, KeyComponents(keys[0])) {
        DeleteOneMore(DeleteFlat(f, KeyComponents(keys[0])), keys[1..], key);
      }
    }
  }

  /** After several deletes, none of them of a missing key, nothing is found at or below
      any of the keys, and all else reads as before. */
  lemma {:induction false} GetAfterDeletes(f: Flat, keys: seq<string>, q: Path)
    requires DeleteAll(f, keys).1.Success?
    ensures GetResult(DeleteAll(f, keys).0, q) ==
            if exists k :: k in keys && KeyComponents(k) <= q then Failure(KeyNotFound) else GetResult(f, q)
    decreases |keys|
  {
    if keys != [] {
      var p := KeyComponents(keys[0]);
      GetAfterDelete(f, p, q);
      GetAfterDeletes(DeleteFlat(f, p), keys[1..], q);
      assert keys == [keys[0]] + keys[1..];
    }
  }

  // ------------------------------------------------------------------ listed keys

  /** The keys in a listing lead to what they are listed for. */
  lemma {:induction false} ListedKeyLeads(key: string, below: Path)
    requires forall i | 0 <= i < |below| :: IsComponent(below[i])
    ensures KeyComponents(ListedKey(key, below)) == KeyComponents(key) + below
    decreases |below|
  {
    if below != [] {
      ChildKeyLeads(key, below[0]);
      ListedKeyLeads(ChildKey(key, below[0]), below[1..]);
      assert KeyComponents(key) + [below[0]] + below[1..] == KeyComponents(key) + below;
    }
  }

  lemma ChildKeyLeads(key: string, name: string)
    requires IsComponent(name)
    ensures KeyComponents(ChildKey(key, name)) == KeyComponents(key) + [name]
  {
    ComponentsOfJoined(key, name);
    ComponentsOfJoined(name, "");
    if key == "/" {
      ComponentsOfJoined("", "");
      ComponentsOfJoined("", name);
      assert "" + "/" + "" == key && "" + "/" + name == ChildKey(key, name);
    }
  }
}
