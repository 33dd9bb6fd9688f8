/** The in-memory store: a tree of container nodes updated in place, against a flat map of
    leaves and a set of directories. */
module FakeStore {
  import opened Collections
  import opened Wrappers

  type Path = seq<string>

  /** What a leaf stores: the node as the caller passed it. */
  datatype StoreNode = StoreNode(key: string, value: string)

  datatype Error = KeyNotFound | KeyExists | NodeIsDirectory | NodeIsNotDirectory

  /** A listing: a directory with its listed children, or a leaf. */
  datatype Listing = DirListing(key: string, children: seq<Listing>) | LeafListing(node: StoreNode)

  class ContainerNode {
    const dir: bool
    const storeNode: StoreNode
    var nodes: map<string, ContainerNode>

    constructor Dir()
      ensures dir && nodes == map[]
    {
      dir, storeNode, nodes := true, StoreNode("", ""), map[];
    }

    constructor Leaf(node: StoreNode)
      ensures !dir && storeNode == node && nodes == map[]
    {
      dir, storeNode, nodes := false, node, map[];
    }
  }

  // ------------------------------------------------------------ the flat specification

  /** The store as a flat map of leaves and a set of directories. */
  datatype Flat = Flat(leaves: map<Path, StoreNode>, dirs: set<Path>)

  function Parent(p: Path): Path
    requires p != []
  {
    p[..|p| - 1]
  }

  /** The root is a directory, nothing is both, and whatever exists sits in directories. */
  ghost predicate WellFormed(f: Flat) {
    && [] in f.dirs
    && f.leaves.Keys !! f.dirs
    && (forall p {:trigger Parent(p)} | p != [] && (p in f.dirs || p in f.leaves) :: Parent(p) in f.dirs)
  }

  ghost predicate LeafAbove(f: Flat, p: Path) {
    exists i :: 0 <= i < |p| && p[..i] in f.leaves
  }

  ghost function ProperPrefixes(p: Path): set<Path> {
    set i | 0 <= i < |p| :: p[..i]
  }

  /** Setting one node: refused, with nothing changed, where a leaf is in the way or a
      directory is in its place; the root is silently left alone. */
  ghost function SetResult(f: Flat, p: Path): Result<(), Error> {
    if p == [] then Success(())
    else if LeafAbove(f, p) then Failure(NodeIsNotDirectory)
    else if p in f.dirs then Failure(NodeIsDirectory)
    else Success(())
  }

  ghost function SetFlat(f: Flat, p: Path, node: StoreNode): Flat {
    if p == [] || SetResult(f, p).Failure? then f
    else Flat(f.leaves[p := node], f.dirs + ProperPrefixes(p))
  }

  /** Setting several nodes in order, up to the first that is refused. */
  ghost function SetAll(f: Flat, nodes: seq<StoreNode>): (Flat, Result<(), Error>)
    decreases |nodes|
  {
    if nodes == [] then (f, Success(()))
    else
      var p := KeyComponents(nodes[0].key);
      if SetResult(f, p).Failure? then (f, SetResult(f, p)) else SetAll(SetFlat(f, p, nodes[0]), nodes[1..])
  }

  function GetResult(f: Flat, p: Path): Result<StoreNode, Error> {
    if p in f.leaves then Success(f.leaves[p])
    else if p in f.dirs then Failure(NodeIsDirectory)
    else Failure(KeyNotFound)
  }

  predicate Exists(f: Flat, p: Path) {
    p in f.leaves || p in f.dirs
  }

  /** Deleting removes exactly the subtree. */
  function DeleteFlat(f: Flat, p: Path): Flat {
    Flat(map q | q in f.leaves && !(p <= q) :: f.leaves[q], set q | q in f.dirs && !(p <= q))
  }

  ghost function DeleteAll(f: Flat, keys: seq<string>): (Flat, Result<(), Error>)
    decreases |keys|
  {
    if keys == [] then (f, Success(()))
    else
      var p := KeyComponents(keys[0]);
      if Exists(f, p) then DeleteAll(DeleteFlat(f, p), keys[1..]) else (f, Failure(KeyNotFound))
  }

  // ------------------------------------------------------------------------- keys

  /** Splits at slashes and drops the empty parts. */
  function KeyComponents(key: string): Path {
    ComponentsFrom("", key)
  }

  function ComponentsFrom(part: string, rest: string): Path
    decreases |rest|
  {
    if rest == [] then (if part == "" then [] else [part])
    else if rest[0] == '/' then (if part == "" then [] else [part]) + ComponentsFrom("", rest[1..])
    else ComponentsFrom(part + [rest[0]], rest[1..])
  }

  function KeyOf(p: Path): string {
    if p == [] then "" else "/" + p[0] + KeyOf(p[1..])
  }

  predicate IsComponent(s: string) {
    s != "" && '/' !in s
  }

  lemma {:induction false} ComponentsOfPart(part: string, s: string, rest: string)
    requires '/' !in s && (rest == "" || rest[0] == '/')
    ensures ComponentsFrom(part, s + rest)
         == (if part + s == "" then [] else [part + s]) + ComponentsFrom("", rest)
    decreases |s|
  {
    if s == "" {
      assert s + rest == rest && part + s == part;
    } else {
      assert (s + rest)[0] == s[0] && (s + rest)[1..] == s[1..] + rest;
      ComponentsOfPart(part + [s[0]], s[1..], rest);
      assert part + [s[0]] + s[1..] == part + s;
    }
  }

  /** Every path of proper components is the components of its key. */
  lemma {:induction false} ComponentsRoundTrip(p: Path)
    requires forall i | 0 <= i < |p| :: IsComponent(p[i])
    ensures KeyComponents(KeyOf(p)) == p
  {
    if p != [] {
      ComponentsRoundTrip(p[1..]);
      var key := "/" + p[0] + KeyOf(p[1..]);
      assert key[0] == '/' && key[1..] == p[0] + KeyOf(p[1..]);
      ComponentsOfPart("", p[0], KeyOf(p[1..]));
      assert [] + p[0] == p[0];
      assert [p[0]] + p[1..] == p;
    }
  }

  /** A slash separates, however many there are: what comes before it and what comes after
      are split by themselves, and a part without a slash is one component unless empty. */
  lemma ComponentsOfJoined(left: string, right: string)
    ensures KeyComponents(left + "/" + right) == KeyComponents(left) + KeyComponents(right)
    ensures '/' !in left ==> KeyComponents(left) == if left == "" then [] else [left]
  {
    ComponentsApart("", left, right);
    if '/' !in left {
      ComponentsOfPart("", left, "");
      assert left + "" == left && "" + left == left;
    }
  }

  lemma {:induction false} ComponentsApart(part: string, left: string, right: string)
    ensures ComponentsFrom(part, left + "/" + right) == ComponentsFrom(part, left) + KeyComponents(right)
    decreases |left|
  {
    var key := left + "/" + right;
    if left == "" {
      assert key[0] == '/' && key[1..] == right;
    } else {
      assert key[0] == left[0] && key[1..] == left[1..] + "/" + right;
      ComponentsApart(if left[0] == '/' then "" else part + [left[0]], left[1..], right);
    }
  }

  // ------------------------------------------------------------------- the tree

  type Cells = map<Path, ContainerNode>

  ghost function Flatten(cells: Cells): Flat {
    Flat(map p | p in cells && !cells[p].dir :: cells[p].storeNode, set p | p in cells && cells[p].dir)
  }

  /** The cells once the walk along p has created the directories up to the i-th. */
  ghost predicate OnTheWay(before: Cells, now: Cells, p: Path, i: nat)
    requires i <= |p|
  {
    && (forall q :: q in now <==> q in before || exists j :: 0 <= j <= i && q == p[..j])
    && (forall q | q in before :: now[q] == before[q])
    && (forall j | 0 <= j <= i :: p[..j] in now && now[p[..j]].dir)
  }

  lemma WayExtends(before: Cells, now: Cells, then_: Cells, p: Path, i: nat)
    requires i < |p| && OnTheWay(before, now, p, i)
    requires p[..i + 1] in then_ && then_[p[..i + 1]].dir
    requires then_ == now || (p[..i + 1] !in now && then_ == now[p[..i + 1] := then_[p[..i + 1]]])
    ensures OnTheWay(before, then_, p, i + 1)
  {
    forall j | 0 <= j <= i + 1 ensures p[..j] in then_ && then_[p[..j]].dir {
      if j <= i {
        assert p[..j] in now && now[p[..j]].dir;
      }
    }
  }

  /** A directory where the leaf should go, or a leaf on the way: the set is refused. */
  lemma RefusedHere(cells: Cells, p: Path, i: nat)
    requires i < |p| && OnTheWay(cells, cells, p, i)
    requires p[..i + 1] in cells && (cells[p[..i + 1]].dir <==> i == |p| - 1)
    ensures SetResult(Flatten(cells), p) == Failure(if i == |p| - 1 then NodeIsDirectory else NodeIsNotDirectory)
  {
    var f := Flatten(cells);
    if i == |p| - 1 {
      assert p[..i + 1] == p;
      forall j | 0 <= j < |p| ensures p[..j] !in f.leaves {
        assert p[..j] in cells && cells[p[..j]].dir;
      }
    } else {
      assert p[..i + 1] in f.leaves;
    }
  }

  lemma AcceptedHere(before: Cells, now: Cells, p: Path, leaf: ContainerNode)
    requires p != [] && OnTheWay(before, now, p, |p| - 1) && !leaf.dir
    requires p in now ==> !now[p].dir
    ensures SetResult(Flatten(before), p) == Success(())
    ensures Flatten(now[p := leaf]) == SetFlat(Flatten(before), p, leaf.storeNode)
  {
    var f := Flatten(before);
    forall j | 0 <= j < |p| ensures p[..j] !in f.leaves {
      assert p[..j] in now && now[p[..j]].dir;
    }
    assert !LeafAbove(f, p);
    assert p !in f.dirs;
    var g, h := Flatten(now[p := leaf]), SetFlat(f, p, leaf.storeNode);
    forall q ensures q in g.dirs <==> q in h.dirs {
      if q in ProperPrefixes(p) {
        var j :| 0 <= j < |p| && q == p[..j];
        assert p[..j] in now && now[p[..j]].dir;
      }
    }
    assert g.leaves == h.leaves;
  }

  /** Everything but the root sits in a directory. */
  ghost predicate Rooted(cells: Cells) {
    forall p {:trigger Parent(p)} | p in cells && p != [] :: Parent(p) in cells && cells[Parent(p)].dir
  }

  ghost function Without(cells: Cells, p: Path): Cells {
    map q | q in cells && !(p <= q) :: cells[q]
  }

  lemma FlattenWithout(cells: Cells, p: Path)
    ensures Flatten(Without(cells, p)) == DeleteFlat(Flatten(cells), p)
  {
  }

  lemma ParentsStay(cells: Cells, p: Path)
    requires Rooted(cells)
    ensures Rooted(Without(cells, p))
  {
    var rest := Without(cells, p);
    forall q | q in rest && q != [] ensures Parent(q) in rest && rest[Parent(q)].dir {
      assert p <= Parent(q) ==> p <= q;
    }
  }

  class FakeStoreAdapter {
    var rootNode: ContainerNode
    /** Every node of the tree, by its path. */
    ghost var cells: map<Path, ContainerNode>

    ghost predicate Valid()
      reads this, cells.Values
    {
      && [] in cells && cells[[]] == rootNode && rootNode.dir
      && (forall p, q | p in cells && q in cells && cells[p] == cells[q] :: p == q)
      && Rooted(cells)
      && (forall p, k | p in cells && cells[p].dir :: k in cells[p].nodes <==> p + [k] in cells)
      && (forall p, k | p in cells && cells[p].dir && k in cells[p].nodes :: cells[p].nodes[k] == cells[p + [k]])
      && (forall p | p in cells && !cells[p].dir :: cells[p].nodes == map[])
    }

    ghost function View(): Flat
      reads this
    {
      Flatten(cells)
    }

    constructor ()
      ensures Valid() && View() == Flat(map[], {[]})
      ensures fresh(cells.Values)
    {
      var root := new ContainerNode.Dir();
      rootNode := root;
      cells := map[[] := root];
    }

    lemma ViewWellFormed()
      requires Valid()
      ensures WellFormed(View())
    {
    }

    /** The walk from the root along the components: the container they lead to, if any. */
    method Walk(components: Path) returns (container: ContainerNode, exists_: bool)
      requires Valid()
      ensures exists_ <==> components in cells
      ensures exists_ ==> container == cells[components]
    {
      container := rootNode;
      for i := 0 to |components|
        invariant components[..i] in cells && container == cells[components[..i]]
      {
        assert components[..i + 1] == components[..i] + [components[i]];
        if components[i] !in container.nodes {
          assert Parent(components[..i + 1]) == components[..i];
          NotBelow(components, i + 1);
          return container, false;
        }
        container := container.nodes[components[i]];
      }
      assert components[..|components|] == components;
      exists_ := true;
    }

    lemma {:induction false} NotBelow(p: Path, i: nat)
      requires Valid() && i <= |p| && p[..i] !in cells
      ensures p !in cells
      decreases |p| - i
    {
      if i < |p| {
        assert Parent(p[..i + 1]) == p[..i];
        NotBelow(p, i + 1);
      } else {
        assert p[..i] == p;
      }
    }

    method Get(key: string) returns (r: Result<StoreNode, Error>)
      requires Valid()
      ensures r == GetResult(View(), KeyComponents(key))
    {
      var container, found := Walk(KeyComponents(key));
      if !found {
        return Failure(KeyNotFound);
      }
      return if container.dir then Failure(NodeIsDirectory) else Success(container.storeNode);
    }

    /** Puts a new node under the directory at path p, in place of nothing or of a leaf. */
    method Attach(ghost p: Path, container: ContainerNode, component: string, node: ContainerNode)
      requires Valid() && p in cells && cells[p] == container && container.dir
      requires node.nodes == map[] && node !in cells.Values
      requires p + [component] in cells ==> !cells[p + [component]].dir
      modifies this`cells, container
      ensures Valid() && cells == old(cells)[p + [component] := node]
    {
      ghost var before := cells;
      container.nodes := container.nodes[component := node];
      cells := cells[p + [component] := node];
      assert (p + [component])[..|p|] == p;
      forall q, k | q in cells && cells[q].dir ensures k in cells[q].nodes <==> q + [k] in cells {
        ChildPaths(p, component, q, k);
        assert Parent(q + [k]) == q;
      }
      forall q, k | q in cells && cells[q].dir && k in cells[q].nodes ensures cells[q].nodes[k] == cells[q + [k]] {
        ChildPaths(p, component, q, k);
      }
      assert Rooted(cells) by {
        forall q | q in cells && q != [] ensures Parent(q) in cells && cells[Parent(q)].dir {
          assert q == p + [component] ==> Parent(q) == p;
          assert q != p + [component] ==> q in before && Parent(q) in before && before[Parent(q)].dir;
        }
      }
    }

    static lemma ChildPaths(p: Path, a: string, q: Path, b: string)
      ensures p + [a] == q + [b] <==> p == q && a == b
    {
      if p + [a] == q + [b] {
        assert (p + [a])[..|p|] == p && (q + [b])[..|q|] == q;
        assert (p + [a])[|p|] == a && (q + [b])[|q|] == b;
      }
    }

    /** The end of the walk: the leaf goes under the last container. */
    method PlaceLeaf(ghost before: Cells, ghost p: Path, container: ContainerNode, component: string, node: StoreNode)
      returns (r: Result<(), Error>)
      requires Valid() && p != [] && component == p[|p| - 1] && OnTheWay(before, cells, p, |p| - 1)
      requires container == cells[Parent(p)] && (cells == before || container.nodes == map[])
      modifies this`cells, container
      ensures Valid() && fresh(cells.Values - old(cells.Values))
      ensures r == SetResult(Flatten(before), p)
      ensures View() == SetFlat(Flatten(before), p, node)
      ensures r.Failure? ==> cells == before
    {
      assert Parent(p) + [component] == p;
      ghost var now := cells;
      assert p in now <==> component in container.nodes;
      if component in container.nodes && container.nodes[component].dir {
        assert cells == before && p[..|p|] == p;
        RefusedHere(before, p, |p| - 1);
        return Failure(NodeIsDirectory);
      }
      assert p in now ==> !now[p].dir;
      var leaf := new ContainerNode.Leaf(node);
      Attach(Parent(p), container, component, leaf);
      assert cells.Values <= old(cells.Values) + {leaf};
      AcceptedHere(before, now, p, leaf);
      return Success(());
    }

    /** A step of the walk: down into a directory, which is created if it is missing. */
    method StepDown(ghost before: Cells, ghost p: Path, ghost i: nat, container: ContainerNode, component: string)
      returns (r: Result<ContainerNode, Error>)
      requires Valid() && i + 1 < |p| && component == p[i] && OnTheWay(before, cells, p, i)
      requires container == cells[p[..i]] && (cells == before || container.nodes == map[])
      modifies this`cells, container
      ensures Valid() && fresh(cells.Values - old(cells.Values))
      ensures r.Failure? ==> cells == before && SetResult(Flatten(before), p) == Failure(r.error)
      ensures r.Success? ==> OnTheWay(before, cells, p, i + 1) && r.value == cells[p[..i + 1]]
      ensures r.Success? ==> cells == before || r.value.nodes == map[]
    {
      ghost var now := cells;
      assert p[..i + 1] == p[..i] + [component];
      if component in container.nodes {
        if !container.nodes[component].dir {
          RefusedHere(before, p, i);
          return Failure(NodeIsNotDirectory);
        }
        r := Success(container.nodes[component]);
      } else {
        var newContainer := new ContainerNode.Dir();
        Attach(p[..i], container, component, newContainer);
        r := Success(newContainer);
      }
      WayExtends(before, now, cells, p, i);
    }

    /** The walk down to the last container, which makes the directories that are missing. */
    method WalkDown(components: Path) returns (r: Result<ContainerNode, Error>)
      requires Valid() && components != []
      modifies this`cells, cells.Values
      ensures Valid() && fresh(cells.Values - old(cells.Values))
      ensures r.Failure? ==> cells == old(cells) && SetResult(Flatten(old(cells)), components) == Failure(r.error)
      ensures r.Success? ==> OnTheWay(old(cells), cells, components, |components| - 1)
      ensures r.Success? ==> r.value == cells[components[..|components| - 1]]
      ensures r.Success? ==> cells == old(cells) || r.value.nodes == map[]
    {
      ghost var before := cells;
      var container := rootNode;
      for i := 0 to |components| - 1
        invariant Valid() && fresh(cells.Values - old(cells.Values))
        invariant OnTheWay(before, cells, components, i)
        invariant container == cells[components[..i]] && (cells == before || container.nodes == map[])
      {
        assert container in cells.Values;
        var next := StepDown(before, components, i, container, components[i]);
        if next.Failure? {
          return Failure(next.error);
        }
        container := next.value;
      }
      r := Success(container);
    }

    /** One round of setMulti. */
    method SetNode(node: StoreNode) returns (r: Result<(), Error>)
      requires Valid()
      modifies this`cells, cells.Values
      ensures Valid() && fresh(cells.Values - old(cells.Values))
      ensures r == SetResult(old(View()), KeyComponents(node.key))
      ensures View() == SetFlat(old(View()), KeyComponents(node.key), node)
      ensures r.Failure? ==> cells == old(cells)
    {
      var components := KeyComponents(node.key);
      ghost var before := cells;
      if |components| == 0 {
        return Success(());
      }
      var container := WalkDown(components);
      if container.Failure? {
        return Failure(container.error);
      }
      assert container.value in cells.Values;
      r := PlaceLeaf(before, components, container.value, components[|components| - 1], node);
    }

    /** setMulti: the nodes are set one after the other, up to the first that is refused. */
    method SetMulti(nodes: seq<StoreNode>) returns (r: Result<(), Error>)
      requires Valid()
      modifies this`cells, cells.Values
      ensures Valid() && fresh(cells.Values - old(cells.Values))
      ensures (View(), r) == SetAll(old(View()), nodes)
    {
      for i := 0 to |nodes|
        invariant Valid() && fresh(cells.Values - old(cells.Values))
        invariant SetAll(View(), nodes[i..]) == SetAll(old(View()), nodes)
      {
        assert nodes[i..][0] == nodes[i] && nodes[i..][1..] == nodes[i + 1..];
        r := SetNode(nodes[i]);
        if r.Failure? {
          return;
        }
      }
      r := Success(());
    }

    method Create(node: StoreNode) returns (r: Result<(), Error>)
      requires Valid()
      modifies this`cells, cells.Values
      ensures Valid() && fresh(cells.Values - old(cells.Values))
      ensures var p := KeyComponents(node.key);
              if p in old(View()).leaves then r == Failure(KeyExists) && View() == old(View())
              else r == SetResult(old(View()), p) && View() == SetFlat(old(View()), p, node)
    {
      var existing := Get(node.key);
      if existing.Success? {
        return Failure(KeyExists);
      }
      r := SetNode(node);
    }

    /** One round of Delete: the leaf or directory at the key goes with everything below it.
        The code takes the last component of the key, so the root cannot be deleted. */
    method DeleteKey(key: string) returns (r: Result<(), Error>)
      requires Valid() && KeyComponents(key) != []
      modifies this`cells, cells.Values
      ensures Valid() && cells.Values <= old(cells.Values)
      ensures var p := KeyComponents(key);
              if Exists(old(View()), p) then r == Success(()) && View() == DeleteFlat(old(View()), p)
              else r == Failure(KeyNotFound) && View() == old(View())
    {
      var components := KeyComponents(key);
      var parentNode := rootNode;
      var container := rootNode;
      for i := 0 to |components|
        invariant components[..i] in cells && container == cells[components[..i]]
        invariant i > 0 ==> components[..i - 1] in cells && parentNode == cells[components[..i - 1]]
      {
        assert components[..i + 1] == components[..i] + [components[i]];
        assert components[..i + 1][..i] == components[..i];
        parentNode := container;
        if components[i] !in container.nodes {
          assert Parent(components[..i + 1]) == components[..i];
          NotBelow(components, i + 1);
          return Failure(KeyNotFound);
        }
        container := container.nodes[components[i]];
      }
      assert components[..|components|] == components;
      Detach(components, parentNode, components[|components| - 1]);
      r := Success(());
    }

    /** The keys are deleted one after the other, up to the first that is not there. */
    method Delete(keys: seq<string>) returns (r: Result<(), Error>)
      requires Valid() && forall k | k in keys :: KeyComponents(k) != []
      modifies this`cells, cells.Values
      ensures Valid() && cells.Values <= old(cells.Values)
      ensures (View(), r) == DeleteAll(old(View()), keys)
    {
      for i := 0 to |keys|
        invariant Valid() && cells.Values <= old(cells.Values)
        invariant DeleteAll(View(), keys[i..]) == DeleteAll(old(View()), keys)
      {
        assert keys[i..][0] == keys[i] && keys[i..][1..] == keys[i + 1..];
        assert keys[i] in keys;
        r := DeleteKey(keys[i]);
        if r.Failure? {
          return;
        }
      }
      r := Success(());
    }

    method Detach(ghost p: Path, parent: ContainerNode, component: string)
      requires Valid() && p != [] && p in cells && parent == cells[Parent(p)] && component == p[|p| - 1]
      modifies this`cells, parent
      ensures Valid() && cells.Values <= old(cells.Values)
      ensures View() == DeleteFlat(old(View()), p)
    {
      ghost var above := Parent(p);
      assert p == above + [component];
      FlattenWithout(cells, p);
      ParentsStay(cells, p);
      ChildrenWithout(p);
      parent.nodes := parent.nodes - {component};
      cells := Without(cells, p);
    }

    /** What the children of the remaining directories will be once p is cut off. */
    lemma ChildrenWithout(p: Path)
      requires Valid() && p != [] && p in cells
      ensures var above, component, rest := Parent(p), p[|p| - 1], Without(cells, p);
              && above in rest
              && (forall q, k | q in rest && q != above && rest[q].dir :: k in rest[q].nodes <==> q + [k] in rest)
              && (forall k :: k in rest[above].nodes - {component} <==> above + [k] in rest)
    {
      var above, component, rest := Parent(p), p[|p| - 1], Without(cells, p);
      assert p == above + [component];
      forall q, k | q in rest && rest[q].dir
        ensures q + [k] in rest <==> k in rest[q].nodes && !(q == above && k == component)
      {
        ChildPaths(above, component, q, k);
        BelowChild(p, q, k);
      }
    }

    static lemma BelowChild(p: Path, q: Path, k: string)
      ensures p <= q + [k] <==> p <= q || p == q + [k]
    {
      if p <= q + [k] && |p| == |q| + 1 {
        assert p == q + [k];
      }
      if p <= q + [k] && |p| <= |q| {
        assert (q + [k])[..|p|] == q[..|p|];
      }
    }

    lemma {:induction false} PrefixExists(q: Path, i: nat)
      requires Valid() && q in cells && i <= |q|
      ensures q[..i] in cells && (i < |q| ==> cells[q[..i]].dir)
      decreases |q| - i
    {
      if i == |q| {
        assert q[..i] == q;
      } else {
        PrefixExists(q, i + 1);
        assert Parent(q[..i + 1]) == q[..i];
      }
    }

    /** Below a directory every cell sits under one of its children. */
    lemma BelowDirectory(p: Path, q: Path)
      requires Valid() && p in cells && cells[p].dir && q in cells && p <= q && q != p
      ensures q[|p|] in cells[p].nodes && p + [q[|p|]] <= q && p + [q[|p|]] in cells
    {
      PrefixExists(q, |p| + 1);
      PrefixChild(p, q);
    }

    static lemma PrefixChild(p: Path, q: Path)
      requires p <= q && q != p
      ensures q[..|p| + 1] == p + [q[|p|]] && p + [q[|p|]] <= q
    {
      assert q[..|p| + 1] == p + [q[|p|]];
    }

    lemma NothingBelowLeaf(p: Path, q: Path)
      requires Valid() && p in cells && !cells[p].dir && q in cells && p <= q
      ensures q == p
    {
      assert q[..|p|] == p;
      PrefixExists(q, |p|);
    }

    /** A listing holds every leaf below p once and every directory below p once, under
        the key that leads there from `key`. */
    ghost predicate Lists(p: Path, key: string, listing: Listing, paths: seq<Path>, dirs: seq<Path>)
      reads this
    {
      && Distinct(paths) && Distinct(dirs)
      && (forall q :: q in paths <==> q in cells && !cells[q].dir && p <= q)
      && (forall q :: q in dirs <==> q in cells && cells[q].dir && p <= q)
      && LeavesOf(listing) == NodesAt(cells, paths)
      && DirKeys(listing) == KeysAt(|p|, key, dirs)
    }

    /** The listing nests as the tree does: a listed directory has one child for each of
        its names, which is the listing of the path under that name. */
    ghost predicate IsTree(p: Path, key: string, listing: Listing)
      reads this
      decreases listing, 0
    {
      && p in cells && cells[p].dir && listing.DirListing? && listing.key == key
      && exists names: seq<string> ::
           && |names| == |listing.children| && Distinct(names) && (forall n :: n in names <==> p + [n] in cells)
           && forall i | 0 <= i < |names| :: IsChild(p + [names[i]], ChildKey(key, names[i]), listing.children[i])
    }

    ghost predicate IsChild(p: Path, key: string, child: Listing)
      reads this
      decreases child, 1
    {
      p in cells && if cells[p].dir then IsTree(p, key, child) else child == LeafListing(cells[p].storeNode)
    }

    ghost predicate Children(p: Path, key: string, children: seq<Listing>, names: seq<string>, done: set<string>)
      reads this
    {
      && |names| == |children| && Distinct(names) && (forall n :: n in names <==> n in done)
      && forall i | 0 <= i < |names| :: IsChild(p + [names[i]], ChildKey(key, names[i]), children[i])
    }

    lemma OneChildMore(p: Path, key: string, children: seq<Listing>, names: seq<string>, done: set<string>,
        name: string, child: Listing)
      requires Children(p, key, children, names, done) && name !in done &&
          IsChild(p + [name], ChildKey(key, name), child)
      ensures Children(p, key, children + [child], names + [name], done + {name})
    {
      assert forall i | 0 <= i < |names| :: names[i] in names;
    }

    lemma AllChildren(p: Path, key: string, children: seq<Listing>, names: seq<string>, done: set<string>)
      requires Valid() && p in cells && cells[p].dir && done == cells[p].nodes.Keys
      requires Children(p, key, children, names, done)
      ensures IsTree(p, key, DirListing(key, children))
    {
      assert forall n :: n in names <==> p + [n] in cells;
    }

    ghost function Under(p: Path): set<Path>
      reads this
    {
      set q | q in cells && p <= q
    }

    /** listContainerNode: `paths` and `dirs` are the paths of the leaves and directories,
        in the order the listing holds them. */
    method ListContainerNode(key: string, container: ContainerNode, ghost p: Path)
      returns (listing: Listing, ghost paths: seq<Path>, ghost dirs: seq<Path>)
      requires Valid() && p in cells && container == cells[p] && container.dir
      ensures Lists(p, key, listing, paths, dirs) && IsTree(p, key, listing)
      decreases Under(p), 1
    {
      var childNodes: seq<Listing> := [];
      paths, dirs := [], [p];
      SoFarStart(p, key);
      var done: set<string> := {};
      ghost var names: seq<string> := [];
      while container.nodes.Keys - done != {}
        invariant done <= container.nodes.Keys
        invariant Children(p, key, childNodes, names, done)
        invariant SoFar(p, paths, dirs, done)
        invariant Collected(cells, |p|, key, childNodes, paths, dirs)
        decreases container.nodes.Keys - done
      {
        var nodeKey :| nodeKey in container.nodes.Keys - done;
        var child;
        ghost var childPaths, childDirs;
        child, childPaths, childDirs := ListChild(key, nodeKey, container.nodes[nodeKey], p);
        SoFarStep(p, nodeKey, paths, childPaths, dirs, childDirs, done);
        CollectedStep(cells, |p|, key, childNodes, child, paths, childPaths, dirs, childDirs);
        OneChildMore(p, key, childNodes, names, done, nodeKey, child);
        names := names + [nodeKey];
        childNodes := childNodes + [child];
        paths, dirs := paths + childPaths, dirs + childDirs;
        done := done + {nodeKey};
      }
      listing := DirListing(key, childNodes);
      NothingLeft(container.nodes.Keys, done);
      SoFarAll(p, key, childNodes, paths, dirs, done);
      AllChildren(p, key, childNodes, names, done);
    }

    /** What is listed once the given children of p are. */
    ghost predicate SoFar(p: Path, paths: seq<Path>, dirs: seq<Path>, done: set<string>)
      reads this
    {
      && Distinct(paths) && Distinct(dirs)
      && (forall q :: q in paths <==> q in cells && !cells[q].dir && ListedBelow(p, q, done))
      && (forall q :: q in dirs <==> q in cells && cells[q].dir && (q == p || ListedBelow(p, q, done)))
    }

    lemma SoFarStart(p: Path, key: string)
      requires p in cells && cells[p].dir
      ensures SoFar(p, [], [p], {}) && Collected(cells, |p|, key, [], [], [p])
    {
      assert p[|p|..] == [];
    }

    lemma SoFarStep(p: Path, nodeKey: string, paths: seq<Path>, childPaths: seq<Path>, dirs: seq<Path>,
                    childDirs: seq<Path>, done: set<string>)
      requires SoFar(p, paths, dirs, done) && nodeKey !in done && Distinct(childPaths) && Distinct(childDirs)
      requires forall q :: q in childPaths <==> q in cells && !cells[q].dir && p + [nodeKey] <= q
      requires forall q :: q in childDirs <==> q in cells && cells[q].dir && p + [nodeKey] <= q
      ensures SoFar(p, paths + childPaths, dirs + childDirs, done + {nodeKey})
    {
      ListedAppend(p, nodeKey, paths, childPaths, done);
      ListedAppend(p, nodeKey, dirs, childDirs, done);
      forall q ensures ListedBelow(p, q, done + {nodeKey}) <==> ListedBelow(p, q, done) || p + [nodeKey] <= q {
        assert p + [nodeKey] <= q <==> ListedBelow(p, q, {nodeKey});
      }
    }

    lemma SoFarAll(p: Path, key: string, children: seq<Listing>, paths: seq<Path>, dirs: seq<Path>, done: set<string>)
      requires Valid() && p in cells && cells[p].dir && done == cells[p].nodes.Keys && SoFar(p, paths, dirs, done)
      requires Collected(cells, |p|, key, children, paths, dirs)
      ensures Lists(p, key, DirListing(key, children), paths, dirs)
    {
      forall q | q in cells && p <= q && q != p ensures ListedBelow(p, q, done) {
        BelowDirectory(p, q);
      }
    }

    method ListChild(key: string, nodeKey: string, node: ContainerNode, ghost p: Path)
      returns (child: Listing, ghost paths: seq<Path>, ghost dirs: seq<Path>)
      requires Valid() && p in cells && cells[p].dir && nodeKey in cells[p].nodes && node == cells[p].nodes[nodeKey]
      ensures Distinct(paths) && Distinct(dirs)
      ensures forall q :: q in paths <==> q in cells && !cells[q].dir && p + [nodeKey] <= q
      ensures forall q :: q in dirs <==> q in cells && cells[q].dir && p + [nodeKey] <= q
      ensures LeavesOf(child) == NodesAt(cells, paths)
      ensures DirKeys(child) == KeysAt(|p|, key, dirs)
      ensures IsChild(p + [nodeKey], ChildKey(key, nodeKey), child)
      decreases Under(p), 0
    {
      ghost var c := p + [nodeKey];
      if node.dir {
        UnderShrinks(p, nodeKey);
        child, paths, dirs := ListContainerNode(ChildKey(key, nodeKey), node, c);
        assert forall i | 0 <= i < |dirs| :: dirs[i] in dirs;
        KeysOneUp(p, key, nodeKey, dirs);
      } else {
        child, paths, dirs := LeafListing(node.storeNode), [c], [];
        LeafAlone(c);
      }
    }

    lemma UnderShrinks(p: Path, nodeKey: string)
      requires p in cells
      ensures Under(p + [nodeKey]) < Under(p)
    {
      var c := p + [nodeKey];
      assert p in Under(p) && p !in Under(c);
      forall q | q in Under(c) ensures q in Under(p) {
        assert c[..|p|] == p;
      }
    }

    lemma LeafAlone(c: Path)
      requires Valid() && c in cells && !cells[c].dir
      ensures forall q :: q in cells && c <= q <==> q == c
      ensures LeavesOf(LeafListing(cells[c].storeNode)) == NodesAt(cells, [c])
    {
      forall q | q in cells && c <= q ensures q == c {
        NothingBelowLeaf(c, q);
      }
    }

    /** Some order of the paths below p is the order of the listing. */
    ghost predicate IsListing(p: Path, key: string, listing: Listing)
      reads this
    {
      exists paths, dirs :: Lists(p, key, listing, paths, dirs)
    }

    method ListRecursively(key: string) returns (r: Result<Listing, Error>)
      requires Valid()
      ensures var p, f := KeyComponents(key), View();
              if p in f.leaves then r == Failure(NodeIsNotDirectory)
              else if p !in f.dirs then r == Failure(KeyNotFound)
              else r.Success? && IsListing(p, key, r.value) && IsTree(p, key, r.value)
    {
      var container, found := Walk(KeyComponents(key));
      if !found {
        return Failure(KeyNotFound);
      }
      if !container.dir {
        return Failure(NodeIsNotDirectory);
      }
      var listing; ghost var paths, dirs;
      listing, paths, dirs := ListContainerNode(key, container, KeyComponents(key));
      assert IsListing(KeyComponents(key), key, listing);
      return Success(listing);
    }
  }

  // ---------------------------------------------------------------------- listings

  lemma NothingLeft<T>(all: set<T>, done: set<T>)
    requires done <= all && all - done == {}
    ensures done == all
  {
    forall x | x in all ensures x in done {
      assert x !in all - done;
    }
  }

  /** The leaves of a listing, in order. */
  function LeavesOf(listing: Listing): seq<StoreNode> {
    match listing
    case LeafListing(node) => [node]
    case DirListing(_, children) => LeavesOfAll(children)
  }

  function LeavesOfAll(children: seq<Listing>): seq<StoreNode> {
    if children == [] then []
    else LeavesOfAll(children[..|children| - 1]) + LeavesOf(children[|children| - 1])
  }

  /** The keys of the directories of a listing, each before the ones below it. */
  function DirKeys(listing: Listing): seq<string> {
    match listing
    case LeafListing(_) => []
    case DirListing(key, children) => [key] + DirKeysOfAll(children)
  }

  function DirKeysOfAll(children: seq<Listing>): seq<string> {
    if children == [] then []
    else DirKeysOfAll(children[..|children| - 1]) + DirKeys(children[|children| - 1])
  }

  lemma AppendChild(key: string, children: seq<Listing>, child: Listing)
    ensures LeavesOfAll(children + [child]) == LeavesOfAll(children) + LeavesOf(child)
    ensures [key] + DirKeysOfAll(children + [child]) == [key] + DirKeysOfAll(children) + DirKeys(child)
  {
    assert (children + [child])[..|children|] == children;
    assert DirKeysOfAll(children + [child]) == DirKeysOfAll(children) + DirKeys(child);
  }

  ghost predicate Collected(cells: Cells, depth: nat, key: string, children: seq<Listing>, paths: seq<Path>,
                            dirs: seq<Path>)
  {
    LeavesOfAll(children) == NodesAt(cells, paths) && [key] + DirKeysOfAll(children) == KeysAt(depth, key, dirs)
  }

  lemma CollectedStep(cells: Cells, depth: nat, key: string, children: seq<Listing>, child: Listing, paths: seq<Path>,
                      childPaths: seq<Path>, dirs: seq<Path>, childDirs: seq<Path>)
    requires Collected(cells, depth, key, children, paths, dirs)
    requires LeavesOf(child) == NodesAt(cells, childPaths) && DirKeys(child) == KeysAt(depth, key, childDirs)
    ensures Collected(cells, depth, key, children + [child], paths + childPaths, dirs + childDirs)
  {
    AppendChild(key, children, child);
    NodesAtConcat(cells, paths, childPaths);
    KeysAtConcat(depth, key, dirs, childDirs);
  }

  function ChildKey(key: string, nodeKey: string): string {
    if key == "/" then "/" + nodeKey else key + "/" + nodeKey
  }

  /** The key that leads from `key` down the components. */
  function ListedKey(key: string, below: Path): string
    decreases |below|
  {
    if below == [] then key else ListedKey(ChildKey(key, below[0]), below[1..])
  }

  ghost function NodesAt(cells: Cells, paths: seq<Path>): seq<StoreNode> {
    seq(|paths|, i requires 0 <= i < |paths| =>
          if paths[i] in cells then cells[paths[i]].storeNode else StoreNode("", ""))
  }

  ghost function KeyAt(depth: nat, key: string, path: Path): string {
    if depth <= |path| then ListedKey(key, path[depth..]) else ""
  }

  ghost function KeysAt(depth: nat, key: string, paths: seq<Path>): seq<string> {
    seq(|paths|, i requires 0 <= i < |paths| => KeyAt(depth, key, paths[i]))
  }

  lemma NodesAtConcat(cells: Cells, a: seq<Path>, b: seq<Path>)
    ensures NodesAt(cells, a + b) == NodesAt(cells, a) + NodesAt(cells, b)
  {
  }

  lemma KeysAtConcat(depth: nat, key: string, a: seq<Path>, b: seq<Path>)
    ensures KeysAt(depth, key, a + b) == KeysAt(depth, key, a) + KeysAt(depth, key, b)
  {
  }

  lemma KeysOneUp(p: Path, key: string, nodeKey: string, dirs: seq<Path>)
    requires forall i | 0 <= i < |dirs| :: p + [nodeKey] <= dirs[i]
    ensures KeysAt(|p| + 1, ChildKey(key, nodeKey), dirs) == KeysAt(|p|, key, dirs)
  {
    forall i | 0 <= i < |dirs|
      ensures KeyAt(|p| + 1, ChildKey(key, nodeKey), dirs[i]) == KeyAt(|p|, key, dirs[i])
    {
      var q := dirs[i];
      assert p + [nodeKey] <= q;
      assert q[|p|..][0] == (p + [nodeKey])[|p|] && q[|p|..][1..] == q[|p| + 1..];
    }
  }

  /** q is below p under one of the given children. */
  ghost predicate ListedBelow(p: Path, q: Path, done: set<string>) {
    p <= q && |q| > |p| && q[|p|] in done
  }

  lemma ListedAppend(p: Path, nodeKey: string, paths: seq<Path>, childPaths: seq<Path>, done: set<string>)
    requires Distinct(paths) && Distinct(childPaths) && nodeKey !in done
    requires forall q | q in paths :: q == p || ListedBelow(p, q, done)
    requires forall q | q in childPaths :: p + [nodeKey] <= q
    ensures Distinct(paths + childPaths)
    ensures forall q :: p + [nodeKey] <= q <==> ListedBelow(p, q, {nodeKey})
  {
    forall q ensures p + [nodeKey] <= q <==> ListedBelow(p, q, {nodeKey}) {
      if p + [nodeKey] <= q {
        assert (p + [nodeKey])[..|p|] == p && q[|p|] == (p + [nodeKey])[|p|];
      }
      if ListedBelow(p, q, {nodeKey}) {
        assert q[..|p| + 1] == p + [nodeKey];
      }
    }
    forall i, j | 0 <= i < |paths| && 0 <= j < |childPaths| ensures paths[i] != childPaths[j] {
      assert paths[i] in paths && childPaths[j] in childPaths;
      assert ListedBelow(p, childPaths[j], {nodeKey});
    }
  }
}
