/** The dependency map of the watch command: a breadth-first search of the import graph
    that stops at a depth, or earlier when a depth adds nothing. */
module Dependencies {
  import opened Collections
  import opened Wrappers

  /** What go/build answers, already resolved to directories and filtered. A directory
      without an entry in `imports` cannot be imported and contributes no edges. */
  datatype ImportGraph = ImportGraph(root: string, rootImports: seq<string>, testImports: seq<string>,
                                     xTestImports: seq<string>, imports: map<string, seq<string>>)

  function Imports(g: ImportGraph, dir: string): seq<string> {
    if dir == g.root then g.rootImports
    else if dir in g.imports then g.imports[dir] else []
  }

  predicate Seeded(g: ImportGraph, dir: string) {
    dir in g.rootImports || dir in g.testImports || dir in g.xTestImports
  }

  /** A chain of imports from the package at the root, the first by any of its files,
      the others by the ordinary files of the package before. */
  ghost predicate IsChain(g: ImportGraph, chain: seq<string>) {
    && chain != [] && Seeded(g, chain[0])
    && forall i | 0 < i < |chain| :: chain[i] in Imports(g, chain[i - 1])
  }

  ghost predicate ReachedIn(g: ImportGraph, dir: string, hops: int) {
    exists chain :: IsChain(g, chain) && |chain| == hops && chain[|chain| - 1] == dir
  }

  lemma ReachedInOne(g: ImportGraph, dir: string)
    ensures ReachedIn(g, dir, 1) <==> Seeded(g, dir)
  {
    if Seeded(g, dir) {
      assert IsChain(g, [dir]);
    }
  }

  lemma ReachedByImport(g: ImportGraph, from: string, dir: string, hops: int)
    requires ReachedIn(g, from, hops) && dir in Imports(g, from)
    ensures ReachedIn(g, dir, hops + 1)
  {
    var chain :| IsChain(g, chain) && |chain| == hops && chain[|chain| - 1] == from;
    var longer := chain + [dir];
    assert IsChain(g, longer) && |longer| == hops + 1 && longer[|longer| - 1] == dir;
  }

  lemma ReachedFrom(g: ImportGraph, dir: string, hops: int) returns (from: string)
    requires hops > 1 && ReachedIn(g, dir, hops)
    ensures ReachedIn(g, from, hops - 1) && dir in Imports(g, from)
  {
    var chain :| IsChain(g, chain) && |chain| == hops && chain[|chain| - 1] == dir;
    var shorter := chain[..|chain| - 1];
    assert IsChain(g, shorter) && |shorter| == hops - 1;
    from := shorter[|shorter| - 1];
  }

  /** The map is right up to `depth` hops: it holds only chains' ends, at the length of a
      chain, and every directory but the root that a chain of up to `depth` hops reaches,
      at no more than its length. */
  ghost predicate RightUpTo(g: ImportGraph, deps: map<string, int>, depth: int) {
    && (forall dir | dir in deps :: 1 <= deps[dir] <= depth && ReachedIn(g, dir, deps[dir]))
    && (forall dir, hops | dir != g.root && hops <= depth && ReachedIn(g, dir, hops) ::
        dir in deps && deps[dir] <= hops)
  }

  /** Once every import of a directory at depth `depth` is in the map, the map is right
      for one hop more. */
  lemma OneHopMore(g: ImportGraph, before: map<string, int>, after: map<string, int>, depth: int)
    requires depth >= 1 && RightUpTo(g, before, depth)
    requires forall dir | dir in before :: dir in after && after[dir] == before[dir]
    requires forall dir | dir in after && dir !in before :: after[dir] == depth + 1 && ReachedIn(g, dir, depth + 1)
    requires forall from, dir | from in before && before[from] == depth && dir in Imports(g, from) :: dir in after
    ensures RightUpTo(g, after, depth + 1)
  {
    forall dir, hops | dir != g.root && hops <= depth + 1 && ReachedIn(g, dir, hops)
      ensures dir in after && after[dir] <= hops
    {
      if hops == depth + 1 {
        var from := ReachedFrom(g, dir, hops);
        if from == g.root {
          ReachedInOne(g, dir);
          assert dir in before && before[dir] <= 1;
        } else {
          assert from in before && before[from] <= depth;
          if before[from] < depth {
            ReachedByImport(g, from, dir, before[from]);
          }
        }
      }
    }
  }

  /** If a depth added nothing, no later depth will: the early break loses nothing. */
  lemma {:induction false} NothingMore(g: ImportGraph, deps: map<string, int>, depth: int, later: int)
    requires 1 <= depth <= later && RightUpTo(g, deps, depth)
    requires forall dir | dir in deps :: deps[dir] < depth
    ensures RightUpTo(g, deps, later)
    decreases later
  {
    if depth < later {
      NothingMore(g, deps, depth, later - 1);
      OneHopMore(g, deps, deps, later - 1);
    }
  }

  class Dependencies {
    var deps: map<string, int>

    constructor ()
      ensures deps == map[]
    {
      deps := map[];
    }

    method AddDepIfNotPresent(dep: string, depth: int)
      modifies this
      ensures deps == if dep in old(deps) then old(deps) else old(deps)[dep := depth]
    {
      if dep !in deps {
        deps := deps[dep := depth];
      }
    }

    method ResolveAndAdd(dirs: seq<string>, depth: int)
      modifies this
      ensures forall d :: d in deps <==> d in old(deps) || d in dirs
      ensures forall d | d in deps :: deps[d] == if d in old(deps) then old(deps)[d] else depth
    {
      for i := 0 to |dirs|
        invariant forall d :: d in deps <==> d in old(deps) || d in dirs[..i]
        invariant forall d | d in deps :: deps[d] == if d in old(deps) then old(deps)[d] else depth
      {
        AddDepIfNotPresent(dirs[i], depth);
      }
    }

    method SeedWithDepsForPackageAtPath(g: ImportGraph)
      requires deps == map[]
      modifies this
      ensures forall d :: d in deps <==> d != g.root && Seeded(g, d)
      ensures forall d | d in deps :: deps[d] == 1
    {
      ResolveAndAdd(g.rootImports, 1);
      ResolveAndAdd(g.testImports, 1);
      ResolveAndAdd(g.xTestImports, 1);
      deps := deps - {g.root};
    }

    method AddDepsForDep(g: ImportGraph, dep: string, depth: int)
      modifies this
      ensures forall d :: d in deps <==> d in old(deps) || d in Imports(g, dep)
      ensures forall d | d in deps :: deps[d] == if d in old(deps) then old(deps)[d] else depth
    {
      ResolveAndAdd(Imports(g, dep), depth);
    }

    /** The map grows while it is ranged over; entries the range may or may not reach have
        another depth than the one looked for. */
    method AddDepsForDepth(g: ImportGraph, depth: int)
      requires depth >= 1 && RightUpTo(g, deps, depth)
      modifies this
      ensures RightUpTo(g, deps, depth + 1)
      ensures forall d | d in old(deps) :: d in deps && deps[d] == old(deps)[d]
      ensures forall d | d in deps && d !in old(deps) :: deps[d] == depth + 1
    {
      var rest := deps.Keys;
      while rest != {}
        invariant rest <= old(deps).Keys
        invariant forall d | d in old(deps) :: d in deps && deps[d] == old(deps)[d]
        invariant forall d | d in deps && d !in old(deps) :: deps[d] == depth + 1 && ReachedIn(g, d, depth + 1)
        invariant forall from, d | from in old(deps) && from !in rest && old(deps)[from] == depth &&
            d in Imports(g, from) ::
                    d in deps
      {
        var dep :| dep in rest;
        rest := rest - {dep};
        if deps[dep] == depth {
          forall d | d in Imports(g, dep) ensures ReachedIn(g, d, depth + 1) {
            ReachedByImport(g, dep, d, depth);
          }
          AddDepsForDep(g, dep, depth + 1);
        }
      }
      OneHopMore(g, old(deps), deps, depth);
    }
  }

  /** How deep the search goes: a negative limit counts as one. */
  function Limit(maxDepth: int): int {
    if maxDepth < 0 then 1 else maxDepth
  }

  /** NewDependencies, `root` being what importing the path itself answers. The map holds,
      besides possibly the root, exactly the directories reached in at most maxDepth hops,
      at their least number of hops. */
  method NewDependencies(root: Result<ImportGraph, string>, maxDepth: int)
    returns (d: Dependencies, err: Option<string>)
    ensures err.Some? <==> root.Failure? && maxDepth != 0
    ensures root.Success? && err.None? ==>
              forall dir | dir != root.value.root ::
                dir in d.deps <==> exists hops :: hops <= Limit(maxDepth) && ReachedIn(root.value, dir, hops)
    ensures root.Success? && err.None? ==>
              forall dir | dir in d.deps && dir != root.value.root ::
                ReachedIn(root.value, dir, d.deps[dir]) && forall hops | ReachedIn(root.value, dir, hops) ::
                    d.deps[dir] <= hops
  {
    d := new Dependencies();
    if maxDepth == 0 {
      return d, None;
    }
    if root.Failure? {
      return d, Some(root.error);
    }
    var g := root.value;
    d.SeedWithDepsForPackageAtPath(g);
    forall dir ensures ReachedIn(g, dir, 1) <==> Seeded(g, dir) {
      ReachedInOne(g, dir);
    }
    var depth := 1;
    while depth < maxDepth
      invariant 1 <= depth <= Limit(maxDepth) && RightUpTo(g, d.deps, depth)
      decreases maxDepth - depth
    {
      ghost var before := d.deps;
      var n := |d.deps|;
      d.AddDepsForDepth(g, depth);
      depth := depth + 1;
      if n == |d.deps| {
        NoneAdded(before, d.deps);
        NothingMore(g, d.deps, depth, Limit(maxDepth));
        break;
      }
    }
    assert RightUpTo(g, d.deps, Limit(maxDepth));
    return d, None;
  }

  lemma NoneAdded(before: map<string, int>, after: map<string, int>)
    requires forall d | d in before :: d in after && after[d] == before[d]
    requires |before| == |after|
    ensures before == after
  {
    assert before.Keys <= after.Keys;
    SameSize(before.Keys, after.Keys);
  }
}
