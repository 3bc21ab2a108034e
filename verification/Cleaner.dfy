/**
 scripts/clean_generated_artifacts.py: which generated paths are removed from a checkout, and what
 is left of it. A path is its sequence of parts below the file-system root.
 */
module Cleaner {
  import opened Wrappers
  import opened Sorting

  type Path = seq<string>

  const PROTECTED: set<string> := {".git", ".venv", "venv", "node_modules"}

  datatype Kind = Directory | File

  datatype Refusal = OutsideRoot | ProtectedPath

  // ----- minimal paths -----

  /** The paths with no other path of the set above them. */
  function Topmost(paths: set<Path>): set<Path> {
    set p | p in paths && IsTopmost(paths, p)
  }

  predicate IsTopmost(paths: set<Path>, p: Path) {
    forall q | q in paths :: q <= p ==> q == p
  }

  ghost predicate Antichain(paths: set<Path>) {
    forall p, q | p in paths && q in paths :: p <= q ==> p == q
  }

  /** Every path of `paths` is in or below `tops`. */
  ghost predicate Covers(tops: set<Path>, paths: set<Path>) {
    forall p | p in paths :: Below(tops, p)
  }

  ghost predicate Below(tops: set<Path>, p: Path) {
    exists t :: t in tops && t <= p
  }

  lemma {:induction false} TopmostAbove(paths: set<Path>, p: Path)
    requires p in paths
    ensures exists t :: t in Topmost(paths) && t <= p
    decreases |p|
  {
    if !IsTopmost(paths, p) {
      var q :| q in paths && q <= p && q != p;
      AboveInTurn(q, q, p);
      TopmostAbove(paths, q);
      var t :| t in Topmost(paths) && t <= q;
      AboveInTurn(t, q, p);
    } else {
      assert p in Topmost(paths) && p <= p;
    }
  }

  lemma AboveInTurn(t: Path, q: Path, p: Path)
    requires t <= q <= p
    ensures t <= p && (|q| == |p| ==> q == p) && t == p[..|t|]
  {}

  /** The topmost paths are an antichain with the same subtrees, and the only such part of the set. */
  lemma TopmostIsTheAntichain(paths: set<Path>, tops: set<Path>)
    requires tops <= paths
    ensures tops == Topmost(paths) <==> Antichain(tops) && Covers(tops, paths)
  {
    forall p | p in paths ensures exists t :: t in Topmost(paths) && t <= p {
      TopmostAbove(paths, p);
    }
    if Antichain(tops) && Covers(tops, paths) {
      forall p | p in Topmost(paths) ensures p in tops {
        var t :| t in tops && t <= p;
      }
      forall p | p in tops ensures p in Topmost(paths) {
        forall q | q in paths && q <= p ensures q == p {
          var t :| t in tops && t <= q;
        }
      }
    }
  }

  /** Removing the topmost subtrees removes exactly what removing every subtree would. */
  lemma SameSubtrees(paths: set<Path>, node: Path)
    ensures Below(Topmost(paths), node) <==> Below(paths, node)
  {
    if p :| p in paths && p <= node {
      TopmostAbove(paths, p);
    }
  }

  // ----- collapsing -----

  function Resolutions(paths: seq<Path>, resolve: Path -> Path): set<Path> {
    set p | p in paths :: resolve(p)
  }

  lemma ResolutionsStep(paths: seq<Path>, i: nat, resolve: Path -> Path)
    requires i < |paths|
    ensures Resolutions(paths[..i + 1], resolve) == Resolutions(paths[..i], resolve) + {resolve(paths[i])}
  {
    assert paths[..i + 1] == paths[..i] + [paths[i]];
  }

  /** The last path of the list that resolves to `r`. */
  function LastFor(paths: seq<Path>, resolve: Path -> Path, r: Path): (p: Path)
    requires r in Resolutions(paths, resolve)
    ensures p in paths && resolve(p) == r
  {
    var last := paths[|paths| - 1];
    if resolve(last) == r then last
    else
      assert paths == paths[..|paths| - 1] + [last];
      LastFor(paths[..|paths| - 1], resolve, r)
  }

  ghost function Members(paths: seq<Path>): set<Path> {
    set p | p in paths
  }

  predicate Shorter(a: Path, b: Path) {
    |a| <= |b|
  }

  predicate Longer(a: Path, b: Path) {
    |a| >= |b|
  }

  /** First pass: each resolved path once, in order of appearance, with the last path that led to it. */
  method ResolveAll(paths: seq<Path>, resolve: Path -> Path) returns (originals: map<Path, Path>, order: seq<Path>)
    ensures Distinct(order) && originals.Keys == Resolutions(paths, resolve)
    ensures forall r :: r in order <==> r in originals
    ensures forall r :: r in originals ==> originals[r] == LastFor(paths, resolve, r)
  {
    originals, order := map[], [];
    for i := 0 to |paths|
      invariant Distinct(order) && originals.Keys == Resolutions(paths[..i], resolve)
      invariant forall r :: r in order <==> r in originals
      invariant forall r :: r in originals ==> originals[r] == LastFor(paths[..i], resolve, r)
    {
      var r := resolve(paths[i]);
      if r !in originals {
        order := order + [r];
      }
      originals := originals[r := paths[i]];
      ResolutionsStep(paths, i, resolve);
      assert paths[..i + 1][..i] == paths[..i];
    }
    assert paths[..|paths|] == paths;
  }

  /** Among paths visited shortest first, the kept ones so far tell whether the next is topmost. */
  lemma KeptAbove(sorted: seq<Path>, j: nat, kept: seq<Path>)
    requires Sorted(sorted, Shorter) && j < |sorted|
    requires forall r :: r in kept <==> r in sorted[..j] && IsTopmost(Members(sorted), r)
    ensures (exists k :: 0 <= k < |sorted[j]| && sorted[j][..k] in kept) <==> !IsTopmost(Members(sorted), sorted[j])
  {
    var all, r := Members(sorted), sorted[j];
    assert r in all;
    if !IsTopmost(all, r) {
      var q :| q in all && q <= r && q != r;
      TopmostAbove(all, q);
      var t :| t in Topmost(all) && t <= q;
      AboveInTurn(t, q, r);
      Earlier(sorted, t, j);
      assert r[..|t|] in kept;
    }
    if k :| 0 <= k < |r| && r[..k] in kept {
      assert r[..k] in all && r[..k] <= r && r[..k] != r;
    }
  }

  /** Second pass, shortest first: a path is dropped when one above it is already kept. */
  method Collapse(sorted: seq<Path>) returns (kept: seq<Path>)
    requires Distinct(sorted) && Sorted(sorted, Shorter)
    ensures Distinct(kept)
    ensures forall r :: r in kept <==> r in sorted && IsTopmost(Members(sorted), r)
  {
    hide IsTopmost;
    kept := [];
    for j := 0 to |sorted|
      invariant Distinct(kept)
      invariant forall r :: r in kept <==> r in sorted[..j] && IsTopmost(Members(sorted), r)
    {
      var r := sorted[j];
      KeptAbove(sorted, j, kept);
      assert forall q :: q in sorted[..j + 1] <==> q in sorted[..j] || q == r;
      if exists k | 0 <= k < |r| :: r[..k] in kept {
        continue;
      }
      assert r !in sorted[..j];
      kept := kept + [r];
    }
    assert sorted[..|sorted|] == sorted;
  }

  lemma Earlier(sorted: seq<Path>, t: Path, j: nat)
    requires Sorted(sorted, Shorter) && t in sorted && j < |sorted| && |t| < |sorted[j]|
    ensures t in sorted[..j]
  {
    var i :| 0 <= i < |sorted| && sorted[i] == t;
    assert i < j;
    assert sorted[..j][i] == t;
  }

  /** `_dedupe_existing_paths` */
  method DedupeExistingPaths(paths: seq<Path>, resolve: Path -> Path) returns (collapsed: seq<Path>)
    ensures Resolutions(collapsed, resolve) == Topmost(Resolutions(paths, resolve))
    ensures forall i, j :: 0 <= i < j < |collapsed| ==> resolve(collapsed[i]) != resolve(collapsed[j])
    ensures forall i :: 0 <= i < |collapsed| ==>
      resolve(collapsed[i]) in Resolutions(paths, resolve)
      && collapsed[i] == LastFor(paths, resolve, resolve(collapsed[i]))
  {
    hide IsTopmost, LastFor, Resolutions;
    var originals, order := ResolveAll(paths, resolve);
    var sorted := SortBy(order, Shorter);
    SortBySorts(order, Shorter);
    SortKeepsDistinct(order, Shorter);
    SameMembers(order, sorted);
    var kept := Collapse(sorted);
    assert Members(sorted) == Resolutions(paths, resolve);
    assert forall i :: 0 <= i < |kept| ==> kept[i] in kept;
    collapsed := seq(|kept|, i requires 0 <= i < |kept| => originals[kept[i]]);
    ResolvesTo(collapsed, kept, resolve);
    assert Members(kept) == Topmost(Resolutions(paths, resolve));
  }

  lemma ResolvesTo(paths: seq<Path>, resolved: seq<Path>, resolve: Path -> Path)
    requires |paths| == |resolved| && forall i :: 0 <= i < |paths| ==> resolve(paths[i]) == resolved[i]
    ensures Resolutions(paths, resolve) == Members(resolved)
  {
    forall r ensures r in Resolutions(paths, resolve) <==> r in resolved {
      if r in resolved {
        var i :| 0 <= i < |resolved| && resolved[i] == r;
        assert paths[i] in paths;
      }
      if r in Resolutions(paths, resolve) {
        var p :| p in paths && resolve(p) == r;
        var i :| 0 <= i < |paths| && paths[i] == p;
        assert resolved[i] == r;
      }
    }
  }

  // ----- the tree -----

  type Nodes = map<Path, Kind>

  /** Everything above a node is a directory of the tree. */
  ghost predicate Rooted(nodes: Nodes) {
    forall p, k: nat | p in nodes && k < |p| :: p[..k] in nodes && nodes[p[..k]] == Directory
  }

  /** The tree without the given subtrees. */
  ghost function Without(nodes: Nodes, tops: set<Path>): Nodes {
    map p | p in nodes && !Below(tops, p) :: nodes[p]
  }

  /** The parts of a path below the root. */
  function PartsBelow(root: Path, p: Path): set<string>
    requires root <= p
  {
    set part | part in p[|root|..]
  }

  predicate Inside(root: Path, p: Path) {
    root <= p && PartsBelow(root, p) * PROTECTED == {}
  }

  lemma PartBelow(root: Path, p: Path, name: string)
    requires root <= p
    ensures name in PartsBelow(root, p) <==> exists i :: |root| <= i < |p| && p[i] == name
  {
    var below := p[|root|..];
    if name in PartsBelow(root, p) {
      var i :| 0 <= i < |below| && below[i] == name;
      assert p[|root| + i] == name;
    }
    if i :| |root| <= i < |p| && p[i] == name {
      assert below[i - |root|] == name;
    }
  }

  /** A path is inside the root when none of its parts below the root is a protected name. */
  lemma InsideExactly(root: Path, p: Path)
    ensures Inside(root, p) <==>
      root <= p && forall i :: |root| <= i < |p| ==>
        p[i] != ".git" && p[i] != ".venv" && p[i] != "venv" && p[i] != "node_modules"
  {
    if root <= p {
      forall name ensures name in PartsBelow(root, p) <==> exists i :: |root| <= i < |p| && p[i] == name {
        PartBelow(root, p, name);
      }
      hide PartsBelow;
      var common := PartsBelow(root, p) * PROTECTED;
      if Inside(root, p) {
        forall i | |root| <= i < |p|
          ensures p[i] != ".git" && p[i] != ".venv" && p[i] != "venv" && p[i] != "node_modules"
        {
          assert p[i] in PartsBelow(root, p) && p[i] !in common;
        }
      } else {
        var name :| name in common;
        var i :| |root| <= i < |p| && p[i] == name;
        assert p[i] in PROTECTED;
      }
    }
  }

  lemma WithoutKeepsRooted(nodes: Nodes, tops: set<Path>)
    requires Rooted(nodes)
    ensures Rooted(Without(nodes, tops))
  {
    forall p, k: nat | p in Without(nodes, tops) && k < |p|
      ensures p[..k] in Without(nodes, tops) && Without(nodes, tops)[p[..k]] == Directory
    {
      if t :| t in tops && t <= p[..k] {
        AboveInTurn(t, p[..k], p);
      }
    }
  }

  /** A path that is no directory has nothing below it but itself. */
  lemma NothingBelow(nodes: Nodes, p: Path)
    requires Rooted(nodes) && !(p in nodes && nodes[p] == Directory)
    ensures Without(nodes, {p}) == map q | q in nodes && q != p :: nodes[q]
  {
    forall q | q in nodes ensures Below({p}, q) <==> q == p {
      if p <= q && q != p {
        assert q[..|p|] == p;
      }
      assert p in {p} && p <= p;
    }
  }

  lemma WithoutInTurn(nodes: Nodes, tops: set<Path>, p: Path)
    ensures Without(Without(nodes, tops), {p}) == Without(nodes, tops + {p})
  {
    forall q | q in nodes ensures Below(tops + {p}, q) <==> Below(tops, q) || Below({p}, q) {
      if Below({p}, q) {
        assert p in tops + {p};
      }
      if t :| t in tops && t <= q {
        assert t in tops + {p};
      }
    }
  }

  lemma SameWithout(nodes: Nodes, paths: set<Path>)
    ensures Without(nodes, Topmost(paths)) == Without(nodes, paths)
  {
    forall q ensures Below(Topmost(paths), q) <==> Below(paths, q) {
      SameSubtrees(paths, q);
    }
  }

  lemma RootAmongTargets(targets: set<Path>, root: Path)
    requires forall t :: t in targets ==> root <= t
    ensures root in Topmost(targets) <==> root in targets
    ensures root in targets ==> Topmost(targets) == {root}
  {
    if root in targets {
      assert IsTopmost(targets, root);
    }
  }

  lemma OnlyOne(paths: seq<Path>, resolve: Path -> Path, r: Path)
    requires Resolutions(paths, resolve) == {r}
    requires forall i, j :: 0 <= i < j < |paths| ==> resolve(paths[i]) != resolve(paths[j])
    ensures |paths| == 1
  {
    assert |paths| > 1 ==> resolve(paths[0]) != resolve(paths[1]);
    forall i | 0 <= i < |paths| ensures resolve(paths[i]) == r {
      assert paths[i] in paths && resolve(paths[i]) in Resolutions(paths, resolve);
    }
    assert r in Resolutions(paths, resolve);
    var p :| p in paths && resolve(p) == r;
  }

  lemma NothingRemoved(nodes: Nodes)
    ensures Without(nodes, {}) == nodes
  {}

  /** Targets strictly inside the root leave the root and everything outside it alone. */
  lemma OutsideIsKept(nodes: Nodes, root: Path, targets: set<Path>, node: Path)
    requires forall t :: t in targets ==> Inside(root, t) && t != root
    requires node in nodes && (root <= node ==> node == root)
    ensures node in Without(nodes, targets) && Without(nodes, targets)[node] == nodes[node]
  {
    if t :| t in targets && t <= node {
      AboveInTurn(root, t, node);
    }
  }

  /** The protected names guard the path to a target, not what lies inside it. */
  lemma ProtectedNameInsideGoes(nodes: Nodes, root: Path, targets: set<Path>, target: Path, name: string)
    requires target in targets && Inside(root, target) && name in PROTECTED && target + [name] in nodes
    ensures !Inside(root, target + [name]) && target + [name] !in Without(nodes, targets)
  {
    var node := target + [name];
    assert node[|root|..][|target| - |root|] == name;
    assert name in PartsBelow(root, node) * PROTECTED;
    assert target <= node;
  }

  class Checkout {
    var nodes: Nodes
    const root: Path
    const resolve: Path -> Path

    constructor (nodes: Nodes, root: Path, resolve: Path -> Path)
      requires Rooted(nodes)
      ensures Valid() && this.nodes == nodes && this.root == root && this.resolve == resolve
    {
      this.nodes, this.root, this.resolve := nodes, root, resolve;
    }

    ghost predicate Valid()
      reads this
    {
      Rooted(nodes)
    }

    /** `shutil.rmtree` */
    method RemoveTree(target: Path)
      requires Valid()
      modifies this
      ensures Valid() && nodes == Without(old(nodes), {target})
    {
      WithoutKeepsRooted(nodes, {target});
      nodes := map p | p in nodes && !(target <= p) :: nodes[p];
      assert nodes == Without(old(nodes), {target});
    }

    /** `Path.unlink(missing_ok=True)` */
    method Unlink(target: Path)
      requires Valid() && !(target in nodes && nodes[target] == Directory)
      modifies this
      ensures Valid() && nodes == Without(old(nodes), {target})
    {
      WithoutKeepsRooted(nodes, {target});
      NothingBelow(nodes, target);
      nodes := map p | p in nodes && p != target :: nodes[p];
    }

    /** `remove_disposable_path` */
    method RemoveDisposablePath(path: Path) returns (refusal: Option<Refusal>)
      requires Valid()
      modifies this
      ensures Valid()
      ensures var target := resolve(path);
        refusal == if target == root || !(root <= target) then Some(OutsideRoot)
          else if Inside(root, target) then None else Some(ProtectedPath)
      ensures nodes == if refusal.None? then Without(old(nodes), {resolve(path)}) else old(nodes)
    {
      var target := resolve(path);
      if target == root || !(root <= target) {
        return Some(OutsideRoot);
      }
      if PartsBelow(root, target) * PROTECTED != {} {
        return Some(ProtectedPath);
      }
      if target in nodes && nodes[target] == Directory {
        RemoveTree(target);
      } else {
        Unlink(target);
      }
      return None;
    }

    /** A candidate that exists and resolves into the checkout through unprotected parts. */
    predicate Disposable(path: Path)
      reads this
    {
      resolve(path) in nodes && Inside(root, resolve(path))
    }

    /** Where the disposable candidates lead. */
    ghost function Targets(candidates: seq<Path>): set<Path>
      reads this
    {
      set p | p in candidates && Disposable(p) :: resolve(p)
    }

    /** `generated_artifact_paths`, given what the fixed names and the patterns matched. */
    method GeneratedArtifactPaths(candidates: seq<Path>) returns (removed: seq<Path>)
      ensures Resolutions(removed, resolve) == Topmost(Targets(candidates))
      ensures forall i, j :: 0 <= i < j < |removed| ==> resolve(removed[i]) != resolve(removed[j])
      ensures forall p :: p in removed ==> p in candidates && Disposable(p)
    {
      var disposable: seq<Path> := [];
      for i := 0 to |candidates|
        invariant forall p :: p in disposable <==> p in candidates[..i] && Disposable(p)
      {
        if Disposable(candidates[i]) {
          disposable := disposable + [candidates[i]];
        }
        assert candidates[..i + 1] == candidates[..i] + [candidates[i]];
      }
      assert candidates[..|candidates|] == candidates;
      assert Resolutions(disposable, resolve) == Targets(candidates);
      removed := DedupeExistingPaths(disposable, resolve);
      forall p | p in removed ensures p in disposable {
        var i :| 0 <= i < |removed| && removed[i] == p;
      }
    }

    /** The removal loop; it stops at a path that leads to the root. */
    method RemoveInTurn(paths: seq<Path>) returns (refusal: Option<Refusal>)
      requires Valid() && forall p :: p in paths ==> Inside(root, resolve(p))
      modifies this
      ensures Valid()
      ensures refusal.Some? <==> root in Resolutions(paths, resolve)
      ensures refusal.None? ==> nodes == Without(old(nodes), Resolutions(paths, resolve))
      ensures refusal.Some? && |paths| == 1 ==> nodes == old(nodes)
    {
      hide Without, Rooted, Below;
      ghost var before := nodes;
      NothingRemoved(before);
      assert Resolutions(paths[..0], resolve) == {};
      for i := 0 to |paths|
        invariant Valid() && root !in Resolutions(paths[..i], resolve)
        invariant nodes == Without(before, Resolutions(paths[..i], resolve))
        invariant i == 0 ==> nodes == before
      {
        var path := paths[i];
        assert path in paths && resolve(path) in Resolutions(paths, resolve);
        ResolutionsStep(paths, i, resolve);
        refusal := RemoveDisposablePath(path);
        if refusal.Some? {
          return;
        }
        WithoutInTurn(before, Resolutions(paths[..i], resolve), resolve(path));
      }
      assert paths[..|paths|] == paths;
      return None;
    }

    /**
     `clean_generated_artifacts`: all or nothing. It is refused exactly when a candidate leads to the
     root itself, and then nothing is touched; otherwise everything in or below a target goes.
     */
    method CleanGeneratedArtifacts(candidates: seq<Path>, dryRun: bool) returns (r: Result<seq<Path>, Refusal>)
      requires Valid()
      modifies this
      ensures Valid()
      ensures r.Failure? <==> !dryRun && root in old(Targets(candidates))
      ensures r.Success? ==> Resolutions(r.value, resolve) == Topmost(old(Targets(candidates)))
      ensures nodes == if dryRun || r.Failure? then old(nodes) else Without(old(nodes), old(Targets(candidates)))
    {
      hide Without, Rooted, Topmost;
      ghost var targets, before := Targets(candidates), nodes;
      RootAmongTargets(targets, root);
      SameWithout(before, targets);
      var removed := GeneratedArtifactPaths(candidates);
      if dryRun {
        return Success(removed);
      }
      var deepestFirst := SortBy(removed, Longer);
      SortBySorts(removed, Longer);
      SameMembers(removed, deepestFirst);
      assert Resolutions(deepestFirst, resolve) == Resolutions(removed, resolve);
      var refusal := RemoveInTurn(deepestFirst);
      if refusal.Some? {
        OnlyOne(removed, resolve, root);
        return Failure(refusal.value);
      }
      return Success(removed);
    }
  }
}
