/**
 * The internal development dependency lister: the child workspaces of a
 * repository that some workspace (a child or the root) lists as a
 * `workspace:` development dependency, together with every workspace those
 * depend on, directly or through other workspaces.
 *
 * A workspace's name is modelled by its ident hash; the conversion of a
 * portable path into a native one, used only in the error message, is a
 * parameter.
 */
module InternalDevDeps {
  import opened Wrappers
  import opened Text

  /**
   * A workspace: the ident hash of its manifest name (absent when the
   * manifest has no name), its directory, its development dependencies as
   * (ident hash, range) entries and the ident hashes of its dependencies.
   */
  datatype Workspace = Workspace(name: Option<string>, cwd: string,
                                 devDependencies: seq<(string, string)>, dependencies: seq<string>)

  /** The error thrown for a workspace without a name. */
  function NoNameError(cwd: string, fromPortablePath: string -> string): string {
    "Internal workspace at " + fromPortablePath(cwd) + " had no name! Could not get the identHash of the name."
  }

  /** The ident hashes of the named children. */
  function InternalHashes(children: seq<Workspace>): (hashes: set<string>)
    ensures forall x :: x in hashes <==> exists i :: 0 <= i < |children| && children[i].name == Some(x)
  {
    var hashes := set w | w in children && w.name.Some? :: w.name.value;
    assert forall i :: 0 <= i < |children| && children[i].name.Some? ==> children[i].name.value in hashes by {
      forall i | 0 <= i < |children| && children[i].name.Some? ensures children[i].name.value in hashes {
        assert children[i] in children;
      }
    }
    hashes
  }

  /** A development dependency range that refers to a workspace of the repository. */
  predicate IsWorkspaceRange(range: string) {
    StartsWith(range, "workspace:")
  }

  /** A development dependency entry that seeds the walk. */
  predicate Seeds(entry: (string, string), internal: set<string>) {
    entry.0 in internal && IsWorkspaceRange(entry.1)
  }

  // ----- The first loop: the ident map and the seeds -----

  /** `acc` after setting every named workspace of `ws` under its ident hash, in order. */
  function IndexFrom(acc: map<string, Workspace>, ws: seq<Workspace>): map<string, Workspace>
    decreases |ws|
  {
    if ws == [] then acc
    else IndexFrom(if ws[0].name.Some? then acc[ws[0].name.value := ws[0]] else acc, ws[1..])
  }

  /** `acc` after adding the seeding entries of `entries`, in order. */
  function AddSeeds(acc: set<string>, entries: seq<(string, string)>, internal: set<string>): set<string>
    decreases |entries|
  {
    if entries == [] then acc
    else AddSeeds(if Seeds(entries[0], internal) then acc + {entries[0].0} else acc, entries[1..], internal)
  }

  /** `acc` after adding the seeding entries of every workspace of `ws`. */
  function AddAllSeeds(acc: set<string>, ws: seq<Workspace>, internal: set<string>): set<string>
    decreases |ws|
  {
    if ws == [] then acc else AddAllSeeds(AddSeeds(acc, ws[0].devDependencies, internal), ws[1..], internal)
  }

  /** Adds the seeding entries of one workspace to `seeds`. */
  method AddDevDependencies(seeds: set<string>, entries: seq<(string, string)>, internal: set<string>)
    returns (seeds': set<string>)
    ensures seeds' == AddSeeds(seeds, entries, internal)
  {
    seeds' := seeds;
    for j := 0 to |entries|
      invariant AddSeeds(seeds', entries[j..], internal) == AddSeeds(seeds, entries, internal)
    {
      assert entries[j..][1..] == entries[j + 1..];
      if entries[j].0 in internal && IsWorkspaceRange(entries[j].1) {
        seeds' := seeds' + {entries[j].0};
      }
    }
  }

  /**
   * The first loop: visits `ws` in order, failing at the first workspace
   * without a name, and otherwise returns the ident map and the seeds.
   */
  method Survey(ws: seq<Workspace>, internal: set<string>, fromPortablePath: string -> string)
    returns (r: Result<(map<string, Workspace>, set<string>), string>)
    ensures r.Failure? <==> exists i :: 0 <= i < |ws| && ws[i].name.None?
    ensures r.Failure? ==> exists i :: (0 <= i < |ws| && ws[i].name.None? && (forall j :: 0 <= j < i ==> ws[j].name.Some?)
                                         && r.error == NoNameError(ws[i].cwd, fromPortablePath))
    ensures r.Success? ==> r.value == (IndexFrom(map[], ws), AddAllSeeds({}, ws, internal))
  {
    var identMap: map<string, Workspace> := map[];
    var seeds: set<string> := {};
    for i := 0 to |ws|
      invariant forall j :: 0 <= j < i ==> ws[j].name.Some?
      invariant IndexFrom(identMap, ws[i..]) == IndexFrom(map[], ws)
      invariant AddAllSeeds(seeds, ws[i..], internal) == AddAllSeeds({}, ws, internal)
    {
      assert ws[i..][1..] == ws[i + 1..];
      if ws[i].name.None? {
        return Failure(NoNameError(ws[i].cwd, fromPortablePath));
      }
      identMap := identMap[ws[i].name.value := ws[i]];
      seeds := AddDevDependencies(seeds, ws[i].devDependencies, internal);
    }
    r := Success((identMap, seeds));
  }

  lemma {:induction false} IndexFromKeys(acc: map<string, Workspace>, ws: seq<Workspace>, k: string)
    ensures k in IndexFrom(acc, ws) <==> k in acc || exists i :: 0 <= i < |ws| && ws[i].name == Some(k)
    decreases |ws|
  {
    if ws != [] {
      var acc' := if ws[0].name.Some? then acc[ws[0].name.value := ws[0]] else acc;
      IndexFromKeys(acc', ws[1..], k);
      if exists i :: 0 <= i < |ws[1..]| && ws[1..][i].name == Some(k) {
        var i :| 0 <= i < |ws[1..]| && ws[1..][i].name == Some(k);
        assert ws[i + 1].name == Some(k);
      }
      if exists i :: 0 <= i < |ws| && ws[i].name == Some(k) {
        var i :| 0 <= i < |ws| && ws[i].name == Some(k);
        if i > 0 {
          assert ws[1..][i - 1].name == Some(k);
        }
      }
    }
  }

  /** A name that no workspace of `ws` carries keeps its accumulated entry. */
  lemma {:induction false} IndexFromOutside(acc: map<string, Workspace>, ws: seq<Workspace>, k: string)
    requires k in acc
    requires forall i :: 0 <= i < |ws| ==> ws[i].name != Some(k)
    ensures k in IndexFrom(acc, ws) && IndexFrom(acc, ws)[k] == acc[k]
    decreases |ws|
  {
    if ws != [] {
      var acc' := if ws[0].name.Some? then acc[ws[0].name.value := ws[0]] else acc;
      assert forall i :: 0 <= i < |ws[1..]| ==> ws[1..][i] == ws[i + 1];
      IndexFromOutside(acc', ws[1..], k);
    }
  }

  /** The ident map holds, under each name, the last workspace carrying it. */
  lemma {:induction false} IndexFromLast(acc: map<string, Workspace>, ws: seq<Workspace>, i: int, k: string)
    requires 0 <= i < |ws| && ws[i].name == Some(k)
    requires forall j :: i < j < |ws| ==> ws[j].name != Some(k)
    ensures k in IndexFrom(acc, ws) && IndexFrom(acc, ws)[k] == ws[i]
    decreases |ws|
  {
    var acc' := if ws[0].name.Some? then acc[ws[0].name.value := ws[0]] else acc;
    if i == 0 {
      assert forall j :: 0 <= j < |ws[1..]| ==> ws[1..][j] == ws[j + 1];
      IndexFromOutside(acc', ws[1..], k);
    } else {
      IndexFromLast(acc', ws[1..], i - 1, k);
    }
  }

  lemma {:induction false} AddSeedsMembers(acc: set<string>, entries: seq<(string, string)>, internal: set<string>, x: string)
    ensures x in AddSeeds(acc, entries, internal)
            <==> (x in acc || exists j :: 0 <= j < |entries| && entries[j].0 == x && Seeds(entries[j], internal))
    decreases |entries|
  {
    if entries != [] {
      var acc' := if Seeds(entries[0], internal) then acc + {entries[0].0} else acc;
      AddSeedsMembers(acc', entries[1..], internal, x);
      if exists j :: 0 <= j < |entries[1..]| && entries[1..][j].0 == x && Seeds(entries[1..][j], internal) {
        var j :| 0 <= j < |entries[1..]| && entries[1..][j].0 == x && Seeds(entries[1..][j], internal);
        assert entries[j + 1] == entries[1..][j];
      }
      if exists j :: 0 <= j < |entries| && entries[j].0 == x && Seeds(entries[j], internal) {
        var j :| 0 <= j < |entries| && entries[j].0 == x && Seeds(entries[j], internal);
        if j > 0 {
          assert entries[1..][j - 1] == entries[j];
        }
      }
    }
  }

  /** A seed of the walk, found in workspace `w`. */
  predicate SeededBy(w: Workspace, internal: set<string>, x: string) {
    exists j :: 0 <= j < |w.devDependencies| && w.devDependencies[j].0 == x && Seeds(w.devDependencies[j], internal)
  }

  /** The seeds are exactly the internal `workspace:` development dependencies of any workspace. */
  lemma {:induction false} AddAllSeedsMembers(acc: set<string>, ws: seq<Workspace>, internal: set<string>, x: string)
    ensures x in AddAllSeeds(acc, ws, internal) <==> (x in acc || exists i :: 0 <= i < |ws| && SeededBy(ws[i], internal, x))
    decreases |ws|
  {
    if ws != [] {
      AddSeedsMembers(acc, ws[0].devDependencies, internal, x);
      AddAllSeedsMembers(AddSeeds(acc, ws[0].devDependencies, internal), ws[1..], internal, x);
      if exists i :: 0 <= i < |ws[1..]| && SeededBy(ws[1..][i], internal, x) {
        var i :| 0 <= i < |ws[1..]| && SeededBy(ws[1..][i], internal, x);
        assert ws[i + 1] == ws[1..][i];
      }
      if exists i :: 0 <= i < |ws| && SeededBy(ws[i], internal, x) {
        var i :| 0 <= i < |ws| && SeededBy(ws[i], internal, x);
        if i > 0 {
          assert ws[1..][i - 1] == ws[i];
        }
      }
    }
  }

  // ----- The walk -----

  /** A chain from a seed through dependencies of workspaces in the ident map. */
  ghost predicate IsPath(m: map<string, Workspace>, seeds: set<string>, p: seq<string>)
    decreases |p|
  {
    |p| > 0
    && if |p| == 1 then p[0] in seeds
       else DependsOn(m, p[|p| - 2], p[|p| - 1]) && IsPath(m, seeds, p[..|p| - 1])
  }

  /** `d` is a dependency of the workspace named `x` in the ident map. */
  predicate DependsOn(m: map<string, Workspace>, x: string, d: string) {
    x in m && d in m[x].dependencies
  }

  /** Every dependency of a workspace in the ident map. */
  function DependencyIdents(m: map<string, Workspace>): set<string> {
    set x, d | x in m && d in m[x].dependencies :: d
  }

  /** The ident hashes reachable from a seed. */
  ghost function Reachable(m: map<string, Workspace>, seeds: set<string>): set<string> {
    set x | x in seeds + DependencyIdents(m) && exists p :: IsPath(m, seeds, p) && p[|p| - 1] == x
  }

  /** A set that holds every dependency of each of its members found in the ident map. */
  ghost predicate Closed(t: set<string>, m: map<string, Workspace>) {
    forall x, d :: x in t && DependsOn(m, x, d) ==> d in t
  }

  /** The end of every path lies in every closed set holding the seeds. */
  lemma {:induction false} PathEndsInClosed(m: map<string, Workspace>, seeds: set<string>, t: set<string>, p: seq<string>)
    requires seeds <= t && Closed(t, m)
    requires IsPath(m, seeds, p)
    ensures p[|p| - 1] in t
    decreases |p|
  {
    if |p| > 1 {
      var q := p[..|p| - 1];
      PathEndsInClosed(m, seeds, t, q);
      assert q[|q| - 1] == p[|p| - 2];
    }
  }

  /** Every reachable ident hash lies in every closed set holding the seeds. */
  lemma ReachableLeast(m: map<string, Workspace>, seeds: set<string>, t: set<string>)
    requires seeds <= t && Closed(t, m)
    ensures Reachable(m, seeds) <= t
  {
    forall x | x in Reachable(m, seeds) ensures x in t {
      var p :| IsPath(m, seeds, p) && p[|p| - 1] == x;
      PathEndsInClosed(m, seeds, t, p);
    }
  }

  /** A path extended by a dependency of its end. */
  lemma PathExtend(m: map<string, Workspace>, seeds: set<string>, p: seq<string>, d: string)
    requires IsPath(m, seeds, p) && DependsOn(m, p[|p| - 1], d)
    ensures IsPath(m, seeds, p + [d]) && (p + [d])[|p + [d]| - 1] == d
  {
    assert (p + [d])[..|p|] == p;
  }

  /** The seeds are reachable, and the reachable set is closed. */
  lemma ReachableClosed(m: map<string, Workspace>, seeds: set<string>)
    ensures seeds <= Reachable(m, seeds)
    ensures Closed(Reachable(m, seeds), m)
  {
    forall x | x in seeds ensures x in Reachable(m, seeds) {
      assert IsPath(m, seeds, [x]);
    }
    forall x, d | x in Reachable(m, seeds) && x in m && d in m[x].dependencies ensures d in Reachable(m, seeds) {
      var p :| IsPath(m, seeds, p) && p[|p| - 1] == x;
      PathExtend(m, seeds, p, d);
      assert d in DependencyIdents(m);
    }
  }

  /** No element occurs twice: the top of the stack is not below it, and so on down. */
  predicate Distinct(xs: seq<string>)
    decreases |xs|
  {
    xs == [] || (xs[|xs| - 1] !in xs[..|xs| - 1] && Distinct(xs[..|xs| - 1]))
  }

  /** Pushing an element that is not on the stack. */
  lemma Push(xs: seq<string>, x: string)
    requires Distinct(xs) && x !in xs
    ensures Distinct(xs + [x]) && forall y :: y in xs + [x] <==> y in xs || y == x
  {
    assert (xs + [x])[..|xs|] == xs;
  }

  /** Popping the top of the stack. */
  lemma Pop(xs: seq<string>)
    requires xs != [] && Distinct(xs)
    ensures Distinct(xs[..|xs| - 1]) && xs[|xs| - 1] !in xs[..|xs| - 1]
    ensures forall x :: x in xs <==> x in xs[..|xs| - 1] || x == xs[|xs| - 1]
  {
    assert xs == xs[..|xs| - 1] + [xs[|xs| - 1]];
  }

  /** The elements of a set, each once, in some order. */
  method Enumerate(s: set<string>) returns (xs: seq<string>)
    ensures forall x :: x in xs <==> x in s
    ensures Distinct(xs)
  {
    xs := [];
    var rest := s;
    while rest != {}
      invariant forall x :: x in xs <==> x in s && x !in rest
      invariant rest <= s
      invariant Distinct(xs)
      decreases |rest|
    {
      var x :| x in rest;
      Push(xs, x);
      xs := xs + [x];
      rest := rest - {x};
    }
  }

  /** Every seen ident hash off the frontier, other than `current`, has all its dependencies seen. */
  ghost predicate Expanded(m: map<string, Workspace>, seen: set<string>, frontier: seq<string>, current: Option<string>) {
    forall x, d :: x in seen && x !in frontier && Some(x) != current && DependsOn(m, x, d) ==> d in seen
  }

  /**
   * The inner loop of the walk: adds each dependency of `current` not seen so
   * far to the seen set, the frontier and the result. Everything it adds
   * lies in any closed set `bound` that holds what was seen before.
   */
  method ExpandDependencies(current: string, deps: seq<string>, seenInWalk: set<string>, frontier: seq<string>,
                            result: set<string>, ghost m: map<string, Workspace>, ghost bound: set<string>)
    returns (seenInWalk': set<string>, frontier': seq<string>, result': set<string>)
    requires current in m && deps == m[current].dependencies
    requires result == seenInWalk && current in seenInWalk && current !in frontier
    requires (forall x :: x in frontier ==> x in seenInWalk) && Distinct(frontier)
    requires seenInWalk <= bound && Closed(bound, m)
    ensures result' == seenInWalk' && seenInWalk <= seenInWalk' <= bound
    ensures (forall x :: x in frontier' ==> x in seenInWalk') && Distinct(frontier') && current !in frontier'
    ensures forall d :: DependsOn(m, current, d) ==> d in seenInWalk'
    ensures forall x :: x in seenInWalk' && x !in frontier' ==> x in seenInWalk && x !in frontier
    ensures seenInWalk' == seenInWalk ==> frontier' == frontier
  {
    seenInWalk', frontier', result' := seenInWalk, frontier, result;
    for j := 0 to |deps|
      invariant result' == seenInWalk' && seenInWalk <= seenInWalk' <= bound
      invariant (forall x :: x in frontier' ==> x in seenInWalk') && Distinct(frontier') && current !in frontier'
      invariant forall k :: 0 <= k < j ==> deps[k] in seenInWalk'
      invariant forall x :: x in seenInWalk' && x !in frontier' ==> x in seenInWalk && x !in frontier
      invariant seenInWalk' == seenInWalk ==> frontier' == frontier
    {
      var dependencyIdent := deps[j];
      if dependencyIdent !in seenInWalk' {
        assert DependsOn(m, current, dependencyIdent);
        seenInWalk' := seenInWalk' + {dependencyIdent};
        Push(frontier', dependencyIdent);
        frontier' := frontier' + [dependencyIdent];
        result' := result' + {dependencyIdent};
      }
    }
  }

  /** A strictly larger subset of `bound` leaves fewer elements of `bound` outside it. */
  lemma FewerOutside(bound: set<string>, small: set<string>, large: set<string>)
    requires small <= large <= bound && small != large
    ensures |bound - large| < |bound - small|
  {
    var y :| y in large && y !in small;
    assert bound - small == (bound - large) + (large - small);
    assert (bound - large) * (large - small) == {};
    assert y in large - small;
  }

  /**
   * The walk: pops ident hashes off the frontier and, for one naming a
   * workspace in the ident map, expands its dependencies. Each ident hash
   * enters the frontier at most once, so the walk ends on dependency cycles.
   */
  method Walk(m: map<string, Workspace>, seeds: set<string>) returns (result: set<string>)
    ensures result == Reachable(m, seeds)
  {
    ghost var reachable := Reachable(m, seeds);
    ReachableClosed(m, seeds);
    result := seeds;
    var seenInWalk := seeds;
    var frontier := Enumerate(seeds);
    while frontier != []
      invariant result == seenInWalk && seeds <= seenInWalk <= reachable
      invariant (forall x :: x in frontier ==> x in seenInWalk) && Distinct(frontier)
      invariant Expanded(m, seenInWalk, frontier, None)
      decreases |reachable - seenInWalk|, |frontier|
    {
      var current := frontier[|frontier| - 1];
      Pop(frontier);
      frontier := frontier[..|frontier| - 1];
      assert Expanded(m, seenInWalk, frontier, Some(current));
      if current in m {
        ghost var seen0 := seenInWalk;
        seenInWalk, frontier, result :=
          ExpandDependencies(current, m[current].dependencies, seenInWalk, frontier, result, m, reachable);
        if seenInWalk != seen0 {
          FewerOutside(reachable, seen0, seenInWalk);
        }
      }
    }
    ReachableLeast(m, seeds, seenInWalk);
  }

  // ----- The output -----

  /** The children, in order, whose ident hash is in `hashes`. */
  function Keep(children: seq<Workspace>, hashes: set<string>): (kept: seq<Workspace>)
    ensures forall w :: w in kept <==> w in children && w.name.Some? && w.name.value in hashes
    ensures |kept| <= |children|
    decreases |children|
  {
    if children == [] then []
    else if children[0].name.Some? && children[0].name.value in hashes then [children[0]] + Keep(children[1..], hashes)
    else Keep(children[1..], hashes)
  }

  /** The ident hashes that the lister reports, as a function of the workspaces. */
  ghost function Listed(root: Workspace, children: seq<Workspace>): set<string> {
    var all := children + [root];
    Reachable(IndexFrom(map[], all), AddAllSeeds({}, all, InternalHashes(children)))
  }

  /**
   * Lists the children of `root` that are internal development dependencies:
   * fails for a child or root without a name, and otherwise keeps the
   * children whose ident hash the walk reaches from the seeds.
   */
  method ListInternalDevDependencies(root: Workspace, children: seq<Workspace>, fromPortablePath: string -> string)
    returns (r: Result<seq<Workspace>, string>)
    ensures r.Failure? <==> exists w :: w in children + [root] && w.name.None?
    ensures r.Failure? ==> exists i :: (0 <= i < |children + [root]| && (children + [root])[i].name.None?
                                         && (forall j :: 0 <= j < i ==> (children + [root])[j].name.Some?)
                                         && r.error == NoNameError((children + [root])[i].cwd, fromPortablePath))
    ensures r.Success? ==> r.value == Keep(children, Listed(root, children))
  {
    var all := children + [root];
    var internalPackageHashes := InternalHashes(children);
    var survey := Survey(all, internalPackageHashes, fromPortablePath);
    if survey.Failure? {
      var i :| 0 <= i < |all| && all[i].name.None?;
      assert all[i] in all;
      return Failure(survey.error);
    }
    assert forall w :: w in all ==> w.name.Some? by {
      forall w | w in all ensures w.name.Some? {
        var i :| 0 <= i < |all| && all[i] == w;
      }
    }
    var (identMap, seeds) := survey.value;
    var resultIdentHashes := Walk(identMap, seeds);
    r := Success(Keep(children, resultIdentHashes));
  }

  /** A child named by an internal `workspace:` development dependency of any workspace is listed. */
  lemma ListedSeeded(root: Workspace, children: seq<Workspace>, i: int, c: int)
    requires 0 <= i < |children| + 1 && 0 <= c < |children| && children[c].name.Some?
    requires SeededBy((children + [root])[i], InternalHashes(children), children[c].name.value)
    ensures children[c] in Keep(children, Listed(root, children))
  {
    var all := children + [root];
    var internal := InternalHashes(children);
    AddAllSeedsMembers({}, all, internal, children[c].name.value);
    ReachableClosed(IndexFrom(map[], all), AddAllSeeds({}, all, internal));
    assert children[c] in children;
  }
}
