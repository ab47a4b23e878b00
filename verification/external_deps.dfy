/**
 * The external dependency collector: one range per package name over all
 * workspaces of the repository, keeping the greatest range by a range
 * comparator, followed by every Node.js builtin module mapped to `null`.
 *
 * The comparator (a semver range comparison in the source) and the list of
 * builtin modules are parameters.
 */
module ExternalDeps {
  import opened Wrappers
  import opened Text
  import opened Json

  /** A dependency descriptor of a manifest: an optional scope, a name and a range. */
  datatype Descriptor = Descriptor(scope: Option<string>, name: string, range: string)

  /** The two dependency lists of a workspace manifest, in declaration order. */
  datatype Workspace = Workspace(devDependencies: seq<Descriptor>, dependencies: seq<Descriptor>)

  /** The package name a descriptor is recorded under: `@scope/name`, or the bare name without a scope. */
  function DependencyKey(d: Descriptor): string {
    if d.scope.Some? && d.scope.value != [] then "@" + d.scope.value + "/" + d.name else d.name
  }

  /** A range the collector never records. */
  predicate IsWorkspaceRange(range: string) {
    StartsWith(range, "workspace:")
  }

  /** One turn of the inner loop: record the descriptor's range unless it is a workspace range or not greater. */
  function Record(versions: seq<(string, Json)>, d: Descriptor, compare: (string, string) -> int): seq<(string, Json)> {
    var dependency := DependencyKey(d);
    var existingVersion := Get(versions, dependency);
    if !IsWorkspaceRange(d.range)
      && (existingVersion.None? || !Truthy(existingVersion.value)
          || (existingVersion.value.JStr? && compare(existingVersion.value.s, d.range) < 0))
    then Assign(versions, dependency, JStr(d.range))
    else versions
  }

  /** The map after the turns for `ds`, in order. */
  function RecordAll(versions: seq<(string, Json)>, ds: seq<Descriptor>, compare: (string, string) -> int): seq<(string, Json)>
    decreases |ds|
  {
    if ds == [] then versions else RecordAll(Record(versions, ds[0], compare), ds[1..], compare)
  }

  /** The map after the outer loop: each workspace's development dependencies, then its dependencies. */
  function RecordWorkspaces(versions: seq<(string, Json)>, ws: seq<Workspace>, compare: (string, string) -> int): seq<(string, Json)>
    decreases |ws|
  {
    if ws == [] then versions
    else RecordWorkspaces(RecordAll(versions, ws[0].devDependencies + ws[0].dependencies, compare), ws[1..], compare)
  }

  /** Every descriptor in visiting order. */
  function Visited(ws: seq<Workspace>): seq<Descriptor>
    decreases |ws|
  {
    if ws == [] then [] else ws[0].devDependencies + ws[0].dependencies + Visited(ws[1..])
  }

  /** `builtins.map((moduleName) => [moduleName, null])` */
  function BuiltinEntries(builtins: seq<string>): (entries: seq<(string, Json)>)
    ensures |entries| == |builtins|
    ensures forall i :: 0 <= i < |builtins| ==> entries[i] == (builtins[i], JNull)
  {
    if builtins == [] then [] else [(builtins[0], JNull)] + BuiltinEntries(builtins[1..])
  }

  /** `Object.fromEntries`: later entries overwrite earlier ones with the same key. */
  function FromEntries(entries: seq<(string, Json)>): seq<(string, Json)> {
    AssignAll([], entries)
  }

  /** The inner loop of `collectAllExternalDependencies`, over one workspace's descriptors. */
  method RecordEntries(versions: seq<(string, Json)>, entries: seq<Descriptor>, compare: (string, string) -> int)
    returns (versions': seq<(string, Json)>)
    ensures versions' == RecordAll(versions, entries, compare)
  {
    versions' := versions;
    var j := 0;
    while j < |entries|
      invariant j <= |entries|
      invariant RecordAll(versions', entries[j..], compare) == RecordAll(versions, entries, compare)
    {
      var version := entries[j];
      RecordAllStep(versions', entries, j, compare);
      ghost var recorded := Record(versions', version, compare);
      var dependency := DependencyKey(version);
      var newVersion := version.range;
      var existingVersion := Get(versions', dependency);
      if !IsWorkspaceRange(newVersion)
        && (existingVersion.None? || !Truthy(existingVersion.value)
            || (existingVersion.value.JStr? && compare(existingVersion.value.s, newVersion) < 0))
      {
        versions' := Assign(versions', dependency, JStr(newVersion));
      }
      assert versions' == recorded;
      j := j + 1;
    }
    assert entries[j..] == [];
  }

  /** `collectAllExternalDependencies` */
  method CollectAllExternalDependencies(workspaces: seq<Workspace>, compare: (string, string) -> int, builtins: seq<string>)
    returns (result: seq<(string, Json)>)
    ensures result == FromEntries(RecordWorkspaces([], workspaces, compare) + BuiltinEntries(builtins))
  {
    var versionsFromAllPackageJson := [];
    var i := 0;
    while i < |workspaces|
      invariant i <= |workspaces|
      invariant RecordWorkspaces(versionsFromAllPackageJson, workspaces[i..], compare) == RecordWorkspaces([], workspaces, compare)
    {
      var workspace := workspaces[i];
      assert workspaces[i..][1..] == workspaces[i + 1..];
      versionsFromAllPackageJson := RecordEntries(versionsFromAllPackageJson, workspace.devDependencies + workspace.dependencies, compare);
      i := i + 1;
    }
    assert workspaces[i..] == [];
    result := FromEntries(versionsFromAllPackageJson + BuiltinEntries(builtins));
  }

  /** Recording from the `j`-th descriptor on is recording it, then the rest. */
  lemma RecordAllStep(versions: seq<(string, Json)>, ds: seq<Descriptor>, j: nat, compare: (string, string) -> int)
    requires j < |ds|
    ensures RecordAll(versions, ds[j..], compare) == RecordAll(Record(versions, ds[j], compare), ds[j + 1..], compare)
  {
    assert ds[j..][1..] == ds[j + 1..];
  }

  /** The outer loop visits the descriptors of all workspaces in order. */
  lemma {:induction false} RecordWorkspacesVisited(versions: seq<(string, Json)>, ws: seq<Workspace>, compare: (string, string) -> int)
    ensures RecordWorkspaces(versions, ws, compare) == RecordAll(versions, Visited(ws), compare)
    decreases |ws|
  {
    if ws != [] {
      var entries := ws[0].devDependencies + ws[0].dependencies;
      RecordAllAppend(versions, entries, Visited(ws[1..]), compare);
      RecordWorkspacesVisited(RecordAll(versions, entries, compare), ws[1..], compare);
    }
  }

  /** Recording two lists is recording the first, then the second. */
  lemma {:induction false} RecordAllAppend(versions: seq<(string, Json)>, a: seq<Descriptor>, b: seq<Descriptor>, compare: (string, string) -> int)
    ensures RecordAll(versions, a + b, compare) == RecordAll(RecordAll(versions, a, compare), b, compare)
    decreases |a|
  {
    if a == [] {
      assert a + b == b;
    } else {
      assert (a + b)[0] == a[0];
      assert (a + b)[1..] == a[1..] + b;
      RecordAllAppend(Record(versions, a[0], compare), a[1..], b, compare);
    }
  }

  /** The descriptor takes part in the fold for `key`. */
  predicate Counts(d: Descriptor, key: string) {
    DependencyKey(d) == key && !IsWorkspaceRange(d.range)
  }

  /** The recorded names are exactly those of descriptors without a workspace range. */
  lemma {:induction false} RecordAllKeys(versions: seq<(string, Json)>, ds: seq<Descriptor>, compare: (string, string) -> int, key: string)
    ensures key in KeysOf(RecordAll(versions, ds, compare))
      <==> key in KeysOf(versions) || exists d :: d in ds && Counts(d, key)
    decreases |ds|
  {
    if ds != [] {
      assert forall d :: d in ds <==> d == ds[0] || d in ds[1..];
      RecordAllKeys(Record(versions, ds[0], compare), ds[1..], compare, key);
      if Counts(ds[0], key) {
        assert key in KeysOf(Record(versions, ds[0], compare));
      }
    }
  }

  /** Recording keeps the names distinct. */
  lemma {:induction false} RecordAllDistinct(versions: seq<(string, Json)>, ds: seq<Descriptor>, compare: (string, string) -> int)
    requires DistinctKeys(versions)
    ensures DistinctKeys(RecordAll(versions, ds, compare))
    decreases |ds|
  {
    if ds != [] {
      var d := ds[0];
      if Record(versions, d, compare) != versions {
        AssignDistinct(versions, DependencyKey(d), JStr(d.range));
      }
      RecordAllDistinct(Record(versions, d, compare), ds[1..], compare);
    }
  }

  /** The ranges recorded under `key` would come from, in visiting order. */
  function KeyRanges(ds: seq<Descriptor>, key: string): (rs: seq<string>)
    ensures forall r :: r in rs ==> exists d :: d in ds && Counts(d, key) && d.range == r
    decreases |ds|
  {
    if ds == [] then []
    else
      assert forall d :: d in ds[1..] ==> d in ds;
      if Counts(ds[0], key) then [ds[0].range] + KeyRanges(ds[1..], key) else KeyRanges(ds[1..], key)
  }

  /** One turn for a single name: the range held (if any) against a new one. */
  function KeepGreater(held: Option<string>, r: string, compare: (string, string) -> int): Option<string> {
    if held.None? || held.value == [] || compare(held.value, r) < 0 then Some(r) else held
  }

  /** The turns for a single name over its ranges in order. */
  function KeepGreatest(held: Option<string>, rs: seq<string>, compare: (string, string) -> int): Option<string>
    decreases |rs|
  {
    if rs == [] then held else KeepGreatest(KeepGreater(held, rs[0], compare), rs[1..], compare)
  }

  /** The range a name holds in the map, if any. */
  function HeldRange(v: Option<Json>): Option<string> {
    if v.Some? && v.value.JStr? then Some(v.value.s) else None
  }

  /** A turn keeps every value a string range. */
  lemma RecordHoldsRanges(versions: seq<(string, Json)>, d: Descriptor, compare: (string, string) -> int, key: string)
    requires Get(versions, key).None? || Get(versions, key).value.JStr?
    ensures Get(Record(versions, d, compare), key).None? || Get(Record(versions, d, compare), key).value.JStr?
    ensures HeldRange(Get(Record(versions, d, compare), key))
      == if Counts(d, key) then KeepGreater(HeldRange(Get(versions, key)), d.range, compare) else HeldRange(Get(versions, key))
  {
    var dependency := DependencyKey(d);
    if dependency != key && Record(versions, d, compare) != versions {
      AssignOther(versions, dependency, JStr(d.range), key);
    }
  }

  /** What the map holds for one name follows the single-name fold over that name's ranges. */
  lemma {:induction false} RecordAllHeld(versions: seq<(string, Json)>, ds: seq<Descriptor>, compare: (string, string) -> int, key: string)
    requires Get(versions, key).None? || Get(versions, key).value.JStr?
    ensures var after := Get(RecordAll(versions, ds, compare), key);
      (after.None? || after.value.JStr?)
      && HeldRange(after) == KeepGreatest(HeldRange(Get(versions, key)), KeyRanges(ds, key), compare)
    decreases |ds|
  {
    if ds != [] {
      RecordHoldsRanges(versions, ds[0], compare, key);
      RecordAllHeld(Record(versions, ds[0], compare), ds[1..], compare, key);
    }
  }

  /**
   * `compare(a, b) < 0` orders ranges strictly and weakly: it is irreflexive and
   * transitive, and incomparability is transitive too (if `a < c` then `a < b`
   * or `b < c`).
   */
  ghost predicate StrictWeakOrder(compare: (string, string) -> int) {
    (forall a :: !(compare(a, a) < 0))
    && (forall a, b, c {:trigger compare(a, b), compare(b, c)} :: compare(a, b) < 0 && compare(b, c) < 0 ==> compare(a, c) < 0)
    && (forall a, b, c {:trigger compare(a, b), compare(b, c)} :: compare(a, c) < 0 ==> compare(a, b) < 0 || compare(b, c) < 0)
  }

  /** The single-name fold ends with nothing only when nothing was held and nothing visited. */
  lemma {:induction false} KeepGreatestNone(held: Option<string>, rs: seq<string>, compare: (string, string) -> int)
    ensures KeepGreatest(held, rs, compare).None? <==> held.None? && rs == []
    decreases |rs|
  {
    if rs != [] {
      KeepGreatestNone(KeepGreater(held, rs[0], compare), rs[1..], compare);
    }
  }

  /** One turn over a non-empty held range: the new range replaces it exactly when it is greater. */
  lemma KeepGreaterStep(held: Option<string>, r: string, compare: (string, string) -> int)
    requires held.Some? ==> held.value != []
    ensures var mid := KeepGreater(held, r, compare);
      (mid == Some(r) && (held.Some? ==> compare(held.value, r) < 0))
      || (mid == held && held.Some? && !(compare(held.value, r) < 0))
  {
  }

  /**
   * Over non-empty ranges the single-name fold ends with a greatest range: none
   * of the held or visited ranges is greater.
   */
  lemma {:induction false} KeepGreatestIsGreatest(held: Option<string>, rs: seq<string>, compare: (string, string) -> int)
    requires StrictWeakOrder(compare)
    requires held.Some? ==> held.value != []
    requires forall i :: 0 <= i < |rs| ==> rs[i] != []
    ensures var f := KeepGreatest(held, rs, compare);
      f.Some? ==>
        (held.Some? ==> !(compare(f.value, held.value) < 0))
        && forall i :: 0 <= i < |rs| ==> !(compare(f.value, rs[i]) < 0)
    decreases |rs|
  {
    if rs != [] {
      var mid := KeepGreater(held, rs[0], compare);
      KeepGreaterStep(held, rs[0], compare);
      forall i | 0 <= i < |rs[1..]| ensures rs[1..][i] != [] {
        assert rs[1..][i] == rs[i + 1];
      }
      KeepGreatestIsGreatest(mid, rs[1..], compare);
      KeepGreatestNone(mid, rs[1..], compare);
      var f := KeepGreatest(mid, rs[1..], compare);
      forall i | 0 < i < |rs| ensures !(compare(f.value, rs[i]) < 0) {
        assert rs[i] == rs[1..][i - 1];
      }
    }
  }

  /**
   * Over non-empty ranges the single-name fold ends with the first greatest
   * range: the held range and every range visited before it are strictly less.
   */
  lemma {:induction false} KeepGreatestIsFirst(held: Option<string>, rs: seq<string>, compare: (string, string) -> int)
    requires StrictWeakOrder(compare)
    requires held.Some? ==> held.value != []
    requires forall i :: 0 <= i < |rs| ==> rs[i] != []
    ensures var f := KeepGreatest(held, rs, compare);
      f == held
      || exists i :: 0 <= i < |rs| && f == Some(rs[i])
          && (held.Some? ==> compare(held.value, rs[i]) < 0)
          && forall j :: 0 <= j < i ==> compare(rs[j], rs[i]) < 0
    decreases |rs|
  {
    if rs != [] {
      var mid := KeepGreater(held, rs[0], compare);
      KeepGreaterStep(held, rs[0], compare);
      forall i | 0 <= i < |rs[1..]| ensures rs[1..][i] != [] {
        assert rs[1..][i] == rs[i + 1];
      }
      KeepGreatestIsFirst(mid, rs[1..], compare);
      var f := KeepGreatest(mid, rs[1..], compare);
      if f != mid {
        FirstFromTail(held, mid, rs, f, compare);
      } else if f != held {
        assert 0 < |rs| && f == Some(rs[0]);
      }
    }
  }

  /** The inductive step of `KeepGreatestIsFirst` when a later range won. */
  lemma FirstFromTail(held: Option<string>, mid: Option<string>, rs: seq<string>, f: Option<string>, compare: (string, string) -> int)
    requires StrictWeakOrder(compare)
    requires rs != []
    requires (mid == Some(rs[0]) && (held.Some? ==> compare(held.value, rs[0]) < 0))
      || (mid == held && held.Some? && !(compare(held.value, rs[0]) < 0))
    requires exists i :: (0 <= i < |rs[1..]| && f == Some(rs[1..][i])
                           && (mid.Some? ==> compare(mid.value, rs[1..][i]) < 0)
                           && forall j :: 0 <= j < i ==> compare(rs[1..][j], rs[1..][i]) < 0)
    ensures exists i :: (0 <= i < |rs| && f == Some(rs[i])
                          && (held.Some? ==> compare(held.value, rs[i]) < 0)
                          && forall j :: 0 <= j < i ==> compare(rs[j], rs[i]) < 0)
  {
    var i :| 0 <= i < |rs[1..]| && f == Some(rs[1..][i])
      && (mid.Some? ==> compare(mid.value, rs[1..][i]) < 0)
      && forall j :: 0 <= j < i ==> compare(rs[1..][j], rs[1..][i]) < 0;
    var k := i + 1;
    assert rs[k] == rs[1..][i];
    forall j | 0 <= j < k ensures compare(rs[j], rs[k]) < 0 {
      if j > 0 {
        assert rs[j] == rs[1..][j - 1];
      } else if mid == held {
        assert compare(held.value, rs[k]) < 0 ==> compare(held.value, rs[0]) < 0 || compare(rs[0], rs[k]) < 0;
      }
    }
    assert held.Some? ==> compare(held.value, rs[k]) < 0;
  }

  /**
   * The collected record: every builtin module maps to `null`; every other name
   * holds what the fold recorded for it.
   */
  lemma Collected(workspaces: seq<Workspace>, compare: (string, string) -> int, builtins: seq<string>, key: string)
    ensures var result := FromEntries(RecordWorkspaces([], workspaces, compare) + BuiltinEntries(builtins));
      (key in KeysOf(result) <==> key in builtins || exists d :: d in Visited(workspaces) && Counts(d, key))
      && (key in builtins ==> Get(result, key) == Some(JNull))
      && (key !in builtins ==>
            (Get(result, key).None? || Get(result, key).value.JStr?)
            && HeldRange(Get(result, key)) == KeepGreatest(None, KeyRanges(Visited(workspaces), key), compare))
  {
    var versions := RecordWorkspaces([], workspaces, compare);
    var entries := BuiltinEntries(builtins);
    RecordWorkspacesVisited([], workspaces, compare);
    RecordAllKeys([], Visited(workspaces), compare, key);
    RecordAllDistinct([], Visited(workspaces), compare);
    RecordAllHeld([], Visited(workspaces), compare, key);
    AssignAllAppend([], versions, entries);
    assert key in KeysOf(entries) <==> key in builtins by {
      if key in builtins {
        var i :| 0 <= i < |builtins| && builtins[i] == key;
        assert KeysOf(entries)[i] == key;
      }
    }
    if key in builtins {
      AssignAllUniform(AssignAll([], versions), entries, JNull, key);
    } else {
      AssignAllOutside(AssignAll([], versions), entries, key);
      FromDistinctEntries(versions, key);
    }
  }

  /** `Object.fromEntries` of entries with distinct keys looks every key up as the entries do. */
  lemma FromDistinctEntries(kvs: seq<(string, Json)>, key: string)
    requires DistinctKeys(kvs)
    ensures Get(AssignAll([], kvs), key) == Get(kvs, key)
  {
    AssignAllGet([], kvs, key);
    if key in KeysOf(kvs) {
      var i :| 0 <= i < |kvs| && KeysOf(kvs)[i] == key;
      GetFirstAt(kvs, i);
    }
  }
}
