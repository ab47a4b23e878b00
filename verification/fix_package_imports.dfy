/**
 * The reconciliation step of the import fixer: given the package names a
 * workspace package imports (program and development imports, see the import
 * scanner) and the names of the repository's own workspaces, it brings the
 * `dependencies` and `devDependencies` objects of the package's `package.json`
 * in line with the imports and reports what has to be installed and what is
 * declared but never imported.
 *
 * The package manifest is given already parsed; reading and writing it, the
 * console messages and the `yarn add` calls are not part of this model. Each
 * dependency object is `None` when absent (or falsy) and otherwise its list of
 * entries. Import sets are sequences in the sets' insertion order.
 */
module FixImports {
  import opened Wrappers
  import opened Text
  import opened Json

  /** The two dependency objects of a `package.json` that the step reads and writes. */
  datatype Manifest = Manifest(
    dependencies: Option<seq<(string, Json)>>,
    devDependencies: Option<seq<(string, Json)>>)

  /** What the step reports when it does not throw. */
  datatype Outcome = Outcome(
    manifest: Manifest,
    needsUpdate: bool,
    missingNpmInstalls: set<string>,
    missingDevNpmInstalls: set<string>,
    extraImports: set<string>)

  /** The range written for an added internal dependency. */
  const WorkspaceRange: Json := JStr("workspace:*")

  /** `obj || {}` for a dependency object. */
  function Declared(o: Option<seq<(string, Json)>>): seq<(string, Json)> {
    if o.Some? then o.value else []
  }

  /** `Object.hasOwnProperty.call(obj || {}, name)` */
  predicate Declares(o: Option<seq<(string, Json)>>, name: string) {
    name in KeysOf(Declared(o))
  }

  /** `refs.filter(ref => internalPackageNameMap.has(ref) == internal)` */
  function Filter(refs: seq<string>, internalNames: set<string>, internal: bool): (r: seq<string>)
    ensures forall x :: x in r <==> x in refs && (x in internalNames <==> internal)
  {
    if refs == [] then []
    else
      var rest := Filter(refs[1..], internalNames, internal);
      assert forall x :: x in refs <==> x == refs[0] || x in refs[1..];
      if refs[0] in internalNames <==> internal then [refs[0]] + rest else rest
  }

  // ---------------------------------------------------------------------------
  // First loop: internal references become `workspace:*` dependencies.

  /** One turn of the first loop, for the internal reference `x`. */
  function AddInternal(m: Manifest, x: string, program: seq<string>, dev: seq<string>): Result<Manifest, string> {
    if x in program then
      if !Declares(m.dependencies, x) then
        Success(Manifest(Some(Assign(Declared(m.dependencies), x, WorkspaceRange)), m.devDependencies))
      else Success(m)
    else if x in dev then
      if !Declares(m.devDependencies, x) then
        var deps := if m.dependencies.Some? then m.dependencies else Some([]);
        if m.devDependencies.None? then Failure("TypeError: devDependencies is undefined")
        else Success(Manifest(deps, Some(Assign(m.devDependencies.value, x, WorkspaceRange))))
      else Success(m)
    else Success(m)
  }

  /** Whether the turn for `x` writes a dependency. */
  predicate AddsInternal(m: Manifest, x: string, program: seq<string>, dev: seq<string>) {
    if x in program then !Declares(m.dependencies, x)
    else x in dev && !Declares(m.devDependencies, x)
  }

  /** The manifest and flag after the turns for `refs`, in order. */
  function AddAllInternal(m: Manifest, needsUpdate: bool, refs: seq<string>, program: seq<string>, dev: seq<string>): Result<(Manifest, bool), string>
    decreases |refs|
  {
    if refs == [] then Success((m, needsUpdate))
    else
      match AddInternal(m, refs[0], program, dev)
      case Failure(e) => Failure(e)
      case Success(m') => AddAllInternal(m', needsUpdate || AddsInternal(m, refs[0], program, dev), refs[1..], program, dev)
  }

  /** The first loop of `updatePackageJsonReferences`. */
  method AddInternalReferences(m: Manifest, internalRefs: seq<string>, program: seq<string>, dev: seq<string>)
    returns (r: Result<(Manifest, bool), string>)
    ensures r == AddAllInternal(m, false, internalRefs, program, dev)
  {
    var dependencies := m.dependencies;
    var devDependencies := m.devDependencies;
    var needsUpdate := false;
    var i := 0;
    while i < |internalRefs|
      invariant i <= |internalRefs|
      invariant AddAllInternal(Manifest(dependencies, devDependencies), needsUpdate, internalRefs[i..], program, dev)
        == AddAllInternal(m, false, internalRefs, program, dev)
    {
      var internalReference := internalRefs[i];
      assert internalRefs[i..][1..] == internalRefs[i + 1..];
      if internalReference in program {
        if !Declares(dependencies, internalReference) {
          if dependencies.None? {
            dependencies := Some([]);
          }
          dependencies := Some(Assign(dependencies.value, internalReference, WorkspaceRange));
          needsUpdate := true;
        }
      } else if internalReference in dev {
        if !Declares(devDependencies, internalReference) {
          if dependencies.None? {
            dependencies := Some([]);
          }
          if devDependencies.None? {
            return Failure("TypeError: devDependencies is undefined");
          }
          devDependencies := Some(Assign(devDependencies.value, internalReference, WorkspaceRange));
          needsUpdate := true;
        }
      }
      i := i + 1;
    }
    assert internalRefs[i..] == [];
    r := Success((Manifest(dependencies, devDependencies), needsUpdate));
  }

  /** The first loop throws exactly when a development-only reference is met while `devDependencies` is absent. */
  lemma {:induction false} AddAllInternalFails(m: Manifest, needsUpdate: bool, refs: seq<string>, program: seq<string>, dev: seq<string>)
    requires forall x :: x in refs ==> x in program || x in dev
    ensures AddAllInternal(m, needsUpdate, refs, program, dev).Failure?
      <==> m.devDependencies.None? && exists x :: x in refs && x !in program
    decreases |refs|
  {
    if refs != [] {
      var x := refs[0];
      assert forall y :: y in refs <==> y == x || y in refs[1..];
      match AddInternal(m, x, program, dev)
      case Failure(e) =>
      case Success(m1) =>
        assert m1.devDependencies.None? <==> m.devDependencies.None?;
        AddAllInternalFails(m1, needsUpdate || AddsInternal(m, x, program, dev), refs[1..], program, dev);
    }
  }

  /**
   * The first loop keeps every declared entry, and every entry it adds is a
   * reference with the range `workspace:*`.
   */
  lemma {:induction false} AddAllInternalEntries(m: Manifest, needsUpdate: bool, refs: seq<string>, program: seq<string>, dev: seq<string>)
    requires AddAllInternal(m, needsUpdate, refs, program, dev).Success?
    ensures var m' := AddAllInternal(m, needsUpdate, refs, program, dev).value.0;
      (forall e :: e in Declared(m.dependencies) ==> e in Declared(m'.dependencies))
      && (forall e :: e in Declared(m'.dependencies) ==> e in Declared(m.dependencies) || (e.0 in refs && e.1 == WorkspaceRange))
      && (forall e :: e in Declared(m.devDependencies) ==> e in Declared(m'.devDependencies))
      && (forall e :: e in Declared(m'.devDependencies) ==> e in Declared(m.devDependencies) || (e.0 in refs && e.1 == WorkspaceRange))
    decreases |refs|
  {
    if refs != [] {
      var x := refs[0];
      assert forall y :: y in refs <==> y == x || y in refs[1..];
      var m1 := AddInternal(m, x, program, dev).value;
      if x in program {
        if !Declares(m.dependencies, x) {
          AssignNew(Declared(m.dependencies), x, WorkspaceRange);
        }
      } else if x in dev && !Declares(m.devDependencies, x) {
        AssignNew(Declared(m.devDependencies), x, WorkspaceRange);
      }
      AddAllInternalEntries(m1, needsUpdate || AddsInternal(m, x, program, dev), refs[1..], program, dev);
    }
  }

  /** After the first loop every program reference is a dependency and every development-only one a development dependency. */
  lemma {:induction false} AddAllInternalPresent(m: Manifest, needsUpdate: bool, refs: seq<string>, program: seq<string>, dev: seq<string>)
    requires forall x :: x in refs ==> x in program || x in dev
    requires AddAllInternal(m, needsUpdate, refs, program, dev).Success?
    ensures var m' := AddAllInternal(m, needsUpdate, refs, program, dev).value.0;
      (forall x :: x in refs && x in program ==> Declares(m'.dependencies, x))
      && (forall x :: x in refs && x !in program ==> Declares(m'.devDependencies, x))
    decreases |refs|
  {
    if refs != [] {
      var x := refs[0];
      assert forall y :: y in refs <==> y == x || y in refs[1..];
      var m1 := AddInternal(m, x, program, dev).value;
      var flag := needsUpdate || AddsInternal(m, x, program, dev);
      AddAllInternalPresent(m1, flag, refs[1..], program, dev);
      AddAllInternalEntries(m1, flag, refs[1..], program, dev);
      var m' := AddAllInternal(m1, flag, refs[1..], program, dev).value.0;
      EntriesKeys(Declared(m1.dependencies), Declared(m'.dependencies));
      EntriesKeys(Declared(m1.devDependencies), Declared(m'.devDependencies));
      assert x in program ==> Declares(m1.dependencies, x);
      assert x !in program ==> Declares(m1.devDependencies, x);
    }
  }

  /** An object holding every entry of another holds each of its keys. */
  lemma EntriesKeys(a: seq<(string, Json)>, b: seq<(string, Json)>)
    requires forall e :: e in a ==> e in b
    ensures forall k :: k in KeysOf(a) ==> k in KeysOf(b)
  {
    forall k | k in KeysOf(a) ensures k in KeysOf(b) {
      var i :| 0 <= i < |a| && KeysOf(a)[i] == k;
      assert a[i] in b;
      var j :| 0 <= j < |b| && b[j] == a[i];
      assert KeysOf(b)[j] == k;
    }
  }

  /** The first loop raises the flag exactly when some reference was missing from its object. */
  lemma {:induction false} AddAllInternalFlag(m: Manifest, needsUpdate: bool, refs: seq<string>, program: seq<string>, dev: seq<string>)
    requires AddAllInternal(m, needsUpdate, refs, program, dev).Success?
    ensures AddAllInternal(m, needsUpdate, refs, program, dev).value.1
      <==> needsUpdate || exists x :: x in refs && AddsInternal(m, x, program, dev)
    decreases |refs|
  {
    if refs != [] {
      var x := refs[0];
      assert forall y :: y in refs <==> y == x || y in refs[1..];
      var m1 := AddInternal(m, x, program, dev).value;
      var flag := needsUpdate || AddsInternal(m, x, program, dev);
      AddAllInternalFlag(m1, flag, refs[1..], program, dev);
      forall y | AddsInternal(m1, y, program, dev) && y != x
        ensures AddsInternal(m, y, program, dev)
      {
        if y in program {
          if x in program && !Declares(m.dependencies, x) {
            assert KeysOf(m1.dependencies.value) == KeysOf(Declared(m.dependencies)) + [x];
          }
        } else if x !in program && x in dev && !Declares(m.devDependencies, x) {
          assert KeysOf(m1.devDependencies.value) == KeysOf(Declared(m.devDependencies)) + [x];
        }
      }
      forall y | AddsInternal(m, y, program, dev) && y != x
        ensures AddsInternal(m1, y, program, dev)
      {
      }
    }
  }

  /** Assigning a key leaves the values of all other keys as they were. */
  lemma AssignOtherAll(fields: seq<(string, Json)>, k: string, v: Json)
    ensures forall k' :: k' != k ==> Get(Assign(fields, k, v), k') == Get(fields, k')
  {
    forall k' | k' != k ensures Get(Assign(fields, k, v), k') == Get(fields, k') {
      AssignOther(fields, k, v, k');
    }
  }
  /** A manifest without either dependency object, and a development-only internal import, make the first loop throw. */
  lemma DevOnlyImportThrows(x: string)
    ensures AddInternal(Manifest(None, None), x, [], [x]).Failure?
    ensures AddAllInternal(Manifest(None, None), false, [x], [], [x]).Failure?
  {
  }

  /** The development branch as evidently intended: it creates a missing `devDependencies` object. */
  function AddInternalIntended(m: Manifest, x: string, program: seq<string>, dev: seq<string>): Manifest {
    if x in program then
      if !Declares(m.dependencies, x) then Manifest(Some(Assign(Declared(m.dependencies), x, WorkspaceRange)), m.devDependencies)
      else m
    else if x in dev && !Declares(m.devDependencies, x) then
      Manifest(m.dependencies, Some(Assign(Declared(m.devDependencies), x, WorkspaceRange)))
    else m
  }

  /** The intended first loop. */
  function AddAllInternalIntended(m: Manifest, refs: seq<string>, program: seq<string>, dev: seq<string>): Manifest
    decreases |refs|
  {
    if refs == [] then m else AddAllInternalIntended(AddInternalIntended(m, refs[0], program, dev), refs[1..], program, dev)
  }

  /** The intended first loop never removes a declared name. */
  lemma {:induction false} AddAllIntendedKeeps(m: Manifest, refs: seq<string>, program: seq<string>, dev: seq<string>, y: string)
    ensures Declares(m.dependencies, y) ==> Declares(AddAllInternalIntended(m, refs, program, dev).dependencies, y)
    ensures Declares(m.devDependencies, y) ==> Declares(AddAllInternalIntended(m, refs, program, dev).devDependencies, y)
    decreases |refs|
  {
    if refs != [] {
      AddAllIntendedKeeps(AddInternalIntended(m, refs[0], program, dev), refs[1..], program, dev, y);
    }
  }

  /**
   * With the intended branch, every program import ends up declared in
   * `dependencies` and every development-only import in `devDependencies`,
   * whichever objects the manifest started with.
   */
  lemma {:induction false} AddAllIntendedDeclares(m: Manifest, refs: seq<string>, program: seq<string>, dev: seq<string>, x: string)
    requires x in refs && (x in program || x in dev)
    ensures x in program ==> Declares(AddAllInternalIntended(m, refs, program, dev).dependencies, x)
    ensures x !in program ==> Declares(AddAllInternalIntended(m, refs, program, dev).devDependencies, x)
    decreases |refs|
  {
    var m1 := AddInternalIntended(m, refs[0], program, dev);
    if refs[0] == x {
      AddAllIntendedKeeps(m1, refs[1..], program, dev, x);
    } else {
      assert x in refs[1..];
      AddAllIntendedDeclares(m1, refs[1..], program, dev, x);
    }
  }

  // ---------------------------------------------------------------------------
  // Second loop: workspace dependencies nothing imports are deleted.

  /** A declared dependency with a `workspace` range that no internal reference names. */
  predicate Dangling(entry: (string, Json), internalRefs: seq<string>) {
    entry.1.JStr? && StartsWith(entry.1.s, "workspace") && entry.0 !in internalRefs
  }

  /**
   * The entries kept and the flag after the turns for `fields`, in order.
   * `range.startsWith` throws on a range that is not a string.
   */
  function Prune(kept: seq<(string, Json)>, needsUpdate: bool, fields: seq<(string, Json)>, internalRefs: seq<string>)
    : Result<(seq<(string, Json)>, bool), string>
    decreases |fields|
  {
    if fields == [] then Success((kept, needsUpdate))
    else if !fields[0].1.JStr? then Failure("TypeError: startsWith is not a function")
    else if Dangling(fields[0], internalRefs) then Prune(kept, true, fields[1..], internalRefs)
    else Prune(kept + [fields[0]], needsUpdate, fields[1..], internalRefs)
  }

  /** The second loop, on an absent or present `dependencies` object. */
  function RemoveDangling(dependencies: Option<seq<(string, Json)>>, internalRefs: seq<string>)
    : Result<(Option<seq<(string, Json)>>, bool), string>
  {
    if dependencies.None? then Success((None, false))
    else
      match Prune([], false, dependencies.value, internalRefs)
      case Failure(e) => Failure(e)
      case Success(p) => Success((Some(p.0), p.1))
  }

  /**
   * The second loop of `updatePackageJsonReferences`. Deleting the key just
   * visited leaves the kept entries followed by the unvisited ones, so the
   * object is tracked as the kept entries.
   */
  method RemoveDanglingReferences(dependencies: Option<seq<(string, Json)>>, internalRefs: seq<string>)
    returns (r: Result<(Option<seq<(string, Json)>>, bool), string>)
    ensures r == RemoveDangling(dependencies, internalRefs)
  {
    if dependencies.None? {
      return Success((None, false));
    }
    var fields := dependencies.value;
    var kept := [];
    var needsUpdate := false;
    var i := 0;
    while i < |fields|
      invariant i <= |fields|
      invariant Prune(kept, needsUpdate, fields[i..], internalRefs) == Prune([], false, fields, internalRefs)
    {
      var (depName, range) := fields[i];
      assert fields[i..][1..] == fields[i + 1..];
      if !range.JStr? {
        return Failure("TypeError: startsWith is not a function");
      }
      if StartsWith(range.s, "workspace") && depName !in internalRefs {
        needsUpdate := true;
      } else {
        kept := kept + [fields[i]];
      }
      i := i + 1;
    }
    assert fields[i..] == [];
    r := Success((Some(kept), needsUpdate));
  }

  /** The second loop throws exactly when some declared range is not a string. */
  lemma {:induction false} PruneFails(kept: seq<(string, Json)>, needsUpdate: bool, fields: seq<(string, Json)>, internalRefs: seq<string>)
    ensures Prune(kept, needsUpdate, fields, internalRefs).Failure? <==> exists e :: e in fields && !e.1.JStr?
    decreases |fields|
  {
    if fields != [] {
      assert forall e :: e in fields <==> e == fields[0] || e in fields[1..];
      if fields[0].1.JStr? {
        if Dangling(fields[0], internalRefs) {
          PruneFails(kept, true, fields[1..], internalRefs);
        } else {
          PruneFails(kept + [fields[0]], needsUpdate, fields[1..], internalRefs);
        }
      }
    }
  }

  /**
   * The second loop keeps exactly the entries that are not dangling, and raises
   * the flag exactly when it deletes one.
   */
  lemma {:induction false} PruneKeeps(kept: seq<(string, Json)>, needsUpdate: bool, fields: seq<(string, Json)>, internalRefs: seq<string>)
    requires Prune(kept, needsUpdate, fields, internalRefs).Success?
    ensures var (kept', needsUpdate') := Prune(kept, needsUpdate, fields, internalRefs).value;
      (forall e :: e in kept' <==> e in kept || (e in fields && !Dangling(e, internalRefs)))
      && (needsUpdate' <==> needsUpdate || exists e :: e in fields && Dangling(e, internalRefs))
    decreases |fields|
  {
    if fields != [] {
      assert forall e :: e in fields <==> e == fields[0] || e in fields[1..];
      if Dangling(fields[0], internalRefs) {
        PruneKeeps(kept, true, fields[1..], internalRefs);
      } else {
        PruneKeeps(kept + [fields[0]], needsUpdate, fields[1..], internalRefs);
      }
    }
  }

  // ---------------------------------------------------------------------------
  // Third loop: external imports nothing declares have to be installed.

  /** Declared in neither object and not a Node.js builtin module. */
  predicate Undeclared(x: string, m: Manifest, builtins: set<string>) {
    !Declares(m.dependencies, x) && !Declares(m.devDependencies, x) && x !in builtins
  }

  /**
   * The undeclared import `x` calls for installing `y` as a development
   * dependency: `x` itself when only tests import it, otherwise its `@types`
   * package unless `x` is one.
   */
  predicate DevInstallFor(x: string, y: string, m: Manifest, program: seq<string>, builtins: set<string>) {
    Undeclared(x, m, builtins)
    && ((x in program && !StartsWith(x, "@types") && y == "@types/" + x) || (x !in program && y == x))
  }

  /** The two install sets after the turns for `refs`, in order. */
  function Missing(npm: set<string>, devNpm: set<string>, refs: seq<string>, m: Manifest, program: seq<string>, builtins: set<string>)
    : (set<string>, set<string>)
    decreases |refs|
  {
    if refs == [] then (npm, devNpm)
    else
      var x := refs[0];
      if Undeclared(x, m, builtins) then
        if x in program then
          Missing(npm + {x}, if !StartsWith(x, "@types") then devNpm + {"@types/" + x} else devNpm, refs[1..], m, program, builtins)
        else Missing(npm, devNpm + {x}, refs[1..], m, program, builtins)
      else Missing(npm, devNpm, refs[1..], m, program, builtins)
  }

  /** The third loop of `updatePackageJsonReferences`. */
  method MissingInstalls(m: Manifest, externalRefs: seq<string>, program: seq<string>, builtins: set<string>)
    returns (missingNpmInstalls: set<string>, missingDevNpmInstalls: set<string>)
    ensures (missingNpmInstalls, missingDevNpmInstalls) == Missing({}, {}, externalRefs, m, program, builtins)
  {
    missingNpmInstalls := {};
    missingDevNpmInstalls := {};
    var i := 0;
    while i < |externalRefs|
      invariant i <= |externalRefs|
      invariant Missing(missingNpmInstalls, missingDevNpmInstalls, externalRefs[i..], m, program, builtins)
        == Missing({}, {}, externalRefs, m, program, builtins)
    {
      var externalReference := externalRefs[i];
      assert externalRefs[i..][1..] == externalRefs[i + 1..];
      if !Declares(m.dependencies, externalReference) && !Declares(m.devDependencies, externalReference)
        && externalReference !in builtins
      {
        if externalReference in program {
          missingNpmInstalls := missingNpmInstalls + {externalReference};
          if !StartsWith(externalReference, "@types") {
            missingDevNpmInstalls := missingDevNpmInstalls + {"@types/" + externalReference};
          }
        } else {
          missingDevNpmInstalls := missingDevNpmInstalls + {externalReference};
        }
      }
      i := i + 1;
    }
    assert externalRefs[i..] == [];
  }

  /**
   * An undeclared program import is to be installed, with its `@types` package as
   * a development dependency unless it is one itself; an undeclared
   * development-only import is to be installed as a development dependency.
   */
  lemma {:induction false} MissingMembers(npm: set<string>, devNpm: set<string>, refs: seq<string>, m: Manifest, program: seq<string>, builtins: set<string>, y: string)
    ensures y in Missing(npm, devNpm, refs, m, program, builtins).0
      <==> y in npm || (y in refs && y in program && Undeclared(y, m, builtins))
    ensures y in Missing(npm, devNpm, refs, m, program, builtins).1
      <==> y in devNpm || exists x :: x in refs && DevInstallFor(x, y, m, program, builtins)
    decreases |refs|
  {
    if refs != [] {
      var x := refs[0];
      assert forall z :: z in refs <==> z == x || z in refs[1..];
      if Undeclared(x, m, builtins) {
        if x in program {
          MissingMembers(npm + {x}, if !StartsWith(x, "@types") then devNpm + {"@types/" + x} else devNpm, refs[1..], m, program, builtins, y);
          if !StartsWith(x, "@types") && y == "@types/" + x {
            assert DevInstallFor(x, y, m, program, builtins);
          }
        } else {
          MissingMembers(npm, devNpm + {x}, refs[1..], m, program, builtins, y);
          if y == x {
            assert DevInstallFor(x, y, m, program, builtins);
          }
        }
      } else {
        MissingMembers(npm, devNpm, refs[1..], m, program, builtins, y);
      }
    }
  }

  // ---------------------------------------------------------------------------
  // Fourth loop: declared dependencies nothing imports.

  /** The keys of both objects (`Object.keys` of each that is present). */
  function AllImports(m: Manifest): set<string> {
    (set k | k in KeysOf(Declared(m.dependencies))) + (set k | k in KeysOf(Declared(m.devDependencies)))
  }

  /** The set after each import and its `@types` package are deleted, in order. */
  function Unimported(extra: set<string>, refs: seq<string>): set<string>
    decreases |refs|
  {
    if refs == [] then extra
    else Unimported(extra - {refs[0]} - {"@types/" + refs[0]}, refs[1..])
  }

  /** What is left is part of the starting set, and no import is left in it. */
  lemma {:induction false} UnimportedExcludes(extra: set<string>, refs: seq<string>)
    ensures Unimported(extra, refs) <= extra
    ensures forall x :: x in refs ==> x !in Unimported(extra, refs)
    decreases |refs|
  {
    if refs != [] {
      UnimportedExcludes(extra - {refs[0]} - {"@types/" + refs[0]}, refs[1..]);
      assert forall x :: x in refs ==> x == refs[0] || x in refs[1..];
    }
  }

  /** The fourth loop of `updatePackageJsonReferences`, and the deletion of `@types/node` after it. */
  method ExtraImports(m: Manifest, refs: seq<string>) returns (extraImports: set<string>)
    ensures extraImports == Unimported(AllImports(m), refs) - {"@types/node"}
  {
    extraImports := AllImports(m);
    var i := 0;
    while i < |refs|
      invariant i <= |refs|
      invariant Unimported(extraImports, refs[i..]) == Unimported(AllImports(m), refs)
    {
      var actualImport := refs[i];
      assert refs[i..][1..] == refs[i + 1..];
      extraImports := extraImports - {actualImport};
      extraImports := extraImports - {"@types/" + actualImport};
      i := i + 1;
    }
    assert refs[i..] == [];
    extraImports := extraImports - {"@types/node"};
  }

  /** A name survives exactly when it was there and is neither an import nor an import's `@types` package. */
  lemma {:induction false} UnimportedMembers(extra: set<string>, refs: seq<string>, y: string)
    ensures y in Unimported(extra, refs)
      <==> y in extra && y !in refs && forall x :: x in refs ==> y != "@types/" + x
    decreases |refs|
  {
    if refs != [] {
      assert forall z :: z in refs <==> z == refs[0] || z in refs[1..];
      UnimportedMembers(extra - {refs[0]} - {"@types/" + refs[0]}, refs[1..], y);
    }
  }
  // ---------------------------------------------------------------------------
  // The whole step.

  /** The imports that name a workspace, program imports first. */
  function InternalRefs(program: seq<string>, dev: seq<string>, internalNames: set<string>): seq<string> {
    Filter(program + dev, internalNames, true)
  }

  /** The imports that name no workspace, program imports first. */
  function ExternalRefs(program: seq<string>, dev: seq<string>, internalNames: set<string>): seq<string> {
    Filter(program + dev, internalNames, false)
  }

  /**
   * `updatePackageJsonReferences` without reading, writing, logging and
   * installing. The extra imports it reports are names the updated manifest
   * declares, none of them imported, and never `@types/node`.
   */
  function UpdateReferences(m: Manifest, program: seq<string>, dev: seq<string>, internalNames: set<string>, builtins: set<string>)
    : (r: Result<Outcome, string>)
    ensures r.Success? ==> r.value.extraImports <= AllImports(r.value.manifest)
    ensures r.Success? ==> "@types/node" !in r.value.extraImports
    ensures r.Success? ==> forall x :: x in program + dev ==> x !in r.value.extraImports
  {
    var internalRefs := InternalRefs(program, dev, internalNames);
    match AddAllInternal(m, false, internalRefs, program, dev)
    case Failure(e) => Failure(e)
    case Success(first) =>
      match RemoveDangling(first.0.dependencies, internalRefs)
      case Failure(e) => Failure(e)
      case Success(second) =>
        var m' := Manifest(second.0, first.0.devDependencies);
        var missing := Missing({}, {}, ExternalRefs(program, dev, internalNames), m', program, builtins);
        UnimportedExcludes(AllImports(m'), program + dev);
        Success(Outcome(m', first.1 || second.1, missing.0, missing.1,
          Unimported(AllImports(m'), program + dev) - {"@types/node"}))
  }

  /**
   * `updatePackageJsonReferences`: the four loops in turn, on the manifest as
   * parsed from `package.json`. The caller writes the manifest back only when
   * `needsUpdate` is set.
   */
  method UpdatePackageJsonReferences(m: Manifest, program: seq<string>, dev: seq<string>, internalNames: set<string>, builtins: set<string>)
    returns (r: Result<Outcome, string>)
    ensures r == UpdateReferences(m, program, dev, internalNames, builtins)
  {
    var internalReferences := Filter(program + dev, internalNames, true);
    var externalReferences := Filter(program + dev, internalNames, false);
    var first := AddInternalReferences(m, internalReferences, program, dev);
    if first.Failure? {
      return Failure(first.error);
    }
    var (m1, needsUpdate) := first.value;
    var second := RemoveDanglingReferences(m1.dependencies, internalReferences);
    if second.Failure? {
      return Failure(second.error);
    }
    var (dependencies, removed) := second.value;
    var m' := Manifest(dependencies, m1.devDependencies);
    var missingNpmInstalls, missingDevNpmInstalls := MissingInstalls(m', externalReferences, program, builtins);
    var extraImports := ExtraImports(m', program + dev);
    r := Success(Outcome(m', needsUpdate || removed, missingNpmInstalls, missingDevNpmInstalls, extraImports));
  }

  /** An entry's key is among the object's keys. */
  lemma KeyOfEntry(fields: seq<(string, Json)>, e: (string, Json))
    requires e in fields
    ensures e.0 in KeysOf(fields)
  {
    var i :| 0 <= i < |fields| && fields[i] == e;
    assert KeysOf(fields)[i] == e.0;
  }

  /**
   * The step throws exactly when a development-only internal import meets an
   * absent `devDependencies`, or some declared dependency range is not a string.
   */
  lemma UpdateReferencesFails(m: Manifest, program: seq<string>, dev: seq<string>, internalNames: set<string>, builtins: set<string>)
    ensures UpdateReferences(m, program, dev, internalNames, builtins).Failure?
      <==> ((m.devDependencies.None? && exists x :: x in dev && x !in program && x in internalNames)
           || exists e :: e in Declared(m.dependencies) && !e.1.JStr?)
  {
    var internalRefs := InternalRefs(program, dev, internalNames);
    assert forall x :: x in internalRefs <==> (x in program || x in dev) && x in internalNames;
    AddAllInternalFails(m, false, internalRefs, program, dev);
    var first := AddAllInternal(m, false, internalRefs, program, dev);
    if first.Success? {
      AddAllInternalEntries(m, false, internalRefs, program, dev);
      var deps := first.value.0.dependencies;
      assert (exists e :: e in Declared(deps) && !e.1.JStr?) <==> exists e :: e in Declared(m.dependencies) && !e.1.JStr?;
      if deps.Some? {
        PruneFails([], false, deps.value, internalRefs);
      }
    }
  }

  /**
   * After the step every internal program import is a dependency, every internal
   * development-only import a development dependency, and no dependency with a
   * `workspace` range is left that no internal import names. Declared entries
   * stay unless dangling, and every added entry is an internal import with the
   * range `workspace:*`.
   */
  lemma UpdateReferencesDeclares(m: Manifest, program: seq<string>, dev: seq<string>, internalNames: set<string>, builtins: set<string>)
    requires UpdateReferences(m, program, dev, internalNames, builtins).Success?
    ensures var m' := UpdateReferences(m, program, dev, internalNames, builtins).value.manifest;
      var internalRefs := InternalRefs(program, dev, internalNames);
      (forall x :: x in program && x in internalNames ==> Declares(m'.dependencies, x))
      && (forall x :: x in dev && x !in program && x in internalNames ==> Declares(m'.devDependencies, x))
      && (forall e :: e in Declared(m'.dependencies) ==> !Dangling(e, internalRefs))
      && (forall e :: e in Declared(m.dependencies) && !Dangling(e, internalRefs) ==> e in Declared(m'.dependencies))
      && (forall e :: e in Declared(m'.dependencies) ==> e in Declared(m.dependencies) || (e.0 in internalRefs && e.1 == WorkspaceRange))
      && (forall e :: e in Declared(m.devDependencies) ==> e in Declared(m'.devDependencies))
      && (forall e :: e in Declared(m'.devDependencies) ==> e in Declared(m.devDependencies) || (e.0 in internalRefs && e.1 == WorkspaceRange))
  {
    var internalRefs := InternalRefs(program, dev, internalNames);
    assert forall x :: x in internalRefs <==> (x in program || x in dev) && x in internalNames;
    var m1 := AddAllInternal(m, false, internalRefs, program, dev).value.0;
    AddAllInternalEntries(m, false, internalRefs, program, dev);
    AddAllInternalPresent(m, false, internalRefs, program, dev);
    var m' := UpdateReferences(m, program, dev, internalNames, builtins).value.manifest;
    if m1.dependencies.Some? {
      PruneKeeps([], false, m1.dependencies.value, internalRefs);
      forall x | x in program && x in internalNames ensures Declares(m'.dependencies, x) {
        var fields := m1.dependencies.value;
        var i :| 0 <= i < |fields| && KeysOf(fields)[i] == x;
        KeyOfEntry(m'.dependencies.value, fields[i]);
      }
    }
  }

  /**
   * The step asks for the manifest to be written exactly when the first loop
   * added an internal import or the second deleted a dangling dependency.
   */
  lemma UpdateReferencesFlag(m: Manifest, program: seq<string>, dev: seq<string>, internalNames: set<string>, builtins: set<string>)
    requires UpdateReferences(m, program, dev, internalNames, builtins).Success?
    ensures var internalRefs := InternalRefs(program, dev, internalNames);
      UpdateReferences(m, program, dev, internalNames, builtins).value.needsUpdate
      <==> ((exists x :: x in internalRefs && AddsInternal(m, x, program, dev))
           || (exists e :: e in Declared(m.dependencies) && Dangling(e, internalRefs)))
  {
    var internalRefs := InternalRefs(program, dev, internalNames);
    var m1 := AddAllInternal(m, false, internalRefs, program, dev).value.0;
    AddAllInternalEntries(m, false, internalRefs, program, dev);
    AddAllInternalFlag(m, false, internalRefs, program, dev);
    assert (exists e :: e in Declared(m1.dependencies) && Dangling(e, internalRefs))
      <==> exists e :: e in Declared(m.dependencies) && Dangling(e, internalRefs);
    if m1.dependencies.Some? {
      PruneKeeps([], false, m1.dependencies.value, internalRefs);
    }
  }

  /**
   * Against the manifest the step leaves: a program import that names no
   * workspace and is undeclared is to be installed; the development installs
   * are those `DevInstallFor` calls for; the extra imports are the declared
   * names that are neither imported, nor the `@types` package of an import, nor
   * `@types/node`.
   */
  lemma UpdateReferencesReports(m: Manifest, program: seq<string>, dev: seq<string>, internalNames: set<string>, builtins: set<string>, y: string)
    requires UpdateReferences(m, program, dev, internalNames, builtins).Success?
    ensures var out := UpdateReferences(m, program, dev, internalNames, builtins).value;
      (y in out.missingNpmInstalls <==> y in program && y !in internalNames && Undeclared(y, out.manifest, builtins))
      && (y in out.missingDevNpmInstalls
          <==> exists x :: x in program + dev && x !in internalNames && DevInstallFor(x, y, out.manifest, program, builtins))
      && (y in out.extraImports
          <==> (y in AllImports(out.manifest) && y !in program + dev && y != "@types/node"
                && forall x :: x in program + dev ==> y != "@types/" + x))
  {
    var out := UpdateReferences(m, program, dev, internalNames, builtins).value;
    var externalRefs := ExternalRefs(program, dev, internalNames);
    assert forall x :: x in program ==> x in program + dev;
    MissingMembers({}, {}, externalRefs, out.manifest, program, builtins, y);
    UnimportedMembers(AllImports(out.manifest), program + dev, y);
  }
}
