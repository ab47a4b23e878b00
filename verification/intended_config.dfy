/**
 * The intended configuration of one workspace package of the monorepo: the
 * camel-case module name derived from the kebab-case package name, the entry
 * points built from it, the internal packages it references, and the files
 * (package.json and the tsconfig files) it should have, chosen by whether it is
 * built by the TypeScript compiler alone (a bootstrap package) or by `esbp`.
 *
 * Case mapping is ASCII only. Path arithmetic (`ppath.relative`, `ppath.join`,
 * `slash`) is supplied by the caller through `Paths`.
 */
module IntendedConfig {
  import opened Wrappers
  import opened Text
  import opened Json

  function LowerAscii(c: char): char {
    if 'A' <= c <= 'Z' then ((c as int) + 32) as char else c
  }

  function UpperAscii(c: char): char {
    if 'a' <= c <= 'z' then ((c as int) - 32) as char else c
  }

  /** `toLocaleLowerCase`, on ASCII letters. */
  function LowerAll(s: string): (r: string)
    ensures |r| == |s|
  {
    seq(|s|, i requires 0 <= i < |s| => LowerAscii(s[i]))
  }

  /** `w[0].toUpperCase() + w.substr(1)` for a non-empty word. */
  function Capitalize(w: string): string {
    if w == [] then [] else [UpperAscii(w[0])] + w[1..]
  }

  function Capitalized(words: seq<string>): (r: seq<string>)
    ensures |r| == |words|
  {
    seq(|words|, i requires 0 <= i < |words| => Capitalize(words[i]))
  }

  predicate HasEmptyWord(words: seq<string>) {
    exists j :: 0 <= j < |words| && words[j] == []
  }

  /** `w[0].toUpperCase()` on an empty word reads a property of `undefined`. */
  const UndefinedWordMessage := "Cannot read properties of undefined (reading 'toUpperCase')"

  /**
   * `kebabToCamel`: the first `-`-separated word lower-cased, each later word with
   * its first character upper-cased, all joined with nothing between them. An empty
   * later word makes the source throw.
   */
  function KebabToCamel(kebab: string): (r: Result<string, string>)
    ensures r.Failure? <==> HasEmptyWord(Split(kebab, '-')[1..])
  {
    var words := Split(kebab, '-');
    if HasEmptyWord(words[1..]) then Failure(UndefinedWordMessage)
    else Success(LowerAll(words[0]) + Join(Capitalized(words[1..]), ""))
  }

  /**
   * A character-by-character reading of the same conversion: characters are
   * lower-cased until the first `-`; after that each `-` is dropped and the
   * character after it upper-cased.
   */
  function CamelRef(s: string, first: bool, upNext: bool): string {
    if s == [] then []
    else if s[0] == '-' then CamelRef(s[1..], false, true)
    else [MapChar(s[0], first, upNext)] + CamelRef(s[1..], first, false)
  }

  /** Some `-` is the last character or is followed by another `-`. */
  predicate EmptyWordAt(s: string) {
    |s| > 0 && ((s[0] == '-' && (|s| == 1 || s[1] == '-')) || EmptyWordAt(s[1..]))
  }

  /** How the reading treats one word free of `-`. */
  function MapWord(w: string, first: bool, upNext: bool): string {
    if first then LowerAll(w) else if upNext then Capitalize(w) else w
  }

  /** How the reading maps one character that is not `-`. */
  function MapChar(c: char, first: bool, upNext: bool): char {
    if first then LowerAscii(c) else if upNext then UpperAscii(c) else c
  }

  lemma MapWordCons(s: string, i: nat, first: bool, upNext: bool)
    requires 0 < i <= |s|
    ensures [MapChar(s[0], first, upNext)] + MapWord(s[1..i], first, false) == MapWord(s[..i], first, upNext)
  {
    if first {
      assert [LowerAscii(s[0])] + LowerAll(s[1..i]) == LowerAll(s[..i]);
    } else if upNext {
      assert [UpperAscii(s[0])] + s[1..i] == Capitalize(s[..i]);
    } else {
      assert [s[0]] + s[1..i] == s[..i];
    }
  }

  /** Up to the first `-` at or after `i`, the reading maps the word and carries on after it. */
  lemma {:induction false} WordCamel(s: string, i: nat, first: bool, upNext: bool)
    requires i <= |s|
    requires forall j :: 0 <= j < i ==> s[j] != '-'
    ensures CamelRef(s, first, upNext) == MapWord(s[..i], first, upNext) + CamelRef(s[i..], first, upNext && i == 0)
    decreases i
  {
    if i > 0 {
      var s' := s[1..];
      assert forall j :: 0 <= j < i - 1 ==> s'[j] != '-' by {
        forall j | 0 <= j < i - 1 ensures s'[j] != '-' {
          assert s'[j] == s[j + 1];
        }
      }
      WordCamel(s', i - 1, first, false);
      assert s'[..i - 1] == s[1..i] && s'[i - 1..] == s[i..];
      MapWordCons(s, i, first, upNext);
      Regroup([MapChar(s[0], first, upNext)], MapWord(s[1..i], first, false), CamelRef(s[i..], first, false));
    }
  }

  lemma Regroup<T>(a: seq<T>, b: seq<T>, c: seq<T>)
    ensures a + (b + c) == (a + b) + c
  {
  }

  /** A `-` is dropped and makes the next character upper-case. */
  lemma CamelAfterDash(s: string, first: bool, upNext: bool)
    requires s != [] && s[0] == '-'
    ensures CamelRef(s, first, upNext) == CamelRef(s[1..], false, true)
  {
  }

  lemma JoinCapitalizedCons(w: string, ws: seq<string>)
    requires |ws| > 0
    ensures Join(Capitalized([w] + ws), "") == Capitalize(w) + Join(Capitalized(ws), "")
  {
    assert Capitalized([w] + ws) == [Capitalize(w)] + Capitalized(ws);
    JoinCons(Capitalize(w), Capitalized(ws), "");
  }

  /** The first `-` of `s`, when there is one, ends the first word. */
  lemma SplitFirst(s: string)
    requires IndexOf(s, '-') < |s|
    ensures Split(s, '-') == [s[..IndexOf(s, '-')]] + Split(s[IndexOf(s, '-') + 1..], '-')
    ensures s[IndexOf(s, '-')..][1..] == s[IndexOf(s, '-') + 1..]
  {
    var i := IndexOf(s, '-');
    SplitAt(s, '-', i);
    assert s[i..][1..] == s[i + 1..];
  }

  lemma NoDash(s: string)
    requires IndexOf(s, '-') == |s|
    ensures Split(s, '-') == [s] && s[..|s|] == s && s[|s|..] == []
  {
  }

  lemma {:induction false} TailCamel(t: string)
    requires !HasEmptyWord(Split(t, '-'))
    ensures CamelRef(t, false, true) == Join(Capitalized(Split(t, '-')), "")
    decreases |t|
  {
    var i := IndexOf(t, '-');
    WordCamel(t, i, false, true);
    if i == |t| {
      NoDash(t);
    } else {
      TailCamelStep(t, i);
    }
  }

  lemma {:induction false} TailCamelStep(t: string, i: nat)
    requires i == IndexOf(t, '-') < |t|
    requires !HasEmptyWord(Split(t, '-'))
    ensures CamelRef(t, false, true) == Join(Capitalized(Split(t, '-')), "")
    decreases |t|, 0
  {
    var w, t' := t[..i], t[i + 1..];
    var ws := Split(t', '-');
    SplitFirst(t);
    HasEmptyWordCons(w, ws);
    WordCamel(t, i, false, true);
    assert CamelRef(t, false, true) == Capitalize(w) + CamelRef(t[i..], false, false);
    CamelAfterDash(t[i..], false, false);
    TailCamel(t');
    JoinCapitalizedCons(w, ws);
  }

  lemma HasEmptyWordCons(w: string, ws: seq<string>)
    ensures HasEmptyWord([w] + ws) <==> w == [] || HasEmptyWord(ws)
  {
    var all := [w] + ws;
    if w == [] {
      assert all[0] == [];
    }
    if HasEmptyWord(ws) {
      var j :| 0 <= j < |ws| && ws[j] == [];
      assert all[j + 1] == [];
    }
    if HasEmptyWord(all) {
      var j :| 0 <= j < |all| && all[j] == [];
      if j > 0 {
        assert ws[j - 1] == [];
      }
    }
  }

  /** The conversion agrees with the character-by-character reading whenever it succeeds. */
  lemma KebabToCamelReference(kebab: string)
    requires KebabToCamel(kebab).Success?
    ensures KebabToCamel(kebab).value == CamelRef(kebab, true, false)
  {
    var i := IndexOf(kebab, '-');
    WordCamel(kebab, i, true, false);
    if i == |kebab| {
      NoDash(kebab);
      assert Split(kebab, '-')[1..] == [];
    } else {
      var t := kebab[i + 1..];
      SplitFirst(kebab);
      assert Split(kebab, '-')[1..] == Split(t, '-');
      TailCamel(t);
    }
  }

  /** The reading drops every `-` and maps no other character to `-`. */
  lemma {:induction false} CamelRefNoDash(s: string, first: bool, upNext: bool)
    ensures '-' !in CamelRef(s, first, upNext)
    decreases |s|
  {
    if s != [] {
      if s[0] == '-' {
        CamelRefNoDash(s[1..], false, true);
      } else {
        CamelRefNoDash(s[1..], first, false);
      }
    }
  }

  /** A word free of `-` at the front adds no empty word. */
  lemma {:induction false} EmptyWordAtWord(s: string, i: nat)
    requires i <= |s|
    requires forall j :: 0 <= j < i ==> s[j] != '-'
    ensures EmptyWordAt(s) == EmptyWordAt(s[i..])
    decreases i
  {
    if i > 0 {
      EmptyWordAtWord(s[1..], i - 1);
      assert s[1..][i - 1..] == s[i..];
    }
  }

  lemma {:induction false} TailEmptyWord(t: string)
    ensures HasEmptyWord(Split(t, '-')) <==> (t == [] || t[0] == '-' || EmptyWordAt(t))
    decreases |t|
  {
    var i := IndexOf(t, '-');
    EmptyWordAtWord(t, i);
    if i == |t| {
      NoDash(t);
      HasEmptyWordCons(t, []);
      assert [t] + [] == [t];
    } else {
      var t' := t[i + 1..];
      SplitFirst(t);
      HasEmptyWordCons(t[..i], Split(t', '-'));
      TailEmptyWord(t');
      EmptyWordAtDash(t[i..]);
    }
  }

  /** At a `-`, an empty word starts exactly when the rest is empty or starts with `-`, or one starts later. */
  lemma EmptyWordAtDash(s: string)
    requires s != [] && s[0] == '-'
    ensures EmptyWordAt(s) <==> (s[1..] == [] || s[1..][0] == '-' || EmptyWordAt(s[1..]))
  {
  }

  /** The conversion fails exactly when some `-` is last or doubled, as in `a--b` or `a-`. */
  lemma KebabToCamelFails(kebab: string)
    ensures KebabToCamel(kebab).Failure? <==> EmptyWordAt(kebab)
  {
    var i := IndexOf(kebab, '-');
    EmptyWordAtWord(kebab, i);
    if i == |kebab| {
      NoDash(kebab);
      assert Split(kebab, '-')[1..] == [];
    } else {
      var t := kebab[i + 1..];
      SplitFirst(kebab);
      assert Split(kebab, '-')[1..] == Split(t, '-');
      TailEmptyWord(t);
      assert kebab[i..][1..] == t;
    }
  }

  /** A successful conversion holds no `-`. */
  lemma KebabToCamelNoDash(kebab: string)
    requires KebabToCamel(kebab).Success?
    ensures '-' !in KebabToCamel(kebab).value
  {
    KebabToCamelReference(kebab);
    CamelRefNoDash(kebab, true, false);
  }

  /** What the source reads of a workspace: its name, the identity hash of the name, its directory. */
  datatype Package = Package(name: string, identHash: string, cwd: string)

  /**
   * The repository metadata and the package-relative paths the source computes
   * with `ppath` and `slash`: the homepage path of the package under the
   * repository root, the relative path of the root tsconfig.json, and
   * `prsPath(other, fname)` as a function of the other package's directory, and
   * `ppath.join(directory, fname)`.
   */
  datatype Context = Context(
    repoGitUrl: string,
    repoIssuesUrl: string,
    repoHomepageBaseUrl: string,
    packageAuthor: string,
    homepagePath: string,
    rootTsconfig: string,
    relativePath: (string, string) -> string,
    joinPath: (string, string) -> string)

  /**
   * The internal packages the package imports in its development files. The
   * source tests the development set in both halves of its disjunction, so the
   * program imports are never consulted.
   */
  function ChildInternalDependencies(internal: seq<Package>, devImports: set<string>, programImports: set<string>): (r: seq<Package>)
    ensures forall p :: p in r <==> p in internal && p.name in devImports
    ensures |r| <= |internal|
  {
    if internal == [] then []
    else
      var p := internal[0];
      (if p.name in devImports || p.name in devImports then [p] else [])
        + ChildInternalDependencies(internal[1..], devImports, programImports)
  }

  /** The program imports make no difference to the internal dependencies. */
  lemma {:induction false} ChildInternalIgnoresProgramImports(internal: seq<Package>, devImports: set<string>, p1: set<string>, p2: set<string>)
    ensures ChildInternalDependencies(internal, devImports, p1) == ChildInternalDependencies(internal, devImports, p2)
  {
    if internal != [] {
      ChildInternalIgnoresProgramImports(internal[1..], devImports, p1, p2);
    }
  }

  /** `main`, `module`, `types` and `input` of the package, from its camel-case name. */
  function EntryPoints(camel: string): seq<(string, Json)> {
    [ ("main", JStr("lib/cjs/" + camel + ".js")),
      ("module", JStr("lib/mjs/" + camel + ".js")),
      ("types", JStr("lib/types/" + camel + ".d.ts")),
      ("input", JStr("src/" + camel + ".ts")) ]
  }

  const BaseDevDependencies: seq<(string, Json)> := [
    ("@types/node", JStr("^14.14.45")),
    ("eslint", JStr("^7.26.0")),
    ("prettier", JStr("^2.3.0")),
    ("typescript", JStr("^4.2.4")),
    ("npm-run-all", JStr("^4.1.5"))
  ]

  /** The keys of `basePackageJson` before the entry points. */
  function BaseHead(ctx: Context, pkg: Package): seq<(string, Json)> {
    [ ("name", JStr(pkg.name)),
      ("version", JStr("0.0.0")),
      ("author", JStr(ctx.packageAuthor)),
      ("homepage", JStr(ctx.repoHomepageBaseUrl + ctx.homepagePath)),
      ("license", JStr("UNLICENSED")) ]
  }

  /** The keys of `basePackageJson` after the entry points. */
  function BaseTail(ctx: Context): seq<(string, Json)> {
    [ ("directories", JObj([("lib", JStr("lib"))])),
      ("files", JArr([JStr("lib")])),
      ("repository", JObj([("type", JStr("git")), ("url", JStr(ctx.repoGitUrl))])),
      ("scripts", JObj([("test", JStr("echo \"Error: run tests from root\" && exit 1"))])),
      ("bugs", JObj([("url", JStr(ctx.repoIssuesUrl))])),
      ("devDependencies", JObj(BaseDevDependencies)) ]
  }

  /**
   * `basePackageJson`: it holds both keys the branches override, and its entry
   * points are named after the camel-case package name.
   */
  function BasePackageJson(ctx: Context, pkg: Package, camel: string): (fields: seq<(string, Json)>)
    ensures "scripts" in KeysOf(fields) && "devDependencies" in KeysOf(fields)
    ensures Get(fields, "main") == Some(JStr("lib/cjs/" + camel + ".js"))
    ensures Get(fields, "module") == Some(JStr("lib/mjs/" + camel + ".js"))
    ensures Get(fields, "types") == Some(JStr("lib/types/" + camel + ".d.ts"))
    ensures Get(fields, "input") == Some(JStr("src/" + camel + ".ts"))
  {
    BaseKeys(ctx, pkg, camel);
    EntryPointsGet(camel, BaseTail(ctx));
    BaseEntryPoint(ctx, pkg, camel, "main");
    BaseEntryPoint(ctx, pkg, camel, "module");
    BaseEntryPoint(ctx, pkg, camel, "types");
    BaseEntryPoint(ctx, pkg, camel, "input");
    BaseHead(ctx, pkg) + (EntryPoints(camel) + BaseTail(ctx))
  }

  /** The base package.json holds both keys the branches override. */
  lemma BaseKeys(ctx: Context, pkg: Package, camel: string)
    ensures "scripts" in KeysOf(BaseHead(ctx, pkg) + (EntryPoints(camel) + BaseTail(ctx)))
    ensures "devDependencies" in KeysOf(BaseHead(ctx, pkg) + (EntryPoints(camel) + BaseTail(ctx)))
  {
    var rest := EntryPoints(camel) + BaseTail(ctx);
    assert KeysOf(rest)[7] == "scripts";
    assert KeysOf(rest)[9] == "devDependencies";
    KeysOfAppend(BaseHead(ctx, pkg), rest);
  }

  /** The head of the base package.json names no entry point. */
  lemma BaseEntryPoint(ctx: Context, pkg: Package, camel: string, k: string)
    requires k in ["main", "module", "types", "input"]
    ensures Get(BaseHead(ctx, pkg) + (EntryPoints(camel) + BaseTail(ctx)), k) == Get(EntryPoints(camel) + BaseTail(ctx), k)
  {
    GetSkip(BaseHead(ctx, pkg), EntryPoints(camel) + BaseTail(ctx), k);
  }

  /** The build scripts of a package built by the TypeScript compiler alone. */
  const BootstrapScripts: seq<(string, Json)> := [
    ("build", JStr("tsc -b ./tsconfig.json")),
    ("build:types", JStr("tsc -b ./tsconfig.types.json")),
    ("build:scripts", JStr("npm-run-all build:cjs build:mjs")),
    ("build:cjs", JStr("tsc -b ./tsconfig.cjs.json")),
    ("build:mjs", JStr("tsc -b ./tsconfig.mjs.json"))
  ]

  /** The build scripts of a package whose scripts are built by `esbp`. */
  const EsbpScripts: seq<(string, Json)> := [
    ("build", JStr("npm-run-all -p build:types build:scripts")),
    ("build:types", JStr("tsc -b ./tsconfig.json")),
    ("build:scripts", JStr("esbp")),
    ("build:cjs", JStr("esbp --cjs-only")),
    ("build:mjs", JStr("esbp --mjs-only"))
  ]

  const EsbpDevDependencies: seq<(string, Json)> := [("esbp", JStr("workspace:*")), ("esbuild", JStr("^0.12.28"))]

  /**
   * What a branch puts over the base package.json: its build scripts and, for an
   * `esbp` package, the development dependencies it adds.
   */
  datatype Branch = Branch(scripts: seq<(string, Json)>, addedDevDependencies: Option<seq<(string, Json)>>)

  /** The branch the package takes. */
  function BranchOf(bootstrap: bool): (b: Branch)
    ensures b.addedDevDependencies.None? <==> bootstrap
  {
    if bootstrap then Branch(BootstrapScripts, None) else Branch(EsbpScripts, Some(EsbpDevDependencies))
  }

  /** `{...obj.devDependencies}`: the fields of the base's `devDependencies`; spreading a missing one adds nothing. */
  function DevDependenciesOf(base: seq<(string, Json)>): seq<(string, Json)> {
    match Get(base, "devDependencies")
    case Some(JObj(fields)) => fields
    case _ => []
  }

  /** The overrides the branch spreads over the base package.json. */
  function Overrides(base: seq<(string, Json)>, branch: Branch, extraScripts: seq<(string, Json)>): (kvs: seq<(string, Json)>)
    ensures DistinctKeys(kvs)
    ensures |kvs| > 0 && kvs[0] == ("scripts", JObj(AssignAll(extraScripts, branch.scripts)))
    ensures KeysOf(kvs) == if branch.addedDevDependencies.None? then ["scripts"] else ["scripts", "devDependencies"]
  {
    var scripts := ("scripts", JObj(AssignAll(extraScripts, branch.scripts)));
    match branch.addedDevDependencies
    case None => [scripts]
    case Some(added) => [scripts, ("devDependencies", JObj(AssignAll(DevDependenciesOf(base), added)))]
  }

  /**
   * The intended package.json: the base object with `scripts` replaced by the extra
   * scripts overridden by the branch's build scripts and, for an `esbp` package,
   * `devDependencies` extended with `esbp` and `esbuild`.
   */
  function PackageJson(base: seq<(string, Json)>, branch: Branch, extraScripts: seq<(string, Json)>): (fields: seq<(string, Json)>)
    ensures Get(fields, "scripts") == Some(JObj(AssignAll(extraScripts, branch.scripts)))
    ensures "scripts" in KeysOf(base) && "devDependencies" in KeysOf(base) ==> KeysOf(fields) == KeysOf(base)
  {
    var kvs := Overrides(base, branch, extraScripts);
    AssignAllGet(base, kvs, "scripts");
    if "scripts" in KeysOf(base) && "devDependencies" in KeysOf(base) then
      AssignAllKeys(base, kvs);
      AssignAll(base, kvs)
    else AssignAll(base, kvs)
  }

  /** `{path: prsPath(dependency, fname)}` for each internal dependency, in order. */
  function References(ctx: Context, children: seq<Package>, fname: string): (refs: seq<Json>)
    ensures |refs| == |children|
    ensures forall i :: 0 <= i < |children| ==> refs[i] == JObj([("path", JStr(ctx.relativePath(children[i].cwd, fname)))])
  {
    seq(|children|, i requires 0 <= i < |children| => JObj([("path", JStr(ctx.relativePath(children[i].cwd, fname)))]))
  }

  /** The tsconfig.json of a bootstrap package: a solution file over the three builds. */
  const BootstrapTsconfig: Json := JObj([
    ("compilerOptions", JObj([("composite", JBool(true))])),
    ("include", JArr([])),
    ("exclude", JArr([JStr("src"), JStr("node_modules")])),
    ("references", JArr([
      JObj([("path", JStr("./tsconfig.cjs.json"))]),
      JObj([("path", JStr("./tsconfig.mjs.json"))]),
      JObj([("path", JStr("./tsconfig.types.json"))])
    ]))
  ])

  /** A build tsconfig extending the root one, compiling `./src` with the given options. */
  function BuildTsconfig(ctx: Context, compilerOptions: seq<(string, Json)>, references: seq<Json>): Json {
    JObj([
      ("compilerOptions", JObj(compilerOptions)),
      ("extends", JStr(ctx.rootTsconfig)),
      ("include", JArr([JStr("./src")])),
      ("exclude", JArr([JStr("./lib")])),
      ("references", JArr(references))
    ])
  }

  function ModuleOptions(outDir: string, moduleKind: string): seq<(string, Json)> {
    [("rootDir", JStr("src")), ("outDir", JStr(outDir)), ("composite", JBool(true)), ("module", JStr(moduleKind))]
  }

  const TypesOptions: seq<(string, Json)> :=
    [("rootDir", JStr("src")), ("outDir", JStr("lib/types")), ("composite", JBool(true)), ("emitDeclarationOnly", JBool(true))]

  /** The files each branch writes, in the order the source writes them. */
  const BootstrapFiles: seq<string> := ["package.json", "tsconfig.json", "tsconfig.cjs.json", "tsconfig.mjs.json", "tsconfig.types.json"]
  const EsbpFiles: seq<string> := ["package.json", "tsconfig.json"]

  /** The path of a file of the package: its name joined to the package directory. */
  function FilePath(ctx: Context, pkg: Package, fname: string): string {
    ctx.joinPath(pkg.cwd, fname)
  }

  /** The contents of the bootstrap branch's files, in the order of `BootstrapFiles`. */
  function BootstrapContents(ctx: Context, packageJson: Json, children: seq<Package>): (cs: seq<Json>)
    ensures |cs| == |BootstrapFiles| && cs[0] == packageJson
  {
    [ packageJson,
      BootstrapTsconfig,
      BuildTsconfig(ctx, ModuleOptions("lib/cjs", "CommonJS"),
        References(ctx, children, "tsconfig.cjs.json") + References(ctx, children, "tsconfig.types.json")),
      BuildTsconfig(ctx, ModuleOptions("lib/mjs", "esnext"),
        References(ctx, children, "tsconfig.mjs.json") + References(ctx, children, "tsconfig.types.json")),
      BuildTsconfig(ctx, TypesOptions, References(ctx, children, "tsconfig.types.json")) ]
  }

  /** The contents of the `esbp` branch's files, in the order of `EsbpFiles`. */
  function EsbpContents(ctx: Context, packageJson: Json): (cs: seq<Json>)
    ensures |cs| == |EsbpFiles| && cs[0] == packageJson
  {
    [packageJson, BuildTsconfig(ctx, TypesOptions, [])]
  }

  /** Each file name under the package directory, paired with its contents. */
  function Files(ctx: Context, pkg: Package, names: seq<string>, contents: seq<Json>): (files: seq<(string, Json)>)
    requires |names| == |contents|
    ensures |files| == |names|
    ensures forall i :: 0 <= i < |names| ==> files[i] == (FilePath(ctx, pkg, names[i]), contents[i])
  {
    if names == [] then []
    else [(FilePath(ctx, pkg, names[0]), contents[0])] + Files(ctx, pkg, names[1..], contents[1..])
  }

  /** The names of the files a branch writes. */
  function FileNames(bootstrap: bool): seq<string> {
    if bootstrap then BootstrapFiles else EsbpFiles
  }

  /** The files a branch writes under the package directory; the first is package.json. */
  function BranchFiles(ctx: Context, pkg: Package, bootstrap: bool, packageJson: Json, children: seq<Package>)
    : (files: seq<(string, Json)>)
    ensures |files| == |FileNames(bootstrap)| && files[0].1 == packageJson
    ensures forall i :: 0 <= i < |files| ==> files[i].0 == FilePath(ctx, pkg, FileNames(bootstrap)[i])
  {
    if bootstrap then Files(ctx, pkg, BootstrapFiles, BootstrapContents(ctx, packageJson, children))
    else Files(ctx, pkg, EsbpFiles, EsbpContents(ctx, packageJson))
  }

  /**
   * `setConfigContentsForPackage`: the files the package should have and their
   * contents, as the source hands them to `updateIntendedContents`. It fails
   * exactly when the package name cannot be converted to camel case; a
   * bootstrap package gets five files and any other two, under its own
   * directory, and the first is package.json, the base object with the
   * branch's overrides.
   */
  function IntendedFiles(ctx: Context, pkg: Package, internal: seq<Package>, bootstrapIdents: set<string>,
                         extraScripts: seq<(string, Json)>, devImports: set<string>, programImports: set<string>)
    : (r: Result<seq<(string, Json)>, string>)
    ensures r.Failure? <==> KebabToCamel(pkg.name).Failure?
    ensures r.Success? ==>
      var bootstrap := pkg.identHash in bootstrapIdents;
      && |r.value| == |FileNames(bootstrap)|
      && (forall i :: 0 <= i < |r.value| ==> r.value[i].0 == FilePath(ctx, pkg, FileNames(bootstrap)[i]))
      && r.value[0].1 == JObj(PackageJson(BasePackageJson(ctx, pkg, KebabToCamel(pkg.name).value), BranchOf(bootstrap), extraScripts))
  {
    var camel :- KebabToCamel(pkg.name);
    var bootstrap := pkg.identHash in bootstrapIdents;
    var packageJson := JObj(PackageJson(BasePackageJson(ctx, pkg, camel), BranchOf(bootstrap), extraScripts));
    Success(BranchFiles(ctx, pkg, bootstrap, packageJson, ChildInternalDependencies(internal, devImports, programImports)))
  }

  /** Neither branch names a build script twice. */
  lemma BranchScriptsDistinct(bootstrap: bool)
    ensures DistinctKeys(BranchOf(bootstrap).scripts)
  {
  }

  /** A build script of the branch always wins; any other extra script is kept as given. */
  lemma {:induction false} ScriptsFixedWin(extraScripts: seq<(string, Json)>, scripts: seq<(string, Json)>, k: string)
    requires DistinctKeys(scripts)
    ensures k in KeysOf(scripts) ==> Get(AssignAll(extraScripts, scripts), k) == Get(scripts, k)
    ensures k !in KeysOf(scripts) ==> Get(AssignAll(extraScripts, scripts), k) == Get(extraScripts, k)
  {
    AssignAllGet(extraScripts, scripts, k);
    if k in KeysOf(scripts) {
      var i :| 0 <= i < |scripts| && scripts[i].0 == k;
      GetFirstAt(scripts, i);
    }
  }

  /**
   * An `esbp` package depends on `esbp` and `esbuild` besides the base's development
   * dependencies; a bootstrap package keeps the base's, and every other key is the base's.
   */
  lemma PackageJsonDevDependencies(base: seq<(string, Json)>, branch: Branch, extraScripts: seq<(string, Json)>, k: string)
    ensures Get(PackageJson(base, branch, extraScripts), "devDependencies")
      == match branch.addedDevDependencies
         case None => Get(base, "devDependencies")
         case Some(added) => Some(JObj(AssignAll(DevDependenciesOf(base), added)))
    ensures k != "scripts" && k != "devDependencies" ==> Get(PackageJson(base, branch, extraScripts), k) == Get(base, k)
  {
    var kvs := Overrides(base, branch, extraScripts);
    AssignAllGet(base, kvs, "devDependencies");
    AssignAllGet(base, kvs, k);
    if branch.addedDevDependencies.Some? {
      assert kvs[1].0 == "devDependencies";
    }
  }

  /** `main`, `module`, `types` and `input` are named after the camel-case package name. */
  lemma EntryPointsGet(camel: string, tail: seq<(string, Json)>)
    ensures Get(EntryPoints(camel) + tail, "main") == Some(JStr("lib/cjs/" + camel + ".js"))
    ensures Get(EntryPoints(camel) + tail, "module") == Some(JStr("lib/mjs/" + camel + ".js"))
    ensures Get(EntryPoints(camel) + tail, "types") == Some(JStr("lib/types/" + camel + ".d.ts"))
    ensures Get(EntryPoints(camel) + tail, "input") == Some(JStr("src/" + camel + ".ts"))
  {
    var fields := EntryPoints(camel) + tail;
    GetFirstAt(fields, 0);
    GetFirstAt(fields, 1);
    GetFirstAt(fields, 2);
    GetFirstAt(fields, 3);
  }
}
