/**
 * The import scanner of a workspace package: every source file is parsed into a
 * TypeScript syntax tree, and the package names its import declarations name are
 * collected, together with `@types/jest` for files that call `describe` or `it`.
 * Files under a `__test__` or `__tests__` directory feed the development set,
 * all others the program set.
 *
 * Globbing, reading and parsing are not part of this model: a package is given
 * as the list of its source paths with their syntax trees.
 */
module FindImports {
  import opened Wrappers
  import opened Text

  /**
   * `simplifyModuleSpecifier`: the package a module specifier names. A relative
   * specifier names none; a scoped one (`@scope/name/...`) is cut before its
   * second `/`, any other before its first.
   */
  function SimplifyModuleSpecifier(spec: string): (r: Option<string>)
    ensures r.None? <==> IsRelative(spec)
  {
    if IsRelative(spec) then None
    else
      var parts := Split(spec, '/');
      if IsScoped(spec) then Some(Join(parts[..if |parts| < 2 then |parts| else 2], "/"))
      else Some(parts[0])
  }

  /** `spec.startsWith('.')` */
  predicate IsRelative(spec: string) {
    |spec| > 0 && spec[0] == '.'
  }

  /** `spec.startsWith('@')` */
  predicate IsScoped(spec: string) {
    |spec| > 0 && spec[0] == '@'
  }

  /** Where the package name of a specifier ends: at the second `/` of a scoped one, else at the first. */
  function PackageNameEnd(spec: string): (e: nat)
    ensures e <= |spec|
  {
    var i := IndexOf(spec, '/');
    if IsScoped(spec) && i < |spec| then i + 1 + IndexOf(spec[i + 1..], '/') else i
  }

  /** The first part of a split is the text before the first separator. */
  lemma SplitHead(s: string, c: char)
    ensures Split(s, c)[0] == s[..IndexOf(s, c)]
  {
  }

  /** The simplified specifier is the specifier cut where its package name ends. */
  lemma SimplifiedIsPrefix(spec: string)
    requires !IsRelative(spec)
    ensures SimplifyModuleSpecifier(spec) == Some(spec[..PackageNameEnd(spec)])
  {
    var i := IndexOf(spec, '/');
    SplitHead(spec, '/');
    if IsScoped(spec) && i < |spec| {
      ScopedJoin(spec, i);
    }
  }

  /** The first two parts of a specifier with a `/`, joined back, run up to its second `/`. */
  lemma ScopedJoin(spec: string, i: nat)
    requires i == IndexOf(spec, '/') && i < |spec|
    ensures |Split(spec, '/')| >= 2
    ensures Join(Split(spec, '/')[..2], "/") == spec[..i + 1 + IndexOf(spec[i + 1..], '/')]
  {
    var t := spec[i + 1..];
    var j := IndexOf(t, '/');
    var parts := Split(spec, '/');
    assert parts == [spec[..i]] + Split(t, '/');
    SplitHead(t, '/');
    var two := parts[..2];
    assert two == [spec[..i], t[..j]];
    assert Join(two, "/") == spec[..i] + "/" + t[..j] by {
      JoinCons(spec[..i], [t[..j]], "/");
    }
    CutAround(spec, i, j);
  }

  /** Cutting a text after the character at `i` and `j` more characters. */
  lemma CutAround(s: string, i: nat, j: nat)
    requires i < |s| && j <= |s| - i - 1
    ensures s[..i + 1 + j] == s[..i] + [s[i]] + s[i + 1..][..j]
  {
    assert s[..i + 1 + j] == s[..i] + s[i..i + 1 + j];
    assert s[i..i + 1 + j] == [s[i]] + s[i + 1..i + 1 + j];
  }

  /** A package name is its own simplification. */
  lemma SimplifyIdempotent(spec: string)
    requires !IsRelative(spec)
    ensures
      var name := SimplifyModuleSpecifier(spec).value;
      SimplifyModuleSpecifier(name) == Some(name)
  {
    SimplifiedIsPrefix(spec);
    var name := spec[..PackageNameEnd(spec)];
    var i := IndexOf(spec, '/');
    if IsScoped(spec) && i < |spec| {
      ScopedNameEnd(spec, name);
    } else {
      IndexOfUnique(name, '/', |name|);
    }
    assert !IsRelative(name) by {
      if name != [] {
        assert name[0] == spec[0];
      }
    }
    SimplifiedIsPrefix(name);
    assert name[..|name|] == name;
  }

  /** The package name of a scoped specifier ends where the name itself ends. */
  lemma ScopedNameEnd(spec: string, name: string)
    requires IsScoped(spec) && IndexOf(spec, '/') < |spec|
    requires name == spec[..PackageNameEnd(spec)]
    ensures PackageNameEnd(name) == |name|
  {
    var i := IndexOf(spec, '/');
    var t := spec[i + 1..];
    var j := IndexOf(t, '/');
    assert name == spec[..i + 1 + j];
    assert name[0] == '@' && name[i] == '/';
    IndexOfUnique(name, '/', i);
    assert IsScoped(name);
    var u := name[i + 1..];
    assert u == t[..j];
    assert forall k :: 0 <= k < |u| ==> u[k] == t[k];
    IndexOfUnique(u, '/', |u|);
  }

  /** A relative specifier names no package. */
  lemma RelativeSpecifier()
    ensures SimplifyModuleSpecifier("./util/x").None?
  {
  }

  /** `@s/p/x` names `@s/p`, and `p/x` names `p`. */
  lemma ScopedAndUnscopedSpecifiers()
    ensures SimplifyModuleSpecifier("@s/p/x") == Some("@s/p")
    ensures SimplifyModuleSpecifier("p/x") == Some("p")
  {
    var scoped, plain := "@s/p/x", "p/x";
    assert scoped[0] == '@' && plain[0] == 'p';
    IndexOfUnique(scoped, '/', 2);
    IndexOfUnique(scoped[3..], '/', 1);
    SimplifiedIsPrefix(scoped);
    assert scoped[..4] == "@s/p";
    IndexOfUnique(plain, '/', 1);
    SimplifiedIsPrefix(plain);
    assert plain[..1] == "p";
  }

  /**
   * `s.slice(start, end)`: a negative bound counts from the end, and both bounds
   * are clamped to the string.
   */
  function JsSlice(s: string, start: int, end: int): (r: string)
    ensures |r| <= |s|
  {
    var from := if start < 0 then (if |s| + start < 0 then 0 else |s| + start) else (if start > |s| then |s| else start);
    var to := if end < 0 then (if |s| + end < 0 then 0 else |s| + end) else (if end > |s| then |s| else end);
    if from >= to then [] else s[from..to]
  }

  /**
   * `fullText.slice(2, fullText.length - 1)`: the specifier without its leading
   * space and quote and its closing quote.
   */
  function SpecifierText(fullText: string): string {
    if |fullText| < 3 then [] else fullText[2..|fullText| - 1]
  }

  /** The specifier text is the JavaScript slice the source takes. */
  lemma SpecifierTextIsSlice(fullText: string)
    ensures SpecifierText(fullText) == JsSlice(fullText, 2, |fullText| - 1)
  {
  }

  /** The kinds of syntax node the scanner distinguishes. */
  datatype NodeKind =
    | ImportDeclaration(specifierFullText: string)   // the module specifier's full text, leading trivia included
    | CallExpression(callee: Option<string>)         // the callee's `escapedText` when it is an identifier
    | OtherNode

  /** A syntax tree: a node and its children, in `forEachChild` order. */
  datatype TsNode = TsNode(kind: NodeKind, children: seq<TsNode>)

  /**
   * The name an import declaration contributes: its specifier text without the
   * two leading characters (a space and a quote) and the closing quote,
   * simplified. The empty name and `null` are both falsy and add nothing.
   */
  function ImportName(fullText: string): (r: Option<string>)
    ensures r.Some? ==> r.value != []
  {
    match SimplifyModuleSpecifier(SpecifierText(fullText))
    case Some(name) => if name != [] then Some(name) else None
    case None => None
  }

  /** What one node adds to the result set, its children aside. */
  function OwnImports(kind: NodeKind): set<string> {
    match kind
    case ImportDeclaration(text) => if ImportName(text).Some? then {ImportName(text).value} else {}
    case CallExpression(callee) =>
      if callee == Some("describe") || callee == Some("it") then {"@types/jest"} else {}
    case OtherNode => {}
  }

  /** Every name the scan of a tree records. */
  function ImportsOf(n: TsNode): set<string>
    decreases n, 1
  {
    OwnImports(n.kind) + ChildImports(n, 0)
  }

  /** Every name the scan of the children of `n` from the `i`-th on records. */
  function ChildImports(n: TsNode, i: nat): set<string>
    requires i <= |n.children|
    decreases n, 0, |n.children| - i
  {
    if i == |n.children| then {} else ImportsOf(n.children[i]) + ChildImports(n, i + 1)
  }

  /** The set after the node itself is visited. */
  function AddOwn(acc: set<string>, kind: NodeKind): set<string> {
    match kind
    case ImportDeclaration(text) => if ImportName(text).Some? then acc + {ImportName(text).value} else acc
    case CallExpression(callee) =>
      if callee == Some("describe") || callee == Some("it") then acc + {"@types/jest"} else acc
    case OtherNode => acc
  }

  /** The set after a whole tree is visited: the node, then each child in turn. */
  function AddImports(acc: set<string>, n: TsNode): set<string>
    decreases n, 1
  {
    AddChildren(AddOwn(acc, n.kind), n, 0)
  }

  /** The set after the children of `n` from the `i`-th on are visited. */
  function AddChildren(acc: set<string>, n: TsNode, i: nat): set<string>
    requires i <= |n.children|
    decreases n, 0, |n.children| - i
  {
    if i == |n.children| then acc else AddChildren(AddImports(acc, n.children[i]), n, i + 1)
  }

  /** `recursiveFindImports`: adds the tree's imports to the set it is given. */
  method RecursiveFindImports(resultSet: set<string>, node: TsNode) returns (result: set<string>)
    ensures result == AddImports(resultSet, node)
    decreases node
  {
    result := resultSet;
    match node.kind {
      case ImportDeclaration(text) =>
        var simplified := SimplifyModuleSpecifier(SpecifierText(text));
        if simplified.Some? && simplified.value != [] {
          result := result + {simplified.value};
        }
      case CallExpression(callee) =>
        if callee.Some? {
          if callee.value == "describe" || callee.value == "it" {
            result := result + {"@types/jest"};
          }
        }
      case OtherNode =>
    }
    var i := 0;
    while i < |node.children|
      invariant i <= |node.children|
      invariant AddChildren(result, node, i) == AddImports(resultSet, node)
    {
      result := RecursiveFindImports(result, node.children[i]);
      i := i + 1;
    }
  }

  /** Visiting a tree adds exactly the names of the tree, and keeps what was there. */
  lemma {:induction false} AddImportsUnion(acc: set<string>, n: TsNode)
    ensures AddImports(acc, n) == acc + ImportsOf(n)
    decreases n, 1
  {
    var own := AddOwn(acc, n.kind);
    assert own == acc + OwnImports(n.kind);
    AddChildrenUnion(own, n, 0);
  }

  lemma {:induction false} AddChildrenUnion(acc: set<string>, n: TsNode, i: nat)
    requires i <= |n.children|
    ensures AddChildren(acc, n, i) == acc + ChildImports(n, i)
    decreases n, 0, |n.children| - i
  {
    if i < |n.children| {
      var c := n.children[i];
      AddImportsUnion(acc, c);
      AddChildrenUnion(acc + ImportsOf(c), n, i + 1);
    }
  }

  /** No recorded name is empty or relative. */
  lemma {:induction false} ImportsAreNamed(n: TsNode)
    ensures forall x :: x in ImportsOf(n) ==> x != [] && x[0] != '.'
    decreases n, 1
  {
    if n.kind.ImportDeclaration? {
      var text := n.kind.specifierFullText;
      var spec := SpecifierText(text);
      if ImportName(text).Some? {
        SimplifiedIsPrefix(spec);
      }
    }
    ChildImportsAreNamed(n, 0);
  }

  lemma {:induction false} ChildImportsAreNamed(n: TsNode, i: nat)
    requires i <= |n.children|
    ensures forall x :: x in ChildImports(n, i) ==> x != [] && x[0] != '.'
    decreases n, 0, |n.children| - i
  {
    if i < |n.children| {
      ChildImportsAreNamed(n, i + 1);
      ImportsAreNamed(n.children[i]);
    }
  }

  /** `s.includes(sub)` */
  predicate Contains(s: string, sub: string)
    decreases |s|
  {
    if |s| < |sub| then false
    else s[..|sub|] == sub || Contains(s[1..], sub)
  }

  /** A text holding `sub` holds its first character. */
  lemma {:induction false} ContainsFirst(s: string, sub: string)
    requires sub != [] && Contains(s, sub)
    ensures sub[0] in s
    decreases |s|
  {
    if s[..|sub|] != sub {
      ContainsFirst(s[1..], sub);
      assert sub[0] in s[1..];
    } else {
      assert s[0] == sub[0];
    }
  }

  /** Files under a `__test__` or `__tests__` directory are development files. */
  predicate IsTestFile(path: string) {
    Contains(path, "__test__") || Contains(path, "__tests__")
  }

  /** The development set starts with the tools every package uses. */
  const DefaultDevImports: set<string> := {"typescript", "eslint", "prettier"}

  /** The two sets after each file is scanned into the set its path selects. */
  function ScanFiles(programImports: set<string>, devImports: set<string>, files: seq<(string, TsNode)>): (set<string>, set<string>)
    decreases |files|
  {
    if files == [] then (programImports, devImports)
    else if IsTestFile(files[0].0) then ScanFiles(programImports, AddImports(devImports, files[0].1), files[1..])
    else ScanFiles(AddImports(programImports, files[0].1), devImports, files[1..])
  }

  /**
   * A name ends up in a set exactly when it was there already or some file
   * of that side imports it.
   */
  lemma {:induction false} ScanFilesMembers(programImports: set<string>, devImports: set<string>, files: seq<(string, TsNode)>, x: string)
    ensures x in ScanFiles(programImports, devImports, files).0
      <==> x in programImports || exists i :: 0 <= i < |files| && !IsTestFile(files[i].0) && x in ImportsOf(files[i].1)
    ensures x in ScanFiles(programImports, devImports, files).1
      <==> x in devImports || exists i :: 0 <= i < |files| && IsTestFile(files[i].0) && x in ImportsOf(files[i].1)
    decreases |files|
  {
    if files != [] {
      var (path, tree) := files[0];
      AddImportsUnion(programImports, tree);
      AddImportsUnion(devImports, tree);
      if IsTestFile(path) {
        ScanFilesMembers(programImports, AddImports(devImports, tree), files[1..], x);
      } else {
        ScanFilesMembers(AddImports(programImports, tree), devImports, files[1..], x);
      }
      forall i | 0 < i < |files| ensures files[i] == files[1..][i - 1] {
      }
      if exists i :: 0 <= i < |files| && !IsTestFile(files[i].0) && x in ImportsOf(files[i].1) {
        var i :| 0 <= i < |files| && !IsTestFile(files[i].0) && x in ImportsOf(files[i].1);
        if i > 0 {
          assert files[1..][i - 1] == files[i];
        }
      }
      if exists i :: 0 <= i < |files| && IsTestFile(files[i].0) && x in ImportsOf(files[i].1) {
        var i :| 0 <= i < |files| && IsTestFile(files[i].0) && x in ImportsOf(files[i].1);
        if i > 0 {
          assert files[1..][i - 1] == files[i];
        }
      }
    }
  }

  /**
   * `findPackageImports`: scans each file into the set its path selects. The
   * source scans files concurrently; as both sets only grow by union, the order
   * makes no difference and the files are taken in the given order.
   */
  method FindPackageImports(files: seq<(string, TsNode)>) returns (programImports: set<string>, devImports: set<string>)
    ensures (programImports, devImports) == ScanFiles({}, DefaultDevImports, files)
  {
    programImports := {};
    devImports := DefaultDevImports;
    var i := 0;
    while i < |files|
      invariant i <= |files|
      invariant ScanFiles(programImports, devImports, files[i..]) == ScanFiles({}, DefaultDevImports, files)
    {
      var (path, sourceFile) := files[i];
      assert files[i..][1..] == files[i + 1..];
      if IsTestFile(path) {
        devImports := RecursiveFindImports(devImports, sourceFile);
      } else {
        programImports := RecursiveFindImports(programImports, sourceFile);
      }
      i := i + 1;
    }
    assert files[i..] == [];
  }

  /** `a/__tests__/b.ts` is a test file, `src/b.ts` is not. */
  lemma TestPathExamples()
    ensures IsTestFile("a/__tests__/b.ts")
    ensures !IsTestFile("src/b.ts")
  {
    var t := "a/__tests__/b.ts";
    assert t[2..][..9] == "__tests__";
    assert Contains(t[2..], "__tests__");
    assert Contains(t[1..], "__tests__");
    var u := "src/b.ts";
    assert '_' !in u;
    if Contains(u, "__test__") {
      ContainsFirst(u, "__test__");
    }
    if Contains(u, "__tests__") {
      ContainsFirst(u, "__tests__");
    }
  }
}
