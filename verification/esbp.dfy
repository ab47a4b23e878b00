/**
 * The pure parts of the `esbp` build tool: the default build-info record, the
 * choice of esbuild loader from a file extension, and the rendering of an
 * esbuild transform failure as text.
 */
module Esbp {
  import opened Wrappers
  import opened Text

  datatype BuildInfo = BuildInfo(inputRoot: string, inputGlobs: seq<string>, outputRoot: string, outputFiles: seq<string>)

  /** `getDefaultBuildInfo`: sources and outputs both live under `./src`, nothing has been built yet. */
  function DefaultBuildInfo(): (b: BuildInfo)
    ensures b.inputRoot == b.outputRoot == "./src"
    ensures b.inputGlobs == ["**/src/**/*.ts", "**/src/**/*.tsx"]
    ensures b.outputFiles == []
  {
    BuildInfo("./src", ["**/src/**/*.ts", "**/src/**/*.tsx"], "./src", [])
  }

  /** The loaders esbuild is asked for by name; everything else is loaded as a file. */
  const LoaderTable: map<string, string> :=
    map["tsx" := "tsx", "json" := "json", "jsx" := "jsx", "js" := "js", "css" := "css", "ts" := "ts", "txt" := "text"]

  /** The conditional chain choosing the loader for an extension (without its dot). */
  function Loader(ext: string): (loader: string)
    ensures ext in LoaderTable ==> loader == LoaderTable[ext]
    ensures ext !in LoaderTable ==> loader == "file"
  {
    if ext == "tsx" then "tsx"
    else if ext == "json" then "json"
    else if ext == "jsx" then "jsx"
    else if ext == "js" then "js"
    else if ext == "css" then "css"
    else if ext == "ts" then "ts"
    else if ext == "txt" then "text"
    else "file"
  }

  /** Every loader but `txt`'s is named like its extension; `file` is the fallback, also for no extension. */
  lemma LoaderNames(ext: string)
    ensures ext in {"tsx", "json", "jsx", "js", "css", "ts"} ==> Loader(ext) == ext
    ensures Loader("txt") == "text"
    ensures Loader("") == "file"
    ensures Loader(ext) == ext || Loader(ext) in {"text", "file"}
  {
  }

  datatype Location = Location(file: string, line: nat, column: nat)

  /** An esbuild message; its `location` is `null` when esbuild ties it to no place in a file. */
  datatype Message = Message(location: Option<Location>, text: string)

  /** A transform failure; either list may be missing (`undefined`). */
  datatype TransformFailure = TransformFailure(errors: Option<seq<Message>>, warnings: Option<seq<Message>>)

  /** Reading `file` from a `null` location throws a TypeError. */
  datatype FormatError = NullLocation

  /** Every message of the list has a location. */
  predicate Located(ms: seq<Message>) {
    forall i :: 0 <= i < |ms| ==> ms[i].location.Some?
  }

  /** Every list that is present can be formatted. */
  predicate Formattable(err: TransformFailure) {
    (err.errors.Some? ==> Located(err.errors.value)) && (err.warnings.Some? ==> Located(err.warnings.value))
  }

  /** One message as `KIND: file:line:column text`. */
  function FormatMessage(kind: string, m: Message): string
    requires m.location.Some?
  {
    var loc := m.location.value;
    kind + ": " + loc.file + ":" + NatToString(loc.line) + ":" + NatToString(loc.column) + " " + m.text
  }

  function MessageLines(kind: string, ms: seq<Message>): (lines: seq<string>)
    requires Located(ms)
    ensures |lines| == |ms|
    ensures forall i :: 0 <= i < |ms| ==> lines[i] == FormatMessage(kind, ms[i])
  {
    seq(|ms|, i requires 0 <= i < |ms| => FormatMessage(kind, ms[i]))
  }

  /** The blocks pushed onto `out`: one per list that is present, even an empty one. */
  function Blocks(err: TransformFailure): seq<string>
    requires Formattable(err)
  {
    (if err.errors.Some? then [Join(MessageLines("ERROR", err.errors.value), "\n")] else [])
    + (if err.warnings.Some? then [Join(MessageLines("WARNING", err.warnings.value), "\n")] else [])
  }

  /**
   * `formatEsbuildError`: the error block, then the warning block, joined by a
   * line break. It throws when a message of a present list has no location.
   * The `file` argument is not used by the source.
   */
  method FormatEsbuildError(file: string, err: TransformFailure) returns (r: Result<string, FormatError>)
    ensures r.Success? <==> Formattable(err)
    ensures r.Success? ==> r.value == Join(Blocks(err), "\n")
  {
    var out: seq<string> := [];
    if err.errors.Some? {
      if !Located(err.errors.value) {
        return Failure(NullLocation);
      }
      out := out + [Join(MessageLines("ERROR", err.errors.value), "\n")];
    }
    if err.warnings.Some? {
      if !Located(err.warnings.value) {
        return Failure(NullLocation);
      }
      out := out + [Join(MessageLines("WARNING", err.warnings.value), "\n")];
    }
    r := Success(Join(out, "\n"));
  }

  /** Neither the file name of the location, if any, nor the text holds a line break. */
  predicate NoLineBreak(m: Message) {
    (m.location.Some? ==> '\n' !in m.location.value.file) && '\n' !in m.text
  }

  /** The lines one block contributes: an empty list still contributes one empty line. */
  function BlockLines(kind: string, ms: seq<Message>): seq<string>
    requires Located(ms)
  {
    if ms == [] then [""] else MessageLines(kind, ms)
  }

  function ExpectedLines(err: TransformFailure): seq<string>
    requires Formattable(err)
  {
    var lines :=
      (if err.errors.Some? then BlockLines("ERROR", err.errors.value) else [])
      + (if err.warnings.Some? then BlockLines("WARNING", err.warnings.value) else []);
    if lines == [] then [""] else lines
  }

  lemma FormatMessageOneLine(kind: string, m: Message)
    requires '\n' !in kind && m.location.Some? && NoLineBreak(m)
    ensures '\n' !in FormatMessage(kind, m)
  {
    var l, c := NatToString(m.location.value.line), NatToString(m.location.value.column);
    assert forall i :: 0 <= i < |l| ==> IsDigit(l[i]);
    assert forall i :: 0 <= i < |c| ==> IsDigit(c[i]);
  }

  lemma {:induction false} BlockSplit(kind: string, ms: seq<Message>)
    requires '\n' !in kind && Located(ms)
    requires forall i :: 0 <= i < |ms| ==> NoLineBreak(ms[i])
    ensures Split(Join(MessageLines(kind, ms), "\n"), '\n') == BlockLines(kind, ms)
  {
    var lines := MessageLines(kind, ms);
    if ms == [] {
      IndexOfUnique("", '\n', 0);
    } else {
      forall i | 0 <= i < |lines|
        ensures '\n' !in lines[i]
      {
        FormatMessageOneLine(kind, ms[i]);
      }
      SplitJoin(lines, '\n');
    }
  }

  /**
   * When every message has a location and no file name or message text holds
   * a line break, the text splits back into one line per error, then one line
   * per warning, each formatted as `KIND: file:line:column text`, in order.
   */
  lemma {:induction false} FormattedLines(err: TransformFailure)
    requires Formattable(err)
    requires err.errors.Some? ==> forall i :: 0 <= i < |err.errors.value| ==> NoLineBreak(err.errors.value[i])
    requires err.warnings.Some? ==> forall i :: 0 <= i < |err.warnings.value| ==> NoLineBreak(err.warnings.value[i])
    ensures Split(Join(Blocks(err), "\n"), '\n') == ExpectedLines(err)
  {
    var bs := Blocks(err);
    if err.errors.Some? && err.warnings.Some? {
      BothBlocks(err);
    } else if err.errors.Some? {
      assert bs == [Join(MessageLines("ERROR", err.errors.value), "\n")];
      BlockSplit("ERROR", err.errors.value);
    } else if err.warnings.Some? {
      assert bs == [Join(MessageLines("WARNING", err.warnings.value), "\n")];
      BlockSplit("WARNING", err.warnings.value);
    } else {
      assert bs == [];
      IndexOfUnique("", '\n', 0);
    }
  }

  lemma BothBlocks(err: TransformFailure)
    requires err.errors.Some? && err.warnings.Some? && Formattable(err)
    requires forall i :: 0 <= i < |err.errors.value| ==> NoLineBreak(err.errors.value[i])
    requires forall i :: 0 <= i < |err.warnings.value| ==> NoLineBreak(err.warnings.value[i])
    ensures Split(Join(Blocks(err), "\n"), '\n') == ExpectedLines(err)
  {
    var e := BlockLines("ERROR", err.errors.value);
    var w := BlockLines("WARNING", err.warnings.value);
    JoinBlockLines("ERROR", err.errors.value);
    JoinBlockLines("WARNING", err.warnings.value);
    assert Blocks(err) == [Join(e, "\n"), Join(w, "\n")];
    assert ExpectedLines(err) == e + w;
    LinesHaveNoBreak(err);
    SplitTwoBlocks(e, w);
  }

  lemma SplitTwoBlocks(e: seq<string>, w: seq<string>)
    requires |e| > 0 && |w| > 0
    requires forall i :: 0 <= i < |e + w| ==> '\n' !in (e + w)[i]
    ensures Split(Join([Join(e, "\n"), Join(w, "\n")], "\n"), '\n') == e + w
  {
    JoinCons(Join(e, "\n"), [Join(w, "\n")], "\n");
    JoinAppend(e, w, "\n");
    SplitJoin(e + w, '\n');
  }

  lemma JoinBlockLines(kind: string, ms: seq<Message>)
    requires Located(ms)
    ensures Join(BlockLines(kind, ms), "\n") == Join(MessageLines(kind, ms), "\n")
  {
  }

  lemma LinesHaveNoBreak(err: TransformFailure)
    requires err.errors.Some? && err.warnings.Some? && Formattable(err)
    requires forall i :: 0 <= i < |err.errors.value| ==> NoLineBreak(err.errors.value[i])
    requires forall i :: 0 <= i < |err.warnings.value| ==> NoLineBreak(err.warnings.value[i])
    ensures forall i :: 0 <= i < |ExpectedLines(err)| ==> '\n' !in ExpectedLines(err)[i]
  {
    var e := BlockLines("ERROR", err.errors.value);
    var w := BlockLines("WARNING", err.warnings.value);
    assert ExpectedLines(err) == e + w;
    forall i | 0 <= i < |e| ensures '\n' !in e[i] {
      if err.errors.value != [] { FormatMessageOneLine("ERROR", err.errors.value[i]); }
    }
    forall i | 0 <= i < |w| ensures '\n' !in w[i] {
      if err.warnings.value != [] { FormatMessageOneLine("WARNING", err.warnings.value[i]); }
    }
  }
}
