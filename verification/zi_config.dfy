/**
 * Validation of a `.ziconfig` document: each section is checked against the
 * default section's keys and merged onto it, and the document is reduced to
 * its `entry` and `closure` sections.
 *
 * The deep copies the source makes with `JSON.parse(JSON.stringify(...))` are
 * the identity on JSON values, so the model uses the values themselves.
 * A missing property (`undefined`) is `None`.
 */
module ZiConfig {
  import opened Wrappers
  import opened Text
  import opened Json

  const DefaultEntry: seq<(string, Json)> := [
    ("entrypointPaths", JArr([])),
    ("injectHeadTags", JArr([
      JStr("<script type='module' src='https://localhost:3000/@vite/client'></script>"),
      JStr("<script type='module'>\nimport RefreshRuntime from 'https://localhost:3000/@react-refresh'\nRefreshRuntime.injectIntoGlobalHook(window)\nwindow.$RefreshReg$ = () => {}\nwindow.$RefreshSig$ = () => (type) => type\nwindow.__vite_plugin_react_preamble_installed__ = true\n</script>")
    ])),
    ("scriptOverrideMap", JObj([]))
  ]

  const DefaultClosure: seq<(string, Json)> := [
    ("tsconfigPath", JStr("tsconfig.json")),
    ("outputPath", JStr("zi-closure.json")),
    ("rootDir", JStr(".")),
    ("concurrency", JNum(200)),
    ("preProcessSass", JBool(true)),
    ("inputPatterns", JArr([JStr("**/*.js"), JStr("**/*.ts")])),
    ("expectErrorOn", JArr([])),
    ("expectWarningOn", JArr([]))
  ]

  /** `DEFAULT_CONFIG` */
  const DefaultConfig: Json := JObj([("entry", JObj(DefaultEntry)), ("closure", JObj(DefaultClosure))])

  const ExtraKeysMessage := "Config had extra keys: "
  const NotAnObjectMessage := "Config was not an object"
  /** The `TypeError` raised by reading `entry` of `null`. */
  const NullConfigMessage := "Cannot read properties of null (reading 'entry')"

  /** The keys of `keys`, in order, that are not keys of `base`. */
  function ExtraKeys(keys: seq<string>, base: seq<(string, Json)>): (extra: seq<string>)
    ensures forall k :: k in extra <==> k in keys && k !in KeysOf(base)
    ensures |extra| <= |keys|
  {
    if keys == [] then []
    else (if keys[0] in KeysOf(base) then [] else [keys[0]]) + ExtraKeys(keys[1..], base)
  }

  /** A key as the error message names it: under `keyPath` when there is one. */
  function QualifiedKey(keyPath: string, k: string): string {
    if keyPath != "" then keyPath + "." + k else k
  }

  function QualifiedKeys(keyPath: string, ks: seq<string>): (qs: seq<string>)
    ensures |qs| == |ks|
    ensures forall i :: 0 <= i < |ks| ==> qs[i] == QualifiedKey(keyPath, ks[i])
  {
    seq(|ks|, i requires 0 <= i < |ks| => QualifiedKey(keyPath, ks[i]))
  }

  /** The value a section gives key `k`: its own property when the section is truthy and has one, else the default. */
  function Override(section: Option<Json>, k: string, default: Json): Json {
    if section.Some? && Truthy(section.value) && Property(section.value, k).Some? then Property(section.value, k).value
    else default
  }

  function MergeFields(section: Json, base: seq<(string, Json)>): seq<(string, Json)> {
    seq(|base|, i requires 0 <= i < |base| =>
      (base[i].0, if Property(section, base[i].0).Some? then Property(section, base[i].0).value else base[i].1))
  }

  /**
   * `validateAndMerge(section, base, keyPath)`: a falsy section gives the defaults; a
   * section with an own key the defaults lack fails, naming every such key; otherwise
   * the result has exactly the default keys in the default order, each taking the
   * section's value when the section has it and the default value otherwise.
   */
  function ValidateAndMerge(section: Option<Json>, base: seq<(string, Json)>, keyPath: string): (r: Result<Json, string>)
    ensures section.None? || !Truthy(section.value) ==> r == Success(JObj(base))
    ensures section.Some? && Truthy(section.value) ==>
      (r.Failure? <==> exists k :: k in OwnKeys(section.value) && k !in KeysOf(base))
    ensures r.Success? ==>
      && r.value.JObj? && KeysOf(r.value.fields) == KeysOf(base)
      && forall i :: 0 <= i < |base| ==> r.value.fields[i].1 == Override(section, base[i].0, base[i].1)
    ensures r.Failure? ==>
      r.error == ExtraKeysMessage + Join(QualifiedKeys(keyPath, ExtraKeys(OwnKeys(section.value), base)), ",")
  {
    if section.None? || !Truthy(section.value) then Success(JObj(base))
    else
      var extra := ExtraKeys(OwnKeys(section.value), base);
      if |extra| > 0 then
        assert extra[0] in OwnKeys(section.value) && extra[0] !in KeysOf(base);
        Failure(ExtraKeysMessage + Join(QualifiedKeys(keyPath, extra), ","))
      else
        var merged := MergeFields(section.value, base);
        assert KeysOf(merged) == KeysOf(base);
        Success(JObj(merged))
  }

  /** `cleanupConfig` over given default sections. */
  function CleanupWith(c: Json, entryBase: seq<(string, Json)>, closureBase: seq<(string, Json)>): (r: Result<Json, string>)
    ensures r == Failure(NotAnObjectMessage) <==> !TypeofObject(c)
    ensures c.JNull? ==> r == Failure(NullConfigMessage)
    ensures r.Success? ==>
      && r.value.JObj? && KeysOf(r.value.fields) == ["entry", "closure"]
      && ValidateAndMerge(Property(c, "entry"), entryBase, "entry") == Success(r.value.fields[0].1)
      && ValidateAndMerge(Property(c, "closure"), closureBase, "closureOptions") == Success(r.value.fields[1].1)
    ensures TypeofObject(c) && !c.JNull? ==>
      (r.Success? <==>
        ValidateAndMerge(Property(c, "entry"), entryBase, "entry").Success?
        && ValidateAndMerge(Property(c, "closure"), closureBase, "closureOptions").Success?)
  {
    if !TypeofObject(c) then Failure(NotAnObjectMessage)
    else if c.JNull? then Failure(NullConfigMessage)
    else
      var entry :- ValidateAndMerge(Property(c, "entry"), entryBase, "entry");
      var closure :- ValidateAndMerge(Property(c, "closure"), closureBase, "closureOptions");
      Success(JObj([("entry", entry), ("closure", closure)]))
  }

  /**
   * `cleanupConfig`: a candidate whose `typeof` is not `'object'` is refused; `null`
   * fails reading `entry`; otherwise the result holds only `entry` and `closure`,
   * each section validated against its default, errors reported under `entry` and
   * `closureOptions`, the entry section first.
   */
  function CleanupConfig(c: Json): (r: Result<Json, string>)
    ensures r == Failure(NotAnObjectMessage) <==> !TypeofObject(c)
    ensures c.JNull? ==> r == Failure(NullConfigMessage)
    ensures r.Success? ==>
      && r.value.JObj? && KeysOf(r.value.fields) == ["entry", "closure"]
      && ValidateAndMerge(Property(c, "entry"), DefaultEntry, "entry") == Success(r.value.fields[0].1)
      && ValidateAndMerge(Property(c, "closure"), DefaultClosure, "closureOptions") == Success(r.value.fields[1].1)
    ensures TypeofObject(c) && !c.JNull? ==>
      (r.Success? <==>
        ValidateAndMerge(Property(c, "entry"), DefaultEntry, "entry").Success?
        && ValidateAndMerge(Property(c, "closure"), DefaultClosure, "closureOptions").Success?)
  {
    CleanupWith(c, DefaultEntry, DefaultClosure)
  }

  /** A section with one key the defaults lack is refused, naming that key under the key path. */
  lemma SingleExtraKey(k: string, v: Json, base: seq<(string, Json)>, keyPath: string)
    requires k !in KeysOf(base)
    ensures ValidateAndMerge(Some(JObj([(k, v)])), base, keyPath) == Failure(ExtraKeysMessage + QualifiedKey(keyPath, k))
  {
    assert OwnKeys(JObj([(k, v)])) == [k];
    assert ExtraKeys([k], base) == [k];
  }

  /** A document with neither section, and any array, is cleaned up to the default sections. */
  lemma MissingSectionsGiveDefaults(c: Json, entryBase: seq<(string, Json)>, closureBase: seq<(string, Json)>)
    requires c.JArr? || (c.JObj? && "entry" !in KeysOf(c.fields) && "closure" !in KeysOf(c.fields))
    ensures CleanupWith(c, entryBase, closureBase) == Success(JObj([("entry", JObj(entryBase)), ("closure", JObj(closureBase))]))
  {
    assert Property(c, "entry") == None && Property(c, "closure") == None;
  }

  /** An empty document is cleaned up to `DEFAULT_CONFIG`. */
  lemma EmptyConfigIsDefault()
    ensures CleanupConfig(JObj([])) == Success(DefaultConfig)
  {
    MissingSectionsGiveDefaults(JObj([]), DefaultEntry, DefaultClosure);
  }

  /** An unknown key in the entry section is reported as `entry.<key>`, before any closure error. */
  lemma EntryExtraKeyReported(k: string, v: Json, closure: Option<Json>, entryBase: seq<(string, Json)>, closureBase: seq<(string, Json)>)
    requires k !in KeysOf(entryBase)
    ensures var c := JObj([("entry", JObj([(k, v)]))] + (if closure.Some? then [("closure", closure.value)] else []));
      CleanupWith(c, entryBase, closureBase) == Failure(ExtraKeysMessage + QualifiedKey("entry", k))
  {
    var c := JObj([("entry", JObj([(k, v)]))] + (if closure.Some? then [("closure", closure.value)] else []));
    assert Property(c, "entry") == Some(JObj([(k, v)]));
    SingleExtraKey(k, v, entryBase, "entry");
  }

  /** An unknown key in the closure section is reported as `closureOptions.<key>`. */
  lemma ClosureExtraKeyReported(k: string, v: Json, entryBase: seq<(string, Json)>, closureBase: seq<(string, Json)>)
    requires k !in KeysOf(closureBase)
    ensures CleanupWith(JObj([("closure", JObj([(k, v)]))]), entryBase, closureBase)
      == Failure(ExtraKeysMessage + QualifiedKey("closureOptions", k))
  {
    var c := JObj([("closure", JObj([(k, v)]))]);
    assert Property(c, "entry") == None;
    assert Property(c, "closure") == Some(JObj([(k, v)]));
    SingleExtraKey(k, v, closureBase, "closureOptions");
  }

  /**
   * A non-empty string section has index keys ("0", "1", ...), so it is refused
   * against defaults whose keys do not start with a digit, as no default key does.
   */
  lemma StringSectionRefused(s: string, base: seq<(string, Json)>, keyPath: string)
    requires s != []
    requires forall i :: 0 <= i < |base| ==> base[i].0 == [] || !IsDigit(base[i].0[0])
    ensures ValidateAndMerge(Some(JStr(s)), base, keyPath).Failure?
  {
    var keys := OwnKeys(JStr(s));
    assert IsArrayIndex(keys[0]);
    assert keys[0] !in KeysOf(base);
  }
}
