# zi monorepo tooling and closure streaming, modelled in Dafny

This project models the core of the `zi` repository and proves properties of the model.
The core has two parts.

- **The closure stream of the zi web extension.**
  - `serializeStreamEntry` writes one entry as `<len>:<name><len>:<json>`.
  - `accumulateNumber` reads one length prefix back.
  - `tryGetEntryFromString` reads one complete entry from a buffer, or `null` while the entry is incomplete.
  - `ZiClosureStreamer` pulls chunks from a reader, skips white space, hands each decoded entry to a callback, and compacts its buffer.
  - `isKnownMessage` filters the messages the extension accepts.
- **The monorepo tools.**
  - `recursivePatchCommentJson` patches a commented JSON document in place. It reconciles arrays element by element so that comments survive.
  - `ConfigManager` keeps one `PackageConfigsManager` per workspace and concatenates their change sets.
  - `intendedConfig` computes the `package.json` and `tsconfig` files each workspace should have.
  - `findPackageImports` collects the package names imported by a package's sources.
  - `fixPackageImports` reconciles a `package.json` with those imports.
  - `listInternalDevDependencies` finds the workspaces that some workspace needs to build.
  - `collectAllExternalDependencies` picks the greatest version range of every external package.
  - `esbp` chooses esbuild loaders and formats build errors.
  - `ziConfig` validates a `.ziconfig` document against its defaults.

One Dafny module models each source file:

| module | file |
|---|---|
| `CommentPatch` | `comment_patch.dfy` |
| `Serialization` | `serialization.dfy` |
| `StreamClosure` | `stream_closure.dfy` |
| `KnownMessage` | `known_message.dfy` |
| `ConfigManagement` | `config_manager.dfy` |
| `IntendedConfig` | `intended_config.dfy` |
| `FindImports` | `find_package_imports.dfy` |
| `FixImports` | `fix_package_imports.dfy` |
| `InternalDevDeps` | `internal_devdeps.dfy` |
| `ExternalDeps` | `external_deps.dfy` |
| `Esbp` | `esbp.dfy` |
| `ZiConfig` | `zi_config.dfy` |

Three more modules are shared:

- `Wrappers` holds `Option` and `Result`.
- `Text` holds decimal numerals, `split`, `join` and `indexOf`.
- `Json` holds JSON values, `JSON.stringify`, and property get and assign on objects kept in insertion order.

The code is modelled in its own form:

- Code that works by mutation is imperative Dafny:
  - the streamer and the config managers are classes;
  - the reconciliation, accumulation, walk and reference-update loops are methods with loop invariants.
- Each method is proved against a specification function. The properties are proved about those functions.
- A thrown error is a `Failure` carrying the source's message.

## Model

| member | source | states |
|---|---|---|
| KnownMessage.IndexOfValue | packages/zi/zi-webextension-generic/src/isKnownMessage.ts:13 | `indexOf` with strict equality: the index found holds the value, and -1 exactly when no element equals it; a missing `type` is never found |
| KnownMessage.IsKnownMessage | packages/zi/zi-webextension-generic/src/isKnownMessage.ts:3-15 | a message is known exactly when it is a non-null object whose `type` is one of `state_for_popup`, `popup_ready`, `set_base_url` |
| KnownMessage.ReloadClosureRejected | packages/zi/zi-webextension-generic/src/isKnownMessage.ts:3-15 | a `reload_closure` message is rejected whatever else it carries |
| KnownMessage.PopupReadyAccepted | packages/zi/zi-webextension-generic/src/isKnownMessage.ts:3-15 | a `popup_ready` message is accepted whatever else it carries |
| Serialization.AccumulateNumber | packages/zi/zi-closure/src/serialization.ts:6-22 | the scan to the first `:` and the numeric conversion compute `NumberAt` |
| Serialization.NumberAt | packages/zi/zi-closure/src/serialization.ts:6-22 | a number read at `off` ends at a `:` strictly after `off`, inside the buffer |
| Serialization.NumberAtMeaning | packages/zi/zi-closure/src/serialization.ts:10-21 | a successful read stops at the first `:`, and its value is the decimal value of the all-digit span before it |
| Serialization.NumberAtDigits | packages/zi/zi-closure/src/serialization.ts:10-21 | conversely, a non-empty digit span closed by `:` is read back as its value and end |
| Serialization.NumberAtNoColon | packages/zi/zi-closure/src/serialization.ts:14-16 | without a `:` at or after the offset the read is `null` |
| Serialization.Example42 | packages/zi/zi-closure/src/__tests__/serialization.test.ts:18-20 | `accumulateNumber('42:', 0)` is `[42, 2]` |
| Serialization.Example49200 | packages/zi/zi-closure/src/__tests__/serialization.test.ts:26-30 | `accumulateNumber('49200:', 0)` ends at 5 |
| Serialization.Example25 | packages/zi/zi-closure/src/__tests__/serialization.test.ts:22-24 | `accumulateNumber('a25:', 1)` is `[25, 3]` |
| Serialization.ExampleEmpty | packages/zi/zi-closure/src/__tests__/serialization.test.ts:36-38 | the empty string gives `null` |
| Serialization.TryGetEntry | packages/zi/zi-closure/src/serialization.ts:26-57 | `null` exactly when the two lengths cannot both be read or the frame is not wholly buffered; an entry's next offset is the frame's end, past the start and inside the buffer |
| Serialization.TryGetEntryIncomplete | packages/zi/zi-closure/src/serialization.ts:30-43 | any prefix of a buffer that cuts a frame short gives `null`, never an error |
| Serialization.TryGetEntryExtend | packages/zi/zi-closure/src/serialization.ts:26-57 | once a frame is complete, buffering more text does not change the result |
| Serialization.TryGetEntryAgree | packages/zi/zi-closure/src/serialization.ts:26-57 | two buffers holding the same frame at different offsets give the same entry, shifted |
| Serialization.TryGetEntryComplete | packages/zi/zi-closure/src/serialization.ts:44-56 | with both lengths read, the frame buffered and its JSON parsing, the result is the name slice, the parsed value and the frame end |
| Serialization.Serialize | packages/zi/zi-closure/src/serialization.ts:1-4 | an entry is exactly one complete frame, whose first length prefix is the length of the name |
| Serialization.FrameComplete | packages/zi/zi-closure/src/serialization.ts:1-4 | a frame reads back its name length first and ends exactly at its own end |
| Json.Stringify | packages/zi/zi-closure/src/serialization.ts:2 | `JSON.stringify` gives a non-empty text; a string is quoted, an array bracketed and an object braced |
| Serialization.SerializeRoundTrip | packages/zi/zi-closure/src/serialization.ts:1-4 | an entry serialized anywhere inside a buffer is read back as its name and value, ending where the frame ends, given that `JSON.parse` inverts `JSON.stringify` |
| Serialization.SerializeRoundTripAtEnd | packages/zi/zi-closure/src/serialization.ts:1-4 | the same round trip for a frame that ends the buffer |
| StreamClosure.ChunkReader.constructor | packages/zi/zi-webextension-generic/src/streamZiClosure.ts:10 | a reader over the given chunks, none handed out |
| StreamClosure.ChunkReader.Read | packages/zi/zi-webextension-generic/src/streamZiClosure.ts:39-42 | `reader.read()` hands out the next chunk, or reports `done`; the unread text loses exactly that chunk |
| StreamClosure.ZiClosureStreamer.constructor | packages/zi/zi-webextension-generic/src/streamZiClosure.ts:7-12 | a streamer that streams, over the given reader and callback, having delivered nothing |
| StreamClosure.ZiClosureStreamer.AbortStream | packages/zi/zi-webextension-generic/src/streamZiClosure.ts:14-16 | clears `shouldStream` and nothing else |
| StreamClosure.ZiClosureStreamer.OnReadEntry | packages/zi/zi-webextension-generic/src/streamZiClosure.ts:74 | the entry is delivered, and streaming stops exactly when the callback aborts |
| StreamClosure.ZiClosureStreamer.ReadChunks | packages/zi/zi-webextension-generic/src/streamZiClosure.ts:38-56 | reads at least one chunk unless the reader is done, and keeps reading until a known required length is buffered; what it read is the start of the unread text |
| StreamClosure.ZiClosureStreamer.Gather | packages/zi/zi-webextension-generic/src/streamZiClosure.ts:25-56 | stops with the too-many-failures error or a return; otherwise the buffer stays a window on the stream, grows by what was read, and reaches any required length the look-ahead knows |
| StreamClosure.ZiClosureStreamer.ParseStep | packages/zi/zi-webextension-generic/src/streamZiClosure.ts:60-76 | skipping white space then reading one frame either delivers the next entry the whole stream decodes to, reports the parse error the stream ends with, or leaves the buffer stuck |
| StreamClosure.ZiClosureStreamer.ParseEntries | packages/zi/zi-webextension-generic/src/streamZiClosure.ts:58-77 | the inner loop delivers, in order, the entries the whole stream decodes to from the current offset, until it is stuck, stopped or fails |
| StreamClosure.Compact | packages/zi/zi-webextension-generic/src/streamZiClosure.ts:78-84 | at or above 4096 buffered characters the consumed prefix is dropped and the offset reset; the buffer stays a window on the stream and a stuck frame stays stuck |
| StreamClosure.ZiClosureStreamer.Digest | packages/zi/zi-webextension-generic/src/streamZiClosure.ts:58-84 | parsing then compacting keeps the delivered log equal to a prefix of what the stream decodes to |
| StreamClosure.ZiClosureStreamer.Round | packages/zi/zi-webextension-generic/src/streamZiClosure.ts:24-85 | one round of the outer loop: the log grows by what the stream decodes to next |
| StreamClosure.ZiClosureStreamer.Stream | packages/zi/zi-webextension-generic/src/streamZiClosure.ts:18-86 | the delivered entries are a prefix of what the whole text decodes to, and no entry before the aborting one aborts; a parse error is the one the text meets after them; more than 10 failed rounds throw; with no abort and no look-ahead, returning means every entry was delivered |
| StreamClosure.DecodeSerialized | packages/zi/zi-closure/src/serialization.ts:1-4 | a text of serialized entries, each followed by white space, decodes to exactly those entries and no error |
| StreamClosure.StreamSerialized | packages/zi/zi-webextension-generic/src/streamZiClosure.ts:18-86 | end to end: a producer's serialized entries split into arbitrary chunks are delivered as a prefix of the entries, never with a parse error, and all of them when nothing aborts and there is no look-ahead |
| CommentPatch.IsEqualReflexive | packages/monorepo-lib/config-editor/src/recursivePatchCommentJson.ts:37 | every JSON value is `isEqual` to itself |
| CommentPatch.KeyOrderIgnored | packages/monorepo-lib/config-editor/src/recursivePatchCommentJson.ts:37 | `isEqual` compares objects key by key whatever their key order, and tells different values apart |
| CommentPatch.Match | packages/monorepo-lib/config-editor/src/recursivePatchCommentJson.ts:37-57 | every branch of the comparison moves the edit cursor on by one, and a match leaves the array and moves the old cursor on |
| CommentPatch.Reconcile | packages/monorepo-lib/config-editor/src/recursivePatchCommentJson.ts:25-58 | every element left by the walk is an element of the array it started from, with its comment, or an uncommented value of the edit |
| CommentPatch.ReconcileArray | packages/monorepo-lib/config-editor/src/recursivePatchCommentJson.ts:25-58 | the loop on a copy of the old array computes `Reconcile` from both cursors at 0 |
| CommentPatch.Step | packages/monorepo-lib/config-editor/src/recursivePatchCommentJson.ts:27-57 | one turn keeps the old cursor within the array (or just past it) and decreases the distance to the end, so the loop ends |
| CommentPatch.ReconcileKeepsEqual | packages/monorepo-lib/config-editor/src/recursivePatchCommentJson.ts:37-40 | an array `isEqual` to the edit, even with objects whose keys come in another order, is walked in lock step and left exactly as it was, comments included |
| CommentPatch.ReconcileKeyOrderScenario | packages/monorepo-lib/config-editor/src/recursivePatchCommentJson.ts:37-40 | old `[/*c*/ {a: 1, b: 2}]` patched with `[{b: 2, a: 1}]` keeps the element and its comment |
| CommentPatch.ReconcileKeepsOnlyOldComments | packages/monorepo-lib/config-editor/src/recursivePatchCommentJson.ts:25-58 | a commented element of the result was in the old array |
| CommentPatch.ReconcileInsertScenario | packages/monorepo-lib/config-editor/src/__tests__/recursivePatchCommentJson.test.ts:142-178 | old `[a, b, c]` patched with `[d, a, b, b, c, f]` keeps `a`, `b`, `c` with their comments and inserts the rest uncommented |
| CommentPatch.ReconcileDeleteScenario | packages/monorepo-lib/config-editor/src/__tests__/recursivePatchCommentJson.test.ts:179-209 | old `[a, b, c]` patched with `[a]` leaves the commented `a` |
| CommentPatch.ReconcileEqualObjectsScenario | packages/monorepo-lib/config-editor/src/__tests__/recursivePatchCommentJson.test.ts:246-290 | old `[{a:1}, "b", {a:1}]` (each commented) patched with `["_", {a:1}, "b", "d", {a:1}]` keeps all three old elements with their comments and inserts `"_"` and `"d"` uncommented |
| CommentPatch.ReconcileDropsTail | packages/monorepo-lib/config-editor/src/recursivePatchCommentJson.ts:30-37 | as written, `[a]` patched with `[a, x, y]` gives `[a, x]` |
| CommentPatch.ReconcileLosesReplacement | packages/monorepo-lib/config-editor/src/recursivePatchCommentJson.ts:34-56 | as written, `[x]` patched with `[y]` gives `[]` |
| CommentPatch.StepIntended | packages/monorepo-lib/config-editor/src/recursivePatchCommentJson.ts:27-57 | the intended turn, with `continue` after an exhausted branch and no skip on delete, keeps both cursors in bounds and terminates |
| CommentPatch.ReconcileIntendedMatchesEdit | packages/monorepo-lib/config-editor/src/recursivePatchCommentJson.ts:25-58 | the intended walk leaves an array whose plain value is `isEqual` to the edit |
| CommentPatch.SetMember | packages/monorepo-lib/config-editor/src/recursivePatchCommentJson.ts:15 | after `target[k] = n` the key holds `n` with its old comment |
| CommentPatch.SetMemberOther | packages/monorepo-lib/config-editor/src/recursivePatchCommentJson.ts:15 | setting one key leaves every other key, value and comment as it was |
| CommentPatch.SetMemberSame | packages/monorepo-lib/config-editor/src/recursivePatchCommentJson.ts:15 | writing back what a key holds changes nothing |
| CommentPatch.ArrayKeys | packages/monorepo-lib/config-editor/src/recursivePatchCommentJson.ts:17-60 | the array pass keeps the document an object, and a rebound `target` is always an array |
| CommentPatch.ObjectKeys | packages/monorepo-lib/config-editor/src/recursivePatchCommentJson.ts:62-69 | the object pass changes neither the rebinding nor the kind of the document |
| CommentPatch.PatchNode | packages/monorepo-lib/config-editor/src/recursivePatchCommentJson.ts:4-72 | a successful patch leaves the document the same kind of node it was |
| CommentPatch.Patch | packages/monorepo-lib/config-editor/src/recursivePatchCommentJson.ts:4-72 | the returned value exists exactly when the in-place patch does not throw; on an object document it is an object, or an uncommented array once `target` was rebound |
| CommentPatch.AssignPrimitivesPass | packages/monorepo-lib/config-editor/src/recursivePatchCommentJson.ts:8-15 | the primitive pass computes `AssignPrimitives` |
| CommentPatch.ArrayKeysPass | packages/monorepo-lib/config-editor/src/recursivePatchCommentJson.ts:17-60 | the array pass computes `ArrayKeys` |
| CommentPatch.ObjectKeysPass | packages/monorepo-lib/config-editor/src/recursivePatchCommentJson.ts:62-69 | the object pass computes `ObjectKeys` |
| CommentPatch.RecursivePatch | packages/monorepo-lib/config-editor/src/recursivePatchCommentJson.ts:4-72 | the three passes in order compute `PatchNode` |
| CommentPatch.ObjectKeysFailurePersists | packages/monorepo-lib/config-editor/src/recursivePatchCommentJson.ts:65-69 | once a recursive patch throws, the later keys do not matter |
| CommentPatch.AssignPrimitivesKeeps | packages/monorepo-lib/config-editor/src/recursivePatchCommentJson.ts:8-15 | a key with no primitive edit value keeps its member through the primitive pass |
| CommentPatch.ArrayKeysKeeps | packages/monorepo-lib/config-editor/src/recursivePatchCommentJson.ts:17-60 | a key with no array edit value keeps its member through the array pass |
| CommentPatch.ObjectKeysKeeps | packages/monorepo-lib/config-editor/src/recursivePatchCommentJson.ts:62-69 | a key with no object edit value keeps its member through the object pass |
| CommentPatch.PatchKeepsOtherKeys | packages/monorepo-lib/config-editor/src/recursivePatchCommentJson.ts:4-72 | a key the edit does not name keeps its value and its comment |
| CommentPatch.AssignPrimitivesSets | packages/monorepo-lib/config-editor/src/recursivePatchCommentJson.ts:8-15 | after the primitive pass a primitive key holds the edit's value, keeping its comment |
| CommentPatch.PatchPrimitiveKey | packages/monorepo-lib/config-editor/src/__tests__/recursivePatchCommentJson.test.ts:37-66 | after the patch a primitive key of the edit holds the edit's value with its old comment |
| CommentPatch.ObjectKeysSets | packages/monorepo-lib/config-editor/src/recursivePatchCommentJson.ts:65-69 | an object key is patched recursively when present and assigned from the edit when missing |
| CommentPatch.PatchObjectKey | packages/monorepo-lib/config-editor/src/__tests__/recursivePatchCommentJson.test.ts:67-114 | after the patch an object key of the edit is the recursive patch of what it held, or the edit's object when it held nothing |
| CommentPatch.PatchIdentity | packages/monorepo-lib/config-editor/src/__tests__/recursivePatchCommentJson.test.ts:5-35 | patching a document with its own plain value returns it unchanged, comments included |
| CommentPatch.ArrayKeysArrays | packages/monorepo-lib/config-editor/src/recursivePatchCommentJson.ts:17-23 | while every array key meets an array in the document, `target` is never rebound and a key holding an array keeps holding one |
| CommentPatch.ArrayKeysSets | packages/monorepo-lib/config-editor/src/recursivePatchCommentJson.ts:17-58 | under the same condition, an array key ends up holding the reconciliation of the array it had, with the key's comment |
| CommentPatch.PatchArrayKey | packages/monorepo-lib/config-editor/src/recursivePatchCommentJson.ts:17-58 | after the whole patch, an array key meeting an array holds that array reconciled with the edit's, keeping the key's comment, and the patched document is what is returned |
| CommentPatch.PatchOneArrayKey | packages/monorepo-lib/config-editor/src/recursivePatchCommentJson.ts:17-72 | a one-key document holding an array, patched with an array under that key, returns the document with the reconciled array |
| CommentPatch.PatchInsertScenario | packages/monorepo-lib/config-editor/src/__tests__/recursivePatchCommentJson.test.ts:142-178 | the insertion test on the whole document: `{arr: [a, b, c]}` patched with `{arr: [d, a, b, b, c, f]}` keeps each comment on its element |
| CommentPatch.ArrayKeysRebinds | packages/monorepo-lib/config-editor/src/recursivePatchCommentJson.ts:21-23 | an array edit value under a key that holds no array rebinds `target` |
| CommentPatch.PatchReturnsEditArray | packages/monorepo-lib/config-editor/src/recursivePatchCommentJson.ts:21-23 | then the patch returns an array instead of the document |
| CommentPatch.PatchArrayOntoEmptyObject | packages/monorepo-lib/config-editor/src/__tests__/recursivePatchCommentJson.test.ts:332-351 | as written, `{}` patched with `{references: [...]}` returns the bare array, not the object the test expects |
| CommentPatch.ArrayKeyIntendedSets | packages/monorepo-lib/config-editor/src/recursivePatchCommentJson.ts:19-23 | with the intended assignment, an array key always ends up holding an array `isEqual` to the edit's array, keeping its comment |
| CommentPatch.ArrayOntoEmptyObjectIntended | packages/monorepo-lib/config-editor/src/__tests__/recursivePatchCommentJson.test.ts:332-351 | with the intended assignment, `{}` patched with `{references: [...]}` is that object |
| ConfigManagement.PackageConfigsManager.constructor | packages/monorepo-lib/config-editor/src/PackageConfigsManager.ts:10 | a manager for the given workspace |
| ConfigManagement.ConfigManager.constructor | packages/monorepo-lib/config-editor/src/ConfigManager.ts:5-9 | no manager yet |
| ConfigManagement.ConfigManager.GetManagerForPackageLike | packages/monorepo-lib/config-editor/src/ConfigManager.ts:11-26 | an existing manager for the ident hash is returned and nothing changes; otherwise a fresh manager for the workspace is stored under the hash and appended to the insertion order |
| ConfigManagement.SameHashSharesManager | packages/monorepo-lib/config-editor/src/ConfigManager.ts:11-26 | two workspaces with the same ident hash get the same manager, the first one's, and only one manager is added |
| ConfigManagement.ConfigManager.ChangeLists | packages/monorepo-lib/config-editor/src/ConfigManager.ts:29-33 | one change list per manager, in insertion order |
| ConfigManagement.ConfigManager.GenerateChangeset | packages/monorepo-lib/config-editor/src/ConfigManager.ts:28-35 | the changes are the managers' change sets concatenated in insertion order; a change is in it exactly when some manager produced it |
| ConfigManagement.Flatten | packages/monorepo-lib/config-editor/src/ConfigManager.ts:34 | `reduce((a, b) => a.concat(b), [])` starts with the first list |
| ConfigManagement.FlattenAppend | packages/monorepo-lib/config-editor/src/ConfigManager.ts:34 | flattening one more list appends it |
| ConfigManagement.FlattenMembers | packages/monorepo-lib/config-editor/src/ConfigManager.ts:34 | an element is in the flattening exactly when it is in one of the lists |
| ZiConfig.ExtraKeys | packages/zi/zi-config/src/ziConfig.ts:118-120 | the keys of the section that the defaults lack, in order, and nothing else |
| ZiConfig.QualifiedKeys | packages/zi/zi-config/src/ziConfig.ts:123-125 | each key named under the key path when there is one |
| ZiConfig.ValidateAndMerge | packages/zi/zi-config/src/ziConfig.ts:109-138 | a missing or falsy section gives the defaults; otherwise it fails exactly when the section has a key the defaults lack, with the source's message listing those keys; a success has the defaults' keys in order, each with the section's value when it has one |
| ZiConfig.StringSectionRefused | packages/zi/zi-config/src/ziConfig.ts:118-127 | a non-empty string section is refused when no default key starts with a digit, since its indices are extra keys |
| ZiConfig.SingleExtraKey | packages/zi/zi-config/src/ziConfig.ts:121-127 | a section with one unknown key fails, naming that key under the key path |
| ZiConfig.CleanupWith | packages/zi/zi-config/src/ziConfig.ts:140-156 | a value whose `typeof` is not `object` fails with `Config was not an object`; `null` fails reading `entry`; otherwise it is the pair of merged sections, and it succeeds exactly when both merges do |
| ZiConfig.CleanupConfig | packages/zi/zi-config/src/ziConfig.ts:88-107 | the same, over the defaults `DEFAULT_CONFIG` |
| ZiConfig.MissingSectionsGiveDefaults | packages/zi/zi-config/src/ziConfig.ts:140-156 | an object with neither section gives the default sections |
| ZiConfig.EmptyConfigIsDefault | packages/zi/zi-config/src/ziConfig.ts:88-107 | `{}` is cleaned up to `DEFAULT_CONFIG` |
| ZiConfig.EntryExtraKeyReported | packages/zi/zi-config/src/ziConfig.ts:144-149 | an unknown entry key is reported as `entry.<key>`, before any closure error |
| ZiConfig.ClosureExtraKeyReported | packages/zi/zi-config/src/ziConfig.ts:150-154 | an unknown closure key is reported as `closureOptions.<key>` |
| IntendedConfig.LowerAll | packages/monorepo-lib/intended-config/src/intendedConfig.ts:36 | lower-casing keeps the length |
| IntendedConfig.Capitalized | packages/monorepo-lib/intended-config/src/intendedConfig.ts:37 | one capitalised word per word |
| IntendedConfig.KebabToCamel | packages/monorepo-lib/intended-config/src/intendedConfig.ts:33-39 | throws exactly when a word after the first is empty (`w[0]` of an empty word is `undefined`) |
| IntendedConfig.KebabToCamelFails | packages/monorepo-lib/intended-config/src/intendedConfig.ts:33-39 | that is exactly when some `-` is last or doubled |
| IntendedConfig.KebabToCamelReference | packages/monorepo-lib/intended-config/src/intendedConfig.ts:33-39 | a successful conversion equals an independent character-by-character reading: lower-case the first word, drop each `-` and upper-case the character after it |
| IntendedConfig.KebabToCamelNoDash | packages/monorepo-lib/intended-config/src/intendedConfig.ts:33-39 | a successful conversion holds no `-` |
| IntendedConfig.CamelRefNoDash | packages/monorepo-lib/intended-config/src/intendedConfig.ts:33-39 | the reference reading produces no `-` |
| IntendedConfig.TailCamel | packages/monorepo-lib/intended-config/src/intendedConfig.ts:37 | capitalising and joining the words after the first is the reference reading of the tail |
| IntendedConfig.WordCamel | packages/monorepo-lib/intended-config/src/intendedConfig.ts:36-37 | the reading maps each word and carries on after it |
| IntendedConfig.ChildInternalDependencies | packages/monorepo-lib/intended-config/src/intendedConfig.ts:72-83 | the internal packages, in order, whose name is a development import, and no others |
| IntendedConfig.ChildInternalIgnoresProgramImports | packages/monorepo-lib/intended-config/src/intendedConfig.ts:72-83 | the program imports make no difference, because both tests read the development imports |
| IntendedConfig.References | packages/monorepo-lib/intended-config/src/intendedConfig.ts:88-95 | one `{path}` object per internal dependency, in order, whose path is the package-relative path (`prsPath`, a function of the context) from that dependency's directory and the file name |
| IntendedConfig.BranchOf | packages/monorepo-lib/intended-config/src/intendedConfig.ts:143-313 | only the `esbp` branch adds development dependencies |
| IntendedConfig.Overrides | packages/monorepo-lib/intended-config/src/intendedConfig.ts:150-158 | the overrides have distinct keys: `scripts`, the extra scripts under the branch's build scripts, and for `esbp` also `devDependencies` |
| IntendedConfig.PackageJson | packages/monorepo-lib/intended-config/src/intendedConfig.ts:150-158 | the `scripts` key holds the extra scripts overridden by the branch's build scripts, and when the base has both overridden keys the base's keys are kept in order |
| IntendedConfig.ScriptsFixedWin | packages/monorepo-lib/intended-config/src/intendedConfig.ts:151-158 | a build script of the branch always wins; any other extra script is kept as given |
| IntendedConfig.BranchScriptsDistinct | packages/monorepo-lib/intended-config/src/intendedConfig.ts:282-289 | neither branch names a build script twice |
| IntendedConfig.PackageJsonDevDependencies | packages/monorepo-lib/intended-config/src/intendedConfig.ts:290-294 | the `esbp` branch adds `esbp` and `esbuild` to the base development dependencies; the bootstrap branch keeps them; every key other than `scripts` and `devDependencies` is the base's |
| IntendedConfig.BasePackageJson | packages/monorepo-lib/intended-config/src/intendedConfig.ts:104-141 | the base `package.json` holds both keys the branches override, and its `main`, `module`, `types` and `input` are named after the camel-case package name |
| IntendedConfig.EntryPointsGet | packages/monorepo-lib/intended-config/src/intendedConfig.ts:116-119 | `main`, `module`, `types` and `input` are named after the camel-case package name |
| IntendedConfig.BootstrapContents | packages/monorepo-lib/intended-config/src/intendedConfig.ts:147-272 | five files, the first being `package.json` |
| IntendedConfig.EsbpContents | packages/monorepo-lib/intended-config/src/intendedConfig.ts:278-312 | two files, the first being `package.json` |
| IntendedConfig.Files | packages/monorepo-lib/intended-config/src/intendedConfig.ts:147-148 | each file name joined to the package directory, paired with its contents |
| IntendedConfig.IntendedFiles | packages/monorepo-lib/intended-config/src/intendedConfig.ts:47-314 | nothing is produced exactly when the package name has no camel-case form; otherwise a bootstrap package gets five files and any other two, under its own directory, the first being the base `package.json` with the branch's overrides |
| IntendedConfig.BranchFiles | packages/monorepo-lib/intended-config/src/intendedConfig.ts:143-313 | a branch writes one file per name of its list, each under the package directory, the first being the `package.json` it was given |
| FindImports.SimplifyModuleSpecifier | packages/monorepo-lib/find-package-imports/src/findPackageImports.ts:16-23 | `null` exactly for a relative specifier (also `fixPackageImports.ts:19-26`, the same code) |
| FindImports.PackageNameEnd | packages/monorepo-lib/find-package-imports/src/findPackageImports.ts:20-22 | where the package name ends lies inside the specifier |
| FindImports.SimplifiedIsPrefix | packages/monorepo-lib/find-package-imports/src/findPackageImports.ts:16-23 | the simplified specifier is the specifier cut at the end of its package name |
| FindImports.SimplifyIdempotent | packages/monorepo-lib/find-package-imports/src/findPackageImports.ts:16-23 | a package name is its own simplification |
| FindImports.ScopedNameEnd | packages/monorepo-lib/find-package-imports/src/findPackageImports.ts:20-21 | the package name of a scoped specifier ends where that name ends |
| FindImports.RelativeSpecifier | packages/monorepo-lib/find-package-imports/src/findPackageImports.ts:17-19 | `./util/x` names no package |
| FindImports.ScopedAndUnscopedSpecifiers | packages/monorepo-lib/find-package-imports/src/findPackageImports.ts:20-22 | `@s/p/x` names `@s/p`, and `p/x` names `p` |
| FindImports.JsSlice | packages/monorepo-lib/find-package-imports/src/findPackageImports.ts:30-33 | JavaScript `slice` never lengthens the text |
| FindImports.SpecifierTextIsSlice | packages/monorepo-lib/find-package-imports/src/findPackageImports.ts:27-33 | the specifier text is `slice(2, length - 1)` of the full literal text |
| FindImports.ImportName | packages/monorepo-lib/find-package-imports/src/findPackageImports.ts:26-37 | a recorded import name is never empty |
| FindImports.RecursiveFindImports | packages/monorepo-lib/find-package-imports/src/findPackageImports.ts:25-50 | visiting a tree computes `AddImports` on the given set |
| FindImports.AddImportsUnion | packages/monorepo-lib/find-package-imports/src/findPackageImports.ts:25-50 | visiting a tree adds exactly its names and keeps what was there |
| FindImports.AddChildrenUnion | packages/monorepo-lib/find-package-imports/src/findPackageImports.ts:49 | visiting the children adds exactly their names |
| FindImports.ImportsAreNamed | packages/monorepo-lib/find-package-imports/src/findPackageImports.ts:25-50 | no recorded name is empty or relative |
| FindImports.ChildImportsAreNamed | packages/monorepo-lib/find-package-imports/src/findPackageImports.ts:49 | the same for the children |
| FindImports.ContainsFirst | packages/monorepo-lib/find-package-imports/src/findPackageImports.ts:86-89 | a text that includes `sub` holds its first character |
| FindImports.ScanFilesMembers | packages/monorepo-lib/find-package-imports/src/findPackageImports.ts:71-95 | a name is a program import exactly when a non-test file records it, and a development import exactly when a test file records it (or it was there) |
| FindImports.FindPackageImports | packages/monorepo-lib/find-package-imports/src/findPackageImports.ts:62-98 | the two sets are the scan of every file, starting from `{}` and `{typescript, eslint, prettier}` |
| FindImports.TestPathExamples | packages/monorepo-lib/find-package-imports/src/findPackageImports.ts:86-89 | `a/__tests__/b.ts` is a test file and `src/b.ts` is not |
| FixImports.Filter | packages/devtool/fix-package-imports/src/fixPackageImports.ts:239-246 | the references kept are exactly those whose membership in the internal map matches the flag |
| FixImports.AddInternalReferences | packages/devtool/fix-package-imports/src/fixPackageImports.ts:253-290 | the first loop computes `AddAllInternal` |
| FixImports.AddAllInternalFails | packages/devtool/fix-package-imports/src/fixPackageImports.ts:274-288 | the first loop throws exactly when `devDependencies` is absent and some internal reference is not a program import |
| FixImports.AddAllInternalEntries | packages/devtool/fix-package-imports/src/fixPackageImports.ts:253-290 | no declared entry is lost, and every new entry is an internal reference with range `workspace:*` |
| FixImports.AddAllInternalPresent | packages/devtool/fix-package-imports/src/fixPackageImports.ts:253-290 | afterwards every program reference is a dependency and every other one a development dependency |
| FixImports.AddAllInternalFlag | packages/devtool/fix-package-imports/src/fixPackageImports.ts:253-290 | the flag is raised exactly when some reference was missing from its object |
| FixImports.DevOnlyImportThrows | packages/devtool/fix-package-imports/src/fixPackageImports.ts:281-286 | as written, a manifest without dependency objects and a development-only internal import make the first loop throw |
| FixImports.AddAllIntendedKeeps | packages/devtool/fix-package-imports/src/fixPackageImports.ts:253-290 | the intended first loop never removes a declared name |
| FixImports.AddAllIntendedDeclares | packages/devtool/fix-package-imports/src/fixPackageImports.ts:274-288 | the intended first loop declares each program reference as a dependency and each other one as a development dependency, whatever objects the manifest had |
| FixImports.RemoveDanglingReferences | packages/devtool/fix-package-imports/src/fixPackageImports.ts:292-307 | the second loop computes `RemoveDangling` |
| FixImports.PruneFails | packages/devtool/fix-package-imports/src/fixPackageImports.ts:292-296 | the second loop throws exactly when some declared range is not a string |
| FixImports.PruneKeeps | packages/devtool/fix-package-imports/src/fixPackageImports.ts:292-307 | an entry survives exactly when it is not a `workspace` range missing from the internal references; the flag is raised exactly when one was dropped |
| FixImports.MissingInstalls | packages/devtool/fix-package-imports/src/fixPackageImports.ts:309-332 | the third loop computes `Missing` |
| FixImports.MissingMembers | packages/devtool/fix-package-imports/src/fixPackageImports.ts:309-332 | an install is requested exactly for an undeclared non-builtin program import; a development install for its `@types` package or for an undeclared development-only import |
| FixImports.ExtraImports | packages/devtool/fix-package-imports/src/fixPackageImports.ts:334-350 | the fourth loop computes the declared names less the imports, their `@types` packages and `@types/node` |
| FixImports.UnimportedMembers | packages/devtool/fix-package-imports/src/fixPackageImports.ts:342-349 | a name survives exactly when it was declared and is neither an import nor an import's `@types` package |
| FixImports.UnimportedExcludes | packages/devtool/fix-package-imports/src/fixPackageImports.ts:342-349 | what is left is part of the declared names, and no import is left in it |
| FixImports.UpdatePackageJsonReferences | packages/devtool/fix-package-imports/src/fixPackageImports.ts:233-350 | the four loops in order compute `UpdateReferences` |
| FixImports.UpdateReferences | packages/devtool/fix-package-imports/src/fixPackageImports.ts:233-350 | the extra imports reported are names the updated manifest declares, none of them imported, and never `@types/node` |
| FixImports.UpdateReferencesFails | packages/devtool/fix-package-imports/src/fixPackageImports.ts:233-350 | it throws exactly when a development-only internal import meets an absent `devDependencies`, or a declared range is not a string |
| FixImports.UpdateReferencesDeclares | packages/devtool/fix-package-imports/src/fixPackageImports.ts:253-307 | afterwards internal imports are declared, no dangling `workspace` dependency remains, and every other dependency is kept |
| FixImports.UpdateReferencesFlag | packages/devtool/fix-package-imports/src/fixPackageImports.ts:252-307 | `needsUpdate` is raised exactly when a reference was added or a dangling one removed |
| FixImports.UpdateReferencesReports | packages/devtool/fix-package-imports/src/fixPackageImports.ts:309-350 | the install sets and the unimported set, member by member, in terms of the updated manifest |
| InternalDevDeps.InternalHashes | packages/monorepo-lib/list-internal-devdependencies/src/listInternalDevdependencies.ts:14-22 | the ident hashes of the named children, and no others |
| InternalDevDeps.AddDevDependencies | packages/monorepo-lib/list-internal-devdependencies/src/listInternalDevdependencies.ts:45-56 | adds the internal `workspace:` development dependencies of one workspace |
| InternalDevDeps.Survey | packages/monorepo-lib/list-internal-devdependencies/src/listInternalDevdependencies.ts:32-57 | throws exactly when some workspace has no name, with the message for the first one; otherwise the ident map and the seeds |
| InternalDevDeps.IndexFromKeys | packages/monorepo-lib/list-internal-devdependencies/src/listInternalDevdependencies.ts:40-43 | the ident map's keys are the names of the workspaces |
| InternalDevDeps.IndexFromOutside | packages/monorepo-lib/list-internal-devdependencies/src/listInternalDevdependencies.ts:40-43 | a name no workspace carries keeps its entry |
| InternalDevDeps.IndexFromLast | packages/monorepo-lib/list-internal-devdependencies/src/listInternalDevdependencies.ts:40-43 | under each name the map holds the last workspace carrying it |
| InternalDevDeps.AddSeedsMembers | packages/monorepo-lib/list-internal-devdependencies/src/listInternalDevdependencies.ts:45-56 | a seed of one workspace is an internal development dependency with a `workspace:` range |
| InternalDevDeps.AddAllSeedsMembers | packages/monorepo-lib/list-internal-devdependencies/src/listInternalDevdependencies.ts:32-57 | the seeds are exactly the internal `workspace:` development dependencies of any workspace |
| InternalDevDeps.ReachableLeast | packages/monorepo-lib/list-internal-devdependencies/src/listInternalDevdependencies.ts:59-76 | the reachable set lies in every closed set holding the seeds |
| InternalDevDeps.ReachableClosed | packages/monorepo-lib/list-internal-devdependencies/src/listInternalDevdependencies.ts:59-76 | the seeds are reachable and the reachable set is closed under dependencies |
| InternalDevDeps.Enumerate | packages/monorepo-lib/list-internal-devdependencies/src/listInternalDevdependencies.ts:61 | `[...set]`: every element once |
| InternalDevDeps.ExpandDependencies | packages/monorepo-lib/list-internal-devdependencies/src/listInternalDevdependencies.ts:68-74 | every dependency of the popped workspace is seen afterwards; newly seen ones are pushed once |
| InternalDevDeps.Walk | packages/monorepo-lib/list-internal-devdependencies/src/listInternalDevdependencies.ts:59-76 | the walk ends with exactly the ident hashes reachable from the seeds |
| InternalDevDeps.Keep | packages/monorepo-lib/list-internal-devdependencies/src/listInternalDevdependencies.ts:78-82 | the children, in order, whose ident hash is in the set, and no others |
| InternalDevDeps.ListInternalDevDependencies | packages/monorepo-lib/list-internal-devdependencies/src/listInternalDevdependencies.ts:11-83 | throws exactly when a child or the root has no name, with the first one's message; otherwise the children whose hash is reachable from the seeds |
| InternalDevDeps.ListedSeeded | packages/monorepo-lib/list-internal-devdependencies/src/listInternalDevdependencies.ts:11-83 | a child named by an internal `workspace:` development dependency of any workspace is listed |
| ExternalDeps.BuiltinEntries | packages/monorepo-lib/collect-external-dependencies/src/collectExternalDependencies.ts:33 | one `[name, null]` entry per builtin module |
| ExternalDeps.RecordEntries | packages/monorepo-lib/collect-external-dependencies/src/collectExternalDependencies.ts:10-26 | the inner loop computes `RecordAll` |
| ExternalDeps.CollectAllExternalDependencies | packages/monorepo-lib/collect-external-dependencies/src/collectExternalDependencies.ts:5-35 | the result is `Object.fromEntries` of the recorded versions followed by the builtins |
| ExternalDeps.RecordAllStep | packages/monorepo-lib/collect-external-dependencies/src/collectExternalDependencies.ts:10-26 | recording from one descriptor on is recording it, then the rest |
| ExternalDeps.RecordWorkspacesVisited | packages/monorepo-lib/collect-external-dependencies/src/collectExternalDependencies.ts:9-13 | the outer loop visits each workspace's development dependencies, then its dependencies, in order |
| ExternalDeps.RecordAllAppend | packages/monorepo-lib/collect-external-dependencies/src/collectExternalDependencies.ts:9-27 | recording two lists is recording one after the other |
| ExternalDeps.RecordAllKeys | packages/monorepo-lib/collect-external-dependencies/src/collectExternalDependencies.ts:14-25 | the recorded names are exactly those of descriptors without a `workspace:` range |
| ExternalDeps.RecordAllDistinct | packages/monorepo-lib/collect-external-dependencies/src/collectExternalDependencies.ts:18-24 | the map keeps its names distinct |
| ExternalDeps.KeyRanges | packages/monorepo-lib/collect-external-dependencies/src/collectExternalDependencies.ts:14-20 | the ranges recorded under a name come from descriptors of that name |
| ExternalDeps.RecordHoldsRanges | packages/monorepo-lib/collect-external-dependencies/src/collectExternalDependencies.ts:17-24 | every value the map holds is a range |
| ExternalDeps.RecordAllHeld | packages/monorepo-lib/collect-external-dependencies/src/collectExternalDependencies.ts:9-27 | what the map holds for one name follows the single-name fold over that name's ranges |
| ExternalDeps.KeepGreatestNone | packages/monorepo-lib/collect-external-dependencies/src/collectExternalDependencies.ts:19-24 | a name holds nothing only when nothing was held and no range was visited |
| ExternalDeps.KeepGreatestIsGreatest | packages/monorepo-lib/collect-external-dependencies/src/collectExternalDependencies.ts:19-24 | under a strict weak order, the range kept is not less than any visited range |
| ExternalDeps.KeepGreatestIsFirst | packages/monorepo-lib/collect-external-dependencies/src/collectExternalDependencies.ts:19-24 | the range kept is the one held or a visited range greater than it and than every range visited before it |
| ExternalDeps.Collected | packages/monorepo-lib/collect-external-dependencies/src/collectExternalDependencies.ts:5-35 | the result names each builtin (as `null`) and each visited non-workspace dependency; any other name holds the greatest of its ranges |
| ExternalDeps.FromDistinctEntries | packages/monorepo-lib/collect-external-dependencies/src/collectExternalDependencies.ts:29-34 | `Object.fromEntries` of entries with distinct keys looks each key up as the entries do |
| Esbp.DefaultBuildInfo | packages/devtool/esbp/src/esbp.ts:32-39 | sources and outputs under `./src`, the input globs `**/src/**/*.ts` then `**/src/**/*.tsx`, nothing built |
| Esbp.Loader | packages/devtool/esbp/src/esbp.ts:162-179 | a known extension gets its loader, any other `file` |
| Esbp.LoaderNames | packages/devtool/esbp/src/esbp.ts:162-179 | every loader but `txt`'s is named like its extension; `txt` gets `text`; no extension gets `file` |
| Esbp.MessageLines | packages/devtool/esbp/src/esbp.ts:269-276 | for messages that all have a location, one formatted line per message, in order |
| Esbp.FormatEsbuildError | packages/devtool/esbp/src/esbp.ts:266-290 | it throws exactly when a present list holds a message with a `null` location; otherwise the blocks, errors then warnings, each present list giving one, joined by line breaks |
| Esbp.FormatMessageOneLine | packages/devtool/esbp/src/esbp.ts:273-274 | a message with a location, whose parts have no line break, formats to one line |
| Esbp.BlockSplit | packages/devtool/esbp/src/esbp.ts:269-277 | one block splits back into its message lines |
| Esbp.FormattedLines | packages/devtool/esbp/src/esbp.ts:266-290 | when every message has a location, the formatted text splits back into the error lines followed by the warning lines |
| Esbp.BothBlocks | packages/devtool/esbp/src/esbp.ts:266-290 | the same when both lists are present |
| Esbp.SplitTwoBlocks | packages/devtool/esbp/src/esbp.ts:289 | joining two blocks and splitting gives both blocks' lines |
| Esbp.JoinBlockLines | packages/devtool/esbp/src/esbp.ts:269-277 | the lines of a block join to the block |
| Esbp.LinesHaveNoBreak | packages/devtool/esbp/src/esbp.ts:266-290 | no line of the formatted error holds a line break |

## Left out

- File system, glob, `yarn`, spawning processes and logging. Reading or writing `package.json`, `.ziconfig` and source files, and console output, are not modelled; the models take and return the values read or written.
- Concurrency. `Promise.all` and `runWithConcurrentLimit` run callbacks in an unspecified order. The import scan uses sets, whose result does not depend on the order. The change sets are concatenated in manager insertion order.
- `JSON.parse` and `JSON.stringify`. `JSON.parse` is a function parameter, and the round trips assume it inverts `Stringify`. Numbers are integers only. `undefined` and function values are not modelled.
- `toLocaleLowerCase` and `toUpperCase` are modelled on ASCII letters only.
- Path functions are parameters or plain concatenation: `npath.fromPortablePath`, `ppath.join`, `ppath.relative` and `slash`.
- `Object.keys` ordering: an object's keys are kept in insertion order. The integer-like keys that JavaScript lists first are not reordered.
- `compareSemverRange` and `builtin-modules` are parameters: a comparator, and a list of names.
- The ident hash of a workspace is modelled as the name's hash string. Yarn's `Descriptor` and `Manifest` objects are reduced to the fields read.
- `tryLookAheadRequiredLength` is imported by `streamZiClosure.ts` from a file that is not part of this model. It is a parameter. The full-delivery property assumes it never knows a length.
- `TextDecoder`: chunks arrive already decoded as text. A multibyte character split between chunks is not modelled.
- `comment-json`. Comments are an annotation on object members and array elements. `CommentJson.assign` on a non-object target is modelled as a thrown error. Named properties set on an array after `target` is rebound are invisible.
- The order of the frontier in `listInternalDevDependencies` is left open (`Enumerate` returns some order). The walk's result set does not depend on it.
- Where `fixPackageImports` creates a missing `dependencies` object, the new key is placed last in the manifest.
- Values of `dependencies` that are truthy but not objects are not modelled; the manifest's two objects are optional objects.
- `ExternalDeps.KeepGreatestIsGreatest`: requires a strict weak order and non-empty ranges. `compareSemverRange` is not part of this model, and an empty range is falsy in the source.
- `ExternalDeps.KeepGreatestIsFirst`: the same two requirements, for the same reasons.
- `Serialization.NumberAt`: only a non-empty span of decimal digits reads as a number. JavaScript's `Number` also converts blank spans, a sign, a fraction, an exponent and `0x`/`0o`/`0b` literals, so `accumulateNumber(" :", 0)` gives `[0, 1]` in the source and no number here. The frames `serialize` writes only ever hold decimal digits there.
- `Serialization.AccumulateNumber`: the same restriction, since it is proved equal to `NumberAt`.
- `Serialization.TryGetEntry`: lengths and offsets count characters (Unicode scalar values), where JavaScript counts UTF-16 code units. The two agree on text with no character outside the Basic Multilingual Plane; on other text the source's offsets differ.
- `Serialization.Serialize`: the length prefixes it writes count characters too, for the same reason.
- `StreamClosure.Compact`: the soft maximum of the accumulation buffer is compared with a length in characters, not UTF-16 code units.
- The caller of `formatEsbuildError` in `esbp.ts`, which catches a failed transform and collects the formatted text for the error report, is not part of this model. A `TypeError` thrown while formatting escapes that catch; here it is the `Failure` result of `Esbp.FormatEsbuildError`.
- The command-line entry points, `PackageConfigsManager.generateChangeset`, lodash `merge` and the `Change` type are not part of this model. `GenerateChangeset` takes each manager's change set as a function.

## Findings

| source | as written | input that shows it | evidently intended | confidence | as-written member | corrected member |
|---|---|---|---|---|---|---|
| packages/monorepo-lib/config-editor/src/recursivePatchCommentJson.ts:30-37 | after an exhausted-array branch the loop falls through into the comparison at line 37 instead of continuing | old `[a]`, edit `[a, x, y]` gives `[a, x]` | each branch ends the turn, and the result's plain value is `isEqual` to the edit | not executed | CommentPatch.ReconcileDropsTail | CommentPatch.ReconcileIntendedMatchesEdit |
| packages/monorepo-lib/config-editor/src/recursivePatchCommentJson.ts:52-56 | deleting an old element also advances the edit cursor | old `[x]`, edit `[y]` gives `[]` | a deletion keeps the edit cursor, so `y` is inserted | not executed | CommentPatch.ReconcileLosesReplacement | CommentPatch.ReconcileIntendedMatchesEdit |
| packages/monorepo-lib/config-editor/src/recursivePatchCommentJson.ts:21-23 | a key without an array rebinds `target` to the edit's array, and that array is returned | `{}` patched with `{references: [...]}` returns the bare array | `target[k] = edit[k]` | not executed | CommentPatch.PatchArrayOntoEmptyObject | CommentPatch.ArrayOntoEmptyObjectIntended |
| packages/devtool/fix-package-imports/src/fixPackageImports.ts:281-286 | a missing `dependencies` object is created, then `devDependencies` is written to | a manifest without `devDependencies` and a development-only internal import throws a `TypeError` | create the missing `devDependencies` object | not executed | FixImports.DevOnlyImportThrows | FixImports.AddAllIntendedDeclares |
