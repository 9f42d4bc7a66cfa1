# npm-packager: the dependency walk, verified

`packageDependencies.ts` asks npm for the production dependency tree of a
project as JSON, walks that tree, and runs `npm pack` once per scheduled
package into `./packed`, printing a spinner while it walks, one line per
successful pack and two per failed one. This project models, in Dafny, everything in that script that
is not a call into npm, the file system or the terminal:

- `Deps` (`dependencies.dfy`): the tree (`Dependency`, `Dependencies`,
  `Output`) and `getDependencies`, which aborts with "No dependencies found"
  when the listing has no top-level mapping. A mapping is a sequence of
  `(name, Dependency)` pairs in key-enumeration order, because the walk's
  output depends on that order.
- `Format` (`format.dfy`): the `npm pack` specifier (`name` or
  `name@version`), the success line (`> [index]: name[:version]`), the
  decimal rendering of the index, and `countDependencies`'s
  `output.split("\n").length`, with readers for each so that what they print
  can be stated as a round trip.
- `TreeWalk` (`walk.dfy`): the walk of `promiseToPack` as a function of the
  tree and the packed set: the targets it schedules in order, the packed set
  it leaves, and the number of keys it visits (one spinner step each).
- `Packer` (`packer.dfy`): the `Walker` class holding the state
  `promiseToPack` closes over (`promises`, `index`, `packedDependencies`),
  its loop as methods proved against `TreeWalk`, the run
  `packAllDependencies` without its I/O, and what the run reports.
- `Scenarios` (`scenarios.dfy`): small concrete trees.

The walk is modelled both as written and as evidently intended (see
Findings). `Walker.PromiseToPack` takes a flag `record`: `false` is the
source's loop, `true` adds each name to the packed set before scheduling its
pack. The run, `PackAllDependencies`, uses the loop as written.

The walker keeps a set named `packedDependencies` and tests it with `has`
before every push (`packageDependencies.ts:89`), which only makes sense if each
name is to be packed once. Nothing is ever added to that set, so no entry is
skipped and every entry is packed, once per occurrence. The model follows the
code, and models the evident fix separately. The fixed walk does not pack
every distinct name either: once a name is recorded, a later occurrence of it
is skipped together with its whole subtree, so a name that occurs only there
is never packed (`Scenarios.RecordingSkipsShadowedChild`).

## Model

| member | source | states |
|---|---|---|
| Deps.GetDependencies | packageDependencies.ts:38-45 | fails with "No dependencies found" exactly when the listing has no `dependencies` mapping, and otherwise returns that mapping unchanged |
| Deps.NamesAtMostEntries | packageDependencies.ts:5-14 | a tree has no more distinct package names than entries |
| Format.FalsyVersionIsDropped | packageDependencies.ts:64-69 | the pack specifier is the bare name exactly when the version is falsy in JavaScript (absent or the empty string), and an empty version gives the same success line as an absent one |
| Format.PackCommandRoundTrip | packageDependencies.ts:63-67 | the pack command is `npm pack `, then the specifier, then ` --pack-destination ./packed`; the part between them splits back into the name and the shown version |
| Format.SpecifierRoundTrip | packageDependencies.ts:63-67 | the pack specifier is `name` when the version is absent or empty and `name@version` otherwise: splitting it at its last `@` (past a scope's leading `@`) gives back the name and the shown version |
| Format.QualifiedRoundTrip | packageDependencies.ts:64-69 | a name joined to a truthy version by a separator the name does not contain splits back into both; an absent or empty version leaves the name alone |
| Format.SuccessLineHeader | packageDependencies.ts:69 | the `> [index]: ` header of a success line reads back as the index, followed by the rest of the line |
| Format.SuccessLineRoundTrip | packageDependencies.ts:69 | the success line is `> [index]: name` when the version is absent or empty and `> [index]: name:version` otherwise, with `:` as the separator: reading it back gives the index, the name and the shown version |
| Format.DecimalRoundTrip | packageDependencies.ts:69 | the decimal rendering of an index reads back as that index |
| Format.Split | packageDependencies.ts:35 | `split("\n")` yields at least one piece, and no piece contains the separator |
| Format.SplitJoin | packageDependencies.ts:35 | joining the pieces with the separator gives back the split text |
| Format.LineCountIsNewlinesPlusOne | packageDependencies.ts:33-36 | the count of lines is the number of `\n` characters plus one, so it is at least one |
| Format.TrailingNewlineCounts | packageDependencies.ts:35 | a trailing newline adds one to the count |
| TreeWalk.Apply | packageDependencies.ts:84-95 | after any walk the spinner position is in 0..3 |
| TreeWalk.ApplyThen | packageDependencies.ts:82-104 | scheduling one walk's packs and then another's numbers, advances and records exactly as the combined walk |
| TreeWalk.NumberedAppend | packageDependencies.ts:95 | numbering tasks by `promises.length + 1` at push time numbers a sequence of pushes consecutively, however it is split |
| TreeWalk.WalkKeepsPacked | packageDependencies.ts:79-89 | the walk as written leaves the packed set unchanged, and schedules at most one pack per visited key |
| TreeWalk.WalkPacksEveryEntry | packageDependencies.ts:82-104 | from the empty packed set the walk as written schedules one pack per entry of the tree, every occurrence of a repeated name counted, and visits every entry once |
| TreeWalk.WalkPrefixIsPrefix | packageDependencies.ts:83-103 | the packs of the first keys of a mapping come first, in key order |
| TreeWalk.WalkIsPreOrder | packageDependencies.ts:83-101 | each key's block of packs follows the blocks of the keys before it, and an unpacked key's block starts with its own pack (then its `dependencies` subtree, then its `optionalDependencies` subtree) |
| TreeWalk.Recording | packageDependencies.ts:89-95 | with names recorded before pushing, no name is scheduled twice, none that was already packed is scheduled, the packed set grows by exactly the scheduled names, and all of them occur in the tree |
| TreeWalk.RecordingCounts | packageDependencies.ts:79-95 | from the empty set the recording walk schedules one pack per name it records, at most the number of distinct names, which is at most the number of entries the walk as written schedules |
| Packer.Walker.constructor | packageDependencies.ts:77-80 | the walk starts with no scheduled packs, the spinner at 0 and an empty packed set |
| Packer.Walker.PromiseToPack | packageDependencies.ts:82-104 | the new scheduled packs, spinner position and packed set are those of the walk of the mapping from the old state: the packs appended in pre-order with indices continuing from the old count, the spinner advanced by one per visited key mod 4 |
| Packer.Walker.Visit | packageDependencies.ts:83-102 | one turn of the loop: the spinner advances, and unless the name is packed its pack is scheduled, then its `dependencies` and `optionalDependencies` are walked |
| Packer.Walker.PromiseToPackOptional | packageDependencies.ts:96-101 | an absent sub-mapping changes nothing; a present one is walked |
| Packer.PackAllDependencies | packageDependencies.ts:76-121 | given the parsed listing, the run aborts with "No dependencies found" exactly when it has no mapping; otherwise it schedules the walk's packs numbered 1..n, n being the number of entries of the tree |
| Packer.PackLogReportsTask | packageDependencies.ts:57-74 | a successful pack of a name without `:` logs one line that reads back as its index, name and shown version; a failed pack logs two lines, the first ending with the name, and neither reads as a success line |
| Packer.SuccessCountBound | packageDependencies.ts:70-73 | the number of successful packs is at most the number attempted, and equal to it exactly when none failed |
| Packer.ReportCountsAttempts | packageDependencies.ts:119-121 | the closing line reports the number of attempts, which matches the number of successes exactly when no pack failed |
| Scenarios.NestedTreeTargets | packageDependencies.ts:82-104 | the walk of `{A@1.0: {B@2.0}, C@3.0}` visits A, then its child B, then C |
| Scenarios.NestedTreeOrder | packageDependencies.ts:82-104 | for `{A@1.0: {B@2.0}, C@3.0}` the packs are A, B, C with indices 1, 2, 3 |
| Scenarios.RepeatedNamePackedTwice | packageDependencies.ts:89 | a name at the top level and under another key is packed twice by the walk as written |
| Scenarios.RepeatedNamePackedOnceWhenRecorded | packageDependencies.ts:89 | the same tree gives one pack per name when names are recorded |
| Scenarios.ShadowedChildOccurs | packageDependencies.ts:5-14 | C occurs in the tree `{A, B: {A: {C}}}` |
| Scenarios.RecordingSkipsShadowedChild | packageDependencies.ts:89-101 | with names recorded, C in that tree is never packed, because the second A's subtree is skipped |
| Scenarios.TwoLinesCountThree | packageDependencies.ts:35 | the listing `"a\nb\n"` counts three lines |

## Findings

| source | as written | input that shows it | evidently intended | confidence | as-written member | corrected member |
|---|---|---|---|---|---|---|
| packageDependencies.ts:79-95 | `packedDependencies` is created and tested but never added to, so no entry is ever skipped and a repeated name is packed once per occurrence | `{A: {}, B: {dependencies: {A: {}}}}` schedules A, B, A | add each name to the set before scheduling its pack, so that each name is packed once | high for the defect, medium for the intended fix; not executed | Scenarios.RepeatedNamePackedTwice | TreeWalk.RecordingCounts |

The corrected walk is `Walker.PromiseToPack` with `record` set, whose
properties are `TreeWalk.Recording` and `TreeWalk.RecordingCounts`. The run
`PackAllDependencies` keeps the code's behaviour, so that the model of the
run stays faithful to what the script does.

## Left out

- `execCommand` and the `npm ls` / `npm pack` processes: foreign process calls. Their results are inputs: the parsed `Output`, the listing text given to `LineCount`, and a `PackOutcome` per pack.
- `JSON.parse`: a library call. The model starts from an already structured `Output`; a JSON `null` and an absent field are both `None`.
- `createFolder`: file-system I/O. The errors of the existence check and the removal are swallowed (`packageDependencies.ts:49-51`); a failing `mkdir` (`packageDependencies.ts:53`) aborts the run.
- Packer.PackAllDependencies: its "exactly when" is about the parsed `Output` only. A failing `npm ls` (either listing, rejected at `packageDependencies.ts:26`), a JSON parse error or a failing folder creation rejects the `Promise.all` at `packageDependencies.ts:108-112` and aborts the run before the walk; the model does not represent those aborts.
- `Promise.all`, awaiting, and the order in which pack log lines appear: the packs are descriptors in a sequence, not running processes.
- `process.stdout.write` and `console.*`: terminal output. Only the spinner position arithmetic and the strings are modelled; the glyph read at each step is checked to exist.
- The `resolved`, `integrity` and `requires` fields of a dependency: the walk never reads them.
- The line count's value is computed by the run and then discarded; the run model does not compute it. `LineCount` models the function on its own.
- JavaScript's `for ... in` puts integer-like keys first; the model takes the key order as given by the sequence.
- Decimal rendering covers non-negative integers only, as for the indices and counts printed; the number formats of larger or fractional JavaScript numbers are not modelled.
- Distinct keys within one mapping are not required: a JSON object's keys are distinct, and the walk treats each entry of the sequence alike either way.
- The line `Packing N dependencies. Please wait ...` (`packageDependencies.ts:117`): terminal output, printing the same `promises.length` as the closing line, which `Packer.ReportCountsAttempts` covers.
- Format.SpecifierRoundTrip: holds only for names with `@` at most as their first character and versions without `@`, as registry names and versions are; other strings do not split back uniquely.
- Format.PackCommandRoundTrip: holds only for names with `@` at most as their first character and versions without `@`, for the same reason.
- Format.SuccessLineRoundTrip: holds only for names without `:`, as registry names are.
- Packer.PackLogReportsTask: the success-line half is stated only for names without `:`; the failure half holds for every name.
