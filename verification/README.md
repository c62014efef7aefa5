# rust-data-processing: verification model

A Dafny 4.11 model of the hand-written algorithms of `rust-data-processing` and of the Python and
release tooling around it, with proofs of the properties they are there for. `dafny verify
dfyconfig.toml` checks the whole project.

## What is modelled

| file | models |
|---|---|
| `DataModel.dfy` | schemas, cells, rows, datasets (`src/types.rs`) |
| `JsonTree.dfy`, `Placeholders.dfy`, `SchemaRefs.dfy`, `PipelineSpec.dfy` | template resolution: `*_ref` expansion and `{{KEY}}` binding (`src/pipeline_spec.rs`) |
| `ParallelCallbacks.dfy` | Python callbacks run by a parallel engine with one shared error latch (`python-wrapper/src/lib.rs`) |
| `FeatureClosure.dfy` | the connector feature check (`scripts/check_jvm_full_features.py`) |
| `BuildLock.dfy`, `Prebuild.dfy` | the re-entrant build lock and the stamp-based rebuild loop (`integration_testing/scripts/common.py`) |
| `ArrowInterop.dfy`, `Utf8Steps.dfy` | Arrow round trip and UTF-8 column rewrites (`src/transform.rs`), the length filter (`src/export.rs`) |
| `PrivacySummary.dfy` | counts of changed cells (`src/privacy.rs`) |
| `Utf8Cut.dfy` | cutting text to a byte budget (`src/reports.rs`) |
| `VersionFiles.dfy`, `LockFiles.dfy`, `ReleaseBump.dfy` | version surgery on manifests and lock files (`scripts/release.py`) |
| `JsonLines.dfy`, `JsonlReader.dfy` | JSON Lines export and the Python reader of it (`src/export.rs`, `python-wrapper/rust_data_processing/__init__.py`) |
| `Bytes.dfy`, `PythonText.dfy` | bytes and hexadecimal digits; how the scripts look at a line of text |

Code that changes state is a class or a looping method, proved against a specification function;
the properties are lemmas about that function. The build lock is a state machine over the atomic
steps of any number of processes. A `&mut Value` is an exclusive borrow of an owned tree, so the two
template rewrites take the tree and hand it back.

## Where the code and its documentation differ

The model follows the code; each point below is proved.

- Placeholder binding makes one find-and-replace pass per binding in hash-map order. Among bindings
  whose braces all belong to `{{name}}` tokens, the order never matters to a template if and only if no
  replacement mentions another bound name, those bound to their own token aside. A literal `{` in the
  template, a stray `{` in a replacement or a `}` in a key can break this too, each by a concrete example.
- Binding leaves a bound token behind exactly where a document mentions a name whose replacement brings
  one along; replacements without an opening brace never do.
- A document resolves exactly when its references load and no object that is looked at lists
  `x_ref_ref` before `x_ref`. So it resolves whatever its key orders exactly when no object has both.
- The feature check reads only entries whose name matches `\w+`: `link-main` of
  `bindings/jvm-sys/Cargo.toml` is dropped, and what is reached through it alone is reported missing. A
  comment behind an entry's closing bracket leaves the entry open, so that it takes in quoted texts of
  the comments after it. The table is read as written exactly when neither happens. The check never
  passes wrongly exactly when entries take in only what they reach anyway, and never fails wrongly
  exactly when all names match.
- A second resolution is the identity, unless a doubled `x_ref_ref` was looked at: then it fails.
- `_integration_lock_holder_pid` is declared `int | None`, but a refused contender that looks between
  the holder's truncate and flush finds a blank file and dies of an `IndexError`.
- The failure flag rebuilds only the first connector in sorted order: its success clears the flag
  before the others are looked at.
- `truncate_utf8_by_bytes` promises at most `max_bytes`. With its marker, a result is within the
  budget exactly when nothing was cut; the kept text always is.
- The length filter drops cells that are neither text nor null, however short.
- A schema survives the Arrow round trip on all its data exactly when its field names are distinct.
- `get_version_cargo_package` gives up at the first other header after `[package]` while the writer
  goes on, so reading after writing works exactly when the replaced line stands in the first run.
- `run_bump` rolls nothing back: a failure leaves exactly the earlier stages written. A rerun for the
  same version completes exactly when nothing can fail any more and the changelog had not been reached:
  once its section stands there, as after a failure of cargo, the rerun is refused for good. The release
  as a whole cannot be rerun for that version at all: the guard before it refuses as soon as the root
  manifest is written.
- Change counts obey the triangle inequality, for all texts in the given places, exactly when the dataset
  in between has a text wherever both ends have one.
- Python's `splitlines` sees the same lines as a split at newlines exactly when no selected name or
  text holds U+0085, U+2028 or U+2029. `export_jsonl_records` then returns every row; otherwise it raises.

## Assumptions

- The engine calls a row's closure once, in any order and on any worker, and keeps results in row
  order; the callback is deterministic. `src/execution` is not part of this model.
- Hash-map order is arbitrary, and so is the key order of each JSON object in a document. Loading a
  schema is a finite map from paths to schemas.
- The OS file lock is exclusive and dies with its process. Each process uses the lock from one thread.
- No file changes during a prebuild run, distinct connectors have distinct stamps, and an idle second
  run also needs that no watched file is newer than the stamp a build leaves.
- Lines of manifests, lock files and feature tables are classified once, by the patterns the scripts
  match; versions are already normalised, so they hold no quote. Feature names are bare TOML keys, which
  are ASCII. On an entry's own lines only its last one ends in a bracket, and comments there quote nothing.
- The hop through a data frame between UTF-8 steps is the identity. SHA-256 is any function to 32
  bytes. `keep_left + keep_right` does not overflow.
- Floats are opaque, and how a finite one prints is a parameter. JSON objects keep insertion order, as
  the locked `serde_json` with `indexmap` does.

## Model

| member | source | states |
|---|---|---|
| `Placeholders.RenderTokenize` | src/pipeline_spec.rs:194-200 | reading a string as a template of plain characters and `{{name}}` tokens loses nothing: writing it out again gives the string |
| `Placeholders.TokenizeRender` | src/pipeline_spec.rs:194-200 | templates are unambiguous: every brace-free token list is what its text reads as |
| `Placeholders.ReplaceIsSubstitution` | src/pipeline_spec.rs:195-199 | one find-and-replace pass over a template's text substitutes exactly the tokens of that key, with no stray match inside or across other tokens |
| `Placeholders.PassesAreSimultaneous` | src/pipeline_spec.rs:195-200 | for a template and settled bindings, any passes in any order give the one simultaneous substitution of the keys visited |
| `Placeholders.UnsettledDisagree` | src/pipeline_spec.rs:195-200 | whenever a replacement mentions another bound name that is not bound to its own token, a template and two hash-map orders are found on which the results differ |
| `Placeholders.OrdersAgreeIff` | src/pipeline_spec.rs:195-200 | among bindings whose keys close no brace and whose replacements read as templates: no two hash-map orders tell any template apart if and only if the bindings are settled |
| `Placeholders.BracelessIsSettled` | src/pipeline_spec.rs:195-200 | replacements that open no brace are always settled |
| `Placeholders.LiteralBraceBreaksConfluence` | src/pipeline_spec.rs:195-200 | with a literal brace in the text, `{{{{A}}B}}`, the two binding orders disagree |
| `Placeholders.ReplacementBraceBreaksConfluence` | src/pipeline_spec.rs:195-200 | with a replacement that opens a brace, the order decides whether it is expanded again |
| `Placeholders.StrayBraceBreaksConfluence` | src/pipeline_spec.rs:195-200 | with a brace of its own in a replacement, two of them open a token, and the order decides |
| `Placeholders.KeyBraceBreaksConfluence` | src/pipeline_spec.rs:195-200 | with a key that closes a brace, the two orders disagree |
| `Placeholders.ExactlyUnboundTokensRemain` | src/pipeline_spec.rs:194-200 | the tokens left are exactly the unbound ones of the original, in their order, if and only if no inserted replacement has a token of its own |
| `Placeholders.TokensThatRemain` | src/pipeline_spec.rs:194-200 | the bound text is a template again; its tokens are the unbound ones and those the inserted replacements bring along, in order |
| `Placeholders.BindSameShape` | src/pipeline_spec.rs:201-212 | binding changes only the text of string leaves: same tree, same object keys, same other leaves |
| `Placeholders.ReplaceJoinsPieces` | src/pipeline_spec.rs:195-199 | a pass over any text, stray braces or not: it is cut at the leftmost occurrences, one after the other, and the pieces are put together again with the replacement |
| `Placeholders.BindMakes` | src/pipeline_spec.rs:189-215 | on any document: every string leaf is rewritten by one such pass for each key, in turn, and nothing else changes |
| `Placeholders.BindIsSimultaneous` | src/pipeline_spec.rs:189-215 | for every document of templates, settled bindings and every hash-map order, binding is the simultaneous substitution at every leaf |
| `Placeholders.DocumentsAgreeIff` | src/pipeline_spec.rs:189-215 | on whole documents too: no two hash-map orders bind any document of templates differently if and only if the bindings are settled |
| `Placeholders.BoundTokenLeftIff` | src/pipeline_spec.rs:188-215 | a bound document is a document of templates again, and a bound token is left in it exactly when it mentioned a name whose replacement brings one along |
| `Placeholders.NoBoundTokenLeft` | src/pipeline_spec.rs:188-215 | with replacements that open no brace, no leaf of the bound document mentions a bound token |
| `Placeholders.BindingIsIdle` | src/pipeline_spec.rs:188-215 | a document without bound tokens is left alone, so binding twice is binding once |
| `Placeholders.BindPlaceholders` | src/pipeline_spec.rs:189-215 | the recursive in-place rewrite, with its `contains` guard and loops, computes the leaf-wise passes in the given order |
| `SchemaRefs.EmbedInjective` | src/pipeline_spec.rs:166-171 | an embedded schema says everything: different schemas embed as different JSON |
| `SchemaRefs.EmbedReadsBack` | src/types.rs:10-48 | an embedded schema deserializes, by the four variant names and the three keys, to itself, and nothing else stands in it |
| `SchemaRefs.ExpandStep` | src/pipeline_spec.rs:153-172 | one iteration of the reference loop against the closed form of what was expanded before it, failures included |
| `SchemaRefs.ExpandInOrderExact` | src/pipeline_spec.rs:148-173 | for every key order, the loop succeeds exactly when all references load and no `x_ref_ref` precedes its `x_ref`; successful orders all end in the same object; a failure is some reference's own or that of an overwritten one |
| `SchemaRefs.EveryOrderSucceedsIffNoClash` | src/pipeline_spec.rs:148-173 | when all references load, every key order succeeds if and only if no object has both `x_ref` and `x_ref_ref`, and some order always succeeds |
| `SchemaRefs.SucceedsIff` | src/pipeline_spec.rs:142-186 | under given key orders of all its objects a document resolves exactly when it is resolvable and no object that is looked at lists `x_ref_ref` before `x_ref` |
| `SchemaRefs.EveryOrderResolvesIffNoClash` | src/pipeline_spec.rs:142-186 | a resolvable document resolves under all key orders of its objects if and only if none that is looked at has both `x_ref` and `x_ref_ref` |
| `SchemaRefs.ResolvedField` | src/pipeline_spec.rs:148-176 | key by key: what stands at a stripped key deserializes to the schema that its reference names, whatever stood there; an untouched key keeps its own resolved value, reference keys go |
| `SchemaRefs.ResolvedExpands` | src/pipeline_spec.rs:142-186 | at every depth: under `x` what deserializes to the schema at the path of `x_ref`, other keys with their own results, and nothing else |
| `SchemaRefs.ResolvingIsIdle` | src/pipeline_spec.rs:142-186 | a document without reference keys resolves to itself |
| `SchemaRefs.RefsLeftIffDoubled` | src/pipeline_spec.rs:142-186 | after a successful resolution a key ending in `_ref` is left anywhere exactly when a doubled one was looked at |
| `SchemaRefs.ResolvingTwice` | src/pipeline_spec.rs:142-186 | resolving again succeeds exactly when no doubled reference was looked at, and is then the identity |
| `SchemaRefs.UnresolvableIffFaulty` | src/pipeline_spec.rs:154-166 | a document cannot be resolved exactly when a reference that is looked at is no string or does not load |
| `SchemaRefs.ExpandRefs` | src/pipeline_spec.rs:148-173 | the in-place loop over the reference keys, in the order given, succeeds exactly when all load and none is inverted; each stripped key then holds what deserializes to the referenced schema and all other entries are as they were; every failure is accounted for |
| `SchemaRefs.ResolveChildren` | src/pipeline_spec.rs:174-176 | the loop over an object's values succeeds exactly when each surviving child does, and yields the resolved object or one of its failures; it ends because embedded schemas hold no references |
| `SchemaRefs.ResolveItems` | src/pipeline_spec.rs:178-182 | the loop over an array's items succeeds exactly when each of them does, and yields all of them resolved |
| `SchemaRefs.ResolveSchemaRefs` | src/pipeline_spec.rs:142-186 | for the document's own key orders: succeeds exactly when all references that are looked at load and none is met after its doubled one; the result is the one resolved document, with the referenced schemas to be read off it at every depth; every failure is accounted for |
| `PipelineSpec.BindKeepsResolvable` | src/pipeline_spec.rs:69-80 | binding neither makes a document resolvable nor stops it, if no reference path or loaded schema holds a bound placeholder |
| `PipelineSpec.ResolveBindCommute` | src/pipeline_spec.rs:69-80 | resolving then binding equals binding then resolving, in every binding order, under the same condition |
| `PipelineSpec.BindEmbed` | src/pipeline_spec.rs:69-80 | binding an embedded schema gives the embedding of the schema with bound field names: no type changes |
| `PipelineSpec.BoundExpands` | src/pipeline_spec.rs:69-80 | the bound resolution is the expansion of the document with the passes made over every text, for every document and any binding order |
| `PipelineSpec.BindKeepsInversion` | src/pipeline_spec.rs:69-80 | binding leaves the key order of every object, so it inverts no reference and sets none right |
| `PipelineSpec.BindKeepsSuccess` | src/pipeline_spec.rs:69-80 | under the document's own key orders, resolving the bound document succeeds exactly when resolving the document does |
| `PipelineSpec.ResolveDocument` | src/pipeline_spec.rs:69-94 | resolve-then-bind end to end: the exact condition of success by key order; at every depth the referenced schema deserializes from the result, its types untouched and its names bound; references left exactly when doubled, simultaneous substitution for settled bindings with bound tokens left exactly by echoes; and binding first succeeds exactly when this does, with the same document |
| `ParallelCallbacks.SequentialExact` | python-wrapper/src/lib.rs:1050-1058 | stopping at the first bad row: all values in row order exactly when no row is bad, else the error of the first bad row |
| `ParallelCallbacks.ConvertRow` | python-wrapper/src/lib.rs:1090-1094 | the cell loop of the mappers gives all cells or the first cell's error |
| `ParallelCallbacks.RunKeepsInv` | python-wrapper/src/lib.rs:538-566 | after every prefix of every interleaving: a set latch holds some failing row's error and stays set; a finished row has its own value, or the filler with the latch set |
| `ParallelCallbacks.EveryScheduleRefinesSequential` | python-wrapper/src/lib.rs:538-571 | every completed interleaving of latch test, call and latch set answers `Ok` exactly when the sequential run does, with the same results in order; an error is never lost and belongs to a failing row |
| `ParallelCallbacks.ServedSchedulesComplete` | python-wrapper/src/lib.rs:538-566 | any schedule that gives each row its three sections completes |
| `ParallelCallbacks.EveryFailureCanBeReported` | python-wrapper/src/lib.rs:550-566 | for each failing row some complete schedule reports that row's error, not only the first one's |
| `ParallelCallbacks.LastReportWins` | python-wrapper/src/lib.rs:543-565 | the error reported is that of the row that reported last, whatever stood in the latch |
| `ParallelCallbacks.AlwaysSequentialIff` | python-wrapper/src/lib.rs:538-571 | the parallel answer is the sequential one under every schedule, errors included, if and only if all failing rows fail with one error |
| `ParallelCallbacks.ParallelCall.TestLatch` | python-wrapper/src/lib.rs:539-541 | the latch test admits the row or finishes it with the filler, as one step of the machine |
| `ParallelCallbacks.ParallelCall.CallBack` | python-wrapper/src/lib.rs:542-565 | the call into Python finishes the row or leaves it about to report, without touching the latch |
| `ParallelCallbacks.ParallelCall.SetLatch` | python-wrapper/src/lib.rs:557-565 | reporting overwrites the latch with this row's error |
| `ParallelCallbacks.ParallelCall.RunSchedule` | python-wrapper/src/lib.rs:537-568 | the three sections, taken in any schedule, are a run of the machine |
| `DataModel.KeptArePicked` | python-wrapper/src/lib.rs:1050-1058 | the kept rows are those at exactly the flagged positions, in increasing order: none lost, added, repeated or moved |
| `ParallelCallbacks.ProcessingFilter` | python-wrapper/src/lib.rs:1044-1064 | the sequential filter, on the replies themselves: `Ok` exactly when every reply is a plain one, with exactly the rows whose reply was true, in order, under the same schema; else what the first other row complains of |
| `ParallelCallbacks.WordingOnlyChangesErrors` | python-wrapper/src/lib.rs:588-609 | the two mappers' different messages change which error is reported, never whether there is one, nor any result |
| `ParallelCallbacks.FilterParallel` | python-wrapper/src/lib.rs:526-573 | under every schedule: `Ok` exactly when every reply is a plain one, with the sequential filter's dataset, so the rows whose reply was true; otherwise what some row complains of |
| `ParallelCallbacks.MappedIsRectangular` | python-wrapper/src/lib.rs:1083-1100 | a mapped dataset has one cell per field in every row |
| `ParallelCallbacks.ProcessingMap` | python-wrapper/src/lib.rs:1066-1101 | the sequential mapper, on the replies themselves: each new row is the returned cells, in order, if every reply is a convertible list of the right length; else what the first other row complains of, down to the first bad cell |
| `ParallelCallbacks.MapParallel` | python-wrapper/src/lib.rs:575-649 | under every schedule: `Ok` exactly when every reply is such a list, with the sequential mapper's dataset; otherwise what some row complains of |
| `ParallelCallbacks.EngineNeverPanics` | python-wrapper/src/lib.rs:586-640 | whatever the schedule, every row handed to the engine, filler rows included, has the schema's width |
| `FeatureClosure.Search.Expand` | scripts/check_jvm_full_features.py:78-86 | the recursive search over one shared `seen` set terminates on cyclic tables; its new tokens are reached from its name and have all their dependencies seen |
| `FeatureClosure.ClosedHoldsReach` | scripts/check_jvm_full_features.py:78-86 | any set closed under dependencies contains all that its members reach |
| `FeatureClosure.ExpandFeature` | scripts/check_jvm_full_features.py:78-86 | from an empty set the search returns exactly the reachable tokens, leaves included |
| `FeatureClosure.CheckFeatureSet` | scripts/check_jvm_full_features.py:89-126 | passes exactly when the feature is defined and every required token is reachable; otherwise lists the unreachable ones in order |
| `FeatureClosure.ParseFeatures` | scripts/check_jvm_full_features.py:50-75 | the line loop with its early `break` computes the fold of the line machine over all lines |
| `FeatureClosure.SealedManifestRead` | scripts/check_jvm_full_features.py:50-75 | on a manifest without comments behind closing brackets, whatever surrounds the table and however items are spread over lines, the script reads exactly the entries with word names |
| `FeatureClosure.ManifestRead` | scripts/check_jvm_full_features.py:50-75 | off any manifest the script reads the word-named entries, each with the quoted texts it takes in from what follows, dropped entries included |
| `FeatureClosure.ReadEntry` | scripts/check_jvm_full_features.py:62-74 | entry by entry: its own items and the texts it takes in, and nothing under a name that is no word |
| `FeatureClosure.ManifestRoundTripIff` | scripts/check_jvm_full_features.py:50-75 | a table is read as it was written if and only if every entry has a word name and none is left open with quoted texts to follow |
| `FeatureClosure.CheckManifest` | scripts/check_jvm_full_features.py:101-125 | the check from the lines on: passes exactly when the table it reads covers the required tokens, else lists the unreachable ones in order |
| `FeatureClosure.CheckPassesIff` | scripts/check_jvm_full_features.py:101-125 | on any manifest, open entries included, the check passes exactly when the feature is there under a word name and every required token is reached along dependencies that the script follows |
| `FeatureClosure.NeverWrongIff` | scripts/check_jvm_full_features.py:101-125 | the check never passes wrongly if and only if word-named entries take in only what they reach as written |
| `FeatureClosure.MissesNothingIff` | scripts/check_jvm_full_features.py:101-125 | it never fails wrongly if and only if every entry has a word name |
| `FeatureClosure.CheckRightIff` | scripts/check_jvm_full_features.py:101-125 | all verdicts on a manifest are right if and only if every entry has a word name and takes in only what it reaches as written |
| `FeatureClosure.WordNamedTakes` | scripts/check_jvm_full_features.py:66-74 | with word names only, an open entry takes in the texts of its own remarks up to a closing bracket, and no more |
| `FeatureClosure.HyphenIsDropped` | scripts/check_jvm_full_features.py:62-74 | an entry under a hyphenated name is dropped, and what a feature reaches through it alone is reported missing |
| `FeatureClosure.MatchedIffHyphenless` | scripts/check_jvm_full_features.py:62 | a bare key is matched by `\w+` exactly when it has no hyphen; `integration_full` is |
| `FeatureClosure.LinkMainIsDropped` | bindings/jvm-sys/Cargo.toml:28 | the entry `link-main`: `full` reaches `dep:csv` through it in the manifest, and not in the table that the script reads |
| `FeatureClosure.CommentIsAbsorbed` | scripts/check_jvm_full_features.py:66-74 | an entry with a comment behind its bracket takes in the quoted text of the next comment |
| `BuildLock.StepKeepsInv` | integration_testing/scripts/common.py:195-237 | every atomic step of any process keeps: holding means owning the OS lock, depth is the nesting count, the lock file's content matches the holder's progress |
| `BuildLock.RunKeepsInv` | integration_testing/scripts/common.py:195-237 | the same over every run |
| `BuildLock.MutualExclusion` | integration_testing/scripts/common.py:196-237 | after every run with nesting, exceptions and crashes, at most one process is between acquiring and releasing; being inside is having a positive depth, which is the nesting count |
| `BuildLock.OnlyOutermostExitReleases` | integration_testing/scripts/common.py:203-237 | in every reachable state the owner loses the lock only by its own unlock, abort or crash; from inside the body only by a crash; an exit leaves the body exactly at depth one |
| `BuildLock.HolderFileStable` | integration_testing/scripts/common.py:211-237 | from its flush until its release, however many contenders come and go, the lock file holds exactly the holder's pid |
| `BuildLock.LastEventTells` | integration_testing/scripts/common.py:211-228 | after any run the lock file is blank, written or as it was left, according to the last of its creations, truncations and writes |
| `BuildLock.RefusedContenderReads` | integration_testing/scripts/common.py:186-192 | a refused contender reads the last completed writer's pid, or the first word of the leftover if nobody wrote, and no pid only when that is no number; it dies exactly when no write has followed the last truncation or creation; it names the owner once that has flushed |
| `BuildLock.RefusedContenderCanCrash` | integration_testing/scripts/common.py:186-226 | a run in which the refused contender finds the file between truncate and flush and dies of an `IndexError` |
| `BuildLock.NestedEnterExit` | integration_testing/scripts/common.py:203-209 | leaving a nested `with` undoes entering it, at any depth, in the whole state |
| `BuildLock.FreeLockCanBeTaken` | integration_testing/scripts/common.py:211-233 | after any run, crashes included, a lock without an owner can be taken by any process outside, which then has depth one and its pid in the file |
| `BuildLock.OwnerCanLetGo` | integration_testing/scripts/common.py:203-237 | from any point between acquiring and releasing, and any depth, the owner can give the lock up by itself: it is then outside, the lock is free, and nothing else has changed |
| `BuildLock.RefusedLeavesNoTrace` | integration_testing/scripts/common.py:211-226 | a refused attempt leaves the process outside and everything else as it was |
| `BuildLock.CrashFreesTheLock` | integration_testing/scripts/common.py:211-237 | a crash anywhere frees the lock if it was held, and the process can come back, with nothing else changed |
| `Prebuild.OthersUntouched` | integration_testing/scripts/common.py:565-583 | a run leaves the stamps of the connectors it did not get through as they were, that of the failing build included |
| `Prebuild.RunBuildsExpected` | integration_testing/scripts/common.py:565-583 | as far as it gets, an unforced run builds exactly the connectors stale at its start, in order, and the first one when the failure flag is set |
| `Prebuild.HandledAreFresh` | integration_testing/scripts/common.py:586-625 | afterwards the handled connectors are fresh, and the failure flag is gone unless nothing was handled |
| `Prebuild.NextRunResumes` | integration_testing/scripts/common.py:565-625 | the next run owes nothing after a complete run, and after a failed build exactly what the first still owed from there on; the failing stamp is unchanged |
| `Prebuild.SecondRunIsIdle` | integration_testing/scripts/common.py:565-625 | with no edits in between, the run after a complete one builds nothing and changes nothing |
| `Prebuild.EditBuildsExactlyOne` | integration_testing/scripts/common.py:565-605 | when nothing is owed, one edit to one connector, to a watched file or below a watched directory, makes the next run build exactly that connector and stamp it |
| `Prebuild.FailedTestRebuildsFirst` | integration_testing/scripts/common.py:586-633 | marking a test failure after a complete run makes the next one rebuild just the first connector and clear the flag |
| `Prebuild.ForcedRunBuildsAll` | integration_testing/scripts/common.py:586-588 | with `INTEG_FORCE_REBUILD` every connector is built, whatever the stamps, up to a failure |
| `Prebuild.BuildCache.NeedsRebuild` | integration_testing/scripts/common.py:586-605 | true exactly when forced, flagged, without a stamp, or a watched file or some file below a watched directory has a time strictly after the stamp |
| `Prebuild.BuildCache.MarkBuilt` | integration_testing/scripts/common.py:608-615 | writes that stamp, clears the flag, and leaves every other stamp |
| `Prebuild.BuildCache.MarkTestFailed` | integration_testing/scripts/common.py:628-633 | sets the flag and nothing else |
| `Prebuild.BuildCache.PrebuildTests` | integration_testing/scripts/common.py:565-583 | the loop's builds, stop and final files are those of the run function; a complete plain run builds exactly the expected connectors, a complete forced one all, a skipped one none |
| `ArrowInterop.SchemaFromBatch` | src/transform.rs:290-307 | succeeds exactly when all column types are supported, with the same names in order and matching types; else names the first unsupported column |
| `ArrowInterop.FieldReadsIff` | src/transform.rs:401-490 | text is read from either of Arrow's text types, anything else from its own type alone |
| `ArrowInterop.PushColumn` | src/transform.rs:313-385 | a column is its cells in row order, short rows padded with nulls; it fails exactly when a cell that is not null has another type |
| `ArrowInterop.DatasetToRecordBatch` | src/transform.rs:309-399 | succeeds exactly with at least one field and cells that are null or of their column's type; slot by slot the batch holds the dataset's cells, nulls where rows are short, under nullable fields of the same names; otherwise complains about the first column that does not fit |
| `ArrowInterop.RecordBatchToDataset` | src/transform.rs:401-490 | succeeds exactly when every column is present and, unless the batch is empty, has its type; cells are those of the first column of each name; else the first missing column, else the first of another type |
| `ArrowInterop.RoundTrip` | src/transform.rs:309-490 | for every dataset: when it reads back, and that each cell comes back from the first column of its name, padded or dropped |
| `ArrowInterop.RoundTripDistinct` | src/transform.rs:309-490 | with distinct field names the round trip always reads, pads short rows, drops surplus cells, and is the identity on rectangular data |
| `ArrowInterop.LosslessIffDistinctNames` | src/transform.rs:309-490 | a schema carries all its rectangular well-typed datasets through unchanged if and only if its field names are distinct |
| `ArrowInterop.SchemaSurvives` | src/transform.rs:290-399 | the schema read off a dataset's batch is the dataset's own |
| `ArrowInterop.MergeReads` | src/transform.rs:494-520 | reading a merged list of batches succeeds exactly when each batch alone does, and gives their rows concatenated in order |
| `ArrowInterop.ConcatSplits` | src/transform.rs:494-520 | the concatenation splits at every batch: its rows stand behind those of the batches before it, and before those of the others |
| `ArrowInterop.RecordBatchesToDataset` | src/transform.rs:494-520 | no batch gives no rows; differing Arrow schemas, nullability and metadata included, fail; otherwise the concatenation of reading each batch, or the merged batch's own complaint |
| `Utf8Steps.HexInjective` | src/transform.rs:243-246 | the hex text determines the digest |
| `Utf8Steps.HexSpells` | src/transform.rs:243-246 | the hex text is lower-case, two digits a byte, the high one first, and its values are the bytes |
| `Utf8Steps.WriteHex` | src/transform.rs:243-246 | the formatting loop spells every byte in two lower-case digits, in order |
| `Utf8Steps.TruncateTwice` | src/transform.rs:224-233 | two truncations of a text are one, to the smaller bound |
| `Utf8Steps.RedactTwice` | src/transform.rs:253-273 | middle redaction is idempotent for every redaction string |
| `Utf8Steps.RedactionShowsEndsOnly` | src/transform.rs:263-269 | two redacted texts come out equal exactly when their kept ends are equal |
| `Utf8Steps.TruncationIsLongestPrefix` | src/transform.rs:224-233 | a truncated text is the longest prefix of the original within the bound |
| `Utf8Steps.StepMeans` | src/transform.rs:209-273 | what a step makes of a row: in the first column of the name the bounded prefix, the digest in hex, or kept left, redaction and kept right; every other cell and the schema as they were |
| `Utf8Steps.StepsKeepFrame` | src/transform.rs:127-197 | any run of UTF-8 steps keeps the schema, the row count and widths, the null pattern and every column it does not name |
| `Utf8Steps.StepsSucceedIff` | src/transform.rs:209-222 | on rectangular data a run succeeds exactly when every step names a UTF-8 column, and stays rectangular |
| `Utf8Steps.StepsCommute` | src/transform.rs:209-273 | steps on different columns commute, success included |
| `Utf8Steps.TruncationsCompose` | src/transform.rs:224-233 | truncating a column twice is truncating it once to the minimum, errors included |
| `Utf8Steps.StepTwice` | src/transform.rs:224-273 | applying the same truncation or redaction step again changes nothing |
| `Utf8Steps.HashedCells` | src/transform.rs:235-251 | every text of a hashed column is 64 characters long |
| `Utf8Steps.Table.TruncateColumn` | src/transform.rs:224-233 | the in-place rewrite is the step's dataset, or its error with the rows untouched unless indexing panicked |
| `Utf8Steps.Table.Sha256Column` | src/transform.rs:235-251 | likewise for hashing |
| `Utf8Steps.Table.RedactColumn` | src/transform.rs:253-273 | likewise for redaction |
| `Utf8Steps.ApplySpec` | src/transform.rs:127-197 | the step loop composes the steps, stops at the first failure, and keeps the frame |
| `Utf8Steps.FilterRowsMaxUtf8Chars` | src/export.rs:66-91 | keeps, in order, exactly the rows whose cell in the first column of the name is missing, null, or a text of at most that many characters; fails exactly when there is no such column or it is not text |
| `Utf8Steps.FiltersCompose` | src/export.rs:66-91 | filtering at `m` and then at `n` is filtering at the smaller, errors included |
| `DataModel.KeptAllIff` | src/export.rs:82-89 | a filter leaves the rows as they are exactly when it keeps every one |
| `Utf8Steps.TruncateThenFilter` | src/export.rs:66-91 | after truncating to `m` the filter at `m` keeps every row exactly when the column holds only texts and nulls |
| `PrivacySummary.Summarize` | src/privacy.rs:19-49 | one entry for exactly each requested column that both sides have, in order, with the number of rows that have a text on both sides and the number of those that differ |
| `PrivacySummary.DistanceTriangle` | src/privacy.rs:32-41 | where the dataset in between has a text wherever both ends have one, the end-to-end count is at most the sum of the two |
| `PrivacySummary.DistanceCounts` | src/privacy.rs:32-41 | the count is the number of rows with different texts on both sides, whatever the schemas and row counts |
| `PrivacySummary.UnbridgedExceeds` | src/privacy.rs:34-39 | for any three datasets with a gap in between, texts are found for which the inequality fails |
| `PrivacySummary.TriangleIff` | src/privacy.rs:32-41 | the inequality holds for all texts in the given places if and only if the dataset in between has a text wherever both ends have one |
| `PrivacySummary.DistanceZeroIff` | src/privacy.rs:32-41 | for any two datasets, zero is reported exactly when no row has different texts on both sides |
| `PrivacySummary.TriangleNeedsPattern` | src/privacy.rs:34-39 | one row is enough to break it: a text, a null, another text |
| `PrivacySummary.ChangesAddUp` | src/privacy.rs:19-49 | over any run of UTF-8 steps the first-to-last count is at most the sum of the per-step counts |
| `PrivacySummary.OtherColumnsReportZero` | src/privacy.rs:19-49 | a run reports no change in a column that none of its steps names |
| `PrivacySummary.ReapplyReportsZero` | src/privacy.rs:19-49 | re-applying a truncation or redaction reports zero in every column |
| `Utf8Cut.EncodeAllInjective` | src/reports.rs:5-14 | UTF-8 as in section 3 of RFC 3629: the bytes determine the scalars |
| `Utf8Cut.BoundaryIffOffset` | src/reports.rs:10-12 | the character boundaries of encoded text are exactly the ends of its scalar prefixes |
| `Utf8Cut.FittingIsLargest` | src/reports.rs:9-12 | the kept prefix is the largest that fits, and wastes at most three bytes when text is left over |
| `Utf8Cut.TruncateUtf8ByBytes` | src/reports.rs:5-14 | the cut loop, within three decrements, gives the encoding of the largest fitting prefix and the marker, or the text itself if it fits |
| `Utf8Cut.BudgetHeldIffNothingCut` | src/reports.rs:3-14 | a result with its marker is within the budget exactly when nothing was cut |
| `Utf8Cut.KeptTextIsPrefix` | src/reports.rs:5-14 | the kept text is a prefix within the budget that one more scalar would exceed |
| `Utf8Cut.CutSays` | src/reports.rs:9-14 | a text that does not fit becomes its longest fitting prefix and the marker, whose digits spell its length in bytes |
| `VersionFiles.GetVersionCargoPackage` | scripts/release.py:84-98 | reads the first readable version line in the first run of `[package]`, or fails exactly when there is none |
| `VersionFiles.GetVersionPyproject` | scripts/release.py:101-115 | reads the first readable version line in any `[project]` section, or fails exactly when there is none |
| `VersionFiles.SetVersionInCargoPackage` | scripts/release.py:130-151 | replaces exactly the first version line inside `[package]` and no other line, or fails exactly when there is none |
| `VersionFiles.SetVersionInPyproject` | scripts/release.py:154-174 | likewise for `[project]`, with its treatment of ragged bracket lines |
| `VersionFiles.PyprojectGetPut` | scripts/release.py:101-174 | reading after writing a pyproject gives the written version |
| `VersionFiles.CargoGetPut` | scripts/release.py:84-151 | reading after writing a Cargo manifest gives the written version if the replaced line stands in the first run of `[package]`, and fails otherwise |
| `VersionFiles.SplitPackageIsNotReadBack` | scripts/release.py:84-151 | a manifest with its `[package]` section in two parts, on which the writer succeeds and the reader then fails |
| `VersionFiles.OnePackageHeader` | scripts/release.py:84-151 | a manifest with a single `[package]` header always satisfies that condition |
| `VersionFiles.PutPut` | scripts/release.py:130-174 | writing twice is writing the last version, on the same line |
| `VersionFiles.InsideIffOpened` | scripts/release.py:130-174 | a line is inside `[package]` or `[project]` exactly when that header precedes it with no other in between, in a pyproject no other line that opens a bracket either |
| `VersionFiles.WrittenTextReads` | scripts/release.py:130-174 | of a quote-free version, the one line a writer changes reads, as text, as that version |
| `LockFiles.BookkeepingIsRight` | scripts/release.py:216-277 | the flags the scripts carry compute the positional bump: the first eligible version line of each selected block, and a failure exactly when a selected block has none |
| `LockFiles.BumpTwice` | scripts/release.py:216-277 | a second bump overrides the first, is idempotent for the same version, and succeeds exactly when the first does |
| `LockFiles.BumpsCommute` | scripts/release.py:216-245 | bumps of disjoint name sets commute and do not disturb each other's success |
| `LockFiles.UvBumpIsCargoBump` | scripts/release.py:216-277 | on lock files with one name per block, the uv bump is the Cargo bump of that name |
| `LockFiles.BumpedLocksAt` | scripts/release.py:216-277 | after a bump to a quote-free version every selected block's first version line reads as that version |
| `LockFiles.BumpsTellVersions` | scripts/release.py:216-277 | bumps to different versions give different files as soon as a block is selected |
| `LockFiles.OneLinePerBlock` | scripts/release.py:216-277 | a bump changes version lines of selected blocks only, and no two lines of one block |
| `LockFiles.BumpCargoLock` | scripts/release.py:216-245 | the nested loops keep the line count, change exactly the target lines, and fail exactly when a named block lacks a version line; every named block's first version line then reads as the new version |
| `LockFiles.BumpUvLock` | scripts/release.py:248-277 | likewise for blocks in which the name has been seen |
| `ReleaseBump.Repository.RunBump` | scripts/release.py:307-351 | on success every stage is written, and the lock files read as the new version; on failure exactly the stages before the first that cannot be done, with its error |
| `ReleaseBump.Repository.BumpManifests` | scripts/release.py:307-315 | the three manifests in turn, stopping at the first without a version line |
| `ReleaseBump.Repository.BumpJvm` | scripts/release.py:177-213 | a snapshot version is refused before anything JVM-side is written; otherwise the VERSION file is written first |
| `ReleaseBump.Repository.BumpLocks` | scripts/release.py:319-340 | the three lock files in turn, stopping at the first that lacks a version line |
| `ReleaseBump.WrittenLocksRead` | scripts/release.py:319-340 | after any number of stages, the blocks of both packages in the lock files bumped so far read as the new version, cargo's own lock file until cargo regenerates it |
| `ReleaseBump.SnapshotAnywhere` | scripts/release.py:178 | the versions refused are those in which `-SNAPSHOT` stands anywhere |
| `ReleaseBump.Repository.BumpChangelog` | scripts/release.py:342-351 | a version that has a section already is refused; then the section is written, cargo regenerates the lock file, and the trial publication decides |
| `ReleaseBump.Repository.Release` | scripts/release.py:546-629 | unless the three manifests read one version, and another than the new one, nothing is touched; then the bump, and released exactly when all surfaces read back |
| `ReleaseBump.Repository.AllSurfacesAt` | scripts/release.py:122-127 | reading back succeeds exactly when all four surfaces hold the version |
| `ReleaseBump.BumpAligns` | scripts/release.py:622-629 | after a complete bump the four surfaces read back as the new version exactly when both Cargo manifests have the replaced line in the first run of `[package]` |
| `ReleaseBump.BumpTwice` | scripts/release.py:307-351 | after a complete bump another can follow exactly when it is of another version and could have been made alone, cargo's lock file permitting; it ends as it would have alone, with both sections in the changelog |
| `ReleaseBump.RerunCompletesIff` | scripts/release.py:307-351 | run again for the same version after `n` stages, the bump completes exactly when the changelog had not been written and no stage can fail any more, and then ends as an undisturbed one |
| `ReleaseBump.StageAfter` | scripts/release.py:307-351 | exactly when each stage can be done after `n` stages of another bump: as before, but for the changelog's section and cargo's lock file |
| `ReleaseBump.BumpAfter` | scripts/release.py:307-351 | a complete bump after `n` stages of another ends as it would have alone, but for the section that the other wrote |
| `ReleaseBump.GuardRefusesRerunIff` | scripts/release.py:546-595 | after a stop with `n` stages written the release is let through for the same version exactly when nothing was written |
| `ReleaseBump.GuardAdmitsOther` | scripts/release.py:546-595 | once the three manifests are written, another version is let through exactly when they read back |
| `JsonLines.ObjectRoundTrip` | src/export.rs:37-46 | every printed object, strings escaped as in section 7 of RFC 8259, reads back as itself |
| `JsonLines.JsonDeterminesCell` | src/export.rs:11-19 | two cells with the same JSON are equal, unless both are null or non-finite, which print as `null` |
| `JsonLines.CellSays` | src/export.rs:11-19 | every cell prints as what stands for it: its truth, its text, its number in plain decimal, or null if it has none |
| `JsonLines.EscapesOnlyWhatMust` | src/export.rs:42-46 | exactly quotes, backslashes and control characters are escaped, shortly where there is a short escape, else in lower-case hex |
| `JsonLines.RowObjectSelects` | src/export.rs:37-41 | a row's object has each selected column once with that column's cell, and nothing else, even if a column repeats |
| `JsonLines.RowObjectInOrder` | src/export.rs:37-41 | without repeats the object lists the columns in the requested order |
| `JsonLines.RowObjectListsFirstUses` | src/export.rs:37-41 | a repeated column shows once, where it was named first |
| `JsonLines.RowToObject` | src/export.rs:38-41 | the insertion loop builds that object, or panics exactly when the row is too short |
| `JsonLines.PrintRows` | src/export.rs:36-50 | the row loop writes one terminated line per row, in order, or panics exactly at a short row |
| `JsonLines.DatasetToJsonl` | src/export.rs:24-51 | succeeds exactly when all columns are known and all rows reach them; else names the first unknown column, or panics |
| `JsonLines.SplitsBackIff` | python-wrapper/rust_data_processing/__init__.py:95-98 | for any notion of line break that includes the newline, splitting terminated lines gives them back exactly when none contains a break |
| `JsonLines.ObjectBreaks` | src/export.rs:42-46 | a printed object never contains a newline, and a Python line break exactly when a name or string in it holds U+0085, U+2028 or U+2029 |
| `JsonLines.ExportReadsBack` | src/export.rs:21-51 | the export split at newlines is one line per row, in order, each decoding to that row's selected cells |
| `JsonLines.PythonReaderAgreesIff` | python-wrapper/rust_data_processing/__init__.py:95-98 | the Python reader's `splitlines` sees the same lines exactly when no selected name or text holds one of the three characters |
| `JsonlReader.ReadObjectScan` | python-wrapper/rust_data_processing/__init__.py:98 | whatever reads as an object ends outside of quotes |
| `JsonlReader.FirstPieceRaises` | python-wrapper/rust_data_processing/__init__.py:95-98 | when a line with one of the three characters is split, its first piece ends inside quotes and is not blank, so reading raises |
| `JsonlReader.ExportRecordsIff` | python-wrapper/rust_data_processing/__init__.py:95-98 | `export_jsonl_records` returns the objects of all rows, in order, if no selected name or text holds one of the three characters, and raises otherwise |

## Left out

- The Polars-backed steps of `TransformSpec` (select, drop, rename, cast, fill, literal, derive) and `collect_with_schema`: their meaning lives in `src/pipeline`, which is not part of this model.
- Placeholders.OrdersAgreeIff: exact among bindings whose keys close no brace and whose replacements read as templates, and for templates; texts, keys or replacements with braces that belong to no token are covered by examples only.
- The JSON serialisation of resolved documents, and the parsing of bundle files.
- An asynchronous interrupt between the lock's depth assignment and its `try`, threads inside one process, and the wording of the refusal message, `_pid_alive` included.
- The stamp's text and the `.git_rev` file that `mark_built` also writes: nothing decides on them.
- The edits of `gradle.properties` and the poms, which the bump model has only as whether they succeed; the changelog beyond which versions have a section; what cargo does, beyond the lock file it leaves; the branch and clean-tree guards, git and the consistency scripts.
- `train_test_row_indices`: a clamp, a rounding and two ranges; it would only add an easy member.
- Reading JSON that the export never writes: escaped surrogate pairs, nested values, white space between tokens.
- IEEE arithmetic and NaN, SHA-256 itself, 64-bit bounds of integer cells (no modelled operation computes on them), and the raw text inside Arrow conversion errors.
- Regular expressions and bracket syntax of manifests: lines come classified.
- The PyO3, file system, cargo, docker, HTTP and connector plumbing around all of this.
