# GuideWire core in Dafny

GuideWire turns troubleshooting documents into interactive decision trees.
The builder ingests a folder of documents into a manifest. It asks a language
model to turn each document's text into a tree of `question`, `step` and
`resolution` nodes. It validates each tree and writes a catalogue
(`library.json`). The viewer walks one tree with a cursor, and browses or
searches the catalogue.

This project models the pure logic of that pipeline and proves properties of it:

- `tree_builder.dfy` (module `TreeBuilder`): the tree validator. It accepts
  exactly the documents described by a declarative predicate, and reports the
  first violation in the validator's check order.
- `tree_engine.dfy` (module `TreeEngine`): the navigation engine. It covers
  the id index, `navigate`, `advance`, `go_back`, `reset`, `is_complete` and
  the step counters. Each operation returns the new state together with the
  exception it raised.
- `tree_safety.dfy` (module `TreeSafety`): on a tree the validator accepts,
  every forward move from an indexed node lands on an indexed node. The only
  errors raised are misuse errors.
- `tree_scenarios.dfy` (module `TreeScenarios`): concrete documents and walks
  that pin down edge cases of both.
- `library_engine.dfy` (module `LibraryEngine`): the catalogue queries
  (`get_categories`, `get_entries_for_category`, `search`).
- `library_builder.dfy` (module `LibraryBuilder`): `LibraryBuilder.build`.
  This covers grouping by category, the sorted processing order, the progress
  counters, skip and failure handling, and the catalogue entries.
- `bulk_ingestor.dfy` (module `BulkIngestor`): the incremental manifest
  update of `BulkIngestor.ingest`.
- `packager.dfy` (module `Packager`): the executable-name sanitiser.
- `analyzer.dfy` (module `Analyzer`): the Markdown code-fence stripping applied
  to the model's reply.
- Support modules:
  - `results.dfy`: `Option`, `Result` and `Outcome`.
  - `py_json.dfy`: untyped JSON values, with Python's `in`, subscript,
    truthiness and hashability.
  - `ordered_maps.dfy`: insertion-ordered dicts.
  - `order.dfy`: string order and sorting.
  - `seqs.dfy`: list-comprehension filters.
  - `text.dfy`: ASCII string functions: `strip`, `lower`, `split`, `join`,
    `splitlines`, `replace` and `re.sub` with `[^\w\-]`.

Exceptions are values. The validator returns `Pass` or `Fail(error)`, where
`error` is one constructor per `ValueError` message, or `Raised(TypeError)`
for Python's own exceptions on malformed input. The engine returns a
`Transition(cursor, raised)`. A failed operation still returns its cursor,
because `navigate` and `advance` push the node's text before reading `next`.

The validator requires no `"start"` node, no reachability and no distinct
ids (`TreeScenarios.NoStartAndDuplicateIdsAccepted`). A document
`{"nodes": []}` fails on its title first (`TreeScenarios.TitleCheckedBeforeNodes`).

## Model

| member | source | states |
|---|---|---|
| TreeBuilder.Validate | builder/tree_builder.py:11-87 | accepts exactly the documents satisfying `Accepted` (title, non-empty node list, every node with `id`/`type`/`text`, every type rule against the set of all ids); a missing title, missing `nodes`, or an empty or non-list `nodes` give those errors in that order |
| TreeBuilder.RequireKey | builder/tree_builder.py:35-37 | passes exactly when Python's `key in node` is true (a dict holding the key, a string containing it, a list holding it as an element); otherwise the missing-key error, or `TypeError` for a number, boolean or null |
| TreeBuilder.CheckNodeKeys | builder/tree_builder.py:34-38 | succeeds exactly on nodes with `id`, `type` and `text` and a hashable id, returning the id; the first missing key in the order id, type, text is the one reported |
| TreeBuilder.CollectIds | builder/tree_builder.py:33-38 | the first pass succeeds exactly when every node is well keyed, and then yields the set of all node ids |
| TreeBuilder.CheckOption | builder/tree_builder.py:53-62 | passes exactly when the option is a dict with `label` and a known `next`; a dict lacking either key gives the missing-keys error, one whose hashable `next` is unknown gives the unknown-target error with its label, node id and target |
| TreeBuilder.CheckOptions | builder/tree_builder.py:52-62 | passes exactly when every option is a dict with `label` and a `next` that is a known id; otherwise a missing-keys or unknown-target error or a Python exception |
| TreeBuilder.FirstRejectedOptionDecides | builder/tree_builder.py:52-62 | options are checked in order: the first option breaking its rule decides the error, whatever follows it |
| TreeBuilder.CheckNode | builder/tree_builder.py:41-85 | passes exactly when the node satisfies its type rule (question: at least two options, all valid; step: truthy known `next`; resolution: falsy `next` and `options`); for a dict node with `id` and `type`, a question without a list of at least two options gives `QuestionNeedsOptions`, otherwise its options decide; a step with a falsy `next` gives `StepMissingNext`, with an unknown hashable one `UnknownStepTarget`; a resolution with a truthy `next` or `options` gives `ResolutionNotTerminal`; any other type gives `UnknownType` with the node id and type |
| TreeBuilder.CheckNodes | builder/tree_builder.py:41-87 | the second pass passes exactly when every node satisfies its type rule |
| TreeBuilder.FirstRejectedNodeDecides | builder/tree_builder.py:41-85 | nodes are checked in order: the first node breaking its type rule decides the second pass's error |
| TreeBuilder.FirstRejectedNodeReported | builder/tree_builder.py:33-87 | once every node is well keyed, the document is rejected with the error of the first node breaking its type rule against all ids |
| TreeBuilder.FirstPassBeforeTypeRules | builder/tree_builder.py:33-41 | the first node lacking `id`/`type`/`text` decides the error, whatever type-rule violations any node has |
| TreeBuilder.SecondPassDecides | builder/tree_builder.py:38-87 | once every node is well keyed, the verdict is the type-rule pass against the ids of all nodes |
| TreeBuilder.AcceptedReferencesResolve | builder/tree_builder.py:58-73 | on acceptance every option's and every step's `next` is the id of some node |
| TreeBuilder.UnknownTypeRejected | builder/tree_builder.py:81-85 | a node whose type is not question, step or resolution makes the document rejected |
| TreeEngine.BuildIndex | viewer/tree_engine.py:32-34 | the id index exists exactly when every node is a dict with a hashable id; its keys are the node ids in the order they first occur, each maps to the LAST node carrying it, and every value is one of the nodes |
| TreeEngine.BuildIndexPrefix | viewer/tree_engine.py:32-34 | keys already in the dict keep their positions at the front |
| TreeEngine.BuildIndexOrder | viewer/tree_engine.py:32-34 | after the keys already there, the new ids follow in the order of their first occurrence among the nodes |
| TreeEngine.BuildIndexKeys | viewer/tree_engine.py:32-34 | the comprehension's keys are the keys already present plus every node id |
| TreeEngine.BuildIndexLastWins | viewer/tree_engine.py:32-34 | the node the index holds for an id is the last node carrying that id |
| TreeEngine.BuildIndexValuesFromNodes | viewer/tree_engine.py:32-34 | every indexed node is one of the input nodes |
| TreeEngine.Lookup | viewer/tree_engine.py:61 | succeeds exactly for an indexed id, returning its node; otherwise `KeyError` (or `TypeError` for an unhashable id) |
| TreeEngine.GetCurrentNode | viewer/tree_engine.py:59-61 | succeeds exactly when the current id is indexed, returning the node whose `id` is the current id |
| TreeEngine.GetHistory | viewer/tree_engine.py:108-110 | the history's length is one less than the step number |
| TreeEngine.IsComplete | viewer/tree_engine.py:112-114 | defined exactly at indexed ids, and true exactly when the node's `type` is `"resolution"` |
| TreeEngine.ApproximateTotalSteps | viewer/tree_engine.py:138-140 | the number of distinct ids in the index |
| TreeEngine.CurrentStepNumber | viewer/tree_engine.py:142-144 | at least 1 |
| TreeEngine.ScanOptions | viewer/tree_engine.py:79-87 | on scannable options, the first option with the label wins (text pushed, cursor to its `next`); no match raises with the state unchanged |
| TreeEngine.Navigate | viewer/tree_engine.py:63-87 | a raised error leaves the current id; success pushes exactly one text; an unindexed id raises `KeyError`, a non-question raises with no change, and on a question node the first label match moves to its `next` or no match raises with no change |
| TreeEngine.Advance | viewer/tree_engine.py:89-101 | a non-step raises with no change; on a step node the text is pushed and the cursor moves to `next` |
| TreeEngine.Reset | viewer/tree_engine.py:103-106 | always `"start"` with an empty history, step number 1 |
| TreeEngine.FindByText | viewer/tree_engine.py:127-131 | finds the first index position whose node's text is the target, reports none when every text differs, and raises exactly when a text-less node comes first |
| TreeEngine.GoBack | viewer/tree_engine.py:116-136 | empty history gives `false` and no change; otherwise the history loses its last entry, the cursor goes to the first node in index order with that text or to `"start"`, and the result is `true`; it never raises when every node has a text |
| TreeEngine.StepNumberCountsMoves | viewer/tree_engine.py:142-144 | after `n` successful forward moves the step number has grown by `n` |
| TreeSafety.AcceptedTreeIndexes | builder/tree_builder.py:33-87 | an accepted node list can be indexed, the index keys are its ids, and every indexed node passed both passes |
| TreeSafety.AcceptedIndexSound | builder/tree_builder.py:45-73 | the index of an accepted document is sound: every option and step target is indexed |
| TreeSafety.NavigateStaysInIndex | viewer/tree_engine.py:73-87 | from an indexed node of a sound index, `navigate` lands on an indexed node or raises a misuse error with no change |
| TreeSafety.AdvanceStaysInIndex | viewer/tree_engine.py:95-101 | from an indexed node of a sound index, `advance` lands on an indexed node or raises `NotAStep` with no change |
| TreeSafety.RunStaysInIndex | viewer/tree_engine.py:63-101 | any run of moves on a sound index stays on indexed nodes and raises only misuse errors |
| TreeSafety.AcceptedRunsStayInIndex | viewer/tree_engine.py:63-101 | on an accepted tree with a `"start"` node, any run from a fresh engine stays on indexed nodes and raises no Python exception |
| TreeSafety.QueriesNeverRaise | viewer/tree_engine.py:112-136 | on a sound index `is_complete` is defined at indexed nodes and `go_back` never raises |
| TreeScenarios.TitleCheckedBeforeNodes | builder/tree_builder.py:23-30 | a document with an empty node list but no title is rejected for the title |
| TreeScenarios.EmptyNodeListRejected | builder/tree_builder.py:29-30 | an empty node list is rejected |
| TreeScenarios.SingleNodeDoc | builder/tree_builder.py:33-87 | a one-node document is judged by that node's rule against its own id |
| TreeScenarios.OneOptionQuestionRejected | builder/tree_builder.py:46-51 | a question with one option is rejected |
| TreeScenarios.StepToUnknownIdRejected | builder/tree_builder.py:70-73 | a step to an unknown id is rejected |
| TreeScenarios.EmptyStepNextRejected | builder/tree_builder.py:65-69 | a step with `"next": ""` counts as missing `next` |
| TreeScenarios.ResolutionWithOptionsRejected | builder/tree_builder.py:75-80 | a resolution with a non-empty `options` list is rejected |
| TreeScenarios.ResolutionWithFalsyFieldsAccepted | builder/tree_builder.py:75-80 | a resolution with `"next": ""` and `"options": []` is accepted |
| TreeScenarios.NoStartAndDuplicateIdsAccepted | builder/tree_builder.py:33-38 | neither a `"start"` node nor distinct ids are required |
| TreeScenarios.MissingTextReportedBeforeTypeRule | builder/tree_builder.py:34-41 | a later node's missing `text` is reported although an earlier node breaks its type rule |
| TreeScenarios.AcceptedPasses | builder/tree_builder.py:11-87 | whatever the declarative predicate admits, the validator passes |
| TreeScenarios.LastDuplicateWins | viewer/tree_engine.py:32-34 | with a repeated id, the index keeps the first position, holds the last node, and counts 2 steps for 3 nodes |
| TreeScenarios.WalkValid | builder/tree_builder.py:11-87 | the three-node walk tree (question, step, resolution) is accepted |
| TreeScenarios.WalkIndexBuilt | viewer/tree_engine.py:32-34 | the engine indexes the walk tree under `"start"`, `"plug"`, `"done"` in that order |
| TreeScenarios.WalkChooseYes | viewer/tree_engine.py:63-87 | on the index built from the walk tree, choosing "Yes" at `"start"` pushes the question text and moves to its target |
| TreeScenarios.WalkAdvance | viewer/tree_engine.py:89-101 | on the same index, advancing the step pushes its text and moves to `"done"` |
| TreeScenarios.WalkEndsComplete | viewer/tree_engine.py:112-114 | on the same index, the walk ends on a complete node at step 3 |
| TreeScenarios.GoBackMatchesFirstText | viewer/tree_engine.py:126-131 | going back lands on the first node with the popped text, not the one visited |
| TreeScenarios.GoBackFallsBackToStart | viewer/tree_engine.py:133-136 | an unmatched popped text sends the cursor to `"start"` even when no such node exists |
| TreeScenarios.NavigatePushesBeforeReadingNext | viewer/tree_engine.py:80-83 | an option without `next` raises after the text was pushed, leaving the cursor in place |
| LibraryEngine.GetCategories | viewer/library_engine.py:69-71 | strictly sorted, and holds exactly the categories of the entries, `"Uncategorized"` for entries without one |
| LibraryEngine.GetCategoriesCanonical | viewer/library_engine.py:69-71 | no other sorted duplicate-free list holds the same categories |
| LibraryEngine.MissingCategoryListedAsUncategorized | viewer/library_engine.py:71 | an entry without `category` puts `"Uncategorized"` in the list |
| LibraryEngine.GetEntriesForCategory | viewer/library_engine.py:73-75 | exactly the entries whose `category` key equals the name, with multiplicity, in order; entries without the key never match |
| LibraryEngine.UncategorizedListedButEmpty | viewer/library_engine.py:69-75 | an entry without a category is listed under `"Uncategorized"`, yet browsing `"Uncategorized"` returns nothing |
| LibraryEngine.GetEntriesForListedCategory | viewer/library_engine.py:69-75 | the category filter with the category list's default: the entries filed under the name, in order |
| LibraryEngine.EveryListedCategoryHasEntries | viewer/library_engine.py:69-75 | with the defaulted filter, a category is listed exactly when browsing it finds an entry |
| LibraryEngine.Search | viewer/library_engine.py:77-95 | blank query gives nothing; otherwise exactly the entries matching the lowered query in lowered title, description or a symptom, in order and with multiplicity |
| LibraryEngine.SearchIgnoresCase | viewer/library_engine.py:88 | queries with the same lowercase form give the same results |
| LibraryEngine.SearchLoweredQuery | viewer/library_engine.py:88 | a query and its lowercase form give the same results |
| LibraryEngine.SearchDoesNotStripQuery | viewer/library_engine.py:86-88 | surrounding spaces are part of the needle: `" cable"` misses a title `"CABLE"` finds |
| LibraryBuilder.Items | builder/library_builder.py:50 | the manifest's pairs in insertion order |
| LibraryBuilder.GroupFromContents | builder/library_builder.py:49-52 | each group is its category's entries in manifest order |
| LibraryBuilder.GroupFromKeys | builder/library_builder.py:49-52 | there is a group for exactly the categories present |
| LibraryBuilder.GroupsAreFilters | builder/library_builder.py:49-52 | the grouping of a manifest equals the reference filter per category |
| LibraryBuilder.SumSizesCovers | builder/library_builder.py:54 | over distinct categories covering every entry, the group sizes add up to the number of entries |
| LibraryBuilder.TotalIsManifestSize | builder/library_builder.py:54 | `total` equals the manifest size |
| LibraryBuilder.PlanFrom | builder/library_builder.py:58-59 | the nested loop visits as many entries as the groups hold, each under a listed category |
| LibraryBuilder.PlanSize | builder/library_builder.py:54-60 | the loop body runs once per manifest entry |
| LibraryBuilder.PlanInCategoryOrder | builder/library_builder.py:58 | categories are visited in sorted order |
| LibraryBuilder.PlanCoversManifest | builder/library_builder.py:49-59 | every manifest entry is visited |
| LibraryBuilder.SafeStem | builder/library_builder.py:93 | the stem is as long as the path with `".docx"` removed and holds only word characters and `-` |
| LibraryBuilder.SafeStemIdempotent | builder/library_builder.py:93 | a stem is its own stem |
| LibraryBuilder.DocxDropped | builder/library_builder.py:93 | for a dotless stem, the `.docx` extension goes and the rest is sanitised |
| LibraryBuilder.SafeStemCollision | builder/library_builder.py:93-96 | `"a b.docx"` and `"a_b.docx"` get the same tree file, so the later save overwrites the earlier |
| LibraryBuilder.EntryFor | builder/library_builder.py:94-107 | the entry has the group's category, no symptoms, `trees/<stem>.json` and `docs/<path>` |
| LibraryBuilder.ProcessItem | builder/library_builder.py:61-107 | blank text is skipped; the entry is saved exactly when analysis yields a tree the validator accepts; a `ValueError` (unparsable reply or validator error) is a validation failure, anything else an analysis failure |
| LibraryBuilder.SavedEntryShape | builder/library_builder.py:98-107 | a saved entry's title is the tree's own title (never the path default), its description defaults to `""`, and it points at its tree and document |
| LibraryBuilder.RunFrom | builder/library_builder.py:58-60 | one progress step per entry, `current` counting up by one per entry, skipped or not, with the fixed `total` |
| LibraryBuilder.SavedEntries | builder/library_builder.py:98-107 | at most one catalogue entry per step, each coming from a saved step, and every saved step's entry is in the catalogue |
| LibraryBuilder.SavedEntriesInOrder | builder/library_builder.py:98-117 | seen as outcomes, the catalogue is exactly the saved outcomes of the steps, each once, in processing order |
| LibraryBuilder.SavedEntriesSubsequence | builder/library_builder.py:98-117 | the catalogue, as outcomes, is a subsequence of the steps' outcomes |
| LibraryBuilder.Build | builder/library_builder.py:49-117 | one step per manifest entry numbered `1..total` with `total` the manifest size; no failure stops the run; at most as many catalogue entries as manifest entries |
| LibraryBuilder.BuildCatalogueIsSaved | builder/library_builder.py:58-117 | the catalogue `build` returns is exactly the entries of its saved steps, in step order; every validated tree contributes its entry |
| LibraryBuilder.BuildInCategoryOrder | builder/library_builder.py:58-59 | the run's steps follow sorted category order |
| LibraryBuilder.BuildCoversManifest | builder/library_builder.py:49-60 | every manifest entry gets a step |
| LibraryBuilder.BlankTextYieldsNoEntry | builder/library_builder.py:61-69 | every catalogue entry comes from a saved step whose text was not blank |
| BulkIngestor.LoadManifest | builder/bulk_ingestor.py:75-81 | a loaded manifest is used as is; a missing one, or one raising `JSONDecodeError` or `OSError`, is empty; a file that is not UTF-8 raises `UnicodeDecodeError`, which the `except` does not catch, and only that load fails |
| BulkIngestor.ExtractErrorOf | builder/bulk_ingestor.py:110-133 | no `extract_error` exactly when extraction succeeded; otherwise the message behind the prefix of its exception class |
| BulkIngestor.CategoryIsTopFolder | builder/bulk_ingestor.py:123-124 | a document inside a folder is filed under its top-level folder |
| BulkIngestor.TopLevelUncategorized | builder/bulk_ingestor.py:124 | a top-level document is `"Uncategorized"` |
| BulkIngestor.NewEntry | builder/bulk_ingestor.py:110-133 | hash, destination, category and size recorded; on failure the text is `""` and an error is recorded |
| BulkIngestor.IngestOne | builder/bulk_ingestor.py:97-133 | an unchanged file leaves the manifest as is; otherwise its entry is (re)written and every other entry and the key order are kept |
| BulkIngestor.IngestFiles | builder/bulk_ingestor.py:90-136 | the keys are the old keys plus the scanned files, old keys keep their order, and entries of unscanned keys are untouched |
| BulkIngestor.IngestFilesAppends | builder/bulk_ingestor.py:90-131 | the keys after the loop are the old keys followed by the scanned files that had no entry, each once, in scan order |
| BulkIngestor.IngestedEntry | builder/bulk_ingestor.py:97-133 | each scanned file ends with its stored entry if unchanged, else a fresh entry |
| BulkIngestor.Ingest | builder/bulk_ingestor.py:75-145 | the run aborts exactly when the manifest load raises `UnicodeDecodeError`; otherwise every scanned file is a key of the returned manifest |
| BulkIngestor.UnreadableManifestTreatedAsEmpty | builder/bulk_ingestor.py:75-81 | an unreadable manifest gives the same result as none: exactly the scanned files, each with a fresh entry |
| BulkIngestor.IngestAgainUnchanged | builder/bulk_ingestor.py:97-103 | a second run over the same files changes nothing |
| BulkIngestor.AllUnchangedIsIdentity | builder/bulk_ingestor.py:97-103 | when every file is unchanged the manifest is returned as it was |
| Packager.SafeName | builder/packager.py:84-87 | same length; alphanumerics, `_` and `-` kept in place, every other character `_` |
| Packager.SafeNameIdempotent | builder/packager.py:84-87 | sanitising twice is sanitising once |
| Packager.SafeNameFixedPoints | builder/packager.py:84-87 | a name is unchanged exactly when all its characters are kept |
| Packager.ExeName | builder/packager.py:88 | starts with `GuidWire_`, followed by as many characters as the company name, all of them kept characters |
| Packager.ExeNameDeterminedBySafeName | builder/packager.py:84-88 | two company names give the same executable exactly when they give the same safe name |
| Packager.ExeNameIsSafe | builder/packager.py:84-88 | the executable name needs no further sanitising |
| Packager.AcmeExample | builder/packager.py:84-88 | `"Acme & Co."` becomes `GuidWire_Acme___Co_` |
| Analyzer.InnerLines | builder/analyzer.py:81-86 | the first line always goes, and the last goes exactly when it closes the block |
| Analyzer.StripFences | builder/analyzer.py:77-87 | the result has no surrounding whitespace, and a reply not opening a block is returned stripped |
| Analyzer.FencedRoundTrip | builder/analyzer.py:77-87 | a body fenced with any tag comes back stripped |
| Analyzer.OpeningFenceOnly | builder/analyzer.py:81-87 | a reply of only an opening fence line gives `""` |
| Analyzer.SecondLineKeptUnlessFence | builder/analyzer.py:81-87 | a two-line reply keeps its second line unless that line is itself a fence |

## Left out

- I/O of every kind: reading and writing `library.json`, the manifest and tree files, `TreeBuilder.save`, copying documents, `mkdir`, SHA-256 hashing and `rglob` scanning. Hashes, sizes and extraction outcomes are inputs (`BulkIngestor.Source`). The scanned file list is a parameter.
- The language-model call, the prompt template and `json.loads` in `builder/analyzer.py`. The builder takes an abstract `analyze` whose outcomes are a parsed value, `ValueError` or another exception.
- Progress-callback messages. The progress steps keep only category, path, `current`, `total` and outcome.
- `TreeEngine.__init__` file loading, the `config.json` check, and the `company_name`/`title`/`description` getters. The engine takes the node list.
- The user interfaces, the entry points and the document ingestor, including the viewer's own stripping of the search query.
- Unicode: `lower`, `isalnum`, `\w`, `strip` and `splitlines` are ASCII (space, tab, line feed, carriage return, vertical tab, form feed and the separators 0x1C to 0x1F count as whitespace). `splitlines` splits on line feed only.
- Packager.SafeName: `isalnum` is ASCII, not Unicode.
- Path separators: relative paths use `/`.
- Floats and Python's `True == 1` equality in JSON values.
- Manifest entries are typed records with optional fields. A stored manifest that is valid JSON but not a dict, and field values of unexpected types, are not modelled.
- LibraryEngine.Search: catalogue entries are typed records whose `title` and `description` are strings or absent and whose `symptoms` is a list of strings. In the source a `title` or `description` that is null or not a string makes `.lower()` raise `AttributeError` (viewer/library_engine.py:91-93), and such an entry cannot be represented here. It is reachable: `LibraryBuilder.build` copies the tree's `title`, and the validator only checks that the key is present, so a tree with `"title": null` is saved and then breaks search.
- LibraryEngine.GetCategories: categories are strings or absent. In the source a null or other non-string category next to string ones makes `sorted` raise `TypeError`, and a list-valued one is unhashable (viewer/library_engine.py:71). These raises are not modelled.
- LibraryBuilder.Build: a `save` failure after validation is not modelled. It would be raised outside the `try` and abort the run.
- `Packager.build`'s image processing, temporary directories, PyInstaller subprocess and file moves.

## Findings

| source | as written | input that shows it | evidently intended | confidence | as-written member | corrected member |
|---|---|---|---|---|---|---|
| viewer/library_engine.py:69-75 | `get_categories` files an entry without `category` under `"Uncategorized"`, but `get_entries_for_category` compares `e.get("category")`, which is `None` for such an entry | one entry with no `category` key: `"Uncategorized"` is listed, and browsing it shows no entries (the viewer displays "Uncategorized (0)") | the filter applies the same `"Uncategorized"` default, so every listed category has entries | medium, not executed | LibraryEngine.UncategorizedListedButEmpty | LibraryEngine.EveryListedCategoryHasEntries |
