# CDE harmonization: a verified model of its core

This project models the sequential core of the CDE harmonization tool set in Dafny and proves
properties of that model. A CDE (common data element) table is a list of rows, column name to
value. The tool set has a Python side and two browser viewers.

The Python side:

- **Categorizers** tag every row with category labels, in three revisions:
  - the packaged categorizer, which normalises and deduplicates the labels and isolates
    failures per row;
  - an earlier packaged revision, which normalises and deduplicates but has no error isolation;
  - the legacy one, which writes the strategy's answer unchanged.
- **The semantic analyzer** buckets rows whose categories are equivalent, or intersect, into
  groupings by a first-match scan. It keeps the groupings with more than one member.
- **Two CDE loaders** read and write CSV tables. The packaged one flattens lists and dicts into
  delimited strings on save and splits them back on load.

The browser viewers:

- **The harmonization helper** reads an analysis CSV (rows with `categories` and `matches`
  columns). It builds a network of rows and their matches, and splits the network into connected
  components.
- **The category viewer** builds a bipartite category → field network from a CDE table. It
  filters the network by a set of selected categories.

Each imperative routine of the source is a Dafny `method` with loop invariants. Each method is
proved equal to a specification function, or to a relation on the old and new state. The
properties the source promises are lemmas about those functions: first match, partition,
round trip, and "nothing else changes". The NLP models, the network calls, the file system and
the user interface are parameters (supplied functions) or are left out.

Module layout, one file each:

| file | module | models |
|---|---|---|
| wrappers.dfy | Wrappers | Option/Result and the fold of a fallible function over a sequence |
| seqs.dfy | Seqs | filter, dedup, flatten, a stable sort by a key |
| strings.dfy | Strings | split/join, find, suffix test, decimal digits |
| py.dfy | Py | Python option and row values, exceptions, option merges, `str.split`, extension test |
| semantic_analyzer.dfy | SemanticAnalyzer | cde_harmonization/grouping/semantic_analyzer.py |
| categorizer.dfy | Categorizer | cde_harmonization/grouping/categorizer.py |
| cde_group.dfy | CdeGroup | cde_harmonization/grouping/group.py |
| legacy_group.dfy | LegacyGroup | grouping/group.py |
| csv_codec.dfy | CsvCodec | the `save_csv` encoding loop shared by both loaders |
| cde_loader.dfy | CdeLoader | cde_harmonization/utils/cde_loader.py |
| loader.dfy | Loader | grouping/loader.py |
| js.dfy | Js | JavaScript values, truthiness, `split`, the header-to-row zip |
| converter.dfy | Converter | harmonization-helper/src/converter.ts |
| algorithms.dfy | Algorithms | `connectedComponents` of harmonization-helper/src/algorithms.ts |
| app_context.dfy | AppContext | row decoding and `analysis` state of harmonization-helper/src/app-context.tsx |
| kgx_loader.dfy | KgxLoader | category-viewer/src/kgx-loader.js |
| category_viewer.dfy | CategoryViewer | degrees, options, upload and `filteredGraph` of category-viewer/src/App.js |

Python dictionaries that are rows are `map<string, Value>`. Dict cell values are association
lists, because their insertion order shows in the saved text. JavaScript objects whose key order
matters (`matches`) are association lists too.

## Model

| member | source | states |
|---|---|---|
| Py.MergeOptions | cde_harmonization/utils/cde_loader.py:26-29 | `{**defaults, **options}` has the keys of both; a caller option wins, and every other key keeps its default |
| Py.KeywordMerge | grouping/loader.py:22-25 | `dict(**a, **b)` raises TypeError exactly when a key is in both; otherwise it holds every default and every option unchanged |
| Py.PySplit | cde_harmonization/utils/cde_loader.py:50 | `str.split` raises ValueError exactly on the empty separator; the pieces joined with the separator give the string back |
| Py.ExtensionIsCsv | cde_harmonization/utils/cde_loader.py:33-34 | the text after the last "." is "csv" exactly when the path is "csv" or ends with ".csv" |
| Py.LastPieceOfCsv | cde_harmonization/utils/cde_loader.py:33 | the last dot-free piece of a path is "csv" exactly when the path is "csv" or ends with ".csv" |
| Py.Iterate | cde_harmonization/grouping/semantic_analyzer.py:29 | what `sorted`/`set` iterate over: a list gives its items |
| Py.Put | cde_harmonization/utils/cde_loader.py:52-54 | `d[k] = v` keeps the other keys, keeps keys distinct, and appends a new key at the end; the stored value is stated by Py.PutEntries |
| Py.PutKeys | cde_harmonization/utils/cde_loader.py:52-54 | `d[k] = v` leaves the key order as it was for an existing key and appends a new key last |
| Py.PutEntries | cde_harmonization/utils/cde_loader.py:52-54 | after `d[k] = v`, `k` holds `v`, every entry of another key is kept, and there is no other entry |
| Py.DictFromPairs | cde_harmonization/utils/cde_loader.py:52-54 | `dict(pairs)` raises ValueError exactly when some segment does not have two parts; the keys of the result are distinct; the entries are stated by Py.DictFromPairsOrder and Py.DictFromPairsLastWins |
| Py.DictFromPairsOrder | cde_harmonization/utils/cde_loader.py:52-54 | the keys of `dict(pairs)` are the segments' keys in order of first appearance, each once |
| Py.DictFromPairsLastWins | cde_harmonization/utils/cde_loader.py:52-54 | a key is in `dict(pairs)` exactly when some segment names it, and it holds the value of the last such segment |
| Py.DictFromDistinctPairs | cde_harmonization/utils/cde_loader.py:52-54 | with distinct keys, `dict` of the pairs keeps every pair in order |
| Wrappers.MapResultSucceeds | cde_harmonization/grouping/group.py:40-47 | a fallible loop over a list succeeds exactly when every item does, with one result per item in order |
| Wrappers.MapResultFailure | cde_harmonization/grouping/group.py:41-46 | a failing loop fails with the exception of its first failing item |
| Strings.Find | cde_harmonization/utils/cde_loader.py:50 | the first occurrence of the separator, or none when it never occurs |
| Strings.Split | cde_harmonization/utils/cde_loader.py:50 | `str.split(sep)` with a non-empty separator gives at least one piece |
| Strings.JoinSplit | cde_harmonization/utils/cde_loader.py:50 | joining the pieces of `s.split(sep)` with `sep` gives `s` back |
| Strings.SplitJoin | cde_harmonization/utils/cde_loader.py:72 | splitting a one-character join of a non-empty list none of whose items holds it gives the list back |
| Strings.SplitLast | cde_harmonization/utils/cde_loader.py:33 | the last piece of `fp.split(".")` holds no dot, ends the path, and follows a dot when shorter than it |
| Strings.Sort | cde_harmonization/grouping/semantic_analyzer.py:29 | `sorted` of a list of strings is ordered and a permutation of it |
| Strings.SortedUnique | cde_harmonization/grouping/semantic_analyzer.py:29 | two ordered lists with the same elements are equal |
| Strings.SortEqualIffSameMultiset | cde_harmonization/grouping/semantic_analyzer.py:29 | `sorted(a) == sorted(b)` exactly when `a` and `b` hold the same elements with the same counts |
| Seqs.Filter | cde_harmonization/grouping/semantic_analyzer.py:47 | a filtered list holds exactly the items of the input that pass the test |
| Seqs.FilterConcat | cde_harmonization/grouping/semantic_analyzer.py:47 | filtering works item by item in input order: the filter of a concatenation is the concatenation of the filters |
| Seqs.FilterSingle | cde_harmonization/grouping/semantic_analyzer.py:47 | a single item is kept exactly when it passes |
| Seqs.FilterCounts | cde_harmonization/grouping/semantic_analyzer.py:47 | each passing item is kept as often as it occurs in the input, and no failing item is kept |
| Seqs.Dedup | cde_harmonization/grouping/categorizer.py:47-49 | `list(set(...))` holds each item of the input exactly once |
| Seqs.DedupNoDups | cde_harmonization/grouping/categorizer.py:47-49 | a list without duplicates is its own deduplication |
| Seqs.SortByKey | category-viewer/src/App.js:83 | the sort by descending out-degree is ordered and a permutation of its input |
| Strings.NatToString | category-viewer/src/App.js:87 | the decimal form of a count is a non-empty string of digits |
| Strings.ParseNatToString | category-viewer/src/App.js:87 | the decimal form reads back as the same count |
| SemanticAnalyzer.NewAnalyzer | cde_harmonization/grouping/semantic_analyzer.py:12-23 | defaults `field_name` "categories" and `grouping_method` "equivalence"; each caller option overrides its key |
| SemanticAnalyzer.Accepts | cde_harmonization/grouping/semantic_analyzer.py:26-35 | one test of the scan raises exactly on an unknown grouping method |
| SemanticAnalyzer.AcceptsMeaning | cde_harmonization/grouping/semantic_analyzer.py:28-33 | equivalence accepts exactly when key and categories are equal as multisets; intersection exactly when they share an element |
| SemanticAnalyzer.FirstMatchFrom | cde_harmonization/grouping/semantic_analyzer.py:25-35 | a found index lies in range and its grouping's key accepts; raises exactly when the method is unknown and at least one grouping is tested |
| SemanticAnalyzer.FirstMatchFromRejects | cde_harmonization/grouping/semantic_analyzer.py:25-35 | every grouping scanned before the found one rejected the row, and all rejected it when none was found, so the found one is the first that accepts |
| SemanticAnalyzer.FirstMatchFromFind | cde_harmonization/grouping/semantic_analyzer.py:25-35 | the scan is the generic first-match search (Wrappers.FindFirst) with one grouping's test as the predicate |
| Wrappers.FindFirstRejects | cde_harmonization/grouping/semantic_analyzer.py:25-35 | every element a first-match search passed over, up to the one found or to the end, was rejected |
| SemanticAnalyzer.FindGrouping | cde_harmonization/grouping/semantic_analyzer.py:25-35 | the loop with early return computes the first match |
| SemanticAnalyzer.CategoriesOf | cde_harmonization/grouping/semantic_analyzer.py:38-41 | reading the category column fails exactly when the name is no string or the row lacks it; a list name raises TypeError (no dict key), otherwise KeyError |
| SemanticAnalyzer.ListFieldNameRaises | cde_harmonization/grouping/semantic_analyzer.py:38-41 | with a list as `field_name`, any non-empty scan raises TypeError at its first row |
| SemanticAnalyzer.BucketRow | cde_harmonization/grouping/semantic_analyzer.py:41-46 | a row joins the first accepting grouping or starts its own; it fails with KeyError on a missing column, or on an unknown method once a grouping exists |
| SemanticAnalyzer.Bucket | cde_harmonization/grouping/semantic_analyzer.py:39-46 | the scan assigns a grouping to every row |
| SemanticAnalyzer.KeepShared | cde_harmonization/grouping/semantic_analyzer.py:47 | the result holds exactly the groupings with more than one member |
| SemanticAnalyzer.KeepSharedOrder | cde_harmonization/grouping/semantic_analyzer.py:47 | the size filter keeps creation order: it takes the groupings one by one, left to right, keeping one exactly when it has more than one member |
| SemanticAnalyzer.KeepSharedCounts | cde_harmonization/grouping/semantic_analyzer.py:47 | each shared grouping is kept as often as it occurs and no other grouping is kept |
| SemanticAnalyzer.BucketPrefixFailure | cde_harmonization/grouping/semantic_analyzer.py:40-46 | once a prefix of the rows raises, the whole scan raises the same exception |
| SemanticAnalyzer.FindGroupings | cde_harmonization/grouping/semantic_analyzer.py:37-48 | the method returns the scan's exception or its groupings filtered to those with more than one member |
| SemanticAnalyzer.BucketStep | cde_harmonization/grouping/semantic_analyzer.py:40-46 | a successful scan is the scan of all rows but the last, then one placement of the last row |
| SemanticAnalyzer.BucketShape | cde_harmonization/grouping/semantic_analyzer.py:42-46 | every row is assigned to one of the groupings built |
| SemanticAnalyzer.BucketHasCategories | cde_harmonization/grouping/semantic_analyzer.py:41 | every row of a successful scan has the category column |
| SemanticAnalyzer.BucketMembers | cde_harmonization/grouping/semantic_analyzer.py:42-46 | each grouping's members are exactly the rows assigned to it, in input order |
| SemanticAnalyzer.MembersNone | cde_harmonization/grouping/semantic_analyzer.py:46 | a grouping no row is assigned to has no members |
| SemanticAnalyzer.MemberCountUpdate | cde_harmonization/grouping/semantic_analyzer.py:46 | replacing one grouping changes the total member count by the difference in its size |
| SemanticAnalyzer.BucketCount | cde_harmonization/grouping/semantic_analyzer.py:40-46 | before the filter the groupings hold as many members as there are rows |
| SemanticAnalyzer.BucketKeys | cde_harmonization/grouping/semantic_analyzer.py:43-46 | every grouping is non-empty and keyed by its first member's categories |
| SemanticAnalyzer.KeysOf | cde_harmonization/grouping/semantic_analyzer.py:8 | one key per grouping |
| SemanticAnalyzer.RowDisciplineExtends | cde_harmonization/grouping/semantic_analyzer.py:43-46 | keys are only appended and assignments only extended, so a row's first-match record survives later rows |
| SemanticAnalyzer.BucketOnto | cde_harmonization/grouping/semantic_analyzer.py:43-46 | every grouping has at least one row assigned to it |
| SemanticAnalyzer.LastRowDiscipline | cde_harmonization/grouping/semantic_analyzer.py:41-46 | the last row rejected every grouping before its own; it was accepted by its joined grouping or keys the grouping it started |
| SemanticAnalyzer.BucketFirstMatch | cde_harmonization/grouping/semantic_analyzer.py:40-46 | the first-match discipline holds for every row |
| SemanticAnalyzer.EquivalenceKey | cde_harmonization/grouping/semantic_analyzer.py:28-30 | under equivalence a row's categories equal its grouping's key as multisets |
| SemanticAnalyzer.EquivalenceCoGrouping | cde_harmonization/grouping/semantic_analyzer.py:28-46 | under equivalence two rows share a grouping exactly when their categories are equal as multisets |
| SemanticAnalyzer.LacksStep | cde_harmonization/grouping/semantic_analyzer.py:41 | some row lacks the column exactly when a row before the last does or the last does |
| SemanticAnalyzer.BucketStepAfterSuccess | cde_harmonization/grouping/semantic_analyzer.py:40-46 | after a successful prefix, the last row's step decides; a grouping exists exactly when there were earlier rows |
| SemanticAnalyzer.BucketFailure | cde_harmonization/grouping/semantic_analyzer.py:26-41 | the scan raises exactly when a row lacks the column, or the method is unknown and there are at least two rows; with a known method only KeyError |
| SemanticAnalyzer.UnknownMethodRaises | cde_harmonization/grouping/semantic_analyzer.py:26-35 | an unknown method raises on the second row |
| SemanticAnalyzer.IntersectionComparesWithKeysOnly | cde_harmonization/grouping/semantic_analyzer.py:31-33 | [a], [a, b], [b] are assigned groupings 0, 0, 1: only the key is compared, not the members |
| Categorizer.KeptWords | cde_harmonization/grouping/categorizer.py:38 | the kept lemmas are exactly those that are neither stop words nor substrings of the punctuation string |
| Categorizer.Normalize | cde_harmonization/grouping/categorizer.py:35-38 | `normalize` fails exactly when the NLP pipeline does |
| Categorizer.EmptyWordDropped | cde_harmonization/grouping/categorizer.py:38 | the empty lemma never survives: it is a substring of the punctuation string |
| Categorizer.JoinNonEmpty | cde_harmonization/grouping/categorizer.py:38 | joining a list whose first item is non-empty gives a non-empty string |
| Categorizer.NormalizeEmptyIff | cde_harmonization/grouping/categorizer.py:38 | a category normalises to "" exactly when every lemma is a stop word or punctuation |
| Categorizer.NormalizeWords | cde_harmonization/grouping/categorizer.py:38 | splitting a label on spaces gives back the kept lemmas when they hold no space |
| Categorizer.NormalizeAll | cde_harmonization/grouping/categorizer.py:47-49 | the comprehension succeeds exactly when every candidate normalises, and then gives their labels in order |
| Categorizer.NewCategorizer | cde_harmonization/grouping/categorizer.py:17-24 | defaults `field_name` "categories" and `score_threshold` 0, each overridden by a caller option of that key |
| Categorizer.CategorizeRow | cde_harmonization/grouping/categorizer.py:47-50 | a failing `categorize_field` makes the row fail with its exception |
| Categorizer.CategorizeRowSucceeds | cde_harmonization/grouping/categorizer.py:47-50 | a row succeeds exactly when `categorize_field` and every normalisation succeed |
| Categorizer.CategorizeRowWritesOnlyCategories | cde_harmonization/grouping/categorizer.py:50 | only the category column is written; every other column keeps its value |
| Categorizer.CategorizeRowLabels | cde_harmonization/grouping/categorizer.py:47-50 | the category column is a list without duplicates holding exactly the normalised candidates, "" included |
| Categorizer.Outcomes | cde_harmonization/grouping/categorizer.py:45-54 | one outcome per row |
| Categorizer.Failures | cde_harmonization/grouping/categorizer.py:53 | at most one error entry per row |
| Categorizer.FailureEntry | cde_harmonization/grouping/categorizer.py:52-53 | every recorded error is a failing row, as copied, with its exception |
| Categorizer.FailingRowRecorded | cde_harmonization/grouping/categorizer.py:52-53 | every failing row is recorded with its exception |
| Categorizer.CategorizeCde | cde_harmonization/grouping/categorizer.py:40-59 | same length and order as the input; a succeeding row gets its labels, a failing row stays as copied, and `errors` lists the failures in order |
| Categorizer.Kept | cde_harmonization/grouping/categorizer.py:81 | the phrases kept from one document are at most as many as it has |
| Categorizer.KeptEntry | cde_harmonization/grouping/categorizer.py:81 | every kept phrase scored at least the threshold |
| Categorizer.KeptScoring | cde_harmonization/grouping/categorizer.py:81 | every phrase scoring at least the threshold is kept |
| Categorizer.KeyphraseFilter | cde_harmonization/grouping/categorizer.py:76-84 | a model exception, or a threshold that is no number, returns no phrases |
| Categorizer.KeyphraseEntry | cde_harmonization/grouping/categorizer.py:79-81 | every returned phrase scored at least the threshold in some document |
| Categorizer.KeyphraseScoring | cde_harmonization/grouping/categorizer.py:79-81 | every phrase a document scored at least the threshold is returned |
| Categorizer.KeyphraseFilterConcat | cde_harmonization/grouping/categorizer.py:80-81 | the filter of two batches of documents is the concatenation of their filters |
| Categorizer.Phrases | cde_harmonization/grouping/categorizer.py:81 | one phrase per scored entry |
| Categorizer.KeyphraseFilterKeepsAll | cde_harmonization/grouping/categorizer.py:80-81 | when every score reaches the threshold, the filter returns all phrases, document by document |
| Categorizer.KeptAll | cde_harmonization/grouping/categorizer.py:81 | a document whose scores all reach the threshold keeps all its phrases |
| Categorizer.Docs | cde_harmonization/grouping/categorizer.py:76 | raises KeyError exactly when a text field is missing; otherwise one value per field |
| Categorizer.KeyBertField | cde_harmonization/grouping/categorizer.py:75-84 | fails exactly when a text field is missing; otherwise the score filter of the model's output |
| Categorizer.SpanIds | cde_harmonization/grouping/categorizer.py:99-105 | exactly one id per token of every span, each token id present |
| Categorizer.SpanIdsConcat | cde_harmonization/grouping/categorizer.py:100-104 | the ids of two batches of spans are concatenated in order |
| Categorizer.Texts | cde_harmonization/grouping/categorizer.py:90 | the join's type check fails with TypeError exactly when some item is no string |
| Categorizer.FieldTexts | cde_harmonization/grouping/categorizer.py:90 | fails exactly when a text field is missing or no string; a missing field is a KeyError wherever it stands, and only with every field present is a non-string value a TypeError |
| Categorizer.RequestText | cde_harmonization/grouping/categorizer.py:90 | the same failures and kinds as the field texts; on success the request text is the fields' string values, in field order, joined by ". " (so one field gives its value, no fields give "") |
| Categorizer.MissingFieldBeforeType | cde_harmonization/grouping/categorizer.py:90 | a missing second field raises KeyError even when the first value is no string |
| Categorizer.SciGraphField | cde_harmonization/grouping/categorizer.py:89-105 | the nested loops return the token ids span by span and token by token; a missing field raises KeyError, else a non-string field TypeError, before any request; a failing request raises |
| CdeGroup.NewCategorizer | cde_harmonization/grouping/group.py:15-21 | raises TypeError exactly when the options hold `field_name` or `score_threshold`; otherwise "categories" and 0 |
| CdeGroup.CategorizeAllSucceeds | cde_harmonization/grouping/group.py:40-47 | the batch succeeds exactly when every row does, and then holds each categorized row in order |
| CdeGroup.CategorizeAllFirstError | cde_harmonization/grouping/group.py:41-45 | the exception of the first failing row escapes the whole batch |
| CdeGroup.CategorizeCde | cde_harmonization/grouping/group.py:37-47 | the loop over the copied rows computes the batch result |
| CdeGroup.ConceptualRows | cde_harmonization/grouping/group.py:73-75 | the conceptual strategy gives every row an empty category list and keeps its other columns |
| CdeGroup.KeyBertLabelsScoreNonNegative | cde_harmonization/grouping/group.py:62-71 | every KeyBERT label scored at least the fixed threshold 0 in some document |
| CdeGroup.KeyBertKeepsNonNegative | cde_harmonization/grouping/group.py:62-71 | every phrase scoring at least 0 is a KeyBERT label |
| LegacyGroup.NewCategorizer | grouping/group.py:11-15 | raises TypeError exactly when the options hold `field_name`; otherwise "categories" plus the options |
| LegacyGroup.AssignRow | grouping/group.py:26-27 | the row with the strategy's raw answer under the category column, every other column kept; a strategy exception is the row's |
| LegacyGroup.CategorizeAllSucceeds | grouping/group.py:24-29 | the batch succeeds exactly when the strategy does on every row; each row then holds the raw answer |
| LegacyGroup.CategorizeAllFirstError | grouping/group.py:25-28 | the first strategy exception escapes the batch |
| LegacyGroup.CategorizeCde | grouping/group.py:21-29 | the loop over the copied rows computes the batch result |
| LegacyGroup.ConceptualRows | grouping/group.py:31-33 | the conceptual strategy writes `[]` into every row |
| CsvCodec.ToRow | cde_harmonization/utils/cde_loader.py:46-47 | a row read from the file has the same columns, every value a string |
| CsvCodec.Unpack2 | cde_harmonization/utils/cde_loader.py:41 | unpacking the dict delimiters succeeds exactly for two characters or two items, raising TypeError for a number and ValueError otherwise |
| CsvCodec.EncodeEntries | cde_harmonization/utils/cde_loader.py:74-76 | one `key{inner}value` segment per dict entry |
| CsvCodec.EncodeValue | cde_harmonization/utils/cde_loader.py:71-76 | every encoded value is a string, and a string stays as it is |
| CsvCodec.EncodeRow | cde_harmonization/utils/cde_loader.py:70-76 | encoding keeps the row's columns |
| CsvCodec.EncodedKeepsStrings | cde_harmonization/utils/cde_loader.py:69-76 | however the loop ends, columns are neither added nor removed, strings keep their value, and every written value is a string |
| CsvCodec.EncodeRowInPlace | cde_harmonization/utils/cde_loader.py:70-76 | the inner loop rewrites only row `i`; it finishes exactly when the list delimiter is a string or the row has no list |
| CsvCodec.EncodeRowsInPlace | cde_harmonization/utils/cde_loader.py:69-76 | the caller's rows are rewritten in place: all encoded, or, after an exception, encoded up to the failing row |
| CsvCodec.SaveCsv | cde_harmonization/utils/cde_loader.py:64-80 | bad dict delimiters raise before any row changes; otherwise the rows are encoded in place, and an empty table raises IndexError |
| CdeLoader.NewLoader | cde_harmonization/utils/cde_loader.py:9-29 | caller options override the defaults key by key |
| CdeLoader.LoadCodec | cde_harmonization/utils/cde_loader.py:39-43 | reading the options fails exactly when the dict delimiters do not unpack |
| CdeLoader.DefaultCodec | cde_harmonization/utils/cde_loader.py:9-22 | the defaults are "," for lists, "," inside a pair, ";" between pairs, and no list or dict columns |
| CdeLoader.Contains | cde_harmonization/utils/cde_loader.py:49-51 | `field in option` is list membership or a substring test, and a TypeError for a number |
| CdeLoader.SplitCell | cde_harmonization/utils/cde_loader.py:50 | splitting fails exactly for a non-string cell or a delimiter that is not a non-empty string; the pieces join back to the cell |
| CdeLoader.DecodeDict | cde_harmonization/utils/cde_loader.py:52-54 | a decoded dict has distinct keys; a non-string cell raises AttributeError and a bad segment ValueError |
| CdeLoader.DecodeDictEntries | cde_harmonization/utils/cde_loader.py:52-54 | a decoded dict cell has the segments' keys in order of first appearance, and each key holds the value of its last segment |
| CdeLoader.RepeatedKeyDict | cde_harmonization/utils/cde_loader.py:52-54 | `dict([[k, v1], [k, v2]])` is `{k: v2}` |
| CdeLoader.RepeatedKeyLastWins | cde_harmonization/utils/cde_loader.py:52-54 | with "=" and ";" the cell "a=1;a=2" decodes to `{a: "2"}`: first position, last value |
| CdeLoader.UnnamedFieldKept | cde_harmonization/utils/cde_loader.py:48-54 | a column neither option names keeps its loaded string |
| CdeLoader.ListAndDictFieldRaises | cde_harmonization/utils/cde_loader.py:49-54 | a column named by both options raises AttributeError: the list has no `split` |
| CdeLoader.DecodeRowCells | cde_harmonization/utils/cde_loader.py:48-54 | a row decodes exactly when each column does; each column is decoded from its own value, and other columns stay |
| CdeLoader.DecodeRowFirstError | cde_harmonization/utils/cde_loader.py:48-54 | the row's exception is that of its first failing column |
| CdeLoader.DecodeRowsPrefixFailure | cde_harmonization/utils/cde_loader.py:47-55 | once a prefix of the rows fails, the load fails with the same exception |
| CdeLoader.DecodeRowsShape | cde_harmonization/utils/cde_loader.py:47-55 | the load succeeds exactly when every row decodes, and then gives one decoded row per record, in order |
| CdeLoader.DecodeRowsMap | cde_harmonization/utils/cde_loader.py:47-55 | the load is the record decoder applied to the records in order, the first exception escaping (Wrappers.MapResult) |
| CdeLoader.Columns | cde_harmonization/utils/cde_loader.py:46-48 | the reader's row keys: every header name exactly once |
| CdeLoader.DecodeRecordCells | cde_harmonization/utils/cde_loader.py:46-54 | a record decodes exactly when every named cell does, each name decoded once from its own cell even when the header repeats it; other cells stay |
| CdeLoader.RepeatedColumnOnce | cde_harmonization/utils/cde_loader.py:46-48 | a column named twice in the header decodes as if named once |
| CdeLoader.SplitExampleCell | cde_harmonization/utils/cde_loader.py:49-50 | the list cell "x\|y" split by "\|" is `["x", "y"]` |
| CdeLoader.OneColumnRecord | cde_harmonization/utils/cde_loader.py:46-50 | a record of one column decodes that cell alone: the decoded cell, or its exception |
| CdeLoader.RepeatedListColumn | cde_harmonization/utils/cde_loader.py:46-50 | a header "a", "a" with list column "a" and cell "x\|y" loads as `["x", "y"]` |
| CdeLoader.LoadCsv | cde_harmonization/utils/cde_loader.py:37-56 | the nested loops, over the records and over each record's distinct keys, compute the decoded rows |
| CdeLoader.Load | cde_harmonization/utils/cde_loader.py:31-36 | a path whose extension is "csv" is loaded; any other raises |
| CdeLoader.Save | cde_harmonization/utils/cde_loader.py:58-63 | a path whose extension is not "csv" raises and leaves the rows untouched; otherwise as `save_csv` |
| CdeLoader.ListRoundTrip | cde_harmonization/utils/cde_loader.py:50 | a non-empty list without the delimiter in its items loads back from its saved form |
| CdeLoader.EmptyListComesBackAsEmptyString | cde_harmonization/utils/cde_loader.py:50 | `[]` is saved as "" and loads back as `[""]` |
| CdeLoader.SegmentSplits | cde_harmonization/utils/cde_loader.py:53 | a `key{inner}value` segment splits into its key and value |
| CdeLoader.DictRoundTrip | cde_harmonization/utils/cde_loader.py:52-54 | a non-empty dict with distinct, delimiter-free keys and values loads back from its saved form, pairs in order |
| CdeLoader.EmptyDictCellRaises | cde_harmonization/utils/cde_loader.py:52-54 | an empty dict cell raises ValueError on load, so an empty dict does not round-trip |
| CdeLoader.FieldRoundTrip | cde_harmonization/utils/cde_loader.py:48-54 | under matching list/dict options, a saved list or dict column loads back as itself and a string stays a string |
| Loader.NewLoader | grouping/loader.py:20-25 | raises TypeError exactly when an option repeats a default key; otherwise defaults and options together |
| Loader.LoadCsv | grouping/loader.py:33-39 | one row per record, same columns, every value the raw string |
| Loader.Load | grouping/loader.py:27-32 | succeeds exactly for an extension "csv", with the raw rows |
| Loader.Save | grouping/loader.py:41-63 | a rejected extension raises and leaves the rows untouched; otherwise the in-place encoding of `save_csv` |
| Loader.DefaultDelimiters | grouping/loader.py:9-18 | without options, lists join with "," and dicts are `k,v` pairs joined by ";" |
| Js.Chars | harmonization-helper/src/app-context.tsx:126 | one string per character |
| Js.JsSplit | harmonization-helper/src/app-context.tsx:126-128 | with a non-empty separator the pieces join back to the string; "" splits into characters |
| Js.Assign | harmonization-helper/src/app-context.tsx:127-129 | `obj[key] = v`: the entry is present, others are kept, nothing else is added |
| Js.ZipRowLastWins | harmonization-helper/src/app-context.tsx:114-120 | each header name holds the cell of the last column with that name |
| Js.ZipRowKeys | harmonization-helper/src/app-context.tsx:114-120 | the keys of `ZipRow(header, cells)` are exactly the header names |
| Js.ZipRowValues | harmonization-helper/src/app-context.tsx:114-120 | every cell is a string or `undefined` |
| Js.ZipRows | harmonization-helper/src/app-context.tsx:113-120 | one row object `ZipRow(header, row)` per data row after the header |
| Converter.LabelInjective | harmonization-helper/src/converter.ts:15-21 | the decision strings are distinct |
| Converter.ObjectEntries | harmonization-helper/src/converter.ts:53 | `Object.entries` of an object gives its entries, of a string or array its indexed items; `undefined` throws TypeError |
| Converter.Validate | harmonization-helper/src/converter.ts:53-55 | a row is refused exactly when its categories are falsy or its matches are missing or empty; missing matches throw TypeError, the rest InvalidAnalysisDictError |
| Converter.NodeOf | harmonization-helper/src/converter.ts:48-60 | the node has every column but `matches`, and the id under the id field |
| Converter.PendingOf | harmonization-helper/src/converter.ts:61 | one queued edge per match entry |
| Converter.NodesOf | harmonization-helper/src/converter.ts:56-60 | one node per row |
| Converter.PendingsOf | harmonization-helper/src/converter.ts:61 | one list of queued edges per row |
| Converter.CollectPrefixFailure | harmonization-helper/src/converter.ts:47-62 | once a prefix of the rows throws, the conversion throws the same |
| Converter.KeptSnoc | harmonization-helper/src/converter.ts:49-52 | one more row joins the kept rows exactly when its id is `Truthy` (JavaScript truthiness on the modelled values: `undefined` and `""` are falsy, other strings, arrays and objects truthy) |
| Converter.CollectSucceeds | harmonization-helper/src/converter.ts:47-62 | the first loop succeeds exactly when every row with an id has categories and matches |
| Converter.CollectSnoc | harmonization-helper/src/converter.ts:47-62 | one more row extends the nodes and queue by its own `Step` (skip, refuse, or one node and its queued matches) |
| Converter.ReferenceSnoc | harmonization-helper/src/converter.ts:56-61 | one more kept row adds its node and queued edges at the end |
| Converter.CollectValue | harmonization-helper/src/converter.ts:47-62 | the nodes are the rows with an id, in order, without matches; the queue lists their matches row by row |
| Converter.CollectFirstError | harmonization-helper/src/converter.ts:49-55 | the first invalid row with an id decides the exception |
| Converter.FindBySuffix | harmonization-helper/src/converter.ts:64-65 | a failing lookup is a TypeError |
| Converter.FindBySuffixFirst | harmonization-helper/src/converter.ts:64-65 | the lookup returns the id of the first node whose id ends with the key |
| Converter.FindBySuffixSucceeds | harmonization-helper/src/converter.ts:64-65 | a successful lookup is such a first node |
| Converter.EmptySuffixFindsFirstNode | harmonization-helper/src/converter.ts:64-65 | the empty key resolves to the first node: every id ends with "" |
| Converter.Convert | harmonization-helper/src/converter.ts:41-74 | succeeds exactly when both loops do; the nodes are the collected ones and there is one edge per queued match |
| Converter.ConvertEdgesJoinNodes | harmonization-helper/src/converter.ts:63-72 | each edge's ends are ids of nodes ending with `ToString` of the ids it was queued with; the score is the raw match value and the decision null |
| Converter.ConvertCounts | harmonization-helper/src/converter.ts:46-72 | one node per row with an id and one edge per match |
| Converter.CollectRows | harmonization-helper/src/converter.ts:47-62 | the first `forEach` computes `Collect`, the fold of `Step` over the rows |
| Converter.CreateEdges | harmonization-helper/src/converter.ts:63-72 | the second `forEach` resolves every queued match in order |
| Converter.ConvertAnalysisDictToNetwork | harmonization-helper/src/converter.ts:41-74 | the two loops compute the converted network |
| Algorithms.Endpoints | harmonization-helper/src/algorithms.ts:72 | two endpoints per edge, source first |
| Algorithms.EndpointsMembership | harmonization-helper/src/algorithms.ts:41-55 | an id is an endpoint exactly when some edge starts or ends at it |
| Algorithms.IndexOf | harmonization-helper/src/algorithms.ts:44-55 | the position of the first occurrence, or the length when absent |
| Algorithms.IndexOfDistinct | harmonization-helper/src/algorithms.ts:44-55 | without duplicates, an element's position is its index |
| Algorithms.IdsPrefix | harmonization-helper/src/algorithms.ts:40-55 | the ids of a prefix of the edges are a prefix of all the ids |
| Algorithms.EndpointsPrefix | harmonization-helper/src/algorithms.ts:72 | the endpoints of a prefix are a prefix of the endpoints |
| Algorithms.Encode | harmonization-helper/src/algorithms.ts:44-55 | a known id keeps its index, a new one takes the counter and the counter advances; earlier codes are kept |
| Algorithms.IdsSnoc | harmonization-helper/src/algorithms.ts:41-55 | one more edge extends the ids by its source, then its target |
| Algorithms.PushLinked | harmonization-helper/src/algorithms.ts:56-57 | pushing both directions of edge `k` extends the adjacency invariant to `k + 1` edges |
| Algorithms.EncodeEdge | harmonization-helper/src/algorithms.ts:42-55 | encodes source then target, dense indices in order of first appearance |
| Algorithms.Push | harmonization-helper/src/algorithms.ts:56-57 | `dest` is appended to `src`'s list, then `src` to `dest`'s list |
| Algorithms.AddEdge | harmonization-helper/src/algorithms.ts:41-58 | `addEdge` fails exactly when an index exceeds the node count; otherwise the edge is listed both ways |
| Algorithms.AddEdges | harmonization-helper/src/algorithms.ts:37-72 | throws TypeError exactly when the edges carry more distinct ids than there are nodes; otherwise a symmetric adjacency list of the edges |
| Algorithms.SliceSplit | harmonization-helper/src/algorithms.ts:61 | the suffix after `c` of an extended list is the old suffix then what was appended |
| Algorithms.SpannedExtend | harmonization-helper/src/algorithms.ts:62-65 | a search from a neighbour, appended, keeps the preorder tree |
| Algorithms.ClosedConcat | harmonization-helper/src/algorithms.ts:62-65 | neighbour-closure survives more visiting and concatenation |
| Algorithms.NewlyVisitedConcat | harmonization-helper/src/algorithms.ts:60-65 | the vertices newly visited over two stretches are those of both, each once |
| Algorithms.SearchStep | harmonization-helper/src/algorithms.ts:62-65 | a finished recursive search from an unvisited neighbour extends the search |
| Algorithms.Dfs | harmonization-helper/src/algorithms.ts:59-68 | the appended vertices start with `v`, are exactly the newly visited ones, each once, in tree preorder; every neighbour of one of them is visited |
| Algorithms.BackEdge | harmonization-helper/src/algorithms.ts:74-77 | a search from outside the found components reaches none of their vertices |
| Algorithms.SearchComplete | harmonization-helper/src/algorithms.ts:74-77 | a finished search from a fresh vertex is closed under neighbours |
| Algorithms.CoverStep | harmonization-helper/src/algorithms.ts:74-77 | the visited vertices are those of the components found |
| Algorithms.PiecesStep | harmonization-helper/src/algorithms.ts:74-77 | a new component led by `v` keeps the parts disjoint and ordered by leader |
| Algorithms.ExploreStep | harmonization-helper/src/algorithms.ts:74-77 | a search from unvisited `v` adds one component |
| Algorithms.Components | harmonization-helper/src/algorithms.ts:69-78 | every vertex lies in exactly one component; components are led by their smallest vertex in increasing order, spanned by a tree of edges and closed under neighbours |
| Algorithms.EncodedIndex | harmonization-helper/src/algorithms.ts:44-55 | the code of an id is its position among the ids |
| Algorithms.LinkedSymmetric | harmonization-helper/src/algorithms.ts:56-57 | the adjacency lists are symmetric |
| Algorithms.EdgeTogether | harmonization-helper/src/algorithms.ts:56-78 | both ends of every edge are in the same component |
| Algorithms.TreeJoined | harmonization-helper/src/algorithms.ts:62-65 | each later member of a component is joined by an edge to an earlier one |
| Algorithms.LinkedComponents | harmonization-helper/src/algorithms.ts:56-78 | the components of the lists are the components of the edges (`EdgeComponents`: each is a maximal set of vertices joined by chains of edges) |
| Algorithms.ChainSameComponent | harmonization-helper/src/algorithms.ts:59-68 | ids linked by a chain of edges are in the same component |
| Algorithms.NodeId | harmonization-helper/src/algorithms.ts:82 | the id encoded as `u`, or `undefined` exactly for a vertex no edge mentions |
| Algorithms.EncodedKey | harmonization-helper/src/algorithms.ts:82 | the key mapped to `u` is the id at position `u`, whatever the key order |
| Algorithms.FindNode | harmonization-helper/src/algorithms.ts:83 | none exactly when no node has the id; otherwise a node with it |
| Algorithms.EdgesFrom | harmonization-helper/src/algorithms.ts:86 | exactly the edges whose source is the node's id; an `undefined` node throws TypeError when there is an edge |
| Algorithms.ClusterOfShape | harmonization-helper/src/algorithms.ts:81-89 | a component's sub-network exists unless a node is missing and there are edges; its nodes are those of its vertices in search order |
| Algorithms.ClusterEdgesBySource | harmonization-helper/src/algorithms.ts:86 | a sub-network's edges are exactly the edges whose source is one of its vertices |
| Algorithms.ClustersSucceed | harmonization-helper/src/algorithms.ts:80-89 | `Clusters` (one sub-network per component) exists unless some vertex's node is missing and there are edges; the error is TypeError |
| Algorithms.EdgeInOneCluster | harmonization-helper/src/algorithms.ts:84-87 | every edge lands in exactly one sub-network, the one holding its source |
| Algorithms.UnmentionedNodeFails | harmonization-helper/src/algorithms.ts:82-83 | a node no edge mentions, with at least one edge, makes the node lookup fail |
| Algorithms.ConnectedComponents | harmonization-helper/src/algorithms.ts:36-90 | throws TypeError exactly when there are more ids than nodes or a vertex's node is missing with edges present; otherwise `r == Clusters(comps, ..)` for `comps` meeting `EdgeComponents`: one sub-network per component of the edges |
| AppContext.DecodeCategories | harmonization-helper/src/app-context.tsx:126 | `undefined` stays `undefined`; a string becomes its pieces, which join back to it; anything else throws TypeError |
| AppContext.AssignLookup | harmonization-helper/src/app-context.tsx:127-129 | after `obj[key] = v` the key reads `v` and every other key reads as before |
| AppContext.AssignNew | harmonization-helper/src/app-context.tsx:127-129 | assigning an absent key appends it |
| AppContext.AssignNames | harmonization-helper/src/app-context.tsx:127-129 | a new key is appended to the key list; a known key leaves it unchanged |
| AppContext.FromEntriesLastWins | harmonization-helper/src/app-context.tsx:127-129 | in `FromEntries(es)` a key exists exactly when some entry names it, and it holds the value of the last such entry |
| AppContext.FromEntriesDistinct | harmonization-helper/src/app-context.tsx:127-129 | the object's keys are distinct |
| AppContext.FromDistinctPairs | harmonization-helper/src/app-context.tsx:127-129 | two-item entries with distinct keys give the pairs in order |
| AppContext.Pieces | harmonization-helper/src/app-context.tsx:128 | one entry per dict segment |
| AppContext.DecodeMatches | harmonization-helper/src/app-context.tsx:127-129 | `undefined` gives `{}`; a string gives an object with distinct keys; anything else throws TypeError |
| AppContext.DecodeRow | harmonization-helper/src/app-context.tsx:124-131 | the row gains `categories` and `matches`, with `matches` an object, and every other column is kept; failures are TypeErrors |
| AppContext.ZippedRowsDecode | harmonization-helper/src/app-context.tsx:114-131 | rows zipped from the parsed file always decode |
| AppContext.DecodeRows | harmonization-helper/src/app-context.tsx:124-131 | the `map` over the rows decodes each row in turn |
| AppContext.CategoriesRoundTrip | harmonization-helper/src/app-context.tsx:126 | a non-empty list joined by a one-character delimiter none of its items holds decodes to the same list |
| AppContext.MatchesRoundTrip | harmonization-helper/src/app-context.tsx:127-129 | a non-empty dict saved by the Python loader decodes in the browser to the same pairs in order, each value a string |
| AppContext.KeysDistinct | cde_harmonization/utils/cde_loader.py:74-76 | distinct dict keys are distinct pairwise |
| AppContext.PiecesArePairs | harmonization-helper/src/app-context.tsx:127-128 | the split segments of a saved dict are its key/value pairs |
| AppContext.EmptyMatchesCell | harmonization-helper/src/app-context.tsx:127-129 | an empty `matches` cell decodes to `{"": undefined}`, not to `{}` |
| AppContext.JoinEmptyPieces | harmonization-helper/src/app-context.tsx:126-128 | pieces that join to "" with a non-empty separator are `[""]` |
| AppContext.EmptyMatchesResolveToFirstNode | harmonization-helper/src/converter.ts:53-65 | a row with an empty `matches` cell passes the empty-matches check with the one match "", which resolves to the first node |
| AppContext.EmptyCategoriesPass | harmonization-helper/src/app-context.tsx:126 | an empty `categories` cell decodes to `[""]`, which is truthy |
| AppContext.FindCommunity | harmonization-helper/src/app-context.tsx:76 | none exactly when no entry has the key; otherwise an entry with it |
| AppContext.ActiveCommunityMeaning | harmonization-helper/src/app-context.tsx:74-78 | the lookup succeeds exactly on the two algorithm keys, gives the community stored under the active key, and otherwise throws TypeError |
| AppContext.AppState.constructor | harmonization-helper/src/app-context.tsx:53 | no analysis at first |
| AppContext.AppState.SetActiveCommunityAlgorithm | harmonization-helper/src/app-context.tsx:79-82 | only the active key changes, and nothing changes without an analysis |
| AppContext.AppState.ClearAnalysis | harmonization-helper/src/app-context.tsx:110 | the analysis becomes null |
| AppContext.AppState.LoadAnalysisFile | harmonization-helper/src/app-context.tsx:112-181 | cancel resets; a decode exception leaves the state; a conversion or clustering exception resets; otherwise the decoded rows, their network, the "distinctSubgraphs" components and the Newman clusters, with "distinctSubgraphs" active |
| AppContext.SwitchCommunity | harmonization-helper/src/app-context.tsx:74-82 | after a load the active community is the distinct subgraphs; switching to "fastWeightedNewman" looks up the Newman clusters and changes nothing else |
| KgxLoader.NodeIds | category-viewer/src/kgx-loader.js:11 | one id per node |
| KgxLoader.AddNode | category-viewer/src/kgx-loader.js:11-17 | a node is pushed only when its id is new; edges are unchanged; ids stay unique |
| KgxLoader.Edges | category-viewer/src/kgx-loader.js:29-32 | one category→field edge per category piece, duplicates kept; the field end is `FieldId(row)`: `ToString(variable_name) + ":" + ToString(survey_name)`, or "0" when `survey_name` is not `Truthy` |
| KgxLoader.AddCategories | category-viewer/src/kgx-loader.js:19-33 | every piece gets a node (appended only if new, as a category node) and an edge; ids stay unique |
| KgxLoader.AllEdgesSnoc | category-viewer/src/kgx-loader.js:6-34 | one more row appends its edges |
| KgxLoader.KgxEdges | category-viewer/src/kgx-loader.js:6-34 | the network exists exactly when no kept row has non-string categories, and its edges are every row's category edges in order |
| KgxLoader.TouchedGrows | category-viewer/src/kgx-loader.js:29-32 | an edge present before a step is present after |
| KgxLoader.HasNodeGrows | category-viewer/src/kgx-loader.js:12-28 | a node present before a step is present after |
| KgxLoader.RowEdgesJoinNodes | category-viewer/src/kgx-loader.js:11-32 | after a row, both ends of every edge are node ids |
| KgxLoader.RowNodesTouched | category-viewer/src/kgx-loader.js:11-32 | after a row with a category, every node has an edge |
| KgxLoader.TouchedStep | category-viewer/src/kgx-loader.js:19-32 | appending the edges of a row keeps every old and new node touched |
| KgxLoader.RowNodeKinds | category-viewer/src/kgx-loader.js:12-28 | every node is a field node or a category node of size 75 |
| KgxLoader.RowStepWellFormed | category-viewer/src/kgx-loader.js:7-33 | one `RowStep` keeps the network well formed: unique ids, the two node shapes, edges between nodes, no isolated node |
| KgxLoader.KgxWellFormed | category-viewer/src/kgx-loader.js:3-39 | every network `Kgx` (the fold of `RowStep`) returns is well formed |
| KgxLoader.KgxPrefixFailure | category-viewer/src/kgx-loader.js:6-34 | a failed prefix fails the whole loop |
| KgxLoader.PushCategories | category-viewer/src/kgx-loader.js:19-33 | the inner `forEach` computes the category step |
| KgxLoader.CdeToNetwork | category-viewer/src/kgx-loader.js:3-39 | the loops compute `Kgx(cde)`, the fold of `RowStep` over the rows: skip a row without a truthy `variable_name` or `categories`, push the field node `FieldId(row)` if new, then one category node (if new) and one edge per piece |
| KgxLoader.ZippedRowsDoNotThrow | category-viewer/src/kgx-loader.js:7-9 | rows zipped from a parsed CSV always give a network |
| CategoryViewer.OutDegree | category-viewer/src/App.js:25 | at most the number of edges |
| CategoryViewer.InDegree | category-viewer/src/App.js:26 | at most the number of edges |
| CategoryViewer.OutDegreeZero | category-viewer/src/App.js:25 | zero exactly when no edge leaves the id |
| CategoryViewer.InDegreeZero | category-viewer/src/App.js:26 | zero exactly when no edge enters the id |
| CategoryViewer.Degree | category-viewer/src/App.js:27 | in plus out degree is zero exactly when no edge touches the id |
| CategoryViewer.OutDegreeSnoc | category-viewer/src/App.js:25 | one more edge adds one to its source's out-degree only |
| CategoryViewer.InDegreeSnoc | category-viewer/src/App.js:26 | one more edge adds one to its target's in-degree only |
| CategoryViewer.KgxDegreesPositive | category-viewer/src/App.js:27 | no node of a built network has degree zero |
| CategoryViewer.SortedCategories | category-viewer/src/App.js:81-83 | a permutation (same multiset) of the category nodes, by out-degree, largest first |
| CategoryViewer.CategoryOptionsShape | category-viewer/src/App.js:81-89 | `CategoryOptions` has one option per category node, each keyed and valued by its id and captioned `Label(g, id)`, "id (out-degree)", every category node offered |
| CategoryViewer.CategoryOptionsOrdered | category-viewer/src/App.js:83 | options come most outgoing edges first |
| CategoryViewer.OptionLabelDegree | category-viewer/src/App.js:87 | the number in `Label(g, id)` reads back as the out-degree of `id` |
| CategoryViewer.UploadFile | category-viewer/src/App.js:91-112 | a file is loaded exactly when its name ends with ".csv" |
| CategoryViewer.UploadedRows | category-viewer/src/App.js:98-104 | one row object per data row, keyed by the header names; the last column of a name wins |
| CategoryViewer.UploadedNetworkExists | category-viewer/src/App.js:19-23 | the network of uploaded rows never throws |
| CategoryViewer.FindIndex | category-viewer/src/App.js:44 | none exactly when no node has the id; otherwise the first node having it |
| CategoryViewer.MarkKeeps | category-viewer/src/App.js:43-47 | highlighting keeps id and kind |
| CategoryViewer.MarkEffect | category-viewer/src/App.js:45-46 | a node highlighted `k` times is red and its size multiplied by 2^k (NaN when unset); nothing else changes |
| CategoryViewer.HighlightPrefixFailure | category-viewer/src/App.js:43-47 | a failed prefix of the selection fails the whole loop |
| CategoryViewer.HighlightStep | category-viewer/src/App.js:44-46 | one more selected id highlights the first node with that id |
| CategoryViewer.HighlightShape | category-viewer/src/App.js:43-47 | `Highlight` (the `forEach` over the selected ids) succeeds exactly when every selected id names a node, else TypeError; only the first node of each selected id changes |
| CategoryViewer.StageIds | category-viewer/src/App.js:48-54 | the surviving ids are the ids of nodes both node filters keep |
| CategoryViewer.FilterGraph | category-viewer/src/App.js:37-66 | throws TypeError exactly when a selected id has no node; otherwise, from the `Highlight`ed copy, the kept edges are exactly the original edges between surviving nodes, and the kept nodes exactly the surviving nodes such an edge touches |
| CategoryViewer.FilteredInvariants | category-viewer/src/App.js:48-63 | kept categories were selected; kept fields have an original edge from each selected category; kept edges join kept nodes; every kept node has degree at least 1 |
| CategoryViewer.HighlightKeeps | category-viewer/src/App.js:43-47 | highlighting keeps every node's id and kind in place |
| CategoryViewer.FieldLinkKept | category-viewer/src/App.js:49-59 | the edge from a surviving selected category to a kept field is kept |
| CategoryViewer.FilteredFieldsLinked | category-viewer/src/App.js:49-63 | when every selected id is a category node, each kept field has a kept edge from each selected category |
| CategoryViewer.FilteredHighlights | category-viewer/src/App.js:43-63 | with unique ids, every kept node is an original node highlighted once per selection of its id; a selected kept node is red |

## Left out

- The NLP models and remote services are supplied functions (`Nlp`, `categorizeField`, `extract`, `annotate`). These are spaCy lemmas and stop words, Rake, KeyBERT with its vectorizer, and the SciGraph request. `RakeKeywordCategorizer` is only such a function.
- File and parse I/O are not modelled. This covers `open`, `csv.DictReader`/`DictWriter`, `Papa.parse` and `FileReader`. A CSV file is given as its header and rows; the writer's output is not modelled.
- `newmanCluster` (algorithms.ts) runs the foreign `netclustering` library. It is a parameter `newman` of `LoadAnalysisFile`.
- The user interface is not modelled: JSX, `Modal`, `message`, the metadata form (its answer is a parameter), and the palette colours of category nodes.
- `permissibleCategories` in App.js is only logged, never used, so it is not modelled. `fieldNodes` and the filtered node lists for display are not modelled either.
- Floating point is not modelled. Scores stay the raw matches value, without `parseFloat`. Thresholds are `real`.
- Logging, `analyze_cde`'s printing, and the CLI plumbing are not modelled.
- Aliasing is not modelled. Rows are Dafny values, so "the caller's rows are unchanged" holds by construction for the deep copies. The in-place mutation of rows shared by `cdeJson` and `analysisDict` in app-context.tsx, or by the shallow copies in `filteredGraph`, is not observable. `save_csv`'s in-place rewrite is modelled on an `array<Row>`.
- JavaScript's ordering of integer-like object keys before other keys is not modelled. `Object.keys`/`Object.entries` keep insertion order in this model.
- Categorizer.NewCategorizer: the source accepts any value as `field_name`; the model refuses a non-string category column at construction with TypeError, since a row cannot have such a key.
- Categorizer.KeyphraseFilter: an exception of the model while its output is being iterated (after some documents) is not modelled; the model raises before any document or not at all.
- Categorizer.CategorizeRow: `list(set(...))` has no fixed order in Python (string hashing varies between processes). The model lists the labels in first-occurrence order, one admissible order. So Categorizer.CategorizeCde, CdeGroup.CategorizeCde and CdeGroup.CategorizeAllSucceeds fix a label order, and through `save` a cell text such as "a|b", that the program does not guarantee; Categorizer.CategorizeRowLabels states only which labels, each once.
- CdeLoader.LoadCsv: `restkey`/`restval` rows of `csv.DictReader` (short or long lines) are not modelled; every record holds every header column.
- Algorithms.Dfs: the exact preorder of the members is stated as a preorder of some spanning tree led by the component's smallest vertex, not as the precise order of neighbour iteration.
- Algorithms.ClusterEdgesBySource: the count of each edge in a sub-network is stated only as membership; with an id repeated among the nodes an edge can be listed twice.
- Algorithms.UnmentionedNodeFails: in the source this is the non-null assertion on `find` failing, which crashes only on the first property read. The model reports that read as a TypeError.
- CategoryViewer.SortedCategories: the sort is stable, but the model does not state that equal out-degrees keep their input order.
- CategoryViewer.FilterGraph: the order of the kept nodes and edges is not stated, only which are kept.
- CategoryViewer.OutDegree, CategoryViewer.InDegree: the functions' own contracts only bound the count; its meaning is stated by the Zero/Snoc lemmas beside them.
- AppContext.CategoriesRoundTrip, AppContext.MatchesRoundTrip: the round trips are proved for one-character delimiters, the defaults.
- KgxLoader.RowNodeKinds: the category node's `color` from the palette is not modelled.
- Items of `categories` and values of `matches` that are not strings (a CSV cell is always a string or absent) are not modelled.
- Converter.FindBySuffix: a node whose id is no string throws when the scan reaches it; a number id's `endsWith` is not modelled separately.
