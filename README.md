# Lost-Finder core, modelled in Dafny

Lost-Finder searches the Internet Archive for texts that few people have found: texts with
sparse metadata and few downloads. This project models the program's core and proves
properties of the model:

- **the query builder** (`searchArchive`): the search form's options become the clause list
  of an advanced-search query. The list is joined into the `q` parameter, which is followed
  by the fixed request parameters.
- **the lostness index** (`calculateLostnessIndex`): a score made of penalties for a missing
  creator (30), subject (25) and language (15), plus a rarity term `min(30, round(100 / (downloads + 1)))`.
  Every document of a search answer is given its score.
- **the ranker** (`sortedResults`, `handleSort`): a stable sort of a copy of the results with
  the table's comparator, plus the rule that sets the sort key and direction when a column
  header is clicked. The table starts sorted by lostness index, highest first.
- **the CSV exporter** (`handleExport`): one header row of ten column titles, then one row
  per result. Lists are joined with `"; "`, timestamps are cut at their `T`, and cells are
  escaped by `escapeCsv`. A quote-aware reader, defined here to check the escaping, reads
  every cell text back.

Modules, one per file:

| file | module | contents |
|---|---|---|
| `wrappers.dfy` | `Wrappers` | `Option` |
| `types.dfy` | `ArchiveTypes` | search options, archive records, sort keys and configurations |
| `strings.dfy` | `Strings` | `join`, `split`, `trim`, `String(n)` for integers, string `<` |
| `query_builder.dfy` | `QueryBuilder` | the query clauses, `q`, the request parameters |
| `lostness.dfy` | `Lostness` | the index and its attachment to search answers |
| `stable_sort.dfy` | `StableSort` | the stable sort behind `Array.prototype.sort`, as a function and as an in-place method |
| `ranker.dfy` | `Ranker` | the comparator, the sorted view, the header-click rule, the `RankerState` class |
| `csv_export.dfy` | `CsvExport` | the exporter and the reader used for the round trip |

Modelling choices:

- **Form numbers.** The form's numbers are `int`. The empty field, `NaN` and `0` are all
  falsy in the source, so all three are represented as `0`.
- **Lists.** A field that may be absent, a string or a list of strings is `Multi`.
- **Absent and empty values.** The source's truthiness tests are kept exactly. For the
  lostness index, an empty string or an empty list counts as missing.
- **Comparisons.** The comparator compares JavaScript values. An absent field is `?? 0`,
  and a list is its `toString` (the entries joined with `,`). Two numbers compare by value
  and two strings by character order. A number and a string compare by converting the
  string with `Number(...)`; when the conversion gives `NaN`, both `<` and `>` are false.
- **Sort engine.** The stable sort is an insertion sort. It is a function (`StableSort.Sort`)
  and an in-place method on an array copy of the results (`StableSort.SortInPlace`), and the
  method is proved to compute the function. It is stable, as the language standard has
  required of `Array.prototype.sort` since ES2019.
- **The download.** The file the browser is asked to save is a `Download` value: name, MIME
  type and content.

Two behaviours of the code that one might expect to be otherwise:

- **Empty language.** An empty `language` string is penalised like an absent one, because
  the test is `!item.language`. One might expect only an absent language to count.
- **Empty results.** Exporting no results produces no file (`HandleExport` returns `None`),
  because the function returns before it builds anything. One might expect a file holding
  only the header row. `CsvDocument([])` is that header-only text, and `ExportRoundTrip`
  covers it.

## Model

| member | source | states |
|---|---|---|
| QueryBuilder.QueryClauses | services/archiveService.ts:6-32 | the clause list `queryParts` ends up holding; `BuildQueryParts` is proved to compute it, and `InQueryClauses`, `ClauseCountAndLast`, `FlagClausePositions` and the other lemmas below state which clauses it holds and where |
| QueryBuilder.QueryString | services/archiveService.ts:34 | `q`, the clauses joined with " AND "; `QueryStringEndsWithMediaType` and `QueryStringStartsWithYearIff` state how it ends and begins |
| QueryBuilder.BuildQueryParts | services/archiveService.ts:6-32 | the conditional pushes build exactly the clause list, in its fixed order: year, downloads, collection, subject, creator, language, pages, free text, media type |
| QueryBuilder.PushFlags | services/archiveService.ts:26-29 | the four flag pushes append exactly the clauses of the flags that are set, in the order subject, creator, language, pages, after what was there |
| QueryBuilder.SearchParams | services/archiveService.ts:34-43 | the request parameters are `q` (the clauses joined with " AND "), `output=json`, `rows=100`, `page=1`, then one `fl[]` per requested field, in order |
| QueryBuilder.AppendFields | services/archiveService.ts:43 | appends one `fl[]` parameter per field, in field order, and keeps the parameters that precede them |
| QueryBuilder.DownloadsClause | services/archiveService.ts:12 | the downloads clause starts with `do`, which tells it apart from every other kind of clause |
| QueryBuilder.TrimAndDrop | services/archiveService.ts:17-18 | trimming and dropping empty pieces yields no more tokens than pieces, and never an empty token; which tokens survive, and in what order, is stated by the three lemmas below |
| QueryBuilder.TrimAndDropSingle | services/archiveService.ts:17-18 | one piece gives its trim, or nothing when the trim is empty |
| QueryBuilder.TrimAndDropAppend | services/archiveService.ts:17-18 | the tokens of a concatenation of pieces are the tokens of the first part followed by those of the second: every non-blank piece's trim reaches the query, in piece order |
| QueryBuilder.TrimAndDropMembers | services/archiveService.ts:17-18 | a token survives iff it is non-empty and the trim of some piece |
| QueryBuilder.CollectionTokens | services/archiveService.ts:15-18 | the collection names left after splitting at commas, trimming and dropping the empty pieces; `CollectionTokensShape`, `TrimAndDropAppend` and `TrimAndDropMembers` state which names survive and their shape |
| QueryBuilder.CollectionsList | services/archiveService.ts:15-20 | the quoted names joined with " OR "; `NoCollectionClauseIffBlank` states when it is empty and `CollectionExample` gives an instance |
| QueryBuilder.QuoteAll | services/archiveService.ts:19 | each token is wrapped in double quotes, one for one, order kept |
| QueryBuilder.YearClauses | services/archiveService.ts:8-10 | every year clause starts with `ye` |
| QueryBuilder.CollectionClauses | services/archiveService.ts:14-24 | every collection clause starts with `co` |
| QueryBuilder.SubjectClauses | services/archiveService.ts:26 | the subject clause starts with `-s` |
| QueryBuilder.CreatorClauses | services/archiveService.ts:27 | the creator clause starts with `-c` |
| QueryBuilder.LanguageClauses | services/archiveService.ts:28 | the language clause starts with `-l` |
| QueryBuilder.PagesClauses | services/archiveService.ts:29 | the short-document clause starts with `pa` |
| QueryBuilder.QueryTextClauses | services/archiveService.ts:30 | the free-text clause starts with `(` |
| QueryBuilder.InQueryClauses | services/archiveService.ts:6-32 | a clause is in the list iff it is one of the pieces: year, downloads, collection, one of the four flags, free text, media type |
| QueryBuilder.ClauseKind | services/archiveService.ts:6-32 | a clause of the list that starts like a year, flag or free-text clause comes from that piece and no other |
| QueryBuilder.PieceKind | services/archiveService.ts:6-32 | the first two characters of a piece's clause determine the piece |
| QueryBuilder.YearClauseIffBothYears | services/archiveService.ts:8-10 | a year range is in the list iff both years are truthy; it is then the first clause, exactly `year:[start TO end]` |
| QueryBuilder.YearClauseInitials | services/archiveService.ts:9 | a clause starting with `year:[` starts with `ye` |
| QueryBuilder.YearClauseIsYear | services/archiveService.ts:9 | the rendered year clause starts with `year:[` |
| QueryBuilder.DownloadsClauseAlways | services/archiveService.ts:12 | the downloads clause is always present, right after the optional year clause, with ceiling `maxDownloads || 5000`; the ceiling is 5000 iff the option is 0 or 5000 |
| QueryBuilder.TrimmedPieceClean | services/archiveService.ts:17 | a trimmed comma-free piece that is not empty has no comma and no whitespace at either end |
| QueryBuilder.TrimAndDropShape | services/archiveService.ts:15-18 | every token left by trimming and dropping comma-free pieces is non-empty, comma-free and trimmed |
| QueryBuilder.CollectionTokensShape | services/archiveService.ts:15-18 | no collection name that reaches the query is empty, holds a comma, or has whitespace at its ends |
| QueryBuilder.SplitAllBlank | services/archiveService.ts:16-18 | every piece of the split is blank iff the filter holds only commas and whitespace |
| QueryBuilder.TrimAndDropEmpty | services/archiveService.ts:17-18 | no token survives iff every piece is whitespace |
| QueryBuilder.NoCollectionClauseIffBlank | services/archiveService.ts:14-24 | no collection clause is emitted iff the filter holds only commas and whitespace; otherwise the clause is the quoted names joined with " OR " in parentheses |
| QueryBuilder.CollectionExample | services/archiveService.ts:15-20 | the filter `americana, toronto` gives `"americana" OR "toronto"` |
| QueryBuilder.CollectionExampleSplit | services/archiveService.ts:16 | `americana, toronto` splits into `americana` and ` toronto` |
| QueryBuilder.CollectionExampleTrim | services/archiveService.ts:17 | trimming gives `americana` and `toronto` |
| QueryBuilder.FlagClausesIff | services/archiveService.ts:26-29 | each flag clause is in the list iff its flag is set |
| QueryBuilder.FlagMembership | services/archiveService.ts:26-29 | each flag clause is among the flag clauses iff its flag is set |
| QueryBuilder.FlagClauseIff | services/archiveService.ts:26-29 | a flag clause is in the whole list iff it is among the flag clauses: no other piece can produce it |
| QueryBuilder.FlagClauseOrder | services/archiveService.ts:26-29 | with every flag set, the four flag clauses come right after the collection clause, in the order subject, creator, language, pages |
| QueryBuilder.FlagClausePositions | services/archiveService.ts:26-29 | for any set of flags, each set flag's clause sits right after the collection clause and the clauses of the set flags before it: subject, then creator, then language, then pages |
| QueryBuilder.AllFlagsSet | services/archiveService.ts:26-29 | with every flag set, the flag clauses are exactly the four filters, in order |
| QueryBuilder.QueryTextIff | services/archiveService.ts:30 | the free text, verbatim in parentheses, is in the list iff it is non-empty |
| QueryBuilder.ClauseCountAndLast | services/archiveService.ts:6-32 | the list has 2 to 9 clauses, two fixed ones plus one per optional piece, and the last is always `mediatype:(texts)` |
| QueryBuilder.JoinEndsWithLast | services/archiveService.ts:34 | a join of two or more parts ends with the separator followed by the last part |
| QueryBuilder.QueryStringEndsWithMediaType | services/archiveService.ts:32-34 | `q` always ends with ` AND mediatype:(texts)` |
| QueryBuilder.QueryStringStartsWithYearIff | services/archiveService.ts:8-34 | `q` starts with `year:[` iff both years are truthy |
| Strings.Join | services/archiveService.ts:34 | `Array.prototype.join`; `Strings.SplitJoin` shows it undoes a split, and `QueryBuilder.JoinEndsWithLast` states how a join ends |
| Strings.Split | services/archiveService.ts:16 | a split yields at least one piece |
| Strings.SplitJoin | services/archiveService.ts:16 | joining the pieces of a split with the separator restores the string |
| Strings.SplitPiecesFree | services/archiveService.ts:16 | no piece of a split holds the separator |
| Strings.Trim | services/archiveService.ts:17 | `String.prototype.trim`; `TrimStartSpec`, `TrimEndSpec` and `TrimIsInfix` state that it removes exactly the whitespace at both ends |
| Strings.TrimStartSpec | services/archiveService.ts:17 | trimming the start removes the longest all-whitespace prefix and nothing else |
| Strings.TrimEndSpec | services/archiveService.ts:17 | trimming the end removes the longest all-whitespace suffix and nothing else |
| Strings.TrimIsInfix | services/archiveService.ts:17 | a trimmed string is an infix with only whitespace around it, has no whitespace at its ends, and is empty iff the string is all whitespace |
| Strings.IntToString | services/archiveService.ts:9 | `String(n)` for an integer; `IntToStringRoundTrip` shows that the number can be read back from it |
| Strings.NatToString | services/archiveService.ts:9 | the rendering of a number is never empty |
| Strings.NatToStringDigits | services/archiveService.ts:9 | a natural number renders as digits with no leading zero |
| Strings.NatToStringRoundTrip | services/archiveService.ts:9 | reading back the digits of a natural number gives the number |
| Strings.IntToStringRoundTrip | services/archiveService.ts:9 | reading back a rendered integer gives the integer: the year and downloads values lose nothing in the query |
| Strings.StrLtIrreflexive | App.tsx:65 | no string is less than itself |
| Strings.StrLtAsymmetric | App.tsx:65-68 | string `<` is asymmetric |
| Strings.StrLtTransitive | App.tsx:65-68 | string `<` is transitive |
| Strings.StrLtTotal | App.tsx:65-71 | two strings are equal or one is less than the other |
| Lostness.Rarity | App.tsx:23-25 | the capped rarity term; `RarityExamples`, `RarityBounds`, `RarityCapped`, `RarityZero` and `RarityMonotone` state its values, range and monotonicity |
| Lostness.LostnessIndex | App.tsx:10-28 | the score as the sum of its four terms; `CalculateLostnessIndex` is proved to compute it, and `LostnessBounds`, `LostnessMaximal`, the three penalty lemmas and `LostnessIgnoresOtherFields` state its properties |
| Lostness.CalculateLostnessIndex | App.tsx:10-28 | accumulating the score term by term gives the lostness index: 30, 25 and 15 for a missing creator, subject and language, plus the capped rarity term |
| Lostness.RoundedQuotientPositive | App.tsx:24 | for a positive divisor the quotient is the integer nearest to 100/m, halves rounded up |
| Lostness.RoundedQuotientNegative | App.tsx:24 | for a negative divisor the quotient is still the floor of 100/m + 1/2 |
| Lostness.RarityExamples | App.tsx:23-25 | 0 downloads score 30, 9 score 10, 99 and 199 score 1, 200 score 0 |
| Lostness.RarityBounds | App.tsx:25 | for a non-negative count the rarity term lies between 0 and 30 |
| Lostness.RarityCapped | App.tsx:24-25 | the rarity term reaches its cap of 30 iff there are at most 2 downloads |
| Lostness.RarityZero | App.tsx:24-25 | the rarity term is 0 iff there are at least 200 downloads |
| Lostness.RarityMonotone | App.tsx:23-25 | more downloads never raise the rarity term |
| Lostness.QuotientMonotone | App.tsx:24 | the rounded quotient does not grow with the divisor |
| Lostness.LostnessBounds | App.tsx:10-28 | for a record with no negative download count the index lies between 0 and 100 |
| Lostness.LostnessMaximal | App.tsx:10-28 | the index is 100 iff creator, subject and language are all missing and there are at most 2 downloads |
| Lostness.BareRecordScoresFull | App.tsx:10-28 | a record with only an identifier and a title scores 30 + 25 + 15 + 30 = 100 |
| Lostness.CreatorPenaltyExact | App.tsx:13-15 | a present creator, string or list, lowers the index by exactly 30; the empty string and the empty list count as missing |
| Lostness.SubjectPenaltyExact | App.tsx:16-18 | a present subject lowers the index by exactly 25; the empty string and the empty list count as missing |
| Lostness.LanguagePenaltyExact | App.tsx:19-21 | a present language lowers the index by exactly 15; the empty string counts as missing |
| Lostness.LostnessIgnoresOtherFields | App.tsx:10-28 | the index depends only on creator, subject, language and downloads |
| Lostness.AttachLostness | App.tsx:45-48 | the scored answer; `AttachLostnessSpec` states it element by element and `AttachLostnessIdempotent` shows that rescoring changes nothing |
| Lostness.AttachLostnessSpec | App.tsx:45-48 | every document keeps its place and all its other fields, and gains its own index |
| Lostness.AttachLostnessIdempotent | App.tsx:45-48 | scoring an already scored answer changes nothing |
| StableSort.Insert | App.tsx:61 | one insertion step of the sort; `InsertPermutation`, `InsertSorted` and `InsertStable` state that it adds the element, keeps the order and keeps equal elements in order |
| StableSort.Sort | App.tsx:61 | the stable sort; `SortPermutation`, `SortSorted`, `SortStable`, `SortOfSorted` and `SortIdempotent` state its properties, and `SortInPlace` is proved to compute it |
| StableSort.InsertPermutation | App.tsx:61 | an insertion adds exactly the inserted element |
| StableSort.InsertLast | App.tsx:61 | an insertion adds one element, and the last element is the inserted one or the old last one |
| StableSort.InsertSorted | App.tsx:61 | with an antisymmetric comparator, inserting into an ordered sequence keeps it ordered |
| StableSort.SortPermutation | App.tsx:61 | the sort returns exactly its input's elements, each as often |
| StableSort.SortAdjacentSorted | App.tsx:61 | with an antisymmetric comparator, neighbours end up in comparator order |
| StableSort.TransitiveOnSub | App.tsx:61 | transitivity on the input carries over to any rearrangement of its elements |
| StableSort.TransitiveOnPrefix | App.tsx:61 | transitivity carries over to a prefix |
| StableSort.AdjacentToSorted | App.tsx:61 | under a transitive comparator, order between neighbours gives order between every pair |
| StableSort.SortSorted | App.tsx:61 | with an antisymmetric comparator that is transitive on the input, every earlier element is in order with every later one |
| StableSort.FilterAppend | App.tsx:61 | selecting from a concatenation is concatenating the selections |
| StableSort.InsertStable | App.tsx:61 | an insertion keeps the relative order of elements the comparator calls equal |
| StableSort.SortStable | App.tsx:61 | elements the comparator calls equal leave the sort in their input order |
| StableSort.SortOfSorted | App.tsx:61 | an input that is already ordered is returned unchanged |
| StableSort.SortIdempotent | App.tsx:61 | sorting twice is sorting once |
| StableSort.DecreasingUnique | App.tsx:61 | two arrangements of the same elements, both ordered by a measure without ties, are the same sequence: such an order leaves the sort no choice |
| StableSort.ReverseMultiset | App.tsx:61 | reading a sequence back to front keeps every element, as often |
| StableSort.SortInPlace | App.tsx:59-61 | the in-place insertion sort of the copied array leaves the stable sort of its old contents |
| StableSort.InsertAt | App.tsx:61 | moving one element into the sorted prefix performs exactly one insertion; nothing after it changes |
| StableSort.InsertAtPoint | App.tsx:61 | inserting at the point behind the last element that does not compare after the new one is the insertion |
| Ranker.KeyValueOf | App.tsx:62-63 | the key value `a[key] ?? 0` (an absent field is the number 0, a list is its comma-joined string); the numeric fields always give numbers, the identifier and title always strings |
| Ranker.StringToNumber | App.tsx:65-68 | `Number(s)`, applied to the string side of a mixed comparison; `StringToNumberOfInt`, `StringToNumberExamples` and `StringToNumberNaN` state its values |
| Ranker.Lt | App.tsx:65-68 | `aValue < bValue` on key values; `LtIrreflexive`, `LtAsymmetric` and `NotLtTransitive` state its order properties |
| Ranker.Compare | App.tsx:61-72 | the result is -1, 0 or 1, and it is negative exactly when `a`'s key value is the smaller one (ascending) or the larger one (descending) |
| Ranker.StringToNumberOfInt | App.tsx:65-68 | `Number(String(n))` is `n`, so a numeric string compares with a number by its value |
| Ranker.StringToNumberExamples | App.tsx:65-68 | `Number("")` is 0, `Number("1999")` is 1999, `Number("-7")` is -7 |
| Ranker.StringToNumberNaN | App.tsx:65-68 | a string without whitespace at its ends that holds a non-digit anywhere but its first and last character converts to NaN |
| Ranker.LtIrreflexive | App.tsx:65-71 | no value is less than itself, so an item compares equal with itself |
| Ranker.LtAsymmetric | App.tsx:65-68 | `<` and `>` never hold together |
| Ranker.NotLtTransitive | App.tsx:65-71 | among values of one kind, "not less" is transitive |
| Ranker.CompareAntisymmetric | App.tsx:61-72 | swapping two items negates the comparator, for every pair of items |
| Ranker.CompareTransitive | App.tsx:61-72 | on items whose keys are all numbers or all strings, the comparator's "not after" is transitive |
| Ranker.MixedYearsInconsistent | App.tsx:61-72 | mixed keys can break the comparator: a year "0" ties with an absent year, which ties with a year "", yet "" sorts before "0", so "not after" is not transitive |
| Ranker.CompareEqualKeys | App.tsx:62-71 | items with the same key value compare equal |
| Ranker.AbsentYearSortsFirst | App.tsx:62-69 | an item without a year (`?? 0`) sorts before an item of year "1999" in ascending order and after it in descending order |
| Ranker.SortedView | App.tsx:58-75 | `sortedResults`; `SortedViewPermutation`, `SortedViewOrdered`, `SortedViewStable`, `SortedViewIdempotent`, `SortedViewNumericOrder` and `SortedViewReverse` state its properties |
| Ranker.SortedViewPermutation | App.tsx:58-75 | the view holds exactly the results, each as often |
| Ranker.SortedViewOrdered | App.tsx:60-72 | on comparable keys no later item has a smaller key (ascending) or a larger one (descending) |
| Ranker.SortedViewStable | App.tsx:59-61 | items with equal keys keep their order in the results |
| Ranker.SortedViewIdempotent | App.tsx:58-75 | sorting the view again by the same configuration changes nothing |
| Ranker.SortedViewNumericOrder | App.tsx:60-72 | for a numeric key the view is non-decreasing ascending and non-increasing descending |
| Ranker.SortedViewReverse | App.tsx:60-72 | for a numeric key without ties, the descending view is exactly the ascending view read back to front |
| Ranker.DescendingViewByNumKey | App.tsx:60-72 | the descending view of numeric keys never rises |
| Ranker.AscendingViewReversed | App.tsx:60-72 | the ascending view of numeric keys, read back to front, never rises |
| Ranker.NoTiesInView | App.tsx:59-61 | a rearrangement of results without ties has no ties |
| Ranker.ScoredViewMostLostFirst | App.tsx:58-75 | scored results in the initial configuration are listed highest index first |
| Ranker.InitialViewMostLostFirst | App.tsx:37-75 | a search answer, once scored and shown in the initial configuration, lists the most lost items first |
| Ranker.NextConfig | App.tsx:77-87 | `handleSort`'s next configuration; `NextConfigRule`, `NextConfigTwiceOnActive` and `NextConfigTwiceOnNew` state it |
| Ranker.NextConfigRule | App.tsx:77-87 | a click always selects its key; on the active key it flips the direction, on a new key it takes that key's default |
| Ranker.NextConfigTwiceOnActive | App.tsx:77-87 | two clicks on the active key restore the configuration |
| Ranker.NextConfigTwiceOnNew | App.tsx:82-86 | two clicks on a new key leave it selected in the opposite of its default direction |
| Ranker.RankerState.constructor | App.tsx:33-37 | the state starts with no results, sorted by lostness index, highest first |
| Ranker.RankerState.ReceiveResults | App.tsx:44-49 | a successful search replaces the results with the scored documents and keeps the configuration |
| Ranker.RankerState.HandleSort | App.tsx:77-87 | a click moves the configuration by the header-click rule and leaves the results alone |
| Ranker.RankerState.SortedResults | App.tsx:58-75 | sorting a copy of the results gives the sorted view, and the results stay as they are |
| CsvExport.Headers | App.tsx:91 | the ten column titles; `HeaderNamesPlain` and `RowMatchesHeaders` state that none needs quoting and that every row has one cell per title |
| CsvExport.HeaderLine | App.tsx:92 | `headers.join(',')`; `HeaderNamesPlain` shows it is the record encoding of the titles |
| CsvExport.FormatArray | App.tsx:95-96 | `formatArray`; `FormatArrayList` states the joining with "; " |
| CsvExport.FormatDate | App.tsx:98-101 | `formatDate`; `FormatDatePrefix` states that the timestamp is cut at its first `T` |
| CsvExport.EscapeCsv | App.tsx:103-110 | `escapeCsv`; `ReadFieldBack` shows a reader recovers the text, `DoubleQuotesPlain`, `EscapeExample` and `AbsentFieldsAreEmptyCells` state its cases |
| CsvExport.RowCells | App.tsx:112-122 | the ten values of an item's row; `RowMatchesHeaders` and `AbsentFieldsAreEmptyCells` state their number and the empty cells |
| CsvExport.RowLine | App.tsx:112-123 | an item's row line; `RowLineEncoded` shows it is the record encoding of the item's cell texts |
| CsvExport.CsvDocument | App.tsx:127 | `csvRows.join('\n')`; `ExportRoundTrip` shows it reads back as the header row and each item's cells |
| CsvExport.HandleExport | App.tsx:89-132 | no file for no results; otherwise a file named `lost-finder-results.csv` of type `text/csv;charset=utf-8;` holding the header line and one row line per result, joined with newlines |
| CsvExport.PushRows | App.tsx:94-125 | the loop appends the row line of each item, in order |
| CsvExport.ExportView | App.tsx:89-136 | the export holds the sorted view the table shows |
| CsvExport.RowLines | App.tsx:94-125 | one row line per item |
| CsvExport.ItemTexts | App.tsx:112-123 | every row has ten cell texts |
| CsvExport.ItemRecords | App.tsx:94-125 | one record of cell texts per item |
| CsvExport.ReadQuotedBack | App.tsx:107 | reading a body with doubled quotes up to its closing quote gives back the text |
| CsvExport.ReadPlainBack | App.tsx:109 | an unquoted cell is read up to exactly its end |
| CsvExport.ReadFieldBack | App.tsx:103-110 | reading an escaped cell gives back its text, whatever separator follows it |
| CsvExport.ParseRecordBack | App.tsx:112-123 | reading a record of escaped cells joined with commas gives back every cell text |
| CsvExport.ParseRecordCons | App.tsx:112-123 | an escaped cell and a comma in front of a readable record add that cell's text in front |
| CsvExport.EncodeRecordCons | App.tsx:112-123 | a record's line is its first escaped cell, a comma, then the line of the other cells |
| CsvExport.ParseDocumentBack | App.tsx:127 | reading records joined with newlines gives back every record |
| CsvExport.ParseDocumentCons | App.tsx:127 | a record line and a newline in front of a readable document add that record in front |
| CsvExport.EncodeCons | App.tsx:127 | a document is its first line, a newline, then the other lines |
| CsvExport.PlainRecordEncoded | App.tsx:106-109 | cells that need no quoting are written as they are |
| CsvExport.HeaderNamesPlain | App.tsx:91 | no column title holds a comma, a quote or a newline, so the header line is the titles joined with commas |
| CsvExport.HeaderNamePlain | App.tsx:91 | each column title needs no quoting |
| CsvExport.RowLineEncoded | App.tsx:112-123 | each row line is the record encoding of the item's ten cell texts |
| CsvExport.ExportRoundTrip | App.tsx:91-127 | the written CSV, read back, is the header row followed by the ten cell texts of each item, in order; with no items it is the header row alone |
| CsvExport.ExpectedRecordsWidth | App.tsx:91-123 | the header row and every item row have ten cells |
| CsvExport.LinesEncoded | App.tsx:92-127 | the written lines are the encodings of the header and of each item's cell texts |
| CsvExport.RowsEncoded | App.tsx:94-125 | the pushed row lines are the encodings of the items' cell texts |
| CsvExport.EscapeQuotedWord | App.tsx:106-107 | a text with a comma and a quoted word is wrapped in quotes, its quotes doubled |
| CsvExport.EscapeExample | App.tsx:103-110 | `Report, "Final"` is written `"Report, ""Final"""` |
| CsvExport.DoubleQuotesAppend | App.tsx:107 | doubling quotes works piece by piece |
| CsvExport.DoubleQuotesPlain | App.tsx:107 | a text without quotes is left as it is |
| CsvExport.AbsentFieldsAreEmptyCells | App.tsx:104 | an absent year, download count or creator is an empty cell, never a placeholder |
| CsvExport.FormatDatePrefix | App.tsx:98-101 | the date cell is the longest prefix of the timestamp without a `T`: the timestamp is cut exactly at its first `T`, and kept whole when it has none |
| CsvExport.FormatArrayList | App.tsx:95-96 | a list cell is its entries joined with "; ", and a one-entry list is written like the single string |
| CsvExport.RowMatchesHeaders | App.tsx:91-123 | every row has exactly one cell per column title |

## Left out

- The network request is left out: building the URL, the `fetch` call, the HTTP status check
  with its error, and the JSON decoding of the answer (services/archiveService.ts:45-51). The
  model stops at the parameter list. Percent-encoding by `URLSearchParams` is left out too.
- The user interface is left out: the loading, error and "searched" flags of `handleSearch`,
  its failure path, the error message, dark mode, and the React components and hooks. Only the
  success path of a search is modelled, by `RankerState.ReceiveResults`.
- The browser download (Blob, object URL, anchor click) is left out. `HandleExport` returns the
  file's name, MIME type and content instead.
- Numbers are integers. The model has no fractional download or page counts, no `Infinity`
  counts, and no exponent notation of `String(n)`, which JavaScript uses from 1e21 on.
- Ranker.StringToNumber: converts only an empty or all-whitespace string and optionally signed
  decimal integers. Fractions, exponents, hexadecimal and `Infinity` give NaN (`None`) in the
  model, but numbers in JavaScript.
- Strings are compared character by character on Dafny `char`s. JavaScript compares UTF-16
  code units, which order characters outside the Basic Multilingual Plane differently.
- Ranker.CompareTransitive: requires every key to be a number or every key to be a string.
  Some mixed keys still give a consistent order, for example absent years (the number 0)
  against positive year strings such as "1999". Others do not. An absent year ties with both
  "" and "0", yet "" sorts before "0" (`MixedYearsInconsistent`). A string that converts to NaN,
  such as "2010-01-01", ties with every number. With such keys the comparator can be
  inconsistent, and the order an engine then returns is implementation-defined.
- Ranker.SortedViewOrdered: the same restriction applies. For inconsistent comparators the
  model fixes one stable insertion order; the model's view is still a permutation of the
  results (`SortedViewPermutation`) and still stable (`SortedViewStable`).
- StableSort.SortInPlace: the engine's sorting algorithm is not modelled. Any stable sort
  returns the same result for a consistent comparator, and `SortInPlace` is an insertion sort.
- Lostness.LostnessBounds: a negative download count is not bounded, because the rarity term
  then leaves the range 0 to 30. At `downloads = -1` the quotient in the source is `Infinity`,
  and the model caps it at 30 as `Math.min` does.
