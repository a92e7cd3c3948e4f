# thin-rich-table in Dafny

A model of thin-rich-table's decision-table evaluator. `ThinRichTable.eval` is a tag for template literals. The values interpolated into a markdown-style table form a flat payload:

- The first row is the header. It holds the values under test and ends in the table's `out` symbol.
- Every later row is a condition row. Its cells are compared by deep equality with the header cells, and it carries an output cell in the `out` column.
- The cells `any` and `otherwise` are never compared.

`eval` runs these steps in order:

1. It checks that it was called as a tag.
2. It checks that there is exactly one `out`.
3. It checks that the payload divides into rows of the header's width.
4. It rejects rows whose conditions (all cells but the output cell) are deep-equal.
5. It resolves the output in two phases. The rows without `otherwise` are tried first. The rows with `otherwise` are tried only when no normal row matched.
6. Exactly one matching row gives the result. More than one is a duplicated condition. None at all is an uncovered condition.

The model is split into these modules:

- `Values`: JavaScript values. The `Symbol`s a table allocates are `Marker`s. A marker's identity is its role plus the instance that allocated it, so `===` and `includes` against a marker are structural equality.
- `Exceptions`: the six errors of `TRExceptions`, and a `Result` that is either a value or one of them.
- `Collection`: `splitArrayAsNLength` and `hasDuplicated`.
- `Helper`: `getOutputFromArray`, `hasDuplicatedRowExcept`, `splitConditionsOtherwise` and `isCalledAsTagged`.
- `Table`: the class `ThinRichTable` and its `Eval` method.
- `TableProperties`: what `eval` promises, as lemmas.
- `Scenarios`: concrete tables from the repository's tests.

The loops of the source are methods proved against specification functions:

| method | specification function |
|---|---|
| `hasDuplicated` | `Duplicated` |
| `getOutputFromArray` | `RowOutput` |
| `eval` (and its matching loop) | `Evaluate` |
| `hasDuplicatedRowExcept` | `DuplicatedRowExcept` |

`Evaluate` is built from `Parse` (the payload into a header and rows) and `Resolve` (the two-phase lookup). The lemmas of `TableProperties` are stated over these functions.

Deep equality (the `deep-equal` package) is a parameter `eq` of every operation that compares values. The repository's own test shows it is not strict: `[0, 1]` and `["0", 1]` count as duplicates (test/collection.test.ts:41-47). So nothing is assumed about `eq` beyond its being a function. Rows are compared as arrays, `eq(Arr(r1), Arr(r2))`.

The chunker keeps a short last chunk (test/collection.test.ts:14-21), and `Collection.SplitChunkLengths` states this. `eval` only calls it on payloads that divide exactly.

## Model

| member | source | states |
|---|---|---|
| Values.MarkersOf | src/index.ts:21-30 | the four symbols of an instance are pairwise different, and all are markers of that instance |
| Values.MarkersOfDisjoint | src/index.ts:21-30 | two instances share no symbol |
| Table.ThinRichTable.constructor | src/index.ts:21-30 | the instance's symbols are the four fresh markers of its instance, pairwise different |
| Table.ThinRichTable.Eval | src/index.ts:41-87 | the value returned or the error thrown is `Evaluate` of the instance's symbols and the call's arguments |
| Table.OutputColumns | src/index.ts:46 | the filtered list has one entry per occurrence of `out` in the payload, all of them `out` |
| Table.IndexOf | src/index.ts:54 | the first position of the value, with no earlier occurrence; -1 when it does not occur |
| Table.Parse | src/index.ts:46-62 | an accepted payload holds `out` exactly once, at the returned output index; a rejection is `DuplicatedOutput`, `NotDefinedOutput` or `NotMatchedColumnCount` and nothing else; `TableProperties.ParseTable` and `TableProperties.ParseAccepted` characterise it fully |
| Table.MatchOf | src/index.ts:73-76 | a row contributes at most one entry, and one exactly when it matches the header |
| Table.Matches | src/index.ts:72-77 | a phase yields at most one entry per row; the `PhaseMatches*` lemmas characterise it |
| Table.Resolve | src/index.ts:68-86 | the resolution only ever fails with `DuplicatedCondition` or `NotCoveredCondition`; the `Resolve*` lemmas characterise it |
| Table.Evaluate | src/index.ts:41-87 | `NotCalledAsTagged` comes out if and only if the call does not have the tagged shape; the `Evaluate*` lemmas characterise the rest |
| Table.MatchPhase | src/index.ts:73-77 | the accumulator grows by exactly the matching rows of the phase, in row order, each with its output |
| Table.MatchesAppend | src/index.ts:73-77 | matching the rows of two lists is matching each list and concatenating the results |
| TableProperties.ParseTable | src/index.ts:46-62 | a well-formed table, laid out row by row, parses back to the same header and rows, with the output column last |
| TableProperties.AcceptedPayload | src/index.ts:46-62 | an accepted payload has exactly one `out`, at a first position `k`, and its length is a multiple of `k + 1`; the header and rows are the chunks of width `k + 1` |
| TableProperties.ParseAccepted | src/index.ts:53-62 | an accepted payload is a well-formed table laid out row by row: `out` only as the header's last cell, and every row of the header's width |
| TableProperties.RowsTile | src/index.ts:60-62 | a header followed by rows of its width is cut back into exactly that header and those rows |
| TableProperties.OnlyInHeader | src/index.ts:46-51 | with a single `out` in the header, no condition row holds `out` |
| TableProperties.OutOnlyLast | src/index.ts:53-55 | in a well-formed table the header's last column is the only `out` column |
| TableProperties.EvaluateNotTagged | src/index.ts:42-44 | `NotCalledAsTagged` comes out if and only if the call does not have the tagged shape |
| TableProperties.EvaluateOutputMarkers | src/index.ts:46-51 | more than one `out` gives `DuplicatedOutput`; no `out` gives `NotDefinedOutput` |
| TableProperties.EvaluateColumnCount | src/index.ts:54-58 | with a single `out` at position `k`, a payload length that is not a multiple of `k + 1` gives `NotMatchedColumnCount` |
| TableProperties.EvaluateTable | src/index.ts:60-66 | on a well-formed tagged table, duplicated conditions give `DuplicatedCondition` before any matching; otherwise the two-phase resolution decides |
| TableProperties.PhaseMatchesCons | src/index.ts:72-77 | the matches of a phase are the first row's match, if it is in the phase and matches, followed by the matches of the rest |
| TableProperties.PhaseMatchesNone | src/index.ts:72-77 | a phase yields no match if and only if none of its rows matches |
| TableProperties.PhaseMatchesOne | src/index.ts:72-77 | a phase with exactly one matching row yields exactly that row and its output |
| TableProperties.PhaseMatchesTwo | src/index.ts:72-77 | a phase with two matching rows yields at least two matches |
| TableProperties.PhaseMatchesFrom | src/index.ts:72-77 | every match a phase yields is a matching row of that phase, with its output |
| TableProperties.ResolveNormalWins | src/index.ts:72-80 | exactly one matching normal row decides, whatever the `otherwise` rows do |
| TableProperties.ResolveNormalAmbiguous | src/index.ts:79-83 | two matching normal rows give `DuplicatedCondition` |
| TableProperties.ResolveFallbackWins | src/index.ts:72-80 | when no normal row matches, exactly one matching `otherwise` row decides |
| TableProperties.ResolveFallbackAmbiguous | src/index.ts:79-83 | when no normal row matches, two matching `otherwise` rows give `DuplicatedCondition` |
| TableProperties.ResolveNotCovered | src/index.ts:68-86 | `NotCoveredCondition` comes out if and only if no row of either phase matches |
| TableProperties.ResolveOk | src/index.ts:68-86 | a resolved value is the output of some matching row |
| TableProperties.ResolvedIsOutputCell | src/index.ts:68-86 | on a well-formed table, a resolved value is the output-column cell of a matching row |
| TableProperties.EvaluateOkResolves | src/index.ts:41-87 | a successful call has parsed its payload, and its value is the resolution of the parsed table |
| TableProperties.EvaluateOkIsOutputCell | src/index.ts:41-87 | whatever `eval` returns is the output-column cell of a condition row of the parsed table that matches the header |
| Helper.Candidate | src/hepler.ts:15-21 | the recorded output is the sentinel or a non-wildcard cell of the row |
| Helper.RowOutput | src/hepler.ts:10-28 | a row yields the sentinel or a non-wildcard cell of the row; the `RowOutput*` and `Candidate*` lemmas characterise it |
| Helper.GetOutputFromArray | src/hepler.ts:10-28 | the loop returns `RowOutput`: the sentinel when a compared cell differs, otherwise the last non-wildcard cell in an `out` column, otherwise the sentinel |
| Helper.CandidateUniqueOutput | src/hepler.ts:15-21 | with a single `out` column `k`, the recorded output is the row's cell `k` when that is no wildcard, and the sentinel otherwise |
| Helper.RowOutputSingleColumn | src/hepler.ts:15-27 | with a single `out` column `k`, a row yields its cell `k` unless a compared cell differs or cell `k` is a wildcard |
| Helper.CandidateSkipsWildcards | src/hepler.ts:17-21 | a row with only wildcards in the `out` columns records no output |
| Helper.WildcardOutputIsSkipped | src/hepler.ts:17-21 | such a row yields the sentinel, because the wildcard test comes before the output test |
| Helper.CandidateIgnoresWildcardColumns | src/hepler.ts:17-21 | header cells in the columns where the row holds a wildcard do not change the recorded output |
| Helper.RowOutputIgnoresWildcardColumns | src/hepler.ts:17-25 | header cells in the columns where the row holds a wildcard do not change the row's result |
| Helper.AnyCellMatchesEverything | src/hepler.ts:17 | with `any` in column `i`, the header cell in column `i` can be anything |
| Helper.RemoveIndex | src/hepler.ts:34-36 | the row without the cell at `exceptIndex`, or the row itself when the index is outside it |
| Helper.HasDuplicatedRowExcept | src/hepler.ts:30-38 | true if and only if two different rows are deep-equal once the cell at `exceptIndex` is removed from both |
| Helper.SelectedCount | src/hepler.ts:44-45 | every row passes exactly one of the two filters |
| Helper.SplitConditionsOtherwise | src/hepler.ts:40-47 | the two groups hold as many rows as the input; `Helper.SplitPartitions` and `Helper.SelectedAppend` characterise it |
| Helper.SplitPartitions | src/hepler.ts:40-47 | the two groups partition the rows as a multiset; normal rows hold no `otherwise` and the others do |
| Helper.SelectedAppend | src/hepler.ts:44-45 | filtering distributes over concatenation, so each group keeps the rows' relative order |
| Helper.Every | src/hepler.ts:55-60 | true if and only if every condition holds |
| Helper.IsCalledAsTagged | src/hepler.ts:49-61 | true if and only if `strings` and `raw` are present, `strings` is non-empty and frozen, `raw` has the same length, and there is one more string than values |
| Collection.SplitArrayAsNLength | src/collection.ts:3-7 | there are never more chunks than values, and none for a zero width; `Collection.SplitShape` and `Collection.SplitConcat` characterise it |
| Collection.FlatMapFrom | src/collection.ts:4-6 | the flat-map from a position emits at most one chunk per remaining index |
| Collection.SplitShape | src/collection.ts:3-7 | there are ceil(n / count) chunks, and chunk `k` is the slice from `k*count` to `min((k+1)*count, n)` |
| Collection.SplitChunkLengths | src/collection.ts:3-7 | every chunk but the last has `count` elements; the last has between 1 and `count` |
| Collection.ChunkLength | src/collection.ts:5 | one chunk holds between 1 and `count` values, exactly `count` unless it is the last |
| Collection.SplitExact | src/collection.ts:3-7 | when `count` divides the length, there are length / count chunks, all full |
| Collection.SplitConcat | src/collection.ts:3-7 | concatenating the chunks gives the input back |
| Collection.SplitHead | src/collection.ts:3-7 | for an exact tiling, the first chunk is the first `count` values and the rest of the chunks concatenate to the remainder |
| Collection.SplitOfConcat | src/collection.ts:3-7 | chunking the concatenation of rows of one width gives those rows back |
| Collection.InConcat | src/collection.ts:3-7 | a value is in the concatenation if and only if it is in one of the chunks |
| Collection.HasDuplicated | src/collection.ts:11-19 | true if and only if two different positions hold deep-equal values; never for fewer than two values |
| Scenarios.ThreeCellRow | src/hepler.ts:15-27 | a row of a three-column table yields its last cell unless a compared cell differs or the last cell is a wildcard |
| Scenarios.OtherwiseRowDefers | test/index.test.ts:120-133 | a normal row with `any` decides the table, and the `otherwise` row that would also match is not consulted |
| Scenarios.AnyOverlapIsAmbiguous | test/index.test.ts:105-118 | two rows that both match through `any` give `DuplicatedCondition` |
| Scenarios.AnyOverlapPassesDuplicateScan | test/index.test.ts:105-118 | those rows pass the cell-by-cell duplicate scan; the error comes from the resolution |
| Scenarios.PlainCallRejected | test/index.test.ts:63-86 | a plain call, with no `raw` or with no strings at all, gives `NotCalledAsTagged` |
| Scenarios.SplitKeepsRemainder | test/collection.test.ts:14-21 | five values cut into rows of three give a full chunk and a chunk of two |

## Left out

- The internals of `deep-equal` are not modelled. It is the abstract parameter `eq`, so the model holds for any comparator, including the loose one the package provides.
- Numbers are integers. Floating point, `NaN` and `-0` are not modelled. The comparator decides what equal numbers are.
- The template's literal fragments are not modelled, only their count. Neither are the text, separators and dashes of the markdown table. `eval` never reads them.
- A `TemplateStringsArray` is reduced to its length, the length of `raw` when present, and whether it is frozen. `Object.isFrozen` is that boolean; a missing `strings` is `None`.
- The error objects' message strings are left out. Each error is a constructor of `TRException`, and a thrown error is an `Err` result.
- Allocating a `Symbol` is an instance number given to the constructor. That two live instances get different numbers is the caller's obligation, not something the model enforces.
- src/types.ts is not part of this model. It holds type aliases only.
- The private wrappers `#getOutputFromArray` and `#hasDuplicatedConditions` (src/index.ts:32-39) are inlined into `Eval`. They only forward their arguments together with the instance's symbols.
- `SplitArrayAsNLength` takes a natural-number `count`. A negative or fractional `count`, which `eval` never passes, is not modelled.
- The instance's symbols are treated as fixed after construction: `out`, `cell` and `internals` are `const` fields of the class, while in the source they are public and writable (src/index.ts:17-19) and `eval` reads them afresh on every call. A caller that reassigns `table.out` or changes `table.cell.any` between calls is not modelled.
- Scenarios.OtherwiseRowDefers: stated for the resolution step rather than for a whole `eval` call. `TableProperties.EvaluateTable` makes the link, for a tagged call on a well-formed table without duplicated conditions.
- Scenarios.AnyOverlapIsAmbiguous: stated for the resolution step rather than for a whole `eval` call, for the same reason.
