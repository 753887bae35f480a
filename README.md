# Forest-change and CO2 query engine, in Dafny

This project models the query engine of a small command-line tool. The tool answers questions about two per-country datasets: the annual net change in forest area (hectares) and CO2 emissions per capita (tonnes). It works on rows that have already been loaded from CSV, and it provides:

- the row helpers (`row_utils.py`):
  - first-seen de-duplication of entity names;
  - the latest year overall, and the latest year for one entity;
  - each of them takes an optional row filter.
- the entity matcher (`entity_utils.py`):
  - it normalises names to a lower-case ASCII alphanumeric key;
  - it resolves a query to a dataset label by exact key;
  - when no label has the query's key, it fails and offers up to five suggestions.
- the forest-change queries (`forest_change.py`):
  - the country test on the row code;
  - entity lists, latest years, and value lookup with a default year;
  - the year selection, and its sort by `(value, entity)`;
  - top-N rankings, the rank of one entity, and the row count for a year.
- the CO2 queries (`co2.py`): the same lookups, with "countries only" meaning membership in a country list supplied by the caller, plus the top emitters of a year.
- the country list (`country_list.py`): the set of entities that have a country-coded forest row.

The Dafny modules:

| module | file | what it holds |
|---|---|---|
| `Outcomes` | `outcomes.dfy` | `Option`, `Result` and the `QueryError` cases. Each case is one `ValueError` the source raises. |
| `Sorting` | `sorting.dfy` | Python's `<` on `str`, tuple keys `(value, name)`, the stable `sorted(..., key, reverse)` as an insertion sort, and the slice `s[:n]` |
| `RowUtils` | `row_utils.dfy` | `unique_entities`, `latest_year_for_entity`, `latest_year` |
| `EntityUtils` | `entity_utils.dfy` | `normalize_entity_name`, `match_entity_name` and the `difflib.get_close_matches` step |
| `ForestChange` | `forest_change.dfy` | every forest query |
| `Co2` | `co2.dfy` | every CO2 query |
| `CountryList` | `country_list.dfy` | the loop of `load_country_entities` |

How the source maps to Dafny:

- **Loops become methods.** Each source loop is a `method` with a `for` loop. The loops that build a list, a set or a maximum are proved equal to a specification function (the recursive `UniqueOf`, `LatestOf` and `YearSelection`, and the set comprehension `CountrySet`). The scans (`FirstValue`, `FindRank`) are proved against the outcome predicates `ValueOutcome` and `RankOutcome`. The loops that build result pairs (`RankEntities`, `PairsOf`) are proved element by element.
- **Expression code becomes functions.** Code that only composes expressions is a `function`. Examples are the country test, `_allowed_entity_set`, `_sorted_year_rows` and the normaliser.
- **Errors become values.** Every `ValueError` is an `Err` value carrying a `QueryError`.
- **Inputs are never changed.** Rows are immutable sequences, so no query can modify its input.
- **Generic rows.** The generic row helpers take the accessors `entityOf` and `yearOf` as arrows. The optional `row_filter` is an `Option<R -> bool>`, where `None` means no filter.
- **Numbers.** Measurement values are `real`, because the source only compares them. Years are `int`.

## Model

| member | source | states |
|---|---|---|
| RowUtils.UniqueEntities | ProductionCode/row_utils.py:19-35 | The loop with `seen`/`result` returns `UniqueOf(rows)`, which has no repeated name and contains a name iff some row passing the filter has that entity. |
| RowUtils.UniqueOfMembers | ProductionCode/row_utils.py:27-33 | A name is in the de-duplicated list iff some passing row carries it. |
| RowUtils.UniqueOfDistinct | ProductionCode/row_utils.py:24-33 | The de-duplicated list never holds the same name twice. |
| RowUtils.UniqueOfFirstSeenOrder | ProductionCode/row_utils.py:30-33 | Name `i` precedes name `j` in the output iff the first passing row of name `i` comes before the first passing row of name `j`. |
| RowUtils.UniqueOfStrictOrder | ProductionCode/row_utils.py:30-33 | The first-seen positions of the output names strictly increase along the output. |
| RowUtils.FirstSeen | ProductionCode/row_utils.py:27-33 | The index of the first passing row with a given entity: that row matches and no earlier row does. |
| RowUtils.LatestOf | ProductionCode/row_utils.py:44-57 | Returns `None` iff no row passes. Otherwise returns a year of some passing row that is at least the year of every passing row. |
| RowUtils.LatestYear | ProductionCode/row_utils.py:60-76 | The update loop returns the maximum year of the passing rows, or `NoDataAvailable` ("No data available.") when no row passes. |
| RowUtils.LatestYearForEntity | ProductionCode/row_utils.py:38-57 | The same loop, restricted to the rows of one entity. It fails with `NoEntityData(entity)` when none is left, including on empty input. |
| RowUtils.LatestForEntityMissing | ProductionCode/row_utils.py:46-55 | The entity's latest year is missing iff no passing row has that entity. |
| RowUtils.SameFilterSameAnswers | ProductionCode/row_utils.py:19-76 | Two filters that agree on every row give the same entity list and the same latest year. |
| RowUtils.NoFilterAcceptsAll | ProductionCode/row_utils.py:19-76 | A `None` filter gives the same results as an always-true predicate, in all three helpers. |
| Sorting.StrLessIrreflexive | ProductionCode/forest_change.py:137 | Python's `<` on `str` is irreflexive. |
| Sorting.StrLessTransitive | ProductionCode/forest_change.py:137 | Python's `<` on `str` is transitive. |
| Sorting.StrLessTotal | ProductionCode/forest_change.py:137 | Of two different strings, one is less than the other. |
| Sorting.KeyLessIrreflexive | ProductionCode/forest_change.py:137 | The `(value, entity)` tuple order is irreflexive. |
| Sorting.KeyLessTransitive | ProductionCode/forest_change.py:137 | The `(value, entity)` tuple order is transitive. |
| Sorting.KeyLessTotal | ProductionCode/forest_change.py:137 | The `(value, entity)` tuple order is total on different keys. |
| Sorting.BeforeIrreflexive | ProductionCode/forest_change.py:135-139 | No row must be placed before itself, ascending or `reverse=True`. |
| Sorting.BeforeTransitive | ProductionCode/forest_change.py:135-139 | The placement order is transitive. |
| Sorting.BeforeAsymmetric | ProductionCode/forest_change.py:135-139 | The placement order is asymmetric. |
| Sorting.BeforeTotal | ProductionCode/forest_change.py:135-139 | Of two rows with different keys, one must be placed before the other. |
| Sorting.WithKeyAppend | ProductionCode/forest_change.py:135-139 | Picking the rows with one key distributes over concatenation. |
| Sorting.SortedTail | ProductionCode/forest_change.py:135-139 | In a sorted list, a row that must precede the head must precede every element. |
| Sorting.InsertPermutes | ProductionCode/forest_change.py:135-139 | Inserting one row adds exactly that row. |
| Sorting.InsertSorted | ProductionCode/forest_change.py:135-139 | Inserting into a sorted list keeps it sorted. |
| Sorting.InsertWithKey | ProductionCode/forest_change.py:135-139 | An inserted row goes after every row with an equal key. |
| Sorting.WithKeyNone | ProductionCode/forest_change.py:135-139 | No row that `x` must precede has `x`'s key. |
| Sorting.SortByPermutes | ProductionCode/forest_change.py:135-139 | `sorted` returns a permutation of its input (same multiset). |
| Sorting.SortBySorted | ProductionCode/forest_change.py:135-139 | `sorted` returns its input in order, ascending or with `reverse=True`. |
| Sorting.SortByStable | ProductionCode/forest_change.py:135-139 | `sorted` is stable, also with `reverse=True`: rows with an equal key keep their input order. |
| Sorting.SortByKeepsMembers | ProductionCode/entity_utils.py:34-39 | Sorting loses no element. |
| Sorting.SortByLength | ProductionCode/forest_change.py:135-139 | `sorted` keeps the length. |
| Sorting.TakePrefix | ProductionCode/forest_change.py:167 | `s[:n]` is a prefix of `s`. Its length is `min(n, len(s))` for `n >= 0`, and `max(len(s) + n, 0)` for negative `n`. |
| EntityUtils.LatinLetter | ProductionCode/entity_utils.py:18 | Each decomposable Latin-1 letter has an upper-case ASCII base letter and a non-ASCII combining mark. |
| EntityUtils.Decompose | ProductionCode/entity_utils.py:18 | NFKD leaves ASCII characters unchanged. |
| EntityUtils.StripNonAlnumKeyChars | ProductionCode/entity_utils.py:21 | After `re.sub("[^a-z0-9]+", "")` only `a`-`z` and `0`-`9` remain. |
| EntityUtils.NormalizeKeyChars | ProductionCode/entity_utils.py:16-22 | A normalised key consists only of `a`-`z` and `0`-`9`. |
| EntityUtils.LowerChars | ProductionCode/entity_utils.py:20 | `lower()` keeps the length and lower-cases each character on its own. |
| EntityUtils.NfkdAppend | ProductionCode/entity_utils.py:18 | NFKD works character by character (it distributes over concatenation). |
| EntityUtils.AsciiOnlyAppend | ProductionCode/entity_utils.py:19 | The ASCII encode with `"ignore"` distributes over concatenation. |
| EntityUtils.LowerAppend | ProductionCode/entity_utils.py:20 | `lower()` distributes over concatenation. |
| EntityUtils.StripNonAlnumAppend | ProductionCode/entity_utils.py:21 | Deleting non-alphanumeric runs distributes over concatenation. |
| EntityUtils.NormalizeAppend | ProductionCode/entity_utils.py:16-22 | The key of a concatenation is the concatenation of the keys. |
| EntityUtils.NormalizeKeepsKey | ProductionCode/entity_utils.py:16-22 | A string of key characters is its own key. |
| EntityUtils.NormalizeIdempotent | ProductionCode/entity_utils.py:16-22 | Normalising a key returns it unchanged. |
| EntityUtils.NormalizeAsciiChar | ProductionCode/entity_utils.py:16-22 | A single ASCII character gives its lower-case form when it is a letter or digit, and nothing otherwise. |
| EntityUtils.NormalizeAscii | ProductionCode/entity_utils.py:16-22 | On ASCII input the key is the per-character key. |
| EntityUtils.NormalizeIgnoresCase | ProductionCode/entity_utils.py:20 | Upper-casing an ASCII letter anywhere does not change the key. |
| EntityUtils.NormalizeIgnoresPunctuation | ProductionCode/entity_utils.py:21 | An ASCII space or punctuation character anywhere adds nothing to the key. |
| EntityUtils.NormalizeDropsAccent | ProductionCode/entity_utils.py:18-19 | An accented Latin-1 letter has the key of its lower-case base letter. |
| EntityUtils.NormalizeYDiaeresis | ProductionCode/entity_utils.py:18-19 | The letter y with diaeresis (U+00FF) has the key "y". |
| EntityUtils.LettersKey | ProductionCode/entity_utils.py:16-22 | A name made only of ASCII letters has its lower-case form as key. |
| EntityUtils.NormalizeBlank | ProductionCode/entity_utils.py:16-22 | ASCII text with no letters or digits has the empty key. |
| EntityUtils.NormalizeIgnoresPadding | Tests/test_command_line.py:42 | Leading and trailing ASCII spaces and punctuation do not change the key, so "  Brazil  " has the key of "Brazil". |
| EntityUtils.NormalizePaddedBrazil | Tests/test_command_line.py:42 | "  Brazil  " maps to "brazil". |
| EntityUtils.NormalizeSpacedWords | Tests/test_command_line.py:43 | "United" and "States" joined by a space key to "unitedstates". |
| EntityUtils.NormalizeUnitedStates | Tests/test_command_line.py:43 | "United States" maps to "unitedstates". |
| EntityUtils.NormalizeAccentedWord | ProductionCode/entity_utils.py:16-22 | "S", "ã" and "o" run together key to "sao": the accent is stripped and the capital lowered. |
| EntityUtils.NormalizeAccentedWords | ProductionCode/entity_utils.py:16-22 | "São", a space and "Paulo" key to "saopaulo". |
| EntityUtils.NormalizeSaoPaulo | ProductionCode/entity_utils.py:16-22 | "São Paulo" maps to "saopaulo". |
| EntityUtils.NormalizeBrazil | Tests/test_command_line.py:41 | "Brazil" maps to "brazil". |
| EntityUtils.NormalizeBrazl | ProductionCode/entity_utils.py:16-22 | "Brazl" maps to "brazl". |
| EntityUtils.NormalizeCanada | ProductionCode/entity_utils.py:16-22 | "Canada" maps to "canada". |
| EntityUtils.NormalizeAngola | ProductionCode/entity_utils.py:16-22 | "Angola" maps to "angola". |
| EntityUtils.LastWithKey | ProductionCode/entity_utils.py:28 | Finds the last label with a given key, or -1 when there is none. |
| EntityUtils.LastBelow | ProductionCode/entity_utils.py:28 | The last of the first `n` labels with a given key, or -1 when there is none. |
| EntityUtils.KeyMapBelow | ProductionCode/entity_utils.py:28 | The dict built from the first `n` labels holds exactly their keys, each mapped to the last of them with that key. |
| EntityUtils.KeyMap | ProductionCode/entity_utils.py:28 | The dict comprehension holds exactly the keys of the labels, each mapped to the last label with that key. |
| EntityUtils.AboveCutoff | ProductionCode/entity_utils.py:34-39 | Keeps exactly the possibilities scoring at least 0.6. |
| EntityUtils.CloseMatches | ProductionCode/entity_utils.py:34-39 | Returns `min(5, qualifying)` possibilities, each scoring at least 0.6, best first (ties by the larger key). |
| EntityUtils.CloseMatchesBest | ProductionCode/entity_utils.py:34-39 | The returned possibilities are the best ones: a qualifying possibility left out ranks no higher than any returned one. |
| EntityUtils.CloseMatchesComplete | ProductionCode/entity_utils.py:34-39 | When at most 5 possibilities reach the cutoff, all of them are returned. |
| EntityUtils.Suggestions | ProductionCode/entity_utils.py:34-40 | At most 5 suggested labels, each one a candidate. |
| EntityUtils.MatchEntityName | ProductionCode/entity_utils.py:25-46 | Succeeds iff some candidate has the query's key. The result is a candidate with that key. Otherwise it fails with `UnknownEntity` and at most 5 suggestions, all candidates; it never returns a fuzzy match. |
| EntityUtils.MatchLastWins | ProductionCode/entity_utils.py:28-32 | When several labels share the query's key, the last of them is returned. |
| EntityUtils.MatchEmptyFails | ProductionCode/entity_utils.py:34-46 | An empty candidate list always fails, without suggestions. |
| EntityUtils.TwoCandidateKeys | ProductionCode/entity_utils.py:28-36 | The key map and the key list of two labels with different keys. |
| EntityUtils.MisspeltQuerySuggests | ProductionCode/entity_utils.py:34-44 | A query matching neither of two candidates fails, and every candidate whose key scores at least 0.6 is suggested. |
| EntityUtils.BrazlSuggestsBrazil | ProductionCode/entity_utils.py:34-44 | Given a similarity that scores "brazil" against "brazl" at least 0.6 (difflib's ratio is 10/11), "Brazl" against ["Brazil", "Canada"] fails, with "Brazil" among the suggestions. |
| ForestChange.IsCountryRowIff | ProductionCode/forest_change.py:56-58 | A row is a country row iff its code is exactly three letters `A`-`Z`. |
| ForestChange.Entities | ProductionCode/forest_change.py:61-67 | Returns the de-duplicated entities under the country filter: a name is listed iff some row allowed by the filter has it. |
| ForestChange.EntitiesOfAllRows | ProductionCode/forest_change.py:61-67 | `entities(rows, False)` is `unique_entities` of all rows. |
| ForestChange.EntitiesOfCountryRows | ProductionCode/forest_change.py:61-67 | Each name of `entities(rows, True)` is the entity of some country row. |
| ForestChange.LatestYearForEntity | ProductionCode/forest_change.py:70-72 | The entity's latest year over all rows, with no country filter. |
| ForestChange.LatestYear | ProductionCode/forest_change.py:75-81 | Fails with `NoDataAvailable` iff no row passes the country filter. Otherwise returns the maximum year of the passing rows. |
| ForestChange.ResolveQuery | ProductionCode/forest_change.py:91-95 | The name-matching and default-year steps return `Resolve`: the matched label, and the given year or else that label's latest year over all rows. |
| ForestChange.ResolvedNameHasYear | ProductionCode/forest_change.py:91-95 | When some allowed row's entity has the query's key, resolution with no year succeeds: the matched name has a default year. |
| ForestChange.FirstValue | ProductionCode/forest_change.py:97-101 | Returns the value of the first row, in load order, with the name and year. It fails with `NoEntityYearData` iff there is no such row. |
| ForestChange.ValueForEntityYear | ProductionCode/forest_change.py:84-101 | Resolution errors pass through unchanged. Otherwise the result is the first row with the resolved name and year, found by a scan that ignores the country filter. |
| ForestChange.YearSelectionCounts | ProductionCode/forest_change.py:104-117 | The selection holds every row of the year that passes the country filter, as often as the input does, and no other row. |
| ForestChange.YearRows | ProductionCode/forest_change.py:104-117 | The loop appending to `year_rows` returns the year selection, in input order. |
| ForestChange.CountEntitiesForYear | ProductionCode/forest_change.py:142-148 | The count is the length of the year selection. |
| ForestChange.SortedYearRows | ProductionCode/forest_change.py:120-139 | Fails with `InvalidOrder` for any order other than "loss"/"gain", before the rows are looked at. Fails with `NoYearData` for an empty selection. Otherwise returns a permutation of the selection, sorted by `(value, entity)`: ascending for "loss", descending for "gain". |
| ForestChange.SortedYearRowsStable | ProductionCode/forest_change.py:135-139 | Rows with equal `(value, entity)` keep their selection order. |
| ForestChange.SortedYearRowsLength | ProductionCode/forest_change.py:135-139 | When sorting succeeds, the sorted list is as long as the selection. |
| ForestChange.RankEntities | ProductionCode/forest_change.py:151-169 | Returns the `(entity, value)` pairs of `sorted_rows[:top_n]`, so `min(top_n, count)` pairs for `top_n >= 0`. Sort errors pass through unchanged. |
| ForestChange.FindRank | ProductionCode/forest_change.py:193-197 | The rank is the 1-based position of the first sorted row with the name, and `1 <= rank <= count`. It fails with `NoEntityYearData` iff no sorted row has the name. |
| ForestChange.RankCountsRowsAhead | ProductionCode/forest_change.py:186-195 | Exactly `rank - 1` rows sort strictly before the ranked row, also when rows tie with it. |
| ForestChange.RankForEntity | ProductionCode/forest_change.py:172-197 | Resolution and sort errors pass through, in source order. Otherwise the result is the first-match rank of the resolved name in that year's sorted rows. |
| ForestChange.TwoRowLossOrder | ProductionCode/forest_change.py:120-139 | For "loss", of two country rows of one year the larger loss sorts first, in either input order. |
| ForestChange.TwoRowResolve | ProductionCode/forest_change.py:180-184 | Queried by its own label with an explicit year, a row's entity resolves to itself, in either input order. |
| ForestChange.TwoRowRank | ProductionCode/forest_change.py:172-197 | The larger loss has rank 1, in either input order. |
| ForestChange.TwoRowTop | ProductionCode/forest_change.py:151-169 | The top two for "loss" are the larger loss, then the smaller one, in either input order. |
| ForestChange.BrazilAngola2020 | Tests/test_command_line.py:91-103 | The Brazil (BRA) and Angola (AGO) rows of 2020 are two country rows with Brazil's loss the larger. |
| ForestChange.BrazilAngolaKeys | Tests/test_command_line.py:77-89 | "Brazil" and "Angola" have different keys. |
| ForestChange.BrazilAngolaRanking | Tests/test_command_line.py:77-103 | Brazil ranks 1 for loss in 2020, and the top two are Brazil (-2628412.5), then Angola (-510031.25). |
| Co2.AllowedEntitySet | ProductionCode/co2.py:54-63 | No restriction unless countries only is asked for and a country list is given. Otherwise the set of the listed names. |
| Co2.FilterPasses | ProductionCode/co2.py:72-106 | A row passes iff there is no restriction or its entity is on the country list. |
| Co2.Entities | ProductionCode/co2.py:66-77 | A name is listed iff some row has it and it is allowed. |
| Co2.LatestYearForEntity | ProductionCode/co2.py:80-92 | The entity's latest year among the allowed rows. |
| Co2.LatestYearForExcludedEntity | ProductionCode/co2.py:80-92 | An entity that is not on the country list has no latest year. |
| Co2.LatestYear | ProductionCode/co2.py:95-106 | Fails with `NoDataAvailable` iff no row is allowed. Otherwise returns the maximum year of the allowed rows. |
| Co2.ResolveQuery | ProductionCode/co2.py:117-131 | The name-matching and default-year steps return `Resolve`: the matched label, and the given year or else the latest year among the allowed rows. |
| Co2.ResolvedNameHasYear | ProductionCode/co2.py:117-131 | When some allowed row's entity has the query's key, resolution with no year succeeds: the matched name has a default year. |
| Co2.FirstValue | ProductionCode/co2.py:133-137 | Returns the value of the first row, in load order, with the name and year. It fails with `NoEntityYearData` iff there is no such row. |
| Co2.ValueForEntityYear | ProductionCode/co2.py:109-137 | Resolution errors pass through. Otherwise the result is the first row with the resolved name and year, whatever the filter. |
| Co2.YearSelectionCounts | ProductionCode/co2.py:150-156 | The selection holds every allowed row of the year, as often as the input does, and no other row. |
| Co2.RankedRows | ProductionCode/co2.py:161-165 | A permutation of the year selection, sorted by `(value, entity)` descending. |
| Co2.RankedRowsStable | ProductionCode/co2.py:161-165 | Rows with equal keys keep their selection order. |
| Co2.PairsRanked | ProductionCode/co2.py:161-170 | The reported values do not increase, and equal values come with entity names in descending order. |
| Co2.YearRows | ProductionCode/co2.py:150-156 | The selection loop returns exactly the year's allowed rows, in load order. |
| Co2.PairsOf | ProductionCode/co2.py:167-170 | The result loop returns one `(entity, value)` pair per row, in the rows' order. |
| Co2.TopEmitters | ProductionCode/co2.py:140-170 | Fails with `NoYearData` iff the selection is empty. Otherwise returns the pairs of the first `min(top_n, selected)` ranked rows for `top_n >= 0`, following Python slicing otherwise. |
| Co2.TwoRowSelection | ProductionCode/co2.py:148-156 | Two rows of the requested year, with no country filter, are both selected, in load order. |
| Co2.TwoRowOrder | ProductionCode/co2.py:140-170 | Of two rows of one year, in either input order, both are selected and the higher emitter sorts first. |
| Co2.TwoRowTop | ProductionCode/co2.py:140-170 | Of two rows of one year, in either input order, the higher emitter heads the top two. |
| Co2.QatarBahrain2020 | Tests/test_command_line.py:124-136 | Qatar (36.145443), then Bahrain (25.23751), for 2020. |
| CountryList.CountryEntities | ProductionCode/country_list.py:17-21 | The loop adding to `countries` returns exactly the entities of the country rows. |
| CountryList.CountrySetAppend | ProductionCode/country_list.py:18-20 | A further row adds its entity when it is a country row, and nothing otherwise. |
| CountryList.CountrySetEmpty | ProductionCode/country_list.py:17 | Empty input gives the empty set. |
| CountryList.CountrySetIsCountryEntities | ProductionCode/country_list.py:17-21 | The set equals the set of names in the forest entity list under the country filter. |
| CountryList.CountrySetIgnoresOrderAndDuplicates | ProductionCode/country_list.py:17-20 | The result depends only on which rows occur, not on their order or repetition. |

## Left out

- CSV loading is not modelled; every query takes its rows as a sequence. This covers `io_utils.py`, `load_forest_change_rows` and `load_co2_rows`, and the load call in `load_country_entities`.
- Float parsing (`numbers.py`), output formatting (`output_format.py`) and the command-line front end (`command_line.py`) are not modelled; they are text I/O and argument plumbing.
- Measurement values are reals: NaN, infinities and float rounding are not modelled. NaN never compares equal, which would make the sort order non-total.
- EntityUtils.Suggestions: difflib's `SequenceMatcher.ratio()` is not modelled. It is a parameter `similarity(candidateKey, queryKey)` supplied by the caller. The `real_quick_ratio`/`quick_ratio` pre-checks only discard candidates whose ratio is below the cutoff anyway, so they are left out.
- EntityUtils.Decompose: NFKD is modelled only for Latin-1 (the letters U+00C0-U+00FF and the compatibility characters among U+00A0-U+00BE). Every other non-ASCII character is kept as it is, so the ASCII step drops it; real NFKD would decompose some of these (Latin Extended letters, ligatures such as U+FB01) into ASCII letters.
- ForestChange.IsCountryRow: `str.isalpha` and `str.isupper` are modelled over ASCII only. A code with non-ASCII letters (for example "ÅLA") is not a country code here, but Python would accept it.
- Only the error kind and its data are modelled, not the exact `ValueError` message text (for example the comma-joined suggestion list).
