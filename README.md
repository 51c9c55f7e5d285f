# SimuladorSolar tariff resolver, modelled in Dafny

SimuladorSolar is a browser form that estimates a household's monthly
energy use. The user picks a Brazilian state, a city and an electricity
distributor. The form looks up the distributor's residential tariff in
ANEEL's open data and divides the user's monthly spend by it. This project
models the part of `script.js` that turns the raw open-data rows into the
form's lookup tables and selection lists:

- `distributorsByState`: state code (`SigUF`) to the distributor codes
  (`SigAgente`) seen for it. Each code appears once, in the order of its
  first row. Rows with a blank state or code are skipped.
- `tariffByDistributor`: distributor code to the tariff per kWh,
  `(VlrTE + VlrTUSD) / 1000 * 1 / (1 - 0.25)`. A price that does not parse
  counts as 0. The rows arrive newest first. A code is written only while it
  has no truthy tariff: the newest row with a non-zero tariff wins, and a
  zero tariff is overwritten by an older row.
- The selection lists:
  - The state list is the index's keys in the default string order.
  - The distributor list for a state is that state's codes, sorted, keeping
    those with a truthy tariff. The stored list is sorted in place. The
    select is disabled only when the unfiltered list is empty.
  - The city list for a state is empty for a blank state or a failed lookup.
    Otherwise it is the received cities sorted by name.

Modules:

- `Wrappers`: `Option`.
- `Ordering`: the default string order `LexLe` and `SortBy`, a stable
  insertion sort standing for `Array.prototype.sort`. `LexLe` encodes both
  strings in UTF-16 (`Utf16`) and compares the code units one by one, a
  prefix first, as JavaScript does. The permutation, order,
  duplicate-freedom and stability lemmas of the sort are proved here.
- `Records`: the row datatypes. Prices are `Option<real>`: `None` is a
  `parseFloat` that gave NaN. Also the tariff formula `TariffOf`.
- `StateIndex` and `TariffIndex`: each fold exactly as the source runs it
  (`IndexAgents`, `IndexTariffs`). Each has an independent per-key reading
  of the rows and a lemma proving the two agree.
- `Selection`: the distributor selection (`DistributorSelection`) and the
  city lookup (`CitiesByState`).
- `Resolver`: class `TariffResolver`, whose two map fields are the page's
  two dictionaries. Its methods run the source's loops. Each method's
  `ensures` ties the new state and results to the functions above.

A Dafny `char` is a Unicode scalar value, while a JavaScript string is a
sequence of UTF-16 code units. The model therefore sorts on the encoding, so
a character above U+FFFF (a surrogate pair) sorts below U+E000..U+FFFF, as
in the source.

Numbers are exact `real`s, so `1 / (1 - 0.25)` is exactly 4/3 and a tariff is
(TE + TUSD) / 750. Text fields are `string`s. The empty string stands for
every value JavaScript treats as false in those fields: missing, `null` or
`""`. A city collation (`localeCompare(a, b) <= 0`) is a parameter
`collate`. The sortedness of the city list is promised when `collate` is a
total preorder.

## Model

| member | source | states |
|---|---|---|
| `Ordering.CodeUnits` | script.js:115 | every unit is 16-bit; a character below U+10000 is the single unit of its own value; any other is a high surrogate followed by a low surrogate that decode back to the character |
| `Ordering.Utf16` | script.js:115 | the encoding of a string has every unit 16-bit and one or two units per character |
| `Ordering.Utf16Append` | script.js:115 | the encoding of a concatenation is the concatenation of the encodings |
| `Ordering.UnitsLe` | script.js:115 | one unit sequence sorts before or equal to another exactly when it is a prefix of it or is smaller at the first position where they differ |
| `Ordering.LexLe` | script.js:115 | the default string comparison: a prefix sorts first, and two strings whose first characters differ are ordered by those characters' code units, whatever follows |
| `Ordering.Utf16Injective` | script.js:115 | distinct strings have distinct UTF-16 encodings |
| `Ordering.LexLeTotalOrder` | script.js:115 | the default sort order (UTF-16 code units, a prefix first) is total, transitive and antisymmetric, so the sorted state and distributor lists are fully determined |
| `Ordering.SupplementaryCharSortsBelowFFFF` | script.js:115 | U+10000 sorts strictly before U+FFFF, because its first code unit is a surrogate |
| `Ordering.SortBy` | script.js:134 | sorting returns a permutation (same multiset) of its input |
| `Ordering.SortBySorted` | script.js:106 | under any total preorder the sorted output is in order |
| `Ordering.SortByNoDuplicates` | script.js:134 | sorting neither creates nor removes duplicates |
| `Ordering.SortBySortedIsIdentity` | script.js:134 | sorting a list that is already in order leaves it unchanged |
| `Ordering.SortByStable` | script.js:106 | under any total preorder the sort is stable: the items tied with any given item come out in their input order |
| `Records.TariffOf` | script.js:78-83 | a row's tariff times 750 is TE + TUSD (unparseable prices as 0), and the tariff is non-zero exactly when that sum is |
| `Records.PriceOrZero` | script.js:78-79 | a parsed price is kept and a price that does not parse counts as 0 |
| `Records.UnparseablePriceCountsZero` | script.js:78-79 | a price that does not parse contributes 0 to the tariff |
| `StateIndex.CodesFor` | script.js:39-41 | the codes taken for a state are never blank, and a blank state gets none |
| `StateIndex.FirstIndex` | script.js:43 | the position returned holds the code and nothing before it does; it equals the length exactly when the code is absent |
| `StateIndex.AddAgent` | script.js:41-45 | the one-row step as written: the index keeps its states, a row with a blank field changes nothing, and afterwards a non-blank row's code is listed under its state; `AddAgentAt` states its effect on every state |
| `StateIndex.IndexAgents` | script.js:38-47 | the fold as written: no state is lost; `IndexAgentsAt` and `IndexAgentsWellFormed` state its result |
| `StateIndex.AddAgentAt` | script.js:41-45 | one row changes a state's list only if it is a non-blank row of that state with a code the list lacks, and then appends that code |
| `StateIndex.IndexAgentsAt` | script.js:38-47 | after the fold a state is a key iff it was one or has a non-blank row; its list extends the old one with exactly the new codes of its rows, without duplicates, in order of first appearance |
| `StateIndex.IndexAgentsWellFormed` | script.js:42-45 | the fold keeps the index free of blank states, empty lists, blank codes and duplicate codes |
| `StateIndex.DuplicateRowsCollapse` | script.js:38-47 | rows SP/X, SP/X, RJ/Y give {SP: [X], RJ: [Y]} |
| `TariffIndex.RowsFor` | script.js:76-77 | the rows taken for a code all carry that code, and a blank code takes none |
| `TariffIndex.FirstNonzeroTariff` | script.js:77-83 | the tariff of the first row that gives a non-zero one; zero exactly when every row gives zero |
| `TariffIndex.HasTariff` | script.js:77 | `tariffByDistributor[code]` is truthy exactly when the code is present with a non-zero tariff (also the filter at script.js:136) |
| `TariffIndex.AddTariff` | script.js:76-84 | the one-row step as written: no other code and no truthy code changes, and afterwards a non-blank code is truthy exactly when it was or the row's tariff is non-zero |
| `TariffIndex.IndexTariffs` | script.js:75-85 | the fold as written: truthy entries are kept and every non-blank code of the rows becomes a key; `IndexTariffsAt` states its result per code |
| `TariffIndex.AddTariffAt` | script.js:76-84 | one row writes only its own code, and only when that code is not blank and has no truthy tariff |
| `TariffIndex.IndexTariffsAt` | script.js:75-85 | after the fold a code with a truthy tariff or without rows is unchanged; any other code holds the tariff of its first non-zero row, or zero if all its rows give zero |
| `TariffIndex.IndexTariffsConcat` | script.js:75 | folding two batches one after the other is folding them together |
| `TariffIndex.NonzeroTariffIsFinal` | script.js:77 | once a code holds a non-zero tariff at any point of the scan, no later row changes it |
| `TariffIndex.StoredTariffComesFromRow` | script.js:78-83 | every tariff stored for a new code is the formula applied to one of that code's rows |
| `TariffIndex.ZeroTariffIsOverwritten` | script.js:77-83 | a zero tariff from a newer row is replaced by an older row's 0.2 |
| `TariffIndex.NewestRowWins` | script.js:75-85 | a newer row with a non-zero tariff (100 + 50 per MWh, so 0.2) is kept over an older one |
| `Selection.WithTariff` | script.js:135-139 | the offered codes are exactly the listed codes with a truthy tariff |
| `Selection.WithTariffKeepsOrder` | script.js:135-139 | filtering keeps a sorted list sorted and a duplicate-free list duplicate-free |
| `Selection.DistributorSelection` | script.js:134-140 | the offered distributors are sorted, are exactly the state's codes with a truthy tariff (none for an unknown state) and have no duplicates; the select is disabled iff the unfiltered list is empty or missing |
| `Selection.SortedList` | script.js:134 | the state's list, sorted: a permutation of it in the default string order, and empty for an unknown state |
| `Selection.SortInPlaceKeepsSelections` | script.js:134 | sorting the stored list in place changes no later selection for any state |
| `Selection.SortInPlaceKeepsWellFormed` | script.js:134 | sorting the stored list in place keeps the index well-formed |
| `Selection.CitiesSorted` | script.js:106 | sorting by a name collation that is a total preorder orders the cities by name, and cities with tied names keep the order received |
| `Selection.CitiesByState` | script.js:98-111 | a blank state or a failed lookup gives no cities; otherwise a permutation of the received cities, sorted by name, with cities of tied names in the order received |
| `Resolver.TariffResolver.constructor` | script.js:15-16 | both dictionaries start empty and well-formed |
| `Resolver.TariffResolver.LoadDistributors` | script.js:31-47 | a payload with `success` false changes nothing; otherwise the state index becomes the fold of its rows, stays well-formed, and the tariff index is untouched |
| `Resolver.TariffResolver.LoadTariffs` | script.js:70-85 | a payload with `success` false changes nothing; otherwise the tariff index becomes the fold of its rows and the state index is untouched |
| `Resolver.TariffResolver.StateOptions` | script.js:113-120 | the offered states are exactly the index's keys, each once, in the default string order |
| `Resolver.TariffResolver.SortStoredList` | script.js:134 | the state's stored list is replaced by its sorted copy and returned; an unknown state gives the empty list and changes nothing |
| `Resolver.TariffResolver.PricedCodes` | script.js:135-139 | the loop appends exactly the codes with a truthy tariff, in list order (`WithTariff`) |
| `Resolver.TariffResolver.DistributorOptions` | script.js:130-141 | the state's stored list is replaced by its sorted copy, nothing else changes, and the options and disabled flag are those of `DistributorSelection` |
| `Resolver.TariffResolver.Init` | script.js:213-233 | each completed fetch fills its own dictionary; states are offered, sorted and complete, exactly when both fetches completed |

## Left out

- `api/proxy.js`, the HTTP relay, is not part of this model. It answers 400
  when `targetUrl` is missing (api/proxy.js:8-12). It answers 500 with a
  generic message when the upstream answer is not OK or anything else
  fails (api/proxy.js:15-19, 27-31). Otherwise it returns the upstream JSON
  body with status 200 and two headers, one for CORS and one for caching
  (api/proxy.js:20-26).
- The DOM and the event handlers are not modelled (script.js:113-128,
  143-210): option rendering, class toggling, `alert`, `console`, the
  slider, the result button. The state-change handler only chains
  `CitiesByState` and `DistributorOptions`.
- The network is not modelled: the `$.ajax` JSONP requests, `fetch`, and
  `$.when`. Their results are parameters. `Init` runs the two success
  callbacks one after the other. They write disjoint dictionaries, so the
  order in which the responses arrive does not matter.
- Floating point is not modelled: NaN and infinities in the tariff sum, IEEE
  rounding, `toFixed` and `toLocaleString`, and the consumption estimate
  `atualizarConsumoEstimado` (script.js:143-151).
- `Selection.CitiesByState`: `localeCompare` is the abstract parameter
  `collate`. The sortedness and the stability of the result are promised
  only when `collate` is a total preorder. The model does not cover a city without `nome`.
  Such a city can make the comparator throw, and the `catch` then returns
  no cities. `a.nome.localeCompare(b.nome)` throws only when the city is
  the first argument. If it is only ever the second argument, it sorts as
  the text "undefined". Which argument it gets depends on the engine's sort
  algorithm and on the input.
- A JavaScript string holding an unpaired surrogate has no Dafny `string`
  counterpart, because a Dafny `char` is a Unicode scalar value. The
  encoding `Utf16` covers well-formed text only.
- The maps have no keys inherited from `Object.prototype`. A state or code
  named like `constructor` reads as present in the source; the model does
  not reproduce that.
- The query sent with each request is not modelled: the `q` text filter, the
  row limits of 500 and 1000, and the `DatVigencia desc` sort. The rows
  the server returns are taken as given, in the order given.
- Fields holding non-string values are not modelled. A number or an object
  as `SigUF` or `SigAgente` would be used as a key after conversion to
  text. An exception thrown by a success callback when a payload has no
  `result.records` is not modelled either. A missing `success` reads as `false`, as in the
  source.

## Behaviour worth noting

The model follows these details of `script.js`:

- A failed fetch does not undo the other one. Each success callback fills
  its own dictionary (script.js:31-47, 70-85). Only the state list waits
  for both fetches (script.js:220-232).
- A payload with `success: false` returns from its callback normally. It
  does not fail the `$.when` join, so the state list is still offered from
  whatever was built (`Init`).
- A code is written while its tariff is falsy, not only while it is
  missing (script.js:77). A zero tariff from a newer row is therefore
  overwritten by an older row (`ZeroTariffIsOverwritten`).
- A code whose tariff is zero is not offered (script.js:136). The select
  stays enabled whenever the state's list is non-empty, even if nothing is
  offered (script.js:140).
- The city list is sorted with `localeCompare` on the names (script.js:106),
  not by the default string order.
