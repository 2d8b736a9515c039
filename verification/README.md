# Country exchange-rate service: a Dafny model of its core

The service fetches every country from an external country source and an
exchange-rate table keyed by currency code from a second source. It enriches each country with
its first currency's code, that currency's rate and an estimated GDP, then
upserts the countries one by one into a MySQL `countries` table. It counts
the successful and failed upserts, stamps `last_refreshed_at` in a
`metadata` table and answers. Errors raised along the way are classified as
503 or 500 responses from the text of their message. The summary image lists
at most five countries with a non-null GDP estimate, the largest first.

This project models four pieces of that logic as pure functions over
immutable data:

- `country_service.dfy` (`CountryService`): the enrichment `processCountries`.
  The random GDP multiplier comes from a caller-supplied `draw: nat -> Multiplier`.
  A `Multiplier` is a real in `[1000, 2000)`.
- `database_service.dfy` (`DatabaseService`): the persistence layer over an
  abstract store.
  - The `countries` table is a sequence of rows in insertion order. The
    `AUTO_INCREMENT` counter is `nextId`. The `metadata` table is a map.
  - Names are compared with ASCII `LOWER()`. The value of SQL `NOW()` is an
    argument.
  - It covers `countryExists`, `getCountryByName`, `insertCountry`,
    `updateCountry`, `upsertCountry`, `getMetadata`, `updateMetadata` and
    `getStatus`.
  - It also covers the exact SQL text and parameter list that
    `getAllCountries` builds.
- `country_controller.dfy` (`CountryController`): `refreshCountries`.
  - A `World` value supplies the outside world: the two fetch results, the
    positions whose upsert throws, whether the metadata write throws, the
    per-position random GDP multiplier `draw`, and the two clocks.
  - A refresh yields the response, the store afterwards and the ordered list
    of externally visible steps. The upsert loop itself emits one step per
    record, carrying whether that record's write went through, and the
    metadata write emits the last step.
  - The MySQL driver refuses an `undefined` bind value. A record whose
    currency code is `undefined` is therefore always a failed upsert.
- `image_service.dfy` (`ImageService`): `generateTopCountriesList`. It filters,
  stably sorts by descending estimate, keeps at most five, and numbers and
  positions each line.
- `js_values.dfy`, `text.dfy` and `wrappers.dfy` hold helpers:
  - JavaScript truthiness of possibly missing strings and the `v || null`
    idiom;
  - ASCII lower-casing, `includes`, `join` and counting `?` placeholders;
  - `Option`.

The model follows the code, including these behaviours that are easy to
misread:

- A first currency whose `code` is missing or empty gets GDP `null`, not 0.
  The 0 branch is selected by `currencyCode === null`. That happens when there
  is no non-empty currencies array, and also when the first currency's `code`
  is itself `null`.
- A rate of 0 is falsy, so it counts as "no rate" and gives GDP `null`.
- The refresh handler never renders the summary image. No image step follows
  the metadata write.
- `updateMetadata` is a plain `UPDATE`. When the `last_refreshed_at` row does
  not exist, nothing is written and the status keeps reporting `null`.
- The status reports `null` both when that row is missing and when its
  `value` column is `NULL`.
- A record with an `undefined` currency code passes enrichment, but its
  upsert always throws in the driver and is counted as a failure.

## Model

| member | source | states |
|---|---|---|
| `JsValues.OrNull` | src/services/countryService.js:28-29 | `v \|\| null` is `Some` exactly for a non-empty string, and then carries that string |
| `JsValues.Truthy` | src/services/databaseService.js:114-130 | a string-valued field is truthy exactly when it is a non-empty string; `undefined`, `null` and `""` are falsy |
| `CountryService.FirstCurrencyCode` | src/services/countryService.js:5-9 | the code of the first currency when `currencies` is a non-empty array, `null` otherwise |
| `CountryService.RateFor` | src/services/countryService.js:11-14 | a rate is found exactly when the code is truthy, is a key of the table and its rate is non-zero; the rate is then the table's value |
| `CountryService.ProcessCountry` | src/services/countryService.js:4-35 | name and population copied; capital, region and flag default to `null`; code and rate as above; GDP is 0 with no code, `null` exactly when a code has no rate, `population * m / rate` otherwise |
| `CountryService.ProcessCountries` | src/services/countryService.js:1-37 | one output per input, in order; the i-th output is the enrichment of the i-th input with the i-th multiplier draw |
| `CountryService.ProcessCountriesPreservesOrder` | src/services/countryService.js:4-30 | same length as the input; each output keeps its input's name and population at the same position |
| `CountryService.NoCurrencyMeansZeroGdp` | src/services/countryService.js:5-19 | no currencies array, or an empty one, gives code `null`, rate `null` and GDP 0 |
| `CountryService.MissingCodeMeansNullGdp` | src/services/countryService.js:8-21 | a first currency with a missing or empty code gives rate `null` and GDP `null`, not 0 |
| `CountryService.UnknownRateMeansNullGdp` | src/services/countryService.js:11-21 | a code whose rate is absent or 0 gives rate `null` and GDP `null` |
| `CountryService.ScaledBounds` | src/services/countryService.js:39-41 | for positive `p` and `rate` and a multiplier in `[1000, 2000)`, `p * m / rate` is positive and lies in `[p*1000/rate, p*2000/rate)` |
| `CountryService.EstimatedGdpRange` | src/services/countryService.js:22-24 | with positive population and positive rate the estimate is present, positive and in `[pop*1000/rate, pop*2000/rate)` |
| `DatabaseService.MatchFlags` | src/services/databaseService.js:7 | one flag per row, in table order, true exactly for the rows `LOWER(name) = LOWER(?)` selects |
| `Text.Lower` | src/services/databaseService.js:7 | `LOWER()` keeps the length and lower-cases each ASCII capital, one character at a time |
| `DatabaseService.MatchCountPositive` | src/services/databaseService.js:6-10 | the number of selected rows is positive exactly when the country exists |
| `DatabaseService.FindFirst` | src/services/databaseService.js:163-166 | the index returned selects its row and no earlier row is selected; `None` means no row is selected |
| `DatabaseService.CountryExists` | src/services/databaseService.js:6-10 | true exactly when some row's name equals the argument up to ASCII case |
| `DatabaseService.GetCountryByName` | src/services/databaseService.js:163-167 | `null` exactly when no row matches; otherwise a matching row with no matching row before it |
| `DatabaseService.InsertCountry` | src/services/databaseService.js:15-35 | one row appended carrying the eight given fields, the fresh `insertId` and `NOW()`; earlier rows and metadata untouched; identities stay distinct and the new one is unused |
| `DatabaseService.UpdateCountry` | src/services/databaseService.js:40-68 | matching rows keep identity and stored name and take every other field plus `NOW()`; other rows unchanged; the result is the number of matching rows, positive exactly when the country exists |
| `DatabaseService.UpsertCountry` | src/services/databaseService.js:73-81 | afterwards the name exists; a known name is updated in place with a positive count and no new row; an unknown name adds exactly one row holding the data; existing identities and names are kept; metadata untouched |
| `DatabaseService.UpsertPreservesWf` | src/services/databaseService.js:33-34 | identities stay distinct and below the `AUTO_INCREMENT` counter across an upsert |
| `DatabaseService.UpsertPreservesNamesUnique` | src/services/databaseService.js:73-81 | an upsert into a table without case-duplicate names leaves none |
| `DatabaseService.UpsertKeepsStoredNames` | src/services/databaseService.js:40-53 | every name that exists before an upsert still exists after it, whatever country is upserted |
| `DatabaseService.UpdateOfWrittenRows` | src/services/databaseService.js:40-53 | an update that would write what the matching rows already hold leaves the store unchanged |
| `DatabaseService.UpsertIdempotent` | src/services/databaseService.js:73-81 | upserting the same country twice at the same `NOW()` leaves the store as one upsert does |
| `DatabaseService.SoleMatch` | src/services/databaseService.js:164 | in a table without case-duplicate names, a name matches at most one row |
| `DatabaseService.UpsertLeavesSoleMatch` | src/services/databaseService.js:73-81 | without case-duplicates, after an upsert exactly one row matches the name |
| `DatabaseService.UpsertThenLookup` | src/services/databaseService.js:73-81 | after an upsert, looking the name up returns the upserted data under the stored name and the new stamp |
| `DatabaseService.SameNameSameLookup` | src/services/databaseService.js:163-166 | names equal up to case look up the same row |
| `DatabaseService.LaterUpsertWins` | src/services/databaseService.js:73-81 | re-upserting a country under a differently cased name replaces the data the first name finds |
| `DatabaseService.GetMetadata` | src/services/databaseService.js:86-90 | the entry under the key, or `null` exactly when the key has no row |
| `DatabaseService.UpdateMetadata` | src/services/databaseService.js:95-103 | a present key takes the (non-`NULL`) value and `NOW()` with one affected row; an absent key changes nothing and reports zero; other keys and the countries table untouched |
| `DatabaseService.GetStatus` | src/services/databaseService.js:172-185 | the total is the row count; `last_refreshed_at` is the metadata value, `null` exactly when the key has no row or its value is `NULL` |
| `DatabaseService.StatusAfterStamp` | src/services/databaseService.js:95-103 | after stamping, the status reports the stamp if the metadata row exists and `null` otherwise; the total is unchanged |
| `DatabaseService.StatusAfterUpsert` | src/services/databaseService.js:73-81 | an upsert raises the reported total by one exactly when the name was not stored, and leaves the reported stamp alone |
| `DatabaseService.Conditions` | src/services/databaseService.js:113-122 | one condition and one parameter per truthy filter; the region condition and its value come first, the currency condition and its value last |
| `DatabaseService.WhereClause` | src/services/databaseService.js:113-127 | no clause without truthy filters; otherwise ` WHERE ` and the region and currency conditions of the truthy filters, region first, joined by ` AND ` |
| `DatabaseService.ParseSortKey` | src/services/databaseService.js:130-154 | the `switch`: a recognised key is selected only by a parameter that is exactly its name |
| `DatabaseService.ParseKeyName` | src/services/databaseService.js:131-153 | each sort key is recognised from its own parameter value |
| `DatabaseService.ParseSortKeyNames` | src/services/databaseService.js:130-154 | a recognised parameter is exactly the name of the key it selects; nothing is selected exactly for a falsy or unrecognised value |
| `DatabaseService.OrderByClause` | src/services/databaseService.js:129-154 | the ORDER BY text appended for the parameter never holds a `?` placeholder |
| `DatabaseService.GetAllCountriesQuery` | src/services/databaseService.js:108-158 | one parameter per truthy filter, region first; the text is the select, the WHERE clause, and the ORDER BY of a recognised key's column and direction, or nothing for any other value; exactly one `?` per parameter |
| `Text.Join` | src/services/databaseService.js:126 | `conditions.join(sep)`: the parts with the separator between neighbours |
| `DatabaseService.JoinPair` | src/services/databaseService.js:125-126 | joining two conditions puts the separator between them |
| `DatabaseService.KeyNamesUnique` | src/services/databaseService.js:131-153 | a parameter value names at most one sort key |
| `DatabaseService.OrderByHasNoPlaceholder` | src/services/databaseService.js:130-154 | no ORDER BY clause contains a `?` |
| `DatabaseService.WhereHasOnePlaceholderPerFilter` | src/services/databaseService.js:114-127 | the WHERE clause has exactly as many `?` as there are parameters |
| `DatabaseService.PlaceholderCount` | src/services/databaseService.js:108-154 | the whole SQL text has exactly as many `?` as there are parameters |
| `DatabaseService.UnfilteredQuery` | src/services/databaseService.js:108-111 | with no truthy filter, whatever the falsy values are, and no recognised sort key, the query is exactly `SELECT * FROM countries` with no parameters |
| `CountryController.ClassifyError` | src/controllers/countryController.js:47-67 | a message containing `RestCountries` gives the RestCountries 503, and this check wins; otherwise one containing `Exchange Rates` gives the Exchange Rates 503; a 503 happens exactly in those cases; anything else gives 500 carrying the message |
| `CountryController.FetchFailuresAreClassified` | src/services/externalApi.js:15-28 | each fetcher's own failure message is classified as its own source being unavailable |
| `Text.Contains` | src/controllers/countryController.js:51-56 | `message.includes(text)`: the text occurs at some position of the message |
| `Text.NotContainsByChar` | src/controllers/countryController.js:51-56 | `includes` is false when some character of the searched text never occurs in the message |
| `CountryController.CountOutcomes` | src/controllers/countryController.js:19-30 | the counters grow by the number of successes and of failures among the outcomes |
| `CountryController.OutcomesPartition` | src/controllers/countryController.js:22-30 | every outcome is either a success or a failure, so the two counts add up to the number of records |
| `CountryController.TallyCoversAll` | src/controllers/countryController.js:19-30 | counting from zero, successes plus failures equals the number of processed countries |
| `CountryController.UpsertAll` | src/controllers/countryController.js:22-30 | the loop records exactly one step per record |
| `CountryController.Attempt` | src/controllers/countryController.js:23-29 | a throwing upsert leaves the store as it was; one that goes through stores the name and leaves metadata alone |
| `CountryController.UpsertTrace` | src/controllers/countryController.js:22-30 | the k-th recorded step is the k-th record's upsert, marked as succeeded exactly when nothing outside throws and its currency code is not `undefined` |
| `CountryController.LoopOutcomes` | src/controllers/countryController.js:22-30 | the outcomes the counters see are the planned per-position outcomes |
| `CountryController.UpsertAllKeepsStoredName` | src/controllers/countryController.js:22-30 | a name stored before the loop is still stored after it |
| `CountryController.UpsertAllStoresSuccesses` | src/controllers/countryController.js:22-25 | every record whose upsert went through is stored after the loop |
| `CountryController.UpsertAllPreservesInvariants` | src/controllers/countryController.js:22-30 | the loop leaves metadata alone, never shrinks the table, and keeps identities fresh and names unique |
| `CountryController.UpsertAllFailingWritesNothing` | src/controllers/countryController.js:26-29 | when every upsert throws, for whatever reason, the loop leaves the store unchanged and still continues to the end |
| `CountryController.FailureCount` | src/controllers/countryController.js:26-29 | the failures counted are exactly the positions whose upsert throws |
| `CountryController.Refresh` | src/controllers/countryController.js:5-16 | a failed country fetch answers the RestCountries 503 and does nothing else; a failed rate fetch comes after the country fetch, answers the Exchange Rates 503 and writes nothing |
| `CountryController.RefreshBatch` | src/controllers/countryController.js:16-30 | the loop over the enriched countries records one step per fetched country |
| `CountryController.RefreshStepOrder` | src/controllers/countryController.js:10-34 | countries are fetched before rates; then one upsert step per country in input order, marked with whether its write went through; the metadata write comes last, even when every upsert failed, and is marked with whether it threw |
| `CountryController.BatchTrace` | src/controllers/countryController.js:16-30 | the k-th step of the loop is the k-th fetched country's upsert, and it goes through exactly when nothing outside throws and its first currency code is not `undefined` |
| `CountryController.ProcessedUpsertSucceeds` | src/services/countryService.js:5-9 | enrichment keeps the name, and the driver accepts an enriched record exactly when its first currency code is not `undefined` |
| `CountryController.RefreshCounts` | src/controllers/countryController.js:19-43 | a 200 answer reports the message, the country count, successes plus failures equal to it, failures equal to the positions whose upsert throws (outside failures and `undefined` currency codes), and the stamp |
| `CountryController.RefreshThenStatus` | src/controllers/countryController.js:32-34 | after a successful refresh the status reports the new stamp when the metadata row exists, `null` otherwise |
| `CountryController.RefreshStoresCountries` | src/controllers/countryController.js:22-30 | after the loop every country whose upsert went through is stored, and so is every name stored before |
| `CountryController.RecordedSuccessesAreStored` | src/controllers/countryController.js:22-34 | every upsert step the refresh records as successful names a country that is stored afterwards |
| `CountryController.RefreshMetadataWriteFails` | src/controllers/countryController.js:32-34 | a throwing metadata write is answered by the classifier; the upserts already made stay and metadata is untouched |
| `CountryController.RefreshPreservesInvariants` | src/controllers/countryController.js:5-69 | a single refresh, run alone, keeps identities fresh and names unique, whatever its world does |
| `ImageService.WithGdp` | src/services/imageService.js:66 | entries come only from countries with a non-null estimate, and every such country, including one with estimate 0, is an entry |
| `ImageService.WithGdpConcat` | src/services/imageService.js:66 | the filter keeps the input order: filtering a concatenation gives the concatenation of the filtered parts |
| `ImageService.WithGdpLength` | src/services/imageService.js:66 | the filtered list has one entry per country with a non-null estimate |
| `ImageService.WithGdpMultiplicity` | src/services/imageService.js:66 | each entry occurs in the filtered list exactly as often as there are countries with its name and estimate |
| `ImageService.DescendingCons` | src/services/imageService.js:67 | an entry not below any entry of a descending list can be put in front of it |
| `ImageService.InsertDescending` | src/services/imageService.js:67 | insertion adds exactly the new entry to the multiset of entries |
| `ImageService.InsertKeepsDescending` | src/services/imageService.js:67 | inserting into a descending list keeps it descending |
| `ImageService.InsertBelowBound` | src/services/imageService.js:67 | inserting an entry not above a bound into entries not above it keeps them all below it |
| `ImageService.SortDescending` | src/services/imageService.js:67 | the result is in non-increasing estimate order and is a permutation of the input |
| `ImageService.InsertIsStable` | src/services/imageService.js:67 | insertion places the new entry before every entry of equal estimate and keeps their order |
| `ImageService.SortIsStable` | src/services/imageService.js:67 | the sort is stable: for every estimate, the entries with that estimate keep their relative order |
| `ImageService.TopCountries` | src/services/imageService.js:65-68 | `min(5, number of countries with a non-null estimate)` entries, in non-increasing order of estimate |
| `ImageService.TopCountriesAreLargest` | src/services/imageService.js:65-68 | the listed entries are drawn from the filtered input, and no entry left out ranks above a listed one |
| `ImageService.ListedComeFromInput` | src/services/imageService.js:65-68 | each listed entry shows a country of the input, and appears at most as often as there are countries it shows |
| `ImageService.TopCountriesKeepTieOrder` | src/services/imageService.js:65-68 | among entries of equal estimate, the listed ones are the first of them in the filtered input's order, which is the input order (`WithGdpConcat`), so a tie for the last place goes to the earlier country |
| `ImageService.TiedOfPrefix` | src/services/imageService.js:68 | cutting a list after `k` entries keeps, for every estimate, a prefix of the entries with that estimate |
| `ImageService.TopOfSorted` | src/services/imageService.js:68 | the first `k` entries of a descending list are descending, the rest are the remainder, and none of the rest ranks above them |
| `ImageService.LargestOfSorted` | src/services/imageService.js:65-68 | the first `k` entries of any descending arrangement of a list are drawn from it and none of its other entries ranks above them |
| `ImageService.DescendingPrefix` | src/services/imageService.js:68 | a prefix of a descending list is descending |
| `ImageService.PrefixDominates` | src/services/imageService.js:68 | in a descending list every entry after position `k` is at most every entry before it |
| `ImageService.NumberLines` | src/services/imageService.js:70-75 | the i-th line carries number `index + i + 1` and y position `y + 25 i` |
| `ImageService.TopCountriesList` | src/services/imageService.js:63-77 | the i-th line is numbered i+1, sits at y = 180 + 25 i and shows the i-th listed country and its estimate; at most five lines |
| `ImageService.ZeroGdpIsListedCandidate` | src/services/imageService.js:66 | an estimate of 0 passes the filter |
| `ImageService.NullGdpIsNeverListed` | src/services/imageService.js:66 | a country without an estimate is never listed |

## Left out

- HTTP fetching (axios, timeouts, URLs) is left out. The model takes each fetch's result as an input, and a fetch failure throws the fixed message of `src/services/externalApi.js`. A rate document without a `rates` field is also left out. In the source `rates` is then `undefined`, and the first country with a truthy currency code throws a `TypeError` at `src/services/countryService.js:12`, which the classifier turns into a 500. With no such country, the refresh completes normally.
- The MySQL pool, SQL execution, collations other than ASCII lower-casing, and the order in which MySQL returns rows are left out. The table is kept in insertion order, so "first row" means the first inserted.
- The driver's rejection of an `undefined` bind value is modelled only for the currency code. That is the one enriched field that can be `undefined` when the fetched data has the expected types.
- The affected-row semantics of the driver are not modelled. `UpdateCountry` and `UpdateMetadata` report matched rows, which is the driver's found-rows count.
- A thrown upsert is modelled as a write that did not happen. A connection dropping halfway through is not modelled.
- `Math.random`, `new Date().toISOString()` and `NOW()` are inputs: `draw`, `timestamp` and `now`.
- One `now` serves every statement of a refresh. SQL evaluates `NOW()` per statement, so rows written in one refresh can carry different stamps; the model gives them all the same one.
- Concurrent requests are not modelled: one refresh runs alone. Two overlapping refreshes can both find a name missing and both insert it, creating a case-duplicate name.
- RefreshPreservesInvariants: holds for one refresh at a time only, because interleaved refreshes are not modelled (see the line above).
- Floating point is left out. Rates, populations and estimates are exact reals and integers, so NaN and rounding cannot arise.
- A JSON value of an unexpected type, such as a non-string code, a missing population, or `currencies[0]` being `null`, is left out. So is a currency code that names an inherited property of a plain object, such as `constructor`.
- Sort comparator edge cases are left out. Estimates are reals, so the comparator never returns NaN, and ties keep input order as the runtime's stable sort does.
- `generateSummaryImage` is left out: the SVG template, sharp rendering, file writes and `toLocaleString` formatting. Only the list of numbered, positioned lines is modelled.
- Routing, the server, CORS and logging are left out. The routes refer to controller functions that the controller does not export, so there is no further handler logic to model.
