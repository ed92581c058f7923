# Geocode reconciliation jobs, in Dafny

A model of the two scheduled jobs of the Lutece geocode-update module. They keep a local table of French municipalities ("cities") in step with the national statistical institute's geocode registry.

- **Update-existing** (`UpdateGeocodeDaemon.updateCity`). For each local row the store reports as due for refresh, the job asks the registry for the record keyed by the row's own validity start and code. It merges a returned record into the row and writes the row back with `updateCity`.
- **Discover-new** (`UpdateNewCityGeocodeDaemon.run`). For each city of the registry's full list, the job asks the store whether it holds a row for (today, code). If it does not, the job derives the default fields and inserts the row with `createCity`.

Files, one module each:

| file | module | contents |
|---|---|---|
| `optional.dfy` | `Optional` | `Option` for nullable references, `Result` for thrown exceptions |
| `dates.dfy` | `Dates` | days as integers; `DaysFromCivil` |
| `text.dfy` | `Text` | `toUpperCase` (ASCII) and `substring` |
| `city.dfy` | `Cities` | the `City` record |
| `store.dfy` | `LocalStore` | the store as a sequence of rows, the assumed date/code lookup, `updateCity`/`createCity` writes |
| `insee.dfy` | `Insee` | the provider client's contract: every failed fetch is "no data" |
| `update_geocode.dfy` | `UpdateGeocode` | the update-existing job |
| `update_new_city.dfy` | `UpdateNewCity` | the discover-new job |
| `scenarios.dfy` | `Scenarios` | worked examples on concrete rows |

Modelling choices:

- Dates are day numbers counted from 1970-01-01. `CONSTANTE_DATE_MAX` ("2999-12-31") is `DaysFromCivil(2999, 12, 31)`, which is day 376199.
- A Java `null` is `None`. Every `City` field except the key (`code`, `dateValidityStart`) may be null. An exception the job does not catch is a `Fault` that ends the run.
- The store is a sequence of rows, and a row's id is its position. `updateCity` overwrites a row and `createCity` appends one. Each write is committed on its own.
- The store's query for `getCityByDateAndCode` is not shown in the source, so its match is an assumption. A row matches (date, code) when its code is equal, its start is on or before the date, and the date is on or before its end. A row with a null end is treated as open-ended.
- The store's "due for refresh" query (`getCitiesListByLastDateUpdate`) becomes a parameter: the list of candidate row ids.
- The provider's single-city lookup is a parameter: a total function from (date, code) to an optional city. The full list is a parameter too: an optional sequence, where `None` stands for the null array of a failed fetch.
- The clock is a parameter: `now` stamps rows, and `today` is the date the discover-new job looks up.

Behaviour of the code that the model keeps:

- A failed full-list fetch is not a no-op. `getAllCities` reads `cities.length` on the null array (GeoCodesINSEE.java line 284), so the run throws before any write. The model reports `Aborted(NoCityList)` with no writes (`UpdateNewCity.FetchedRun`).
- Neither daemon catches anything: an exception that escapes the provider client or the store ends the run. The client itself catches transport and decoding failures (GeoCodesINSEE.java lines 108 and 148), so in the update job such a row is only skipped (`UpdateGeocode.FetchedRefresh`). In discover-new, a city with a null short name (`toUpperCase`) or a code shorter than two characters (`substring(0, 2)`) throws out of `run`. The rest of the list is then skipped, but rows inserted before it stay committed. The model reports `Aborted(NullValueMin(code))` or `Aborted(CodeTooShort(code))` (`UpdateNewCity.CityTurn`, `UpdateNewCity.AbortNamesMissingCity`). The null-name check comes first, because the source upper-cases the name before it takes the zone.
- Discover-new is idempotent only for cities whose validity has started by today. Under the assumed interval match, the row inserted for a city that starts after today does not match today, so every later run inserts that city again (`UpdateNewCity.FutureStartInsertedAgain`).

## Model

| member | source | states |
|---|---|---|
| Text.Upper | src/java/fr/paris/lutece/plugins/geocode/daemon/UpdateNewCityGeocodeDaemon.java:67 | the upper-cased name has the same length as the short name, contains no lower-case letter, and is the same letter for letter, ignoring case |
| Text.UpperIdempotent | src/java/fr/paris/lutece/plugins/geocode/daemon/UpdateNewCityGeocodeDaemon.java:67 | upper-casing an already upper-cased name changes nothing |
| Text.Substring | src/java/fr/paris/lutece/plugins/geocode/daemon/UpdateNewCityGeocodeDaemon.java:68 | `substring(begin, end)` succeeds exactly when 0 <= begin <= end <= length; it then has length end - begin and holds the characters from begin on |
| LocalStore.Lookup | src/java/fr/paris/lutece/plugins/geocode/daemon/UpdateNewCityGeocodeDaemon.java:62 | a row the lookup returns is a stored row with the code whose validity interval contains the date |
| LocalStore.LookupFindsCovering | src/java/fr/paris/lutece/plugins/geocode/daemon/UpdateNewCityGeocodeDaemon.java:62 | the lookup returns nothing only when no stored row has the code with an interval containing the date |
| LocalStore.LookupKeepsFinding | src/java/fr/paris/lutece/plugins/geocode/daemon/UpdateNewCityGeocodeDaemon.java:62 | inserting rows never hides a row a lookup already finds |
| LocalStore.LookupAppend | src/java/fr/paris/lutece/plugins/geocode/daemon/UpdateNewCityGeocodeDaemon.java:62 | a lookup over the store followed by newly inserted rows finds in the store when it can, and otherwise in the new rows; the discover loop sees its own inserts only after the existing rows |
| LocalStore.Commit | src/java/fr/paris/lutece/plugins/geocode/daemon/UpdateGeocodeDaemon.java:72 | `updateCity` replaces exactly its own row and keeps the row count; `createCity` keeps every existing row and appends the new one |
| Insee.BodyOf | src/java/fr/paris/lutece/plugins/geocode/service/GeoCodesINSEE.java:93-127 | a GET yields body text only when the server answered with a non-null body; a 404, another error status or a transport failure all yield null |
| Insee.Fetch | src/java/fr/paris/lutece/plugins/geocode/service/GeoCodesINSEE.java:129-156 | a fetch returns a value exactly when the body is non-null, non-empty and decodes, and then it is the decoded value; a 404, another error, an empty or null body and a decoding error are all "no data" (for the full list, the null array the caller dereferences) |
| UpdateGeocode.Merge | src/java/fr/paris/lutece/plugins/geocode/daemon/UpdateGeocodeDaemon.java:64-71 | a matched row takes the remote short names even when they are null, takes the remote end only when it is non-null and otherwise keeps its own, is stamped with now, and keeps its code, start, name, zone and country |
| UpdateGeocode.MergeIdempotent | src/java/fr/paris/lutece/plugins/geocode/daemon/UpdateGeocodeDaemon.java:64-71 | merging the same remote record into an already merged row gives the row a single merge at the later time would give; only the update stamp moves |
| UpdateGeocode.Matched | src/java/fr/paris/lutece/plugins/geocode/daemon/UpdateGeocodeDaemon.java:61-62 | the matched candidates are exactly the candidates for which the provider, asked with the row's own start and code, returns a record |
| UpdateGeocode.UpdateWrites | src/java/fr/paris/lutece/plugins/geocode/daemon/UpdateGeocodeDaemon.java:57-74 | the pass issues no more writes than there are candidates, every write is an `updateCity` of an existing row, and it never issues `createCity` |
| UpdateGeocode.UpdateWritesFollowMatched | src/java/fr/paris/lutece/plugins/geocode/daemon/UpdateGeocodeDaemon.java:58-73 | the k-th write is the merged row of the k-th matched candidate, so there is exactly one `updateCity` per matched candidate, in candidate order, and none for any other row |
| UpdateGeocode.WritesCommitToRefresh | src/java/fr/paris/lutece/plugins/geocode/daemon/UpdateGeocodeDaemon.java:58-74 | committing the pass's writes in order gives, row by row, the merged row for every matched candidate and the untouched row for every other row |
| UpdateGeocode.Run | src/java/fr/paris/lutece/plugins/geocode/daemon/UpdateGeocodeDaemon.java:54-76 | the loop issues exactly those writes; afterwards the store has the same rows, each matched candidate holds its merge with the record looked up by its own start and code, and every other row is unchanged |
| UpdateGeocode.FetchedRefresh | src/java/fr/paris/lutece/plugins/geocode/daemon/UpdateGeocodeDaemon.java:61-72 | with the provider client as the lookup, a row whose reply is a 404, another error status, a transport failure, a null or empty body or an undecodable body is left unchanged, and a candidate whose reply decodes is merged with the decoded record |
| UpdateGeocode.RefreshTwice | src/java/fr/paris/lutece/plugins/geocode/daemon/UpdateGeocodeDaemon.java:61-72 | running the pass twice over the same candidate list, with the provider unchanged, gives the same store as running it once at the later time; a real second run gets a fresh "due for refresh" list, which this does not cover |
| UpdateNewCity.Derive | src/java/fr/paris/lutece/plugins/geocode/daemon/UpdateNewCityGeocodeDaemon.java:65-69 | a new row is derived exactly when the short name is non-null and the code has at least two characters; the row has country "99100", the upper-cased name, the first two characters of the code as zone, end 2999-12-31 whatever the remote end, update stamp now, and the remote code, names and start; otherwise the fault names the failing step, the null name first |
| UpdateNewCity.DerivedCoversToday | src/java/fr/paris/lutece/plugins/geocode/daemon/UpdateNewCityGeocodeDaemon.java:62-69 | a derived row matches today's lookup for its code exactly when its validity has started by today |
| UpdateNewCity.Discover | src/java/fr/paris/lutece/plugins/geocode/daemon/UpdateNewCityGeocodeDaemon.java:60-75 | the loop inserts at most one row per listed city; its turn-by-turn behaviour is stated by `UpdateNewCity.CityTurn` and `UpdateNewCity.DiscoverAppend` |
| UpdateNewCity.Run | src/java/fr/paris/lutece/plugins/geocode/daemon/UpdateNewCityGeocodeDaemon.java:55-77 | a failed full-list fetch aborts with no write; otherwise every existing row is kept, and each write is a `createCity` of the row appended at its position |
| UpdateNewCity.FetchedRun | src/java/fr/paris/lutece/plugins/geocode/service/GeoCodesINSEE.java:262-285 | a full-list GET that fails or whose body does not decode aborts the run with no write and the store unchanged; a decoded list is discovered as is |
| UpdateNewCity.DiscoverAppend | src/java/fr/paris/lutece/plugins/geocode/daemon/UpdateNewCityGeocodeDaemon.java:60-75 | discovering a list in two parts runs the second part against the store the first part left, unless the first part stopped the run, in which case nothing of the second part happens |
| UpdateNewCity.CityTurn | src/java/fr/paris/lutece/plugins/geocode/daemon/UpdateNewCityGeocodeDaemon.java:62-70 | when the loop reaches a city: if the store, with the rows inserted so far, holds it for today, nothing is inserted for it; if not and it derives, its derivation is the next row inserted, whatever its start date; if not and it fails to derive, the run stops there with that fault and inserts nothing more |
| UpdateNewCity.DiscoverCompletes | src/java/fr/paris/lutece/plugins/geocode/daemon/UpdateNewCityGeocodeDaemon.java:60-75 | when every listed city derives, the loop runs to the end of the list |
| UpdateNewCity.AbortNamesMissingCity | src/java/fr/paris/lutece/plugins/geocode/daemon/UpdateNewCityGeocodeDaemon.java:62-68 | a stopped loop names a listed city whose derivation fails with exactly that fault and which the store, with every row the run inserted, does not hold for today |
| UpdateNewCity.DiscoverInsertsOnlyAbsent | src/java/fr/paris/lutece/plugins/geocode/daemon/UpdateNewCityGeocodeDaemon.java:62-70 | a city is inserted only when the store, with the rows inserted before it, has no row for (today, code), and every inserted row is the derivation of a listed city |
| UpdateNewCity.DiscoverCoversAll | src/java/fr/paris/lutece/plugins/geocode/daemon/UpdateNewCityGeocodeDaemon.java:60-75 | after a completed run, every listed city that has started by today is found by today's lookup |
| UpdateNewCity.DiscoverSkipsPresent | src/java/fr/paris/lutece/plugins/geocode/daemon/UpdateNewCityGeocodeDaemon.java:62-63 | a list whose every city is already held for today inserts nothing and completes |
| UpdateNewCity.RediscoverInsertsNothing | src/java/fr/paris/lutece/plugins/geocode/daemon/UpdateNewCityGeocodeDaemon.java:60-75 | for cities that have all started by today, discovering the list again against the store the first loop left inserts nothing and ends the same way, completed or stopped |
| UpdateNewCity.RerunInsertsNothing | src/java/fr/paris/lutece/plugins/geocode/daemon/UpdateNewCityGeocodeDaemon.java:55-77 | whether the first run completed or stopped on a failing city, a second run on the same list and day, over cities that have all started by today, writes nothing and ends the same way |
| UpdateNewCity.RunCommitsItsWrites | src/java/fr/paris/lutece/plugins/geocode/daemon/UpdateNewCityGeocodeDaemon.java:70 | the store after a run is its `createCity` writes committed in order, and no `updateCity` is issued |
| UpdateNewCity.FutureStartInsertedAgain | src/java/fr/paris/lutece/plugins/geocode/daemon/UpdateNewCityGeocodeDaemon.java:62-69 | for any store and any derivable city that starts after today and is not held for today, a run inserts it and a second run inserts it again, because its own row does not match today |
| Scenarios.NullRemoteEndKeepsLocalEnd | src/java/fr/paris/lutece/plugins/geocode/daemon/UpdateGeocodeDaemon.java:65-70 | a remote record with no end refreshes the short name and keeps the local 2999-12-31 end |
| Scenarios.RemoteEndClosesInterval | src/java/fr/paris/lutece/plugins/geocode/daemon/UpdateGeocodeDaemon.java:67-70 | a remote end of 2021-06-30 replaces the local 2999-12-31 end |
| Scenarios.NewOverseasCityDefaults | src/java/fr/paris/lutece/plugins/geocode/daemon/UpdateNewCityGeocodeDaemon.java:65-69 | remote code 97501 gets zone "97", country "99100", name "SAINT-PIERRE" and end 2999-12-31 |
| Scenarios.AbsentCityInserted | src/java/fr/paris/lutece/plugins/geocode/daemon/UpdateNewCityGeocodeDaemon.java:62-70 | into an empty store, the one listed city is inserted as its derivation |
| Scenarios.NotFoundLeavesRowAlone | src/java/fr/paris/lutece/plugins/geocode/daemon/UpdateGeocodeDaemon.java:62 | a candidate for which the provider has no record is left exactly as it was |

## Left out

- Text.Substring: counts Unicode scalar values, while Java's `substring` counts UTF-16 code units. They agree on the registry's codes, which are ASCII digits and letters.
- Text.Upper: upper-cases ASCII letters only. Java's locale-sensitive Unicode `toUpperCase` can also change other letters and the string's length.
- Transport, the OAuth2 client-credentials token exchange and JSON decoding in `GeoCodesINSEE` are not modelled. They are parameters: a `Reply` value and a decoding function.
- `getCitiesListByNameAndDate`, `getCountryByCodeAndDate` and `getId` of the provider client are left out, because neither job calls them.
- The store's queries are not modelled. "Due for refresh" is the candidate list parameter, and the date/code match is the assumed interval match above. Store failures are also left out, and so is a uniqueness rule the store might enforce on inserts.
- The scheduler, the `Daemon` base class and any overlap between the two jobs are left out, because they are outside the reconciliation logic.
- Logging is left out. It has no effect on the store, provided the calls that build the messages return normally. The debug message after each `createCity` (UpdateNewCityGeocodeDaemon.java lines 71-72) is built whatever the log level and calls `getDateValidityStartToString()`; the `City` class is not part of this model, and the model assumes that call returns normally. If it threw, the row would already be committed and the rest of the list would be skipped. For the record, the source logs a 404 at info level, other error statuses at error level, and other transport failures not at all.
- The clock is read once per run in the model (`now`, and `today` for discover-new). The source reads it for every row, so a run that crosses midnight may stamp or look up different days.
- A null `code` or `dateValidityStart` is not modelled, and neither is a null entry inside the decoded list. The model assumes every row has both: in the update job they come from the local row, in discover-new from the registry's list. In the update job a null code is the `StringBuilder` constructor's argument and throws, while a null start is appended as the text "null" (GeoCodesINSEE.java line 133), so that fetch would most likely yield no data and the row would be skipped. Discover-new uses the start only in the debug message at lines 71-72 (see Logging). A null code there first reaches the store lookup at line 62, which is not part of this model; past it, a null name throws at `toUpperCase` (line 67) first, and otherwise the null code throws at `substring` (line 68).
- The update-existing job re-reads nothing from the store between rows. A row that appears twice in the candidate list is merged twice from the same snapshot, so both writes are the same row; the row-by-row result `UpdateGeocode.Refresh` merges each matched row exactly once.
