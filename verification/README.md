# Next train journeys and next unique terminuses — a Dafny model

This project models the selection logic of a departure board for one line at
one stop. The logic sits between a transit data provider and the display.

- `nextTrainJourneys` (src/fetch.ts) has three stages.
  - It keeps the provider's departures on the rider's branch. The branch is
    the `branchHash` of the departure whose destination lies nearest the given
    terminus position.
  - It picks up to four structurally distinct departures with `firstUnique`.
    The key is the first two characters of the journey code, or the
    destination name when there is no code.
  - It resolves each picked departure to a journey and trims the journey's
    stops to start at the rider's stop. A journey is either fetched fresh or
    reused from the caller's previous result. The lead journey is refetched
    whenever the minute is a multiple of five.
- `extractNextUniqueDepartures` (src/journeys.ts) gives the next arrival at
  each genuine terminus from a list of journeys. A terminus is genuine when no
  journey in the list has it as a non-final stop. The terminus of journey 1 is left
  out.

Modules, leaf first:

- `Wrappers` (wrappers.dfy): `Option`, `Result`.
- `Wagon` (wagon.dfy): the record shapes of src/services/Wagon.ts
  (`Departure`, `Stop`, `Journey`, `JourneyData`, `Line`, `Point`,
  `Instant`). Each is reduced to the fields the logic reads; the rest are kept
  as opaque values that are only copied.
- `Subsequence` (subsequence.dfy): order-preserving selection.
- `JsArray` (jsarray.dfy): the ECMAScript operations the code relies on
  (`slice` with negative indices, `at`, `filter`, `findIndex`, `find`).
- `Utils` (utils.dfy): `firstUnique`.
- `Fetch` (fetch.dfy): `nextTrainJourneys`.
- `Journeys` (journeys.dfy): `extractNextUniqueDepartures`.
- `Scenarios` (examples.dfy): concrete inputs with the results the code gives.

The external collaborators are parameters:

- `Nearest`: the geometric nearest-neighbour search, an arbitrary function.
  Only `SelectionNonEmpty` and the second clause of `PreferredBranch` assume
  that it returns nothing or one of its candidates.
- `Provider`: the provider's journey lookup, an arbitrary function of id and
  region. `None` stands for a failed request.
- `Env.minute`: the clock's minute.
- the departure list: the provider's answer to the departures query.

`Assembly.fetched` records which ids the provider was asked for, so the
refresh policy can be stated.

## Model

| member | source | states |
|---|---|---|
| `Utils.FirstUnique` | src/fetch.ts:33-41 | at most `n` elements, pairwise-distinct keys, a subsequence of the input in input order, and exactly `min(n, number of distinct keys)` elements |
| `Utils.FirstUniqueKeepsFirstOccurrences` | src/fetch.ts:33-41 | every kept element is the first element of the input carrying its key |
| `Utils.FirstUniqueFromKeepsFirstOccurrences` | src/fetch.ts:33-41 | the same, for the scan with keys already taken |
| `Utils.FirstUniqueTakesEarliestKeys` | src/fetch.ts:33-41 | the kept keys are the first `n` distinct keys to appear: an element whose key was not kept comes after every kept element, and only once `n` are kept |
| `Utils.FirstUniqueInKeyOrder` | src/fetch.ts:33-41 | kept elements come out in the order in which their keys first appear in the input |
| `Utils.FirstUniqueFromInKeyOrder` | src/fetch.ts:33-41 | the same for one pair of positions, for the scan with keys already taken |
| `Utils.FirstUniqueFromIsSubsequence` | src/fetch.ts:33-41 | the scan with keys already taken keeps a subsequence of its input |
| `Utils.FirstUniqueFromDistinctKeys` | src/fetch.ts:33-41 | the scan with keys already taken never keeps two elements with the same key |
| `Utils.FirstUniqueFromCount` | src/fetch.ts:33-41 | the scan with keys already taken keeps `min(n, number of unseen keys)` elements |
| `Utils.FirstUniqueFromTakesEarliestKeys` | src/fetch.ts:33-41 | the same, for the scan with keys already taken, where a key that was already taken is never kept again |
| `Fetch.UniqueKey` | src/fetch.ts:35 | with a non-empty journey code the key is that code's prefix of length min(2, code length); with no code or an empty code it is the destination name |
| `Fetch.SameRouteVariantSameKey` | src/fetch.ts:35 | two departures whose codes agree on the first two characters share a key, whatever their destinations |
| `Fetch.PreferredBranch` | src/fetch.ts:26-31 | no preferred branch without a terminus position; a preferred branch is the hash of some listed departure when the search returns a candidate |
| `Fetch.BranchFilter` | src/fetch.ts:36-40 | with a truthy preferred hash, a departure passes if and only if its hash equals it (an absent hash never passes); otherwise the list is unchanged; the output keeps input order, and every passing departure is kept as many times as it occurs |
| `Fetch.SelectDepartures` | src/fetch.ts:26-41 | at most 4 departures, distinct keys, a subsequence of the provider's list, all on the preferred branch when there is one, as many as there are distinct keys among the filtered departures up to 4 |
| `Fetch.NoFilterWithoutPreferredBranch` | src/fetch.ts:26-40 | with no terminus position, no nearest departure, or a nearest departure without a truthy hash, the selection is `firstUnique` over the unfiltered list |
| `Fetch.SelectionNonEmpty` | src/fetch.ts:26-41 | a non-empty departure list gives a non-empty selection, because the nearest departure passes its own branch filter |
| `Fetch.SelectionTakesFirstOfEachKey` | src/fetch.ts:33-41 | each selected departure is the earliest branch-matching departure with its key |
| `Fetch.SelectionInKeyOrder` | src/fetch.ts:33-41 | the selected departures come in the order in which their route variants first appear among the branch-matching departures |
| `Fetch.SelectionTakesEarliestKeys` | src/fetch.ts:33-41 | the selection holds the first four keys to appear among the branch-matching departures: a departure whose key was not selected comes after every selected one, and only once four are selected |
| `Fetch.GetJourney` | src/fetch.ts:43-58 | a cached record comes back exactly when the decision is to reuse, and it is the first previous journey with the id; otherwise the provider's answer for the departure's id, or a failure naming the id exactly when that request fails |
| `Fetch.ChooseSource` | src/fetch.ts:43-58 | the lead journey (same id as the first selected departure) is fetched in a minute divisible by 5; otherwise a fetch happens if and only if no previous journey has the id, and a reuse returns the first previous journey with that id |
| `Fetch.TrimStops` | src/fetch.ts:64-69 | the result is a suffix of the stops that keeps the terminus; it starts at the rider's stop for position 0 or when the rider's stop comes first, one stop earlier otherwise, and is only the last stop when the rider's stop is absent |
| `Fetch.TrimIdempotent` | src/fetch.ts:64-69 | trimming an already trimmed list at the same position changes nothing |
| `Fetch.TrimAgain` | src/fetch.ts:64-69 | trimming an already trimmed list for any position changes nothing, except that a list trimmed for a later position with the rider's stop not first loses its first stop when trimmed for position 0 |
| `Fetch.MergeRecord` | src/fetch.ts:71-75 | the record carries the trimmed stops; a cached journey keeps its own id, line, stop statuses and `userStopDeparture`; a fetched one carries the requested id, the provider's line and stop statuses, and the current departure |
| `Fetch.AssembleOne` | src/fetch.ts:63-75 | the journey built for a departure has the departure's id; the provider is asked exactly when the decision is to fetch; the step fails exactly when that request fails, naming the journey |
| `Fetch.Collect` | src/fetch.ts:60-78 | on success, one journey per iteration in order, and the requested ids are those of the fetching iterations; the run fails if and only if some iteration fails, with the first failure's error |
| `Fetch.NextTrainJourneys` | src/fetch.ts:14-79 | a successful call returns one journey per selected departure |
| `Fetch.Assemble` | src/fetch.ts:60-78 | a successful loop returns one journey per selected departure, and the k-th journey has the k-th departure's id |
| `Fetch.FetchedJourneyCarriesNewDeparture` | src/fetch.ts:43-75 | for the lead journey in a refresh minute (even if a previous journey has its id), or for a departure with no previous journey: the provider is asked, and the journey carries the new departure, the provider's line, stop statuses and trimmed stops |
| `Fetch.CachedJourneyReused` | src/fetch.ts:54-75 | outside the lead journey's refresh, the first previous journey with the id is returned verbatim except for re-trimmed stops, including its own `userStopDeparture`, and the id is never requested |
| `Fetch.ReusedIdNeverFetched` | src/fetch.ts:54-57 | when a departure's journey is reused, no departure with that id is requested from the provider |
| `Fetch.FailureAbortsCall` | src/fetch.ts:62-76 | the call fails exactly when some departure must be fetched and the provider fails for it; the error names the first such departure |
| `Fetch.ReplayFromCacheIsIdentity` | src/fetch.ts:54-75 | a returned journey put among the next call's previous journeys comes back unchanged at the same position, unless it is the lead journey in a refresh minute |
| `JsArray.SliceFrom` | src/fetch.ts:67-69 | `slice(start)` is a suffix; a non-negative start drops `start` elements; a negative start keeps the last `-start` |
| `JsArray.SliceTo` | src/journeys.ts:18 | `slice(0, end)` is a prefix; a negative end drops the last `-end` elements |
| `JsArray.At` | src/journeys.ts:10 | `at(k)` is defined exactly for `-length <= k < length`; it is the element at `k` for `k >= 0` and the element at `length + k` otherwise, so `at(-1)` is the last element |
| `JsArray.Filter` | src/fetch.ts:36-40 | `filter` keeps, in order, exactly the elements satisfying the predicate, and keeps everything when every element satisfies it |
| `JsArray.FilterCounts` | src/fetch.ts:36-40 | each satisfying element occurs in the result as often as in the input; any other element does not occur in it |
| `JsArray.FindIndex` | src/fetch.ts:64-66 | `findIndex` is the first matching position, or -1 exactly when nothing matches |
| `JsArray.Find` | src/fetch.ts:55 | `find` is the first matching element, or nothing exactly when nothing matches |
| `Journeys.TerminusOf` | src/journeys.ts:13 | a journey has a terminus exactly when it has stops, and it is the last stop's id |
| `Journeys.NextTerminus` | src/journeys.ts:10 | the terminus of journey 1, absent for fewer than two journeys |
| `Journeys.Survivors` | src/journeys.ts:12-21 | an id survives if and only if some journey ends there (`""` for a journey without stops) and no journey has it as a non-final stop |
| `Journeys.EmitFrom` | src/journeys.ts:23-37 | entries are not yet seen, non-empty, surviving and not journey 1's terminus; at most one entry per remaining journey |
| `Journeys.EmitFromEntryEta` | src/journeys.ts:23-37 | an entry's `eta` is the departure time of the first remaining journey that ends at its terminus |
| `Journeys.EmitFromEntryOrder` | src/journeys.ts:23-37 | entries follow the order of their terminuses' first remaining journeys |
| `Journeys.EmitFromCovers` | src/journeys.ts:23-37 | every remaining journey whose terminus qualifies and is unseen has that terminus reported |
| `Journeys.ExtractNextUniqueDepartures` | src/journeys.ts:4-40 | fewer than two journeys give an empty result |
| `Journeys.ExtractLengthBound` | src/journeys.ts:10-37 | with n ≥ 2 journeys, at most n − 2 entries, since journey 1 never contributes |
| `Journeys.ExtractedAreGenuineTerminuses` | src/journeys.ts:17-36 | each entry's terminus is non-empty and is nobody's intermediate stop, journey 0 included; it is not journey 1's terminus; its `eta` is that of the lowest-indexed journey from 1 on that ends there |
| `Journeys.ExtractedInFirstOccurrenceOrder` | src/journeys.ts:23-39 | no terminus appears twice, and entries follow the first appearance of their terminuses among journeys 1, 2, ... |
| `Journeys.ExtractIsComplete` | src/journeys.ts:12-37 | every journey from 1 on with a non-empty terminus that no journey has as a non-final stop and that differs from journey 1's terminus has that terminus reported |
| `Scenarios.KeyScenario` | src/fetch.ts:35 | codes "A1-123" and "A1-999" both give key "A1"; a missing or empty code gives the destination name |
| `Scenarios.TrimScenarioFirst` | src/fetch.ts:64-69 | stops S0..S3 with origin S1 at position 0 give S1..S3 |
| `Scenarios.TrimScenarioLater` | src/fetch.ts:64-69 | stops S0..S3 with origin S1 at a later position give S0..S3 |
| `Scenarios.TrimScenarioOriginFirst` | src/fetch.ts:64-69 | stops S0..S3 with origin S0 keep the whole list |
| `Scenarios.TrimScenarioOriginAbsent` | src/fetch.ts:64-69 | an origin not on the journey leaves only the terminus S3 |
| `Scenarios.FalseTerminusScenario` | src/journeys.ts:4-40 | terminuses T, T, U, T, V, with U passed through by another journey, report only V, with journey 4's departure time |

## Behaviour that a reader might not expect

- Rider's stop absent from a journey. The code computes `slice(-1)`, so
  only the journey's last stop is kept, not the whole list (`TrimStops`,
  `TrimScenarioOriginAbsent`).
- The lead journey. A departure counts as "first" when its id equals the id
  of `first[0]`, not when it sits at position 0 (`IsFirstJourney`). A later
  departure with the same id would also count as first.
- Cache replay. A cached journey's stops are trimmed again on reuse. Trimming
  only ever removes stops, so none comes back. The re-trimmed list is
  unchanged with one exception: the list was trimmed for a later position, the
  rider's stop was not the first stop, and the journey now comes back as the
  lead journey at position 0. Then it loses its first stop, the one before the
  rider's stop (`TrimAgain`). At the same position a replayed journey comes
  back unchanged (`ReplayFromCacheIsIdentity`).
- Journeys without stops. The code does not assume that every journey has
  stops. A journey without stops contributes the candidate id `""`, and that
  id is never reported.

## Left out

- Provider requests (src/services/Wagon.ts:101-207). URL building, HTTP and
  JSON mapping are not modelled. The departure list is an input. The journey
  lookup is the `Provider` parameter, and its result is `JourneyData` plus the
  requested id, as at src/services/Wagon.ts:192-206.
- Timestamps. Parsing and the "valid and in the future" filter
  (src/services/Wagon.ts:138-157) depend on dayjs and the clock. `leavesAt` is
  the opaque `Instant`, and `arrivesAt` is dropped.
- SVG processing and line mapping (src/services/Wagon.ts:48-53, 89-99) are
  presentation only. `Line` is opaque and only copied.
- The base URL and API key (src/services/Wagon.ts:56-64) are configuration.
- `nearest` from src/geo is floating-point geometry, and src/geo is not part of
  this model. It is the `Nearest` parameter.
- `firstUnique` lives in src/app/utils, which is not part of this model. Its
  behaviour here is assumed, inferred from its name and its call at
  src/fetch.ts:33-41: keep, in input order, the first elements with unseen
  keys until `n` are kept.
- `lineId` only feeds the departures query, so it does not appear.
- `console.log` at src/fetch.ts:70 is left out.
- `vehicleLength` and a stop's name, position and served lines are dropped.
  No modelled logic reads them.
- `await` sequencing. The loop runs in order and stops at the first thrown
  error. `Collect` models this over the iterations in order. The provider is
  a function, so a failed run returns only the error. The ids requested before
  the failure are not reported.
- A failed request throws `Error("Failed to fetch journey")` in the source.
  The model returns `Failure(journeyId)` instead.
- `NextTrainJourneys`: reads the clock once per call. The source calls
  `dayjs().minute()` inside every `getJourney`. A different minute only
  matters for departures that share the first departure's id.
- Strings are sequences of characters, so `slice(0, 2)` counts characters
  where JavaScript counts UTF-16 code units.
- Spreading a cached journey whose `userStopDeparture` is an explicit
  `undefined` is not modelled. `SimpleJourney` declares the field as required,
  so a cached journey always carries its own departure.
