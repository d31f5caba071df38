/** `nextTrainJourneys` (src/fetch.ts): pick up to four structurally distinct
    departures on the rider's branch, resolve each to a journey (fresh from
    the provider or reused from the caller's previous result), and trim its
    stops to start at the rider's stop.

    The provider's departure list is an input; the provider's journey lookup,
    the nearest-neighbour search and the clock are parameters. */
module Fetch {
  import opened Wrappers
  import opened Subsequence
  import opened JsArray
  import opened Utils
  import opened Wagon

  /** How many departures `firstUnique` keeps (src/fetch.ts:34). */
  const MaxJourneys: nat := 4
  /** The lead journey is refetched when the minute is a multiple of this (src/fetch.ts:44). */
  const RefreshPeriod: nat := 5
  /** Length of the journey-code prefix that names a route variant (src/fetch.ts:35). */
  const KeyPrefixLength: nat := 2

  /** `nearest(point, departures, coordinateOf)` from src/geo: the departure whose
      destination lies closest to the point, or nothing. */
  type Nearest = (Point, seq<Departure>) -> Option<Departure>

  /** `Wagon.journey(id, region)`: the journey's stops, line and stop statuses,
      or `None` when the request fails (the source throws). */
  type Provider = (string, Point) -> Option<JourneyData>

  /** What the geometric search is assumed to return: nothing, or one of the candidates. */
  ghost predicate NearestPicksMember(nearest: Nearest) {
    forall p, ds :: nearest(p, ds).Some? ==> nearest(p, ds).value in ds
  }

  /** JavaScript truthiness of an optional string. */
  predicate Truthy(s: Option<string>) {
    s.Some? && s.value != ""
  }

  // ---------------------------------------------------------------------------
  // Departure selection (src/fetch.ts:26-41)
  // ---------------------------------------------------------------------------

  /** The deduplication key `x.journeyCode?.slice(0, 2) || x.destination.name`. */
  function UniqueKey(d: Departure): (k: string)
    ensures Truthy(d.journeyCode) ==>
              k <= d.journeyCode.value && |k| == Min(KeyPrefixLength, |d.journeyCode.value|)
    ensures !Truthy(d.journeyCode) ==> k == d.destinationName
  {
    match d.journeyCode
    case Some(code) =>
      var prefix := SliceTo(code, KeyPrefixLength);
      if prefix != "" then prefix else d.destinationName
    case None => d.destinationName
  }

  /** Two departures whose journey codes agree on their first two characters
      share a key, whatever their destinations. */
  lemma SameRouteVariantSameKey(a: Departure, b: Departure)
    requires a.journeyCode.Some? && b.journeyCode.Some?
    requires |a.journeyCode.value| >= KeyPrefixLength && |b.journeyCode.value| >= KeyPrefixLength
    requires a.journeyCode.value[..KeyPrefixLength] == b.journeyCode.value[..KeyPrefixLength]
    ensures UniqueKey(a) == UniqueKey(b)
  {
    assert UniqueKey(a) == a.journeyCode.value[..KeyPrefixLength];
    assert UniqueKey(b) == b.journeyCode.value[..KeyPrefixLength];
  }

  /** `terminusPosition && nearest(...)?.branchHash`: the branch of the departure
      heading closest to the given terminus position. */
  function PreferredBranch(terminus: Option<Point>, nearest: Nearest, departures: seq<Departure>): (h: Option<string>)
    ensures terminus.None? ==> h.None?
    ensures NearestPicksMember(nearest) && h.Some? ==>
              exists i :: 0 <= i < |departures| && departures[i].branchHash == h
  {
    match terminus
    case None => None
    case Some(p) =>
      match nearest(p, departures)
      case None => None
      case Some(d) =>
        assert d in departures ==> exists i :: 0 <= i < |departures| && departures[i] == d;
        d.branchHash
  }

  /** The filter at src/fetch.ts:36-40: when the preferred branch is truthy, keep
      exactly the departures carrying it (an absent hash never matches);
      otherwise keep everything. */
  function BranchFilter(preferred: Option<string>, departures: seq<Departure>): (r: seq<Departure>)
    ensures !Truthy(preferred) ==> r == departures
    ensures Truthy(preferred) ==> forall i :: 0 <= i < |r| ==> r[i].branchHash == preferred
    ensures forall d :: d in departures ==> (d in r <==> (!Truthy(preferred) || d.branchHash == preferred))
    ensures IsSubsequence(r, departures)
    ensures forall d :: d in departures ==>
              multiset(r)[d] == if !Truthy(preferred) || d.branchHash == preferred then multiset(departures)[d] else 0
  {
    var keep := (x: Departure) => if Truthy(preferred) then x.branchHash == preferred else true;
    FilterCounts(departures, keep);
    Filter(departures, keep)
  }

  /** The departures `first` that the journeys are built from (src/fetch.ts:26-41). */
  function SelectDepartures(terminus: Option<Point>, nearest: Nearest, departures: seq<Departure>): (r: seq<Departure>)
    ensures |r| <= MaxJourneys
    ensures DistinctKeys(UniqueKey, r)
    ensures IsSubsequence(r, departures)
    ensures Truthy(PreferredBranch(terminus, nearest, departures)) ==>
              forall i :: 0 <= i < |r| ==> r[i].branchHash == PreferredBranch(terminus, nearest, departures)
    ensures |r| == Min(MaxJourneys, |KeysOf(UniqueKey, BranchFilter(PreferredBranch(terminus, nearest, departures), departures))|)
  {
    var preferred := PreferredBranch(terminus, nearest, departures);
    var filtered := BranchFilter(preferred, departures);
    var r := FirstUnique(MaxJourneys, UniqueKey, filtered);
    SubsequenceTransitive(r, filtered, departures);
    SubsequenceMembers(r, filtered);
    assert forall i :: 0 <= i < |r| ==> r[i] in filtered;
    r
  }

  /** Without a terminus position, or when the nearest departure has no truthy
      branch hash, no branch filtering happens. */
  lemma NoFilterWithoutPreferredBranch(terminus: Option<Point>, nearest: Nearest, departures: seq<Departure>)
    requires terminus.None? || nearest(terminus.value, departures).None? ||
             !Truthy(nearest(terminus.value, departures).value.branchHash)
    ensures SelectDepartures(terminus, nearest, departures) == FirstUnique(MaxJourneys, UniqueKey, departures)
  {
  }

  /** A non-empty departure list always yields at least one selected departure:
      the nearest departure itself passes its own branch filter. */
  lemma SelectionNonEmpty(terminus: Option<Point>, nearest: Nearest, departures: seq<Departure>)
    requires NearestPicksMember(nearest)
    requires departures != []
    ensures SelectDepartures(terminus, nearest, departures) != []
  {
    var preferred := PreferredBranch(terminus, nearest, departures);
    var filtered := BranchFilter(preferred, departures);
    if Truthy(preferred) {
      var i :| 0 <= i < |departures| && departures[i].branchHash == preferred;
      assert departures[i] in filtered;
    }
    KeysOfNonEmpty(UniqueKey, filtered);
  }

  /** Each selected departure is the earliest branch-matching departure with its key. */
  lemma SelectionTakesFirstOfEachKey(terminus: Option<Point>, nearest: Nearest, departures: seq<Departure>)
    ensures var filtered := BranchFilter(PreferredBranch(terminus, nearest, departures), departures);
            var r := SelectDepartures(terminus, nearest, departures);
            forall e :: 0 <= e < |r| ==> FirstOfItsKey(UniqueKey, filtered, r[e])
  {
    var filtered := BranchFilter(PreferredBranch(terminus, nearest, departures), departures);
    FirstUniqueKeepsFirstOccurrences(MaxJourneys, UniqueKey, filtered);
  }

  /** The selection is the first four route variants to appear on the branch:
      a branch-matching departure whose key was not selected comes after every
      selected departure, and only once four have been selected. */
  lemma SelectionTakesEarliestKeys(terminus: Option<Point>, nearest: Nearest, departures: seq<Departure>)
    ensures var filtered := BranchFilter(PreferredBranch(terminus, nearest, departures), departures);
            var r := SelectDepartures(terminus, nearest, departures);
            forall i :: 0 <= i < |filtered| && UniqueKey(filtered[i]) !in KeysOf(UniqueKey, r) ==>
              |r| == MaxJourneys && IsSubsequence(r, filtered[..i])
  {
    var filtered := BranchFilter(PreferredBranch(terminus, nearest, departures), departures);
    FirstUniqueTakesEarliestKeys(MaxJourneys, UniqueKey, filtered);
  }

  /** The selection lists route variants in the order in which they first
      appear among the branch-matching departures. */
  lemma SelectionInKeyOrder(terminus: Option<Point>, nearest: Nearest, departures: seq<Departure>)
    ensures var filtered := BranchFilter(PreferredBranch(terminus, nearest, departures), departures);
            var r := SelectDepartures(terminus, nearest, departures);
            forall e1, e2 :: 0 <= e1 < e2 < |r| ==>
              FirstKeyIndex(UniqueKey, filtered, UniqueKey(r[e1])) < FirstKeyIndex(UniqueKey, filtered, UniqueKey(r[e2]))
  {
    var filtered := BranchFilter(PreferredBranch(terminus, nearest, departures), departures);
    FirstUniqueInKeyOrder(MaxJourneys, UniqueKey, filtered);
  }

  // ---------------------------------------------------------------------------
  // Refresh / cache policy (src/fetch.ts:43-58)
  // ---------------------------------------------------------------------------

  /** The inputs of one `nextTrainJourneys` call besides the external services:
      the rider's stop, the optional terminus position, the caller's previous
      journeys and the minute read from the clock. */
  datatype Env = Env(currentStopId: string, terminusPosition: Option<Point>, previousJourneys: seq<Journey>, minute: nat)

  /** `terminusPosition || { lat: 0, lon: 0 }`, the region passed to the provider. */
  function Region(terminus: Option<Point>): Point {
    terminus.GetOr(Point(0.0, 0.0))
  }

  /** `dayjs().minute() % 5 === 0`. */
  predicate NeedsRefresh(minute: nat) {
    minute % RefreshPeriod == 0
  }

  /** `first.at(0)?.id === departure.id`: same id as the first selected departure. */
  predicate IsFirstJourney(selection: seq<Departure>, d: Departure) {
    match At(selection, 0)
    case Some(f) => f.id == d.id
    case None => false
  }

  /** `j` is the first journey of `js` whose id is `id`. */
  ghost predicate FirstWithId(js: seq<Journey>, id: string, j: Journey) {
    exists k :: 0 <= k < |js| && js[k] == j && j.id == id && forall m :: 0 <= m < k ==> js[m].id != id
  }

  /** `previousJourneys.find((x) => x.id === id)`. */
  function FindById(previous: seq<Journey>, id: string): Option<Journey> {
    Find(previous, (x: Journey) => x.id == id)
  }

  /** Where a departure's journey comes from. */
  datatype Source = Reuse(journey: Journey) | Fetch

  /** The decision made by `getJourney`. */
  function ChooseSource(env: Env, selection: seq<Departure>, d: Departure): (s: Source)
    ensures IsFirstJourney(selection, d) && NeedsRefresh(env.minute) ==> s.Fetch?
    ensures !(IsFirstJourney(selection, d) && NeedsRefresh(env.minute)) ==>
              (s.Fetch? <==> forall k :: 0 <= k < |env.previousJourneys| ==> env.previousJourneys[k].id != d.id)
    ensures s.Reuse? ==> FirstWithId(env.previousJourneys, d.id, s.journey)
  {
    if IsFirstJourney(selection, d) && NeedsRefresh(env.minute) then Fetch
    else
      match FindById(env.previousJourneys, d.id)
      case Some(j) => Reuse(j)
      case None => Fetch
  }

  /** A resolved journey: a cached record, or the provider's answer for an id. */
  datatype Resolved = Cached(journey: Journey) | Fetched(id: string, data: JourneyData)

  /** `getJourney(departure)`; a failed provider request aborts with the journey id. */
  function GetJourney(env: Env, selection: seq<Departure>, d: Departure, provider: Provider): (r: Result<Resolved, string>)
    ensures r.Success? && r.value.Cached? <==> ChooseSource(env, selection, d).Reuse?
    ensures r.Success? && r.value.Cached? ==> FirstWithId(env.previousJourneys, d.id, r.value.journey)
    ensures r.Success? && r.value.Fetched? ==>
              r.value.id == d.id && Some(r.value.data) == provider(d.id, Region(env.terminusPosition))
    ensures r.Failure? <==> ChooseSource(env, selection, d).Fetch? && provider(d.id, Region(env.terminusPosition)).None?
    ensures r.Failure? ==> r.error == d.id
  {
    match ChooseSource(env, selection, d)
    case Reuse(j) => Success(Cached(j))
    case Fetch =>
      match provider(d.id, Region(env.terminusPosition))
      case Some(data) => Success(Fetched(d.id, data))
      case None => Failure(d.id)
  }

  function ResolvedStops(res: Resolved): seq<Stop> {
    match res
    case Cached(j) => j.stops
    case Fetched(_, data) => data.stops
  }

  // ---------------------------------------------------------------------------
  // Stop-list trimming and record merge (src/fetch.ts:60-78)
  // ---------------------------------------------------------------------------

  /** The rider's stop first occurs at position `p` of `stops`. */
  predicate IsOriginAt(stops: seq<Stop>, origin: string, p: nat)
    requires p < |stops|
  {
    stops[p].id == origin && forall q :: 0 <= q < p ==> stops[q].id != origin
  }

  /** `journey.stops.slice(indexOfOrigin <= 0 || i === 0 ? indexOfOrigin : indexOfOrigin - 1)`
      for the journey at position `i` of the selection. */
  function TrimStops(stops: seq<Stop>, origin: string, i: nat): (r: seq<Stop>)
    ensures |r| <= |stops| && r == stops[|stops| - |r|..]
    ensures |stops| > 0 ==> |r| > 0 && r[|r| - 1] == stops[|stops| - 1]
    ensures forall p :: 0 <= p < |stops| && IsOriginAt(stops, origin, p) && (i == 0 || p == 0) ==> r == stops[p..]
    ensures forall p :: 0 < p < |stops| && IsOriginAt(stops, origin, p) && i > 0 ==> r == stops[p - 1..]
    ensures (forall p :: 0 <= p < |stops| ==> stops[p].id != origin) ==> r == stops[|stops| - Min(1, |stops|)..]
  {
    TrimShape(stops, origin, i);
    SliceFrom(stops, TrimStart(stops, origin, i))
  }

  /** Where `slice` starts: the first position of the rider's stop (-1 when it
      is absent), one earlier for a later journey when that position is past 0. */
  function TrimStart(stops: seq<Stop>, origin: string, i: nat): int {
    var idx := FindIndex(stops, (s: Stop) => s.id == origin);
    if idx <= 0 || i == 0 then idx else idx - 1
  }

  lemma TrimShape(stops: seq<Stop>, origin: string, i: nat)
    ensures var r := SliceFrom(stops, TrimStart(stops, origin, i));
            |stops| > 0 ==> |r| > 0 && r[|r| - 1] == stops[|stops| - 1]
    ensures var r := SliceFrom(stops, TrimStart(stops, origin, i));
            forall p :: 0 <= p < |stops| && IsOriginAt(stops, origin, p) ==>
              ((i == 0 || p == 0) ==> r == stops[p..]) && (i > 0 && p > 0 ==> r == stops[p - 1..])
    ensures var r := SliceFrom(stops, TrimStart(stops, origin, i));
            (forall p :: 0 <= p < |stops| ==> stops[p].id != origin) ==> r == stops[|stops| - Min(1, |stops|)..]
  {
    var r := SliceFrom(stops, TrimStart(stops, origin, i));
    if |stops| > 0 {
      assert |r| > 0;
    }
    forall p | 0 <= p < |stops| && IsOriginAt(stops, origin, p)
      ensures ((i == 0 || p == 0) ==> r == stops[p..]) && (i > 0 && p > 0 ==> r == stops[p - 1..])
    {
      TrimAtOrigin(stops, origin, i, p);
    }
  }

  lemma TrimAtOrigin(stops: seq<Stop>, origin: string, i: nat, p: nat)
    requires p < |stops| && IsOriginAt(stops, origin, p)
    ensures TrimStart(stops, origin, i) == if i == 0 || p == 0 then p else p - 1
  {
    var idx := FindIndex(stops, (s: Stop) => s.id == origin);
    assert idx == p;
  }

  /** Trimming an already trimmed stop list at the same position changes nothing. */
  lemma TrimIdempotent(stops: seq<Stop>, origin: string, i: nat)
    ensures TrimStops(TrimStops(stops, origin, i), origin, i) == TrimStops(stops, origin, i)
  {
    TrimAgain(stops, origin, i, i);
  }

  /** Re-trimming a trimmed stop list for any position `j`: the list is
      unchanged, except that a list trimmed for a later position, which then
      starts one stop before the rider's stop, loses that stop when trimmed
      for the lead position 0. No stop is ever added back. */
  lemma TrimAgain(stops: seq<Stop>, origin: string, i: nat, j: nat)
    ensures var t := TrimStops(stops, origin, i);
            !(j == 0 && i > 0 && exists p :: 0 < p < |stops| && IsOriginAt(stops, origin, p)) ==>
              TrimStops(t, origin, j) == t
    ensures var t := TrimStops(stops, origin, i);
            j == 0 && i > 0 && (exists p :: 0 < p < |stops| && IsOriginAt(stops, origin, p)) ==>
              |t| > 1 && TrimStops(t, origin, j) == t[1..]
  {
    var p := FindIndex(stops, (s: Stop) => s.id == origin);
    if p >= 0 {
      assert IsOriginAt(stops, origin, p);
      TrimAgainWithOrigin(stops, origin, i, j, p);
      OriginPositionUnique(stops, origin, p);
    } else {
      TrimAgainWithoutOrigin(stops, origin, i, j);
    }
  }

  /** The first position of the rider's stop is unique. */
  lemma OriginPositionUnique(stops: seq<Stop>, origin: string, p: nat)
    requires p < |stops| && IsOriginAt(stops, origin, p)
    ensures (exists q :: 0 < q < |stops| && IsOriginAt(stops, origin, q)) <==> p > 0
  {
    assert forall q :: 0 <= q < |stops| && IsOriginAt(stops, origin, q) ==> q == p;
  }

  lemma TrimAgainWithOrigin(stops: seq<Stop>, origin: string, i: nat, j: nat, p: nat)
    requires p < |stops| && IsOriginAt(stops, origin, p)
    ensures var t := TrimStops(stops, origin, i);
            if j == 0 && i > 0 && p > 0 then |t| > 1 && TrimStops(t, origin, j) == t[1..]
            else TrimStops(t, origin, j) == t
  {
    var t := TrimStops(stops, origin, i);
    if i == 0 || p == 0 {
      assert t == stops[p..];
      assert IsOriginAt(t, origin, 0);
    } else {
      assert t == stops[p - 1..];
      assert t[0] == stops[p - 1] && t[1] == stops[p];
      assert IsOriginAt(t, origin, 1);
    }
  }

  lemma TrimAgainWithoutOrigin(stops: seq<Stop>, origin: string, i: nat, j: nat)
    requires forall p :: 0 <= p < |stops| ==> stops[p].id != origin
    ensures TrimStops(TrimStops(stops, origin, i), origin, j) == TrimStops(stops, origin, i)
  {
    var t := TrimStops(stops, origin, i);
    if stops != [] {
      assert t == stops[|stops| - 1..] == [stops[|stops| - 1]];
      assert forall q :: 0 <= q < |t| ==> t[q].id != origin;
    }
  }

  /** `{ userStopDeparture: departure, ...journey, stops: stopsFromOrigin }`: a cached
      journey keeps its own `userStopDeparture`, a fetched one gets `departure`. */
  function MergeRecord(d: Departure, res: Resolved, stops: seq<Stop>): (r: Journey)
    ensures r.stops == stops
    ensures res.Cached? ==>
              r.id == res.journey.id && r.line == res.journey.line &&
              r.userStopDeparture == res.journey.userStopDeparture &&
              r.closedStops == res.journey.closedStops && r.skippedStops == res.journey.skippedStops
    ensures res.Fetched? ==>
              r.id == res.id && r.line == res.data.line && r.userStopDeparture == d &&
              r.closedStops == res.data.closedStops && r.skippedStops == res.data.skippedStops
  {
    match res
    case Cached(j) => j.(stops := stops)
    case Fetched(id, data) => Journey(id, data.line, d, stops, data.closedStops, data.skippedStops)
  }

  /** What one iteration contributes: the assembled journey and, when the
      provider was asked, the id it was asked for. */
  datatype Step = Step(journey: Journey, fetchedId: Option<string>)

  /** One iteration of the loop at src/fetch.ts:62-76, for selection position `i`. */
  function AssembleOne(env: Env, selection: seq<Departure>, i: nat, provider: Provider): (r: Result<Step, string>)
    requires i < |selection|
    ensures r.Success? ==> r.value.journey.id == selection[i].id
    ensures r.Success? ==> r.value.fetchedId == (if ChooseSource(env, selection, selection[i]).Fetch? then Some(selection[i].id) else None)
    ensures r.Failure? <==> ChooseSource(env, selection, selection[i]).Fetch? && provider(selection[i].id, Region(env.terminusPosition)).None?
    ensures r.Failure? ==> r.error == selection[i].id
  {
    var d := selection[i];
    match GetJourney(env, selection, d, provider)
    case Failure(e) => Failure(e)
    case Success(res) =>
      var trimmed := TrimStops(ResolvedStops(res), env.currentStopId, i);
      Success(Step(MergeRecord(d, res, trimmed), if res.Fetched? then Some(d.id) else None))
  }

  /** The assembled journeys and the ids requested from the provider. */
  datatype Assembly = Assembly(journeys: seq<Journey>, fetched: seq<string>)

  /** Runs the iterations in order and stops at the first one that throws,
      as the sequential `await` loop does. */
  function Collect(steps: seq<Result<Step, string>>): (r: Result<Assembly, string>)
    ensures r.Success? ==> |r.value.journeys| == |steps| && |r.value.fetched| <= |steps|
    ensures r.Success? ==> forall k :: 0 <= k < |steps| ==>
              steps[k].Success? && steps[k].value.journey == r.value.journeys[k]
    ensures r.Success? ==> forall id :: id in r.value.fetched <==>
              exists k :: 0 <= k < |steps| && steps[k].Success? && steps[k].value.fetchedId == Some(id)
    ensures r.Failure? <==> exists k :: 0 <= k < |steps| && steps[k].Failure?
    ensures r.Failure? ==> exists k :: (0 <= k < |steps| && steps[k] == Failure(r.error) &&
              forall m :: 0 <= m < k ==> steps[m].Success?)
    decreases |steps|
  {
    if steps == [] then Success(Assembly([], []))
    else
      assert forall k :: 1 <= k < |steps| ==> steps[k] == steps[1..][k - 1];
      match steps[0]
      case Failure(e) => Failure(e)
      case Success(st) =>
        match Collect(steps[1..])
        case Failure(e) =>
          assert exists k :: (1 <= k < |steps| && steps[k] == Failure(e) && forall m :: 1 <= m < k ==> steps[m].Success?);
          Failure(e)
        case Success(rest) =>
          var fetched := if st.fetchedId.Some? then [st.fetchedId.value] else [];
          Success(Assembly([st.journey] + rest.journeys, fetched + rest.fetched))
  }

  /** Every iteration of the loop, in selection order. */
  function Iterations(env: Env, selection: seq<Departure>, provider: Provider): (steps: seq<Result<Step, string>>)
    ensures |steps| == |selection|
    ensures forall k :: 0 <= k < |selection| ==> steps[k] == AssembleOne(env, selection, k, provider)
  {
    seq(|selection|, k requires 0 <= k < |selection| => AssembleOne(env, selection, k, provider))
  }

  /** The loop at src/fetch.ts:60-78 over a selection. */
  function Assemble(env: Env, selection: seq<Departure>, provider: Provider): (r: Result<Assembly, string>)
    ensures r.Success? ==> |r.value.journeys| == |selection|
    ensures r.Success? ==> forall k :: 0 <= k < |selection| ==> r.value.journeys[k].id == selection[k].id
  {
    Collect(Iterations(env, selection, provider))
  }

  /** `nextTrainJourneys(currentStopId, lineId, terminusPosition, previousJourneys)`,
      given the departures the provider listed for the line at the rider's stop. */
  function NextTrainJourneys(env: Env, departures: seq<Departure>, nearest: Nearest, provider: Provider): (r: Result<Assembly, string>)
    ensures r.Success? ==> |r.value.journeys| == |SelectDepartures(env.terminusPosition, nearest, departures)|
  {
    Assemble(env, SelectDepartures(env.terminusPosition, nearest, departures), provider)
  }

  // ---------------------------------------------------------------------------
  // Properties of the assembly loop
  // ---------------------------------------------------------------------------

  /** A successful run holds each iteration's journey at that iteration's
      position, and each id an iteration requested. */
  lemma CollectedAt(steps: seq<Result<Step, string>>, k: nat)
    requires Collect(steps).Success? && k < |steps|
    ensures steps[k].Success? && Collect(steps).value.journeys[k] == steps[k].value.journey
    ensures steps[k].value.fetchedId.Some? ==> steps[k].value.fetchedId.value in Collect(steps).value.fetched
  {
    assert steps[k].Success? && steps[k].value.fetchedId == Some(steps[k].value.fetchedId.GetOr(""))
           ==> exists k' :: 0 <= k' < |steps| && steps[k'].Success? &&
                            steps[k'].value.fetchedId == Some(steps[k].value.fetchedId.GetOr(""));
  }

  /** An id that no iteration requested is absent from the run's requests. */
  lemma NoStepFetches(steps: seq<Result<Step, string>>, id: string)
    requires Collect(steps).Success?
    requires forall k :: 0 <= k < |steps| && steps[k].Success? ==> steps[k].value.fetchedId != Some(id)
    ensures id !in Collect(steps).value.fetched
  {
  }

  /** What a successful call holds at selection position `k`: the journey that
      iteration built, and the departure's id among the requests when the
      iteration fetched. */
  lemma AssembledAt(env: Env, selection: seq<Departure>, provider: Provider, k: nat)
    requires Assemble(env, selection, provider).Success?
    requires k < |selection|
    ensures AssembleOne(env, selection, k, provider).Success?
    ensures Assemble(env, selection, provider).value.journeys[k] == AssembleOne(env, selection, k, provider).value.journey
    ensures ChooseSource(env, selection, selection[k]).Fetch? ==>
              selection[k].id in Assemble(env, selection, provider).value.fetched
  {
    var steps := Iterations(env, selection, provider);
    assert Assemble(env, selection, provider) == Collect(steps);
    assert steps[k] == AssembleOne(env, selection, k, provider);
    CollectedAt(steps, k);
  }

  /** The journey one iteration builds from the record `getJourney` resolved. */
  lemma AssembleOneJourney(env: Env, selection: seq<Departure>, k: nat, provider: Provider)
    requires k < |selection|
    requires GetJourney(env, selection, selection[k], provider).Success?
    ensures var res := GetJourney(env, selection, selection[k], provider).value;
            AssembleOne(env, selection, k, provider).Success? &&
            AssembleOne(env, selection, k, provider).value.journey ==
              MergeRecord(selection[k], res, TrimStops(ResolvedStops(res), env.currentStopId, k))
  {
  }

  /** The lead journey in a refresh minute, or a departure with no previous
      journey, is fetched. */
  lemma MustFetch(env: Env, selection: seq<Departure>, k: nat)
    requires k < |selection|
    requires (NeedsRefresh(env.minute) && selection[k].id == selection[0].id) ||
             (forall q :: 0 <= q < |env.previousJourneys| ==> env.previousJourneys[q].id != selection[k].id)
    ensures ChooseSource(env, selection, selection[k]).Fetch?
  {
    assert At(selection, 0) == Some(selection[0]);
  }

  /** Outside the lead journey's refresh minute, the first previous journey with
      a departure's id is reused. */
  lemma MustReuse(env: Env, selection: seq<Departure>, k: nat, m: nat)
    requires k < |selection|
    requires !(NeedsRefresh(env.minute) && selection[k].id == selection[0].id)
    requires m < |env.previousJourneys| && env.previousJourneys[m].id == selection[k].id
    requires forall q :: 0 <= q < m ==> env.previousJourneys[q].id != selection[k].id
    ensures ChooseSource(env, selection, selection[k]) == Reuse(env.previousJourneys[m])
  {
    assert At(selection, 0) == Some(selection[0]);
    var s := ChooseSource(env, selection, selection[k]);
    assert s.Reuse?;
    var q :| 0 <= q < |env.previousJourneys| && env.previousJourneys[q] == s.journey && s.journey.id == selection[k].id &&
             forall q' :: 0 <= q' < q ==> env.previousJourneys[q'].id != selection[k].id;
    assert q == m;
  }

  /** A journey taken from the provider, because it is the lead journey in a
      refresh minute or because no previous journey has its id, carries the new
      departure, the provider's line and stop statuses, and the provider's stops
      trimmed for its position; its id is among the requested ones. */
  lemma FetchedJourneyCarriesNewDeparture(env: Env, selection: seq<Departure>, provider: Provider, k: nat)
    requires Assemble(env, selection, provider).Success?
    requires k < |selection|
    requires (NeedsRefresh(env.minute) && selection[k].id == selection[0].id) ||
             (forall q :: 0 <= q < |env.previousJourneys| ==> env.previousJourneys[q].id != selection[k].id)
    ensures var r := Assemble(env, selection, provider).value;
            var answer := provider(selection[k].id, Region(env.terminusPosition));
            answer.Some? &&
            selection[k].id in r.fetched &&
            r.journeys[k] == Journey(selection[k].id, answer.value.line, selection[k],
                                     TrimStops(answer.value.stops, env.currentStopId, k),
                                     answer.value.closedStops, answer.value.skippedStops)
  {
    var d := selection[k];
    MustFetch(env, selection, k);
    AssembledAt(env, selection, provider, k);
    var answer := provider(d.id, Region(env.terminusPosition));
    assert GetJourney(env, selection, d, provider) == Success(Fetched(d.id, answer.value));
    AssembleOneJourney(env, selection, k, provider);
  }

  /** Departures with the same id get the same decision from `getJourney`. */
  lemma {:induction false} ChooseSourceById(env: Env, selection: seq<Departure>, a: Departure, b: Departure)
    requires a.id == b.id
    ensures ChooseSource(env, selection, a) == ChooseSource(env, selection, b)
  {
    assert IsFirstJourney(selection, a) == IsFirstJourney(selection, b);
    assert FindById(env.previousJourneys, a.id) == FindById(env.previousJourneys, b.id);
  }

  /** Outside the lead journey's refresh minute, a departure whose id occurs among
      the previous journeys gets the first such journey verbatim except for its
      re-trimmed stops (including that journey's own `userStopDeparture`), and the
      provider is never asked for that id. */
  lemma CachedJourneyReused(env: Env, selection: seq<Departure>, provider: Provider, k: nat, m: nat)
    requires Assemble(env, selection, provider).Success?
    requires k < |selection|
    requires !(NeedsRefresh(env.minute) && selection[k].id == selection[0].id)
    requires m < |env.previousJourneys| && env.previousJourneys[m].id == selection[k].id
    requires forall q :: 0 <= q < m ==> env.previousJourneys[q].id != selection[k].id
    ensures var r := Assemble(env, selection, provider).value;
            var cached := env.previousJourneys[m];
            r.journeys[k] == cached.(stops := TrimStops(cached.stops, env.currentStopId, k)) &&
            r.journeys[k].userStopDeparture == cached.userStopDeparture &&
            selection[k].id !in r.fetched
  {
    var cached := env.previousJourneys[m];
    MustReuse(env, selection, k, m);
    AssembledAt(env, selection, provider, k);
    assert GetJourney(env, selection, selection[k], provider) == Success(Cached(cached));
    AssembleOneJourney(env, selection, k, provider);
    ReusedIdNeverFetched(env, selection, provider, k);
  }

  /** An iteration never requests the id of a departure whose journey is reused. */
  lemma ReusedIdNotRequestedAt(env: Env, selection: seq<Departure>, provider: Provider, k: nat, k': nat)
    requires k < |selection| && k' < |selection|
    requires ChooseSource(env, selection, selection[k]).Reuse?
    ensures AssembleOne(env, selection, k', provider).Success? ==>
              AssembleOne(env, selection, k', provider).value.fetchedId != Some(selection[k].id)
  {
    if selection[k'].id == selection[k].id {
      ChooseSourceById(env, selection, selection[k], selection[k']);
    }
  }

  /** When `getJourney` reuses a previous journey for a departure, no departure
      with that id is requested from the provider. */
  lemma ReusedIdNeverFetched(env: Env, selection: seq<Departure>, provider: Provider, k: nat)
    requires Assemble(env, selection, provider).Success?
    requires k < |selection|
    requires ChooseSource(env, selection, selection[k]).Reuse?
    ensures selection[k].id !in Assemble(env, selection, provider).value.fetched
  {
    var steps := Iterations(env, selection, provider);
    assert Assemble(env, selection, provider) == Collect(steps);
    forall k' | 0 <= k' < |steps| && steps[k'].Success?
      ensures steps[k'].value.fetchedId != Some(selection[k].id)
    {
      assert steps[k'] == AssembleOne(env, selection, k', provider);
      ReusedIdNotRequestedAt(env, selection, provider, k, k');
    }
    NoStepFetches(steps, selection[k].id);
  }

  /** A call fails exactly when some departure's journey has to come from the
      provider and the provider fails; the error names the first such departure,
      and no partial result is returned. */
  lemma FailureAbortsCall(env: Env, selection: seq<Departure>, provider: Provider)
    ensures Assemble(env, selection, provider).Failure? <==>
              exists k :: 0 <= k < |selection| && ChooseSource(env, selection, selection[k]).Fetch? &&
                          provider(selection[k].id, Region(env.terminusPosition)).None?
    ensures var r := Assemble(env, selection, provider);
            r.Failure? ==> exists k :: 0 <= k < |selection| && r.error == selection[k].id &&
                                        ChooseSource(env, selection, selection[k]).Fetch? &&
                                        provider(selection[k].id, Region(env.terminusPosition)).None? &&
                                        forall m :: 0 <= m < k ==>
                                          !(ChooseSource(env, selection, selection[m]).Fetch? &&
                                            provider(selection[m].id, Region(env.terminusPosition)).None?)
  {
    var steps := Iterations(env, selection, provider);
    var r := Assemble(env, selection, provider);
    if r.Failure? {
      var k :| 0 <= k < |steps| && steps[k] == Failure(r.error) && forall m :: 0 <= m < k ==> steps[m].Success?;
      assert AssembleOne(env, selection, k, provider).Failure?;
      forall m | 0 <= m < k
        ensures !(ChooseSource(env, selection, selection[m]).Fetch? &&
                  provider(selection[m].id, Region(env.terminusPosition)).None?)
      {
        assert AssembleOne(env, selection, m, provider).Success?;
      }
    }
    if exists k :: 0 <= k < |selection| && ChooseSource(env, selection, selection[k]).Fetch? &&
                   provider(selection[k].id, Region(env.terminusPosition)).None? {
      var k :| 0 <= k < |selection| && ChooseSource(env, selection, selection[k]).Fetch? &&
               provider(selection[k].id, Region(env.terminusPosition)).None?;
      assert steps[k].Failure?;
    }
  }

  /** Replaying a result: when a journey this call returned is the first entry
      with its id among the next call's previous journeys, the same selection
      position gets back exactly that journey, provided it is not the lead
      journey in a refresh minute. */
  lemma ReplayFromCacheIsIdentity(env: Env, selection: seq<Departure>, provider: Provider,
                                  k: nat, previous: seq<Journey>, minute: nat, m: nat)
    requires Assemble(env, selection, provider).Success?
    requires k < |selection|
    requires !(NeedsRefresh(minute) && selection[k].id == selection[0].id)
    requires var j := Assemble(env, selection, provider).value.journeys[k];
             m < |previous| && previous[m] == j && forall q :: 0 <= q < m ==> previous[q].id != j.id
    ensures var replay := Assemble(env.(previousJourneys := previous, minute := minute), selection, provider);
            replay.Success? ==> replay.value.journeys[k] == Assemble(env, selection, provider).value.journeys[k]
  {
    var env' := env.(previousJourneys := previous, minute := minute);
    AssembledAt(env, selection, provider, k);
    AssembleOneJourney(env, selection, k, provider);
    var res := GetJourney(env, selection, selection[k], provider).value;
    var j := Assemble(env, selection, provider).value.journeys[k];
    assert j.stops == TrimStops(ResolvedStops(res), env.currentStopId, k);
    TrimIdempotent(ResolvedStops(res), env.currentStopId, k);
    if Assemble(env', selection, provider).Success? {
      CachedJourneyReused(env', selection, provider, k, m);
      assert j.(stops := TrimStops(j.stops, env.currentStopId, k)) == j;
    }
  }
}
