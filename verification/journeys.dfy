/** `extractNextUniqueDepartures` (src/journeys.ts): from a list of journeys,
    the next arrival at each genuine terminus other than the one journey 1
    already goes to. A terminus is genuine when no journey in the list has it
    as a non-final stop. */
module Journeys {
  import opened Wrappers
  import opened JsArray
  import opened Wagon

  /** One entry of the result: a terminus and when the journey to it leaves the rider's stop. */
  datatype TerminusArrival = TerminusArrival(terminusId: string, eta: Instant)

  /** `journey.stops.at(-1)?.id`. */
  function TerminusOf(j: Journey): (t: Option<string>)
    ensures t.Some? <==> j.stops != []
    ensures t.Some? ==> t.value == j.stops[|j.stops| - 1].id
  {
    match At(j.stops, -1)
    case Some(s) => Some(s.id)
    case None => None
  }

  /** `journeysList.at(1)?.stops.at(-1)?.id`: where journey 1 ends. */
  function NextTerminus(js: seq<Journey>): (t: Option<string>)
    ensures |js| >= 2 ==> t == TerminusOf(js[1])
    ensures |js| < 2 ==> t.None?
  {
    match At(js, 1)
    case Some(j) => TerminusOf(j)
    case None => None
  }

  /** Some journey of `js` has `id` as a non-final stop. */
  ghost predicate IsNonFinalStop(js: seq<Journey>, id: string) {
    exists k, m :: 0 <= k < |js| && 0 <= m < |js[k].stops| - 1 && js[k].stops[m].id == id
  }

  /** The set `terminuses` after the loops at src/journeys.ts:14-21: every journey's
      last stop id (`""` for a journey without stops), minus every id that
      some journey has as a non-final stop. */
  function Survivors(js: seq<Journey>): (s: set<string>)
    ensures forall id :: id in s <==>
              (exists k :: 0 <= k < |js| && TerminusOf(js[k]).GetOr("") == id) && !IsNonFinalStop(js, id)
  {
    var candidates := set k | 0 <= k < |js| :: TerminusOf(js[k]).GetOr("");
    var passedThrough := set k, m | 0 <= k < |js| && 0 <= m < |SliceTo(js[k].stops, -1)| :: SliceTo(js[k].stops, -1)[m].id;
    assert forall id :: id in passedThrough <==> IsNonFinalStop(js, id) by {
      forall id | IsNonFinalStop(js, id)
        ensures id in passedThrough
      {
        var k, m :| 0 <= k < |js| && 0 <= m < |js[k].stops| - 1 && js[k].stops[m].id == id;
        assert SliceTo(js[k].stops, -1)[m] == js[k].stops[m];
      }
    }
    candidates - passedThrough
  }

  /** The least position at or after `k` whose journey ends at `id`, or `|js|`. */
  function FirstIndexOf(js: seq<Journey>, id: string, k: nat): (p: nat)
    requires k <= |js|
    ensures k <= p <= |js|
    ensures p < |js| ==> TerminusOf(js[p]) == Some(id)
    ensures forall q :: k <= q < p ==> TerminusOf(js[q]) != Some(id)
    decreases |js| - k
  {
    if k == |js| then |js|
    else if TerminusOf(js[k]) == Some(id) then k
    else FirstIndexOf(js, id, k + 1)
  }

  /** Whether the journey at `k` adds an entry, given the keys `seen` so far. */
  predicate EmitsAt(js: seq<Journey>, k: nat, survivors: set<string>, next: Option<string>, seen: set<string>)
    requires k < |js|
  {
    var t := TerminusOf(js[k]);
    t.Some? && t.value != "" && t.value in survivors && next != t && t.value !in seen
  }

  /** The keys seen after the journey at `k` has been considered. */
  function SeenAfter(js: seq<Journey>, k: nat, survivors: set<string>, next: Option<string>, seen: set<string>): set<string>
    requires k < |js|
  {
    if EmitsAt(js, k, survivors, next, seen) then seen + {TerminusOf(js[k]).value} else seen
  }

  /** The loop at src/journeys.ts:23-37 from journey `k` on; `seen` holds the
      keys already in `uniqueDepartures`. */
  function EmitFrom(js: seq<Journey>, k: nat, survivors: set<string>, next: Option<string>, seen: set<string>): (r: seq<TerminusArrival>)
    ensures k >= |js| ==> r == []
    ensures k <= |js| ==> |r| <= |js| - k
    ensures forall e :: 0 <= e < |r| ==>
              r[e].terminusId !in seen && r[e].terminusId != "" && r[e].terminusId in survivors && next != Some(r[e].terminusId)
    decreases |js| - k
  {
    if k >= |js| then []
    else
      var rest := EmitFrom(js, k + 1, survivors, next, SeenAfter(js, k, survivors, next, seen));
      if EmitsAt(js, k, survivors, next, seen) then
        [TerminusArrival(TerminusOf(js[k]).value, js[k].userStopDeparture.leavesAt)] + rest
      else
        rest
  }

  /** An entry produced after journey `k` does not end at journey `k`'s terminus,
      so its first journey from `k` on is its first journey from `k + 1` on. */
  lemma LaterEntrySkipsHead(js: seq<Journey>, k: nat, survivors: set<string>, next: Option<string>, seen: set<string>, e: nat)
    requires k < |js|
    requires e < |EmitFrom(js, k + 1, survivors, next, SeenAfter(js, k, survivors, next, seen))|
    ensures var id := EmitFrom(js, k + 1, survivors, next, SeenAfter(js, k, survivors, next, seen))[e].terminusId;
            TerminusOf(js[k]) != Some(id) && FirstIndexOf(js, id, k) == FirstIndexOf(js, id, k + 1)
  {
  }

  /** The emission step: an entry for journey `k` when it qualifies, then the rest. */
  lemma EmitFromStep(js: seq<Journey>, k: nat, survivors: set<string>, next: Option<string>, seen: set<string>)
    requires k < |js|
    ensures var rest := EmitFrom(js, k + 1, survivors, next, SeenAfter(js, k, survivors, next, seen));
            EmitFrom(js, k, survivors, next, seen) ==
              if EmitsAt(js, k, survivors, next, seen)
              then [TerminusArrival(TerminusOf(js[k]).value, js[k].userStopDeparture.leavesAt)] + rest
              else rest
  {
  }

  /** Past the entry for journey `k` (if any), the entries are those produced
      from `k + 1` on, and their first journeys lie after `k`. */
  lemma EmitFromShift(js: seq<Journey>, k: nat, survivors: set<string>, next: Option<string>, seen: set<string>, e: nat)
    requires k < |js|
    requires (if EmitsAt(js, k, survivors, next, seen) then 1 else 0) <= e < |EmitFrom(js, k, survivors, next, seen)|
    ensures var shift := if EmitsAt(js, k, survivors, next, seen) then 1 else 0;
            var rest := EmitFrom(js, k + 1, survivors, next, SeenAfter(js, k, survivors, next, seen));
            e - shift < |rest| &&
            EmitFrom(js, k, survivors, next, seen)[e] == rest[e - shift] &&
            FirstIndexOf(js, rest[e - shift].terminusId, k) == FirstIndexOf(js, rest[e - shift].terminusId, k + 1)
  {
    EmitFromStep(js, k, survivors, next, seen);
    var shift := if EmitsAt(js, k, survivors, next, seen) then 1 else 0;
    LaterEntrySkipsHead(js, k, survivors, next, seen, e - shift);
  }

  /** Entry `e`'s `eta` comes from the first journey (from `k` on) that ends at its terminus. */
  lemma {:induction false} EmitFromEntryEta(js: seq<Journey>, k: nat, survivors: set<string>, next: Option<string>, seen: set<string>, e: nat)
    requires e < |EmitFrom(js, k, survivors, next, seen)|
    ensures k < |js|
    ensures FirstIndexOf(js, EmitFrom(js, k, survivors, next, seen)[e].terminusId, k) < |js|
    ensures EmitFrom(js, k, survivors, next, seen)[e].eta ==
              js[FirstIndexOf(js, EmitFrom(js, k, survivors, next, seen)[e].terminusId, k)].userStopDeparture.leavesAt
    decreases |js| - k, 1
  {
    if EmitsAt(js, k, survivors, next, seen) && e == 0 {
      EmitFromStep(js, k, survivors, next, seen);
      assert FirstIndexOf(js, TerminusOf(js[k]).value, k) == k;
    } else {
      EntryEtaPastHead(js, k, survivors, next, seen, e);
    }
  }

  /** An entry past the one for journey `k` (if any) takes its `eta` from
      among the journeys from `k + 1` on. */
  lemma {:induction false} EntryEtaPastHead(js: seq<Journey>, k: nat, survivors: set<string>, next: Option<string>, seen: set<string>, e: nat)
    requires k < |js|
    requires (if EmitsAt(js, k, survivors, next, seen) then 1 else 0) <= e < |EmitFrom(js, k, survivors, next, seen)|
    ensures FirstIndexOf(js, EmitFrom(js, k, survivors, next, seen)[e].terminusId, k) < |js|
    ensures EmitFrom(js, k, survivors, next, seen)[e].eta ==
              js[FirstIndexOf(js, EmitFrom(js, k, survivors, next, seen)[e].terminusId, k)].userStopDeparture.leavesAt
    decreases |js| - k, 0
  {
    var shift := if EmitsAt(js, k, survivors, next, seen) then 1 else 0;
    EmitFromShift(js, k, survivors, next, seen, e);
    EmitFromEntryEta(js, k + 1, survivors, next, SeenAfter(js, k, survivors, next, seen), e - shift);
  }

  /** Entries appear in the order of their terminuses' first journeys from `k` on. */
  lemma {:induction false} EmitFromEntryOrder(js: seq<Journey>, k: nat, survivors: set<string>, next: Option<string>, seen: set<string>, e1: nat, e2: nat)
    requires e1 < e2 < |EmitFrom(js, k, survivors, next, seen)|
    ensures k < |js|
    ensures FirstIndexOf(js, EmitFrom(js, k, survivors, next, seen)[e1].terminusId, k) <
            FirstIndexOf(js, EmitFrom(js, k, survivors, next, seen)[e2].terminusId, k)
    decreases |js| - k, 1
  {
    if EmitsAt(js, k, survivors, next, seen) && e1 == 0 {
      EntryOrderAtHead(js, k, survivors, next, seen, e2);
    } else {
      EntryOrderPastHead(js, k, survivors, next, seen, e1, e2);
    }
  }

  /** Two entries past the one for journey `k` (if any) keep the order they
      have among the entries produced from `k + 1` on. */
  lemma {:induction false} EntryOrderPastHead(js: seq<Journey>, k: nat, survivors: set<string>, next: Option<string>, seen: set<string>, e1: nat, e2: nat)
    requires k < |js|
    requires (if EmitsAt(js, k, survivors, next, seen) then 1 else 0) <= e1 < e2 < |EmitFrom(js, k, survivors, next, seen)|
    ensures FirstIndexOf(js, EmitFrom(js, k, survivors, next, seen)[e1].terminusId, k) <
            FirstIndexOf(js, EmitFrom(js, k, survivors, next, seen)[e2].terminusId, k)
    decreases |js| - k, 0
  {
    var shift := if EmitsAt(js, k, survivors, next, seen) then 1 else 0;
    EmitFromShift(js, k, survivors, next, seen, e1);
    EmitFromShift(js, k, survivors, next, seen, e2);
    EmitFromEntryOrder(js, k + 1, survivors, next, SeenAfter(js, k, survivors, next, seen), e1 - shift, e2 - shift);
  }

  /** The entry for journey `k` comes before every later entry. */
  lemma EntryOrderAtHead(js: seq<Journey>, k: nat, survivors: set<string>, next: Option<string>, seen: set<string>, e2: nat)
    requires k < |js| && EmitsAt(js, k, survivors, next, seen)
    requires 0 < e2 < |EmitFrom(js, k, survivors, next, seen)|
    ensures FirstIndexOf(js, EmitFrom(js, k, survivors, next, seen)[0].terminusId, k) <
            FirstIndexOf(js, EmitFrom(js, k, survivors, next, seen)[e2].terminusId, k)
  {
    EmitFromStep(js, k, survivors, next, seen);
    EmitFromShift(js, k, survivors, next, seen, e2);
    assert FirstIndexOf(js, TerminusOf(js[k]).value, k) == k;
  }

  /** A journey from `k` on whose terminus qualifies and is not yet in `seen`
      has its terminus in the result. */
  lemma {:induction false} EmitFromCovers(js: seq<Journey>, k: nat, survivors: set<string>, next: Option<string>, seen: set<string>, q: nat)
    requires k <= q < |js|
    requires EmitsAt(js, q, survivors, next, seen)
    ensures exists e :: 0 <= e < |EmitFrom(js, k, survivors, next, seen)| &&
                        EmitFrom(js, k, survivors, next, seen)[e].terminusId == TerminusOf(js[q]).value
    decreases q - k, 1
  {
    var id := TerminusOf(js[q]).value;
    if EmitsAt(js, k, survivors, next, seen) && TerminusOf(js[k]).value == id {
      EmitFromStep(js, k, survivors, next, seen);
      assert EmitFrom(js, k, survivors, next, seen)[0].terminusId == id;
    } else {
      CoversPastHead(js, k, survivors, next, seen, q);
    }
  }

  /** A qualifying journey after `k` whose terminus is not the one journey `k`
      adds is still qualifying from `k + 1` on, and its entry there is shifted
      by journey `k`'s entry. */
  lemma {:induction false} CoversPastHead(js: seq<Journey>, k: nat, survivors: set<string>, next: Option<string>, seen: set<string>, q: nat)
    requires k <= q < |js|
    requires EmitsAt(js, q, survivors, next, seen)
    requires !(EmitsAt(js, k, survivors, next, seen) && TerminusOf(js[k]).value == TerminusOf(js[q]).value)
    ensures exists e :: 0 <= e < |EmitFrom(js, k, survivors, next, seen)| &&
                        EmitFrom(js, k, survivors, next, seen)[e].terminusId == TerminusOf(js[q]).value
    decreases q - k, 0
  {
    var seen' := SeenAfter(js, k, survivors, next, seen);
    var rest := EmitFrom(js, k + 1, survivors, next, seen');
    var id := TerminusOf(js[q]).value;
    assert q != k;
    assert EmitsAt(js, q, survivors, next, seen');
    EmitFromCovers(js, k + 1, survivors, next, seen', q);
    var e :| 0 <= e < |rest| && rest[e].terminusId == id;
    EntryCarriesOver(js, k, survivors, next, seen, e);
  }

  /** Every entry produced from `k + 1` on reappears from `k` on, shifted by
      journey `k`'s entry (if any). */
  lemma EntryCarriesOver(js: seq<Journey>, k: nat, survivors: set<string>, next: Option<string>, seen: set<string>, e: nat)
    requires k < |js|
    requires e < |EmitFrom(js, k + 1, survivors, next, SeenAfter(js, k, survivors, next, seen))|
    ensures var shift := if EmitsAt(js, k, survivors, next, seen) then 1 else 0;
            var rest := EmitFrom(js, k + 1, survivors, next, SeenAfter(js, k, survivors, next, seen));
            e + shift < |EmitFrom(js, k, survivors, next, seen)| &&
            EmitFrom(js, k, survivors, next, seen)[e + shift] == rest[e]
  {
    EmitFromStep(js, k, survivors, next, seen);
  }

  /** `extractNextUniqueDepartures(journeysList)`. */
  function ExtractNextUniqueDepartures(js: seq<Journey>): (r: seq<TerminusArrival>)
    ensures |js| < 2 ==> r == []
  {
    EmitFrom(js, 1, Survivors(js), NextTerminus(js), {})
  }

  /** Journey 1 never contributes, so at most `|js| - 2` entries come out. */
  lemma ExtractLengthBound(js: seq<Journey>)
    requires |js| >= 2
    ensures |ExtractNextUniqueDepartures(js)| <= |js| - 2
  {
    EmitFromStep(js, 1, Survivors(js), NextTerminus(js), {});
    assert !EmitsAt(js, 1, Survivors(js), NextTerminus(js), {});
  }

  /** Every entry names a non-empty terminus that no journey (journey 0 included)
      has as a non-final stop, that journey 1 does not end at, and whose `eta` is the
      departure time of the lowest-indexed journey from 1 on that ends there. */
  lemma ExtractedAreGenuineTerminuses(js: seq<Journey>)
    ensures var r := ExtractNextUniqueDepartures(js);
            forall e :: 0 <= e < |r| ==>
              r[e].terminusId != "" &&
              !IsNonFinalStop(js, r[e].terminusId) &&
              (|js| >= 2 && js[1].stops != [] ==> r[e].terminusId != js[1].stops[|js[1].stops| - 1].id) &&
              exists k :: 1 <= k < |js| && TerminusOf(js[k]) == Some(r[e].terminusId) &&
                          r[e].eta == js[k].userStopDeparture.leavesAt &&
                          forall q :: 1 <= q < k ==> TerminusOf(js[q]) != Some(r[e].terminusId)
  {
    var r := ExtractNextUniqueDepartures(js);
    forall e | 0 <= e < |r|
      ensures exists k :: 1 <= k < |js| && TerminusOf(js[k]) == Some(r[e].terminusId) &&
                          r[e].eta == js[k].userStopDeparture.leavesAt &&
                          forall q :: 1 <= q < k ==> TerminusOf(js[q]) != Some(r[e].terminusId)
    {
      EmitFromEntryEta(js, 1, Survivors(js), NextTerminus(js), {}, e);
      var k := FirstIndexOf(js, r[e].terminusId, 1);
      assert TerminusOf(js[k]) == Some(r[e].terminusId);
    }
  }

  /** No terminus is reported twice, and entries follow the order in which their
      terminuses first appear among journeys 1, 2, .... */
  lemma ExtractedInFirstOccurrenceOrder(js: seq<Journey>)
    ensures var r := ExtractNextUniqueDepartures(js);
            forall e1, e2 :: 0 <= e1 < e2 < |r| ==>
              r[e1].terminusId != r[e2].terminusId &&
              FirstIndexOf(js, r[e1].terminusId, 1) < FirstIndexOf(js, r[e2].terminusId, 1)
  {
    var r := ExtractNextUniqueDepartures(js);
    forall e1, e2 | 0 <= e1 < e2 < |r|
      ensures FirstIndexOf(js, r[e1].terminusId, 1) < FirstIndexOf(js, r[e2].terminusId, 1)
    {
      EmitFromEntryOrder(js, 1, Survivors(js), NextTerminus(js), {}, e1, e2);
    }
  }

  /** Conversely, every journey from 1 on whose non-empty terminus no journey
      has as a non-final stop, and which differs from journey 1's terminus, has that
      terminus reported. */
  lemma ExtractIsComplete(js: seq<Journey>)
    ensures var r := ExtractNextUniqueDepartures(js);
            forall k :: 1 <= k < |js| && js[k].stops != [] ==>
              var id := js[k].stops[|js[k].stops| - 1].id;
              id != "" && !IsNonFinalStop(js, id) && !(js[1].stops != [] && id == js[1].stops[|js[1].stops| - 1].id) ==>
                exists e :: 0 <= e < |r| && r[e].terminusId == id
  {
    forall k | 1 <= k < |js| && js[k].stops != [] &&
               var id := js[k].stops[|js[k].stops| - 1].id;
               id != "" && !IsNonFinalStop(js, id) && !(js[1].stops != [] && id == js[1].stops[|js[1].stops| - 1].id)
      ensures exists e :: 0 <= e < |ExtractNextUniqueDepartures(js)| &&
                          ExtractNextUniqueDepartures(js)[e].terminusId == js[k].stops[|js[k].stops| - 1].id
    {
      assert TerminusOf(js[k]).GetOr("") == TerminusOf(js[k]).value;
      assert EmitsAt(js, k, Survivors(js), NextTerminus(js), {});
      EmitFromCovers(js, 1, Survivors(js), NextTerminus(js), {}, k);
      assert ExtractNextUniqueDepartures(js) == EmitFrom(js, 1, Survivors(js), NextTerminus(js), {});
    }
  }
}
