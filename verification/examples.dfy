/** Worked scenarios: concrete inputs for the selection key, the trimming
    policy and the terminus extraction, with the results the code gives. */
module Scenarios {
  import opened Wrappers
  import opened Wagon
  import opened Fetch
  import opened Journeys

  /** Journey codes "A1-123" and "A1-999" share the key "A1"; a missing or empty
      code falls back to the destination name. */
  lemma KeyScenario(dest1: string, dest2: string, pos: Point, t: Instant)
    ensures UniqueKey(Departure("j1", dest1, pos, t, None, Some("A1-123"))) == "A1"
    ensures UniqueKey(Departure("j2", dest2, pos, t, None, Some("A1-999"))) == "A1"
    ensures UniqueKey(Departure("j3", dest2, pos, t, None, None)) == dest2
    ensures UniqueKey(Departure("j4", dest2, pos, t, None, Some(""))) == dest2
  {
  }

  function FourStops(): seq<Stop> {
    [Stop("S0"), Stop("S1"), Stop("S2"), Stop("S3")]
  }

  /** Origin S1 of S0..S3: the first journey starts at S1. */
  lemma TrimScenarioFirst()
    ensures TrimStops(FourStops(), "S1", 0) == [Stop("S1"), Stop("S2"), Stop("S3")]
  {
    assert IsOriginAt(FourStops(), "S1", 1);
  }

  /** Origin S1 of S0..S3: a later journey starts one stop earlier, at S0. */
  lemma TrimScenarioLater()
    ensures TrimStops(FourStops(), "S1", 2) == FourStops()
  {
    assert IsOriginAt(FourStops(), "S1", 1);
  }

  /** Origin S0 of S0..S3: every journey keeps the whole list. */
  lemma TrimScenarioOriginFirst()
    ensures TrimStops(FourStops(), "S0", 3) == FourStops()
  {
    assert IsOriginAt(FourStops(), "S0", 0);
  }

  /** An origin that is not on the journey: `slice(-1)` keeps only the terminus. */
  lemma TrimScenarioOriginAbsent()
    ensures TrimStops(FourStops(), "S9", 1) == [Stop("S3")]
  {
    assert forall p :: 0 <= p < |FourStops()| ==> FourStops()[p].id != "S9";
  }

  function FiveJourneys(line: Line, d: Departure, d4: Departure): seq<Journey> {
    [Journey("j0", line, d, [Stop("A"), Stop("T")], {}, {}),
     Journey("j1", line, d, [Stop("A"), Stop("T")], {}, {}),
     Journey("j2", line, d, [Stop("A"), Stop("U")], {}, {}),
     Journey("j3", line, d, [Stop("U"), Stop("T")], {}, {}),
     Journey("j4", line, d4, [Stop("A"), Stop("V")], {}, {})]
  }

  /** In the five journeys, journey 1 ends at T, U is passed through by
      journey 3, and V is a genuine terminus. */
  lemma FiveJourneysTerminuses(line: Line, d: Departure, d4: Departure)
    ensures var js := FiveJourneys(line, d, d4);
            NextTerminus(js) == Some("T") && "U" !in Survivors(js) && "V" in Survivors(js)
  {
    var js := FiveJourneys(line, d, d4);
    assert IsNonFinalStop(js, "U") by {
      assert js[3].stops[0].id == "U";
    }
    assert "V" in Survivors(js) by {
      assert TerminusOf(js[4]).GetOr("") == "V";
      forall k, m | 0 <= k < |js| && 0 <= m < |js[k].stops| - 1
        ensures js[k].stops[m].id != "V"
      {
        assert m == 0;
      }
    }
  }

  /** Terminuses T, T, U, T, V where journey 3 has U as a non-final stop: U is a false
      terminus, T is journey 1's own terminus, so only V is reported. */
  lemma FalseTerminusScenario(line: Line, d: Departure, d4: Departure)
    ensures ExtractNextUniqueDepartures(FiveJourneys(line, d, d4)) == [TerminusArrival("V", d4.leavesAt)]
  {
    var js := FiveJourneys(line, d, d4);
    var survivors := Survivors(js);
    var next := NextTerminus(js);
    FiveJourneysTerminuses(line, d, d4);
    assert TerminusOf(js[1]) == TerminusOf(js[3]) == next && TerminusOf(js[2]) == Some("U");
    assert !EmitsAt(js, 1, survivors, next, {}) && !EmitsAt(js, 2, survivors, next, {}) && !EmitsAt(js, 3, survivors, next, {});
    assert TerminusOf(js[4]) == Some("V") && EmitsAt(js, 4, survivors, next, {});
    EmitFromStep(js, 1, survivors, next, {});
    EmitFromStep(js, 2, survivors, next, {});
    EmitFromStep(js, 3, survivors, next, {});
    EmitFromStep(js, 4, survivors, next, {});
    assert EmitFrom(js, 5, survivors, next, {"V"}) == [];
  }
}
