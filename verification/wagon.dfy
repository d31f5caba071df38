/** The record shapes exchanged with the transit data provider
    (`SimpleLine`, `SimpleStop`, `SimpleDeparture`, `SimpleJourney` of
    src/services/Wagon.ts), reduced to what the selection logic reads.
    Fields the logic only copies are kept opaque. */
module Wagon {
  import opened Wrappers

  /** A geographic position; only handed to the nearest-neighbour oracle
      and to the provider, never computed with. */
  datatype Point = Point(lat: real, lon: real)

  /** A timestamp (a dayjs value in the source); only copied. */
  datatype Instant = Instant(epochMillis: int)

  /** Route metadata of a journey; only copied. */
  datatype Line = Line(id: string, number: string, backgroundColor: string, textColor: string, importance: int)

  /** A stop of a journey, identified by its id. */
  datatype Stop = Stop(id: string)

  /** One upcoming vehicle at the rider's stop. */
  datatype Departure = Departure(
    id: string,
    destinationName: string,
    destinationPosition: Point,
    leavesAt: Instant,
    branchHash: Option<string>,
    journeyCode: Option<string>)

  /** A vehicle run with its ordered stops, as handed to the display. */
  datatype Journey = Journey(
    id: string,
    line: Line,
    userStopDeparture: Departure,
    stops: seq<Stop>,
    closedStops: set<string>,
    skippedStops: set<string>)

  /** What the provider's journey lookup returns besides the requested id:
      it carries no `userStopDeparture`. */
  datatype JourneyData = JourneyData(
    stops: seq<Stop>,
    line: Line,
    closedStops: set<string>,
    skippedStops: set<string>)
}
