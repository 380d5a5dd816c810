/** The table rows that several components read and write. */
module Records {
  import opened Prelude
  import opened ClockTime

  const SCHEDULED := "SCHEDULED"
  const SKIPPED := "SKIPPED"
  const DUPLICATED := "DUPLICATED"
  const CANCELED := "CANCELED"
  const DELETED := "DELETED"

  /** Trip-level relationships that take the trip out of service. */
  predicate IsRemovedTrip(relationship: string) {
    relationship == CANCELED || relationship == DELETED
  }

  lemma RemovedTripsAre(relationship: string)
    ensures IsRemovedTrip(relationship) <==> relationship == "CANCELED" || relationship == "DELETED"
  {
  }

  datatype StopTime = StopTime(tripId: string, stopId: string, stopSequence: int, arrivalTime: TimeOfDay)

  datatype Route = Route(id: string, shortName: string)

  /** The monday..sunday columns in order. */
  type WeekdayFlags = f: seq<int> | |f| == 7 witness [0, 0, 0, 0, 0, 0, 0]

  datatype Calendar = Calendar(id: string, weekdays: WeekdayFlags, startDate: Date, endDate: Date)

  datatype Stop = Stop(id: string)

  datatype Trip = Trip(id: string, routeId: string, serviceId: string, direction: Option<int>, dataset: string)

  /** One row of the join behind a StaticScheduleModel. */
  datatype ScheduleRow = ScheduleRow(stopTime: StopTime, route: Route, calendar: Calendar, stop: Stop, trip: Trip)

  datatype RTTrip = RTTrip(tripId: string, routeId: string, startTime: TimeOfDay, startDate: Date,
                           relationship: string, direction: int, entityId: string,
                           dataset: string, createdAt: Instant)

  datatype RTStopTime = RTStopTime(stopId: string, tripId: string, stopSequence: int,
                                   relationship: string, arrivalDelay: Option<int>,
                                   departureDelay: Option<int>, entityId: string,
                                   dataset: string, createdAt: Instant)

  /** (trip_id, stop_id, stop_sequence). */
  datatype CellKey = CellKey(tripId: string, stopId: string, stopSequence: int)

  function CellOf(s: ScheduleRow): CellKey {
    CellKey(s.trip.id, s.stop.id, s.stopTime.stopSequence)
  }

  function CellOfUpdate(r: RTStopTime): CellKey {
    CellKey(r.tripId, r.stopId, r.stopSequence)
  }
}
