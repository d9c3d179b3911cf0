/**
 * The reservation table and the rule `reserve` applies before adding to it.
 * Dates are day numbers; a date that did not parse is `None`.
 */
module Reservations {
  import opened Optional

  /** One booked car: `start` and `end` are both days of the booking. */
  datatype Reservation = Reservation(userId: nat, carId: nat, start: int, end: int)

  /** What `reserve` does with a request, in the order it checks. */
  datatype Outcome =
    | CarNotFound     // no car with this id: a 404
    | InvalidDate     // a date is missing or not an ISO date
    | EndBeforeStart  // the end date precedes the start date
    | Conflict        // an existing booking of this car shares a day
    | Reserved        // one reservation was appended

  /** A `reserve` request: who asks, for which car, and the parsed dates. */
  datatype Request = Request(userId: nat, carId: nat, start: Option<int>, end: Option<int>)

  /**
   * The conflict query's filter: a booking of the same car whose inclusive
   * range meets `[start, end]`; a shared boundary day is a clash.
   */
  predicate Clashes(r: Reservation, carId: nat, start: int, end: int) {
    r.carId == carId && r.start <= end && r.end >= start
  }

  /** Day `d` lies in the booking's inclusive range. */
  predicate Holds(r: Reservation, d: int) {
    r.start <= d <= r.end
  }

  /**
   * For well-formed ranges the filter is exactly "same car and some day in
   * common": comparing the end points is the same as sharing a day.
   */
  lemma ClashesIffSharedDay(r: Reservation, carId: nat, start: int, end: int)
    requires r.start <= r.end && start <= end
    ensures Clashes(r, carId, start, end) <==> r.carId == carId && exists d :: Holds(r, d) && start <= d <= end
  {
    if Clashes(r, carId, start, end) {
      var d := if r.start < start then start else r.start;
      assert Holds(r, d) && start <= d <= end;
    }
  }

  /** Some stored booking clashes with `[start, end]` for this car. */
  predicate Booked(rs: seq<Reservation>, carId: nat, start: int, end: int) {
    exists i :: 0 <= i < |rs| && Clashes(rs[i], carId, start, end)
  }

  /** The conflict query's `.first()`: the first clashing booking, if any. */
  function FirstConflict(rs: seq<Reservation>, carId: nat, start: int, end: int): (k: Option<nat>)
    ensures k.None? <==> !Booked(rs, carId, start, end)
    ensures k.Some? ==> k.value < |rs| && Clashes(rs[k.value], carId, start, end)
    ensures k.Some? ==> forall i :: 0 <= i < k.value ==> !Clashes(rs[i], carId, start, end)
  {
    if rs == [] then None
    else if Clashes(rs[0], carId, start, end) then Some(0)
    else match FirstConflict(rs[1..], carId, start, end)
      case None => None
      case Some(j) => Some(j + 1)
  }

  /**
   * What the table keeps: each booking names an existing car and has
   * `start <= end`, and no two bookings of one car share a day.
   */
  ghost predicate Invariant(rs: seq<Reservation>, cars: set<nat>) {
    && (forall i :: 0 <= i < |rs| ==> rs[i].carId in cars && rs[i].start <= rs[i].end)
    && (forall i, j :: 0 <= i < j < |rs| && rs[i].carId == rs[j].carId ==>
          rs[i].end < rs[j].start || rs[j].end < rs[i].start)
  }

  /**
   * `reserve` on the table `rs` with the set of car ids `cars`: the outcome
   * and the table afterwards. It succeeds exactly when the car exists, both
   * dates parse, they are in order and no booking of the car shares a day
   * with them; then it appends one booking and otherwise changes nothing.
   */
  function Reserve(rs: seq<Reservation>, cars: set<nat>, req: Request): (r: (Outcome, seq<Reservation>))
    ensures r.0 == CarNotFound <==> req.carId !in cars
    ensures r.0 == InvalidDate <==> req.carId in cars && (req.start.None? || req.end.None?)
    ensures r.0 == EndBeforeStart <==>
      req.carId in cars && req.start.Some? && req.end.Some? && req.end.value < req.start.value
    ensures r.0 == Conflict <==>
      && req.carId in cars && req.start.Some? && req.end.Some? && req.start.value <= req.end.value
      && Booked(rs, req.carId, req.start.value, req.end.value)
    ensures r.0 == Reserved ==>
      r.1 == rs + [Reservation(req.userId, req.carId, req.start.value, req.end.value)]
    ensures r.0 != Reserved ==> r.1 == rs
  {
    if req.carId !in cars then (CarNotFound, rs)
    else if req.start.None? || req.end.None? then (InvalidDate, rs)
    else if req.end.value < req.start.value then (EndBeforeStart, rs)
    else if FirstConflict(rs, req.carId, req.start.value, req.end.value).Some? then (Conflict, rs)
    else (Reserved, rs + [Reservation(req.userId, req.carId, req.start.value, req.end.value)])
  }

  /** One `reserve` keeps the table's invariant. */
  lemma ReservePreservesInvariant(rs: seq<Reservation>, cars: set<nat>, req: Request)
    requires Invariant(rs, cars)
    ensures Invariant(Reserve(rs, cars, req).1, cars)
  {
    var r := Reserve(rs, cars, req);
    if r.0 == Reserved {
      var n := Reservation(req.userId, req.carId, req.start.value, req.end.value);
      assert r.1 == rs + [n];
      forall i | 0 <= i < |rs| && rs[i].carId == n.carId
        ensures rs[i].end < n.start || n.end < rs[i].start
      {
        assert !Clashes(rs[i], n.carId, n.start, n.end);
      }
    }
  }

  /** The table after the requests `reqs`, served one after another from `rs`. */
  function Replay(rs: seq<Reservation>, cars: set<nat>, reqs: seq<Request>): (final: seq<Reservation>)
    ensures |rs| <= |final| <= |rs| + |reqs|
    ensures final[..|rs|] == rs
    decreases reqs
  {
    if reqs == [] then rs else Replay(Reserve(rs, cars, reqs[0]).1, cars, reqs[1..])
  }

  /**
   * After any sequence of `reserve` calls on an empty table, every booking
   * has `start <= end` and no two bookings of one car share a day.
   */
  lemma {:induction false} ReplayPreservesInvariant(rs: seq<Reservation>, cars: set<nat>, reqs: seq<Request>)
    requires Invariant(rs, cars)
    ensures Invariant(Replay(rs, cars, reqs), cars)
    decreases reqs
  {
    if reqs != [] {
      ReservePreservesInvariant(rs, cars, reqs[0]);
      ReplayPreservesInvariant(Reserve(rs, cars, reqs[0]).1, cars, reqs[1..]);
    }
  }

  /** Under the invariant, each day of each car is held by at most one booking. */
  lemma AtMostOneBookingPerDay(rs: seq<Reservation>, cars: set<nat>, carId: nat, day: int, i: nat, j: nat)
    requires Invariant(rs, cars)
    requires i < |rs| && j < |rs|
    requires Clashes(rs[i], carId, day, day) && Clashes(rs[j], carId, day, day)
    ensures i == j
  {
  }

  /** A booking that starts on the day another one of the same car ends is refused. */
  lemma SharedBoundaryDayConflicts(rs: seq<Reservation>, cars: set<nat>, i: nat, userId: nat, end: int)
    requires Invariant(rs, cars)
    requires i < |rs| && rs[i].end <= end
    ensures Reserve(rs, cars, Request(userId, rs[i].carId, Some(rs[i].end), Some(end))).0 == Conflict
  {
    assert Clashes(rs[i], rs[i].carId, rs[i].end, end);
  }

  /** Keeps the bookings of one car. */
  function ForCar(rs: seq<Reservation>, carId: nat): (out: seq<Reservation>)
    ensures forall r :: r in out <==> r in rs && r.carId == carId
  {
    if rs == [] then []
    else if rs[0].carId == carId then [rs[0]] + ForCar(rs[1..], carId)
    else ForCar(rs[1..], carId)
  }

  /** Bookings of other cars never decide a request: only `car_id == car.id` rows are looked at. */
  lemma OtherCarsNeverConflict(rs: seq<Reservation>, cars: set<nat>, req: Request)
    ensures Reserve(rs, cars, req).0 == Reserve(ForCar(rs, req.carId), cars, req).0
  {
    if req.start.Some? && req.end.Some? {
      var s, e, own := req.start.value, req.end.value, ForCar(rs, req.carId);
      if Booked(rs, req.carId, s, e) {
        var i :| 0 <= i < |rs| && Clashes(rs[i], req.carId, s, e);
        assert rs[i] in own;
      }
      if Booked(own, req.carId, s, e) {
        var i :| 0 <= i < |own| && Clashes(own[i], req.carId, s, e);
        assert own[i] in rs;
      }
    }
  }

  /** `reserve` is not idempotent: the same request right after a success conflicts with it. */
  lemma RepeatConflicts(rs: seq<Reservation>, cars: set<nat>, req: Request)
    requires Reserve(rs, cars, req).0 == Reserved
    ensures Reserve(Reserve(rs, cars, req).1, cars, req).0 == Conflict
  {
    var rs' := Reserve(rs, cars, req).1;
    assert Clashes(rs'[|rs|], req.carId, req.start.value, req.end.value);
  }

  /**
   * Car 1 is booked for days 1 to 5: a request for days 5 to 10 shares
   * day 5 and conflicts, one for days 6 to 10 is accepted.
   */
  lemma BoundaryScenario(userId: nat)
    ensures var rs := [Reservation(userId, 1, 1, 5)];
      && Reserve(rs, {1}, Request(userId, 1, Some(5), Some(10))).0 == Conflict
      && Reserve(rs, {1}, Request(userId, 1, Some(6), Some(10))).0 == Reserved
  {
    var rs := [Reservation(userId, 1, 1, 5)];
    assert Clashes(rs[0], 1, 5, 10);
  }
}
