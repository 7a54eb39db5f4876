/** The reservations controller of the back end: the middleware stages that
    validate a request, the order in which each route runs them, and the
    request-scoped `res.locals.reservation` they share.

    Each stage either calls next() with no argument (Next) or stops the
    request with an error (Stop). The persistence service is a map from
    reservation id to stored row; the clock is a parameter, one reading per
    stage that looks at it. */
module ReservationsController {
  import opened Wrappers
  import opened JsNumber
  import opened JsValues
  import Patterns
  import Calendar
  import JsDate

  /** Why a stage stopped the request: an error passed to next() with an
      HTTP status and a message, or an exception the stage threw. */
  datatype Failure = HttpError(status: nat, message: string) | Thrown(reason: string)

  /** What one middleware stage does. */
  datatype Verdict = Next | Stop(failure: Failure)

  /** A stored reservation row, as the service's read returns it. */
  type Row = map<string, Value>

  /** The record validForm and validUpdate leave in res.locals.reservation. */
  datatype Reservation = Reservation(
    first_name: Value,
    last_name: Value,
    mobile_number: Value,
    people: Num,
    reservation_date: string,
    reservation_time: string)

  /** The fields that must be truthy, in the order they are checked. */
  const RequiredFields: seq<string> :=
    ["first_name", "last_name", "mobile_number", "people", "reservation_date", "reservation_time"]

  /** The record as the object handed to the service. */
  function AsRow(r: Reservation): Row {
    map["first_name" := r.first_name, "last_name" := r.last_name, "mobile_number" := r.mobile_number,
        "people" := Number(r.people), "reservation_date" := Str(r.reservation_date),
        "reservation_time" := Str(r.reservation_time)]
  }

  function BadRequest(message: string): Failure {
    HttpError(400, message)
  }

  function MissingMessage(field: string): string {
    "Error: var " + field + " must exist"
  }

  function NotFoundMessage(id: string): string {
    "Reservation " + id + " cannot be found"
  }

  const DataMissing := "Data Missing!"
  const DateFormatMessage := "Error: var reservation_date must be in valid format"
  const TimeFormatMessage := "Error: var reservation_time must be in valid format"
  const PeopleNumberMessage := "Error: var people must be a number"
  const SeatedMessage := "Error: var status cannot be set to seated"
  const FinishedMessage := "Error: var status cannot be set to finished"
  const ClosedMessage := "Error: Restaurant is closed on Tuesdays"
  const FutureMessage := "Error: Reservations must be made for a future date and time"
  const HoursMessage := "Error: Reservation must be made for restaurant's operating hours"
  const FinishedUpdateMessage := "Error: Reservations with status finished cannot be updated"
  const UnknownStatusMessage := "Error: Cannot update a reservation with unknown status"

  // ---------------------------------------------------------------------------
  // Field checks: validForm and validUpdate

  /** The position of the first of `fields` whose value in data is falsy. */
  function FirstFalsy(data: Value, fields: seq<string>): (r: Option<nat>)
    requires !IsNullish(data)
    ensures r.None? <==> forall i | 0 <= i < |fields| :: Truthy(Prop(data, fields[i]))
    ensures r.Some? ==> r.value < |fields| && !Truthy(Prop(data, fields[r.value]))
    ensures r.Some? ==> forall j | 0 <= j < r.value :: Truthy(Prop(data, fields[j]))
  {
    if fields == [] then None
    else if !Truthy(Prop(data, fields[0])) then Some(0)
    else
      match FirstFalsy(data, fields[1..])
      case None => None
      case Some(i) => Some(i + 1)
  }

  /** A request body that every field check accepts: all six fields truthy,
      the date and the time strings containing their pattern, people a number. */
  predicate WellFormed(data: Value) {
    && Truthy(data)
    && (forall i | 0 <= i < |RequiredFields| :: Truthy(Prop(data, RequiredFields[i])))
    && Prop(data, "reservation_date").Str?
    && Patterns.Matches(Patterns.DatePattern, Prop(data, "reservation_date").s)
    && Prop(data, "reservation_time").Str?
    && Patterns.Matches(Patterns.TimePattern, Prop(data, "reservation_time").s)
    && Prop(data, "people").Number?
  }

  /** validUpdate on req.body.data: the checks in source order, each failing
      with its own message; a truthy date or time that is not a string has no
      match method, so the check throws. */
  function ValidUpdate(data: Value): (r: Result<Reservation, Failure>)
    ensures !Truthy(data) <==> r == Err(BadRequest(DataMissing))
    ensures Truthy(data) && FirstFalsy(data, RequiredFields).Some? ==>
              r == Err(BadRequest(MissingMessage(RequiredFields[FirstFalsy(data, RequiredFields).value])))
    ensures r.Ok? <==> WellFormed(data)
    ensures r.Ok? ==> forall f | f in RequiredFields :: AsRow(r.value)[f] == Prop(data, f)
    ensures r.Err? && r.error.Thrown? ==>
              FirstFalsy(data, RequiredFields).None? &&
              (!Prop(data, "reservation_date").Str? || !Prop(data, "reservation_time").Str?)
    // Once every field is present: the date is tested before the time, and
    // each test before the type of people.
    ensures Truthy(data) && FirstFalsy(data, RequiredFields).None? && !Prop(data, "reservation_date").Str? ==>
              r.Err? && r.error.Thrown?
    ensures Truthy(data) && FirstFalsy(data, RequiredFields).None? && Prop(data, "reservation_date").Str? &&
            !Patterns.Matches(Patterns.DatePattern, Prop(data, "reservation_date").s) ==>
              r == Err(BadRequest(DateFormatMessage))
    ensures Truthy(data) && FirstFalsy(data, RequiredFields).None? && Prop(data, "reservation_date").Str? &&
            Patterns.Matches(Patterns.DatePattern, Prop(data, "reservation_date").s) &&
            !Prop(data, "reservation_time").Str? ==>
              r.Err? && r.error.Thrown?
    ensures Truthy(data) && FirstFalsy(data, RequiredFields).None? && Prop(data, "reservation_date").Str? &&
            Patterns.Matches(Patterns.DatePattern, Prop(data, "reservation_date").s) &&
            Prop(data, "reservation_time").Str? &&
            !Patterns.Matches(Patterns.TimePattern, Prop(data, "reservation_time").s) ==>
              r == Err(BadRequest(TimeFormatMessage))
    ensures Truthy(data) && FirstFalsy(data, RequiredFields).None? && Prop(data, "reservation_date").Str? &&
            Patterns.Matches(Patterns.DatePattern, Prop(data, "reservation_date").s) &&
            Prop(data, "reservation_time").Str? &&
            Patterns.Matches(Patterns.TimePattern, Prop(data, "reservation_time").s) &&
            !Prop(data, "people").Number? ==>
              r == Err(BadRequest(PeopleNumberMessage))
  {
    if !Truthy(data) then Err(BadRequest(DataMissing))
    else
      FirstFalsyOfRequired(data);
      var first_name := Prop(data, "first_name");
      var last_name := Prop(data, "last_name");
      var mobile_number := Prop(data, "mobile_number");
      var people := Prop(data, "people");
      var reservation_date := Prop(data, "reservation_date");
      var reservation_time := Prop(data, "reservation_time");
      if !Truthy(first_name) then Err(BadRequest(MissingMessage("first_name")))
      else if !Truthy(last_name) then Err(BadRequest(MissingMessage("last_name")))
      else if !Truthy(mobile_number) then Err(BadRequest(MissingMessage("mobile_number")))
      else if !Truthy(people) then Err(BadRequest(MissingMessage("people")))
      else if !Truthy(reservation_date) then Err(BadRequest(MissingMessage("reservation_date")))
      else if !Truthy(reservation_time) then Err(BadRequest(MissingMessage("reservation_time")))
      else if !reservation_date.Str? then Err(Thrown("reservation_date.match is not a function"))
      else if !Patterns.Matches(Patterns.DatePattern, reservation_date.s) then Err(BadRequest(DateFormatMessage))
      else if !reservation_time.Str? then Err(Thrown("reservation_time.match is not a function"))
      else if !Patterns.Matches(Patterns.TimePattern, reservation_time.s) then Err(BadRequest(TimeFormatMessage))
      else if !people.Number? then Err(BadRequest(PeopleNumberMessage))
      else Ok(Reservation(first_name, last_name, mobile_number, people.n, reservation_date.s, reservation_time.s))
  }

  /** A well-formed body is accepted with its six required fields as the record. */
  lemma ValidUpdateOfWellFormed(data: Value)
    requires WellFormed(data)
    ensures ValidUpdate(data) == Ok(Reservation(Prop(data, "first_name"), Prop(data, "last_name"),
      Prop(data, "mobile_number"), Prop(data, "people").n, Prop(data, "reservation_date").s,
      Prop(data, "reservation_time").s))
  {
    var f := RequiredFields;
    assert f[0] == "first_name" && f[1] == "last_name" && f[2] == "mobile_number";
    assert f[3] == "people" && f[4] == "reservation_date" && f[5] == "reservation_time";
  }

  /** FirstFalsy over the six required fields, in the order validUpdate tests them. */
  lemma FirstFalsyOfRequired(data: Value)
    requires !IsNullish(data)
    ensures FirstFalsy(data, RequiredFields) ==
      if !Truthy(Prop(data, "first_name")) then Some(0)
      else if !Truthy(Prop(data, "last_name")) then Some(1)
      else if !Truthy(Prop(data, "mobile_number")) then Some(2)
      else if !Truthy(Prop(data, "people")) then Some(3)
      else if !Truthy(Prop(data, "reservation_date")) then Some(4)
      else if !Truthy(Prop(data, "reservation_time")) then Some(5)
      else None
  {
    var f := RequiredFields;
    assert f[0] == "first_name" && f[1] == "last_name" && f[2] == "mobile_number";
    assert f[3] == "people" && f[4] == "reservation_date" && f[5] == "reservation_time";
  }

  /** validForm: the checks of validUpdate, then the refusal to create a
      reservation already seated or finished. */
  function ValidForm(data: Value): (r: Result<Reservation, Failure>)
    ensures ValidUpdate(data).Err? ==> r == ValidUpdate(data)
    ensures ValidUpdate(data).Ok? ==>
              r == if Prop(data, "status") == Str("seated") then Err(BadRequest(SeatedMessage))
                   else if Prop(data, "status") == Str("finished") then Err(BadRequest(FinishedMessage))
                   else ValidUpdate(data)
  {
    if !Truthy(data) then Err(BadRequest(DataMissing))
    else
      match ValidUpdate(data)
      case Err(e) => Err(e)
      case Ok(r) =>
        var status := Prop(data, "status");
        if status == Str("seated") then Err(BadRequest(SeatedMessage))
        else if status == Str("finished") then Err(BadRequest(FinishedMessage))
        else Ok(r)
  }

  // ---------------------------------------------------------------------------
  // Date and time policy: validDate and validTime

  /** validDate: Tuesdays are refused first, then a date before now, unless it
      falls on the same UTC day as now. `otherwise` is the engine's parse of a
      date string that is not of the form YYYY-MM-DD. */
  function ValidDate(r: Reservation, now: int, otherwise: Option<int>): (v: Verdict)
    ensures v.Stop? ==> v.failure == BadRequest(ClosedMessage) || v.failure == BadRequest(FutureMessage)
    ensures JsDate.UtcWeekDay(JsDate.ParseDate(r.reservation_date, otherwise)) == Some(2) ==>
              v == Stop(BadRequest(ClosedMessage))
    ensures JsDate.UtcPrefix(JsDate.ParseDate(r.reservation_date, otherwise)) == JsDate.UtcPrefix(Some(now)) ==>
              v != Stop(BadRequest(FutureMessage))
  {
    var date := JsDate.ParseDate(r.reservation_date, otherwise);
    if JsDate.UtcWeekDay(date) == Some(2) then Stop(BadRequest(ClosedMessage))
    else if date.Some? && date.value < now && JsDate.UtcPrefix(date) != JsDate.UtcPrefix(Some(now)) then
      Stop(BadRequest(FutureMessage))
    else Next
  }

  /** The hour and the minutes validTime reads: Number(time[0] + time[1]) and
      Number(time[3] + time[4]). */
  function HourOf(time: string): Num {
    ToNumberValue(Plus(CharAt(time, 0), CharAt(time, 1)))
  }

  function MinutesOf(time: string): Num {
    ToNumberValue(Plus(CharAt(time, 3), CharAt(time, 4)))
  }

  /** The two operating-hours tests of validTime (before 10:30, after 21:30). */
  predicate TooEarly(hour: Num, minutes: Num) {
    Less(hour, FromInt(10)) || (LessEq(hour, FromInt(10)) && Less(minutes, FromInt(30)))
  }

  predicate TooLate(hour: Num, minutes: Num) {
    Less(FromInt(21), hour) || (LessEq(FromInt(21), hour) && Less(FromInt(30), minutes))
  }

  /** validTime: a time of day earlier than the client's current_time on the
      current UTC day is refused, then a time outside the opening hours. */
  function ValidTime(r: Reservation, currentTime: Value, now: int, otherwise: Option<int>): (v: Verdict)
    ensures v.Stop? ==> v.failure == BadRequest(FutureMessage) || v.failure == BadRequest(HoursMessage)
  {
    var time := r.reservation_time;
    var hour := HourOf(time);
    var minutes := MinutesOf(time);
    var date := JsDate.ParseDate(r.reservation_date, otherwise);
    if GreaterThan(currentTime, time) && JsDate.UtcPrefix(date) == JsDate.UtcPrefix(Some(now)) then
      Stop(BadRequest(FutureMessage))
    else if TooEarly(hour, minutes) then Stop(BadRequest(HoursMessage))
    else if TooLate(hour, minutes) then Stop(BadRequest(HoursMessage))
    else Next
  }

  // ---------------------------------------------------------------------------
  // Existence and status: reservationExists and validStatusUpdate

  /** reservationExists: the stored row, or 404 naming the id. */
  function ReservationExists(id: string, db: map<string, Row>): (r: Result<Row, Failure>)
    ensures r.Ok? <==> id in db
    ensures r.Ok? ==> r.value == db[id]
    ensures r.Err? ==> r.error.HttpError? && r.error.status == 404 && r.error.message == NotFoundMessage(id)
  {
    if id in db then Ok(db[id]) else Err(HttpError(404, NotFoundMessage(id)))
  }

  /** The statuses a status update may ask for. */
  const KnownStatuses: set<Value> := {Str("booked"), Str("seated"), Str("finished"), Str("cancelled")}

  /** validStatusUpdate: reading `status` from a missing body throws; a
      finished reservation accepts no status; cancelled is always accepted,
      otherwise only booked, seated and finished are. */
  function ValidStatusUpdate(row: Row, data: Value): (v: Verdict)
    ensures v == Next <==>
              !IsNullish(data) && Lookup(row, "status") != Str("finished") && Prop(data, "status") in KnownStatuses
    ensures v.Stop? && v.failure.Thrown? <==> IsNullish(data)
    ensures !IsNullish(data) && Lookup(row, "status") == Str("finished") ==>
              v == Stop(BadRequest(FinishedUpdateMessage))
    ensures !IsNullish(data) && Lookup(row, "status") != Str("finished") && Prop(data, "status") !in KnownStatuses ==>
              v == Stop(BadRequest(UnknownStatusMessage))
  {
    var currentStatus := Lookup(row, "status");
    if IsNullish(data) then Stop(Thrown("Cannot destructure property 'status' of req.body.data"))
    else
      var status := Prop(data, "status");
      if currentStatus == Str("finished") then Stop(BadRequest(FinishedUpdateMessage))
      else if status == Str("cancelled") then Next
      else if status != Str("booked") && status != Str("seated") && status != Str("finished") then
        Stop(BadRequest(UnknownStatusMessage))
      else Next
  }

  // ---------------------------------------------------------------------------
  // The list handler

  /** What list does: query the service by date, by phone number, or send nothing. */
  datatype ListAction = ByDate(date: Value) | ByMobile(mobile_number: Value) | NoResponse

  function List(query: map<string, Value>): (a: ListAction)
    ensures a.ByDate? <==> Truthy(Lookup(query, "date"))
    ensures a.ByMobile? <==> !Truthy(Lookup(query, "date")) && Truthy(Lookup(query, "mobile_number"))
    ensures a.ByDate? ==> a.date == Lookup(query, "date")
    ensures a.ByMobile? ==> a.mobile_number == Lookup(query, "mobile_number")
  {
    var date := Lookup(query, "date");
    var mobile_number := Lookup(query, "mobile_number");
    if Truthy(date) then ByDate(date)
    else if Truthy(mobile_number) then ByMobile(mobile_number)
    else NoResponse
  }

  // ---------------------------------------------------------------------------
  // The routes, each an ordered list of stages ending in a handler

  /** The service call a route's handler makes once every stage has passed. */
  datatype HandlerCall =
    | CallCreate(record: Reservation)
    | CallRead(row: Row)
    | CallUpdate(id: string, record: Reservation)
    | CallUpdateStatus(id: string, status: Value)

  datatype Outcome = Handled(call: HandlerCall) | Failed(failure: Failure)

  /** The clock as validDate and validTime each read it. */
  datatype Clock = Clock(atValidDate: int, atValidTime: int)

  /** The date and time stages, which create and update share. */
  function DateAndTime(data: Value, r: Reservation, clock: Clock, otherwise: Option<int>): (v: Verdict)
    requires !IsNullish(data)
    ensures v == Next <==>
              ValidDate(r, clock.atValidDate, otherwise) == Next &&
              ValidTime(r, Prop(data, "current_time"), clock.atValidTime, otherwise) == Next
    ensures ValidDate(r, clock.atValidDate, otherwise).Stop? ==> v == ValidDate(r, clock.atValidDate, otherwise)
    ensures ValidDate(r, clock.atValidDate, otherwise) == Next ==>
              v == ValidTime(r, Prop(data, "current_time"), clock.atValidTime, otherwise)
  {
    match ValidDate(r, clock.atValidDate, otherwise)
    case Stop(e) => Stop(e)
    case Next => ValidTime(r, Prop(data, "current_time"), clock.atValidTime, otherwise)
  }

  /** create: validForm, validDate, validTime, then the create handler. */
  function CreateChain(data: Value, clock: Clock, otherwise: Option<int>): (o: Outcome)
    ensures ValidForm(data).Err? ==> o == Failed(ValidForm(data).error)
    ensures ValidForm(data).Ok? && DateAndTime(data, ValidForm(data).value, clock, otherwise).Stop? ==>
              o == Failed(DateAndTime(data, ValidForm(data).value, clock, otherwise).failure)
    ensures o.Handled? <==>
              ValidForm(data).Ok? && WellFormed(data) &&
              DateAndTime(data, ValidForm(data).value, clock, otherwise) == Next
    ensures o.Handled? ==> o.call == CallCreate(ValidForm(data).value)
  {
    match ValidForm(data)
    case Err(e) => Failed(e)
    case Ok(r) =>
      match DateAndTime(data, r, clock, otherwise)
      case Stop(e) => Failed(e)
      case Next => Handled(CallCreate(r))
  }

  /** read: reservationExists, then the read handler. */
  function ReadChain(id: string, db: map<string, Row>): (o: Outcome)
    ensures o.Handled? <==> id in db
    ensures o.Handled? ==> o.call == CallRead(db[id])
    ensures id !in db ==> o == Failed(HttpError(404, NotFoundMessage(id)))
  {
    match ReservationExists(id, db)
    case Err(e) => Failed(e)
    case Ok(row) => Handled(CallRead(row))
  }

  /** updateStatus: reservationExists, validStatusUpdate, then the handler,
      which passes req.body.data.status to the service. */
  function UpdateStatusChain(id: string, data: Value, db: map<string, Row>): (o: Outcome)
    ensures id !in db ==> o == Failed(HttpError(404, NotFoundMessage(id)))
    ensures id in db && ValidStatusUpdate(db[id], data).Stop? ==> o == Failed(ValidStatusUpdate(db[id], data).failure)
    ensures o.Handled? <==> id in db && ValidStatusUpdate(db[id], data) == Next
    ensures o.Handled? ==> !IsNullish(data) && o.call == CallUpdateStatus(id, Prop(data, "status"))
  {
    match ReservationExists(id, db)
    case Err(e) => Failed(e)
    case Ok(row) =>
      match ValidStatusUpdate(row, data)
      case Stop(e) => Failed(e)
      case Next => Handled(CallUpdateStatus(id, Prop(data, "status")))
  }

  /** update: reservationExists, validUpdate, validDate, validTime, then the handler. */
  function UpdateChain(id: string, data: Value, db: map<string, Row>, clock: Clock, otherwise: Option<int>): (o: Outcome)
    ensures id !in db ==> o == Failed(HttpError(404, NotFoundMessage(id)))
    ensures id in db && ValidUpdate(data).Err? ==> o == Failed(ValidUpdate(data).error)
    ensures id in db && ValidUpdate(data).Ok? && DateAndTime(data, ValidUpdate(data).value, clock, otherwise).Stop? ==>
              o == Failed(DateAndTime(data, ValidUpdate(data).value, clock, otherwise).failure)
    ensures o.Handled? <==>
              id in db && WellFormed(data) && DateAndTime(data, ValidUpdate(data).value, clock, otherwise) == Next
    ensures o.Handled? ==> o.call == CallUpdate(id, ValidUpdate(data).value)
  {
    match ReservationExists(id, db)
    case Err(e) => Failed(e)
    case Ok(_) =>
      match ValidUpdate(data)
      case Err(e) => Failed(e)
      case Ok(r) =>
        match DateAndTime(data, r, clock, otherwise)
        case Stop(e) => Failed(e)
        case Next => Handled(CallUpdate(id, r))
  }

  // ---------------------------------------------------------------------------
  // Properties of the stages and routes

  /** people: 0 is reported as missing, not as out of range: 0 is falsy. */
  lemma ZeroPeopleIsMissing(data: Value)
    requires !IsNullish(data) && Truthy(data)
    requires Truthy(Prop(data, "first_name")) && Truthy(Prop(data, "last_name")) && Truthy(Prop(data, "mobile_number"))
    requires Prop(data, "people") == Number(FromInt(0))
    ensures ValidUpdate(data) == Err(BadRequest("Error: var people must exist"))
    ensures ValidForm(data) == ValidUpdate(data)
  {
    assert FirstFalsy(data, RequiredFields) == Some(3) by {
      assert !Truthy(Prop(data, "people"));
      FirstFalsyOfRequired(data);
    }
    PeopleMissingText();
  }

  lemma PeopleMissingText()
    ensures MissingMessage(RequiredFields[3]) == "Error: var people must exist"
  {
    assert RequiredFields[3] == "people";
  }

  /** people given as the string "2" passes the presence check and fails the type check. */
  lemma StringPeopleIsNotANumber(data: Value)
    requires !IsNullish(data) && Truthy(data)
    requires forall i | 0 <= i < |RequiredFields| :: Truthy(Prop(data, RequiredFields[i]))
    requires Prop(data, "people") == Str("2")
    requires Prop(data, "reservation_date").Str? && Patterns.Matches(Patterns.DatePattern, Prop(data, "reservation_date").s)
    requires Prop(data, "reservation_time").Str? && Patterns.Matches(Patterns.TimePattern, Prop(data, "reservation_time").s)
    ensures ValidUpdate(data) == Err(BadRequest(PeopleNumberMessage))
  {
    FirstFalsyOfRequired(data);
  }

  /** The clock reading HHMM of a time starting with HH:MM. */
  function ClockValue(time: string): nat
    requires Patterns.MatchAt(Patterns.TimePattern, time, 0)
  {
    100 * DigitsValue(time[..2]) + DigitsValue(time[3..5])
  }

  /** The hour and minutes validTime reads from a time of the form HH:MM... */
  lemma HourAndMinutes(time: string)
    requires Patterns.MatchAt(Patterns.TimePattern, time, 0)
    ensures |time| >= 5 && AllDigits(time[..2]) && AllDigits(time[3..5])
    ensures HourOf(time) == FromInt(DigitsValue(time[..2]))
    ensures MinutesOf(time) == FromInt(DigitsValue(time[3..5]))
  {
    TwoDigitNumber(time, 0);
    TwoDigitNumber(time, 3);
    assert time[0..2] == time[..2];
  }

  /** The operating-hours tests on whole numbers, with at most two digits of minutes. */
  lemma HoursOnIntegers(h: int, m: int)
    requires 0 <= m < 100
    ensures TooEarly(FromInt(h), FromInt(m)) || TooLate(FromInt(h), FromInt(m))
            <==> !(1030 <= 100 * h + m <= 2130)
  {
    var hour, minutes := FromInt(h), FromInt(m);
    var ten, twentyOne, thirty := FromInt(10), FromInt(21), FromInt(30);
    var hourBelowTen := Less(hour, ten);
    var tenBelowHour := Less(ten, hour);
    var minutesBelowThirty := Less(minutes, thirty);
    var twentyOneBelowHour := Less(twentyOne, hour);
    var hourBelowTwentyOne := Less(hour, twentyOne);
    var thirtyBelowMinutes := Less(thirty, minutes);
    assert hourBelowTen == (h < 10) by { FromIntCompare(h, 10); }
    assert tenBelowHour == (10 < h) by { FromIntCompare(10, h); }
    assert minutesBelowThirty == (m < 30) by { FromIntCompare(m, 30); }
    assert twentyOneBelowHour == (21 < h) by { FromIntCompare(21, h); }
    assert hourBelowTwentyOne == (h < 21) by { FromIntCompare(h, 21); }
    assert thirtyBelowMinutes == (30 < m) by { FromIntCompare(30, m); }
    assert TooEarly(hour, minutes) == (hourBelowTen || (!tenBelowHour && minutesBelowThirty));
    assert TooLate(hour, minutes) == (twentyOneBelowHour || (!hourBelowTwentyOne && thirtyBelowMinutes));
  }

  /** The operating-hours tests refuse exactly the times outside 10:30..21:30,
      both ends included. */
  lemma OperatingHours(time: string)
    requires Patterns.MatchAt(Patterns.TimePattern, time, 0)
    ensures TooEarly(HourOf(time), MinutesOf(time)) || TooLate(HourOf(time), MinutesOf(time))
            <==> !(1030 <= ClockValue(time) <= 2130)
  {
    var h := DigitsValue(time[..2]);
    var m := DigitsValue(time[3..5]);
    assert HourOf(time) == FromInt(h) && MinutesOf(time) == FromInt(m) by { HourAndMinutes(time); }
    assert m < 100 by {
      DigitsValueBound(time[3..5]);
      assert Pow10(2) == 100;
    }
    HoursOnIntegers(h, m);
  }

  /** validTime on a time of the form HH:MM...: the same-day past-time test,
      then the opening hours 10:30..21:30. */
  lemma ValidTimePolicy(r: Reservation, currentTime: Value, now: int, otherwise: Option<int>)
    requires Patterns.MatchAt(Patterns.TimePattern, r.reservation_time, 0)
    ensures ValidTime(r, currentTime, now, otherwise) ==
      if GreaterThan(currentTime, r.reservation_time)
         && JsDate.UtcPrefix(JsDate.ParseDate(r.reservation_date, otherwise)) == JsDate.UtcPrefix(Some(now))
      then Stop(BadRequest(FutureMessage))
      else if !(1030 <= ClockValue(r.reservation_time) <= 2130) then Stop(BadRequest(HoursMessage))
      else Next
  {
    OperatingHours(r.reservation_time);
  }

  /** The hour and the minutes are Number of two two-character slices. */
  lemma HourText(t: string)
    requires |t| >= 2
    ensures HourOf(t) == ToNumberValue(Str(t[0..2]))
  {
    var hh := Plus(CharAt(t, 0), CharAt(t, 1));
    assert hh == Str(t[0..2]) by { TwoCharacters(t, 0); }
  }

  lemma MinutesText(t: string)
    requires |t| >= 5
    ensures MinutesOf(t) == ToNumberValue(Str(t[3..5]))
  {
    var mm := Plus(CharAt(t, 3), CharAt(t, 4));
    assert mm == Str(t[3..5]) by { TwoCharacters(t, 3); }
  }

  lemma HourNaN(t: string)
    requires |t| >= 2 && 'a' <= t[0] <= 'z' && IsDigit(t[1])
    ensures HourOf(t) == NaN
  {
    var hh := t[0..2];
    HourText(t);
    ToNumberOfStr(hh);
    LetterFirstNaN(hh);
  }

  /** Two characters, a letter then a digit, convert to NaN. */
  lemma LetterFirstNaN(hh: string)
    requires |hh| == 2 && 'a' <= hh[0] <= 'z' && IsDigit(hh[1])
    ensures ToNumber(hh) == NaN
  {
    assert !IsWhiteSpace(hh[0]) && !IsWhiteSpace(hh[1]);
    NonNumericStart(hh);
  }

  lemma MinutesNaN(t: string)
    requires |t| >= 5 && t[3] == ':'
    ensures MinutesOf(t) == NaN
  {
    var mm := t[3..5];
    assert MinutesOf(t) == ToNumber(mm) by {
      MinutesText(t);
      ToNumberOfStr(mm);
    }
    assert ToNumber(mm) == NaN by {
      assert mm[0] == ':';
      ColonToNumber(mm);
    }
  }

  /** The hour is read from the first two characters only, so a time whose
      HH:MM does not start the string converts to NaN, and every comparison
      with NaN is false: a letter followed by any HH:MM, "a05:00" say, passes
      the format check and the opening hours. */
  lemma NaNHourPassesHours(r: Reservation, now: int, otherwise: Option<int>)
    requires Patterns.MatchAt(Patterns.TimePattern, r.reservation_time, 1) && 'a' <= r.reservation_time[0] <= 'z'
    ensures Patterns.Matches(Patterns.TimePattern, r.reservation_time)
    ensures HourOf(r.reservation_time) == NaN
    ensures ValidTime(r, Undefined, now, otherwise) == Next
  {
    var t := r.reservation_time;
    assert |t| >= 6 && IsDigit(t[1]) && t[3] == ':';
    HourNaN(t);
    MinutesNaN(t);
    GreaterThanColon(Undefined, t);
    NaNTimePasses(r, now, otherwise);
  }

  /** With both fields NaN and the clock test false, validTime lets the time through. */
  lemma NaNTimePasses(r: Reservation, now: int, otherwise: Option<int>)
    requires HourOf(r.reservation_time) == NaN && MinutesOf(r.reservation_time) == NaN
    requires !GreaterThan(Undefined, r.reservation_time)
    ensures ValidTime(r, Undefined, now, otherwise) == Next
  {
    assert !TooEarly(NaN, NaN) && !TooLate(NaN, NaN);
  }

  /** On a date of the form YYYY-MM-DD, validDate refuses a Tuesday, and
      otherwise a date before now's UTC day; today and later days pass. */
  lemma ValidDatePolicy(r: Reservation, now: int, otherwise: Option<int>)
    requires JsDate.IsIsoDate(r.reservation_date)
    requires 0 <= Calendar.FromDayNumber(JsDate.Day(now)).year <= 9999
    ensures ValidDate(r, now, otherwise) ==
      var day := Calendar.DayOf(JsDate.IsoFields(r.reservation_date));
      if Calendar.WeekDay(day) == 2 then Stop(BadRequest(ClosedMessage))
      else if day < JsDate.Day(now) then Stop(BadRequest(FutureMessage))
      else Next
  {
    var c := JsDate.IsoFields(r.reservation_date);
    var day := Calendar.DayOf(c);
    DigitsValueBound(r.reservation_date[..4]);
    assert Pow10(4) == 10000;
    Calendar.FromDayNumberOfDate(c);
    assert JsDate.Day(day * JsDate.MsPerDay) == day;
    JsDate.EarlierUtcDay(day, now);
  }

  /** On a date of the form YYYY-MM-DD, validTime's past-time test applies
      exactly on now's UTC day. */
  lemma SameDayTest(r: Reservation, now: int, otherwise: Option<int>)
    requires JsDate.IsIsoDate(r.reservation_date)
    requires 0 <= Calendar.FromDayNumber(JsDate.Day(now)).year <= 9999
    ensures JsDate.UtcPrefix(JsDate.ParseDate(r.reservation_date, otherwise)) == JsDate.UtcPrefix(Some(now))
            <==> Calendar.DayOf(JsDate.IsoFields(r.reservation_date)) == JsDate.Day(now)
  {
    var c := JsDate.IsoFields(r.reservation_date);
    var day := Calendar.DayOf(c);
    DigitsValueBound(r.reservation_date[..4]);
    assert Pow10(4) == 10000;
    Calendar.FromDayNumberOfDate(c);
    assert JsDate.Day(day * JsDate.MsPerDay) == day;
    JsDate.UtcPrefixNamesDay(day * JsDate.MsPerDay, now);
  }

  /** The 404 message names the id: different ids give different messages. */
  lemma NotFoundNamesId(a: string, b: string)
    requires NotFoundMessage(a) == NotFoundMessage(b)
    ensures a == b
  {
    var p := "Reservation ";
    var q := " cannot be found";
    assert NotFoundMessage(a) == p + a + q && NotFoundMessage(b) == p + b + q;
    assert |a| == |b|;
    assert a == NotFoundMessage(a)[|p|..|p| + |a|];
    assert b == NotFoundMessage(b)[|p|..|p| + |b|];
  }

  /** An unknown id stops read, update and updateStatus with 404 before the
      body is looked at. */
  lemma UnknownIdIsNotFound(id: string, data: Value, db: map<string, Row>, clock: Clock, otherwise: Option<int>)
    requires id !in db
    ensures ReadChain(id, db) == Failed(HttpError(404, NotFoundMessage(id)))
    ensures UpdateChain(id, data, db, clock, otherwise) == Failed(HttpError(404, NotFoundMessage(id)))
    ensures UpdateStatusChain(id, data, db) == Failed(HttpError(404, NotFoundMessage(id)))
  {
  }

  /** The update route never looks at the stored row beyond its existence:
      a finished reservation is edited like any other. */
  lemma UpdateIgnoresStoredRow(id: string, data: Value, db1: map<string, Row>, db2: map<string, Row>,
                               clock: Clock, otherwise: Option<int>)
    requires id in db1 && id in db2
    ensures UpdateChain(id, data, db1, clock, otherwise) == UpdateChain(id, data, db2, clock, otherwise)
  {
  }

  /** For an existing id and a body whose status is neither seated nor
      finished, update and create decide alike: the same failure, or the same record. */
  lemma UpdateAgreesWithCreate(id: string, data: Value, db: map<string, Row>, clock: Clock, otherwise: Option<int>)
    requires id in db
    requires !IsNullish(data) ==> Prop(data, "status") != Str("seated") && Prop(data, "status") != Str("finished")
    ensures CreateChain(data, clock, otherwise).Failed? <==> UpdateChain(id, data, db, clock, otherwise).Failed?
    ensures CreateChain(data, clock, otherwise).Failed? ==>
              CreateChain(data, clock, otherwise) == UpdateChain(id, data, db, clock, otherwise)
    ensures CreateChain(data, clock, otherwise).Handled? ==>
              UpdateChain(id, data, db, clock, otherwise) == Handled(CallUpdate(id, CreateChain(data, clock, otherwise).call.record))
  {
    assert ValidForm(data) == ValidUpdate(data);
  }

  /** What a create that reaches the handler guarantees: the record is the
      body's six fields, the body did not ask for seated or finished, and on a
      YYYY-MM-DD date and an HH:MM time the reservation is not on a Tuesday,
      not before the UTC day validDate saw, and within 10:30..21:30. */
  lemma CreateAccepted(data: Value, clock: Clock, otherwise: Option<int>)
    requires CreateChain(data, clock, otherwise).Handled?
    ensures !IsNullish(data) && WellFormed(data)
    ensures Prop(data, "status") != Str("seated") && Prop(data, "status") != Str("finished")
    ensures var r := CreateChain(data, clock, otherwise).call.record;
            && (forall f | f in RequiredFields :: AsRow(r)[f] == Prop(data, f))
            && (JsDate.IsIsoDate(r.reservation_date) && 0 <= Calendar.FromDayNumber(JsDate.Day(clock.atValidDate)).year <= 9999 ==>
                  var day := Calendar.DayOf(JsDate.IsoFields(r.reservation_date));
                  Calendar.WeekDay(day) != 2 && day >= JsDate.Day(clock.atValidDate))
            && (Patterns.MatchAt(Patterns.TimePattern, r.reservation_time, 0) ==>
                  1030 <= ClockValue(r.reservation_time) <= 2130)
  {
    var r := ValidForm(data).value;
    if JsDate.IsIsoDate(r.reservation_date) && 0 <= Calendar.FromDayNumber(JsDate.Day(clock.atValidDate)).year <= 9999 {
      ValidDatePolicy(r, clock.atValidDate, otherwise);
    }
    if Patterns.MatchAt(Patterns.TimePattern, r.reservation_time, 0) {
      ValidTimePolicy(r, Prop(data, "current_time"), clock.atValidTime, otherwise);
    }
  }

  /** A status update never succeeds on a finished reservation, and always
      succeeds for cancelled on one that is not finished. */
  lemma StatusUpdateRules(id: string, data: Value, db: map<string, Row>)
    requires id in db && !IsNullish(data)
    ensures Lookup(db[id], "status") == Str("finished") ==>
              UpdateStatusChain(id, data, db) == Failed(BadRequest(FinishedUpdateMessage))
    ensures Lookup(db[id], "status") != Str("finished") && Prop(data, "status") == Str("cancelled") ==>
              UpdateStatusChain(id, data, db) == Handled(CallUpdateStatus(id, Str("cancelled")))
    ensures UpdateStatusChain(id, data, db).Handled? ==> Prop(data, "status") in KnownStatuses
  {
  }

  /** The body of the example booking below. */
  function ExampleBody(): Value {
    Obj(map["first_name" := Str("Ada"), "last_name" := Str("Lovelace"),
            "mobile_number" := Str("555-0100"), "people" := Number(FromInt(2)),
            "reservation_date" := Str("2024-06-10"), "reservation_time" := Str("18:00")])
  }

  function ExampleRecord(): Reservation {
    Reservation(Str("Ada"), Str("Lovelace"), Str("555-0100"), FromInt(2), "2024-06-10", "18:00")
  }

  lemma ExampleProps()
    ensures var data := ExampleBody();
      && Prop(data, "first_name") == Str("Ada")
      && Prop(data, "last_name") == Str("Lovelace")
      && Prop(data, "mobile_number") == Str("555-0100")
      && Prop(data, "people") == Number(FromInt(2))
      && Prop(data, "reservation_date") == Str("2024-06-10")
      && Prop(data, "reservation_time") == Str("18:00")
      && Prop(data, "status") == Undefined
      && Prop(data, "current_time") == Undefined
  {
  }

  lemma ExampleWellFormed()
    ensures WellFormed(ExampleBody())
  {
    var data := ExampleBody();
    ExampleProps();
    assert Patterns.MatchAt(Patterns.DatePattern, "2024-06-10", 0);
    assert Patterns.MatchAt(Patterns.TimePattern, "18:00", 0);
    assert forall i | 0 <= i < |RequiredFields| :: Truthy(Prop(data, RequiredFields[i]));
  }

  lemma ExampleFields()
    ensures ValidForm(ExampleBody()) == Ok(ExampleRecord())
    ensures Prop(ExampleBody(), "current_time") == Undefined
  {
    var data := ExampleBody();
    ExampleProps();
    ExampleWellFormed();
    ValidUpdateOfWellFormed(data);
  }

  lemma ExampleDigits()
    ensures AllDigits("2024") && DigitsValue("2024") == 2024
    ensures AllDigits("06") && DigitsValue("06") == 6
    ensures AllDigits("10") && DigitsValue("10") == 10
    ensures AllDigits("18") && DigitsValue("18") == 18
    ensures AllDigits("00") && DigitsValue("00") == 0
  {
    assert "2024"[..3] == "202" && "202"[..2] == "20" && "20"[..1] == "2" && "2"[..0] == "";
    assert "06"[..1] == "0" && "10"[..1] == "1" && "18"[..1] == "1" && "00"[..1] == "0";
    assert "0"[..0] == "" && "1"[..0] == "";
  }

  lemma ExampleDate()
    ensures JsDate.IsIsoDate("2024-06-10")
    ensures JsDate.IsoFields("2024-06-10") == Calendar.Date(2024, 6, 10)
    ensures Calendar.DayOf(Calendar.Date(2024, 6, 10)) == 19884
  {
    ExampleIsoDate("2024-06-10");
    ExampleDayNumber();
  }

  lemma ExampleIsoDate(date: string)
    requires date == "2024-06-10"
    ensures JsDate.IsIsoDate(date) && JsDate.IsoFields(date) == Calendar.Date(2024, 6, 10)
  {
    assert Patterns.MatchAt(Patterns.DatePattern, date, 0);
    assert date[..4] == "2024" && date[5..7] == "06" && date[8..10] == "10";
    ExampleDigits();
  }

  lemma ExampleDayNumber()
    ensures Calendar.DayOf(Calendar.Date(2024, 6, 10)) == 19884
  {
    Calendar.DayFromYearClosedForm(2024);
  }

  lemma ExampleClock(now: int)
    requires now == 19875 * JsDate.MsPerDay + 43200000
    ensures JsDate.Day(now) == 19875
    ensures Calendar.FromDayNumber(JsDate.Day(now)).year == 2024
  {
    Calendar.DayFromYearClosedForm(2024);
    assert Calendar.DayOf(Calendar.Date(2024, 6, 1)) == 19875;
    Calendar.FromDayNumberOfDate(Calendar.Date(2024, 6, 1));
  }

  lemma ExampleTime()
    ensures Patterns.MatchAt(Patterns.TimePattern, "18:00", 0)
    ensures ClockValue("18:00") == 1800
    ensures !GreaterThan(Undefined, "18:00")
  {
    var time := "18:00";
    assert time[..2] == "18" && time[3..5] == "00";
    ExampleDigits();
    assert time[2] == ':';
    GreaterThanColon(Undefined, time);
  }

  /** A complete booking for Monday 10 June 2024 at 18:00, made on 1 June
      2024 at noon UTC, reaches the create handler with its six fields. */
  lemma CreateExample(now: int)
    requires now == 19875 * JsDate.MsPerDay + 43200000
    ensures CreateChain(ExampleBody(), Clock(now, now), None) == Handled(CallCreate(ExampleRecord()))
  {
    var r := ExampleRecord();
    ExampleFields();
    ExampleDate();
    ExampleClock(now);
    ExampleTime();
    assert ValidDate(r, now, None) == Next by {
      ValidDatePolicy(r, now, None);
      assert Calendar.WeekDay(19884) == 1;
    }
    assert ValidTime(r, Undefined, now, None) == Next by {
      ValidTimePolicy(r, Undefined, now, None);
    }
    assert DateAndTime(ExampleBody(), r, Clock(now, now), None) == Next;
  }

  // ---------------------------------------------------------------------------
  // res.locals.reservation across the stages of one request

  /** What res.locals.reservation holds: nothing yet, the stored row that
      reservationExists loaded, or the record a field check built. */
  datatype Stored = Unset | Loaded(row: Row) | Validated(record: Reservation)

  class ResponseLocals {
    var reservation: Stored

    constructor()
      ensures reservation == Unset
    {
      reservation := Unset;
    }

    method ReservationExistsStage(id: string, db: map<string, Row>) returns (v: Verdict)
      modifies this
      ensures id in db ==> v == Next && reservation == Loaded(db[id])
      ensures id !in db ==> v == Stop(HttpError(404, NotFoundMessage(id))) && reservation == old(reservation)
    {
      var found := ReservationExists(id, db);
      if found.Ok? {
        reservation := Loaded(found.value);
        return Next;
      }
      return Stop(found.error);
    }

    method ValidFormStage(data: Value) returns (v: Verdict)
      modifies this
      ensures ValidForm(data).Ok? ==> v == Next && reservation == Validated(ValidForm(data).value)
      ensures ValidForm(data).Err? ==> v == Stop(ValidForm(data).error) && reservation == old(reservation)
    {
      var checked := ValidForm(data);
      if checked.Err? {
        return Stop(checked.error);
      }
      reservation := Validated(checked.value);
      return Next;
    }

    method ValidUpdateStage(data: Value) returns (v: Verdict)
      modifies this
      ensures ValidUpdate(data).Ok? ==> v == Next && reservation == Validated(ValidUpdate(data).value)
      ensures ValidUpdate(data).Err? ==> v == Stop(ValidUpdate(data).error) && reservation == old(reservation)
    {
      var checked := ValidUpdate(data);
      if checked.Err? {
        return Stop(checked.error);
      }
      reservation := Validated(checked.value);
      return Next;
    }

    method ValidStatusUpdateStage(data: Value) returns (v: Verdict)
      requires reservation.Loaded?
      ensures v == ValidStatusUpdate(reservation.row, data)
    {
      v := ValidStatusUpdate(reservation.row, data);
    }

    /** Runs the create route's stages in order, stopping at the first failure. */
    method RunCreate(data: Value, clock: Clock, otherwise: Option<int>) returns (o: Outcome)
      modifies this
      ensures o == CreateChain(data, clock, otherwise)
      ensures o.Handled? ==> reservation == Validated(o.call.record)
      ensures ValidForm(data).Err? ==> reservation == old(reservation)
      ensures ValidForm(data).Ok? ==> reservation == Validated(ValidForm(data).value)
    {
      var v := ValidFormStage(data);
      if v.Stop? {
        return Failed(v.failure);
      }
      var r := reservation.record;
      v := ValidDate(r, clock.atValidDate, otherwise);
      if v.Stop? {
        return Failed(v.failure);
      }
      v := ValidTime(r, Prop(data, "current_time"), clock.atValidTime, otherwise);
      if v.Stop? {
        return Failed(v.failure);
      }
      return Handled(CallCreate(r));
    }

    /** Runs the update route's stages; the record validUpdate builds replaces
        the row reservationExists loaded. */
    method RunUpdate(id: string, data: Value, db: map<string, Row>, clock: Clock, otherwise: Option<int>)
      returns (o: Outcome)
      modifies this
      ensures o == UpdateChain(id, data, db, clock, otherwise)
      ensures o.Handled? ==> reservation == Validated(o.call.record)
      ensures id !in db ==> reservation == old(reservation)
      ensures id in db && ValidUpdate(data).Err? ==> reservation == Loaded(db[id])
      ensures id in db && ValidUpdate(data).Ok? ==> reservation == Validated(ValidUpdate(data).value)
    {
      var v := ReservationExistsStage(id, db);
      if v.Stop? {
        return Failed(v.failure);
      }
      v := ValidUpdateStage(data);
      if v.Stop? {
        return Failed(v.failure);
      }
      var r := reservation.record;
      v := ValidDate(r, clock.atValidDate, otherwise);
      if v.Stop? {
        return Failed(v.failure);
      }
      v := ValidTime(r, Prop(data, "current_time"), clock.atValidTime, otherwise);
      if v.Stop? {
        return Failed(v.failure);
      }
      return Handled(CallUpdate(id, r));
    }

    method RunUpdateStatus(id: string, data: Value, db: map<string, Row>) returns (o: Outcome)
      modifies this
      ensures o == UpdateStatusChain(id, data, db)
      ensures id in db ==> reservation == Loaded(db[id])
      ensures id !in db ==> reservation == old(reservation)
    {
      var v := ReservationExistsStage(id, db);
      if v.Stop? {
        return Failed(v.failure);
      }
      v := ValidStatusUpdateStage(data);
      if v.Stop? {
        return Failed(v.failure);
      }
      return Handled(CallUpdateStatus(id, Prop(data, "status")));
    }

    method RunRead(id: string, db: map<string, Row>) returns (o: Outcome)
      modifies this
      ensures o == ReadChain(id, db)
      ensures o.Handled? ==> reservation == Loaded(o.call.row)
      ensures id in db ==> reservation == Loaded(db[id])
      ensures id !in db ==> reservation == old(reservation)
    {
      var v := ReservationExistsStage(id, db);
      if v.Stop? {
        return Failed(v.failure);
      }
      return Handled(CallRead(reservation.row));
    }
  }
}
