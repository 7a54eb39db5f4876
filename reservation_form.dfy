/** The reservation form of the client (front-end/src/dashboard/ReservationForm.js):
    the form state as a record of field values, its update on every change of
    an input, the record loaded for editing, and the submit handler's three
    checks before the create or update request, followed by the reset of the
    form and the navigation to the dashboard of the booked day. The date the
    browser parses from the form and the current time are not modelled: the
    handler receives the parsed date's weekday and whether it lies before now. */
module ReservationForm {
  import opened Wrappers
  import opened JsNumber
  import opened JsValues
  import opened Patterns
  import DateTime
  import ReservationsController

  /** The form state: one value per field name. */
  type FormData = map<string, Value>

  /** The fields of a new form: five empty strings and one guest. */
  const InitialState: FormData := map[
    "first_name" := Str(""), "last_name" := Str(""), "mobile_number" := Str(""),
    "reservation_date" := Str(""), "reservation_time" := Str(""), "people" := Number(FromInt(1))]

  /** The six fields the form edits. */
  const FormFields: seq<string> :=
    ["first_name", "last_name", "mobile_number", "reservation_date", "reservation_time", "people"]

  // ---------------------------------------------------------------------------
  // handleChange

  /** The input that fired a change event: its name, its type attribute and the
      text it holds (an input's value is always a string). */
  datatype Target = Target(name: string, kind: string, value: string)

  /** The value handleChange stores for an input: Number(value) for a number
      input, the text itself for any other. */
  function Stored(target: Target): (v: Value)
    ensures target.kind == "number" ==> v == Number(ToNumber(target.value))
    ensures target.kind != "number" ==> v == Str(target.value)
  {
    if target.kind == "number" then Number(ToNumberValue(Str(target.value))) else Str(target.value)
  }

  /** handleChange: a copy of the form with the target's field replaced. */
  function HandleChange(formData: FormData, target: Target): (r: FormData)
    ensures r.Keys == formData.Keys + {target.name}
    ensures r[target.name] == Stored(target)
    ensures forall k | k in formData && k != target.name :: r[k] == formData[k]
  {
    formData[target.name := Stored(target)]
  }

  /** Two changes of the same input: the later one decides. */
  lemma LastChangeWins(formData: FormData, first: Target, second: Target)
    requires first.name == second.name
    ensures HandleChange(HandleChange(formData, first), second) == HandleChange(formData, second)
  {
    var a := HandleChange(HandleChange(formData, first), second);
    var b := HandleChange(formData, second);
    assert a.Keys == b.Keys;
    assert forall k | k in a :: a[k] == b[k];
  }

  /** Changes of two different inputs commute. */
  lemma ChangesCommute(formData: FormData, x: Target, y: Target)
    requires x.name != y.name
    ensures HandleChange(HandleChange(formData, x), y) == HandleChange(HandleChange(formData, y), x)
  {
    var a := formData[x.name := Stored(x)][y.name := Stored(y)];
    var b := formData[y.name := Stored(y)][x.name := Stored(x)];
    assert a == b;
  }

  /** Repeating a change changes nothing more. */
  lemma ChangeIdempotent(formData: FormData, target: Target)
    ensures HandleChange(HandleChange(formData, target), target) == HandleChange(formData, target)
  {
    LastChangeWins(formData, target, target);
  }

  /** No sequence of changes loses one of the form's fields. */
  lemma {:induction false} ChangesKeepFields(formData: FormData, targets: seq<Target>)
    requires forall f | f in FormFields :: f in formData
    ensures forall f | f in FormFields :: f in Changed(formData, targets)
    decreases |targets|
  {
    if targets != [] {
      ChangesKeepFields(HandleChange(formData, targets[0]), targets[1..]);
    }
  }

  /** The form after a sequence of change events, first to last. */
  function Changed(formData: FormData, targets: seq<Target>): FormData
    decreases |targets|
  {
    if targets == [] then formData else Changed(HandleChange(formData, targets[0]), targets[1..])
  }

  /** A form that started new still holds all six fields after any changes. */
  lemma FieldsAfterChanges(targets: seq<Target>)
    ensures forall f | f in FormFields :: f in Changed(InitialState, targets)
  {
    ChangesKeepFields(InitialState, targets);
  }

  // ---------------------------------------------------------------------------
  // Loading a reservation for editing

  /** The form an Edit page loads from a stored reservation: its properties,
      with reservation_date cut to its first ten characters by slice(0, 10).
      None when reading the property or calling slice throws: the value is not
      an object, or its reservation_date is missing or has no slice method. */
  function LoadedForm(newRes: Value): (r: Option<FormData>)
    ensures r.Some? <==> newRes.Obj? && "reservation_date" in newRes.props
                         && (newRes.props["reservation_date"].Str? || newRes.props["reservation_date"].Arr?)
    ensures r.Some? ==> r.value.Keys == newRes.props.Keys
    ensures r.Some? ==> forall k | k in newRes.props && k != "reservation_date" :: r.value[k] == newRes.props[k]
    ensures r.Some? && newRes.props["reservation_date"].Str? ==>
              var s := newRes.props["reservation_date"].s;
              r.value["reservation_date"] == Str(if |s| <= 10 then s else s[..10])
  {
    if !newRes.Obj? || "reservation_date" !in newRes.props then None
    else
      match newRes.props["reservation_date"]
      case Str(s) => Some(newRes.props["reservation_date" := Str(DateTime.Slice(s, 0, 10))])
      case Arr(elems) => Some(newRes.props["reservation_date" := Arr(elems[..Min(10, |elems|)])])
      case _ => None
  }

  /** Loading what was loaded changes nothing: a cut date is cut no further. */
  lemma LoadIdempotent(newRes: Value)
    requires LoadedForm(newRes).Some?
    ensures LoadedForm(Obj(LoadedForm(newRes).value)) == LoadedForm(newRes)
  {
    var once := LoadedForm(newRes).value;
    match newRes.props["reservation_date"]
    case Str(s) =>
      var cut := DateTime.Slice(s, 0, 10);
      assert DateTime.Slice(cut, 0, 10) == cut;
      assert once["reservation_date" := Str(cut)] == once;
    case Arr(elems) =>
      var cut := elems[..Min(10, |elems|)];
      assert cut[..Min(10, |cut|)] == cut;
      assert once["reservation_date" := Arr(cut)] == once;
  }

  /** For a stored date that starts with YYYY-MM-DD (a full timestamp such as
      the database returns), the loaded date is what formatAsDate extracts. */
  lemma LoadAgreesWithFormatAsDate(newRes: Value)
    requires newRes.Obj? && "reservation_date" in newRes.props && newRes.props["reservation_date"].Str?
    requires MatchAt(DatePattern, newRes.props["reservation_date"].s, 0)
    ensures LoadedForm(newRes).Some?
    ensures DateTime.FormatAsDate(newRes.props["reservation_date"].s) == Ok(LoadedForm(newRes).value["reservation_date"].s)
  {
    DateTime.FormatLeadingFields(newRes.props["reservation_date"].s);
  }

  // ---------------------------------------------------------------------------
  // The checks of handleSubmit

  const TuesdayMessage := "Unfortunately, the restaurant is closed on Tuesdays. Please pick another day."
  const PastMessage := "Error: This reservation is being made for a previous date. Please pick a future date."
  const ClientHoursMessage := "Unfortunately, this time is outside of the restaurant's hours of operation. Please pick a time that fits within the constraints."

  /** What the form's error alert holds: an error with a message (a thrown
      Error, an Error of a failed request, or the {message} built from a
      server response), or the TypeError of calling replace on a reservation
      time that is not a string, whose text the engine chooses. */
  datatype Alert = Alert(message: Value) | TypeErrorAlert

  /** String.prototype.replace with a one-character string pattern: the first
      occurrence of c is removed. */
  function RemoveFirst(s: string, c: char): (r: string)
    ensures c !in s ==> r == s
    ensures c in s ==> |r| == |s| - 1
  {
    if s == [] then s
    else if s[0] == c then s[1..]
    else [s[0]] + RemoveFirst(s[1..], c)
  }

  /** Where the first c sits, removing it joins the two sides. */
  lemma {:induction false} RemoveFirstAt(s: string, c: char, k: nat)
    requires k < |s| && s[k] == c && c !in s[..k]
    ensures RemoveFirst(s, c) == s[..k] + s[k + 1..]
    decreases k
  {
    if k > 0 {
      assert s[1..][..k - 1] == s[1..k];
      assert c !in s[1..k] by {
        assert forall j | 0 <= j < k - 1 :: s[1..k][j] == s[..k][j + 1];
      }
      RemoveFirstAt(s[1..], c, k - 1);
      assert s[1..][k..] == s[k + 1..];
      assert s[..k] == [s[0]] + s[1..k];
    }
  }

  /** Number(time.replace(":", "")): the HHMM number the client tests. */
  function ClientClock(time: string): Num {
    ToNumberValue(Str(RemoveFirst(time, ':')))
  }

  /** The client's hours test: before 1030 or after 2130. */
  predicate ClientOutsideHours(time: string) {
    Less(ClientClock(time), FromInt(1030)) || Less(FromInt(2130), ClientClock(time))
  }

  /** The checks of handleSubmit before any request, in order: the parsed
      date falls on a Tuesday, it lies before now, the time is outside the
      hours. None when all pass. `weekday` is getDay() of the parsed date
      (None for an invalid date, whose getDay() is NaN). */
  function SubmitCheck(time: Value, weekday: Option<int>, isPast: bool): (r: Option<Alert>)
    ensures weekday == Some(2) ==> r == Some(Alert(Str(TuesdayMessage)))
    ensures weekday != Some(2) && isPast ==> r == Some(Alert(Str(PastMessage)))
    ensures weekday != Some(2) && !isPast && !time.Str? ==> r == Some(TypeErrorAlert)
    ensures weekday != Some(2) && !isPast && time.Str? ==>
              (r.Some? <==> ClientOutsideHours(time.s)) && (r.Some? ==> r == Some(Alert(Str(ClientHoursMessage))))
  {
    if weekday == Some(2) then Some(Alert(Str(TuesdayMessage)))
    else if isPast then Some(Alert(Str(PastMessage)))
    else if !time.Str? then Some(TypeErrorAlert)
    else if ClientOutsideHours(time.s) then Some(Alert(Str(ClientHoursMessage)))
    else None
  }

  /** For a time of exactly HH:MM the client's number is 100 * HH + MM. */
  lemma ClientClockValue(t: string)
    requires |t| == 5 && MatchAt(TimePattern, t, 0)
    ensures ClientClock(t) == FromInt(ReservationsController.ClockValue(t))
  {
    var digits := t[..2] + t[3..5];
    ClientDigits(t, t[..2], t[3..5]);
    ToNumberOfStr(digits);
    DigitsToNumber(digits);
  }

  /** Removing the colon of HH:MM leaves the four digits, whose value is HHMM. */
  lemma ClientDigits(t: string, hh: string, mm: string)
    requires |t| == 5 && MatchAt(TimePattern, t, 0)
    requires hh == t[..2] && mm == t[3..5]
    ensures RemoveFirst(t, ':') == hh + mm && hh + mm != [] && AllDigits(hh + mm)
    ensures DigitsValue(hh + mm) == ReservationsController.ClockValue(t)
  {
    assert ':' !in t[..2];
    RemoveFirstAt(t, ':', 2);
    assert t[3..] == t[3..5];
    assert AllDigits(hh) && AllDigits(mm);
    DigitsValueConcat(hh, mm);
    assert Pow10(2) == 100;
  }

  /** The client's hours test and the server's validTime hours tests refuse
      exactly the same HH:MM times. */
  lemma ClientServerAgreement(t: string)
    requires |t| == 5 && MatchAt(TimePattern, t, 0)
    ensures ClientOutsideHours(t) <==>
              ReservationsController.TooEarly(ReservationsController.HourOf(t), ReservationsController.MinutesOf(t))
              || ReservationsController.TooLate(ReservationsController.HourOf(t), ReservationsController.MinutesOf(t))
  {
    var v := ReservationsController.ClockValue(t);
    ClientClockValue(t);
    FromIntCompare(v, 1030);
    FromIntCompare(2130, v);
    ReservationsController.OperatingHours(t);
  }

  /** A time with seconds, HH:MM:SS as a stored reservation holds, still has
      a colon once the first is removed, so its number is NaN and the client's
      hours test lets every such time through. */
  lemma ClientPassesSeconds(t: string)
    requires MatchAt(TimePattern, t, 0) && ':' in t[3..]
    ensures !ClientOutsideHours(t)
  {
    assert ':' !in t[..2];
    RemoveFirstAt(t, ':', 2);
    var r := RemoveFirst(t, ':');
    var j :| 3 <= j < |t| && t[j] == ':';
    assert r[j - 1] == ':';
    ToNumberOfStr(r);
    ColonToNumber(r);
  }

  /** An empty time, as a new form starts with, is the number 0 and is
      refused as outside the hours. */
  lemma EmptyTimeRefused()
    ensures ClientOutsideHours("")
  {
    assert ClientClock("") == FromInt(0) by {
      assert RemoveFirst("", ':') == "";
      ToNumberOfStr("");
      EmptyToNumber();
    }
    FromIntCompare(0, 1030);
  }

  // ---------------------------------------------------------------------------
  // handleSubmit

  /** The request handleSubmit sends once its checks pass. */
  datatype ApiCall = CreateCall(data: FormData) | UpdateCall(id: string, data: FormData)

  /** How the request settles: accepted, or rejected with the error whose
      `response.data.error` (when a response came back) or `message` the
      alert shows. */
  datatype ApiOutcome = Accepted | Rejected(responseError: Option<Value>, message: string)

  function CallOf(kind: string, reservationId: string, formData: FormData): (c: ApiCall)
    ensures c.UpdateCall? <==> kind == "Edit"
    ensures c.UpdateCall? ==> c.id == reservationId
    ensures c.data == formData
  {
    if kind == "Edit" then UpdateCall(reservationId, formData) else CreateCall(formData)
  }

  /** The alert a rejected request leaves. */
  function RejectionAlert(outcome: ApiOutcome): (a: Alert)
    requires outcome.Rejected?
    ensures outcome.responseError.Some? ==> a == Alert(outcome.responseError.value)
    ensures outcome.responseError.None? ==> a == Alert(Str(outcome.message))
  {
    match outcome.responseError
    case Some(e) => Alert(e)
    case None => Alert(Str(outcome.message))
  }

  /** The dashboard page for the submitted date. */
  function DashboardPath(formData: FormData): string {
    "/dashboard?date=" + ToString(Lookup(formData, "reservation_date"))
  }

  /** The component's state: the form, the alert, the pages the history
      was sent to, and the requests made, oldest first. */
  class FormState {
    var formData: FormData
    var reservationsError: Option<Alert>
    var history: seq<string>
    var calls: seq<ApiCall>

    constructor()
      ensures formData == InitialState && reservationsError == None && history == [] && calls == []
    {
      formData := InitialState;
      reservationsError := None;
      history := [];
      calls := [];
    }

    /** handleChange bound to the component: setFormData of the updated copy. */
    method Change(target: Target)
      modifies this
      ensures formData == HandleChange(old(formData), target)
      ensures reservationsError == old(reservationsError) && history == old(history) && calls == old(calls)
    {
      formData := HandleChange(formData, target);
    }

    /** The Edit page's load: the loaded form, or no change when loading throws. */
    method Load(newRes: Value)
      modifies this
      ensures LoadedForm(newRes).Some? ==> formData == LoadedForm(newRes).value
      ensures LoadedForm(newRes).None? ==> formData == old(formData)
      ensures reservationsError == old(reservationsError) && history == old(history) && calls == old(calls)
    {
      var loaded := LoadedForm(newRes);
      if loaded.Some? {
        formData := loaded.value;
      }
    }

    /** handleSubmit: a failed check shows its alert and sends nothing; else
        the create or update request is sent with the form, and on success the
        form is reset and the dashboard of the submitted date is opened, while
        a rejection shows its alert and keeps the form. */
    method HandleSubmit(kind: string, reservationId: string, weekday: Option<int>, isPast: bool, outcome: ApiOutcome)
      modifies this
      ensures var check := SubmitCheck(Lookup(old(formData), "reservation_time"), weekday, isPast);
              check.Some? ==> reservationsError == check && formData == old(formData)
                              && history == old(history) && calls == old(calls)
      ensures var check := SubmitCheck(Lookup(old(formData), "reservation_time"), weekday, isPast);
              check.None? ==> calls == old(calls) + [CallOf(kind, reservationId, old(formData))]
      ensures var check := SubmitCheck(Lookup(old(formData), "reservation_time"), weekday, isPast);
              check.None? && outcome.Accepted? ==>
                formData == InitialState && history == old(history) + [DashboardPath(old(formData))]
                && reservationsError == old(reservationsError)
      ensures var check := SubmitCheck(Lookup(old(formData), "reservation_time"), weekday, isPast);
              check.None? && outcome.Rejected? ==>
                reservationsError == Some(RejectionAlert(outcome)) && formData == old(formData) && history == old(history)
    {
      var submitted := formData;
      var time := Lookup(submitted, "reservation_time");
      if weekday == Some(2) {
        reservationsError := Some(Alert(Str(TuesdayMessage)));
        return;
      }
      if isPast {
        reservationsError := Some(Alert(Str(PastMessage)));
        return;
      }
      if !time.Str? {
        reservationsError := Some(TypeErrorAlert);
        return;
      }
      var clock := ClientClock(time.s);
      if Less(clock, FromInt(1030)) || Less(FromInt(2130), clock) {
        reservationsError := Some(Alert(Str(ClientHoursMessage)));
        return;
      }
      calls := calls + [CallOf(kind, reservationId, submitted)];
      if outcome.Rejected? {
        reservationsError := Some(RejectionAlert(outcome));
        return;
      }
      formData := InitialState;
      history := history + [DashboardPath(submitted)];
    }
  }

  /** A submit that passes its checks and is accepted leaves a fresh form,
      so a second submit of that form is refused for its empty time unless
      an earlier check refuses it first. */
  lemma ResetFormRefused(weekday: Option<int>, isPast: bool)
    ensures SubmitCheck(Lookup(InitialState, "reservation_time"), weekday, isPast).Some?
  {
    assert Lookup(InitialState, "reservation_time") == Str("");
    EmptyTimeRefused();
  }
}
