# Reservation validation, date helpers and reservation form

This project is a Dafny model of the core of a restaurant reservation
application. The application has an Express back end and a React client.
The model covers three parts:

- **The reservations controller of the back end.** This is the middleware
  that validates a reservation request:
  - `validForm` and `validUpdate` check which fields are present, their
    format and their type, and refuse a new reservation whose status is
    seated or finished;
  - `validDate` refuses Tuesdays and past days;
  - `validTime` refuses a past time on the current day and times outside
    opening hours;
  - `validStatusUpdate` applies the status rules;
  - `reservationExists` looks the reservation up;
  - `list` dispatches on its query parameters.

  The model also covers the order in which the `create`, `read`, `update`
  and `updateStatus` routes run these stages (`ReservationsController`).
  Each stage is a function that returns `Next` or the failure it passes to
  `next()`. The record the stages share in `res.locals.reservation` is the
  field of the class `ResponseLocals`. That class's methods run the
  stages of each route one after another.
- **The client's date and time helpers** (`DateTime`):
  - `asDateString`;
  - `formatAsDate` and `formatAsTime`;
  - `next` and `previous`, which step a `YYYY-MM-DD` string one day on a
    local `Date` object;
  - `formatDate`, `formatTime` and `formatPhone`.
- **The reservation form of the client** (`ReservationForm`):
  - `handleChange`, which is a pure record update;
  - the loading of a record for editing;
  - `handleSubmit`, with its three checks, the request, the reset to the
    initial state and the navigation. `handleSubmit` is a method of the
    class `FormState`, which holds the component's state.

The ECMAScript semantics the code relies on are modelled explicitly, with
reference to the sections of ECMA-262, 2024 edition:

- `JsNumber`: Number values as exact decimals, `Number(string)` (section
  7.1.4.1.1) and `Number::toString` (section 6.1.6.1.20).
- `JsValues`: truthiness, property reads, `+`, `>` against a string,
  `ToString`.
- `Patterns`: the two unanchored regular expressions.
- `Calendar`: the proleptic Gregorian day count from 1 January 1970
  (section 21.4.1).
- `JsDate`:
  - the `Date` constructor with its two-digit-year rule;
  - `setMonth` and `setDate` on a `DateObject` class;
  - `getUTCDay`;
  - the first sixteen characters of `toUTCString`;
  - parsing of a date-only `YYYY-MM-DD` string.

The clock and the persistence layer are parameters:

- Each stage that reads the clock receives its own time value.
- The stored reservations are a map from id to row.
- For the form, the parsed date's weekday and whether it lies before now
  are parameters.

In these places the code behaves differently from what a reader might
expect, and the model follows the code:

- The update route never looks at the stored status, so a finished
  reservation can still be edited (`UpdateIgnoresStoredRow`).
- `people` is only required to be a truthy number. Negative and fractional
  numbers pass.
- `list` with neither query parameter sends no response (`NoResponse`).

## Model

| member | source | states |
|---|---|---|
| ReservationsController.FirstFalsy | back-end/src/reservations/reservations.controller.js:20-36 | The position of the first falsy field. None iff every field is truthy. The fields before it are truthy. |
| ReservationsController.FirstFalsyOfRequired | back-end/src/reservations/reservations.controller.js:116-132 | The six fields are tested in the order first_name, last_name, mobile_number, people, reservation_date, reservation_time. |
| ReservationsController.ValidUpdate | back-end/src/reservations/reservations.controller.js:111-146 | A falsy body, and only one, gives "Data Missing!". Otherwise the first falsy field is named in "Error: var … must exist". With every field present the checks run in order. A non-string date throws. A date string without the date pattern gives the date-format 400, whatever the time is. Then a non-string time throws, and a time string without the time pattern gives the time-format 400. Then a people that is not a number gives "must be a number". The result is accepted iff the body is well formed, and an accepted record carries exactly the body's six fields. |
| ReservationsController.ValidUpdateOfWellFormed | back-end/src/reservations/reservations.controller.js:143 | A well-formed body is accepted with its six properties as the record. |
| ReservationsController.ValidForm | back-end/src/reservations/reservations.controller.js:15-55 | A failure of the validUpdate checks is returned unchanged. After them, status seated or finished is refused with its own message. Any other status, or none, gives the same record. |
| ReservationsController.ZeroPeopleIsMissing | back-end/src/reservations/reservations.controller.js:29-30 | people = 0 is reported as "Error: var people must exist", by both validForm and validUpdate. |
| ReservationsController.StringPeopleIsNotANumber | back-end/src/reservations/reservations.controller.js:38-45 | people = "2" passes the presence and both format checks and is refused as "must be a number". |
| ReservationsController.HourAndMinutes | back-end/src/reservations/reservations.controller.js:73-76 | For a time starting HH:MM, the hour and minutes are the Numbers of the two digit pairs. |
| ReservationsController.HoursOnIntegers | back-end/src/reservations/reservations.controller.js:85-89 | On whole hours and minutes below 100, the two hour tests refuse exactly the times where 100·h + m lies outside 1030..2130. |
| ReservationsController.OperatingHours | back-end/src/reservations/reservations.controller.js:73-89 | For a time starting HH:MM, validTime's hour tests refuse iff HHMM is outside 1030..2130. So 10:30 and 21:30 pass, and 10:29 and 21:31 fail. |
| ReservationsController.ValidTimePolicy | back-end/src/reservations/reservations.controller.js:71-92 | validTime first refuses a time the client's current_time exceeds on now's UTC day, then a time outside 10:30..21:30. Otherwise it passes. |
| ReservationsController.ValidTime | back-end/src/reservations/reservations.controller.js:71-92 | It stops only with a 400 carrying the future-time or the operating-hours message. This holds for a current_time without own `valueOf` or `toString` keys, the only kind the model has. |
| ReservationsController.NaNHourPassesHours | back-end/src/reservations/reservations.controller.js:71-92 | A time made of a lowercase letter followed by HH:MM, such as "a05:00", passes the format check and has a NaN hour. With no current_time in the body, it passes validTime. |
| ReservationsController.ValidDatePolicy | back-end/src/reservations/reservations.controller.js:57-68 | For a YYYY-MM-DD date, a Tuesday (UTC weekday 2) is refused first. Then a day before now's UTC day is refused. Today and later days pass. |
| ReservationsController.ValidDate | back-end/src/reservations/reservations.controller.js:57-68 | It stops only with a 400 carrying the Tuesday or the future-date message. A date whose UTC weekday is 2 is refused as closed, whatever the clock says. A date on now's UTC day is never refused as past. |
| ReservationsController.SameDayTest | back-end/src/reservations/reservations.controller.js:82 | For a YYYY-MM-DD date and a clock reading whose UTC year is 0..9999, the toUTCString().slice(0, 16) comparison holds iff the reservation's day is now's UTC day. |
| ReservationsController.ReservationExists | back-end/src/reservations/reservations.controller.js:5-13 | Found iff the id is stored, with the stored row. Otherwise 404 with the message naming the id. |
| ReservationsController.NotFoundNamesId | back-end/src/reservations/reservations.controller.js:12 | Different ids give different 404 messages. |
| ReservationsController.ValidStatusUpdate | back-end/src/reservations/reservations.controller.js:95-109 | The stage passes iff the body exists, the stored status is not finished and the requested status is one of booked, seated, finished, cancelled. A missing body throws. Finished gives its refusal, and an unknown status gives its own. |
| ReservationsController.List | back-end/src/reservations/reservations.controller.js:152-166 | A truthy date query wins. Otherwise a truthy mobile_number is used. Otherwise no response. |
| ReservationsController.DateAndTime | back-end/src/reservations/reservations.controller.js:204-206 | The date and time stages pass iff validDate and validTime both pass. A validDate failure is the one reported. When validDate passes, validTime's verdict is the result. |
| ReservationsController.CreateChain | back-end/src/reservations/reservations.controller.js:204 | A validForm failure is the outcome. When validForm accepts and validDate or validTime stops, that stage's failure is the outcome. The handler is reached iff validForm accepts and the date and time stages pass, and then with validForm's record. |
| ReservationsController.ReadChain | back-end/src/reservations/reservations.controller.js:203 | The read handler is reached iff the id is stored, and then with the stored row. Otherwise the outcome is the 404 naming the id. |
| ReservationsController.UpdateStatusChain | back-end/src/reservations/reservations.controller.js:205 | An unknown id gives the 404. For a stored id, a validStatusUpdate failure on its row is the outcome. The handler is reached iff the id is stored and validStatusUpdate passes on its row, and then with the body's status. |
| ReservationsController.UpdateChain | back-end/src/reservations/reservations.controller.js:206 | An unknown id gives the 404. For a stored id, a validUpdate failure is the outcome. When validUpdate accepts and validDate or validTime stops, that stage's failure is the outcome. The handler is reached iff the id is stored, the body is well formed and the date and time stages pass, and then with validUpdate's record. |
| ReservationsController.UnknownIdIsNotFound | back-end/src/reservations/reservations.controller.js:203-206 | An unknown id stops read, update and updateStatus with the 404 before the body is read. |
| ReservationsController.UpdateIgnoresStoredRow | back-end/src/reservations/reservations.controller.js:206 | The update route's outcome does not depend on the stored row, finished or not. |
| ReservationsController.UpdateAgreesWithCreate | back-end/src/reservations/reservations.controller.js:204-206 | For a stored id and a body without status seated or finished, create and update fail alike with the same failure, or both reach their handler with the same record. |
| ReservationsController.CreateAccepted | back-end/src/reservations/reservations.controller.js:204 | A create that reaches the handler had a well-formed body without status seated or finished. Its record holds the body's six fields. For a YYYY-MM-DD date and an HH:MM time, it is not a Tuesday, not before today's UTC day, and within 10:30..21:30. |
| ReservationsController.StatusUpdateRules | back-end/src/reservations/reservations.controller.js:205 | A finished reservation refuses every status update. Cancelled is always accepted on one that is not finished. A successful update asked for a known status. |
| ReservationsController.CreateExample | back-end/src/reservations/reservations.controller.js:204 | A complete booking for Monday 10 June 2024 at 18:00, made on 1 June 2024, reaches the create handler with its six fields. |
| ReservationsController.ExampleFields | back-end/src/reservations/reservations.controller.js:15-55 | The example booking passes validForm with its six fields as the record and has no current_time. |
| ReservationsController.ResponseLocals.constructor | back-end/src/reservations/reservations.controller.js:9 | res.locals.reservation starts unset. |
| ReservationsController.ResponseLocals.ReservationExistsStage | back-end/src/reservations/reservations.controller.js:5-13 | It stores the found row and passes, or stops with the 404 and leaves the record as it was. |
| ReservationsController.ResponseLocals.ValidFormStage | back-end/src/reservations/reservations.controller.js:53 | It stores validForm's record and passes, or stops with its failure and leaves the record as it was. |
| ReservationsController.ResponseLocals.ValidUpdateStage | back-end/src/reservations/reservations.controller.js:143 | It stores validUpdate's record and passes, or stops with its failure and leaves the record as it was. |
| ReservationsController.ResponseLocals.ValidStatusUpdateStage | back-end/src/reservations/reservations.controller.js:96-108 | It decides on the row reservationExists stored. |
| ReservationsController.ResponseLocals.RunCreate | back-end/src/reservations/reservations.controller.js:204 | Running validForm, validDate and validTime in turn gives the create chain's outcome. When validForm fails, res.locals.reservation is left as it was. When it passes, res.locals holds its record, whatever the later stages decide. |
| ReservationsController.ResponseLocals.RunUpdate | back-end/src/reservations/reservations.controller.js:206 | Running exists, validUpdate, validDate and validTime gives the update chain's outcome. An unknown id leaves res.locals as it was. When validUpdate fails, the loaded row stays. When it passes, its record replaces the loaded row, whatever validDate and validTime decide. |
| ReservationsController.ResponseLocals.RunUpdateStatus | back-end/src/reservations/reservations.controller.js:205 | Running exists and validStatusUpdate gives the updateStatus chain's outcome. A known id leaves its row in res.locals, and an unknown one leaves res.locals as it was. |
| ReservationsController.ResponseLocals.RunRead | back-end/src/reservations/reservations.controller.js:203 | Running exists then read gives the read chain's outcome. A known id leaves its row in res.locals, and an unknown one leaves res.locals as it was. |
| Patterns.FirstMatch | back-end/src/reservations/reservations.controller.js:38-42 | The leftmost position at or after `from` where the pattern matches, and no match before it. None iff there is no match. |
| Patterns.MatchText | front-end/src/utils/date-time.js:1-2 | `match` finds text iff the pattern matches somewhere. The text has the pattern's width, starts at the leftmost match, and is a slice of the input. |
| Patterns.MatchesInside | back-end/src/reservations/reservations.controller.js:38-42 | The checks are unanchored: a match surrounded by any text still matches. |
| JsValues.TwoDigitNumber | back-end/src/reservations/reservations.controller.js:73-76 | `Number(time[i] + time[i+1])` on two digits is their value. |
| JsValues.GreaterThanColon | back-end/src/reservations/reservations.controller.js:82 | An absent current_time is never greater than a time containing a colon. |
| JsValues.ToPrimitive | back-end/src/reservations/reservations.controller.js:82 | An array becomes its joined elements and an object becomes "[object Object]", as for objects without own `valueOf` or `toString` keys. Every other value is returned unchanged. |
| JsValues.TwoCharacters | back-end/src/reservations/reservations.controller.js:73-74 | `time[i] + time[i+1]` concatenates the two characters into a two-character string. |
| JsNumber.DigitsToNumber | back-end/src/reservations/reservations.controller.js:75-76 | Number of a digit string is its decimal value. |
| JsNumber.ColonToNumber | front-end/src/dashboard/ReservationForm.js:56 | Number of a string containing a colon is NaN. |
| JsNumber.EmptyToNumber | front-end/src/dashboard/ReservationForm.js:56 | Number("") is 0. |
| JsNumber.IntegerToString | front-end/src/utils/date-time.js:5-7 | toString(10) of an integer below 10^21 in magnitude is its plain decimal form. |
| JsNumber.NonNumericStart | back-end/src/reservations/reservations.controller.js:75-76 | A non-empty string that neither starts nor ends with white space, and whose first character is not a digit, a sign, a point or the I of "Infinity", converts to NaN. |
| JsNumber.FromIntCompare | back-end/src/reservations/reservations.controller.js:85-89 | On integers, the Number comparisons, subtraction and truncation agree with integer arithmetic. |
| JsNumber.NatToStringValue | front-end/src/utils/date-time.js:5-7 | Reading back the decimal form of n gives n. |
| Calendar.NextDay | front-end/src/utils/date-time.js:31-38 | The following day of a valid date is a valid date. |
| Calendar.NextDayNumber | front-end/src/utils/date-time.js:31-38 | The following day of a valid date has the next day number. |
| Calendar.FromDayNumberNext | front-end/src/utils/date-time.js:22-38 | The date of day number n + 1 is the following day of the date of n, and the date of n is the preceding day of the date of n + 1. |
| Calendar.PrevDay | front-end/src/utils/date-time.js:22-29 | The preceding day of a valid date is a valid date. |
| Calendar.NextPrevInverse | front-end/src/utils/date-time.js:22-38 | The day before the day after a date, and the day after the day before it, is that date. |
| Calendar.FromDayNumberOfDate | front-end/src/utils/date-time.js:25 | Day numbers and valid dates correspond one to one. |
| Calendar.FromDayNumber | front-end/src/utils/date-time.js:25 | Every day number names a valid date. |
| Calendar.DayOfInjective | back-end/src/reservations/reservations.controller.js:61 | Two valid dates with the same day number are the same date. |
| Calendar.WeekDay | back-end/src/reservations/reservations.controller.js:61 | The weekday of a day number is 0..6. |
| Calendar.DayFromYearClosedForm | back-end/src/reservations/reservations.controller.js:58 | The year-by-year day count equals the closed form of DayFromYear in ECMA-262 section 21.4.1.6. |
| Calendar.WeekDayNext | back-end/src/reservations/reservations.controller.js:61 | Consecutive days have consecutive weekdays, in a cycle of seven. |
| JsDate.ParseDate | back-end/src/reservations/reservations.controller.js:58 | A YYYY-MM-DD date parses to UTC midnight of that day. Every result lies in TimeClip's range. |
| JsDate.UtcPrefixNamesDay | back-end/src/reservations/reservations.controller.js:64 | For years 0..9999, the first sixteen characters of toUTCString agree iff the UTC days agree. |
| JsDate.EarlierUtcDay | back-end/src/reservations/reservations.controller.js:64 | An earlier time on a different UTC day is exactly an earlier UTC day. |
| JsDate.UtcDateTextLayout | back-end/src/reservations/reservations.controller.js:64 | For a day whose year is 0..9999, the date part of toUTCString is sixteen characters, with day, month name and year at fixed places. |
| JsDate.PaddedValue | front-end/src/utils/date-time.js:5-7 | A zero-padded field reads back as its number. When the number is below 10^width and the width is at least 1, it has exactly the requested width. |
| JsDate.PadStart | front-end/src/utils/date-time.js:6-7 | padStart yields the requested length, or the string's own length when that is longer. |
| JsDate.Take | back-end/src/reservations/reservations.controller.js:64 | slice(0, n) yields the first n characters of the string, or the whole string when it is shorter. |
| JsDate.UtcPrefix | back-end/src/reservations/reservations.controller.js:64 | An invalid date gives "Invalid Date", and only an invalid date does. A valid one gives sixteen characters with ", " after the weekday. |
| JsDate.ClipDay | back-end/src/reservations/reservations.controller.js:58 | TimeClip keeps a day iff its time value lies within 8.64e15 ms of the epoch, and then keeps it unchanged. |
| JsDate.MonthNamesDistinct | back-end/src/reservations/reservations.controller.js:64 | The twelve month abbreviations of toUTCString are distinct. |
| JsDate.DateObject.constructor | front-end/src/utils/date-time.js:25 | A new Date(year, month, day) holds the constructed local date. |
| JsDate.DateObject.SetMonth | front-end/src/utils/date-time.js:26 | setMonth replaces the value with the one ECMA-262 section 21.4.4.25 gives. |
| JsDate.DateObject.SetDate | front-end/src/utils/date-time.js:27 | setDate replaces the value with the one ECMA-262 section 21.4.4.20 gives. |
| JsDate.ConstructDate | front-end/src/utils/date-time.js:25 | new Date(y, m - 1, d) of a valid date of year 100 or later is local midnight of that day. |
| JsDate.ConstructTwoDigitYear | front-end/src/utils/date-time.js:25 | Years 0..99 given to the constructor mean 1900..1999, for a day that exists in year 1900 + y. |
| JsDate.SetOwnMonth | front-end/src/utils/date-time.js:26 | Setting a date's month to its own month changes nothing. |
| JsDate.SetDateBy | front-end/src/utils/date-time.js:27 | Setting the day of the month to the current one plus k moves the date by k days. |
| JsDate.MakeDayOfDate | front-end/src/utils/date-time.js:27 | MakeDay of a valid date with its day shifted by k is that date's day number plus k. |
| JsDate.MakeDay | front-end/src/utils/date-time.js:25-27 | MakeDay (ECMA-262 section 21.4.1.28) gives NaN iff an argument is not finite. With a month 0..11 it is the day number of the month's first day plus date - 1. |
| JsDate.Construct | front-end/src/utils/date-time.js:25 | A non-finite argument gives an invalid date. A valid result lies within TimeClip's range. |
| JsDate.SetMonthValue | front-end/src/utils/date-time.js:26 | An invalid date or a non-finite month gives an invalid date. A valid result lies within TimeClip's range. |
| JsDate.SetDateValue | front-end/src/utils/date-time.js:27 | An invalid date or a non-finite day gives an invalid date. A valid result lies within TimeClip's range. |
| DateTime.AsDateStringFields | front-end/src/utils/date-time.js:4-8 | asDateString prints the year unpadded and the month (getMonth() + 1) and the day padded to two digits. |
| DateTime.AsDateStringOfDay | front-end/src/utils/date-time.js:4-8 | For years 0..99999, asDateString of a valid local date is the text of its calendar date. |
| DateTime.AsDateString | front-end/src/utils/date-time.js:4-8 | An invalid date prints "NaN-NaN-NaN". |
| DateTime.SmallNumberText | front-end/src/utils/date-time.js:5-7 | toString(10) of a whole number up to 99999 is its decimal form. |
| DateTime.FourDigitYear | front-end/src/utils/date-time.js:5 | A year of 1000..9999 prints as four digits. |
| DateTime.DateTextIso | front-end/src/utils/date-time.js:1 | For years 1000..9999, the text of a date matches the date format, and its fields read back as the same date. |
| DateTime.IsoText | front-end/src/utils/date-time.js:4-8 | A YYYY-MM-DD string of a year 1000..9999 is the text of the date it names. |
| DateTime.PadDigits | front-end/src/utils/date-time.js:6-7 | Padding the decimal form of a digit string's value back to the string's length gives the string. |
| DateTime.MatchOrThrow | front-end/src/utils/date-time.js:10-16 | `match(p)[0]` is the leftmost match of the pattern's width. Without a match it is the TypeError of reading [0] of null. |
| DateTime.FormatAsDate | front-end/src/utils/date-time.js:10-12 | Defined iff the input contains YYYY-MM-DD somewhere. The result is the leftmost such 10-character slice, which itself has the format. |
| DateTime.FormatAsTime | front-end/src/utils/date-time.js:14-16 | Defined iff the input contains HH:MM somewhere. The result is the leftmost such 5-character slice, which itself has the format. |
| DateTime.FormatIdempotent | front-end/src/utils/date-time.js:10-16 | Applying formatAsDate or formatAsTime to its own result changes nothing. |
| DateTime.FormatLeadingFields | front-end/src/utils/date-time.js:10-16 | A string that starts with a date or a time gives its first 10 or 5 characters. |
| DateTime.MatchedSlice | front-end/src/utils/date-time.js:10-16 | A matched slice has the pattern's width and matches the pattern from its start. |
| DateTime.MatchAtStart | front-end/src/utils/date-time.js:10-16 | A string matching from its start yields its first width characters. |
| DateTime.SplitJoin | front-end/src/utils/date-time.js:23 | split loses nothing: the pieces joined by the separator give back the string, and no piece holds the separator. |
| DateTime.SplitIso | front-end/src/utils/date-time.js:23 | A YYYY-MM-DD string splits on "-" into its three fields. |
| DateTime.Split | front-end/src/utils/date-time.js:23 | split always yields at least one piece. |
| DateTime.SplitWithout | front-end/src/utils/date-time.js:23 | A string without the separator splits into itself alone. |
| DateTime.SplitAfter | front-end/src/utils/date-time.js:23 | Splitting a + sep + b gives a followed by the pieces of b, when a holds no separator. |
| DateTime.BuiltFields | front-end/src/utils/date-time.js:23-25 | The constructor receives the three fields as numbers, with the month lowered by one. |
| DateTime.Built | front-end/src/utils/date-time.js:23-25 | A string without "-" builds an invalid date. A valid result lies within TimeClip's range. |
| DateTime.BuiltIso | front-end/src/utils/date-time.js:23-25 | For years from 100 on, the constructed local date is the day the string names. |
| DateTime.BuiltTwoDigitYear | front-end/src/utils/date-time.js:23-25 | For years 0..99, it is the same day in 1900..1999, when that day exists in year 1900 + y. This leaves out "0000-02-29", since 1900 is not a leap year and `new Date(0, 1, 29)` is 1 March 1900. |
| DateTime.SetterStepsMove | front-end/src/utils/date-time.js:26-27 | The two setter steps move a local date by k days. |
| DateTime.SetterSteps | front-end/src/utils/date-time.js:26-27 | The two setters keep an invalid date invalid and any valid result within TimeClip's range. |
| DateTime.MovedBy | front-end/src/utils/date-time.js:22-38 | previous and next of a string without "-" give "NaN-NaN-NaN". |
| DateTime.MovedByDate | front-end/src/utils/date-time.js:22-38 | next and previous of a YYYY-MM-DD date of a year from 100 on give the text of the Gregorian day after or before it. |
| DateTime.MovedByTwoDigitYear | front-end/src/utils/date-time.js:22-38 | next and previous of a date of a year 0..99 give the neighbour of the same day in year 1900 + y, when that day exists. This leaves out "0000-02-29", whose built date is 1 March 1900. |
| DateTime.MovedFrom | front-end/src/utils/date-time.js:26-28 | For a valid date c of a year 1..9999, once the constructor has built local day c, the two setters and asDateString give the text of c's neighbour. |
| DateTime.NeighbourDay | front-end/src/utils/date-time.js:27 | The date of day number n + k is the calendar neighbour of the date of day number n. |
| DateTime.NextPreviousInverse | front-end/src/utils/date-time.js:22-38 | previous(next(d)) == d and next(previous(d)) == d, for dates whose neighbour keeps a four-digit year. |
| DateTime.NextAcrossYear | front-end/src/utils/date-time.js:31-38 | next("2023-12-31") is "2024-01-01". |
| DateTime.NextLeapDay | front-end/src/utils/date-time.js:31-38 | next("2024-02-28") is "2024-02-29". |
| DateTime.NextCommonYear | front-end/src/utils/date-time.js:31-38 | next("2023-02-28") is "2023-03-01". |
| DateTime.PreviousAcrossYear | front-end/src/utils/date-time.js:22-29 | previous("2024-01-01") is "2023-12-31". |
| DateTime.PreviousLeapDay | front-end/src/utils/date-time.js:22-29 | previous("2024-03-01") is "2024-02-29". |
| DateTime.Next | front-end/src/utils/date-time.js:31-38 | The method builds the Date, calls setMonth then setDate(+1), and gives the text of the following calendar day for an ISO date of a year from 100 on. |
| DateTime.Previous | front-end/src/utils/date-time.js:22-29 | The method does the same with setDate(-1) and gives the preceding calendar day. |
| DateTime.Slice | front-end/src/utils/date-time.js:57-59 | slice clamps both ends to the string and returns the ordinary slice when they fit. |
| DateTime.MonthsTable | front-end/src/utils/date-time.js:42-55 | The month table holds exactly the keys "1".."12", with the English month names in order. |
| DateTime.MonthOf | front-end/src/utils/date-time.js:42-57 | The month is always a month name from the table or undefined. A NaN or infinite number gives undefined. |
| DateTime.MonthText | front-end/src/utils/date-time.js:57 | The month name printed for 1..12 is the English name. For any other number it is "undefined". |
| DateTime.IsoMonthNumber | front-end/src/utils/date-time.js:57 | The month field of a YYYY-MM-DD string converts to the Number of its two digits. |
| DateTime.IsoDayYearText | front-end/src/utils/date-time.js:58-59 | The day and year fields print as the decimal forms of their values. |
| DateTime.NoLeadingZero | front-end/src/utils/date-time.js:58-59 | A digit string without a leading zero reads and prints back as itself. |
| DateTime.FormatDateOfIso | front-end/src/utils/date-time.js:41-62 | For a string starting YYYY-MM-DD, the result is the month name (or "undefined"), the day and the year, all as decimal numbers without leading zeros. |
| DateTime.FormatDateCopies | front-end/src/utils/date-time.js:41-62 | When neither the year nor the day starts with 0, they are copied as written. |
| DateTime.ClockFaceOfTime | front-end/src/utils/date-time.js:64-73 | For a time starting HH:MM, hours before 12 keep their two characters with AM. 12 stays 12 with PM. Later hours print hour - 12 unpadded with PM. The minutes are copied. |
| DateTime.HourCases | front-end/src/utils/date-time.js:68-70 | The comparisons with 12 on a whole hour are the integer ones, and what is printed for it. |
| DateTime.ClockHour | front-end/src/utils/date-time.js:65 | On HH:MM, `time[0] + time[1]` is the two-digit text, whose Number is its value, below 100. |
| DateTime.ClockFaceMidnight | front-end/src/utils/date-time.js:64-73 | "00:15" gives "00:15 AM". |
| DateTime.ClockFaceNoon | front-end/src/utils/date-time.js:64-73 | Noon keeps 12 and is PM. |
| DateTime.ClockFaceEvening | front-end/src/utils/date-time.js:64-73 | An evening hour is printed minus 12, unpadded. |
| DateTime.FormatTime | front-end/src/utils/date-time.js:64-73 | The method that reassigns hour and meridiem computes what formatTime returns, and its twelve-hour form on HH:MM. |
| DateTime.DigitsOnly | front-end/src/utils/date-time.js:76 | The result holds only digits and is no longer than the input. |
| DateTime.DigitsOnlyChar | front-end/src/utils/date-time.js:76 | A single character is kept iff it is a digit. With DigitsOnlyConcat, the result is the input's digits in order. |
| DateTime.DigitsOnlyCounts | front-end/src/utils/date-time.js:76 | Every digit occurs in the result as often as in the input. |
| DateTime.DigitsOnlyOfDigits | front-end/src/utils/date-time.js:76 | Cleaning a digit string changes nothing. |
| DateTime.DigitsOnlyConcat | front-end/src/utils/date-time.js:76 | Cleaning distributes over concatenation. |
| DateTime.DigitsOnlyDashed | front-end/src/utils/date-time.js:76 | Dashes between digit groups are dropped. |
| DateTime.DropDash | front-end/src/utils/date-time.js:76 | Removing non-digits drops a dash between two parts. |
| DateTime.PhoneMatch | front-end/src/utils/date-time.js:77 | A match has the pattern's shape, its groups are digits, and its groups put back together give the subject. There is no match iff no shape fits. |
| DateTime.FitsUnique | front-end/src/utils/date-time.js:77 | A subject fits at most one of the pattern's four shapes. |
| DateTime.PhoneLayouts | front-end/src/utils/date-time.js:77-81 | 10, 11 (leading 1), 7 and 8 (leading 1) digits give their layouts. Any other digit string has no match. |
| DateTime.FormatPhoneCases | front-end/src/utils/date-time.js:75-84 | The result is (AAA)BBB-CCCC for 10 digits, +1 (AAA)BBB-CCCC for 11 with a leading 1, BBB-CCCC for 7, +1 BBB-CCCC for 8 with a leading 1, and otherwise the argument unchanged. |
| DateTime.FormatPhoneDigitsOnly | front-end/src/utils/date-time.js:75-84 | Inputs with the same matching digits format alike. |
| DateTime.PhoneTextDigits | front-end/src/utils/date-time.js:79-81 | The digits of a formatted number are its groups in order, after the 1 of "+1 ". |
| DateTime.FormatPhone | front-end/src/utils/date-time.js:75-84 | A number that fits no layout is returned unchanged. A formatted number keeps exactly the digits it was made from. |
| DateTime.FormatPhoneIdempotent | front-end/src/utils/date-time.js:75-84 | Formatting a formatted number changes nothing. |
| DateTime.FormatPhoneDashed | front-end/src/utils/date-time.js:75-84 | A number written AAA-BBB-CCCC becomes (AAA)BBB-CCCC. |
| DateTime.FormatPhoneExample | front-end/src/utils/date-time.js:75-84 | "555-123-4567" becomes "(555)123-4567". |
| ReservationForm.Stored | front-end/src/dashboard/ReservationForm.js:25-26 | A number input stores Number(value). Any other input stores the text. |
| ReservationForm.HandleChange | front-end/src/dashboard/ReservationForm.js:24-31 | The change sets the target's field to the stored value and keeps every other field and no new one. |
| ReservationForm.LastChangeWins | front-end/src/dashboard/ReservationForm.js:24-31 | Of two changes to the same input, the later one decides. |
| ReservationForm.ChangesCommute | front-end/src/dashboard/ReservationForm.js:24-31 | Changes to two different inputs commute. |
| ReservationForm.ChangeIdempotent | front-end/src/dashboard/ReservationForm.js:24-31 | Repeating a change changes nothing more. |
| ReservationForm.ChangesKeepFields | front-end/src/dashboard/ReservationForm.js:24-31 | No sequence of changes loses one of the six fields. |
| ReservationForm.FieldsAfterChanges | front-end/src/dashboard/ReservationForm.js:14-22 | A new form still has all six fields after any changes. |
| ReservationForm.LoadedForm | front-end/src/dashboard/ReservationForm.js:37-40 | The loaded form keeps every property of the record and cuts a string reservation_date to its first ten characters. It is None (the load throws) when there is no object or no date with a slice method. |
| ReservationForm.LoadIdempotent | front-end/src/dashboard/ReservationForm.js:37-40 | Loading a loaded form again changes nothing. |
| ReservationForm.LoadAgreesWithFormatAsDate | front-end/src/dashboard/ReservationForm.js:39 | For a stored date starting YYYY-MM-DD, the loaded date is what formatAsDate extracts. |
| ReservationForm.RemoveFirst | front-end/src/dashboard/ReservationForm.js:56 | replace(":", "") leaves a string without a colon as it is and otherwise removes exactly one character. |
| ReservationForm.RemoveFirstAt | front-end/src/dashboard/ReservationForm.js:56 | It removes the first colon, joining the two sides. |
| ReservationForm.SubmitCheck | front-end/src/dashboard/ReservationForm.js:53-60 | The checks run in order. A Tuesday gives its message, then a past date gives its message. Then a non-string time throws a TypeError. Then the time is refused with the hours message iff its number is below 1030 or above 2130. |
| ReservationForm.ClientClockValue | front-end/src/dashboard/ReservationForm.js:56 | For exactly HH:MM, the client's number is 100·HH + MM. |
| ReservationForm.ClientServerAgreement | front-end/src/dashboard/ReservationForm.js:56-57 | For every HH:MM, the client's hours test refuses exactly the times the server's validTime hours tests refuse. |
| ReservationForm.ClientPassesSeconds | front-end/src/dashboard/ReservationForm.js:56-57 | A time with seconds (HH:MM:SS) converts to NaN and passes the client's hours test, whatever the hour. |
| ReservationForm.EmptyTimeRefused | front-end/src/dashboard/ReservationForm.js:56-57 | An empty time is the number 0 and is refused. |
| ReservationForm.RejectionAlert | front-end/src/dashboard/ReservationForm.js:69-70 | A rejected request shows the server's error when a response came back, its own message otherwise. |
| ReservationForm.CallOf | front-end/src/dashboard/ReservationForm.js:61-65 | The Edit form, and only it, sends an update, to its reservation id. Either request carries the form unchanged. |
| ReservationForm.FormState.constructor | front-end/src/dashboard/ReservationForm.js:13-22 | The form starts in the initial state (five empty strings and one guest) with no alert, no navigation and no request. |
| ReservationForm.FormState.Change | front-end/src/dashboard/ReservationForm.js:24-31 | The form becomes the handleChange copy. Nothing else changes. |
| ReservationForm.FormState.Load | front-end/src/dashboard/ReservationForm.js:33-44 | The form becomes the loaded form, or stays as it was when loading throws. |
| ReservationForm.FormState.HandleSubmit | front-end/src/dashboard/ReservationForm.js:46-71 | A failed check shows its alert and sends nothing. Otherwise exactly one create or update request (Edit) is sent with the form. On success, the form resets to the initial state and the dashboard of the submitted date is opened. On rejection, the alert is shown and the form is kept. |
| ReservationForm.ResetFormRefused | front-end/src/dashboard/ReservationForm.js:66 | A form freshly reset is refused by the checks: its empty time is outside the hours. |

## Left out

- Numbers are exact decimals. IEEE-754 rounding is not modelled; the code
  only compares and prints small integers.
- Strings are sequences of code points, not UTF-16 code units. The
  comparison of two strings uses the same order for the characters the
  code compares.
- `new Date(string)` is modelled for the date-only `YYYY-MM-DD` form
  alone. The date-time forms and the expanded-year forms of the date time
  string format (ECMA-262 section 21.4.1.32), and every other string, are
  not modelled: their time value is the parameter `otherwise`.
- The form's `new Date("date time")` is not modelled because it is parsed
  in local time. The weekday and "before now" of the parsed date are
  parameters.
- Local time zones and daylight saving are not modelled. Local dates are
  counted like UTC dates.
- `new Date()` in validDate, validTime and handleSubmit, and `today()`,
  read the wall clock. They become time-value parameters, and `today` is
  not modelled separately.
- The persistence service calls and the handlers' responses are left out
  because they are foreign asynchronous I/O. The service's `read` is a
  lookup in a map parameter.
- asyncErrorBoundary is not part of this model. A thrown TypeError is
  recorded as a `Thrown` failure carrying a description of the failed
  access, not the engine's own message text.
- The alert's TypeError text is engine-defined, so it is modelled as
  `TypeErrorAlert` alone.
- The request functions of the client's API module are not part of this
  model. A request's outcome is a parameter of `HandleSubmit`.
- An unhandled rejection of `readReservation` in the Edit page's load is
  not modelled.
- React rendering, JSX, routing, `history.push` beyond the recorded path,
  and the display of `ErrorAlert` are not modelled.
- Dashboard.js, FindByNumber.js and Layout.js are not modelled: they are
  fetch plumbing and layout. Their date navigation only calls `today`,
  `next` and `previous`.
- DateTime.NextPreviousInverse: stated only for dates whose neighbour keeps
  a four-digit year. asDateString does not pad the year, so for years
  below 1000 the text changes and the inverse does not hold. This also
  leaves out two dates where the inverse does hold: "9999-12-31", whose
  next is "10000-01-01", and "1000-01-01", whose previous is "999-12-31".
  Neither neighbour has the YYYY-MM-DD form, and MovedByDate is stated only
  for that form.
- JsValues.ToPrimitive: an object is converted as though it had no own
  `valueOf` or `toString` key. A parsed JSON object can have such a key,
  for example `{"toString": 1}`. OrdinaryToPrimitive (ECMA-262 section
  7.1.1.1) then calls that key or, when it is not a function, throws a
  TypeError. The model instead gives "[object Object]", for objects inside
  arrays too.
- ReservationsController.ValidTime: a `current_time` object whose own keys
  shadow Object.prototype's `valueOf` or `toString` is not modelled. The
  comparison at reservations.controller.js line 82 throws for such an
  object, but the model compares "[object Object]", so a throw from that
  comparison is not one of the outcomes that ValidTime's contract covers.
- DateTime.MovedByDate: stated for years from 100 on. Years 0..99 are
  covered separately by DateTime.MovedByTwoDigitYear.
- DateTime.MovedByTwoDigitYear: not stated for "0000-02-29". That day exists
  in year 0 but not in 1900, so the constructor rolls it over to 1 March 1900
  and next and previous move from there. DateTime.BuiltTwoDigitYear leaves
  out the same day.
- ReservationsController.ValidDatePolicy: stated for YYYY-MM-DD dates and
  clock readings in years 0..9999. For other strings the parse is a
  parameter.
- ReservationsController.ValidTimePolicy: stated for times starting HH:MM.
  Other matching times, with HH:MM later in the string, are covered by
  ReservationsController.NaNHourPassesHours for a leading letter.
