# Appointment client: booking window and session state

A Dafny model of the rule-bearing core of a browser client for an appointment
scheduling service:

- **Booking handler** (`Booking`, `TimeText`): the ordered client-side checks
  run when the user presses "Book Appointment". In order, they reject a missing
  date or time, a start not in the future, and a start inside the 30-minute
  cutoff. When all pass, the handler posts `{providerId, start, end = start + 60 min}`.
  A 409 reply is reported as "already booked" and any other failure as the
  generic failure. The model also covers the "today only" minimum of the time
  picker. Instants are integer milliseconds since the Unix epoch. The current
  instant and the local zone offset are parameters. The chosen date is the day
  number its "YYYY-MM-DD" text names, or none when the text is not a date.
  The checks (`Validate`, `Book`) take the composed start instant as input.
  `StartOf` composes it as the program does. `IntendedStartOf` composes it on
  the chosen local date (see "## Findings").
- **Session state** (`Session`): the authentication provider's
  `(user, token, loading)` state. It sits over a two-slot durable store
  (`"token"`, `"user"`). The model covers startup restoration (a corrupt stored
  user degrades to no user), write-through persistence effects, login and
  register with their success and failure transitions, and logout. The
  server is a parameter that maps the posted request to its reply. JSON for
  the stored user is a `UserCodec` parameter: `parse` is partial and
  `stringify` is total.
- **Bearer interceptor** (`Interceptor`): the request interceptor that adds
  `Authorization: Bearer <token>` to the configuration when the stored token
  is truthy.

The central facts proved:

- `Validate` is characterised exactly, for any composed start. It returns
  missing-input iff a field is empty, invalid-start iff the fields compose to
  no instant, and past-time iff the start is at or before now. It accepts iff
  the start is in the booking window (`now <= start - 30 min`). An accepted
  request has `end = start + 60 min` and the route's provider id.
- `Book` posts only an accepted request and reports the server's answer through `Report`.
- The cutoff is inclusive (`CutoffBoundary`).
- As written, the time picker's minimum never hides a time the handler would accept (`TimeMinAgreesWithPastCheck`).
- Write-through makes a reload restore the session (`ReloadRestores`).
- Logout is idempotent.
- Outbound requests carry exactly the session's token (`CarriesSessionToken`).

Two points where the code is looser than one might expect, and the model follows the code:
- A failed login or register leaves any earlier user and token in place. It
  does not reset the session to anonymous.
- Startup restores the two slots independently. The code never enforces
  "user present iff token present", so the model does not claim it.

## Model

| member | source | states |
|---|---|---|
| TimeText.Split | src/pages/BookAppointment.tsx:42 | splitting on ":" gives at least one piece, no piece holds a ":", and the pieces join back to the input |
| TimeText.SplitJoin | src/pages/BookAppointment.tsx:42 | splitting undoes joining for separator-free pieces, so the split is the unique such decomposition |
| TimeText.NumberOf | src/pages/BookAppointment.tsx:42 | `Number` of a piece is defined exactly when the piece is all digits; "" converts to 0, and a non-empty digit string converts to ten times the value of its prefix plus its last digit |
| TimeText.NumberOfDecimalText | src/pages/BookAppointment.tsx:42 | every number's decimal digits convert back to that number |
| TimeText.ParseTime | src/pages/BookAppointment.tsx:42 | hours and minutes are `Number` of the first two ":"-pieces; a missing second piece or a non-numeric piece yields no clock |
| TimeText.FormatClock | src/pages/BookAppointment.tsx:125 | the picker minimum is five characters, "HH:MM", digits around a colon |
| TimeText.ParseFormat | src/pages/BookAppointment.tsx:123-127 | the handler's parser reads a formatted "HH:MM" back as the same clock |
| Booking.LocalClock | src/pages/BookAppointment.tsx:125 | the local clock of `now` is a valid clock and is `now` truncated to the minute within its local day |
| Booking.ComposeStartAsWritten | src/pages/BookAppointment.tsx:43-44 | as written, the start sits on a whole local minute (seconds and milliseconds zero); for a valid clock it reads as the chosen clock on the local day containing UTC midnight of the chosen date |
| Booking.ComposeStart | src/pages/BookAppointment.tsx:43-44 | intended: the start sits on a whole local minute (seconds and milliseconds zero); for a valid clock it lies on the chosen local day and reads as the chosen clock |
| Booking.StartOf | src/pages/BookAppointment.tsx:42-44 | the handler's start exists exactly when the time parses and the date names a day (otherwise `Invalid Date`), and is then the as-written composition of the parsed clock |
| Booking.IntendedStartOf | src/pages/BookAppointment.tsx:42-44 | the same, with the intended composition on the chosen local day |
| Booking.Validate | src/pages/BookAppointment.tsx:35-73 | for a composed start: missing input iff a field is empty; invalid start iff there is no start; past time iff start <= now; too late iff now < start and now > start - 30 min; accepted iff start is in the booking window; an accepted request keeps the provider id, has end = start + 60 min and start >= now + 30 min > now |
| Booking.Report | src/pages/BookAppointment.tsx:76-83 | a 409 response is "already booked"; every other failure, including one with no response, is the generic failure |
| Booking.Book | src/pages/BookAppointment.tsx:35-84 | a request is posted iff validation accepted, and it is the accepted request; a posted request is reported as `Report` reads the server's reply; each rejection returns its reason before any post; an invalid start is the generic failure with no post |
| Booking.CutoffBoundary | src/pages/BookAppointment.tsx:55-64 | for any start, booking exactly at start - 30 min is accepted and one millisecond later is too late |
| Booking.PastTimeWinsOverCutoff | src/pages/BookAppointment.tsx:49-64 | a start at or before now is outside the window, yet it is reported as past time, because that check runs first |
| Booking.TimeMin | src/pages/BookAppointment.tsx:123-127 | as written, the picker has a minimum exactly when the chosen date is the UTC date of now (line 91 with line 15), and that minimum reads back as the current local clock |
| Booking.TimeMinAgreesWithPastCheck | src/pages/BookAppointment.tsx:123-127 | as written, on the UTC today the minimum is shown, and any clock at or before it composes (as `StartOf` does) to an instant at or before now and is rejected as past time, for every zone offset |
| Booking.IntendedTimeMin | src/pages/BookAppointment.tsx:123-127 | intended: the picker has a minimum exactly on the local today, and it reads back as the current local clock |
| Booking.IntendedTimeMinAgreesWithPastCheck | src/pages/BookAppointment.tsx:123-127 | on the local today the intended minimum is shown, and any clock at or before it, composed as intended, is rejected as past time |
| Booking.AsWrittenStartShift | src/pages/BookAppointment.tsx:43-44 | as written, the composed start is one day early west of UTC and correct at or east of UTC |
| Booking.AsWrittenStartWrongDay | src/pages/BookAppointment.tsx:43-44 | at UTC-5, 2025-03-10 10:00 composes to a start on 2025-03-09 as written, and on 2025-03-10 as intended |
| Booking.AsWrittenRefusesBookable | src/pages/BookAppointment.tsx:43-52 | at UTC-5 at 08:00 local on 2025-03-10, booking that day at 10:00 is rejected as past by the program, and accepted with the intended start |
| Booking.HalfFixHidesBookable | src/pages/BookAppointment.tsx:91 | with the intended composition but the UTC "today", a 21:00 minimum lands on a local date where 10:00 is bookable, so the picker must be fixed together with the composition |
| Session.WriteToken | src/context/AuthContext.tsx:43-46 | a truthy token is stored under "token", and otherwise the key is removed; no other key changes |
| Session.WriteUser | src/context/AuthContext.tsx:48-51 | a user is stored as its JSON under "user", and no user removes the key; no other key changes |
| Session.Effects | src/context/AuthContext.tsx:43-51 | effects that fire on change keep the store in step with the session, and change nothing when neither slot changed |
| Session.RestoreToken | src/context/AuthContext.tsx:40 | the restored token is null iff the stored token is absent or empty, and otherwise it is the stored text |
| Session.RestoreUser | src/context/AuthContext.tsx:32-38 | an absent or empty slot restores no user; an unparsable slot restores no user without failing; a restored user is what the stored text parses to |
| Session.Mount | src/context/AuthContext.tsx:32-51 | startup restores both slots independently with loading false, and leaves the store in step with the session |
| Session.ErrorMessage | src/context/AuthContext.tsx:65 | the error is the server's message when it is non-empty, and otherwise the transport message |
| Session.Authenticate | src/context/AuthContext.tsx:53-67 | loading is true while in flight and false after; on success token and user are the reply's, the result is ok and the UI is redirected; on failure token, user and store are unchanged and the result carries the error message; the store stays in step |
| Session.Login | src/context/AuthContext.tsx:53-67 | login posts the email and password to the login endpoint and then follows the shared success/failure contract |
| Session.Register | src/context/AuthContext.tsx:69-83 | register posts the supplied profile, unchanged, to the register endpoint and then follows the same contract as login |
| Session.Logout | src/context/AuthContext.tsx:87-93 | logout sets user and token to null, removes both keys, leaves every other key and loading as they were, and redirects to the login page |
| Session.LogoutIdempotent | src/context/AuthContext.tsx:87-93 | logging out twice gives the same state as logging out once |
| Session.CorruptUserDegrades | src/context/AuthContext.tsx:32-38 | a corrupt stored user yields a session with no user, the corrupt text is dropped from the store, and the token is restored independently |
| Session.ReloadRestores | src/context/AuthContext.tsx:32-51 | a remount on a store in step with a session restores that user and (truthy) token, with loading false and the store unchanged |
| Session.LoginSurvivesReload | src/context/AuthContext.tsx:56-62 | after a successful login with a non-empty token, a reload restores exactly the granted session |
| Interceptor.Intercept | src/api/axios.ts:8-18 | with a truthy stored token the config gains Authorization = "Bearer " + token, a missing headers object is created, other headers and all other settings are kept; otherwise the config is returned unchanged |
| Interceptor.CarriesSessionToken | src/api/axios.ts:9-14 | while the store is in step with the session, the header is the bearer form of the session token exactly when that token is truthy |
| Interceptor.AnonymousAfterLogout | src/api/axios.ts:12-17 | after logout no Authorization header is added |

## Left out

- Rendering, markup, toast messages and the preview line are left out because they are presentation. Navigation is kept only as the redirect route a transition reports.
- Fetching the provider and the HTTP client setup (base URL) are left out. They are network plumbing. Server replies are inputs.
- The date picker's own minimum (`min={today}` on the date input) is not modelled. Only the time picker's minimum is.
- Overlapping, un-awaited logins are not modelled. Each transition is atomic, and callers are expected to serialise on `loading`.
- `useAuth` throwing outside the provider is not modelled, and neither is the login form component. Both are UI plumbing.
- Booking.ComposeStart: the local zone is a fixed offset, because daylight-saving transitions depend on the platform's zone database.
- Booking.ComposeStartAsWritten: the same fixed offset is used for the as-written composition.
- TimeText.NumberOf: only digit strings are read. `Number`'s whitespace, sign, decimal-point, exponent and hexadecimal forms are NaN here. The time input only produces "HH:MM" text.
- Booking.Validate: instants are unbounded integers. The platform's ±8.64e15 ms range, beyond which a date is invalid, is not modelled.
- Booking.Validate: the posted start and end are millisecond instants, not ISO-8601 strings, because formatting is a presentation detail.
- Session.RestoreUser: a stored JSON value that is not an object or null (`false`, `0`, `42`) is folded into the codec's `Option<User>` result. The model does not track its JavaScript truthiness.
- Session.Effects: React compares effect dependencies by identity, and the model compares them by value. The two agree whenever the store is in step with the session, which every transition preserves.
- Interceptor.Intercept: header names are compared exactly. The HTTP client's case-insensitive header object is not modelled.

## Findings

| source | as written | input that shows it | evidently intended | confidence | as-written member | corrected member |
|---|---|---|---|---|---|---|
| src/pages/BookAppointment.tsx:43-44 | `new Date(date)` reads "YYYY-MM-DD" as UTC midnight, and `setHours` then sets the local clock on the local day of that instant | zone UTC-5, date 2025-03-10, time 10:00, at 08:00 local that day: the start is 2025-03-09 10:00 local, and the booking is refused as past | the chosen time on the chosen local date, as the preview at line 149 shows it; the picker's "today" (lines 15, 91) must then become the local date as well, or its minimum would cover bookable times | high on the mechanism; not executed | Booking.AsWrittenRefusesBookable | Booking.ComposeStart |
