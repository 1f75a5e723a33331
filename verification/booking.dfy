/** The booking handler of the appointment page: an ordered decision over the
    chosen date, the chosen time and the current instant, the request it posts
    when every check passes, and how the server's answer is reported. Also the
    "today only" minimum of the time picker.

    Instants are integer milliseconds since the Unix epoch (UTC). The local
    time zone is a fixed offset: local wall-clock time = UTC + `offset`. */
module Booking {
  import opened Common
  import opened TimeText

  const MINUTE_MS: int := 60 * 1000
  const HOUR_MS: int := 60 * MINUTE_MS
  const DAY_MS: int := 24 * HOUR_MS
  /** Bookings close this long before the appointment starts. */
  const CUTOFF_MS: int := 30 * MINUTE_MS
  /** Every appointment lasts exactly this long. */
  const DURATION_MS: int := 60 * MINUTE_MS
  /** The HTTP status the server uses for "slot already taken". */
  const CONFLICT: int := 409

  /** The body of `POST /appointment`. */
  datatype BookingRequest = BookingRequest(providerId: string, start: int, end: int)

  /** Why the handler refused before contacting the server. */
  datatype Reason = MissingInput | PastTime | TooLate

  /** The client-side decision. `InvalidStart` is the case where the date or the
      time does not compose into a valid instant (`Invalid Date`). */
  datatype Verdict = Accepted(request: BookingRequest) | Rejected(reason: Reason) | InvalidStart

  /** The server's answer to the post: success, or an error carrying the
      response status when there was a response at all. */
  datatype Reply = Created | Failure(status: Option<int>)

  /** What the user is told. */
  datatype Outcome = Booked | AlreadyBooked | BookingFailed | Refused(reason: Reason)

  /** What one press of "Book Appointment" did: the request it posted, if any,
      and the outcome reported. */
  datatype Attempt = Attempt(posted: Option<BookingRequest>, outcome: Outcome)

  // ---------------------------------------------------------------------------
  // Local calendar arithmetic

  /** The local calendar day (days since the epoch) that instant `t` falls on. */
  function LocalDay(t: int, offset: int): int
  {
    (t + offset) / DAY_MS
  }

  /** The instant of local midnight starting local day `day`. */
  function LocalMidnight(day: int, offset: int): int
  {
    day * DAY_MS - offset
  }

  /** What `setHours(hours, minutes, 0, 0)` adds to midnight. */
  function ClockMs(c: Clock): int
  {
    c.hours * HOUR_MS + c.minutes * MINUTE_MS
  }

  /** The local wall-clock reading of instant `now`, to the minute, as
      `toTimeString().slice(0, 5)` shows it. */
  function LocalClock(now: int, offset: int): (c: Clock)
    ensures c.Valid()
    ensures LocalMidnight(LocalDay(now, offset), offset) + ClockMs(c) <= now
    ensures now < LocalMidnight(LocalDay(now, offset), offset) + ClockMs(c) + MINUTE_MS
  {
    var t := (now + offset) % DAY_MS;
    assert now + offset == LocalDay(now, offset) * DAY_MS + t;
    var c := Clock(t / HOUR_MS, (t % HOUR_MS) / MINUTE_MS);
    assert t == c.hours * HOUR_MS + (t % HOUR_MS);
    assert t % HOUR_MS == c.minutes * MINUTE_MS + (t % HOUR_MS) % MINUTE_MS;
    c
  }

  /** Euclidean division is determined by quotient and remainder bounds. */
  lemma DivModUnique(x: int, d: int, q: int, r: int)
    requires d > 0 && 0 <= r < d && x == q * d + r
    ensures x / d == q && x % d == r
  {
    var q', r' := x / d, x % d;
    assert (q' - q) * d == q' * d - q * d;
    assert (q - q') * d == q * d - q' * d;
    MulAtLeast(q' - q, d);
    MulAtLeast(q - q', d);
  }

  lemma MulAtLeast(a: int, d: int)
    requires d > 0
    ensures a >= 1 ==> a * d >= d
  {
  }

  /** Local days are ordered as the instants in them are. */
  lemma LocalDayMonotone(s: int, t: int, offset: int)
    requires s <= t
    ensures LocalDay(s, offset) <= LocalDay(t, offset)
  {
    var a, b := LocalDay(s, offset), LocalDay(t, offset);
    DivModUnique(s + offset, DAY_MS, a, (s + offset) % DAY_MS);
    DivModUnique(t + offset, DAY_MS, b, (t + offset) % DAY_MS);
    MulAtLeast(a - b, DAY_MS);
    assert (a - b) * DAY_MS == a * DAY_MS - b * DAY_MS;
  }

  /** Setting the clock of a local day: the instant read as that day's local
      midnight plus the clock. It sits on a whole local minute, and for a
      valid clock it lies on that local day and reads as that clock. */
  lemma LocalClockOfComposed(day: int, offset: int, c: Clock)
    ensures (LocalMidnight(day, offset) + ClockMs(c) + offset) % MINUTE_MS == 0
    ensures c.Valid() ==> LocalDay(LocalMidnight(day, offset) + ClockMs(c), offset) == day
    ensures c.Valid() ==> LocalClock(LocalMidnight(day, offset) + ClockMs(c), offset) == c
  {
    var t := LocalMidnight(day, offset) + ClockMs(c);
    var k := ClockMs(c);
    assert t + offset == (day * 1440 + c.MinuteOfDay()) * MINUTE_MS;
    DivModUnique(t + offset, MINUTE_MS, day * 1440 + c.MinuteOfDay(), 0);
    if c.Valid() {
      assert 0 <= k < DAY_MS;
      assert t + offset == day * DAY_MS + k;
      DivModUnique(t + offset, DAY_MS, day, k);
      DivModUnique(k, HOUR_MS, c.hours, c.minutes * MINUTE_MS);
      DivModUnique(c.minutes * MINUTE_MS, MINUTE_MS, c.minutes, 0);
    }
  }

  // ---------------------------------------------------------------------------
  // Composing the start instant from the date and time fields

  /** AS WRITTEN: `new Date(date)` reads "YYYY-MM-DD" as UTC midnight of `day`,
      and `setHours(hours, minutes, 0, 0)` then sets the clock on whatever
      LOCAL day that instant falls on. */
  function ComposeStartAsWritten(day: int, offset: int, c: Clock): (start: int)
    ensures (start + offset) % MINUTE_MS == 0
    ensures c.Valid() ==> LocalDay(start, offset) == LocalDay(day * DAY_MS, offset)
    ensures c.Valid() ==> LocalClock(start, offset) == c
  {
    LocalClockOfComposed(LocalDay(day * DAY_MS, offset), offset, c);
    LocalMidnight(LocalDay(day * DAY_MS, offset), offset) + ClockMs(c)
  }

  /** INTENDED: the chosen clock time on the chosen local day. */
  function ComposeStart(day: int, offset: int, c: Clock): (start: int)
    ensures (start + offset) % MINUTE_MS == 0
    ensures c.Valid() ==> LocalDay(start, offset) == day
    ensures c.Valid() ==> LocalClock(start, offset) == c
  {
    LocalClockOfComposed(day, offset, c);
    LocalMidnight(day, offset) + ClockMs(c)
  }

  /** The start instant the handler composes from the time text and the chosen
      date, as written, or None when it is `Invalid Date` (the time has a NaN
      component, or `day`, the day number the "YYYY-MM-DD" text names, is
      None). */
  function StartOf(time: string, day: Option<int>, offset: int): (r: Option<int>)
    ensures r.Some? <==> ParseTime(time).Some? && day.Some?
    ensures r.Some? ==> r.value == ComposeStartAsWritten(day.value, offset, ParseTime(time).value)
  {
    match (ParseTime(time), day)
    case (Some(c), Some(d)) => Some(ComposeStartAsWritten(d, offset, c))
    case _ => None
  }

  /** The start instant composed as intended: on the chosen local day. */
  function IntendedStartOf(time: string, day: Option<int>, offset: int): (r: Option<int>)
    ensures r.Some? <==> ParseTime(time).Some? && day.Some?
    ensures r.Some? ==> r.value == ComposeStart(day.value, offset, ParseTime(time).value)
  {
    match (ParseTime(time), day)
    case (Some(c), Some(d)) => Some(ComposeStart(d, offset, c))
    case _ => None
  }

  /** The booking window: at `now` a booking for `start` may still be made,
      that is, `now` is at or before `start` minus the cutoff. */
  predicate InWindow(start: int, now: int)
  {
    now <= start - CUTOFF_MS
  }

  // ---------------------------------------------------------------------------
  // The handler

  /** The client-side checks of the booking handler, first failing check wins:
      empty field, then a start not after `now`, then a start inside the
      cutoff; otherwise the request to post. `start` is the instant composed
      from the two fields (`StartOf` as the program does it), None for
      `Invalid Date`. */
  function Validate(providerId: string, date: string, time: string,
                    start: Option<int>, now: int): (v: Verdict)
    ensures v == Rejected(MissingInput) <==> date == "" || time == ""
    ensures v == InvalidStart <==> date != "" && time != "" && start.None?
    ensures v == Rejected(PastTime) <==>
              date != "" && time != "" && start.Some? && start.value <= now
    ensures v == Rejected(TooLate) <==>
              date != "" && time != "" && start.Some? && now < start.value && !InWindow(start.value, now)
    ensures v.Accepted? <==>
              date != "" && time != "" && start.Some? && InWindow(start.value, now)
    ensures v.Accepted? ==>
              && v.request.providerId == providerId
              && v.request.start == start.value
              && v.request.end == v.request.start + DURATION_MS
              && v.request.start >= now + CUTOFF_MS
              && v.request.start > now
  {
    if date == "" || time == "" then Rejected(MissingInput)
    else
      match start
      case None => InvalidStart
      case Some(start) =>
        if start <= now then Rejected(PastTime)
        else
          var cutoff := start - CUTOFF_MS;
          if now > cutoff then Rejected(TooLate)
          else Accepted(BookingRequest(providerId, start, start + DURATION_MS))
  }

  /** How the handler reports the server's answer to a post. */
  function Report(reply: Reply): (o: Outcome)
    ensures o == Booked <==> reply == Created
    ensures o == AlreadyBooked <==> reply == Failure(Some(CONFLICT))
    ensures o == BookingFailed <==> reply.Failure? && reply.status != Some(CONFLICT)
  {
    match reply
    case Created => Booked
    case Failure(status) => if status == Some(CONFLICT) then AlreadyBooked else BookingFailed
  }

  /** One press of "Book Appointment", given the composed start. The server is
      a parameter: it is asked only with the request `Validate` accepted. An
      `InvalidStart` ends in the generic failure without a post, because
      building the request body throws inside the handler's `try`. */
  function Book(providerId: string, date: string, time: string, start: Option<int>, now: int,
                server: BookingRequest -> Reply): (a: Attempt)
    ensures a.posted.Some? <==> Validate(providerId, date, time, start, now).Accepted?
    ensures a.posted.Some? ==> a.posted.value == Validate(providerId, date, time, start, now).request
    ensures a.posted.Some? ==> a.outcome == Report(server(a.posted.value))
    ensures a.posted.None? ==> a.outcome != Booked && a.outcome != AlreadyBooked
    ensures a.outcome == Refused(MissingInput) <==> date == "" || time == ""
    ensures Validate(providerId, date, time, start, now).Rejected? ==>
              a == Attempt(None, Refused(Validate(providerId, date, time, start, now).reason))
    ensures Validate(providerId, date, time, start, now) == InvalidStart ==> a == Attempt(None, BookingFailed)
  {
    match Validate(providerId, date, time, start, now)
    case Rejected(reason) => Attempt(None, Refused(reason))
    case InvalidStart => Attempt(None, BookingFailed)
    case Accepted(request) => Attempt(Some(request), Report(server(request)))
  }

  /** The cutoff is inclusive: booking exactly at the cutoff moment is allowed,
      one millisecond later is not. */
  lemma CutoffBoundary(providerId: string, date: string, time: string, start: int)
    requires date != "" && time != ""
    ensures Validate(providerId, date, time, Some(start), start - CUTOFF_MS).Accepted?
    ensures Validate(providerId, date, time, Some(start), start - CUTOFF_MS + 1) == Rejected(TooLate)
  {
  }

  /** The past check is decided first: a start at or before `now` is always
      reported as past, although it is also outside the booking window. */
  lemma PastTimeWinsOverCutoff(providerId: string, date: string, time: string, start: int, now: int)
    requires date != "" && time != ""
    requires start <= now
    ensures !InWindow(start, now)
    ensures Validate(providerId, date, time, Some(start), now) == Rejected(PastTime)
  {
  }

  // ---------------------------------------------------------------------------
  // The time picker's minimum

  /** AS WRITTEN: the `min` of the time picker. The chosen date is "today" when
      it is the UTC date of `now` (`toISOString`), and the minimum shown is
      then the LOCAL clock of `now`; other dates have no minimum. */
  function TimeMin(day: int, now: int, offset: int): (m: Option<string>)
    ensures m.Some? <==> day == now / DAY_MS
    ensures m.Some? ==> ParseTime(m.value) == Some(LocalClock(now, offset))
  {
    if day == now / DAY_MS then
      ParseFormat(LocalClock(now, offset));
      Some(FormatClock(LocalClock(now, offset)))
    else None
  }

  /** A clock at or before the current local minute, on a local day no later
      than today's, composes to an instant at or before `now`. */
  lemma ComposedNotAfterNow(localDay: int, offset: int, now: int, c: Clock)
    requires localDay <= LocalDay(now, offset)
    requires c.MinuteOfDay() <= LocalClock(now, offset).MinuteOfDay()
    ensures LocalMidnight(localDay, offset) + ClockMs(c) <= now
  {
    var m := LocalClock(now, offset);
    assert MINUTE_MS == 60000 && HOUR_MS == 60 * 60000;
    assert ClockMs(c) == c.MinuteOfDay() * 60000;
    assert ClockMs(m) == m.MinuteOfDay() * 60000;
    assert ClockMs(c) <= ClockMs(m) < DAY_MS;
    MulAtLeast(LocalDay(now, offset) - localDay, DAY_MS);
  }

  /** As written, the picker's minimum agrees with the past check: the
      minimum is shown on the UTC today, and any clock at or before it
      composes, from UTC midnight, to an instant at or before `now`, so it is
      refused as past. The two UTC readings (lines 15 and 43) compensate each
      other. */
  lemma TimeMinAgreesWithPastCheck(providerId: string, date: string, time: string,
                                   day: int, offset: int, now: int, c: Clock)
    requires date != "" && time != ""
    requires day == now / DAY_MS
    requires c.MinuteOfDay() <= LocalClock(now, offset).MinuteOfDay()
    ensures TimeMin(day, now, offset).Some?
    ensures ParseTime(TimeMin(day, now, offset).value) == Some(LocalClock(now, offset))
    ensures Validate(providerId, date, time, Some(ComposeStartAsWritten(day, offset, c)), now)
            == Rejected(PastTime)
  {
    AsWrittenNotAfterNow(day, offset, now, c);
  }

  /** On the UTC today, a clock at or before the current local minute composes,
      as written, to an instant at or before `now`. */
  lemma AsWrittenNotAfterNow(day: int, offset: int, now: int, c: Clock)
    requires day == now / DAY_MS
    requires c.MinuteOfDay() <= LocalClock(now, offset).MinuteOfDay()
    ensures ComposeStartAsWritten(day, offset, c) <= now
  {
    DivModUnique(now, DAY_MS, day, now % DAY_MS);
    LocalDayMonotone(day * DAY_MS, now, offset);
    ComposedNotAfterNow(LocalDay(day * DAY_MS, offset), offset, now, c);
  }

  /** INTENDED: the picker's minimum on the local today only. */
  function IntendedTimeMin(day: int, now: int, offset: int): (m: Option<string>)
    ensures m.Some? <==> day == LocalDay(now, offset)
    ensures m.Some? ==> ParseTime(m.value) == Some(LocalClock(now, offset))
  {
    if day == LocalDay(now, offset) then
      ParseFormat(LocalClock(now, offset));
      Some(FormatClock(LocalClock(now, offset)))
    else None
  }

  /** With the intended composition, the intended minimum agrees with the past
      check: it is shown on the local today, and any clock at or before it
      composes to an instant at or before `now`, so it is refused as past. */
  lemma IntendedTimeMinAgreesWithPastCheck(providerId: string, date: string, time: string,
                                           day: int, offset: int, now: int, c: Clock)
    requires date != "" && time != ""
    requires day == LocalDay(now, offset)
    requires c.MinuteOfDay() <= LocalClock(now, offset).MinuteOfDay()
    ensures IntendedTimeMin(day, now, offset).Some?
    ensures ParseTime(IntendedTimeMin(day, now, offset).value) == Some(LocalClock(now, offset))
    ensures Validate(providerId, date, time, Some(ComposeStart(day, offset, c)), now) == Rejected(PastTime)
  {
    ComposedNotAfterNow(day, offset, now, c);
  }

  // ---------------------------------------------------------------------------
  // The timezone finding

  /** West of UTC the as-written start lands a whole day before the chosen
      day; at or east of UTC it agrees with the intended start. */
  lemma AsWrittenStartShift(day: int, offset: int, c: Clock)
    requires -DAY_MS < offset < DAY_MS
    ensures offset < 0 ==> ComposeStartAsWritten(day, offset, c) == ComposeStart(day, offset, c) - DAY_MS
    ensures offset >= 0 ==> ComposeStartAsWritten(day, offset, c) == ComposeStart(day, offset, c)
  {
    if offset < 0 {
      DivModUnique(day * DAY_MS + offset, DAY_MS, day - 1, DAY_MS + offset);
    } else {
      DivModUnique(day * DAY_MS + offset, DAY_MS, day, offset);
    }
  }

  /** Concretely: at UTC-5, choosing 2025-03-10 (day 20157) at 10:00 gives an
      as-written start on 2025-03-09, while the intended start is on the 10th. */
  lemma AsWrittenStartWrongDay()
    ensures LocalDay(ComposeStartAsWritten(20157, -5 * HOUR_MS, Clock(10, 0)), -5 * HOUR_MS) == 20156
    ensures LocalDay(ComposeStart(20157, -5 * HOUR_MS, Clock(10, 0)), -5 * HOUR_MS) == 20157
  {
    AsWrittenStartShift(20157, -5 * HOUR_MS, Clock(10, 0));
    var s := ComposeStart(20157, -5 * HOUR_MS, Clock(10, 0));
    DivModUnique(s - DAY_MS - 5 * HOUR_MS, DAY_MS, 20156, 10 * HOUR_MS);
  }

  /** The finding at the handler: at UTC-5 at 08:00 local on 2025-03-10,
      booking that day at 10:00 is refused as past by the program, while the
      intended start is two hours ahead and is accepted. */
  lemma AsWrittenRefusesBookable()
    ensures Validate("p", "2025-03-10", FormatClock(Clock(10, 0)),
                     StartOf(FormatClock(Clock(10, 0)), Some(20157), -5 * HOUR_MS),
                     20157 * DAY_MS + 13 * HOUR_MS) == Rejected(PastTime)
    ensures Validate("p", "2025-03-10", FormatClock(Clock(10, 0)),
                     IntendedStartOf(FormatClock(Clock(10, 0)), Some(20157), -5 * HOUR_MS),
                     20157 * DAY_MS + 13 * HOUR_MS).Accepted?
  {
    ParseFormat(Clock(10, 0));
    AsWrittenStartShift(20157, -5 * HOUR_MS, Clock(10, 0));
  }

  /** Why the fix must also move the picker's "today" to the local date: with
      the intended composition but the as-written minimum, at UTC-5 at 21:00
      local on day 20156 (UTC day 20157), the minimum 21:00 is put on day
      20157, over 10:00 on that day, which is bookable. */
  lemma HalfFixHidesBookable()
    ensures TimeMin(20157, 20157 * DAY_MS + 2 * HOUR_MS, -5 * HOUR_MS) == Some(FormatClock(Clock(21, 0)))
    ensures Validate("p", "2025-03-10", FormatClock(Clock(10, 0)),
                     IntendedStartOf(FormatClock(Clock(10, 0)), Some(20157), -5 * HOUR_MS),
                     20157 * DAY_MS + 2 * HOUR_MS).Accepted?
  {
    var now, offset := 20157 * DAY_MS + 2 * HOUR_MS, -5 * HOUR_MS;
    DivModUnique(now, DAY_MS, 20157, 2 * HOUR_MS);
    DivModUnique(now + offset, DAY_MS, 20156, 21 * HOUR_MS);
    DivModUnique(21 * HOUR_MS, HOUR_MS, 21, 0);
    DivModUnique(0, MINUTE_MS, 0, 0);
    ParseFormat(Clock(10, 0));
  }
}
