/** Hour arithmetic of the event form: the 12-hour picker values turned into
    a 24-hour hour and an instant (makeEventISO), the current hour turned back
    into picker values (setDefaultTime), and the date the form defaults to. */
module Clock {
  import opened JsText

  const MsPerMinute: int := 60000
  const MsPerHour: int := 3600000
  const MsPerDay: int := 86400000

  predicate IsMeridiem(ampm: string) {
    ampm == "AM" || ampm == "PM"
  }

  /** makeEventISO's hour: 12 AM is midnight, a PM hour other than 12 moves
      twelve hours on. For a picker hour with AM or PM the result is the
      24-hour hour with the same clock-face position, in the afternoon half
      exactly for PM; any other meridiem string leaves the hour as parsed. */
  function To24Hour(h: int, ampm: string): (r: int)
    ensures 1 <= h <= 12 && IsMeridiem(ampm) ==>
              0 <= r < 24 && r % 12 == h % 12 && (r >= 12 <==> ampm == "PM")
    ensures !IsMeridiem(ampm) ==> r == h
  {
    if ampm == "AM" && h == 12 then 0
    else if ampm == "PM" && h != 12 then h + 12
    else h
  }

  /** A picker hour with its meridiem. */
  datatype Hour12 = Hour12(hour: int, ampm: string)

  /** setDefaultTime's conversion of the local hour 0..23 to the pickers:
      a picker hour 1..12 and a meridiem that convert back to that hour. */
  function To12Hour(h: int): (r: Hour12)
    requires 0 <= h < 24
    ensures 1 <= r.hour <= 12 && IsMeridiem(r.ampm)
    ensures To24Hour(r.hour, r.ampm) == h
  {
    var ampm := if h >= 12 then "PM" else "AM";
    var hr := h % 12;
    Hour12(if hr == 0 then 12 else hr, ampm)
  }

  /** The other direction: every picker choice is what setDefaultTime would
      show for the hour it converts to, so the two conversions are inverse
      bijections between 0..23 and 1..12 x {AM, PM}. */
  lemma To12HourOfTo24Hour(h: int, ampm: string)
    requires 1 <= h <= 12 && IsMeridiem(ampm)
    ensures To12Hour(To24Hour(h, ampm)) == Hour12(h, ampm)
  {
  }

  /** The values of the hour, minute and meridiem pickers. */
  datatype TimeFields = TimeFields(hour: string, minute: string, ampm: string)

  /** setDefaultTime's picker values for a local time of day. */
  function DefaultFields(hours: int, minutes: int): (f: TimeFields)
    requires 0 <= hours < 24 && 0 <= minutes < 60
    ensures |f.hour| == 2 && |f.minute| == 2 && IsMeridiem(f.ampm)
  {
    var h := To12Hour(hours);
    PadTwoShape(h.hour);
    PadTwoShape(minutes);
    TimeFields(PadTwo(h.hour), PadTwo(minutes), h.ampm)
  }

  /** The instant makeEventISO builds from the pickers, given the instant at
      which the chosen date begins locally: hours and minutes are added to it
      as the Date constructor does. A hour or minute that parseInt cannot
      read gives an invalid Date, on which toISOString throws: None. */
  function EventInstant(dayStart: int, f: TimeFields): (r: Option<int>)
    ensures r.Some? <==> ParseInt(f.hour).Some? && ParseInt(f.minute).Some?
    ensures r.Some? && IsMeridiem(f.ampm)
            && 1 <= ParseInt(f.hour).value <= 12 && 0 <= ParseInt(f.minute).value < 60
            ==> dayStart <= r.value < dayStart + MsPerDay
  {
    var h := ParseInt(f.hour);
    var m := ParseInt(f.minute);
    if h.Some? && m.Some? then Some(dayStart + To24Hour(h.value, f.ampm) * MsPerHour + m.value * MsPerMinute)
    else None
  }

  /** Every choice the pickers offer (hour 01-12, minute 00-59, AM or PM)
      names an instant within the chosen day. */
  lemma PickerInstantWithinDay(dayStart: int, h: int, m: int, ampm: string)
    requires 1 <= h <= 12 && 0 <= m < 60 && IsMeridiem(ampm)
    ensures var t := EventInstant(dayStart, TimeFields(PadTwo(h), PadTwo(m), ampm));
            t.Some? && dayStart <= t.value < dayStart + MsPerDay
            && t.value == dayStart + To24Hour(h, ampm) * MsPerHour + m * MsPerMinute
  {
    ParsePadTwo(h);
    ParsePadTwo(m);
  }

  /** The values setDefaultTime puts in the pickers, submitted unchanged,
      name exactly the time of day they were made from. */
  lemma DefaultFieldsRoundTrip(dayStart: int, hours: int, minutes: int)
    requires 0 <= hours < 24 && 0 <= minutes < 60
    ensures var e := EventInstant(dayStart, DefaultFields(hours, minutes));
            e.Some? && e.value == dayStart + hours * MsPerHour + minutes * MsPerMinute
  {
    DefaultFieldsParse(hours, minutes);
  }

  /** parseInt reads back what setDefaultTime wrote into the pickers. */
  lemma DefaultFieldsParse(hours: int, minutes: int)
    requires 0 <= hours < 24 && 0 <= minutes < 60
    ensures var f := DefaultFields(hours, minutes);
            ParseInt(f.hour) == Some(To12Hour(hours).hour) && ParseInt(f.minute) == Some(minutes)
            && f.ampm == To12Hour(hours).ampm
  {
    ParsePadTwo(To12Hour(hours).hour);
    ParsePadTwo(minutes);
  }

  // ---- The default date ----
  // Instants are milliseconds since 1970-01-01T00:00Z; the local zone is
  // `offset` milliseconds ahead of UTC. Days are numbered from 1970-01-01.

  /** The instant at which day number `day` begins locally. */
  function LocalMidnight(day: int, offset: int): int {
    day * MsPerDay - offset
  }

  /** Date.prototype.getHours and getMinutes. */
  function LocalHours(now: int, offset: int): (h: int)
    ensures 0 <= h < 24
  {
    ((now + offset) % MsPerDay) / MsPerHour
  }

  function LocalMinutes(now: int, offset: int): (m: int)
    ensures 0 <= m < 60
  {
    ((now + offset) % MsPerHour) / MsPerMinute
  }

  /** setDefaultTime as written: the date field is now.toISOString().slice(0, 10),
      the date in UTC, while the pickers show local hours and minutes. */
  function DefaultDayAsWritten(now: int): int {
    now / MsPerDay
  }

  /** The date the form evidently means to default to: today, locally. */
  function DefaultDay(now: int, offset: int): int {
    (now + offset) / MsPerDay
  }

  /** What submitting the untouched form schedules, for a chosen default day. */
  function DefaultInstant(day: int, now: int, offset: int): Option<int> {
    EventInstant(LocalMidnight(day, offset),
                 DefaultFields(LocalHours(now, offset), LocalMinutes(now, offset)))
  }

  /** With the local date, the untouched form names the current minute. */
  lemma DefaultDayNamesNow(now: int, offset: int)
    ensures var e := DefaultInstant(DefaultDay(now, offset), now, offset);
            e.Some? && e.value == now - (now + offset) % MsPerMinute
  {
    DefaultInstantShift(DefaultDay(now, offset), now, offset);
  }

  /** Local midnight of the local date plus the local hours and minutes is
      the current instant cut to the minute. */
  lemma LocalPartsSum(now: int, offset: int)
    ensures LocalMidnight(DefaultDay(now, offset), offset)
            + LocalHours(now, offset) * MsPerHour + LocalMinutes(now, offset) * MsPerMinute
            == now - (now + offset) % MsPerMinute
  {
    var local := now + offset;
    var day, inDay := local / MsPerDay, local % MsPerDay;
    var hour, inHour := inDay / MsPerHour, inDay % MsPerHour;
    var minute, inMinute := inHour / MsPerMinute, inHour % MsPerMinute;
    assert local == (day * 24 + hour) * MsPerHour + inHour;
    ModByHour(local, day * 24 + hour, inHour);
    assert local == (day * 1440 + hour * 60 + minute) * MsPerMinute + inMinute;
    ModByMinute(local, day * 1440 + hour * 60 + minute, inMinute);
  }

  lemma ModByHour(n: int, q: int, r: int)
    requires 0 <= r < MsPerHour && n == q * MsPerHour + r
    ensures n % MsPerHour == r
  {
  }

  lemma ModByMinute(n: int, q: int, r: int)
    requires 0 <= r < MsPerMinute && n == q * MsPerMinute + r
    ensures n % MsPerMinute == r
  {
  }

  /** What the untouched form schedules on any day: the current minute,
      moved by whole days as far as `day` is from the local date. */
  lemma DefaultInstantShift(day: int, now: int, offset: int)
    ensures var e := DefaultInstant(day, now, offset);
            e.Some? && e.value == now - (now + offset) % MsPerMinute
                                   + (day - DefaultDay(now, offset)) * MsPerDay
  {
    var h, m := LocalHours(now, offset), LocalMinutes(now, offset);
    LocalPartsSum(now, offset);
    DefaultFieldsRoundTrip(LocalMidnight(day, offset), h, m);
  }

  /** Where the UTC date of the code differs from the local date: in a zone
      ahead of UTC during the first `offset` milliseconds of the local day it
      is a day early, in a zone behind UTC during the last `-offset`
      milliseconds it is a day late, and otherwise it is the local date. */
  lemma DefaultDayAsWrittenShift(now: int, offset: int)
    requires -MsPerDay < offset < MsPerDay
    ensures var tod, shift := (now + offset) % MsPerDay, DefaultDayAsWritten(now) - DefaultDay(now, offset);
            if offset > 0 && tod < offset then shift == -1
            else if offset < 0 && tod >= MsPerDay + offset then shift == 1
            else shift == 0
  {
    var local := now + offset;
    var day, tod := local / MsPerDay, local % MsPerDay;
    assert now == day * MsPerDay + (tod - offset);
    if offset > 0 && tod < offset {
      DivOf(now, day - 1, tod - offset + MsPerDay);
    } else if offset < 0 && tod >= MsPerDay + offset {
      DivOf(now, day + 1, tod - offset - MsPerDay);
    } else {
      DivOf(now, day, tod - offset);
    }
  }

  lemma DivOf(n: int, q: int, r: int)
    requires 0 <= r < MsPerDay && n == q * MsPerDay + r
    ensures n / MsPerDay == q
  {
  }

  /** So with the UTC date the untouched form schedules the event a whole
      day in the past (or the future) exactly in those cases, and names the
      current minute otherwise. */
  lemma DefaultAsWrittenInstant(now: int, offset: int)
    requires -MsPerDay < offset < MsPerDay
    ensures var e, tod := DefaultInstant(DefaultDayAsWritten(now), now, offset), (now + offset) % MsPerDay;
            e.Some?
            && (offset > 0 && tod < offset ==> e.value == now - (now + offset) % MsPerMinute - MsPerDay)
            && (offset < 0 && tod >= MsPerDay + offset ==> e.value == now - (now + offset) % MsPerMinute + MsPerDay)
            && (!(offset > 0 && tod < offset) && !(offset < 0 && tod >= MsPerDay + offset)
                ==> e.value == now - (now + offset) % MsPerMinute)
  {
    DefaultDayAsWrittenShift(now, offset);
    DefaultInstantShift(DefaultDayAsWritten(now), now, offset);
  }

  /** With the UTC date, in a zone five and a half hours ahead of UTC, at
      02:00 local time on 2 January 1970 (20:30 UTC on 1 January) the
      untouched form schedules the event a whole day in the past. */
  lemma DefaultDayAsWrittenIsADayEarly()
    ensures var now, offset := 73800000, 19800000;
            DefaultDayAsWritten(now) == 0 && DefaultDay(now, offset) == 1
            && DefaultInstant(DefaultDayAsWritten(now), now, offset).Some?
            && DefaultInstant(DefaultDayAsWritten(now), now, offset).value == now - MsPerDay
  {
    var now, offset := 73800000, 19800000;
    assert LocalHours(now, offset) == 2 && LocalMinutes(now, offset) == 0;
    DefaultFieldsRoundTrip(LocalMidnight(0, offset), 2, 0);
  }
}
