/** The `TimesHelper` class of ParticipantsTracking.py: the three
    time-of-day windows, the readable `DD-MM-YYYY HH:MM:SS` form of a
    timestamp, the difference of two timestamps and the same-day test.
    Timestamps are whole epoch seconds; the local zone is a fixed offset from
    UTC in seconds, strictly inside one day as Python's own offsets are. */
module TimesHelper {
  import opened Wrappers
  import opened Text
  import opened Calendar
  import opened Timedelta

  const MorningHours: (nat, nat) := (5, 11)
  const AfternoonHours: (nat, nat) := (12, 17)
  const EveningHours: (nat, nat) := (18, 23)
  type UtcOffset = o: int | -86400 < o < 86400

  datatype Session = Morning | Afternoon | Evening | NoSession

  /** The dictionary key under which each session is reported. */
  function SessionName(s: Session): string {
    match s
    case Morning => "morning session"
    case Afternoon => "afternoon session"
    case Evening => "evening session"
    case NoSession => "no session"
  }

  /** Whole seconds of a millisecond timestamp: the script divides by
      `REMOVE_MS` (1000) and truncates with `int`. */
  function EpochSeconds(ms: nat): nat {
    ms / 1000
  }

  /** Seconds since 1970-01-01 00:00 on the local wall clock. */
  function LocalSeconds(ts: nat, offset: UtcOffset): int {
    ts + offset
  }

  /** `datetime.fromtimestamp(ts).hour`. */
  function HourOf(ts: nat, offset: UtcOffset): (h: nat)
    ensures h < 24
  {
    (LocalSeconds(ts, offset) % 86400) / 3600
  }

  /** Closed hour window, as `lo <= hour <= hi` tests it. */
  predicate InWindow(h: nat, window: (nat, nat)) {
    window.0 <= h <= window.1
  }

  /** `is_morning_timestamp`: the local hour is 5 to 11, both included. */
  predicate IsMorningTimestamp(ts: nat, offset: UtcOffset): (b: bool)
    ensures b <==> 5 <= HourOf(ts, offset) <= 11
  {
    InWindow(HourOf(ts, offset), MorningHours)
  }

  /** `is_afternoon_timestamp`: the local hour is 12 to 17, both included. */
  predicate IsAfternoonTimestamp(ts: nat, offset: UtcOffset): (b: bool)
    ensures b <==> 12 <= HourOf(ts, offset) <= 17
  {
    InWindow(HourOf(ts, offset), AfternoonHours)
  }

  /** `is_evening_timestamp`: the local hour is 18 to 23, both included. */
  predicate IsEveningTimestamp(ts: nat, offset: UtcOffset): (b: bool)
    ensures b <==> 18 <= HourOf(ts, offset) <= 23
  {
    InWindow(HourOf(ts, offset), EveningHours)
  }

  /** The one window (if any) whose test accepts the hour. */
  function SessionOfHour(h: nat): (s: Session)
    ensures s == Morning <==> InWindow(h, MorningHours)
    ensures s == Afternoon <==> InWindow(h, AfternoonHours)
    ensures s == Evening <==> InWindow(h, EveningHours)
  {
    if InWindow(h, MorningHours) then Morning
    else if InWindow(h, AfternoonHours) then Afternoon
    else if InWindow(h, EveningHours) then Evening
    else NoSession
  }

  function SessionOf(ts: nat, offset: UtcOffset): (s: Session)
    ensures s == Morning <==> IsMorningTimestamp(ts, offset)
    ensures s == Afternoon <==> IsAfternoonTimestamp(ts, offset)
    ensures s == Evening <==> IsEveningTimestamp(ts, offset)
    ensures s == NoSession <==> HourOf(ts, offset) < 5
  {
    SessionOfHour(HourOf(ts, offset))
  }

  /** No hour of the day lies in two windows; every hour from 5 to 23 lies
      in one; hours 0 to 4 lie in none; each window contains both bounds. */
  lemma WindowsPartitionTheDay(h: nat)
    requires h < 24
    ensures !(InWindow(h, MorningHours) && InWindow(h, AfternoonHours))
    ensures !(InWindow(h, MorningHours) && InWindow(h, EveningHours))
    ensures !(InWindow(h, AfternoonHours) && InWindow(h, EveningHours))
    ensures h < 5 <==> !InWindow(h, MorningHours) && !InWindow(h, AfternoonHours) && !InWindow(h, EveningHours)
    ensures InWindow(5, MorningHours) && InWindow(11, MorningHours)
    ensures InWindow(12, AfternoonHours) && InWindow(17, AfternoonHours)
    ensures InWindow(18, EveningHours) && InWindow(23, EveningHours)
  {
  }

  /** Only the hour matters: minutes, seconds and the date do not. */
  lemma SessionDependsOnlyOnHour(t1: nat, t2: nat, offset: UtcOffset)
    requires HourOf(t1, offset) == HourOf(t2, offset)
    ensures SessionOf(t1, offset) == SessionOf(t2, offset)
  {
  }

  /** The local calendar date of a timestamp. */
  function LocalDate(ts: nat, offset: UtcOffset): (d: Date)
    ensures ValidDate(d) && d.year >= EpochYear - 1
    ensures DayNumber(d) == LocalSeconds(ts, offset) / 86400
  {
    FromDayNumber(LocalSeconds(ts, offset) / 86400)
  }

  /** The layout `DD-MM-YYYY HH:MM:SS`: fixed separators, two-digit fields
      everywhere but the year, which has at least four digits. */
  predicate ReadableShape(s: string) {
    && |s| >= 19
    && s[2] == '-' && s[5] == '-' && s[|s| - 9] == ' ' && s[|s| - 6] == ':' && s[|s| - 3] == ':'
    && AllDigits(s[..2]) && AllDigits(s[3..5]) && AllDigits(s[6..|s| - 9])
    && AllDigits(s[|s| - 8..|s| - 6]) && AllDigits(s[|s| - 5..|s| - 3]) && AllDigits(s[|s| - 2..])
  }

  /** Digits and separators only: a readable time is a single line. */
  lemma ShapeHasNoNewline(s: string)
    requires ReadableShape(s)
    ensures NoNewline(s)
  {
    var n := |s|;
    forall k | 0 <= k < n
      ensures s[k] != '\n'
    {
      if k < 2 { assert s[..2][k] == s[k]; }
      else if 2 < k < 5 { assert s[3..5][k - 3] == s[k]; }
      else if 5 < k < n - 9 { assert s[6..n - 9][k - 6] == s[k]; }
      else if n - 9 < k < n - 6 { assert s[n - 8..n - 6][k - (n - 8)] == s[k]; }
      else if n - 6 < k < n - 3 { assert s[n - 5..n - 3][k - (n - 5)] == s[k]; }
      else if n - 3 < k { assert s[n - 2..][k - (n - 2)] == s[k]; }
    }
  }

  function DayField(s: string): string requires ReadableShape(s) { s[..2] }
  function MonthField(s: string): string requires ReadableShape(s) { s[3..5] }
  function YearField(s: string): string requires ReadableShape(s) { s[6..|s| - 9] }
  function HourField(s: string): string requires ReadableShape(s) { s[|s| - 8..|s| - 6] }
  function MinuteField(s: string): string requires ReadableShape(s) { s[|s| - 5..|s| - 3] }
  function SecondField(s: string): string requires ReadableShape(s) { s[|s| - 2..] }

  function ReadableText(d: Date, h: nat, m: nat, sec: nat): (s: string)
    requires ValidDate(d) && d.year >= 0 && h < 24 && m < 60 && sec < 60
    ensures ReadableShape(s)
    ensures ParseNat(DayField(s)) == d.day && ParseNat(MonthField(s)) == d.month
    ensures ParseNat(YearField(s)) == d.year
    ensures ParseNat(HourField(s)) == h && ParseNat(MinuteField(s)) == m
    ensures ParseNat(SecondField(s)) == sec
  {
    var date := Pad2(d.day) + "-" + Pad2(d.month) + "-" + ZeroPad(d.year, 4);
    var clock := Pad2(h) + ":" + Pad2(m) + ":" + Pad2(sec);
    DateFields(d.day, d.month, d.year);
    ClockFields(h, m, sec);
    JoinFields(date, clock);
    date + " " + clock
  }

  lemma DateFields(day: nat, month: nat, year: nat)
    requires day < 100 && month < 100
    ensures var date := Pad2(day) + "-" + Pad2(month) + "-" + ZeroPad(year, 4);
            |date| >= 10 && date[2] == '-' && date[5] == '-'
            && date[..2] == Pad2(day) && date[3..5] == Pad2(month) && date[6..] == ZeroPad(year, 4)
  {
  }

  lemma ClockFields(h: nat, m: nat, sec: nat)
    requires h < 100 && m < 100 && sec < 100
    ensures var clock := Pad2(h) + ":" + Pad2(m) + ":" + Pad2(sec);
            |clock| == 8 && clock[2] == ':' && clock[5] == ':'
            && clock[..2] == Pad2(h) && clock[3..5] == Pad2(m) && clock[6..] == Pad2(sec)
  {
  }

  /** A date part and a clock part with digit fields, joined by a space,
      have the readable layout, and each field reads back from its part. */
  lemma JoinFields(date: string, clock: string)
    requires |date| >= 10 && date[2] == '-' && date[5] == '-'
    requires AllDigits(date[..2]) && AllDigits(date[3..5]) && AllDigits(date[6..])
    requires |clock| == 8 && clock[2] == ':' && clock[5] == ':'
    requires AllDigits(clock[..2]) && AllDigits(clock[3..5]) && AllDigits(clock[6..])
    ensures ReadableShape(date + " " + clock)
    ensures DayField(date + " " + clock) == date[..2] && MonthField(date + " " + clock) == date[3..5]
    ensures YearField(date + " " + clock) == date[6..]
    ensures HourField(date + " " + clock) == clock[..2] && MinuteField(date + " " + clock) == clock[3..5]
    ensures SecondField(date + " " + clock) == clock[6..]
  {
    var s := date + " " + clock;
    var n := |s|;
    assert s[..2] == date[..2] && s[3..5] == date[3..5] && s[6..n - 9] == date[6..];
    assert s[n - 8..n - 6] == clock[..2] && s[n - 5..n - 3] == clock[3..5] && s[n - 2..] == clock[6..];
  }

  /** `datetime.fromtimestamp(int(ts)).strftime('%d-%m-%Y %H:%M:%S')`. Its
      hour field is the hour that the three window tests look at. */
  function ConvertTimestampToReadable(ts: nat, offset: UtcOffset): (s: string)
    ensures ReadableShape(s)
    ensures ParseNat(HourField(s)) == HourOf(ts, offset)
  {
    var local := LocalSeconds(ts, offset);
    var secondOfDay := local % 86400;
    ReadableText(LocalDate(ts, offset), secondOfDay / 3600, secondOfDay % 3600 / 60, secondOfDay % 60)
  }

  /** Reads a `DD-MM-YYYY HH:MM:SS` text back as local epoch seconds. */
  function ParseReadable(s: string): Option<int> {
    if ReadableShape(s) then
      var d := Date(ParseNat(YearField(s)), ParseNat(MonthField(s)), ParseNat(DayField(s)));
      var h := ParseNat(HourField(s));
      var m := ParseNat(MinuteField(s));
      var sec := ParseNat(SecondField(s));
      if ValidDate(d) && h < 24 && m < 60 && sec < 60
      then Some(DayNumber(d) * 86400 + h * 3600 + m * 60 + sec)
      else None
    else None
  }

  lemma ParseReadableText(d: Date, h: nat, m: nat, sec: nat, v: int)
    requires ValidDate(d) && d.year >= 0 && h < 24 && m < 60 && sec < 60
    requires v == DayNumber(d) * 86400 + h * 3600 + m * 60 + sec
    ensures ParseReadable(ReadableText(d, h, m, sec)) == Some(v)
  {
  }

  lemma DecomposeLocalSeconds(local: int)
    ensures var r := local % 86400;
      (local / 86400) * 86400 + (r / 3600) * 3600 + (r % 3600 / 60) * 60 + r % 60 == local
  {
    var r := local % 86400;
    assert (r / 3600) * 3600 + (r % 3600 / 60) * 60 + r % 60 == r;
  }

  lemma ConvertIsReadableText(ts: nat, offset: UtcOffset)
    ensures var r := LocalSeconds(ts, offset) % 86400;
      ConvertTimestampToReadable(ts, offset) == ReadableText(LocalDate(ts, offset), r / 3600, r % 3600 / 60, r % 60)
  {
  }

  /** The readable form keeps the local time to the second. */
  lemma ReadableRoundTrip(ts: nat, offset: UtcOffset)
    ensures ParseReadable(ConvertTimestampToReadable(ts, offset)) == Some(LocalSeconds(ts, offset))
  {
    var local := LocalSeconds(ts, offset);
    var r := local % 86400;
    var d := LocalDate(ts, offset);
    var h, m, sec := r / 3600, r % 3600 / 60, r % 60;
    ConvertIsReadableText(ts, offset);
    DecomposeLocalSeconds(local);
    ParseReadableText(d, h, m, sec, local);
  }

  /** Two timestamps have the same readable form exactly when they are the
      same second. */
  lemma ReadableInjective(t1: nat, t2: nat, offset: UtcOffset)
    ensures ConvertTimestampToReadable(t1, offset) == ConvertTimestampToReadable(t2, offset) <==> t1 == t2
  {
    ReadableRoundTrip(t1, offset);
    ReadableRoundTrip(t2, offset);
  }

  /** `str(datetime.fromtimestamp(int(ts1)) - datetime.fromtimestamp(int(ts2)))`:
      under a fixed offset the wall-clock difference is the difference of the
      epoch seconds, and the text reads back as exactly that. */
  function GetTimeDiffOfTwoTimestamps(ts1: nat, ts2: nat, offset: UtcOffset): (s: string)
    ensures ParseTimedelta(s) == Some(ts1 - ts2)
  {
    var delta := LocalSeconds(ts1, offset) - LocalSeconds(ts2, offset);
    assert delta == ts1 - ts2;
    TimedeltaRoundTrip(delta);
    TimedeltaToString(delta)
  }

  /** The difference depends on nothing but `ts1 - ts2`; equal timestamps
      give the zero duration. */
  lemma TimeDiffDependsOnDifference(a1: nat, a2: nat, b1: nat, b2: nat, o1: UtcOffset, o2: UtcOffset)
    requires a1 - a2 == b1 - b2
    ensures GetTimeDiffOfTwoTimestamps(a1, a2, o1) == GetTimeDiffOfTwoTimestamps(b1, b2, o2)
    ensures GetTimeDiffOfTwoTimestamps(a1, a1, o1) == "0:00:00"
  {
    assert LocalSeconds(a1, o1) - LocalSeconds(a2, o1) == LocalSeconds(b1, o2) - LocalSeconds(b2, o2);
    assert LocalSeconds(a1, o1) - LocalSeconds(a1, o1) == 0;
    TimedeltaZero();
  }

  /** `is_today_timestamp` with the captured "now" passed explicitly: the
      two timestamps fall on the same local calendar date. */
  function IsTodayTimestamp(now: nat, ts: nat, offset: UtcOffset): (b: bool)
    ensures b <==> LocalSeconds(now, offset) / 86400 == LocalSeconds(ts, offset) / 86400
  {
    LocalDate(now, offset) == LocalDate(ts, offset)
  }
}
