/** Python's `str(timedelta)` for a whole number of seconds: a signed day
    count (floor division, so the clock part is never negative) followed by
    `H:MM:SS`; the day part is left out when the count is zero. */
module Timedelta {
  import opened Wrappers
  import opened Seqs
  import opened Text

  function PluralDays(days: int): string {
    if days == 1 || days == -1 then " day, " else " days, "
  }

  /** `H:MM:SS` for an hour, minute and second of one day. */
  function ClockText(h: nat, m: nat, sec: nat): (c: string)
    requires h < 24 && m < 60 && sec < 60
    ensures 7 <= |c| <= 8
  {
    assert |NatToString(h)| <= 2 by {
      if h >= 10 { assert NatToString(h) == NatToString(h / 10) + [DigitChar(h % 10)]; }
    }
    NatToString(h) + ":" + Pad2(m) + ":" + Pad2(sec)
  }

  function Clock(rest: nat): (c: string)
    requires rest < 86400
    ensures 7 <= |c| <= 8
  {
    ClockText(rest / 3600, rest % 3600 / 60, rest % 60)
  }

  function TimedeltaToString(delta: int): (s: string)
    ensures |s| >= 7
    ensures 0 <= delta < 86400 ==> s == Clock(delta)
    ensures delta < 0 ==> s[0] == '-'
  {
    var days := delta / 86400;
    var clock := Clock(delta % 86400);
    if days == 0 then clock else IntToString(days) + PluralDays(days) + clock
  }

  /** Reads back `H:MM:SS` with an hour below 24. */
  function ParseClock(c: string): Option<nat> {
    if 7 <= |c| <= 8 && c[|c| - 6] == ':' && c[|c| - 3] == ':'
       && AllDigits(c[..|c| - 6]) && AllDigits(c[|c| - 5..|c| - 3]) && AllDigits(c[|c| - 2..])
    then
      var h := ParseNat(c[..|c| - 6]);
      var m := ParseNat(c[|c| - 5..|c| - 3]);
      var s := ParseNat(c[|c| - 2..]);
      if h < 24 && m < 60 && s < 60 then Some(h * 3600 + m * 60 + s) else None
    else None
  }

  /** Reads back the output of `TimedeltaToString` as a number of seconds:
      a text without a space is a clock alone; otherwise the part before the
      first space is the day count. */
  function ParseTimedelta(s: string): Option<int> {
    var i := Position(s, ' ');
    if i == |s| then
      match ParseClock(s)
      case Some(c) => Some(c as int)
      case None => None
    else ParseDaysThenClock(s[..i], s[i..])
  }

  /** A non-zero day count `d`, then `rest`: the `" day, "` or `" days, "`
      separator that suits the count, and a clock. */
  function ParseDaysThenClock(d: string, rest: string): Option<int> {
    match ParseInt(d)
    case None => None
    case Some(days) =>
      var sep := PluralDays(days);
      if days != 0 && |sep| <= |rest| && rest[..|sep|] == sep then
        match ParseClock(rest[|sep|..])
        case Some(c) => Some(days * 86400 + c)
        case None => None
      else None
  }

  /** Where each field of `H:MM:SS` sits, counted from the end. */
  lemma ClockTextLayout(h: nat, m: nat, sec: nat)
    requires h < 24 && m < 60 && sec < 60
    ensures var c := ClockText(h, m, sec);
            && c[|c| - 6] == ':' && c[|c| - 3] == ':'
            && c[..|c| - 6] == NatToString(h) && c[|c| - 5..|c| - 3] == Pad2(m) && c[|c| - 2..] == Pad2(sec)
  {
    var c := ClockText(h, m, sec);
    assert c == NatToString(h) + ":" + Pad2(m) + ":" + Pad2(sec);
  }

  lemma ClockTextHasNoSpace(h: nat, m: nat, sec: nat)
    requires h < 24 && m < 60 && sec < 60
    ensures ' ' !in ClockText(h, m, sec)
  {
    var c := ClockText(h, m, sec);
    var hs := NatToString(h);
    assert c == hs + ":" + Pad2(m) + ":" + Pad2(sec);
    assert forall k :: 0 <= k < |c| ==> c[k] == ':' || IsDigit(c[k]);
  }

  lemma ClockTextRoundTrip(h: nat, m: nat, sec: nat)
    requires h < 24 && m < 60 && sec < 60
    ensures ' ' !in ClockText(h, m, sec)
    ensures ParseClock(ClockText(h, m, sec)) == Some(h * 3600 + m * 60 + sec)
  {
    ClockTextLayout(h, m, sec);
    ClockTextHasNoSpace(h, m, sec);
    ParseNatToString(h);
  }

  lemma ClockRoundTrip(rest: nat)
    requires rest < 86400
    ensures ' ' !in Clock(rest)
    ensures ParseClock(Clock(rest)) == Some(rest)
  {
    var h, m, sec := rest / 3600, rest % 3600 / 60, rest % 60;
    SplitSecondsOfDay(rest);
    assert Clock(rest) == ClockText(h, m, sec);
    ClockTextRoundTrip(h, m, sec);
  }

  lemma SplitSecondsOfDay(rest: nat)
    requires rest < 86400
    ensures rest / 3600 < 24 && rest % 3600 / 60 < 60
    ensures (rest / 3600) * 3600 + (rest % 3600 / 60) * 60 + rest % 60 == rest
  {
  }

  lemma ParsePrefixed(d: string, days: int, clock: string, c: nat)
    requires days != 0 && ParseInt(d) == Some(days) && ' ' !in d
    requires ParseClock(clock) == Some(c)
    ensures ParseTimedelta(d + PluralDays(days) + clock) == Some(days * 86400 + c)
  {
    var sep := PluralDays(days);
    var s := d + sep + clock;
    assert s == d + (sep + clock);
    PositionAfterPrefix(d, sep + clock, ' ');
    assert s[..|d|] == d;
    assert s[|d|..] == sep + clock;
    ParseSeparatedClock(d, days, clock, c);
  }

  lemma ParseSeparatedClock(d: string, days: int, clock: string, c: nat)
    requires days != 0 && ParseInt(d) == Some(days)
    requires ParseClock(clock) == Some(c)
    ensures ParseDaysThenClock(d, PluralDays(days) + clock) == Some(days * 86400 + c)
  {
    var sep := PluralDays(days);
    assert (sep + clock)[..|sep|] == sep && (sep + clock)[|sep|..] == clock;
  }

  lemma PrefixedRoundTrip(days: int, rest: nat)
    requires days != 0 && rest < 86400
    ensures ParseTimedelta(IntToString(days) + PluralDays(days) + Clock(rest)) == Some(days * 86400 + rest)
  {
    ParseIntToString(days);
    ClockRoundTrip(rest);
    ParsePrefixed(IntToString(days), days, Clock(rest), rest);
  }

  lemma ParseUnprefixed(clock: string, c: nat)
    requires ' ' !in clock && ParseClock(clock) == Some(c)
    ensures ParseTimedelta(clock) == Some(c as int)
  {
    assert Position(clock, ' ') == |clock|;
  }

  /** The rendered duration loses nothing: it reads back as the exact
      number of seconds, for negative and multi-day values too. */
  lemma TimedeltaRoundTrip(delta: int)
    ensures ParseTimedelta(TimedeltaToString(delta)) == Some(delta)
  {
    var days := delta / 86400;
    var rest := delta % 86400;
    assert delta == days * 86400 + rest;
    if days == 0 {
      assert TimedeltaToString(delta) == Clock(rest);
      ClockRoundTrip(rest);
      ParseUnprefixed(Clock(rest), rest);
    } else {
      assert TimedeltaToString(delta) == IntToString(days) + PluralDays(days) + Clock(rest);
      PrefixedRoundTrip(days, rest);
    }
  }

  lemma TimedeltaZero()
    ensures TimedeltaToString(0) == "0:00:00"
  {
    assert Pad2(0) == "00" by {
      assert ParseNat(Pad2(0)) == 0;
      assert Pad2(0)[0] == '0' && Pad2(0)[1] == '0' by {
        ZeroDigitsAreZeros(Pad2(0));
      }
    }
    assert NatToString(0) == "0";
  }

  lemma {:induction false} ZeroDigitsAreZeros(s: string)
    requires AllDigits(s) && ParseNat(s) == 0
    ensures forall k :: 0 <= k < |s| ==> s[k] == '0'
    decreases |s|
  {
    if |s| > 0 {
      ZeroDigitsAreZeros(s[..|s| - 1]);
      assert forall k :: 0 <= k < |s| - 1 ==> s[k] == s[..|s| - 1][k];
    }
  }

  lemma ClockTextHasNoNewline(h: nat, m: nat, sec: nat)
    requires h < 24 && m < 60 && sec < 60
    ensures NoNewline(ClockText(h, m, sec))
  {
    assert ClockText(h, m, sec) == NatToString(h) + ":" + Pad2(m) + ":" + Pad2(sec);
  }

  lemma DaysPrefixHasNoNewline(days: int, clock: string)
    requires NoNewline(clock)
    ensures NoNewline(IntToString(days) + PluralDays(days) + clock)
  {
    if days < 0 {
      assert IntToString(days) == "-" + NatToString(-days);
    }
  }

  /** The rendered duration is a single line. */
  lemma TimedeltaHasNoNewline(delta: int)
    ensures NoNewline(TimedeltaToString(delta))
  {
    var rest := delta % 86400;
    var days := delta / 86400;
    ClockTextHasNoNewline(rest / 3600, rest % 3600 / 60, rest % 60);
    if days != 0 {
      DaysPrefixHasNoNewline(days, Clock(rest));
    }
  }
}
