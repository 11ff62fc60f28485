/** FILETIME values and timestamps as text, and back. */
module DateTimeText {
  import opened Prelude
  import opened Text
  import opened Decimal
  import opened Calendar

  datatype Time = Time(hour: nat, minute: nat, second: nat, fraction: nat)

  const TICKS: nat := 10_000_000
  const FILETIME_EPOCH: nat := 11_644_473_600
  const DAY_SECONDS: nat := 86_400
  const U64_LIMIT: nat := 0x1_0000_0000_0000_0000
  const FRACTION_DIGITS: nat := 9

  // ---------------------------------------------------------------- printing

  predicate ValidTime(time: Time) {
    time.hour <= 23 && time.minute <= 59 && time.second <= 59
  }

  function DateText(date: Date): string
    requires date.year >= 0 && date.month >= 0 && date.day >= 0
  {
    Join([Pad(date.year, 4), Pad(date.month, 2), Pad(date.day, 2)], '-')
  }

  function ClockText(time: Time): string {
    Join([Pad(time.hour, 2), Pad(time.minute, 2), Pad(time.second, 2)], ':')
  }

  /** `{year:04}-{month:02}-{day:02}T{hour:02}:{minute:02}:{second:02}` */
  function DateTimeOf(date: Date, clock: string): string
    requires date.year >= 0 && date.month >= 0 && date.day >= 0
  {
    DateText(date) + ("T" + clock)
  }

  /** The date and time of a FILETIME, second by second. */
  function SecondsOf(value: nat): int {
    value / TICKS - FILETIME_EPOCH
  }

  function ClockOf(seconds: nat): Time {
    Time(seconds / 3600, seconds % 3600 / 60, seconds % 60, 0)
  }

  /** The text of a second, counted from Unix time zero. */
  function TextOfSeconds(seconds: int): Result<string> {
    var date := CivilFromDays(seconds / DAY_SECONDS);
    DaysRoundTrip(seconds / DAY_SECONDS);
    if !(1601 <= date.year <= 9999) then Err
    else Ok(DateTimeOf(date, ClockText(ClockOf(seconds % DAY_SECONDS))))
  }

  /** `filetime_to_string` */
  function FiletimeToString(value: nat): Result<string> {
    TextOfSeconds(SecondsOf(value))
  }

  /** `format_db_timestamp` */
  function TimestampText(date: Date, time: Time): Result<string> {
    if !(1 <= date.year <= 9999) || !ValidDate(date) || !ValidTime(time) || time.fraction >= 1_000_000_000 then Err
    else if time.fraction == 0 then Ok(DateTimeOf(date, ClockText(time)))
    else Ok(DateTimeOf(date, ClockText(time) + ("." + DropTrailing(Pad(time.fraction, FRACTION_DIGITS), '0'))))
  }

  // ---------------------------------------------------------------- parsing

  /** `parse::<u16>`: one optional plus sign, digits, 16 bits. */
  function ParseU16(s: string): Result<nat> {
    var digits := StripPrefix(s, '+');
    if digits == [] || !AllDigits(digits) || ToNat(digits) > 0xffff then Err else Ok(ToNat(digits))
  }

  /** `parse_date` */
  function ParseDate(text: string): (r: Result<Date>)
    ensures r.Ok? ==> 1 <= r.value.year <= 9999 && ValidDate(r.value)
  {
    var parts := Split(text, '-');
    if |parts| != 3 then Err
    else
      var year :- ParseU16(parts[0]);
      var month :- ParseU16(parts[1]);
      var day :- ParseU16(parts[2]);
      if 1 <= year <= 9999 && ValidDate(Date(year, month, day)) then Ok(Date(year, month, day)) else Err
  }

  function ParseFraction(fraction: string): Result<nat> {
    if fraction == [] then Ok(0)
    else if |fraction| > FRACTION_DIGITS || !AllDigits(fraction) then Err
    else
      TrailingZeros(fraction, FRACTION_DIGITS - |fraction|);
      Ok(ToNat(fraction + Repeat('0', FRACTION_DIGITS - |fraction|)))
  }

  /** `parse_time` */
  function ParseTime(text: string): (r: Result<Time>)
    ensures r.Ok? ==> ValidTime(r.value)
  {
    var split := SplitOnce(text, '.');
    ParseClock(if split.Some? then split.value.0 else text, if split.Some? then split.value.1 else "")
  }

  function ParseClock(head: string, fraction: string): (r: Result<Time>)
    ensures r.Ok? ==> ValidTime(r.value)
  {
    var parts := Split(head, ':');
    if |parts| != 3 then Err
    else
      var hour :- ParseU16(parts[0]);
      var minute :- ParseU16(parts[1]);
      var second :- ParseU16(parts[2]);
      if !ValidTime(Time(hour, minute, second, 0)) then Err
      else
        var nanos :- ParseFraction(fraction);
        Ok(Time(hour, minute, second, nanos))
  }

  /** `split_datetime` */
  function ParseDateTime(text: string): Result<(Date, Option<Time>)> {
    var split := match SplitOnce(text, 'T')
                 case Some(parts) => Some(parts)
                 case None => SplitOnce(text, ' ');
    match split
    case None =>
      var date :- ParseDate(text);
      Ok((date, None))
    case Some(parts) =>
      var date :- ParseDate(parts.0);
      var time :- ParseTime(parts.1);
      Ok((date, Some(time)))
  }

  /** The seconds since 1601 of a parsed date and time. */
  function FiletimeSeconds(date: Date, time: Option<Time>): int {
    var clock := if time.Some? then time.value.hour * 3600 + time.value.minute * 60 + time.value.second else 0;
    DaysFromCivil(date) * DAY_SECONDS + clock + FILETIME_EPOCH
  }

  /** `filetime_value` */
  function FiletimeValue(text: string): Result<nat> {
    var parsed :- ParseDateTime(text);
    var seconds := FiletimeSeconds(parsed.0, parsed.1);
    if seconds < 0 then Err else Ok(seconds * TICKS)
  }

  // ---------------------------------------------------------------- numbers inside texts

  lemma PaddedParses(n: nat, width: nat)
    requires n <= 0xffff
    ensures ParseU16(Pad(n, width)) == Ok(n)
  {
    DecRoundTrip(n);
    LeadingZeros(if |Dec(n)| < width then width - |Dec(n)| else 0, Dec(n));
    assert IsDigit(Pad(n, width)[0]);
  }

  /** A part of a date or a time is a number of sixteen bits with any leading zeros and perhaps a plus. */
  lemma {:induction false} PartParses(n: nat, zeros: nat, plus: bool)
    ensures ParseU16((if plus then "+" else "") + (Repeat('0', zeros) + Dec(n))) == if n <= 65_535 then Ok(n) else Err
  {
    DecRoundTrip(n);
    LeadingZeros(zeros, Dec(n));
    DigitsParse(Repeat('0', zeros) + Dec(n), n, plus);
  }

  lemma {:induction false} DigitsParse(digits: string, n: nat, plus: bool)
    requires AllDigits(digits) && digits != [] && ToNat(digits) == n
    ensures ParseU16((if plus then "+" else "") + digits) == if n <= 65_535 then Ok(n) else Err
  {
    assert IsDigit(digits[0]);
    if plus {
      assert ("+" + digits)[1..] == digits;
    } else {
      assert "" + digits == digits;
    }
  }

  lemma DigitsLack(s: string, c: char)
    requires AllDigits(s) && !IsDigit(c)
    ensures c !in s
  {
  }

  lemma DateParses(date: Date)
    requires ValidDate(date) && 1 <= date.year <= 9999
    ensures ParseDate(DateText(date)) == Ok(date)
  {
    MonthsInRange(date);
    var parts := [Pad(date.year, 4), Pad(date.month, 2), Pad(date.day, 2)];
    DigitsLack(parts[0], '-');
    DigitsLack(parts[1], '-');
    DigitsLack(parts[2], '-');
    SplitJoin(parts, '-');
    PaddedParses(date.year, 4);
    PaddedParses(date.month, 2);
    PaddedParses(date.day, 2);
  }

  lemma MonthsInRange(date: Date)
    requires ValidDate(date)
    ensures 1 <= date.month <= 12 && 1 <= date.day <= 31
  {
  }

  lemma ClockParses(time: Time, fraction: string, nanos: nat)
    requires ValidTime(time) && ParseFraction(fraction) == Ok(nanos)
    ensures ParseClock(ClockText(time), fraction) == Ok(Time(time.hour, time.minute, time.second, nanos))
  {
    var parts := [Pad(time.hour, 2), Pad(time.minute, 2), Pad(time.second, 2)];
    DigitsLack(parts[0], ':');
    DigitsLack(parts[1], ':');
    DigitsLack(parts[2], ':');
    SplitJoin(parts, ':');
    PaddedParses(time.hour, 2);
    PaddedParses(time.minute, 2);
    PaddedParses(time.second, 2);
  }

  lemma {:induction false} JoinLacks(words: seq<string>, c: char, d: char)
    requires c != d && forall i | 0 <= i < |words| :: d !in words[i]
    ensures d !in Join(words, c)
  {
    if |words| > 1 {
      JoinLacks(words[1..], c, d);
    }
  }

  lemma DateTextLacksT(date: Date)
    requires ValidDate(date) && date.year >= 0
    ensures 'T' !in DateText(date)
  {
    MonthsInRange(date);
    var parts := [Pad(date.year, 4), Pad(date.month, 2), Pad(date.day, 2)];
    DigitsLack(parts[0], 'T');
    DigitsLack(parts[1], 'T');
    DigitsLack(parts[2], 'T');
    JoinLacks(parts, '-', 'T');
  }

  lemma ClockTextLacksPoint(time: Time)
    ensures '.' !in ClockText(time)
  {
    var parts := [Pad(time.hour, 2), Pad(time.minute, 2), Pad(time.second, 2)];
    DigitsLack(parts[0], '.');
    DigitsLack(parts[1], '.');
    DigitsLack(parts[2], '.');
    JoinLacks(parts, ':', '.');
  }

  /** A printed date and time parses back, whatever follows the T. */
  lemma DateTimeParses(date: Date, clock: string, time: Time)
    requires ValidDate(date) && 1 <= date.year <= 9999 && ParseTime(clock) == Ok(time)
    requires date.month >= 0 && date.day >= 0
    ensures ParseDateTime(DateTimeOf(date, clock)) == Ok((date, Some(time)))
  {
    DateTextLacksT(date);
    SplitOnceBefore(DateText(date), 'T', clock);
    DateParses(date);
  }

  lemma WholeSecondParses(time: Time)
    requires ValidTime(time)
    ensures ParseTime(ClockText(time)) == Ok(Time(time.hour, time.minute, time.second, 0))
  {
    ClockTextLacksPoint(time);
    ClockParses(time, "", 0);
  }

  // ---------------------------------------------------------------- timestamps

  lemma FractionParses(nanos: nat)
    requires 0 < nanos < 1_000_000_000
    ensures ParseFraction(DropTrailing(Pad(nanos, FRACTION_DIGITS), '0')) == Ok(nanos)
  {
    assert Pow(10, 9) == 1_000_000_000;
    PadIsFixedWidth(nanos, FRACTION_DIGITS);
    var padded := Pad(nanos, FRACTION_DIGITS);
    var kept := DropTrailing(padded, '0');
    DropTrailingSplits(padded, '0');
    assert AllDigits(kept) by {
      assert forall i | 0 <= i < |kept| :: kept[i] == padded[i];
    }
    assert kept == [] ==> padded == Repeat('0', FRACTION_DIGITS);
    ZerosAreZero(FRACTION_DIGITS);
  }

  /** Every valid timestamp, down to the nanosecond, is printed and parsed back unchanged. */
  lemma TimestampRoundTrip(date: Date, time: Time)
    requires TimestampText(date, time).Ok?
    ensures ParseDateTime(TimestampText(date, time).value) == Ok((date, Some(time)))
  {
    MonthsInRange(date);
    if time.fraction == 0 {
      WholeSecondParses(time);
      DateTimeParses(date, ClockText(time), time);
    } else {
      var kept := DropTrailing(Pad(time.fraction, FRACTION_DIGITS), '0');
      FractionParses(time.fraction);
      ClockTextLacksPoint(time);
      SplitOnceBefore(ClockText(time), '.', kept);
      ClockParses(time, kept, time.fraction);
      DateTimeParses(date, ClockText(time) + ("." + kept), time);
    }
  }

  // ---------------------------------------------------------------- FILETIME

  lemma {:induction false} YearsAscend(a: int, b: int)
    requires a <= b
    ensures CivilFromDays(a).year <= CivilFromDays(b).year
    decreases b - a
  {
    if a < b {
      YearsAscend(a, b - 1);
      NextDayIsNextDate(b - 1);
    }
  }

  /** 1601-01-01 and 10000-01-01. */
  const FIRST_DAY := -134_774
  const PAST_LAST_DAY := 2_932_897

  lemma TurnOfEpoch()
    ensures CivilFromDays(FIRST_DAY) == Date(1601, 1, 1) && CivilFromDays(FIRST_DAY - 1) == Date(1600, 12, 31)
  {
    assert DaysFromCivil(Date(1601, 1, 1)) == FIRST_DAY && DaysFromCivil(Date(1600, 12, 31)) == FIRST_DAY - 1;
    DateRoundTrip(Date(1601, 1, 1));
    DateRoundTrip(Date(1600, 12, 31));
  }

  lemma TurnOfEnd()
    ensures CivilFromDays(PAST_LAST_DAY) == Date(10_000, 1, 1) && CivilFromDays(PAST_LAST_DAY - 1) == Date(9999, 12, 31)
  {
    assert DaysFromCivil(Date(10_000, 1, 1)) == PAST_LAST_DAY && DaysFromCivil(Date(9999, 12, 31)) == PAST_LAST_DAY - 1;
    DateRoundTrip(Date(10_000, 1, 1));
    DateRoundTrip(Date(9999, 12, 31));
  }

  lemma YearsBetween(days: int)
    ensures 1601 <= CivilFromDays(days).year <= 9999 <==> FIRST_DAY <= days < PAST_LAST_DAY
  {
    TurnOfEpoch();
    TurnOfEnd();
    if days < FIRST_DAY {
      YearsAscend(days, FIRST_DAY - 1);
    } else if days >= PAST_LAST_DAY {
      YearsAscend(PAST_LAST_DAY, days);
    } else {
      YearsAscend(FIRST_DAY, days);
      YearsAscend(days, PAST_LAST_DAY - 1);
    }
  }

  /** Exactly the FILETIMEs before the year 10000 have a text; none is too early. */
  lemma FiletimeAccepts(value: nat)
    ensures FiletimeToString(value).Ok? <==> value < 2_650_467_744_000_000_000
  {
    YearsBetween(SecondsOf(value) / DAY_SECONDS);
  }

  lemma ClockAddsUp(seconds: nat)
    requires seconds < DAY_SECONDS
    ensures var t := ClockOf(seconds); ValidTime(t) && t.hour * 3600 + t.minute * 60 + t.second == seconds
  {
  }

  lemma SecondsAddUp(value: nat)
    ensures SecondsOf(value) / DAY_SECONDS * DAY_SECONDS + SecondsOf(value) % DAY_SECONDS + FILETIME_EPOCH == value / TICKS
    ensures value - TICKS < value / TICKS * TICKS <= value
  {
  }

  /** Writing back the text of a FILETIME yields the value cut to the whole second: nothing else
      is lost, and nothing overflows. */
  lemma {:induction false} FiletimeRoundTrip(value: nat)
    requires value < U64_LIMIT && FiletimeToString(value).Ok?
    ensures FiletimeValue(FiletimeToString(value).value) == Ok(value / 10_000_000 * 10_000_000)
    ensures value - 10_000_000 < value / 10_000_000 * 10_000_000 <= value < 0x1_0000_0000_0000_0000
  {
    TextParses(SecondsOf(value));
    SecondsAddUp(value);
    ShownSeconds(value, SecondsOf(value) / DAY_SECONDS, SecondsOf(value) % DAY_SECONDS);
  }

  lemma {:induction false} ShownSeconds(value: nat, days: int, seconds: nat)
    requires seconds < DAY_SECONDS && days * DAY_SECONDS + seconds + FILETIME_EPOCH == value / TICKS
    ensures FiletimeSeconds(CivilFromDays(days), Some(ClockOf(seconds))) == value / TICKS
  {
    DaysRoundTrip(days);
    ClockAddsUp(seconds);
  }

  function ClockOr(time: Option<Time>): Time {
    if time.Some? then time.value else Time(0, 0, 0, 0)
  }

  lemma {:induction false} FiletimeShows(value: nat, days: int, seconds: nat)
    requires SecondsOf(value) / DAY_SECONDS == days && SecondsOf(value) % DAY_SECONDS == seconds
    requires 1601 <= CivilFromDays(days).year <= 9999 && CivilFromDays(days).month >= 0 && CivilFromDays(days).day >= 0
    ensures FiletimeToString(value) == Ok(DateTimeOf(CivilFromDays(days), ClockText(ClockOf(seconds))))
  {
  }

  lemma TotalBounds(days: int, seconds: int)
    requires FIRST_DAY <= days < PAST_LAST_DAY && 0 <= seconds < DAY_SECONDS
    ensures 0 <= days * DAY_SECONDS + seconds + FILETIME_EPOCH < 265_046_774_400
  {
  }

  lemma {:induction false} LeadBack(date: Date, clock: Time, days: int, total: int)
    requires CivilFromDays(days) == date && FIRST_DAY <= days < PAST_LAST_DAY
    requires 1601 <= date.year <= 9999 && date.month >= 0 && date.day >= 0
    requires var seconds := clock.hour * 3600 + clock.minute * 60 + clock.second;
             && seconds < DAY_SECONDS && ClockText(ClockOf(seconds)) == ClockText(clock)
             && total == days * DAY_SECONDS + seconds + FILETIME_EPOCH
    ensures 0 <= total < 265_046_774_400 && FiletimeToString(total * TICKS) == Ok(DateTimeOf(date, ClockText(clock)))
  {
    var seconds := clock.hour * 3600 + clock.minute * 60 + clock.second;
    TotalBounds(days, seconds);
    TicksDivideBack(total, days, seconds);
    FiletimeShows(total * TICKS, days, seconds);
  }

  /** The seconds of a date and time lead back to both. */
  lemma SecondsLeadBack(date: Date, time: Option<Time>)
    requires ValidDate(date) && 1601 <= date.year <= 9999 && ValidTime(ClockOr(time))
    requires date.month >= 0 && date.day >= 0
    ensures 0 <= FiletimeSeconds(date, time) < 265_046_774_400
    ensures FiletimeToString(FiletimeSeconds(date, time) * TICKS) == Ok(DateTimeOf(date, ClockText(ClockOr(time))))
  {
    var clock, days := ClockOr(time), DaysFromCivil(date);
    DateRoundTrip(date);
    YearsBetween(days);
    ClockOfSum(clock);
    LeadBack(date, clock, days, FiletimeSeconds(date, time));
  }

  lemma TicksDivideBack(total: nat, days: int, seconds: nat)
    requires total == days * DAY_SECONDS + seconds + FILETIME_EPOCH && seconds < DAY_SECONDS
    ensures SecondsOf(total * TICKS) / DAY_SECONDS == days && SecondsOf(total * TICKS) % DAY_SECONDS == seconds
  {
    DivModUnique(total * TICKS, TICKS, total, 0);
    DivModUnique(total - FILETIME_EPOCH, DAY_SECONDS, days, seconds);
  }

  lemma EarlyHasNone(date: Date, time: Option<Time>)
    requires ValidDate(date) && date.year <= 1600 && ValidTime(ClockOr(time))
    ensures FiletimeSeconds(date, time) < 0
  {
    DateRoundTrip(date);
    YearsBetween(DaysFromCivil(date));
    ClockOfSum(ClockOr(time));
    if DaysFromCivil(date) >= PAST_LAST_DAY {
      TurnOfEnd();
      YearsAscend(PAST_LAST_DAY, DaysFromCivil(date));
    }
  }

  /** Every date the writer's parser accepts from 1601 on has a FILETIME, it fits in 64 bits, and
      its text shows the same date and time of day; earlier dates have none. */
  lemma FiletimeOfText(text: string)
    requires ParseDateTime(text).Ok?
    ensures var (date, time) := ParseDateTime(text).value;
            && ValidDate(date) && date.month >= 0 && date.day >= 0
            && (FiletimeValue(text).Ok? <==> date.year >= 1601)
            && (FiletimeValue(text).Ok? ==>
                  && FiletimeValue(text).value < U64_LIMIT
                  && FiletimeToString(FiletimeValue(text).value) == Ok(DateTimeOf(date, ClockText(ClockOr(time)))))
  {
    var (date, time) := ParseDateTime(text).value;
    MonthsInRange(date);
    if date.year >= 1601 {
      SecondsLeadBack(date, time);
    } else {
      EarlyHasNone(date, time);
    }
  }

  lemma ClockOfSum(clock: Time)
    requires ValidTime(clock)
    ensures var seconds := clock.hour * 3600 + clock.minute * 60 + clock.second;
            seconds < DAY_SECONDS && ClockText(ClockOf(seconds)) == ClockText(clock)
  {
    var seconds := clock.hour * 3600 + clock.minute * 60 + clock.second;
    DivModUnique(seconds, 3600, clock.hour, clock.minute * 60 + clock.second);
    DivModUnique(clock.minute * 60 + clock.second, 60, clock.minute, clock.second);
    DivModUnique(seconds, 60, clock.hour * 60 + clock.minute, clock.second);
  }

  // ---------------------------------------------------------------- the unit and the epoch

  lemma PaddedTexts()
    ensures Pad(1970, 4) == "1970" && Pad(1, 2) == "01" && Pad(0, 2) == "00"
  {
    assert Dec(1) == "1" && Dec(19) == Dec(1) + "9" && Dec(197) == Dec(19) + "7" && Dec(1970) == Dec(197) + "0";
    assert Repeat('0', 0) == "" && Repeat('0', 1) == "0";
    assert "" + Dec(1970) == Dec(1970);
  }

  lemma JoinThree(a: string, b: string, c: string, d: char)
    ensures Join([a, b, c], d) == a + [d] + (b + [d] + c)
  {
    assert [a, b, c][1..] == [b, c] && [b, c][1..] == [c];
    assert Join([c], d) == c && Join([b, c], d) == b + [d] + c;
  }

  /** Unix time zero, as a text. */
  const UNIX_EPOCH := "1970-01-01T00:00:00"

  lemma EpochText()
    ensures DateTimeOf(Date(1970, 1, 1), ClockText(Time(0, 0, 0, 0))) == UNIX_EPOCH
  {
    PaddedTexts();
    JoinThree("1970", "01", "01", '-');
    JoinThree("00", "00", "00", ':');
  }

  /** The FILETIME of Unix time zero. */
  lemma {:induction false} FiletimeOfUnixEpoch()
    ensures FiletimeToString(116_444_736_000_000_000) == Ok("1970-01-01T00:00:00")
    ensures FiletimeValue("1970-01-01T00:00:00") == Ok(116_444_736_000_000_000)
  {
    assert SecondsOf(116_444_736_000_000_000) == 0;
    EpochIsZero();
    FiletimeRoundTrip(116_444_736_000_000_000);
  }

  lemma {:induction false} EpochIsZero()
    ensures TextOfSeconds(0) == Ok(UNIX_EPOCH)
  {
    assert CivilFromDays(0) == Date(1970, 1, 1);
    ClockRestarts();
    EpochText();
  }

  /** The date and time one second later, by the clock and the calendar. */
  function SecondAfter(date: Date, time: Time): (Date, Time)
    requires ValidDate(date)
  {
    if time.second < 59 then (date, time.(second := time.second + 1))
    else if time.minute < 59 then (date, Time(time.hour, time.minute + 1, 0, time.fraction))
    else if time.hour < 23 then (date, Time(time.hour + 1, 0, 0, time.fraction))
    else (NextDate(date), Time(0, 0, 0, time.fraction))
  }

  lemma {:induction false} ClockTicks(seconds: nat)
    requires seconds + 1 < DAY_SECONDS
    ensures var t := ClockOf(seconds);
            ClockOf(seconds + 1)
            == if t.second < 59 then t.(second := t.second + 1)
               else if t.minute < 59 then Time(t.hour, t.minute + 1, 0, 0) else Time(t.hour + 1, 0, 0, 0)
    ensures ClockOf(seconds).hour == 23 ==> ClockOf(seconds).minute < 59 || ClockOf(seconds).second < 59
  {
    var h, m, s := seconds / 3600, seconds % 3600 / 60, seconds % 60;
    var rest := seconds % 3600;
    assert rest == 60 * m + rest % 60 && rest % 60 == s by {
      DivModUnique(seconds, 60, 60 * h + m, rest % 60);
    }
    if s < 59 {
      DivModUnique(seconds + 1, 3600, h, rest + 1);
      DivModUnique(rest + 1, 60, m, s + 1);
      DivModUnique(seconds + 1, 60, 60 * h + m, s + 1);
    } else if m < 59 {
      DivModUnique(seconds + 1, 3600, h, rest + 1);
      DivModUnique(rest + 1, 60, m + 1, 0);
      DivModUnique(seconds + 1, 60, 60 * h + m + 1, 0);
    } else {
      DivModUnique(seconds + 1, 3600, h + 1, 0);
      DivModUnique(seconds + 1, 60, 60 * h + 60, 0);
    }
  }

  function ShownAt(seconds: int): (Date, Time) {
    (CivilFromDays(seconds / DAY_SECONDS), ClockOf(seconds % DAY_SECONDS))
  }

  lemma {:induction false} TextParses(seconds: int)
    requires TextOfSeconds(seconds).Ok?
    ensures ParseDateTime(TextOfSeconds(seconds).value) == Ok((ShownAt(seconds).0, Some(ShownAt(seconds).1)))
  {
    var date, time := CivilFromDays(seconds / DAY_SECONDS), ClockOf(seconds % DAY_SECONDS);
    DaysRoundTrip(seconds / DAY_SECONDS);
    MonthsInRange(date);
    ClockAddsUp(seconds % DAY_SECONDS);
    WholeSecondParses(time);
    DateTimeParses(date, ClockText(time), time);
  }

  lemma {:induction false} ClockRestarts()
    ensures ClockOf(86_399) == Time(23, 59, 59, 0) && ClockOf(0) == Time(0, 0, 0, 0)
  {
  }

  lemma {:induction false} ShownLater(seconds: int)
    ensures ValidDate(ShownAt(seconds).0) && ShownAt(seconds + 1) == SecondAfter(ShownAt(seconds).0, ShownAt(seconds).1)
  {
    var days, rest := seconds / DAY_SECONDS, seconds % DAY_SECONDS;
    if rest + 1 < DAY_SECONDS {
      DivModUnique(seconds + 1, DAY_SECONDS, days, rest + 1);
      DateStands(days, rest);
    } else {
      DivModUnique(seconds + 1, DAY_SECONDS, days + 1, 0);
      assert rest == 86_399;
      DateTurns(days);
    }
  }

  lemma {:induction false} DateTurns(days: int)
    ensures ValidDate(CivilFromDays(days))
    ensures (CivilFromDays(days + 1), ClockOf(0)) == SecondAfter(CivilFromDays(days), ClockOf(86_399))
  {
    NextDayIsNextDate(days);
    ClockRestarts();
  }

  lemma {:induction false} DateStands(days: int, rest: nat)
    requires rest + 1 < DAY_SECONDS
    ensures ValidDate(CivilFromDays(days))
    ensures (CivilFromDays(days), ClockOf(rest + 1)) == SecondAfter(CivilFromDays(days), ClockOf(rest))
  {
    DaysRoundTrip(days);
    ClockTicks(rest);
  }

  /** Ten million more on a FILETIME is one second more on the date and time it shows. */
  lemma {:induction false} TenMillionIsOneSecond(value: nat)
    requires FiletimeToString(value).Ok? && FiletimeToString(value + 10_000_000).Ok?
    ensures var now, later := ParseDateTime(FiletimeToString(value).value), ParseDateTime(FiletimeToString(value + 10_000_000).value);
            && now.Ok? && now.value.1.Some? && ValidDate(now.value.0) && later.Ok? && later.value.1.Some?
            && (later.value.0, later.value.1.value) == SecondAfter(now.value.0, now.value.1.value)
  {
    var seconds := SecondsOf(value);
    TicksToSeconds(value);
    assert FiletimeToString(value) == TextOfSeconds(seconds) && FiletimeToString(value + 10_000_000) == TextOfSeconds(seconds + 1);
    OneSecondOn(seconds);
  }

  lemma {:induction false} TicksToSeconds(value: nat)
    ensures SecondsOf(value + 10_000_000) == SecondsOf(value) + 1
  {
    DivModUnique(value + 10_000_000, 10_000_000, value / 10_000_000 + 1, value % 10_000_000);
  }

  lemma {:induction false} OneSecondOn(seconds: int)
    requires TextOfSeconds(seconds).Ok? && TextOfSeconds(seconds + 1).Ok?
    ensures var now, later := ParseDateTime(TextOfSeconds(seconds).value), ParseDateTime(TextOfSeconds(seconds + 1).value);
            && now.Ok? && now.value.1.Some? && ValidDate(now.value.0) && later.Ok? && later.value.1.Some?
            && (later.value.0, later.value.1.value) == SecondAfter(now.value.0, now.value.1.value)
  {
    TextParses(seconds);
    TextParses(seconds + 1);
    ShownLater(seconds);
  }

  /** Fractions of a second do not show. */
  lemma {:induction false} SameSecondSameText(a: nat, b: nat)
    requires a / 10_000_000 == b / 10_000_000
    ensures FiletimeToString(a) == FiletimeToString(b)
  {
    assert SecondsOf(a) == SecondsOf(b);
  }

  // ---------------------------------------------------------------- the form of the texts

  /** A blank separates date and time as well as a T, and a date may stand alone. */
  lemma OtherForms(date: Date, clock: string, time: Time)
    requires ValidDate(date) && 1 <= date.year <= 9999 && date.month >= 0 && date.day >= 0
    requires ParseTime(clock) == Ok(time) && 'T' !in clock
    ensures ParseDateTime(DateText(date) + (" " + clock)) == Ok((date, Some(time)))
    ensures ParseDateTime(DateText(date)) == Ok((date, None))
  {
    MonthsInRange(date);
    var parts := [Pad(date.year, 4), Pad(date.month, 2), Pad(date.day, 2)];
    DigitsLack(parts[0], ' ');
    DigitsLack(parts[1], ' ');
    DigitsLack(parts[2], ' ');
    JoinLacks(parts, '-', ' ');
    DateTextLacksT(date);
    assert 'T' !in DateText(date) + (" " + clock);
    SplitOnceBefore(DateText(date), ' ', clock);
    DateParses(date);
  }

  lemma SmallTexts()
    ensures Pad(1, 4) == "0001" && Pad(2, 2) == "02" && Pad(3, 2) == "03" && Pad(4, 2) == "04" && Pad(5, 2) == "05" && Pad(6, 2) == "06"
  {
    assert Repeat('0', 1) == "0" && Repeat('0', 3) == "000";
  }

  lemma {:induction false} FractionText()
    ensures DropTrailing(Pad(70_000_000, FRACTION_DIGITS), '0') == "07"
  {
    assert Dec(7) == "7";
    DecZeros(7, 7);
    assert Pow(10, 7) == 10_000_000;
    assert Pad(70_000_000, FRACTION_DIGITS) == Repeat('0', 1) + ("7" + Repeat('0', 7));
    assert Repeat('0', 1) + ("7" + Repeat('0', 7)) == "07" + Repeat('0', 7);
    DropTrailingBehind("07", Repeat('0', 7), '0');
    DropZeros(7);
  }

  lemma {:induction false} DecZeros(n: nat, zeros: nat)
    requires n > 0
    ensures n * Pow(10, zeros) > 0 && Dec(n * Pow(10, zeros)) == Dec(n) + Repeat('0', zeros)
  {
    if zeros == 0 {
      assert n * Pow(10, 0) == n && Dec(n) + Repeat('0', 0) == Dec(n);
    } else {
      DecZeros(n, zeros - 1);
      var shorter := n * Pow(10, zeros - 1);
      assert n * Pow(10, zeros) == 10 * shorter by {
        RegroupProduct(n, 10, Pow(10, zeros - 1));
        RegroupProduct(10, n, Pow(10, zeros - 1));
      }
      assert Repeat('0', zeros) == Repeat('0', zeros - 1) + "0";
      assert Dec(10 * shorter) == Dec(shorter) + "0";
    }
  }

  lemma {:induction false} DropZeros(zeros: nat)
    ensures DropTrailing(Repeat('0', zeros), '0') == ""
  {
    if zeros > 0 {
      assert Repeat('0', zeros)[..zeros - 1] == Repeat('0', zeros - 1);
      DropZeros(zeros - 1);
    }
  }

  /** Every part is padded with zeros, and the fraction carries no trailing ones. */
  lemma {:induction false} TimestampForm()
    ensures TimestampText(Date(1, 2, 3), Time(4, 5, 6, 70_000_000)) == Ok("0001-02-03T04:05:06.07")
  {
    SmallTexts();
    FractionText();
    JoinThree("0001", "02", "03", '-');
    JoinThree("04", "05", "06", ':');
    assert ValidDate(Date(1, 2, 3));
    assert DateText(Date(1, 2, 3)) == "0001-02-03" && ClockText(Time(4, 5, 6, 70_000_000)) == "04:05:06";
    TimestampParts();
  }

  lemma {:induction false} TimestampParts()
    ensures "0001-02-03" + ("T" + ("04:05:06" + ("." + "07"))) == "0001-02-03T04:05:06.07"
  {
  }

  lemma ThreeParts(text: string, c: char)
    requires |Split(text, c)| == 3
    ensures var parts := Split(text, c);
            && text == parts[0] + ([c] + (parts[1] + ([c] + parts[2])))
            && c !in parts[0] && c !in parts[1] && c !in parts[2]
  {
    var parts := Split(text, c);
    JoinSplit(text, c);
    assert parts == [parts[0], parts[1], parts[2]];
    JoinThree(parts[0], parts[1], parts[2], c);
  }

  /** What the date parser takes: three numbers between two hyphens, a valid date from the year 1 to 9999. */
  lemma DateAccepted(text: string) returns (year: string, month: string, day: string)
    requires ParseDate(text).Ok?
    ensures text == year + ("-" + (month + ("-" + day))) && '-' !in year && '-' !in month && '-' !in day
    ensures var date := ParseDate(text).value;
            && 1 <= date.year <= 9999 && ValidDate(date)
            && ParseU16(year) == Ok(date.year) && ParseU16(month) == Ok(date.month) && ParseU16(day) == Ok(date.day)
  {
    var parts := Split(text, '-');
    ThreeParts(text, '-');
    year, month, day := parts[0], parts[1], parts[2];
  }

  /** What the time parser takes: three numbers between two colons, within the day, and at most nine digits of
      a fraction, counted in billionths of a second. */
  lemma TimeAccepted(head: string, fraction: string) returns (hour: string, minute: string, second: string)
    requires ParseClock(head, fraction).Ok?
    ensures head == hour + (":" + (minute + (":" + second))) && ':' !in hour && ':' !in minute && ':' !in second
    ensures var time := ParseClock(head, fraction).value;
            && time.hour < 24 && time.minute < 60 && time.second < 60
            && ParseU16(hour) == Ok(time.hour) && ParseU16(minute) == Ok(time.minute) && ParseU16(second) == Ok(time.second)
            && |fraction| <= 9 && AllDigits(fraction) && time.fraction == ToNat(fraction) * Pow(10, 9 - |fraction|)
  {
    var parts := Split(head, ':');
    ThreeParts(head, ':');
    hour, minute, second := parts[0], parts[1], parts[2];
    if fraction != [] {
      TrailingZeros(fraction, 9 - |fraction|);
    }
  }
}
