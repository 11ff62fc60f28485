/** Day numbers of the Gregorian calendar, both ways. */
module Calendar {
  import opened Prelude

  datatype Date = Date(year: int, month: int, day: int)

  /** Rust's integer division rounds toward zero. */
  function TruncatedDiv(a: int, b: int): int
    requires b > 0
  {
    if a >= 0 then a / b else -(-a / b)
  }

  // ---------------------------------------------------------------- the calendar itself

  predicate IsLeap(year: int) {
    year % 4 == 0 && (year % 100 != 0 || year % 400 == 0)
  }

  /** `gregorian_month_len` */
  function MonthLength(year: int, month: int): Option<int> {
    if month in {1, 3, 5, 7, 8, 10, 12} then Some(31)
    else if month in {4, 6, 9, 11} then Some(30)
    else if month == 2 then Some(if IsLeap(year) then 29 else 28)
    else None
  }

  predicate ValidDate(date: Date) {
    MonthLength(date.year, date.month).Some? && 1 <= date.day <= MonthLength(date.year, date.month).value
  }

  // ---------------------------------------------------------------- the source's arithmetic

  const ERA_DAYS := 146_097
  const EPOCH_SHIFT := 719_468

  function YearOfEra(doe: int): int {
    (doe - doe / 1460 + doe / 36_524 - doe / 146_096) / 365
  }

  /** Days of an era before its year yoe, years counted from March. */
  function YearStart(yoe: int): int {
    365 * yoe + yoe / 4 - yoe / 100
  }

  /** Days of a March year before its month mp. */
  function MonthStart(mp: int): int {
    (153 * mp + 2) / 5
  }

  function MonthIndex(doy: int): int {
    (5 * doy + 2) / 153
  }

  /** `civil_from_days` */
  function CivilFromDays(days: int): Date {
    var z := days + EPOCH_SHIFT;
    var era := TruncatedDiv(if z >= 0 then z else z - 146_096, ERA_DAYS);
    CivilOfEra(era, z - era * ERA_DAYS)
  }

  function CivilOfEra(era: int, doe: int): Date {
    var yoe := YearOfEra(doe);
    var doy := doe - YearStart(yoe);
    var mp := MonthIndex(doy);
    var month := mp + (if mp < 10 then 3 else -9);
    Date(yoe + era * 400 + (if month <= 2 then 1 else 0), month, doy - MonthStart(mp) + 1)
  }

  /** `days_from_civil` */
  function DaysFromCivil(date: Date): int {
    var year := date.year - (if date.month <= 2 then 1 else 0);
    var era := TruncatedDiv(if year >= 0 then year else year - 399, 400);
    var yoe := year - era * 400;
    var doy := MonthStart(date.month + (if date.month > 2 then -3 else 9)) + date.day - 1;
    era * ERA_DAYS + (YearStart(yoe) + doy) - EPOCH_SHIFT
  }

  // ---------------------------------------------------------------- parts of a day number

  /** Subtracting one less than the divisor turns the truncating division into a floor. */
  lemma FloorByTruncation(a: int, b: int)
    requires b > 0
    ensures TruncatedDiv(if a >= 0 then a else a - (b - 1), b) == a / b
  {
    if a < 0 {
      var k := -a + b - 1;
      var q := k / b;
      DivModUnique(a, b, -q, a + b * q);
    }
  }

  /** A day of an era as century, four-year cycle, year of the cycle and day of that year. */
  lemma YearOfDayIn(c: int, q: int, w: int, doy: int)
    requires 0 <= c < 4 && 0 <= q < 25 && 0 <= w < 4 && 0 <= doy < 365 + (if w == 3 then 1 else 0)
    requires q == 24 && w == 3 && c < 3 ==> doy < 365
    ensures YearOfEra(36_524 * c + 1461 * q + 365 * w + doy) == 100 * c + 4 * q + w
  {
    var s := 365 * w + doy;
    var doe := 36_524 * c + 1461 * q + s;
    if doe == 146_096 {
      assert c == 3 && q == 24 && w == 3;
    } else {
      var late := if 24 * c + q + s >= 1460 then 1 else 0;
      DivModUnique(doe, 1460, 25 * c + q + late, 24 * c + q + s - 1460 * late);
      DivModUnique(doe, 36_524, c, 1461 * q + s);
      DivModUnique(36_500 * c + 1460 * q + s - late, 365, 100 * c + 4 * q + w, doy - late);
    }
  }

  lemma YearStartOf(c: int, q: int, w: int)
    requires 0 <= c && 0 <= q < 25 && 0 <= w < 4
    ensures YearStart(100 * c + 4 * q + w) == 36_524 * c + 1461 * q + 365 * w
  {
    DivModUnique(100 * c + 4 * q + w, 4, 25 * c + q, w);
    DivModUnique(100 * c + 4 * q + w, 100, c, 4 * q + w);
  }

  /** Days of the March year yoe of an era; its February belongs to the next civil year. */
  function YearLength(yoe: int): int {
    if IsLeap(yoe + 1) then 366 else 365
  }

  lemma LengthOf(c: int, q: int, w: int)
    requires 0 <= c < 4 && 0 <= q < 25 && 0 <= w < 4
    ensures YearLength(100 * c + 4 * q + w) == if w == 3 && (q < 24 || c == 3) then 366 else 365
  {
    var n := 100 * c + 4 * q + w + 1;
    if w < 3 {
      DivModUnique(n, 4, 25 * c + q, w + 1);
    } else {
      DivModUnique(n, 4, 25 * c + q + 1, 0);
      if q < 24 {
        DivModUnique(n, 100, c, 4 * q + 4);
      } else {
        DivModUnique(n, 100, c + 1, 0);
      }
    }
  }

  /** The year the formula names is the one the day lies in, counting March years of an era. */
  lemma YearIsNamed(yoe: int, doy: int)
    requires 0 <= yoe < 400 && 0 <= doy < YearLength(yoe)
    ensures 0 <= YearStart(yoe) + doy < ERA_DAYS
    ensures YearOfEra(YearStart(yoe) + doy) == yoe
  {
    var c, q, w := yoe / 100, yoe % 100 / 4, yoe % 4;
    assert yoe == 100 * c + 4 * q + w;
    YearStartOf(c, q, w);
    LengthOf(c, q, w);
    YearOfDayIn(c, q, w, doy);
  }

  /** Every day of an era lies in some year. */
  lemma DayHasYear(doe: int) returns (yoe: int, doy: int)
    requires 0 <= doe < ERA_DAYS
    ensures 0 <= yoe < 400 && 0 <= doy < YearLength(yoe) && doe == YearStart(yoe) + doy
  {
    var c := if doe / 36_524 == 4 then 3 else doe / 36_524;
    var r := doe - 36_524 * c;
    var q := if r / 1461 == 25 then 24 else r / 1461;
    var s := r - 1461 * q;
    var w := if s / 365 >= 4 then 3 else s / 365;
    yoe, doy := 100 * c + 4 * q + w, s - 365 * w;
    YearStartOf(c, q, w);
    LengthOf(c, q, w);
  }

  // ---------------------------------------------------------------- parts of a March year

  /** A month index is named by its days, and the last one ends with the year. */
  lemma MonthIsNamed(mp: int, day: int)
    requires 0 <= mp < 12 && 1 <= day <= (if mp < 11 then MonthStart(mp + 1) - MonthStart(mp) else 29)
    ensures MonthIndex(MonthStart(mp) + day - 1) == mp
  {
  }

  lemma MonthOfDay(doy: int)
    requires 0 <= doy < 366
    ensures var mp := MonthIndex(doy);
            && 0 <= mp < 12 && MonthStart(mp) <= doy
            && (mp < 11 ==> doy < MonthStart(mp + 1)) && (mp == 11 ==> MonthStart(11) == 337)
  {
  }

  function MonthOf(mp: int): int {
    mp + (if mp < 10 then 3 else -9)
  }

  /** Month lengths are the gaps between month starts; February takes what the year leaves. */
  lemma MonthGaps(mp: int, year: int)
    requires 0 <= mp < 12
    ensures MonthLength(year, MonthOf(mp))
            == Some(if mp < 11 then MonthStart(mp + 1) - MonthStart(mp) else if IsLeap(year) then 29 else 28)
  {
  }

  lemma LeapRepeats(year: int, era: int)
    ensures IsLeap(year + 400 * era) == IsLeap(year)
  {
    DivModUnique(year + 400 * era, 4, year / 4 + 100 * era, year % 4);
    DivModUnique(year + 400 * era, 100, year / 100 + 4 * era, year % 100);
    DivModUnique(year + 400 * era, 400, year / 400 + era, year % 400);
  }

  // ---------------------------------------------------------------- the two conversions

  /** A date by era, year of the era and day of the March year. */
  function DateAt(era: int, yoe: int, doy: int): Date {
    var mp := MonthIndex(doy);
    Date(yoe + era * 400 + (if mp >= 10 then 1 else 0), MonthOf(mp), doy - MonthStart(mp) + 1)
  }

  function DayAt(era: int, yoe: int, doy: int): int {
    era * ERA_DAYS + (YearStart(yoe) + doy) - EPOCH_SHIFT
  }

  lemma DateAtIsValid(era: int, yoe: int, doy: int)
    requires 0 <= yoe < 400 && 0 <= doy < YearLength(yoe)
    ensures ValidDate(DateAt(era, yoe, doy))
  {
    MonthOfDay(doy);
    MonthGaps(MonthIndex(doy), DateAt(era, yoe, doy).year);
    LeapRepeats(yoe + 1, era);
  }

  lemma FromDaysAt(era: int, yoe: int, doy: int)
    requires 0 <= yoe < 400 && 0 <= doy < YearLength(yoe)
    ensures CivilFromDays(DayAt(era, yoe, doy)) == DateAt(era, yoe, doy)
  {
    var doe := YearStart(yoe) + doy;
    DateOfEra(era, yoe, doy, doe);
    EraOfDay(era, doe);
    assert DayAt(era, yoe, doy) == era * ERA_DAYS + doe - EPOCH_SHIFT;
  }

  lemma DateOfEra(era: int, yoe: int, doy: int, doe: int)
    requires 0 <= yoe < 400 && 0 <= doy < YearLength(yoe) && doe == YearStart(yoe) + doy
    ensures 0 <= doe < ERA_DAYS && CivilOfEra(era, doe) == DateAt(era, yoe, doy)
  {
    YearIsNamed(yoe, doy);
    MonthOfDay(doy);
  }

  lemma EraByDivision(z: int)
    ensures CivilFromDays(z - EPOCH_SHIFT) == CivilOfEra(z / ERA_DAYS, z % ERA_DAYS)
  {
    FloorByTruncation(z, ERA_DAYS);
    assert z - z / ERA_DAYS * ERA_DAYS == z % ERA_DAYS;
  }

  lemma EraOfDay(era: int, doe: int)
    requires 0 <= doe < ERA_DAYS
    ensures CivilFromDays(era * ERA_DAYS + doe - EPOCH_SHIFT) == CivilOfEra(era, doe)
  {
    var z := era * ERA_DAYS + doe;
    DivModUnique(z, ERA_DAYS, era, doe);
    EraByDivision(z);
  }

  lemma ToDaysAt(era: int, yoe: int, doy: int)
    requires 0 <= yoe < 400 && 0 <= doy < YearLength(yoe)
    ensures DaysFromCivil(DateAt(era, yoe, doy)) == DayAt(era, yoe, doy)
  {
    MonthOfDay(doy);
    var year := yoe + era * 400;
    FloorByTruncation(year, 400);
    DivModUnique(year, 400, era, yoe);
  }

  /** Every day number has its place in the calendar. */
  lemma DayHasPlace(days: int) returns (era: int, yoe: int, doy: int)
    ensures 0 <= yoe < 400 && 0 <= doy < YearLength(yoe) && days == DayAt(era, yoe, doy)
  {
    var z := days + EPOCH_SHIFT;
    era := z / ERA_DAYS;
    yoe, doy := DayHasYear(z % ERA_DAYS);
  }

  /** So has every valid date. */
  lemma DateHasPlace(date: Date) returns (era: int, yoe: int, doy: int)
    requires ValidDate(date)
    ensures 0 <= yoe < 400 && 0 <= doy < YearLength(yoe) && date == DateAt(era, yoe, doy)
  {
    var year := date.year - (if date.month <= 2 then 1 else 0);
    var mp := date.month + (if date.month > 2 then -3 else 9);
    era, yoe := year / 400, year % 400;
    doy := MonthStart(mp) + date.day - 1;
    MonthGaps(mp, date.year);
    MonthIsNamed(mp, date.day);
    LeapRepeats(yoe + 1, era);
    MonthWithinYear(mp, date.day);
  }

  lemma MonthWithinYear(mp: int, day: int)
    requires 0 <= mp < 12 && 1 <= day
    ensures mp < 11 && day <= MonthStart(mp + 1) - MonthStart(mp) ==> MonthStart(mp) + day - 1 < 365
    ensures mp == 11 ==> MonthStart(mp) + day - 1 == 336 + day
  {
  }

  /** Every day number becomes a valid date, within its month, and that date becomes the same day
      number again. */
  lemma DaysRoundTrip(days: int)
    ensures ValidDate(CivilFromDays(days))
    ensures DaysFromCivil(CivilFromDays(days)) == days
  {
    var era, yoe, doy := DayHasPlace(days);
    FromDaysAt(era, yoe, doy);
    DateAtIsValid(era, yoe, doy);
    ToDaysAt(era, yoe, doy);
  }

  /** Every valid date, of any year before or after the epoch, comes back from its day number. */
  lemma DateRoundTrip(date: Date)
    requires ValidDate(date)
    ensures CivilFromDays(DaysFromCivil(date)) == date
  {
    var era, yoe, doy := DateHasPlace(date);
    FromDaysAt(era, yoe, doy);
    ToDaysAt(era, yoe, doy);
  }

  // ---------------------------------------------------------------- the order of days

  function NextDate(date: Date): Date
    requires ValidDate(date)
  {
    if date.day < MonthLength(date.year, date.month).value then date.(day := date.day + 1)
    else if date.month < 12 then Date(date.year, date.month + 1, 1)
    else Date(date.year + 1, 1, 1)
  }

  /** The day after is the date after: day numbers count the calendar, not just some bijection of it. */
  lemma NextDayIsNextDate(days: int)
    ensures ValidDate(CivilFromDays(days))
    ensures CivilFromDays(days + 1) == NextDate(CivilFromDays(days))
  {
    DaysRoundTrip(days);
    var era, yoe, doy := DayHasPlace(days);
    FromDaysAt(era, yoe, doy);
    NextPlace(era, yoe, doy);
  }

  lemma NextInYear(era: int, yoe: int, doy: int)
    requires 0 <= yoe < 400 && 0 <= doy && doy + 1 < YearLength(yoe)
    requires ValidDate(DateAt(era, yoe, doy))
    ensures NextDate(DateAt(era, yoe, doy)) == DateAt(era, yoe, doy + 1)
  {
    var mp := MonthIndex(doy);
    MonthOfDay(doy);
    MonthGaps(mp, DateAt(era, yoe, doy).year);
    LeapRepeats(yoe + 1, era);
    MonthAfter(doy);
  }

  lemma MonthAfter(doy: int)
    requires 0 <= doy < 365
    ensures var mp := MonthIndex(doy);
            MonthIndex(doy + 1) == if mp < 11 && doy + 1 == MonthStart(mp + 1) then mp + 1 else mp
  {
    MonthOfDay(doy);
    MonthOfDay(doy + 1);
  }

  lemma FirstOfYear(era: int, yoe: int, doy: int)
    requires doy == 0
    ensures DateAt(era, yoe, doy) == Date(yoe + era * 400, 3, 1)
  {
    assert MonthIndex(doy) == 0;
  }

  lemma LastOfYear(era: int, yoe: int)
    ensures DateAt(era, yoe, YearLength(yoe) - 1) == Date(yoe + era * 400 + 1, 2, if IsLeap(yoe + 1) then 29 else 28)
  {
    assert MonthIndex(365) == 11 && MonthIndex(364) == 11 && MonthStart(11) == 337;
  }

  lemma NextYear(era: int, yoe: int)
    requires ValidDate(DateAt(era, yoe, YearLength(yoe) - 1))
    ensures NextDate(DateAt(era, yoe, YearLength(yoe) - 1)) == Date(yoe + era * 400 + 1, 3, 1)
  {
    LastOfYear(era, yoe);
    LeapRepeats(yoe + 1, era);
  }

  /** The era and year after a March year. */
  predicate Follows(era: int, yoe: int, nextEra: int, next: int) {
    if yoe == 399 then nextEra == era + 1 && next == 0 else nextEra == era && next == yoe + 1
  }

  lemma DayAfterYear(era: int, yoe: int, last: int, nextEra: int, next: int, first: int)
    requires 0 <= yoe < 400 && last == YearLength(yoe) - 1 && first == 0 && Follows(era, yoe, nextEra, next)
    ensures DayAt(era, yoe, last) + 1 == DayAt(nextEra, next, first)
  {
    YearEnds(yoe);
    FirstStart(next);
  }

  lemma FirstStart(yoe: int)
    ensures yoe == 0 ==> YearStart(yoe) == 0
  {
  }

  lemma NewYearDate(era: int, yoe: int, first: int)
    requires 0 <= yoe < 400 && first == 0
    ensures CivilFromDays(DayAt(era, yoe, first)) == Date(yoe + era * 400, 3, 1)
  {
    FromDaysAt(era, yoe, first);
    FirstOfYear(era, yoe, first);
  }

  lemma NextPlaceInYear(era: int, yoe: int, doy: int)
    requires 0 <= yoe < 400 && 0 <= doy && doy + 1 < YearLength(yoe)
    requires ValidDate(DateAt(era, yoe, doy))
    ensures CivilFromDays(DayAt(era, yoe, doy) + 1) == NextDate(DateAt(era, yoe, doy))
  {
    FromDaysAt(era, yoe, doy + 1);
    NextInYear(era, yoe, doy);
    assert DayAt(era, yoe, doy) + 1 == DayAt(era, yoe, doy + 1);
  }

  lemma NextPlaceNewYear(era: int, yoe: int, last: int, nextEra: int, next: int, first: int)
    requires 0 <= yoe < 400 && last == YearLength(yoe) - 1 && first == 0 && Follows(era, yoe, nextEra, next)
    requires ValidDate(DateAt(era, yoe, last))
    ensures CivilFromDays(DayAt(era, yoe, last) + 1) == NextDate(DateAt(era, yoe, last))
  {
    DayAfterYear(era, yoe, last, nextEra, next, first);
    NextYear(era, yoe);
    NewYearDate(nextEra, next, first);
  }

  lemma NextPlace(era: int, yoe: int, doy: int)
    requires 0 <= yoe < 400 && 0 <= doy < YearLength(yoe)
    requires ValidDate(DateAt(era, yoe, doy))
    ensures CivilFromDays(DayAt(era, yoe, doy) + 1) == NextDate(DateAt(era, yoe, doy))
  {
    if doy + 1 < YearLength(yoe) {
      NextPlaceInYear(era, yoe, doy);
    } else {
      NextPlaceNewYear(era, yoe, doy, if yoe == 399 then era + 1 else era, if yoe == 399 then 0 else yoe + 1, 0);
    }
  }

  lemma YearEnds(yoe: int)
    requires 0 <= yoe < 400
    ensures YearStart(yoe) + YearLength(yoe) == if yoe == 399 then ERA_DAYS else YearStart(yoe + 1)
  {
    var c, q, w := yoe / 100, yoe % 100 / 4, yoe % 4;
    assert yoe == 100 * c + 4 * q + w;
    YearStartOf(c, q, w);
    LengthOf(c, q, w);
    if w < 3 {
      YearStartOf(c, q, w + 1);
    } else if q < 24 {
      YearStartOf(c, q + 1, 0);
    } else {
      YearStartOf(c + 1, 0, 0);
    }
  }
}
