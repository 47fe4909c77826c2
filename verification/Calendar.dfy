/** The SigV4 timestamp arithmetic: epoch seconds to calendar text and back, measured against a
    calendar that simply counts days. */
module Calendar {
  import opened Base

  const SECS_PER_DAY: nat := 86_400
  const SECS_PER_HOUR: nat := 3_600
  /** 10000-01-01T00:00:00Z. */
  const YEAR_10000: nat := 253_402_300_800

  datatype Date = Date(year: int, month: int, day: int)

  // ---- The reference calendar ----

  predicate Leap(y: int) {
    y % 4 == 0 && (y % 100 != 0 || y % 400 == 0)
  }

  function DaysIn(y: int, m: int): int {
    if m == 2 then if Leap(y) then 29 else 28
    else if m == 4 || m == 6 || m == 9 || m == 11 then 30
    else 31
  }

  predicate ValidDate(d: Date) {
    1 <= d.month <= 12 && 1 <= d.day <= DaysIn(d.year, d.month)
  }

  function NextDay(d: Date): Date {
    if d.day < DaysIn(d.year, d.month) then d.(day := d.day + 1)
    else if d.month < 12 then Date(d.year, d.month + 1, 1)
    else Date(d.year + 1, 1, 1)
  }

  /** The date `n` days after 1970-01-01, counted one day at a time. */
  function Counted(n: nat): (d: Date)
    ensures ValidDate(d) && d.year >= 1970
  {
    if n == 0 then Date(1970, 1, 1) else NextDay(Counted(n - 1))
  }

  // ---- The code's closed forms ----

  function YearInEra(doe: int): int {
    (doe - doe / 1460 + doe / 36_524 - doe / 146_096) / 365
  }

  /** The date of day `doy` of the year that starts in March of `year`. */
  function DateInYear(year: int, doy: int): Date {
    var mp := (5 * doy + 2) / 153;
    var day := doy - (153 * mp + 2) / 5 + 1;
    var month := if mp < 10 then mp + 3 else mp - 9;
    Date(if month <= 2 then year + 1 else year, month, day)
  }

  function DaysBeforeInEra(yoe: int): int {
    365 * yoe + yoe / 4 - yoe / 100
  }

  function CivilFromDays(days: nat): Date {
    var z := days + 719_468;
    var era := z / 146_097;
    var doe := z - era * 146_097;
    var yoe := YearInEra(doe);
    DateInYear(yoe + era * 400, doe - DaysBeforeInEra(yoe))
  }

  function DaysFromCivil(d: Date): int {
    var y := if d.month <= 2 then d.year - 1 else d.year;
    var era := (if y >= 0 then y else y - 399) / 400;
    var yoe := y - era * 400;
    var doy := (153 * (if d.month > 2 then d.month - 3 else d.month + 9) + 2) / 5 + d.day - 1;
    var doe := yoe * 365 + yoe / 4 - yoe / 100 + doy;
    era * 146_097 + doe - 719_468
  }

  // ---- They agree ----

  /** Days before the March that starts year `y`, over the whole proleptic calendar. */
  function DaysBefore(y: nat): int {
    365 * y + y / 4 - y / 100 + y / 400
  }

  function MarchYear(d: Date): int {
    if d.month <= 2 then d.year - 1 else d.year
  }

  function MarchMonth(m: int): int {
    if m > 2 then m - 3 else m + 9
  }

  /** Days before month `m` in a year that starts in March. */
  function MonthStart(m: int): int {
    (153 * MarchMonth(m) + 2) / 5
  }

  lemma MonthStarts(m: int)
    requires 1 <= m <= 12
    ensures MonthStart(m) == [306, 337, 0, 31, 61, 92, 122, 153, 184, 214, 245, 275][m - 1]
  {
  }

  lemma EraDays(y: nat)
    ensures var era, yoe := y / 400, y % 400;
      era * 146_097 + (yoe * 365 + yoe / 4 - yoe / 100) == DaysBefore(y)
  {
    var era, yoe := y / 400, y % 400;
    assert y == 400 * era + yoe;
    assert y / 4 == 100 * era + yoe / 4;
    assert y / 100 == 4 * era + yoe / 100;
  }

  /** The day within a year that starts in March. */
  function DayOfYear(d: Date): int {
    MonthStart(d.month) + d.day - 1
  }

  lemma DaysFromCivilForm(d: Date)
    requires ValidDate(d) && d.year >= 1
    ensures DaysFromCivil(d) == DaysBefore(MarchYear(d)) + DayOfYear(d) - 719_468
  {
    EraDays(MarchYear(d));
  }

  lemma YearLength(y: nat)
    ensures DaysBefore(y + 1) == DaysBefore(y) + if Leap(y + 1) then 366 else 365
  {
    assert (y + 1) / 4 == y / 4 + if (y + 1) % 4 == 0 then 1 else 0;
    assert (y + 1) / 100 == y / 100 + if (y + 1) % 100 == 0 then 1 else 0;
    assert (y + 1) / 400 == y / 400 + if (y + 1) % 400 == 0 then 1 else 0;
  }

  /** The next day is the next of the same March year, or the first of the next one. */
  lemma NextDayOfYear(d: Date)
    requires ValidDate(d)
    ensures var e := NextDay(d);
      && ValidDate(e)
      && (MarchYear(e) == MarchYear(d) ==> DayOfYear(e) == DayOfYear(d) + 1)
      && (MarchYear(e) != MarchYear(d) ==>
            && MarchYear(e) == MarchYear(d) + 1 && DayOfYear(e) == 0
            && DayOfYear(d) + 1 == if Leap(MarchYear(e)) then 366 else 365)
  {
    MonthStarts(d.month);
    MonthStarts(NextDay(d).month);
  }

  /** Counting one day forward adds one to the day number. */
  lemma NextDayAddsOne(d: Date)
    requires ValidDate(d) && d.year >= 1
    ensures ValidDate(NextDay(d)) && DaysFromCivil(NextDay(d)) == DaysFromCivil(d) + 1
  {
    NextDayOfYear(d);
    assert DaysFromCivil(d) == DaysBefore(MarchYear(d)) + DayOfYear(d) - 719_468 by {
      DaysFromCivilForm(d);
    }
    assert DaysFromCivil(NextDay(d)) == DaysBefore(MarchYear(NextDay(d))) + DayOfYear(NextDay(d)) - 719_468 by {
      DaysFromCivilForm(NextDay(d));
    }
    if MarchYear(NextDay(d)) != MarchYear(d) {
      YearLength(MarchYear(d));
    }
  }

  lemma EpochIsDayZero()
    ensures DaysFromCivil(Date(1970, 1, 1)) == 0
  {
  }

  lemma {:induction false} CountedDayNumber(n: nat)
    ensures DaysFromCivil(Counted(n)) == n
  {
    hide DaysFromCivil, NextDay;
    if n > 0 {
      CountedDayNumber(n - 1);
      NextDayAddsOne(Counted(n - 1));
    } else {
      EpochIsDayZero();
    }
  }

  lemma CenturiesOfEra(c: nat, inCentury: nat)
    requires c < 4 && inCentury < 36_524 + if c == 3 then 1 else 0
    ensures var doe := 36_524 * c + inCentury; doe / 36_524 - doe / 146_096 == c && doe <= 146_096
  {
  }

  lemma EraQuotient(year: nat, day: nat)
    requires day < 365
    ensures (365 * year + day) / 365 == year
  {
  }

  lemma LeapDaysOfEra(k: nat, t: nat)
    requires t < 2920
    ensures (1460 * k + t) / 1460 == k + if t >= 1460 then 1 else 0
  {
  }

  /** The year-of-era formula undoes the day-of-era formula, leap days included. */
  lemma YearOfEra(yoe: nat, doy: nat)
    requires yoe < 400 && doy <= 365 && (doy == 365 ==> Leap(yoe + 1))
    ensures var doe := DaysBeforeInEra(yoe) + doy;
      0 <= doe <= 146_096 && YearInEra(doe) == yoe
  {
    var c, q, r := yoe / 100, yoe % 100 / 4, yoe % 4;
    assert yoe == 100 * c + 4 * q + r && yoe / 4 == 25 * c + q;
    YearOfEraParts(c, q, r, doy);
  }

  lemma YearOfEraParts(c: nat, q: nat, r: nat, doy: nat)
    requires c < 4 && q < 25 && r < 4 && doy <= 365
    requires doy == 365 ==> r == 3 && (q < 24 || c == 3)
    ensures var doe := 36_524 * c + 1461 * q + 365 * r + doy;
      doe <= 146_096 && YearInEra(doe) == 100 * c + 4 * q + r
  {
    var doe := 36_524 * c + 1461 * q + 365 * r + doy;
    CenturiesOfEra(c, 1461 * q + 365 * r + doy);
    var k, t := 25 * c + q, 24 * c + q + 365 * r + doy;
    assert doe == 1460 * k + t;
    LeapDaysOfEra(k, t);
    var e := if t >= 1460 then 1 else 0;
    assert 0 <= doy - e < 365;
    EraQuotient(100 * c + 4 * q + r, doy - e);
  }

  /** The day of the era that a date falls on. */
  function DayOfEra(d: Date): int {
    DaysBeforeInEra(MarchYear(d) % 400) + DayOfYear(d)
  }

  lemma DayOfEraMeaning(d: Date)
    requires ValidDate(d) && d.year >= 1970
    ensures DaysFromCivil(d) == MarchYear(d) / 400 * 146_097 + DayOfEra(d) - 719_468 >= 0
  {
    DaysFromCivilForm(d);
    EraDays(MarchYear(d));
    DaysBeforeMonotone(1969, MarchYear(d));
    MonthStarts(d.month);
  }

  lemma DayOfYearBound(d: Date)
    requires ValidDate(d) && d.year >= 1
    ensures 0 <= DayOfYear(d) <= 365 && (DayOfYear(d) == 365 ==> Leap(MarchYear(d) % 400 + 1))
  {
    MonthStarts(d.month);
    LeapOfEra(MarchYear(d));
  }

  lemma DayOfEraForm(d: Date)
    ensures DayOfEra(d) == DaysBeforeInEra(MarchYear(d) % 400) + DayOfYear(d)
  {
  }

  lemma DateInYearInverts(d: Date)
    requires ValidDate(d)
    ensures DateInYear(MarchYear(d), DayOfYear(d)) == d
  {
    MonthOfYear(d.month, d.day, DayOfYear(d));
  }

  lemma YearInEraInverts(d: Date)
    requires ValidDate(d) && d.year >= 1
    ensures 0 <= DayOfEra(d) <= 146_096 && YearInEra(DayOfEra(d)) == MarchYear(d) % 400
  {
    DayOfYearBound(d);
    YearOfEra(MarchYear(d) % 400, DayOfYear(d));
  }

  /** The closed forms are inverse to each other. */
  lemma CivilInvertsDays(d: Date)
    requires ValidDate(d) && d.year >= 1970
    ensures DaysFromCivil(d) >= 0 && CivilFromDays(DaysFromCivil(d)) == d
  {
    hide DaysFromCivil, DayOfEra, YearInEra, DateInYear, ValidDate;
    var y, doe, days := MarchYear(d), DayOfEra(d), DaysFromCivil(d);
    assert days + 719_468 == y / 400 * 146_097 + doe && days >= 0 by {
      DayOfEraMeaning(d);
    }
    YearInEraInverts(d);
    EraOf(y / 400, doe);
    assert doe - DaysBeforeInEra(y % 400) == DayOfYear(d) by {
      DayOfEraForm(d);
    }
    DateInYearInverts(d);
  }

  lemma EraOf(era: nat, doe: nat)
    requires doe <= 146_096
    ensures (era * 146_097 + doe) / 146_097 == era
  {
  }

  lemma LeapOfEra(y: nat)
    ensures Leap(y + 1) <==> Leap(y % 400 + 1)
  {
    LeapRepeats(y / 400, y % 400 + 1);
  }

  lemma LeapRepeats(era: nat, y: int)
    ensures Leap(400 * era + y) <==> Leap(y)
  {
    assert (400 * era + y) / 4 == 100 * era + y / 4;
    assert (400 * era + y) / 100 == 4 * era + y / 100;
    assert (400 * era + y) / 400 == era + y / 400;
  }

  lemma MonthOfYear(m: int, day: int, doy: int)
    requires 1 <= m <= 12 && 1 <= day <= DaysIn(2000, m) && doy == MonthStart(m) + day - 1
    ensures (5 * doy + 2) / 153 == MarchMonth(m)
  {
    MonthStarts(m);
  }

  lemma {:induction false} DaysBeforeMonotone(a: nat, b: nat)
    requires a <= b
    ensures DaysBefore(a) + 365 * (b - a) <= DaysBefore(b)
    decreases b - a
  {
    if a < b {
      DaysBeforeMonotone(a, b - 1);
      YearLength(b - 1);
    }
  }

  /** The code's calendar is the day-by-day calendar, on every day from the epoch on. */
  lemma CivilIsCounted(days: nat)
    ensures CivilFromDays(days) == Counted(days) && DaysFromCivil(CivilFromDays(days)) == days
  {
    CountedDayNumber(days);
    CivilInvertsDays(Counted(days));
  }

  // ---- Text ----

  function Digits(n: nat): (s: string)
    ensures s != []
  {
    if n < 10 then ["0123456789"[n]] else Digits(n / 10) + ["0123456789"[n % 10]]
  }

  /** `n` in decimal, zero-padded to at least `width` digits. */
  function Padded(n: nat, width: nat): string {
    var d := Digits(n);
    seq(if |d| < width then width - |d| else 0, _ => '0') + d
  }

  predicate IsDigit(c: char) {
    '0' <= c <= '9'
  }

  predicate AllDigits(s: string) {
    forall i :: 0 <= i < |s| ==> IsDigit(s[i])
  }

  function Number(s: string): nat
    requires AllDigits(s)
  {
    if s == [] then 0 else Number(s[..|s| - 1]) * 10 + (s[|s| - 1] as int - '0' as int)
  }

  function DateText(d: Date): string
    requires d.year >= 0 && d.month >= 0 && d.day >= 0
  {
    Padded(d.year, 4) + Padded(d.month, 2) + Padded(d.day, 2)
  }

  function TimeText(d: Date, h: nat, mi: nat, s: nat): string
    requires d.year >= 0 && d.month >= 0 && d.day >= 0
  {
    DateText(d) + "T" + Padded(h, 2) + Padded(mi, 2) + Padded(s, 2) + "Z"
  }

  /** `format_amz_time`: the timestamp and its date stamp. */
  function FormatAmzTime(epoch: nat): (string, string) {
    var days, sod := epoch / SECS_PER_DAY, epoch % SECS_PER_DAY;
    var h, mi, s := sod / SECS_PER_HOUR, sod % SECS_PER_HOUR / 60, sod % 60;
    CivilIsCounted(days);
    var date := CivilFromDays(days);
    (TimeText(date, h, mi, s), DateText(date))
  }

  function DigitsOf(s: string): Option<nat> {
    if AllDigits(s) then Some(Number(s)) else None
  }

  /** `parse_amz_date`. A text with a non-ASCII character is refused like any other deviation. */
  function ParseAmzDate(s: string): Option<nat> {
    if |s| != 16 || s[8] != 'T' || s[15] != 'Z' then None
    else
      var year, month, day := DigitsOf(s[0..4]), DigitsOf(s[4..6]), DigitsOf(s[6..8]);
      var hour, min, sec := DigitsOf(s[9..11]), DigitsOf(s[11..13]), DigitsOf(s[13..15]);
      if year.None? || month.None? || day.None? || hour.None? || min.None? || sec.None? then None
      else if !(1 <= month.value <= 12) || !(1 <= day.value <= 31)
              || hour.value > 23 || min.value > 59 || sec.value > 60 then None
      else
        var days := DaysFromCivil(Date(year.value, month.value, day.value));
        var epoch := days * SECS_PER_DAY + hour.value * SECS_PER_HOUR + min.value * 60 + sec.value;
        if epoch < 0 then None else Some(epoch)
  }

  lemma {:induction false} DigitsRead(n: nat)
    ensures AllDigits(Digits(n)) && Number(Digits(n)) == n
  {
    if n >= 10 {
      DigitsRead(n / 10);
      assert Digits(n)[..|Digits(n)| - 1] == Digits(n / 10);
    } else {
      assert Number(Digits(n)[..0]) == 0;
    }
  }

  lemma {:induction false} LeadingZeros(k: nat, s: string)
    requires AllDigits(s)
    ensures AllDigits(seq(k, _ => '0') + s) && Number(seq(k, _ => '0') + s) == Number(s)
    decreases k + |s|
  {
    var z := seq(k, _ => '0');
    var t := z + s;
    if s != [] {
      assert t[..|t| - 1] == z + s[..|s| - 1];
      LeadingZeros(k, s[..|s| - 1]);
    } else if k > 0 {
      assert t[..|t| - 1] == seq(k - 1, _ => '0') + s;
      LeadingZeros(k - 1, s);
    }
  }

  function Pow10(w: nat): nat {
    if w == 0 then 1 else 10 * Pow10(w - 1)
  }

  lemma {:induction false} DigitsLength(n: nat, w: nat)
    requires w >= 1
    ensures |Digits(n)| <= w <==> n < Pow10(w)
  {
    if w > 1 && n >= 10 {
      DigitsLength(n / 10, w - 1);
    } else if w > 1 {
      DigitsLength(n, w - 1);
    }
  }

  /** A padded field reads back as the number it was written from. */
  lemma PaddedReads(n: nat, width: nat)
    requires (width == 2 && n < 100) || (width == 4 && n < 10_000)
    ensures |Padded(n, width)| == width && DigitsOf(Padded(n, width)) == Some(n)
  {
    DigitsRead(n);
    DigitsLength(n, width);
    assert Pow10(2) == 100 && Pow10(4) == 100 * Pow10(2);
    LeadingZeros(width - |Digits(n)|, Digits(n));
  }

  /** The year has five digits from the year-10000 instant on, and not before. */
  lemma YearBound(days: nat)
    ensures Counted(days).year < 10_000 <==> days * SECS_PER_DAY < YEAR_10000
  {
    var d := Counted(days);
    CountedDayNumber(days);
    DaysFromCivilForm(d);
    MonthStarts(d.month);
    if d.year < 10_000 {
      DaysBeforeMonotone(MarchYear(d), 9_999);
    } else {
      DaysBeforeMonotone(9_999, MarchYear(d));
    }
  }

  lemma Fields(y: string, mo: string, d: string, h: string, mi: string, s: string)
    requires |y| == 4 && |mo| == |d| == |h| == |mi| == |s| == 2
    ensures var t := y + mo + d + "T" + h + mi + s + "Z";
      && |t| == 16 && t[8] == 'T' && t[15] == 'Z'
      && t[0..4] == y && t[4..6] == mo && t[6..8] == d && t[9..11] == h && t[11..13] == mi && t[13..15] == s
  {
  }

  /** A timestamp written field by field is read field by field. */
  lemma ParsesFields(d: Date, h: nat, mi: nat, s: nat)
    requires 0 <= d.year < 10_000 && 1 <= d.month <= 12 && 1 <= d.day <= 31 && h < 24 && mi < 60 && s < 60
    requires DaysFromCivil(d) >= 0
    ensures ParseAmzDate(TimeText(d, h, mi, s)) ==
      Some(DaysFromCivil(d) * SECS_PER_DAY + h * SECS_PER_HOUR + mi * 60 + s)
  {
    ParsesExactly(d, h, mi, s);
  }

  lemma TimeOfDay(epoch: nat)
    ensures var days, sod := epoch / SECS_PER_DAY, epoch % SECS_PER_DAY;
      && days * SECS_PER_DAY + sod / SECS_PER_HOUR * SECS_PER_HOUR + sod % SECS_PER_HOUR / 60 * 60 + sod % 60 == epoch
      && sod / SECS_PER_HOUR < 24 && sod % SECS_PER_HOUR / 60 < 60
      && (epoch < YEAR_10000 <==> days * SECS_PER_DAY < YEAR_10000)
  {
  }

  lemma LongYear(d: Date, h: nat, mi: nat, s: nat)
    requires d.year >= 10_000 && d.month >= 0 && d.day >= 0
    ensures ParseAmzDate(TimeText(d, h, mi, s)) == None
  {
    DigitsLength(d.year, 4);
    assert Pow10(4) == 100 * Pow10(2) && Pow10(2) == 100;
  }

  lemma ParsesCounted(days: nat, h: nat, mi: nat, s: nat)
    requires Counted(days).year < 10_000 && h < 24 && mi < 60 && s < 60
    ensures ParseAmzDate(TimeText(Counted(days), h, mi, s)) ==
      Some(days * SECS_PER_DAY + h * SECS_PER_HOUR + mi * 60 + s)
  {
    hide ParseAmzDate, DaysFromCivil;
    CountedDayNumber(days);
    ParsesFields(Counted(days), h, mi, s);
  }

  /** The instant that was formatted: its day, and its time within the day. */
  lemma FormatParts(epoch: nat) returns (days: nat, h: nat, mi: nat, s: nat)
    ensures FormatAmzTime(epoch) == (TimeText(Counted(days), h, mi, s), DateText(Counted(days)))
    ensures epoch == days * SECS_PER_DAY + h * SECS_PER_HOUR + mi * 60 + s && h < 24 && mi < 60 && s < 60
    ensures epoch < YEAR_10000 <==> Counted(days).year < 10_000
  {
    var sod := epoch % SECS_PER_DAY;
    days := epoch / SECS_PER_DAY;
    h, mi, s := sod / SECS_PER_HOUR, sod % SECS_PER_HOUR / 60, sod % 60;
    assert CivilFromDays(days) == Counted(days) by {
      CivilIsCounted(days);
    }
    YearBound(days);
    TimeOfDay(epoch);
  }

  /** Formatting then parsing returns every epoch before the year 10000, and nothing from then on. */
  lemma FormatParseRoundTrip(epoch: nat)
    ensures ParseAmzDate(FormatAmzTime(epoch).0) == if epoch < YEAR_10000 then Some(epoch) else None
  {
    hide ParseAmzDate, FormatAmzTime;
    var days, h, mi, s := FormatParts(epoch);
    if epoch < YEAR_10000 {
      ParsesCounted(days, h, mi, s);
    } else {
      LongYear(Counted(days), h, mi, s);
    }
  }

  /** The date stamp is the first eight characters of the timestamp, for every epoch of four-digit year. */
  lemma StampIsPrefix(epoch: nat)
    requires epoch < YEAR_10000
    ensures |FormatAmzTime(epoch).0| == 16 && FormatAmzTime(epoch).0[..8] == FormatAmzTime(epoch).1
  {
    var days, h, mi, s := FormatParts(epoch);
    var d := Counted(days);
    PaddedReads(d.year, 4);
    PaddedReads(d.month, 2);
    PaddedReads(d.day, 2);
    PaddedReads(h, 2);
    PaddedReads(mi, 2);
    PaddedReads(s, 2);
  }

  /** What a readable timestamp looks like: eight digits, `T`, six digits, `Z`. */
  lemma ParsedShape(s: string)
    requires ParseAmzDate(s).Some?
    ensures |s| == 16 && s[8] == 'T' && s[15] == 'Z'
    ensures forall i :: 0 <= i < 16 && i != 8 && i != 15 ==> IsDigit(s[i])
  {
    assert AllDigits(s[0..4]) && AllDigits(s[4..6]) && AllDigits(s[6..8]);
    assert AllDigits(s[9..11]) && AllDigits(s[11..13]) && AllDigits(s[13..15]);
    forall i | 0 <= i < 16 && i != 8 && i != 15 ensures IsDigit(s[i]) {
      if i < 4 {
        assert s[i] == s[0..4][i];
      } else if i < 6 {
        assert s[i] == s[4..6][i - 4];
      } else if i < 8 {
        assert s[i] == s[6..8][i - 6];
      } else if i < 11 {
        assert s[i] == s[9..11][i - 9];
      } else if i < 13 {
        assert s[i] == s[11..13][i - 11];
      } else {
        assert s[i] == s[13..15][i - 13];
      }
    }
  }

  /** A text of that shape is read field by field, and refused exactly when a field is out of range (a
      leap second and a 31st of any month are not) or the instant lies before the epoch. */
  lemma ParsesExactly(d: Date, h: nat, mi: nat, s: nat)
    requires 0 <= d.year < 10_000 && 0 <= d.month < 100 && 0 <= d.day < 100 && h < 100 && mi < 100 && s < 100
    ensures ParseAmzDate(TimeText(d, h, mi, s)) ==
      var epoch := DaysFromCivil(d) * 86_400 + h * 3_600 + mi * 60 + s;
      if 1 <= d.month <= 12 && 1 <= d.day <= 31 && h <= 23 && mi <= 59 && s <= 60 && epoch >= 0 then Some(epoch) else None
  {
    hide DaysFromCivil, DigitsOf, Padded;
    FieldsRead(d, h, mi, s);
  }

  lemma FieldsRead(d: Date, h: nat, mi: nat, s: nat)
    requires 0 <= d.year < 10_000 && 0 <= d.month < 100 && 0 <= d.day < 100 && h < 100 && mi < 100 && s < 100
    ensures var t := TimeText(d, h, mi, s);
      && |t| == 16 && t[8] == 'T' && t[15] == 'Z'
      && DigitsOf(t[0..4]) == Some(d.year) && DigitsOf(t[4..6]) == Some(d.month) && DigitsOf(t[6..8]) == Some(d.day)
      && DigitsOf(t[9..11]) == Some(h) && DigitsOf(t[11..13]) == Some(mi) && DigitsOf(t[13..15]) == Some(s)
  {
    hide DigitsOf, Padded;
    PaddedReads(d.year, 4);
    PaddedReads(d.month, 2);
    PaddedReads(d.day, 2);
    PaddedReads(h, 2);
    PaddedReads(mi, 2);
    PaddedReads(s, 2);
    Fields(Padded(d.year, 4), Padded(d.month, 2), Padded(d.day, 2), Padded(h, 2), Padded(mi, 2), Padded(s, 2));
  }

  /** The timestamp spells, in this order, the year, month and day reached by counting days, `T`, and the
      hours, minutes and seconds since midnight, `Z`. */
  lemma FormatMeaning(epoch: nat)
    requires epoch < YEAR_10000
    ensures var t, d := FormatAmzTime(epoch).0, Counted(epoch / 86_400);
      && |t| == 16 && t[8] == 'T' && t[15] == 'Z'
      && DigitsOf(t[0..4]) == Some(d.year) && DigitsOf(t[4..6]) == Some(d.month) && DigitsOf(t[6..8]) == Some(d.day)
      && DigitsOf(t[9..11]) == Some(epoch % 86_400 / 3_600)
      && DigitsOf(t[11..13]) == Some(epoch % 3_600 / 60) && DigitsOf(t[13..15]) == Some(epoch % 60)
  {
    hide FormatAmzTime, DigitsOf, TimeText;
    var days, h, mi, s := FormatParts(epoch);
    ClockReads(days, h, mi, s, epoch);
    FieldsRead(Counted(days), h, mi, s);
  }

  lemma ClockReads(days: nat, h: nat, mi: nat, s: nat, epoch: nat)
    requires epoch == days * SECS_PER_DAY + h * SECS_PER_HOUR + mi * 60 + s && h < 24 && mi < 60 && s < 60
    ensures epoch / 86_400 == days && epoch % 86_400 / 3_600 == h && epoch % 3_600 / 60 == mi && epoch % 60 == s
  {
    DivMod(86_400, days, h * 3_600 + mi * 60 + s);
    DivMod(3_600, h, mi * 60 + s);
    DivMod(3_600, 24 * days + h, mi * 60 + s);
    DivMod(60, mi, s);
    DivMod(60, 1_440 * days + 60 * h + mi, s);
  }

  /** Decimal, most significant digit first. */
  lemma DecimalText()
    ensures DigitsOf("1970") == Some(1970) && DigitsOf("05") == Some(5)
  {
    assert "1970"[..3][..2][..1][..0] == "" && "05"[..1][..0] == "";
    assert Number("1970"[..3][..2][..1]) == 1 && Number("1970"[..3][..2]) == 19 && Number("1970"[..3]) == 197;
    assert Number("05"[..1]) == 0;
  }

  lemma StampIsDigits(epoch: nat)
    requires epoch < YEAR_10000
    ensures FormatAmzTime(epoch).1 != "" && AllDigits(FormatAmzTime(epoch).1)
  {
    hide FormatAmzTime;
    var days, h, mi, s := FormatParts(epoch);
    var d := Counted(days);
    PaddedReads(d.year, 4);
    PaddedReads(d.month, 2);
    PaddedReads(d.day, 2);
  }
}
