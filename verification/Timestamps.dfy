/**
  The ISO 8601 text under which the SQLite stores keep UTC instants, and the comparison of such
  texts.  isoformat() drops the fraction when the microseconds are zero, so the texts have two
  lengths; they still compare, character by character, as the instants do.
*/
module Timestamps {
  import opened Wrappers

  /** A UTC datetime's fields. */
  datatype DateTime = DateTime(year: int, month: int, day: int, hour: int, minute: int, second: int, micro: int)

  predicate Leap(y: int) {
    y % 4 == 0 && (y % 100 != 0 || y % 400 == 0)
  }

  function DaysInMonth(y: int, m: int): int {
    if m == 2 then if Leap(y) then 29 else 28
    else if m == 4 || m == 6 || m == 9 || m == 11 then 30
    else 31
  }

  predicate ValidFields(d: DateTime) {
    && 1 <= d.year <= 9999 && 1 <= d.month <= 12 && 1 <= d.day <= DaysInMonth(d.year, d.month)
    && 0 <= d.hour < 24 && 0 <= d.minute < 60 && 0 <= d.second < 60 && 0 <= d.micro < 1_000_000
  }

  function DaysBeforeYear(y: int): int {
    (y - 1) * 365 + (y - 1) / 4 - (y - 1) / 100 + (y - 1) / 400
  }

  function DaysInYear(y: int): int {
    if Leap(y) then 366 else 365
  }

  function DaysBeforeMonth(y: int, m: int): int
    requires 1 <= m <= 13
  {
    if m == 1 then 0 else DaysBeforeMonth(y, m - 1) + DaysInMonth(y, m - 1)
  }

  const MICROS_PER_DAY := 86_400_000_000

  function DayNumber(d: DateTime): int
    requires ValidFields(d)
  {
    DaysBeforeYear(d.year) + DaysBeforeMonth(d.year, d.month) + d.day - 1
  }

  function MicroOfDay(d: DateTime): int {
    ((d.hour * 60 + d.minute) * 60 + d.second) * 1_000_000 + d.micro
  }

  /** Microseconds since the start of year 1. */
  function Micros(d: DateTime): int
    requires ValidFields(d)
  {
    DayNumber(d) * MICROS_PER_DAY + MicroOfDay(d)
  }

  // ---- The calendar: fields in lexicographic order are instants in order ----

  lemma FourthCentury(y: int)
    requires y % 400 == 0
    ensures y % 100 == 0
  {
    var q, r := y / 400, y / 100;
    assert y == 400 * q && y == 100 * r + y % 100;
    assert y % 100 == 100 * (4 * q - r);
  }

  lemma Century(y: int)
    requires y % 100 == 0
    ensures y % 4 == 0
  {
    var q, r := y / 100, y / 4;
    assert y == 100 * q && y == 4 * r + y % 4;
    assert y % 4 == 4 * (25 * q - r);
  }

  lemma QuotientStep(y: int, k: int)
    requires k == 4 || k == 100 || k == 400
    ensures y / k == (y - 1) / k + if y % k == 0 then 1 else 0
  {
  }

  lemma NextYear(y: int)
    ensures DaysBeforeYear(y + 1) == DaysBeforeYear(y) + DaysInYear(y)
  {
    QuotientStep(y, 4);
    QuotientStep(y, 100);
    QuotientStep(y, 400);
    if y % 400 == 0 { FourthCentury(y); }
    if y % 100 == 0 { Century(y); }
  }

  lemma {:induction false} YearsApart(y: int, z: int)
    requires y < z
    ensures DaysBeforeYear(y) + DaysInYear(y) <= DaysBeforeYear(z)
    decreases z - y
  {
    NextYear(y);
    if y + 1 < z {
      YearsApart(y + 1, z);
    }
  }

  lemma {:induction false} MonthsApart(y: int, m: int, n: int)
    requires 1 <= m < n <= 13
    ensures DaysBeforeMonth(y, m) + DaysInMonth(y, m) <= DaysBeforeMonth(y, n)
    decreases n
  {
    if m < n - 1 {
      MonthsApart(y, m, n - 1);
    }
  }

  lemma YearOfMonths(y: int)
    ensures DaysBeforeMonth(y, 13) == DaysInYear(y)
  {
    var before := m requires 1 <= m <= 13 => DaysBeforeMonth(y, m);
    assert before(1) == 0 && before(2) == 31 && before(3) == 31 + DaysInMonth(y, 2);
    assert before(4) == before(3) + 31 && before(5) == before(4) + 30 && before(6) == before(5) + 31;
    assert before(7) == before(6) + 30 && before(8) == before(7) + 31 && before(9) == before(8) + 31;
    assert before(10) == before(9) + 30 && before(11) == before(10) + 31 && before(12) == before(11) + 30;
  }

  /** Lexicographic order on the fields, most significant first. */
  predicate Before(a: DateTime, b: DateTime) {
    || a.year < b.year
    || (a.year == b.year && (a.month < b.month
    || (a.month == b.month && (a.day < b.day
    || (a.day == b.day && (a.hour < b.hour
    || (a.hour == b.hour && (a.minute < b.minute
    || (a.minute == b.minute && (a.second < b.second
    || (a.second == b.second && a.micro < b.micro)))))))))))
  }

  lemma DaysInOrder(a: DateTime, b: DateTime)
    requires ValidFields(a) && ValidFields(b)
    requires a.year < b.year || (a.year == b.year && (a.month < b.month || (a.month == b.month && a.day < b.day)))
    ensures DayNumber(a) < DayNumber(b)
  {
    if a.year < b.year {
      YearsApart(a.year, b.year);
      MonthsApart(a.year, a.month, 13);
      YearOfMonths(a.year);
      if b.month > 1 { MonthsApart(b.year, 1, b.month); }
    } else if a.month < b.month {
      MonthsApart(a.year, a.month, b.month);
    }
  }

  lemma EarlierFields(a: DateTime, b: DateTime)
    requires ValidFields(a) && ValidFields(b) && Before(a, b)
    ensures Micros(a) < Micros(b)
  {
    assert 0 <= MicroOfDay(a) < MICROS_PER_DAY && 0 <= MicroOfDay(b) < MICROS_PER_DAY;
    if !(a.year == b.year && a.month == b.month && a.day == b.day) {
      DaysInOrder(a, b);
    }
  }

  /** Comparing fields and comparing instants is the same. */
  lemma FieldOrder(a: DateTime, b: DateTime)
    requires ValidFields(a) && ValidFields(b)
    ensures Before(a, b) <==> Micros(a) < Micros(b)
    ensures a == b <==> Micros(a) == Micros(b)
  {
    if Before(a, b) {
      EarlierFields(a, b);
    } else if a != b {
      assert Before(b, a);
      EarlierFields(b, a);
    }
  }

  // ---- The text ----

  function Digit(n: int): (c: char)
    requires 0 <= n < 10
    ensures '0' <= c <= '9' && c as int - '0' as int == n
  {
    '0' + n as char
  }

  function Power10(w: nat): int {
    if w == 0 then 1 else 10 * Power10(w - 1)
  }

  /** `n` in exactly `w` decimal digits. */
  function Digits(n: int, w: nat): (s: string)
    requires 0 <= n < Power10(w)
    ensures |s| == w
  {
    if w == 0 then "" else Digits(n / 10, w - 1) + [Digit(n % 10)]
  }

  function Fraction(micro: int): string
    requires 0 <= micro < 1_000_000
  {
    if micro == 0 then "+00:00" else "." + (Digits(micro, 6) + "+00:00")
  }

  /** datetime.isoformat() of a UTC datetime. */
  function IsoFormat(d: DateTime): string
    requires ValidFields(d)
  {
    Digits(d.year, 4) + ("-" + (Digits(d.month, 2) + ("-" + (Digits(d.day, 2) + ("T" +
    (Digits(d.hour, 2) + (":" + (Digits(d.minute, 2) + (":" + (Digits(d.second, 2) + Fraction(d.micro)))))))))))
  }

  /** SQLite's BINARY collation, which is how two TEXT columns or parameters compare. */
  predicate TextLess(s: string, t: string) {
    |t| > 0 && (|s| == 0 || s[0] < t[0] || (s[0] == t[0] && TextLess(s[1..], t[1..])))
  }

  /** A common-length first part decides, and only when it is equal do the rests matter. */
  lemma {:induction false} TextLessSplit(x: string, y: string, s: string, t: string)
    requires |x| == |y|
    ensures TextLess(x + s, y + t) <==> TextLess(x, y) || (x == y && TextLess(s, t))
  {
    if |x| == 0 {
      assert x + s == s && y + t == t;
    } else {
      assert (x + s)[1..] == x[1..] + s && (y + t)[1..] == y[1..] + t;
      TextLessSplit(x[1..], y[1..], s, t);
      assert x == [x[0]] + x[1..] && y == [y[0]] + y[1..];
    }
  }

  lemma {:induction false} DigitsOrder(a: int, b: int, w: nat)
    requires 0 <= a < Power10(w) && 0 <= b < Power10(w)
    ensures TextLess(Digits(a, w), Digits(b, w)) <==> a < b
    ensures Digits(a, w) == Digits(b, w) <==> a == b
  {
    if w > 0 {
      DigitsOrder(a / 10, b / 10, w - 1);
      var p, q, x, y := Digits(a / 10, w - 1), Digits(b / 10, w - 1), [Digit(a % 10)], [Digit(b % 10)];
      TextLessSplit(p, q, x, y);
      assert TextLess(x, y) <==> a % 10 < b % 10;
      assert p + x == q + y <==> p == q && x == y by {
        assert (p + x)[..w - 1] == p && (q + y)[..w - 1] == q && (p + x)[w - 1..] == x && (q + y)[w - 1..] == y;
      }
    }
  }

  lemma FieldStep(a: int, b: int, w: nat, s: string, t: string)
    requires 0 <= a < Power10(w) && 0 <= b < Power10(w)
    ensures TextLess(Digits(a, w) + s, Digits(b, w) + t) <==> a < b || (a == b && TextLess(s, t))
  {
    DigitsOrder(a, b, w);
    TextLessSplit(Digits(a, w), Digits(b, w), s, t);
  }

  lemma SeparatorStep(c: char, s: string, t: string)
    ensures TextLess([c] + s, [c] + t) <==> TextLess(s, t)
  {
    TextLessSplit([c], [c], s, t);
  }

  /** The dropped fraction is harmless because '+' sorts before '.'. */
  lemma FractionOrder(a: int, b: int)
    requires 0 <= a < 1_000_000 && 0 <= b < 1_000_000
    ensures TextLess(Fraction(a), Fraction(b)) <==> a < b
  {
    assert !TextLess("+00:00", "+00:00") by { Irreflexive("+00:00"); }
    if a != 0 && b != 0 {
      SeparatorStep('.', Digits(a, 6) + "+00:00", Digits(b, 6) + "+00:00");
      FieldStep(a, b, 6, "+00:00", "+00:00");
    }
  }

  lemma {:induction false} Irreflexive(s: string)
    ensures !TextLess(s, s)
  {
    if |s| > 0 {
      Irreflexive(s[1..]);
    }
  }

  function ClockText(d: DateTime): string
    requires ValidFields(d)
  {
    Digits(d.hour, 2) + (":" + (Digits(d.minute, 2) + (":" + (Digits(d.second, 2) + Fraction(d.micro)))))
  }

  lemma ClockOrder(a: DateTime, b: DateTime)
    requires ValidFields(a) && ValidFields(b)
    ensures TextLess(ClockText(a), ClockText(b)) <==>
            || a.hour < b.hour
            || (a.hour == b.hour && (a.minute < b.minute
            || (a.minute == b.minute && (a.second < b.second
            || (a.second == b.second && a.micro < b.micro)))))
  {
    FractionOrder(a.micro, b.micro);
    var a1, b1 := Digits(a.second, 2) + Fraction(a.micro), Digits(b.second, 2) + Fraction(b.micro);
    FieldStep(a.second, b.second, 2, Fraction(a.micro), Fraction(b.micro));
    SeparatorStep(':', a1, b1);
    var a2, b2 := Digits(a.minute, 2) + (":" + a1), Digits(b.minute, 2) + (":" + b1);
    FieldStep(a.minute, b.minute, 2, ":" + a1, ":" + b1);
    SeparatorStep(':', a2, b2);
    FieldStep(a.hour, b.hour, 2, ":" + a2, ":" + b2);
  }

  /** Texts compare as the fields do, whichever of the two lengths each has. */
  lemma TextOrderIsFieldOrder(a: DateTime, b: DateTime)
    requires ValidFields(a) && ValidFields(b)
    ensures TextLess(IsoFormat(a), IsoFormat(b)) <==> Before(a, b)
  {
    ClockOrder(a, b);
    var a1, b1 := ClockText(a), ClockText(b);
    SeparatorStep('T', a1, b1);
    var a2, b2 := Digits(a.day, 2) + ("T" + a1), Digits(b.day, 2) + ("T" + b1);
    FieldStep(a.day, b.day, 2, "T" + a1, "T" + b1);
    SeparatorStep('-', a2, b2);
    var a3, b3 := Digits(a.month, 2) + ("-" + a2), Digits(b.month, 2) + ("-" + b2);
    FieldStep(a.month, b.month, 2, "-" + a2, "-" + b2);
    SeparatorStep('-', a3, b3);
    FieldStep(a.year, b.year, 4, "-" + a3, "-" + b3);
  }

  // ---- Instants: every representable microsecond has fields, and its text reads back ----

  const MAX_INSTANT := 3_652_059 * MICROS_PER_DAY

  /** A UTC instant a datetime can represent, in microseconds since the start of year 1. */
  type Instant = t: int | 0 <= t < MAX_INSTANT

  function YearFrom(day: int, y: int): (r: int)
    requires 1 <= y <= 9999 && DaysBeforeYear(y) <= day < DaysBeforeYear(10_000)
    ensures 1 <= r <= 9999 && DaysBeforeYear(r) <= day < DaysBeforeYear(r + 1)
    decreases 9999 - y
  {
    if day < DaysBeforeYear(y + 1) then y else YearFrom(day, y + 1)
  }

  function MonthFrom(y: int, rest: int, m: int): (r: int)
    requires 1 <= m <= 12 && DaysBeforeMonth(y, m) <= rest < DaysBeforeMonth(y, 13)
    ensures 1 <= r <= 12 && DaysBeforeMonth(y, r) <= rest < DaysBeforeMonth(y, r + 1)
    decreases 12 - m
  {
    if rest < DaysBeforeMonth(y, m + 1) then m else MonthFrom(y, rest, m + 1)
  }

  /** Hours, minutes, seconds and microseconds of a microsecond of the day. */
  function ClockOf(us: int): (c: (int, int, int, int))
    requires 0 <= us < MICROS_PER_DAY
    ensures 0 <= c.0 < 24 && 0 <= c.1 < 60 && 0 <= c.2 < 60 && 0 <= c.3 < 1_000_000
    ensures ((c.0 * 60 + c.1) * 60 + c.2) * 1_000_000 + c.3 == us
  {
    var seconds := us / 1_000_000;
    var minutes := seconds / 60;
    (minutes / 60, minutes % 60, seconds % 60, us % 1_000_000)
  }

  /** The date of a day number, found by ordinal arithmetic. */
  function DateOf(day: int): (c: (int, int, int))
    requires 0 <= day < DaysBeforeYear(10_000)
    ensures 1 <= c.0 <= 9999 && 1 <= c.1 <= 12 && 1 <= c.2 <= DaysInMonth(c.0, c.1)
    ensures DaysBeforeYear(c.0) + DaysBeforeMonth(c.0, c.1) + c.2 - 1 == day
  {
    var y := YearFrom(day, 1);
    NextYear(y);
    YearOfMonths(y);
    var m := MonthFrom(y, day - DaysBeforeYear(y), 1);
    (y, m, day - DaysBeforeYear(y) - DaysBeforeMonth(y, m) + 1)
  }

  /** The fields of an instant. */
  function FieldsOf(t: Instant): (d: DateTime)
    ensures ValidFields(d) && Micros(d) == t
  {
    var day, us := t / MICROS_PER_DAY, t % MICROS_PER_DAY;
    var (y, m, d) := DateOf(day);
    var (hour, minute, second, micro) := ClockOf(us);
    var r := DateTime(y, m, d, hour, minute, second, micro);
    assert DayNumber(r) == day && MicroOfDay(r) == us;
    r
  }

  /** The text stored for an instant. */
  function IsoText(t: Instant): string {
    IsoFormat(FieldsOf(t))
  }

  /** The comparisons the SQL statements make on stored text decide exactly what the instants would. */
  lemma TextOrder(a: Instant, b: Instant)
    ensures TextLess(IsoText(a), IsoText(b)) <==> a < b
  {
    TextOrderIsFieldOrder(FieldsOf(a), FieldsOf(b));
    FieldOrder(FieldsOf(a), FieldsOf(b));
  }

  /** The number a run of decimal digits stands for. */
  function ParseDigits(s: string): Option<int> {
    if |s| == 0 then Some(0)
    else
      var c := s[|s| - 1];
      match ParseDigits(s[..|s| - 1])
      case Some(n) => if '0' <= c <= '9' then Some(n * 10 + (c as int - '0' as int)) else None
      case None => None
  }

  function TakeField(s: string, w: nat): Option<(int, string)> {
    if |s| < w then None
    else match ParseDigits(s[..w])
      case Some(n) => Some((n, s[w..]))
      case None => None
  }

  function TakeMark(s: string, c: char): Option<string> {
    if |s| > 0 && s[0] == c then Some(s[1..]) else None
  }

  function TakeMarked(s: string, c: char, w: nat): Option<(int, string)> {
    match TakeMark(s, c)
    case Some(rest) => TakeField(rest, w)
    case None => None
  }

  function TakeFraction(s: string): Option<int> {
    if s == "+00:00" then Some(0)
    else match TakeMarked(s, '.', 6)
      case Some((us, rest)) => if rest == "+00:00" then Some(us) else None
      case None => None
  }

  /** datetime.fromisoformat() on the two shapes that isoformat() writes for UTC. */
  function FromIsoFormat(s: string): Option<DateTime> {
    match TakeField(s, 4) case None => None case Some((year, s1)) =>
    match TakeMarked(s1, '-', 2) case None => None case Some((month, s2)) =>
    match TakeMarked(s2, '-', 2) case None => None case Some((day, s3)) =>
    match TakeMarked(s3, 'T', 2) case None => None case Some((hour, s4)) =>
    match TakeMarked(s4, ':', 2) case None => None case Some((minute, s5)) =>
    match TakeMarked(s5, ':', 2) case None => None case Some((second, s6)) =>
    match TakeFraction(s6) case None => None case Some(micro) =>
    var d := DateTime(year, month, day, hour, minute, second, micro);
    if ValidFields(d) then Some(d) else None
  }

  function ParseIso(s: string): Option<int> {
    match FromIsoFormat(s)
    case Some(d) => Some(Micros(d))
    case None => None
  }

  lemma {:induction false} ParseDigitsBack(n: int, w: nat)
    requires 0 <= n < Power10(w)
    ensures ParseDigits(Digits(n, w)) == Some(n)
  {
    if w > 0 {
      ParseDigitsBack(n / 10, w - 1);
      var s := Digits(n, w);
      assert s[..w - 1] == Digits(n / 10, w - 1) && s[w - 1] == Digit(n % 10);
    }
  }

  lemma TakeFieldBack(n: int, w: nat, rest: string)
    requires 0 <= n < Power10(w)
    ensures TakeField(Digits(n, w) + rest, w) == Some((n, rest))
  {
    ParseDigitsBack(n, w);
    var s := Digits(n, w) + rest;
    assert s[..w] == Digits(n, w) && s[w..] == rest;
  }

  lemma TakeMarkedBack(c: char, n: int, w: nat, rest: string)
    requires 0 <= n < Power10(w)
    ensures TakeMarked([c] + (Digits(n, w) + rest), c, w) == Some((n, rest))
  {
    TakeFieldBack(n, w, rest);
    assert ([c] + (Digits(n, w) + rest))[1..] == Digits(n, w) + rest;
  }

  lemma TakeFractionBack(micro: int)
    requires 0 <= micro < 1_000_000
    ensures TakeFraction(Fraction(micro)) == Some(micro)
  {
    if micro != 0 {
      TakeMarkedBack('.', micro, 6, "+00:00");
      assert Fraction(micro)[0] == '.' && "+00:00"[0] == '+';
    }
  }

  /** A stored text reads back as the instant it was written for. */
  lemma ParseBack(t: Instant)
    ensures ParseIso(IsoText(t)) == Some(t)
  {
    var d := FieldsOf(t);
    TakeFractionBack(d.micro);
    var s6 := Fraction(d.micro);
    TakeMarkedBack(':', d.second, 2, s6);
    var s5 := ":" + (Digits(d.second, 2) + s6);
    TakeMarkedBack(':', d.minute, 2, s5);
    var s4 := ":" + (Digits(d.minute, 2) + s5);
    TakeMarkedBack('T', d.hour, 2, s4);
    var s3 := "T" + (Digits(d.hour, 2) + s4);
    TakeMarkedBack('-', d.day, 2, s3);
    var s2 := "-" + (Digits(d.day, 2) + s3);
    TakeMarkedBack('-', d.month, 2, s2);
    TakeFieldBack(d.year, 4, "-" + (Digits(d.month, 2) + s2));
  }

  // ---- The calendar and the text by their literals ----

  /** The Gregorian calendar's month lengths. */
  lemma MonthLengths(y: int, m: int)
    requires 1 <= m <= 12
    ensures var february := if y % 400 == 0 then 29 else if y % 100 == 0 then 28 else if y % 4 == 0 then 29 else 28;
            DaysInMonth(y, m) == [31, february, 31, 30, 31, 30, 31, 31, 30, 31, 30, 31][m - 1]
  {
    if y % 400 == 0 {
      FourthCentury(y);
      Century(y);
    }
  }

  /** The first instant is midnight of 1 January of year 1. */
  lemma FirstMidnight()
    ensures Micros(DateTime(1, 1, 1, 0, 0, 0, 0)) == 0
  {
  }

  /** The time of day counts from midnight. */
  lemma FromMidnight(d: DateTime)
    requires ValidFields(d)
    ensures Micros(d) == Micros(DateTime(d.year, d.month, d.day, 0, 0, 0, 0))
                         + d.hour * 3_600_000_000 + d.minute * 60_000_000 + d.second * 1_000_000 + d.micro
  {
    hide DaysBeforeYear, DaysBeforeMonth, DaysInMonth;
  }

  /** The date after a date: of the same month, of the next one, or of the next year. */
  predicate NextDate(a: DateTime, b: DateTime) {
    || (b.year == a.year && b.month == a.month && b.day == a.day + 1)
    || (b.day == 1 && a.day == DaysInMonth(a.year, a.month)
        && ((b.year == a.year && b.month == a.month + 1) || (b.year == a.year + 1 && b.month == 1 && a.month == 12)))
  }

  /** Midnights of consecutive dates are one day of microseconds apart. */
  lemma NextMidnight(a: DateTime, b: DateTime)
    requires ValidFields(a) && ValidFields(b) && NextDate(a, b)
    requires a.hour == b.hour && a.minute == b.minute && a.second == b.second && a.micro == b.micro
    ensures Micros(b) == Micros(a) + 24 * 60 * 60 * 1_000_000
  {
    if b.year == a.year + 1 {
      NextYear(a.year);
      YearOfMonths(a.year);
    }
  }

  function Numeral(n: int): char
    requires 0 <= n < 10
  {
    "0123456789"[n]
  }

  lemma NumeralDigit(n: int)
    requires 0 <= n < 10
    ensures Numeral(n) == Digit(n)
  {
  }

  function TwoNumerals(n: int): string
    requires 0 <= n < 100
  {
    [Numeral(n / 10), Numeral(n % 10)]
  }

  /** Two digits more. */
  lemma PairStep(n: int, w: nat)
    requires 0 <= n < Power10(w + 2)
    ensures n / 100 < Power10(w) && Digits(n, w + 2) == Digits(n / 100, w) + TwoNumerals(n % 100)
  {
    hide Numeral, Digit;
    assert Power10(w + 2) == 100 * Power10(w) by { assert Power10(w + 2) == 10 * Power10(w + 1); }
    assert n / 10 / 10 == n / 100 && n / 10 % 10 == n % 100 / 10 && n % 10 == n % 100 % 10;
    NumeralDigit(n % 100 / 10);
    NumeralDigit(n % 100 % 10);
    assert Digits(n, w + 2) == Digits(n / 10, w + 1) + [Digit(n % 10)];
    assert Digits(n / 10, w + 1) == Digits(n / 100, w) + [Digit(n / 10 % 10)];
  }

  lemma TwoDigits(n: int)
    requires 0 <= n < 100
    ensures n < Power10(2) && Digits(n, 2) == TwoNumerals(n)
  {
    hide Digits, TwoNumerals;
    Powers();
    PairStep(n, 0);
    assert Digits(n / 100, 0) == "" by { NoDigits(); }
    assert "" + TwoNumerals(n % 100) == TwoNumerals(n % 100);
  }

  lemma NoDigits()
    ensures Power10(0) == 1 && Digits(0, 0) == ""
  {
  }

  lemma Powers()
    ensures Power10(0) == 1 && Power10(2) == 100 && Power10(4) == 10_000 && Power10(6) == 1_000_000
  {
    assert Power10(1) == 10 && Power10(3) == 1000 && Power10(5) == 100_000;
  }

  lemma FourDigits(n: int)
    requires 0 <= n < 10_000
    ensures n < Power10(4) && Digits(n, 4) == TwoNumerals(n / 100) + TwoNumerals(n % 100)
  {
    hide Digits, TwoNumerals;
    Powers();
    PairStep(n, 2);
    TwoDigits(n / 100);
  }

  lemma SixDigits(n: int)
    requires 0 <= n < 1_000_000
    ensures n < Power10(6)
    ensures Digits(n, 6) == TwoNumerals(n / 10_000) + TwoNumerals(n / 100 % 100) + TwoNumerals(n % 100)
  {
    hide Digits, TwoNumerals;
    Powers();
    PairStep(n, 4);
    FourDigits(n / 100);
    assert n / 100 / 100 == n / 10_000;
  }

  lemma InRange(d: DateTime)
    requires ValidFields(d)
    ensures 0 <= Micros(d) < MAX_INSTANT
  {
    var first, last := DateTime(1, 1, 1, 0, 0, 0, 0), DateTime(9999, 12, 31, 23, 59, 59, 999_999);
    FirstMidnight();
    LastMicrosecond();
    if Before(d, first) || Before(last, d) { assert false; }
    FieldOrder(first, d);
    FieldOrder(d, last);
  }

  lemma LastMicrosecond()
    ensures ValidFields(DateTime(9999, 12, 31, 23, 59, 59, 999_999))
    ensures Micros(DateTime(9999, 12, 31, 23, 59, 59, 999_999)) == MAX_INSTANT - 1
  {
    var y := 9999;
    YearOfMonths(y);
    assert DaysBeforeYear(y) == 3_651_694 && DaysInYear(y) == 365;
  }

  lemma DaysAtMost31(d: DateTime)
    requires ValidFields(d)
    ensures d.day <= 31
  {
  }

  lemma FractionByNumerals(micro: int)
    requires 0 <= micro < 1_000_000
    ensures Fraction(micro) ==
            (if micro == 0 then ""
             else "." + TwoNumerals(micro / 10_000) + TwoNumerals(micro / 100 % 100) + TwoNumerals(micro % 100))
            + "+00:00"
  {
    hide Digits, TwoNumerals;
    SixDigits(micro);
  }

  lemma DateAndClock(y: string, mo: string, d: string, h: string, mi: string, rest: string)
    ensures y + ("-" + (mo + ("-" + (d + ("T" + (h + (":" + (mi + (":" + rest)))))))))
         == (y + "-" + mo + "-" + d) + "T" + (h + ":" + mi + ":") + rest
  {
  }

  /** The stored text of a date and time, character by character. */
  lemma TextByNumerals(d: DateTime)
    requires ValidFields(d)
    ensures 0 <= Micros(d) < MAX_INSTANT && d.day <= 31
    ensures var date := TwoNumerals(d.year / 100) + TwoNumerals(d.year % 100) + "-" + TwoNumerals(d.month) + "-"
                        + TwoNumerals(d.day);
            var clock := TwoNumerals(d.hour) + ":" + TwoNumerals(d.minute) + ":";
            var fraction := if d.micro == 0 then ""
                            else "." + TwoNumerals(d.micro / 10_000) + TwoNumerals(d.micro / 100 % 100)
                                 + TwoNumerals(d.micro % 100);
            IsoText(Micros(d)) == date + "T" + clock + (TwoNumerals(d.second) + (fraction + "+00:00"))
  {
    hide Digits, TwoNumerals, Micros, Fraction;
    DaysAtMost31(d);
    InRange(d);
    FieldOrder(d, FieldsOf(Micros(d)));
    hide DaysInMonth;
    FourDigits(d.year);
    TwoDigits(d.month);
    TwoDigits(d.day);
    TwoDigits(d.hour);
    TwoDigits(d.minute);
    TwoDigits(d.second);
    FractionByNumerals(d.micro);
    DateAndClock(Digits(d.year, 4), Digits(d.month, 2), Digits(d.day, 2), Digits(d.hour, 2), Digits(d.minute, 2),
                 Digits(d.second, 2) + Fraction(d.micro));
  }
}
