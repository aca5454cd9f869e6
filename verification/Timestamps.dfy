/** RFC 3339 timestamps as the server writes them and reads them back. */
module Timestamps {
  import opened Basics
  import opened Calendar
  import opened Text

  const LAST_INSTANT: nat := 253_402_300_799
  const LAST_DAY := 2_932_896
  /** The first day whose year takes four characters, -999-01-01, and the seconds from it to the epoch. */
  const FIRST_DAY := -1_084_405
  const BEFORE_EPOCH: nat := 93_692_592_000

  // ----- Writing -----

  function Zeros(n: nat): (s: string)
    ensures |s| == n
  {
    seq(n, i => '0')
  }

  /** A number in at least `w` digits, zeros in front. */
  function Padded(n: nat, w: nat): string {
    var digits := Decimal(n);
    Zeros(if |digits| < w then w - |digits| else 0) + digits
  }

  /** A year in at least four characters, its sign counting as one. */
  function PaddedYear(y: int): string {
    if y >= 0 then Padded(y, 4) else ['-'] + Padded(-y, 3)
  }

  /** A number and the character behind it, before the rest. */
  function Field(n: nat, w: nat, sep: char, rest: string): string {
    Padded(n, w) + [sep] + rest
  }

  function TimeOfDay(s: nat): string {
    Field(s / 3600, 2, ':', Field(s % 3600 / 60, 2, ':', Field(s % 60, 2, 'Z', "")))
  }

  /** What stands behind the year. */
  function DayAndTime(d: Date, s: nat): string
    requires d.month >= 0 && d.day >= 0
  {
    Field(d.month, 2, '-', Field(d.day, 2, 'T', TimeOfDay(s)))
  }

  function Stamp(d: Date, s: nat): string
    requires d.month >= 0 && d.day >= 0
  {
    PaddedYear(d.year) + ['-'] + DayAndTime(d, s)
  }

  /** A 64-bit unsigned number taken as a signed one. */
  function Signed(n: nat): int
    requires n < U64
  {
    if n <= I64_MAX then n else n - U64
  }

  function Rfc3339(secs: nat): string
    requires secs < U64
  {
    var s := Signed(secs);
    CivilIsReal(s / 86_400);
    Stamp(Civil(s / 86_400), s % 86_400)
  }

  // ----- Timestamps sort as text -----

  /** Strictly before in the order of characters. */
  predicate Less(a: string, b: string) {
    b != "" && (a == "" || a[0] < b[0] || (a[0] == b[0] && Less(a[1..], b[1..])))
  }

  lemma {:induction false} LessBehind(a: string, x: string, y: string)
    requires Less(x, y)
    ensures Less(a + x, a + y)
  {
    if a == "" {
      assert a + x == x && a + y == y;
    } else {
      LessBehind(a[1..], x, y);
      assert (a + x)[1..] == a[1..] + x && (a + y)[1..] == a[1..] + y;
    }
  }

  lemma {:induction false} LessInFront(a: string, b: string, x: string, y: string)
    requires |a| == |b| && Less(a, b)
    ensures Less(a + x, b + y)
  {
    if a[0] == b[0] {
      LessInFront(a[1..], b[1..], x, y);
      assert (a + x)[1..] == a[1..] + x && (b + y)[1..] == b[1..] + y;
    }
  }

  function Pow10(n: nat): (r: nat)
    ensures r > 0
  {
    if n == 0 then 1 else 10 * Pow10(n - 1)
  }

  function DigitChar(n: nat): char {
    (48 + n % 10) as char
  }

  /** The lowest `w` digits of a number. */
  function Fixed(n: nat, w: nat): (s: string)
    ensures |s| == w
  {
    if w == 0 then "" else Fixed(n / 10, w - 1) + [DigitChar(n)]
  }

  lemma {:induction false} FixedZero(w: nat)
    ensures Fixed(0, w) == Zeros(w)
  {
    if w > 0 {
      FixedZero(w - 1);
      assert Zeros(w) == Zeros(w - 1) + ['0'];
    }
  }

  lemma {:induction false} PaddedIsFixed(n: nat, w: nat)
    requires w >= 1 && n < Pow10(w)
    ensures |Text.Decimal(n)| <= w && Padded(n, w) == Fixed(n, w)
  {
    if n < 10 {
      FixedZero(w - 1);
    } else {
      assert w >= 2 by {
        assert Pow10(1) == 10;
      }
      PaddedIsFixed(n / 10, w - 1);
      var high := Text.Decimal(n / 10);
      assert Zeros(w - 1 - |high|) + (high + [DigitChar(n)]) == (Zeros(w - 1 - |high|) + high) + [DigitChar(n)];
    }
  }

  lemma {:induction false} FixedRises(n: nat, m: nat, w: nat)
    requires n < m < Pow10(w)
    ensures Less(Fixed(n, w), Fixed(m, w))
  {
    if n / 10 < m / 10 {
      FixedRises(n / 10, m / 10, w - 1);
      LessInFront(Fixed(n / 10, w - 1), Fixed(m / 10, w - 1), [DigitChar(n)], [DigitChar(m)]);
    } else {
      LessBehind(Fixed(n / 10, w - 1), [DigitChar(n)], [DigitChar(m)]);
    }
  }

  lemma {:induction false} FieldLength(n: nat, w: nat, sep: char, rest: string)
    requires w >= 1 && n < Pow10(w)
    ensures |Field(n, w, sep, rest)| == w + 1 + |rest|
  {
    PaddedIsFixed(n, w);
  }

  /** Fields compare first by their number, then by what is behind them. */
  lemma {:induction false} FieldRises(n: nat, m: nat, w: nat, sep: char, x: string, y: string)
    requires w >= 1 && n < Pow10(w) && m < Pow10(w)
    requires n < m || (n == m && Less(x, y))
    ensures Less(Field(n, w, sep, x), Field(m, w, sep, y))
  {
    PaddedIsFixed(n, w);
    PaddedIsFixed(m, w);
    var a, b := Padded(n, w), Padded(m, w);
    if n < m {
      FixedRises(n, m, w);
      LessInFront(a, b, [sep] + x, [sep] + y);
      assert a + [sep] + x == a + ([sep] + x) && b + [sep] + y == b + ([sep] + y);
    } else {
      LessBehind(a + [sep], x, y);
    }
  }

  lemma {:induction false} Widths()
    ensures Pow10(2) == 100 && Pow10(3) == 1000 && Pow10(4) == 10_000
  {
    assert Pow10(2) == 100;
  }

  lemma {:induction false} TimeRises(s: nat, s': nat)
    requires s < s' < 86_400
    ensures Less(TimeOfDay(s), TimeOfDay(s'))
  {
    Widths();
    if s / 3600 == s' / 3600 {
      if s % 3600 / 60 == s' % 3600 / 60 {
        FieldRises(s % 60, s' % 60, 2, 'Z', "", "");
      }
      FieldRises(s % 3600 / 60, s' % 3600 / 60, 2, ':', Field(s % 60, 2, 'Z', ""), Field(s' % 60, 2, 'Z', ""));
    }
    FieldRises(s / 3600, s' / 3600, 2, ':', Field(s % 3600 / 60, 2, ':', Field(s % 60, 2, 'Z', "")),
               Field(s' % 3600 / 60, 2, ':', Field(s' % 60, 2, 'Z', "")));
  }

  lemma {:induction false} TimeLength(s: nat)
    requires s < 86_400
    ensures |TimeOfDay(s)| == 9
  {
    Widths();
    FieldLength(s % 60, 2, 'Z', "");
    FieldLength(s % 3600 / 60, 2, ':', Field(s % 60, 2, 'Z', ""));
    FieldLength(s / 3600, 2, ':', Field(s % 3600 / 60, 2, ':', Field(s % 60, 2, 'Z', "")));
  }

  lemma {:induction false} DayAndTimeRises(d: Date, s: nat, d': Date, s': nat)
    requires Real(d) && Real(d') && d.year == d'.year && s < 86_400 && s' < 86_400
    requires Before(d, d') || (d == d' && s < s')
    ensures Less(DayAndTime(d, s), DayAndTime(d', s'))
  {
    Widths();
    var day, day' := Field(d.day, 2, 'T', TimeOfDay(s)), Field(d'.day, 2, 'T', TimeOfDay(s'));
    if d.month == d'.month {
      if d.day == d'.day {
        TimeRises(s, s');
      }
      FieldRises(d.day, d'.day, 2, 'T', TimeOfDay(s), TimeOfDay(s'));
    }
    FieldRises(d.month, d'.month, 2, '-', day, day');
  }

  lemma {:induction false} StampRises(d: Date, s: nat, d': Date, s': nat)
    requires Real(d) && Real(d') && 0 <= d.year <= 9999 && 0 <= d'.year <= 9999 && s < 86_400 && s' < 86_400
    requires Before(d, d') || (d == d' && s < s')
    ensures Less(Stamp(d, s), Stamp(d', s'))
  {
    Widths();
    if d.year == d'.year {
      DayAndTimeRises(d, s, d', s');
    }
    FieldRises(d.year, d'.year, 4, '-', DayAndTime(d, s), DayAndTime(d', s'));
  }

  lemma {:induction false} LastDay()
    ensures Civil(LAST_DAY) == Date(9999, 12, 31) && Civil(LAST_DAY + 1) == Date(10_000, 1, 1)
  {
    assert (LAST_DAY + EPOCH) / ERA == 24 && (LAST_DAY + EPOCH) % ERA == 146_036;
    assert YearOfEra(146_036) == 399;
    CivilSuccessor(LAST_DAY);
  }

  lemma {:induction false} FirstDay()
    ensures Civil(FIRST_DAY) == Date(-999, 1, 1) && Civil(FIRST_DAY - 1) == Date(-1000, 12, 31)
  {
    FirstDate();
    DayBefore();
  }

  lemma {:induction false} FirstDate()
    ensures Civil(FIRST_DAY) == Date(-999, 1, 1)
  {
    assert (FIRST_DAY + EPOCH) / ERA == -3 && (FIRST_DAY + EPOCH) % ERA == 73_354;
    assert YearOfEra(73_354) == 200;
  }

  lemma {:induction false} DayBefore()
    ensures Civil(FIRST_DAY - 1) == Date(-1000, 12, 31)
  {
    assert (FIRST_DAY - 1 + EPOCH) / ERA == -3 && (FIRST_DAY - 1 + EPOCH) % ERA == 73_353;
    assert YearOfEra(73_353) == 200;
  }

  /** The days whose year takes four characters. */
  lemma {:induction false} FourWide(n: int)
    ensures n <= LAST_DAY <==> Civil(n).year <= 9999
    ensures FIRST_DAY <= n <==> -999 <= Civil(n).year
  {
    LastDay();
    FirstDay();
    if n < LAST_DAY {
      CivilRises(n, LAST_DAY);
    } else if n > LAST_DAY + 1 {
      CivilRises(LAST_DAY + 1, n);
    }
    if n < FIRST_DAY - 1 {
      CivilRises(n, FIRST_DAY - 1);
    } else if n > FIRST_DAY {
      CivilRises(FIRST_DAY, n);
    }
  }

  lemma {:induction false} SinceTheEpoch(n: nat)
    ensures Civil(n).year >= 1970
  {
    CivilEpoch();
    if n > 0 {
      CivilRises(0, n);
    }
  }

  lemma {:induction false} BeforeTheEpoch(n: int)
    requires n < 0
    ensures Civil(n).year < 1970
  {
    CivilEpoch();
    CivilRises(n, 0);
    CivilIsReal(n);
  }

  /** Timestamps up to the last instant sort as text in the order of time. */
  lemma {:induction false} TimestampsRise(a: nat, b: nat)
    requires a < b <= LAST_INSTANT
    ensures Less(Rfc3339(a), Rfc3339(b))
  {
    var m, n := a / 86_400, b / 86_400;
    DaysAndSeconds(a, b);
    DaysRise(m, n);
    WrittenInOrder(Civil(m), a % 86_400, Civil(n), b % 86_400, Rfc3339(a), Rfc3339(b));
  }

  lemma {:induction false} DaysAndSeconds(a: nat, b: nat)
    requires a < b <= LAST_INSTANT
    ensures a / 86_400 <= b / 86_400 <= LAST_DAY && a % 86_400 < 86_400 && b % 86_400 < 86_400
    ensures a / 86_400 == b / 86_400 ==> a % 86_400 < b % 86_400
  {
  }

  lemma {:induction false} WrittenInOrder(d: Date, s: nat, d': Date, s': nat, x: string, y: string)
    requires Real(d) && Real(d') && 0 <= d.year <= 9999 && 0 <= d'.year <= 9999 && s < 86_400 && s' < 86_400
    requires (Before(d, d') || (d == d' && s < s')) && x == Stamp(d, s) && y == Stamp(d', s')
    ensures Less(x, y)
  {
    StampRises(d, s, d', s');
  }

  lemma {:induction false} DaysRise(m: nat, n: nat)
    requires m <= n <= LAST_DAY
    ensures Real(Civil(m)) && Real(Civil(n))
    ensures 0 <= Civil(m).year <= 9999 && 0 <= Civil(n).year <= 9999
    ensures m < n ==> Before(Civil(m), Civil(n))
  {
    CivilIsReal(m);
    CivilIsReal(n);
    FourWide(m);
    FourWide(n);
    SinceTheEpoch(m);
    SinceTheEpoch(n);
    if m < n {
      CivilRises(m, n);
    }
  }

  // ----- How long a timestamp is -----

  lemma {:induction false} DecimalIsLong(n: nat, w: nat)
    requires n >= Pow10(w)
    ensures |Decimal(n)| > w
  {
    if w > 0 {
      DecimalIsLong(n / 10, w - 1);
    }
  }

  lemma {:induction false} YearWidth(y: int)
    ensures |PaddedYear(y)| == 4 <==> -999 <= y <= 9999
    ensures |PaddedYear(y)| >= 4
  {
    Widths();
    if y > 9999 {
      DecimalIsLong(y, 4);
    } else if y >= 0 {
      PaddedIsFixed(y, 4);
    } else if y >= -999 {
      PaddedIsFixed(-y, 3);
    } else {
      DecimalIsLong(-y, 3);
    }
  }

  lemma {:induction false} StampLength(d: Date, s: nat)
    requires Real(d) && s < 86_400
    ensures |Stamp(d, s)| == 16 + |PaddedYear(d.year)|
  {
    Widths();
    TimeLength(s);
    FieldLength(d.day, 2, 'T', TimeOfDay(s));
    FieldLength(d.month, 2, '-', Field(d.day, 2, 'T', TimeOfDay(s)));
  }

  /**
   * A timestamp is 20 characters long exactly up to the last instant and again
   * in the last 93692592000 numbers of 64 bits, which the cast to a signed
   * number takes for instants before the epoch.
   */
  lemma {:induction false} TimestampLength(secs: nat)
    requires secs < U64
    ensures |Rfc3339(secs)| == 20 <==> secs <= LAST_INSTANT || secs >= U64 - BEFORE_EPOCH
  {
    var n := Signed(secs) / 86_400;
    CivilIsReal(n);
    FourWide(n);
    YearWidth(Civil(n).year);
    StampLength(Civil(n), Signed(secs) % 86_400);
    assert FIRST_DAY <= n <= LAST_DAY <==> secs <= LAST_INSTANT || secs >= U64 - BEFORE_EPOCH;
  }

  // ----- Two timestamps written out -----

  /** The last instant is 9999-12-31T23:59:59Z. */
  lemma {:induction false} LastInstant()
    ensures Rfc3339(LAST_INSTANT) == "9999-12-31T23:59:59Z"
  {
    LastDay();
    assert Signed(LAST_INSTANT) / 86_400 == LAST_DAY && Signed(LAST_INSTANT) % 86_400 == 86_399;
    LastSecond();
    LastDigits();
    Spelled(Date(9999, 12, 31), 86_399, "9999", "12", "31", "23:59:59Z");
  }

  /** The largest 64-bit number is written as the second before the epoch. */
  lemma {:induction false} CastGoesBack()
    ensures Rfc3339(U64 - 1) == "1969-12-31T23:59:59Z" && |Rfc3339(U64 - 1)| == 20 && U64 - 1 > LAST_INSTANT
  {
    assert Signed(U64 - 1) / 86_400 == -1 && Signed(U64 - 1) % 86_400 == 86_399;
    DayMinusOne();
    EveOfTheEpoch(Date(1969, 12, 31));
  }

  lemma {:induction false} EveOfTheEpoch(d: Date)
    requires d == Date(1969, 12, 31)
    ensures Stamp(d, 86_399) == "1969-12-31T23:59:59Z"
  {
    LastSecond();
    LastDigits();
    Spelled(d, 86_399, "1969", "12", "31", "23:59:59Z");
  }

  lemma {:induction false} DayMinusOne()
    ensures Civil(-1) == Date(1969, 12, 31)
  {
    assert (-1 + EPOCH) / ERA == 4 && (-1 + EPOCH) % ERA == 135_079;
    assert YearOfEra(135_079) == 369;
  }

  lemma {:induction false} Spelled(d: Date, s: nat, y: string, m: string, day: string, t: string)
    requires d.month >= 0 && d.day >= 0
    requires PaddedYear(d.year) == y && Padded(d.month, 2) == m && Padded(d.day, 2) == day && TimeOfDay(s) == t
    ensures Stamp(d, s) == y + ['-'] + (m + ['-'] + (day + ['T'] + t))
  {
  }

  lemma {:induction false} LastDigits()
    ensures PaddedYear(9999) == "9999" && PaddedYear(1969) == "1969" && Padded(12, 2) == "12" && Padded(31, 2) == "31"
  {
    assert Decimal(9999) == "9999";
    assert Decimal(1969) == "1969";
  }

  lemma {:induction false} LastSecond()
    ensures TimeOfDay(86_399) == "23:59:59Z"
  {
    assert Padded(23, 2) == "23" && Padded(59, 2) == "59";
  }
}
