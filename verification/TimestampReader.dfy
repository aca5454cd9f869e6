/** The server's RFC 3339 reader, against its writer. */
module TimestampReader {
  import opened Basics
  import opened Calendar
  import opened Text
  import opened Timestamps

  // ----- Reading -----

  /** Around the last separator. */
  function SplitLast(s: string, sep: char): Option<(string, string)> {
    if s == "" then None
    else if Last(s) == sep then Some((Most(s), ""))
    else match SplitLast(Most(s), sep)
      case None => None
      case Some((front, back)) => Some((front, back + [Last(s)]))
  }

  /** `parse()` of a signed 64-bit integer. */
  function ParseSigned(s: string): Option<int> {
    if s != "" && s[0] == '-' then
      match (if s[1..] == "" then None else Digits(s[1..]))
      case Some(n) => if n <= I64_MAX + 1 then Some(-n) else None
      case None => None
    else match ParseUnsigned(s, I64_MAX)
      case Some(n) => Some(n)
      case None => None
  }

  predicate CalendarDay(d: Date) {
    1970 <= d.year <= 9999 && Real(d)
  }

  function ReadDate(text: string): Option<Date> {
    var parts := Split(text, '-');
    if |parts| != 3 then None
    else match (ParseSigned(parts[0]), ParseUnsigned(parts[1], U64_MAX), ParseUnsigned(parts[2], U64_MAX))
      case (Some(year), Some(month), Some(day)) =>
        var d := Date(year, month, day);
        if CalendarDay(d) then Some(d) else None
      case _ => None
  }

  /** An offset from UTC, in seconds, summed in 64 bits. */
  function ReadOffset(text: string): Option<int> {
    var parts := Split(text, ':');
    match (ParseSigned(parts[0]), if |parts| > 1 then ParseSigned(parts[1]) else Some(0))
    case (Some(hours), Some(minutes)) =>
      var seconds := Wrapped(hours * 3600 + minutes * 60);
      if 0 <= minutes < 60 && 0 <= seconds < 24 * 3600 then Some(seconds) else None
    case _ => None
  }

  /** The time of day and the offset behind it. */
  function SplitOffset(rest: string): Option<(string, int)> {
    if rest != "" && Last(rest) == 'Z' then Some((Most(rest), 0))
    else match SplitLast(rest, '+')
      case Some((time, offset)) =>
        (match ReadOffset(offset) case Some(n) => Some((time, n)) case None => None)
      case None =>
        match SplitLast(rest, '-')
        case Some((time, offset)) =>
          (match ReadOffset(offset) case Some(n) => Some((time, -n)) case None => None)
        case None => Some((rest, 0))
  }

  /** Hours, minutes and seconds; a fraction of a second is dropped, and seconds have no upper bound. */
  function ReadClock(time: string): Option<(nat, nat, nat)> {
    var parts := Split(time, ':');
    if |parts| != 3 then None
    else
      var whole := match SplitOnce(parts[2], '.') case Some((front, _)) => front case None => parts[2];
      match (ParseUnsigned(parts[0], U64_MAX), ParseUnsigned(parts[1], U64_MAX), ParseUnsigned(whole, U64_MAX))
      case (Some(hour), Some(minute), Some(second)) =>
        if hour <= 23 && minute <= 59 && second <= I64_MAX then Some((hour, minute, second)) else None
      case _ => None
  }

  /** A signed 64-bit sum that wraps. */
  function Wrapped(n: int): int {
    (n + I64_MAX + 1) % U64 - (I64_MAX + 1)
  }

  function Instant(d: Date, clock: (nat, nat, nat), offset: int): Option<nat> {
    var local := DaysFrom(d) * 86_400 + Wrapped(clock.0 * 3600 + clock.1 * 60 + clock.2);
    if local > I64_MAX || local < -(I64_MAX + 1) then None
    else
      var utc := Wrapped(local - offset);
      if utc < 0 then None else Some(utc)
  }

  function ParseRfc3339(value: string): Option<nat> {
    match SplitOnce(value, 'T')
    case None => None
    case Some((date, rest)) =>
      match (ReadDate(date), SplitOffset(rest))
      case (Some(d), Some((time, offset))) =>
        (match ReadClock(time) case Some(clock) => Instant(d, clock, offset) case None => None)
      case _ => None
  }

  // ----- Reading what was written -----

  predicate Numeric(s: string) {
    forall c :: c in s ==> '0' <= c <= '9'
  }

  lemma {:induction false} ZerosCountNothing(k: nat, t: string)
    ensures Digits(Zeros(k) + t) == Digits(t)
    decreases |t|, k
  {
    var s := Zeros(k) + t;
    if t == "" {
      assert s == Zeros(k);
      if k > 0 {
        assert Most(s) == Zeros(k - 1) && Last(s) == '0';
        ZerosCountNothing(k - 1, "");
        assert Zeros(k - 1) + "" == Zeros(k - 1);
      }
    } else {
      assert Most(s) == Zeros(k) + Most(t) && Last(s) == Last(t);
      ZerosCountNothing(k, Most(t));
    }
  }

  lemma {:induction false} NumericZeros(k: nat, t: string)
    requires Numeric(t)
    ensures Numeric(Zeros(k) + t)
  {
    var s := Zeros(k) + t;
    forall c | c in s ensures '0' <= c <= '9' {
      var i :| 0 <= i < |s| && s[i] == c;
      if i >= k {
        assert s[i] == t[i - k] && t[i - k] in t;
      }
    }
  }

  lemma {:induction false} NumericIsParsed(s: string, n: nat, max: nat)
    requires s != "" && Numeric(s) && Digits(s) == Some(n) && n <= max
    ensures ParseUnsigned(s, max) == Some(n)
  {
    assert s[0] in s;
  }

  lemma {:induction false} PaddedIsRead(n: nat, w: nat, max: nat)
    requires n <= max
    ensures Numeric(Padded(n, w)) && Padded(n, w) != "" && ParseUnsigned(Padded(n, w), max) == Some(n)
  {
    var digits := Decimal(n);
    var k := if |digits| < w then w - |digits| else 0;
    DecimalIsRead(n);
    ZerosCountNothing(k, digits);
    NumericZeros(k, digits);
    NumericIsParsed(Zeros(k) + digits, n, max);
  }

  lemma {:induction false} ThreeParts(a: string, b: string, c: string, sep: char)
    requires Numeric(a) && Numeric(b) && Numeric(c) && !('0' <= sep <= '9')
    ensures Split(a + [sep] + (b + [sep] + c), sep) == [a, b, c]
  {
    SplitAfterPlain(a, b + [sep] + c, sep);
    SplitAfterPlain(b, c, sep);
    SplitOfPlain(c, sep);
    assert [a] + ([b] + [c]) == [a, b, c];
  }

  lemma {:induction false} ClockIsRead(s: nat)
    requires s < 86_400
    ensures SplitOffset(TimeOfDay(s)).Some? && SplitOffset(TimeOfDay(s)).value.1 == 0
    ensures ReadClock(SplitOffset(TimeOfDay(s)).value.0) == Some((s / 3600, s % 3600 / 60, s % 60))
  {
    var h, m, c := Padded(s / 3600, 2), Padded(s % 3600 / 60, 2), Padded(s % 60, 2);
    PaddedIsRead(s / 3600, 2, U64_MAX);
    PaddedIsRead(s % 3600 / 60, 2, U64_MAX);
    PaddedIsRead(s % 60, 2, U64_MAX);
    var time := h + [':'] + (m + [':'] + c);
    assert TimeOfDay(s) == time + ['Z'];
    assert Most(time + ['Z']) == time;
    ThreeParts(h, m, c, ':');
    SplitOnceNone(c, '.');
  }

  lemma {:induction false} DateIsRead(d: Date)
    requires Real(d) && 0 <= d.year <= I64_MAX
    ensures ReadDate(Padded(d.year, 4) + ['-'] + (Padded(d.month, 2) + ['-'] + Padded(d.day, 2)))
         == if CalendarDay(d) then Some(d) else None
  {
    var y, m, n := Padded(d.year, 4), Padded(d.month, 2), Padded(d.day, 2);
    PaddedIsRead(d.year, 4, I64_MAX);
    PaddedIsRead(d.month, 2, U64_MAX);
    PaddedIsRead(d.day, 2, U64_MAX);
    ThreeParts(y, m, n, '-');
    assert y[0] in y;
  }

  lemma {:induction false} FourParts(a: string, m: string, n: string)
    requires Numeric(a) && Numeric(m) && Numeric(n)
    ensures |Split(['-'] + (a + ['-'] + (m + ['-'] + n)), '-')| == 4
  {
    var rest := a + ['-'] + (m + ['-'] + n);
    ThreeParts(a, m, n, '-');
    assert ['-'] + rest == [] + ['-'] + rest;
    SplitAfterPlain([], rest, '-');
  }

  lemma {:induction false} NegativeYearIsNot(y: int, m: string, n: string)
    requires y < 0 && Numeric(m) && Numeric(n)
    ensures ReadDate(PaddedYear(y) + ['-'] + (m + ['-'] + n)) == None
  {
    var digits := Padded(-y, 3);
    PaddedIsRead(-y, 3, -y);
    FourParts(digits, m, n);
    Regroup(['-'], digits, ['-'] + (m + ['-'] + n));
    assert PaddedYear(y) + ['-'] + (m + ['-'] + n) == ['-'] + (digits + ['-'] + (m + ['-'] + n));
  }

  /** The two halves of a timestamp. */
  lemma {:induction false} StampSplits(d: Date, s: nat)
    requires Real(d)
    ensures SplitOnce(Stamp(d, s), 'T')
         == Some((PaddedYear(d.year) + ['-'] + (Padded(d.month, 2) + ['-'] + Padded(d.day, 2)), TimeOfDay(s)))
  {
    var y, m, n := PaddedYear(d.year), Padded(d.month, 2), Padded(d.day, 2);
    PaddedIsRead(d.month, 2, d.month);
    PaddedIsRead(d.day, 2, d.day);
    YearIsPlain(d.year);
    var date := y + ['-'] + (m + ['-'] + n);
    assert Stamp(d, s) == date + ['T'] + TimeOfDay(s);
    assert forall c :: c in date ==> c in y || c == '-' || c in m || c in n;
    SplitOnceAt(date, TimeOfDay(s), 'T');
  }

  lemma {:induction false} YearIsPlain(y: int)
    ensures 'T' !in PaddedYear(y)
  {
    if y >= 0 {
      PaddedIsRead(y, 4, y);
    } else {
      PaddedIsRead(-y, 3, -y);
    }
  }

  lemma {:induction false} StampIsRead(d: Date, s: nat)
    requires Real(d) && d.year <= I64_MAX && s < 86_400
    ensures ParseRfc3339(Stamp(d, s))
         == if CalendarDay(d) then Instant(d, (s / 3600, s % 3600 / 60, s % 60), 0) else None
  {
    StampSplits(d, s);
    ClockIsRead(s);
    if d.year >= 0 {
      DateIsRead(d);
    } else {
      PaddedIsRead(d.month, 2, d.month);
      PaddedIsRead(d.day, 2, d.day);
      NegativeYearIsNot(d.year, Padded(d.month, 2), Padded(d.day, 2));
    }
  }

  lemma {:induction false} InstantIs(n: nat, s: nat)
    requires n <= LAST_DAY && s < 86_400
    ensures Instant(Civil(n), (s / 3600, s % 3600 / 60, s % 60), 0) == Some(n * 86_400 + s)
  {
    DaysFromCivil(n);
    InstantAt(Civil(n), n, s);
  }

  lemma {:induction false} InstantAt(d: Date, days: nat, s: nat)
    requires DaysFrom(d) == days <= LAST_DAY && s < 86_400
    ensures Instant(d, (s / 3600, s % 3600 / 60, s % 60), 0) == Some(days * 86_400 + s)
  {
    assert s / 3600 * 3600 + s % 3600 / 60 * 60 + s % 60 == s;
  }

  lemma {:induction false} YearFits(n: int)
    requires n <= 0x8000_0000_0000_0000 / 86_400
    ensures Civil(n).year <= I64_MAX
  {
    var z := n + EPOCH;
    CivilIsDateAt(n);
    PlaceOfIsProper(z);
    assert PlaceOf(z).era * ERA <= z;
  }

  /** A written timestamp reads back as its instant exactly when it is one of a four-digit year since the epoch. */
  lemma {:induction false} ReadBackExactlyWhen(secs: nat)
    requires secs < U64
    ensures ParseRfc3339(Rfc3339(secs)) == Some(secs) <==> secs <= LAST_INSTANT
    ensures secs > LAST_INSTANT ==> ParseRfc3339(Rfc3339(secs)) == None
  {
    var n, s := Signed(secs) / 86_400, Signed(secs) % 86_400;
    CivilIsReal(n);
    YearFits(n);
    StampIsRead(Civil(n), s);
    FourWide(n);
    if n < 0 {
      BeforeTheEpoch(n);
    } else {
      SinceTheEpoch(n);
      if n <= LAST_DAY {
        InstantIs(n, s);
      }
    }
  }
}
