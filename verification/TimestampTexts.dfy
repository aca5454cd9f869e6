/** Which texts the RFC 3339 reader accepts, and the instant each denotes. */
module TimestampTexts {
  import opened Basics
  import opened Calendar
  import opened Text
  import TextLaws
  import opened TimestampReader
  import Timestamps

  // ----- Numbers -----

  /** The number in decimal, behind zeros and one plus. */
  ghost predicate Number(text: string, n: nat) {
    exists k :: text == TextLaws.Zeros(k) + Decimal(n) || text == "+" + (TextLaws.Zeros(k) + Decimal(n))
  }

  /** The same with a minus. */
  ghost predicate Negative(text: string, n: nat) {
    exists k :: text == "-" + (TextLaws.Zeros(k) + Decimal(n))
  }

  lemma {:induction false} UnsignedSays(text: string, max: nat, n: nat)
    ensures ParseUnsigned(text, max) == Some(n) <==> n <= max && Number(text, n)
  {
    TextLaws.UnsignedExactly(text, max, n);
  }

  lemma {:induction false} DigitsSay(text: string, n: nat)
    requires text != ""
    ensures Digits(text) == Some(n) <==> exists k :: text == TextLaws.Zeros(k) + Decimal(n)
  {
    if Digits(text) == Some(n) {
      var k := TextLaws.DigitsAreDecimal(text);
    }
    if k :| text == TextLaws.Zeros(k) + Decimal(n) {
      TextLaws.ZerosInFront(k, n);
    }
  }

  /** A signed number is one of 64 bits. */
  ghost predicate Whole(text: string, n: int) {
    (0 <= n <= 9223372036854775807 && Number(text, n)) || (-9223372036854775808 <= n <= 0 && Negative(text, -n))
  }

  lemma {:induction false} NumberIsNoMinus(text: string, n: nat)
    requires Number(text, n)
    ensures text != "" && text[0] != '-'
  {
    var k :| text == TextLaws.Zeros(k) + Decimal(n) || text == "+" + (TextLaws.Zeros(k) + Decimal(n));
    DecimalIsRead(n);
    if text[0] != '+' && k == 0 {
      assert text[0] == Decimal(n)[0] && Decimal(n)[0] in Decimal(n);
    }
  }

  lemma {:induction false} SignedSays(text: string, n: int)
    ensures ParseSigned(text) == Some(n) <==> Whole(text, n)
  {
    if text != "" && text[0] == '-' {
      var rest := text[1..];
      assert text == "-" + rest;
      if 0 <= n && Number(text, n) {
        NumberIsNoMinus(text, n);
      }
      if n <= 0 {
        MinusSays(text, rest, -n);
      }
    } else {
      if 0 <= n {
        UnsignedSays(text, I64_MAX, n);
      }
    }
  }

  lemma {:induction false} MinusSays(text: string, rest: string, n: nat)
    requires text == "-" + rest
    ensures (rest != "" && Digits(rest) == Some(n)) <==> Negative(text, n)
  {
    if rest != "" {
      DigitsSay(rest, n);
    }
    if Negative(text, n) {
      var k :| text == "-" + (TextLaws.Zeros(k) + Decimal(n));
      assert text[1..] == TextLaws.Zeros(k) + Decimal(n) && text[1..] == rest;
    }
  }

  // ----- The date -----

  /** How many days a month has. */
  function MonthDays(year: int, month: int): int {
    if month == 2 then (if year % 4 == 0 && (year % 100 != 0 || year % 400 == 0) then 29 else 28)
    else if month in {4, 6, 9, 11} then 30 else 31
  }

  ghost predicate SaysDate(text: string, d: Date) {
    exists y, m, n ::
      && text == y + "-" + m + "-" + n && '-' !in y && '-' !in m && '-' !in n
      && Whole(y, d.year) && 0 <= d.month <= U64_MAX && Number(m, d.month) && 0 <= d.day <= U64_MAX && Number(n, d.day)
      && 1970 <= d.year <= 9999 && 1 <= d.month <= 12 && 1 <= d.day <= MonthDays(d.year, d.month)
  }

  /** Three pieces and two separators. */
  lemma {:induction false} ThreePieces(text: string, sep: char, a: string, b: string, c: string)
    ensures Split(text, sep) == [a, b, c] <==> text == a + [sep] + b + [sep] + c && sep !in a && sep !in b && sep !in c
  {
    if Split(text, sep) == [a, b, c] {
      TextLaws.SplitExactly(text, sep);
      assert [a, b, c][1..] == [b, c] && [b, c][1..] == [c];
      assert Join([c], sep) == c;
      assert Join([b, c], sep) == b + [sep] + c;
      assert Join([a, b, c], sep) == a + [sep] + Join([b, c], sep);
      assert Split(text, sep)[0] == a && Split(text, sep)[1] == b && Split(text, sep)[2] == c;
      assert a + [sep] + (b + [sep] + c) == a + [sep] + b + [sep] + c;
    }
    if text == a + [sep] + b + [sep] + c && sep !in a && sep !in b && sep !in c {
      assert text == a + [sep] + (b + [sep] + c);
      SplitAfterPlain(a, b + [sep] + c, sep);
      SplitAfterPlain(b, c, sep);
      SplitOfPlain(c, sep);
    }
  }

  lemma {:induction false} DateExactly(text: string, d: Date)
    ensures ReadDate(text) == Some(d) <==> SaysDate(text, d)
  {
    if ReadDate(text) == Some(d) {
      var parts := Split(text, '-');
      var y, m, n := parts[0], parts[1], parts[2];
      assert parts == [y, m, n];
      ThreePieces(text, '-', y, m, n);
      SignedSays(y, d.year);
      UnsignedSays(m, U64_MAX, d.month);
      UnsignedSays(n, U64_MAX, d.day);
    }
    if SaysDate(text, d) {
      var y, m, n :|
        && text == y + "-" + m + "-" + n && '-' !in y && '-' !in m && '-' !in n
        && Whole(y, d.year) && 0 <= d.month <= U64_MAX && Number(m, d.month) && 0 <= d.day <= U64_MAX && Number(n, d.day)
        && 1970 <= d.year <= 9999 && 1 <= d.month <= 12 && 1 <= d.day <= MonthDays(d.year, d.month);
      ThreePieces(text, '-', y, m, n);
      SignedSays(y, d.year);
      UnsignedSays(m, U64_MAX, d.month);
      UnsignedSays(n, U64_MAX, d.day);
    }
  }

  // ----- The offset -----

  /** The sum in 64 bits: the number of that range it differs from by a multiple of 2^64. */
  predicate Sum64(n: int, sum: int) {
    -9223372036854775808 <= sum <= 9223372036854775807 && (n - sum) % 18446744073709551616 == 0
  }

  lemma {:induction false} WrapsExactly(n: int, sum: int)
    ensures Wrapped(n) == sum <==> Sum64(n, sum)
  {
  }

  ghost predicate Adds(parts: seq<string>, hours: int, minutes: int, seconds: int)
    requires parts != []
  {
    && Whole(parts[0], hours) && SaysMinutes(parts, minutes)
    && 0 <= minutes <= 59 && Sum64(hours * 3600 + minutes * 60, seconds) && 0 <= seconds <= 86399
  }

  /** The writer's cast keeps the number up to a multiple of 2^64. */
  lemma {:induction false} SignedExactly(n: nat)
    requires n < 18446744073709551616
    ensures Sum64(n, Timestamps.Signed(n))
  {
  }

  /** Hours, and minutes if they stand behind a colon; anything behind a second colon is passed over. */
  ghost predicate SaysOffset(text: string, seconds: int) {
    exists hours, minutes :: Adds(Split(text, ':'), hours, minutes, seconds)
  }

  /** The minutes of the pieces, none if there is one piece. */
  ghost predicate SaysMinutes(parts: seq<string>, minutes: int) {
    if |parts| <= 1 then minutes == 0 else Whole(parts[1], minutes)
  }

  function Minutes(parts: seq<string>): Option<int> { if |parts| > 1 then ParseSigned(parts[1]) else Some(0) }

  lemma {:induction false} MinutesExactly(parts: seq<string>, minutes: int)
    ensures Minutes(parts) == Some(minutes) <==> SaysMinutes(parts, minutes)
  {
    if |parts| > 1 { SignedSays(parts[1], minutes); }
  }

  lemma {:induction false} OffsetExactly(text: string, seconds: int)
    ensures ReadOffset(text) == Some(seconds) <==> SaysOffset(text, seconds)
  {
    var parts := Split(text, ':');
    if ReadOffset(text) == Some(seconds) {
      var hours, minutes := ParseSigned(parts[0]).value, Minutes(parts).value;
      OffsetFrom(text, parts, hours, minutes, seconds);
    }
    if SaysOffset(text, seconds) {
      var hours, minutes :| Adds(parts, hours, minutes, seconds);
      OffsetFrom(text, parts, hours, minutes, seconds);
    }
  }

  lemma {:induction false} OffsetFrom(text: string, parts: seq<string>, hours: int, minutes: int, seconds: int)
    requires parts == Split(text, ':')
    ensures Adds(parts, hours, minutes, seconds) <==>
      ParseSigned(parts[0]) == Some(hours) && Minutes(parts) == Some(minutes) && ReadOffset(text) == Some(seconds)
  {
    SignedSays(parts[0], hours);
    MinutesExactly(parts, minutes);
    if ParseSigned(parts[0]) == Some(hours) && Minutes(parts) == Some(minutes) {
      SumIsRead(text, parts, hours, minutes, seconds);
    }
  }

  lemma {:induction false} SumIsRead(text: string, parts: seq<string>, hours: int, minutes: int, seconds: int)
    requires parts == Split(text, ':') && ParseSigned(parts[0]) == Some(hours) && Minutes(parts) == Some(minutes)
    ensures ReadOffset(text) == Some(seconds) <==>
      0 <= minutes <= 59 && Sum64(hours * 3600 + minutes * 60, seconds) && 0 <= seconds <= 86399
  {
    var sum := Wrapped(hours * 3600 + minutes * 60);
    assert ReadOffset(text) == if 0 <= minutes < 60 && 0 <= sum < 24 * 3600 then Some(sum) else None;
    WrapsExactly(hours * 3600 + minutes * 60, seconds);
  }

  /** An offset within a day is the one written exactly when its hours do not wrap the sum. */
  lemma {:induction false} OffsetIsWrittenExactlyWhen(hours: int, minutes: int, seconds: int)
    requires -9223372036854775808 <= hours <= 9223372036854775807 && 0 <= minutes <= 59
    requires Sum64(hours * 3600 + minutes * 60, seconds) && 0 <= seconds <= 86399
    ensures seconds == hours * 3600 + minutes * 60 <==> 0 <= hours <= 23
  {
  }

  /** Whole multiples of 2^60 hours are read as an offset of none. */
  lemma {:induction false} HugeOffsetIsNone(hours: nat)
    requires hours <= 9223372036854775807 && hours % 1152921504606846976 == 0
    ensures ReadOffset(Decimal(hours)) == Some(0)
  {
    var text := Decimal(hours);
    DecimalIsRead(hours);
    SplitOfPlain(text, ':');
    assert text == TextLaws.Zeros(0) + text;
    assert Number(text, hours);
    WholeTurns(hours);
    assert Adds([text], hours, 0, 0);
    OffsetExactly(text, 0);
  }

  lemma {:induction false} WholeTurns(hours: nat)
    requires hours % 1152921504606846976 == 0
    ensures Sum64(hours * 3600 + 0 * 60, 0)
  {
    var k := hours / 1152921504606846976;
    assert hours * 3600 == 18446744073709551616 * (225 * k);
  }

  // ----- The time of day -----

  ghost predicate SaysClock(text: string, h: nat, m: nat, s: nat) {
    exists a, b, c, whole ::
      && text == a + ":" + b + ":" + c && ':' !in a && ':' !in b && ':' !in c && Front(c, whole)
      && Number(a, h) && h <= 23 && Number(b, m) && m <= 59 && Number(whole, s) && s <= 9223372036854775807
  }

  /** What stands before the first point, if there is one. */
  predicate Front(c: string, whole: string) {
    if '.' in c then whole + "." <= c && '.' !in whole else whole == c
  }

  lemma {:induction false} FrontExactly(c: string, whole: string)
    ensures whole == (match SplitOnce(c, '.') case Some((front, _)) => front case None => c) <==> Front(c, whole)
  {
    SplitOnceNone(c, '.');
    if SplitOnce(c, '.').Some? {
      SplitOnceSome(c, '.');
      if whole + "." <= c && '.' !in whole {
        assert c == whole + ['.'] + c[|whole| + 1..];
        SplitOnceAt(whole, c[|whole| + 1..], '.');
      }
    }
  }

  lemma {:induction false} ClockExactly(text: string, h: nat, m: nat, s: nat)
    ensures ReadClock(text) == Some((h, m, s)) <==> SaysClock(text, h, m, s)
  {
    if ReadClock(text) == Some((h, m, s)) {
      var parts := Split(text, ':');
      var a, b, c := parts[0], parts[1], parts[2];
      assert parts == [a, b, c];
      var whole := match SplitOnce(c, '.') case Some((front, _)) => front case None => c;
      ThreePieces(text, ':', a, b, c);
      FrontExactly(c, whole);
      UnsignedSays(a, U64_MAX, h);
      UnsignedSays(b, U64_MAX, m);
      UnsignedSays(whole, U64_MAX, s);
    }
    if SaysClock(text, h, m, s) {
      var a, b, c, whole :|
        && text == a + ":" + b + ":" + c && ':' !in a && ':' !in b && ':' !in c && Front(c, whole)
        && Number(a, h) && h <= 23 && Number(b, m) && m <= 59 && Number(whole, s) && s <= 9223372036854775807;
      ThreePieces(text, ':', a, b, c);
      FrontExactly(c, whole);
      UnsignedSays(a, U64_MAX, h);
      UnsignedSays(b, U64_MAX, m);
      UnsignedSays(whole, U64_MAX, s);
    }
  }

  // ----- What stands behind the date -----

  /** The last separator. */
  lemma {:induction false} LastExactly(s: string, sep: char, a: string, b: string)
    ensures SplitLast(s, sep) == Some((a, b)) <==> s == a + [sep] + b && sep !in b
    ensures SplitLast(s, sep).None? <==> sep !in s
    decreases |s|, 1
  {
    if s != "" {
      if Last(s) == sep {
        assert s == Most(s) + [sep] + "";
        if s == a + [sep] + b && sep !in b {
          EndsIn(s, a, sep, b);
          assert a == s[..|a|];
        }
      } else {
        LastBefore(s, sep, a, b);
      }
    }
  }

  lemma {:induction false} LastBefore(s: string, sep: char, a: string, b: string)
    requires s != "" && Last(s) != sep
    ensures SplitLast(s, sep) == Some((a, b)) <==> s == a + [sep] + b && sep !in b
    ensures SplitLast(s, sep).None? <==> sep !in s
    decreases |s|, 0
  {
    var last := Last(s);
    LastExactly(Most(s), sep, a, if b == "" then "" else Most(b));
    assert s == Most(s) + [last];
    if b != "" {
      assert b == Most(b) + [Last(b)];
      if s == a + [sep] + b {
        assert Most(s) == a + [sep] + Most(b) && Last(b) == last;
      }
      if Most(s) == a + [sep] + Most(b) && Last(b) == last {
        assert s == a + [sep] + b;
      }
    } else if s == a + [sep] + b {
      EndsIn(s, a, sep, b);
    }
  }

  lemma {:induction false} EndsIn(s: string, a: string, sep: char, b: string)
    requires s == a + [sep] + b
    ensures s != "" && Last(s) == (if b == "" then sep else Last(b)) && (b != "" ==> Last(b) in b)
  {
  }

  /** A time in UTC, one with an offset east or west, or one without. */
  ghost predicate SaysZone(rest: string, time: string, offset: int) {
    if rest != "" && rest[|rest| - 1] == 'Z' then rest == time + "Z" && offset == 0
    else if '+' in rest then exists text :: rest == time + "+" + text && '+' !in text && SaysOffset(text, offset)
    else if '-' in rest then exists text :: rest == time + "-" + text && '-' !in text && SaysOffset(text, -offset)
    else time == rest && offset == 0
  }

  lemma {:induction false} ZoneExactly(rest: string, time: string, offset: int)
    ensures SplitOffset(rest) == Some((time, offset)) <==> SaysZone(rest, time, offset)
  {
    if rest != "" && Last(rest) == 'Z' {
      assert rest == Most(rest) + "Z";
      if rest == time + "Z" {
        assert Most(rest) == time;
      }
    } else {
      LastExactly(rest, '+', "", "");
      LastExactly(rest, '-', "", "");
      if '+' in rest {
        EastExactly(rest, time, offset);
      } else if '-' in rest {
        WestExactly(rest, time, offset);
      }
    }
  }

  lemma {:induction false} EastExactly(rest: string, time: string, offset: int)
    requires SplitLast(rest, '+').Some? && Last(rest) != 'Z'
    ensures SplitOffset(rest) == Some((time, offset)) <==> exists text :: rest == time + "+" + text && '+' !in text && SaysOffset(text, offset)
  {
    var (front, back) := SplitLast(rest, '+').value;
    assert SplitOffset(rest) == if ReadOffset(back).Some? then Some((front, ReadOffset(back).value)) else None;
    LastExactly(rest, '+', front, back);
    OffsetExactly(back, offset);
    if text :| rest == time + "+" + text && '+' !in text && SaysOffset(text, offset) {
      LastExactly(rest, '+', time, text);
    }
  }

  lemma {:induction false} WestExactly(rest: string, time: string, offset: int)
    requires SplitLast(rest, '+').None? && SplitLast(rest, '-').Some? && Last(rest) != 'Z'
    ensures SplitOffset(rest) == Some((time, offset)) <==> exists text :: rest == time + "-" + text && '-' !in text && SaysOffset(text, -offset)
  {
    var (front, back) := SplitLast(rest, '-').value;
    assert SplitOffset(rest) == if ReadOffset(back).Some? then Some((front, -ReadOffset(back).value)) else None;
    LastExactly(rest, '-', front, back);
    OffsetExactly(back, -offset);
    if text :| rest == time + "-" + text && '-' !in text && SaysOffset(text, -offset) {
      LastExactly(rest, '-', time, text);
    }
  }

  // ----- The instant -----

  /** The seconds since the epoch, the sums made in 64 bits; none before the epoch. */
  ghost predicate SaysInstant(days: int, clock: int, offset: int, t: nat) {
    exists sum ::
      && Sum64(clock, sum) && -9223372036854775808 <= days * 86400 + sum <= 9223372036854775807
      && Sum64(days * 86400 + sum - offset, t)
  }

  lemma {:induction false} OneSum(n: int, a: int, b: int)
    requires Sum64(n, a) && Sum64(n, b)
    ensures a == b
  {
    WrapsExactly(n, a);
    WrapsExactly(n, b);
  }

  lemma {:induction false} SumsTo(days: int, clock: int, offset: int, t: nat, sum: int, local: int, utc: int)
    requires Sum64(clock, sum) && local == days * 86400 + sum && Sum64(local - offset, utc)
    ensures SaysInstant(days, clock, offset, t) <==> -9223372036854775808 <= local <= 9223372036854775807 && utc == t
  {
    if SaysInstant(days, clock, offset, t) {
      var other :|
        && Sum64(clock, other) && -9223372036854775808 <= days * 86400 + other <= 9223372036854775807
        && Sum64(days * 86400 + other - offset, t);
      OneSum(clock, sum, other);
      OneSum(local - offset, utc, t);
    }
  }

  lemma {:induction false} InstantExactly(d: Date, h: nat, m: nat, s: nat, offset: int, t: nat)
    ensures Instant(d, (h, m, s), offset) == Some(t) <==> SaysInstant(DaysFrom(d), InDay(h, m, s), offset, t)
  {
    var clock := InDay(h, m, s);
    assert clock == h * 3600 + m * 60 + s;
    var sum := Wrapped(clock);
    var local := DaysFrom(d) * 86_400 + sum;
    var utc := Wrapped(local - offset);
    WrapsExactly(clock, sum);
    WrapsExactly(local - offset, utc);
    SumsTo(DaysFrom(d), clock, offset, t, sum, local, utc);
  }

  /** The text is a date, `T` and the rest; the rest a time of day and an offset. */
  ghost predicate Says(value: string, d: Date, h: nat, m: nat, s: nat, offset: int) {
    exists date, rest, time ::
      value == date + "T" + rest && 'T' !in date && SaysDate(date, d) && SaysZone(rest, time, offset) && SaysClock(time, h, m, s)
  }

  /** The parts come to the instant. */
  ghost predicate Comes(value: string, d: Date, h: nat, m: nat, s: nat, offset: int, t: nat) {
    Says(value, d, h, m, s, offset) && SaysInstant(DaysFrom(d), InDay(h, m, s), offset, t)
  }

  /** Some parts of the text do. */
  ghost predicate Denotes(value: string, t: nat) {
    exists d, h, m, s, offset :: Comes(value, d, h, m, s, offset, t)
  }

  function InDay(h: nat, m: nat, s: nat): nat { 3600 * h + 60 * m + s }

  /** The parts the reader takes a text apart into. */
  predicate Parts(value: string, d: Date, h: nat, m: nat, s: nat, offset: int) {
    match SplitOnce(value, 'T')
    case None => false
    case Some((date, rest)) =>
      && ReadDate(date) == Some(d) && SplitOffset(rest).Some? && SplitOffset(rest).value.1 == offset
      && ReadClock(SplitOffset(rest).value.0) == Some((h, m, s))
  }

  lemma {:induction false} PartsExactly(value: string, d: Date, h: nat, m: nat, s: nat, offset: int)
    ensures Parts(value, d, h, m, s, offset) <==> Says(value, d, h, m, s, offset)
  {
    if Parts(value, d, h, m, s, offset) {
      var (date, rest) := SplitOnce(value, 'T').value;
      var time := SplitOffset(rest).value.0;
      SplitOnceSome(value, 'T');
      DateExactly(date, d);
      ZoneExactly(rest, time, offset);
      ClockExactly(time, h, m, s);
    }
    if Says(value, d, h, m, s, offset) {
      var date, rest, time :|
        value == date + "T" + rest && 'T' !in date && SaysDate(date, d) && SaysZone(rest, time, offset) && SaysClock(time, h, m, s);
      SplitOnceAt(date, rest, 'T');
      DateExactly(date, d);
      ZoneExactly(rest, time, offset);
      ClockExactly(time, h, m, s);
    }
  }

  lemma {:induction false} FromParts(value: string, d: Date, h: nat, m: nat, s: nat, offset: int)
    requires Parts(value, d, h, m, s, offset)
    ensures ParseRfc3339(value) == Instant(d, (h, m, s), offset)
  {
  }

  lemma {:induction false} HasParts(value: string) returns (d: Date, h: nat, m: nat, s: nat, offset: int)
    requires ParseRfc3339(value).Some?
    ensures Parts(value, d, h, m, s, offset)
  {
    var (date, rest) := SplitOnce(value, 'T').value;
    var (time, zone) := SplitOffset(rest).value;
    var (hour, minute, second) := ReadClock(time).value;
    d, h, m, s, offset := ReadDate(date).value, hour, minute, second, zone;
  }

  lemma {:induction false} ComesExactly(value: string, d: Date, h: nat, m: nat, s: nat, offset: int, t: nat)
    ensures Comes(value, d, h, m, s, offset, t) <==> Parts(value, d, h, m, s, offset) && ParseRfc3339(value) == Some(t)
  {
    PartsExactly(value, d, h, m, s, offset);
    if Parts(value, d, h, m, s, offset) {
      FromParts(value, d, h, m, s, offset);
      InstantExactly(d, h, m, s, offset, t);
    }
  }

  /** The reader accepts a text for an instant exactly when the text denotes it. */
  lemma {:induction false} ReadsExactly(value: string, t: nat)
    ensures ParseRfc3339(value) == Some(t) <==> Denotes(value, t)
  {
    if ParseRfc3339(value) == Some(t) {
      var d, h, m, s, offset := HasParts(value);
      ComesExactly(value, d, h, m, s, offset, t);
    }
    if Denotes(value, t) {
      var d, h, m, s, offset :| Comes(value, d, h, m, s, offset, t);
      ComesExactly(value, d, h, m, s, offset, t);
    }
  }
}
