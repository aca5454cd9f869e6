/** Calendar dates from day numbers and back, against the Gregorian calendar itself. */
module Calendar {
  import opened Basics

  datatype Date = Date(year: int, month: int, day: int)

  // ----- The Gregorian calendar -----

  predicate Leap(y: int) {
    y % 4 == 0 && (y % 100 != 0 || y % 400 == 0)
  }

  function DaysIn(y: int, m: int): int {
    if m == 2 then (if Leap(y) then 29 else 28)
    else if m == 4 || m == 6 || m == 9 || m == 11 then 30
    else 31
  }

  function Tomorrow(d: Date): Date {
    if d.day < DaysIn(d.year, d.month) then Date(d.year, d.month, d.day + 1)
    else if d.month < 12 then Date(d.year, d.month + 1, 1)
    else Date(d.year + 1, 1, 1)
  }

  // ----- The source's arithmetic -----

  const EPOCH := 719_468
  const ERA := 146_097

  function YearOfEra(doe: int): int {
    (doe - doe / 1460 + doe / 36_524 - doe / 146_096) / 365
  }

  /** The date of a day number counted from 1970-01-01. */
  function Civil(days: int): Date {
    var z := days + EPOCH;
    var era := z / ERA;
    var doe := z % ERA;
    var yoe := YearOfEra(doe);
    var year := yoe + era * 400;
    var doy := doe - (365 * yoe + yoe / 4 - yoe / 100);
    var mp := (5 * doy + 2) / 153;
    var day := doy - (153 * mp + 2) / 5 + 1;
    var month := if mp < 10 then mp + 3 else mp - 9;
    Date(if month <= 2 then year + 1 else year, month, day)
  }

  // ----- A day's place: era, century, four-year group, year, day of a year that starts in March -----

  datatype Place = Place(era: int, c: int, q: int, k: int, t: int)

  /** Whether the February that ends the year is long. */
  predicate Long(p: Place) {
    p.k == 3 && (p.q < 24 || p.c == 3)
  }

  predicate Proper(p: Place) {
    && 0 <= p.c <= 3 && 0 <= p.q <= 24 && 0 <= p.k <= 3
    && 0 <= p.t < (if Long(p) then 366 else 365)
  }

  function DayOfEra(p: Place): int {
    36_524 * p.c + 1461 * p.q + 365 * p.k + p.t
  }

  function YearIn(p: Place): int {
    100 * p.c + 4 * p.q + p.k
  }

  /** The place of the next day. */
  function NextPlace(p: Place): Place {
    if p.t + 1 < (if Long(p) then 366 else 365) then p.(t := p.t + 1)
    else if p.k < 3 then p.(k := p.k + 1, t := 0)
    else if p.q < 24 then p.(q := p.q + 1, k := 0, t := 0)
    else if p.c < 3 then p.(c := p.c + 1, q := 0, k := 0, t := 0)
    else Place(p.era + 1, 0, 0, 0, 0)
  }

  function PlaceOf(z: int): Place {
    var doe := z % ERA;
    var c := Min(doe / 36_524, 3);
    var r := doe - 36_524 * c;
    var q := Min(r / 1461, 24);
    var s := r - 1461 * q;
    var k := Min(s / 365, 3);
    Place(z / ERA, c, q, k, s - 365 * k)
  }

  lemma {:induction false} PlaceOfIsProper(z: int)
    ensures Proper(PlaceOf(z)) && z == PlaceOf(z).era * ERA + DayOfEra(PlaceOf(z))
  {
    var doe := z % ERA;
    var c := Min(doe / 36_524, 3);
    var r := doe - 36_524 * c;
    assert 0 <= r <= 36_524 && (c < 3 ==> r < 36_524);
    var q := Min(r / 1461, 24);
    var s := r - 1461 * q;
    assert 0 <= s <= 1460;
    assert q == 24 && c < 3 ==> s < 1460;
  }

  lemma {:induction false} PlaceIsUnique(p: Place, p': Place)
    requires Proper(p) && Proper(p') && p.era * ERA + DayOfEra(p) == p'.era * ERA + DayOfEra(p')
    ensures p == p'
  {
    DayOfEraInEra(p);
    DayOfEraInEra(p');
    assert p.era == p'.era;
    SameCentury(p, p');
    SameGroup(p, p');
  }

  lemma {:induction false} DayOfEraInEra(p: Place)
    requires Proper(p)
    ensures 0 <= DayOfEra(p) < ERA
  {
  }

  lemma {:induction false} SameCentury(p: Place, p': Place)
    requires Proper(p) && Proper(p') && DayOfEra(p) == DayOfEra(p')
    ensures p.c == p'.c
  {
    assert p.c < 3 ==> 1461 * p.q + 365 * p.k + p.t < 36_524;
    assert p'.c < 3 ==> 1461 * p'.q + 365 * p'.k + p'.t < 36_524;
  }

  lemma {:induction false} SameGroup(p: Place, p': Place)
    requires Proper(p) && Proper(p') && p.c == p'.c && DayOfEra(p) == DayOfEra(p')
    ensures p.q == p'.q && p.k == p'.k && p.t == p'.t
  {
    assert 365 * p.k + p.t < 1461 && 365 * p'.k + p'.t < 1461;
  }

  lemma {:induction false} NextPlaceIsNext(p: Place)
    requires Proper(p)
    ensures Proper(NextPlace(p))
    ensures NextPlace(p).era * ERA + DayOfEra(NextPlace(p)) == p.era * ERA + DayOfEra(p) + 1
  {
  }

  // ----- The source's formulas find the place -----

  /** The year formula, whose divisions count the leap days passed. */
  lemma {:induction false} YearFormula(p: Place)
    requires Proper(p)
    ensures YearOfEra(DayOfEra(p)) == YearIn(p)
  {
    var doe := DayOfEra(p);
    var u := 24 * p.c + p.q + 365 * p.k + p.t;
    var e := if u >= 1460 then 1 else 0;
    assert doe == 1460 * (25 * p.c + p.q + e) + (u - 1460 * e) && 0 <= u - 1460 * e < 1460;
    assert doe / 1460 == 25 * p.c + p.q + e;
    LateFormula(p);
    assert doe - doe / 1460 + doe / 36_524 - doe / 146_096 == 365 * YearIn(p) + (p.t - e);
    assert 0 <= p.t - e < 365;
  }

  /** The last two divisions differ from the century only on the last day of an era, and cancel there. */
  lemma {:induction false} LateFormula(p: Place)
    requires Proper(p)
    ensures DayOfEra(p) / 36_524 - DayOfEra(p) / 146_096 == p.c
  {
    var doe := DayOfEra(p);
    var r := doe - 36_524 * p.c;
    assert 0 <= r <= 36_524 && (r == 36_524 ==> p.c == 3);
    if r == 36_524 {
      assert doe == 146_096;
    } else {
      assert doe < 146_096;
      assert doe / 36_524 == p.c;
    }
  }

  /** The first day of a month, counted from March. */
  function MonthStart(mp: int): int {
    (153 * mp + 2) / 5
  }

  lemma {:induction false} MonthFormula(t: int)
    requires 0 <= t <= 365
    ensures var mp := (5 * t + 2) / 153; 0 <= mp <= 11 && MonthStart(mp) <= t && (mp < 11 ==> t < MonthStart(mp + 1))
  {
    var mp := (5 * t + 2) / 153;
    assert 153 * mp <= 5 * t + 2 < 153 * (mp + 1);
  }

  /** The date of day `t` of a year that starts in March, in its month `mp`. */
  function Dated(year: int, mp: int, t: int): Date {
    var month := if mp < 10 then mp + 3 else mp - 9;
    Date(if month <= 2 then year + 1 else year, month, t - MonthStart(mp) + 1)
  }

  /** The date at a place. */
  function DateAt(p: Place): Date {
    Dated(YearIn(p) + p.era * 400, (5 * p.t + 2) / 153, p.t)
  }

  lemma {:induction false} CivilIsDateAt(days: int)
    ensures Civil(days) == DateAt(PlaceOf(days + EPOCH))
  {
    var z := days + EPOCH;
    var p := PlaceOf(z);
    PlaceOfIsProper(z);
    DayOfEraInEra(p);
    assert z % ERA == DayOfEra(p);
    YearFormula(p);
    var yoe := YearIn(p);
    assert yoe / 4 == 25 * p.c + p.q && yoe / 100 == p.c;
  }

  // ----- Tomorrow -----

  lemma {:induction false} EraMod(y: int, era: int, m: int, n: int)
    requires m > 0 && m * n == 400
    ensures (y + era * 400) % m == y % m
  {
    var x := y + era * 400;
    assert x - y == m * (n * era);
    SameMod(x, y, m, n * era);
  }

  lemma {:induction false} SameMod(x: int, y: int, m: int, j: int)
    requires m > 0 && x - y == m * j
    ensures x % m == y % m
  {
    var d := x / m - y / m - j;
    assert m * d == y % m - x % m by {
      assert x == m * (x / m) + x % m && y == m * (y / m) + y % m;
      assert m * d == m * (x / m) - m * (y / m) - m * j;
    }
    assert d == 0;
  }

  lemma {:induction false} YearMods(p: Place)
    requires Proper(p)
    ensures var y := YearIn(p) + 1;
            && (y % 4 == 0 <==> p.k == 3)
            && (y % 100 == 0 <==> p.k == 3 && p.q == 24)
            && (y % 400 == 0 <==> p.k == 3 && p.q == 24 && p.c == 3)
  {
  }

  lemma {:induction false} LeapAt(p: Place)
    requires Proper(p)
    ensures Leap(YearIn(p) + p.era * 400 + 1) == Long(p)
  {
    var y := YearIn(p) + 1;
    EraMod(y, p.era, 400, 1);
    EraMod(y, p.era, 100, 4);
    EraMod(y, p.era, 4, 100);
    YearMods(p);
    assert YearIn(p) + p.era * 400 + 1 == y + p.era * 400;
  }

  /** The month formula gives every month its length. */
  lemma {:induction false} MonthLengths(mp: int)
    requires 0 <= mp <= 10
    ensures MonthStart(mp + 1) - MonthStart(mp) == DaysIn(1, if mp < 10 then mp + 3 else mp - 9)
  {
    var m := mp;
    if m == 0 {} else if m == 1 {} else if m == 2 {} else if m == 3 {} else if m == 4 {} else if m == 5 {}
    else if m == 6 {} else if m == 7 {} else if m == 8 {} else if m == 9 {} else {}
  }

  lemma {:induction false} WithinMonth(year: int, mp: int, t: int)
    requires 0 <= mp <= 10 && MonthStart(mp) <= t && t + 1 < MonthStart(mp + 1)
    ensures Tomorrow(Dated(year, mp, t)) == Dated(year, mp, t + 1)
  {
    MonthLengths(mp);
  }

  lemma {:induction false} IntoNextMonth(year: int, mp: int, t: int)
    requires 0 <= mp <= 10 && t + 1 == MonthStart(mp + 1)
    ensures Tomorrow(Dated(year, mp, t)) == Dated(year, mp + 1, t + 1)
  {
    MonthLengths(mp);
  }

  lemma {:induction false} InFebruary(year: int, t: int)
    requires MonthStart(11) <= t && t + 1 < (if Leap(year + 1) then 366 else 365)
    ensures Tomorrow(Dated(year, 11, t)) == Dated(year, 11, t + 1)
  {
    assert MonthStart(11) == 337;
  }

  lemma {:induction false} DateInMonth(p: Place, mp: int)
    requires 0 <= mp <= 11 && MonthStart(mp) <= p.t <= 365 && (mp < 11 ==> p.t < MonthStart(mp + 1))
    ensures DateAt(p) == Dated(YearIn(p) + p.era * 400, mp, p.t)
  {
    MonthAt(p.t, mp);
  }

  lemma {:induction false} TomorrowInYear(p: Place, mp: int)
    requires Proper(p) && p.t + 1 < (if Long(p) then 366 else 365)
    requires 0 <= mp <= 11 && MonthStart(mp) <= p.t && (mp < 11 ==> p.t < MonthStart(mp + 1))
    ensures DateAt(p.(t := p.t + 1)) == Tomorrow(DateAt(p))
  {
    var next := p.(t := p.t + 1);
    var year := YearIn(p) + p.era * 400;
    assert YearIn(next) + next.era * 400 == year;
    DateInMonth(p, mp);
    if mp == 11 {
      LeapAt(p);
      DateInMonth(next, 11);
      InFebruary(year, p.t);
    } else if p.t + 1 < MonthStart(mp + 1) {
      DateInMonth(next, mp);
      WithinMonth(year, mp, p.t);
    } else {
      StartsRise(mp + 1);
      DateInMonth(next, mp + 1);
      IntoNextMonth(year, mp, p.t);
    }
  }

  lemma {:induction false} StartsRise(mp: int)
    ensures MonthStart(mp) < MonthStart(mp + 1)
  {
  }

  lemma {:induction false} MonthAt(t: int, mp: int)
    requires 0 <= mp <= 11 && MonthStart(mp) <= t && t <= 365 && (mp < 11 ==> t < MonthStart(mp + 1))
    ensures (5 * t + 2) / 153 == mp
  {
    assert 5 * MonthStart(mp) <= 153 * mp + 2 < 5 * MonthStart(mp) + 5;
    assert 5 * MonthStart(mp + 1) <= 153 * (mp + 1) + 2 < 5 * MonthStart(mp + 1) + 5;
  }

  lemma {:induction false} TomorrowAtYearEnd(p: Place)
    requires Proper(p) && p.t + 1 == (if Long(p) then 366 else 365)
    ensures DateAt(NextPlace(p)) == Tomorrow(DateAt(p))
  {
    LeapAt(p);
    MonthFormula(p.t);
    assert MonthStart(11) == 337;
    MonthAt(p.t, 11);
    var next := NextPlace(p);
    assert next.t == 0 && YearIn(next) + next.era * 400 == YearIn(p) + p.era * 400 + 1;
  }

  lemma {:induction false} PlaceSuccessor(z: int)
    ensures PlaceOf(z + 1) == NextPlace(PlaceOf(z))
  {
    PlaceOfIsProper(z);
    PlaceOfIsProper(z + 1);
    NextPlaceIsNext(PlaceOf(z));
    PlaceIsUnique(PlaceOf(z + 1), NextPlace(PlaceOf(z)));
  }

  lemma {:induction false} DateSuccessor(p: Place)
    requires Proper(p)
    ensures DateAt(NextPlace(p)) == Tomorrow(DateAt(p))
  {
    if p.t + 1 < (if Long(p) then 366 else 365) {
      MonthFormula(p.t);
      TomorrowInYear(p, (5 * p.t + 2) / 153);
    } else {
      TomorrowAtYearEnd(p);
    }
  }

  /** The next day number is the next day of the Gregorian calendar, for every day number. */
  lemma {:induction false} CivilSuccessor(days: int)
    ensures Civil(days + 1) == Tomorrow(Civil(days))
  {
    var z := days + EPOCH;
    CivilIsDateAt(days);
    CivilIsDateAt(days + 1);
    assert days + 1 + EPOCH == z + 1;
    PlaceSuccessor(z);
    PlaceOfIsProper(z);
    DateSuccessor(PlaceOf(z));
  }

  lemma {:induction false} CivilEpoch()
    ensures Civil(0) == Date(1970, 1, 1)
  {
  }

  // ----- Dates in order -----

  predicate Before(a: Date, b: Date) {
    a.year < b.year || (a.year == b.year && (a.month < b.month || (a.month == b.month && a.day < b.day)))
  }

  predicate Real(d: Date) {
    1 <= d.month <= 12 && 1 <= d.day <= DaysIn(d.year, d.month)
  }

  lemma {:induction false} TomorrowIsLater(d: Date)
    requires Real(d)
    ensures Real(Tomorrow(d)) && Before(d, Tomorrow(d))
  {
  }

  /** The n-th day after the epoch, counted one day at a time. */
  function Counted(n: nat): Date {
    if n == 0 then Date(1970, 1, 1) else Tomorrow(Counted(n - 1))
  }

  lemma {:induction false} CountingIsUnique(f: nat -> Date, n: nat)
    requires f(0) == Date(1970, 1, 1) && forall k: nat :: f(k + 1) == Tomorrow(f(k))
    ensures f(n) == Counted(n)
  {
    if n > 0 {
      CountingIsUnique(f, n - 1);
      assert f(n - 1 + 1) == Tomorrow(f(n - 1));
    }
  }

  /** The formula gives the same date as counting days. */
  lemma {:induction false} CivilCounts(n: nat)
    ensures Civil(n) == Counted(n)
  {
    var f := (k: nat) => Civil(k);
    CivilEpoch();
    forall k: nat ensures f(k + 1) == Tomorrow(f(k)) {
      CivilSuccessor(k);
    }
    CountingIsUnique(f, n);
  }

  /** Every place is a real date. */
  lemma {:induction false} RealAt(p: Place)
    requires Proper(p)
    ensures Real(DateAt(p))
  {
    MonthFormula(p.t);
    var mp := (5 * p.t + 2) / 153;
    DateInMonth(p, mp);
    if mp == 11 {
      LeapAt(p);
      assert MonthStart(11) == 337;
    } else {
      MonthLengths(mp);
    }
  }

  /** Every day number names a real date, before the epoch too. */
  lemma {:induction false} CivilIsReal(days: int)
    ensures Real(Civil(days))
  {
    CivilIsDateAt(days);
    PlaceOfIsProper(days + EPOCH);
    RealAt(PlaceOf(days + EPOCH));
  }

  lemma {:induction false} SuccessorsRise(f: int -> Date, a: int, b: int)
    requires a < b && forall k: int :: Real(f(k)) && f(k + 1) == Tomorrow(f(k))
    ensures Before(f(a), f(b))
    decreases b - a
  {
    assert f(b - 1 + 1) == Tomorrow(f(b - 1));
    TomorrowIsLater(f(b - 1));
    if a < b - 1 {
      SuccessorsRise(f, a, b - 1);
    }
  }

  /** Later day numbers name later dates. */
  lemma {:induction false} CivilRises(a: int, b: int)
    requires a < b
    ensures Before(Civil(a), Civil(b))
  {
    var f := (k: int) => Civil(k);
    forall k: int ensures Real(f(k)) && f(k + 1) == Tomorrow(f(k)) {
      CivilIsReal(k);
      CivilSuccessor(k);
    }
    SuccessorsRise(f, a, b);
  }

  // ----- Day numbers from dates -----

  /** The era of a year: the source divides towards zero, after an adjustment below zero. */
  function EraOf(y: int): int {
    if y >= 0 then y / 400 else -((399 - y) / 400)
  }

  /** The day number of a date. */
  function DaysFrom(d: Date): int {
    var y := if d.month <= 2 then d.year - 1 else d.year;
    var era := EraOf(y);
    var yoe := y - era * 400;
    var doy := (153 * (if d.month > 2 then d.month - 3 else d.month + 9) + 2) / 5 + d.day - 1;
    era * ERA + (yoe * 365 + yoe / 4 - yoe / 100 + doy) - EPOCH
  }

  lemma {:induction false} EraIsFound(y: int, era: int)
    requires 0 <= y < 400
    ensures EraOf(y + era * 400) == era
  {
  }

  lemma {:induction false} DaysFromDated(p: Place, mp: int)
    requires Proper(p) && 0 <= mp <= 11
    ensures DaysFrom(Dated(YearIn(p) + p.era * 400, mp, p.t)) == p.era * ERA + DayOfEra(p) - EPOCH
  {
    var yoe := YearIn(p);
    EraIsFound(yoe, p.era);
    YearParts(p);
    DayCount(p, yoe);
  }

  lemma {:induction false} YearParts(p: Place)
    requires Proper(p)
    ensures 0 <= YearIn(p) < 400 && YearIn(p) / 4 == 25 * p.c + p.q && YearIn(p) / 100 == p.c
  {
  }

  lemma {:induction false} DayCount(p: Place, yoe: int)
    requires yoe == YearIn(p) && yoe / 4 == 25 * p.c + p.q && yoe / 100 == p.c
    ensures yoe * 365 + yoe / 4 - yoe / 100 + p.t == DayOfEra(p)
  {
  }

  /** The day number of the date of a day number is that number, for every one. */
  lemma {:induction false} DaysFromCivil(days: int)
    ensures DaysFrom(Civil(days)) == days
  {
    var p := PlaceOf(days + EPOCH);
    CivilIsDateAt(days);
    PlaceOfIsProper(days + EPOCH);
    DaysFromPlace(p);
  }

  lemma {:induction false} DaysFromPlace(p: Place)
    requires Proper(p)
    ensures DaysFrom(DateAt(p)) == p.era * ERA + DayOfEra(p) - EPOCH
  {
    MonthFormula(p.t);
    DaysFromDated(p, (5 * p.t + 2) / 153);
  }
}
