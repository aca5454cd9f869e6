/** What quoted-printable texts mean, token by token, and how encoded lines are filled (section 6.7 of RFC 2045). */
module QuotedPrintableMeaning {
  import opened Basics
  import opened QuotedPrintable

  // ----- Line endings -----

  lemma {:induction false} NoBreaks(a: seq<byte>)
    requires 13 !in a && 10 !in a
    ensures Normalised(a) == a
  {
    if a != [] {
      assert a[0] in a;
      NoBreaks(a[1..]);
      assert a == [a[0]] + a[1..];
    }
  }

  lemma {:induction false} BreakFirst(brk: seq<byte>, b: seq<byte>)
    requires brk == [13] || brk == [10] || brk == [13, 10]
    requires brk == [13] && b != [] ==> b[0] != 10
    ensures Normalised(brk + b) == [13, 10] + Normalised(b)
  {
    assert (brk + b)[|brk|..] == b;
    assert |b| > 0 ==> (brk + b)[|brk|] == b[0];
  }

  lemma {:induction false} TextFirst(a: seq<byte>, x: seq<byte>)
    requires 13 !in a && 10 !in a
    ensures Normalised(a + x) == a + Normalised(x)
  {
    if a == [] {
      assert a + x == x;
    } else {
      assert a[0] in a;
      TextFirst(a[1..], x);
      assert (a + x)[1..] == a[1..] + x;
      Regroup([a[0]], a[1..], Normalised(x));
      assert a == [a[0]] + a[1..];
    }
  }

  /** Text without breaks in front of a break, however written, is followed by CR LF and the rest. */
  lemma {:induction false} NormalisedExactly(a: seq<byte>, brk: seq<byte>, b: seq<byte>)
    requires 13 !in a && 10 !in a
    requires brk == [13] || brk == [10] || brk == [13, 10]
    requires brk == [13] && b != [] ==> b[0] != 10
    ensures Normalised(a) == a
    ensures Normalised(a + brk + b) == a + [13, 10] + Normalised(b)
  {
    NoBreaks(a);
    Regroup(a, brk, b);
    TextFirst(a, brk + b);
    BreakFirst(brk, b);
    Regroup(a, [13, 10], Normalised(b));
  }

  // ----- Digits -----

  /** The codes of `0123456789ABCDEF`. */
  const UPPER: seq<byte> := [48, 49, 50, 51, 52, 53, 54, 55, 56, 57, 65, 66, 67, 68, 69, 70]

  /** The codes of `0123456789abcdef`. */
  const LOWER: seq<byte> := [48, 49, 50, 51, 52, 53, 54, 55, 56, 57, 97, 98, 99, 100, 101, 102]

  predicate DigitFor(b: byte, n: nat) { n < 16 && (b == UPPER[n] || b == LOWER[n]) }

  /** Digits are read in either case, and nothing else is a digit. */
  lemma {:induction false} HexExactly(b: byte, n: nat)
    ensures Hex(b) == Some(n) <==> DigitFor(b, n)
  {
  }

  lemma {:induction false} NoHex(b: byte)
    ensures Hex(b).None? <==> forall n: nat :: !DigitFor(b, n)
  {
    forall n: nat ensures Hex(b) == Some(n) <==> DigitFor(b, n) {
      HexExactly(b, n);
    }
  }

  // ----- Tokens -----

  /** What the decoder is fed, CRs left out: a byte, or a line end and what it is written as. */
  datatype Item = Other(b: byte) | Eol(newline: seq<byte>)

  /** Line ends are CR LF from the first CR on, LF before. */
  function Items(s: seq<byte>, seen: bool): seq<Item> {
    if s == [] then []
    else if s[0] == 13 then Items(s[1..], true)
    else [if s[0] == 10 then Eol(if seen then [13, 10] else [10]) else Other(s[0])] + Items(s[1..], seen)
  }

  /** A character, an escaped one, a soft break, a line end; or an escape the text ends in. */
  datatype Token =
    | Text(b: byte)
    | Escape(blanks: seq<byte>, first: byte, high: nat, ends: seq<seq<byte>>, second: byte, low: nat)
    | Soft(blanks: seq<byte>, newline: seq<byte>)
    | Hard(newline: seq<byte>)
    | Begun(blanks: seq<byte>)
    | Half(blanks: seq<byte>, first: byte, high: nat, ends: seq<seq<byte>>)

  predicate BlankByte(b: byte) { b in {9, 12, 32} }

  predicate AllBlank(s: seq<byte>) { forall i :: 0 <= i < |s| ==> BlankByte(s[i]) }

  predicate Good(t: Token) {
    match t
    case Text(b) => b !in {10, 13, 61}
    case Escape(blanks, first, high, ends, second, low) => AllBlank(blanks) && DigitFor(first, high) && DigitFor(second, low)
    case Soft(blanks, newline) => AllBlank(blanks)
    case Hard(newline) => true
    case Begun(blanks) => AllBlank(blanks)
    case Half(blanks, first, high, ends) => AllBlank(blanks) && DigitFor(first, high)
  }

  /** Only the last token may be cut short. */
  predicate AllGood(ts: seq<Token>) {
    forall i :: 0 <= i < |ts| ==> Good(ts[i]) && (i + 1 < |ts| ==> !ts[i].Begun? && !ts[i].Half?)
  }

  function Others(s: seq<byte>): (r: seq<Item>)
    ensures |r| == |s|
  {
    seq(|s|, i requires 0 <= i < |s| => Other(s[i]))
  }

  function Eols(ends: seq<seq<byte>>): (r: seq<Item>)
    ensures |r| == |ends|
  {
    seq(|ends|, i requires 0 <= i < |ends| => Eol(ends[i]))
  }

  function Spelled(t: Token): seq<Item> {
    match t
    case Text(b) => [Other(b)]
    case Escape(blanks, first, high, ends, second, low) => [Other(61)] + Others(blanks) + [Other(first)] + Eols(ends) + [Other(second)]
    case Soft(blanks, newline) => [Other(61)] + Others(blanks) + [Eol(newline)]
    case Hard(newline) => [Eol(newline)]
    case Begun(blanks) => [Other(61)] + Others(blanks)
    case Half(blanks, first, high, ends) => [Other(61)] + Others(blanks) + [Other(first)] + Eols(ends)
  }

  // ----- The decoder on items -----

  /** One item through the decoder. */
  function Take(d: Decoder, item: Item): (r: Decoder)
    requires Sane(d)
    ensures Sane(r)
  {
    match item
    case Other(b) => if b == 13 || b == 10 then d else Feed(d, b)
    case Eol(newline) =>
      if d.failed then d
      else if d.mode.AfterEquals? then d.(mode := Plain, whitespace := 0)
      else d.(out := d.out[..|d.out| - d.whitespace] + newline, whitespace := 0)
  }

  function TakeAll(d: Decoder, items: seq<Item>): (r: Decoder)
    requires Sane(d)
    ensures Sane(r)
    decreases |items|
  {
    if items == [] then d else TakeAll(Take(d, items[0]), items[1..])
  }

  function SpelledAll(ts: seq<Token>): seq<Item> {
    if ts == [] then [] else Spelled(ts[0]) + SpelledAll(ts[1..])
  }

  // ----- What tokens mean -----

  function Together(ends: seq<seq<byte>>): seq<byte> {
    if ends == [] then [] else ends[0] + Together(ends[1..])
  }

  function Emits(t: Token): seq<byte>
    requires Good(t)
  {
    match t
    case Text(b) => [b]
    case Escape(blanks, first, high, ends, second, low) => Together(ends) + [16 * high + low]
    case Soft(blanks, newline) => []
    case Hard(newline) => newline
    case Begun(blanks) => []
    case Half(blanks, first, high, ends) => Together(ends)
  }

  predicate EndsLine(t: Token) { t.Hard? || ((t.Escape? || t.Half?) && t.ends != []) }

  predicate BlankText(t: Token) { t.Text? && BlankByte(t.b) }

  /** Blanks in front of these tokens stand at the end of a line. */
  predicate Trims(ts: seq<Token>) { ts != [] && (EndsLine(ts[0]) || (BlankText(ts[0]) && Trims(ts[1..]))) }

  /** The tokens' text, but for blanks at the end of a line. */
  function Meaning(ts: seq<Token>): seq<byte>
    requires AllGood(ts)
  {
    if ts == [] then []
    else (if BlankText(ts[0]) && Trims(ts[1..]) then [] else Emits(ts[0])) + Meaning(ts[1..])
  }

  // ----- The decoder reads tokens -----

  lemma {:induction false} TakeBoth(d: Decoder, a: seq<Item>, b: seq<Item>)
    requires Sane(d)
    ensures TakeAll(d, a + b) == TakeAll(TakeAll(d, a), b)
    decreases |a|
  {
    if a == [] {
      assert a + b == b;
    } else {
      assert (a + b)[1..] == a[1..] + b;
      TakeBoth(Take(d, a[0]), a[1..], b);
    }
  }

  lemma {:induction false} TakeOne(d: Decoder, item: Item)
    requires Sane(d)
    ensures TakeAll(d, [item]) == Take(d, item)
  {
    assert [item][1..] == [];
    assert TakeAll(d, [item]) == TakeAll(Take(d, item), []);
  }

  predicate SameButFlag(d: Decoder, e: Decoder) { d.(crlf := false) == e.(crlf := false) }

  /** A byte is taken as its item. */
  function ItemOf(b: byte, seen: bool): Item { if b == 10 then Eol(if seen then [13, 10] else [10]) else Other(b) }

  lemma {:induction false} OneIsTaken(d: Decoder, e: Decoder, b: byte)
    requires Sane(d) && Sane(e) && SameButFlag(d, e) && !d.failed && b != 13
    ensures SameButFlag(Feed(d, b), Take(e, ItemOf(b, d.crlf))) && Feed(d, b).crlf == d.crlf
  {
  }

  lemma {:induction false} FeedIsTake(d: Decoder, e: Decoder, s: seq<byte>)
    requires Sane(d) && Sane(e) && SameButFlag(d, e)
    ensures SameButFlag(FeedAll(d, s), TakeAll(e, Items(s, d.crlf)))
    decreases |s|
  {
    if d.failed {
      FailedStays(d, s);
      FailedTakes(e, Items(s, d.crlf));
    } else if s != [] {
      if s[0] == 13 {
        FeedIsTake(Feed(d, 13), e, s[1..]);
      } else {
        var item := ItemOf(s[0], d.crlf);
        var rest := Items(s[1..], d.crlf);
        assert Items(s, d.crlf) == [item] + rest && ([item] + rest)[1..] == rest;
        OneIsTaken(d, e, s[0]);
        FeedIsTake(Feed(d, s[0]), Take(e, item), s[1..]);
      }
    }
  }

  lemma {:induction false} FailedTakes(d: Decoder, items: seq<Item>)
    requires Sane(d) && d.failed
    ensures TakeAll(d, items) == d
    decreases |items|
  {
    if items != [] { FailedTakes(d, items[1..]); }
  }

  lemma {:induction false} BlanksAreSkipped(d: Decoder, blanks: seq<byte>)
    requires Sane(d) && d.mode.AfterEquals? && !d.failed && AllBlank(blanks)
    ensures TakeAll(d, Others(blanks)) == d
    decreases |blanks|
  {
    if blanks != [] {
      assert Others(blanks)[1..] == Others(blanks[1..]);
      NoHex(blanks[0]);
      BlanksAreSkipped(d, blanks[1..]);
    }
  }

  /** The output without the blanks counted at its end. */
  function Cut(d: Decoder): seq<byte>
    requires Sane(d)
  {
    d.out[..|d.out| - d.whitespace]
  }

  lemma {:induction false} EndsAreTaken(d: Decoder, ends: seq<seq<byte>>)
    requires Sane(d) && d.mode.AfterHex? && !d.failed
    ensures TakeAll(d, Eols(ends)) == if ends == [] then d else d.(out := Cut(d) + Together(ends), whitespace := 0)
    decreases |ends|
  {
    if ends != [] {
      var d1 := Take(d, Eol(ends[0]));
      assert Eols(ends)[1..] == Eols(ends[1..]);
      EndsAreTaken(d1, ends[1..]);
      Regroup(Cut(d), ends[0], Together(ends[1..]));
      assert Cut(d1) == d1.out;
      if ends[1..] == [] {
        assert ends[0] + Together(ends[1..]) == ends[0];
      }
    }
  }

  /** The decoder behind an equals sign and blanks. */
  lemma {:induction false} EscapeBegins(d: Decoder, blanks: seq<byte>, rest: seq<Item>)
    requires Reading(d) && AllBlank(blanks)
    ensures TakeAll(d, [Other(61)] + Others(blanks) + rest) == TakeAll(d.(mode := AfterEquals), rest)
  {
    TakeOne(d, Other(61));
    TakeBoth(d, [Other(61)], Others(blanks));
    BlanksAreSkipped(d.(mode := AfterEquals), blanks);
    TakeBoth(d, [Other(61)] + Others(blanks), rest);
  }

  /** The decoder behind the first digit of an escape and line ends. */
  function HighRead(d: Decoder, high: nat, ends: seq<seq<byte>>): (r: Decoder)
    requires Sane(d) && high < 16
    ensures Sane(r) && r.mode == AfterHex(high) && r.failed == d.failed
  {
    var e := d.(mode := AfterHex(high));
    if ends == [] then e else e.(out := Cut(d) + Together(ends), whitespace := 0)
  }

  lemma {:induction false} DigitIsHigh(d: Decoder, first: byte, high: nat, ends: seq<seq<byte>>, rest: seq<Item>)
    requires Sane(d) && d.mode.AfterEquals? && !d.failed && Hex(first) == Some(high) && high < 16
    ensures TakeAll(d, [Other(first)] + Eols(ends) + rest) == TakeAll(HighRead(d, high, ends), rest)
  {
    TakeOne(d, Other(first));
    TakeBoth(d, [Other(first)], Eols(ends));
    EndsAreTaken(d.(mode := AfterHex(high)), ends);
    TakeBoth(d, [Other(first)] + Eols(ends), rest);
  }

  lemma {:induction false} DigitIsLow(d: Decoder, second: byte, low: nat)
    requires Sane(d) && d.mode.AfterHex? && !d.failed && Hex(second) == Some(low) && low < 16
    ensures Take(d, Other(second)) == d.(out := d.out + [16 * d.mode.high + low], mode := Plain, whitespace := 0)
  {
  }

  /** What one token does to the decoder. */
  predicate Reads(d: Decoder, t: Token, r: Decoder)
    requires Sane(d) && Sane(r) && Good(t)
  {
    && !r.failed && (t.Begun? || t.Half? || r.mode.Plain?)
    && (BlankText(t) ==> r.whitespace == d.whitespace + 1)
    && (!BlankText(t) && !t.Begun? && !t.Half? ==> r.whitespace == 0)
  }

  lemma {:induction false} TokenIsRead(d: Decoder, t: Token)
    requires Reading(d) && Good(t)
    ensures Reads(d, t, TakeAll(d, Spelled(t)))
    ensures TakeAll(d, Spelled(t)).out == (if EndsLine(t) then Cut(d) else d.out) + Emits(t)
  {
    match t
    case Text(b) => TakeOne(d, Other(b));
    case Hard(newline) => TakeOne(d, Eol(newline));
    case Soft(blanks, newline) =>
      EscapeBegins(d, blanks, [Eol(newline)]);
      TakeOne(d.(mode := AfterEquals), Eol(newline));
    case Begun(blanks) =>
      EscapeBegins(d, blanks, []);
      assert [Other(61)] + Others(blanks) + [] == [Other(61)] + Others(blanks);
    case Half(blanks, first, high, ends) => HalfIsRead(d, blanks, first, high, ends);
    case Escape(blanks, first, high, ends, second, low) => EscapeIsRead(d, blanks, first, high, ends, second, low);
  }

  lemma {:induction false} HalfLeaves(d: Decoder, blanks: seq<byte>, first: byte, high: nat, ends: seq<seq<byte>>, rest: seq<Item>)
    requires Reading(d) && AllBlank(blanks) && Hex(first) == Some(high) && high < 16
    ensures TakeAll(d, [Other(61)] + Others(blanks) + [Other(first)] + Eols(ends) + rest) == TakeAll(HighRead(d, high, ends), rest)
  {
    var items := [Other(first)] + Eols(ends) + rest;
    EscapeBegins(d, blanks, items);
    DigitIsHigh(d.(mode := AfterEquals), first, high, ends, rest);
    ThreeFronts([Other(61)] + Others(blanks), [Other(first)], Eols(ends), rest);
  }

  lemma {:induction false} ThreeFronts(a: seq<Item>, b: seq<Item>, c: seq<Item>, d: seq<Item>)
    ensures a + b + c + d == a + (b + c + d)
  {
  }

  lemma {:induction false} HalfIsRead(d: Decoder, blanks: seq<byte>, first: byte, high: nat, ends: seq<seq<byte>>)
    requires Reading(d) && Good(Half(blanks, first, high, ends))
    ensures var (t, r) := (Half(blanks, first, high, ends), TakeAll(d, Spelled(Half(blanks, first, high, ends))));
            r.out == (if ends != [] then Cut(d) else d.out) + Emits(t) && !r.failed
  {
    HexExactly(first, high);
    HalfLeaves(d, blanks, first, high, ends, []);
    var items := Spelled(Half(blanks, first, high, ends));
    assert items + [] == items;
    OutOf(d, high, ends, []);
    assert HighRead(d, high, ends).out + [] == HighRead(d, high, ends).out && Together(ends) + [] == Together(ends);
  }

  lemma {:induction false} EscapeLeaves(d: Decoder, blanks: seq<byte>, first: byte, high: nat, ends: seq<seq<byte>>, second: byte, low: nat)
    requires Reading(d) && AllBlank(blanks) && Hex(first) == Some(high) && high < 16 && Hex(second) == Some(low) && low < 16
    ensures var f := HighRead(d, high, ends);
            TakeAll(d, [Other(61)] + Others(blanks) + [Other(first)] + Eols(ends) + [Other(second)]) ==
              f.(out := f.out + [16 * high + low], mode := Plain, whitespace := 0)
  {
    HalfLeaves(d, blanks, first, high, ends, [Other(second)]);
    var f := HighRead(d, high, ends);
    TakeOne(f, Other(second));
    DigitIsLow(f, second, low);
  }

  lemma {:induction false} OutOf(d: Decoder, high: nat, ends: seq<seq<byte>>, v: seq<byte>)
    requires Sane(d) && high < 16
    ensures HighRead(d, high, ends).out + v == (if ends != [] then Cut(d) else d.out) + (Together(ends) + v)
  {
    Regroup(Cut(d), Together(ends), v);
    if ends == [] {
      assert Together(ends) + v == v;
    }
  }

  lemma {:induction false} EscapeIsRead(d: Decoder, blanks: seq<byte>, first: byte, high: nat, ends: seq<seq<byte>>, second: byte, low: nat)
    requires Reading(d) && Good(Escape(blanks, first, high, ends, second, low))
    ensures var (t, r) := (Escape(blanks, first, high, ends, second, low), TakeAll(d, Spelled(Escape(blanks, first, high, ends, second, low))));
            && r.out == (if ends != [] then Cut(d) else d.out) + Emits(t)
            && r.mode.Plain? && !r.failed && r.whitespace == 0
  {
    HexExactly(first, high);
    HexExactly(second, low);
    EscapeLeaves(d, blanks, first, high, ends, second, low);
    OutOf(d, high, ends, [16 * high + low]);
  }

  lemma {:induction false} BlankSum(base: seq<byte>, blanks: seq<byte>, c: seq<byte>, trims: bool, m: seq<byte>)
    ensures base + (if trims then [] else blanks + c) + m == base + (if trims then [] else blanks) + ((if trims then [] else c) + m)
  {
  }

  lemma {:induction false} OtherSum(base: seq<byte>, blanks: seq<byte>, e: seq<byte>, trims: bool, m: seq<byte>)
    ensures ((if trims then base else base + blanks) + e) + [] + m == base + (if trims then [] else blanks) + (e + m)
  {
  }

  lemma {:induction false} TokensAreRead(d: Decoder, base: seq<byte>, blanks: seq<byte>, ts: seq<Token>)
    requires Reading(d) && AllGood(ts) && d.out == base + blanks && |blanks| == d.whitespace
    ensures !TakeAll(d, SpelledAll(ts)).failed
    ensures TakeAll(d, SpelledAll(ts)).out == base + (if Trims(ts) then [] else blanks) + Meaning(ts)
    decreases |ts|, 1
  {
    if ts == [] {
      assert base + blanks + [] == base + blanks;
    } else {
      var t, rest := ts[0], ts[1..];
      var d1 := TakeAll(d, Spelled(t));
      TokenIsRead(d, t);
      TakeBoth(d, Spelled(t), SpelledAll(rest));
      assert Cut(d) == base;
      if t.Begun? || t.Half? {
        assert rest == [];
        LastIsRead(d, base, blanks, t);
        assert ts == [t];
      } else {
        MoreAreRead(d1, base, blanks, t, rest);
      }
    }
  }

  lemma {:induction false} LastIsRead(d: Decoder, base: seq<byte>, blanks: seq<byte>, t: Token)
    requires Reading(d) && Good(t) && !BlankText(t) && d.out == base + blanks && |blanks| == d.whitespace
    ensures TakeAll(d, Spelled(t)).out == base + (if Trims([t]) then [] else blanks) + Meaning([t])
  {
    TokenIsRead(d, t);
    assert Cut(d) == base && [t][1..] == [];
    assert Meaning([t]) == Emits(t) + [] == Emits(t);
    assert base + [] == base;
  }

  lemma {:induction false} MoreAreRead(d1: Decoder, base: seq<byte>, blanks: seq<byte>, t: Token, rest: seq<Token>)
    requires Reading(d1) && AllGood([t] + rest) && Good(t) && AllGood(rest)
    requires d1.whitespace == if BlankText(t) then |blanks| + 1 else 0
    requires d1.out == (if EndsLine(t) then base else base + blanks) + Emits(t)
    ensures !TakeAll(d1, SpelledAll(rest)).failed
    ensures TakeAll(d1, SpelledAll(rest)).out ==
      base + (if EndsLine(t) || (BlankText(t) && Trims(rest)) then [] else blanks)
        + ((if BlankText(t) && Trims(rest) then [] else Emits(t)) + Meaning(rest))
    decreases |rest| + 1, 0
  {
    if BlankText(t) {
      assert base + blanks + [t.b] == base + (blanks + [t.b]);
      TokensAreRead(d1, base, blanks + [t.b], rest);
      BlankSum(base, blanks, [t.b], Trims(rest), Meaning(rest));
    } else {
      assert d1.out + [] == d1.out;
      TokensAreRead(d1, d1.out, [], rest);
      OtherSum(base, blanks, Emits(t), EndsLine(t), Meaning(rest));
    }
  }

  // ----- Every text that decodes is made of tokens -----

  predicate Feedable(items: seq<Item>) { forall i :: 0 <= i < |items| && items[i].Other? ==> items[i].b != 10 && items[i].b != 13 }

  lemma {:induction false} ItemsAreFeedable(s: seq<byte>, seen: bool)
    ensures Feedable(Items(s, seen))
  {
    if s != [] {
      ItemsAreFeedable(s[1..], seen);
      ItemsAreFeedable(s[1..], true);
    }
  }

  /** The blanks in front of the items. */
  function BlanksOf(items: seq<Item>): (r: seq<byte>)
    ensures |r| <= |items| && AllBlank(r) && items[..|r|] == Others(r)
    ensures |r| < |items| && items[|r|].Other? ==> !BlankByte(items[|r|].b)
  {
    if items != [] && items[0].Other? && BlankByte(items[0].b) then
      var rest := BlanksOf(items[1..]);
      assert items[..|rest| + 1] == [items[0]] + items[1..][..|rest|];
      [items[0].b] + rest
    else []
  }

  /** The line ends in front of the items. */
  function EndsOf(items: seq<Item>): (r: seq<seq<byte>>)
    ensures |r| <= |items| && items[..|r|] == Eols(r)
    ensures |r| < |items| ==> items[|r|].Other?
  {
    if items != [] && items[0].Eol? then
      var rest := EndsOf(items[1..]);
      assert items[..|rest| + 1] == [items[0]] + items[1..][..|rest|];
      [items[0].newline] + rest
    else []
  }

  lemma {:induction false} BadDigitFails(d: Decoder, b: byte, rest: seq<Item>)
    requires Sane(d) && !d.failed && !d.mode.Plain? && b !in {10, 13} && Hex(b).None? && (d.mode.AfterEquals? ==> !BlankByte(b))
    ensures TakeAll(d, [Other(b)] + rest).failed
  {
    assert ([Other(b)] + rest)[1..] == rest;
    FailedTakes(Take(d, Other(b)), rest);
  }

  /** The first token of items that do not fail. */
  lemma {:induction false} FirstToken(d: Decoder, items: seq<Item>) returns (t: Token)
    requires Reading(d) && Feedable(items) && items != [] && !TakeAll(d, items).failed
    ensures Good(t) && Spelled(t) <= items && (t.Begun? || t.Half? ==> Spelled(t) == items)
  {
    if items[0].Eol? {
      t := Hard(items[0].newline);
    } else if items[0].b != 61 {
      t := Text(items[0].b);
    } else {
      var blanks := BlanksOf(items[1..]);
      var rest := items[1 + |blanks|..];
      BlanksInFront(items, blanks, rest);
      EscapeBegins(d, blanks, rest);
      t := EqualsToken(d, blanks, rest);
    }
  }

  lemma {:induction false} StillFeedable(items: seq<Item>, k: nat)
    requires k <= |items| && Feedable(items)
    ensures Feedable(items[k..])
  {
    assert forall i :: 0 <= i < |items[k..]| ==> items[k..][i] == items[k + i];
  }

  lemma {:induction false} BlanksInFront(items: seq<Item>, blanks: seq<byte>, rest: seq<Item>)
    requires items != [] && items[0] == Other(61) && blanks == BlanksOf(items[1..]) && rest == items[1 + |blanks|..] && Feedable(items)
    ensures items == [Other(61)] + Others(blanks) + rest && Feedable(rest)
    ensures rest != [] && rest[0].Other? ==> !BlankByte(rest[0].b)
  {
    var tail := items[1..];
    assert items == [items[0]] + tail && tail == tail[..|blanks|] + tail[|blanks|..] && tail[|blanks|..] == rest;
    Regroup([Other(61)], Others(blanks), rest);
    StillFeedable(items, 1 + |blanks|);
    assert rest != [] ==> rest[0] == tail[|blanks|];
  }

  /** What an equals sign and blanks begin. */
  lemma {:induction false} EqualsToken(d: Decoder, blanks: seq<byte>, rest: seq<Item>) returns (t: Token)
    requires Reading(d) && AllBlank(blanks) && Feedable(rest) && (rest != [] && rest[0].Other? ==> !BlankByte(rest[0].b))
    requires !TakeAll(d.(mode := AfterEquals), rest).failed
    ensures Good(t) && Spelled(t) <= [Other(61)] + Others(blanks) + rest
    ensures t.Begun? || t.Half? ==> Spelled(t) == [Other(61)] + Others(blanks) + rest
  {
    if rest == [] {
      t := Begun(blanks);
    } else if rest[0].Eol? {
      t := Soft(blanks, rest[0].newline);
      assert rest == [rest[0]] + rest[1..];
    } else {
      t := FirstEscape(d, blanks, rest);
    }
  }

  /** The digits of an escape, or of half a one at the end of the items. */
  lemma {:induction false} FirstEscape(d: Decoder, blanks: seq<byte>, rest: seq<Item>) returns (t: Token)
    requires Reading(d) && AllBlank(blanks) && Feedable(rest) && rest != [] && rest[0].Other? && !BlankByte(rest[0].b)
    requires !TakeAll(d.(mode := AfterEquals), rest).failed
    ensures Good(t) && (t.Half? || t.Escape?) && Spelled(t) <= [Other(61)] + Others(blanks) + rest
    ensures t.Half? ==> Spelled(t) == [Other(61)] + Others(blanks) + rest
  {
    var first, ends := rest[0].b, EndsOf(rest[1..]);
    var more := rest[1 + |ends|..];
    var high := FirstDigit(d.(mode := AfterEquals), rest);
    DigitAndEnds(rest, ends, more);
    DigitIsHigh(d.(mode := AfterEquals), first, high, ends, more);
    var front := [Other(61)] + Others(blanks);
    ThreeFronts(front, [Other(first)], Eols(ends), more);
    HexExactly(first, high);
    if more == [] {
      t := Half(blanks, first, high, ends);
    } else {
      var low := NextDigit(HighRead(d.(mode := AfterEquals), high, ends), more);
      HexExactly(more[0].b, low);
      t := Escape(blanks, first, high, ends, more[0].b, low);
      SecondDigit(front + [Other(first)] + Eols(ends), more, more[0].b);
    }
  }

  lemma {:induction false} FirstDigit(e: Decoder, rest: seq<Item>) returns (high: nat)
    requires Sane(e) && e.mode.AfterEquals? && !e.failed && Feedable(rest) && rest != [] && rest[0].Other? && !BlankByte(rest[0].b)
    requires !TakeAll(e, rest).failed
    ensures Hex(rest[0].b) == Some(high) && high < 16
  {
    assert rest == [Other(rest[0].b)] + rest[1..];
    if Hex(rest[0].b).None? {
      BadDigitFails(e, rest[0].b, rest[1..]);
    }
    high := Hex(rest[0].b).value;
  }

  lemma {:induction false} NextDigit(e: Decoder, more: seq<Item>) returns (low: nat)
    requires Sane(e) && e.mode.AfterHex? && !e.failed && more != [] && more[0].Other? && more[0].b != 10 && more[0].b != 13
    requires !TakeAll(e, more).failed
    ensures Hex(more[0].b) == Some(low) && low < 16
  {
    assert more == [Other(more[0].b)] + more[1..];
    if Hex(more[0].b).None? {
      BadDigitFails(e, more[0].b, more[1..]);
    }
    low := Hex(more[0].b).value;
  }

  lemma {:induction false} DigitAndEnds(rest: seq<Item>, ends: seq<seq<byte>>, more: seq<Item>)
    requires rest != [] && rest[0].Other? && ends == EndsOf(rest[1..]) && more == rest[1 + |ends|..] && Feedable(rest)
    ensures rest == [Other(rest[0].b)] + Eols(ends) + more && (more != [] ==> more[0].Other? && more[0].b != 10 && more[0].b != 13)
  {
    assert rest[1..] == rest[1..][..|ends|] + rest[1..][|ends|..];
    assert rest[1..][|ends|..] == more;
    if more != [] {
      assert more[0] == rest[1..][|ends|] && more[0] == rest[1 + |ends|];
    }
  }

  lemma {:induction false} SecondDigit(front: seq<Item>, more: seq<Item>, b: byte)
    requires more != [] && more[0] == Other(b)
    ensures front + [Other(b)] <= front + more
  {
  }

  lemma {:induction false} TokensExist(d: Decoder, items: seq<Item>) returns (ts: seq<Token>)
    requires Reading(d) && Feedable(items) && !TakeAll(d, items).failed
    ensures AllGood(ts) && SpelledAll(ts) == items
    decreases |items|
  {
    if items == [] {
      ts := [];
    } else {
      var t := FirstToken(d, items);
      var rest := items[|Spelled(t)|..];
      assert items == Spelled(t) + rest;
      TakeBoth(d, Spelled(t), rest);
      TokenIsRead(d, t);
      if rest == [] {
        ts := [t];
        assert ts[1..] == [] && Spelled(t) + [] == items;
      } else {
        var more := TokensExist(TakeAll(d, Spelled(t)), rest);
        ts := [t] + more;
        assert ts[1..] == more;
      }
    }
  }

  /**
   * A text decodes exactly when it is made of tokens, and to what they mean:
   * characters for themselves but for blanks at the end of a line, escapes in
   * digits of either case, soft breaks for nothing.
   */
  lemma {:induction false} DecodedExactly(s: seq<byte>, out: seq<byte>)
    ensures Decoded(s) == Some(out) <==> exists ts :: AllGood(ts) && SpelledAll(ts) == Items(s, false) && Meaning(ts) == out
  {
    FeedIsTake(FRESH, FRESH, s);
    ItemsAreFeedable(s, false);
    if Decoded(s) == Some(out) {
      var ts := TokensExist(FRESH, Items(s, false));
      TokensAreRead(FRESH, [], [], ts);
      assert [] + [] + Meaning(ts) == Meaning(ts);
    }
    if ts :| AllGood(ts) && SpelledAll(ts) == Items(s, false) && Meaning(ts) == out {
      TokensAreRead(FRESH, [], [], ts);
      assert [] + [] + Meaning(ts) == Meaning(ts);
    }
  }

  // ----- How encoded lines are filled -----

  predicate Printing(b: byte) { 33 <= b <= 126 && b != 61 }

  /** A byte that prints stands for itself, a blank or tab too unless it ends the line; all else is two capital digits. */
  lemma {:induction false} PieceExactly(b: byte, last: bool)
    ensures Piece(b, last) ==
      if Printing(b) || ((b == 32 || b == 9) && !last) then [b] else [61, UPPER[b / 16], UPPER[b % 16]]
  {
  }

  function PiecesFrom(line: seq<byte>, pos: nat): seq<seq<byte>>
    requires pos <= |line|
    decreases |line| - pos
  {
    if pos == |line| then [] else [Piece(line[pos], pos + 1 == |line|)] + PiecesFrom(line, pos + 1)
  }

  function Flat(rows: seq<seq<seq<byte>>>): seq<seq<byte>> {
    if rows == [] then [] else rows[0] + Flat(rows[1..])
  }

  function Softly(rows: seq<seq<seq<byte>>>): seq<byte>
    requires rows != []
  {
    if |rows| == 1 then Together(rows[0]) else Together(rows[0]) + [61, 13, 10] + Softly(rows[1..])
  }

  /** How much may stand on a row that goes up to the `n`-th piece from the end. */
  function Limit(left: nat): nat { if left == 0 then 76 else 75 }

  /** No row is too long, and the first piece of the next row would not have fitted. */
  predicate Filled(rows: seq<seq<seq<byte>>>, col: nat) {
    && rows != []
    && col + |Together(rows[0])| <= Limit(|rows| - 1)
    && (|rows| > 1 ==>
          && rows[1] != []
          && col + |Together(rows[0])| + |rows[1][0]| > Limit(|rows[1]| - 1 + |Flat(rows[2..])|)
          && Filled(rows[1..], 0))
  }

  lemma {:induction false} RowsFrom(line: seq<byte>, pos: nat, col: nat) returns (rows: seq<seq<seq<byte>>>)
    requires pos <= |line| && col <= (if pos == |line| then 76 else 75)
    ensures Filled(rows, col) && Flat(rows) == PiecesFrom(line, pos) && Softly(rows) == EncodedLine(line, pos, col)
    decreases |line| - pos
  {
    if pos == |line| {
      rows := [[]];
    } else {
      var last := pos + 1 == |line|;
      var piece := Piece(line[pos], last);
      var rest := RowsFrom(line, pos + 1, NextCol(line[pos], last, col));
      rows := AddPiece(line, pos, col, piece, rest);
    }
  }

  lemma {:induction false} PiecesLeft(line: seq<byte>, pos: nat)
    requires pos <= |line|
    ensures |PiecesFrom(line, pos)| == |line| - pos
    decreases |line| - pos
  {
    if pos < |line| { PiecesLeft(line, pos + 1); }
  }

  lemma {:induction false} Prepended(piece: seq<byte>, rest: seq<seq<seq<byte>>>, col: nat)
    requires rest != [] && Filled(rest, col + |piece|)
    ensures var rows := [[piece] + rest[0]] + rest[1..];
      && Filled(rows, col) && Flat(rows) == [piece] + Flat(rest) && Softly(rows) == piece + Softly(rest)
  {
    var rows := [[piece] + rest[0]] + rest[1..];
    assert rows[1..] == rest[1..] && rows[0][1..] == rest[0];
    assert Together(rows[0]) == piece + Together(rest[0]);
    Regroup([piece], rest[0], Flat(rest[1..]));
    if |rows| > 1 {
      assert rows[2..] == rest[2..] && rows[1] == rest[1];
      Regroup(piece, Together(rest[0]), [61, 13, 10] + Softly(rest[1..]));
      assert Together(rows[0]) + [61, 13, 10] + Softly(rest[1..]) == Together(rows[0]) + ([61, 13, 10] + Softly(rest[1..]));
      assert Together(rest[0]) + [61, 13, 10] + Softly(rest[1..]) == Together(rest[0]) + ([61, 13, 10] + Softly(rest[1..]));
    }
  }

  lemma {:induction false} AddPiece(line: seq<byte>, pos: nat, col: nat, piece: seq<byte>, rest: seq<seq<seq<byte>>>)
    returns (rows: seq<seq<seq<byte>>>)
    requires pos < |line| && col <= 75 && piece == Piece(line[pos], pos + 1 == |line|)
    requires Filled(rest, NextCol(line[pos], pos + 1 == |line|, col)) && Flat(rest) == PiecesFrom(line, pos + 1)
    requires Softly(rest) == EncodedLine(line, pos + 1, NextCol(line[pos], pos + 1 == |line|, col))
    ensures Filled(rows, col) && Flat(rows) == PiecesFrom(line, pos) && Softly(rows) == EncodedLine(line, pos, col)
  {
    var last := pos + 1 == |line|;
    if Breaks(line[pos], last, col) {
      Prepended(piece, rest, 0);
      var next := [[piece] + rest[0]] + rest[1..];
      rows := [[]] + next;
      assert rows[1..] == next && rows[2..] == rest[1..];
      PiecesLeft(line, pos + 1);
      assert |rest[0]| + |Flat(rest[1..])| == |Flat(rest)|;
      assert [] + [61, 13, 10] + Softly(next) == SOFT + Softly(next);
      Regroup(SOFT, piece, Softly(rest));
    } else {
      Prepended(piece, rest, col);
      rows := [[piece] + rest[0]] + rest[1..];
      assert [] + piece == piece;
    }
  }

  /** An encoded line is its pieces on rows of 75 characters, the last of 76, each row filled as far as it goes. */
  lemma {:induction false} LineIsFilled(line: seq<byte>)
    ensures exists rows :: Filled(rows, 0) && Flat(rows) == PiecesFrom(line, 0) && Softly(rows) == EncodedLine(line, 0, 0)
  {
    var rows := RowsFrom(line, 0, 0);
  }
}
