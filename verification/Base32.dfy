/** Base32 as the TOTP secrets use it (section 6 of RFC 4648), with its 32-bit shift register. */
module Base32 {
  import opened Basics
  
  const ALPHABET: string := "ABCDEFGHIJKLMNOPQRSTUVWXYZ234567"

  // ----- What the two forms mean: one number, written in base 256 or base 32 -----

  ghost predicate InBase(digits: seq<nat>, base: nat) {
    forall i :: 0 <= i < |digits| ==> digits[i] < base
  }

  function Value(digits: seq<nat>, base: nat): nat {
    if digits == [] then 0 else Value(Most(digits), base) * base + Last(digits)
  }

  lemma {:induction false} ValueOneMore(digits: seq<nat>, d: nat, base: nat)
    ensures Value(digits + [d], base) == Value(digits, base) * base + d
  {
    assert Most(digits + [d]) == digits;
  }

  /** A number is written with a given count of digits in one way. */
  lemma {:induction false} DigitsAreUnique(a: seq<nat>, b: seq<nat>, base: nat)
    requires InBase(a, base) && InBase(b, base) && |a| == |b| && Value(a, base) == Value(b, base)
    ensures a == b
  {
    if a != [] {
      SameDigits(Value(Most(a), base), Last(a), Value(Most(b), base), Last(b), base);
      DigitsAreUnique(Most(a), Most(b), base);
      assert a == Most(a) + [Last(a)] && b == Most(b) + [Last(b)];
    }
  }

  lemma {:induction false} AtLeastOne(d: nat, base: nat)
    requires d >= 1
    ensures d * base >= base
  {
  }

  lemma {:induction false} Difference(x: int, y: int, base: int)
    ensures (y - x) * base == y * base - x * base
  {
  }

  lemma {:induction false} NotBelow(x: nat, d: nat, y: nat, e: nat, base: nat)
    requires d < base && x * base + d == y * base + e
    ensures y <= x
  {
    if x < y {
      AtLeastOne(y - x, base);
      Difference(x, y, base);
    }
  }

  lemma {:induction false} SameDigits(x: nat, d: nat, y: nat, e: nat, base: nat)
    requires d < base && e < base && x * base + d == y * base + e
    ensures x == y && d == e
  {
    NotBelow(x, d, y, e, base);
    NotBelow(y, e, x, d, base);
  }

  /** Quotient and remainder, by their defining property. */
  lemma {:induction false} DivisionIs(x: nat, c: nat, k: nat, r: nat)
    requires x == k * c + r && r < c
    ensures x / c == k && x % c == r
  {
    Division(x, c);
    SameDigits(x / c, x % c, k, r, c);
  }

  lemma {:induction false} Division(x: nat, c: nat)
    requires c > 0
    ensures x == (x / c) * c + x % c && x % c < c
  {
  }

  function Pow2(n: nat): (r: nat)
    ensures r > 0
  {
    if n == 0 then 1 else 2 * Pow2(n - 1)
  }

  // ----- Characters -----

  function Upper(c: char): char {
    if 'a' <= c <= 'z' then (c as int - 32) as char else c
  }

  function Symbol(c: char): Option<nat> {
    var u := Upper(c);
    if 'A' <= u <= 'Z' then Some(u as int - 65)
    else if '2' <= u <= '7' then Some(u as int - 50 + 26)
    else None
  }

  predicate Letter(c: char) {
    'A' <= c <= 'Z' || '2' <= c <= '7'
  }

  predicate Skipped(c: char) {
    c == '=' || c == ' '
  }

  /** The symbols of a text, or nothing when a character is not one. */
  function Symbols(text: string): Option<seq<nat>> {
    if text == "" then Some([])
    else if Skipped(Last(text)) then Symbols(Most(text))
    else match Symbols(Most(text))
      case None => None
      case Some(most) => if Symbol(Last(text)).None? then None else Some(most + [Symbol(Last(text)).value])
  }

  /** The alphabet lists exactly the symbols, in order. */
  lemma {:induction false} AlphabetSymbol(i: nat)
    requires i < 32
    ensures |ALPHABET| == 32 && Symbol(ALPHABET[i]) == Some(i) && Letter(ALPHABET[i]) && Upper(ALPHABET[i]) == ALPHABET[i]
  {
  }

  lemma {:induction false} SymbolIsListed(c: char)
    requires Symbol(c).Some?
    ensures Symbol(c).value < 32 && ALPHABET[Symbol(c).value] == Upper(c)
  {
  }

  const LARGE := "ABCDEFGHIJKLMNOPQRSTUVWXYZ234567"
  const SMALL := "abcdefghijklmnopqrstuvwxyz234567"

  lemma {:induction false} Places(n: nat)
    requires n < 32
    ensures LARGE[n] as int == (if n < 26 then 65 + n else 24 + n) && SMALL[n] as int == (if n < 26 then 97 + n else 24 + n)
  {
  }

  /** A symbol is the place of its character in the alphabet, in either case. */
  lemma {:induction false} SymbolExactly(c: char, n: nat)
    ensures Symbol(c) == Some(n) <==> n < 32 && (c == LARGE[n] || c == SMALL[n])
  {
    if n < 32 {
      Places(n);
      var large, small := LARGE[n], SMALL[n];
      assert Symbol(c) == Some(n) <==> c == large || c == small;
    }
  }

  predicate Spells(kept: string, symbols: seq<nat>) {
    |symbols| == |kept| && forall i :: 0 <= i < |kept| ==> symbols[i] < 32 && (kept[i] == LARGE[symbols[i]] || kept[i] == SMALL[symbols[i]])
  }

  /** The symbols of a text are those of its characters but blanks and padding, one by one. */
  lemma {:induction false} SymbolsExactly(text: string, kept: string, symbols: seq<nat>, passes: char -> bool)
    requires (forall c :: passes(c) <==> c != '=' && c != ' ') && Sifted(text, kept, passes)
    ensures Symbols(text) == Some(symbols) <==> Spells(kept, symbols)
  {
    if text != "" {
      var most, last := Most(text), Last(text);
      var front := SiftedMost(text, kept, passes);
      if !passes(last) {
        assert kept == front;
        SymbolsExactly(most, kept, symbols, passes);
      } else if symbols != [] {
        SymbolsExactly(most, front, Most(symbols), passes);
        SymbolExactly(last, Last(symbols));
        SpellsOneMore(front, last, symbols);
        SymbolsOneMore(text, symbols);
      }
    }
  }

  lemma {:induction false} SymbolsOneMore(text: string, symbols: seq<nat>)
    requires text != "" && symbols != [] && !Skipped(Last(text))
    ensures Symbols(text) == Some(symbols) <==> Symbols(Most(text)) == Some(Most(symbols)) && Symbol(Last(text)) == Some(Last(symbols))
  {
    assert symbols == Most(symbols) + [Last(symbols)];
  }

  lemma {:induction false} SpellsOneMore(front: string, last: char, symbols: seq<nat>)
    requires symbols != []
    ensures Spells(front + [last], symbols) <==> Spells(front, Most(symbols)) && Last(symbols) < 32 && (last == LARGE[Last(symbols)] || last == SMALL[Last(symbols)])
  {
    var kept := front + [last];
    if Spells(kept, symbols) {
      assert kept[|front|] == last && Last(symbols) == symbols[|front|];
      assert forall i :: 0 <= i < |front| ==> front[i] == kept[i];
    }
  }

  lemma {:induction false} SiftedMost(text: string, kept: string, passes: char -> bool) returns (front: string)
    requires text != "" && Sifted(text, kept, passes)
    ensures Sifted(Most(text), front, passes) && kept == front + (if passes(Last(text)) then [Last(text)] else [])
  {
    if |text| == 1 {
      front := [];
      assert text[1..] == "" && Most(text) == "";
    } else {
      assert Most(text)[1..] == Most(text[1..]) && Last(text[1..]) == Last(text) && Most(text)[0] == text[0];
      if passes(text[0]) {
        var rest := SiftedMost(text[1..], kept[1..], passes);
        front := [text[0]] + rest;
        assert front[1..] == rest;
        assert kept == [kept[0]] + kept[1..];
      } else {
        front := SiftedMost(text[1..], kept, passes);
      }
    }
  }

  // ----- The two relations -----

  /** The padding bits an encoding of `n` bytes ends in. */
  function Pad(n: nat): nat {
    (5 - 8 * n % 5) % 5
  }

  /** `text` writes the bytes as one number, shifted to a whole count of five-bit symbols. */
  ghost predicate Encodes(bytes: seq<nat>, text: string) {
    && Symbols(text).Some?
    && 5 * |Symbols(text).value| == 8 * |bytes| + Pad(|bytes|)
    && Value(Symbols(text).value, 32) == Value(bytes, 256) * Pow2(Pad(|bytes|))
    && (forall i :: 0 <= i < |text| ==> Letter(text[i]))
  }

  /** `r` is the whole bytes of the number `text` writes, its left-over low bits dropped. */
  ghost predicate Decodes(text: string, r: Option<seq<nat>>) {
    match Symbols(text)
    case None => r == None
    case Some(symbols) =>
      && r.Some?
      && InBase(r.value, 256)
      && |r.value| == 5 * |symbols| / 8
      && Value(r.value, 256) == Value(symbols, 32) / Pow2(5 * |symbols| % 8)
  }

  lemma {:induction false} ShiftedBack(v: nat, n: nat)
    ensures v * Pow2(n) / Pow2(n) == v
  {
    DivisionIs(v * Pow2(n), Pow2(n), v, 0);
  }

  /** Decoding an encoding gives the bytes back, however the text was respelled in between. */
  lemma {:induction false} RoundTrip(bytes: seq<nat>, text: string, respelled: string, r: Option<seq<nat>>)
    requires InBase(bytes, 256) && Encodes(bytes, text)
    requires Symbols(respelled) == Symbols(text) && Decodes(respelled, r)
    ensures r == Some(bytes)
  {
    var m := |Symbols(text).value|;
    assert 5 * m / 8 == |bytes| && 5 * m % 8 == Pad(|bytes|);
    ShiftedBack(Value(bytes, 256), Pad(|bytes|));
    DigitsAreUnique(r.value, bytes, 256);
  }

  /** The case of letters, spaces and padding do not change what a text means. */
  lemma {:induction false} CaseIsIgnored(text: string, other: string)
    requires |text| == |other| && forall i :: 0 <= i < |text| ==> Upper(text[i]) == Upper(other[i])
    ensures Symbols(text) == Symbols(other)
  {
    if text != "" {
      CaseIsIgnored(Most(text), Most(other));
    }
  }

  lemma {:induction false} SkippedIsIgnored(a: string, c: char, b: string)
    requires Skipped(c)
    ensures Symbols(a + [c] + b) == Symbols(a + b)
    decreases |b|
  {
    if b == "" {
      assert Most(a + [c] + b) == a && a + b == a;
    } else {
      SkippedIsIgnored(a, c, Most(b));
      assert Most(a + [c] + b) == a + [c] + Most(b) && Most(a + b) == a + Most(b);
    }
  }

  /** Each text decodes in one way only. */
  lemma {:induction false} DecodesOnce(text: string, r: Option<seq<nat>>, r': Option<seq<nat>>)
    requires Decodes(text, r) && Decodes(text, r')
    ensures r == r'
  {
    if Symbols(text).Some? {
      DigitsAreUnique(r.value, r'.value, 256);
    }
  }

  // ----- Shifting -----

  /** A register of `c * m` values that is shifted by `c` and takes `d` in keeps the low part of the whole. */
  lemma {:induction false} ShiftIn(v: nat, c: nat, m: nat, d: nat)
    requires d < c && m > 0
    ensures c * m > 0
    ensures (v * c + d) % (c * m) == (v % (c * m)) * c % (c * m) + d
  {
    Positive(c, m);
    var w := c * m;
    Division(v, w);
    var b := v % w;
    Division(b, m);
    // v * c + d == ((v / w) * c + b / m) * w + ((b % m) * c + d)
    Expand(v / w, w, b, c);
    Expand(b / m, m, b % m, c);
    Reorder(b / m, m, c);
    BelowProduct(b % m, m, c, d);
    DivisionIs(b * c, w, b / m, (b % m) * c);
    Collect(v / w, w, c, b / m);
    DivisionIs(v * c + d, w, (v / w) * c + b / m, (b % m) * c + d);
  }

  lemma {:induction false} Positive(c: nat, m: nat)
    requires c > 0 && m > 0
    ensures c * m > 0
  {
  }

  lemma {:induction false} Expand(q: nat, w: nat, b: nat, c: nat)
    ensures (q * w + b) * c == (q * w) * c + b * c
  {
  }

  lemma {:induction false} Reorder(q: nat, m: nat, c: nat)
    ensures (q * m) * c == q * (c * m)
  {
  }

  lemma {:induction false} Collect(q: nat, w: nat, c: nat, k: nat)
    ensures (q * w) * c + k * w == (q * c + k) * w
  {
  }

  lemma {:induction false} BelowProduct(r: nat, m: nat, c: nat, d: nat)
    requires r < m && d < c
    ensures r * c + d < c * m
  {
    AtLeastOne(m - r, c);
    Difference(r, m, c);
  }

  /** The low part of a number holds its window of `w` values above the lowest `c`. */
  lemma {:induction false} Window(v: nat, c: nat, w: nat, k: nat)
    requires c > 0 && w > 0 && k > 0
    ensures c * (w * k) > 0
    ensures (v % (c * (w * k))) / c % w == v / c % w
  {
    Positive(w, k);
    Positive(c, w * k);
    var u := c * (w * k);
    Division(v, u);
    var q, b := v / u, v % u;
    HighPart(q, w * k, c, b);
    assert v / c == q * (w * k) + b / c;
    LowPart(q, k, w, b / c);
  }

  /** A multiple of `c` in front adds to the quotient. */
  lemma {:induction false} HighPart(q: nat, m: nat, c: nat, b: nat)
    requires c > 0
    ensures (q * (c * m) + b) / c == q * m + b / c
  {
    Division(b, c);
    // q * (c * m) + b == (q * m + b / c) * c + b % c
    Reorder(q, m, c);
    Expand(q * m, 1, b / c, c);
    DivisionIs(q * (c * m) + b, c, q * m + b / c, b % c);
  }

  /** A multiple of `w` in front leaves the remainder. */
  lemma {:induction false} LowPart(q: nat, k: nat, w: nat, b: nat)
    requires w > 0
    ensures (q * (w * k) + b) % w == b % w
  {
    Division(b, w);
    // q * (w * k) + b == (q * k + b / w) * w + b % w
    Reorder(q, k, w);
    Expand(q * k, 1, b / w, w);
    DivisionIs(q * (w * k) + b, w, q * k + b / w, b % w);
  }

  lemma {:induction false} PowersOfTwo()
    ensures Pow2(0) == 1 && Pow2(1) == 2 && Pow2(2) == 4 && Pow2(3) == 8 && Pow2(4) == 16 && Pow2(5) == 32
    ensures Pow2(6) == 64 && Pow2(7) == 128
  {
    assert Pow2(4) == 16;
  }

  lemma {:induction false} PowGrows(n: nat)
    ensures Pow2(n + 5) == Pow2(n) * 32 && Pow2(n + 8) == Pow2(n) * 256
  {
    assert Pow2(n + 2) == 4 * Pow2(n);
    assert Pow2(n + 4) == 4 * Pow2(n + 2);
    assert Pow2(n + 6) == 4 * Pow2(n + 4);
  }

  lemma {:induction false} WindowAt(v: nat, c: nat, w: nat, k: nat)
    requires c > 0 && w > 0 && k > 0 && c * (w * k) == U32
    ensures (v % U32) / c % w == v / c % w
  {
    Window(v, c, w, k);
  }

  /** The register holds every window the encoder reads. */
  lemma {:induction false} SymbolWindow(v: nat, n: nat)
    requires n <= 7
    ensures (v % U32) / Pow2(n) % 32 == v / Pow2(n) % 32
  {
    PowersOfTwo();
    match n
    case 0 => WindowAt(v, 1, 32, 134217728);
    case 1 => WindowAt(v, 2, 32, 67108864);
    case 2 => WindowAt(v, 4, 32, 33554432);
    case 3 => WindowAt(v, 8, 32, 16777216);
    case 4 => WindowAt(v, 16, 32, 8388608);
    case 5 => WindowAt(v, 32, 32, 4194304);
    case 6 => WindowAt(v, 64, 32, 2097152);
    case 7 => WindowAt(v, 128, 32, 1048576);
  }

  /** The register holds every window the decoder reads. */
  lemma {:induction false} ByteWindow(v: nat, n: nat)
    requires n <= 4
    ensures (v % U32) / Pow2(n) % 256 == v / Pow2(n) % 256
  {
    PowersOfTwo();
    match n
    case 0 => WindowAt(v, 1, 256, 16777216);
    case 1 => WindowAt(v, 2, 256, 8388608);
    case 2 => WindowAt(v, 4, 256, 4194304);
    case 3 => WindowAt(v, 8, 256, 2097152);
    case 4 => WindowAt(v, 16, 256, 1048576);
  }

  lemma {:induction false} DivideTwice(v: nat, a: nat, b: nat)
    requires a > 0 && b > 0
    ensures a * b > 0 && v / (a * b) == v / a / b
  {
    Positive(a, b);
    Division(v, a);
    Division(v / a, b);
    // v == (v / a / b) * (a * b) + ((v / a % b) * a + v % a)
    Expand((v / a / b) * b, 1, v / a % b, a);
    Reorder(v / a / b, b, a);
    BelowProduct(v / a % b, b, a, v % a);
    DivisionIs(v, a * b, v / a / b, (v / a % b) * a + v % a);
  }

  /** Taking another `w` values into a number shifts what was there. */
  lemma {:induction false} TookIn(v: nat, d: nat, w: nat, p: nat)
    requires d < w && p > 0
    ensures p * w > 0 && (v * w + d) / (p * w) == v / p
  {
    Positive(p, w);
    Division(v, p);
    Expand(v / p, p, v % p, w);
    assert (v / p * p) * w == v / p * (p * w) by { Reorder(v / p, p, w); Commutes(p, w); }
    BelowProduct(v % p, p, w, d);
    Commutes(p, w);
    DivisionIs(v * w + d, p * w, v / p, (v % p) * w + d);
  }

  lemma {:induction false} Commutes(a: nat, b: nat)
    ensures a * b == b * a
  {
  }

  /** Giving out the next `w` values of a number. */
  lemma {:induction false} GaveOut(v: nat, p: nat, w: nat)
    requires p > 0 && w > 0
    ensures p * w > 0 && v / (p * w) * w + v / p % w == v / p
  {
    DivideTwice(v, p, w);
    Division(v / p, w);
  }

  /** The symbol that the left-over bits, shifted up, make. */
  lemma {:induction false} LastSymbol(v: nat, n: nat)
    requires 1 <= n <= 4
    ensures v / Pow2(n) * 32 + (v % U32) * Pow2(5 - n) % U32 % 32 == v * Pow2(5 - n)
  {
    PowersOfTwo();
    var p, k := Pow2(n), Pow2(5 - n);
    assert p * k == 32;
    Division(v, p);
    Expand(v / p, p, v % p, k);
    Reorder(v / p, p, k);
    Commutes(k, p);
    // v * k == (v / p) * 32 + (v % p) * k
    BelowProduct(v % p, p, k, 0);
    LowBits(v, k);
    DivisionIs(v * k, 32, v / p, (v % p) * k);
  }

  lemma {:induction false} LowBits(v: nat, k: nat)
    ensures (v % U32) * k % U32 % 32 == v * k % 32
  {
    var q, b := v / U32, v % U32;
    Division(v, U32);
    Expand(q, U32, b, k);
    // v * k == (q * k) * U32 + b * k
    Reorder(q, U32, k);
    Window(b * k, 1, 32, U32 / 32);
    Division(b * k, 32);
    var j := q * k * (U32 / 32);
    assert (q * U32) * k == j * 32;
    DivisionIs(v * k, 32, j + b * k / 32, b * k % 32);
  }

  function Letters(text: string): seq<nat> {
    if Symbols(text).None? then [] else Symbols(text).value
  }

  /** The text so far and the `nbits` low bits of the register write the bytes taken in. */
  ghost predicate Writes(taken: seq<nat>, bits: nat, nbits: nat, text: string) {
    && Symbols(text).Some? && (forall j :: 0 <= j < |text| ==> Letter(text[j]))
    && bits == Value(taken, 256) % U32
    && Value(Letters(text), 32) == Value(taken, 256) / Pow2(nbits)
  }

  lemma {:induction false} WritesChar(text: string, c: char, symbol: nat)
    requires Symbols(text).Some? && Symbol(c) == Some(symbol) && Letter(c)
    requires forall j :: 0 <= j < |text| ==> Letter(text[j])
    ensures Symbols(text + [c]) == Some(Letters(text) + [symbol])
    ensures Value(Letters(text + [c]), 32) == Value(Letters(text), 32) * 32 + symbol
    ensures forall j :: 0 <= j <= |text| ==> Letter((text + [c])[j])
  {
    assert Most(text + [c]) == text;
    ValueOneMore(Letters(text), symbol, 32);
  }

  lemma {:induction false} PadIs(n: nat, l: nat, nbits: nat)
    requires 5 * l + nbits == 8 * n && 1 <= nbits <= 4
    ensures Pad(n) == 5 - nbits
  {
  }

  /** Shifting a byte into the register. */
  lemma {:induction false} TakeByte(taken: seq<nat>, byte: nat, bits: nat, nbits: nat, text: string)
    requires Writes(taken, bits, nbits, text) && byte < 256
    ensures Writes(taken + [byte], bits * 256 % U32 + byte, nbits + 8, text)
  {
    var v := Value(taken, 256);
    ValueOneMore(taken, byte, 256);
    ShiftIn(v, 256, 16777216, byte);
    PowGrows(nbits);
    TookIn(v, byte, 256, Pow2(nbits));
  }

  /** Giving out the highest five bits of the register. */
  lemma {:induction false} GiveSymbol(taken: seq<nat>, bits: nat, nbits: nat, text: string)
    requires Writes(taken, bits, nbits + 5, text) && nbits <= 7
    ensures var text' := text + [ALPHABET[bits / Pow2(nbits) % 32]];
            Writes(taken, bits, nbits, text') && |Letters(text')| == |Letters(text)| + 1
  {
    var v := Value(taken, 256);
    SymbolWindow(v, nbits);
    PowGrows(nbits);
    GaveOut(v, Pow2(nbits), 32);
    var symbol := bits / Pow2(nbits) % 32;
    AlphabetSymbol(symbol);
    WritesChar(text, ALPHABET[symbol], symbol);
  }

  lemma {:induction false} Completes(bytes: seq<nat>, text: string, c: char, symbol: nat)
    requires Symbols(text).Some? && Symbol(c) == Some(symbol) && Letter(c)
    requires forall j :: 0 <= j < |text| ==> Letter(text[j])
    requires 5 * (|Letters(text)| + 1) == 8 * |bytes| + Pad(|bytes|)
    requires Value(Letters(text), 32) * 32 + symbol == Value(bytes, 256) * Pow2(Pad(|bytes|))
    ensures Encodes(bytes, text + [c])
  {
    WritesChar(text, c, symbol);
  }

  /** Giving out the bits left over, shifted up to a whole symbol. */
  lemma {:induction false} GiveLast(bytes: seq<nat>, bits: nat, nbits: nat, text: string)
    requires Writes(bytes, bits, nbits, text) && 1 <= nbits <= 4 && 5 * |Letters(text)| + nbits == 8 * |bytes|
    ensures Encodes(bytes, text + [ALPHABET[bits * Pow2(5 - nbits) % U32 % 32]])
  {
    LastSymbol(Value(bytes, 256), nbits);
    PadIs(|bytes|, |Letters(text)|, nbits);
    var symbol := bits * Pow2(5 - nbits) % U32 % 32;
    AlphabetSymbol(symbol);
    Completes(bytes, text, ALPHABET[symbol], symbol);
  }

  lemma {:induction false} NothingLeft(bytes: seq<nat>, bits: nat, text: string)
    requires Writes(bytes, bits, 0, text) && 5 * |Letters(text)| == 8 * |bytes|
    ensures Encodes(bytes, text)
  {
    PowersOfTwo();
  }

  // ----- The loops -----

  /** One byte into the register, and symbols out of it while there are any. */
  method ShiftByte(ghost taken: seq<nat>, byte: nat, bits: nat, nbits: nat, text: string)
    returns (bits': nat, nbits': nat, text': string)
    requires byte < 256 && nbits < 5 && 5 * |Letters(text)| + nbits == 8 * |taken| && Writes(taken, bits, nbits, text)
    ensures nbits' < 5 && 5 * |Letters(text')| + nbits' == 8 * |taken + [byte]|
    ensures Writes(taken + [byte], bits', nbits', text')
  {
    ghost var now := taken + [byte];
    TakeByte(taken, byte, bits, nbits, text);
    bits', nbits', text' := bits * 256 % U32 + byte, nbits + 8, text;
    while nbits' >= 5
      invariant nbits' <= 12 && 5 * |Letters(text')| + nbits' == 8 * |now|
      invariant Writes(now, bits', nbits', text')
    {
      nbits' := nbits' - 5;
      GiveSymbol(now, bits', nbits', text');
      text' := text' + [ALPHABET[bits' / Pow2(nbits') % 32]];
    }
  }

  method Encode(bytes: seq<nat>) returns (text: string)
    requires InBase(bytes, 256)
    ensures Encodes(bytes, text)
  {
    text := "";
    var bits: nat, nbits: nat := 0, 0;
    assert bytes[..0] == [];
    for i := 0 to |bytes|
      invariant nbits < 5 && 5 * |Letters(text)| + nbits == 8 * i
      invariant Writes(bytes[..i], bits, nbits, text)
    {
      assert bytes[..i + 1] == bytes[..i] + [bytes[i]];
      bits, nbits, text := ShiftByte(bytes[..i], bytes[i], bits, nbits, text);
    }
    assert bytes[..|bytes|] == bytes;
    text := Flush(bytes, bits, nbits, text);
  }

  /** The bits left over, as one more symbol. */
  method Flush(ghost bytes: seq<nat>, bits: nat, nbits: nat, text: string) returns (text': string)
    requires nbits < 5 && 5 * |Letters(text)| + nbits == 8 * |bytes| && Writes(bytes, bits, nbits, text)
    ensures Encodes(bytes, text')
  {
    if nbits > 0 {
      GiveLast(bytes, bits, nbits, text);
      text' := text + [ALPHABET[bits * Pow2(5 - nbits) % U32 % 32]];
    } else {
      NothingLeft(bytes, bits, text);
      text' := text;
    }
  }

  /** Where a character stands in the alphabet. */
  method Position(c: char) returns (r: Option<nat>)
    ensures r == Symbol(c)
  {
    var u := Upper(c);
    for i := 0 to 32
      invariant forall j :: 0 <= j < i ==> ALPHABET[j] != u
    {
      AlphabetSymbol(i);
      if ALPHABET[i] == u {
        return Some(i);
      }
    }
    if Symbol(c).Some? {
      SymbolIsListed(c);
    }
    r := None;
  }

  /** The bytes so far and the `nbits` low bits of the register are the symbols taken in. */
  ghost predicate Reads(symbols: seq<nat>, bits: nat, nbits: nat, out: seq<nat>) {
    && InBase(out, 256)
    && bits == Value(symbols, 32) % U32
    && Value(out, 256) == Value(symbols, 32) / Pow2(nbits)
  }

  lemma {:induction false} SymbolsGrow(text: string, i: nat)
    requires i < |text|
    ensures Most(text[..i + 1]) == text[..i] && Last(text[..i + 1]) == text[i]
  {
  }

  lemma {:induction false} StaysUnreadable(text: string, i: nat)
    requires i <= |text| && Symbols(text[..i]).None?
    ensures Symbols(text).None?
    decreases |text| - i
  {
    if i < |text| {
      SymbolsGrow(text, i);
      StaysUnreadable(text, i + 1);
    } else {
      assert text[..i] == text;
    }
  }

  lemma {:induction false} TakeSymbol(symbols: seq<nat>, d: nat, bits: nat, nbits: nat, out: seq<nat>)
    requires Reads(symbols, bits, nbits, out) && d < 32
    ensures Reads(symbols + [d], bits * 32 % U32 + d, nbits + 5, out)
  {
    var v := Value(symbols, 32);
    ValueOneMore(symbols, d, 32);
    ShiftIn(v, 32, 134217728, d);
    PowGrows(nbits);
    TookIn(v, d, 32, Pow2(nbits));
  }

  lemma {:induction false} GiveByte(symbols: seq<nat>, bits: nat, nbits: nat, out: seq<nat>)
    requires Reads(symbols, bits, nbits + 8, out) && nbits <= 4
    ensures Reads(symbols, bits, nbits, out + [bits / Pow2(nbits) % 256])
  {
    var v := Value(symbols, 32);
    ByteWindow(v, nbits);
    PowGrows(nbits);
    GaveOut(v, Pow2(nbits), 256);
    ValueOneMore(out, bits / Pow2(nbits) % 256, 256);
  }

  /** One symbol into the register, and a byte out of it when there is one. */
  method ShiftSymbol(ghost symbols: seq<nat>, d: nat, bits: nat, nbits: nat, out: seq<nat>)
    returns (bits': nat, nbits': nat, out': seq<nat>)
    requires d < 32 && nbits < 8 && 8 * |out| + nbits == 5 * |symbols| && Reads(symbols, bits, nbits, out)
    ensures nbits' < 8 && 8 * |out'| + nbits' == 5 * |symbols + [d]| && Reads(symbols + [d], bits', nbits', out')
  {
    TakeSymbol(symbols, d, bits, nbits, out);
    bits', nbits', out' := bits * 32 % U32 + d, nbits + 5, out;
    if nbits' >= 8 {
      nbits' := nbits' - 8;
      GiveByte(symbols + [d], bits', nbits', out);
      out' := out + [bits' / Pow2(nbits') % 256];
    }
  }

  method Decode(text: string) returns (r: Option<seq<nat>>)
    ensures Decodes(text, r)
  {
    var out: seq<nat> := [];
    var bits: nat, nbits: nat := 0, 0;
    assert text[..0] == "";
    for i := 0 to |text|
      invariant Symbols(text[..i]).Some?
      invariant nbits < 8 && 8 * |out| + nbits == 5 * |Letters(text[..i])|
      invariant Reads(Letters(text[..i]), bits, nbits, out)
    {
      SymbolsGrow(text, i);
      if text[i] == '=' || text[i] == ' ' {
        continue;
      }
      var value := Position(text[i]);
      if value.None? {
        StaysUnreadable(text, i + 1);
        return None;
      }
      SymbolIsListed(text[i]);
      bits, nbits, out := ShiftSymbol(Letters(text[..i]), value.value, bits, nbits, out);
    }
    assert text[..|text|] == text;
    r := Some(out);
  }
}
