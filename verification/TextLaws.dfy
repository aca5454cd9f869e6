/** What the string operations give, without their own recursion (src/arc). */
module TextLaws {
  import opened Basics
  import opened Text
  import opened ArcTags

  /** Blank, tab, line feed, vertical tab, form feed, carriage return. */
  predicate White(c: char) { c as int in {9, 10, 11, 12, 13, 32} }

  predicate AllWhite(s: string) { forall i :: 0 <= i < |s| ==> White(s[i]) }

  /** Not white at either end. */
  predicate Tight(s: string) { s != "" ==> !White(s[0]) && !White(s[|s| - 1]) }

  const CAPITALS := "ABCDEFGHIJKLMNOPQRSTUVWXYZ"
  const SMALL := "abcdefghijklmnopqrstuvwxyz"

  /** Capitals become small, one by one; nothing else changes. */
  lemma {:induction false} LowerExactly(s: string, i: nat)
    requires i < |s|
    ensures |Lower(s)| == |s|
    ensures forall k :: 0 <= k < 26 && s[i] == CAPITALS[k] ==> Lower(s)[i] == SMALL[k]
    ensures (forall k :: 0 <= k < 26 ==> s[i] != CAPITALS[k]) ==> Lower(s)[i] == s[i]
  {
    forall k | 0 <= k < 26 ensures CAPITALS[k] as int == 65 + k && SMALL[k] as int == 97 + k {
    }
    if 'A' <= s[i] <= 'Z' {
      assert CAPITALS[s[i] as int - 65] == s[i];
    }
  }

  lemma {:induction false} TrimStartExactly(a: string, t: string)
    requires AllWhite(a) && (t != "" ==> !White(t[0]))
    ensures TrimStart(a + t) == t && LeadingSpace(a + t) == |a|
  {
    if a == "" {
      assert a + t == t;
    } else {
      assert (a + t)[1..] == a[1..] + t;
      TrimStartExactly(a[1..], t);
    }
  }

  lemma {:induction false} TrimEndExactly(t: string, b: string)
    requires AllWhite(b) && (t != "" ==> !White(t[|t| - 1]))
    ensures TrimEnd(t + b) == t
  {
    if b == "" {
      assert t + b == t;
    } else {
      assert Most(t + b) == t + Most(b) && Last(t + b) == Last(b);
      TrimEndExactly(t, Most(b));
    }
  }

  /** A text with white around it, trimmed, is the text. */
  lemma {:induction false} TrimExactly(a: string, t: string, b: string)
    requires AllWhite(a) && AllWhite(b) && Tight(t)
    ensures Trim(a + t + b) == t
  {
    if t == "" {
      assert a + t + b == (a + b) + "";
      assert AllWhite(a + b);
      TrimStartExactly(a + b, "");
    } else {
      assert a + t + b == a + (t + b);
      TrimStartExactly(a, t + b);
      TrimEndExactly(t, b);
    }
  }

  /** Every text is so, in one way. */
  lemma {:induction false} EveryTextHasWhiteAround(s: string) returns (a: string, b: string)
    ensures AllWhite(a) && AllWhite(b) && Tight(Trim(s)) && s == a + Trim(s) + b
  {
    var k := 0;
    while k < |s| && White(s[k])
      invariant k <= |s| && AllWhite(s[..k])
    {
      k := k + 1;
    }
    var n := |s|;
    while n > k && White(s[n - 1])
      invariant k <= n <= |s| && AllWhite(s[n..])
    {
      n := n - 1;
    }
    a, b := s[..k], s[n..];
    assert s == a + s[k..n] + b;
    TrimExactly(a, s[k..n], b);
  }

  /** Dropping white space keeps everything else in order. */
  lemma {:induction false} CompactExactly(s: string)
    ensures Sifted(s, Compact(s), (c: char) => !White(c))
  {
    if s != "" {
      CompactExactly(s[1..]);
      SiftedInFront(s[0], s[1..], Compact(s[1..]), (c: char) => !White(c));
      assert s == [s[0]] + s[1..];
    }
  }

  /** Splitting loses nothing and leaves no separator in a piece. */
  lemma {:induction false} SplitExactly(s: string, sep: char)
    ensures Join(Split(s, sep), sep) == s
    ensures forall i :: 0 <= i < |Split(s, sep)| ==> sep !in Split(s, sep)[i]
  {
    if s != "" {
      SplitExactly(s[1..], sep);
      var rest := Split(s[1..], sep);
      if s[0] == sep {
        assert ([""] + rest)[1..] == rest;
        assert "" + [sep] + s[1..] == s;
      } else {
        var all := [[s[0]] + rest[0]] + rest[1..];
        assert all[1..] == rest[1..];
        if |rest| == 1 {
          assert [s[0]] + s[1..] == s;
        } else {
          assert [s[0]] + (rest[0] + [sep] + Join(rest[1..], sep)) == s;
          assert ([s[0]] + rest[0]) + [sep] + Join(rest[1..], sep) == s;
        }
      }
    }
  }

  /** Joining puts one separator between what is joined, and none elsewhere. */
  lemma {:induction false} JoinExactly(a: seq<string>, b: seq<string>, sep: char)
    requires a != [] && b != []
    ensures Join(a + b, sep) == Join(a, sep) + [sep] + Join(b, sep)
    ensures |a| == 1 ==> Join(a, sep) == a[0]
  {
    if |a| == 1 {
      assert (a + b)[1..] == b;
    } else {
      assert (a + b)[0] == a[0] && (a + b)[1..] == a[1..] + b;
      JoinExactly(a[1..], b, sep);
      Regroup(a[0] + [sep], Join(a[1..], sep), [sep] + Join(b, sep));
      assert Join(a[1..], sep) + [sep] + Join(b, sep) == Join(a[1..], sep) + ([sep] + Join(b, sep));
      assert Join(a, sep) + [sep] + Join(b, sep) == Join(a, sep) + ([sep] + Join(b, sep));
    }
  }

  // ----- Numbers -----

  function Zeros(k: nat): string { seq(k, i => '0') }

  lemma {:induction false} DigitsAppend(s: string, c: char)
    ensures Digits(s + [c]) == match (Digits(s), Digit(c)) { case (Some(h), Some(l)) => Some(10 * h + l) case _ => None }
  {
    assert Most(s + [c]) == s && Last(s + [c]) == c;
  }

  lemma {:induction false} ZerosInFront(k: nat, n: nat)
    ensures Digits(Zeros(k) + Decimal(n)) == Some(n)
    decreases n, k
  {
    var last := (48 + n % 10) as char;
    if n >= 10 {
      ZerosInFront(k, n / 10);
      DigitsAppend(Zeros(k) + Decimal(n / 10), last);
      assert Zeros(k) + Decimal(n) == (Zeros(k) + Decimal(n / 10)) + [last];
    } else {
      OnlyZeros(k);
      DigitsAppend(Zeros(k), last);
    }
  }

  lemma {:induction false} OnlyZeros(k: nat)
    ensures Digits(Zeros(k)) == Some(0)
  {
    if k > 0 {
      OnlyZeros(k - 1);
      assert Zeros(k) == Zeros(k - 1) + ['0'];
      DigitsAppend(Zeros(k - 1), '0');
    }
  }

  /** Digits are a number in decimal behind zeros. */
  lemma {:induction false} DigitsAreDecimal(s: string) returns (k: nat)
    requires s != "" && Digits(s).Some?
    ensures s == Zeros(k) + Decimal(Digits(s).value)
  {
    var c := Last(s);
    var low := Digit(c).value;
    assert s == Most(s) + [c];
    if Most(s) == "" {
      k := 0;
    } else {
      var j := DigitsAreDecimal(Most(s));
      var high := Digits(Most(s)).value;
      var n := 10 * high + low;
      assert n / 10 == high && n % 10 == low && (48 + n % 10) as char == c;
      if high == 0 {
        assert Decimal(0) == "0";
        assert Zeros(j) + "0" == Zeros(j + 1);
        k := j + 1;
      } else {
        k := j;
        assert Decimal(n) == Decimal(high) + [c];
      }
    }
  }

  /** A number is read from its decimal form, behind zeros and one plus, up to the greatest allowed. */
  lemma {:induction false} UnsignedExactly(s: string, max: nat, n: nat)
    ensures ParseUnsigned(s, max) == Some(n) <==>
      n <= max && exists k :: s == Zeros(k) + Decimal(n) || s == "+" + (Zeros(k) + Decimal(n))
  {
    if ParseUnsigned(s, max) == Some(n) {
      var digits := if s != "" && s[0] == '+' then s[1..] else s;
      var k := DigitsAreDecimal(digits);
      if s[0] == '+' {
        assert s == "+" + digits;
      }
    }
    if k :| n <= max && (s == Zeros(k) + Decimal(n) || s == "+" + (Zeros(k) + Decimal(n))) {
      ReadsBack(s, k, n, max);
    }
  }

  lemma {:induction false} ReadsBack(s: string, k: nat, n: nat, max: nat)
    requires n <= max && (s == Zeros(k) + Decimal(n) || s == "+" + (Zeros(k) + Decimal(n)))
    ensures ParseUnsigned(s, max) == Some(n)
  {
    var digits := Zeros(k) + Decimal(n);
    ZerosInFront(k, n);
    DecimalIsRead(n);
    assert digits != "";
    assert digits[0] != '+' by {
      if k == 0 { assert digits[0] == Decimal(n)[0] && Decimal(n)[0] in Decimal(n); }
    }
    if s != digits {
      assert s[1..] == digits;
    }
  }

  /** The ten digits, in the order they are written. */
  lemma {:induction false} DigitsInOrder()
    ensures Decimal(1234567890) == "1234567890"
  {
    assert Decimal(1) == "1";
    assert Decimal(12) == "12";
    assert Decimal(123) == "123";
    assert Decimal(1234) == "1234";
    assert Decimal(12345) == "12345";
    assert Decimal(123456) == "123456";
    assert Decimal(1234567) == "1234567";
    assert Decimal(12345678) == "12345678";
    assert Decimal(123456789) == "123456789";
  }

  // ----- Tag lists -----

  /** The piece is `name=value`, under the name in small letters, white space dropped. */
  ghost predicate PairOf(part: string, tag: (string, string)) {
    exists name, raw :: Parted(part, name, raw) && tag.0 == Lower(Trim(name)) && Sifted(raw, tag.1, (c: char) => !White(c))
  }

  predicate Parted(part: string, name: string, raw: string) { part == name + "=" + raw && '=' !in name }

  /** The tags of the pieces that are not blank, in order. */
  ghost predicate TagList(parts: seq<string>, tags: seq<(string, string)>) {
    if parts == [] then tags == []
    else if AllWhite(parts[0]) then TagList(parts[1..], tags)
    else tags != [] && PairOf(parts[0], tags[0]) && TagList(parts[1..], tags[1..])
  }

  lemma {:induction false} OneSifted<T>(all: seq<T>, a: seq<T>, b: seq<T>, passes: T -> bool)
    requires Sifted(all, a, passes) && Sifted(all, b, passes)
    ensures a == b
  {
    if all != [] {
      if passes(all[0]) {
        OneSifted(all[1..], a[1..], b[1..], passes);
        assert a == [a[0]] + a[1..] && b == [b[0]] + b[1..];
      } else {
        OneSifted(all[1..], a, b, passes);
      }
    }
  }

  lemma {:induction false} PieceExactly(part: string)
    ensures ReadPiece(part).Blank? <==> AllWhite(part)
    ensures ReadPiece(part).Malformed? <==> !AllWhite(part) && '=' !in part
    ensures forall tag: (string, string) :: ReadPiece(part) == Pair(tag.0, tag.1) <==> PairOf(part, tag)
  {
    PieceReadersAgree(part);
    SplitOnceNone(part, '=');
    var a, b := EveryTextHasWhiteAround(part);
    if AllWhite(part) {
      assert part == part + "" + "";
      TrimExactly(part, "", "");
      assert '=' !in part;
    }
    if Trim(part) == "" {
      assert part == a + b;
    }
    forall tag: (string, string) ensures ReadPiece(part) == Pair(tag.0, tag.1) <==> PairOf(part, tag) {
      PairExactly(part, tag);
    }
  }

  lemma {:induction false} PairExactly(part: string, tag: (string, string))
    ensures ReadPiece(part) == Pair(tag.0, tag.1) <==> PairOf(part, tag)
  {
    PieceReadersAgree(part);
    if SplitOnce(part, '=').Some? {
      SplitOnceSome(part, '=');
      var (name, raw) := SplitOnce(part, '=').value;
      assert Parted(part, name, raw);
      TrimStartKeepsCompact(raw);
      TrimEndKeepsCompact(TrimStart(raw));
      CompactExactly(raw);
    }
    if PairOf(part, tag) {
      var name, raw :| Parted(part, name, raw) && tag.0 == Lower(Trim(name)) && Sifted(raw, tag.1, (c: char) => !White(c));
      SplitOnceAt(name, raw, '=');
      CompactExactly(raw);
      OneSifted(raw, Compact(raw), tag.1, (c: char) => !White(c));
      TrimStartKeepsCompact(raw);
      TrimEndKeepsCompact(TrimStart(raw));
    }
  }

  lemma {:induction false} TagsExactly(parts: seq<string>, tags: seq<(string, string)>)
    ensures ReadTags(parts) == Some(tags) <==> TagList(parts, tags)
  {
    if parts != [] {
      PieceExactly(parts[0]);
      if ReadPiece(parts[0]).Blank? {
        TagsExactly(parts[1..], tags);
      } else if tags != [] {
        assert tags == [tags[0]] + tags[1..];
        TagsExactly(parts[1..], tags[1..]);
      }
    }
  }

  /** A tag has the first value under its name. */
  lemma {:induction false} GetExactly(tags: seq<(string, string)>, key: string)
    ensures Get(tags, key).None? <==> forall i :: 0 <= i < |tags| ==> tags[i].0 != key
    ensures forall i :: 0 <= i < |tags| && tags[i].0 == key && (forall j :: 0 <= j < i ==> tags[j].0 != key) ==> Get(tags, key) == Some(tags[i].1)
  {
    if tags != [] && tags[0].0 != key {
      GetExactly(tags[1..], key);
      assert forall i :: 0 < i < |tags| ==> tags[i] == tags[1..][i - 1];
    }
  }

  /** The piece is `key=...`, whatever the case of letters and the white space around. */
  predicate Under(part: string, key: string) {
    SplitOnce(part, '=').Some? && Lower(Trim(SplitOnce(part, '=').value.0)) == Lower(key)
  }

  /** The other reader takes the first piece under the name, whatever the other pieces are. */
  lemma {:induction false} FirstTagExactly(parts: seq<string>, key: string)
    ensures FirstTag(parts, key).None? <==> forall i :: 0 <= i < |parts| ==> !Under(parts[i], key)
    ensures forall i :: 0 <= i < |parts| && Under(parts[i], key) && (forall j :: 0 <= j < i ==> !Under(parts[j], key)) ==>
                          FirstTag(parts, key) == Some(Trim(SplitOnce(parts[i], '=').value.1))
  {
    if parts != [] && !Under(parts[0], key) {
      FirstTagExactly(parts[1..], key);
      assert forall i :: 0 < i < |parts| ==> parts[i] == parts[1..][i - 1];
    }
  }

  // ----- Emptying the signature -----

  /** The piece is a signature tag behind `n` white characters. */
  predicate SignatureAt(part: string, n: nat) {
    n + 2 <= |part| && AllWhite(part[..n]) && part[n] == 'b' && part[n + 1] == '='
  }

  lemma {:induction false} StripPieceExactly(part: string)
    ensures forall n :: SignatureAt(part, n) ==> StripPiece(part) == part[..n + 2]
    ensures (forall n :: !SignatureAt(part, n)) ==> StripPiece(part) == part
  {
    forall n: nat | SignatureAt(part, n) ensures StripPiece(part) == part[..n + 2] {
      assert part == part[..n] + part[n..];
      TrimStartExactly(part[..n], part[n..]);
      assert part[n..][..2] == "b=" && part[..n + 2] == part[..n] + "b=";
    }
    if "b=" <= TrimStart(part) {
      var n := LeadingSpace(part);
      LeadingIsWhite(part);
      assert part[n..][0] == 'b' && part[n..][1] == '=';
      assert SignatureAt(part, n);
    }
  }

  lemma {:induction false} LeadingIsWhite(s: string)
    ensures AllWhite(s[..LeadingSpace(s)]) && s[LeadingSpace(s)..] == TrimStart(s)
  {
    if s != "" && Whitespace(s[0]) {
      LeadingIsWhite(s[1..]);
      var n := LeadingSpace(s);
      assert s[..n] == [s[0]] + s[1..][..n - 1] && s[n..] == s[1..][n - 1..];
    }
  }

  /** Emptying the signature cuts each `b=` piece behind the sign and leaves every other piece as it is. */
  lemma {:induction false} StripExactly(value: string)
    ensures var before, after := Split(value, ';'), Split(StripB(value), ';');
      && |after| == |before|
      && forall i :: 0 <= i < |before| ==>
           && (forall n :: SignatureAt(before[i], n) ==> after[i] == before[i][..n + 2])
           && ((forall n :: !SignatureAt(before[i], n)) ==> after[i] == before[i])
  {
    SplitExactly(value, ';');
    var before := Split(value, ';');
    var after := seq(|before|, i requires 0 <= i < |before| => StripPiece(before[i]));
    forall i | 0 <= i < |before| ensures ';' !in after[i] {
      StripPieceExactly(before[i]);
      if n :| SignatureAt(before[i], n) {
        assert after[i] == before[i][..n + 2];
      }
    }
    SplitOfJoin(after, ';');
    forall i | 0 <= i < |before| ensures
      && (forall n :: SignatureAt(before[i], n) ==> after[i] == before[i][..n + 2])
      && ((forall n :: !SignatureAt(before[i], n)) ==> after[i] == before[i])
    {
      StripPieceExactly(before[i]);
    }
  }
}
