/** The string operations the ARC headers are read and written with (src/arc). */
module Text {
  import opened Basics

  predicate Whitespace(c: char) { c == ' ' || '\t' <= c <= '\r' }

  function LowerChar(c: char): char
  {
    if 'A' <= c <= 'Z' then (c as int + 32) as char else c
  }

  /** `to_ascii_lowercase` */
  function Lower(s: string): (r: string)
    ensures |r| == |s|
  {
    seq(|s|, i requires 0 <= i < |s| => LowerChar(s[i]))
  }

  /** The value with every whitespace character dropped. */
  function Compact(s: string): string
  {
    if s == "" then "" else (if Whitespace(s[0]) then "" else [s[0]]) + Compact(s[1..])
  }

  function TrimStart(s: string): string
  {
    if s != "" && Whitespace(s[0]) then TrimStart(s[1..]) else s
  }

  function TrimEnd(s: string): string
  {
    if s != "" && Whitespace(Last(s)) then TrimEnd(Most(s)) else s
  }

  function Trim(s: string): string { TrimEnd(TrimStart(s)) }

  /** `split(sep)`: always at least one piece. */
  function Split(s: string, sep: char): (parts: seq<string>)
    ensures parts != []
  {
    if s == "" then [""]
    else
      var rest := Split(s[1..], sep);
      if s[0] == sep then [""] + rest else [[s[0]] + rest[0]] + rest[1..]
  }

  function Join(parts: seq<string>, sep: char): string
    requires parts != []
  {
    if |parts| == 1 then parts[0] else parts[0] + [sep] + Join(parts[1..], sep)
  }

  /** `split_once(sep)`: around the first separator. */
  function SplitOnce(s: string, sep: char): Option<(string, string)>
  {
    if s == "" then None
    else if s[0] == sep then Some(("", s[1..]))
    else match SplitOnce(s[1..], sep)
      case None => None
      case Some((name, value)) => Some(([s[0]] + name, value))
  }

  lemma {:induction false} SplitOfPlain(s: string, sep: char)
    requires sep !in s
    ensures Split(s, sep) == [s]
  {
    if s != "" {
      SplitOfPlain(s[1..], sep);
      assert [s[0]] + s[1..] == s;
    }
  }

  /** A piece without separators in front of a separator is the first piece. */
  lemma {:induction false} SplitAfterPlain(head: string, rest: string, sep: char)
    requires sep !in head
    ensures Split(head + [sep] + rest, sep) == [head] + Split(rest, sep)
  {
    var s := head + [sep] + rest;
    if head == "" {
      assert s[1..] == rest;
    } else {
      assert s[1..] == head[1..] + [sep] + rest;
      SplitAfterPlain(head[1..], rest, sep);
      var tail := Split(s[1..], sep);
      assert tail[0] == head[1..] && tail[1..] == Split(rest, sep);
      assert [s[0]] + head[1..] == head;
    }
  }

  /** Joining pieces that hold no separator and splitting gives the pieces. */
  lemma {:induction false} SplitOfJoin(parts: seq<string>, sep: char)
    requires parts != [] && forall p :: p in parts ==> sep !in p
    ensures Split(Join(parts, sep), sep) == parts
  {
    if |parts| == 1 {
      SplitOfPlain(parts[0], sep);
    } else {
      SplitOfJoin(parts[1..], sep);
      SplitAfterPlain(parts[0], Join(parts[1..], sep), sep);
    }
  }

  lemma {:induction false} SplitOnceAt(name: string, value: string, sep: char)
    requires sep !in name
    ensures SplitOnce(name + [sep] + value, sep) == Some((name, value))
  {
    var s := name + [sep] + value;
    if name == "" {
      assert s[1..] == value;
    } else {
      assert s[1..] == name[1..] + [sep] + value;
      SplitOnceAt(name[1..], value, sep);
      assert [s[0]] + name[1..] == name;
    }
  }

  lemma {:induction false} CompactAppends(a: string, b: string)
    ensures Compact(a + b) == Compact(a) + Compact(b)
  {
    if a == "" {
      assert a + b == b;
    } else {
      assert (a + b)[1..] == a[1..] + b;
      CompactAppends(a[1..], b);
    }
  }

  lemma {:induction false} CompactOfDense(s: string)
    requires forall c :: c in s ==> !Whitespace(c)
    ensures Compact(s) == s && Trim(s) == s
  {
    if s != "" { CompactOfDense(s[1..]); }
  }

  lemma {:induction false} TrimEndKeepsCompact(s: string)
    ensures Compact(TrimEnd(s)) == Compact(s)
  {
    if s != "" && Whitespace(Last(s)) {
      TrimEndKeepsCompact(Most(s));
      assert s == Most(s) + [Last(s)];
      CompactAppends(Most(s), [Last(s)]);
    }
  }

  lemma {:induction false} TrimStartKeepsCompact(s: string)
    ensures Compact(TrimStart(s)) == Compact(s)
  {
    if s != "" && Whitespace(s[0]) { TrimStartKeepsCompact(s[1..]); }
  }

  /** Only the end of what follows a dense end is trimmed. */
  lemma {:induction false} TrimEndAppends(a: string, b: string)
    requires a != "" && !Whitespace(Last(a))
    ensures TrimEnd(a + b) == a + TrimEnd(b)
  {
    if b == "" {
      assert a + b == a;
    } else if Whitespace(Last(b)) {
      assert Most(a + b) == a + Most(b) && Last(a + b) == Last(b);
      TrimEndAppends(a, Most(b));
    } else {
      assert Last(a + b) == Last(b);
    }
  }

  lemma {:induction false} TrimStartOf(a: string, b: string)
    requires b != "" && !Whitespace(b[0])
    ensures TrimStart(a + b) == TrimStart(a) + b
  {
    if a == "" {
      assert a + b == b;
    } else if Whitespace(a[0]) {
      assert (a + b)[1..] == a[1..] + b;
      TrimStartOf(a[1..], b);
    }
  }

  lemma {:induction false} TrimStartTwice(s: string)
    ensures TrimStart(TrimStart(s)) == TrimStart(s)
  {
    if s != "" && Whitespace(s[0]) { TrimStartTwice(s[1..]); }
  }

  /** Trimming only drops characters. */
  lemma {:induction false} TrimmedParts(s: string)
    ensures forall c :: c in TrimStart(s) ==> c in s
    ensures forall c :: c in Trim(s) ==> c in s
  {
    TrimStartParts(s);
    TrimEndParts(TrimStart(s));
  }

  lemma {:induction false} TrimStartParts(s: string)
    ensures forall c :: c in TrimStart(s) ==> c in s
  {
    if s != "" && Whitespace(s[0]) { TrimStartParts(s[1..]); }
  }

  lemma {:induction false} TrimEndParts(s: string)
    ensures forall c :: c in TrimEnd(s) ==> c in s
  {
    if s != "" && Whitespace(Last(s)) { TrimEndParts(Most(s)); }
  }

  lemma {:induction false} SplitOnceNone(s: string, sep: char)
    ensures SplitOnce(s, sep) == None <==> sep !in s
  {
    if s != "" { SplitOnceNone(s[1..], sep); }
  }

  lemma {:induction false} SplitOnceSome(s: string, sep: char)
    requires SplitOnce(s, sep).Some?
    ensures var (name, value) := SplitOnce(s, sep).value; sep !in name && s == name + [sep] + value
  {
    if s[0] != sep { SplitOnceSome(s[1..], sep); }
  }

  // ------------------------------------------------------------------- numbers

  function Digit(c: char): Option<nat> { if '0' <= c <= '9' then Some(c as int - 48) else None }

  /** A number in decimal, as `format!` writes it. */
  function Decimal(n: nat): (s: string)
    ensures s != ""
  {
    var last := [(48 + n % 10) as char];
    if n < 10 then last else Decimal(n / 10) + last
  }

  function Digits(s: string): Option<nat>
  {
    if s == "" then Some(0)
    else match (Digits(Most(s)), Digit(Last(s)))
      case (Some(high), Some(low)) => Some(10 * high + low)
      case _ => None
  }

  /** `parse()` of an unsigned integer: digits, after one optional `+`, up to `max`. */
  function ParseUnsigned(s: string, max: nat): Option<nat>
  {
    var digits := if s != "" && s[0] == '+' then s[1..] else s;
    if digits == "" then None
    else match Digits(digits)
      case Some(n) => if n <= max then Some(n) else None
      case None => None
  }

  lemma {:induction false} DecimalIsRead(n: nat)
    ensures Digits(Decimal(n)) == Some(n)
    ensures forall c :: c in Decimal(n) ==> '0' <= c <= '9'
  {
    var last := [(48 + n % 10) as char];
    assert Digits(last) == Some(n % 10) by { assert Most(last) == "" && Last(last) == last[0]; }
    if n >= 10 {
      DecimalIsRead(n / 10);
      var s := Decimal(n);
      assert Most(s) == Decimal(n / 10) && Last(s) == last[0];
    }
  }

  lemma {:induction false} ParseOfDecimal(n: nat, max: nat)
    requires n <= max
    ensures ParseUnsigned(Decimal(n), max) == Some(n)
  {
    DecimalIsRead(n);
    assert Decimal(n)[0] in Decimal(n);
  }

  lemma {:induction false} NumbersAreDense(s: string)
    requires Digits(s).Some?
    ensures forall c :: c in s ==> '0' <= c <= '9'
  {
    if s != "" {
      NumbersAreDense(Most(s));
      assert s == Most(s) + [Last(s)];
    }
  }

  /** A text that reads as a number holds no white space. */
  lemma {:induction false} NumberIsCompact(s: string, max: nat)
    requires ParseUnsigned(s, max).Some?
    ensures Compact(s) == s
  {
    var digits := if s != "" && s[0] == '+' then s[1..] else s;
    NumbersAreDense(digits);
    assert forall c :: c in s ==> c == '+' || c in digits;
    CompactOfDense(s);
  }
}
