/**
 * Which tokens of a message are read: all of them when they fit, and otherwise
 * the ones whose keyed fingerprint is smallest. The fingerprints of distinct
 * tokens of one message are taken to be distinct. Strings stand for the octets of their UTF-8
 * form, so a length is a count of octets.
 */
module TokenSample {
  import opened Basics
  import Ledger

  const MIN_TOKEN_LEN := 2
  const MAX_TOKEN_LEN := 30

  /** How a text is cut to the window that is read, into alphanumeric runs, lowercased and fingerprinted. */
  datatype Reader = Reader(window: string -> string, runs: string -> seq<string>, lower: string -> string, tag: string -> nat)

  /** How many numbers `w` digits in base 16 write. */
  function Sixteens(w: nat): (n: nat)
    ensures n > 0
  {
    if w == 0 then 1 else 16 * Sixteens(w - 1)
  }

  const HEX_DIGITS: nat := 64

  /** A fingerprint is 256 bits, 64 digits. */
  const TAGS: nat := Sixteens(HEX_DIGITS)

  /** The tokens at hand have different fingerprints. */
  ghost predicate Distinguishes(tag: string -> nat, all: set<string>) {
    && (forall t :: t in all ==> tag(t) < TAGS)
    && (forall t, u :: t in all && u in all && tag(t) == tag(u) ==> t == u)
  }

  /** Fingerprints are written in different ways. */
  ghost predicate Spells(hex: nat -> string) {
    forall m: nat, n: nat :: m < TAGS && n < TAGS && hex(m) == hex(n) ==> m == n
  }

  predicate RightLength(raw: string) {
    MIN_TOKEN_LEN <= |raw| <= MAX_TOKEN_LEN
  }

  /** The distinct tokens of some runs. */
  function Tokens(r: Reader, runs: seq<string>, exclude: set<string>): set<string> {
    set raw | raw in runs && RightLength(raw) && r.lower(raw) !in exclude :: r.lower(raw)
  }

  /** A token is a run of 2 to 30 octets in lower case that is not excluded. */
  lemma {:induction false} TokensExactly(r: Reader, runs: seq<string>, exclude: set<string>, t: string)
    ensures t in Tokens(r, runs, exclude) <==> t !in exclude && exists i :: 0 <= i < |runs| && 2 <= |runs[i]| <= 30 && r.lower(runs[i]) == t
  {
    if t in Tokens(r, runs, exclude) {
      var raw :| raw in runs && RightLength(raw) && r.lower(raw) !in exclude && r.lower(raw) == t;
      var i :| 0 <= i < |runs| && runs[i] == raw;
    }
  }

  lemma {:induction false} TokensOneMore(r: Reader, runs: seq<string>, raw: string, exclude: set<string>)
    ensures Tokens(r, runs + [raw], exclude)
         == Tokens(r, runs, exclude)
          + (if RightLength(raw) && r.lower(raw) !in exclude then {r.lower(raw)} else {})
  {
    var a, b := Tokens(r, runs + [raw], exclude), Tokens(r, runs, exclude);
    forall t | t in b ensures t in a {
      var x :| x in runs && RightLength(x) && r.lower(x) !in exclude && r.lower(x) == t;
      assert x in runs + [raw];
    }
    assert raw in runs + [raw];
  }

  lemma {:induction false} TokensGrow(r: Reader, runs: seq<string>, i: nat, exclude: set<string>)
    requires i <= |runs|
    ensures Tokens(r, runs[..i], exclude) <= Tokens(r, runs, exclude)
  {
    assert forall raw :: raw in runs[..i] ==> raw in runs;
  }

  // ----- The sample -----

  ghost predicate Rising(tag: string -> nat, s: seq<string>) {
    forall i, j :: 0 <= i < j < |s| ==> tag(s[i]) < tag(s[j])
  }

  /** `s` is the `cap` tokens of `all` with the smallest tags, smallest first. */
  ghost predicate Sample(tag: string -> nat, s: seq<string>, all: set<string>, cap: nat) {
    && Rising(tag, s)
    && |s| <= cap
    && (forall x :: x in s ==> x in all)
    && (forall x :: x in all && x !in s ==> |s| == cap && forall y :: y in s ==> tag(y) < tag(x))
  }

  lemma {:induction false} RisingHasNoDuplicates(tag: string -> nat, s: seq<string>)
    requires Rising(tag, s)
    ensures NoDuplicates(s)
  {
  }

  /** Each element is before all later ones. */
  ghost predicate Increasing(before: (string, string) -> bool, s: seq<string>) {
    forall i, j :: 0 <= i < j < |s| ==> before(s[i], s[j])
  }

  ghost predicate Asymmetric(before: (string, string) -> bool) {
    forall x, y :: before(x, y) ==> !before(y, x)
  }

  /** There is one way to put a set in order. */
  lemma {:induction false} OrderIsDetermined(before: (string, string) -> bool, a: seq<string>, b: seq<string>)
    requires Asymmetric(before) && Increasing(before, a) && Increasing(before, b) && Elements(a) == Elements(b)
    ensures a == b
  {
    if a != [] && b != [] {
      assert Last(a) in Elements(b) && Last(b) in Elements(a);
      assert Last(a) == Last(b);
      forall x | x in Elements(Most(a)) ensures x in Elements(Most(b)) {
        assert x in Elements(b) && x != Last(a);
      }
      forall x | x in Elements(Most(b)) ensures x in Elements(Most(a)) {
        assert x in Elements(a) && x != Last(b);
      }
      OrderIsDetermined(before, Most(a), Most(b));
      assert a == Most(a) + [Last(a)] && b == Most(b) + [Last(b)];
    } else {
      assert a != [] ==> Last(a) in Elements(b);
      assert b != [] ==> Last(b) in Elements(a);
    }
  }

  lemma {:induction false} RisingIsDetermined(tag: string -> nat, a: seq<string>, b: seq<string>)
    requires Rising(tag, a) && Rising(tag, b) && Elements(a) == Elements(b)
    ensures a == b
  {
    OrderIsDetermined((x, y) => tag(x) < tag(y), a, b);
  }

  lemma {:induction false} SampleWithin(tag: string -> nat, a: seq<string>, b: seq<string>, all: set<string>, cap: nat)
    requires Sample(tag, a, all, cap) && Sample(tag, b, all, cap)
    ensures Elements(a) <= Elements(b)
  {
    if x :| x in a && x !in b {
      forall y | y in b ensures y in a {
        if y !in a {
          assert false;
        }
      }
      RisingHasNoDuplicates(tag, a);
      RisingHasNoDuplicates(tag, b);
      CardinalityOfElements(a);
      CardinalityOfElements(b);
      assert Elements(b) <= Elements(a) - {x};
      SubsetCardinality(Elements(b), Elements(a) - {x});
      assert false;
    }
  }

  /** The sample depends only on the set of tokens, not on their order or how often they occur. */
  lemma {:induction false} SampleIsDetermined(tag: string -> nat, a: seq<string>, b: seq<string>, all: set<string>, cap: nat)
    requires Sample(tag, a, all, cap) && Sample(tag, b, all, cap)
    ensures a == b
  {
    SampleWithin(tag, a, b, all, cap);
    SampleWithin(tag, b, a, all, cap);
    RisingIsDetermined(tag, a, b);
  }

  // ----- The scan -----

  /** What the heap holds, worst last, with one more token. */
  function Inserted(tag: string -> nat, s: seq<string>, x: string): (r: seq<string>)
    ensures |r| == |s| + 1
  {
    if s == [] then [x]
    else if tag(Last(s)) < tag(x) then s + [x]
    else Inserted(tag, Most(s), x) + [Last(s)]
  }

  lemma {:induction false} InsertedRises(tag: string -> nat, s: seq<string>, x: string)
    requires Rising(tag, s) && forall y :: y in s ==> tag(y) != tag(x)
    ensures Rising(tag, Inserted(tag, s, x))
    ensures forall y :: y in Inserted(tag, s, x) <==> y in s || y == x
  {
    if s != [] && !(tag(Last(s)) < tag(x)) {
      InsertedRises(tag, Most(s), x);
      assert s == Most(s) + [Last(s)];
      var front := Inserted(tag, Most(s), x);
      forall i | 0 <= i < |front| ensures tag(front[i]) < tag(Last(s)) {
        assert front[i] in front;
      }
    }
  }

  /** A token already kept changes nothing. */
  lemma {:induction false} KeptAgain(tag: string -> nat, s: seq<string>, all: set<string>, x: string, cap: nat)
    requires Sample(tag, s, all, cap) && x in s
    ensures Sample(tag, s, all + {x}, cap)
  {
  }

  /** With room left, everything seen is kept, and so is a new token. */
  lemma {:induction false} RoomForOne(tag: string -> nat, s: seq<string>, all: set<string>, x: string, cap: nat)
    requires Sample(tag, s, all, cap) && |s| < cap && forall y :: y in s ==> tag(y) != tag(x)
    ensures Sample(tag, Inserted(tag, s, x), all + {x}, cap)
  {
    InsertedRises(tag, s, x);
  }

  lemma {:induction false} WorstIsWorst(tag: string -> nat, s: seq<string>)
    requires Rising(tag, s) && s != []
    ensures Last(s) !in Most(s) && forall y :: y in s ==> y == Last(s) || (y in Most(s) && tag(y) < tag(Last(s)))
  {
  }

  /** A better token takes the place of the worst. */
  lemma {:induction false} WorstGoes(tag: string -> nat, s: seq<string>, all: set<string>, x: string, cap: nat)
    requires Sample(tag, s, all, cap) && |s| == cap > 0 && tag(x) < tag(Last(s)) && forall y :: y in s ==> tag(y) != tag(x)
    ensures Sample(tag, Inserted(tag, Most(s), x), all + {x}, cap)
  {
    WorstIsWorst(tag, s);
    var front := Most(s);
    assert forall y :: y in front ==> y in s;
    InsertedRises(tag, front, x);
    var r := Inserted(tag, front, x);
    forall y | y in all + {x} && y !in r ensures |r| == cap && forall z :: z in r ==> tag(z) < tag(y) {
      assert y == Last(s) || (y !in s && tag(Last(s)) < tag(y));
    }
  }

  /** A token no better than the worst is passed over. */
  lemma {:induction false} PassedOver(tag: string -> nat, s: seq<string>, all: set<string>, x: string, cap: nat)
    requires Sample(tag, s, all, cap) && |s| == cap > 0 && tag(Last(s)) < tag(x)
    ensures Sample(tag, s, all + {x}, cap)
  {
    WorstIsWorst(tag, s);
  }

  function TagsOf(tag: string -> nat, s: seq<string>): set<nat> {
    set t | t in s :: tag(t)
  }

  lemma {:induction false} TagsInserted(tag: string -> nat, s: seq<string>, x: string)
    requires Rising(tag, s) && tag(x) !in TagsOf(tag, s)
    ensures TagsOf(tag, Inserted(tag, s, x)) == TagsOf(tag, s) + {tag(x)}
  {
    InsertedRises(tag, s, x);
  }

  lemma {:induction false} TagsWithoutWorst(tag: string -> nat, s: seq<string>)
    requires Rising(tag, s) && s != []
    ensures TagsOf(tag, Most(s)) == TagsOf(tag, s) - {tag(Last(s))}
  {
    WorstIsWorst(tag, s);
    assert forall t :: t in Most(s) ==> t in s && tag(t) < tag(Last(s));
  }

  /** Scans the runs, keeping at most `cap` entries; `held` is the most it ever held. */
  method SampleWithout(r: Reader, text: string, cap: nat, exclude: set<string>)
    returns (kept: seq<string>, ghost held: nat)
    requires Distinguishes(r.tag, Tokens(r, r.runs(text), exclude))
    ensures Sample(r.tag, kept, Tokens(r, r.runs(text), exclude), cap)
    ensures held <= cap
  {
    kept, held := [], 0;
    if cap == 0 {
      return;
    }
    var tags: set<nat> := {};
    var runs := r.runs(text);
    assert Tokens(r, [], exclude) == {};
    for i := 0 to |runs|
      invariant Sample(r.tag, kept, Tokens(r, runs[..i], exclude), cap)
      invariant tags == TagsOf(r.tag, kept)
      invariant held <= cap
    {
      var raw := runs[i];
      TokensOneMore(r, runs[..i], raw, exclude);
      assert runs[..i + 1] == runs[..i] + [raw];
      if !RightLength(raw) {
        continue;
      }
      var token := r.lower(raw);
      if token in exclude {
        continue;
      }
      assert forall t :: t in Tokens(r, runs[..i + 1], exclude) ==> t in Tokens(r, runs, exclude) by {
        TokensGrow(r, runs, i + 1, exclude);
      }
      kept, tags := Consider(r.tag, kept, tags, token, cap, Tokens(r, runs[..i], exclude));
      held := Max(held, |kept|);
    }
    assert runs[..|runs|] == runs;
  }

  /** One token against the heap. */
  method Consider(tag: string -> nat, kept: seq<string>, tags: set<nat>, token: string, cap: nat, ghost all: set<string>)
    returns (kept': seq<string>, tags': set<nat>)
    requires Distinguishes(tag, all + {token}) && cap > 0 && Sample(tag, kept, all, cap) && tags == TagsOf(tag, kept)
    ensures Sample(tag, kept', all + {token}, cap) && tags' == TagsOf(tag, kept')
  {
    kept', tags' := kept, tags;
    if tag(token) in tags {
      KeptAgain(tag, kept, all, token, cap);
    } else if |kept| < cap {
      RoomForOne(tag, kept, all, token, cap);
      TagsInserted(tag, kept, token);
      kept' := Inserted(tag, kept, token);
      tags' := tags + {tag(token)};
    } else {
      assert Last(kept) in kept;
      if tag(token) < tag(Last(kept)) {
        WorstGoes(tag, kept, all, token, cap);
        TagsWithoutWorst(tag, kept);
        TagsInserted(tag, Most(kept), token);
        tags' := tags - {tag(Last(kept))} + {tag(token)};
        kept' := Inserted(tag, Most(kept), token);
      } else {
        assert tag(Last(kept)) in tags;
        PassedOver(tag, kept, all, token, cap);
      }
    }
  }

  // ----- Tokens in order of appearance -----

  /** The first `most` distinct tokens. */
  method TokenizeBounded(r: Reader, text: string, most: nat) returns (tokens: seq<string>)
    ensures NoDuplicates(tokens) && |tokens| <= most
    ensures Elements(tokens) <= Tokens(r, r.runs(text), {})
    ensures |tokens| < most ==> Elements(tokens) == Tokens(r, r.runs(text), {})
  {
    tokens := [];
    var runs := r.runs(text);
    assert Tokens(r, [], {}) == {};
    for i := 0 to |runs|
      invariant NoDuplicates(tokens) && |tokens| <= most
      invariant Elements(tokens) == Tokens(r, runs[..i], {})
    {
      if |tokens| >= most {
        assert forall raw :: raw in runs[..i] ==> raw in runs;
        return;
      }
      TokensOneMore(r, runs[..i], runs[i], {});
      assert runs[..i + 1] == runs[..i] + [runs[i]];
      if RightLength(runs[i]) {
        var token := r.lower(runs[i]);
        if token !in tokens {
          assert Elements(tokens + [token]) == Elements(tokens) + {token};
          tokens := tokens + [token];
        }
      }
    }
    assert runs[..|runs|] == runs;
  }

  // ----- Lessons -----

  /** The sample as a function of the set of tokens. */
  function Sampled(tag: string -> nat, all: set<string>, cap: nat): seq<string>
    requires Distinguishes(tag, all)
  {
    if cap == 0 || all == {} then []
    else var first := Smallest(tag, all); [first] + Sampled(tag, all - {first}, cap - 1)
  }

  predicate IsSmallest(tag: string -> nat, all: set<string>, t: string) {
    t in all && forall u :: u in all ==> tag(t) <= tag(u)
  }

  lemma {:induction false} SmallerOfTwo(tag: string -> nat, all: set<string>, t: string, t': string)
    requires t in all && IsSmallest(tag, all - {t}, t')
    ensures IsSmallest(tag, all, if tag(t) <= tag(t') then t else t')
  {
    assert all == (all - {t}) + {t};
  }

  lemma {:induction false} SmallestExists(tag: string -> nat, all: set<string>)
    requires all != {}
    ensures exists t :: IsSmallest(tag, all, t)
  {
    var t :| t in all;
    if all == {t} {
      assert IsSmallest(tag, all, t);
    } else {
      SmallestExists(tag, all - {t});
      var t' :| IsSmallest(tag, all - {t}, t');
      SmallerOfTwo(tag, all, t, t');
    }
  }

  function Smallest(tag: string -> nat, all: set<string>): (t: string)
    requires all != {} && Distinguishes(tag, all)
    ensures t in all && forall u :: u in all ==> tag(t) <= tag(u)
  {
    SmallestExists(tag, all);
    var t :| IsSmallest(tag, all, t);
    t
  }

  lemma {:induction false} SampleInFront(tag: string -> nat, first: string, rest: seq<string>, all: set<string>, cap: nat)
    requires Distinguishes(tag, all) && cap > 0 && first in all && forall u :: u in all ==> tag(first) <= tag(u)
    requires Sample(tag, rest, all - {first}, cap - 1)
    ensures Sample(tag, [first] + rest, all, cap)
  {
    var s := [first] + rest;
    assert forall x :: x in s <==> x == first || x in rest;
    forall x | x in all && x != first ensures tag(first) < tag(x) {
      assert tag(first) != tag(x);
    }
    forall i | 0 < i < |s| ensures tag(s[0]) < tag(s[i]) {
      assert s[i] == rest[i - 1] && rest[i - 1] in rest;
    }
    forall x | x in all && x !in s ensures |s| == cap && forall y :: y in s ==> tag(y) < tag(x) {
      assert x in all - {first} && x !in rest;
    }
  }

  lemma {:induction false} SampledIsSample(tag: string -> nat, all: set<string>, cap: nat)
    requires Distinguishes(tag, all)
    ensures Sample(tag, Sampled(tag, all, cap), all, cap)
    decreases cap
  {
    if cap > 0 && all != {} {
      var first := Smallest(tag, all);
      SampledIsSample(tag, all - {first}, cap - 1);
      SampleInFront(tag, first, Sampled(tag, all - {first}, cap - 1), all, cap);
    }
  }

  /** Cutting to as many tokens as were kept cuts to the same tokens. */
  lemma {:induction false} SampledAgain(tag: string -> nat, all: set<string>, cap: nat)
    requires Distinguishes(tag, all)
    ensures Sampled(tag, all, |Sampled(tag, all, cap)|) == Sampled(tag, all, cap)
  {
    var s := Sampled(tag, all, cap);
    SampledIsSample(tag, all, cap);
    SampledIsSample(tag, all, |s|);
    SampleIsDetermined(tag, s, Sampled(tag, all, |s|), all, |s|);
  }

  /** The hashed tokens a message teaches: the fingerprints of its sample, sorted. */
  function Lesson(tag: string -> nat, hex: nat -> string, all: set<string>, cap: nat): seq<string>
    requires Distinguishes(tag, all)
  {
    var s := Sampled(tag, all, cap);
    seq(|s|, i requires 0 <= i < |s| => hex(tag(s[i])))
  }

  lemma {:induction false} LessonFits(tag: string -> nat, hex: nat -> string, all: set<string>, cap: nat)
    requires Distinguishes(tag, all) && Spells(hex)
    ensures var l := Lesson(tag, hex, all, cap);
            NoDuplicates(l) && |l| <= cap && Lesson(tag, hex, all, |l|) == l
  {
    SampledIsSample(tag, all, cap);
    SampledAgain(tag, all, cap);
  }

  /** The distinct tokens of the window of a text. */
  function WindowTokens(r: Reader, text: string): set<string> {
    Tokens(r, r.runs(r.window(text)), {})
  }

  /** Taught from samples, the ledger's lessons are what its own proofs ask of them. */
  lemma {:induction false} LessonsAreSound(r: Reader, hex: nat -> string, st: Ledger.Store)
    requires (forall text :: Distinguishes(r.tag, WindowTokens(r, text))) && Spells(hex)
    requires forall t, u :: st.digest(t) == st.digest(u) ==> t == u
    requires forall text, cap :: st.lesson(text, cap) == Lesson(r.tag, hex, WindowTokens(r, text), cap)
    ensures Ledger.Sound(st)
  {
    forall text, cap ensures Ledger.LessonOk(st, text, cap) {
      LessonFits(r.tag, hex, WindowTokens(r, text), cap);
    }
  }

  /** A message whose tokens fit teaches all of them. */
  lemma {:induction false} FittingIsWhole(tag: string -> nat, all: set<string>, s: seq<string>, cap: nat)
    requires Distinguishes(tag, all) && NoDuplicates(s) && Elements(s) == all && |s| <= cap
    ensures Elements(Sampled(tag, all, cap)) == all
  {
    var r := Sampled(tag, all, cap);
    SampledIsSample(tag, all, cap);
    CardinalityOfElements(s);
    RisingHasNoDuplicates(tag, r);
    CardinalityOfElements(r);
    if x :| x in all && x !in r {
      assert Elements(r) <= all - {x};
      SubsetCardinality(Elements(r), all - {x});
      assert false;
    }
  }

  // ----- The lesson, computed -----

  /** The order of strings, octet by octet. */
  predicate Lex(a: string, b: string) {
    b != [] && (a == [] || a[0] < b[0] || (a[0] == b[0] && Lex(a[1..], b[1..])))
  }

  lemma {:induction false} LexIsAsymmetric(a: string, b: string)
    ensures Lex(a, b) ==> !Lex(b, a)
  {
    if a != [] && b != [] {
      LexIsAsymmetric(a[1..], b[1..]);
    }
  }

  lemma {:induction false} LexIsTotal(a: string, b: string)
    ensures a == b || Lex(a, b) || Lex(b, a)
  {
    if a != [] && b != [] && a[0] == b[0] {
      LexIsTotal(a[1..], b[1..]);
      assert a == [a[0]] + a[1..] && b == [b[0]] + b[1..];
    }
  }

  lemma {:induction false} LexIsTransitive(a: string, b: string, c: string)
    requires Lex(a, b) && Lex(b, c)
    ensures Lex(a, c)
  {
    if a != [] && a[0] == b[0] == c[0] {
      LexIsTransitive(a[1..], b[1..], c[1..]);
    }
  }

  /** `s` in order with `x` in its place, once. */
  function Placed(s: seq<string>, x: string): seq<string> {
    if s == [] || Lex(Last(s), x) then s + [x]
    else if Last(s) == x then s
    else Placed(Most(s), x) + [Last(s)]
  }

  lemma {:induction false} AfterLast(s: seq<string>, x: string)
    requires Increasing(Lex, s) && s != [] && Lex(Last(s), x)
    ensures Increasing(Lex, s + [x])
  {
    forall i | 0 <= i < |s| ensures Lex(s[i], x) {
      if i < |s| - 1 {
        LexIsTransitive(s[i], Last(s), x);
      }
    }
  }

  lemma {:induction false} BeforeLast(front: seq<string>, x: string)
    requires Increasing(Lex, front) && forall y :: y in front ==> Lex(y, x)
    ensures Increasing(Lex, front + [x])
  {
    forall i | 0 <= i < |front| ensures Lex(front[i], x) {
      assert front[i] in front;
    }
  }

  lemma {:induction false} PlacedElements(s: seq<string>, x: string)
    ensures Elements(Placed(s, x)) == Elements(s) + {x}
  {
    if s == [] || Lex(Last(s), x) {
      assert Elements(s + [x]) == Elements(s) + {x};
    } else if Last(s) != x {
      PlacedElements(Most(s), x);
      var front := Placed(Most(s), x);
      assert Elements(front + [Last(s)]) == Elements(front) + {Last(s)};
      assert Elements(s) == Elements(Most(s)) + {Last(s)};
    } else {
      assert x in Elements(s);
    }
  }

  lemma {:induction false} PlacedIncreases(s: seq<string>, x: string)
    requires Increasing(Lex, s)
    ensures Increasing(Lex, Placed(s, x))
  {
    if s != [] {
      if Lex(Last(s), x) {
        AfterLast(s, x);
      } else if Last(s) != x {
        var front := Placed(Most(s), x);
        PlacedIncreases(Most(s), x);
        PlacedElements(Most(s), x);
        LexIsTotal(Last(s), x);
        forall y | y in front ensures Lex(y, Last(s)) {
          assert y in Elements(front);
        }
        BeforeLast(front, Last(s));
      }
    }
  }

  /** Sorts, and leaves out repeats. */
  method SortedOnce(xs: seq<string>) returns (s: seq<string>)
    ensures Increasing(Lex, s) && Elements(s) == Elements(xs)
  {
    s := [];
    for i := 0 to |xs|
      invariant Increasing(Lex, s) && Elements(s) == Elements(xs[..i])
    {
      PlacedIncreases(s, xs[i]);
      PlacedElements(s, xs[i]);
      s := Placed(s, xs[i]);
      assert xs[..i + 1] == xs[..i] + [xs[i]];
    }
    assert xs[..|xs|] == xs;
  }

  /** The written form of fingerprints keeps their order, as 64 digits in base 16 do. */
  ghost predicate KeepsOrder(hex: nat -> string) {
    forall m: nat, n: nat :: m < n < TAGS ==> Lex(hex(m), hex(n))
  }

  /** `n` in so many digits of base 16, in lower case. */
  function Hex(n: nat, w: nat): string
    requires n < Sixteens(w)
  {
    if w == 0 then ""
    else [HexDigit(n / Sixteens(w - 1))] + Hex(n % Sixteens(w - 1), w - 1)
  }

  function HexDigit(d: int): char {
    if 0 <= d < 10 then '0' + d as char else if 10 <= d < 16 then 'a' + (d - 10) as char else 'g'
  }

  lemma {:induction false} DigitsAndRest(m: nat, n: nat, q: nat)
    requires 0 < q && m < n < 16 * q
    ensures 0 <= m / q <= n / q < 16 && (m / q == n / q ==> m % q < n % q)
  {
    assert m == q * (m / q) + m % q && n == q * (n / q) + n % q;
    if m / q > n / q {
      TimesMore(q, n / q, m / q);
    }
    if n / q >= 16 {
      TimesMore(q, 15, n / q);
    }
  }

  lemma {:induction false} NotNegative(q: nat, k: nat)
    ensures q * k >= 0
  {
  }

  lemma {:induction false} TimesMore(q: nat, a: int, b: int)
    requires a < b
    ensures q * b >= q * a + q
  {
    var k := b - a - 1;
    assert q * b == q * a + q + q * k;
    NotNegative(q, k);
  }

  lemma {:induction false} HexRises(m: nat, n: nat, w: nat)
    requires m < n < Sixteens(w)
    ensures Lex(Hex(m, w), Hex(n, w))
  {
    if w > 0 {
      var q := Sixteens(w - 1);
      DigitsAndRest(m, n, q);
      var a, b := Hex(m, w), Hex(n, w);
      assert a[1..] == Hex(m % q, w - 1) && b[1..] == Hex(n % q, w - 1);
      if m / q == n / q {
        HexRises(m % q, n % q, w - 1);
      } else {
        assert HexDigit(m / q) < HexDigit(n / q);
      }
    }
  }

  lemma {:induction false} SameQuotient(n: nat, q: nat, a: nat, b: nat)
    requires n == q * a + b && b < q
    ensures n / q == a && n % q == b
  {
    assert n == q * (n / q) + n % q;
    if n / q < a {
      TimesMore(q, n / q, a);
    } else if n / q > a {
      TimesMore(q, a, n / q);
    }
  }

  lemma {:induction false} SixteenTimes(n: nat, d: nat, q: nat)
    requires q > 0 && d < 16
    ensures (16 * n + d) / (16 * q) == n / q && (16 * n + d) % (16 * q) == 16 * (n % q) + d
  {
    var a, b := n / q, n % q;
    assert n == q * a + b;
    assert 16 * n + d == (16 * q) * a + (16 * b + d) by {
      assert 16 * (q * a) == (16 * q) * a;
    }
    NotNegative(q, a);
    SameQuotient(16 * n + d, 16 * q, a, 16 * b + d);
  }

  /** One digit more is sixteen times the number and the digit, and the digits are these. */
  lemma {:induction false} HexExactly(n: nat, d: nat, w: nat)
    requires n < Sixteens(w) && d < 16
    ensures Hex(16 * n + d, w + 1) == Hex(n, w) + ["0123456789abcdef"[d]]
  {
    if w == 0 {
      assert Sixteens(0) == 1 && n == 0 && d / 1 == d && d % 1 == 0;
      assert Hex(d, 1) == [HexDigit(d)] + Hex(0, 0);
    } else {
      var q := Sixteens(w - 1);
      SixteenTimes(n, d, q);
      HexExactly(n % q, d, w - 1);
      Regroup([HexDigit(n / q)], Hex(n % q, w - 1), ["0123456789abcdef"[d]]);
    }
  }

  /** Fingerprints written in 64 digits are told apart and sort as numbers. */
  lemma {:induction false} HexIsFaithful(hex: nat -> string)
    requires forall n: nat :: n < TAGS ==> hex(n) == Hex(n, HEX_DIGITS)
    ensures KeepsOrder(hex) && Spells(hex)
  {
    forall m: nat, n: nat | m < n < TAGS ensures Lex(hex(m), hex(n)) && hex(m) != hex(n) {
      HexRises(m, n, HEX_DIGITS);
      LexIsAsymmetric(hex(m), hex(n));
    }
  }

  function Hashed(tag: string -> nat, hex: nat -> string, s: seq<string>): (r: seq<string>)
    ensures |r| == |s| && forall i :: 0 <= i < |s| ==> r[i] == hex(tag(s[i]))
  {
    seq(|s|, i requires 0 <= i < |s| => hex(tag(s[i])))
  }

  lemma {:induction false} HashedElements(tag: string -> nat, hex: nat -> string, a: seq<string>, b: seq<string>)
    requires Elements(a) <= Elements(b)
    ensures Elements(Hashed(tag, hex, a)) <= Elements(Hashed(tag, hex, b))
  {
    forall h | h in Hashed(tag, hex, a) ensures h in Hashed(tag, hex, b) {
      var i :| 0 <= i < |a| && Hashed(tag, hex, a)[i] == h;
      assert a[i] in Elements(b);
      var j :| 0 <= j < |b| && b[j] == a[i];
      assert Hashed(tag, hex, b)[j] == h;
    }
  }

  /** Sorting the hashes of tokens gives the lesson whenever the tokens are the sample in any order. */
  lemma {:induction false} SortedIsLesson(tag: string -> nat, hex: nat -> string, all: set<string>, cap: nat, plain: seq<string>, sorted: seq<string>)
    requires Distinguishes(tag, all) && KeepsOrder(hex) && Elements(plain) == Elements(Sampled(tag, all, cap))
    requires Increasing(Lex, sorted) && Elements(sorted) == Elements(Hashed(tag, hex, plain))
    ensures sorted == Lesson(tag, hex, all, cap)
  {
    var s := Sampled(tag, all, cap);
    SampledIsSample(tag, all, cap);
    HashedElements(tag, hex, plain, s);
    HashedElements(tag, hex, s, plain);
    assert Lesson(tag, hex, all, cap) == Hashed(tag, hex, s);
    forall a, b ensures Lex(a, b) ==> !Lex(b, a) {
      LexIsAsymmetric(a, b);
    }
    OrderIsDetermined(Lex, sorted, Lesson(tag, hex, all, cap));
  }

  /** The distinct tokens of the window, or a sample of them where they do not fit. */
  method CutToFit(r: Reader, text: string, cap: nat) returns (plain: seq<string>)
    requires Distinguishes(r.tag, WindowTokens(r, text))
    ensures Elements(plain) == Elements(Sampled(r.tag, WindowTokens(r, text), cap))
  {
    var window := r.window(text);
    ghost var all := WindowTokens(r, text);
    plain := TokenizeBounded(r, window, cap + 1);
    if |plain| <= cap {
      FittingIsWhole(r.tag, all, plain, cap);
    } else {
      ghost var held;
      plain, held := SampleWithout(r, window, cap, {});
      SampledIsSample(r.tag, all, cap);
      SampleIsDetermined(r.tag, plain, Sampled(r.tag, all, cap), all, cap);
    }
  }

  /** The hashed tokens one message teaches, from its text. */
  method LessonTokens(r: Reader, hex: nat -> string, text: string, cap: nat) returns (hashed: seq<string>)
    requires Distinguishes(r.tag, WindowTokens(r, text)) && KeepsOrder(hex)
    ensures hashed == Lesson(r.tag, hex, WindowTokens(r, text), cap)
  {
    var plain := CutToFit(r, text, cap);
    hashed := SortedOnce(Hashed(r.tag, hex, plain));
    SortedIsLesson(r.tag, hex, WindowTokens(r, text), cap, plain, hashed);
  }
}
