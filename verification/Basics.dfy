/** Small vocabulary shared by the models. */
module Basics {

  datatype Option<+T> = None | Some(value: T)

  datatype Result<+T, +E> = Ok(value: T) | Err(error: E)

  /** The limits of the source's integers: 2^32 and 2^64, and the largest values below them. */
  const U32: nat := 0x1_0000_0000
  const U32_MAX: nat := 0xffff_ffff
  const U64: nat := 0x1_0000_0000_0000_0000
  const U64_MAX: nat := 0xffff_ffff_ffff_ffff
  const I64_MAX: nat := 0x7fff_ffff_ffff_ffff

  function Max(a: int, b: int): int { if a < b then b else a }

  function Min(a: int, b: int): int { if a < b then a else b }

  /** A sequence without its last element, and that element. */
  function Most<T>(s: seq<T>): seq<T>
    requires s != []
  {
    s[..|s| - 1]
  }

  function Last<T>(s: seq<T>): T
    requires s != []
  {
    s[|s| - 1]
  }

  lemma {:induction false} Regroup<T>(a: seq<T>, b: seq<T>, c: seq<T>)
    ensures a + (b + c) == (a + b) + c
  {
  }

  ghost predicate NoDuplicates<T>(s: seq<T>)
  {
    forall i, j :: 0 <= i < j < |s| ==> s[i] != s[j]
  }

  function Elements<T>(s: seq<T>): set<T> { set x | x in s }

  lemma {:induction false} CardinalityOfElements<T>(s: seq<T>)
    requires NoDuplicates(s)
    ensures |Elements(s)| == |s|
  {
    if s != [] {
      CardinalityOfElements(Most(s));
      assert Elements(s) == Elements(Most(s)) + {Last(s)};
    }
  }

  lemma {:induction false} SubsetCardinality<T>(a: set<T>, b: set<T>)
    requires a <= b
    ensures |a| <= |b|
    ensures |a| == |b| ==> a == b
  {
    assert b == a + (b - a);
  }

  function Indicator(b: bool): int { if b then 1 else 0 }

  /** Two sets that differ at most in `d`. */
  lemma {:induction false} DifferInOne<T>(a: set<T>, b: set<T>, d: T)
    requires a - {d} == b - {d}
    ensures |b| - |a| == Indicator(d in b) - Indicator(d in a)
  {
    if d in a { assert a == (a - {d}) + {d}; } else { assert a == a - {d}; }
    if d in b { assert b == (b - {d}) + {d}; } else { assert b == b - {d}; }
  }

  lemma {:induction false} InsertedCardinality<K, V>(m: map<K, V>, k: K, v: V)
    ensures |m[k := v]| == |m| + Indicator(k !in m)
  {
    var keys := m[k := v].Keys;
    assert keys == m.Keys + {k};
    assert |keys| == |m[k := v]|;
  }

  // ----- What passes, in its order -----

  /** `part` is the elements of `all` that pass, each as often as it stands there and in that order. */
  predicate Sifted<T(==)>(all: seq<T>, part: seq<T>, passes: T -> bool)
  {
    if all == [] then part == []
    else if passes(all[0]) then part != [] && part[0] == all[0] && Sifted(all[1..], part[1..], passes)
    else Sifted(all[1..], part, passes)
  }

  lemma {:induction false} SiftedInFront<T>(x: T, all: seq<T>, part: seq<T>, passes: T -> bool)
    requires Sifted(all, part, passes)
    ensures Sifted([x] + all, (if passes(x) then [x] else []) + part, passes)
  {
    assert ([x] + all)[1..] == all && ([x] + part)[1..] == part && [] + part == part;
  }

  lemma {:induction false} SiftedBehind<T>(all: seq<T>, part: seq<T>, passes: T -> bool, x: T)
    requires Sifted(all, part, passes)
    ensures Sifted(all + [x], part + (if passes(x) then [x] else []), passes)
    decreases |all|
  {
    if all == [] {
      SiftedInFront(x, [], [], passes);
      assert [] + [x] == [x] + [];
    } else {
      var rest := if passes(all[0]) then part[1..] else part;
      SiftedBehind(all[1..], rest, passes, x);
      assert (all + [x])[1..] == all[1..] + [x];
      var more := if passes(x) then [x] else [];
      assert passes(all[0]) ==> (part + more)[1..] == part[1..] + more;
    }
  }

  lemma {:induction false} SiftedMembers<T>(all: seq<T>, part: seq<T>, passes: T -> bool, x: T)
    requires Sifted(all, part, passes)
    ensures x in part <==> x in all && passes(x)
    decreases |all|
  {
    if all != [] {
      assert all == [all[0]] + all[1..];
      if passes(all[0]) {
        assert part == [part[0]] + part[1..];
        SiftedMembers(all[1..], part[1..], passes, x);
      } else {
        SiftedMembers(all[1..], part, passes, x);
      }
    }
  }

  /** `part` is the elements of `all` outside `seen`, each where it first stands. */
  predicate Firsts<T(==)>(all: seq<T>, part: seq<T>, seen: set<T>)
  {
    if all == [] then part == []
    else if all[0] in seen then Firsts(all[1..], part, seen)
    else part != [] && part[0] == all[0] && Firsts(all[1..], part[1..], seen + {all[0]})
  }

  lemma {:induction false} FirstsBehind<T>(all: seq<T>, part: seq<T>, seen: set<T>, x: T)
    requires Firsts(all, part, seen)
    ensures Firsts(all + [x], part + (if x in seen || x in part then [] else [x]), seen)
    decreases |all|
  {
    if all == [] {
      assert (all + [x])[1..] == [] && (part + [x])[1..] == [];
    } else {
      assert (all + [x])[1..] == all[1..] + [x];
      if all[0] in seen {
        FirstsBehind(all[1..], part, seen, x);
      } else {
        var rest := part[1..];
        assert part == [part[0]] + rest;
        FirstsBehind(all[1..], rest, seen + {all[0]}, x);
        assert (part + [x])[1..] == rest + [x] && (part + [])[1..] == rest + [];
      }
    }
  }

  lemma {:induction false} FirstsMembers<T>(all: seq<T>, part: seq<T>, seen: set<T>, x: T)
    requires Firsts(all, part, seen)
    ensures x in part <==> x in all && x !in seen
    ensures NoDuplicates(part)
    decreases |all|
  {
    if all != [] {
      assert all == [all[0]] + all[1..];
      if all[0] in seen {
        FirstsMembers(all[1..], part, seen, x);
      } else {
        assert part == [part[0]] + part[1..];
        FirstsMembers(all[1..], part[1..], seen + {all[0]}, x);
        FirstsMembers(all[1..], part[1..], seen + {all[0]}, all[0]);
      }
    }
  }
}
