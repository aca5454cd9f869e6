/**
 * The stored form of a mail address: trimmed, the local part in lower case, the
 * domain as its ASCII label where the domain rules accept it and merely in lower
 * case where they refuse it. What Unicode does is a parameter.
 */
module Addresses {
  import opened Basics

  /** `accept` is the strict form of a domain, or a refusal. */
  datatype Unicode = Unicode(trim: string -> string, lower: string -> string, accept: string -> Option<string>)

  function StoredDomain(u: Unicode, raw: string): string {
    var domain := u.trim(raw);
    match u.accept(domain)
    case Some(ascii) => ascii
    case None => u.lower(domain)
  }

  /** Where the last `@` is. */
  function LastAt(s: string): (i: Option<nat>)
    ensures i.None? ==> '@' !in s
    ensures i.Some? ==> i.value < |s| && s[i.value] == '@' && '@' !in s[i.value + 1..]
  {
    if s == [] then None
    else if Last(s) == '@' then Some(|s| - 1)
    else
      match LastAt(Most(s))
      case None =>
        assert s == Most(s) + [Last(s)];
        None
      case Some(i) =>
        assert s[i + 1..] == Most(s)[i + 1..] + [Last(s)];
        Some(i)
  }

  function StoredAddress(u: Unicode, raw: string): string {
    var s := u.trim(raw);
    match LastAt(s)
    case None => u.lower(s)
    case Some(i) => u.lower(s[..i]) + "@" + StoredDomain(u, s[i + 1..])
  }

  // ----- What is asked of Unicode -----

  /** An ASCII label: accepting it again changes nothing, and so does lower case. */
  predicate Label(u: Unicode, a: string) {
    '@' !in a && u.trim(a) == a && u.lower(a) == a && (u.accept(a) == None || u.accept(a) == Some(a))
  }

  ghost predicate Sound(u: Unicode) {
    && (forall s :: u.trim(u.trim(s)) == u.trim(s))
    && (forall s :: '@' in u.trim(s) <==> '@' in s)
    && (forall s :: u.lower(u.lower(s)) == u.lower(s))
    && (forall s :: '@' in u.lower(s) <==> '@' in s)
    && (forall s :: u.trim(s) == s ==> u.trim(u.lower(s)) == u.lower(s))
    && (forall d :: u.accept(d).Some? ==> Label(u, u.accept(d).value))
    && (forall l, d, e :: u.trim(l + "@" + d) == l + "@" + d && u.trim(e) == e ==> Trimmed(u, l, e))
  }

  /** Nothing to trim at either end of an address put together from stored parts. */
  predicate Trimmed(u: Unicode, local: string, domain: string) {
    u.trim(u.lower(local) + "@" + domain) == u.lower(local) + "@" + domain
  }

  // ----- A domain -----

  lemma {:induction false} DomainIsClean(u: Unicode, raw: string)
    requires Sound(u) && '@' !in raw
    ensures '@' !in StoredDomain(u, raw) && u.trim(StoredDomain(u, raw)) == StoredDomain(u, raw)
  {
  }

  /** The lower case of a refused domain is accepted, under another spelling. */
  predicate AcceptedLate(u: Unicode, raw: string) {
    var domain := u.trim(raw);
    u.accept(domain).None? && u.accept(u.lower(domain)).Some? && u.accept(u.lower(domain)).value != u.lower(domain)
  }

  lemma {:induction false} DomainOwnExactlyWhen(u: Unicode, raw: string)
    requires Sound(u)
    ensures StoredDomain(u, StoredDomain(u, raw)) == StoredDomain(u, raw) <==> !AcceptedLate(u, raw)
    ensures StoredDomain(u, StoredDomain(u, StoredDomain(u, raw))) == StoredDomain(u, StoredDomain(u, raw))
  {
    var domain := u.trim(raw);
    if u.accept(domain).Some? {
      assert Label(u, u.accept(domain).value);
    } else {
      var small := u.lower(domain);
      assert u.trim(small) == small;
      if u.accept(small).Some? {
        assert Label(u, u.accept(small).value);
      }
    }
  }

  // ----- An address -----

  lemma {:induction false} SplitsAgain(local: string, domain: string)
    requires '@' !in domain
    ensures var s := local + "@" + domain;
            LastAt(s) == Some(|local|) && s[..|local|] == local && s[|local| + 1..] == domain
  {
    var s := local + "@" + domain;
    assert s[|local|] == '@' && s[|local| + 1..] == domain;
    assert LastAt(s).Some?;
  }

  /** The stored form of a stored form, part by part. */
  lemma {:induction false} StoredAgain(u: Unicode, local: string, domain: string)
    requires Sound(u) && '@' !in domain && u.lower(local) == local
    requires u.trim(local + "@" + domain) == local + "@" + domain
    ensures StoredAddress(u, local + "@" + domain) == local + "@" + StoredDomain(u, domain)
    ensures '@' !in StoredDomain(u, domain)
    ensures u.trim(local + "@" + StoredDomain(u, domain)) == local + "@" + StoredDomain(u, domain)
  {
    SplitsAgain(local, domain);
    DomainIsClean(u, domain);
    assert Trimmed(u, local, StoredDomain(u, domain));
  }

  lemma {:induction false} StoredParts(u: Unicode, raw: string, local: string, domain: string)
    requires Sound(u) && '@' !in domain && u.trim(raw) == local + "@" + domain
    ensures var small, first := u.lower(local), StoredDomain(u, domain);
            && StoredAddress(u, raw) == small + "@" + first
            && StoredAddress(u, small + "@" + first) == small + "@" + StoredDomain(u, first)
            && StoredAddress(u, small + "@" + StoredDomain(u, first)) == small + "@" + StoredDomain(u, StoredDomain(u, first))
  {
    var small, first := u.lower(local), StoredDomain(u, domain);
    SplitsAgain(local, domain);
    DomainIsClean(u, domain);
    assert u.trim(local + "@" + domain) == local + "@" + domain;
    assert Trimmed(u, local, first);
    StoredAgain(u, small, first);
    StoredAgain(u, small, StoredDomain(u, first));
  }

  /** The domain part of an address is one that is accepted late. */
  predicate LateAddress(u: Unicode, raw: string) {
    var s := u.trim(raw);
    LastAt(s).Some? && AcceptedLate(u, s[LastAt(s).value + 1..])
  }

  /**
   * The second stored form is always the last one; the first is already the
   * last exactly when its domain is not one refused as written and accepted in
   * lower case.
   */
  lemma {:induction false} OwnStoredFormExactlyWhen(u: Unicode, raw: string)
    requires Sound(u)
    ensures StoredAddress(u, StoredAddress(u, raw)) == StoredAddress(u, raw) <==> !LateAddress(u, raw)
    ensures StoredAddress(u, StoredAddress(u, StoredAddress(u, raw))) == StoredAddress(u, StoredAddress(u, raw))
  {
    var s := u.trim(raw);
    match LastAt(s)
    case None =>
      assert u.trim(u.lower(s)) == u.lower(s) && '@' !in u.lower(s);
    case Some(i) =>
      var local, domain := s[..i], s[i + 1..];
      assert s == local + "@" + domain;
      StoredParts(u, raw, local, domain);
      DomainOwnExactlyWhen(u, domain);
      SamePart(u.lower(local) + "@", StoredDomain(u, StoredDomain(u, domain)), StoredDomain(u, domain));
  }

  lemma {:induction false} SamePart(front: string, a: string, b: string)
    ensures front + a == front + b <==> a == b
  {
    assert a == (front + a)[|front|..] && b == (front + b)[|front|..];
  }

  // ----- A domain accepted late -----

  const CAPITALS := "\U{0422}\U{0412}.example"
  const SMALL := "\U{0442}\U{0432}.example"
  const ASCII := "xn--b1a5a.example"

  function SmallLetter(c: char): char {
    if c == '\U{0422}' then '\U{0442}' else if c == '\U{0412}' then '\U{0432}' else c
  }

  function SmallLetters(s: string): (r: string)
    ensures |r| == |s| && forall i :: 0 <= i < |s| ==> r[i] == SmallLetter(s[i])
  {
    seq(|s|, i requires 0 <= i < |s| => SmallLetter(s[i]))
  }

  /** Two Cyrillic letters, written as code points: the capitals are taken for Latin ones and refused, the small ones are not. */
  const CYRILLIC := Unicode(s => s, s => SmallLetters(s), d => if d == SMALL then Some(ASCII) else None)

  lemma {:induction false} CyrillicIsSound()
    ensures Sound(CYRILLIC)
  {
    var u := CYRILLIC;
    forall s ensures u.lower(u.lower(s)) == u.lower(s) && ('@' in u.lower(s) <==> '@' in s) {
      assert forall i :: 0 <= i < |s| ==> (s[i] == '@' <==> u.lower(s)[i] == '@');
    }
    assert SmallLetters(ASCII) == ASCII;
    assert ASCII != SMALL by {
      assert ASCII[0] != SMALL[0];
    }
  }

  lemma {:induction false} OneSpelling(domain: string)
    requires '@' !in domain
    ensures StoredAddress(CYRILLIC, "x@" + domain) == "x@" + StoredDomain(CYRILLIC, domain)
    ensures LateAddress(CYRILLIC, "x@" + domain) <==> AcceptedLate(CYRILLIC, domain)
  {
    assert "x@" + domain == "x" + "@" + domain;
    SplitsAgain("x", domain);
    assert SmallLetters("x") == "x";
    assert "x" + "@" + StoredDomain(CYRILLIC, domain) == "x@" + StoredDomain(CYRILLIC, domain);
  }

  lemma {:induction false} ThreeDomains()
    ensures StoredDomain(CYRILLIC, CAPITALS) == SMALL && StoredDomain(CYRILLIC, SMALL) == ASCII
    ensures StoredDomain(CYRILLIC, ASCII) == ASCII && AcceptedLate(CYRILLIC, CAPITALS) && SMALL != ASCII
  {
    assert CAPITALS[0] != SMALL[0] && ASCII[0] != SMALL[0];
    assert SmallLetters(CAPITALS) == SMALL && SmallLetters(ASCII) == ASCII;
  }

  /** Three spellings of one address, each the stored form of the one before. */
  lemma {:induction false} ThreeSpellings()
    ensures StoredAddress(CYRILLIC, "x@" + CAPITALS) == "x@" + SMALL
    ensures StoredAddress(CYRILLIC, "x@" + SMALL) == "x@" + ASCII
    ensures StoredAddress(CYRILLIC, "x@" + ASCII) == "x@" + ASCII
    ensures "x@" + SMALL != "x@" + ASCII && LateAddress(CYRILLIC, "x@" + CAPITALS)
  {
    OneSpelling(CAPITALS);
    OneSpelling(SMALL);
    OneSpelling(ASCII);
    ThreeDomains();
    SamePart("x@", SMALL, ASCII);
  }
}
