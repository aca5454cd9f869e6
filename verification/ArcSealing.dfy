/** What a hop writes into its three ARC fields, and what is wrong with fields that make no chain (src/arc). */
module ArcSealing {
  import opened Basics
  import opened Text
  import opened ArcTags
  import opened TextLaws
  import opened Arc
  import opened ArcHops
  import opened ArcMeaning

  predicate HasField(headers: seq<Header>, name: string) { exists i :: 0 <= i < |headers| && Lower(headers[i].0) == name }

  /** Only fields of the other names are taken. */
  predicate OthersOnly(headers: seq<Header>, used: set<nat>, names: seq<string>) {
    forall i :: i in used && i < |headers| ==> Lower(headers[i].0) !in names
  }

  /** Of different names in small letters, those with a field are found. */
  lemma {:induction false} PresentSifted(headers: seq<Header>, names: seq<string>, used: set<nat>, has: string -> bool)
    requires NoDuplicates(names) && (forall n :: n in names ==> Lower(n) == n) && OthersOnly(headers, used, names)
    requires forall n :: has(n) <==> HasField(headers, n)
    ensures Sifted(names, Present(headers, names, used), has)
  {
    if names != [] {
      var name, rest := names[0], names[1..];
      assert name in names && forall n :: n in rest ==> n in names;
      LowestExactly(headers, used, name, |headers|);
      match LowestUnused(headers, used, name, |headers|)
      case None =>
        PresentSifted(headers, rest, used, has);
        assert !HasField(headers, name);
      case Some(i) =>
        assert HasField(headers, name);
        assert name !in rest;
        PresentSifted(headers, rest, used + {i}, has);
        assert ([name] + Present(headers, rest, used + {i}))[1..] == Present(headers, rest, used + {i});
    }
  }

  lemma {:induction false} SignedNames(headers: seq<Header>)
    ensures Sifted(["from", "to", "cc", "subject", "date", "message-id"], Present(headers, SIGNED_HEADERS, {}), n => HasField(headers, n))
  {
    var names := ["from", "to", "cc", "subject", "date", "message-id"];
    forall n | n in names ensures Lower(n) == n {
      SignedNamesArePlain(n);
    }
    assert NoDuplicates(names) by {
      assert |names[0]| == 4 && |names[1]| == 2 && |names[2]| == 2 && |names[3]| == 7 && |names[4]| == 4 && |names[5]| == 10;
      assert names[1][0] != names[2][0] && names[0][0] != names[4][0];
    }
    PresentSifted(headers, names, {}, n => HasField(headers, n));
  }

  /**
   * A hop signs when the message has a From field. Its signature says so: this
   * instance, the sealer's domain and selector, the hash of the body, and those
   * of the six fields the message has.
   */
  lemma {:induction false} SignatureSays(net: Net, sealer: Sealer, n: nat, m: Message)
    requires Sound(net) && Published(net, sealer) && 1 <= n <= 50
    ensures BuildAms(net, sealer, n, m).Some? <==> HasField(m.headers, "from")
    ensures BuildAms(net, sealer, n, m).Some? ==>
      exists names, b ::
        && SaysSignature(net, BuildAms(net, sealer, n, m).value,
                         Signature(n, Ed25519Sha256, Lower(Compact(sealer.domain)), Lower(Compact(sealer.selector)), names,
                                   net.bodyHash(Relaxed, m.body), b, Relaxed, Relaxed))
        && Sifted(["from", "to", "cc", "subject", "date", "message-id"], names, name => HasField(m.headers, name))
  {
    var names := Present(m.headers, SIGNED_HEADERS, {});
    SignedNames(m.headers);
    SiftedMembers(["from", "to", "cc", "subject", "date", "message-id"], names, name => HasField(m.headers, name), "from");
    AmsWhen(net, sealer, n, m);
    if BuildAms(net, sealer, n, m).Some? {
      var b := BuiltSignature(net, sealer, n, m);
      SignatureExactly(net, BuildAms(net, sealer, n, m).value,
                       Signature(n, Ed25519Sha256, Lower(Compact(sealer.domain)), Lower(Compact(sealer.selector)), names,
                                 net.bodyHash(Relaxed, m.body), b, Relaxed, Relaxed));
    }
  }

  lemma {:induction false} BuiltSignature(net: Net, sealer: Sealer, n: nat, m: Message) returns (b: string)
    requires Sound(net) && Published(net, sealer) && 1 <= n <= 50 && BuildAms(net, sealer, n, m).Some?
    ensures ParseSignature(net, BuildAms(net, sealer, n, m).value) ==
      Some(Signature(n, Ed25519Sha256, Lower(Compact(sealer.domain)), Lower(Compact(sealer.selector)),
                     Present(m.headers, SIGNED_HEADERS, {}), net.bodyHash(Relaxed, m.body), b, Relaxed, Relaxed))
  {
    var names := Present(m.headers, SIGNED_HEADERS, {});
    PresentSelectsTheSame(Relaxed, m.headers, SIGNED_HEADERS, {});
    var front := AmsFront(net, sealer, n, names, m.body);
    var line := CanonHeader(Relaxed, "ARC-Message-Signature", Render(front + [("b", "")]));
    b := net.sign(sealer.key, SignedLines(Relaxed, m.headers, SIGNED_HEADERS, {}) + line[..|line| - 2]);
    EncodedIsDense(net, b);
    AmsFrontIsPlain(net, sealer, n, names, m.body);
    SignedValue(front, net.encode64(b));
    AmsIsParsed(net, sealer, n, names, m.body, b);
  }

  /** The results field holds the instance, the domain and the results as they were found. */
  lemma {:induction false} ResultsAreRecorded(sealer: Sealer, n: nat, results: string)
    requires ';' !in sealer.domain
    ensures Split(AarValue(sealer, n, results), ';') == [" i=" + Decimal(n), " " + sealer.domain] + Split(" " + results, ';')
  {
    DecimalIsRead(n);
    var head, domain, rest := " i=" + Decimal(n), " " + sealer.domain, " " + results;
    assert AarValue(sealer, n, results) == head + [';'] + (domain + [';'] + rest);
    SplitAfterPlain(head, domain + [';'] + rest, ';');
    SplitAfterPlain(domain, rest, ';');
  }

  // ----- Fields that make no chain -----

  /** How many of the three fields of an instance there are. */
  function Parts(headers: seq<Header>, n: nat): nat {
    Indicator(Fields(headers, AAR, n) != []) + Indicator(Fields(headers, AMS, n) != []) + Indicator(Fields(headers, AS, n) != [])
  }

  /** The first instance short of its three fields, the others before it whole. */
  predicate FirstShort(headers: seq<Header>, n: nat) {
    1 <= n && Parts(headers, n) < 3 && forall k :: 1 <= k < n ==> Parts(headers, k) == 3
  }

  ghost predicate Doubled(headers: seq<Header>) {
    exists name, n: nat :: name in {AAR, AMS, AS} && |Fields(headers, name, n)| >= 2
  }

  lemma {:induction false} DoubledExactly(headers: seq<Header>)
    requires ArcHeaders(headers).Ok?
    ensures HasDuplicate(ArcHeaders(headers).value) <==> Doubled(headers)
  {
    var raws := ArcHeaders(headers).value;
    DuplicateExactly(raws);
    forall kind, n: nat ensures InSlot(raws, kind, n) == Fields(headers, NameOf(kind), n) {
      SlotsAreFields(headers, kind, n);
    }
    if HasDuplicate(raws) {
      var kind, n: nat :| |InSlot(raws, kind, n)| >= 2;
      assert |Fields(headers, NameOf(kind), n)| >= 2;
    }
    if name, n: nat :| name in {AAR, AMS, AS} && |Fields(headers, name, n)| >= 2 {
      var kind := if name == AAR then AuthResults else if name == AMS then MessageSignature else ArcSeal;
      assert |InSlot(raws, kind, n)| >= 2;
    }
  }

  lemma {:induction false} PartsExactly(headers: seq<Header>, n: nat)
    requires ArcHeaders(headers).Ok? && !HasDuplicate(ArcHeaders(headers).value)
    ensures InstanceAt(ArcHeaders(headers).value, n).Ok? <==> Parts(headers, n) == 3
    ensures InstanceAt(ArcHeaders(headers).value, n) == Err(NonContiguous) <==> Parts(headers, n) == 0
  {
    var raws := ArcHeaders(headers).value;
    forall kind ensures Slot(raws, kind, n).Some? <==> Fields(headers, NameOf(kind), n) != [] {
      SlotsAreFields(headers, kind, n);
      SlotIsFirst(raws, kind, n);
    }
    assert Slot(raws, AuthResults, n).Some? <==> Fields(headers, AAR, n) != [];
    assert Slot(raws, MessageSignature, n).Some? <==> Fields(headers, AMS, n) != [];
    assert Slot(raws, ArcSeal, n).Some? <==> Fields(headers, AS, n) != [];
  }

  lemma {:induction false} ShortStops(headers: seq<Header>, n: nat, k: nat, top: nat)
    requires ArcHeaders(headers).Ok? && !HasDuplicate(ArcHeaders(headers).value)
    requires 1 <= k <= n <= top && FirstShort(headers, n)
    ensures Instances(ArcHeaders(headers).value, k, top) == Err(if Parts(headers, n) == 0 then NonContiguous else Incomplete)
    decreases n - k
  {
    PartsExactly(headers, k);
    if k < n {
      ShortStops(headers, n, k + 1, top);
    }
  }

  /** An ARC field that names no number, or one not among `1..=50`. */
  predicate Unnumbered(headers: seq<Header>) {
    exists i :: 0 <= i < |headers| && IsArc(headers[i]) && InstanceTag(headers[i].1).None?
  }

  /** The first fault in this order is the one reported: no number, a number out of range, a field twice, an instance short. */
  lemma {:induction false} FaultExactly(headers: seq<Header>)
    ensures Unnumbered(headers) ==> Extract(headers) == Err(MalformedHeader)
    ensures !Unnumbered(headers) && !AllWithin(headers, 50) ==> Extract(headers) == Err(BadInstance)
    ensures AllWithin(headers, 50) && Doubled(headers) ==> Extract(headers) == Err(Duplicate)
    ensures forall n: nat, top: nat :: AllWithin(headers, 50) && !Doubled(headers) && FirstShort(headers, n) && n < top && Parts(headers, top) > 0 ==>
              Extract(headers) == Err(if Parts(headers, n) == 0 then NonContiguous else Incomplete)
    ensures forall n: nat :: AllWithin(headers, 50) && !Doubled(headers) && FirstShort(headers, n) && Parts(headers, n) > 0 ==>
              Extract(headers) == Err(Incomplete)
  {
    ReadsWhen(headers);
    if !Unnumbered(headers) {
      var raws := ArcHeaders(headers).value;
      ReadWithin(headers, 50);
      DoubledExactly(headers);
      assert forall i :: 0 <= i < |raws| ==> raws[i] in raws;
      if AllWithin(headers, 50) && Doubled(headers) {
        assert raws != [];
      }
      if AllWithin(headers, 50) && !Doubled(headers) {
        forall n: nat, top: nat | FirstShort(headers, n) && n <= top && Parts(headers, top) > 0
          ensures Extract(headers) == Err(if Parts(headers, n) == 0 then NonContiguous else Incomplete)
        {
          ShortIsReported(headers, n, top);
        }
      }
    }
  }

  lemma {:induction false} ShortIsReported(headers: seq<Header>, n: nat, top: nat)
    requires ArcHeaders(headers).Ok? && AllWithin(headers, 50) && !Doubled(headers)
    requires FirstShort(headers, n) && n <= top && Parts(headers, top) > 0
    ensures Extract(headers) == Err(if Parts(headers, n) == 0 then NonContiguous else Incomplete)
  {
    var raws := ArcHeaders(headers).value;
    ReadWithin(headers, 50);
    DoubledExactly(headers);
    SlotsAreFields(headers, AuthResults, top);
    SlotsAreFields(headers, MessageSignature, top);
    SlotsAreFields(headers, ArcSeal, top);
    var kind := if Fields(headers, AAR, top) != [] then AuthResults else if Fields(headers, AMS, top) != [] then MessageSignature else ArcSeal;
    var i := SomeInSlot(raws, kind, top);
    assert raws[i] in raws;
    HighestBounds(raws);
    assert forall j :: 0 <= j < |raws| ==> raws[j] in raws;
    ShortStops(headers, n, 1, Highest(raws));
  }
}
