/**
 * What a verdict on an ARC chain means: which headers make a chain, the very text
 * each signature is checked on, and that a chain passes exactly when the keys
 * published for it verify those texts (src/arc, RFC 8617).
 */
module ArcMeaning {
  import opened Basics
  import opened Text
  import opened ArcTags
  import opened TextLaws
  import opened Arc
  import opened ArcHops

  // ----- A header line -----

  predicate Gap(c: char) { c in " \t\r\n" }

  /** The longest stretches without a gap. */
  function Words(s: string): (words: seq<string>)
    ensures s != "" && !Gap(s[0]) ==> words != []
  {
    if s == "" then []
    else if Gap(s[0]) then Words(s[1..])
    else if |s| == 1 || Gap(s[1]) then [[s[0]]] + Words(s[1..])
    else [[s[0]] + Words(s[1..])[0]] + Words(s[1..])[1..]
  }

  function Spaced(words: seq<string>): string {
    if words == [] then "" else if |words| == 1 then words[0] else words[0] + " " + Spaced(words[1..])
  }

  /** A field as it is signed, without the end of line. */
  function Line(canon: Canon, name: string, value: string): string {
    if canon == Simple then name + ":" + value else Lower(name) + ":" + Spaced(Words(value))
  }

  lemma {:induction false} MoreWords(s: string)
    requires s != "" && !Gap(s[0])
    ensures Spaced(Words(s)) ==
      if |s| > 1 && Gap(s[1]) && Words(s[1..]) != [] then [s[0]] + " " + Spaced(Words(s[1..])) else [s[0]] + Spaced(Words(s[1..]))
  {
    var rest := Words(s[1..]);
    if |s| == 1 || Gap(s[1]) {
      assert ([[s[0]]] + rest)[1..] == rest;
    } else {
      var all := [[s[0]] + rest[0]] + rest[1..];
      assert all[1..] == rest[1..];
      if |rest| > 1 {
        Regroup([s[0]], rest[0], " " + Spaced(rest[1..]));
        assert rest[0] + " " + Spaced(rest[1..]) == rest[0] + (" " + Spaced(rest[1..]));
        assert all[0] + " " + Spaced(rest[1..]) == all[0] + (" " + Spaced(rest[1..]));
      }
    }
  }

  /** What is read so far stays; the words left follow, one blank between words. */
  lemma {:induction false} CollapseIs(value: string, soFar: string, inSpace: bool)
    ensures Collapse(value, soFar, inSpace) ==
      if Words(value) == [] then soFar
      else Behind(soFar, inSpace || Gap(value[0]), Spaced(Words(value)))
    decreases |value|
  {
    if value != "" {
      var rest := value[1..];
      if Gap(value[0]) {
        CollapseIs(rest, soFar, true);
      } else {
        var more := soFar + (if inSpace && soFar != "" then " " else "") + [value[0]];
        CollapseIs(rest, more, false);
        MoreWords(value);
        AfterOne(soFar, inSpace, [value[0]], Spaced(Words(rest)));
        if Words(rest) == [] {
          assert more + "" == more;
        }
      }
    }
  }

  lemma {:induction false} AfterOne(soFar: string, inSpace: bool, first: string, tail: string)
    ensures var more := soFar + (if inSpace && soFar != "" then " " else "") + first;
      && more + tail == Behind(soFar, inSpace, first + tail)
      && more + " " + tail == Behind(soFar, inSpace, first + " " + tail)
  {
    var front := soFar + (if inSpace && soFar != "" then " " else "");
    Regroup(front, first, tail);
    Regroup(front, first, " " + tail);
    assert front + first + " " + tail == front + first + (" " + tail);
    assert first + " " + tail == first + (" " + tail);
  }

  function Behind(soFar: string, inSpace: bool, text: string): string {
    if soFar == "" then text else if inSpace then soFar + " " + text else soFar + text
  }

  /** The canonical field is its line and the end of line. */
  lemma {:induction false} LineIs(canon: Canon, name: string, value: string)
    ensures CanonHeader(canon, name, value) == Line(canon, name, value) + "\r\n"
    ensures Unended(CanonHeader(canon, name, value)) == Line(canon, name, value)
  {
    CollapseIs(value, "", false);
    var line := CanonHeader(canon, name, value);
    assert line == Line(canon, name, value) + "\r\n";
    assert line[|line| - 2..] == "\r\n" && line[..|line| - 2] == Line(canon, name, value);
  }

  // ----- The fields a message signature covers -----

  /** `pick` is the lowest field named `name` that no earlier pick took; none is left when it is nothing. */
  predicate LowestLeft(headers: seq<Header>, name: string, earlier: seq<Option<nat>>, pick: Option<nat>) {
    match pick
    case None => forall i: nat :: i < |headers| && Lower(headers[i].0) == Lower(name) ==> Some(i) in earlier
    case Some(p) =>
      && p < |headers| && Lower(headers[p].0) == Lower(name) && Some(p) !in earlier
      && forall i: nat :: p < i < |headers| && Lower(headers[i].0) == Lower(name) ==> Some(i) in earlier
  }

  /** One pick for each name, after those before. */
  predicate Picked(headers: seq<Header>, names: seq<string>, earlier: seq<Option<nat>>, picks: seq<Option<nat>>) {
    && |picks| == |names|
    && forall k :: 0 <= k < |names| ==> LowestLeft(headers, names[k], earlier + picks[..k], picks[k])
  }

  /** The lines of the picked fields. */
  function PickedLines(canon: Canon, headers: seq<Header>, picks: seq<Option<nat>>): string {
    if picks == [] then ""
    else
      (if picks[0].Some? && picks[0].value < |headers|
       then Line(canon, headers[picks[0].value].0, headers[picks[0].value].1) + "\r\n" else "")
      + PickedLines(canon, headers, picks[1..])
  }

  ghost predicate Took(earlier: seq<Option<nat>>, used: set<nat>) { forall i: nat :: i in used <==> Some(i) in earlier }

  lemma {:induction false} LowestExactly(headers: seq<Header>, used: set<nat>, name: string, n: nat)
    requires n <= |headers|
    ensures match LowestUnused(headers, used, name, n)
      case None => forall i: nat :: i < n && Lower(headers[i].0) == Lower(name) ==> i in used
      case Some(p) => forall i: nat :: p < i < n && Lower(headers[i].0) == Lower(name) ==> i in used
  {
    if n > 0 && !(n - 1 !in used && Lower(headers[n - 1].0) == Lower(name)) {
      LowestExactly(headers, used, name, n - 1);
    }
  }

  lemma {:induction false} LowestIsLeft(headers: seq<Header>, used: set<nat>, name: string, earlier: seq<Option<nat>>, pick: Option<nat>)
    requires Took(earlier, used)
    ensures LowestLeft(headers, name, earlier, pick) <==> pick == LowestUnused(headers, used, name, |headers|)
  {
    LowestExactly(headers, used, name, |headers|);
    var found := LowestUnused(headers, used, name, |headers|);
    assert LowestLeft(headers, name, earlier, found);
    if LowestLeft(headers, name, earlier, pick) && pick.Some? && found.Some? {
      assert pick.value == found.value;
    }
  }

  lemma {:induction false} NextPick(headers: seq<Header>, names: seq<string>, earlier: seq<Option<nat>>, picks: seq<Option<nat>>)
    requires names != [] && picks != []
    ensures Picked(headers, names, earlier, picks) <==>
      LowestLeft(headers, names[0], earlier, picks[0]) && Picked(headers, names[1..], earlier + [picks[0]], picks[1..])
  {
    forall k | 0 < k < |names| && |picks| == |names|
      ensures earlier + picks[..k] == (earlier + [picks[0]]) + picks[1..][..k - 1]
    {
      assert picks[..k] == [picks[0]] + picks[1..][..k - 1];
    }
    assert earlier + picks[..0] == earlier;
    if Picked(headers, names, earlier, picks) {
      forall k | 0 <= k < |names[1..]|
        ensures LowestLeft(headers, names[1..][k], (earlier + [picks[0]]) + picks[1..][..k], picks[1..][k])
      {
        assert LowestLeft(headers, names[k + 1], earlier + picks[..k + 1], picks[k + 1]);
      }
    }
    if LowestLeft(headers, names[0], earlier, picks[0]) && Picked(headers, names[1..], earlier + [picks[0]], picks[1..]) {
      forall k | 0 <= k < |names| ensures LowestLeft(headers, names[k], earlier + picks[..k], picks[k]) {
        if k > 0 {
          assert LowestLeft(headers, names[1..][k - 1], (earlier + [picks[0]]) + picks[1..][..k - 1], picks[1..][k - 1]);
        }
      }
    }
  }

  /** Whatever is picked so is what is signed. */
  lemma {:induction false} PickedIsSigned(canon: Canon, headers: seq<Header>, names: seq<string>, used: set<nat>,
                                          earlier: seq<Option<nat>>, picks: seq<Option<nat>>)
    requires Took(earlier, used) && Picked(headers, names, earlier, picks)
    ensures SignedLines(canon, headers, names, used) == PickedLines(canon, headers, picks)
    decreases |names|
  {
    if names != [] {
      NextPick(headers, names, earlier, picks);
      LowestIsLeft(headers, used, names[0], earlier, picks[0]);
      match picks[0]
      case None =>
        assert Took(earlier + [picks[0]], used);
        PickedIsSigned(canon, headers, names[1..], used, earlier + [picks[0]], picks[1..]);
      case Some(i) =>
        assert Took(earlier + [picks[0]], used + {i});
        LineIs(canon, headers[i].0, headers[i].1);
        PickedIsSigned(canon, headers, names[1..], used + {i}, earlier + [picks[0]], picks[1..]);
    }
  }

  /** Something can always be picked. */
  lemma {:induction false} PicksExist(headers: seq<Header>, names: seq<string>, used: set<nat>, earlier: seq<Option<nat>>)
    returns (picks: seq<Option<nat>>)
    requires Took(earlier, used)
    ensures Picked(headers, names, earlier, picks)
    decreases |names|
  {
    if names == [] {
      picks := [];
    } else {
      var first := LowestUnused(headers, used, names[0], |headers|);
      LowestIsLeft(headers, used, names[0], earlier, first);
      var now := if first.Some? then used + {first.value} else used;
      assert Took(earlier + [first], now);
      var rest := PicksExist(headers, names[1..], now, earlier + [first]);
      picks := [first] + rest;
      assert picks[1..] == rest;
      NextPick(headers, names, earlier, picks);
    }
  }

  // ----- The headers of a chain -----

  const AAR := "arc-authentication-results"
  const AMS := "arc-message-signature"
  const AS := "arc-seal"

  predicate IsArc(h: Header) { Lower(h.0) in {AAR, AMS, AS} }

  /** The values of the fields so named with instance `n`, in order. */
  function Fields(headers: seq<Header>, name: string, n: nat): seq<string> {
    if headers == [] then []
    else (if Lower(headers[0].0) == name && InstanceTag(headers[0].1) == Some(n) then [headers[0].1] else []) + Fields(headers[1..], name, n)
  }

  /** Every ARC field names one of the instances `1..=n`. */
  predicate AllWithin(headers: seq<Header>, n: nat) {
    forall i :: 0 <= i < |headers| && IsArc(headers[i]) ==> InstanceTag(headers[i].1).Some? && 1 <= InstanceTag(headers[i].1).value <= n
  }

  /** One field of each of the three names for each instance of `1..=n`, and no other ARC field. */
  predicate IsChain(headers: seq<Header>, chain: seq<Instance>) {
    && 1 <= |chain| <= 50 && AllWithin(headers, |chain|)
    && forall k :: 0 <= k < |chain| ==> IsInstance(headers, chain[k], k + 1)
  }

  predicate IsInstance(headers: seq<Header>, inst: Instance, n: nat) {
    && inst.instance == n
    && Fields(headers, AAR, n) == [inst.authResults]
    && Fields(headers, AMS, n) == [inst.messageSignature]
    && Fields(headers, AS, n) == [inst.seal]
  }

  function NameOf(kind: Kind): string { match kind case AuthResults => AAR case MessageSignature => AMS case ArcSeal => AS }

  /** The values of the headers read in one slot. */
  function InSlot(raws: seq<RawHeader>, kind: Kind, n: nat): seq<string> {
    if raws == [] then []
    else (if raws[0].kind == kind && raws[0].instance == n then [raws[0].value] else []) + InSlot(raws[1..], kind, n)
  }

  lemma {:induction false} InSlotAppends(a: seq<RawHeader>, b: seq<RawHeader>, kind: Kind, n: nat)
    ensures InSlot(a + b, kind, n) == InSlot(a, kind, n) + InSlot(b, kind, n)
  {
    if a == [] {
      assert a + b == b;
    } else {
      assert (a + b)[1..] == a[1..] + b;
      InSlotAppends(a[1..], b, kind, n);
    }
  }

  lemma {:induction false} KindExactly(name: string, kind: Kind)
    ensures KindOf(name) == Some(kind) <==> Lower(name) == NameOf(kind)
    ensures KindOf(name).None? <==> Lower(name) !in {AAR, AMS, AS}
  {
  }

  lemma {:induction false} SlotsAreFields(headers: seq<Header>, kind: Kind, n: nat)
    requires ArcHeaders(headers).Ok?
    ensures InSlot(ArcHeaders(headers).value, kind, n) == Fields(headers, NameOf(kind), n)
  {
    if headers != [] {
      SlotsAreFields(headers[1..], kind, n);
      KindExactly(headers[0].0, kind);
      var first := ReadHeader(headers[0]).value;
      InSlotAppends(first, ArcHeaders(headers[1..]).value, kind, n);
      if first != [] {
        assert first[1..] == [];
      }
    }
  }

  /** The headers are read exactly when every ARC field has a readable instance. */
  lemma {:induction false} ReadsWhen(headers: seq<Header>)
    ensures ArcHeaders(headers).Ok? <==> forall i :: 0 <= i < |headers| && IsArc(headers[i]) ==> InstanceTag(headers[i].1).Some?
    ensures ArcHeaders(headers).Err? ==> ArcHeaders(headers).error == MalformedHeader
  {
    if headers != [] {
      ReadsWhen(headers[1..]);
      KindExactly(headers[0].0, AuthResults);
      assert forall i :: 0 < i < |headers| ==> headers[i] == headers[1..][i - 1];
    }
  }

  lemma {:induction false} ReadWithin(headers: seq<Header>, n: nat)
    requires ArcHeaders(headers).Ok?
    ensures AllWithin(headers, n) <==> forall h :: h in ArcHeaders(headers).value ==> 1 <= h.instance <= n
  {
    if headers != [] {
      ReadWithin(headers[1..], n);
      KindExactly(headers[0].0, AuthResults);
      var first, rest := ReadHeader(headers[0]).value, ArcHeaders(headers[1..]).value;
      assert forall i :: 0 < i < |headers| ==> headers[i] == headers[1..][i - 1];
      assert forall h :: h in first + rest <==> h in first || h in rest;
      WithinInFront(headers, n);
    }
  }

  lemma {:induction false} WithinInFront(headers: seq<Header>, n: nat)
    requires headers != []
    ensures AllWithin(headers, n) <==> AllWithin([headers[0]], n) && AllWithin(headers[1..], n)
  {
    assert forall i :: 0 < i < |headers| ==> headers[i] == headers[1..][i - 1];
    if AllWithin([headers[0]], n) {
      assert [headers[0]][0] == headers[0];
    }
    if AllWithin(headers, n) {
      forall i | 0 <= i < |headers[1..]| && IsArc(headers[1..][i])
        ensures InstanceTag(headers[1..][i].1).Some? && 1 <= InstanceTag(headers[1..][i].1).value <= n
      {
        assert headers[1..][i] == headers[i + 1];
      }
    }
  }

  lemma {:induction false} SlotIsFirst(raws: seq<RawHeader>, kind: Kind, n: nat)
    ensures Slot(raws, kind, n) == if InSlot(raws, kind, n) == [] then None else Some(InSlot(raws, kind, n)[0])
  {
    if raws != [] { SlotIsFirst(raws[1..], kind, n); }
  }

  lemma {:induction false} SlotHolds(raws: seq<RawHeader>, i: nat)
    requires i < |raws|
    ensures InSlot(raws, raws[i].kind, raws[i].instance) != []
  {
    if i > 0 { SlotHolds(raws[1..], i - 1); }
  }

  lemma {:induction false} SlotHoldsTwo(raws: seq<RawHeader>, i: nat, j: nat)
    requires i < j < |raws| && SameSlot(raws[i], raws[j])
    ensures |InSlot(raws, raws[i].kind, raws[i].instance)| >= 2
  {
    if i > 0 {
      SlotHoldsTwo(raws[1..], i - 1, j - 1);
    } else {
      SlotHolds(raws[1..], j - 1);
    }
  }

  lemma {:induction false} SomeInSlot(raws: seq<RawHeader>, kind: Kind, n: nat) returns (i: nat)
    requires InSlot(raws, kind, n) != []
    ensures i < |raws| && raws[i].kind == kind && raws[i].instance == n
  {
    if raws[0].kind == kind && raws[0].instance == n {
      i := 0;
    } else {
      i := SomeInSlot(raws[1..], kind, n);
      i := i + 1;
    }
  }

  lemma {:induction false} TwoInSlot(raws: seq<RawHeader>, kind: Kind, n: nat) returns (i: nat, j: nat)
    requires |InSlot(raws, kind, n)| >= 2
    ensures i < j < |raws| && SameSlot(raws[i], raws[j])
  {
    if raws[0].kind == kind && raws[0].instance == n {
      j := SomeInSlot(raws[1..], kind, n);
      i, j := 0, j + 1;
    } else {
      i, j := TwoInSlot(raws[1..], kind, n);
      i, j := i + 1, j + 1;
    }
  }

  /** Two headers share a slot exactly when some slot holds two. */
  lemma {:induction false} DuplicateExactly(raws: seq<RawHeader>)
    ensures HasDuplicate(raws) <==> exists kind, n: nat :: |InSlot(raws, kind, n)| >= 2
  {
    if HasDuplicate(raws) {
      var i, j :| 0 <= i < j < |raws| && SameSlot(raws[i], raws[j]);
      SlotHoldsTwo(raws, i, j);
    }
    if kind, n: nat :| |InSlot(raws, kind, n)| >= 2 {
      var i, j := TwoInSlot(raws, kind, n);
    }
  }

  predicate InstanceOf(raws: seq<RawHeader>, inst: Instance, n: nat) {
    && inst.instance == n
    && InSlot(raws, AuthResults, n) == [inst.authResults]
    && InSlot(raws, MessageSignature, n) == [inst.messageSignature]
    && InSlot(raws, ArcSeal, n) == [inst.seal]
  }

  lemma {:induction false} InstanceAtIs(raws: seq<RawHeader>, inst: Instance, n: nat)
    requires !HasDuplicate(raws)
    ensures InstanceAt(raws, n) == Ok(inst) <==> InstanceOf(raws, inst, n)
  {
    DuplicateExactly(raws);
    OneOrNone(raws, AuthResults, n);
    OneOrNone(raws, MessageSignature, n);
    OneOrNone(raws, ArcSeal, n);
  }

  lemma {:induction false} OneOrNone(raws: seq<RawHeader>, kind: Kind, n: nat)
    requires !HasDuplicate(raws)
    ensures InSlot(raws, kind, n) == match Slot(raws, kind, n) { case None => [] case Some(v) => [v] }
  {
    DuplicateExactly(raws);
    SlotIsFirst(raws, kind, n);
    assert |InSlot(raws, kind, n)| < 2;
  }

  predicate ChainOf(raws: seq<RawHeader>, chain: seq<Instance>) {
    && 1 <= |chain| <= 50
    && (forall h :: h in raws ==> 1 <= h.instance <= |chain|)
    && forall k :: 0 <= k < |chain| ==> InstanceOf(raws, chain[k], k + 1)
  }

  lemma {:induction false} NoDuplicateInChain(raws: seq<RawHeader>, chain: seq<Instance>)
    requires ChainOf(raws, chain)
    ensures !HasDuplicate(raws)
  {
    DuplicateExactly(raws);
    forall kind, n: nat ensures |InSlot(raws, kind, n)| < 2 {
      if InSlot(raws, kind, n) != [] {
        var i := SomeInSlot(raws, kind, n);
        assert raws[i] in raws;
        assert InstanceOf(raws, chain[n - 1], (n - 1) + 1);
      }
    }
  }

  lemma {:induction false} HighestInChain(raws: seq<RawHeader>, chain: seq<Instance>)
    requires ChainOf(raws, chain)
    ensures raws != [] && Highest(raws) == |chain|
  {
    var n := |chain|;
    assert InstanceOf(raws, chain[n - 1], (n - 1) + 1);
    var i := SomeInSlot(raws, ArcSeal, n);
    assert raws[i] in raws;
    HighestBounds(raws);
  }

  lemma {:induction false} AssembleExactly(raws: seq<RawHeader>, chain: seq<Instance>)
    ensures Assemble(raws) == Ok(Some(chain)) <==> ChainOf(raws, chain)
  {
    if Assemble(raws) == Ok(Some(chain)) {
      AssembledChain(raws);
      HighestBounds(raws);
      forall k | 0 <= k < |chain| ensures InstanceOf(raws, chain[k], k + 1) {
        InstanceAtIs(raws, chain[k], k + 1);
      }
    }
    if ChainOf(raws, chain) {
      NoDuplicateInChain(raws, chain);
      HighestInChain(raws, chain);
      forall k | 0 <= k < |chain| ensures InstanceAt(raws, 1 + k) == Ok(chain[k]) {
        InstanceAtIs(raws, chain[k], k + 1);
      }
      InstancesFromWhole(raws, 1, |chain|, chain);
      assert forall i :: 0 <= i < |raws| ==> raws[i] in raws;
    }
  }

  /** A chain is taken out of the headers exactly when they hold one; nothing, when there is no ARC field. */
  lemma {:induction false} ExtractExactly(headers: seq<Header>, chain: seq<Instance>)
    ensures Extract(headers) == Ok(Some(chain)) <==> IsChain(headers, chain)
    ensures Extract(headers) == Ok(None) <==> forall i :: 0 <= i < |headers| ==> !IsArc(headers[i])
  {
    ReadsWhen(headers);
    if ArcHeaders(headers).Ok? {
      var raws := ArcHeaders(headers).value;
      AssembleExactly(raws, chain);
      ReadWithin(headers, |chain|);
      forall k | 0 <= k < |chain| ensures IsInstance(headers, chain[k], k + 1) <==> InstanceOf(raws, chain[k], k + 1) {
        SlotsAreFields(headers, AuthResults, k + 1);
        SlotsAreFields(headers, MessageSignature, k + 1);
        SlotsAreFields(headers, ArcSeal, k + 1);
      }
      NothingRead(headers);
    }
  }

  lemma {:induction false} NothingRead(headers: seq<Header>)
    requires ArcHeaders(headers).Ok?
    ensures ArcHeaders(headers).value == [] <==> forall i :: 0 <= i < |headers| ==> !IsArc(headers[i])
  {
    if headers != [] {
      NothingRead(headers[1..]);
      KindExactly(headers[0].0, AuthResults);
      assert forall i :: 0 < i < |headers| ==> headers[i] == headers[1..][i - 1];
    }
  }

  // ----- What the tags say -----

  function AlgorithmName(a: Algorithm): string { match a case RsaSha256 => "rsa-sha256" case Ed25519Sha256 => "ed25519-sha256" }

  function CanonName(c: Canon): string { match c case Simple => "simple" case Relaxed => "relaxed" }

  predicate SaysCv(text: string, cv: ChainValidation) {
    match cv
    case CvNone => Lower(Trim(text)) == "none"
    case CvPass => Lower(Trim(text)) == "pass"
    case CvFail => Lower(Trim(text)) == "fail"
  }

  /** The tags both kinds of signature have. */
  ghost predicate SaysSigner(net: Net, tags: seq<(string, string)>, instance: nat, a: Algorithm, d: string, s: string, b: string) {
    && (exists t :: Get(tags, "i") == Some(t) && ParseUnsigned(t, 4294967295) == Some(instance)) && 1 <= instance <= 50
    && Get(tags, "a") == Some(AlgorithmName(a))
    && (exists t :: Get(tags, "d") == Some(t) && d == Lower(t))
    && (exists t :: Get(tags, "s") == Some(t) && s == Lower(t))
    && (exists t :: Get(tags, "b") == Some(t) && net.decode64(t) == Some(b))
    && (forall t :: Get(tags, "t") == Some(t) ==> exists at :: ParseUnsigned(t, 18446744073709551615) == Some(at))
  }

  /** The value is a seal: its tags, no `h` and no `bh`. */
  ghost predicate SaysSeal(net: Net, value: string, seal: Seal) {
    exists tags :: TagList(Split(value, ';'), tags)
      && SaysSigner(net, tags, seal.instance, seal.algorithm, seal.domain, seal.selector, seal.signature)
      && Get(tags, "h") == None && Get(tags, "bh") == None
      && exists t :: Get(tags, "cv") == Some(t) && SaysCv(t, seal.cv)
  }

  predicate SaysCanons(c: Option<string>, header: Canon, body: Canon) {
    match c
    case None => header == Simple && body == Simple
    case Some(t) => t == CanonName(header) + "/" + CanonName(body) || (t == CanonName(header) && body == Simple)
  }

  predicate SaysNames(h: string, names: seq<string>) {
    && |names| == |Split(h, ':')| && (forall i :: 0 <= i < |names| ==> names[i] == Lower(Split(h, ':')[i]))
    && "from" in names && forall n :: n in names ==> !("arc-" <= n)
  }

  /** The value is a message signature: its tags, From among the names and no ARC field. */
  ghost predicate SaysSignature(net: Net, value: string, sig: Signature) {
    exists tags :: TagList(Split(value, ';'), tags)
      && SaysSigner(net, tags, sig.instance, sig.algorithm, sig.domain, sig.selector, sig.signature)
      && SaysCanons(Get(tags, "c"), sig.headerCanon, sig.bodyCanon)
      && (exists t :: Get(tags, "bh") == Some(t) && net.decode64(t) == Some(sig.bodyHash))
      && exists t :: Get(tags, "h") == Some(t) && SaysNames(t, sig.names)
  }

  lemma {:induction false} CvSaid(text: string, cv: ChainValidation)
    ensures ParseCv(text) == Some(cv) <==> SaysCv(text, cv)
  {
  }

  predicate SignerReads(net: Net, tags: seq<(string, string)>, instance: nat, a: Algorithm, d: string, s: string, b: string) {
    && ParseInstance(Get(tags, "i")) == Some(instance) && ParseAlgorithm(Get(tags, "a")) == Some(a)
    && Get(tags, "d").Some? && d == Lower(Get(tags, "d").value)
    && Get(tags, "s").Some? && s == Lower(Get(tags, "s").value)
    && Decoded(net, Get(tags, "b")) == Some(b) && TimestampReads(tags)
  }

  lemma {:induction false} SignerSaid(net: Net, tags: seq<(string, string)>, instance: nat, a: Algorithm, d: string, s: string, b: string)
    ensures SignerReads(net, tags, instance, a, d, s, b) <==> SaysSigner(net, tags, instance, a, d, s, b)
  {
  }

  lemma {:induction false} SealExactly(net: Net, value: string, seal: Seal)
    ensures ParseSeal(net, value) == Some(seal) <==> SaysSeal(net, value, seal)
  {
    forall tags ensures Tags(value) == Some(tags) <==> TagList(Split(value, ';'), tags) {
      TagsExactly(Split(value, ';'), tags);
    }
    if Tags(value).Some? {
      var tags := Tags(value).value;
      SealOfTags(net, tags, seal);
    }
  }

  lemma {:induction false} SealReads(net: Net, tags: seq<(string, string)>, seal: Seal)
    ensures SealOf(net, tags) == Some(seal) <==>
      && SignerReads(net, tags, seal.instance, seal.algorithm, seal.domain, seal.selector, seal.signature)
      && Get(tags, "h") == None && Get(tags, "bh") == None
      && Get(tags, "cv").Some? && ParseCv(Get(tags, "cv").value) == Some(seal.cv)
  {
  }

  ghost predicate SealTagsSay(net: Net, tags: seq<(string, string)>, seal: Seal) {
    && SaysSigner(net, tags, seal.instance, seal.algorithm, seal.domain, seal.selector, seal.signature)
    && Get(tags, "h") == None && Get(tags, "bh") == None
    && exists t :: Get(tags, "cv") == Some(t) && SaysCv(t, seal.cv)
  }

  lemma {:induction false} SealOfTags(net: Net, tags: seq<(string, string)>, seal: Seal)
    ensures SealOf(net, tags) == Some(seal) <==> SealTagsSay(net, tags, seal)
  {
    SignerSaid(net, tags, seal.instance, seal.algorithm, seal.domain, seal.selector, seal.signature);
    SealReads(net, tags, seal);
    if Get(tags, "cv").Some? { CvSaid(Get(tags, "cv").value, seal.cv); }
  }

  lemma {:induction false} CanonSaid(text: string, c: Canon)
    ensures ParseCanon(text) == Some(c) <==> text == CanonName(c)
  {
  }

  lemma {:induction false} CanonsSaid(text: Option<string>, header: Canon, body: Canon)
    ensures ParseCanons(text) == (Some(header), Some(body)) <==> SaysCanons(text, header, body)
  {
    if text.Some? {
      var t := text.value;
      SplitOnceNone(t, '/');
      SplitOnceAt(CanonName(header), CanonName(body), '/');
      SplitOnceNone(CanonName(header), '/');
      if SplitOnce(t, '/').Some? {
        SplitOnceSome(t, '/');
        CanonSaid(SplitOnce(t, '/').value.0, header);
        CanonSaid(SplitOnce(t, '/').value.1, body);
      }
    }
  }

  lemma {:induction false} NamesSaid(h: string, names: seq<string>)
    ensures NamesRead(h, names) <==> SaysNames(h, names)
  {
  }

  predicate NamesRead(h: string, names: seq<string>) {
    names == LowerAll(Split(h, ':')) && "from" in names && !(exists n :: n in names && "arc-" <= n)
  }

  lemma {:induction false} SignatureReads(net: Net, tags: seq<(string, string)>, sig: Signature)
    ensures SignatureOf(net, tags) == Some(sig) <==>
      && SignerReads(net, tags, sig.instance, sig.algorithm, sig.domain, sig.selector, sig.signature)
      && ParseCanons(Get(tags, "c")) == (Some(sig.headerCanon), Some(sig.bodyCanon))
      && Decoded(net, Get(tags, "bh")) == Some(sig.bodyHash)
      && Get(tags, "h").Some? && NamesRead(Get(tags, "h").value, sig.names)
  {
  }

  ghost predicate SignatureTagsSay(net: Net, tags: seq<(string, string)>, sig: Signature) {
    && SaysSigner(net, tags, sig.instance, sig.algorithm, sig.domain, sig.selector, sig.signature)
    && SaysCanons(Get(tags, "c"), sig.headerCanon, sig.bodyCanon)
    && (exists t :: Get(tags, "bh") == Some(t) && net.decode64(t) == Some(sig.bodyHash))
    && exists t :: Get(tags, "h") == Some(t) && SaysNames(t, sig.names)
  }

  lemma {:induction false} SignatureOfTags(net: Net, tags: seq<(string, string)>, sig: Signature)
    ensures SignatureOf(net, tags) == Some(sig) <==> SignatureTagsSay(net, tags, sig)
  {
    SignerSaid(net, tags, sig.instance, sig.algorithm, sig.domain, sig.selector, sig.signature);
    SignatureReads(net, tags, sig);
    CanonsSaid(Get(tags, "c"), sig.headerCanon, sig.bodyCanon);
    if Get(tags, "h").Some? { NamesSaid(Get(tags, "h").value, sig.names); }
  }

  lemma {:induction false} SignatureExactly(net: Net, value: string, sig: Signature)
    ensures ParseSignature(net, value) == Some(sig) <==> SaysSignature(net, value, sig)
  {
    forall tags ensures Tags(value) == Some(tags) <==> TagList(Split(value, ';'), tags) {
      TagsExactly(Split(value, ';'), tags);
    }
    if Tags(value).Some? {
      SignatureOfTags(net, Tags(value).value, sig);
    }
  }

  // ----- The verdict -----

  /** A key is published under the selector and domain, and it verifies the signature on the text. */
  ghost predicate Verified(net: Net, selector: string, domain: string, a: Algorithm, text: string, signature: string) {
    exists key :: net.keyAt(selector + "._domainkey." + domain, a) == Key(key) && net.verify(key, a, text, signature)
  }

  lemma {:induction false} CheckedExactly(net: Net, selector: string, domain: string, a: Algorithm, text: string, signature: string)
    ensures Checked(net, selector, domain, a, text, signature) == Pass <==> Verified(net, selector, domain, a, text, signature)
  {
  }

  /** The lines of the first two fields of an instance. */
  function TwoLines(inst: Instance): string {
    Line(Relaxed, AAR, inst.authResults) + "\r\n" + Line(Relaxed, AMS, inst.messageSignature) + "\r\n"
  }

  /** All the lines of the instances. */
  function AllLines(chain: seq<Instance>): string {
    if chain == [] then "" else TwoLines(chain[0]) + Line(Relaxed, AS, chain[0].seal) + "\r\n" + AllLines(chain[1..])
  }

  /** What the seal of the `i`-th instance covers: every earlier instance, then its own with the signature emptied. */
  function SealText(chain: seq<Instance>, i: nat): string
    requires i < |chain|
  {
    AllLines(chain[..i]) + TwoLines(chain[i]) + Line(Relaxed, AS, StripB(chain[i].seal))
  }

  lemma {:induction false} SmallLine(name: string, small: string, value: string)
    requires Lower(name) == Lower(small)
    ensures CanonHeader(Relaxed, name, value) == Line(Relaxed, small, value) + "\r\n"
  {
    LineIs(Relaxed, name, value);
  }

  lemma {:induction false} SmallNames()
    ensures Lower("ARC-Authentication-Results") == AAR == Lower(AAR)
    ensures Lower("ARC-Message-Signature") == AMS == Lower(AMS)
    ensures Lower("ARC-Seal") == AS == Lower(AS)
  {
  }

  lemma {:induction false} TwoLinesAre(inst: Instance)
    ensures AuthAndSignature(inst.authResults, inst.messageSignature) == TwoLines(inst)
  {
    SmallNames();
    SmallLine("ARC-Authentication-Results", AAR, inst.authResults);
    SmallLine("ARC-Message-Signature", AMS, inst.messageSignature);
    Regroup(Line(Relaxed, AAR, inst.authResults) + "\r\n", Line(Relaxed, AMS, inst.messageSignature), "\r\n");
  }

  lemma {:induction false} PriorIsLines(chain: seq<Instance>)
    ensures PriorInput(chain) == AllLines(chain)
  {
    if chain != [] {
      PriorIsLines(chain[1..]);
      TwoLinesAre(chain[0]);
      SmallNames();
      SmallLine("ARC-Seal", AS, chain[0].seal);
      Regroup(TwoLines(chain[0]), Line(Relaxed, AS, chain[0].seal), "\r\n");
    }
  }

  lemma {:induction false} AllSkipped(later: seq<Instance>, n: nat, value: string)
    requires forall i :: 0 <= i < |later| ==> later[i].instance > n
    ensures SealInput(later, n, value) == ""
  {
    if later != [] { AllSkipped(later[1..], n, value); }
  }

  lemma {:induction false} LaterAreSkipped(front: seq<Instance>, later: seq<Instance>, n: nat, value: string)
    requires forall i :: 0 <= i < |later| ==> later[i].instance > n
    ensures SealInput(front + later, n, value) == SealInput(front, n, value)
  {
    if front == [] {
      assert front + later == later;
      AllSkipped(later, n, value);
    } else {
      assert (front + later)[0] == front[0] && (front + later)[1..] == front[1..] + later;
      LaterAreSkipped(front[1..], later, n, value);
    }
  }

  /** The verifier rebuilds exactly that text. */
  lemma {:induction false} SealTextIs(chain: seq<Instance>, i: nat)
    requires Numbered(chain) && i < |chain|
    ensures SealInput(Sorted(chain), i + 1, chain[i].seal) == SealText(chain, i)
  {
    NumberedIsSorted(chain);
    OwnAndEarlier(chain, i);
    PriorIsLines(chain[..i]);
    TwoLinesAre(chain[i]);
    OwnLine(StripB(chain[i].seal));
  }

  lemma {:induction false} OwnAndEarlier(chain: seq<Instance>, i: nat)
    requires Numbered(chain) && i < |chain|
    ensures SealInput(chain, i + 1, chain[i].seal) ==
      PriorInput(chain[..i]) + AuthAndSignature(chain[i].authResults, chain[i].messageSignature) + FinalSealLine(StripB(chain[i].seal))
  {
    assert chain == chain[..i + 1] + chain[i + 1..] && chain[..i + 1] == chain[..i] + [chain[i]];
    LaterAreSkipped(chain[..i + 1], chain[i + 1..], i + 1, chain[i].seal);
    SameSealInput(chain[..i], chain[i]);
  }

  lemma {:induction false} OwnLine(value: string)
    ensures FinalSealLine(value) == Line(Relaxed, AS, value)
  {
    SmallNames();
    LineIs(Relaxed, "ARC-Seal", value);
  }

  /** The seal says what its place demands, and a published key verifies it on the written text. */
  ghost predicate SealVerified(net: Net, chain: seq<Instance>, i: nat)
    requires i < |chain|
  {
    exists seal ::
      && SaysSeal(net, chain[i].seal, seal) && seal.cv == (if i == 0 then CvNone else CvPass)
      && Verified(net, seal.selector, seal.domain, seal.algorithm, SealText(chain, i), seal.signature)
  }

  /** The body hashes to what is signed, and a published key verifies the written lines of the covered fields. */
  ghost predicate MessageVerified(net: Net, value: string, m: Message) {
    exists sig, picks ::
      && SaysSignature(net, value, sig) && net.bodyHash(sig.bodyCanon, m.body) == sig.bodyHash
      && Picked(m.headers, sig.names, [], picks)
      && Verified(net, sig.selector, sig.domain, sig.algorithm,
                  PickedLines(sig.headerCanon, m.headers, picks) + Line(sig.headerCanon, "ARC-Message-Signature", StripB(value)),
                  sig.signature)
  }

  lemma {:induction false} HashInputIs(canon: Canon, headers: seq<Header>, names: seq<string>, value: string, picks: seq<Option<nat>>)
    requires Picked(headers, names, [], picks)
    ensures HashInput(canon, headers, names, value) ==
      PickedLines(canon, headers, picks) + Line(canon, "ARC-Message-Signature", StripB(value))
  {
    PickedIsSigned(canon, headers, names, {}, [], picks);
    LineIs(canon, "ARC-Message-Signature", StripB(value));
  }

  lemma {:induction false} AmsExactly(net: Net, newest: Instance, m: Message)
    ensures AmsHolds(net, newest, m) <==> MessageVerified(net, newest.messageSignature, m)
  {
    var value := newest.messageSignature;
    if AmsHolds(net, newest, m) {
      var sig := ParseSignature(net, value).value;
      SignatureExactly(net, value, sig);
      var picks := PicksExist(m.headers, sig.names, {}, []);
      HashInputIs(sig.headerCanon, m.headers, sig.names, value, picks);
      CheckedExactly(net, sig.selector, sig.domain, sig.algorithm, HashInput(sig.headerCanon, m.headers, sig.names, value), sig.signature);
    }
    if MessageVerified(net, value, m) {
      var sig, picks :|
        && SaysSignature(net, value, sig) && net.bodyHash(sig.bodyCanon, m.body) == sig.bodyHash
        && Picked(m.headers, sig.names, [], picks)
        && Verified(net, sig.selector, sig.domain, sig.algorithm,
                    PickedLines(sig.headerCanon, m.headers, picks) + Line(sig.headerCanon, "ARC-Message-Signature", StripB(value)),
                    sig.signature);
      SignatureExactly(net, value, sig);
      HashInputIs(sig.headerCanon, m.headers, sig.names, value, picks);
      CheckedExactly(net, sig.selector, sig.domain, sig.algorithm, HashInput(sig.headerCanon, m.headers, sig.names, value), sig.signature);
    }
  }

  lemma {:induction false} OneSealExactly(net: Net, headers: seq<Header>, chain: seq<Instance>, i: nat)
    requires IsChain(headers, chain) && i < |chain|
    ensures CvConsistent(net, chain[i]) && SealHolds(net, chain[i], chain) <==> SealVerified(net, chain, i)
  {
    ExtractExactly(headers, chain);
    assert Prior(headers) == chain;
    PriorIsNumbered(headers);
    if ParseSeal(net, chain[i].seal).Some? {
      var seal := ParseSeal(net, chain[i].seal).value;
      SealNamesItsInstance(net, headers, i);
      SealTextIs(chain, i);
      CheckedExactly(net, seal.selector, seal.domain, seal.algorithm, SealText(chain, i), seal.signature);
    }
    forall seal ensures ParseSeal(net, chain[i].seal) == Some(seal) <==> SaysSeal(net, chain[i].seal, seal) {
      SealExactly(net, chain[i].seal, seal);
    }
  }

  /** A chain every seal of which, and the newest message signature, a published key verifies. */
  ghost predicate Holds(net: Net, m: Message, chain: seq<Instance>) {
    && IsChain(m.headers, chain)
    && MessageVerified(net, Last(chain).messageSignature, m)
    && forall i :: 0 <= i < |chain| ==> SealVerified(net, chain, i)
  }

  lemma {:induction false} ChainExactly(net: Net, m: Message, chain: seq<Instance>)
    requires IsChain(m.headers, chain)
    ensures ChainHolds(net, chain, m) <==> Holds(net, m, chain)
  {
    AmsExactly(net, Last(chain), m);
    forall i | 0 <= i < |chain|
      ensures CvConsistent(net, chain[i]) && SealHolds(net, chain[i], chain) <==> SealVerified(net, chain, i)
    {
      OneSealExactly(net, m.headers, chain, i);
    }
  }

  /**
   * A message passes exactly when its ARC fields make a chain and published keys
   * verify every seal and the newest message signature on the written texts; it
   * has no verdict exactly when it has no ARC field; otherwise it fails.
   */
  lemma {:induction false} ValidateExactly(net: Net, m: Message)
    ensures Validate(net, m) == CvPass <==> exists chain :: Holds(net, m, chain)
    ensures Validate(net, m) == CvNone <==> forall i :: 0 <= i < |m.headers| ==> !IsArc(m.headers[i])
  {
    forall chain ensures Extract(m.headers) == Ok(Some(chain)) <==> IsChain(m.headers, chain) {
      ExtractExactly(m.headers, chain);
    }
    ExtractExactly(m.headers, []);
    if Extract(m.headers).Ok? && Extract(m.headers).value.Some? {
      ChainExactly(net, m, Extract(m.headers).value.value);
    }
  }

  /** The keys behind a pass: for every instance one that verifies its seal, and one for the newest message signature. */
  lemma {:induction false} PassIsVerified(net: Net, m: Message, chain: seq<Instance>, i: nat)
    requires Validate(net, m) == CvPass && IsChain(m.headers, chain) && i < |chain|
    ensures exists seal, key ::
      && SaysSeal(net, chain[i].seal, seal) && net.keyAt(seal.selector + "._domainkey." + seal.domain, seal.algorithm) == Key(key)
      && net.verify(key, seal.algorithm, SealText(chain, i), seal.signature)
    ensures exists sig, picks, key ::
      && SaysSignature(net, Last(chain).messageSignature, sig) && net.bodyHash(sig.bodyCanon, m.body) == sig.bodyHash
      && Picked(m.headers, sig.names, [], picks)
      && net.keyAt(sig.selector + "._domainkey." + sig.domain, sig.algorithm) == Key(key)
      && net.verify(key, sig.algorithm,
                    PickedLines(sig.headerCanon, m.headers, picks)
                      + Line(sig.headerCanon, "ARC-Message-Signature", StripB(Last(chain).messageSignature)), sig.signature)
  {
    ExtractExactly(m.headers, chain);
    ChainExactly(net, m, chain);
    assert SealVerified(net, chain, i);
    assert MessageVerified(net, Last(chain).messageSignature, m);
  }
}
