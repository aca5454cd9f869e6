/** The loops of src/arc: each computes what `Arc` says it computes. */
module ArcLoops {
  import opened Basics
  import opened Text
  import opened ArcTags
  import opened Arc
  import ArcHops

  /** The three places of one instance. */
  datatype Places = Places(aar: Option<string>, ams: Option<string>, seal: Option<string>) {
    function At(kind: Kind): Option<string>
    {
      match kind case AuthResults => aar case MessageSignature => ams case ArcSeal => seal
    }

    function With(kind: Kind, value: string): Places
    {
      match kind
      case AuthResults => this.(aar := Some(value))
      case MessageSignature => this.(ams := Some(value))
      case ArcSeal => this.(seal := Some(value))
    }
  }

  lemma {:induction false} SlotAppends(raws: seq<RawHeader>, h: RawHeader, kind: Kind, n: nat)
    ensures Slot(raws + [h], kind, n) ==
      if Slot(raws, kind, n).Some? then Slot(raws, kind, n)
      else if h.kind == kind && h.instance == n then Some(h.value) else None
  {
    if raws == [] {
      assert raws + [h] == [h];
    } else {
      assert (raws + [h])[1..] == raws[1..] + [h];
      SlotAppends(raws[1..], h, kind, n);
    }
  }

  lemma {:induction false} EmptySlot(raws: seq<RawHeader>, kind: Kind, n: nat)
    requires Slot(raws, kind, n).None?
    ensures forall i :: 0 <= i < |raws| ==> !(raws[i].kind == kind && raws[i].instance == n)
  {
    if raws != [] {
      EmptySlot(raws[1..], kind, n);
      forall i | 0 <= i < |raws| ensures !(raws[i].kind == kind && raws[i].instance == n) {
        if i > 0 { assert raws[i] == raws[1..][i - 1]; }
      }
    }
  }

  /** The slots hold exactly what the headers read so far put there. */
  ghost predicate Filled(slots: seq<Places>, raws: seq<RawHeader>)
  {
    forall k, kind :: 1 <= k <= |slots| ==> Slot(raws, kind, k) == slots[k - 1].At(kind)
  }

  lemma {:induction false} FilledOneMore(slots: seq<Places>, raws: seq<RawHeader>, h: RawHeader)
    requires Filled(slots, raws) && 1 <= h.instance <= |slots| && slots[h.instance - 1].At(h.kind) == None
    ensures Filled(slots[h.instance - 1 := slots[h.instance - 1].With(h.kind, h.value)], raws + [h])
  {
    forall k, kind | 1 <= k <= |slots|
      ensures Slot(raws + [h], kind, k) == slots[h.instance - 1 := slots[h.instance - 1].With(h.kind, h.value)][k - 1].At(kind)
    {
      SlotAppends(raws, h, kind, k);
    }
  }

  lemma {:induction false} StillNoDuplicate(raws: seq<RawHeader>, h: RawHeader)
    requires !HasDuplicate(raws) && Slot(raws, h.kind, h.instance).None?
    ensures !HasDuplicate(raws + [h])
  {
    EmptySlot(raws, h.kind, h.instance);
    var all := raws + [h];
    forall i, j | 0 <= i < j < |all| ensures !SameSlot(all[i], all[j]) {
      if j < |raws| { assert !SameSlot(raws[i], raws[j]); }
    }
  }

  lemma {:induction false} IsDuplicate(raws: seq<RawHeader>, i: nat)
    requires i < |raws| && Slot(raws[..i], raws[i].kind, raws[i].instance).Some?
    ensures HasDuplicate(raws)
  {
    ArcHops.SlotComesFrom(raws[..i], raws[i].kind, raws[i].instance);
    var h :| h in raws[..i] && SameSlot(h, raws[i]);
    var j :| 0 <= j < i && raws[j] == h;
    assert SameSlot(raws[j], raws[i]);
  }

  /** Bucket each header into its slot; a slot filled twice is an error. */
  method FillSlots(raws: seq<RawHeader>) returns (r: Result<seq<Places>, ChainError>)
    requires forall i :: 0 <= i < |raws| ==> InRange(raws[i])
    ensures r.Err? <==> HasDuplicate(raws)
    ensures r.Err? ==> r.error == Duplicate
    ensures r.Ok? ==> |r.value| == Highest(raws) && Filled(r.value, raws)
  {
    ArcHops.HighestBounds(raws);
    var slots := seq(Highest(raws), i => Places(None, None, None));
    for i := 0 to |raws|
      invariant |slots| == Highest(raws) && Filled(slots, raws[..i]) && !HasDuplicate(raws[..i])
    {
      var h := raws[i];
      assert h in raws;
      if slots[h.instance - 1].At(h.kind).Some? {
        IsDuplicate(raws, i);
        return Err(Duplicate);
      }
      assert raws[..i + 1] == raws[..i] + [h];
      FilledOneMore(slots, raws[..i], h);
      StillNoDuplicate(raws[..i], h);
      slots := slots[h.instance - 1 := slots[h.instance - 1].With(h.kind, h.value)];
    }
    assert raws[..|raws|] == raws;
    return Ok(slots);
  }

  lemma {:induction false} BrokenInstance(raws: seq<RawHeader>, n: nat, top: nat, k: nat, error: ChainError)
    requires n <= k <= top && InstanceAt(raws, k) == Err(error)
    requires forall j :: n <= j < k ==> InstanceAt(raws, j).Ok?
    ensures Instances(raws, n, top) == Err(error)
    decreases k - n
  {
    if n < k { BrokenInstance(raws, n + 1, top, k, error); }
  }

  /** `extract`, from the ARC headers on: range check, slots, then one instance per slot. */
  method ExtractChain(headers: seq<Header>) returns (r: Result<Option<seq<Instance>>, ChainError>)
    ensures r == Extract(headers)
  {
    var read := ArcHeaders(headers);
    if read.Err? { return Err(read.error); }
    var raws := read.value;
    if raws == [] { return Ok(None); }
    for i := 0 to |raws|
      invariant forall j :: 0 <= j < i ==> InRange(raws[j])
    {
      if !InRange(raws[i]) { return Err(BadInstance); }
    }
    var slots := FillSlots(raws);
    if slots.Err? { return Err(Duplicate); }
    var instances: seq<Instance> := [];
    for k := 0 to |slots.value|
      invariant |instances| == k
      invariant forall j :: 1 <= j <= k ==> InstanceAt(raws, j) == Ok(instances[j - 1])
    {
      var slot := slots.value[k];
      assert InstanceAt(raws, k + 1) == match (slot.aar, slot.ams, slot.seal)
        case (Some(aar), Some(ams), Some(seal)) => Ok(Instance(k + 1, aar, ams, seal))
        case (None, None, None) => Err(NonContiguous)
        case _ => Err(Incomplete);
      match (slot.aar, slot.ams, slot.seal)
      case (Some(aar), Some(ams), Some(seal)) =>
        instances := instances + [Instance(k + 1, aar, ams, seal)];
      case (None, None, None) =>
        BrokenInstance(raws, 1, |slots.value|, k + 1, NonContiguous);
        return Err(NonContiguous);
      case _ =>
        BrokenInstance(raws, 1, |slots.value|, k + 1, Incomplete);
        return Err(Incomplete);
    }
    forall i | 0 <= i < |instances| ensures InstanceAt(raws, 1 + i) == Ok(instances[i]) {}
    ArcHops.InstancesFromWhole(raws, 1, |slots.value|, instances);
    return Ok(Some(instances));
  }

  /** `lowest_unused`, over the flags of the headers already taken. */
  method FindLowest(headers: seq<Header>, used: array<bool>, name: string, ghost taken: set<nat>) returns (index: Option<nat>)
    requires used.Length == |headers| && forall k :: 0 <= k < used.Length ==> (used[k] <==> k in taken)
    ensures index == LowestUnused(headers, taken, name, |headers|)
  {
    var k := |headers|;
    while k > 0
      invariant 0 <= k <= |headers|
      invariant LowestUnused(headers, taken, name, |headers|) == LowestUnused(headers, taken, name, k)
    {
      if !used[k - 1] && Lower(headers[k - 1].0) == Lower(name) { return Some(k - 1); }
      k := k - 1;
    }
    return None;
  }

  /** The loop both sides run over header names, marking the headers taken. */
  method SelectHeaders(canon: Canon, headers: seq<Header>, names: seq<string>) returns (input: string)
    ensures input == SignedLines(canon, headers, names, {})
  {
    var used := new bool[|headers|](_ => false);
    input := "";
    ghost var taken: set<nat> := {};
    for i := 0 to |names|
      invariant forall k :: 0 <= k < used.Length ==> (used[k] <==> k in taken)
      invariant input + SignedLines(canon, headers, names[i..], taken) == SignedLines(canon, headers, names, {})
    {
      assert names[i..][0] == names[i] && names[i..][1..] == names[i + 1..];
      var found := FindLowest(headers, used, names[i], taken);
      if found.Some? {
        var k := found.value;
        var line := CanonHeader(canon, headers[k].0, headers[k].1);
        Regroup(input, line, SignedLines(canon, headers, names[i + 1..], taken + {k}));
        used[k] := true;
        taken := taken + {k};
        input := input + line;
      }
    }
  }

  /** `seal::verify`'s loop: the text a seal covers, from the chain in order. */
  method CoveredText(sorted: seq<Instance>, instance: nat, rawValue: string) returns (input: string)
    ensures input == SealInput(sorted, instance, rawValue)
  {
    input := "";
    for i := 0 to |sorted|
      invariant input + SealInput(sorted[i..], instance, rawValue) == SealInput(sorted, instance, rawValue)
    {
      assert sorted[i..][0] == sorted[i] && sorted[i..][1..] == sorted[i + 1..];
      var piece := CoveredPiece(sorted[i], instance, rawValue);
      Regroup(input, piece, SealInput(sorted[i + 1..], instance, rawValue));
      input := input + piece;
    }
  }

  method CoveredPiece(inst: Instance, instance: nat, rawValue: string) returns (piece: string)
    ensures piece == SealPiece(inst, instance, rawValue)
  {
    if inst.instance > instance { return ""; }
    piece := AuthAndSignature(inst.authResults, inst.messageSignature);
    if inst.instance == instance {
      piece := piece + FinalSealLine(StripB(rawValue));
    } else {
      piece := piece + CanonHeader(Relaxed, "ARC-Seal", inst.seal);
    }
  }

  /** `cv_values_consistent` */
  method CvsConsistent(net: Net, instances: seq<Instance>) returns (ok: bool)
    ensures ok <==> forall i {:trigger CvConsistent(net, instances[i])} :: 0 <= i < |instances| ==> CvConsistent(net, instances[i])
  {
    for i := 0 to |instances|
      invariant forall j {:trigger CvConsistent(net, instances[j])} :: 0 <= j < i ==> CvConsistent(net, instances[j])
    {
      var seal := ParseSeal(net, instances[i].seal);
      var expected := if instances[i].instance == 1 then CvNone else CvPass;
      if seal.None? || seal.value.cv != expected {
        assert !CvConsistent(net, instances[i]);
        return false;
      }
    }
    return true;
  }

  /** One seal of the chain. */
  method OneSealHolds(net: Net, inst: Instance, instances: seq<Instance>) returns (ok: bool)
    ensures ok == SealHolds(net, inst, instances)
  {
    var seal := ParseSeal(net, inst.seal);
    if seal.None? { return false; }
    var input := CoveredText(Sorted(instances), seal.value.instance, inst.seal);
    return Checked(net, seal.value.selector, seal.value.domain, seal.value.algorithm, input, seal.value.signature) == Pass;
  }

  /** Every seal of the chain, in order, until one does not verify. */
  method SealsHold(net: Net, instances: seq<Instance>) returns (ok: bool)
    ensures ok <==> forall i {:trigger SealHolds(net, instances[i], instances)} :: 0 <= i < |instances| ==> SealHolds(net, instances[i], instances)
  {
    ok := true;
    ghost var holds: seq<bool> := [];
    for i := 0 to |instances|
      invariant |holds| == i && ok
      invariant forall j :: 0 <= j < i ==> holds[j] == SealHolds(net, instances[j], instances)
      invariant forall j :: 0 <= j < i ==> holds[j]
    {
      ok := OneSealHolds(net, instances[i], instances);
      if !ok { return; }
      holds := holds + [ok];
    }
  }

  /** The checks of an extracted chain: statuses, the newest message signature, every seal. */
  method CheckChain(net: Net, instances: seq<Instance>, m: Message) returns (ok: bool)
    requires instances != []
    ensures ok == ChainHolds(net, instances, m)
  {
    var consistent := CvsConsistent(net, instances);
    if !consistent { return false; }
    var newest := instances[|instances| - 1];
    if !AmsHolds(net, newest, m) { return false; }
    ok := SealsHold(net, instances);
  }

  /** `validate`: fail at the first part that does not hold. */
  method ValidateChain(net: Net, m: Message) returns (cv: ChainValidation)
    ensures cv == Validate(net, m)
  {
    var extracted := ExtractChain(m.headers);
    match extracted
    case Err(_) => return CvFail;
    case Ok(None) => return CvNone;
    case Ok(Some(instances)) =>
      if instances == [] { return CvFail; }
      var holds := CheckChain(net, instances, m);
      return if holds then CvPass else CvFail;
  }
}
