/**
  ARC sealing and validation (src/arc, RFC 8617): the chain in a message's headers,
  what the signer signs, what the verifier rebuilds, and the verdict.

  A message is its header fields in order, and a body. Cryptography, base64, the body
  hash and the DNS are the functions of a `Net`.
 */
module Arc {
  import opened Basics
  import opened Text
  import opened ArcTags

  /** Section 4.2.1 of RFC 8617: a chain holds at most 50 instances. */
  const MAX_INSTANCE: nat := 50

  type Header = (string, string)

  datatype Message = Message(headers: seq<Header>, body: string)

  datatype Kind = AuthResults | MessageSignature | ArcSeal

  datatype ChainValidation = CvNone | CvPass | CvFail

  datatype Instance = Instance(instance: nat, authResults: string, messageSignature: string, seal: string)

  datatype ChainError = MalformedHeader | BadInstance | Duplicate | NonContiguous | Incomplete

  datatype RawHeader = RawHeader(kind: Kind, instance: nat, value: string)

  datatype Canon = Simple | Relaxed

  datatype Algorithm = RsaSha256 | Ed25519Sha256

  datatype KeyAnswer = Key(key: string) | Temporary | Unusable

  datatype Outcome = Pass | Fail | TempError | PermError

  datatype Net = Net(
    bodyHash: (Canon, string) -> string,
    encode64: string -> string,
    decode64: string -> Option<string>,
    sign: (string, string) -> string,
    publicKey: string -> string,
    verify: (string, Algorithm, string, string) -> bool,
    keyAt: (string, Algorithm) -> KeyAnswer)

  /** Base64 is read back and holds no `;` or white space; a signature verifies what was signed. */
  ghost predicate Sound(net: Net)
  {
    && (forall x :: net.decode64(net.encode64(x)) == Some(x))
    && (forall x, c :: c in net.encode64(x) ==> c != ';' && !Whitespace(c))
    && (forall k, x :: net.verify(net.publicKey(k), Ed25519Sha256, x, net.sign(k, x)))
  }

  // ------------------------------------------------------------ chain.rs: the chain

  function KindOf(name: string): Option<Kind>
  {
    var n := Lower(name);
    if n == "arc-authentication-results" then Some(AuthResults)
    else if n == "arc-message-signature" then Some(MessageSignature)
    else if n == "arc-seal" then Some(ArcSeal)
    else None
  }

  function CvText(cv: ChainValidation): string
  {
    match cv case CvNone => "none" case CvPass => "pass" case CvFail => "fail"
  }

  function ParseCv(value: string): Option<ChainValidation>
  {
    var v := Lower(Trim(value));
    if v == "none" then Some(CvNone) else if v == "pass" then Some(CvPass) else if v == "fail" then Some(CvFail) else None
  }

  /** `push_arc` on one header field: skipped, malformed, or kept with its instance. */
  function ReadHeader(h: Header): Result<seq<RawHeader>, ChainError>
  {
    match KindOf(h.0)
    case None => Ok([])
    case Some(kind) =>
      match InstanceTag(h.1)
      case None => Err(MalformedHeader)
      case Some(n) => Ok([RawHeader(kind, n, h.1)])
  }

  function InstanceTag(value: string): Option<nat>
  {
    match Tag(value, "i") case None => None case Some(text) => ParseUnsigned(text, U32_MAX)
  }

  function ArcHeaders(headers: seq<Header>): Result<seq<RawHeader>, ChainError>
  {
    if headers == [] then Ok([])
    else match ReadHeader(headers[0])
      case Err(e) => Err(e)
      case Ok(first) =>
        match ArcHeaders(headers[1..])
        case Err(e) => Err(e)
        case Ok(rest) => Ok(first + rest)
  }

  predicate InRange(h: RawHeader) { 1 <= h.instance <= MAX_INSTANCE }

  predicate SameSlot(h: RawHeader, g: RawHeader) { h.kind == g.kind && h.instance == g.instance }

  predicate HasDuplicate(raws: seq<RawHeader>)
  {
    exists i, j :: 0 <= i < j < |raws| && SameSlot(raws[i], raws[j])
  }

  function Highest(raws: seq<RawHeader>): nat
  {
    if raws == [] then 0 else Max(raws[0].instance, Highest(raws[1..]))
  }

  /** The value in the slot of `kind` and instance `n`. */
  function Slot(raws: seq<RawHeader>, kind: Kind, n: nat): Option<string>
  {
    if raws == [] then None
    else if raws[0].kind == kind && raws[0].instance == n then Some(raws[0].value)
    else Slot(raws[1..], kind, n)
  }

  function InstanceAt(raws: seq<RawHeader>, n: nat): Result<Instance, ChainError>
  {
    match (Slot(raws, AuthResults, n), Slot(raws, MessageSignature, n), Slot(raws, ArcSeal, n))
    case (Some(aar), Some(ams), Some(seal)) => Ok(Instance(n, aar, ams, seal))
    case (None, None, None) => Err(NonContiguous)
    case _ => Err(Incomplete)
  }

  /** Instances `n..=top`, or the error of the first one that is not whole. */
  function Instances(raws: seq<RawHeader>, n: nat, top: nat): Result<seq<Instance>, ChainError>
    decreases top - n
  {
    if n > top then Ok([])
    else match InstanceAt(raws, n)
      case Err(e) => Err(e)
      case Ok(first) =>
        match Instances(raws, n + 1, top)
        case Err(e) => Err(e)
        case Ok(rest) => Ok([first] + rest)
  }

  function Assemble(raws: seq<RawHeader>): Result<Option<seq<Instance>>, ChainError>
  {
    if raws == [] then Ok(None)
    else if exists i :: 0 <= i < |raws| && !InRange(raws[i]) then Err(BadInstance)
    else if HasDuplicate(raws) then Err(Duplicate)
    else match Instances(raws, 1, Highest(raws))
      case Err(e) => Err(e)
      case Ok(instances) => Ok(Some(instances))
  }

  function Extract(headers: seq<Header>): Result<Option<seq<Instance>>, ChainError>
  {
    match ArcHeaders(headers) case Err(e) => Err(e) case Ok(raws) => Assemble(raws)
  }

  // ---------------------------------------------------- canonical header (dkim/canon)

  predicate Wsp(c: char) { c == ' ' || c == '\t' || c == '\r' || c == '\n' }

  /** Relaxed: runs of white space become one space, none at either end. */
  function Collapse(value: string, soFar: string, inSpace: bool): string
    decreases |value|
  {
    if value == "" then soFar
    else if Wsp(value[0]) then Collapse(value[1..], soFar, true)
    else Collapse(value[1..], soFar + (if inSpace && soFar != "" then " " else "") + [value[0]], false)
  }

  function CanonHeader(canon: Canon, name: string, value: string): (line: string)
    ensures |line| >= 2 && line[|line| - 2..] == "\r\n"
  {
    match canon
    case Simple => name + ":" + value + "\r\n"
    case Relaxed => Lower(name) + ":" + Collapse(value, "", false) + "\r\n"
  }

  /** The line without the CRLF that ends it. */
  function Unended(line: string): string
  {
    if |line| >= 2 && line[|line| - 2..] == "\r\n" then line[..|line| - 2] else line
  }

  // ------------------------------------------------- ams.rs: the message signature

  const SIGNED_HEADERS := ["from", "to", "cc", "subject", "date", "message-id"]

  /** The last header named `name` among the first `n` that is not used yet. */
  function LowestUnused(headers: seq<Header>, used: set<nat>, name: string, n: nat): (index: Option<nat>)
    requires n <= |headers|
    ensures index.Some? ==> index.value < n && index.value !in used && Lower(headers[index.value].0) == Lower(name)
  {
    if n == 0 then None
    else if n - 1 !in used && Lower(headers[n - 1].0) == Lower(name) then Some(n - 1)
    else LowestUnused(headers, used, name, n - 1)
  }

  /** The canonical headers `names` selects, each the lowest one not taken before. */
  function SignedLines(canon: Canon, headers: seq<Header>, names: seq<string>, used: set<nat>): string
  {
    if names == [] then ""
    else match LowestUnused(headers, used, names[0], |headers|)
      case None => SignedLines(canon, headers, names[1..], used)
      case Some(i) => CanonHeader(canon, headers[i].0, headers[i].1) + SignedLines(canon, headers, names[1..], used + {i})
  }

  /** The names of `names` the message has a header for, as the signer's loop finds them. */
  function Present(headers: seq<Header>, names: seq<string>, used: set<nat>): seq<string>
  {
    if names == [] then []
    else match LowestUnused(headers, used, names[0], |headers|)
      case None => Present(headers, names[1..], used)
      case Some(i) => [names[0]] + Present(headers, names[1..], used + {i})
  }

  /** What an AMS covers: the selected headers, then itself with `b=` emptied. */
  function HashInput(canon: Canon, headers: seq<Header>, names: seq<string>, rawValue: string): string
  {
    SignedLines(canon, headers, names, {}) + Unended(CanonHeader(canon, "ARC-Message-Signature", StripB(rawValue)))
  }

  datatype Signature = Signature(
    instance: nat, algorithm: Algorithm, domain: string, selector: string,
    names: seq<string>, bodyHash: string, signature: string, headerCanon: Canon, bodyCanon: Canon)

  function ParseInstance(text: Option<string>): Option<nat>
  {
    if text.None? then None
    else match ParseUnsigned(text.value, U32_MAX)
      case Some(n) => if 1 <= n <= MAX_INSTANCE then Some(n) else None
      case None => None
  }

  function ParseAlgorithm(text: Option<string>): Option<Algorithm>
  {
    if text == Some("rsa-sha256") then Some(RsaSha256)
    else if text == Some("ed25519-sha256") then Some(Ed25519Sha256)
    else None
  }

  function ParseCanon(text: string): Option<Canon>
  {
    if text == "simple" then Some(Simple) else if text == "relaxed" then Some(Relaxed) else None
  }

  function ParseCanons(text: Option<string>): (Option<Canon>, Option<Canon>)
  {
    match text
    case None => (Some(Simple), Some(Simple))
    case Some(c) =>
      match SplitOnce(c, '/')
      case Some((header, body)) => (ParseCanon(header), ParseCanon(body))
      case None => (ParseCanon(c), Some(Simple))
  }

  predicate TimestampReads(tags: seq<(string, string)>)
  {
    Get(tags, "t").Some? ==> ParseUnsigned(Get(tags, "t").value, U64_MAX).Some?
  }

  function Decoded(net: Net, text: Option<string>): Option<string>
  {
    if text.None? then None else net.decode64(text.value)
  }

  function LowerAll(names: seq<string>): seq<string>
  {
    seq(|names|, i requires 0 <= i < |names| => Lower(names[i]))
  }

  /** `parse_message_signature` */
  function ParseSignature(net: Net, value: string): Option<Signature>
  {
    match Tags(value) case None => None case Some(tags) => SignatureOf(net, tags)
  }

  function SignatureOf(net: Net, tags: seq<(string, string)>): Option<Signature>
  {
    var instance, algorithm, h := ParseInstance(Get(tags, "i")), ParseAlgorithm(Get(tags, "a")), Get(tags, "h");
    var (headerCanon, bodyCanon) := ParseCanons(Get(tags, "c"));
    var d, s := Get(tags, "d"), Get(tags, "s");
    var bh, b := Decoded(net, Get(tags, "bh")), Decoded(net, Get(tags, "b"));
    if instance.None? || algorithm.None? || h.None? || headerCanon.None? || bodyCanon.None?
      || d.None? || s.None? || bh.None? || b.None? || !TimestampReads(tags) then None
    else
      var names := LowerAll(Split(h.value, ':'));
      if "from" !in names || exists n :: n in names && "arc-" <= n then None
      else Some(Signature(instance.value, algorithm.value, Lower(d.value), Lower(s.value),
                          names, bh.value, b.value, headerCanon.value, bodyCanon.value))
  }

  function KeyName(selector: string, domain: string): string { selector + "._domainkey." + domain }

  function Checked(net: Net, selector: string, domain: string, algorithm: Algorithm, input: string, signature: string): Outcome
  {
    match net.keyAt(KeyName(selector, domain), algorithm)
    case Temporary => TempError
    case Unusable => PermError
    case Key(key) => if net.verify(key, algorithm, input, signature) then Pass else Fail
  }

  /** `ams::verify` */
  function VerifyAms(net: Net, ams: Signature, rawValue: string, m: Message): Outcome
  {
    if net.bodyHash(ams.bodyCanon, m.body) != ams.bodyHash then Fail
    else Checked(net, ams.selector, ams.domain, ams.algorithm,
                 HashInput(ams.headerCanon, m.headers, ams.names, rawValue), ams.signature)
  }

  datatype Sealer = Sealer(key: string, domain: string, selector: string)

  function AmsTags(net: Net, sealer: Sealer, instance: nat, names: seq<string>, body: string, b: string): seq<(string, string)>
    requires names != []
  {
    AmsFront(net, sealer, instance, names, body) + [("b", b)]
  }

  const RELAXED := "relaxed"

  /** The tags of a message signature, all but `b`. */
  function AmsFront(net: Net, sealer: Sealer, instance: nat, names: seq<string>, body: string): seq<(string, string)>
    requires names != []
  {
    [("i", Decimal(instance)), ("a", "ed25519-sha256"), ("c", RELAXED + ['/'] + RELAXED),
     ("d", sealer.domain), ("s", sealer.selector), ("h", Join(names, ':')),
     ("bh", net.encode64(net.bodyHash(Relaxed, body)))]
  }

  /** `ams::build`: the value of the new header, or nothing when From is absent. */
  function BuildAms(net: Net, sealer: Sealer, instance: nat, m: Message): Option<string>
  {
    var names := Present(m.headers, SIGNED_HEADERS, {});
    if "from" !in names then None
    else
      var value := Render(AmsTags(net, sealer, instance, names, m.body, ""));
      var line := CanonHeader(Relaxed, "ARC-Message-Signature", value);
      var input := SignedLines(Relaxed, m.headers, SIGNED_HEADERS, {}) + line[..|line| - 2];
      Some(value + net.encode64(net.sign(sealer.key, input)))
  }

  // -------------------------------------------------------------- seal.rs: the seal

  datatype Seal = Seal(instance: nat, algorithm: Algorithm, domain: string, selector: string, cv: ChainValidation, signature: string)

  /** `parse_seal` */
  function ParseSeal(net: Net, value: string): Option<Seal>
  {
    match Tags(value) case None => None case Some(tags) => SealOf(net, tags)
  }

  function SealOf(net: Net, tags: seq<(string, string)>): Option<Seal>
  {
    var cv := if Get(tags, "cv").None? then None else ParseCv(Get(tags, "cv").value);
    var instance, algorithm := ParseInstance(Get(tags, "i")), ParseAlgorithm(Get(tags, "a"));
    var d, s, b := Get(tags, "d"), Get(tags, "s"), Decoded(net, Get(tags, "b"));
    if Get(tags, "h").Some? || Get(tags, "bh").Some? || cv.None? || instance.None? || algorithm.None?
      || d.None? || s.None? || b.None? || !TimestampReads(tags) then None
    else Some(Seal(instance.value, algorithm.value, Lower(d.value), Lower(s.value), cv.value, b.value))
  }

  function AuthAndSignature(authResults: string, messageSignature: string): string
  {
    CanonHeader(Relaxed, "ARC-Authentication-Results", authResults)
    + CanonHeader(Relaxed, "ARC-Message-Signature", messageSignature)
  }

  function Whole(inst: Instance): string
  {
    AuthAndSignature(inst.authResults, inst.messageSignature) + CanonHeader(Relaxed, "ARC-Seal", inst.seal)
  }

  function FinalSealLine(value: string): string { Unended(CanonHeader(Relaxed, "ARC-Seal", value)) }

  function Insert(inst: Instance, sorted: seq<Instance>): seq<Instance>
  {
    if sorted == [] || inst.instance <= sorted[0].instance then [inst] + sorted
    else [sorted[0]] + Insert(inst, sorted[1..])
  }

  /** Instances in increasing order (a stable sort by instance). */
  function Sorted(instances: seq<Instance>): seq<Instance>
  {
    if instances == [] then [] else Insert(instances[0], Sorted(instances[1..]))
  }

  /** The signer's input for the instances before its own. */
  function PriorInput(sorted: seq<Instance>): string
  {
    if sorted == [] then "" else Whole(sorted[0]) + PriorInput(sorted[1..])
  }

  /** What one instance adds to the verifier's input for the seal of `instance`. */
  function SealPiece(inst: Instance, instance: nat, rawValue: string): string
  {
    if inst.instance > instance then ""
    else if inst.instance == instance then
      AuthAndSignature(inst.authResults, inst.messageSignature) + FinalSealLine(StripB(rawValue))
    else Whole(inst)
  }

  /** The verifier's input: everything up to the seal, the seal itself with `b=` emptied. */
  function SealInput(sorted: seq<Instance>, instance: nat, rawValue: string): string
  {
    if sorted == [] then "" else SealPiece(sorted[0], instance, rawValue) + SealInput(sorted[1..], instance, rawValue)
  }

  /** `seal::verify` */
  function VerifySeal(net: Net, seal: Seal, rawValue: string, instances: seq<Instance>): Outcome
  {
    Checked(net, seal.selector, seal.domain, seal.algorithm,
            SealInput(Sorted(instances), seal.instance, rawValue), seal.signature)
  }

  function SealTags(sealer: Sealer, instance: nat, cv: ChainValidation, b: string): seq<(string, string)>
  {
    SealFront(sealer, instance, cv) + [("b", b)]
  }

  function SealFront(sealer: Sealer, instance: nat, cv: ChainValidation): seq<(string, string)>
  {
    [("i", Decimal(instance)), ("a", "ed25519-sha256"), ("d", sealer.domain), ("s", sealer.selector), ("cv", CvText(cv))]
  }

  /** `seal::build`: the value of the new ARC-Seal. */
  function BuildSeal(net: Net, sealer: Sealer, instance: nat, cv: ChainValidation, prior: seq<Instance>, aar: string, ams: string): string
  {
    var value := Render(SealTags(sealer, instance, cv, ""));
    var input := PriorInput(Sorted(prior)) + AuthAndSignature(aar, ams) + FinalSealLine(value);
    value + net.encode64(net.sign(sealer.key, input))
  }

  // ------------------------------------------------------------- sealer.rs: one hop

  function HighestOf(prior: seq<Instance>): nat
  {
    if prior == [] then 0 else Max(prior[0].instance, HighestOf(prior[1..]))
  }

  function NextInstance(prior: seq<Instance>): Option<nat>
  {
    var next := HighestOf(prior) + 1;
    if next <= MAX_INSTANCE then Some(next) else None
  }

  function AarValue(sealer: Sealer, instance: nat, authResults: string): string
  {
    " i=" + Decimal(instance) + "; " + sealer.domain + "; " + authResults
  }

  /** `ArcSealer::seal`: the three headers to put on top, or nothing. */
  function SealHeaders(net: Net, sealer: Sealer, m: Message, authResults: string, prior: seq<Instance>, cv: ChainValidation): Option<seq<Header>>
  {
    match NextInstance(prior)
    case None => None
    case Some(instance) =>
      match BuildAms(net, sealer, instance, m)
      case None => None
      case Some(ams) =>
        var aar := AarValue(sealer, instance, authResults);
        var seal := BuildSeal(net, sealer, instance, cv, prior, aar, ams);
        Some([("ARC-Seal", seal), ("ARC-Message-Signature", ams), ("ARC-Authentication-Results", aar)])
  }

  // ------------------------------------------------------------ validate.rs: verdict

  function ExpectedCv(instance: nat): ChainValidation { if instance == 1 then CvNone else CvPass }

  predicate CvConsistent(net: Net, inst: Instance)
  {
    match ParseSeal(net, inst.seal)
    case None => false
    case Some(seal) => seal.cv == ExpectedCv(inst.instance)
  }

  predicate SealHolds(net: Net, inst: Instance, instances: seq<Instance>)
  {
    match ParseSeal(net, inst.seal)
    case None => false
    case Some(seal) => VerifySeal(net, seal, inst.seal, instances) == Pass
  }

  predicate AmsHolds(net: Net, newest: Instance, m: Message)
  {
    match ParseSignature(net, newest.messageSignature)
    case None => false
    case Some(ams) => VerifyAms(net, ams, newest.messageSignature, m) == Pass
  }

  predicate ChainHolds(net: Net, instances: seq<Instance>, m: Message)
    requires instances != []
  {
    && (forall i {:trigger CvConsistent(net, instances[i])} :: 0 <= i < |instances| ==> CvConsistent(net, instances[i]))
    && AmsHolds(net, Last(instances), m)
    && (forall i {:trigger SealHolds(net, instances[i], instances)} :: 0 <= i < |instances| ==> SealHolds(net, instances[i], instances))
  }

  /** `validate` */
  function Validate(net: Net, m: Message): ChainValidation
  {
    match Extract(m.headers)
    case Err(_) => CvFail
    case Ok(None) => CvNone
    case Ok(Some(instances)) => if instances != [] && ChainHolds(net, instances, m) then CvPass else CvFail
  }
}
