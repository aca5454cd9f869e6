/** What every hop of an ARC chain can rely on (sections 5.1 and 5.2 of RFC 8617). */
module ArcHops {
  import opened Basics
  import opened Text
  import opened ArcTags
  import opened Arc

  // --------------------------------------------------------------- names and values

  /** A text without white space, `;` or `:`. */
  predicate Dense(s: string) { forall c :: c in s ==> !Whitespace(c) && c != ';' && c != ':' }

  lemma {:induction false} SignedNamesArePlain(name: string)
    requires name in SIGNED_HEADERS
    ensures Dense(name) && Lower(name) == name && !("arc-" <= name) && KindOf(name) == None
  {
    assert name == "from" || name == "to" || name == "cc" || name == "subject" || name == "date" || name == "message-id";
    assert Lower(name) == name && name[0] != 'a';
  }

  lemma {:induction false} JoinedNames(names: seq<string>)
    requires names != [] && forall n :: n in names ==> n in SIGNED_HEADERS
    ensures forall c :: c in Join(names, ':') ==> !Whitespace(c) && c != ';'
    ensures LowerAll(Split(Join(names, ':'), ':')) == names
  {
    forall n | n in names ensures Dense(n) && Lower(n) == n { SignedNamesArePlain(n); }
    SplitOfJoin(names, ':');
    JoinIsDense(names);
  }

  lemma {:induction false} JoinIsDense(names: seq<string>)
    requires names != [] && forall n :: n in names ==> Dense(n)
    ensures forall c :: c in Join(names, ':') ==> !Whitespace(c) && c != ';'
  {
    assert names[0] in names;
    if |names| > 1 { JoinIsDense(names[1..]); }
  }

  /** Writing the signature after the empty `b=` completes the value. */
  lemma {:induction false} JoinGrows(parts: seq<string>, last: string, more: string)
    ensures Join(parts + [last], ';') + more == Join(parts + [last + more], ';')
  {
    if parts == [] {
      assert parts + [last] == [last] && parts + [last + more] == [last + more];
    } else {
      JoinGrows(parts[1..], last, more);
      assert (parts + [last])[1..] == parts[1..] + [last];
      assert (parts + [last + more])[1..] == parts[1..] + [last + more];
    }
  }

  lemma {:induction false} RenderGrows(tags: seq<(string, string)>, b: string)
    ensures Render(tags + [("b", "")]) + b == Render(tags + [("b", b)])
  {
    assert Written(("b", "")) == " b=" && Written(("b", b)) == " b=" + b;
    assert Pieces(tags + [("b", "")]) == Pieces(tags) + [" b="];
    assert Pieces(tags + [("b", b)]) == Pieces(tags) + [" b=" + b];
    JoinGrows(Pieces(tags), " b=", b);
  }

  // --------------------------------------------------------------------- the headers

  /** The signer's loop and the verifier's loop over `h=` select the same headers. */
  lemma {:induction false} PresentSelectsTheSame(canon: Canon, headers: seq<Header>, names: seq<string>, used: set<nat>)
    ensures SignedLines(canon, headers, Present(headers, names, used), used) == SignedLines(canon, headers, names, used)
    ensures forall n :: n in Present(headers, names, used) ==> n in names
  {
    if names != [] {
      match LowestUnused(headers, used, names[0], |headers|)
      case None => PresentSelectsTheSame(canon, headers, names[1..], used);
      case Some(i) =>
        PresentSelectsTheSame(canon, headers, names[1..], used + {i});
        var rest := Present(headers, names[1..], used + {i});
        assert ([names[0]] + rest)[1..] == rest;
    }
  }

  /** The places `used`, below so many more header fields. */
  function Shift(used: set<nat>, offset: nat): set<nat>
  {
    set i | i in used :: i + offset
  }

  /** No header field has that name. */
  ghost predicate NotNamed(headers: seq<Header>, name: string)
  {
    forall h :: h in headers ==> Lower(h.0) != Lower(name)
  }

  lemma {:induction false} ShiftOneMore(used: set<nat>, offset: nat, i: nat)
    ensures Shift(used + {i}, offset) == Shift(used, offset) + {i + offset}
  {
  }

  lemma {:induction false} LowestUnusedUnder(top: seq<Header>, headers: seq<Header>, used: set<nat>, name: string, n: nat)
    requires n <= |headers| && NotNamed(top, name)
    ensures LowestUnused(top + headers, Shift(used, |top|), name, n + |top|) ==
      match LowestUnused(headers, used, name, n) case None => None case Some(i) => Some(i + |top|)
  {
    if n == 0 {
      NothingAmong(top, headers, Shift(used, |top|), name, |top|);
    } else {
      assert (top + headers)[n - 1 + |top|] == headers[n - 1];
      assert n - 1 + |top| in Shift(used, |top|) <==> n - 1 in used;
      LowestUnusedUnder(top, headers, used, name, n - 1);
    }
  }

  lemma {:induction false} NothingAmong(top: seq<Header>, headers: seq<Header>, used: set<nat>, name: string, n: nat)
    requires n <= |top| && NotNamed(top, name)
    ensures LowestUnused(top + headers, used, name, n) == None
  {
    if n > 0 {
      assert (top + headers)[n - 1] == top[n - 1];
      NothingAmong(top, headers, used, name, n - 1);
    }
  }

  /** No header field has one of the names. */
  ghost predicate NoneNamed(headers: seq<Header>, names: seq<string>)
  {
    names != [] ==> NotNamed(headers, names[0]) && NoneNamed(headers, names[1..])
  }

  lemma {:induction false} FoundUnder(top: seq<Header>, headers: seq<Header>, all: seq<Header>, used: set<nat>, shifted: set<nat>, name: string)
    requires NotNamed(top, name) && all == top + headers && shifted == Shift(used, |top|)
    ensures var i := LowestUnused(headers, used, name, |headers|);
      && LowestUnused(all, shifted, name, |all|) == (if i.None? then None else Some(i.value + |top|))
      && (i.Some? ==> all[i.value + |top|] == headers[i.value])
  {
    LowestUnusedUnder(top, headers, used, name, |headers|);
  }

  /** Headers put on top under other names do not change what a signature covers. */
  lemma {:induction false} TopDoesNotMatter(canon: Canon, top: seq<Header>, headers: seq<Header>, all: seq<Header>,
                                            names: seq<string>, used: set<nat>, shifted: set<nat>)
    requires NoneNamed(top, names) && all == top + headers && shifted == Shift(used, |top|)
    ensures SignedLines(canon, all, names, shifted) == SignedLines(canon, headers, names, used)
    decreases |names|
  {
    if names != [] {
      FoundUnder(top, headers, all, used, shifted, names[0]);
      var i := LowestUnused(headers, used, names[0], |headers|);
      if i.Some? {
        ShiftOneMore(used, |top|, i.value);
        TopDoesNotMatter(canon, top, headers, all, names[1..], used + {i.value}, shifted + {i.value + |top|});
        SameLine(canon, headers, all, names, used, shifted, i.value, i.value + |top|);
      } else {
        TopDoesNotMatter(canon, top, headers, all, names[1..], used, shifted);
      }
    }
  }

  lemma {:induction false} SameLine(canon: Canon, headers: seq<Header>, all: seq<Header>, names: seq<string>,
                                    used: set<nat>, shifted: set<nat>, i: nat, k: nat)
    requires names != [] && i < |headers| && k < |all| && headers[i] == all[k]
    requires LowestUnused(headers, used, names[0], |headers|) == Some(i) && LowestUnused(all, shifted, names[0], |all|) == Some(k)
    requires SignedLines(canon, all, names[1..], shifted + {k}) == SignedLines(canon, headers, names[1..], used + {i})
    ensures SignedLines(canon, all, names, shifted) == SignedLines(canon, headers, names, used)
  {
    SelectsFirst(canon, headers, names, used, i, headers[i]);
    SelectsFirst(canon, all, names, shifted, k, headers[i]);
  }

  lemma {:induction false} NoneAreNamed(headers: seq<Header>, names: seq<string>)
    requires forall h, n :: h in headers && n in names ==> Lower(h.0) != Lower(n)
    ensures NoneNamed(headers, names)
  {
    if names != [] {
      NoneAreNamed(headers, names[1..]);
    }
  }

  lemma {:induction false} SelectsFirst(canon: Canon, headers: seq<Header>, names: seq<string>, used: set<nat>, i: nat, h: Header)
    requires names != [] && LowestUnused(headers, used, names[0], |headers|) == Some(i) && i < |headers| && headers[i] == h
    ensures SignedLines(canon, headers, names, used) == CanonHeader(canon, h.0, h.1) + SignedLines(canon, headers, names[1..], used + {i})
  {
  }

  // ----------------------------------------------------------- a signature that was built

  /** The sealer's texts can be written as tag values, and the DNS publishes its key where it is looked up. */
  ghost predicate Published(net: Net, sealer: Sealer)
  {
    && ';' !in sealer.domain && ';' !in sealer.selector
    && net.keyAt(KeyName(Lower(Compact(sealer.selector)), Lower(Compact(sealer.domain))), Ed25519Sha256)
       == Key(net.publicKey(sealer.key))
  }

  lemma {:induction false} EncodedIsDense(net: Net, x: string)
    requires Sound(net)
    ensures ';' !in net.encode64(x) && Compact(net.encode64(x)) == net.encode64(x)
    ensures Decoded(net, Some(Compact(net.encode64(x)))) == Some(x)
  {
    CompactOfDense(net.encode64(x));
  }

  lemma {:induction false} InstanceIsRead(n: nat)
    requires 1 <= n <= MAX_INSTANCE
    ensures ParseInstance(Some(Compact(Decimal(n)))) == Some(n)
    ensures ';' !in Decimal(n)
  {
    DecimalIsRead(n);
    CompactOfDense(Decimal(n));
    ParseOfDecimal(n, U32_MAX);
  }

  lemma {:induction false} NamesArePlain()
    ensures PlainName("i") && PlainName("a") && PlainName("c") && PlainName("d") && PlainName("s")
    ensures PlainName("h") && PlainName("bh") && PlainName("b") && PlainName("cv") && PlainName("t")
  {
  }

  lemma {:induction false} AmsFrontIsPlain(net: Net, sealer: Sealer, instance: nat, names: seq<string>, body: string)
    requires Sound(net) && Published(net, sealer) && 1 <= instance <= MAX_INSTANCE
    requires names != [] && forall n :: n in names ==> n in SIGNED_HEADERS
    ensures Plain(AmsFront(net, sealer, instance, names, body))
  {
    NamesArePlain();
    InstanceIsRead(instance);
    JoinedNames(names);
    EncodedIsDense(net, net.bodyHash(Relaxed, body));
  }

  lemma {:induction false} PlainWithB(front: seq<(string, string)>, b: string)
    requires Plain(front) && ';' !in b
    ensures Plain(front + [("b", b)])
  {
    NamesArePlain();
  }

  function Names(tags: seq<(string, string)>): seq<string>
  {
    seq(|tags|, i requires 0 <= i < |tags| => tags[i].0)
  }

  /** In a list of distinct names every tag is found. */
  lemma {:induction false} TagIsFound(tags: seq<(string, string)>, i: nat)
    requires i < |tags| && NoDuplicates(Names(tags))
    ensures Get(tags, tags[i].0) == Some(tags[i].1)
  {
    forall j | 0 <= j < i ensures tags[j].0 != tags[i].0 {
      assert Names(tags)[j] != Names(tags)[i];
    }
    GetAt(tags, i);
  }

  const AMS_NAMES := ["i", "a", "c", "d", "s", "h", "bh", "b"]

  lemma {:induction false} AmsNamesDiffer()
    ensures NoDuplicates(AMS_NAMES) && "t" !in AMS_NAMES
  {
  }

  /** The values of a built message signature, as the parser finds them. */
  lemma {:induction false} AmsTagsAreRead(net: Net, sealer: Sealer, instance: nat, names: seq<string>, body: string, b: string)
    requires names != []
    ensures var read := Compacted(AmsTags(net, sealer, instance, names, body, b));
      && Names(read) == AMS_NAMES && Get(read, "t") == None
      && forall i :: 0 <= i < |read| ==> Get(read, AMS_NAMES[i]) == Some(read[i].1)
  {
    var read := Compacted(AmsTags(net, sealer, instance, names, body, b));
    AmsNamesDiffer();
    assert Names(read) == AMS_NAMES;
    forall i | 0 <= i < |read| ensures Get(read, AMS_NAMES[i]) == Some(read[i].1) {
      assert read[i].0 == Names(read)[i] == AMS_NAMES[i];
      TagIsFound(read, i);
    }
    forall j | 0 <= j < |read| ensures read[j].0 != "t" { assert read[j].0 == Names(read)[j] == AMS_NAMES[j]; }
    NoTag(read, "t");
  }

  lemma {:induction false} AlgorithmIsRead(s: string)
    requires s == "ed25519-sha256"
    ensures ParseAlgorithm(Some(Compact(s))) == Some(Ed25519Sha256)
  {
    AlgorithmIsDense(s);
    assert |s| == 14 && |"rsa-sha256"| == 10;
  }

  lemma {:induction false} AlgorithmIsDense(s: string)
    requires s == "ed25519-sha256"
    ensures Compact(s) == s
  {
    assert forall i :: 0 <= i < |s| ==> !Whitespace(s[i]);
    CompactOfDense(s);
  }

  lemma {:induction false} CanonsAreRead(relaxed: string)
    requires relaxed == "relaxed"
    ensures ParseCanons(Some(Compact(relaxed + ['/'] + relaxed))) == (Some(Relaxed), Some(Relaxed))
  {
    CompactOfDense(relaxed + ['/'] + relaxed);
    SplitOnceAt(relaxed, relaxed, '/');
  }

  lemma {:induction false} SignatureFromTags(net: Net, read: seq<(string, string)>, instance: nat, d: string, s: string, names: seq<string>, bh: string, x: string)
    requires "from" in names && forall n :: n in names ==> n in SIGNED_HEADERS
    requires ParseInstance(Get(read, "i")) == Some(instance) && ParseAlgorithm(Get(read, "a")) == Some(Ed25519Sha256)
    requires ParseCanons(Get(read, "c")) == (Some(Relaxed), Some(Relaxed))
    requires Get(read, "h").Some? && LowerAll(Split(Get(read, "h").value, ':')) == names
    requires Get(read, "d") == Some(d) && Get(read, "s") == Some(s) && Get(read, "t") == None
    requires Decoded(net, Get(read, "bh")) == Some(bh) && Decoded(net, Get(read, "b")) == Some(x)
    ensures SignatureOf(net, read) ==
      Some(Signature(instance, Ed25519Sha256, Lower(d), Lower(s), names, bh, x, Relaxed, Relaxed))
  {
    forall n | n in names ensures !("arc-" <= n) { SignedNamesArePlain(n); }
  }

  lemma {:induction false} AmsIsParsed(net: Net, sealer: Sealer, instance: nat, names: seq<string>, body: string, x: string)
    requires Sound(net) && 1 <= instance <= MAX_INSTANCE
    requires "from" in names && forall n :: n in names ==> n in SIGNED_HEADERS
    ensures SignatureOf(net, Compacted(AmsTags(net, sealer, instance, names, body, net.encode64(x)))) ==
      Some(Signature(instance, Ed25519Sha256, Lower(Compact(sealer.domain)), Lower(Compact(sealer.selector)),
                     names, net.bodyHash(Relaxed, body), x, Relaxed, Relaxed))
  {
    var tags := AmsTags(net, sealer, instance, names, body, net.encode64(x));
    var read := Compacted(tags);
    AmsTagsAreRead(net, sealer, instance, names, body, net.encode64(x));
    assert |read| == 8;
    assert Get(read, AMS_NAMES[0]) == Some(read[0].1) && Get(read, AMS_NAMES[1]) == Some(read[1].1);
    assert Get(read, AMS_NAMES[2]) == Some(read[2].1) && Get(read, AMS_NAMES[3]) == Some(read[3].1);
    assert Get(read, AMS_NAMES[4]) == Some(read[4].1) && Get(read, AMS_NAMES[5]) == Some(read[5].1);
    assert Get(read, AMS_NAMES[6]) == Some(read[6].1) && Get(read, AMS_NAMES[7]) == Some(read[7].1);
    InstanceIsRead(instance);
    AlgorithmIsRead(tags[1].1);
    CanonsAreRead(RELAXED);
    JoinedNames(names);
    CompactOfDense(Join(names, ':'));
    EncodedIsDense(net, net.bodyHash(Relaxed, body));
    EncodedIsDense(net, x);
    SignatureFromTags(net, read, instance, Compact(sealer.domain), Compact(sealer.selector), names, net.bodyHash(Relaxed, body), x);
  }

  /** The tag at an index is found when no earlier one has its name. */
  lemma {:induction false} GetAt(tags: seq<(string, string)>, i: nat)
    requires i < |tags| && forall j :: 0 <= j < i ==> tags[j].0 != tags[i].0
    ensures Get(tags, tags[i].0) == Some(tags[i].1)
  {
    if i > 0 { GetAt(tags[1..], i - 1); }
  }

  lemma {:induction false} NoTag(tags: seq<(string, string)>, key: string)
    requires forall j :: 0 <= j < |tags| ==> tags[j].0 != key
    ensures Get(tags, key) == None
  {
    if tags != [] { NoTag(tags[1..], key); }
  }

  /** Emptying the `b=` that was written last gives back what was signed. */
  lemma {:induction false} SignedValue(front: seq<(string, string)>, b: string)
    requires Plain(front) && ';' !in b && forall i :: 0 <= i < |front| ==> front[i].0 != "b"
    ensures Render(front + [("b", "")]) + b == Render(front + [("b", b)])
    ensures StripB(Render(front + [("b", b)])) == Render(front + [("b", "")])
    ensures Tags(Render(front + [("b", b)])) == Some(Compacted(front + [("b", b)]))
  {
    RenderGrows(front, b);
    PlainWithB(front, b);
    StripOfRender(front + [("b", b)]);
    assert Unsigned(front + [("b", b)]) == front + [("b", "")];
    RenderIsRead(front + [("b", b)]);
  }

  /** A freshly built message signature verifies, also under ARC headers put on top of the message. */
  lemma {:induction false} BuiltAmsHolds(net: Net, sealer: Sealer, instance: nat, m: Message, top: seq<Header>)
    requires Sound(net) && Published(net, sealer) && 1 <= instance <= MAX_INSTANCE
    requires BuildAms(net, sealer, instance, m).Some?
    requires forall h :: h in top ==> KindOf(h.0).Some?
    ensures var value := BuildAms(net, sealer, instance, m).value;
      && ParseSignature(net, value).Some?
      && VerifyAms(net, ParseSignature(net, value).value, value, Message(top + m.headers, m.body)) == Pass
      && InstanceTag(value) == Some(instance)
  {
    var names := Present(m.headers, SIGNED_HEADERS, {});
    PresentSelectsTheSame(Relaxed, m.headers, SIGNED_HEADERS, {});
    var front := AmsFront(net, sealer, instance, names, m.body);
    var line := CanonHeader(Relaxed, "ARC-Message-Signature", Render(front + [("b", "")]));
    var input := SignedLines(Relaxed, m.headers, SIGNED_HEADERS, {}) + line[..|line| - 2];
    var x := net.sign(sealer.key, input);
    EncodedIsDense(net, x);
    AmsFrontIsPlain(net, sealer, instance, names, m.body);
    SignedValue(front, net.encode64(x));
    AmsIsParsed(net, sealer, instance, names, m.body, x);
    SameHashInput(top, m.headers, names, BuildAms(net, sealer, instance, m).value);
    PlainWithB(front, net.encode64(x));
    WrittenInstanceIsTag(front + [("b", net.encode64(x))], instance);
  }

  lemma {:induction false} SameHashInput(top: seq<Header>, headers: seq<Header>, names: seq<string>, value: string)
    requires forall h :: h in top ==> KindOf(h.0).Some?
    requires forall n :: n in names ==> n in SIGNED_HEADERS
    ensures HashInput(Relaxed, top + headers, names, value) == HashInput(Relaxed, headers, names, value)
  {
    forall h, n | h in top && n in names ensures Lower(h.0) != Lower(n) {
      SignedNamesArePlain(n);
    }
    NoneAreNamed(top, names);
    assert Shift({}, |top|) == {};
    TopDoesNotMatter(Relaxed, top, headers, top + headers, names, {}, {});
  }

  /** The `i=` a signer writes first is the one the chain is assembled by. */
  lemma {:induction false} WrittenInstanceIsTag(tags: seq<(string, string)>, n: nat)
    requires tags != [] && Plain(tags) && tags[0] == ("i", Decimal(n)) && n <= U32_MAX
    ensures InstanceTag(Render(tags)) == Some(n)
  {
    RenderSplits(tags);
    WrittenIsRead(tags[0]);
    LowerOfPlain("i");
    DecimalIsRead(n);
    CompactOfDense(Decimal(n));
    ParseOfDecimal(n, U32_MAX);
  }

  // ---------------------------------------------------------------- a seal that was built

  const SEAL_NAMES := ["i", "a", "d", "s", "cv", "b"]

  lemma {:induction false} SealNamesDiffer()
    ensures NoDuplicates(SEAL_NAMES) && "t" !in SEAL_NAMES && "h" !in SEAL_NAMES && "bh" !in SEAL_NAMES
  {
  }

  lemma {:induction false} SealTagsAreRead(sealer: Sealer, instance: nat, cv: ChainValidation, b: string)
    ensures var read := Compacted(SealTags(sealer, instance, cv, b));
      && Names(read) == SEAL_NAMES && Get(read, "t") == None && Get(read, "h") == None && Get(read, "bh") == None
      && forall i :: 0 <= i < |read| ==> Get(read, SEAL_NAMES[i]) == Some(read[i].1)
  {
    var read := Compacted(SealTags(sealer, instance, cv, b));
    SealNamesDiffer();
    assert Names(read) == SEAL_NAMES;
    forall i | 0 <= i < |read| ensures Get(read, SEAL_NAMES[i]) == Some(read[i].1) {
      assert read[i].0 == Names(read)[i] == SEAL_NAMES[i];
      TagIsFound(read, i);
    }
    forall j | 0 <= j < |read| ensures read[j].0 != "t" && read[j].0 != "h" && read[j].0 != "bh" {
      assert read[j].0 == Names(read)[j] == SEAL_NAMES[j];
    }
    NoTag(read, "t");
    NoTag(read, "h");
    NoTag(read, "bh");
  }

  lemma {:induction false} CvIsRead(cv: ChainValidation, text: string)
    requires text == CvText(cv)
    ensures ParseCv(Compact(text)) == Some(cv) && ';' !in text
  {
    CompactOfDense(text);
    assert Lower(text) == text;
  }

  lemma {:induction false} SealFromTags(net: Net, read: seq<(string, string)>, instance: nat, d: string, s: string, cv: ChainValidation, x: string)
    requires ParseInstance(Get(read, "i")) == Some(instance) && ParseAlgorithm(Get(read, "a")) == Some(Ed25519Sha256)
    requires Get(read, "cv").Some? && ParseCv(Get(read, "cv").value) == Some(cv)
    requires Get(read, "d") == Some(d) && Get(read, "s") == Some(s) && Decoded(net, Get(read, "b")) == Some(x)
    requires Get(read, "t") == None && Get(read, "h") == None && Get(read, "bh") == None
    ensures SealOf(net, read) == Some(Seal(instance, Ed25519Sha256, Lower(d), Lower(s), cv, x))
  {
  }

  lemma {:induction false} SealIsParsed(net: Net, sealer: Sealer, instance: nat, cv: ChainValidation, x: string)
    requires Sound(net) && 1 <= instance <= MAX_INSTANCE
    ensures SealOf(net, Compacted(SealTags(sealer, instance, cv, net.encode64(x)))) ==
      Some(Seal(instance, Ed25519Sha256, Lower(Compact(sealer.domain)), Lower(Compact(sealer.selector)), cv, x))
  {
    var tags := SealTags(sealer, instance, cv, net.encode64(x));
    var read := Compacted(tags);
    SealTagsAreRead(sealer, instance, cv, net.encode64(x));
    assert |read| == 6;
    assert Get(read, SEAL_NAMES[0]) == Some(read[0].1) && Get(read, SEAL_NAMES[1]) == Some(read[1].1);
    assert Get(read, SEAL_NAMES[2]) == Some(read[2].1) && Get(read, SEAL_NAMES[3]) == Some(read[3].1);
    assert Get(read, SEAL_NAMES[4]) == Some(read[4].1) && Get(read, SEAL_NAMES[5]) == Some(read[5].1);
    InstanceIsRead(instance);
    AlgorithmIsRead(tags[1].1);
    CvIsRead(cv, tags[4].1);
    EncodedIsDense(net, x);
    SealFromTags(net, read, instance, Compact(sealer.domain), Compact(sealer.selector), cv, x);
  }

  /** Instances numbered `1..=n` in order, as `Extract` returns them. */
  ghost predicate Numbered(instances: seq<Instance>)
  {
    forall i :: 0 <= i < |instances| ==> instances[i].instance == i + 1
  }

  /** A chain in increasing order is its own sorting. */
  lemma {:induction false} SortedIsSame(instances: seq<Instance>)
    requires forall i, j :: 0 <= i < j < |instances| ==> instances[i].instance < instances[j].instance
    ensures Sorted(instances) == instances
  {
    if instances != [] { SortedIsSame(instances[1..]); }
  }

  /** What a seal covers: everything before its instance, then that instance's own piece. */
  lemma {:induction false} PriorThenOwn(prior: seq<Instance>, newest: Instance, value: string)
    requires forall i :: 0 <= i < |prior| ==> prior[i].instance < newest.instance
    ensures SealInput(prior + [newest], newest.instance, value) == PriorInput(prior) + SealPiece(newest, newest.instance, value)
  {
    var all, own := prior + [newest], SealPiece(newest, newest.instance, value);
    if prior == [] {
      assert all == [newest] && SealInput(all[1..], newest.instance, value) == "" && own + "" == own;
    } else {
      var rest := prior[1..];
      assert all[1..] == rest + [newest] && all[0] == prior[0];
      PriorThenOwn(rest, newest, value);
      PieceIsWhole(prior[0], newest.instance, value);
      Regroup(Whole(prior[0]), PriorInput(rest), own);
    }
  }

  lemma {:induction false} PieceIsWhole(inst: Instance, instance: nat, value: string)
    requires inst.instance < instance
    ensures SealPiece(inst, instance, value) == Whole(inst)
  {
  }

  /** The signer's input and the verifier's input for the newest instance are one text. */
  lemma {:induction false} SameSealInput(prior: seq<Instance>, newest: Instance)
    requires forall i :: 0 <= i < |prior| ==> prior[i].instance < newest.instance
    ensures SealInput(prior + [newest], newest.instance, newest.seal) ==
      PriorInput(prior) + AuthAndSignature(newest.authResults, newest.messageSignature) + FinalSealLine(StripB(newest.seal))
  {
    PriorThenOwn(prior, newest, newest.seal);
    Regroup(PriorInput(prior), AuthAndSignature(newest.authResults, newest.messageSignature), FinalSealLine(StripB(newest.seal)));
  }

  /** A later instance is not part of what an earlier seal covers. */
  lemma {:induction false} LaterInstanceIsSkipped(prior: seq<Instance>, newest: Instance, instance: nat, rawValue: string)
    requires instance < newest.instance
    ensures SealInput(prior + [newest], instance, rawValue) == SealInput(prior, instance, rawValue)
  {
    if prior == [] {
      assert prior + [newest] == [newest];
    } else {
      assert (prior + [newest])[1..] == prior[1..] + [newest];
      LaterInstanceIsSkipped(prior[1..], newest, instance, rawValue);
    }
  }

  lemma {:induction false} NumberedIsSorted(instances: seq<Instance>)
    requires Numbered(instances)
    ensures Sorted(instances) == instances
  {
    SortedIsSame(instances);
  }

  lemma {:induction false} SealFrontIsPlain(sealer: Sealer, instance: nat, cv: ChainValidation)
    requires ';' !in sealer.domain && ';' !in sealer.selector && 1 <= instance <= MAX_INSTANCE
    ensures Plain(SealFront(sealer, instance, cv))
  {
    NamesArePlain();
    InstanceIsRead(instance);
    CvIsRead(cv, CvText(cv));
  }

  /** What the signer signed, when the prior chain is in order. */
  function SealedText(sealer: Sealer, cv: ChainValidation, prior: seq<Instance>, aar: string, ams: string): string
  {
    PriorInput(prior) + AuthAndSignature(aar, ams) + FinalSealLine(Render(SealFront(sealer, |prior| + 1, cv) + [("b", "")]))
  }

  /** The value of a built seal: its tags with the signature as `b`, and what it strips to. */
  lemma {:induction false} BuiltSealText(net: Net, sealer: Sealer, cv: ChainValidation, prior: seq<Instance>, aar: string, ams: string)
    requires Sound(net) && Published(net, sealer) && Numbered(prior) && |prior| < MAX_INSTANCE
    ensures var n := |prior| + 1;
      var value := BuildSeal(net, sealer, n, cv, prior, aar, ams);
      var tags := SealTags(sealer, n, cv, net.encode64(net.sign(sealer.key, SealedText(sealer, cv, prior, aar, ams))));
      value == Render(tags) && StripB(value) == Render(SealFront(sealer, n, cv) + [("b", "")])
      && Tags(value) == Some(Compacted(tags)) && InstanceTag(value) == Some(n)
  {
    var n := |prior| + 1;
    var front := SealFront(sealer, n, cv);
    var b := net.encode64(net.sign(sealer.key, SealedText(sealer, cv, prior, aar, ams)));
    NumberedIsSorted(prior);
    EncodedIsDense(net, net.sign(sealer.key, SealedText(sealer, cv, prior, aar, ams)));
    SealFrontIsPlain(sealer, n, cv);
    SignedValue(front, b);
    PlainWithB(front, b);
    WrittenInstanceIsTag(front + [("b", b)], n);
  }

  /** A freshly built seal verifies on top of the chain it was built for, and says what it was told. */
  lemma {:induction false} BuiltSealHolds(net: Net, sealer: Sealer, cv: ChainValidation, prior: seq<Instance>, aar: string, ams: string)
    requires Sound(net) && Published(net, sealer) && Numbered(prior) && |prior| < MAX_INSTANCE
    ensures var n := |prior| + 1;
      var value := BuildSeal(net, sealer, n, cv, prior, aar, ams);
      && ParseSeal(net, value).Some? && ParseSeal(net, value).value.cv == cv
      && VerifySeal(net, ParseSeal(net, value).value, value, prior + [Instance(n, aar, ams, value)]) == Pass
      && InstanceTag(value) == Some(n)
  {
    var n := |prior| + 1;
    var value := BuildSeal(net, sealer, n, cv, prior, aar, ams);
    var newest := Instance(n, aar, ams, value);
    BuiltSealText(net, sealer, cv, prior, aar, ams);
    SealIsParsed(net, sealer, n, cv, net.sign(sealer.key, SealedText(sealer, cv, prior, aar, ams)));
    NumberedIsSorted(prior + [newest]);
    SameSealInput(prior, newest);
  }

  // ------------------------------------------------------------------ the chain on top

  lemma {:induction false} AarInstanceIsTag(sealer: Sealer, n: nat, authResults: string)
    requires n <= U32_MAX
    ensures InstanceTag(AarValue(sealer, n, authResults)) == Some(n)
  {
    var head, rest := " i=" + Decimal(n), " " + sealer.domain + "; " + authResults;
    assert AarValue(sealer, n, authResults) == head + [';'] + rest;
    DecimalIsRead(n);
    NamesArePlain();
    SplitAfterPlain(head, rest, ';');
    assert head == Written(("i", Decimal(n)));
    WrittenIsRead(("i", Decimal(n)));
    LowerOfPlain("i");
    CompactOfDense(Decimal(n));
    ParseOfDecimal(n, U32_MAX);
  }

  lemma {:induction false} SlotIsThere(raws: seq<RawHeader>, i: nat)
    requires i < |raws| && !HasDuplicate(raws)
    ensures Slot(raws, raws[i].kind, raws[i].instance) == Some(raws[i].value)
  {
    if i > 0 {
      assert !SameSlot(raws[0], raws[i]);
      assert !HasDuplicate(raws[1..]) by {
        forall j, k | 0 <= j < k < |raws[1..]| ensures !SameSlot(raws[1..][j], raws[1..][k]) {
          assert !SameSlot(raws[j + 1], raws[k + 1]);
        }
      }
      SlotIsThere(raws[1..], i - 1);
    }
  }

  lemma {:induction false} SlotComesFrom(raws: seq<RawHeader>, kind: Kind, n: nat)
    requires Slot(raws, kind, n).Some?
    ensures RawHeader(kind, n, Slot(raws, kind, n).value) in raws
  {
    if !(raws[0].kind == kind && raws[0].instance == n) { SlotComesFrom(raws[1..], kind, n); }
  }

  lemma {:induction false} HighestBounds(raws: seq<RawHeader>)
    ensures forall h :: h in raws ==> h.instance <= Highest(raws)
    ensures raws != [] ==> exists h :: h in raws && h.instance == Highest(raws)
  {
    if raws != [] {
      HighestBounds(raws[1..]);
      assert raws[0] in raws;
      if raws[0].instance < Highest(raws[1..]) {
        var h :| h in raws[1..] && h.instance == Highest(raws[1..]);
        assert h in raws;
      }
    }
  }

  lemma {:induction false} InstancesAreWhole(raws: seq<RawHeader>, n: nat, top: nat)
    requires Instances(raws, n, top).Ok? && n <= top + 1
    ensures var chain := Instances(raws, n, top).value;
      |chain| == top + 1 - n && forall i :: 0 <= i < |chain| ==> InstanceAt(raws, n + i) == Ok(chain[i])
    decreases top + 1 - n
  {
    if n <= top {
      InstancesAreWhole(raws, n + 1, top);
      var chain := Instances(raws, n, top).value;
      var rest := Instances(raws, n + 1, top).value;
      forall i | 0 <= i < |chain| ensures InstanceAt(raws, n + i) == Ok(chain[i]) {
        if i > 0 {
          assert chain[i] == rest[i - 1];
          assert InstanceAt(raws, (n + 1) + (i - 1)) == Ok(rest[i - 1]);
        }
      }
    }
  }

  lemma {:induction false} InstancesFromWhole(raws: seq<RawHeader>, n: nat, top: nat, chain: seq<Instance>)
    requires n <= top + 1 && |chain| == top + 1 - n
    requires forall i :: 0 <= i < |chain| ==> InstanceAt(raws, n + i) == Ok(chain[i])
    ensures Instances(raws, n, top) == Ok(chain)
    decreases top + 1 - n
  {
    if n <= top {
      assert InstanceAt(raws, n + 0) == Ok(chain[0]);
      forall i | 0 <= i < |chain[1..]| ensures InstanceAt(raws, (n + 1) + i) == Ok(chain[1..][i]) {
        assert InstanceAt(raws, n + (i + 1)) == Ok(chain[i + 1]);
      }
      InstancesFromWhole(raws, n + 1, top, chain[1..]);
      assert chain == [chain[0]] + chain[1..];
    }
  }

  /** A chain that was assembled is numbered `1..=N`, holds every header, and nothing else. */
  lemma {:induction false} AssembledChain(raws: seq<RawHeader>)
    requires Assemble(raws).Ok? && Assemble(raws).value.Some?
    ensures var chain := Assemble(raws).value.value;
      && chain != [] && Numbered(chain) && |chain| == Highest(raws) <= MAX_INSTANCE
      && (forall i :: 0 <= i < |chain| ==> InstanceAt(raws, i + 1) == Ok(chain[i]))
      && (forall h :: h in raws ==> InRange(h))
      && !HasDuplicate(raws)
  {
    HighestBounds(raws);
    forall h | h in raws ensures InRange(h) {
      var i :| 0 <= i < |raws| && raws[i] == h;
      assert InRange(raws[i]);
    }
    var top := Highest(raws);
    var h :| h in raws && h.instance == top;
    InstancesAreWhole(raws, 1, top);
    var chain := Assemble(raws).value.value;
    forall i | 0 <= i < |chain| ensures InstanceAt(raws, i + 1) == Ok(chain[i]) && chain[i].instance == i + 1 {
      assert InstanceAt(raws, 1 + i) == Ok(chain[i]);
    }
  }

  function NewRaws(n: nat, aar: string, ams: string, seal: string): seq<RawHeader>
  {
    [RawHeader(ArcSeal, n, seal), RawHeader(MessageSignature, n, ams), RawHeader(AuthResults, n, aar)]
  }

  lemma {:induction false} NewSlots(n: nat, aar: string, ams: string, seal: string, raws: seq<RawHeader>, kind: Kind, k: nat)
    ensures Slot(NewRaws(n, aar, ams, seal) + raws, kind, k) ==
      if k == n then Some(match kind case ArcSeal => seal case MessageSignature => ams case AuthResults => aar)
      else Slot(raws, kind, k)
  {
    var r0 := NewRaws(n, aar, ams, seal) + raws;
    var r1 := r0[1..];
    var r2 := r1[1..];
    assert r1[0] == RawHeader(MessageSignature, n, ams) && r2[0] == RawHeader(AuthResults, n, aar);
    assert r2[1..] == raws;
    assert Slot(r2, kind, k) == if k == n && kind == AuthResults then Some(aar) else Slot(raws, kind, k);
    assert Slot(r1, kind, k) == if k == n && kind == MessageSignature then Some(ams) else Slot(r2, kind, k);
  }

  /** Three headers of the next instance on top of a whole chain make a whole chain. */
  lemma {:induction false} AssembleOnTop(raws: seq<RawHeader>, prior: seq<Instance>, aar: string, ams: string, seal: string)
    requires if prior == [] then raws == [] else Assemble(raws) == Ok(Some(prior))
    requires |prior| < MAX_INSTANCE
    ensures var n := |prior| + 1;
      Assemble(NewRaws(n, aar, ams, seal) + raws) == Ok(Some(prior + [Instance(n, aar, ams, seal)]))
  {
    var n := |prior| + 1;
    var new3 := NewRaws(n, aar, ams, seal);
    var all := new3 + raws;
    if raws != [] { AssembledChain(raws); }
    HighestBounds(raws);
    assert forall h :: h in raws ==> InRange(h) && h.instance < n;
    assert forall i :: 0 <= i < |all| ==> InRange(all[i]);
    assert Highest(all) == n by {
      HighestBounds(all);
      assert all[0] in all;
    }
    NoDuplicateOnTop(new3, raws, n);
    var chain := prior + [Instance(n, aar, ams, seal)];
    forall i | 0 <= i < |chain| ensures InstanceAt(all, 1 + i) == Ok(chain[i]) {
      NewSlots(n, aar, ams, seal, raws, AuthResults, 1 + i);
      NewSlots(n, aar, ams, seal, raws, MessageSignature, 1 + i);
      NewSlots(n, aar, ams, seal, raws, ArcSeal, 1 + i);
      if i < |prior| { assert InstanceAt(raws, i + 1) == Ok(prior[i]); }
    }
    InstancesFromWhole(all, 1, n, chain);
  }

  lemma {:induction false} NoDuplicateOnTop(new3: seq<RawHeader>, raws: seq<RawHeader>, n: nat)
    requires |new3| == 3 && new3[0].kind == ArcSeal && new3[1].kind == MessageSignature && new3[2].kind == AuthResults
    requires (forall i :: 0 <= i < 3 ==> new3[i].instance == n) && !HasDuplicate(raws) && forall h :: h in raws ==> h.instance < n
    ensures !HasDuplicate(new3 + raws)
  {
    var all := new3 + raws;
    forall i, j | 0 <= i < j < |all| ensures !SameSlot(all[i], all[j]) {
      if i >= 3 {
        assert all[i] == raws[i - 3] && all[j] == raws[j - 3];
        assert !SameSlot(raws[i - 3], raws[j - 3]);
      } else if j >= 3 {
        assert all[j] in raws;
      }
    }
  }

  lemma {:induction false} OneOnTop(h: Header, kind: Kind, n: nat, headers: seq<Header>)
    requires KindOf(h.0) == Some(kind) && InstanceTag(h.1) == Some(n) && ArcHeaders(headers).Ok?
    ensures ArcHeaders([h] + headers) == Ok([RawHeader(kind, n, h.1)] + ArcHeaders(headers).value)
  {
    assert ReadHeader(h) == Ok([RawHeader(kind, n, h.1)]);
    assert ([h] + headers)[1..] == headers;
  }

  lemma {:induction false} OneByOne<T>(a: T, b: T, c: T, rest: seq<T>)
    ensures [a, b, c] + rest == [a] + ([b] + ([c] + rest))
  {
  }

  lemma {:induction false} ThreeOnTop(h0: Header, h1: Header, h2: Header, n: nat, headers: seq<Header>)
    requires KindOf(h0.0) == Some(ArcSeal) && KindOf(h1.0) == Some(MessageSignature) && KindOf(h2.0) == Some(AuthResults)
    requires InstanceTag(h0.1) == Some(n) && InstanceTag(h1.1) == Some(n) && InstanceTag(h2.1) == Some(n)
    requires ArcHeaders(headers).Ok?
    ensures ArcHeaders([h0, h1, h2] + headers) == Ok(NewRaws(n, h2.1, h1.1, h0.1) + ArcHeaders(headers).value)
  {
    var below1 := [h2] + headers;
    OneOnTop(h2, AuthResults, n, headers);
    var below0 := [h1] + below1;
    OneOnTop(h1, MessageSignature, n, below1);
    OneOnTop(h0, ArcSeal, n, below0);
    OneByOne(h0, h1, h2, headers);
    OneByOne(RawHeader(ArcSeal, n, h0.1), RawHeader(MessageSignature, n, h1.1), RawHeader(AuthResults, n, h2.1), ArcHeaders(headers).value);
  }

  // ------------------------------------------------------------------------- one hop

  /** The ARC header fields of a message, in order. */
  function ArcPart(headers: seq<Header>): seq<Header>
  {
    if headers == [] then []
    else (if KindOf(headers[0].0).Some? then [headers[0]] else []) + ArcPart(headers[1..])
  }

  lemma {:induction false} ExtractReadsArcPart(headers: seq<Header>)
    ensures ArcHeaders(headers) == ArcHeaders(ArcPart(headers))
  {
    if headers != [] {
      ExtractReadsArcPart(headers[1..]);
      var part := ArcPart(headers);
      if KindOf(headers[0].0).Some? {
        assert part[0] == headers[0] && part[1..] == ArcPart(headers[1..]);
      } else {
        assert part == ArcPart(headers[1..]);
        if ArcHeaders(headers[1..]).Ok? { assert [] + ArcHeaders(headers[1..]).value == ArcHeaders(headers[1..]).value; }
      }
    }
  }

  /** Two messages with the same ARC header fields carry the same chain. */
  lemma {:induction false} SameArcPartSameChain(a: seq<Header>, b: seq<Header>)
    requires ArcPart(a) == ArcPart(b)
    ensures ArcHeaders(a) == ArcHeaders(b) && Extract(a) == Extract(b)
  {
    ExtractReadsArcPart(a);
    ExtractReadsArcPart(b);
  }

  /** The chain a hop passes to its sealer. */
  function Prior(headers: seq<Header>): seq<Instance>
  {
    match Extract(headers) case Ok(Some(instances)) => instances case _ => []
  }

  /**
    One hop: the message as received, what its sealer signs it as (the body and the
    other headers may have changed), and the message it sends on.
   */
  function Sent(net: Net, sealer: Sealer, received: Message, signed: Message, authResults: string): Option<Message>
  {
    match SealHeaders(net, sealer, signed, authResults, Prior(received.headers), Validate(net, received))
    case None => None
    case Some(top) => Some(Message(top + signed.headers, signed.body))
  }

  lemma {:induction false} KindsOfNames()
    ensures KindOf("ARC-Seal") == Some(ArcSeal)
    ensures KindOf("ARC-Message-Signature") == Some(MessageSignature)
    ensures KindOf("ARC-Authentication-Results") == Some(AuthResults)
  {
    assert Lower("ARC-Seal") == "arc-seal";
    assert Lower("ARC-Message-Signature") == "arc-message-signature";
    assert Lower("ARC-Authentication-Results") == "arc-authentication-results";
  }

  /** What a chain accepted by the validator holds on to: its seals name their own instances. */
  lemma {:induction false} SealNamesItsInstance(net: Net, headers: seq<Header>, i: nat)
    requires i < |Prior(headers)| && ParseSeal(net, Prior(headers)[i].seal).Some?
    ensures ParseSeal(net, Prior(headers)[i].seal).value.instance == i + 1
  {
    var raws := ArcHeaders(headers).value;
    AssembledChain(raws);
    var inst := Prior(headers)[i];
    assert InstanceAt(raws, i + 1) == Ok(inst);
    SlotComesFrom(raws, ArcSeal, i + 1);
    RawHeadersAreTagged(headers);
    assert InstanceTag(inst.seal) == Some(i + 1);
    NamesArePlain();
    ReadersAgree(Split(inst.seal, ';'), "i");
    NumberIsCompact(Tag(inst.seal, "i").value, U32_MAX);
  }

  lemma {:induction false} RawHeadersAreTagged(headers: seq<Header>)
    requires ArcHeaders(headers).Ok?
    ensures forall h :: h in ArcHeaders(headers).value ==> InstanceTag(h.value) == Some(h.instance)
  {
    if headers != [] {
      RawHeadersAreTagged(headers[1..]);
      assert forall h :: h in ReadHeader(headers[0]).value ==> InstanceTag(h.value) == Some(h.instance);
    }
  }

  lemma {:induction false} PriorIsNumbered(headers: seq<Header>)
    ensures Numbered(Prior(headers)) && |Prior(headers)| <= MAX_INSTANCE
    ensures HighestOf(Prior(headers)) == |Prior(headers)|
  {
    if Prior(headers) != [] { AssembledChain(ArcHeaders(headers).value); }
    HighestOfNumbered(Prior(headers), 1);
  }

  lemma {:induction false} HighestOfNumbered(prior: seq<Instance>, from: nat)
    requires forall i :: 0 <= i < |prior| ==> prior[i].instance == from + i
    ensures HighestOf(prior) == if prior == [] then 0 else from + |prior| - 1
  {
    if prior != [] { HighestOfNumbered(prior[1..], from + 1); }
  }

  /** The seals of the chain so far still hold under one more instance. */
  lemma {:induction false} OldSealsHold(net: Net, headers: seq<Header>, newest: Instance, i: nat)
    requires i < |Prior(headers)| && newest.instance == |Prior(headers)| + 1
    requires SealHolds(net, Prior(headers)[i], Prior(headers))
    ensures SealHolds(net, Prior(headers)[i], Prior(headers) + [newest])
  {
    var prior := Prior(headers);
    PriorIsNumbered(headers);
    SealNamesItsInstance(net, headers, i);
    NumberedIsSorted(prior);
    NumberedIsSorted(prior + [newest]);
    LaterInstanceIsSkipped(prior, newest, i + 1, prior[i].seal);
  }

  /** The instance a hop adds. */
  function Newest(net: Net, sealer: Sealer, m: Message, authResults: string, prior: seq<Instance>, cv: ChainValidation): Instance
    requires BuildAms(net, sealer, |prior| + 1, m).Some?
  {
    var n := |prior| + 1;
    var aar, ams := AarValue(sealer, n, authResults), BuildAms(net, sealer, n, m).value;
    Instance(n, aar, ams, BuildSeal(net, sealer, n, cv, prior, aar, ams))
  }

  function Top(inst: Instance): seq<Header>
  {
    [("ARC-Seal", inst.seal), ("ARC-Message-Signature", inst.messageSignature), ("ARC-Authentication-Results", inst.authResults)]
  }

  lemma {:induction false} SealedAs(net: Net, sealer: Sealer, m: Message, authResults: string, prior: seq<Instance>, cv: ChainValidation)
    requires HighestOf(prior) == |prior| < MAX_INSTANCE && BuildAms(net, sealer, |prior| + 1, m).Some?
    ensures SealHeaders(net, sealer, m, authResults, prior, cv) == Some(Top(Newest(net, sealer, m, authResults, prior, cv)))
  {
    assert NextInstance(prior) == Some(|prior| + 1);
  }

  /** A sealer declines exactly when the chain is full or the message has no From. */
  lemma {:induction false} SealsWhen(net: Net, sealer: Sealer, m: Message, authResults: string, headers: seq<Header>, cv: ChainValidation)
    ensures SealHeaders(net, sealer, m, authResults, Prior(headers), cv).Some?
      <==> |Prior(headers)| < MAX_INSTANCE && "from" in Present(m.headers, SIGNED_HEADERS, {})
  {
    PriorIsNumbered(headers);
    AmsWhen(net, sealer, |Prior(headers)| + 1, m);
  }

  lemma {:induction false} AmsWhen(net: Net, sealer: Sealer, n: nat, m: Message)
    ensures BuildAms(net, sealer, n, m).Some? <==> "from" in Present(m.headers, SIGNED_HEADERS, {})
  {
  }

  /** The three headers of an instance name it in their `i=`. */
  predicate Tagged(inst: Instance, n: nat)
  {
    && inst.instance == n
    && InstanceTag(inst.authResults) == Some(n)
    && InstanceTag(inst.messageSignature) == Some(n)
    && InstanceTag(inst.seal) == Some(n)
  }

  lemma {:induction false} NewestIsTagged(net: Net, sealer: Sealer, m: Message, authResults: string, prior: seq<Instance>, cv: ChainValidation)
    requires Sound(net) && Published(net, sealer) && Numbered(prior) && |prior| < MAX_INSTANCE
    requires BuildAms(net, sealer, |prior| + 1, m).Some?
    ensures Tagged(Newest(net, sealer, m, authResults, prior, cv), |prior| + 1)
  {
    var n := |prior| + 1;
    BuiltAmsHolds(net, sealer, n, m, []);
    BuiltSealHolds(net, sealer, cv, prior, AarValue(sealer, n, authResults), BuildAms(net, sealer, n, m).value);
    AarInstanceIsTag(sealer, n, authResults);
  }

  lemma {:induction false} PriorIsAssembled(headers: seq<Header>, raws: seq<RawHeader>, prior: seq<Instance>)
    requires Extract(headers).Ok? && ArcHeaders(headers) == Ok(raws) && prior == Prior(headers)
    ensures if prior == [] then raws == [] else Assemble(raws) == Ok(Some(prior))
  {
    if raws != [] {
      SomeWhenThere(raws);
      AssembledChain(raws);
    }
  }

  lemma {:induction false} SomeWhenThere(raws: seq<RawHeader>)
    requires raws != [] && Assemble(raws).Ok?
    ensures Assemble(raws).value.Some?
  {
  }

  lemma {:induction false} ChainOnTop(headers: seq<Header>, inst: Instance)
    requires Extract(headers).Ok? && |Prior(headers)| < MAX_INSTANCE && Tagged(inst, |Prior(headers)| + 1)
    ensures Extract(Top(inst) + headers) == Ok(Some(Prior(headers) + [inst]))
  {
    var raws, prior := ArcHeaders(headers).value, Prior(headers);
    PriorIsAssembled(headers, raws, prior);
    RawsOnTop(headers, inst);
    ChainOfRaws(Top(inst) + headers, raws, prior, inst);
  }

  lemma {:induction false} ChainOfRaws(all: seq<Header>, raws: seq<RawHeader>, prior: seq<Instance>, inst: Instance)
    requires if prior == [] then raws == [] else Assemble(raws) == Ok(Some(prior))
    requires inst.instance == |prior| + 1 <= MAX_INSTANCE
    requires ArcHeaders(all) == Ok(NewRaws(inst.instance, inst.authResults, inst.messageSignature, inst.seal) + raws)
    ensures Extract(all) == Ok(Some(prior + [inst]))
  {
    AssembleOnTop(raws, prior, inst.authResults, inst.messageSignature, inst.seal);
  }

  lemma {:induction false} RawsOnTop(headers: seq<Header>, inst: Instance)
    requires ArcHeaders(headers).Ok? && Tagged(inst, inst.instance)
    ensures ArcHeaders(Top(inst) + headers)
         == Ok(NewRaws(inst.instance, inst.authResults, inst.messageSignature, inst.seal) + ArcHeaders(headers).value)
  {
    KindsOfNames();
    ThreeOnTop(Top(inst)[0], Top(inst)[1], Top(inst)[2], inst.instance, headers);
  }

  /** What a hop sends, when it seals at all. */
  lemma {:induction false} SentIs(net: Net, sealer: Sealer, received: Message, signed: Message, authResults: string)
    requires Sent(net, sealer, received, signed, authResults).Some?
    ensures |Prior(received.headers)| < MAX_INSTANCE && BuildAms(net, sealer, |Prior(received.headers)| + 1, signed).Some?
    ensures var inst := Newest(net, sealer, signed, authResults, Prior(received.headers), Validate(net, received));
      Sent(net, sealer, received, signed, authResults) == Some(Message(Top(inst) + signed.headers, signed.body))
  {
    var prior, cv := Prior(received.headers), Validate(net, received);
    PriorIsNumbered(received.headers);
    SealsWhen(net, sealer, signed, authResults, received.headers, cv);
    AmsWhen(net, sealer, |prior| + 1, signed);
    SealedAs(net, sealer, signed, authResults, prior, cv);
  }

  /** The chain the next hop reads: the one before, and the new instance. */
  lemma {:induction false} SentChain(received: seq<Header>, signed: seq<Header>, inst: Instance)
    requires ArcPart(signed) == ArcPart(received) && Extract(received).Ok?
    requires |Prior(received)| < MAX_INSTANCE && Tagged(inst, |Prior(received)| + 1)
    ensures Extract(Top(inst) + signed) == Ok(Some(Prior(received) + [inst]))
  {
    SameArcPartSameChain(signed, received);
    ChainOnTop(signed, inst);
  }

  /** The newest message signature and seal hold, and so do all the seals before. */
  lemma {:induction false} NewestHolds(net: Net, sealer: Sealer, m: Message, authResults: string, prior: seq<Instance>, cv: ChainValidation)
    requires Sound(net) && Published(net, sealer) && Numbered(prior) && |prior| < MAX_INSTANCE
    requires BuildAms(net, sealer, |prior| + 1, m).Some?
    ensures var inst := Newest(net, sealer, m, authResults, prior, cv);
      && AmsHolds(net, inst, Message(Top(inst) + m.headers, m.body))
      && SealHolds(net, inst, prior + [inst])
      && ParseSeal(net, inst.seal).value.cv == cv
  {
    var n, inst := |prior| + 1, Newest(net, sealer, m, authResults, prior, cv);
    KindsOfNames();
    BuiltAmsHolds(net, sealer, n, m, Top(inst));
    BuiltSealHolds(net, sealer, cv, prior, inst.authResults, inst.messageSignature);
  }

  /** What an absent or intact chain means for the instances it holds, and the status it gives the next seal. */
  lemma {:induction false} IntactChain(net: Net, m: Message)
    requires Validate(net, m) != CvFail
    ensures Extract(m.headers).Ok? && Validate(net, m) == ExpectedCv(|Prior(m.headers)| + 1)
    ensures forall i :: 0 <= i < |Prior(m.headers)| ==>
      CvConsistent(net, Prior(m.headers)[i]) && SealHolds(net, Prior(m.headers)[i], Prior(m.headers))
  {
    if Prior(m.headers) != [] { AssembledChain(ArcHeaders(m.headers).value); }
  }

  lemma {:induction false} ChainGrows(net: Net, headers: seq<Header>, inst: Instance, m: Message)
    requires inst.instance == |Prior(headers)| + 1
    requires forall i :: 0 <= i < |Prior(headers)| ==>
      CvConsistent(net, Prior(headers)[i]) && SealHolds(net, Prior(headers)[i], Prior(headers))
    requires AmsHolds(net, inst, m) && SealHolds(net, inst, Prior(headers) + [inst]) && CvConsistent(net, inst)
    ensures ChainHolds(net, Prior(headers) + [inst], m)
  {
    var prior := Prior(headers);
    var chain := prior + [inst];
    forall i | 0 <= i < |chain| ensures CvConsistent(net, chain[i]) && SealHolds(net, chain[i], chain) {
      if i < |prior| {
        assert CvConsistent(net, prior[i]) && SealHolds(net, prior[i], prior);
        OldSealsHold(net, headers, inst, i);
      }
    }
  }

  lemma {:induction false} PassesWhen(net: Net, m: Message, chain: seq<Instance>)
    requires Extract(m.headers) == Ok(Some(chain)) && chain != [] && ChainHolds(net, chain, m)
    ensures Validate(net, m) == CvPass
  {
  }

  /** Sealing an intact chain of `n` instances with the status due at `n + 1` gives an intact chain. */
  lemma {:induction false} SealedChainPasses(net: Net, sealer: Sealer, received: seq<Header>, signed: Message, authResults: string, cv: ChainValidation)
    requires Sound(net) && Published(net, sealer) && ArcPart(signed.headers) == ArcPart(received) && Extract(received).Ok?
    requires |Prior(received)| < MAX_INSTANCE && cv == ExpectedCv(|Prior(received)| + 1)
    requires BuildAms(net, sealer, |Prior(received)| + 1, signed).Some?
    requires forall i :: 0 <= i < |Prior(received)| ==>
      CvConsistent(net, Prior(received)[i]) && SealHolds(net, Prior(received)[i], Prior(received))
    ensures var inst := Newest(net, sealer, signed, authResults, Prior(received), cv);
      Validate(net, Message(Top(inst) + signed.headers, signed.body)) == CvPass
  {
    PriorIsNumbered(received);
    var inst := Newest(net, sealer, signed, authResults, Prior(received), cv);
    var sent := Message(Top(inst) + signed.headers, signed.body);
    NewestIsTagged(net, sealer, signed, authResults, Prior(received), cv);
    SentChain(received, signed.headers, inst);
    NewestHolds(net, sealer, signed, authResults, Prior(received), cv);
    ChainGrows(net, received, inst, sent);
    PassesWhen(net, sent, Prior(received) + [inst]);
  }

  // --------------------------------------------------------------------- whole journeys

  /** One stop of a journey: who seals, what the message was turned into before sealing, and the results recorded. */
  datatype Hop = Hop(sealer: Sealer, signed: Message, authResults: string)

  ghost predicate Stop(net: Net, hop: Hop, received: Message, sent: Message)
  {
    && Published(net, hop.sealer)
    && ArcPart(hop.signed.headers) == ArcPart(received.headers)
    && Sent(net, hop.sealer, received, hop.signed, hop.authResults) == Some(sent)
  }

  /**
    A hop that found no chain or an intact one, and sealed the message with that
    status, leaves a message the next validator passes.
   */
  lemma {:induction false} HopValidates(net: Net, hop: Hop, received: Message, sent: Message)
    requires Sound(net) && Stop(net, hop, received, sent) && Validate(net, received) != CvFail
    ensures Validate(net, sent) == CvPass
  {
    IntactChain(net, received);
    SentIs(net, hop.sealer, received, hop.signed, hop.authResults);
    SealedChainPasses(net, hop.sealer, received.headers, hop.signed, hop.authResults, Validate(net, received));
  }

  /** The same cryptography and codecs, with the DNS as it is at another time. */
  ghost predicate Timeless(net: Net, later: Net)
  {
    later == net.(keyAt := later.keyAt)
  }

  /** Every key found before is found later, unchanged. */
  ghost predicate KeysStay(net: Net, later: Net)
  {
    && Timeless(net, later)
    && forall name, algorithm :: net.keyAt(name, algorithm).Key? ==> later.keyAt(name, algorithm) == net.keyAt(name, algorithm)
  }

  /** What a signature or a seal says does not depend on the DNS. */
  lemma {:induction false} ReadingIsTimeless(net: Net, later: Net, seal: string, signature: string)
    requires Timeless(net, later)
    ensures ParseSeal(later, seal) == ParseSeal(net, seal)
    ensures ParseSignature(later, signature) == ParseSignature(net, signature)
  {
  }

  lemma {:induction false} SealStays(net: Net, later: Net, seal: Seal, value: string, instances: seq<Instance>)
    requires KeysStay(net, later)
    ensures VerifySeal(net, seal, value, instances) == Pass ==> VerifySeal(later, seal, value, instances) == Pass
  {
  }

  lemma {:induction false} SignatureStays(net: Net, later: Net, ams: Signature, value: string, m: Message)
    requires KeysStay(net, later)
    ensures VerifyAms(net, ams, value, m) == Pass ==> VerifyAms(later, ams, value, m) == Pass
  {
  }

  lemma {:induction false} VerifiedStays(net: Net, later: Net, instances: seq<Instance>, i: nat, m: Message)
    requires KeysStay(net, later) && i < |instances|
    ensures CvConsistent(net, instances[i]) ==> CvConsistent(later, instances[i])
    ensures SealHolds(net, instances[i], instances) ==> SealHolds(later, instances[i], instances)
    ensures AmsHolds(net, instances[i], m) ==> AmsHolds(later, instances[i], m)
  {
    var seal, signature := instances[i].seal, instances[i].messageSignature;
    ReadingIsTimeless(net, later, seal, signature);
    if ParseSeal(net, seal).Some? {
      SealStays(net, later, ParseSeal(net, seal).value, seal, instances);
    }
    if ParseSignature(net, signature).Some? {
      SignatureStays(net, later, ParseSignature(net, signature).value, signature, m);
    }
  }

  /** A message that passed goes on passing while the keys it was sealed with stay published. */
  lemma {:induction false} PassStays(net: Net, later: Net, m: Message)
    requires KeysStay(net, later) && Validate(net, m) == CvPass
    ensures Validate(later, m) == CvPass
  {
    var instances := Extract(m.headers).value.value;
    forall i | 0 <= i < |instances|
      ensures CvConsistent(later, instances[i]) && SealHolds(later, instances[i], instances)
    {
      assert CvConsistent(net, instances[i]) && SealHolds(net, instances[i], instances);
      VerifiedStays(net, later, instances, i, m);
    }
    VerifiedStays(net, later, instances, |instances| - 1, m);
  }

  /**
    The messages of a journey: the one sent first, then what each hop sent on.
    Each hop asks the DNS of its own time, and so does the last recipient.
   */
  ghost predicate Journey(nets: seq<Net>, hops: seq<Hop>, mail: seq<Message>)
  {
    && |mail| == |hops| + 1 == |nets|
    && (forall i :: 0 <= i < |nets| ==> Sound(nets[i]) && Timeless(nets[0], nets[i]))
    && forall i :: 0 <= i < |hops| ==> Stop(nets[i], hops[i], mail[i], mail[i + 1])
  }

  lemma {:induction false} HopThenLater(net: Net, later: Net, hop: Hop, received: Message, sent: Message)
    requires Sound(net) && KeysStay(net, later) && Stop(net, hop, received, sent) && Validate(net, received) != CvFail
    ensures Validate(later, sent) == CvPass
  {
    HopValidates(net, hop, received, sent);
    PassStays(net, later, sent);
  }

  /** From a message with no chain or an intact one, every validation along a journey passes while keys stay published. */
  lemma {:induction false} JourneyValidates(nets: seq<Net>, hops: seq<Hop>, mail: seq<Message>, i: nat)
    requires Journey(nets, hops, mail) && forall k :: 0 <= k < |hops| ==> KeysStay(nets[k], nets[k + 1])
    requires Validate(nets[0], mail[0]) != CvFail && 1 <= i <= |hops|
    ensures Validate(nets[i], mail[i]) == CvPass
  {
    if i > 1 { JourneyValidates(nets, hops, mail, i - 1); }
    var p := i - 1;
    assert Stop(nets[p], hops[p], mail[p], mail[p + 1]) && KeysStay(nets[p], nets[p + 1]);
    HopThenLater(nets[p], nets[i], hops[p], mail[p], mail[i]);
  }

  // ------------------------------------------------------------------- a broken chain

  predicate SaysFail(net: Net, seal: string)
  {
    ParseSeal(net, seal).Some? && ParseSeal(net, seal).value.cv == CvFail
  }

  /** A header field that is an ARC-Seal recording `fail`. */
  predicate RecordsFail(net: Net, h: Header) { KindOf(h.0) == Some(ArcSeal) && SaysFail(net, h.1) }

  /** The index of a seal's value among the ARC headers read. */
  lemma {:induction false} SealHeaderIsRaw(headers: seq<Header>, i: nat) returns (k: nat)
    requires i < |headers| && KindOf(headers[i].0) == Some(ArcSeal) && ArcHeaders(headers).Ok?
    ensures k < |ArcHeaders(headers).value|
    ensures ArcHeaders(headers).value[k].kind == ArcSeal && ArcHeaders(headers).value[k].value == headers[i].1
  {
    if i == 0 {
      k := 0;
    } else {
      var rest := SealHeaderIsRaw(headers[1..], i - 1);
      k := |ReadHeader(headers[0]).value| + rest;
    }
  }

  /** A seal among the headers of a chain is the seal of one of its instances. */
  lemma {:induction false} SealIsInChain(raws: seq<RawHeader>, k: nat) returns (i: nat)
    requires Assemble(raws).Ok? && Assemble(raws).value.Some?
    requires k < |raws| && raws[k].kind == ArcSeal
    ensures i < |Assemble(raws).value.value| && Assemble(raws).value.value[i].seal == raws[k].value
  {
    AssembledChain(raws);
    SlotIsThere(raws, k);
    HighestBounds(raws);
    assert raws[k] in raws;
    i := raws[k].instance - 1;
    assert InstanceAt(raws, i + 1) == Ok(Assemble(raws).value.value[i]);
  }

  lemma {:induction false} FailsWhen(net: Net, m: Message, chain: seq<Instance>, i: nat)
    requires Extract(m.headers) == Ok(Some(chain)) && i < |chain| && SaysFail(net, chain[i].seal)
    ensures Validate(net, m) == CvFail
  {
    assert !CvConsistent(net, chain[i]);
  }

  /** Whatever else changed, a message that still carries a seal recording `fail` is never passed. */
  lemma {:induction false} FailIsForGood(net: Net, m: Message, i: nat)
    requires i < |m.headers| && RecordsFail(net, m.headers[i])
    ensures Validate(net, m) == CvFail
  {
    if ArcHeaders(m.headers).Ok? {
      var k := SealHeaderIsRaw(m.headers, i);
      var raws := ArcHeaders(m.headers).value;
      if Assemble(raws).Ok? {
        var j := SealIsInChain(raws, k);
        FailsWhen(net, m, Assemble(raws).value.value, j);
      }
    }
  }

  /** A hop that found the chain broken records it, if it seals. */
  lemma {:induction false} BrokenHopRecordsFail(net: Net, hop: Hop, received: Message, sent: Message)
    requires Sound(net) && Validate(net, received) == CvFail && Stop(net, hop, received, sent)
    ensures sent.headers != [] && RecordsFail(net, sent.headers[0])
  {
    SentIs(net, hop.sealer, received, hop.signed, hop.authResults);
    PriorIsNumbered(received.headers);
    NewestHolds(net, hop.sealer, hop.signed, hop.authResults, Prior(received.headers), CvFail);
    KindsOfNames();
  }

  lemma {:induction false} ArcPartHas(headers: seq<Header>, h: Header)
    ensures h in ArcPart(headers) <==> h in headers && KindOf(h.0).Some?
  {
    if headers != [] { ArcPartHas(headers[1..], h); }
  }

  /** A hop passes on the ARC headers it received. */
  lemma {:induction false} HopKeepsFail(net: Net, hop: Hop, received: Message, sent: Message, h: Header)
    requires Stop(net, hop, received, sent) && h in received.headers && RecordsFail(net, h)
    ensures h in sent.headers
  {
    ArcPartHas(received.headers, h);
    ArcPartHas(hop.signed.headers, h);
    SentIs(net, hop.sealer, received, hop.signed, hop.authResults);
  }

  /** Once one hop of a journey found the chain broken, the later mail carries the record of it. */
  lemma {:induction false} BrokenJourneyRecords(nets: seq<Net>, hops: seq<Hop>, mail: seq<Message>, i: nat, j: nat) returns (h: Header)
    requires Journey(nets, hops, mail) && i < j <= |hops| && Validate(nets[i], mail[i]) == CvFail
    ensures h in mail[j].headers && RecordsFail(nets[0], h)
  {
    var p := j - 1;
    assert Stop(nets[p], hops[p], mail[p], mail[p + 1]) && Timeless(nets[0], nets[p]);
    if p == i {
      h := RecordsThen(nets[0], nets[p], hops[p], mail[p], mail[j]);
    } else {
      h := BrokenJourneyRecords(nets, hops, mail, i, p);
      KeepsThen(nets[0], nets[p], hops[p], mail[p], mail[j], h);
    }
  }

  lemma {:induction false} RecordsThen(net: Net, later: Net, hop: Hop, received: Message, sent: Message) returns (h: Header)
    requires Timeless(net, later) && Sound(later) && Validate(later, received) == CvFail && Stop(later, hop, received, sent)
    ensures h in sent.headers && RecordsFail(net, h)
  {
    BrokenHopRecordsFail(later, hop, received, sent);
    h := sent.headers[0];
    ReadingIsTimeless(net, later, h.1, "");
  }

  lemma {:induction false} KeepsThen(net: Net, later: Net, hop: Hop, received: Message, sent: Message, h: Header)
    requires Timeless(net, later) && Stop(later, hop, received, sent) && h in received.headers && RecordsFail(net, h)
    ensures h in sent.headers
  {
    ReadingIsTimeless(net, later, h.1, "");
    HopKeepsFail(later, hop, received, sent, h);
  }

  lemma {:induction false} RecordFails(net: Net, later: Net, m: Message, h: Header)
    requires Timeless(net, later) && h in m.headers && RecordsFail(net, h)
    ensures Validate(later, m) == CvFail
  {
    ReadingIsTimeless(net, later, h.1, "");
    var k :| 0 <= k < |m.headers| && m.headers[k] == h;
    FailIsForGood(later, m, k);
  }

  lemma {:induction false} LaterFails(nets: seq<Net>, hops: seq<Hop>, mail: seq<Message>, i: nat, j: nat, later: Net, m: Message)
    requires Journey(nets, hops, mail) && i < j <= |hops| && Validate(nets[i], mail[i]) == CvFail
    requires Timeless(nets[0], later) && m == mail[j]
    ensures Validate(later, m) == CvFail
  {
    var h := BrokenJourneyRecords(nets, hops, mail, i, j);
    RecordFails(nets[0], later, m, h);
  }

  /** Once one hop of a journey found the chain broken, no later validation passes, whatever the DNS says by then. */
  lemma {:induction false} BrokenJourney(nets: seq<Net>, hops: seq<Hop>, mail: seq<Message>, i: nat, j: nat)
    requires Journey(nets, hops, mail) && i <= j <= |hops| && Validate(nets[i], mail[i]) == CvFail
    ensures Validate(nets[j], mail[j]) == CvFail
  {
    if i < j {
      LaterFails(nets, hops, mail, i, j, nets[j], mail[j]);
    } else {
      assert nets[i] == nets[j] && mail[i] == mail[j];
    }
  }
}
