/**
 * UIDs of a mailbox: a counter on disk, and beside each message a file with
 * the UID it was given the first time a scan saw it.
 */
module ImapUids {
  import opened Basics

  /** A mailbox directory. `known` and `given` record every id ever delivered and every UID ever given. */
  datatype Mailbox = Mailbox(files: set<nat>, uids: map<nat, nat>, counter: nat,
                             known: set<nat>, given: seq<(nat, nat)>)

  const EMPTY := Mailbox({}, map[], 0, {}, [])

  // ----- Ids in order -----

  ghost predicate Ordered(s: seq<nat>) {
    forall i, j :: 0 <= i < j < |s| ==> s[i] < s[j]
  }

  lemma {:induction false} LeastExists(s: set<nat>)
    requires s != {}
    ensures exists m :: m in s && forall x :: x in s ==> m <= x
  {
    var m :| m in s;
    if s == {m} {
      assert forall x :: x in s ==> m <= x;
    } else {
      LeastExists(s - {m});
      var m' :| m' in s - {m} && forall x :: x in s - {m} ==> m' <= x;
      var least := Min(m, m');
      forall x | x in s ensures least <= x {
        assert x == m || x in s - {m};
      }
      assert least in s;
    }
  }

  function Least(s: set<nat>): (m: nat)
    requires s != {}
    ensures m in s && forall x :: x in s ==> m <= x
  {
    LeastExists(s);
    var m :| m in s && forall x :: x in s ==> m <= x;
    m
  }

  function Ascending(s: set<nat>): (r: seq<nat>)
    ensures Ordered(r)
    ensures forall x :: x in r <==> x in s
    decreases |s|
  {
    if s == {} then [] else [Least(s)] + Ascending(s - {Least(s)})
  }

  // ----- Steps -----

  /** The UID of a message: the one on file, or the next of a 32-bit counter. */
  function Assign(m: Mailbox, id: nat): Mailbox {
    if id in m.uids then m
    else
      var uid := (m.counter + 1) % U32;
      m.(uids := m.uids[id := uid], counter := uid, given := m.given + [(id, uid)])
  }

  function AssignAll(m: Mailbox, ids: seq<nat>): Mailbox
    decreases |ids|
  {
    if ids == [] then m else AssignAll(Assign(m, ids[0]), ids[1..])
  }

  datatype Event = Deliver(id: nat) | Scan | Expunge(ids: set<nat>)

  function Apply(m: Mailbox, e: Event): Mailbox {
    match e
    case Deliver(id) => m.(files := m.files + {id}, known := m.known + {id})
    case Scan =>
      var m' := AssignAll(m, Ascending(m.files));
      m'.(counter := Max(m.counter, m'.counter))
    case Expunge(ids) => m.(files := m.files - ids, uids := m.uids - ids)
  }

  function Run(m: Mailbox, es: seq<Event>): Mailbox {
    if es == [] then m else Apply(Run(m, Most(es)), Last(es))
  }

  /** A delivered message has an id no message had before. */
  predicate Allowed(m: Mailbox, e: Event) {
    e.Deliver? ==> e.id !in m.known
  }

  predicate AllowedRun(m: Mailbox, es: seq<Event>) {
    es == [] || (AllowedRun(m, Most(es)) && Allowed(Run(m, Most(es)), Last(es)))
  }

  // ----- The invariant -----

  /** The k-th UID ever given is k + 1, up to the one that wraps to zero. */
  predicate Counted(given: seq<(nat, nat)>) {
    forall k :: 0 <= k < |given| && k < U32 ==> given[k].1 == (k + 1) % U32
  }

  ghost predicate Once(given: seq<(nat, nat)>) {
    forall i, j :: 0 <= i < j < |given| ==> given[i].0 != given[j].0
  }

  ghost predicate Valid(m: Mailbox) {
    && m.files <= m.known
    && m.uids.Keys <= m.files
    && Counted(m.given)
    && Once(m.given)
    && (forall k :: 0 <= k < |m.given| ==> m.given[k].0 in m.known)
    && (forall k :: 0 <= k < |m.given| && m.given[k].0 in m.files ==> m.given[k].0 in m.uids)
    && (forall id :: id in m.uids ==> (id, m.uids[id]) in m.given)
    && (|m.given| < U32 ==> m.counter == |m.given|)
  }

  lemma {:induction false} CountedOneMore(given: seq<(nat, nat)>, id: nat, counter: nat)
    requires Counted(given) && (|given| < U32 ==> counter == |given|)
    ensures Counted(given + [(id, (counter + 1) % U32)])
  {
  }

  lemma {:induction false} OnceMore(given: seq<(nat, nat)>, id: nat, uid: nat)
    requires Once(given) && forall k :: 0 <= k < |given| ==> given[k].0 != id
    ensures Once(given + [(id, uid)])
  {
  }

  lemma {:induction false} OnFile(m: Mailbox, id: nat)
    requires Valid(m) && id in m.files && id !in m.uids
    ensures forall x :: x in Assign(m, id).uids ==> (x, Assign(m, id).uids[x]) in Assign(m, id).given
  {
    var m' := Assign(m, id);
    assert m'.given[|m.given|] == (id, m'.uids[id]);
    assert forall p :: p in m.given ==> p in m'.given;
  }

  /** What an assignment does to the records of a message without a UID. */
  lemma {:induction false} GivenNow(m: Mailbox, id: nat)
    requires Valid(m) && id in m.files && id !in m.uids
    ensures var m' := Assign(m, id);
            && Counted(m'.given) && Once(m'.given)
            && (forall k :: 0 <= k < |m'.given| ==> m'.given[k].0 in m'.known)
            && (forall k :: 0 <= k < |m'.given| && m'.given[k].0 in m'.files ==> m'.given[k].0 in m'.uids)
  {
    CountedOneMore(m.given, id, m.counter);
    OnceMore(m.given, id, (m.counter + 1) % U32);
  }

  lemma {:induction false} CounterNow(m: Mailbox, id: nat)
    requires Valid(m) && id !in m.uids
    ensures |Assign(m, id).given| < U32 ==> Assign(m, id).counter == |Assign(m, id).given|
  {
  }

  lemma {:induction false} AssignKeepsValid(m: Mailbox, id: nat)
    requires Valid(m) && id in m.files
    ensures Valid(Assign(m, id)) && Assign(m, id).files == m.files && m.given <= Assign(m, id).given
    ensures m.uids.Keys <= Assign(m, id).uids.Keys && id in Assign(m, id).uids
    ensures forall x :: x in m.uids ==> Assign(m, id).uids[x] == m.uids[x]
  {
    if id !in m.uids {
      GivenNow(m, id);
      CounterNow(m, id);
      OnFile(m, id);
    }
  }

  lemma {:induction false} AssignAllKeepsValid(m: Mailbox, ids: seq<nat>)
    requires Valid(m) && forall x :: x in ids ==> x in m.files
    ensures var m' := AssignAll(m, ids);
            && Valid(m') && m'.files == m.files && m.given <= m'.given
            && m.uids.Keys <= m'.uids.Keys && (forall x :: x in ids ==> x in m'.uids)
            && (forall x :: x in m.uids ==> m'.uids[x] == m.uids[x])
    decreases |ids|
  {
    if ids != [] {
      AssignKeepsValid(m, ids[0]);
      AssignAllKeepsValid(Assign(m, ids[0]), ids[1..]);
      forall x | x in ids ensures x in AssignAll(m, ids).uids {
        if x != ids[0] {
          assert x in ids[1..];
        }
      }
    }
  }

  lemma {:induction false} StepKeepsValid(m: Mailbox, e: Event)
    requires Valid(m) && Allowed(m, e)
    ensures Valid(Apply(m, e)) && m.given <= Apply(m, e).given
  {
    if e.Scan? {
      AssignAllKeepsValid(m, Ascending(m.files));
    }
  }

  lemma {:induction false} RunKeepsValid(es: seq<Event>)
    requires AllowedRun(EMPTY, es)
    ensures Valid(Run(EMPTY, es))
  {
    if es != [] {
      RunKeepsValid(Most(es));
      StepKeepsValid(Run(EMPTY, Most(es)), Last(es));
    }
  }

  // ----- Main results -----

  /** Every UID given is a fresh one and none is zero. */
  ghost predicate Unique(given: seq<(nat, nat)>) {
    && (forall k :: 0 <= k < |given| ==> given[k].1 != 0)
    && (forall i, j :: 0 <= i < j < |given| ==> given[i].1 != given[j].1)
  }

  /** The messages present after some events. */
  function Present(es: seq<Event>): set<nat> {
    if es == [] then {}
    else match Last(es)
      case Deliver(id) => Present(Most(es)) + {id}
      case Scan => Present(Most(es))
      case Expunge(ids) => Present(Most(es)) - ids
  }

  /** The messages that some scan met. */
  function Met(es: seq<Event>): set<nat> {
    if es == [] then {}
    else Met(Most(es)) + if Last(es).Scan? then Present(Most(es)) else {}
  }

  function Ids(given: seq<(nat, nat)>): set<nat> {
    set p | p in given :: p.0
  }

  lemma {:induction false} AssignGives(m: Mailbox, id: nat)
    requires Valid(m) && id in m.files
    ensures Ids(Assign(m, id).given) == Ids(m.given) + {id}
  {
    if id in m.uids {
      assert (id, m.uids[id]) in m.given;
    } else {
      var p := (id, (m.counter + 1) % U32);
      assert forall q :: q in m.given + [p] <==> q in m.given || q == p;
    }
  }

  lemma {:induction false} AssignAllGives(m: Mailbox, ids: seq<nat>)
    requires Valid(m) && forall x :: x in ids ==> x in m.files
    ensures Ids(AssignAll(m, ids).given) == Ids(m.given) + Elements(ids)
    decreases |ids|
  {
    if ids != [] {
      assert ids[0] in ids;
      AssignKeepsValid(m, ids[0]);
      AssignGives(m, ids[0]);
      AssignAllGives(Assign(m, ids[0]), ids[1..]);
      assert Elements(ids) == {ids[0]} + Elements(ids[1..]);
    }
  }

  lemma {:induction false} IdsGivenOnce(given: seq<(nat, nat)>)
    requires Once(given)
    ensures |Ids(given)| == |given|
  {
    if given != [] {
      var most, last := Most(given), Last(given);
      IdsGivenOnce(most);
      assert forall q :: q in given <==> q in most || q == last;
      assert Ids(given) == Ids(most) + {last.0};
      assert last.0 !in Ids(most);
    }
  }

  /** Every message a scan met has been given exactly one UID, and no other message any. */
  lemma {:induction false} GivenToThoseMet(es: seq<Event>)
    requires AllowedRun(EMPTY, es)
    ensures Run(EMPTY, es).files == Present(es) && Ids(Run(EMPTY, es).given) == Met(es)
    ensures |Run(EMPTY, es).given| == |Met(es)|
  {
    MetIsGiven(es);
    RunKeepsValid(es);
    IdsGivenOnce(Run(EMPTY, es).given);
  }

  lemma {:induction false} ScanMeets(m: Mailbox)
    requires Valid(m)
    ensures Apply(m, Scan).files == m.files && Ids(Apply(m, Scan).given) == Ids(m.given) + m.files
  {
    var ids := Ascending(m.files);
    AssignAllGives(m, ids);
    AssignAllKeepsValid(m, ids);
    assert Elements(ids) == m.files;
  }

  lemma {:induction false} MetIsGiven(es: seq<Event>)
    requires AllowedRun(EMPTY, es)
    ensures Run(EMPTY, es).files == Present(es) && Ids(Run(EMPTY, es).given) == Met(es)
  {
    if es != [] {
      MetIsGiven(Most(es));
      var m := Run(EMPTY, Most(es));
      if Last(es).Scan? {
        RunKeepsValid(Most(es));
        ScanMeets(m);
      } else {
        assert Apply(m, Last(es)).given == m.given;
      }
    }
  }

  lemma {:induction false} UniqueUntilItWraps(given: seq<(nat, nat)>)
    requires Counted(given)
    ensures Unique(given) <==> |given| < U32
  {
    if |given| < U32 {
      forall k | 0 <= k < |given| ensures given[k].1 == k + 1 {
        assert (k + 1) % U32 == k + 1;
      }
    } else {
      assert given[U32 - 1].1 == 0;
    }
  }

  /** No UID is given twice, and none is zero, in exactly the runs whose scans meet fewer than 2^32 messages. */
  lemma {:induction false} UniqueExactlyWhen(es: seq<Event>)
    requires AllowedRun(EMPTY, es)
    ensures Unique(Run(EMPTY, es).given) <==> |Met(es)| < U32
    ensures Once(Run(EMPTY, es).given)
  {
    RunKeepsValid(es);
    GivenToThoseMet(es);
    UniqueUntilItWraps(Run(EMPTY, es).given);
  }

  function Deliveries(n: nat): (es: seq<Event>)
    ensures |es| == n
  {
    seq(n, i requires 0 <= i < n => Deliver(i))
  }

  lemma {:induction false} Delivered(n: nat)
    ensures AllowedRun(EMPTY, Deliveries(n)) && forall x :: x in Present(Deliveries(n)) ==> x < n
    ensures |Present(Deliveries(n))| == n && Run(EMPTY, Deliveries(n)).known == Present(Deliveries(n))
  {
    if n > 0 {
      Delivered(n - 1);
      var es := Deliveries(n);
      assert Most(es) == Deliveries(n - 1) && Last(es) == Deliver(n - 1);
      assert n - 1 !in Present(Most(es));
    }
  }

  /** After 2^32 deliveries a scan gives the last of them UID 0. */
  lemma {:induction false} TooManyMessages()
    ensures var es := Deliveries(U32) + [Scan];
            && AllowedRun(EMPTY, es) && |Met(es)| == U32 && !Unique(Run(EMPTY, es).given)
            && |Run(EMPTY, es).given| == U32 && Run(EMPTY, es).given[U32 - 1].1 == 0
  {
    var es := Deliveries(U32) + [Scan];
    assert Most(es) == Deliveries(U32);
    Delivered(U32);
    NobodyMet(U32);
    UniqueExactlyWhen(es);
    GivenToThoseMet(es);
    RunKeepsValid(es);
  }

  lemma {:induction false} NobodyMet(n: nat)
    ensures Met(Deliveries(n)) == {}
  {
    if n > 0 {
      NobodyMet(n - 1);
      assert Most(Deliveries(n)) == Deliveries(n - 1);
    }
  }

  lemma {:induction false} WithinCounter(m: Mailbox, id: nat)
    requires Valid(m) && id in m.uids && |m.given| < U32
    ensures 1 <= m.uids[id] <= m.counter == |m.given|
  {
    var k :| 0 <= k < |m.given| && m.given[k] == (id, m.uids[id]);
  }

  /** While the counter has not wrapped, no UID on file is above it. */
  lemma {:induction false} UidsWithinCounter(es: seq<Event>, id: nat)
    requires AllowedRun(EMPTY, es)
    requires id in Run(EMPTY, es).uids && |Met(es)| < U32
    ensures 1 <= Run(EMPTY, es).uids[id] <= Run(EMPTY, es).counter
  {
    GivenToThoseMet(es);
    RunKeepsValid(es);
    WithinCounter(Run(EMPTY, es), id);
  }

  predicate NeverExpunged(es: seq<Event>, id: nat) {
    forall i :: 0 <= i < |es| && es[i].Expunge? ==> id !in es[i].ids
  }

  lemma {:induction false} RunKeepsValidFrom(m: Mailbox, es: seq<Event>)
    requires Valid(m) && AllowedRun(m, es)
    ensures Valid(Run(m, es))
  {
    if es != [] {
      RunKeepsValidFrom(m, Most(es));
      StepKeepsValid(Run(m, Most(es)), Last(es));
    }
  }

  /** A message keeps its UID through every run that does not expunge it. */
  lemma {:induction false} UidIsStable(m: Mailbox, es: seq<Event>, id: nat)
    requires Valid(m) && AllowedRun(m, es) && id in m.uids && NeverExpunged(es, id)
    ensures id in Run(m, es).uids && Run(m, es).uids[id] == m.uids[id]
  {
    if es != [] {
      UidIsStable(m, Most(es), id);
      RunKeepsValidFrom(m, Most(es));
      var m1 := Run(m, Most(es));
      if Last(es).Scan? {
        AssignAllKeepsValid(m1, Ascending(m1.files));
      }
    }
  }

  // ----- UIDs and sequence numbers -----

  /** A delivery takes an id above those present. */
  predicate Rising(m: Mailbox, e: Event) {
    e.Deliver? ==> forall x :: x in m.files ==> x < e.id
  }

  predicate RisingRun(m: Mailbox, es: seq<Event>) {
    es == [] || (RisingRun(m, Most(es)) && Rising(Run(m, Most(es)), Last(es)))
  }

  /** Among the messages present, a smaller id has the smaller UID, and got it first. */
  ghost predicate InOrder(m: Mailbox) {
    forall a, b :: a in m.files && b in m.files && a < b && b in m.uids ==> a in m.uids && m.uids[a] < m.uids[b]
  }

  /** The ids still to be scanned: everything else has a UID and comes before them. */
  ghost predicate ToScan(m: Mailbox, ids: seq<nat>) {
    && Ordered(ids)
    && (forall x :: x in ids ==> x in m.files)
    && (forall x :: x in m.files && x !in ids ==> x in m.uids && (ids != [] ==> x < ids[0]))
  }

  lemma {:induction false} ScanOne(m: Mailbox, ids: seq<nat>)
    requires ToScan(m, ids) && ids != []
    ensures ToScan(Assign(m, ids[0]), ids[1..])
    ensures forall x :: x in m.files && x < ids[0] ==> x in m.uids
  {
    assert forall x :: x in ids <==> x == ids[0] || x in ids[1..];
  }

  lemma {:induction false} AssignAllInOrder(m: Mailbox, ids: seq<nat>)
    requires Valid(m) && InOrder(m) && ToScan(m, ids) && |AssignAll(m, ids).given| < U32
    ensures InOrder(AssignAll(m, ids)) && forall x :: x in m.files ==> x in AssignAll(m, ids).uids
    decreases |ids|
  {
    if ids != [] {
      var m1 := Assign(m, ids[0]);
      ScanOne(m, ids);
      assert ids[0] in ids;
      AssignKeepsValid(m, ids[0]);
      AssignAllKeepsValid(m1, ids[1..]);
      AssignInOrder(m, ids[0]);
      AssignAllInOrder(m1, ids[1..]);
    }
  }

  lemma {:induction false} AssignInOrder(m: Mailbox, id: nat)
    requires Valid(m) && InOrder(m) && id in m.files
    requires forall x :: x in m.files && x < id ==> x in m.uids
    requires |Assign(m, id).given| < U32
    ensures InOrder(Assign(m, id))
  {
    var m1 := Assign(m, id);
    if id !in m.uids {
      assert m1.uids[id] == m.counter + 1;
      forall a, b | a in m.files && b in m.files && a < b && b in m1.uids
        ensures a in m1.uids && m1.uids[a] < m1.uids[b]
      {
        if b == id {
          WithinCounter(m, a);
        } else if a == id {
          assert false;
        }
      }
    }
  }

  lemma {:induction false} StepInOrder(m: Mailbox, e: Event)
    requires Valid(m) && InOrder(m) && Allowed(m, e) && Rising(m, e) && |Apply(m, e).given| < U32
    ensures InOrder(Apply(m, e))
    ensures e.Scan? ==> Apply(m, e).uids.Keys == m.files
  {
    if e.Scan? {
      AssignAllInOrder(m, Ascending(m.files));
      AssignAllKeepsValid(m, Ascending(m.files));
    }
  }

  lemma {:induction false} GivenGrows(m: Mailbox, e: Event)
    requires Valid(m) && Allowed(m, e)
    ensures |m.given| <= |Apply(m, e).given|
  {
    StepKeepsValid(m, e);
  }

  lemma {:induction false} RunInOrder(es: seq<Event>)
    requires AllowedRun(EMPTY, es) && RisingRun(EMPTY, es) && |Run(EMPTY, es).given| < U32
    ensures InOrder(Run(EMPTY, es))
  {
    if es != [] {
      RunKeepsValid(Most(es));
      GivenGrows(Run(EMPTY, Most(es)), Last(es));
      RunInOrder(Most(es));
      StepInOrder(Run(EMPTY, Most(es)), Last(es));
    }
  }

  /** What a scan lists: the messages in order of id, each with its UID. */
  function Listing(m: Mailbox): seq<nat>
    requires m.files <= m.uids.Keys
  {
    var ids := Ascending(m.files);
    seq(|ids|, i requires 0 <= i < |ids| => assert ids[i] in ids; m.uids[ids[i]])
  }

  /** If every delivery takes an id above those present, the UIDs a scan lists rise with the sequence numbers. */
  lemma {:induction false} UidsRise(es: seq<Event>)
    requires AllowedRun(EMPTY, es) && RisingRun(EMPTY, es)
    requires es != [] && Last(es).Scan? && |Met(es)| < U32
    ensures Run(EMPTY, es).files <= Run(EMPTY, es).uids.Keys
    ensures Ordered(Listing(Run(EMPTY, es)))
  {
    GivenToThoseMet(es);
    RunKeepsValid(Most(es));
    GivenGrows(Run(EMPTY, Most(es)), Last(es));
    RunInOrder(Most(es));
    StepInOrder(Run(EMPTY, Most(es)), Last(es));
    var m := Run(EMPTY, es);
    AssignAllKeepsValid(Run(EMPTY, Most(es)), Ascending(Run(EMPTY, Most(es)).files));
    var ids := Ascending(m.files);
    forall i, j | 0 <= i < j < |ids| ensures m.uids[ids[i]] < m.uids[ids[j]] {
      assert ids[i] in ids && ids[j] in ids;
    }
  }

  // ----- What a scan gives -----

  /** The next UIDs of the counter, one for each new id. */
  function NextUids(news: seq<nat>, counter: nat): seq<(nat, nat)> {
    seq(|news|, j requires 0 <= j < |news| => (news[j], (counter + 1 + j) % U32))
  }

  /** The ids take the next values of the counter, in order, and nothing else changes. */
  ghost predicate Gave(m: Mailbox, m': Mailbox, news: seq<nat>) {
    && m'.given == m.given + NextUids(news, m.counter) && m'.counter == (m.counter + |news|) % U32
    && m'.files == m.files && m'.known == m.known
    && m'.uids.Keys == m.uids.Keys + Elements(news) && HasNext(m'.uids, news, m.counter)
    && (forall x :: x in m.uids ==> x in m'.uids && m'.uids[x] == m.uids[x])
  }

  /** From any mailbox: the ids without a UID take the next values of the counter. */
  lemma {:induction false} AssignAllExactly(m: Mailbox, ids: seq<nat>, news: seq<nat>, isNew: nat -> bool)
    requires NoDuplicates(ids) && Sifted(ids, news, isNew) && (forall x :: x in ids ==> (isNew(x) <==> x !in m.uids)) && m.counter < U32
    ensures Gave(m, AssignAll(m, ids), news)
    decreases |ids|
  {
    if ids != [] {
      var rest := ids[1..];
      assert ids[0] in ids && (forall x :: x in rest ==> x in ids && x != ids[0]);
      if isNew(ids[0]) {
        AssignAllExactly(Assign(m, ids[0]), rest, news[1..], isNew);
        GaveOneMore(m, AssignAll(m, ids), news);
      } else {
        AssignAllExactly(m, rest, news, isNew);
      }
    } else {
      assert m.given + [] == m.given;
    }
  }

  lemma {:induction false} GaveOneMore(m: Mailbox, m': Mailbox, news: seq<nat>)
    requires news != [] && news[0] !in m.uids && m.counter < U32 && Gave(Assign(m, news[0]), m', news[1..])
    ensures Gave(m, m', news)
  {
    FirstNew(m.counter, news);
    FirstElement(news);
    assert m'.uids.Keys == m.uids.Keys + Elements(news);
    assert m'.uids[news[0]] == (m.counter + 1) % U32;
    ScanFrom(m'.uids, news, m.counter);
    Regroup(m.given, [(news[0], (m.counter + 1) % U32)], NextUids(news[1..], (m.counter + 1) % U32));
  }

  lemma {:induction false} FirstElement(news: seq<nat>)
    requires news != []
    ensures Elements(news) == {news[0]} + Elements(news[1..])
  {
    assert news == [news[0]] + news[1..];
  }

  lemma {:induction false} CountOn(counter: nat, j: nat)
    requires counter < U32
    ensures ((counter + 1) % U32 + j) % U32 == (counter + 1 + j) % U32
  {
  }

  lemma {:induction false} FirstNew(counter: nat, news: seq<nat>)
    requires news != [] && counter < U32
    ensures NextUids(news, counter) == [(news[0], (counter + 1) % U32)] + NextUids(news[1..], (counter + 1) % U32)
    ensures ((counter + 1) % U32 + |news[1..]|) % U32 == (counter + |news|) % U32
  {
    CountOn(counter, |news[1..]|);
    var all := [(news[0], (counter + 1) % U32)] + NextUids(news[1..], (counter + 1) % U32);
    forall j | 0 <= j < |news| ensures NextUids(news, counter)[j] == all[j] {
      CountOn(counter, j);
    }
  }

  /** Each new id has the value of the counter at its place. */
  predicate HasNext(uids: map<nat, nat>, news: seq<nat>, counter: nat) {
    forall j :: 0 <= j < |news| ==> news[j] in uids && uids[news[j]] == (counter + 1 + j) % U32
  }

  lemma {:induction false} ScanFrom(uids: map<nat, nat>, news: seq<nat>, counter: nat)
    requires news != [] && counter < U32
    requires news[0] in uids && uids[news[0]] == (counter + 1) % U32 && HasNext(uids, news[1..], (counter + 1) % U32)
    ensures HasNext(uids, news, counter)
  {
    forall j | 0 <= j < |news| ensures news[j] in uids && uids[news[j]] == (counter + 1 + j) % U32 {
      if j > 0 {
        assert news[j] == news[1..][j - 1];
        CountOn(counter, 1 + (j - 1));
      }
    }
  }

  lemma {:induction false} OrderedOnce(s: seq<nat>)
    requires Ordered(s)
    ensures NoDuplicates(s)
  {
  }

  /** A scan of any mailbox gives the messages without a UID, by rising id, the next values, and keeps the greater counter. */
  lemma {:induction false} ScanExactly(m: Mailbox, news: seq<nat>, isNew: nat -> bool)
    requires (forall x :: isNew(x) <==> x !in m.uids) && Sifted(Ascending(m.files), news, isNew) && m.counter < U32
    ensures var m' := Apply(m, Scan);
      && m'.given == m.given + NextUids(news, m.counter)
      && m'.uids.Keys == m.uids.Keys + m.files && (forall x :: x in m.uids ==> m'.uids[x] == m.uids[x])
      && HasNext(m'.uids, news, m.counter)
      && m'.counter == Max(m.counter, (m.counter + |news|) % U32)
      && m'.files == m.files && m'.known == m.known
  {
    var ids := Ascending(m.files);
    OrderedOnce(ids);
    AssignAllExactly(m, ids, news, isNew);
    forall x ensures x in news <==> x in ids && x !in m.uids {
      SiftedMembers(ids, news, isNew, x);
    }
    assert m.uids.Keys + Elements(news) == m.uids.Keys + m.files;
  }

  // ----- The scan itself -----

  /** The first ids in order, each with its UID on file. */
  predicate Lists(listed: seq<(nat, nat)>, ids: seq<nat>, uids: map<nat, nat>) {
    && |listed| <= |ids|
    && forall j :: 0 <= j < |listed| ==> listed[j].0 == ids[j] && ids[j] in uids && listed[j].1 == uids[ids[j]]
  }

  lemma {:induction false} ListsOneMore(listed: seq<(nat, nat)>, ids: seq<nat>, uids: map<nat, nat>, uids': map<nat, nat>)
    requires Lists(listed, ids, uids) && |listed| < |ids| && ids[|listed|] in uids'
    requires forall x :: x in uids ==> x in uids' && uids'[x] == uids[x]
    ensures Lists(listed + [(ids[|listed|], uids'[ids[|listed|]])], ids, uids')
  {
  }

  class Directory {
    var files: set<nat>
    var uids: map<nat, nat>
    var counter: nat
    ghost var known: set<nat>
    ghost var given: seq<(nat, nat)>

    constructor ()
      ensures Now() == EMPTY
    {
      files := {};
      uids := map[];
      counter := 0;
      known := {};
      given := [];
    }

    ghost function Now(): Mailbox
      reads this
    {
      Mailbox(files, uids, counter, known, given)
    }

    /** The UID of one message, advancing the scan's own copy of the counter. */
    method AssignOrRead(id: nat, count: nat) returns (uid: nat, count': nat)
      modifies this`uids, this`given
      ensures Now().(counter := count') == Assign(old(Now()).(counter := count), id)
      ensures id in uids && uid == uids[id]
      ensures forall x :: x in old(uids) ==> x in uids && uids[x] == old(uids)[x]
    {
      if id in uids {
        return uids[id], count;
      }
      count' := (count + 1) % U32;
      uids := uids[id := count'];
      given := given + [(id, count')];
      uid := count';
    }

    /** The UIDs of a list of messages, and where the counter ends. */
    method AssignEach(ids: seq<nat>) returns (listed: seq<(nat, nat)>, count: nat)
      modifies this`uids, this`given
      ensures Now().(counter := count) == AssignAll(old(Now()), ids)
      ensures |listed| == |ids| && Lists(listed, ids, uids)
    {
      count := counter;
      listed := [];
      ghost var goal := AssignAll(Now(), ids);
      assert ids[0..] == ids;
      for i := 0 to |ids|
        invariant AssignAll(Now().(counter := count), ids[i..]) == goal
        invariant |listed| == i && Lists(listed, ids, uids)
      {
        assert ids[i..][1..] == ids[i + 1..];
        ghost var before := uids;
        var uid;
        uid, count := AssignOrRead(ids[i], count);
        ListsOneMore(listed, ids, before, uids);
        listed := listed + [(ids[i], uid)];
      }
    }

    /** Gives every message a UID, in order of id, and persists the counter if it advanced. */
    method ScanMailbox() returns (listed: seq<(nat, nat)>)
      modifies this`uids, this`given, this`counter
      ensures Now() == Apply(old(Now()), Scan)
      ensures |listed| == |Ascending(files)| && Lists(listed, Ascending(files), uids)
    {
      var count;
      listed, count := AssignEach(Ascending(files));
      if count > counter {
        counter := count;
      }
    }
  }
}
