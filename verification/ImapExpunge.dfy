/**
 * Expunging messages from an IMAP snapshot. The server announces each removal
 * with the sequence number it has at that moment; a client that deletes those
 * numbers from its own copy, one by one, must end with the server's list.
 */
module ImapExpunge {
  import opened Basics

  datatype Message = Message(uid: nat, id: nat, deleted: bool)

  type Selection = Message -> bool

  /** The \Deleted messages whose UID passes. */
  function DeletedWhere(passes: nat -> bool): Selection {
    (m: Message) => m.deleted && passes(m.uid)
  }

  function Every(): nat -> bool {
    uid => true
  }

  function Among(uids: seq<nat>): nat -> bool {
    uid => uid in uids
  }

  /** The messages whose UID passes, \Deleted or not. */
  function Where(passes: nat -> bool): Selection {
    (m: Message) => passes(m.uid)
  }

  /** A sequence number as it is sent: 32 bits, the largest one standing for anything above. */
  function Sent(n: nat): nat {
    Min(n, U32_MAX)
  }

  // ----- The server's side -----

  function Remaining(ms: seq<Message>, doomed: Selection): seq<Message> {
    if ms == [] then []
    else (if doomed(ms[0]) then [] else [ms[0]]) + Remaining(ms[1..], doomed)
  }

  function Removed(ms: seq<Message>, doomed: Selection): seq<Message> {
    if ms == [] then []
    else (if doomed(ms[0]) then [ms[0]] else []) + Removed(ms[1..], doomed)
  }

  /** The numbers announced for `ms`, when `kept` messages stay in front of them. */
  function Numbers(ms: seq<Message>, doomed: Selection, kept: nat): seq<nat> {
    if ms == [] then []
    else if doomed(ms[0]) then [Sent(kept + 1)] + Numbers(ms[1..], doomed, kept)
    else Numbers(ms[1..], doomed, kept + 1)
  }

  /** What remains is the messages not selected, and what is removed the selected ones, each in its order. */
  lemma {:induction false} SelectedExactly(ms: seq<Message>, doomed: Selection)
    ensures Sifted(ms, Removed(ms, doomed), doomed)
    ensures Sifted(ms, Remaining(ms, doomed), (m: Message) => !doomed(m))
    ensures forall m :: m in Removed(ms, doomed) <==> m in ms && doomed(m)
    ensures forall m :: m in Remaining(ms, doomed) <==> m in ms && !doomed(m)
    decreases |ms|
  {
    if ms != [] {
      SelectedExactly(ms[1..], doomed);
      SiftedInFront(ms[0], ms[1..], Removed(ms[1..], doomed), doomed);
      SiftedInFront(ms[0], ms[1..], Remaining(ms[1..], doomed), (m: Message) => !doomed(m));
      assert ms == [ms[0]] + ms[1..];
    }
  }

  lemma {:induction false} SiftedAlike(ms: seq<Message>, part: seq<Message>, p: Selection, q: Selection)
    requires Sifted(ms, part, p) && forall m :: p(m) <==> q(m)
    ensures Sifted(ms, part, q)
    decreases |ms|
  {
    if ms != [] {
      SiftedAlike(ms[1..], if p(ms[0]) then part[1..] else part, p, q);
    }
  }

  /** The UIDs of messages, in order. */
  lemma {:induction false} UidsOf(ms: seq<Message>)
    ensures |Uids(ms)| == |ms| && forall i :: 0 <= i < |ms| ==> Uids(ms)[i] == ms[i].uid
    ensures forall u :: u in Uids(ms) <==> exists m :: m in ms && m.uid == u
  {
    forall u | u in Uids(ms) ensures exists m :: m in ms && m.uid == u {
      var i :| 0 <= i < |ms| && Uids(ms)[i] == u;
      assert ms[i] in ms;
    }
    forall m | m in ms ensures m.uid in Uids(ms) {
      var i :| 0 <= i < |ms| && ms[i] == m;
      assert Uids(ms)[i] == m.uid;
    }
  }

  /** Clients are told of each message destroyed, in order, and then of the mailbox; of nothing when nothing went. */
  lemma {:induction false} ToldExactly(removed: seq<Message>)
    ensures removed == [] ==> Told(removed) == []
    ensures removed != [] ==>
      && |Told(removed)| == |removed| + 1 && Told(removed)[|removed|] == MailboxUpdated
      && forall i :: 0 <= i < |removed| ==> Told(removed)[i] == Destroyed(removed[i].id)
  {
  }

  function Ids(ms: seq<Message>): set<nat> {
    set m | m in ms :: m.id
  }

  /** What clients that synchronize by changes are told. */
  datatype Change = Destroyed(id: nat) | MailboxUpdated

  function Destroyals(ms: seq<Message>): (r: seq<Change>)
    ensures |r| == |ms|
  {
    seq(|ms|, i requires 0 <= i < |ms| => Destroyed(ms[i].id))
  }

  /** One change for each message removed and one for the mailbox, or none at all. */
  function Told(removed: seq<Message>): seq<Change> {
    if removed == [] then [] else Destroyals(removed) + [MailboxUpdated]
  }

  function Uids(ms: seq<Message>): (r: seq<nat>)
    ensures |r| == |ms|
  {
    seq(|ms|, i requires 0 <= i < |ms| => ms[i].uid)
  }

  // ----- The client's side -----

  /** A client's list without message number `n`; a number past the end changes nothing. */
  function Without(list: seq<Message>, n: nat): seq<Message> {
    if 1 <= n <= |list| then list[..n - 1] + list[n..] else list
  }

  function Client(list: seq<Message>, numbers: seq<nat>): seq<Message> {
    if numbers == [] then list else Client(Without(list, numbers[0]), numbers[1..])
  }

  // ----- When the two agree -----

  /** Every removal's number fits 32 bits: at most 2^32 - 2 messages stay in front of it. */
  predicate Fits(ms: seq<Message>, doomed: Selection, kept: nat) {
    || ms == []
    || (if doomed(ms[0]) then kept + 1 <= U32_MAX && Fits(ms[1..], doomed, kept)
        else Fits(ms[1..], doomed, kept + 1))
  }

  /** The client takes out exactly the message meant. */
  lemma {:induction false} DoomedStep(front: seq<Message>, ms: seq<Message>, doomed: Selection)
    requires ms != [] && doomed(ms[0]) && |front| + 1 <= U32_MAX
    ensures Client(front + ms, Numbers(ms, doomed, |front|))
         == Client(front + ms[1..], Numbers(ms[1..], doomed, |front|))
    ensures Remaining(ms, doomed) == Remaining(ms[1..], doomed)
  {
    assert Without(front + ms, |front| + 1) == front + ms[1..];
    var numbers := Numbers(ms, doomed, |front|);
    assert numbers[0] == |front| + 1 && numbers[1..] == Numbers(ms[1..], doomed, |front|);
  }

  lemma {:induction false} KeptStep(front: seq<Message>, ms: seq<Message>, doomed: Selection)
    requires ms != [] && !doomed(ms[0])
    ensures front + ms == (front + [ms[0]]) + ms[1..]
    ensures Numbers(ms, doomed, |front|) == Numbers(ms[1..], doomed, |front + [ms[0]]|)
    ensures front + Remaining(ms, doomed) == (front + [ms[0]]) + Remaining(ms[1..], doomed)
  {
    MovedOver(front, ms[0], ms[1..]);
    MovedOver(front, ms[0], Remaining(ms[1..], doomed));
    assert ms == [ms[0]] + ms[1..];
  }

  lemma {:induction false} MovedOver(front: seq<Message>, m: Message, rest: seq<Message>)
    ensures front + ([m] + rest) == (front + [m]) + rest
  {
  }

  lemma {:induction false} ClientFollowsFrom(front: seq<Message>, ms: seq<Message>, doomed: Selection)
    requires Fits(ms, doomed, |front|)
    ensures Client(front + ms, Numbers(ms, doomed, |front|)) == front + Remaining(ms, doomed)
    decreases |ms|
  {
    if ms == [] {
      assert front + ms == front;
    } else if doomed(ms[0]) {
      DoomedStep(front, ms, doomed);
      ClientFollowsFrom(front, ms[1..], doomed);
    } else {
      KeptStep(front, ms, doomed);
      ClientFollowsFrom(front + [ms[0]], ms[1..], doomed);
    }
  }

  /** Deleting never brings a message back. */
  lemma {:induction false} ClientOnlyLoses(list: seq<Message>, numbers: seq<nat>, m: Message)
    requires m !in list
    ensures m !in Client(list, numbers)
  {
    if numbers != [] {
      ClientOnlyLoses(Without(list, numbers[0]), numbers[1..], m);
    }
  }

  lemma {:induction false} StillDistinct(front: seq<Message>, ms: seq<Message>)
    requires ms != [] && NoDuplicates(front + ms)
    ensures NoDuplicates(front + ms[1..])
  {
    assert forall i :: 0 <= i < |front + ms[1..]| ==>
        (front + ms[1..])[i] == (front + ms)[if i < |front| then i else i + 1];
  }

  lemma {:induction false} ClientStraysFrom(front: seq<Message>, ms: seq<Message>, doomed: Selection)
    requires NoDuplicates(front + ms) && !Fits(ms, doomed, |front|)
    ensures Client(front + ms, Numbers(ms, doomed, |front|)) != front + Remaining(ms, doomed)
    decreases |ms|
  {
    if doomed(ms[0]) {
      if |front| + 1 <= U32_MAX {
        DoomedStep(front, ms, doomed);
        StillDistinct(front, ms);
        ClientStraysFrom(front, ms[1..], doomed);
      } else {
        WrongOneGoes(front, ms, doomed);
      }
    } else {
      KeptStep(front, ms, doomed);
      ClientStraysFrom(front + [ms[0]], ms[1..], doomed);
    }
  }

  /** A number that does not fit makes the client delete a message the server keeps. */
  lemma {:induction false} WrongOneGoes(front: seq<Message>, ms: seq<Message>, doomed: Selection)
    requires NoDuplicates(front + ms) && ms != [] && doomed(ms[0]) && |front| + 1 > U32_MAX
    ensures Client(front + ms, Numbers(ms, doomed, |front|)) != front + Remaining(ms, doomed)
  {
    var m := front[U32_MAX - 1];
    var list := front + ms;
    assert list[U32_MAX - 1] == m;
    assert m !in Without(list, U32_MAX);
    ClientOnlyLoses(Without(list, U32_MAX), Numbers(ms[1..], doomed, |front|), m);
    assert (front + Remaining(ms, doomed))[U32_MAX - 1] == m;
  }

  /** A client that follows the announcements ends with the server's list exactly when every number fits. */
  lemma {:induction false} ClientFollowsExactlyWhen(ms: seq<Message>, doomed: Selection)
    requires NoDuplicates(ms)
    ensures Client(ms, Numbers(ms, doomed, 0)) == Remaining(ms, doomed) <==> Fits(ms, doomed, 0)
  {
    assert [] + ms == ms && [] + Remaining(ms, doomed) == Remaining(ms, doomed);
    if Fits(ms, doomed, 0) {
      ClientFollowsFrom([], ms, doomed);
    } else {
      ClientStraysFrom([], ms, doomed);
    }
  }

  lemma {:induction false} LastDoesNotFit(ms: seq<Message>, doomed: Selection, kept: nat)
    requires ms != [] && doomed(Last(ms)) && (forall i :: 0 <= i < |ms| - 1 ==> !doomed(ms[i])) && kept + |ms| > U32_MAX
    ensures !Fits(ms, doomed, kept)
    decreases |ms|
  {
    if |ms| > 1 {
      LastDoesNotFit(ms[1..], doomed, kept + 1);
    }
  }

  /** 2^32 messages of which the last one is deleted. */
  function TooMany(): seq<Message> {
    seq(U32_MAX + 1, i requires 0 <= i < U32_MAX + 1 => Message(i, i, i == U32_MAX))
  }

  /** There the number announced is another message's, and the client deletes that one. */
  lemma {:induction false} ClientStrays()
    ensures var ms, doomed := TooMany(), DeletedWhere(Every());
            NoDuplicates(ms) && Client(ms, Numbers(ms, doomed, 0)) != Remaining(ms, doomed)
  {
    var ms, doomed := TooMany(), DeletedWhere(Every());
    assert forall i :: 0 <= i < |ms| ==> ms[i].id == i;
    LastDoesNotFit(ms, doomed, 0);
    ClientFollowsExactlyWhen(ms, doomed);
  }

  lemma {:induction false} ShortListsFit(ms: seq<Message>, doomed: Selection, kept: nat)
    requires kept + |ms| <= U32_MAX
    ensures Fits(ms, doomed, kept)
    decreases |ms|
  {
    if ms != [] {
      ShortListsFit(ms[1..], doomed, if doomed(ms[0]) then kept else kept + 1);
    }
  }

  ghost predicate RealUids(ms: seq<Message>) {
    && (forall i :: 0 <= i < |ms| ==> 1 <= ms[i].uid <= U32_MAX)
    && (forall i, j :: 0 <= i < j < |ms| ==> ms[i].uid != ms[j].uid)
  }

  function UpTo(n: nat): (s: set<nat>)
    ensures |s| == n
    ensures forall k :: k in s <==> 1 <= k <= n
  {
    if n == 0 then {} else UpTo(n - 1) + {n}
  }

  lemma {:induction false} RealUidsAreFew(ms: seq<Message>)
    requires RealUids(ms)
    ensures |ms| <= U32_MAX
  {
    var uids := Uids(ms);
    CardinalityOfElements(uids);
    SubsetCardinality(Elements(uids), UpTo(U32_MAX));
  }

  /** In any mailbox whose UIDs are distinct nonzero 32-bit numbers, the client ends with the server's list. */
  lemma {:induction false} ClientFollows(ms: seq<Message>, doomed: Selection)
    requires RealUids(ms)
    ensures Client(ms, Numbers(ms, doomed, 0)) == Remaining(ms, doomed)
  {
    RealUidsAreFew(ms);
    ShortListsFit(ms, doomed, 0);
    assert NoDuplicates(ms);
    ClientFollowsExactlyWhen(ms, doomed);
  }

  /** What was removed and what remains make up the list, and the selection tells them apart. */
  lemma {:induction false} SplitsTheList(ms: seq<Message>, doomed: Selection)
    ensures multiset(ms) == multiset(Remaining(ms, doomed)) + multiset(Removed(ms, doomed))
    ensures forall m :: m in Remaining(ms, doomed) ==> !doomed(m)
    ensures forall m :: m in Removed(ms, doomed) ==> doomed(m)
  {
    if ms != [] {
      SplitsTheList(ms[1..], doomed);
      assert ms == [ms[0]] + ms[1..];
    }
  }

  // ----- The snapshot -----

  lemma {:induction false} FiltersAppend(ms: seq<Message>, m: Message, doomed: Selection)
    ensures Remaining(ms + [m], doomed) == Remaining(ms, doomed) + (if doomed(m) then [] else [m])
    ensures Removed(ms + [m], doomed) == Removed(ms, doomed) + (if doomed(m) then [m] else [])
    decreases |ms|
  {
    if ms == [] {
      assert ms + [m] == [m];
    } else {
      assert (ms + [m])[1..] == ms[1..] + [m];
      FiltersAppend(ms[1..], m, doomed);
    }
  }

  lemma {:induction false} NumbersAppend(ms: seq<Message>, m: Message, doomed: Selection, kept: nat)
    ensures Numbers(ms + [m], doomed, kept)
         == Numbers(ms, doomed, kept)
          + (if doomed(m) then [Sent(kept + |Remaining(ms, doomed)| + 1)] else [])
    decreases |ms|
  {
    if ms == [] {
      assert ms + [m] == [m];
    } else {
      assert (ms + [m])[1..] == ms[1..] + [m];
      NumbersAppend(ms[1..], m, doomed, if doomed(ms[0]) then kept else kept + 1);
    }
  }

  lemma {:induction false} Partition(ms: seq<Message>, doomed: Selection)
    ensures |Remaining(ms, doomed)| + |Removed(ms, doomed)| == |ms|
  {
    if ms != [] {
      Partition(ms[1..], doomed);
    }
  }

  /** What a pass over `ms` has come to. */
  ghost predicate Passed(ms: seq<Message>, doomed: Selection, taken: seq<(nat, nat)>, noted: seq<Change>, stay: seq<Message>) {
    && stay == Remaining(ms, doomed)
    && Announced(taken) == Numbers(ms, doomed, 0)
    && Named(taken) == Uids(Removed(ms, doomed))
    && noted == Destroyals(Removed(ms, doomed))
  }

  lemma {:induction false} PassesOne(ms: seq<Message>, m: Message, doomed: Selection,
                                     taken: seq<(nat, nat)>, noted: seq<Change>, stay: seq<Message>)
    requires Passed(ms, doomed, taken, noted, stay)
    ensures |taken| <= |ms|
    ensures doomed(m) ==>
      && Passed(ms + [m], doomed, taken + [(Sent(|ms| + 1 - |taken|), m.uid)], noted + [Destroyed(m.id)], stay)
      && Removed(ms + [m], doomed) == Removed(ms, doomed) + [m]
    ensures !doomed(m) ==>
      Passed(ms + [m], doomed, taken, noted, stay + [m]) && Removed(ms + [m], doomed) == Removed(ms, doomed)
  {
    FiltersAppend(ms, m, doomed);
    NumbersAppend(ms, m, doomed, 0);
    Partition(ms, doomed);
    OneMore(taken, (Sent(|ms| + 1 - |taken|), m.uid), Removed(ms, doomed), m);
  }

  class Snapshot {
    /** Whether expunged messages are kept for a time, and which of them the archive can take. */
    const retains: bool
    const archives: nat -> bool
    var messages: seq<Message>
    var vanished: seq<nat>
    var changes: seq<Change>
    /** The ids whose files are in the mailbox, and in the archive. */
    var files: set<nat>
    var archive: set<nat>

    constructor (messages: seq<Message>, retains: bool, archives: nat -> bool, archive: set<nat>)
      ensures this.messages == messages && vanished == [] && changes == []
      ensures files == Ids(messages) && this.archive == archive && this.retains == retains && this.archives == archives
    {
      this.messages, this.retains, this.archives, this.archive := messages, retains, archives, archive;
      vanished, changes, files := [], [], Ids(messages);
    }

    /** The removed messages whose files leave the mailbox: all but those the archive could not take. */
    function Leaving(removed: seq<Message>): set<nat> {
      set m | m in removed && (retains ==> archives(m.id)) :: m.id
    }

    /** Deletes a message's files, or moves them to the archive; where that fails they stay. */
    method RemoveFiles(id: nat)
      modifies this`files, this`archive
      ensures files == old(files) - (if retains ==> archives(id) then {id} else {})
      ensures archive == old(archive) + (if retains && archives(id) then {id} * old(files) else {})
      ensures retains ==> files + archive == old(files) + old(archive)
    {
      if retains {
        if archives(id) {
          archive := archive + {id} * files;
          files := files - {id};
        }
      } else {
        files := files - {id};
      }
    }

    lemma {:induction false} OneMoreLeaves(removed: seq<Message>, m: Message)
      ensures Leaving(removed + [m]) == Leaving(removed) + (if retains ==> archives(m.id) then {m.id} else {})
    {
      assert forall o :: o in removed + [m] <==> o in removed || o == m;
    }

    /** Takes every selected message out in one pass; each result is a number to announce and a UID. */
    method TakeWhere(doomed: Selection) returns (taken: seq<(nat, nat)>)
      modifies this`messages, this`files, this`archive, this`changes
      ensures messages == Remaining(old(messages), doomed)
      ensures Announced(taken) == Numbers(old(messages), doomed, 0)
      ensures Named(taken) == Uids(Removed(old(messages), doomed))
      ensures files == old(files) - Leaving(Removed(old(messages), doomed))
      ensures retains ==> files + archive == old(files) + old(archive)
      ensures !retains ==> archive == old(archive)
      ensures changes == old(changes) + Told(Removed(old(messages), doomed))
    {
      var all := messages;
      var stay: seq<Message> := [];
      var noted: seq<Change> := [];
      taken := [];
      for position := 0 to |all|
        invariant Passed(all[..position], doomed, taken, noted, stay)
        invariant files == old(files) - Leaving(Removed(all[..position], doomed))
        invariant retains ==> files + archive == old(files) + old(archive)
        invariant !retains ==> archive == old(archive)
        invariant changes == old(changes)
      {
        var message := all[position];
        ghost var removed := Removed(all[..position], doomed);
        assert all[..position + 1] == all[..position] + [message];
        PassesOne(all[..position], message, doomed, taken, noted, stay);
        if doomed(message) {
          OneMoreLeaves(removed, message);
          RemoveFiles(message.id);
          taken := taken + [(Sent(position + 1 - |taken|), message.uid)];
          noted := noted + [Destroyed(message.id)];
        } else {
          stay := stay + [message];
        }
      }
      assert all[..|all|] == all;
      messages := stay;
      if noted != [] {
        changes := changes + (noted + [MailboxUpdated]);
      } else {
        assert changes + [] == changes;
      }
    }

    /** Expunges the \Deleted messages whose UID passes, and notes which UIDs vanished. */
    method ExpungeWhere(passes: nat -> bool) returns (numbers: seq<nat>)
      modifies this
      ensures messages == Remaining(old(messages), DeletedWhere(passes))
      ensures numbers == Numbers(old(messages), DeletedWhere(passes), 0)
      ensures vanished == old(vanished) + Uids(Removed(old(messages), DeletedWhere(passes)))
      ensures changes == old(changes) + Told(Removed(old(messages), DeletedWhere(passes)))
      ensures files == old(files) - Leaving(Removed(old(messages), DeletedWhere(passes)))
      ensures retains ==> files + archive == old(files) + old(archive)
      ensures forall m :: m in messages <==> m in old(messages) && !(m.deleted && passes(m.uid))
    {
      SelectedExactly(messages, DeletedWhere(passes));
      var taken := TakeWhere(DeletedWhere(passes));
      vanished := vanished + Named(taken);
      numbers := Announced(taken);
    }

    method Expunge() returns (numbers: seq<nat>)
      modifies this
      ensures messages == Remaining(old(messages), DeletedWhere(Every()))
      ensures RealUids(old(messages)) ==> Client(old(messages), numbers) == messages
      ensures vanished == old(vanished) + Uids(Removed(old(messages), DeletedWhere(Every())))
      ensures retains ==> files + archive == old(files) + old(archive)
      ensures forall m :: m in messages <==> m in old(messages) && !m.deleted
      ensures Sifted(old(messages), messages, (m: Message) => !m.deleted)
      ensures forall u :: u in vanished[|old(vanished)|..] <==> exists m :: m in old(messages) && m.deleted && m.uid == u
    {
      SelectedExactly(messages, DeletedWhere(Every()));
      SiftedAlike(messages, Remaining(messages, DeletedWhere(Every())), (m: Message) => !DeletedWhere(Every())(m), (m: Message) => !m.deleted);
      UidsOf(Removed(messages, DeletedWhere(Every())));
      numbers := ExpungeWhere(Every());
      if RealUids(old(messages)) {
        ClientFollows(old(messages), DeletedWhere(Every()));
      }
    }

    method ExpungeUids(uids: seq<nat>) returns (numbers: seq<nat>)
      modifies this
      ensures messages == Remaining(old(messages), DeletedWhere(Among(uids)))
      ensures RealUids(old(messages)) ==> Client(old(messages), numbers) == messages
      ensures vanished == old(vanished) + Uids(Removed(old(messages), DeletedWhere(Among(uids))))
      ensures retains ==> files + archive == old(files) + old(archive)
      ensures forall m :: m in messages <==> m in old(messages) && !(m.deleted && m.uid in uids)
      ensures Sifted(old(messages), messages, (m: Message) => !(m.deleted && m.uid in uids))
      ensures forall u :: u in vanished[|old(vanished)|..] <==> u in uids && exists m :: m in old(messages) && m.deleted && m.uid == u
    {
      var doomed := DeletedWhere(Among(uids));
      SelectedExactly(messages, doomed);
      SiftedAlike(messages, Remaining(messages, doomed), (m: Message) => !doomed(m), (m: Message) => !(m.deleted && m.uid in uids));
      UidsOf(Removed(messages, doomed));
      numbers := ExpungeWhere(Among(uids));
      if RealUids(old(messages)) {
        ClientFollows(old(messages), DeletedWhere(Among(uids)));
      }
    }

    /** Takes messages out by UID alone. The UIDs noted as vanished are the ones asked for. */
    method RemoveUids(uids: seq<nat>) returns (numbers: seq<nat>)
      modifies this
      ensures messages == Remaining(old(messages), Where(Among(uids)))
      ensures RealUids(old(messages)) ==> Client(old(messages), numbers) == messages
      ensures vanished == if numbers == [] then old(vanished) else old(vanished) + uids
      ensures retains ==> files + archive == old(files) + old(archive)
      ensures forall m :: m in messages <==> m in old(messages) && m.uid !in uids
      ensures Sifted(old(messages), messages, (m: Message) => m.uid !in uids)
    {
      SelectedExactly(messages, Where(Among(uids)));
      SiftedAlike(messages, Remaining(messages, Where(Among(uids))), (m: Message) => !Where(Among(uids))(m), (m: Message) => m.uid !in uids);
      var taken := TakeWhere(Where(Among(uids)));
      numbers := Announced(taken);
      if taken != [] {
        vanished := vanished + uids;
      }
      if RealUids(old(messages)) {
        ClientFollows(old(messages), Where(Among(uids)));
      }
    }

    /** Takes out the message with a sequence number, or reports that there is none. */
    method RemoveAt(sequence: nat) returns (found: bool)
      modifies this
      ensures found <==> 1 <= sequence <= |old(messages)|
      ensures !found ==> messages == old(messages) && vanished == old(vanished) && files == old(files)
      ensures found && RealUids(old(messages)) ==> messages == Without(old(messages), sequence)
      ensures found ==> vanished == old(vanished) + [old(messages)[sequence - 1].uid]
      ensures retains ==> files + archive == old(files) + old(archive)
    {
      if sequence == 0 || sequence > |messages| {
        return false;
      }
      var uid := messages[sequence - 1].uid;
      if RealUids(messages) {
        OneUid(messages, sequence - 1);
      }
      var taken := TakeWhere(Where(Among([uid])));
      vanished := vanished + [uid];
      found := true;
    }
  }

  function Announced(taken: seq<(nat, nat)>): (r: seq<nat>)
    ensures |r| == |taken|
  {
    seq(|taken|, i requires 0 <= i < |taken| => taken[i].0)
  }

  function Named(taken: seq<(nat, nat)>): (r: seq<nat>)
    ensures |r| == |taken|
  {
    seq(|taken|, i requires 0 <= i < |taken| => taken[i].1)
  }

  lemma {:induction false} OneMore(taken: seq<(nat, nat)>, x: (nat, nat), ms: seq<Message>, m: Message)
    ensures Announced(taken + [x]) == Announced(taken) + [x.0]
    ensures Named(taken + [x]) == Named(taken) + [x.1]
    ensures Uids(ms + [m]) == Uids(ms) + [m.uid]
    ensures Destroyals(ms + [m]) == Destroyals(ms) + [Destroyed(m.id)]
  {
  }

  /** With distinct UIDs, taking out a UID takes out the one message at its place. */
  lemma {:induction false} OneUid(ms: seq<Message>, k: nat)
    requires RealUids(ms) && k < |ms|
    ensures Remaining(ms, Where(Among([ms[k].uid]))) == ms[..k] + ms[k + 1..]
  {
    var doomed := Where(Among([ms[k].uid]));
    var before, after := ms[..k], ms[k + 1..];
    forall i | 0 <= i < |before| ensures !doomed(before[i]) {
      assert before[i] == ms[i];
    }
    NoneGoes(before, doomed);
    forall i | 0 <= i < |after| ensures !doomed(after[i]) {
      assert after[i] == ms[k + 1 + i];
    }
    NoneGoes(after, doomed);
    JustOne(before, ms[k], after, doomed);
    assert ms == before + ([ms[k]] + after);
  }

  lemma {:induction false} JustOne(before: seq<Message>, m: Message, after: seq<Message>, doomed: Selection)
    requires doomed(m) && Remaining(before, doomed) == before && Remaining(after, doomed) == after
    ensures Remaining(before + ([m] + after), doomed) == before + after
  {
    RemainingJoins(before, [m] + after, doomed);
    assert ([m] + after)[1..] == after;
  }

  lemma {:induction false} NoneGoes(ms: seq<Message>, doomed: Selection)
    requires forall i :: 0 <= i < |ms| ==> !doomed(ms[i])
    ensures Remaining(ms, doomed) == ms
  {
    if ms != [] {
      NoneGoes(ms[1..], doomed);
    }
  }

  lemma {:induction false} RemainingJoins(a: seq<Message>, b: seq<Message>, doomed: Selection)
    ensures Remaining(a + b, doomed) == Remaining(a, doomed) + Remaining(b, doomed)
    decreases |a|
  {
    if a == [] {
      assert a + b == b;
    } else {
      assert (a + b)[1..] == a[1..] + b;
      RemainingJoins(a[1..], b, doomed);
    }
  }
}
