/**
 * The accounts file under the shared lock: the account edits of `Accounts` as
 * the edits of `LockedEdit`, in every interleaving of processes and threads.
 * Addresses are put in their stored form whenever the file is read.
 */
module AccountsOnDisk {
  import opened Basics
  import opened Accounts
  import LockedEdit

  type AccountsFile = LockedEdit.Code<seq<Account>, Edit>
  type World = LockedEdit.World<seq<Account>, Edit>

  // ----- The stored form of a file -----

  function Normal(n: string -> string, a: Account): Account {
    a.(addresses := Stored(n, a.addresses))
  }

  function NormalFile(n: string -> string, accounts: seq<Account>): (r: seq<Account>)
    ensures |r| == |accounts| && forall i :: 0 <= i < |r| ==> r[i] == Normal(n, accounts[i])
  {
    seq(|accounts|, i requires 0 <= i < |accounts| => Normal(n, accounts[i]))
  }

  /** Every address's stored form is its own. */
  predicate OwnFile(n: string -> string, accounts: seq<Account>) {
    forall i :: 0 <= i < |accounts| ==> Own(n, accounts[i].addresses)
  }

  /** The stored form of the stored form. */
  function Twice(n: string -> string): string -> string {
    s => n(n(s))
  }

  lemma {:induction false} UsesTwice(n: string -> string, a: Account, w: string)
    ensures Uses(n, Normal(n, a), w) <==> Uses(Twice(n), a, w)
  {
    var stored := Stored(n, a.addresses);
    if Uses(n, Normal(n, a), w) {
      var k :| 0 <= k < |stored| && n(stored[k]) == w;
      StoredHolds(n, a.addresses, stored[k]);
      var j :| 0 <= j < |a.addresses| && n(a.addresses[j]) == stored[k];
      assert Twice(n)(a.addresses[j]) == w;
    }
    if Uses(Twice(n), a, w) {
      var j :| 0 <= j < |a.addresses| && Twice(n)(a.addresses[j]) == w;
      StoredHolds(n, a.addresses, n(a.addresses[j]));
      var k :| 0 <= k < |stored| && stored[k] == n(a.addresses[j]);
      assert n(stored[k]) == w;
    }
  }

  lemma {:induction false} StrangersTwice(n: string -> string, a: Account, b: Account)
    ensures Strangers(n, Normal(n, a), Normal(n, b)) <==> Strangers(Twice(n), a, b)
  {
    forall w
      ensures Uses(n, Normal(n, a), w) <==> Uses(Twice(n), a, w)
      ensures Uses(n, Normal(n, b), w) <==> Uses(Twice(n), b, w)
    {
      UsesTwice(n, a, w);
      UsesTwice(n, b, w);
    }
  }

  /** A static account and one from the file share neither name nor address once the file is read. */
  ghost predicate ReadsApart(n: string -> string, a: Account, b: Account) {
    a.name != b.name && forall w :: !(Uses(n, a, w) && Uses(Twice(n), b, w))
  }

  lemma {:induction false} ReadsApartMeans(n: string -> string, a: Account, b: Account)
    ensures ReadsApart(n, a, b) <==> a.name != b.name && Strangers(n, a, Normal(n, b))
  {
    forall w ensures Uses(n, Normal(n, b), w) <==> Uses(Twice(n), b, w) {
      UsesTwice(n, b, w);
    }
  }

  /** The addresses as they are in the file, told apart by their second stored forms, and from the static ones. */
  ghost predicate ApartTwice(n: string -> string, statics: seq<Account>, accounts: seq<Account>) {
    && Separate(n, statics) && Separate(Twice(n), accounts)
    && forall i, j :: 0 <= i < |statics| && 0 <= j < |accounts| ==> ReadsApart(n, statics[i], accounts[j])
  }

  lemma {:induction false} SplitSeparate(n: string -> string, a: seq<Account>, b: seq<Account>)
    ensures Separate(n, a + b) <==>
      && Separate(n, a) && Separate(n, b)
      && forall i, j :: 0 <= i < |a| && 0 <= j < |b| ==> a[i].name != b[j].name && Strangers(n, a[i], b[j])
  {
    var all := a + b;
    if Separate(n, all) {
      forall i, j | 0 <= i < j < |a| ensures a[i].name != a[j].name && Strangers(n, a[i], a[j]) {
        assert all[i] == a[i] && all[j] == a[j];
      }
      forall i, j | 0 <= i < j < |b| ensures b[i].name != b[j].name && Strangers(n, b[i], b[j]) {
        assert all[|a| + i] == b[i] && all[|a| + j] == b[j];
      }
      forall i, j | 0 <= i < |a| && 0 <= j < |b| ensures a[i].name != b[j].name && Strangers(n, a[i], b[j]) {
        assert all[i] == a[i] && all[|a| + j] == b[j];
      }
    }
  }

  lemma {:induction false} NormalSeparate(n: string -> string, accounts: seq<Account>)
    ensures Separate(n, NormalFile(n, accounts)) <==> Separate(Twice(n), accounts)
  {
    var normal := NormalFile(n, accounts);
    forall i, j | 0 <= i < j < |accounts|
      ensures Strangers(n, normal[i], normal[j]) <==> Strangers(Twice(n), accounts[i], accounts[j])
    {
      StrangersTwice(n, accounts[i], accounts[j]);
    }
  }

  /** Reading a file gives accounts that are apart exactly when the second stored forms of its addresses are. */
  lemma {:induction false} ReadApartExactlyWhen(n: string -> string, statics: seq<Account>, accounts: seq<Account>)
    ensures Separate(n, statics + NormalFile(n, accounts)) <==> ApartTwice(n, statics, accounts)
  {
    var normal := NormalFile(n, accounts);
    SplitSeparate(n, statics, normal);
    NormalSeparate(n, accounts);
    forall i, j | 0 <= i < |statics| && 0 <= j < |accounts|
      ensures ReadsApart(n, statics[i], accounts[j]) <==> statics[i].name != normal[j].name && Strangers(n, statics[i], normal[j])
    {
      ReadsApartMeans(n, statics[i], accounts[j]);
    }
  }

  lemma {:induction false} UsesNormal(n: string -> string, a: Account, w: string)
    requires Own(n, a.addresses)
    ensures Uses(n, Normal(n, a), w) <==> Uses(n, a, w)
  {
    UsesTwice(n, a, w);
  }

  lemma {:induction false} FileUsesNormal(n: string -> string, accounts: seq<Account>)
    requires OwnFile(n, accounts)
    ensures forall i, w :: 0 <= i < |accounts| ==> (Uses(n, NormalFile(n, accounts)[i], w) <==> Uses(n, accounts[i], w))
  {
    forall i, w | 0 <= i < |accounts|
      ensures Uses(n, NormalFile(n, accounts)[i], w) <==> Uses(n, accounts[i], w)
    {
      UsesNormal(n, accounts[i], w);
    }
  }

  lemma {:induction false} SameUses(n: string -> string, a: seq<Account>, b: seq<Account>)
    requires |a| == |b| && Separate(n, a)
    requires forall i :: 0 <= i < |a| ==> a[i].name == b[i].name
    requires forall i, w :: 0 <= i < |a| ==> (Uses(n, a[i], w) <==> Uses(n, b[i], w))
    ensures Separate(n, b)
  {
    forall i, j | 0 <= i < j < |b| ensures b[i].name != b[j].name && Strangers(n, b[i], b[j]) {
      assert Strangers(n, a[i], a[j]);
      forall w ensures !(Uses(n, b[i], w) && Uses(n, b[j], w)) {
        assert Uses(n, b[i], w) <==> Uses(n, a[i], w);
        assert Uses(n, b[j], w) <==> Uses(n, a[j], w);
      }
    }
  }

  /** Where each stored form is its own, accounts are apart as written exactly when they are as read back. */
  lemma {:induction false} NormalStaysApart(n: string -> string, statics: seq<Account>, accounts: seq<Account>)
    requires OwnFile(n, accounts)
    ensures Separate(n, statics + accounts) <==> Separate(n, statics + NormalFile(n, accounts))
  {
    var before, after := statics + accounts, statics + NormalFile(n, accounts);
    FileUsesNormal(n, accounts);
    forall i, w | 0 <= i < |before|
      ensures before[i].name == after[i].name && (Uses(n, before[i], w) <==> Uses(n, after[i], w))
    {
      if i >= |statics| {
        var k := i - |statics|;
        assert Uses(n, NormalFile(n, accounts)[k], w) <==> Uses(n, accounts[k], w);
      }
    }
    if Separate(n, before) {
      SameUses(n, before, after);
    }
    if Separate(n, after) {
      SameUses(n, after, before);
    }
  }

  /** A file with two spellings of one address, apart as it is written and not as it is read. */
  lemma {:induction false} TwoSpellingsInAFile(n: string -> string, spelled: string)
    requires n(n(spelled)) != n(spelled) && n(n(n(spelled))) == n(n(spelled))
    ensures var accounts := AliceAndBob(n(n(spelled)), spelled);
            Separate(n, [] + accounts) && !Separate(n, [] + NormalFile(n, accounts))
  {
    var hers := n(n(spelled));
    TwoApart(n, hers, spelled);
    TwoApart(n, hers, n(spelled));
    OneStored(n, hers);
    OneStored(n, spelled);
    assert NormalFile(n, AliceAndBob(hers, spelled)) == AliceAndBob(hers, n(spelled));
  }

  lemma {:induction false} OwnStored(n: string -> string, values: seq<string>)
    requires SettlesTwice(n)
    ensures Own(n, Stored(n, values))
  {
    var stored := Stored(n, values);
    forall k | 0 <= k < |stored| ensures n(n(stored[k])) == n(stored[k]) {
      StoredHolds(n, values, stored[k]);
      var j :| 0 <= j < |values| && n(values[j]) == stored[k];
      assert n(n(n(values[j]))) == n(n(values[j]));
    }
  }

  /** Whatever was in the file, each stored form is its own once it is read. */
  lemma {:induction false} ReadIsOwn(n: string -> string, accounts: seq<Account>)
    requires SettlesTwice(n)
    ensures OwnFile(n, NormalFile(n, accounts))
  {
    forall i | 0 <= i < |accounts| ensures Own(n, NormalFile(n, accounts)[i].addresses) {
      OwnStored(n, accounts[i].addresses);
    }
  }

  lemma {:induction false} OwnFront(n: string -> string, values: seq<string>)
    requires values != [] && Own(n, values)
    ensures Own(n, Most(values)) && n(n(Last(values))) == n(Last(values))
  {
  }

  lemma {:induction false} StoredTwice(n: string -> string, values: seq<string>)
    requires Own(n, values)
    ensures Stored(n, Stored(n, values)) == Stored(n, values)
  {
    if values != [] {
      OwnFront(n, values);
      StoredTwice(n, Most(values));
      var front, value := Stored(n, Most(values)), n(Last(values));
      if value !in front {
        assert Most(front + [value]) == front;
      }
    }
  }

  lemma {:induction false} NormalTwice(n: string -> string, accounts: seq<Account>)
    requires OwnFile(n, accounts)
    ensures NormalFile(n, NormalFile(n, accounts)) == NormalFile(n, accounts)
  {
    forall i | 0 <= i < |accounts|
      ensures Normal(n, Normal(n, accounts[i])) == Normal(n, accounts[i])
    {
      StoredTwice(n, accounts[i].addresses);
    }
  }

  // ----- No edit sees whether a file is in stored form -----

  /** The same error, or accounts with the same stored form. */
  predicate Agree(n: string -> string, a: Result<seq<Account>, Error>, b: Result<seq<Account>, Error>) {
    match (a, b)
    case (Ok(x), Ok(y)) => NormalFile(n, x) == NormalFile(n, y)
    case (Err(e), Err(f)) => e == f
    case _ => false
  }

  lemma {:induction false} TakenNormal(rules: Rules, statics: seq<Account>, accounts: seq<Account>, except: Option<string>, raw: string)
    requires OwnFile(rules.normalize, accounts)
    ensures AddressTaken(rules, statics, NormalFile(rules.normalize, accounts), except, raw)
       <==> AddressTaken(rules, statics, accounts, except, raw)
  {
    var n := rules.normalize;
    FileUsesNormal(n, accounts);
    var normal, wanted := NormalFile(n, accounts), n(raw);
    assert forall i :: 0 <= i < |accounts| ==> normal[i].name == accounts[i].name;
    if i :| 0 <= i < |accounts| && Some(accounts[i].name) != except && Uses(n, accounts[i], wanted) {
      assert Uses(n, normal[i], wanted) && Some(normal[i].name) != except;
    }
  }

  lemma {:induction false} NameTakenNormal(n: string -> string, statics: seq<Account>, accounts: seq<Account>, name: string)
    ensures NameTaken(statics, NormalFile(n, accounts), name) <==> NameTaken(statics, accounts, name)
  {
    var normal := NormalFile(n, accounts);
    assert forall i :: 0 <= i < |accounts| ==> normal[i].name == accounts[i].name;
  }

  lemma {:induction false} NormalAppends(n: string -> string, accounts: seq<Account>, a: Account)
    requires OwnFile(n, accounts)
    ensures NormalFile(n, NormalFile(n, accounts) + [a]) == NormalFile(n, accounts + [a])
  {
    NormalTwice(n, accounts);
    var x, y := NormalFile(n, NormalFile(n, accounts) + [a]), NormalFile(n, accounts + [a]);
    forall i | 0 <= i < |x|
      ensures x[i] == y[i]
    {
      if i < |accounts| {
        assert x[i] == NormalFile(n, NormalFile(n, accounts))[i];
      }
    }
  }

  lemma {:induction false} AddedNormal(rules: Rules, statics: seq<Account>, accounts: seq<Account>, account: Account)
    requires OwnFile(rules.normalize, accounts)
    ensures Agree(rules.normalize, Added(rules, statics, NormalFile(rules.normalize, accounts), account), Added(rules, statics, accounts, account))
  {
    var n := rules.normalize;
    var normal := NormalFile(n, accounts);
    var made := Account(rules.nameForm(account.name), Stored(n, account.addresses));
    NameTakenNormal(n, statics, accounts, made.name);
    forall k | 0 <= k < |made.addresses|
      ensures AddressTaken(rules, statics, normal, None, made.addresses[k]) <==> AddressTaken(rules, statics, accounts, None, made.addresses[k])
    {
      TakenNormal(rules, statics, accounts, None, made.addresses[k]);
    }
    NormalAppends(n, accounts, made);
  }

  lemma {:induction false} FindNormal(n: string -> string, accounts: seq<Account>, name: string)
    ensures Find(NormalFile(n, accounts), name) == Find(accounts, name)
  {
    if accounts != [] {
      FindNormal(n, accounts[1..], name);
      assert NormalFile(n, accounts)[1..] == NormalFile(n, accounts[1..]);
    }
  }

  lemma {:induction false} NormalUpdates(n: string -> string, accounts: seq<Account>, slot: nat, a: Account, b: Account)
    requires OwnFile(n, accounts) && slot < |accounts| && Normal(n, a) == Normal(n, b)
    ensures NormalFile(n, NormalFile(n, accounts)[slot := a]) == NormalFile(n, accounts[slot := b])
  {
    NormalTwice(n, accounts);
    var x, y := NormalFile(n, NormalFile(n, accounts)[slot := a]), NormalFile(n, accounts[slot := b]);
    forall i | 0 <= i < |x|
      ensures x[i] == y[i]
    {
      if i != slot {
        assert x[i] == NormalFile(n, NormalFile(n, accounts))[i];
      }
    }
  }

  /** An address that is not stored yet goes last, whatever form the others are in. */
  lemma {:induction false} StoredAppends(n: string -> string, values: seq<string>, address: string)
    requires Own(n, values)
    ensures Stored(n, Stored(n, values) + [address]) == Stored(n, values + [address])
  {
    StoredTwice(n, values);
    assert Most(values + [address]) == values && Most(Stored(n, values) + [address]) == Stored(n, values);
  }

  lemma {:induction false} AddressAddedNormal(rules: Rules, statics: seq<Account>, accounts: seq<Account>, name: string, raw: string)
    requires OwnFile(rules.normalize, accounts)
    ensures Agree(rules.normalize, AddressAdded(rules, statics, NormalFile(rules.normalize, accounts), name, raw),
                  AddressAdded(rules, statics, accounts, name, raw))
  {
    var n := rules.normalize;
    var address := n(raw);
    FindNormal(n, accounts, name);
    if Find(accounts, name).Some? {
      var slot := Find(accounts, name).value;
      var a := accounts[slot];
      UsesNormal(n, a, address);
      TakenNormal(rules, statics, accounts, Some(name), address);
      StoredAppends(n, a.addresses, address);
      NormalUpdates(n, accounts, slot, Normal(n, a).(addresses := Stored(n, a.addresses) + [address]),
                    a.(addresses := a.addresses + [address]));
    }
  }

  /** Leaving an address out and putting the rest in stored form may be done in either order. */
  lemma {:induction false} StoredOthers(n: string -> string, values: seq<string>, wanted: string)
    requires Own(n, values)
    ensures Others(n, Stored(n, values), wanted) == Stored(n, Others(n, values, wanted))
  {
    if values != [] {
      OwnFront(n, values);
      StoredOthers(n, Most(values), wanted);
      var front, value := Stored(n, Most(values)), n(Last(values));
      var others := Others(n, Most(values), wanted);
      OthersHold(n, front, wanted, value);
      assert Most(front + [value]) == front;
      assert Most(others + [Last(values)]) == others;
    }
  }

  lemma {:induction false} OthersHold(n: string -> string, values: seq<string>, wanted: string, w: string)
    ensures w in Others(n, values, wanted) <==> w in values && n(w) != wanted
    ensures |Others(n, values, wanted)| <= |values|
  {
    if values != [] {
      OthersHold(n, Most(values), wanted, w);
      assert values == Most(values) + [Last(values)];
    }
  }

  lemma {:induction false} OwnOthers(n: string -> string, values: seq<string>, wanted: string)
    requires Own(n, values)
    ensures Own(n, Others(n, values, wanted))
  {
    var rest := Others(n, values, wanted);
    forall k | 0 <= k < |rest| ensures n(n(rest[k])) == n(rest[k]) {
      OthersHold(n, values, wanted, rest[k]);
    }
  }

  lemma {:induction false} OwnWithout(n: string -> string, accounts: seq<Account>, name: string)
    requires OwnFile(n, accounts)
    ensures OwnFile(n, Without(accounts, name))
  {
    var rest := Without(accounts, name);
    forall i | 0 <= i < |rest| ensures Own(n, rest[i].addresses) {
      var p := WithoutOne(accounts, name, i);
    }
  }

  lemma {:induction false} AllKept(n: string -> string, values: seq<string>, wanted: string)
    ensures Others(n, values, wanted) == values <==> forall k :: 0 <= k < |values| ==> n(values[k]) != wanted
  {
    if values != [] {
      AllKept(n, Most(values), wanted);
      OthersHold(n, Most(values), wanted, wanted);
      assert values == Most(values) + [Last(values)];
      assert values[|values| - 1] == Last(values);
    }
  }

  lemma {:induction false} StoredIsEmpty(n: string -> string, values: seq<string>)
    ensures Stored(n, values) == [] <==> values == []
  {
  }

  lemma {:induction false} AddressRemovedNormal(rules: Rules, accounts: seq<Account>, name: string, raw: string)
    requires OwnFile(rules.normalize, accounts)
    ensures Agree(rules.normalize, AddressRemoved(rules, NormalFile(rules.normalize, accounts), name, raw),
                  AddressRemoved(rules, accounts, name, raw))
  {
    var n := rules.normalize;
    var wanted := n(raw);
    FindNormal(n, accounts, name);
    if Find(accounts, name).Some? {
      var slot := Find(accounts, name).value;
      var a := accounts[slot];
      var rest, stored := Others(n, a.addresses, wanted), Stored(n, a.addresses);
      StoredOthers(n, a.addresses, wanted);
      StoredIsEmpty(n, rest);
      AllKept(n, a.addresses, wanted);
      AllKept(n, stored, wanted);
      UsesNormal(n, a, wanted);
      assert Others(n, stored, wanted) == stored <==> rest == a.addresses;
      OwnOthers(n, a.addresses, wanted);
      StoredTwice(n, rest);
      NormalUpdates(n, accounts, slot, Normal(n, a).(addresses := Stored(n, rest)), a.(addresses := rest));
    }
  }

  lemma {:induction false} WithoutNormal(n: string -> string, accounts: seq<Account>, name: string)
    ensures Without(NormalFile(n, accounts), name) == NormalFile(n, Without(accounts, name))
  {
    if accounts != [] {
      WithoutNormal(n, Most(accounts), name);
      assert Most(NormalFile(n, accounts)) == NormalFile(n, Most(accounts));
    }
  }

  lemma {:induction false} ReplacedNormal(rules: Rules, statics: seq<Account>, accounts: seq<Account>, name: string, replacement: Account)
    requires OwnFile(rules.normalize, accounts)
    ensures Agree(rules.normalize, Replaced(rules, statics, NormalFile(rules.normalize, accounts), name, replacement),
                  Replaced(rules, statics, accounts, name, replacement))
  {
    var n := rules.normalize;
    var normal := NormalFile(n, accounts);
    FindNormal(n, accounts, name);
    if Find(accounts, name).Some? {
      var slot := Find(accounts, name).value;
      var made := Account(name, Stored(n, replacement.addresses));
      FileUsesNormal(n, accounts);
      forall k | 0 <= k < |made.addresses|
        ensures Known(rules, statics, normal, slot, made.addresses[k]) <==> Known(rules, statics, accounts, slot, made.addresses[k])
      {
        KnownNormal(rules, statics, accounts, slot, made.addresses[k]);
      }
      NormalUpdates(n, accounts, slot, made, made);
    }
  }

  lemma {:induction false} KnownNormal(rules: Rules, statics: seq<Account>, accounts: seq<Account>, slot: nat, stored: string)
    requires OwnFile(rules.normalize, accounts)
    ensures Known(rules, statics, NormalFile(rules.normalize, accounts), slot, stored) <==> Known(rules, statics, accounts, slot, stored)
  {
    var n := rules.normalize;
    FileUsesNormal(n, accounts);
    if i :| 0 <= i < |accounts| && i != slot && Uses(n, accounts[i], stored) {
      assert Uses(n, NormalFile(n, accounts)[i], stored);
    }
  }

  /** Every edit does to a file in stored form what it does to the file as it was, up to stored form. */
  lemma {:induction false} EditSeesStoredForm(rules: Rules, statics: seq<Account>, accounts: seq<Account>, e: Edit)
    requires OwnFile(rules.normalize, accounts)
    ensures Agree(rules.normalize, Outcome(rules, statics, NormalFile(rules.normalize, accounts), e), Outcome(rules, statics, accounts, e))
  {
    var n := rules.normalize;
    match e
    case Add(account) => AddedNormal(rules, statics, accounts, account);
    case AddAddress(name, raw) => AddressAddedNormal(rules, statics, accounts, name, raw);
    case RemoveAddress(name, raw) => AddressRemovedNormal(rules, accounts, name, raw);
    case Remove(name) =>
      OwnWithout(n, accounts, name);
      WithoutNormal(n, accounts, name);
      NormalTwice(n, Without(accounts, name));
    case Replace(name, account) => ReplacedNormal(rules, statics, accounts, name, account);
  }

  /** Every edit leaves each stored form its own. */
  lemma {:induction false} EditKeepsOwn(rules: Rules, statics: seq<Account>, accounts: seq<Account>, e: Edit)
    requires SettlesTwice(rules.normalize) && OwnFile(rules.normalize, accounts) && Outcome(rules, statics, accounts, e).Ok?
    ensures OwnFile(rules.normalize, Outcome(rules, statics, accounts, e).value)
  {
    var n := rules.normalize;
    match e
    case Add(account) => OwnStored(n, account.addresses);
    case AddAddress(name, raw) => assert n(n(n(raw))) == n(n(raw));
    case RemoveAddress(name, raw) => OwnOthers(n, accounts[Find(accounts, name).value].addresses, n(raw));
    case Remove(name) => OwnWithout(n, accounts, name);
    case Replace(name, account) => OwnStored(n, account.addresses);
  }

  // ----- The file -----

  function Succeeded(r: Result<seq<Account>, Error>): Option<seq<Account>> {
    match r
    case Ok(after) => Some(after)
    case Err(_) => None
  }

  /** Reading decodes and normalizes, writing encodes, and the edits are the account edits. */
  function FileCode(rules: Rules, statics: seq<Account>, decode: string -> Option<seq<Account>>,
                    encode: seq<Account> -> Option<string>): AccountsFile {
    LockedEdit.Code(
      text => (match decode(text) case None => None case Some(accounts) => Some(NormalFile(rules.normalize, accounts))),
      encode, [], (e, accounts) => Succeeded(Outcome(rules, statics, accounts, e)))
  }

  /** The text form alone gives back what was written. */
  ghost predicate Legible(decode: string -> Option<seq<Account>>, encode: seq<Account> -> Option<string>) {
    forall accounts :: encode(accounts).Some? ==> decode(encode(accounts).value) == Some(accounts)
  }

  /** What the file stands for, when it can be read. */
  ghost predicate FileApart(code: AccountsFile, rules: Rules, statics: seq<Account>, file: Option<string>) {
    var accounts := LockedEdit.Parsed(code, file);
    accounts.Some? ==> Separate(rules.normalize, statics + accounts.value)
  }

  lemma {:induction false} ParsedIsOwn(rules: Rules, statics: seq<Account>, decode: string -> Option<seq<Account>>,
                                       encode: seq<Account> -> Option<string>, file: Option<string>)
    requires SettlesTwice(rules.normalize) && LockedEdit.Parsed(FileCode(rules, statics, decode, encode), file).Some?
    ensures OwnFile(rules.normalize, LockedEdit.Parsed(FileCode(rules, statics, decode, encode), file).value)
  {
    if file.Some? {
      ReadIsOwn(rules.normalize, decode(file.value).value);
    }
  }

  lemma {:induction false} EditKeepsFileApart(rules: Rules, statics: seq<Account>, decode: string -> Option<seq<Account>>,
                                              encode: seq<Account> -> Option<string>, e: Edit, file: Option<string>)
    requires SettlesTwice(rules.normalize) && Legible(decode, encode) && Careful(rules.normalize, e)
    requires var code := FileCode(rules, statics, decode, encode);
             FileApart(code, rules, statics, file) && LockedEdit.Edited(code, e, file).Some?
    ensures var code := FileCode(rules, statics, decode, encode);
            && FileApart(code, rules, statics, Some(LockedEdit.Edited(code, e, file).value.1))
            && Separate(rules.normalize, statics + LockedEdit.Edited(code, e, file).value.0)
  {
    var code := FileCode(rules, statics, decode, encode);
    var accounts := LockedEdit.Parsed(code, file).value;
    var (after, text) := LockedEdit.Edited(code, e, file).value;
    ParsedIsOwn(rules, statics, decode, encode, file);
    EditKeeps(rules, statics, accounts, e);
    EditKeepsOwn(rules, statics, accounts, e);
    assert encode(after) == Some(text) && decode(text) == Some(after);
    NormalStaysApart(rules.normalize, statics, after);
  }

  /** One edit through the file keeps it apart exactly when it is no replacement that claims an address in use. */
  lemma {:induction false} FileApartExactlyWhen(rules: Rules, statics: seq<Account>, decode: string -> Option<seq<Account>>,
                                                encode: seq<Account> -> Option<string>, e: Edit, file: Option<string>)
    requires SettlesTwice(rules.normalize) && Legible(decode, encode)
    requires var code := FileCode(rules, statics, decode, encode);
             FileApart(code, rules, statics, file) && LockedEdit.Edited(code, e, file).Some?
    ensures var code := FileCode(rules, statics, decode, encode);
            var accounts := LockedEdit.Parsed(code, file).value;
            FileApart(code, rules, statics, Some(LockedEdit.Edited(code, e, file).value.1))
            <==> (e.Replace? ==>
                    Unclaimed(rules, statics, accounts, Find(accounts, e.name).value, Stored(rules.normalize, e.account.addresses)))
  {
    var code := FileCode(rules, statics, decode, encode);
    var accounts := LockedEdit.Parsed(code, file).value;
    var (after, text) := LockedEdit.Edited(code, e, file).value;
    ParsedIsOwn(rules, statics, decode, encode, file);
    EditKeepsExactlyWhen(rules, statics, accounts, e);
    EditKeepsOwn(rules, statics, accounts, e);
    assert encode(after) == Some(text) && decode(text) == Some(after);
    NormalStaysApart(rules.normalize, statics, after);
  }

  lemma {:induction false} LogKeepsFileApart(rules: Rules, statics: seq<Account>, decode: string -> Option<seq<Account>>,
                                             encode: seq<Account> -> Option<string>, log: seq<Edit>, first: Option<string>)
    requires SettlesTwice(rules.normalize) && Legible(decode, encode)
    requires forall k :: 0 <= k < |log| ==> Careful(rules.normalize, log[k])
    requires var code := FileCode(rules, statics, decode, encode);
             FileApart(code, rules, statics, first) && LockedEdit.Sensible(code, log, first)
    ensures var code := FileCode(rules, statics, decode, encode);
            && FileApart(code, rules, statics, LockedEdit.Text(code, log, first))
            && (LockedEdit.After(code, log, first).Some? ==>
                  Separate(rules.normalize, statics + LockedEdit.After(code, log, first).value))
  {
    if log != [] {
      var code := FileCode(rules, statics, decode, encode);
      LogKeepsFileApart(rules, statics, decode, encode, Most(log), first);
      EditKeepsFileApart(rules, statics, decode, encode, Last(log), LockedEdit.Text(code, Most(log), first));
    }
  }

  /** Unique names, disjoint addresses, and a table that sends each address to its owner. */
  ghost predicate WellRouted(rules: Rules, ldap: seq<Account>, sql: seq<Account>, statics: seq<Account>, accounts: seq<Account>) {
    && Separate(rules.normalize, statics + accounts)
    && forall i, w :: 0 <= i < |statics + accounts| && Uses(rules.normalize, (statics + accounts)[i], w) ==>
         var routes := Routes(rules.normalize, ldap, sql, statics, accounts);
         w in routes && routes[w] == (statics + accounts)[i].name
  }

  lemma {:induction false} ApartIsWellRouted(rules: Rules, ldap: seq<Account>, sql: seq<Account>, statics: seq<Account>, accounts: seq<Account>)
    requires Separate(rules.normalize, statics + accounts)
    ensures WellRouted(rules, ldap, sql, statics, accounts)
  {
    forall i, w | 0 <= i < |statics + accounts| && Uses(rules.normalize, (statics + accounts)[i], w)
      ensures w in Routes(rules.normalize, ldap, sql, statics, accounts)
      ensures Routes(rules.normalize, ldap, sql, statics, accounts)[w] == (statics + accounts)[i].name
    {
      RoutesToOwner(rules.normalize, ldap, sql, statics, accounts, i, w);
    }
  }

  /** Every replacement asked for has addresses whose stored form is its own. */
  predicate CarefulSteps(n: string -> string, steps: seq<LockedEdit.Step<Edit>>) {
    forall k :: 0 <= k < |steps| && steps[k].Acquire? ==> Careful(n, steps[k].op)
  }

  /**
   * In every interleaving of processes and threads editing the accounts file,
   * with crashes at any step, the accounts on disk and those every process
   * routes by have unique names and disjoint addresses, and each address
   * routes to its owner.
   */
  lemma {:induction false} EveryAddressHasOneOwner(
      rules: Rules, statics: seq<Account>, decode: string -> Option<seq<Account>>, encode: seq<Account> -> Option<string>,
      ldap: seq<Account>, sql: seq<Account>, first: Option<string>, ws: seq<World>, steps: seq<LockedEdit.Step<Edit>>, t: nat)
    requires SettlesTwice(rules.normalize) && Legible(decode, encode) && CarefulSteps(rules.normalize, steps)
    requires FileApart(FileCode(rules, statics, decode, encode), rules, statics, first)
    requires LockedEdit.Run(FileCode(rules, statics, decode, encode), first, ws, steps) && t < |ws|
    ensures var accounts := LockedEdit.Parsed(FileCode(rules, statics, decode, encode), ws[t].file);
            accounts.Some? ==> WellRouted(rules, ldap, sql, statics, accounts.value)
    ensures forall p :: p in ws[t].mirrors ==> WellRouted(rules, ldap, sql, statics, ws[t].mirrors[p].state)
  {
    var code := FileCode(rules, statics, decode, encode);
    LockedEdit.RunKeepsInv(code, first, ws, steps, t);
    LockedEdit.LogIsAskedFor(code, first, ws, steps, t, e => Careful(rules.normalize, e));
    LogKeepsFileApart(rules, statics, decode, encode, ws[t].log, first);
    var accounts := LockedEdit.Parsed(code, ws[t].file);
    if accounts.Some? {
      ApartIsWellRouted(rules, ldap, sql, statics, accounts.value);
    }
    forall p | p in ws[t].mirrors
      ensures WellRouted(rules, ldap, sql, statics, ws[t].mirrors[p].state)
    {
      var m := ws[t].mirrors[p];
      assert LockedEdit.Faithful(code, first, ws[t], m);
      LockedEdit.LogShrinks(code, first, ws[t].log, m.version);
      LogKeepsFileApart(rules, statics, decode, encode, ws[t].log[..m.version], first);
      ApartIsWellRouted(rules, ldap, sql, statics, m.state);
    }
  }

  // ----- No account edit is lost -----

  /** The same stored form, of accounts as the store holds them. */
  predicate SameStored(n: string -> string, a: seq<Account>, b: seq<Account>) {
    OwnFile(n, a) && OwnFile(n, b) && NormalFile(n, a) == NormalFile(n, b)
  }

  lemma {:induction false} EditsRespect(rules: Rules, statics: seq<Account>, a: seq<Account>, b: seq<Account>, e: Edit)
    requires SettlesTwice(rules.normalize) && SameStored(rules.normalize, a, b) && Outcome(rules, statics, a, e).Ok?
    ensures Outcome(rules, statics, b, e).Ok?
    ensures SameStored(rules.normalize, Outcome(rules, statics, a, e).value, Outcome(rules, statics, b, e).value)
  {
    EditSeesStoredForm(rules, statics, a, e);
    EditSeesStoredForm(rules, statics, b, e);
    EditKeepsOwn(rules, statics, a, e);
    EditKeepsOwn(rules, statics, b, e);
  }

  /** Stored form is what edits and the file agree on. */
  lemma {:induction false} StoredFormRespected(rules: Rules, statics: seq<Account>, decode: string -> Option<seq<Account>>,
                                               encode: seq<Account> -> Option<string>)
    requires SettlesTwice(rules.normalize) && Legible(decode, encode)
    ensures LockedEdit.Respected(FileCode(rules, statics, decode, encode), (a, b) => SameStored(rules.normalize, a, b))
  {
    var n := rules.normalize;
    var code := FileCode(rules, statics, decode, encode);
    var same := (a, b) => SameStored(n, a, b);
    forall e, a, b | same(a, b) && code.mutate(e, a).Some?
      ensures LockedEdit.Alike(same, code.mutate(e, a), code.mutate(e, b))
    {
      EditsRespect(rules, statics, a, b, e);
    }
    forall s | same(s, s) && code.serialize(s).Some?
      ensures LockedEdit.Alike(same, code.parse(code.serialize(s).value), Some(s))
    {
      assert decode(encode(s).value) == Some(s);
      NormalTwice(n, s);
      ReadIsOwn(n, s);
    }
  }

  lemma {:induction false} FoldIsTheRun(rules: Rules, statics: seq<Account>, decode: string -> Option<seq<Account>>,
                                        encode: seq<Account> -> Option<string>, log: seq<Edit>, start: seq<Account>)
    requires LockedEdit.Folded(FileCode(rules, statics, decode, encode), log, start).Some?
    ensures LockedEdit.Folded(FileCode(rules, statics, decode, encode), log, start).value == Run(rules, statics, start, log)
  {
    if log != [] {
      FoldIsTheRun(rules, statics, decode, encode, Most(log), start);
    }
  }

  /** A file that was written reads as accounts in stored form. */
  lemma {:induction false} WrittenIsStored(rules: Rules, statics: seq<Account>, decode: string -> Option<seq<Account>>,
                                           encode: seq<Account> -> Option<string>, e: Edit, file: Option<string>)
    requires SettlesTwice(rules.normalize) && Legible(decode, encode)
    requires LockedEdit.Edited(FileCode(rules, statics, decode, encode), e, file).Some?
    ensures var code := FileCode(rules, statics, decode, encode);
            var accounts := code.parse(LockedEdit.Edited(code, e, file).value.1);
            accounts.Some? && NormalFile(rules.normalize, accounts.value) == accounts.value
  {
    var code := FileCode(rules, statics, decode, encode);
    var (after, text) := LockedEdit.Edited(code, e, file).value;
    ParsedIsOwn(rules, statics, decode, encode, file);
    EditKeepsOwn(rules, statics, LockedEdit.Parsed(code, file).value, e);
    assert decode(text) == Some(after);
    NormalTwice(rules.normalize, after);
  }

  /**
   * In every interleaving the file, once edited, reads as the stored form of
   * the committed edits run one after another from the first accounts.
   */
  lemma {:induction false} NoAccountEditIsLost(
      rules: Rules, statics: seq<Account>, decode: string -> Option<seq<Account>>, encode: seq<Account> -> Option<string>,
      first: Option<string>, start: seq<Account>, ws: seq<World>, steps: seq<LockedEdit.Step<Edit>>, t: nat)
    requires SettlesTwice(rules.normalize) && Legible(decode, encode)
    requires LockedEdit.Parsed(FileCode(rules, statics, decode, encode), first) == Some(start)
    requires LockedEdit.Run(FileCode(rules, statics, decode, encode), first, ws, steps) && t < |ws|
    ensures LockedEdit.Parsed(FileCode(rules, statics, decode, encode), ws[t].file)
         == Some(if ws[t].log == [] then start else NormalFile(rules.normalize, Run(rules, statics, start, ws[t].log)))
  {
    var code := FileCode(rules, statics, decode, encode);
    var log := ws[t].log;
    LockedEdit.FileIsTheLog(code, first, ws, steps, t);
    if log != [] {
      StoredFormRespected(rules, statics, decode, encode);
      ParsedIsOwn(rules, statics, decode, encode, first);
      LockedEdit.NoEditIsLost(code, (a, b) => SameStored(rules.normalize, a, b), first, start, ws, steps, t);
      FoldIsTheRun(rules, statics, decode, encode, log, start);
      WrittenIsStored(rules, statics, decode, encode, Last(log), LockedEdit.Text(code, Most(log), first));
    }
  }
}
