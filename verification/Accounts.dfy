/**
 * The account store: which account owns an address, what every edit keeps,
 * and the table the directory routes by. Each edit runs under the store's
 * lock on the accounts as they are on disk.
 */
module Accounts {
  import opened Basics
  import Addresses

  datatype Account = Account(name: string, addresses: seq<string>)

  /** What the store asks of names and addresses, and who else routes one. */
  datatype Rules = Rules(
    normalize: string -> string,
    nameForm: string -> string,
    nameOk: string -> bool,
    addressOk: string -> bool,
    aliases: seq<string>,
    masked: set<string>)

  /** The second stored form is the last; the first need not be. */
  ghost predicate SettlesTwice(normalize: string -> string) {
    forall s :: normalize(normalize(normalize(s))) == normalize(normalize(s))
  }

  /** The addresses whose stored form is its own stored form. */
  predicate Own(normalize: string -> string, values: seq<string>) {
    forall k :: 0 <= k < |values| ==> normalize(normalize(values[k])) == normalize(values[k])
  }

  /** The normalizer of mail addresses settles at the second application. */
  lemma {:induction false} AddressesSettleTwice(normalize: string -> string, u: Addresses.Unicode)
    requires Addresses.Sound(u) && forall s :: normalize(s) == Addresses.StoredAddress(u, s)
    ensures SettlesTwice(normalize)
  {
    forall s ensures normalize(normalize(normalize(s))) == normalize(normalize(s)) {
      Addresses.OwnStoredFormExactlyWhen(u, s);
    }
  }

  datatype Error = NotFound | Duplicate | Invalid

  // ----- Who uses an address -----

  predicate Uses(normalize: string -> string, a: Account, address: string) {
    exists k :: 0 <= k < |a.addresses| && normalize(a.addresses[k]) == address
  }

  /** Names are unique and no two accounts share an address. */
  ghost predicate Separate(normalize: string -> string, all: seq<Account>) {
    forall i, j :: 0 <= i < j < |all| ==>
      all[i].name != all[j].name && Strangers(normalize, all[i], all[j])
  }

  ghost predicate Strangers(normalize: string -> string, a: Account, b: Account) {
    forall w :: !(Uses(normalize, a, w) && Uses(normalize, b, w))
  }

  // ----- Edits -----

  /** Every value in its stored form, once. */
  function Stored(normalize: string -> string, values: seq<string>): seq<string> {
    if values == [] then []
    else
      var front := Stored(normalize, Most(values));
      var value := normalize(Last(values));
      if value in front then front else front + [value]
  }

  predicate NameTaken(statics: seq<Account>, accounts: seq<Account>, name: string) {
    || (exists i :: 0 <= i < |statics| && statics[i].name == name)
    || (exists i :: 0 <= i < |accounts| && accounts[i].name == name)
  }

  /** Whether an address already routes somewhere, not counting the dynamic account `except`. */
  predicate AddressTaken(rules: Rules, statics: seq<Account>, accounts: seq<Account>, except: Option<string>, raw: string) {
    var wanted := rules.normalize(raw);
    || (exists i :: 0 <= i < |statics| && Uses(rules.normalize, statics[i], wanted))
    || (exists i :: 0 <= i < |accounts| && Some(accounts[i].name) != except && Uses(rules.normalize, accounts[i], wanted))
    || (exists i :: 0 <= i < |rules.aliases| && rules.normalize(rules.aliases[i]) == wanted)
    || wanted in rules.masked
  }

  function Added(rules: Rules, statics: seq<Account>, accounts: seq<Account>, account: Account): Result<seq<Account>, Error> {
    var made := Account(rules.nameForm(account.name), Stored(rules.normalize, account.addresses));
    if !rules.nameOk(made.name) || made.addresses == [] then Err(Invalid)
    else if exists k :: 0 <= k < |made.addresses| && !rules.addressOk(made.addresses[k]) then Err(Invalid)
    else if NameTaken(statics, accounts, made.name) then Err(Duplicate)
    else if exists k :: 0 <= k < |made.addresses| && AddressTaken(rules, statics, accounts, None, made.addresses[k]) then Err(Duplicate)
    else Ok(accounts + [made])
  }

  /** The first account with a name. */
  function Find(accounts: seq<Account>, name: string): (slot: Option<nat>)
    ensures slot.Some? ==> slot.value < |accounts| && accounts[slot.value].name == name
    ensures slot.None? ==> forall i :: 0 <= i < |accounts| ==> accounts[i].name != name
  {
    if accounts == [] then None
    else if accounts[0].name == name then Some(0)
    else match Find(accounts[1..], name)
      case None =>
        assert forall i :: 0 < i < |accounts| ==> accounts[i] == accounts[1..][i - 1];
        None
      case Some(i) => Some(i + 1)
  }

  function AddressAdded(rules: Rules, statics: seq<Account>, accounts: seq<Account>, name: string, raw: string): Result<seq<Account>, Error> {
    var address := rules.normalize(raw);
    if !rules.addressOk(address) then Err(Invalid)
    else match Find(accounts, name)
      case None => Err(NotFound)
      case Some(slot) =>
        if Uses(rules.normalize, accounts[slot], address) || AddressTaken(rules, statics, accounts, Some(name), address)
        then Err(Duplicate)
        else Ok(accounts[slot := accounts[slot].(addresses := accounts[slot].addresses + [address])])
  }

  /** The addresses that are not `wanted`. */
  function Others(normalize: string -> string, addresses: seq<string>, wanted: string): seq<string> {
    if addresses == [] then []
    else
      var front := Others(normalize, Most(addresses), wanted);
      if normalize(Last(addresses)) == wanted then front else front + [Last(addresses)]
  }

  function AddressRemoved(rules: Rules, accounts: seq<Account>, name: string, raw: string): Result<seq<Account>, Error> {
    var wanted := rules.normalize(raw);
    match Find(accounts, name)
    case None => Err(NotFound)
    case Some(slot) =>
      var rest := Others(rules.normalize, accounts[slot].addresses, wanted);
      if rest == accounts[slot].addresses || rest == [] then Err(Invalid)
      else Ok(accounts[slot := accounts[slot].(addresses := rest)])
  }

  /** The accounts not called `name`. */
  function Without(accounts: seq<Account>, name: string): seq<Account> {
    if accounts == [] then []
    else
      var front := Without(Most(accounts), name);
      if Last(accounts).name == name then front else front + [Last(accounts)]
  }

  function Removed(accounts: seq<Account>, name: string): Result<seq<Account>, Error> {
    var rest := Without(accounts, name);
    if |rest| == |accounts| then Err(NotFound) else Ok(rest)
  }

  function Replaced(rules: Rules, statics: seq<Account>, accounts: seq<Account>, name: string, replacement: Account): Result<seq<Account>, Error> {
    match Find(accounts, name)
    case None => Err(NotFound)
    case Some(slot) =>
      var made := Account(name, Stored(rules.normalize, replacement.addresses));
      if exists k :: 0 <= k < |made.addresses| && Known(rules, statics, accounts, slot, made.addresses[k])
      then Err(Duplicate)
      else Ok(accounts[slot := made])
  }

  /** Whether a stored form is the stored form of an address of another account. */
  predicate Known(rules: Rules, statics: seq<Account>, accounts: seq<Account>, slot: nat, stored: string) {
    || (exists i :: 0 <= i < |statics| && Uses(rules.normalize, statics[i], stored))
    || (exists i :: 0 <= i < |accounts| && i != slot && Uses(rules.normalize, accounts[i], stored))
  }

  datatype Edit =
    | Add(account: Account)
    | AddAddress(name: string, raw: string)
    | RemoveAddress(name: string, raw: string)
    | Remove(name: string)
    | Replace(name: string, account: Account)

  function Outcome(rules: Rules, statics: seq<Account>, accounts: seq<Account>, e: Edit): Result<seq<Account>, Error> {
    match e
    case Add(account) => Added(rules, statics, accounts, account)
    case AddAddress(name, raw) => AddressAdded(rules, statics, accounts, name, raw)
    case RemoveAddress(name, raw) => AddressRemoved(rules, accounts, name, raw)
    case Remove(name) => Removed(accounts, name)
    case Replace(name, account) => Replaced(rules, statics, accounts, name, account)
  }

  /** The accounts after a run of edits; one that fails changes nothing. */
  function Run(rules: Rules, statics: seq<Account>, accounts: seq<Account>, es: seq<Edit>): seq<Account> {
    if es == [] then accounts
    else
      var before := Run(rules, statics, accounts, Most(es));
      match Outcome(rules, statics, before, Last(es))
      case Ok(after) => after
      case Err(_) => before
  }

  // ----- What every edit keeps -----

  lemma {:induction false} SeparateAppend(n: string -> string, all: seq<Account>, a: Account)
    requires Separate(n, all)
    requires forall i :: 0 <= i < |all| ==> all[i].name != a.name && Strangers(n, all[i], a)
    ensures Separate(n, all + [a])
  {
  }

  lemma {:induction false} SeparateUpdate(n: string -> string, all: seq<Account>, k: nat, a: Account)
    requires Separate(n, all) && k < |all| && a.name == all[k].name
    requires forall i :: 0 <= i < |all| && i != k ==> Strangers(n, all[i], a)
    ensures Separate(n, all[k := a])
  {
    var all' := all[k := a];
    forall i, j | 0 <= i < j < |all'| ensures all'[i].name != all'[j].name && Strangers(n, all'[i], all'[j]) {
      if i == k {
        assert Strangers(n, all[j], a);
      } else if j == k {
        assert Strangers(n, all[i], a);
      }
    }
  }

  lemma {:induction false} StrangersStay(n: string -> string, a: Account, b: Account, b': Account)
    requires Strangers(n, a, b) && forall w :: Uses(n, b', w) ==> Uses(n, b, w)
    ensures Strangers(n, a, b')
  {
  }

  lemma {:induction false} AddKeeps(rules: Rules, statics: seq<Account>, accounts: seq<Account>, account: Account)
    requires Separate(rules.normalize, statics + accounts) && Added(rules, statics, accounts, account).Ok?
    ensures Separate(rules.normalize, statics + Added(rules, statics, accounts, account).value)
  {
    var n, all := rules.normalize, statics + accounts;
    var made := Account(rules.nameForm(account.name), Stored(n, account.addresses));
    forall i | 0 <= i < |all| ensures all[i].name != made.name && Strangers(n, all[i], made) {
      forall w ensures !(Uses(n, all[i], w) && Uses(n, made, w)) {
        if Uses(n, made, w) {
          var k :| 0 <= k < |made.addresses| && n(made.addresses[k]) == w;
          assert !AddressTaken(rules, statics, accounts, None, made.addresses[k]);
        }
      }
    }
    SeparateAppend(n, all, made);
    assert statics + (accounts + [made]) == all + [made];
  }

  lemma {:induction false} OneMoreAddress(n: string -> string, a: Account, address: string, w: string)
    requires Uses(n, a.(addresses := a.addresses + [address]), w)
    ensures Uses(n, a, w) || w == n(address)
  {
    var b := a.addresses + [address];
    var k :| 0 <= k < |b| && n(b[k]) == w;
    if k < |a.addresses| {
      assert a.addresses[k] == b[k];
    }
  }

  lemma {:induction false} AddAddressKeeps(rules: Rules, statics: seq<Account>, accounts: seq<Account>, name: string, raw: string)
    requires Separate(rules.normalize, statics + accounts) && AddressAdded(rules, statics, accounts, name, raw).Ok?
    ensures Separate(rules.normalize, statics + AddressAdded(rules, statics, accounts, name, raw).value)
  {
    var n, all := rules.normalize, statics + accounts;
    var slot := Find(accounts, name).value;
    var k := |statics| + slot;
    var address := n(raw);
    var made := accounts[slot].(addresses := accounts[slot].addresses + [address]);
    assert all[k] == accounts[slot];
    forall i | 0 <= i < |all| && i != k ensures Strangers(n, all[i], made) {
      assert all[i].name != name by {
        assert if i < k then all[i].name != all[k].name else all[k].name != all[i].name;
      }
      assert !Uses(n, all[i], n(address)) by {
        if i < |statics| {
          assert all[i] == statics[i];
        } else {
          assert all[i] == accounts[i - |statics|];
        }
      }
      assert Strangers(n, all[i], all[k]) by {
        if i > k {
          assert Strangers(n, all[k], all[i]);
        }
      }
      forall w ensures !(Uses(n, all[i], w) && Uses(n, made, w)) {
        if Uses(n, made, w) {
          OneMoreAddress(n, accounts[slot], address, w);
        }
      }
    }
    SeparateUpdate(n, all, k, made);
    assert statics + accounts[slot := made] == all[k := made];
  }

  lemma {:induction false} OthersUse(n: string -> string, addresses: seq<string>, wanted: string)
    ensures forall x :: x in Others(n, addresses, wanted) <==> x in addresses && n(x) != wanted
  {
    if addresses != [] {
      OthersUse(n, Most(addresses), wanted);
      assert addresses == Most(addresses) + [Last(addresses)];
    }
  }

  lemma {:induction false} FewerAddresses(n: string -> string, a: Account, rest: seq<string>, w: string)
    requires (forall x :: x in rest ==> x in a.addresses) && Uses(n, a.(addresses := rest), w)
    ensures Uses(n, a, w)
  {
    var k :| 0 <= k < |rest| && n(rest[k]) == w;
    assert rest[k] in a.addresses;
  }

  lemma {:induction false} RemoveAddressKeeps(rules: Rules, statics: seq<Account>, accounts: seq<Account>, name: string, raw: string)
    requires Separate(rules.normalize, statics + accounts) && AddressRemoved(rules, accounts, name, raw).Ok?
    ensures Separate(rules.normalize, statics + AddressRemoved(rules, accounts, name, raw).value)
  {
    var n, all := rules.normalize, statics + accounts;
    var slot := Find(accounts, name).value;
    var k := |statics| + slot;
    var rest := Others(n, accounts[slot].addresses, n(raw));
    var made := accounts[slot].(addresses := rest);
    OthersUse(n, accounts[slot].addresses, n(raw));
    assert all[k] == accounts[slot];
    forall i | 0 <= i < |all| && i != k ensures Strangers(n, all[i], made) {
      assert Strangers(n, all[i], all[k]) by {
        if i > k {
          assert Strangers(n, all[k], all[i]);
        }
      }
      forall w | Uses(n, made, w) ensures Uses(n, all[k], w) {
        FewerAddresses(n, accounts[slot], rest, w);
      }
      StrangersStay(n, all[i], all[k], made);
    }
    SeparateUpdate(n, all, k, made);
    assert statics + accounts[slot := made] == all[k := made];
  }

  /** Where each remaining account stood. */
  lemma {:induction false} WithoutWhere(accounts: seq<Account>, name: string, i: nat, j: nat) returns (p: nat, q: nat)
    requires i < j < |Without(accounts, name)|
    ensures p < q < |accounts|
    ensures accounts[p] == Without(accounts, name)[i] && accounts[q] == Without(accounts, name)[j]
  {
    var front := Without(Most(accounts), name);
    if j < |front| {
      p, q := WithoutWhere(Most(accounts), name, i, j);
    } else {
      p := WithoutOne(Most(accounts), name, i);
      q := |accounts| - 1;
    }
  }

  lemma {:induction false} WithoutOne(accounts: seq<Account>, name: string, i: nat) returns (p: nat)
    requires i < |Without(accounts, name)|
    ensures p < |accounts| && accounts[p] == Without(accounts, name)[i]
  {
    var front := Without(Most(accounts), name);
    if i < |front| {
      p := WithoutOne(Most(accounts), name, i);
    } else {
      p := |accounts| - 1;
    }
  }

  lemma {:induction false} RemoveKeeps(n: string -> string, statics: seq<Account>, accounts: seq<Account>, name: string)
    requires Separate(n, statics + accounts)
    ensures Separate(n, statics + Without(accounts, name))
  {
    var all, rest := statics + accounts, Without(accounts, name);
    var all', m := statics + rest, |statics|;
    forall i, j | 0 <= i < j < |all'| ensures all'[i].name != all'[j].name && Strangers(n, all'[i], all'[j]) {
      if j < m {
        assert all'[i] == all[i] && all'[j] == all[j];
      } else if i < m {
        var q := WithoutOne(accounts, name, j - m);
        assert all'[i] == all[i] && all'[j] == all[m + q];
      } else {
        var p, q := WithoutWhere(accounts, name, i - m, j - m);
        assert all'[i] == all[m + p] && all'[j] == all[m + q];
      }
    }
  }

  lemma {:induction false} StoredHolds(n: string -> string, values: seq<string>, w: string)
    ensures w in Stored(n, values) <==> exists k :: 0 <= k < |values| && n(values[k]) == w
  {
    if values != [] {
      StoredHolds(n, Most(values), w);
      assert Most(values) == values[..|values| - 1] && Last(values) == values[|values| - 1];
      if k :| 0 <= k < |values| && n(values[k]) == w {
        assert k < |values| - 1 ==> Most(values)[k] == values[k];
      }
    }
  }

  /** No other account uses the stored form of one of the addresses. */
  predicate Unclaimed(rules: Rules, statics: seq<Account>, accounts: seq<Account>, slot: nat, addresses: seq<string>) {
    forall k :: 0 <= k < |addresses| ==> !Known(rules, statics, accounts, slot, rules.normalize(addresses[k]))
  }

  lemma {:induction false} UnclaimedAreStrangers(rules: Rules, statics: seq<Account>, accounts: seq<Account>, slot: nat, made: Account, i: nat)
    requires slot < |accounts| && i < |statics + accounts| && i != |statics| + slot
    requires Unclaimed(rules, statics, accounts, slot, made.addresses)
    ensures Strangers(rules.normalize, (statics + accounts)[i], made)
  {
    var n, a := rules.normalize, (statics + accounts)[i];
    forall w ensures !(Uses(n, a, w) && Uses(n, made, w)) {
      if Uses(n, made, w) {
        var k :| 0 <= k < |made.addresses| && n(made.addresses[k]) == w;
        assert !Known(rules, statics, accounts, slot, w);
        if i < |statics| {
          assert a == statics[i];
        } else {
          assert a == accounts[i - |statics|];
        }
      }
    }
  }

  lemma {:induction false} ClaimedIsShared(rules: Rules, statics: seq<Account>, accounts: seq<Account>, slot: nat, made: Account)
    requires slot < |accounts| && !Unclaimed(rules, statics, accounts, slot, made.addresses)
    ensures !Separate(rules.normalize, statics + accounts[slot := made])
  {
    var n, after := rules.normalize, statics + accounts[slot := made];
    var k :| 0 <= k < |made.addresses| && Known(rules, statics, accounts, slot, n(made.addresses[k]));
    var w, m := n(made.addresses[k]), |statics| + slot;
    assert after[m] == made && Uses(n, made, w);
    if i :| 0 <= i < |statics| && Uses(n, statics[i], w) {
      assert after[i] == statics[i] && !Strangers(n, after[i], after[m]);
    } else {
      var i :| 0 <= i < |accounts| && i != slot && Uses(n, accounts[i], w);
      var p := |statics| + i;
      assert after[p] == accounts[i];
      assert !Strangers(n, after[Min(p, m)], after[Max(p, m)]);
    }
  }

  /** A replacement that goes through keeps addresses disjoint exactly when nobody else uses the stored form of what it stored. */
  lemma {:induction false} ReplaceKeepsExactlyWhen(rules: Rules, statics: seq<Account>, accounts: seq<Account>, name: string, replacement: Account)
    requires Separate(rules.normalize, statics + accounts) && Replaced(rules, statics, accounts, name, replacement).Ok?
    ensures Separate(rules.normalize, statics + Replaced(rules, statics, accounts, name, replacement).value)
       <==> Unclaimed(rules, statics, accounts, Find(accounts, name).value, Stored(rules.normalize, replacement.addresses))
  {
    var n, all := rules.normalize, statics + accounts;
    var slot := Find(accounts, name).value;
    var k := |statics| + slot;
    var made := Account(name, Stored(n, replacement.addresses));
    assert all[k] == accounts[slot];
    if Unclaimed(rules, statics, accounts, slot, made.addresses) {
      forall i | 0 <= i < |all| && i != k ensures Strangers(n, all[i], made) {
        UnclaimedAreStrangers(rules, statics, accounts, slot, made, i);
      }
      SeparateUpdate(n, all, k, made);
      assert statics + accounts[slot := made] == all[k := made];
    } else {
      ClaimedIsShared(rules, statics, accounts, slot, made);
    }
  }

  /** It does when each new address's stored form is its own. */
  lemma {:induction false} ReplaceKeeps(rules: Rules, statics: seq<Account>, accounts: seq<Account>, name: string, replacement: Account)
    requires Own(rules.normalize, replacement.addresses)
    requires Separate(rules.normalize, statics + accounts) && Replaced(rules, statics, accounts, name, replacement).Ok?
    ensures Separate(rules.normalize, statics + Replaced(rules, statics, accounts, name, replacement).value)
  {
    var n, stored := rules.normalize, Stored(rules.normalize, replacement.addresses);
    var slot := Find(accounts, name).value;
    forall k | 0 <= k < |stored| ensures !Known(rules, statics, accounts, slot, n(stored[k])) {
      StoredHolds(n, replacement.addresses, stored[k]);
      assert n(stored[k]) == stored[k];
    }
    ReplaceKeepsExactlyWhen(rules, statics, accounts, name, replacement);
  }

  /** Addresses put in stored form once beforehand have a stored form that is its own. */
  lemma {:induction false} NormalizedBeforehand(n: string -> string, raws: seq<string>, addresses: seq<string>)
    requires SettlesTwice(n) && |addresses| == |raws| && forall k :: 0 <= k < |raws| ==> addresses[k] == n(raws[k])
    ensures Own(n, addresses)
  {
    forall k | 0 <= k < |addresses| ensures n(n(addresses[k])) == n(addresses[k]) {
      assert n(n(n(raws[k]))) == n(n(raws[k]));
    }
  }

  /** An edit that is not a replacement, or one with addresses whose stored form is its own. */
  predicate Careful(n: string -> string, e: Edit) {
    e.Replace? ==> Own(n, e.account.addresses)
  }

  /** An edit that goes through keeps names unique and addresses disjoint, unless it is a replacement that claims an address in use. */
  lemma {:induction false} EditKeepsExactlyWhen(rules: Rules, statics: seq<Account>, accounts: seq<Account>, e: Edit)
    requires Separate(rules.normalize, statics + accounts) && Outcome(rules, statics, accounts, e).Ok?
    ensures Separate(rules.normalize, statics + Outcome(rules, statics, accounts, e).value)
       <==> (e.Replace? ==>
               Unclaimed(rules, statics, accounts, Find(accounts, e.name).value, Stored(rules.normalize, e.account.addresses)))
  {
    match e
    case Add(account) => AddKeeps(rules, statics, accounts, account);
    case AddAddress(name, raw) => AddAddressKeeps(rules, statics, accounts, name, raw);
    case RemoveAddress(name, raw) => RemoveAddressKeeps(rules, statics, accounts, name, raw);
    case Remove(name) => RemoveKeeps(rules.normalize, statics, accounts, name);
    case Replace(name, account) => ReplaceKeepsExactlyWhen(rules, statics, accounts, name, account);
  }

  lemma {:induction false} EditKeeps(rules: Rules, statics: seq<Account>, accounts: seq<Account>, e: Edit)
    requires Careful(rules.normalize, e) && Separate(rules.normalize, statics + accounts)
    requires Outcome(rules, statics, accounts, e).Ok?
    ensures Separate(rules.normalize, statics + Outcome(rules, statics, accounts, e).value)
  {
    if e.Replace? {
      ReplaceKeeps(rules, statics, accounts, e.name, e.account);
    } else {
      EditKeepsExactlyWhen(rules, statics, accounts, e);
    }
  }

  /** Every run of such edits keeps names unique and addresses disjoint, across static and dynamic accounts. */
  lemma {:induction false} RunKeepsSeparate(rules: Rules, statics: seq<Account>, accounts: seq<Account>, es: seq<Edit>)
    requires Separate(rules.normalize, statics + accounts) && forall e :: e in es ==> Careful(rules.normalize, e)
    ensures Separate(rules.normalize, statics + Run(rules, statics, accounts, es))
  {
    if es != [] {
      RunKeepsSeparate(rules, statics, accounts, Most(es));
      var before := Run(rules, statics, accounts, Most(es));
      if Outcome(rules, statics, before, Last(es)).Ok? {
        EditKeeps(rules, statics, before, Last(es));
      }
    }
  }

  // ----- A replacement that takes an address in use -----

  /** Two accounts. */
  function AliceAndBob(hers: string, his: string): seq<Account> {
    [Account("alice", [hers]), Account("bob", [his])]
  }

  /** Apart exactly when their stored forms differ. */
  lemma {:induction false} TwoApart(n: string -> string, hers: string, his: string)
    ensures Separate(n, [] + AliceAndBob(hers, his)) <==> n(hers) != n(his)
  {
    var all := [] + AliceAndBob(hers, his);
    assert all == AliceAndBob(hers, his) && "alice" != "bob";
    assert Uses(n, all[0], n(hers)) by { assert all[0].addresses[0] == hers; }
    assert Uses(n, all[1], n(his)) by { assert all[1].addresses[0] == his; }
    if n(hers) != n(his) {
      assert Strangers(n, all[0], all[1]);
    } else {
      assert !Strangers(n, all[0], all[1]);
    }
  }

  lemma {:induction false} OneStored(n: string -> string, value: string)
    ensures Stored(n, [value]) == [n(value)]
  {
    assert Most([value]) == [];
  }

  /** Whatever address settles only at the second application: another account can be given it while its owner keeps it. */
  lemma {:induction false} ReplacementTakesAnAddress(rules: Rules, spelled: string, other: string)
    requires var n := rules.normalize;
             n(n(spelled)) != n(spelled) && n(n(n(spelled))) == n(n(spelled)) && n(other) != n(n(spelled))
    ensures var n, hers := rules.normalize, rules.normalize(rules.normalize(spelled));
            var outcome := Replaced(rules, [], AliceAndBob(hers, other), "bob", Account("bob", [spelled]));
            && Separate(n, [] + AliceAndBob(hers, other))
            && outcome == Ok(AliceAndBob(hers, n(spelled))) && !Separate(n, [] + outcome.value)
  {
    var n, hers := rules.normalize, rules.normalize(rules.normalize(spelled));
    var accounts := AliceAndBob(hers, other);
    assert n(hers) == hers;
    TwoApart(n, hers, other);
    TwoApart(n, hers, n(spelled));
    OneStored(n, spelled);
    assert "alice" != "bob" && accounts[1..] == [Account("bob", [other])];
    assert Find(accounts, "bob") == Some(1);
    NotKnown(rules, accounts, n(spelled));
    assert accounts[1 := Account("bob", [n(spelled)])] == AliceAndBob(hers, n(spelled));
  }

  lemma {:induction false} NotKnown(rules: Rules, accounts: seq<Account>, stored: string)
    requires |accounts| == 2 && |accounts[0].addresses| == 1 && rules.normalize(accounts[0].addresses[0]) != stored
    ensures !Known(rules, [], accounts, 1, stored)
  {
  }

  /** Such as an address of a domain that is accepted late. */
  lemma {:induction false} CyrillicAddressIsTaken(rules: Rules, other: string)
    requires forall s :: rules.normalize(s) == Addresses.StoredAddress(Addresses.CYRILLIC, s)
    requires rules.normalize(other) != "x@" + Addresses.ASCII
    ensures var accounts := AliceAndBob("x@" + Addresses.ASCII, other);
            var outcome := Replaced(rules, [], accounts, "bob", Account("bob", ["x@" + Addresses.CAPITALS]));
            Separate(rules.normalize, [] + accounts) && outcome.Ok? && !Separate(rules.normalize, [] + outcome.value)
  {
    Addresses.ThreeSpellings();
    ThirdSpellingIsTaken(rules, "x@" + Addresses.CAPITALS, "x@" + Addresses.SMALL, "x@" + Addresses.ASCII, other);
  }

  lemma {:induction false} ThirdSpellingIsTaken(rules: Rules, first: string, second: string, third: string, other: string)
    requires rules.normalize(first) == second && rules.normalize(second) == third && rules.normalize(third) == third
    requires second != third && rules.normalize(other) != third
    ensures var outcome := Replaced(rules, [], AliceAndBob(third, other), "bob", Account("bob", [first]));
            Separate(rules.normalize, [] + AliceAndBob(third, other)) && outcome.Ok? && !Separate(rules.normalize, [] + outcome.value)
  {
    ReplacementTakesAnAddress(rules, first, other);
  }

  // ----- The routing table -----

  type Pair = (string, string)

  function PairsOf(a: Account): (r: seq<Pair>)
    ensures |r| == |a.addresses|
  {
    seq(|a.addresses|, k requires 0 <= k < |a.addresses| => (a.addresses[k], a.name))
  }

  /** Every address with its account, in order. */
  function Pairs(accounts: seq<Account>): seq<Pair> {
    if accounts == [] then [] else Pairs(Most(accounts)) + PairsOf(Last(accounts))
  }

  /** Only the first claim of each address in its stored form. */
  function FirstClaims(n: string -> string, pairs: seq<Pair>): seq<Pair> {
    if pairs == [] then []
    else
      var front := FirstClaims(n, Most(pairs));
      if n(Last(pairs).0) in Seen(n, Most(pairs)) then front else front + [Last(pairs)]
  }

  function Seen(n: string -> string, pairs: seq<Pair>): set<string> {
    set p | p in pairs :: n(p.0)
  }

  /** The directory's map: the last writer of an address wins. */
  function Table(n: string -> string, pairs: seq<Pair>): map<string, string> {
    if pairs == [] then map[] else Table(n, Most(pairs))[n(Last(pairs).0) := Last(pairs).1]
  }

  /** LDAP rows, then SQL rows, then the first claims of static and dynamic accounts. */
  function Routes(n: string -> string, ldap: seq<Account>, sql: seq<Account>, statics: seq<Account>, accounts: seq<Account>): map<string, string> {
    Table(n, Pairs(ldap) + Pairs(sql) + FirstClaims(n, Pairs(statics + accounts)))
  }

  /** Who claims an address first. */
  function FirstWriter(n: string -> string, pairs: seq<Pair>, w: string): Option<string> {
    if pairs == [] then None
    else match FirstWriter(n, Most(pairs), w)
      case Some(name) => Some(name)
      case None => if n(Last(pairs).0) == w then Some(Last(pairs).1) else None
  }

  lemma {:induction false} SeenIsWritten(n: string -> string, pairs: seq<Pair>, w: string)
    ensures w in Seen(n, pairs) <==> FirstWriter(n, pairs, w).Some?
  {
    if pairs != [] {
      SeenIsWritten(n, Most(pairs), w);
      assert pairs == Most(pairs) + [Last(pairs)];
      assert Seen(n, pairs) == Seen(n, Most(pairs)) + {n(Last(pairs).0)} by {
        assert Last(pairs) in pairs;
        assert forall p :: p in Most(pairs) ==> p in pairs;
      }
    }
  }

  lemma {:induction false} TableAppends(n: string -> string, a: seq<Pair>, b: seq<Pair>)
    ensures Table(n, a + b) == Table(n, a) + Table(n, b)
    decreases |b|
  {
    if b == [] {
      assert a + b == a;
    } else {
      assert Most(a + b) == a + Most(b) && Last(a + b) == Last(b);
      TableAppends(n, a, Most(b));
    }
  }

  /** With later claims dropped, the last writer is the first. */
  lemma {:induction false} FirstClaimsTable(n: string -> string, pairs: seq<Pair>, w: string)
    ensures w in Table(n, FirstClaims(n, pairs)) <==> FirstWriter(n, pairs, w).Some?
    ensures FirstWriter(n, pairs, w).Some? ==> Table(n, FirstClaims(n, pairs))[w] == FirstWriter(n, pairs, w).value
  {
    if pairs != [] {
      FirstClaimsTable(n, Most(pairs), w);
      var front, last := FirstClaims(n, Most(pairs)), Last(pairs);
      SeenIsWritten(n, Most(pairs), n(last.0));
      if n(last.0) !in Seen(n, Most(pairs)) {
        assert Most(front + [last]) == front;
      }
    }
  }

  lemma {:induction false} WriterAppends(n: string -> string, a: seq<Pair>, b: seq<Pair>, w: string)
    ensures FirstWriter(n, a + b, w) == if FirstWriter(n, a, w).Some? then FirstWriter(n, a, w) else FirstWriter(n, b, w)
    decreases |b|
  {
    if b == [] {
      assert a + b == a;
    } else {
      assert Most(a + b) == a + Most(b) && Last(a + b) == Last(b);
      WriterAppends(n, a, Most(b), w);
    }
  }

  lemma {:induction false} WriterOf(n: string -> string, a: Account, w: string)
    ensures FirstWriter(n, PairsOf(a), w) == if Uses(n, a, w) then Some(a.name) else None
    decreases |a.addresses|
  {
    if a.addresses != [] {
      var most := a.(addresses := Most(a.addresses));
      WriterOf(n, most, w);
      assert Most(PairsOf(a)) == PairsOf(most);
      assert forall k :: 0 <= k < |most.addresses| ==> most.addresses[k] == a.addresses[k];
      assert Last(a.addresses) == a.addresses[|a.addresses| - 1];
    }
  }

  /** The first account that uses an address claims it. */
  lemma {:induction false} OwnerClaims(n: string -> string, all: seq<Account>, i: nat, w: string)
    requires Separate(n, all) && i < |all| && Uses(n, all[i], w)
    ensures FirstWriter(n, Pairs(all), w) == Some(all[i].name)
  {
    var last := |all| - 1;
    WriterAppends(n, Pairs(Most(all)), PairsOf(Last(all)), w);
    WriterOf(n, Last(all), w);
    if i < last {
      OwnerClaims(n, Most(all), i, w);
    } else {
      NobodyClaims(n, Most(all), Last(all), w);
    }
  }

  lemma {:induction false} NobodyClaims(n: string -> string, all: seq<Account>, a: Account, w: string)
    requires Uses(n, a, w) && forall j :: 0 <= j < |all| ==> Strangers(n, all[j], a)
    ensures FirstWriter(n, Pairs(all), w) == None
  {
    if all != [] {
      NobodyClaims(n, Most(all), a, w);
      WriterAppends(n, Pairs(Most(all)), PairsOf(Last(all)), w);
      WriterOf(n, Last(all), w);
      assert Strangers(n, all[|all| - 1], a);
    }
  }

  /** Where addresses are disjoint, each routes to its one owner, whatever SQL and LDAP rows claim. */
  lemma {:induction false} RoutesToOwner(n: string -> string, ldap: seq<Account>, sql: seq<Account>,
                                         statics: seq<Account>, accounts: seq<Account>, i: nat, w: string)
    requires Separate(n, statics + accounts) && i < |statics + accounts| && Uses(n, (statics + accounts)[i], w)
    ensures w in Routes(n, ldap, sql, statics, accounts)
    ensures Routes(n, ldap, sql, statics, accounts)[w] == (statics + accounts)[i].name
  {
    var all := statics + accounts;
    OwnerClaims(n, all, i, w);
    FirstClaimsTable(n, Pairs(all), w);
    TableAppends(n, Pairs(ldap) + Pairs(sql), FirstClaims(n, Pairs(all)));
  }

  /** The whole promise: after any run of careful edits every address of every account routes to that account. */
  lemma {:induction false} RunRoutesToOwner(rules: Rules, ldap: seq<Account>, sql: seq<Account>, statics: seq<Account>,
                                            accounts: seq<Account>, es: seq<Edit>, i: nat, k: nat)
    requires Separate(rules.normalize, statics + accounts) && forall e :: e in es ==> Careful(rules.normalize, e)
    requires i < |statics + Run(rules, statics, accounts, es)|
    requires k < |(statics + Run(rules, statics, accounts, es))[i].addresses|
    ensures var all := statics + Run(rules, statics, accounts, es);
            var w := rules.normalize(all[i].addresses[k]);
            var routes := Routes(rules.normalize, ldap, sql, statics, Run(rules, statics, accounts, es));
            w in routes && routes[w] == all[i].name
  {
    var after := Run(rules, statics, accounts, es);
    RunKeepsSeparate(rules, statics, accounts, es);
    RoutesToOwner(rules.normalize, ldap, sql, statics, after, i, rules.normalize((statics + after)[i].addresses[k]));
  }

  // ----- The store -----

  class AccountStore {
    const rules: Rules
    const statics: seq<Account>
    /** The rows an LDAP and an SQL directory gave. */
    const ldap: seq<Account>
    const sql: seq<Account>
    var dynamic: seq<Account>
    var directory: map<string, string>

    constructor (rules: Rules, statics: seq<Account>, ldap: seq<Account>, sql: seq<Account>, dynamic: seq<Account>)
      ensures this.rules == rules && this.statics == statics && this.ldap == ldap && this.sql == sql
      ensures this.dynamic == dynamic && Current()
    {
      this.rules := rules;
      this.statics := statics;
      this.ldap := ldap;
      this.sql := sql;
      this.dynamic := dynamic;
      directory := Routes(rules.normalize, ldap, sql, statics, dynamic);
    }

    /** The directory is built from the accounts held. */
    predicate Current()
      reads this
    {
      directory == Routes(rules.normalize, ldap, sql, statics, dynamic)
    }

    /** The state after an edit, for one that was refused too. */
    ghost predicate Became(before: seq<Account>, outcome: Result<seq<Account>, Error>, error: Option<Error>)
      reads this
    {
      && Current()
      && (outcome.Ok? ==> error.None? && dynamic == outcome.value)
      && (outcome.Err? ==> error == Some(outcome.error) && dynamic == before)
    }

    /** Replaces the accounts held and rebuilds the directory. */
    method Refresh(accounts: seq<Account>)
      modifies this
      ensures dynamic == accounts && Current()
    {
      dynamic := accounts;
      var claims := ClaimOnce(rules.normalize, Pairs(statics + dynamic));
      directory := Table(rules.normalize, Pairs(ldap) + Pairs(sql) + claims);
    }

    method AddAccount(account: Account) returns (error: Option<Error>)
      requires Current()
      modifies this
      ensures Became(old(dynamic), Added(rules, statics, old(dynamic), account), error)
    {
      var made := Account(rules.nameForm(account.name), Stored(rules.normalize, account.addresses));
      if !rules.nameOk(made.name) || made.addresses == [] {
        return Some(Invalid);
      }
      for k := 0 to |made.addresses|
        invariant forall j :: 0 <= j < k ==> rules.addressOk(made.addresses[j])
        invariant dynamic == old(dynamic) && directory == old(directory)
      {
        if !rules.addressOk(made.addresses[k]) {
          return Some(Invalid);
        }
      }
      if NameTaken(statics, dynamic, made.name) {
        return Some(Duplicate);
      }
      for k := 0 to |made.addresses|
        invariant forall j :: 0 <= j < k ==> !AddressTaken(rules, statics, dynamic, None, made.addresses[j])
        invariant dynamic == old(dynamic) && directory == old(directory)
      {
        if AddressTaken(rules, statics, dynamic, None, made.addresses[k]) {
          return Some(Duplicate);
        }
      }
      Refresh(dynamic + [made]);
      error := None;
    }

    method AddAddressTo(name: string, raw: string) returns (error: Option<Error>)
      requires Current()
      modifies this
      ensures Became(old(dynamic), AddressAdded(rules, statics, old(dynamic), name, raw), error)
    {
      var address := rules.normalize(raw);
      if !rules.addressOk(address) {
        return Some(Invalid);
      }
      var slot := Find(dynamic, name);
      if slot.None? {
        return Some(NotFound);
      }
      var target := dynamic[slot.value];
      if Uses(rules.normalize, target, address) || AddressTaken(rules, statics, dynamic, Some(name), address) {
        return Some(Duplicate);
      }
      Refresh(dynamic[slot.value := target.(addresses := target.addresses + [address])]);
      error := None;
    }

    method RemoveAddressFrom(name: string, raw: string) returns (error: Option<Error>)
      requires Current()
      modifies this
      ensures Became(old(dynamic), AddressRemoved(rules, old(dynamic), name, raw), error)
    {
      var slot := Find(dynamic, name);
      if slot.None? {
        return Some(NotFound);
      }
      var target := dynamic[slot.value];
      var rest := Others(rules.normalize, target.addresses, rules.normalize(raw));
      if rest == target.addresses || rest == [] {
        return Some(Invalid);
      }
      Refresh(dynamic[slot.value := target.(addresses := rest)]);
      error := None;
    }

    method RemoveAccount(name: string) returns (error: Option<Error>)
      requires Current()
      modifies this
      ensures Became(old(dynamic), Removed(old(dynamic), name), error)
    {
      var rest := Without(dynamic, name);
      if |rest| == |dynamic| {
        return Some(NotFound);
      }
      Refresh(rest);
      error := None;
    }

    method ReplaceAccount(name: string, replacement: Account) returns (error: Option<Error>)
      requires Current()
      modifies this
      ensures Became(old(dynamic), Replaced(rules, statics, old(dynamic), name, replacement), error)
    {
      var slot := Find(dynamic, name);
      if slot.None? {
        return Some(NotFound);
      }
      var made := Account(name, Stored(rules.normalize, replacement.addresses));
      for k := 0 to |made.addresses|
        invariant forall j :: 0 <= j < k ==> !Known(rules, statics, dynamic, slot.value, made.addresses[j])
        invariant dynamic == old(dynamic) && directory == old(directory)
      {
        if Known(rules, statics, dynamic, slot.value, made.addresses[k]) {
          return Some(Duplicate);
        }
      }
      Refresh(dynamic[slot.value := made]);
      error := None;
    }
  }

  /** Keeps the first claim of each address, remembering the stored forms seen. */
  method ClaimOnce(n: string -> string, pairs: seq<Pair>) returns (claims: seq<Pair>)
    ensures claims == FirstClaims(n, pairs)
  {
    claims := [];
    var seen: set<string> := {};
    for i := 0 to |pairs|
      invariant claims == FirstClaims(n, pairs[..i]) && seen == Seen(n, pairs[..i])
    {
      assert Most(pairs[..i + 1]) == pairs[..i] && Last(pairs[..i + 1]) == pairs[i];
      SeenOneMore(n, pairs[..i], pairs[i]);
      assert pairs[..i + 1] == pairs[..i] + [pairs[i]];
      var stored := n(pairs[i].0);
      if stored !in seen {
        claims := claims + [pairs[i]];
      }
      seen := seen + {stored};
    }
    assert pairs[..|pairs|] == pairs;
  }

  lemma {:induction false} SeenOneMore(n: string -> string, pairs: seq<Pair>, p: Pair)
    ensures Seen(n, pairs + [p]) == Seen(n, pairs) + {n(p.0)}
  {
    assert p in pairs + [p];
    assert forall q :: q in pairs ==> q in pairs + [p];
  }
}
