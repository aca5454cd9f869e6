/**
 * What each edit of the account store does and when it is refused: which
 * accounts are there afterwards, with which addresses, and what the directory
 * answers for an address, stated over the accounts themselves.
 */
module AccountEdits {
  import opened Basics
  import opened Accounts

  // ----- The stored forms of a list -----

  function Forms(n: string -> string, values: seq<string>): (r: seq<string>)
    ensures |r| == |values| && forall k :: 0 <= k < |r| ==> r[k] == n(values[k])
  {
    seq(|values|, k requires 0 <= k < |values| => n(values[k]))
  }

  /** Each stored form once, where it first comes up. */
  lemma {:induction false} StoredExactly(n: string -> string, values: seq<string>)
    ensures Firsts(Forms(n, values), Stored(n, values), {})
    ensures NoDuplicates(Stored(n, values))
    ensures forall x :: x in Stored(n, values) <==> exists k :: 0 <= k < |values| && n(values[k]) == x
  {
    StoredFirsts(n, values);
    forall x ensures x in Stored(n, values) <==> exists k :: 0 <= k < |values| && n(values[k]) == x {
      StoredHolds(n, values, x);
    }
    FirstsMembers(Forms(n, values), Stored(n, values), {}, "");
  }

  lemma {:induction false} StoredFirsts(n: string -> string, values: seq<string>)
    ensures Firsts(Forms(n, values), Stored(n, values), {})
  {
    if values != [] {
      StoredFirsts(n, Most(values));
      FirstsBehind(Forms(n, Most(values)), Stored(n, Most(values)), {}, n(Last(values)));
      assert Forms(n, values) == Forms(n, Most(values)) + [n(Last(values))];
      assert Stored(n, Most(values)) + [] == Stored(n, Most(values));
    }
  }

  // ----- Who is there -----

  /** Some account with the name. */
  ghost predicate Exists(accounts: seq<Account>, name: string) {
    exists i :: 0 <= i < |accounts| && accounts[i].name == name
  }

  /** Some account's address has the stored form `w`. */
  ghost predicate Used(n: string -> string, accounts: seq<Account>, w: string) {
    exists i, k :: 0 <= i < |accounts| && 0 <= k < |accounts[i].addresses| && n(accounts[i].addresses[k]) == w
  }

  lemma {:induction false} UsedMeans(n: string -> string, accounts: seq<Account>, w: string)
    ensures Used(n, accounts, w) <==> exists i :: 0 <= i < |accounts| && Uses(n, accounts[i], w)
  {
    if i :| 0 <= i < |accounts| && Uses(n, accounts[i], w) {
      var k :| 0 <= k < |accounts[i].addresses| && n(accounts[i].addresses[k]) == w;
      assert Used(n, accounts, w);
    }
  }

  /** The accounts of other names, in order. */
  lemma {:induction false} WithoutExactly(accounts: seq<Account>, name: string)
    ensures Sifted(accounts, Without(accounts, name), (a: Account) => a.name != name)
    ensures forall a :: a in Without(accounts, name) <==> a in accounts && a.name != name
  {
    var passes := (a: Account) => a.name != name;
    WithoutSifted(accounts, name, passes);
    forall a ensures a in Without(accounts, name) <==> a in accounts && a.name != name {
      SiftedMembers(accounts, Without(accounts, name), passes, a);
    }
  }

  lemma {:induction false} WithoutSifted(accounts: seq<Account>, name: string, passes: Account -> bool)
    requires forall a :: passes(a) <==> a.name != name
    ensures Sifted(accounts, Without(accounts, name), passes)
  {
    if accounts != [] {
      WithoutSifted(Most(accounts), name, passes);
      SiftedBehind(Most(accounts), Without(Most(accounts), name), passes, Last(accounts));
      assert accounts == Most(accounts) + [Last(accounts)];
      assert Without(Most(accounts), name) + [] == Without(Most(accounts), name);
    }
  }

  /** The first account with a name is the one found. */
  lemma {:induction false} FindsTheFirst(accounts: seq<Account>, name: string)
    ensures Find(accounts, name).Some? <==> Exists(accounts, name)
    ensures Find(accounts, name).Some? ==> forall i :: 0 <= i < Find(accounts, name).value ==> accounts[i].name != name
  {
    if accounts != [] && accounts[0].name != name {
      FindsTheFirst(accounts[1..], name);
      assert forall i :: 0 < i < |accounts| ==> accounts[i] == accounts[1..][i - 1];
    }
  }

  // ----- Remove -----

  /** An account is removed with all of its name and nothing else, or there is none. */
  lemma {:induction false} RemoveExactly(accounts: seq<Account>, name: string)
    ensures Removed(accounts, name) == if Exists(accounts, name) then Ok(Without(accounts, name)) else Err(NotFound)
    ensures Sifted(accounts, Without(accounts, name), (a: Account) => a.name != name)
  {
    WithoutExactly(accounts, name);
    WithoutLength(accounts, name);
  }

  lemma {:induction false} WithoutLength(accounts: seq<Account>, name: string)
    ensures |Without(accounts, name)| <= |accounts|
    ensures |Without(accounts, name)| == |accounts| <==> !Exists(accounts, name)
  {
    if accounts != [] {
      var most := Most(accounts);
      WithoutLength(most, name);
      assert Last(accounts) == accounts[|accounts| - 1];
      if Exists(most, name) {
        var i :| 0 <= i < |most| && most[i].name == name;
        assert accounts[i].name == name;
      }
      if Exists(accounts, name) && Last(accounts).name != name {
        var i :| 0 <= i < |accounts| && accounts[i].name == name;
        assert most[i].name == name;
      }
    }
  }

  // ----- Add -----

  /** Somebody else routes the stored form `w`: an account, an alias or a masked address. */
  ghost predicate Claimed(rules: Rules, accounts: seq<Account>, w: string) {
    || Used(rules.normalize, accounts, w)
    || (exists i :: 0 <= i < |rules.aliases| && rules.normalize(rules.aliases[i]) == w)
    || w in rules.masked
  }

  lemma {:induction false} TakenMeans(rules: Rules, statics: seq<Account>, accounts: seq<Account>, raw: string)
    ensures AddressTaken(rules, statics, accounts, None, raw) <==> Claimed(rules, statics + accounts, rules.normalize(raw))
  {
    var n, w := rules.normalize, rules.normalize(raw);
    var all := statics + accounts;
    UsedMeans(n, all, w);
    if i :| 0 <= i < |statics| && Uses(n, statics[i], w) {
      assert all[i] == statics[i];
    }
    if i :| 0 <= i < |accounts| && Uses(n, accounts[i], w) {
      assert all[|statics| + i] == accounts[i];
      assert Some(accounts[i].name) != None;
    }
    if i :| 0 <= i < |all| && Uses(n, all[i], w) {
      assert all[i] == if i < |statics| then statics[i] else accounts[i - |statics|];
    }
  }

  /** A new account is refused as invalid for its name or its addresses. */
  ghost predicate BadAccount(rules: Rules, account: Account) {
    || !rules.nameOk(rules.nameForm(account.name))
    || account.addresses == []
    || exists k :: 0 <= k < |account.addresses| && !rules.addressOk(rules.normalize(account.addresses[k]))
  }

  /** Its name is in use, or the stored form of one of its stored addresses. */
  ghost predicate Clashes(rules: Rules, all: seq<Account>, account: Account) {
    || Exists(all, rules.nameForm(account.name))
    || exists k :: 0 <= k < |account.addresses| && Claimed(rules, all, rules.normalize(rules.normalize(account.addresses[k])))
  }

  lemma {:induction false} NameTakenMeans(statics: seq<Account>, accounts: seq<Account>, name: string)
    ensures NameTaken(statics, accounts, name) <==> Exists(statics + accounts, name)
  {
    var all := statics + accounts;
    if i :| 0 <= i < |statics| && statics[i].name == name {
      assert all[i] == statics[i];
    }
    if i :| 0 <= i < |accounts| && accounts[i].name == name {
      assert all[|statics| + i] == accounts[i];
    }
    if i :| 0 <= i < |all| && all[i].name == name {
      assert all[i] == if i < |statics| then statics[i] else accounts[i - |statics|];
    }
  }

  /** An account is added behind the others with its name and addresses in stored form, or refused, exactly when said. */
  lemma {:induction false} AddExactly(rules: Rules, statics: seq<Account>, accounts: seq<Account>, account: Account)
    ensures var outcome := Added(rules, statics, accounts, account);
            && (outcome == Err(Invalid) <==> BadAccount(rules, account))
            && (outcome == Err(Duplicate) <==> !BadAccount(rules, account) && Clashes(rules, statics + accounts, account))
            && (outcome.Ok? <==> !BadAccount(rules, account) && !Clashes(rules, statics + accounts, account))
            && (outcome.Ok? ==>
                 && |outcome.value| == |accounts| + 1 && outcome.value[..|accounts|] == accounts
                 && outcome.value[|accounts|].name == rules.nameForm(account.name)
                 && Firsts(Forms(rules.normalize, account.addresses), outcome.value[|accounts|].addresses, {}))
  {
    var n := rules.normalize;
    var made := Account(rules.nameForm(account.name), Stored(n, account.addresses));
    StoredExactly(n, account.addresses);
    NameTakenMeans(statics, accounts, made.name);
    SomeStored(n, account.addresses, (x: string) => !rules.addressOk(x));
    forall x ensures AddressTaken(rules, statics, accounts, None, x) <==> Claimed(rules, statics + accounts, n(x)) {
      TakenMeans(rules, statics, accounts, x);
    }
    SomeStored(n, account.addresses, (x: string) => AddressTaken(rules, statics, accounts, None, x));
    assert made.addresses == [] <==> account.addresses == [] by {
      if account.addresses != [] {
        assert n(account.addresses[0]) in made.addresses;
      }
    }
    assert (accounts + [made])[..|accounts|] == accounts;
  }

  lemma {:induction false} SomeStored(n: string -> string, values: seq<string>, p: string -> bool)
    ensures (exists k :: 0 <= k < |Stored(n, values)| && p(Stored(n, values)[k])) <==> exists k :: 0 <= k < |values| && p(n(values[k]))
  {
    var stored := Stored(n, values);
    if k :| 0 <= k < |stored| && p(stored[k]) {
      StoredHolds(n, values, stored[k]);
    }
    if k :| 0 <= k < |values| && p(n(values[k])) {
      StoredHolds(n, values, n(values[k]));
      var j :| 0 <= j < |stored| && stored[j] == n(values[k]);
      assert p(stored[j]);
    }
  }

  // ----- One address more, one less -----

  /** Another account than the dynamic ones called `name` routes `w`. */
  ghost predicate ClaimedElsewhere(rules: Rules, statics: seq<Account>, accounts: seq<Account>, name: string, w: string) {
    Claimed(rules, statics + Without(accounts, name), w)
  }

  lemma {:induction false} TakenElsewhere(rules: Rules, statics: seq<Account>, accounts: seq<Account>, name: string, raw: string)
    ensures AddressTaken(rules, statics, accounts, Some(name), raw)
       <==> ClaimedElsewhere(rules, statics, accounts, name, rules.normalize(raw))
  {
    var n, w := rules.normalize, rules.normalize(raw);
    var rest := Without(accounts, name);
    var all := statics + rest;
    UsedMeans(n, all, w);
    WithoutExactly(accounts, name);
    if i :| 0 <= i < |statics| && Uses(n, statics[i], w) {
      assert all[i] == statics[i];
    }
    if i :| 0 <= i < |accounts| && Some(accounts[i].name) != Some(name) && Uses(n, accounts[i], w) {
      assert accounts[i] in rest;
      var j :| 0 <= j < |rest| && rest[j] == accounts[i];
      assert all[|statics| + j] == accounts[i];
    }
    if i :| 0 <= i < |all| && Uses(n, all[i], w) {
      if i < |statics| {
        assert all[i] == statics[i];
      } else {
        assert all[i] == rest[i - |statics|] && all[i] in rest;
        var j :| 0 <= j < |accounts| && accounts[j] == all[i];
      }
    }
  }

  /** One account of the list is changed, the others are as they were. */
  predicate OnlyAt(before: seq<Account>, after: seq<Account>, slot: nat) {
    && |after| == |before| && slot < |before| && after[slot].name == before[slot].name
    && forall i :: 0 <= i < |before| && i != slot ==> after[i] == before[i]
  }

  /** An address is added behind the others of the first account of the name, or refused, exactly when said. */
  lemma {:induction false} AddAddressExactly(rules: Rules, statics: seq<Account>, accounts: seq<Account>, name: string, raw: string)
    ensures var n, outcome := rules.normalize, AddressAdded(rules, statics, accounts, name, raw);
            && (outcome == Err(Invalid) <==> !rules.addressOk(n(raw)))
            && (outcome == Err(NotFound) <==> rules.addressOk(n(raw)) && !Exists(accounts, name))
            && (rules.addressOk(n(raw)) && Exists(accounts, name) ==>
                 var slot := Find(accounts, name).value;
                 && (outcome.Err? <==> n(raw) in Forms(n, accounts[slot].addresses) || ClaimedElsewhere(rules, statics, accounts, name, n(n(raw))))
                 && (outcome.Err? ==> outcome == Err(Duplicate))
                 && (outcome.Ok? ==> OnlyAt(accounts, outcome.value, slot) && outcome.value[slot].addresses == accounts[slot].addresses + [n(raw)]))
  {
    var n := rules.normalize;
    FindsTheFirst(accounts, name);
    TakenElsewhere(rules, statics, accounts, name, n(raw));
    if Find(accounts, name).Some? {
      UsesMeans(n, accounts[Find(accounts, name).value], n(raw));
    }
  }

  lemma {:induction false} UsesMeans(n: string -> string, a: Account, w: string)
    ensures Uses(n, a, w) <==> w in Forms(n, a.addresses)
  {
    if w in Forms(n, a.addresses) {
      var k :| 0 <= k < |a.addresses| && Forms(n, a.addresses)[k] == w;
      assert n(a.addresses[k]) == w;
    }
    if Uses(n, a, w) {
      var k :| 0 <= k < |a.addresses| && n(a.addresses[k]) == w;
      assert Forms(n, a.addresses)[k] == w;
    }
  }

  lemma {:induction false} OthersSifted(n: string -> string, values: seq<string>, wanted: string, passes: string -> bool)
    requires forall x :: passes(x) <==> n(x) != wanted
    ensures Sifted(values, Others(n, values, wanted), passes)
  {
    if values != [] {
      var most, last := Most(values), Last(values);
      OthersSifted(n, most, wanted, passes);
      SiftedBehind(most, Others(n, most, wanted), passes, last);
      assert values == most + [last];
      assert Others(n, most, wanted) + [] == Others(n, most, wanted);
    }
  }

  /** The part that passes is everything when all pass, and shorter when one does not; nothing when none does. */
  lemma {:induction false} SiftedSize(all: seq<string>, part: seq<string>, passes: string -> bool)
    requires Sifted(all, part, passes)
    ensures |part| <= |all| && (part == all <==> forall k :: 0 <= k < |all| ==> passes(all[k]))
    ensures part == [] <==> forall k :: 0 <= k < |all| ==> !passes(all[k])
    ensures |part| == |all| ==> part == all
  {
    if all != [] {
      assert forall k :: 0 < k < |all| ==> all[k] == all[1..][k - 1];
      if passes(all[0]) {
        SiftedSize(all[1..], part[1..], passes);
        assert part == [part[0]] + part[1..] && all == [all[0]] + all[1..];
      } else {
        SiftedSize(all[1..], part, passes);
        assert |part| < |all|;
      }
    }
  }

  lemma {:induction false} OthersExactly(n: string -> string, values: seq<string>, wanted: string, passes: string -> bool)
    requires forall x :: passes(x) <==> n(x) != wanted
    ensures Sifted(values, Others(n, values, wanted), passes)
    ensures Others(n, values, wanted) == values <==> wanted !in Forms(n, values)
    ensures Others(n, values, wanted) == [] <==> forall k :: 0 <= k < |values| ==> n(values[k]) == wanted
    ensures |Others(n, values, wanted)| <= |values|
  {
    OthersSifted(n, values, wanted, passes);
    SiftedSize(values, Others(n, values, wanted), passes);
    assert forall k :: 0 <= k < |values| ==> Forms(n, values)[k] == n(values[k]);
  }

  /** Every spelling of an address goes from the first account of the name, if it has one and another besides. */
  lemma {:induction false} RemoveAddressExactly(rules: Rules, accounts: seq<Account>, name: string, raw: string)
    ensures var n, outcome := rules.normalize, AddressRemoved(rules, accounts, name, raw);
            && (outcome == Err(NotFound) <==> !Exists(accounts, name))
            && (Exists(accounts, name) ==>
                 var slot := Find(accounts, name).value;
                 var held := accounts[slot].addresses;
                 && (outcome == Err(Invalid) <==> n(raw) !in Forms(n, held) || forall k :: 0 <= k < |held| ==> n(held[k]) == n(raw))
                 && (outcome != Err(Invalid) ==> outcome.Ok?)
                 && (outcome.Ok? ==>
                      OnlyAt(accounts, outcome.value, slot)
                      && Sifted(held, outcome.value[slot].addresses, (x: string) => n(x) != n(raw))))
  {
    var n := rules.normalize;
    FindsTheFirst(accounts, name);
    if Find(accounts, name).Some? {
      OthersExactly(n, accounts[Find(accounts, name).value].addresses, n(raw), (x: string) => n(x) != n(raw));
    }
  }

  // ----- Replace -----

  /** Another account than the one at `slot` has an address of the stored form `w`. */
  ghost predicate UsedElsewhere(n: string -> string, statics: seq<Account>, accounts: seq<Account>, slot: nat, w: string) {
    || Used(n, statics, w)
    || exists i, k :: 0 <= i < |accounts| && i != slot && 0 <= k < |accounts[i].addresses| && n(accounts[i].addresses[k]) == w
  }

  lemma {:induction false} KnownMeans(rules: Rules, statics: seq<Account>, accounts: seq<Account>, slot: nat, w: string)
    ensures Known(rules, statics, accounts, slot, w) <==> UsedElsewhere(rules.normalize, statics, accounts, slot, w)
  {
    var n := rules.normalize;
    UsedMeans(n, statics, w);
    if i :| 0 <= i < |accounts| && i != slot && Uses(n, accounts[i], w) {
      var k :| 0 <= k < |accounts[i].addresses| && n(accounts[i].addresses[k]) == w;
    }
  }

  /** The first account of the name gets exactly the addresses asked for, in stored form, unless one is in use elsewhere. */
  lemma {:induction false} ReplaceExactly(rules: Rules, statics: seq<Account>, accounts: seq<Account>, name: string, replacement: Account)
    ensures var n, outcome := rules.normalize, Replaced(rules, statics, accounts, name, replacement);
            && (outcome == Err(NotFound) <==> !Exists(accounts, name))
            && (Exists(accounts, name) ==>
                 var slot := Find(accounts, name).value;
                 && (outcome == Err(Duplicate) <==>
                      exists k :: 0 <= k < |replacement.addresses| && UsedElsewhere(n, statics, accounts, slot, n(replacement.addresses[k])))
                 && (outcome != Err(Duplicate) ==> outcome.Ok?)
                 && (outcome.Ok? ==>
                      OnlyAt(accounts, outcome.value, slot)
                      && Firsts(Forms(n, replacement.addresses), outcome.value[slot].addresses, {})))
  {
    var n := rules.normalize;
    FindsTheFirst(accounts, name);
    StoredExactly(n, replacement.addresses);
    if Find(accounts, name).Some? {
      var slot := Find(accounts, name).value;
      forall w ensures Known(rules, statics, accounts, slot, w) <==> UsedElsewhere(n, statics, accounts, slot, w) {
        KnownMeans(rules, statics, accounts, slot, w);
      }
      SomeStored(n, replacement.addresses, (w: string) => Known(rules, statics, accounts, slot, w));
    }
  }

  // ----- Every edit -----

  function NameOf(rules: Rules, e: Edit): string {
    match e
    case Add(account) => rules.nameForm(account.name)
    case AddAddress(name, _) => name
    case RemoveAddress(name, _) => name
    case Remove(name) => name
    case Replace(name, _) => name
  }

  lemma {:induction false} OnlyAtKeepsOthers(before: seq<Account>, after: seq<Account>, slot: nat, name: string)
    requires OnlyAt(before, after, slot) && before[slot].name == name
    ensures Without(after, name) == Without(before, name)
  {
    var b, a := Most(before), Most(after);
    assert before == b + [Last(before)] && after == a + [Last(after)];
    if slot == |before| - 1 {
      assert a == b;
    } else {
      assert OnlyAt(b, a, slot);
      OnlyAtKeepsOthers(b, a, slot, name);
      assert Last(after) == Last(before);
    }
  }

  lemma {:induction false} WithoutTwice(accounts: seq<Account>, name: string)
    ensures Without(Without(accounts, name), name) == Without(accounts, name)
  {
    if accounts != [] {
      WithoutTwice(Most(accounts), name);
      var front := Without(Most(accounts), name);
      assert Last(accounts).name != name ==> Most(front + [Last(accounts)]) == front;
    }
  }

  /** An edit that goes through leaves every account of another name as it was, in its order. */
  lemma {:induction false} EditLeavesOthers(rules: Rules, statics: seq<Account>, accounts: seq<Account>, e: Edit)
    requires Outcome(rules, statics, accounts, e).Ok?
    ensures Without(Outcome(rules, statics, accounts, e).value, NameOf(rules, e)) == Without(accounts, NameOf(rules, e))
  {
    var after := Outcome(rules, statics, accounts, e).value;
    match e
    case Add(account) =>
      assert Most(after) == accounts;
    case Remove(name) => WithoutTwice(accounts, name);
    case AddAddress(name, raw) =>
      AddAddressExactly(rules, statics, accounts, name, raw);
      OnlyAtKeepsOthers(accounts, after, Find(accounts, name).value, name);
    case RemoveAddress(name, raw) =>
      RemoveAddressExactly(rules, accounts, name, raw);
      OnlyAtKeepsOthers(accounts, after, Find(accounts, name).value, name);
    case Replace(name, account) =>
      ReplaceExactly(rules, statics, accounts, name, account);
      OnlyAtKeepsOthers(accounts, after, Find(accounts, name).value, name);
  }

  /** A run of edits is the ones that go through, one after another; a refused one changes nothing. */
  lemma {:induction false} RunExactly(rules: Rules, statics: seq<Account>, accounts: seq<Account>, es: seq<Edit>, e: Edit)
    ensures Run(rules, statics, accounts, []) == accounts
    ensures var before, after := Run(rules, statics, accounts, es), Run(rules, statics, accounts, es + [e]);
            && (Outcome(rules, statics, before, e).Err? ==> after == before)
            && (Outcome(rules, statics, before, e).Ok? ==> after == Outcome(rules, statics, before, e).value)
  {
    assert Most(es + [e]) == es && Last(es + [e]) == e;
  }

  // ----- The directory -----

  lemma {:induction false} TableOf(n: string -> string, all: seq<Account>, w: string)
    ensures w in Table(n, Pairs(all)) <==> Used(n, all, w)
    ensures forall i :: 0 <= i < |all| && Uses(n, all[i], w) && (forall j :: i < j < |all| ==> !Uses(n, all[j], w)) ==>
              w in Table(n, Pairs(all)) && Table(n, Pairs(all))[w] == all[i].name
  {
    UsedMeans(n, all, w);
    if all != [] {
      var most, last := Most(all), Last(all);
      TableOf(n, most, w);
      UsedMeans(n, most, w);
      OwnTable(n, last, w);
      assert Pairs(all) == Pairs(most) + PairsOf(last);
      TableAppends(n, Pairs(most), PairsOf(last));
      assert forall i :: 0 <= i < |most| ==> most[i] == all[i];
      assert last == all[|all| - 1];
      forall i | 0 <= i < |all| && Uses(n, all[i], w) && (forall j :: i < j < |all| ==> !Uses(n, all[j], w))
        ensures w in Table(n, Pairs(all)) && Table(n, Pairs(all))[w] == all[i].name
      {
        if i < |most| {
          assert !Uses(n, all[|all| - 1], w) && Uses(n, most[i], w);
        }
      }
    }
  }

  lemma {:induction false} OwnTable(n: string -> string, a: Account, w: string)
    ensures w in Table(n, PairsOf(a)) <==> Uses(n, a, w)
    ensures Uses(n, a, w) ==> w in Table(n, PairsOf(a)) && Table(n, PairsOf(a))[w] == a.name
    decreases |a.addresses|
  {
    if a.addresses != [] {
      var most := a.(addresses := Most(a.addresses));
      OwnTable(n, most, w);
      assert Most(PairsOf(a)) == PairsOf(most);
      assert forall k :: 0 <= k < |most.addresses| ==> most.addresses[k] == a.addresses[k];
      assert Last(a.addresses) == a.addresses[|a.addresses| - 1];
    }
  }

  lemma {:induction false} FirstWriterOf(n: string -> string, all: seq<Account>, w: string)
    ensures FirstWriter(n, Pairs(all), w).Some? <==> Used(n, all, w)
    ensures forall i :: 0 <= i < |all| && Uses(n, all[i], w) && (forall j :: 0 <= j < i ==> !Uses(n, all[j], w)) ==>
              FirstWriter(n, Pairs(all), w) == Some(all[i].name)
  {
    UsedMeans(n, all, w);
    if all != [] {
      var most, last := Most(all), Last(all);
      FirstWriterOf(n, most, w);
      UsedMeans(n, most, w);
      WriterOf(n, last, w);
      WriterAppends(n, Pairs(most), PairsOf(last), w);
      assert forall i :: 0 <= i < |most| ==> most[i] == all[i];
      assert last == all[|all| - 1];
      forall i | 0 <= i < |all| && Uses(n, all[i], w) && (forall j :: 0 <= j < i ==> !Uses(n, all[j], w))
        ensures FirstWriter(n, Pairs(all), w) == Some(all[i].name)
      {
        if i < |most| {
          assert Uses(n, most[i], w);
        } else {
          assert forall j :: 0 <= j < |most| ==> !Uses(n, most[j], w);
        }
      }
    }
  }

  /**
   * Whom the directory answers with: the first static or dynamic account that
   * uses the address, else the last SQL row, else the last LDAP row, else nobody.
   */
  lemma {:induction false} RoutesExactly(n: string -> string, ldap: seq<Account>, sql: seq<Account>, statics: seq<Account>, accounts: seq<Account>, w: string)
    ensures var routes, all := Routes(n, ldap, sql, statics, accounts), statics + accounts;
            && (w in routes <==> Used(n, all, w) || Used(n, sql, w) || Used(n, ldap, w))
            && (forall i :: 0 <= i < |all| && Uses(n, all[i], w) && (forall j :: 0 <= j < i ==> !Uses(n, all[j], w)) ==>
                  w in routes && routes[w] == all[i].name)
            && (forall i :: !Used(n, all, w) && 0 <= i < |sql| && Uses(n, sql[i], w) && (forall j :: i < j < |sql| ==> !Uses(n, sql[j], w)) ==>
                  w in routes && routes[w] == sql[i].name)
            && (forall i :: !Used(n, all, w) && !Used(n, sql, w) && 0 <= i < |ldap| && Uses(n, ldap[i], w) && (forall j :: i < j < |ldap| ==> !Uses(n, ldap[j], w)) ==>
                  w in routes && routes[w] == ldap[i].name)
  {
    var all := statics + accounts;
    TableOf(n, ldap, w);
    TableOf(n, sql, w);
    FirstWriterOf(n, all, w);
    FirstClaimsTable(n, Pairs(all), w);
    TableAppends(n, Pairs(ldap), Pairs(sql));
    TableAppends(n, Pairs(ldap) + Pairs(sql), FirstClaims(n, Pairs(all)));
    UsedMeans(n, all, w);
  }
}
