/**
 * What the parts of a Sieve run do on their own: reading arguments, changing
 * flags, asking for a reply, spending the budget, and the upload check's notion
 * of a script that sends.
 */
module SieveDetails {
  import opened Basics
  import opened SieveAst
  import opened SieveAnalysis
  import opened SieveRun
  import opened SieveMeaning
  import Text

  // ----- Arguments -----

  /** The first string argument is the one before which there is none. */
  lemma {:induction false} FirstStringExactly(args: seq<Argument>)
    ensures FirstStr(args).None? <==> forall i :: 0 <= i < |args| ==> !args[i].Str?
    ensures forall i :: 0 <= i < |args| && args[i].Str? && (forall j :: 0 <= j < i ==> !args[j].Str?) ==> FirstStr(args) == Some(args[i].text)
  {
    if args != [] && !args[0].Str? {
      FirstStringExactly(args[1..]);
      assert forall i :: 0 < i < |args| ==> args[i] == args[1..][i - 1];
    }
  }

  /** The strings of arguments are those of each argument, one after another. */
  lemma {:induction false} StringsExactly(a: seq<Argument>, b: seq<Argument>)
    ensures Strings(a + b) == Strings(a) + Strings(b)
    decreases |a|
  {
    if a == [] {
      assert a + b == b;
    } else {
      assert (a + b)[0] == a[0] && (a + b)[1..] == a[1..] + b;
      StringsExactly(a[1..], b);
    }
  }

  lemma {:induction false} StringsOfOne(a: Argument)
    ensures Strings([a]) == (if a.Str? then [a.text] else if a.StrList? then a.items else [])
  {
    assert [a][1..] == [];
  }

  /** A tag is among arguments exactly when one of them is that tag. */
  lemma {:induction false} TagExactly(args: seq<Argument>, tag: string)
    ensures HasTag(args, tag) <==> Tagged(tag) in args
  {
    if Tagged(tag) in args {
      var i :| 0 <= i < |args| && args[i] == Tagged(tag);
      assert HasTag(args, tag);
    }
  }

  // ----- Flags -----

  /** The words short enough to be flags. */
  function Fit(words: seq<string>): seq<string> {
    if words == [] then [] else Fit(Most(words)) + if |Last(words)| <= 64 then [Last(words)] else []
  }

  lemma {:induction false} FitInFront(words: seq<string>)
    requires words != []
    ensures Fit(words) == (if |words[0]| <= 64 then [words[0]] else []) + Fit(words[1..])
  {
    if |words| == 1 {
      assert Most(words) == [] && words[1..] == [];
    } else {
      FitInFront(Most(words));
      assert Most(words)[1..] == Most(words[1..]) && Last(words[1..]) == Last(words) && Most(words)[0] == words[0];
    }
  }

  lemma {:induction false} FullStays(xs: seq<string>, more: seq<string>)
    requires |SieveMeaning.Kept(xs, Lowered(), 32)| >= 32
    ensures SieveMeaning.Kept(xs + more, Lowered(), 32) == SieveMeaning.Kept(xs, Lowered(), 32)
  {
    if more == [] {
      assert xs + more == xs;
    } else {
      FullStays(xs, Most(more));
      KeptMore(xs + Most(more), Lowered(), 32, Last(more));
      assert xs + more == (xs + Most(more)) + [Last(more)];
    }
  }

  lemma {:induction false} AddedFlags(xs: seq<string>, flags: seq<string>, words: seq<string>)
    requires flags == SieveMeaning.Kept(xs, Lowered(), 32)
    ensures AddFlags(flags, words) == SieveMeaning.Kept(xs + Fit(words), Lowered(), 32)
    decreases |words|
  {
    if words == [] {
      assert xs + Fit(words) == xs;
    } else if |flags| >= 32 {
      FullStays(xs, Fit(words));
    } else {
      FitInFront(words);
      var w := words[0];
      if |w| <= 64 {
        KeptMore(xs, Lowered(), 32, w);
        ListedIsIn(flags, w);
        AddedFlags(xs + [w], SieveMeaning.Kept(xs + [w], Lowered(), 32), words[1..]);
        assert (xs + [w]) + Fit(words[1..]) == xs + Fit(words);
      } else {
        AddedFlags(xs, flags, words[1..]);
        assert [] + Fit(words[1..]) == Fit(words[1..]);
      }
    }
  }

  lemma {:induction false} ApartIsKept(flags: seq<string>)
    requires Apart(flags) && |flags| <= 32
    ensures SieveMeaning.Kept(flags, Lowered(), 32) == flags
  {
    if flags != [] {
      var most, last := Most(flags), Last(flags);
      assert Apart(most) by {
        assert forall i :: 0 <= i < |most| ==> most[i] == flags[i];
      }
      ApartIsKept(most);
      KeptMore(most, Lowered(), 32, last);
      ListedIsIn(most, last);
      assert flags == most + [last];
    }
  }

  /**
   * Setting flags gives the first 32 different ones of the words of 64 octets at
   * most, adding puts those behind the ones there are, and removing takes out the
   * ones named, whatever the case of letters.
   */
  lemma {:induction false} FlagsExactly(flags: seq<string>, words: seq<string>)
    requires Apart(flags) && |flags| <= 32
    ensures NewFlags("setflag", flags, words) == SieveMeaning.Kept(Fit(words), Lowered(), 32)
    ensures NewFlags("addflag", flags, words) == SieveMeaning.Kept(flags + Fit(words), Lowered(), 32)
    ensures Sifted(flags, NewFlags("removeflag", flags, words), (f: string) => forall i :: 0 <= i < |words| ==> Text.Lower(words[i]) != Text.Lower(f))
  {
    ApartIsKept(flags);
    AddedFlags(flags, flags, words);
    AddedFlags([], [], words);
    assert [] + Fit(words) == Fit(words);
    DroppedFlags(flags, words, (f: string) => forall i :: 0 <= i < |words| ==> Text.Lower(words[i]) != Text.Lower(f));
  }

  lemma {:induction false} DroppedFlags(flags: seq<string>, words: seq<string>, stays: string -> bool)
    requires forall f :: stays(f) <==> !Listed(words, f)
    ensures Sifted(flags, DropFlags(flags, words), stays)
  {
    if flags != [] {
      DroppedFlags(flags[1..], words, stays);
      SiftedInFront(flags[0], flags[1..], DropFlags(flags[1..], words), stays);
      assert flags == [flags[0]] + flags[1..];
    }
  }

  // ----- A reply -----

  /** The arguments of `vacation`: a text, a tag with the argument behind it, or something that says nothing. */
  datatype Part = Reason(text: string) | Setting(tag: string, value: Argument) | Noise(arg: Argument)

  predicate Takes(tag: string) { tag in {"days", "subject", "from", "handle", "addresses"} }

  predicate WellMade(p: Part) {
    && (p.Setting? ==> Takes(p.tag))
    && (p.Noise? ==> !p.arg.Str? && (p.arg.Tagged? ==> !Takes(p.arg.tag)))
  }

  function Spelled(p: Part): seq<Argument> {
    match p
    case Reason(text) => [Str(text)]
    case Setting(tag, value) => [Tagged(tag), value]
    case Noise(arg) => [arg]
  }

  function Written(parts: seq<Part>): seq<Argument> {
    if parts == [] then [] else Spelled(parts[0]) + Written(parts[1..])
  }

  /** The last answer of the parts that have one. */
  function LastPart<T>(parts: seq<Part>, f: Part -> Option<T>, otherwise: T): T {
    if parts == [] then otherwise
    else LastPart(parts[1..], f, if f(parts[0]).Some? then f(parts[0]).value else otherwise)
  }

  function ReasonOf(p: Part): Option<Option<string>> { if p.Reason? then Some(Some(p.text)) else None }

  function DaysOf(p: Part): Option<nat> { if p.Setting? && p.tag == "days" && p.value.Num? then Some(p.value.value) else None }

  function StringOf(tag: string): Part -> Option<Option<string>> {
    (p: Part) => if p.Setting? && p.tag == tag && p.value.Str? then Some(Some(p.value.text)) else None
  }

  lemma {:induction false} ReplyFrom(parts: seq<Part>, lone: seq<Argument>, reason: Option<string>, v: Vacation)
    requires (forall i :: 0 <= i < |parts| ==> WellMade(parts[i])) && (lone == [] || (|lone| == 1 && lone[0].Tagged? && Takes(lone[0].tag)))
    ensures var said := LastPart(parts, ReasonOf, reason);
            VacationOf(Written(parts) + lone, reason, v) ==
              if said.None? then None
              else Some(Vacation(said.value, LastPart(parts, StringOf("subject"), v.subject), LastPart(parts, StringOf("from"), v.sender),
                                 LastPart(parts, DaysOf, v.days)))
    decreases |parts|
  {
    if parts == [] {
      assert Written(parts) + lone == lone;
    } else {
      var p, rest := parts[0], Written(parts[1..]) + lone;
      var args := Written(parts) + lone;
      assert args == Spelled(p) + rest;
      match p
      case Reason(text) =>
        assert args[0] == Str(text) && args[1..] == rest;
        ReplyFrom(parts[1..], lone, Some(text), v);
      case Setting(tag, value) =>
        assert args[0] == Tagged(tag) && args[1] == value && args[2..] == rest;
        ReplyFrom(parts[1..], lone, reason, Noted(v, tag, value));
      case Noise(arg) =>
        assert args[0] == arg && args[1..] == rest;
        ReplyFrom(parts[1..], lone, reason, v);
    }
  }

  /**
   * A reply is asked for exactly when there is a text, and it is the last one,
   * with the last days, subject and sender of the right kind; seven days if none
   * say otherwise.
   */
  lemma {:induction false} ReplyExactly(parts: seq<Part>, lone: seq<Argument>)
    requires (forall i :: 0 <= i < |parts| ==> WellMade(parts[i])) && (lone == [] || (|lone| == 1 && lone[0].Tagged? && Takes(lone[0].tag)))
    ensures var said := LastPart(parts, ReasonOf, None);
            VacationOf(Written(parts) + lone, None, NO_VACATION) ==
              if said.None? then None
              else Some(Vacation(said.value, LastPart(parts, StringOf("subject"), None), LastPart(parts, StringOf("from"), None),
                                 LastPart(parts, DaysOf, 7)))
  {
    ReplyFrom(parts, lone, None, NO_VACATION);
  }

  /** Every list of arguments is written so. */
  lemma {:induction false} EveryListIsWritten(args: seq<Argument>) returns (parts: seq<Part>, lone: seq<Argument>)
    ensures (forall i :: 0 <= i < |parts| ==> WellMade(parts[i])) && (lone == [] || (|lone| == 1 && lone[0].Tagged? && Takes(lone[0].tag)))
    ensures Written(parts) + lone == args
    decreases |args|
  {
    if args == [] {
      parts, lone := [], [];
    } else if args[0].Tagged? && Takes(args[0].tag) && |args| == 1 {
      parts, lone := [], args;
    } else {
      var part := if args[0].Str? then Reason(args[0].text)
                  else if args[0].Tagged? && Takes(args[0].tag) then Setting(args[0].tag, args[1])
                  else Noise(args[0]);
      var rest;
      rest, lone := EveryListIsWritten(args[|Spelled(part)|..]);
      parts := [part] + rest;
      assert args == Spelled(part) + args[|Spelled(part)|..];
      assert parts[1..] == rest;
    }
  }

  // ----- The budget -----

  function Keeps(n: nat): (cs: seq<Command>)
    ensures |cs| == n
  {
    seq(n, i => Action("keep", []))
  }

  lemma {:induction false} KeepsRun(n: nat, s: State)
    requires !s.env.exhausted && s.env.steps <= 20_000
    ensures Exec(PLAIN, Keeps(n), s).0.env.exhausted <==> s.env.steps + n > 20_000
  {
    if n > 0 {
      assert Keeps(n)[1..] == Keeps(n - 1) && Keeps(n)[0] == Action("keep", []);
      var s1 := s.(env := Step(s.env));
      if !s1.env.exhausted {
        KeepsRun(n - 1, ExecOne(PLAIN, Keeps(n)[0], s1).0);
      }
    }
  }

  /** A run is cut off after 20000 commands and tests, and not before. */
  lemma {:induction false} StepsExactly(n: nat)
    ensures Evaluate(PLAIN, Keeps(n)).aborted <==> n > 20_000
  {
    KeepsRun(n, START);
  }

  /** Expanding a text is paid for by what is read and what is written, up to 256 MiB. */
  lemma {:induction false} WorkExactly(h: Host, text: string, e: Env)
    requires !e.exhausted && e.work <= 268_435_456
    ensures var (result, e') := Expand(h, text, e);
            && (e'.exhausted <==> e.work + |text| + |result| > 268_435_456)
            && result == h.expand(text, Charge(e, |text|))
            && (e.work + |text| + |result| <= U64_MAX ==> e'.work == e.work + |text| + |result|)
  {
  }

  /** Flag words are paid for by their octets and eight more each. */
  lemma {:induction false} FlagCostExactly(a: seq<string>, b: seq<string>)
    ensures FlagCost(a + b) == FlagCost(a) + FlagCost(b)
    ensures |a| == 1 ==> FlagCost(a) == |a[0]| + 8
    decreases |a|
  {
    if a == [] {
      assert a + b == b;
    } else {
      assert (a + b)[1..] == a[1..] + b;
      FlagCostExactly(a[1..], b);
    }
  }

  /** A variable is set to the expanded value under its own name. */
  lemma {:induction false} SetExactly(h: Host, name: string, value: string, s: State)
    ensures var (text, env) := Expand(h, value, s.env);
            SieveRun.Act(h, "set", [Str(name), Str(value)], s) ==
              if env.exhausted then (s.(env := env), true) else (s.(env := h.assign(name, text, env)), false)
  {
    var args := [Str(name), Str(value)];
    StringsOfOne(Str(name));
    StringsOfOne(Str(value));
    StringsExactly([Str(name)], [Str(value)]);
    assert args == [Str(name)] + [Str(value)];
  }

  /** The flags of the run itself are those of its budget. */
  lemma {:induction false} FlagsOfTheRun(h: Host, script: seq<Command>)
    ensures var (o, e) := (Evaluate(h, script), Exec(h, script, START).0.env);
            o.aborted == e.exhausted && o.truncated == e.truncated && o.overCaps == e.overCaps
  {
  }

  // ----- The upload check -----

  /** The outcome asks for mail to be sent. */
  predicate Sending(o: Outcome) { o.redirects != [] || o.reject.Some? || o.vacation.Some? }

  lemma {:induction false} OneSends(name: string)
    requires name in {"redirect", "reject", "ereject", "vacation"}
    ensures Sending(Evaluate(PLAIN, [Action(name, [Str("x")])]))
  {
    var args := [Str("x")];
    var cs := [Action(name, args)];
    var s1 := START.(env := Step(START.env));
    assert cs[1..] == [];
    var r := SieveRun.Act(PLAIN, name, args, s1);
    assert !r.0.env.exhausted && !r.1;
    assert args[1..] == [];
    assert Exec(PLAIN, cs, START) == (r.0, false);
  }

  /** Some message makes a script of the one action send. */
  ghost predicate CanSend(name: string) { exists h, args :: Sending(Evaluate(h, [Action(name, args)])) }

  /** An action can send exactly when it has one of the four names, as they are written. */
  lemma {:induction false} CanSendExactly(name: string)
    ensures CanSend(name) <==> name in {"redirect", "reject", "ereject", "vacation"}
  {
    if name in {"redirect", "reject", "ereject", "vacation"} {
      OneSends(name);
    } else {
      forall h, args ensures !Sending(Evaluate(h, [Action(name, args)])) {
        OtherSilent(h, name, args);
      }
    }
  }

  /** The upload check never misses an action that can send, and is right about one exactly when it is no other spelling of the four names. */
  lemma {:induction false} OutwardExactly(name: string)
    ensures CanSend(name) ==> Outward(name)
    ensures (Outward(name) <==> CanSend(name)) <==> (Outward(name) ==> Text.Lower(name) == name)
  {
    SmallNames();
    CanSendExactly(name);
  }

  /** Written large, an action is taken to send and does nothing. */
  lemma {:induction false} LargeRedirectIsSilent()
    ensures Outward("REDIRECT") && !CanSend("REDIRECT")
  {
    SmallNames();
    assert Text.Lower("REDIRECT") == "redirect";
    CanSendExactly("REDIRECT");
    assert "REDIRECT"[0] == 'R' && "redirect"[0] == 'r';
  }

  lemma {:induction false} OtherSilent(h: Host, name: string, args: seq<Argument>)
    requires name !in {"redirect", "reject", "ereject", "vacation"}
    ensures !Sending(Evaluate(h, [Action(name, args)]))
  {
    var cs, s1 := [Action(name, args)], START.(env := Step(START.env));
    assert cs[1..] == [];
    var r := SieveRun.Act(h, name, args, s1);
    OtherActs(h, name, args, s1);
    assert Exec(h, cs, START).0 == r.0 || Exec(h, cs, START).0 == Exec(h, [], r.0).0;
  }

  lemma {:induction false} OtherActs(h: Host, name: string, args: seq<Argument>, s: State)
    requires name !in {"redirect", "reject", "ereject", "vacation"}
    ensures Silent(s, SieveRun.Act(h, name, args, s).0)
  {
    if name == "fileinto" {
      SilentFile(h, args, s);
    } else if name == "setflag" || name == "addflag" || name == "removeflag" {
      FlagsSendNothing(h, name, args, s);
    } else if name == "set" {
      assert DoSet(h, args, s).0.out == s.out;
    } else {
      RestSendsNothing(h, name, args, s);
    }
  }

  lemma {:induction false} RestSendsNothing(h: Host, name: string, args: seq<Argument>, s: State)
    requires name !in {"redirect", "reject", "ereject", "vacation", "fileinto", "set", "setflag", "addflag", "removeflag"}
    ensures Silent(s, SieveRun.Act(h, name, args, s).0)
  {
  }

  lemma {:induction false} FlagsSendNothing(h: Host, name: string, args: seq<Argument>, s: State)
    ensures Silent(s, DoFlags(h, name, args, s).0)
  {
  }

  lemma {:induction false} SmallNames()
    ensures Text.Lower("redirect") == "redirect" && Text.Lower("vacation") == "vacation"
    ensures Text.Lower("reject") == "reject" && Text.Lower("ereject") == "ereject"
  {
  }

  /** The action stands somewhere in the script. */
  predicate StandsIn(cs: seq<Command>, name: string, args: seq<Argument>)
    decreases cs
  {
    exists i :: 0 <= i < |cs| && StandsInOne(cs[i], name, args)
  }

  predicate StandsInOne(c: Command, name: string, args: seq<Argument>)
    decreases c
  {
    match c
    case Action(n, a) => n == name && a == args
    case If(branches, otherwise) =>
      || (exists i :: 0 <= i < |branches| && StandsIn(branches[i].body, name, args))
      || (otherwise.Else? && StandsIn(otherwise.body, name, args))
  }

  /** A walk meets exactly the actions that stand in the script. */
  lemma {:induction false} VisitsExactly(cs: seq<Command>, name: string, args: seq<Argument>)
    ensures OfAction(name, args) in Visits(cs) <==> StandsIn(cs, name, args)
    decreases cs
  {
    if cs != [] {
      VisitsOne(cs[0], name, args);
      VisitsExactly(cs[1..], name, args);
      assert forall i :: 0 < i < |cs| ==> cs[i] == cs[1..][i - 1];
      if i :| 0 <= i < |cs[1..]| && StandsInOne(cs[1..][i], name, args) {
        assert StandsInOne(cs[i + 1], name, args);
      }
    }
  }

  lemma {:induction false} VisitsOne(c: Command, name: string, args: seq<Argument>)
    ensures OfAction(name, args) in CommandVisits(c) <==> StandsInOne(c, name, args)
    decreases c
  {
    if c.If? {
      VisitsBranches(c.branches, name, args);
      if c.otherwise.Else? {
        VisitsExactly(c.otherwise.body, name, args);
      }
    }
  }

  predicate StandsInSome(bs: seq<Branch>, name: string, args: seq<Argument>) {
    exists i :: 0 <= i < |bs| && StandsIn(bs[i].body, name, args)
  }

  lemma {:induction false} HereOrLater(bs: seq<Branch>, name: string, args: seq<Argument>)
    requires bs != []
    ensures StandsInSome(bs, name, args) <==> StandsIn(bs[0].body, name, args) || StandsInSome(bs[1..], name, args)
  {
    assert forall i :: 0 < i < |bs| ==> bs[i] == bs[1..][i - 1];
    if i :| 0 <= i < |bs[1..]| && StandsIn(bs[1..][i].body, name, args) {
      assert StandsIn(bs[i + 1].body, name, args);
    }
  }

  lemma {:induction false} VisitsBranches(bs: seq<Branch>, name: string, args: seq<Argument>)
    ensures OfAction(name, args) in BranchVisits(bs) <==> StandsInSome(bs, name, args)
    decreases bs
  {
    if bs != [] {
      TestsHoldNoAction(bs[0].test, name, args);
      VisitsExactly(bs[0].body, name, args);
      VisitsBranches(bs[1..], name, args);
      HereOrLater(bs, name, args);
    }
  }

  lemma {:induction false} TestsHoldNoAction(t: Test, name: string, args: seq<Argument>)
    ensures OfAction(name, args) !in TestVisits(t)
    decreases t
  {
    NorTheirChildren(t.children, name, args);
  }

  lemma {:induction false} NorTheirChildren(ts: seq<Test>, name: string, args: seq<Argument>)
    ensures OfAction(name, args) !in TestsVisits(ts)
    decreases ts
  {
    if ts != [] {
      TestsHoldNoAction(ts[0], name, args);
      NorTheirChildren(ts[1..], name, args);
    }
  }

  /** The upload check takes a script to send exactly when such an action stands in it, in whatever spelling. */
  lemma {:induction false} SendsExactly(cs: seq<Command>)
    ensures Sends(cs) <==>
      exists name, args :: StandsIn(cs, name, args) && Text.Lower(name) in {"redirect", "vacation", "reject", "ereject"}
  {
    SmallNames();
    if Sends(cs) {
      var v :| v in Visits(cs) && v.OfAction? && Outward(v.name);
      VisitsExactly(cs, v.name, v.args);
    }
    if name, args :| StandsIn(cs, name, args) && Text.Lower(name) in {"redirect", "vacation", "reject", "ereject"} {
      VisitsExactly(cs, name, args);
      assert OfAction(name, args) in Visits(cs) && Outward(name);
    }
  }
}
