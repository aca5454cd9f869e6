/** The Sieve interpreter: a run that updates its outcome, its cancel marks and its budget in place. */
module SieveInterp {
  import opened Basics
  import opened SieveAst
  import opened SieveAnalysis
  import opened SieveRun

  method HasTagIn(args: seq<Argument>, tag: string) returns (found: bool)
    ensures found <==> HasTag(args, tag)
  {
    found := false;
    for i := 0 to |args|
      invariant found <==> exists j :: 0 <= j < i && args[j] == Tagged(tag)
    {
      found := found || args[i] == Tagged(tag);
    }
  }

  method ListedIn(xs: seq<string>, x: string) returns (found: bool)
    ensures found <==> Listed(xs, x)
  {
    found := false;
    for i := 0 to |xs|
      invariant found <==> exists j :: 0 <= j < i && Same(xs[j], x)
    {
      found := found || Same(xs[i], x);
    }
  }

  /** Adds flags, each once however it is cased, until the limit is reached. */
  method AddFlagsTo(flags: seq<string>, words: seq<string>) returns (r: seq<string>)
    ensures r == AddFlags(flags, words)
  {
    r := flags;
    for i := 0 to |words|
      invariant AddFlags(r, words[i..]) == AddFlags(flags, words)
    {
      if |r| >= MAX_FLAGS {
        break;
      }
      assert words[i..][1..] == words[i + 1..];
      var known := ListedIn(r, words[i]);
      if |words[i]| <= MAX_FLAG_BYTES && !known {
        r := r + [words[i]];
      }
    }
  }

  /** Keeps the flags that are not among the words. */
  method RemoveFlags(flags: seq<string>, words: seq<string>) returns (r: seq<string>)
    ensures r == DropFlags(flags, words)
  {
    r := [];
    for i := 0 to |flags|
      invariant r + DropFlags(flags[i..], words) == DropFlags(flags, words)
    {
      assert flags[i..][1..] == flags[i + 1..];
      var gone := ListedIn(words, flags[i]);
      if !gone {
        r := r + [flags[i]];
      }
    }
  }

  /** Reads the arguments of a `vacation`, a tag taking the argument behind it. */
  method ParseVacation(args: seq<Argument>) returns (r: Option<Vacation>)
    ensures r == VacationOf(args, None, NO_VACATION)
  {
    var request, reason: Option<string> := NO_VACATION, None;
    var i := 0;
    while i < |args|
      invariant 0 <= i <= |args|
      invariant VacationOf(args[i..], reason, request) == VacationOf(args, None, NO_VACATION)
    {
      assert args[i..][0] == args[i] && args[i..][1..] == args[i + 1..];
      if args[i].Str? {
        reason := Some(args[i].text);
        i := i + 1;
      } else if args[i].Tagged? && args[i].tag in {"days", "subject", "from", "handle", "addresses"} {
        if i + 1 == |args| {
          i := i + 1;
        } else {
          assert args[i..][1] == args[i + 1] && args[i..][2..] == args[i + 2..];
          request := Noted(request, args[i].tag, args[i + 1]);
          i := i + 2;
        }
      } else {
        i := i + 1;
      }
    }
    r := if reason.None? then None else Some(request.(reason := reason.value));
  }

  class Interpreter {
    const host: Host
    var outcome: Outcome
    var cancel: Cancel
    var env: Env
    ghost var deeds: set<Deed>
    ghost var forwards: seq<string>

    constructor (host: Host)
      ensures this.host == host && Now() == START
    {
      this.host := host;
      outcome := UNDECIDED;
      cancel := Cancel(false, false);
      env := START.env;
      deeds := {};
      forwards := [];
    }

    /** The run so far, as a value. */
    ghost function Now(): State
      reads this
    {
      State(outcome, cancel, env, deeds, forwards)
    }

    method CountStep() returns (ok: bool)
      modifies this`env
      ensures env == Step(old(env)) && ok == !env.exhausted
    {
      env := env.(steps := Min(env.steps + 1, U32_MAX));
      if env.steps > MAX_STEPS {
        env := env.(exhausted := true);
      }
      ok := !env.exhausted;
    }

    method Spend(units: nat) returns (ok: bool)
      modifies this`env
      ensures env == Charge(old(env), units) && ok == !env.exhausted
    {
      env := env.(work := Min(env.work + units, U64_MAX));
      if env.work > MAX_WORK {
        env := env.(exhausted := true);
      }
      ok := !env.exhausted;
    }

    method ExpandText(input: string) returns (text: string)
      modifies this`env
      ensures (text, env) == Expand(host, input, old(env))
    {
      var ok := Spend(|input|);
      text := host.expand(input, env);
      ok := Spend(|text|);
    }

    method Test(t: Test) returns (holds: bool)
      modifies this`env
      ensures (holds, env) == EvalTest(host, t, old(env))
      decreases t
    {
      var ok := CountStep();
      if !ok {
        return false;
      }
      if t.name == "true" {
        return true;
      }
      if t.name == "false" {
        return false;
      }
      if t.name == "not" {
        if t.children == [] {
          return true;
        }
        var inner := Test(t.children[0]);
        return !inner;
      }
      if t.name == "allof" {
        holds := All(t.children);
        return;
      }
      if t.name == "anyof" {
        holds := Any(t.children);
        return;
      }
      var r := host.leaf(t, env);
      env := r.1;
      holds := r.0;
    }

    method All(ts: seq<Test>) returns (holds: bool)
      modifies this`env
      ensures (holds, env) == EvalAll(host, ts, old(env))
      decreases ts
    {
      for i := 0 to |ts|
        invariant EvalAll(host, ts, old(env)) == EvalAll(host, ts[i..], env)
      {
        assert ts[i..][1..] == ts[i + 1..];
        var one := Test(ts[i]);
        if !one {
          return false;
        }
      }
      holds := true;
    }

    method Any(ts: seq<Test>) returns (holds: bool)
      modifies this`env
      ensures (holds, env) == EvalAny(host, ts, old(env))
      decreases ts
    {
      for i := 0 to |ts|
        invariant EvalAny(host, ts, old(env)) == EvalAny(host, ts[i..], env)
      {
        assert ts[i..][1..] == ts[i + 1..];
        var one := Test(ts[i]);
        if one {
          return true;
        }
      }
      holds := false;
    }

    method DiscardMessage()
      modifies this`outcome, this`cancel, this`deeds
      ensures Now() == DoDiscard(old(Now()))
    {
      if env.overCaps {
        outcome := outcome.(keep := true);
        deeds := deeds + {Spare};
      } else {
        outcome := outcome.(discarded := true);
        cancel := cancel.(local := true);
        deeds := deeds + {Discard};
      }
    }

    method RejectMessage(args: seq<Argument>) returns (stop: bool)
      modifies this
      ensures (Now(), stop) == DoReject(host, args, old(Now()))
    {
      if env.overCaps {
        outcome := outcome.(keep := true);
        deeds := deeds + {Spare};
      } else if FirstStr(args).Some? {
        var reason := ExpandText(FirstStr(args).value);
        if env.exhausted {
          return true;
        }
        outcome := outcome.(reject := Some(reason));
        cancel := cancel.(external := true);
        deeds := deeds + {Reject};
      }
      stop := false;
    }

    method SetVariable(args: seq<Argument>) returns (stop: bool)
      modifies this`env
      ensures (Now(), stop) == DoSet(host, args, old(Now()))
    {
      var strings := Strings(args);
      if |strings| >= 2 {
        var value := ExpandText(strings[1]);
        if env.exhausted {
          return true;
        }
        env := host.assign(strings[0], value, env);
      }
      stop := false;
    }

    method FileInto(args: seq<Argument>) returns (stop: bool)
      modifies this
      ensures (Now(), stop) == DoFileInto(host, args, old(Now()))
    {
      if FirstStr(args).Some? {
        var folder := ExpandText(FirstStr(args).value);
        if env.exhausted {
          return true;
        }
        var known := folder in outcome.fileinto;
        if !known && |outcome.fileinto| < MAX_FILEINTO {
          outcome := outcome.(fileinto := outcome.fileinto + [folder]);
        } else if !known {
          outcome := outcome.(fileintoOver := outcome.fileintoOver + 1);
        }
        var create := HasTagIn(args, "create");
        if create && folder in outcome.fileinto {
          outcome := outcome.(creates := outcome.creates + {folder});
        }
        assert outcome == Filed(old(outcome), folder, create);
        var copy := HasTagIn(args, "copy");
        if !copy {
          cancel := cancel.(local := true);
        }
        deeds := deeds + {File(copy)};
      }
      stop := false;
    }

    method Redirect(args: seq<Argument>) returns (stop: bool)
      modifies this
      ensures (Now(), stop) == DoRedirect(host, args, old(Now()))
    {
      if FirstStr(args).Some? {
        var target := ExpandText(FirstStr(args).value);
        if env.exhausted {
          return true;
        }
        var known := ListedIn(outcome.redirects, target);
        if !known {
          if |outcome.redirects| < MAX_REDIRECTS {
            outcome := outcome.(redirects := outcome.redirects + [target]);
          } else {
            outcome := outcome.(redirectsOver := outcome.redirectsOver + 1);
          }
        }
        assert outcome == Forwarded(old(outcome), target);
        forwards := forwards + [target];
        var copy := HasTagIn(args, "copy");
        if !copy {
          cancel := cancel.(external := true);
        }
        deeds := deeds + {Forward(copy)};
      }
      stop := false;
    }

    method ChangeFlags(name: string, args: seq<Argument>) returns (stop: bool)
      modifies this`env, this`outcome
      ensures (Now(), stop) == DoFlags(host, name, args, old(Now()))
    {
      var words := FlagWords(host, Strings(args));
      var ok := Spend(FlagCost(words));
      if !ok {
        return true;
      }
      var flags;
      if name == "setflag" {
        flags := AddFlagsTo([], words);
      } else if name == "addflag" {
        flags := AddFlagsTo(outcome.flags, words);
      } else {
        flags := RemoveFlags(outcome.flags, words);
      }
      outcome := outcome.(flags := flags);
      stop := false;
    }

    method RunAction(name: string, args: seq<Argument>) returns (stop: bool)
      modifies this
      ensures (Now(), stop) == Act(host, name, args, old(Now()))
    {
      stop := false;
      if name == "keep" {
        outcome := outcome.(keep := true);
        deeds := deeds + {Keep};
      } else if name == "discard" {
        DiscardMessage();
      } else if name == "reject" || name == "ereject" {
        stop := RejectMessage(args);
      } else if name == "set" {
        stop := SetVariable(args);
      } else if name == "vacation" {
        var request := ParseVacation(args);
        outcome := outcome.(vacation := request);
      } else if name == "fileinto" {
        stop := FileInto(args);
      } else if name == "redirect" {
        stop := Redirect(args);
      } else if name == "stop" {
        stop := true;
      } else if name == "setflag" || name == "addflag" || name == "removeflag" {
        stop := ChangeFlags(name, args);
      }
    }

    /** Runs commands in order; the result says whether the whole run stops. */
    method Run(commands: seq<Command>) returns (stop: bool)
      modifies this
      ensures (Now(), stop) == Exec(host, commands, old(Now()))
      decreases commands
    {
      for i := 0 to |commands|
        invariant Exec(host, commands, old(Now())) == Exec(host, commands[i..], Now())
      {
        assert commands[i..][1..] == commands[i + 1..];
        var ok := CountStep();
        if !ok {
          return true;
        }
        var done := RunCommand(commands[i]);
        if done {
          return true;
        }
      }
      stop := false;
    }

    method RunCommand(c: Command) returns (stop: bool)
      modifies this
      ensures (Now(), stop) == ExecOne(host, c, old(Now()))
      decreases c
    {
      match c
      case Action(name, args) =>
        stop := RunAction(name, args);
      case If(branches, otherwise) =>
        var taken;
        stop, taken := RunBranches(branches);
        if !stop && !taken && otherwise.Else? {
          stop := Run(otherwise.body);
        }
    }

    method RunBranches(branches: seq<Branch>) returns (stop: bool, taken: bool)
      modifies this
      ensures (Now(), stop, taken) == ExecBranches(host, branches, old(Now()))
      decreases branches
    {
      for i := 0 to |branches|
        invariant ExecBranches(host, branches, old(Now())) == ExecBranches(host, branches[i..], Now())
      {
        assert branches[i..][1..] == branches[i + 1..];
        var holds := Test(branches[i].test);
        if holds {
          stop := Run(branches[i].body);
          return stop, true;
        }
      }
      return false, false;
    }
  }

  /** Runs a script against a message and settles what becomes of it. */
  method Decide(host: Host, script: seq<Command>) returns (outcome: Outcome)
    ensures outcome == Evaluate(host, script)
  {
    var run := new Interpreter(host);
    var stopped := run.Run(script);
    outcome := run.outcome.(aborted := run.env.exhausted, truncated := run.env.truncated, overCaps := run.env.overCaps);
    if outcome.aborted {
      outcome := outcome.(dropped := Dropped(|outcome.redirects|, outcome.reject.Some?, outcome.vacation.Some?));
      if AnyDropped(outcome.dropped) {
        outcome := outcome.(redirects := [], reject := None, vacation := None, discarded := false, keep := true);
        return;
      }
    }
    if !(run.cancel.local || run.cancel.external) {
      outcome := outcome.(keep := true);
    }
  }
}
