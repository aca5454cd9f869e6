/**
 * What running a Sieve script decides about a message, as a function of the
 * script. The leaf tests, the expansion of variables, the variable store and
 * the splitting of text into words are the host's; what is asked of them is
 * that the run's budget flags, once raised, stay raised. Strings stand for the
 * octets of their UTF-8 form, so a length is a count of octets.
 */
module SieveRun {
  import opened Basics
  import opened SieveAst
  import opened SieveAnalysis
  import Text

  const MAX_REDIRECTS := 4
  const MAX_FILEINTO := 8
  const MAX_FLAGS := 32
  const MAX_FLAG_BYTES := 64
  const MAX_STEPS := 20_000
  const MAX_WORK := 256 * 1024 * 1024

  // ----- The budget of a run -----

  datatype Env = Env(vars: map<string, string>, captures: seq<string>, steps: nat, work: nat,
                     exhausted: bool, truncated: bool, overCaps: bool)

  /** Counts one command or test. */
  function Step(e: Env): Env {
    var steps := Min(e.steps + 1, U32_MAX);
    e.(steps := steps, exhausted := e.exhausted || steps > MAX_STEPS)
  }

  /** Spends units of work. */
  function Charge(e: Env, units: nat): Env {
    var work := Min(e.work + units, U64_MAX);
    e.(work := work, exhausted := e.exhausted || work > MAX_WORK)
  }

  /** Budget flags raised in `a` are raised in `b`. */
  predicate Sticky(a: Env, b: Env) {
    && (a.exhausted ==> b.exhausted)
    && (a.truncated ==> b.truncated)
    && (a.overCaps ==> b.overCaps)
  }

  datatype Host = Host(leaf: (Test, Env) -> (bool, Env),
                       expand: (string, Env) -> string,
                       assign: (string, string, Env) -> Env,
                       words: string -> seq<string>)

  ghost predicate Sound(h: Host) {
    && (forall t, e :: Sticky(e, h.leaf(t, e).1))
    && (forall name, value, e :: Sticky(e, h.assign(name, value, e)))
  }

  /** A string with its variables replaced; what is read and written is paid for. */
  function Expand(h: Host, input: string, e: Env): (string, Env) {
    var e1 := Charge(e, |input|);
    var text := h.expand(input, e1);
    (text, Charge(e1, |text|))
  }

  // ----- Tests -----

  function EvalTest(h: Host, t: Test, e: Env): (bool, Env)
    decreases t
  {
    var e1 := Step(e);
    if e1.exhausted then (false, e1)
    else if t.name == "true" then (true, e1)
    else if t.name == "false" then (false, e1)
    else if t.name == "not" then
      if t.children == [] then (true, e1)
      else var r := EvalTest(h, t.children[0], e1); (!r.0, r.1)
    else if t.name == "allof" then EvalAll(h, t.children, e1)
    else if t.name == "anyof" then EvalAny(h, t.children, e1)
    else h.leaf(t, e1)
  }

  function EvalAll(h: Host, ts: seq<Test>, e: Env): (bool, Env)
    decreases ts
  {
    if ts == [] then (true, e)
    else
      var r := EvalTest(h, ts[0], e);
      if r.0 then EvalAll(h, ts[1..], r.1) else (false, r.1)
  }

  function EvalAny(h: Host, ts: seq<Test>, e: Env): (bool, Env)
    decreases ts
  {
    if ts == [] then (false, e)
    else
      var r := EvalTest(h, ts[0], e);
      if r.0 then (true, r.1) else EvalAny(h, ts[1..], r.1)
  }

  // ----- Arguments -----

  function FirstStr(args: seq<Argument>): Option<string> {
    if args == [] then None
    else if args[0].Str? then Some(args[0].text)
    else FirstStr(args[1..])
  }

  predicate HasTag(args: seq<Argument>, tag: string) {
    exists i :: 0 <= i < |args| && args[i] == Tagged(tag)
  }

  /** The strings of the arguments, lists flattened. */
  function Strings(args: seq<Argument>): seq<string> {
    if args == [] then []
    else (match args[0]
          case Str(text) => [text]
          case StrList(items) => items
          case _ => []) + Strings(args[1..])
  }

  function FlagWords(h: Host, strings: seq<string>): seq<string> {
    if strings == [] then [] else h.words(strings[0]) + FlagWords(h, strings[1..])
  }

  function FlagCost(words: seq<string>): nat {
    if words == [] then 0 else |words[0]| + 8 + FlagCost(words[1..])
  }

  datatype Vacation = Vacation(reason: string, subject: Option<string>, sender: Option<string>, days: nat)

  /** The reply a `vacation` asks for, given what its earlier arguments settled. */
  function VacationOf(args: seq<Argument>, reason: Option<string>, v: Vacation): Option<Vacation>
    decreases |args|
  {
    if args == [] then
      if reason.None? then None else Some(v.(reason := reason.value))
    else match args[0]
      case Str(text) => VacationOf(args[1..], Some(text), v)
      case Tagged(tag) =>
        if tag in {"days", "subject", "from", "handle", "addresses"} then
          if |args| == 1 then VacationOf([], reason, v)
          else VacationOf(args[2..], reason, Noted(v, tag, args[1]))
        else VacationOf(args[1..], reason, v)
      case _ => VacationOf(args[1..], reason, v)
  }

  function Noted(v: Vacation, tag: string, value: Argument): Vacation {
    if tag == "days" && value.Num? then v.(days := value.value)
    else if tag == "subject" && value.Str? then v.(subject := Some(value.text))
    else if tag == "from" && value.Str? then v.(sender := Some(value.text))
    else v
  }

  const NO_VACATION := Vacation("", None, None, 7)

  // ----- The decision -----

  datatype Dropped = Dropped(redirects: nat, reject: bool, vacation: bool)

  predicate AnyDropped(d: Dropped) {
    d.redirects > 0 || d.reject || d.vacation
  }

  datatype Outcome = Outcome(
    keep: bool, fileinto: seq<string>, creates: set<string>, redirects: seq<string>, discarded: bool,
    flags: seq<string>, reject: Option<string>, vacation: Option<Vacation>,
    aborted: bool, truncated: bool, overCaps: bool, dropped: Dropped,
    redirectsOver: nat, fileintoOver: nat)

  const UNDECIDED := Outcome(false, [], {}, [], false, [], None, None, false, false, false,
                             Dropped(0, false, false), 0, 0)

  datatype Cancel = Cancel(local: bool, external: bool)

  /** What an action carried out: `Spare` is a discard or reject turned into a keep. */
  datatype Deed = Keep | Spare | Discard | Reject | File(copy: bool) | Forward(copy: bool)

  /**
   * The run so far. Only for stating what happened: `deeds`, and `forwards`,
   * the address of every `redirect` carried out, in order.
   */
  datatype State = State(out: Outcome, cancel: Cancel, env: Env, deeds: set<Deed>, forwards: seq<string>)

  const START := State(UNDECIDED, Cancel(false, false),
                       Env(map[], [], 0, 0, false, false, false), {}, [])

  function Did(s: State, d: Deed): State {
    s.(deeds := s.deeds + {d})
  }

  function Kept(s: State): State {
    s.(out := s.out.(keep := true))
  }

  // ----- Actions: the new state, and whether the run stops -----

  function DoDiscard(s: State): State {
    if s.env.overCaps then Did(Kept(s), Spare)
    else Did(s.(out := s.out.(discarded := true), cancel := s.cancel.(local := true)), Discard)
  }

  function DoReject(h: Host, args: seq<Argument>, s: State): (State, bool) {
    if s.env.overCaps then (Did(Kept(s), Spare), false)
    else match FirstStr(args)
      case None => (s, false)
      case Some(text) =>
        var (reason, env) := Expand(h, text, s.env);
        if env.exhausted then (s.(env := env), true)
        else (Did(s.(env := env, out := s.out.(reject := Some(reason)), cancel := s.cancel.(external := true)), Reject), false)
  }

  function DoSet(h: Host, args: seq<Argument>, s: State): (State, bool) {
    var strings := Strings(args);
    if |strings| < 2 then (s, false)
    else
      var (value, env) := Expand(h, strings[1], s.env);
      if env.exhausted then (s.(env := env), true)
      else (s.(env := h.assign(strings[0], value, env)), false)
  }

  /** A folder filed into once, and among the first eight. */
  function Filed(out: Outcome, folder: string, create: bool): Outcome {
    var out1 :=
      if folder in out.fileinto then out
      else if |out.fileinto| < MAX_FILEINTO then out.(fileinto := out.fileinto + [folder])
      else out.(fileintoOver := out.fileintoOver + 1);
    if create && folder in out1.fileinto then out1.(creates := out1.creates + {folder}) else out1
  }

  function DoFileInto(h: Host, args: seq<Argument>, s: State): (State, bool) {
    match FirstStr(args)
    case None => (s, false)
    case Some(text) =>
      var (folder, env) := Expand(h, text, s.env);
      if env.exhausted then (s.(env := env), true)
      else
        (FiledAs(s, env, folder, HasTag(args, "create"), HasTag(args, "copy")), false)
  }

  function FiledAs(s: State, env: Env, folder: string, create: bool, copy: bool): State {
    Did(s.(env := env, out := Filed(s.out, folder, create),
           cancel := if copy then s.cancel else s.cancel.(local := true)), File(copy))
  }

  predicate Listed(xs: seq<string>, x: string) {
    exists i :: 0 <= i < |xs| && Same(xs[i], x)
  }

  /** An address forwarded to once, and among the first four. */
  function Forwarded(out: Outcome, target: string): Outcome {
    if Listed(out.redirects, target) then out
    else if |out.redirects| < MAX_REDIRECTS then out.(redirects := out.redirects + [target])
    else out.(redirectsOver := out.redirectsOver + 1)
  }

  function DoRedirect(h: Host, args: seq<Argument>, s: State): (State, bool) {
    match FirstStr(args)
    case None => (s, false)
    case Some(text) =>
      var (target, env) := Expand(h, text, s.env);
      if env.exhausted then (s.(env := env), true)
      else
        (ForwardedAs(s, env, target, HasTag(args, "copy")), false)
  }

  function ForwardedAs(s: State, env: Env, target: string, copy: bool): State {
    Did(s.(env := env, out := Forwarded(s.out, target), forwards := s.forwards + [target],
           cancel := if copy then s.cancel else s.cancel.(external := true)), Forward(copy))
  }

  function AddFlags(flags: seq<string>, words: seq<string>): seq<string>
    decreases |words|
  {
    if words == [] || |flags| >= MAX_FLAGS then flags
    else if |words[0]| <= MAX_FLAG_BYTES && !Listed(flags, words[0]) then AddFlags(flags + [words[0]], words[1..])
    else AddFlags(flags, words[1..])
  }

  function DropFlags(flags: seq<string>, words: seq<string>): seq<string> {
    if flags == [] then []
    else (if Listed(words, flags[0]) then [] else [flags[0]]) + DropFlags(flags[1..], words)
  }

  function NewFlags(name: string, flags: seq<string>, words: seq<string>): seq<string> {
    if name == "setflag" then AddFlags([], words)
    else if name == "addflag" then AddFlags(flags, words)
    else DropFlags(flags, words)
  }

  function DoFlags(h: Host, name: string, args: seq<Argument>, s: State): (State, bool) {
    var words := FlagWords(h, Strings(args));
    var env := Charge(s.env, FlagCost(words));
    if env.exhausted then (s.(env := env), true)
    else (s.(env := env, out := s.out.(flags := NewFlags(name, s.out.flags, words))), false)
  }

  function Act(h: Host, name: string, args: seq<Argument>, s: State): (State, bool) {
    if name == "keep" then (Did(Kept(s), Keep), false)
    else if name == "discard" then (DoDiscard(s), false)
    else if name == "reject" || name == "ereject" then DoReject(h, args, s)
    else if name == "set" then DoSet(h, args, s)
    else if name == "vacation" then (s.(out := s.out.(vacation := VacationOf(args, None, NO_VACATION))), false)
    else if name == "fileinto" then DoFileInto(h, args, s)
    else if name == "redirect" then DoRedirect(h, args, s)
    else if name == "stop" then (s, true)
    else if name == "setflag" || name == "addflag" || name == "removeflag" then DoFlags(h, name, args, s)
    else (s, false)
  }

  // ----- Runs -----

  function Exec(h: Host, cs: seq<Command>, s: State): (State, bool)
    decreases cs
  {
    if cs == [] then (s, false)
    else
      var s1 := s.(env := Step(s.env));
      if s1.env.exhausted then (s1, true)
      else
        var r := ExecOne(h, cs[0], s1);
        if r.1 then r else Exec(h, cs[1..], r.0)
  }

  function ExecOne(h: Host, c: Command, s: State): (State, bool)
    decreases c
  {
    match c
    case Action(name, args) => Act(h, name, args, s)
    case If(branches, otherwise) =>
      var (s1, stop, taken) := ExecBranches(h, branches, s);
      if stop || taken then (s1, stop) else ExecElse(h, otherwise, s1)
  }

  function ExecElse(h: Host, o: Otherwise, s: State): (State, bool)
    decreases o
  {
    if o.NoElse? then (s, false) else Exec(h, o.body, s)
  }

  /** The branches of a conditional: the new state, whether the run stops, whether one was taken. */
  function ExecBranches(h: Host, bs: seq<Branch>, s: State): (State, bool, bool)
    decreases bs
  {
    if bs == [] then (s, false, false)
    else
      var (holds, env) := EvalTest(h, bs[0].test, s.env);
      var s1 := s.(env := env);
      if holds then var r := Exec(h, bs[0].body, s1); (r.0, r.1, true)
      else ExecBranches(h, bs[1..], s1)
  }

  /** The verdict on a run that has ended. */
  function Finish(s: State): Outcome {
    var out := s.out.(aborted := s.env.exhausted, truncated := s.env.truncated, overCaps := s.env.overCaps);
    var dropped := Dropped(|out.redirects|, out.reject.Some?, out.vacation.Some?);
    var out1 := if out.aborted then out.(dropped := dropped) else out;
    if out.aborted && AnyDropped(dropped) then
      out1.(redirects := [], reject := None, vacation := None, discarded := false, keep := true)
    else if !(s.cancel.local || s.cancel.external) then out1.(keep := true)
    else out1
  }

  function Evaluate(h: Host, script: seq<Command>): Outcome {
    Finish(Exec(h, script, START).0)
  }

  // ----- Budget flags only ever rise -----

  lemma {:induction false} TestSticks(h: Host, t: Test, e: Env)
    requires Sound(h)
    ensures Sticky(e, EvalTest(h, t, e).1)
    ensures e.exhausted ==> !EvalTest(h, t, e).0
    decreases t
  {
    var e1 := Step(e);
    if t.name == "not" && t.children != [] {
      TestSticks(h, t.children[0], e1);
    } else if t.name == "allof" {
      AllSticks(h, t.children, e1);
    } else if t.name == "anyof" {
      AnySticks(h, t.children, e1);
    }
  }

  lemma {:induction false} AllSticks(h: Host, ts: seq<Test>, e: Env)
    requires Sound(h)
    ensures Sticky(e, EvalAll(h, ts, e).1)
    decreases ts
  {
    if ts != [] {
      TestSticks(h, ts[0], e);
      AllSticks(h, ts[1..], EvalTest(h, ts[0], e).1);
    }
  }

  lemma {:induction false} AnySticks(h: Host, ts: seq<Test>, e: Env)
    requires Sound(h)
    ensures Sticky(e, EvalAny(h, ts, e).1)
    decreases ts
  {
    if ts != [] {
      TestSticks(h, ts[0], e);
      AnySticks(h, ts[1..], EvalTest(h, ts[0], e).1);
    }
  }

  // ----- What every state of a run satisfies -----

  ghost predicate Apart(xs: seq<string>) {
    forall i, j :: 0 <= i < j < |xs| ==> !Same(xs[i], xs[j])
  }

  /** The lists stay within their limits and without repeats. */
  ghost predicate Bounded(out: Outcome) {
    && |out.redirects| <= MAX_REDIRECTS && Apart(out.redirects)
    && |out.fileinto| <= MAX_FILEINTO && NoDuplicates(out.fileinto)
    && out.creates <= Elements(out.fileinto)
    && |out.flags| <= MAX_FLAGS && Apart(out.flags)
    && (forall i :: 0 <= i < |out.flags| ==> |out.flags[i]| <= MAX_FLAG_BYTES)
  }

  /** What was decided is exactly what the deeds say. */
  predicate Told(s: State) {
    && (s.out.keep <==> Keep in s.deeds || Spare in s.deeds)
    && (s.out.discarded <==> Discard in s.deeds)
    && (s.out.reject.Some? <==> Reject in s.deeds)
    && (s.out.fileinto != [] <==> File(true) in s.deeds || File(false) in s.deeds)
    && (s.out.redirects != [] <==> Forward(true) in s.deeds || Forward(false) in s.deeds)
    && (s.cancel.local <==> Discard in s.deeds || File(false) in s.deeds)
    && (s.cancel.external <==> Reject in s.deeds || Forward(false) in s.deeds)
  }

  /** The addresses forwarded to: the first four different ones. */
  function FirstFour(xs: seq<string>): seq<string> {
    if xs == [] then []
    else
      var front := FirstFour(Most(xs));
      if Listed(front, Last(xs)) || |front| >= MAX_REDIRECTS then front else front + [Last(xs)]
  }

  /** What is not listed, in order. */
  function Unlisted(xs: seq<string>, list: seq<string>): seq<string> {
    if xs == [] then []
    else Unlisted(Most(xs), list) + (if Listed(list, Last(xs)) then [] else [Last(xs)])
  }

  /** The forwards are the first four different addresses, and the count is of those that came after them. */
  predicate Counted(out: Outcome, forwards: seq<string>) {
    && out.redirects == FirstFour(forwards)
    && out.redirectsOver == |Unlisted(forwards, out.redirects)|
    && (|out.redirects| < MAX_REDIRECTS ==> Unlisted(forwards, out.redirects) == [])
  }

  ghost predicate Inv(s: State) {
    Bounded(s.out) && Told(s) && Counted(s.out, s.forwards)
  }

  /** Nothing done is undone; with a pattern over the caps, nothing is discarded or rejected any more. */
  predicate Later(s: State, s': State) {
    && Sticky(s.env, s'.env)
    && s.deeds <= s'.deeds
    && s'.out.dropped == s.out.dropped
    && s.out.redirects <= s'.out.redirects
    && s.out.fileinto <= s'.out.fileinto
    && (s.env.overCaps ==> (Discard in s'.deeds <==> Discard in s.deeds) && s'.out.reject == s.out.reject)
  }

  lemma {:induction false} LaterChains(a: State, b: State, c: State)
    requires Later(a, b) && Later(b, c)
    ensures Later(a, c)
  {
  }

  lemma {:induction false} AddFlagsBounded(flags: seq<string>, words: seq<string>)
    requires |flags| <= MAX_FLAGS && Apart(flags) && forall i :: 0 <= i < |flags| ==> |flags[i]| <= MAX_FLAG_BYTES
    ensures |AddFlags(flags, words)| <= MAX_FLAGS && Apart(AddFlags(flags, words))
    ensures forall i :: 0 <= i < |AddFlags(flags, words)| ==> |AddFlags(flags, words)[i]| <= MAX_FLAG_BYTES
    decreases |words|
  {
    if words != [] && |flags| < MAX_FLAGS {
      if |words[0]| <= MAX_FLAG_BYTES && !Listed(flags, words[0]) {
        AddFlagsBounded(flags + [words[0]], words[1..]);
      } else {
        AddFlagsBounded(flags, words[1..]);
      }
    }
  }

  lemma {:induction false} DropFlagsBounded(flags: seq<string>, words: seq<string>)
    requires Apart(flags) && forall i :: 0 <= i < |flags| ==> |flags[i]| <= MAX_FLAG_BYTES
    ensures |DropFlags(flags, words)| <= |flags| && Apart(DropFlags(flags, words))
    ensures forall i :: 0 <= i < |DropFlags(flags, words)| ==> DropFlags(flags, words)[i] in flags
  {
    if flags != [] {
      var rest := flags[1..];
      DropFlagsBounded(rest, words);
      var kept := DropFlags(rest, words);
      assert forall i :: 0 <= i < |rest| ==> rest[i] == flags[i + 1];
      forall i | 0 <= i < |kept| ensures !Same(flags[0], kept[i]) && kept[i] in flags {
        assert kept[i] in rest;
      }
      assert DropFlags(flags, words) == if Listed(words, flags[0]) then kept else [flags[0]] + kept;
    }
  }

  lemma {:induction false} FlagsStep(h: Host, name: string, args: seq<Argument>, s: State)
    requires Inv(s)
    ensures Inv(DoFlags(h, name, args, s).0) && Later(s, DoFlags(h, name, args, s).0)
  {
    var words := FlagWords(h, Strings(args));
    var env := Charge(s.env, FlagCost(words));
    if env.exhausted {
      EnvStep(s, env);
    } else {
      FlaggedStep(s, env, name, words);
      assert DoFlags(h, name, args, s).0 == s.(env := env, out := s.out.(flags := NewFlags(name, s.out.flags, words)));
    }
  }

  lemma {:induction false} FlaggedStep(s: State, env: Env, name: string, words: seq<string>)
    requires Inv(s) && Sticky(s.env, env)
    ensures var s' := s.(env := env, out := s.out.(flags := NewFlags(name, s.out.flags, words))); Inv(s') && Later(s, s')
  {
    NewFlagsBounded(name, s.out.flags, words);
  }

  lemma {:induction false} NewFlagsBounded(name: string, flags: seq<string>, words: seq<string>)
    requires |flags| <= MAX_FLAGS && Apart(flags) && forall i :: 0 <= i < |flags| ==> |flags[i]| <= MAX_FLAG_BYTES
    ensures var r := NewFlags(name, flags, words);
            |r| <= MAX_FLAGS && Apart(r) && forall i :: 0 <= i < |r| ==> |r[i]| <= MAX_FLAG_BYTES
  {
    if name == "setflag" {
      AddFlagsBounded([], words);
    } else if name == "addflag" {
      AddFlagsBounded(flags, words);
    } else {
      DropFlagsBounded(flags, words);
    }
  }

  lemma {:induction false} FiledBounded(out: Outcome, folder: string, create: bool)
    requires Bounded(out)
    ensures var out' := Filed(out, folder, create);
            |out'.fileinto| <= MAX_FILEINTO && NoDuplicates(out'.fileinto) && out'.creates <= Elements(out'.fileinto)
  {
    assert Elements(out.fileinto + [folder]) == Elements(out.fileinto) + {folder};
  }

  lemma {:induction false} FiledOnly(out: Outcome, folder: string, create: bool)
    ensures var out' := Filed(out, folder, create);
            && out' == out.(fileinto := out'.fileinto, creates := out'.creates, fileintoOver := out'.fileintoOver)
            && out'.fileinto != [] && out.fileinto <= out'.fileinto
  {
  }

  lemma {:induction false} FileIntoStep(h: Host, args: seq<Argument>, s: State)
    requires Inv(s)
    ensures Inv(DoFileInto(h, args, s).0) && Later(s, DoFileInto(h, args, s).0)
  {
    if FirstStr(args).Some? {
      var (folder, env) := Expand(h, FirstStr(args).value, s.env);
      if env.exhausted {
        EnvStep(s, env);
        assert DoFileInto(h, args, s).0 == s.(env := env);
      } else {
        FiledStep(s, env, folder, HasTag(args, "create"), HasTag(args, "copy"));
        assert DoFileInto(h, args, s).0 == FiledAs(s, env, folder, HasTag(args, "create"), HasTag(args, "copy"));
      }
    } else {
      EnvStep(s, s.env);
      assert DoFileInto(h, args, s).0 == s == s.(env := s.env);
    }
  }

  lemma {:induction false} FiledStep(s: State, env: Env, folder: string, create: bool, copy: bool)
    requires Inv(s) && Sticky(s.env, env)
    ensures Inv(FiledAs(s, env, folder, create, copy)) && Later(s, FiledAs(s, env, folder, create, copy))
  {
    FiledBounded(s.out, folder, create);
    FiledOnly(s.out, folder, create);
    FiledTold(s, env, Filed(s.out, folder, create), copy);
  }

  lemma {:induction false} FiledTold(s: State, env: Env, out': Outcome, copy: bool)
    requires Told(s) && Sticky(s.env, env)
    requires out' == s.out.(fileinto := out'.fileinto, creates := out'.creates, fileintoOver := out'.fileintoOver)
    requires out'.fileinto != [] && s.out.fileinto <= out'.fileinto
    ensures var s' := Did(s.(env := env, out := out', cancel := if copy then s.cancel else s.cancel.(local := true)), File(copy));
            Told(s') && Later(s, s')
  {
  }

  lemma {:induction false} ForwardedBounded(out: Outcome, target: string)
    requires Bounded(out)
    ensures Bounded(Forwarded(out, target))
    ensures Forwarded(out, target).redirects != [] && out.redirects <= Forwarded(out, target).redirects
  {
  }

  lemma {:induction false} RedirectStep(h: Host, args: seq<Argument>, s: State)
    requires Inv(s)
    ensures Inv(DoRedirect(h, args, s).0) && Later(s, DoRedirect(h, args, s).0)
  {
    if FirstStr(args).Some? {
      var (target, env) := Expand(h, FirstStr(args).value, s.env);
      if env.exhausted {
        EnvStep(s, env);
        assert DoRedirect(h, args, s).0 == s.(env := env);
      } else {
        ForwardedStep(s, env, target, HasTag(args, "copy"));
        assert DoRedirect(h, args, s).0 == ForwardedAs(s, env, target, HasTag(args, "copy"));
      }
    } else {
      EnvStep(s, s.env);
      assert DoRedirect(h, args, s).0 == s == s.(env := s.env);
    }
  }

  lemma {:induction false} StillListed(xs: seq<string>, list: seq<string>, target: string)
    requires Unlisted(xs, list) == []
    ensures Unlisted(xs, list + [target]) == []
  {
    if xs != [] {
      StillListed(Most(xs), list, target);
      var i :| 0 <= i < |list| && Same(list[i], Last(xs));
      assert (list + [target])[i] == list[i];
    }
  }

  lemma {:induction false} ForwardedCounted(out: Outcome, forwards: seq<string>, target: string)
    requires |out.redirects| <= MAX_REDIRECTS && Counted(out, forwards)
    ensures Counted(Forwarded(out, target), forwards + [target])
  {
    var more := forwards + [target];
    assert Most(more) == forwards && Last(more) == target;
    if !Listed(out.redirects, target) && |out.redirects| < MAX_REDIRECTS {
      StillListed(forwards, out.redirects, target);
      var list := out.redirects + [target];
      assert list[|out.redirects|] == target && Same(target, target);
    }
  }

  lemma {:induction false} ForwardedStep(s: State, env: Env, target: string, copy: bool)
    requires Inv(s) && Sticky(s.env, env)
    ensures Inv(ForwardedAs(s, env, target, copy)) && Later(s, ForwardedAs(s, env, target, copy))
  {
    ForwardedBounded(s.out, target);
    ForwardedCounted(s.out, s.forwards, target);
  }

  lemma {:induction false} DiscardStep(s: State)
    requires Inv(s)
    ensures Inv(DoDiscard(s)) && Later(s, DoDiscard(s))
    ensures Inv(Did(Kept(s), Keep)) && Later(s, Did(Kept(s), Keep))
  {
  }

  lemma {:induction false} RejectStep(h: Host, args: seq<Argument>, s: State)
    requires Inv(s)
    ensures Inv(DoReject(h, args, s).0) && Later(s, DoReject(h, args, s).0)
  {
    if s.env.overCaps {
      SparedStep(s);
      assert DoReject(h, args, s).0 == Did(Kept(s), Spare);
    } else if FirstStr(args).Some? {
      var (reason, env) := Expand(h, FirstStr(args).value, s.env);
      if env.exhausted {
        EnvStep(s, env);
        assert DoReject(h, args, s).0 == s.(env := env);
      } else {
        RejectedStep(s, env, reason);
      }
    } else {
      EnvStep(s, s.env);
      assert DoReject(h, args, s).0 == s == s.(env := s.env);
    }
  }

  lemma {:induction false} SparedStep(s: State)
    requires Inv(s)
    ensures Inv(Did(Kept(s), Spare)) && Later(s, Did(Kept(s), Spare))
  {
  }

  lemma {:induction false} RejectedStep(s: State, env: Env, reason: string)
    requires Inv(s) && Sticky(s.env, env) && !s.env.overCaps
    ensures var s' := Did(s.(env := env, out := s.out.(reject := Some(reason)), cancel := s.cancel.(external := true)), Reject);
            Inv(s') && Later(s, s')
  {
  }

  lemma {:induction false} EnvStep(s: State, e: Env)
    requires Inv(s) && Sticky(s.env, e)
    ensures Inv(s.(env := e)) && Later(s, s.(env := e))
  {
  }

  lemma {:induction false} SetSticks(h: Host, args: seq<Argument>, s: State)
    requires Sound(h)
    ensures DoSet(h, args, s).0 == s.(env := DoSet(h, args, s).0.env) && Sticky(s.env, DoSet(h, args, s).0.env)
  {
  }

  lemma {:induction false} SetStep(h: Host, args: seq<Argument>, s: State)
    requires Sound(h) && Inv(s)
    ensures Inv(DoSet(h, args, s).0) && Later(s, DoSet(h, args, s).0)
  {
    SetSticks(h, args, s);
    EnvStep(s, DoSet(h, args, s).0.env);
  }

  lemma {:induction false} VacationStep(s: State, vacation: Option<Vacation>)
    requires Inv(s)
    ensures var s' := s.(out := s.out.(vacation := vacation)); Inv(s') && Later(s, s')
  {
  }

  /** One action keeps the invariant and undoes nothing. */
  lemma {:induction false} ActStep(h: Host, name: string, args: seq<Argument>, s: State)
    requires Sound(h) && Inv(s)
    ensures Inv(Act(h, name, args, s).0) && Later(s, Act(h, name, args, s).0)
  {
    if name == "fileinto" {
      FileIntoStep(h, args, s);
    } else if name == "redirect" {
      RedirectStep(h, args, s);
    } else if name == "setflag" || name == "addflag" || name == "removeflag" {
      FlagsStep(h, name, args, s);
    } else if name == "keep" || name == "discard" {
      DiscardStep(s);
    } else if name == "reject" || name == "ereject" {
      RejectStep(h, args, s);
    } else if name == "set" {
      SetStep(h, args, s);
    } else if name == "vacation" {
      VacationStep(s, VacationOf(args, None, NO_VACATION));
    } else {
      assert Act(h, name, args, s).0 == s;
    }
  }

  /** Every run keeps the invariant and undoes nothing; out of budget it decides nothing. */
  lemma {:induction false} ExecStep(h: Host, cs: seq<Command>, s: State)
    requires Sound(h) && Inv(s)
    ensures Inv(Exec(h, cs, s).0) && Later(s, Exec(h, cs, s).0)
    ensures s.env.exhausted ==> Exec(h, cs, s).0.out == s.out && Exec(h, cs, s).0.cancel == s.cancel
    decreases cs
  {
    if cs != [] {
      var s1 := s.(env := Step(s.env));
      EnvStep(s, s1.env);
      if !s1.env.exhausted {
        var r := ExecOne(h, cs[0], s1);
        ExecOneStep(h, cs[0], s1);
        LaterChains(s, s1, r.0);
        if !r.1 {
          ExecStep(h, cs[1..], r.0);
          LaterChains(s, r.0, Exec(h, cs, s).0);
        }
      }
    }
  }

  lemma {:induction false} ExecOneStep(h: Host, c: Command, s: State)
    requires Sound(h) && Inv(s)
    ensures Inv(ExecOne(h, c, s).0) && Later(s, ExecOne(h, c, s).0)
    decreases c
  {
    match c
    case Action(name, args) => ActStep(h, name, args, s);
    case If(branches, otherwise) =>
      ExecBranchesStep(h, branches, s);
      var (s1, stop, taken) := ExecBranches(h, branches, s);
      if !stop && !taken && otherwise.Else? {
        ExecStep(h, otherwise.body, s1);
        LaterChains(s, s1, ExecElse(h, otherwise, s1).0);
      }
  }

  lemma {:induction false} ExecBranchesStep(h: Host, bs: seq<Branch>, s: State)
    requires Sound(h) && Inv(s)
    ensures Inv(ExecBranches(h, bs, s).0) && Later(s, ExecBranches(h, bs, s).0)
    decreases bs
  {
    if bs != [] {
      var (holds, env) := EvalTest(h, bs[0].test, s.env);
      TestSticks(h, bs[0].test, s.env);
      var s1 := s.(env := env);
      EnvStep(s, env);
      if holds {
        ExecStep(h, bs[0].body, s1);
      } else {
        ExecBranchesStep(h, bs[1..], s1);
      }
      LaterChains(s, s1, ExecBranches(h, bs, s).0);
    }
  }

  // ----- What a whole run comes to -----

  /** No deed cancels the implicit keep. */
  predicate ImplicitKeep(deeds: set<Deed>) {
    Discard !in deeds && Reject !in deeds && File(false) !in deeds && Forward(false) !in deeds
  }

  /** No mail is lost unsaid: it is kept, filed, forwarded, refused, or was discarded on purpose. */
  lemma {:induction false} NothingIsLost(h: Host, script: seq<Command>)
    requires Sound(h)
    ensures var o := Evaluate(h, script);
            o.keep || o.fileinto != [] || o.redirects != [] || o.reject.Some? || o.discarded
  {
    ExecStep(h, script, START);
  }

  /** When a message is kept: told to, spared, rescued from an aborted run, or no deed cancelled it. */
  lemma {:induction false} KeptExactlyWhen(h: Host, script: seq<Command>)
    requires Sound(h)
    ensures var s := Exec(h, script, START).0;
            Evaluate(h, script).keep <==>
              || Keep in s.deeds || Spare in s.deeds
              || AnyDropped(Evaluate(h, script).dropped)
              || ImplicitKeep(s.deeds)
  {
    ExecStep(h, script, START);
    DroppedOnlyWhenAborted(h, script);
  }

  lemma {:induction false} DroppedOnlyWhenAborted(h: Host, script: seq<Command>)
    requires Sound(h)
    ensures !Evaluate(h, script).aborted ==> !AnyDropped(Evaluate(h, script).dropped)
  {
    ExecStep(h, script, START);
  }

  /** A run that overspent sends nothing; if it had asked to, the message is kept and not discarded. */
  lemma {:induction false} AbortedSendsNothing(h: Host, script: seq<Command>)
    requires Sound(h) && Evaluate(h, script).aborted
    ensures var o := Evaluate(h, script);
            var s := Exec(h, script, START).0;
            && o.redirects == [] && o.reject.None? && o.vacation.None?
            && o.dropped == Dropped(|s.out.redirects|, s.out.reject.Some?, s.out.vacation.Some?)
            && (AnyDropped(o.dropped) ==> o.keep && !o.discarded)
            && (!AnyDropped(o.dropped) ==> o.discarded == s.out.discarded)
            && o.fileinto == s.out.fileinto && o.flags == s.out.flags
  {
    ExecStep(h, script, START);
  }

  /** Once a pattern was over the caps, no later command discards or rejects; one that would, keeps. */
  lemma {:induction false} OverCapsSpares(h: Host, cs: seq<Command>, s: State)
    requires Sound(h) && Inv(s) && s.env.overCaps
    ensures var s' := Exec(h, cs, s).0;
            && s'.out.discarded == s.out.discarded && s'.out.reject == s.out.reject
            && (Spare in s'.deeds ==> s'.out.keep)
    ensures forall name, args :: name in {"discard", "reject", "ereject"} ==>
              var r := Act(h, name, args, s); Spare in r.0.deeds && r.0.out.keep && !r.1
  {
    ExecStep(h, cs, s);
  }

  /** Forwards, folders and flags stay within their limits, without repeats. */
  lemma {:induction false} OutcomeIsBounded(h: Host, script: seq<Command>)
    requires Sound(h)
    ensures Bounded(Evaluate(h, script))
  {
    ExecStep(h, script, START);
  }

  // ----- Forwards over the limit -----

  /** Addresses with the case of ASCII letters dropped. */
  function Folded(xs: seq<string>): (r: seq<string>)
    ensures |r| == |xs|
  {
    seq(|xs|, i requires 0 <= i < |xs| => Text.Lower(xs[i]))
  }

  /** The addresses a run named after the first four different ones. */
  function OverLimit(h: Host, script: seq<Command>): seq<string> {
    var forwards := Exec(h, script, START).0.forwards;
    Unlisted(forwards, FirstFour(forwards))
  }

  /** For every script, the count is of the `redirect` commands carried out to an address past the first four. */
  lemma {:induction false} OverLimitIsCounted(h: Host, script: seq<Command>)
    requires Sound(h)
    ensures Evaluate(h, script).redirectsOver == |OverLimit(h, script)|
  {
    ExecStep(h, script, START);
  }

  lemma {:induction false} AsManyAsDifferent<T>(s: seq<T>)
    ensures |s| == |Elements(s)| <==> NoDuplicates(s)
    ensures |Elements(s)| <= |s|
  {
    if s != [] {
      AsManyAsDifferent(Most(s));
      assert Elements(s) == Elements(Most(s)) + {Last(s)};
      assert s == Most(s) + [Last(s)];
      if Last(s) in Most(s) {
        var i :| 0 <= i < |Most(s)| && Most(s)[i] == Last(s);
        assert s[i] == s[|s| - 1];
      }
    }
  }

  /** It is the number of different addresses past the limit exactly when none of them was named twice. */
  lemma {:induction false} OverLimitCountsDifferentExactlyWhen(h: Host, script: seq<Command>)
    requires Sound(h)
    ensures Evaluate(h, script).redirectsOver == |Elements(Folded(OverLimit(h, script)))|
       <==> NoDuplicates(Folded(OverLimit(h, script)))
  {
    OverLimitIsCounted(h, script);
    AsManyAsDifferent(Folded(OverLimit(h, script)));
  }

  /** A host without variables. */
  const PLAIN := Host((t: Test, e: Env) => (false, e), (text: string, e: Env) => text,
                      (name: string, value: string, e: Env) => e, (text: string) => [text])

  /** A script of nothing but forwards. */
  function Forwarding(targets: seq<string>): (cs: seq<Command>)
    ensures |cs| == |targets|
  {
    seq(|targets|, i requires 0 <= i < |targets| => Action("redirect", [Str(targets[i])]))
  }

  function Size(xs: seq<string>): nat {
    if xs == [] then 0 else |xs[0]| + Size(xs[1..])
  }

  lemma {:induction false} OneForward(target: string, s: State)
    requires !s.env.exhausted && s.env.steps < MAX_STEPS && s.env.work + 2 * |target| <= MAX_WORK
    ensures var s1 := s.(env := Step(s.env));
            var r := ExecOne(PLAIN, Action("redirect", [Str(target)]), s1);
            && !s1.env.exhausted && !r.1 && r.0.forwards == s.forwards + [target]
            && r.0.env == s.env.(steps := s.env.steps + 1, work := s.env.work + 2 * |target|)
  {
  }

  lemma {:induction false} ForwardsAreCarriedOut(targets: seq<string>, s: State)
    requires !s.env.exhausted && s.env.steps + |targets| <= MAX_STEPS && s.env.work + 2 * Size(targets) <= MAX_WORK
    ensures Exec(PLAIN, Forwarding(targets), s).0.forwards == s.forwards + targets
    decreases |targets|
  {
    if targets != [] {
      OneForward(targets[0], s);
      var cs := Forwarding(targets);
      assert cs[1..] == Forwarding(targets[1..]);
      var s1 := ExecOne(PLAIN, cs[0], s.(env := Step(s.env))).0;
      ForwardsAreCarriedOut(targets[1..], s1);
      assert s.forwards + targets == (s.forwards + [targets[0]]) + targets[1..];
    }
  }

  lemma {:induction false} ApartAreKept(xs: seq<string>)
    requires Apart(xs) && |xs| <= MAX_REDIRECTS
    ensures FirstFour(xs) == xs && Unlisted(xs, xs) == []
  {
    if xs != [] {
      var front := Most(xs);
      forall i, j | 0 <= i < j < |front|
        ensures !Same(front[i], front[j])
      {
        assert front[i] == xs[i] && front[j] == xs[j];
      }
      ApartAreKept(front);
      assert xs == front + [Last(xs)];
      StillListed(front, front, Last(xs));
      assert Same(xs[|xs| - 1], Last(xs));
    }
  }

  lemma {:induction false} TwicePastTheFourth(four: seq<string>, x: string)
    requires |four| == MAX_REDIRECTS && Apart(four) && !Listed(four, x)
    ensures FirstFour(four + [x] + [x]) == four && Unlisted(four + [x] + [x], four) == [x, x]
  {
    ApartAreKept(four);
    var five := four + [x];
    assert Most(five) == four && Most(five + [x]) == five;
  }

  /** Four different addresses and a fifth named twice: the count is 2, of one address. */
  lemma {:induction false} FifthAddressTwice(four: seq<string>, x: string)
    requires |four| == MAX_REDIRECTS && Apart(four) && !Listed(four, x)
    requires 2 * Size(four + [x] + [x]) <= MAX_WORK
    ensures var script := Forwarding(four + [x] + [x]);
            Evaluate(PLAIN, script).redirectsOver == 2 && OverLimit(PLAIN, script) == [x, x]
  {
    var targets := four + [x] + [x];
    ForwardsAreCarriedOut(targets, START);
    OverLimitIsCounted(PLAIN, Forwarding(targets));
    assert START.forwards + targets == targets;
    TwicePastTheFourth(four, x);
  }

  lemma {:induction false} OctetsDiffer(x: string, y: string)
    requires |x| == 1 && |y| == 1 && 'a' <= x[0] < y[0] <= 'z'
    ensures !Same(x, y)
  {
    assert Text.Lower(x)[0] == x[0] && Text.Lower(y)[0] == y[0];
  }

  lemma {:induction false} SixOctets(xs: seq<string>)
    requires |xs| == 6 && forall i :: 0 <= i < |xs| ==> |xs[i]| == 1
    ensures Size(xs) == 6
  {
    var rest := xs[1..][1..][1..];
    assert Size(xs) == 1 + Size(xs[1..]) && Size(xs[1..]) == 1 + Size(xs[1..][1..]);
    assert Size(xs[1..][1..]) == 1 + Size(rest);
    assert Size(rest) == 1 + Size(rest[1..]) && Size(rest[1..]) == 1 + Size(rest[1..][1..]);
    assert rest[1..][1..][1..] == [];
  }

  /** Such as `a`, `b`, `c`, `d` and `e` twice. */
  lemma {:induction false} FiveLetters(four: seq<string>, x: string)
    requires four == ["a", "b", "c", "d"] && x == "e"
    ensures |four| == MAX_REDIRECTS && Apart(four) && !Listed(four, x) && Size(four + [x] + [x]) == 6
  {
    forall i, j | 0 <= i < j < |four|
      ensures !Same(four[i], four[j])
    {
      OctetsDiffer(four[i], four[j]);
    }
    forall i | 0 <= i < |four|
      ensures !Same(four[i], x)
    {
      OctetsDiffer(four[i], x);
    }
    SixOctets(four + [x] + [x]);
  }

  // ----- A script that names no sending action sends nothing -----

  /** Nothing is sent in `s'` that was not in `s`. */
  predicate Silent(s: State, s': State) {
    s'.out.redirects == s.out.redirects && s'.out.reject == s.out.reject && s'.out.vacation == s.out.vacation
  }

  lemma {:induction false} SilentAct(h: Host, name: string, args: seq<Argument>, s: State)
    requires !Outward(name)
    ensures Silent(s, Act(h, name, args, s).0)
  {
    if name == "fileinto" {
      SilentFile(h, args, s);
    } else if name == "setflag" || name == "addflag" || name == "removeflag" {
      assert Silent(s, DoFlags(h, name, args, s).0);
    } else if name == "set" {
      assert Silent(s, DoSet(h, args, s).0);
    }
  }

  lemma {:induction false} SilentFile(h: Host, args: seq<Argument>, s: State)
    ensures Silent(s, DoFileInto(h, args, s).0)
  {
    if FirstStr(args).Some? {
      FiledOnly(s.out, Expand(h, FirstStr(args).value, s.env).0, HasTag(args, "create"));
    }
  }

  ghost predicate Quiet(vs: multiset<Visit>) {
    forall v :: v in vs && v.OfAction? ==> !Outward(v.name)
  }

  lemma {:induction false} QuietParts(a: multiset<Visit>, b: multiset<Visit>)
    requires Quiet(a + b)
    ensures Quiet(a) && Quiet(b)
  {
    forall v | v in a || v in b ensures v in a + b {
    }
  }

  lemma {:induction false} SilentExec(h: Host, cs: seq<Command>, s: State)
    requires Quiet(Visits(cs))
    ensures Silent(s, Exec(h, cs, s).0)
    decreases cs
  {
    if cs != [] {
      QuietParts(CommandVisits(cs[0]), Visits(cs[1..]));
      var s1 := s.(env := Step(s.env));
      if !s1.env.exhausted {
        SilentOne(h, cs[0], s1);
        SilentExec(h, cs[1..], ExecOne(h, cs[0], s1).0);
      }
    }
  }

  lemma {:induction false} SilentOne(h: Host, c: Command, s: State)
    requires Quiet(CommandVisits(c))
    ensures Silent(s, ExecOne(h, c, s).0)
    decreases c
  {
    match c
    case Action(name, args) =>
      assert OfAction(name, args) in CommandVisits(c);
      SilentAct(h, name, args, s);
    case If(branches, otherwise) =>
      QuietParts(BranchVisits(branches), ElseVisits(otherwise));
      SilentBranches(h, branches, s);
      if otherwise.Else? {
        SilentExec(h, otherwise.body, ExecBranches(h, branches, s).0);
      }
  }

  lemma {:induction false} SilentBranches(h: Host, bs: seq<Branch>, s: State)
    requires Quiet(BranchVisits(bs))
    ensures Silent(s, ExecBranches(h, bs, s).0)
    decreases bs
  {
    if bs != [] {
      QuietParts(TestVisits(bs[0].test) + Visits(bs[0].body), BranchVisits(bs[1..]));
      QuietParts(TestVisits(bs[0].test), Visits(bs[0].body));
      var s1 := s.(env := EvalTest(h, bs[0].test, s.env).1);
      SilentExec(h, bs[0].body, s1);
      SilentBranches(h, bs[1..], s1);
    }
  }

  /** A script the upload check takes for silent forwards, refuses and answers nothing, whatever the message. */
  lemma {:induction false} SilentScript(h: Host, script: seq<Command>)
    requires !Sends(script)
    ensures var o := Evaluate(h, script); o.redirects == [] && o.reject.None? && o.vacation.None?
  {
    SilentExec(h, script, START);
  }
}
