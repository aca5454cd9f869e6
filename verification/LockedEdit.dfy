/**
 * Editing a file that several processes share: lock, read, change, write
 * beside it, rename over it, sync the directory, refresh the copy in memory,
 * unlock. Every interleaving of threads is a run of the steps below, and a
 * process or the machine may die between any two of them.
 */
module LockedEdit {
  import opened Basics

  /** What the file holds and how it is changed. An edit of type `O` may refuse. */
  datatype Code<!S, !O> = Code(parse: string -> Option<S>, serialize: S -> Option<string>,
                             initial: S, mutate: (O, S) -> Option<S>)

  /** The state a file stands for; a missing file is the initial state. */
  function Parsed<S, O>(code: Code<S, O>, file: Option<string>): Option<S> {
    match file
    case None => Some(code.initial)
    case Some(text) => code.parse(text)
  }

  /** The state and the text after one edit of a file, or nothing when it cannot be read, changed or written. */
  function Edited<S, O>(code: Code<S, O>, op: O, file: Option<string>): Option<(S, string)> {
    match Parsed(code, file)
    case None => None
    case Some(s) =>
      match code.mutate(op, s)
      case None => None
      case Some(s') =>
        match code.serialize(s')
        case None => None
        case Some(text) => Some((s', text))
  }

  // ----- The world -----

  datatype Who = Who(process: nat, thread: nat)

  datatype Phase<S, O> =
    | Locked(op: O)
    | Loaded(op: O, state: S)
    | Changed(op: O, state: S)
    | Staged(op: O, state: S, text: string)
    | Renamed(op: O, state: S)
    | Synced(op: O, state: S)
    | Committed

  /** A process's copy of the file, and how many edits it includes. */
  datatype Mirror<S> = Mirror(state: S, version: nat)

  /**
   * `log` is the edits whose rename took effect, in order, and `durable` how
   * many of them a power failure cannot undo. `told` is the edits whose
   * authors were told of success, by the version each one made, and `failed`
   * those whose authors were given an error.
   */
  datatype World<S, O> = World(file: Option<string>, holder: Option<Who>, phases: map<Who, Phase<S, O>>,
                               mirrors: map<nat, Mirror<S>>, log: seq<O>, durable: nat, told: map<nat, O>, failed: seq<O>)

  datatype Step<O> =
    | Acquire(who: Who, op: O)
    | Read(who: Who, ok: bool)
    | Change(who: Who)
    | Stage(who: Who, ok: bool)
    | Rename(who: Who, ok: bool)
    | Sync(who: Who, ok: bool)
    | Commit(who: Who)
    | Release(who: Who)
    | Load(process: nat)
    | Kill(process: nat)
    | PowerLoss(kept: nat)

  predicate Enabled<S, O>(w: World<S, O>, step: Step<O>) {
    match step
    case Acquire(who, _) => w.holder.None? && who !in w.phases
    case Read(who, _) => who in w.phases && w.phases[who].Locked?
    case Change(who) => who in w.phases && w.phases[who].Loaded?
    case Stage(who, _) => who in w.phases && w.phases[who].Changed?
    case Rename(who, _) => who in w.phases && w.phases[who].Staged?
    case Sync(who, _) => who in w.phases && w.phases[who].Renamed?
    case Commit(who) => who in w.phases && w.phases[who].Synced?
    case Release(who) => who in w.phases && w.phases[who].Committed?
    case Load(process) => process !in w.mirrors
    case Kill(_) => true
    case PowerLoss(kept) => w.durable <= kept <= |w.log|
  }

  /** A thread returns: its guard drops, which unlocks. */
  function Left<S, O>(w: World<S, O>, who: Who): World<S, O> {
    w.(holder := None, phases := w.phases - {who})
  }

  /** A thread returns an error. */
  function Failed<S, O>(w: World<S, O>, who: Who, op: O): World<S, O> {
    Left(w, who).(failed := w.failed + [op])
  }

  function Moved<S, O>(w: World<S, O>, who: Who, phase: Phase<S, O>): World<S, O> {
    w.(phases := w.phases[who := phase])
  }

  function Text<S, O>(code: Code<S, O>, log: seq<O>, first: Option<string>): Option<string> {
    if log == [] then first
    else match Edited(code, Last(log), Text(code, Most(log), first))
      case None => None
      case Some((_, text)) => Some(text)
  }

  function Next<S, O>(code: Code<S, O>, first: Option<string>, w: World<S, O>, step: Step<O>): World<S, O>
    requires Enabled(w, step)
  {
    match step
    case Acquire(who, op) => Moved(w, who, Locked(op)).(holder := Some(who))
    case Read(who, ok) =>
      (match Parsed(code, w.file)
       case None => Failed(w, who, w.phases[who].op)
       case Some(s) => if ok then Moved(w, who, Loaded(w.phases[who].op, s)) else Failed(w, who, w.phases[who].op))
    case Change(who) =>
      (match code.mutate(w.phases[who].op, w.phases[who].state)
       case None => Failed(w, who, w.phases[who].op)
       case Some(s) => Moved(w, who, Changed(w.phases[who].op, s)))
    case Stage(who, ok) =>
      (match code.serialize(w.phases[who].state)
       case None => Failed(w, who, w.phases[who].op)
       case Some(text) =>
         if ok then Moved(w, who, Staged(w.phases[who].op, w.phases[who].state, text))
         else Failed(w, who, w.phases[who].op))
    case Rename(who, ok) =>
      var p := w.phases[who];
      if ok then Moved(w, who, Renamed(p.op, p.state)).(file := Some(p.text), log := w.log + [p.op])
      else Failed(w, who, p.op)
    case Sync(who, ok) =>
      var p := w.phases[who];
      if ok then Moved(w, who, Synced(p.op, p.state)).(durable := |w.log|) else Failed(w, who, p.op)
    case Commit(who) =>
      Moved(w, who, Committed).(mirrors := w.mirrors[who.process := Mirror(w.phases[who].state, |w.log|)],
                                told := w.told[|w.log| := w.phases[who].op])
    case Release(who) => Left(w, who)
    case Load(process) =>
      (match Parsed(code, w.file)
       case None => w
       case Some(s) => w.(mirrors := w.mirrors[process := Mirror(s, |w.log|)]))
    case Kill(process) =>
      w.(holder := if w.holder.Some? && w.holder.value.process == process then None else w.holder,
         phases := map who | who in w.phases && who.process != process :: w.phases[who],
         mirrors := w.mirrors - {process})
    case PowerLoss(kept) =>
      w.(file := Text(code, w.log[..kept], first), log := w.log[..kept], durable := kept,
         holder := None, phases := map[], mirrors := map[])
  }

  /** A run of steps from a quiet world with the file `first`. */
  function Quiet<S, O>(first: Option<string>): World<S, O> {
    World(first, None, map[], map[], [], 0, map[], [])
  }

  ghost predicate Run<S, O>(code: Code<S, O>, first: Option<string>, ws: seq<World<S, O>>, steps: seq<Step<O>>) {
    && |ws| == |steps| + 1
    && ws[0] == Quiet(first)
    && forall i :: 0 <= i < |steps| ==> Enabled(ws[i], steps[i]) && ws[i + 1] == Next(code, first, ws[i], steps[i])
  }

  // ----- The invariant -----

  /** Every edit in the log went through when it was made. */
  predicate Sensible<S, O>(code: Code<S, O>, log: seq<O>, first: Option<string>) {
    log == [] || (Sensible(code, Most(log), first) && Edited(code, Last(log), Text(code, Most(log), first)).Some?)
  }

  /** The state after the edits of a log. */
  function After<S, O>(code: Code<S, O>, log: seq<O>, first: Option<string>): Option<S> {
    if log == [] then Parsed(code, first)
    else match Edited(code, Last(log), Text(code, Most(log), first))
      case None => None
      case Some((s, _)) => Some(s)
  }

  /** What a thread holds is what its edit makes of the file as it is now. */
  predicate Working<S(==), O(==)>(code: Code<S, O>, first: Option<string>, w: World<S, O>, p: Phase<S, O>) {
    match p
    case Locked(_) => true
    case Loaded(op, s) => Parsed(code, w.file) == Some(s)
    case Changed(op, s) => Parsed(code, w.file).Some? && code.mutate(op, Parsed(code, w.file).value) == Some(s)
    case Staged(op, s, text) => Edited(code, op, w.file) == Some((s, text))
    case Renamed(op, s) => After(code, w.log, first) == Some(s) && w.log != [] && Last(w.log) == op
    case Synced(op, s) =>
      After(code, w.log, first) == Some(s) && w.log != [] && Last(w.log) == op && w.durable == |w.log|
    case Committed => true
  }

  /** A copy in memory is the state after as many edits as it says, as edited or as read back. */
  predicate Faithful<S(==), O>(code: Code<S, O>, first: Option<string>, w: World<S, O>, m: Mirror<S>) {
    && m.version <= |w.log|
    && (|| After(code, w.log[..m.version], first) == Some(m.state)
        || Parsed(code, Text(code, w.log[..m.version], first)) == Some(m.state))
  }

  /** Whoever was told of success has their edit where they were told, out of reach of a power failure. */
  ghost predicate Recorded<S, O>(w: World<S, O>) {
    w.durable <= |w.log| && forall v :: v in w.told ==> 1 <= v <= w.durable && w.log[v - 1] == w.told[v]
  }

  /** Only the holder of the lock is at work. */
  ghost predicate Held<S, O>(code: Code<S, O>, first: Option<string>, w: World<S, O>) {
    && (forall who :: who in w.phases ==> w.holder == Some(who) && Working(code, first, w, w.phases[who]))
    && (w.holder.Some? ==> w.holder.value in w.phases)
  }

  ghost predicate Mirrored<S, O>(code: Code<S, O>, first: Option<string>, w: World<S, O>) {
    forall p :: p in w.mirrors ==> Faithful(code, first, w, w.mirrors[p])
  }

  ghost predicate Inv<S, O>(code: Code<S, O>, first: Option<string>, w: World<S, O>) {
    && w.file == Text(code, w.log, first) && Sensible(code, w.log, first)
    && Recorded(w) && Held(code, first, w) && Mirrored(code, first, w)
  }

  lemma {:induction false} LogGrows<S, O>(code: Code<S, O>, first: Option<string>, log: seq<O>, op: O, s: S, text: string)
    requires Sensible(code, log, first) && Edited(code, op, Text(code, log, first)) == Some((s, text))
    ensures Sensible(code, log + [op], first)
    ensures Text(code, log + [op], first) == Some(text) && After(code, log + [op], first) == Some(s)
  {
    assert Most(log + [op]) == log;
  }

  lemma {:induction false} LogShrinks<S, O>(code: Code<S, O>, first: Option<string>, log: seq<O>, kept: nat)
    requires Sensible(code, log, first) && kept <= |log|
    ensures Sensible(code, log[..kept], first)
    decreases |log| - kept
  {
    if kept == |log| {
      assert log[..kept] == log;
    } else {
      LogShrinks(code, first, log, kept + 1);
      assert Most(log[..kept + 1]) == log[..kept];
    }
  }

  /** Copies stay faithful when the log grows or nothing of it is lost. */
  lemma {:induction false} StillFaithful<S, O>(code: Code<S, O>, first: Option<string>, w: World<S, O>, w': World<S, O>, m: Mirror<S>)
    requires Faithful(code, first, w, m) && w.log <= w'.log
    ensures Faithful(code, first, w', m)
  {
    assert w.log[..m.version] == w'.log[..m.version];
  }

  lemma {:induction false} StillMirrored<S, O>(code: Code<S, O>, first: Option<string>, w: World<S, O>, w': World<S, O>)
    requires Mirrored(code, first, w) && w.log <= w'.log
    requires forall p :: p in w'.mirrors ==> (p in w.mirrors && w'.mirrors[p] == w.mirrors[p]) || Faithful(code, first, w', w'.mirrors[p])
    ensures Mirrored(code, first, w')
  {
    forall p | p in w'.mirrors
      ensures Faithful(code, first, w', w'.mirrors[p])
    {
      if p in w.mirrors && w'.mirrors[p] == w.mirrors[p] {
        StillFaithful(code, first, w, w', w.mirrors[p]);
      }
    }
  }

  lemma {:induction false} RenameKeepsInv<S, O>(code: Code<S, O>, first: Option<string>, w: World<S, O>, who: Who)
    requires Inv(code, first, w) && Enabled(w, Rename(who, true))
    ensures Inv(code, first, Next(code, first, w, Rename(who, true)))
  {
    var p := w.phases[who];
    var w' := Next(code, first, w, Rename(who, true));
    LogGrows(code, first, w.log, p.op, p.state, p.text);
    StillMirrored(code, first, w, w');
    assert Held(code, first, w');
    assert Recorded(w');
  }

  lemma {:induction false} CommitKeepsInv<S, O>(code: Code<S, O>, first: Option<string>, w: World<S, O>, who: Who)
    requires Inv(code, first, w) && Enabled(w, Commit(who))
    ensures Inv(code, first, Next(code, first, w, Commit(who)))
  {
    var w' := Next(code, first, w, Commit(who));
    assert w.log[..|w.log|] == w.log;
    StillMirrored(code, first, w, w');
    assert Held(code, first, w');
    assert Recorded(w');
  }

  lemma {:induction false} LoadKeepsInv<S, O>(code: Code<S, O>, first: Option<string>, w: World<S, O>, process: nat)
    requires Inv(code, first, w) && Enabled(w, Load(process))
    ensures Inv(code, first, Next(code, first, w, Load(process)))
  {
    var w' := Next(code, first, w, Load(process));
    assert w.log[..|w.log|] == w.log;
    StillMirrored(code, first, w, w');
    assert Held(code, first, w');
    assert Recorded(w');
  }

  /** A thread moves on, or leaves, without touching the file, the log or a copy. */
  predicate Quietly<O>(step: Step<O>) {
    (!step.Rename? || !step.ok) && !step.Commit? && !step.Load? && !step.Kill? && !step.PowerLoss?
  }

  lemma {:induction false} QuietStepHolds<S, O>(code: Code<S, O>, first: Option<string>, w: World<S, O>, step: Step<O>)
    requires Held(code, first, w) && Enabled(w, step) && Quietly(step)
    ensures Held(code, first, Next(code, first, w, step))
  {
    var w' := Next(code, first, w, step);
    if step.Acquire? {
      assert w.phases == map[];
    } else {
      assert w.holder == Some(step.who) && Working(code, first, w, w.phases[step.who]);
      assert w.phases.Keys == {step.who};
    }
  }

  lemma {:induction false} QuietStepKeepsInv<S, O>(code: Code<S, O>, first: Option<string>, w: World<S, O>, step: Step<O>)
    requires Inv(code, first, w) && Enabled(w, step) && Quietly(step)
    ensures Inv(code, first, Next(code, first, w, step))
  {
    QuietStepHolds(code, first, w, step);
    QuietStepChangesLittle(code, first, w, step);
    QuietWorldKeepsInv(code, first, w, Next(code, first, w, step));
  }

  lemma {:induction false} QuietWorldKeepsInv<S, O>(code: Code<S, O>, first: Option<string>, w: World<S, O>, w': World<S, O>)
    requires Inv(code, first, w) && Held(code, first, w')
    requires w'.log == w.log && w'.file == w.file && w'.mirrors == w.mirrors && w'.told == w.told
    requires w'.durable == w.durable || w'.durable == |w.log|
    ensures Inv(code, first, w')
  {
    StillMirrored(code, first, w, w');
    assert Recorded(w');
  }

  lemma {:induction false} QuietStepChangesLittle<S, O>(code: Code<S, O>, first: Option<string>, w: World<S, O>, step: Step<O>)
    requires Enabled(w, step) && Quietly(step)
    ensures var w' := Next(code, first, w, step);
            && w'.log == w.log && w'.file == w.file && w'.mirrors == w.mirrors && w'.told == w.told
            && (w'.durable == w.durable || w'.durable == |w.log|)
  {
  }

  lemma {:induction false} KillKeepsInv<S, O>(code: Code<S, O>, first: Option<string>, w: World<S, O>, process: nat)
    requires Inv(code, first, w)
    ensures Inv(code, first, Next(code, first, w, Kill(process)))
  {
    var w' := Next(code, first, w, Kill(process));
    StillMirrored(code, first, w, w');
    assert Held(code, first, w');
    assert Recorded(w');
  }

  lemma {:induction false} PowerLossKeepsInv<S, O>(code: Code<S, O>, first: Option<string>, w: World<S, O>, kept: nat)
    requires Inv(code, first, w) && w.durable <= kept <= |w.log|
    ensures Inv(code, first, Next(code, first, w, PowerLoss(kept)))
  {
    var w' := Next(code, first, w, PowerLoss(kept));
    LogShrinks(code, first, w.log, kept);
    assert Held(code, first, w');
    assert Recorded(w');
  }

  lemma {:induction false} StepKeepsInv<S, O>(code: Code<S, O>, first: Option<string>, w: World<S, O>, step: Step<O>)
    requires Inv(code, first, w) && Enabled(w, step)
    ensures Inv(code, first, Next(code, first, w, step))
  {
    if Quietly(step) {
      QuietStepKeepsInv(code, first, w, step);
    } else {
      match step
      case Rename(who, _) => RenameKeepsInv(code, first, w, who);
      case Commit(who) => CommitKeepsInv(code, first, w, who);
      case Load(process) => LoadKeepsInv(code, first, w, process);
      case Kill(process) => KillKeepsInv(code, first, w, process);
      case PowerLoss(kept) => PowerLossKeepsInv(code, first, w, kept);
    }
  }

  // ----- Main results -----

  lemma {:induction false} RunKeepsInv<S, O>(code: Code<S, O>, first: Option<string>, ws: seq<World<S, O>>, steps: seq<Step<O>>, i: nat)
    requires Run(code, first, ws, steps) && i < |ws|
    ensures Inv(code, first, ws[i])
  {
    if i > 0 {
      RunKeepsInv(code, first, ws, steps, i - 1);
      StepKeepsInv(code, first, ws[i - 1], steps[i - 1]);
    }
  }

  /** In every run the file is the committed edits applied one after another, each to the file the last one left. */
  lemma {:induction false} FileIsTheLog<S, O>(code: Code<S, O>, first: Option<string>, ws: seq<World<S, O>>, steps: seq<Step<O>>, i: nat)
    requires Run(code, first, ws, steps) && i < |ws|
    ensures ws[i].file == Text(code, ws[i].log, first) && Sensible(code, ws[i].log, first)
    ensures forall who, who' :: who in ws[i].phases && who' in ws[i].phases ==> who == who'
  {
    RunKeepsInv(code, first, ws, steps, i);
  }

  lemma {:induction false} StepKeepsDurable<S, O>(code: Code<S, O>, first: Option<string>, w: World<S, O>, step: Step<O>)
    requires Inv(code, first, w) && Enabled(w, step)
    ensures var w' := Next(code, first, w, step);
            && w.durable <= w'.durable <= |w'.log| && w'.log[..w.durable] == w.log[..w.durable]
            && (!step.PowerLoss? ==> w.log <= w'.log)
  {
  }

  lemma {:induction false} SamePrefix<T>(a: seq<T>, b: seq<T>, longer: nat, shorter: nat)
    requires shorter <= longer <= |a| && longer <= |b| && a[..longer] == b[..longer]
    ensures a[..shorter] == b[..shorter]
  {
    assert a[..shorter] == a[..longer][..shorter] && b[..shorter] == b[..longer][..shorter];
  }

  /** Only a power failure shortens the log, and never below what was synced. */
  lemma {:induction false} DurablePrefix<S, O>(code: Code<S, O>, first: Option<string>, ws: seq<World<S, O>>, steps: seq<Step<O>>, i: nat, j: nat)
    requires Run(code, first, ws, steps) && i <= j < |ws|
    ensures ws[i].durable <= ws[j].durable <= |ws[j].log| && ws[i].durable <= |ws[i].log|
    ensures ws[j].log[..ws[i].durable] == ws[i].log[..ws[i].durable]
    ensures (forall k :: i <= k < j ==> !steps[k].PowerLoss?) ==> ws[i].log <= ws[j].log
    decreases j - i
  {
    RunKeepsInv(code, first, ws, steps, i);
    if i < j {
      DurablePrefix(code, first, ws, steps, i, j - 1);
      RunKeepsInv(code, first, ws, steps, j - 1);
      StepKeepsDurable(code, first, ws[j - 1], steps[j - 1]);
      SamePrefix(ws[j].log, ws[j - 1].log, ws[j - 1].durable, ws[i].durable);
    }
  }

  /** An edit whose author was told of success stays where it is in the log, whatever dies later. */
  lemma {:induction false} ToldIsNeverLost<S, O>(code: Code<S, O>, first: Option<string>, ws: seq<World<S, O>>, steps: seq<Step<O>>, i: nat, j: nat, v: nat)
    requires Run(code, first, ws, steps) && i <= j < |ws| && v in ws[i].told
    ensures 1 <= v <= |ws[i].log| && v <= |ws[j].log| && ws[j].log[..v] == ws[i].log[..v]
    ensures ws[j].log[v - 1] == ws[i].told[v]
  {
    RunKeepsInv(code, first, ws, steps, i);
    DurablePrefix(code, first, ws, steps, i, j);
    SamePrefix(ws[j].log, ws[i].log, ws[i].durable, v);
    assert ws[j].log[..v][v - 1] == ws[j].log[v - 1] && ws[i].log[..v][v - 1] == ws[i].log[v - 1];
  }

  lemma {:induction false} StepKeepsMirror<S, O>(code: Code<S, O>, first: Option<string>, w: World<S, O>, step: Step<O>, p: nat)
    requires Inv(code, first, w) && Enabled(w, step) && p in w.mirrors
    ensures var w' := Next(code, first, w, step);
            if p in w'.mirrors then w.mirrors[p].version <= w'.mirrors[p].version
            else step == Kill(p) || step.PowerLoss?
  {
    assert Faithful(code, first, w, w.mirrors[p]);
  }

  /** A commit happens under the lock, so no thread puts its process's copy back to an older version. */
  lemma {:induction false} MirrorNeverGoesBack<S, O>(code: Code<S, O>, first: Option<string>, ws: seq<World<S, O>>, steps: seq<Step<O>>, i: nat, p: nat)
    requires Run(code, first, ws, steps) && i < |steps| && p in ws[i].mirrors
    ensures p in ws[i + 1].mirrors ==> ws[i].mirrors[p].version <= ws[i + 1].mirrors[p].version
    ensures p !in ws[i + 1].mirrors ==> steps[i] == Kill(p) || steps[i].PowerLoss?
    ensures p in ws[i + 1].mirrors ==> Faithful(code, first, ws[i + 1], ws[i + 1].mirrors[p])
  {
    RunKeepsInv(code, first, ws, steps, i);
    RunKeepsInv(code, first, ws, steps, i + 1);
    StepKeepsMirror(code, first, ws[i], steps[i], p);
  }

  // ----- The edits asked for -----

  /** Every edit in the log, and every one under way, passes. */
  predicate Passing<S, O>(w: World<S, O>, passes: O -> bool) {
    && (forall k :: 0 <= k < |w.log| ==> passes(w.log[k]))
    && (forall who :: who in w.phases && !w.phases[who].Committed? ==> passes(w.phases[who].op))
  }

  lemma {:induction false} StepKeepsPassing<S, O>(code: Code<S, O>, first: Option<string>, w: World<S, O>, step: Step<O>, passes: O -> bool)
    requires Passing(w, passes) && Enabled(w, step) && (step.Acquire? ==> passes(step.op))
    ensures Passing(Next(code, first, w, step), passes)
  {
  }

  /** Nothing is in the log that nobody took the lock for. */
  lemma {:induction false} LogIsAskedFor<S, O>(code: Code<S, O>, first: Option<string>, ws: seq<World<S, O>>, steps: seq<Step<O>>, i: nat, passes: O -> bool)
    requires Run(code, first, ws, steps) && i < |ws|
    requires forall k :: 0 <= k < |steps| && steps[k].Acquire? ==> passes(steps[k].op)
    ensures Passing(ws[i], passes)
  {
    if i > 0 {
      LogIsAskedFor(code, first, ws, steps, i - 1, passes);
      StepKeepsPassing(code, first, ws[i - 1], steps[i - 1], passes);
    }
  }

  // ----- Edits that fail -----

  /** `who` takes the lock at step `i` for `op` and still holds it in world `j`. */
  ghost predicate Holding<S, O>(ws: seq<World<S, O>>, steps: seq<Step<O>>, who: Who, op: O, i: nat, j: nat) {
    && |ws| == |steps| + 1 && i < j < |ws| && steps[i] == Acquire(who, op)
    && forall k :: i < k <= j ==> who in ws[k].phases
  }

  /** What holding the lock for `op` comes to, against the world it was taken in. */
  predicate Attempt<S(==), O(==)>(w: World<S, O>, w': World<S, O>, who: Who, op: O) {
    && who in w'.phases
    && (match w'.phases[who]
        case Renamed(o, _) => o == op && w'.log == w.log + [op]
        case Synced(o, _) => o == op && w'.log == w.log + [op]
        case Committed => w'.log == w.log + [op]
        case p => p.op == op && w'.log == w.log && w'.file == w.file)
    && (!w'.phases[who].Committed? && who.process in w.mirrors ==>
          who.process in w'.mirrors && w'.mirrors[who.process] == w.mirrors[who.process])
  }

  /** A step of the thread that holds the lock. */
  predicate By<O>(step: Step<O>, who: Who) {
    !step.Acquire? && !step.Load? && !step.Kill? && !step.PowerLoss? && step.who == who
  }

  lemma {:induction false} HolderMoves<S, O>(code: Code<S, O>, first: Option<string>, w: World<S, O>, w': World<S, O>, step: Step<O>, who: Who, op: O)
    requires Attempt(w, w', who, op) && By(step, who) && Enabled(w', step)
    requires who in Next(code, first, w', step).phases
    ensures Attempt(w, Next(code, first, w', step), who, op)
  {
  }

  lemma {:induction false} OthersMove<S, O>(code: Code<S, O>, first: Option<string>, w: World<S, O>, w': World<S, O>, step: Step<O>, who: Who, op: O)
    requires Attempt(w, w', who, op) && (step.Load? || step.Kill?) && Enabled(w', step)
    requires who in Next(code, first, w', step).phases
    ensures Attempt(w, Next(code, first, w', step), who, op)
  {
  }

  lemma {:induction false} NobodyElse<S, O>(code: Code<S, O>, first: Option<string>, w: World<S, O>, step: Step<O>, who: Who)
    requires Held(code, first, w) && who in w.phases && Enabled(w, step)
    ensures By(step, who) || step.Load? || step.Kill? || step.PowerLoss?
  {
    assert w.holder == Some(who);
  }

  lemma {:induction false} AttemptGoesOn<S, O>(code: Code<S, O>, first: Option<string>, w: World<S, O>, w': World<S, O>, step: Step<O>, who: Who, op: O)
    requires Inv(code, first, w') && Attempt(w, w', who, op) && Enabled(w', step)
    requires who in Next(code, first, w', step).phases
    ensures Attempt(w, Next(code, first, w', step), who, op)
  {
    NobodyElse(code, first, w', step, who);
    if By(step, who) {
      HolderMoves(code, first, w, w', step, who, op);
    } else {
      OthersMove(code, first, w, w', step, who, op);
    }
  }

  lemma {:induction false} OneStep<S, O>(code: Code<S, O>, first: Option<string>, ws: seq<World<S, O>>, steps: seq<Step<O>>, k: nat)
    requires Run(code, first, ws, steps) && k < |steps|
    ensures Enabled(ws[k], steps[k]) && ws[k + 1] == Next(code, first, ws[k], steps[k])
  {
  }

  lemma {:induction false} AttemptBegins<S, O>(code: Code<S, O>, first: Option<string>, w: World<S, O>, who: Who, op: O)
    requires Enabled(w, Acquire(who, op))
    ensures Attempt(w, Next(code, first, w, Acquire(who, op)), who, op)
  {
  }

  /** While a thread holds the lock nobody else's edit takes effect, and its own does at the rename. */
  lemma {:induction false} HoldingIsAlone<S, O>(code: Code<S, O>, first: Option<string>, ws: seq<World<S, O>>, steps: seq<Step<O>>,
                                               who: Who, op: O, i: nat, j: nat)
    requires Run(code, first, ws, steps) && Holding(ws, steps, who, op, i, j)
    ensures Attempt(ws[i], ws[j], who, op)
    decreases j - i
  {
    var k := j - 1;
    OneStep(code, first, ws, steps, k);
    if i == k {
      AttemptBegins(code, first, ws[i], who, op);
    } else {
      HoldingIsAlone(code, first, ws, steps, who, op, i, k);
      RunKeepsInv(code, first, ws, steps, k);
      AttemptGoesOn(code, first, ws[i], ws[k], steps[k], who, op);
    }
  }

  /** One more edit is reported as failed. */
  predicate Fails<S, O(==)>(w: World<S, O>, w': World<S, O>, op: O) {
    w'.failed == w.failed + [op]
  }

  lemma {:induction false} FailureIs<S, O>(code: Code<S, O>, first: Option<string>, w: World<S, O>, w': World<S, O>, step: Step<O>, who: Who, op: O)
    requires Inv(code, first, w') && Attempt(w, w', who, op) && Enabled(w', step)
    requires Fails(w', Next(code, first, w', step), op)
    ensures var w'' := Next(code, first, w', step);
            && w''.log == w'.log && w''.file == w'.file && w''.mirrors == w'.mirrors
            && (step == Sync(who, false) <==> w'.phases[who].Renamed?) && !w'.phases[who].Synced?
            && !w'.phases[who].Committed?
  {
    var w'' := Next(code, first, w', step);
    assert |w''.failed| == |w'.failed| + 1;
    NobodyElse(code, first, w', step, who);
  }

  /**
   * An edit reported as failed left the log and the file as they were when its
   * thread took the lock, exactly when what failed was not the last sync. After
   * a failed sync the edit is in the file all the same, and a copy its process
   * already had is behind the file.
   */
  lemma {:induction false} FailedLeavesTheFileExactlyWhen<S, O>(
      code: Code<S, O>, first: Option<string>, ws: seq<World<S, O>>, steps: seq<Step<O>>, who: Who, op: O, i: nat, j: nat)
    requires Run(code, first, ws, steps) && Holding(ws, steps, who, op, i, j) && j < |steps|
    requires Fails(ws[j], ws[j + 1], op)
    ensures ws[j + 1].log == ws[i].log && ws[j + 1].file == ws[i].file <==> steps[j] != Sync(who, false)
    ensures steps[j] == Sync(who, false) ==> ws[j + 1].log == ws[i].log + [op]
    ensures who.process in ws[i].mirrors ==>
              && who.process in ws[j + 1].mirrors && ws[j + 1].mirrors[who.process] == ws[i].mirrors[who.process]
              && (steps[j] == Sync(who, false) ==> ws[j + 1].mirrors[who.process].version < |ws[j + 1].log|)
  {
    HoldingIsAlone(code, first, ws, steps, who, op, i, j);
    RunKeepsInv(code, first, ws, steps, j);
    RunKeepsInv(code, first, ws, steps, i);
    FailureIs(code, first, ws[i], ws[j], steps[j], who, op);
    if who.process in ws[i].mirrors {
      assert Faithful(code, first, ws[i], ws[i].mirrors[who.process]);
    }
  }

  /** A first edit that reaches the file and is reported as failed. */
  lemma {:induction false} FailedYetWritten<S, O>(code: Code<S, O>, who: Who, op: O, s: S, text: string)
      returns (ws: seq<World<S, O>>, steps: seq<Step<O>>)
    requires code.mutate(op, code.initial) == Some(s) && code.serialize(s) == Some(text)
    ensures Run(code, None, ws, steps) && Holding(ws, steps, who, op, 0, 5) && |steps| == 6
    ensures ws[6].failed == [op] && ws[6].log == [op] && ws[6].file == Some(text) && ws[6].holder == None
  {
    steps := [Acquire(who, op), Read(who, true), Change(who), Stage(who, true), Rename(who, true), Sync(who, false)];
    var w0: World<S, O> := Quiet(None);
    var w1 := Next(code, None, w0, steps[0]);
    var w2 := Next(code, None, w1, steps[1]);
    var w3 := Next(code, None, w2, steps[2]);
    var w4 := Next(code, None, w3, steps[3]);
    var w5 := Next(code, None, w4, steps[4]);
    var w6 := Next(code, None, w5, steps[5]);
    ws := [w0, w1, w2, w3, w4, w5, w6];
  }

  // ----- The edits alone -----

  /** The edits applied to states, without any file in between. */
  function Folded<S, O>(code: Code<S, O>, log: seq<O>, start: S): Option<S> {
    if log == [] then Some(start)
    else match Folded(code, Most(log), start)
      case None => None
      case Some(s) => code.mutate(Last(log), s)
  }

  /** Two states, or none, that `same` relates. */
  predicate Alike<S>(same: (S, S) -> bool, a: Option<S>, b: Option<S>) {
    a.Some? && b.Some? && same(a.value, b.value)
  }

  /**
   * A relation of states that no edit sees through, and that writing and
   * reading back stays within. It need not hold of every state with itself, so
   * it may leave out states the file never stands for. Equality is one where
   * reading back gives the state that was written.
   */
  ghost predicate Respected<S(!new), O(!new)>(code: Code<S, O>, same: (S, S) -> bool) {
    && (forall a, b :: same(a, b) ==> same(a, a))
    && (forall a, b, c :: same(a, b) && same(b, c) ==> same(a, c))
    && (forall op, a, b :: same(a, b) && code.mutate(op, a).Some? ==> Alike(same, code.mutate(op, a), code.mutate(op, b)))
    && (forall s :: same(s, s) && code.serialize(s).Some? ==> Alike(same, code.parse(code.serialize(s).value), Some(s)))
  }

  lemma {:induction false} OneMoreEdit<S(!new), O(!new)>(code: Code<S, O>, same: (S, S) -> bool, op: O, file: Option<string>, f: S)
    requires Respected(code, same) && Alike(same, Parsed(code, file), Some(f)) && Edited(code, op, file).Some?
    ensures var (s, text) := Edited(code, op, file).value;
            && Alike(same, Some(s), code.mutate(op, f)) && Alike(same, code.parse(text), code.mutate(op, f))
  {
    var a := Parsed(code, file).value;
    var (s, text) := Edited(code, op, file).value;
    assert Alike(same, code.mutate(op, a), code.mutate(op, f));
    assert same(s, code.mutate(op, f).value);
    assert same(s, s) && code.serialize(s).Some?;
    assert same(code.parse(text).value, s);
  }

  /** The file's state is the edits folded over its first one, as far as edits can tell. */
  lemma {:induction false} StateIsTheFold<S(!new), O(!new)>(
      code: Code<S, O>, same: (S, S) -> bool, log: seq<O>, first: Option<string>, start: S)
    requires Respected(code, same) && same(start, start) && Parsed(code, first) == Some(start) && Sensible(code, log, first)
    ensures Alike(same, Parsed(code, Text(code, log, first)), Folded(code, log, start))
    ensures Alike(same, After(code, log, first), Folded(code, log, start))
  {
    if log != [] {
      StateIsTheFold(code, same, Most(log), first, start);
      OneMoreEdit(code, same, Last(log), Text(code, Most(log), first), Folded(code, Most(log), start).value);
    }
  }

  /** Every run's file stands for the committed edits folded over the first state, none of them lost, and every copy for a part of them. */
  lemma {:induction false} NoEditIsLost<S(!new), O(!new)>(
      code: Code<S, O>, same: (S, S) -> bool, first: Option<string>, start: S, ws: seq<World<S, O>>, steps: seq<Step<O>>, i: nat)
    requires Respected(code, same) && same(start, start)
    requires Parsed(code, first) == Some(start) && Run(code, first, ws, steps) && i < |ws|
    ensures Alike(same, Parsed(code, ws[i].file), Folded(code, ws[i].log, start))
    ensures forall p :: p in ws[i].mirrors ==>
      var m := ws[i].mirrors[p];
      m.version <= |ws[i].log| && Alike(same, Some(m.state), Folded(code, ws[i].log[..m.version], start))
  {
    RunKeepsInv(code, first, ws, steps, i);
    StateIsTheFold(code, same, ws[i].log, first, start);
    forall p | p in ws[i].mirrors
      ensures var m := ws[i].mirrors[p];
              m.version <= |ws[i].log| && Alike(same, Some(m.state), Folded(code, ws[i].log[..m.version], start))
    {
      var m := ws[i].mirrors[p];
      assert Faithful(code, first, ws[i], m);
      LogShrinks(code, first, ws[i].log, m.version);
      StateIsTheFold(code, same, ws[i].log[..m.version], first, start);
    }
  }

  /** Where reading back gives the state that was written, the file's state is that fold itself. */
  lemma {:induction false} ExactWhereReadBack<S(!new), O(!new)>(
      code: Code<S, O>, first: Option<string>, start: S, ws: seq<World<S, O>>, steps: seq<Step<O>>, i: nat)
    requires forall s :: code.serialize(s).Some? ==> code.parse(code.serialize(s).value) == Some(s)
    requires Parsed(code, first) == Some(start) && Run(code, first, ws, steps) && i < |ws|
    ensures Parsed(code, ws[i].file) == Folded(code, ws[i].log, start)
  {
    NoEditIsLost(code, (a, b) => a == b, first, start, ws, steps, i);
  }
}
