/**
 * The drain of a graceful stop: a flag and a count of open connections, each
 * with a notifier that wakes the waiters registered at that moment and nobody
 * later. A waiter registers, then looks at the flag or the count, then sleeps.
 * Every interleaving of the atomic steps of all callers is a run.
 */
module Drain {
  import opened Basics

  /** A waiter in its loop; `woken` once the notification it registered for was sent. */
  datatype Waiter = Top | Armed(woken: bool) | Asleep(woken: bool) | Returned

  /** A caller of `begin` between its atomic steps. */
  datatype Beginner = Called | Raised | Announced | Empty

  /**
   * `guards` are the live connections, `last` the droppers that took the count
   * to zero and have yet to notify. `reports` is what callers of `finished` were
   * told, read from the count once more after the wait was over.
   */
  datatype World = World(draining: bool, active: int, guards: set<nat>, last: set<nat>,
                         beginners: map<nat, Beginner>,
                         starting: map<nat, Waiter>, finishing: map<nat, Waiter>, reports: map<nat, int>)

  const NEW := World(false, 0, {}, {}, map[], map[], map[], map[])

  datatype Step =
    | Begin(id: nat)
    | Raise(id: nat)
    | Announce(id: nat)
    | LookForNone(id: nat)
    | AnnounceNone(id: nat)
    | Track(guard: nat)
    | Drop(guard: nat)
    | NotifyLast(guard: nat)
    | AwaitStart(id: nat)
    | ArmStart(id: nat)
    | CheckStart(id: nat)
    | WakeStart(id: nat)
    | LeaveStart(id: nat)
    | AwaitFinish(id: nat)
    | ArmFinish(id: nat)
    | CheckFinish(id: nat)
    | WakeFinish(id: nat)
    | TimeOut(id: nat)
    | Report(id: nat)
    | LeaveFinish(id: nat)

  predicate At(m: map<nat, Waiter>, id: nat, w: Waiter) {
    id in m && m[id] == w
  }

  predicate Enabled(w: World, step: Step) {
    match step
    case Begin(id) => id !in w.beginners
    case Raise(id) => id in w.beginners && w.beginners[id] == Called
    case Announce(id) => id in w.beginners && w.beginners[id] == Raised
    case LookForNone(id) => id in w.beginners && w.beginners[id] == Announced
    case AnnounceNone(id) => id in w.beginners && w.beginners[id] == Empty
    case Track(g) => g !in w.guards && g !in w.last
    case Drop(g) => g in w.guards
    case NotifyLast(g) => g in w.last
    case AwaitStart(id) => id !in w.starting
    case ArmStart(id) => At(w.starting, id, Top)
    case CheckStart(id) => id in w.starting && w.starting[id].Armed?
    case WakeStart(id) => At(w.starting, id, Asleep(true))
    case LeaveStart(id) => id in w.starting
    case AwaitFinish(id) => id !in w.finishing
    case ArmFinish(id) => At(w.finishing, id, Top)
    case CheckFinish(id) => id in w.finishing && w.finishing[id].Armed?
    case WakeFinish(id) => At(w.finishing, id, Asleep(true))
    case TimeOut(id) => id in w.finishing && w.finishing[id] != Returned
    case Report(id) => At(w.finishing, id, Returned)
    case LeaveFinish(id) => id in w.finishing
  }

  function Woken(w: Waiter): Waiter {
    match w
    case Armed(_) => Armed(true)
    case Asleep(_) => Asleep(true)
    case other => other
  }

  /** Wakes every waiter registered now. */
  function Notified(m: map<nat, Waiter>): (r: map<nat, Waiter>)
    ensures r.Keys == m.Keys
    ensures forall id :: id in r ==> r[id] != Asleep(false)
  {
    map id | id in m :: Woken(m[id])
  }

  function Next(w: World, step: Step): World
    requires Enabled(w, step)
  {
    match step
    case Begin(id) => w.(beginners := w.beginners[id := Called])
    case Raise(id) => w.(draining := true, beginners := w.beginners[id := Raised])
    case Announce(id) => w.(starting := Notified(w.starting), beginners := w.beginners[id := Announced])
    case LookForNone(id) =>
      if w.active == 0 then w.(beginners := w.beginners[id := Empty]) else w.(beginners := w.beginners - {id})
    case AnnounceNone(id) => w.(finishing := Notified(w.finishing), beginners := w.beginners - {id})
    case Track(g) => w.(active := w.active + 1, guards := w.guards + {g})
    case Drop(g) =>
      w.(active := w.active - 1, guards := w.guards - {g}, last := if w.active == 1 then w.last + {g} else w.last)
    case NotifyLast(g) => w.(finishing := Notified(w.finishing), last := w.last - {g})
    case AwaitStart(id) => w.(starting := w.starting[id := Top])
    case ArmStart(id) => w.(starting := w.starting[id := Armed(false)])
    case CheckStart(id) =>
      w.(starting := w.starting[id := if w.draining then Returned else Asleep(w.starting[id].woken)])
    case WakeStart(id) => w.(starting := w.starting[id := Top])
    case LeaveStart(id) => w.(starting := w.starting - {id})
    case AwaitFinish(id) => w.(finishing := w.finishing[id := Top])
    case ArmFinish(id) => w.(finishing := w.finishing[id := Armed(false)])
    case CheckFinish(id) =>
      w.(finishing := w.finishing[id := if w.active == 0 then Returned else Asleep(w.finishing[id].woken)])
    case WakeFinish(id) => w.(finishing := w.finishing[id := Top])
    case TimeOut(id) => w.(finishing := w.finishing[id := Returned])
    case Report(id) => w.(reports := w.reports[id := w.active], finishing := w.finishing - {id})
    case LeaveFinish(id) => w.(finishing := w.finishing - {id})
  }

  ghost predicate Run(ws: seq<World>, steps: seq<Step>) {
    && |ws| == |steps| + 1
    && ws[0] == NEW
    && forall i :: 0 <= i < |steps| ==> Enabled(ws[i], steps[i]) && ws[i + 1] == Next(ws[i], steps[i])
  }

  // ----- The invariant -----

  /** Some caller of `begin` has raised the flag and not yet announced it. */
  predicate AboutToAnnounce(w: World) {
    exists id :: id in w.beginners && w.beginners[id] == Raised
  }

  ghost predicate Inv(w: World) {
    && w.active == |w.guards|
    && (forall id :: id in w.starting && w.starting[id] == Asleep(false) && w.draining ==> AboutToAnnounce(w))
    && (forall id :: id in w.finishing && w.finishing[id] == Asleep(false) && w.active == 0 ==> w.last != {})
    && (forall id :: id in w.starting && w.starting[id] == Returned ==> w.draining)
    && (forall id :: id in w.beginners && w.beginners[id] != Called ==> w.draining)
  }

  lemma {:induction false} CountStep(w: World, step: Step)
    requires Inv(w) && Enabled(w, step)
    ensures Next(w, step).active == |Next(w, step).guards|
  {
  }

  lemma {:induction false} AnnouncerStays(w: World, w': World, id: nat)
    requires AboutToAnnounce(w) && (forall x :: x in w.beginners && x != id ==> x in w'.beginners && w'.beginners[x] == w.beginners[x])
    requires id in w.beginners ==> w.beginners[id] != Raised
    ensures AboutToAnnounce(w')
  {
    var x :| x in w.beginners && w.beginners[x] == Raised;
    assert x in w'.beginners && w'.beginners[x] == Raised;
  }

  lemma {:induction false} StartStep(w: World, step: Step)
    requires Inv(w) && Enabled(w, step)
    ensures var w' := Next(w, step);
            && (forall id :: id in w'.starting && w'.starting[id] == Asleep(false) && w'.draining ==> AboutToAnnounce(w'))
            && (forall id :: id in w'.starting && w'.starting[id] == Returned ==> w'.draining)
            && (forall id :: id in w'.beginners && w'.beginners[id] != Called ==> w'.draining)
  {
    var w' := Next(w, step);
    if step.Raise? {
      assert step.id in w'.beginners && w'.beginners[step.id] == Raised;
    } else if AboutToAnnounce(w) && !step.Announce? {
      if step.Begin? || step.LookForNone? || step.AnnounceNone? {
        AnnouncerStays(w, w', step.id);
      } else {
        assert w'.beginners == w.beginners;
      }
    }
  }

  lemma {:induction false} FinishStep(w: World, step: Step)
    requires Inv(w) && Enabled(w, step)
    ensures var w' := Next(w, step);
            forall id :: id in w'.finishing && w'.finishing[id] == Asleep(false) && w'.active == 0 ==> w'.last != {}
  {
  }

  lemma {:induction false} RunKeepsInv(ws: seq<World>, steps: seq<Step>, i: nat)
    requires Run(ws, steps) && i < |ws|
    ensures Inv(ws[i])
  {
    if i > 0 {
      RunKeepsInv(ws, steps, i - 1);
      CountStep(ws[i - 1], steps[i - 1]);
      StartStep(ws[i - 1], steps[i - 1]);
      FinishStep(ws[i - 1], steps[i - 1]);
    }
  }

  // ----- Main results -----

  /** The count is the live connections; no wakeup is lost: a waiter asleep past its time has a notifier still to come. */
  lemma {:induction false} NoWakeupIsLost(ws: seq<World>, steps: seq<Step>, i: nat, id: nat)
    requires Run(ws, steps) && i < |ws|
    ensures ws[i].active == |ws[i].guards|
    ensures At(ws[i].starting, id, Asleep(false)) && ws[i].draining ==> AboutToAnnounce(ws[i])
    ensures At(ws[i].finishing, id, Asleep(false)) && ws[i].active == 0 ==> ws[i].last != {}
  {
    RunKeepsInv(ws, steps, i);
  }

  /** No caller is in the middle of `begin` or of a drop. */
  predicate Quiet(w: World) {
    w.beginners == map[] && w.last == {}
  }

  /** When every notifier has finished, nobody sleeps on past the event: each waiter can take its next step. */
  lemma {:induction false} NobodyOversleeps(ws: seq<World>, steps: seq<Step>, i: nat, id: nat)
    requires Run(ws, steps) && i < |ws| && Quiet(ws[i])
    ensures ws[i].draining && id in ws[i].starting && ws[i].starting[id] != Returned ==>
              Enabled(ws[i], ArmStart(id)) || Enabled(ws[i], CheckStart(id)) || Enabled(ws[i], WakeStart(id))
    ensures ws[i].active == 0 && id in ws[i].finishing && ws[i].finishing[id] != Returned ==>
              Enabled(ws[i], ArmFinish(id)) || Enabled(ws[i], CheckFinish(id)) || Enabled(ws[i], WakeFinish(id))
  {
    NoWakeupIsLost(ws, steps, i, id);
  }

  /** `started` returns only once the drain has started, and the drain never stops. */
  lemma {:induction false} StartedMeansDraining(ws: seq<World>, steps: seq<Step>, i: nat, j: nat, id: nat)
    requires Run(ws, steps) && i <= j < |ws| && At(ws[i].starting, id, Returned)
    ensures ws[j].draining
    decreases j - i
  {
    RunKeepsInv(ws, steps, i);
    if i < j {
      StartedMeansDraining(ws, steps, i, j - 1, id);
    }
  }

  /** How many of its own steps a waiter needs to return once its event has happened. */
  function Distance(w: Waiter): nat {
    match w
    case Returned => 0
    case Armed(_) => 1
    case Top => 2
    case Asleep(_) => 3
  }

  predicate OwnStart(step: Step, id: nat) {
    step == ArmStart(id) || step == CheckStart(id) || step == WakeStart(id)
  }

  predicate OwnFinish(step: Step, id: nat) {
    step == ArmFinish(id) || step == CheckFinish(id) || step == WakeFinish(id)
  }

  /** How many of the steps from `i` to `j` pass. */
  function Taken(steps: seq<Step>, i: nat, j: nat, passes: Step -> bool): nat
    requires i <= j <= |steps|
    decreases j - i
  {
    if i == j then 0 else Taken(steps, i, j - 1, passes) + if passes(steps[j - 1]) then 1 else 0
  }

  lemma {:induction false} StartDistance(w: World, step: Step, id: nat)
    requires Enabled(w, step) && w.draining && id in w.starting && id in Next(w, step).starting
    ensures Next(w, step).draining
    ensures Distance(Next(w, step).starting[id]) + (if OwnStart(step, id) then 1 else 0) == Distance(w.starting[id])
  {
  }

  /** In every run a waiter of `started` returns, once draining, after exactly as many of its own steps as it is away. */
  lemma {:induction false} StartedReturnsInTime(ws: seq<World>, steps: seq<Step>, i: nat, j: nat, id: nat)
    requires Run(ws, steps) && i <= j < |ws| && ws[i].draining && forall k :: i <= k <= j ==> id in ws[k].starting
    ensures ws[j].draining
    ensures Taken(steps, i, j, s => OwnStart(s, id)) + Distance(ws[j].starting[id]) == Distance(ws[i].starting[id])
    ensures ws[j].starting[id] == Returned <==> Taken(steps, i, j, s => OwnStart(s, id)) == Distance(ws[i].starting[id])
    decreases j - i
  {
    if i < j {
      StartedReturnsInTime(ws, steps, i, j - 1, id);
      StartDistance(ws[j - 1], steps[j - 1], id);
    }
  }

  lemma {:induction false} FinishDistance(w: World, step: Step, id: nat)
    requires Enabled(w, step) && w.active == 0 && id in w.finishing && id in Next(w, step).finishing
    ensures Distance(Next(w, step).finishing[id]) + (if OwnFinish(step, id) then 1 else 0) <= Distance(w.finishing[id])
  {
  }

  /** While no connection is open, a waiter of `finished` is done within as many of its own steps as it is away. */
  lemma {:induction false} FinishedReturnsInTime(ws: seq<World>, steps: seq<Step>, i: nat, j: nat, id: nat)
    requires Run(ws, steps) && i <= j < |ws| && forall k :: i <= k <= j ==> id in ws[k].finishing && ws[k].active == 0
    ensures Taken(steps, i, j, s => OwnFinish(s, id)) + Distance(ws[j].finishing[id]) <= Distance(ws[i].finishing[id])
    ensures Taken(steps, i, j, s => OwnFinish(s, id)) == Distance(ws[i].finishing[id]) ==> ws[j].finishing[id] == Returned
    decreases j - i
  {
    if i < j {
      FinishedReturnsInTime(ws, steps, i, j - 1, id);
      assert id in ws[j].finishing && id in ws[j - 1].finishing && ws[j - 1].active == 0;
      FinishDistance(ws[j - 1], steps[j - 1], id);
    }
  }

  // ----- What the steps come to -----

  /** A notification reaches everyone registered at that moment, asleep or not yet, and nobody else. */
  lemma {:induction false} NotifiedExactly(m: map<nat, Waiter>, id: nat)
    requires id in m
    ensures m[id].Armed? ==> Notified(m)[id] == Armed(true)
    ensures m[id].Asleep? ==> Notified(m)[id] == Asleep(true)
    ensures !m[id].Armed? && !m[id].Asleep? ==> Notified(m)[id] == m[id]
  {
  }

  predicate RaisedBefore(steps: seq<Step>, i: nat) {
    exists k :: 0 <= k < i <= |steps| && steps[k].Raise?
  }

  /** The drain has started exactly when some caller of `begin` has raised the flag. */
  lemma {:induction false} DrainingExactly(ws: seq<World>, steps: seq<Step>, i: nat)
    requires Run(ws, steps) && i < |ws|
    ensures ws[i].draining <==> RaisedBefore(steps, i)
  {
    if i > 0 {
      DrainingExactly(ws, steps, i - 1);
      assert Enabled(ws[i - 1], steps[i - 1]) && ws[i] == Next(ws[i - 1], steps[i - 1]);
    }
  }

  /** The connection was opened at `k` and has not been closed since, up to `i`. */
  predicate OpenSince(steps: seq<Step>, k: nat, i: nat, g: nat) {
    k < i <= |steps| && steps[k] == Track(g) && forall j :: k < j < i ==> steps[j] != Drop(g)
  }

  /** A connection is live exactly when it was opened and not closed since; in particular the count is exact. */
  lemma {:induction false} LiveExactly(ws: seq<World>, steps: seq<Step>, i: nat, g: nat)
    requires Run(ws, steps) && i < |ws|
    ensures g in ws[i].guards <==> exists k :: OpenSince(steps, k, i, g)
  {
    if i > 0 {
      var before := i - 1;
      LiveExactly(ws, steps, before, g);
      var step := steps[i - 1];
      assert Enabled(ws[i - 1], step) && ws[i] == Next(ws[i - 1], step);
      if step == Track(g) {
        assert OpenSince(steps, i - 1, i, g);
      } else if step != Drop(g) {
        assert forall k :: OpenSince(steps, k, i, g) <==> OpenSince(steps, k, before, g);
      }
    }
  }

  /** `begin` announces the end itself exactly when it finds nothing open, to everyone waiting for it. */
  lemma {:induction false} BeginFindsNoneOpen(ws: seq<World>, steps: seq<Step>, i: nat, id: nat)
    requires Run(ws, steps) && i < |steps|
    ensures steps[i] == LookForNone(id) ==> (id in ws[i + 1].beginners <==> ws[i].guards == {})
    ensures steps[i] == AnnounceNone(id) ==> id !in ws[i + 1].beginners && ws[i + 1].finishing == Notified(ws[i].finishing)
    ensures steps[i].NotifyLast? ==> ws[i + 1].finishing == Notified(ws[i].finishing)
    ensures steps[i].Announce? ==> ws[i + 1].starting == Notified(ws[i].starting)
  {
    RunKeepsInv(ws, steps, i);
    assert Enabled(ws[i], steps[i]) && ws[i + 1] == Next(ws[i], steps[i]);
  }

  // ----- What `finished` tells its caller -----

  /** The connections opened between `i` and `j`. */
  function Opened(steps: seq<Step>, i: nat, j: nat): set<nat>
    requires i <= j <= |steps|
  {
    set k | i <= k < j && steps[k].Track? :: steps[k].guard
  }

  lemma {:induction false} OnlyOpenedSince(ws: seq<World>, steps: seq<Step>, i: nat, j: nat)
    requires Run(ws, steps) && i <= j < |ws| && ws[i].guards == {}
    ensures ws[j].guards <= Opened(steps, i, j)
    decreases j - i
  {
    if i < j {
      OnlyOpenedSince(ws, steps, i, j - 1);
      assert Opened(steps, i, j) == Opened(steps, i, j - 1) + (if steps[j - 1].Track? then {steps[j - 1].guard} else {});
    }
  }

  /**
   * A caller of `finished` is told how many connections are open when it looks
   * the second time. After a wait that ended at `i` with none open, that is 0
   * exactly when every connection opened since has closed.
   */
  lemma {:induction false} FinishedTellsTheCount(ws: seq<World>, steps: seq<Step>, i: nat, j: nat, id: nat)
    requires Run(ws, steps) && i <= j < |steps| && steps[j] == Report(id)
    ensures id in ws[j + 1].reports && ws[j + 1].reports[id] == |ws[j].guards|
    ensures ws[i].active == 0 ==> (ws[j + 1].reports[id] == 0 <==> Opened(steps, i, j) !! ws[j].guards)
  {
    RunKeepsInv(ws, steps, i);
    RunKeepsInv(ws, steps, j);
    if ws[i].active == 0 {
      OnlyOpenedSince(ws, steps, i, j);
    }
  }

  lemma {:induction false} OneMoreStep(ws: seq<World>, steps: seq<Step>, step: Step)
    requires Run(ws, steps) && Enabled(Last(ws), step)
    ensures Run(ws + [Next(Last(ws), step)], steps + [step])
  {
    var ws', steps' := ws + [Next(Last(ws), step)], steps + [step];
    forall i | 0 <= i < |steps'|
      ensures Enabled(ws'[i], steps'[i]) && ws'[i + 1] == Next(ws'[i], steps'[i])
    {
      if i < |steps| {
        assert ws'[i] == ws[i] && ws'[i + 1] == ws[i + 1];
      } else {
        assert ws'[i] == Last(ws);
      }
    }
  }

  /**
   * Any run in which a caller of `finished` is about to find nothing open: a
   * connection opened before its second look, and it is told of one left open
   * after a wait that succeeded.
   */
  lemma {:induction false} ToldOfOneAfterSuccess(ws: seq<World>, steps: seq<Step>, id: nat, g: nat)
    requires Run(ws, steps) && id in Last(ws).finishing && Last(ws).finishing[id].Armed?
    requires Last(ws).active == 0 && g !in Last(ws).guards && g !in Last(ws).last
    ensures var w1 := Next(Last(ws), CheckFinish(id));
            var w2 := w1.(active := 1, guards := Last(ws).guards + {g});
            var w3 := w2.(finishing := w1.finishing - {id}, reports := w1.reports[id := 1]);
            At(w1.finishing, id, Returned) && Run(ws + [w1] + [w2] + [w3], steps + [CheckFinish(id)] + [Track(g)] + [Report(id)])
  {
    var w1 := Next(Last(ws), CheckFinish(id));
    OneMoreStep(ws, steps, CheckFinish(id));
    OneMoreStep(ws + [w1], steps + [CheckFinish(id)], Track(g));
    var w2 := Next(w1, Track(g));
    OneMoreStep(ws + [w1] + [w2], steps + [CheckFinish(id)] + [Track(g)], Report(id));
  }

  /** Such as the first two steps of the first caller. */
  lemma {:induction false} FirstCallerFindsNothingOpen() returns (ws: seq<World>, steps: seq<Step>)
    ensures Run(ws, steps) && At(Last(ws).finishing, 0, Armed(false)) && Last(ws).active == 0
    ensures Last(ws).guards == {} && Last(ws).last == {}
  {
    var w1 := Next(NEW, AwaitFinish(0));
    OneMoreStep([NEW], [], AwaitFinish(0));
    OneMoreStep([NEW] + [w1], [] + [AwaitFinish(0)], ArmFinish(0));
    ws, steps := [NEW] + [w1] + [Next(w1, ArmFinish(0))], [] + [AwaitFinish(0)] + [ArmFinish(0)];
  }
}
