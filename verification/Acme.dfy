/**
 * One certificate order and the DNS challenges it publishes. The future that
 * drives the order may be dropped at any await; what it had recorded is then
 * withdrawn by a detached withdrawal of its own. Each step below is what runs between two
 * awaits.
 */
module Acme {
  import opened Basics

  /** A challenge: a domain and the token the authority gave for it. */
  datatype Key = Key(domain: string, token: string)

  datatype Phase =
    | Asking(i: nat)
    | Resolving(i: nat)
    | Upserting(i: nat)
    | Answering(i: nat)
    | Withdrawing
    | Deleting(zone: string)
    | Finishing
    | Ended
    | Dropped

  /** A detached withdrawal: what is left, and the zone it is deleting from. */
  datatype Task = Task(left: seq<Key>, at: Option<string>)

  /**
   * `entries` is the guard's list and `zones` the responder's memory. The rest
   * is history: `begun` the challenges recorded, in order, `used` the zone of
   * every write that began, `latest` the last such zone of each challenge,
   * `deleted` every deletion sent, `returned` the withdrawals that came back,
   * and `spawned` the list the detached withdrawal was given.
   */
  datatype World = World(phase: Phase, validated: bool, entries: seq<Key>, zones: map<Key, string>, task: Option<Task>,
                         begun: seq<Key>, used: set<(Key, string)>, latest: map<Key, string>,
                         deleted: set<(Key, string)>, returned: seq<Key>, spawned: seq<Key>)

  const NEW := World(Asking(0), false, [], map[], None, [], {}, map[], {}, [], [])

  datatype Step =
    | Authorized(ok: bool)
    | Resolved(zone: Option<string>)
    | Upserted(ok: bool)
    | Answered(ok: bool)
    | WithdrawNext
    | DeleteReturned
    | Finished
    | Drop(inside: bool)
    | TaskNext
    | TaskReturned
    | TaskStopped

  /** The order is for the challenges `keys`. */
  predicate Enabled(keys: seq<Key>, w: World, step: Step) {
    match step
    case Authorized(ok) => w.phase.Asking? && (w.phase.i < |keys| || ok)
    case Resolved(_) => w.phase.Resolving?
    case Upserted(_) => w.phase.Upserting?
    case Answered(_) => w.phase.Answering?
    case WithdrawNext => w.phase.Withdrawing?
    case DeleteReturned => w.phase.Deleting? && w.entries != []
    case Finished => w.phase.Finishing?
    case Drop(_) => !w.phase.Ended? && !w.phase.Dropped?
    case TaskNext => w.task.Some? && w.task.value.left != [] && w.task.value.at.None?
    case TaskReturned => w.task.Some? && w.task.value.left != [] && w.task.value.at.Some?
    case TaskStopped => w.task.Some?
  }

  /** The guard's drop handler: what is recorded goes to a detached withdrawal, if there is a runtime to spawn it on. */
  function Spawned(w: World, inside: bool): World {
    if w.entries == [] then w.(phase := Dropped)
    else if !inside then w.(phase := Dropped, entries := [])
    else w.(phase := Dropped, entries := [], task := Some(Task(w.entries, None)), spawned := w.entries)
  }

  function Next(keys: seq<Key>, w: World, step: Step): World
    requires Enabled(keys, w, step)
  {
    match step
    case Authorized(ok) =>
      if w.phase.i >= |keys| then w.(phase := Withdrawing, validated := true)
      else if !ok then w.(phase := Withdrawing)
      else
        // Recorded before its publish starts.
        var key := keys[w.phase.i];
        w.(phase := Resolving(w.phase.i), entries := w.entries + [key], begun := w.begun + [key])
    case Resolved(zone) =>
      if zone.None? || w.phase.i >= |keys| then w.(phase := Withdrawing)
      else
        // Remembered before the write.
        var key := keys[w.phase.i];
        w.(phase := Upserting(w.phase.i), zones := w.zones[key := zone.value],
           used := w.used + {(key, zone.value)}, latest := w.latest[key := zone.value])
    case Upserted(ok) => if ok then w.(phase := Answering(w.phase.i)) else w.(phase := Withdrawing)
    case Answered(ok) => if ok then w.(phase := Asking(w.phase.i + 1)) else w.(phase := Withdrawing)
    case WithdrawNext =>
      if w.entries == [] then w.(phase := if w.validated then Finishing else Ended)
      else
        var key := Last(w.entries);
        if key in w.zones then w.(phase := Deleting(w.zones[key]), deleted := w.deleted + {(key, w.zones[key])})
        else w.(entries := Most(w.entries), returned := w.returned + [key])
    case DeleteReturned =>
      // Forgotten and taken off the list only now.
      var key := Last(w.entries);
      w.(phase := Withdrawing, zones := w.zones - {key}, entries := Most(w.entries), returned := w.returned + [key])
    case Finished => w.(phase := Ended)
    case Drop(inside) => Spawned(w, inside)
    case TaskNext =>
      var key := Last(w.task.value.left);
      if key in w.zones then
        w.(task := Some(w.task.value.(at := Some(w.zones[key]))), deleted := w.deleted + {(key, w.zones[key])})
      else w.(task := Some(Task(Most(w.task.value.left), None)), returned := w.returned + [key])
    case TaskReturned =>
      var key := Last(w.task.value.left);
      w.(task := Some(Task(Most(w.task.value.left), None)), zones := w.zones - {key}, returned := w.returned + [key])
    case TaskStopped => w.(task := None)
  }

  ghost predicate Run(keys: seq<Key>, ws: seq<World>, steps: seq<Step>) {
    && |ws| == |steps| + 1
    && ws[0] == NEW
    && forall i :: 0 <= i < |steps| ==> Enabled(keys, ws[i], steps[i]) && ws[i + 1] == Next(keys, ws[i], steps[i])
  }

  /** No drop outside a runtime, and no runtime that stops under a detached withdrawal. */
  predicate Looked(steps: seq<Step>) {
    forall i :: 0 <= i < |steps| ==> steps[i] != Drop(false) && !steps[i].TaskStopped?
  }

  // ----- The invariant -----

  /** What is still to be withdrawn, by the order or detached from it. */
  function Pending(w: World): seq<Key> {
    if w.phase.Dropped? then (if w.task.Some? then w.task.value.left else []) else w.entries
  }

  /** The withdrawals that returned, oldest challenge last. */
  predicate Balanced(w: World) {
    && |Pending(w)| + |w.returned| == |w.begun|
    && Pending(w) == w.begun[..|Pending(w)|]
    && (forall t :: 0 <= t < |w.returned| ==> w.returned[t] == w.begun[|w.begun| - 1 - t])
  }

  predicate Publishing(p: Phase) {
    p.Resolving? || p.Upserting? || p.Answering?
  }

  /** A withdrawal of `key` that is deleting from `zone`. */
  predicate AtWork(w: World, left: seq<Key>, zone: string) {
    && left != []
    && Last(left) in w.zones && w.zones[Last(left)] == zone
    && (Last(left), zone) in w.deleted
  }

  predicate InStep(keys: seq<Key>, w: World) {
    && (w.task.Some? ==> w.phase.Dropped?)
    && (w.phase.Dropped? || w.phase.Ended? || w.phase.Finishing? ==> w.entries == [])
    && (w.phase.Asking? ==> w.phase.i <= |keys| && w.begun == keys[..w.phase.i])
    && (Publishing(w.phase) ==> w.phase.i < |keys| && w.begun == keys[..w.phase.i + 1])
    && (w.phase.Asking? || Publishing(w.phase) ==> w.returned == [] && w.deleted == {})
    && w.begun <= keys
    && (w.phase.Deleting? ==> AtWork(w, w.entries, w.phase.zone))
    && (w.task.Some? && w.task.value.at.Some? ==> AtWork(w, w.task.value.left, w.task.value.at.value))
  }

  /** Zones remembered and zones deleted from are the last ones written to. */
  predicate ZonesRight(w: World) {
    && (forall k :: k in w.zones ==> k in w.latest && w.zones[k] == w.latest[k])
    && (forall d :: d in w.deleted ==> d.0 in w.latest && d.1 == w.latest[d.0])
    && (forall k :: k in w.latest ==> (k, w.latest[k]) in w.used && k in w.begun)
    && (forall u :: u in w.used ==> u.0 in w.latest)
  }

  /** A challenge that was written and is not remembered any more has been deleted. */
  predicate Cleared(w: World) {
    && (forall k :: k in w.latest && k !in w.zones ==> (k, w.latest[k]) in w.deleted)
    && (forall k :: k in w.zones ==> k in Pending(w))
  }

  lemma {:induction false} ZonesStep(keys: seq<Key>, w: World, step: Step)
    requires InStep(keys, w) && ZonesRight(w) && Enabled(keys, w, step)
    ensures ZonesRight(Next(keys, w, step))
  {
    if step.Resolved? && step.zone.Some? {
      ZoneRemembered(keys, w, step);
    } else {
      NothingWritten(keys, w, step);
      ZonesKept(w, Next(keys, w, step));
    }
  }

  lemma {:induction false} NothingWritten(keys: seq<Key>, w: World, step: Step)
    requires Enabled(keys, w, step) && (step.Resolved? ==> step.zone.None?)
    ensures var w' := Next(keys, w, step);
            && w'.latest == w.latest && w'.used == w.used && w.begun <= w'.begun
            && (forall k :: k in w'.zones ==> k in w.zones && w'.zones[k] == w.zones[k])
            && (forall d :: d in w'.deleted ==> d in w.deleted || (d.0 in w.zones && d.1 == w.zones[d.0]))
  {
  }

  /** Nothing new is written: zones are forgotten, or deleted from while remembered. */
  lemma {:induction false} ZonesKept(w: World, w': World)
    requires ZonesRight(w) && w'.latest == w.latest && w'.used == w.used && w.begun <= w'.begun
    requires forall k :: k in w'.zones ==> k in w.zones && w'.zones[k] == w.zones[k]
    requires forall d :: d in w'.deleted ==> d in w.deleted || (d.0 in w.zones && d.1 == w.zones[d.0])
    ensures ZonesRight(w')
  {
  }

  lemma {:induction false} ZoneRemembered(keys: seq<Key>, w: World, step: Step)
    requires InStep(keys, w) && ZonesRight(w) && Enabled(keys, w, step) && step.Resolved? && step.zone.Some?
    ensures ZonesRight(Next(keys, w, step))
  {
    var i := w.phase.i;
    assert w.begun[i] == keys[i];
  }

  lemma {:induction false} StillDeleted(keys: seq<Key>, w: World, step: Step)
    requires InStep(keys, w) && ZonesRight(w) && Cleared(w) && Enabled(keys, w, step)
    ensures var w' := Next(keys, w, step);
            forall k :: k in w'.latest && k !in w'.zones ==> (k, w'.latest[k]) in w'.deleted
  {
    var w' := Next(keys, w, step);
    if step.DeleteReturned? || step.TaskReturned? {
      assert w'.deleted == w.deleted && w'.latest == w.latest;
      forall k | k in w'.latest && k !in w'.zones ensures (k, w'.latest[k]) in w'.deleted {
        if k in w.zones {
          assert w.zones[k] == w.latest[k];
        }
      }
    }
  }

  /** The last of a list and the rest. */
  lemma {:induction false} MostAndLast(s: seq<Key>, k: Key)
    requires s != [] && k in s && k != Last(s)
    ensures k in Most(s)
  {
    var i :| 0 <= i < |s| && s[i] == k;
    assert Most(s)[i] == k;
  }

  lemma {:induction false} StillPending(keys: seq<Key>, w: World, step: Step)
    requires InStep(keys, w) && Balanced(w) && Cleared(w) && Enabled(keys, w, step)
    requires step != Drop(false) && !step.TaskStopped?
    ensures var w' := Next(keys, w, step); forall k :: k in w'.zones ==> k in Pending(w')
  {
    var w' := Next(keys, w, step);
    if step.Resolved? && step.zone.Some? {
      assert Pending(w)[|w.begun| - 1] == keys[w.phase.i];
    } else if |Pending(w')| < |Pending(w)| {
      forall k | k in w'.zones ensures k in Pending(w') {
        MostAndLast(Pending(w), k);
      }
    }
  }

  lemma {:induction false} ClearedStep(keys: seq<Key>, w: World, step: Step)
    requires InStep(keys, w) && ZonesRight(w) && Balanced(w) && Cleared(w) && Enabled(keys, w, step)
    requires step != Drop(false) && !step.TaskStopped?
    ensures Cleared(Next(keys, w, step))
  {
    StillDeleted(keys, w, step);
    StillPending(keys, w, step);
  }

  lemma {:induction false} InStepStep(keys: seq<Key>, w: World, step: Step)
    requires InStep(keys, w) && Balanced(w) && Enabled(keys, w, step)
    requires step != Drop(false) && !step.TaskStopped?
    ensures InStep(keys, Next(keys, w, step))
  {
    if step.Authorized? || step.Resolved? || step.Upserted? || step.Answered? {
      OrderInStep(keys, w, step);
    } else {
      WithdrawalInStep(keys, w, step);
    }
  }

  lemma {:induction false} OrderInStep(keys: seq<Key>, w: World, step: Step)
    requires InStep(keys, w) && Balanced(w) && Enabled(keys, w, step)
    requires step.Authorized? || step.Resolved? || step.Upserted? || step.Answered?
    ensures InStep(keys, Next(keys, w, step))
  {
    if w.phase.Asking? && w.phase.i < |keys| {
      assert keys[..w.phase.i] + [keys[w.phase.i]] == keys[..w.phase.i + 1];
    }
  }

  lemma {:induction false} WithdrawalInStep(keys: seq<Key>, w: World, step: Step)
    requires InStep(keys, w) && Balanced(w) && Enabled(keys, w, step)
    requires step != Drop(false) && !step.TaskStopped?
    requires !step.Authorized? && !step.Resolved? && !step.Upserted? && !step.Answered?
    ensures InStep(keys, Next(keys, w, step))
  {
  }

  /** One withdrawal returns. */
  lemma {:induction false} OneReturns(w: World, w': World)
    requires Balanced(w) && Pending(w) != []
    requires Pending(w') == Most(Pending(w)) && w'.returned == w.returned + [Last(Pending(w))] && w'.begun == w.begun
    ensures Balanced(w')
  {
  }

  lemma {:induction false} BalancedStep(keys: seq<Key>, w: World, step: Step)
    requires InStep(keys, w) && Balanced(w) && Enabled(keys, w, step)
    requires step != Drop(false) && !step.TaskStopped?
    ensures Balanced(Next(keys, w, step))
  {
    var w' := Next(keys, w, step);
    if step.Authorized? && w.phase.i < |keys| && step.ok {
      assert Pending(w') == w'.begun;
    } else if |Pending(w')| < |Pending(w)| {
      OneReturns(w, w');
    } else {
      assert Pending(w') == Pending(w) && w'.returned == w.returned && w'.begun == w.begun;
    }
  }

  lemma {:induction false} RunKeepsInv(keys: seq<Key>, ws: seq<World>, steps: seq<Step>, i: nat)
    requires Run(keys, ws, steps) && Looked(steps) && i < |ws|
    ensures InStep(keys, ws[i]) && Balanced(ws[i]) && ZonesRight(ws[i]) && Cleared(ws[i])
  {
    if i > 0 {
      RunKeepsInv(keys, ws, steps, i - 1);
      ZonesStep(keys, ws[i - 1], steps[i - 1]);
      ClearedStep(keys, ws[i - 1], steps[i - 1]);
      InStepStep(keys, ws[i - 1], steps[i - 1]);
      BalancedStep(keys, ws[i - 1], steps[i - 1]);
    }
  }

  // ----- Main results -----

  /** No drop outside a runtime. */
  predicate Inside(steps: seq<Step>) {
    forall i :: 0 <= i < |steps| ==> steps[i] != Drop(false)
  }

  /** Until the order is dropped, and while a detached withdrawal lives, nothing is unaccounted for; later it was at least spawned. */
  predicate Handed(keys: seq<Key>, w: World) {
    && (!w.phase.Dropped? || w.task.Some? ==> InStep(keys, w) && Balanced(w))
    && (w.phase.Dropped? ==> forall k :: k in w.begun ==> k in w.returned || k in w.spawned)
    && (w.task.Some? ==> w.phase.Dropped?)
  }

  lemma {:induction false} AccountedFor(w: World, k: Key)
    requires Balanced(w) && k in w.begun
    ensures k in w.returned || k in Pending(w)
  {
    var j :| 0 <= j < |w.begun| && w.begun[j] == k;
    if j < |Pending(w)| {
      assert Pending(w)[j] == k;
    } else {
      assert w.returned[|w.begun| - 1 - j] == k;
    }
  }

  lemma {:induction false} HandedStep(keys: seq<Key>, w: World, step: Step)
    requires Handed(keys, w) && Enabled(keys, w, step) && step != Drop(false)
    ensures Handed(keys, Next(keys, w, step))
  {
    var w' := Next(keys, w, step);
    if !step.TaskStopped? {
      InStepStep(keys, w, step);
      BalancedStep(keys, w, step);
    }
    if w'.phase.Dropped? {
      forall k | k in w'.begun ensures k in w'.returned || k in w'.spawned {
        if step.Drop? {
          AccountedFor(w, k);
        } else {
          assert w.phase.Dropped? && w'.spawned == w.spawned && w.returned <= w'.returned;
        }
      }
    }
  }

  lemma {:induction false} RunHands(keys: seq<Key>, ws: seq<World>, steps: seq<Step>, i: nat)
    requires Run(keys, ws, steps) && Inside(steps) && i < |ws|
    ensures Handed(keys, ws[i])
  {
    if i > 0 {
      RunHands(keys, ws, steps, i - 1);
      HandedStep(keys, ws[i - 1], steps[i - 1]);
    }
  }

  /**
   * However the order ended, every challenge whose publish began has had its
   * withdrawal return, or was on the list of the withdrawal that was spawned,
   * and is on it still if that one lives.
   */
  lemma {:induction false} EveryChallengeIsWithdrawn(keys: seq<Key>, ws: seq<World>, steps: seq<Step>, i: nat, k: Key)
    requires Run(keys, ws, steps) && Inside(steps) && i < |ws| && k in ws[i].begun
    requires ws[i].phase.Ended? || ws[i].phase.Dropped?
    ensures k in ws[i].returned || (ws[i].phase.Dropped? && k in ws[i].spawned)
    ensures ws[i].task.Some? ==> k in ws[i].returned || k in ws[i].task.value.left
  {
    RunHands(keys, ws, steps, i);
    if ws[i].phase.Ended? || ws[i].task.Some? {
      AccountedFor(ws[i], k);
    }
  }

  /** An entry leaves the list when its withdrawal returns, or goes to the spawned withdrawal with all the others. */
  lemma {:induction false} NoEntryLeavesEarly(keys: seq<Key>, ws: seq<World>, steps: seq<Step>, i: nat)
    requires Run(keys, ws, steps) && Looked(steps) && i < |steps| && |Pending(ws[i + 1])| < |Pending(ws[i])|
    ensures Pending(ws[i + 1]) == Most(Pending(ws[i]))
    ensures ws[i + 1].returned == ws[i].returned + [Last(Pending(ws[i]))]
    ensures steps[i].DeleteReturned? || steps[i].TaskReturned? || Last(Pending(ws[i])) !in ws[i].zones
  {
    RunKeepsInv(keys, ws, steps, i);
  }

  /** What is remembered or deleted from is a zone a write used. */
  predicate Written(w: World) {
    (forall k :: k in w.zones ==> (k, w.zones[k]) in w.used) && w.deleted <= w.used
  }

  lemma {:induction false} WrittenStep(keys: seq<Key>, w: World, step: Step)
    requires Written(w) && Enabled(keys, w, step)
    ensures Written(Next(keys, w, step))
  {
  }

  /** Every deletion goes to a zone that a publish of that challenge used, even for a withdrawal run a second time. */
  lemma {:induction false} DeletesWhereItPublished(keys: seq<Key>, ws: seq<World>, steps: seq<Step>, i: nat)
    requires Run(keys, ws, steps) && i < |ws|
    ensures Written(ws[i])
  {
    if i > 0 {
      DeletesWhereItPublished(keys, ws, steps, i - 1);
      WrittenStep(keys, ws[i - 1], steps[i - 1]);
    }
  }

  /** No challenge was written to two zones. */
  predicate OneZoneEach(used: set<(Key, string)>) {
    forall u, v :: u in used && v in used && u.0 == v.0 ==> u == v
  }

  /** Once every withdrawal has returned, nothing written is left undeleted exactly when no challenge was in two zones. */
  lemma {:induction false} CleanExactlyWhen(keys: seq<Key>, ws: seq<World>, steps: seq<Step>, i: nat)
    requires Run(keys, ws, steps) && Looked(steps) && i < |ws| && Pending(ws[i]) == []
    ensures ws[i].used <= ws[i].deleted <==> OneZoneEach(ws[i].used)
  {
    RunKeepsInv(keys, ws, steps, i);
    var w := ws[i];
    assert w.zones == map[];
    if OneZoneEach(w.used) {
      forall u | u in w.used ensures u in w.deleted {
        assert (u.0, w.latest[u.0]) in w.used;
      }
    }
  }

  // ----- Distinct challenges -----

  /** Each challenge written is one already begun, and in one zone. */
  predicate SoFar(keys: seq<Key>, w: World)
    requires InStep(keys, w)
  {
    && OneZoneEach(w.used)
    && (w.phase.Asking? ==> forall u :: u in w.used ==> u.0 in keys[..w.phase.i])
    && (w.phase.Resolving? ==> forall u :: u in w.used ==> u.0 in keys[..w.phase.i])
    && (w.phase.Upserting? || w.phase.Answering? ==> forall u :: u in w.used ==> u.0 in keys[..w.phase.i + 1])
  }

  lemma {:induction false} SoFarStep(keys: seq<Key>, w: World, step: Step)
    requires NoDuplicates(keys) && InStep(keys, w) && SoFar(keys, w) && Enabled(keys, w, step)
    requires InStep(keys, Next(keys, w, step))
    ensures SoFar(keys, Next(keys, w, step))
  {
    if step.Resolved? && step.zone.Some? {
      SoFarWrites(keys, w, step);
    } else {
      assert Next(keys, w, step).used == w.used;
    }
  }

  lemma {:induction false} SoFarWrites(keys: seq<Key>, w: World, step: Step)
    requires NoDuplicates(keys) && InStep(keys, w) && SoFar(keys, w) && Enabled(keys, w, step)
    requires step.Resolved? && step.zone.Some? && InStep(keys, Next(keys, w, step))
    ensures SoFar(keys, Next(keys, w, step))
  {
    var i := w.phase.i;
    assert keys[..i + 1] == keys[..i] + [keys[i]];
    assert keys[i] !in keys[..i];
  }

  lemma {:induction false} RunSoFar(keys: seq<Key>, ws: seq<World>, steps: seq<Step>, i: nat)
    requires NoDuplicates(keys) && Run(keys, ws, steps) && Looked(steps) && i < |ws|
    ensures InStep(keys, ws[i]) && SoFar(keys, ws[i])
  {
    RunKeepsInv(keys, ws, steps, i);
    if i > 0 {
      RunSoFar(keys, ws, steps, i - 1);
      RunKeepsInv(keys, ws, steps, i - 1);
      SoFarStep(keys, ws[i - 1], steps[i - 1]);
    }
  }

  /** With distinct challenges, every record written is deleted from its own zone once all withdrawals have returned. */
  lemma {:induction false} DistinctChallengesAreCleaned(keys: seq<Key>, ws: seq<World>, steps: seq<Step>, i: nat)
    requires NoDuplicates(keys) && Run(keys, ws, steps) && Looked(steps) && i < |ws| && Pending(ws[i]) == []
    ensures ws[i].used <= ws[i].deleted
  {
    RunSoFar(keys, ws, steps, i);
    CleanExactlyWhen(keys, ws, steps, i);
  }

  // ----- A challenge asked for twice -----

  lemma {:induction false} OneMoreStep(keys: seq<Key>, ws: seq<World>, steps: seq<Step>, step: Step)
      returns (ws': seq<World>, steps': seq<Step>)
    requires Run(keys, ws, steps) && Looked(steps) && Enabled(keys, Last(ws), step)
    requires step != Drop(false) && !step.TaskStopped?
    ensures Run(keys, ws', steps') && Looked(steps') && Last(ws') == Next(keys, Last(ws), step)
  {
    ws', steps' := ws + [Next(keys, Last(ws), step)], steps + [step];
    forall i | 0 <= i < |steps'|
      ensures Enabled(keys, ws'[i], steps'[i]) && ws'[i + 1] == Next(keys, ws'[i], steps'[i])
    {
      if i < |steps| {
        assert ws'[i] == ws[i] && ws'[i + 1] == ws[i + 1];
      } else {
        assert ws'[i] == Last(ws);
      }
    }
  }

  /** A run that publishes the first `n` challenges in zone `a`. */
  lemma {:induction false} Publishes(keys: seq<Key>, n: nat) returns (ws: seq<World>, steps: seq<Step>)
    requires n <= |keys|
    ensures Run(keys, ws, steps) && Looked(steps) && Last(ws).phase == Asking(n)
    ensures forall i :: 0 <= i < n ==> (keys[i], "a") in Last(ws).used
  {
    if n == 0 {
      ws, steps := [NEW], [];
    } else {
      ws, steps := Publishes(keys, n - 1);
      ghost var used := Last(ws).used;
      ws, steps := OneMoreStep(keys, ws, steps, Authorized(true));
      ws, steps := OneMoreStep(keys, ws, steps, Resolved(Some("a")));
      assert Last(ws).used == used + {(keys[n - 1], "a")};
      ws, steps := OneMoreStep(keys, ws, steps, Upserted(true));
      ws, steps := OneMoreStep(keys, ws, steps, Answered(true));
    }
  }

  /** A run that has begun to withdraw goes on until everything is withdrawn. */
  lemma {:induction false} Withdraws(keys: seq<Key>, ws: seq<World>, steps: seq<Step>)
      returns (ws': seq<World>, steps': seq<Step>)
    requires Run(keys, ws, steps) && Looked(steps) && Last(ws).phase.Withdrawing?
    ensures Run(keys, ws', steps') && Looked(steps') && Pending(Last(ws')) == [] && Last(ws').used == Last(ws).used
    decreases |Last(ws).entries|
  {
    if Last(ws).entries == [] {
      ws', steps' := ws, steps;
    } else {
      ws', steps' := OneMoreStep(keys, ws, steps, WithdrawNext);
      if Last(ws').phase.Deleting? {
        ws', steps' := OneMoreStep(keys, ws', steps', DeleteReturned);
      }
      ws', steps' := Withdraws(keys, ws', steps');
    }
  }

  /** A challenge asked for twice can be written to two zones, and all withdrawals return with one record left. */
  lemma {:induction false} RepeatedChallengeLeavesARecord(keys: seq<Key>, i: nat, j: nat) returns (ws: seq<World>, steps: seq<Step>)
    requires i < j < |keys| && keys[i] == keys[j]
    ensures Run(keys, ws, steps) && Looked(steps) && Pending(Last(ws)) == [] && !(Last(ws).used <= Last(ws).deleted)
  {
    ws, steps := Publishes(keys, j);
    ws, steps := OneMoreStep(keys, ws, steps, Authorized(true));
    ws, steps := OneMoreStep(keys, ws, steps, Resolved(Some("b")));
    assert (keys[j], "b") in Last(ws).used && (keys[i], "a") in Last(ws).used;
    ws, steps := OneMoreStep(keys, ws, steps, Upserted(false));
    ws, steps := Withdraws(keys, ws, steps);
    assert "a" != "b";
    CleanExactlyWhen(keys, ws, steps, |ws| - 1);
  }

  /** Whenever every withdrawal has returned, nothing written is left undeleted. */
  ghost predicate AlwaysClean(keys: seq<Key>) {
    forall ws, steps :: Run(keys, ws, steps) && Looked(steps) && Pending(Last(ws)) == [] ==> Last(ws).used <= Last(ws).deleted
  }

  /** An order always cleans up after itself exactly when no challenge is asked for twice. */
  lemma {:induction false} AlwaysCleanExactlyWhen(keys: seq<Key>)
    ensures AlwaysClean(keys) <==> NoDuplicates(keys)
  {
    if NoDuplicates(keys) {
      forall ws, steps | Run(keys, ws, steps) && Looked(steps) && Pending(Last(ws)) == []
        ensures Last(ws).used <= Last(ws).deleted
      {
        DistinctChallengesAreCleaned(keys, ws, steps, |ws| - 1);
      }
    } else {
      var i, j :| 0 <= i < j < |keys| && keys[i] == keys[j];
      var ws, steps := RepeatedChallengeLeavesARecord(keys, i, j);
      assert Run(keys, ws, steps);
    }
  }
}
