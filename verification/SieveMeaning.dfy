/**
 * What a Sieve script means, without the interpreter and its budget: when a test
 * holds, which actions are carried out under which variables, and what those
 * actions decide. Whenever its budget lasts, the interpreter is proved to decide
 * exactly that.
 */
module SieveMeaning {
  import opened Basics
  import opened SieveAst
  import opened SieveAnalysis
  import opened SieveRun
  import Text

  /** What a run has at hand besides its budget: variables, captures, and whether a limit cut something. */
  datatype Scene = Scene(vars: map<string, string>, captures: seq<string>, truncated: bool, overCaps: bool)

  function SceneOf(e: Env): Scene { Scene(e.vars, e.captures, e.truncated, e.overCaps) }

  const OPENING := Scene(map[], [], false, false)

  /** The message's answers in a scene: to a leaf test and what it leaves, to the expansion of a text, to an assignment and to a split into words. */
  datatype Reading = Reading(verdict: (Test, Scene) -> bool, left: (Test, Scene) -> Scene,
                             text: (string, Scene) -> string, bound: (string, string, Scene) -> Scene, words: string -> seq<string>)

  /** The host answers by the scene; how much budget is spent so far makes no difference, unless it runs out. */
  ghost predicate Answers(h: Host, r: Reading) {
    && (forall t, e :: Answered(e, h.leaf(t, e).1, r.left(t, SceneOf(e))))
    && (forall t, e :: !h.leaf(t, e).1.exhausted ==> h.leaf(t, e).0 == r.verdict(t, SceneOf(e)))
    && (forall text, e :: h.expand(text, e) == r.text(text, SceneOf(e)))
    && (forall name, value, e :: Answered(e, h.assign(name, value, e), r.bound(name, value, SceneOf(e))))
    && (forall text :: h.words(text) == r.words(text))
  }

  /** A budget that ran out stays so; one that lasts leaves the scene `sc`. */
  predicate Answered(e: Env, e': Env, sc: Scene) {
    (e.exhausted ==> e'.exhausted) && (!e'.exhausted ==> SceneOf(e') == sc)
  }

  // ----- Tests -----

  /** Whether a test holds in a scene, and the scene it leaves. */
  function Says(r: Reading, t: Test, sc: Scene): (bool, Scene)
    decreases t
  {
    if t.name == "true" then (true, sc)
    else if t.name == "false" then (false, sc)
    else if t.name == "not" then (if t.children == [] then (true, sc) else (!Says(r, t.children[0], sc).0, Says(r, t.children[0], sc).1))
    else if t.name == "allof" then SaysEach(r, t.children, sc, true)
    else if t.name == "anyof" then var (each, sc') := SaysEach(r, t.children, sc, false); (!each, sc')
    else (r.verdict(t, sc), r.left(t, sc))
  }

  /** Whether each test answers `b`, one after another up to the first that does not. */
  function SaysEach(r: Reading, ts: seq<Test>, sc: Scene, b: bool): (bool, Scene)
    decreases ts
  {
    if ts == [] then (true, sc)
    else if Says(r, ts[0], sc).0 == b then SaysEach(r, ts[1..], Says(r, ts[0], sc).1, b)
    else (false, Says(r, ts[0], sc).1)
  }

  /** Each test answers `b` in the scene the one before it left. */
  ghost predicate Chain(r: Reading, ts: seq<Test>, b: bool, scs: seq<Scene>) {
    |scs| == |ts| + 1 && forall i :: 0 <= i < |ts| ==> Says(r, ts[i], scs[i]) == (b, scs[i + 1])
  }

  lemma {:induction false} LongerChain(r: Reading, ts: seq<Test>, b: bool, scs: seq<Scene>, sc: Scene)
    requires ts != [] && Chain(r, ts[1..], b, scs) && Says(r, ts[0], sc) == (b, scs[0])
    ensures Chain(r, ts, b, [sc] + scs)
  {
    var all := [sc] + scs;
    forall i | 0 <= i < |ts| ensures Says(r, ts[i], all[i]) == (b, all[i + 1]) {
      if i > 0 {
        assert Says(r, ts[1..][i - 1], scs[i - 1]) == (b, scs[i]);
      }
    }
  }

  /** All tests answer `b` exactly when they do so one after another. */
  lemma {:induction false} EachExactly(r: Reading, ts: seq<Test>, sc: Scene, b: bool, end: Scene)
    ensures SaysEach(r, ts, sc, b) == (true, end) <==> exists scs :: Chain(r, ts, b, scs) && scs[0] == sc && scs[|ts|] == end
    decreases ts
  {
    if ts == [] {
      if SaysEach(r, ts, sc, b) == (true, end) {
        assert Chain(r, ts, b, [sc]);
      }
    } else {
      var next := Says(r, ts[0], sc).1;
      EachExactly(r, ts[1..], next, b, end);
      if SaysEach(r, ts, sc, b) == (true, end) {
        var scs :| Chain(r, ts[1..], b, scs) && scs[0] == next && scs[|ts[1..]|] == end;
        LongerChain(r, ts, b, scs, sc);
        assert ([sc] + scs)[|ts|] == end;
      }
      if scs :| Chain(r, ts, b, scs) && scs[0] == sc && scs[|ts|] == end {
        assert Says(r, ts[0], scs[0]) == (b, scs[1]);
        ShorterChain(r, ts, b, scs);
        assert scs[1..][|ts[1..]|] == end;
      }
    }
  }

  lemma {:induction false} ShorterChain(r: Reading, ts: seq<Test>, b: bool, scs: seq<Scene>)
    requires ts != [] && Chain(r, ts, b, scs)
    ensures Chain(r, ts[1..], b, scs[1..])
  {
    forall i | 0 <= i < |ts[1..]| ensures Says(r, ts[1..][i], scs[1..][i]) == (b, scs[1..][i + 1]) {
      assert Says(r, ts[i + 1], scs[i + 1]) == (b, scs[i + 2]);
    }
  }

  /** `allof` holds exactly when each test does, `anyof` fails exactly when each does, after the ones before it. */
  lemma {:induction false} TestsMeanEach(r: Reading, ts: seq<Test>, args: seq<Argument>, sc: Scene, end: Scene)
    ensures Says(r, Test("allof", args, ts), sc) == (true, end) <==> exists scs :: Chain(r, ts, true, scs) && scs[0] == sc && scs[|ts|] == end
    ensures Says(r, Test("anyof", args, ts), sc) == (false, end) <==> exists scs :: Chain(r, ts, false, scs) && scs[0] == sc && scs[|ts|] == end
  {
    EachExactly(r, ts, sc, true, end);
    EachExactly(r, ts, sc, false, end);
  }

  /** When a test holds, if no test leaves a trace. */
  predicate Holds(r: Reading, t: Test, sc: Scene)
    decreases t
  {
    if t.name == "true" then true
    else if t.name == "false" then false
    else if t.name == "not" then !(t.children != [] && Holds(r, t.children[0], sc))
    else if t.name == "allof" then forall i :: 0 <= i < |t.children| ==> Holds(r, t.children[i], sc)
    else if t.name == "anyof" then exists i :: 0 <= i < |t.children| && Holds(r, t.children[i], sc)
    else r.verdict(t, sc)
  }

  ghost predicate Traceless(r: Reading) { forall t, sc :: r.left(t, sc) == sc }

  /** Tests that leave no trace hold as the words say. */
  lemma {:induction false} HoldsAsSaid(r: Reading, t: Test, sc: Scene)
    requires Traceless(r)
    ensures Says(r, t, sc) == (Holds(r, t, sc), sc)
    decreases t
  {
    if t.name == "not" && t.children != [] {
      HoldsAsSaid(r, t.children[0], sc);
    } else if t.name == "allof" {
      EachHolds(r, t.children, sc, true);
    } else if t.name == "anyof" {
      EachHolds(r, t.children, sc, false);
    }
  }

  lemma {:induction false} EachHolds(r: Reading, ts: seq<Test>, sc: Scene, b: bool)
    requires Traceless(r)
    ensures SaysEach(r, ts, sc, b) == ((forall i :: 0 <= i < |ts| ==> Holds(r, ts[i], sc) == b), sc)
    decreases ts
  {
    if ts != [] {
      HoldsAsSaid(r, ts[0], sc);
      EachHolds(r, ts[1..], sc, b);
      assert forall i :: 0 < i < |ts| ==> ts[i] == ts[1..][i - 1];
      if Holds(r, ts[0], sc) == b && (forall i :: 0 <= i < |ts[1..]| ==> Holds(r, ts[1..][i], sc) == b) {
        forall i | 0 <= i < |ts| ensures Holds(r, ts[i], sc) == b {
          assert i > 0 ==> Holds(r, ts[1..][i - 1], sc) == b;
        }
      }
      if forall i :: 0 <= i < |ts| ==> Holds(r, ts[i], sc) == b {
        forall i | 0 <= i < |ts[1..]| ensures Holds(r, ts[1..][i], sc) == b {
          assert Holds(r, ts[i + 1], sc) == b;
        }
      }
    }
  }

  /** Whenever its budget lasts, the interpreter finds that a test holds exactly when it does. */
  lemma {:induction false} TestMeans(h: Host, r: Reading, t: Test, e: Env)
    requires Answers(h, r)
    ensures var ((holds, e'), (says, sc)) := (EvalTest(h, t, e), Says(r, t, SceneOf(e)));
            Answered(e, e', sc) && (!e'.exhausted ==> holds == says)
    decreases t
  {
    var e1 := Step(e);
    assert SceneOf(e1) == SceneOf(e);
    if !e1.exhausted {
      if t.name == "not" && t.children != [] {
        TestMeans(h, r, t.children[0], e1);
      } else if t.name == "allof" {
        AllMeans(h, r, t.children, e1);
      } else if t.name == "anyof" {
        AnyMeans(h, r, t.children, e1);
      }
    }
  }

  /** For hosts whose tests leave no trace: a test holds exactly when the words say, whenever the budget lasts. */
  lemma {:induction false} TestHoldsExactly(h: Host, r: Reading, t: Test, e: Env)
    requires Answers(h, r) && Traceless(r)
    ensures !EvalTest(h, t, e).1.exhausted ==> (EvalTest(h, t, e).0 <==> Holds(r, t, SceneOf(e)))
  {
    TestMeans(h, r, t, e);
    HoldsAsSaid(r, t, SceneOf(e));
  }

  lemma {:induction false} AllMeans(h: Host, r: Reading, ts: seq<Test>, e: Env)
    requires Answers(h, r)
    ensures var ((holds, e'), (says, sc)) := (EvalAll(h, ts, e), SaysEach(r, ts, SceneOf(e), true));
            Answered(e, e', sc) && (!e'.exhausted ==> holds == says)
    decreases ts
  {
    if ts != [] {
      TestMeans(h, r, ts[0], e);
      AllMeans(h, r, ts[1..], EvalTest(h, ts[0], e).1);
    }
  }

  lemma {:induction false} AnyMeans(h: Host, r: Reading, ts: seq<Test>, e: Env)
    requires Answers(h, r)
    ensures var ((holds, e'), (says, sc)) := (EvalAny(h, ts, e), SaysEach(r, ts, SceneOf(e), false));
            Answered(e, e', sc) && (!e'.exhausted ==> holds != says)
    decreases ts
  {
    if ts != [] {
      TestMeans(h, r, ts[0], e);
      AnyMeans(h, r, ts[1..], EvalTest(h, ts[0], e).1);
    }
  }

  // ----- Which actions are carried out -----

  /** An action and the scene it is carried out in. */
  datatype Order = Order(name: string, args: seq<Argument>, scene: Scene)

  /** The actions of a script in order, whether it came to a `stop`, and the scene it leaves. */
  datatype Course = Course(orders: seq<Order>, stopped: bool, scene: Scene)

  function Plan(r: Reading, cs: seq<Command>, sc: Scene): Course
    decreases cs
  {
    if cs == [] then Course([], false, sc)
    else
      var first := PlanOne(r, cs[0], sc);
      if first.stopped then first
      else var rest := Plan(r, cs[1..], first.scene); rest.(orders := first.orders + rest.orders)
  }

  function PlanOne(r: Reading, c: Command, sc: Scene): Course
    decreases c
  {
    match c
    case Action(name, args) => Course([Order(name, args, sc)], name == "stop", SceneAfter(r, Order(name, args, sc)))
    case If(branches, otherwise) =>
      var (taken, sc') := PlanBranches(r, branches, sc);
      if taken.Some? then taken.value else PlanElse(r, otherwise, sc')
  }

  function PlanElse(r: Reading, o: Otherwise, sc: Scene): Course
    decreases o
  {
    if o.NoElse? then Course([], false, sc) else Plan(r, o.body, sc)
  }

  /** `set` binds its first string to the expansion of its second. */
  function SceneAfter(r: Reading, a: Order): Scene {
    var strings := Strings(a.args);
    if a.name == "set" && |strings| >= 2 then r.bound(strings[0], r.text(strings[1], a.scene), a.scene) else a.scene
  }

  /** The course of the branch taken, if one is, and else the scene their tests leave. */
  function PlanBranches(r: Reading, bs: seq<Branch>, sc: Scene): (Option<Course>, Scene)
    decreases bs
  {
    if bs == [] then (None, sc)
    else
      var (holds, sc') := Says(r, bs[0].test, sc);
      if holds then (Some(Plan(r, bs[0].body, sc')), sc') else PlanBranches(r, bs[1..], sc')
  }

  function TestsOf(bs: seq<Branch>): (ts: seq<Test>)
    ensures |ts| == |bs|
  {
    seq(|bs|, i requires 0 <= i < |bs| => bs[i].test)
  }

  /** Of a conditional, the body of the first branch whose test holds, else the `else` block, else nothing. */
  lemma {:induction false} FirstThatHolds(r: Reading, bs: seq<Branch>, o: Otherwise, scs: seq<Scene>, k: nat)
    requires k <= |bs| && Chain(r, TestsOf(bs[..k]), false, scs) && (k < |bs| ==> Says(r, bs[k].test, scs[k]).0)
    ensures PlanOne(r, If(bs, o), scs[0]) ==
              if k < |bs| then Plan(r, bs[k].body, Says(r, bs[k].test, scs[k]).1)
              else if o.Else? then Plan(r, o.body, scs[k]) else Course([], false, scs[k])
    decreases k
  {
    if k > 0 {
      var ts := TestsOf(bs[..k]);
      assert ts[0] == bs[0].test && Says(r, ts[0], scs[0]) == (false, scs[1]);
      assert ts[1..] == TestsOf(bs[1..][..k - 1]);
      ShorterChain(r, ts, false, scs);
      FirstThatHolds(r, bs[1..], o, scs[1..], k - 1);
    }
  }

  // ----- What actions decide -----

  /** The texts that differ by `key`, each where it first comes up. */
  function Distinct(xs: seq<string>, key: string -> string): seq<string> {
    if xs == [] then []
    else if exists i :: 0 <= i < |xs| - 1 && key(xs[i]) == key(Last(xs)) then Distinct(Most(xs), key)
    else Distinct(Most(xs), key) + [Last(xs)]
  }

  /** The first `n` of them. */
  function Kept(xs: seq<string>, key: string -> string, n: nat): (r: seq<string>)
    ensures |r| <= n
  {
    var all := Distinct(xs, key);
    all[..Min(n, |all|)]
  }

  predicate In(list: seq<string>, key: string -> string, x: string) {
    exists i :: 0 <= i < |list| && key(list[i]) == key(x)
  }

  /** How many are not in the list. */
  function Outside(xs: seq<string>, key: string -> string, list: seq<string>): nat {
    if xs == [] then 0 else Outside(Most(xs), key, list) + if In(list, key, Last(xs)) then 0 else 1
  }

  /** The text of an action, from its first string argument. */
  function TextOf(r: Reading, a: Order): Option<string> {
    match FirstStr(a.args) case None => None case Some(text) => Some(r.text(text, a.scene))
  }

  /** The texts of the actions of a name, in order. */
  function Texts(r: Reading, acts: seq<Order>, name: string): seq<string> {
    if acts == [] then []
    else Texts(r, Most(acts), name) +
         if Last(acts).name == name && TextOf(r, Last(acts)).Some? then [TextOf(r, Last(acts)).value] else []
  }

  predicate Any(acts: seq<Order>, p: Order -> bool) {
    exists i :: 0 <= i < |acts| && p(acts[i])
  }

  /** The last answer of the actions that have one. */
  function LastOf<T>(acts: seq<Order>, f: Order -> Option<T>): Option<T> {
    if acts == [] then None else if f(Last(acts)).Some? then f(Last(acts)) else LastOf(Most(acts), f)
  }

  /** Once a limit has cut a pattern short, a discard or refusal is taken for a keep. */
  predicate Spared(a: Order) { a.scene.overCaps && a.name in {"discard", "reject", "ereject"} }

  function Keeps(): Order -> bool { (a: Order) => a.name == "keep" || Spared(a) }

  function Discards(): Order -> bool { (a: Order) => a.name == "discard" && !Spared(a) }

  function Refusal(r: Reading): Order -> Option<string> {
    (a: Order) => if (a.name == "reject" || a.name == "ereject") && !Spared(a) then TextOf(r, a) else None
  }

  function Reply(): Order -> Option<Option<Vacation>> {
    (a: Order) => if a.name == "vacation" then Some(VacationOf(a.args, None, NO_VACATION)) else None
  }

  /** An action that takes the place of keeping: a discard, or a filing, refusal or forward that is no copy. */
  function Cancels(r: Reading): Order -> bool {
    (a: Order) =>
      || Discards()(a)
      || (a.name == "fileinto" && TextOf(r, a).Some? && !HasTag(a.args, "copy"))
      || Refusal(r)(a).Some?
      || (a.name == "redirect" && TextOf(r, a).Some? && !HasTag(a.args, "copy"))
  }

  function FlagsOf(r: Reading, acts: seq<Order>): seq<string> {
    if acts == [] then []
    else
      var a, before := Last(acts), FlagsOf(r, Most(acts));
      if a.name in {"setflag", "addflag", "removeflag"} then NewFlags(a.name, before, AllWords(r, Strings(a.args))) else before
  }

  function AllWords(r: Reading, texts: seq<string>): seq<string> {
    if texts == [] then [] else r.words(texts[0]) + AllWords(r, texts[1..])
  }

  /** The folder, if the action files into it and asks for it to be made. */
  function Made(r: Reading, a: Order): Option<string> {
    if a.name == "fileinto" && HasTag(a.args, "create") then TextOf(r, a) else None
  }

  function Asked(r: Reading, acts: seq<Order>): set<string> {
    set i | 0 <= i < |acts| && Made(r, acts[i]).Some? :: Made(r, acts[i]).value
  }

  function Identity(): string -> string { (s: string) => s }

  function Lowered(): string -> string { (s: string) => Text.Lower(s) }

  /** What the actions decide, with keeping only as asked for. */
  function Done(r: Reading, acts: seq<Order>): Outcome {
    var folders, targets := Texts(r, acts, "fileinto"), Texts(r, acts, "redirect");
    var filed, sent := Kept(folders, Identity(), 8), Kept(targets, Lowered(), 4);
    var reply := LastOf(acts, Reply());
    Outcome(Any(acts, Keeps()), filed, Asked(r, acts) * Elements(filed), sent, Any(acts, Discards()),
            FlagsOf(r, acts), LastOf(acts, Refusal(r)), if reply.None? then None else reply.value,
            false, false, false, Dropped(0, false, false),
            Outside(targets, Lowered(), sent), Outside(folders, Identity(), filed))
  }

  /** What they decide: a message nothing takes the place of keeping is kept. */
  function Verdict(r: Reading, course: Course): Outcome {
    var acts := course.orders;
    Done(r, acts).(keep := Any(acts, Keeps()) || !Any(acts, Cancels(r)),
                   truncated := course.scene.truncated, overCaps := course.scene.overCaps)
  }

  // ----- One action more -----

  lemma {:induction false} AnyMore(acts: seq<Order>, a: Order, p: Order -> bool)
    ensures Any(acts + [a], p) <==> Any(acts, p) || p(a)
  {
    var more := acts + [a];
    if i :| 0 <= i < |acts| && p(acts[i]) {
      assert p(more[i]);
    }
    if p(a) {
      assert p(more[|acts|]);
    }
  }

  lemma {:induction false} AskedMore(r: Reading, acts: seq<Order>, a: Order)
    ensures Asked(r, acts + [a]) == Asked(r, acts) + (if Made(r, a).Some? then {Made(r, a).value} else {})
  {
    var more := acts + [a];
    assert forall i :: 0 <= i < |acts| ==> more[i] == acts[i];
    assert more[|acts|] == a;
  }

  lemma {:induction false} DistinctIn(xs: seq<string>, key: string -> string, x: string)
    ensures (exists i :: 0 <= i < |xs| && key(xs[i]) == key(x)) <==> In(Distinct(xs, key), key, x)
    ensures |Distinct(xs, key)| <= |xs|
  {
    if xs != [] {
      var most, last, front := Most(xs), Last(xs), Distinct(Most(xs), key);
      DistinctIn(most, key, x);
      DistinctIn(most, key, last);
      assert xs == most + [last];
      assert In(front + [last], key, x) <==> In(front, key, x) || key(last) == key(x) by {
        if In(front, key, x) {
          var i :| 0 <= i < |front| && key(front[i]) == key(x);
          assert (front + [last])[i] == front[i];
        }
        assert (front + [last])[|front|] == last;
      }
      if i :| 0 <= i < |xs| && key(xs[i]) == key(x) {
        assert i < |most| ==> most[i] == xs[i];
      }
      if i :| 0 <= i < |most| && key(most[i]) == key(x) {
        assert xs[i] == most[i];
      }
      if i :| 0 <= i < |most| && key(most[i]) == key(last) {
        assert xs[i] == most[i] && key(xs[i]) == key(Last(xs));
      }
      assert key(xs[|xs| - 1]) == key(last);
    }
  }

  lemma {:induction false} DistinctMore(xs: seq<string>, key: string -> string, x: string)
    ensures Distinct(xs + [x], key) == if In(Distinct(xs, key), key, x) then Distinct(xs, key) else Distinct(xs, key) + [x]
  {
    var more := xs + [x];
    assert Most(more) == xs && Last(more) == x;
    DistinctIn(xs, key, x);
    if i :| 0 <= i < |xs| && key(xs[i]) == key(x) {
      assert more[i] == xs[i];
    }
    if i :| 0 <= i < |more| - 1 && key(more[i]) == key(x) {
      assert xs[i] == more[i];
    }
  }

  lemma {:induction false} OutsideNone(xs: seq<string>, key: string -> string, list: seq<string>)
    requires forall i :: 0 <= i < |xs| ==> In(list, key, xs[i])
    ensures Outside(xs, key, list) == 0
  {
    if xs != [] {
      OutsideNone(Most(xs), key, list);
      assert In(list, key, xs[|xs| - 1]);
    }
  }

  /** One more text: already listed, listed now, or one too many. */
  lemma {:induction false} KeptMore(xs: seq<string>, key: string -> string, n: nat, x: string)
    ensures var list := Kept(xs, key, n);
            && (In(list, key, x) ==> Kept(xs + [x], key, n) == list && Outside(xs + [x], key, list) == Outside(xs, key, list))
            && (!In(list, key, x) && |list| < n ==> Kept(xs + [x], key, n) == list + [x] && Outside(xs + [x], key, list + [x]) == 0 == Outside(xs, key, list))
            && (!In(list, key, x) && |list| >= n ==> Kept(xs + [x], key, n) == list && Outside(xs + [x], key, list) == Outside(xs, key, list) + 1)
  {
    var list, all := Kept(xs, key, n), Distinct(xs, key);
    assert Most(xs + [x]) == xs && Last(xs + [x]) == x;
    DistinctMore(xs, key, x);
    if In(list, key, x) {
      var i :| 0 <= i < |list| && key(list[i]) == key(x);
      assert all[i] == list[i];
    } else if |list| < n {
      assert list == all && Kept(xs + [x], key, n) == all + [x];
      forall i | 0 <= i < |xs| ensures In(list, key, xs[i]) && In(list + [x], key, xs[i]) {
        DistinctIn(xs, key, xs[i]);
        var j :| 0 <= j < |list| && key(list[j]) == key(xs[i]);
        assert (list + [x])[j] == list[j];
      }
      OutsideNone(xs, key, list);
      forall i | 0 <= i < |xs + [x]| ensures In(list + [x], key, (xs + [x])[i]) {
        if i == |xs| {
          assert (list + [x])[|list|] == x;
        } else {
          assert (xs + [x])[i] == xs[i];
        }
      }
      OutsideNone(xs + [x], key, list + [x]);
    } else {
      assert |all| >= n && (all + [x])[..n] == all[..n];
    }
  }

  /** Every part of the decision after one action more. */
  lemma {:induction false} OneMore(r: Reading, acts: seq<Order>, a: Order)
    ensures var more := acts + [a];
            && (forall name :: Texts(r, more, name) == Texts(r, acts, name) + (if a.name == name && TextOf(r, a).Some? then [TextOf(r, a).value] else []))
            && (forall p :: Any(more, p) <==> Any(acts, p) || p(a))
            && Asked(r, more) == Asked(r, acts) + (if Made(r, a).Some? then {Made(r, a).value} else {})
            && LastOf(more, Refusal(r)) == (if Refusal(r)(a).Some? then Refusal(r)(a) else LastOf(acts, Refusal(r)))
            && LastOf(more, Reply()) == (if Reply()(a).Some? then Reply()(a) else LastOf(acts, Reply()))
            && FlagsOf(r, more) == if a.name in {"setflag", "addflag", "removeflag"} then NewFlags(a.name, FlagsOf(r, acts), AllWords(r, Strings(a.args))) else FlagsOf(r, acts)
  {
    assert Most(acts + [a]) == acts && Last(acts + [a]) == a;
    AskedMore(r, acts, a);
    forall p ensures Any(acts + [a], p) <==> Any(acts, p) || p(a) {
      AnyMore(acts, a, p);
    }
  }

  /** An action of another name decides nothing the named parts tell of. */
  lemma {:induction false} SameTexts(r: Reading, acts: seq<Order>, a: Order, name: string)
    requires a.name != name || TextOf(r, a).None?
    ensures Texts(r, acts + [a], name) == Texts(r, acts, name)
  {
    OneMore(r, acts, a);
  }

  // ----- The interpreter carries the plan out -----

  predicate LocalCancel(r: Reading, a: Order) {
    Discards()(a) || (a.name == "fileinto" && TextOf(r, a).Some? && !HasTag(a.args, "copy"))
  }

  predicate ExternalCancel(r: Reading, a: Order) {
    Refusal(r)(a).Some? || (a.name == "redirect" && TextOf(r, a).Some? && !HasTag(a.args, "copy"))
  }

  function Local(r: Reading): Order -> bool { (a: Order) => LocalCancel(r, a) }

  function External(r: Reading): Order -> bool { (a: Order) => ExternalCancel(r, a) }

  /** The run has carried out `acts`. */
  ghost predicate After(r: Reading, acts: seq<Order>, sc: Scene, s: State) {
    && SceneOf(s.env) == sc
    && s.out == Done(r, acts)
    && (s.cancel.local <==> Any(acts, Local(r)))
    && (s.cancel.external <==> Any(acts, External(r)))
  }

  lemma {:induction false} WordsAgree(h: Host, r: Reading, texts: seq<string>)
    requires Answers(h, r)
    ensures FlagWords(h, texts) == AllWords(r, texts)
  {
    if texts != [] {
      WordsAgree(h, r, texts[1..]);
    }
  }

  /** What filing and forwarding leave alone. */
  lemma {:induction false} SideParts(r: Reading, acts: seq<Order>, a: Order)
    requires a.name == "fileinto" || a.name == "redirect"
    ensures Any(acts + [a], Keeps()) == Any(acts, Keeps()) && Any(acts + [a], Discards()) == Any(acts, Discards())
    ensures FlagsOf(r, acts + [a]) == FlagsOf(r, acts)
    ensures LastOf(acts + [a], Refusal(r)) == LastOf(acts, Refusal(r)) && LastOf(acts + [a], Reply()) == LastOf(acts, Reply())
  {
    AnyMore(acts, a, Keeps());
    AnyMore(acts, a, Discards());
    assert Most(acts + [a]) == acts && Last(acts + [a]) == a;
  }

  lemma {:induction false} TextsMore(r: Reading, acts: seq<Order>, a: Order, name: string)
    ensures Texts(r, acts + [a], name) == Texts(r, acts, name) + (if a.name == name && TextOf(r, a).Some? then [TextOf(r, a).value] else [])
  {
    assert Most(acts + [a]) == acts && Last(acts + [a]) == a;
  }

  /** Filing: the folders, what is over, and what is to be made. */
  lemma {:induction false} FileDoes(r: Reading, acts: seq<Order>, a: Order, out: Outcome)
    requires a.name == "fileinto" && TextOf(r, a).Some? && out == Done(r, acts)
    ensures Filed(out, TextOf(r, a).value, HasTag(a.args, "create")) == Done(r, acts + [a])
  {
    var folder, folders := TextOf(r, a).value, Texts(r, acts, "fileinto");
    DoneFiling(r, acts, a, folder);
    var list, list' := Kept(folders, Identity(), 8), Kept(folders + [folder], Identity(), 8);
    FolderMore(folders, folder, list, list');
    MadeOnes(r, acts, a, folder, list, list');
    FiledIs(out, folder, HasTag(a.args, "create"), list', Asked(r, acts + [a]) * Elements(list'), Outside(folders + [folder], Identity(), list'));
  }

  lemma {:induction false} DoneFiling(r: Reading, acts: seq<Order>, a: Order, folder: string)
    requires a.name == "fileinto" && TextOf(r, a) == Some(folder)
    ensures Texts(r, acts + [a], "fileinto") == Texts(r, acts, "fileinto") + [folder]
    ensures var folders := Texts(r, acts, "fileinto") + [folder];
            var list := Kept(folders, Identity(), 8);
            Done(r, acts + [a]) == Done(r, acts).(fileinto := list, creates := Asked(r, acts + [a]) * Elements(list),
                                                  fileintoOver := Outside(folders, Identity(), list))
  {
    SideParts(r, acts, a);
    TextsMore(r, acts, a, "redirect");
    TextsMore(r, acts, a, "fileinto");
    assert Texts(r, acts, "redirect") + [] == Texts(r, acts, "redirect");
  }

  lemma {:induction false} FiledIs(out: Outcome, folder: string, create: bool, list: seq<string>, creates: set<string>, over: nat)
    requires list == if folder in out.fileinto || |out.fileinto| >= 8 then out.fileinto else out.fileinto + [folder]
    requires creates == out.creates + if create && folder in list then {folder} else {}
    requires over == out.fileintoOver + if folder !in out.fileinto && |out.fileinto| >= 8 then 1 else 0
    ensures Filed(out, folder, create) == out.(fileinto := list, creates := creates, fileintoOver := over)
  {
  }

  lemma {:induction false} FolderMore(folders: seq<string>, folder: string, list: seq<string>, list': seq<string>)
    requires list == Kept(folders, Identity(), 8) && list' == Kept(folders + [folder], Identity(), 8)
    ensures list' == if folder in list || |list| >= 8 then list else list + [folder]
    ensures Outside(folders + [folder], Identity(), list') == Outside(folders, Identity(), list) + if folder !in list && |list| >= 8 then 1 else 0
  {
    KeptMore(folders, Identity(), 8, folder);
    if folder in list {
      var i :| 0 <= i < |list| && list[i] == folder;
      assert Identity()(list[i]) == Identity()(folder);
    }
  }

  lemma {:induction false} MadeOnes(r: Reading, acts: seq<Order>, a: Order, folder: string, list: seq<string>, list': seq<string>)
    requires a.name == "fileinto" && TextOf(r, a) == Some(folder) && (list' == list || (list' == list + [folder] && folder !in list))
    requires list == Kept(Texts(r, acts, "fileinto"), Identity(), 8) && list' == Kept(Texts(r, acts + [a], "fileinto"), Identity(), 8)
    ensures Asked(r, acts + [a]) * Elements(list')
         == Asked(r, acts) * Elements(list) + (if HasTag(a.args, "create") && folder in list' then {folder} else {})
  {
    AskedMore(r, acts, a);
    if list' == list {
      MadeAgain(Asked(r, acts), Elements(list), folder, HasTag(a.args, "create"));
    } else {
      NeverAsked(r, acts, folder, list);
      ElementsMore(list, folder);
      MadeNew(Asked(r, acts), Elements(list), folder, HasTag(a.args, "create"));
    }
  }

  lemma {:induction false} ElementsMore(list: seq<string>, folder: string)
    ensures Elements(list + [folder]) == Elements(list) + {folder}
  {
  }

  lemma {:induction false} MadeAgain(asked: set<string>, listed: set<string>, folder: string, create: bool)
    ensures (asked + (if create then {folder} else {})) * listed == asked * listed + (if create && folder in listed then {folder} else {})
  {
  }

  lemma {:induction false} MadeNew(asked: set<string>, listed: set<string>, folder: string, create: bool)
    requires folder !in asked
    ensures (asked + (if create then {folder} else {})) * (listed + {folder}) == asked * listed + (if create then {folder} else {})
  {
  }

  /** A folder that is new to the list was not asked for before. */
  lemma {:induction false} NeverAsked(r: Reading, acts: seq<Order>, folder: string, list: seq<string>)
    requires list == Kept(Texts(r, acts, "fileinto"), Identity(), 8) && folder !in list
    requires Kept(Texts(r, acts, "fileinto") + [folder], Identity(), 8) == list + [folder]
    ensures folder !in Asked(r, acts)
  {
    var folders := Texts(r, acts, "fileinto");
    KeptMore(folders, Identity(), 8, folder);
    assert |list + [folder]| == |list| + 1;
    assert |list| < 8 && list == Distinct(folders, Identity());
    DistinctIn(folders, Identity(), folder);
    assert folder !in folders by {
      assert forall k :: 0 <= k < |folders| ==> Identity()(folders[k]) != Identity()(folder);
    }
    forall i | 0 <= i < |acts| && Made(r, acts[i]).Some? ensures Made(r, acts[i]).value != folder {
      TextIsThere(r, acts, i);
    }
  }

  lemma {:induction false} TextIsThere(r: Reading, acts: seq<Order>, i: nat)
    requires i < |acts| && TextOf(r, acts[i]).Some?
    ensures TextOf(r, acts[i]).value in Texts(r, acts, acts[i].name)
  {
    if i == |acts| - 1 {
      var all := Texts(r, acts, acts[i].name);
      assert all[|all| - 1] == TextOf(r, acts[i]).value;
    } else {
      assert Most(acts)[i] == acts[i];
      TextIsThere(r, Most(acts), i);
    }
  }

  /** Forwarding: the addresses and what is over. */
  lemma {:induction false} ForwardDoes(r: Reading, acts: seq<Order>, a: Order, out: Outcome)
    requires a.name == "redirect" && TextOf(r, a).Some? && out == Done(r, acts)
    ensures Forwarded(out, TextOf(r, a).value) == Done(r, acts + [a])
  {
    var target, targets := TextOf(r, a).value, Texts(r, acts, "redirect");
    DoneForwarding(r, acts, a, target);
    KeptMore(targets, Lowered(), 4, target);
    ListedIsIn(Kept(targets, Lowered(), 4), target);
  }

  lemma {:induction false} DoneForwarding(r: Reading, acts: seq<Order>, a: Order, target: string)
    requires a.name == "redirect" && TextOf(r, a) == Some(target)
    ensures var targets := Texts(r, acts, "redirect") + [target];
            var list := Kept(targets, Lowered(), 4);
            Done(r, acts + [a]) == Done(r, acts).(redirects := list, redirectsOver := Outside(targets, Lowered(), list))
  {
    SideParts(r, acts, a);
    AskedMore(r, acts, a);
    TextsMore(r, acts, a, "redirect");
    TextsMore(r, acts, a, "fileinto");
    assert Texts(r, acts, "fileinto") + [] == Texts(r, acts, "fileinto");
    assert Asked(r, acts) + {} == Asked(r, acts);
  }

  lemma {:induction false} ListedIsIn(list: seq<string>, target: string)
    ensures Listed(list, target) <==> In(list, Lowered(), target)
  {
    if i :| 0 <= i < |list| && Same(list[i], target) {
      assert Lowered()(list[i]) == Lowered()(target);
    }
    if i :| 0 <= i < |list| && Lowered()(list[i]) == Lowered()(target) {
      assert Same(list[i], target);
    }
  }

  /** An action that files and forwards nothing. */
  lemma {:induction false} OtherDoes(r: Reading, acts: seq<Order>, a: Order, out: Outcome)
    requires (a.name != "redirect" && a.name != "fileinto") || TextOf(r, a).None?
    requires out == Done(r, acts)
    ensures Done(r, acts + [a]) == out.(keep := out.keep || Keeps()(a), discarded := out.discarded || Discards()(a),
              flags := FlagsOf(r, acts + [a]), reject := if Refusal(r)(a).Some? then Refusal(r)(a) else out.reject,
              vacation := if a.name == "vacation" then VacationOf(a.args, None, NO_VACATION) else out.vacation)
  {
    OneMore(r, acts, a);
    SameTexts(r, acts, a, "redirect");
    SameTexts(r, acts, a, "fileinto");
  }

  /** The action `a` was carried out, unless the budget ran out. */
  ghost predicate Carried(r: Reading, acts: seq<Order>, a: Order, s: State, s': State, stop: bool) {
    && (s.env.exhausted ==> s'.env.exhausted)
    && (!s'.env.exhausted ==> After(r, acts + [a], SceneAfter(r, a), s') && (stop <==> a.name == "stop"))
  }

  lemma {:induction false} CancelsMore(r: Reading, acts: seq<Order>, a: Order)
    ensures Any(acts + [a], Local(r)) <==> Any(acts, Local(r)) || LocalCancel(r, a)
    ensures Any(acts + [a], External(r)) <==> Any(acts, External(r)) || ExternalCancel(r, a)
  {
    AnyMore(acts, a, Local(r));
    AnyMore(acts, a, External(r));
  }

  /** What an action comes to in terms of the state alone, unless the budget ran out. */
  predicate Becomes(s: State, s': State, stop: bool, out: Outcome, local: bool, external: bool, stops: bool, sc: Scene) {
    && Answered(s.env, s'.env, sc)
    && (!s'.env.exhausted ==>
          s'.out == out && s'.cancel == Cancel(s.cancel.local || local, s.cancel.external || external) && (stop <==> stops))
  }

  lemma {:induction false} Settle(r: Reading, acts: seq<Order>, a: Order, s: State, s': State, stop: bool, out: Outcome)
    requires After(r, acts, a.scene, s) && out == Done(r, acts + [a])
    requires Becomes(s, s', stop, out, LocalCancel(r, a), ExternalCancel(r, a), a.name == "stop", SceneAfter(r, a))
    ensures Carried(r, acts, a, s, s', stop)
  {
    CancelsMore(r, acts, a);
  }

  lemma {:induction false} FileIntoIs(h: Host, r: Reading, args: seq<Argument>, s: State)
    requires Answers(h, r)
    ensures var ((s', stop), text) := (DoFileInto(h, args, s), TextOf(r, Order("fileinto", args, SceneOf(s.env))));
            Becomes(s, s', stop, if text.None? then s.out else Filed(s.out, text.value, HasTag(args, "create")),
                    text.Some? && !HasTag(args, "copy"), false, false, SceneOf(s.env))
  {
  }

  lemma {:induction false} RedirectIs(h: Host, r: Reading, args: seq<Argument>, s: State)
    requires Answers(h, r)
    ensures var ((s', stop), text) := (DoRedirect(h, args, s), TextOf(r, Order("redirect", args, SceneOf(s.env))));
            Becomes(s, s', stop, if text.None? then s.out else Forwarded(s.out, text.value),
                    false, text.Some? && !HasTag(args, "copy"), false, SceneOf(s.env))
  {
  }

  lemma {:induction false} RejectIs(h: Host, r: Reading, name: string, args: seq<Argument>, s: State)
    requires Answers(h, r) && (name == "reject" || name == "ereject")
    ensures var ((s', stop), text) := (DoReject(h, args, s), Refusal(r)(Order(name, args, SceneOf(s.env))));
            Becomes(s, s', stop, s.out.(keep := s.out.keep || s.env.overCaps, reject := if text.None? then s.out.reject else text),
                    false, text.Some?, false, SceneOf(s.env))
  {
  }

  lemma {:induction false} FlagsIs(h: Host, r: Reading, name: string, args: seq<Argument>, s: State)
    requires Answers(h, r)
    ensures var (s', stop) := DoFlags(h, name, args, s);
            Becomes(s, s', stop, s.out.(flags := NewFlags(name, s.out.flags, AllWords(r, Strings(args)))), false, false, false, SceneOf(s.env))
  {
    WordsAgree(h, r, Strings(args));
  }

  lemma {:induction false} SetIs(h: Host, r: Reading, args: seq<Argument>, s: State)
    requires Answers(h, r)
    ensures var (s', stop) := DoSet(h, args, s);
            Becomes(s, s', stop, s.out, false, false, false, SceneAfter(r, Order("set", args, SceneOf(s.env))))
  {
    var strings := Strings(args);
    if |strings| >= 2 {
      var (value, env) := Expand(h, strings[1], s.env);
      assert SceneOf(env) == SceneOf(s.env) && value == r.text(strings[1], SceneOf(s.env));
      if !env.exhausted {
        assert Answered(env, h.assign(strings[0], value, env), r.bound(strings[0], value, SceneOf(env)));
      }
    }
  }

  lemma {:induction false} RestIs(h: Host, r: Reading, name: string, args: seq<Argument>, s: State)
    requires name !in {"fileinto", "redirect", "reject", "ereject", "setflag", "addflag", "removeflag", "set"}
    ensures var ((s', stop), a) := (SieveRun.Act(h, name, args, s), Order(name, args, SceneOf(s.env)));
            Becomes(s, s', stop,
                    s.out.(keep := s.out.keep || Keeps()(a), discarded := s.out.discarded || Discards()(a),
                           vacation := if name == "vacation" then VacationOf(args, None, NO_VACATION) else s.out.vacation),
                    Discards()(a), false, name == "stop", SceneOf(s.env))
  {
  }

  /** What the decision becomes with one action more, whichever it is. */
  function Next(r: Reading, a: Order, out: Outcome): Outcome {
    if a.name == "fileinto" then
      (if TextOf(r, a).None? then out else Filed(out, TextOf(r, a).value, HasTag(a.args, "create")))
    else if a.name == "redirect" then
      (if TextOf(r, a).None? then out else Forwarded(out, TextOf(r, a).value))
    else if a.name == "reject" || a.name == "ereject" then
      out.(keep := out.keep || a.scene.overCaps, reject := if Refusal(r)(a).None? then out.reject else Refusal(r)(a))
    else if a.name == "setflag" || a.name == "addflag" || a.name == "removeflag" then
      out.(flags := NewFlags(a.name, out.flags, AllWords(r, Strings(a.args))))
    else if a.name == "set" then out
    else
      out.(keep := out.keep || Keeps()(a), discarded := out.discarded || Discards()(a),
           vacation := if a.name == "vacation" then VacationOf(a.args, None, NO_VACATION) else out.vacation)
  }

  lemma {:induction false} NextIsDone(r: Reading, acts: seq<Order>, a: Order, out: Outcome)
    requires out == Done(r, acts)
    ensures Next(r, a, out) == Done(r, acts + [a])
  {
    if a.name == "fileinto" && TextOf(r, a).Some? {
      FileDoes(r, acts, a, out);
    } else if a.name == "redirect" && TextOf(r, a).Some? {
      ForwardDoes(r, acts, a, out);
    } else {
      OtherNext(r, acts, a, out);
    }
  }

  lemma {:induction false} OtherNext(r: Reading, acts: seq<Order>, a: Order, out: Outcome)
    requires out == Done(r, acts) && ((a.name != "redirect" && a.name != "fileinto") || TextOf(r, a).None?)
    ensures Next(r, a, out) == Done(r, acts + [a])
  {
    OtherDoes(r, acts, a, out);
    FlagsMore(r, acts, a, out);
  }

  lemma {:induction false} FlagsMore(r: Reading, acts: seq<Order>, a: Order, out: Outcome)
    requires out == Done(r, acts)
    ensures FlagsOf(r, acts + [a]) == if a.name in {"setflag", "addflag", "removeflag"} then NewFlags(a.name, out.flags, AllWords(r, Strings(a.args))) else out.flags
  {
    assert Most(acts + [a]) == acts && Last(acts + [a]) == a;
  }

  /** The action does to the state what it says. */
  ghost predicate DoesAsSaid(h: Host, r: Reading, a: Order, s: State) {
    var (s', stop) := SieveRun.Act(h, a.name, a.args, s);
    Becomes(s, s', stop, Next(r, a, s.out), LocalCancel(r, a), ExternalCancel(r, a), a.name == "stop", SceneAfter(r, a))
  }

  lemma {:induction false} FilesAsSaid(h: Host, r: Reading, a: Order, s: State)
    requires Answers(h, r) && a.scene == SceneOf(s.env) && (a.name == "fileinto" || a.name == "redirect")
    ensures DoesAsSaid(h, r, a, s)
  {
    if a.name == "fileinto" {
      FileIntoIs(h, r, a.args, s);
    } else {
      RedirectIs(h, r, a.args, s);
    }
  }

  lemma {:induction false} RefusesAsSaid(h: Host, r: Reading, a: Order, s: State)
    requires Answers(h, r) && a.scene == SceneOf(s.env) && (a.name == "reject" || a.name == "ereject")
    ensures DoesAsSaid(h, r, a, s)
  {
    RejectIs(h, r, a.name, a.args, s);
  }

  lemma {:induction false} FlagsAsSaid(h: Host, r: Reading, a: Order, s: State)
    requires Answers(h, r) && a.scene == SceneOf(s.env) && (a.name == "setflag" || a.name == "addflag" || a.name == "removeflag")
    ensures DoesAsSaid(h, r, a, s)
  {
    FlagsIs(h, r, a.name, a.args, s);
  }

  lemma {:induction false} RestAsSaid(h: Host, r: Reading, a: Order, s: State)
    requires Answers(h, r) && a.scene == SceneOf(s.env)
    requires a.name !in {"fileinto", "redirect", "reject", "ereject", "setflag", "addflag", "removeflag"}
    ensures DoesAsSaid(h, r, a, s)
  {
    if a.name == "set" {
      SetIs(h, r, a.args, s);
    } else {
      RestIs(h, r, a.name, a.args, s);
    }
  }

  lemma {:induction false} ActIs(h: Host, r: Reading, a: Order, s: State)
    requires Answers(h, r) && a.scene == SceneOf(s.env)
    ensures DoesAsSaid(h, r, a, s)
  {
    if a.name == "fileinto" || a.name == "redirect" {
      FilesAsSaid(h, r, a, s);
    } else if a.name == "reject" || a.name == "ereject" {
      RefusesAsSaid(h, r, a, s);
    } else if a.name == "setflag" || a.name == "addflag" || a.name == "removeflag" {
      FlagsAsSaid(h, r, a, s);
    } else {
      RestAsSaid(h, r, a, s);
    }
  }

  /** One action decides what it should, whenever the budget lasts. */
  lemma {:induction false} ActDoes(h: Host, r: Reading, name: string, args: seq<Argument>, s: State, acts: seq<Order>, sc: Scene)
    requires Answers(h, r) && After(r, acts, sc, s)
    ensures var (s', stop) := SieveRun.Act(h, name, args, s); Carried(r, acts, Order(name, args, sc), s, s', stop)
  {
    var a := Order(name, args, sc);
    var (s', stop) := SieveRun.Act(h, name, args, s);
    ActIs(h, r, a, s);
    NextIsDone(r, acts, a, s.out);
    Settle(r, acts, a, s, s', stop, Next(r, a, s.out));
  }

  /** The run has followed `course`, unless the budget ran out. */
  ghost predicate Followed(r: Reading, acts: seq<Order>, course: Course, s: State, s': State, stop: bool) {
    && (s.env.exhausted ==> s'.env.exhausted)
    && (!s'.env.exhausted ==> After(r, acts + course.orders, course.scene, s') && stop == course.stopped)
  }

  /** A run carries out its plan, whenever the budget lasts. */
  lemma {:induction false} ExecDoes(h: Host, r: Reading, cs: seq<Command>, s: State, acts: seq<Order>, sc: Scene)
    requires Answers(h, r) && After(r, acts, sc, s)
    ensures var (s', stop) := Exec(h, cs, s); Followed(r, acts, Plan(r, cs, sc), s, s', stop)
    decreases cs
  {
    if cs == [] {
      assert acts + [] == acts;
    } else {
      var s1 := s.(env := Step(s.env));
      if !s1.env.exhausted {
        OneDoes(h, r, cs[0], s1, acts, sc);
        var (s2, stop) := ExecOne(h, cs[0], s1);
        if !stop {
          if s2.env.exhausted {
            ExhaustedStays(h, cs[1..], s2);
          } else {
            var first := PlanOne(r, cs[0], sc);
            ExecDoes(h, r, cs[1..], s2, acts + first.orders, first.scene);
            Regroup(acts, first.orders, Plan(r, cs[1..], first.scene).orders);
          }
        }
      }
    }
  }

  lemma {:induction false} ExhaustedStays(h: Host, cs: seq<Command>, s: State)
    requires s.env.exhausted
    ensures Exec(h, cs, s).0.env.exhausted
  {
  }

  lemma {:induction false} ExhaustedBranches(h: Host, bs: seq<Branch>, s: State)
    requires s.env.exhausted
    ensures var (s1, stop, taken) := ExecBranches(h, bs, s); s1.env.exhausted && !stop && !taken
    decreases bs
  {
    if bs != [] {
      var (holds, env) := EvalTest(h, bs[0].test, s.env);
      assert !holds && env.exhausted;
      ExhaustedBranches(h, bs[1..], s.(env := env));
    }
  }

  lemma {:induction false} OneDoes(h: Host, r: Reading, c: Command, s: State, acts: seq<Order>, sc: Scene)
    requires Answers(h, r) && After(r, acts, sc, s)
    ensures var (s', stop) := ExecOne(h, c, s); Followed(r, acts, PlanOne(r, c, sc), s, s', stop)
    decreases c
  {
    match c
    case Action(name, args) => ActDoes(h, r, name, args, s, acts, sc);
    case If(branches, otherwise) =>
      BranchesDo(h, r, branches, s, acts, sc);
      var (s1, stop, taken) := ExecBranches(h, branches, s);
      if !stop && !taken {
        ElseDoes(h, r, otherwise, s1, acts);
      }
  }

  lemma {:induction false} ElseDoes(h: Host, r: Reading, o: Otherwise, s: State, acts: seq<Order>)
    requires Answers(h, r) && (!s.env.exhausted ==> After(r, acts, SceneOf(s.env), s))
    ensures var (s', stop) := ExecElse(h, o, s);
            && (s.env.exhausted ==> s'.env.exhausted)
            && (!s.env.exhausted ==> Followed(r, acts, PlanElse(r, o, SceneOf(s.env)), s, s', stop))
    decreases o
  {
    if o.NoElse? {
      assert acts + [] == acts;
    } else if s.env.exhausted {
      ExhaustedStays(h, o.body, s);
    } else {
      ExecDoes(h, r, o.body, s, acts, SceneOf(s.env));
    }
  }

  lemma {:induction false} BranchesDo(h: Host, r: Reading, bs: seq<Branch>, s: State, acts: seq<Order>, sc: Scene)
    requires Answers(h, r) && After(r, acts, sc, s)
    ensures var ((s', stop, taken), (course, sc')) := (ExecBranches(h, bs, s), PlanBranches(r, bs, sc));
            && (s.env.exhausted ==> s'.env.exhausted)
            && (!s'.env.exhausted ==>
                  && (taken <==> course.Some?)
                  && (taken ==> Followed(r, acts, course.value, s, s', stop))
                  && (!taken ==> After(r, acts, sc', s') && !stop))
    decreases bs
  {
    if bs != [] {
      TestMeans(h, r, bs[0].test, s.env);
      var (holds, env) := EvalTest(h, bs[0].test, s.env);
      var s1 := s.(env := env);
      if env.exhausted {
        if holds {
          ExhaustedStays(h, bs[0].body, s1);
        } else {
          ExhaustedBranches(h, bs[1..], s1);
        }
      } else if holds {
        ExecDoes(h, r, bs[0].body, s1, acts, SceneOf(env));
      } else {
        BranchesDo(h, r, bs[1..], s1, acts, SceneOf(env));
      }
    }
  }

  /** Whenever the budget lasts, a script decides what the actions it means decide. */
  lemma {:induction false} DecidesWhatItMeans(h: Host, r: Reading, script: seq<Command>)
    requires Answers(h, r)
    ensures !Evaluate(h, script).aborted ==> Evaluate(h, script) == Verdict(r, Plan(r, script, OPENING))
  {
    NothingDone(r);
    ExecDoes(h, r, script, START, [], OPENING);
    var course := Plan(r, script, OPENING);
    assert [] + course.orders == course.orders;
    var s := Exec(h, script, START).0;
    if !s.env.exhausted {
      FinishIs(r, course, s);
    }
  }

  lemma {:induction false} FinishIs(r: Reading, course: Course, s: State)
    requires After(r, course.orders, course.scene, s) && !s.env.exhausted
    ensures Finish(s) == Verdict(r, course)
  {
    CancelsAre(r, course.orders);
  }

  lemma {:induction false} NothingDone(r: Reading)
    ensures After(r, [], OPENING, START)
  {
  }

  lemma {:induction false} CancelsAre(r: Reading, acts: seq<Order>)
    ensures Any(acts, Cancels(r)) <==> Any(acts, Local(r)) || Any(acts, External(r))
  {
    if acts != [] {
      var most, last := Most(acts), Last(acts);
      CancelsAre(r, most);
      assert acts == most + [last];
      AnyMore(most, last, Cancels(r));
      AnyMore(most, last, Local(r));
      AnyMore(most, last, External(r));
    }
  }
}
