/**
 * What a lesson comes to, from the history of the account: when it is learned,
 * relearned, repeated, throttled, refused or passed over, what it leaves in the
 * ledger, and what the account's counters have counted.
 */
module LedgerOutcomes {
  import opened Basics
  import opened Ledger

  // ----------------------------------------------------------------- the switch

  /** Whether learning is on: as last switched since the account was last removed. */
  function On(a: Account, events: seq<Event>): bool
  {
    if events == [] then a.row.None? || a.row.value.enabled
    else match Last(events)
      case Switch(on, _) => on
      case Remove => true
      case _ => On(a, Most(events))
  }

  predicate SwitchedOn(a: Account) { a.row.None? || a.row.value.enabled }

  lemma {:induction false} TeachKeepsSwitch(st: Store, a: Account, e: Event)
    requires e.Teach?
    ensures SwitchedOn(AfterTeach(st, a, e)) <==> SwitchedOn(a)
    ensures Judge(st, a, e) == Disabled <==> !SwitchedOn(a)
  {
  }

  lemma {:induction false} SwitchIsHistory(st: Store, a: Account, events: seq<Event>)
    ensures SwitchedOn(Run(st, a, events)) <==> On(a, events)
  {
    if events != [] {
      SwitchIsHistory(st, a, Most(events));
      if Last(events).Teach? {
        TeachKeepsSwitch(st, Run(st, a, Most(events)), Last(events));
      }
    }
  }

  // ---------------------------------------------------------------- the outcome

  /** What was written on a day since its budget last restarted. */
  function Spent(st: Store, a: Account, events: seq<Event>, day: int): int
  {
    var stretch := Since(st, a, events);
    if stretch.day == Some(day) then stretch.tokens else 0
  }

  /** The tokens of a lesson the account has no row for. */
  function Unseen(a: Account, lesson: seq<string>): set<string>
  {
    set t | t in lesson && t !in a.counts
  }

  lemma {:induction false} NewRowsAreUnseen(a: Account, lesson: seq<string>)
    requires NoDuplicates(lesson)
    ensures NewRows(a, lesson) == |Unseen(a, lesson)|
  {
    CardinalityOfElements(lesson);
    var all, known := Elements(lesson), Elements(lesson) * a.counts.Keys;
    assert Unseen(a, lesson) == all - known;
    assert |all - known| == |all| - |known| by {
      assert all == (all - known) + known;
    }
  }

  lemma {:induction false} SpentIsHistory(st: Store, a: Account, events: seq<Event>, day: int)
    ensures SpentToday(Opened(Run(st, a, events), day), day) == Spent(st, a, events, day)
  {
    BudgetIsTheStretch(st, a, events);
    OpenedTells(Run(st, a, events), day, Since(st, a, events));
  }

  lemma {:induction false} CountedRows(a: Account, day: int)
    requires RowValid(a) && Opened(a, day).enabled
    ensures Opened(a, day).tokenRows == |a.counts|
  {
  }

  /** A message the ledger does not hold. */
  lemma {:induction false} NewMessageExactly(st: Store, a: Account, events: seq<Event>, e: Event)
    requires Sound(st) && Valid(st, a) && AllowedRun(st, a, events) && e.Teach? && On(a, events)
    requires st.digest(e.text) !in Run(st, a, events).ledger
    ensures var now, lesson := Run(st, a, events), st.lesson(e.text, e.cap);
      var cost, rows := Spent(st, a, events, e.day) + |lesson|, |Unseen(now, lesson)|;
      var fits := rows == 0 || |now.counts| + rows <= st.tokenRows;
      && (Judge(st, now, e) == Learned <==> cost <= st.tokensPerDay && fits)
      && (Judge(st, now, e) == Throttled <==> cost > st.tokensPerDay)
      && (Judge(st, now, e) == Refused <==> cost <= st.tokensPerDay && !fits)
  {
    var now := Run(st, a, events);
    RunKeepsValid(st, a, events);
    SwitchIsHistory(st, a, events);
    SpentIsHistory(st, a, events, e.day);
    CountedRows(now, e.day);
    assert LessonOk(st, e.text, e.cap);
    NewRowsAreUnseen(now, st.lesson(e.text, e.cap));
  }

  /** A message the ledger holds. */
  lemma {:induction false} HeldMessageExactly(st: Store, a: Account, events: seq<Event>, e: Event)
    requires Sound(st) && Valid(st, a) && AllowedRun(st, a, events) && e.Teach? && On(a, events)
    requires st.digest(e.text) in Run(st, a, events).ledger
    ensures var now, entry := Run(st, a, events), Run(st, a, events).ledger[st.digest(e.text)];
      var cost := Spent(st, a, events, e.day) + entry.tokens;
      && (Judge(st, now, e) == Repeated <==> entry.spam == e.spam)
      && (Judge(st, now, e) == Relearned <==> entry.spam != e.spam && cost <= st.tokensPerDay)
      && (Judge(st, now, e) == Throttled <==> entry.spam != e.spam && cost > st.tokensPerDay)
  {
    var now := Run(st, a, events);
    RunKeepsValid(st, a, events);
    SwitchIsHistory(st, a, events);
    SpentIsHistory(st, a, events, e.day);
    BackCost(st, now, e);
  }

  lemma {:induction false} BackCost(st: Store, a: Account, e: Event)
    requires Sound(st) && Valid(st, a) && e.Teach? && st.digest(e.text) in a.ledger
    ensures |Back(st, a, e)| == a.ledger[st.digest(e.text)].tokens
  {
    DigestNamesText(st, e.text);
    assert EntryValid(st, a, st.digest(e.text));
  }

  /** With learning off, and only then, a lesson is passed over; it then changes nothing. */
  lemma {:induction false} PassedOverExactly(st: Store, a: Account, events: seq<Event>, e: Event)
    requires e.Teach?
    ensures Judge(st, Run(st, a, events), e) == Disabled <==> !On(a, events)
    ensures !On(a, events) ==> Run(st, a, events + [e]) == Run(st, a, events)
  {
    SwitchIsHistory(st, a, events);
    TeachKeepsSwitch(st, Run(st, a, events), e);
    assert Most(events + [e]) == events && Last(events + [e]) == e;
  }

  // ----------------------------------------------------------------- the ledger

  /** What a lesson leaves in the ledger: the verdict, the tokens counted and the time, and nothing else moved but what it evicts. */
  lemma {:induction false} LedgerAfter(st: Store, a: Account, e: Event)
    requires Sound(st) && Valid(st, a) && Allowed(st, a, e) && e.Teach?
    ensures var d, next := st.digest(e.text), AfterTeach(st, a, e).ledger;
      && (Judge(st, a, e) == Learned ==>
           next == (a.ledger - Dropped(st, a, e).Keys)[d := Entry(e.spam, |st.lesson(e.text, e.cap)|, e.now)])
      && (Judge(st, a, e) == Relearned ==> d in a.ledger && next == a.ledger[d := Entry(e.spam, a.ledger[d].tokens, e.now)])
      && (Judge(st, a, e) != Learned && Judge(st, a, e) != Relearned ==> next == a.ledger)
  {
    if Judge(st, a, e) == Learned {
      LearnedIs(st, a, e);
      LedgerWithRoom(st, a, e);
    }
  }

  lemma {:induction false} LedgerWithRoom(st: Store, a: Account, e: Event)
    requires Valid(st, a) && e.Teach? && Judge(st, a, e) == Learned
    ensures Roomy(st, Open(a, e.day), e.forgotten).ledger == a.ledger - Dropped(st, a, e).Keys
  {
    DroppedKeys(st, a, e);
    WithoutKeys(a.ledger, e.forgotten);
    if !Evicts(st, a, e) {
      assert a.ledger - {} == a.ledger;
    }
  }

  lemma {:induction false} DroppedKeys(st: Store, a: Account, e: Event)
    ensures Dropped(st, a, e).Keys == if Evicts(st, a, e) then a.ledger.Keys * e.forgotten else {}
  {
  }

  lemma {:induction false} WithoutKeys(ledger: map<string, Entry>, gone: set<string>)
    ensures ledger - gone == ledger - ledger.Keys * gone
  {
  }

  lemma {:induction false} NoneDropped(st: Store, a: Account, e: Event)
    requires !Evicts(st, a, e)
    ensures Dropped(st, a, e) == map[]
  {
  }

  /** A full ledger, and only that, loses a tenth of its limit when it learns, one entry at least, and none is older than one that goes. */
  lemma {:induction false} EvictsExactly(st: Store, a: Account, e: Event)
    requires Valid(st, a) && Allowed(st, a, e) && e.Teach?
    ensures Dropped(st, a, e) != map[] ==> Judge(st, a, e) == Learned && |a.ledger| >= st.ledgerEntries
    ensures Judge(st, a, e) == Learned && |a.ledger| >= st.ledgerEntries ==>
      && |Dropped(st, a, e)| == Min(if st.ledgerEntries >= 20 then st.ledgerEntries / 10 else 1, |a.ledger|)
      && forall g, k :: g in Dropped(st, a, e) && k in a.ledger && k !in Dropped(st, a, e) ==> a.ledger[g].learnedAt <= a.ledger[k].learnedAt
  {
    if Evicts(st, a, e) {
      assert Dropped(st, a, e).Keys == e.forgotten;
      assert |Dropped(st, a, e)| == |Dropped(st, a, e).Keys|;
    } else {
      NoneDropped(st, a, e);
    }
  }

  // --------------------------------------------------------------- the counters

  function TallyOf(a: Account): Tally
  {
    if a.row.Some? then a.row.value.tally else ZERO_TALLY
  }

  /** How many lessons with a verdict came to an outcome since the account was last cleared. */
  function Times(st: Store, a: Account, events: seq<Event>, o: Outcome, spam: bool): nat
  {
    if events == [] || Last(events).Reset? || Last(events).Remove? then 0
    else Times(st, a, Most(events), o, spam)
         + if Last(events).Teach? && Last(events).spam == spam && Judge(st, Run(st, a, Most(events)), Last(events)) == o then 1 else 0
  }

  function Either(st: Store, a: Account, events: seq<Event>, o: Outcome): nat
  {
    Times(st, a, events, o, true) + Times(st, a, events, o, false)
  }

  function Base(a: Account, events: seq<Event>): Tally { if Clears(events) then ZERO_TALLY else TallyOf(a) }

  /** The counters count outcomes, since the account was last cleared. */
  ghost predicate Tallied(st: Store, a: Account, events: seq<Event>)
  {
    var t, base := TallyOf(Run(st, a, events)), Base(a, events);
    && t.spamLearned == base.spamLearned + Times(st, a, events, Learned, true) + Times(st, a, events, Relearned, true)
    && t.hamLearned == base.hamLearned + Times(st, a, events, Learned, false) + Times(st, a, events, Relearned, false)
    && t.unlearned == base.unlearned + Either(st, a, events, Relearned)
    && t.repeated == base.repeated + Either(st, a, events, Repeated)
    && t.refused == base.refused + Either(st, a, events, Refused)
    && t.throttled == base.throttled + Either(st, a, events, Throttled)
  }

  lemma {:induction false} TeachTallies(st: Store, a: Account, e: Event)
    requires e.Teach?
    ensures var t, t', o := TallyOf(a), TallyOf(AfterTeach(st, a, e)), Judge(st, a, e);
      && t'.spamLearned == t.spamLearned + Indicator((o == Learned || o == Relearned) && e.spam)
      && t'.hamLearned == t.hamLearned + Indicator((o == Learned || o == Relearned) && !e.spam)
      && t'.unlearned == t.unlearned + Indicator(o == Relearned)
      && t'.repeated == t.repeated + Indicator(o == Repeated)
      && t'.refused == t.refused + Indicator(o == Refused)
      && t'.throttled == t.throttled + Indicator(o == Throttled)
  {
  }

  lemma {:induction false} CountersCount(st: Store, a: Account, events: seq<Event>)
    ensures Tallied(st, a, events)
  {
    if events != [] {
      CountersCount(st, a, Most(events));
      if Last(events).Teach? {
        TeachTallies(st, Run(st, a, Most(events)), Last(events));
      }
    }
  }
}
