/**
  The learning ledger of one account (src/antispam/learning): the transaction that
  teaches one verdict, the reset and the removal, as steps on the account's rows.

  `Account` is what the database holds for one scope; `Books` is the same state
  updated statement by statement; runs are sequences of `Event`s.
 */
module Ledger {
  import opened Basics

  /** The `tokens` column of `bayes_learned` is a 32-bit integer. */
  const I32_MAX: nat := 0x7fff_ffff

  /** A row of `bayes_token`, or the one row of `bayes_corpus`. */
  datatype Counts = Counts(ham: int, spam: int) {
    function Side(spamSide: bool): int { if spamSide then spam else ham }
  }

  /** A row of `bayes_learned`. */
  datatype Entry = Entry(spam: bool, tokens: nat, learnedAt: int)

  /** The event counters of `bayes_learning`. */
  datatype Tally = Tally(spamLearned: int, hamLearned: int, unlearned: int, repeated: int, refused: int, throttled: int)

  const ZERO_TALLY := Tally(0, 0, 0, 0, 0, 0)

  /** The row of `bayes_learning`; `tokenRows` is -1 until it is counted. */
  datatype Row = Row(enabled: bool, tally: Tally, entries: int, tokenRows: int, budgetDay: int, budgetTokens: int)

  datatype Account = Account(row: Option<Row>, ledger: map<string, Entry>, totals: Option<Counts>, counts: map<string, Counts>)

  const NO_ACCOUNT := Account(None, map[], None, map[])

  /**
    What the store is configured with: the keyed digest of a text, the tokens a
    lesson takes from a text under a cap, and the ceilings. `floors` says whether
    the updates clamp at zero; the store always does, and `RunKeepsValid`
    compares with one that does not.
   */
  datatype Store = Store(
    digest: string -> string,
    lesson: (string, nat) -> seq<string>,
    ledgerEntries: int,
    tokenRows: int,
    tokensPerDay: int,
    floors: bool)

  datatype Outcome = Learned | Relearned | Repeated | Disabled | Refused | Throttled

  datatype Event =
    | Teach(text: string, spam: bool, cap: nat, day: int, now: int, forgotten: set<string>)
    | Reset
    | Remove
    | Switch(on: bool, today: int)

  /** Digests name texts, and a lesson asked for its own length is the same lesson. */
  ghost predicate Sound(st: Store)
  {
    && (forall t, u :: st.digest(t) == st.digest(u) ==> t == u)
    && (forall t, n :: LessonOk(st, t, n))
  }

  ghost predicate LessonOk(st: Store, text: string, cap: nat)
  {
    var l := st.lesson(text, cap);
    NoDuplicates(l) && |l| <= cap && st.lesson(text, |l|) == l
  }

  // ---------------------------------------------------------------- one lesson

  function Floor(st: Store, x: int): int { if st.floors && x < 0 then 0 else x }

  function Moved(st: Store, c: Counts, ham: int, spam: int): Counts
  {
    Counts(Floor(st, c.ham + ham), Floor(st, c.spam + spam))
  }

  function Held(counts: map<string, Counts>, t: string): Counts
  {
    if t in counts then counts[t] else Counts(0, 0)
  }

  function Totals(a: Account): Counts
  {
    if a.totals.Some? then a.totals.value else Counts(0, 0)
  }

  /** Both statements of `adjust`: the totals, then every token of the batch. */
  function Adjusted(st: Store, a: Account, batch: seq<string>, ham: int, spam: int): Account
  {
    a.(totals := Some(Moved(st, Totals(a), ham, spam)),
       counts := AdjustedCounts(st, a.counts, batch, ham, spam))
  }

  function AdjustedCounts(st: Store, counts: map<string, Counts>, batch: seq<string>, ham: int, spam: int): map<string, Counts>
  {
    map t | t in counts.Keys + Elements(batch) ::
      if t in batch then Moved(st, Held(counts, t), ham, spam) else counts[t]
  }

  /** The row as a lesson finds it: inserted when absent, its token rows counted. */
  function Opened(a: Account, day: int): Row
  {
    var row := if a.row.Some? then a.row.value else Row(true, ZERO_TALLY, 0, -1, day, 0);
    if row.enabled && row.tokenRows < 0 then row.(tokenRows := |a.counts|) else row
  }

  function SpentToday(row: Row, day: int): int
  {
    if row.budgetDay == day then row.budgetTokens else 0
  }

  predicate OverBudget(st: Store, row: Row, day: int, cost: nat)
  {
    SpentToday(row, day) + cost > st.tokensPerDay
  }

  /** The tokens a reversal moves back: those the ledger says were counted. */
  function Back(st: Store, a: Account, e: Event): seq<string>
    requires e.Teach? && st.digest(e.text) in a.ledger
  {
    var counted := a.ledger[st.digest(e.text)].tokens;
    var batch := st.lesson(e.text, e.cap);
    if counted == |batch| then batch else st.lesson(e.text, counted)
  }

  function NewRows(a: Account, batch: seq<string>): int
  {
    |batch| - |Elements(batch) * a.counts.Keys|
  }

  function Judge(st: Store, a: Account, e: Event): Outcome
    requires e.Teach?
  {
    var row := Opened(a, e.day);
    var d := st.digest(e.text);
    var batch := st.lesson(e.text, e.cap);
    if !row.enabled then Disabled
    else if d in a.ledger then
      if a.ledger[d].spam == e.spam then Repeated
      else if OverBudget(st, row, e.day, |Back(st, a, e)|) then Throttled
      else Relearned
    else if OverBudget(st, row, e.day, |batch|) then Throttled
    else if NewRows(a, batch) > 0 && row.tokenRows + NewRows(a, batch) > st.tokenRows then Refused
    else Learned
  }

  function Spend(row: Row, newRows: int, day: int, cost: nat): Row
  {
    row.(tokenRows := row.tokenRows + newRows, budgetDay := day, budgetTokens := SpentToday(row, day) + cost)
  }

  function Bump(row: Row, outcome: Outcome, spam: bool): Row
  {
    var t := row.tally;
    match outcome
    case Repeated => row.(tally := t.(repeated := t.repeated + 1))
    case Refused => row.(tally := t.(refused := t.refused + 1))
    case Throttled => row.(tally := t.(throttled := t.throttled + 1))
    case Learned =>
      row.(entries := row.entries + 1,
           tally := if spam then t.(spamLearned := t.spamLearned + 1) else t.(hamLearned := t.hamLearned + 1))
    case Relearned =>
      row.(tally := if spam then t.(spamLearned := t.spamLearned + 1, unlearned := t.unlearned + 1)
                    else t.(hamLearned := t.hamLearned + 1, unlearned := t.unlearned + 1))
    case Disabled => row
  }

  predicate Full(st: Store, row: Row) { row.entries >= st.ledgerEntries }

  function Batch(st: Store): nat { Max(st.ledgerEntries / 10, 1) }

  /** `gone` is what `ORDER BY learned_at LIMIT n` may select. */
  ghost predicate Oldest(ledger: map<string, Entry>, gone: set<string>, n: nat)
  {
    && gone <= ledger.Keys
    && |gone| == Min(n, |ledger|)
    && forall g, k :: g in gone && k in ledger.Keys - gone ==> ledger[g].learnedAt <= ledger[k].learnedAt
  }

  /** The account once the messages `gone` are forgotten: the corpus keeps what they taught. */
  function Evicted(st: Store, a: Account, gone: set<string>): Account
    requires a.row.Some?
  {
    a.(ledger := a.ledger - gone, row := Some(a.row.value.(entries := Floor(st, a.row.value.entries - |gone|))))
  }

  function Roomy(st: Store, a: Account, gone: set<string>): Account
    requires a.row.Some?
  {
    if Full(st, a.row.value) then Evicted(st, a, gone) else a
  }

  function Open(a: Account, day: int): Account { a.(row := Some(Opened(a, day))) }

  /** The account one lesson leaves behind. */
  function AfterTeach(st: Store, a: Account, e: Event): Account
    requires e.Teach?
  {
    var d := st.digest(e.text);
    var batch := st.lesson(e.text, e.cap);
    var o := Judge(st, a, e);
    var open := Open(a, e.day);
    match o
    case Disabled => a
    case Repeated => open.(row := Some(Bump(open.row.value, o, e.spam)))
    case Throttled => open.(row := Some(Bump(open.row.value, o, e.spam)))
    case Refused => open.(row := Some(Bump(open.row.value, o, e.spam)))
    case Relearned =>
      var back := Back(st, a, e);
      var ham := if e.spam then -1 else 1;
      Adjusted(st, open, back, ham, -ham)
      .(ledger := a.ledger[d := a.ledger[d].(spam := e.spam, learnedAt := e.now)],
        row := Some(Bump(Spend(open.row.value, 0, e.day, |back|), o, e.spam)))
    case Learned =>
      var roomy := Roomy(st, open, e.forgotten);
      var ham := if e.spam then 0 else 1;
      Adjusted(st, roomy, batch, ham, 1 - ham)
      .(ledger := roomy.ledger[d := Entry(e.spam, Min(|batch|, I32_MAX), e.now)],
        row := Some(Bump(Spend(roomy.row.value, NewRows(a, batch), e.day, |batch|), o, e.spam)))
  }

  // ------------------------------------------------------------- other events

  function AfterReset(a: Account): Account
  {
    NO_ACCOUNT.(row := if a.row.None? then None
                       else Some(a.row.value.(tally := ZERO_TALLY, entries := 0, tokenRows := 0)))
  }

  function AfterSwitch(a: Account, on: bool, today: int): Account
  {
    var row := if a.row.Some? then a.row.value else Row(true, ZERO_TALLY, 0, -1, today, 0);
    a.(row := Some(row.(enabled := on)))
  }

  function Apply(st: Store, a: Account, e: Event): Account
  {
    match e
    case Teach(_, _, _, _, _, _) => AfterTeach(st, a, e)
    case Reset => AfterReset(a)
    case Remove => NO_ACCOUNT
    case Switch(on, today) => AfterSwitch(a, on, today)
  }

  predicate Evicts(st: Store, a: Account, e: Event)
  {
    e.Teach? && Judge(st, a, e) == Learned && Full(st, Opened(a, e.day))
  }

  ghost predicate Allowed(st: Store, a: Account, e: Event)
  {
    && (e.Teach? ==> |st.lesson(e.text, e.cap)| <= I32_MAX)
    && (Evicts(st, a, e) ==> Oldest(a.ledger, e.forgotten, Batch(st)))
  }

  function Run(st: Store, a: Account, events: seq<Event>): Account
  {
    if events == [] then a
    else Apply(st, Run(st, a, Most(events)), Last(events))
  }

  ghost predicate AllowedRun(st: Store, a: Account, events: seq<Event>)
  {
    events != [] ==>
      AllowedRun(st, a, Most(events)) && Allowed(st, Run(st, a, Most(events)), Last(events))
  }

  // --------------------------------------------------------- what a ledger says

  /** The text a digest names; meaningful for the digests in a ledger. */
  ghost function TextOf(st: Store, d: string): string
  {
    if exists t :: st.digest(t) == d then var t :| st.digest(t) == d; t else ""
  }

  /** The tokens the ledger says the message named `d` was counted with. */
  ghost function Taught(st: Store, d: string, counted: nat): set<string>
  {
    Elements(st.lesson(TextOf(st, d), counted))
  }

  /** The messages of the ledger that hold verdict `side` and token `t`. */
  ghost function Live(st: Store, ledger: map<string, Entry>, t: string, side: bool): set<string>
  {
    set d | d in ledger && ledger[d].spam == side && t in Taught(st, d, ledger[d].tokens)
  }

  /** The messages of the ledger that hold verdict `side`. */
  ghost function Voices(ledger: map<string, Entry>, side: bool): set<string>
  {
    set d | d in ledger && ledger[d].spam == side
  }

  /** What a count holds beyond the messages of the ledger: what was forgotten, or learned before there was a ledger. */
  ghost function Unrecorded(st: Store, a: Account, t: string, side: bool): int
  {
    Held(a.counts, t).Side(side) - |Live(st, a.ledger, t, side)|
  }

  ghost function UnrecordedTotal(a: Account, side: bool): int
  {
    Totals(a).Side(side) - |Voices(a.ledger, side)|
  }

  /** What the counters of an account always say about its other rows. */
  ghost predicate Valid(st: Store, a: Account)
  {
    RowValid(a) && EntriesValid(st, a) && CountsValid(st, a)
  }

  ghost predicate EntriesValid(st: Store, a: Account)
  {
    forall d :: d in a.ledger ==> EntryValid(st, a, d)
  }

  ghost predicate CountsValid(st: Store, a: Account)
  {
    && (forall t, side :: Unrecorded(st, a, t, side) >= 0)
    && (forall side :: UnrecordedTotal(a, side) >= 0)
  }

  ghost predicate RowValid(a: Account)
  {
    match a.row
    case None => a.ledger == map[]
    case Some(row) => row.entries == |a.ledger| && (row.tokenRows < 0 || row.tokenRows == |a.counts|)
  }

  ghost predicate EntryValid(st: Store, a: Account, d: string)
    requires d in a.ledger
  {
    && st.digest(TextOf(st, d)) == d
    && |st.lesson(TextOf(st, d), a.ledger[d].tokens)| == a.ledger[d].tokens
    && Taught(st, d, a.ledger[d].tokens) <= a.counts.Keys
  }

  lemma {:induction false} DigestNamesText(st: Store, text: string)
    requires Sound(st)
    ensures TextOf(st, st.digest(text)) == text
  {
  }

  lemma {:induction false} BackIsTaught(st: Store, a: Account, e: Event)
    requires Sound(st) && Valid(st, a)
    requires e.Teach? && st.digest(e.text) in a.ledger
    ensures var d := st.digest(e.text); Elements(Back(st, a, e)) == Taught(st, d, a.ledger[d].tokens)
    ensures NoDuplicates(Back(st, a, e))
  {
    DigestNamesText(st, e.text);
    var d := st.digest(e.text);
    assert EntryValid(st, a, d);
    assert LessonOk(st, e.text, e.cap);
    assert LessonOk(st, e.text, a.ledger[d].tokens);
  }

  /** `token_rows` grows by exactly the rows an adjustment adds. */
  lemma {:induction false} RowsAdded(st: Store, a: Account, batch: seq<string>, ham: int, spam: int)
    requires NoDuplicates(batch)
    ensures |AdjustedCounts(st, a.counts, batch, ham, spam)| == |a.counts| + NewRows(a, batch)
    ensures NewRows(a, batch) >= 0
    ensures Elements(batch) <= a.counts.Keys ==> NewRows(a, batch) == 0
  {
    CardinalityOfElements(batch);
    var b, k := Elements(batch), a.counts.Keys;
    assert AdjustedCounts(st, a.counts, batch, ham, spam).Keys == k + b;
    assert b == (b * k) + (b - k);
    assert k + b == k + (b - k);
    if b <= k { assert b * k == b; }
  }

  // ----------------------------------------------------- how verdicts are counted

  lemma {:induction false} LiveAfterNew(st: Store, ledger: map<string, Entry>, d: string, entry: Entry, t: string, side: bool)
    requires d !in ledger
    ensures |Live(st, ledger[d := entry], t, side)| - |Live(st, ledger, t, side)|
            == Indicator(entry.spam == side && t in Taught(st, d, entry.tokens))
  {
    DifferInOne(Live(st, ledger, t, side), Live(st, ledger[d := entry], t, side), d);
  }

  /** The ledger once the verdict on `d` is reversed. */
  function Flipped(ledger: map<string, Entry>, d: string, now: int): map<string, Entry>
    requires d in ledger
  {
    ledger[d := ledger[d].(spam := !ledger[d].spam, learnedAt := now)]
  }

  lemma {:induction false} LiveAfterFlip(st: Store, ledger: map<string, Entry>, d: string, now: int, t: string, side: bool)
    requires d in ledger
    ensures |Live(st, Flipped(ledger, d, now), t, side)| - |Live(st, ledger, t, side)|
            == if t !in Taught(st, d, ledger[d].tokens) then 0 else if ledger[d].spam == side then -1 else 1
  {
    DifferInOne(Live(st, ledger, t, side), Live(st, Flipped(ledger, d, now), t, side), d);
  }

  lemma {:induction false} VoicesAfterNew(ledger: map<string, Entry>, d: string, entry: Entry, side: bool)
    requires d !in ledger
    ensures |Voices(ledger[d := entry], side)| - |Voices(ledger, side)| == Indicator(entry.spam == side)
  {
    DifferInOne(Voices(ledger, side), Voices(ledger[d := entry], side), d);
  }

  lemma {:induction false} VoicesAfterFlip(ledger: map<string, Entry>, d: string, now: int, side: bool)
    requires d in ledger
    ensures |Voices(Flipped(ledger, d, now), side)| - |Voices(ledger, side)| == if ledger[d].spam == side then -1 else 1
  {
    DifferInOne(Voices(ledger, side), Voices(Flipped(ledger, d, now), side), d);
  }

  /** Forgetting messages only takes voices away. */
  lemma {:induction false} ForgettingShrinks(st: Store, ledger: map<string, Entry>, gone: set<string>)
    ensures forall t, side :: |Live(st, ledger - gone, t, side)| <= |Live(st, ledger, t, side)|
    ensures forall side :: |Voices(ledger - gone, side)| <= |Voices(ledger, side)|
  {
    forall t, side ensures |Live(st, ledger - gone, t, side)| <= |Live(st, ledger, t, side)| {
      SubsetCardinality(Live(st, ledger - gone, t, side), Live(st, ledger, t, side));
    }
    forall side ensures |Voices(ledger - gone, side)| <= |Voices(ledger, side)| {
      SubsetCardinality(Voices(ledger - gone, side), Voices(ledger, side));
    }
  }

  // ------------------------------------------------------- one step keeps `Valid`

  function Unfloored(st: Store): Store { st.(floors := false) }

  function Shifted(c: Counts, moves: bool, ham: int, spam: int): Counts
  {
    if moves then Counts(c.ham + ham, c.spam + spam) else c
  }

  /** The floors of an adjustment change nothing when no count it moves would pass zero. */
  lemma {:induction false} AdjustmentIsExact(st: Store, a: Account, batch: seq<string>, ham: int, spam: int)
    requires forall t :: t in batch ==> Held(a.counts, t).ham + ham >= 0 && Held(a.counts, t).spam + spam >= 0
    requires Totals(a).ham + ham >= 0 && Totals(a).spam + spam >= 0
    ensures Adjusted(st, a, batch, ham, spam) == Adjusted(Unfloored(st), a, batch, ham, spam)
    ensures forall t :: Held(Adjusted(st, a, batch, ham, spam).counts, t) == Shifted(Held(a.counts, t), t in batch, ham, spam)
    ensures Totals(Adjusted(st, a, batch, ham, spam)) == Counts(Totals(a).ham + ham, Totals(a).spam + spam)
  {
    assert Adjusted(st, a, batch, ham, spam).counts == Adjusted(Unfloored(st), a, batch, ham, spam).counts;
  }

  /** Every count is at least the live lessons behind it, so it can be taken back. */
  lemma {:induction false} LiveLessonsStandBehind(st: Store, a: Account)
    requires Valid(st, a)
    ensures forall t, side :: Held(a.counts, t).Side(side) >= |Live(st, a.ledger, t, side)|
    ensures forall side :: Totals(a).Side(side) >= |Voices(a.ledger, side)|
    ensures forall t :: Held(a.counts, t).ham >= 0 && Held(a.counts, t).spam >= 0
    ensures Totals(a).ham >= 0 && Totals(a).spam >= 0
  {
    forall t, side ensures Held(a.counts, t).Side(side) >= |Live(st, a.ledger, t, side)| {
      assert Unrecorded(st, a, t, side) >= 0;
    }
    forall side ensures Totals(a).Side(side) >= |Voices(a.ledger, side)| {
      assert UnrecordedTotal(a, side) >= 0;
    }
    forall t ensures Held(a.counts, t).ham >= 0 && Held(a.counts, t).spam >= 0 {
      assert Held(a.counts, t).Side(false) >= 0 && Held(a.counts, t).Side(true) >= 0;
    }
    assert Totals(a).Side(false) >= 0 && Totals(a).Side(true) >= 0;
  }

  ghost predicate SameUnrecorded(st: Store, a: Account, b: Account)
  {
    && (forall t, side :: Unrecorded(st, b, t, side) == Unrecorded(st, a, t, side))
    && (forall side :: UnrecordedTotal(b, side) == UnrecordedTotal(a, side))
  }

  /** Reversing a verdict moves the counts with the ledger. */
  lemma {:induction false} ReversalIsExact(st: Store, a: Account, d: string, batch: seq<string>, now: int)
    requires Valid(st, a) && d in a.ledger
    requires Elements(batch) == Taught(st, d, a.ledger[d].tokens)
    ensures var ham := if a.ledger[d].spam then 1 else -1;
      var moved := Adjusted(st, a, batch, ham, -ham);
      && moved == Adjusted(Unfloored(st), a, batch, ham, -ham)
      && SameUnrecorded(st, a, moved.(ledger := Flipped(a.ledger, d, now)))
  {
    var ham := if a.ledger[d].spam then 1 else -1;
    ReversalHasRoom(st, a, d, batch);
    AdjustmentIsExact(st, a, batch, ham, -ham);
    var b := Adjusted(st, a, batch, ham, -ham).(ledger := Flipped(a.ledger, d, now));
    forall t, side ensures Unrecorded(st, b, t, side) == Unrecorded(st, a, t, side) {
      LiveAfterFlip(st, a.ledger, d, now, t, side);
      assert t in batch <==> t in Elements(batch);
    }
    forall side ensures UnrecordedTotal(b, side) == UnrecordedTotal(a, side) {
      VoicesAfterFlip(a.ledger, d, now, side);
    }
  }

  /** The lesson a reversal takes back stands behind the counts it takes from. */
  lemma {:induction false} ReversalHasRoom(st: Store, a: Account, d: string, batch: seq<string>)
    requires Valid(st, a) && d in a.ledger
    requires Elements(batch) == Taught(st, d, a.ledger[d].tokens)
    ensures var ham := if a.ledger[d].spam then 1 else -1;
      && (forall t :: t in batch ==> Held(a.counts, t).ham + ham >= 0 && Held(a.counts, t).spam - ham >= 0)
      && Totals(a).ham + ham >= 0 && Totals(a).spam - ham >= 0
  {
    var ham := if a.ledger[d].spam then 1 else -1;
    LiveLessonsStandBehind(st, a);
    forall t | t in batch ensures Held(a.counts, t).ham + ham >= 0 && Held(a.counts, t).spam - ham >= 0 {
      assert t in Elements(batch);
      assert d in Live(st, a.ledger, t, a.ledger[d].spam);
      assert Held(a.counts, t).Side(a.ledger[d].spam) >= 1;
    }
    assert Totals(a).ham + ham >= 0 && Totals(a).spam - ham >= 0 by {
      assert d in Voices(a.ledger, a.ledger[d].spam);
      assert Totals(a).Side(a.ledger[d].spam) >= 1;
    }
  }

  /** Adding a message to the ledger moves the counts with it. */
  lemma {:induction false} AdditionIsExact(st: Store, a: Account, d: string, entry: Entry, batch: seq<string>)
    requires Valid(st, a) && d !in a.ledger
    requires Elements(batch) == Taught(st, d, entry.tokens)
    ensures var ham := if entry.spam then 0 else 1;
      var moved := Adjusted(st, a, batch, ham, 1 - ham);
      && moved == Adjusted(Unfloored(st), a, batch, ham, 1 - ham)
      && SameUnrecorded(st, a, moved.(ledger := a.ledger[d := entry]))
  {
    var ham := if entry.spam then 0 else 1;
    LiveLessonsStandBehind(st, a);
    AdjustmentIsExact(st, a, batch, ham, 1 - ham);
    var b := Adjusted(st, a, batch, ham, 1 - ham).(ledger := a.ledger[d := entry]);
    forall t, side ensures Unrecorded(st, b, t, side) == Unrecorded(st, a, t, side) {
      LiveAfterNew(st, a.ledger, d, entry, t, side);
      assert t in batch <==> t in Taught(st, d, entry.tokens);
      assert Held(b.counts, t) == Shifted(Held(a.counts, t), t in batch, ham, 1 - ham);
    }
    forall side ensures UnrecordedTotal(b, side) == UnrecordedTotal(a, side) {
      VoicesAfterNew(a.ledger, d, entry, side);
    }
  }

  lemma {:induction false} SameUnrecordedKeepsCounts(st: Store, a: Account, b: Account)
    requires CountsValid(st, a) && SameUnrecorded(st, a, b)
    ensures CountsValid(st, b)
  {
    forall t, side ensures Unrecorded(st, b, t, side) >= 0 { assert Unrecorded(st, a, t, side) >= 0; }
    forall side ensures UnrecordedTotal(b, side) >= 0 { assert UnrecordedTotal(a, side) >= 0; }
  }

  /** Only the row of counters changed. */
  lemma {:induction false} RowOnly(st: Store, a: Account, b: Account)
    requires EntriesValid(st, a) && CountsValid(st, a) && RowValid(b) && b == a.(row := b.row)
    ensures Valid(st, b) && SameUnrecorded(st, a, b)
  {
    forall t, side ensures Unrecorded(st, b, t, side) == Unrecorded(st, a, t, side) {}
    forall side ensures UnrecordedTotal(b, side) == UnrecordedTotal(a, side) {}
    SameUnrecordedKeepsCounts(st, a, b);
    forall d | d in b.ledger ensures EntryValid(st, b, d) { assert EntryValid(st, a, d); }
  }

  lemma {:induction false} EvictionKeepsCounts(st: Store, a: Account, gone: set<string>)
    requires Valid(st, a) && a.row.Some?
    ensures CountsValid(st, Evicted(st, a, gone)) && EntriesValid(st, Evicted(st, a, gone))
  {
    var b := Evicted(st, a, gone);
    ForgettingShrinks(st, a.ledger, gone);
    forall t, side ensures Unrecorded(st, b, t, side) >= 0 { assert Unrecorded(st, a, t, side) >= 0; }
    forall side ensures UnrecordedTotal(b, side) >= 0 { assert UnrecordedTotal(a, side) >= 0; }
    forall d | d in b.ledger ensures EntryValid(st, b, d) { assert EntryValid(st, a, d); }
  }

  /** The floor of `entries` is not reached. */
  lemma {:induction false} EvictionKeepsRow(st: Store, a: Account, gone: set<string>)
    requires RowValid(a) && a.row.Some? && gone <= a.ledger.Keys
    ensures RowValid(Evicted(st, a, gone)) && Evicted(st, a, gone) == Evicted(Unfloored(st), a, gone)
    ensures |Evicted(st, a, gone).ledger| == |a.ledger| - |gone|
  {
    var b := Evicted(st, a, gone);
    assert b.ledger.Keys == a.ledger.Keys - gone;
    assert a.ledger.Keys == b.ledger.Keys + gone;
  }

  lemma {:induction false} RelearnedCounts(st: Store, a: Account, e: Event)
    requires Sound(st) && Valid(st, a) && e.Teach? && Judge(st, a, e) == Relearned
    ensures CountsValid(st, AfterTeach(st, a, e)) && SameUnrecorded(st, a, AfterTeach(st, a, e))
  {
    RowOnly(st, a, Open(a, e.day));
    RelearnedExactly(st, a, e);
    RelearnedIs(st, a, e);
    StillSame(st, a, Open(a, e.day), Relearning(st, a, e), AfterTeach(st, a, e));
  }

  /** The account with a lesson taken back and taught the other way, its row not yet settled. */
  function Relearning(st: Store, a: Account, e: Event): Account
    requires e.Teach? && st.digest(e.text) in a.ledger
  {
    var ham := if e.spam then -1 else 1;
    Adjusted(st, Open(a, e.day), Back(st, a, e), ham, -ham).(ledger := Flipped(a.ledger, st.digest(e.text), e.now))
  }

  lemma {:induction false} StillSame(st: Store, a: Account, x: Account, b: Account, next: Account)
    requires CountsValid(st, a) && SameUnrecorded(st, a, x) && SameUnrecorded(st, x, b)
    requires next == b.(row := next.row) && Totals(next) == Totals(b)
    ensures CountsValid(st, next) && SameUnrecorded(st, a, next)
  {
    RowApart(st, x, b, next);
    SameAsBefore(st, a, x, next);
    SameUnrecordedKeepsCounts(st, a, next);
  }

  lemma {:induction false} RelearnedIs(st: Store, a: Account, e: Event)
    requires e.Teach? && Judge(st, a, e) == Relearned
    ensures var b, next := Relearning(st, a, e), AfterTeach(st, a, e);
      next == b.(row := next.row) && Totals(next) == Totals(b)
  {
  }

  lemma {:induction false} SameAsBefore(st: Store, a: Account, b: Account, c: Account)
    requires SameUnrecorded(st, a, b) && SameUnrecorded(st, b, c)
    ensures SameUnrecorded(st, a, c)
  {
    forall t, side ensures Unrecorded(st, c, t, side) == Unrecorded(st, a, t, side) {
      assert Unrecorded(st, b, t, side) == Unrecorded(st, a, t, side);
    }
    forall side ensures UnrecordedTotal(c, side) == UnrecordedTotal(a, side) {
      assert UnrecordedTotal(b, side) == UnrecordedTotal(a, side);
    }
  }

  lemma {:induction false} RelearnedExactly(st: Store, a: Account, e: Event)
    requires Sound(st) && Valid(st, a) && e.Teach? && Judge(st, a, e) == Relearned
    ensures var x, back, ham := Open(a, e.day), Back(st, a, e), if e.spam then -1 else 1;
      && Adjusted(st, x, back, ham, -ham) == Adjusted(Unfloored(st), x, back, ham, -ham)
      && SameUnrecorded(st, x, Relearning(st, a, e))
  {
    RowOnly(st, a, Open(a, e.day));
    BackIsTaught(st, a, e);
    ReversalIsExact(st, Open(a, e.day), st.digest(e.text), Back(st, a, e), e.now);
  }

  lemma {:induction false} RelearnedFloors(st: Store, a: Account, e: Event)
    requires Sound(st) && Valid(st, a) && e.Teach? && Judge(st, a, e) == Relearned
    ensures AfterTeach(st, a, e) == AfterTeach(Unfloored(st), a, e)
  {
    JudgeIgnoresFloors(st, a, e);
    RelearnedExactly(st, a, e);
    assert Back(Unfloored(st), a, e) == Back(st, a, e);
  }

  lemma {:induction false} RelearnedRows(st: Store, a: Account, e: Event)
    requires Sound(st) && Valid(st, a) && e.Teach? && Judge(st, a, e) == Relearned
    ensures RowValid(AfterTeach(st, a, e)) && EntriesValid(st, AfterTeach(st, a, e))
    ensures |AfterTeach(st, a, e).ledger| == |a.ledger| && |AfterTeach(st, a, e).counts| == |a.counts|
  {
    var next := AfterTeach(st, a, e);
    RelearnedKeys(st, a, e);
    assert |next.counts.Keys| == |next.counts| && |a.counts.Keys| == |a.counts|;
    assert |next.ledger.Keys| == |next.ledger| && |a.ledger.Keys| == |a.ledger|;
    forall k | k in next.ledger ensures EntryValid(st, next, k) { assert EntryValid(st, a, k); }
  }

  lemma {:induction false} RelearnedKeys(st: Store, a: Account, e: Event)
    requires Sound(st) && Valid(st, a) && e.Teach? && Judge(st, a, e) == Relearned
    ensures AfterTeach(st, a, e).counts.Keys == a.counts.Keys && AfterTeach(st, a, e).ledger.Keys == a.ledger.Keys
  {
    BackIsTaught(st, a, e);
    assert EntryValid(st, a, st.digest(e.text));
  }

  lemma {:induction false} RoomyKeepsValid(st: Store, a: Account, e: Event)
    requires Valid(st, a) && e.Teach? && Allowed(st, a, e) && Judge(st, a, e) == Learned
    ensures var x, r := Open(a, e.day), Roomy(st, Open(a, e.day), e.forgotten);
      && Valid(st, r) && r == Roomy(Unfloored(st), x, e.forgotten) && r.counts == a.counts
      && |r.ledger| + 1 <= Max(|a.ledger|, Max(st.ledgerEntries, 1))
      && r.ledger.Keys <= a.ledger.Keys
      && r.row.Some? && r.row.value.tokenRows == |a.counts|
      && (!Evicts(st, a, e) ==> SameUnrecorded(st, a, r))
  {
    var x := Open(a, e.day);
    RowOnly(st, a, x);
    RoomKeepsValid(st, x, e.forgotten);
  }

  lemma {:induction false} RoomKeepsValid(st: Store, x: Account, forgotten: set<string>)
    requires Valid(st, x) && x.row.Some? && x.row.value.tokenRows == |x.counts|
    requires Full(st, x.row.value) ==> Oldest(x.ledger, forgotten, Batch(st))
    ensures var r := Roomy(st, x, forgotten);
      && Valid(st, r) && r == Roomy(Unfloored(st), x, forgotten) && r.counts == x.counts
      && |r.ledger| + 1 <= Max(|x.ledger|, Max(st.ledgerEntries, 1))
      && r.ledger.Keys <= x.ledger.Keys
      && r.row.Some? && r.row.value.tokenRows == |x.counts|
      && (!Full(st, x.row.value) ==> r == x)
  {
    if Full(st, x.row.value) {
      EvictionKeepsCounts(st, x, forgotten);
      EvictionKeepsRow(st, x, forgotten);
    }
  }

  lemma {:induction false} LearnedCounts(st: Store, a: Account, e: Event)
    requires Sound(st) && Valid(st, a) && e.Teach? && Allowed(st, a, e) && Judge(st, a, e) == Learned
    ensures CountsValid(st, AfterTeach(st, a, e))
    ensures SameUnrecorded(st, Roomy(st, Open(a, e.day), e.forgotten), AfterTeach(st, a, e))
  {
    var d, batch, next := st.digest(e.text), st.lesson(e.text, e.cap), AfterTeach(st, a, e);
    var r := Roomy(st, Open(a, e.day), e.forgotten);
    RoomyKeepsValid(st, a, e);
    assert LessonOk(st, e.text, e.cap);
    LearnedExactly(st, a, e);
    var ham := if e.spam then 0 else 1;
    var b := Adjusted(st, r, batch, ham, 1 - ham).(ledger := r.ledger[d := Entry(e.spam, |batch|, e.now)]);
    assert next == b.(row := next.row);
    RowApart(st, r, b, next);
    SameUnrecordedKeepsCounts(st, r, next);
  }

  /** Two accounts that differ in their row of counters only in `entries` and the like have the same lessons unrecorded. */
  lemma {:induction false} RowApart(st: Store, r: Account, b: Account, next: Account)
    requires SameUnrecorded(st, r, b) && next == b.(row := next.row) && Totals(next) == Totals(b)
    ensures SameUnrecorded(st, r, next)
  {
    forall t, side ensures Unrecorded(st, next, t, side) == Unrecorded(st, r, t, side) {
      assert Unrecorded(st, b, t, side) == Unrecorded(st, r, t, side);
    }
    forall side ensures UnrecordedTotal(next, side) == UnrecordedTotal(r, side) {
      assert UnrecordedTotal(b, side) == UnrecordedTotal(r, side);
    }
  }

  lemma {:induction false} LearnedExactly(st: Store, a: Account, e: Event)
    requires Sound(st) && Valid(st, a) && e.Teach? && Allowed(st, a, e) && Judge(st, a, e) == Learned
    ensures var r, batch := Roomy(st, Open(a, e.day), e.forgotten), st.lesson(e.text, e.cap);
      var ham := if e.spam then 0 else 1;
      SameUnrecorded(st, r, Adjusted(st, r, batch, ham, 1 - ham).(ledger := r.ledger[st.digest(e.text) := Entry(e.spam, |batch|, e.now)]))
    ensures Adjusted(st, Roomy(st, Open(a, e.day), e.forgotten), st.lesson(e.text, e.cap), if e.spam then 0 else 1, if e.spam then 1 else 0)
         == Adjusted(Unfloored(st), Roomy(st, Open(a, e.day), e.forgotten), st.lesson(e.text, e.cap), if e.spam then 0 else 1, if e.spam then 1 else 0)
  {
    var batch := st.lesson(e.text, e.cap);
    RoomyKeepsValid(st, a, e);
    assert LessonOk(st, e.text, e.cap);
    DigestNamesText(st, e.text);
    AdditionIsExact(st, Roomy(st, Open(a, e.day), e.forgotten), st.digest(e.text), Entry(e.spam, |batch|, e.now), batch);
  }

  lemma {:induction false} LearnedFloors(st: Store, a: Account, e: Event)
    requires Sound(st) && Valid(st, a) && e.Teach? && Allowed(st, a, e) && Judge(st, a, e) == Learned
    ensures AfterTeach(st, a, e) == AfterTeach(Unfloored(st), a, e)
  {
    LearnedExactly(st, a, e);
    RoomyKeepsValid(st, a, e);
    JudgeIgnoresFloors(st, a, e);
  }

  lemma {:induction false} JudgeIgnoresForgotten(st: Store, a: Account, e: Event, gone: set<string>)
    requires e.Teach?
    ensures Judge(st, a, e.(forgotten := gone)) == Judge(st, a, e)
  {
  }

  lemma {:induction false} JudgeIgnoresFloors(st: Store, a: Account, e: Event)
    requires e.Teach?
    ensures Judge(st, a, e) == Judge(Unfloored(st), a, e)
  {
    var u, d := Unfloored(st), st.digest(e.text);
    assert u.digest(e.text) == d;
    assert u.lesson(e.text, e.cap) == st.lesson(e.text, e.cap);
    if d in a.ledger {
      assert Back(u, a, e) == Back(st, a, e);
    }
  }

  lemma {:induction false} LearnedFits(st: Store, a: Account, e: Event)
    requires RowValid(a) && e.Teach? && Judge(st, a, e) == Learned
    ensures var added := NewRows(a, st.lesson(e.text, e.cap)); added <= 0 || |a.counts| + added <= st.tokenRows
  {
  }

  /** A message added to an account that has room for it. */
  function Adding(st: Store, r: Account, d: string, entry: Entry, batch: seq<string>, day: int): Account
    requires r.row.Some?
  {
    var ham := if entry.spam then 0 else 1;
    Adjusted(st, r, batch, ham, 1 - ham)
    .(ledger := r.ledger[d := entry],
      row := Some(Bump(Spend(r.row.value, NewRows(r, batch), day, |batch|), Learned, entry.spam)))
  }

  lemma {:induction false} LearnedIsAdding(st: Store, a: Account, e: Event)
    requires e.Teach? && |st.lesson(e.text, e.cap)| <= I32_MAX && Judge(st, a, e) == Learned
    ensures var batch := st.lesson(e.text, e.cap);
      AfterTeach(st, a, e)
      == Adding(st, Roomy(st, Open(a, e.day), e.forgotten), st.digest(e.text), Entry(e.spam, |batch|, e.now), batch, e.day)
  {
  }

  lemma {:induction false} AddedRows(st: Store, r: Account, d: string, entry: Entry, batch: seq<string>, day: int)
    requires RowValid(r) && r.row.Some? && r.row.value.tokenRows == |r.counts| && d !in r.ledger && NoDuplicates(batch)
    ensures var next := Adding(st, r, d, entry, batch, day);
      RowValid(next) && |next.ledger| == |r.ledger| + 1 && |next.counts| == |r.counts| + NewRows(r, batch)
  {
    var ham := if entry.spam then 0 else 1;
    RowsAdded(st, r, batch, ham, 1 - ham);
    InsertedCardinality(r.ledger, d, entry);
  }

  lemma {:induction false} LearnedRows(st: Store, a: Account, e: Event)
    requires Sound(st) && Valid(st, a) && e.Teach? && Allowed(st, a, e) && Judge(st, a, e) == Learned
    ensures RowValid(AfterTeach(st, a, e))
    ensures |AfterTeach(st, a, e).ledger| <= Max(|a.ledger|, Max(st.ledgerEntries, 1))
    ensures |AfterTeach(st, a, e).counts| == |a.counts| + NewRows(a, st.lesson(e.text, e.cap))
  {
    var batch := st.lesson(e.text, e.cap);
    RoomyKeepsValid(st, a, e);
    assert LessonOk(st, e.text, e.cap);
    LearnedIsAdding(st, a, e);
    AddedRows(st, Roomy(st, Open(a, e.day), e.forgotten), st.digest(e.text), Entry(e.spam, |batch|, e.now), batch, e.day);
  }

  lemma {:induction false} LearnedEntries(st: Store, a: Account, e: Event)
    requires Sound(st) && Valid(st, a) && e.Teach? && Allowed(st, a, e) && Judge(st, a, e) == Learned
    ensures EntriesValid(st, AfterTeach(st, a, e))
  {
    var r, next := Roomy(st, Open(a, e.day), e.forgotten), AfterTeach(st, a, e);
    RoomyKeepsValid(st, a, e);
    LearnedIs(st, a, e);
    LessonIsTaught(st, e.text, e.cap);
    EntryAdded(st, r, next, st.digest(e.text), Entry(e.spam, |st.lesson(e.text, e.cap)|, e.now));
  }

  lemma {:induction false} LearnedIs(st: Store, a: Account, e: Event)
    requires Sound(st) && e.Teach? && |st.lesson(e.text, e.cap)| <= I32_MAX && Judge(st, a, e) == Learned
    ensures var r, next, batch := Roomy(st, Open(a, e.day), e.forgotten), AfterTeach(st, a, e), st.lesson(e.text, e.cap);
      && next.ledger == r.ledger[st.digest(e.text) := Entry(e.spam, |batch|, e.now)]
      && next.counts.Keys == r.counts.Keys + Elements(batch)
  {
    assert LessonOk(st, e.text, e.cap);
  }

  lemma {:induction false} LessonIsTaught(st: Store, text: string, cap: nat)
    requires Sound(st)
    ensures var d, batch := st.digest(text), st.lesson(text, cap);
      && TextOf(st, d) == text && Taught(st, d, |batch|) == Elements(batch) && |st.lesson(text, |batch|)| == |batch|
  {
    DigestNamesText(st, text);
    assert LessonOk(st, text, cap);
  }

  lemma {:induction false} EntryAdded(st: Store, r: Account, next: Account, d: string, entry: Entry)
    requires EntriesValid(st, r) && next.ledger == r.ledger[d := entry] && r.counts.Keys <= next.counts.Keys
    requires EntryValid(st, next, d)
    ensures EntriesValid(st, next)
  {
    forall k | k in next.ledger ensures EntryValid(st, next, k) {
      if k != d { assert EntryValid(st, r, k); }
    }
  }

  // -------------------------------------------------------------- steps and runs

  /** One event keeps every relation between the rows, no floor bites, and the ceilings hold. */
  lemma {:induction false} StepKeepsValid(st: Store, a: Account, e: Event)
    requires Sound(st) && Valid(st, a) && Allowed(st, a, e)
    ensures Valid(st, Apply(st, a, e))
    ensures Apply(st, a, e) == Apply(Unfloored(st), a, e)
    ensures |Apply(st, a, e).ledger| <= Max(|a.ledger|, Max(st.ledgerEntries, 1))
    ensures |Apply(st, a, e).counts| <= Max(|a.counts|, st.tokenRows)
  {
    if e.Teach? {
      TeachKeepsValid(st, a, e);
    } else {
      OtherKeepsValid(st, a, e);
    }
  }

  /** What a lesson leaves is valid, owes nothing to the floors, and is within the ceilings. */
  ghost predicate TaughtWell(st: Store, a: Account, e: Event, next: Account)
    requires e.Teach?
  {
    && Valid(st, next)
    && next == AfterTeach(Unfloored(st), a, e)
    && |next.ledger| <= Max(|a.ledger|, Max(st.ledgerEntries, 1))
    && |next.counts| <= Max(|a.counts|, st.tokenRows)
  }

  lemma {:induction false} TeachKeepsValid(st: Store, a: Account, e: Event)
    requires Sound(st) && Valid(st, a) && e.Teach? && Allowed(st, a, e)
    ensures TaughtWell(st, a, e, AfterTeach(st, a, e))
  {
    if Judge(st, a, e) == Relearned {
      RelearnedKeepsValid(st, a, e);
    } else if Judge(st, a, e) == Learned {
      LearnedKeepsValid(st, a, e);
    } else {
      IdleKeepsValid(st, a, e);
    }
  }

  lemma {:induction false} OtherKeepsValid(st: Store, a: Account, e: Event)
    requires Sound(st) && Valid(st, a) && !e.Teach?
    ensures Valid(st, Apply(st, a, e)) && Apply(st, a, e) == Apply(Unfloored(st), a, e)
    ensures |Apply(st, a, e).ledger| <= |a.ledger| && |Apply(st, a, e).counts| <= |a.counts|
  {
    if e.Switch? {
      RowOnly(st, a, Apply(st, a, e));
    }
  }

  lemma {:induction false} RelearnedKeepsValid(st: Store, a: Account, e: Event)
    requires Sound(st) && Valid(st, a) && e.Teach? && Judge(st, a, e) == Relearned
    ensures TaughtWell(st, a, e, AfterTeach(st, a, e))
  {
    RelearnedCounts(st, a, e);
    RelearnedFloors(st, a, e);
    RelearnedRows(st, a, e);
  }

  lemma {:induction false} LearnedKeepsValid(st: Store, a: Account, e: Event)
    requires Sound(st) && Valid(st, a) && e.Teach? && Allowed(st, a, e) && Judge(st, a, e) == Learned
    ensures TaughtWell(st, a, e, AfterTeach(st, a, e))
  {
    LearnedCounts(st, a, e);
    LearnedFloors(st, a, e);
    LearnedRows(st, a, e);
    LearnedEntries(st, a, e);
    LearnedFits(st, a, e);
  }

  /** A repeated, throttled, refused or disabled verdict moves nothing but the row. */
  lemma {:induction false} IdleKeepsValid(st: Store, a: Account, e: Event)
    requires Valid(st, a) && e.Teach? && Judge(st, a, e) != Learned && Judge(st, a, e) != Relearned
    ensures TaughtWell(st, a, e, AfterTeach(st, a, e))
    ensures AfterTeach(st, a, e) == a.(row := AfterTeach(st, a, e).row)
    ensures SameUnrecorded(st, a, AfterTeach(st, a, e))
  {
    JudgeIgnoresFloors(st, a, e);
    RowOnly(st, a, AfterTeach(st, a, e));
  }

  /**
    In every run: each count covers the live lessons behind it, `entries` and a
    counted `token_rows` are the real row counts, both ceilings hold, and the run
    is the one a store without zero-floors would make.
   */
  lemma {:induction false} RunKeepsValid(st: Store, a: Account, events: seq<Event>)
    requires Sound(st) && Valid(st, a) && AllowedRun(st, a, events)
    ensures Valid(st, Run(st, a, events))
    ensures Run(st, a, events) == Run(Unfloored(st), a, events)
    ensures |Run(st, a, events).ledger| <= Max(|a.ledger|, Max(st.ledgerEntries, 1))
    ensures |Run(st, a, events).counts| <= Max(|a.counts|, st.tokenRows)
  {
    if events != [] {
      RunKeepsValid(st, a, Most(events));
      StepKeepsValid(st, Run(st, a, Most(events)), Last(events));
    }
  }

  // ------------------------------------------------------------ agreement with replay

  ghost predicate EvictedNothing(st: Store, a: Account, events: seq<Event>)
  {
    events != [] ==>
      EvictedNothing(st, a, Most(events)) && !Evicts(st, Run(st, a, Most(events)), Last(events))
  }

  /** The account whose corpus was taught each message of `ledger` once, and nothing else. */
  ghost predicate IsReplayOf(st: Store, a: Account, ledger: map<string, Entry>)
  {
    && (forall t, side :: Held(a.counts, t).Side(side) == |Live(st, ledger, t, side)|)
    && (forall side :: Totals(a).Side(side) == |Voices(ledger, side)|)
  }

  predicate Clears(events: seq<Event>)
  {
    events != [] && (Last(events).Reset? || Last(events).Remove? || Clears(Most(events)))
  }

  lemma {:induction false} UnrecordedIsConstant(st: Store, a: Account, e: Event)
    requires Sound(st) && Valid(st, a) && Allowed(st, a, e) && !Evicts(st, a, e) && !e.Reset? && !e.Remove?
    ensures SameUnrecorded(st, a, Apply(st, a, e))
  {
    var next := Apply(st, a, e);
    StepKeepsValid(st, a, e);
    if e.Switch? {
      RowOnly(st, a, next);
    } else if Judge(st, a, e) == Relearned {
      RelearnedCounts(st, a, e);
    } else if Judge(st, a, e) == Learned {
      var r := Roomy(st, Open(a, e.day), e.forgotten);
      RoomyKeepsValid(st, a, e);
      LearnedCounts(st, a, e);
      forall t, side ensures Unrecorded(st, next, t, side) == Unrecorded(st, a, t, side) {
        assert Unrecorded(st, next, t, side) == Unrecorded(st, r, t, side);
      }
      forall side ensures UnrecordedTotal(next, side) == UnrecordedTotal(a, side) {
        assert UnrecordedTotal(next, side) == UnrecordedTotal(r, side);
      }
    } else {
      IdleKeepsValid(st, a, e);
    }
  }

  /** The entries of the ledger an event evicts. */
  ghost function Dropped(st: Store, a: Account, e: Event): map<string, Entry>
  {
    map d | d in a.ledger && Evicts(st, a, e) && d in e.forgotten :: a.ledger[d]
  }

  /** How many messages evicted since the account was last cleared taught token `t` on a side. */
  ghost function Forgotten(st: Store, a: Account, events: seq<Event>, t: string, side: bool): nat
  {
    if events == [] || Last(events).Reset? || Last(events).Remove? then 0
    else Forgotten(st, a, Most(events), t, side) + |Live(st, Dropped(st, Run(st, a, Most(events)), Last(events)), t, side)|
  }

  /** How many messages evicted since then held a verdict. */
  ghost function ForgottenVoices(st: Store, a: Account, events: seq<Event>, side: bool): nat
  {
    if events == [] || Last(events).Reset? || Last(events).Remove? then 0
    else ForgottenVoices(st, a, Most(events), side) + |Voices(Dropped(st, Run(st, a, Most(events)), Last(events)), side)|
  }

  lemma {:induction false} SplitInTwo(choice: set<string>, k: set<string>, g: set<string>)
    requires choice <= k + g && k !! g
    ensures |choice| == |choice * k| + |choice * g|
  {
    assert choice == choice * k + choice * g;
  }

  ghost function Chosen(ledger: map<string, Entry>, p: (string, Entry) -> bool): set<string>
  {
    set d | d in ledger && p(d, ledger[d])
  }

  /** `part` is what `ledger` says of the names `names`. */
  ghost predicate Restricts(ledger: map<string, Entry>, names: set<string>, part: map<string, Entry>)
  {
    part.Keys == names && names <= ledger.Keys && forall d :: d in part ==> part[d] == ledger[d]
  }

  lemma {:induction false} ChosenPart(ledger: map<string, Entry>, names: set<string>, part: map<string, Entry>, p: (string, Entry) -> bool)
    requires Restricts(ledger, names, part)
    ensures Chosen(part, p) == Chosen(ledger, p) * names
  {
  }

  lemma {:induction false} ChosenSplits(ledger: map<string, Entry>, kept: map<string, Entry>, gone: map<string, Entry>, p: (string, Entry) -> bool)
    requires Restricts(ledger, kept.Keys, kept) && Restricts(ledger, gone.Keys, gone)
    requires ledger.Keys == kept.Keys + gone.Keys && kept.Keys !! gone.Keys
    ensures |Chosen(ledger, p)| == |Chosen(kept, p)| + |Chosen(gone, p)|
  {
    ChosenPart(ledger, kept.Keys, kept, p);
    ChosenPart(ledger, gone.Keys, gone, p);
    SplitInTwo(Chosen(ledger, p), kept.Keys, gone.Keys);
  }

  ghost function Teaches(st: Store, t: string, side: bool): (string, Entry) -> bool
  {
    (d: string, e: Entry) => e.spam == side && t in Taught(st, d, e.tokens)
  }

  function Says(side: bool): (string, Entry) -> bool
  {
    (d: string, e: Entry) => e.spam == side
  }

  /** What is live or has a voice, as a choice of entries. */
  lemma {:induction false} LiveIsChosen(st: Store, ledger: map<string, Entry>, t: string, side: bool)
    ensures Live(st, ledger, t, side) == Chosen(ledger, Teaches(st, t, side))
    ensures Voices(ledger, side) == Chosen(ledger, Says(side))
  {
  }

  lemma {:induction false} LedgerSplits(st: Store, ledger: map<string, Entry>, kept: map<string, Entry>, gone: map<string, Entry>, t: string, side: bool)
    requires Restricts(ledger, kept.Keys, kept) && Restricts(ledger, gone.Keys, gone)
    requires ledger.Keys == kept.Keys + gone.Keys && kept.Keys !! gone.Keys
    ensures |Live(st, ledger, t, side)| == |Live(st, kept, t, side)| + |Live(st, gone, t, side)|
    ensures |Voices(ledger, side)| == |Voices(kept, side)| + |Voices(gone, side)|
  {
    LiveIsChosen(st, ledger, t, side);
    LiveIsChosen(st, kept, t, side);
    LiveIsChosen(st, gone, t, side);
    ChosenSplits(ledger, kept, gone, Teaches(st, t, side));
    ChosenSplits(ledger, kept, gone, Says(side));
  }

  /** What eviction takes off the ledger it leaves in the counts. */
  lemma {:induction false} EvictionUnrecords(st: Store, a: Account, e: Event, t: string, side: bool)
    requires Evicts(st, a, e)
    ensures var r := Roomy(st, Open(a, e.day), e.forgotten);
      && Unrecorded(st, r, t, side) == Unrecorded(st, a, t, side) + |Live(st, Dropped(st, a, e), t, side)|
      && UnrecordedTotal(r, side) == UnrecordedTotal(a, side) + |Voices(Dropped(st, a, e), side)|
  {
    var kept, gone := a.ledger - e.forgotten, Dropped(st, a, e);
    assert Restricts(a.ledger, kept.Keys, kept) && Restricts(a.ledger, gone.Keys, gone);
    LedgerSplits(st, a.ledger, kept, gone, t, side);
    RoomyIs(st, a, e, kept);
  }

  lemma {:induction false} RoomyIs(st: Store, a: Account, e: Event, kept: map<string, Entry>)
    requires Evicts(st, a, e) && kept == a.ledger - e.forgotten
    ensures var r := Roomy(st, Open(a, e.day), e.forgotten);
      r.ledger == kept && r.counts == a.counts && r.totals == a.totals
  {
  }

  /** One event adds to what lies beyond the ledger exactly the lessons of what it evicts. */
  lemma {:induction false} StepUnrecords(st: Store, a: Account, e: Event, t: string, side: bool)
    requires Sound(st) && Valid(st, a) && Allowed(st, a, e) && !e.Reset? && !e.Remove?
    ensures Unrecorded(st, Apply(st, a, e), t, side) == Unrecorded(st, a, t, side) + |Live(st, Dropped(st, a, e), t, side)|
    ensures UnrecordedTotal(Apply(st, a, e), side) == UnrecordedTotal(a, side) + |Voices(Dropped(st, a, e), side)|
  {
    if Evicts(st, a, e) {
      LearnedCounts(st, a, e);
      EvictionUnrecords(st, a, e, t, side);
    } else {
      UnrecordedIsConstant(st, a, e);
      assert Live(st, Dropped(st, a, e), t, side) == {} && Voices(Dropped(st, a, e), side) == {};
    }
  }

  /**
    After any run, what the counts hold beyond one lesson per message of the
    ledger is what they held before it, or nothing once the account was cleared,
    and the lessons of exactly the messages evicted since.
   */
  lemma {:induction false} RunUnrecordedExactly(st: Store, a: Account, events: seq<Event>, t: string, side: bool)
    requires Sound(st) && Valid(st, a) && AllowedRun(st, a, events)
    ensures Unrecorded(st, Run(st, a, events), t, side)
         == (if Clears(events) then 0 else Unrecorded(st, a, t, side)) + Forgotten(st, a, events, t, side)
    ensures UnrecordedTotal(Run(st, a, events), side)
         == (if Clears(events) then 0 else UnrecordedTotal(a, side)) + ForgottenVoices(st, a, events, side)
  {
    if events != [] {
      var before, e := Run(st, a, Most(events)), Last(events);
      RunUnrecordedExactly(st, a, Most(events), t, side);
      RunKeepsValid(st, a, Most(events));
      if e.Reset? || e.Remove? {
        ClearedHoldsNothing(st, Run(st, a, events), t, side);
      } else {
        StepUnrecords(st, before, e, t, side);
      }
    }
  }

  lemma {:induction false} ClearedHoldsNothing(st: Store, a: Account, t: string, side: bool)
    requires a.ledger == map[] && a.counts == map[] && a.totals.None?
    ensures Unrecorded(st, a, t, side) == 0 && UnrecordedTotal(a, side) == 0
  {
    assert Live(st, map[], t, side) == {} && Voices(map[], side) == {};
  }

  /** From an account that holds nothing, every count is the live messages behind it and those evicted since the last clearing. */
  lemma {:induction false} EveryLessonIsAccountedFor(st: Store, events: seq<Event>, t: string, side: bool)
    requires Sound(st) && AllowedRun(st, NO_ACCOUNT, events)
    ensures var now := Run(st, NO_ACCOUNT, events);
      && Held(now.counts, t).Side(side) == |Live(st, now.ledger, t, side)| + Forgotten(st, NO_ACCOUNT, events, t, side)
      && Totals(now).Side(side) == |Voices(now.ledger, side)| + ForgottenVoices(st, NO_ACCOUNT, events, side)
  {
    NothingIsValid(st);
    RunUnrecordedExactly(st, NO_ACCOUNT, events, t, side);
    ClearedHoldsNothing(st, NO_ACCOUNT, t, side);
  }

  lemma {:induction false} NothingIsValid(st: Store)
    ensures Valid(st, NO_ACCOUNT)
  {
    forall t, side ensures Unrecorded(st, NO_ACCOUNT, t, side) >= 0 && UnrecordedTotal(NO_ACCOUNT, side) >= 0 {
      ClearedHoldsNothing(st, NO_ACCOUNT, t, side);
    }
  }

  lemma {:induction false} NothingForgotten(st: Store, a: Account, events: seq<Event>, t: string, side: bool)
    requires EvictedNothing(st, a, events)
    ensures Forgotten(st, a, events, t, side) == 0 && ForgottenVoices(st, a, events, side) == 0
  {
    if events != [] {
      NothingForgotten(st, a, Most(events), t, side);
      var gone := Dropped(st, Run(st, a, Most(events)), Last(events));
      assert Live(st, gone, t, side) == {} && Voices(gone, side) == {};
    }
  }

  /**
    After a run that evicted nothing, what the counts hold beyond one lesson per
    message of the ledger is what they held before it, or nothing once the account
    was reset or removed: repeats and reversals leave no trace.
   */
  lemma {:induction false} RunUnrecorded(st: Store, a: Account, events: seq<Event>)
    requires Sound(st) && Valid(st, a) && AllowedRun(st, a, events) && EvictedNothing(st, a, events)
    ensures !Clears(events) ==> SameUnrecorded(st, a, Run(st, a, events))
    ensures Clears(events) ==> IsReplayOf(st, Run(st, a, events), Run(st, a, events).ledger)
  {
    var after := Run(st, a, events);
    forall t, side
      ensures Unrecorded(st, after, t, side) == if Clears(events) then 0 else Unrecorded(st, a, t, side)
    {
      RunUnrecordedExactly(st, a, events, t, side);
      NothingForgotten(st, a, events, t, side);
    }
    forall side
      ensures UnrecordedTotal(after, side) == if Clears(events) then 0 else UnrecordedTotal(a, side)
    {
      RunUnrecordedExactly(st, a, events, "", side);
      NothingForgotten(st, a, events, "", side);
    }
    if Clears(events) {
      NothingUnrecorded(st, after);
    }
  }

  lemma {:induction false} NothingUnrecorded(st: Store, a: Account)
    requires (forall t, side :: Unrecorded(st, a, t, side) == 0) && forall side :: UnrecordedTotal(a, side) == 0
    ensures IsReplayOf(st, a, a.ledger)
  {
    forall t, side ensures Held(a.counts, t).Side(side) == |Live(st, a.ledger, t, side)| {
      assert Unrecorded(st, a, t, side) == 0;
    }
    forall side ensures Totals(a).Side(side) == |Voices(a.ledger, side)| {
      assert UnrecordedTotal(a, side) == 0;
    }
  }

  /** From an account that holds nothing, every run without eviction is the replay of its ledger. */
  lemma {:induction false} RunIsReplay(st: Store, events: seq<Event>)
    requires Sound(st) && AllowedRun(st, NO_ACCOUNT, events) && EvictedNothing(st, NO_ACCOUNT, events)
    ensures IsReplayOf(st, Run(st, NO_ACCOUNT, events), Run(st, NO_ACCOUNT, events).ledger)
  {
    var a := Run(st, NO_ACCOUNT, events);
    forall t, side ensures Held(a.counts, t).Side(side) == |Live(st, a.ledger, t, side)| {
      EveryLessonIsAccountedFor(st, events, t, side);
      NothingForgotten(st, NO_ACCOUNT, events, t, side);
    }
    forall side ensures Totals(a).Side(side) == |Voices(a.ledger, side)| {
      EveryLessonIsAccountedFor(st, events, "", side);
      NothingForgotten(st, NO_ACCOUNT, events, "", side);
    }
  }

  /** Two ledgers that hold the same verdicts, whenever they were given. */
  ghost predicate SameVerdicts(l: map<string, Entry>, m: map<string, Entry>)
  {
    l.Keys == m.Keys && forall d :: d in l ==> l[d].spam == m[d].spam && l[d].tokens == m[d].tokens
  }

  /**
    The corpus is a function of the verdicts that stand: two histories without
    eviction that end with the same ledger end with the same counts, however often
    verdicts were repeated or reversed on the way.
   */
  lemma {:induction false} HistoryLeavesNoTrace(st: Store, one: seq<Event>, other: seq<Event>)
    requires Sound(st)
    requires AllowedRun(st, NO_ACCOUNT, one) && EvictedNothing(st, NO_ACCOUNT, one)
    requires AllowedRun(st, NO_ACCOUNT, other) && EvictedNothing(st, NO_ACCOUNT, other)
    requires SameVerdicts(Run(st, NO_ACCOUNT, one).ledger, Run(st, NO_ACCOUNT, other).ledger)
    ensures forall t :: Held(Run(st, NO_ACCOUNT, one).counts, t) == Held(Run(st, NO_ACCOUNT, other).counts, t)
    ensures Totals(Run(st, NO_ACCOUNT, one)) == Totals(Run(st, NO_ACCOUNT, other))
  {
    var a, b := Run(st, NO_ACCOUNT, one), Run(st, NO_ACCOUNT, other);
    RunIsReplay(st, one);
    RunIsReplay(st, other);
    forall t ensures Held(a.counts, t) == Held(b.counts, t) {
      forall side ensures Held(a.counts, t).Side(side) == Held(b.counts, t).Side(side) {
        assert Live(st, a.ledger, t, side) == Live(st, b.ledger, t, side);
      }
      assert Held(a.counts, t).Side(true) == Held(b.counts, t).Side(true);
      assert Held(a.counts, t).Side(false) == Held(b.counts, t).Side(false);
    }
    forall side ensures Totals(a).Side(side) == Totals(b).Side(side) {
      assert Voices(a.ledger, side) == Voices(b.ledger, side);
    }
    assert Totals(a).Side(true) == Totals(b).Side(true);
    assert Totals(a).Side(false) == Totals(b).Side(false);
  }

  // ----------------------------------------------------------------- the day's budget

  /** The tokens one event writes. */
  function Written(st: Store, a: Account, e: Event): nat
  {
    if !e.Teach? then 0
    else match Judge(st, a, e)
      case Learned => |st.lesson(e.text, e.cap)|
      case Relearned => |Back(st, a, e)|
      case _ => 0
  }

  /** The tokens a day's lessons wrote since the account was last removed. */
  function WrittenOn(st: Store, a: Account, events: seq<Event>, day: int): nat
  {
    if events == [] || Last(events).Remove? then 0
    else WrittenOn(st, a, Most(events), day)
         + if Last(events).Teach? && Last(events).day == day then Written(st, Run(st, a, Most(events)), Last(events)) else 0
  }

  predicate Dated(e: Event) { e.Teach? || e.Switch? }

  function DayOf(e: Event): int
    requires Dated(e)
  {
    if e.Teach? then e.day else e.today
  }

  /** The calendar does not go back during the run. */
  ghost predicate InOrder(events: seq<Event>)
  {
    forall i, j :: 0 <= i < j < |events| && Dated(events[i]) && Dated(events[j]) ==> DayOf(events[i]) <= DayOf(events[j])
  }

  /** The row's budget is what its day's lessons wrote, and nothing was written later. */
  ghost predicate BudgetTold(st: Store, a: Account, events: seq<Event>, day: int)
  {
    Told(st.tokensPerDay, Run(st, a, events).row, WrittenOn(st, a, events, day), day)
  }

  predicate Told(limit: int, row: Option<Row>, w: nat, day: int)
  {
    && w <= Max(limit, 0)
    && match row
       case None => w == 0
       case Some(r) => (day == r.budgetDay ==> w == r.budgetTokens) && (day > r.budgetDay ==> w == 0)
  }

  lemma {:induction false} TeachKeepsTold(st: Store, r: Account, e: Event, w: nat, day: int)
    requires e.Teach? && Told(st.tokensPerDay, r.row, w, day) && (r.row.Some? ==> r.row.value.budgetDay <= e.day)
    ensures Told(st.tokensPerDay, AfterTeach(st, r, e).row, w + if e.day == day then Written(st, r, e) else 0, day)
  {
    var after, cost := AfterTeach(st, r, e).row, Written(st, r, e);
    TeachSpends(st, r, e);
    if Writes(st, r, e) {
      OpenedSpent(r, e.day);
      WroteKeepsTold(st.tokensPerDay, r.row, after, w, cost, e.day, day);
    }
  }

  lemma {:induction false} OpenedSpent(r: Account, day: int)
    ensures SpentToday(Opened(r, day), day)
         == if r.row.Some? && r.row.value.budgetDay == day then r.row.value.budgetTokens else 0
  {
  }

  lemma {:induction false} WroteKeepsTold(limit: int, row: Option<Row>, after: Option<Row>, w: nat, cost: nat, today: int, day: int)
    requires Told(limit, row, w, day) && (row.Some? ==> row.value.budgetDay <= today)
    requires after.Some? && after.value.budgetDay == today && after.value.budgetTokens <= limit
    requires after.value.budgetTokens == (if row.Some? && row.value.budgetDay == today then row.value.budgetTokens else 0) + cost
    ensures Told(limit, after, w + if today == day then cost else 0, day)
  {
  }

  ghost predicate SomeDayAfter(events: seq<Event>, day: int)
  {
    exists i :: 0 <= i < |events| && Dated(events[i]) && DayOf(events[i]) >= day
  }

  lemma {:induction false} RowDayHasCome(st: Store, a: Account, events: seq<Event>)
    requires a.row.None? && Run(st, a, events).row.Some?
    ensures SomeDayAfter(events, Run(st, a, events).row.value.budgetDay)
  {
    var most, e := Most(events), Last(events);
    var r, day := Run(st, a, most), Run(st, a, events).row.value.budgetDay;
    if e.Teach? {
      TeachSpends(st, r, e);
    }
    if Dated(e) && day == DayOf(e) {
      assert events[|events| - 1] == e;
    } else {
      RowDayHasCome(st, a, most);
      var i :| 0 <= i < |most| && Dated(most[i]) && DayOf(most[i]) >= r.row.value.budgetDay;
      assert events[i] == most[i];
    }
  }

  lemma {:induction false} NoEarlierThanTheRow(st: Store, a: Account, events: seq<Event>)
    requires a.row.None? && InOrder(events) && events != [] && Dated(Last(events)) && Run(st, a, Most(events)).row.Some?
    ensures Run(st, a, Most(events)).row.value.budgetDay <= DayOf(Last(events))
  {
    var most := Most(events);
    RowDayHasCome(st, a, most);
    var i :| 0 <= i < |most| && Dated(most[i]) && DayOf(most[i]) >= Run(st, a, most).row.value.budgetDay;
    assert events[i] == most[i] && events[|events| - 1] == Last(events);
  }

  /**
    While the calendar does not go back, no day's lessons write more tokens than
    the day's budget, however often the account is reset or switched in between.
    Only removing the account starts the day again.
   */
  lemma {:induction false} DayStaysInBudget(st: Store, a: Account, events: seq<Event>, day: int)
    requires a.row.None? && InOrder(events)
    ensures BudgetTold(st, a, events, day)
  {
    if events != [] {
      var most, e := Most(events), Last(events);
      var r := Run(st, a, most);
      DayStaysInBudget(st, a, most, day);
      if Dated(e) && r.row.Some? {
        NoEarlierThanTheRow(st, a, events);
      }
      if e.Teach? {
        TeachKeepsTold(st, r, e, WrittenOn(st, a, most, day), day);
      }
    }
  }

  /** What a budget row holds: a day and the tokens written on it, since it last started from nothing. */
  datatype Stretch = Stretch(day: Option<int>, tokens: int)

  const NO_STRETCH := Stretch(None, 0)

  function StretchOf(a: Account): Stretch
  {
    match a.row
    case None => NO_STRETCH
    case Some(row) => Stretch(Some(row.budgetDay), row.budgetTokens)
  }

  predicate Writes(st: Store, a: Account, e: Event)
  {
    e.Teach? && (Judge(st, a, e) == Learned || Judge(st, a, e) == Relearned)
  }

  /** What the events wrote since the last removal, or the last lesson of another day, whatever the row says. */
  function Since(st: Store, a: Account, events: seq<Event>): Stretch
  {
    if events == [] then StretchOf(a)
    else
      var before, r, e := Since(st, a, Most(events)), Run(st, a, Most(events)), Last(events);
      if e.Remove? then NO_STRETCH
      else if !Writes(st, r, e) then before
      else Stretch(Some(e.day), (if before.day == Some(e.day) then before.tokens else 0) + Written(st, r, e))
  }

  /** How many events came before that stretch, if one of them started it. */
  function Restarted(st: Store, a: Account, events: seq<Event>): (r: Option<nat>)
    ensures r.Some? ==> r.value <= |events|
  {
    if events == [] then None
    else
      var e := Last(events);
      if e.Remove? then Some(|events|)
      else if Writes(st, Run(st, a, Most(events)), e) && Since(st, a, Most(events)).day != Some(e.day) then Some(|events| - 1)
      else Restarted(st, a, Most(events))
  }

  /** A row says as much as a stretch; one that no lesson has written to yet may carry any day. */
  predicate Tells(row: Option<Row>, stretch: Stretch)
  {
    match row
    case None => stretch == NO_STRETCH
    case Some(r) => stretch.tokens == r.budgetTokens && (stretch.day == Some(r.budgetDay) || stretch == NO_STRETCH)
  }

  lemma {:induction false} TeachTells(st: Store, r: Account, e: Event, before: Stretch)
    requires e.Teach? && Tells(r.row, before)
    ensures !Writes(st, r, e) ==> Tells(AfterTeach(st, r, e).row, before)
    ensures Writes(st, r, e) ==>
      var after := Stretch(Some(e.day), (if before.day == Some(e.day) then before.tokens else 0) + Written(st, r, e));
      Tells(AfterTeach(st, r, e).row, after) && after.tokens <= st.tokensPerDay
  {
    TeachSpends(st, r, e);
    OpenedTells(r, e.day, before);
  }

  lemma {:induction false} OpenedTells(r: Account, day: int, before: Stretch)
    requires Tells(r.row, before)
    ensures SpentToday(Opened(r, day), day) == if before.day == Some(day) then before.tokens else 0
  {
  }

  /**
    In every run from any account, whatever the clock does, the row's budget is
    what was written since it last restarted, and that is within the limit.
   */
  lemma {:induction false} BudgetIsTheStretch(st: Store, a: Account, events: seq<Event>)
    ensures Tells(Run(st, a, events).row, Since(st, a, events))
    ensures Since(st, a, events).tokens <= Max(Max(st.tokensPerDay, 0), StretchOf(a).tokens)
  {
    if events != [] {
      BudgetIsTheStretch(st, a, Most(events));
      var r, before, e := Run(st, a, Most(events)), Since(st, a, Most(events)), Last(events);
      if e.Teach? {
        TeachTells(st, r, e, before);
      }
    }
  }

  /** All that was written on a day, removals or not, with what the first row says of it. */
  function DayTotal(st: Store, a: Account, events: seq<Event>, day: int): int
  {
    if events == [] then (if StretchOf(a).day == Some(day) then StretchOf(a).tokens else 0)
    else DayTotal(st, a, Most(events), day)
         + if Last(events).Teach? && Last(events).day == day then Written(st, Run(st, a, Most(events)), Last(events)) else 0
  }

  /** What was written on the day before its budget last restarted. */
  function Earlier(st: Store, a: Account, events: seq<Event>, day: int): int
  {
    match Restarted(st, a, events)
    case None => 0
    case Some(r) => DayTotal(st, a, events[..r], day)
  }

  lemma {:induction false} DayIsTheStretchAndEarlier(st: Store, a: Account, events: seq<Event>, day: int)
    requires Since(st, a, events).day == Some(day)
    ensures DayTotal(st, a, events, day) == Since(st, a, events).tokens + Earlier(st, a, events, day)
  {
    if events != [] {
      var most, e := Most(events), Last(events);
      var r := Run(st, a, most);
      if Writes(st, r, e) && Since(st, a, most).day != Some(e.day) {
        assert events[..|events| - 1] == most;
      } else {
        DayIsTheStretchAndEarlier(st, a, most, day);
        var k := Restarted(st, a, most);
        assert k.Some? ==> events[..k.value] == most[..k.value];
        assert !Writes(st, r, e) ==> Written(st, r, e) == 0;
      }
    }
  }

  /** Nothing on the first row for the day, and no lesson of the day that wrote. */
  predicate Untouched(st: Store, a: Account, events: seq<Event>, day: int)
  {
    && (StretchOf(a).day == Some(day) ==> StretchOf(a).tokens == 0)
    && forall k :: 0 <= k < |events| && events[k].Teach? && events[k].day == day ==> Written(st, Run(st, a, events[..k]), events[k]) == 0
  }

  lemma {:induction false} UntouchedSoFar(st: Store, a: Account, events: seq<Event>, most: seq<Event>, day: int)
    requires events != [] && most == Most(events)
    ensures Untouched(st, a, events, day) <==>
      && Untouched(st, a, most, day)
      && (Last(events).Teach? && Last(events).day == day ==> Written(st, Run(st, a, most), Last(events)) == 0)
  {
    assert events[..|most|] == most && events[|most|] == Last(events);
    forall k | 0 <= k < |most|
      ensures events[k] == most[k] && events[..k] == most[..k]
    {
    }
  }

  lemma {:induction false} NothingWritten(st: Store, a: Account, events: seq<Event>, day: int)
    requires StretchOf(a).tokens >= 0
    ensures DayTotal(st, a, events, day) >= 0
    ensures DayTotal(st, a, events, day) == 0 <==> Untouched(st, a, events, day)
  {
    if events != [] {
      var most, e := Most(events), Last(events);
      NothingWritten(st, a, most, day);
      assert events[..|events| - 1] == most && events[|events| - 1] == e;
      UntouchedSoFar(st, a, events, most, day);
    }
  }

  /**
    The budget holds for a whole day, removals and backward clocks included,
    exactly as far as nothing of the day was written before its last restart.
   */
  lemma {:induction false} DayIsTheStretchExactlyWhen(st: Store, a: Account, events: seq<Event>, day: int)
    requires StretchOf(a).tokens >= 0 && Since(st, a, events).day == Some(day)
    ensures DayTotal(st, a, events, day) == Since(st, a, events).tokens
       <==> (var r := Restarted(st, a, events); r.None? || Untouched(st, a, events[..r.value], day))
    ensures DayTotal(st, a, events, day) >= Since(st, a, events).tokens
  {
    DayIsTheStretchAndEarlier(st, a, events, day);
    var r := Restarted(st, a, events);
    if r.Some? {
      NothingWritten(st, a, events[..r.value], day);
    }
  }

  /** What a day's lessons wrote since its own budget last restarted, whatever days came after. */
  function LastRound(st: Store, a: Account, events: seq<Event>, day: int): int
  {
    if events == [] then (if StretchOf(a).day == Some(day) then StretchOf(a).tokens else 0)
    else
      var most, e := Most(events), Last(events);
      if Writes(st, Run(st, a, most), e) && e.day == day
      then (if Since(st, a, most).day == Some(day) then LastRound(st, a, most, day) else 0) + Written(st, Run(st, a, most), e)
      else LastRound(st, a, most, day)
  }

  /** What they wrote in the rounds before that one. */
  function EarlierRounds(st: Store, a: Account, events: seq<Event>, day: int): int
  {
    if events == [] then 0
    else
      var most, e := Most(events), Last(events);
      if Writes(st, Run(st, a, most), e) && e.day == day && Since(st, a, most).day != Some(day)
      then EarlierRounds(st, a, most, day) + LastRound(st, a, most, day)
      else EarlierRounds(st, a, most, day)
  }

  lemma {:induction false} RoundsMakeTheDay(st: Store, a: Account, events: seq<Event>, day: int)
    requires 0 <= StretchOf(a).tokens <= st.tokensPerDay
    ensures DayTotal(st, a, events, day) == LastRound(st, a, events, day) + EarlierRounds(st, a, events, day)
    ensures 0 <= LastRound(st, a, events, day) <= st.tokensPerDay && 0 <= EarlierRounds(st, a, events, day)
    ensures Since(st, a, events).day == Some(day) ==> LastRound(st, a, events, day) == Since(st, a, events).tokens
  {
    if events != [] {
      var most, e := Most(events), Last(events);
      RoundsMakeTheDay(st, a, most, day);
      BudgetIsTheStretch(st, a, most);
      if e.Teach? {
        TeachTells(st, Run(st, a, most), e, Since(st, a, most));
      }
    }
  }

  /**
    Any day, in any run: its lessons stayed within the day's budget exactly when
    what they wrote before the day's last restart fits what the last round left.
   */
  lemma {:induction false} DayInBudgetExactlyWhen(st: Store, a: Account, events: seq<Event>, day: int)
    requires 0 <= StretchOf(a).tokens <= st.tokensPerDay
    ensures DayTotal(st, a, events, day) <= st.tokensPerDay
       <==> EarlierRounds(st, a, events, day) <= st.tokensPerDay - LastRound(st, a, events, day)
    ensures EarlierRounds(st, a, events, day) == 0 ==> DayTotal(st, a, events, day) <= st.tokensPerDay
  {
    RoundsMakeTheDay(st, a, events, day);
  }

  /** Three lessons: a message on a day, another on the next, and the first one's verdict reversed with the clock back on the day. */
  function ThereAndBack(text: string, other: string, cap: nat, day: int): seq<Event>
  {
    [Teach(text, false, cap, day, 0, {}), Teach(other, false, cap, day + 1, 1, {}), Teach(text, true, cap, day, 2, {})]
  }

  lemma {:induction false} FirstLesson(st: Store, e: Event)
    requires Sound(st) && e.Teach? && |st.lesson(e.text, e.cap)| <= Min(st.tokensPerDay, st.tokenRows)
    ensures Judge(st, NO_ACCOUNT, e) == Learned
  {
    assert Elements(st.lesson(e.text, e.cap)) * NO_ACCOUNT.counts.Keys == {};
  }

  /** When the clock goes back a day's lessons can write more than the day's budget. */
  lemma {:induction false} ClockBackRestartsTheDay(st: Store, text: string, other: string, cap: nat, day: int)
    requires Sound(st) && text != other && st.ledgerEntries > 1
    requires |st.lesson(text, cap)| <= Min(st.tokensPerDay, I32_MAX) && st.tokensPerDay < 2 * |st.lesson(text, cap)|
    requires |st.lesson(other, cap)| <= st.tokensPerDay && |st.lesson(other, cap)| + |st.lesson(text, cap)| <= st.tokenRows
    ensures DayTotal(st, NO_ACCOUNT, ThereAndBack(text, other, cap, day), day) > st.tokensPerDay
  {
    var events := ThereAndBack(text, other, cap, day);
    var one, two, three := events[0], events[1], events[2];
    FirstLesson(st, one);
    var a1 := AfterTeach(st, NO_ACCOUNT, one);
    SecondLesson(st, a1, one, two);
    var a2 := AfterTeach(st, a1, two);
    ThirdLesson(st, a1, a2, one, two, three);
    assert Most(events) == [one, two] && Most([one, two]) == [one] && Most([one]) == [];
    assert Run(st, NO_ACCOUNT, [one]) == a1 && Run(st, NO_ACCOUNT, [one, two]) == a2;
    assert DayTotal(st, NO_ACCOUNT, [one], day) == Written(st, NO_ACCOUNT, one);
    assert DayTotal(st, NO_ACCOUNT, [one, two], day) == DayTotal(st, NO_ACCOUNT, [one], day);
  }

  lemma {:induction false} SecondLesson(st: Store, a1: Account, one: Event, two: Event)
    requires Sound(st) && one.Teach? && two.Teach? && one.text != two.text && one.day != two.day
    requires Judge(st, NO_ACCOUNT, one) == Learned && a1 == AfterTeach(st, NO_ACCOUNT, one) && st.ledgerEntries > 1
    requires |st.lesson(two.text, two.cap)| <= st.tokensPerDay
    requires |st.lesson(one.text, one.cap)| + |st.lesson(two.text, two.cap)| <= st.tokenRows
    requires |st.lesson(one.text, one.cap)| <= I32_MAX
    ensures Judge(st, a1, two) == Learned
    ensures a1.row.Some? && a1.row.value.enabled && a1.row.value.entries == 1
    ensures a1.ledger == map[st.digest(one.text) := Entry(one.spam, |st.lesson(one.text, one.cap)|, one.now)]
  {
    var batch := st.lesson(one.text, one.cap);
    assert LessonOk(st, one.text, one.cap);
    RowsAdded(st, NO_ACCOUNT, batch, 1, 0);
    RowsAdded(st, NO_ACCOUNT, batch, 0, 1);
    assert Elements(batch) * NO_ACCOUNT.counts.Keys == {};
    assert st.digest(one.text) != st.digest(two.text);
    assert a1.row.value.tokenRows == |batch|;
  }

  lemma {:induction false} ThirdLesson(st: Store, a1: Account, a2: Account, one: Event, two: Event, three: Event)
    requires Sound(st) && one.Teach? && two.Teach? && three.Teach? && one.text == three.text != two.text
    requires one.cap == three.cap && one.spam != three.spam && one.day == three.day != two.day
    requires a1.row.Some? && a1.row.value.enabled && a1.row.value.entries == 1 && st.ledgerEntries > 1
    requires a1.ledger == map[st.digest(one.text) := Entry(one.spam, |st.lesson(one.text, one.cap)|, one.now)]
    requires Judge(st, a1, two) == Learned && a2 == AfterTeach(st, a1, two)
    requires |st.lesson(one.text, one.cap)| <= st.tokensPerDay
    ensures Judge(st, a2, three) == Relearned && Written(st, a2, three) == |st.lesson(one.text, one.cap)|
  {
    var d := st.digest(one.text);
    assert d != st.digest(two.text);
    assert a2.ledger[d] == a1.ledger[d];
    assert a2.row.value.budgetDay == two.day && a2.row.value.enabled;
    assert Back(st, a2, three) == st.lesson(one.text, one.cap);
  }

  /** The row goes with a removed account, so the same lesson fits the same day's budget again. */
  lemma {:induction false} RemovalRestartsTheDay(st: Store, text: string, cap: nat, day: int, now: int)
    requires Sound(st) && |st.lesson(text, cap)| <= st.tokensPerDay < 2 * |st.lesson(text, cap)|
    requires |st.lesson(text, cap)| <= st.tokenRows
    ensures var e := Teach(text, false, cap, day, now, {});
      var again := Apply(st, Apply(st, NO_ACCOUNT, e), Remove);
      && Judge(st, NO_ACCOUNT, e) == Judge(st, again, e) == Learned
      && Written(st, NO_ACCOUNT, e) + Written(st, again, e) > st.tokensPerDay
  {
    var e := Teach(text, false, cap, day, now, {});
    assert Elements(st.lesson(text, cap)) * NO_ACCOUNT.counts.Keys == {};
    assert Judge(st, NO_ACCOUNT, e) == Learned;
  }

  /** A lesson puts on the row's budget of its day exactly what it writes. */
  lemma {:induction false} TeachSpends(st: Store, a: Account, e: Event)
    requires e.Teach?
    ensures Judge(st, a, e) != Learned && Judge(st, a, e) != Relearned ==>
      && Written(st, a, e) == 0
      && (a.row.Some? ==>
           && AfterTeach(st, a, e).row.Some?
           && AfterTeach(st, a, e).row.value.budgetDay == a.row.value.budgetDay
           && AfterTeach(st, a, e).row.value.budgetTokens == a.row.value.budgetTokens)
      && (a.row.None? && AfterTeach(st, a, e).row.Some? ==>
           AfterTeach(st, a, e).row.value.budgetDay == e.day && AfterTeach(st, a, e).row.value.budgetTokens == 0)
    ensures Judge(st, a, e) == Learned || Judge(st, a, e) == Relearned ==>
      && AfterTeach(st, a, e).row.Some?
      && AfterTeach(st, a, e).row.value.budgetDay == e.day
      && AfterTeach(st, a, e).row.value.budgetTokens == SpentToday(Opened(a, e.day), e.day) + Written(st, a, e)
      && SpentToday(Opened(a, e.day), e.day) + Written(st, a, e) <= st.tokensPerDay
  {
  }

  // -------------------------------------------------------- the rows, updated in place

  lemma {:induction false} SomeOldest(ledger: map<string, Entry>)
    requires ledger != map[]
    ensures exists d :: d in ledger && forall k :: k in ledger ==> ledger[d].learnedAt <= ledger[k].learnedAt
    decreases |ledger|
  {
    var x :| x in ledger;
    var rest := ledger - {x};
    assert rest.Keys == ledger.Keys - {x};
    assert |rest.Keys| < |ledger.Keys|;
    if rest != map[] {
      SomeOldest(rest);
      var d :| d in rest && forall k :: k in rest ==> rest[d].learnedAt <= rest[k].learnedAt;
      var m := if ledger[x].learnedAt <= ledger[d].learnedAt then x else d;
      assert forall k :: k in ledger ==> k == x || k in rest;
      assert m in ledger && forall k :: k in ledger ==> ledger[m].learnedAt <= ledger[k].learnedAt;
    } else {
      assert ledger.Keys == {x};
    }
  }

  lemma {:induction false} TakenOut(ledger: map<string, Entry>, gone: set<string>)
    requires gone <= ledger.Keys
    ensures |ledger - gone| == |ledger| - |gone|
    ensures (ledger - gone).Keys == ledger.Keys - gone
  {
    assert (ledger - gone).Keys == ledger.Keys - gone;
    assert ledger.Keys == (ledger.Keys - gone) + gone;
    assert |(ledger - gone).Keys| == |ledger - gone|;
  }

  lemma {:induction false} TakenOutOneMore(ledger: map<string, Entry>, gone: set<string>, d: string)
    ensures ledger - gone - {d} == ledger - (gone + {d})
  {
  }

  lemma {:induction false} AdjustedOneMore(st: Store, counts: map<string, Counts>, batch: seq<string>, t: string, ham: int, spam: int)
    requires t !in batch
    ensures AdjustedCounts(st, counts, batch + [t], ham, spam)
         == AdjustedCounts(st, counts, batch, ham, spam)[t := Moved(st, Held(AdjustedCounts(st, counts, batch, ham, spam), t), ham, spam)]
  {
  }

  class Books {
    var row: Option<Row>
    var ledger: map<string, Entry>
    var totals: Option<Counts>
    var counts: map<string, Counts>

    ghost function Value(): Account
      reads this
    {
      Account(row, ledger, totals, counts)
    }

    constructor ()
      ensures Value() == NO_ACCOUNT
    {
      row, ledger, totals, counts := None, map[], None, map[];
    }

    /** Move the totals, then upsert the tokens one by one. */
    method Adjust(st: Store, batch: seq<string>, ham: int, spam: int)
      requires NoDuplicates(batch)
      modifies this`totals, this`counts
      ensures Value() == Adjusted(st, old(Value()), batch, ham, spam)
    {
      var held := if totals.Some? then totals.value else Counts(0, 0);
      totals := Some(Moved(st, held, ham, spam));
      for i := 0 to |batch|
        invariant totals == Some(Moved(st, Totals(old(Value())), ham, spam))
        invariant counts == AdjustedCounts(st, old(counts), batch[..i], ham, spam)
      {
        var t := batch[i];
        AdjustedOneMore(st, old(counts), batch[..i], t, ham, spam);
        counts := counts[t := Moved(st, Held(counts, t), ham, spam)];
        assert batch[..i + 1] == batch[..i] + [t];
      }
      assert batch[..|batch|] == batch;
    }

    /** Take the oldest message out of the ledger. */
    method ForgetOldest() returns (d: string)
      requires ledger != map[]
      modifies this`ledger
      ensures d in old(ledger) && ledger == old(ledger) - {d}
      ensures forall k :: k in old(ledger) ==> old(ledger)[d].learnedAt <= old(ledger)[k].learnedAt
    {
      SomeOldest(ledger);
      d :| d in ledger && forall k :: k in ledger ==> ledger[d].learnedAt <= ledger[k].learnedAt;
      ledger := ledger - {d};
    }

    /** The delete of `make_room`: the oldest messages go, one at a time. */
    method ForgetBatch(n: nat) returns (forgotten: nat, ghost gone: set<string>)
      modifies this`ledger
      ensures Oldest(old(ledger), gone, n)
      ensures ledger == old(ledger) - gone && forgotten == |gone|
    {
      gone, forgotten := {}, 0;
      while forgotten < n && ledger != map[]
        invariant gone <= old(ledger).Keys && forgotten == |gone| <= n
        invariant ledger == old(ledger) - gone
        invariant forall g, k :: g in gone && k in ledger ==> old(ledger)[g].learnedAt <= ledger[k].learnedAt
        decreases ledger.Keys
      {
        var d := ForgetOldest();
        TakenOutOneMore(old(ledger), gone, d);
        gone, forgotten := gone + {d}, forgotten + 1;
      }
      TakenOut(old(ledger), gone);
    }

    /** Drop a tenth of the ledger, or one message of a short one, those learned longest ago. */
    method MakeRoom(st: Store) returns (ghost gone: set<string>)
      requires row.Some?
      modifies this`row, this`ledger
      ensures Oldest(old(ledger), gone, Batch(st))
      ensures Value() == Evicted(st, old(Value()), gone)
    {
      var forgotten;
      forgotten, gone := ForgetBatch(Batch(st));
      row := Some(row.value.(entries := Floor(st, row.value.entries - forgotten)));
    }

    /** Take back the lesson the other verdict gave, and give the new one. */
    method Reverse(st: Store, digest: string, back: seq<string>, spam: bool, day: int, now: int)
      requires row.Some? && digest in ledger && NoDuplicates(back)
      modifies this
      ensures Value() == Adjusted(st, old(Value()), back, if spam then -1 else 1, if spam then 1 else -1)
        .(ledger := old(ledger)[digest := old(ledger)[digest].(spam := spam, learnedAt := now)],
          row := Some(Spend(old(row).value, 0, day, |back|)))
    {
      if spam { Adjust(st, back, -1, 1); } else { Adjust(st, back, 1, -1); }
      ledger := ledger[digest := ledger[digest].(spam := spam, learnedAt := now)];
      row := Some(Spend(row.value, 0, day, |back|));
    }

    /** Record a message the ledger does not hold, making room first when it is full. */
    method Add(st: Store, digest: string, batch: seq<string>, newRows: int, spam: bool, day: int, now: int)
      returns (ghost gone: set<string>)
      requires row.Some? && NoDuplicates(batch)
      modifies this
      ensures Full(st, old(row).value) ==> Oldest(old(ledger), gone, Batch(st))
      ensures var roomy := Roomy(st, old(Value()), gone);
        Value() == Adjusted(st, roomy, batch, if spam then 0 else 1, if spam then 1 else 0)
        .(ledger := roomy.ledger[digest := Entry(spam, Min(|batch|, I32_MAX), now)],
          row := Some(Spend(roomy.row.value, newRows, day, |batch|)))
    {
      gone := {};
      if row.value.entries >= st.ledgerEntries {
        gone := MakeRoom(st);
      }
      ledger := ledger[digest := Entry(spam, Min(|batch|, I32_MAX), now)];
      if spam { Adjust(st, batch, 0, 1); } else { Adjust(st, batch, 1, 0); }
      row := Some(Spend(row.value, newRows, day, |batch|));
    }

    /** A verdict on a message the ledger holds: repeated, taken back, or over the budget. */
    method TeachKnown(st: Store, ghost a: Account, e: Event) returns (outcome: Outcome)
      requires Sound(st) && e.Teach? && Value() == Open(a, e.day) && row.value.enabled && st.digest(e.text) in ledger
      modifies this
      ensures outcome == Judge(st, a, e) && row.Some?
      ensures Value().(row := Some(Bump(row.value, outcome, e.spam))) == AfterTeach(st, a, e)
    {
      var digest, batch := st.digest(e.text), st.lesson(e.text, e.cap);
      if ledger[digest].spam == e.spam {
        return Repeated;
      }
      var counted := ledger[digest].tokens;
      assert LessonOk(st, e.text, e.cap) && LessonOk(st, e.text, counted);
      var back := if counted == |batch| then batch else st.lesson(e.text, counted);
      if SpentToday(row.value, e.day) + |back| > st.tokensPerDay {
        return Throttled;
      }
      Reverse(st, digest, back, e.spam, e.day, e.now);
      outcome := Relearned;
    }

    /** A message the ledger does not hold: over the budget, without room for its tokens, or learned. */
    method TeachNew(st: Store, ghost a: Account, text: string, spam: bool, cap: nat, day: int, now: int)
      returns (outcome: Outcome, ghost gone: set<string>)
      requires Sound(st) && Value() == Open(a, day) && row.value.enabled && st.digest(text) !in ledger
      requires |st.lesson(text, cap)| <= I32_MAX
      modifies this
      ensures outcome == Judge(st, a, Teach(text, spam, cap, day, now, gone)) && row.Some?
      ensures Value().(row := Some(Bump(row.value, outcome, spam))) == AfterTeach(st, a, Teach(text, spam, cap, day, now, gone))
      ensures Allowed(st, a, Teach(text, spam, cap, day, now, gone))
    {
      gone := {};
      var batch := st.lesson(text, cap);
      assert LessonOk(st, text, cap);
      if SpentToday(row.value, day) + |batch| > st.tokensPerDay {
        assert Judge(st, a, Teach(text, spam, cap, day, now, {})) == Throttled;
        return Throttled, gone;
      }
      var newRows := NewRowsOf(batch);
      if newRows > 0 && row.value.tokenRows + newRows > st.tokenRows {
        assert Judge(st, a, Teach(text, spam, cap, day, now, {})) == Refused;
        return Refused, gone;
      }
      gone := Add(st, st.digest(text), batch, newRows, spam, day, now);
      outcome := Learned;
      JudgeIgnoresForgotten(st, a, Teach(text, spam, cap, day, now, {}), gone);
      assert Judge(st, a, Teach(text, spam, cap, day, now, gone)) == Learned;
    }

    /** `learn_once`: one attempt at teaching one verdict. */
    method LearnOnce(st: Store, text: string, spam: bool, cap: nat, day: int, now: int)
      returns (outcome: Outcome, ghost gone: set<string>)
      requires Sound(st) && |st.lesson(text, cap)| <= I32_MAX
      modifies this
      ensures outcome == Judge(st, old(Value()), Teach(text, spam, cap, day, now, gone))
      ensures Value() == AfterTeach(st, old(Value()), Teach(text, spam, cap, day, now, gone))
      ensures Allowed(st, old(Value()), Teach(text, spam, cap, day, now, gone))
    {
      gone := {};
      var begun := row;
      if row.None? {
        row := Some(Row(true, ZERO_TALLY, 0, -1, day, 0));
      }
      if !row.value.enabled {
        row := begun;
        outcome := Disabled;
        return;
      }
      if row.value.tokenRows < 0 {
        row := Some(row.value.(tokenRows := |counts|));
      }
      assert Value() == Open(old(Value()), day);
      if st.digest(text) in ledger {
        outcome := TeachKnown(st, old(Value()), Teach(text, spam, cap, day, now, {}));
      } else {
        outcome, gone := TeachNew(st, old(Value()), text, spam, cap, day, now);
      }
      row := Some(Bump(row.value, outcome, spam));
    }

    /** The batch's tokens that have no row yet. */
    function NewRowsOf(batch: seq<string>): (n: int)
      reads this
      ensures n == NewRows(Value(), batch)
    {
      |batch| - |Elements(batch) * counts.Keys|
    }

    /** `purge`: the record, the totals and the tokens go; a reset keeps the switch and the budget. */
    method Purge(keepSwitch: bool) returns (dropped: nat)
      modifies this
      ensures Value() == if keepSwitch then AfterReset(old(Value())) else NO_ACCOUNT
      ensures dropped == |old(counts)|
    {
      if keepSwitch {
        if row.Some? {
          row := Some(row.value.(tally := ZERO_TALLY, entries := 0, tokenRows := 0));
        }
      } else {
        row := None;
      }
      ledger := map[];
      totals := None;
      dropped := |counts|;
      counts := map[];
    }
  }
}
