# Verified models of a mail server

A Dafny project that models the parts of the server whose correctness is hardest
to see from the code, and proves what they are for. `dafny verify dfyconfig.toml`
checks all of it.

- **Learning ledger** (`Ledger`, `LedgerOutcomes`, `TokenSample`): what teaching, repeating,
  reversing, evicting, resetting and removing do to an account's token counts, which
  outcome a lesson comes to after any history, and which tokens of a message are counted.
  `Ledger.Books` updates the rows in place as the SQL does.
- **ARC** (`ArcTags`, `Arc`, `ArcHops`, `ArcLoops`, `ArcMeaning`, `ArcSealing`): building,
  extracting, validating and re-sealing a chain over any number of hops, and what a pass
  means: the keys and the very texts behind it (RFC 8617).
- **Sieve** (`SieveAst`, `SieveGrammar`, `SieveParser`, `SieveAnalysis`, `SieveRun`,
  `SieveInterp`, `SieveMeaning`, `SieveDetails`): the parser against an independent printer,
  the upload check's walk, the interpreter with its abort rule, and what a script means
  without the interpreter (RFC 5228).
- **IMAP** (`ImapExpunge`, `ImapUids`): expunge announcements as a client follows them, and
  UIDs over the life of a mailbox (RFC 9051).
- **Stores and tasks shared between callers** (`LockedEdit`, `Addresses`, `Accounts`,
  `AccountEdits`, `AccountsOnDisk`, `Drain`, `Acme`):
  state machines over every interleaving, with crashes, power failures and futures
  dropped at any await.
- **Encodings and time** (`QuotedPrintable`, `QuotedPrintableMeaning`, `Base32`, `Calendar`,
  `Timestamps`, `TimestampReader`, `TimestampTexts`): round trips, line limits, which texts
  are accepted and what they denote, the Gregorian calendar, and timestamps as they are
  written and read back.

`Basics`, `Text` and `TextLaws` hold shared vocabulary. A `string` stands for the octets of a text in
UTF-8, so lengths and limits count octets. Code that changes state is a class or a
method with the source's loops, proved equal to a specification function; what the
source promises is proved about that function. What lies outside is a parameter: the
network, cryptography, base64 and the body hash (`Arc.Net`), fingerprints and digests
(`Ledger.Store`, `TokenSample.Reader`), leaf tests, variables and word splitting of
Sieve (`SieveRun.Host`), name and address rules (`Accounts.Rules`), parsing and
writing of the shared file (`LockedEdit.Code`), and clocks and days, which come with
the events.
What is asked of each is stated as a predicate: `Sound`, `Answers`, `SettlesTwice` (proved of the
address normalizer in `Accounts.AddressesSettleTwice`), `Legible`, `Respected`,
`Distinguishes`, `KeepsOrder` (proved of hexadecimal in `TokenSample.HexIsFaithful`).

Where a promise does not hold of the code without a condition, the code is modelled
as it is and the exact condition is proved:

- quoted-printable returns what was encoded exactly when every LF has its CR and no CR
  is last (`QuotedPrintable.RoundTripExactlyWhen`; fails for the one byte CR,
  `LoneReturnIsLost`);
- timestamps have their fixed width exactly up to the year 9999 and again near the end
  of the 64-bit range, where the cast to a signed number goes back before the epoch
  (`Timestamps.TimestampLength`; `CastGoesBack`), and are read back exactly up to the
  year 9999 (`TimestampReader.ReadBackExactlyWhen`);
- the upload check takes names in any case, the interpreter as written, so an action is
  taken to send without being able to exactly when it is another spelling of a sending
  one (`SieveDetails.OutwardExactly`; `LargeRedirectIsSilent`);
- an accepted UTC offset is the one written exactly when its hours are 0 to 23, since the
  sum wraps in 64 bits (`TimestampTexts.OffsetIsWrittenExactlyWhen`; `HugeOffsetIsNone`);
- UIDs are unique and nonzero exactly while scans meet fewer than 2^32 messages, the
  counter being a 32-bit one that wraps (`ImapUids.UniqueExactlyWhen`; `TooManyMessages`);
- a client follows expunges exactly when each announced number fits 32 bits, which
  distinct 32-bit UIDs guarantee (`ImapExpunge.ClientFollowsExactlyWhen`;
  `ClientStrays`);
- a day's token budget covers what was written since it last restarted, and the whole
  day exactly when nothing of the day came before that, or what did fits the rest
  (`Ledger.DayIsTheStretchExactlyWhen`, `Ledger.DayInBudgetExactlyWhen`; `RemovalRestartsTheDay`,
  `ClockBackRestartsTheDay`);
- an order deletes every DNS record it wrote, in every run, exactly when no challenge is
  asked for twice (`Acme.AlwaysCleanExactlyWhen`; `RepeatedChallengeLeavesARecord`);
- the count of forwards over the limit is documented as different addresses and counts
  commands; the two agree exactly when no address over the limit is named twice
  (`SieveRun.OverLimitCountsDifferentExactlyWhen`; `FifthAddressTwice`);
- a replaced account keeps addresses disjoint exactly when no other account uses the
  stored form of what was stored (`Accounts.ReplaceKeepsExactlyWhen`), and a file read
  keeps them so exactly when the second stored forms of its addresses differ
  (`AccountsOnDisk.ReadApartExactlyWhen`): the normalizer is not idempotent, since a
  domain is checked for look-alikes before it is put in lower case
  (`Addresses.OwnStoredFormExactlyWhen`; `Accounts.CyrillicAddressIsTaken`,
  `AccountsOnDisk.TwoSpellingsInAFile`);
- an edit reported as failed left the shared file as it was exactly when what failed was
  not the directory sync after the rename
  (`LockedEdit.FailedLeavesTheFileExactlyWhen`; `FailedYetWritten`);
- `finished` is documented to report 0 after a successful wait; it does exactly when
  every connection opened before its second look has closed
  (`Drain.FinishedTellsTheCount`; `ToldOfOneAfterSuccess`);
- a printed script is read back exactly when it is well formed, which includes that a
  conditional without `else` is not followed by an action named `elsif` or `else`; such
  an action is allowed anywhere else (`SieveGrammar.ReadsExactly`).

Where code and comments disagree the model follows the code: the two counts above, and
the archive, whose own notes say a failed move falls back to deleting while the expunge
leaves the files in place (`ImapExpunge.Snapshot.RemoveFiles`).

## Model

| member | source | states |
|---|---|---|
| `Ledger.RunKeepsValid` | src/antispam/learning/ledger.rs:184-328 | In every run of lessons, evictions, resets, removals and switches from a valid account: every count covers the live ledger entries behind it, `entries` and a counted `token_rows` are the real row counts, the ledger stays within `ledger_entries` (at least 1) and the token rows within `token_rows`, and the run equals the run of a store whose SQL has no zero-floors |
| `Ledger.StepKeepsValid` | src/antispam/learning/ledger.rs:133-277 | One event (a lesson with any outcome, a reset, a removal, a switch) keeps all of that |
| `Ledger.LiveLessonsStandBehind` | src/antispam/learning/ledger.rs:385-426 | In a valid account each count is at least the number of live entries on that side, so nothing taken back goes below zero |
| `Ledger.ReversalIsExact` | src/antispam/learning/ledger.rs:208-237 | A reversed verdict moves exactly the tokens the ledger entry counted from one side to the other: the floors do not bite and what the counts hold beyond the ledger is unchanged |
| `Ledger.AdditionIsExact` | src/antispam/learning/ledger.rs:242-273 | A message new to the ledger moves every count by exactly its own lesson |
| `Ledger.RunUnrecordedExactly` | src/antispam/learning/ledger.rs:196-309 | Over any run, what the counts hold beyond one lesson per ledger message is what it was before, or nothing once the account was cleared, plus the lessons of exactly the messages evicted since |
| `Ledger.EveryLessonIsAccountedFor` | src/antispam/learning/ledger.rs:196-309 | From an empty account, after any run every count is the live messages behind it and those evicted since the last clearing |
| `Ledger.EvictionUnrecords` | src/antispam/learning/ledger.rs:287-309 | What eviction takes off the ledger it leaves in the counts, message by message |
| `Ledger.RunUnrecorded` | src/antispam/learning/ledger.rs:196-274 | Over a run without eviction, what the counts hold beyond one lesson per ledger message is what it was before, and nothing once the account was reset or removed |
| `Ledger.RunIsReplay` | src/antispam/learning/ledger.rs:196-274 | From an empty account, every run without eviction ends with the counts and totals of teaching each ledger message once with its latest verdict |
| `Ledger.HistoryLeavesNoTrace` | src/antispam/learning/ledger.rs:196-274 | Two such histories that end with the same verdicts end with the same counts, however often verdicts were repeated or reversed |
| `Ledger.BudgetIsTheStretch` | src/antispam/learning/ledger.rs:311-344 | In every run from any account, whatever the clock does, the row's budget is exactly what was written since it last restarted (a removal, or a lesson of another day), and within `tokens_per_day` or what the row held at the start |
| `Ledger.DayIsTheStretchExactlyWhen` | src/antispam/learning/ledger.rs:311-344 | All that was written on the row's day, across removals and backward clocks, equals that stretch exactly when nothing of the day was written before the last restart, and is never less |
| `Ledger.DayInBudgetExactlyWhen` | src/antispam/learning/ledger.rs:311-344 | For any day of any run, all that was written on it is within `tokens_per_day` exactly when what came before the day's last restart fits what the last round left |
| `Ledger.ClockBackRestartsTheDay` | src/antispam/learning/ledger.rs:311-344 | Lessons on a day, on the next, and on the day again write more on the day than its budget |
| `Ledger.DayStaysInBudget` | src/antispam/learning/ledger.rs:281-328 | From an account without a row and with days in order, the tokens one day's lessons write since the last removal stay within `tokens_per_day`, across resets and switches |
| `Ledger.RemovalRestartsTheDay` | src/antispam/learning/reset.rs:35-56 | The budget does not survive a removal: the same lesson fits the same day twice, over the limit in all |
| `Ledger.TeachSpends` | src/antispam/learning/ledger.rs:311-344 | A lesson adds to the row's budget of its day exactly the tokens it writes, and is only let through when that stays in the budget |
| `Ledger.Books.constructor` | src/antispam/learning/ledger.rs:150-163 | An account starts with no row, no ledger and no counts |
| `Ledger.Books.Adjust` | src/antispam/learning/ledger.rs:385-426 | The loop over a batch moves each token's counts and the totals as the specification does, floored at zero |
| `Ledger.Books.ForgetOldest` | src/antispam/learning/ledger.rs:287-309 | Takes out an entry no other entry is older than |
| `Ledger.Books.ForgetBatch` | src/antispam/learning/ledger.rs:287-309 | Takes out that many of the oldest entries, or all of them |
| `Ledger.Books.MakeRoom` | src/antispam/learning/ledger.rs:287-309 | Evicts a batch of the oldest entries of a full ledger and recounts the row |
| `Ledger.Books.Reverse` | src/antispam/learning/ledger.rs:222-234 | Moves a lesson to the other side and notes the verdict, the time and the tokens spent |
| `Ledger.Books.Add` | src/antispam/learning/ledger.rs:254-273 | Makes room when the ledger is full, then records and counts a new message |
| `Ledger.Books.TeachKnown` | src/antispam/learning/ledger.rs:203-237 | A verdict on a held message is repeated, throttled or taken back exactly as the specification says |
| `Ledger.Books.TeachNew` | src/antispam/learning/ledger.rs:238-274 | A new message is throttled, refused for want of rows, or learned exactly as the specification says, evicting only the oldest |
| `Ledger.Books.LearnOnce` | src/antispam/learning/ledger.rs:133-277 | One attempt at teaching updates the rows in place to exactly the account the specification gives, with its outcome |
| `Ledger.Books.Purge` | src/antispam/learning/reset.rs:30-57 | A reset keeps the switch and the day's budget and clears everything else; a removal clears everything; the tokens dropped are counted |
| `TokenSample.SampleWithout` | src/antispam/bayes/mod.rs:88-130 | The heap scan returns exactly the `cap` smallest-tagged distinct eligible tokens, ascending, and never holds more than `cap` entries |
| `TokenSample.Consider` | src/antispam/bayes/mod.rs:108-122 | One token against a full or filling heap keeps it the sample of everything seen |
| `TokenSample.SampleIsDetermined` | src/antispam/bayes/mod.rs:70-78 | The sample is determined by the set of tokens alone, not by their order or repetition |
| `TokenSample.TokenizeBounded` | src/antispam/bayes/mod.rs:50-65 | The bounded tokenizer gives distinct tokens of the text, and all of them when fewer than the bound come out |
| `TokenSample.SampledAgain` | src/antispam/corpus/train/mod.rs:95-105 | Cutting a message to as many tokens as were kept keeps the same tokens |
| `TokenSample.FittingIsWhole` | src/antispam/corpus/train/mod.rs:55-65 | A message whose tokens fit the cap has all of them in its lesson |
| `TokenSample.LessonTokens` | src/antispam/corpus/train/mod.rs:55-105 | From the text of a message (window, bounded scan, sample where it does not fit, hash, sort, dedup) to exactly the lesson of its window's set of tokens |
| `TokenSample.CutToFit` | src/antispam/corpus/train/mod.rs:55-80 | All the distinct tokens of the window where they fit the cap, and otherwise the sample, so the same set either way as the sample of that cap |
| `TokenSample.SortedOnce` | src/antispam/corpus/train/mod.rs:102-103 | Sorted octet by octet, each once, with the same elements |
| `TokenSample.OrderIsDetermined` | src/antispam/corpus/train/mod.rs:102-103 | A set has one strictly ascending list, for any asymmetric order |
| `TokenSample.HexIsFaithful` | src/antispam/corpus/mod.rs:478-484 | 256-bit fingerprints written in 64 hexadecimal digits are told apart and sort as strings in the order of the numbers |
| `TokenSample.LessonsAreSound` | src/antispam/corpus/train/mod.rs:95-105 | Lessons cut this way are what the ledger's proofs ask of a lesson: distinct, within the cap, and the same when cut again to their own size |
| `ArcTags.RenderIsRead` | src/arc/signature.rs:79-100 | A tag list written by the sealer is read back tag by tag |
| `ArcTags.StripOfRender` | src/arc/ams.rs:158-172 | Emptying the `b=` tag of a written tag list gives the list as it was before signing |
| `ArcTags.ReadersAgree` | src/arc/chain.rs:161-168 | The chain reader and the signature reader find the same first value of a tag |
| `ArcHops.PresentSelectsTheSame` | src/arc/ams.rs:25-70 | The header fields the signer lists are the ones the verifier selects again, lowest unused occurrence first |
| `ArcHops.TopDoesNotMatter` | src/arc/ams.rs:120-156 | Header fields put on top of a message do not change which of the fields below a signature selects, when none of them is listed |
| `ArcHops.BuiltAmsHolds` | src/arc/ams.rs:25-172 | The message signature a sealer builds is parsed back with its own fields and verifies, under any ARC headers put on top |
| `ArcHops.BuiltSealHolds` | src/arc/seal.rs:48-125 | The seal a sealer builds over the prior instances and its own headers is parsed back with its status and verifies in the longer chain |
| `ArcHops.OldSealsHold` | src/arc/seal.rs:81-125 | A seal that verified in a chain still verifies when a later instance is added |
| `ArcHops.AssembledChain` | src/arc/chain.rs:106-150 | A chain that is extracted is numbered 1 to n without gaps, each instance whole and from its own three headers |
| `ArcHops.ChainOnTop` | src/arc/chain.rs:106-150 | The three headers of instance n+1 on top of a message with an n-instance chain are read as that chain and the new instance |
| `ArcHops.SealsWhen` | src/arc/sealer.rs:48-90 | A sealer declines exactly when the chain already has 50 instances or the message has no From to sign |
| `ArcHops.SealedChainPasses` | src/arc/sealer.rs:48-90 | Sealing an absent or intact chain with the status due gives a message that validates as pass |
| `ArcHops.HopValidates` | src/arc/validate.rs:17-50 | A hop that validated none or pass, may then have changed the body and any non-ARC header, and sealed with that status, leaves a message the next validator passes |
| `ArcHops.JourneyValidates` | src/arc/validate.rs:17-50 | Along every journey of such hops, up to the chain's limit of 50, each asking the DNS of its own time, every validation passes while the keys found before stay published |
| `ArcHops.PassStays` | src/arc/validate.rs:17-50 | A message that passes goes on passing while the keys found for it stay published |
| `ArcHops.FailIsForGood` | src/arc/validate.rs:55-67 | A message that carries any ARC-Seal recording fail never validates as pass or none, whatever else changed |
| `ArcHops.BrokenHopRecordsFail` | src/arc/sealer.rs:48-90 | A hop that found the chain broken records fail in its seal |
| `ArcHops.BrokenJourney` | src/arc/validate.rs:17-67 | Once one validation on a journey fails, every later one fails, whatever the DNS answers by then |
| `ArcLoops.FillSlots` | src/arc/chain.rs:112-128 | The slot-filling loop finds a duplicate exactly when there is one and otherwise holds every header in its slot |
| `ArcLoops.ExtractChain` | src/arc/chain.rs:106-150 | The extraction loops give the chain or the error the specification gives |
| `ArcLoops.FindLowest` | src/arc/ams.rs:148-156 | Finds the lowest unused header field of a name, or that there is none |
| `ArcLoops.SelectHeaders` | src/arc/ams.rs:120-146 | The marking loop selects each listed name's occurrences from the bottom up, as the specification does |
| `ArcLoops.CoveredText` | src/arc/seal.rs:81-148 | The loop over sorted instances builds exactly the text a seal signs |
| `ArcLoops.CvsConsistent` | src/arc/validate.rs:55-67 | The status loop accepts exactly the chains whose first seal says none and all later ones pass |
| `ArcLoops.SealsHold` | src/arc/validate.rs:39-47 | The seal loop accepts exactly the chains all of whose seals verify |
| `ArcLoops.ValidateChain` | src/arc/validate.rs:17-50 | The validator returns the specified status of a message |
| `SieveGrammar.ReadsExactly` | src/sieve/parser.rs:38-264 | The parser accepts exactly the spellings of well-formed scripts nesting at most 64 deep, and reads each as the one tree it spells (a multi-line string counting as a quoted one) |
| `SieveGrammar.PrintedIsRead` | src/sieve/parser.rs:38-264 | Printing a well-formed script and parsing it gives the same tree |
| `SieveGrammar.ReadIsPrinted` | src/sieve/parser.rs:38-264 | An accepted token list prints back to itself up to multi-line versus quoted strings, its tree nests at most 64 deep, and no token is left over |
| `SieveGrammar.SpellingIsUnique` | src/sieve/parser.rs:115-264 | No two well-formed scripts have the same spelling |
| `SieveGrammar.CommandsPlain` | src/sieve/parser.rs:219-257 | Quoted and multi-line strings are interchangeable everywhere, in the trees, the errors and the tokens left over |
| `SieveParser.Parser.constructor` | src/sieve/parser.rs:38-43 | A parser starts at the first token, at depth zero |
| `SieveParser.Parser.Next` | src/sieve/parser.rs:77-81 | Reads the next token or reports the end of input |
| `SieveParser.Parser.Eat` | src/sieve/parser.rs:83-91 | Advances over the expected token and over no other |
| `SieveParser.Parser.Enter` | src/sieve/parser.rs:96-105 | Goes one level deeper, and past 64 reports the depth |
| `SieveParser.Parser.Leave` | src/sieve/parser.rs:110-112 | Comes back one level |
| `SieveParser.Parser.ReadIdentifier` | src/sieve/parser.rs:259-264 | Reads an identifier as the grammar does; a rejected token is the one before the cursor |
| `SieveParser.Parser.StringList` | src/sieve/parser.rs:242-257 | The list loop reads a bracketed, nonempty, comma-separated list as the grammar does |
| `SieveParser.Parser.Arguments` | src/sieve/parser.rs:219-240 | The argument loop reads arguments while one can begin, as the grammar does |
| `SieveParser.Parser.ReadTest` | src/sieve/parser.rs:171-205 | Reads a test as the grammar does and leaves the depth as it found it |
| `SieveParser.Parser.ReadListTest` | src/sieve/parser.rs:173-183 | Reads the parenthesised tests of `allof` and `anyof` |
| `SieveParser.Parser.TestList` | src/sieve/parser.rs:207-216 | Reads a nonempty comma-separated list of tests one level deeper |
| `SieveParser.Parser.Commands` | src/sieve/parser.rs:115-126 | The command loop reads commands to the end of input or of the block, one level deeper |
| `SieveParser.Parser.ReadCommand` | src/sieve/parser.rs:128-137 | Reads an action ended by a semicolon, or a conditional |
| `SieveParser.Parser.Conditional` | src/sieve/parser.rs:140-156 | Reads the branches and the optional else of a conditional |
| `SieveParser.Parser.Branches` | src/sieve/parser.rs:140-145 | Reads the `if` branch and every `elsif` branch |
| `SieveParser.Parser.ReadBranch` | src/sieve/parser.rs:158-162 | Reads a test and its block |
| `SieveParser.Parser.Block` | src/sieve/parser.rs:164-169 | Reads the commands between braces |
| `SieveParser.ParseLocated` | src/sieve/parser.rs:38-62 | Returns the tree of a script, or an error exactly when no script has this spelling; the error's position is a token of the script and, for a rejected token, that very token |
| `SieveAnalysis.Walk` | src/sieve/analysis.rs:12-37 | The two-stack walk visits exactly the actions and tests of the tree, each as often as it occurs, and ends |
| `SieveAnalysis.WalkBlock` | src/sieve/analysis.rs:20-31 | One block's actions are visited and its conditionals put on the stacks, nothing lost or doubled |
| `SieveAnalysis.DrainTests` | src/sieve/analysis.rs:32-35 | The test stack is emptied, every test visited with the tests inside it |
| `SieveAnalysis.PushConditional` | src/sieve/analysis.rs:23-28 | Every branch's test and body and the else block go on the stacks |
| `SieveAnalysis.SendsMail` | src/sieve/analysis.rs:86-105 | True exactly when the text is a script that names a sending action at any depth, in any case |
| `SieveRun.NothingIsLost` | src/sieve/interp.rs:113-144 | For every script and message the outcome keeps, files, forwards, rejects or was discarded on purpose |
| `SieveRun.KeptExactlyWhen` | src/sieve/interp.rs:113-144 | A message is kept exactly when the script kept it, a discard or reject was spared, an aborted run had something outward to drop, or no action cancelled the implicit keep |
| `SieveRun.AbortedSendsNothing` | src/sieve/interp.rs:113-144 | A run that overspent sends nothing, says what it dropped, keeps and does not discard if it had asked for anything outward, and otherwise leaves its local decisions as they were |
| `SieveRun.OverCapsSpares` | src/sieve/interp.rs:163-190 | After a pattern over the caps no later command discards or rejects, and one that would keeps the message instead |
| `SieveRun.OutcomeIsBounded` | src/sieve/interp.rs:149-303 | Forwards stay within 4 and folders within 8 and flags within 32 without repeats, flags within 64 octets, and folders to create are among those filed into |
| `SieveRun.OverLimitIsCounted` | src/sieve/interp.rs:234-259 | For every script and message the over-limit count is the number of `redirect` commands carried out to an address that is not one of the first four different ones |
| `SieveRun.OverLimitCountsDifferentExactlyWhen` | src/sieve/interp.rs:244-254 | It is the number of different addresses over the limit exactly when none of them was named twice, whatever the case of its letters |
| `SieveRun.FifthAddressTwice` | src/sieve/interp.rs:244-254 | Every script of four different addresses and a fifth named twice counts 2 for that one address |
| `SieveRun.ExecStep` | src/sieve/interp.rs:149-303 | Every run keeps the invariant and undoes no decision, and out of budget it decides nothing |
| `SieveRun.TestSticks` | src/sieve/eval.rs:16-28 | Evaluating a test keeps the budget flags, and out of budget no test holds |
| `SieveRun.AddFlagsBounded` | src/sieve/interp.rs:351-360 | Adding flags keeps them within 32, each once whatever its case, none over 64 octets |
| `SieveRun.SilentScript` | src/sieve/analysis.rs:86-105 | A script that the upload check takes for silent forwards, rejects and answers nothing on any message |
| `SieveInterp.AddFlagsTo` | src/sieve/interp.rs:351-360 | The flag loop adds each flag once until the limit |
| `SieveInterp.RemoveFlags` | src/sieve/interp.rs:274-277 | Keeps the flags that match no word in any case |
| `SieveInterp.ParseVacation` | src/sieve/interp.rs:306-343 | The argument iterator reads a vacation request as specified, tags consuming the argument behind them |
| `SieveInterp.Interpreter.constructor` | src/sieve/interp.rs:113-117 | A run starts with nothing decided and nothing spent |
| `SieveInterp.Interpreter.CountStep` | src/sieve/env/mod.rs:100-106 | Counts a step and reports whether the budget holds |
| `SieveInterp.Interpreter.Spend` | src/sieve/env/mod.rs:120-126 | Spends work and reports whether the budget holds |
| `SieveInterp.Interpreter.ExpandText` | src/sieve/env/mod.rs:188-194 | Pays for what an expansion reads and writes |
| `SieveInterp.Interpreter.Test` | src/sieve/eval.rs:16-49 | Evaluates a test in place as specified, short-circuiting lists |
| `SieveInterp.Interpreter.All` | src/sieve/eval.rs:27 | All tests of a list, stopping at the first that fails |
| `SieveInterp.Interpreter.Any` | src/sieve/eval.rs:28 | Any test of a list, stopping at the first that holds |
| `SieveInterp.Interpreter.DiscardMessage` | src/sieve/interp.rs:163-175 | Discards, or keeps once a pattern was over the caps |
| `SieveInterp.Interpreter.RejectMessage` | src/sieve/interp.rs:177-190 | Rejects with the expanded reason, or keeps once a pattern was over the caps, or stops when the expansion ran out |
| `SieveInterp.Interpreter.SetVariable` | src/sieve/interp.rs:192-201 | Stores the expanded value, or stops when the expansion ran out |
| `SieveInterp.Interpreter.FileInto` | src/sieve/interp.rs:205-233 | Files into a folder once and among the first eight, notes what to create, cancels the keep unless a copy |
| `SieveInterp.Interpreter.Redirect` | src/sieve/interp.rs:234-259 | Forwards to an address once and among the first four, cancels the keep unless a copy |
| `SieveInterp.Interpreter.ChangeFlags` | src/sieve/interp.rs:262-279 | Pays for the words and sets, adds or removes flags |
| `SieveInterp.Interpreter.RunAction` | src/sieve/interp.rs:161-281 | Carries out one action in place as specified; an unknown one does nothing |
| `SieveInterp.Interpreter.Run` | src/sieve/interp.rs:149-303 | The command loop updates outcome, cancel marks and budget exactly as the specification does |
| `SieveInterp.Interpreter.RunBranches` | src/sieve/interp.rs:282-300 | The first branch whose test holds runs, and says so |
| `SieveInterp.Decide` | src/sieve/interp.rs:113-144 | A whole evaluation gives the specified outcome |
| `ImapExpunge.ClientFollows` | src/imap/snapshot.rs:297-360 | In any mailbox whose UIDs are distinct nonzero 32-bit numbers, deleting the announced numbers from a client's copy one by one leaves the server's list, for every selection |
| `ImapExpunge.ClientFollowsExactlyWhen` | src/imap/snapshot.rs:335-360 | For any list without repeats the client ends with the server's list exactly when every announced number fits 32 bits |
| `ImapExpunge.ClientStrays` | src/imap/snapshot.rs:347 | With 2^32 messages of which the last is deleted, the client deletes another one |
| `ImapExpunge.SplitsTheList` | src/imap/snapshot.rs:335-360 | The messages removed are exactly the selected ones and the rest remain, as multisets |
| `ImapExpunge.Snapshot.RemoveFiles` | src/imap/snapshot.rs:373-404 | Deletes a message's files, or with retention moves them to the archive, or leaves them where the archive fails; with retention none is lost |
| `ImapExpunge.Snapshot.TakeWhere` | src/imap/snapshot.rs:335-404 | One pass leaves the unselected messages in order, announces each removal with its number at that moment, names its UID, records each as destroyed and the mailbox as updated if there was any, and removes their files, with retention losing none |
| `ImapExpunge.Snapshot.ExpungeWhere` | src/imap/snapshot.rs:322-332 | Expunges the deleted messages whose UID passes, and logs exactly their UIDs as vanished |
| `ImapExpunge.Snapshot.Expunge` | src/imap/snapshot.rs:297-299 | Expunges every deleted message; a client that follows ends with the same list |
| `ImapExpunge.Snapshot.ExpungeUids` | src/imap/snapshot.rs:303-305 | Expunges the deleted messages among the UIDs; a client that follows ends with the same list |
| `ImapExpunge.Snapshot.RemoveUids` | src/imap/snapshot.rs:312-318 | Removes messages by UID alone; a client that follows ends with the same list; the UIDs asked for are logged if any was there |
| `ImapExpunge.Snapshot.RemoveAt` | src/imap/snapshot.rs:283-293 | Removes the message with a sequence number, or reports that there is none and changes nothing |
| `ImapUids.UniqueExactlyWhen` | src/imap/uid.rs:47-53 | Over every run of deliveries, scans and expunges, no UID is given twice and none is zero exactly when the scans meet fewer than 2^32 messages; no message is given two |
| `ImapUids.GivenToThoseMet` | src/imap/scan.rs:47-78 | Exactly the messages some scan met have been given a UID, one each |
| `ImapUids.TooManyMessages` | src/imap/uid.rs:47-53 | After 2^32 deliveries a scan gives the last of them UID 0 |
| `ImapUids.UidsWithinCounter` | src/imap/scan.rs:47-78 | While the 32-bit counter has not wrapped, every UID on file is at least 1 and at most the persisted counter |
| `ImapUids.UidIsStable` | src/imap/uid.rs:47-53 | A message keeps its UID through every run that does not expunge it |
| `ImapUids.UidsRise` | src/imap/scan.rs:46-78 | If every delivery takes an id above those present, the UIDs a scan lists rise strictly with the sequence numbers |
| `ImapUids.RunKeepsValid` | src/imap/scan.rs:47-78 | In every run the k-th UID ever given is k (until the counter wraps), and each file beside a message holds the UID that was given to it |
| `ImapUids.Directory.constructor` | src/imap/uid.rs:30-36 | A new mailbox has no messages and a counter of zero |
| `ImapUids.Directory.AssignOrRead` | src/imap/uid.rs:47-53 | Gives the UID on file, or the next of the counter and files it, changing no other |
| `ImapUids.Directory.AssignEach` | src/imap/scan.rs:50-75 | The loop gives every listed message a UID in order |
| `ImapUids.Directory.ScanMailbox` | src/imap/scan.rs:46-79 | A scan lists every message in order of id with its UID and persists the counter when it advanced |
| `QuotedPrintable.RoundTripExactlyWhen` | src/compose/encode.rs:50-82 | Decoding an encoding returns the bytes exactly when every LF has its CR in front and no CR is at the end |
| `QuotedPrintable.LoneReturnIsLost` | src/compose/encode.rs:50-54 | The one byte CR decodes from its encoding as nothing |
| `QuotedPrintable.NormalisedRoundTrips` | src/compose/encode.rs:35-46 | Whatever bytes the composer is given, their CRLF form decodes back from its encoding unchanged |
| `QuotedPrintable.DecodesToLines` | src/util/mail_parser.rs:62-118 | Decoding an encoding never fails and gives the lines, each without one CR at its end, joined by CRLF |
| `QuotedPrintable.EncodedFits` | src/compose/encode.rs:50-82 | Every encoded line is at most 76 characters of printable ASCII or tab |
| `QuotedPrintable.NormalisedIsClean` | src/compose/encode.rs:14-31 | Normalising leaves only CRLF line endings |
| `QuotedPrintable.NormalisedKeepsClean` | src/compose/encode.rs:14-31 | Text that has only CRLF line endings is left as it is |
| `QuotedPrintable.Normalise` | src/compose/encode.rs:14-31 | The byte loop computes the CRLF form |
| `QuotedPrintable.EncodeByte` | src/compose/encode.rs:60-79 | One byte with the soft break it may need, and the column after it |
| `QuotedPrintable.EncodeLine` | src/compose/encode.rs:58-80 | The inner loop encodes one line |
| `QuotedPrintable.Encode` | src/compose/encode.rs:50-82 | The outer loop encodes all lines, joined by CRLF |
| `QuotedPrintable.Decode` | src/util/mail_parser.rs:62-118 | The byte loop is the decoder's state machine, a malformed escape failing the whole |
| `Calendar.CivilSuccessor` | src/clock/mod.rs:46-57 | For every day number, the next number is the next day of the Gregorian calendar |
| `Calendar.CivilEpoch` | src/clock/mod.rs:46-57 | Day 0 is 1970-01-01 |
| `Calendar.CivilCounts` | src/clock/mod.rs:46-57 | The formula gives the date counted from the epoch one day at a time |
| `Calendar.YearFormula` | src/clock/mod.rs:48-51 | The year formula with its four divisions is the year within the era, for every day of an era |
| `Calendar.MonthLengths` | src/clock/mod.rs:53-55 | The month formula gives every month its Gregorian length |
| `Calendar.CivilIsReal` | src/clock/mod.rs:46-57 | Every day number, also before the epoch, gives a real date of the Gregorian calendar |
| `Calendar.CivilRises` | src/clock/mod.rs:46-57 | A later day number gives a later date |
| `Calendar.DaysFromCivil` | src/storage/delivery_log/mod.rs:444-454 | The formula back from a date to a day number inverts the one forward, for every day number |
| `Timestamps.TimestampsRise` | src/clock/mod.rs:67-81 | Timestamps up to the last instant sort as text in the order of time |
| `Timestamps.TimestampLength` | src/clock/mod.rs:59-81 | For every 64-bit number of seconds, a timestamp is 20 characters long exactly up to the last instant and in the last 93692592000 numbers, which the cast to a signed number takes for instants before the epoch |
| `Timestamps.CastGoesBack` | src/clock/mod.rs:67-81 | The largest 64-bit number is written 1969-12-31T23:59:59Z |
| `TimestampReader.ReadBackExactlyWhen` | src/storage/delivery_log/mod.rs:537-655 | What the log writes for an instant its own parser reads back as that instant exactly up to the last instant, and refuses above it |
| `TimestampReader.StampIsRead` | src/storage/delivery_log/mod.rs:537-630 | The parser reads date and time of day back from a timestamp written for any real date, and refuses exactly those whose date it does not take for a calendar day |
| `Timestamps.LastInstant` | src/clock/mod.rs:62 | The last instant is written 9999-12-31T23:59:59Z |
| `Base32.RoundTrip` | src/totp/mod.rs:54-94 | Decoding an encoding gives the bytes back, however the text was respelled without changing its symbols |
| `Base32.Encode` | src/totp/mod.rs:54-71 | The encoder's 32-bit register loop writes the bytes as one number in base 32, padded with zero bits to whole symbols, in the alphabet |
| `Base32.Decode` | src/totp/mod.rs:74-94 | The decoder's 32-bit register loop gives the whole bytes of the number the symbols write, or nothing exactly when a character is no symbol |
| `Base32.DecodesOnce` | src/totp/mod.rs:74-94 | What the decoder promises determines its result |
| `Base32.CaseIsIgnored` | src/totp/mod.rs:79-86 | The case of letters does not change what a text means |
| `Base32.SkippedIsIgnored` | src/totp/mod.rs:79-82 | A space or padding character anywhere does not change what a text means |
| `Base32.Position` | src/totp/mod.rs:83-85 | The search through the alphabet finds a symbol's value, or that it is none |
| `LockedEdit.NoEditIsLost` | src/storage/locked.rs:99-120 | In every interleaving with crashes, the file and every copy in memory are the committed edits folded over the first state, up to whatever no edit can tell apart and writing and reading back stays within |
| `LockedEdit.ExactWhereReadBack` | src/storage/locked.rs:99-120 | Where reading back gives the state that was written, the file's state is that fold itself |
| `LockedEdit.FileIsTheLog` | src/storage/locked.rs:99-120 | In every interleaving the file is the committed edits applied one after another, each to the file the last left, and one thread at a time is inside |
| `LockedEdit.ToldIsNeverLost` | src/storage/mod.rs:64-102 | The very edit whose author was told of success stays in its place in the log, with all before it, whatever process or power failure follows |
| `LockedEdit.FailedLeavesTheFileExactlyWhen` | src/storage/mod.rs:85-102 | An edit reported as failed left the log and the file as they were when its thread took the lock exactly when what failed was not the last directory sync; after a failed one the edit is in the file and a copy its process had is behind it |
| `LockedEdit.FailedYetWritten` | src/storage/mod.rs:85-102 | A run whose edit is in the log and in the file while its author was given an error |
| `LockedEdit.HoldingIsAlone` | src/storage/locked.rs:99-120 | While a thread holds the lock nobody else's edit takes effect; its own does at the rename, and its process's copy changes at the commit |
| `LockedEdit.DurablePrefix` | src/storage/mod.rs:96-102 | The log only grows while the power holds, and a power failure never shortens it below what was synced |
| `LockedEdit.MirrorNeverGoesBack` | src/storage/locked.rs:92-98 | No commit puts its process's copy in memory back to an older version, and every copy is the state after as many edits as it says |
| `LockedEdit.StateIsTheFold` | src/storage/locked.rs:110-119 | Reading, changing and writing through the file is folding the edits over the state, as far as edits can tell |
| `LockedEdit.LogIsAskedFor` | src/storage/locked.rs:99-120 | Whatever holds of every edit someone took the lock for holds of every edit in the log |
| `Accounts.RunKeepsSeparate` | src/directory_store/mod.rs:542-615 | Every run of add, add_address, remove_address, remove and replace_account keeps names unique and stored addresses disjoint across static and dynamic accounts, whatever the normalizer, as long as each address of a replacement has a stored form that is its own |
| `Accounts.ReplaceKeepsExactlyWhen` | src/directory_store/mod.rs:576-615 | An accepted replacement keeps addresses disjoint exactly when no other account uses the stored form of an address it stored |
| `Accounts.EditKeepsExactlyWhen` | src/directory_store/mod.rs:542-615 | Every accepted edit keeps names unique and addresses disjoint, with a replacement that claims an address in use as the one exception |
| `Accounts.ReplacementTakesAnAddress` | src/directory_store/mod.rs:583-609 | For every address whose stored form is not its own, a replacement is accepted that gives one account an address another keeps |
| `Accounts.CyrillicAddressIsTaken` | src/directory_store/mod.rs:583-609 | So it is with an address whose domain is refused in capitals and accepted in small letters |
| `Accounts.NormalizedBeforehand` | src/api/scim/users/mod.rs:198-214 | Addresses normalized once before a replacement, as its caller does, have a stored form that is its own |
| `Accounts.AddressesSettleTwice` | src/util/address/mod.rs:30-43 | The normalizer of mail addresses settles at its second application |
| `Addresses.OwnStoredFormExactlyWhen` | src/util/address/mod.rs:30-43 | The second stored form of an address is the last, and the first already is exactly when its domain is not one refused as written and accepted, under another spelling, in lower case |
| `Addresses.DomainOwnExactlyWhen` | src/domain/mod.rs:45-57 | The same of a domain, whose check runs on the spelling before lower case |
| `Addresses.ThreeSpellings` | src/domain/mod.rs:63-86 | Three spellings of one address, each the stored form of the one before |
| `Accounts.RunRoutesToOwner` | src/directory_store/build.rs:30-70 | After any such run every address of every account routes to that account, whatever SQL and LDAP rows claim |
| `Accounts.RoutesToOwner` | src/smtp/directory/mod.rs:186-198 | Where addresses are disjoint, the last-writer table sends each to its one owner |
| `Accounts.AddKeeps` | src/directory_store/mod.rs:542-564 | Adding an account keeps names unique and addresses disjoint |
| `Accounts.AddAddressKeeps` | src/directory_store/mutators.rs:141-175 | Adding an address keeps addresses disjoint |
| `Accounts.RemoveAddressKeeps` | src/directory_store/mutators.rs:183-206 | Removing an address keeps addresses disjoint |
| `Accounts.RemoveKeeps` | src/directory_store/mutators.rs:218-228 | Removing an account keeps names unique and addresses disjoint |
| `Accounts.ReplaceKeeps` | src/directory_store/mod.rs:576-615 | Replacing an account keeps addresses disjoint when the stored form of each new address is its own |
| `Accounts.FirstClaimsTable` | src/directory_store/build.rs:55-70 | With later claims dropped, the last writer of an address is the first account that claims it |
| `Accounts.ClaimOnce` | src/directory_store/build.rs:55-70 | The filter with its set of seen forms keeps exactly the first claim of each address |
| `Accounts.AccountStore.constructor` | src/directory_store/mod.rs:345-395 | A store holds its accounts and a directory built from them |
| `Accounts.AccountStore.Refresh` | src/directory_store/mutate_store/mod.rs:69-72 | Replaces the accounts held and rebuilds the routing table from them |
| `Accounts.AccountStore.AddAccount` | src/directory_store/mod.rs:542-564 | Adds an account in its stored form, or refuses it as invalid or duplicate and changes nothing |
| `Accounts.AccountStore.AddAddressTo` | src/directory_store/mutators.rs:141-175 | Adds an address to an account, or refuses it and changes nothing |
| `Accounts.AccountStore.RemoveAddressFrom` | src/directory_store/mutators.rs:183-206 | Removes every spelling of an address, never the last address, or refuses and changes nothing |
| `Accounts.AccountStore.RemoveAccount` | src/directory_store/mutators.rs:218-228 | Removes a dynamic account, or reports that there is none |
| `Accounts.AccountStore.ReplaceAccount` | src/directory_store/mod.rs:576-615 | Replaces an account in its place, or refuses and changes nothing |
| `Drain.NoWakeupIsLost` | src/shutdown/mod.rs:33-94 | In every interleaving the count is the live connections, a waiter of `started` asleep while draining has an announcer still to come, and a waiter of `finished` asleep with none open has a dropper still to notify |
| `Drain.NobodyOversleeps` | src/shutdown/mod.rs:47-85 | With every notifier done, no waiter whose event happened is stuck: each can take its next step |
| `Drain.StartedMeansDraining` | src/shutdown/mod.rs:47-57 | `started` returns only once the drain has started, and the drain never stops |
| `Drain.StartedReturnsInTime` | src/shutdown/mod.rs:47-57 | In every run a waiter of `started` has returned, once draining, exactly when it has taken as many of its own steps as it was away, three at most |
| `Drain.FinishedReturnsInTime` | src/shutdown/mod.rs:67-82 | While no connection is open, a waiter of `finished` is done within as many of its own steps as it was away |
| `Drain.FinishedTellsTheCount` | src/shutdown/mod.rs:65-82 | In every run `finished` tells how many connections are open at its second look; after a wait that found none open that is 0 exactly when every connection opened since has closed |
| `Drain.ToldOfOneAfterSuccess` | src/shutdown/mod.rs:65-82 | Any run about to find nothing open can go on so that a wait that succeeded reports one left open |
| `Acme.EveryChallengeIsWithdrawn` | src/acme/client/mod.rs:235-282 | However an order ends (success, any error, or dropped at any await inside a runtime), every challenge whose publish began has had its withdrawal return or was on the list of the spawned withdrawal, and is on it still while that one lives; an order that ran to its end has withdrawn all |
| `Acme.NoEntryLeavesEarly` | src/acme/client/published.rs:42-47 | An entry leaves the list only as its withdrawal returns, newest first |
| `Acme.DeletesWhereItPublished` | src/acme/challenge/mod.rs:206-257 | In every run every zone remembered or deleted from is one a publish of that challenge used, also for a withdrawal cancelled and run again |
| `Acme.CleanExactlyWhen` | src/acme/challenge/mod.rs:182-257 | Once all withdrawals have returned, every record written has had its deletion sent exactly when no challenge was written to two zones |
| `Acme.DistinctChallengesAreCleaned` | src/acme/challenge/mod.rs:206-257 | With distinct challenges, every record written has had its deletion sent to its own zone once all withdrawals have returned |
| `Acme.AlwaysCleanExactlyWhen` | src/acme/challenge/mod.rs:182-257 | An order always cleans up after itself exactly when no challenge is asked for twice |
| `Acme.RepeatedChallengeLeavesARecord` | src/acme/challenge/mod.rs:182-257 | For any order with a challenge asked for twice, a run that writes it to two zones and ends with a record left undeleted |
| `ArcLoops.CoveredPiece` | src/arc/seal.rs:81-125 | The text one instance adds to what a seal signs: its own headers, its seal up to the sealed instance |
| `ArcLoops.OneSealHolds` | src/arc/validate.rs:40-46 | One seal is parsed and verified against the chain |
| `ArcLoops.CheckChain` | src/arc/validate.rs:26-49 | A chain is accepted exactly when its statuses agree, its newest message signature verifies and all its seals verify |
| `SieveParser.Parser.TestTail` | src/sieve/parser.rs:210-213 | The loop behind the first test reads on while a comma comes next |
| `SieveParser.Parser.BranchTail` | src/sieve/parser.rs:142-145 | The loop behind the first branch reads on while an `elsif` comes next |
| `SieveInterp.HasTagIn` | src/sieve/interp.rs:390-393 | Whether a tag is among the arguments |
| `SieveInterp.ListedIn` | src/sieve/interp.rs:244-248 | Whether a string is listed, whatever the case of its ASCII letters |
| `SieveInterp.Interpreter.RunCommand` | src/sieve/interp.rs:160-301 | One command: an action, or the branches and else of a conditional |
| `Base32.ShiftByte` | src/totp/mod.rs:59-66 | One byte into the register, and symbols out of it while there are any, keeping what the text and the register mean |
| `Base32.Flush` | src/totp/mod.rs:67-70 | The bits left over become one more symbol, and the text is then an encoding |
| `Base32.ShiftSymbol` | src/totp/mod.rs:86-91 | One symbol into the register, and a byte out of it when there is one, keeping what the bytes and the register mean |
| `Accounts.EditKeeps` | src/directory_store/mutate_store/mod.rs:41-64 | Any one edit that goes through keeps names unique and addresses disjoint, a replacement under that condition on its addresses |
| `AccountsOnDisk.EveryAddressHasOneOwner` | src/directory_store/mutate_store/mod.rs:41-72 | In every interleaving of processes and threads editing the accounts file, with crashes at any step, the accounts on disk and those every process routes by have unique names and disjoint addresses, and each address routes to its owner, from a file that reads apart and with replacements whose addresses have their own stored form |
| `AccountsOnDisk.FileApartExactlyWhen` | src/directory_store/mutate_store/mod.rs:41-64 | One edit through the file keeps the accounts apart exactly when it is no replacement that claims an address in use |
| `AccountsOnDisk.ReadApartExactlyWhen` | src/directory_store/normalize.rs:23-42 | Reading a file gives accounts that are apart exactly when the second stored forms of the addresses in it, and the stored forms of the static ones, are |
| `AccountsOnDisk.TwoSpellingsInAFile` | src/directory_store/normalize.rs:23-42 | A file with two spellings of one address is apart as written and not as read |
| `AccountsOnDisk.EditKeepsOwn` | src/directory_store/normalize.rs:23-42 | Once a file was read, every edit leaves each address with a stored form that is its own |
| `AccountsOnDisk.ReadIsOwn` | src/directory_store/normalize.rs:23-42 | Whatever was in a file, each address has a stored form that is its own once it is read |
| `AccountsOnDisk.NoAccountEditIsLost` | src/directory_store/mutate_store/mod.rs:41-64 | In every interleaving the file reads as the first accounts, and once edited as the stored form of the committed edits run one after another from them |
| `AccountsOnDisk.EditSeesStoredForm` | src/directory_store/normalize.rs:23-42 | To accounts as the store holds them every edit does the same in stored form or not: the same error, or accounts with the same stored form |
| `AccountsOnDisk.NormalStaysApart` | src/directory_store/normalize.rs:23-42 | Where each stored form is its own, accounts are apart as written exactly when they are as read back |
| `AccountsOnDisk.StoredFormRespected` | src/directory_store/mutate_store/mod.rs:22-64 | Having the same stored form, of accounts as the store holds them, is what edits, writing and reading back respect |
| `AccountsOnDisk.EditKeepsFileApart` | src/directory_store/mutate_store/mod.rs:41-64 | One edit through the file (read and normalized, changed, written, read back) keeps the accounts apart, a replacement under the condition on its addresses |
| `LedgerOutcomes.NewMessageExactly` | src/antispam/learning/ledger.rs:238-286 | In every run, whatever came before: a message new to the ledger is learned exactly when what was written that day and its own tokens are within `tokens_per_day` and its unseen tokens fit `token_rows`; throttled exactly when the day is short; refused exactly when only the rows are |
| `LedgerOutcomes.HeldMessageExactly` | src/antispam/learning/ledger.rs:203-237 | In every run: a held message is repeated exactly when the verdict is the same, relearned exactly when it differs and the day has room for the tokens it was counted with, else throttled |
| `LedgerOutcomes.PassedOverExactly` | src/antispam/learning/ledger.rs:166-183 | A lesson is passed over exactly when learning is off, and then changes nothing |
| `LedgerOutcomes.SwitchIsHistory` | src/antispam/learning/ledger.rs:166-183 | Learning is on exactly as last switched since the account was last removed |
| `LedgerOutcomes.SpentIsHistory` | src/antispam/learning/ledger.rs:311-344 | The budget a lesson is held to is what the history wrote on its day since the row last restarted |
| `LedgerOutcomes.NewRowsAreUnseen` | src/antispam/learning/ledger.rs:243-251 | The rows a lesson needs are its tokens without a count, each once |
| `LedgerOutcomes.LedgerAfter` | src/antispam/learning/ledger.rs:222-273 | A learned lesson leaves the ledger without what it evicted and with its own verdict, token count and time; a relearned one changes only its own entry; any other outcome changes nothing |
| `LedgerOutcomes.EvictsExactly` | src/antispam/learning/ledger.rs:287-309 | Entries go exactly when a message is learned into a full ledger: a tenth of the limit, one at least, and none that stays is older than one that goes |
| `LedgerOutcomes.CountersCount` | src/antispam/learning/ledger.rs:346-383 | In every run the outcome counters are the number of lessons that came to each outcome since the account was last cleared |
| `AccountEdits.WithoutExactly` | src/directory_store/mutators.rs:218-228 | What is left after a removal is the accounts of other names, each as often as it was there and in that order |
| `AccountEdits.RemoveExactly` | src/directory_store/mutators.rs:218-228 | A removal is refused exactly when no account has the name, and otherwise takes out all of that name and nothing else |
| `AccountEdits.AddExactly` | src/directory_store/mod.rs:542-564 | An account is refused as invalid, refused as a duplicate or added exactly when said, by a name in use or a stored address someone routes; added, it is last, under its stored name, with each stored address once where it first came up, all others as they were |
| `AccountEdits.AddAddressExactly` | src/directory_store/mutators.rs:141-175 | An address is invalid, without an account, a duplicate or added exactly when said; added, it is the last of the first account of the name and nothing else changes |
| `AccountEdits.RemoveAddressExactly` | src/directory_store/mutators.rs:183-206 | Every spelling of an address goes and the rest stays in order; refused exactly when the account has none or nothing else |
| `AccountEdits.ReplaceExactly` | src/directory_store/mod.rs:576-615 | A replacement gives the first account of the name exactly the stored addresses asked for; refused exactly when one of them is used elsewhere |
| `AccountEdits.TakenMeans` | src/directory_store/mutators.rs:104-135 | An address is taken exactly when an account, an alias or a masked address routes its stored form |
| `AccountEdits.StoredExactly` | src/directory_store/mod.rs:542-564 | Stored addresses are the stored forms, each once, where it first comes up |
| `AccountEdits.EditLeavesOthers` | src/directory_store/mutate_store/mod.rs:41-64 | Every edit that goes through leaves the accounts of other names as they were, in their order |
| `AccountEdits.RunExactly` | src/directory_store/mutate_store/mod.rs:41-64 | A run is the edits that go through, one after another; a refused one changes nothing |
| `AccountEdits.RoutesExactly` | src/directory_store/build.rs:30-70 | A stored form routes to the first local account that has it, else the last SQL one, else the last LDAP one, and nowhere when none has it |
| `ImapExpunge.SelectedExactly` | src/imap/snapshot.rs:335-360 | What an expunge removes is exactly the messages selected, and what stays the others, each in mailbox order |
| `ImapExpunge.ToldExactly` | src/imap/snapshot.rs:349-359 | Listeners hear of each message removed, in order, and then once of the mailbox; of nothing when nothing went |
| `ImapUids.ScanExactly` | src/imap/scan.rs:46-79 | A scan of any mailbox gives the messages without a UID, by rising id, the next values of the counter, keeps every other UID, and files the greater of the old counter and the new |
| `SieveMeaning.DecidesWhatItMeans` | src/sieve/interp.rs:113-303 | For every script and every host whose answers do not depend on the budget spent: unless the budget runs out, the decision is the one the carried-out actions come to, which is defined without the interpreter: folders and addresses by first mention up to 8 and 4, what is over, flags, last refusal and reply, and a keep exactly when asked for, spared, or nothing takes its place |
| `SieveMeaning.TestMeans` | src/sieve/eval.rs:16-49 | Whenever the budget lasts, a test evaluates to what it says in the variables and captures at hand, and leaves those it says |
| `SieveMeaning.TestHoldsExactly` | src/sieve/eval.rs:16-49 | For hosts whose leaf tests leave no trace: unless the budget runs out, a test evaluates to true exactly when it holds by the words, `allof` as for all, `anyof` as exists, `not` as the negation of its first test and true without one |
| `SieveMeaning.TestsMeanEach` | src/sieve/eval.rs:27-28 | `allof` holds exactly when each test holds in what the ones before it left; `anyof` fails exactly when each fails so |
| `SieveMeaning.HoldsAsSaid` | src/sieve/eval.rs:16-49 | For tests that leave no trace: true, false, not, all and any as the words say |
| `SieveMeaning.FirstThatHolds` | src/sieve/interp.rs:282-300 | Of a conditional the body of the first branch whose test holds is carried out, else the `else` block, else nothing |
| `SieveMeaning.ActDoes` | src/sieve/interp.rs:161-281 | Each action adds to the decision what it should, in the variables of that moment, and `set` binds the expanded text |
| `SieveMeaning.KeptMore` | src/sieve/interp.rs:205-259 | One text more is listed already, listed now, or counted as one too many |
| `SieveDetails.FlagsExactly` | src/sieve/interp.rs:262-279 | Setting gives the first 32 different flags of 64 octets at most, adding puts those behind the ones there are, removing takes out the ones named, whatever the case of letters |
| `SieveDetails.ReplyExactly` | src/sieve/interp.rs:306-343 | A reply is asked for exactly when there is a text; it has the last text, and the last days, subject and sender of the right kind, 7 days by default |
| `SieveDetails.EveryListIsWritten` | src/sieve/interp.rs:306-343 | Every argument list is one that law speaks of |
| `SieveDetails.FirstStringExactly` | src/sieve/interp.rs:370-376 | The first string argument is the one before which there is none |
| `SieveDetails.TagExactly` | src/sieve/interp.rs:390-393 | A tag counts exactly when it is among the arguments |
| `SieveDetails.StringsExactly` | src/sieve/interp.rs:378-388 | The strings of arguments are those of each argument, one after another |
| `SieveDetails.StepsExactly` | src/sieve/env/mod.rs:100-106 | A run of commands is cut off beyond 20000 and not before |
| `SieveDetails.WorkExactly` | src/sieve/env/mod.rs:120-194 | An expansion is paid for by what is read and written, and the run is cut off beyond 256 MiB and not before |
| `SieveDetails.SetExactly` | src/sieve/interp.rs:192-201 | `set` binds the first string to the expansion of the second |
| `SieveDetails.CanSendExactly` | src/sieve/interp.rs:161-281 | Some host and arguments make a script of one action send exactly when the action is named redirect, reject, ereject or vacation as written |
| `SieveDetails.OutwardExactly` | src/sieve/analysis.rs:86-105 | The upload check misses no action that can send, and is right about an action exactly when it is not another spelling of the four names |
| `SieveDetails.LargeRedirectIsSilent` | src/sieve/analysis.rs:98-101 | `REDIRECT` is taken to send and never does, since the interpreter matches names as written |
| `SieveDetails.SendsExactly` | src/sieve/analysis.rs:86-105 | The upload check takes a script to send exactly when a redirect, vacation, reject or ereject stands somewhere in it, in any spelling |
| `SieveDetails.VisitsExactly` | src/sieve/analysis.rs:12-37 | The walk meets exactly the actions that stand somewhere in the script |
| `ArcMeaning.ValidateExactly` | src/arc/validate.rs:17-67 | For every network and message: it passes exactly when its ARC fields make a chain whose every seal has a published key that verifies it on the written text and says `none` first and `pass` after, the newest message signature likewise, its body hash matching; it has no verdict exactly when it has no ARC field |
| `ArcMeaning.PassIsVerified` | src/arc/validate.rs:17-50 | Behind a pass stands, for each instance, a key published under the selector and domain its seal names that verifies the lines of every earlier instance and its own, and a key that verifies the covered fields and the newest message signature, the body hash equal |
| `ArcMeaning.CheckedExactly` | src/arc/seal.rs:100-125 | A signature passes exactly when the key published for it verifies the text |
| `ArcMeaning.SealTextIs` | src/arc/seal.rs:81-148 | The text a seal is checked on is the lines of all three fields of every earlier instance, its own two, and itself with the signature emptied and no end of line |
| `ArcMeaning.HashInputIs` | src/arc/ams.rs:120-156 | The text a message signature is checked on is the lines of the fields picked, for each name the lowest not yet taken, and itself with the signature emptied |
| `ArcMeaning.LowestExactly` | src/arc/ams.rs:148-156 | The field picked has none below it of that name still free, and nothing is picked only when none is free |
| `ArcMeaning.ExtractExactly` | src/arc/chain.rs:106-150 | Fields make a chain exactly when every ARC field names one of the instances 1 to n, n at most 50, and each instance has one field of each name; nothing is extracted exactly when there is no ARC field |
| `ArcMeaning.SealExactly` | src/arc/signature.rs:192-209 | A value is read as a seal exactly when its tags say that seal: instance, algorithm, domain, selector, status, signature, a number for a time if any, no `h` and no `bh` |
| `ArcMeaning.SignatureExactly` | src/arc/signature.rs:153-190 | A value is read as a message signature exactly when its tags say it, with From among the names and no ARC field |
| `ArcMeaning.LineIs` | src/dkim/canon/mod.rs:7-30 | A canonical field is name, colon and value, or in relaxed form the name in small letters and the words of the value one blank apart |
| `ArcSealing.FaultExactly` | src/arc/chain.rs:106-150 | Of fields that make no chain the first fault in order is reported: no number, a number out of range, a field twice, the first instance short of its fields as missing or incomplete |
| `ArcSealing.SignatureSays` | src/arc/ams.rs:25-70 | A hop signs exactly when there is a From field, and its signature says its instance, domain, selector, the hash of the body and, of the six covered fields, exactly those the message has |
| `ArcSealing.ResultsAreRecorded` | src/arc/sealer.rs:48-90 | The results field holds the instance, the domain and the results as they were found |
| `TextLaws.TagsExactly` | src/arc/signature.rs:79-93 | A value is read as tags exactly when every piece is blank or has an equals sign, under the trimmed small-letter name and without white space |
| `TextLaws.GetExactly` | src/arc/signature.rs:95-100 | A tag has the first value under its name |
| `TextLaws.FirstTagExactly` | src/arc/chain.rs:161-168 | The instance reader takes the first piece under the name, whatever the other pieces are |
| `TextLaws.StripExactly` | src/arc/ams.rs:158-172 | Emptying the signature cuts each `b=` piece behind the sign and leaves every other piece as it is |
| `TextLaws.UnsignedExactly` | src/arc/signature.rs:108-116 | A number is read exactly from its decimal form, behind zeros and one plus, up to the greatest allowed |
| `QuotedPrintableMeaning.DecodedExactly` | src/util/mail_parser.rs:62-130 | For every text: it decodes exactly when it is made of characters, escapes in digits of either case, soft breaks and line ends, an escape at the very end cut short, and to what those mean, blanks at the end of a line dropped |
| `QuotedPrintableMeaning.HexExactly` | src/util/mail_parser.rs:120-130 | Digits are read in either case and nothing else is a digit |
| `QuotedPrintableMeaning.LineIsFilled` | src/compose/encode.rs:58-80 | An encoded line is its pieces on rows of at most 75 characters, the last of 76, and no row could have taken the first piece of the next |
| `QuotedPrintableMeaning.PieceExactly` | src/compose/encode.rs:60-72 | A byte that prints stands for itself, a blank or tab too unless it ends the line, and everything else is two capital digits |
| `QuotedPrintableMeaning.NormalisedExactly` | src/compose/encode.rs:14-31 | Each break, however written, becomes CR LF, and everything else stays |
| `TimestampTexts.ReadsExactly` | src/storage/delivery_log/mod.rs:537-655 | For every text: it is read as an instant exactly when it is a date of the calendar from 1970 to 9999, `T`, a time of day and an offset that come to that instant, sums made in 64 bits |
| `TimestampTexts.OffsetIsWrittenExactlyWhen` | src/storage/delivery_log/mod.rs:636-655 | An accepted offset is the one written exactly when its hours are 0 to 23 |
| `TimestampTexts.HugeOffsetIsNone` | src/storage/delivery_log/mod.rs:650-651 | Whole multiples of 2^60 hours are accepted as an offset of none |
| `TimestampTexts.OffsetExactly` | src/storage/delivery_log/mod.rs:636-655 | An offset is hours, and minutes if they stand behind a colon, whose 64-bit sum is within a day |
| `Drain.NotifiedExactly` | src/shutdown/mod.rs:47-57 | A notification reaches everyone registered at that moment and nobody else |
| `Drain.DrainingExactly` | src/shutdown/mod.rs:33-45 | In every run the drain has started exactly when some caller of `begin` has raised the flag |
| `Drain.LiveExactly` | src/shutdown/mod.rs:60-94 | In every run a connection is live exactly when it was opened and not closed since |
| `Drain.BeginFindsNoneOpen` | src/shutdown/mod.rs:33-40 | In every run `begin` announces the end itself exactly when it finds nothing open |
| `TokenSample.TokensExactly` | src/antispam/bayes/mod.rs:50-65 | A token is a run of 2 to 30 octets in lower case that is not excluded |
| `TokenSample.HexExactly` | src/antispam/corpus/mod.rs:478-484 | One hexadecimal digit more is sixteen times the number and the digit, in small letters |
| `Base32.SymbolExactly` | src/totp/mod.rs:83-85 | A symbol is the place of its character in the alphabet, in either case |
| `Base32.SymbolsExactly` | src/totp/mod.rs:79-86 | The symbols of a text are those of its characters but blanks and padding, one by one, and there are none when another character is among them |

## Left out

- Sieve's lexer, comparators, leaf tests, variable limits and pattern caps: the leaf tests, the expansion and the store of variables and the split of text into words are the host's, and only their effect on the run's budget flags is asked for.
- SieveMeaning.DecidesWhatItMeans: that leaf tests, expansion and assignment answer without regard to the budget left is asked of the host (`SieveMeaning.Answers`); a run whose budget runs out is in `SieveRun.AbortedSendsNothing` and `SieveRun.NothingIsLost`.
- ArcMeaning.ValidateExactly: which DNS strings publish a key, and of what type, is inside `Arc.Net.keyAt`.
- ARC header folding, line endings and the split of a raw message into header fields: a message is its fields and a body; body canonicalization is inside the body hash.
- ArcHops.JourneyValidates: keys withdrawn or changed between hops, and lookups that fail for a time, end the promise; that a later validation then fails for good is `ArcHops.BrokenJourney`.
- ArcHops.BuiltAmsHolds: sealers sign with Ed25519 only, as the source's sealer does; RSA appears in validation alone.
- Ledger.RunKeepsValid: different texts are taken to have different keyed digests, and the tokens of one message different fingerprints.
- Ledger: the retry loop around a lesson, connection errors and the race with a removal between two statements, which rolls back; accounts are independent, one is modelled.
- Ledger.DayStaysInBudget: for days in order from an account without a row only; every other run is in `Ledger.BudgetIsTheStretch` and `Ledger.DayIsTheStretchExactlyWhen`.
- TokenSample: where the window of a long text is cut, Unicode lowercasing and the positional tokens of classification; the heap is modelled by its contents in order, not by its array.
- Base64, the 7bit and 8bit choices and the attachment encoder beside quoted-printable, which would add easy members.
- ImapExpunge: the scan that fills a snapshot, and a message's files one by one: they move or go together.
- ImapUids.UidIsStable: scans run to their end one at a time and their writes succeed; a scan cut off between filing UIDs and persisting the counter is not modelled, nor is the metadata index that skips a scan.
- Calendar: `rfc5322` and the clock drift probe; the delivery log's sweep by day.
- LockedEdit: temporary file names, permissions and leftovers of a crash; `edit`, whose callers refresh their copy after the lock, is covered only up to its write.
- Accounts: passwords, quotas, forwards and display names ride along in the same edits and are not part of the routing; catch-all, subaddress and alias resolution come after the table.
- AccountsOnDisk.EveryAddressHasOneOwner: that the text form of a file gives back the names and addresses it was written from is assumed of the format; sealed secrets are not part of the accounts modelled.
- Addresses: the tables behind trimming, lower case and the domain rules; what is asked of them is in `Addresses.Sound`, and that the Cyrillic capitals of the example are refused and its small letters accepted follows the look-alike table, which is not part of this model.
- Drain: deadlines may pass at any step; how long they are is not modelled.
- Acme: the conversation with the authority is reduced to which answer came back; the two other challenge stores keep no zone.
