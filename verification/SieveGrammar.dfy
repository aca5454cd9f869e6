/**
 * The grammar of Sieve scripts, in two independent forms: recursive descent
 * over a token list, and a printer that spells a tree out again. The main
 * results say that the two describe exactly the same language.
 */
module SieveGrammar {
  import opened Basics
  import opened SieveAst

  const MAX_NESTING := 64

  datatype ParseError =
    | UnexpectedEof
    | Unexpected(token: Token)
    | Expected(what: string)
    | NestingDepth(depth: nat, max: nat)

  /** What a parse yields, and the tokens it left unread. */
  datatype Parsed<T> =
    | Parsed(value: T, rest: seq<Token>)
    | Failed(error: ParseError, rest: seq<Token>)

  function Cons(t: Token, ts: seq<Token>): (r: seq<Token>)
    ensures |r| == |ts| + 1 && r[0] == t && r[1..] == ts
  {
    [t] + ts
  }

  predicate Starts(ts: seq<Token>, t: Token) {
    ts != [] && ts[0] == t
  }

  // ----- Recursive descent -----

  function ParseIdentifier(ts: seq<Token>): (p: Parsed<string>)
    ensures |p.rest| <= |ts| && (p.Parsed? ==> |p.rest| < |ts|)
  {
    if ts == [] then Failed(UnexpectedEof, ts)
    else if ts[0].Identifier? then Parsed(ts[0].name, ts[1..])
    else Failed(Unexpected(ts[0]), ts[1..])
  }

  /** The strings of a list, from just after its `[` or a comma to past its `]`. */
  function ParseItems(ts: seq<Token>): (p: Parsed<seq<string>>)
    ensures |p.rest| <= |ts| && (p.Parsed? ==> |p.rest| < |ts|)
  {
    if ts == [] then Failed(UnexpectedEof, ts)
    else if !ts[0].QuotedString? && !ts[0].MultiLine? then Failed(Unexpected(ts[0]), ts[1..])
    else if |ts| == 1 then Failed(UnexpectedEof, ts[1..])
    else match ts[1]
      case BracketClose => Parsed([ts[0].text], ts[2..])
      case Comma =>
        (match ParseItems(ts[2..])
         case Failed(e, rest) => Failed(e, rest)
         case Parsed(more, rest) => Parsed([ts[0].text] + more, rest))
      case other => Failed(Unexpected(other), ts[2..])
  }

  /** One argument, where a token that can begin one comes next. */
  function ParseArgument(ts: seq<Token>): (p: Parsed<Argument>)
    requires BeginsArgument(ts)
    ensures |p.rest| <= |ts| && (p.Parsed? ==> |p.rest| < |ts|)
  {
    match ts[0]
    case Tag(name) => Parsed(Tagged(name), ts[1..])
    case Number(value) => Parsed(Num(value), ts[1..])
    case QuotedString(text) => Parsed(Str(text), ts[1..])
    case MultiLine(text) => Parsed(Str(text), ts[1..])
    case BracketOpen =>
      (match ParseItems(ts[1..])
       case Failed(e, rest) => Failed(e, rest)
       case Parsed(items, rest) => Parsed(StrList(items), rest))
  }

  predicate BeginsArgument(ts: seq<Token>) {
    && ts != []
    && (ts[0].Tag? || ts[0].Number? || ts[0].QuotedString? || ts[0].MultiLine? || ts[0].BracketOpen?)
  }

  function ParseArguments(ts: seq<Token>): (p: Parsed<seq<Argument>>)
    ensures |p.rest| <= |ts|
    decreases |ts|
  {
    if !BeginsArgument(ts) then Parsed([], ts)
    else match ParseArgument(ts)
      case Failed(e, rest) => Failed(e, rest)
      case Parsed(arg, rest) =>
        (match ParseArguments(rest)
         case Failed(e, rest') => Failed(e, rest')
         case Parsed(more, rest') => Parsed([arg] + more, rest'))
  }

  /** One test, `d` levels deep. */
  function ParseTest(ts: seq<Token>, d: nat): (p: Parsed<Test>)
    ensures |p.rest| <= |ts| && (p.Parsed? ==> |p.rest| < |ts|)
    decreases |ts|, 0
  {
    match ParseIdentifier(ts)
    case Failed(e, rest) => Failed(e, rest)
    case Parsed(name, rest) =>
      if ListTest(name) then ParseListTest(name, rest, d)
      else if name == "not" then ParseNot(rest, d)
      else match ParseArguments(rest)
        case Failed(e, rest') => Failed(e, rest')
        case Parsed(args, rest') => Parsed(Test(name, args, []), rest')
  }

  predicate ListTest(name: string) {
    name == "allof" || name == "anyof"
  }

  function ParseListTest(name: string, ts: seq<Token>, d: nat): (p: Parsed<Test>)
    ensures |p.rest| <= |ts|
    decreases |ts|, 2
  {
    if !Starts(ts, ParenOpen) then Failed(Expected("'(' after test list"), ts)
    else if d + 1 > MAX_NESTING then Failed(NestingDepth(d + 1, MAX_NESTING), ts[1..])
    else match ParseTests(ts[1..], d + 1)
      case Failed(e, rest) => Failed(e, rest)
      case Parsed(children, rest) =>
        if !Starts(rest, ParenClose) then Failed(Expected("')' after test list"), rest)
        else Parsed(Test(name, [], children), rest[1..])
  }

  function ParseNot(ts: seq<Token>, d: nat): (p: Parsed<Test>)
    ensures |p.rest| <= |ts|
    decreases |ts|, 1
  {
    if d + 1 > MAX_NESTING then Failed(NestingDepth(d + 1, MAX_NESTING), ts)
    else match ParseTest(ts, d + 1)
      case Failed(e, rest) => Failed(e, rest)
      case Parsed(inner, rest) => Parsed(Test("not", [], [inner]), rest)
  }

  /** A nonempty list of tests, `d` levels deep, separated by commas. */
  function ParseTests(ts: seq<Token>, d: nat): (p: Parsed<seq<Test>>)
    ensures |p.rest| <= |ts| && (p.Parsed? ==> |p.rest| < |ts|)
    decreases |ts|, 1
  {
    match ParseTest(ts, d)
    case Failed(e, rest) => Failed(e, rest)
    case Parsed(test, rest) =>
      if !Starts(rest, Comma) then Parsed([test], rest)
      else match ParseTests(rest[1..], d)
        case Failed(e, rest') => Failed(e, rest')
        case Parsed(more, rest') => Parsed([test] + more, rest')
  }

  /** Commands, `d` levels deep, up to the end of input or a closing brace of a block. */
  function ParseCommands(ts: seq<Token>, block: bool, d: nat): (p: Parsed<seq<Command>>)
    ensures |p.rest| <= |ts|
    decreases |ts|, 2
  {
    if ts == [] || (block && ts[0] == BraceClose) then Parsed([], ts)
    else match ParseCommand(ts, d)
      case Failed(e, rest) => Failed(e, rest)
      case Parsed(c, rest) =>
        (match ParseCommands(rest, block, d)
         case Failed(e, rest') => Failed(e, rest')
         case Parsed(more, rest') => Parsed([c] + more, rest'))
  }

  function ParseCommand(ts: seq<Token>, d: nat): (p: Parsed<Command>)
    ensures |p.rest| <= |ts| && (p.Parsed? ==> |p.rest| < |ts|)
    decreases |ts|, 1
  {
    match ParseIdentifier(ts)
    case Failed(e, rest) => Failed(e, rest)
    case Parsed(name, rest) =>
      if name == "if" then ParseConditional(rest, d) else ParseAction(name, rest)
  }

  function ParseAction(name: string, ts: seq<Token>): (p: Parsed<Command>)
    ensures |p.rest| <= |ts|
  {
    match ParseArguments(ts)
    case Failed(e, rest) => Failed(e, rest)
    case Parsed(args, rest) =>
      if !Starts(rest, Semicolon) then Failed(Expected("';' after action"), rest)
      else Parsed(Action(name, args), rest[1..])
  }

  function ParseConditional(ts: seq<Token>, d: nat): (p: Parsed<Command>)
    ensures |p.rest| <= |ts|
    decreases |ts|, 4
  {
    match ParseBranches(ts, d)
    case Failed(e, rest) => Failed(e, rest)
    case Parsed(branches, rest) =>
      if !Starts(rest, Identifier("else")) then Parsed(If(branches, NoElse), rest)
      else match ParseBlock(rest[1..], d)
        case Failed(e, rest') => Failed(e, rest')
        case Parsed(body, rest') => Parsed(If(branches, Else(body)), rest')
  }

  function ParseBranches(ts: seq<Token>, d: nat): (p: Parsed<seq<Branch>>)
    ensures |p.rest| <= |ts| && (p.Parsed? ==> |p.rest| < |ts|)
    decreases |ts|, 3
  {
    match ParseBranch(ts, d)
    case Failed(e, rest) => Failed(e, rest)
    case Parsed(branch, rest) =>
      if !Starts(rest, Identifier("elsif")) then Parsed([branch], rest)
      else match ParseBranches(rest[1..], d)
        case Failed(e, rest') => Failed(e, rest')
        case Parsed(more, rest') => Parsed([branch] + more, rest')
  }

  function ParseBranch(ts: seq<Token>, d: nat): (p: Parsed<Branch>)
    ensures |p.rest| <= |ts| && (p.Parsed? ==> |p.rest| < |ts|)
    decreases |ts|, 2
  {
    match ParseTest(ts, d)
    case Failed(e, rest) => Failed(e, rest)
    case Parsed(test, rest) =>
      (match ParseBlock(rest, d)
       case Failed(e, rest') => Failed(e, rest')
       case Parsed(body, rest') => Parsed(Branch(test, body), rest'))
  }

  function ParseBlock(ts: seq<Token>, d: nat): (p: Parsed<seq<Command>>)
    ensures |p.rest| <= |ts| && (p.Parsed? ==> |p.rest| < |ts|)
    decreases |ts|, 0
  {
    if !Starts(ts, BraceOpen) then Failed(Expected("'{'"), ts)
    else if d + 1 > MAX_NESTING then Failed(NestingDepth(d + 1, MAX_NESTING), ts[1..])
    else match ParseCommands(ts[1..], true, d + 1)
      case Failed(e, rest) => Failed(e, rest)
      case Parsed(body, rest) =>
        if !Starts(rest, BraceClose) then Failed(Expected("'}'"), rest)
        else Parsed(body, rest[1..])
  }

  /** A whole script. */
  function ParseScript(ts: seq<Token>): (p: Parsed<seq<Command>>) {
    ParseCommands(ts, false, 1)
  }

  // ----- The printer: each function spells a tree in front of the tokens `k` -----

  function PrintItems(items: seq<string>, k: seq<Token>): seq<Token> {
    if items == [] then k
    else if |items| == 1 then Cons(QuotedString(items[0]), Cons(BracketClose, k))
    else Cons(QuotedString(items[0]), Cons(Comma, PrintItems(items[1..], k)))
  }

  function PrintArgument(a: Argument, k: seq<Token>): seq<Token> {
    match a
    case Tagged(tag) => Cons(Tag(tag), k)
    case Num(value) => Cons(Number(value), k)
    case Str(text) => Cons(QuotedString(text), k)
    case StrList(items) => Cons(BracketOpen, PrintItems(items, k))
  }

  function PrintArguments(args: seq<Argument>, k: seq<Token>): seq<Token> {
    if args == [] then k else PrintArgument(args[0], PrintArguments(args[1..], k))
  }

  function PrintTest(t: Test, k: seq<Token>): seq<Token>
    decreases t
  {
    Cons(Identifier(t.name),
         if ListTest(t.name) then Cons(ParenOpen, PrintTests(t.children, Cons(ParenClose, k)))
         else if t.name == "not" then PrintTests(t.children, k)
         else PrintArguments(t.args, k))
  }

  function PrintTests(tests: seq<Test>, k: seq<Token>): seq<Token>
    decreases tests
  {
    if tests == [] then k
    else if |tests| == 1 then PrintTest(tests[0], k)
    else PrintTest(tests[0], Cons(Comma, PrintTests(tests[1..], k)))
  }

  function PrintCommands(cs: seq<Command>, k: seq<Token>): seq<Token>
    decreases cs
  {
    if cs == [] then k else PrintCommand(cs[0], PrintCommands(cs[1..], k))
  }

  function PrintCommand(c: Command, k: seq<Token>): seq<Token>
    decreases c
  {
    match c
    case Action(name, args) => Cons(Identifier(name), PrintArguments(args, Cons(Semicolon, k)))
    case If(branches, otherwise) =>
      Cons(Identifier("if"), PrintBranches(branches, PrintElse(otherwise, k)))
  }

  function PrintElse(o: Otherwise, k: seq<Token>): seq<Token>
    decreases o
  {
    match o
    case NoElse => k
    case Else(body) =>
      Cons(Identifier("else"), Cons(BraceOpen, PrintCommands(body, Cons(BraceClose, k))))
  }

  function PrintBranches(bs: seq<Branch>, k: seq<Token>): seq<Token>
    decreases bs
  {
    if bs == [] then k
    else if |bs| == 1 then PrintBranch(bs[0], k)
    else PrintBranch(bs[0], Cons(Identifier("elsif"), PrintBranches(bs[1..], k)))
  }

  function PrintBranch(b: Branch, k: seq<Token>): seq<Token>
    decreases b
  {
    PrintTest(b.test, Cons(BraceOpen, PrintCommands(b.body, Cons(BraceClose, k))))
  }

  function Print(script: seq<Command>): seq<Token> {
    PrintCommands(script, [])
  }

  // ----- Which trees a script can stand for -----

  predicate ArgumentsOk(args: seq<Argument>) {
    forall i :: 0 <= i < |args| ==> args[i].StrList? ==> args[i].items != []
  }

  predicate TestOk(t: Test)
    decreases t
  {
    if ListTest(t.name) then t.args == [] && t.children != [] && TestsOk(t.children)
    else if t.name == "not" then t.args == [] && |t.children| == 1 && TestsOk(t.children)
    else ArgumentsOk(t.args) && t.children == []
  }

  predicate TestsOk(tests: seq<Test>)
    decreases tests
  {
    tests == [] || (TestOk(tests[0]) && TestsOk(tests[1..]))
  }

  /** Whether a conditional would swallow the command behind it: no else, and a keyword next. */
  predicate Swallows(c: Command, next: Command) {
    c.If? && c.otherwise.NoElse? && next.Action? && (next.name == "elsif" || next.name == "else")
  }

  predicate CommandsOk(cs: seq<Command>)
    decreases cs
  {
    || cs == []
    || (&& CommandOk(cs[0])
        && CommandsOk(cs[1..])
        && (|cs| > 1 ==> !Swallows(cs[0], cs[1])))
  }

  predicate CommandOk(c: Command)
    decreases c
  {
    match c
    case Action(name, args) => name != "if" && ArgumentsOk(args)
    case If(branches, otherwise) => branches != [] && BranchesOk(branches) && OtherwiseOk(otherwise)
  }

  predicate OtherwiseOk(o: Otherwise)
    decreases o
  {
    o.Else? ==> CommandsOk(o.body)
  }

  predicate BranchesOk(bs: seq<Branch>)
    decreases bs
  {
    bs == [] || (BranchOk(bs[0]) && BranchesOk(bs[1..]))
  }

  predicate BranchOk(b: Branch)
    decreases b
  {
    TestOk(b.test) && CommandsOk(b.body)
  }

  // ----- How deep a tree nests -----

  function TestDepth(t: Test): nat
    decreases t
  {
    (if ListTest(t.name) || t.name == "not" then 1 else 0) + TestsDepth(t.children)
  }

  function TestsDepth(tests: seq<Test>): nat
    decreases tests
  {
    if tests == [] then 0 else Max(TestDepth(tests[0]), TestsDepth(tests[1..]))
  }

  /** The deepest command, not counting the level the commands themselves open. */
  function CommandsDepth(cs: seq<Command>): nat
    decreases cs
  {
    if cs == [] then 0 else Max(CommandDepth(cs[0]), CommandsDepth(cs[1..]))
  }

  function CommandDepth(c: Command): nat
    decreases c
  {
    match c
    case Action(_, _) => 0
    case If(branches, otherwise) => Max(BranchesDepth(branches), OtherwiseDepth(otherwise))
  }

  function OtherwiseDepth(o: Otherwise): nat
    decreases o
  {
    if o.NoElse? then 0 else 1 + CommandsDepth(o.body)
  }

  function BranchesDepth(bs: seq<Branch>): nat
    decreases bs
  {
    if bs == [] then 0 else Max(BranchDepth(bs[0]), BranchesDepth(bs[1..]))
  }

  function BranchDepth(b: Branch): nat
    decreases b
  {
    Max(TestDepth(b.test), 1 + CommandsDepth(b.body))
  }

  function Depth(script: seq<Command>): nat {
    1 + CommandsDepth(script)
  }

  // ----- What a printed tree parses to -----

  lemma {:induction false} ItemsPrinted(items: seq<string>, k: seq<Token>)
    requires items != []
    ensures ParseItems(PrintItems(items, k)) == Parsed(items, k)
  {
    if |items| == 1 {
      assert PrintItems(items, k)[1..] == Cons(BracketClose, k);
      assert PrintItems(items, k)[2..] == k;
      assert items == [items[0]];
    } else {
      var tail := PrintItems(items[1..], k);
      ItemsPrinted(items[1..], k);
      assert PrintItems(items, k)[1..] == Cons(Comma, tail);
      assert PrintItems(items, k)[2..] == tail;
      assert items == [items[0]] + items[1..];
    }
  }

  lemma {:induction false} ArgumentPrinted(a: Argument, k: seq<Token>)
    requires a.StrList? ==> a.items != []
    ensures BeginsArgument(PrintArgument(a, k))
    ensures ParseArgument(PrintArgument(a, k)) == Parsed(a, k)
  {
    if a.StrList? {
      ItemsPrinted(a.items, k);
    }
  }

  lemma {:induction false} ArgumentsPrinted(args: seq<Argument>, k: seq<Token>)
    requires ArgumentsOk(args) && !BeginsArgument(k)
    ensures ParseArguments(PrintArguments(args, k)) == Parsed(args, k)
  {
    if args != [] {
      ArgumentPrinted(args[0], PrintArguments(args[1..], k));
      ArgumentsPrinted(args[1..], k);
      assert args == [args[0]] + args[1..];
    }
  }

  lemma {:induction false} TestPrinted(t: Test, k: seq<Token>, d: nat)
    requires TestOk(t) && d + TestDepth(t) <= MAX_NESTING && !BeginsArgument(k)
    ensures ParseTest(PrintTest(t, k), d) == Parsed(t, k)
    decreases t
  {
    if ListTest(t.name) {
      TestsPrinted(t.children, Cons(ParenClose, k), d + 1);
    } else if t.name == "not" {
      var inner := t.children[0];
      assert t.children == [inner];
      assert TestsDepth(t.children) == TestDepth(inner) by {
        assert t.children[1..] == [];
      }
      TestPrinted(inner, k, d + 1);
    } else {
      ArgumentsPrinted(t.args, k);
    }
  }

  lemma {:induction false} TestsPrinted(tests: seq<Test>, k: seq<Token>, d: nat)
    requires tests != [] && TestsOk(tests) && d + TestsDepth(tests) <= MAX_NESTING
    requires !BeginsArgument(k) && !Starts(k, Comma)
    ensures ParseTests(PrintTests(tests, k), d) == Parsed(tests, k)
    decreases tests
  {
    if |tests| == 1 {
      assert tests == [tests[0]];
      TestPrinted(tests[0], k, d);
    } else {
      assert tests == [tests[0]] + tests[1..];
      TestPrinted(tests[0], Cons(Comma, PrintTests(tests[1..], k)), d);
      TestsPrinted(tests[1..], k, d);
    }
  }

  /** The tokens that may follow a command without being taken as part of it. */
  predicate Follows(c: Command, k: seq<Token>) {
    c.If? && c.otherwise.NoElse? ==>
      !Starts(k, Identifier("elsif")) && !Starts(k, Identifier("else"))
  }

  lemma {:induction false} NextFollows(cs: seq<Command>, k: seq<Token>)
    requires cs != [] && CommandsOk(cs)
    requires k == [] || k[0] == BraceClose
    ensures Follows(cs[0], PrintCommands(cs[1..], k))
  {
    if |cs| > 1 {
      assert cs[1..][0] == cs[1];
    }
  }

  lemma {:induction false} CommandsPrinted(cs: seq<Command>, k: seq<Token>, block: bool, d: nat)
    requires CommandsOk(cs) && d + CommandsDepth(cs) <= MAX_NESTING
    requires if block then Starts(k, BraceClose) else k == []
    ensures ParseCommands(PrintCommands(cs, k), block, d) == Parsed(cs, k)
    decreases cs, 1
  {
    if cs != [] {
      var rest := PrintCommands(cs[1..], k);
      NextFollows(cs, k);
      CommandPrinted(cs[0], rest, d);
      CommandsPrinted(cs[1..], k, block, d);
      assert cs == [cs[0]] + cs[1..];
      BeginsWithName(cs[0], rest);
      OneAndMore(PrintCommand(cs[0], rest), rest, cs[0], cs[1..], k, block, d);
    }
  }

  lemma {:induction false} BeginsWithName(c: Command, k: seq<Token>)
    ensures PrintCommand(c, k) != [] && PrintCommand(c, k)[0].Identifier?
  {
  }

  lemma {:induction false} OneAndMore(ts: seq<Token>, rest: seq<Token>, c: Command, more: seq<Command>, k: seq<Token>, block: bool, d: nat)
    requires ts != [] && ts[0] != BraceClose
    requires ParseCommand(ts, d) == Parsed(c, rest) && ParseCommands(rest, block, d) == Parsed(more, k)
    ensures ParseCommands(ts, block, d) == Parsed([c] + more, k)
  {
  }

  lemma {:induction false} CommandPrinted(c: Command, k: seq<Token>, d: nat)
    requires CommandOk(c) && d + CommandDepth(c) <= MAX_NESTING && Follows(c, k)
    ensures ParseCommand(PrintCommand(c, k), d) == Parsed(c, k)
    decreases c, 1
  {
    match c
    case Action(name, args) =>
      ArgumentsPrinted(args, Cons(Semicolon, k));
    case If(branches, otherwise) =>
      ConditionalPrinted(branches, otherwise, k, d);
  }

  lemma {:induction false} ConditionalPrinted(bs: seq<Branch>, o: Otherwise, k: seq<Token>, d: nat)
    requires bs != [] && BranchesOk(bs) && OtherwiseOk(o) && Follows(If(bs, o), k)
    requires d + BranchesDepth(bs) <= MAX_NESTING && d + OtherwiseDepth(o) <= MAX_NESTING
    ensures ParseConditional(PrintBranches(bs, PrintElse(o, k)), d) == Parsed(If(bs, o), k)
    decreases If(bs, o), 0
  {
    BranchesPrinted(bs, PrintElse(o, k), d);
    if o.Else? {
      BlockPrinted(o.body, k, d);
    }
  }

  lemma {:induction false} BranchesPrinted(bs: seq<Branch>, k: seq<Token>, d: nat)
    requires bs != [] && BranchesOk(bs) && d + BranchesDepth(bs) <= MAX_NESTING
    requires !Starts(k, Identifier("elsif"))
    ensures ParseBranches(PrintBranches(bs, k), d) == Parsed(bs, k)
    decreases bs
  {
    if |bs| == 1 {
      assert bs == [bs[0]];
      BranchPrinted(bs[0], k, d);
    } else {
      assert bs == [bs[0]] + bs[1..];
      BranchPrinted(bs[0], Cons(Identifier("elsif"), PrintBranches(bs[1..], k)), d);
      BranchesPrinted(bs[1..], k, d);
    }
  }

  lemma {:induction false} BranchPrinted(b: Branch, k: seq<Token>, d: nat)
    requires BranchOk(b) && d + BranchDepth(b) <= MAX_NESTING
    ensures ParseBranch(PrintBranch(b, k), d) == Parsed(b, k)
    decreases b
  {
    TestPrinted(b.test, Cons(BraceOpen, PrintCommands(b.body, Cons(BraceClose, k))), d);
    BlockPrinted(b.body, k, d);
  }

  lemma {:induction false} BlockPrinted(body: seq<Command>, k: seq<Token>, d: nat)
    requires CommandsOk(body) && d + 1 + CommandsDepth(body) <= MAX_NESTING
    ensures ParseBlock(Cons(BraceOpen, PrintCommands(body, Cons(BraceClose, k))), d) == Parsed(body, k)
    decreases body, 2
  {
    CommandsPrinted(body, Cons(BraceClose, k), true, d + 1);
  }

  // ----- What a parsed tree prints to -----

  /** A multi-line string stands for the same text as a quoted one. */
  function Plain(t: Token): Token {
    if t.MultiLine? then QuotedString(t.text) else t
  }

  function Normal(ts: seq<Token>): (r: seq<Token>)
    ensures |r| == |ts|
  {
    if ts == [] then [] else Cons(Plain(ts[0]), Normal(ts[1..]))
  }

  lemma {:induction false} ItemsRead(ts: seq<Token>)
    requires ParseItems(ts).Parsed?
    ensures ParseItems(ts).value != []
    ensures Normal(ts) == PrintItems(ParseItems(ts).value, Normal(ParseItems(ts).rest))
  {
    assert ts[1..][1..] == ts[2..];
    assert Normal(ts[1..]) == Cons(ts[1], Normal(ts[2..]));
    if ts[1] == Comma {
      ItemsRead(ts[2..]);
      assert ParseItems(ts).value[1..] == ParseItems(ts[2..]).value;
    }
  }

  lemma {:induction false} ArgumentRead(ts: seq<Token>)
    requires BeginsArgument(ts) && ParseArgument(ts).Parsed?
    ensures ArgumentsOk([ParseArgument(ts).value])
    ensures Normal(ts) == PrintArgument(ParseArgument(ts).value, Normal(ParseArgument(ts).rest))
  {
    if ts[0].BracketOpen? {
      ItemsRead(ts[1..]);
    }
  }

  lemma {:induction false} ArgumentsRead(ts: seq<Token>)
    requires ParseArguments(ts).Parsed?
    ensures ArgumentsOk(ParseArguments(ts).value) && !BeginsArgument(ParseArguments(ts).rest)
    ensures Normal(ts) == PrintArguments(ParseArguments(ts).value, Normal(ParseArguments(ts).rest))
    decreases |ts|
  {
    if BeginsArgument(ts) {
      ArgumentRead(ts);
      ArgumentsRead(ParseArgument(ts).rest);
      var args := ParseArguments(ts).value;
      var more := ParseArguments(ParseArgument(ts).rest).value;
      assert args == [ParseArgument(ts).value] + more && args[1..] == more;
      assert [ParseArgument(ts).value][0] == args[0];
    }
  }

  lemma {:induction false} TestRead(ts: seq<Token>, d: nat)
    requires ParseTest(ts, d).Parsed? && d <= MAX_NESTING
    ensures TestOk(ParseTest(ts, d).value)
    ensures d + TestDepth(ParseTest(ts, d).value) <= MAX_NESTING
    ensures Normal(ts) == PrintTest(ParseTest(ts, d).value, Normal(ParseTest(ts, d).rest))
    decreases |ts|, 0
  {
    var rest := ts[1..];
    if ListTest(ts[0].name) {
      TestsRead(rest[1..], d + 1);
    } else if ts[0].name == "not" {
      TestRead(rest, d + 1);
      NotRead(ts, d);
    } else {
      ArgumentsRead(rest);
    }
  }

  /** A test read: what it is, how deep, and how it prints. */
  ghost predicate ReadAs(ts: seq<Token>, d: nat)
    requires ParseTest(ts, d).Parsed?
  {
    var p := ParseTest(ts, d);
    TestOk(p.value) && d + TestDepth(p.value) <= MAX_NESTING && Normal(ts) == PrintTest(p.value, Normal(p.rest))
  }

  lemma {:induction false} NotRead(ts: seq<Token>, d: nat)
    requires ParseTest(ts, d).Parsed? && ts[0] == Identifier("not") && !ListTest("not")
    requires ParseTest(ts[1..], d + 1).Parsed? && ReadAs(ts[1..], d + 1)
    ensures ReadAs(ts, d)
  {
    OneTestDepth(ParseTest(ts[1..], d + 1).value);
  }

  lemma {:induction false} OneTestDepth(inner: Test)
    ensures [inner][1..] == [] && TestsDepth([inner]) == TestDepth(inner) && (TestsOk([inner]) <==> TestOk(inner))
  {
  }

  lemma {:induction false} TestsRead(ts: seq<Token>, d: nat)
    requires ParseTests(ts, d).Parsed? && d <= MAX_NESTING
    ensures ParseTests(ts, d).value != [] && TestsOk(ParseTests(ts, d).value)
    ensures d + TestsDepth(ParseTests(ts, d).value) <= MAX_NESTING
    ensures Normal(ts) == PrintTests(ParseTests(ts, d).value, Normal(ParseTests(ts, d).rest))
    decreases |ts|, 1
  {
    TestRead(ts, d);
    var tests := ParseTests(ts, d).value;
    var rest := ParseTest(ts, d).rest;
    if Starts(rest, Comma) {
      TestsRead(rest[1..], d);
      assert tests[1..] == ParseTests(rest[1..], d).value;
    } else {
      assert tests[1..] == [];
    }
  }

  lemma {:induction false} CommandsRead(ts: seq<Token>, block: bool, d: nat)
    requires ParseCommands(ts, block, d).Parsed? && d <= MAX_NESTING
    ensures CommandsOk(ParseCommands(ts, block, d).value)
    ensures d + CommandsDepth(ParseCommands(ts, block, d).value) <= MAX_NESTING
    ensures Normal(ts) == PrintCommands(ParseCommands(ts, block, d).value, Normal(ParseCommands(ts, block, d).rest))
    ensures ParseCommands(ts, block, d).rest == [] || (block && Starts(ParseCommands(ts, block, d).rest, BraceClose))
    decreases |ts|, 2
  {
    if ts != [] && !(block && ts[0] == BraceClose) {
      CommandRead(ts, d);
      var rest := ParseCommand(ts, d).rest;
      CommandsRead(rest, block, d);
      var cs := ParseCommands(ts, block, d).value;
      var more := ParseCommands(rest, block, d).value;
      assert cs == [ParseCommand(ts, d).value] + more && cs[1..] == more;
      if more != [] {
        NotSwallowed(cs[0], rest, block, d);
      }
    }
  }

  lemma {:induction false} NotSwallowed(c: Command, ts: seq<Token>, block: bool, d: nat)
    requires Follows(c, ts)
    requires ParseCommands(ts, block, d).Parsed? && ParseCommands(ts, block, d).value != []
    ensures !Swallows(c, ParseCommands(ts, block, d).value[0])
  {
    var next := ParseCommand(ts, d).value;
    assert ParseCommands(ts, block, d).value[0] == next;
    if ts[0].name == "if" {
      assert ParseCommand(ts, d) == ParseConditional(ts[1..], d);
    } else {
      assert ParseCommand(ts, d) == ParseAction(ts[0].name, ts[1..]);
    }
  }

  lemma {:induction false} CommandRead(ts: seq<Token>, d: nat)
    requires ParseCommand(ts, d).Parsed? && d <= MAX_NESTING
    ensures CommandOk(ParseCommand(ts, d).value) && Follows(ParseCommand(ts, d).value, ParseCommand(ts, d).rest)
    ensures d + CommandDepth(ParseCommand(ts, d).value) <= MAX_NESTING
    ensures Normal(ts) == PrintCommand(ParseCommand(ts, d).value, Normal(ParseCommand(ts, d).rest))
    decreases |ts|, 1
  {
    var rest := ts[1..];
    if ts[0].name == "if" {
      assert ParseCommand(ts, d) == ParseConditional(rest, d);
      ConditionalRead(rest, d);
    } else {
      assert ParseCommand(ts, d) == ParseAction(ts[0].name, rest);
      ArgumentsRead(rest);
    }
  }

  lemma {:induction false} ConditionalRead(ts: seq<Token>, d: nat)
    requires ParseConditional(ts, d).Parsed? && d <= MAX_NESTING
    ensures ParseConditional(ts, d).value.If? && CommandOk(ParseConditional(ts, d).value)
    ensures Follows(ParseConditional(ts, d).value, ParseConditional(ts, d).rest)
    ensures d + CommandDepth(ParseConditional(ts, d).value) <= MAX_NESTING
    ensures Cons(Identifier("if"), Normal(ts))
         == PrintCommand(ParseConditional(ts, d).value, Normal(ParseConditional(ts, d).rest))
    decreases |ts|, 4
  {
    BranchesRead(ts, d);
    var k := ParseBranches(ts, d).rest;
    if Starts(k, Identifier("else")) {
      BlockRead(k[1..], d);
    }
  }

  lemma {:induction false} BranchesRead(ts: seq<Token>, d: nat)
    requires ParseBranches(ts, d).Parsed? && d <= MAX_NESTING
    ensures ParseBranches(ts, d).value != [] && BranchesOk(ParseBranches(ts, d).value)
    ensures d + BranchesDepth(ParseBranches(ts, d).value) <= MAX_NESTING
    ensures Normal(ts) == PrintBranches(ParseBranches(ts, d).value, Normal(ParseBranches(ts, d).rest))
    ensures !Starts(ParseBranches(ts, d).rest, Identifier("elsif"))
    decreases |ts|, 3
  {
    BranchRead(ts, d);
    var bs := ParseBranches(ts, d).value;
    var rest := ParseBranch(ts, d).rest;
    if Starts(rest, Identifier("elsif")) {
      BranchesRead(rest[1..], d);
      assert bs[1..] == ParseBranches(rest[1..], d).value;
    } else {
      assert bs[1..] == [];
    }
  }

  lemma {:induction false} BranchRead(ts: seq<Token>, d: nat)
    requires ParseBranch(ts, d).Parsed? && d <= MAX_NESTING
    ensures BranchOk(ParseBranch(ts, d).value)
    ensures d + BranchDepth(ParseBranch(ts, d).value) <= MAX_NESTING
    ensures Normal(ts) == PrintBranch(ParseBranch(ts, d).value, Normal(ParseBranch(ts, d).rest))
    decreases |ts|, 2
  {
    TestRead(ts, d);
    BlockRead(ParseTest(ts, d).rest, d);
  }

  lemma {:induction false} BlockIs(ts: seq<Token>, d: nat)
    requires ParseBlock(ts, d).Parsed?
    ensures ts != [] && ts[0] == BraceOpen && d + 1 <= MAX_NESTING
    ensures var (p, block) := (ParseCommands(ts[1..], true, d + 1), ParseBlock(ts, d));
            p.Parsed? && p.value == block.value && p.rest != [] && p.rest[0] == BraceClose && block.rest == p.rest[1..]
  {
  }

  lemma {:induction false} NormalBraces(ts: seq<Token>, rest: seq<Token>)
    requires ts != [] && ts[0] == BraceOpen && rest != [] && rest[0] == BraceClose
    ensures Normal(ts) == Cons(BraceOpen, Normal(ts[1..])) && Normal(rest) == Cons(BraceClose, Normal(rest[1..]))
  {
  }

  lemma {:induction false} BlockRead(ts: seq<Token>, d: nat)
    requires ParseBlock(ts, d).Parsed? && d <= MAX_NESTING
    ensures CommandsOk(ParseBlock(ts, d).value)
    ensures d + 1 + CommandsDepth(ParseBlock(ts, d).value) <= MAX_NESTING
    ensures Normal(ts) == Cons(BraceOpen, PrintCommands(ParseBlock(ts, d).value, Cons(BraceClose, Normal(ParseBlock(ts, d).rest))))
    decreases |ts|, 0
  {
    BlockIs(ts, d);
    CommandsRead(ts[1..], true, d + 1);
    NormalBraces(ts, ParseCommands(ts[1..], true, d + 1).rest);
  }

  // ----- Multi-line strings are interchangeable with quoted ones -----

  function PlainError(e: ParseError): ParseError {
    if e.Unexpected? then Unexpected(Plain(e.token)) else e
  }

  /** The outcome of a parse, with every token it mentions made plain. */
  function Plainly<T>(p: Parsed<T>): Parsed<T> {
    match p
    case Parsed(value, rest) => Parsed(value, Normal(rest))
    case Failed(e, rest) => Failed(PlainError(e), Normal(rest))
  }

  lemma {:induction false} StartsPlain(ts: seq<Token>, t: Token)
    requires !t.MultiLine? && !t.QuotedString?
    ensures Starts(Normal(ts), t) == Starts(ts, t)
    ensures Starts(ts, t) ==> Normal(ts)[1..] == Normal(ts[1..])
  {
  }

  lemma {:induction false} ItemsPlain(ts: seq<Token>)
    ensures ParseItems(Normal(ts)) == Plainly(ParseItems(ts))
  {
    if |ts| >= 2 {
      assert ts[1..][1..] == ts[2..];
      assert Normal(ts)[1..] == Normal(ts[1..]);
      assert Normal(ts)[2..] == Normal(ts[1..])[1..] == Normal(ts[2..]);
      assert Normal(ts)[1] == Normal(ts[1..])[0] == Plain(ts[1]);
      ItemsPlain(ts[2..]);
    }
  }

  lemma {:induction false} ArgumentsPlain(ts: seq<Token>)
    ensures ParseArguments(Normal(ts)) == Plainly(ParseArguments(ts))
    decreases |ts|
  {
    if BeginsArgument(ts) {
      if ts[0].BracketOpen? {
        ItemsPlain(ts[1..]);
      }
      assert ParseArgument(Normal(ts)) == Plainly(ParseArgument(ts));
      if ParseArgument(ts).Parsed? {
        ArgumentsPlain(ParseArgument(ts).rest);
      }
    }
  }

  lemma {:induction false} TestPlain(ts: seq<Token>, d: nat)
    ensures ParseTest(Normal(ts), d) == Plainly(ParseTest(ts, d))
    decreases |ts|, 0
  {
    if ParseIdentifier(ts).Parsed? {
      var rest := ts[1..];
      if ListTest(ts[0].name) {
        ListTestPlain(ts[0].name, rest, d);
      } else if ts[0].name == "not" {
        TestPlain(rest, d + 1);
      } else {
        ArgumentsPlain(rest);
      }
    }
  }

  lemma {:induction false} ListTestPlain(name: string, ts: seq<Token>, d: nat)
    ensures ParseListTest(name, Normal(ts), d) == Plainly(ParseListTest(name, ts, d))
    decreases |ts|, 2
  {
    if ts != [] {
      TestsPlain(ts[1..], d + 1);
    }
  }

  lemma {:induction false} TestsPlain(ts: seq<Token>, d: nat)
    ensures ParseTests(Normal(ts), d) == Plainly(ParseTests(ts, d))
    decreases |ts|, 1
  {
    TestPlain(ts, d);
    var p := ParseTest(ts, d);
    if p.Parsed? && Starts(p.rest, Comma) {
      TestsPlain(p.rest[1..], d);
    }
  }

  lemma {:induction false} CommandsPlain(ts: seq<Token>, block: bool, d: nat)
    ensures ParseCommands(Normal(ts), block, d) == Plainly(ParseCommands(ts, block, d))
    decreases |ts|, 2
  {
    if ts != [] && !(block && ts[0] == BraceClose) {
      CommandPlain(ts, d);
      var p := ParseCommand(ts, d);
      if p.Parsed? {
        CommandsPlain(p.rest, block, d);
      }
    }
  }

  lemma {:induction false} CommandPlain(ts: seq<Token>, d: nat)
    ensures ParseCommand(Normal(ts), d) == Plainly(ParseCommand(ts, d))
    decreases |ts|, 1
  {
    if ParseIdentifier(ts).Parsed? {
      if ts[0].name == "if" {
        ConditionalPlain(ts[1..], d);
      } else {
        ArgumentsPlain(ts[1..]);
      }
    }
  }

  lemma {:induction false} ConditionalPlain(ts: seq<Token>, d: nat)
    ensures ParseConditional(Normal(ts), d) == Plainly(ParseConditional(ts, d))
    decreases |ts|, 4
  {
    BranchesPlain(ts, d);
    var p := ParseBranches(ts, d);
    if p.Parsed? && Starts(p.rest, Identifier("else")) {
      BlockPlain(p.rest[1..], d);
    }
  }

  lemma {:induction false} BranchesPlain(ts: seq<Token>, d: nat)
    ensures ParseBranches(Normal(ts), d) == Plainly(ParseBranches(ts, d))
    decreases |ts|, 3
  {
    BranchPlain(ts, d);
    var p := ParseBranch(ts, d);
    StartsPlain(p.rest, Identifier("elsif"));
    if p.Parsed? && Starts(p.rest, Identifier("elsif")) {
      BranchesPlain(p.rest[1..], d);
    }
  }

  lemma {:induction false} BranchPlain(ts: seq<Token>, d: nat)
    ensures ParseBranch(Normal(ts), d) == Plainly(ParseBranch(ts, d))
    decreases |ts|, 2
  {
    TestPlain(ts, d);
    var p := ParseTest(ts, d);
    if p.Parsed? {
      BlockPlain(p.rest, d);
    }
  }

  lemma {:induction false} BlockPlain(ts: seq<Token>, d: nat)
    ensures ParseBlock(Normal(ts), d) == Plainly(ParseBlock(ts, d))
    decreases |ts|, 0
  {
    StartsPlain(ts, BraceOpen);
    if Starts(ts, BraceOpen) {
      CommandsPlain(ts[1..], true, d + 1);
      StartsPlain(ParseCommands(ts[1..], true, d + 1).rest, BraceClose);
    }
  }

  // ----- The grammar -----

  /** The trees a script can stand for: every shape the printer spells unambiguously, at most 64 deep. */
  predicate Script(cs: seq<Command>) {
    CommandsOk(cs) && Depth(cs) <= MAX_NESTING
  }

  /** A printed script reads back as itself. */
  lemma {:induction false} PrintedIsRead(cs: seq<Command>)
    requires Script(cs)
    ensures ParseScript(Print(cs)) == Parsed(cs, [])
  {
    CommandsPrinted(cs, [], false, 1);
  }

  /** What is read prints back, nests at most 64 deep, and nothing is left over. */
  lemma {:induction false} ReadIsPrinted(ts: seq<Token>)
    requires ParseScript(ts).Parsed?
    ensures Script(ParseScript(ts).value) && ParseScript(ts).rest == []
    ensures Print(ParseScript(ts).value) == Normal(ts)
  {
    CommandsRead(ts, false, 1);
  }

  /** The parser accepts exactly the spellings of scripts, and reads each as the one tree it spells. */
  lemma {:induction false} ReadsExactly(ts: seq<Token>, cs: seq<Command>)
    ensures ParseScript(ts) == Parsed(cs, []) <==> Script(cs) && Print(cs) == Normal(ts)
  {
    if ParseScript(ts) == Parsed(cs, []) {
      ReadIsPrinted(ts);
    }
    if Script(cs) && Print(cs) == Normal(ts) {
      PrintedIsRead(cs);
      CommandsPlain(ts, false, 1);
      assert Plainly(ParseScript(ts)) == Parsed(cs, []);
      assert |Normal(ParseScript(ts).rest)| == |ParseScript(ts).rest|;
    }
  }

  /** No two scripts share a spelling. */
  lemma {:induction false} SpellingIsUnique(a: seq<Command>, b: seq<Command>)
    requires Script(a) && Script(b) && Print(a) == Print(b)
    ensures a == b
  {
    PrintedIsRead(a);
    PrintedIsRead(b);
  }
}
