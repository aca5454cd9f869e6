/** The Sieve parser: a cursor over the tokens and a nesting counter, proved against the grammar. */
module SieveParser {
  import opened Basics
  import opened SieveAst
  import opened SieveGrammar

  /** A parse that continues one which had already read `seen`. */
  function After<T>(seen: seq<T>, p: Parsed<seq<T>>): (r: Parsed<seq<T>>)
    ensures seen == [] ==> r == p
    ensures p.Parsed? && p.value == [] ==> r == Parsed(seen, p.rest)
  {
    match p
    case Parsed(more, rest) =>
      assert seen == [] ==> seen + more == more;
      assert more == [] ==> seen + more == seen;
      Parsed(seen + more, rest)
    case Failed(e, rest) => Failed(e, rest)
  }

  lemma {:induction false} AfterOne<T>(seen: seq<T>, x: T, p: Parsed<seq<T>>)
    ensures After(seen, After([x], p)) == After(seen + [x], p)
  {
    if p.Parsed? {
      assert seen + ([x] + p.value) == (seen + [x]) + p.value;
    }
  }

  /** The tests behind the first of a list. */
  function MoreTests(ts: seq<Token>, d: nat): Parsed<seq<Test>> {
    if Starts(ts, Comma) then ParseTests(ts[1..], d) else Parsed([], ts)
  }

  lemma {:induction false} TestsStep(ts: seq<Token>, d: nat)
    requires ParseTest(ts, d).Parsed?
    ensures ParseTests(ts, d) == After([ParseTest(ts, d).value], MoreTests(ParseTest(ts, d).rest, d))
  {
  }

  lemma {:induction false} TestsFail(ts: seq<Token>, d: nat)
    requires ParseTest(ts, d).Failed?
    ensures ParseTests(ts, d) == Failed(ParseTest(ts, d).error, ParseTest(ts, d).rest)
  {
  }

  /** The branches behind the first of a conditional. */
  function MoreBranches(ts: seq<Token>, d: nat): Parsed<seq<Branch>> {
    if Starts(ts, Identifier("elsif")) then ParseBranches(ts[1..], d) else Parsed([], ts)
  }

  lemma {:induction false} BranchesStep(ts: seq<Token>, d: nat)
    requires ParseBranch(ts, d).Parsed?
    ensures ParseBranches(ts, d) == After([ParseBranch(ts, d).value], MoreBranches(ParseBranch(ts, d).rest, d))
  {
  }

  lemma {:induction false} BranchesFail(ts: seq<Token>, d: nat)
    requires ParseBranch(ts, d).Failed?
    ensures ParseBranches(ts, d) == Failed(ParseBranch(ts, d).error, ParseBranch(ts, d).rest)
  {
  }

  lemma {:induction false} CommandsStep(ts: seq<Token>, block: bool, d: nat)
    requires ts != [] && !(block && ts[0] == BraceClose) && ParseCommand(ts, d).Parsed?
    ensures ParseCommands(ts, block, d)
         == After([ParseCommand(ts, d).value], ParseCommands(ParseCommand(ts, d).rest, block, d))
  {
  }

  lemma {:induction false} ArgumentsStep(ts: seq<Token>)
    requires BeginsArgument(ts) && ParseArgument(ts).Parsed?
    ensures ParseArguments(ts) == After([ParseArgument(ts).value], ParseArguments(ParseArgument(ts).rest))
  {
  }

  lemma {:induction false} ItemsStep(ts: seq<Token>)
    requires |ts| >= 2 && (ts[0].QuotedString? || ts[0].MultiLine?) && ts[1] == Comma
    ensures ParseItems(ts) == After([ts[0].text], ParseItems(ts[2..]))
  {
  }

  /** A block or a script: one level deeper, then commands. */
  function Opened(ts: seq<Token>, block: bool, d: nat): Parsed<seq<Command>> {
    if d + 1 > MAX_NESTING then Failed(NestingDepth(d + 1, MAX_NESTING), ts)
    else ParseCommands(ts, block, d + 1)
  }

  /** A list of tests: one level deeper, then tests. */
  function Listed(ts: seq<Token>, d: nat): Parsed<seq<Test>> {
    if d + 1 > MAX_NESTING then Failed(NestingDepth(d + 1, MAX_NESTING), ts)
    else ParseTests(ts, d + 1)
  }

  class Parser {
    const tokens: seq<Token>
    var pos: nat
    var depth: nat

    constructor (tokens: seq<Token>)
      ensures this.tokens == tokens && pos == 0 && depth == 0 && Valid()
    {
      this.tokens := tokens;
      pos := 0;
      depth := 0;
    }

    predicate Valid()
      reads this
    {
      pos <= |tokens|
    }

    /** The tokens still unread. */
    function Ahead(): seq<Token>
      requires Valid()
      reads this
    {
      tokens[pos..]
    }

    /** The parser did what `p` says, and a token it rejected is the one before the cursor. */
    ghost predicate Did<T(!new)>(r: Result<T, ParseError>, p: Parsed<T>)
      reads this
    {
      && Valid()
      && Ahead() == p.rest
      && r == (if p.Parsed? then Ok(p.value) else Err(p.error))
      && (r.Err? && r.error.Unexpected? ==> pos > 0 && tokens[pos - 1] == r.error.token)
    }

    method Next() returns (r: Result<Token, ParseError>)
      requires Valid()
      modifies this`pos
      ensures Valid()
      ensures old(pos) == |tokens| ==> r == Err(UnexpectedEof) && pos == old(pos)
      ensures old(pos) < |tokens| ==> r == Ok(tokens[old(pos)]) && pos == old(pos) + 1
    {
      if pos == |tokens| {
        return Err(UnexpectedEof);
      }
      r := Ok(tokens[pos]);
      pos := pos + 1;
    }

    method Eat(expected: Token, what: string) returns (r: Result<(), ParseError>)
      requires Valid()
      modifies this`pos
      ensures Valid()
      ensures Starts(old(Ahead()), expected) ==> r == Ok(()) && pos == old(pos) + 1
      ensures !Starts(old(Ahead()), expected) ==> r == Err(Expected(what)) && pos == old(pos)
    {
      if pos < |tokens| && tokens[pos] == expected {
        pos := pos + 1;
        return Ok(());
      }
      return Err(Expected(what));
    }

    method Enter() returns (r: Result<nat, ParseError>)
      modifies this`depth
      ensures depth == old(depth) + 1
      ensures r == if depth > MAX_NESTING then Err(NestingDepth(depth, MAX_NESTING)) else Ok(depth)
    {
      depth := depth + 1;
      if depth > MAX_NESTING {
        return Err(NestingDepth(depth, MAX_NESTING));
      }
      return Ok(depth);
    }

    method Leave()
      modifies this`depth
      ensures depth == if old(depth) == 0 then 0 else old(depth) - 1
    {
      if depth > 0 {
        depth := depth - 1;
      }
    }

    method ReadIdentifier() returns (r: Result<string, ParseError>)
      requires Valid()
      modifies this`pos
      ensures Did(r, ParseIdentifier(old(Ahead())))
    {
      var token := Next();
      if token.Err? {
        return Err(token.error);
      }
      if token.value.Identifier? {
        return Ok(token.value.name);
      }
      return Err(Unexpected(token.value));
    }

    method StringList() returns (r: Result<Argument, ParseError>)
      requires Valid() && Starts(Ahead(), BracketOpen)
      modifies this`pos
      ensures Did(r, ParseArgument(old(Ahead())))
    {
      var open := Eat(BracketOpen, "'['");
      ghost var ts := Ahead();
      var items := [];
      while true
        invariant Valid() && pos > 0
        invariant ParseItems(ts) == After(items, ParseItems(Ahead()))
        decreases |tokens| - pos
      {
        ghost var here := Ahead();
        var text := Next();
        if text.Err? {
          return Err(text.error);
        }
        if !text.value.QuotedString? && !text.value.MultiLine? {
          return Err(Unexpected(text.value));
        }
        var next := Next();
        if next.Err? {
          return Err(next.error);
        }
        if next.value == BracketClose {
          items := items + [text.value.text];
          break;
        }
        if next.value != Comma {
          return Err(Unexpected(next.value));
        }
        assert here[2..] == Ahead();
        ItemsStep(here);
        AfterOne(items, text.value.text, ParseItems(Ahead()));
        items := items + [text.value.text];
      }
      r := Ok(StrList(items));
    }

    method Arguments() returns (r: Result<seq<Argument>, ParseError>)
      requires Valid()
      modifies this`pos
      ensures Did(r, ParseArguments(old(Ahead())))
    {
      var args: seq<Argument> := [];
      while BeginsArgument(Ahead())
        invariant Valid()
        invariant ParseArguments(old(Ahead())) == After(args, ParseArguments(Ahead()))
        decreases |tokens| - pos
      {
        ghost var ts := Ahead();
        var arg;
        if tokens[pos].BracketOpen? {
          var list := StringList();
          if list.Err? {
            return Err(list.error);
          }
          arg := list.value;
        } else {
          var token := tokens[pos];
          if token.Tag? {
            arg := Tagged(token.tag);
          } else if token.Number? {
            arg := Num(token.value);
          } else {
            arg := Str(token.text);
          }
          pos := pos + 1;
        }
        assert ParseArgument(ts) == Parsed(arg, Ahead());
        ArgumentsStep(ts);
        AfterOne(args, arg, ParseArguments(Ahead()));
        args := args + [arg];
      }
      r := Ok(args);
    }

    method ReadTest() returns (r: Result<Test, ParseError>)
      requires Valid()
      modifies this`pos, this`depth
      ensures Did(r, ParseTest(old(Ahead()), old(depth)))
      ensures r.Ok? ==> depth == old(depth)
      decreases |tokens| - pos, 0
    {
      var name := ReadIdentifier();
      if name.Err? {
        return Err(name.error);
      }
      if ListTest(name.value) {
        r := ReadListTest(name.value);
      } else if name.value == "not" {
        var entered := Enter();
        if entered.Err? {
          return Err(entered.error);
        }
        var inner := ReadTest();
        if inner.Err? {
          return Err(inner.error);
        }
        Leave();
        r := Ok(Test(name.value, [], [inner.value]));
      } else {
        var args := Arguments();
        if args.Err? {
          return Err(args.error);
        }
        r := Ok(Test(name.value, args.value, []));
      }
    }

    /** The rest of an `allof` or `anyof`. */
    method ReadListTest(name: string) returns (r: Result<Test, ParseError>)
      requires Valid()
      modifies this`pos, this`depth
      ensures Did(r, ParseListTest(name, old(Ahead()), old(depth)))
      ensures r.Ok? ==> depth == old(depth)
      decreases |tokens| - pos, 2
    {
      var open := Eat(ParenOpen, "'(' after test list");
      if open.Err? {
        return Err(open.error);
      }
      var children := TestList();
      if children.Err? {
        return Err(children.error);
      }
      var close := Eat(ParenClose, "')' after test list");
      if close.Err? {
        return Err(close.error);
      }
      r := Ok(Test(name, [], children.value));
    }

    method TestList() returns (r: Result<seq<Test>, ParseError>)
      requires Valid()
      modifies this`pos, this`depth
      ensures Did(r, Listed(old(Ahead()), old(depth)))
      ensures r.Ok? ==> depth == old(depth)
      decreases |tokens| - pos, 1
    {
      var entered := Enter();
      if entered.Err? {
        return Err(entered.error);
      }
      var first := ReadTest();
      if first.Err? {
        TestsFail(old(Ahead()), old(depth) + 1);
        return Err(first.error);
      }
      TestsStep(old(Ahead()), depth);
      r := TestTail(first.value);
      if r.Ok? {
        Leave();
      }
    }

    /** The tests behind the first, while a comma comes next. */
    method TestTail(first: Test) returns (r: Result<seq<Test>, ParseError>)
      requires Valid()
      modifies this`pos, this`depth
      ensures Did(r, After([first], MoreTests(old(Ahead()), old(depth))))
      ensures r.Ok? ==> depth == old(depth)
      decreases |tokens| - pos, 1
    {
      ghost var d, all := depth, After([first], MoreTests(Ahead(), depth));
      var tests := [first];
      while pos < |tokens| && tokens[pos] == Comma
        invariant Valid() && depth == d && pos >= old(pos)
        invariant all == After(tests, MoreTests(Ahead(), d))
        decreases |tokens| - pos
      {
        assert Starts(Ahead(), Comma) && Ahead()[1..] == tokens[pos + 1..];
        pos := pos + 1;
        ghost var ts := Ahead();
        assert all == After(tests, ParseTests(ts, d));
        var test := ReadTest();
        if test.Err? {
          TestsFail(ts, d);
          return Err(test.error);
        }
        TestsStep(ts, d);
        AfterOne(tests, test.value, MoreTests(Ahead(), d));
        tests := tests + [test.value];
      }
      r := Ok(tests);
    }

    method Commands(inBlock: bool) returns (r: Result<seq<Command>, ParseError>)
      requires Valid()
      modifies this`pos, this`depth
      ensures Did(r, Opened(old(Ahead()), inBlock, old(depth)))
      ensures r.Ok? ==> depth == old(depth)
      decreases |tokens| - pos, 2
    {
      var entered := Enter();
      if entered.Err? {
        return Err(entered.error);
      }
      var commands: seq<Command> := [];
      while pos < |tokens| && !(inBlock && tokens[pos] == BraceClose)
        invariant Valid() && depth == old(depth) + 1 && pos >= old(pos)
        invariant ParseCommands(old(Ahead()), inBlock, depth) == After(commands, ParseCommands(Ahead(), inBlock, depth))
        decreases |tokens| - pos
      {
        ghost var ts := Ahead();
        var command := ReadCommand();
        if command.Err? {
          return Err(command.error);
        }
        CommandsStep(ts, inBlock, depth);
        AfterOne(commands, command.value, ParseCommands(Ahead(), inBlock, depth));
        commands := commands + [command.value];
      }
      Leave();
      r := Ok(commands);
    }

    method ReadCommand() returns (r: Result<Command, ParseError>)
      requires Valid()
      modifies this`pos, this`depth
      ensures Did(r, ParseCommand(old(Ahead()), old(depth)))
      ensures r.Ok? ==> depth == old(depth)
      decreases |tokens| - pos, 1
    {
      var name := ReadIdentifier();
      if name.Err? {
        return Err(name.error);
      }
      if name.value == "if" {
        r := Conditional();
        return;
      }
      var args := Arguments();
      if args.Err? {
        return Err(args.error);
      }
      var end := Eat(Semicolon, "';' after action");
      if end.Err? {
        return Err(end.error);
      }
      r := Ok(Action(name.value, args.value));
    }

    method Conditional() returns (r: Result<Command, ParseError>)
      requires Valid()
      modifies this`pos, this`depth
      ensures Did(r, ParseConditional(old(Ahead()), old(depth)))
      ensures r.Ok? ==> depth == old(depth)
      decreases |tokens| - pos, 4
    {
      var branches := Branches();
      if branches.Err? {
        return Err(branches.error);
      }
      if pos < |tokens| && tokens[pos] == Identifier("else") {
        pos := pos + 1;
        var body := Block();
        if body.Err? {
          return Err(body.error);
        }
        return Ok(If(branches.value, Else(body.value)));
      }
      r := Ok(If(branches.value, NoElse));
    }

    method Branches() returns (r: Result<seq<Branch>, ParseError>)
      requires Valid()
      modifies this`pos, this`depth
      ensures Did(r, ParseBranches(old(Ahead()), old(depth)))
      ensures r.Ok? ==> depth == old(depth) && pos > old(pos)
      decreases |tokens| - pos, 3
    {
      var first := ReadBranch();
      if first.Err? {
        BranchesFail(old(Ahead()), old(depth));
        return Err(first.error);
      }
      BranchesStep(old(Ahead()), depth);
      r := BranchTail(first.value);
    }

    /** The branches behind the first, while an `elsif` comes next. */
    method BranchTail(first: Branch) returns (r: Result<seq<Branch>, ParseError>)
      requires Valid()
      modifies this`pos, this`depth
      ensures Did(r, After([first], MoreBranches(old(Ahead()), old(depth))))
      ensures r.Ok? ==> depth == old(depth) && pos >= old(pos)
      decreases |tokens| - pos, 3
    {
      ghost var d, all := depth, After([first], MoreBranches(Ahead(), depth));
      var branches := [first];
      while pos < |tokens| && tokens[pos] == Identifier("elsif")
        invariant Valid() && depth == d && pos >= old(pos)
        invariant all == After(branches, MoreBranches(Ahead(), d))
        decreases |tokens| - pos
      {
        assert Starts(Ahead(), Identifier("elsif")) && Ahead()[1..] == tokens[pos + 1..];
        pos := pos + 1;
        ghost var ts := Ahead();
        assert all == After(branches, ParseBranches(ts, d));
        var branch := ReadBranch();
        if branch.Err? {
          BranchesFail(ts, d);
          return Err(branch.error);
        }
        BranchesStep(ts, d);
        AfterOne(branches, branch.value, MoreBranches(Ahead(), d));
        branches := branches + [branch.value];
      }
      r := Ok(branches);
    }

    method ReadBranch() returns (r: Result<Branch, ParseError>)
      requires Valid()
      modifies this`pos, this`depth
      ensures Did(r, ParseBranch(old(Ahead()), old(depth)))
      ensures r.Ok? ==> depth == old(depth) && pos > old(pos)
      decreases |tokens| - pos, 2
    {
      var test := ReadTest();
      if test.Err? {
        return Err(test.error);
      }
      var body := Block();
      if body.Err? {
        return Err(body.error);
      }
      r := Ok(Branch(test.value, body.value));
    }

    method Block() returns (r: Result<seq<Command>, ParseError>)
      requires Valid()
      modifies this`pos, this`depth
      ensures Did(r, ParseBlock(old(Ahead()), old(depth)))
      ensures r.Ok? ==> depth == old(depth)
      decreases |tokens| - pos, 0
    {
      var open := Eat(BraceOpen, "'{'");
      if open.Err? {
        return Err(open.error);
      }
      var body := Commands(true);
      if body.Err? {
        return Err(body.error);
      }
      var close := Eat(BraceClose, "'}'");
      if close.Err? {
        return Err(close.error);
      }
      r := Ok(body.value);
    }
  }

  /** A script, or the error and the token it stopped at. */
  method ParseLocated(tokens: seq<Token>) returns (r: Result<seq<Command>, (ParseError, nat)>)
    ensures r.Ok? ==> Script(r.value) && Print(r.value) == Normal(tokens)
    ensures r.Err? ==> !exists cs :: Script(cs) && Print(cs) == Normal(tokens)
    ensures r.Err? ==> tokens == [] || r.error.1 < |tokens|
    ensures r.Err? && r.error.0.Unexpected? ==> r.error.1 < |tokens| && tokens[r.error.1] == r.error.0.token
  {
    var parser := new Parser(tokens);
    var commands := parser.Commands(false);
    assert tokens[0..] == tokens;
    assert Opened(tokens, false, 0) == ParseScript(tokens);
    if commands.Err? {
      forall cs ensures !(Script(cs) && Print(cs) == Normal(tokens)) {
        ReadsExactly(tokens, cs);
      }
      var at := if commands.error.Unexpected? then parser.pos - 1 else parser.pos;
      var last := if |tokens| == 0 then 0 else |tokens| - 1;
      return Err((commands.error, Min(at, last)));
    }
    ReadIsPrinted(tokens);
    assert parser.pos == |tokens|;
    r := Ok(commands.value);
  }
}
