/** Walking a script without running it. */
module SieveAnalysis {
  import opened Basics
  import opened SieveAst
  import opened SieveGrammar
  import Text

  datatype Visit = OfAction(name: string, args: seq<Argument>) | OfTest(test: Test)

  // ----- What a script holds, by recursion over the tree -----

  function Visits(cs: seq<Command>): multiset<Visit>
    decreases cs
  {
    if cs == [] then multiset{} else CommandVisits(cs[0]) + Visits(cs[1..])
  }

  function CommandVisits(c: Command): multiset<Visit>
    decreases c
  {
    match c
    case Action(name, args) => multiset{OfAction(name, args)}
    case If(branches, otherwise) => BranchVisits(branches) + ElseVisits(otherwise)
  }

  function BranchVisits(bs: seq<Branch>): multiset<Visit>
    decreases bs
  {
    if bs == [] then multiset{}
    else TestVisits(bs[0].test) + Visits(bs[0].body) + BranchVisits(bs[1..])
  }

  function ElseVisits(o: Otherwise): multiset<Visit>
    decreases o
  {
    if o.NoElse? then multiset{} else Visits(o.body)
  }

  function TestVisits(t: Test): multiset<Visit>
    decreases t
  {
    multiset{OfTest(t)} + TestsVisits(t.children)
  }

  function TestsVisits(ts: seq<Test>): multiset<Visit>
    decreases ts
  {
    if ts == [] then multiset{} else TestVisits(ts[0]) + TestsVisits(ts[1..])
  }

  lemma {:induction false} SumRegroups<T>(a: multiset<T>, b: multiset<T>, c: multiset<T>)
    ensures a + (b + c) == (a + b) + c
  {
  }

  lemma {:induction false} TestsVisitsStep(ts: seq<Test>)
    requires ts != []
    ensures TestsVisits(ts) == TestVisits(ts[0]) + TestsVisits(ts[1..])
  {
  }

  lemma {:induction false} TestsVisitsAppend(a: seq<Test>, b: seq<Test>)
    ensures TestsVisits(a + b) == TestsVisits(a) + TestsVisits(b)
    decreases |a|
  {
    if a == [] {
      assert a + b == b;
    } else {
      TestsVisitsStep(a + b);
      TestsVisitsStep(a);
      assert (a + b)[1..] == a[1..] + b && (a + b)[0] == a[0];
      TestsVisitsAppend(a[1..], b);
      SumRegroups(TestVisits(a[0]), TestsVisits(a[1..]), TestsVisits(b));
    }
  }

  lemma {:induction false} TestsVisitsOne(t: Test)
    ensures TestsVisits([t]) == TestVisits(t)
  {
    assert [t][1..] == [];
  }

  // ----- How many blocks a script holds, which bounds the walk -----

  function Blocks(cs: seq<Command>): nat
    decreases cs
  {
    if cs == [] then 0 else CommandBlocks(cs[0]) + Blocks(cs[1..])
  }

  function CommandBlocks(c: Command): nat
    decreases c
  {
    match c
    case Action(_, _) => 0
    case If(branches, otherwise) => BranchBlocks(branches) + ElseBlocks(otherwise)
  }

  function BranchBlocks(bs: seq<Branch>): nat
    decreases bs
  {
    if bs == [] then 0 else 1 + Blocks(bs[0].body) + BranchBlocks(bs[1..])
  }

  function ElseBlocks(o: Otherwise): nat
    decreases o
  {
    if o.NoElse? then 0 else 1 + Blocks(o.body)
  }

  // ----- The two stacks -----

  function StackVisits(stack: seq<seq<Command>>): multiset<Visit> {
    if stack == [] then multiset{}
    else StackVisits(stack[..|stack| - 1]) + Visits(stack[|stack| - 1])
  }

  function StackBlocks(stack: seq<seq<Command>>): nat {
    if stack == [] then 0
    else StackBlocks(stack[..|stack| - 1]) + 1 + Blocks(stack[|stack| - 1])
  }

  lemma {:induction false} Pushed(stack: seq<seq<Command>>, block: seq<Command>)
    ensures StackVisits(stack + [block]) == StackVisits(stack) + Visits(block)
    ensures StackBlocks(stack + [block]) == StackBlocks(stack) + 1 + Blocks(block)
  {
    assert (stack + [block])[..|stack|] == stack;
  }

  lemma {:induction false} SameSum<T>(s: multiset<T>, b: multiset<T>, t: multiset<T>, x: multiset<T>, r: multiset<T>)
    ensures (s + b) + (t + x) + r == s + t + (x + b + r)
  {
  }

  lemma {:induction false} AddElse<T>(s: multiset<T>, t: multiset<T>, e: multiset<T>, due: multiset<T>, b: multiset<T>)
    requires s + t == due + b
    ensures (s + e) + t == due + (b + e)
  {
    assert (s + e) + t == (s + t) + e;
    assert due + (b + e) == (due + b) + e;
  }

  lemma {:induction false} PushedBranch(blocks: seq<seq<Command>>, tests: seq<Test>, bs: seq<Branch>)
    requires bs != []
    ensures StackVisits(blocks + [bs[0].body]) + TestsVisits(tests + [bs[0].test]) + BranchVisits(bs[1..])
         == StackVisits(blocks) + TestsVisits(tests) + BranchVisits(bs)
    ensures StackBlocks(blocks + [bs[0].body]) + BranchBlocks(bs[1..]) == StackBlocks(blocks) + BranchBlocks(bs)
  {
    var b := bs[0];
    Pushed(blocks, b.body);
    TestsVisitsAppend(tests, [b.test]);
    TestsVisitsOne(b.test);
    SameSum(StackVisits(blocks), Visits(b.body), TestsVisits(tests), TestVisits(b.test), BranchVisits(bs[1..]));
  }

  /** Puts the test and the body of every branch, and the else block, on the stacks. */
  method PushConditional(bs: seq<Branch>, o: Otherwise, blocks: seq<seq<Command>>, tests: seq<Test>)
    returns (blocks': seq<seq<Command>>, tests': seq<Test>)
    ensures StackVisits(blocks') + TestsVisits(tests')
         == StackVisits(blocks) + TestsVisits(tests) + CommandVisits(If(bs, o))
    ensures StackBlocks(blocks') == StackBlocks(blocks) + CommandBlocks(If(bs, o))
  {
    blocks', tests' := blocks, tests;
    ghost var due := StackVisits(blocks) + TestsVisits(tests) + BranchVisits(bs);
    ghost var count := StackBlocks(blocks) + BranchBlocks(bs);
    assert bs[0..] == bs;
    for j := 0 to |bs|
      invariant StackVisits(blocks') + TestsVisits(tests') + BranchVisits(bs[j..]) == due
      invariant StackBlocks(blocks') + BranchBlocks(bs[j..]) == count
    {
      assert bs[j..][1..] == bs[j + 1..];
      PushedBranch(blocks', tests', bs[j..]);
      tests' := tests' + [bs[j].test];
      blocks' := blocks' + [bs[j].body];
    }
    assert bs[|bs|..] == [];
    AddElse(StackVisits(blocks'), TestsVisits(tests'), ElseVisits(o),
            StackVisits(blocks) + TestsVisits(tests), BranchVisits(bs));
    if o.Else? {
      Pushed(blocks', o.body);
      blocks' := blocks' + [o.body];
    }
  }

  /** Visits every test on the stack and, in turn, the tests inside it. */
  method DrainTests(tests: seq<Test>, seen: seq<Visit>) returns (seen': seq<Visit>)
    ensures multiset(seen') == multiset(seen) + TestsVisits(tests)
  {
    seen' := seen;
    var stack := tests;
    while stack != []
      invariant multiset(seen') + TestsVisits(stack) == multiset(seen) + TestsVisits(tests)
      decreases |TestsVisits(stack)|
    {
      var next := stack[|stack| - 1];
      var below := stack[..|stack| - 1];
      assert stack == below + [next];
      TestsVisitsAppend(below, [next]);
      TestsVisitsOne(next);
      TestsVisitsAppend(below, next.children);
      seen' := seen' + [OfTest(next)];
      stack := below + next.children;
    }
  }

  lemma {:induction false} SawAction(seen: seq<Visit>, v: Visit, due: multiset<Visit>, later: multiset<Visit>)
    ensures multiset(seen + [v]) + due + later == multiset(seen) + due + (multiset{v} + later)
  {
  }

  lemma {:induction false} SawConditional(seen: multiset<Visit>, due: multiset<Visit>, due': multiset<Visit>,
                                          own: multiset<Visit>, later: multiset<Visit>)
    requires due' == due + own
    ensures seen + due' + later == seen + due + (own + later)
  {
  }

  /** Visits every action of one block and stacks up what its conditionals hold. */
  method WalkBlock(block: seq<Command>, blocks: seq<seq<Command>>, seen: seq<Visit>)
    returns (blocks': seq<seq<Command>>, tests: seq<Test>, seen': seq<Visit>)
    ensures multiset(seen') + (StackVisits(blocks') + TestsVisits(tests))
         == multiset(seen) + (StackVisits(blocks) + Visits(block))
    ensures StackBlocks(blocks') == StackBlocks(blocks) + Blocks(block)
  {
    blocks', tests, seen' := blocks, [], seen;
    ghost var all := multiset(seen) + (StackVisits(blocks) + Visits(block));
    ghost var count := StackBlocks(blocks) + Blocks(block);
    assert block[0..] == block;
    for i := 0 to |block|
      invariant multiset(seen') + (StackVisits(blocks') + TestsVisits(tests)) + Visits(block[i..]) == all
      invariant StackBlocks(blocks') + Blocks(block[i..]) == count
    {
      assert block[i..][1..] == block[i + 1..];
      ghost var due := StackVisits(blocks') + TestsVisits(tests);
      match block[i]
      case Action(name, args) =>
        SawAction(seen', OfAction(name, args), due, Visits(block[i + 1..]));
        seen' := seen' + [OfAction(name, args)];
      case If(branches, otherwise) =>
        blocks', tests := PushConditional(branches, otherwise, blocks', tests);
        SawConditional(multiset(seen'), due, StackVisits(blocks') + TestsVisits(tests),
                       CommandVisits(block[i]), Visits(block[i + 1..]));
    }
    assert block[|block|..] == [];
  }

  /** Visits every action and every test of a script, each exactly once, keeping its own stacks. */
  method Walk(commands: seq<Command>) returns (seen: seq<Visit>)
    ensures multiset(seen) == Visits(commands)
  {
    var blocks := [commands];
    Pushed([], commands);
    assert [] + [commands] == [commands];
    seen := [];
    while blocks != []
      invariant multiset(seen) + StackVisits(blocks) == Visits(commands)
      decreases StackBlocks(blocks)
    {
      var block := blocks[|blocks| - 1];
      var below := blocks[..|blocks| - 1];
      var tests;
      blocks, tests, seen := WalkBlock(block, below, seen);
      seen := DrainTests(tests, seen);
    }
  }

  // ----- Whether a script can send -----

  /** Equal but for the case of ASCII letters. */
  predicate Same(a: string, b: string) {
    Text.Lower(a) == Text.Lower(b)
  }

  predicate Outward(name: string) {
    Same(name, "redirect") || Same(name, "vacation") || Same(name, "reject") || Same(name, "ereject")
  }

  ghost predicate Sends(cs: seq<Command>) {
    exists v :: v in Visits(cs) && v.OfAction? && Outward(v.name)
  }

  /** Whether a script, if its text is one, names an action that sends mail. */
  method SendsMail(tokens: Option<seq<Token>>) returns (sends: bool)
    ensures sends <==> tokens.Some? && ParseScript(tokens.value).Parsed? && Sends(ParseScript(tokens.value).value)
  {
    if tokens.None? || ParseScript(tokens.value).Failed? {
      return false;
    }
    var commands := ParseScript(tokens.value).value;
    var seen := Walk(commands);
    sends := false;
    for i := 0 to |seen|
      invariant sends <==> exists j :: 0 <= j < i && seen[j].OfAction? && Outward(seen[j].name)
    {
      if seen[i].OfAction? {
        sends := sends || Outward(seen[i].name);
      }
    }
    assert forall v :: v in multiset(seen) <==> v in seen;
    assert sends ==> Sends(commands);
  }
}
