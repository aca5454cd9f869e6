/** The tokens and the syntax tree of a Sieve script. */
module SieveAst {

  datatype Token =
    | Identifier(name: string)
    | Tag(tag: string)
    | Number(value: nat)
    | QuotedString(text: string)
    | MultiLine(text: string)
    | BracketOpen
    | BracketClose
    | ParenOpen
    | ParenClose
    | BraceOpen
    | BraceClose
    | Comma
    | Semicolon

  datatype Argument =
    | Str(text: string)
    | StrList(items: seq<string>)
    | Num(value: nat)
    | Tagged(tag: string)

  datatype Test = Test(name: string, args: seq<Argument>, children: seq<Test>)

  datatype Branch = Branch(test: Test, body: seq<Command>)

  datatype Otherwise = NoElse | Else(body: seq<Command>)

  datatype Command =
    | Action(name: string, args: seq<Argument>)
    | If(branches: seq<Branch>, otherwise: Otherwise)
}
