/** Quoted-printable (section 6.7 of RFC 2045): the composer's encoder and the parser's decoder. */
module QuotedPrintable {
  import opened Basics

  type byte = x: int | 0 <= x < 256

  const TAB: byte := 9
  const LF: byte := 10
  const FF: byte := 12
  const CR: byte := 13
  const SPACE: byte := 32
  const EQUALS: byte := 61
  const CRLF: seq<byte> := [CR, LF]
  const SOFT: seq<byte> := [EQUALS, CR, LF]
  const ENCODED_LINE := 76

  // ----- Line endings -----

  /** The text with each of its line breaks, however written, made CR LF. */
  function Normalised(x: seq<byte>): seq<byte>
    decreases |x|
  {
    if x == [] then []
    else if x[0] == CR then CRLF + Normalised(if |x| > 1 && x[1] == LF then x[2..] else x[1..])
    else if x[0] == LF then CRLF + Normalised(x[1..])
    else [x[0]] + Normalised(x[1..])
  }

  /** Every LF has its CR, and no CR is left at the end. */
  predicate Clean(x: seq<byte>) {
    && (forall i :: 0 <= i < |x| && x[i] == LF ==> i > 0 && x[i - 1] == CR)
    && (x != [] ==> x[|x| - 1] != CR)
  }

  /** Every CR has its LF. */
  predicate Paired(x: seq<byte>) {
    forall i :: 0 <= i < |x| && x[i] == CR ==> i + 1 < |x| && x[i + 1] == LF
  }

  lemma {:induction false} CleanAfter(front: seq<byte>, x: seq<byte>)
    requires front == CRLF || (|front| == 1 && front[0] != CR && front[0] != LF)
    requires Clean(x) && Paired(x)
    ensures Clean(front + x) && Paired(front + x)
  {
    var all := front + x;
    forall i | 0 <= i < |all| && all[i] == LF ensures i > 0 && all[i - 1] == CR {
      if i >= |front| {
        assert x[i - |front|] == LF;
        assert x[i - |front| - 1] == CR;
      }
    }
    forall i | 0 <= i < |all| && all[i] == CR ensures i + 1 < |all| && all[i + 1] == LF {
      if i >= |front| {
        assert x[i - |front|] == CR;
      }
    }
  }

  /** Normalising leaves only CRLF line endings. */
  lemma {:induction false} NormalisedIsClean(x: seq<byte>)
    ensures Clean(Normalised(x)) && Paired(Normalised(x))
    decreases |x|
  {
    if x != [] {
      var rest := if x[0] == CR && |x| > 1 && x[1] == LF then x[2..] else x[1..];
      NormalisedIsClean(rest);
      CleanAfter(if x[0] == CR || x[0] == LF then CRLF else [x[0]], Normalised(rest));
    }
  }

  lemma {:induction false} SuffixIsClean(x: seq<byte>, k: nat)
    requires Clean(x) && Paired(x) && k <= |x| && (k == 0 || x[k - 1] != CR)
    ensures Clean(x[k..]) && Paired(x[k..])
  {
    forall i | 0 <= i < |x[k..]| && x[k..][i] == LF ensures i > 0 && x[k..][i - 1] == CR {
      assert x[k + i] == LF && x[k + i - 1] == CR;
    }
    forall i | 0 <= i < |x[k..]| && x[k..][i] == CR ensures i + 1 < |x[k..]| && x[k..][i + 1] == LF {
      assert x[k + i] == CR && x[k + i + 1] == LF;
    }
  }

  /** Text that is already normalised is left as it is. */
  lemma {:induction false} NormalisedKeepsClean(x: seq<byte>)
    requires Clean(x) && Paired(x)
    ensures Normalised(x) == x
    decreases |x|
  {
    if x != [] {
      if x[0] == CR {
        SuffixIsClean(x, 2);
        NormalisedKeepsClean(x[2..]);
        assert x == CRLF + x[2..];
      } else {
        SuffixIsClean(x, 1);
        NormalisedKeepsClean(x[1..]);
        assert x == [x[0]] + x[1..];
      }
    }
  }

  /** The composer's loop over the bytes. */
  method Normalise(x: seq<byte>) returns (r: seq<byte>)
    ensures r == Normalised(x)
  {
    r := [];
    var index := 0;
    while index < |x|
      invariant 0 <= index <= |x|
      invariant r + Normalised(x[index..]) == Normalised(x)
    {
      assert x[index..][1..] == x[index + 1..];
      if x[index] == CR {
        r := r + CRLF;
        if index + 1 < |x| && x[index + 1] == LF {
          assert x[index..][2..] == x[index + 2..];
          index := index + 1;
        }
      } else if x[index] == LF {
        r := r + CRLF;
      } else {
        r := r + [x[index]];
      }
      index := index + 1;
    }
  }

  // ----- Lines -----

  /** The pieces between LFs; there is always one. */
  function Lines(x: seq<byte>): (r: seq<seq<byte>>)
    ensures r != []
  {
    if x == [] then [[]]
    else if x[0] == LF then [[]] + Lines(x[1..])
    else var rest := Lines(x[1..]); [[x[0]] + rest[0]] + rest[1..]
  }

  /** A line without one CR at its end. */
  function Stripped(line: seq<byte>): seq<byte> {
    if line != [] && line[|line| - 1] == CR then line[..|line| - 1] else line
  }

  /** Lines with their CR stripped, joined by CRLF. */
  function Joined(lines: seq<seq<byte>>): seq<byte>
    requires lines != []
  {
    if |lines| == 1 then Stripped(lines[0]) else Stripped(lines[0]) + CRLF + Joined(lines[1..])
  }

  // ----- Encoding -----

  predicate Literal(b: byte, last: bool) {
    if b == SPACE || b == TAB then !last else b != EQUALS && 0x21 <= b <= 0x7e
  }

  function HexDigit(n: nat): byte
    requires n < 16
  {
    if n < 10 then 48 + n else 55 + n
  }

  function Piece(b: byte, last: bool): (r: seq<byte>)
    ensures |r| == 1 || |r| == 3
  {
    if Literal(b, last) then [b] else [EQUALS, HexDigit(b / 16), HexDigit(b % 16)]
  }

  function Room(last: bool): nat {
    if last then ENCODED_LINE else ENCODED_LINE - 1
  }

  /** Whether a byte starts a new encoded line, `col` characters standing on this one. */
  predicate Breaks(b: byte, last: bool, col: nat) {
    col + |Piece(b, last)| > Room(last)
  }

  /** A byte as encoded, with the soft break it may need. */
  function Chunk(b: byte, last: bool, col: nat): seq<byte> {
    (if Breaks(b, last, col) then SOFT else []) + Piece(b, last)
  }

  function NextCol(b: byte, last: bool, col: nat): nat {
    (if Breaks(b, last, col) then 0 else col) + |Piece(b, last)|
  }

  /** A line from `pos` on, where `col` characters already stand on the encoded line. */
  function EncodedLine(line: seq<byte>, pos: nat, col: nat): seq<byte>
    requires pos <= |line|
    decreases |line| - pos
  {
    if pos == |line| then []
    else
      var last := pos + 1 == |line|;
      Chunk(line[pos], last, col) + EncodedLine(line, pos + 1, NextCol(line[pos], last, col))
  }

  function EncodedLines(lines: seq<seq<byte>>): seq<byte>
    requires lines != []
  {
    EncodedLine(Stripped(lines[0]), 0, 0) + (if |lines| == 1 then [] else CRLF + EncodedLines(lines[1..]))
  }

  function Encoded(x: seq<byte>): seq<byte> {
    EncodedLines(Lines(x))
  }

  /** One byte onto an encoded line. */
  method EncodeByte(byte: byte, last: bool, column: nat) returns (chunk: seq<byte>, column': nat)
    ensures chunk == Chunk(byte, last, column) && column' == NextCol(byte, last, column)
  {
    chunk, column' := [], column;
    var literal := Literal(byte, last);
    var width := if literal then 1 else 3;
    // All but the last byte of a line leave one column free.
    var room := if last then ENCODED_LINE else ENCODED_LINE - 1;
    if column + width > room {
      chunk := SOFT;
      column' := 0;
    }
    if literal {
      chunk := chunk + [byte];
    } else {
      chunk := chunk + [EQUALS, HexDigit(byte / 16), HexDigit(byte % 16)];
    }
    column' := column' + width;
  }

  lemma {:induction false} Glue(a: seq<byte>, b: seq<byte>, c: seq<byte>, d: seq<byte>)
    ensures ((a + b) + c) + d == a + ((b + c) + d)
    ensures ((a + b) + c) + d == a + (b + (c + d))
  {
  }

  method EncodeLine(line: seq<byte>) returns (r: seq<byte>)
    ensures r == EncodedLine(line, 0, 0)
  {
    r := [];
    var column: nat := 0;
    ghost var goal := EncodedLine(line, 0, 0);
    for position := 0 to |line|
      invariant r + EncodedLine(line, position, column) == goal
    {
      var chunk;
      chunk, column := EncodeByte(line[position], position + 1 == |line|, column);
      Regroup(r, chunk, EncodedLine(line, position + 1, column));
      r := r + chunk;
    }
  }

  /** The first `n` lines encoded. */
  function EncodedUpTo(lines: seq<seq<byte>>, n: nat): seq<byte>
    requires 1 <= n <= |lines|
  {
    if n == 1 then EncodedLine(Stripped(lines[0]), 0, 0)
    else (EncodedUpTo(lines, n - 1) + CRLF) + EncodedLine(Stripped(lines[n - 1]), 0, 0)
  }

  lemma {:induction false} EncodedUpToEnd(lines: seq<seq<byte>>, n: nat)
    requires 1 <= n <= |lines|
    ensures EncodedLines(lines) == EncodedUpTo(lines, n) + (if n == |lines| then [] else CRLF + EncodedLines(lines[n..]))
  {
    if n > 1 {
      EncodedUpToEnd(lines, n - 1);
      var line := EncodedLine(Stripped(lines[n - 1]), 0, 0);
      var tail := if n == |lines| then [] else CRLF + EncodedLines(lines[n..]);
      assert lines[n - 1..][1..] == lines[n..];
      assert EncodedLines(lines[n - 1..]) == line + tail;
      Glue(EncodedUpTo(lines, n - 1), CRLF, line, tail);
    }
  }

  method Encode(x: seq<byte>) returns (r: seq<byte>)
    ensures r == Encoded(x)
  {
    var lines := Lines(x);
    r := EncodeLine(Stripped(lines[0]));
    for index := 1 to |lines|
      invariant r == EncodedUpTo(lines, index)
    {
      r := r + CRLF;
      var line := EncodeLine(Stripped(lines[index]));
      r := r + line;
    }
    EncodedUpToEnd(lines, |lines|);
  }

  // ----- Every encoded line is short and printable -----

  predicate Printable(b: byte) {
    b == TAB || 0x20 <= b <= 0x7e
  }

  /** `s` is lines of at most 76 printable characters joined by CRLF, the first after `col` others. */
  predicate Fits(s: seq<byte>, col: nat)
    decreases |s|
  {
    if s == [] then col <= ENCODED_LINE
    else if |s| >= 2 && s[0] == CR && s[1] == LF then col <= ENCODED_LINE && Fits(s[2..], 0)
    else Printable(s[0]) && Fits(s[1..], col + 1)
  }

  lemma {:induction false} PieceFits(b: byte, last: bool, rest: seq<byte>, col: nat)
    requires Fits(rest, col + |Piece(b, last)|)
    ensures Fits(Piece(b, last) + rest, col)
  {
    var piece := Piece(b, last);
    var s := piece + rest;
    assert Printable(piece[0]);
    if |piece| == 1 {
      assert s[1..] == rest;
    } else {
      assert s[1..][1..] == s[2..] && s[2..][1..] == rest;
      assert s[1..][0] == piece[1] && s[2..][0] == piece[2];
      assert Fits(s[2..], col + 2);
      assert Fits(s[1..], col + 1);
    }
  }

  lemma {:induction false} SoftFits(rest: seq<byte>, col: nat)
    requires col < ENCODED_LINE && Fits(rest, 0)
    ensures Fits(SOFT + rest, col)
  {
    var s := SOFT + rest;
    assert s[1..][2..] == rest && s[1..][0] == CR && s[1..][1] == LF;
  }

  lemma {:induction false} ChunkFits(b: byte, last: bool, col: nat, rest: seq<byte>)
    requires col < ENCODED_LINE && Fits(rest, NextCol(b, last, col))
    ensures Fits(Chunk(b, last, col) + rest, col)
    ensures NextCol(b, last, col) <= Room(last)
  {
    var piece := Piece(b, last);
    if Breaks(b, last, col) {
      PieceFits(b, last, rest, 0);
      SoftFits(piece + rest, col);
      Regroup(SOFT, piece, rest);
    } else {
      PieceFits(b, last, rest, col);
      assert Chunk(b, last, col) == piece;
    }
  }

  lemma {:induction false} NextColFits(b: byte, last: bool, col: nat)
    ensures NextCol(b, last, col) <= Room(last)
  {
  }

  lemma {:induction false} LineFits(line: seq<byte>, pos: nat, col: nat, rest: seq<byte>)
    requires pos <= |line| && col <= (if pos == |line| then ENCODED_LINE else ENCODED_LINE - 1)
    requires forall c: nat :: c <= ENCODED_LINE ==> Fits(rest, c)
    ensures Fits(EncodedLine(line, pos, col) + rest, col)
    decreases |line| - pos
  {
    if pos == |line| {
      assert EncodedLine(line, pos, col) + rest == rest;
    } else {
      var last := pos + 1 == |line|;
      var col' := NextCol(line[pos], last, col);
      NextColFits(line[pos], last, col);
      LineFits(line, pos + 1, col', rest);
      var tail := EncodedLine(line, pos + 1, col');
      ChunkFits(line[pos], last, col, tail + rest);
      Regroup(Chunk(line[pos], last, col), tail, rest);
    }
  }

  lemma {:induction false} LinesFit(lines: seq<seq<byte>>)
    requires lines != []
    ensures Fits(EncodedLines(lines), 0)
  {
    var line := Stripped(lines[0]);
    if |lines| == 1 {
      LineFits(line, 0, 0, []);
    } else {
      LinesFit(lines[1..]);
      var rest := CRLF + EncodedLines(lines[1..]);
      assert rest[2..] == EncodedLines(lines[1..]);
      LineFits(line, 0, 0, rest);
    }
  }

  /** Every line of an encoding is at most 76 printable ASCII characters or tabs. */
  lemma {:induction false} EncodedFits(x: seq<byte>)
    ensures Fits(Encoded(x), 0)
  {
    LinesFit(Lines(x));
  }

  // ----- Decoding -----

  datatype Mode = Plain | AfterEquals | AfterHex(high: nat)

  /** The decoder between two bytes; `failed` once an escape was malformed. */
  datatype Decoder = Decoder(out: seq<byte>, mode: Mode, whitespace: nat, crlf: bool, failed: bool)

  const FRESH := Decoder([], Plain, 0, false, false)

  predicate AsciiWhitespace(b: byte) {
    b == SPACE || b == TAB || b == LF || b == FF || b == CR
  }

  function Hex(b: byte): Option<nat> {
    if 48 <= b <= 57 then Some(b - 48)
    else if 65 <= b <= 70 then Some(b - 65 + 10)
    else if 97 <= b <= 102 then Some(b - 97 + 10)
    else None
  }

  predicate Sane(d: Decoder) {
    d.whitespace <= |d.out| && (d.mode.AfterHex? ==> d.mode.high < 16)
  }

  /** One byte through the decoder. */
  function Feed(d: Decoder, b: byte): (r: Decoder)
    requires Sane(d)
    ensures Sane(r)
  {
    if d.failed then d
    else if b == EQUALS then
      if d.mode.Plain? then d.(mode := AfterEquals) else d.(failed := true)
    else if b == LF then
      if d.mode.AfterEquals? then d.(mode := Plain, whitespace := 0)
      else d.(out := d.out[..|d.out| - d.whitespace] + (if d.crlf then CRLF else [LF]), whitespace := 0)
    else if b == CR then d.(crlf := true)
    else match d.mode
      case Plain =>
        d.(out := d.out + [b], whitespace := if AsciiWhitespace(b) then d.whitespace + 1 else 0)
      case AfterEquals =>
        (match Hex(b)
         case Some(high) => d.(mode := AfterHex(high))
         case None => if AsciiWhitespace(b) then d else d.(failed := true))
      case AfterHex(high) =>
        (match Hex(b)
         case Some(low) => d.(out := d.out + [high * 16 + low], mode := Plain, whitespace := 0)
         case None => d.(failed := true))
  }

  function FeedAll(d: Decoder, s: seq<byte>): (r: Decoder)
    requires Sane(d)
    ensures Sane(r)
    decreases |s|
  {
    if s == [] then d else FeedAll(Feed(d, s[0]), s[1..])
  }

  function Decoded(s: seq<byte>): Option<seq<byte>> {
    var d := FeedAll(FRESH, s);
    if d.failed then None else Some(d.out)
  }

  lemma {:induction false} FailedStays(d: Decoder, s: seq<byte>)
    requires Sane(d) && d.failed
    ensures FeedAll(d, s) == d
    decreases |s|
  {
    if s != [] {
      FailedStays(d, s[1..]);
    }
  }

  method Decode(s: seq<byte>) returns (r: Option<seq<byte>>)
    ensures r == Decoded(s)
  {
    var out, mode, whitespace: nat, newline: seq<byte> := [], Plain, 0, [LF];
    ghost var d := FRESH;
    for i := 0 to |s|
      invariant d == Decoder(out, mode, whitespace, newline == CRLF, false) && Sane(d)
      invariant newline == CRLF || newline == [LF]
      invariant FeedAll(d, s[i..]) == FeedAll(FRESH, s)
    {
      assert s[i..][1..] == s[i + 1..];
      ghost var next := Feed(d, s[i]);
      if next.failed {
        FailedStays(next, s[i + 1..]);
      }
      var byte := s[i];
      if byte == EQUALS {
        if mode != Plain {
          return None;
        }
        mode := AfterEquals;
      } else if byte == LF {
        if mode == AfterEquals {
          mode := Plain;
        } else {
          out := out[..|out| - whitespace] + newline;
        }
        whitespace := 0;
      } else if byte == CR {
        newline := CRLF;
      } else {
        match mode
        case Plain =>
          whitespace := if AsciiWhitespace(byte) then whitespace + 1 else 0;
          out := out + [byte];
        case AfterEquals =>
          if Hex(byte).Some? {
            mode := AfterHex(Hex(byte).value);
          } else if !AsciiWhitespace(byte) {
            return None;
          }
        case AfterHex(high) =>
          if Hex(byte).None? {
            return None;
          }
          out := out + [high * 16 + Hex(byte).value];
          mode := Plain;
          whitespace := 0;
      }
      d := next;
    }
    r := Some(out);
  }

  // ----- Decoding an encoding -----

  lemma {:induction false} FeedBoth(d: Decoder, a: seq<byte>, b: seq<byte>)
    requires Sane(d)
    ensures FeedAll(d, a + b) == FeedAll(FeedAll(d, a), b)
    decreases |a|
  {
    if a == [] {
      assert a + b == b;
    } else {
      assert (a + b)[1..] == a[1..] + b;
      FeedBoth(Feed(d, a[0]), a[1..], b);
    }
  }

  /** Reading text, nothing failed. */
  predicate Reading(d: Decoder) {
    Sane(d) && d.mode.Plain? && !d.failed
  }

  lemma {:induction false} FeedTwo(d: Decoder, a: byte, b: byte)
    requires Sane(d)
    ensures FeedAll(d, [a, b]) == Feed(Feed(d, a), b)
  {
    assert [a, b][1..] == [b] && [b][1..] == [];
    assert FeedAll(Feed(d, a), [b]) == FeedAll(Feed(Feed(d, a), b), []);
  }

  lemma {:induction false} FeedThree(d: Decoder, a: byte, b: byte, c: byte)
    requires Sane(d)
    ensures FeedAll(d, [a, b, c]) == Feed(Feed(Feed(d, a), b), c)
  {
    assert [a, b, c][1..] == [b, c];
    FeedTwo(Feed(d, a), b, c);
  }

  lemma {:induction false} HexIsRead(n: nat)
    requires n < 16
    ensures Hex(HexDigit(n)) == Some(n) && !AsciiWhitespace(HexDigit(n)) && HexDigit(n) != EQUALS
  {
  }

  lemma {:induction false} PieceIsRead(d: Decoder, b: byte, last: bool)
    requires Reading(d)
    ensures var d' := FeedAll(d, Piece(b, last));
            && Reading(d') && d'.out == d.out + [b] && d'.crlf == d.crlf
            && (last ==> d'.whitespace == 0)
  {
    if Literal(b, last) {
      assert [b][1..] == [];
      assert FeedAll(d, [b]) == FeedAll(Feed(d, b), []);
    } else {
      HexIsRead(b / 16);
      HexIsRead(b % 16);
      FeedThree(d, EQUALS, HexDigit(b / 16), HexDigit(b % 16));
    }
  }

  lemma {:induction false} SoftIsRead(d: Decoder)
    requires Reading(d)
    ensures FeedAll(d, SOFT) == d.(crlf := true, whitespace := 0)
  {
    FeedThree(d, EQUALS, CR, LF);
  }

  lemma {:induction false} BreakIsRead(d: Decoder)
    requires Reading(d) && d.whitespace == 0
    ensures FeedAll(d, CRLF) == d.(out := d.out + CRLF, crlf := true)
  {
    FeedTwo(d, CR, LF);
  }

  lemma {:induction false} ChunkIsRead(d: Decoder, b: byte, last: bool, col: nat)
    requires Reading(d)
    ensures var d' := FeedAll(d, Chunk(b, last, col));
            Reading(d') && d'.out == d.out + [b] && (last ==> d'.whitespace == 0)
  {
    var piece := Piece(b, last);
    if Breaks(b, last, col) {
      SoftIsRead(d);
      FeedBoth(d, SOFT, piece);
      PieceIsRead(FeedAll(d, SOFT), b, last);
    } else {
      PieceIsRead(d, b, last);
      assert [] + piece == piece;
    }
  }

  lemma {:induction false} LineIsRead(d: Decoder, line: seq<byte>, pos: nat, col: nat)
    requires Reading(d) && pos <= |line| && (pos == |line| ==> d.whitespace == 0)
    ensures var d' := FeedAll(d, EncodedLine(line, pos, col));
            Reading(d') && d'.out == d.out + line[pos..] && d'.whitespace == 0
    decreases |line| - pos
  {
    if pos < |line| {
      var last := pos + 1 == |line|;
      var col' := NextCol(line[pos], last, col);
      var chunk := Chunk(line[pos], last, col);
      ChunkIsRead(d, line[pos], last, col);
      LineIsRead(FeedAll(d, chunk), line, pos + 1, col');
      FeedBoth(d, chunk, EncodedLine(line, pos + 1, col'));
      assert [line[pos]] + line[pos + 1..] == line[pos..];
      Regroup(d.out, [line[pos]], line[pos + 1..]);
    } else {
      assert line[pos..] == [];
    }
  }

  lemma {:induction false} LinesAreRead(d: Decoder, lines: seq<seq<byte>>)
    requires Reading(d) && d.whitespace == 0 && lines != []
    ensures Reading(FeedAll(d, EncodedLines(lines)))
    ensures FeedAll(d, EncodedLines(lines)).out == d.out + Joined(lines)
    decreases |lines|
  {
    var line := Stripped(lines[0]);
    var first := EncodedLine(line, 0, 0);
    LineIsRead(d, line, 0, 0);
    assert line[0..] == line;
    if |lines| == 1 {
      assert EncodedLines(lines) == first;
    } else {
      LinesAreRead(BreakRead(d, first), lines[1..]);
      MoreLinesAreRead(d, first, EncodedLines(lines[1..]));
      Glue(d.out, line, CRLF, Joined(lines[1..]));
    }
  }

  /** The decoder after a line and its break. */
  function BreakRead(d: Decoder, first: seq<byte>): Decoder
    requires Sane(d)
  {
    FeedAll(d, first).(out := FeedAll(d, first).out + CRLF, crlf := true)
  }

  lemma {:induction false} MoreLinesAreRead(d: Decoder, first: seq<byte>, tail: seq<byte>)
    requires Sane(d) && Reading(FeedAll(d, first)) && FeedAll(d, first).whitespace == 0
    ensures FeedAll(d, first + (CRLF + tail)) == FeedAll(BreakRead(d, first), tail)
  {
    var d1 := FeedAll(d, first);
    BreakIsRead(d1);
    FeedBoth(d, first, CRLF + tail);
    FeedBoth(d1, CRLF, tail);
  }

  /** Decoding an encoding always succeeds and gives the lines, each without one CR, joined by CRLF. */
  lemma {:induction false} DecodesToLines(x: seq<byte>)
    ensures Decoded(Encoded(x)) == Some(Joined(Lines(x)))
  {
    LinesAreRead(FRESH, Lines(x));
    assert [] + Joined(Lines(x)) == Joined(Lines(x));
  }

  // ----- When nothing is lost -----

  /** Every line but the last ends in CR, and the last does not. */
  predicate LinesClean(lines: seq<seq<byte>>)
    requires lines != []
  {
    if |lines| == 1 then Stripped(lines[0]) == lines[0]
    else Stripped(lines[0]) != lines[0] && LinesClean(lines[1..])
  }

  /** Lines joined by LF alone: what they were split from. */
  function Rejoined(lines: seq<seq<byte>>): seq<byte>
    requires lines != []
  {
    if |lines| == 1 then lines[0] else lines[0] + [LF] + Rejoined(lines[1..])
  }

  lemma {:induction false} RejoinedLines(x: seq<byte>)
    ensures Rejoined(Lines(x)) == x
  {
    if x != [] {
      RejoinedLines(x[1..]);
      var rest := Lines(x[1..]);
      if x[0] == LF {
        assert Lines(x)[1..] == rest;
      } else {
        assert Lines(x)[1..] == rest[1..];
      }
    }
  }

  /** Stripping and joining changes nothing exactly when every line end was CRLF. */
  lemma {:induction false} JoinedSame(lines: seq<seq<byte>>)
    requires lines != []
    ensures Joined(lines) == Rejoined(lines) <==> LinesClean(lines)
  {
    if |lines| > 1 {
      JoinedSame(lines[1..]);
      var line, a, b := lines[0], Joined(lines[1..]), Rejoined(lines[1..]);
      if Stripped(line) != line {
        assert line == Stripped(line) + [CR];
        assert Stripped(line) + CRLF + a == line + [LF] + a;
        assert (line + [LF] + a)[|line| + 1..] == a && (line + [LF] + b)[|line| + 1..] == b;
      } else {
        assert (line + CRLF + a)[|line|] == CR && (line + [LF] + b)[|line|] == LF;
      }
    }
  }

  lemma {:induction false} LinesHoldNoBreak(x: seq<byte>)
    ensures forall i :: 0 <= i < |Lines(x)| ==> LF !in Lines(x)[i]
  {
    if x != [] {
      LinesHoldNoBreak(x[1..]);
      var rest := Lines(x[1..]);
      if x[0] == LF {
        assert Lines(x) == [[]] + rest;
      } else {
        assert Lines(x) == [[x[0]] + rest[0]] + rest[1..];
      }
    }
  }

  lemma {:induction false} CleanSplits(line: seq<byte>, rest: seq<byte>)
    requires Clean(line + [LF] + rest)
    ensures Stripped(line) != line && Clean(rest)
  {
    var x := line + [LF] + rest;
    var n := |line|;
    assert x[n] == LF && x[n - 1] == CR;
    forall i | 0 <= i < |rest| && rest[i] == LF ensures i > 0 && rest[i - 1] == CR {
      assert x[n + 1 + i] == LF && x[n + i] == CR;
    }
    if rest != [] {
      assert x[|x| - 1] == rest[|rest| - 1];
    }
  }

  lemma {:induction false} CleanJoins(line: seq<byte>, rest: seq<byte>)
    requires LF !in line && Stripped(line) != line && Clean(rest)
    ensures Clean(line + [LF] + rest)
  {
    var x := line + [LF] + rest;
    var n := |line|;
    assert forall i :: 0 <= i < n ==> x[i] == line[i];
    forall i | 0 <= i < |x| && x[i] == LF ensures i > 0 && x[i - 1] == CR {
      if i > n {
        assert rest[i - n - 1] == LF && rest[i - n - 2] == CR;
      }
    }
    if rest != [] {
      assert x[|x| - 1] == rest[|rest| - 1];
    }
  }

  lemma {:induction false} CleanByLines(lines: seq<seq<byte>>)
    requires lines != [] && forall i :: 0 <= i < |lines| ==> LF !in lines[i]
    ensures Clean(Rejoined(lines)) <==> LinesClean(lines)
  {
    if |lines| > 1 {
      CleanByLines(lines[1..]);
      var line, rest := lines[0], Rejoined(lines[1..]);
      if Clean(line + [LF] + rest) {
        CleanSplits(line, rest);
      } else if Stripped(line) != line && Clean(rest) {
        CleanJoins(line, rest);
      }
    }
  }

  /** Decoding returns what was encoded exactly when every LF has its CR and no CR is at the end. */
  lemma {:induction false} RoundTripExactlyWhen(x: seq<byte>)
    ensures Decoded(Encoded(x)) == Some(x) <==> Clean(x)
  {
    DecodesToLines(x);
    RejoinedLines(x);
    JoinedSame(Lines(x));
    LinesHoldNoBreak(x);
    CleanByLines(Lines(x));
  }

  /** Whatever the composer is given, a reader gets it back with CRLF line endings. */
  lemma {:induction false} NormalisedRoundTrips(x: seq<byte>)
    ensures Decoded(Encoded(Normalised(x))) == Some(Normalised(x))
  {
    NormalisedIsClean(x);
    RoundTripExactlyWhen(Normalised(x));
  }

  /** A lone CR is taken for the start of a line break and lost. */
  lemma {:induction false} LoneReturnIsLost()
    ensures Decoded(Encoded([CR])) == Some([]) && !Clean([CR])
  {
    var x: seq<byte> := [CR];
    var rest := Lines(x[1..]);
    assert rest == [[]] && [x[0]] + rest[0] == x && Lines(x) == [x];
    DecodesToLines(x);
  }
}
