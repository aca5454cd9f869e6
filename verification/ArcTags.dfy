/** Tag lists of ARC headers: reading them, writing them, emptying `b=` (src/arc). */
module ArcTags {
  import opened Basics
  import opened Text

  /** One `;`-separated piece of a header value, as `Tags::parse` reads it. */
  datatype Piece = Blank | Malformed | Pair(name: string, value: string)

  function ReadPiece(part: string): Piece
  {
    var tag := Trim(part);
    if tag == "" then Blank
    else match SplitOnce(tag, '=')
      case None => Malformed
      case Some((name, raw)) => Pair(Lower(Trim(name)), Compact(raw))
  }

  /** `Tags::parse`: the named values in order, or nothing when a piece has no `=`. */
  function ReadTags(parts: seq<string>): Option<seq<(string, string)>>
  {
    if parts == [] then Some([])
    else match (ReadPiece(parts[0]), ReadTags(parts[1..]))
      case (Malformed, _) => None
      case (_, None) => None
      case (Blank, Some(rest)) => Some(rest)
      case (Pair(name, value), Some(rest)) => Some([(name, value)] + rest)
  }

  function Tags(value: string): Option<seq<(string, string)>> { ReadTags(Split(value, ';')) }

  /** The first value under `key`. */
  function Get(tags: seq<(string, string)>, key: string): Option<string>
  {
    if tags == [] then None
    else if tags[0].0 == key then Some(tags[0].1)
    else Get(tags[1..], key)
  }

  /** `chain::tag` on the pieces of a header value. */
  function FirstTag(parts: seq<string>, key: string): Option<string>
  {
    if parts == [] then None
    else match SplitOnce(parts[0], '=')
      case Some((name, value)) => if Lower(Trim(name)) == Lower(key) then Some(Trim(value)) else FirstTag(parts[1..], key)
      case None => FirstTag(parts[1..], key)
  }

  function Tag(header: string, key: string): Option<string> { FirstTag(Split(header, ';'), key) }

  function StripPiece(part: string): string
  {
    var trimmed := TrimStart(part);
    if "b=" <= trimmed then part[..LeadingSpace(part)] + "b=" else part
  }

  function LeadingSpace(s: string): (n: nat)
    ensures n <= |s|
  {
    if s != "" && Whitespace(s[0]) then 1 + LeadingSpace(s[1..]) else 0
  }

  /** `strip_b`: the value with everything after `b=` removed. */
  function StripB(value: string): string
  {
    var parts := Split(value, ';');
    Join(seq(|parts|, i requires 0 <= i < |parts| => StripPiece(parts[i])), ';')
  }

  // ----------------------------------------------------------------- written values

  /** The names used in written values: lower-case letters. */
  predicate PlainName(name: string) { name != "" && forall c :: c in name ==> 'a' <= c <= 'z' }

  predicate Plain(tags: seq<(string, string)>)
  {
    forall i :: 0 <= i < |tags| ==> PlainName(tags[i].0) && ';' !in tags[i].1
  }

  function Written(tag: (string, string)): string { " " + tag.0 + "=" + tag.1 }

  function Pieces(tags: seq<(string, string)>): seq<string>
  {
    seq(|tags|, i requires 0 <= i < |tags| => Written(tags[i]))
  }

  /** A value as the signers format it: ` i=1; a=...; b=`. */
  function Render(tags: seq<(string, string)>): string
    requires tags != []
  {
    Join(Pieces(tags), ';')
  }

  function Compacted(tags: seq<(string, string)>): seq<(string, string)>
  {
    seq(|tags|, i requires 0 <= i < |tags| => (tags[i].0, Compact(tags[i].1)))
  }

  function BlankB(tag: (string, string)): (string, string) { if tag.0 == "b" then ("b", "") else tag }

  /** The tags with the value of `b` emptied. */
  function Unsigned(tags: seq<(string, string)>): seq<(string, string)>
  {
    seq(|tags|, i requires 0 <= i < |tags| => BlankB(tags[i]))
  }

  lemma {:induction false} RenderSplits(tags: seq<(string, string)>)
    requires tags != [] && Plain(tags)
    ensures Split(Render(tags), ';') == Pieces(tags)
  {
    SplitOfJoin(Pieces(tags), ';');
  }

  lemma {:induction false} LowerOfPlain(name: string)
    requires PlainName(name)
    ensures Lower(name) == name && Trim(name) == name && '=' !in name
  {
    CompactOfDense(name);
    assert forall i :: 0 <= i < |name| ==> name[i] in name;
  }

  lemma {:induction false} WrittenIsRead(tag: (string, string))
    requires PlainName(tag.0)
    ensures ReadPiece(Written(tag)) == Pair(tag.0, Compact(tag.1))
    ensures SplitOnce(Written(tag), '=') == Some((" " + tag.0, tag.1)) && Trim(" " + tag.0) == tag.0
    ensures TrimStart(Written(tag)) == tag.0 + "=" + tag.1 && LeadingSpace(Written(tag)) == 1
  {
    var (name, value) := tag;
    LowerOfPlain(name);
    assert name[0] in name;
    var head := name + "=";
    assert Written(tag) == " " + (head + value) && Written(tag)[1..] == head + value;
    assert (head + value)[0] == name[0];
    assert TrimStart(Written(tag)) == head + value;
    TrimEndAppends(head, value);
    assert Trim(Written(tag)) == name + ['='] + TrimEnd(value);
    SplitOnceAt(name, TrimEnd(value), '=');
    TrimEndKeepsCompact(value);
    assert Written(tag) == (" " + name) + ['='] + value;
    SplitOnceAt(" " + name, value, '=');
    assert (" " + name)[1..] == name;
  }

  /** What a signer writes is what a verifier reads, white space in values aside. */
  lemma {:induction false} PiecesAreRead(tags: seq<(string, string)>)
    requires Plain(tags)
    ensures ReadTags(Pieces(tags)) == Some(Compacted(tags))
  {
    if tags != [] {
      WrittenIsRead(tags[0]);
      assert Pieces(tags)[1..] == Pieces(tags[1..]);
      PiecesAreRead(tags[1..]);
      assert Compacted(tags) == [(tags[0].0, Compact(tags[0].1))] + Compacted(tags[1..]);
    }
  }

  lemma {:induction false} RenderIsRead(tags: seq<(string, string)>)
    requires tags != [] && Plain(tags)
    ensures Tags(Render(tags)) == Some(Compacted(tags))
  {
    RenderSplits(tags);
    PiecesAreRead(tags);
  }

  /** Emptying `b=` in a signed value gives back the value that was signed. */
  lemma {:induction false} StripOfRender(tags: seq<(string, string)>)
    requires tags != [] && Plain(tags)
    ensures StripB(Render(tags)) == Render(Unsigned(tags))
  {
    RenderSplits(tags);
    var parts := Pieces(tags);
    forall i | 0 <= i < |parts| ensures StripPiece(parts[i]) == Written(BlankB(tags[i])) {
      StripOfWritten(tags[i]);
    }
    assert seq(|parts|, i requires 0 <= i < |parts| => StripPiece(parts[i])) == Pieces(Unsigned(tags));
  }

  lemma {:induction false} StripOfWritten(tag: (string, string))
    requires PlainName(tag.0)
    ensures StripPiece(Written(tag)) == Written(BlankB(tag))
  {
    WrittenIsRead(tag);
    var trimmed := tag.0 + "=" + tag.1;
    if tag.0 == "b" {
      assert trimmed[..2] == "b=";
      assert Written(tag)[..1] == " ";
    } else {
      assert trimmed[0] == tag.0[0];
      if |tag.0| > 1 {
        assert trimmed[1] == tag.0[1] && tag.0[1] in tag.0;
      } else {
        assert tag.0 == [tag.0[0]];
      }
      assert !("b=" <= trimmed);
    }
  }

  /** Both readers of a header value see the same first tag. */
  lemma {:induction false} ReadersAgree(parts: seq<string>, key: string)
    requires PlainName(key) && ReadTags(parts).Some?
    ensures var seen := FirstTag(parts, key); var got := Get(ReadTags(parts).value, key);
      if seen.Some? then got == Some(Compact(seen.value)) else got == None
  {
    if parts == [] {
      return;
    }
    LowerOfPlain(key);
    PieceReadersAgree(parts[0]);
    ReadersAgree(parts[1..], key);
  }

  lemma {:induction false} PieceReadersAgree(part: string)
    ensures match SplitOnce(part, '=')
      case None => ReadPiece(part).Blank? || ReadPiece(part).Malformed?
      case Some((name, value)) => ReadPiece(part) == Pair(Lower(Trim(name)), Compact(Trim(value)))
  {
    match SplitOnce(part, '=')
    case None =>
      SplitOnceNone(part, '=');
      TrimmedParts(part);
      SplitOnceNone(Trim(part), '=');
    case Some((name, value)) =>
      SplitOnceSome(part, '=');
      TrimStartOf(name, "=" + value);
      assert part == name + ("=" + value);
      var front := TrimStart(name);
      assert TrimStart(part) == (front + "=") + value;
      TrimEndAppends(front + "=", value);
      TrimmedParts(name);
      SplitOnceAt(front, TrimEnd(value), '=');
      assert Trim(part) == front + ['='] + TrimEnd(value);
      TrimStartTwice(name);
      TrimEndKeepsCompact(value);
      TrimStartKeepsCompact(value);
      TrimEndKeepsCompact(TrimStart(value));
  }
}
