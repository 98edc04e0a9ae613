/** What stripping comments means, said of the pieces a text is made of and not of the scan. String literals are those of
    section 7 of RFC 8259. */
module JsoncMeaning {
  import opened Jsonc

  datatype Piece = Code(c: char) | Literal(s: string) | Line(s: string) | Block(s: string)

  /** The text behind an opening quote, up to where it is not escaped and not a quote any more. */
  predicate Unquoted(s: string) {
    if s == "" then true
    else if s[0] == '\\' then |s| >= 2 && Unquoted(s[2..])
    else s[0] != '"' && Unquoted(s[1..])
  }

  predicate ClosedLiteral(s: string) {
    |s| >= 2 && s[0] == '"' && s[|s| - 1] == '"' && Unquoted(s[1..|s| - 1])
  }

  /** A literal the text ends in the middle of, maybe behind a backslash. */
  predicate OpenLiteral(s: string) {
    |s| >= 1 && s[0] == '"' && (Unquoted(s[1..]) || (s[|s| - 1] == '\\' && |s| >= 2 && Unquoted(s[1..|s| - 1])))
  }

  predicate NoNewline(s: string) {
    forall i :: 0 <= i < |s| ==> s[i] != '\n'
  }

  predicate NoBlockEnd(s: string) {
    forall i :: 0 <= i && i + 1 < |s| ==> !(s[i] == '*' && s[i + 1] == '/')
  }

  function TextOf(piece: Piece): string {
    match piece
    case Code(c) => [c]
    case Literal(s) => s
    case Line(s) => s
    case Block(s) => s
  }

  function Text(pieces: seq<Piece>): string {
    if pieces == [] then "" else TextOf(pieces[0]) + Text(pieces[1..])
  }

  /** Whether a piece can stand in front of `rest`. Code is a character that opens nothing; what is not closed is the
      last piece. */
  predicate Stands(piece: Piece, rest: string) {
    match piece
    case Code(c) => c != '"' && !("//" <= [c] + rest) && !("/*" <= [c] + rest)
    case Literal(s) => ClosedLiteral(s) || (OpenLiteral(s) && rest == "")
    case Line(s) =>
      && "//" <= s
      && ((s[|s| - 1] == '\n' && NoNewline(s[..|s| - 1])) || (NoNewline(s) && rest == ""))
    case Block(s) =>
      && "/*" <= s
      && ((|s| >= 4 && s[|s| - 2] == '*' && s[|s| - 1] == '/' && NoBlockEnd(s[2..|s| - 1]))
          || (NoBlockEnd(s[2..]) && rest == ""))
  }

  /** The two characters that open a comment, as the scan tests for them. */
  lemma Marks(text: string)
    ensures StartsLine(text) <==> "//" <= text
    ensures StartsBlock(text) <==> "/*" <= text
  {
    if |text| >= 2 {
      assert text[..2] == [text[0], text[1]];
      assert "//" == ['/', '/'] && "/*" == ['/', '*'];
    }
  }

  predicate OpensNothing(c: char, rest: string) {
    c != '/' || rest == "" || (rest[0] != '/' && rest[0] != '*')
  }

  lemma CodeStands(c: char, rest: string)
    ensures Stands(Code(c), rest) <==> c != '"' && OpensNothing(c, rest)
  {
    var text := [c] + rest;
    assert text[1..] == rest;
    Marks(text);
  }

  predicate Lexed(pieces: seq<Piece>) {
    pieces == [] || (Stands(pieces[0], Text(pieces[1..])) && Lexed(pieces[1..]))
  }

  /** What stripping keeps: a line comment leaves its newline, a block comment nothing. */
  function Kept(pieces: seq<Piece>): seq<Piece> {
    if pieces == [] then
      []
    else
      var rest := Kept(pieces[1..]);
      match pieces[0]
      case Line(_) => [Code('\n')] + rest
      case Block(_) => rest
      case piece => [piece] + rest
  }

  function Literals(pieces: seq<Piece>): seq<string> {
    if pieces == [] then []
    else (if pieces[0].Literal? then [pieces[0].s] else []) + Literals(pieces[1..])
  }

  predicate HasComments(pieces: seq<Piece>) {
    exists i :: 0 <= i < |pieces| && (pieces[i].Line? || pieces[i].Block?)
  }

  // ----- the scan follows the pieces

  lemma {:induction false} UnquotedStrips(inner: string, rest: string)
    requires Unquoted(inner)
    ensures Strip(inner + rest, true) == inner + Strip(rest, true)
    decreases |inner|
  {
    hide Strip;
    var text := inner + rest;
    if inner == "" {
      assert text == rest;
    } else {
      LiteralsStrip(text);
      if inner[0] == '\\' {
        UnquotedStrips(inner[2..], rest);
        assert text[..2] == inner[..2] && text[2..] == inner[2..] + rest;
      } else {
        UnquotedStrips(inner[1..], rest);
        assert text[1..] == inner[1..] + rest;
      }
    }
  }

  lemma LiteralStrips(s: string, rest: string)
    requires ClosedLiteral(s)
    ensures Strip(s + rest, false) == s + Strip(rest, false)
  {
    hide Strip, Unquoted;
    var inner := s[1..|s| - 1];
    LiteralsStrip(s + rest);
    assert (s + rest)[1..] == inner + ("\"" + rest);
    UnquotedStrips(inner, "\"" + rest);
    LiteralsStrip("\"" + rest);
    assert ("\"" + rest)[1..] == rest;
    assert s == "\"" + inner + "\"";
  }

  lemma OpenLiteralStrips(s: string)
    requires OpenLiteral(s)
    ensures Strip(s, false) == s
  {
    if Unquoted(s[1..]) {
      UnquotedStrips(s[1..], "");
      assert s[1..] + "" == s[1..];
      assert s == "\"" + s[1..];
    } else {
      var inner := s[1..|s| - 1];
      UnquotedStrips(inner, "\\");
      assert s[1..] == inner + "\\";
      assert s == "\"" + inner + "\\";
    }
  }

  lemma {:induction false} NewlineFound(s: string, rest: string)
    requires NoNewline(s)
    ensures ToNewline(s + "\n" + rest) == |s| && ToNewline(s) == |s|
  {
    if s != "" {
      NewlineFound(s[1..], rest);
      assert (s + "\n" + rest)[1..] == s[1..] + "\n" + rest;
    }
  }

  lemma AfterLineIs(s: string, rest: string)
    requires Stands(Line(s), rest)
    ensures StartsLine(s + rest) && AfterLine(s + rest) == rest
  {
    hide ToNewline, NoNewline;
    if s[|s| - 1] == '\n' && NoNewline(s[..|s| - 1]) {
      var body := s[..|s| - 1];
      assert s + rest == body + "\n" + rest;
      NewlineFound(body, rest);
      assert (s + rest)[|s|..] == rest;
    } else {
      assert s + rest == s;
      NewlineFound(s, "");
    }
  }

  lemma LineStrips(s: string, rest: string)
    requires Stands(Line(s), rest)
    ensures Strip(s + rest, false) == "\n" + Strip(rest, false)
  {
    hide Strip, Stands, StartsLine;
    AfterLineIs(s, rest);
    CommentsStrip(s + rest);
  }

  lemma {:induction false} BlockEndFound(s: string, rest: string)
    requires NoBlockEnd(s + "*")
    ensures ToBlockEnd(s + "*/" + rest) == |s|
  {
    var text := s + "*/" + rest;
    if s != "" {
      assert (s + "*")[1..] == s[1..] + "*";
      assert forall i :: 0 <= i && i + 1 < |s[1..] + "*"| ==> (s[1..] + "*")[i] == (s + "*")[i + 1];
      BlockEndFound(s[1..], rest);
      assert text[1..] == s[1..] + "*/" + rest;
      assert text[0] == (s + "*")[0] && text[1] == (s + "*")[1];
    }
  }

  lemma {:induction false} NoBlockEndFound(s: string)
    requires NoBlockEnd(s)
    ensures ToBlockEnd(s) == |s|
  {
    if s != "" {
      NoBlockEndFound(s[1..]);
    }
  }

  lemma BlockStrips(s: string, rest: string)
    requires Stands(Block(s), rest)
    ensures Strip(s + rest, false) == Strip(rest, false)
  {
    hide Strip, NoBlockEnd, ToBlockEnd;
    CommentsStrip(s + rest);
    if |s| >= 4 && s[|s| - 2] == '*' && s[|s| - 1] == '/' && NoBlockEnd(s[2..|s| - 1]) {
      var body := s[2..|s| - 2];
      assert body + "*" == s[2..|s| - 1];
      assert (s + rest)[2..] == body + "*/" + rest;
      BlockEndFound(body, rest);
      assert (s + rest)[|s|..] == rest;
    } else {
      assert s + rest == s;
      NoBlockEndFound(s[2..]);
    }
  }

  /** Stripping writes what is kept of the pieces: comments go, every literal stays as it was. */
  lemma {:induction false} StripKeepsThePieces(pieces: seq<Piece>)
    requires Lexed(pieces)
    ensures Strip(Text(pieces), false) == Text(Kept(pieces))
  {
    if pieces != [] {
      var rest, kept := Text(pieces[1..]), Kept(pieces[1..]);
      StripKeepsThePieces(pieces[1..]);
      match pieces[0]
      case Code(c) =>
        assert ([c] + rest)[1..] == rest;
        assert ([Code(c)] + kept)[1..] == kept;
      case Literal(s) =>
        if ClosedLiteral(s) {
          LiteralStrips(s, rest);
        } else {
          OpenLiteralStrips(s);
          assert s + rest == s;
        }
        assert ([Literal(s)] + kept)[1..] == kept;
      case Line(s) =>
        LineStrips(s, rest);
        assert ([Code('\n')] + kept)[1..] == kept;
      case Block(s) => BlockStrips(s, rest);
    }
  }

  // ----- what is kept has no comments left

  lemma {:induction false} PiecesHaveText(pieces: seq<Piece>)
    requires Lexed(pieces)
    ensures pieces != [] ==> Text(pieces) != "" && TextOf(pieces[0]) != "" && Text(pieces)[0] == TextOf(pieces[0])[0]
  {
    hide Unquoted, NoNewline, NoBlockEnd, Text;
    if pieces != [] {
      TextStarts(pieces);
    }
  }

  lemma TextStarts(pieces: seq<Piece>)
    requires pieces != []
    ensures Text(pieces) == TextOf(pieces[0]) + Text(pieces[1..])
  {
  }

  /** Behind a slash that opens no comment, what is kept starts as the text did. */
  lemma KeptStarts(pieces: seq<Piece>)
    requires Lexed(pieces) && OpensNothing('/', Text(pieces))
    ensures OpensNothing('/', Text(Kept(pieces)))
  {
    hide Unquoted, NoNewline, NoBlockEnd;
    PiecesHaveText(pieces);
    if pieces != [] {
      TextStarts(Kept(pieces));
    }
  }

  /** A piece that is kept stands in front of what is kept behind it. */
  lemma {:induction false} KeptStands(piece: Piece, rest: seq<Piece>)
    requires (piece.Code? || piece.Literal?) && Lexed(rest) && Stands(piece, Text(rest))
    ensures Stands(piece, Text(Kept(rest)))
  {
    hide ClosedLiteral, OpenLiteral, NoNewline, NoBlockEnd, Lexed, Text, Kept;
    match piece
    case Code(c) =>
      CodeStands(c, Text(rest));
      CodeStands(c, Text(Kept(rest)));
      if c == '/' {
        KeptStarts(rest);
      }
    case Literal(s) =>
      if Text(rest) == "" {
        PiecesHaveText(rest);
        NothingIsKept();
      }
  }

  lemma NothingIsKept()
    ensures Text(Kept([])) == ""
  {
  }

  /** Removing comments starts none: what is kept is itself a text's pieces, with the same literals and no comment. */
  lemma {:induction false} KeptIsLexed(pieces: seq<Piece>)
    requires Lexed(pieces)
    ensures Lexed(Kept(pieces)) && !HasComments(Kept(pieces)) && Literals(Kept(pieces)) == Literals(pieces)
  {
    hide Stands, Text;
    if pieces != [] {
      var kept := Kept(pieces[1..]);
      KeptIsLexed(pieces[1..]);
      CodeStands('\n', Text(kept));
      match pieces[0]
      case Line(s) => assert ([Code('\n')] + kept)[1..] == kept;
      case Block(s) =>
      case piece =>
        KeptStands(piece, pieces[1..]);
        assert ([piece] + kept)[1..] == kept;
    }
  }

  lemma {:induction false} NothingToKeep(pieces: seq<Piece>)
    requires !HasComments(pieces)
    ensures Kept(pieces) == pieces
  {
    if pieces != [] {
      assert !(pieces[0].Line? || pieces[0].Block?);
      assert forall i :: 0 <= i < |pieces[1..]| ==> pieces[1..][i] == pieces[i + 1];
      NothingToKeep(pieces[1..]);
    }
  }

  lemma {:induction false} KeptIsShorter(pieces: seq<Piece>)
    requires Lexed(pieces)
    ensures |Text(Kept(pieces))| <= |Text(pieces)|
    ensures HasComments(pieces) ==> |Text(Kept(pieces))| < |Text(pieces)|
  {
    hide Unquoted, NoNewline, NoBlockEnd;
    if pieces != [] {
      KeptIsShorter(pieces[1..]);
      TextStarts(pieces);
      var kept := Kept(pieces[1..]);
      match pieces[0]
      case Line(s) => assert ([Code('\n')] + kept)[1..] == kept;
      case Block(s) =>
      case piece =>
        assert ([piece] + kept)[1..] == kept;
        if HasComments(pieces) {
          var i :| 0 <= i < |pieces| && (pieces[i].Line? || pieces[i].Block?);
          assert pieces[1..][i - 1] == pieces[i];
        }
    }
  }

  /** Stripping is the identity exactly on the texts without a comment outside their literals. */
  lemma StripIsIdentityIff(pieces: seq<Piece>)
    requires Lexed(pieces)
    ensures Strip(Text(pieces), false) == Text(pieces) <==> !HasComments(pieces)
  {
    hide Lexed, HasComments, Strip, Text, Kept;
    StripKeepsThePieces(pieces);
    KeptIsShorter(pieces);
    if !HasComments(pieces) {
      NothingToKeep(pieces);
    }
  }

  // ----- every text is made of pieces

  /** The text behind an opening quote up to its closing one, and whether there is one. */
  lemma {:induction false} LiteralEnds(text: string) returns (n: nat, closed: bool)
    ensures n <= |text|
    ensures closed ==> n < |text| && text[n] == '"' && Unquoted(text[..n])
    ensures !closed ==> Unquoted(text) || (text != "" && text[|text| - 1] == '\\' && Unquoted(text[..|text| - 1]))
    decreases |text|
  {
    if text == "" {
      n, closed := 0, false;
    } else if text[0] == '"' {
      n, closed := 0, true;
    } else if text[0] != '\\' {
      n, closed := LiteralEnds(text[1..]);
      n := n + 1;
      if closed {
        assert text[..n][1..] == text[1..][..n - 1];
      } else if !Unquoted(text[1..]) {
        assert text[..|text| - 1][1..] == text[1..][..|text| - 2];
      }
    } else if |text| == 1 {
      n, closed := 0, false;
    } else {
      n, closed := LiteralEnds(text[2..]);
      n := n + 2;
      if closed {
        assert text[..n][2..] == text[2..][..n - 2];
      } else if !Unquoted(text[2..]) {
        assert text[..|text| - 1][2..] == text[2..][..|text| - 3];
      }
    }
  }

  /** The first piece of a text. */
  lemma FirstPiece(text: string) returns (piece: Piece)
    requires text != ""
    ensures 0 < |TextOf(piece)| <= |text| && TextOf(piece) == text[..|TextOf(piece)|]
    ensures Stands(piece, text[|TextOf(piece)|..])
  {
    if text[0] == '"' {
      piece := FirstLiteral(text);
    } else if StartsLine(text) {
      piece := FirstLine(text);
    } else if StartsBlock(text) {
      piece := FirstBlock(text);
    } else {
      piece := Code(text[0]);
      assert [text[0]] + text[1..] == text;
    }
  }

  lemma FirstLiteral(text: string) returns (piece: Piece)
    requires text != "" && text[0] == '"'
    ensures piece.Literal? && 0 < |piece.s| <= |text| && piece.s == text[..|piece.s|] && Stands(piece, text[|piece.s|..])
  {
    var n, closed := LiteralEnds(text[1..]);
    if closed {
      piece := Literal(text[..n + 2]);
      assert text[..n + 2][1..n + 1] == text[1..][..n];
    } else {
      piece := Literal(text);
      assert |text| >= 2 ==> text[1..|text| - 1] == text[1..][..|text| - 2];
    }
  }

  lemma FirstLine(text: string) returns (piece: Piece)
    requires StartsLine(text)
    ensures piece.Line? && 0 < |piece.s| <= |text| && piece.s == text[..|piece.s|] && Stands(piece, text[|piece.s|..])
  {
    var n := ToNewline(text);
    if n < |text| {
      piece := Line(text[..n + 1]);
      assert text[..n + 1][..n] == text[..n];
    } else {
      piece := Line(text);
    }
  }

  lemma FirstBlock(text: string) returns (piece: Piece)
    requires StartsBlock(text)
    ensures piece.Block? && 0 < |piece.s| <= |text| && piece.s == text[..|piece.s|] && Stands(piece, text[|piece.s|..])
  {
    hide ToBlockEnd;
    var n := ToBlockEnd(text[2..]);
    if n < |text| - 2 {
      piece := Block(text[..n + 4]);
      assert text[..n + 4][2..n + 3] == text[2..][..n + 1];
    } else {
      piece := Block(text);
    }
  }

  lemma {:induction false} EveryTextIsLexed(text: string) returns (pieces: seq<Piece>)
    ensures Lexed(pieces) && Text(pieces) == text
    decreases |text|
  {
    hide Stands;
    if text == "" {
      pieces := [];
    } else {
      var first := FirstPiece(text);
      var rest := EveryTextIsLexed(text[|TextOf(first)|..]);
      pieces := [first] + rest;
      assert pieces[1..] == rest;
    }
  }

  /** For every text: stripping copies its string literals, in order and as they were, into a text with no comments. */
  lemma StripKeepsLiterals(text: string) returns (pieces: seq<Piece>, kept: seq<Piece>)
    ensures Lexed(pieces) && Text(pieces) == text
    ensures Lexed(kept) && Text(kept) == Strip(text, false)
    ensures !HasComments(kept) && Literals(kept) == Literals(pieces)
  {
    hide Lexed, HasComments, Strip, Text, Kept, Literals;
    pieces := EveryTextIsLexed(text);
    kept := Kept(pieces);
    StripKeepsThePieces(pieces);
    KeptIsLexed(pieces);
  }

  /** Stripping twice is stripping once. */
  lemma StripIsIdempotent(text: string)
    ensures Strip(Strip(text, false), false) == Strip(text, false)
  {
    hide Lexed, HasComments, Strip, Text, Kept, Literals;
    var pieces, kept := StripKeepsLiterals(text);
    StripIsIdentityIff(kept);
  }
}
