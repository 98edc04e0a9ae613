/** The comment stripper in front of `JSON.parse` in `apps/vscode/src/icon-theme.ts`. */
module Jsonc {

  predicate StartsLine(text: string) {
    |text| >= 2 && text[0] == '/' && text[1] == '/'
  }

  predicate StartsBlock(text: string) {
    |text| >= 2 && text[0] == '/' && text[1] == '*'
  }

  /** How much of a text stands in front of its first newline. */
  function ToNewline(text: string): (r: nat)
    ensures r <= |text| && (r < |text| ==> text[r] == '\n')
    ensures forall i :: 0 <= i < r ==> text[i] != '\n'
  {
    if text == "" || text[0] == '\n' then 0 else 1 + ToNewline(text[1..])
  }

  /** Where the first end of a block comment stands; the length of the text where none does. */
  function ToBlockEnd(text: string): (r: nat)
    ensures r <= |text|
    ensures r < |text| ==> r + 2 <= |text| && text[r] == '*' && text[r + 1] == '/'
    ensures forall i :: 0 <= i < r && i + 1 < |text| ==> !(text[i] == '*' && text[i + 1] == '/')
  {
    if text == "" then 0
    else if |text| >= 2 && text[0] == '*' && text[1] == '/' then 0
    else 1 + ToBlockEnd(text[1..])
  }

  /** What follows a line comment and its newline. */
  function AfterLine(text: string): (r: string)
    requires StartsLine(text)
    ensures |r| < |text|
  {
    var n := ToNewline(text);
    if n < |text| then text[n + 1..] else ""
  }

  /** What follows a block comment: nothing where it is not closed. */
  function AfterBlock(text: string): (r: string)
    requires StartsBlock(text)
    ensures |r| < |text|
  {
    var n := ToBlockEnd(text[2..]);
    if n < |text| - 2 then text[n + 4..] else ""
  }

  function Strip(text: string, inString: bool): string
    decreases |text|
  {
    if text == "" then
      ""
    else if inString then
      if text[0] == '\\' then
        if |text| == 1 then text else text[..2] + Strip(text[2..], true)
      else
        [text[0]] + Strip(text[1..], text[0] != '"')
    else if text[0] == '"' then
      [text[0]] + Strip(text[1..], true)
    else if StartsLine(text) then
      "\n" + Strip(AfterLine(text), false)
    else if StartsBlock(text) then
      Strip(AfterBlock(text), false)
    else
      [text[0]] + Strip(text[1..], false)
  }

  method SkipLine(text: string, start: nat) returns (i: nat)
    requires start <= |text|
    ensures start <= i <= |text| && i == start + ToNewline(text[start..])
  {
    i := start;
    while i < |text| && text[i] != '\n'
      invariant start <= i <= |text|
      invariant i + ToNewline(text[i..]) == start + ToNewline(text[start..])
    {
      assert text[i..][1..] == text[i + 1..];
      i := i + 1;
    }
  }

  /** `indexOf('*' '/', from)`: -1 where there is none. */
  function BlockEndFrom(text: string, from: nat): (r: int)
    requires from <= |text|
    ensures r < 0 || from <= r <= |text| - 2
  {
    var n := ToBlockEnd(text[from..]);
    if n < |text[from..]| then from + n else -1
  }

  /** What is still to come at `i`, which may be one past the end. */
  function Remaining(text: string, i: nat, inString: bool): string {
    Strip(From(text, i), inString)
  }

  lemma AtEscape(text: string, i: nat, out: string)
    requires i < |text| && text[i] == '\\'
    ensures out + [text[i]] + (if i + 1 < |text| then [text[i + 1]] else "") + Remaining(text, i + 2, true)
         == out + Remaining(text, i, true)
  {
    var rest := text[i..];
    if i + 1 < |text| {
      assert rest[..2] == [text[i]] + [text[i + 1]] && rest[2..] == text[i + 2..];
    }
  }

  lemma InLiteral(text: string, i: nat, out: string)
    requires i < |text| && text[i] != '\\'
    ensures out + [text[i]] + Remaining(text, i + 1, text[i] != '"') == out + Remaining(text, i, true)
  {
    assert text[i..][1..] == text[i + 1..];
  }

  lemma AtCode(text: string, i: nat, out: string)
    requires i < |text| && !StartsLine(text[i..]) && !StartsBlock(text[i..])
    ensures out + [text[i]] + Remaining(text, i + 1, text[i] == '"') == out + Remaining(text, i, false)
  {
    assert text[i..][1..] == text[i + 1..];
  }

  lemma CommentsStrip(text: string)
    ensures StartsLine(text) ==> Strip(text, false) == "\n" + Strip(AfterLine(text), false)
    ensures StartsBlock(text) ==> Strip(text, false) == Strip(AfterBlock(text), false)
  {
    hide AfterLine, AfterBlock;
  }

  lemma LiteralsStrip(text: string)
    requires text != ""
    ensures text[0] == '\\' && |text| >= 2 ==> Strip(text, true) == text[..2] + Strip(text[2..], true)
    ensures text[0] != '\\' ==> Strip(text, true) == [text[0]] + Strip(text[1..], text[0] != '"')
    ensures text[0] == '"' ==> Strip(text, false) == [text[0]] + Strip(text[1..], true)
  {
    hide AfterLine, AfterBlock;
  }

  function From(text: string, i: nat): string {
    if i <= |text| then text[i..] else ""
  }

  lemma AfterLineAt(text: string, i: nat)
    requires i < |text| && StartsLine(text[i..])
    ensures AfterLine(text[i..]) == From(text, i + ToNewline(text[i..]) + 1)
  {
    hide ToNewline;
  }

  lemma {:induction false} AfterBlockAt(text: string, i: nat)
    requires i < |text| && StartsBlock(text[i..])
    ensures var end := BlockEndFrom(text, i + 2);
            AfterBlock(text[i..]) == if end < 0 then "" else From(text, end + 2)
  {
    hide ToBlockEnd;
    assert text[i..][2..] == text[i + 2..];
  }

  lemma AtLine(text: string, i: nat, out: string)
    requires i < |text| && StartsLine(text[i..])
    ensures out + "\n" + Remaining(text, i + ToNewline(text[i..]) + 1, false) == out + Remaining(text, i, false)
  {
    hide ToNewline, AfterLine, Strip, StartsLine;
    CommentsStrip(text[i..]);
    AfterLineAt(text, i);
  }

  lemma {:induction false} AtBlock(text: string, i: nat)
    requires i < |text| && StartsBlock(text[i..])
    ensures var end := BlockEndFrom(text, i + 2);
            Remaining(text, i, false) == if end < 0 then "" else Remaining(text, end + 2, false)
  {
    hide BlockEndFrom, AfterBlock, Strip, StartsBlock;
    CommentsStrip(text[i..]);
    AfterBlockAt(text, i);
    NothingRemains("", 0, false);
  }

  /** The scanning loop. An escape at the very end and an unclosed comment end it early. */
  method StripComments(text: string) returns (out: string)
    ensures out == Strip(text, false)
  {
    hide ToNewline, BlockEndFrom, Strip;
    out := "";
    var inString := false;
    var i: nat := 0;
    assert text[0..] == text;
    while i < |text|
      invariant i <= |text| + 1
      invariant out + Remaining(text, i, inString) == Strip(text, false)
    {
      hide Remaining;
      var ch := text[i];
      if inString {
        if ch == '\\' {
          AtEscape(text, i, out);
          out := out + [ch] + if i + 1 < |text| then [text[i + 1]] else "";
          i := i + 1;
        } else {
          InLiteral(text, i, out);
          out := out + [ch];
          inString := ch != '"';
        }
      } else if ch == '"' {
        AtCode(text, i, out);
        inString := true;
        out := out + [ch];
      } else if StartsLine(text[i..]) {
        AtLine(text, i, out);
        i := SkipLine(text, i);
        out := out + "\n";
      } else if StartsBlock(text[i..]) {
        AtBlock(text, i);
        var end := BlockEndFrom(text, i + 2);
        if end < 0 {
          assert out + "" == out;
          return;
        }
        i := end + 1;
      } else {
        AtCode(text, i, out);
        out := out + [ch];
      }
      i := i + 1;
    }
    NothingRemains(text, i, inString);
    assert out + "" == out;
  }

  lemma NothingRemains(text: string, i: nat, inString: bool)
    requires i >= |text|
    ensures Remaining(text, i, inString) == ""
  {
  }
}
