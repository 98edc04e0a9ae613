/** The regular expressions the glob compiler emits, and the strings each of them matches from end to end. Laziness
    (`*?`) changes which match an engine finds first, not whether the whole string has one. */
module Regex {

  datatype CharSet =
    | Exactly(c: char)
    | NotSlash                              // [^/]
    | Class(negated: bool, text: string)    // [text] or [^text]

  datatype Re =
    | Empty
    | One(chars: CharSet)
    | Cat(first: Re, second: Re)
    | Alt(left: Re, right: Re)
    | Star(body: Re)

  /** The characters the text of a class is made of: a backslash stands for what follows it. */
  function Atoms(text: string): string {
    if text == "" then ""
    else if text[0] == '\\' && |text| >= 2 then [text[1]] + Atoms(text[2..])
    else [text[0]] + Atoms(text[1..])
  }

  /** Membership in the inside of a character class: single characters and `x-y` ranges. */
  predicate InRanges(atoms: string, c: char) {
    if atoms == "" then false
    else if |atoms| >= 3 && atoms[1] == '-' then atoms[0] <= c <= atoms[2] || InRanges(atoms[3..], c)
    else atoms[0] == c || InRanges(atoms[1..], c)
  }

  /** The engine refuses a class with a range out of order. */
  predicate Ordered(atoms: string) {
    if |atoms| >= 3 && atoms[1] == '-' then atoms[0] <= atoms[2] && Ordered(atoms[3..])
    else atoms == "" || Ordered(atoms[1..])
  }

  /** A class that is refused has no members. */
  predicate InSet(chars: CharSet, c: char) {
    match chars
    case Exactly(d) => c == d
    case NotSlash => c != '/'
    case Class(negated, text) => Ordered(Atoms(text)) && InRanges(Atoms(text), c) != negated
  }

  predicate AcceptedSet(chars: CharSet) {
    chars.Class? ==> Ordered(Atoms(chars.text))
  }

  /** Whether the engine takes the expression at all. */
  predicate Accepted(r: Re) {
    match r
    case Empty => true
    case One(chars) => AcceptedSet(chars)
    case Cat(a, b) => Accepted(a) && Accepted(b)
    case Alt(a, b) => Accepted(a) && Accepted(b)
    case Star(a) => Accepted(a)
  }

  ghost predicate Matches(r: Re, s: string)
    decreases r, |s|
  {
    match r
    case Empty => s == ""
    case One(chars) => |s| == 1 && InSet(chars, s[0])
    case Cat(a, b) => exists i :: 0 <= i <= |s| && Matches(a, s[..i]) && Matches(b, s[i..])
    case Alt(a, b) => Matches(a, s) || Matches(b, s)
    case Star(a) => s == "" || exists i :: 0 < i <= |s| && Matches(a, s[..i]) && Matches(r, s[i..])
  }

  function CatAll(parts: seq<Re>): Re {
    if parts == [] then Empty else Cat(parts[0], CatAll(parts[1..]))
  }

  function AltAll(options: seq<Re>): Re
    requires options != []
  {
    if |options| == 1 then options[0] else Alt(options[0], AltAll(options[1..]))
  }

  lemma CatIntro(a: Re, b: Re, s: string, i: nat)
    requires i <= |s| && Matches(a, s[..i]) && Matches(b, s[i..])
    ensures Matches(Cat(a, b), s)
  {
  }

  lemma CatElim(a: Re, b: Re, s: string) returns (i: nat)
    requires Matches(Cat(a, b), s)
    ensures i <= |s| && Matches(a, s[..i]) && Matches(b, s[i..])
  {
    i :| 0 <= i <= |s| && Matches(a, s[..i]) && Matches(b, s[i..]);
  }

  /** A single character in front takes exactly the first character. */
  lemma CatOne(chars: CharSet, b: Re, s: string)
    ensures Matches(Cat(One(chars), b), s) <==> s != "" && InSet(chars, s[0]) && Matches(b, s[1..])
  {
    if s != "" && InSet(chars, s[0]) && Matches(b, s[1..]) {
      assert s[..1][0] == s[0];
      CatIntro(One(chars), b, s, 1);
    }
    if Matches(Cat(One(chars), b), s) {
      var i := CatElim(One(chars), b, s);
      assert i == 1 && s[..1][0] == s[0];
    }
  }

  lemma CatFront(a: Re, b: Re, s: string, j: nat, k: nat)
    requires j + k <= |s| && Matches(a, s[..j]) && Matches(b, s[j..][..k])
    ensures Matches(Cat(a, b), s[..j + k])
  {
    hide Matches;
    var front := s[..j + k];
    assert front[..j] == s[..j];
    assert front[j..] == s[j..][..k];
    CatIntro(a, b, front, j);
  }

  lemma NothingSplits(b: seq<Re>, s: string)
    requires Matches(CatAll([] + b), s)
    ensures Matches(CatAll([]), s[..0]) && Matches(CatAll(b), s[0..])
  {
    assert [] + b == b && s[0..] == s;
  }

  lemma CatAllFirst(parts: seq<Re>)
    requires parts != []
    ensures CatAll(parts) == Cat(parts[0], CatAll(parts[1..]))
  {
  }

  lemma {:induction false} CatAllSplit(a: seq<Re>, b: seq<Re>, s: string) returns (i: nat)
    requires Matches(CatAll(a + b), s)
    ensures i <= |s| && Matches(CatAll(a), s[..i]) && Matches(CatAll(b), s[i..])
  {
    hide Matches, CatAll;
    if a == [] {
      NothingSplits(b, s);
      i := 0;
    } else {
      var first, rest := a[0], a[1..];
      CatAllFirst(a);
      CatAllFirst(a + b);
      assert (a + b)[1..] == rest + b;
      var j := CatElim(first, CatAll(rest + b), s);
      var k := CatAllSplit(rest, b, s[j..]);
      CatFront(first, CatAll(rest), s, j, k);
      i := j + k;
      assert s[i..] == s[j..][k..];
    }
  }

  lemma NothingJoins(b: seq<Re>, s: string, i: nat)
    requires i <= |s| && Matches(CatAll([]), s[..i]) && Matches(CatAll(b), s[i..])
    ensures Matches(CatAll([] + b), s)
  {
    assert [] + b == b && s[0..] == s;
  }

  lemma {:induction false} CatAllJoin(a: seq<Re>, b: seq<Re>, s: string, i: nat)
    requires i <= |s| && Matches(CatAll(a), s[..i]) && Matches(CatAll(b), s[i..])
    ensures Matches(CatAll(a + b), s)
    decreases |a|
  {
    hide Matches;
    if a == [] {
      NothingJoins(b, s, i);
    } else {
      var tail := a[1..] + b;
      assert (a + b)[0] == a[0] && (a + b)[1..] == tail;
      var j := CatElim(a[0], CatAll(a[1..]), s[..i]);
      var rest := s[j..];
      assert s[..i][..j] == s[..j];
      assert rest[..i - j] == s[..i][j..];
      assert rest[i - j..] == s[i..];
      CatAllJoin(a[1..], b, rest, i - j);
      CatIntro(a[0], CatAll(tail), s, j);
      assert CatAll(a + b) == Cat(a[0], CatAll(tail));
    }
  }

  lemma {:induction false} AltAllIsSome(options: seq<Re>, s: string)
    requires options != []
    ensures Matches(AltAll(options), s) <==> exists k :: 0 <= k < |options| && Matches(options[k], s)
  {
    if |options| > 1 {
      AltAllIsSome(options[1..], s);
      if Matches(AltAll(options[1..]), s) {
        var k :| 0 <= k < |options[1..]| && Matches(options[1..][k], s);
        assert Matches(options[k + 1], s);
      }
      if k :| 0 <= k < |options| && Matches(options[k], s) {
        assert k > 0 ==> Matches(options[1..][k - 1], s);
      }
    }
  }

  const NO_SLASHES: Re := Star(One(NotSlash))

  lemma {:induction false} RunOfNonSlashes(s: string)
    ensures Matches(NO_SLASHES, s) <==> '/' !in s
  {
    if s != "" {
      RunOfNonSlashes(s[1..]);
      assert s == [s[0]] + s[1..];
      if '/' !in s {
        assert s[..1][0] == s[0];
        assert Matches(One(NotSlash), s[..1]) && Matches(NO_SLASHES, s[1..]);
      }
      if Matches(NO_SLASHES, s) {
        var i :| 0 < i <= |s| && Matches(One(NotSlash), s[..i]) && Matches(NO_SLASHES, s[i..]);
        assert i == 1 && s[..1][0] == s[0];
      }
    }
  }
}
