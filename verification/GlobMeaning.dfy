/** What a glob means, said without regular expressions: expand its braces, split it at its slashes, let `**` stand for
    any number of words and match every other part with one word. The meaning is defined for every text. */
module GlobMeaning {
  import opened Regex
  import opened Glob

  function JoinSlash(words: seq<string>): string {
    if words == [] then ""
    else if |words| == 1 then words[0]
    else words[0] + "/" + JoinSlash(words[1..])
  }

  lemma JoinIs(parts: seq<string>)
    ensures parts == [] ==> JoinSlash(parts) == ""
    ensures |parts| == 1 ==> JoinSlash(parts) == parts[0]
    ensures |parts| > 1 ==> JoinSlash(parts) == parts[0] + ("/" + JoinSlash(parts[1..]))
  {
    assert |parts| > 1 ==> parts[0] + "/" + JoinSlash(parts[1..]) == parts[0] + ("/" + JoinSlash(parts[1..]));
  }

  /** A glob as it is meant, and as its emitted classes read. */
  datatype Reading = Meant | Emitted

  // ----- classes

  datatype Span = Span(low: char, high: char)

  /** What a class lists: `x-y` from one character to another, every other character for itself. */
  function Listing(inside: string): seq<Span> {
    if inside == "" then []
    else if |inside| >= 3 && inside[1] == '-' then [Span(inside[0], inside[2])] + Listing(inside[3..])
    else [Span(inside[0], inside[0])] + Listing(inside[1..])
  }

  predicate Among(spans: seq<Span>, c: char) {
    exists i :: 0 <= i < |spans| && spans[i].low <= c <= spans[i].high
  }

  predicate Listed(inside: string, c: char) {
    Among(Listing(inside), c)
  }

  /** A class never means a slash; `!` or `^` in front turns it around. */
  predicate ClassMeans(body: string, c: char) {
    c != '/' && if Negated(body) then !Listed(body[1..], c) else Listed(body, c)
  }

  predicate ClassHas(reading: Reading, body: string, c: char) {
    match reading
    case Meant => ClassMeans(body, c)
    case Emitted => InSet(ClassSet(body), c)
  }

  // ----- patterns without braces

  /** The first piece of a pattern: a class where a bracket is closed, otherwise a character. */
  function Front(e: string): (x: string)
    requires e != ""
    ensures 1 <= |x| <= |e| && x == e[..|x|]
  {
    if e[0] == '[' && Find(e[1..], ']') >= 0 then e[..Find(e[1..], ']') + 2] else e[..1]
  }

  function Rest(e: string): (t: string)
    requires e != ""
    ensures |t| < |e| && e == Front(e) + t
  {
    e[|Front(e)|..]
  }

  predicate IsClass(x: string) {
    |x| >= 2 && x[0] == '['
  }

  function Inside(x: string): string
    requires IsClass(x)
  {
    x[1..|x| - 1]
  }

  /** What one piece takes. Slashes are taken by slashes only, unless an emitted class has one. */
  predicate Takes(reading: Reading, x: string, s: string) {
    if x == "*" then '/' !in s
    else if x == "?" then |s| == 1 && s[0] != '/'
    else if IsClass(x) then |s| == 1 && ClassHas(reading, Inside(x), s[0])
    else s == x
  }

  ghost predicate Wild(reading: Reading, e: string, s: string)
    decreases |e|
  {
    if e == "" then
      s == ""
    else
      exists j :: 0 <= j <= |s| && Takes(reading, Front(e), s[..j]) && Wild(reading, Rest(e), s[j..])
  }

  /** `x` put in front of the first of some strings. */
  function Prepend(x: string, b: seq<string>): (r: seq<string>)
    requires b != []
    ensures |r| == |b|
  {
    [x + b[0]] + b[1..]
  }

  /** The parts between the slashes outside of classes. */
  function Parts(e: string): (r: seq<string>)
    ensures r != []
    decreases |e|
  {
    if e == "" then [""]
    else if e[0] == '/' then [""] + Parts(e[1..])
    else Prepend(Front(e), Parts(Rest(e)))
  }

  predicate IsGlobstar(part: string) {
    part == "**"
  }

  /** A part against a stretch of words. As it is meant it takes one word; its emitted classes may take the slashes
      between several. */
  ghost predicate PartTakes(reading: Reading, part: string, words: seq<string>) {
    && words != []
    && (reading.Meant? ==> |words| == 1)
    && Wild(reading, part, JoinSlash(words))
  }

  ghost predicate Meaning(reading: Reading, parts: seq<string>, words: seq<string>)
    decreases |parts|
  {
    if parts == [] then
      words == []
    else
      exists k :: 0 <= k <= |words| && (IsGlobstar(parts[0]) || PartTakes(reading, parts[0], words[..k]))
                  && Meaning(reading, parts[1..], words[k..])
  }

  // ----- all globs

  predicate OpensBrace(t: string) {
    t != "" && t[0] == '{' && Find(t[1..], '}') >= 0
  }

  /** The options of the brace in front, and what stands behind it. */
  function OptionsOf(t: string): (options: seq<string>)
    requires OpensBrace(t)
    ensures options != [] && forall i :: 0 <= i < |options| ==> |options[i]| < |t|
  {
    SplitOn(t[1..][..Find(t[1..], '}')], ',')
  }

  function Behind(t: string): (r: string)
    requires OpensBrace(t)
    ensures |r| < |t|
  {
    t[1..][Find(t[1..], '}') + 1..]
  }

  /** `e` is `t` with one option in the place of each brace that is closed. */
  ghost predicate IsExpansion(t: string, e: string)
    decreases |t|
  {
    if t == "" then
      e == ""
    else if OpensBrace(t) then
      exists k :: 0 <= k < |OptionsOf(t)| && OptionsOf(t)[k] <= e && IsExpansion(Behind(t), e[|OptionsOf(t)[k]|..])
    else
      Front(t) <= e && IsExpansion(Rest(t), e[|Front(t)|..])
  }

  /** A glob means a path, given by its words, when one of its expansions does. */
  ghost predicate Means(t: string, words: seq<string>) {
    exists e :: IsExpansion(t, e) && Meaning(Meant, Parts(e), words)
  }

  /** A word of a normalised path. */
  predicate WordOk(word: string) {
    word != "" && '/' !in word
  }

  ghost predicate WordsOk(words: seq<string>) {
    forall i :: 0 <= i < |words| ==> WordOk(words[i])
  }

  ghost predicate IsPath(words: seq<string>) {
    words != [] && WordsOk(words)
  }

  // ----- pieces

  /** What stands behind does not close a bracket left open. */
  predicate Sealed(a: string, t: string) {
    Closed(a) || ']' !in t
  }

  /** No bracket is left open. */
  predicate Closed(a: string)
    decreases |a|
  {
    a == "" || (Front(a) != "[" && Closed(Rest(a)))
  }

  lemma {:induction false} FindIs(s: string, c: char, r: nat)
    requires r < |s| && s[r] == c && forall j :: 0 <= j < r ==> s[j] != c
    ensures Find(s, c) == r
  {
    if r > 0 {
      FindIs(s[1..], c, r - 1);
    }
  }

  lemma FindInFront(a: string, t: string, c: char)
    requires c in a || c !in t
    ensures Find(a + t, c) == Find(a, c)
  {
    if c in a {
      FindIs(a + t, c, Find(a, c));
    }
  }

  /** The first piece of a pattern with more behind it. */
  lemma {:induction false} FrontStays(a: string, t: string)
    requires a != "" && (Front(a) != "[" || ']' !in t)
    ensures Front(a + t) == Front(a) && Rest(a + t) == Rest(a) + t
  {
    var rest := a[1..];
    assert (a + t)[1..] == rest + t;
    if a[0] == '[' {
      assert Find(rest, ']') < 0 ==> Front(a) == "[";
      FindInFront(rest, t, ']');
    }
    assert (a + t)[..|Front(a)|] == a[..|Front(a)|];
  }

  lemma FrontAppend(a: string, t: string)
    requires a != "" && Sealed(a, t)
    ensures Front(a + t) == Front(a) && Rest(a + t) == Rest(a) + t && Sealed(Rest(a), t)
  {
    FrontStays(a, t);
  }

  /** A piece is a piece again with anything behind it, except for a bracket that is closed there. */
  lemma {:induction false} PieceFront(e: string, t: string)
    requires e != "" && Sealed(Front(e), t)
    ensures Front(Front(e) + t) == Front(e) && Rest(Front(e) + t) == t
  {
    var x := Front(e);
    PieceIsItsFront(e);
    FrontAppend(x, t);
    assert Rest(x) == "";
    assert "" + t == t;
  }

  lemma PieceIsItsFront(e: string)
    requires e != ""
    ensures Front(Front(e)) == Front(e) && Rest(Front(e)) == ""
  {
    var x := Front(e);
    if IsClass(x) {
      var close := Find(e[1..], ']');
      assert x[1..] == e[1..][..close + 1];
      assert forall j :: 0 <= j < close ==> x[1..][j] == e[1..][..close][j];
      FindIs(x[1..], ']', close);
    }
  }

  /** A class inside brackets. */
  lemma {:induction false} ClassFront(body: string, t: string)
    requires ']' !in body
    ensures var e := "[" + body + "]" + t;
            && Front(e) == "[" + body + "]" && Rest(e) == t && IsClass(Front(e)) && Inside(Front(e)) == body
  {
    var e := "[" + body + "]" + t;
    assert e[1..] == body + "]" + t;
    assert forall j :: 0 <= j < |body| ==> e[1..][j] == body[j];
    FindIs(e[1..], ']', |body|);
    assert e[..|body| + 2] == "[" + body + "]";
  }

  lemma CharFront(c: char, t: string)
    requires c == '[' ==> ']' !in t
    ensures Front([c] + t) == [c] && Rest([c] + t) == t
  {
    assert ([c] + t)[1..] == t && ([c] + t)[..1] == [c];
  }

  // ----- wildcards

  lemma NothingWild(reading: Reading)
    ensures forall s :: Wild(reading, "", s) <==> s == ""
  {
  }

  lemma WildStep(reading: Reading, e: string, s: string) returns (j: nat)
    requires e != "" && Wild(reading, e, s)
    ensures j <= |s| && Takes(reading, Front(e), s[..j]) && Wild(reading, Rest(e), s[j..])
  {
    j :| 0 <= j <= |s| && Takes(reading, Front(e), s[..j]) && Wild(reading, Rest(e), s[j..]);
  }

  lemma WildMore(reading: Reading, e: string, u: string, v: string)
    requires e != "" && Takes(reading, Front(e), u) && Wild(reading, Rest(e), v)
    ensures Wild(reading, e, u + v)
  {
    assert (u + v)[..|u|] == u && (u + v)[|u|..] == v;
  }

  /** A pattern in front of another one matches a front of the string. */
  lemma {:induction false} WildSplit(reading: Reading, a: string, t: string, s: string) returns (i: nat)
    requires Sealed(a, t) && Wild(reading, a + t, s)
    ensures i <= |s| && Wild(reading, a, s[..i]) && Wild(reading, t, s[i..])
    decreases |a|
  {
    hide Wild, Sealed, Takes;
    if a == "" {
      i := 0;
      NothingWild(reading);
      assert a + t == t && s[0..] == s;
    } else {
      FrontAppend(a, t);
      var j := WildStep(reading, a + t, s);
      var k := WildSplit(reading, Rest(a), t, s[j..]);
      i := j + k;
      WildMore(reading, a, s[..j], s[j..][..k]);
      assert s[..i] == s[..j] + s[j..][..k] && s[i..] == s[j..][k..];
    }
  }

  lemma {:induction false} WildJoin(reading: Reading, a: string, t: string, u: string, v: string)
    requires Sealed(a, t) && Wild(reading, a, u) && Wild(reading, t, v)
    ensures Wild(reading, a + t, u + v)
    decreases |a|
  {
    hide Wild, Sealed, Takes;
    if a == "" {
      NothingWild(reading);
      assert a + t == t && u + v == v;
    } else {
      FrontAppend(a, t);
      var j := WildStep(reading, a, u);
      WildJoin(reading, Rest(a), t, u[j..], v);
      WildMore(reading, a + t, u[..j], u[j..] + v);
      assert u + v == u[..j] + (u[j..] + v);
    }
  }

  /** One piece alone. */
  lemma WildPiece(reading: Reading, e: string, s: string)
    requires e != "" && Rest(e) == ""
    ensures Wild(reading, e, s) <==> Takes(reading, Front(e), s)
  {
    NothingWild(reading);
    assert s[..|s|] == s && s[|s|..] == "";
    assert Takes(reading, Front(e), s) ==> Wild(reading, Rest(e), s[|s|..]);
  }

  // ----- emitted classes

  /** What a class lists is what the engine finds in it. */
  lemma {:induction false} ListedIsInRanges(inside: string, c: char)
    ensures InRanges(inside, c) <==> Listed(inside, c)
  {
    if inside != "" {
      var step := if |inside| >= 3 && inside[1] == '-' then 3 else 1;
      var rest := inside[step..];
      ListedIsInRanges(rest, c);
      var all, more := Listing(inside), Listing(rest);
      assert all[1..] == more;
      if i :| 0 <= i < |more| && more[i].low <= c <= more[i].high {
        assert all[i + 1] == more[i];
      }
      if i :| 0 <= i < |all| && all[i].low <= c <= all[i].high {
        assert i > 0 ==> more[i - 1] == all[i];
      }
    }
  }

  /** The text the engine reads in a class. */
  function EmittedText(body: string): string {
    if Negated(body) then "/" + body[1..] else body
  }

  /** No range of the emitted class runs backwards. */
  predicate InOrder(body: string) {
    Ordered(EmittedText(body))
  }

  /** The members of a compiled class, and when the engine takes it. */
  lemma EmittedAre(body: string, c: char)
    ensures ClassHas(Emitted, body, c) <==> InOrder(body) && (Listed(EmittedText(body), c) != Negated(body))
    ensures AcceptedSet(ClassSet(body)) <==> InOrder(body)
  {
    EscapedIsRead(if Negated(body) then body[1..] else body);
    ListedIsInRanges(EmittedText(body), c);
  }

  /** A negated class never takes a slash, as the slash put in front is the low end of a range or stands for itself. */
  lemma NegatedTakesNoSlash(body: string)
    requires Negated(body)
    ensures !ClassHas(Emitted, body, '/')
  {
    var text := EmittedText(body);
    assert text[0] == '/';
    EmittedAre(body, '/');
    ListedIsInRanges(text, '/');
  }
}
