/** The exclude rules built on the glob compiler (`excludeRules` and `isExcluded` of `apps/vscode/src/glob.ts`). */
module GlobExclude {
  import opened Options
  import opened Regex
  import Glob
  import opened GlobMeaning
  import opened GlobPaths
  import opened GlobSegments
  import opened GlobCorrect

  /** A setting's value: on, on while a sibling is there, or off. */
  datatype Value = On | When(sibling: string) | Off

  datatype Setting = Setting(glob: string, value: Value)

  datatype Rule = Rule(pattern: Re, sibling: Option<string>)

  /** The rule of a setting that is on; none where its expression is refused. */
  function RuleOf(setting: Setting): Option<Rule>
    requires !setting.value.Off?
  {
    match Glob.PatternOf(setting.glob)
    case Some(pattern) => Some(Rule(pattern, if setting.value.When? then Some(setting.value.sibling) else None))
    case None => None
  }

  /** The rules of the settings that are on, in order; none at all where one of them is refused, as the code throws. */
  function RulesOf(config: seq<Setting>): Option<seq<Rule>> {
    if config == [] then
      Some([])
    else
      var front, last := RulesOf(config[..|config| - 1]), config[|config| - 1];
      if front.None? || last.value.Off? then front
      else if RuleOf(last).None? then None
      else Some(front.value + [RuleOf(last).value])
  }

  lemma {:induction false} RefusalStays(config: seq<Setting>, i: nat)
    requires i <= |config| && RulesOf(config[..i]).None?
    ensures RulesOf(config).None?
    decreases |config|
  {
    if i < |config| {
      assert config[..|config| - 1][..i] == config[..i];
      RefusalStays(config[..|config| - 1], i);
    } else {
      assert config[..i] == config;
    }
  }

  method ExcludeRules(config: seq<Setting>) returns (rules: Option<seq<Rule>>)
    ensures rules == RulesOf(config)
  {
    var all: seq<Rule> := [];
    for i := 0 to |config|
      invariant RulesOf(config[..i]) == Some(all)
    {
      var setting := config[i];
      assert config[..i + 1][..i] == config[..i];
      match setting.value {
        case On =>
          var pattern := Glob.GlobToRegExp(setting.glob);
          if pattern.None? {
            RefusalStays(config, i + 1);
            return None;
          }
          all := all + [Rule(pattern.value, None)];
        case When(sibling) =>
          var pattern := Glob.GlobToRegExp(setting.glob);
          if pattern.None? {
            RefusalStays(config, i + 1);
            return None;
          }
          all := all + [Rule(pattern.value, Some(sibling))];
        case Off =>
      }
    }
    assert config[..|config|] == config;
    rules := Some(all);
  }

  // ----- the sibling a rule waits for

  const BASENAME: string := "$(basename)"

  function LastDot(name: string): (r: int)
    ensures -1 <= r < |name|
  {
    if name == "" then -1 else if name[|name| - 1] == '.' then |name| - 1 else LastDot(name[..|name| - 1])
  }

  function Stem(name: string): string {
    if LastDot(name) > 0 then name[..LastDot(name)] else name
  }

  lemma {:induction false} LastDotIs(base: string, ext: string)
    requires '.' !in ext
    ensures LastDot(base + "." + ext) == |base|
    ensures LastDot(ext) == -1
  {
    var name := base + "." + ext;
    if ext == "" {
      assert name[|name| - 1] == '.';
    } else {
      var front := ext[..|ext| - 1];
      LastDotIs(base, front);
      assert ext[|ext| - 1] in ext && name[|name| - 1] == ext[|ext| - 1];
      assert name[..|name| - 1] == base + "." + front;
      assert forall c :: c in front ==> c in ext;
    }
  }

  /** The stem of a name is what stands in front of its last dot, unless that comes first; without a dot it is the name. */
  lemma {:induction false} StemIs(base: string, ext: string)
    requires '.' !in ext
    ensures base != "" ==> Stem(base + "." + ext) == base
    ensures Stem("." + ext) == "." + ext && Stem(ext) == ext
  {
    LastDotIs(base, ext);
    LastDotIs("", ext);
    assert "" + "." + ext == "." + ext;
    assert (base + "." + ext)[..|base|] == base;
  }

  predicate IsPattern(c: char) {
    c == '$' || c == '&' || c == '`' || c == '\''
  }

  /** What `replaceAll` puts in place of a match: a dollar in the replacement may stand for a piece of the text. */
  function Expand(replacement: string, matched: string, before: string, after: string): string
    decreases |replacement|
  {
    if replacement == "" then
      ""
    else if |replacement| >= 2 && replacement[0] == '$' && IsPattern(replacement[1]) then
      (match replacement[1]
       case '$' => "$"
       case '&' => matched
       case '`' => before
       case _ => after) + Expand(replacement[2..], matched, before, after)
    else
      [replacement[0]] + Expand(replacement[1..], matched, before, after)
  }

  /** The four patterns of a replacement: the dollar itself, the match, and what stands before and behind it. Any other
      character stands for itself, a dollar included. */
  lemma {:induction false} PatternsStand(rest: string, matched: string, before: string, after: string, c: char)
    ensures Expand("$$" + rest, matched, before, after) == "$" + Expand(rest, matched, before, after)
    ensures Expand("$&" + rest, matched, before, after) == matched + Expand(rest, matched, before, after)
    ensures Expand("$`" + rest, matched, before, after) == before + Expand(rest, matched, before, after)
    ensures Expand("$'" + rest, matched, before, after) == after + Expand(rest, matched, before, after)
    ensures c != '$' ==> Expand([c] + rest, matched, before, after) == [c] + Expand(rest, matched, before, after)
    ensures rest == "" || (rest[0] != '$' && rest[0] != '&' && rest[0] != '`' && rest[0] != '\'') ==>
              Expand("$" + rest, matched, before, after) == "$" + Expand(rest, matched, before, after)
    ensures Expand("", matched, before, after) == ""
  {
    assert ("$$" + rest)[2..] == rest && ("$&" + rest)[2..] == rest && ("$`" + rest)[2..] == rest && ("$'" + rest)[2..] == rest;
    assert ([c] + rest)[1..] == rest && ("$" + rest)[1..] == rest;
  }

  function ReplaceFrom(text: string, at: nat, replacement: string): string
    requires at <= |text|
    decreases |text| - at
  {
    if at + |BASENAME| > |text| then
      text[at..]
    else if text[at..at + |BASENAME|] == BASENAME then
      Expand(replacement, BASENAME, text[..at], text[at + |BASENAME|..]) + ReplaceFrom(text, at + |BASENAME|, replacement)
    else
      [text[at]] + ReplaceFrom(text, at + 1, replacement)
  }

  function Sibling(when: string, name: string): string {
    ReplaceFrom(when, 0, Stem(name))
  }

  /** A dollar that stands for something. */
  predicate HasPattern(s: string) {
    |s| >= 2 && ((s[0] == '$' && IsPattern(s[1])) || HasPattern(s[1..]))
  }

  lemma {:induction false} ExpandKeeps(s: string, matched: string, before: string, after: string)
    requires !HasPattern(s)
    ensures Expand(s, matched, before, after) == s
    decreases |s|
  {
    if s != "" {
      ExpandKeeps(s[1..], matched, before, after);
    }
  }

  function Parens(s: string): nat {
    if s == "" then 0 else (if s[0] == '(' then 1 else 0) + Parens(s[1..])
  }

  lemma {:induction false} ParensAppend(a: string, b: string)
    ensures Parens(a + b) == Parens(a) + Parens(b)
  {
    if a == "" {
      assert a + b == b;
    } else {
      assert (a + b)[1..] == a[1..] + b;
      ParensAppend(a[1..], b);
    }
  }

  lemma BasenameHasOne()
    ensures Parens(BASENAME) >= 1
  {
    assert BASENAME == "$" + "(basename)";
    ParensAppend("$", "(basename)");
  }

  /** A text with a pattern in it changes, even where nothing stands before or after the match: it gains a parenthesis or
      loses a character. */
  lemma {:induction false} ExpandChanges(s: string)
    ensures Parens(Expand(s, BASENAME, "", "")) >= Parens(s)
    ensures Parens(Expand(s, BASENAME, "", "")) == Parens(s) ==>
              |Expand(s, BASENAME, "", "")| <= |s| && (HasPattern(s) ==> |Expand(s, BASENAME, "", "")| < |s|)
    decreases |s|
  {
    hide Parens;
    if s == "" {
    } else if |s| >= 2 && s[0] == '$' && IsPattern(s[1]) {
      var tail := Expand(s[2..], BASENAME, "", "");
      ExpandChanges(s[2..]);
      assert s == s[..2] + s[2..];
      ParensAppend(s[..2], s[2..]);
      PatternHasNone(s[..2]);
      ParensAppend("$", tail);
      PatternHasNone("$");
      ParensAppend(BASENAME, tail);
      BasenameHasOne();
      assert "" + tail == tail;
    } else {
      var tail := Expand(s[1..], BASENAME, "", "");
      ExpandChanges(s[1..]);
      assert s == [s[0]] + s[1..];
      ParensAppend([s[0]], s[1..]);
      ParensAppend([s[0]], tail);
    }
  }

  lemma PatternHasNone(s: string)
    requires |s| <= 2 && '(' !in s
    ensures Parens(s) == 0
  {
  }

  /** The stem in the place of every `$(basename)`. */
  function PutIn(text: string, stem: string): string {
    if text == "" then ""
    else if BASENAME <= text then stem + PutIn(text[|BASENAME|..], stem)
    else [text[0]] + PutIn(text[1..], stem)
  }

  lemma {:induction false} TooShort(text: string, stem: string)
    requires |text| < |BASENAME|
    ensures PutIn(text, stem) == text
  {
    if text != "" {
      TooShort(text[1..], stem);
    }
  }

  lemma {:induction false} ReplaceIsPutIn(text: string, at: nat, stem: string)
    requires at <= |text| && !HasPattern(stem)
    ensures ReplaceFrom(text, at, stem) == PutIn(text[at..], stem)
    decreases |text| - at
  {
    var rest := text[at..];
    if |rest| < |BASENAME| {
      TooShort(rest, stem);
    } else {
      assert text[at..at + |BASENAME|] == rest[..|BASENAME|];
      if BASENAME <= rest {
        ExpandKeeps(stem, BASENAME, text[..at], text[at + |BASENAME|..]);
        ReplaceIsPutIn(text, at + |BASENAME|, stem);
        assert rest[|BASENAME|..] == text[at + |BASENAME|..];
      } else {
        ReplaceIsPutIn(text, at + 1, stem);
      }
    }
  }

  lemma NameAlone(name: string)
    ensures Sibling(BASENAME, name) == Expand(Stem(name), BASENAME, "", "")
    ensures PutIn(BASENAME, Stem(name)) == Stem(name)
  {
    var stem, n := Stem(name), |BASENAME|;
    hide Expand, Stem;
    assert BASENAME[0..n] == BASENAME && BASENAME[..0] == "" && BASENAME[n..] == "";
    assert ReplaceFrom(BASENAME, n, stem) == "";
    assert PutIn("", stem) == "";
  }

  /** In every sibling's name a file's stem takes the place of `$(basename)` as it is exactly when no dollar in the stem
      stands for something. */
  lemma StemIsPutInIff(name: string)
    ensures (forall sibling :: Sibling(sibling, name) == PutIn(sibling, Stem(name))) <==> !HasPattern(Stem(name))
  {
    hide Expand, Stem, HasPattern, Parens;
    if HasPattern(Stem(name)) {
      NameAlone(name);
      ExpandChanges(Stem(name));
    } else {
      forall sibling
        ensures Sibling(sibling, name) == PutIn(sibling, Stem(name))
      {
        ReplaceIsPutIn(sibling, 0, Stem(name));
        assert sibling[0..] == sibling;
      }
    }
  }

  /** A file named `$&` waits for a sibling named after the pattern itself. */
  lemma AmpersandIsLost()
    ensures Sibling(BASENAME, "$&") == BASENAME && PutIn(BASENAME, Stem("$&")) == "$&"
  {
    var name: string := "$&";
    assert LastDot("") == -1 && name[..2 - 1] == "$" && "$"[..0] == "";
    assert Stem(name) == name;
    NameAlone(name);
    assert name[2..] == "" && Expand("", BASENAME, "", "") == "";
    assert Expand(name, BASENAME, "", "") == BASENAME + "";
  }

  // ----- exclusion

  ghost predicate IsExcluded(rules: seq<Rule>, path: string, name: string, siblings: set<string>) {
    exists i :: 0 <= i < |rules| && Applies(rules[i], path, name, siblings)
  }

  ghost predicate Applies(rule: Rule, path: string, name: string, siblings: set<string>) {
    Matches(rule.pattern, path) && (rule.sibling.None? || Sibling(rule.sibling.value, name) in siblings)
  }

  /** A setting waits for no sibling, or for one that is there. */
  predicate SiblingThere(setting: Setting, name: string, siblings: set<string>) {
    setting.value.When? ==> Sibling(setting.value.sibling, name) in siblings
  }

  /** A setting that is on, whose compiled glob takes the path. */
  ghost predicate PathTaken(setting: Setting, words: seq<string>, name: string, siblings: set<string>) {
    && !setting.value.Off? && SiblingThere(setting, name, siblings)
    && Good(Glob.Segments(Glob.Trimmed(setting.glob), 0)) && Reads(Glob.Segments(Glob.Trimmed(setting.glob), 0), words)
  }

  /** A setting that is on, whose glob means the path. */
  ghost predicate Excludes(setting: Setting, words: seq<string>, name: string, siblings: set<string>) {
    !setting.value.Off? && SiblingThere(setting, name, siblings) && Means(Glob.Trimmed(setting.glob), words)
  }

  /** There are rules exactly when the engine takes the expressions of the settings that are on. */
  lemma {:induction false} RulesAreThereIff(config: seq<Setting>)
    ensures RulesOf(config).Some?
       <==> forall i :: 0 <= i < |config| ==> config[i].value.Off? || GlobInOrder(Glob.Trimmed(config[i].glob))
  {
    hide GlobInOrder, Glob.Trimmed;
    RulesWhenCompiled(config);
    forall i | 0 <= i < |config|
      ensures Compiles(config[i]) <==> config[i].value.Off? || GlobInOrder(Glob.Trimmed(config[i].glob))
    {
      CompilesIff(config[i].glob);
    }
  }

  predicate Compiles(setting: Setting) {
    setting.value.Off? || Glob.PatternOf(setting.glob).Some?
  }

  lemma {:induction false} RulesWhenCompiled(config: seq<Setting>)
    ensures RulesOf(config).Some? <==> forall i :: 0 <= i < |config| ==> Compiles(config[i])
  {
    hide RulesOf, Compiles;
    if config == [] {
      NoRules();
    } else {
      var n := |config| - 1;
      assert forall i :: 0 <= i < n ==> config[..n][i] == config[i];
      RulesWhenCompiled(config[..n]);
      OneRuleMore(config);
    }
  }

  lemma OneRuleMore(config: seq<Setting>)
    requires config != []
    ensures var n := |config| - 1;
            RulesOf(config).Some? <==> RulesOf(config[..n]).Some? && Compiles(config[n])
  {
    hide Glob.PatternOf;
  }

  lemma NoRules()
    ensures RulesOf([]) == Some([])
  {
  }

  lemma {:induction false} LastRule(config: seq<Setting>, words: seq<string>, name: string, siblings: set<string>)
    requires config != [] && RulesOf(config).Some? && IsPath(words)
    ensures RulesOf(config[..|config| - 1]).Some?
    ensures var path, before, all := JoinSlash(words), RulesOf(config[..|config| - 1]).value, RulesOf(config).value;
            IsExcluded(all, path, name, siblings)
            <==> IsExcluded(before, path, name, siblings) || PathTaken(config[|config| - 1], words, name, siblings)
  {
    hide Matches, Reads, Good, IsPath, Sibling, JoinSlash;
    var last, path := config[|config| - 1], JoinSlash(words);
    var before, all := RulesOf(config[..|config| - 1]).value, RulesOf(config).value;
    assert forall i :: 0 <= i < |before| ==> all[i] == before[i];
    if !last.value.Off? {
      GlobstarsMatch(last.glob, words);
      assert Applies(all[|before|], path, name, siblings) <==> PathTaken(last, words, name, siblings);
    }
  }

  /** End to end, for all settings: where there are rules, a normalised path is excluded exactly when the segments of some
      setting that is on take it, and the sibling it waits for is there. */
  lemma {:induction false} ExclusionTakes(config: seq<Setting>, words: seq<string>, name: string, siblings: set<string>)
    requires IsPath(words) && RulesOf(config).Some?
    ensures IsExcluded(RulesOf(config).value, JoinSlash(words), name, siblings)
       <==> exists i :: 0 <= i < |config| && PathTaken(config[i], words, name, siblings)
  {
    hide RulesOf, PathTaken, IsPath, JoinSlash;
    if config == [] {
      NoRules();
    } else {
      var n := |config| - 1;
      LastRule(config, words, name, siblings);
      ExclusionTakes(config[..n], words, name, siblings);
      assert forall i :: 0 <= i < n ==> config[..n][i] == config[i];
      if i :| 0 <= i < n && PathTaken(config[..n][i], words, name, siblings) {
        assert PathTaken(config[i], words, name, siblings);
      }
    }
  }

  /** Where the globs of the settings that are on keep their meaning, exactly when one of them means it. */
  lemma {:induction false} ExclusionMeans(config: seq<Setting>, words: seq<string>, name: string, siblings: set<string>)
    requires IsPath(words) && forall i :: 0 <= i < |config| ==> config[i].value.Off? || Kept(config[i].glob)
    ensures RulesOf(config).Some?
    ensures IsExcluded(RulesOf(config).value, JoinSlash(words), name, siblings)
       <==> exists i :: 0 <= i < |config| && Excludes(config[i], words, name, siblings)
  {
    hide RulesOf, IsPath, JoinSlash, Reads, Good, Means, IsExcluded, GlobInOrder, GlobMatches, Glob.PatternOf, SiblingThere;
    forall i | 0 <= i < |config| && !config[i].value.Off?
      ensures GlobInOrder(Glob.Trimmed(config[i].glob))
      ensures PathTaken(config[i], words, name, siblings) <==> Excludes(config[i], words, name, siblings)
    {
      CompilesIff(config[i].glob);
      GlobstarsMatch(config[i].glob, words);
    }
    RulesAreThereIff(config);
    ExclusionTakes(config, words, name, siblings);
  }
}
