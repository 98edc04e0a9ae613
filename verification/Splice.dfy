/** The replace preview of `apps/vscode/src/search-view.ts`: matches are spliced into the text from the back, so that every
    offset still counts in the original. */
module Splice {

  /** A match as found: where, and what stood there. */
  datatype Match = Match(start: nat, end: nat, text: string)

  datatype Change = Change(start: nat, end: nat, text: string)

  predicate InText(text: string, m: Match) {
    m.start <= m.end <= |text|
  }

  predicate AllInText(text: string, matches: seq<Match>) {
    forall i :: 0 <= i < |matches| ==> InText(text, matches[i])
  }

  predicate ChangeInText(text: string, c: Change) {
    c.start <= c.end <= |text|
  }

  predicate Apart(a: Change, b: Change) {
    a.start != b.start && (a.end <= b.start || b.end <= a.start)
  }

  ghost predicate Disjoint(changes: seq<Change>) {
    forall i, j :: 0 <= i < j < |changes| ==> Apart(changes[i], changes[j])
  }

  ghost predicate Within(text: string, changes: seq<Change>) {
    forall i :: 0 <= i < |changes| ==> ChangeInText(text, changes[i])
  }

  /** In the order of the text, none reaching into the next. */
  ghost predicate InOrder(changes: seq<Change>) {
    forall i, j :: 0 <= i < j < |changes| ==> changes[i].start < changes[j].start && changes[i].end <= changes[j].start
  }

  // ----- what a preview is

  /** Every change at once: the gaps of the original with the replacements between them. */
  function Substituted(text: string, changes: seq<Change>, from: nat): string
    decreases |changes|
  {
    if changes == [] then
      From(text, from)
    else
      Between(text, from, changes[0].start) + changes[0].text + Substituted(text, changes[1..], changes[0].end)
  }

  function From(text: string, from: nat): string {
    if from <= |text| then text[from..] else ""
  }

  function Between(text: string, from: nat, to: nat): string {
    if from <= to <= |text| then text[from..to] else ""
  }

  // ----- the program

  /** The matches that still stand where they were found, with what replaces them. */
  function Fresh(text: string, matches: seq<Match>, replacementFor: string -> string): seq<Change>
    requires AllInText(text, matches)
  {
    if matches == [] then
      []
    else
      var m := matches[|matches| - 1];
      assert InText(text, m);
      Fresh(text, matches[..|matches| - 1], replacementFor)
      + if text[m.start..m.end] == m.text then [Change(m.start, m.end, replacementFor(m.text))] else []
  }

  /** A match becomes a change exactly when its text still stands there, and the change is its replacement in place. */
  lemma {:induction false} FreshAre(text: string, matches: seq<Match>, replacementFor: string -> string, c: Change)
    requires AllInText(text, matches)
    ensures c in Fresh(text, matches, replacementFor)
            <==> exists i :: 0 <= i < |matches| && c.start == matches[i].start && c.end == matches[i].end
                   && text[c.start..c.end] == matches[i].text && c.text == replacementFor(matches[i].text)
  {
    if matches != [] {
      var front, last := matches[..|matches| - 1], matches[|matches| - 1];
      FreshAre(text, front, replacementFor, c);
      assert InText(text, last);
      assert forall i :: 0 <= i < |front| ==> front[i] == matches[i];
      if c.start == last.start && c.end == last.end && text[c.start..c.end] == last.text && c.text == replacementFor(last.text) {
        assert matches[|matches| - 1] == last;
      }
    }
  }

  /** The changes by descending start. */
  function Sorted(changes: seq<Change>): seq<Change> {
    if changes == [] then [] else Inserted(Sorted(changes[1..]), changes[0])
  }

  function Inserted(sorted: seq<Change>, c: Change): seq<Change> {
    if sorted == [] || sorted[0].start <= c.start then [c] + sorted else [sorted[0]] + Inserted(sorted[1..], c)
  }

  function Reversed(s: seq<Change>): seq<Change> {
    if s == [] then [] else Reversed(s[1..]) + [s[0]]
  }

  method Preview(text: string, matches: seq<Match>, replacementFor: string -> string) returns (preview: string)
    requires AllInText(text, matches)
    requires Disjoint(Fresh(text, matches, replacementFor))
    ensures var changes := Fresh(text, matches, replacementFor);
            var inOrder := Reversed(Sorted(changes));
            && preview == Substituted(text, inOrder, 0)
            && InOrder(inOrder) && Within(text, inOrder) && multiset(inOrder) == multiset(changes)
  {
    hide Fresh, Sorted, Disjoint, Descending, InOrder, Within, Reversed, Substituted;
    ghost var changes := Fresh(text, matches, replacementFor);
    var replaced := Sorted(Fresh(text, matches, replacementFor));
    FreshAreWithin(text, matches, replacementFor);
    SortedIsDescending(text, changes);
    SortedHas(changes);
    ReversedIsInOrder(text, replaced);
    preview := text;
    NothingSpliced(text, replaced);
    for i := 0 to |replaced|
      invariant preview == Substituted(text, Reversed(replaced[..i]), 0)
    {
      var change := replaced[i];
      OneMoreSplice(text, replaced, i);
      preview := preview[..change.start] + change.text + preview[change.end..];
    }
    assert replaced[..|replaced|] == replaced;
  }

  // ----- sorting

  ghost predicate Descending(changes: seq<Change>) {
    forall i, j :: 0 <= i < j < |changes| ==> changes[j].start < changes[i].start && changes[j].end <= changes[i].start
  }

  lemma {:induction false} FreshAreWithin(text: string, matches: seq<Match>, replacementFor: string -> string)
    requires AllInText(text, matches)
    ensures Within(text, Fresh(text, matches, replacementFor))
  {
    if matches != [] {
      FreshAreWithin(text, matches[..|matches| - 1], replacementFor);
    }
  }

  lemma {:induction false} InsertedHas(sorted: seq<Change>, c: Change)
    ensures multiset(Inserted(sorted, c)) == multiset(sorted) + multiset{c}
  {
    if sorted != [] && sorted[0].start > c.start {
      InsertedHas(sorted[1..], c);
      assert sorted == [sorted[0]] + sorted[1..];
    }
  }

  lemma FromEither(sorted: seq<Change>, c: Change, i: nat)
    requires i < |Inserted(sorted, c)|
    ensures Inserted(sorted, c)[i] == c || Inserted(sorted, c)[i] in sorted
  {
    hide Inserted;
    InsertedHas(sorted, c);
    assert Inserted(sorted, c)[i] in multiset(Inserted(sorted, c));
  }

  lemma {:induction false} InsertedKeeps(text: string, sorted: seq<Change>, c: Change)
    requires Descending(sorted) && Within(text, sorted) && ChangeInText(text, c)
    requires forall i :: 0 <= i < |sorted| ==> Apart(sorted[i], c)
    ensures Descending(Inserted(sorted, c)) && Within(text, Inserted(sorted, c))
  {
    if sorted == [] || sorted[0].start <= c.start {
      InFrontOf(text, c, sorted);
    } else {
      var rest := Inserted(sorted[1..], c);
      InsertedKeeps(text, sorted[1..], c);
      forall i | 0 <= i < |rest|
        ensures rest[i].start < sorted[0].start && rest[i].end <= sorted[0].start
      {
        FromEither(sorted[1..], c, i);
      }
      hide Inserted;
      Headed(text, sorted[0], rest);
    }
  }

  lemma InFrontOf(text: string, c: Change, sorted: seq<Change>)
    requires Descending(sorted) && Within(text, sorted) && ChangeInText(text, c)
    requires forall i :: 0 <= i < |sorted| ==> Apart(sorted[i], c)
    requires sorted != [] ==> sorted[0].start <= c.start
    ensures Descending([c] + sorted) && Within(text, [c] + sorted)
  {
    forall i | 0 <= i < |sorted| ensures sorted[i].start < c.start && sorted[i].end <= c.start {
      assert ChangeInText(text, sorted[i]);
    }
    Headed(text, c, sorted);
  }

  lemma Headed(text: string, first: Change, rest: seq<Change>)
    requires Descending(rest) && Within(text, rest) && ChangeInText(text, first)
    requires forall i :: 0 <= i < |rest| ==> rest[i].start < first.start && rest[i].end <= first.start
    ensures Descending([first] + rest) && Within(text, [first] + rest)
  {
  }

  lemma RestIsDisjoint(text: string, changes: seq<Change>)
    requires changes != [] && Disjoint(changes) && Within(text, changes)
    ensures Disjoint(changes[1..]) && Within(text, changes[1..]) && ChangeInText(text, changes[0])
  {
  }

  lemma ApartFromRest(changes: seq<Change>, rest: seq<Change>, i: nat)
    requires changes != [] && Disjoint(changes) && multiset(rest) == multiset(changes[1..]) && i < |rest|
    ensures Apart(rest[i], changes[0])
  {
    assert rest[i] in multiset(changes[1..]);
    var j :| 0 <= j < |changes[1..]| && changes[1..][j] == rest[i];
    assert Apart(changes[0], changes[j + 1]);
  }

  lemma {:induction false} SortedHas(changes: seq<Change>)
    ensures multiset(Sorted(changes)) == multiset(changes)
  {
    hide Inserted;
    if changes != [] {
      SortedHas(changes[1..]);
      InsertedHas(Sorted(changes[1..]), changes[0]);
      assert changes == [changes[0]] + changes[1..];
    }
  }

  lemma {:induction false} SortedIsDescending(text: string, changes: seq<Change>)
    requires Disjoint(changes) && Within(text, changes)
    ensures Descending(Sorted(changes)) && Within(text, Sorted(changes))
  {
    if changes != [] {
      hide Inserted, Descending;
      var rest := Sorted(changes[1..]);
      RestIsDisjoint(text, changes);
      hide Disjoint, Within, Apart;
      SortedIsDescending(text, changes[1..]);
      SortedHas(changes[1..]);
      forall i | 0 <= i < |rest| ensures Apart(rest[i], changes[0]) {
        ApartFromRest(changes, rest, i);
      }
      InsertedKeeps(text, rest, changes[0]);
    }
  }

  lemma {:induction false} ReversedAt(s: seq<Change>, k: nat)
    requires k < |s|
    ensures |Reversed(s)| == |s| && Reversed(s)[k] == s[|s| - 1 - k]
  {
    if |s| > 1 {
      ReversedAt(s[1..], if k < |s| - 1 then k else 0);
    }
  }

  lemma {:induction false} ReversedKeeps(s: seq<Change>)
    ensures |Reversed(s)| == |s| && multiset(Reversed(s)) == multiset(s)
  {
    if s != [] {
      ReversedKeeps(s[1..]);
      assert s == [s[0]] + s[1..];
    }
  }

  lemma ReversedIsInOrder(text: string, s: seq<Change>)
    requires Descending(s) && Within(text, s)
    ensures InOrder(Reversed(s)) && Within(text, Reversed(s)) && multiset(Reversed(s)) == multiset(s)
  {
    hide Reversed;
    ReversedKeeps(s);
    forall k | 0 <= k < |s| ensures Reversed(s)[k] == s[|s| - 1 - k] {
      ReversedAt(s, k);
    }
  }

  lemma {:induction false} ReversedGrows(s: seq<Change>, c: Change)
    ensures Reversed(s + [c]) == [c] + Reversed(s)
  {
    if s == [] {
      assert [] + [c] == [c] && [c][1..] == [];
    } else {
      assert (s + [c])[1..] == s[1..] + [c];
      ReversedGrows(s[1..], c);
    }
  }

  // ----- splicing from the back

  lemma NothingSpliced(text: string, replaced: seq<Change>)
    ensures Substituted(text, Reversed(replaced[..0]), 0) == text
  {
  }

  /** What stands before the first change comes through as it is. */
  lemma Peeled(text: string, changes: seq<Change>, to: nat)
    requires to <= (if changes == [] then |text| else changes[0].start) && Within(text, changes)
    ensures to <= |text| && Substituted(text, changes, 0) == text[..to] + Substituted(text, changes, to)
  {
    hide Substituted;
    FirstChange(text, changes, 0);
    FirstChange(text, changes, to);
    if changes == [] {
      assert text == text[..to] + text[to..];
    } else {
      var first := changes[0];
      FirstIsWithin(text, changes);
      hide Within, Between;
      BetweenSplits(text, to, first.start);
      Regrouped(text[..to], Between(text, to, first.start), first.text, Substituted(text, changes[1..], first.end));
    }
  }

  lemma BetweenSplits(text: string, to: nat, end: nat)
    requires to <= end <= |text|
    ensures Between(text, 0, end) == text[..to] + Between(text, to, end)
  {
  }

  lemma FirstIsWithin(text: string, changes: seq<Change>)
    requires Within(text, changes) && changes != []
    ensures ChangeInText(text, changes[0])
  {
  }

  lemma Regrouped(a: string, b: string, c: string, d: string)
    ensures (a + b) + c + d == a + (b + c + d)
  {
  }

  /** Splicing a change in front of the ones already spliced is substituting it along with them. */
  lemma {:induction false} SpliceInFront(text: string, c: Change, rest: seq<Change>)
    requires InOrder([c] + rest) && Within(text, [c] + rest)
    ensures var spliced := Substituted(text, rest, 0);
            && c.start <= c.end <= |spliced|
            && spliced[..c.start] + c.text + spliced[c.end..] == Substituted(text, [c] + rest, 0)
  {
    hide Substituted;
    assert ([c] + rest)[0] == c && ([c] + rest)[1..] == rest;
    assert ChangeInText(text, ([c] + rest)[0]);
    forall i | 0 <= i < |rest| ensures ChangeInText(text, rest[i]) && c.end <= rest[i].start {
      assert ([c] + rest)[i + 1] == rest[i];
    }
    Peeled(text, rest, c.end);
    FirstChange(text, [c] + rest, 0);
    assert text[..c.end][..c.start] == text[..c.start];
  }

  lemma FirstChange(text: string, changes: seq<Change>, from: nat)
    ensures Substituted(text, changes, from)
         == if changes == [] then From(text, from)
            else Between(text, from, changes[0].start) + changes[0].text
                 + Substituted(text, changes[1..], changes[0].end)
  {
  }

  lemma {:induction false} OneMoreSplice(text: string, replaced: seq<Change>, i: nat)
    requires i < |replaced| && Descending(replaced) && Within(text, replaced)
    ensures var spliced, c := Substituted(text, Reversed(replaced[..i]), 0), replaced[i];
            && c.start <= c.end <= |spliced|
            && spliced[..c.start] + c.text + spliced[c.end..] == Substituted(text, Reversed(replaced[..i + 1]), 0)
  {
    hide Substituted, Reversed;
    ReversedGrows(replaced[..i], replaced[i]);
    assert replaced[..i + 1] == replaced[..i] + [replaced[i]];
    ReversedIsInOrder(text, replaced[..i + 1]);
    SpliceInFront(text, replaced[i], Reversed(replaced[..i]));
  }

  // ----- where everything ends up

  /** By how much the changes move what stands behind them. */
  function Shift(changes: seq<Change>): int {
    if changes == [] then 0 else |changes[0].text| - (changes[0].end - changes[0].start) + Shift(changes[1..])
  }

  /** Where the text between two changes ends: at the next change, or at the end. */
  function GapEnd(text: string, changes: seq<Change>, k: nat): nat
    requires k <= |changes|
  {
    if k < |changes| then changes[k].start else |text|
  }

  lemma TailInOrder(text: string, changes: seq<Change>)
    requires InOrder(changes) && Within(text, changes) && changes != []
    ensures InOrder(changes[1..]) && Within(text, changes[1..])
    ensures changes[0].start <= changes[0].end <= GapEnd(text, changes, 1)
  {
    assert ChangeInText(text, changes[0]);
    assert forall i :: 0 <= i < |changes[1..]| ==> changes[1..][i] == changes[i + 1];
    assert |changes| > 1 ==> ChangeInText(text, changes[1]);
  }

  lemma ShiftBehindFirst(changes: seq<Change>, k: nat)
    requires 0 < k <= |changes|
    ensures Shift(changes[..k]) == |changes[0].text| - (changes[0].end - changes[0].start) + Shift(changes[1..][..k - 1])
  {
    assert changes[..k][1..] == changes[1..][..k - 1];
  }

  /** A substituted text in three parts, the last one behind the first change. */
  lemma {:induction false} InParts(text: string, changes: seq<Change>, from: nat) returns (head: nat, rest: string)
    requires InOrder(changes) && Within(text, changes) && changes != [] && from <= changes[0].start
    ensures head == changes[0].start - from + |changes[0].text|
    ensures rest == Substituted(text, changes[1..], changes[0].end)
    ensures var out := Substituted(text, changes, from);
            && |out| == head + |rest| && out[head..] == rest && out[changes[0].start - from..head] == changes[0].text
            && forall p :: from <= p < changes[0].start ==> out[p - from] == text[p]
  {
    hide InOrder, Substituted;
    FirstIsWithin(text, changes);
    FirstChange(text, changes, from);
    head := changes[0].start - from + |changes[0].text|;
    rest := Substituted(text, changes[1..], changes[0].end);
  }

  /** `piece` stands in `out` at `at`. */
  ghost predicate StandsAt(out: string, at: int, piece: string) {
    0 <= at <= at + |piece| <= |out| && out[at..at + |piece|] == piece
  }

  lemma StandsBehind(out: string, head: nat, at: int, piece: string)
    requires head <= |out| && StandsAt(out[head..], at, piece)
    ensures StandsAt(out, head + at, piece)
  {
    assert out[head..][at..at + |piece|] == out[head + at..head + at + |piece|];
  }

  /** Every replacement stands where the changes in front of it moved it, whole. */
  lemma {:induction false} ReplacementLands(text: string, changes: seq<Change>, from: nat, k: nat)
    requires InOrder(changes) && Within(text, changes) && k < |changes| && from <= changes[0].start
    ensures StandsAt(Substituted(text, changes, from), changes[k].start - from + Shift(changes[..k]), changes[k].text)
    decreases k
  {
    hide InOrder, Within, Substituted;
    var head, rest := InParts(text, changes, from);
    if k == 0 {
      assert Shift(changes[..0]) == 0;
    } else {
      hide Shift, StandsAt;
      TailInOrder(text, changes);
      ReplacementLands(text, changes[1..], changes[0].end, k - 1);
      ShiftBehindFirst(changes, k);
      StandsBehind(Substituted(text, changes, from), head,
                   changes[k].start - changes[0].end + Shift(changes[1..][..k - 1]), changes[k].text);
    }
  }

  /** Every character outside the changes comes through, moved by the changes in front of it. */
  lemma {:induction false} GapLands(text: string, changes: seq<Change>, from: nat, k: nat, p: nat)
    requires InOrder(changes) && Within(text, changes) && k <= |changes| && from <= GapEnd(text, changes, 0)
    requires (if k == 0 then from else changes[k - 1].end) <= p < GapEnd(text, changes, k)
    ensures var out, at := Substituted(text, changes, from), p - from + Shift(changes[..k]);
            0 <= at < |out| && out[at] == text[p]
    decreases k
  {
    hide InOrder, Within, Substituted;
    if changes == [] {
      FirstChange(text, changes, from);
    } else {
      var head, rest := InParts(text, changes, from);
      if k > 0 {
        hide Shift;
        TailInOrder(text, changes);
        GapLands(text, changes[1..], changes[0].end, k - 1, p);
        ShiftBehindFirst(changes, k);
        var out := Substituted(text, changes, from);
        var at := p - changes[0].end + Shift(changes[1..][..k - 1]);
        assert out[head + at] == out[head..][at];
      }
    }
  }
}
