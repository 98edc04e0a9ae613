/** The plan cache of `crates/core/src/book.rs`. Planning a row, its key and the part of the expansion that concerns it
    are pure and otherwise unknown: a `Planner` stands for them. */
module PlanCaches {
  import opened Options

  datatype Planner<!Row, !Metrics, !Expansion, +Line> = Planner(
    key: Row -> string,
    plan: (Row, Metrics, Expansion, Option<string>) -> seq<Line>,
    subset: (Expansion, Row) -> Expansion,
    isEmpty: Expansion -> bool,
    closed: Expansion)

  datatype Entry<Row, Expansion, Line> = Entry(row: Row, expansion: Expansion, lines: seq<Line>)

  function SubsetFor<Row, Metrics, Expansion, Line>(
    p: Planner<Row, Metrics, Expansion, Line>, expansion: Expansion, row: Row): Expansion
  {
    if p.isEmpty(expansion) then p.closed else p.subset(expansion, row)
  }

  /** A row's plan as it would come out without any cache: with the part of the expansion that concerns the row, or the
      closed one where nothing is expanded. */
  function PurePlan<Row, Metrics, Expansion, Line>(
    p: Planner<Row, Metrics, Expansion, Line>, row: Row, metrics: Metrics, expansion: Expansion, frame: Option<string>):
    seq<Line>
  {
    if p.isEmpty(expansion) then p.plan(row, metrics, p.closed, frame)
    else p.plan(row, metrics, p.subset(expansion, row), frame)
  }

  /** A hit compares the whole row and its subset, not only the key. */
  function Find<Row(==), Expansion(==), Line>(
    entries: map<string, Entry<Row, Expansion, Line>>, key: string, row: Row, subset: Expansion): Option<seq<Line>>
  {
    if key in entries && entries[key].row == row && entries[key].expansion == subset then
      Some(entries[key].lines)
    else
      None
  }

  /** What a call of `line_count` or `line_counts` starts from: another epoch's entries are gone. */
  function EntriesAt<Row, Metrics(==), Expansion, Line>(
    entries: map<string, Entry<Row, Expansion, Line>>, epoch: Option<Metrics>, metrics: Metrics):
    map<string, Entry<Row, Expansion, Line>>
  {
    if epoch == Some(metrics) then entries else map[]
  }

  /** Every entry is the pure plan of its own row and subset, under its own key. */
  ghost predicate AllPure<Row, Metrics, Expansion, Line>(
    p: Planner<Row, Metrics, Expansion, Line>, entries: map<string, Entry<Row, Expansion, Line>>, metrics: Metrics,
    frame: Option<string>)
  {
    forall k | k in entries ::
      entries[k].lines == p.plan(entries[k].row, metrics, entries[k].expansion, frame) && p.key(entries[k].row) == k
  }

  function PlanFor<Row(==), Metrics, Expansion(==), Line>(
    p: Planner<Row, Metrics, Expansion, Line>, entries: map<string, Entry<Row, Expansion, Line>>, row: Row,
    metrics: Metrics, expansion: Expansion, frame: Option<string>): seq<Line>
  {
    match Find(entries, p.key(row), row, SubsetFor(p, expansion, row))
    case Some(hit) => hit
    case None => PurePlan(p, row, metrics, expansion, frame)
  }

  function Stored<Row, Metrics, Expansion, Line>(
    p: Planner<Row, Metrics, Expansion, Line>, entries: map<string, Entry<Row, Expansion, Line>>, row: Row,
    metrics: Metrics, expansion: Expansion, frame: Option<string>): map<string, Entry<Row, Expansion, Line>>
  {
    entries[p.key(row) := Entry(row, SubsetFor(p, expansion, row), PurePlan(p, row, metrics, expansion, frame))]
  }

  function LiveKeys<Row, Metrics, Expansion, Line>(p: Planner<Row, Metrics, Expansion, Line>, rows: seq<Row>): set<string> {
    set i | 0 <= i < |rows| :: p.key(rows[i])
  }

  class PlanCache<Row(==,!new), Metrics(==,!new), Expansion(==,!new), Line(!new)> {
    var entries: map<string, Entry<Row, Expansion, Line>>
    var epoch: Option<Metrics>

    constructor ()
      ensures entries == map[] && epoch == None
    {
      entries, epoch := map[], None;
    }

    /** What the cache keeps as long as it is used with one frame parent. */
    ghost predicate Coherent(p: Planner<Row, Metrics, Expansion, Line>, frame: Option<string>)
      reads this
    {
      if epoch.Some? then AllPure(p, entries, epoch.value, frame) else entries == map[]
    }

    method BeginEpoch(metrics: Metrics)
      modifies this
      ensures epoch == Some(metrics) && entries == EntriesAt(old(entries), old(epoch), metrics)
    {
      if epoch != Some(metrics) {
        entries := map[];
        epoch := Some(metrics);
      }
    }

    function Cached(p: Planner<Row, Metrics, Expansion, Line>, row: Row, subset: Expansion): Option<seq<Line>>
      reads this
    {
      Find(entries, p.key(row), row, subset)
    }

    function Planned(p: Planner<Row, Metrics, Expansion, Line>, row: Row, expansion: Expansion): Option<seq<Line>>
      reads this
    {
      Cached(p, row, SubsetFor(p, expansion, row))
    }

    method Store(p: Planner<Row, Metrics, Expansion, Line>, row: Row, subset: Expansion, lines: seq<Line>)
      modifies this`entries
      ensures entries == old(entries)[p.key(row) := Entry(row, subset, lines)]
    {
      entries := entries[p.key(row) := Entry(row, subset, lines)];
    }

    /** Always plans without a frame parent. */
    method LineCount(p: Planner<Row, Metrics, Expansion, Line>, row: Row, metrics: Metrics, expansion: Expansion)
      returns (count: nat)
      modifies this
      ensures var start := EntriesAt(old(entries), old(epoch), metrics);
              && count == |PlanFor(p, start, row, metrics, expansion, None)|
              && epoch == Some(metrics)
              && entries == (if Find(start, p.key(row), row, SubsetFor(p, expansion, row)).Some? then start
                             else Stored(p, start, row, metrics, expansion, None))
      ensures old(Coherent(p, None)) ==>
                && Coherent(p, None)
                && (p.isEmpty(expansion) ==> count == |p.plan(row, metrics, p.closed, None)|)
                && (!p.isEmpty(expansion) ==> count == |p.plan(row, metrics, p.subset(expansion, row), None)|)
    {
      BeginEpoch(metrics);
      assert old(Coherent(p, None)) ==> AllPure(p, entries, metrics, None);
      var subset := SubsetFor(p, expansion, row);
      match Cached(p, row, subset) {
        case Some(hit) => return |hit|;
        case None =>
      }
      var lines := p.plan(row, metrics, subset, None);
      count := |lines|;
      Store(p, row, subset, lines);
    }

    /** Sweeps dead rows out once the cache has clearly outgrown the rows. */
    method Evict(p: Planner<Row, Metrics, Expansion, Line>, rows: seq<Row>)
      modifies this`entries
      ensures entries == if |old(entries)| <= 2 * |rows| + 64 then old(entries)
                         else map k | k in old(entries) && k in LiveKeys(p, rows) :: old(entries)[k]
      ensures |entries| <= 2 * |rows| + 64
      ensures forall i :: 0 <= i < |rows| && p.key(rows[i]) in old(entries) ==>
                p.key(rows[i]) in entries && entries[p.key(rows[i])] == old(entries)[p.key(rows[i])]
      ensures forall metrics, frame :: AllPure(p, old(entries), metrics, frame) ==> AllPure(p, entries, metrics, frame)
    {
      if |entries| <= |rows| * 2 + 64 {
        return;
      }
      var live := LiveKeys(p, rows);
      entries := map k | k in entries && k in live :: entries[k];
      KeysAreFew(p, rows);
      SmallerSet(entries.Keys, live);
      assert |entries| == |entries.Keys|;
    }
  }

  lemma SmallerSet<T>(a: set<T>, b: set<T>)
    requires a <= b
    ensures |a| <= |b|
  {
    if x :| x in a {
      SmallerSet(a - {x}, b - {x});
    }
  }

  lemma {:induction false} KeysAreFew<Row, Metrics, Expansion, Line>(p: Planner<Row, Metrics, Expansion, Line>, rows: seq<Row>)
    ensures |LiveKeys(p, rows)| <= |rows|
  {
    if rows == [] {
      assert LiveKeys(p, rows) == {};
    } else {
      var n := |rows| - 1;
      KeysAreFew(p, rows[..n]);
      assert LiveKeys(p, rows) == LiveKeys(p, rows[..n]) + {p.key(rows[n])} by {
        assert forall i :: 0 <= i < n ==> rows[..n][i] == rows[i];
      }
    }
  }

  /** What `planned` hands a renderer is the pure plan of the epoch, and it hands one over exactly for a row that was planned
      with the same part of the expansion last. */
  lemma PlannedIsPure<Row(!new), Metrics(!new), Expansion(!new), Line(!new)>(
    cache: PlanCache<Row, Metrics, Expansion, Line>, p: Planner<Row, Metrics, Expansion, Line>, row: Row,
    expansion: Expansion, frame: Option<string>)
    requires cache.Coherent(p, frame)
    ensures var subset := if p.isEmpty(expansion) then p.closed else p.subset(expansion, row);
            cache.Planned(p, row, expansion).Some? <==>
            && p.key(row) in cache.entries
            && cache.entries[p.key(row)].row == row && cache.entries[p.key(row)].expansion == subset
    ensures cache.Planned(p, row, expansion).Some? ==>
              && cache.epoch.Some?
              && cache.Planned(p, row, expansion).value
                 == p.plan(row, cache.epoch.value, if p.isEmpty(expansion) then p.closed else p.subset(expansion, row), frame)
  {
  }

  // ----- one frame parent per cache

  /** A hit tells the frame parent its entry was planned under, whatever is asked for now. */
  lemma PlanForTells<Row, Metrics, Expansion, Line>(
    p: Planner<Row, Metrics, Expansion, Line>, entries: map<string, Entry<Row, Expansion, Line>>, row: Row,
    metrics: Metrics, expansion: Expansion, stored: Option<string>, asked: Option<string>)
    requires AllPure(p, entries, metrics, stored)
    ensures PlanFor(p, entries, row, metrics, expansion, asked)
         == PurePlan(p, row, metrics, expansion,
                     if Find(entries, p.key(row), row, SubsetFor(p, expansion, row)).Some? then stored else asked)
  {
  }

  /** Whether a cache filled under one frame parent answers as no cache would under another, whatever planner, entries
      and row there are. */
  ghost predicate AnswersFor(stored: Option<string>, asked: Option<string>) {
    forall p: Planner<int, int, int, int>, entries: map<string, Entry<int, int, int>>, row: int, metrics: int, expansion: int ::
      AllPure(p, entries, metrics, stored) ==>
        PlanFor(p, entries, row, metrics, expansion, asked) == PurePlan(p, row, metrics, expansion, asked)
  }

  /** The comparison of row and subset leaves the frame parent out, so a cache answers truly exactly when it is asked
      under the frame parent it was filled under. */
  lemma OneFramePerCacheIff(stored: Option<string>, asked: Option<string>)
    ensures AnswersFor(stored, asked) <==> stored == asked
  {
    if stored == asked {
      forall p: Planner<int, int, int, int>, entries: map<string, Entry<int, int, int>>, row: int, metrics: int, expansion: int
        | AllPure(p, entries, metrics, stored)
        ensures PlanFor(p, entries, row, metrics, expansion, asked) == PurePlan(p, row, metrics, expansion, asked)
      {
        PlanForTells(p, entries, row, metrics, expansion, stored, asked);
      }
    } else {
      var p: Planner<int, int, int, int> := Planner(
        _ => "row", (row, metrics, expansion, frame) => if frame == stored then [0] else [], (expansion, row) => 0, _ => true, 0);
      var entries := map["row" := Entry(0, 0, [0])];
      assert AllPure(p, entries, 0, stored);
      assert PlanFor(p, entries, 0, 0, 0, asked) != PurePlan(p, 0, 0, 0, asked);
    }
  }
}
