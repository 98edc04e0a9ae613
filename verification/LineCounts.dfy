/** `line_counts` of `crates/core/src/book.rs`: how many lines every row takes, from the cache where it knows and planned
    where it does not, many misses on several threads. */
module LineCounting {
  import opened Options
  import opened PlanCaches

  const USIZE_MAX: nat := 0xFFFF_FFFF_FFFF_FFFF
  const PARALLEL_PLAN_THRESHOLD: nat := 256

  /** What is asked for: these rows, planned like this. */
  datatype Request<!Row(==,!new), !Metrics(==,!new), !Expansion(==,!new), !Line(!new)> = Request(
    planner: Planner<Row, Metrics, Expansion, Line>, rows: seq<Row>, metrics: Metrics, expansion: Expansion,
    frame: Option<string>)
  {
    function Plan(i: nat): seq<Line>
      requires i < |rows|
    {
      PurePlan(planner, rows[i], metrics, expansion, frame)
    }

    function Hit(entries: map<string, Entry<Row, Expansion, Line>>, i: nat): Option<seq<Line>>
      requires i < |rows|
    {
      Find(entries, planner.key(rows[i]), rows[i], SubsetFor(planner, expansion, rows[i]))
    }

    /** The rows a cache misses, in order. */
    function Misses(entries: map<string, Entry<Row, Expansion, Line>>, n: nat): (r: seq<nat>)
      requires n <= |rows|
      ensures forall i :: i in r <==> 0 <= i < n && Hit(entries, i).None?
      ensures Ascending(r) && Below(r, n)
    {
      if n == 0 then
        []
      else
        var before := Misses(entries, n - 1);
        assert forall j :: 0 <= j < |before| ==> before[j] in before;
        before + if Hit(entries, n - 1).None? then [n - 1] else []
    }

    function StoreAll(entries: map<string, Entry<Row, Expansion, Line>>, misses: seq<nat>):
      map<string, Entry<Row, Expansion, Line>>
      requires Below(misses, |rows|)
    {
      if misses == [] then
        entries
      else
        var n := |misses| - 1;
        Stored(planner, StoreAll(entries, misses[..n]), rows[misses[n]], metrics, expansion, frame)
    }

    /** The line counts a cache's entries lead to. */
    function Counts(entries: map<string, Entry<Row, Expansion, Line>>): (r: seq<nat>)
      ensures |r| == |rows|
    {
      seq(|rows|, i requires 0 <= i < |rows| => |PlanFor(planner, entries, rows[i], metrics, expansion, frame)|)
    }

    /** The line counts without any cache. */
    function PureCounts(): (r: seq<nat>)
      ensures |r| == |rows|
    {
      seq(|rows|, i requires 0 <= i < |rows| => |Plan(i)|)
    }

    /** The counts that planning every row afresh gives, each row with its own part of the expansion. */
    ghost predicate CountedAfresh(lines: seq<nat>) {
      && |lines| == |rows|
      && forall i :: 0 <= i < |rows| ==>
           && (planner.isEmpty(expansion) ==> lines[i] == |planner.plan(rows[i], metrics, planner.closed, frame)|)
           && (!planner.isEmpty(expansion) ==>
                 lines[i] == |planner.plan(rows[i], metrics, planner.subset(expansion, rows[i]), frame)|)
    }

    lemma PureIsAfresh()
      ensures CountedAfresh(PureCounts())
    {
    }

    /** Cached and uncached counts agree wherever the entries are pure. */
    lemma CountsArePure(entries: map<string, Entry<Row, Expansion, Line>>)
      requires AllPure(planner, entries, metrics, frame)
      ensures Counts(entries) == PureCounts()
    {
    }

    lemma {:induction false} StoringKeepsPure(entries: map<string, Entry<Row, Expansion, Line>>, misses: seq<nat>)
      requires AllPure(planner, entries, metrics, frame)
      requires Below(misses, |rows|)
      ensures AllPure(planner, StoreAll(entries, misses), metrics, frame)
    {
      if misses != [] {
        StoringKeepsPure(entries, misses[..|misses| - 1]);
      }
    }
  }

  predicate Below(s: seq<nat>, n: nat) {
    forall j :: 0 <= j < |s| ==> s[j] < n
  }

  predicate Ascending(s: seq<nat>) {
    forall i, j :: 0 <= i < j < |s| ==> s[i] < s[j]
  }

  // ----- chunks

  function DivCeil(n: nat, d: nat): nat
    requires d > 0
  {
    (n + d - 1) / d
  }

  function Chunks<T>(xs: seq<T>, size: nat): seq<seq<T>>
    requires size > 0
  {
    if xs == [] then [] else if |xs| <= size then [xs] else [xs[..size]] + Chunks(xs[size..], size)
  }

  function Flatten<T>(parts: seq<seq<T>>): seq<T> {
    if parts == [] then [] else parts[0] + Flatten(parts[1..])
  }

  /** The chunks partition what is chunked, in order: nothing is planned twice or left out, and no chunk is empty. */
  lemma {:induction false} ChunksPartition<T>(xs: seq<T>, size: nat)
    requires size > 0
    ensures Flatten(Chunks(xs, size)) == xs
    ensures forall k :: 0 <= k < |Chunks(xs, size)| ==> 0 < |Chunks(xs, size)[k]| <= size
  {
    if |xs| > size {
      ChunksPartition(xs[size..], size);
      assert xs == xs[..size] + xs[size..];
      assert Chunks(xs, size)[1..] == Chunks(xs[size..], size);
    } else if xs != [] {
      assert [xs][1..] == [];
      assert xs + [] == xs;
    }
  }

  lemma {:induction false} ChunkCount<T>(xs: seq<T>, size: nat, most: nat)
    requires size > 0 && |xs| <= most * size
    ensures |Chunks(xs, size)| <= most
  {
    if |xs| > size {
      assert most <= 1 ==> most * size <= size;
      assert (most - 1) * size == most * size - size;
      ChunkCount(xs[size..], size, most - 1);
    }
  }

  /** There are never more chunks than threads. */
  lemma ChunksFitThreads<T>(xs: seq<T>, threads: nat)
    requires threads >= 1 && xs != []
    ensures DivCeil(|xs|, threads) > 0 && |Chunks(xs, DivCeil(|xs|, threads))| <= threads
  {
    var size := DivCeil(|xs|, threads);
    CeilCovers(|xs|, threads);
    ChunkCount(xs, size, threads);
  }

  lemma CeilCovers(n: nat, d: nat)
    requires d > 0
    ensures n <= d * DivCeil(n, d)
    ensures n > 0 ==> DivCeil(n, d) > 0
  {
    var q := (n + d - 1) / d;
    assert n + d - 1 == d * q + (n + d - 1) % d;
    assert q == 0 ==> d * q == 0;
  }

  lemma {:induction false} FlattenAppend<T>(parts: seq<seq<T>>, k: nat)
    requires k < |parts|
    ensures Flatten(parts[..k + 1]) == Flatten(parts[..k]) + parts[k]
  {
    if k == 0 {
      assert parts[..1][1..] == [] && parts[..0] == [];
    } else {
      FlattenAppend(parts[1..], k - 1);
      assert parts[..k + 1][1..] == parts[1..][..k] && parts[..k][1..] == parts[1..][..k - 1];
    }
  }

  // ----- the two ways to fill the slots of the misses

  datatype Job<Line> = Job(i: nat, plan: seq<Line>)

  /** What one thread makes of its chunk. */
  function JobsOf<Row(!new), Metrics(!new), Expansion(!new), Line(!new)>(
    req: Request<Row, Metrics, Expansion, Line>, slice: seq<nat>): (r: seq<Job<Line>>)
    requires Below(slice, |req.rows|)
    ensures |r| == |slice|
  {
    seq(|slice|, k requires 0 <= k < |slice| => Job(slice[k], req.Plan(slice[k])))
  }

  /** The slots named in `done` hold their plans, the others what they held. */
  ghost predicate Filled<Row(!new), Metrics(!new), Expansion(!new), Line(!new)>(
    req: Request<Row, Metrics, Expansion, Line>, was: seq<nat>, done: seq<nat>, lines: seq<nat>,
    planned: seq<Option<seq<Line>>>)
  {
    && |lines| == |planned| == |was| == |req.rows|
    && forall i :: 0 <= i < |lines| ==>
         if i in done then lines[i] == |req.Plan(i)| && planned[i] == Some(req.Plan(i))
         else lines[i] == was[i] && planned[i] == None
  }

  lemma OneMoreFilled<Row(!new), Metrics(!new), Expansion(!new), Line(!new)>(
    req: Request<Row, Metrics, Expansion, Line>, was: seq<nat>, done: seq<nat>, lines: seq<nat>,
    planned: seq<Option<seq<Line>>>, i: nat)
    requires Filled(req, was, done, lines, planned) && i < |req.rows|
    ensures Filled(req, was, done + [i], lines[i := |req.Plan(i)|], planned[i := Some(req.Plan(i))])
  {
  }

  datatype Thread = Thread(slot: nat)

  /** The threads finish in any order; each leaves its part in its own place, and the parts are joined in order. */
  method PlanChunks<Row(!new), Metrics(!new), Expansion(!new), Line(!new)>(
    req: Request<Row, Metrics, Expansion, Line>, chunks: seq<seq<nat>>) returns (results: seq<seq<Job<Line>>>)
    requires forall k :: 0 <= k < |chunks| ==> Below(chunks[k], |req.rows|)
    ensures |results| == |chunks| && forall k :: 0 <= k < |chunks| ==> results[k] == JobsOf(req, chunks[k])
  {
    var parts := new seq<Job<Line>>[|chunks|](_ => []);
    var running := set k | 0 <= k < |chunks| :: Thread(k);
    while running != {}
      invariant forall t :: t in running ==> t.slot < |chunks|
      invariant forall k :: 0 <= k < |chunks| && Thread(k) !in running ==> parts[k] == JobsOf(req, chunks[k])
      decreases |running|
    {
      var t :| t in running;
      parts[t.slot] := JobsOf(req, chunks[t.slot]);
      running := running - {t};
    }
    results := parts[..];
  }

  lemma ChunkIsBelow(misses: seq<nat>, chunks: seq<seq<nat>>, n: nat, k: nat)
    requires Below(misses, n) && Flatten(chunks) == misses && k < |chunks|
    ensures Below(chunks[k], n)
    decreases k
  {
    assert Flatten(chunks) == chunks[0] + Flatten(chunks[1..]);
    if k == 0 {
      assert forall j :: 0 <= j < |chunks[0]| ==> misses[j] == chunks[0][j];
    } else {
      var rest := Flatten(chunks[1..]);
      assert forall j :: 0 <= j < |rest| ==> rest[j] == misses[|chunks[0]| + j];
      ChunkIsBelow(rest, chunks[1..], n, k - 1);
    }
  }

  method FillParallel<Row(!new), Metrics(!new), Expansion(!new), Line(!new)>(
    req: Request<Row, Metrics, Expansion, Line>, misses: seq<nat>, threads: nat, lines: array<nat>,
    planned: array<Option<seq<Line>>>)
    requires threads >= 1 && misses != [] && Below(misses, |req.rows|)
    requires Filled(req, lines[..], [], lines[..], planned[..])
    modifies lines, planned
    ensures Filled(req, old(lines[..]), misses, lines[..], planned[..])
  {
    hide Filled, Chunks, Flatten, JobsOf, DivCeil;
    ghost var was := lines[..];
    ChunksFitThreads(misses, threads);
    var chunk := DivCeil(|misses|, threads);
    var chunks := Chunks(misses, chunk);
    ChunksPartition(misses, chunk);
    forall k | 0 <= k < |chunks| ensures Below(chunks[k], |req.rows|) {
      ChunkIsBelow(misses, chunks, |req.rows|, k);
    }
    var results := PlanChunks(req, chunks);
    assert Flatten(chunks[..0]) == [] by { NothingFlat(chunks); }
    FilledLengths(req, was, [], lines[..], planned[..]);
    for k := 0 to |results|
      invariant Filled(req, was, Flatten(chunks[..k]), lines[..], planned[..])
    {
      FlattenAppend(chunks, k);
      FillPart(req, was, Flatten(chunks[..k]), chunks[k], results[k], lines, planned);
    }
    assert chunks[..|chunks|] == chunks;
  }

  lemma NothingFlat<T>(parts: seq<seq<T>>)
    ensures Flatten(parts[..0]) == []
  {
  }

  lemma FilledLengths<Row(!new), Metrics(!new), Expansion(!new), Line(!new)>(
    req: Request<Row, Metrics, Expansion, Line>, was: seq<nat>, done: seq<nat>, lines: seq<nat>,
    planned: seq<Option<seq<Line>>>)
    requires Filled(req, was, done, lines, planned)
    ensures |lines| == |planned| == |was| == |req.rows|
  {
  }

  method FillPart<Row(!new), Metrics(!new), Expansion(!new), Line(!new)>(
    req: Request<Row, Metrics, Expansion, Line>, ghost was: seq<nat>, ghost done: seq<nat>, ghost slice: seq<nat>,
    part: seq<Job<Line>>, lines: array<nat>, planned: array<Option<seq<Line>>>)
    requires Below(slice, |req.rows|) && part == JobsOf(req, slice)
    requires Filled(req, was, done, lines[..], planned[..])
    modifies lines, planned
    ensures Filled(req, was, done + slice, lines[..], planned[..])
  {
    hide Filled;
    FilledLengths(req, was, done, lines[..], planned[..]);
    assert done + slice[..0] == done;
    for j := 0 to |part|
      invariant Filled(req, was, done + slice[..j], lines[..], planned[..])
    {
      ghost var before, plans := lines[..], planned[..];
      var job := part[j];
      var count: nat := |job.plan|;
      lines[job.i] := count;
      planned[job.i] := Some(job.plan);
      OneMoreFilled(req, was, done + slice[..j], before, plans, slice[j]);
      assert done + slice[..j + 1] == done + slice[..j] + [slice[j]];
      assert lines[..] == before[slice[j] := count];
      assert planned[..] == plans[slice[j] := Some(req.Plan(slice[j]))];
    }
    assert slice[..|slice|] == slice;
  }

  method FillInOrder<Row(!new), Metrics(!new), Expansion(!new), Line(!new)>(
    req: Request<Row, Metrics, Expansion, Line>, misses: seq<nat>, lines: array<nat>, planned: array<Option<seq<Line>>>)
    requires Below(misses, |req.rows|)
    requires Filled(req, lines[..], [], lines[..], planned[..])
    modifies lines, planned
    ensures Filled(req, old(lines[..]), misses, lines[..], planned[..])
  {
    hide Filled;
    ghost var was := lines[..];
    FilledLengths(req, was, [], lines[..], planned[..]);
    for j := 0 to |misses|
      invariant Filled(req, was, misses[..j], lines[..], planned[..])
    {
      ghost var before, plans := lines[..], planned[..];
      var i := misses[j];
      var plan := req.Plan(i);
      var count: nat := |plan|;
      lines[i] := count;
      planned[i] := Some(plan);
      OneMoreFilled(req, was, misses[..j], before, plans, i);
      assert misses[..j + 1] == misses[..j] + [i];
      assert lines[..] == before[i := count];
      assert planned[..] == plans[i := Some(plan)];
    }
    assert misses[..|misses|] == misses;
  }

  method FillMisses<Row(!new), Metrics(!new), Expansion(!new), Line(!new)>(
    req: Request<Row, Metrics, Expansion, Line>, misses: seq<nat>, threads: nat, lines: array<nat>,
    planned: array<Option<seq<Line>>>)
    requires threads >= 1 && Below(misses, |req.rows|)
    requires Filled(req, lines[..], [], lines[..], planned[..])
    modifies lines, planned
    ensures Filled(req, old(lines[..]), misses, lines[..], planned[..])
  {
    hide Filled;
    if |misses| >= PARALLEL_PLAN_THRESHOLD {
      FillParallel(req, misses, threads, lines, planned);
    } else {
      FillInOrder(req, misses, lines, planned);
    }
  }

  // ----- counting

  /** The slots of the rows that hit hold their counts. */
  ghost predicate HitsCounted<Row(!new), Metrics(!new), Expansion(!new), Line(!new)>(
    req: Request<Row, Metrics, Expansion, Line>, entries: map<string, Entry<Row, Expansion, Line>>, lines: seq<nat>)
  {
    |lines| == |req.rows| && forall i :: 0 <= i < |lines| && req.Hit(entries, i).Some? ==> lines[i] == |req.Hit(entries, i).value|
  }

  lemma NoHits<Row(!new), Metrics(!new), Expansion(!new), Line(!new)>(
    req: Request<Row, Metrics, Expansion, Line>, lines: seq<nat>)
    requires |lines| == |req.rows|
    ensures HitsCounted(req, map[], lines)
  {
  }

  lemma NoMisses<Row(!new), Metrics(!new), Expansion(!new), Line(!new)>(
    req: Request<Row, Metrics, Expansion, Line>, entries: map<string, Entry<Row, Expansion, Line>>)
    ensures req.Misses(entries, 0) == []
  {
  }

  lemma OneMoreLookUp<Row(!new), Metrics(!new), Expansion(!new), Line(!new)>(
    req: Request<Row, Metrics, Expansion, Line>, entries: map<string, Entry<Row, Expansion, Line>>, i: nat)
    requires i < |req.rows|
    ensures req.Misses(entries, i + 1) == req.Misses(entries, i) + if req.Hit(entries, i).None? then [i] else []
  {
  }

  /** The lookups that come first: a hit's count goes to its slot, the rows without one are listed. */
  method LookUp<Row(!new), Metrics(!new), Expansion(!new), Line(!new)>(
    req: Request<Row, Metrics, Expansion, Line>, cache: PlanCache<Row, Metrics, Expansion, Line>, lines: array<nat>)
    returns (misses: seq<nat>)
    requires lines.Length == |req.rows|
    modifies lines
    ensures misses == req.Misses(cache.entries, |req.rows|)
    ensures HitsCounted(req, cache.entries, lines[..])
  {
    hide Find, req.Misses;
    NoMisses(req, cache.entries);
    misses := [];
    for i := 0 to |req.rows|
      invariant misses == req.Misses(cache.entries, i)
      invariant forall j :: 0 <= j < i && req.Hit(cache.entries, j).Some? ==>
                  lines[j] == |req.Hit(cache.entries, j).value|
    {
      OneMoreLookUp(req, cache.entries, i);
      match cache.Cached(req.planner, req.rows[i], SubsetFor(req.planner, req.expansion, req.rows[i])) {
        case Some(hit) =>
          var count: nat := |hit|;
          lines[i] := count;
        case None => misses := misses + [i];
      }
    }
  }

  ghost predicate MissesPlanned<Row(!new), Metrics(!new), Expansion(!new), Line(!new)>(
    req: Request<Row, Metrics, Expansion, Line>, misses: seq<nat>, planned: seq<Option<seq<Line>>>)
  {
    && Below(misses, |req.rows|) && |planned| == |req.rows|
    && forall j :: 0 <= j < |misses| ==> planned[misses[j]] == Some(req.Plan(misses[j]))
  }

  /** The stores that come last: each miss's plan is taken from its slot. */
  method StoreMisses<Row(!new), Metrics(!new), Expansion(!new), Line(!new)>(
    req: Request<Row, Metrics, Expansion, Line>, cache: PlanCache<Row, Metrics, Expansion, Line>, misses: seq<nat>,
    planned: array<Option<seq<Line>>>)
    requires Ascending(misses) && MissesPlanned(req, misses, planned[..])
    modifies cache`entries, planned
    ensures cache.entries == req.StoreAll(old(cache.entries), misses)
  {
    for j := 0 to |misses|
      invariant cache.entries == req.StoreAll(old(cache.entries), misses[..j])
      invariant forall k :: j <= k < |misses| ==> planned[misses[k]] == Some(req.Plan(misses[k]))
    {
      var i := misses[j];
      var taken := planned[i];
      planned[i] := None;
      match taken {
        case Some(plan) =>
          cache.Store(req.planner, req.rows[i], SubsetFor(req.planner, req.expansion, req.rows[i]), plan);
        case None =>
      }
      assert misses[..j + 1][..j] == misses[..j] && misses[..j + 1][j] == i;
    }
    assert misses[..|misses|] == misses;
  }

  /** The entries a call starts from. */
  ghost function Known<Row(!new), Metrics(!new), Expansion(!new), Line(!new)>(
    req: Request<Row, Metrics, Expansion, Line>, cache: PlanCache?<Row, Metrics, Expansion, Line>):
    map<string, Entry<Row, Expansion, Line>>
    reads cache
  {
    if cache == null then map[] else EntriesAt(cache.entries, cache.epoch, req.metrics)
  }

  /** Every row misses where there is no cache. */
  method FirstPass<Row(==,!new), Metrics(==,!new), Expansion(==,!new), Line(!new)>(
    req: Request<Row, Metrics, Expansion, Line>, cache: PlanCache?<Row, Metrics, Expansion, Line>, lines: array<nat>)
    returns (misses: seq<nat>)
    requires lines.Length == |req.rows|
    modifies lines, if cache == null then {} else {cache}
    ensures misses == req.Misses(old(Known(req, cache)), |req.rows|)
    ensures HitsCounted(req, old(Known(req, cache)), lines[..])
    ensures cache != null ==> cache.epoch == Some(req.metrics) && cache.entries == old(Known(req, cache))
  {
    hide HitsCounted, req.Misses;
    if cache == null {
      misses := seq(|req.rows|, i => i);
      EverythingMissed(req, misses);
      NoHits(req, lines[..]);
    } else {
      cache.BeginEpoch(req.metrics);
      misses := LookUp(req, cache, lines);
    }
  }

  method CountRows<Row(==,!new), Metrics(==,!new), Expansion(==,!new), Line(!new)>(
    req: Request<Row, Metrics, Expansion, Line>, cache: PlanCache?<Row, Metrics, Expansion, Line>, threads: nat)
    returns (lines: array<nat>)
    requires threads >= 1
    modifies if cache == null then {} else {cache}
    ensures fresh(lines) && lines[..] == req.Counts(old(Known(req, cache)))
    ensures cache != null ==>
              cache.epoch == Some(req.metrics)
              && cache.entries == req.StoreAll(old(Known(req, cache)), req.Misses(old(Known(req, cache)), |req.rows|))
  {
    hide HitsCounted, MissesPlanned, Below, Ascending, Known, Filled, req.Counts, req.Misses, req.StoreAll;
    lines := new nat[|req.rows|](_ => USIZE_MAX);
    var planned := new Option<seq<Line>>[|req.rows|](_ => None);
    var misses := FirstPass(req, cache, lines);
    ghost var hits := lines[..];
    NothingFilled(req, hits, planned[..]);
    FillMisses(req, misses, threads, lines, planned);
    AllCounted(req, old(Known(req, cache)), hits, misses, lines[..], planned[..]);
    if cache != null {
      StoreMisses(req, cache, misses, planned);
    }
  }

  /** For any number of threads: every slot gets the count of its hit or of its own plan, and the cache gets exactly the
      missed plans. A cache coherent under this frame parent stays so, and then nothing shows that there is a cache. */
  method LineCounts<Row(==,!new), Metrics(==,!new), Expansion(==,!new), Line(!new)>(
    req: Request<Row, Metrics, Expansion, Line>, cache: PlanCache?<Row, Metrics, Expansion, Line>, threads: nat)
    returns (lines: array<nat>)
    requires threads >= 1
    modifies if cache == null then {} else {cache}
    ensures fresh(lines) && lines[..] == req.Counts(old(Known(req, cache)))
    ensures cache != null && req.rows != [] ==>
              cache.epoch == Some(req.metrics)
              && cache.entries == req.StoreAll(old(Known(req, cache)), req.Misses(old(Known(req, cache)), |req.rows|))
    ensures cache != null && req.rows == [] ==> cache.epoch == old(cache.epoch) && cache.entries == old(cache.entries)
    ensures (cache == null || old(cache.Coherent(req.planner, req.frame))) ==>
              && lines[..] == req.PureCounts() && req.CountedAfresh(lines[..])
              && (cache != null ==> cache.Coherent(req.planner, req.frame))
  {
    req.PureIsAfresh();
    if |req.rows| == 0 {
      lines := new nat[0];
      return;
    }
    ghost var known := Known(req, cache);
    ghost var pure := cache == null || cache.Coherent(req.planner, req.frame);
    assert pure ==> AllPure(req.planner, known, req.metrics, req.frame);
    hide AllPure, Known, req.Counts, req.PureCounts, req.CountedAfresh, req.Misses, req.StoreAll;
    lines := CountRows(req, cache, threads);
    if pure {
      req.CountsArePure(known);
      req.StoringKeepsPure(known, req.Misses(known, |req.rows|));
    }
  }

  lemma NothingFilled<Row(!new), Metrics(!new), Expansion(!new), Line(!new)>(
    req: Request<Row, Metrics, Expansion, Line>, lines: seq<nat>, planned: seq<Option<seq<Line>>>)
    requires |lines| == |planned| == |req.rows| && forall i :: 0 <= i < |planned| ==> planned[i] == None
    ensures Filled(req, lines, [], lines, planned)
  {
  }

  lemma EverythingMissed<Row(!new), Metrics(!new), Expansion(!new), Line(!new)>(
    req: Request<Row, Metrics, Expansion, Line>, all: seq<nat>)
    requires |all| == |req.rows| && forall i :: 0 <= i < |all| ==> all[i] == i
    ensures req.Misses(map[], |req.rows|) == all
  {
    MissesPrefix(req, all, |all|);
    assert all[..|all|] == all;
  }

  lemma {:induction false} MissesPrefix<Row(!new), Metrics(!new), Expansion(!new), Line(!new)>(
    req: Request<Row, Metrics, Expansion, Line>, all: seq<nat>, n: nat)
    requires |all| == |req.rows| && (forall i :: 0 <= i < |all| ==> all[i] == i) && n <= |all|
    ensures req.Misses(map[], n) == all[..n]
  {
    if n > 0 {
      MissesPrefix(req, all, n - 1);
      assert all[..n] == all[..n - 1] + [n - 1];
    }
  }

  /** No slot keeps the marker it started with: the hits and the misses are all the rows. */
  lemma AllCounted<Row(!new), Metrics(!new), Expansion(!new), Line(!new)>(
    req: Request<Row, Metrics, Expansion, Line>, known: map<string, Entry<Row, Expansion, Line>>, hits: seq<nat>,
    misses: seq<nat>, lines: seq<nat>, planned: seq<Option<seq<Line>>>)
    requires misses == req.Misses(known, |req.rows|) && HitsCounted(req, known, hits)
    requires Filled(req, hits, misses, lines, planned)
    ensures lines == req.Counts(known)
    ensures MissesPlanned(req, misses, planned)
  {
    assert forall j :: 0 <= j < |misses| ==> misses[j] in misses;
  }

  // ----- nothing is planned twice

  ghost predicate KeysDiffer<Row(!new), Metrics(!new), Expansion(!new), Line(!new)>(
    req: Request<Row, Metrics, Expansion, Line>)
  {
    forall i, j :: 0 <= i < j < |req.rows| ==> req.planner.key(req.rows[i]) != req.planner.key(req.rows[j])
  }

  lemma {:induction false} StoredIsHit<Row(!new), Metrics(!new), Expansion(!new), Line(!new)>(
    req: Request<Row, Metrics, Expansion, Line>, entries: map<string, Entry<Row, Expansion, Line>>, misses: seq<nat>, i: nat)
    requires KeysDiffer(req) && Below(misses, |req.rows|) && i < |req.rows|
    requires i in misses || req.Hit(entries, i).Some?
    ensures req.Hit(req.StoreAll(entries, misses), i).Some?
  {
    if misses != [] {
      var front, last := misses[..|misses| - 1], misses[|misses| - 1];
      assert misses == front + [last];
      if i != last {
        StoredIsHit(req, entries, front, i);
        assert req.planner.key(req.rows[i]) != req.planner.key(req.rows[last]);
      }
    }
  }

  lemma {:induction false} AllHit<Row(!new), Metrics(!new), Expansion(!new), Line(!new)>(
    req: Request<Row, Metrics, Expansion, Line>, entries: map<string, Entry<Row, Expansion, Line>>, n: nat)
    requires n <= |req.rows| && forall i :: 0 <= i < n ==> req.Hit(entries, i).Some?
    ensures req.Misses(entries, n) == []
  {
    hide req.Hit, req.Misses, Find;
    if n == 0 {
      NoMisses(req, entries);
    } else {
      AllHit(req, entries, n - 1);
      OneMoreLookUp(req, entries, n - 1);
    }
  }

  /** Where rows have keys of their own, asking for the same rows again plans none of them: every row hits what the first
      call left. */
  lemma SecondPassHits<Row(!new), Metrics(!new), Expansion(!new), Line(!new)>(
    req: Request<Row, Metrics, Expansion, Line>, entries: map<string, Entry<Row, Expansion, Line>>)
    requires KeysDiffer(req)
    ensures req.Misses(req.StoreAll(entries, req.Misses(entries, |req.rows|)), |req.rows|) == []
  {
    hide KeysDiffer, req.Hit, req.StoreAll, Below, Ascending;
    var misses := req.Misses(entries, |req.rows|);
    var after := req.StoreAll(entries, misses);
    forall i | 0 <= i < |req.rows|
      ensures req.Hit(after, i).Some?
    {
      StoredIsHit(req, entries, misses, i);
    }
    AllHit(req, after, |req.rows|);
  }

  // ----- whole runs

  datatype Step<Row, Metrics, Expansion> =
    | Measure(row: Row, metrics: Metrics, expansion: Expansion)
    | Build(rows: seq<Row>, metrics: Metrics, expansion: Expansion, threads: nat)
    | Sweep(rows: seq<Row>)

  predicate Allowed<Row, Metrics, Expansion>(frame: Option<string>, step: Step<Row, Metrics, Expansion>) {
    match step
    case Measure(_, _, _) => frame == None
    case Build(_, _, _, threads) => threads >= 1
    case Sweep(_) => true
  }

  /** A step answers as if every plan were made afresh. */
  ghost predicate AnswersAfresh<Row(!new), Metrics(!new), Expansion(!new), Line(!new)>(
    p: Planner<Row, Metrics, Expansion, Line>, frame: Option<string>, step: Step<Row, Metrics, Expansion>, answer: seq<nat>)
  {
    match step
    case Measure(row, metrics, expansion) => Request(p, [row], metrics, expansion, frame).CountedAfresh(answer)
    case Build(rows, metrics, expansion, _) => Request(p, rows, metrics, expansion, frame).CountedAfresh(answer)
    case Sweep(_) => answer == []
  }

  method TakeStep<Row(==,!new), Metrics(==,!new), Expansion(==,!new), Line(!new)>(
    p: Planner<Row, Metrics, Expansion, Line>, frame: Option<string>, cache: PlanCache<Row, Metrics, Expansion, Line>,
    step: Step<Row, Metrics, Expansion>) returns (answer: seq<nat>)
    requires Allowed(frame, step) && cache.Coherent(p, frame)
    modifies cache
    ensures cache.Coherent(p, frame) && AnswersAfresh(p, frame, step, answer)
    ensures step.Sweep? ==> |cache.entries| <= 2 * |step.rows| + 64
  {
    match step {
      case Measure(row, metrics, expansion) =>
        var count: nat := cache.LineCount(p, row, metrics, expansion);
        answer := [count];
      case Build(rows, metrics, expansion, threads) =>
        var lines := LineCounts(Request(p, rows, metrics, expansion, frame), cache, threads);
        answer := lines[..];
      case Sweep(rows) =>
        cache.Evict(p, rows);
        answer := [];
    }
  }

  /** Whatever is measured, built, remeasured at other metrics and swept, in whatever order: a cache used with one frame
      parent answers every step as planning afresh would, and holds nothing but pure plans after it. */
  method Run<Row(==,!new), Metrics(==,!new), Expansion(==,!new), Line(!new)>(
    p: Planner<Row, Metrics, Expansion, Line>, frame: Option<string>, steps: seq<Step<Row, Metrics, Expansion>>)
    returns (answers: seq<seq<nat>>, cache: PlanCache<Row, Metrics, Expansion, Line>)
    requires forall k :: 0 <= k < |steps| ==> Allowed(frame, steps[k])
    ensures |answers| == |steps| && forall k :: 0 <= k < |steps| ==> AnswersAfresh(p, frame, steps[k], answers[k])
    ensures fresh(cache) && cache.Coherent(p, frame)
  {
    hide AnswersAfresh;
    cache := new PlanCache();
    answers := [];
    for k := 0 to |steps|
      invariant fresh(cache) && cache.Coherent(p, frame)
      invariant |answers| == k && forall j :: 0 <= j < k ==> AnswersAfresh(p, frame, steps[j], answers[j])
    {
      var answer := TakeStep(p, frame, cache, steps[k]);
      answers := answers + [answer];
    }
  }
}
