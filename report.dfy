/**
 * `measure_url`'s outcome for one URL and the completion loop of `main`:
 * every prepared URL becomes one job; jobs complete in some order; each
 * completion bumps `completed`, prints a progress line and appends the
 * job's row to `results`, which becomes the CSV.
 */
module Report {
  import opened Wrappers
  import opened Urls
  import opened Tally
  import opened Scroll

  /** One CSV row: the domain, `response_count`, and `total_bytes` before the MB conversion. */
  datatype Row = Row(domain: string, requests: nat, totalBytes: int)

  /**
   * What the browser session for one job observes: either it failed
   * somewhere inside the `try` (driver creation, navigation, scripts), or
   * the page loaded, with the heights the scroll loop reads and the
   * requests recorded afterwards.
   */
  datatype Probe = DriverFailed | Loaded(heights: nat -> int, requests: seq<Request>)

  /** A job either returns its row or raises past `measure_url` (from `get_domain`). */
  datatype JobOutcome = Finished(row: Row) | Raised

  /**
   * The smallest byte total whose `total_bytes / (1024 * 1024)` does not
   * fit a double: 2^1044 - 2^990. The quotient is rounded to 53 bits, ties
   * to even, and from 2^1024 - 2^970 on it rounds up to 2^1024, which
   * raises OverflowError.
   */
  const OverflowBytes: int := 188501787658138766062365149920287433770857013140560624417425356468199063072554091488633440674866483268241626409670161634108695430144396259628844306841212887427353308824294794121732533618808152687131466903343668768875601681053482132250150394854349516538195915250719009752316863116423471398170531125426047678196744192

  /** The MB conversion of a byte total raises. */
  predicate MegabytesOverflow(totalBytes: int) {
    totalBytes >= OverflowBytes || -totalBytes >= OverflowBytes
  }

  /** The row returned from the `except` branch: `(domain, 0, 0.0)`. */
  function Sentinel(domain: string): Row {
    Row(domain, 0, 0)
  }

  /** What `measure_url(url)` returns, or that it raises. */
  function JobResult(url: string, probe: Probe): (o: JobOutcome)
    ensures o.Raised? <==> GetDomain(url).None?
  {
    match GetDomain(url)
    case None => Raised
    case Some(domain) =>
      match probe
      case DriverFailed => Finished(Sentinel(domain))
      case Loaded(_, requests) =>
        var total := TotalBytes(requests);
        if MegabytesOverflow(total) then Finished(Sentinel(domain))
        else Finished(Row(domain, ResponseCount(requests), total))
  }

  /**
   * A job raises exactly when `get_domain` does; otherwise its row carries
   * the domain, and either the sentinel (the session failed, or the MB
   * conversion overflowed) or the count of answered requests and the sum of
   * their lengths.
   */
  lemma JobResultRow(url: string, probe: Probe)
    requires GetDomain(url).Some?
    ensures var o := JobResult(url, probe);
      && o.Finished?
      && o.row.domain == GetDomain(url).value && ':' !in o.row.domain
      && (probe.DriverFailed? ==> o.row == Sentinel(o.row.domain))
      && (probe.Loaded? && MegabytesOverflow(TotalBytes(probe.requests)) ==>
            o.row == Sentinel(o.row.domain))
      && (probe.Loaded? && !MegabytesOverflow(TotalBytes(probe.requests)) ==>
            && o.row.requests == |AnsweredPositions(probe.requests)| <= |probe.requests|
            && o.row.totalBytes == TotalBytes(probe.requests))
  {
    DomainInNetloc(url);
    if probe.Loaded? {
      ResponseCountIsAnswered(probe.requests);
    }
  }

  /** `measure_url`. */
  method MeasureUrl(url: string, probe: Probe) returns (outcome: JobOutcome)
    ensures outcome == JobResult(url, probe)
  {
    var domain := GetDomain(url);
    if domain.None? {
      return Raised;
    }
    match probe
    case DriverFailed =>
      outcome := Finished(Sentinel(domain.value));
    case Loaded(heights, requests) =>
      var scrollCommands := ScrollToBottom(heights);
      var responseCount, totalBytes := TallyResponses(requests);
      if MegabytesOverflow(totalBytes) {
        outcome := Finished(Sentinel(domain.value));
      } else {
        outcome := Finished(Row(domain.value, responseCount, totalBytes));
      }
  }

  /**
   * A failed job and a page that recorded no responses give the same row:
   * the sentinel does not tell the two apart.
   */
  lemma SentinelIsAmbiguous(url: string, heights: nat -> int)
    ensures JobResult(url, DriverFailed) == JobResult(url, Loaded(heights, []))
  {
  }

  // ---------------------------------------------------------------------
  // Completion order
  // ---------------------------------------------------------------------

  function Indices(n: nat): (ix: seq<nat>)
    ensures |ix| == n && forall i :: 0 <= i < n ==> ix[i] == i
  {
    seq(n, i => i)
  }

  /**
   * The order in which `as_completed` yields the n submitted futures: each
   * job index exactly once.
   */
  predicate IsCompletionOrder(order: seq<nat>, n: nat) {
    && |order| == n
    && (forall k :: 0 <= k < n ==> order[k] < n)
    && multiset(order) == multiset(Indices(n))
  }

  /** Every submitted job completes at some point of a completion order. */
  lemma CompletionPosition(order: seq<nat>, n: nat, i: nat) returns (k: nat)
    requires IsCompletionOrder(order, n) && i < n
    ensures k < n && order[k] == i
  {
    assert Indices(n)[i] == i;
    assert i in multiset(Indices(n));
    assert i in order;
    k :| 0 <= k < |order| && order[k] == i;
  }

  /** The elements of s taken at the given positions. */
  function Pick<T>(s: seq<T>, positions: seq<nat>): (r: seq<T>)
    requires forall k :: 0 <= k < |positions| ==> positions[k] < |s|
    ensures |r| == |positions| && forall k :: 0 <= k < |r| ==> r[k] == s[positions[k]]
  {
    seq(|positions|, k requires 0 <= k < |positions| => s[positions[k]])
  }

  lemma PickConcat<T>(s: seq<T>, a: seq<nat>, b: seq<nat>)
    requires forall k :: 0 <= k < |a| ==> a[k] < |s|
    requires forall k :: 0 <= k < |b| ==> b[k] < |s|
    ensures Pick(s, a + b) == Pick(s, a) + Pick(s, b)
  {
  }

  /** Picking the same positions in another order gives the same multiset. */
  lemma {:induction false} PickPermutes<T>(s: seq<T>, xs: seq<nat>, ys: seq<nat>)
    requires forall k :: 0 <= k < |xs| ==> xs[k] < |s|
    requires forall k :: 0 <= k < |ys| ==> ys[k] < |s|
    requires multiset(xs) == multiset(ys)
    ensures multiset(Pick(s, xs)) == multiset(Pick(s, ys))
  {
    if xs == [] {
      assert ys == [];
    } else {
      var x := xs[0];
      assert x in multiset(ys);
      var p :| 0 <= p < |ys| && ys[p] == x;
      var front, back := ys[..p], ys[p + 1..];
      RemoveFirst(xs, ys, p);
      PickPermutes(s, xs[1..], front + back);
      PickConcat(s, front, back);
      PickFirst(s, xs);
      PickAround(s, ys, p);
    }
  }

  lemma RemoveFirst(xs: seq<nat>, ys: seq<nat>, p: nat)
    requires xs != [] && p < |ys| && ys[p] == xs[0]
    requires multiset(xs) == multiset(ys)
    ensures multiset(xs[1..]) == multiset(ys[..p] + ys[p + 1..])
  {
    assert xs == [xs[0]] + xs[1..];
    assert ys == ys[..p] + [ys[p]] + ys[p + 1..];
    calc {
      multiset(xs[1..]);
      multiset(xs) - multiset{xs[0]};
      multiset(ys) - multiset{ys[p]};
      multiset(ys[..p]) + multiset(ys[p + 1..]);
      multiset(ys[..p] + ys[p + 1..]);
    }
  }

  lemma PickFirst<T>(s: seq<T>, xs: seq<nat>)
    requires xs != [] && forall k :: 0 <= k < |xs| ==> xs[k] < |s|
    ensures multiset(Pick(s, xs)) == multiset{s[xs[0]]} + multiset(Pick(s, xs[1..]))
  {
    assert Pick(s, xs) == [s[xs[0]]] + Pick(s, xs[1..]);
  }

  lemma PickAround<T>(s: seq<T>, ys: seq<nat>, p: nat)
    requires p < |ys| && forall k :: 0 <= k < |ys| ==> ys[k] < |s|
    ensures multiset(Pick(s, ys))
         == multiset(Pick(s, ys[..p])) + multiset{s[ys[p]]} + multiset(Pick(s, ys[p + 1..]))
  {
    assert Pick(s, ys) == Pick(s, ys[..p]) + [s[ys[p]]] + Pick(s, ys[p + 1..]);
  }

  /** Reading s in a completion order is a permutation of s. */
  lemma ReorderPermutes<T>(s: seq<T>, order: seq<nat>)
    requires IsCompletionOrder(order, |s|)
    ensures multiset(Pick(s, order)) == multiset(s)
  {
    PickPermutes(s, order, Indices(|s|));
    assert Pick(s, Indices(|s|)) == s;
  }

  // ---------------------------------------------------------------------
  // main
  // ---------------------------------------------------------------------

  /** `print(f"({completed}/{total}) {domain}: …")`, as data. */
  datatype ProgressLine = ProgressLine(completed: nat, total: nat, row: Row)

  /**
   * How a run of main ends: no URLs (nothing submitted, no CSV); a job that
   * raised out of `future.result()` (the run aborts, no CSV); or the CSV
   * rows written after every job completed.
   */
  datatype Report =
    | NoUrls
    | Aborted(completed: nat, progress: seq<ProgressLine>)
    | Written(progress: seq<ProgressLine>, rows: seq<Row>)

  /** The outcome of every submitted job, in submission order. */
  function Outcomes(urls: seq<string>, probes: seq<Probe>): (os: seq<JobOutcome>)
    requires |probes| == |urls|
  {
    seq(|urls|, i requires 0 <= i < |urls| => JobResult(urls[i], probes[i]))
  }

  predicate AllFinished(os: seq<JobOutcome>) {
    forall i :: 0 <= i < |os| ==> os[i].Finished?
  }

  function Rows(os: seq<JobOutcome>): (rows: seq<Row>)
    requires AllFinished(os)
    ensures |rows| == |os| && forall i :: 0 <= i < |os| ==> os[i] == Finished(rows[i])
  {
    seq(|os|, i requires 0 <= i < |os| => os[i].row)
  }

  /** The progress counters go 1, 2, … over the given total. */
  predicate CountsUp(progress: seq<ProgressLine>, total: nat) {
    forall k :: 0 <= k < |progress| ==> progress[k].completed == k + 1 && progress[k].total == total
  }

  /**
   * `main` from the input lines on: prepare the URLs, return before the pool
   * when there are none, otherwise collect one row per job in completion
   * order. probes[i] is what the browser session of job i observes; order
   * is the order in which the jobs complete.
   */
  method RunReport(lines: seq<string>, probes: seq<Probe>, order: seq<nat>) returns (report: Report)
    requires |probes| == |PrepareUrls(lines)|
    requires IsCompletionOrder(order, |probes|)
    ensures report.NoUrls? <==> |probes| == 0
    ensures !report.NoUrls? ==> CompletesAs(report, Outcomes(PrepareUrls(lines), probes), order)
  {
    var urls := PrepareUrls(lines);
    var total := |urls|;
    if total == 0 {
      return NoUrls;
    }
    var futures := SubmitAll(urls, probes);
    report := CollectRows(futures, order);
  }

  /**
   * What the completion loop promises: it writes the CSV exactly when no job
   * raised, one row per job, in completion order, with the counters running
   * 1..N; or it stops at the first job that raised, after the progress lines
   * of the jobs that completed before it.
   */
  ghost predicate CompletesAs(report: Report, outs: seq<JobOutcome>, order: seq<nat>)
    requires IsCompletionOrder(order, |outs|)
  {
    && !report.NoUrls?
    && (report.Written? <==> AllFinished(outs))
    && (report.Written? ==>
          && AllFinished(outs)
          && |report.rows| == |report.progress| == |outs|
          && report.rows == Pick(Rows(outs), order)
          && multiset(report.rows) == multiset(Rows(outs))
          && CountsUp(report.progress, |outs|)
          && forall k :: 0 <= k < |report.rows| ==> report.progress[k].row == report.rows[k])
    && (report.Aborted? ==>
          && report.completed == |report.progress| + 1 <= |outs|
          && outs[order[report.completed - 1]].Raised?
          && CountsUp(report.progress, |outs|)
          && forall k :: 0 <= k < |report.progress| ==>
               outs[order[k]] == Finished(report.progress[k].row))
  }

  /**
   * `{executor.submit(measure_url, url): url for url in urls}`: every job
   * runs, and its future holds what it returned or the exception it raised.
   */
  method SubmitAll(urls: seq<string>, probes: seq<Probe>) returns (futures: seq<JobOutcome>)
    requires |probes| == |urls|
    ensures futures == Outcomes(urls, probes)
  {
    futures := [];
    ghost var all := Outcomes(urls, probes);
    for i := 0 to |urls|
      invariant futures == all[..i]
    {
      var outcome := MeasureUrl(urls[i], probes[i]);
      assert outcome == all[i];
      PrefixStep(all, i);
      futures := futures + [outcome];
    }
    assert all[..|urls|] == all;
  }

  lemma PrefixStep<T>(s: seq<T>, i: nat)
    requires i < |s|
    ensures s[..i + 1] == s[..i] + [s[i]]
  {
  }

  /**
   * The loop over `as_completed(futures)`: take the futures in completion
   * order, bump `completed`, print a progress line and keep the row, or
   * stop when `future.result()` re-raises.
   */
  method CollectRows(futures: seq<JobOutcome>, order: seq<nat>) returns (report: Report)
    requires |futures| > 0
    requires IsCompletionOrder(order, |futures|)
    ensures CompletesAs(report, futures, order)
  {
    var total := |futures|;
    var results: seq<Row> := [];
    var progress: seq<ProgressLine> := [];
    var completed := 0;
    for t := 0 to total
      invariant completed == t == |results| == |progress|
      invariant forall k :: 0 <= k < t ==> futures[order[k]] == Finished(results[k])
      invariant forall k :: 0 <= k < t ==> progress[k] == ProgressLine(k + 1, total, results[k])
    {
      completed := completed + 1;
      var outcome := futures[order[t]];
      if outcome.Raised? {
        report := Aborted(completed, progress);
        AbortedCompletes(futures, order, report);
        return;
      }
      var row := outcome.row;
      ghost var before, printed := results, progress;
      progress := progress + [ProgressLine(completed, total, row)];
      results := results + [row];
      forall k | 0 <= k <= t
        ensures futures[order[k]] == Finished(results[k])
        ensures progress[k] == ProgressLine(k + 1, total, results[k])
      {
        if k < t {
          assert results[k] == before[k] && progress[k] == printed[k];
        }
      }
    }
    report := Written(progress, results);
    WrittenCompletes(futures, order, report);
  }

  lemma AbortedCompletes(outs: seq<JobOutcome>, order: seq<nat>, report: Report)
    requires IsCompletionOrder(order, |outs|) && report.Aborted?
    requires report.completed == |report.progress| + 1 <= |outs|
    requires outs[order[report.completed - 1]].Raised?
    requires forall k :: 0 <= k < |report.progress| ==>
               outs[order[k]] == Finished(report.progress[k].row)
               && report.progress[k].completed == k + 1 && report.progress[k].total == |outs|
    ensures CompletesAs(report, outs, order)
  {
    assert !AllFinished(outs);
  }

  lemma WrittenCompletes(outs: seq<JobOutcome>, order: seq<nat>, report: Report)
    requires IsCompletionOrder(order, |outs|) && report.Written?
    requires |report.rows| == |report.progress| == |outs|
    requires forall k :: 0 <= k < |outs| ==> outs[order[k]] == Finished(report.rows[k])
    requires forall k :: 0 <= k < |outs| ==>
               report.progress[k] == ProgressLine(k + 1, |outs|, report.rows[k])
    ensures CompletesAs(report, outs, order)
  {
    AllCompleted(outs, order, report.rows);
  }

  /**
   * Once every position of a completion order has given a finished job, no
   * job raised, and the rows collected are the jobs' rows in completion
   * order: a permutation of them.
   */
  lemma AllCompleted(outs: seq<JobOutcome>, order: seq<nat>, results: seq<Row>)
    requires IsCompletionOrder(order, |outs|) && |results| == |outs|
    requires forall k :: 0 <= k < |outs| ==> outs[order[k]] == Finished(results[k])
    ensures AllFinished(outs)
    ensures results == Pick(Rows(outs), order)
    ensures multiset(results) == multiset(Rows(outs))
  {
    forall i | 0 <= i < |outs| ensures outs[i].Finished? {
      var k := CompletionPosition(order, |outs|, i);
    }
    ReorderPermutes(Rows(outs), order);
  }

  /** The printed counters strictly increase. */
  lemma CountersIncrease(progress: seq<ProgressLine>, total: nat, j: nat, k: nat)
    requires CountsUp(progress, total) && j < k < |progress|
    ensures progress[j].completed < progress[k].completed
  {
  }
}
