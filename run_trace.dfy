/** The specification the driver of App.tsx is proved against: the retry
    delay of `handleAnalyze`, and what a run has reached after a given
    sequence of classifier outcomes (the results and citations recorded,
    the rows asked about, the waits, the error on screen). */
module RunTrace {
  import opened Wrappers
  import opened Types
  import opened Strings
  import opened GeminiService

  // ---------------------------------------------------------------- the retry delay

  /** The delay before the first retry of a row, in milliseconds. */
  const BaseDelay: nat := 1000
  /** The cap on the retry delay. */
  const MaxDelay: nat := 30000
  /** The pause after each row. */
  const RowPause: nat := 200

  function Pow2(n: nat): (r: nat)
    ensures r >= 1
  {
    if n == 0 then 1 else 2 * Pow2(n - 1)
  }

  /** The delay waited after the (n+1)-th consecutive failure on a row:
      1000 * 2^n ms, but never more than 30000. */
  function Backoff(n: nat): nat {
    if BaseDelay * Pow2(n) < MaxDelay then BaseDelay * Pow2(n) else MaxDelay
  }

  /** `Math.min(delay * 2, 30000)` */
  function NextDelay(delay: nat): nat {
    if delay * 2 < MaxDelay then delay * 2 else MaxDelay
  }

  /** Doubling with the cap moves from one delay to the next. */
  lemma BackoffStep(n: nat)
    ensures Backoff(n + 1) == NextDelay(Backoff(n))
  {
    assert Pow2(n + 1) == 2 * Pow2(n);
  }

  /** Every delay lies between one and thirty seconds. */
  lemma BackoffBounds(n: nat)
    ensures BaseDelay <= Backoff(n) <= MaxDelay
  {
  }

  /** 2^n is at least 32 from n = 5 on. */
  lemma {:induction false} Pow2AtLeast32(n: nat)
    requires n >= 5
    ensures Pow2(n) >= 32
  {
    if n > 5 {
      Pow2AtLeast32(n - 1);
    } else {
      assert Pow2(5) == 2 * Pow2(4) == 4 * Pow2(3) == 8 * Pow2(2) == 16 * Pow2(1) == 32;
    }
  }

  /** The delays double from one second up to sixteen, and stay at thirty
      seconds from the sixth failure on. */
  lemma BackoffValues(n: nat)
    ensures n < 5 ==> Backoff(n) == BaseDelay * Pow2(n) <= 16000
    ensures n >= 5 ==> Backoff(n) == MaxDelay
  {
    if n >= 5 {
      Pow2AtLeast32(n);
    } else {
      assert Pow2(4) == 16 by {
        assert Pow2(4) == 2 * Pow2(3) == 4 * Pow2(2) == 8 * Pow2(1);
      }
      assert Pow2(n) <= 16 by {
        if n < 4 {
          assert Pow2(n + 1) == 2 * Pow2(n);
          if n < 3 { assert Pow2(n + 2) == 2 * Pow2(n + 1); }
          if n < 2 { assert Pow2(n + 3) == 2 * Pow2(n + 2); }
          if n < 1 { assert Pow2(n + 4) == 2 * Pow2(n + 3); }
        }
      }
    }
  }

  /** Every delay is a whole number of seconds, so the "Retrying in Ns"
      message shows `delay / 1000` exactly. */
  lemma BackoffWholeSeconds(n: nat)
    ensures Backoff(n) / 1000 * 1000 == Backoff(n)
  {
    if BaseDelay * Pow2(n) < MaxDelay {
      assert (1000 * Pow2(n)) / 1000 == Pow2(n);
    }
  }

  /** The delays waited on a row whose first m attempts all fail. */
  function Schedule(m: nat): (r: seq<nat>)
    ensures |r| == m
    ensures forall k :: 0 <= k < m ==> r[k] == Backoff(k)
  {
    if m == 0 then [] else Schedule(m - 1) + [Backoff(m - 1)]
  }

  /** The transient error shown while a row is retried; rows are numbered from 1. */
  function RetryMessage(row: nat, message: string, delay: nat): string {
    "Row " + NatToString(row + 1) + ": " + message + ". Retrying in " + NatToString(delay / 1000) + "s..."
  }

  // ---------------------------------------------------------------- the trace of a run

  /** The settled outcome of one classifier call. */
  type Outcome = Result<Classification, string>

  /** When the user's reset raises the abort flag: never, or while the
      attempt with the given index (counting from 0) is under way. */
  datatype StopPlan = NoStop | StopDuring(attempt: nat)

  /** The abort flag is up once `n` attempts have been made. */
  predicate Halted(stop: StopPlan, n: nat) {
    stop.StopDuring? && stop.attempt < n
  }

  /** The classifications of the successful attempts, in order. */
  function Successes(t: seq<Outcome>): (r: seq<Classification>)
    ensures |r| <= |t|
  {
    if t == [] then []
    else Successes(t[..|t| - 1]) + (if t[|t| - 1].Success? then [t[|t| - 1].value] else [])
  }

  /** The row each attempt asks about: the one after the rows already classified. */
  function AskedRows(t: seq<Outcome>): (r: seq<nat>)
    ensures |r| == |t|
  {
    if t == [] then [] else AskedRows(t[..|t| - 1]) + [|Successes(t[..|t| - 1])|]
  }

  /** Attempt k asks about the row after the rows classified before it. */
  lemma {:induction false} AskedRowsCount(t: seq<Outcome>, k: nat)
    requires k < |t|
    ensures AskedRows(t)[k] == |Successes(t[..k])|
    decreases |t|
  {
    var p := t[..|t| - 1];
    if k < |t| - 1 {
      AskedRowsCount(p, k);
      assert p[..k] == t[..k];
    }
  }

  /** The first attempt asks about the first row. */
  lemma AskedRowsStart(t: seq<Outcome>)
    requires t != []
    ensures AskedRows(t)[0] == 0
  {
    AskedRowsCount(t, 0);
  }

  /** After a failed attempt the next one asks about the same row again,
      after a successful one about the next row. */
  lemma AskedRowsStep(t: seq<Outcome>, k: nat)
    requires k + 1 < |t|
    ensures AskedRows(t)[k + 1] == AskedRows(t)[k] + (if t[k].Success? then 1 else 0)
  {
    AskedRowsCount(t, k);
    AskedRowsCount(t, k + 1);
    assert t[..k + 1][..k] == t[..k];
  }

  /** Each attempt asked about a row that is classified by now, or about the
      row whose retries are still failing. */
  lemma {:induction false} AskedRowsBound(t: seq<Outcome>, k: nat)
    requires k < |t|
    ensures AskedRows(t)[k] < |Successes(t)| + (if LastFailed(t) then 1 else 0)
    decreases |t|
  {
    var p := t[..|t| - 1];
    if k < |t| - 1 {
      AskedRowsBound(p, k);
    }
  }

  /** Hence no attempt asks about a row past the ones reached. */
  lemma AskedRowsWithin(t: seq<Outcome>, m: nat)
    requires |Successes(t)| + (if LastFailed(t) then 1 else 0) <= m
    ensures forall k :: 0 <= k < |t| ==> AskedRows(t)[k] < m
  {
    forall k | 0 <= k < |t|
      ensures AskedRows(t)[k] < m
    {
      AskedRowsBound(t, k);
    }
  }

  /** The last attempt failed. */
  predicate LastFailed(t: seq<Outcome>) {
    t != [] && t[|t| - 1].Failure?
  }

  /** How many attempts at the end of the trace failed in a row. */
  function TrailingFailures(t: seq<Outcome>): (r: nat)
    ensures r <= |t|
  {
    if t == [] || t[|t| - 1].Success? then 0 else TrailingFailures(t[..|t| - 1]) + 1
  }

  /** The citations of the successful attempts, concatenated in order. */
  function SourcesOf(t: seq<Outcome>): seq<GroundingChunk> {
    if t == [] then []
    else SourcesOf(t[..|t| - 1]) + (if t[|t| - 1].Success? then t[|t| - 1].value.sources else [])
  }

  /** The waits that follow the attempts: the back-off delay after a failure,
      the row pause after a success. */
  function WaitsOf(t: seq<Outcome>): seq<nat> {
    if t == [] then []
    else
      var p := t[..|t| - 1];
      WaitsOf(p) + (if t[|t| - 1].Success? then [RowPause] else [Backoff(TrailingFailures(p))])
  }

  /** The error on screen after the attempts: the retry message of the last
      attempt when it failed, nothing otherwise. The failing row is the one
      after the rows already classified. */
  function ErrorAfter(t: seq<Outcome>): Option<string> {
    if LastFailed(t) then
      var p := t[..|t| - 1];
      Some(RetryMessage(|Successes(t)|, t[|t| - 1].error, Backoff(TrailingFailures(p))))
    else None
  }

  /** The result recorded for a row: `{ ...row, status: result, correctName }`. */
  function ResultOf(row: RowData, c: Classification): (r: AnalysisResult)
    ensures r.original == row.original && r.duplicates == row.duplicates
    ensures r.status == c.status && r.correctName == Some(c.correctName)
  {
    AnalysisResult(row.original, row.duplicates, c.status, Some(c.correctName))
  }

  /** The trailing failures are failures. */
  lemma {:induction false} TrailingFailuresAreFailures(t: seq<Outcome>, k: nat)
    requires |t| - TrailingFailures(t) <= k < |t|
    ensures t[k].Failure?
    decreases |t|
  {
    if k < |t| - 1 {
      var p := t[..|t| - 1];
      TrailingFailuresAreFailures(p, k);
      assert p[k] == t[k];
    }
  }

  /** The attempt before the trailing failures is a success. */
  lemma {:induction false} TrailingFailuresBoundary(t: seq<Outcome>)
    requires TrailingFailures(t) < |t|
    ensures t[|t| - TrailingFailures(t) - 1].Success?
    decreases |t|
  {
    if t[|t| - 1].Failure? {
      var p := t[..|t| - 1];
      TrailingFailuresBoundary(p);
      assert p[|p| - TrailingFailures(p) - 1] == t[|t| - TrailingFailures(t) - 1];
    }
  }

  /** Attempts that all fail after a completed row (or at the start) are
      counted as trailing failures. */
  lemma {:induction false} RetriesAreTrailing(p: seq<Outcome>, f: seq<Outcome>)
    requires !LastFailed(p)
    requires forall k :: 0 <= k < |f| ==> f[k].Failure?
    ensures TrailingFailures(p + f) == |f|
    decreases |f|
  {
    if f != [] {
      var g := f[..|f| - 1];
      RetriesAreTrailing(p, g);
      assert (p + f)[..|p + f| - 1] == p + g;
    } else {
      assert p + f == p;
    }
  }

  /** A row that fails m times after a completed row (or at the start) waits
      1, 2, 4, 8, 16, 30, 30, ... seconds between its attempts. */
  lemma {:induction false} RetryWaits(p: seq<Outcome>, f: seq<Outcome>)
    requires !LastFailed(p)
    requires forall k :: 0 <= k < |f| ==> f[k].Failure?
    ensures WaitsOf(p + f) == WaitsOf(p) + Schedule(|f|)
    decreases |f|
  {
    if f != [] {
      var g := f[..|f| - 1];
      RetryWaits(p, g);
      RetriesAreTrailing(p, g);
      assert (p + f)[..|p + f| - 1] == p + g;
    } else {
      assert p + f == p;
    }
  }

  /** Each recorded classification is the value of a successful attempt. */
  lemma {:induction false} SuccessesFromTrace(t: seq<Outcome>, c: Classification)
    requires c in Successes(t)
    ensures Success(c) in t
    decreases |t|
  {
    var p := t[..|t| - 1];
    if c in Successes(p) {
      SuccessesFromTrace(p, c);
    }
  }

  /** The outcomes of classifier calls answered by `replies`, one per call. */
  function Classified(replies: seq<ApiReply>): (r: seq<Outcome>)
    ensures |r| == |replies|
    ensures forall k :: 0 <= k < |replies| ==> r[k] == AnalyzeNames(replies[k])
  {
    if replies == [] then [] else [AnalyzeNames(replies[0])] + Classified(replies[1..])
  }

  /** When the outcomes come from the classifier, no recorded verdict is ERROR. */
  lemma RecordedVerdicts(replies: seq<ApiReply>, n: nat, k: nat)
    requires n <= |replies| && k < |Successes(Classified(replies)[..n])|
    ensures Successes(Classified(replies)[..n])[k].status != Error
  {
    var t := Classified(replies)[..n];
    var c := Successes(t)[k];
    SuccessesFromTrace(t, c);
    var j :| 0 <= j < |t| && t[j] == Success(c);
    assert Classified(replies)[j] == AnalyzeNames(replies[j]);
  }

  /** The state a run over `data` has reached after its first `n` attempts:
      each attempt asked about the row after the rows already classified;
      there is one result per success, for the rows in order; the citations
      are those of the successes; the error is that of the last attempt; the
      abort flag is up exactly when the stop plan has raised it, and no
      attempt was started after that. */
  ghost predicate Reached(outcomes: seq<Outcome>, stop: StopPlan, n: nat, asked: seq<nat>,
    data: seq<RowData>, results: seq<AnalysisResult>, sources: seq<GroundingChunk>, error: Option<string>, abort: bool)
  {
    && n <= |outcomes| && asked == AskedRows(outcomes[..n])
    && |Successes(outcomes[..n])| <= |data|
    && |results| == |Successes(outcomes[..n])|
    && (forall k :: 0 <= k < |results| ==> results[k] == ResultOf(data[k], Successes(outcomes[..n])[k]))
    && sources == SourcesOf(outcomes[..n])
    && error == ErrorAfter(outcomes[..n])
    && abort == Halted(stop, n)
    && (stop.StopDuring? ==> n <= stop.attempt + 1)
  }

  /** Before the first attempt nothing is recorded and the flag is down. */
  lemma ReachedAtStart(outcomes: seq<Outcome>, stop: StopPlan, data: seq<RowData>)
    ensures Reached(outcomes, stop, 0, [], data, [], [], None, false)
  {
    assert outcomes[..0] == [];
  }

  /** A successful attempt on row `i` records its result and citations and clears the error. */
  lemma SuccessStep(outcomes: seq<Outcome>, stop: StopPlan, n: nat, asked: seq<nat>,
    data: seq<RowData>, results: seq<AnalysisResult>, sources: seq<GroundingChunk>, error: Option<string>, i: nat)
    requires Reached(outcomes, stop, n, asked, data, results, sources, error, false)
    requires n < |outcomes| && outcomes[n].Success? && |Successes(outcomes[..n])| == i < |data|
    ensures Reached(outcomes, stop, n + 1, asked + [i], data,
      results + [ResultOf(data[i], outcomes[n].value)], sources + outcomes[n].value.sources, None, Halted(stop, n + 1))
  {
    var t := outcomes[..n + 1];
    assert t[..n] == outcomes[..n];
    assert Successes(t) == Successes(outcomes[..n]) + [outcomes[n].value];
  }

  /** After a successful attempt the row is done: one more success, and the row pause. */
  lemma SuccessTrace(outcomes: seq<Outcome>, n: nat)
    requires n < |outcomes| && outcomes[n].Success?
    ensures |Successes(outcomes[..n + 1])| == |Successes(outcomes[..n])| + 1
    ensures !LastFailed(outcomes[..n + 1])
    ensures WaitsOf(outcomes[..n + 1]) == WaitsOf(outcomes[..n]) + [RowPause]
  {
    assert outcomes[..n + 1][..n] == outcomes[..n];
  }

  /** A failed attempt on row `i` shows the retry message with the current delay. */
  lemma FailureStep(outcomes: seq<Outcome>, stop: StopPlan, n: nat, asked: seq<nat>,
    data: seq<RowData>, results: seq<AnalysisResult>, sources: seq<GroundingChunk>, error: Option<string>, i: nat)
    requires Reached(outcomes, stop, n, asked, data, results, sources, error, false)
    requires n < |outcomes| && outcomes[n].Failure? && |Successes(outcomes[..n])| == i < |data|
    ensures Reached(outcomes, stop, n + 1, asked + [i], data, results, sources,
      Some(RetryMessage(i, outcomes[n].error, Backoff(TrailingFailures(outcomes[..n])))), Halted(stop, n + 1))
  {
    var t := outcomes[..n + 1];
    assert t[..n] == outcomes[..n];
    assert Successes(t) == Successes(outcomes[..n]);
  }

  /** After a failed attempt the row stays open: one more trailing failure and its back-off wait. */
  lemma FailureTrace(outcomes: seq<Outcome>, n: nat)
    requires n < |outcomes| && outcomes[n].Failure?
    ensures |Successes(outcomes[..n + 1])| == |Successes(outcomes[..n])|
    ensures LastFailed(outcomes[..n + 1])
    ensures TrailingFailures(outcomes[..n + 1]) == TrailingFailures(outcomes[..n]) + 1
    ensures WaitsOf(outcomes[..n + 1]) == WaitsOf(outcomes[..n]) + [Backoff(TrailingFailures(outcomes[..n]))]
  {
    assert outcomes[..n + 1][..n] == outcomes[..n];
  }
}
