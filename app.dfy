/** The analysis driver of the application (App.tsx): the row-by-row run over
    the loaded rows with its retry loop and capped exponential back-off, the
    reset that stops it, and the records written to the exported workbook.

    Each classifier call is represented by its settled outcome (what
    `analyzeNames` resolved with, or the message of the error it threw); the
    run is given these outcomes in the order the calls are made. Sleeping is
    represented by the list of delays the run waits, in order. */
module App {
  import opened Wrappers
  import opened Types
  import opened Strings
  import opened GeminiService
  import opened ResultsTable
  import opened RunTrace

  // ---------------------------------------------------------------- the driver

  /** `{ current, total }` of the progress bar. */
  datatype Progress = Progress(current: nat, total: nat)

  /** The component's state that the analysis reads and writes. */
  class Analyzer {
    /** The selected file, by its name. */
    var file: Option<string>
    var data: seq<RowData>
    var results: seq<AnalysisResult>
    var sources: seq<GroundingChunk>
    var loading: bool
    var progress: Progress
    var error: Option<string>
    /** `abortControllerRef.current` */
    var abort: bool

    /** The initial state of the component. */
    constructor ()
      ensures file == None && data == [] && results == [] && sources == []
      ensures !loading && progress == Progress(0, 0) && error == None && !abort
    {
      file := None;
      data := [];
      results := [];
      sources := [];
      loading := false;
      progress := Progress(0, 0);
      error := None;
      abort := false;
    }

    /** `handleFileSelect`: clear the state, then keep the rows `parseExcelFile`
        resolved with, or show the message it rejected with. The abort flag is
        left as it was, so after a reset it stays up until the next run. */
    method SelectFile(name: string, parsed: Result<seq<RowData>, string>)
      modifies this
      ensures file == Some(name) && results == [] && sources == []
      ensures data == (if parsed.Success? then parsed.value else [])
      ensures error == (if parsed.Failure? then Some(parsed.error) else None)
      ensures !loading && progress == Progress(0, 0) && abort == old(abort)
    {
      file := Some(name);
      data := [];
      results := [];
      sources := [];
      loading := false;
      progress := Progress(0, 0);
      error := None;
      match parsed {
        case Success(rows) => data := rows;
        case Failure(m) => error := Some(m);
      }
    }

    /** The fields hold what the run has reached after `n` attempts that
        asked about the rows `asked`. */
    ghost predicate Tracks(outcomes: seq<Outcome>, stop: StopPlan, n: nat, asked: seq<nat>)
      reads this
    {
      Reached(outcomes, stop, n, asked, data, results, sources, error, abort)
    }

    /** One attempt of the retry loop on row `i`: the `n0`-th call, its
        result or its retry message, and the abort flag as the reset left it. */
    method Attempt(outcomes: seq<Outcome>, stop: StopPlan, i: nat, n0: nat, asked0: seq<nat>,
      waits0: seq<nat>, delay0: nat)
      returns (n: nat, asked: seq<nat>, waits: seq<nat>, delay: nat, success: bool)
      requires i < |data| && !abort && n0 < |outcomes|
      requires Tracks(outcomes, stop, n0, asked0)
      requires |Successes(outcomes[..n0])| == i
      requires waits0 == WaitsOf(outcomes[..n0]) && delay0 == Backoff(TrailingFailures(outcomes[..n0]))
      modifies this
      ensures file == old(file) && data == old(data) && loading == old(loading) && progress == old(progress)
      ensures n == n0 + 1 && Tracks(outcomes, stop, n, asked)
      ensures success <==> outcomes[n0].Success?
      ensures success ==> |Successes(outcomes[..n])| == i + 1 && !LastFailed(outcomes[..n])
      ensures success ==> waits + [RowPause] == WaitsOf(outcomes[..n])
      ensures !success ==> |Successes(outcomes[..n])| == i && LastFailed(outcomes[..n])
      ensures !success ==> waits == WaitsOf(outcomes[..n]) && delay == Backoff(TrailingFailures(outcomes[..n]))
    {
      n, asked, waits, delay, success := n0, asked0, waits0, delay0, false;
      var row := data[i];
      var outcome := outcomes[n];
      match outcome {
        case Success(c) =>
          SuccessStep(outcomes, stop, n, asked, data, results, sources, error, i);
          SuccessTrace(outcomes, n);
          results := results + [ResultOf(row, c)];
          if |c.sources| > 0 {
            sources := sources + c.sources;
          } else {
            assert sources + c.sources == sources;
          }
          success := true;
          error := None;
        case Failure(m) =>
          FailureStep(outcomes, stop, n, asked, data, results, sources, error, i);
          FailureTrace(outcomes, n);
          BackoffStep(TrailingFailures(outcomes[..n]));
          error := Some(RetryMessage(i, m, delay));
          waits := waits + [delay];
          delay := NextDelay(delay);
      }
      asked := asked + [i];
      n := n + 1;
      if stop == StopDuring(n - 1) {
        abort := true;
      }
    }

    /** The retry loop of `handleAnalyze` on row `i`: ask about the row until
        an attempt succeeds or the abort flag is up, doubling the wait after
        each failure up to the cap. Returns early, with neither, when the
        outcomes run out. */
    method RunRow(outcomes: seq<Outcome>, stop: StopPlan, i: nat, n0: nat, asked0: seq<nat>, waits0: seq<nat>)
      returns (n: nat, asked: seq<nat>, waits: seq<nat>, success: bool)
      requires i < |data| && !abort
      requires Tracks(outcomes, stop, n0, asked0)
      requires |Successes(outcomes[..n0])| == i && !LastFailed(outcomes[..n0])
      requires waits0 == WaitsOf(outcomes[..n0])
      modifies this
      ensures file == old(file) && data == old(data) && loading == old(loading) && progress == old(progress)
      ensures n0 <= n && Tracks(outcomes, stop, n, asked)
      ensures success ==> |Successes(outcomes[..n])| == i + 1 && !LastFailed(outcomes[..n])
      ensures success ==> waits + [RowPause] == WaitsOf(outcomes[..n])
      ensures !success ==> |Successes(outcomes[..n])| == i && waits == WaitsOf(outcomes[..n])
      ensures !success && abort ==> LastFailed(outcomes[..n])
      ensures !success && !abort ==> n == |outcomes|
    {
      n, asked, waits := n0, asked0, waits0;
      success := false;
      var delay := BaseDelay;
      while !success && !abort
        invariant file == old(file) && data == old(data) && loading == old(loading) && progress == old(progress)
        invariant n0 <= n
        invariant Tracks(outcomes, stop, n, asked)
        invariant success ==> |Successes(outcomes[..n])| == i + 1 && !LastFailed(outcomes[..n])
        invariant success ==> waits + [RowPause] == WaitsOf(outcomes[..n])
        invariant !success ==> |Successes(outcomes[..n])| == i && waits == WaitsOf(outcomes[..n])
        invariant !success ==> delay == Backoff(TrailingFailures(outcomes[..n]))
        invariant abort && !success ==> LastFailed(outcomes[..n])
        decreases |outcomes| - n
      {
        if n == |outcomes| {
          return;
        }
        n, asked, waits, delay, success := Attempt(outcomes, stop, i, n, asked, waits, delay);
      }
    }

    /** `handleAnalyze`: classify the rows one by one, retrying each until it
        succeeds or the run is aborted. The k-th call gets `outcomes[k]`;
        `asked[k]` is the index of the row it asked about, and `waits` the
        delays slept, in order. The run returns with `loading` still set only
        when the outcomes run out. */
    method Analyze(outcomes: seq<Outcome>, stop: StopPlan) returns (asked: seq<nat>, waits: seq<nat>)
      modifies this
      ensures file == old(file) && data == old(data)
      ensures old(data) == [] ==> asked == [] && waits == []
      ensures old(data) == [] ==> results == old(results) && sources == old(sources) && loading == old(loading)
      ensures old(data) == [] ==> progress == old(progress) && error == old(error) && abort == old(abort)
      ensures old(data) != [] ==> Tracks(outcomes, stop, |asked|, asked)
      ensures old(data) != [] ==>
        progress == Progress(|results| + (if !loading && LastFailed(outcomes[..|asked|]) then 1 else 0), |data|)
      ensures old(data) != [] ==>
        waits == WaitsOf(outcomes[..|asked|]) + (if !loading && LastFailed(outcomes[..|asked|]) then [RowPause] else [])
      ensures old(data) != [] && loading ==> |asked| == |outcomes|
      ensures old(data) != [] && !loading ==> |results| == |data| || abort
      ensures old(data) != [] && !loading && !abort ==> error == None
      ensures old(data) != [] ==> forall k :: 0 <= k < |asked| ==> asked[k] < |data|
      ensures old(data) != [] ==> progress.current <= progress.total
      ensures old(data) != [] ==> (loading <==> !abort && |results| < |data|)
    {
      asked, waits := [], [];
      if |data| == 0 {
        return;
      }
      loading := true;
      error := None;
      results := [];
      sources := [];
      progress := Progress(0, |data|);
      abort := false;
      ReachedAtStart(outcomes, stop, data);
      var n := 0;
      var i := 0;
      while i < |data|
        invariant 0 <= i <= |data| && loading && file == old(file) && data == old(data)
        invariant Tracks(outcomes, stop, n, asked)
        invariant |Successes(outcomes[..n])| + (if LastFailed(outcomes[..n]) then 1 else 0) == i
        invariant LastFailed(outcomes[..n]) ==> abort
        invariant progress == Progress(i, |data|)
        invariant waits == WaitsOf(outcomes[..n]) + (if LastFailed(outcomes[..n]) then [RowPause] else [])
      {
        if abort {
          break;
        }
        var success;
        n, asked, waits, success := RunRow(outcomes, stop, i, n, asked, waits);
        if !success && !abort {
          AskedRowsWithin(outcomes[..n], |data|);
          return;
        }
        progress := Progress(i + 1, |data|);
        waits := waits + [RowPause];
        i := i + 1;
      }
      AskedRowsWithin(outcomes[..n], |data|);
      loading := false;
      if !abort {
        error := None;
      }
    }

    /** `resetState`: clear everything and raise the abort flag. */
    method ResetState()
      modifies this
      ensures file == None && data == [] && results == [] && sources == []
      ensures !loading && progress == Progress(0, 0) && error == None && abort
    {
      file := None;
      data := [];
      results := [];
      sources := [];
      loading := false;
      progress := Progress(0, 0);
      error := None;
      abort := true;
    }
  }

  // ---------------------------------------------------------------- the export

  /** One row of the exported sheet, column by column. */
  datatype ExportRecord = ExportRecord(
    original: string,
    duplicates: string,
    correctNameFound: string,
    correctionNeeded: string,
    matchStatus: string,
    isOriginalCorrect: string,
    isDuplicateCorrect: string)

  function YesNo(b: bool): string {
    if b then "YES" else "NO"
  }

  /** The record `handleExport` builds for a result, with the flags it computes
      itself. */
  function ExportRecordOf(r: AnalysisResult): ExportRecord {
    var correct := Lower(Trim(r.correctName.GetOr("")));
    var original := Lower(Trim(r.original));
    var duplicate := Lower(Trim(r.duplicates));
    var originalOk := correct != "" && original == correct;
    var duplicateOk := correct != "" && duplicate == correct;
    var output := if r.correctName.GetOr("") != "" && !originalOk && !duplicateOk then r.correctName.GetOr("") else "";
    ExportRecord(r.original, r.duplicates, r.correctName.GetOr(""), output, StatusText(r.status),
      YesNo(originalOk), YesNo(duplicateOk))
  }

  /** `handleExport`: nothing when there are no results, else one record per
      result, in order. */
  function ExportRows(results: seq<AnalysisResult>): (r: Option<seq<ExportRecord>>)
    ensures r.None? <==> results == []
    ensures r.Some? ==> |r.value| == |results|
  {
    if results == [] then None
    else Some(seq(|results|, k requires 0 <= k < |results| => ExportRecordOf(results[k])))
  }

  /** Each exported record carries its result's names, status and raw name. */
  lemma ExportedRecord(results: seq<AnalysisResult>, k: nat)
    requires k < |results|
    ensures ExportRows(results).Some?
    ensures ExportRows(results).value[k].original == results[k].original
    ensures ExportRows(results).value[k].duplicates == results[k].duplicates
    ensures ExportRows(results).value[k].matchStatus == StatusText(results[k].status)
    ensures ExportRows(results).value[k].correctNameFound == results[k].correctName.GetOr("")
    ensures ExportRows(results).value[k].correctionNeeded == CorrectNameCell(results[k])
    ensures ExportRows(results).value[k].isOriginalCorrect ==
      (if IsOriginalCorrect(results[k]) then "YES" else "NO")
    ensures ExportRows(results).value[k].isDuplicateCorrect ==
      (if IsDuplicateCorrect(results[k]) then "YES" else "NO")
  {
    assert ExportRows(results).value[k] == ExportRecordOf(results[k]);
    ExportCorrectionMatchesTable(results[k]);
    ExportOriginalFlagMatchesTable(results[k]);
    ExportDuplicateFlagMatchesTable(results[k]);
  }

  /** The export's "Correction Needed" column is the table's Correct Name cell. */
  lemma ExportCorrectionMatchesTable(r: AnalysisResult)
    ensures ExportRecordOf(r).correctionNeeded == CorrectNameCell(r)
  {
  }

  /** The export's "Is Original Correct" column says YES exactly when the
      table marks the original as correct, and NO otherwise. */
  lemma ExportOriginalFlagMatchesTable(r: AnalysisResult)
    ensures ExportRecordOf(r).isOriginalCorrect == (if IsOriginalCorrect(r) then "YES" else "NO")
  {
  }

  /** The same for "Is Duplicate Correct". */
  lemma ExportDuplicateFlagMatchesTable(r: AnalysisResult)
    ensures ExportRecordOf(r).isDuplicateCorrect == (if IsDuplicateCorrect(r) then "YES" else "NO")
  {
  }
}
