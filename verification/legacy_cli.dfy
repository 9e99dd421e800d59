/** The earlier command line at the repository root: one path in, one
    `(success, message)` per converted PDF out, and a summary of the counts
    and the failures. */
module LegacyCli {
  import opened Wrappers
  import opened Paths
  import opened Files
  import opened OcrUtils
  import opened LegacyOcrUtils
  import opened Batches
  import opened MistralOcr
  import Text

  /** The `--output-dir` default, the relative path `output`. */
  const DEFAULT_OUTPUT_DIR := Path(false, ["output"])

  /** What a legacy conversion promises about its result for `input`: a
      success names both paths, a failure is a skip notice or an error. */
  predicate LegacyResultFor(r: LegacyResult, outputDir: Path, input: Path)
  {
    (r.success ==> r.message == SuccessMessage(input, OutputPath(outputDir, input))) &&
    (!r.success ==> r.message == SkipMessage(OutputPath(outputDir, input)) || Text.StartsWith(r.message, ErrorPrefix(input)))
  }

  /** `process_and_save_pdf(client, pdf_file, output_dir, force)` as one step
      of a batch. */
  function LegacyStep(svc: Services, outputDir: Path, force: bool): (FileSystem, Path) -> Step<LegacyResult>
  {
    (f: FileSystem, p: Path) =>
      var o := LegacyOcrUtils.ProcessAndSavePdf(svc, f, p, outputDir, force);
      Step(o.fs, o.result, o.effects)
  }

  /** The files converted one after another with the same output directory
      and force flag: one result per file, in order, and never a hash or a
      cache call. */
  function ConvertEach(svc: Services, fs: FileSystem, files: seq<Path>, outputDir: Path, force: bool): (b: Run<LegacyResult>)
    ensures |b.results| == |files|
    ensures forall i :: 0 <= i < |files| ==> LegacyResultFor(b.results[i], outputDir, files[i])
    ensures forall e :: e in b.effects ==> !e.HashFile? && !e.CacheGet? && !e.CacheSet?
  {
    var step := LegacyStep(svc, outputDir, force);
    RunStepsResults(step, fs, files, (p: Path, r: LegacyResult) => LegacyResultFor(r, outputDir, p));
    RunStepsEffects(step, fs, files, (e: Effect) => !e.HashFile? && !e.CacheGet? && !e.CacheSet?);
    RunSteps(step, fs, files)
  }

  /** `process_path(input_path, output_dir, force, show_progress)`. The
      client is built from the environment alone; its `ValueError` is the
      `Failure`. The two loops, with and without a progress bar, make the
      same calls, so the result does not depend on `showProgress`. */
  method ProcessPath(svc: Services, fs: FileSystem, environment: Option<string>, input: Path, outputDir: Path, force: bool,
                     showProgress: bool, walk: seq<Path>, matchesPattern: string -> bool)
    returns (r: Result<Run<LegacyResult>, string>)
    ensures r.Failure? <==> InitializeClient(None, environment).Failure?
    ensures r.Failure? ==> r.error == MISSING_KEY_MESSAGE
    ensures r.Success? ==> r.value == ConvertEach(svc, fs, FindPdfFiles(fs, input, walk, matchesPattern), outputDir, force)
    ensures r.Success? && IsFile(fs, input) && !HasPdfSuffix(input) ==> r.value == Run(fs, [], [])
    ensures r.Success? && IsFile(fs, input) && HasPdfSuffix(input) ==>
              r.value.results == [LegacyOcrUtils.ProcessAndSavePdf(svc, fs, input, outputDir, force).result]
    ensures r.Success? && !Exists(fs, input) ==> r.value == Run(fs, [], [])
    ensures r.Success? && IsDir(fs, input) && !IsFile(fs, input) ==> |r.value.results| == |Glob(fs, input, walk, matchesPattern)|
  {
    var client := InitializeClient(None, environment);
    if client.Failure? {
      return Failure(client.error);
    }
    var step := LegacyStep(svc, outputDir, force);
    if IsFile(fs, input) {
      if !HasPdfSuffix(input) {
        return Success(Run(fs, [], []));
      }
      var o := step(fs, input);
      assert [input][1..] == [];
      return Success(Run(o.fs, [o.result], o.effects));
    } else if IsDir(fs, input) {
      var pdfFiles := Glob(fs, input, walk, matchesPattern);
      if |pdfFiles| == 0 {
        return Success(Run(fs, [], []));
      }
      // with or without the progress bar the loop body is the same call
      var b := RunEach(step, fs, pdfFiles);
      return Success(b);
    }
    return Success(Run(fs, [], []));
  }

  /** A legacy result in the packaged shape, with no document. */
  function AsProcessResults(results: seq<LegacyResult>): (r: seq<ProcessResult>)
    ensures |r| == |results|
    ensures forall i :: 0 <= i < |r| ==> r[i].success == results[i].success && r[i].message == results[i].message
  {
    seq(|results|, i requires 0 <= i < |results| => ProcessResult(results[i].success, results[i].message, None))
  }

  datatype LegacySummary = LegacySummary(successCount: nat, failCount: nat, failures: seq<string>)

  /** The summary `convert` prints: the counts, and the message of each
      failed result in order. */
  function Summarize(results: seq<LegacyResult>): (s: LegacySummary)
    ensures s.successCount + s.failCount == |results|
    ensures s.failCount == |s.failures|
    ensures s.failCount == 0 <==> forall i :: 0 <= i < |results| ==> results[i].success
    ensures forall m :: m in s.failures ==> exists i :: 0 <= i < |results| && !results[i].success && results[i].message == m
  {
    var shaped := AsProcessResults(results);
    AllSucceedIffNoFailures(shaped);
    var successCount := CountSuccesses(shaped);
    LegacySummary(successCount, |results| - successCount, FailedMessages(shaped))
  }

  /** The failures of two runs, listed one after the other, are the
      failures of the runs put together, so the listing keeps the results'
      order. */
  lemma SummarizeAppend(a: seq<LegacyResult>, b: seq<LegacyResult>)
    ensures Summarize(a + b).failures == Summarize(a).failures + Summarize(b).failures
    ensures Summarize(a + b).successCount == Summarize(a).successCount + Summarize(b).successCount
  {
    assert AsProcessResults(a + b) == AsProcessResults(a) + AsProcessResults(b);
    FailedMessagesAppend(AsProcessResults(a), AsProcessResults(b));
  }

  /** How the legacy command ended. */
  datatype CommandOutcome =
    | LegacyExit(code: int)
    | LegacyCompleted(fs: FileSystem, results: seq<LegacyResult>, summary: LegacySummary)

  /** `convert(input_path, output_dir, force)`. `outputDir` is `None` when
      the option is not given; `environment` is `MISTRAL_API_KEY`. */
  method Convert(svc: Services, fs: FileSystem, input: Path, outputDir: Option<Path>, force: bool, environment: Option<string>,
                 walk: seq<Path>, matchesPattern: string -> bool)
    returns (r: CommandOutcome)
    // a missing input exits before anything is processed
    ensures !Exists(fs, input) ==> r == LegacyExit(1)
    ensures Exists(fs, input) && InitializeClient(None, environment).Failure? ==> r == LegacyExit(1)
    ensures r.LegacyExit? ==> r.code == 1
    ensures Exists(fs, input) && InitializeClient(None, environment).Success? ==>
              var b := ConvertEach(svc, fs, FindPdfFiles(fs, input, walk, matchesPattern), outputDir.GetOr(DEFAULT_OUTPUT_DIR), force);
              r == LegacyCompleted(b.fs, b.results, Summarize(b.results))
  {
    if !Exists(fs, input) {
      return LegacyExit(1);
    }
    var processed := ProcessPath(svc, fs, environment, input, outputDir.GetOr(DEFAULT_OUTPUT_DIR), force, true, walk, matchesPattern);
    match processed
    case Failure(_) =>
      return LegacyExit(1);
    case Success(b) =>
      return LegacyCompleted(b.fs, b.results, Summarize(b.results));
  }
}
