/** The packaged command line: finding the PDFs under a path, choosing the
    output directory, converting each file in turn, summarising, and
    handing the successful documents to the clipboard. The command never
    passes a cache to the conversion. */
module MistralOcr {
  import opened Wrappers
  import opened Paths
  import opened Files
  import opened OcrUtils
  import opened Batches
  import Text

  /** `path.suffix.lower() == ".pdf"`. */
  predicate HasPdfSuffix(p: Path)
  {
    Text.LowerAscii(Suffix(Name(p))) == ".pdf"
  }

  /** The recursive `*.pdf` glob under `root`. `walk` is every path of the filesystem in
      the order the operating system's directory walk yields them;
      `matchesPattern` decides whether a name matches `*.pdf`, whose case
      sensitivity is the platform's. The result keeps the walk's order. */
  function Glob(fs: FileSystem, root: Path, walk: seq<Path>, matchesPattern: string -> bool): (r: seq<Path>)
    ensures |r| <= |walk|
    ensures forall q :: q in r ==> q in walk && IsUnder(root, q) && Exists(fs, q) && matchesPattern(Name(q))
    ensures forall q :: q in walk && IsUnder(root, q) && Exists(fs, q) && matchesPattern(Name(q)) ==> q in r
  {
    if |walk| == 0 then []
    else
      var q := walk[0];
      var rest := Glob(fs, root, walk[1..], matchesPattern);
      if IsUnder(root, q) && Exists(fs, q) && matchesPattern(Name(q)) then [q] + rest else rest
  }

  /** The glob of one walked path is that path exactly when it matches. */
  lemma GlobOne(fs: FileSystem, root: Path, q: Path, matchesPattern: string -> bool)
    ensures Glob(fs, root, [q], matchesPattern) == if IsUnder(root, q) && Exists(fs, q) && matchesPattern(Name(q)) then [q] else []
  {
    assert [q][1..] == [];
  }

  /** The glob of a walk is the glob of its first part followed by the glob
      of the rest, so matches come out in the order the walk visits them. */
  lemma {:induction false} GlobAppend(fs: FileSystem, root: Path, w1: seq<Path>, w2: seq<Path>, matchesPattern: string -> bool)
    ensures Glob(fs, root, w1 + w2, matchesPattern) == Glob(fs, root, w1, matchesPattern) + Glob(fs, root, w2, matchesPattern)
    decreases |w1|
  {
    if |w1| == 0 {
      assert w1 + w2 == w2;
    } else {
      assert (w1 + w2)[0] == w1[0];
      assert (w1 + w2)[1..] == w1[1..] + w2;
      GlobAppend(fs, root, w1[1..], w2, matchesPattern);
    }
  }

  predicate NoDuplicates(s: seq<Path>)
  {
    forall i, j :: 0 <= i < j < |s| ==> s[i] != s[j]
  }

  /** A walk that visits each path once yields each match once. */
  lemma {:induction false} GlobNoDuplicates(fs: FileSystem, root: Path, walk: seq<Path>, matchesPattern: string -> bool)
    requires NoDuplicates(walk)
    ensures NoDuplicates(Glob(fs, root, walk, matchesPattern))
  {
    if |walk| > 0 {
      assert NoDuplicates(walk[1..]);
      GlobNoDuplicates(fs, root, walk[1..], matchesPattern);
      assert walk[0] !in walk[1..];
    }
  }

  /** `find_pdf_files(input_path)`. */
  function FindPdfFiles(fs: FileSystem, input: Path, walk: seq<Path>, matchesPattern: string -> bool): (r: seq<Path>)
    ensures IsFile(fs, input) ==> (HasPdfSuffix(input) ==> r == [input]) && (!HasPdfSuffix(input) ==> r == [])
    ensures !Exists(fs, input) ==> r == []
    ensures IsDir(fs, input) && !IsFile(fs, input) ==>
              (forall q :: q in r ==> IsUnder(input, q) && Exists(fs, q) && matchesPattern(Name(q))) &&
              (forall q :: q in walk && IsUnder(input, q) && Exists(fs, q) && matchesPattern(Name(q)) ==> q in r)
    ensures IsDir(fs, input) && !IsFile(fs, input) ==> r == Glob(fs, input, walk, matchesPattern)
  {
    if IsFile(fs, input) then (if HasPdfSuffix(input) then [input] else [])
    else if IsDir(fs, input) then Glob(fs, input, walk, matchesPattern)
    else []
  }

  /** The suffix test ignores case: "doc.pdf" and "DOC.PDF" are PDFs,
      "not_pdf.txt" is not. */
  lemma SuffixTestIgnoresCase(dir: Path)
    ensures HasPdfSuffix(Child(dir, "doc.pdf"))
    ensures HasPdfSuffix(Child(dir, "DOC.PDF"))
    ensures !HasPdfSuffix(Child(dir, "not_pdf.txt"))
  {
    RFindAt("doc.pdf", '.', 3);
    assert Suffix("doc.pdf") == ".pdf";
    RFindAt("DOC.PDF", '.', 3);
    assert Suffix("DOC.PDF") == ".PDF";
    assert Text.LowerAscii(".PDF") == ".pdf";
    RFindAt("not_pdf.txt", '.', 7);
    assert Suffix("not_pdf.txt") == ".txt";
    assert Text.LowerAscii(".txt")[1] == 't';
  }

  /** Reading off the last dot of a concrete name. */
  lemma RFindAt(s: string, c: char, k: nat)
    requires k < |s| && s[k] == c
    requires forall j :: k < j < |s| ==> s[j] != c
    ensures RFind(s, c) == k
  {
  }

  /** A directory holding "a.pdf", "sub/b.PDF" and "c.txt", searched with a
      pattern that accepts "b.PDF" (a case-insensitive platform), yields
      "a.pdf" and "sub/b.PDF" in walk order. */
  lemma DirectorySearchFindsUpperCaseSuffix(root: Path, matchesPattern: string -> bool)
    requires matchesPattern("a.pdf") && matchesPattern("b.PDF")
    requires !matchesPattern("sub") && !matchesPattern("c.txt")
    ensures var a := Child(root, "a.pdf");
            var sub := Child(root, "sub");
            var b := Child(sub, "b.PDF");
            var c := Child(root, "c.txt");
            var fs := FileSystem({root, sub}, map[a := [], b := [], c := []]);
            FindPdfFiles(fs, root, [a, sub, b, c], matchesPattern) == [a, b]
  {
    var a := Child(root, "a.pdf");
    var sub := Child(root, "sub");
    var b := Child(sub, "b.PDF");
    var c := Child(root, "c.txt");
    var fs := FileSystem({root, sub}, map[a := [], b := [], c := []]);
    assert IsUnder(root, a) by {
      assert a.parts[..|root.parts|] == root.parts;
    }
    assert IsUnder(root, b) by {
      assert b.parts[..|root.parts|] == root.parts;
    }
    assert !IsFile(fs, root) by {
      assert |root.parts| != |a.parts| && |root.parts| != |b.parts| && |root.parts| != |c.parts|;
    }
    var w3 := [c];
    assert Glob(fs, root, w3, matchesPattern) == [] by {
      assert w3[1..] == [];
    }
    var w2 := [b, c];
    assert w2[1..] == w3;
    assert Glob(fs, root, w2, matchesPattern) == [b];
    var w1 := [sub, b, c];
    assert w1[1..] == w2;
    assert Glob(fs, root, w1, matchesPattern) == [b];
    var w0 := [a, sub, b, c];
    assert w0[1..] == w1;
    assert Glob(fs, root, w0, matchesPattern) == [a, b];
  }

  /** `determine_output_directory(input_path, output_dir)`. */
  function DetermineOutputDirectory(fs: FileSystem, input: Path, outputDir: Option<Path>): (r: Path)
    ensures outputDir.Some? ==> r == outputDir.value
    ensures outputDir.None? && IsDir(fs, input) ==> r == input
    ensures outputDir.None? && !IsDir(fs, input) ==> r == Parent(input)
  {
    match outputDir
    case Some(d) => d
    case None => if IsDir(fs, input) then input else Parent(input)
  }

  /** Without `--output-dir`, the Markdown for a single file lands beside it,
      and the Markdown for every PDF found under a directory lands directly
      in that directory, however deep the PDF was. */
  lemma DefaultOutputLocation(fs: FileSystem, input: Path, found: Path)
    ensures IsDir(fs, input) ==> Parent(OutputPath(DetermineOutputDirectory(fs, input, None), found)) == input
    ensures !IsDir(fs, input) ==> Parent(OutputPath(DetermineOutputDirectory(fs, input, None), input)) == Parent(input)
  {
  }

  /** The timestamp handed to the conversion by the command line. It is
      never consulted: the timestamp feeds only the cache, and the command
      passes none. */
  const NO_CACHE_TIMESTAMP := ""

  /** The call the command makes for each file:
      `process_and_save_pdf(client, pdf_file, output_dir, force)`, with no
      cache. */
  function ConvertWithoutCache(svc: Services, fs: FileSystem, input: Path, outputDir: Path, force: bool): (o: Outcome)
    ensures o.result.success <==> o.result.doc.Some?
    ensures o.result.doc.Some? ==>
              !o.result.doc.value.fromCache &&
              o.result.doc.value.outputPath == OutputPath(outputDir, input) &&
              o.result.doc.value.filename == Name(input)
    ensures o.cache.None?
    ensures forall e :: e in o.effects ==> !e.CacheGet? && !e.CacheSet?
    // a success has written the document's content to the flattened output
    // path, and nothing but that file ever changes
    ensures o.result.success ==>
              OutputPath(outputDir, input) in o.fs.files &&
              o.fs.files[OutputPath(outputDir, input)] == svc.encode(o.result.doc.value.content)
    ensures OnlyOutputChanged(fs, o.fs, OutputPath(outputDir, input))
  {
    OcrUtils.ProcessAndSavePdf(svc, fs, None, input, outputDir, force, NO_CACHE_TIMESTAMP)
  }

  /** A result of the no-cache call for `input`: success goes with a
      freshly recognised document written to `input`'s output path. */
  predicate ResultFor(r: ProcessResult, outputDir: Path, input: Path)
  {
    (r.success <==> r.doc.Some?) &&
    (r.doc.Some? ==>
       !r.doc.value.fromCache &&
       r.doc.value.outputPath == OutputPath(outputDir, input) &&
       r.doc.value.filename == Name(input))
  }

  /** The no-cache conversion, as one step of a batch. */
  function ConvertStep(svc: Services, outputDir: Path, force: bool): (FileSystem, Path) -> Step<ProcessResult>
  {
    (f: FileSystem, p: Path) =>
      var o := ConvertWithoutCache(svc, f, p, outputDir, force);
      Step(o.fs, o.result, o.effects)
  }

  /** The reference meaning of the batch loop: convert the files one after
      another, each on the filesystem the previous one left, with the same
      output directory and force flag and no cache. */
  function RunBatch(svc: Services, fs: FileSystem, files: seq<Path>, outputDir: Path, force: bool): (b: Run<ProcessResult>)
    ensures |b.results| == |files|
    ensures forall i :: 0 <= i < |files| ==> ResultFor(b.results[i], outputDir, files[i])
    ensures forall e :: e in b.effects ==> !e.CacheGet? && !e.CacheSet?
  {
    var step := ConvertStep(svc, outputDir, force);
    RunStepsResults(step, fs, files, (p: Path, r: ProcessResult) => ResultFor(r, outputDir, p));
    RunStepsEffects(step, fs, files, (e: Effect) => !e.CacheGet? && !e.CacheSet?);
    RunSteps(step, fs, files)
  }

  /** `process_pdf_files(client, pdf_files, output_dir, force)`: one result
      per input, in input order; no files, no results. */
  method ProcessPdfFiles(svc: Services, fs: FileSystem, pdfFiles: seq<Path>, outputDir: Path, force: bool)
    returns (results: seq<ProcessResult>, fsAfter: FileSystem)
    ensures results == RunBatch(svc, fs, pdfFiles, outputDir, force).results
    ensures fsAfter == RunBatch(svc, fs, pdfFiles, outputDir, force).fs
    ensures |pdfFiles| == 0 ==> results == [] && fsAfter == fs
  {
    if |pdfFiles| == 0 {
      return [], fs;
    }
    var b := RunEach(ConvertStep(svc, outputDir, force), fs, pdfFiles);
    results, fsAfter := b.results, b.fs;
  }

  function CountSuccesses(results: seq<ProcessResult>): (n: nat)
    ensures n <= |results|
  {
    if |results| == 0 then 0
    else (if results[0].success then 1 else 0) + CountSuccesses(results[1..])
  }

  /** Successes of two result lists add up, so the count does not depend on
      how the batch is split. */
  lemma {:induction false} CountSuccessesAppend(a: seq<ProcessResult>, b: seq<ProcessResult>)
    ensures CountSuccesses(a + b) == CountSuccesses(a) + CountSuccesses(b)
    decreases |a|
  {
    if |a| == 0 {
      assert a + b == b;
    } else {
      assert (a + b)[0] == a[0];
      assert (a + b)[1..] == a[1..] + b;
      CountSuccessesAppend(a[1..], b);
    }
  }

  /** The messages of the failed results, in order. */
  function FailedMessages(results: seq<ProcessResult>): (r: seq<string>)
    ensures |r| + CountSuccesses(results) == |results|
    ensures forall m :: m in r ==> exists i :: 0 <= i < |results| && !results[i].success && results[i].message == m
  {
    if |results| == 0 then []
    else
      var rest := FailedMessages(results[1..]);
      assert forall m :: m in rest ==> exists i :: 0 <= i < |results[1..]| && !results[1..][i].success && results[1..][i].message == m;
      (if results[0].success then [] else [results[0].message]) + rest
  }

  /** The failures of two runs, listed one after the other, are the failures
      of the runs put together: the listing keeps the results' order. */
  lemma {:induction false} FailedMessagesAppend(a: seq<ProcessResult>, b: seq<ProcessResult>)
    ensures FailedMessages(a + b) == FailedMessages(a) + FailedMessages(b)
  {
    if |a| == 0 {
      assert a + b == b;
    } else {
      assert (a + b)[0] == a[0];
      assert (a + b)[1..] == a[1..] + b;
      FailedMessagesAppend(a[1..], b);
    }
  }

  /** A failure detail line; `skipped` is the yellow "skip" colouring. */
  datatype Detail = Detail(message: string, skipped: bool)

  datatype Summary = Summary(successCount: nat, failCount: nat, details: seq<Detail>)

  /** The words that mark a failure as a skip. */
  predicate IsSkipNotice(message: string)
  {
    Text.Contains(message, "Skipping") || Text.Contains(message, "already exists")
  }

  /** `print_processing_summary(results)`: the counts, and one detail line per
      failed result, in order, classified as a skip or an error. */
  function PrintProcessingSummary(results: seq<ProcessResult>): (s: Summary)
    ensures s.successCount + s.failCount == |results|
    ensures s.failCount == 0 <==> forall i :: 0 <= i < |results| ==> results[i].success
    ensures s.failCount == |FailedMessages(results)| == |s.details|
    ensures forall i :: 0 <= i < |s.details| ==>
              s.details[i].message == FailedMessages(results)[i] && (s.details[i].skipped <==> IsSkipNotice(s.details[i].message))
  {
    var successCount := CountSuccesses(results);
    var failCount := |results| - successCount;
    var failed := FailedMessages(results);
    var details := if failCount > 0 then seq(|failed|, i requires 0 <= i < |failed| => Detail(failed[i], IsSkipNotice(failed[i]))) else [];
    AllSucceedIffNoFailures(results);
    Summary(successCount, failCount, details)
  }

  lemma {:induction false} AllSucceedIffNoFailures(results: seq<ProcessResult>)
    ensures CountSuccesses(results) == |results| <==> forall i :: 0 <= i < |results| ==> results[i].success
  {
    if |results| > 0 {
      AllSucceedIffNoFailures(results[1..]);
      if !results[0].success {
        assert CountSuccesses(results) <= |results[1..]|;
      }
      assert forall i :: 1 <= i < |results| ==> results[i] == results[1..][i - 1];
    }
  }

  /** The "already exists" notice reads as a skip. */
  lemma SkipMessageIsSkipNotice(out: Path)
    ensures IsSkipNotice(SkipMessage(out))
  {
    var m := SkipMessage(out);
    var head := "Output file " + PathStr(out) + " ";
    var tail := ". Use --force to overwrite.";
    assert m == head + "already exists" + tail;
    var at := |head|;
    assert m[at..at + |"already exists"|] == "already exists";
    Text.ContainsAt(m, "already exists", at);
  }

  /** Every skip the conversion reports is shown as a skip. */
  lemma SkipResultIsSkipNotice(svc: Services, fs: FileSystem, input: Path, outputDir: Path, force: bool)
    requires Skips(fs, input, outputDir, force)
    ensures IsSkipNotice(ConvertWithoutCache(svc, fs, input, outputDir, force).result.message)
  {
    SkipMessageIsSkipNotice(OutputPath(outputDir, input));
  }

  /** `[doc for success, _, doc in results if success and doc]`. */
  function SuccessfulDocuments(results: seq<ProcessResult>): (docs: seq<ProcessedDocument>)
    ensures |docs| <= |results|
    ensures forall d :: d in docs ==> exists i :: 0 <= i < |results| && results[i].success && results[i].doc == Some(d)
    ensures forall i :: 0 <= i < |results| && results[i].success && results[i].doc.Some? ==> results[i].doc.value in docs
  {
    if |results| == 0 then []
    else
      var rest := SuccessfulDocuments(results[1..]);
      assert forall d :: d in rest ==> exists i :: 0 <= i < |results[1..]| && results[1..][i].success && results[1..][i].doc == Some(d);
      if results[0].success && results[0].doc.Some? then [results[0].doc.value] + rest else rest
  }

  /** One result contributes its document exactly when it succeeded with one. */
  lemma SuccessfulDocumentsOne(r: ProcessResult)
    ensures SuccessfulDocuments([r]) == if r.success && r.doc.Some? then [r.doc.value] else []
  {
    assert [r][1..] == [];
  }

  /** The documents of two batches of results, one after the other, are the
      documents of the batches put together: the selection keeps the
      results' order. */
  lemma {:induction false} SuccessfulDocumentsAppend(a: seq<ProcessResult>, b: seq<ProcessResult>)
    ensures SuccessfulDocuments(a + b) == SuccessfulDocuments(a) + SuccessfulDocuments(b)
    decreases |a|
  {
    if |a| == 0 {
      assert a + b == b;
    } else {
      assert (a + b)[0] == a[0];
      assert (a + b)[1..] == a[1..] + b;
      SuccessfulDocumentsAppend(a[1..], b);
    }
  }

  /** When success and a document go together, the clipboard receives one
      document per success the summary counts. */
  lemma {:induction false} SuccessfulDocumentsMatchCount(results: seq<ProcessResult>)
    requires forall i :: 0 <= i < |results| ==> (results[i].success <==> results[i].doc.Some?)
    ensures |SuccessfulDocuments(results)| == CountSuccesses(results)
  {
    if |results| > 0 {
      SuccessfulDocumentsMatchCount(results[1..]);
    }
  }

  /** How the command ended. `NoPdfFiles` is left without an exit code: the
      `typer.Exit(code=0)` raised there is caught by the surrounding
      `except Exception` only if it derives from `Exception`. */
  datatype ConvertOutcome =
    | Exit(code: int)
    | NoPdfFiles(fs: FileSystem)
    | Completed(fs: FileSystem, results: seq<ProcessResult>, summary: Summary, clipboard: Option<ClipboardOutcome>)

  /** `convert(input_path, output_dir, force, clipboard, api_key)`.
      `environment` is `MISTRAL_API_KEY` (from the process or `.env`). */
  function Convert(svc: Services, fs: FileSystem, input: Path, outputDir: Option<Path>, force: bool, clipboard: bool,
                   apiKey: Option<string>, environment: Option<string>,
                   walk: seq<Path>, matchesPattern: string -> bool, copy: string -> CopyResult): (r: ConvertOutcome)
    // a missing input exits before the key is even looked at
    ensures !Exists(fs, input) ==> r == Exit(1)
    ensures Exists(fs, input) && ResolveApiKey(apiKey, environment).None? ==> r == Exit(1)
    ensures r.Exit? ==> r.code == 1
    ensures Exists(fs, input) && ResolveApiKey(apiKey, environment).Some? ==>
              var outDir := DetermineOutputDirectory(fs, input, outputDir);
              (r == Exit(1) <==> Blocked(fs, outDir))
    // once the output directory exists, the files found decide between the
    // early return and the batch, which runs over exactly those files
    ensures Exists(fs, input) && ResolveApiKey(apiKey, environment).Some? && !Blocked(fs, DetermineOutputDirectory(fs, input, outputDir)) ==>
              var outDir := DetermineOutputDirectory(fs, input, outputDir);
              var ready := MakeDirs(fs, outDir).value;
              var pdfs := FindPdfFiles(ready, input, walk, matchesPattern);
              (r.NoPdfFiles? <==> |pdfs| == 0) &&
              (r.NoPdfFiles? ==> r.fs == ready) &&
              (r.Completed? ==> var b := RunBatch(svc, ready, pdfs, outDir, force); r.fs == b.fs && r.results == b.results)
    ensures r.Completed? ==> r.summary == PrintProcessingSummary(r.results)
    ensures r.Completed? ==>
              |r.results| > 0 &&
              r.summary.successCount + r.summary.failCount == |r.results| &&
              |SuccessfulDocuments(r.results)| == r.summary.successCount &&
              (forall i :: 0 <= i < |r.results| && r.results[i].doc.Some? ==> !r.results[i].doc.value.fromCache)
    ensures r.Completed? ==>
              (clipboard ==> r.clipboard == Some(HandleClipboardOperation(SuccessfulDocuments(r.results), copy))) &&
              (!clipboard ==> r.clipboard.None?)
  {
    if !Exists(fs, input) then Exit(1)
    else if ResolveApiKey(apiKey, environment).None? then Exit(1)
    else
      var outDir := DetermineOutputDirectory(fs, input, outputDir);
      match MakeDirs(fs, outDir)
      case Failure(_) => Exit(1)
      case Success(ready) =>
        var pdfs := FindPdfFiles(ready, input, walk, matchesPattern);
        if |pdfs| == 0 then NoPdfFiles(ready)
        else
          var batch := RunBatch(svc, ready, pdfs, outDir, force);
          var summary := PrintProcessingSummary(batch.results);
          SuccessfulDocumentsMatchCount(batch.results);
          var copied := if clipboard then Some(HandleClipboardOperation(SuccessfulDocuments(batch.results), copy)) else None;
          Completed(batch.fs, batch.results, summary, copied)
  }
}
