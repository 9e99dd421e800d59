/** The earlier, cache-less conversion helpers at the repository root: the
    client is built or an exception raised, and a conversion reports only
    `(success, message)`. */
module LegacyOcrUtils {
  import opened Wrappers
  import opened Paths
  import opened Files
  import opened OcrUtils
  import Text

  const MISSING_KEY_MESSAGE := "Mistral API key not manually provided and not found in environment"

  /** `initialize_mistral_client(api_key)`: the key the client is built with,
      from the argument, else from `MISTRAL_API_KEY`; otherwise the
      `ValueError` is raised (modelled as `Failure` with its message). */
  function InitializeClient(apiKey: Option<string>, environment: Option<string>): (r: Result<string, string>)
    ensures r.Failure? <==> !Truthy(apiKey) && !Truthy(environment)
    ensures r.Failure? ==> r.error == MISSING_KEY_MESSAGE
    ensures r.Success? ==> |r.value| > 0
    ensures Truthy(apiKey) ==> r == Success(apiKey.value)
    ensures !Truthy(apiKey) && Truthy(environment) ==> r == Success(environment.value)
  {
    if Truthy(apiKey) then Success(apiKey.value)
    else if Truthy(environment) then Success(environment.value)
    else Failure(MISSING_KEY_MESSAGE)
  }

  /** The legacy resolution agrees with the packaged one wherever a key
      exists; they differ only in raising instead of returning None. */
  lemma InitializeClientAgreesWithResolveApiKey(apiKey: Option<string>, environment: Option<string>)
    ensures InitializeClient(apiKey, environment).Success? <==> ResolveApiKey(apiKey, environment).Some?
    ensures ResolveApiKey(apiKey, environment).Some? ==>
              InitializeClient(apiKey, environment).value == ResolveApiKey(apiKey, environment).value
  {
  }

  /** The `(success, message)` tuple. */
  datatype LegacyResult = LegacyResult(success: bool, message: string)

  /** The result, the filesystem after the call and the calls made. */
  datatype LegacyOutcome = LegacyOutcome(fs: FileSystem, result: LegacyResult, effects: seq<Effect>)

  /** What `save_markdown` leaves: the filesystem and the exception, if any. */
  datatype Saved = Saved(fs: FileSystem, error: Option<ProcessError>)

  /** `save_markdown(markdown, output_path)`: the parent directories are
      made, the file is opened for writing, which creates or empties it, and
      the text is encoded with the locale's codec and written. An encoding
      failure therefore leaves an empty output file behind. */
  function SaveMarkdown(svc: Services, fs: FileSystem, out: Path, markdown: string): (a: Saved)
    ensures a.error.None? <==> SaveFile(fs, out, []).error.None? && svc.localeEncode(markdown).Success?
    ensures a.error.None? ==> a.fs.files == fs.files[out := svc.localeEncode(markdown).value]
    ensures SaveFile(fs, out, []).error.None? && svc.localeEncode(markdown).Failure? ==>
              a.error == Some(EncodeFailure(svc.localeEncode(markdown).error)) && a.fs.files == fs.files[out := []]
    ensures SaveFile(fs, out, []).error.Some? ==> a.error == Some(Os(SaveFile(fs, out, []).error.value)) && a.fs.files == fs.files
    ensures fs.dirs <= a.fs.dirs
  {
    var created := SaveFile(fs, out, []);
    match created.error
    case Some(e) => Saved(created.fs, Some(Os(e)))
    case None =>
      match svc.localeEncode(markdown)
      case Failure(m) => Saved(created.fs, Some(EncodeFailure(m)))
      case Success(bytes) => Saved(created.fs.(files := created.fs.files[out := bytes]), None)
  }

  /** The markdown the legacy conversion of `input` writes, when the OCR
      call succeeds. */
  function LegacyMarkdown(svc: Services, fs: FileSystem, input: Path): string
    requires ProcessPdfFile(svc, fs, input).Success?
  {
    ExtractMarkdown(ProcessPdfFile(svc, fs, input).value)
  }

  /** `process_and_save_pdf(client, input_path, output_dir, force)`. */
  function ProcessAndSavePdf(svc: Services, fs: FileSystem, input: Path, outputDir: Path, force: bool): (o: LegacyOutcome)
    ensures Skips(fs, input, outputDir, force) ==>
              o == LegacyOutcome(fs, LegacyResult(false, SkipMessage(OutputPath(outputDir, input))), [])
    ensures !Skips(fs, input, outputDir, force) ==>
              |o.effects| > 0 && o.effects[0] == OcrRequest(input) && forall e :: e in o.effects ==> !e.HashFile? && !e.CacheGet? && !e.CacheSet?
    ensures o.result.success <==>
              !Skips(fs, input, outputDir, force) && ProcessPdfFile(svc, fs, input).Success? && CanSave(fs, OutputPath(outputDir, input)) &&
              svc.localeEncode(LegacyMarkdown(svc, fs, input)).Success?
    ensures o.result.success ==>
              var out := OutputPath(outputDir, input);
              o.result.message == SuccessMessage(input, out) &&
              out in o.fs.files && o.fs.files[out] == svc.localeEncode(LegacyMarkdown(svc, fs, input)).value &&
              IsDir(o.fs, Parent(out))
    // a markdown the locale cannot encode leaves an empty output file and an error
    ensures !Skips(fs, input, outputDir, force) && ProcessPdfFile(svc, fs, input).Success? && CanSave(fs, OutputPath(outputDir, input)) &&
            svc.localeEncode(LegacyMarkdown(svc, fs, input)).Failure? ==>
              o.fs.files == fs.files[OutputPath(outputDir, input) := []] &&
              o.result.message == ErrorPrefix(input) + svc.localeEncode(LegacyMarkdown(svc, fs, input)).error
    ensures !o.result.success && !Skips(fs, input, outputDir, force) ==> Text.StartsWith(o.result.message, ErrorPrefix(input))
    // only an encoding failure leaves a file behind; every other failure writes nothing
    ensures !o.result.success && !(ProcessPdfFile(svc, fs, input).Success? && CanSave(fs, OutputPath(outputDir, input))) ==>
              o.fs.files == fs.files
    ensures OnlyOutputChanged(fs, o.fs, OutputPath(outputDir, input))
  {
    var out := OutputPath(outputDir, input);
    if Exists(fs, out) && !force then
      LegacyOutcome(fs, LegacyResult(false, SkipMessage(out)), [])
    else
      match ProcessPdfFile(svc, fs, input)
      case Failure(e) => LegacyOutcome(fs, LegacyResult(false, Failed(input, e).message), [OcrRequest(input)])
      case Success(pages) =>
        // the pages are joined inline, exactly as `extract_markdown_from_response` does
        var markdown := Text.Join(pages, "\n\n");
        var saved := SaveMarkdown(svc, fs, out, markdown);
        match saved.error
        case Some(e) => LegacyOutcome(saved.fs, LegacyResult(false, Failed(input, e).message), [OcrRequest(input), WriteOutput(out)])
        case None => LegacyOutcome(saved.fs, LegacyResult(true, SuccessMessage(input, out)), [OcrRequest(input), WriteOutput(out)])
  }

  /** The locale's codec agrees with UTF-8 on every string, as it does under
      a UTF-8 locale. */
  ghost predicate Utf8Locale(svc: Services)
  {
    forall s :: svc.localeEncode(s) == Success(svc.encode(s))
  }

  /** Without a cache, for an existing input and under a UTF-8 locale, the
      two versions of the conversion agree: the same success flag, message,
      files and calls apart from the hash the packaged version computes
      first. */
  lemma LegacyAgreesWithPackagedWithoutCache(svc: Services, fs: FileSystem, input: Path, outputDir: Path, force: bool, now: string)
    requires IsFile(fs, input)
    requires Utf8Locale(svc)
    ensures var legacy := ProcessAndSavePdf(svc, fs, input, outputDir, force);
            var packaged := OcrUtils.ProcessAndSavePdf(svc, fs, None, input, outputDir, force, now);
            legacy.result.success == packaged.result.success &&
            legacy.result.message == packaged.result.message &&
            legacy.fs == packaged.fs &&
            (if Skips(fs, input, outputDir, force) then legacy.effects == packaged.effects
             else [HashFile(input)] + legacy.effects == packaged.effects)
  {
  }
}
