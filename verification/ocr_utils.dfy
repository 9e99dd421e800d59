/** The per-file conversion step and the clipboard helpers of the packaged
    converter. The OCR service, the hash function, the text encoding used by
    `write_text` and the clipboard are collaborators passed in as functions;
    the filesystem and the optional cache are values threaded through. */
module OcrUtils {
  import opened Wrappers
  import opened Paths
  import opened Files
  import opened CacheUtils
  import Text

  const OCR_MODEL := "mistral-ocr-latest"
  const PAGE_SEPARATOR := "\n\n"
  const DOCUMENT_SEPARATOR := "\n\n---\n\n"

  /** The collaborators the converter calls but does not implement:
      `sha256` is `hashlib.sha256(bytes).hexdigest()`; `encode` is UTF-8,
      which `write_text(..., encoding="utf-8")` applies and which cannot fail
      on a string of Unicode scalar values; `localeEncode` is the locale's
      codec, which a `write_text` without an encoding applies, yielding the
      bytes or the text of the `UnicodeEncodeError`; and `ocr` is
      upload-then-OCR of a file given its name and bytes, yielding page
      markdown in page order or the text of the exception the client raised. */
  datatype Services = Services(
    sha256: seq<byte> -> string,
    encode: string -> seq<byte>,
    localeEncode: string -> Result<seq<byte>, string>,
    ocr: (string, seq<byte>) -> Result<seq<string>, string>)

  /** A successfully converted file. */
  datatype ProcessedDocument = ProcessedDocument(
    filename: string,
    content: string,
    outputPath: Path,
    fromCache: bool)

  /** Python truthiness of an optional string: present and non-empty. */
  predicate Truthy(s: Option<string>)
  {
    s.Some? && |s.value| > 0
  }

  /** `initialize_mistral_client(api_key)`: the key the client is built
      with, taken from the argument, else from `MISTRAL_API_KEY`; no client
      (None) when neither is set and non-empty. */
  function ResolveApiKey(apiKey: Option<string>, environment: Option<string>): (r: Option<string>)
    ensures r.None? <==> !Truthy(apiKey) && !Truthy(environment)
    ensures r.Some? ==> |r.value| > 0
    ensures Truthy(apiKey) ==> r == apiKey
    ensures !Truthy(apiKey) && Truthy(environment) ==> r == environment
  {
    if Truthy(apiKey) then apiKey
    else if Truthy(environment) then environment
    else None
  }

  /** `extract_markdown_from_response`: page markdown joined by a blank line. */
  function ExtractMarkdown(pages: seq<string>): (r: string)
    ensures |pages| == 0 ==> r == ""
    ensures |pages| == 1 ==> r == pages[0]
  {
    Text.Join(pages, PAGE_SEPARATOR)
  }

  /** Pages keep their order: page `i` appears verbatim after the earlier
      pages and their separators, and a blank line follows it unless it is
      the last page. */
  lemma {:induction false} ExtractMarkdownKeepsPageOrder(pages: seq<string>, i: nat)
    requires i < |pages|
    ensures var at := Text.Offset(pages, PAGE_SEPARATOR, i);
            at + |pages[i]| <= |ExtractMarkdown(pages)| &&
            ExtractMarkdown(pages)[at..at + |pages[i]|] == pages[i]
    ensures var end := Text.Offset(pages, PAGE_SEPARATOR, i) + |pages[i]|;
            i + 1 < |pages| ==> end + 2 <= |ExtractMarkdown(pages)| && ExtractMarkdown(pages)[end..end + 2] == "\n\n"
  {
    Text.JoinPlacesParts(pages, PAGE_SEPARATOR, i);
  }

  /** The saved markdown is the pages plus one blank line between each pair. */
  lemma ExtractMarkdownLength(pages: seq<string>)
    requires |pages| > 0
    ensures |ExtractMarkdown(pages)| == Text.TotalLength(pages) + 2 * (|pages| - 1)
  {
    Text.JoinLength(pages, PAGE_SEPARATOR);
  }

  /** `output_dir / f"{input_path.stem}.md"`: only the input's name matters,
      so inputs from different directories land side by side. */
  function OutputPath(outputDir: Path, input: Path): (r: Path)
    ensures Parent(r) == outputDir
    ensures Name(r) == Stem(Name(input)) + ".md"
  {
    ParentOfChild(outputDir, Stem(Name(input)) + ".md");
    Child(outputDir, Stem(Name(input)) + ".md")
  }

  /** Output paths are flattened: two inputs with the same file name, from
      any two directories, map to the same output path. */
  lemma OutputPathFlattens(outputDir: Path, a: Path, b: Path)
    requires Name(a) == Name(b)
    ensures OutputPath(outputDir, a) == OutputPath(outputDir, b)
  {
  }

  /** Why processing a file failed; `Reason` is the exception's `str()`. */
  datatype ProcessError =
    | Os(io: IoError)
    | FileNotFound(path: Path)
    | ServiceFailure(reason: string)
    | EncodeFailure(reason: string)

  function Reason(e: ProcessError): string
  {
    match e
    case Os(io) => Describe(io)
    case FileNotFound(p) => "File not found: " + PathStr(p)
    case ServiceFailure(m) => m
    case EncodeFailure(m) => m
  }

  /** `process_pdf_file`: checks the file exists, reads it, and hands name
      and bytes to the OCR service. */
  function ProcessPdfFile(svc: Services, fs: FileSystem, p: Path): (r: Result<seq<string>, ProcessError>)
    ensures !Exists(fs, p) ==> r == Failure(FileNotFound(p))
    ensures IsDir(fs, p) && !IsFile(fs, p) ==> r == Failure(Os(IsADirectory(p)))
    ensures IsFile(fs, p) ==> r == (match svc.ocr(Name(p), fs.files[p])
                                    case Success(pages) => Success(pages)
                                    case Failure(m) => Failure(ServiceFailure(m)))
  {
    if !Exists(fs, p) then Failure(FileNotFound(p))
    else
      match ReadBytes(fs, p)
      case Failure(e) => Failure(Os(e))
      case Success(bytes) =>
        match svc.ocr(Name(p), bytes)
        case Success(pages) => Success(pages)
        case Failure(m) => Failure(ServiceFailure(m))
  }

  /** The calls a conversion makes, in order, so that what a branch does
      NOT do can be stated. */
  datatype Effect =
    | HashFile(path: Path)
    | CacheGet(pdfHash: string)
    | OcrRequest(path: Path)
    | WriteOutput(path: Path)
    | CacheSet(pdfHash: string)

  /** The `(success, message, processed_document)` tuple. */
  datatype ProcessResult = ProcessResult(success: bool, message: string, doc: Option<ProcessedDocument>)

  /** The result together with the filesystem and cache it leaves behind and
      the calls it made. */
  datatype Outcome = Outcome(fs: FileSystem, cache: Option<Cache>, result: ProcessResult, effects: seq<Effect>)

  function SkipMessage(out: Path): string
  {
    "Output file " + PathStr(out) + " already exists. Use --force to overwrite."
  }

  function ErrorPrefix(input: Path): string
  {
    "Error processing " + PathStr(input) + ": "
  }

  function CachedMessage(input: Path): string
  {
    PathStr(input) + " (cached)"
  }

  function SuccessMessage(input: Path, out: Path): string
  {
    "Successfully processed " + PathStr(input) + " -> " + PathStr(out)
  }

  /** The `except Exception` arm. */
  function Failed(input: Path, e: ProcessError): (r: ProcessResult)
    ensures !r.success && r.doc.None? && Text.StartsWith(r.message, ErrorPrefix(input))
  {
    ProcessResult(false, ErrorPrefix(input) + Reason(e), None)
  }

  /** The output exists and overwriting was not asked for. */
  predicate Skips(fs: FileSystem, input: Path, outputDir: Path, force: bool)
  {
    Exists(fs, OutputPath(outputDir, input)) && !force
  }

  /** The file is readable and an enabled cache holds a row for its hash. */
  predicate CacheHits(svc: Services, fs: FileSystem, cache: Option<Cache>, input: Path)
  {
    IsFile(fs, input) && cache.Some? && cache.value.enabled && svc.sha256(fs.files[input]) in cache.value.entries
  }

  /** Saving to `out` can succeed: nothing blocks its directory and it is
      not itself a directory. */
  predicate CanSave(fs: FileSystem, out: Path)
  {
    !Blocked(fs, Parent(out)) && !IsDir(fs, out)
  }

  /** Only `out` may change among the files; no directory disappears. */
  predicate OnlyOutputChanged(before: FileSystem, after: FileSystem, out: Path)
  {
    before.dirs <= after.dirs &&
    (after.files == before.files || (out in after.files && after.files == before.files[out := after.files[out]]))
  }

  /** The cache-hit branch: write the cached markdown; no OCR, no `set`. */
  function FromCache(svc: Services, fs: FileSystem, cache: Option<Cache>, input: Path, out: Path,
                     row: CacheEntry, trace: seq<Effect>): (o: Outcome)
    requires |out.parts| > 0
    ensures o.cache == cache
    ensures o.effects == trace + [WriteOutput(out)]
    ensures OnlyOutputChanged(fs, o.fs, out)
    ensures o.result.success <==> CanSave(fs, out)
    ensures o.result.success ==>
              o.result == ProcessResult(true, CachedMessage(input), Some(ProcessedDocument(Name(input), row.markdownContent, out, true))) &&
              out in o.fs.files && o.fs.files[out] == svc.encode(row.markdownContent)
    ensures !o.result.success ==> o.result.doc.None? && Text.StartsWith(o.result.message, ErrorPrefix(input))
    ensures !o.result.success ==> o.fs.files == fs.files
  {
    var saved := SaveFile(fs, out, svc.encode(row.markdownContent));
    var effects := trace + [WriteOutput(out)];
    match saved.error
    case Some(e) => Outcome(saved.fs, cache, Failed(input, Os(e)), effects)
    case None =>
      var doc := ProcessedDocument(Name(input), row.markdownContent, out, true);
      Outcome(saved.fs, cache, ProcessResult(true, CachedMessage(input), Some(doc)), effects)
  }

  /** The OCR branch: run OCR, write the joined markdown, then store a new
      row under the file's hash when a cache is present. */
  function FromOcr(svc: Services, fs: FileSystem, cache: Option<Cache>, input: Path, out: Path,
                   h: string, now: string, trace: seq<Effect>): (o: Outcome)
    requires |out.parts| > 0 && IsFile(fs, input)
    ensures o.cache.Some? <==> cache.Some?
    ensures OnlyOutputChanged(fs, o.fs, out)
    ensures |o.effects| > |trace| && o.effects[..|trace|] == trace && o.effects[|trace|] == OcrRequest(input)
    ensures cache.None? ==> o.effects == trace + [OcrRequest(input)] || o.effects == trace + [OcrRequest(input), WriteOutput(out)]
    ensures !o.result.success ==> o.cache == cache && o.result.doc.None? && Text.StartsWith(o.result.message, ErrorPrefix(input))
    ensures !o.result.success ==> o.fs.files == fs.files
    ensures o.result.success <==> ProcessPdfFile(svc, fs, input).Success? && CanSave(fs, out)
    ensures o.result.success ==>
              var md := ExtractMarkdown(ProcessPdfFile(svc, fs, input).value);
              o.result == ProcessResult(true, SuccessMessage(input, out), Some(ProcessedDocument(Name(input), md, out, false))) &&
              out in o.fs.files && o.fs.files[out] == svc.encode(md) &&
              (cache.Some? ==> o.cache == Some(Set(cache.value, CacheEntry(h, Name(input), PathStr(input), |o.fs.files[input]|, md, now, now, OCR_MODEL))))
  {
    match ProcessPdfFile(svc, fs, input)
    case Failure(e) => Outcome(fs, cache, Failed(input, e), trace + [OcrRequest(input)])
    case Success(pages) =>
      var md := ExtractMarkdown(pages);
      var saved := SaveFile(fs, out, svc.encode(md));
      var effects := trace + [OcrRequest(input), WriteOutput(out)];
      match saved.error
      case Some(e) => Outcome(saved.fs, cache, Failed(input, Os(e)), effects)
      case None =>
        var doc := ProcessedDocument(Name(input), md, out, false);
        match cache
        case None => Outcome(saved.fs, None, ProcessResult(true, SuccessMessage(input, out), Some(doc)), effects)
        case Some(c) =>
          // `input_path.stat().st_size` is taken after the write
          var entry := CacheEntry(h, Name(input), PathStr(input), |saved.fs.files[input]|, md, now, now, OCR_MODEL);
          Outcome(saved.fs, Some(Set(c, entry)), ProcessResult(true, SuccessMessage(input, out), Some(doc)), effects + [CacheSet(h)])
  }

  /** Everything after the hash is known: consult the cache, then either
      write the cached markdown or run OCR. */
  function AfterHash(svc: Services, fs: FileSystem, cache: Option<Cache>, input: Path, out: Path,
                     h: string, now: string): (o: Outcome)
    requires |out.parts| > 0 && IsFile(fs, input) && h == svc.sha256(fs.files[input])
    ensures o.result.success <==> o.result.doc.Some?
    ensures |o.effects| > 0 && o.effects[0] == HashFile(input)
    ensures o.result.success ==>
              o.result.doc.value.outputPath == out && o.result.doc.value.filename == Name(input) &&
              out in o.fs.files && o.fs.files[out] == svc.encode(o.result.doc.value.content)
    ensures !o.result.success ==> Text.StartsWith(o.result.message, ErrorPrefix(input))
    // a failure writes nothing
    ensures !o.result.success ==> o.fs.files == fs.files
    ensures OnlyOutputChanged(fs, o.fs, out)
    ensures o.cache.Some? <==> cache.Some?
    ensures cache.None? ==> forall e :: e in o.effects ==> !e.CacheGet? && !e.CacheSet?
    // the cache left behind: a hit only stamps the row's access time, an OCR
    // success stores one row, and a failure without a hit changes nothing
    ensures CacheHits(svc, fs, cache, input) ==> o.cache == Some(Get(cache.value, h, now).0)
    ensures !CacheHits(svc, fs, cache, input) && o.result.success && cache.Some? ==>
              o.cache == Some(Set(cache.value, CacheEntry(h, Name(input), PathStr(input), |o.fs.files[input]|,
                                                          o.result.doc.value.content, now, now, OCR_MODEL)))
    ensures !CacheHits(svc, fs, cache, input) && !o.result.success ==> o.cache == cache
  {
    var trace := [HashFile(input)] + (if cache.Some? then [CacheGet(h)] else []);
    if CacheHits(svc, fs, cache, input) then
      // `cache.get` found the row and stamped its access time
      var (cache1, row) := Get(cache.value, h, now);
      FromCache(svc, fs, Some(cache1), input, out, row.value, trace)
    else
      // `cache.get`, if called, found nothing and changed nothing
      assert cache.Some? ==> Get(cache.value, h, now) == (cache.value, None);
      FromOcr(svc, fs, cache, input, out, h, now, trace)
  }

  /** A hit is served from the cache: no OCR request and no `set`; the
      written document is the cached content. */
  lemma AfterHashOnHit(svc: Services, fs: FileSystem, cache: Option<Cache>, input: Path, out: Path,
                       h: string, now: string)
    requires |out.parts| > 0 && IsFile(fs, input) && h == svc.sha256(fs.files[input])
    requires CacheHits(svc, fs, cache, input)
    ensures var o := AfterHash(svc, fs, cache, input, out, h, now);
            OcrRequest(input) !in o.effects && (forall e :: e in o.effects ==> !e.CacheSet?) &&
            o.cache == Some(Get(cache.value, h, now).0) &&
            (o.result.success <==> CanSave(fs, out)) &&
            (o.result.success ==>
               o.result.message == CachedMessage(input) && o.result.doc.value.fromCache &&
               o.result.doc.value.content == cache.value.entries[h].markdownContent)
  {
  }

  /** A miss goes to OCR; success means the joined pages were written and,
      with an enabled cache, stored under the hash. */
  lemma AfterHashOnMiss(svc: Services, fs: FileSystem, cache: Option<Cache>, input: Path, out: Path,
                        h: string, now: string)
    requires |out.parts| > 0 && IsFile(fs, input) && h == svc.sha256(fs.files[input])
    requires !CacheHits(svc, fs, cache, input)
    ensures var o := AfterHash(svc, fs, cache, input, out, h, now);
            OcrRequest(input) in o.effects &&
            (o.result.success <==> ProcessPdfFile(svc, fs, input).Success? && CanSave(fs, out)) &&
            (o.result.success ==>
               !o.result.doc.value.fromCache &&
               o.result.message == SuccessMessage(input, out) &&
               o.result.doc.value.content == ExtractMarkdown(ProcessPdfFile(svc, fs, input).value)) &&
            (o.result.success && cache.Some? && cache.value.enabled ==>
               o.cache.Some? && h in o.cache.value.entries &&
               o.cache.value.entries[h].markdownContent == o.result.doc.value.content &&
               o.cache.value.entries[h].mistralModel == OCR_MODEL)
  {
  }

  /** The cache stays valid through a conversion. */
  lemma AfterHashKeepsCacheValid(svc: Services, fs: FileSystem, cache: Option<Cache>, input: Path, out: Path,
                                 h: string, now: string)
    requires |out.parts| > 0 && IsFile(fs, input) && h == svc.sha256(fs.files[input])
    requires cache.Some? && Valid(cache.value)
    ensures Valid(AfterHash(svc, fs, cache, input, out, h, now).cache.value)
  {
  }

  /** `process_and_save_pdf(client, input_path, output_dir, force, cache)`.
      `now` is the timestamp the cache records. */
  function ProcessAndSavePdf(svc: Services, fs: FileSystem, cache: Option<Cache>, input: Path,
                             outputDir: Path, force: bool, now: string): (o: Outcome)
    // success holds exactly when a document is returned
    ensures o.result.success <==> o.result.doc.Some?
    // skip: nothing is hashed, looked up, recognised or written
    ensures Skips(fs, input, outputDir, force) ==>
              o.fs == fs && o.cache == cache && o.effects == [] &&
              o.result == ProcessResult(false, SkipMessage(OutputPath(outputDir, input)), None)
    ensures !Skips(fs, input, outputDir, force) ==> |o.effects| > 0 && o.effects[0] == HashFile(input)
    // cache hit: no OCR request and no `set`
    ensures !Skips(fs, input, outputDir, force) && CacheHits(svc, fs, cache, input) ==>
              OcrRequest(input) !in o.effects && (forall e :: e in o.effects ==> !e.CacheSet?) &&
              (o.result.success <==> CanSave(fs, OutputPath(outputDir, input)))
    ensures !Skips(fs, input, outputDir, force) && CacheHits(svc, fs, cache, input) && o.result.success ==>
              o.result.message == CachedMessage(input) && o.result.doc.value.fromCache &&
              o.result.doc.value.content == cache.value.entries[svc.sha256(fs.files[input])].markdownContent
    // no hit: OCR is asked, and success means its joined pages were saved
    ensures !Skips(fs, input, outputDir, force) && IsFile(fs, input) && !CacheHits(svc, fs, cache, input) ==>
              OcrRequest(input) in o.effects &&
              (o.result.success <==> ProcessPdfFile(svc, fs, input).Success? && CanSave(fs, OutputPath(outputDir, input)))
    ensures o.result.success && !o.result.doc.value.fromCache ==>
              IsFile(fs, input) && ProcessPdfFile(svc, fs, input).Success? &&
              o.result.message == SuccessMessage(input, OutputPath(outputDir, input)) &&
              o.result.doc.value.content == ExtractMarkdown(ProcessPdfFile(svc, fs, input).value)
    // after an OCR success an enabled cache holds the new content under the file's hash
    ensures o.result.success && !o.result.doc.value.fromCache && cache.Some? && cache.value.enabled ==>
              IsFile(fs, input) && o.cache.Some? &&
              var h := svc.sha256(fs.files[input]);
              h in o.cache.value.entries &&
              o.cache.value.entries[h].markdownContent == o.result.doc.value.content &&
              o.cache.value.entries[h].mistralModel == OCR_MODEL
    // what a success leaves on disk
    ensures o.result.success ==>
              var out := OutputPath(outputDir, input);
              o.result.doc.value.outputPath == out && o.result.doc.value.filename == Name(input) &&
              out in o.fs.files && o.fs.files[out] == svc.encode(o.result.doc.value.content)
    // a document comes from the cache only on a hit
    ensures o.result.success && o.result.doc.value.fromCache ==> CacheHits(svc, fs, cache, input)
    // every other failure is an error result
    ensures !o.result.success && !Skips(fs, input, outputDir, force) ==> Text.StartsWith(o.result.message, ErrorPrefix(input))
    // a failure leaves every file as it was, so no stray output turns the next run into a skip
    ensures !o.result.success ==> o.fs.files == fs.files
    // a file that cannot be hashed is never sent to OCR
    ensures !Skips(fs, input, outputDir, force) && PdfHash(svc.sha256, fs, input).Failure? ==> o.effects == [HashFile(input)]
    ensures OnlyOutputChanged(fs, o.fs, OutputPath(outputDir, input))
    ensures o.cache.Some? <==> cache.Some?
    ensures cache.None? ==> forall e :: e in o.effects ==> !e.CacheGet? && !e.CacheSet?
    // the cache left behind: a hit only stamps the row's access time, an OCR
    // success stores one row, and a failure without a hit changes nothing
    ensures !Skips(fs, input, outputDir, force) && CacheHits(svc, fs, cache, input) ==>
              o.cache == Some(Get(cache.value, svc.sha256(fs.files[input]), now).0)
    ensures !Skips(fs, input, outputDir, force) && IsFile(fs, input) && !CacheHits(svc, fs, cache, input) &&
            o.result.success && cache.Some? ==>
              o.cache == Some(Set(cache.value, CacheEntry(svc.sha256(fs.files[input]), Name(input), PathStr(input),
                                                          |o.fs.files[input]|, o.result.doc.value.content, now, now, OCR_MODEL)))
    ensures !o.result.success && !CacheHits(svc, fs, cache, input) ==> o.cache == cache
  {
    var out := OutputPath(outputDir, input);
    if Exists(fs, out) && !force then
      Outcome(fs, cache, ProcessResult(false, SkipMessage(out), None), [])
    else
      match PdfHash(svc.sha256, fs, input)
      case Failure(e) => Outcome(fs, cache, Failed(input, Os(e)), [HashFile(input)])
      case Success(h) =>
        if CacheHits(svc, fs, cache, input) then
          AfterHashOnHit(svc, fs, cache, input, out, h, now);
          AfterHash(svc, fs, cache, input, out, h, now)
        else
          AfterHashOnMiss(svc, fs, cache, input, out, h, now);
          AfterHash(svc, fs, cache, input, out, h, now)
  }

  /** A conversion keeps the cache keyed by hash, and keeps a disabled
      cache empty. */
  lemma ProcessAndSavePdfKeepsCacheValid(svc: Services, fs: FileSystem, cache: Option<Cache>, input: Path,
                                         outputDir: Path, force: bool, now: string)
    requires cache.Some? && Valid(cache.value)
    ensures Valid(ProcessAndSavePdf(svc, fs, cache, input, outputDir, force, now).cache.value)
  {
    var out := OutputPath(outputDir, input);
    if !(Exists(fs, out) && !force) && IsFile(fs, input) {
      AfterHashKeepsCacheValid(svc, fs, cache, input, out, svc.sha256(fs.files[input]), now);
    }
  }

  /** The heading-plus-content block one document contributes. */
  function Section(d: ProcessedDocument): string
  {
    "# " + d.filename + "\n\n" + d.content
  }

  function Sections(docs: seq<ProcessedDocument>): (r: seq<string>)
    ensures |r| == |docs| && forall i :: 0 <= i < |docs| ==> r[i] == Section(docs[i])
  {
    seq(|docs|, i requires 0 <= i < |docs| => Section(docs[i]))
  }

  /** `format_documents_for_clipboard`: nothing, one document verbatim, or a
      headed section per document separated by horizontal rules. */
  function FormatDocumentsForClipboard(docs: seq<ProcessedDocument>): (r: string)
    ensures |docs| == 0 ==> r == ""
    ensures |docs| == 1 ==> r == docs[0].content
    ensures |docs| >= 2 ==> Text.StartsWith(r, Section(docs[0]) + DOCUMENT_SEPARATOR)
  {
    if |docs| == 0 then ""
    else if |docs| == 1 then docs[0].content
    else
      Text.JoinPlacesParts(Sections(docs), DOCUMENT_SEPARATOR, 0);
      Text.Join(Sections(docs), DOCUMENT_SEPARATOR)
  }

  /** With two or more documents, document `i`'s section appears verbatim at
      its place in input order, followed by a rule unless it is the last. */
  lemma {:induction false} ClipboardKeepsDocumentOrder(docs: seq<ProcessedDocument>, i: nat)
    requires 2 <= |docs| && i < |docs|
    ensures var text := FormatDocumentsForClipboard(docs);
            var at := Text.Offset(Sections(docs), DOCUMENT_SEPARATOR, i);
            at + |Section(docs[i])| <= |text| && text[at..at + |Section(docs[i])|] == Section(docs[i])
    ensures var text := FormatDocumentsForClipboard(docs);
            var end := Text.Offset(Sections(docs), DOCUMENT_SEPARATOR, i) + |Section(docs[i])|;
            i + 1 < |docs| ==> end + |DOCUMENT_SEPARATOR| <= |text| && text[end..end + |DOCUMENT_SEPARATOR|] == DOCUMENT_SEPARATOR
  {
    var parts := Sections(docs);
    assert FormatDocumentsForClipboard(docs) == Text.Join(parts, DOCUMENT_SEPARATOR);
    assert parts[i] == Section(docs[i]);
    Text.JoinPlacesParts(parts, DOCUMENT_SEPARATOR, i);
  }

  /** Adding a document to a list of two or more appends a rule and its section. */
  lemma ClipboardAppend(docs: seq<ProcessedDocument>, d: ProcessedDocument)
    requires |docs| >= 2
    ensures FormatDocumentsForClipboard(docs + [d]) == FormatDocumentsForClipboard(docs) + DOCUMENT_SEPARATOR + Section(d)
  {
    assert Sections(docs + [d]) == Sections(docs) + [Section(d)];
    Text.JoinSnoc(Sections(docs), Section(d), DOCUMENT_SEPARATOR);
  }

  /** Two documents "x" (content "A") and "y" (content "B"). */
  lemma ClipboardTwoDocuments(out: Path)
    ensures FormatDocumentsForClipboard([ProcessedDocument("x", "A", out, false), ProcessedDocument("y", "B", out, false)])
            == "# x\n\nA\n\n---\n\n# y\n\nB"
  {
    var docs := [ProcessedDocument("x", "A", out, false), ProcessedDocument("y", "B", out, false)];
    var parts := Sections(docs);
    assert parts[0] == "# x\n\nA" && parts[1] == "# y\n\nB";
    assert parts[1..] == ["# y\n\nB"];
    assert Text.Join(parts, DOCUMENT_SEPARATOR) == parts[0] + DOCUMENT_SEPARATOR + parts[1];
  }

  /** What `pyperclip.copy` did with the text. */
  datatype CopyResult = Copied | CopyFailed(reason: string)

  /** `copy_to_clipboard`: the `(success, message)` pair. */
  function CopyToClipboard(copy: string -> CopyResult, content: string): (r: (bool, string))
    ensures r.0 <==> copy(content).Copied?
    ensures !r.0 ==> r.1 == "Failed to copy to clipboard: " + copy(content).reason
  {
    match copy(content)
    case Copied => (true, "Successfully copied to clipboard")
    case CopyFailed(e) => (false, "Failed to copy to clipboard: " + e)
  }

  /** What `handle_clipboard_operation` handed to the clipboard, if anything,
      and the status message it returned. */
  datatype ClipboardOutcome = ClipboardOutcome(copied: Option<string>, message: Option<string>)

  function CopiedMessage(count: nat): string
  {
    if count == 1 then "Copied converted document to clipboard"
    else "Copied " + Text.NatToString(count) + " converted documents to clipboard"
  }

  /** `handle_clipboard_operation(documents)`. */
  function HandleClipboardOperation(docs: seq<ProcessedDocument>, copy: string -> CopyResult): (r: ClipboardOutcome)
    ensures |docs| == 0 <==> r.copied.None?
    ensures |docs| == 0 ==> r.message.None?
    ensures |docs| > 0 ==> r.copied == Some(FormatDocumentsForClipboard(docs)) && r.message.Some?
    ensures |docs| > 0 && copy(FormatDocumentsForClipboard(docs)).Copied? ==> r.message == Some(CopiedMessage(|docs|))
    ensures |docs| > 0 && copy(FormatDocumentsForClipboard(docs)).CopyFailed? ==>
              r.message == Some("Warning: " + "Failed to copy to clipboard: " + copy(FormatDocumentsForClipboard(docs)).reason)
  {
    if |docs| == 0 then ClipboardOutcome(None, None)
    else
      var content := FormatDocumentsForClipboard(docs);
      var copied := CopyToClipboard(copy, content);
      if copied.0 then ClipboardOutcome(Some(content), Some(CopiedMessage(|docs|)))
      else
        assert "Warning: " + copied.1 == "Warning: " + "Failed to copy to clipboard: " + copy(content).reason;
        ClipboardOutcome(Some(content), Some("Warning: " + copied.1))
  }

  /** The caller colours the message by its "Warning:" prefix; that prefix
      appears exactly when the copy failed. */
  lemma WarningExactlyWhenCopyFails(docs: seq<ProcessedDocument>, copy: string -> CopyResult)
    requires |docs| > 0
    ensures var r := HandleClipboardOperation(docs, copy);
            Text.StartsWith(r.message.value, "Warning:") <==> copy(FormatDocumentsForClipboard(docs)).CopyFailed?
  {
    var r := HandleClipboardOperation(docs, copy);
    if copy(FormatDocumentsForClipboard(docs)).Copied? {
      assert r.message.value[0] == 'C';
    } else {
      assert r.message.value[..8] == "Warning:";
    }
  }

  /** The count in a multi-document message reads back as the number of
      documents copied. */
  lemma CopiedMessageNamesCount(count: nat)
    requires count >= 2
    ensures var m := CopiedMessage(count);
            var digits := m[7..|m| - 33];
            Text.AllDigits(digits) && Text.DecimalValue(digits) == count
  {
    var m := CopiedMessage(count);
    assert m[7..|m| - 33] == Text.NatToString(count);
    Text.DecimalRoundTrip(count);
  }
}
