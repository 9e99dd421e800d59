# mistral-ocr in Dafny

A model of the decision logic of mistral-ocr, a command-line tool that converts
PDF files to Markdown with Mistral's OCR service. The model covers:

- the local result cache (`Cache` in `src/mistral_ocr/cache_utils.py`), as a map
  from content hash to `CacheEntry` plus an `enabled` flag;
- `compute_pdf_hash`, which feeds 8192-byte chunks to an incremental SHA-256;
- the per-file conversion `process_and_save_pdf`. The packaged version in
  `src/mistral_ocr/ocr_utils.py` takes an optional cache and returns
  `(success, message, ProcessedDocument)`. The legacy version in `ocr_utils.py`
  has no cache and returns `(success, message)`;
- the string builders: the page join, the clipboard text and the clipboard
  status messages;
- both command lines (`src/mistral_ocr/__init__.py` and the legacy `cli.py`):
  PDF discovery, the output-directory default, the batch loop, summary
  counting, the early exits and the clipboard selection.

Collaborators become parameters:

- SHA-256 is a function from bytes to a hex string.
- Mistral's OCR service is a function from file name and bytes to the pages'
  markdown or an error text.
- `write_text`'s encodings are functions: UTF-8, which the packaged save asks
  for, from string to bytes; and the locale's codec, which the legacy save
  uses, from string to bytes or the text of a `UnicodeEncodeError`.
- The clipboard is a function that reports success or a failure reason.
- `datetime.now` is a timestamp argument.
- The filesystem is a value (`Files.FileSystem`: a set of directories and a map
  from file paths to bytes) that each operation takes and returns.

Every conversion, meaning the per-file `process_and_save_pdf` of both versions
and the batch loops, also returns the calls it made (`OcrUtils.Effect`: hash,
cache get, OCR request, write, cache set). Frame conditions are stated on that list:
a skip makes no call at all, and a cache hit makes no OCR request and no
`set`.

Modules follow the program's files:

| module | file | models |
|---|---|---|
| `Wrappers` | wrappers.dfy | `Option` and `Result` |
| `Text` | text.dfy | join, prefix/containment, ASCII lower-casing, decimal rendering, code-point order |
| `Paths` | paths.dfy | `pathlib` names, parents, stems and suffixes |
| `Files` | files.dfy | the filesystem, `mkdir(parents=True, exist_ok=True)`, `write_text` |
| `CacheUtils` | cache_utils.dfy | `src/mistral_ocr/cache_utils.py` |
| `OcrUtils` | ocr_utils.dfy | `src/mistral_ocr/ocr_utils.py` |
| `LegacyOcrUtils` | legacy_ocr_utils.dfy | `ocr_utils.py` |
| `Batches` | batches.dfy | the per-file loop shared by both command lines |
| `MistralOcr` | mistral_ocr.dfy | `src/mistral_ocr/__init__.py` |
| `LegacyCli` | legacy_cli.dfy | `cli.py` |

Points where the code's behaviour may surprise:

- Output paths are flattened: always `output_dir / (stem + ".md")`. Sub-directories
  of the input are not mirrored.
- There is no separate planner and no dry-run mode. The "already exists" check
  is made inside `process_and_save_pdf`, before the file is hashed.
- The directory search is the `*.pdf` glob, whose case sensitivity is the
  platform's. It is not a case-insensitive suffix test. Only a single input
  file gets the case-insensitive suffix test.
- Once the batch has run, the packaged `convert` returns normally, even when
  every file failed.

## Model

| member | source | states |
|---|---|---|
| Text.JoinLength | src/mistral_ocr/ocr_utils.py:125 | `sep.join(parts)` is as long as the parts plus one separator between each two neighbours, and empty for no parts |
| Text.JoinPlacesParts | src/mistral_ocr/ocr_utils.py:242 | in `sep.join(parts)` part i appears verbatim at its offset, followed by the separator unless it is the last |
| Text.JoinSnoc | src/mistral_ocr/ocr_utils.py:242 | joining one more part appends the separator and that part |
| Text.NatToString | src/mistral_ocr/ocr_utils.py:281 | the count is rendered as a non-empty run of decimal digits, with no leading zero, one digit exactly below ten |
| Text.DecimalRoundTrip | src/mistral_ocr/ocr_utils.py:281 | reading the rendered count back as a decimal gives the count |
| Text.NatToStringInjective | src/mistral_ocr/ocr_utils.py:281 | different counts are rendered differently |
| Text.LexLeReflexive | src/mistral_ocr/cache_utils.py:136 | the order `MIN`/`MAX` use on TEXT is reflexive |
| Text.LexLeTotal | src/mistral_ocr/cache_utils.py:136 | any two timestamps are comparable, so a minimum and a maximum exist |
| Text.LexLeTransitive | src/mistral_ocr/cache_utils.py:136 | the order is transitive, so a running minimum is below every entry seen |
| Text.LexLeAntisymmetric | src/mistral_ocr/cache_utils.py:136 | two timestamps each below the other are equal |
| Paths.Parent | src/mistral_ocr/__init__.py:126 | `input_path.parent` is one part shorter, and the file is the parent's child of the same name |
| Paths.ParentOfChild | src/mistral_ocr/ocr_utils.py:162 | the parent of `output_dir / name` is `output_dir` |
| Paths.Suffix | src/mistral_ocr/__init__.py:31 | `.suffix` is non-empty exactly when the name has a dot after its first character and does not end in a dot; it is then a dot and at least one non-dot character, ending the name |
| Paths.Stem | src/mistral_ocr/ocr_utils.py:162 | `.stem` followed by `.suffix` is the name again, and a non-empty name has a non-empty stem |
| Paths.Ancestors | src/mistral_ocr/ocr_utils.py:138 | the directories `mkdir(parents=True)` creates are exactly the proper prefixes of the path |
| Paths.ParentIsAncestor | src/mistral_ocr/ocr_utils.py:138 | the parent is among those prefixes |
| Files.ReadBytes | src/mistral_ocr/cache_utils.py:150-151 | opening for reading succeeds exactly on a file and yields its bytes; a directory is `IsADirectory`, a missing path `NoSuchFile` |
| Files.MakeDirs | src/mistral_ocr/__init__.py:177 | `mkdir(parents=True, exist_ok=True)` succeeds unless a file sits on the path; on success it adds the directory and all its ancestors and touches no file |
| Files.WriteFile | src/mistral_ocr/ocr_utils.py:139 | `write_text` succeeds exactly when the parent directory exists and the target is not a directory, and changes only the target's bytes |
| Files.SaveFile | src/mistral_ocr/ocr_utils.py:128-139 | saving succeeds exactly when no file blocks the parent and the target is not a directory; it changes only the target file and never removes a directory |
| CacheUtils.Init | src/mistral_ocr/cache_utils.py:34-45 | the cache is enabled exactly when asked for and its directory could be created, and is then a well-keyed map |
| CacheUtils.Get | src/mistral_ocr/cache_utils.py:79-95 | disabled: `None` and no change; absent hash: `None` and no change; present: the row as it was before, with only that row's `last_accessed` set to now |
| CacheUtils.Set | src/mistral_ocr/cache_utils.py:97-118 | insert-or-replace: the key set gains the hash, the hash holds the entry, other rows are unchanged, a disabled cache is unchanged |
| CacheUtils.Clear | src/mistral_ocr/cache_utils.py:120-125 | an enabled cache becomes empty; a disabled one is unchanged |
| CacheUtils.SetThenGet | src/mistral_ocr/cache_utils.py:79-118 | after `set(e)`, `get(e.pdf_hash)` returns `e`, so its markdown content |
| CacheUtils.SetTwiceReplaces | src/mistral_ocr/cache_utils.py:101-118 | two `set`s with one hash leave exactly one row for it, holding the second entry |
| CacheUtils.SqlLength | src/mistral_ocr/cache_utils.py:132 | SQLite's `length()` of a text counts the characters before its first NUL, all of them when there is none |
| CacheUtils.Stats | src/mistral_ocr/cache_utils.py:127-144 | disabled: `{}`; enabled: the key count, the summed content length as `length()` counts it, and the least and greatest `created_at`, or `""` when empty |
| CacheUtils.ClearThenStats | tests/test_cache.py:34-49 | after `clear()`, `stats()` reports 0 entries, size 0 and empty timestamps |
| CacheUtils.PdfHash | src/mistral_ocr/cache_utils.py:147-153 | hashing succeeds exactly on a file; otherwise the error is the one opening it raises |
| CacheUtils.HashDependsOnlyOnContent | tests/test_cache.py:8-13 | two files with the same bytes get the same hash, so repeated calls agree |
| CacheUtils.ComputePdfHash | src/mistral_ocr/cache_utils.py:147-153 | the chunks fed to the hasher are non-empty and at most 8192 bytes, all full but the last, and concatenate to the file's bytes; the result agrees with `PdfHash` |
| OcrUtils.ResolveApiKey | src/mistral_ocr/ocr_utils.py:26-41 | a non-empty argument wins, else a non-empty `MISTRAL_API_KEY`; with neither there is no client |
| OcrUtils.ExtractMarkdown | src/mistral_ocr/ocr_utils.py:116-125 | no pages give `""`, one page gives its markdown verbatim |
| OcrUtils.ExtractMarkdownKeepsPageOrder | src/mistral_ocr/ocr_utils.py:125 | page i appears verbatim at its offset and is followed by `"\n\n"` unless it is last |
| OcrUtils.ExtractMarkdownLength | src/mistral_ocr/ocr_utils.py:125 | the joined text is the pages plus one two-character separator between neighbours |
| OcrUtils.OutputPath | src/mistral_ocr/ocr_utils.py:162 | the output sits directly in `output_dir` and is named `stem + ".md"` |
| OcrUtils.OutputPathFlattens | tests/test_e2e.py:100 | two inputs with the same name in different directories share one output path |
| OcrUtils.ProcessPdfFile | src/mistral_ocr/ocr_utils.py:86-113 | a missing path raises `FileNotFoundError`; a directory fails to open; a file's bytes and name go to the OCR service, whose pages or error are returned |
| OcrUtils.Failed | src/mistral_ocr/ocr_utils.py:218-219 | an exception becomes a failure with no document and an `Error processing <input>: ` message |
| OcrUtils.FromCache | src/mistral_ocr/ocr_utils.py:174-186 | a hit writes the cached markdown, and succeeds exactly when it can; success is `(True, "<input> (cached)", doc)` with `from_cache` and the cached content |
| OcrUtils.FromOcr | src/mistral_ocr/ocr_utils.py:188-216 | an OCR request is made; success exactly when OCR succeeds and the file saves; the joined pages are written, and a cache then holds them under the hash with model `mistral-ocr-latest` |
| OcrUtils.AfterHash | src/mistral_ocr/ocr_utils.py:171-219 | after hashing, success goes with a document that was written to the output path; a failure carries the error prefix; only the output file changes; a hit leaves the cache as `get` stamped it, an OCR success leaves it as `set` of the new row, a failure without a hit leaves it unchanged |
| OcrUtils.AfterHashOnHit | src/mistral_ocr/ocr_utils.py:172-186 | on a hit there is no OCR request and no `set`, and the cache is the one `get` left, with only the row's access time stamped; a success is the cached message and content with `from_cache` |
| OcrUtils.AfterHashOnMiss | src/mistral_ocr/ocr_utils.py:188-216 | on a miss OCR is asked; a success is the OCR content, not from cache, and an enabled cache then holds it under the hash |
| OcrUtils.AfterHashKeepsCacheValid | src/mistral_ocr/ocr_utils.py:199-210 | the cache stays keyed by `pdf_hash` after the conversion stores its entry |
| OcrUtils.ProcessAndSavePdf | src/mistral_ocr/ocr_utils.py:142-219 | success iff a document; skip makes no hash, lookup, OCR or write; a hit makes no OCR and no `set`, and leaves the cache as `get` stamped it; a miss is OCR'd, written and cached, the cache becoming `set` of exactly the new row; a failure without a hit leaves the cache unchanged; every other failure carries the error prefix and writes nothing; a file that cannot be hashed is not sent to OCR; only the output file changes |
| OcrUtils.ProcessAndSavePdfKeepsCacheValid | src/mistral_ocr/ocr_utils.py:142-219 | a conversion keeps a well-keyed cache well keyed |
| OcrUtils.FormatDocumentsForClipboard | src/mistral_ocr/ocr_utils.py:222-242 | no documents give `""`, one gives its content verbatim, several start with the first section and a `---` separator |
| OcrUtils.ClipboardKeepsDocumentOrder | src/mistral_ocr/ocr_utils.py:238-242 | for several documents, section i appears at its offset and is followed by `"\n\n---\n\n"` unless it is last |
| OcrUtils.ClipboardAppend | src/mistral_ocr/ocr_utils.py:238-242 | one more document appends a separator and its section |
| OcrUtils.ClipboardTwoDocuments | src/mistral_ocr/ocr_utils.py:238-242 | documents `x`/`A` and `y`/`B` format as `# x\n\nA\n\n---\n\n# y\n\nB` |
| OcrUtils.CopyToClipboard | src/mistral_ocr/ocr_utils.py:245-258 | copy success is reported as such; a failure carries `Failed to copy to clipboard: ` and the reason |
| OcrUtils.HandleClipboardOperation | src/mistral_ocr/ocr_utils.py:261-283 | no documents: no copy and no message; otherwise the formatted text is copied, and the message is the count message or `Warning: ` plus the failure |
| OcrUtils.WarningExactlyWhenCopyFails | src/mistral_ocr/ocr_utils.py:276-283 | the message starts with `Warning:` exactly when the copy failed |
| OcrUtils.CopiedMessageNamesCount | src/mistral_ocr/ocr_utils.py:280-281 | for two or more documents the message holds the count as decimal digits |
| LegacyOcrUtils.InitializeClient | ocr_utils.py:9-16 | the argument wins, else the environment; with neither, `ValueError` with its message |
| LegacyOcrUtils.InitializeClientAgreesWithResolveApiKey | ocr_utils.py:9-16 | the legacy and packaged key rules pick the same key and fail in the same cases |
| LegacyOcrUtils.SaveMarkdown | ocr_utils.py:69-72 | the save succeeds exactly when the file can be created and the locale can encode the text; an encoding failure leaves an empty file and the encoder's error |
| LegacyOcrUtils.ProcessAndSavePdf | ocr_utils.py:75-101 | skip makes no call and no write; otherwise OCR first; success exactly when OCR succeeds, the file saves and the locale can encode the pages joined by `"\n\n"`, which are then written after creating the parents; an encoding failure leaves an empty output file, and every other failure writes nothing; failures carry the error prefix |
| LegacyOcrUtils.LegacyAgreesWithPackagedWithoutCache | ocr_utils.py:75-101 | for an existing input, under a UTF-8 locale and without a cache, the legacy and packaged conversions agree on success, message and files; the packaged one only hashes first |
| Batches.RunSteps | src/mistral_ocr/__init__.py:72-80 | a loop over the files gives one result per file; none for no files |
| Batches.RunStepsSnoc | src/mistral_ocr/__init__.py:72-80 | one more file appends exactly that file's result, computed on the filesystem the earlier files left |
| Batches.RunStepsResults | src/mistral_ocr/__init__.py:72-80 | result i belongs to file i |
| Batches.RunStepsEffects | src/mistral_ocr/__init__.py:72-80 | a call no step makes is never made by the loop |
| Batches.RunEach | src/mistral_ocr/__init__.py:72-80 | the appending loop computes the same results, files and calls as the fold |
| MistralOcr.Glob | src/mistral_ocr/__init__.py:37-38 | among the walked paths, the glob yields exactly the existing ones under the directory whose name matches the pattern |
| MistralOcr.GlobOne | src/mistral_ocr/__init__.py:37-38 | a single walked path is yielded exactly when it exists under the directory and matches |
| MistralOcr.GlobAppend | src/mistral_ocr/__init__.py:37-38 | the glob of two walks in sequence is the first's matches followed by the second's, so matches keep walk order |
| MistralOcr.GlobNoDuplicates | src/mistral_ocr/__init__.py:38 | a walk that visits each path once yields each match once |
| MistralOcr.FindPdfFiles | src/mistral_ocr/__init__.py:21-40 | a file gives `[file]` iff its lower-cased suffix is `.pdf`, else `[]`; a directory gives the glob itself, in walk order; a missing path gives `[]` |
| MistralOcr.SuffixTestIgnoresCase | tests/test_file_discovery.py:22-34 | `doc.pdf` and `DOC.PDF` are PDFs, `not_pdf.txt` is not |
| MistralOcr.DirectorySearchFindsUpperCaseSuffix | tests/test_file_discovery.py:37-47 | a tree with `a.pdf`, `sub/b.PDF` and `c.txt` yields `a.pdf` and `sub/b.PDF` when the pattern accepts `b.PDF` |
| MistralOcr.DetermineOutputDirectory | src/mistral_ocr/__init__.py:109-126 | the explicit directory, else the input directory, else the input file's parent |
| MistralOcr.DefaultOutputLocation | tests/test_e2e.py:100-103 | without `--output-dir`, a file's Markdown lands beside it, and every PDF found under a directory has its Markdown directly in that directory |
| MistralOcr.ConvertWithoutCache | src/mistral_ocr/__init__.py:77 | the command's per-file call passes no cache: success iff a document, never from cache, named after the input, its content written to its flattened output path; no other file changes |
| MistralOcr.RunBatch | src/mistral_ocr/__init__.py:62-80 | one result per input, in input order, each the no-cache conversion of its file; no cache is ever touched |
| MistralOcr.ProcessPdfFiles | src/mistral_ocr/__init__.py:43-80 | no files give `[]`; otherwise the loop returns exactly the batch's results and filesystem |
| MistralOcr.FailedMessages | src/mistral_ocr/__init__.py:101-106 | one detail per failed result, each the message of a failed result |
| MistralOcr.FailedMessagesAppend | src/mistral_ocr/__init__.py:101-106 | the details of two result lists are the details of the first, then of the second, so the listing keeps result order |
| MistralOcr.CountSuccesses | src/mistral_ocr/__init__.py:91 | the success count never exceeds the number of results |
| MistralOcr.CountSuccessesAppend | src/mistral_ocr/__init__.py:91 | the successes of two result lists add, so each success is counted once |
| MistralOcr.PrintProcessingSummary | src/mistral_ocr/__init__.py:83-106 | success and fail counts add up to the results; no failures iff all succeeded; the details are the failed results in order, marked as skips exactly when they say `Skipping` or `already exists` |
| MistralOcr.AllSucceedIffNoFailures | src/mistral_ocr/__init__.py:91-97 | the success count equals the result count exactly when every result succeeded |
| MistralOcr.SkipMessageIsSkipNotice | src/mistral_ocr/__init__.py:103 | the "already exists" message is classified as a skip |
| MistralOcr.SkipResultIsSkipNotice | src/mistral_ocr/__init__.py:101-106 | every skip the conversion reports is shown as a skip, not an error |
| MistralOcr.SuccessfulDocuments | src/mistral_ocr/__init__.py:209-212 | the clipboard gets exactly the documents of successful results |
| MistralOcr.SuccessfulDocumentsOne | src/mistral_ocr/__init__.py:209-212 | one result contributes its document exactly when it succeeded with one |
| MistralOcr.SuccessfulDocumentsAppend | src/mistral_ocr/__init__.py:209-212 | the documents of two result lists are the first's followed by the second's, so the selection keeps result order |
| MistralOcr.SuccessfulDocumentsMatchCount | src/mistral_ocr/__init__.py:209-212 | when success and a document go together, it gets one document per success counted |
| MistralOcr.Convert | src/mistral_ocr/__init__.py:129-222 | a missing input or a missing key exits 1, the input checked first; an output directory that cannot be created exits 1; otherwise no PDF found returns early, and else the results and files are those of the batch over the files found, with their summary and clipboard hand-off |
| LegacyCli.ConvertEach | cli.py:34-45 | one legacy result per matched file, in order: a success names both paths, a failure is a skip notice or an error; no hashing or cache |
| LegacyCli.ProcessPath | cli.py:12-47 | a missing key raises; a non-PDF file gives `[]`; a PDF file gives its one result; a directory gives one result per glob match; the result does not depend on the progress bar |
| LegacyCli.Summarize | cli.py:70-84 | success and fail counts add up to the results; no failures iff all succeeded; each listed failure is the message of a failed result |
| LegacyCli.SummarizeAppend | cli.py:80-84 | the failures are listed in result order and the success counts add |
| LegacyCli.Convert | cli.py:50-88 | a missing input exits 1 before anything runs; a missing key exits 1; otherwise the results are those of the default `output` or given directory, with their summary |

## Left out

- SQLite itself is not modelled: connections, WAL mode, the schema, indices,
  timeouts and concurrent processes. Only the map semantics of a single process
  is. `Cache.clear` is modelled as emptying the map, not as deleting and
  recreating the database file.
- CacheUtils.Init: the directory creation is a boolean argument, and the
  platform cache directory is not modelled.
- Calls to Mistral are not modelled: the upload, the signed URL, `process_pdf_url`
  and the `Mistral(...)` constructor. OCR is a single function from a file's name
  and bytes to its pages or an error.
- The Streamlit apps (`app.py`, `src/mistral_ocr/app.py`) are a user interface
  around the same calls.
- Console output is not modelled: `rich` printing, colours and `tqdm` progress
  bars. The summaries are returned as values.
- Files.Describe: the text of an `OSError` is an approximation of CPython's
  rendering, because the exact text depends on the platform's errno strings.
- Strings are sequences of Unicode scalar values, so UTF-8 encoding cannot fail.
  A Python string holding a lone surrogate, on which the packaged save would
  raise, is not modelled.
- OcrUtils.ProcessAndSavePdf: one timestamp stands for the clock readings of a
  run, because the clock is not part of the model. That is the one reading on a
  hit (`get` stamping `last_accessed`), or the two on a miss (`created_at` and
  `last_accessed` of the new row). The model stamps both fields of a new row
  with the same instant; the source's two readings may differ.
- Text.LowerAscii: `.lower()` is modelled for ASCII only. Non-ASCII suffixes
  cannot lower-case to `.pdf`, so discovery is unaffected.
- Paths.Suffix: the suffix rule is that of Python 3.12 `pathlib`: the last dot,
  not at the start or the end of the name.
- MistralOcr.Glob: the platform's directory walk and its case sensitivity are
  parameters, the walk order and the pattern test.
- MistralOcr.Convert: the code raised for "no PDF files found" is not asserted.
  `typer.Exit(code=0)` is raised inside a `try` whose `except Exception` turns it
  into exit 1 only if `typer.Exit` derives from `Exception`, which the source
  does not show. The final `except Exception` is otherwise unreachable in the
  model, because every modelled step returns its errors.
- MistralOcr.ProcessPdfFiles: `show_progress` is not a parameter, because it
  only decides whether `tqdm` wraps the loop.
- The planner named in the tests (`create_conversion_plan`) is not part of this
  model. Neither are the keyword arguments the tests pass to
  `process_and_save_pdf` that the function does not take, nor a
  directory-mirroring output rule.
- Typer's argument parsing is not modelled: option names and the
  `MISTRAL_API_KEY` fallback of `--api-key`. The environment value is an
  argument, and `.env` loading is outside the model.
