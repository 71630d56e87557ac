# Document summariser: a Dafny model of its core

This project models the core logic of a Streamlit document summariser. The
summariser extracts the text of an uploaded PDF, DOCX, TXT or Markdown file
and summarises it with a chat model. A short text gets one model call. A long
one is split into chunks, each chunk is summarised, and the surviving chunk
summaries are synthesised into one final summary.

The model has six modules, one file each:

- `Maybe` (maybe.dfy): the `Option` type.
- `Strings` (strings.dfy): the Python string operations the code relies on:
  `join`, `lower`/`upper`, `rsplit('.', 1)`, `split('.')[-1]`, `replace`, and `+=` in a loop.
- `LlmHandler` (llm_handler.dfy): `process_document`, `summarize_text_chunk` and
  `create_final_summary` of src/llm_handler.py. The chat model and `chunk_text`
  are oracles passed in as functions.
  - A run returns its result together with the trace of handler calls it made
    (`chunk_text`, `summarize_text_chunk`, `create_final_summary`) and the
    progress values it set.
  - So the number of calls, their order, their arguments and the progress bar
    can all be stated about it.
- `DocumentProcessor` (document_processor.dfy): src/document_processor.py.
  - The file type taken from the name, the dispatch to an extractor, and
    `is_supported_file_type`.
  - The PDF and DOCX text assembly, with loop-based methods proved equal to
    reference definitions.
  - The TXT/Markdown encoding fallback and `get_document_info`.
  - The parsing libraries are replaced by what they read: the pages,
    paragraphs, table cells and properties, with `None` where they raise.
    Byte decoding and Markdown rendering are oracles.
- `UiComponents` (ui_components.dfy): the caller side in src/ui_components.py.
  - The sidebar's defaults and slider ranges.
  - The guards of `render_main_content` and `process_document_and_generate_summary`.
  - The download file name and the reading time.
  - Widgets become inputs: sidebar shown, uploaded file, slider positions,
    button pressed, API key valid, model or `None`.
- `LegacyApp` (legacy_app.dfy): test_app.py, the older single-file version.
  - Fixed chunking at 4000/500 whatever its sliders say.
  - No chunk numbers.
  - The `.pdf` → `.txt` download name.
  - Its page flow.

Python truthiness of a summary or an extracted text is `Usable`: neither
`None` nor the empty string. The legacy `summarize_text_chunk` and
`create_final_summary` (test_app.py:94-146) catch exceptions exactly as the
current ones do, but ask about "this research paper" where the current ones
(src/llm_handler.py:43, 79) ask about "this document". Both versions share
`LlmHandler.SummarizeTextChunk` and `LlmHandler.CreateFinalSummary`, whose
prompts carry a `Version` tag (`Current` or `Legacy`): to the model the two
wordings are different questions, and it may answer them differently.

## Model

| member | source | states |
|---|---|---|
| LlmHandler.SummarizeTextChunk | src/llm_handler.py:58-69 | the result is `None` exactly when the model's invoke raises on the version's chunk prompt; otherwise it is the reply's content, whatever the chunk number |
| LlmHandler.CreateFinalSummary | src/llm_handler.py:94-105 | one synthesis prompt of the given version on the joined summaries; `None` exactly when that invoke raises, otherwise the reply's content |
| LlmHandler.JoinSections | src/llm_handler.py:75 | the joined text followed by one more separator is every summary followed by the separator; its length is the summaries' total plus one separator fewer than summaries |
| Strings.JoinLength | src/llm_handler.py:75 | `sep.join(parts)` is as long as the parts together plus one separator fewer than there are parts |
| Strings.JoinThenSeparatorIsTerminated | src/llm_handler.py:75 | joining with a separator and appending one more separator gives every part followed by the separator |
| LlmHandler.SurvivorsEmptyIff | src/llm_handler.py:143-147 | no chunk summary survives exactly when every chunk's outcome is `None` or empty |
| LlmHandler.SurvivorsKeepChunkOrder | src/llm_handler.py:136-147 | the survivors are picked out of the chunk outcomes by a strictly increasing list of chunk positions; each picked outcome is usable, and no usable outcome is missed |
| LlmHandler.SummarizeChunks | src/llm_handler.py:136-150 | after `k` rounds: one summarise call per chunk in chunk order, tagged with the 1-based chunk number (or untagged in the legacy loop); one progress value per chunk; survivors equal to the reference filter over the first `k` outcomes |
| LlmHandler.ChunkProgressBounds | src/llm_handler.py:150 | `25 + (i+1)*50 // n` lies in [25, 75] and is exactly 75 at the last chunk |
| LlmHandler.ChunkProgressMonotone | src/llm_handler.py:150 | the per-chunk progress value never decreases from one chunk to the next |
| LlmHandler.ProgressWellFormed | src/llm_handler.py:149-166 | per-chunk values followed by nothing or by 90, 100 form a nondecreasing sequence within [25, 100] |
| LlmHandler.SplitIsFirstCallOnly | src/llm_handler.py:131-132 | in a multi-chunk run the split is the first call, with the caller's chunk size and overlap, and no later call is a split |
| LlmHandler.PassThenFinishInOrder | src/llm_handler.py:130-169 | split call, then one summarise call per chunk in order, then the synthesis call over the survivors exactly when some survived, with its result as the run's result; `None` otherwise |
| LlmHandler.MultiChunkOrdered | src/llm_handler.py:130-172 | the long path's calls and result are in the order above for the chunks the splitter returns |
| LlmHandler.PassThenFinishCounts | src/llm_handler.py:130-172 | one split call, one summarise call per chunk, and one synthesis call exactly when some summary survived |
| LlmHandler.MultiChunkCountOf | src/llm_handler.py:130-172 | the long path makes one split call, one summarise call per chunk, and at most one synthesis call, made exactly when some summary survived |
| LlmHandler.MultiChunkProgress | src/llm_handler.py:149-166 | the long path's progress is one value per chunk, then 90 and 100 exactly when some summary survived |
| LlmHandler.ProcessDocument | src/llm_handler.py:107-172 | short text (≤ 15000): exactly one summarise call on the whole text, no split, its result returned unchanged (`None` included), progress 75, 100; long text: the multi-chunk call order and counts above, with the caller's chunk size and overlap; every progress sequence is nondecreasing and within [25, 100] |
| LlmHandler.AllChunksFailNoSynthesis | src/llm_handler.py:155-172 | when every chunk summary is `None` or empty, a long text yields `None` and no synthesis call is made |
| LlmHandler.SomeChunkSucceedsSynthesis | src/llm_handler.py:155-169 | when some chunk summary is usable, exactly one synthesis call is made, last, on the survivors, and its result is returned |
| Strings.Lower | src/document_processor.py:9 | same length, each character lower-cased |
| DocumentProcessor.FileType | src/document_processor.py:9 | the file type holds no dot |
| DocumentProcessor.FileTypeIsLastExtension | src/document_processor.py:9 | the file type is the lower-cased end of the name, preceded by a dot unless it is the whole name; a name without a dot gives the whole lower-cased name |
| DocumentProcessor.FileTypeOfDotless | src/document_processor.py:9 | a name with no dot has its whole lower-cased self as file type |
| DocumentProcessor.FileTypeAfterLastDot | src/document_processor.py:9 | a name whose lower-cased form has its last dot at `i` has a dot at `i`, and the lower-cased text after it is the file type |
| DocumentProcessor.IsSupportedFileType | src/document_processor.py:162-166 | a name is supported exactly when the dispatch chooses an extractor for it |
| DocumentProcessor.ExtractText | src/document_processor.py:7-27 | unsupported types give `None`; `pdf`, `doc`/`docx`, `txt` and `md`/`markdown` give the PDF text, DOCX text, text decoded by the intended fallback loop and rendered Markdown respectively, with every failure as `None` |
| DocumentProcessor.ExtractTextAsWritten | src/document_processor.py:7-27 | the extraction with the encoding loops as written: the same as the intended one for every type other than TXT and Markdown and whenever UTF-8 decodes the content; a TXT file UTF-8 rejects gets the fallback encodings tried on nothing |
| DocumentProcessor.CafeUploadLosesContent | src/document_processor.py:83-95 | a TXT upload holding "café" in Latin-1 is extracted as the empty text as written, and as the word by the intended loop |
| Strings.ConcatPlacesParts | src/document_processor.py:36-38 | each part appears unchanged in the concatenation right after the parts before it |
| DocumentProcessor.ExtractPdfText | src/document_processor.py:29-45 | the page loop yields `None` when the reader or any page raises, otherwise the page texts concatenated in page order with no separator |
| DocumentProcessor.PdfPagesInOrder | test_app.py:69-79 | page `k`'s text sits in the extracted text right after the texts of the pages before it |
| DocumentProcessor.ExtractDocxText | src/document_processor.py:47-76 | the DOCX text is `None` when the reader fails; otherwise every paragraph and then every table row, each followed by a line break |
| DocumentProcessor.AppendParagraphs | src/document_processor.py:55-56 | the paragraph loop appends each paragraph followed by a line break, in order |
| DocumentProcessor.AppendTables | src/document_processor.py:62-67 | the table loop appends the rows of each table, table by table |
| DocumentProcessor.AppendTable | src/document_processor.py:64-67 | one table appends each row's line followed by a line break, in row order |
| DocumentProcessor.AppendRow | src/document_processor.py:65-67 | one row appends each cell followed by a space, then a line break |
| DocumentProcessor.DocxLines | src/document_processor.py:55-67 | when no paragraph or cell holds a line break, splitting the DOCX text on line breaks gives back the paragraphs, then one line per table row, then an empty piece |
| DocumentProcessor.RowCells | src/document_processor.py:65-66 | when no cell holds a space, splitting a row line on spaces gives back the cells and an empty piece |
| DocumentProcessor.DecodeFirstPicksFirstSuccess | src/document_processor.py:83-95 | the intended encoding loop fails exactly when every encoding fails; otherwise it returns the text of the first encoding that succeeds |
| DocumentProcessor.DecodeAsWritten | src/document_processor.py:85-92 | the loop as written: once the first encoding fails, it behaves as the intended loop run on the empty content |
| DocumentProcessor.FallbackDecodesEmptyStream | src/document_processor.py:85-92 | when UTF-8 fails, the TXT loop as written returns the empty text whatever the file holds |
| DocumentProcessor.DecodersAgreeOnUtf8 | src/document_processor.py:105-109 | when UTF-8 succeeds, the written and intended loops both return its text |
| DocumentProcessor.TxtFallbackLosesContent | src/document_processor.py:83-95 | on "café" saved as Latin-1 the loop as written yields the empty text and the intended one the word |
| DocumentProcessor.OrUnknown | src/document_processor.py:153-154 | `value or 'Unknown'` is never empty |
| DocumentProcessor.GetDocumentInfo | src/document_processor.py:131-160 | name, size and upper-cased type always set; pages 0 and no title or author unless a reader succeeds; PDF pages are the page count, with title and author exactly when the information dictionary is non-empty; DOCX pages are the paragraph count `// 20`, with non-empty title and author exactly when the core properties are read; a raising reader keeps the fields set before it |
| UiComponents.ChunkSizeSliderChoices | src/ui_components.py:79-86 | the chunk-size slider offers exactly 2000, 2500, …, 6000 |
| UiComponents.RenderSidebar | src/ui_components.py:42-99 | a hidden sidebar gives no file with 4000 and 500; a shown one passes the uploader's file and slider values through; either way the size is in [2000, 6000], the overlap in [200, 1000], and the overlap is below the size |
| UiComponents.HiddenSidebarMatchesUntouchedSliders | src/ui_components.py:46-47 | the hidden-sidebar defaults are the sliders' own starting values |
| UiComponents.RenderMainContent | src/ui_components.py:101-166 | without a valid key only the setup guide shows; without a file only the welcome shows, with the settings hint exactly when the sidebar is hidden; work starts exactly when the key is valid, a file is uploaded and the button is pressed, beginning with the model set-up |
| UiComponents.ProcessAndGenerateSummary | src/ui_components.py:168-223 | a failed model set-up stops before extraction; a falsy extracted text stops before any model or splitter call; otherwise the run goes on to summarise the extracted text |
| UiComponents.SummarizeExtracted | src/ui_components.py:193-223 | short text: one summarise call and no section count; long text: a preview split with the run's arguments and then the run's own split, with the section count shown equal to the number of chunks summarised; results exactly when the summary is truthy, the error otherwise; progress starts at 0, never decreases, stays within [0, 100] |
| UiComponents.ProgressAfterStart | src/ui_components.py:195-206 | 0 and a start value at or below every later value keep the progress nondecreasing and within [0, 100] |
| UiComponents.SummarizeSplitsWith | src/ui_components.py:204-211 | every split made after extraction uses the text and the chunk size and overlap given |
| UiComponents.ProcessSplitsWith | src/ui_components.py:186-211 | every split a pressed button sets off uses the chunk size and overlap given |
| UiComponents.MainContentSplitsWith | src/ui_components.py:164-166 | every split the main area asks for uses the chunk size and overlap it was handed |
| UiComponents.SplitsUseSliderSettings | src/ui_components.py:79-99 | every split the application asks for uses the sidebar's size and overlap, which are within the slider ranges, with the overlap below the size |
| Strings.LastIndexOf | src/ui_components.py:239 | `None` exactly when the character is absent; otherwise an occurrence with none after it |
| Strings.SplitAtLastRoundTrip | src/ui_components.py:239 | the part after the last dot holds no dot; stem, dot and extension give the name back; a dot-less name is its own stem |
| UiComponents.DownloadName | src/ui_components.py:239 | the download name ends in `_summary.txt`; its stem plus a dot plus the last extension is the file name, or the stem is the whole name when there is no dot |
| UiComponents.DownloadNameDropsOneExtension | src/ui_components.py:239 | appending a dot and a dot-free extension to a name and taking the download name gives the name plus `_summary.txt` |
| UiComponents.RoundHalfEven | src/ui_components.py:262 | the result is within half of `d` of `n / d`, and on a tie it is even (Python's `round`) |
| UiComponents.RoundIsNearest | src/ui_components.py:262 | no whole number is nearer to `n / d` than the rounded value |
| UiComponents.ReadingMinutes | src/ui_components.py:262 | the reading time is at least 1; it is exactly 1 when the summary has fewer than 300 characters; otherwise it is within half a minute of the length over 200 |
| LegacyApp.ProcessDocument | test_app.py:158-190 | short text: one summarise call on the whole text, result returned unchanged; long text: the multi-chunk call order and counts, untagged, with every split at 4000 and 500 |
| LegacyApp.SplitAndChunkCallsAgree | test_app.py:158-190 | whatever the model answers, at 4000/500 the older and current orchestrators make the same split and the same summarise calls on the same chunks, chunk numbers aside |
| LegacyApp.AgreesWithCurrentAtDefaults | test_app.py:94-190 | for a model that answers the research-paper and the document wording of each prompt alike, at 4000/500 the older and current orchestrators reach the same summary through the same calls, chunk numbers aside |
| LegacyApp.SameSurvivors | test_app.py:94-119 | for such a model the same chunk summaries survive under either wording |
| Strings.ReplaceAll | test_app.py:262 | a text without the pattern is unchanged; a leading match becomes the replacement; a leading non-match keeps its first character |
| Strings.ReplaceAllAtFirstMatch | test_app.py:262 | the text before the first occurrence is kept, that occurrence becomes the replacement, and the rest is replaced in turn |
| LegacyApp.DownloadName | test_app.py:262 | the name starts with `summary_`; a name without `.pdf` is kept whole after it; a name ending in its only `.pdf` gets that `.pdf` swapped for `.txt` |
| LegacyApp.DownloadNameSwapsFirstPdf | test_app.py:262 | the first `.pdf` of any name becomes `.txt`, the text before it is kept, and the rest is replaced in turn |
| LegacyApp.PdfStartsAtFirstMatch | test_app.py:262 | in a `.pdf`-free text followed by `.pdf`, no occurrence of `.pdf` starts before that one |
| LegacyApp.ReplacedNameHasNoPdf | test_app.py:262 | after replacing `.pdf` by `.txt` no `.pdf` is left in the name |
| LegacyApp.RunPage | test_app.py:216-285 | no file gives the upload prompt; a file without a key gives the key warning; work starts exactly when there is a key, a file and a click; a missing model stops before extraction; a falsy PDF text stops before any model call |
| LegacyApp.SummarizePdfText | test_app.py:249-278 | after extraction: the run's calls, results with the `summary_` name exactly when the summary is truthy, and every split at 4000 and 500 |
| LegacyApp.SlidersIgnored | test_app.py:224-225 | whatever the sliders report, every split the older page makes uses 4000 and 500 |

## Left out

- `chunk_text` (the `RecursiveCharacterTextSplitter`) is an uninterpreted oracle. Nothing is claimed about how its chunks cover or overlap the text.
- The chat model is an oracle from prompt to reply-or-raise, assumed deterministic. The client set-up and retries are not modelled. The prompt wording is modelled only as a kind, a version tag and the text: the exact instruction text is not.
- `initialize_chat_llm` is an input: the model, or `None` when it fails.
- PyPDF2, python-docx and `markdown.markdown` are replaced by their readings. So are the HTML-tag and blank-line regexes of the Markdown path: the renderer oracle stands for all of them.
- Byte decoding (`bytes.decode`) is an oracle. Only the order and retry behaviour of the fallback loops is modelled.
- Logging, `time.time` and `time.sleep` are left out. They are output and timing only.
- Floating-point code is left out: the compression ratio, the legacy float progress values (the legacy run's progress is empty), and utils/helpers.py.
- Environment-variable lookup and the API key text input become the `apiKeyValid`/`apiKey` inputs. Streamlit page set-up, CSS, widgets and app.py wiring are not modelled.
- Strings.Lower: ASCII letters only, because Python's full Unicode case mapping is out of scope. Strings.Upper has the same limit.
- UiComponents.ReadingMinutes: the float division `len / 200` followed by Python's `round` is modelled as exact division rounded half to even. For a length below 2^50 the two give the same integer. A tie (a length that is an odd multiple of 100) has an exactly representable quotient. Any other quotient is at least 1/200 from every half-integer, more than the float spacing there (at most 2^-10). So the correctly rounded quotient lies on the same side of each half-integer as the true one.
- DocumentProcessor.ExtractText: the TXT and Markdown branches use the intended `DecodeFirst`. The program as written yields `""` once UTF-8 fails (see Findings), which `DocumentProcessor.ExtractTextAsWritten` models. The page flow of `UiComponents` is built on `ExtractText`.
- DocumentProcessor.DecodeFirst carries no ensures of its own. Its characterisation is DocumentProcessor.DecodeFirstPicksFirstSuccess.
- `display_summary_results` is modelled only for its download name and reading time. The "New Summary" button and the analytics layout are not.

## Findings

| source | as written | input that shows it | evidently intended | confidence | as-written member | corrected member |
|---|---|---|---|---|---|---|
| src/document_processor.py:85-92 | every attempt of the encoding loop calls `read()` again; once the first read consumed the stream, every fallback encoding decodes zero bytes and "succeeds" with the empty text (the Markdown loop at lines 107-109 has the same shape) | a TXT file holding "café" in Latin-1, bytes 63 61 66 E9: UTF-8 rejects the E9, and `latin-1` then decodes `b""` to `""` | read the bytes once and try each encoding on them, returning the first success | not executed | DocumentProcessor.TxtFallbackLosesContent, DocumentProcessor.CafeUploadLosesContent | DocumentProcessor.DecodeFirstPicksFirstSuccess |

`DocumentProcessor.DecodeAsWritten` models the loop as written, and `DocumentProcessor.ExtractTextAsWritten` the extraction built on it. `DocumentProcessor.ExtractText` uses the intended `DocumentProcessor.DecodeFirst`.
