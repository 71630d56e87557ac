/** The caller side of src/ui_components.py: the sidebar settings, the
    guards of `render_main_content` and `process_document_and_generate_summary`,
    the download filename and the reading-time estimate.

    Streamlit widgets become inputs: whether the sidebar is shown, the file
    the uploader holds, the slider positions and whether the button was
    clicked. Model initialisation is an input too: the chat model, or `None`
    when `initialize_chat_llm` fails. */
module UiComponents {
  import opened Maybe
  import opened Strings
  import opened LlmHandler
  import opened DocumentProcessor

  /* ---------------- sidebar ---------------- */

  datatype Slider = Slider(min: int, max: int, default: int, step: nat)

  const ChunkSizeSlider: Slider := Slider(2000, 6000, 4000, 500)
  const ChunkOverlapSlider: Slider := Slider(200, 1000, 500, 100)

  /** The values a slider can report: within its range and a whole number
      of steps from its minimum. */
  predicate Admits(s: Slider, v: int)
  {
    s.min <= v <= s.max && s.step > 0 && (v - s.min) % s.step == 0
  }

  /** The chunk sizes the chunk-size slider offers, listed out. */
  const ChunkSizeChoices: seq<int> := [2000, 2500, 3000, 3500, 4000, 4500, 5000, 5500, 6000]

  /** The chunk-size slider offers exactly the nine listed sizes. */
  lemma ChunkSizeSliderChoices(v: int)
    ensures Admits(ChunkSizeSlider, v) <==> v in ChunkSizeChoices
  {
    if Admits(ChunkSizeSlider, v) {
      var k := (v - 2000) / 500;
      assert v == 2000 + 500 * k;
      assert 0 <= k <= 8;
      assert v == ChunkSizeChoices[k];
    }
  }

  /** What `render_sidebar` hands back: the uploaded file, the chunk size
      and the chunk overlap. */
  datatype Settings = Settings(upload: Option<Upload>, chunkSize: int, chunkOverlap: int)

  /** `render_sidebar`: the defaults `(None, 4000, 500)` when the sidebar is
      hidden, otherwise the uploader's file and the two slider values. */
  function RenderSidebar(shown: bool, upload: Option<Upload>, size: int, overlap: int): (r: Settings)
    requires shown ==> Admits(ChunkSizeSlider, size) && Admits(ChunkOverlapSlider, overlap)
    ensures !shown ==> r == Settings(None, DefaultChunkSize, DefaultChunkOverlap)
    ensures shown ==> r.upload == upload && r.chunkSize == size && r.chunkOverlap == overlap
    ensures Admits(ChunkSizeSlider, r.chunkSize) && Admits(ChunkOverlapSlider, r.chunkOverlap)
    ensures 2000 <= r.chunkSize <= 6000 && 200 <= r.chunkOverlap <= 1000
    ensures r.chunkOverlap < r.chunkSize
  {
    if !shown then Settings(None, 4000, 500) else Settings(upload, size, overlap)
  }

  /** The hidden sidebar's defaults are the sliders' own starting values, so
      a hidden sidebar and an untouched one give the same settings. */
  lemma HiddenSidebarMatchesUntouchedSliders(upload: Option<Upload>)
    ensures RenderSidebar(false, upload, 0, 0).chunkSize == ChunkSizeSlider.default
    ensures RenderSidebar(false, upload, 0, 0).chunkOverlap == ChunkOverlapSlider.default
    ensures RenderSidebar(true, None, ChunkSizeSlider.default, ChunkOverlapSlider.default)
            == RenderSidebar(false, upload, 0, 0)
  {
  }

  /* ---------------- main content ---------------- */

  /** What the main area ends up showing. */
  datatype Screen =
    | SetupGuide                    // no valid API key
    | Welcome(settingsHint: bool)   // no file; the hint when the sidebar is hidden
    | AwaitingClick                 // a file, but the button not pressed
    | ModelInitError
    | ExtractionError
    | SummaryError
    | Results(summary: string, downloadName: string, readMinutes: int)

  /** The work a click sets off, in order. */
  datatype Step = InitModel | Extraction | Invoke(call: Call)

  datatype Session = Session(screen: Screen, steps: seq<Step>, progress: seq<int>,
                             sectionsShown: Option<nat>)

  /** The model and splitter calls of a run, as steps. */
  function Invokes(calls: seq<Call>): (steps: seq<Step>)
    ensures |steps| == |calls|
    ensures forall i :: 0 <= i < |calls| ==> steps[i] == Invoke(calls[i])
  {
    seq(|calls|, i requires 0 <= i < |calls| => Invoke(calls[i]))
  }

  /** `process_document_and_generate_summary` once the button is pressed:
      initialise the model, extract the text, then summarise it. A missing
      model stops the run before extraction, and a falsy text before any
      model call. */
  function ProcessAndGenerateSummary(upload: Upload, chunkSize: int, chunkOverlap: int,
                                     model: Option<Llm>, split: Splitter, decode: Decoder,
                                     render: Renderer): (s: Session)
    ensures model.None? ==> s.screen == ModelInitError && s.steps == [InitModel]
    ensures model.Some? && !Usable(ExtractText(upload, decode, render)) ==>
      s.screen == ExtractionError && s.steps == [InitModel, Extraction]
    ensures model.Some? && Usable(ExtractText(upload, decode, render)) ==>
      var rest := SummarizeExtracted(upload.name, ExtractText(upload, decode, render).value,
                                     chunkSize, chunkOverlap, model.value, split);
      && s.steps == [InitModel, Extraction] + rest.steps
      && s.screen == rest.screen && s.progress == rest.progress && s.sectionsShown == rest.sectionsShown
    ensures s.sectionsShown.Some? ==> s.screen != ModelInitError && s.screen != ExtractionError
  {
    match model
    case None => Session(ModelInitError, [InitModel], [], None)
    case Some(llm) =>
      var extracted := ExtractText(upload, decode, render);
      if !Usable(extracted) then
        Session(ExtractionError, [InitModel, Extraction], [], None)
      else
        var rest := SummarizeExtracted(upload.name, extracted.value, chunkSize, chunkOverlap, llm, split);
        rest.(steps := [InitModel, Extraction] + rest.steps)
  }

  /** The steps after extraction: on a long text the section count is shown
      first, from a split with the very arguments `process_document` uses,
      so the count shown is the number of chunks summarised; then the
      summary, or the error when it is falsy. */
  function SummarizeExtracted(name: string, text: string, chunkSize: int, chunkOverlap: int,
                              llm: Llm, split: Splitter): (s: Session)
    ensures var run := ProcessDocument(text, llm, split, chunkSize, chunkOverlap);
      && (|text| <= SingleChunkLimit ==>
            s.sectionsShown == None && s.steps == [Invoke(SummarizeCall(text, None))])
      && (|text| > SingleChunkLimit ==>
            && |s.steps| >= 2
            && s.steps[0] == Invoke(ChunkTextCall(text, chunkSize, chunkOverlap))
            && s.steps[1] == s.steps[0]
            && s.sectionsShown == Some(Count(run.calls, Summarize)))
      && (Usable(run.summary) ==>
            s.screen == Results(run.summary.value, DownloadName(name),
                                ReadingMinutes(|run.summary.value|)))
      && (!Usable(run.summary) ==> s.screen == SummaryError)
    ensures |s.progress| >= 2 && s.progress[0] == 0
    ensures Nondecreasing(s.progress)
    ensures forall k :: 0 <= k < |s.progress| ==> 0 <= s.progress[k] <= 100
    ensures s.screen != ModelInitError && s.screen != ExtractionError
  {
    var long := |text| > SingleChunkLimit;
    var preview := if long then [ChunkTextCall(text, chunkSize, chunkOverlap)] else [];
    var shown := if long then Some(|split(text, chunkSize, chunkOverlap)|) else None;
    var run := ProcessDocument(text, llm, split, chunkSize, chunkOverlap);
    var screen := if Usable(run.summary)
                  then Results(run.summary.value, DownloadName(name), ReadingMinutes(|run.summary.value|))
                  else SummaryError;
    ProgressAfterStart(if long then 25 else 50, run.progress);
    Session(screen, Invokes(preview + run.calls), [0, if long then 25 else 50] + run.progress, shown)
  }

  /** Prefixing 0 and a start value below every later value keeps the
      progress sequence nondecreasing and within [0, 100]. */
  lemma ProgressAfterStart(start: int, later: seq<int>)
    requires 0 <= start <= 50
    requires |later| > 0 ==> start <= later[0]
    requires Nondecreasing(later)
    requires forall k :: 0 <= k < |later| ==> 25 <= later[k] <= 100
    ensures Nondecreasing([0, start] + later)
    ensures forall k :: 0 <= k < |[0, start] + later| ==> 0 <= ([0, start] + later)[k] <= 100
  {
    var p := [0, start] + later;
    forall i, j | 0 <= i <= j < |p| ensures p[i] <= p[j] {
      if i >= 2 {
        assert p[i] == later[i - 2] && p[j] == later[j - 2];
      } else if j >= 2 {
        assert p[j] == later[j - 2];
        assert later[0] <= later[j - 2];
      }
    }
  }

  /** `render_main_content`: nothing is processed without a valid API key,
      without an uploaded file, or before the button is pressed. */
  function RenderMainContent(upload: Option<Upload>, chunkSize: int, chunkOverlap: int,
                             apiKeyValid: bool, sidebarShown: bool, clicked: bool,
                             model: Option<Llm>, split: Splitter, decode: Decoder,
                             render: Renderer): (s: Session)
    ensures !apiKeyValid ==> s == Session(SetupGuide, [], [], None)
    ensures apiKeyValid && upload.None? ==> s == Session(Welcome(!sidebarShown), [], [], None)
    ensures s.steps != [] <==> apiKeyValid && upload.Some? && clicked
    ensures s.steps != [] ==> s.steps[0] == InitModel
    ensures s.steps != [] ==>
      s == ProcessAndGenerateSummary(upload.value, chunkSize, chunkOverlap, model, split, decode, render)
  {
    if !apiKeyValid then Session(SetupGuide, [], [], None)
    else if upload.None? then Session(Welcome(!sidebarShown), [], [], None)
    else if !clicked then Session(AwaitingClick, [], [], None)
    else ProcessAndGenerateSummary(upload.value, chunkSize, chunkOverlap, model, split, decode, render)
  }

  /** Every split a summarising run asks for, the preview one included,
      uses the chunk size and overlap it was given. */
  lemma SummarizeSplitsWith(name: string, text: string, chunkSize: int, chunkOverlap: int,
                            llm: Llm, split: Splitter)
    ensures var s := SummarizeExtracted(name, text, chunkSize, chunkOverlap, llm, split);
            forall k :: 0 <= k < |s.steps| && s.steps[k].Invoke? && s.steps[k].call.ChunkTextCall? ==>
              s.steps[k].call == ChunkTextCall(text, chunkSize, chunkOverlap)
  {
    if |text| > SingleChunkLimit {
      var run := ProcessDocument(text, llm, split, chunkSize, chunkOverlap);
      SplitIsFirstCallOnly(llm, text, split(text, chunkSize, chunkOverlap), chunkSize, chunkOverlap,
                           Current, run.summary, run.calls);
    }
  }

  /** Every split a pressed button sets off uses the chunk size and overlap
      the run was given. */
  lemma ProcessSplitsWith(upload: Upload, chunkSize: int, chunkOverlap: int, model: Option<Llm>,
                          split: Splitter, decode: Decoder, render: Renderer)
    ensures var s := ProcessAndGenerateSummary(upload, chunkSize, chunkOverlap, model, split, decode, render);
            forall k :: 0 <= k < |s.steps| && s.steps[k].Invoke? && s.steps[k].call.ChunkTextCall? ==>
              s.steps[k].call.chunkSize == chunkSize && s.steps[k].call.overlap == chunkOverlap
  {
    var s := ProcessAndGenerateSummary(upload, chunkSize, chunkOverlap, model, split, decode, render);
    if model.Some? && Usable(ExtractText(upload, decode, render)) {
      var text := ExtractText(upload, decode, render).value;
      var rest := SummarizeExtracted(upload.name, text, chunkSize, chunkOverlap, model.value, split);
      SummarizeSplitsWith(upload.name, text, chunkSize, chunkOverlap, model.value, split);
      forall k | 0 <= k < |s.steps| && s.steps[k].Invoke? && s.steps[k].call.ChunkTextCall?
        ensures s.steps[k].call.chunkSize == chunkSize && s.steps[k].call.overlap == chunkOverlap
      {
        InvokeAfterSetup(s.steps, rest.steps, k);
      }
    }
  }

  /** A model or splitter call behind the model set-up and the extraction
      is a step of the summarising part. */
  lemma InvokeAfterSetup(steps: seq<Step>, rest: seq<Step>, k: nat)
    requires steps == [InitModel, Extraction] + rest
    requires k < |steps| && steps[k].Invoke?
    ensures 2 <= k && steps[k] == rest[k - 2]
  {
    assert steps[0] == InitModel && steps[1] == Extraction;
  }

  /** Every split the main area asks for uses the chunk size and overlap
      it was given. */
  lemma MainContentSplitsWith(upload: Option<Upload>, chunkSize: int, chunkOverlap: int,
                              apiKeyValid: bool, shown: bool, clicked: bool, model: Option<Llm>,
                              split: Splitter, decode: Decoder, render: Renderer)
    ensures var s := RenderMainContent(upload, chunkSize, chunkOverlap, apiKeyValid, shown, clicked,
                                       model, split, decode, render);
            forall k :: 0 <= k < |s.steps| && s.steps[k].Invoke? && s.steps[k].call.ChunkTextCall? ==>
              s.steps[k].call.chunkSize == chunkSize && s.steps[k].call.overlap == chunkOverlap
  {
    if upload.Some? {
      ProcessSplitsWith(upload.value, chunkSize, chunkOverlap, model, split, decode, render);
    }
  }

  /** Whatever the sidebar reports, every split the application asks for
      uses the sidebar's chunk size and overlap: both within the slider
      ranges, the overlap below the size. */
  lemma SplitsUseSliderSettings(shown: bool, upload: Option<Upload>, size: int, overlap: int,
                                apiKeyValid: bool, clicked: bool, model: Option<Llm>,
                                split: Splitter, decode: Decoder, render: Renderer)
    requires shown ==> Admits(ChunkSizeSlider, size) && Admits(ChunkOverlapSlider, overlap)
    ensures var cfg := RenderSidebar(shown, upload, size, overlap);
            var s := RenderMainContent(cfg.upload, cfg.chunkSize, cfg.chunkOverlap, apiKeyValid,
                                       shown, clicked, model, split, decode, render);
            forall k :: 0 <= k < |s.steps| && s.steps[k].Invoke? && s.steps[k].call.ChunkTextCall? ==>
              var c := s.steps[k].call;
              && c.chunkSize == cfg.chunkSize && c.overlap == cfg.chunkOverlap
              && 2000 <= c.chunkSize <= 6000 && 200 <= c.overlap <= 1000 && c.overlap < c.chunkSize
  {
    var cfg := RenderSidebar(shown, upload, size, overlap);
    MainContentSplitsWith(cfg.upload, cfg.chunkSize, cfg.chunkOverlap, apiKeyValid, shown, clicked,
                          model, split, decode, render);
  }

  /* ---------------- download and statistics ---------------- */

  const SummarySuffix: string := "_summary.txt"

  /** `name.rsplit('.', 1)[0] + '_summary.txt'`: the name without its last
      extension, with `_summary.txt` appended. */
  function DownloadName(name: string): (r: string)
    ensures |r| >= |SummarySuffix| && r[|r| - |SummarySuffix|..] == SummarySuffix
    ensures var stem := r[..|r| - |SummarySuffix|];
            && ('.' in name ==> stem + ['.'] + AfterLast(name, '.') == name)
            && ('.' !in name ==> stem == name)
  {
    SplitAtLastRoundTrip(name, '.');
    var r := BeforeLast(name, '.') + SummarySuffix;
    assert r[..|r| - |SummarySuffix|] == BeforeLast(name, '.');
    r
  }

  /** The stem the download name keeps is the text before the last dot: the
      part dropped is a single extension, with no dot in it. */
  lemma DownloadNameDropsOneExtension(name: string, ext: string)
    requires '.' !in ext
    ensures DownloadName(name + ['.'] + ext) == name + SummarySuffix
  {
    SplitAtLastUnique(name, '.', ext);
  }

  /** Python's `round(n / d)` for naturals: the nearest whole number, a tie
      going to the even neighbour. */
  function RoundHalfEven(n: nat, d: nat): (q: nat)
    requires d > 0
    ensures 2 * (q * d) <= 2 * n + d && 2 * n <= 2 * (q * d) + d
    ensures 2 * n - 2 * (q * d) == d || 2 * (q * d) - 2 * n == d ==> q % 2 == 0
  {
    var q, rem := n / d, n % d;
    QuotientAndRemainder(n, d);
    var r := if 2 * rem < d then q else if 2 * rem > d || q % 2 != 0 then q + 1 else q;
    RoundingChoice(n, d, q, rem, r);
    r
  }

  /** Rounding down when the remainder is under half of `d`, up when it is
      over, and to the even neighbour on a tie lands within half of `d` of
      `n`. */
  lemma RoundingChoice(n: nat, d: nat, q: nat, rem: nat, r: nat)
    requires d > 0 && q * d + rem == n && rem < d
    requires r == if 2 * rem < d then q else if 2 * rem > d || q % 2 != 0 then q + 1 else q
    ensures 2 * (r * d) <= 2 * n + d && 2 * n <= 2 * (r * d) + d
    ensures 2 * n - 2 * (r * d) == d || 2 * (r * d) - 2 * n == d ==> r % 2 == 0
  {
    if r == q + 1 {
      NextMultiple(q, d);
    }
  }

  /** The whole part and remainder of `n / d` put `n` back together. */
  lemma QuotientAndRemainder(n: nat, d: nat)
    requires d > 0
    ensures (n / d) * d + n % d == n && 0 <= n % d < d
  {
  }

  /** One more multiple of `d` is `d` further on. */
  lemma NextMultiple(q: nat, d: nat)
    ensures (q + 1) * d == q * d + d
  {
  }

  /** The rounded value is at least as close to `n / d` as any other whole
      number. */
  lemma RoundIsNearest(n: nat, d: nat, m: nat)
    requires d > 0
    ensures var q := RoundHalfEven(n, d);
            (if q * d >= n then q * d - n else n - q * d) <= (if m * d >= n then m * d - n else n - m * d)
  {
    var q := RoundHalfEven(n, d);
    if m < q {
      MulIsMonotone(q, m + 1, d);
      NextMultiple(m, d);
    } else if m > q {
      MulIsMonotone(m, q + 1, d);
      NextMultiple(q, d);
    }
    NearerMultiple(n, d, q * d, m * d);
  }

  /** A multiple `p` within half of `d` of `n` is at least as near to `n`
      as a multiple `o` that is `p` itself or a whole `d` or more away. */
  lemma NearerMultiple(n: int, d: int, p: int, o: int)
    requires 2 * p <= 2 * n + d && 2 * n <= 2 * p + d
    requires o == p || o + d <= p || p + d <= o
    ensures (if p >= n then p - n else n - p) <= (if o >= n then o - n else n - o)
  {
  }

  const CharsPerMinute: nat := 200

  /** `max(1, round(len(summary) / 200))`: the reading time in minutes,
      never below one. */
  function ReadingMinutes(chars: nat): (m: int)
    ensures m >= 1
    ensures m == 1 <==> chars < 300
    ensures m > 1 ==> 2 * (m * CharsPerMinute) <= 2 * chars + CharsPerMinute
                      && 2 * chars <= 2 * (m * CharsPerMinute) + CharsPerMinute
  {
    var q := RoundHalfEven(chars, CharsPerMinute);
    if q < 1 then 1 else q
  }
}
