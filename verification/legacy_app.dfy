/** test_app.py, the older single-file version of the summariser: PDF only,
    chunks of a fixed 4000 characters overlapping by 500 whatever the
    sliders say, no chunk numbers, and a download name made by replacing
    `.pdf` with `.txt`. */
module LegacyApp {
  import opened Maybe
  import opened Strings
  import opened LlmHandler
  import opened DocumentProcessor
  import UiComponents

  /* ---------------- process_document ---------------- */

  /** `process_document(text, llm)` of test_app.py: the legacy prompts
      about a research paper. The float progress values it sets are not
      modelled, so the run's progress is empty. */
  function ProcessDocument(text: string, llm: Llm, split: Splitter): (run: Run)
    ensures |text| <= SingleChunkLimit ==>
      && run.calls == [SummarizeCall(text, None)]
      && run.summary == SummarizeTextChunk(llm, Legacy, text)
    ensures |text| > SingleChunkLimit ==>
      MultiChunkCalls(llm, text, split(text, DefaultChunkSize, DefaultChunkOverlap),
                      DefaultChunkSize, DefaultChunkOverlap, Legacy, run.summary, run.calls)
    ensures forall j :: 0 <= j < |run.calls| && run.calls[j].ChunkTextCall? ==>
      run.calls[j] == ChunkTextCall(text, 4000, 500)
  {
    if |text| <= SingleChunkLimit then
      Run(SummarizeTextChunk(llm, Legacy, text), [SummarizeCall(text, None)], [])
    else
      var run := MultiChunk(llm, split, text, DefaultChunkSize, DefaultChunkOverlap, Legacy);
      MultiChunkOrdered(llm, split, text, DefaultChunkSize, DefaultChunkOverlap, Legacy);
      MultiChunkCounted(llm, split, text, DefaultChunkSize, DefaultChunkOverlap, Legacy);
      SplitIsFirstCallOnly(llm, text, split(text, DefaultChunkSize, DefaultChunkOverlap),
                           DefaultChunkSize, DefaultChunkOverlap, Legacy, run.summary, run.calls);
      run.(progress := [])
  }

  /** Whatever the model answers, the older orchestrator and the current
      one at the default chunk size and overlap start alike: on a long text
      the same split, then one summarise call per chunk on the same chunk,
      apart from the chunk numbers the current one attaches. Their prompts
      differ in wording, so what follows (which summaries survive, whether
      there is a synthesis call, the summary) may differ. */
  lemma SplitAndChunkCallsAgree(text: string, llm: Llm, split: Splitter)
    ensures var was := ProcessDocument(text, llm, split);
            var cur := LlmHandler.ProcessDocument(text, llm, split, DefaultChunkSize, DefaultChunkOverlap);
            var n := if |text| <= SingleChunkLimit then 1
                     else 1 + |split(text, DefaultChunkSize, DefaultChunkOverlap)|;
            && n <= |was.calls| && n <= |cur.calls|
            && forall j :: 0 <= j < n ==> Untagged(was.calls[j]) == Untagged(cur.calls[j])
  {
    var was := ProcessDocument(text, llm, split);
    var cur := LlmHandler.ProcessDocument(text, llm, split, DefaultChunkSize, DefaultChunkOverlap);
    if |text| > SingleChunkLimit {
      var chunks := split(text, DefaultChunkSize, DefaultChunkOverlap);
      var n := |chunks|;
      forall j | 1 <= j <= n ensures Untagged(was.calls[j]) == Untagged(cur.calls[j]) {
        assert was.calls[1 + (j - 1)] == SummarizeCall(chunks[j - 1], ChunkTag(j - 1, Legacy));
        assert cur.calls[1 + (j - 1)] == SummarizeCall(chunks[j - 1], ChunkTag(j - 1, Current));
      }
    }
  }

  /** The model answers the legacy and the current wording of every prompt
      alike. */
  ghost predicate WordingIgnored(llm: Llm)
  {
    && (forall t :: llm(ChunkPrompt(Legacy, t)) == llm(ChunkPrompt(Current, t)))
    && (forall c :: llm(SynthesisPrompt(Legacy, c)) == llm(SynthesisPrompt(Current, c)))
  }

  /** For a model that ignores the wording, the older orchestrator and the
      current one at the default chunk size and overlap reach the same
      summary, and their calls differ only in the chunk numbers the current
      one attaches. */
  lemma AgreesWithCurrentAtDefaults(text: string, llm: Llm, split: Splitter)
    requires WordingIgnored(llm)
    ensures var was := ProcessDocument(text, llm, split);
            var cur := LlmHandler.ProcessDocument(text, llm, split, DefaultChunkSize, DefaultChunkOverlap);
            && was.summary == cur.summary
            && |was.calls| == |cur.calls|
            && forall j :: 0 <= j < |was.calls| ==> Untagged(was.calls[j]) == Untagged(cur.calls[j])
  {
    var was := ProcessDocument(text, llm, split);
    var cur := LlmHandler.ProcessDocument(text, llm, split, DefaultChunkSize, DefaultChunkOverlap);
    SplitAndChunkCallsAgree(text, llm, split);
    if |text| > SingleChunkLimit {
      var chunks := split(text, DefaultChunkSize, DefaultChunkOverlap);
      SameSurvivors(llm, chunks);
    }
  }

  /** A model that ignores the wording keeps the same chunk summaries under
      either version. */
  lemma SameSurvivors(llm: Llm, chunks: seq<string>)
    requires WordingIgnored(llm)
    ensures SurvivingSummaries(llm, Legacy, chunks) == SurvivingSummaries(llm, Current, chunks)
  {
    assert ChunkOutcomes(llm, Legacy, chunks) == ChunkOutcomes(llm, Current, chunks) by {
      forall i | 0 <= i < |chunks|
        ensures ChunkOutcomes(llm, Legacy, chunks)[i] == ChunkOutcomes(llm, Current, chunks)[i]
      {
        assert llm(ChunkPrompt(Legacy, chunks[i])) == llm(ChunkPrompt(Current, chunks[i]));
      }
    }
  }

  /** A model that names the version it was asked in, and a splitter that
      keeps the text whole: the two orchestrators then disagree. */
  function VersionEcho(p: Prompt): Reply
  {
    match p.version
    case Legacy => Content("paper")
    case Current => Content("document")
  }

  function WholeText(text: string, chunkSize: int, overlap: int): seq<string>
  {
    [text]
  }

  /** Without `WordingIgnored` the summaries may differ: the wording is part
      of what the model is asked. */
  lemma WordingCanChangeSummary()
    ensures ProcessDocument("", VersionEcho, WholeText).summary == Some("paper")
    ensures LlmHandler.ProcessDocument("", VersionEcho, WholeText, DefaultChunkSize, DefaultChunkOverlap).summary
            == Some("document")
    ensures !WordingIgnored(VersionEcho)
  {
    assert VersionEcho(ChunkPrompt(Legacy, "")) != VersionEcho(ChunkPrompt(Current, ""));
  }

  /** A call with its chunk number dropped. */
  function Untagged(c: Call): Call
  {
    if c.SummarizeCall? then c.(chunkNum := None) else c
  }

  /* ---------------- download name ---------------- */

  const PdfSuffix: string := ".pdf"
  const TxtSuffix: string := ".txt"

  /** `f"summary_{name.replace('.pdf', '.txt')}"`: a name ending in its
      only `.pdf` gets that `.pdf` swapped for `.txt`, a name without one is
      kept as it is. */
  function DownloadName(name: string): (r: string)
    ensures |r| >= 8 && r[..8] == "summary_"
    ensures !Contains(name, PdfSuffix) ==> r == "summary_" + name
    ensures |name| >= 4 && name[|name| - 4..] == PdfSuffix && !Contains(name[..|name| - 4], PdfSuffix) ==>
      r == "summary_" + name[..|name| - 4] + TxtSuffix
  {
    var r := "summary_" + ReplaceAll(name, PdfSuffix, TxtSuffix);
    if |name| >= 4 && name[|name| - 4..] == PdfSuffix && !Contains(name[..|name| - 4], PdfSuffix) then
      var stem := name[..|name| - 4];
      PdfStartsAtFirstMatch(stem);
      ReplaceAllAtFirstMatch(stem, PdfSuffix, "", TxtSuffix);
      assert stem + PdfSuffix + "" == name;
      r
    else
      r
  }

  /** The first `.pdf` of a name becomes `.txt`, the text before it is kept
      and the rest is replaced in turn. */
  lemma DownloadNameSwapsFirstPdf(stem: string, rest: string)
    requires !Contains(stem, PdfSuffix)
    ensures DownloadName(stem + PdfSuffix + rest)
            == "summary_" + stem + TxtSuffix + ReplaceAll(rest, PdfSuffix, TxtSuffix)
  {
    PdfStartsAtFirstMatch(stem);
    ReplaceAllAtFirstMatch(stem, PdfSuffix, rest, TxtSuffix);
  }

  /** A `.pdf` cannot start inside a `.pdf`-free text and run into a `.pdf`
      after it: the only `.` of `.pdf` is its first character. */
  lemma PdfStartsAtFirstMatch(stem: string)
    requires !Contains(stem, PdfSuffix)
    ensures forall i :: 0 <= i < |stem| ==> !OccursAt(stem + PdfSuffix, PdfSuffix, i)
  {
    ContainsAtSomeIndex(stem, PdfSuffix);
    var s := stem + PdfSuffix;
    forall i | 0 <= i < |stem| ensures !OccursAt(s, PdfSuffix, i) {
      if i + 4 <= |stem| {
        assert s[i..i + 4] == stem[i..i + 4];
        assert !OccursAt(stem, PdfSuffix, i);
      } else {
        var j := |stem| - i;
        assert s[|stem|] == '.';
        assert PdfSuffix[j] != '.';
      }
    }
  }

  /** No `.pdf` is left in the name after the replacement: `.txt` can
      neither be one nor complete one. */
  lemma {:induction false} ReplacedNameHasNoPdf(name: string)
    ensures !Contains(ReplaceAll(name, PdfSuffix, TxtSuffix), PdfSuffix)
    decreases |name|
  {
    if |name| >= 4 && name[..4] == PdfSuffix {
      ReplacedNameHasNoPdf(name[4..]);
      var rest := ReplaceAll(name[4..], PdfSuffix, TxtSuffix);
      assert ReplaceAll(name, PdfSuffix, TxtSuffix) == TxtSuffix + rest;
      NoPdfAfterTxt(rest);
    } else if |name| >= 4 {
      ReplacedNameHasNoPdf(name[1..]);
      NoPdfAfterKeptChar(name);
    }
  }

  /** `.txt` in front of a text without `.pdf` makes no `.pdf`. */
  lemma NoPdfAfterTxt(rest: string)
    requires !Contains(rest, PdfSuffix)
    ensures !Contains(TxtSuffix + rest, PdfSuffix)
  {
    var t1 := ['t'] + rest;
    var t2 := ['x'] + t1;
    var t3 := ['t'] + t2;
    NoPdfAfterNonDot('t', rest);
    NoPdfAfterNonDot('x', t1);
    NoPdfAfterNonDot('t', t2);
    assert t3[..3] == "txt";
    NoPdfAfterDotThenT(t3);
    assert TxtSuffix + rest == ['.'] + t3;
  }

  /** A character other than `.` in front of a text without `.pdf` makes no `.pdf`. */
  lemma NoPdfAfterNonDot(c: char, t: string)
    requires c != '.' && !Contains(t, PdfSuffix)
    ensures !Contains([c] + t, PdfSuffix)
  {
    ContainsCons(c, t, PdfSuffix);
  }

  /** A `.` followed by `t` and a text without `.pdf` makes no `.pdf`. */
  lemma NoPdfAfterDotThenT(t: string)
    requires |t| > 0 && t[0] == 't' && !Contains(t, PdfSuffix)
    ensures !Contains(['.'] + t, PdfSuffix)
  {
    ContainsCons('.', t, PdfSuffix);
    if |PdfSuffix| <= |t| + 1 {
      assert (['.'] + t[..|PdfSuffix| - 1])[1] == 't';
    }
  }

  /** A kept first character in front of a replaced text without `.pdf`
      makes no `.pdf`: one there would have been replaced. */
  lemma NoPdfAfterKeptChar(name: string)
    requires |name| >= 4 && name[..4] != PdfSuffix
    requires !Contains(ReplaceAll(name[1..], PdfSuffix, TxtSuffix), PdfSuffix)
    ensures !Contains(ReplaceAll(name, PdfSuffix, TxtSuffix), PdfSuffix)
  {
    var rest := ReplaceAll(name[1..], PdfSuffix, TxtSuffix);
    assert ReplaceAll(name, PdfSuffix, TxtSuffix) == [name[0]] + rest;
    ContainsCons(name[0], rest, PdfSuffix);
    KeptCharStartsNoPdf(name);
  }

  /** The kept first character and the start of the replaced rest do not
      spell `.pdf`. */
  lemma KeptCharStartsNoPdf(name: string)
    requires |name| >= 4 && name[..4] != PdfSuffix
    ensures var rest := ReplaceAll(name[1..], PdfSuffix, TxtSuffix);
            !(|rest| >= 3 && [name[0]] + rest[..3] == PdfSuffix)
  {
    PdfStartSurvives(name[1..]);
    assert name[..4] == [name[0]] + name[1..][..3];
  }

  /** A replaced text can start with `pdf` only when the original did. */
  lemma PdfStartSurvives(t: string)
    ensures var r := ReplaceAll(t, PdfSuffix, TxtSuffix);
            |r| >= 3 && r[..3] == "pdf" ==> |t| >= 3 && t[..3] == "pdf"
  {
    var r := ReplaceAll(t, PdfSuffix, TxtSuffix);
    if |r| >= 3 && r[..3] == "pdf" {
      DotFreePrefixKept(t, "pdf");
    }
  }

  /** A replaced text that starts with dot-free `w` came from a text that
      starts with `w`: every replacement begins with a dot. */
  lemma {:induction false} DotFreePrefixKept(t: string, w: string)
    requires '.' !in w
    requires var r := ReplaceAll(t, PdfSuffix, TxtSuffix); |w| <= |r| && r[..|w|] == w
    ensures |w| <= |t| && t[..|w|] == w
    decreases |w|
  {
    var r := ReplaceAll(t, PdfSuffix, TxtSuffix);
    if |w| > 0 && |t| > 0 {
      assert r[0] == w[0] && w[0] != '.';
      assert !(|t| >= 4 && t[..4] == PdfSuffix);
      var rest := ReplaceAll(t[1..], PdfSuffix, TxtSuffix);
      assert r == [t[0]] + rest;
      assert rest[..|w| - 1] == w[1..];
      DotFreePrefixKept(t[1..], w[1..]);
    }
  }

  /* ---------------- the page flow ---------------- */

  /** What the older page ends up showing. */
  datatype Screen =
    | UploadPrompt          // no file
    | KeyWarning            // a file but no API key
    | Ready                 // settings shown, the button not pressed
    | ModelInitError
    | ExtractionError
    | SummaryError
    | Results(summary: string, downloadName: string)

  datatype Page = Page(screen: Screen, steps: seq<UiComponents.Step>)

  /** The script body of test_app.py after the API key prompt. */
  function RunPage(apiKey: bool, name: Option<string>, pdf: Option<PdfFile>, clicked: bool,
                   chunkSize: int, chunkOverlap: int, model: Option<Llm>, split: Splitter): (p: Page)
    ensures p.steps != [] <==> apiKey && name.Some? && clicked
    ensures name.None? ==> p.screen == UploadPrompt
    ensures name.Some? && !apiKey ==> p.screen == KeyWarning
    ensures p.steps != [] && model.None? ==> p.screen == ModelInitError && p.steps == [UiComponents.InitModel]
    ensures p.steps != [] && model.Some? && !Usable(PdfText(pdf)) ==>
      p.screen == ExtractionError && p.steps == [UiComponents.InitModel, UiComponents.Extraction]
    ensures p.steps != [] && model.Some? && Usable(PdfText(pdf)) ==>
      var rest := SummarizePdfText(name.value, PdfText(pdf).value, model.value, split);
      p.screen == rest.screen && p.steps == [UiComponents.InitModel, UiComponents.Extraction] + rest.steps
  {
    if name.None? then Page(UploadPrompt, [])
    else if !apiKey then Page(KeyWarning, [])
    else if !clicked then Page(Ready, [])
    else match model
      case None => Page(ModelInitError, [UiComponents.InitModel])
      case Some(llm) =>
        var text := PdfText(pdf);
        if !Usable(text) then Page(ExtractionError, [UiComponents.InitModel, UiComponents.Extraction])
        else
          var rest := SummarizePdfText(name.value, text.value, llm, split);
          rest.(steps := [UiComponents.InitModel, UiComponents.Extraction] + rest.steps)
  }

  /** The page once the text is extracted: the summary and its download
      name, or the error when the summary is falsy. Every split uses chunks
      of 4000 characters overlapping by 500. */
  function SummarizePdfText(name: string, text: string, llm: Llm, split: Splitter): (p: Page)
    ensures var run := ProcessDocument(text, llm, split);
      && p.steps == UiComponents.Invokes(run.calls)
      && (Usable(run.summary) ==> p.screen == Results(run.summary.value, DownloadName(name)))
      && (!Usable(run.summary) ==> p.screen == SummaryError)
    ensures forall k :: 0 <= k < |p.steps| && p.steps[k].Invoke? && p.steps[k].call.ChunkTextCall? ==>
      p.steps[k].call == ChunkTextCall(text, 4000, 500)
  {
    var run := ProcessDocument(text, llm, split);
    var screen := if Usable(run.summary) then Results(run.summary.value, DownloadName(name))
                  else SummaryError;
    Page(screen, UiComponents.Invokes(run.calls))
  }

  /** The page's sliders have no effect: every split it asks for uses
      chunks of 4000 characters overlapping by 500, whatever the chunk size
      and overlap the sliders report. */
  lemma SlidersIgnored(apiKey: bool, name: Option<string>, pdf: Option<PdfFile>, clicked: bool,
                       chunkSize: int, chunkOverlap: int, model: Option<Llm>, split: Splitter)
    ensures var p := RunPage(apiKey, name, pdf, clicked, chunkSize, chunkOverlap, model, split);
            forall k :: 0 <= k < |p.steps| && p.steps[k].Invoke? && p.steps[k].call.ChunkTextCall? ==>
              p.steps[k].call.chunkSize == 4000 && p.steps[k].call.overlap == 500
  {
    var p := RunPage(apiKey, name, pdf, clicked, chunkSize, chunkOverlap, model, split);
    if p.steps != [] && model.Some? && Usable(PdfText(pdf)) {
      var rest := SummarizePdfText(name.value, PdfText(pdf).value, model.value, split);
      forall k | 0 <= k < |p.steps| && p.steps[k].Invoke? && p.steps[k].call.ChunkTextCall?
        ensures p.steps[k].call.chunkSize == 4000 && p.steps[k].call.overlap == 500
      {
        UiComponents.InvokeAfterSetup(p.steps, rest.steps, k);
      }
    }
  }
}
