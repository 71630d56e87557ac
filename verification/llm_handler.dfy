/** The summarisation orchestrator of src/llm_handler.py: one model call for a
    short text; for a long one, a split into chunks, one model call per chunk,
    and one synthesis call over the surviving chunk summaries.

    The chat model and the text splitter are oracles passed in as functions.
    A run returns its result together with the trace of the handler calls it
    made and the progress-bar values it set, so that call counts, call order
    and progress can be stated about it. */
module LlmHandler {
  import opened Maybe
  import opened Strings

  /* ---------------- the oracles ---------------- */

  /** Which program's instructions wrap the text: src/llm_handler.py asks
      about "this document", test_app.py about "this research paper". */
  datatype Version = Current | Legacy

  /** The two message lists the handler sends to the chat model: the
      instructions of one version around the text. The instructions' exact
      wording is not modelled, only which version's they are. */
  datatype Prompt =
    | ChunkPrompt(version: Version, text: string)          // summarise one text or chunk
    | SynthesisPrompt(version: Version, combined: string)  // synthesise joined chunk summaries

  /** What `llm.invoke(messages)` does: answer with content, or raise. */
  datatype Reply = Content(content: string) | Raised

  type Llm = Prompt -> Reply

  /** `chunk_text(text, chunk_size, overlap)`: a library splitter whose
      output is taken as given. */
  type Splitter = (string, int, int) -> seq<string>

  /* ---------------- constants ---------------- */

  /** Texts up to this many characters are summarised in one call. */
  const SingleChunkLimit: nat := 15000

  const DefaultChunkSize: int := 4000
  const DefaultChunkOverlap: int := 500

  const SectionBreak: string := "\n\n---SECTION BREAK---\n\n"

  /* ---------------- the trace ---------------- */

  /** A call the orchestrator makes into the rest of the handler. */
  datatype Call =
    | ChunkTextCall(text: string, chunkSize: int, overlap: int)
    | SummarizeCall(text: string, chunkNum: Option<nat>)
    | FinalSummaryCall(summaries: seq<string>)

  datatype CallKind = Split | Summarize | Synthesis

  function KindOf(c: Call): CallKind
  {
    match c
    case ChunkTextCall(_, _, _) => Split
    case SummarizeCall(_, _) => Summarize
    case FinalSummaryCall(_) => Synthesis
  }

  /** How many calls of the given kind a trace holds. */
  function Count(calls: seq<Call>, kind: CallKind): nat
  {
    if |calls| == 0 then 0
    else (if KindOf(calls[0]) == kind then 1 else 0) + Count(calls[1..], kind)
  }

  lemma {:induction false} CountAppend(a: seq<Call>, b: seq<Call>, kind: CallKind)
    ensures Count(a + b, kind) == Count(a, kind) + Count(b, kind)
    decreases |a|
  {
    if |a| == 0 {
      assert a + b == b;
    } else {
      assert (a + b)[1..] == a[1..] + b;
      CountAppend(a[1..], b, kind);
    }
  }

  lemma {:induction false} CountAllOfKind(calls: seq<Call>, kind: CallKind)
    requires forall i :: 0 <= i < |calls| ==> KindOf(calls[i]) == kind
    ensures forall other :: Count(calls, other) == if other == kind then |calls| else 0
    decreases |calls|
  {
    if |calls| > 0 {
      CountAllOfKind(calls[1..], kind);
    }
  }

  /** The result of one orchestrator run. */
  datatype Run = Run(summary: Option<string>, calls: seq<Call>, progress: seq<int>)

  predicate Nondecreasing(s: seq<int>)
  {
    forall i, j :: 0 <= i <= j < |s| ==> s[i] <= s[j]
  }

  /* ---------------- the two model calls ---------------- */

  /** `summarize_text_chunk`: `None` exactly when the invoke raises, the
      reply's content otherwise. The chunk number only labels log lines, so
      it does not reach the model. */
  function SummarizeTextChunk(llm: Llm, version: Version, text: string): (r: Option<string>)
    ensures r.None? <==> llm(ChunkPrompt(version, text)).Raised?
    ensures r.Some? ==> r.value == llm(ChunkPrompt(version, text)).content
  {
    match llm(ChunkPrompt(version, text))
    case Content(c) => Some(c)
    case Raised => None
  }

  /** The text `create_final_summary` hands to the model. */
  function JoinSections(summaries: seq<string>): (r: string)
    ensures |summaries| > 0 ==> r + SectionBreak == Terminated(summaries, SectionBreak)
    ensures |summaries| > 0 ==>
      |r| == TotalLength(summaries) + (|summaries| - 1) * |SectionBreak|
  {
    if |summaries| > 0 then
      JoinThenSeparatorIsTerminated(summaries, SectionBreak);
      JoinLength(summaries, SectionBreak);
      Join(summaries, SectionBreak)
    else
      Join(summaries, SectionBreak)
  }

  /** `create_final_summary`: one synthesis call on the joined summaries;
      `None` exactly when the invoke raises. */
  function CreateFinalSummary(llm: Llm, version: Version, summaries: seq<string>): (r: Option<string>)
    ensures r.None? <==> llm(SynthesisPrompt(version, JoinSections(summaries))).Raised?
    ensures r.Some? ==> r.value == llm(SynthesisPrompt(version, JoinSections(summaries))).content
  {
    match llm(SynthesisPrompt(version, JoinSections(summaries)))
    case Content(c) => Some(c)
    case Raised => None
  }

  /* ---------------- surviving chunk summaries ---------------- */

  /** Python truthiness of a chunk summary: neither `None` nor empty. */
  predicate Usable(o: Option<string>)
  {
    o.Some? && o.value != ""
  }

  /** What the model answers for each chunk, in chunk order. */
  function ChunkOutcomes(llm: Llm, version: Version, chunks: seq<string>): (outs: seq<Option<string>>)
    ensures |outs| == |chunks|
    ensures forall i :: 0 <= i < |chunks| ==> outs[i] == SummarizeTextChunk(llm, version, chunks[i])
  {
    seq(|chunks|, i requires 0 <= i < |chunks| => SummarizeTextChunk(llm, version, chunks[i]))
  }

  /** The usable outcomes' texts, in order (reference definition). */
  function Survivors(outs: seq<Option<string>>): seq<string>
  {
    if |outs| == 0 then []
    else (if Usable(outs[0]) then [outs[0].value] else []) + Survivors(outs[1..])
  }

  lemma {:induction false} SurvivorsAppend(a: seq<Option<string>>, b: seq<Option<string>>)
    ensures Survivors(a + b) == Survivors(a) + Survivors(b)
    decreases |a|
  {
    if |a| == 0 {
      assert a + b == b;
    } else {
      assert (a + b)[1..] == a[1..] + b;
      SurvivorsAppend(a[1..], b);
    }
  }

  /** No summary survives exactly when every chunk's outcome is unusable. */
  lemma {:induction false} SurvivorsEmptyIff(outs: seq<Option<string>>)
    ensures Survivors(outs) == [] <==> forall j :: 0 <= j < |outs| ==> !Usable(outs[j])
    decreases |outs|
  {
    if |outs| > 0 {
      SurvivorsEmptyIff(outs[1..]);
      if forall j :: 0 <= j < |outs| ==> !Usable(outs[j]) {
        assert forall j :: 0 <= j < |outs[1..]| ==> !Usable(outs[1..][j]) by {
          forall j | 0 <= j < |outs[1..]| ensures !Usable(outs[1..][j]) {
            assert outs[1..][j] == outs[j + 1];
          }
        }
      } else if !Usable(outs[0]) {
        var j :| 0 <= j < |outs| && Usable(outs[j]);
        assert outs[1..][j - 1] == outs[j];
      }
    }
  }

  /** The positions of the usable outcomes, in increasing order. */
  function UsableIndices(outs: seq<Option<string>>): (idx: seq<nat>)
    ensures forall k :: 0 <= k < |idx| ==> idx[k] < |outs|
  {
    if |outs| == 0 then []
    else
      var tail := UsableIndices(outs[1..]);
      (if Usable(outs[0]) then [0] else []) + seq(|tail|, k requires 0 <= k < |tail| => tail[k] + 1)
  }

  lemma {:induction false} UsableIndicesPickSurvivors(outs: seq<Option<string>>)
    ensures |UsableIndices(outs)| == |Survivors(outs)|
    ensures forall k :: 0 <= k < |UsableIndices(outs)| ==>
      Usable(outs[UsableIndices(outs)[k]]) && Survivors(outs)[k] == outs[UsableIndices(outs)[k]].value
    decreases |outs|
  {
    if |outs| > 0 {
      var rest := outs[1..];
      UsableIndicesPickSurvivors(rest);
      var idx, tail := UsableIndices(outs), UsableIndices(rest);
      var h := if Usable(outs[0]) then 1 else 0;
      assert Survivors(outs) == (if Usable(outs[0]) then [outs[0].value] else []) + Survivors(rest);
      forall k | 0 <= k < |idx|
        ensures Usable(outs[idx[k]]) && Survivors(outs)[k] == outs[idx[k]].value
      {
        if k >= h {
          assert idx[k] == tail[k - h] + 1;
          assert outs[idx[k]] == rest[tail[k - h]];
          assert Survivors(outs)[k] == Survivors(rest)[k - h];
        }
      }
    }
  }

  lemma {:induction false} UsableIndicesIncrease(outs: seq<Option<string>>)
    ensures forall k, l :: 0 <= k < l < |UsableIndices(outs)| ==> UsableIndices(outs)[k] < UsableIndices(outs)[l]
    decreases |outs|
  {
    if |outs| > 0 {
      UsableIndicesIncrease(outs[1..]);
      var idx, tail := UsableIndices(outs), UsableIndices(outs[1..]);
      var h := if Usable(outs[0]) then 1 else 0;
      forall k, l | 0 <= k < l < |idx| ensures idx[k] < idx[l] {
        assert idx[l] == tail[l - h] + 1;
        if k >= h {
          assert idx[k] == tail[k - h] + 1;
        }
      }
    }
  }

  lemma {:induction false} UsableIndicesComplete(outs: seq<Option<string>>)
    ensures forall j :: 0 <= j < |outs| && Usable(outs[j]) ==> j in UsableIndices(outs)
    decreases |outs|
  {
    if |outs| > 0 {
      var rest := outs[1..];
      UsableIndicesComplete(rest);
      var idx, tail := UsableIndices(outs), UsableIndices(rest);
      var h := if Usable(outs[0]) then 1 else 0;
      forall j | 0 <= j < |outs| && Usable(outs[j]) ensures j in idx {
        if j > 0 {
          assert rest[j - 1] == outs[j];
          var t :| 0 <= t < |tail| && tail[t] == j - 1;
          assert idx[h + t] == j;
        }
      }
    }
  }

  /** The survivors are exactly the usable outcomes, in their original chunk
      order: they are picked out by a strictly increasing list of chunk
      positions that misses no usable outcome. */
  lemma SurvivorsKeepChunkOrder(outs: seq<Option<string>>) returns (idx: seq<nat>)
    ensures |idx| == |Survivors(outs)|
    ensures forall k :: 0 <= k < |idx| ==>
      idx[k] < |outs| && Usable(outs[idx[k]]) && Survivors(outs)[k] == outs[idx[k]].value
    ensures forall k, l :: 0 <= k < l < |idx| ==> idx[k] < idx[l]
    ensures forall j :: 0 <= j < |outs| && Usable(outs[j]) ==> j in idx
  {
    idx := UsableIndices(outs);
    UsableIndicesPickSurvivors(outs);
    UsableIndicesIncrease(outs);
    UsableIndicesComplete(outs);
  }

  /** The summaries that reach the synthesis call. */
  function SurvivingSummaries(llm: Llm, version: Version, chunks: seq<string>): seq<string>
  {
    Survivors(ChunkOutcomes(llm, version, chunks))
  }

  /* ---------------- progress ---------------- */

  /** Progress shown after chunk `i` of `n` (integer division on naturals,
      where Python's `//` and Dafny's `/` agree). */
  function ChunkProgress(i: nat, n: nat): int
    requires i < n
  {
    25 + (i + 1) * 50 / n
  }

  lemma MulIsMonotone(x: nat, y: nat, n: nat)
    ensures x >= y ==> x * n >= y * n
  {
  }

  lemma DivIsMonotone(a: nat, b: nat, n: nat)
    requires a <= b && n > 0
    ensures a / n <= b / n
  {
    var qa, qb := a / n, b / n;
    assert qa * n + a % n == a;
    assert qb * n + b % n == b;
    MulIsMonotone(qa, qb + 1, n);
    assert (qb + 1) * n == qb * n + n;
  }

  lemma DivOfMultiple(k: nat, n: nat)
    requires n > 0
    ensures k * n / n == k
  {
    var q := k * n / n;
    assert q * n + (k * n) % n == k * n;
    MulIsMonotone(q, k + 1, n);
    MulIsMonotone(k, q + 1, n);
    assert (k + 1) * n == k * n + n;
    assert (q + 1) * n == q * n + n;
  }

  /** Every per-chunk progress value lies in [25, 75] and the last chunk's is
      exactly 75. */
  lemma ChunkProgressBounds(i: nat, n: nat)
    requires i < n
    ensures 25 <= ChunkProgress(i, n) <= 75
    ensures i == n - 1 ==> ChunkProgress(i, n) == 75
  {
    MulIsMonotone(n, i + 1, 50);
    DivIsMonotone((i + 1) * 50, n * 50, n);
    DivOfMultiple(50, n);
    assert 50 * n == n * 50;
  }

  lemma ChunkProgressMonotone(i: nat, j: nat, n: nat)
    requires i <= j < n
    ensures ChunkProgress(i, n) <= ChunkProgress(j, n)
  {
    MulIsMonotone(j + 1, i + 1, 50);
    DivIsMonotone((i + 1) * 50, (j + 1) * 50, n);
  }

  /* ---------------- the chunk loop ---------------- */

  /** The chunk number passed to `summarize_text_chunk` for chunk `i`:
      1-based in src/llm_handler.py, absent in test_app.py. */
  function ChunkTag(i: nat, version: Version): Option<nat>
  {
    match version
    case Current => Some(i + 1)
    case Legacy => None
  }

  datatype ChunkPass = ChunkPass(survivors: seq<string>, calls: seq<Call>, progress: seq<int>)

  /** The first `k` rounds of the per-chunk loop: one summarise call per
      chunk in chunk order, an unusable summary skipped, the progress value
      set after each chunk. */
  function SummarizeChunks(llm: Llm, chunks: seq<string>, k: nat, version: Version): (p: ChunkPass)
    requires k <= |chunks|
    ensures |p.calls| == k && |p.progress| == k
    ensures forall i :: 0 <= i < k ==> p.calls[i] == SummarizeCall(chunks[i], ChunkTag(i, version))
    ensures forall i :: 0 <= i < k ==> p.progress[i] == ChunkProgress(i, |chunks|)
    ensures p.survivors == Survivors(ChunkOutcomes(llm, version, chunks[..k]))
    decreases k
  {
    if k == 0 then
      ChunkPass([], [], [])
    else
      var prev := SummarizeChunks(llm, chunks, k - 1, version);
      var out := SummarizeTextChunk(llm, version, chunks[k - 1]);
      var call := SummarizeCall(chunks[k - 1], ChunkTag(k - 1, version));
      SurvivorsStep(llm, version, chunks, k);
      assert (prev.calls + [call])[..k - 1] == prev.calls;
      ChunkPass(prev.survivors + (if Usable(out) then [out.value] else []),
                prev.calls + [call],
                prev.progress + [ChunkProgress(k - 1, |chunks|)])
  }

  lemma SurvivorsStep(llm: Llm, version: Version, chunks: seq<string>, k: nat)
    requires 0 < k <= |chunks|
    ensures var out := SummarizeTextChunk(llm, version, chunks[k - 1]);
            Survivors(ChunkOutcomes(llm, version, chunks[..k]))
            == Survivors(ChunkOutcomes(llm, version, chunks[..k - 1])) + (if Usable(out) then [out.value] else [])
  {
    var out := SummarizeTextChunk(llm, version, chunks[k - 1]);
    assert ChunkOutcomes(llm, version, chunks[..k]) == ChunkOutcomes(llm, version, chunks[..k - 1]) + [out];
    SurvivorsAppend(ChunkOutcomes(llm, version, chunks[..k - 1]), [out]);
    assert [out][1..] == [];
  }

  /** After the loop: one synthesis call over the survivors, or `None` and no
      call when none survived. */
  function Finish(llm: Llm, version: Version, survivors: seq<string>): (r: (Option<string>, seq<Call>))
  {
    if |survivors| > 0 then (CreateFinalSummary(llm, version, survivors), [FinalSummaryCall(survivors)])
    else (None, [])
  }

  /** The order of a multi-chunk run over `chunks`: the split call first,
      then one summarise call per chunk in chunk order, then one synthesis
      call over the survivors, or `None` and no synthesis call when none
      survived. */
  ghost predicate MultiChunkOrder(llm: Llm, text: string, chunks: seq<string>,
                                  chunkSize: int, chunkOverlap: int, version: Version,
                                  summary: Option<string>, calls: seq<Call>)
  {
    var n := |chunks|;
    var survivors := SurvivingSummaries(llm, version, chunks);
    && |calls| == 1 + n + (if survivors == [] then 0 else 1)
    && calls[0] == ChunkTextCall(text, chunkSize, chunkOverlap)
    && (forall i :: 0 <= i < n ==> calls[1 + i] == SummarizeCall(chunks[i], ChunkTag(i, version)))
    && (survivors == [] ==> summary == None)
    && (survivors != [] ==>
          calls[n + 1] == FinalSummaryCall(survivors) && summary == CreateFinalSummary(llm, version, survivors))
  }

  /** In a multi-chunk run the split is the first call and the only one. */
  lemma SplitIsFirstCallOnly(llm: Llm, text: string, chunks: seq<string>, chunkSize: int,
                             chunkOverlap: int, version: Version, summary: Option<string>, calls: seq<Call>)
    requires MultiChunkOrder(llm, text, chunks, chunkSize, chunkOverlap, version, summary, calls)
    ensures calls[0] == ChunkTextCall(text, chunkSize, chunkOverlap)
    ensures forall j :: 1 <= j < |calls| ==> !calls[j].ChunkTextCall?
  {
    var n := |chunks|;
    forall j | 1 <= j < |calls| ensures !calls[j].ChunkTextCall? {
      if j <= n {
        assert calls[1 + (j - 1)] == SummarizeCall(chunks[j - 1], ChunkTag(j - 1, version));
      } else {
        assert calls[n + 1] == FinalSummaryCall(SurvivingSummaries(llm, version, chunks));
      }
    }
  }

  /** The call counts of a multi-chunk run: one split, one summarise call per
      chunk, and one synthesis call exactly when some summary survived. */
  ghost predicate MultiChunkCounts(llm: Llm, version: Version, chunks: seq<string>, calls: seq<Call>)
  {
    && Count(calls, Split) == 1
    && Count(calls, Summarize) == |chunks|
    && Count(calls, Synthesis) == (if SurvivingSummaries(llm, version, chunks) == [] then 0 else 1)
  }

  ghost predicate MultiChunkCalls(llm: Llm, text: string, chunks: seq<string>,
                                  chunkSize: int, chunkOverlap: int, version: Version,
                                  summary: Option<string>, calls: seq<Call>)
  {
    && MultiChunkOrder(llm, text, chunks, chunkSize, chunkOverlap, version, summary, calls)
    && MultiChunkCounts(llm, version, chunks, calls)
  }

  /** The multi-chunk path shared by src/llm_handler.py and test_app.py:
      the split call, the chunk loop, then the synthesis step. */
  function MultiChunk(llm: Llm, split: Splitter, text: string, chunkSize: int, chunkOverlap: int,
                      version: Version): (r: Run)
  {
    var chunks := split(text, chunkSize, chunkOverlap);
    var pass := SummarizeChunks(llm, chunks, |chunks|, version);
    var fin := Finish(llm, version, pass.survivors);
    Run(fin.0, [ChunkTextCall(text, chunkSize, chunkOverlap)] + pass.calls + fin.1,
        pass.progress + (if |pass.survivors| > 0 then [90, 100] else []))
  }

  lemma MultiChunkPass(llm: Llm, split: Splitter, text: string, chunkSize: int, chunkOverlap: int,
                       version: Version)
    ensures var chunks := split(text, chunkSize, chunkOverlap);
            SummarizeChunks(llm, chunks, |chunks|, version).survivors == SurvivingSummaries(llm, version, chunks)
  {
    var chunks := split(text, chunkSize, chunkOverlap);
    assert chunks[..|chunks|] == chunks;
  }

  lemma MultiChunkOrdered(llm: Llm, split: Splitter, text: string, chunkSize: int, chunkOverlap: int,
                          version: Version)
    ensures var r := MultiChunk(llm, split, text, chunkSize, chunkOverlap, version);
            MultiChunkOrder(llm, text, split(text, chunkSize, chunkOverlap), chunkSize, chunkOverlap,
                            version, r.summary, r.calls)
  {
    var chunks := split(text, chunkSize, chunkOverlap);
    MultiChunkPass(llm, split, text, chunkSize, chunkOverlap, version);
    PassThenFinishInOrder(llm, text, chunks, chunkSize, chunkOverlap, version,
                          SummarizeChunks(llm, chunks, |chunks|, version));
  }

  /** A complete chunk pass between the split call and the synthesis step
      gives the calls in the order of a multi-chunk run. */
  lemma PassThenFinishInOrder(llm: Llm, text: string, chunks: seq<string>, chunkSize: int,
                              chunkOverlap: int, version: Version, pass: ChunkPass)
    requires |pass.calls| == |chunks|
    requires forall i :: 0 <= i < |chunks| ==> pass.calls[i] == SummarizeCall(chunks[i], ChunkTag(i, version))
    requires pass.survivors == SurvivingSummaries(llm, version, chunks)
    ensures var fin := Finish(llm, version, pass.survivors);
            MultiChunkOrder(llm, text, chunks, chunkSize, chunkOverlap, version, fin.0,
                            [ChunkTextCall(text, chunkSize, chunkOverlap)] + pass.calls + fin.1)
  {
    var n := |chunks|;
    var fin := Finish(llm, version, pass.survivors);
    var rest := pass.calls + fin.1;
    var calls := [ChunkTextCall(text, chunkSize, chunkOverlap)] + pass.calls + fin.1;
    assert calls == [calls[0]] + rest;
    forall i | 0 <= i < n ensures calls[1 + i] == SummarizeCall(chunks[i], ChunkTag(i, version)) {
      assert calls[1 + i] == rest[i] == pass.calls[i];
    }
    if pass.survivors != [] {
      assert calls[n + 1] == rest[n] == fin.1[0];
    }
  }

  lemma MultiChunkCountOf(llm: Llm, split: Splitter, text: string, chunkSize: int, chunkOverlap: int,
                          version: Version, kind: CallKind)
    ensures var r := MultiChunk(llm, split, text, chunkSize, chunkOverlap, version);
            var chunks := split(text, chunkSize, chunkOverlap);
            var finals := if SurvivingSummaries(llm, version, chunks) == [] then 0 else 1;
            Count(r.calls, kind) == match kind case Split => 1 case Summarize => |chunks| case Synthesis => finals
  {
    var chunks := split(text, chunkSize, chunkOverlap);
    MultiChunkPass(llm, split, text, chunkSize, chunkOverlap, version);
    PassThenFinishCounts(llm, version, [ChunkTextCall(text, chunkSize, chunkOverlap)],
                         SummarizeChunks(llm, chunks, |chunks|, version), kind);
  }

  /** The split call, a chunk pass and the synthesis step hold one split
      call, one summarise call per pass round and one synthesis call exactly
      when some summary survived. */
  lemma PassThenFinishCounts(llm: Llm, version: Version, first: seq<Call>, pass: ChunkPass, kind: CallKind)
    requires |first| == 1 && first[0].ChunkTextCall?
    requires forall i :: 0 <= i < |pass.calls| ==> pass.calls[i].SummarizeCall?
    ensures var fin := Finish(llm, version, pass.survivors);
            var finals := if pass.survivors == [] then 0 else 1;
            Count(first + pass.calls + fin.1, kind)
              == match kind case Split => 1 case Summarize => |pass.calls| case Synthesis => finals
  {
    var fin := Finish(llm, version, pass.survivors);
    assert forall i :: 0 <= i < |pass.calls| ==> KindOf(pass.calls[i]) == Summarize;
    CountAllOfKind(pass.calls, Summarize);
    CountAllOfKind(first, Split);
    CountAllOfKind(fin.1, Synthesis);
    CountAppend(first, pass.calls, kind);
    CountAppend(first + pass.calls, fin.1, kind);
  }

  lemma MultiChunkCounted(llm: Llm, split: Splitter, text: string, chunkSize: int, chunkOverlap: int,
                          version: Version)
    ensures var r := MultiChunk(llm, split, text, chunkSize, chunkOverlap, version);
            MultiChunkCounts(llm, version, split(text, chunkSize, chunkOverlap), r.calls)
  {
    MultiChunkCountOf(llm, split, text, chunkSize, chunkOverlap, version, Split);
    MultiChunkCountOf(llm, split, text, chunkSize, chunkOverlap, version, Summarize);
    MultiChunkCountOf(llm, split, text, chunkSize, chunkOverlap, version, Synthesis);
  }

  lemma MultiChunkProgress(llm: Llm, split: Splitter, text: string, chunkSize: int, chunkOverlap: int,
                           version: Version)
    ensures var r := MultiChunk(llm, split, text, chunkSize, chunkOverlap, version);
            var chunks := split(text, chunkSize, chunkOverlap);
            var n := |chunks|;
            && |r.progress| == n + (if SurvivingSummaries(llm, version, chunks) == [] then 0 else 2)
            && (forall i :: 0 <= i < n ==> r.progress[i] == ChunkProgress(i, n))
            && (SurvivingSummaries(llm, version, chunks) != [] ==> r.progress[n..] == [90, 100])
  {
    MultiChunkPass(llm, split, text, chunkSize, chunkOverlap, version);
  }

  /** The progress values of either path never go down and stay in [25, 100]. */
  lemma ProgressWellFormed(p: seq<int>, n: nat, tail: seq<int>)
    requires |p| == n + |tail|
    requires forall i :: 0 <= i < n ==> p[i] == ChunkProgress(i, n)
    requires p[n..] == tail
    requires tail == [] || tail == [90, 100]
    ensures Nondecreasing(p)
    ensures forall k :: 0 <= k < |p| ==> 25 <= p[k] <= 100
  {
    forall i, j | 0 <= i <= j < |p| ensures p[i] <= p[j] {
      if j < n {
        ChunkProgressMonotone(i, j, n);
      } else if i < n {
        ChunkProgressBounds(i, n);
        assert p[j] == tail[j - n];
      } else {
        assert p[i] == tail[i - n] && p[j] == tail[j - n];
      }
    }
    forall k | 0 <= k < |p| ensures 25 <= p[k] <= 100 {
      if k < n {
        ChunkProgressBounds(k, n);
      } else {
        assert p[k] == tail[k - n];
      }
    }
  }

  /* ---------------- process_document ---------------- */

  /** `process_document` of src/llm_handler.py.

      Short text: one summarise call on the whole text, no split, and that
      call's result returned as it is. Long text: the split with the caller's
      chunk size and overlap, the chunk loop, and the synthesis over the
      survivors. The progress bar moves 75, 100 on the short path and through
      the per-chunk values, then 90, 100 on the long one. */
  function ProcessDocument(text: string, llm: Llm, split: Splitter,
                           chunkSize: int, chunkOverlap: int): (run: Run)
    ensures |text| <= SingleChunkLimit ==>
      && run.calls == [SummarizeCall(text, None)]
      && run.summary == SummarizeTextChunk(llm, Current, text)
      && run.progress == [75, 100]
      && Count(run.calls, Summarize) == 1 && Count(run.calls, Split) == 0
      && Count(run.calls, Synthesis) == 0
    ensures |text| > SingleChunkLimit ==>
      MultiChunkCalls(llm, text, split(text, chunkSize, chunkOverlap), chunkSize, chunkOverlap,
                      Current, run.summary, run.calls)
    ensures |text| > SingleChunkLimit ==>
      var n := |split(text, chunkSize, chunkOverlap)|;
      n <= |run.progress| && forall i :: 0 <= i < n ==> run.progress[i] == ChunkProgress(i, n)
    ensures Nondecreasing(run.progress)
    ensures forall k :: 0 <= k < |run.progress| ==> 25 <= run.progress[k] <= 100
  {
    if |text| <= SingleChunkLimit then
      assert [SummarizeCall(text, None)][..0] == [];
      Run(SummarizeTextChunk(llm, Current, text), [SummarizeCall(text, None)], [75, 100])
    else
      var n := |split(text, chunkSize, chunkOverlap)|;
      var run := MultiChunk(llm, split, text, chunkSize, chunkOverlap, Current);
      MultiChunkOrdered(llm, split, text, chunkSize, chunkOverlap, Current);
      MultiChunkCounted(llm, split, text, chunkSize, chunkOverlap, Current);
      MultiChunkProgress(llm, split, text, chunkSize, chunkOverlap, Current);
      ProgressWellFormed(run.progress, n, run.progress[n..]);
      run
  }

  /** When every chunk summary fails or is empty, a long text yields `None`
      and the synthesis call is never made. */
  lemma AllChunksFailNoSynthesis(text: string, llm: Llm, split: Splitter, chunkSize: int, chunkOverlap: int)
    requires |text| > SingleChunkLimit
    requires forall i :: 0 <= i < |split(text, chunkSize, chunkOverlap)| ==>
      !Usable(SummarizeTextChunk(llm, Current, split(text, chunkSize, chunkOverlap)[i]))
    ensures ProcessDocument(text, llm, split, chunkSize, chunkOverlap).summary == None
    ensures Count(ProcessDocument(text, llm, split, chunkSize, chunkOverlap).calls, Synthesis) == 0
  {
    var chunks := split(text, chunkSize, chunkOverlap);
    SurvivorsEmptyIff(ChunkOutcomes(llm, Current, chunks));
  }

  /** When at least one chunk summary is usable, exactly one synthesis call
      is made, on the survivors only, and its result is the run's result. */
  lemma SomeChunkSucceedsSynthesis(text: string, llm: Llm, split: Splitter, chunkSize: int,
                                   chunkOverlap: int, j: nat)
    requires |text| > SingleChunkLimit
    requires j < |split(text, chunkSize, chunkOverlap)|
    requires Usable(SummarizeTextChunk(llm, Current, split(text, chunkSize, chunkOverlap)[j]))
    ensures var run := ProcessDocument(text, llm, split, chunkSize, chunkOverlap);
            var survivors := SurvivingSummaries(llm, Current, split(text, chunkSize, chunkOverlap));
            && Count(run.calls, Synthesis) == 1
            && run.calls[|run.calls| - 1] == FinalSummaryCall(survivors)
            && run.summary == CreateFinalSummary(llm, Current, survivors)
  {
    var chunks := split(text, chunkSize, chunkOverlap);
    SurvivorsEmptyIff(ChunkOutcomes(llm, Current, chunks));
    assert ChunkOutcomes(llm, Current, chunks)[j] == SummarizeTextChunk(llm, Current, chunks[j]);
  }
}
