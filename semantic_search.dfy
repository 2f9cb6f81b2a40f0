/** Top-k retrieval of transcript segments by embedding similarity (`semantic_search_segments`).
    The embedding model and cosine similarity are an abstract `similarity` function: what is
    modelled is the candidate list, the fallback to the whole text, the top-k selection and
    the mapping of each pick back to its segment. */
module SemanticSearch {
  import opened Text
  import opened Transcripts
  import opened SemanticModel
  import opened Positions

  /** A non-blank segment: its position in the segment list and its stripped text. */
  datatype Candidate = Candidate(index: nat, text: string)

  /** The segment has some non-whitespace text. */
  function NonBlank(): Segment -> bool {
    (seg: Segment) => Strip(seg.text) != ""
  }

  /** The `indexed` list: one candidate per segment whose stripped text is non-empty, in
      segment order. */
  function Candidates(segs: seq<Segment>): (c: seq<Candidate>)
    ensures |c| <= |segs|
    ensures forall p :: 0 <= p < |c| ==>
      c[p].index < |segs| && c[p].text == Strip(segs[c[p].index].text) && c[p].text != ""
    ensures forall p, p' :: 0 <= p < p' < |c| ==> c[p].index < c[p'].index
  {
    var f := Flags(segs, NonBlank());
    assert |f| == |segs| && forall i :: 0 <= i < |f| ==> f[i] == (Strip(segs[i].text) != "");
    var m := TrueIndices(f);
    TrueIndicesLength(f);
    seq(|m|, k requires 0 <= k < |m| => Candidate(m[k], Strip(segs[m[k]].text)))
  }

  /** Every segment with non-blank text is a candidate: the position `p` at which it stands. */
  lemma CandidateOf(segs: seq<Segment>, i: nat) returns (p: nat)
    requires i < |segs| && Strip(segs[i].text) != ""
    ensures p < |Candidates(segs)| && Candidates(segs)[p].index == i
  {
    var f := Flags(segs, NonBlank());
    assert f[i];
    var m := TrueIndices(f);
    p :| 0 <= p < |m| && m[p] == i;
  }

  /** Candidate `i` is ranked before candidate `j`: a higher score, or the same score and an
      earlier position. */
  predicate Ranks(scores: seq<real>, i: nat, j: nat)
    requires i < |scores| && j < |scores|
  {
    scores[i] > scores[j] || (scores[i] == scores[j] && i < j)
  }

  /** The positions 0, 1, ..., n - 1 in order. */
  function Iota(n: nat): (r: seq<nat>)
    ensures |r| == n
    ensures forall i :: 0 <= i < n ==> r[i] == i
  {
    if n == 0 then [] else Iota(n - 1) + [n - 1]
  }

  function Min(a: int, b: int): int {
    if a <= b then a else b
  }

  /** The state of the top-k selection: `picks` ranked best first, `rest` the positions not
      picked yet in increasing order, and every pick ranked before every position left. */
  predicate Selecting(scores: seq<real>, picks: seq<nat>, rest: seq<nat>) {
    |picks| + |rest| == |scores|
    && (forall j :: 0 <= j < |picks| ==> picks[j] < |scores|)
    && (forall q :: 0 <= q < |rest| ==> rest[q] < |scores| && rest[q] !in picks)
    && (forall q, q' :: 0 <= q < q' < |rest| ==> rest[q] < rest[q'])
    && (forall p :: 0 <= p < |scores| && p !in picks ==> p in rest)
    && (forall a, b :: 0 <= a < b < |picks| ==> Ranks(scores, picks[a], picks[b]))
    && (forall j, q :: 0 <= j < |picks| && 0 <= q < |rest| ==> Ranks(scores, picks[j], rest[q]))
  }

  /** The position in `rest` of its best-ranked element: the first of the highest scores. */
  method BestOf(scores: seq<real>, rest: seq<nat>) returns (best: nat)
    requires rest != []
    requires forall q :: 0 <= q < |rest| ==> rest[q] < |scores|
    requires forall q, q' :: 0 <= q < q' < |rest| ==> rest[q] < rest[q']
    ensures best < |rest|
    ensures forall q :: 0 <= q < |rest| && q != best ==> Ranks(scores, rest[best], rest[q])
  {
    best := 0;
    for i := 1 to |rest|
      invariant best < i
      invariant forall q :: 0 <= q < i && q != best ==> Ranks(scores, rest[best], rest[q])
    {
      if scores[rest[i]] > scores[rest[best]] {
        best := i;
      }
    }
  }

  /** Moving the best-ranked remaining position to the end of the picks keeps the selection
      state. */
  lemma TakeBest(scores: seq<real>, picks: seq<nat>, rest: seq<nat>, best: nat)
    requires Selecting(scores, picks, rest) && best < |rest|
    requires forall q :: 0 <= q < |rest| && q != best ==> Ranks(scores, rest[best], rest[q])
    ensures Selecting(scores, picks + [rest[best]], rest[..best] + rest[best + 1..])
  {
    var chosen := rest[best];
    var picks', rest' := picks + [chosen], rest[..best] + rest[best + 1..];
    assert |rest'| == |rest| - 1;
    forall q | 0 <= q < |rest'| ensures rest'[q] == rest[if q < best then q else q + 1] {
    }
    forall q | 0 <= q < |rest'| ensures rest'[q] < |scores| && rest'[q] !in picks' {
      assert rest'[q] != chosen;
    }
    forall j, q | 0 <= j < |picks'| && 0 <= q < |rest'| ensures Ranks(scores, picks'[j], rest'[q]) {
      if j < |picks| {
        assert picks'[j] == picks[j];
      }
    }
    forall p | 0 <= p < |scores| && p !in picks' ensures p in rest' {
      var q :| 0 <= q < |rest| && rest[q] == p;
      assert rest'[if q < best then q else q - 1] == p;
    }
    forall a, b | 0 <= a < b < |picks'| ensures Ranks(scores, picks'[a], picks'[b]) {
      if b < |picks| {
        assert picks'[a] == picks[a] && picks'[b] == picks[b];
      }
    }
  }

  /** `scores.topk(k)`: the positions of the `k` best scores, best first, each position at
      most once, and every position left out ranked after every position picked. */
  method TopK(scores: seq<real>, k: nat) returns (picks: seq<nat>)
    requires k <= |scores|
    ensures |picks| == k
    ensures forall j :: 0 <= j < |picks| ==> picks[j] < |scores|
    ensures forall a, b :: 0 <= a < b < |picks| ==> Ranks(scores, picks[a], picks[b])
    ensures forall p, j :: 0 <= p < |scores| && p !in picks && 0 <= j < |picks| ==>
      Ranks(scores, picks[j], p)
  {
    picks := [];
    var rest: seq<nat> := Iota(|scores|);
    forall p | 0 <= p < |scores| ensures p in rest {
      assert rest[p] == p;
    }
    while |picks| < k
      invariant |picks| <= k && Selecting(scores, picks, rest)
    {
      var best := BestOf(scores, rest);
      TakeBest(scores, picks, rest, best);
      picks := picks + [rest[best]];
      rest := rest[..best] + rest[best + 1..];
    }
  }

  /** The result a picked segment gives: its stripped text, its times and its score. */
  function SegmentResult(seg: Segment, score: string -> real): SearchResult {
    SearchResult(Strip(seg.text), seg.start, seg.end, score(Strip(seg.text)))
  }

  /** The score of each candidate's text, in candidate order. */
  function CandidateScores(indexed: seq<Candidate>, score: string -> real): (s: seq<real>)
  {
    seq(|indexed|, p requires 0 <= p < |indexed| => score(indexed[p].text))
  }

  /** What `TopK` promises about `top` for the scores `scores`. */
  predicate IsTop(scores: seq<real>, top: seq<nat>) {
    (forall j :: 0 <= j < |top| ==> top[j] < |scores|)
    && (forall a, b :: 0 <= a < b < |top| ==> Ranks(scores, top[a], top[b]))
    && (forall p, j :: 0 <= p < |scores| && p !in top && 0 <= j < |top| ==> Ranks(scores, top[j], p))
  }

  /** Candidate positions mapped back to segment positions. */
  function SegmentIndices(indexed: seq<Candidate>, top: seq<nat>): (picked: seq<nat>)
    requires forall j :: 0 <= j < |top| ==> top[j] < |indexed|
  {
    seq(|top|, j requires 0 <= j < |top| => indexed[top[j]].index)
  }

  /** Picks ranked by score stay ranked once mapped to segments: equal scores keep segment
      order, since candidates are in segment order. */
  lemma PicksInSegmentOrder(segments: seq<Segment>, scores: seq<real>, top: seq<nat>)
    requires |scores| == |Candidates(segments)| && IsTop(scores, top)
    ensures var picked := SegmentIndices(Candidates(segments), top);
      forall a, b :: 0 <= a < b < |top| ==>
        scores[top[a]] > scores[top[b]] || (scores[top[a]] == scores[top[b]] && picked[a] < picked[b])
  {
    var indexed := Candidates(segments);
    forall a, b | 0 <= a < b < |top|
      ensures scores[top[a]] > scores[top[b]] || (scores[top[a]] == scores[top[b]] && indexed[top[a]].index < indexed[top[b]].index)
    {
      assert Ranks(scores, top[a], top[b]);
    }
  }

  /** A non-blank segment that was not picked scores no higher than any pick. */
  lemma UnpickedScoresNoHigher(segments: seq<Segment>, score: string -> real, top: seq<nat>, i: nat, j: nat)
    requires IsTop(CandidateScores(Candidates(segments), score), top)
    requires i < |segments| && Strip(segments[i].text) != "" && j < |top|
    requires i !in SegmentIndices(Candidates(segments), top)
    ensures score(Strip(segments[i].text)) <= CandidateScores(Candidates(segments), score)[top[j]]
  {
    var indexed := Candidates(segments);
    var scores := CandidateScores(indexed, score);
    var picked := SegmentIndices(indexed, top);
    var p := CandidateOf(segments, i);
    forall l | 0 <= l < |top| ensures top[l] != p {
      assert picked[l] in picked;
    }
    assert p < |scores| && p !in top;
    assert Ranks(scores, top[j], p);
  }

  /** The segment branch of the search: score every candidate, take the top
      `min(topK, len(indexed))` and map each pick back to its segment. The ghost `picked`
      lists the segment each result comes from. */
  method RankCandidates(segments: seq<Segment>, score: string -> real, topK: nat)
    returns (results: seq<SearchResult>, ghost picked: seq<nat>)
    requires Candidates(segments) != []
    ensures |results| == Min(topK, |Candidates(segments)|) && |picked| == |results|
    ensures forall j :: 0 <= j < |results| ==>
      picked[j] < |segments| && Strip(segments[picked[j]].text) != "" &&
      results[j] == SegmentResult(segments[picked[j]], score)
    ensures forall a, b :: 0 <= a < b < |results| ==>
      results[a].score > results[b].score || (results[a].score == results[b].score && picked[a] < picked[b])
    ensures forall i, j :: 0 <= i < |segments| && Strip(segments[i].text) != "" && i !in picked && 0 <= j < |results| ==>
      score(Strip(segments[i].text)) <= results[j].score
  {
    var indexed := Candidates(segments);
    var cosScores := CandidateScores(indexed, score);
    var top := TopK(cosScores, Min(topK, |indexed|));
    picked := SegmentIndices(indexed, top);
    results := [];
    for j := 0 to |top|
      invariant |results| == j
      invariant forall l :: 0 <= l < j ==>
        results[l] == SegmentResult(segments[picked[l]], score) && results[l].score == cosScores[top[l]]
    {
      var seg := segments[indexed[top[j]].index];
      results := results + [SegmentResult(seg, score)];
    }
    PicksInSegmentOrder(segments, cosScores, top);
    forall i, j | 0 <= i < |segments| && Strip(segments[i].text) != "" && i !in picked && 0 <= j < |results|
      ensures score(Strip(segments[i].text)) <= results[j].score
    {
      UnpickedScoresNoHigher(segments, score, top, i, j);
    }
  }

  /** What semantic search returns once the model lookup gave `model`, with `picked` the
      segment behind each result. No model: nothing. No non-blank segment: the stripped whole
      text with no times and its score, or nothing when that text is blank. Otherwise
      `min(topK, len(indexed))` results, each the stripped text, times and score of a distinct
      non-blank segment, best score first with ties in segment order, and no segment left out
      scoring higher than any result. `similarity(m, query, text)` stands for the cosine
      similarity of the embeddings of `query` and `text` under model `m`. */
  predicate SemanticAnswer(model: Option<Model>, t: Transcript, query: string, topK: nat,
                           similarity: (Model, string, string) -> real,
                           results: seq<SearchResult>, picked: seq<nat>)
  {
    (model.None? ==> results == [])
    && (model.Some? && Candidates(t.segments) == [] ==>
          var full := Strip(t.text.OrEmpty());
          (full == "" ==> results == []) &&
          (full != "" ==> results == [SearchResult(full, None, None, similarity(model.value, query, full))]))
    && (model.Some? && Candidates(t.segments) != [] ==>
          |results| == Min(topK, |Candidates(t.segments)|) && |picked| == |results|
          && (forall j :: 0 <= j < |results| ==>
                picked[j] < |t.segments| && Strip(t.segments[picked[j]].text) != "" &&
                results[j] == SegmentResult(t.segments[picked[j]], (text: string) => similarity(model.value, query, text)))
          && (forall a, b :: 0 <= a < b < |results| ==>
                results[a].score > results[b].score || (results[a].score == results[b].score && picked[a] < picked[b]))
          && (forall i, j :: 0 <= i < |t.segments| && Strip(t.segments[i].text) != "" && i !in picked && 0 <= j < |results| ==>
                similarity(model.value, query, Strip(t.segments[i].text)) <= results[j].score))
  }

  /** A semantic answer holds at most `topK` results from segments, or else the single
      whole-text result, which has no times. */
  lemma SemanticAnswerBound(model: Option<Model>, t: Transcript, query: string, topK: nat,
                            similarity: (Model, string, string) -> real,
                            results: seq<SearchResult>, picked: seq<nat>)
    requires SemanticAnswer(model, t, query, topK, similarity, results, picked)
    ensures results != [] ==> model.Some?
    ensures Candidates(t.segments) != [] ==> |results| <= topK
    ensures Candidates(t.segments) == [] ==>
      |results| <= 1 && forall r :: r in results ==> r.start == None && r.end == None
  {
  }

  /** The scores of a semantic answer never increase from one result to the next. */
  lemma SemanticAnswerOrdered(model: Option<Model>, t: Transcript, query: string, topK: nat,
                              similarity: (Model, string, string) -> real,
                              results: seq<SearchResult>, picked: seq<nat>)
    requires SemanticAnswer(model, t, query, topK, similarity, results, picked)
    ensures forall a, b :: 0 <= a < b < |results| ==> results[a].score >= results[b].score
  {
  }

  /** Semantic search once the model lookup is done (`model` is what the loader returned).
      The ghost `picked` lists the segment each result comes from. */
  method SemanticSearchWith(model: Option<Model>, t: Transcript, query: string, topK: nat,
                            similarity: (Model, string, string) -> real)
    returns (results: seq<SearchResult>, ghost picked: seq<nat>)
    ensures SemanticAnswer(model, t, query, topK, similarity, results, picked)
  {
    picked := [];
    if model.None? {
      return [], [];
    }
    var m := model.value;
    if Candidates(t.segments) == [] {
      var fullText := Strip(t.text.OrEmpty());
      if fullText == "" {
        return [], [];
      }
      return [SearchResult(fullText, None, None, similarity(m, query, fullText))], [];
    }
    results, picked := RankCandidates(t.segments, (text: string) => similarity(m, query, text), topK);
  }

  /** `semantic_search_segments`: ask the holder for the model (loading it if need be), then
      search with whatever model the holder then holds. */
  method SemanticSearchSegments(holder: ModelHolder, attempt: Option<Model>, t: Transcript, query: string,
                                topK: nat, similarity: (Model, string, string) -> real)
    returns (results: seq<SearchResult>, ghost picked: seq<nat>)
    modifies holder
    ensures old(holder.semanticModel).Some? ==>
      holder.semanticModel == old(holder.semanticModel) && holder.loaderCalls == old(holder.loaderCalls)
    ensures old(holder.semanticModel).None? ==>
      holder.semanticModel == attempt && holder.loaderCalls == old(holder.loaderCalls) + 1
    ensures SemanticAnswer(holder.semanticModel, t, query, topK, similarity, results, picked)
    ensures results != [] ==> holder.semanticModel.Some?
    ensures Candidates(t.segments) != [] ==> |results| <= topK
    ensures Candidates(t.segments) == [] ==>
      |results| <= 1 && forall r :: r in results ==> r.start == None && r.end == None
  {
    var model := holder.Load(attempt);
    results, picked := SemanticSearchWith(model, t, query, topK, similarity);
    SemanticAnswerBound(model, t, query, topK, similarity, results, picked);
  }
}
