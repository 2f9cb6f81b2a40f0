/** Case-insensitive substring search over a transcript's segments (`keyword_search_segments`). */
module KeywordSearch {
  import opened Text
  import opened Transcripts
  import opened Positions

  /** The query as it is compared: lower-cased, then stripped. */
  function NormalizeQuery(query: string): string {
    Strip(Lower(query))
  }

  /** A segment is a hit when its stripped text is non-empty and, lower-cased, contains `q`. */
  predicate Matches(seg: Segment, q: string) {
    var text := Strip(seg.text);
    text != "" && Contains(Lower(text), q)
  }

  /** The result a matching segment yields: its stripped text, its own times, score 1.0. */
  function SegmentHit(seg: Segment): SearchResult {
    SearchResult(Strip(seg.text), seg.start, seg.end, 1.0)
  }

  /** The match test for the normalised query `q`, as a function on segments. */
  function MatchTest(q: string): Segment -> bool {
    (seg: Segment) => Matches(seg, q)
  }

  /** The hit of each segment passing `test`, in segment order. */
  function HitsWhere(segs: seq<Segment>, test: Segment -> bool): seq<SearchResult> {
    var m := TrueIndices(Flags(segs, test));
    seq(|m|, k requires 0 <= k < |m| => SegmentHit(segs[m[k]]))
  }

  /** One more segment adds its hit at the end when it passes, and nothing otherwise. */
  lemma HitsWhereSnoc(segs: seq<Segment>, test: Segment -> bool, i: nat)
    requires i < |segs|
    ensures HitsWhere(segs[..i + 1], test) ==
      HitsWhere(segs[..i], test) + (if test(segs[i]) then [SegmentHit(segs[i])] else [])
  {
    var f := Flags(segs[..i + 1], test);
    assert f[..i] == Flags(segs[..i], test);
  }

  /** The positions of the matching segments, in segment order. */
  function MatchingIndices(segs: seq<Segment>, q: string): seq<nat> {
    TrueIndices(Flags(segs, MatchTest(q)))
  }

  /** The hits of the segment loop: the k-th hit is the k-th matching segment's hit. */
  function SegmentHits(segs: seq<Segment>, q: string): seq<SearchResult> {
    HitsWhere(segs, MatchTest(q))
  }

  /** The whole-text hit tried only when the transcript has no segments. */
  function WholeTextHits(t: Transcript, q: string): (r: seq<SearchResult>)
    ensures |r| <= 1
    ensures r != [] <==> t.segments == [] && Contains(Lower(t.text.OrEmpty()), q)
    ensures forall h :: h in r ==> h.text == t.text.OrEmpty() && h.start == None && h.end == None && h.score == 1.0
  {
    if t.segments == [] && Contains(Lower(t.text.OrEmpty()), q) then
      [SearchResult(t.text.OrEmpty(), None, None, 1.0)]
    else
      []
  }

  /** What keyword search returns for `query` on `t`. */
  function KeywordHits(t: Transcript, query: string): (r: seq<SearchResult>)
    ensures |r| <= if t.segments == [] then 1 else |t.segments|
    ensures forall h :: h in r ==> h.score == 1.0
  {
    var q := NormalizeQuery(query);
    TrueIndicesLength(Flags(t.segments, MatchTest(q)));
    SegmentHits(t.segments, q) + WholeTextHits(t, q)
  }

  /** Every result's text, lower-cased, contains the normalised query, and scores 1.0. */
  lemma KeywordHitsContainQuery(t: Transcript, query: string)
    ensures forall r :: r in KeywordHits(t, query) ==>
      Contains(Lower(r.text), NormalizeQuery(query)) && r.score == 1.0
  {
    var q := NormalizeQuery(query);
    var hits := SegmentHits(t.segments, q);
    var m := MatchingIndices(t.segments, q);
    forall r | r in hits ensures Contains(Lower(r.text), q) && r.score == 1.0 {
      var k :| 0 <= k < |hits| && hits[k] == r;
      assert Matches(t.segments[m[k]], q);
    }
  }

  /** Every segment with non-blank text that contains the normalised query is found. */
  lemma KeywordFindsEveryMatch(t: Transcript, query: string, i: nat)
    requires i < |t.segments|
    requires Matches(t.segments[i], NormalizeQuery(query))
    ensures SegmentHit(t.segments[i]) in KeywordHits(t, query)
  {
    var q := NormalizeQuery(query);
    var m := MatchingIndices(t.segments, q);
    assert Flags(t.segments, MatchTest(q))[i];
    var k :| 0 <= k < |m| && m[k] == i;
    assert SegmentHits(t.segments, q)[k] == SegmentHit(t.segments[i]);
  }

  /** With segments present, the results are the matching segments' hits in segment order:
      blank segments give nothing, each hit has the stripped segment text and its times,
      and the whole-text fallback never fires. */
  lemma KeywordHitsFromSegments(t: Transcript, query: string)
    requires t.segments != []
    ensures var hits, m := KeywordHits(t, query), MatchingIndices(t.segments, NormalizeQuery(query));
      |hits| == |m| &&
      forall k :: 0 <= k < |m| ==>
        hits[k] == SearchResult(Strip(t.segments[m[k]].text), t.segments[m[k]].start, t.segments[m[k]].end, 1.0)
        && Strip(t.segments[m[k]].text) != ""
  {
    var q := NormalizeQuery(query);
    assert KeywordHits(t, query) == SegmentHits(t.segments, q);
  }

  /** Without segments the search tests the whole text: one hit carrying the text as it is
      and no times when the lower-cased text contains the query, none otherwise. */
  lemma KeywordWholeTextFallback(t: Transcript, query: string)
    requires t.segments == []
    ensures var hits := KeywordHits(t, query);
      (|hits| == 1 <==> Contains(Lower(t.text.OrEmpty()), NormalizeQuery(query)))
      && |hits| <= 1
      && forall r :: r in hits ==> r == SearchResult(t.text.OrEmpty(), None, None, 1.0)
  {
    assert SegmentHits(t.segments, NormalizeQuery(query)) == [];
  }

  /** Of two segments, only the first passing `test` gives just the first one's hit. */
  lemma HitsWhereFirstOfTwo(segs: seq<Segment>, test: Segment -> bool)
    requires |segs| == 2 && test(segs[0]) && !test(segs[1])
    ensures HitsWhere(segs, test) == [SegmentHit(segs[0])]
  {
    var f := Flags(segs, test);
    assert f == [true, false];
    assert TrueIndices(f) == [0] by {
      TrueIndicesSnoc([], true);
      TrueIndicesSnoc([true], false);
      assert [] + [true] == [true] && [true] + [false] == [true, false];
    }
  }

  /** Two segments of which only the first matches give exactly the first one's hit. */
  lemma FirstOfTwoMatches(t: Transcript, query: string)
    requires |t.segments| == 2
    requires Matches(t.segments[0], NormalizeQuery(query)) && !Matches(t.segments[1], NormalizeQuery(query))
    ensures KeywordHits(t, query) == [SegmentHit(t.segments[0])]
  {
    var q := NormalizeQuery(query);
    HitsWhereFirstOfTwo(t.segments, MatchTest(q));
    assert WholeTextHits(t, q) == [];
  }

  /** Two segments "hola mundo" (0.0 to 1.2) and "adios" (1.2 to 2.0): the query "mundo"
      finds the first segment only, with its times and score 1.0. */
  lemma HolaMundoScenario()
    ensures var t := Transcript(Str(""), [Segment("hola mundo", Some(0.0), Some(1.2)),
                                          Segment("adios", Some(1.2), Some(2.0))], "es");
      KeywordHits(t, "mundo") == [SearchResult("hola mundo", Some(0.0), Some(1.2), 1.0)]
  {
    var t := Transcript(Str(""), [Segment("hola mundo", Some(0.0), Some(1.2)),
                                  Segment("adios", Some(1.2), Some(2.0))], "es");
    MundoIsNormal();
    HolaMundoMatches();
    AdiosMisses();
    StripOfTrimmed("hola mundo");
    FirstOfTwoMatches(t, "mundo");
  }

  lemma MundoIsNormal()
    ensures NormalizeQuery("mundo") == "mundo"
  {
    assert Lower("mundo") == "mundo";
    StripOfTrimmed("mundo");
  }

  lemma HolaMundoMatches()
    ensures Matches(Segment("hola mundo", Some(0.0), Some(1.2)), "mundo")
  {
    StripOfTrimmed("hola mundo");
    assert Lower("hola mundo") == "hola mundo";
    assert OccursAt("hola mundo", "mundo", 5);
    ContainsIffOccurs("hola mundo", "mundo");
  }

  lemma AdiosMisses()
    ensures !Matches(Segment("adios", Some(1.2), Some(2.0)), "mundo")
  {
    StripOfTrimmed("adios");
    assert Lower("adios") == "adios";
    assert "adios"[0] != "mundo"[0];
    ContainsIffOccurs("adios", "mundo");
  }

  /** The segment loop, appending each matching segment's hit, then the whole-text fallback. */
  method KeywordSearchSegments(t: Transcript, query: string) returns (results: seq<SearchResult>)
    ensures results == KeywordHits(t, query)
  {
    var queryLower := Strip(Lower(query));
    var segments := t.segments;
    results := [];
    for i := 0 to |segments|
      invariant results == SegmentHits(segments[..i], queryLower)
    {
      HitsWhereSnoc(segments, MatchTest(queryLower), i);
      var text := Strip(segments[i].text);
      if text == "" {
        continue;
      }
      if Contains(Lower(text), queryLower) {
        results := results + [SearchResult(text, segments[i].start, segments[i].end, 1.0)];
      }
    }
    assert segments[..|segments|] == segments;
    if segments == [] && Contains(Lower(t.text.OrEmpty()), queryLower) {
      results := results + [SearchResult(t.text.OrEmpty(), None, None, 1.0)];
    }
  }
}
