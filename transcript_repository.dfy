/** The display-text helper of the transcript store (`get_transcript_text`). */
module TranscriptRepository {
  import opened Text
  import opened Transcripts

  /** The segments' texts in order (`seg.get("text", "")` for each segment). */
  function SegmentTexts(segs: seq<Segment>): (r: seq<string>)
  {
    seq(|segs|, i requires 0 <= i < |segs| => segs[i].text)
  }

  /** The text shown for a transcript: its own "text" when that is a string with some
      non-whitespace character, otherwise the segments' texts joined by single spaces and
      stripped, and "" when there are no segments. */
  function GetTranscriptText(t: Transcript): (r: string)
    ensures t.text.Str? && !IsBlank(t.text.value) ==> r == t.text.value
    ensures !(t.text.Str? && !IsBlank(t.text.value)) && t.segments == [] ==> r == ""
    ensures !(t.text.Str? && !IsBlank(t.text.value)) && t.segments != [] ==>
      r == Strip(JoinSpace(SegmentTexts(t.segments)))
    ensures !(t.text.Str? && !IsBlank(t.text.value)) ==>
      r == [] || (!IsSpace(r[0]) && !IsSpace(r[|r| - 1]))
    ensures r == [] || !IsBlank(r)
  {
    StripEmptyIffBlank(t.text.OrEmpty());
    StripEmptyIffBlank(JoinSpace(SegmentTexts(t.segments)));
    if t.text.Str? && Strip(t.text.value) != "" then
      t.text.value
    else if t.segments != [] then
      Strip(JoinSpace(SegmentTexts(t.segments)))
    else
      ""
  }

  /** Showing a transcript whose text is the shown text of another gives the same text:
      the display text is a fixed point of the helper. */
  lemma GetTranscriptTextStable(t: Transcript, language: string)
    ensures var shown := GetTranscriptText(t);
      GetTranscriptText(Transcript(Str(shown), [], language)) == shown
  {
  }

  /** A segment without text still contributes its separator, so the join can hold two
      spaces in a row: segments "hola", "" and "mundo" show as "hola  mundo". */
  lemma EmptySegmentKeepsBothSpaces()
    ensures GetTranscriptText(Transcript(NotString,
      [Segment("hola", None, None), Segment("", None, None), Segment("mundo", None, None)], "es"))
      == "hola  mundo"
  {
    var segs := [Segment("hola", None, None), Segment("", None, None), Segment("mundo", None, None)];
    assert SegmentTexts(segs) == ["hola", "", "mundo"];
    var joined := JoinSpace(["hola", "", "mundo"]);
    assert joined == "hola  mundo";
    assert !IsSpace(joined[0]) && !IsSpace(joined[|joined| - 1]);
    StripUnique(joined, 0, |joined|);
  }
}
