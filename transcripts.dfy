/** The transcript record the speech-recognition step writes and the search layer reads. */
module Transcripts {

  datatype Option<+T> = None | Some(value: T)

  /** The value stored under a transcript's "text" key: a string, or anything that is not
      one (the key missing, `null`, a number, ...). */
  datatype TextField = Str(value: string) | NotString {
    /** Python's `text or ""`: a missing or null text reads as the empty string. */
    function OrEmpty(): string {
      if Str? then value else ""
    }
  }

  /** A timestamped span of speech; a segment without a "text" key has text "". */
  datatype Segment = Segment(text: string, start: Option<real>, end: Option<real>)

  /** One transcription: full text, segments in time order, language code. */
  datatype Transcript = Transcript(text: TextField, segments: seq<Segment>, language: string)

  /** One search hit: the matched text, its time span when it comes from a segment, and a score. */
  datatype SearchResult = SearchResult(text: string, start: Option<real>, end: Option<real>, score: real)
}
