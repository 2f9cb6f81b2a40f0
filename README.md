# Transcript search, modelled in Dafny

The repository transcribes audio with a speech-recognition model (the language is a form
field whose default is Spanish, "es") and stores each transcript as a record of full text,
time-stamped segments and a language code. A small web application uploads audio, shows one
transcript at a time and searches it. This project models the search layer
and the display-text helper:

- `keyword_search_segments` (`KeywordSearch`). It is a case-insensitive substring search
  over the stripped segment texts. When there are no segments, it tests the whole text.
- `semantic_search_segments` (`SemanticSearch`). It picks the top-k non-blank segments by
  similarity to the query, and falls back to the whole text. Embedding and cosine
  similarity are an abstract `similarity` parameter.
- `load_semantic_model` (`SemanticModel`). This is the lazily loaded, process-wide
  embedding model: a class whose `semanticModel` field is the global.
- `allowed_file` and the mode dispatch of the search route (`WebApp`). `SearchInTranscript`
  follows the route step by step, and `Dispatch` is the pure function that specifies it.
- `get_transcript_text` (`TranscriptRepository`).
- The Python string operations these rely on (`Text`): `str.strip`, `str.lower`, `in` on
  strings and `" ".join`.
- The "positions whose element passes a test" comprehension (`Positions`).

The loader's outcome (a model or an exception) is a parameter of `ModelHolder.Load`. The
transcript file's content, or its absence, is a parameter of `SearchInTranscript`. The
similarity score is a function parameter.

Behaviour of the code that the model keeps on purpose:

- A failed load leaves the global `None`, so the next search tries to load again; loading
  is never given up for good (`src/web_app.py:37-40`). `ModelHolder.Load` and
  `SemanticModel.RetryAfterFailure` model the retry.
- When no segment is non-blank, semantic search returns one result built from the stripped
  whole text, or nothing when that text is blank (`src/web_app.py:122-137`). So a
  transcript with no usable segments can still give one semantic result.
  `SemanticSearchWith` states both branches.
- The route downgrades to keyword mode whenever semantic search returns nothing, not only
  when the model is missing (`src/web_app.py:247-249`). This happens, for instance, on a
  transcript with neither segments nor text. `Dispatch` states this rule.
- Ties among equal scores: `torch.topk` does not promise an order. The model's `TopK`
  breaks ties by lower candidate position, which is a modelling choice.

## Model

| member | source | states |
|---|---|---|
| Text.Strip | src/web_app.py:83 | the stripped text is no longer than the input, and neither starts nor ends with whitespace (Python's `isspace` set) |
| Text.StripIsSlice | src/web_app.py:83 | the stripped text is a slice of the input, with only whitespace before and after it |
| Text.StripEmptyIffBlank | src/transcript_repository.py:25 | `s.strip()` is empty exactly when every character of `s` is whitespace |
| Text.StripUnique | src/web_app.py:83 | any cut into blank head, body with non-blank ends, and blank tail gives exactly Strip's result |
| Text.StripIdempotent | src/web_app.py:154 | stripping an already stripped text changes nothing, so re-stripping a candidate's text gives the candidate text |
| Text.StripOfTrimmed | src/web_app.py:83 | a text with no whitespace at either end strips to itself |
| Text.LowerChar | src/web_app.py:86 | `str.lower` on one character: the result is never an upper-case letter, only upper-case letters change, and whitespace is preserved |
| Text.LowerSlice | src/web_app.py:66 | lower-casing a slice gives the same slice of the lower-cased text, so cutting a path and lower-casing commute |
| Text.LowerIdempotent | src/web_app.py:66 | lower-casing an already lower-cased text changes nothing |
| Text.ContainsIffOccurs | src/web_app.py:86 | Python's `q in s` holds exactly when `q` occurs as a contiguous slice of `s` |
| Text.JoinSpace | src/transcript_repository.py:31 | `" ".join(xs)` has the parts' total length plus one separator between neighbours, and begins with the first part |
| Text.JoinSpaceParts | src/transcript_repository.py:31 | in `" ".join(xs)`, part k sits at offset (total length of the parts before it) + k, and for k > 0 a single space comes right before it |
| Positions.TrueIndices | src/web_app.py:120 | the positions of the set flags: each one set, strictly increasing, and every set position is included |
| Positions.TrueIndicesSnoc | src/web_app.py:120 | one more flag adds its position at the end exactly when it is set |
| Positions.TrueIndicesLength | src/web_app.py:120 | there are never more positions than flags |
| TranscriptRepository.GetTranscriptText | src/transcript_repository.py:23-34 | a string text with a non-blank character is returned unchanged; otherwise the single-space join of the segment texts, stripped, or `""` when there are no segments; in that fallback the result has no leading or trailing whitespace; a non-empty result is never blank |
| TranscriptRepository.GetTranscriptTextStable | src/transcript_repository.py:23-34 | a transcript whose text is a displayed text displays as that same text |
| TranscriptRepository.EmptySegmentKeepsBothSpaces | src/transcript_repository.py:31-32 | a segment with empty text still contributes its separator: "hola", "" and "mundo" display as "hola  mundo" |
| KeywordSearch.HitsWhereSnoc | src/web_app.py:82-94 | each further segment appends its hit when it passes the test, and nothing otherwise |
| KeywordSearch.WholeTextHits | src/web_app.py:97-105 | the whole-text test gives at most one result; it gives one exactly when there are no segments and the lower-cased text contains the query; that result has the unstripped text, no times and score 1.0 |
| KeywordSearch.KeywordHits | src/web_app.py:77-107 | keyword search returns no more results than there are segments (at most one when there are none), each with score 1.0 |
| KeywordSearch.KeywordHitsContainQuery | src/web_app.py:78-105 | every keyword result's text, lower-cased, contains the lower-cased, stripped query, and every score is 1.0 |
| KeywordSearch.KeywordFindsEveryMatch | src/web_app.py:82-94 | every segment whose non-blank stripped text, lower-cased, contains the query appears among the results |
| KeywordSearch.KeywordHitsFromSegments | src/web_app.py:82-105 | with segments present, the k-th result is the k-th matching segment (in segment order) with its stripped non-empty text, its own start and end, and score 1.0; the whole-text fallback adds nothing |
| KeywordSearch.KeywordWholeTextFallback | src/web_app.py:97-105 | with no segments: at most one result, exactly one iff the lower-cased text contains the query, and it carries the unstripped text, no times and score 1.0 |
| KeywordSearch.HitsWhereFirstOfTwo | src/web_app.py:82-94 | of two segments where only the first passes, only the first one's hit is returned |
| KeywordSearch.FirstOfTwoMatches | src/web_app.py:82-94 | two segments, of which only the first matches, give exactly the first segment's hit |
| KeywordSearch.HolaMundoScenario | src/web_app.py:77-107 | "mundo" over the segments "hola mundo" and "adios" finds only the first, with its times and score 1.0 |
| KeywordSearch.MundoIsNormal | src/web_app.py:78 | the query "mundo" is unchanged by lower-casing and stripping |
| KeywordSearch.HolaMundoMatches | src/web_app.py:83-86 | the segment "hola mundo" matches "mundo" |
| KeywordSearch.AdiosMisses | src/web_app.py:83-86 | the segment "adios" does not match "mundo" |
| KeywordSearch.KeywordSearchSegments | src/web_app.py:77-107 | the loop over segments, then the fallback, returns exactly the keyword results specified by `KeywordHits` (whose properties are the lemmas above) |
| SemanticModel.ModelHolder.constructor | src/web_app.py:22 | the model starts out not loaded |
| SemanticModel.ModelHolder.Load | src/web_app.py:25-40 | a cached model is returned without invoking the loader; otherwise the loader runs once and its outcome (a model, or `None` on failure) is both cached and returned |
| SemanticModel.LoadsAfterSuccess | src/web_app.py:26-36 | after one successful load, any number of later calls return that same model and invoke the loader no more |
| SemanticModel.RetryAfterFailure | src/web_app.py:37-40 | after a failed load nothing is cached, and the next call invokes the loader again and returns its outcome |
| SemanticSearch.Candidates | src/web_app.py:118-120 | the `indexed` list: each candidate is a segment position with that segment's stripped, non-empty text, in increasing position order, no more than there are segments |
| SemanticSearch.CandidateOf | src/web_app.py:120 | every segment with non-blank text is a candidate |
| SemanticSearch.BestOf | src/web_app.py:146 | the best-ranked remaining position: highest score, first among equal scores |
| SemanticSearch.TakeBest | src/web_app.py:146 | moving the best remaining position to the picks keeps the picks ranked and ahead of every remaining position |
| SemanticSearch.TopK | src/web_app.py:145-146 | `topk(k)`: exactly k distinct positions, ranked by descending score with ties by lower position, and every position left out ranks after every pick |
| SemanticSearch.PicksInSegmentOrder | src/web_app.py:146-150 | once mapped to segments, the picks stay ranked: a higher score first, equal scores in segment order |
| SemanticSearch.UnpickedScoresNoHigher | src/web_app.py:146 | a non-blank segment that was not picked scores no higher than any pick |
| SemanticSearch.RankCandidates | src/web_app.py:139-161 | `min(top_k, len(indexed))` results, each from a distinct non-blank segment with its stripped text, times and similarity score, in non-increasing score order, and no unpicked non-blank segment scores higher |
| SemanticSearch.SemanticAnswerBound | src/web_app.py:110-161 | a semantic answer is non-empty only with a model; it has at most `top_k` results when some segment is non-blank, and otherwise at most one, without times |
| SemanticSearch.SemanticAnswerOrdered | src/web_app.py:146-161 | the scores of a semantic answer never increase from one result to the next |
| SemanticSearch.SemanticSearchWith | src/web_app.py:112-161 | no model gives `[]`; no candidates gives `[]` for a blank stripped text, else one result with the stripped text, no times and its similarity; otherwise `min(top_k, len(indexed))` results, each from a distinct non-blank segment with its stripped text, times and similarity, in non-increasing score order with ties in segment order, and no unpicked non-blank segment scores higher |
| SemanticSearch.SemanticSearchSegments | src/web_app.py:110-161 | a cached model is kept and the loader is not called; otherwise the loader is called once and its outcome becomes the cached model; the results are the full semantic answer of `SemanticSearchWith` for the model now cached; a result implies a loaded model; at most `top_k` results from segments, and at most one, without times, when no segment is non-blank |
| WebApp.LastIndexOf | src/web_app.py:66 | `rfind`: the last position holding the character, or -1 when there is none |
| WebApp.Name | src/web_app.py:66 | the path's last component contains no `/`, is never `.`, and is no longer than the path |
| WebApp.NameTrailingSlash | src/web_app.py:66 | a trailing `/` does not change the name |
| WebApp.NameTrailingDot | src/web_app.py:66 | a trailing `/.` component does not change the name |
| WebApp.Suffix | src/web_app.py:66 | the suffix is empty, or a `.` plus at least one character ending the name, with no other `.` and something before it |
| WebApp.LastDotUnique | src/web_app.py:66 | the position `rfind` gives for `.` is the one position holding the name's last `.` |
| WebApp.SuffixIff | src/web_app.py:66 | the suffix is non-empty exactly when the name's last `.` is neither its first nor its last character |
| WebApp.AllowedFile | src/web_app.py:65-66 | an accepted file name has a suffix of four or five characters with something before it |
| WebApp.AllowedShape | src/web_app.py:51 | every allowed suffix is a dot followed by one or more characters and no other dot |
| WebApp.AllowedSuffixShows | src/web_app.py:65-66 | an accepted name ends, lower-cased, with its allowed lower-cased suffix and is longer than it |
| WebApp.EndingIsSuffix | src/web_app.py:65-66 | a name whose lower-cased form ends with an allowed suffix, with something before it, has that suffix |
| WebApp.AllowedFileIff | src/web_app.py:65-66 | `allowed_file` holds exactly when the lower-cased file name ends with `.mp3`, `.wav`, `.m4a`, `.ogg` or `.flac` and has something before it |
| WebApp.NameLower | src/web_app.py:66 | the name of a lower-cased path is the lower-cased name of the path |
| WebApp.SuffixLower | src/web_app.py:66 | the suffix of a lower-cased name is the lower-cased suffix |
| WebApp.AllowedFileIgnoresCase | src/web_app.py:65-66 | `allowed_file` gives the same answer for a file name and its lower-cased form |
| WebApp.UpperSuffixAllowed | src/web_app.py:65-66 | "entrevista.MP3" is accepted |
| WebApp.DirectoryIgnored | src/web_app.py:65-66 | "subidas/voz.Flac" is accepted: only the last path component counts |
| WebApp.HiddenFileRefused | src/web_app.py:65-66 | ".mp3" is refused: a leading dot does not start a suffix |
| WebApp.LastSuffixCounts | src/web_app.py:65-66 | "notas.mp3.txt" is refused: only the last suffix counts |
| WebApp.Dispatch | src/web_app.py:244-252 | the mode reported is "semantic" iff semantic mode found something, and those results are shown; it is "keyword" iff keyword mode was asked for or semantic mode found nothing, and the keyword results are shown; any other mode shows nothing and is reported unchanged |
| WebApp.SearchInTranscript | src/web_app.py:227-252 | a blank stripped query redirects; a missing transcript redirects; otherwise the page shows what `Dispatch` gives for the requested mode (default "keyword"); in semantic mode the semantic results are the full semantic answer for the stripped query, `top_k` 5 and the model now cached, the loader is called exactly once when no model was cached, and not at all when one was (the cached model is kept), a missing model with a failing loader leaves them empty, and a page reported as semantic has a loaded model and at most 5 results; outside semantic mode the model holder is untouched |

## Left out

- The Flask application, the templates, `flash`, `redirect` and the routes other than the
  search (index, upload with timestamped names, transcript views). These are web I/O.
- `load_transcript_json`, `save_transcript` and `load_transcript`. These are file and JSON
  I/O. `SearchInTranscript` receives the file's content, or `None` when there is no such
  file. A malformed JSON file is not modelled.
- SearchInTranscript: the `full_text` and `language` passed to the template, and the
  messages flashed for a downgrade or for no results, are not modelled.
- `src/asr_service.py` and `src/transcribe_audio.py`: speech recognition, ffmpeg setup and
  the command line. These are calls into foreign libraries.
- `model.encode`, `util.cos_sim` and float conversion. These are replaced by the abstract
  `similarity(model, query, text)` of type `real`. The model object is known only by name.
- ModelHolder.Load: the log lines printed while loading. Concurrency around the global is
  also not modelled, since the code has none.
- TopK: ties among equal scores go to the lower candidate position. `torch.topk` does not
  promise this.
- Text.LowerChar and Text.Lower: lower-case ASCII and the Latin-1 capitals only. Other Unicode case
  mappings are not modelled, including those that change length, such as U+0130.
- WebApp.Name: POSIX paths only. Windows drive letters and backslashes are not modelled.
- KeywordSearch.WholeTextHits: a text that is JSON `null` or not a string reads as `""`.
  In the code, a falsy text (`null`, `0`, `false`, `[]`, `{}`) also reads as `""` through
  `or ""` (`src/web_app.py:97`), but a hit then carries that raw value as its text
  (`src/web_app.py:100`), not `""`; only a truthy non-string text makes `.lower()` raise.
- TranscriptRepository.GetTranscriptText: segment texts are always strings. In the code,
  a segment whose "text" is `null` makes the join raise.
- SemanticSearchWith: a text that is JSON `null` or not a string reads as `""`. In the
  code, a non-string text that is truthy makes `.strip()` raise `AttributeError`
  (`src/web_app.py:124`); the model instead treats it as blank and returns `[]` when no
  segment is non-blank.
- SemanticSearchSegments: `top_k` is a natural number. A negative `top_k` makes
  `torch.topk` raise, and this is not modelled.
