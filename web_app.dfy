/** The request-level logic of the web application: which uploads are accepted
    (`allowed_file`) and how a search request picks between semantic and keyword search
    (the `search_in_transcript` route, without its HTTP and template plumbing). */
module WebApp {
  import opened Text
  import opened Transcripts
  import opened KeywordSearch
  import opened SemanticModel
  import opened SemanticSearch

  /** The audio suffixes an upload may carry. */
  const ALLOWED_EXTENSIONS: set<string> := {".mp3", ".wav", ".m4a", ".ogg", ".flac"}

  /** How many segments a semantic search returns at most. */
  const TOP_K: nat := 5

  /** `s.rfind(c)`: the last position holding `c`, or -1. */
  function LastIndexOf(s: string, c: char): (i: int)
    ensures -1 <= i < |s|
    ensures i >= 0 ==> s[i] == c
    ensures forall j :: i < j < |s| ==> s[j] != c
  {
    if s == [] then -1
    else if s[|s| - 1] == c then |s| - 1
    else LastIndexOf(s[..|s| - 1], c)
  }

  /** `PurePosixPath(path).name`: the last component of the path, where empty components
      (from repeated or trailing slashes) and `.` components do not count; `""` when there
      is none. */
  function Name(path: string): (r: string)
    ensures '/' !in r && r != "." && |r| <= |path|
    decreases |path|
  {
    var i := LastIndexOf(path, '/');
    if i < 0 then (if path == "." then "" else path)
    else
      var tail := path[i + 1..];
      if tail == "" || tail == "." then Name(path[..i]) else tail
  }

  /** Position `i` of `name` holds its last `.`. */
  predicate LastDotAt(name: string, i: int) {
    0 <= i < |name| && name[i] == '.' && '.' !in name[i + 1..]
  }

  /** `PurePath.suffix` of a final component: from its last `.` on, provided that dot is
      neither the first nor the last character; `""` otherwise. */
  function Suffix(name: string): (r: string)
    ensures r == [] || (r[0] == '.' && 2 <= |r| < |name| && r == name[|name| - |r|..] && '.' !in r[1..])
  {
    var i := LastIndexOf(name, '.');
    if 0 < i < |name| - 1 then name[i..] else ""
  }

  /** A name has a suffix exactly when its last `.` is neither its first nor its last
      character. */
  lemma SuffixIff(name: string)
    ensures Suffix(name) != [] <==> exists i :: 0 < i < |name| - 1 && LastDotAt(name, i)
  {
    LastDotUnique(name, LastIndexOf(name, '.'));
  }

  /** The last `.` is where `rfind` finds it. */
  lemma LastDotUnique(name: string, i: int)
    requires i == LastIndexOf(name, '.')
    ensures forall j :: LastDotAt(name, j) ==> j == i
    ensures i >= 0 ==> LastDotAt(name, i)
  {
    if i >= 0 {
      forall j | 0 <= j < i ensures !LastDotAt(name, j) {
        assert name[j + 1..][i - j - 1] == name[i];
      }
    }
  }

  /** `allowed_file(filename)`: the lower-cased suffix of the file name is an audio suffix. */
  function AllowedFile(filename: string): (r: bool)
    ensures r ==> 4 <= |Suffix(Name(filename))| <= 5 && |Suffix(Name(filename))| < |Name(filename)|
  {
    var n := Name(filename);
    var e := Lower(Suffix(n));
    ExtensionLength(e);
    e in ALLOWED_EXTENSIONS
  }

  /** The allowed suffixes are four or five characters long, dot included. */
  lemma ExtensionLength(e: string)
    ensures e in ALLOWED_EXTENSIONS ==> 4 <= |e| <= 5
  {
  }

  /** `s` ends with `e`. */
  predicate EndsWith(s: string, e: string) {
    |e| <= |s| && s[|s| - |e|..] == e
  }

  /** Every allowed suffix is a dot followed by at least one character and no other dot. */
  lemma AllowedShape(e: string)
    requires e in ALLOWED_EXTENSIONS
    ensures 2 <= |e| && e[0] == '.' && '.' !in e[1..]
  {
  }

  /** Lower-casing leaves `/` and `.` where they are and creates no new ones. */
  lemma LowerKeepsPunctuation(c: char)
    ensures LowerChar(c) == '.' <==> c == '.'
    ensures LowerChar(c) == '/' <==> c == '/'
  {
  }

  /** An allowed lower-cased suffix shows at the end of the lower-cased name. */
  lemma AllowedSuffixShows(n: string)
    requires Lower(Suffix(n)) in ALLOWED_EXTENSIONS
    ensures |Suffix(n)| < |n| && EndsWith(Lower(n), Lower(Suffix(n)))
  {
    var sfx := Suffix(n);
    var e := Lower(sfx);
    assert sfx != [];
    assert Lower(n)[|n| - |e|..] == e;
  }

  /** An allowed suffix at the end of the lower-cased name, with something before it, is
      the name's suffix. */
  lemma EndingIsSuffix(n: string, e: string)
    requires e in ALLOWED_EXTENSIONS && |e| < |n| && EndsWith(Lower(n), e)
    ensures Lower(Suffix(n)) == e
  {
    AllowedShape(e);
    var d := |n| - |e|;
    assert Lower(n)[d] == e[0];
    LowerKeepsPunctuation(n[d]);
    forall j | d < j < |n| ensures n[j] != '.' {
      assert Lower(n)[j] == e[1..][j - d - 1];
      LowerKeepsPunctuation(n[j]);
    }
    assert LastIndexOf(n, '.') == d;
    assert Lower(n[d..]) == Lower(n)[d..];
  }

  /** A file is accepted exactly when its name, lower-cased, ends with an allowed suffix and
      has something before that suffix (a hidden file such as `.mp3` has no suffix). */
  lemma AllowedFileIff(filename: string)
    ensures AllowedFile(filename) <==>
      exists e :: e in ALLOWED_EXTENSIONS && |e| < |Name(filename)| && EndsWith(Lower(Name(filename)), e)
  {
    var n := Name(filename);
    if AllowedFile(filename) {
      AllowedSuffixShows(n);
    }
    if e :| e in ALLOWED_EXTENSIONS && |e| < |n| && EndsWith(Lower(n), e) {
      EndingIsSuffix(n, e);
    }
  }

  /** Lower-casing does not move the last `/` or the last `.`. */
  lemma {:induction false} LastIndexOfLower(s: string, c: char)
    requires c == '/' || c == '.'
    ensures LastIndexOf(Lower(s), c) == LastIndexOf(s, c)
  {
    if s != [] {
      assert Lower(s)[..|s| - 1] == Lower(s[..|s| - 1]);
      LowerKeepsPunctuation(s[|s| - 1]);
      LastIndexOfLower(s[..|s| - 1], c);
    }
  }

  /** Only `.` lower-cases to `.`. */
  lemma LowerIsDot(s: string)
    ensures Lower(s) == "." <==> s == "."
  {
    if |s| == 1 {
      LowerKeepsPunctuation(s[0]);
    }
  }

  /** The last `/` of a path and the part after it, lower-cased, are those of the
      lower-cased path. */
  lemma LowerAtSlash(path: string)
    requires LastIndexOf(path, '/') >= 0
    ensures var i := LastIndexOf(path, '/');
      LastIndexOf(Lower(path), '/') == i &&
      Lower(path)[i + 1..] == Lower(path[i + 1..]) && Lower(path)[..i] == Lower(path[..i])
  {
    LastIndexOfLower(path, '/');
    var i := LastIndexOf(path, '/');
    LowerSlice(path, i + 1, |path|);
    LowerSlice(path, 0, i);
  }

  /** Lower-casing a path lower-cases its name and nothing else about it. */
  lemma {:induction false} NameLower(path: string)
    ensures Name(Lower(path)) == Lower(Name(path))
    decreases |path|
  {
    var i := LastIndexOf(path, '/');
    if i < 0 {
      LastIndexOfLower(path, '/');
      LowerIsDot(path);
    } else {
      var tail := path[i + 1..];
      LowerAtSlash(path);
      LowerIsDot(tail);
      if tail == "" || tail == "." {
        NameLower(path[..i]);
      }
    }
  }

  /** Lower-casing a name lower-cases its suffix. */
  lemma SuffixLower(n: string)
    ensures Suffix(Lower(n)) == Lower(Suffix(n))
  {
    LastIndexOfLower(n, '.');
    var i := LastIndexOf(n, '.');
    if 0 < i < |n| - 1 {
      LowerSlice(n, i, |n|);
      assert Suffix(Lower(n)) == Lower(n)[i..];
    } else {
      assert Suffix(Lower(n)) == "" && Suffix(n) == "";
    }
  }

  /** `allowed_file` does not depend on case: a name and its lower-cased form are accepted
      or refused together. */
  lemma AllowedFileIgnoresCase(filename: string)
    ensures AllowedFile(Lower(filename)) == AllowedFile(filename)
  {
    NameLower(filename);
    SuffixLower(Name(filename));
    LowerIdempotent(Suffix(Name(filename)));
  }

  /** A path without `/` is its own name (unless it is `.`). */
  lemma NameOfPlain(s: string)
    requires '/' !in s && s != "."
    ensures Name(s) == s
  {
    assert LastIndexOf(s, '/') == -1;
  }

  /** A trailing `/` does not change the name: `a/b/` names `b`. */
  lemma NameTrailingSlash(path: string)
    ensures Name(path + "/") == Name(path)
  {
    var p := path + "/";
    assert p[|path|] == '/' && LastIndexOf(p, '/') == |path|;
    assert p[..|path|] == path && p[|path| + 1..] == "";
  }

  /** A trailing `/.` does not change the name: `a/b/.` names `b`. */
  lemma NameTrailingDot(path: string)
    ensures Name(path + "/.") == Name(path)
  {
    var p := path + "/.";
    assert p[|path|] == '/' && p[|path| + 1] == '.' && LastIndexOf(p, '/') == |path|;
    assert p[..|path|] == path && p[|path| + 1..] == ".";
  }

  /** An upper-case suffix is accepted. */
  lemma UpperSuffixAllowed()
    ensures AllowedFile("entrevista.MP3")
  {
    var n := "entrevista.MP3";
    NameOfPlain(n);
    assert n[10] == '.' && LastIndexOf(n, '.') == 10;
    assert Suffix(n) == ".MP3";
    assert Lower(".MP3") == ".mp3";
  }

  /** The name of a path is what follows its last `/`, when that is neither empty nor `.`. */
  lemma NameAfterSlash(path: string, i: nat)
    requires i < |path| && path[i] == '/' && '/' !in path[i + 1..]
    requires path[i + 1..] != "" && path[i + 1..] != "."
    ensures Name(path) == path[i + 1..]
  {
    forall j | i < j < |path| ensures path[j] != '/' {
      assert path[j] == path[i + 1..][j - i - 1];
    }
    assert LastIndexOf(path, '/') == i;
  }

  /** A mixed-case suffix is accepted. */
  lemma MixedCaseSuffixAllowed()
    ensures Lower(Suffix("voz.Flac")) in ALLOWED_EXTENSIONS
  {
    var n := "voz.Flac";
    assert n[3] == '.' && LastIndexOf(n, '.') == 3;
    assert Suffix(n) == ".Flac";
    assert Lower(".Flac") == ".flac";
  }

  /** The directories in front of the name do not matter. */
  lemma DirectoryIgnored()
    ensures AllowedFile("subidas/voz.Flac")
  {
    var p := "subidas/voz.Flac";
    assert p[7] == '/' && p[8..] == "voz.Flac";
    NameAfterSlash(p, 7);
    MixedCaseSuffixAllowed();
  }

  /** A hidden file named only by its suffix has no suffix, so it is refused. */
  lemma HiddenFileRefused()
    ensures !AllowedFile(".mp3")
  {
    var n := ".mp3";
    NameOfPlain(n);
    assert n[0] == '.' && n[1..] == "mp3";
    assert LastIndexOf(n, '.') == 0;
  }

  /** Only the last suffix counts. */
  lemma LastSuffixCounts()
    ensures !AllowedFile("notas.mp3.txt")
  {
    var n := "notas.mp3.txt";
    NameOfPlain(n);
    assert n[9] == '.' && LastIndexOf(n, '.') == 9;
    assert Suffix(n) == ".txt";
    assert !IsUpper('t');
    assert |Lower(".txt")| == 4 && Lower(".txt")[1] == 't';
  }

  /** The mode dispatch of the search route: semantic mode shows the semantic results, and
      falls back to keyword mode when there are none; keyword mode shows the keyword
      results; any other mode shows nothing and is reported back unchanged. Returns the
      results shown and the mode reported. */
  function Dispatch(mode: string, semResults: seq<SearchResult>, kwResults: seq<SearchResult>)
    : (r: (seq<SearchResult>, string))
    ensures r.1 == "semantic" <==> mode == "semantic" && semResults != []
    ensures r.1 == "semantic" ==> r.0 == semResults && r.0 != []
    ensures r.1 == "keyword" <==> mode == "keyword" || (mode == "semantic" && semResults == [])
    ensures r.1 == "keyword" ==> r.0 == kwResults
    ensures r.1 != "semantic" && r.1 != "keyword" ==> r.0 == [] && r.1 == mode
  {
    var (results, mode') :=
      if mode == "semantic" && semResults == [] then ([], "keyword")
      else if mode == "semantic" then (semResults, mode)
      else ([], mode);
    if mode' == "keyword" then (kwResults, mode') else (results, mode')
  }

  /** A search request ends in a redirect because the stripped query is blank, a redirect
      because the transcript file was not found, or the results page with the results shown
      and the mode it reports. */
  datatype Page = BlankQuery | TranscriptNotFound | ResultsPage(results: seq<SearchResult>, mode: string)

  /** `request.form.get(key, default)`. */
  function FormValue(field: Option<string>, default: string): string {
    if field.Some? then field.value else default
  }

  /** `search_in_transcript` without HTTP: the form fields, the transcript the file held
      (`None` when there is no such file), the loader's outcome should the model be needed,
      and the similarity the model computes. The ghost `semResults` is what semantic search
      returned (`[]` when it did not run) and `semPicked` the segments behind it. */
  method SearchInTranscript(holder: ModelHolder, formQuery: Option<string>, formMode: Option<string>,
                            transcript: Option<Transcript>, attempt: Option<Model>,
                            similarity: (Model, string, string) -> real)
    returns (page: Page, ghost semResults: seq<SearchResult>, ghost semPicked: seq<nat>)
    modifies holder
    ensures Strip(FormValue(formQuery, "")) == "" ==> page == BlankQuery
    ensures Strip(FormValue(formQuery, "")) != "" && transcript.None? ==> page == TranscriptNotFound
    ensures Strip(FormValue(formQuery, "")) != "" && transcript.Some? ==>
      var shown := Dispatch(FormValue(formMode, "keyword"), semResults,
                            KeywordHits(transcript.value, Strip(FormValue(formQuery, ""))));
      page == ResultsPage(shown.0, shown.1)
    ensures page.ResultsPage? && FormValue(formMode, "keyword") == "semantic" ==>
      SemanticAnswer(holder.semanticModel, transcript.value, Strip(FormValue(formQuery, "")), TOP_K,
                     similarity, semResults, semPicked)
    ensures page.ResultsPage? && FormValue(formMode, "keyword") == "semantic" ==>
      (old(holder.semanticModel).None? ==>
         holder.semanticModel == attempt && holder.loaderCalls == old(holder.loaderCalls) + 1) &&
      (old(holder.semanticModel).Some? ==>
         holder.semanticModel == old(holder.semanticModel) && holder.loaderCalls == old(holder.loaderCalls))
    ensures FormValue(formMode, "keyword") == "semantic" && old(holder.semanticModel).None? && attempt.None? ==>
      semResults == []
    ensures page.ResultsPage? && FormValue(formMode, "keyword") == "semantic" ==>
      holder.semanticModel.Some? || page.mode == "keyword"
    ensures page.ResultsPage? && page.mode == "semantic" ==> |page.results| <= TOP_K
    ensures FormValue(formMode, "keyword") != "semantic" ==> semResults == []
    ensures !page.ResultsPage? || FormValue(formMode, "keyword") != "semantic" ==> unchanged(holder)
  {
    var query := Strip(FormValue(formQuery, ""));
    var mode := FormValue(formMode, "keyword");
    semResults, semPicked := [], [];
    if query == "" {
      return BlankQuery, semResults, semPicked;
    }
    if transcript.None? {
      return TranscriptNotFound, semResults, semPicked;
    }
    var transcriptData := transcript.value;
    var results: seq<SearchResult> := [];
    if mode == "semantic" {
      results, semPicked := SemanticSearchSegments(holder, attempt, transcriptData, query, TOP_K, similarity);
      semResults := results;
      if results == [] {
        mode := "keyword";
      }
    }
    if mode == "keyword" {
      results := KeywordSearchSegments(transcriptData, query);
    }
    page := ResultsPage(results, mode);
  }
}
