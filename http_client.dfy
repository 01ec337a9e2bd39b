/** The pure parts of server/HttpClient.js: the file name `saveQuiz` derives
    from a quiz title, the directory and path choices of `saveQuiz`,
    `deleteQuiz` and `listQuizzes`, and the `.json` filter of the development
    listing. The GitHub API, base64 and the file system are not modelled. */
module HttpClient {
  import opened JsValues

  const Underscore: CodeUnit := 95  // '_'

  predicate IsAsciiUpper(u: CodeUnit) { 65 <= u <= 90 }
  predicate IsAsciiLower(u: CodeUnit) { 97 <= u <= 122 }
  predicate IsAsciiDigit(u: CodeUnit) { 48 <= u <= 57 }

  /** The units the class `[a-z0-9]` matches under the `i` flag. Without the
      `u` flag, case-insensitive matching upper-cases both sides and never maps
      a non-ASCII unit onto an ASCII one, so exactly ASCII letters and digits
      match. */
  predicate IsAlnumIgnoringCase(u: CodeUnit)
  {
    IsAsciiUpper(u) || IsAsciiLower(u) || IsAsciiDigit(u)
  }

  /** A unit that may appear in a file stem: `[a-z0-9_]`. */
  predicate IsStemUnit(u: CodeUnit)
  {
    IsAsciiLower(u) || IsAsciiDigit(u) || u == Underscore
  }

  /** `title.replace(/[^a-z0-9]/gi, '_')`: every unmatched code unit becomes
      one underscore (a surrogate pair becomes two). */
  function ReplaceNonAlnum(s: JsStr): (r: JsStr)
    ensures |r| == |s|
    ensures forall i :: 0 <= i < |r| ==> IsAlnumIgnoringCase(r[i]) || r[i] == Underscore
    ensures forall i :: 0 <= i < |s| && IsAlnumIgnoringCase(s[i]) ==> r[i] == s[i]
    ensures forall i :: 0 <= i < |s| && !IsAlnumIgnoringCase(s[i]) ==> r[i] == Underscore
  {
    seq(|s|, i requires 0 <= i < |s| => if IsAlnumIgnoringCase(s[i]) then s[i] else Underscore)
  }

  /** `toLowerCase()` restricted to ASCII: A-Z become a-z, everything else is
      kept. On the output of ReplaceNonAlnum, which holds only ASCII letters,
      digits and underscores, this is exactly `toLowerCase()`. */
  function ToLowerAscii(s: JsStr): (r: JsStr)
    ensures |r| == |s|
    ensures forall i :: 0 <= i < |r| ==> !IsAsciiUpper(r[i])
    ensures forall i :: 0 <= i < |s| && IsAsciiUpper(s[i]) ==> IsAsciiLower(r[i]) && r[i] == s[i] + 32
    ensures forall i :: 0 <= i < |s| && !IsAsciiUpper(s[i]) ==> r[i] == s[i]
  {
    seq(|s|, i requires 0 <= i < |s| => if IsAsciiUpper(s[i]) then s[i] + 32 else s[i])
  }

  /** The sanitised title `saveQuiz` names the file after. */
  function FileStem(title: JsStr): (stem: JsStr)
    ensures |stem| == |title|
    ensures forall i :: 0 <= i < |stem| ==> IsStemUnit(stem[i])
    ensures forall i :: 0 <= i < |title| && IsAsciiUpper(title[i]) ==> stem[i] == title[i] + 32
    ensures forall i :: 0 <= i < |title| && (IsAsciiLower(title[i]) || IsAsciiDigit(title[i])) ==> stem[i] == title[i]
    ensures forall i :: 0 <= i < |title| && !IsAlnumIgnoringCase(title[i]) ==> stem[i] == Underscore
  {
    ToLowerAscii(ReplaceNonAlnum(title))
  }

  /** `fileName` in `saveQuiz`. */
  function FileName(title: JsStr): (name: JsStr)
    ensures name == FileStem(title) + Lit(".json")
    ensures EndsWithJson(name)
  {
    FileStem(title) + Lit(".json")
  }

  /** Sanitising is idempotent: a stem is its own stem. */
  lemma StemIdempotent(title: JsStr)
    ensures FileStem(FileStem(title)) == FileStem(title)
  {
    var stem := FileStem(title);
    assert forall i :: 0 <= i < |stem| ==> FileStem(stem)[i] == stem[i];
  }

  /** Two code units that the sanitiser cannot tell apart: both outside
      `[A-Za-z0-9]`, or the same letter or digit up to ASCII case. */
  predicate SameUpToCase(a: CodeUnit, b: CodeUnit)
  {
    (!IsAlnumIgnoringCase(a) && !IsAlnumIgnoringCase(b))
    || (IsAlnumIgnoringCase(a) && (a == b || (IsAsciiUpper(a) && b == a + 32) || (IsAsciiUpper(b) && a == b + 32)))
  }

  /** Two titles are saved under the same file name exactly when they have the
      same length and agree position by position up to letter case and the
      choice of non-alphanumeric units. */
  lemma SameFileNameIff(t1: JsStr, t2: JsStr)
    ensures FileName(t1) == FileName(t2)
      <==> |t1| == |t2| && forall i :: 0 <= i < |t1| ==> SameUpToCase(t1[i], t2[i])
  {
    var s1, s2 := FileStem(t1), FileStem(t2);
    if FileName(t1) == FileName(t2) {
      assert |s1| == |s2|;
      assert s1 == FileName(t1)[..|s1|] && s2 == FileName(t2)[..|s2|];
      forall i | 0 <= i < |t1| ensures SameUpToCase(t1[i], t2[i]) {
        assert s1[i] == s2[i];
      }
    }
    if |t1| == |t2| && forall i :: 0 <= i < |t1| ==> SameUpToCase(t1[i], t2[i]) {
      assert forall i :: 0 <= i < |s1| ==> s1[i] == s2[i];
      assert s1 == s2;
    }
  }

  /** "My Quiz" and "my-quiz" overwrite each other: both become my_quiz.json. */
  lemma MyQuizCollides()
    ensures FileName(Lit("My Quiz")) == FileName(Lit("my-quiz")) == Lit("my_quiz.json")
  {
    var stem: JsStr := [109, 121, 95, 113, 117, 105, 122];
    StemOfMyQuiz();
    StemOfMyDashQuiz();
    assert Lit("my_quiz.json") == stem + Lit(".json");
  }

  lemma StemOfMyQuiz()
    ensures FileStem(Lit("My Quiz")) == [109, 121, 95, 113, 117, 105, 122]
  {
    assert Lit("My Quiz") == [77, 121, 32, 81, 117, 105, 122];
  }

  lemma StemOfMyDashQuiz()
    ensures FileStem(Lit("my-quiz")) == [109, 121, 95, 113, 117, 105, 122]
  {
    assert Lit("my-quiz") == [109, 121, 45, 113, 117, 105, 122];
  }

  /** `isOpen ? 'open-quizzes' : 'quizzes'` (saveQuiz, deleteQuiz, listQuizzes):
      a non-empty single path segment (no '/'). */
  function Directory(isOpen: bool): (d: JsStr)
    ensures |d| > 0 && forall i :: 0 <= i < |d| ==> d[i] != 47
  {
    if isOpen then Lit("open-quizzes") else Lit("quizzes")
  }

  /** The two directories differ, so the directory is `open-quizzes` exactly
      when the quiz is open. */
  lemma DirectoryIffOpen(isOpen: bool)
    ensures Directory(isOpen) == Lit("open-quizzes") <==> isOpen
    ensures Directory(isOpen) == Lit("quizzes") <==> !isOpen
  {
    assert |Lit("open-quizzes")| != |Lit("quizzes")|;
  }

  /** `isProduction ? `${directory}/${name}` : name`. */
  function RepoPath(directory: JsStr, name: JsStr, isProduction: bool): (p: JsStr)
    ensures isProduction ==>
      |p| == |directory| + 1 + |name| && p[..|directory|] == directory
      && p[|directory|] == 47 && p[|directory| + 1..] == name
    ensures !isProduction ==> p == name
  {
    if isProduction then directory + Lit("/") + name else name
  }

  /** `filePath` in `saveQuiz`: the file name alone in development; in
      production the directory, one '/' and the file name, and that '/' is the
      only one in the path. */
  function SavePath(title: JsStr, isOpen: bool, isProduction: bool): (p: JsStr)
    ensures EndsWithJson(p)
    ensures !isProduction ==> p == FileName(title)
    ensures isProduction ==>
      var d := Directory(isOpen);
      |p| > |d| && p[..|d|] == d && p[|d|] == 47 && p[|d| + 1..] == FileName(title)
    ensures forall i :: 0 <= i < |p| && p[i] == 47 ==> isProduction && i == |Directory(isOpen)|
  {
    var d, name := Directory(isOpen), FileName(title);
    NoSlashInFileName(title);
    var p := RepoPath(d, name, isProduction);
    assert p[|p| - 5..] == name[|name| - 5..];
    p
  }

  /** A file name holds no '/': its stem is `[a-z0-9_]` and then `.json`. */
  lemma NoSlashInFileName(title: JsStr)
    ensures forall i :: 0 <= i < |FileName(title)| ==> FileName(title)[i] != 47
  {
    var stem, name := FileStem(title), FileName(title);
    assert Lit(".json") == [46, 106, 115, 111, 110];
    forall i | 0 <= i < |name| ensures name[i] != 47 {
      if i < |stem| {
        assert name[i] == stem[i];
      } else {
        assert name[i] == Lit(".json")[i - |stem|];
      }
    }
  }

  /** `fullPath` in `deleteQuiz`, for the file name the route passes: the
      name itself in development, behind the directory and a '/' in production. */
  function DeletePath(quizPath: JsStr, isOpen: bool, isProduction: bool): (p: JsStr)
    ensures !isProduction ==> p == quizPath
    ensures isProduction ==>
      var d := Directory(isOpen);
      |p| == |d| + 1 + |quizPath| && p[..|d|] == d && p[|d|] == 47 && p[|d| + 1..] == quizPath
  {
    var d := Directory(isOpen);
    RepoPath(d, quizPath, isProduction)
  }

  /** The delete route, given the stem of a saved quiz, reaches the path the
      quiz was saved under: `${quizName}.json` with quizName the stem. */
  lemma DeleteFindsSaved(title: JsStr, isOpen: bool, isProduction: bool)
    ensures DeletePath(FileStem(title) + Lit(".json"), isOpen, isProduction) == SavePath(title, isOpen, isProduction)
  {
  }

  /** `file.endsWith('.json')`. */
  predicate EndsWithJson(f: JsStr)
  {
    |f| >= 5 && f[|f| - 5..] == Lit(".json")
  }

  /** A name passes the filter exactly when it is some stem (possibly empty)
      followed by `.json`. */
  lemma EndsWithJsonIff(f: JsStr)
    ensures EndsWithJson(f) <==> exists stem: JsStr :: f == stem + Lit(".json")
  {
    if EndsWithJson(f) {
      assert f == f[..|f| - 5] + Lit(".json");
    }
    if exists stem: JsStr :: f == stem + Lit(".json") {
      var stem: JsStr :| f == stem + Lit(".json");
      assert f[|f| - 5..] == Lit(".json");
    }
  }

  /** `files.filter(file => file.endsWith('.json'))`. */
  function JsonFiles(files: seq<JsStr>): (r: seq<JsStr>)
    ensures |r| <= |files|
    ensures forall f :: f in r <==> f in files && EndsWithJson(f)
  {
    if files == [] then []
    else (if EndsWithJson(files[0]) then [files[0]] else []) + JsonFiles(files[1..])
  }

  /** `a` is `b` with some entries dropped, the rest in their order. */
  predicate IsSubsequence(a: seq<JsStr>, b: seq<JsStr>)
    decreases |b|
  {
    if a == [] then true
    else if b == [] then false
    else if a[0] == b[0] then IsSubsequence(a[1..], b[1..])
    else IsSubsequence(a, b[1..])
  }

  /** The listing keeps the directory's order: it is the directory listing
      with some entries dropped. */
  lemma {:induction false} JsonFilesKeepsOrder(files: seq<JsStr>)
    ensures IsSubsequence(JsonFiles(files), files)
  {
    if files != [] {
      JsonFilesKeepsOrder(files[1..]);
      var r := JsonFiles(files);
      if EndsWithJson(files[0]) {
        assert r[0] == files[0] && r[1..] == JsonFiles(files[1..]);
      } else {
        assert r == JsonFiles(files[1..]);
        SubsequenceOfTail(r, files);
      }
    }
  }

  /** The listing keeps every `.json` entry as often as it occurs and drops
      every other entry. */
  lemma {:induction false} JsonFilesCounts(files: seq<JsStr>)
    ensures forall f :: multiset(JsonFiles(files))[f] == if EndsWithJson(f) then multiset(files)[f] else 0
  {
    if files != [] {
      JsonFilesCounts(files[1..]);
      assert files == [files[0]] + files[1..];
    }
  }

  /** Allowing one more entry at the front of `b` keeps `a` a subsequence. */
  lemma {:induction false} SubsequenceOfTail(a: seq<JsStr>, b: seq<JsStr>)
    requires b != [] && IsSubsequence(a, b[1..])
    ensures IsSubsequence(a, b)
    decreases |b|, 0
  {
    if a != [] && a[0] == b[0] {
      SubsequenceDropHead(a, b[1..]);
    }
  }

  /** Dropping the first entry of a subsequence leaves a subsequence. */
  lemma {:induction false} SubsequenceDropHead(a: seq<JsStr>, c: seq<JsStr>)
    requires a != [] && IsSubsequence(a, c)
    ensures IsSubsequence(a[1..], c)
    decreases |c|, 1
  {
    if a[0] == c[0] {
      SubsequenceOfTail(a[1..], c);
    } else {
      SubsequenceDropHead(a, c[1..]);
      SubsequenceOfTail(a[1..], c);
    }
  }

  /** A quiz saved under any title shows up in the development listing of
      its directory. */
  lemma SavedQuizIsListed(title: JsStr, files: seq<JsStr>)
    requires FileName(title) in files
    ensures FileName(title) in JsonFiles(files)
  {
  }
}
