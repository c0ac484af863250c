/** The movie handler (plugins/movie.py): it reads a year and a title out of
    a file name, looks the movie up in the metadata service, and builds the
    destination `<movies>/<Title> (<Year>)<ext>`. */
module Movie {
  import opened Py
  import opened Sanitize

  // ------------------------------------------------ format_movie_name

  /** `format_movie_name`: parentheses are removed, then spaces become dots. */
  function FormatMovieName(s: string): string
  {
    ReplaceAll(ReplaceAll(ReplaceAll(s, "(", ""), ")", ""), " ", ".")
  }

  /** The three replacements amount to deleting the parentheses and mapping
      spaces to dots: no parenthesis and no space is left, and every other
      character keeps its place in order. */
  lemma FormatMovieNameSpec(s: string)
    ensures FormatMovieName(s) == MapChars(DeleteChars(s, {'(', ')'}), {' '}, '.')
    ensures forall c :: c in FormatMovieName(s) ==> c != '(' && c != ')' && c != ' '
    ensures IsSubsequence(DeleteChars(s, {'(', ')'}), s)
  {
    ReplaceCharIsDelete(s, '(');
    var a := DeleteChars(s, {'('});
    ReplaceCharIsDelete(a, ')');
    DeleteTwice(s, {'('}, {')'});
    assert {'('} + {')'} == {'(', ')'};
    var b := DeleteChars(s, {'(', ')'});
    ReplaceCharIsMap(b, ' ', '.');
    DeleteCharsMembers(s, {'(', ')'});
    MapCharsClean(b, {' '}, '.');
    DeleteIsSubsequence(s, {'(', ')'});
  }

  // ------------------------------------------------ the year: findall(r'(19|20\d{2})')

  /** The length of the match of `19|20\d{2}` at `p`, alternatives tried in
      order; 0 when neither matches. */
  function YearMatchLen(s: string, p: nat): nat
  {
    if p + 2 <= |s| && s[p] == '1' && s[p + 1] == '9' then 2
    else if p + 4 <= |s| && s[p] == '2' && s[p + 1] == '0' && IsDigit(s[p + 2]) && IsDigit(s[p + 3]) then 4
    else 0
  }

  /** A string the year pattern can match: "19", or "20" and two digits. */
  predicate YearToken(t: string)
  {
    t == "19" || (|t| == 4 && t[0] == '2' && t[1] == '0' && IsDigit(t[2]) && IsDigit(t[3]))
  }

  /** `re.findall` from `p` on: scanning left to right, each match is taken
      and the scan resumes after it. */
  function FindAllYears(s: string, p: nat): (r: seq<string>)
    requires p <= |s|
    ensures forall j :: 0 <= j < |r| ==> YearToken(r[j])
    ensures r == [] <==> forall q: nat :: p <= q < |s| ==> YearMatchLen(s, q) == 0
    decreases |s| - p
  {
    if p == |s| then []
    else
      var n := YearMatchLen(s, p);
      if n == 0 then FindAllYears(s, p + 1)
      else
        assert YearToken(s[p..p + n]);
        [s[p..p + n]] + FindAllYears(s, p + n)
  }

  /** No match of the year pattern starts in `[a, b)`. */
  ghost predicate NoYearIn(s: string, a: nat, b: nat)
  {
    forall q: nat :: a <= q < b ==> YearMatchLen(s, q) == 0
  }

  /** Where the scan from `p` resumes before looking for match `j`: `p` for the
      first match, the end of match `j - 1` afterwards. */
  function ResumeAt(p: nat, ps: seq<nat>, r: seq<string>, j: nat): nat
    requires |ps| == |r| && j <= |r|
  {
    if j == 0 then p else ps[j - 1] + |r[j - 1]|
  }

  /** Match `j` of the scan: it is the first match at or after the position
      where the scan resumed, and it is the text matched there. */
  ghost predicate ScanStep(s: string, p: nat, ps: seq<nat>, r: seq<string>, j: nat)
    requires |ps| == |r| && j < |r|
  {
    && p <= ResumeAt(p, ps, r, j) <= ps[j] && ps[j] + |r[j]| <= |s|
    && YearMatchLen(s, ps[j]) == |r[j]| > 0 && r[j] == s[ps[j]..ps[j] + |r[j]|]
    && NoYearIn(s, ResumeAt(p, ps, r, j), ps[j])
  }

  /** `r` is what a left-to-right, non-overlapping scan from `p` finds, match
      `j` starting at `ps[j]`: each match is the first one at or after the
      position where the scan resumed, and no match starts after the end of
      the last one. */
  ghost predicate ScanOf(s: string, p: nat, ps: seq<nat>, r: seq<string>)
  {
    && |ps| == |r|
    && (forall j :: 0 <= j < |r| ==> ScanStep(s, p, ps, r, j))
    && NoYearIn(s, ResumeAt(p, ps, r, |r|), |s|)
  }

  /** `FindAllYears` is the left-to-right, non-overlapping scan: its matches
      start at positions `ps` that satisfy `ScanOf`. */
  lemma {:induction false} FindAllScan(s: string, p: nat) returns (ps: seq<nat>)
    requires p <= |s|
    ensures ScanOf(s, p, ps, FindAllYears(s, p))
    decreases |s| - p
  {
    var r := FindAllYears(s, p);
    if p == |s| {
      ps := [];
    } else if YearMatchLen(s, p) == 0 {
      ps := FindAllScan(s, p + 1);
      ScanFromEarlier(s, p, ps, r);
    } else {
      var n := YearMatchLen(s, p);
      var ps' := FindAllScan(s, p + n);
      ps := [p] + ps';
      ScanAfterMatch(s, p, ps', FindAllYears(s, p + n));
    }
  }

  /** A position where nothing matches can be added in front of a scan. */
  lemma ScanFromEarlier(s: string, p: nat, ps: seq<nat>, r: seq<string>)
    requires p < |s| && YearMatchLen(s, p) == 0 && ScanOf(s, p + 1, ps, r)
    ensures ScanOf(s, p, ps, r)
  {
    if r == [] {
      assert NoYearIn(s, p, |s|);
    } else {
      forall j | 0 <= j < |r| ensures ScanStep(s, p, ps, r, j) {
        assert ScanStep(s, p + 1, ps, r, j);
        if j == 0 {
          assert NoYearIn(s, p, ps[0]);
        }
      }
    }
  }

  /** A match at `p` followed by the scan from its end is the scan from `p`. */
  lemma ScanAfterMatch(s: string, p: nat, ps: seq<nat>, r: seq<string>)
    requires p < |s| && YearMatchLen(s, p) > 0
    requires ScanOf(s, p + YearMatchLen(s, p), ps, r)
    ensures ScanOf(s, p, [p] + ps, [s[p..p + YearMatchLen(s, p)]] + r)
  {
    var n := YearMatchLen(s, p);
    var ps2, r2 := [p] + ps, [s[p..p + n]] + r;
    assert ResumeAt(p, ps2, r2, |r2|) == ResumeAt(p + n, ps, r, |r|);
    forall j | 0 <= j < |r2| ensures ScanStep(s, p, ps2, r2, j) {
      if j > 0 {
        assert ScanStep(s, p + n, ps, r, j - 1);
        assert ps2[j] == ps[j - 1] && r2[j] == r[j - 1];
        assert ResumeAt(p, ps2, r2, j) == ResumeAt(p + n, ps, r, j - 1);
      }
    }
  }

  /** The match found at `q` when the scan finds nothing after it. */
  ghost predicate FinalYearAt(s: string, q: nat, y: string)
  {
    && q + |y| <= |s| && YearMatchLen(s, q) == |y| && s[q..q + |y|] == y
    && forall q': nat :: q + |y| <= q' < |s| ==> YearMatchLen(s, q') == 0
  }

  /** The last match found from `p` on is the one the scan reaches last: it
      starts at the last of the scan positions, and nothing matches after it. */
  lemma LastYearMatch(s: string, p: nat) returns (ps: seq<nat>, q: nat)
    requires p <= |s| && FindAllYears(s, p) != []
    ensures var r := FindAllYears(s, p);
            && ScanOf(s, p, ps, r) && q == ps[|ps| - 1]
            && p <= q && FinalYearAt(s, q, r[|r| - 1])
  {
    ps := FindAllScan(s, p);
    var r := FindAllYears(s, p);
    q := ps[|ps| - 1];
    assert ScanStep(s, p, ps, r, |r| - 1);
    assert ResumeAt(p, ps, r, |r|) == q + |r[|r| - 1]|;
  }

  /** One step of the scan. */
  lemma FindAllStep(s: string, p: nat)
    requires p < |s|
    ensures YearMatchLen(s, p) == 0 ==> FindAllYears(s, p) == FindAllYears(s, p + 1)
    ensures YearMatchLen(s, p) > 0 ==>
      FindAllYears(s, p) == [s[p..p + YearMatchLen(s, p)]] + FindAllYears(s, p + YearMatchLen(s, p))
  {
  }

  /** `findall(...)` then `year_match[-1]` if the list is not empty. */
  function LastYear(f: string): (r: Option<string>)
    ensures r.None? <==> forall q: nat :: q < |f| ==> YearMatchLen(f, q) == 0
    ensures r.Some? ==> YearToken(r.value)
  {
    var years := FindAllYears(f, 0);
    if years == [] then None else Some(years[|years| - 1])
  }

  /** `year_match[-1]` is the match the left-to-right scan reaches last: None
      exactly when the scan finds nothing, and otherwise the text of the match
      at the last scan position, after which nothing matches. */
  lemma LastYearScanned(f: string) returns (ps: seq<nat>)
    ensures ScanOf(f, 0, ps, FindAllYears(f, 0))
    ensures LastYear(f).None? <==> ps == []
    ensures LastYear(f).Some? ==> ps != [] && FinalYearAt(f, ps[|ps| - 1], LastYear(f).value)
  {
    if FindAllYears(f, 0) == [] {
      ps := FindAllScan(f, 0);
    } else {
      var q;
      ps, q := LastYearMatch(f, 0);
    }
  }

  // ------------------------------------------------ the title: ^(.*?)(?=\b<year>\b)

  /** `\b` at `p`: a word character on exactly one side. */
  predicate BoundaryAt(s: string, p: nat)
    requires p <= |s|
  {
    (p > 0 && IsWordChar(s[p - 1])) != (p < |s| && IsWordChar(s[p]))
  }

  /** The lookahead `(?=\b<y>\b)` holds at `k`. */
  predicate BoundedAt(s: string, k: nat, y: string)
  {
    k + |y| <= |s| && BoundaryAt(s, k) && s[k..k + |y|] == y && BoundaryAt(s, k + |y|)
  }

  /** The lazy `(.*?)`: the first end `k` in `[k0, e]` where the lookahead holds. */
  function LazyNameEnd(s: string, y: string, k0: nat, e: nat): (r: Option<nat>)
    requires k0 <= e
    ensures r.Some? ==> k0 <= r.value <= e && BoundedAt(s, r.value, y)
    ensures r.Some? ==> forall j: nat :: k0 <= j < r.value ==> !BoundedAt(s, j, y)
    ensures r.None? ==> forall j: nat :: k0 <= j <= e ==> !BoundedAt(s, j, y)
    decreases e - k0
  {
    if BoundedAt(s, k0, y) then Some(k0) else if k0 == e then None else LazyNameEnd(s, y, k0 + 1, e)
  }

  /** `get_movie_name`: the last year match in the formatted name, and the
      shortest prefix of its first line that the word-bounded year follows,
      with dots turned into spaces. With no year match `movie_year` is unbound
      when tested and UnboundLocalError is raised; with no title match the
      function falls off its end and returns None. */
  function GetMovieName(s: string): Result<Option<(string, string)>>
  {
    var f := FormatMovieName(s);
    match LastYear(f)
    case None => Raise(UnboundLocalError)
    case Some(year) =>
      // `if movie_year:` -- a match is never empty, so this test always passes.
      if year == [] then Value(None)
      else
        match LazyNameEnd(f, year, 0, LineEnd(f, 0))
        case None => Value(None)
        case Some(k) => Value(Some((ReplaceAll(f[..k], ".", " "), year)))
  }

  /** `get_movie_name` raises UnboundLocalError exactly when the formatted
      name holds no year match, and raises nothing else. */
  lemma MovieYearMissing(s: string)
    ensures var f := FormatMovieName(s);
      GetMovieName(s) == Raise(UnboundLocalError) <==> forall q: nat :: q < |f| ==> YearMatchLen(f, q) == 0
    ensures GetMovieName(s).Raise? ==> GetMovieName(s).error == UnboundLocalError
  {
  }

  /** A title found by `get_movie_name` comes with the last year match, and it
      is the shortest prefix of the first line that the word-bounded year
      follows, with every dot turned into a space. */
  lemma MovieNameFound(s: string, name: string, year: string)
    requires GetMovieName(s) == Value(Some((name, year)))
    ensures var f := FormatMovieName(s);
      && LastYear(f) == Some(year) && YearToken(year)
      && exists k: nat :: && k <= LineEnd(f, 0) && BoundedAt(f, k, year)
                          && (forall j: nat :: j < k ==> !BoundedAt(f, j, year))
                          && name == MapChars(f[..k], {'.'}, ' ')
    ensures '.' !in name
  {
    var f := FormatMovieName(s);
    var k := LazyNameEnd(f, year, 0, LineEnd(f, 0)).value;
    ReplaceCharIsMap(f[..k], '.', ' ');
    MapCharsClean(f[..k], {'.'}, ' ');
  }

  /** Without a title the year was found but no prefix of the first line is
      followed by it, word-bounded. */
  lemma MovieNameMissing(s: string)
    requires GetMovieName(s) == Value(None)
    ensures var f := FormatMovieName(s);
      && LastYear(f).Some?
      && forall k: nat :: k <= LineEnd(f, 0) ==> !BoundedAt(f, k, LastYear(f).value)
  {
  }

  /** A year of the 1900s is read as its first two digits, "19", and since a
      digit follows them the `\b` after the year never holds: when every "19"
      in the formatted name is followed by a digit and "19" is the last year
      match, no title is found, and the file gets no destination. */
  lemma CenturyYearFindsNoTitle(s: string)
    requires var f := FormatMovieName(s);
      && LastYear(f) == Some("19")
      && forall k: nat :: k + 2 <= |f| && f[k] == '1' && f[k + 1] == '9' ==> k + 2 < |f| && IsDigit(f[k + 2])
    ensures GetMovieName(s) == Value(None)
  {
    NoBoundedCentury(FormatMovieName(s));
  }

  lemma NoBoundedCentury(f: string)
    requires forall k: nat :: k + 2 <= |f| && f[k] == '1' && f[k + 1] == '9' ==> k + 2 < |f| && IsDigit(f[k + 2])
    ensures forall k: nat :: !BoundedAt(f, k, "19")
  {
    forall k: nat ensures !BoundedAt(f, k, "19") {
      if k + 2 <= |f| && f[k..k + 2] == "19" {
        assert f[k] == f[k..k + 2][0] && f[k + 1] == f[k..k + 2][1];
        assert IsWordChar(f[k + 1]) && IsWordChar(f[k + 2]);
      }
    }
  }

  // ------------------------------------------------ the metadata service

  /** One entry of the `results` list of the movie search. */
  datatype Record = Record(title: string, releaseDate: string)

  /** The movie search always carries the year. */
  datatype Query = Query(name: string, year: string)

  /** `parse_movie_info`: the title with its colons rewritten and then the
      invalid characters deleted, and the release date before its first dash. */
  function ParseMovieInfo(r: Record): (info: (string, string))
    ensures forall c :: c in info.0 ==> c !in InvalidChars
    ensures info.1 <= r.releaseDate && '-' !in info.1
    ensures info.1 == r.releaseDate || r.releaseDate[|info.1|] == '-'
  {
    StripInvalidSpec(RemoveColon(r.title));
    (StripInvalid(RemoveColon(r.title)), BeforeFirst(r.releaseDate, '-'))
  }

  /** `get_movie_info`: a None from `get_movie_name` cannot be unpacked and
      raises TypeError; otherwise the search is made, and the first result is
      parsed, or None is returned when there is none. */
  function GetMovieInfo(s: string, search: Query -> seq<Record>): Result<Option<(string, string)>>
  {
    match GetMovieName(s)
    case Raise(e) => Raise(e)
    case Value(None) => Raise(TypeError)
    case Value(Some((name, year))) =>
      var results := search(Query(name, year));
      if |results| > 0 then Value(Some(ParseMovieInfo(results[0]))) else Value(None)
  }

  /** `rename_movie_file`. */
  function RenameMovieFile(name: string, year: string, ext: string): string
  {
    name + " (" + year + ")" + ext
  }

  /** `process`: TypeError, raised by `get_movie_info` or by unpacking its
      None, is caught and logged and the function returns None; any other
      exception escapes. */
  function Process(path: string, movies: string, search: Query -> seq<Record>): Result<Option<string>>
  {
    var fileName := Basename(path);
    var ext := Extension(fileName);
    match GetMovieInfo(fileName, search)
    case Raise(TypeError) => Value(None)
    case Raise(e) => Raise(e)
    case Value(None) => Value(None)
    case Value(Some((name, year))) => Value(Some(Join(movies, RenameMovieFile(name, year, ext))))
  }

  /** The destination is `<movies>/<name> (<year>)<ext>` with the extension of
      the original file name: the cleaned title holds no `/`, so the join
      never discards the movies directory.
      The root directory is whatever the user configured, and the layout is
      stated for one written without a trailing `/`; for one that ends in
      `/`, `os.path.join` adds no second separator (`Py.Join`), and the path
      is the same without the `/` between the root and the rest. */
  lemma MovieDestination(path: string, movies: string, search: Query -> seq<Record>, name: string, year: string)
    requires GetMovieInfo(Basename(path), search) == Value(Some((name, year)))
    requires movies != [] && movies[|movies| - 1] != '/'
    ensures Process(path, movies, search) == Value(Some(movies + "/" + name + " (" + year + ")" + Extension(Basename(path))))
  {
    var ext := Extension(Basename(path));
    assert Process(path, movies, search) == Value(Some(Join(movies, RenameMovieFile(name, year, ext))));
    ParseMovieInfoNoSlash(Basename(path), search, name, year);
    MoviePath(movies, name, year, ext);
  }

  lemma ParseMovieInfoNoSlash(s: string, search: Query -> seq<Record>, name: string, year: string)
    requires GetMovieInfo(s, search) == Value(Some((name, year)))
    ensures '/' !in name
  {
    assert '/' in InvalidChars;
  }

  lemma MoviePath(movies: string, name: string, year: string, ext: string)
    requires movies != [] && movies[|movies| - 1] != '/' && '/' !in name
    ensures Join(movies, RenameMovieFile(name, year, ext)) == movies + "/" + name + " (" + year + ")" + ext
  {
    var file := RenameMovieFile(name, year, ext);
    assert file[0] == ' ' || file[0] == name[0] by {
      if name == [] {
        assert file == " (" + year + ")" + ext;
      }
    }
    JoinPlain(movies, file);
  }

  /** Once the name and year are read: an empty result list gives no path,
      and otherwise the outcome depends on the first result alone. */
  lemma MovieFirstResult(path: string, movies: string, search: Query -> seq<Record>, name: string, year: string)
    requires GetMovieName(Basename(path)) == Value(Some((name, year)))
    ensures search(Query(name, year)) == [] ==> Process(path, movies, search) == Value(None)
    ensures search(Query(name, year)) != [] ==>
      GetMovieInfo(Basename(path), search) == Value(Some(ParseMovieInfo(search(Query(name, year))[0])))
  {
  }

  /** A title that cannot be found is skipped quietly: when no word-bounded
      year follows a prefix of the first line, the result is None. */
  lemma MissingTitleGivesNone(path: string, movies: string, search: Query -> seq<Record>)
    requires GetMovieName(Basename(path)) == Value(None)
    ensures Process(path, movies, search) == Value(None)
  {
  }

  /** Only the first search result matters. */
  lemma OnlyFirstResultUsed(path: string, movies: string, search: Query -> seq<Record>, search': Query -> seq<Record>)
    requires forall q :: (search(q) == []) == (search'(q) == [])
    requires forall q :: search(q) != [] ==> search(q)[0] == search'(q)[0]
    ensures Process(path, movies, search) == Process(path, movies, search')
  {
    match GetMovieName(Basename(path))
    case Raise(_) =>
    case Value(None) =>
    case Value(Some((name, year))) =>
      var q := Query(name, year);
      assert (search(q) == []) == (search'(q) == []);
      if search(q) != [] {
        assert search(q)[0] == search'(q)[0];
      }
  }

  /** The only exception that escapes is UnboundLocalError, raised exactly
      when the formatted name holds no year match. */
  lemma ProcessOutcomes(path: string, movies: string, search: Query -> seq<Record>)
    ensures Process(path, movies, search).Raise? ==> Process(path, movies, search).error == UnboundLocalError
    ensures var f := FormatMovieName(Basename(path));
      Process(path, movies, search).Raise? <==> forall q: nat :: q < |f| ==> YearMatchLen(f, q) == 0
  {
    MovieYearMissing(Basename(path));
    ProcessRaises(path, movies, search);
  }

  /** `process` raises exactly what `get_movie_name` raises. */
  lemma ProcessRaises(path: string, movies: string, search: Query -> seq<Record>)
    ensures Process(path, movies, search).Raise? <==> GetMovieName(Basename(path)).Raise?
    ensures Process(path, movies, search).Raise? ==> Process(path, movies, search).error == GetMovieName(Basename(path)).error
  {
    MovieYearMissing(Basename(path));
    InfoRaises(Basename(path), search);
  }

  /** `get_movie_info` passes on what `get_movie_name` raises, and otherwise
      raises only TypeError. */
  lemma InfoRaises(s: string, search: Query -> seq<Record>)
    ensures GetMovieName(s).Raise? ==> GetMovieInfo(s, search) == Raise(GetMovieName(s).error)
    ensures GetMovieName(s).Value? && GetMovieInfo(s, search).Raise? ==> GetMovieInfo(s, search) == Raise(TypeError)
  {
  }
  // ------------------------------------------------ worked examples

  /** The scan passes over positions where no year starts. */
  lemma {:induction false} FindAllSkip(s: string, p: nat, p2: nat)
    requires p <= p2 <= |s|
    requires forall q: nat :: p <= q < p2 ==> YearMatchLen(s, q) == 0
    ensures FindAllYears(s, p) == FindAllYears(s, p2)
    decreases p2 - p
  {
    if p < p2 {
      FindAllSkip(s, p + 1, p2);
    }
  }

  /** The scan resumes after each match, so the "19" of "1999" is taken and the
      "99" is passed over: the last match in "Movie.1999.Director.Cut.2020.mkv"
      is "2020". */
  lemma ExampleLastYear(f: string)
    requires f == "Movie.1999.Director.Cut.2020.mkv"
    ensures FindAllYears(f, 0) == ["19", "2020"]
    ensures LastYear(f) == Some("2020")
  {
    var tail := ExampleLaterYears(f);
    ExampleFirstYear(f);
  }

  lemma ExampleFirstYear(f: string)
    requires f == "Movie.1999.Director.Cut.2020.mkv"
    ensures FindAllYears(f, 0) == ["19"] + FindAllYears(f, 8)
  {
    assert forall q: nat :: q < 6 ==> f[q] != '1' && f[q] != '2';
    FindAllSkip(f, 0, 6);
    CenturyAt(f, 6);
  }

  /** A "1" followed by a "9" is a match of two characters, "19". */
  lemma CenturyAt(f: string, p: nat)
    requires p + 2 <= |f| && f[p] == '1' && f[p + 1] == '9'
    ensures FindAllYears(f, p) == ["19"] + FindAllYears(f, p + 2)
  {
    FindAllStep(f, p);
    assert f[p..p + 2] == "19";
  }

  lemma ExampleLaterYears(f: string) returns (tail: seq<string>)
    requires f == "Movie.1999.Director.Cut.2020.mkv"
    ensures tail == FindAllYears(f, 8) == ["2020"]
  {
    assert forall q: nat :: 8 <= q < 24 ==> f[q] != '1' && f[q] != '2';
    FindAllSkip(f, 8, 24);
    assert YearMatchLen(f, 24) == 4 && f[24..28] == "2020";
    assert FindAllYears(f, 28) == [] by {
      assert forall q: nat :: 28 <= q < |f| ==> f[q] != '1' && f[q] != '2';
    }
    FindAllStep(f, 24);
    tail := FindAllYears(f, 8);
  }

  /** "The.Great.Movie.2021.mkv" has no parenthesis and no space to format. */
  lemma ExampleFormatted(s: string)
    requires s == "The.Great.Movie.2021.mkv"
    ensures FormatMovieName(s) == s
  {
    FormatMovieNameSpec(s);
    assert DeleteChars(s, {'(', ')'}) == s by {
      DeleteUnchanged(s, {'(', ')'});
      assert forall i :: 0 <= i < |s| ==> s[i] != '(' && s[i] != ')';
    }
    assert MapChars(s, {' '}, '.') == s by {
      assert forall i :: 0 <= i < |s| ==> s[i] != ' ';
    }
  }

  lemma ExampleYear(f: string)
    requires f == "The.Great.Movie.2021.mkv"
    ensures LastYear(f) == Some("2021")
  {
    assert forall q: nat :: q < 16 ==> f[q] != '1' && f[q] != '2';
    FindAllSkip(f, 0, 16);
    assert YearMatchLen(f, 16) == 4;
    assert FindAllYears(f, 20) == [] by {
      assert forall q: nat :: 20 <= q < |f| ==> f[q] != '1' && f[q] != '2';
    }
    assert FindAllYears(f, 16) == [f[16..20]] + FindAllYears(f, 20);
    assert f[16..20] == "2021";
  }

  lemma ExampleTitleEnd(f: string)
    requires f == "The.Great.Movie.2021.mkv"
    ensures LazyNameEnd(f, "2021", 0, LineEnd(f, 0)) == Some(16)
  {
    LineEndWithoutNewline(f, 0);
    assert BoundedAt(f, 16, "2021");
    forall j: nat | j < 16 ensures !BoundedAt(f, j, "2021") {
      assert f[j] != '2';
      if j + 4 <= |f| {
        assert f[j..j + 4][0] == f[j];
      }
    }
  }

  lemma ExampleTitle(f: string)
    requires f == "The.Great.Movie.2021.mkv"
    ensures ReplaceAll(f[..16], ".", " ") == "The Great Movie "
  {
    ReplaceCharIsMap(f[..16], '.', ' ');
    var m := MapChars(f[..16], {'.'}, ' ');
    assert forall i :: 0 <= i < 16 ==> m[i] == if f[i] == '.' then ' ' else f[i];
    assert m == "The Great Movie ";
  }

  /** The query read from "The.Great.Movie.2021.mkv" is the title with its dots
      as spaces (the one before the year included) and the year "2021". */
  lemma ExampleQuery()
    ensures GetMovieName("The.Great.Movie.2021.mkv") == Value(Some(("The Great Movie ", "2021")))
  {
    var s := "The.Great.Movie.2021.mkv";
    ExampleFormatted(s);
    ExampleYear(s);
    ExampleTitleEnd(s);
    ExampleTitle(s);
  }

  /** The first result "The Great Movie", released 2021-05-01, is kept as it is,
      with the year "2021". */
  lemma ExampleRecord(title: string, date: string)
    requires title == "The Great Movie" && date == "2021-05-01"
    ensures ParseMovieInfo(Record(title, date)) == (title, "2021")
  {
    PlainTextKept(title);
    BeforeFirstAt(date, '-', 4);
    assert date[..4] == "2021";
  }

  /** End to end: with a service whose first result is "The Great Movie",
      released 2021-05-01, the file lands at "movies/The Great Movie (2021).mkv". */
  lemma ExampleDestination(source: string)
    ensures Process(Join(source, "The.Great.Movie.2021.mkv"), "movies",
                    _ => [Record("The Great Movie", "2021-05-01")])
         == Value(Some("movies/The Great Movie (2021).mkv"))
  {
    var name := "The.Great.Movie.2021.mkv";
    var search: Query -> seq<Record> := _ => [Record("The Great Movie", "2021-05-01")];
    BasenameOfJoin(source, name);
    ExampleExtension(name);
    ExampleQuery();
    ExampleRecord("The Great Movie", "2021-05-01");
    assert GetMovieInfo(name, search) == Value(Some(("The Great Movie", "2021")));
    var path := Join(source, name);
    var file := RenameMovieFile("The Great Movie", "2021", ".mkv");
    assert Process(path, "movies", search) == Value(Some(Join("movies", file)));
    JoinPlain("movies", file);
    ExamplePathText(file);
  }

  lemma ExampleExtension(name: string)
    requires name == "The.Great.Movie.2021.mkv"
    ensures Basename(name) == name && Extension(name) == ".mkv"
  {
    ExtensionAt(name, 20);
    assert name[20..] == ".mkv";
  }

  lemma ExamplePathText(file: string)
    requires file == RenameMovieFile("The Great Movie", "2021", ".mkv")
    ensures "movies" + "/" + file == "movies/The Great Movie (2021).mkv"
  {
  }
}
