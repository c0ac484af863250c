/** The TV-show handler (plugins/show.py): it reads the show title, an optional
    year, and the season and episode numbers out of a file name, looks the
    show up in the metadata service, and builds the destination
    `<shows>/<Name> (<Year>)/Season <s>/<Name> - S<s>E<e> - <Title><ext>`. */
module Show {
  import opened Py
  import opened Sanitize

  // ------------------------------------------------ the pattern (?i)(S(\d+))(E(\d+))

  /** `S` under `(?i)`: Python's case-insensitive match also accepts the long s. */
  predicate IsS(c: char) { c == 'S' || c == 's' || c == '\U{017F}' }

  predicate IsE(c: char) { c == 'E' || c == 'e' }

  /** Every position in `[a, b)` holds an ASCII digit. */
  predicate DigitsIn(s: string, a: nat, b: nat)
  {
    forall k :: a <= k < b ==> k < |s| && IsDigit(s[k])
  }

  lemma DigitsInSlice(s: string, a: nat, b: nat)
    requires a <= b <= |s| && DigitsIn(s, a, b)
    ensures AllDigits(s[a..b])
  {
    forall k | 0 <= k < b - a ensures IsDigit(s[a..b][k]) {
      assert s[a..b][k] == s[a + k];
    }
  }

  /** The length of the run of digits that starts at `i`: what a greedy `\d+`
      (or `\d*`) consumes. */
  function DigitRun(s: string, i: nat): (n: nat)
    requires i <= |s|
    ensures i + n <= |s| && DigitsIn(s, i, i + n)
    ensures i + n == |s| || !IsDigit(s[i + n])
    decreases |s| - i
  {
    if i < |s| && IsDigit(s[i]) then 1 + DigitRun(s, i + 1) else 0
  }

  /** The regular expression's meaning: at `i` stand an S, `m` digits, an E and
      `n` digits. */
  ghost predicate PatternAt(s: string, i: nat, m: nat, n: nat)
  {
    && 0 < m && 0 < n && i + m + n + 2 <= |s|
    && IsS(s[i]) && DigitsIn(s, i + 1, i + 1 + m)
    && IsE(s[i + 1 + m]) && DigitsIn(s, i + 2 + m, i + 2 + m + n)
  }

  ghost predicate HasPattern(s: string)
  {
    exists i: nat, m: nat, n: nat :: PatternAt(s, i, m, n)
  }

  /** The match attempt at `i`: the greedy season run must be followed by an E
      and at least one digit. */
  predicate MatchAt(s: string, i: nat)
  {
    && i < |s| && IsS(s[i])
    && var m := DigitRun(s, i + 1);
       0 < m && i + 1 + m < |s| && IsE(s[i + 1 + m]) && DigitRun(s, i + 2 + m) > 0
  }

  /** Backtracking cannot help: the season digits end where the E begins, so
      the greedy attempt succeeds exactly when the pattern occurs at `i`. */
  lemma MatchAtIffPattern(s: string, i: nat)
    ensures MatchAt(s, i) <==> exists m: nat, n: nat :: PatternAt(s, i, m, n)
  {
    if MatchAt(s, i) {
      MatchAtGivesPattern(s, i);
    }
    forall m: nat, n: nat | PatternAt(s, i, m, n) ensures MatchAt(s, i) {
      PatternGivesMatch(s, i, m, n);
    }
  }

  /** A successful attempt is an occurrence with the two greedy runs. */
  lemma MatchAtGivesPattern(s: string, i: nat)
    requires MatchAt(s, i)
    ensures PatternAt(s, i, DigitRun(s, i + 1), DigitRun(s, i + 2 + DigitRun(s, i + 1)))
  {
  }

  /** An occurrence makes the attempt succeed, with the season run exactly `m` long. */
  lemma PatternGivesMatch(s: string, i: nat, m: nat, n: nat)
    requires PatternAt(s, i, m, n)
    ensures DigitRun(s, i + 1) == m && MatchAt(s, i)
  {
    DigitRunExact(s, i + 1, m);
    DigitRunAtLeast(s, i + 2 + m, n);
  }

  lemma {:induction false} DigitRunAtLeast(s: string, i: nat, m: nat)
    requires i + m <= |s| && DigitsIn(s, i, i + m)
    ensures DigitRun(s, i) >= m
    decreases m
  {
    if m > 0 {
      assert IsDigit(s[i]);
      DigitRunAtLeast(s, i + 1, m - 1);
    }
  }

  lemma {:induction false} DigitRunExact(s: string, i: nat, m: nat)
    requires i + m < |s| && DigitsIn(s, i, i + m) && !IsDigit(s[i + m])
    ensures DigitRun(s, i) == m
    decreases m
  {
    if m > 0 {
      assert IsDigit(s[i]);
      DigitRunExact(s, i + 1, m - 1);
    }
  }

  /** No attempt before `i` succeeded, so the pattern occurs nowhere before `i`. */
  lemma NoPatternBefore(s: string, i: nat)
    requires forall j: nat :: j < i ==> !MatchAt(s, j)
    ensures forall j: nat, m: nat, n: nat :: j < i ==> !PatternAt(s, j, m, n)
  {
    forall j: nat, m: nat, n: nat | j < i ensures !PatternAt(s, j, m, n) {
      MatchAtIffPattern(s, j);
    }
  }

  /** `re.search` for the episode pattern: the leftmost position from `i` on
      where the match succeeds. */
  function FindPattern(s: string, i: nat): (r: Option<nat>)
    requires i <= |s|
    ensures r.Some? ==> i <= r.value < |s| && MatchAt(s, r.value)
    ensures r.Some? ==> forall j: nat :: i <= j < r.value ==> !MatchAt(s, j)
    ensures r.None? ==> forall j: nat :: i <= j < |s| ==> !MatchAt(s, j)
    decreases |s| - i
  {
    if i == |s| then None else if MatchAt(s, i) then Some(i) else FindPattern(s, i + 1)
  }

  /** The leftmost match: where it starts and how long its season and
      episode runs are. */
  function EpisodeMatch(s: string): (r: Option<(nat, nat, nat)>)
    ensures r.Some? ==> r.value.0 + 2 + r.value.1 + r.value.2 <= |s|
  {
    match FindPattern(s, 0)
    case None => None
    case Some(i) =>
      var m := DigitRun(s, i + 1);
      Some((i, m, DigitRun(s, i + 2 + m)))
  }

  /** Groups 2 and 4 (season and episode digits) of the leftmost match. */
  function EpisodeGroups(s: string): Option<(string, string)>
  {
    match EpisodeMatch(s)
    case None => None
    case Some((i, m, n)) => Some((s[i + 1..i + 1 + m], s[i + 2 + m..i + 2 + m + n]))
  }

  /** `get_season_num`: `.group(2)` on a failed search raises AttributeError. */
  function GetSeasonNum(s: string): Result<string>
  {
    match EpisodeGroups(s)
    case None => Raise(AttributeError)
    case Some(g) => Value(g.0)
  }

  /** `get_episode_num`: the same search, group 4. */
  function GetEpisodeNum(s: string): Result<string>
  {
    match EpisodeGroups(s)
    case None => Raise(AttributeError)
    case Some(g) => Value(g.1)
  }

  /** The leftmost occurrence of the pattern is at `i`, with an `m`-digit
      season and an `n`-digit episode, both runs taken in full. */
  ghost predicate FirstMatch(s: string, i: nat, m: nat, n: nat)
  {
    && PatternAt(s, i, m, n)
    && (i + 2 + m + n == |s| || !IsDigit(s[i + 2 + m + n]))
    && forall j: nat, m': nat, n': nat :: j < i ==> !PatternAt(s, j, m', n')
  }

  /** Both numbers come from one and the same match, with their digits kept as
      written (`S02E05` gives "02" and "05"); without a match both raise
      AttributeError. */
  lemma EpisodeNumbers(s: string)
    ensures GetSeasonNum(s).Value? <==> HasPattern(s)
    ensures GetEpisodeNum(s).Value? <==> HasPattern(s)
    ensures !HasPattern(s) ==> GetSeasonNum(s) == Raise(AttributeError) && GetEpisodeNum(s) == Raise(AttributeError)
    ensures HasPattern(s) ==> exists i: nat, m: nat, n: nat ::
      && FirstMatch(s, i, m, n)
      && GetSeasonNum(s) == Value(s[i + 1..i + 1 + m])
      && GetEpisodeNum(s) == Value(s[i + 2 + m..i + 2 + m + n])
  {
    PatternFound(s);
    if FindPattern(s, 0).Some? {
      var i, m, n := NumbersOfFirstMatch(s);
    }
  }

  /** After a successful search both numbers are read from its match. */
  lemma NumbersOfFirstMatch(s: string) returns (i: nat, m: nat, n: nat)
    requires FindPattern(s, 0).Some?
    ensures FirstMatch(s, i, m, n)
    ensures GetSeasonNum(s) == Value(s[i + 1..i + 1 + m])
    ensures GetEpisodeNum(s) == Value(s[i + 2 + m..i + 2 + m + n])
  {
    i := FindPattern(s, 0).value;
    m := DigitRun(s, i + 1);
    n := DigitRun(s, i + 2 + m);
    FirstMatchOf(s, i);
    assert EpisodeMatch(s) == Some((i, m, n));
    GroupsOfMatch(s, i, m, n);
  }

  lemma GroupsOfMatch(s: string, i: nat, m: nat, n: nat)
    requires EpisodeMatch(s) == Some((i, m, n))
    ensures GetSeasonNum(s) == Value(s[i + 1..i + 1 + m])
    ensures GetEpisodeNum(s) == Value(s[i + 2 + m..i + 2 + m + n])
  {
  }

  /** A successful attempt with none before it is the first match. */
  lemma FirstMatchOf(s: string, i: nat)
    requires MatchAt(s, i) && forall j: nat :: j < i ==> !MatchAt(s, j)
    ensures FirstMatch(s, i, DigitRun(s, i + 1), DigitRun(s, i + 2 + DigitRun(s, i + 1)))
  {
    NoPatternBefore(s, i);
    MatchAtGivesPattern(s, i);
  }

  /** The search succeeds exactly when the pattern occurs somewhere. */
  lemma PatternFound(s: string)
    ensures FindPattern(s, 0).Some? <==> HasPattern(s)
  {
    var r := FindPattern(s, 0);
    if r.Some? {
      var i := r.value;
      var m := DigitRun(s, i + 1);
      var n := DigitRun(s, i + 2 + m);
      assert PatternAt(s, i, m, n);
    } else {
      NoPatternBefore(s, |s|);
      forall i: nat, m: nat, n: nat ensures !PatternAt(s, i, m, n) {
      }
    }
  }

  // ------------------------------------------------ check_for_year: (.*)((\(|\.)([0-9]{4})(\)|\.))

  /** The year group at `k`: `(` or `.`, four ASCII digits, `)` or `.`. */
  predicate YearGroupAt(s: string, k: nat)
  {
    k + 6 <= |s| && (s[k] == '(' || s[k] == '.') && AllDigits(s[k + 1..k + 5]) && (s[k + 5] == ')' || s[k + 5] == '.')
  }

  /** The last year group that starts in `[p, k]`: where the greedy `(.*)`
      gives back just enough for the group to match. */
  function LastYearGroup(s: string, p: nat, k: nat): (r: Option<nat>)
    requires p <= k
    ensures r.Some? ==> p <= r.value <= k && YearGroupAt(s, r.value)
    ensures r.Some? ==> forall g: nat :: r.value < g <= k ==> !YearGroupAt(s, g)
    ensures r.None? ==> forall g: nat :: p <= g <= k ==> !YearGroupAt(s, g)
    decreases k - p
  {
    if YearGroupAt(s, k) then Some(k) else if k == p then None else LastYearGroup(s, p, k - 1)
  }

  /** `re.search` for the year pattern, trying the starts `p`, `p + 1`, ... in
      turn: the first start from which a group is reachable on the same line,
      with the last such group. The result is (start of group 1, start of the
      year group). */
  function YearSearch(s: string, p: nat): (r: Option<(nat, nat)>)
    requires p <= |s|
    ensures r.Some? ==> var (q, k) := r.value;
      && p <= q <= |s| && q <= k <= LineEnd(s, q) && YearGroupAt(s, k)
      && (forall g: nat :: k < g <= LineEnd(s, q) ==> !YearGroupAt(s, g))
      && (forall q': nat :: p <= q' < q ==> LastYearGroup(s, q', LineEnd(s, q')).None?)
    ensures r.None? ==> forall q': nat :: p <= q' <= |s| ==> LastYearGroup(s, q', LineEnd(s, q')).None?
    decreases |s| - p
  {
    match LastYearGroup(s, p, LineEnd(s, p))
    case Some(k) => Some((p, k))
    case None => if p == |s| then None else YearSearch(s, p + 1)
  }

  // ------------------------------------------------ get_show_name: (?i)(^.*)(?=S\d+)

  /** The lookahead `(?=S\d+)` holds at `k`. */
  predicate SDigitAt(s: string, k: nat)
  {
    k + 1 < |s| && IsS(s[k]) && IsDigit(s[k + 1])
  }

  /** The last position in `[0, k]` where the lookahead holds. */
  function LastSDigit(s: string, k: nat): (r: Option<nat>)
    ensures r.Some? ==> r.value <= k && SDigitAt(s, r.value)
    ensures r.Some? ==> forall g: nat :: r.value < g <= k ==> !SDigitAt(s, g)
    ensures r.None? ==> forall g: nat :: g <= k ==> !SDigitAt(s, g)
    decreases k
  {
    if SDigitAt(s, k) then Some(k) else if k == 0 then None else LastSDigit(s, k - 1)
  }

  /** `get_show_name`: the greedy `(^.*)` keeps the longest prefix of the first
      line that an S and a digit follow, and `strip` is applied to it; a name
      with dots has them turned into spaces, then one with dashes loses them,
      each time followed by `strip`. With no match the local `show_name` is
      never bound and the first use of it raises UnboundLocalError. */
  function GetShowName(s: string): Result<string>
  {
    match LastSDigit(s, LineEnd(s, 0))
    case None => Raise(UnboundLocalError)
    case Some(k) => Value(Undash(Undot(Strip(s[..k]))))
  }

  /** A name with dots has them turned into spaces and is stripped again. */
  function Undot(name: string): string
  {
    if '.' in name then Strip(ReplaceAll(name, ".", " ")) else name
  }

  /** A name with dashes loses them and is stripped again. */
  function Undash(name: string): string
  {
    if '-' in name then Strip(ReplaceAll(name, "-", "")) else name
  }

  /** The name is found exactly when the lookahead holds somewhere on the first
      line; it is then the stripped text before the last such position, with
      dots turned into spaces and dashes deleted, and it contains no dot and no
      dash and has no surrounding whitespace. Otherwise the function raises
      UnboundLocalError. */
  lemma GetShowNameSpec(s: string)
    ensures GetShowName(s).Value? <==> exists k: nat :: k <= LineEnd(s, 0) && SDigitAt(s, k)
    ensures GetShowName(s).Raise? ==> GetShowName(s).error == UnboundLocalError
    ensures GetShowName(s).Value? ==>
      exists k: nat :: k <= LineEnd(s, 0) && SDigitAt(s, k)
        && (forall g: nat :: k < g <= LineEnd(s, 0) ==> !SDigitAt(s, g))
        && GetShowName(s).value == Undash(Undot(Strip(s[..k])))
    ensures GetShowName(s).Value? ==>
      var n := GetShowName(s).value; '.' !in n && '-' !in n && Stripped(n)
  {
    match LastSDigit(s, LineEnd(s, 0))
    case None =>
    case Some(k) =>
      StripEnds(s[..k]);
      UndotSpec(Strip(s[..k]));
      UndashSpec(Undot(Strip(s[..k])));
  }

  /** Turning the dots into spaces is the character map `'.' -> ' '`, and the
      result of a stripped name has no dot and no surrounding whitespace. */
  lemma UndotSpec(name: string)
    requires Stripped(name)
    ensures Undot(name) == if '.' in name then Strip(MapChars(name, {'.'}, ' ')) else name
    ensures '.' !in Undot(name) && Stripped(Undot(name))
  {
    if '.' in name {
      ReplaceCharIsMap(name, '.', ' ');
      MapCharsClean(name, {'.'}, ' ');
      StripKeepsAbsent(ReplaceAll(name, ".", " "), '.');
      StripEnds(ReplaceAll(name, ".", " "));
    }
  }

  /** Deleting the dashes is the character deletion of `{'-'}`; a stripped
      name without dots keeps both properties and loses every dash. */
  lemma UndashSpec(name: string)
    requires '.' !in name && Stripped(name)
    ensures Undash(name) == if '-' in name then Strip(DeleteChars(name, {'-'})) else name
    ensures '.' !in Undash(name) && '-' !in Undash(name) && Stripped(Undash(name))
  {
    if '-' in name {
      ReplaceCharIsDelete(name, '-');
      DeleteCharsMembers(name, {'-'});
      StripKeepsAbsent(ReplaceAll(name, "-", ""), '.');
      StripKeepsAbsent(ReplaceAll(name, "-", ""), '-');
      StripEnds(ReplaceAll(name, "-", ""));
    }
  }

  /** `check_for_year`: when the year pattern matches, group 1 (stripped) and
      the four year digits; otherwise the name from `get_show_name` and "". */
  function CheckForYear(s: string): Result<(string, string)>
  {
    match YearSearch(s, 0)
    case Some((q, k)) => Value((Strip(s[q..k]), s[k + 1..k + 5]))
    case None =>
      match GetShowName(s)
      case Value(name) => Value((name, ""))
      case Raise(e) => Raise(e)
  }

  /** For a one-line name containing a year group: the last group wins, the
      name is everything before it, stripped, and the year is its four digits. */
  lemma CheckForYearFound(s: string, g: nat)
    requires '\n' !in s && YearGroupAt(s, g)
    ensures exists k: nat :: g <= k && YearGroupAt(s, k) && (forall g': nat :: k < g' ==> !YearGroupAt(s, g'))
                    && CheckForYear(s) == Value((Strip(s[..k]), s[k + 1..k + 5]))
                    && |s[k + 1..k + 5]| == 4 && AllDigits(s[k + 1..k + 5])
  {
    LineEndWithoutNewline(s, 0);
    var e := LineEnd(s, 0);
    var r := YearSearch(s, 0);
    var k := LastYearGroup(s, 0, e).value;
    assert r == Some((0, k));
    assert s[0..k] == s[..k];
    assert CheckForYear(s) == Value((Strip(s[..k]), s[k + 1..k + 5]));
  }

  /** Without any year group the year is "" and the name step decides, its
      exception included. */
  lemma CheckForYearAbsent(s: string)
    requires forall g: nat :: !YearGroupAt(s, g)
    ensures GetShowName(s).Value? ==> CheckForYear(s) == Value((GetShowName(s).value, ""))
    ensures GetShowName(s).Raise? ==> CheckForYear(s) == Raise(GetShowName(s).error)
  {
  }

  // ------------------------------------------------ the metadata service

  /** One entry of the `results` list of the TV search. */
  datatype Record = Record(id: int, name: string, firstAirDate: string)

  /** The TV search: the title, and the year when one was read from the file name. */
  datatype Query = Query(name: string, year: Option<string>)

  /** The episode-details request. */
  datatype EpisodeQuery = EpisodeQuery(showId: int, season: string, episode: string)

  /** The episode-details reply: one marked `"success": false`, or one with a `name`. */
  datatype EpisodeReply = EpisodeMissing | Episode(name: string)

  /** What `get_show_info` returns when the search found something. */
  datatype Info = Info(name: string, year: string, season: string, episode: string, title: string)

  /** The year narrows the search only when it is not empty (`if show_year:`). */
  function ShowQuery(name: string, year: string): (q: Query)
    ensures q.name == name
    ensures q.year.Some? <==> year != ""
    ensures q.year.Some? ==> q.year.value == year
  {
    Query(name, if year != "" then Some(year) else None)
  }

  /** `parse_show_info`: the id, the title with its colons rewritten, and the
      text of the first-air date before its first dash. */
  function ParseShowInfo(r: Record): (int, string, string)
  {
    (r.id, RemoveColon(r.name), BeforeFirst(r.firstAirDate, '-'))
  }

  /** `get_episode_title`: "" when the service reports failure, otherwise the
      episode's name with the invalid characters deleted. */
  function GetEpisodeTitle(reply: EpisodeReply): (t: string)
    ensures reply.EpisodeMissing? ==> t == ""
    ensures forall c :: c in t ==> c !in InvalidChars
    ensures reply.Episode? ==> IsSubsequence(t, reply.name)
    ensures reply.Episode? ==> forall c :: c in reply.name && c !in InvalidChars ==> c in t
    ensures reply.Episode? ==> forall c :: c !in InvalidChars ==> multiset(t)[c] == multiset(reply.name)[c]
  {
    match reply
    case EpisodeMissing => ""
    case Episode(name) =>
      StripInvalidSpec(name);
      StripInvalid(name)
  }

  /** `get_show_info`: the name and year go to the search; with no result the
      function falls off its end and returns None; otherwise the first result
      is parsed and the season, episode and episode title are added. */
  function GetShowInfo(s: string, search: Query -> seq<Record>, lookup: EpisodeQuery -> EpisodeReply): Result<Option<Info>>
  {
    match CheckForYear(s)
    case Raise(e) => Raise(e)
    case Value((name, year)) =>
      var results := search(ShowQuery(name, year));
      if |results| > 0 then
        var (id, showName, showYear) := ParseShowInfo(results[0]);
        match GetSeasonNum(s)
        case Raise(e) => Raise(e)
        case Value(season) =>
          match GetEpisodeNum(s)
          case Raise(e) => Raise(e)
          case Value(episode) =>
            var title := GetEpisodeTitle(lookup(EpisodeQuery(id, season, episode)));
            Value(Some(Info(showName, showYear, season, episode, title)))
      else Value(None)
  }

  // ------------------------------------------------ the destination

  /** The path part of `create_show_dirs`: `<shows>/<name> (<year>)/Season <season>`. */
  function SeasonDir(shows: string, name: string, year: string, season: string): string
  {
    Join(Join(shows, name + " (" + year + ")"), "Season " + season)
  }

  /** `rename_show_file`. */
  function RenameShowFile(name: string, season: string, episode: string, title: string, ext: string): string
  {
    name + " - S" + season + "E" + episode + " - " + title + ext
  }

  /** `process`: the destination of the file at `path`. When the search has
      no result, unpacking the None that `get_show_info` returns raises
      TypeError, which is caught, logged, and the function returns None.
      Every other exception escapes. */
  function Process(path: string, shows: string, search: Query -> seq<Record>, lookup: EpisodeQuery -> EpisodeReply): Result<Option<string>>
  {
    var fileName := Basename(path);
    var ext := Extension(fileName);
    match GetShowInfo(fileName, search, lookup)
    case Raise(e) => Raise(e)
    case Value(None) => Value(None)
    case Value(Some(info)) =>
      var dir := SeasonDir(shows, info.name, info.year, info.season);
      Value(Some(Join(dir, RenameShowFile(info.name, info.season, info.episode, info.title, ext))))
  }

  /** What `get_show_info` returns once the name and year are read: None for
      an empty result list; otherwise, when the episode pattern occurs, the
      first result's title with its colons rewritten, the year part of its
      first-air date, the season and episode digits of the first match, and
      the cleaned episode title. */
  lemma ShowInfoSpec(s: string, search: Query -> seq<Record>, lookup: EpisodeQuery -> EpisodeReply, name: string, year: string)
    requires CheckForYear(s) == Value((name, year))
    ensures search(ShowQuery(name, year)) == [] ==> GetShowInfo(s, search, lookup) == Value(None)
    ensures search(ShowQuery(name, year)) != [] && !HasPattern(s) ==> GetShowInfo(s, search, lookup) == Raise(AttributeError)
    ensures search(ShowQuery(name, year)) != [] && HasPattern(s) ==>
      var first := search(ShowQuery(name, year))[0];
      && GetShowInfo(s, search, lookup).Value? && GetShowInfo(s, search, lookup).value.Some?
      && var info := GetShowInfo(s, search, lookup).value.value;
         && info.name == RemoveColon(first.name)
         && info.year == BeforeFirst(first.firstAirDate, '-')
         && (exists i: nat, m: nat, n: nat ::
               FirstMatch(s, i, m, n) && info.season == s[i + 1..i + 1 + m] && info.episode == s[i + 2 + m..i + 2 + m + n])
         && info.title == GetEpisodeTitle(lookup(EpisodeQuery(first.id, info.season, info.episode)))
         && forall c :: c in info.title ==> c !in InvalidChars
  {
    EpisodeNumbers(s);
  }

  /** For a shows directory that does not end in a separator, the file lands at
      `<shows>/<name> (<year>)/Season <season>/<name> - S<season>E<episode> - <title><ext>`,
      keeping the extension of the original file name. The show name comes from
      the provider and only passes through `remove_colon`, so it may start with
      `/`; `os.path.join` would then discard the shows directory, which is why
      this layout is stated only for a name that does not.
      The root directory is whatever the user configured, and the layout is
      stated for one written without a trailing `/`; for one that ends in
      `/`, `os.path.join` adds no second separator (`Py.Join`), and the path
      is the same without the `/` between the root and the rest. */
  lemma ShowDestination(path: string, shows: string, search: Query -> seq<Record>, lookup: EpisodeQuery -> EpisodeReply, info: Info)
    requires GetShowInfo(Basename(path), search, lookup) == Value(Some(info))
    requires shows != [] && shows[|shows| - 1] != '/' && (info.name == [] || info.name[0] != '/')
    ensures Process(path, shows, search, lookup) == Value(Some(
      shows + "/" + info.name + " (" + info.year + ")/Season " + info.season + "/"
      + info.name + " - S" + info.season + "E" + info.episode + " - " + info.title + Extension(Basename(path))))
  {
    InfoSeasonDigits(Basename(path), search, lookup, info);
    var ext := Extension(Basename(path));
    assert Process(path, shows, search, lookup) == Value(Some(Join(
      SeasonDir(shows, info.name, info.year, info.season),
      RenameShowFile(info.name, info.season, info.episode, info.title, ext))));
    SeasonPath(shows, info, ext);
  }

  lemma SeasonPath(shows: string, info: Info, ext: string)
    requires shows != [] && shows[|shows| - 1] != '/' && (info.name == [] || info.name[0] != '/')
    requires info.season != [] && AllDigits(info.season)
    ensures Join(SeasonDir(shows, info.name, info.year, info.season),
                 RenameShowFile(info.name, info.season, info.episode, info.title, ext))
         == shows + "/" + info.name + " (" + info.year + ")/Season " + info.season + "/"
            + info.name + " - S" + info.season + "E" + info.episode + " - " + info.title + ext
  {
    SeasonDirPlain(shows, info.name, info.year, info.season);
    FileJoin(SeasonDir(shows, info.name, info.year, info.season), info.name, info.season, info.episode, info.title, ext);
    ConcatPath(shows, info.name, info.year, info.season, info.episode, info.title, ext);
  }

  lemma SeasonDirPlain(shows: string, name: string, year: string, season: string)
    requires shows != [] && shows[|shows| - 1] != '/' && (name == [] || name[0] != '/')
    requires season != [] && AllDigits(season)
    ensures SeasonDir(shows, name, year, season) == (shows + "/" + (name + " (" + year + ")")) + "/" + ("Season " + season)
    ensures SeasonDir(shows, name, year, season) != []
    ensures SeasonDir(shows, name, year, season)[|SeasonDir(shows, name, year, season)| - 1] != '/'
  {
    var showDir := name + " (" + year + ")";
    assert showDir[0] == ' ' || showDir[0] == name[0] by {
      if name == [] {
        assert showDir == " (" + year + ")";
      }
    }
    JoinPlain(shows, showDir);
    var d1 := shows + "/" + showDir;
    assert d1[|d1| - 1] == ')';
    JoinPlain(d1, "Season " + season);
    assert IsDigit(season[|season| - 1]);
  }

  lemma FileJoin(d: string, name: string, season: string, episode: string, title: string, ext: string)
    requires d != [] && d[|d| - 1] != '/' && (name == [] || name[0] != '/')
    ensures Join(d, RenameShowFile(name, season, episode, title, ext)) == d + "/" + RenameShowFile(name, season, episode, title, ext)
  {
    var file := RenameShowFile(name, season, episode, title, ext);
    assert file[0] == ' ' || file[0] == name[0] by {
      if name == [] {
        assert file == " - S" + season + "E" + episode + " - " + title + ext;
      }
    }
    JoinPlain(d, file);
  }

  lemma ConcatPath(shows: string, name: string, year: string, season: string, episode: string, title: string, ext: string)
    ensures (shows + "/" + (name + " (" + year + ")")) + "/" + ("Season " + season) + "/" + (name + " - S" + season + "E" + episode + " - " + title + ext)
         == shows + "/" + name + " (" + year + ")/Season " + season + "/" + name + " - S" + season + "E" + episode + " - " + title + ext
  {
  }

  /** The season in a result is a non-empty run of digits from the file name. */
  lemma InfoSeasonDigits(s: string, search: Query -> seq<Record>, lookup: EpisodeQuery -> EpisodeReply, info: Info)
    requires GetShowInfo(s, search, lookup) == Value(Some(info))
    ensures info.season != [] && AllDigits(info.season)
    ensures info.episode != [] && AllDigits(info.episode)
  {
    assert GetSeasonNum(s) == Value(info.season) && GetEpisodeNum(s) == Value(info.episode);
    NumbersAreDigits(s);
  }

  /** Both numbers, when read, are non-empty runs of digits. */
  lemma NumbersAreDigits(s: string)
    requires EpisodeMatch(s).Some?
    ensures GetSeasonNum(s).Value? && GetSeasonNum(s).value != [] && AllDigits(GetSeasonNum(s).value)
    ensures GetEpisodeNum(s).Value? && GetEpisodeNum(s).value != [] && AllDigits(GetEpisodeNum(s).value)
  {
    var r := EpisodeMatch(s).value;
    DigitsInSlice(s, r.0 + 1, r.0 + 1 + r.1);
    DigitsInSlice(s, r.0 + 2 + r.1, r.0 + 2 + r.1 + r.2);
  }

  /** `process` lets only two exceptions escape: UnboundLocalError when no
      title can be read, and AttributeError when the episode pattern is
      missing. A file name with the pattern never raises AttributeError, and
      one that is also a single line always gets an answer. */
  lemma ProcessOutcomes(path: string, shows: string, search: Query -> seq<Record>, lookup: EpisodeQuery -> EpisodeReply)
    ensures Process(path, shows, search, lookup).Raise? ==>
      Process(path, shows, search, lookup).error in {UnboundLocalError, AttributeError}
    ensures HasPattern(Basename(path)) ==> Process(path, shows, search, lookup) != Raise(AttributeError)
    ensures HasPattern(Basename(path)) && '\n' !in Basename(path) ==> Process(path, shows, search, lookup).Value?
  {
    var s := Basename(path);
    ShowInfoErrors(s, search, lookup);
    match GetShowInfo(s, search, lookup)
    case Raise(e) =>
      assert Process(path, shows, search, lookup) == Raise(e);
    case Value(r) =>
      assert Process(path, shows, search, lookup).Value?;
  }

  lemma ShowInfoErrors(s: string, search: Query -> seq<Record>, lookup: EpisodeQuery -> EpisodeReply)
    ensures GetShowInfo(s, search, lookup).Raise? ==> GetShowInfo(s, search, lookup).error in {UnboundLocalError, AttributeError}
    ensures HasPattern(s) ==> GetShowInfo(s, search, lookup) != Raise(AttributeError)
    ensures HasPattern(s) && '\n' !in s ==> GetShowInfo(s, search, lookup).Value?
  {
    EpisodeNumbers(s);
    CheckForYearErrors(s);
  }

  /** Reading the name and year fails only with UnboundLocalError, and not at
      all on a one-line name that carries the episode pattern. */
  lemma CheckForYearErrors(s: string)
    ensures CheckForYear(s).Raise? ==> CheckForYear(s).error == UnboundLocalError
    ensures HasPattern(s) && '\n' !in s ==> CheckForYear(s).Value?
  {
    GetShowNameSpec(s);
    if HasPattern(s) && '\n' !in s {
      var i: nat, m: nat, n: nat :| PatternAt(s, i, m, n);
      assert s[i + 1] == s[i + 1..i + 1 + m][0];
      assert SDigitAt(s, i);
      LineEndWithoutNewline(s, 0);
    }
  }

  /** A search with no result ends in None, without an exception. */
  lemma NoResultGivesNone(path: string, shows: string, search: Query -> seq<Record>, lookup: EpisodeQuery -> EpisodeReply, name: string, year: string)
    requires CheckForYear(Basename(path)) == Value((name, year))
    requires search(ShowQuery(name, year)) == []
    ensures Process(path, shows, search, lookup) == Value(None)
  {
    ShowInfoSpec(Basename(path), search, lookup, name, year);
  }

  /** Only the first search result matters: two services that agree on it
      for every query lead to the same outcome. */
  lemma OnlyFirstResultUsed(path: string, shows: string, search: Query -> seq<Record>, search': Query -> seq<Record>, lookup: EpisodeQuery -> EpisodeReply)
    requires forall q :: (search(q) == []) == (search'(q) == [])
    requires forall q :: search(q) != [] ==> search(q)[0] == search'(q)[0]
    ensures Process(path, shows, search, lookup) == Process(path, shows, search', lookup)
  {
    var s := Basename(path);
    match CheckForYear(s)
    case Raise(_) =>
    case Value((name, year)) =>
      var q := ShowQuery(name, year);
      assert (search(q) == []) == (search'(q) == []);
      if search(q) != [] {
        assert search(q)[0] == search'(q)[0];
      }
  }

  // ------------------------------------------------ a worked example

  /** "Some.Show.S02E05.mkv" holds no year group: its dots are followed by
      letters or by too few characters. */
  lemma ExampleNoYear(s: string)
    requires s == "Some.Show.S02E05.mkv"
    ensures forall g: nat :: !YearGroupAt(s, g)
  {
    forall g: nat | g + 6 <= |s| && (s[g] == '(' || s[g] == '.') ensures !YearGroupAt(s, g) {
      assert g == 4 || g == 9;
      assert s[g + 1..g + 5][0] == s[g + 1];
    }
  }

  /** The last S followed by a digit is the one of "S02", at position 10. */
  lemma ExampleTitleEnd(s: string)
    requires s == "Some.Show.S02E05.mkv"
    ensures LineEnd(s, 0) == |s| && LastSDigit(s, |s|) == Some(10)
  {
    LineEndWithoutNewline(s, 0);
    assert SDigitAt(s, 10);
    assert forall g: nat :: 10 < g < |s| ==> !IsS(s[g]);
  }

  /** "Some.Show." loses its dots, and the space they leave at the end is stripped. */
  lemma ExampleUndot(t: string)
    requires t == "Some.Show."
    ensures Undash(Undot(Strip(t))) == "Some Show"
  {
    StripUnchanged(t);
    var u := ExampleDotsToSpaces(t);
    ExampleStrip(u);
  }

  lemma ExampleDotsToSpaces(t: string) returns (u: string)
    requires t == "Some.Show."
    ensures u == ReplaceAll(t, ".", " ") == "Some Show "
  {
    ReplaceCharIsMap(t, '.', ' ');
    u := ReplaceAll(t, ".", " ");
  }

  lemma ExampleStrip(u: string)
    requires u == "Some Show "
    ensures Strip(u) == "Some Show"
  {
    assert LStrip(u) == u;
    assert RStrip(u) == RStrip(u[..9]) == u[..9];
  }

  lemma ExampleName(s: string)
    requires s == "Some.Show.S02E05.mkv"
    ensures CheckForYear(s) == Value(("Some Show", ""))
  {
    ExampleNoYear(s);
    ExampleTitleEnd(s);
    assert s[..10] == "Some.Show.";
    ExampleUndot(s[..10]);
    CheckForYearAbsent(s);
  }

  /** The leftmost match is "S02E05" at position 10, so the numbers are "02"
      and "05", leading zeros kept. */
  lemma ExampleNumbers(s: string)
    requires s == "Some.Show.S02E05.mkv"
    ensures GetSeasonNum(s) == Value("02") && GetEpisodeNum(s) == Value("05")
  {
    ExampleMatch(s);
    GroupsOfMatch(s, 10, 2, 2);
    assert s[11..13] == "02" && s[14..16] == "05";
  }

  lemma ExampleMatch(s: string)
    requires s == "Some.Show.S02E05.mkv"
    ensures EpisodeMatch(s) == Some((10, 2, 2))
  {
    DigitRunExact(s, 11, 2);
    DigitRunExact(s, 14, 2);
    assert MatchAt(s, 10);
    ExampleNoEarlierMatch(s);
  }

  lemma ExampleNoEarlierMatch(s: string)
    requires s == "Some.Show.S02E05.mkv"
    ensures forall j: nat :: j < 10 ==> !MatchAt(s, j)
  {
    forall j: nat | j < 10 ensures !MatchAt(s, j) {
      if IsS(s[j]) {
        assert j == 0 || j == 5;
        assert !IsDigit(s[j + 1]);
      }
    }
  }

  lemma ExampleRecord(name: string, date: string)
    requires name == "Some Show" && date == "2019-01-01"
    ensures ParseShowInfo(Record(42, name, date)) == (42, name, "2019")
  {
    PlainTextKept(name);
    BeforeFirstAt(date, '-', 4);
    assert date[..4] == "2019";
  }

  lemma ExampleEpisodeTitle(title: string)
    requires title == "Pilot Redux"
    ensures GetEpisodeTitle(Episode(title)) == title
  {
    PlainTextKept(title);
  }

  lemma ExampleExtension(s: string)
    requires s == "Some.Show.S02E05.mkv"
    ensures Basename(s) == s && Extension(s) == ".mkv"
  {
    ExtensionAt(s, 16);
    assert s[16..] == ".mkv";
  }

  /** End to end: with a service whose first result is show 42, "Some Show",
      first aired 2019-01-01, and whose episode is "Pilot Redux", the file
      "Some.Show.S02E05.mkv" lands at
      "shows/Some Show (2019)/Season 02/Some Show - S02E05 - Pilot Redux.mkv":
      the season and episode keep the digits of the file name. */
  lemma ExampleDestination(source: string)
    ensures Process(Join(source, "Some.Show.S02E05.mkv"), "shows",
                    _ => [Record(42, "Some Show", "2019-01-01")],
                    _ => Episode("Pilot Redux"))
         == Value(Some("shows/Some Show (2019)/Season 02/Some Show - S02E05 - Pilot Redux.mkv"))
  {
    var s := "Some.Show.S02E05.mkv";
    var search: Query -> seq<Record> := _ => [Record(42, "Some Show", "2019-01-01")];
    var lookup: EpisodeQuery -> EpisodeReply := _ => Episode("Pilot Redux");
    BasenameOfJoin(source, s);
    ExampleExtension(s);
    ExampleName(s);
    ExampleNumbers(s);
    ExampleRecord("Some Show", "2019-01-01");
    ExampleEpisodeTitle("Pilot Redux");
    var info := Info("Some Show", "2019", "02", "05", "Pilot Redux");
    assert GetShowInfo(s, search, lookup) == Value(Some(info));
    ShowDestination(Join(source, s), "shows", search, lookup, info);
    ExamplePathText();
  }

  lemma ExamplePathText()
    ensures "shows" + "/" + "Some Show" + " (" + "2019" + ")/Season " + "02" + "/"
            + "Some Show" + " - S" + "02" + "E" + "05" + " - " + "Pilot Redux" + ".mkv"
         == "shows/Some Show (2019)/Season 02/Some Show - S02E05 - Pilot Redux.mkv"
  {
    var dir := "shows/Some Show (2019)/Season 02/";
    var file := "Some Show - S02E05 - Pilot Redux.mkv";
    ExampleDirText();
    ExampleFileText(file);
    assert dir + "Some Show" + " - S" + "02" + "E" + "05" + " - " + "Pilot Redux" + ".mkv" == dir + file;
    ExampleWholeText(dir, file);
  }

  /** The season directory, spelled out. */
  lemma ExampleDirText()
    ensures "shows" + "/" + "Some Show" + " (" + "2019" + ")/Season " + "02" + "/"
         == "shows/Some Show (2019)/Season 02/"
  {
  }

  /** The file name, spelled out. */
  lemma ExampleFileText(file: string)
    requires file == "Some Show - S02E05 - Pilot Redux.mkv"
    ensures "Some Show" + " - S" + "02" + "E" + "05" + " - " + "Pilot Redux" + ".mkv" == file
  {
  }

  lemma ExampleWholeText(dir: string, file: string)
    requires dir == "shows/Some Show (2019)/Season 02/" && file == "Some Show - S02E05 - Pilot Redux.mkv"
    ensures dir + file == "shows/Some Show (2019)/Season 02/Some Show - S02E05 - Pilot Redux.mkv"
  {
  }
}
