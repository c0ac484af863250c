# pyButler renaming core in Dafny

pyButler tidies a watch folder of media files. It decides from each file's
extension and name what the file is (a movie, a TV episode or an audiobook),
reads a title, a year and season/episode numbers out of the name, asks the
TMDB metadata service for the canonical title, and moves the file to one of
these layouts:

- `movies/<Title> (<Year>)<ext>`
- `shows/<Show> (<Year>)/Season <s>/<Show> - S<s>E<e> - <Episode><ext>`
- `books/<Author>/<Title>.m4b`

This project models the deterministic string logic that makes those
decisions, and proves properties of it. The model follows the Python code as
written, branch by branch:

- the decision table of `process_file`;
- each fixed regular expression, as an explicit scan over `seq<char>`;
- the clean-ups of the titles;
- the construction of each destination path;
- the move-then-verify step and the counting loop of `main`.

Python exceptions become values: a computation either returns a value or
raises one of `UnboundLocalError`, `TypeError`, `AttributeError` or
`IndexError`. This makes it possible to state which exceptions escape each
handler and where they are caught.

Files:

- `py.dfy` (module `Py`): the parts of Python the code relies on.
  - `str.replace`, `strip`, deletion by `translate`, `split(sep)[0]`;
  - a one-class `re.sub`;
  - POSIX `os.path.basename`, `splitext` and `join`;
  - `Option` and `Result`.
- `sanitize.dfy` (module `Sanitize`): `remove_colon` and the invalid-character
  deletion. `plugins/show.py` and `plugins/movie.py` each carry an identical
  copy of both; here they are defined once.
- `show.dfy` (module `Show`): `plugins/show.py`.
- `movie.dfy` (module `Movie`): `plugins/movie.py`.
- `audiobook.dfy` (module `Audiobook`): `plugins/audiobook.py`.
- `butler.dfy` (module `Butler`): `process_file`, `move_file`/`check_file` and
  the loop of `main` in `pybutler.py`.

Things outside the program are parameters:

- The TMDB title searches are functions from a query to a list of result
  records. The code always takes element 0 of that list.
- The episode lookup is a function returning a name, or the reply marked
  `"success": false`.
- The MP4 tags of an audiobook are an optional record. The tag write-back is
  an output record.
- The file system is a set of existing paths.
- What the move primitive does with a file is an oracle: it is refused, it
  moves the file, or it returns without the file arriving.

Regular expressions are fixed to ASCII: `\d` is `[0-9]` and `\w` is
`[A-Za-z0-9_]`. `.` does not match a newline, as in Python, and that is
modelled. `(?i)S` also accepts U+017F (long s), as Python's case-insensitive
matching does. `strip()` removes exactly the characters for which Python's
`str.isspace` is true.

Behaviour of the code worth noting, all of it modelled as written:

- Season and episode numbers stay the digit strings of the file name, zero
  padding included: `S02E05` gives `Season 02/… - S02E05 - …`. `Show.ExampleDestination`
  proves this on `Some.Show.S02E05.mkv`.
- The movie year pattern `19|20\d{2}` matches only the two characters `19` of
  a 1900s year. When that `"19"` is the last match and every `"19"` in the
  name is followed by a digit, no word-bounded year follows any title, so the
  file gets no destination and its move fails with a logged `TypeError`
  (`Movie.CenturyYearFindsNoTitle`). A later `20xx` match rescues the name:
  `Movie.1999.Remastered.2020.mkv` is searched with the year `2020`.
- A movie name without a year match is never searched: `movie_year` is
  unbound, `UnboundLocalError` escapes, and the file is
  skipped (`Movie.MovieYearMissing`).
- The title fragment is cut at the word-bounded year. Only dots become
  spaces; `_` is kept. The space left in front of the year is kept in the
  query (`Movie.ExampleQuery`).
- `check_file` prints only on success: when the destination is missing after
  a move that raised nothing, nothing is printed or logged (`Butler.MoveFileSpec`).
- `main` counts every file it hands to `process_file`, whether it was moved
  or skipped.

## Model

| member | source | states |
|---|---|---|
| `Butler.Classify` | pybutler.py:119-150 | the decision table. An extension other than exactly `.mkv`, `.mp4` or `.m4b` reaches no handler. `.m4b` goes to the audiobook handler whatever the name. `.mkv`/`.mp4` go to the show handler exactly when `S\d+E\d+` occurs case-insensitively in the basename, and to the movie handler otherwise. The four outcomes are mutually exclusive. |
| `Butler.Guarded` | pybutler.py:129-150 | the `try`/`except UnboundLocalError` around a handler. A returned path, None included, leads to a move. `UnboundLocalError` is a skip with no move. Any other exception escapes. |
| `Butler.ProcessFileSpec` | pybutler.py:119-150 | about `Butler.ProcessFile`, the model of `process_file`: it ignores exactly the unsupported extensions. It runs exactly the one handler its class selects. It never lets an exception escape, because no handler raises anything but `UnboundLocalError`. In particular, a file routed to the show handler never raises `AttributeError` from the season/episode lookups. This holds for a metadata service that always answers with well-formed replies and a file system that accepts the directories (see Left out). |
| `Butler.MoveFileSpec` | pybutler.py:95-116 | about `Butler.MoveFile` and `Butler.CheckFile`, the models of `move_file` and `check_file`: a `None` destination is a logged `TypeError`. A missing source or a refused move is a logged `OSError`. Both leave the files untouched and skip `check_file`. Success is printed exactly when the destination exists after a move that raised nothing. A move that returns without the file arriving prints nothing, unless a file already stood at the destination. A completed move removes the source and adds the destination. |
| `Butler.HandleEntry` | pybutler.py:161-171 | one iteration of the loop in `main` equals `Butler.Step`, the specification of one loop body. A supported name goes through `process_file` and, when a path came back, `move_file`, and is counted. Any other name changes nothing. |
| `Butler.RunBatch` | pybutler.py:159-176 | the loop of `main` computes exactly `Butler.RunSpec`, the fold of `Step` over the listing. The final message is "No valid files" exactly when `count` is 0 and "Complete" otherwise, unless an exception ended the loop. |
| `Butler.Run` | pybutler.py:153-176 | `main` with `process_file` deciding: `count` equals the number of listed names with a supported extension, with one report per counted file. "No valid files" is reported if and only if no listed name has a supported extension. |
| `Butler.RunCounts` | pybutler.py:161-168 | when no decision raises, the loop runs to the end. `count` is the number of supported names. Report `j` is for the `j`-th supported name joined onto the source directory, in listing order. |
| `Butler.StepCounts` | pybutler.py:165-171 | one listed name adds exactly one report and one count when its extension is supported, and changes nothing otherwise. |
| `Butler.CrashSticks` | pybutler.py:161-168 | once an exception has ended the loop, later names change nothing. |
| `Butler.SupportedNamesMembers` | pybutler.py:165 | a name is counted exactly when it is listed and its extension is `.mkv`, `.mp4` or `.m4b`. |
| `Butler.ListedNameKeepsExtension` | pybutler.py:161-167 | a listed name joined onto the source directory keeps its basename and its extension, which is empty or the name's own final `.`-suffix with no other dot. So every file `main` counts has a supported extension when `process_file` tests it again. |
| `Show.FindPattern` | plugins/show.py:86 | `re.search` of `(?i)(S(\d+))(E(\d+))`: the returned position is a successful match attempt, and no attempt succeeds before it. None means no attempt succeeds anywhere. |
| `Show.MatchAtIffPattern` | plugins/show.py:86 | the greedy attempt at a position succeeds exactly when an S, at least one digit, an E and at least one digit stand there. Backtracking cannot add a match. |
| `Show.PatternFound` | pybutler.py:122 | the search succeeds exactly when the pattern occurs somewhere in the name. |
| `Show.EpisodeNumbers` | plugins/show.py:85-94 | `Show.GetSeasonNum` and `Show.GetEpisodeNum`, the models of `get_season_num` and `get_episode_num`, read the two digit groups of one and the same first match, leading zeros kept. Without a match both raise `AttributeError`. |
| `Show.NumbersAreDigits` | plugins/show.py:85-94 | both numbers, when read, are non-empty runs of ASCII digits. |
| `Show.LastYearGroup` | plugins/show.py:45 | the greedy `(.*)` gives back to the last year group `(` or `.`, four digits, `)` or `.` in its range. None means there is no such group. |
| `Show.YearSearch` | plugins/show.py:45 | `re.search` of the year pattern: the first start from which a year group is reachable on the same line, with the last such group. None means no start reaches one. |
| `Show.CheckForYearFound` | plugins/show.py:42-56 | for a one-line name containing a year group, `Show.CheckForYear` (`check_for_year`) returns the four digits of the last group as the year. The name is the stripped text before that group. |
| `Show.CheckForYearAbsent` | plugins/show.py:52-54 | without a year group the year is `""` and the name, or its exception, comes from `get_show_name`. |
| `Show.CheckForYearErrors` | plugins/show.py:42-68 | `check_for_year` fails only with `UnboundLocalError`, and never on a one-line name that carries the episode pattern. |
| `Show.LastSDigit` | plugins/show.py:61 | the greedy `(^.*)` before `(?=S\d+)` ends at the last position of its range where an S and a digit follow. None means there is no such position. |
| `Show.GetShowNameSpec` | plugins/show.py:59-82 | `Show.GetShowName` (`get_show_name`) finds a name exactly when an S and a digit follow some position of the first line. The name is then the stripped text before the last such position, with dots turned into spaces and dashes deleted (`Show.Undot`, `Show.Undash`). It contains no `.` and no `-` and has no whitespace at either end. Otherwise `UnboundLocalError` is raised. |
| `Show.UndotSpec` | plugins/show.py:70-74 | a name with a dot has every dot mapped to a space and is stripped again; one without is kept. The result of a stripped name has no dot and no whitespace at either end. |
| `Show.UndashSpec` | plugins/show.py:76-80 | a name with a dash has every dash deleted and is stripped again; one without is kept. A stripped name without dots stays so and loses every dash. |
| `Show.ShowQuery` | plugins/show.py:109-113 | the search carries the year exactly when the year read from the name is not empty. |
| `Show.GetEpisodeTitle` | plugins/show.py:144-166 | a `success: false` reply gives `""`. Otherwise the episode name is cleaned: none of the invalid characters remains, the result is a subsequence of the name, and every other character of the name survives as often as it occurs there. |
| `Show.ShowInfoSpec` | plugins/show.py:104-141 | about `Show.GetShowInfo` and `Show.ParseShowInfo`, the models of `get_show_info` and `parse_show_info`: an empty result list gives None. Otherwise only the first result is used: its name passed through `remove_colon`, exactly the text of `first_air_date` before its first `-` (`Py.BeforeFirst`), the season and episode digits of the first match, and the cleaned episode title looked up with the first result's id. |
| `Show.ShowDestination` | plugins/show.py:169-187 | about `Show.Process` with `Show.SeasonDir` and `Show.RenameShowFile`, the models of `create_show_dirs` and `rename_show_file`: the file lands at `<shows>/<name> (<year>)/Season <s>/<name> - S<s>E<e> - <title><ext>`, with the extension of the original name. Stated for a provider name not starting with `/`, since `os.path.join` would drop the shows directory in front of one. |
| `Show.ProcessOutcomes` | plugins/show.py:16-33 | `Show.Process` (`process`) lets only `UnboundLocalError` and `AttributeError` escape. It never raises `AttributeError` on a name with the episode pattern. It always answers for a one-line name with the pattern. This holds for a metadata service that always answers with well-formed replies and a file system that accepts the directories (see Left out). |
| `Show.NoResultGivesNone` | plugins/show.py:21-25 | a search with no result makes `process` return None, without an exception. |
| `Show.OnlyFirstResultUsed` | plugins/show.py:119-124 | two services that agree on which searches are empty and on the first result give the same outcome. |
| `Show.InfoSeasonDigits` | plugins/show.py:127-128 | the season and episode in a result are non-empty digit runs of the file name. |
| `Show.ExampleDestination` | plugins/show.py:16-33 | end to end: `Some.Show.S02E05.mkv`, with show 42 "Some Show" first aired 2019-01-01 and episode "Pilot Redux", goes to `shows/Some Show (2019)/Season 02/Some Show - S02E05 - Pilot Redux.mkv`. |
| `Sanitize.RemoveColonAbsent` | plugins/show.py:97-99 | a string without `": "` passes through `remove_colon` unchanged. |
| `Sanitize.RemoveColonLeavesNone` | plugins/movie.py:101-103 | in `Sanitize.RemoveColon` (`remove_colon`) every `": "` is rewritten to `" - "`. Unless the input contains `"::"`, no `": "` is left. |
| `Sanitize.ColonSeparatorSurvives` | plugins/movie.py:91-95 | the colon rewrite runs before the deletion, so `"a: b"` keeps its separator as `" - "`. |
| `Sanitize.StripInvalidSpec` | plugins/movie.py:93-95 | `Sanitize.StripInvalid`, the `translate` deletion, leaves none of ``\ / : * ` ‘ ’ “ ” ? ! " < >`` and the vertical bar. It keeps every other character, each occurrence of it, in order, as a subsequence. A second pass changes nothing. |
| `Sanitize.StripInvalidUnchanged` | plugins/show.py:162-164 | the deletion leaves a string unchanged exactly when it holds none of the invalid characters. |
| `Movie.FormatMovieNameSpec` | plugins/movie.py:39-43 | `Movie.FormatMovieName` (`format_movie_name`) deletes `(` and `)` and maps spaces to dots. The output has no `(`, `)` or space, and every other character keeps its place in order. |
| `Movie.FindAllYears` | plugins/movie.py:49 | `re.findall` of the pattern `19` or `20\d{2}`: every match is `"19"` or `20` and two digits. The list is empty exactly when no position matches. |
| `Movie.FindAllScan` | plugins/movie.py:49 | `re.findall` is the left-to-right, non-overlapping scan: there are positions `ps`, one per match, where match `j` is the first match at or after the end of match `j - 1` (at or after the start for the first), it is the text matched there, and no match starts after the end of the last. |
| `Movie.LastYearMatch` | plugins/movie.py:49-51 | the last match found starts at the last position of the left-to-right scan (`Movie.ScanOf`), and no match starts after it. |
| `Movie.LastYear` | plugins/movie.py:49-51 | in `Movie.LastYear`, `year_match[-1]` is `"19"` or a four-character `20xx`. There is none exactly when no position matches. |
| `Movie.LastYearScanned` | plugins/movie.py:49-51 | `year_match[-1]` is None exactly when the scan finds nothing, and otherwise the text matched at the last scan position, with no match after it. |
| `Movie.ExampleLastYear` | plugins/movie.py:49-51 | the scan resumes after each match: `Movie.1999.Director.Cut.2020.mkv` yields `["19", "2020"]`, and the year is `"2020"`. |
| `Movie.LazyNameEnd` | plugins/movie.py:58-59 | the lazy `^(.*?)` ends at the first position where the word-bounded year follows. None means there is no such position. |
| `Movie.MovieYearMissing` | plugins/movie.py:52-56 | `get_movie_name` raises `UnboundLocalError` exactly when the formatted name holds no year match, and raises nothing else. |
| `Movie.MovieNameFound` | plugins/movie.py:56-63 | in `Movie.GetMovieName` (`get_movie_name`) a found title comes with the last year match. It is the shortest prefix of the first line followed by the word-bounded year, with every `.` turned into a space. |
| `Movie.MovieNameMissing` | plugins/movie.py:61-66 | no title means a year was found but no prefix of the first line is followed by it, word-bounded. |
| `Movie.CenturyYearFindsNoTitle` | plugins/movie.py:49-66 | when `"19"` is the last match and every `"19"` is followed by a digit, no title is found and the file gets no destination. |
| `Movie.ParseMovieInfo` | plugins/movie.py:90-98 | the cleaned title has none of the invalid characters. The year is the part of `release_date` before its first `-`. |
| `Movie.MovieFirstResult` | plugins/movie.py:72-87 | in `Movie.GetMovieInfo` (`get_movie_info`), once the name and year are read, an empty result list gives no path. Otherwise the outcome is the first result, parsed. |
| `Movie.OnlyFirstResultUsed` | plugins/movie.py:81-87 | two services that agree on which searches are empty and on the first result give the same outcome. |
| `Movie.MissingTitleGivesNone` | plugins/movie.py:20-24 | a year without a title makes `process` catch the `TypeError` of the unpacking and return None. |
| `Movie.MovieDestination` | plugins/movie.py:15-30 | about `Movie.Process` with `Movie.RenameMovieFile` (`rename_movie_file`): the file lands at `<movies>/<name> (<year>)<ext>`, with the extension of the original name. The cleaned name has no `/`, so the join never drops the movies directory. |
| `Movie.ProcessOutcomes` | plugins/movie.py:15-24 | the only exception `Movie.Process` (`process`) lets escape is `UnboundLocalError`, raised exactly when the formatted name holds no year match. This holds for a metadata service that always answers with well-formed replies and a file system that accepts the directories (see Left out). |
| `Movie.InfoRaises` | plugins/movie.py:72-73 | `get_movie_info` passes on what `get_movie_name` raises. Otherwise it raises only `TypeError`. |
| `Movie.ExampleQuery` | plugins/movie.py:46-63 | `The.Great.Movie.2021.mkv` is searched as `"The Great Movie "` with the year `"2021"`. |
| `Movie.ExampleDestination` | plugins/movie.py:15-30 | end to end: with first result "The Great Movie" released 2021-05-01, the file goes to `movies/The Great Movie (2021).mkv`. |
| `Audiobook.RemoveUnabridgedSpec` | plugins/audiobook.py:11-13 | the result of `Audiobook.RemoveUnabridged` (`remove_unabridged`) has no whitespace at either end. A title without `(Unabridged)` is only stripped. |
| `Audiobook.RemoveUnabridgedSuffix` | plugins/audiobook.py:11-13 | a trailing `(Unabridged)` after any title goes, and so does the whitespace before it: the title is cleaned as it would be without the marker, and only stripped when it had no other marker. |
| `Audiobook.RemoveUnabridgedAnywhere` | plugins/audiobook.py:11-13 | a `(Unabridged)` marker anywhere in a title is removed: the text on either side is cleaned as on its own, and without other markers the two sides are joined and stripped. |
| `Audiobook.RemoveIllegalCharsSpec` | plugins/audiobook.py:16-18 | in `Audiobook.RemoveIllegalChars` (`remove_illegal_chars`) the length is kept. Each of `< > : " / \ ? *` and the vertical bar becomes `_` and every other character stays. None of them is left, and a second pass changes nothing. |
| `Audiobook.Author` | plugins/audiobook.py:26 | a missing artist tag gives `"Unknown Author"`. A present one gives its first value, or `IndexError` on an empty list. |
| `Audiobook.Title` | plugins/audiobook.py:27 | a missing title tag gives the first character of the basename (`file[0]`), or `IndexError` on an empty basename. A present one gives its first value. |
| `Audiobook.AudiobookDestination` | plugins/audiobook.py:21-43 | about `Audiobook.Process` (`process`): with both tags read, the author folder is `<books>/<author>` and the file is `<clean title>.m4b`, free of the illegal characters. The tags are saved, when saving succeeds, as the title with `(Unabridged)` removed but illegal characters kept. Cleaning that saved title gives the file name. |
| `Audiobook.AudiobookFailures` | plugins/audiobook.py:24-43 | an unreadable file or an empty author tag gives no folder and no path. An unreadable title gives the author folder but no path. The only exception that escapes is `UnboundLocalError`. This holds for a metadata service that always answers with well-formed replies and a file system that accepts the directories (see Left out). |
| `Audiobook.AudiobookDefaults` | plugins/audiobook.py:26-27 | with no tags, the book goes under `Unknown Author` as the cleaned first character of the basename plus `.m4b`. |

## Left out

- The TMDB HTTP calls, the `requests_cache` session with its 30-day expiry, JSON decoding and URL assembly. The searches and the episode lookup are function parameters, so a cached repeat of a query gives the same answer by construction.
- Reading and saving MP4 tags with mutagen. Tags are an optional input, and the write-back is the `Rewrite` record.
- The file-system side effects of `os.makedirs` in `create_show_dirs` and in the audiobook `process`. Only the path they build is modelled, and the audiobook outcome records the author folder it would create. The directories the move needs are not added to the set of existing paths.
- `os.listdir` order and contents, which are an input sequence of names.
- The API-key bootstrap (`create_api`, `check_api_key`, `input_api`, `read_api`, `check_api_file`), logging setup, the welcome message and the "press ENTER" prompt in `main`. They are interactive or use the network. `Butler.Run` starts after them.
- Logging and printing, including the `print` in `check_for_year` and the `style.clear_line` calls. Logged outcomes appear only as report values.
- Preferences, configuration, paths and styling modules. Their directories are plain string parameters.
- A general regular-expression engine and Unicode `\d`/`\w`. Each fixed pattern is written out with the ASCII classes above.
- Butler.MoveFileSpec: models only the source-existence check and an oracle for the move primitive. It does not model moving onto an existing directory, cross-device copies, or other `shutil.move` details.
- Audiobook.AudiobookFailures: every failure inside the audiobook `try` (an unreadable file, a failing save, a missing tag value) is one of the modelled cases. Other Python exceptions from mutagen are not distinguished.
- Butler.ProcessFileSpec: no exception escapes only because the metadata service is a total oracle. In the code a reply without `"results"` or `"name"` raises `KeyError`, request and JSON errors propagate, and `os.makedirs` can raise `OSError`; all of these escape `process_file` and end `main`.
- Show.ProcessOutcomes: the same assumption; `KeyError` from plugins/show.py:117 and plugins/show.py:159, request and JSON errors, and `OSError` from `os.makedirs` at plugins/show.py:179 are not modelled.
- Movie.ProcessOutcomes: the same assumption; `KeyError` from plugins/movie.py:79 and request and JSON errors are not modelled.
- Audiobook.AudiobookFailures: `OSError` from `os.makedirs` at plugins/audiobook.py:40-41, outside the `try`, is not modelled.
