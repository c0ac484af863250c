/** The entry point (pybutler.py): `process_file` picks a handler by the
    file's extension and name and moves the file to the path the handler
    returns; `main` runs it over every supported file of the source
    directory and counts them. */
module Butler {
  import opened Py
  import Show
  import Movie
  import Audiobook

  // ------------------------------------------------ process_file

  /** The extensions pyButler handles, compared exactly. */
  predicate Supported(ext: string)
  {
    ext == ".mkv" || ext == ".mp4" || ext == ".m4b"
  }

  datatype Handler = Unsupported | AudiobookHandler | ShowHandler | MovieHandler

  /** The decision table of `process_file`: unsupported extensions first, then
      `.m4b`, then the episode pattern in the file name, then movies. */
  function Classify(path: string): (h: Handler)
    ensures h == Unsupported <==> !Supported(Extension(path))
    ensures h == AudiobookHandler <==> Extension(path) == ".m4b"
    ensures h == ShowHandler <==>
      (Extension(path) == ".mkv" || Extension(path) == ".mp4") && Show.HasPattern(Basename(path))
    ensures h == MovieHandler <==>
      (Extension(path) == ".mkv" || Extension(path) == ".mp4") && !Show.HasPattern(Basename(path))
  {
    var ext := Extension(path);
    Show.PatternFound(Basename(path));
    if ext != ".mkv" && ext != ".mp4" && ext != ".m4b" then Unsupported
    else if ext == ".m4b" then AudiobookHandler
    else if Show.FindPattern(Basename(path), 0).Some? then ShowHandler
    else MovieHandler
  }

  /** What the outside world answers: the three library roots, the two
      metadata searches and the episode lookup, the tags of each audiobook
      (None when it cannot be opened as MP4), whether saving them succeeds,
      and what the move primitive does with each file. */
  datatype Env = Env(
    shows: string, movies: string, books: string,
    showSearch: Show.Query -> seq<Show.Record>,
    episodeLookup: Show.EpisodeQuery -> Show.EpisodeReply,
    movieSearch: Movie.Query -> seq<Movie.Record>,
    tags: string -> Option<Audiobook.Tags>,
    saveOk: string -> bool,
    mover: string -> MoveEffect)

  /** What `process_file` decides before any move: nothing for an
      unsupported file, a skip when the handler raises UnboundLocalError, a
      move to the returned path (None included), or an exception that
      escapes. */
  datatype Plan = Ignored | Skipped | Move(dest: Option<string>) | Crash(error: Error)

  /** The `try`/`except UnboundLocalError` around each handler. */
  function Guarded(r: Result<Option<string>>): (p: Plan)
    ensures r.Value? <==> p.Move?
    ensures r.Value? ==> p.dest == r.value
    ensures p.Skipped? <==> r == Raise(UnboundLocalError)
    ensures p.Crash? ==> r == Raise(p.error) && p.error != UnboundLocalError
  {
    match r
    case Value(dest) => Move(dest)
    case Raise(UnboundLocalError) => Skipped
    case Raise(e) => Crash(e)
  }

  function ProcessFile(path: string, env: Env): Plan
  {
    match Classify(path)
    case Unsupported => Ignored
    case AudiobookHandler =>
      var dest := Audiobook.Process(path, env.books, env.tags(path), env.saveOk(path)).dest;
      Guarded(if dest.Value? then Value(Some(dest.value)) else Raise(dest.error))
    case ShowHandler => Guarded(Show.Process(path, env.shows, env.showSearch, env.episodeLookup))
    case MovieHandler => Guarded(Movie.Process(path, env.movies, env.movieSearch))
  }

  /** Exactly one branch runs: an unsupported file reaches no handler, an
      `.m4b` always reaches the audiobook handler, and `.mkv`/`.mp4` go to the
      show handler exactly when the episode pattern occurs. No handler lets an
      exception other than UnboundLocalError escape, so `process_file` never
      fails. */
  lemma ProcessFileSpec(path: string, env: Env)
    ensures ProcessFile(path, env).Ignored? <==> !Supported(Extension(path))
    ensures !ProcessFile(path, env).Crash?
    ensures Extension(path) == ".m4b" ==>
      ProcessFile(path, env) == Guarded(
        var dest := Audiobook.Process(path, env.books, env.tags(path), env.saveOk(path)).dest;
        if dest.Value? then Value(Some(dest.value)) else Raise(dest.error))
    ensures Classify(path) == ShowHandler ==>
      ProcessFile(path, env) == Guarded(Show.Process(path, env.shows, env.showSearch, env.episodeLookup))
      && Show.Process(path, env.shows, env.showSearch, env.episodeLookup) != Raise(AttributeError)
    ensures Classify(path) == MovieHandler ==>
      ProcessFile(path, env) == Guarded(Movie.Process(path, env.movies, env.movieSearch))
  {
    match Classify(path)
    case Unsupported =>
    case AudiobookHandler =>
      Audiobook.AudiobookFailures(path, env.books, env.tags(path), env.saveOk(path));
    case ShowHandler =>
      Show.ProcessOutcomes(path, env.shows, env.showSearch, env.episodeLookup);
    case MovieHandler =>
      Movie.ProcessOutcomes(path, env.movies, env.movieSearch);
  }

  // ------------------------------------------------ move_file and check_file

  /** What `move_file` reports. */
  datatype MoveReport = TypeErrorLogged | OsErrorLogged | SuccessPrinted | NothingPrinted

  /** What the `shutil.move` primitive does with a source that exists: the
      operating system refuses it (OSError), it moves the file, or it returns
      normally without the file arriving (a silent no-op, or a slow
      network-mounted destination). */
  datatype MoveEffect = MoveRefused | MoveDone | MoveVanished

  /** `shutil.move` then `check_file`, over the set of existing paths: a
      destination of None raises TypeError; a missing source or a refusal by
      the operating system raises OSError; both are logged and the files stay
      as they were. Otherwise `check_file` runs on whatever the primitive
      left behind. */
  function MoveFile(files: set<string>, src: string, dst: Option<string>, effect: MoveEffect): (r: (set<string>, MoveReport))
  {
    match dst
    case None => (files, TypeErrorLogged)
    case Some(d) =>
      if src !in files || effect == MoveRefused then (files, OsErrorLogged)
      else
        var after := if effect == MoveDone then files - {src} + {d} else files;
        (after, CheckFile(after, d))
  }

  /** `check_file`: success is printed only when the path exists; otherwise nothing. */
  function CheckFile(files: set<string>, d: string): MoveReport
  {
    if d in files then SuccessPrinted else NothingPrinted
  }

  /** A logged error leaves the files alone and skips `check_file`. Success is
      printed exactly when the destination exists after a move that raised
      nothing; a move that returned without the file arriving prints nothing
      (no rollback, no error) unless a file was already at the destination. */
  lemma MoveFileSpec(files: set<string>, src: string, dst: Option<string>, effect: MoveEffect)
    ensures var (after, report) := MoveFile(files, src, dst, effect);
      && (report == TypeErrorLogged <==> dst.None?)
      && (report == OsErrorLogged <==> dst.Some? && (src !in files || effect == MoveRefused))
      && (report in {TypeErrorLogged, OsErrorLogged} ==> after == files)
      && (report == SuccessPrinted <==>
            dst.Some? && src in files && effect != MoveRefused && dst.value in after)
      && (report == NothingPrinted <==>
            dst.Some? && src in files && effect == MoveVanished && dst.value !in files)
      && (dst.Some? && src in files && effect == MoveDone ==>
            report == SuccessPrinted && after == files - {src} + {dst.value})
  {
  }

  // ------------------------------------------------ main

  /** One line of the run: the file, what `process_file` decided, and what
      the move reported, when one was attempted. */
  datatype Report = Report(path: string, plan: Plan, move: Option<MoveReport>)

  /** The state of `main` after a prefix of the listing: the existing files,
      `count`, the reports so far, and the exception that ended the loop, if
      any. */
  datatype Batch = Batch(files: set<string>, count: nat, reports: seq<Report>, crash: Option<Error>)

  /** One iteration of the loop in `main`, for the entry `name` of `source`:
      `decide` is what `process_file` makes of a path, and `mover` says
      what the move primitive does with it. */
  function Step(b: Batch, source: string, name: string, decide: string -> Plan, mover: string -> MoveEffect): Batch
  {
    if b.crash.Some? || !SupportedName(name) then b
    else
      var path := Join(source, name);
      match decide(path)
      case Crash(e) => b.(crash := Some(e))
      case Move(dest) =>
        var (after, report) := MoveFile(b.files, path, dest, mover(path));
        Batch(after, b.count + 1, b.reports + [Report(path, Move(dest), Some(report))], None)
      case plan => b.(count := b.count + 1, reports := b.reports + [Report(path, plan, None)])
  }

  /** The loop of `main` over `names`, from the files `start`. */
  function RunSpec(source: string, names: seq<string>, decide: string -> Plan, mover: string -> MoveEffect, start: set<string>): Batch
    decreases |names|
  {
    if names == [] then Batch(start, 0, [], None)
    else Step(RunSpec(source, names[..|names| - 1], decide, mover, start), source, names[|names| - 1], decide, mover)
  }

  /** `process_file` as the loop sees it. */
  function Decide(env: Env): string -> Plan
  {
    path => ProcessFile(path, env)
  }

  /** A listed name that `main` hands to `process_file`. */
  predicate SupportedName(name: string)
  {
    Supported(Extension(name))
  }

  /** The names that `keep` accepts, in listing order. */
  function Filter(names: seq<string>, keep: string -> bool): (r: seq<string>)
    ensures |r| <= |names|
    decreases |names|
  {
    if names == [] then []
    else if keep(names[|names| - 1]) then Filter(names[..|names| - 1], keep) + [names[|names| - 1]]
    else Filter(names[..|names| - 1], keep)
  }

  /** A name is kept exactly when it is listed and accepted. */
  lemma {:induction false} FilterMembers(names: seq<string>, keep: string -> bool)
    ensures forall n :: n in Filter(names, keep) <==> n in names && keep(n)
    decreases |names|
  {
    if names != [] {
      var init := names[..|names| - 1];
      FilterMembers(init, keep);
      assert names == init + [names[|names| - 1]];
    }
  }

  /** The names with a supported extension, in listing order. */
  function SupportedNames(names: seq<string>): seq<string>
  {
    Filter(names, SupportedName)
  }

  /** A name is counted exactly when it is listed with a supported extension. */
  lemma SupportedNamesMembers(names: seq<string>)
    ensures forall n :: n in SupportedNames(names) <==> n in names && Supported(Extension(n))
  {
    FilterMembers(names, SupportedName);
  }

  /** How `main` ends: an exception, the "No valid files" message, or the
      completion message. */
  datatype Verdict = Crashed(error: Error) | NoValidFiles | Complete

  /** The body of the loop in `main` for one listed name: a supported file
      goes through `process_file` and, when a path came back, `move_file`,
      and is counted; an exception ends the loop and leaves the rest as it
      was. */
  method HandleEntry(files: set<string>, count: nat, reports: seq<Report>, source: string, name: string, decide: string -> Plan, mover: string -> MoveEffect)
    returns (files': set<string>, count': nat, reports': seq<Report>, crash: Option<Error>)
    ensures Batch(files', count', reports', crash) == Step(Batch(files, count, reports, None), source, name, decide, mover)
  {
    files', count', reports', crash := files, count, reports, None;
    if SupportedName(name) {
      var path := Join(source, name);
      var plan := decide(path);
      if plan.Crash? {
        crash := Some(plan.error);
      } else {
        var move: Option<MoveReport> := None;
        if plan.Move? {
          var (after, report) := MoveFile(files, path, plan.dest, mover(path));
          files', move := after, Some(report);
        }
        reports' := reports + [Report(path, plan, move)];
        count' := count + 1;
      }
      assert Batch(files', count', reports', crash) == Step(Batch(files, count, reports, None), source, name, decide, mover) by {
        StepUnfold(Batch(files, count, reports, None), source, name, decide, mover);
      }
    }
  }

  /** `Step` on a supported name when no exception has ended the loop. */
  lemma StepUnfold(b: Batch, source: string, name: string, decide: string -> Plan, mover: string -> MoveEffect)
    requires b.crash.None? && SupportedName(name)
    ensures var path := Join(source, name);
      Step(b, source, name, decide, mover) ==
        match decide(path)
        case Crash(e) => b.(crash := Some(e))
        case Move(dest) =>
          var (after, report) := MoveFile(b.files, path, dest, mover(path));
          Batch(after, b.count + 1, b.reports + [Report(path, Move(dest), Some(report))], None)
        case plan => b.(count := b.count + 1, reports := b.reports + [Report(path, plan, None)])
  {
  }

  /** The loop of `main` and the verdict on `count` that follows it. */
  method RunBatch(source: string, names: seq<string>, decide: string -> Plan, mover: string -> MoveEffect, start: set<string>)
    returns (files: set<string>, count: nat, reports: seq<Report>, verdict: Verdict)
    ensures var b := RunSpec(source, names, decide, mover, start);
      files == b.files && count == b.count && reports == b.reports
      && (b.crash.Some? ==> verdict == Crashed(b.crash.value))
      && (b.crash.None? ==> (verdict == NoValidFiles <==> count == 0) && (verdict == Complete <==> count > 0))
  {
    files, count, reports := start, 0, [];
    var crash: Option<Error> := None;
    var i := 0;
    while i < |names| && crash.None?
      invariant 0 <= i <= |names|
      invariant Batch(files, count, reports, crash) == RunSpec(source, names[..i], decide, mover, start)
      invariant crash.Some? ==> RunSpec(source, names, decide, mover, start) == RunSpec(source, names[..i], decide, mover, start)
    {
      RunSpecExtend(source, names, decide, mover, start, i);
      files, count, reports, crash := HandleEntry(files, count, reports, source, names[i], decide, mover);
      if crash.Some? {
        CrashSticks(source, names, decide, mover, start, i + 1);
      }
      i := i + 1;
    }
    if i == |names| {
      assert names[..i] == names;
    }
    if crash.Some? {
      verdict := Crashed(crash.value);
    } else if count < 1 {
      verdict := NoValidFiles;
    } else {
      verdict := Complete;
    }
  }

  /** `main` after the API check, with `process_file` deciding each file: it
      always completes, with "No valid files" exactly when no listed name has
      a supported extension. */
  method Run(source: string, names: seq<string>, env: Env, start: set<string>)
    returns (files: set<string>, count: nat, reports: seq<Report>, verdict: Verdict)
    ensures var b := RunSpec(source, names, Decide(env), env.mover, start);
      files == b.files && count == b.count && reports == b.reports
    ensures count == |SupportedNames(names)| && |reports| == count
    ensures verdict == NoValidFiles <==> SupportedNames(names) == []
    ensures verdict == Complete <==> SupportedNames(names) != []
  {
    files, count, reports, verdict := RunBatch(source, names, Decide(env), env.mover, start);
    forall path ensures !Decide(env)(path).Crash? {
      ProcessFileSpec(path, env);
    }
    RunCounts(source, names, Decide(env), env.mover, start);
  }

  /** The loop over one more name is one more `Step`. */
  lemma RunSpecExtend(source: string, names: seq<string>, decide: string -> Plan, mover: string -> MoveEffect, start: set<string>, i: nat)
    requires i < |names|
    ensures RunSpec(source, names[..i + 1], decide, mover, start)
         == Step(RunSpec(source, names[..i], decide, mover, start), source, names[i], decide, mover)
  {
    assert names[..i + 1][..i] == names[..i] && names[..i + 1][i] == names[i];
  }

  /** Once the loop has ended on an exception, later entries change nothing. */
  lemma {:induction false} CrashSticks(source: string, names: seq<string>, decide: string -> Plan, mover: string -> MoveEffect, start: set<string>, i: nat)
    requires i <= |names| && RunSpec(source, names[..i], decide, mover, start).crash.Some?
    ensures RunSpec(source, names, decide, mover, start) == RunSpec(source, names[..i], decide, mover, start)
    decreases |names| - i
  {
    if i < |names| {
      assert names[..i + 1][..i] == names[..i];
      CrashSticks(source, names, decide, mover, start, i + 1);
    } else {
      assert names[..i] == names;
    }
  }

  /** When no decision is an exception the loop runs to the end: `count` is
      the number of supported names, and one report is made for each, in
      listing order, for its path under the source directory. */
  lemma {:induction false} RunCounts(source: string, names: seq<string>, decide: string -> Plan, mover: string -> MoveEffect, start: set<string>)
    requires forall path :: !decide(path).Crash?
    ensures var b := RunSpec(source, names, decide, mover, start);
      && b.crash.None?
      && b.count == |SupportedNames(names)| == |b.reports|
      && forall j :: 0 <= j < |b.reports| ==> b.reports[j].path == Join(source, SupportedNames(names)[j])
    decreases |names|
  {
    if names != [] {
      var init := names[..|names| - 1];
      var last := names[|names| - 1];
      RunCounts(source, init, decide, mover, start);
      var b := RunSpec(source, init, decide, mover, start);
      assert RunSpec(source, names, decide, mover, start) == Step(b, source, last, decide, mover);
      var kept := SupportedNames(init);
      assert SupportedNames(names) == if SupportedName(last) then kept + [last] else kept;
      StepCounts(b, source, last, decide, mover);
      var b' := Step(b, source, last, decide, mover);
      forall j | 0 <= j < |b'.reports| ensures b'.reports[j].path == Join(source, SupportedNames(names)[j]) {
        if j < |b.reports| {
          assert b'.reports[j] == b'.reports[..|b.reports|][j] == b.reports[j];
          assert SupportedNames(names)[j] == kept[j];
        }
      }
    }
  }

  /** One more listed name, when `process_file` does not fail on it: a
      supported one adds one report, for its path, and one to the count; any
      other changes nothing. */
  lemma StepCounts(b: Batch, source: string, name: string, decide: string -> Plan, mover: string -> MoveEffect)
    requires b.crash.None? && !decide(Join(source, name)).Crash?
    ensures var b' := Step(b, source, name, decide, mover);
      && b'.crash.None?
      && (SupportedName(name) ==>
            b'.count == b.count + 1 && b'.reports[..|b.reports|] == b.reports
            && |b'.reports| == |b.reports| + 1 && b'.reports[|b.reports|].path == Join(source, name))
      && (!SupportedName(name) ==> b' == b)
  {
    if SupportedName(name) {
      var path := Join(source, name);
      var plan := decide(path);
      StepUnfold(b, source, name, decide, mover);
      var move := if plan.Move? then Some(MoveFile(b.files, path, plan.dest, mover(path)).1) else None;
      assert Step(b, source, name, decide, mover).reports == b.reports + [Report(path, plan, move)];
    }
  }

  /** A listed name without `/` keeps its extension and its name under the
      source directory, so every file `main` counts is one `process_file`
      handles. */
  lemma ListedNameKeepsExtension(source: string, name: string)
    requires '/' !in name
    ensures Basename(Join(source, name)) == name
    ensures Extension(Join(source, name)) == Extension(name)
    ensures Supported(Extension(name)) ==> !Classify(Join(source, name)).Unsupported?
    ensures var e := Extension(name);
            e == [] || (e[0] == '.' && '.' !in e[1..] && e == name[|name| - |e|..])
  {
    BasenameOfJoin(source, name);
    assert Basename(name) == name by {
      BasenameAfterSlash([], name);
      assert [] + name == name;
    }
    ExtensionOfBasename(Join(source, name), name);
    ExtensionShape(name);
  }
}
