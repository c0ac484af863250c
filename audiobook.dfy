/** The audiobook handler (plugins/audiobook.py): it reads the author and
    title tags of an `.m4b` file, writes the cleaned title back into the album
    and title tags, and files the book under `<books>/<author>/<title>.m4b`. */
module Audiobook {
  import opened Py

  // ------------------------------------------------ the two title clean-ups

  /** The characters that `remove_illegal_chars` replaces: < > : " / \ | ? * */
  const Illegal: set<char> := {'<', '>', ':', '"', '/', '\\', '|', '?', '*'}

  const Unabridged := "(Unabridged)"

  /** `remove_unabridged`: every "(Unabridged)" is removed, then the ends are stripped. */
  function RemoveUnabridged(title: string): string
  {
    Strip(ReplaceAll(title, Unabridged, ""))
  }

  /** `remove_illegal_chars`: `re.sub(r'[<>:"/\\|?*]', '_', title)`. */
  function RemoveIllegalChars(title: string): string
  {
    MapChars(title, Illegal, '_')
  }

  /** The result has no surrounding whitespace, and a title without the
      marker is only stripped. */
  lemma RemoveUnabridgedSpec(title: string)
    ensures Stripped(RemoveUnabridged(title))
    ensures !Contains(title, Unabridged) ==> RemoveUnabridged(title) == Strip(title)
  {
    StripSpec(ReplaceAll(title, Unabridged, ""));
    if !Contains(title, Unabridged) {
      ReplaceAbsent(title, Unabridged, "");
    }
  }

  /** A marker anywhere in a title goes: the text on either side is cleaned
      as if the marker had never been there, and when neither side holds
      another marker the two sides are simply joined and stripped
      ("(Unabridged) Dune" and "Dune (Unabridged) " both become "Dune"). */
  lemma RemoveUnabridgedAnywhere(a: string, b: string)
    ensures RemoveUnabridged(a + Unabridged + b)
         == Strip(ReplaceAll(a, Unabridged, "") + ReplaceAll(b, Unabridged, ""))
    ensures !Contains(a, Unabridged) && !Contains(b, Unabridged) ==>
      RemoveUnabridged(a + Unabridged + b) == Strip(a + b)
  {
    ReplaceDropsMarker(a, b);
    if !Contains(a, Unabridged) && !Contains(b, Unabridged) {
      ReplaceAbsent(a, Unabridged, "");
      ReplaceAbsent(b, Unabridged, "");
    }
  }

  /** A marker at the end of any title goes, and so does the whitespace
      before it: "Dune (Book 1) (Unabridged)" is cleaned like "Dune (Book 1)",
      and a title without the marker before it is only stripped. */
  lemma RemoveUnabridgedSuffix(a: string)
    ensures RemoveUnabridged(a + Unabridged) == RemoveUnabridged(a)
    ensures !Contains(a, Unabridged) ==> RemoveUnabridged(a + Unabridged) == Strip(a)
  {
    var e: string := [];
    ReplaceDropsMarker(a, e);
    assert a + Unabridged + e == a + Unabridged;
    assert ReplaceAll(a, Unabridged, "") + ReplaceAll(e, Unabridged, "") == ReplaceAll(a, Unabridged, "");
    RemoveUnabridgedSpec(a);
  }

  /** The marker has no proper border: its only `(` is its first character. */
  lemma UnabridgedOpensOnce()
    ensures Unabridged[0] == '('
    ensures forall j :: 0 < j < |Unabridged| ==> Unabridged[j] != '('
  {
  }

  /** A marker cannot start inside a text shorter than itself and run on
      into a following marker. */
  lemma MarkerNotAtShortSeam(a: string, b: string)
    requires 0 < |a| < |Unabridged|
    ensures !(Unabridged <= a + Unabridged + b)
  {
    var u := Unabridged;
    UnabridgedOpensOnce();
    var inMarker, atSeam := u[|a|], (a + u + b)[|a|];
    assert atSeam == u[0];
    assert u <= a + u + b ==> inMarker == atSeam;
  }

  /** No occurrence of the marker can straddle the seam in front of a marker,
      so that marker is deleted and the text on either side is replaced as
      on its own. */
  lemma {:induction false} ReplaceDropsMarker(a: string, b: string)
    ensures ReplaceAll(a + Unabridged + b, Unabridged, "")
         == ReplaceAll(a, Unabridged, "") + ReplaceAll(b, Unabridged, "")
    decreases |a|
  {
    var u := Unabridged;
    if 0 < |a| < |u| {
      MarkerNotAtShortSeam(a, b);
    }
    if a == [] {
      assert a + u + b == u + b;
      assert u <= u + b && (u + b)[|u|..] == b;
    } else if u <= a + u + b {
      assert u <= a by {
        assert a[..|u|] == (a + u + b)[..|u|];
      }
      assert (a + u + b)[|u|..] == a[|u|..] + u + b;
      ReplaceDropsMarker(a[|u|..], b);
    } else {
      assert (a + u + b)[1..] == a[1..] + u + b;
      assert (a + u + b)[0] == a[0];
      ReplaceDropsMarker(a[1..], b);
    }
  }

  /** The length is kept, each illegal character becomes `_`, every other
      character stays as it is; none is left, and a second pass changes
      nothing. */
  lemma RemoveIllegalCharsSpec(title: string)
    ensures |RemoveIllegalChars(title)| == |title|
    ensures forall i :: 0 <= i < |title| ==>
      RemoveIllegalChars(title)[i] == if title[i] in Illegal then '_' else title[i]
    ensures forall c :: c in RemoveIllegalChars(title) ==> c !in Illegal
    ensures RemoveIllegalChars(RemoveIllegalChars(title)) == RemoveIllegalChars(title)
  {
    MapCharsClean(title, Illegal, '_');
  }

  // ------------------------------------------------ process

  /** The tags of an MP4 container that `process` reads: each present tag is a
      list of values. */
  datatype Tags = Tags(artist: Option<seq<string>>, name: Option<seq<string>>)

  /** What is written back to the album and title tags. */
  datatype Rewrite = Rewrite(album: string, title: string)

  /** The effects and result of `process`: the author folder that is made to
      exist, the tag rewrite that is saved, and the returned path or the
      exception that escapes. */
  datatype Outcome = Outcome(authorDir: Option<string>, saved: Option<Rewrite>, dest: Result<string>)

  /** `audio.get('\xa9ART', ["Unknown Author"])[0]`. */
  function Author(tags: Tags): (r: Result<string>)
    ensures tags.artist.None? ==> r == Value("Unknown Author")
    ensures tags.artist.Some? ==> r == Head(tags.artist.value)
  {
    Head(if tags.artist.Some? then tags.artist.value else ["Unknown Author"])
  }

  /** `audio.get('\xa9nam', file)[0]`: without a title tag the default is the
      file name itself, so its first character is taken. */
  function Title(tags: Tags, file: string): (r: Result<string>)
    ensures tags.name.None? && file != [] ==> r == Value([file[0]])
    ensures tags.name.None? && file == [] ==> r == Raise(IndexError)
    ensures tags.name.Some? ==> r == Head(tags.name.value)
  {
    match tags.name
    case Some(values) => Head(values)
    case None =>
      match Head(file)
      case Value(c) => Value([c])
      case Raise(e) => Raise(e)
  }

  /** `process`. `tags` is None when the file cannot be opened as MP4, and
      `saveOk` says whether `audio.save()` succeeds. The bare `except` swallows
      every failure inside the `try`: when the author is not bound yet, the
      join that follows raises UnboundLocalError; when only the title (and so
      `clean_title`) is not, the author folder is made first. */
  function Process(path: string, books: string, tags: Option<Tags>, saveOk: bool): Outcome
  {
    var file := Basename(path);
    match tags
    case None => Outcome(None, None, Raise(UnboundLocalError))
    case Some(t) =>
      match Author(t)
      case Raise(_) => Outcome(None, None, Raise(UnboundLocalError))
      case Value(author) =>
        var authorFolder := Join(books, author);
        match Title(t, file)
        case Raise(_) => Outcome(Some(authorFolder), None, Raise(UnboundLocalError))
        case Value(title) =>
          var tagTitle := RemoveUnabridged(title);
          var cleanTitle := RemoveIllegalChars(tagTitle);
          var saved := if saveOk then Some(Rewrite(tagTitle, tagTitle)) else None;
          Outcome(Some(authorFolder), saved, Value(Join(authorFolder, cleanTitle + ".m4b")))
  }

  /** With both tags read, the author folder is `<books>/<author>`, the file
      is named after the cleaned title with the `.m4b` extension, and the tags
      get the title with the marker removed but the illegal characters kept:
      cleaning the saved title gives the file name.
      The root directory is whatever the user configured, and the layout is
      stated for one written without a trailing `/`; for one that ends in
      `/`, `os.path.join` adds no second separator (`Py.Join`), and the path
      is the same without the `/` between the root and the rest. */
  lemma AudiobookDestination(path: string, books: string, t: Tags, saveOk: bool, author: string, title: string)
    requires Author(t) == Value(author) && Title(t, Basename(path)) == Value(title)
    ensures var o := Process(path, books, Some(t), saveOk);
      var clean := RemoveIllegalChars(RemoveUnabridged(title));
      && o.authorDir == Some(Join(books, author))
      && o.dest.Value?
      && Basename(o.dest.value) == clean + ".m4b"
      && (forall c :: c in clean ==> c !in Illegal)
      && (o.saved.Some? <==> saveOk)
      && (o.saved.Some? ==> o.saved.value.album == o.saved.value.title == RemoveUnabridged(title)
                            && RemoveIllegalChars(o.saved.value.title) == clean)
    ensures books != [] && books[|books| - 1] != '/' && author != [] && author[0] != '/' && author[|author| - 1] != '/' ==>
      Process(path, books, Some(t), saveOk).dest
        == Value(books + "/" + author + "/" + RemoveIllegalChars(RemoveUnabridged(title)) + ".m4b")
  {
    var tagTitle := RemoveUnabridged(title);
    var dir := Join(books, author);
    var saved := if saveOk then Some(Rewrite(tagTitle, tagTitle)) else None;
    assert Process(path, books, Some(t), saveOk) == Outcome(Some(dir), saved, Value(Join(dir, RemoveIllegalChars(tagTitle) + ".m4b")));
    BookPath(books, author, tagTitle);
  }

  lemma BookPath(books: string, author: string, tagTitle: string)
    ensures var clean := RemoveIllegalChars(tagTitle);
      && Basename(Join(Join(books, author), clean + ".m4b")) == clean + ".m4b"
      && (forall c :: c in clean ==> c !in Illegal)
    ensures books != [] && books[|books| - 1] != '/' && author != [] && author[0] != '/' && author[|author| - 1] != '/' ==>
      Join(Join(books, author), RemoveIllegalChars(tagTitle) + ".m4b") == books + "/" + author + "/" + RemoveIllegalChars(tagTitle) + ".m4b"
  {
    var clean := RemoveIllegalChars(tagTitle);
    CleanFileName(tagTitle);
    FolderPath(books, author, clean + ".m4b");
  }

  lemma CleanFileName(tagTitle: string)
    ensures forall c :: c in RemoveIllegalChars(tagTitle) ==> c !in Illegal
    ensures '/' !in RemoveIllegalChars(tagTitle) + ".m4b"
  {
    RemoveIllegalCharsSpec(tagTitle);
    assert '/' in Illegal;
  }

  lemma FolderPath(books: string, author: string, file: string)
    requires '/' !in file
    ensures Basename(Join(Join(books, author), file)) == file
    ensures books != [] && books[|books| - 1] != '/' && author != [] && author[0] != '/' && author[|author| - 1] != '/' ==>
      Join(Join(books, author), file) == books + "/" + author + "/" + file
  {
    var dir := Join(books, author);
    BasenameOfJoin(dir, file);
    if books != [] && books[|books| - 1] != '/' && author != [] && author[0] != '/' && author[|author| - 1] != '/' {
      JoinPlain(books, author);
      assert dir[|dir| - 1] == author[|author| - 1];
      assert file == [] || file[0] != '/' by {
        if file != [] {
          assert file[0] in file;
        }
      }
      JoinPlain(dir, file);
    }
  }

  /** A file that cannot be opened, or whose author tag is an empty list, gets
      neither a folder nor a path; one whose title cannot be read gets the
      author folder but no path. The only exception that escapes is
      UnboundLocalError. */
  lemma AudiobookFailures(path: string, books: string, tags: Option<Tags>, saveOk: bool)
    ensures tags.None? ==> Process(path, books, tags, saveOk) == Outcome(None, None, Raise(UnboundLocalError))
    ensures tags.Some? && Author(tags.value).Raise? ==>
      Process(path, books, tags, saveOk) == Outcome(None, None, Raise(UnboundLocalError))
    ensures tags.Some? && Author(tags.value).Value? && Title(tags.value, Basename(path)).Raise? ==>
      Process(path, books, tags, saveOk) == Outcome(Some(Join(books, Author(tags.value).value)), None, Raise(UnboundLocalError))
    ensures Process(path, books, tags, saveOk).dest.Raise? ==> Process(path, books, tags, saveOk).dest.error == UnboundLocalError
    ensures Process(path, books, tags, saveOk).dest.Value? ==> Process(path, books, tags, saveOk).authorDir.Some?
  {
  }

  /** The defaults for missing tags: "Unknown Author", and the first character
      of the file name as the title. */
  lemma AudiobookDefaults(path: string, books: string, saveOk: bool)
    requires Basename(path) != []
    ensures var o := Process(path, books, Some(Tags(None, None)), saveOk);
      && o.authorDir == Some(Join(books, "Unknown Author"))
      && o.dest.Value?
      && Basename(o.dest.value) == RemoveIllegalChars(RemoveUnabridged([Basename(path)[0]])) + ".m4b"
  {
    AudiobookDestination(path, books, Tags(None, None), saveOk, "Unknown Author", [Basename(path)[0]]);
  }
}
