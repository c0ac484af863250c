/** The pieces of Python's runtime that the renaming code leans on, written out
    over `string` (= `seq<char>`): the string methods `replace`, `strip`,
    `translate` (deletion only) and `split(sep)[0]`, a one-class `re.sub`, and
    POSIX `os.path.basename`, `os.path.splitext` and `os.path.join`.
    Exceptions are values: a computation either returns or raises. */
module Py {

  datatype Option<+T> = None | Some(value: T)

  /** The exceptions that the renaming code raises, catches or lets escape. */
  datatype Error = UnboundLocalError | TypeError | AttributeError | IndexError

  /** A Python computation that returns a value or raises an exception. */
  datatype Result<+T> = Value(value: T) | Raise(error: Error)

  /** `xs[0]`, which raises IndexError on an empty list or string. */
  function Head<T>(xs: seq<T>): (r: Result<T>)
    ensures r.Raise? <==> xs == []
    ensures r.Raise? ==> r.error == IndexError
    ensures r.Value? ==> r.value == xs[0]
  {
    if xs == [] then Raise(IndexError) else Value(xs[0])
  }

  // ---------------------------------------------------------------- characters

  /** `c.isspace()`: exactly the characters `str.strip()` removes. */
  predicate IsSpace(c: char)
  {
    || ('\t' <= c <= '\r')
    || ('\U{1C}' <= c <= ' ')
    || c == '\U{85}' || c == '\U{A0}' || c == '\U{1680}'
    || ('\U{2000}' <= c <= '\U{200A}')
    || c == '\U{2028}' || c == '\U{2029}' || c == '\U{202F}' || c == '\U{205F}' || c == '\U{3000}'
  }

  /** `[0-9]`, and `\d` restricted to ASCII. */
  predicate IsDigit(c: char) { '0' <= c <= '9' }

  /** `\w` restricted to ASCII letters, digits and the underscore. */
  predicate IsWordChar(c: char) { ('a' <= c <= 'z') || ('A' <= c <= 'Z') || IsDigit(c) || c == '_' }

  predicate AllDigits(s: string) { forall i :: 0 <= i < |s| ==> IsDigit(s[i]) }

  // ---------------------------------------------------------------- occurrences

  predicate OccursAt(s: string, k: nat, pat: string)
  {
    k + |pat| <= |s| && s[k..k + |pat|] == pat
  }

  /** `pat in s` for strings. */
  ghost predicate Contains(s: string, pat: string)
  {
    exists k: nat :: OccursAt(s, k, pat)
  }

  lemma OccursInTail(s: string, k: nat, pat: string)
    requires s != [] && OccursAt(s[1..], k, pat)
    ensures OccursAt(s, k + 1, pat)
  {
    assert s[k + 1..k + 1 + |pat|] == s[1..][k..k + |pat|];
  }

  ghost predicate IsSubsequence(a: string, b: string)
    decreases |b|
  {
    if a == [] then true
    else if b == [] then false
    else if a[0] == b[0] then IsSubsequence(a[1..], b[1..])
    else IsSubsequence(a, b[1..])
  }

  // ---------------------------------------------------------------- str.replace

  /** `s.replace(pat, rep)`: scans left to right and replaces every
      non-overlapping occurrence of `pat`. */
  function ReplaceAll(s: string, pat: string, rep: string): string
    requires pat != []
    decreases |s|
  {
    if pat <= s then rep + ReplaceAll(s[|pat|..], pat, rep)
    else if s == [] then []
    else [s[0]] + ReplaceAll(s[1..], pat, rep)
  }

  /** A string that does not contain `pat` is returned unchanged. */
  lemma {:induction false} ReplaceAbsent(s: string, pat: string, rep: string)
    requires pat != [] && !Contains(s, pat)
    ensures ReplaceAll(s, pat, rep) == s
    decreases |s|
  {
    assert pat <= s ==> OccursAt(s, 0, pat);
    if s != [] {
      forall k: nat | OccursAt(s[1..], k, pat) ensures OccursAt(s, k + 1, pat) {
        OccursInTail(s, k, pat);
      }
      ReplaceAbsent(s[1..], pat, rep);
    }
  }

  /** Replacing a single character is the character map of `re.sub`. */
  lemma {:induction false} ReplaceCharIsMap(s: string, c: char, d: char)
    ensures ReplaceAll(s, [c], [d]) == MapChars(s, {c}, d)
    decreases |s|
  {
    if s != [] {
      ReplaceCharIsMap(s[1..], c, d);
      if [c] <= s {
        assert s[0] == c;
      } else {
        assert s[0] != c;
      }
    }
  }

  /** Replacing a single character by nothing deletes it, as `translate` does. */
  lemma {:induction false} ReplaceCharIsDelete(s: string, c: char)
    ensures ReplaceAll(s, [c], []) == DeleteChars(s, {c})
    decreases |s|
  {
    if s != [] {
      ReplaceCharIsDelete(s[1..], c);
      if [c] <= s {
        assert s[0] == c;
      } else {
        assert s[0] != c;
      }
    }
  }

  /** Text before which `pat` cannot start is copied unchanged, and the
      replacement continues with the rest. */
  lemma {:induction false} ReplaceSkipsPrefix(a: string, b: string, pat: string, rep: string)
    requires pat != []
    requires forall k :: 0 <= k < |a| ==> !(pat <= (a + b)[k..])
    ensures ReplaceAll(a + b, pat, rep) == a + ReplaceAll(b, pat, rep)
    decreases |a|
  {
    if a != [] {
      assert !(pat <= (a + b)[0..]);
      assert (a + b)[1..] == a[1..] + b;
      forall k | 0 <= k < |a[1..]|
        ensures !(pat <= (a[1..] + b)[k..])
      {
        assert (a[1..] + b)[k..] == (a + b)[k + 1..];
      }
      ReplaceSkipsPrefix(a[1..], b, pat, rep);
    }
  }

  // ---------------------------------------------------------------- translate, re.sub

  /** `s.translate(str.maketrans("", "", chars))`: deletes every character of `cs`. */
  function DeleteChars(s: string, cs: set<char>): string
    decreases |s|
  {
    if s == [] then []
    else (if s[0] in cs then [] else [s[0]]) + DeleteChars(s[1..], cs)
  }

  /** Two deletions in a row delete the union of the two sets. */
  lemma {:induction false} DeleteTwice(s: string, a: set<char>, b: set<char>)
    ensures DeleteChars(DeleteChars(s, a), b) == DeleteChars(s, a + b)
    decreases |s|
  {
    if s != [] {
      DeleteTwice(s[1..], a, b);
      var head := if s[0] in a then [] else [s[0]];
      DeleteConcat(head, DeleteChars(s[1..], a), b);
      if s[0] !in a {
        assert DeleteChars(head, b) == (if s[0] in b then [] else [s[0]]);
      }
    }
  }

  /** A character survives deletion exactly when it occurs in `s` and is not in `cs`. */
  lemma {:induction false} DeleteCharsMembers(s: string, cs: set<char>)
    ensures forall c :: c in DeleteChars(s, cs) <==> c in s && c !in cs
    ensures |DeleteChars(s, cs)| <= |s|
    decreases |s|
  {
    if s != [] {
      DeleteCharsMembers(s[1..], cs);
      assert forall c :: c in s <==> c == s[0] || c in s[1..];
    }
  }

  /** Deletion keeps every occurrence of a character outside `cs`, and none
      of the characters in `cs`. */
  lemma {:induction false} DeleteCharsCounts(s: string, cs: set<char>)
    ensures forall c :: c !in cs ==> multiset(DeleteChars(s, cs))[c] == multiset(s)[c]
    ensures forall c :: c in cs ==> multiset(DeleteChars(s, cs))[c] == 0
    decreases |s|
  {
    if s != [] {
      DeleteCharsCounts(s[1..], cs);
      assert s == [s[0]] + s[1..];
      assert multiset(s) == multiset([s[0]]) + multiset(s[1..]);
    }
  }

  lemma {:induction false} DeleteConcat(a: string, b: string, cs: set<char>)
    ensures DeleteChars(a + b, cs) == DeleteChars(a, cs) + DeleteChars(b, cs)
    decreases |a|
  {
    if a == [] {
      assert a + b == b;
    } else {
      assert (a + b)[0] == a[0];
      assert (a + b)[1..] == a[1..] + b;
      DeleteConcat(a[1..], b, cs);
    }
  }

  /** Deleting leaves a string alone exactly when none of its characters is deleted. */
  lemma {:induction false} DeleteUnchanged(s: string, cs: set<char>)
    ensures DeleteChars(s, cs) == s <==> forall c :: c in s ==> c !in cs
    decreases |s|
  {
    DeleteCharsMembers(s, cs);
    if s != [] {
      DeleteUnchanged(s[1..], cs);
      if forall c :: c in s ==> c !in cs {
        assert forall c :: c in s[1..] ==> c in s;
      }
    }
  }

  lemma DeleteIdempotent(s: string, cs: set<char>)
    ensures DeleteChars(DeleteChars(s, cs), cs) == DeleteChars(s, cs)
  {
    DeleteCharsMembers(s, cs);
    DeleteUnchanged(DeleteChars(s, cs), cs);
  }

  /** What deleting keeps, it keeps in order. */
  lemma {:induction false} DeleteIsSubsequence(s: string, cs: set<char>)
    ensures IsSubsequence(DeleteChars(s, cs), s)
    decreases |s|
  {
    if s != [] {
      DeleteIsSubsequence(s[1..], cs);
      if s[0] !in cs {
        assert DeleteChars(s, cs) == [s[0]] + DeleteChars(s[1..], cs);
      } else {
        assert DeleteChars(s, cs) == DeleteChars(s[1..], cs);
        SubsequenceOfTail(DeleteChars(s[1..], cs), s);
      }
    }
  }

  lemma {:induction false} SubsequenceOfTail(a: string, b: string)
    requires b != [] && IsSubsequence(a, b[1..])
    ensures IsSubsequence(a, b)
    decreases |b|, 0
  {
    if a != [] && a[0] == b[0] {
      // IsSubsequence(a, b) reduces to IsSubsequence(a[1..], b[1..]).
      SubsequenceDropHead(a, b[1..]);
    }
  }

  lemma {:induction false} SubsequenceDropHead(a: string, b: string)
    requires a != [] && IsSubsequence(a, b)
    ensures IsSubsequence(a[1..], b)
    decreases |b|, 1
  {
    if b != [] {
      if a[0] == b[0] {
        if a[1..] != [] {
          SubsequenceOfTail(a[1..], b);
        }
      } else {
        SubsequenceDropHead(a, b[1..]);
        if a[1..] != [] {
          SubsequenceOfTail(a[1..], b);
        }
      }
    }
  }

  /** `re.sub("[...]", d, s)` for one character class `cs`: each character of
      `cs` becomes `d`, every other character stays where it is. */
  function MapChars(s: string, cs: set<char>, d: char): (r: string)
    ensures |r| == |s|
    ensures forall i :: 0 <= i < |s| ==> r[i] == if s[i] in cs then d else s[i]
    decreases |s|
  {
    if s == [] then []
    else [if s[0] in cs then d else s[0]] + MapChars(s[1..], cs, d)
  }

  /** With `d` outside the class, no class character survives and mapping twice
      is mapping once. */
  lemma MapCharsClean(s: string, cs: set<char>, d: char)
    requires d !in cs
    ensures forall c :: c in MapChars(s, cs, d) ==> c !in cs
    ensures MapChars(MapChars(s, cs, d), cs, d) == MapChars(s, cs, d)
  {
    var r := MapChars(s, cs, d);
    forall c | c in r ensures c !in cs {
      var i :| 0 <= i < |r| && r[i] == c;
    }
    assert MapChars(r, cs, d) == r;
  }

  // ---------------------------------------------------------------- str.strip

  /** `s.lstrip()`. */
  function LStrip(s: string): (r: string)
    ensures |r| <= |s| && r == s[|s| - |r|..]
    ensures r == [] || !IsSpace(r[0])
    ensures forall i {:trigger IsSpace(s[i])} :: 0 <= i < |s| - |r| ==> IsSpace(s[i])
    decreases |s|
  {
    if s != [] && IsSpace(s[0]) then LStrip(s[1..]) else s
  }

  /** `s.rstrip()`. */
  function RStrip(s: string): (r: string)
    ensures |r| <= |s| && r == s[..|r|]
    ensures r == [] || !IsSpace(r[|r| - 1])
    ensures forall i {:trigger IsSpace(s[i])} :: |r| <= i < |s| ==> IsSpace(s[i])
    decreases |s|
  {
    if s != [] && IsSpace(s[|s| - 1]) then RStrip(s[..|s| - 1]) else s
  }

  /** No whitespace at either end. */
  predicate Stripped(s: string)
  {
    s == [] || (!IsSpace(s[0]) && !IsSpace(s[|s| - 1]))
  }

  /** `s.strip()`. */
  function Strip(s: string): string
  {
    RStrip(LStrip(s))
  }

  /** `strip` cuts out a slice that is bounded by whitespace on both sides and
      begins and ends with a non-space. */
  lemma StripSpec(s: string)
    ensures Stripped(Strip(s))
    ensures var i := |s| - |LStrip(s)|;
            i + |Strip(s)| <= |s| && Strip(s) == s[i..i + |Strip(s)|]
            && (forall j :: 0 <= j < i ==> IsSpace(s[j]))
            && (forall j :: i + |Strip(s)| <= j < |s| ==> IsSpace(s[j]))
  {
    StripEnds(s);
    StripSlice(s);
    StripTrailing(s);
  }

  lemma StripEnds(s: string)
    ensures Stripped(Strip(s))
  {
    var l := LStrip(s);
    var r := RStrip(l);
    assert r == l[..|r|];
    assert r != [] ==> r[0] == l[0];
  }

  lemma StripSlice(s: string)
    ensures var i := |s| - |LStrip(s)|;
            i + |Strip(s)| <= |s| && Strip(s) == s[i..i + |Strip(s)|]
  {
    DropTake(s, |s| - |LStrip(s)|, |Strip(s)|);
  }

  lemma DropTake<T>(s: seq<T>, i: nat, n: nat)
    requires i + n <= |s|
    ensures s[i..][..n] == s[i..i + n]
  {
  }

  lemma NotInSlice<T>(s: seq<T>, x: T, i: nat, j: nat)
    requires i <= j <= |s| && x !in s
    ensures x !in s[i..j]
  {
    assert forall k :: 0 <= k < j - i ==> s[i..j][k] == s[i + k];
  }

  lemma StripTrailing(s: string)
    ensures var i := |s| - |LStrip(s)|;
            forall j :: i + |Strip(s)| <= j < |s| ==> IsSpace(s[j])
  {
    var l := LStrip(s);
    var r := RStrip(l);
    var i := |s| - |l|;
    assert l == s[i..];
    forall j | i + |r| <= j < |s| ensures IsSpace(s[j]) {
      assert s[j] == l[j - i];
    }
  }

  /** `strip` leaves a string alone exactly when it has no whitespace at its ends. */
  lemma StripUnchanged(s: string)
    ensures Strip(s) == s <==> Stripped(s)
  {
    StripSpec(s);
    if Stripped(s) && s != [] {
      assert LStrip(s) == s;
      assert RStrip(s) == s;
    }
  }

  /** `strip` only removes characters, so it never brings one in. */
  lemma StripKeepsAbsent(s: string, c: char)
    requires c !in s
    ensures c !in Strip(s)
  {
    StripSlice(s);
    NotInSlice(s, c, |s| - |LStrip(s)|, |s| - |LStrip(s)| + |Strip(s)|);
  }

  // ---------------------------------------------------------------- regular expressions

  /** Where the line that `p` is on ends: `.` in a pattern does not match a newline. */
  function LineEnd(s: string, p: nat): (e: nat)
    requires p <= |s|
    ensures p <= e <= |s| && '\n' !in s[p..e]
    ensures e == |s| || s[e] == '\n'
    decreases |s| - p
  {
    if p == |s| || s[p] == '\n' then p
    else
      var e := LineEnd(s, p + 1);
      assert s[p..e] == [s[p]] + s[p + 1..e];
      e
  }

  /** On a string without a newline the line runs to the end. */
  lemma {:induction false} LineEndWithoutNewline(s: string, p: nat)
    requires p <= |s| && '\n' !in s[p..]
    ensures LineEnd(s, p) == |s|
    decreases |s| - p
  {
    if p < |s| {
      assert s[p] == s[p..][0] && s[p + 1..] == s[p..][1..];
      LineEndWithoutNewline(s, p + 1);
    }
  }

  // ---------------------------------------------------------------- str.split

  /** `s.split(sep)[0]`: the text before the first `sep`, or all of `s`. */
  function BeforeFirst(s: string, sep: char): (r: string)
    ensures r <= s && sep !in r
    ensures |r| < |s| ==> s[|r|] == sep
    decreases |s|
  {
    if s == [] || s[0] == sep then [] else [s[0]] + BeforeFirst(s[1..], sep)
  }

  /** The text before the first `sep` ends at `k` when `s[k]` is the first `sep`. */
  lemma BeforeFirstAt(s: string, sep: char, k: nat)
    requires k < |s| && s[k] == sep && forall j :: 0 <= j < k ==> s[j] != sep
    ensures BeforeFirst(s, sep) == s[..k]
  {
  }

  // ---------------------------------------------------------------- os.path

  /** `os.path.basename(p)`: what follows the last `/`. */
  function Basename(p: string): (r: string)
    ensures '/' !in r
    ensures |r| <= |p| && r == p[|p| - |r|..]
    ensures |r| < |p| ==> p[|p| - |r| - 1] == '/'
    decreases |p|
  {
    if p == [] || p[|p| - 1] == '/' then [] else Basename(p[..|p| - 1]) + [p[|p| - 1]]
  }

  /** The index of the last `c` in `s`, `str.rfind`. */
  function LastIndex(s: string, c: char): (r: Option<nat>)
    ensures r.None? <==> c !in s
    ensures r.Some? ==> r.value < |s| && s[r.value] == c && c !in s[r.value + 1..]
    decreases |s|
  {
    if s == [] then None
    else if s[|s| - 1] == c then Some(|s| - 1)
    else LastIndex(s[..|s| - 1], c)
  }

  predicate AllDots(s: string) { forall i :: 0 <= i < |s| ==> s[i] == '.' }

  /** `os.path.splitext(p)[1]`: from the last dot of the final component on,
      unless only dots come before that dot, in which case there is none. */
  function Extension(p: string): string
  {
    ComponentExtension(Basename(p))
  }

  /** The extension of one path component `b`. */
  function ComponentExtension(b: string): string
  {
    match LastIndex(b, '.')
    case None => []
    case Some(i) => if AllDots(b[..i]) then [] else b[i..]
  }

  lemma ExtensionShape(p: string)
    ensures var e := Extension(p);
            |e| <= |p| && e == p[|p| - |e|..]
            && (e == [] || (e[0] == '.' && '.' !in e[1..] && '/' !in e))
  {
    BasenameSuffix(p);
    ComponentExtensionShape(Basename(p));
    SuffixOfSuffix(p, Basename(p), Extension(p));
  }

  lemma BasenameSuffix(p: string)
    ensures |Basename(p)| <= |p| && Basename(p) == p[|p| - |Basename(p)|..]
  {
  }

  lemma ComponentExtensionShape(b: string)
    ensures var e := ComponentExtension(b);
            |e| <= |b| && e == b[|b| - |e|..]
            && (e == [] || (e[0] == '.' && '.' !in e[1..]))
            && ('/' !in b ==> '/' !in e)
  {
    match LastIndex(b, '.')
    case None =>
    case Some(i) =>
      if !AllDots(b[..i]) {
        assert b[i..][1..] == b[i + 1..];
        if '/' !in b {
          NotInSlice(b, '/', i, |b|);
        }
      }
  }

  lemma SuffixOfSuffix<T>(p: seq<T>, b: seq<T>, e: seq<T>)
    requires |b| <= |p| && b == p[|p| - |b|..]
    requires |e| <= |b| && e == b[|b| - |e|..]
    ensures e == p[|p| - |e|..]
  {
  }

  /** A name without `/` that does not start with a dot has as its extension
      what follows its last dot. */
  lemma ExtensionAt(b: string, i: nat)
    requires '/' !in b && 0 < i < |b| && b[0] != '.' && b[i] == '.'
    requires forall j :: i < j < |b| ==> b[j] != '.'
    ensures Basename(b) == b && Extension(b) == b[i..]
  {
    BasenameOfName(b);
    ComponentExtensionAt(b, i);
  }

  lemma BasenameOfName(b: string)
    requires '/' !in b
    ensures Basename(b) == b
  {
    BasenameAfterSlash([], b);
    assert [] + b == b;
  }

  lemma ComponentExtensionAt(b: string, i: nat)
    requires 0 < i < |b| && b[0] != '.' && b[i] == '.'
    requires forall j :: i < j < |b| ==> b[j] != '.'
    ensures ComponentExtension(b) == b[i..]
  {
    LastIndexAt(b, '.', i);
    assert b[..i][0] == b[0];
  }

  lemma LastIndexAt(b: string, c: char, i: nat)
    requires i < |b| && b[i] == c && forall j :: i < j < |b| ==> b[j] != c
    ensures LastIndex(b, c) == Some(i)
  {
  }

  /** The extension depends on the final component alone. */
  lemma ExtensionOfBasename(p: string, q: string)
    requires Basename(p) == Basename(q)
    ensures Extension(p) == Extension(q)
  {
  }

  /** `os.path.join(a, b)` on POSIX: an absolute `b` discards `a`; otherwise a
      `/` goes between them unless `a` is empty or already ends with one. */
  function Join(a: string, b: string): string
  {
    if b != [] && b[0] == '/' then b
    else if a == [] || a[|a| - 1] == '/' then a + b
    else a + "/" + b
  }

  /** Between a directory that does not end in `/` and a relative name,
      `os.path.join` puts exactly one `/`. */
  lemma JoinPlain(a: string, b: string)
    requires a != [] && a[|a| - 1] != '/' && (b == [] || b[0] != '/')
    ensures Join(a, b) == a + "/" + b
  {
  }

  lemma {:induction false} BasenameAfterSlash(a: string, b: string)
    requires '/' !in b && (a == [] || a[|a| - 1] == '/')
    ensures Basename(a + b) == b
    decreases |b|
  {
    if b != [] {
      assert (a + b)[..|a + b| - 1] == a + b[..|b| - 1];
      BasenameAfterSlash(a, b[..|b| - 1]);
    } else {
      assert a + b == a;
    }
  }

  /** Joining a name without a separator onto a directory gives back that name
      as the basename. */
  lemma BasenameOfJoin(a: string, b: string)
    requires '/' !in b
    ensures Basename(Join(a, b)) == b
  {
    if a == [] || a[|a| - 1] == '/' {
      BasenameAfterSlash(a, b);
    } else {
      assert a + "/" + b == (a + "/") + b;
      BasenameAfterSlash(a + "/", b);
    }
  }
}
