/** The two clean-ups that the show and the movie handlers both apply to text
    coming back from the metadata service: `remove_colon`, which turns the
    separator ": " into " - ", and the deletion of the characters that are not
    wanted in a file name. Both source files carry their own identical copy of
    each; here they are defined once. */
module Sanitize {
  import opened Py

  /** The characters deleted from provider titles:
      \ / : * ` ‘ ’ “ ” ? ! " < > | */
  const InvalidChars: set<char> :=
    {'\\', '/', ':', '*', '`', '\U{2018}', '\U{2019}', '\U{201C}', '\U{201D}', '?', '!', '"', '<', '>', '|'}

  /** `remove_colon`: `s.replace(": ", " - ")`. */
  function RemoveColon(s: string): string
  {
    ReplaceAll(s, ": ", " - ")
  }

  /** `s.translate(str.maketrans("", "", invalid_chars))`. */
  function StripInvalid(s: string): string
  {
    DeleteChars(s, InvalidChars)
  }

  /** A string without ": " passes through `remove_colon` unchanged. */
  lemma RemoveColonAbsent(s: string)
    requires !Contains(s, ": ")
    ensures RemoveColon(s) == s
  {
    ReplaceAbsent(s, ": ", " - ");
  }

  /** Every ": " is rewritten: unless the input doubles a colon ("::"), no ": "
      is left in the output. */
  lemma {:induction false} RemoveColonLeavesNone(s: string)
    requires !Contains(s, "::")
    ensures !Contains(RemoveColon(s), ": ")
    ensures RemoveColon(s) != [] && RemoveColon(s)[0] == ' ' ==> s[0] == ' ' || s[0] == ':'
    decreases |s|
  {
    var r := RemoveColon(s);
    if ": " <= s {
      var t := s[2..];
      forall k: nat | OccursAt(t, k, "::") ensures OccursAt(s, k + 2, "::") {
        assert s[k + 2..k + 4] == t[k..k + 2];
      }
      RemoveColonLeavesNone(t);
      var rt := RemoveColon(t);
      assert r == " - " + rt;
      NoColonSpaceInPrefixed(" - ", rt);
    } else if s != [] {
      var t := s[1..];
      forall k: nat | OccursAt(t, k, "::") ensures OccursAt(s, k + 1, "::") {
        OccursInTail(s, k, "::");
      }
      RemoveColonLeavesNone(t);
      var rt := RemoveColon(t);
      assert r == [s[0]] + rt;
      if s[0] == ':' {
        // s[1] is neither ' ' (else ": " <= s) nor ':' (no "::"), so rt does not start with ' '.
        var start: nat := 0;
        assert t != [] && t[0] == ':' ==> OccursAt(s, start, "::");
        assert t != [] && t[0] == ' ' ==> ": " <= s;
      }
      NoColonSpaceInPrefixed([s[0]], rt);
    } else {
      assert r == [];
    }
  }

  /** Helper: `p + q` has no ": " when neither part has one and the seam is safe. */
  lemma NoColonSpaceInPrefixed(p: string, q: string)
    requires p != [] && ':' !in p[..|p| - 1]
    requires !Contains(q, ": ")
    requires p[|p| - 1] == ':' ==> q == [] || q[0] != ' '
    ensures !Contains(p + q, ": ")
  {
    forall k: nat ensures !OccursAt(p + q, k, ": ") {
      if k + 2 <= |p + q| {
        var w := (p + q)[k..k + 2];
        assert w[0] == (p + q)[k] && w[1] == (p + q)[k + 1];
        if k + 1 < |p| {
          assert (p + q)[k] == p[..|p| - 1][k];
        } else if k + 1 == |p| {
          assert (p + q)[k] == p[|p| - 1] && (p + q)[k + 1] == q[0];
        } else {
          assert w == q[k - |p|..k - |p| + 2];
          assert !OccursAt(q, k - |p|, ": ");
        }
      }
    }
  }

  /** Helper: a string whose first character is not the first of `pat` does not contain it. */
  lemma AbsentWithoutFirstChar(s: string, pat: string)
    requires pat != [] && pat[0] !in s
    ensures !Contains(s, pat)
  {
    forall k: nat ensures !OccursAt(s, k, pat) {
      if k + |pat| <= |s| {
        assert s[k..k + |pat|][0] == s[k];
      }
    }
  }

  /** Helper: text without a colon is copied through the rewrite unchanged. */
  lemma RemoveColonAfter(a: string, t: string)
    requires ':' !in a
    ensures RemoveColon(a + t) == a + RemoveColon(t)
  {
    forall k | 0 <= k < |a| ensures !(": " <= (a + t)[k..]) {
      assert (a + t)[k..][0] == a[k];
    }
    ReplaceSkipsPrefix(a, t, ": ", " - ");
  }

  /** The colon rewrite runs before the deletion, so the separator survives as
      " - " instead of vanishing with the colon. */
  lemma ColonSeparatorSurvives(a: string, b: string)
    requires ':' !in a
    ensures StripInvalid(RemoveColon(a + ": " + b)) == StripInvalid(a) + " - " + StripInvalid(RemoveColon(b))
  {
    var tail := ": " + b;
    var rb := RemoveColon(b);
    assert a + ": " + b == a + tail;
    RemoveColonAfter(a, tail);
    assert ": " <= tail && tail[2..] == b;
    assert RemoveColon(tail) == " - " + rb;
    DeleteConcat(a, " - " + rb, InvalidChars);
    DeleteConcat(" - ", rb, InvalidChars);
    assert DeleteChars(" - ", InvalidChars) == " - ";
  }

  /** Cleaning removes every invalid character, keeps every occurrence of the
      others in order, and a second pass changes nothing. */
  lemma StripInvalidSpec(s: string)
    ensures forall c :: c in StripInvalid(s) ==> c !in InvalidChars
    ensures forall c :: c in s && c !in InvalidChars ==> c in StripInvalid(s)
    ensures forall c :: c !in InvalidChars ==> multiset(StripInvalid(s))[c] == multiset(s)[c]
    ensures IsSubsequence(StripInvalid(s), s)
    ensures StripInvalid(StripInvalid(s)) == StripInvalid(s)
  {
    DeleteCharsMembers(s, InvalidChars);
    DeleteCharsCounts(s, InvalidChars);
    DeleteIsSubsequence(s, InvalidChars);
    DeleteIdempotent(s, InvalidChars);
  }

  /** A string with no invalid character is left exactly as it is, and only such a string. */
  lemma StripInvalidUnchanged(s: string)
    ensures StripInvalid(s) == s <==> forall c :: c in s ==> c !in InvalidChars
  {
    DeleteUnchanged(s, InvalidChars);
  }

  /** Text made of letters and spaces passes both clean-ups unchanged. */
  lemma PlainTextKept(t: string)
    requires forall i :: 0 <= i < |t| ==> ('A' <= t[i] <= 'Z' || 'a' <= t[i] <= 'z' || t[i] == ' ')
    ensures RemoveColon(t) == t && StripInvalid(t) == t
  {
    AbsentWithoutFirstChar(t, ": ");
    RemoveColonAbsent(t);
    StripInvalidUnchanged(t);
  }
}
