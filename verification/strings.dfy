/**
 The parts of Go's `strings` package the crawler relies on: lower-casing
 (restricted to ASCII letters) and `Split` with its inverse `Join`.
 A Dafny `char` is a Unicode scalar value, so one `char` stands for one rune.
 */
module Strings {

  predicate IsAsciiUpper(c: char) {
    'A' <= c <= 'Z'
  }

  /** Lower-cases one character; only 'A'..'Z' change. */
  function LowerChar(c: char): char {
    if IsAsciiUpper(c) then (c as int - 'A' as int + 'a' as int) as char else c
  }

  /** `strings.ToLower`, restricted to ASCII letters. */
  function Lower(s: string): string {
    seq(|s|, i requires 0 <= i < |s| => LowerChar(s[i]))
  }

  /** Two characters are the same letter up to ASCII case. */
  predicate SameIgnoringCase(a: char, b: char) {
    || a == b
    || (IsAsciiUpper(a) && b as int == a as int + 32)
    || (IsAsciiUpper(b) && a as int == b as int + 32)
  }

  /** Reference notion of case-insensitive equality, independent of `Lower`. */
  predicate EqualFold(s: string, t: string) {
    |s| == |t| && forall i :: 0 <= i < |s| ==> SameIgnoringCase(s[i], t[i])
  }

  /** Lower-casing identifies exactly the strings that are equal up to case. */
  lemma LowerEqualIffEqualFold(s: string, t: string)
    ensures Lower(s) == Lower(t) <==> EqualFold(s, t)
  {
    if Lower(s) == Lower(t) {
      forall i | 0 <= i < |s|
        ensures SameIgnoringCase(s[i], t[i])
      {
        assert Lower(s)[i] == Lower(t)[i];
      }
    }
    if EqualFold(s, t) {
      forall i | 0 <= i < |s|
        ensures Lower(s)[i] == Lower(t)[i]
      {
        assert SameIgnoringCase(s[i], t[i]);
      }
    }
  }

  /** A lower-cased string has the same length, no upper-case letter, and is a fixed point. */
  lemma LowerNormalizes(s: string)
    ensures |Lower(s)| == |s|
    ensures forall i :: 0 <= i < |s| ==> !IsAsciiUpper(Lower(s)[i])
    ensures Lower(Lower(s)) == Lower(s)
    ensures EqualFold(s, Lower(s))
  {
  }

  /** `s[j..]` begins with `sep`. */
  predicate OccursAt(s: string, sep: string, j: int) {
    0 <= j && j + |sep| <= |s| && s[j..j + |sep|] == sep
  }

  /** `strings.Index(s[k..], sep) + k`: the leftmost occurrence of `sep` at or after `k`, or -1. */
  function IndexFrom(s: string, sep: string, k: nat): (i: int)
    requires |sep| > 0 && k <= |s|
    ensures i == -1 || (k <= i && i + |sep| <= |s|)
    decreases |s| - k
  {
    if k + |sep| > |s| then -1
    else if s[k..k + |sep|] == sep then k
    else IndexFrom(s, sep, k + 1)
  }

  /** The search from `k` returns the leftmost occurrence of `sep` at or after `k`, or -1 when there is none. */
  lemma {:induction false} IndexFromSpec(s: string, sep: string, k: nat)
    requires |sep| > 0 && k <= |s|
    ensures var i := IndexFrom(s, sep, k);
            && (i == -1 || (k <= i && OccursAt(s, sep, i)))
            && forall j :: k <= j && (i == -1 || j < i) ==> !OccursAt(s, sep, j)
    decreases |s| - k
  {
    if k + |sep| <= |s| && s[k..k + |sep|] != sep {
      IndexFromSpec(s, sep, k + 1);
    }
  }

  /** `strings.Index` for a non-empty separator. */
  function Index(s: string, sep: string): (i: int)
    requires |sep| > 0
  {
    IndexFrom(s, sep, 0)
  }

  /** What `strings.Split` does for the empty separator: one piece per rune; no piece at all for "". */
  function Explode(s: string): (parts: seq<string>) {
    seq(|s|, i requires 0 <= i < |s| => [s[i]])
  }

  /**
   `strings.Split(s, sep)`: the pieces between the non-overlapping occurrences
   of `sep`, found left to right. A non-empty separator always yields at least
   one piece, so "" splits into [""].
   */
  function Split(s: string, sep: string): (parts: seq<string>)
    ensures sep != "" ==> |parts| >= 1
    ensures sep == "" ==> |parts| == |s|
    decreases |s|
  {
    if sep == "" then Explode(s)
    else
      var i := Index(s, sep);
      if i < 0 then [s] else [s[..i]] + Split(s[i + |sep|..], sep)
  }

  /** `strings.Join`. */
  function Join(parts: seq<string>, sep: string): string
    decreases |parts|
  {
    if |parts| == 0 then ""
    else if |parts| == 1 then parts[0]
    else parts[0] + sep + Join(parts[1..], sep)
  }

  /** The empty separator splits a string into its characters, in order, one piece each. */
  lemma SplitEmptySep(s: string)
    ensures |Split(s, "")| == |s|
    ensures forall i :: 0 <= i < |s| ==> Split(s, "")[i] == [s[i]]
  {
  }

  lemma {:induction false} JoinExplode(s: string)
    ensures Join(Explode(s), "") == s
    decreases |s|
  {
    if |s| > 1 {
      assert Explode(s)[1..] == Explode(s[1..]);
      JoinExplode(s[1..]);
    }
  }

  /** Splitting and joining again with the same separator gives back the input. */
  lemma SplitJoin(s: string, sep: string)
    ensures Join(Split(s, sep), sep) == s
  {
    if sep == "" {
      JoinExplode(s);
    } else {
      SplitJoinNonEmptySep(s, sep);
    }
  }

  lemma {:induction false} SplitJoinNonEmptySep(s: string, sep: string)
    requires sep != ""
    ensures Join(Split(s, sep), sep) == s
    decreases |s|
  {
    IndexFromSpec(s, sep, 0);
    var i := Index(s, sep);
    if i < 0 {
      assert Split(s, sep) == [s];
    } else {
      var rest := s[i + |sep|..];
      SplitJoinNonEmptySep(rest, sep);
      Decompose(s, sep, i);
      assert Split(s, sep) == [s[..i]] + Split(rest, sep);
      JoinCons(s[..i], Split(rest, sep), sep);
    }
  }

  /** An occurrence of `sep` at `i` cuts `s` into the part before, `sep`, and the part after. */
  lemma Decompose(s: string, sep: string, i: int)
    requires OccursAt(s, sep, i)
    ensures s == s[..i] + sep + s[i + |sep|..]
  {
    calc {
      s;
      s[..i] + s[i..];
      { assert s[i..] == s[i..i + |sep|] + s[i + |sep|..]; }
      s[..i] + (s[i..i + |sep|] + s[i + |sep|..]);
    }
  }

  lemma JoinCons(head: string, tail: seq<string>, sep: string)
    requires |tail| >= 1
    ensures Join([head] + tail, sep) == head + sep + Join(tail, sep)
  {
    assert ([head] + tail)[1..] == tail;
  }

  /** A non-empty separator yields at least one piece, and no piece contains the separator. */
  lemma {:induction false} SplitNonEmptySep(s: string, sep: string)
    requires sep != ""
    ensures |Split(s, sep)| >= 1
    ensures forall k, j :: 0 <= k < |Split(s, sep)| ==> !OccursAt(Split(s, sep)[k], sep, j)
    decreases |s|
  {
    IndexFromSpec(s, sep, 0);
    var i := Index(s, sep);
    if i >= 0 {
      var rest := s[i + |sep|..];
      SplitNonEmptySep(rest, sep);
      var parts := Split(s, sep);
      forall k, j | 0 <= k < |parts|
        ensures !OccursAt(parts[k], sep, j)
      {
        if k == 0 {
          OccursInPrefix(s, sep, i, j);
        } else {
          assert parts[k] == Split(rest, sep)[k - 1];
        }
      }
    }
  }

  /** An occurrence inside a prefix is an occurrence in the whole string. */
  lemma OccursInPrefix(s: string, sep: string, i: nat, j: int)
    requires |sep| > 0 && i <= |s|
    ensures OccursAt(s[..i], sep, j) ==> OccursAt(s, sep, j) && j < i
  {
    if OccursAt(s[..i], sep, j) {
      assert s[..i][j..j + |sep|] == s[j..j + |sep|];
    }
  }

  /** The empty string splits into one empty piece. */
  lemma SplitEmpty(sep: string)
    requires sep != ""
    ensures Split("", sep) == [""]
  {
  }

  /** A leading separator makes the first piece empty. */
  lemma SplitLeadingSep(s: string, sep: string)
    requires sep != "" && OccursAt(s, sep, 0)
    ensures Split(s, sep)[0] == ""
  {
  }

  /** With a one-character separator, a trailing separator makes the last piece empty. */
  lemma {:induction false} SplitTrailingSep(s: string, c: char)
    requires |s| > 0 && s[|s| - 1] == c
    ensures |Split(s, [c])| >= 1 && Split(s, [c])[|Split(s, [c])| - 1] == ""
    decreases |s|
  {
    var i := IndexBeforeLast(s, c);
    SplitCut(s, [c], i);
    var rest := s[i + 1..];
    if |rest| == 0 {
      SplitEmpty([c]);
    } else {
      assert rest[|rest| - 1] == c;
      SplitTrailingSep(rest, c);
    }
    LastOfCons(s[..i], Split(rest, [c]));
  }

  /** A one-character separator that ends the string is found, at the latest at the end. */
  lemma IndexBeforeLast(s: string, c: char) returns (i: nat)
    requires |s| > 0 && s[|s| - 1] == c
    ensures i < |s| && Index(s, [c]) == i
  {
    assert OccursAt(s, [c], |s| - 1) by { assert s[|s| - 1..|s|] == [c]; }
    IndexFromSpec(s, [c], 0);
    i := Index(s, [c]);
  }

  lemma LastOfCons(head: string, tail: seq<string>)
    requires |tail| >= 1
    ensures ([head] + tail)[|tail|] == tail[|tail| - 1]
  {
  }

  /** With a one-character separator, two adjacent separators produce an empty piece. */
  lemma {:induction false} SplitDoubledSep(s: string, c: char, p: nat)
    requires p + 1 < |s| && s[p] == c && s[p + 1] == c
    ensures "" in Split(s, [c])
    decreases |s|
  {
    IndexFromSpec(s, [c], 0);
    var i := Index(s, [c]);
    assert OccursAt(s, [c], p);
    var rest := s[i + 1..];
    if i == p {
      assert OccursAt(rest, [c], 0);
      SplitLeadingSep(rest, [c]);
      assert Split(s, [c])[1] == Split(rest, [c])[0];
    } else {
      SplitDoubledSep(rest, c, p - i - 1);
      assert Split(s, [c]) == [s[..i]] + Split(rest, [c]);
    }
  }

  /** A string without the one-character separator is a single piece. */
  lemma SplitWithoutSep(s: string, c: char)
    requires c !in s
    ensures Split(s, [c]) == [s]
  {
    forall j | 0 <= j < |s|
      ensures !OccursAt(s, [c], j)
    {
      assert s[j..j + 1] == [s[j]];
    }
    IndexFromSpec(s, [c], 0);
  }

  /** A string shorter than the separator is a single piece. */
  lemma SplitShort(s: string, sep: string)
    requires sep != "" && |s| < |sep|
    ensures Split(s, sep) == [s]
  {
  }

  /** The leftmost occurrence of the separator, at `i`, cuts off the first piece. */
  lemma SplitAt(s: string, sep: string, i: nat)
    requires sep != "" && OccursAt(s, sep, i)
    requires forall j :: 0 <= j < i ==> !OccursAt(s, sep, j)
    ensures Split(s, sep) == [s[..i]] + Split(s[i + |sep|..], sep)
  {
    IndexFromFinds(s, sep, 0, i);
    SplitCut(s, sep, i);
  }

  /** The search from `k` finds `i` when `i` is the first occurrence at or after `k`. */
  lemma {:induction false} IndexFromFinds(s: string, sep: string, k: nat, i: nat)
    requires sep != "" && k <= i && OccursAt(s, sep, i)
    requires forall j :: k <= j < i ==> !OccursAt(s, sep, j)
    ensures IndexFrom(s, sep, k) == i
    decreases i - k
  {
    if k < i {
      assert !OccursAt(s, sep, k);
      IndexFromFinds(s, sep, k + 1, i);
    }
  }

  /** When the separator occurs, the first piece is everything before its leftmost occurrence. */
  lemma SplitCut(s: string, sep: string, i: nat)
    requires sep != "" && Index(s, sep) == i
    ensures Split(s, sep) == [s[..i]] + Split(s[i + |sep|..], sep)
  {
  }

  /**
   For separators longer than one character neither a trailing nor a doubled
   separator guarantees an empty piece: occurrences are consumed left to right
   and may overlap the ones that follow.
   */
  lemma MultiCharSeparatorOverlap()
    ensures Split("baaa", "aa") == ["b", "a"]
  {
    var s := "baaa";
    assert !OccursAt(s, "aa", 0) by { assert s[0..2][0] == 'b'; }
    assert OccursAt(s, "aa", 1) by { assert s[1..3] == "aa"; }
    SplitAt(s, "aa", 1);
    assert s[..1] == "b" && s[3..] == "a";
    SplitShort("a", "aa");
  }

  /**
   A doubled multi-character separator need not produce an empty piece either:
   "abaaba" occurs at index 3 of "xababaabay", yet the cut at index 1 consumes
   part of its first half.
   */
  lemma MultiCharDoubledSeparator()
    ensures OccursAt("xababaabay", "abaaba", 3)
    ensures Split("xababaabay", "aba") == ["x", "ba", "y"]
  {
    var s := "xababaabay";
    assert s[3..9] == "abaaba";
    assert s[..1] == "x" && s[4..] == "baabay";
    FirstCut();
    SecondCut();
  }

  lemma FirstCut()
    ensures Split("xababaabay", "aba") == ["x"] + Split("baabay", "aba")
  {
    var s := "xababaabay";
    assert !OccursAt(s, "aba", 0) by { assert s[0..3][0] == 'x'; }
    assert OccursAt(s, "aba", 1) by { assert s[1..4] == "aba"; }
    SplitAt(s, "aba", 1);
    assert s[..1] == "x" && s[4..] == "baabay";
  }

  lemma SecondCut()
    ensures Split("baabay", "aba") == ["ba", "y"]
  {
    var t := "baabay";
    assert !OccursAt(t, "aba", 0) by { assert t[0..3][0] == 'b'; }
    assert !OccursAt(t, "aba", 1) by { assert t[1..4][1] == 'a'; }
    assert OccursAt(t, "aba", 2) by { assert t[2..5] == "aba"; }
    SplitAt(t, "aba", 2);
    assert t[..2] == "ba" && t[5..] == "y";
    SplitShort("y", "aba");
  }
}
