/**
 `filepath.Ext` for slash-separated paths, and the destination path of a
 copy, kept as the (directory, base name) pair that `filepath.Join` receives.
 */
module Paths {

  /** Every '.' in `path[..end]` is followed, still before `end`, by a '/': the last element has no dot. */
  predicate NoDotInLastElement(path: string, end: nat)
    requires end <= |path|
  {
    forall j :: 0 <= j < end && path[j] == '.' ==> '/' in path[j + 1..end]
  }

  /**
   The scan of `filepath.Ext`, going backwards from index `i` until a '/' or
   the start of the path, and returning the suffix from the first '.' met.
   */
  function ExtScan(path: string, i: int): string
    requires -1 <= i < |path|
    decreases i + 1
  {
    if i < 0 || path[i] == '/' then ""
    else if path[i] == '.' then path[i..]
    else ExtScan(path, i - 1)
  }

  /** `filepath.Ext(path)`. */
  function Ext(path: string): string {
    ExtScan(path, |path| - 1)
  }

  /** A character other than '.' and '/' neither adds nor removes a dot from the last element. */
  lemma NoDotStep(path: string, i: nat)
    requires i < |path| && path[i] != '.' && path[i] != '/'
    ensures NoDotInLastElement(path, i + 1) <==> NoDotInLastElement(path, i)
  {
    if NoDotInLastElement(path, i) {
      forall j | 0 <= j < i + 1 && path[j] == '.'
        ensures '/' in path[j + 1..i + 1]
      {
        assert path[j + 1..i + 1] == path[j + 1..i] + [path[i]];
      }
    }
    if NoDotInLastElement(path, i + 1) {
      forall j | 0 <= j < i && path[j] == '.'
        ensures '/' in path[j + 1..i]
      {
        assert path[j + 1..i + 1] == path[j + 1..i] + [path[i]];
      }
    }
  }

  /** A '/' at `i` starts a new element, which has no dot yet. */
  lemma NoDotAfterSlash(path: string, i: nat)
    requires i < |path| && path[i] == '/'
    ensures NoDotInLastElement(path, i + 1)
  {
    forall j | 0 <= j < i + 1 && path[j] == '.'
      ensures '/' in path[j + 1..i + 1]
    {
      assert path[j + 1..i + 1][i - j - 1] == '/';
    }
  }

  /** When nothing after `i` is a '.' or a '/', the scan finds the extension of `path[..i + 1]` as a suffix of `path`. */
  lemma {:induction false} ExtScanSpec(path: string, i: int)
    requires -1 <= i < |path|
    requires forall m :: i < m < |path| ==> path[m] != '.' && path[m] != '/'
    ensures var e := ExtScan(path, i);
            && (e == "" || (e[0] == '.' && '/' !in e && '.' !in e[1..]))
            && |e| <= |path| && e == path[|path| - |e|..]
            && (e == "" <==> NoDotInLastElement(path, i + 1))
    decreases i + 1
  {
    if i < 0 {
    } else if path[i] == '/' {
      NoDotAfterSlash(path, i);
    } else if path[i] == '.' {
      assert path[i + 1..i + 1] == [];
    } else {
      ExtScanSpec(path, i - 1);
      NoDotStep(path, i);
    }
  }

  /**
   `filepath.Ext(path)` is the suffix beginning at the last '.' of the final
   path element, or "" when that element has no dot.
   */
  lemma ExtSpec(path: string)
    ensures var e := Ext(path);
            && (e == "" || (e[0] == '.' && '/' !in e && '.' !in e[1..]))
            && |e| <= |path| && e == path[|path| - |e|..]
            && (e == "" <==> NoDotInLastElement(path, |path|))
  {
    ExtScanSpec(path, |path| - 1);
  }

  /** A path ending in a dot followed by neither '.' nor '/' has that ending as its extension. */
  lemma ExtOfSuffix(path: string, ext: string)
    requires |ext| > 0 && ext[0] == '.' && '.' !in ext[1..] && '/' !in ext
    requires |ext| <= |path| && path[|path| - |ext|..] == ext
    ensures Ext(path) == ext
  {
    ExtSpec(path);
    var k := |path| - |ext|;
    assert path[k] == '.';
    assert path[k + 1..] == ext[1..];
  }

  /** The arguments of `filepath.Join(dir, base)`; the joined and cleaned string is not computed. */
  datatype JoinedPath = JoinedPath(dir: string, base: string)
}
