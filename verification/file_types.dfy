/**
 The extension filter: `ParseFileTypes` turns the delimiter-separated
 `-FileType` flag into a set of lower-cased keys, and an extension is a
 target when its lower-cased form is a key.
 */
module FileTypes {
  import opened Strings

  /**
   The loop of `ParseFileTypes` over the split pieces, inserting each
   lower-cased piece with value `true`, left to right.
   */
  function InsertAll(pieces: seq<string>): (targets: map<string, bool>)
    ensures forall k :: k in targets ==> targets[k]
    ensures forall i :: 0 <= i < |pieces| ==> Lower(pieces[i]) in targets
    ensures forall k :: k in targets ==> exists i :: 0 <= i < |pieces| && k == Lower(pieces[i])
    decreases |pieces|
  {
    if |pieces| == 0 then map[]
    else InsertAll(pieces[..|pieces| - 1])[Lower(pieces[|pieces| - 1]) := true]
  }

  /**
   `ParseFileTypes(fileTypes, sep)`: its keys are exactly the lower-cased
   pieces of `strings.Split(fileTypes, sep)`, every value being `true`.
   */
  function ParseFileTypes(fileTypes: string, sep: string): (targets: map<string, bool>)
    ensures forall k :: k in targets ==> targets[k]
    ensures forall i :: 0 <= i < |Split(fileTypes, sep)| ==> Lower(Split(fileTypes, sep)[i]) in targets
    ensures forall k :: k in targets ==>
              exists i :: 0 <= i < |Split(fileTypes, sep)| && k == Lower(Split(fileTypes, sep)[i])
  {
    InsertAll(Split(fileTypes, sep))
  }

  /** The lookup `ParsedFileTypes[strings.ToLower(ext)]`; only presence matters, not the value. */
  predicate IsTargetFileType(targets: map<string, bool>, ext: string) {
    Lower(ext) in targets
  }

  /** An extension is a target exactly when it equals one of the configured pieces up to ASCII case. */
  lemma TargetIffSomePieceEqualFold(fileTypes: string, sep: string, ext: string)
    ensures IsTargetFileType(ParseFileTypes(fileTypes, sep), ext) <==>
            exists i :: 0 <= i < |Split(fileTypes, sep)| && EqualFold(Split(fileTypes, sep)[i], ext)
  {
    assert ParseFileTypes(fileTypes, sep) == InsertAll(Split(fileTypes, sep));
    InsertedIffEqualFold(Split(fileTypes, sep), ext);
  }

  lemma InsertedIffEqualFold(pieces: seq<string>, ext: string)
    ensures Lower(ext) in InsertAll(pieces) <==> exists i :: 0 <= i < |pieces| && EqualFold(pieces[i], ext)
  {
    if Lower(ext) in InsertAll(pieces) {
      var i :| 0 <= i < |pieces| && Lower(ext) == Lower(pieces[i]);
      LowerEqualIffEqualFold(pieces[i], ext);
    }
    if i :| 0 <= i < |pieces| && EqualFold(pieces[i], ext) {
      LowerEqualIffEqualFold(pieces[i], ext);
    }
  }

  /** Matching ignores ASCII case: extensions equal up to case are both targets or both not. */
  lemma MatchIgnoresCase(targets: map<string, bool>, a: string, b: string)
    requires EqualFold(a, b)
    ensures IsTargetFileType(targets, a) <==> IsTargetFileType(targets, b)
  {
    LowerEqualIffEqualFold(a, b);
  }

  /**
   With a non-empty separator, an empty flag value puts the empty key in the
   set, so that an extensionless file becomes a target.
   */
  lemma EmptyFlagHasEmptyKey(sep: string)
    requires sep != ""
    ensures "" in ParseFileTypes("", sep)
  {
    SplitEmpty(sep);
    assert Lower("") == "";
  }

  /** A leading separator puts the empty key in the set. */
  lemma LeadingSepHasEmptyKey(fileTypes: string, sep: string)
    requires sep != "" && OccursAt(fileTypes, sep, 0)
    ensures "" in ParseFileTypes(fileTypes, sep)
  {
    SplitLeadingSep(fileTypes, sep);
    assert Lower(Split(fileTypes, sep)[0]) == "";
  }

  /** With a one-character separator such as ",", a trailing separator puts the empty key in the set. */
  lemma TrailingSepHasEmptyKey(fileTypes: string, c: char)
    requires |fileTypes| > 0 && fileTypes[|fileTypes| - 1] == c
    ensures "" in ParseFileTypes(fileTypes, [c])
  {
    SplitTrailingSep(fileTypes, c);
    var pieces := Split(fileTypes, [c]);
    assert Lower(pieces[|pieces| - 1]) == "";
  }

  /** With a one-character separator, two adjacent separators put the empty key in the set. */
  lemma DoubledSepHasEmptyKey(fileTypes: string, c: char, p: nat)
    requires p + 1 < |fileTypes| && fileTypes[p] == c && fileTypes[p + 1] == c
    ensures "" in ParseFileTypes(fileTypes, [c])
  {
    SplitDoubledSep(fileTypes, c, p);
    var pieces := Split(fileTypes, [c]);
    var i :| 0 <= i < |pieces| && pieces[i] == "";
    assert Lower(pieces[i]) == "";
  }

  /** Go's `strings.Split("", "")` has no piece at all, so the set is empty and nothing is a target. */
  lemma EmptyFlagEmptySepHasNoKey(ext: string)
    ensures ParseFileTypes("", "") == map[]
    ensures !IsTargetFileType(ParseFileTypes("", ""), ext)
  {
  }

  /** The default flag value ".py" with separator "," accepts ".py" in any case, e.g. ".PY". */
  lemma DefaultFlagMatchesUpperCase()
    ensures ParseFileTypes(".py", ",") == map[".py" := true]
    ensures IsTargetFileType(ParseFileTypes(".py", ","), ".PY")
    ensures !IsTargetFileType(ParseFileTypes(".py", ","), "")
  {
    SplitWithoutSep(".py", ',');
    assert Split(".py", ",") == [".py"];
    assert Lower(".py") == ".py";
    assert Lower(".PY") == ".py";
  }
}
