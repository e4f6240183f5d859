/**
 Identifier normalisation of `create_course`: from the id typed on the
 command line it derives the canonical course id written into the manifest
 and the course directory relative to the `courses` root.
 */
module CourseId {
  import opened RustStr

  /** The namespace every transcription course id lives under. */
  const Prefix: string := "trane::transcription::"
  /** Separator between the parts of a course id. */
  const NamespaceSep: string := "::"
  /** Separator between the parts of a relative directory path. */
  const PathSep: string := "/"

  /**
   The canonical id: the raw id when it already carries the namespace
   prefix, the prefix followed by the raw id otherwise. It always carries the
   prefix and always ends with the raw id.
   */
  function CanonicalId(id: string): (r: string)
    ensures StartsWith(r, Prefix)
    ensures |id| <= |r| && r[|r| - |id|..] == id
    ensures r == id <==> StartsWith(id, Prefix)
    ensures !StartsWith(id, Prefix) ==> |r| == |Prefix| + |id|
  {
    if StartsWith(id, Prefix) then id else Prefix + id
  }

  /**
   What is left of the raw id once the namespace is dealt with: a suffix of
   the id that no longer starts with the prefix. A prefixed id loses a run of
   whole copies of the prefix (at least one); an unprefixed id is kept whole.
   */
  function Unprefixed(id: string): (r: string)
    ensures |r| <= |id| && r == id[|id| - |r|..]
    ensures !StartsWith(r, Prefix)
    ensures StartsWith(id, Prefix) ==> |r| <= |id| - |Prefix| && Repeats(id[..|id| - |r|], Prefix)
    ensures !StartsWith(id, Prefix) ==> r == id
  {
    if StartsWith(id, Prefix) then
      assert TrimStartMatches(id, Prefix) == TrimStartMatches(id[|Prefix|..], Prefix);
      TrimStartMatches(id, Prefix)
    else
      id
  }

  /**
   The parts of the id that become directory names: one more than the `::`
   matches in the remainder, none containing `::`, rejoined with `::` they
   give the remainder back, and rejoined with `/` they give the remainder
   with its left-to-right `::` matches replaced, which fixes where each
   split falls.
   */
  function Segments(id: string): (r: seq<string>)
    ensures |r| == MatchCount(Unprefixed(id), NamespaceSep) + 1
    ensures Join(r, NamespaceSep) == Unprefixed(id)
    ensures Join(r, PathSep) == Replace(Unprefixed(id), NamespaceSep, PathSep)
    ensures forall i :: 0 <= i < |r| ==> !HasInfix(r[i], NamespaceSep)
  {
    var rest := Unprefixed(id);
    JoinSplit(rest, NamespaceSep);
    JoinSplitIsReplace(rest, NamespaceSep, PathSep);
    SplitPiecesFree(rest, NamespaceSep);
    SplitCount(rest, NamespaceSep);
    Split(rest, NamespaceSep)
  }

  /**
   The course directory relative to the `courses` root: the remainder with
   every `::` replaced by `/`, one character shorter per match, and free of
   `::`.
   */
  function RelativePath(id: string): (r: string)
    ensures r == Replace(Unprefixed(id), NamespaceSep, PathSep)
    ensures |r| == |Unprefixed(id)| - MatchCount(Unprefixed(id), NamespaceSep)
    ensures !HasInfix(r, NamespaceSep)
  {
    var rest := Unprefixed(id);
    JoinSplitIsReplace(rest, NamespaceSep, PathSep);
    ReplaceLeavesNoSep(rest);
    ReplaceLength(rest, NamespaceSep, PathSep);
    Join(Segments(id), PathSep)
  }

  /** Replacing `::` by `/` leaves no `::` behind. */
  lemma {:induction false} ReplaceLeavesNoSep(s: string)
    ensures !HasInfix(Replace(s, NamespaceSep, PathSep), NamespaceSep)
    decreases |s|
  {
    var r := Replace(s, NamespaceSep, PathSep);
    if StartsWith(s, NamespaceSep) {
      var rest := Replace(s[2..], NamespaceSep, PathSep);
      ReplaceLeavesNoSep(s[2..]);
      assert r == PathSep + rest;
      assert r[0] == '/' && r[1..] == rest;
      assert !StartsWith(r, NamespaceSep);
    } else if s == [] {
      assert !HasInfix("", NamespaceSep);
    } else {
      var rest := Replace(s[1..], NamespaceSep, PathSep);
      ReplaceLeavesNoSep(s[1..]);
      assert r == [s[0]] + rest;
      assert r[1..] == rest;
      if |rest| > 0 {
        ReplaceHead(s[1..], NamespaceSep, PathSep);
        assert rest[0] == PathSep[0] || rest[0] == s[1];
      }
      assert !StartsWith(r, NamespaceSep);
    }
  }

  /**
   An id without the prefix: its path is the id with each `::` replaced by
   `/`, it has one segment more than `::` matches, the path is one character
   shorter per match, and it contains no `::`.
   */
  lemma UnprefixedPath(id: string)
    requires !StartsWith(id, Prefix)
    ensures RelativePath(id) == Replace(id, NamespaceSep, PathSep)
    ensures |Segments(id)| == MatchCount(id, NamespaceSep) + 1
    ensures |RelativePath(id)| == |id| - MatchCount(id, NamespaceSep)
    ensures !HasInfix(RelativePath(id), NamespaceSep)
  {
  }

  /**
   An id with the prefix: every leading copy of the prefix (at least one) is
   stripped, the rest no longer starts with it, and the path is the rest with
   each `::` replaced by `/`.
   */
  lemma PrefixedPath(id: string)
    requires StartsWith(id, Prefix)
    ensures var rest := Unprefixed(id);
      && |rest| <= |id| - |Prefix|
      && id == id[..|id| - |rest|] + rest
      && Repeats(id[..|id| - |rest|], Prefix)
      && !StartsWith(rest, Prefix)
      && RelativePath(id) == Replace(rest, NamespaceSep, PathSep)
  {
    var rest := Unprefixed(id);
    assert id == id[..|id| - |rest|] + rest;
  }

  /** A doubled prefix is stripped twice: the path of the id is just `x`. */
  lemma DoublePrefixStripped()
    ensures RelativePath("trane::transcription::trane::transcription::x") == "x"
  {
    var id := "trane::transcription::trane::transcription::x";
    assert id[|Prefix|..][|Prefix|..] == "x";
    assert Unprefixed(id) == "x";
  }

  /** The branch on the prefix does not matter for the path: trimming an unprefixed id is a no-op. */
  lemma PathIgnoresBranch(id: string)
    ensures RelativePath(id) == Join(Split(TrimStartMatches(id, Prefix), NamespaceSep), PathSep)
  {
  }

  /**
   Normalisation is idempotent: the canonical id is its own canonical id and
   leads to the same directory as the raw id it came from.
   */
  lemma NormaliseIdempotent(id: string)
    ensures CanonicalId(CanonicalId(id)) == CanonicalId(id)
    ensures RelativePath(CanonicalId(id)) == RelativePath(id)
  {
    if !StartsWith(id, Prefix) {
      var c := Prefix + id;
      assert c[|Prefix|..] == id;
      assert Unprefixed(c) == TrimStartMatches(id, Prefix);
    }
  }
}
