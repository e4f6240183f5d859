/**
 The string operations of Rust's `str` that identifier normalisation is built
 from: `starts_with`, `trim_start_matches`, `split` followed by `join`, and
 `replace` as an independent reference for split-then-join. Strings are
 sequences of characters; a pattern is always a string, never a character
 class or a closure.
 */
module RustStr {

  /** `s.starts_with(p)`: `p` is a prefix of `s`. */
  predicate StartsWith(s: string, p: string)
    ensures StartsWith(s, p) <==> |p| <= |s| && s[..|p|] == p
  {
    p <= s
  }

  /** `p` occurs somewhere inside `s` (as a contiguous substring). */
  predicate HasInfix(s: string, p: string)
    decreases |s|
  {
    p <= s || (|s| > 0 && HasInfix(s[1..], p))
  }

  /** `t` consists of zero or more back-to-back copies of `p`. */
  predicate Repeats(t: string, p: string)
    decreases |t|
  {
    t == [] || (|p| > 0 && p <= t && Repeats(t[|p|..], p))
  }

  /**
   `s.trim_start_matches(p)`: removes every leading copy of `p`, not just the
   first. An empty pattern removes nothing.
   */
  function TrimStartMatches(s: string, p: string): (r: string)
    ensures |r| <= |s| && r == s[|s| - |r|..]
    ensures Repeats(s[..|s| - |r|], p)
    ensures |p| > 0 ==> !StartsWith(r, p)
    decreases |s|
  {
    if |p| > 0 && StartsWith(s, p) then
      var r := TrimStartMatches(s[|p|..], p);
      RepeatsPrepend(s, p, |s| - |p| - |r|);
      r
    else
      s
  }

  /** A run of copies of `p` after a leading `p` is again a run of copies. */
  lemma RepeatsPrepend(s: string, p: string, k: nat)
    requires |p| > 0 && StartsWith(s, p) && k <= |s| - |p|
    requires Repeats(s[|p|..][..k], p)
    ensures Repeats(s[..|p| + k], p)
  {
    var t := s[..|p| + k];
    assert t[|p|..] == s[|p|..][..k];
    assert StartsWith(t, p);
  }

  /**
   `s.split(sep).collect::<Vec<_>>()` for a non-empty separator: the matches
   of `sep` are found left to right without overlapping, and the pieces
   between them are returned in order. Empty pieces are kept, so the empty
   string gives `[""]` and `"a::"` gives `["a", ""]`.
   */
  function Split(s: string, sep: string): (r: seq<string>)
    requires |sep| > 0
    ensures |r| > 0 && r[0] <= s
    decreases |s|
  {
    if StartsWith(s, sep) then
      [""] + Split(s[|sep|..], sep)
    else if s == [] then
      [""]
    else
      var t := Split(s[1..], sep);
      [[s[0]] + t[0]] + t[1..]
  }

  /** `parts.join(sep)`: the parts with `sep` between neighbours. */
  function Join(parts: seq<string>, sep: string): (r: string)
    ensures |parts| == 0 ==> r == ""
    ensures |parts| > 0 ==> parts[0] <= r
    decreases |parts|
  {
    if |parts| == 0 then ""
    else if |parts| == 1 then parts[0]
    else parts[0] + sep + Join(parts[1..], sep)
  }

  /**
   `s.replace(from, to)`: every left-to-right, non-overlapping match of a
   non-empty `from` replaced by `to`. It serves as the reference definition
   that `Join(Split(s, from), to)` is proved equal to.
   */
  function Replace(s: string, from: string, to: string): string
    requires |from| > 0
    decreases |s|
  {
    if StartsWith(s, from) then to + Replace(s[|from|..], from, to)
    else if s == [] then []
    else [s[0]] + Replace(s[1..], from, to)
  }

  /** The number of left-to-right, non-overlapping matches of `sep` in `s`. */
  function MatchCount(s: string, sep: string): nat
    requires |sep| > 0
    decreases |s|
  {
    if StartsWith(s, sep) then 1 + MatchCount(s[|sep|..], sep)
    else if s == [] then 0
    else MatchCount(s[1..], sep)
  }

  /** Joining a list whose head gained a leading character. */
  lemma JoinConsHead(c: char, t: seq<string>, sep: string)
    requires |t| > 0
    ensures Join([[c] + t[0]] + t[1..], sep) == [c] + Join(t, sep)
  {
    assert ([[c] + t[0]] + t[1..])[1..] == t[1..];
  }

  /** Splitting and joining with another separator is `replace`. */
  lemma {:induction false} JoinSplitIsReplace(s: string, from: string, to: string)
    requires |from| > 0
    ensures Join(Split(s, from), to) == Replace(s, from, to)
    decreases |s|
  {
    if StartsWith(s, from) {
      var t := Split(s[|from|..], from);
      JoinSplitIsReplace(s[|from|..], from, to);
      assert ([""] + t)[1..] == t;
    } else if s == [] {
    } else {
      var t := Split(s[1..], from);
      JoinSplitIsReplace(s[1..], from, to);
      JoinConsHead(s[0], t, to);
    }
  }

  /** Replacing a pattern by itself changes nothing. */
  lemma {:induction false} ReplaceSelf(s: string, p: string)
    requires |p| > 0
    ensures Replace(s, p, p) == s
    decreases |s|
  {
    if StartsWith(s, p) {
      ReplaceSelf(s[|p|..], p);
      assert s == p + s[|p|..];
    } else if s != [] {
      ReplaceSelf(s[1..], p);
      assert s == [s[0]] + s[1..];
    }
  }

  /** Split is lossless: joining the pieces with the separator gives back `s`. */
  lemma {:induction false} JoinSplit(s: string, sep: string)
    requires |sep| > 0
    ensures Join(Split(s, sep), sep) == s
  {
    JoinSplitIsReplace(s, sep, sep);
    ReplaceSelf(s, sep);
  }

  /** No piece produced by Split contains the separator. */
  lemma {:induction false} SplitPiecesFree(s: string, sep: string)
    requires |sep| > 0
    ensures forall i :: 0 <= i < |Split(s, sep)| ==> !HasInfix(Split(s, sep)[i], sep)
    decreases |s|
  {
    var r := Split(s, sep);
    if StartsWith(s, sep) {
      var t := Split(s[|sep|..], sep);
      SplitPiecesFree(s[|sep|..], sep);
      assert r == [""] + t;
      assert !HasInfix("", sep);
      forall i | 0 <= i < |r| ensures !HasInfix(r[i], sep) {
        if i > 0 { assert r[i] == t[i - 1]; }
      }
    } else if s == [] {
      assert !HasInfix("", sep);
    } else {
      var t := Split(s[1..], sep);
      SplitPiecesFree(s[1..], sep);
      assert r == [[s[0]] + t[0]] + t[1..];
      var head := [s[0]] + t[0];
      assert head <= s;
      assert !StartsWith(head, sep);
      assert head[1..] == t[0];
      assert !HasInfix(t[0], sep);
      assert !HasInfix(head, sep);
      forall i | 0 <= i < |r| ensures !HasInfix(r[i], sep) {
        if i > 0 { assert r[i] == t[i]; }
      }
    }
  }

  /** Split yields one more piece than there are separator matches. */
  lemma {:induction false} SplitCount(s: string, sep: string)
    requires |sep| > 0
    ensures |Split(s, sep)| == MatchCount(s, sep) + 1
    decreases |s|
  {
    if StartsWith(s, sep) {
      SplitCount(s[|sep|..], sep);
    } else if s != [] {
      SplitCount(s[1..], sep);
    }
  }

  /** Each match of `from` changes the length by `|to| - |from|`. */
  lemma {:induction false} ReplaceLength(s: string, from: string, to: string)
    requires |from| > 0
    ensures |Replace(s, from, to)| == |s| + MatchCount(s, from) * (|to| - |from|)
    decreases |s|
  {
    if StartsWith(s, from) {
      ReplaceLength(s[|from|..], from, to);
      var m, d := MatchCount(s[|from|..], from), |to| - |from|;
      assert MatchCount(s, from) == m + 1;
      assert |Replace(s, from, to)| == |to| + |s[|from|..]| + m * d;
      MulSucc(m, d);
    } else if s != [] {
      ReplaceLength(s[1..], from, to);
    }
  }

  /** One more factor of `d`. */
  lemma MulSucc(m: int, d: int)
    ensures (m + 1) * d == m * d + d
  {
  }

  /** The first character of a replacement: the replacement text's if a match starts there, the input's otherwise. */
  lemma ReplaceHead(s: string, from: string, to: string)
    requires |from| > 0 && |to| > 0 && |s| > 0
    ensures |Replace(s, from, to)| > 0
    ensures Replace(s, from, to)[0] == if StartsWith(s, from) then to[0] else s[0]
  {
  }
}
