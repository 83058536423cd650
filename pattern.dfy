/**
 * The semantics of the output-name pattern `(.*)_compressed_\d+\.mp4`, searched
 * (not anchored) for in a file name with leftmost-first semantics: the match
 * starts as early as possible, and the greedy `.*`, which does not cross a
 * newline, then takes as much as it can. `\d` is an ASCII digit here.
 */
module CompressPattern {
  import opened Wrappers
  import opened Numerals

  const Marker: string := "_compressed_"
  const Suffix: string := ".mp4"

  /** `_compressed_` starts at `j`. */
  predicate MarkerAt(s: string, j: nat) {
    j + 12 <= |s| && s[j..j + 12] == Marker
  }

  /** `.mp4` starts at `b`. */
  predicate SuffixAt(s: string, b: nat) {
    b + 4 <= |s| && s[b..b + 4] == Suffix
  }

  /** After the marker at `j`, `s[j + 12..b]` is one or more digits and `.mp4` follows at `b`: the `\d+\.mp4` part. */
  predicate DigitsThenSuffix(s: string, j: nat, b: nat) {
    j + 12 < b && SuffixAt(s, b) && forall k :: j + 12 <= k < b ==> IsDigit(s[k])
  }

  /** At position `j` the text matches `_compressed_\d+\.mp4`; anything may follow. */
  predicate TailAt(s: string, j: nat) {
    MarkerAt(s, j) && exists b: nat | j + 12 < b <= |s| - 4 :: DigitsThenSuffix(s, j, b)
  }

  /** The whole pattern matches with the group spanning `s[i..j]`: no newline in the group, the tail at `j`. */
  ghost predicate MatchSpan(s: string, i: nat, j: nat) {
    i <= j <= |s| && (forall k :: i <= k < j ==> s[k] != '\n') && TailAt(s, j)
  }

  /** The match the regex engine reports: the leftmost start, and from there the longest group. */
  ghost predicate LeftmostLongest(s: string, i: nat, j: nat) {
    && MatchSpan(s, i, j)
    && (forall a: nat, b: nat :: MatchSpan(s, a, b) ==> i <= a)
    && (forall b: nat :: MatchSpan(s, i, b) ==> b <= j)
  }

  /** The largest `j` in `[lo, hi]` at which the tail matches. */
  function LastTailIn(s: string, lo: nat, hi: nat): (r: Option<nat>)
    requires lo <= hi <= |s|
    ensures r.Some? ==> lo <= r.value <= hi && TailAt(s, r.value)
    ensures r.Some? ==> forall j :: r.value < j <= hi ==> !TailAt(s, j)
    ensures r.None? ==> forall j :: lo <= j <= hi ==> !TailAt(s, j)
    decreases hi - lo
  {
    if TailAt(s, hi) then Some(hi)
    else if hi == lo then None
    else LastTailIn(s, lo, hi - 1)
  }

  /** The index of the first newline at or after `i`, or the length of `s`. */
  function LineEnd(s: string, i: nat): (e: nat)
    requires i <= |s|
    ensures i <= e <= |s|
    ensures forall k :: i <= k < e ==> s[k] != '\n'
    ensures e == |s| || s[e] == '\n'
    decreases |s| - i
  {
    if i == |s| || s[i] == '\n' then i else LineEnd(s, i + 1)
  }

  /** The search from line start `i` on: the first line with a tail, and its last tail. */
  function SearchFrom(s: string, i: nat): (r: Option<(nat, nat)>)
    requires i <= |s|
    ensures r.Some? ==> i <= r.value.0 && MatchSpan(s, r.value.0, r.value.1)
    ensures r.Some? ==> forall a: nat, b: nat :: i <= a && MatchSpan(s, a, b) ==> r.value.0 <= a
    ensures r.Some? ==> forall b: nat :: MatchSpan(s, r.value.0, b) ==> b <= r.value.1
    ensures r.None? ==> forall a: nat, b: nat :: i <= a ==> !MatchSpan(s, a, b)
    decreases |s| - i
  {
    var e := LineEnd(s, i);
    LineBoundsMatches(s, i, e);
    match LastTailIn(s, i, e)
    case Some(j) => Some((i, j))
    case None => if e == |s| then None else SearchFrom(s, e + 1)
  }

  /** A match whose group starts within the line `[i, e]` ends its group within that line. */
  lemma LineBoundsMatches(s: string, i: nat, e: nat)
    requires i <= e <= |s|
    requires e == |s| || s[e] == '\n'
    ensures forall a: nat, b: nat :: i <= a <= e && MatchSpan(s, a, b) ==> b <= e
  {
  }

  /** The span of the match `COMPRESS_RE.captures` finds in `s`, if any. */
  function Search(s: string): (r: Option<(nat, nat)>)
    ensures r.None? <==> forall a: nat, b: nat :: !MatchSpan(s, a, b)
    ensures r.Some? ==> LeftmostLongest(s, r.value.0, r.value.1)
  {
    SearchFrom(s, 0)
  }

  /** Capture group 1 of the pattern in `s`, if the pattern occurs in `s` at all. */
  function Capture(s: string): (r: Option<string>)
    ensures r.None? <==> forall a: nat, b: nat :: !MatchSpan(s, a, b)
    ensures r.Some? ==> exists a: nat, b: nat :: LeftmostLongest(s, a, b) && r.value == s[a..b]
  {
    match Search(s)
    case None => None
    case Some((a, b)) => Some(s[a..b])
  }

  /** The engine's match is unique: two leftmost-longest spans coincide. */
  lemma LeftmostLongestUnique(s: string, a: nat, b: nat, a': nat, b': nat)
    requires LeftmostLongest(s, a, b) && LeftmostLongest(s, a', b')
    ensures a == a' && b == b'
  {
  }

  predicate NoNewline(s: string) {
    '\n' !in s
  }

  /**
   * On a name without newlines the group is the longest prefix `p` of the name
   * that is followed by `_compressed_`, one or more digits and `.mp4`.
   */
  lemma CaptureWithoutNewline(s: string, p: string)
    requires NoNewline(s)
    ensures Capture(s) == Some(p) <==>
              p <= s && TailAt(s, |p|) && forall j: nat :: |p| < j <= |s| ==> !TailAt(s, j)
  {
    if Capture(s) == Some(p) {
      var a: nat, b: nat :| LeftmostLongest(s, a, b) && p == s[a..b];
      assert MatchSpan(s, 0, b);
      forall j: nat | |p| < j <= |s|
        ensures !TailAt(s, j)
      {
        assert !MatchSpan(s, 0, j);
        assert forall k :: 0 <= k < j ==> s[k] != '\n';
      }
    }
    if p <= s && TailAt(s, |p|) && forall j: nat :: |p| < j <= |s| ==> !TailAt(s, j) {
      assert MatchSpan(s, 0, |p|);
      var a: nat, b: nat :| LeftmostLongest(s, a, b) && Capture(s).value == s[a..b];
      assert a == 0;
      assert b == |p|;
      assert p == s[..|p|];
    }
  }

  /** In `P + "_compressed_" + D + "." + E` with a dot-free `E`, no tail starts after `P`. */
  lemma {:induction false} NoTailAfterPrefix(p: string, d: string, e: string, j: nat)
    requires |d| >= 1 && AllDigits(d) && '.' !in e
    requires |p| < j <= |p + Marker + d + "." + e|
    ensures !TailAt(p + Marker + d + "." + e, j)
  {
    var s := p + Marker + d + "." + e;
    var dot := |p| + 12 + |d|;
    assert forall k :: |p| <= k < |p| + 12 ==> s[k] == Marker[k - |p|];
    assert forall k :: |p| + 12 <= k < dot ==> s[k] == d[k - |p| - 12];
    assert forall k :: dot < k < |s| ==> s[k] == e[k - dot - 1];
    assert forall k :: dot < k < |s| ==> s[k] != '.' by {
      forall k | dot < k < |s|
        ensures s[k] != '.'
      {
        assert s[k] == e[k - dot - 1];
      }
    }
    if j < |p| + 11 {
      assert forall m :: 1 <= m <= 10 ==> Marker[m] != '_';
      assert s[j] == Marker[j - |p|] != '_';
      assert j + 12 > |s| || s[j..j + 12][0] != Marker[0];
    } else if j == |p| + 11 {
      assert IsDigit(s[j + 1]);
      assert j + 12 > |s| || s[j..j + 12][1] != Marker[1];
    } else if j <= dot {
      assert j < |s| && s[j] != '_';
      assert j + 12 > |s| || s[j..j + 12][0] != Marker[0];
    } else {
      forall b: nat | j + 12 < b <= |s| - 4
        ensures !DigitsThenSuffix(s, j, b)
      {
        assert s[b..b + 4][0] == s[b] != '.';
      }
    }
  }

  /**
   * A name built as `P + "_compressed_" + D + "." + E`, with `D` decimal digits,
   * `E` dot-free and beginning with `mp4`, and no newline in `P`, has group `P`.
   */
  lemma {:induction false} CaptureOfBuiltName(p: string, d: string, e: string)
    requires NoNewline(p) && |d| >= 1 && AllDigits(d)
    requires '.' !in e && |e| >= 3 && e[..3] == "mp4"
    ensures Capture(p + Marker + d + "." + e) == Some(p)
  {
    var s := p + Marker + d + "." + e;
    var dot := |p| + 12 + |d|;
    assert s[..|p|] == p;
    assert s[|p|..|p| + 12] == Marker;
    assert forall k :: |p| + 12 <= k < dot ==> s[k] == d[k - |p| - 12];
    assert s[dot..dot + 4] == "." + e[..3];
    assert DigitsThenSuffix(s, |p|, dot);
    assert TailAt(s, |p|);
    assert MatchSpan(s, 0, |p|);
    assert Capture(s).Some?;
    var a: nat, b: nat :| LeftmostLongest(s, a, b) && Capture(s).value == s[a..b];
    assert a == 0;
    if b > |p| {
      NoTailAfterPrefix(p, d, e, b);
    }
  }
}
