/** The string primitives the save handler relies on: substring search
    (`str.index`), whitespace trimming (`str.strip`), single-character
    replacement (`str.replace`) and prefix slicing (`s[:n]`). */
module Text {
  /** The outcome of a substring search: the index of the match, or no
      match (where Python raises `ValueError`). */
  datatype Found = NotFound | FoundAt(at: nat)

  /** `pat` occurs in `s` beginning at index `i`. */
  predicate OccursAt(s: string, pat: string, i: nat) {
    i + |pat| <= |s| && MatchesFrom(s, pat, i, 0)
  }

  /** The characters `k..` of `pat` agree with those of `s` from `i + k`
      on: the character-by-character comparison of a candidate match. */
  predicate MatchesFrom(s: string, pat: string, i: nat, k: nat)
    requires i + |pat| <= |s| && k <= |pat|
    decreases |pat| - k
  {
    k == |pat| || (s[i + k] == pat[k] && MatchesFrom(s, pat, i, k + 1))
  }

  /** The comparison succeeds exactly when the rest of `pat` is the piece of
      `s` in the same place. */
  lemma {:induction false} MatchesFromSlice(s: string, pat: string, i: nat, k: nat)
    requires i + |pat| <= |s| && k <= |pat|
    ensures MatchesFrom(s, pat, i, k) <==> s[i + k..i + |pat|] == pat[k..]
    decreases |pat| - k
  {
    if k < |pat| {
      MatchesFromSlice(s, pat, i, k + 1);
      assert s[i + k..i + |pat|] == [s[i + k]] + s[i + k + 1..i + |pat|];
      assert pat[k..] == [pat[k]] + pat[k + 1..];
    }
  }

  /** `OccursAt` is Python's `s[i:i + len(pat)] == pat`. */
  lemma OccursAtSlice(s: string, pat: string, i: nat)
    ensures OccursAt(s, pat, i) <==> i + |pat| <= |s| && s[i..i + |pat|] == pat
  {
    if i + |pat| <= |s| {
      MatchesFromSlice(s, pat, i, 0);
      assert pat[0..] == pat;
    }
  }

  /** Strings agreeing on their first `n` characters agree on whether `pat`
      occurs at an `i` with `i + |pat| <= n`. */
  lemma {:induction false} MatchesFromPrefix(s: string, t: string, n: nat, pat: string, i: nat, k: nat)
    requires n <= |s| && n <= |t| && s[..n] == t[..n]
    requires i + |pat| <= n && k <= |pat|
    ensures MatchesFrom(s, pat, i, k) == MatchesFrom(t, pat, i, k)
    decreases |pat| - k
  {
    if k < |pat| {
      assert s[i + k] == s[..n][i + k] && t[i + k] == t[..n][i + k];
      MatchesFromPrefix(s, t, n, pat, i, k + 1);
    }
  }

  /** `i` is the first index at or after `from` at which `pat` begins. */
  predicate IsFirstFrom(s: string, pat: string, from: nat, i: nat) {
    from <= i && OccursAt(s, pat, i) && forall j :: from <= j < i ==> !OccursAt(s, pat, j)
  }

  /** `pat` has no occurrence beginning at or after `from`. */
  ghost predicate AbsentFrom(s: string, pat: string, from: nat) {
    forall j :: from <= j ==> !OccursAt(s, pat, j)
  }

  /** Python's `s.index(pat, from)`, with `NotFound` standing for the
      `ValueError` it raises when there is no match. */
  function FirstIndexFrom(s: string, pat: string, from: nat): (r: Found)
    ensures r.FoundAt? ==> from <= r.at && r.at + |pat| <= |s|
    decreases |s| - from
  {
    if from + |pat| > |s| then NotFound
    else if OccursAt(s, pat, from) then FoundAt(from)
    else FirstIndexFrom(s, pat, from + 1)
  }

  /** A found index is the first occurrence at or after `from`; no index
      found means there is no occurrence at or after `from`. */
  lemma {:induction false} FirstIndexFromSpec(s: string, pat: string, from: nat)
    ensures FirstIndexFrom(s, pat, from).FoundAt? ==> IsFirstFrom(s, pat, from, FirstIndexFrom(s, pat, from).at)
    ensures FirstIndexFrom(s, pat, from).NotFound? ==> AbsentFrom(s, pat, from)
    decreases |s| - from
  {
    if from + |pat| <= |s| && !OccursAt(s, pat, from) {
      FirstIndexFromSpec(s, pat, from + 1);
    }
  }

  /** The first match is unique: any index meeting `IsFirstFrom` is the one
      `FirstIndexFrom` returns. */
  lemma {:induction false} FirstIndexFromIs(s: string, pat: string, from: nat, i: nat)
    requires IsFirstFrom(s, pat, from, i)
    ensures FirstIndexFrom(s, pat, from) == FoundAt(i)
    decreases i - from
  {
    if from < i {
      FirstIndexFromIs(s, pat, from + 1, i);
    }
  }

  /** With no occurrence at or after `from`, the search finds nothing. */
  lemma {:induction false} FirstIndexFromAbsent(s: string, pat: string, from: nat)
    requires AbsentFrom(s, pat, from)
    ensures FirstIndexFrom(s, pat, from) == NotFound
    decreases |s| - from
  {
    if from + |pat| <= |s| {
      assert !OccursAt(s, pat, from);
      FirstIndexFromAbsent(s, pat, from + 1);
    }
  }

  /** `pat` occurs in `s` at `i` and nowhere else. */
  ghost predicate OccursOnlyAt(s: string, pat: string, i: nat) {
    OccursAt(s, pat, i) && forall j :: OccursAt(s, pat, j) ==> j == i
  }

  /** A single occurrence is the first one from any point before it. */
  lemma FirstOfOnly(s: string, pat: string, from: nat, i: nat)
    requires OccursOnlyAt(s, pat, i) && from <= i
    ensures IsFirstFrom(s, pat, from, i)
  {
  }

  /** Two strings that agree on their first `n` characters agree on every
      piece of them. */
  lemma PrefixSlice(s: string, t: string, n: nat, i: nat, j: nat)
    requires n <= |s| && n <= |t| && s[..n] == t[..n]
    requires i <= j <= n
    ensures s[i..j] == t[i..j]
  {
    assert forall k :: i <= k < j ==> s[k] == s[..n][k] && t[k] == t[..n][k];
  }

  /** A piece of a piece of `s` is a piece of `s`. */
  lemma SliceOfSlice(s: string, lo: nat, hi: nat, i: nat, j: nat)
    requires lo <= i <= j <= hi <= |s|
    ensures s[lo..hi][i - lo..j - lo] == s[i..j]
  {
    assert forall m :: i <= m < j ==> s[lo..hi][i - lo..j - lo][m - i] == s[m];
  }

  /** A search whose match lies within the first `n` characters finds the
      same match in any string with the same first `n` characters. */
  lemma {:induction false} FirstIndexFromPrefix(s: string, t: string, pat: string, from: nat, i: nat, n: nat)
    requires n <= |s| && n <= |t| && s[..n] == t[..n]
    requires FirstIndexFrom(s, pat, from) == FoundAt(i) && i + |pat| <= n
    ensures FirstIndexFrom(t, pat, from) == FoundAt(i)
    decreases |s| - from
  {
    MatchesFromPrefix(s, t, n, pat, from, 0);
    if from < i {
      FirstIndexFromPrefix(s, t, pat, from + 1, i, n);
    }
  }

  /** The characters for which Python's `str.isspace` holds, which are the
      characters `str.strip()` removes without an argument. */
  predicate IsSpace(c: char) {
    || c == ' '
    || ('\t' <= c <= '\r')
    || ('\U{1C}' <= c <= '\U{1F}')
    || c == '\U{85}'
    || c == '\U{A0}'
    || c == '\U{1680}'
    || ('\U{2000}' <= c <= '\U{200A}')
    || c == '\U{2028}'
    || c == '\U{2029}'
    || c == '\U{202F}'
    || c == '\U{205F}'
    || c == '\U{3000}'
  }

  /** The character of `s` at `k` is whitespace. */
  predicate SpaceAt(s: string, k: nat)
    requires k < |s|
  {
    IsSpace(s[k])
  }

  /** Every character of `s[lo..hi]` is whitespace. */
  predicate SpaceBetween(s: string, lo: nat, hi: nat)
    requires lo <= hi <= |s|
  {
    forall k :: lo <= k < hi ==> SpaceAt(s, k)
  }

  /** Neither end of `s` is whitespace. */
  predicate Trimmed(s: string) {
    |s| == 0 || (!SpaceAt(s, 0) && !SpaceAt(s, |s| - 1))
  }

  /** A piece `s[i..j]` is trimmed when it is empty or neither its first
      nor its last character is whitespace. */
  lemma TrimmedSlice(s: string, i: nat, j: nat)
    requires i <= j <= |s|
    ensures Trimmed(s[i..j]) <==> i == j || (!SpaceAt(s, i) && !SpaceAt(s, j - 1))
  {
    if i < j {
      assert s[i..j][0] == s[i] && s[i..j][j - i - 1] == s[j - 1];
    }
  }

  /** The first index of `s[i..hi]` that does not hold whitespace, or `hi`:
      the left scan of `str.strip()`. */
  function SkipStart(s: string, i: nat, hi: nat): (r: nat)
    requires i <= hi <= |s|
    ensures i <= r <= hi
    ensures r == hi || !SpaceAt(s, r)
    decreases hi - i
  {
    if i < hi && SpaceAt(s, i) then SkipStart(s, i + 1, hi) else i
  }

  /** The left scan passes over whitespace only. */
  lemma {:induction false} SkipStartSpace(s: string, i: nat, hi: nat)
    requires i <= hi <= |s|
    ensures SpaceBetween(s, i, SkipStart(s, i, hi))
    decreases hi - i
  {
    if i < hi && SpaceAt(s, i) {
      SkipStartSpace(s, i + 1, hi);
    }
  }

  /** The index just past the last non-whitespace character of `s[lo..j]`,
      or `lo`: the right scan of `str.strip()`, which stops at the left
      scan's result. */
  function SkipEnd(s: string, lo: nat, j: nat): (r: nat)
    requires lo <= j <= |s|
    ensures lo <= r <= j
    ensures r == lo || !SpaceAt(s, r - 1)
    decreases j
  {
    if lo < j && SpaceAt(s, j - 1) then SkipEnd(s, lo, j - 1) else j
  }

  /** The right scan passes over whitespace only. */
  lemma {:induction false} SkipEndSpace(s: string, lo: nat, j: nat)
    requires lo <= j <= |s|
    ensures SpaceBetween(s, SkipEnd(s, lo, j), j)
    decreases j
  {
    if lo < j && SpaceAt(s, j - 1) {
      SkipEndSpace(s, lo, j - 1);
    }
  }

  /** `s[lo:hi].strip()`, computed by the two scans over `s` itself. */
  function StripRange(s: string, lo: nat, hi: nat): (r: string)
    requires lo <= hi <= |s|
    ensures |r| <= hi - lo
  {
    var i := SkipStart(s, lo, hi);
    s[i..SkipEnd(s, i, hi)]
  }

  /** Python's `s.strip()`: `s` without its leading and trailing whitespace. */
  function Strip(s: string): (r: string)
    ensures |r| <= |s|
  {
    StripRange(s, 0, |s|)
  }

  /** `StripRange(s, lo, hi)` is the piece `s[i..j]` left when the
      whitespace `s[lo..i]` and `s[j..hi]` is cut off, and it is trimmed. */
  lemma StripRangeBounds(s: string, lo: nat, hi: nat) returns (i: nat, j: nat)
    requires lo <= hi <= |s|
    ensures lo <= i <= j <= hi && StripRange(s, lo, hi) == s[i..j]
    ensures SpaceBetween(s, lo, i) && SpaceBetween(s, j, hi)
    ensures Trimmed(StripRange(s, lo, hi))
  {
    i := SkipStart(s, lo, hi);
    j := SkipEnd(s, i, hi);
    SkipStartSpace(s, lo, hi);
    SkipEndSpace(s, i, hi);
    TrimmedSlice(s, i, j);
  }

  /** The result of `Strip` has no whitespace at either end. */
  lemma StripTrimmed(s: string)
    ensures Trimmed(Strip(s))
  {
    var i, j := StripRangeBounds(s, 0, |s|);
  }

  /** The result of `Strip` is a slice of its input with only whitespace
      cut off on either side. */
  lemma StripIsSlice(s: string)
    ensures exists i, j :: 0 <= i <= j <= |s| && Strip(s) == s[i..j]
                           && SpaceBetween(s, 0, i) && SpaceBetween(s, j, |s|)
  {
    var i, j := StripRangeBounds(s, 0, |s|);
  }

  /** The left scan from `from` stops at `i` when `s[from..i]` is whitespace
      and `s[i]` is not (or `i` is `hi`). */
  lemma {:induction false} SkipStartAt(s: string, from: nat, i: nat, hi: nat)
    requires from <= i <= hi <= |s| && SpaceBetween(s, from, i)
    requires i == hi || !SpaceAt(s, i)
    ensures SkipStart(s, from, hi) == i
    decreases i - from
  {
    if from < i {
      SkipStartAt(s, from + 1, i, hi);
    }
  }

  /** The right scan down from `j` stops at `r` when `s[r..j]` is whitespace
      and `s[r - 1]` is not (or `r` is `lo`). */
  lemma {:induction false} SkipEndAt(s: string, lo: nat, r: nat, j: nat)
    requires lo <= r <= j <= |s| && SpaceBetween(s, r, j)
    requires r == lo || !SpaceAt(s, r - 1)
    ensures SkipEnd(s, lo, j) == r
    decreases j
  {
    if r < j {
      SkipEndAt(s, lo, r, j - 1);
    }
  }

  /** Stripping is the only such trimming: whenever `s[lo..hi]` is
      whitespace, then a trimmed piece `s[i..j]`, then whitespace, the
      stripped range is that piece. */
  lemma StripRangeUnique(s: string, lo: nat, hi: nat, i: nat, j: nat)
    requires lo <= i <= j <= hi <= |s|
    requires SpaceBetween(s, lo, i) && SpaceBetween(s, j, hi) && Trimmed(s[i..j])
    ensures StripRange(s, lo, hi) == s[i..j]
  {
    TrimmedSlice(s, i, j);
    if i == j {
      assert SpaceBetween(s, lo, hi) by {
        forall k | lo <= k < hi ensures SpaceAt(s, k) {
          if k >= j { assert SpaceBetween(s, j, hi); }
        }
      }
      SkipStartAt(s, lo, hi, hi);
    } else {
      SkipStartAt(s, lo, i, hi);
      SkipEndAt(s, i, j, hi);
    }
  }

  /** The left scan over a slice is the left scan over the whole string,
      shifted by the slice's start. */
  lemma {:induction false} SkipStartShift(s: string, lo: nat, hi: nat, k: nat)
    requires lo <= k <= hi <= |s|
    ensures SkipStart(s[lo..hi], k - lo, hi - lo) == SkipStart(s, k, hi) - lo
    decreases hi - k
  {
    if k < hi {
      assert s[lo..hi][k - lo] == s[k];
      if SpaceAt(s, k) {
        SkipStartShift(s, lo, hi, k + 1);
      }
    }
  }

  /** The right scan over a slice is the right scan over the whole string,
      shifted by the slice's start. */
  lemma {:induction false} SkipEndShift(s: string, lo: nat, hi: nat, a: nat, b: nat)
    requires lo <= a <= b <= hi <= |s|
    ensures SkipEnd(s[lo..hi], a - lo, b - lo) == SkipEnd(s, a, b) - lo
    decreases b
  {
    if a < b {
      assert s[lo..hi][b - 1 - lo] == s[b - 1];
      if SpaceAt(s, b - 1) {
        SkipEndShift(s, lo, hi, a, b - 1);
      }
    }
  }

  /** The two scans over `s[lo..hi]` in place give Python's
      `s[lo:hi].strip()`. */
  lemma StripRangeIsStrip(s: string, lo: nat, hi: nat)
    requires lo <= hi <= |s|
    ensures StripRange(s, lo, hi) == Strip(s[lo..hi])
  {
    assert |s[lo..hi]| == hi - lo;
    var i := SkipStart(s, lo, hi);
    SkipStartShift(s, lo, hi, lo);
    var j := SkipEnd(s, i, hi);
    SkipEndShift(s, lo, hi, i, hi);
    SliceOfSlice(s, lo, hi, i, j);
  }

  /** Stripping is idempotent. */
  lemma StripIdempotent(s: string)
    ensures Strip(Strip(s)) == Strip(s)
  {
    var r := Strip(s);
    StripTrimmed(s);
    assert r[0..|r|] == r;
    StripRangeUnique(r, 0, |r|, 0, |r|);
  }

  /** Python's `s.replace(a, b)` for one-character `a` and `b`: every `a`
      becomes `b` and every other character stays. */
  function ReplaceChar(s: string, a: char, b: char): (r: string)
    ensures |r| == |s|
    ensures forall k :: 0 <= k < |s| ==> r[k] == (if s[k] == a then b else s[k])
  {
    if s == [] then []
    else [if s[0] == a then b else s[0]] + ReplaceChar(s[1..], a, b)
  }

  /** Python's slice `s[:n]`. */
  function Take(s: string, n: nat): (r: string)
    ensures |r| == if |s| < n then |s| else n
    ensures r == s[..|r|]
  {
    if |s| <= n then s else s[..n]
  }

  /** Python's `"".join(parts)`, which is also what an f-string makes of
      its literal pieces and substituted values. */
  function Concat(parts: seq<string>): (r: string)
  {
    if parts == [] then "" else parts[0] + Concat(parts[1..])
  }

  /** Joining splits at any piece boundary. */
  lemma {:induction false} ConcatSplit(parts: seq<string>, i: nat)
    requires i <= |parts|
    ensures Concat(parts) == Concat(parts[..i]) + Concat(parts[i..])
    decreases i
  {
    if i == 0 {
      assert parts[..0] == [] && parts[0..] == parts;
    } else {
      ConcatSplit(parts[1..], i - 1);
      assert parts[1..][..i - 1] == parts[..i][1..];
      assert parts[1..][i - 1..] == parts[i..];
    }
  }

  /** Piece `i` stands in the joined string right after the pieces before
      it. */
  lemma ConcatHolds(parts: seq<string>, i: nat)
    requires i < |parts|
    ensures |Concat(parts[..i])| + |parts[i]| <= |Concat(parts)|
    ensures Concat(parts)[|Concat(parts[..i])|..|Concat(parts[..i])| + |parts[i]|] == parts[i]
  {
    ConcatSplit(parts, i);
    var a := Concat(parts[..i]);
    var b := Concat(parts[i..]);
    assert b == parts[i] + Concat(parts[i + 1..]) by {
      assert parts[i..][1..] == parts[i + 1..];
    }
    assert (a + b)[|a|..|a| + |parts[i]|] == b[..|parts[i]|];
  }
}
