/** The `extract(raw, start, end)` helper of the save handler, which cuts
    the text between two delimiter markers out of the generated article
    blob, and the dict of sections that one marker list and one key list
    make of a blob. */
module Extraction {
  import opened Text
  import Dict

  /** Where `extract(raw, start, end)` cuts: `NoSection` when `str.index`
      raises `ValueError` for either marker, otherwise the piece after the
      first `start` up to the first `end` that begins at or after it. */
  datatype Span = NoSection | Section(lo: nat, hi: nat)

  function Locate(raw: string, start: string, end: string): (r: Span)
    ensures r.Section? ==> r.lo <= r.hi <= |raw|
  {
    match FirstIndexFrom(raw, start, 0)
    case NotFound => NoSection
    case FoundAt(p) =>
      var s := p + |start|;
      match FirstIndexFrom(raw, end, s)
      case NotFound => NoSection
      case FoundAt(e) => Section(s, e)
  }

  /** `extract(raw, start, end)`: the located piece stripped of surrounding
      whitespace; the empty string when either marker is missing (the
      `ValueError` is caught). */
  function Extract(raw: string, start: string, end: string): (r: string)
    ensures |r| <= |raw|
  {
    match Locate(raw, start, end)
    case NoSection => ""
    case Section(lo, hi) => StripRange(raw, lo, hi)
  }

  /** The search for `start` fails: the section is empty. */
  lemma ExtractNoStart(raw: string, start: string, end: string)
    requires FirstIndexFrom(raw, start, 0).NotFound?
    ensures Extract(raw, start, end) == ""
  {
    assert Locate(raw, start, end) == NoSection;
  }

  /** `start` is found at `p` and the search for `end` after it fails: the
      section is empty. */
  lemma ExtractNoEnd(raw: string, start: string, end: string, p: nat)
    requires FirstIndexFrom(raw, start, 0) == FoundAt(p)
    requires FirstIndexFrom(raw, end, p + |start|).NotFound?
    ensures Extract(raw, start, end) == ""
  {
    assert Locate(raw, start, end) == NoSection;
  }

  /** Both searches succeed: the section is the stripped text between the
      end of `start` and the beginning of `end`. */
  lemma ExtractFound(raw: string, start: string, end: string, p: nat, q: nat)
    requires FirstIndexFrom(raw, start, 0) == FoundAt(p)
    requires FirstIndexFrom(raw, end, p + |start|) == FoundAt(q)
    ensures p + |start| <= q <= |raw|
    ensures Extract(raw, start, end) == StripRange(raw, p + |start|, q)
  {
    assert Locate(raw, start, end) == Section(p + |start|, q);
  }

  /** No `start` anywhere in the blob: the section is empty. */
  lemma ExtractWithoutStart(raw: string, start: string, end: string)
    requires AbsentFrom(raw, start, 0)
    ensures Extract(raw, start, end) == ""
  {
    FirstIndexFromAbsent(raw, start, 0);
    ExtractNoStart(raw, start, end);
  }

  /** `start` found first at `p`, but no `end` begins at or after the
      character just past it: the section is empty. */
  lemma ExtractWithoutEnd(raw: string, start: string, end: string, p: nat)
    requires IsFirstFrom(raw, start, 0, p)
    requires AbsentFrom(raw, end, p + |start|)
    ensures Extract(raw, start, end) == ""
  {
    FirstIndexFromIs(raw, start, 0, p);
    FirstIndexFromAbsent(raw, end, p + |start|);
    ExtractNoEnd(raw, start, end, p);
  }

  /** No `end` anywhere in the blob: the section is empty, whether or not
      `start` is there. */
  lemma ExtractWithoutAnyEnd(raw: string, start: string, end: string)
    requires AbsentFrom(raw, end, 0)
    ensures Extract(raw, start, end) == ""
  {
    match FirstIndexFrom(raw, start, 0)
    case NotFound =>
      ExtractNoStart(raw, start, end);
    case FoundAt(p) =>
      FirstIndexFromAbsent(raw, end, p + |start|);
      ExtractNoEnd(raw, start, end, p);
  }

  /** `start` found first at `p` and `end` found first at `q` at or after
      `p + |start|`: the section is the stripped text strictly between. */
  lemma ExtractBetween(raw: string, start: string, end: string, p: nat, q: nat)
    requires IsFirstFrom(raw, start, 0, p)
    requires IsFirstFrom(raw, end, p + |start|, q)
    ensures Extract(raw, start, end) == Strip(raw[p + |start|..q])
  {
    FirstIndexFromIs(raw, start, 0, p);
    FirstIndexFromIs(raw, end, p + |start|, q);
    ExtractFound(raw, start, end, p, q);
    StripRangeIsStrip(raw, p + |start|, q);
  }

  /** Whatever the input, the section is a contiguous piece of the blob
      (possibly empty) with no whitespace at either end. */
  lemma ExtractIsTrimmedSlice(raw: string, start: string, end: string)
    ensures Trimmed(Extract(raw, start, end))
    ensures exists i, j :: 0 <= i <= j <= |raw| && Extract(raw, start, end) == raw[i..j]
  {
    var i, j := ExtractSlice(raw, start, end);
  }

  /** Bounds of the section within the blob. */
  lemma ExtractSlice(raw: string, start: string, end: string) returns (i: nat, j: nat)
    ensures i <= j <= |raw| && Extract(raw, start, end) == raw[i..j]
    ensures Trimmed(Extract(raw, start, end))
  {
    match Locate(raw, start, end)
    case NoSection =>
      i, j := 0, 0;
    case Section(lo, hi) =>
      i, j := StripRangeBounds(raw, lo, hi);
  }

  /** Each marker occurring once, in order: the section is the stripped
      text strictly between the two. */
  lemma ExtractOnly(raw: string, start: string, end: string, p: nat, q: nat)
    requires OccursOnlyAt(raw, start, p) && OccursOnlyAt(raw, end, q)
    requires p + |start| <= q
    ensures Extract(raw, start, end) == Strip(raw[p + |start|..q])
  {
    FirstOfOnly(raw, start, 0, p);
    FirstOfOnly(raw, end, p + |start|, q);
    ExtractBetween(raw, start, end, p, q);
  }

  /** Both searches succeed within the first `n` characters: any blob with
      the same first `n` characters has the same section. */
  lemma ExtractKeptByPrefix(raw: string, raw2: string, start: string, end: string, p: nat, q: nat, n: nat)
    requires n <= |raw| && n <= |raw2| && raw[..n] == raw2[..n]
    requires FirstIndexFrom(raw, start, 0) == FoundAt(p)
    requires FirstIndexFrom(raw, end, p + |start|) == FoundAt(q) && q + |end| <= n
    ensures Extract(raw2, start, end) == Extract(raw, start, end)
  {
    ExtractFound(raw, start, end, p, q);
    FirstIndexFromPrefix(raw, raw2, start, 0, p, n);
    FirstIndexFromPrefix(raw, raw2, end, p + |start|, q, n);
    ExtractFound(raw2, start, end, p, q);
    StripRangeIsStrip(raw, p + |start|, q);
    StripRangeIsStrip(raw2, p + |start|, q);
    PrefixSlice(raw, raw2, n, p + |start|, q);
  }

  /** The sections of `raw`, one per pair of adjacent markers: section
      `k` lies between marker `k` and marker `k + 1`. */
  function Pieces(raw: string, marks: seq<string>): (r: seq<string>)
    requires |marks| >= 1
    ensures |r| == |marks| - 1
  {
    seq(|marks| - 1, k requires 0 <= k < |marks| - 1 => Extract(raw, marks[k], marks[k + 1]))
  }

  /** The dict display `{names[0]: extract(raw, marks[0], marks[1]), ...}`. */
  function ExtractAll(raw: string, marks: seq<string>, names: seq<string>): (d: Dict.Dict<string>)
    requires |marks| == |names| + 1
  {
    Dict.FromList(names, Pieces(raw, marks))
  }

  /** With distinct keys the dict is valid and keeps the keys in the order
      given. */
  lemma ExtractAllShape(raw: string, marks: seq<string>, names: seq<string>)
    requires |marks| == |names| + 1 && Dict.Distinct(names)
    ensures Dict.Valid(ExtractAll(raw, marks, names))
    ensures ExtractAll(raw, marks, names).order == names
  {
    Dict.FromListShape(names, Pieces(raw, marks));
  }

  /** With distinct keys, key `k` holds the section between marker `k` and
      marker `k + 1`, independently of all the others. */
  lemma ExtractAllAt(raw: string, marks: seq<string>, names: seq<string>, k: nat)
    requires |marks| == |names| + 1 && Dict.Distinct(names) && k < |names|
    ensures names[k] in ExtractAll(raw, marks, names).entries
    ensures ExtractAll(raw, marks, names).entries[names[k]] == Pieces(raw, marks)[k]
  {
    Dict.FromListAt(names, Pieces(raw, marks), k);
  }

  /** Piece `k` is `extract` on marker `k` and marker `k + 1`. */
  lemma PiecesAt(raw: string, marks: seq<string>, k: nat)
    requires k + 1 < |marks|
    ensures Pieces(raw, marks)[k] == Extract(raw, marks[k], marks[k + 1])
  {
  }

  /** The blob holds each marker exactly once, at `pos[k]`, in order and
      without overlaps. */
  ghost predicate WellFormed(raw: string, marks: seq<string>, pos: seq<nat>) {
    && |pos| == |marks|
    && (forall k :: 0 <= k < |marks| ==> OccursOnlyAt(raw, marks[k], pos[k]))
    && (forall k :: 0 < k < |marks| ==> pos[k - 1] + |marks[k - 1]| <= pos[k])
  }

  /** In a well-formed blob every marker ends before any later one starts. */
  lemma {:induction false} WellFormedOrdered(raw: string, marks: seq<string>, pos: seq<nat>, i: nat, j: nat)
    requires WellFormed(raw, marks, pos) && i < j < |marks|
    ensures pos[i] + |marks[i]| <= pos[j]
    decreases j - i
  {
    if i + 1 < j {
      WellFormedOrdered(raw, marks, pos, i, j - 1);
      assert pos[j - 1] + |marks[j - 1]| <= pos[j];
    }
  }

  /** The text strictly between marker `k` and marker `k + 1` of a
      well-formed blob. */
  function Between(raw: string, marks: seq<string>, pos: seq<nat>, k: nat): (r: string)
    requires WellFormed(raw, marks, pos) && k + 1 < |marks|
    ensures |r| == pos[k + 1] - pos[k] - |marks[k]|
  {
    assert pos[k] + |marks[k]| <= pos[k + 1];
    assert OccursAt(raw, marks[k + 1], pos[k + 1]);
    raw[pos[k] + |marks[k]|..pos[k + 1]]
  }

  /** In a well-formed blob section `k` is the stripped text between its
      two adjacent markers. */
  lemma WellFormedSection(raw: string, marks: seq<string>, names: seq<string>, pos: seq<nat>, k: nat)
    requires |marks| == |names| + 1 && Dict.Distinct(names) && k < |names|
    requires WellFormed(raw, marks, pos)
    ensures names[k] in ExtractAll(raw, marks, names).entries
    ensures ExtractAll(raw, marks, names).entries[names[k]] == Strip(Between(raw, marks, pos, k))
  {
    assert pos[k] + |marks[k]| <= pos[k + 1];
    ExtractOnly(raw, marks[k], marks[k + 1], pos[k], pos[k + 1]);
    PiecesAt(raw, marks, k);
    ExtractAllAt(raw, marks, names, k);
  }

  /** Cutting marker `m` out of a well-formed blob: hold any blob `raw2`
      that agrees with `raw` up to marker `m` and has no marker `m` at all.
      The two sections that border on marker `m` are empty in it, and every
      section that ends before marker `m` starts is as it was. */
  lemma MarkerRemoved(raw: string, raw2: string, marks: seq<string>, names: seq<string>, pos: seq<nat>, m: nat)
    requires |marks| == |names| + 1 && Dict.Distinct(names) && 0 < m < |names|
    requires WellFormed(raw, marks, pos)
    requires pos[m] <= |raw2| && raw[..pos[m]] == raw2[..pos[m]]
    requires AbsentFrom(raw2, marks[m], 0)
    ensures names[m - 1] in ExtractAll(raw2, marks, names).entries
    ensures ExtractAll(raw2, marks, names).entries[names[m - 1]] == ""
    ensures names[m] in ExtractAll(raw2, marks, names).entries
    ensures ExtractAll(raw2, marks, names).entries[names[m]] == ""
    ensures forall k :: 0 <= k < m - 1 ==>
              && names[k] in ExtractAll(raw, marks, names).entries
              && names[k] in ExtractAll(raw2, marks, names).entries
              && ExtractAll(raw2, marks, names).entries[names[k]] == ExtractAll(raw, marks, names).entries[names[k]]
  {
    BorderingEmpty(raw2, marks, names, m);
    forall k | 0 <= k < m - 1
      ensures && names[k] in ExtractAll(raw, marks, names).entries
              && names[k] in ExtractAll(raw2, marks, names).entries
              && ExtractAll(raw2, marks, names).entries[names[k]] == ExtractAll(raw, marks, names).entries[names[k]]
    {
      SectionKept(raw, raw2, marks, names, pos, m, k);
    }
  }

  /** Without marker `m` the two sections that border on it are empty. */
  lemma BorderingEmpty(raw2: string, marks: seq<string>, names: seq<string>, m: nat)
    requires |marks| == |names| + 1 && Dict.Distinct(names) && 0 < m < |names|
    requires AbsentFrom(raw2, marks[m], 0)
    ensures names[m - 1] in ExtractAll(raw2, marks, names).entries
    ensures ExtractAll(raw2, marks, names).entries[names[m - 1]] == ""
    ensures names[m] in ExtractAll(raw2, marks, names).entries
    ensures ExtractAll(raw2, marks, names).entries[names[m]] == ""
  {
    ExtractWithoutAnyEnd(raw2, marks[m - 1], marks[m]);
    PiecesAt(raw2, marks, m - 1);
    ExtractAllAt(raw2, marks, names, m - 1);
    ExtractWithoutStart(raw2, marks[m], marks[m + 1]);
    PiecesAt(raw2, marks, m);
    ExtractAllAt(raw2, marks, names, m);
  }

  /** One section that ends before marker `m` starts, in a blob that agrees
      with `raw` up to marker `m`. */
  lemma SectionKept(raw: string, raw2: string, marks: seq<string>, names: seq<string>, pos: seq<nat>, m: nat, k: nat)
    requires |marks| == |names| + 1 && Dict.Distinct(names) && k + 1 < m < |names|
    requires WellFormed(raw, marks, pos)
    requires pos[m] <= |raw2| && raw[..pos[m]] == raw2[..pos[m]]
    ensures names[k] in ExtractAll(raw, marks, names).entries
    ensures names[k] in ExtractAll(raw2, marks, names).entries
    ensures ExtractAll(raw2, marks, names).entries[names[k]] == ExtractAll(raw, marks, names).entries[names[k]]
  {
    assert OccursOnlyAt(raw, marks[k], pos[k]) && OccursOnlyAt(raw, marks[k + 1], pos[k + 1]);
    assert pos[k] + |marks[k]| <= pos[k + 1];
    FirstOfOnly(raw, marks[k], 0, pos[k]);
    FirstOfOnly(raw, marks[k + 1], pos[k] + |marks[k]|, pos[k + 1]);
    FirstIndexFromIs(raw, marks[k], 0, pos[k]);
    FirstIndexFromIs(raw, marks[k + 1], pos[k] + |marks[k]|, pos[k + 1]);
    WellFormedOrdered(raw, marks, pos, k + 1, m);
    assert OccursAt(raw, marks[m], pos[m]);
    ExtractKeptByPrefix(raw, raw2, marks[k], marks[k + 1], pos[k], pos[k + 1], pos[m]);
    PiecesAt(raw, marks, k);
    PiecesAt(raw2, marks, k);
    ExtractAllAt(raw, marks, names, k);
    ExtractAllAt(raw2, marks, names, k);
  }
}
