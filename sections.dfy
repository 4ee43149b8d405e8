/** The `sections` dict of the save handler: the six sections of the
    generated article blob, each cut out by `extract` on its own pair of
    adjacent markers and searched for from the start of the whole blob. */
module ArticleSections {
  import opened Text
  import opened Extraction
  import Dict

  const KeywordsMarker := "---KEYWORDS---"
  const TitleTagMarker := "---TITLETAG---"
  const MetaDescMarker := "---METADESC---"
  const ArticleTitleMarker := "---ARTICLETITLE---"
  const ArticleCopyMarker := "---ARTICLECOPY---"
  const FaqsMarker := "---FAQS---"
  const EndMarker := "---END---"

  /** The seven markers in the order a blob is expected to hold them;
      section `k` lies between `Markers[k]` and `Markers[k + 1]`. */
  const Markers: seq<string> := [KeywordsMarker, TitleTagMarker, MetaDescMarker,
                                 ArticleTitleMarker, ArticleCopyMarker, FaqsMarker, EndMarker]

  const KeywordsKey := "keywords"
  const TitleTagKey := "title_tag"
  const MetaDescKey := "meta_desc"
  const ArticleTitleKey := "article_title"
  const ArticleCopyKey := "article_copy"
  const FaqsKey := "faqs"

  /** The keys of the section dict, in insertion order. */
  const SectionNames: seq<string> := [KeywordsKey, TitleTagKey, MetaDescKey,
                                      ArticleTitleKey, ArticleCopyKey, FaqsKey]

  const Faqs := 5

  /** No key is written twice in the display. */
  lemma NamesDistinct()
    ensures Dict.Distinct(SectionNames)
  {
    assert SectionNames[1][0] == 't' && SectionNames[2][0] == 'm';
    assert SectionNames[3][8] == 't' && SectionNames[4][8] == 'c';
  }

  /** The display `{"keywords": extract(raw, "---KEYWORDS---",
      "---TITLETAG---"), ..., "faqs": extract(raw, "---FAQS---",
      "---END---")}`. */
  function Sections(raw: string): (d: Dict.Dict<string>)
  {
    ExtractAll(raw, Markers, SectionNames)
  }

  /** Whatever the blob, the dict is valid and holds exactly the six keys,
      in the order of the display. */
  lemma SectionsKeys(raw: string)
    ensures Dict.Valid(Sections(raw))
    ensures Sections(raw).order == SectionNames
    ensures forall x :: x in Sections(raw).entries <==> x in SectionNames
  {
    NamesDistinct();
    ExtractAllShape(raw, Markers, SectionNames);
  }

  /** Section `k` is `extract` on the `k`-th and `k + 1`-th markers of the
      whole blob, independently of every other section. */
  lemma SectionsTable(raw: string, k: nat)
    requires k < |SectionNames|
    ensures SectionNames[k] in Sections(raw).entries
    ensures Sections(raw).entries[SectionNames[k]] == Extract(raw, Markers[k], Markers[k + 1])
  {
    NamesDistinct();
    PiecesAt(raw, Markers, k);
    ExtractAllAt(raw, Markers, SectionNames, k);
  }

  /** Every section is trimmed and is a piece of the blob. */
  lemma SectionsArePieces(raw: string, k: nat)
    requires k < |SectionNames|
    ensures SectionNames[k] in Sections(raw).entries
    ensures Trimmed(Sections(raw).entries[SectionNames[k]])
    ensures exists i, j :: 0 <= i <= j <= |raw| && Sections(raw).entries[SectionNames[k]] == raw[i..j]
  {
    SectionsTable(raw, k);
    ExtractIsTrimmedSlice(raw, Markers[k], Markers[k + 1]);
  }

  /** In a blob holding each of the seven markers exactly once, in order,
      every section is the stripped text strictly between its two
      adjacent markers. */
  lemma WellFormedSections(raw: string, pos: seq<nat>, k: nat)
    requires WellFormed(raw, Markers, pos) && k < |SectionNames|
    ensures SectionNames[k] in Sections(raw).entries
    ensures Sections(raw).entries[SectionNames[k]] == Strip(Between(raw, Markers, pos, k))
  {
    NamesDistinct();
    WellFormedSection(raw, Markers, SectionNames, pos, k);
  }

  /** `raw` with the `---FAQS---` marker at `p` cut out. */
  function CutFaqs(raw: string, p: nat): (r: string)
    requires p + |FaqsMarker| <= |raw|
    ensures |r| == |raw| - |FaqsMarker|
    ensures r[..p] == raw[..p]
  {
    raw[..p] + raw[p + |FaqsMarker|..]
  }

  /** Cutting `---FAQS---` out of a well-formed blob (when the cut does not
      join a new `---FAQS---` together) empties `article_copy`, which ends
      at that marker, and `faqs`, which starts at it, and leaves the four
      sections before them as they were. */
  lemma FaqsRemoved(raw: string, pos: seq<nat>)
    requires WellFormed(raw, Markers, pos)
    requires AbsentFrom(CutFaqs(raw, pos[Faqs]), FaqsMarker, 0)
    ensures FaqsKey in Sections(CutFaqs(raw, pos[Faqs])).entries
    ensures Sections(CutFaqs(raw, pos[Faqs])).entries[FaqsKey] == ""
    ensures ArticleCopyKey in Sections(CutFaqs(raw, pos[Faqs])).entries
    ensures Sections(CutFaqs(raw, pos[Faqs])).entries[ArticleCopyKey] == ""
    ensures forall k :: 0 <= k < 4 ==>
              && SectionNames[k] in Sections(raw).entries
              && SectionNames[k] in Sections(CutFaqs(raw, pos[Faqs])).entries
              && Sections(CutFaqs(raw, pos[Faqs])).entries[SectionNames[k]] == Sections(raw).entries[SectionNames[k]]
  {
    assert OccursAt(raw, Markers[Faqs], pos[Faqs]);
    NamesDistinct();
    MarkerRemoved(raw, CutFaqs(raw, pos[Faqs]), Markers, SectionNames, pos, Faqs);
  }
}
