/** What the save handler writes: the file names derived from the primary
    keyword and the timestamp, the two output paths, the Markdown document
    and the JSON record, and the response that reports them. */
module Export {
  import opened Text
  import Dict
  import opened ArticleSections
  import Extraction

  /** The keyword used when the context has no `primary_keyword`. */
  const DefaultKeyword := "article"

  /** How many characters of the sanitised keyword a file name keeps. */
  const MaxKeywordLength := 30

  /** The length of a `%Y%m%d_%H%M%S` timestamp with a four-digit year. */
  const StampLength := 15

  /** One character of the keyword as it appears in a file name: `' '`
      becomes `'_'`, `'/'` becomes `'-'`, everything else stays. */
  function SafeChar(c: char): (r: char)
    ensures r != ' ' && r != '/'
    ensures c != ' ' && c != '/' ==> r == c
  {
    if c == ' ' then '_' else if c == '/' then '-' else c
  }

  /** `keyword.replace(" ", "_").replace("/", "-")[:30]`. */
  function SafeKeyword(kw: string): (r: string)
    ensures |r| == if |kw| < MaxKeywordLength then |kw| else MaxKeywordLength
    ensures forall k :: 0 <= k < |r| ==> r[k] == SafeChar(kw[k])
    ensures forall k :: 0 <= k < |r| ==> r[k] != ' ' && r[k] != '/'
  {
    var r := Take(ReplaceChar(ReplaceChar(kw, ' ', '_'), '/', '-'), MaxKeywordLength);
    assert forall k :: 0 <= k < |r| ==> r[k] == ReplaceChar(ReplaceChar(kw, ' ', '_'), '/', '-')[k];
    r
  }

  /** Sanitising a sanitised keyword changes nothing. */
  lemma SafeKeywordIdempotent(kw: string)
    ensures SafeKeyword(SafeKeyword(kw)) == SafeKeyword(kw)
  {
    var r := SafeKeyword(kw);
    assert forall k :: 0 <= k < |r| ==> SafeKeyword(r)[k] == r[k];
  }

  /** Two keywords that differ only in a `' '` against a `'_'` give the
      same file name, so the sanitiser is not one-to-one. */
  lemma SafeKeywordMerges()
    ensures SafeKeyword("a b") == SafeKeyword("a_b") == "a_b"
  {
    assert SafeKeyword("a b")[1] == SafeChar(' ');
    assert SafeKeyword("a_b")[1] == SafeChar('_');
  }

  /** `context.get("primary_keyword", "article")`. */
  function Keyword(context: Dict.Dict<string>): (r: string)
    ensures "primary_keyword" in context.entries ==> r == context.entries["primary_keyword"]
    ensures "primary_keyword" !in context.entries ==> r == DefaultKeyword
  {
    Dict.Get(context, "primary_keyword", DefaultKeyword)
  }

  /** `base = f"{safe_kw}_{timestamp}"`. */
  function BaseName(context: Dict.Dict<string>, stamp: string): (r: string)
  {
    SafeKeyword(Keyword(context)) + "_" + stamp
  }

  /** The base name is the sanitised keyword, `'_'` and the timestamp; it
      never starts with `'/'`, and without a keyword it names the article
      `article_<timestamp>`. */
  lemma BaseNameShape(context: Dict.Dict<string>, stamp: string)
    ensures |BaseName(context, stamp)| == |SafeKeyword(Keyword(context))| + 1 + |stamp|
    ensures BaseName(context, stamp)[0] != '/'
  {
    var kw := SafeKeyword(Keyword(context));
    if kw != [] {
      assert BaseName(context, stamp)[0] == kw[0];
    }
  }

  /** A keyword that is short enough and holds neither `' '` nor `'/'` is
      its own file name. */
  lemma SafeKeywordKeeps(kw: string)
    requires |kw| <= MaxKeywordLength
    requires forall k :: 0 <= k < |kw| ==> kw[k] != ' ' && kw[k] != '/'
    ensures SafeKeyword(kw) == kw
  {
    assert forall k :: 0 <= k < |kw| ==> SafeKeyword(kw)[k] == kw[k];
  }

  /** Without a keyword the article is named `article_<timestamp>`. */
  lemma BaseNameDefault(context: Dict.Dict<string>, stamp: string)
    requires "primary_keyword" !in context.entries
    ensures BaseName(context, stamp) == DefaultKeyword + "_" + stamp
  {
    SafeKeywordKeeps(DefaultKeyword);
  }

  /** A timestamp of the fixed width can be read back off the base name,
      and so can the sanitised keyword. */
  lemma BaseNameSplits(context: Dict.Dict<string>, stamp: string)
    requires |stamp| == StampLength
    ensures |BaseName(context, stamp)| > StampLength
    ensures BaseName(context, stamp)[|BaseName(context, stamp)| - StampLength..] == stamp
    ensures BaseName(context, stamp)[..|BaseName(context, stamp)| - StampLength - 1] == SafeKeyword(Keyword(context))
  {
    UnderscoreSplits(SafeKeyword(Keyword(context)), stamp);
  }

  /** The two sides of `f"{a}_{b}"` can be read back by their lengths. */
  lemma UnderscoreSplits(a: string, b: string)
    ensures |a + "_" + b| == |a| + 1 + |b|
    ensures (a + "_" + b)[|a| + 1..] == b
    ensures (a + "_" + b)[..|a|] == a
  {
    assert a + "_" + b == a + ("_" + b);
  }

  /** Two saves with the same keyword in different seconds never share a
      base name; in the same second they always do. */
  lemma BaseNameInjective(context: Dict.Dict<string>, stamp1: string, stamp2: string)
    ensures BaseName(context, stamp1) == BaseName(context, stamp2) <==> stamp1 == stamp2
  {
    var kw := SafeKeyword(Keyword(context)) + "_";
    if BaseName(context, stamp1) == BaseName(context, stamp2) {
      assert BaseName(context, stamp1)[|kw|..] == stamp1;
      assert BaseName(context, stamp2)[|kw|..] == stamp2;
    }
  }

  /** `posixpath.join(dir, name)`: an absolute `name` replaces `dir`; a `'/'`
      is put between the two unless `dir` is empty or already ends in
      one. */
  function Join(dir: string, name: string): (r: string)
  {
    if |name| > 0 && name[0] == '/' then name
    else if dir == [] || dir[|dir| - 1] == '/' then dir + name
    else dir + "/" + name
  }

  /** A relative name lands inside `dir`, and extending the name extends
      the path by the same text. */
  lemma JoinRelative(dir: string, name: string, ext: string)
    requires |name| > 0 && name[0] != '/'
    ensures |dir| <= |Join(dir, name)| && Join(dir, name)[..|dir|] == dir
    ensures Join(dir, name + ext) == Join(dir, name) + ext
    ensures Join(dir, name)[|Join(dir, name)| - |name|..] == name
  {
    assert (name + ext)[0] == name[0];
    if dir == [] || dir[|dir| - 1] == '/' {
      assert Join(dir, name) == dir + name;
    } else {
      assert Join(dir, name) == (dir + "/") + name;
      assert (dir + "/") + name == dir + ("/" + name);
    }
  }

  /** What `posixpath.join` puts before a relative name: the directory,
      followed by `'/'` unless it is empty or already ends in one. */
  function DirPrefix(dir: string): (r: string)
  {
    if dir == [] || dir[|dir| - 1] == '/' then dir else dir + "/"
  }

  /** `os.path.join(output_dir, f"{base}.md")`. */
  function MdPath(dir: string, base: string): (r: string)
  {
    Join(dir, base + ".md")
  }

  /** `os.path.join(output_dir, f"{base}.json")`. */
  function JsonPath(dir: string, base: string): (r: string)
  {
    Join(dir, base + ".json")
  }

  /** Both paths start with the directory part, share the base name and
      differ only in the extension, so they are two files. */
  lemma PathsShareBase(dir: string, base: string)
    requires |base| > 0 && base[0] != '/'
    ensures MdPath(dir, base) == Join(dir, base) + ".md"
    ensures JsonPath(dir, base) == Join(dir, base) + ".json"
    ensures MdPath(dir, base)[..|dir|] == dir
    ensures JsonPath(dir, base)[..|dir|] == dir
    ensures MdPath(dir, base) == DirPrefix(dir) + base + ".md"
    ensures JsonPath(dir, base) == DirPrefix(dir) + base + ".json"
    ensures MdPath(dir, base) != JsonPath(dir, base)
  {
    JoinRelative(dir, base, ".md");
    JoinRelative(dir, base, ".json");
    assert MdPath(dir, base)[..|dir|] == Join(dir, base)[..|dir|];
    assert JsonPath(dir, base)[..|dir|] == Join(dir, base)[..|dir|];
  }

  /** A file name holds neither `' '` nor `'/'`. */
  predicate CleanName(s: string) {
    forall k :: 0 <= k < |s| ==> s[k] != ' ' && s[k] != '/'
  }

  /** With a timestamp free of `' '` and `'/'` (a `%Y%m%d_%H%M%S` reading
      holds only digits and `'_'`), the whole base name is free of them. */
  lemma BaseNameClean(context: Dict.Dict<string>, stamp: string)
    requires CleanName(stamp)
    ensures CleanName(BaseName(context, stamp))
  {
    var kw := SafeKeyword(Keyword(context));
    assert BaseName(context, stamp) == kw + ("_" + stamp);
  }

  /** `path` names a file directly inside `dir`: it is what `posixpath.join`
      puts before a relative name, followed by a name with no `' '` or
      `'/'`. */
  predicate DirectlyInside(path: string, dir: string) {
    && |DirPrefix(dir)| <= |path|
    && path[..|DirPrefix(dir)|] == DirPrefix(dir)
    && CleanName(path[|DirPrefix(dir)|..])
  }

  /** A base name free of `' '` and `'/'` names files directly inside the
      output directory. */
  lemma PathsDirectlyInside(dir: string, base: string)
    requires |base| > 0 && CleanName(base)
    ensures DirectlyInside(MdPath(dir, base), dir)
    ensures DirectlyInside(JsonPath(dir, base), dir)
  {
    PathsShareBase(dir, base);
    var p := DirPrefix(dir);
    assert MdPath(dir, base) == p + (base + ".md");
    assert JsonPath(dir, base) == p + (base + ".json");
    assert MdPath(dir, base)[|p|..] == base + ".md";
    assert JsonPath(dir, base)[|p|..] == base + ".json";
  }

  /** The first key of the JSON record. */
  const GeneratedAtKey := "generated_at"

  /** `{"generated_at": ts}`, the display before the two unpackings. */
  function Stamped(generatedAt: string): (r: Dict.Dict<string>)
    ensures Dict.Valid(r)
    ensures r.order == [GeneratedAtKey]
    ensures r.entries == map[GeneratedAtKey := generatedAt]
  {
    Dict.Put(Dict.Empty(), GeneratedAtKey, generatedAt)
  }

  /** `{"generated_at": ts, **context, **sections}`. */
  function Record(generatedAt: string, context: Dict.Dict<string>, sections: Dict.Dict<string>): (r: Dict.Dict<string>)
    requires Dict.Valid(context) && Dict.Valid(sections)
  {
    Dict.Update(Dict.Update(Stamped(generatedAt), context), sections)
  }

  /** The record is a valid dict whose mapping is the generation time
      overridden by the context, overridden in turn by the sections. */
  lemma RecordEntries(generatedAt: string, context: Dict.Dict<string>, sections: Dict.Dict<string>)
    requires Dict.Valid(context) && Dict.Valid(sections)
    ensures Dict.Valid(Record(generatedAt, context, sections))
    ensures Record(generatedAt, context, sections).entries
            == map[GeneratedAtKey := generatedAt] + context.entries + sections.entries
  {
    Dict.UpdateSpec(Stamped(generatedAt), context);
    Dict.UpdateSpec(Dict.Update(Stamped(generatedAt), context), sections);
  }

  /** The value of one key: the sections win over the context, which wins
      over the generation time; there are no other keys. */
  lemma RecordPriority(generatedAt: string, context: Dict.Dict<string>, sections: Dict.Dict<string>, key: string)
    requires Dict.Valid(context) && Dict.Valid(sections)
    ensures key in Record(generatedAt, context, sections).entries
            <==> key == GeneratedAtKey || key in context.entries || key in sections.entries
    ensures key in sections.entries ==>
              Record(generatedAt, context, sections).entries[key] == sections.entries[key]
    ensures key !in sections.entries && key in context.entries ==>
              Record(generatedAt, context, sections).entries[key] == context.entries[key]
    ensures key !in sections.entries && key !in context.entries && key == GeneratedAtKey ==>
              Record(generatedAt, context, sections).entries[key] == generatedAt
  {
    RecordEntries(generatedAt, context, sections);
    var u := map[GeneratedAtKey := generatedAt] + context.entries;
    assert key in u <==> key == GeneratedAtKey || key in context.entries;
  }

  /** Key order of the JSON file: `generated_at` first, even when the
      context or the sections override its value, then the context's own
      keys, then the section keys the context does not already have. */
  lemma RecordOrder(generatedAt: string, context: Dict.Dict<string>, sections: Dict.Dict<string>)
    requires Dict.Valid(context) && Dict.Valid(sections)
    ensures Record(generatedAt, context, sections).order
            == [GeneratedAtKey] + Dict.NewKeys(context.order, [GeneratedAtKey])
               + Dict.NewKeys(sections.order, [GeneratedAtKey] + Dict.NewKeys(context.order, [GeneratedAtKey]))
    ensures Record(generatedAt, context, sections).order[0] == GeneratedAtKey
  {
    Dict.UpdateSpec(Stamped(generatedAt), context);
    Dict.UpdateSpec(Dict.Update(Stamped(generatedAt), context), sections);
  }

  /** The five sections the Markdown document reads. */
  predicate HasMarkdownKeys(sections: Dict.Dict<string>) {
    && KeywordsKey in sections.entries && TitleTagKey in sections.entries
    && MetaDescKey in sections.entries && ArticleCopyKey in sections.entries
    && FaqsKey in sections.entries
  }

  const MdHead := "# SEO ARTICLE OUTPUT\n\n**Primary Keyword:** "
  const MdGenerated := "\n**Generated:** "
  const MdTitleTag := "\n\n---\n\n## SEO META DATA\n\n**Title Tag:** "
  const MdMetaDesc := "\n\n**Meta Description:** "
  const MdKeywords := "\n\n**Keywords Used:** "
  const MdArticle := "\n\n---\n\n## ARTICLE\n\n"
  const MdFaqs := "\n\n---\n\n## FREQUENTLY ASKED QUESTIONS\n\n"
  const MdNotes := "\n\n---\n\n## KEYWORD RESEARCH NOTES\n\n"
  const MdFooter := "\n\n---\n*Generated by DIAL Agents SEO Article Tool*\n"

  /** The f-string of the Markdown file, as its literal pieces and the
      eight substituted values in order. */
  function MarkdownParts(keyword: string, generated: string, sections: Dict.Dict<string>, notes: string): (r: seq<string>)
    requires HasMarkdownKeys(sections)
    ensures |r| == 17
  {
    [ MdHead, keyword, MdGenerated, generated,
      MdTitleTag, sections.entries[TitleTagKey],
      MdMetaDesc, sections.entries[MetaDescKey],
      MdKeywords, sections.entries[KeywordsKey],
      MdArticle, sections.entries[ArticleCopyKey],
      MdFaqs, sections.entries[FaqsKey],
      MdNotes, notes,
      MdFooter ]
  }

  /** The Markdown document, with `context.get('primary_keyword', '')` and
      `context.get('keywords_output', 'N/A')` filled in. */
  function Markdown(generated: string, context: Dict.Dict<string>, sections: Dict.Dict<string>): (r: string)
    requires HasMarkdownKeys(sections)
  {
    Concat(MarkdownParts(Dict.Get(context, "primary_keyword", ""), generated, sections,
                         Dict.Get(context, "keywords_output", "N/A")))
  }

  /** `s` holds `v` as a contiguous piece. */
  ghost predicate Contains(s: string, v: string) {
    exists i :: OccursAt(s, v, i)
  }

  /** Piece `i` of the document's parts occurs in the document. */
  lemma MarkdownHoldsPart(generated: string, context: Dict.Dict<string>, sections: Dict.Dict<string>, i: nat)
    requires HasMarkdownKeys(sections) && i < 17
    ensures Contains(Markdown(generated, context, sections),
                     MarkdownParts(Dict.Get(context, "primary_keyword", ""), generated, sections,
                                   Dict.Get(context, "keywords_output", "N/A"))[i])
  {
    var parts := MarkdownParts(Dict.Get(context, "primary_keyword", ""), generated, sections,
                               Dict.Get(context, "keywords_output", "N/A"));
    ConcatHolds(parts, i);
    OccursAtSlice(Concat(parts), parts[i], |Concat(parts[..i])|);
  }

  /** The document holds the title tag, the meta description, the
      keywords, the article copy and the FAQs. */
  lemma MarkdownHoldsSections(generated: string, context: Dict.Dict<string>, sections: Dict.Dict<string>)
    requires HasMarkdownKeys(sections)
    ensures Contains(Markdown(generated, context, sections), sections.entries[TitleTagKey])
    ensures Contains(Markdown(generated, context, sections), sections.entries[MetaDescKey])
    ensures Contains(Markdown(generated, context, sections), sections.entries[KeywordsKey])
    ensures Contains(Markdown(generated, context, sections), sections.entries[ArticleCopyKey])
    ensures Contains(Markdown(generated, context, sections), sections.entries[FaqsKey])
  {
    MarkdownHoldsPart(generated, context, sections, 5);
    MarkdownHoldsPart(generated, context, sections, 7);
    MarkdownHoldsPart(generated, context, sections, 9);
    MarkdownHoldsPart(generated, context, sections, 11);
    MarkdownHoldsPart(generated, context, sections, 13);
  }

  /** The document does not depend on `article_title`: two section dicts
      that agree on the five keys it reads give the same document. */
  lemma MarkdownIgnoresTitle(generated: string, context: Dict.Dict<string>, s1: Dict.Dict<string>, s2: Dict.Dict<string>)
    requires HasMarkdownKeys(s1) && HasMarkdownKeys(s2)
    requires s1.entries[KeywordsKey] == s2.entries[KeywordsKey]
    requires s1.entries[TitleTagKey] == s2.entries[TitleTagKey]
    requires s1.entries[MetaDescKey] == s2.entries[MetaDescKey]
    requires s1.entries[ArticleCopyKey] == s2.entries[ArticleCopyKey]
    requires s1.entries[FaqsKey] == s2.entries[FaqsKey]
    ensures Markdown(generated, context, s1) == Markdown(generated, context, s2)
  {
  }

  /** The sections of a blob hold every key the document reads. */
  lemma SectionsFeedMarkdown(raw: string)
    ensures HasMarkdownKeys(Sections(raw))
  {
    SectionsKeys(raw);
  }

  /** The JSON reply of the handler, with the two paths and the sections. */
  datatype Reply = Reply(success: bool, mdPath: string, jsonPath: string, sections: Dict.Dict<string>)

  /** Everything a save produces: the two files (path and content) and the
      reply. */
  datatype Saved = Saved(mdPath: string, md: string, jsonPath: string, json: Dict.Dict<string>, reply: Reply)

  /** The save handler on the article blob `raw` and the `context` dict,
      with the output directory and the three readings of the clock as
      parameters. */
  function Save(raw: string, context: Dict.Dict<string>, dir: string,
                stamp: string, generated: string, generatedAt: string): (r: Saved)
    requires Dict.Valid(context)
  {
    var sections := Sections(raw);
    SectionsKeys(raw);
    SectionsFeedMarkdown(raw);
    var base := BaseName(context, stamp);
    var md := MdPath(dir, base);
    var js := JsonPath(dir, base);
    Saved(md, Markdown(generated, context, sections), js, Record(generatedAt, context, sections),
          Reply(true, md, js, sections))
  }

  /** The reply the handler builds, its only return, always carries
      `success: True`; it reports the paths written and the sections of the
      blob, both files share one base name, the JSON record stores every
      section under its own key, and with a timestamp free of `' '` and
      `'/'` both files lie directly inside the output directory. */
  lemma SaveSpec(raw: string, context: Dict.Dict<string>, dir: string,
                 stamp: string, generated: string, generatedAt: string, k: nat)
    requires Dict.Valid(context) && k < |SectionNames|
    ensures Save(raw, context, dir, stamp, generated, generatedAt).reply.success
    ensures Save(raw, context, dir, stamp, generated, generatedAt).reply.mdPath
            == Save(raw, context, dir, stamp, generated, generatedAt).mdPath
            == Join(dir, BaseName(context, stamp)) + ".md"
    ensures Save(raw, context, dir, stamp, generated, generatedAt).reply.jsonPath
            == Save(raw, context, dir, stamp, generated, generatedAt).jsonPath
            == Join(dir, BaseName(context, stamp)) + ".json"
    ensures Save(raw, context, dir, stamp, generated, generatedAt).reply.sections == Sections(raw)
    ensures SectionNames[k] in Save(raw, context, dir, stamp, generated, generatedAt).json.entries
    ensures Save(raw, context, dir, stamp, generated, generatedAt).json.entries[SectionNames[k]]
            == Extraction.Extract(raw, Markers[k], Markers[k + 1])
    ensures CleanName(stamp) ==>
              && DirectlyInside(Save(raw, context, dir, stamp, generated, generatedAt).mdPath, dir)
              && DirectlyInside(Save(raw, context, dir, stamp, generated, generatedAt).jsonPath, dir)
  {
    SectionsKeys(raw);
    SectionsTable(raw, k);
    BaseNameShape(context, stamp);
    PathsShareBase(dir, BaseName(context, stamp));
    RecordPriority(generatedAt, context, Sections(raw), SectionNames[k]);
    if CleanName(stamp) {
      BaseNameClean(context, stamp);
      PathsDirectlyInside(dir, BaseName(context, stamp));
    }
  }
}
