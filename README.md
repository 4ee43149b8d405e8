# SEO article save handler

A Dafny model of the `/api/save` handler of the SEO article tool
(`save_article` in `app.py`). The handler receives the article blob that
the language model produced and the context gathered in the earlier steps.
It then does five things:

- It cuts the blob into six sections with the local `extract(raw, start,
  end)` helper. The seven delimiter markers are `---KEYWORDS---`,
  `---TITLETAG---`, `---METADESC---`, `---ARTICLETITLE---`,
  `---ARTICLECOPY---`, `---FAQS---` and `---END---`.
- It derives a file base name from the primary keyword and a timestamp.
- It writes a Markdown document and a JSON record under that base name.
- In the JSON record, `{"generated_at": ..., **context, **sections}` lets
  later keys win.
- It answers with both paths and the sections.

The model is pure: functions describe what the handler computes, and
lemmas state what it guarantees.

Modules:

- `Text`: the string primitives the handler relies on:
  - `str.index` with a start position (`FirstIndexFrom`, where `NotFound`
    stands for the `ValueError`)
  - `str.strip()` over exactly the characters of Python's `str.isspace`
  - single-character `str.replace`
  - the slice `s[:n]`
  - string joining, which is what an f-string does with its pieces
- `Dict`: Python's insertion-ordered `dict` with string keys. It covers
  the `{...}` display, `d.get(k, default)` and `{**d, **e}`. A key seen
  before keeps its place and takes the new value; a new key is appended.
- `Extraction`: `extract` as `Locate` (where it cuts) and `Extract` (the
  stripped piece). It also covers the dict built by extracting one section
  per pair of adjacent markers, and the facts about well-formed blobs and
  about cutting a marker out.
- `ArticleSections`: the six-entry `sections` dict of the handler, with
  its actual markers and keys.
- `Export`:
  - the sanitised keyword and the base name
  - `os.path.join` (POSIX semantics), the two paths
  - the Markdown document, the JSON record
  - the whole handler as `Save`

The keyword sanitiser at `app.py:419` replaces only `' '` (with `'_'`) and
`'/'` (with `'-'`) before keeping the first 30 characters; every other
character, other punctuation included, is kept. `Export.SafeKeywordMerges`
shows one consequence: two different keywords can give the same file name.

## Model

| member | source | states |
|---|---|---|
| Text.FirstIndexFromSpec | app.py:400-401 | A found index is the first occurrence of the marker at or after the start position; `NotFound` (Python's `ValueError`) means there is no occurrence there at all |
| Text.FirstIndexFromIs | app.py:400-401 | Any index that is the first occurrence at or after the start position is the one the search returns |
| Text.FirstIndexFromAbsent | app.py:400-401 | With no occurrence at or after the start position the search fails |
| Text.FirstIndexFromPrefix | app.py:400-401 | A search whose match lies in the first `n` characters finds the same match in any string with those first `n` characters |
| Text.OccursAtSlice | app.py:400-401 | An occurrence at `i` is exactly `s[i:i+len(pat)] == pat` |
| Text.StripRangeBounds | app.py:402 | Stripping `raw[s:e]` yields a piece `raw[i:j]` inside it, with only whitespace cut off on both sides, and the piece is trimmed |
| Text.StripRangeIsStrip | app.py:402 | Scanning the range in place equals `raw[s:e].strip()` |
| Text.StripRangeUnique | app.py:402 | Whitespace, then a trimmed piece, then whitespace: the strip of the range is exactly that piece |
| Text.StripTrimmed | app.py:402 | `strip()` leaves no `isspace` character at either end |
| Text.StripIsSlice | app.py:402 | `strip()` returns a contiguous piece of its input with only whitespace cut off on either side |
| Text.StripIdempotent | app.py:402 | Stripping twice gives what stripping once gives |
| Text.ReplaceChar | app.py:419 | `replace` of one character keeps the length and maps every position: the old character becomes the new one, every other stays |
| Text.Take | app.py:419 | `[:n]` keeps `min(n, len)` characters and is a prefix of its input |
| Text.ConcatHolds | app.py:423-458 | Each piece of a joined string stands in it right after the pieces before it |
| Dict.GetPut | app.py:465 | After `d[k] = v`, `get` sees `v` at `k` and the old dict at every other key |
| Dict.GetUpdate | app.py:464-468 | `get` on `{**d, **e}` gives `e`'s value when `e` has the key and otherwise `get` on `d` with the same default |
| Dict.Put | app.py:465 | Assigning a key keeps the dict valid, replaces the value of an existing key where it stands and appends a new key |
| Dict.NewKeysMember | app.py:464-468 | The keys an unpacking adds are exactly those of the unpacked dict that were not there before |
| Dict.UpdateSpec | app.py:464-468 | `{**d, **e}` is valid, keeps `d`'s keys in order followed by `e`'s new keys in `e`'s order, and maps every key to `e`'s value if it has one and `d`'s otherwise |
| Dict.FromListShape | app.py:406-413 | A display with distinct keys is a valid dict with its keys in the order written |
| Dict.FromListAt | app.py:406-413 | In a display with distinct keys, each key holds the value written beside it |
| Extraction.Locate | app.py:398-404 | A located section lies inside the blob |
| Extraction.ExtractNoStart | app.py:398-404 | When the search for `start` raises, the section is `""` |
| Extraction.ExtractNoEnd | app.py:398-404 | When `start` is found but the search for `end` from just after it raises, the section is `""` |
| Extraction.ExtractFound | app.py:400-402 | When both searches succeed at `p` and `q`, `end` begins at or after the end of `start` and the section is the stripped range between them |
| Extraction.ExtractWithoutStart | app.py:398-404 | No `start` anywhere gives `""` |
| Extraction.ExtractWithoutEnd | app.py:398-404 | `start` first at `p` but no `end` at or after `p + len(start)` gives `""`, even when `end` occurs earlier in the blob |
| Extraction.ExtractWithoutAnyEnd | app.py:398-404 | No `end` anywhere gives `""`, whether or not `start` is there |
| Extraction.ExtractBetween | app.py:398-404 | The section is `raw[p+len(start):q].strip()`, where `p` is the first `start` and `q` is the first `end` after it; later occurrences are ignored |
| Extraction.ExtractIsTrimmedSlice | app.py:398-404 | For every input the section is a contiguous piece of the blob with no whitespace at either end |
| Extraction.ExtractSlice | app.py:398-404 | The bounds of that piece, returned from the lemma |
| Extraction.ExtractOnly | app.py:398-404 | When each marker occurs once and in order, the section is the stripped text strictly between them |
| Extraction.ExtractKeptByPrefix | app.py:398-404 | When both markers are found within the first `n` characters, any blob with those first `n` characters has the same section |
| Extraction.ExtractAllShape | app.py:406-413 | With distinct keys, the dict of sections is valid and has exactly the keys, in order |
| Extraction.ExtractAllAt | app.py:406-413 | Key `k` holds piece `k` of the blob |
| Extraction.PiecesAt | app.py:406-413 | Piece `k` is `extract` on marker `k` and marker `k + 1`, each searched from the start of the whole blob |
| Extraction.WellFormedOrdered | app.py:406-413 | In a well-formed blob every marker ends before any later one starts |
| Extraction.Between | app.py:406-413 | The text strictly between two adjacent markers of a well-formed blob has the length the marker positions give |
| Extraction.WellFormedSection | app.py:398-413 | In a well-formed blob, section `k` is the stripped text between its two adjacent markers |
| Extraction.MarkerRemoved | app.py:398-413 | A blob that agrees with a well-formed one up to marker `m` and has no marker `m`: the two sections bordering the marker are `""`, every earlier section is unchanged |
| Extraction.BorderingEmpty | app.py:398-413 | Without marker `m`, both sections bordering it are `""` |
| Extraction.SectionKept | app.py:398-413 | A section that ends before marker `m` keeps its value in any blob that agrees up to marker `m` |
| ArticleSections.NamesDistinct | app.py:406-413 | The six keys of the display are distinct |
| ArticleSections.SectionsKeys | app.py:406-413 | For every blob, `sections` is a valid dict with exactly the keys `keywords`, `title_tag`, `meta_desc`, `article_title`, `article_copy`, `faqs`, in that order |
| ArticleSections.SectionsTable | app.py:406-413 | Each key holds `extract` of its own marker pair, independently of the others |
| ArticleSections.SectionsArePieces | app.py:398-413 | Every section is trimmed and is a contiguous piece of the blob |
| ArticleSections.WellFormedSections | app.py:398-413 | For a blob with each marker once and in order, each section is the stripped text between its adjacent markers |
| ArticleSections.FaqsRemoved | app.py:398-413 | Removing `---FAQS---` from a well-formed blob (the edited blob `CutFaqs`, when the cut does not form a new marker) empties `article_copy` and `faqs` and leaves the other four sections unchanged |
| Export.SafeChar | app.py:419 | A character of the file name is never `' '` or `'/'`; other characters stay |
| Export.SafeKeyword | app.py:419 | The sanitised keyword has length `min(30, len(kw))`, maps each character by `SafeChar`, and holds no `' '` or `'/'` |
| Export.SafeKeywordIdempotent | app.py:419 | Sanitising a sanitised keyword changes nothing |
| Export.SafeKeywordKeeps | app.py:419 | A keyword of at most 30 characters with no `' '` or `'/'` is its own file name |
| Export.SafeKeywordMerges | app.py:419 | "a b" and "a_b" give the same file name, so the sanitiser is not one-to-one |
| Export.Keyword | app.py:419 | The keyword is the context's `primary_keyword`, or `"article"` when there is none |
| Export.BaseNameShape | app.py:419-420 | The base name has length `len(safe_kw) + 1 + len(timestamp)` and never starts with `'/'` |
| Export.BaseNameDefault | app.py:419-420 | Without a keyword the base name is `article_` followed by the timestamp |
| Export.BaseNameSplits | app.py:418-420 | With the 15-character timestamp, the timestamp and the sanitised keyword can be read back off the base name |
| Export.BaseNameInjective | app.py:418-420 | For one context, two base names are equal if and only if the timestamps are |
| Export.JoinRelative | app.py:459-469 | Joining a relative name gives a path that starts with the directory, the name is its tail, and extending the name extends the path |
| Export.PathsShareBase | app.py:459-469 | Both paths are `join(dir, base)` plus the extension; each is `dir + base + ext` when `dir` is empty or ends in `'/'` and `dir + "/" + base + ext` otherwise, so it starts with the directory; and the two differ |
| Export.BaseNameClean | app.py:418-420 | With a timestamp free of `' '` and `'/'` (as a `%Y%m%d_%H%M%S` reading is), the whole base name holds neither character |
| Export.PathsDirectlyInside | app.py:459-469 | With a base name free of `' '` and `'/'`, both paths are the directory part followed by a name with no `'/'`, so both files lie directly inside the directory |
| Export.Stamped | app.py:465 | `{"generated_at": ts}` is valid, has the single key and maps it to the time |
| Export.RecordEntries | app.py:464-468 | The JSON record is a valid dict mapping the generation time overridden by the context, overridden in turn by the sections |
| Export.RecordPriority | app.py:464-468 | A key is in the record if and only if it is `generated_at`, a context key or a section key; its value comes from the sections first, then the context, then the clock |
| Export.RecordOrder | app.py:464-468 | Keys are ordered `generated_at` first, then the context's keys, then the section keys the context lacks |
| Export.MarkdownParts | app.py:423-458 | The document is made of 17 pieces: the literal text and the eight substituted values |
| Export.MarkdownHoldsPart | app.py:423-458 | Each piece occurs in the document |
| Export.MarkdownHoldsSections | app.py:423-458 | The document contains the title tag, the meta description, the keywords, the article copy and the FAQs |
| Export.MarkdownIgnoresTitle | app.py:423-458 | The document depends on no section but those five; `article_title` is not substituted into it |
| Export.SectionsFeedMarkdown | app.py:406-458 | Every section dict holds the keys the document reads, so the lookups never raise `KeyError` |
| Export.SaveSpec | app.py:392-478 | The reply the handler builds, its only return, always carries `success: True`. It holds the two written paths, both `join(dir, base)` plus `.md`/`.json`, and the blob's sections. Every section is stored in the JSON record under its own key. With a timestamp free of `' '` and `'/'`, both files lie directly inside the directory |

## Left out

- Streaming, Flask routing and request parsing are not modelled. `raw` and
  `context` are parameters; the defaults `data.get` gives them (`""` and
  `{}`) are the caller's to pass. `raw` is modelled as a string: for a JSON
  `null` or number, `raw.index` would raise `AttributeError`, which the
  `except ValueError` at app.py:403 does not catch, and that path is not
  modelled.
- Context values are modelled as strings. The code would also accept
  numbers, lists or `None`. A non-string `primary_keyword` would make
  `.replace` raise, and that error path is not modelled.
- The clock is not modelled. The three `datetime.now()` readings (the file
  timestamp, the human-readable date in the document, the ISO time in the
  record) become three independent string parameters, in the formats
  `strftime` and `isoformat` give them.
- The file system is not modelled: `expanduser`, `makedirs`, opening and
  writing the two files. The output directory is a parameter, and the
  effect of a save is the `Saved` value (paths and contents).
- JSON serialisation (`json.dump` with indentation) and `jsonify` are not
  modelled. The record and the reply are modelled as values, not as bytes.
- Text is a sequence of Unicode scalar values. A lone surrogate, which a
  Python `str` can hold, is not modelled, nor is the `UnicodeEncodeError`
  the UTF-8 writes would raise on it. UTF-8 encoding itself is not
  modelled, and neither is the rest of the server (prompts, model calls,
  the other endpoints, startup).
- ArticleSections.FaqsRemoved: this assumes the cut does not join the text
  on either side into a new `---FAQS---`. Without that premise the
  property does not hold.
- Export.MarkdownHoldsSections: this states that the document contains
  each section, not where in the document it stands. `MarkdownParts` gives
  the exact layout.
