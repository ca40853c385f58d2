# jjwxc font tables: the glyph-matching engine

jjwxc_font_tables de-obfuscates a novel site's web fonts. The site serves
text in a per-request font whose glyphs are the usual characters under
scrambled code points. The service learns which real character each code
point shows and answers with a table from code point to character. It
holds one piece of knowledge, the *coordinate table*. This is a list of
facts `(label, outline)`, where the outline is the point list of a known
glyph.

This project models that engine in Dafny and proves what it does.

- **Coordinate-table maintenance** (modules `CoorTable`, `LabelSort`,
  `Bootstrap`, `CharHex`):
  - `is_coor_match`, `merge_coor_table` (with Python's `list.remove`
    and stable `sorted`), `deduplicate_coor_table` and `get_charater_hex`.
  - At start-up, the local table is reconciled with the bundled
    baseline, or replaced by it.
  - `jjwxc_font_tables/__init__.py` repeats the match, merge and
    deduplicate functions of `jjwxc_font_tables/lib.py` line for line.
    They are modelled once, and rows below cite whichever copy states
    the property.
- **Quick matcher** (module `Quick`): the fuzzy outline comparison with
  tolerance 20, and the scan that labels, for every reference fact, the
  first similar glyph of the font.
- **Slow matcher** (module `Slow`):
  - the pixel-overlap rate of two monochrome bitmaps;
  - the best-candidate scan, which breaks ties towards the first
    candidate;
  - the per-character mapping and the candidate range.
  - Rendering is a function parameter from text to bitmap.
- **Font service** (module `FontParser`):
  - the font-name validator and the status codes;
  - the quick-then-slow resolution of a download, which writes every
    learned fact back into the coordinate table and deduplicates it;
  - the store of resolved fonts;
  - the start-up check of the reference-image caches.
  - `FontService` is a class whose fields are the coordinate table and
    the stored fonts.

Loops in the source are methods proved equal to a specification function.
Examples are `MergeCoorTable`, `DeduplicateCoorTable`, `MatchJjwxcFont`,
`CompareIm`, `MatchTestIm`, `MatchFont`, `LearnCodes` and `Check`. The
properties are then proved as lemmas about those functions.

Facts, outlines, glyphs and bitmaps are values: `Fact(ch, outline)`,
`Glyph(code, outline)`, `Bitmap(mode, width, height, black)`. A font
download is a value holding:

- its status;
- its glyphs, with distinct codes, as in the dictionary of the font's
  character map;
- its rendering function.

In these places the code's behaviour is what the model follows:

- `compare_im` divides the shared black-pixel count by `w*h`.
- The quick matcher never retires an assigned glyph, so a later fact can
  overwrite a label.
- The slow matcher answers `''` when no candidate has a positive rate.
  The service then stores `''` as the label and learns the fact
  `('', outline)`.
- `match_test_im` prunes nothing.

## Model

| member | source | states |
|---|---|---|
| CoorTable.IsCoorMatch | jjwxc_font_tables/lib.py:32-47 | true exactly when the two outlines have the same length and equal points at every index, i.e. are equal (hence reflexive and symmetric) |
| CoorTable.RemoveFirst | jjwxc_font_tables/lib.py:55 | `remove(j)` takes exactly one occurrence of `j` out of the list and leaves every other fact's count unchanged |
| CoorTable.RemoveFirstAfter | jjwxc_font_tables/lib.py:55 | `remove` takes the first occurrence: with `f` absent from `a`, removing `f` from `a+[f]+b` leaves `a+b` |
| CoorTable.RemoveMatches | jjwxc_font_tables/lib.py:53-55 | the inner loop over the target: an error only when the merge is over-matched; otherwise the copy has lost one occurrence per match and, unless over-matched, is the unmatched prefix followed by the rest of the source |
| CoorTable.MergeCoorTable | jjwxc_font_tables/lib.py:50-56 | the result is `Merge(source, target)`: an error when `remove` runs out, else the stable label sort of the target followed by the unmatched source facts |
| CoorTable.MergeContents | jjwxc_font_tables/lib.py:52-56 | the merge fails iff some source fact equals two or more target facts; otherwise its facts are the target's plus the unmatched source facts, and its length is at least the target's |
| CoorTable.UnmatchedMembership | jjwxc_font_tables/lib.py:51-56 | a source fact is left in the copy iff it equals no target fact |
| CoorTable.UnmatchedCounts | jjwxc_font_tables/lib.py:51-56 | a surviving fact keeps its source multiplicity; a matched one keeps none |
| CoorTable.UnmatchedSubsequence | jjwxc_font_tables/lib.py:51-55 | the surviving source facts keep their source order |
| CoorTable.MergeOrder | jjwxc_font_tables/lib.py:56 | the merge result is sorted by label, and within one label the target's facts come first, then the surviving source facts, each in its own order |
| CoorTable.MergeRestores | jjwxc_font_tables/__init__.py:67-73 | merging a duplicate-free table into a copy with facts removed succeeds and restores the full table's facts and length |
| CoorTable.MergeDistinct | jjwxc_font_tables/__init__.py:67-73 | merging two duplicate-free tables succeeds and gives a duplicate-free table |
| CoorTable.MarkMatchesOf | jjwxc_font_tables/lib.py:63-67 | one pass of the inner loop marks exactly the earlier indices holding a fact equal to `source[j]`, keeping earlier marks |
| CoorTable.MarkDuplicates | jjwxc_font_tables/lib.py:60-67 | index `k` is marked iff a later index holds an equal fact; marks are in range |
| CoorTable.DeduplicateCoorTable | jjwxc_font_tables/lib.py:59-74 | the result is `Dedup(source)`: the facts with no equal fact later on, in order |
| CoorTable.DedupSubsequence | jjwxc_font_tables/lib.py:69-74 | deduplication returns a subsequence of its input |
| CoorTable.DedupDistinctElems | jjwxc_font_tables/lib.py:59-74 | the result has no two equal facts, holds every input fact, and has one entry per distinct fact |
| CoorTable.DedupCounts | jjwxc_font_tables/lib.py:59-74 | every input fact occurs exactly once in the result, and no other fact occurs |
| CoorTable.DedupIdempotent | jjwxc_font_tables/lib.py:59-74 | deduplicating twice is deduplicating once |
| CoorTable.DedupOfDistinct | jjwxc_font_tables/lib.py:59-74 | a duplicate-free table is returned unchanged |
| CoorTable.DedupKeepsLast | jjwxc_font_tables/lib.py:62-67 | the final element is never dropped and stays last |
| CoorTable.DedupLastWins | jjwxc_font_tables/__init__.py:81-84 | of two equal facts the later copy survives: `Dedup(a+b)` is `Dedup` of the facts of `a` not in `b`, followed by `Dedup(b)` |
| CoorTable.DedupAppendKnown | jjwxc_font_tables/__init__.py:76-91 | appending copies of facts already in a duplicate-free table (repeats included) and deduplicating gives back the table's length |
| LabelSort.LabelLe | jjwxc_font_tables/lib.py:29 | the key comparison of `sorted` on labels is lexicographic: a label comes first when it is a prefix of the other or has the smaller code point where they first differ |
| LabelSort.LabelLeReflexive | jjwxc_font_tables/lib.py:29 | the sort key order on labels is reflexive |
| LabelSort.LabelLeTotal | jjwxc_font_tables/lib.py:29 | any two labels are ordered one way or the other |
| LabelSort.LabelLeAntisymmetric | jjwxc_font_tables/lib.py:29 | labels ordered both ways are equal |
| LabelSort.LabelLeTransitive | jjwxc_font_tables/lib.py:29 | the label order is transitive |
| LabelSort.SortByLabel | jjwxc_font_tables/lib.py:29 | `sorted(..., key=lambda x: x[0])` keeps exactly the facts with their multiplicities and orders them by label |
| LabelSort.SortByLabelStable | jjwxc_font_tables/lib.py:56 | facts with the same label keep their relative order |
| LabelSort.SortByLabelIsTheStableSort | jjwxc_font_tables/lib.py:56 | any label-ordered table that lists each label's facts in input order is the sort's result, so the sort is Python's stable `sorted` |
| CharHex.LowerHexDigits | jjwxc_font_tables/lib.py:15 | `hex` prints a non-empty run of lowercase hex digits whose first digit is `0` only for zero |
| CharHex.ParseLowerHex | jjwxc_font_tables/lib.py:15 | reading the printed digits back as hexadecimal gives the number |
| CharHex.ReplaceNoMatch | jjwxc_font_tables/lib.py:15 | `replace('0x', …)` leaves a string without `x` unchanged, so only the prefix is replaced |
| CharHex.CharacterHex | jjwxc_font_tables/lib.py:14-15 | `get_charater_hex(c)` is `U+` followed by the lowercase, unpadded hex digits of `ord(c)`: only the `0x` of `hex` is replaced |
| CharHex.CharacterHexShape | jjwxc_font_tables/lib.py:14-15 | every character after `U+` is a lowercase hex digit, and the first is `0` only for the character 0 |
| CharHex.CharacterHexRoundTrip | jjwxc_font_tables/lib.py:14-15 | parsing the part after `U+` as hexadecimal gives back `ord(c)` |
| CharHex.CharacterHexInjective | jjwxc_font_tables/lib.py:14-15 | distinct characters get distinct codes |
| Bootstrap.CoorTableStore.MergeAndDeduplicate | jjwxc_font_tables/__init__.py:94-114 | the file and the outcome are those of `MergeAndDeduplicateSpec`: sort both tables, merge the baseline into the local one, deduplicate, write iff the length changed |
| Bootstrap.CoorTableStore.Init | jjwxc_font_tables/__init__.py:130-142 | the file and the outcome are those of `InitSpec`: copy the baseline when the file is missing or does not parse, else reconcile |
| Bootstrap.InitReplacesOnlyBroken | jjwxc_font_tables/__init__.py:130-142 | a missing or unparsable local file becomes the baseline; a parsed one is reconciled, and a parsed table without repeated facts always reconciles |
| Bootstrap.ReconcileFailsIff | jjwxc_font_tables/__init__.py:108 | reconciliation fails exactly when some baseline fact occurs two or more times in the local table |
| Bootstrap.OverMatchedSorted | jjwxc_font_tables/__init__.py:98-108 | sorting both tables does not change whether the merge over-matches |
| Bootstrap.DistinctLocalSucceeds | jjwxc_font_tables/__init__.py:108-109 | a duplicate-free local table always reconciles without error |
| Bootstrap.MergedFacts | jjwxc_font_tables/__init__.py:108 | a successful merge holds exactly the facts of the local table and of the baseline |
| Bootstrap.RewriteIff | jjwxc_font_tables/__init__.py:111-114 | for a duplicate-free local table, the file is rewritten iff the baseline has a fact the local table lacks, and left alone iff every baseline fact is already there |
| Bootstrap.RewrittenTable | jjwxc_font_tables/__init__.py:108-114 | a rewritten table is duplicate-free, sorted by label, and holds exactly the local and baseline facts |
| Bootstrap.DuplicateLocalFactFailsInit | jjwxc_font_tables/__init__.py:136-138 | only the parse error is caught: a local table listing a baseline fact twice makes start-up fail |
| Quick.IsGlyphSimilar | jjwxc_font_tables/font_parser/quick.py:43-55 | true iff the outlines have equal length and every pair of points is within `fuzz` in both coordinates |
| Quick.SimilarIsTolerance | jjwxc_font_tables/font_parser/quick.py:43-55 | similarity is symmetric, reflexive for `fuzz >= 0`, and implied by equal outlines |
| Quick.ToleranceBoundary | jjwxc_font_tables/font_parser/quick.py:48-55 | the bound is inclusive: a difference of 20 passes, 21 fails, and different lengths fail |
| Quick.Pool | jjwxc_font_tables/font_parser/quick.py:64-65 | the matched glyphs are exactly the font's glyphs other than the placeholder `x` |
| Quick.PoolDistinct | jjwxc_font_tables/font_parser/quick.py:64-65 | dropping the placeholder keeps the glyph codes distinct |
| Quick.FirstSimilar | jjwxc_font_tables/font_parser/quick.py:72-75 | the inner loop with its `break` finds the first similar glyph in pool order, or none |
| Quick.TargetIsFirst | jjwxc_font_tables/font_parser/quick.py:72-75 | a similar glyph preceded by no similar glyph is the one a fact labels |
| Quick.MatchJjwxcFont | jjwxc_font_tables/font_parser/quick.py:58-80 | the output is the scan's assignment; the status is complete iff every non-placeholder glyph got a label, and otherwise lists all non-placeholder codes |
| Quick.QuickAssignRange | jjwxc_font_tables/font_parser/quick.py:71-75 | every output key is a pool code and every output value is a label of the reference table |
| Quick.PlaceholderNeverAssigned | jjwxc_font_tables/font_parser/quick.py:64-65 | `x` is never a key of the output |
| Quick.AssignedIff | jjwxc_font_tables/font_parser/quick.py:71-75 | a code is assigned iff some fact's first similar glyph has it |
| Quick.LastWriterWins | jjwxc_font_tables/font_parser/quick.py:71-75 | a code's label is that of the last fact whose first similar glyph it is |
| Quick.LaterFactOverwrites | jjwxc_font_tables/font_parser/quick.py:71-75 | assignments are not retired: of two facts with the same outline, the later label is the one kept |
| Quick.CompleteIffAllAssigned | jjwxc_font_tables/font_parser/quick.py:77-80 | with distinct codes, the output has as many keys as the pool has glyphs iff every pool glyph is assigned |
| Slow.CompareIm | jjwxc_font_tables/font_parser/slow.py:77-92 | a size mismatch, then a mode other than `1`, is an error; otherwise the rate is the count of pixels black in both images over `w*h` |
| Slow.OverlapBounds | jjwxc_font_tables/font_parser/slow.py:87-90 | the shared-black count is symmetric, bounded by either image's black count and by `w*h`, and equals the black count for an image with itself |
| Slow.CompareSymmetric | jjwxc_font_tables/font_parser/slow.py:77-92 | comparing `a` with `b` is comparing `b` with `a` |
| Slow.CompareRate | jjwxc_font_tables/font_parser/slow.py:84-92 | a rate lies in `[0, 1]` and never exceeds either image's black fraction |
| Slow.CompareSelf | jjwxc_font_tables/font_parser/slow.py:84-92 | an image compared with itself gives its black fraction |
| Slow.StandardCompares | jjwxc_font_tables/font_parser/slow.py:70-82 | two images as `draw` makes them (mode `1`, `IMAGE_SIZE`) always compare without error |
| Slow.MatchTestIm | jjwxc_font_tables/font_parser/slow.py:95-109 | the loop's best, rate and recorded rates are those of the scan `ScanGuests`, or its first comparison error |
| Slow.ScanErrorSticks | jjwxc_font_tables/font_parser/slow.py:100-102 | once a comparison raises, the whole scan raises that error |
| Slow.ScanRecordsEveryRate | jjwxc_font_tables/font_parser/slow.py:100-103 | a rate is recorded for exactly the candidates, and it is that candidate's comparison rate |
| Slow.ScanBestIsMaximal | jjwxc_font_tables/font_parser/slow.py:98-107 | no recorded rate exceeds the best's; the best is `''` at rate 0 or a recorded candidate with a positive rate |
| Slow.ScanFirstMaximum | jjwxc_font_tables/font_parser/slow.py:105-107 | a positive best is the first candidate reaching the maximal rate: every earlier candidate scores strictly less |
| Slow.ScanNothingOverlaps | jjwxc_font_tables/font_parser/slow.py:98-107 | the best rate is 0 iff every candidate scores 0 (including no candidates), and then the best is `''` |
| Slow.StandardScanSucceeds | jjwxc_font_tables/font_parser/slow.py:100-102 | with standard images the scan never raises |
| Slow.MatchFont | jjwxc_font_tables/font_parser/slow.py:112-120 | the loop's map is `FontMatch`: each test character mapped to its scan's best, or the first error |
| Slow.FontMatchErrorSticks | jjwxc_font_tables/font_parser/slow.py:115-118 | an error for one character is the result of the whole mapping |
| Slow.FontMatchEntries | jjwxc_font_tables/font_parser/slow.py:114-120 | the map has exactly one key per test character, valued with that character's best candidate |
| Slow.GuestRange | jjwxc_font_tables/font_parser/slow.py:37-45 | the candidates are distinct and are exactly the table's labels other than `x` |
| Slow.TestCharacters | jjwxc_font_tables/font_parser/slow.py:126 | the test characters are exactly the font's characters other than `x` |
| Slow.MatchJjwxcFont | jjwxc_font_tables/font_parser/slow.py:123-134 | the whole-font match over the non-placeholder characters, with an empty candidate list replaced by the table's candidates; a successful result has exactly the font's characters other than `x` as keys |
| Slow.MatchOneCharacter | jjwxc_font_tables/font_parser/slow.py:137-147 | the same match on one given character; a successful result has that character as its only key |
| Slow.ImageSideIsLineHeight | jjwxc_font_tables/font_parser/slow.py:20-22 | the image side 116 is the least whole number of pixels at least 1.2 times the font size 96 |
| Slow.OneCharacterResult | jjwxc_font_tables/font_parser/slow.py:137-147 | on one character the result is the one-entry map to its best candidate, and fails iff its scan fails |
| FontParser.Validator | jjwxc_font_tables/font_parser/__init__.py:23-29 | a name is valid iff it has 15 characters, starts with `jjwxcfont_` and ends in five word characters |
| FontParser.ValidNamesAreWords | jjwxc_font_tables/font_parser/__init__.py:24-26 | a valid name holds only letters, digits and `_`: no quote, backslash or slash |
| FontParser.ExampleNames | tests/test_api.py:27-33 | the names the tests accept are valid, and the names they expect 403 for are not |
| FontParser.OutlineOf | jjwxc_font_tables/font_parser/__init__.py:54 | the outline stored with a learned label is that of the font's glyph with the unresolved code |
| FontParser.LearnNextFacts | jjwxc_font_tables/font_parser/__init__.py:51-56 | the rewritten table is duplicate-free and holds exactly the old facts and the new one |
| FontParser.LearnStep | jjwxc_font_tables/font_parser/__init__.py:44-58 | one step of the loop: a labelled code is skipped; otherwise the slow matcher's error stops the loop, or its label is stored and the fact learned |
| FontParser.FontService.LearnCodes | jjwxc_font_tables/font_parser/__init__.py:43-60 | the character table, the error and the new coordinate table are those of `Learn`; stored fonts are unchanged |
| FontParser.FontService.ResolveDownload | jjwxc_font_tables/font_parser/__init__.py:32-69 | the reply and the new coordinate table are those of `ResolveSpec` |
| FontParser.FontService.MatchJjwxcFont | jjwxc_font_tables/font_parser/__init__.py:72-96 | 403 for an invalid name with nothing changed; a stored font is served as stored; otherwise the font is resolved and stored iff it was served |
| FontParser.LearnKeepsTable | jjwxc_font_tables/font_parser/__init__.py:44-48 | labels already present (the quick matcher's) are never overwritten, and only unresolved codes are added |
| FontParser.LearnCovers | jjwxc_font_tables/font_parser/__init__.py:43-48 | after an uninterrupted loop every unresolved code has a label |
| FontParser.LearnKeepsFacts | jjwxc_font_tables/font_parser/__init__.py:51-56 | learning never loses a fact of the coordinate table |
| FontParser.LearnRecords | jjwxc_font_tables/font_parser/__init__.py:51-58 | every code the loop labels has its fact (label, glyph outline) in the written table |
| FontParser.LearnWritesDistinct | jjwxc_font_tables/font_parser/__init__.py:56-58 | a table the loop writes is duplicate-free |
| FontParser.ResolveStatus | jjwxc_font_tables/font_parser/__init__.py:66-69 | download status `404` gives 404, any other non-`OK` status gives 503, and neither touches the table |
| FontParser.ResolveComplete | jjwxc_font_tables/font_parser/__init__.py:40-42 | when the quick match labels every glyph, the quick table is served and nothing is learned or written |
| FontParser.ResolveServed | jjwxc_font_tables/font_parser/__init__.py:39-65 | a served table labels every non-placeholder glyph, keeps every quick label, and has the fact of every slow label in the written table, which keeps all old facts |
| FontParser.Check | jjwxc_font_tables/font_parser/__init__.py:113-134 | false iff a cache file is missing, loading fails, or a candidate lacks an image or a rate |
| FontParser.CheckIgnoresOrder | jjwxc_font_tables/font_parser/__init__.py:114 | the verdict depends only on the candidate set, not on the order the set is listed in |
| FontParser.StaleFonts | jjwxc_font_tables/font_parser/__init__.py:145-147 | the fonts to update are exactly those whose check fails, in visiting order |
| FontParser.InitApp | jjwxc_font_tables/font_parser/__init__.py:99-147 | `update` runs for exactly the reference fonts whose check fails, in order |

## Left out

- Downloading, woff2 decoding and the font file (`download.py`, fontTools) are not modelled. A download is given as its status, its glyph list and its rendering function.
- The glyph list comes from a dictionary built from a set of code points. Its order is unspecified; the model takes it as given, with distinct codes.
- Rendering (`draw`, `_get_offset`, `_load_font`, the reference-font loaders and the `lru_cache` on `draw`) is a parameter from text to bitmap.
- Rates are real numbers. The floating-point rounding of `match_pixel / total_pixel` is not modelled.
- File I/O is not modelled. This covers `json.load`/`json.dump`, `os.path.exists`, `shutil.copy` and `cache_clear`. The coordinate table is a value or a class field, and the loader cache is taken to be fresh after every write.
- `quick.py` and `font_parser/__init__.py` import `load_jjwxc_std_font_coord_table`, but the `lib.py` shown defines only `get_jjwxc_std_font_coord_table`. The model takes both to return the stored table sorted by label.
- The guest range is built from a Python set, so its order is unspecified. `Slow.GuestRange` fixes first-occurrence order. The properties proved about candidates hold for any order; only the tie-break depends on it.
- The `check` candidate set also holds the commonly used characters (`commonly_used_character` is not part of this model). `Check` takes the candidate list as an input, and `IsCheckRange` describes it.
- What `update` writes, the bitmap-cache loaders and savers, and logging are not modelled. `InitApp` returns the fonts it would update.
- The database, SQLAlchemy and `MultipleResultsFound` are not modelled; stored fonts are a map from name to table. After storing, the source looks the font up again, which the model treats as serving the stored table.
- Flask (blueprints, headers, ETags, the app context, `g.uuid`), async/await, the tool endpoints (`font_parser/tools.py`, `match_jjwxc_font_tool`, `jjwxc_font_tables/tools.py`) and the HTML pages are not modelled.
- A comparison error during slow matching propagates out of the service. The model answers it with `Failed`, keeping the table written up to that point.
- `FontParser.Validator`: the regular expression `\w` is Unicode-aware; the model accepts only ASCII letters, digits and `_`. So a name ending in five non-ASCII letters is invalid in the model but valid in the source.
- `Bootstrap.InitSpec`: the packaged baseline table is taken to parse. In the source a decode error while reading the baseline (`__init__.py:99-100`) is caught by the same handler as one from the local file (`__init__.py:136-138`), which then copies the unreadable baseline over the local file; the model has no unparsable baseline.
- Distinct glyph codes are a precondition of `Quick.MatchJjwxcFont`, `FontParser.FontService.ResolveDownload` and `FontParser.FontService.MatchJjwxcFont`. This holds for every font, because the glyphs come from a dictionary keyed by code.
