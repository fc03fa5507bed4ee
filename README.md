# Geometric table recovery of the Arabic/English OCR service, in Dafny

This project models the part of the Arabic/English OCR service that
rebuilds tables from positioned words. It also models the text
normaliser and the parts of the translation step that decide what is
sent to the translator. The pieces are:

- **Region detection** (`RegionDetection`): words are bucketed by a
  rounded vertical key. The buckets are scanned top to bottom with one open
  region, which is started, extended, committed when it has at least
  `minRows` rows, or dropped.
- **Column detection** (`ColumnDetection`): the region's left edge, the
  centres of wide gaps between word edges that no word crosses, and the
  region's right edge, thinned to a minimum spacing.
- **Page and document detection** (`TableDetection`): one table
  configuration per region, page after page.
- **Row and cell building** (`TableHandler`): words are sorted by line,
  grouped into rows around an anchor word and assigned to column
  intervals by their centre. Each cell's tokens are ordered right to left
  when the cell holds Arabic, and rows whose cells are all blank are dropped.
- **Extraction** (`PdfExtraction`): for each configuration, the words in
  its box, the column boundaries padded to the box edges, the table rows,
  and the 1-based file name a table with rows is saved under.
- **Normalisation** (`Normalizer`): Arabic and Persian digits,
  Arabic punctuation, diacritics, tatweel and letter variants are mapped
  or removed (`clean_text`). On top of that sit `is_numeric_only` and
  `has_arabic_letters`.
- **Translation** (`Translation`): the numeric test `_is_numeric`, which
  headers, index labels and cells are translated, and the names of the
  translated files.

Supporting modules:

- `Sorting`: Python's stable `sorted`, and `sorted(set(...))`.
- `Text`: `strip`, `isspace`, `isdigit`, `replace`, `join`, decimal
  formatting and path joining.
- `Geometry`: the word, box and configuration records, plus `min`/`max`
  over words.
- `Seqs` and `Wrappers`: small sequence helpers and `Option`.

Coordinates are `real`. The arithmetic of the source (spans,
midpoints, differences) is exact here. The two roundings the source
performs are parameters:

- `yKey`, the bucket key `round(top / tol) * tol`;
- `roundTop`, the sort key `round(top, 1)`.

Code outside the modelled files is also passed in as parameters:

- `hasArabic` and `fixRtl` are `has_arabic_letter` and `fix_rtl_token`;
- `translate` is the translator;
- `pageWords`, `pageWidth` and `pageHeight` are the PDF reader;
- `readCsv` is `pandas.read_csv`.

Each stateful loop of the source is a method with loop invariants, proved
against a specification function. The lemmas then state what the source
promises about that function.

Where the source's own comments and its code differ, the model follows
the code (lines of app/services/table_detection_service.py):

- **Narrow buckets.** The comment on line 102 calls the `else` branch a
  gap that closes the current region. That `else` belongs to
  `len(row_words) >= 2` on line 70, not to `x_span > 200` on line 74. A
  bucket of two or more words spanning 200 or less therefore neither
  extends nor closes the open region (`RegionDetection.NarrowBucketIgnored`).
  Only a bucket of fewer than two words closes it
  (`RegionDetection.SingleWordBucketCloses`).
- **Right edge.** The comment on line 137 says the list starts with the
  region's edges. The filter on lines 141-144 drops the right edge when it
  lies within 30 of the last boundary kept (`ColumnDetection.ColumnsRightEdge`).
  The right edge is added back only by the padding in `extract_tables`
  (`PdfExtraction.PadBoundsOrder`).
- **Spacing.** The comment on line 140 speaks of a minimum spacing of 30
  points. The test on line 143 keeps a boundary only when it lies strictly
  more than 30 beyond the last one kept (`ColumnDetection.ColumnsSpaced`).

## Model

| member | source | states |
|---|---|---|
| Sorting.SortBy | app/handlers/table_handler.py:17 | the stable sort's result is a permutation of its input, of the same length, ordered by the key |
| Sorting.SortByStable | app/handlers/table_handler.py:52 | elements with equal keys keep their input order, as Python's `sorted` (also under `reverse=True`) promises |
| Sorting.SortBySorted | app/services/table_detection_service.py:146 | sorting an already ordered sequence returns it unchanged |
| Sorting.SortReals | app/services/pdf_extraction_service.py:37 | `sorted` of reals: same length, same multiset, ascending |
| Sorting.SortRealsSorted | app/services/table_detection_service.py:146 | `sorted` of an ascending list is that list |
| Sorting.InsertDistinct | app/services/table_detection_service.py:124 | inserting into a strictly increasing list keeps it strictly increasing and adds exactly `x` to its elements |
| Sorting.SortedDistinct | app/services/table_detection_service.py:124 | `sorted(set(xs))` is strictly increasing and has exactly the elements of `xs` |
| Sorting.StrictlyIncreasingUnique | app/services/table_detection_service.py:124 | two strictly increasing lists with the same elements are equal, so `sorted(set(xs))` is determined by the set |
| Geometry.WordsIn | app/services/table_detection_service.py:34 | the overlap filter keeps exactly the words overlapping the box |
| Geometry.MinX0Spec | app/services/table_detection_service.py:72 | `min(w['x0'] ...)` is at most every word's left edge and is the left edge of some word |
| Geometry.MaxX1Spec | app/services/table_detection_service.py:72 | `max(w['x1'] ...)` is at least every word's right edge and is the right edge of some word |
| Geometry.MinX0Append | app/services/table_detection_service.py:86 | the minimum over two word lists is the smaller of their minima |
| Geometry.MaxX1Append | app/services/table_detection_service.py:87 | the maximum over two word lists is the larger of their maxima |
| Text.LeadingSpace | app/handlers/table_handler.py:41 | counts exactly the whitespace prefix: all counted characters are spaces and the next is not |
| Text.TrailingSpace | app/handlers/table_handler.py:41 | counts exactly the whitespace suffix |
| Text.Strip | app/handlers/table_handler.py:56-57 | `strip()` is no longer than its input, is empty exactly when the input is all whitespace, and has no whitespace at either end |
| Text.StripMembers | app/handlers/table_handler.py:57 | `strip()` adds no character and keeps every non-whitespace one |
| Text.StripKeepsInterior | app/handlers/table_handler.py:57 | whitespace between two non-space characters survives `strip()` |
| Text.StripIdempotent | app/utils/normalizer.py:69 | stripping twice is stripping once |
| Text.StripPadded | app/services/translation_service.py:66 | `strip()` removes exactly the whitespace around a string with no whitespace at its ends |
| Text.RemoveCharMembers | app/services/translation_service.py:66 | `replace(c, "")` keeps every character other than `c` and nothing else |
| Text.NonEmpty | app/handlers/table_handler.py:54 | `p for p in parts if p` keeps exactly the non-empty parts |
| Text.JoinBlank | app/handlers/table_handler.py:54-56 | a whitespace-joined string is blank exactly when every part is blank |
| Text.NatToString | app/services/pdf_extraction_service.py:47 | the decimal form of the counter is non-empty and made of ASCII digits |
| Text.NatToStringInjective | app/services/pdf_extraction_service.py:47 | different counters are written differently |
| RegionDetection.BucketMembers | app/services/table_detection_service.py:58-61 | the bucket of key `k` holds exactly the words whose key is `k` |
| RegionDetection.Buckets | app/services/table_detection_service.py:58-64 | `sorted(rows.items())`: one whole bucket per distinct key, keys strictly ascending, and every word's key has a bucket |
| RegionDetection.CollectBuckets | app/services/table_detection_service.py:58-61 | the defaultdict has exactly the words' keys, and each key maps to its bucket |
| RegionDetection.SortedOrder | app/services/table_detection_service.py:64 | sorting the dict's keys gives the sorted distinct keys of the words, whatever the insertion order |
| RegionDetection.GroupRowsByKey | app/services/table_detection_service.py:58-64 | the bucketing loop and sort produce the specified sorted buckets |
| RegionDetection.ScanRows | app/services/table_detection_service.py:66-109 | the scan loop returns what the step-by-step scan function returns |
| RegionDetection.BucketKey | app/services/table_detection_service.py:60-61 | every word of a bucket carries the bucket's key |
| RegionDetection.OpenWellFormed | app/services/table_detection_service.py:75-82 | a region opened on a table row is well formed |
| RegionDetection.ExtendWellFormed | app/services/table_detection_service.py:85-89 | extending by a close table row keeps the region well formed: box grows to the union, bottom moves to the new key plus `tol` |
| RegionDetection.CommitInv | app/services/table_detection_service.py:90-93 | committing keeps every region at least `minRows` rows, well formed and top to bottom |
| RegionDetection.StepKeepsInv | app/services/table_detection_service.py:68-105 | each scan step keeps the scan invariant |
| RegionDetection.FinalCommit | app/services/table_detection_service.py:107-109 | the final close of the open region keeps the invariant |
| RegionDetection.ScanFromInv | app/services/table_detection_service.py:66-111 | the scan over valid buckets returns committed, well-formed, ordered regions |
| RegionDetection.RegionsProperties | app/services/table_detection_service.py:52-111 | no words give no regions; every region has at least `minRows` well-formed rows; regions ascend |
| RegionDetection.RegionWide | app/services/table_detection_service.py:74 | every detected region is more than 200 wide |
| RegionDetection.StepTableRow | app/services/table_detection_service.py:84-100 | with a region open, a table row extends it without committing anything exactly when it starts less than `2 * tol` below the region; otherwise the region is closed and the row opens a new one |
| RegionDetection.ScanFromRun | app/services/table_detection_service.py:66-109 | scanning all buckets is scanning the rest from the state after the first `n` |
| RegionDetection.RunInv | app/services/table_detection_service.py:66-105 | the scan invariant holds before every bucket |
| RegionDetection.NarrowRun | app/services/table_detection_service.py:70-101 | a stretch of narrow buckets of two or more words leaves the scan state unchanged |
| RegionDetection.ScanFromOrigin | app/services/table_detection_service.py:66-109 | every region returned was committed already, grows out of the open region, or starts at a bucket scanned |
| RegionDetection.RowKeysBetween | app/services/table_detection_service.py:84-89 | the rows of a region have keys between its first and last row's keys |
| RegionDetection.AfterTableRow | app/services/table_detection_service.py:75-89 | after a table row the open region ends with that row, its bottom at the row's key plus `tol` |
| RegionDetection.PairOrigin | app/services/table_detection_service.py:84-109 | after two table rows with only narrow buckets between them and less than `3 * tol` apart, every region returned was committed before, holds both rows, or starts later |
| RegionDetection.AdjacentTableRowsTogether | app/services/table_detection_service.py:52-111 | two such table rows are never split: every region returned holds both or neither |
| RegionDetection.ScanFromKeepsRegions | app/services/table_detection_service.py:90-109 | a committed region stays in the result |
| RegionDetection.ScanFromEmitsOpen | app/services/table_detection_service.py:84-109 | an open region with at least `minRows` rows is returned, possibly extended by later rows |
| RegionDetection.RunChain | app/services/table_detection_service.py:75-89 | after consecutive table rows each less than `3 * tol` below the previous, the open region holds them all |
| RegionDetection.ChainEmitted | app/services/table_detection_service.py:66-109 | some region the scan returns holds `minRows` or more such chained table rows |
| RegionDetection.ChainedRowsEmitted | app/services/table_detection_service.py:52-111 | at least `minRows` consecutive table rows, each less than `3 * tol` below the previous, all lie in one region returned |
| RegionDetection.NarrowBucketIgnored | app/services/table_detection_service.py:70-101 | a bucket of two or more words spanning at most 200 changes nothing in the scan |
| RegionDetection.SingleWordBucketCloses | app/services/table_detection_service.py:101-105 | a bucket of fewer than two words commits or drops the open region and leaves none open |
| RegionDetection.DetectTableRegions | app/services/table_detection_service.py:52-111 | `_detect_table_regions` returns the specified regions: empty for no words, each with at least `minRows` well-formed rows, top to bottom |
| ColumnDetection.Edges | app/services/table_detection_service.py:119-122 | the edge list holds `x0` then `x1` of each word, in order |
| ColumnDetection.EdgeIndex | app/services/table_detection_service.py:119-122 | every edge is the left or right edge of the word at some index |
| ColumnDetection.WordEdges | app/services/table_detection_service.py:119-122 | every word contributes both of its edges |
| ColumnDetection.Crossing | app/services/table_detection_service.py:133 | the crossing list holds exactly the words strictly straddling the centre, and is empty exactly when none does |
| ColumnDetection.GapsUpTo | app/services/table_detection_service.py:127-135 | a centre is found exactly when its pair is more than 10 apart and no word crosses it; centres increase and lie between the edges |
| ColumnDetection.Thin | app/services/table_detection_service.py:141-144 | the filter keeps the first boundary, keeps only given boundaries, and consecutive kept ones are more than 30 apart |
| ColumnDetection.ThinCovers | app/services/table_detection_service.py:141-144 | for candidates in any order, every candidate `c` has a kept boundary `k` with `c - k <= 30` |
| ColumnDetection.ThinLastLe | app/services/table_detection_service.py:141-144 | thinning ordered candidates never ends beyond the last candidate |
| ColumnDetection.ThinCoversOrdered | app/services/table_detection_service.py:141-144 | for ordered candidates, every candidate lies on a kept boundary or at most 30 to its right |
| ColumnDetection.ThinKeepsLast | app/services/table_detection_service.py:141-144 | for strictly increasing candidates, the last one is kept exactly when it lies more than 30 beyond the last boundary kept among the others |
| ColumnDetection.ColumnsNoWords | app/services/table_detection_service.py:115-116 | a region without words gets exactly its two edges |
| ColumnDetection.ColumnsSpaced | app/services/table_detection_service.py:138-146 | with words, the boundaries start at the left edge and increase by more than 30 each |
| ColumnDetection.ColumnsAreGaps | app/services/table_detection_service.py:127-138 | every inner boundary is the centre of an uncrossed gap wider than 10 between two adjacent distinct edges |
| ColumnDetection.ColumnsCover | app/services/table_detection_service.py:138-144 | for any words, every gap centre and the right edge `c` have a boundary `k` with `c - k <= 30` |
| ColumnDetection.GapInside | app/services/table_detection_service.py:127-135 | for words overlapping the region horizontally, every gap centre lies strictly between its edges |
| ColumnDetection.CandidatesIncreasing | app/services/table_detection_service.py:137-138 | for such words the candidate list `[x0] + gaps + [x1]` strictly increases |
| ColumnDetection.ColumnsCoverOrdered | app/services/table_detection_service.py:138-144 | for such words every gap centre and the right edge lie on a boundary or at most 30 to its right |
| ColumnDetection.ColumnsWithin | app/services/table_detection_service.py:138-146 | for such words every boundary lies within the region |
| ColumnDetection.ColumnsRightEdge | app/services/table_detection_service.py:138-144 | with words, the right edge is kept exactly when it lies more than 30 beyond the last boundary kept before it |
| ColumnDetection.ColumnsEndNearRight | app/services/table_detection_service.py:138-144 | with words, the last boundary is the right edge or lies at most 30 to its left |
| ColumnDetection.ColumnsAtLeastTwo | app/services/table_detection_service.py:113-146 | a region wider than 30 gets at least two boundaries |
| ColumnDetection.CollectEdges | app/services/table_detection_service.py:119-122 | the edge loop builds the edge list |
| ColumnDetection.FindGaps | app/services/table_detection_service.py:127-135 | the gap loop builds the specified gap centres |
| ColumnDetection.ThinColumns | app/services/table_detection_service.py:141-144 | the spacing loop builds the specified thinned list |
| ColumnDetection.DetectColumns | app/services/table_detection_service.py:113-146 | `_detect_columns` returns the specified boundaries; the final `sorted` changes nothing |
| TableDetection.RegionWords | app/services/table_detection_service.py:34 | the words kept for a region are exactly the page's words overlapping it |
| TableDetection.RegionConfigs | app/services/table_detection_service.py:32-48 | one configuration per region, in order, on the given page, with the region's box |
| TableDetection.WideRegionColumns | app/services/table_detection_service.py:34-48 | a region wider than 200 gets at least two strictly increasing columns starting at its left edge |
| TableDetection.ConfigColumns | app/services/table_detection_service.py:24-50 | every configuration of a page has at least two strictly increasing columns starting at its box's left edge |
| TableDetection.WideRegionColumnsNearest | app/services/table_detection_service.py:34-48 | a region wider than 200 gets columns within its box, each gap centre of its words on a column or at most 30 right of one, the last column at most 30 left of the right edge |
| TableDetection.ConfigColumnsWithin | app/services/table_detection_service.py:24-50 | every configuration of a page has its columns within its box, the last at most 30 left of the box's right edge |
| TableDetection.ConfigureRegions | app/services/table_detection_service.py:32-48 | the configuration loop builds the specified configurations |
| TableDetection.DetectTablesOnPage | app/services/table_detection_service.py:24-50 | `detect_tables_on_page` returns the specified configurations |
| TableDetection.AllConfigsUpTo | app/services/table_detection_service.py:13-22 | every configuration lies on one of the pages scanned, and pages never decrease |
| TableDetection.DetectAllTables | app/services/table_detection_service.py:13-22 | `detect_all_tables` returns the configurations of all pages, page after page |
| TableHandler.RowGroupsPartition | app/handlers/table_handler.py:20-29 | the row scan cuts the sorted words, in order, into rows anchored at their first word, consecutive anchors more than `tol` apart |
| TableHandler.RowPartitionUnique | app/handlers/table_handler.py:20-29 | that anchored partition is unique: it is the scan's output |
| TableHandler.GroupRows | app/handlers/table_handler.py:20-29 | the row loop builds the specified rows |
| TableHandler.FirstColumnFrom | app/handlers/table_handler.py:39-42 | the first column from `i` whose closed interval holds `x`, or none when no later one does |
| TableHandler.ColumnOf | app/handlers/table_handler.py:39-42 | a word's column is the first interval holding its centre; none exactly when no interval holds it |
| TableHandler.ColumnOfFirstMatch | app/handlers/table_handler.py:39-42 | the first interval holding `x` is the column chosen |
| TableHandler.CellTokensMembers | app/handlers/table_handler.py:36-42 | a column holds the token of exactly the words whose centre falls first into it |
| TableHandler.AssignColumns | app/handlers/table_handler.py:36-42 | one token list per column, each the specified cell tokens |
| TableHandler.TokensAtKeyClass | app/handlers/table_handler.py:52 | tokens at one centre are one key class under both sort directions |
| TableHandler.OrderTokensSpec | app/handlers/table_handler.py:51-52 | cell tokens are a permutation, right to left by centre when Arabic, left to right otherwise, equal centres keeping their order |
| TableHandler.Parts | app/handlers/table_handler.py:53 | one fixed part per token, in order |
| TableHandler.CellTextBlank | app/handlers/table_handler.py:47-54 | an empty column gives `""`; otherwise a cell is blank exactly when all its non-empty parts are blank |
| TableHandler.BuildCell | app/handlers/table_handler.py:47-54 | the cell loop body builds the specified cell text |
| TableHandler.BuildCells | app/handlers/table_handler.py:45-54 | one cell text per column, each the specified cell |
| TableHandler.StripAll | app/handlers/table_handler.py:57 | every cell stripped, one per cell |
| TableHandler.KeptRow | app/handlers/table_handler.py:56-57 | a kept row's stripped cells are stripped and not all empty |
| TableHandler.TableRowsShape | app/handlers/table_handler.py:35-57 | every output row has one stripped cell per column with some cell non-empty, and there are no more rows than row groups |
| TableHandler.WordsToTableShape | app/handlers/table_handler.py:11-59 | no words give no rows; otherwise every row has `len(col_bounds) - 1` stripped cells, some non-empty |
| TableHandler.BuildRow | app/handlers/table_handler.py:36-57 | one row group gives its stripped cells, or nothing when all are blank |
| TableHandler.BuildTable | app/handlers/table_handler.py:35-57 | the row loop builds the specified table rows |
| TableHandler.WordsToTable | app/handlers/table_handler.py:11-59 | `words_to_table` returns the specified rows |
| PdfExtraction.BoxWordsMembers | app/services/pdf_extraction_service.py:30-34 | the filter keeps exactly the words strictly overlapping the box |
| PdfExtraction.BoxWordsAreRegionWords | app/services/pdf_extraction_service.py:30-34 | extraction selects the same words as detection's `_is_in_region` for the region's box |
| PdfExtraction.PadLeftSpec | app/services/pdf_extraction_service.py:38-39 | the left edge is prepended only when the first boundary lies right of it; order and last boundary kept |
| PdfExtraction.PadRightSpec | app/services/pdf_extraction_service.py:40-41 | the right edge is appended only when the last boundary lies left of it; order and first boundary kept |
| PdfExtraction.PadBounds | app/services/pdf_extraction_service.py:37-41 | padding adds at most two boundaries |
| PdfExtraction.PadBoundsOrder | app/services/pdf_extraction_service.py:37-41 | padded boundaries ascend, start at or left of the box and every boundary, end at or right of the box and every boundary |
| PdfExtraction.PadBoundsContents | app/services/pdf_extraction_service.py:37-41 | padding keeps every boundary and adds at most the two box edges |
| PdfExtraction.PadBoundsEdges | app/services/pdf_extraction_service.py:38-41 | an edge is added only when every boundary lies strictly inside it |
| PdfExtraction.PadDetectedBounds | app/services/pdf_extraction_service.py:37-39 | detected columns, which already start at the box edge, get nothing prepended |
| PdfExtraction.OutputPathInjective | app/services/pdf_extraction_service.py:47 | different table numbers give different file names |
| PdfExtraction.Tables | app/services/pdf_extraction_service.py:25-43 | one table per configuration, in order |
| PdfExtraction.ExtractedIndices | app/services/pdf_extraction_service.py:25-46 | the numbers of saved tables are 1-based, strictly increasing and at most the count |
| PdfExtraction.ExtractedIndicesMembers | app/services/pdf_extraction_service.py:25-46 | a number is saved exactly when its table has rows |
| PdfExtraction.ExtractedStep | app/services/pdf_extraction_service.py:46-49 | a table with rows adds its name and rows; one without adds nothing |
| PdfExtraction.ExtractTable | app/services/pdf_extraction_service.py:27-43 | the loop body builds the specified rows of one table |
| PdfExtraction.ExtractTables | app/services/pdf_extraction_service.py:15-51 | `extract_tables` names and saves, in order, exactly the tables with rows, under their 1-based numbers |
| PdfExtraction.ExtractedNamesDistinct | app/services/pdf_extraction_service.py:47-49 | no two saved tables share a file name |
| Normalizer.DigitValue | app/utils/normalizer.py:9-12 | a recognised digit has a value below ten |
| Normalizer.NumeralCharSpec | app/utils/normalizer.py:9-12 | an Arabic-Indic or Persian digit becomes the ASCII digit of the same value; other characters stay |
| Normalizer.NormalizeNumerals | app/utils/normalizer.py:36-40 | same length, no Arabic or Persian digit left, digits keep their value, everything else unchanged |
| Normalizer.NormalizeNumeralsIdempotent | app/utils/normalizer.py:36-40 | normalising numerals twice is normalising once |
| Normalizer.PunctuationCharSpec | app/utils/normalizer.py:15-22 | exactly the six Arabic marks change, each into ASCII punctuation |
| Normalizer.NormalizePunctuation | app/utils/normalizer.py:42-46 | same length, no Arabic punctuation left, other characters unchanged |
| Normalizer.RemoveDiacritics | app/utils/normalizer.py:52 | exactly the diacritics are removed; a text without them is unchanged |
| Normalizer.MapLetters | app/utils/normalizer.py:54 | one table lookup per character |
| Normalizer.LetterCharSpec | app/utils/normalizer.py:29-34 | no result is `ۀ`; `ة` results only from `ۀ`; no digit, punctuation or deleted mark is introduced |
| Normalizer.KeptLetters | app/utils/normalizer.py:52-53 | diacritic and tatweel removal keeps exactly the other characters |
| Normalizer.NormalizeLetters | app/utils/normalizer.py:48-54 | no diacritic, tatweel or `ۀ` is left, and every kept character appears mapped |
| Normalizer.LetterMapNotChained | app/utils/normalizer.py:33 | `ۀ` becomes `ة`, and `ة` becomes `ه` only on a second pass |
| Normalizer.NormalizeLettersNotIdempotent | app/utils/normalizer.py:48-54 | a text holding `ۀ` changes on a second pass |
| Normalizer.NumeralsAndPunctuationGone | app/utils/normalizer.py:66-67 | after the first two steps no Arabic or Persian digit and no Arabic punctuation is left |
| Normalizer.CleanTextSpec | app/utils/normalizer.py:56-69 | the cleaned text has no outer whitespace, no Arabic or Persian digit, no Arabic punctuation, no diacritic or tatweel |
| Normalizer.RemoveAllSpec | app/utils/normalizer.py:79-80 | the removal loop keeps exactly the characters not removed |
| Normalizer.IsNumericOnly | app/utils/normalizer.py:71-86 | `is_numeric_only` returns the specified value |
| Normalizer.RemoveFinancial | app/utils/normalizer.py:79-80 | the loop removes each financial symbol in turn |
| Normalizer.NumericOnlySpec | app/utils/normalizer.py:76-86 | numeric-only exactly when every cleaned character that is not a financial symbol is a digit |
| Normalizer.HasArabicLetters | app/utils/normalizer.py:88-93 | true exactly when some character lies in the pattern's ranges |
| Normalizer.PersianDigitCountsAsLetter | app/utils/normalizer.py:92-93 | the Persian digit `۱` counts as an Arabic letter and is numeric-only at once |
| Normalizer.HasArabicLettersIntended | app/utils/normalizer.py:88-93 | true exactly when some character is an Arabic letter outside the digit range; implies the as-written test |
| Normalizer.ArabicLetterClass | app/utils/normalizer.py:29-34 | an Arabic letter is no space, digit, financial symbol, punctuation or deleted mark, and stays a letter under the letter table |
| Normalizer.LetterSurvivesCleaning | app/utils/normalizer.py:56-69 | an Arabic letter survives `clean_text`, mapped to an Arabic letter |
| Normalizer.ArabicLettersNotNumeric | app/utils/normalizer.py:71-93 | a text with an Arabic letter, read as intended, is never numeric-only |
| Translation.NumericCoreSpec | app/services/translation_service.py:66 | the cleaned string keeps only non-separators, every non-space non-separator, and is empty exactly when the input is separators and whitespace |
| Translation.IsNumericSpec | app/services/translation_service.py:64-67 | numeric exactly when every cleaned character is a digit; the extra Arabic-Indic list adds nothing |
| Translation.DigitsAndSeparatorsAreNumeric | app/services/translation_service.py:64-67 | digits mixed with `,`, `.` and `%` are numeric |
| Translation.BlankIsNumeric | app/services/translation_service.py:67 | a string of separators and whitespace, the empty one included, is numeric |
| Translation.OtherCharIsNotNumeric | app/services/translation_service.py:64-67 | any other character makes the string non-numeric |
| Translation.PaddedCore | app/services/translation_service.py:66 | cleaning digits with outer whitespace leaves exactly the digits |
| Translation.PaddedNumberIsNumeric | app/services/translation_service.py:66-67 | digits with outer whitespace are numeric |
| Translation.SpacedNumberIsNotNumeric | app/services/translation_service.py:66-67 | digits with inner whitespace are not numeric |
| Translation.PaddedExample | app/services/translation_service.py:66-67 | `" 12 "` is numeric |
| Translation.SpacedExample | app/services/translation_service.py:66-67 | `"1 2"` is not numeric |
| Translation.TranslateLabels | app/services/translation_service.py:43-52 | one label per label, translated exactly when a string |
| Translation.TranslateColumn | app/services/translation_service.py:56-60 | one cell per cell, translated exactly when a non-missing non-numeric string |
| Translation.TranslatedShape | app/services/translation_service.py:40-62 | translation keeps a frame's shape |
| Translation.TranslatedFrameUnique | app/services/translation_service.py:40-62 | the translation relation determines the result uniquely |
| Translation.TranslateDataFrame | app/services/translation_service.py:38-62 | `_translate_dataframe` returns the frame with labels and cells translated by the rules above |
| Translation.UntranslatedCellsKept | app/services/translation_service.py:57-59 | missing values, numbers and numeric strings are left as they are |
| Translation.LastIndexOfSpec | app/services/translation_service.py:32 | the index found holds the character and no later position does |
| Translation.BaseNameNoSlash | app/services/translation_service.py:32 | a file name holds no `/` |
| Translation.BaseNameIsSuffix | app/services/translation_service.py:32 | the file name is the path's tail after its last `/` |
| Translation.TranslatedExtractedName | app/services/translation_service.py:32 | an extracted table's file is translated to `<file_id>_table_<n>_translated.csv` in the output directory |
| Translation.StemOfCsv | app/services/translation_service.py:32 | the stem of `b.csv` is `b` |
| Translation.TranslateFile | app/services/translation_service.py:23-34 | one loop pass names the output after the input's stem and translates the frame read |
| Translation.TranslateTables | app/services/translation_service.py:14-36 | `translate_tables` gives one name and one translated frame per input file, in order |

## Left out

- Reading PDFs, CSV files and page sizes is passed in as functions. Writing CSV files (`save_table_to_csv`, `to_csv`, the `utf-8-sig` encoding) is not modelled; the methods return what would be written.
- The bucket key `round(top / tol) * tol` and the line key `round(top, 1)` use Python float rounding. They are the parameters `yKey` and `roundTop`, and no property of rounding is assumed.
- Float arithmetic is modelled on exact reals; rounding errors in spans, midpoints and comparisons are not captured.
- `Text.IsDigit`: weaker than Python's `str.isdigit`, which holds for hundreds of other Unicode digit characters. The model recognises ASCII, Arabic-Indic and extended Arabic-Indic digits only.
- `isinstance` checks: the normaliser is modelled on strings only, so its pass-through of non-strings is left out. The translator's checks are modelled by the `Value` datatype (string, missing, number).
- `PdfExtraction.ExtractTables` requires every configuration to have columns: `col_bounds[0]` raises `IndexError` on an empty list, and detected configurations always have at least two (`TableDetection.ConfigColumns`).
- `PdfExtraction.PadBoundsEdges`: requires a box of positive width. Detected regions always have one (`RegionDetection.RegionWide`).
- The ordered column lemmas (`ColumnsCoverOrdered`, `ColumnsWithin`, `ColumnsRightEdge`, `ColumnsEndNearRight`) require the words to overlap the region horizontally, which line 34 of app/services/table_detection_service.py guarantees for every word list `_detect_columns` receives (`TableDetection.WideRegionColumnsNearest`). For arbitrary word lists a gap centre can lie outside the region and only the one-sided `ColumnsCover` holds.
- `Path` handling is string joining with `/` and `rfind`. Normalisation of `.`, `..` and repeated or trailing slashes is not modelled.
- `PDFHandler`, `arabic_utils`, the translator model, the controller, the configuration and the web application are not part of this model.
- Pandas details beyond labels and cells (dtypes, NaN parsing, duplicated labels) are not modelled.
- The `TableDetectionService` and `Normalizer` objects hold no state that changes after construction; they are modelled as functions and methods without a class.

## Findings

| source | as written | input that shows it | evidently intended | confidence | as-written member | corrected member |
|---|---|---|---|---|---|---|
| app/utils/normalizer.py:92-93 | the range `۰-ۼ` includes the Persian digits U+06F0–U+06F9 | `"۱"`: `has_arabic_letters` is true, yet `is_numeric_only` is also true | letters only, as the comment "excludes numerals" says: the range starts at U+06FA | not executed | Normalizer.PersianDigitCountsAsLetter | Normalizer.ArabicLettersNotNumeric |
