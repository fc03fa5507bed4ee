/**
 * `PDFExtractionService.extract_tables` of
 * app/services/pdf_extraction_service.py: for every table configuration,
 * the words inside its box, its column boundaries padded to the box, the
 * table rows, and the 1-based name of the CSV file written for it.
 *
 * Reading a page's words is the parameter `pageWords`; writing the CSV is
 * not modelled, and the method returns the rows it would write instead.
 */
module PdfExtraction {
  import opened Seqs
  import opened Sorting
  import opened Geometry
  import opened Text
  import opened RegionDetection
  import opened TableDetection
  import opened TableHandler

  /** Lines 32-33: the word overlaps the box strictly on both axes. */
  predicate InBox(w: Word, b: BoundingBox) {
    w.x1 > b.x0 && w.x0 < b.x1 && w.bottom > b.y0 && w.top < b.y1
  }

  /** Lines 30-34: the words of the page inside the box, in page order. */
  function BoxWords(words: seq<Word>, b: BoundingBox): (r: seq<Word>)
    ensures |r| <= |words|
    decreases |words|
  {
    if words == [] then [] else (if InBox(words[0], b) then [words[0]] else []) + BoxWords(words[1..], b)
  }

  /** The filter keeps exactly the words inside the box. */
  lemma {:induction false} BoxWordsMembers(words: seq<Word>, b: BoundingBox)
    ensures forall w :: w in BoxWords(words, b) <==> w in words && InBox(w, b)
    decreases |words|
  {
    if words != [] {
      BoxWordsMembers(words[1..], b);
      assert words == [words[0]] + words[1..];
    }
  }

  /** The extraction filter is the region test of table detection: a region's table gets the words detection saw. */
  lemma BoxWordsAreRegionWords(words: seq<Word>, r: Region)
    ensures BoxWords(words, RegionBox(r)) == RegionWords(words, r)
    decreases |words|
  {
    if words != [] {
      BoxWordsAreRegionWords(words[1..], r);
      assert words == [words[0]] + words[1..];
    }
  }

  lemma NonDecreasingEnds(s: seq<real>)
    requires s != [] && NonDecreasing(s)
    ensures forall c :: c in s ==> s[0] <= c <= Last(s)
  {
    forall c | c in s ensures s[0] <= c <= Last(s) {
      var k :| 0 <= k < |s| && s[k] == c;
    }
  }

  /** Lines 38-39: the left edge goes in front when every boundary lies right of it. */
  function PadLeft(s: seq<real>, x0: real): seq<real>
    requires s != []
  {
    if s[0] > x0 then [x0] + s else s
  }

  /** Lines 40-41: the right edge goes at the back when every boundary lies left of it. */
  function PadRight(a: seq<real>, x1: real): seq<real>
    requires a != []
  {
    if Last(a) < x1 then a + [x1] else a
  }

  lemma PadLeftSpec(s: seq<real>, x0: real)
    requires s != [] && NonDecreasing(s)
    ensures var a := PadLeft(s, x0);
      a != [] && NonDecreasing(a) && a[0] <= x0 && a[0] <= s[0] && Last(a) == Last(s)
    ensures var a := PadLeft(s, x0);
      multiset(s) <= multiset(a) <= multiset(s) + multiset{x0}
    ensures multiset(PadLeft(s, x0))[x0] > multiset(s)[x0] ==> x0 < s[0]
  {
    if s[0] > x0 {
      var a := [x0] + s;
      assert forall i :: 1 <= i < |a| ==> a[i] == s[i - 1];
    }
  }

  lemma PadRightSpec(a: seq<real>, x1: real)
    requires a != [] && NonDecreasing(a)
    ensures var r := PadRight(a, x1);
      r != [] && NonDecreasing(r) && Last(r) >= x1 && Last(r) >= Last(a) && r[0] == a[0]
    ensures var r := PadRight(a, x1);
      multiset(a) <= multiset(r) <= multiset(a) + multiset{x1}
    ensures multiset(PadRight(a, x1))[x1] > multiset(a)[x1] ==> Last(a) < x1
  {
    if Last(a) < x1 {
      var r := a + [x1];
      assert forall i :: 0 <= i < |a| ==> r[i] == a[i];
    }
  }

  /** Lines 37-41: the boundaries sorted, with the box edges added where they lie outside. */
  function PadBounds(columns: seq<real>, b: BoundingBox): (r: seq<real>)
    requires columns != []
    ensures |columns| <= |r| <= |columns| + 2
  {
    PadRight(PadLeft(SortReals(columns), b.x0), b.x1)
  }

  /** Multiset membership of a sorted copy is membership of the original. */
  lemma SortedSameElements(columns: seq<real>)
    ensures forall c :: c in columns <==> c in SortReals(columns)
  {
    var s := SortReals(columns);
    forall c ensures c in columns <==> c in s {
      assert c in columns <==> c in multiset(columns);
      assert c in s <==> c in multiset(s);
    }
  }

  /**
   * After padding the boundaries ascend; the first lies at or left of the
   * box's left edge and at or below every boundary, the last at or right
   * of the right edge and at or above every boundary.
   */
  lemma PadBoundsOrder(columns: seq<real>, b: BoundingBox)
    requires columns != []
    ensures var r := PadBounds(columns, b);
      && (forall i, j :: 0 <= i < j < |r| ==> r[i] <= r[j])
      && r[0] <= b.x0 && (forall c :: c in columns ==> r[0] <= c)
      && Last(r) >= b.x1 && (forall c :: c in columns ==> c <= Last(r))
  {
    var s := SortReals(columns);
    NonDecreasingEnds(s);
    SortedSameElements(columns);
    PadLeftSpec(s, b.x0);
    PadRightSpec(PadLeft(s, b.x0), b.x1);
  }

  /** The padded boundaries are the sorted ones plus whichever edges were added. */
  lemma PadMultiset(s: seq<real>, x0: real, x1: real)
    requires s != []
    ensures multiset(PadRight(PadLeft(s, x0), x1)) ==
      multiset(s) + (if s[0] > x0 then multiset{x0} else multiset{})
        + (if Last(s) < x1 then multiset{x1} else multiset{})
  {
    var a := PadLeft(s, x0);
    assert Last(a) == Last(s);
    assert multiset(a) == multiset(s) + (if s[0] > x0 then multiset{x0} else multiset{});
  }

  /** Padding keeps every boundary and adds at most the two edges. */
  lemma PadBoundsContents(columns: seq<real>, b: BoundingBox)
    requires columns != []
    ensures multiset(columns) <= multiset(PadBounds(columns, b))
    ensures multiset(PadBounds(columns, b)) <= multiset(columns) + multiset{b.x0, b.x1}
  {
    var s := SortReals(columns);
    PadMultiset(s, b.x0, b.x1);
  }

  /**
   * Each edge is added only when every boundary lies strictly inside it
   * (for a box of positive width, as every detected region is).
   */
  lemma PadBoundsEdges(columns: seq<real>, b: BoundingBox)
    requires columns != [] && b.x0 < b.x1
    ensures var r := PadBounds(columns, b);
      multiset(r)[b.x0] > multiset(columns)[b.x0] ==> forall c :: c in columns ==> b.x0 < c
    ensures var r := PadBounds(columns, b);
      multiset(r)[b.x1] > multiset(columns)[b.x1] ==> forall c :: c in columns ==> c < b.x1
  {
    var s := SortReals(columns);
    var a := PadLeft(s, b.x0);
    var r := PadRight(a, b.x1);
    PadLeftSpec(s, b.x0);
    PadRightSpec(a, b.x1);
    assert multiset(r)[b.x0] == multiset(a)[b.x0] by {
      assert multiset(a)[b.x0] <= multiset(r)[b.x0] <= (multiset(a) + multiset{b.x1})[b.x0];
    }
    assert multiset(a)[b.x1] == multiset(s)[b.x1] by {
      assert multiset(s)[b.x1] <= multiset(a)[b.x1] <= (multiset(s) + multiset{b.x0})[b.x1];
    }
    NonDecreasingEnds(s);
    SortedSameElements(columns);
  }

  /** Columns from detection already start at the box's left edge: nothing is prepended. */
  lemma PadDetectedBounds(columns: seq<real>, b: BoundingBox)
    requires columns != [] && columns[0] == b.x0 && StrictlyIncreasing(columns)
    ensures PadBounds(columns, b)[..|columns|] == columns
  {
    SortRealsSorted(columns);
  }

  /** The rows extracted for one configuration (lines 27-43). */
  function TableOf(config: TableConfig, pageWords: int -> seq<Word>, roundTop: real -> real,
                   hasArabic: string -> bool, fixRtl: string -> string): seq<seq<string>>
    requires config.columns != []
  {
    WordsToTableSpec(BoxWords(pageWords(config.page), config.bbox), PadBounds(config.columns, config.bbox),
                     DefaultYTolerance, roundTop, hasArabic, fixRtl)
  }

  /** Line 47: `Path(output_dir) / f"{file_id}_table_{idx}.csv"`. */
  function OutputPath(outputDir: string, fileId: string, idx: nat): string {
    JoinPath(outputDir, fileId + "_table_" + NatToString(idx) + ".csv")
  }

  /** Different tables get different file names. */
  lemma OutputPathInjective(outputDir: string, fileId: string, j: nat, k: nat)
    requires OutputPath(outputDir, fileId, j) == OutputPath(outputDir, fileId, k)
    ensures j == k
  {
    var pre := outputDir + "/" + fileId + "_table_";
    var sj, sk := NatToString(j), NatToString(k);
    var pj := pre + sj + ".csv";
    var pk := pre + sk + ".csv";
    assert OutputPath(outputDir, fileId, j) == pj;
    assert OutputPath(outputDir, fileId, k) == pk;
    assert |sj| == |sk|;
    assert sj == pj[|pre|..|pre| + |sj|];
    assert sk == pk[|pre|..|pre| + |sk|];
    NatToStringInjective(j, k);
  }

  predicate AllHaveColumns(configs: seq<TableConfig>) {
    forall i :: 0 <= i < |configs| ==> configs[i].columns != []
  }

  /** The rows extracted for each configuration, in order. */
  function Tables(configs: seq<TableConfig>, pageWords: int -> seq<Word>, roundTop: real -> real,
                  hasArabic: string -> bool, fixRtl: string -> string): (ts: seq<seq<seq<string>>>)
    requires AllHaveColumns(configs)
    ensures |ts| == |configs|
    ensures forall i :: 0 <= i < |configs| ==> ts[i] == TableOf(configs[i], pageWords, roundTop, hasArabic, fixRtl)
  {
    seq(|configs|, i requires 0 <= i < |configs| => TableOf(configs[i], pageWords, roundTop, hasArabic, fixRtl))
  }

  /** Lines 25 and 46: the 1-based numbers of the first `n` tables that have rows. */
  function ExtractedIndices(ts: seq<seq<seq<string>>>, n: nat): (ks: seq<nat>)
    requires n <= |ts|
    ensures |ks| <= n
    ensures forall i :: 0 <= i < |ks| ==> 1 <= ks[i] <= n
    ensures forall i, j :: 0 <= i < j < |ks| ==> ks[i] < ks[j]
    decreases n
  {
    if n == 0 then []
    else
      var prev := ExtractedIndices(ts, n - 1);
      if ts[n - 1] != [] then prev + [n] else prev
  }

  /** Exactly the tables that have rows are numbered. */
  lemma {:induction false} ExtractedIndicesMembers(ts: seq<seq<seq<string>>>, n: nat)
    requires n <= |ts|
    ensures forall k :: k in ExtractedIndices(ts, n) <==> 1 <= k <= n && ts[k - 1] != []
  {
    if n > 0 {
      ExtractedIndicesMembers(ts, n - 1);
    }
  }

  /**
   * `files` and `saved` hold, for each of the first `n` tables that has
   * rows, its 1-based file name and its rows, in order.
   */
  predicate Extracted(files: seq<string>, saved: seq<seq<seq<string>>>, ts: seq<seq<seq<string>>>,
                      n: nat, outputDir: string, fileId: string)
    requires n <= |ts|
  {
    var ks := ExtractedIndices(ts, n);
    && |files| == |ks| == |saved|
    && (forall j :: 0 <= j < |ks| ==> files[j] == OutputPath(outputDir, fileId, ks[j]))
    && (forall j :: 0 <= j < |ks| ==> saved[j] == ts[ks[j] - 1])
  }

  lemma ExtractedStep(files: seq<string>, saved: seq<seq<seq<string>>>, ts: seq<seq<seq<string>>>,
                      n: nat, outputDir: string, fileId: string)
    requires n < |ts| && Extracted(files, saved, ts, n, outputDir, fileId)
    ensures ts[n] != [] ==>
      Extracted(files + [OutputPath(outputDir, fileId, n + 1)], saved + [ts[n]], ts, n + 1, outputDir, fileId)
    ensures ts[n] == [] ==> Extracted(files, saved, ts, n + 1, outputDir, fileId)
  {
    var ks := ExtractedIndices(ts, n);
    if ts[n] != [] {
      var ks' := ExtractedIndices(ts, n + 1);
      assert ks' == ks + [n + 1];
      var files' := files + [OutputPath(outputDir, fileId, n + 1)];
      var saved' := saved + [ts[n]];
      assert forall j :: 0 <= j < |ks| ==> files'[j] == files[j] && saved'[j] == saved[j] && ks'[j] == ks[j];
    } else {
      assert ExtractedIndices(ts, n + 1) == ks;
    }
  }

  /** `extract_tables` (lines 15-51), returning the file names and the rows saved under each. */
  method ExtractTables(tableConfigs: seq<TableConfig>, outputDir: string, fileId: string,
                       pageWords: int -> seq<Word>, roundTop: real -> real,
                       hasArabic: string -> bool, fixRtl: string -> string)
    returns (extractedFiles: seq<string>, savedTables: seq<seq<seq<string>>>)
    requires AllHaveColumns(tableConfigs)
    ensures var ts := Tables(tableConfigs, pageWords, roundTop, hasArabic, fixRtl);
      Extracted(extractedFiles, savedTables, ts, |ts|, outputDir, fileId)
  {
    ghost var ts := Tables(tableConfigs, pageWords, roundTop, hasArabic, fixRtl);
    extractedFiles := [];
    savedTables := [];
    for i := 0 to |tableConfigs|
      invariant Extracted(extractedFiles, savedTables, ts, i, outputDir, fileId)
    {
      var idx := i + 1;
      var tableRows := ExtractTable(tableConfigs[i], pageWords, roundTop, hasArabic, fixRtl);
      assert tableRows == ts[i];
      ExtractedStep(extractedFiles, savedTables, ts, i, outputDir, fileId);
      if tableRows != [] {
        var outputPath := JoinPath(outputDir, fileId + "_table_" + NatToString(idx) + ".csv");
        savedTables := savedTables + [tableRows];
        extractedFiles := extractedFiles + [outputPath];
      }
    }
  }

  /** Lines 27-43: the rows of one configuration's table. */
  method ExtractTable(config: TableConfig, pageWords: int -> seq<Word>, roundTop: real -> real,
                      hasArabic: string -> bool, fixRtl: string -> string)
    returns (tableRows: seq<seq<string>>)
    requires config.columns != []
    ensures tableRows == TableOf(config, pageWords, roundTop, hasArabic, fixRtl)
  {
    var allWords := pageWords(config.page);
    var bbox := config.bbox;
    var words := BoxWords(allWords, bbox);

    var colBounds := SortReals(config.columns);
    ghost var sorted := colBounds;
    if colBounds[0] > bbox.x0 {
      colBounds := [bbox.x0] + colBounds;
    }
    assert colBounds == PadLeft(sorted, bbox.x0);
    ghost var left := colBounds;
    if colBounds[|colBounds| - 1] < bbox.x1 {
      colBounds := colBounds + [bbox.x1];
    }
    assert colBounds == PadRight(left, bbox.x1);

    tableRows := WordsToTable(words, colBounds, DefaultYTolerance, roundTop, hasArabic, fixRtl);
  }

  /** No two extracted tables are saved under the same name. */
  lemma ExtractedNamesDistinct(ts: seq<seq<seq<string>>>, outputDir: string, fileId: string, i: nat, j: nat)
    requires i < j < |ExtractedIndices(ts, |ts|)|
    ensures var ks := ExtractedIndices(ts, |ts|);
      OutputPath(outputDir, fileId, ks[i]) != OutputPath(outputDir, fileId, ks[j])
  {
    var ks := ExtractedIndices(ts, |ts|);
    if OutputPath(outputDir, fileId, ks[i]) == OutputPath(outputDir, fileId, ks[j]) {
      OutputPathInjective(outputDir, fileId, ks[i], ks[j]);
    }
  }
}
