/**
 * `detect_tables_on_page`, `detect_all_tables` and `_is_in_region` of
 * app/services/table_detection_service.py, with the page's words and
 * dimensions passed in.
 */
module TableDetection {
  import opened Seqs
  import opened Sorting
  import opened Geometry
  import opened RegionDetection
  import opened ColumnDetection

  function RegionBox(r: Region): BoundingBox {
    BoundingBox(r.x0, r.y0, r.x1, r.y1)
  }

  /** Lines 148-151: the word overlaps the region strictly on both axes. */
  predicate IsInRegion(w: Word, r: Region) {
    w.x0 < r.x1 && w.x1 > r.x0 && w.top < r.y1 && w.bottom > r.y0
  }

  /** Line 34: the words of the page the region overlaps, in page order. */
  function RegionWords(words: seq<Word>, r: Region): (rw: seq<Word>)
    ensures forall w :: w in rw <==> w in words && IsInRegion(w, r)
    ensures |rw| <= |words|
  {
    WordsIn(words, RegionBox(r))
  }

  /** Lines 34-48: the configuration one region yields. */
  function ConfigOf(r: Region, words: seq<Word>, page: int, pdfW: real, pdfH: real): TableConfig {
    TableConfig(page, RegionBox(r), Columns(RegionWords(words, r), r.x0, r.x1), pdfW, pdfH)
  }

  function PageRegions(words: seq<Word>, yKey: real -> real): seq<Region> {
    Regions(words, DefaultMinRows, DefaultRowTolerance, yKey)
  }

  /** One configuration per region, in region order. */
  function RegionConfigs(rs: seq<Region>, words: seq<Word>, page: int, pdfW: real, pdfH: real)
    : (cs: seq<TableConfig>)
    ensures |cs| == |rs|
    ensures forall i :: 0 <= i < |rs| ==> cs[i].page == page && cs[i].bbox == RegionBox(rs[i])
    ensures forall c :: c in cs ==> c.page == page
  {
    seq(|rs|, i requires 0 <= i < |rs| => ConfigOf(rs[i], words, page, pdfW, pdfH))
  }

  /** What `detect_tables_on_page` returns. */
  function PageConfigs(words: seq<Word>, page: int, pdfW: real, pdfH: real, yKey: real -> real)
    : seq<TableConfig>
  {
    RegionConfigs(PageRegions(words, yKey), words, page, pdfW, pdfH)
  }

  /** A region wider than `MinTableWidth` gets columns starting at its left edge, at least two, increasing. */
  lemma WideRegionColumns(r: Region, words: seq<Word>, page: int, pdfW: real, pdfH: real)
    requires r.x1 - r.x0 > MinTableWidth
    ensures var c := ConfigOf(r, words, page, pdfW, pdfH);
      && c.columns[0] == c.bbox.x0
      && StrictlyIncreasing(c.columns)
      && |c.columns| >= 2
  {
    var rw := RegionWords(words, r);
    ColumnsAtLeastTwo(rw, r.x0, r.x1);
    if rw != [] {
      ColumnsSpaced(rw, r.x0, r.x1);
    }
  }

  /**
   * For a region wider than `MinTableWidth`, the words of line 34 overlap it,
   * so its boundaries lie within its box, every gap centre between those
   * words lies on or at most `MinColumnSpacing` right of a boundary, and
   * the last boundary is the right edge or at most `MinColumnSpacing` left
   * of it.
   */
  lemma WideRegionColumnsNearest(r: Region, words: seq<Word>, page: int, pdfW: real, pdfH: real)
    requires r.x1 - r.x0 > MinTableWidth
    ensures var c := ConfigOf(r, words, page, pdfW, pdfH);
      && (forall x :: x in c.columns ==> c.bbox.x0 <= x <= c.bbox.x1)
      && Last(c.columns) <= c.bbox.x1 && c.bbox.x1 - Last(c.columns) <= MinColumnSpacing
      && (forall g :: g in Gaps(SortedDistinct(Edges(RegionWords(words, r))), RegionWords(words, r)) ==>
            exists k :: k in c.columns && k <= g && g - k <= MinColumnSpacing)
  {
    var rw := RegionWords(words, r);
    assert WithinSpan(rw, r.x0, r.x1) by {
      forall j | 0 <= j < |rw| ensures rw[j].x0 < r.x1 && r.x0 < rw[j].x1 {
        assert rw[j] in rw;
      }
    }
    ColumnsWithin(rw, r.x0, r.x1);
    if rw != [] {
      ColumnsEndNearRight(rw, r.x0, r.x1);
      forall g | g in Gaps(SortedDistinct(Edges(rw)), rw)
        ensures exists k :: k in Columns(rw, r.x0, r.x1) && k <= g && g - k <= MinColumnSpacing
      {
        ColumnsCoverOrdered(rw, r.x0, r.x1, g);
      }
    } else {
      assert Gaps(SortedDistinct(Edges(rw)), rw) == [];
    }
  }

  /**
   * The columns of every detected table start at its left edge, strictly
   * increase, and there are at least two of them.
   */
  lemma ConfigColumns(words: seq<Word>, page: int, pdfW: real, pdfH: real, yKey: real -> real, i: nat)
    requires i < |PageRegions(words, yKey)|
    ensures var c := PageConfigs(words, page, pdfW, pdfH, yKey)[i];
      && c.columns[0] == c.bbox.x0
      && StrictlyIncreasing(c.columns)
      && |c.columns| >= 2
  {
    var rs := PageRegions(words, yKey);
    var r := rs[i];
    assert WellFormed(r, words, yKey, DefaultRowTolerance) by {
      RegionsProperties(words, DefaultMinRows, DefaultRowTolerance, yKey);
      assert r in rs;
    }
    RegionWide(r, words, yKey, DefaultRowTolerance);
    WideRegionColumns(r, words, page, pdfW, pdfH);
    assert PageConfigs(words, page, pdfW, pdfH, yKey)[i] == ConfigOf(r, words, page, pdfW, pdfH);
  }

  /**
   * The columns of every detected table lie within its box, and the last
   * one is its right edge or at most `MinColumnSpacing` left of it.
   */
  lemma ConfigColumnsWithin(words: seq<Word>, page: int, pdfW: real, pdfH: real, yKey: real -> real, i: nat)
    requires i < |PageRegions(words, yKey)|
    ensures var c := PageConfigs(words, page, pdfW, pdfH, yKey)[i];
      && (forall x :: x in c.columns ==> c.bbox.x0 <= x <= c.bbox.x1)
      && Last(c.columns) <= c.bbox.x1 && c.bbox.x1 - Last(c.columns) <= MinColumnSpacing
  {
    var rs := PageRegions(words, yKey);
    var r := rs[i];
    assert WellFormed(r, words, yKey, DefaultRowTolerance) by {
      RegionsProperties(words, DefaultMinRows, DefaultRowTolerance, yKey);
      assert r in rs;
    }
    RegionWide(r, words, yKey, DefaultRowTolerance);
    WideRegionColumnsNearest(r, words, page, pdfW, pdfH);
    assert PageConfigs(words, page, pdfW, pdfH, yKey)[i] == ConfigOf(r, words, page, pdfW, pdfH);
  }

  /** Lines 32-48: the configuration of every region. */
  method ConfigureRegions(tableRegions: seq<Region>, words: seq<Word>, pageNum: int, pdfW: real, pdfH: real)
    returns (configs: seq<TableConfig>)
    ensures configs == RegionConfigs(tableRegions, words, pageNum, pdfW, pdfH)
  {
    ghost var spec := RegionConfigs(tableRegions, words, pageNum, pdfW, pdfH);
    configs := [];
    for i := 0 to |tableRegions|
      invariant configs == spec[..i]
    {
      var region := tableRegions[i];
      var regionWords := RegionWords(words, region);
      var columns := DetectColumns(regionWords, region);
      configs := configs + [TableConfig(pageNum, BoundingBox(region.x0, region.y0, region.x1, region.y1),
                                        columns, pdfW, pdfH)];
      assert spec[..i + 1] == spec[..i] + [spec[i]];
    }
    assert spec[..|tableRegions|] == spec;
  }

  /** Lines 24-50, with the page's words and dimensions passed in. */
  method DetectTablesOnPage(words: seq<Word>, pageNum: int, pdfW: real, pdfH: real, yKey: real -> real)
    returns (configs: seq<TableConfig>)
    ensures configs == PageConfigs(words, pageNum, pdfW, pdfH, yKey)
  {
    var tableRegions := DetectTableRegions(words, pdfH, DefaultMinRows, DefaultRowTolerance, yKey);
    configs := ConfigureRegions(tableRegions, words, pageNum, pdfW, pdfH);
  }

  /** The configurations of pages `0 .. n - 1`, page after page. */
  function AllConfigsUpTo(n: nat, pageWords: int -> seq<Word>, pageWidth: int -> real,
                          pageHeight: int -> real, yKey: real -> real): (cs: seq<TableConfig>)
    ensures forall c :: c in cs ==> 0 <= c.page < n
    ensures forall i, j :: 0 <= i < j < |cs| ==> cs[i].page <= cs[j].page
    decreases n
  {
    if n == 0 then []
    else
      var prev := AllConfigsUpTo(n - 1, pageWords, pageWidth, pageHeight, yKey);
      var page := PageConfigs(pageWords(n - 1), n - 1, pageWidth(n - 1), pageHeight(n - 1), yKey);
      var cs := prev + page;
      assert forall i, j :: 0 <= i < j < |cs| ==> cs[i].page <= cs[j].page by {
        forall i, j | 0 <= i < j < |cs| ensures cs[i].page <= cs[j].page {
          if j < |prev| {
            assert cs[i] == prev[i] && cs[j] == prev[j];
          } else if i < |prev| {
            assert cs[i] in prev && cs[j] in page;
          } else {
            assert cs[i] in page && cs[j] in page;
          }
        }
      }
      assert forall c :: c in cs ==> c in prev || c in page;
      cs
  }

  /** Lines 13-22, with the page source passed in: all pages' configurations, pages ascending. */
  method DetectAllTables(pageCount: nat, pageWords: int -> seq<Word>, pageWidth: int -> real,
                         pageHeight: int -> real, yKey: real -> real)
    returns (allConfigs: seq<TableConfig>)
    ensures allConfigs == AllConfigsUpTo(pageCount, pageWords, pageWidth, pageHeight, yKey)
  {
    allConfigs := [];
    for pageNum := 0 to pageCount
      invariant allConfigs == AllConfigsUpTo(pageNum, pageWords, pageWidth, pageHeight, yKey)
    {
      var pageConfigs := DetectTablesOnPage(pageWords(pageNum), pageNum, pageWidth(pageNum),
                                            pageHeight(pageNum), yKey);
      allConfigs := allConfigs + pageConfigs;
    }
  }
}
