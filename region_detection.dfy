/**
 * `_detect_table_regions` of app/services/table_detection_service.py.
 *
 * Words are bucketed by a rounded vertical key; the buckets are scanned
 * top to bottom with one open region that is started, extended, committed
 * (when it has at least `minRows` rows) or dropped.
 *
 * The bucket key `round(top / tol) * tol` uses Python's float rounding and is
 * taken as the parameter `yKey`.
 */
module RegionDetection {
  import opened Wrappers
  import opened Seqs
  import opened Sorting
  import opened Geometry

  const DefaultMinRows: nat := 3
  const DefaultRowTolerance: real := 12.0
  /** A bucket must span more than this to look like a table row. */
  const MinTableWidth: real := 200.0

  /** The region dict: its box and the bucket word lists it was built from. */
  datatype Region = Region(x0: real, x1: real, y0: real, y1: real, rows: seq<seq<Word>>)

  /** One item of `sorted(rows.items())`. */
  datatype RowBucket = RowBucket(key: real, words: seq<Word>)

  /** The scan's state: `current_region` and `regions`. */
  datatype ScanState = ScanState(current: Option<Region>, regions: seq<Region>)

  /** The words whose bucket key is `k`, in input order (`rows[k]`). */
  function Bucket(words: seq<Word>, yKey: real -> real, k: real): seq<Word>
    decreases |words|
  {
    if words == [] then []
    else Bucket(words[..|words| - 1], yKey, k) + (if yKey(Last(words).top) == k then [Last(words)] else [])
  }

  /** The bucket of `k` holds exactly the words whose key is `k`. */
  lemma {:induction false} BucketMembers(words: seq<Word>, yKey: real -> real, k: real)
    ensures forall w :: w in Bucket(words, yKey, k) ==> w in words && yKey(w.top) == k
    ensures forall w :: w in words && yKey(w.top) == k ==> w in Bucket(words, yKey, k)
    decreases |words|
  {
    if words != [] {
      var init := words[..|words| - 1];
      BucketMembers(init, yKey, k);
      assert words == init + [Last(words)];
      assert forall w :: w in words ==> w in init || w == Last(words);
    }
  }

  function Keys(words: seq<Word>, yKey: real -> real): seq<real> {
    seq(|words|, i requires 0 <= i < |words| => yKey(words[i].top))
  }

  ghost predicate ValidBuckets(bs: seq<RowBucket>, words: seq<Word>, yKey: real -> real) {
    && (forall i, j :: 0 <= i < j < |bs| ==> bs[i].key < bs[j].key)
    && (forall i :: 0 <= i < |bs| ==> bs[i].words != [] && bs[i].words == Bucket(words, yKey, bs[i].key))
  }

  /** `sorted(rows.items())`: one bucket per distinct key, keys ascending. */
  function Buckets(words: seq<Word>, yKey: real -> real): (bs: seq<RowBucket>)
    ensures ValidBuckets(bs, words, yKey)
    ensures forall w :: w in words ==> exists i :: 0 <= i < |bs| && bs[i].key == yKey(w.top)
  {
    var ks := SortedDistinct(Keys(words, yKey));
    var bs := seq(|ks|, i requires 0 <= i < |ks| => RowBucket(ks[i], Bucket(words, yKey, ks[i])));
    assert forall i :: 0 <= i < |bs| ==> bs[i].words != [] by {
      forall i | 0 <= i < |bs| ensures bs[i].words != [] {
        assert ks[i] in ks;
        var j :| 0 <= j < |words| && Keys(words, yKey)[j] == ks[i];
        assert words[j] in words;
        BucketMembers(words, yKey, ks[i]);
      }
    }
    assert forall w :: w in words ==> exists i :: 0 <= i < |bs| && bs[i].key == yKey(w.top) by {
      forall w | w in words ensures exists i :: 0 <= i < |bs| && bs[i].key == yKey(w.top) {
        var j :| 0 <= j < |words| && words[j] == w;
        assert Keys(words, yKey)[j] == yKey(w.top);
        assert yKey(w.top) in ks;
        var i :| 0 <= i < |ks| && ks[i] == yKey(w.top);
        assert bs[i].key == yKey(w.top);
      }
    }
    bs
  }

  /** Line 70-74: at least two words spanning more than `MinTableWidth`. */
  predicate IsTableRow(ws: seq<Word>) {
    |ws| >= 2 && MaxX1(ws) - MinX0(ws) > MinTableWidth
  }

  function OpenRegion(b: RowBucket, tol: real): Region
    requires b.words != []
  {
    Region(MinX0(b.words), MaxX1(b.words), b.key, b.key + tol, [b.words])
  }

  function ExtendRegion(r: Region, b: RowBucket, tol: real): Region
    requires b.words != []
  {
    r.(x0 := Min(r.x0, MinX0(b.words)), x1 := Max(r.x1, MaxX1(b.words)),
       y1 := b.key + tol, rows := r.rows + [b.words])
  }

  /** Closing the open region keeps it only if it has `minRows` rows. */
  function Commit(regions: seq<Region>, current: Option<Region>, minRows: nat): seq<Region> {
    if current.Some? && |current.value.rows| >= minRows then regions + [current.value] else regions
  }

  /** One iteration of the scan over the sorted buckets (lines 68-105). */
  function Step(b: RowBucket, s: ScanState, minRows: nat, tol: real): ScanState {
    if |b.words| >= 2 then
      if MaxX1(b.words) - MinX0(b.words) > MinTableWidth then
        if s.current.None? then ScanState(Some(OpenRegion(b, tol)), s.regions)
        else if b.key - s.current.value.y1 < tol * 2.0 then
          ScanState(Some(ExtendRegion(s.current.value, b, tol)), s.regions)
        else ScanState(Some(OpenRegion(b, tol)), Commit(s.regions, s.current, minRows))
      else s
    else ScanState(None, Commit(s.regions, s.current, minRows))
  }

  function ScanFrom(bs: seq<RowBucket>, s: ScanState, minRows: nat, tol: real): seq<Region>
    decreases |bs|
  {
    if bs == [] then Commit(s.regions, s.current, minRows)
    else ScanFrom(bs[1..], Step(bs[0], s, minRows, tol), minRows, tol)
  }

  /** The regions `_detect_table_regions(words, h, minRows, tol)` returns. */
  function Regions(words: seq<Word>, minRows: nat, tol: real, yKey: real -> real): seq<Region> {
    if words == [] then [] else ScanFrom(Buckets(words, yKey), ScanState(None, []), minRows, tol)
  }

  /** The bucket key of a row (its words all share it). */
  function RowKey(row: seq<Word>, yKey: real -> real): real {
    if row == [] then 0.0 else yKey(row[0].top)
  }

  /** Each row is a whole bucket that qualifies as a table row. */
  ghost predicate RowsAreBuckets(rows: seq<seq<Word>>, words: seq<Word>, yKey: real -> real) {
    forall j :: 0 <= j < |rows| ==>
      IsTableRow(rows[j]) && rows[j] == Bucket(words, yKey, RowKey(rows[j], yKey))
  }

  /** Row keys ascend, and no two consecutive rows are `2 * tol` or more apart (line 85). */
  ghost predicate RowsChained(rows: seq<seq<Word>>, yKey: real -> real, tol: real) {
    forall j :: 0 <= j < |rows| - 1 ==>
      RowKey(rows[j], yKey) < RowKey(rows[j + 1], yKey) &&
      RowKey(rows[j + 1], yKey) - (RowKey(rows[j], yKey) + tol) < tol * 2.0
  }

  /** The horizontal extent is the union of the extents of all member words. */
  ghost predicate HullOfRows(r: Region) {
    |Flatten(r.rows)| > 0 && r.x0 == MinX0(Flatten(r.rows)) && r.x1 == MaxX1(Flatten(r.rows))
  }

  /**
   * What a region is: consecutive table rows, each a whole bucket, with
   * ascending keys and no vertical gap of `2 * tol` or more; its box is the
   * union of its words' extents horizontally, and runs from its first
   * bucket key to its last bucket key plus `tol`.
   */
  ghost predicate WellFormed(r: Region, words: seq<Word>, yKey: real -> real, tol: real) {
    && r.rows != []
    && RowsAreBuckets(r.rows, words, yKey)
    && RowsChained(r.rows, yKey, tol)
    && HullOfRows(r)
    && r.y0 == RowKey(r.rows[0], yKey)
    && r.y1 == RowKey(Last(r.rows), yKey) + tol
  }

  /** Regions come out top to bottom: each starts below the last row of every earlier one. */
  ghost predicate Ascending(rs: seq<Region>, tol: real) {
    forall i, j :: 0 <= i < j < |rs| ==> rs[i].y1 - tol < rs[j].y0
  }

  /** Each region has at least `minRows` rows and is well formed. */
  ghost predicate AllWellFormed(rs: seq<Region>, minRows: nat, words: seq<Word>, yKey: real -> real, tol: real) {
    forall i :: 0 <= i < |rs| ==> |rs[i].rows| >= minRows && WellFormed(rs[i], words, yKey, tol)
  }

  /** Each region's last row lies above `bound`. */
  ghost predicate AllAbove(rs: seq<Region>, tol: real, bound: real) {
    forall i :: 0 <= i < |rs| ==> rs[i].y1 - tol < bound
  }

  /** What holds of the scan state before each bucket. */
  ghost predicate StateInv(s: ScanState, next: Option<real>, minRows: nat, words: seq<Word>,
                           yKey: real -> real, tol: real) {
    && AllWellFormed(s.regions, minRows, words, yKey, tol)
    && Ascending(s.regions, tol)
    && (s.current.Some? ==>
          WellFormed(s.current.value, words, yKey, tol) && AllAbove(s.regions, tol, s.current.value.y0))
    && (next.Some? ==>
          AllAbove(s.regions, tol, next.value) &&
          (s.current.Some? ==> s.current.value.y1 - tol < next.value))
  }

  lemma BucketKey(b: RowBucket, words: seq<Word>, yKey: real -> real)
    requires b.words != [] && b.words == Bucket(words, yKey, b.key)
    ensures RowKey(b.words, yKey) == b.key
  {
    BucketMembers(words, yKey, b.key);
    assert b.words[0] in b.words;
  }

  lemma OpenWellFormed(b: RowBucket, words: seq<Word>, yKey: real -> real, tol: real)
    requires b.words != [] && b.words == Bucket(words, yKey, b.key) && IsTableRow(b.words)
    ensures WellFormed(OpenRegion(b, tol), words, yKey, tol)
  {
    BucketKey(b, words, yKey);
    var r := OpenRegion(b, tol);
    assert r.rows == [b.words];
    assert Flatten(r.rows) == b.words by {
      assert [b.words][..0] == [];
    }
    assert HullOfRows(r);
    assert RowsAreBuckets(r.rows, words, yKey) by {
      forall j | 0 <= j < |r.rows|
        ensures IsTableRow(r.rows[j]) && r.rows[j] == Bucket(words, yKey, RowKey(r.rows[j], yKey))
      {
        assert r.rows[j] == b.words;
      }
    }
  }

  lemma RowsAreBucketsSnoc(rows: seq<seq<Word>>, row: seq<Word>, words: seq<Word>, yKey: real -> real)
    requires RowsAreBuckets(rows, words, yKey)
    requires IsTableRow(row) && row == Bucket(words, yKey, RowKey(row, yKey))
    ensures RowsAreBuckets(rows + [row], words, yKey)
  {
    var rs := rows + [row];
    forall j | 0 <= j < |rs|
      ensures IsTableRow(rs[j]) && rs[j] == Bucket(words, yKey, RowKey(rs[j], yKey))
    {
      if j < |rows| { assert rs[j] == rows[j]; }
    }
  }

  lemma RowsChainedSnoc(rows: seq<seq<Word>>, row: seq<Word>, yKey: real -> real, tol: real)
    requires RowsChained(rows, yKey, tol) && rows != []
    requires RowKey(Last(rows), yKey) < RowKey(row, yKey)
    requires RowKey(row, yKey) - (RowKey(Last(rows), yKey) + tol) < tol * 2.0
    ensures RowsChained(rows + [row], yKey, tol)
  {
    var rs := rows + [row];
    forall j | 0 <= j < |rs| - 1
      ensures RowKey(rs[j], yKey) < RowKey(rs[j + 1], yKey) &&
              RowKey(rs[j + 1], yKey) - (RowKey(rs[j], yKey) + tol) < tol * 2.0
    {
      assert rs[j] == rows[j];
      if j < |rows| - 1 {
        assert rs[j + 1] == rows[j + 1];
      } else {
        assert rs[j + 1] == row;
      }
    }
  }

  lemma HullSnoc(r: Region, row: seq<Word>)
    requires HullOfRows(r) && row != []
    ensures HullOfRows(r.(x0 := Min(r.x0, MinX0(row)), x1 := Max(r.x1, MaxX1(row)), rows := r.rows + [row]))
  {
    FlattenAppend(r.rows, row);
    MinX0Append(Flatten(r.rows), row);
    MaxX1Append(Flatten(r.rows), row);
  }

  lemma ExtendWellFormed(r: Region, b: RowBucket, words: seq<Word>, yKey: real -> real, tol: real)
    requires WellFormed(r, words, yKey, tol)
    requires b.words != [] && b.words == Bucket(words, yKey, b.key) && IsTableRow(b.words)
    requires r.y1 - tol < b.key && b.key - r.y1 < tol * 2.0
    ensures WellFormed(ExtendRegion(r, b, tol), words, yKey, tol)
  {
    BucketKey(b, words, yKey);
    RowsAreBucketsSnoc(r.rows, b.words, words, yKey);
    RowsChainedSnoc(r.rows, b.words, yKey, tol);
    HullSnoc(r, b.words);
    var r' := ExtendRegion(r, b, tol);
    assert r'.rows[0] == r.rows[0];
    assert Last(r'.rows) == b.words;
  }

  lemma AscendingSnoc(rs: seq<Region>, v: Region, tol: real)
    requires Ascending(rs, tol) && AllAbove(rs, tol, v.y0)
    ensures Ascending(rs + [v], tol)
  {
    var c := rs + [v];
    forall i, j | 0 <= i < j < |c| ensures c[i].y1 - tol < c[j].y0 {
      assert c[i] == rs[i];
      if j < |rs| {
        assert c[j] == rs[j];
      }
    }
  }

  lemma AllWellFormedSnoc(rs: seq<Region>, v: Region, minRows: nat, words: seq<Word>, yKey: real -> real, tol: real)
    requires AllWellFormed(rs, minRows, words, yKey, tol)
    requires |v.rows| >= minRows && WellFormed(v, words, yKey, tol)
    ensures AllWellFormed(rs + [v], minRows, words, yKey, tol)
  {
    var c := rs + [v];
    forall i | 0 <= i < |c| ensures |c[i].rows| >= minRows && WellFormed(c[i], words, yKey, tol) {
      if i < |rs| {
        assert c[i] == rs[i];
      }
    }
  }

  lemma AllAboveSnoc(rs: seq<Region>, v: Region, tol: real, bound: real)
    requires AllAbove(rs, tol, bound) && v.y1 - tol < bound
    ensures AllAbove(rs + [v], tol, bound)
  {
    var c := rs + [v];
    forall i | 0 <= i < |c| ensures c[i].y1 - tol < bound {
      if i < |rs| {
        assert c[i] == rs[i];
      }
    }
  }

  /** Closing the open region before a bucket at `bound` keeps the committed regions in order. */
  lemma CommitInv(s: ScanState, bound: real, minRows: nat, words: seq<Word>, yKey: real -> real, tol: real)
    requires StateInv(s, Some(bound), minRows, words, yKey, tol)
    ensures var c := Commit(s.regions, s.current, minRows);
      AllWellFormed(c, minRows, words, yKey, tol) && Ascending(c, tol) && AllAbove(c, tol, bound)
  {
    if s.current.Some? && |s.current.value.rows| >= minRows {
      AscendingSnoc(s.regions, s.current.value, tol);
      AllWellFormedSnoc(s.regions, s.current.value, minRows, words, yKey, tol);
      AllAboveSnoc(s.regions, s.current.value, tol, bound);
    }
  }

  /** A state invariant for one bound still holds for any later bound. */
  lemma InvLaterBound(s: ScanState, k: real, next: Option<real>, minRows: nat, words: seq<Word>,
                      yKey: real -> real, tol: real)
    requires StateInv(s, Some(k), minRows, words, yKey, tol)
    requires next.Some? ==> k < next.value
    ensures StateInv(s, next, minRows, words, yKey, tol)
  {
  }

  lemma OpenInv(regions: seq<Region>, b: RowBucket, next: Option<real>, minRows: nat, words: seq<Word>,
                yKey: real -> real, tol: real)
    requires StateInv(ScanState(None, regions), Some(b.key), minRows, words, yKey, tol)
    requires b.words != [] && b.words == Bucket(words, yKey, b.key) && IsTableRow(b.words)
    requires next.Some? ==> b.key < next.value
    ensures StateInv(ScanState(Some(OpenRegion(b, tol)), regions), next, minRows, words, yKey, tol)
  {
    OpenWellFormed(b, words, yKey, tol);
  }

  lemma ExtendInv(s: ScanState, b: RowBucket, next: Option<real>, minRows: nat, words: seq<Word>,
                  yKey: real -> real, tol: real)
    requires StateInv(s, Some(b.key), minRows, words, yKey, tol) && s.current.Some?
    requires b.words != [] && b.words == Bucket(words, yKey, b.key) && IsTableRow(b.words)
    requires b.key - s.current.value.y1 < tol * 2.0
    requires next.Some? ==> b.key < next.value
    ensures StateInv(ScanState(Some(ExtendRegion(s.current.value, b, tol)), s.regions), next,
                     minRows, words, yKey, tol)
  {
    ExtendWellFormed(s.current.value, b, words, yKey, tol);
  }

  /** One step keeps the invariant, for a bucket followed by the bound `next`. */
  lemma StepKeepsInv(b: RowBucket, s: ScanState, next: Option<real>, minRows: nat, words: seq<Word>,
                     yKey: real -> real, tol: real)
    requires b.words != [] && b.words == Bucket(words, yKey, b.key)
    requires StateInv(s, Some(b.key), minRows, words, yKey, tol)
    requires next.Some? ==> b.key < next.value
    ensures StateInv(Step(b, s, minRows, tol), next, minRows, words, yKey, tol)
  {
    if IsTableRow(b.words) {
      if s.current.None? {
        OpenInv(s.regions, b, next, minRows, words, yKey, tol);
      } else if b.key - s.current.value.y1 < tol * 2.0 {
        ExtendInv(s, b, next, minRows, words, yKey, tol);
      } else {
        var c := Commit(s.regions, s.current, minRows);
        CommitInv(s, b.key, minRows, words, yKey, tol);
        OpenInv(c, b, next, minRows, words, yKey, tol);
        assert Step(b, s, minRows, tol) == ScanState(Some(OpenRegion(b, tol)), c);
      }
    } else if |b.words| >= 2 {
      InvLaterBound(s, b.key, next, minRows, words, yKey, tol);
    } else {
      var c := Commit(s.regions, s.current, minRows);
      CommitInv(s, b.key, minRows, words, yKey, tol);
      InvLaterBound(ScanState(None, c), b.key, next, minRows, words, yKey, tol);
    }
  }

  lemma StepInv(bs: seq<RowBucket>, s: ScanState, minRows: nat, words: seq<Word>,
                yKey: real -> real, tol: real)
    requires bs != [] && ValidBuckets(bs, words, yKey)
    requires StateInv(s, Some(bs[0].key), minRows, words, yKey, tol)
    ensures StateInv(Step(bs[0], s, minRows, tol), if |bs| > 1 then Some(bs[1].key) else None,
                     minRows, words, yKey, tol)
  {
    var next: Option<real> := if |bs| > 1 then Some(bs[1].key) else None;
    assert next.Some? ==> bs[0].key < next.value;
    StepKeepsInv(bs[0], s, next, minRows, words, yKey, tol);
  }

  lemma ValidBucketsTail(bs: seq<RowBucket>, words: seq<Word>, yKey: real -> real)
    requires bs != [] && ValidBuckets(bs, words, yKey)
    ensures ValidBuckets(bs[1..], words, yKey)
  {
    var t := bs[1..];
    forall i, j | 0 <= i < j < |t| ensures t[i].key < t[j].key {
      assert t[i] == bs[i + 1] && t[j] == bs[j + 1];
    }
    forall i | 0 <= i < |t| ensures t[i].words != [] && t[i].words == Bucket(words, yKey, t[i].key) {
      assert t[i] == bs[i + 1];
    }
  }

  /** What holds of the regions a scan returns. */
  ghost predicate Committed(rs: seq<Region>, minRows: nat, words: seq<Word>, yKey: real -> real, tol: real) {
    AllWellFormed(rs, minRows, words, yKey, tol) && Ascending(rs, tol)
  }

  /** The final close (lines 107-108) keeps the invariant. */
  lemma FinalCommit(s: ScanState, minRows: nat, words: seq<Word>, yKey: real -> real, tol: real)
    requires StateInv(s, None, minRows, words, yKey, tol)
    ensures Committed(Commit(s.regions, s.current, minRows), minRows, words, yKey, tol)
  {
    if s.current.Some? && |s.current.value.rows| >= minRows {
      AscendingSnoc(s.regions, s.current.value, tol);
      AllWellFormedSnoc(s.regions, s.current.value, minRows, words, yKey, tol);
    }
  }

  lemma {:induction false} ScanFromInv(bs: seq<RowBucket>, s: ScanState, minRows: nat, words: seq<Word>,
                                       yKey: real -> real, tol: real)
    requires ValidBuckets(bs, words, yKey)
    requires StateInv(s, if bs != [] then Some(bs[0].key) else None, minRows, words, yKey, tol)
    ensures Committed(ScanFrom(bs, s, minRows, tol), minRows, words, yKey, tol)
    decreases |bs|
  {
    if bs == [] {
      FinalCommit(s, minRows, words, yKey, tol);
    } else {
      StepInv(bs, s, minRows, words, yKey, tol);
      ValidBucketsTail(bs, words, yKey);
      var s' := Step(bs[0], s, minRows, tol);
      assert |bs| > 1 ==> bs[1..][0] == bs[1];
      ScanFromInv(bs[1..], s', minRows, words, yKey, tol);
      ScanFromStep(bs, s, minRows, tol);
    }
  }

  /**
   * Every region holds at least `minRows` rows, is well formed, and the
   * regions come out in ascending vertical order; no words give no regions.
   */
  lemma RegionsProperties(words: seq<Word>, minRows: nat, tol: real, yKey: real -> real)
    ensures var rs := Regions(words, minRows, tol, yKey);
      && (words == [] ==> rs == [])
      && (forall r :: r in rs ==> |r.rows| >= minRows && WellFormed(r, words, yKey, tol))
      && Ascending(rs, tol)
  {
    if words != [] {
      var rs := Regions(words, minRows, tol, yKey);
      ScanFromInv(Buckets(words, yKey), ScanState(None, []), minRows, words, yKey, tol);
      forall r | r in rs ensures |r.rows| >= minRows && WellFormed(r, words, yKey, tol) {
        var i :| 0 <= i < |rs| && rs[i] == r;
      }
    }
  }

  /** A well-formed region is wider than `MinTableWidth`: its first row already is. */
  lemma RegionWide(r: Region, words: seq<Word>, yKey: real -> real, tol: real)
    requires WellFormed(r, words, yKey, tol)
    ensures r.x1 - r.x0 > MinTableWidth
  {
    var row := r.rows[0];
    assert IsTableRow(row);
    MinX0Spec(row);
    MaxX1Spec(row);
    var i :| 0 <= i < |row| && MinX0(row) == row[i].x0;
    var j :| 0 <= j < |row| && MaxX1(row) == row[j].x1;
    InFlatten(r.rows, 0, row[i]);
    InFlatten(r.rows, 0, row[j]);
    MinX0Le(Flatten(r.rows), row[i]);
    MaxX1Ge(Flatten(r.rows), row[j]);
  }

  /**
   * A bucket of two or more words that is too narrow changes nothing: it
   * neither extends nor closes the open region (the close on line 101 only
   * follows a bucket with fewer than two words).
   */
  lemma {:induction false} NarrowBucketIgnored(bs: seq<RowBucket>, p: nat, b: RowBucket, s: ScanState,
                                               minRows: nat, tol: real)
    requires p <= |bs|
    requires |b.words| >= 2 && MaxX1(b.words) - MinX0(b.words) <= MinTableWidth
    ensures ScanFrom(bs[..p] + [b] + bs[p..], s, minRows, tol) == ScanFrom(bs, s, minRows, tol)
    decreases p
  {
    var withB := bs[..p] + [b] + bs[p..];
    if p == 0 {
      assert withB == [b] + bs;
      assert withB[1..] == bs;
    } else {
      assert withB[0] == bs[0];
      assert withB[1..] == bs[1..][..p - 1] + [b] + bs[1..][p - 1..];
      NarrowBucketIgnored(bs[1..], p - 1, b, Step(bs[0], s, minRows, tol), minRows, tol);
    }
  }

  /** A single-word bucket closes the open region: the regions committed so far stay as they are. */
  lemma SingleWordBucketCloses(b: RowBucket, s: ScanState, minRows: nat, tol: real)
    requires |b.words| < 2
    ensures Step(b, s, minRows, tol) == ScanState(None, Commit(s.regions, s.current, minRows))
  {
  }

  /**
   * Lines 84-100 for a table row while a region is open: it extends the
   * region, committing nothing, when it starts less than `2 * tol` below the
   * region's bottom; otherwise the region is closed and the row opens a new one.
   */
  lemma StepTableRow(b: RowBucket, s: ScanState, minRows: nat, tol: real)
    requires IsTableRow(b.words) && s.current.Some?
    ensures b.key - s.current.value.y1 < tol * 2.0 ==>
      Step(b, s, minRows, tol) == ScanState(Some(ExtendRegion(s.current.value, b, tol)), s.regions)
    ensures b.key - s.current.value.y1 >= tol * 2.0 ==>
      Step(b, s, minRows, tol) == ScanState(Some(OpenRegion(b, tol)), Commit(s.regions, s.current, minRows))
  {
  }

  /** The scan state after the first `n` buckets. */
  function Run(bs: seq<RowBucket>, s: ScanState, minRows: nat, tol: real, n: nat): ScanState
    requires n <= |bs|
    decreases n
  {
    if n == 0 then s else Step(bs[n - 1], Run(bs, s, minRows, tol, n - 1), minRows, tol)
  }

  /** Scanning all buckets is scanning the rest from the state after the first `n`. */
  lemma {:induction false} ScanFromRun(bs: seq<RowBucket>, s: ScanState, minRows: nat, tol: real, n: nat)
    requires n <= |bs|
    ensures ScanFrom(bs, s, minRows, tol) == ScanFrom(bs[n..], Run(bs, s, minRows, tol, n), minRows, tol)
    decreases n
  {
    if n > 0 {
      ScanFromRun(bs, s, minRows, tol, n - 1);
      var t := bs[n - 1..];
      ScanFromStep(t, Run(bs, s, minRows, tol, n - 1), minRows, tol);
      assert t[0] == bs[n - 1] && t[1..] == bs[n..];
    }
  }

  /** The scan's invariant holds before every bucket. */
  lemma {:induction false} RunInv(bs: seq<RowBucket>, words: seq<Word>, yKey: real -> real, minRows: nat,
                                  tol: real, n: nat)
    requires ValidBuckets(bs, words, yKey) && n <= |bs|
    ensures StateInv(Run(bs, ScanState(None, []), minRows, tol, n), if n < |bs| then Some(bs[n].key) else None,
                     minRows, words, yKey, tol)
    decreases n
  {
    if n > 0 {
      RunInv(bs, words, yKey, minRows, tol, n - 1);
      var next: Option<real> := if n < |bs| then Some(bs[n].key) else None;
      assert next.Some? ==> bs[n - 1].key < next.value;
      StepKeepsInv(bs[n - 1], Run(bs, ScanState(None, []), minRows, tol, n - 1), next, minRows, words, yKey, tol);
    }
  }

  /** Narrow buckets of two or more words leave the state as it was. */
  lemma {:induction false} NarrowRun(bs: seq<RowBucket>, s: ScanState, minRows: nat, tol: real, lo: nat, hi: nat)
    requires lo <= hi <= |bs|
    requires forall m :: lo <= m < hi ==> |bs[m].words| >= 2 && !IsTableRow(bs[m].words)
    ensures Run(bs, s, minRows, tol, hi) == Run(bs, s, minRows, tol, lo)
    decreases hi - lo
  {
    if lo < hi {
      NarrowRun(bs, s, minRows, tol, lo, hi - 1);
    }
  }

  /**
   * Where a region a scan emits comes from: it was already committed, or it
   * grows out of the open region, or it starts at one of the buckets scanned.
   */
  lemma {:induction false} ScanFromOrigin(bs: seq<RowBucket>, s: ScanState, minRows: nat, tol: real, r: Region)
    requires r in ScanFrom(bs, s, minRows, tol)
    ensures || r in s.regions
            || (s.current.Some? && s.current.value.rows <= r.rows)
            || exists m :: 0 <= m < |bs| && r.rows != [] && r.rows[0] == bs[m].words
    decreases |bs|
  {
    if bs != [] {
      var s' := Step(bs[0], s, minRows, tol);
      ScanFromStep(bs, s, minRows, tol);
      ScanFromOrigin(bs[1..], s', minRows, tol, r);
      if r in s'.regions {
        assert r in s.regions || r == s.current.value;
      } else if s'.current.Some? && s'.current.value.rows <= r.rows {
        if s'.current.value.rows == [bs[0].words] {
          assert r.rows[0] == bs[0].words;
        } else if s' != s {
          assert s'.current.value.rows == s.current.value.rows + [bs[0].words];
        }
      } else {
        var m :| 0 <= m < |bs[1..]| && r.rows != [] && r.rows[0] == bs[1..][m].words;
        assert r.rows[0] == bs[m + 1].words;
      }
    }
  }

  /** Row keys never fall below the first row's key nor rise above the last's. */
  lemma {:induction false} RowKeysBetween(rows: seq<seq<Word>>, yKey: real -> real, tol: real, k: nat)
    requires RowsChained(rows, yKey, tol) && k < |rows|
    ensures RowKey(rows[0], yKey) <= RowKey(rows[k], yKey) <= RowKey(Last(rows), yKey)
  {
    var j := 0;
    while j < k
      invariant j <= k && RowKey(rows[0], yKey) <= RowKey(rows[j], yKey)
    {
      j := j + 1;
    }
    while j < |rows| - 1
      invariant k <= j < |rows| && RowKey(rows[k], yKey) <= RowKey(rows[j], yKey)
    {
      j := j + 1;
    }
  }

  /** A bucket keyed outside a region's rows is not one of them. */
  lemma NotARow(r: Region, b: RowBucket, words: seq<Word>, yKey: real -> real, tol: real)
    requires WellFormed(r, words, yKey, tol)
    requires b.words != [] && b.words == Bucket(words, yKey, b.key)
    requires b.key < RowKey(r.rows[0], yKey) || RowKey(Last(r.rows), yKey) < b.key
    ensures b.words !in r.rows
  {
    if b.words in r.rows {
      var k :| 0 <= k < |r.rows| && r.rows[k] == b.words;
      RowKeysBetween(r.rows, yKey, tol, k);
      BucketKey(b, words, yKey);
    }
  }

  /** After a table row the open region ends with that row, `tol` below its key. */
  lemma AfterTableRow(b: RowBucket, s: ScanState, minRows: nat, tol: real)
    requires IsTableRow(b.words)
    ensures var c := Step(b, s, minRows, tol).current;
      c.Some? && c.value.rows != [] && Last(c.value.rows) == b.words && c.value.y1 == b.key + tol
  {
  }

  /** A region committed before the open one holds no bucket at or below the open region's last row. */
  lemma CommittedExcludes(s: ScanState, next: Option<real>, minRows: nat, words: seq<Word>, yKey: real -> real,
                          tol: real, r: Region, b: RowBucket)
    requires StateInv(s, next, minRows, words, yKey, tol) && s.current.Some? && r in s.regions
    requires b.words != [] && b.words == Bucket(words, yKey, b.key)
    requires RowKey(Last(s.current.value.rows), yKey) <= b.key
    ensures b.words !in r.rows
  {
    var idx :| 0 <= idx < |s.regions| && s.regions[idx] == r;
    var cur := s.current.value;
    assert WellFormed(r, words, yKey, tol) && r.y1 - tol < cur.y0;
    RowKeysBetween(cur.rows, yKey, tol, 0);
    NotARow(r, b, words, yKey, tol);
  }

  /** A region starting at a bucket holds no bucket keyed above it. */
  lemma LaterRegionExcludes(r: Region, words: seq<Word>, yKey: real -> real, tol: real, b: RowBucket, c: RowBucket)
    requires WellFormed(r, words, yKey, tol) && r.rows[0] == c.words
    requires c.words != [] && c.words == Bucket(words, yKey, c.key)
    requires b.words != [] && b.words == Bucket(words, yKey, b.key) && b.key < c.key
    ensures b.words !in r.rows
  {
    BucketKey(c, words, yKey);
    NotARow(r, b, words, yKey, tol);
  }

  /**
   * The scan state right after the second of two table rows with only
   * narrow buckets between them, less than `3 * tol` apart: the open region
   * from the first row, extended by the second, and the regions committed
   * before the first.
   */
  lemma PairRun(bs: seq<RowBucket>, s: ScanState, minRows: nat, tol: real, i: nat, j: nat) returns (si: ScanState)
    requires i < j < |bs| && IsTableRow(bs[i].words) && IsTableRow(bs[j].words)
    requires forall m :: i < m < j ==> |bs[m].words| >= 2 && !IsTableRow(bs[m].words)
    requires bs[j].key - bs[i].key < tol * 3.0
    ensures si == Run(bs, s, minRows, tol, i + 1)
    ensures si.current.Some? && si.current.value.rows != [] && Last(si.current.value.rows) == bs[i].words
    ensures Run(bs, s, minRows, tol, j + 1) == ScanState(Some(ExtendRegion(si.current.value, bs[j], tol)), si.regions)
  {
    si := Run(bs, s, minRows, tol, i + 1);
    AfterTableRow(bs[i], Run(bs, s, minRows, tol, i), minRows, tol);
    NarrowRun(bs, s, minRows, tol, i + 1, j);
    StepTableRow(bs[j], si, minRows, tol);
  }

  /**
   * A region emitted after two such table rows was committed before the
   * first, or grows out of the region holding both, or starts at a later
   * bucket.
   */
  lemma PairOrigin(bs: seq<RowBucket>, s: ScanState, minRows: nat, tol: real, i: nat, j: nat, r: Region)
    returns (si: ScanState)
    requires i < j < |bs| && IsTableRow(bs[i].words) && IsTableRow(bs[j].words)
    requires forall m :: i < m < j ==> |bs[m].words| >= 2 && !IsTableRow(bs[m].words)
    requires bs[j].key - bs[i].key < tol * 3.0
    requires r in ScanFrom(bs, s, minRows, tol)
    ensures si == Run(bs, s, minRows, tol, i + 1)
    ensures si.current.Some? && si.current.value.rows != [] && Last(si.current.value.rows) == bs[i].words
    ensures || r in si.regions
            || (bs[i].words in r.rows && bs[j].words in r.rows)
            || exists m :: j < m < |bs| && r.rows != [] && r.rows[0] == bs[m].words
  {
    si := PairRun(bs, s, minRows, tol, i, j);
    var cur := si.current.value;
    var cur' := ExtendRegion(cur, bs[j], tol);
    ScanFromRun(bs, s, minRows, tol, j + 1);
    ScanFromOrigin(bs[j + 1..], ScanState(Some(cur'), si.regions), minRows, tol, r);
    if r !in si.regions {
      if cur'.rows <= r.rows {
        assert r.rows[|cur.rows| - 1] == bs[i].words;
        assert r.rows[|cur.rows|] == bs[j].words;
      } else {
        var m :| 0 <= m < |bs[j + 1..]| && r.rows != [] && r.rows[0] == bs[j + 1..][m].words;
        assert bs[j + 1..][m] == bs[j + 1 + m];
      }
    }
  }

  /**
   * Lines 84-89 made global: two table rows with only narrow buckets
   * between them, less than `3 * tol` apart, never end up in different
   * regions: every region the scan returns holds both or neither.
   */
  lemma AdjacentTableRowsTogether(words: seq<Word>, bs: seq<RowBucket>, minRows: nat, tol: real,
                                  yKey: real -> real, i: nat, j: nat, r: Region)
    requires words != [] && bs == Buckets(words, yKey)
    requires i < j < |bs| && IsTableRow(bs[i].words) && IsTableRow(bs[j].words)
    requires forall m :: i < m < j ==> |bs[m].words| >= 2 && !IsTableRow(bs[m].words)
    requires bs[j].key - bs[i].key < tol * 3.0
    requires r in Regions(words, minRows, tol, yKey)
    ensures bs[i].words in r.rows <==> bs[j].words in r.rows
  {
    var si := PairOrigin(bs, ScanState(None, []), minRows, tol, i, j, r);
    if r in si.regions {
      EarlierExcludesBoth(words, bs, minRows, tol, yKey, i, j, si, r);
    } else if !(bs[i].words in r.rows && bs[j].words in r.rows) {
      var m :| j < m < |bs| && r.rows != [] && r.rows[0] == bs[m].words;
      LaterExcludesBoth(words, bs, minRows, tol, yKey, i, j, m, r);
    }
  }

  /** A region committed before the first row holds neither row. */
  lemma EarlierExcludesBoth(words: seq<Word>, bs: seq<RowBucket>, minRows: nat, tol: real,
                            yKey: real -> real, i: nat, j: nat, si: ScanState, r: Region)
    requires words != [] && bs == Buckets(words, yKey) && i < j < |bs|
    requires si == Run(bs, ScanState(None, []), minRows, tol, i + 1)
    requires si.current.Some? && si.current.value.rows != [] && Last(si.current.value.rows) == bs[i].words
    requires r in si.regions
    ensures bs[i].words !in r.rows && bs[j].words !in r.rows
  {
    RunInv(bs, words, yKey, minRows, tol, i + 1);
    BucketKey(bs[i], words, yKey);
    assert bs[i].key < bs[j].key;
    CommittedExcludes(si, Some(bs[i + 1].key), minRows, words, yKey, tol, r, bs[i]);
    CommittedExcludes(si, Some(bs[i + 1].key), minRows, words, yKey, tol, r, bs[j]);
  }

  /** A region that starts after the second row holds neither row. */
  lemma LaterExcludesBoth(words: seq<Word>, bs: seq<RowBucket>, minRows: nat, tol: real,
                          yKey: real -> real, i: nat, j: nat, m: nat, r: Region)
    requires words != [] && bs == Buckets(words, yKey) && i < j < m < |bs|
    requires r in Regions(words, minRows, tol, yKey) && r.rows != [] && r.rows[0] == bs[m].words
    ensures bs[i].words !in r.rows && bs[j].words !in r.rows
  {
    var c := bs[m];
    assert r.rows[0] == c.words && bs[i].key < bs[j].key < c.key;
    RegionsProperties(words, minRows, tol, yKey);
    LaterRegionExcludes(r, words, yKey, tol, bs[i], c);
    LaterRegionExcludes(r, words, yKey, tol, bs[j], c);
  }

  /** Committed regions stay in the result (lines 91-92 and 103-104 only append). */
  lemma {:induction false} ScanFromKeepsRegions(bs: seq<RowBucket>, s: ScanState, minRows: nat, tol: real, r: Region)
    requires r in s.regions
    ensures r in ScanFrom(bs, s, minRows, tol)
    decreases |bs|
  {
    if bs != [] {
      var s' := Step(bs[0], s, minRows, tol);
      assert s'.regions == s.regions || s'.regions == Commit(s.regions, s.current, minRows);
      assert r in s'.regions;
      ScanFromKeepsRegions(bs[1..], s', minRows, tol, r);
    }
  }

  /**
   * An open region with at least `minRows` rows is never lost: some region
   * the scan returns starts with its rows (it is committed as it is or
   * after further rows extend it).
   */
  lemma {:induction false} ScanFromEmitsOpen(bs: seq<RowBucket>, s: ScanState, minRows: nat, tol: real)
    returns (r: Region)
    requires s.current.Some? && |s.current.value.rows| >= minRows
    ensures r in ScanFrom(bs, s, minRows, tol) && s.current.value.rows <= r.rows
    decreases |bs|
  {
    var cur := s.current.value;
    if bs == [] {
      r := cur;
    } else {
      var b := bs[0];
      var s' := Step(b, s, minRows, tol);
      ScanFromStep(bs, s, minRows, tol);
      if |b.words| >= 2 && MaxX1(b.words) - MinX0(b.words) > MinTableWidth && b.key - cur.y1 < tol * 2.0 {
        assert s'.current.value.rows == cur.rows + [b.words];
        r := ScanFromEmitsOpen(bs[1..], s', minRows, tol);
        assert cur.rows <= r.rows by {
          assert r.rows[..|cur.rows|] == r.rows[..|cur.rows| + 1][..|cur.rows|];
        }
      } else if |b.words| >= 2 && MaxX1(b.words) - MinX0(b.words) <= MinTableWidth {
        assert s' == s;
        r := ScanFromEmitsOpen(bs[1..], s', minRows, tol);
      } else {
        assert cur in s'.regions;
        ScanFromKeepsRegions(bs[1..], s', minRows, tol, cur);
        r := cur;
      }
    }
  }

  /**
   * After consecutive table rows `bs[i] .. bs[n]`, each less than `3 * tol`
   * below the one before, the open region holds all of them.
   */
  lemma {:induction false} RunChain(bs: seq<RowBucket>, s: ScanState, minRows: nat, tol: real, i: nat, n: nat)
    requires i <= n < |bs|
    requires forall t :: i <= t <= n ==> IsTableRow(bs[t].words)
    requires forall t :: i < t <= n ==> bs[t].key - bs[t - 1].key < tol * 3.0
    ensures var c := Run(bs, s, minRows, tol, n + 1).current;
      && c.Some? && |c.value.rows| >= n + 1 - i && c.value.y1 == bs[n].key + tol
      && forall t :: i <= t <= n ==> bs[t].words in c.value.rows
    decreases n - i
  {
    AfterTableRow(bs[n], Run(bs, s, minRows, tol, n), minRows, tol);
    if i < n {
      RunChain(bs, s, minRows, tol, i, n - 1);
      var prev := Run(bs, s, minRows, tol, n);
      StepTableRow(bs[n], prev, minRows, tol);
      var c := Run(bs, s, minRows, tol, n + 1).current.value;
      assert c.rows == prev.current.value.rows + [bs[n].words];
      forall t | i <= t <= n ensures bs[t].words in c.rows {
        if t < n {
          assert bs[t].words in prev.current.value.rows;
        }
      }
    }
  }

  /** Some region a scan returns holds `minRows` or more chained table rows `bs[i] .. bs[i + k - 1]`. */
  lemma ChainEmitted(bs: seq<RowBucket>, s: ScanState, minRows: nat, tol: real, i: nat, k: nat)
    returns (r: Region)
    requires 0 < k && minRows <= k && i + k <= |bs|
    requires forall t :: i <= t < i + k ==> IsTableRow(bs[t].words)
    requires forall t :: i < t < i + k ==> bs[t].key - bs[t - 1].key < tol * 3.0
    ensures r in ScanFrom(bs, s, minRows, tol) && forall t :: i <= t < i + k ==> bs[t].words in r.rows
  {
    RunChain(bs, s, minRows, tol, i, i + k - 1);
    var sk := Run(bs, s, minRows, tol, i + k);
    ScanFromRun(bs, s, minRows, tol, i + k);
    r := ScanFromEmitsOpen(bs[i + k..], sk, minRows, tol);
    var rows := sk.current.value.rows;
    forall t | i <= t < i + k ensures bs[t].words in r.rows {
      var q :| 0 <= q < |rows| && rows[q] == bs[t].words;
      assert r.rows[q] == rows[q];
    }
  }

  /**
   * Lines 75-100 and 107-108: at least `minRows` consecutive table rows,
   * each less than `3 * tol` below the one before, all end up in one of the
   * regions returned.
   */
  lemma ChainedRowsEmitted(words: seq<Word>, bs: seq<RowBucket>, minRows: nat, tol: real,
                           yKey: real -> real, i: nat, k: nat)
    requires words != [] && bs == Buckets(words, yKey)
    requires 0 < k && minRows <= k && i + k <= |bs|
    requires forall t :: i <= t < i + k ==> IsTableRow(bs[t].words)
    requires forall t :: i < t < i + k ==> bs[t].key - bs[t - 1].key < tol * 3.0
    ensures exists r :: r in Regions(words, minRows, tol, yKey) && forall t :: i <= t < i + k ==> bs[t].words in r.rows
  {
    var r := ChainEmitted(bs, ScanState(None, []), minRows, tol, i, k);
    assert Regions(words, minRows, tol, yKey) == ScanFrom(bs, ScanState(None, []), minRows, tol);
  }

  lemma BucketSnoc(words: seq<Word>, i: nat, yKey: real -> real, k: real)
    requires i < |words|
    ensures Bucket(words[..i + 1], yKey, k)
         == Bucket(words[..i], yKey, k) + (if yKey(words[i].top) == k then [words[i]] else [])
  {
    assert words[..i + 1][..i] == words[..i];
  }

  /** Lines 58-61: the defaultdict, with its keys in first-insertion order. */
  method CollectBuckets(words: seq<Word>, yKey: real -> real)
    returns (rows: map<real, seq<Word>>, order: seq<real>)
    ensures forall k :: k in rows <==> k in order
    ensures forall k :: k in order <==> exists j :: 0 <= j < |words| && yKey(words[j].top) == k
    ensures forall k :: k in rows ==> rows[k] == Bucket(words, yKey, k)
  {
    rows := map[];
    order := [];
    for i := 0 to |words|
      invariant forall k :: k in rows <==> k in order
      invariant forall k :: k in order <==> exists j :: 0 <= j < i && yKey(words[j].top) == k
      invariant forall k :: k in rows ==> rows[k] == Bucket(words[..i], yKey, k)
    {
      var w := words[i];
      var yk := yKey(w.top);
      if yk in rows {
        rows := rows[yk := rows[yk] + [w]];
      } else {
        assert forall j :: 0 <= j < i ==> yKey(words[..i][j].top) != yk;
        NoBucketYet(words[..i], yKey, yk);
        rows := rows[yk := [w]];
        order := order + [yk];
      }
      forall k | k in rows ensures rows[k] == Bucket(words[..i + 1], yKey, k) {
        BucketSnoc(words, i, yKey, k);
      }
      forall k ensures k in order <==> exists j :: 0 <= j < i + 1 && yKey(words[j].top) == k {
        if k == yk {
          assert yKey(words[i].top) == k;
        }
      }
    }
    assert words[..|words|] == words;
  }

  lemma NoBucketYet(ws: seq<Word>, yKey: real -> real, k: real)
    requires forall j :: 0 <= j < |ws| ==> yKey(ws[j].top) != k
    ensures Bucket(ws, yKey, k) == []
  {
  }

  /** Sorting the insertion-ordered keys gives the sorted distinct keys of all words. */
  lemma SortedOrder(words: seq<Word>, yKey: real -> real, order: seq<real>)
    requires forall k :: k in order <==> exists j :: 0 <= j < |words| && yKey(words[j].top) == k
    ensures SortedDistinct(order) == SortedDistinct(Keys(words, yKey))
  {
    var keys := SortedDistinct(order);
    forall k ensures k in keys <==> k in SortedDistinct(Keys(words, yKey)) {
      if k in order {
        var j :| 0 <= j < |words| && yKey(words[j].top) == k;
        assert Keys(words, yKey)[j] == k;
      }
    }
    StrictlyIncreasingUnique(keys, SortedDistinct(Keys(words, yKey)));
  }

  /** Lines 58-64: the defaultdict of buckets, then `sorted(rows.items())`. */
  method GroupRowsByKey(words: seq<Word>, yKey: real -> real) returns (sortedRows: seq<RowBucket>)
    ensures sortedRows == Buckets(words, yKey)
  {
    var rows, order := CollectBuckets(words, yKey);
    var keys := SortedDistinct(order);
    SortedOrder(words, yKey, order);
    sortedRows := seq(|keys|, j requires 0 <= j < |keys| => RowBucket(keys[j], rows[keys[j]]));
  }

  lemma ScanFromStep(bs: seq<RowBucket>, s: ScanState, minRows: nat, tol: real)
    requires bs != []
    ensures ScanFrom(bs, s, minRows, tol) == ScanFrom(bs[1..], Step(bs[0], s, minRows, tol), minRows, tol)
  {
  }

  /** Lines 66-109: the top-to-bottom scan over the sorted buckets. */
  method ScanRows(sortedRows: seq<RowBucket>, minRows: nat, rowTolerance: real)
    returns (regions: seq<Region>)
    ensures regions == ScanFrom(sortedRows, ScanState(None, []), minRows, rowTolerance)
  {
    ghost var result := ScanFrom(sortedRows, ScanState(None, []), minRows, rowTolerance);
    var current: Option<Region> := None;
    regions := [];
    for i := 0 to |sortedRows|
      invariant ScanFrom(sortedRows[i..], ScanState(current, regions), minRows, rowTolerance) == result
    {
      ghost var before := ScanState(current, regions);
      var y := sortedRows[i].key;
      var rowWords := sortedRows[i].words;
      if |rowWords| >= 2 {
        var xSpan := MaxX1(rowWords) - MinX0(rowWords);
        if xSpan > MinTableWidth {
          if current.None? {
            current := Some(Region(MinX0(rowWords), MaxX1(rowWords), y, y + rowTolerance, [rowWords]));
          } else if y - current.value.y1 < rowTolerance * 2.0 {
            var r := current.value;
            current := Some(r.(x0 := Min(r.x0, MinX0(rowWords)), x1 := Max(r.x1, MaxX1(rowWords)),
                               y1 := y + rowTolerance, rows := r.rows + [rowWords]));
          } else {
            if |current.value.rows| >= minRows {
              regions := regions + [current.value];
            }
            current := Some(Region(MinX0(rowWords), MaxX1(rowWords), y, y + rowTolerance, [rowWords]));
          }
        }
      } else {
        if current.Some? && |current.value.rows| >= minRows {
          regions := regions + [current.value];
        }
        current := None;
      }
      assert ScanState(current, regions) == Step(sortedRows[i], before, minRows, rowTolerance);
      ScanFromStep(sortedRows[i..], before, minRows, rowTolerance);
      assert sortedRows[i..][1..] == sortedRows[i + 1..];
    }
    if current.Some? && |current.value.rows| >= minRows {
      regions := regions + [current.value];
    }
  }

  /**
   * `_detect_table_regions`: the regions of a page's words, each with at
   * least `minRows` well-formed rows, top to bottom. `pageHeight` is unused,
   * as in the source.
   */
  method DetectTableRegions(words: seq<Word>, pageHeight: real, minRows: nat, rowTolerance: real,
                            yKey: real -> real)
    returns (regions: seq<Region>)
    ensures regions == Regions(words, minRows, rowTolerance, yKey)
    ensures words == [] ==> regions == []
    ensures forall r :: r in regions ==> |r.rows| >= minRows && WellFormed(r, words, yKey, rowTolerance)
    ensures Ascending(regions, rowTolerance)
  {
    RegionsProperties(words, minRows, rowTolerance, yKey);
    if |words| == 0 {
      return [];
    }
    var sortedRows := GroupRowsByKey(words, yKey);
    regions := ScanRows(sortedRows, minRows, rowTolerance);
  }
}
