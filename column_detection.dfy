/**
 * `_detect_columns` of app/services/table_detection_service.py.
 *
 * Column boundaries of a region are the region's left edge, the centres of
 * the wide vertical gaps between the words' edges that no word crosses, and
 * the region's right edge, thinned so that consecutive boundaries are more
 * than `MinColumnSpacing` apart.
 */
module ColumnDetection {
  import opened Seqs
  import opened Sorting
  import opened Geometry
  import opened RegionDetection

  /** Two adjacent edges must be more than this apart to leave a gap (line 130). */
  const MinGapWidth: real := 10.0
  /** Consecutive column boundaries are more than this apart (line 143). */
  const MinColumnSpacing: real := 30.0

  /** `x0, x1` of every word, in order (lines 119-122). */
  function Edges(words: seq<Word>): (e: seq<real>)
    ensures |e| == 2 * |words|
    ensures forall i :: 0 <= i < |words| ==> e[2 * i] == words[i].x0 && e[2 * i + 1] == words[i].x1
    decreases |words|
  {
    if words == [] then []
    else
      var init := words[..|words| - 1];
      var e := Edges(init) + [Last(words).x0, Last(words).x1];
      assert forall i :: 0 <= i < |init| ==> words[i] == init[i];
      e
  }

  /** An edge of the list is the left or right edge of the word at some index. */
  lemma EdgeIndex(words: seq<Word>, x: real) returns (j: nat)
    requires x in Edges(words)
    ensures j < |words| && (x == words[j].x0 || x == words[j].x1)
  {
    var e := Edges(words);
    var k :| 0 <= k < |e| && e[k] == x;
    j := k / 2;
    assert e[2 * j] == words[j].x0 && e[2 * j + 1] == words[j].x1;
  }

  /** Every word contributes both of its edges. */
  lemma WordEdges(words: seq<Word>, i: nat)
    requires i < |words|
    ensures words[i].x0 in Edges(words) && words[i].x1 in Edges(words)
  {
    assert Edges(words)[2 * i] == words[i].x0;
    assert Edges(words)[2 * i + 1] == words[i].x1;
  }

  /** A word crosses a vertical line strictly inside its extent (line 133). */
  predicate Crosses(w: Word, c: real) {
    w.x0 < c < w.x1
  }

  /** `[w for w in words if w['x0'] < c < w['x1']]`. */
  function Crossing(words: seq<Word>, c: real): (r: seq<Word>)
    ensures forall w :: w in r <==> w in words && Crosses(w, c)
    ensures r == [] <==> forall w :: w in words ==> !Crosses(w, c)
    decreases |words|
  {
    if words == [] then []
    else
      var rest := Crossing(words[1..], c);
      assert forall w :: w in words ==> w == words[0] || w in words[1..];
      if Crosses(words[0], c) then [words[0]] + rest else rest
  }

  /** The centre between the edges `pos[i]` and `pos[i + 1]`. */
  function Mid(pos: seq<real>, i: nat): real
    requires i + 1 < |pos|
  {
    (pos[i] + pos[i + 1]) / 2.0
  }

  /** Between `pos[i]` and `pos[i + 1]` lies a gap wider than `MinGapWidth` that no word crosses. */
  predicate IsGapAt(pos: seq<real>, words: seq<Word>, i: nat) {
    && i + 1 < |pos|
    && pos[i + 1] - pos[i] > MinGapWidth
    && forall w :: w in words ==> !Crosses(w, Mid(pos, i))
  }

  /** The gap centres found among the first `n` adjacent pairs of `pos` (lines 127-135). */
  function GapsUpTo(pos: seq<real>, words: seq<Word>, n: nat): (gs: seq<real>)
    requires n == 0 || n < |pos|
    ensures forall g :: g in gs <==> exists i :: 0 <= i < n && IsGapAt(pos, words, i) && g == Mid(pos, i)
    ensures StrictlyIncreasing(pos) ==> StrictlyIncreasing(gs)
    ensures StrictlyIncreasing(pos) && n > 0 ==> forall g :: g in gs ==> pos[0] < g < pos[n]
    decreases n
  {
    if n == 0 then []
    else
      var prev := GapsUpTo(pos, words, n - 1);
      var gs := prev + (if IsGapAt(pos, words, n - 1) then [Mid(pos, n - 1)] else []);
      assert StrictlyIncreasing(pos) ==> forall g :: g in prev ==> pos[0] < g < pos[n - 1] by {
        if StrictlyIncreasing(pos) && n - 1 == 0 {
          assert prev == [];
        }
      }
      assert StrictlyIncreasing(pos) ==> StrictlyIncreasing(gs) by {
        if StrictlyIncreasing(pos) && IsGapAt(pos, words, n - 1) {
          forall i, j | 0 <= i < j < |gs| ensures gs[i] < gs[j] {
            if j == |gs| - 1 {
              assert gs[i] in prev;
            } else {
              assert gs[i] == prev[i] && gs[j] == prev[j];
            }
          }
        }
      }
      gs
  }

  /** The gap centres over all adjacent pairs of edges. */
  function Gaps(pos: seq<real>, words: seq<Word>): seq<real> {
    GapsUpTo(pos, words, if |pos| == 0 then 0 else |pos| - 1)
  }

  /**
   * Lines 141-144: keep the first boundary, then each boundary that lies
   * more than `MinColumnSpacing` to the right of the last one kept.
   */
  function Thin(cols: seq<real>): (r: seq<real>)
    requires cols != []
    ensures r != [] && r[0] == cols[0] && |r| <= |cols|
    ensures forall i :: 0 <= i < |r| - 1 ==> r[i + 1] - r[i] > MinColumnSpacing
    ensures forall x :: x in r ==> x in cols
    decreases |cols|
  {
    if |cols| == 1 then cols
    else
      var init := cols[..|cols| - 1];
      var f := Thin(init);
      var c := Last(cols);
      if c - Last(f) > MinColumnSpacing then
        assert forall x :: x in f + [c] ==> x in f || x == c;
        f + [c]
      else f
  }

  /** Boundaries more than `MinColumnSpacing` apart strictly increase. */
  lemma {:induction false} SpacedIncreasing(r: seq<real>)
    requires forall i :: 0 <= i < |r| - 1 ==> r[i + 1] - r[i] > MinColumnSpacing
    ensures StrictlyIncreasing(r)
    decreases |r|
  {
    if |r| > 1 {
      var t := r[1..];
      forall i | 0 <= i < |t| - 1 ensures t[i + 1] - t[i] > MinColumnSpacing {
        assert t[i] == r[i + 1] && t[i + 1] == r[i + 2];
      }
      SpacedIncreasing(t);
      forall i, j | 0 <= i < j < |r| ensures r[i] < r[j] {
        if i == 0 {
          if j > 1 {
            assert r[j] == t[j - 1] && r[1] == t[0];
          }
        } else {
          assert r[i] == t[i - 1] && r[j] == t[j - 1];
        }
      }
    }
  }

  /**
   * For any candidates, every candidate `c` has a kept boundary `k` with
   * `c - k <= MinColumnSpacing`; `ThinCoversOrdered` places `k` at or left of `c`.
   */
  lemma {:induction false} ThinCovers(cols: seq<real>, c: real)
    requires cols != [] && c in cols
    ensures exists k :: k in Thin(cols) && c - k <= MinColumnSpacing
    decreases |cols|
  {
    if |cols| == 1 {
      assert c == cols[0] && c in Thin(cols);
    } else {
      var init := cols[..|cols| - 1];
      var f := Thin(init);
      var r := Thin(cols);
      assert forall x :: x in f ==> x in r;
      if c in init {
        ThinCovers(init, c);
      } else {
        assert c == Last(cols);
        assert Last(f) in f;
        if c - Last(f) > MinColumnSpacing {
          assert c in r;
        }
      }
    }
  }

  /** Thinning ordered candidates never ends beyond the last candidate. */
  lemma ThinLastLe(cols: seq<real>)
    requires cols != [] && NonDecreasing(cols)
    ensures Last(Thin(cols)) <= Last(cols)
  {
    var r := Thin(cols);
    assert Last(r) in r;
    var k :| 0 <= k < |cols| && cols[k] == Last(r);
  }

  /**
   * Over ordered candidates each dropped candidate lies at most
   * `MinColumnSpacing` to the right of a kept boundary (the filter compares it
   * with `filtered[-1]`, the last one kept before it).
   */
  lemma {:induction false} ThinCoversOrdered(cols: seq<real>, c: real)
    requires cols != [] && NonDecreasing(cols) && c in cols
    ensures exists k :: k in Thin(cols) && k <= c && c - k <= MinColumnSpacing
    decreases |cols|
  {
    if |cols| == 1 {
      assert c == cols[0] && c in Thin(cols);
    } else {
      var init := cols[..|cols| - 1];
      var f := Thin(init);
      var r := Thin(cols);
      assert forall x :: x in f ==> x in r;
      assert NonDecreasing(init);
      if c in init {
        ThinCoversOrdered(init, c);
      } else {
        assert c == Last(cols);
        assert Last(f) in f;
        if c - Last(f) > MinColumnSpacing {
          assert c in r;
        } else {
          ThinLastLe(init);
          assert Last(init) <= c;
        }
      }
    }
  }

  /**
   * The last candidate survives exactly when it lies more than
   * `MinColumnSpacing` beyond the last boundary kept among the others.
   */
  lemma ThinKeepsLast(cols: seq<real>)
    requires |cols| >= 2 && StrictlyIncreasing(cols)
    ensures Last(Thin(cols)) == Last(cols) <==> Last(cols) - Last(Thin(cols[..|cols| - 1])) > MinColumnSpacing
  {
    var init := cols[..|cols| - 1];
    var f := Thin(init);
    if Last(cols) - Last(f) <= MinColumnSpacing {
      assert Thin(cols) == f;
      assert Last(f) in f;
      var k :| 0 <= k < |init| && init[k] == Last(f);
      assert cols[k] < cols[|cols| - 1];
    }
  }

  /** The boundaries `_detect_columns(words, region)` returns, for the region's edges `x0` and `x1`. */
  function Columns(words: seq<Word>, x0: real, x1: real): seq<real> {
    if words == [] then [x0, x1]
    else Thin([x0] + Gaps(SortedDistinct(Edges(words)), words) + [x1])
  }

  /** Line 138: the region's edges around the gap centres. */
  function Candidates(words: seq<Word>, x0: real, x1: real): (cols: seq<real>)
    ensures cols != [] && cols[0] == x0 && Last(cols) == x1
  {
    [x0] + Gaps(SortedDistinct(Edges(words)), words) + [x1]
  }

  /** With no words the region's two edges come back unfiltered (line 116). */
  lemma ColumnsNoWords(x0: real, x1: real)
    ensures Columns([], x0, x1) == [x0, x1]
  {
  }

  /**
   * The boundaries of a region with words start at its left edge and
   * increase by more than `MinColumnSpacing` each.
   */
  lemma ColumnsSpaced(words: seq<Word>, x0: real, x1: real)
    requires words != []
    ensures var cs := Columns(words, x0, x1);
      && cs[0] == x0
      && StrictlyIncreasing(cs)
      && (forall i :: 0 <= i < |cs| - 1 ==> cs[i + 1] - cs[i] > MinColumnSpacing)
  {
    SpacedIncreasing(Columns(words, x0, x1));
  }

  /**
   * Every boundary other than the region's edges is the centre of a gap
   * wider than `MinGapWidth` between two adjacent distinct word edges that
   * no word crosses.
   */
  lemma ColumnsAreGaps(words: seq<Word>, x0: real, x1: real, c: real)
    requires words != [] && c in Columns(words, x0, x1) && c != x0 && c != x1
    ensures IsGapCentre(words, c)
  {
    var pos := SortedDistinct(Edges(words));
    var gs := Gaps(pos, words);
    var cols := Candidates(words, x0, x1);
    assert Columns(words, x0, x1) == Thin(cols);
    assert c in cols;
    assert cols == [x0] + gs + [x1];
    assert c in gs;
    var n := if |pos| == 0 then 0 else |pos| - 1;
    assert gs == GapsUpTo(pos, words, n);
    var i :| 0 <= i < n && IsGapAt(pos, words, i) && c == Mid(pos, i);
    assert 0 <= i < |pos| - 1 && IsGapAt(pos, words, i) && c == Mid(pos, i);
  }

  /** `c` is the centre of a gap between two adjacent distinct edges of `words`. */
  ghost predicate IsGapCentre(words: seq<Word>, c: real) {
    var pos := SortedDistinct(Edges(words));
    exists i :: 0 <= i < |pos| - 1 && IsGapAt(pos, words, i) && c == Mid(pos, i)
  }

  /**
   * For any words, every gap centre and the region's right edge have a
   * boundary `k` with `c - k <= MinColumnSpacing`; `ColumnsCoverOrdered`
   * places `k` at or left of `c` for the words of a region.
   */
  lemma ColumnsCover(words: seq<Word>, x0: real, x1: real, c: real)
    requires words != []
    requires c == x1 || c in Gaps(SortedDistinct(Edges(words)), words)
    ensures exists k :: k in Columns(words, x0, x1) && c - k <= MinColumnSpacing
  {
    var cols := Candidates(words, x0, x1);
    assert Columns(words, x0, x1) == Thin(cols);
    assert c in cols by {
      if c != x1 {
        assert cols == [x0] + Gaps(SortedDistinct(Edges(words)), words) + [x1];
      }
    }
    ThinCovers(cols, c);
  }

  /** Every word overlaps the strip between `x0` and `x1` (line 34 picks only such words). */
  predicate WithinSpan(words: seq<Word>, x0: real, x1: real) {
    forall j :: 0 <= j < |words| ==> words[j].x0 < x1 && x0 < words[j].x1
  }

  /**
   * The centre of a gap bounded by an edge of `wl` on the left and an edge
   * of `wr` on the right, neither crossing it, lies strictly inside the strip
   * both words overlap.
   */
  lemma GapBetweenWords(wl: Word, wr: Word, a: real, b: real, x0: real, x1: real)
    requires a < b && (a == wl.x0 || a == wl.x1) && (b == wr.x0 || b == wr.x1)
    requires wl.x0 < x1 && x0 < wl.x1 && wr.x0 < x1 && x0 < wr.x1
    requires !Crosses(wl, (a + b) / 2.0) && !Crosses(wr, (a + b) / 2.0)
    ensures x0 < (a + b) / 2.0 < x1
  {
  }

  /**
   * For words overlapping the strip, every gap centre lies strictly inside
   * it: a centre at or left of `x0` would be crossed by the word whose edge
   * bounds the gap on the left, one at or right of `x1` by the word whose
   * edge bounds it on the right.
   */
  lemma GapInside(words: seq<Word>, x0: real, x1: real, g: real)
    requires WithinSpan(words, x0, x1)
    requires g in Gaps(SortedDistinct(Edges(words)), words)
    ensures x0 < g < x1
  {
    var pos := SortedDistinct(Edges(words));
    var i := GapIndex(pos, words, if |pos| == 0 then 0 else |pos| - 1, g);
    GapAtInside(pos, words, i, x0, x1);
  }

  /** The pair of adjacent edges a gap centre comes from. */
  lemma {:induction false} GapIndex(pos: seq<real>, words: seq<Word>, n: nat, g: real) returns (i: nat)
    requires (n == 0 || n < |pos|) && g in GapsUpTo(pos, words, n)
    ensures i < n && IsGapAt(pos, words, i) && g == Mid(pos, i)
    decreases n
  {
    var prev := GapsUpTo(pos, words, n - 1);
    if g in prev {
      i := GapIndex(pos, words, n - 1, g);
    } else {
      i := n - 1;
    }
  }

  lemma GapAtInside(pos: seq<real>, words: seq<Word>, i: nat, x0: real, x1: real)
    requires pos == SortedDistinct(Edges(words)) && i + 1 < |pos|
    requires WithinSpan(words, x0, x1) && IsGapAt(pos, words, i)
    ensures x0 < Mid(pos, i) < x1
  {
    var a, b := pos[i], pos[i + 1];
    assert a < b;
    assert a in pos && b in pos;
    var l := EdgeIndex(words, a);
    var r := EdgeIndex(words, b);
    assert words[l] in words && words[r] in words;
    GapBetweenWords(words[l], words[r], a, b, x0, x1);
  }

  /** All gap centres at once. */
  lemma GapsInside(words: seq<Word>, x0: real, x1: real)
    requires WithinSpan(words, x0, x1)
    ensures forall g :: g in Gaps(SortedDistinct(Edges(words)), words) ==> x0 < g < x1
  {
    forall g | g in Gaps(SortedDistinct(Edges(words)), words) ensures x0 < g < x1 {
      GapInside(words, x0, x1, g);
    }
  }

  /** Increasing values strictly inside `(x0, x1)`, framed by `x0` and `x1`, increase. */
  lemma FramedIncreasing(x0: real, gs: seq<real>, x1: real)
    requires StrictlyIncreasing(gs) && x0 < x1
    requires forall g :: g in gs ==> x0 < g < x1
    ensures StrictlyIncreasing([x0] + gs + [x1])
  {
    var c := [x0] + gs + [x1];
    forall i, j | 0 <= i < j < |c| ensures c[i] < c[j] {
      if 0 < i {
        assert c[i] == gs[i - 1] && gs[i - 1] in gs;
      }
      if j < |c| - 1 {
        assert c[j] == gs[j - 1] && gs[j - 1] in gs;
      }
    }
  }

  /** For words overlapping a non-empty strip the candidates strictly increase. */
  lemma CandidatesIncreasing(words: seq<Word>, x0: real, x1: real)
    requires WithinSpan(words, x0, x1) && x0 < x1
    ensures StrictlyIncreasing(Candidates(words, x0, x1))
  {
    var pos := SortedDistinct(Edges(words));
    var gs := Gaps(pos, words);
    assert gs == GapsUpTo(pos, words, if |pos| == 0 then 0 else |pos| - 1);
    GapsInside(words, x0, x1);
    FramedIncreasing(x0, gs, x1);
  }

  /**
   * For the words of a region, every gap centre and the right edge lie at
   * most `MinColumnSpacing` to the right of, or on, a boundary.
   */
  lemma ColumnsCoverOrdered(words: seq<Word>, x0: real, x1: real, c: real)
    requires words != [] && WithinSpan(words, x0, x1) && x0 < x1
    requires c == x1 || c in Gaps(SortedDistinct(Edges(words)), words)
    ensures exists k :: k in Columns(words, x0, x1) && k <= c && c - k <= MinColumnSpacing
  {
    var cols := Candidates(words, x0, x1);
    CandidatesIncreasing(words, x0, x1);
    assert Columns(words, x0, x1) == Thin(cols);
    assert c in cols by {
      if c != x1 {
        assert cols == [x0] + Gaps(SortedDistinct(Edges(words)), words) + [x1];
      }
    }
    ThinCoversOrdered(cols, c);
  }

  /** For the words of a region, every boundary lies within the region. */
  lemma ColumnsWithin(words: seq<Word>, x0: real, x1: real)
    requires WithinSpan(words, x0, x1) && x0 < x1
    ensures forall c :: c in Columns(words, x0, x1) ==> x0 <= c <= x1
  {
    if words != [] {
      var cols := Candidates(words, x0, x1);
      CandidatesIncreasing(words, x0, x1);
      assert Columns(words, x0, x1) == Thin(cols);
      forall c | c in Columns(words, x0, x1) ensures x0 <= c <= x1 {
        var k :| 0 <= k < |cols| && cols[k] == c;
        assert cols[0] <= cols[k] <= cols[|cols| - 1];
      }
    }
  }

  /**
   * Lines 138-144 for the right edge of a region with words: it is kept
   * exactly when it lies more than `MinColumnSpacing` beyond the last
   * boundary kept before it.
   */
  lemma ColumnsRightEdge(words: seq<Word>, x0: real, x1: real)
    requires words != [] && WithinSpan(words, x0, x1) && x0 < x1
    ensures var before := Thin([x0] + Gaps(SortedDistinct(Edges(words)), words));
      Last(Columns(words, x0, x1)) == x1 <==> x1 - Last(before) > MinColumnSpacing
  {
    var cols := Candidates(words, x0, x1);
    CandidatesIncreasing(words, x0, x1);
    assert cols[..|cols| - 1] == [x0] + Gaps(SortedDistinct(Edges(words)), words);
    ThinKeepsLast(cols);
  }

  /**
   * For the words of a region, the last boundary is the right edge or lies
   * at most `MinColumnSpacing` to its left.
   */
  lemma ColumnsEndNearRight(words: seq<Word>, x0: real, x1: real)
    requires words != [] && WithinSpan(words, x0, x1) && x0 < x1
    ensures Last(Columns(words, x0, x1)) <= x1 && x1 - Last(Columns(words, x0, x1)) <= MinColumnSpacing
  {
    var cs := Columns(words, x0, x1);
    ColumnsWithin(words, x0, x1);
    assert Last(cs) in cs;
    ColumnsCoverOrdered(words, x0, x1, x1);
    var k :| k in cs && k <= x1 && x1 - k <= MinColumnSpacing;
    SpacedIncreasing(cs);
    var i :| 0 <= i < |cs| && cs[i] == k;
    assert cs[i] <= cs[|cs| - 1];
  }

  /** A region wider than `MinColumnSpacing` gets at least two boundaries. */
  lemma ColumnsAtLeastTwo(words: seq<Word>, x0: real, x1: real)
    requires x1 - x0 > MinColumnSpacing
    ensures |Columns(words, x0, x1)| >= 2
  {
    if words != [] {
      var cs := Columns(words, x0, x1);
      ColumnsCover(words, x0, x1, x1);
      var k :| k in cs && x1 - k <= MinColumnSpacing;
      assert k != x0;
      assert k != cs[0];
    }
  }

  /** Lines 119-122: both edges of every word. */
  method CollectEdges(words: seq<Word>) returns (xs: seq<real>)
    ensures xs == Edges(words)
  {
    xs := [];
    for i := 0 to |words|
      invariant xs == Edges(words[..i])
    {
      assert words[..i + 1][..i] == words[..i];
      xs := xs + [words[i].x0];
      xs := xs + [words[i].x1];
    }
    assert words[..|words|] == words;
  }

  /** Lines 127-135: the centres of the wide gaps between adjacent edges that no word crosses. */
  method FindGaps(xPositions: seq<real>, words: seq<Word>) returns (gaps: seq<real>)
    ensures gaps == Gaps(xPositions, words)
  {
    gaps := [];
    if |xPositions| == 0 {
      return;
    }
    for i := 0 to |xPositions| - 1
      invariant gaps == GapsUpTo(xPositions, words, i)
    {
      var gapSize := xPositions[i + 1] - xPositions[i];
      if gapSize > MinGapWidth {
        var gapCenter := (xPositions[i] + xPositions[i + 1]) / 2.0;
        var crossingWords := Crossing(words, gapCenter);
        if |crossingWords| == 0 {
          gaps := gaps + [gapCenter];
        }
      }
    }
  }

  /** Lines 141-144: the spacing filter. */
  method ThinColumns(columns: seq<real>) returns (filtered: seq<real>)
    requires columns != []
    ensures filtered == Thin(columns)
  {
    filtered := [columns[0]];
    for j := 1 to |columns|
      invariant filtered == Thin(columns[..j])
    {
      assert columns[..j + 1][..j] == columns[..j];
      var col := columns[j];
      if col - filtered[|filtered| - 1] > MinColumnSpacing {
        filtered := filtered + [col];
      }
    }
    assert columns[..|columns|] == columns;
  }

  /** The region's own columns: line 116 when it has no words, the gap scan otherwise. */
  method DetectColumns(words: seq<Word>, region: Region) returns (columns: seq<real>)
    ensures columns == Columns(words, region.x0, region.x1)
  {
    if |words| == 0 {
      return [region.x0, region.x1];
    }

    var xs := CollectEdges(words);
    var xPositions := SortedDistinct(xs);
    var gaps := FindGaps(xPositions, words);
    var filtered := ThinColumns([region.x0] + gaps + [region.x1]);
    SpacedIncreasing(filtered);
    SortRealsSorted(filtered);
    columns := SortReals(filtered);
  }
}
