/**
 * `TableHandler.words_to_table` of app/handlers/table_handler.py: the words
 * of one table become rows of cell strings.
 *
 * `round(top, 1)` (the sort key), `has_arabic_letter` and `fix_rtl_token`
 * come from code outside this model and are the parameters `roundTop`,
 * `hasArabic` and `fixRtl`.
 */
module TableHandler {
  import opened Wrappers
  import opened Seqs
  import opened Sorting
  import opened Geometry
  import opened Text

  /** Words whose `top` lies within this of a row's first word join that row. */
  const DefaultYTolerance: real := 8.0

  /** `{"text": w["text"].strip(), "x": x_center}` (line 41). */
  datatype Token = Token(text: string, x: real)

  function Abs(x: real): real { if x < 0.0 then -x else x }

  // ---------------------------------------------------------------- rows

  /** Line 17: the key `(round(top, 1), x0)`. */
  function LineKey(roundTop: real -> real): Word -> SortKey {
    (w: Word) => SortKey(roundTop(w.top), w.x0)
  }

  /**
   * Lines 20-29: the rows a sequential scan builds. A word joins the last
   * row when its `top` is within `tol` of the `top` of that row's first
   * word, and starts a new row otherwise.
   */
  function RowGroups(ws: seq<Word>, tol: real): seq<seq<Word>>
    decreases |ws|
  {
    if ws == [] then []
    else
      var g := RowGroups(ws[..|ws| - 1], tol);
      var w := Last(ws);
      if g != [] && Last(g) != [] && Abs(w.top - Last(g)[0].top) <= tol then
        g[..|g| - 1] + [Last(g) + [w]]
      else
        g + [[w]]
  }

  /** A row is non-empty and its other words lie within `tol` of its first word. */
  predicate Anchored(g: seq<Word>, tol: real) {
    g != [] && forall k :: 1 <= k < |g| ==> Abs(g[k].top - g[0].top) <= tol
  }

  /** Row `b`'s first word lies more than `tol` from row `a`'s first word. */
  predicate Apart(a: seq<Word>, b: seq<Word>, tol: real) {
    a != [] && b != [] && Abs(b[0].top - a[0].top) > tol
  }

  ghost predicate GroupsAnchored(gs: seq<seq<Word>>, tol: real) {
    forall j :: 0 <= j < |gs| ==> Anchored(gs[j], tol)
  }

  ghost predicate GroupsSeparated(gs: seq<seq<Word>>, tol: real) {
    forall j :: 0 <= j < |gs| - 1 ==> Apart(gs[j], gs[j + 1], tol)
  }

  /**
   * `gs` cuts `ws`, in order, into rows: every word of a row lies within
   * `tol` of the row's first word, and every row's first word lies more than
   * `tol` from the previous row's first word.
   */
  ghost predicate IsRowPartition(ws: seq<Word>, gs: seq<seq<Word>>, tol: real) {
    Flatten(gs) == ws && GroupsAnchored(gs, tol) && GroupsSeparated(gs, tol)
  }

  /** The row conditions of `p + [l]` are those of `p` and of `l` after it. */
  lemma SplitLast(p: seq<seq<Word>>, l: seq<Word>, tol: real)
    ensures GroupsAnchored(p + [l], tol) <==> GroupsAnchored(p, tol) && Anchored(l, tol)
    ensures GroupsSeparated(p + [l], tol) <==> GroupsSeparated(p, tol) && (p != [] ==> Apart(Last(p), l, tol))
  {
    var gs := p + [l];
    assert forall j :: 0 <= j < |p| ==> gs[j] == p[j];
    assert gs[|p|] == l;
    if GroupsSeparated(gs, tol) && p != [] {
      assert Apart(gs[|p| - 1], gs[|p|], tol);
    }
  }

  lemma AnchoredSnoc(l: seq<Word>, w: Word, tol: real)
    requires Anchored(l, tol) && Abs(w.top - l[0].top) <= tol
    ensures Anchored(l + [w], tol)
  {
    var m := l + [w];
    forall k | 1 <= k < |m| ensures Abs(m[k].top - m[0].top) <= tol {
      if k < |l| {
        assert m[k] == l[k];
      }
    }
  }

  lemma AnchoredPrefix(l: seq<Word>, n: nat, tol: real)
    requires Anchored(l, tol) && 0 < n <= |l|
    ensures Anchored(l[..n], tol)
  {
    var m := l[..n];
    forall k | 1 <= k < |m| ensures Abs(m[k].top - m[0].top) <= tol {
      assert m[k] == l[k];
    }
  }

  /** A word near the anchor of the last row extends that row of a partition. */
  lemma PartitionJoin(init: seq<Word>, p: seq<seq<Word>>, l: seq<Word>, w: Word, tol: real)
    requires IsRowPartition(init, p + [l], tol) && l != [] && Abs(w.top - l[0].top) <= tol
    ensures IsRowPartition(init + [w], p + [l + [w]], tol)
  {
    SplitLast(p, l, tol);
    SplitLast(p, l + [w], tol);
    AnchoredSnoc(l, w, tol);
    FlattenAppend(p, l);
    FlattenAppend(p, l + [w]);
    assert (l + [w])[0] == l[0];
  }

  /** A word far from the anchor of the last row starts a row of its own. */
  lemma PartitionAlone(init: seq<Word>, g: seq<seq<Word>>, w: Word, tol: real)
    requires IsRowPartition(init, g, tol)
    requires g != [] ==> Last(g) != [] && Abs(w.top - Last(g)[0].top) > tol
    ensures IsRowPartition(init + [w], g + [[w]], tol)
  {
    SplitLast(g, [w], tol);
    FlattenAppend(g, [w]);
    assert Anchored([w], tol);
  }

  /** The scan's rows partition the words, in order, into anchored rows. */
  lemma {:induction false} RowGroupsPartition(ws: seq<Word>, tol: real)
    ensures IsRowPartition(ws, RowGroups(ws, tol), tol)
    decreases |ws|
  {
    if ws != [] {
      var init := ws[..|ws| - 1];
      var g: seq<seq<Word>> := RowGroups(init, tol);
      var w: Word := Last(ws);
      RowGroupsPartition(init, tol);
      assert ws == init + [w];
      if g != [] && Last(g) != [] && Abs(w.top - Last(g)[0].top) <= tol {
        var p := g[..|g| - 1];
        assert g == p + [Last(g)];
        PartitionJoin(init, p, Last(g), w, tol);
        assert RowGroups(ws, tol) == p + [Last(g) + [w]];
      } else {
        if g != [] {
          assert Anchored(g[|g| - 1], tol);
        }
        PartitionAlone(init, g, w, tol);
        assert RowGroups(ws, tol) == g + [[w]];
      }
    }
  }

  /**
   * Without its last word, a partition is still one: without the last row
   * when that row is the word alone, and with the last row shortened otherwise.
   */
  lemma PartitionInit(ws: seq<Word>, p: seq<seq<Word>>, l: seq<Word>, tol: real)
    requires ws != [] && IsRowPartition(ws, p + [l], tol)
    ensures l != [] && Last(l) == Last(ws) && Anchored(l, tol)
    ensures p != [] ==> Apart(Last(p), l, tol)
    ensures |l| == 1 ==> IsRowPartition(ws[..|ws| - 1], p, tol)
    ensures |l| > 1 ==> IsRowPartition(ws[..|ws| - 1], p + [l[..|l| - 1]], tol)
  {
    SplitLast(p, l, tol);
    FlattenAppend(p, l);
    var init := ws[..|ws| - 1];
    assert ws == Flatten(p) + l;
    if |l| == 1 {
      assert init == Flatten(p);
    } else {
      var l' := l[..|l| - 1];
      assert l == l' + [Last(l)];
      FlattenAppend(p, l');
      assert init == Flatten(p) + l';
      AnchoredPrefix(l, |l| - 1, tol);
      SplitLast(p, l', tol);
      assert p != [] ==> Apart(Last(p), l', tol) by {
        assert l'[0] == l[0];
      }
    }
  }

  /** A word far from the last row's anchor starts a row of its own. */
  lemma RowGroupsAlone(ws: seq<Word>, p: seq<seq<Word>>, tol: real)
    requires ws != [] && RowGroups(ws[..|ws| - 1], tol) == p
    requires p != [] ==> Apart(Last(p), [Last(ws)], tol)
    ensures RowGroups(ws, tol) == p + [[Last(ws)]]
  {
  }

  /** A word near the last row's anchor joins that row. */
  lemma RowGroupsJoined(ws: seq<Word>, p: seq<seq<Word>>, l: seq<Word>, tol: real)
    requires ws != [] && RowGroups(ws[..|ws| - 1], tol) == p + [l]
    requires l != [] && Abs(Last(ws).top - l[0].top) <= tol
    ensures RowGroups(ws, tol) == p + [l + [Last(ws)]]
  {
    assert Last(p + [l]) == l;
    assert (p + [l])[..|p|] == p;
  }

  lemma PartitionCovers(ws: seq<Word>, p: seq<seq<Word>>, l: seq<Word>, tol: real)
    requires IsRowPartition(ws, p + [l], tol)
    ensures ws != []
  {
    SplitLast(p, l, tol);
    FlattenAppend(p, l);
  }

  lemma UniqueAlone(ws: seq<Word>, p: seq<seq<Word>>, l: seq<Word>, tol: real)
    requires ws != [] && IsRowPartition(ws, p + [l], tol) && |l| == 1
    requires RowGroups(ws[..|ws| - 1], tol) == p
    ensures p + [l] == RowGroups(ws, tol)
  {
    PartitionInit(ws, p, l, tol);
    assert l == [Last(ws)];
    RowGroupsAlone(ws, p, tol);
  }

  lemma UniqueJoined(ws: seq<Word>, p: seq<seq<Word>>, l: seq<Word>, tol: real)
    requires ws != [] && IsRowPartition(ws, p + [l], tol) && |l| > 1
    requires RowGroups(ws[..|ws| - 1], tol) == p + [l[..|l| - 1]]
    ensures p + [l] == RowGroups(ws, tol)
  {
    PartitionInit(ws, p, l, tol);
    var l' := l[..|l| - 1];
    assert l == l' + [Last(ws)];
    assert l'[0] == l[0];
    assert Abs(l[|l| - 1].top - l[0].top) <= tol;
    RowGroupsJoined(ws, p, l', tol);
  }

  /** The anchored row partition is unique: the scan's rows are the only one. */
  lemma {:induction false} RowPartitionUnique(ws: seq<Word>, gs: seq<seq<Word>>, tol: real)
    requires IsRowPartition(ws, gs, tol)
    ensures gs == RowGroups(ws, tol)
    decreases |ws|
  {
    if gs != [] {
      var p := gs[..|gs| - 1];
      var l := Last(gs);
      assert gs == p + [l];
      PartitionCovers(ws, p, l, tol);
      PartitionInit(ws, p, l, tol);
      if |l| == 1 {
        RowPartitionUnique(ws[..|ws| - 1], p, tol);
        UniqueAlone(ws, p, l, tol);
      } else {
        RowPartitionUnique(ws[..|ws| - 1], p + [l[..|l| - 1]], tol);
        UniqueJoined(ws, p, l, tol);
      }
    }
  }

  /** Lines 20-29: the row scan with its running row and fixed anchor. */
  method GroupRows(wordsSorted: seq<Word>, yTolerance: real) returns (rows: seq<seq<Word>>)
    ensures rows == RowGroups(wordsSorted, yTolerance)
  {
    rows := [];
    var currentRow: seq<Word> := [];
    var currentY: Option<real> := None;
    for i := 0 to |wordsSorted|
      invariant (currentRow == []) == (i == 0)
      invariant currentY == if i == 0 then None else Some(currentRow[0].top)
      invariant rows + (if i == 0 then [] else [currentRow]) == RowGroups(wordsSorted[..i], yTolerance)
    {
      var w := wordsSorted[i];
      assert wordsSorted[..i + 1][..i] == wordsSorted[..i];
      assert Last(wordsSorted[..i + 1]) == w;
      ghost var upTo := wordsSorted[..i + 1];
      if currentY.None? || Abs(w.top - currentY.value) <= yTolerance {
        if i == 0 {
          assert wordsSorted[..i] == [];
          RowGroupsAlone(upTo, [], yTolerance);
          assert currentRow + [w] == [w];
        } else {
          RowGroupsJoined(upTo, rows, currentRow, yTolerance);
        }
        currentRow := currentRow + [w];
        currentY := if currentY.None? then Some(w.top) else currentY;
      } else {
        RowGroupsAlone(upTo, rows + [currentRow], yTolerance);
        rows := rows + [currentRow];
        currentRow, currentY := [w], Some(w.top);
      }
    }
    assert wordsSorted[..|wordsSorted|] == wordsSorted;
    if currentRow != [] {
      rows := rows + [currentRow];
    }
  }

  // ------------------------------------------------------------- columns

  /** `n_cols = len(col_bounds) - 1`; `range` of a negative count is empty. */
  function NCols(bounds: seq<real>): nat {
    if |bounds| == 0 then 0 else |bounds| - 1
  }

  /** Line 40: `x` lies in the closed interval of column `i`. */
  predicate InColumn(bounds: seq<real>, i: int, x: real) {
    0 <= i && i + 1 < |bounds| && bounds[i] <= x <= bounds[i + 1]
  }

  function FirstColumnFrom(bounds: seq<real>, x: real, i: nat): (c: Option<nat>)
    ensures c.Some? ==> i <= c.value < NCols(bounds) && InColumn(bounds, c.value, x)
    ensures c.Some? ==> forall j :: i <= j < c.value ==> !InColumn(bounds, j, x)
    ensures c.None? ==> forall j :: i <= j < NCols(bounds) ==> !InColumn(bounds, j, x)
    decreases NCols(bounds) - i
  {
    if i >= NCols(bounds) then None
    else if InColumn(bounds, i, x) then Some(i)
    else FirstColumnFrom(bounds, x, i + 1)
  }

  /** Lines 39-42: the first column whose interval holds `x`, if any. */
  function ColumnOf(bounds: seq<real>, x: real): (c: Option<nat>)
    ensures c.Some? ==> c.value < NCols(bounds) && InColumn(bounds, c.value, x)
    ensures c.Some? ==> forall j :: 0 <= j < c.value ==> !InColumn(bounds, j, x)
    ensures c.None? <==> forall j :: 0 <= j < NCols(bounds) ==> !InColumn(bounds, j, x)
  {
    FirstColumnFrom(bounds, x, 0)
  }

  /** The column a word lands in is fixed by where its centre lies: the first interval holding it. */
  lemma ColumnOfFirstMatch(bounds: seq<real>, x: real, i: nat)
    requires InColumn(bounds, i, x)
    requires forall j :: 0 <= j < i ==> !InColumn(bounds, j, x)
    ensures ColumnOf(bounds, x) == Some(i)
  {
  }

  function TokenOf(w: Word): Token {
    Token(Strip(w.text), Center(w))
  }

  /** `col_tokens[i]` after line 42: the tokens of the words whose centre falls in column `i`, in order. */
  function CellTokens(ws: seq<Word>, bounds: seq<real>, i: nat): (ts: seq<Token>)
    ensures |ts| <= |ws|
    decreases |ws|
  {
    if ws == [] then []
    else
      var w := Last(ws);
      CellTokens(ws[..|ws| - 1], bounds, i) + (if ColumnOf(bounds, Center(w)) == Some(i) then [TokenOf(w)] else [])
  }

  /** Column `i` holds the token of every word whose centre falls first into it, and nothing else. */
  lemma {:induction false} CellTokensMembers(ws: seq<Word>, bounds: seq<real>, i: nat)
    ensures forall t :: t in CellTokens(ws, bounds, i) <==>
      exists w :: w in ws && ColumnOf(bounds, Center(w)) == Some(i) && t == TokenOf(w)
    decreases |ws|
  {
    if ws != [] {
      var init := ws[..|ws| - 1];
      CellTokensMembers(init, bounds, i);
      assert ws == init + [Last(ws)];
      assert forall v :: v in ws <==> v in init || v == Last(ws);
    }
  }

  /** Lines 36-42: every word's token is appended to the first column holding its centre. */
  method AssignColumns(rowWords: seq<Word>, colBounds: seq<real>) returns (colTokens: seq<seq<Token>>)
    ensures |colTokens| == NCols(colBounds)
    ensures forall i :: 0 <= i < |colTokens| ==> colTokens[i] == CellTokens(rowWords, colBounds, i)
  {
    var nCols := NCols(colBounds);
    colTokens := seq(nCols, _ => []);
    for k := 0 to |rowWords|
      invariant |colTokens| == nCols
      invariant forall i :: 0 <= i < nCols ==> colTokens[i] == CellTokens(rowWords[..k], colBounds, i)
    {
      var w := rowWords[k];
      var xCenter := (w.x0 + w.x1) / 2.0;
      ghost var before := colTokens;
      var i := 0;
      while i < nCols
        invariant 0 <= i <= nCols
        invariant colTokens == before
        invariant forall j :: 0 <= j < i ==> !InColumn(colBounds, j, xCenter)
      {
        if colBounds[i] <= xCenter <= colBounds[i + 1] {
          ColumnOfFirstMatch(colBounds, xCenter, i);
          colTokens := colTokens[i := colTokens[i] + [Token(Strip(w.text), xCenter)]];
          break;
        }
        i := i + 1;
      }
      assert rowWords[..k + 1][..k] == rowWords[..k];
      assert Last(rowWords[..k + 1]) == w;
    }
    assert rowWords[..|rowWords|] == rowWords;
  }

  // --------------------------------------------------------------- cells

  /** Line 51: some token of the cell holds an Arabic letter. */
  predicate AnyArabic(toks: seq<Token>, hasArabic: string -> bool) {
    exists k :: 0 <= k < |toks| && hasArabic(toks[k].text)
  }

  function AscendingX(t: Token): SortKey { SortKey(t.x, 0.0) }
  function DescendingX(t: Token): SortKey { SortKey(-t.x, 0.0) }

  /** Line 52: `sorted(toks, key=x, reverse=rtl)`. */
  function OrderTokens(toks: seq<Token>, rtl: bool): seq<Token> {
    if rtl then SortBy(toks, DescendingX) else SortBy(toks, AscendingX)
  }

  /** The tokens of `s` centred at `x`, in order. */
  function TokensAt(s: seq<Token>, x: real): seq<Token>
    decreases |s|
  {
    if s == [] then [] else (if s[0].x == x then [s[0]] else []) + TokensAt(s[1..], x)
  }

  lemma {:induction false} TokensAtKeyClass(s: seq<Token>, x: real)
    ensures TokensAt(s, x) == KeyClass(s, AscendingX, SortKey(x, 0.0))
    ensures TokensAt(s, x) == KeyClass(s, DescendingX, SortKey(-x, 0.0))
    decreases |s|
  {
    if s != [] {
      TokensAtKeyClass(s[1..], x);
    }
  }

  /**
   * Token order within a cell: right to left by centre when the cell holds
   * Arabic, left to right otherwise; tokens with equal centres keep their
   * order; no token is lost or added.
   */
  lemma OrderTokensSpec(toks: seq<Token>, rtl: bool)
    ensures var r := OrderTokens(toks, rtl);
      && multiset(r) == multiset(toks)
      && (rtl ==> forall i, j :: 0 <= i < j < |r| ==> r[i].x >= r[j].x)
      && (!rtl ==> forall i, j :: 0 <= i < j < |r| ==> r[i].x <= r[j].x)
      && (forall x :: TokensAt(r, x) == TokensAt(toks, x))
  {
    var r := OrderTokens(toks, rtl);
    var key := if rtl then DescendingX else AscendingX;
    assert r == SortBy(toks, key);
    assert forall i, j :: 0 <= i < j < |r| ==> KeyLe(key(r[i]), key(r[j]));
    forall x ensures TokensAt(r, x) == TokensAt(toks, x) {
      TokensAtKeyClass(r, x);
      TokensAtKeyClass(toks, x);
      SortByStable(toks, key, if rtl then SortKey(-x, 0.0) else SortKey(x, 0.0));
    }
  }

  /** Line 53: `fix_rtl_token` of every token's text, in order. */
  function Parts(toks: seq<Token>, fixRtl: string -> string): (ps: seq<string>)
    ensures |ps| == |toks|
    ensures forall k :: 0 <= k < |toks| ==> ps[k] == fixRtl(toks[k].text)
  {
    seq(|toks|, k requires 0 <= k < |toks| => fixRtl(toks[k].text))
  }

  /** Lines 47-54: the text of one cell. */
  function CellText(toks: seq<Token>, hasArabic: string -> bool, fixRtl: string -> string): string {
    if toks == [] then ""
    else Join(NonEmpty(Parts(OrderTokens(toks, AnyArabic(toks, hasArabic)), fixRtl)), " ")
  }

  /** A cell is blank exactly when every part it joins is blank; an empty column gives `""`. */
  lemma CellTextBlank(toks: seq<Token>, hasArabic: string -> bool, fixRtl: string -> string)
    ensures toks == [] ==> CellText(toks, hasArabic, fixRtl) == ""
    ensures toks != [] ==>
      var ps := NonEmpty(Parts(OrderTokens(toks, AnyArabic(toks, hasArabic)), fixRtl));
      (AllSpace(CellText(toks, hasArabic, fixRtl)) <==> forall p :: p in ps ==> AllSpace(p))
  {
    if toks != [] {
      JoinBlank(NonEmpty(Parts(OrderTokens(toks, AnyArabic(toks, hasArabic)), fixRtl)), " ");
    }
  }

  /** Lines 47-54: the text of one cell. */
  method BuildCell(toks: seq<Token>, hasArabic: string -> bool, fixRtl: string -> string) returns (cell: string)
    ensures cell == CellText(toks, hasArabic, fixRtl)
  {
    if toks == [] {
      return "";
    }
    var rtl := exists k :: 0 <= k < |toks| && hasArabic(toks[k].text);
    var toksSorted := OrderTokens(toks, rtl);
    var parts := seq(|toksSorted|, k requires 0 <= k < |toksSorted| => fixRtl(toksSorted[k].text));
    assert parts == Parts(toksSorted, fixRtl);
    cell := Join(NonEmpty(parts), " ");
  }

  /** Lines 45-54: every column's cell text. */
  method BuildCells(colTokens: seq<seq<Token>>, hasArabic: string -> bool, fixRtl: string -> string)
    returns (colsOut: seq<string>)
    ensures |colsOut| == |colTokens|
    ensures forall i :: 0 <= i < |colTokens| ==> colsOut[i] == CellText(colTokens[i], hasArabic, fixRtl)
  {
    colsOut := [];
    for i := 0 to |colTokens|
      invariant |colsOut| == i
      invariant forall k :: 0 <= k < i ==> colsOut[k] == CellText(colTokens[k], hasArabic, fixRtl)
    {
      var cell := BuildCell(colTokens[i], hasArabic, fixRtl);
      colsOut := colsOut + [cell];
    }
  }

  // ---------------------------------------------------------------- rows

  /** The cells of one row group, one per column. */
  function RowCells(row: seq<Word>, bounds: seq<real>, hasArabic: string -> bool, fixRtl: string -> string)
    : (cs: seq<string>)
    ensures |cs| == NCols(bounds)
  {
    seq(NCols(bounds), i requires 0 <= i < NCols(bounds) => CellText(CellTokens(row, bounds, i), hasArabic, fixRtl))
  }

  /** Line 56: some cell is non-blank after `strip`. */
  predicate KeepRow(cells: seq<string>) {
    exists k :: 0 <= k < |cells| && Strip(cells[k]) != ""
  }

  function StripAll(cells: seq<string>): (r: seq<string>)
    ensures |r| == |cells|
    ensures forall k :: 0 <= k < |cells| ==> r[k] == Strip(cells[k])
  {
    seq(|cells|, k requires 0 <= k < |cells| => Strip(cells[k]))
  }

  /** Lines 35-57: the stripped cells of every row group that has a non-blank cell. */
  function TableRows(groups: seq<seq<Word>>, bounds: seq<real>, hasArabic: string -> bool,
                     fixRtl: string -> string): seq<seq<string>>
    decreases |groups|
  {
    if groups == [] then []
    else
      var cells := RowCells(Last(groups), bounds, hasArabic, fixRtl);
      TableRows(groups[..|groups| - 1], bounds, hasArabic, fixRtl)
        + (if KeepRow(cells) then [StripAll(cells)] else [])
  }

  /** The value of `words_to_table(words, col_bounds, tol)`. */
  function WordsToTableSpec(words: seq<Word>, bounds: seq<real>, tol: real, roundTop: real -> real,
                            hasArabic: string -> bool, fixRtl: string -> string): seq<seq<string>> {
    if words == [] then []
    else TableRows(RowGroups(SortBy(words, LineKey(roundTop)), tol), bounds, hasArabic, fixRtl)
  }

  /** An output row: `n` stripped cells, not all of them empty. */
  predicate IsOutputRow(r: seq<string>, n: nat) {
    && |r| == n
    && (forall k :: 0 <= k < |r| ==> Strip(r[k]) == r[k])
    && (exists k :: 0 <= k < |r| && r[k] != "")
  }

  /** Line 57: a kept row's stripped cells form an output row. */
  lemma KeptRow(cells: seq<string>)
    requires KeepRow(cells)
    ensures IsOutputRow(StripAll(cells), |cells|)
  {
    var s := StripAll(cells);
    forall k | 0 <= k < |s| ensures Strip(s[k]) == s[k] {
      StripIdempotent(cells[k]);
    }
    var k :| 0 <= k < |cells| && Strip(cells[k]) != "";
    assert s[k] != "";
  }

  /**
   * Every output row has one cell per column, every cell is stripped, some
   * cell of every row is non-empty, and there are no more rows than row groups.
   */
  lemma {:induction false} TableRowsShape(groups: seq<seq<Word>>, bounds: seq<real>, hasArabic: string -> bool,
                                          fixRtl: string -> string)
    ensures var t := TableRows(groups, bounds, hasArabic, fixRtl);
      |t| <= |groups| && forall r :: r in t ==> IsOutputRow(r, NCols(bounds))
    decreases |groups|
  {
    if groups != [] {
      var init := groups[..|groups| - 1];
      TableRowsShape(init, bounds, hasArabic, fixRtl);
      var cells := RowCells(Last(groups), bounds, hasArabic, fixRtl);
      if KeepRow(cells) {
        KeptRow(cells);
      }
    }
  }

  /** The output of a non-empty word list as its row groups see it; no words give no rows. */
  lemma WordsToTableShape(words: seq<Word>, bounds: seq<real>, tol: real, roundTop: real -> real,
                          hasArabic: string -> bool, fixRtl: string -> string)
    ensures var t := WordsToTableSpec(words, bounds, tol, roundTop, hasArabic, fixRtl);
      && (words == [] ==> t == [])
      && |t| <= |RowGroups(SortBy(words, LineKey(roundTop)), tol)|
      && (forall r :: r in t ==> IsOutputRow(r, NCols(bounds)))
  {
    TableRowsShape(RowGroups(SortBy(words, LineKey(roundTop)), tol), bounds, hasArabic, fixRtl);
  }

  /** Lines 36-57 for one row group: its stripped cells, or nothing when every cell is blank. */
  method BuildRow(rowWords: seq<Word>, colBounds: seq<real>, hasArabic: string -> bool,
                  fixRtl: string -> string) returns (out: seq<seq<string>>)
    ensures var cells := RowCells(rowWords, colBounds, hasArabic, fixRtl);
      out == if KeepRow(cells) then [StripAll(cells)] else []
  {
    var colTokens := AssignColumns(rowWords, colBounds);
    var colsOut := BuildCells(colTokens, hasArabic, fixRtl);
    assert colsOut == RowCells(rowWords, colBounds, hasArabic, fixRtl);
    out := [];
    if exists k :: 0 <= k < |colsOut| && Strip(colsOut[k]) != "" {
      var stripped := seq(|colsOut|, k requires 0 <= k < |colsOut| => Strip(colsOut[k]));
      assert stripped == StripAll(colsOut);
      out := [stripped];
    }
  }

  /** Lines 35-57: the cells of every row group, keeping the rows with a non-blank cell. */
  method BuildTable(rows: seq<seq<Word>>, colBounds: seq<real>, hasArabic: string -> bool,
                    fixRtl: string -> string) returns (tableRows: seq<seq<string>>)
    ensures tableRows == TableRows(rows, colBounds, hasArabic, fixRtl)
  {
    tableRows := [];
    for g := 0 to |rows|
      invariant tableRows == TableRows(rows[..g], colBounds, hasArabic, fixRtl)
    {
      var out := BuildRow(rows[g], colBounds, hasArabic, fixRtl);
      assert rows[..g + 1][..g] == rows[..g] && Last(rows[..g + 1]) == rows[g];
      tableRows := tableRows + out;
    }
    assert rows[..|rows|] == rows;
  }

  /** `TableHandler.words_to_table` (lines 11-59). */
  method WordsToTable(words: seq<Word>, colBounds: seq<real>, yTolerance: real, roundTop: real -> real,
                      hasArabic: string -> bool, fixRtl: string -> string)
    returns (tableRows: seq<seq<string>>)
    ensures tableRows == WordsToTableSpec(words, colBounds, yTolerance, roundTop, hasArabic, fixRtl)
  {
    if |words| == 0 {
      return [];
    }
    var wordsSorted := SortBy(words, LineKey(roundTop));
    var rows := GroupRows(wordsSorted, yTolerance);
    tableRows := BuildTable(rows, colBounds, hasArabic, fixRtl);
  }
}
