/**
 * Positioned words and the records the detection and extraction stages
 * exchange. A word is the dict produced by the PDF word source, with keys
 * `x0`, `x1`, `top`, `bottom` and `text`; y grows downwards.
 */
module Geometry {
  import opened Seqs

  datatype Word = Word(x0: real, x1: real, top: real, bottom: real, text: string)

  /** `BoundingBox` of app/models/table_models.py. */
  datatype BoundingBox = BoundingBox(x0: real, y0: real, x1: real, y1: real)

  /** `TableConfig` of app/models/table_models.py. */
  datatype TableConfig = TableConfig(page: int, bbox: BoundingBox, columns: seq<real>,
                                     imgWidth: real, imgHeight: real)

  function Min(a: real, b: real): real { if a <= b then a else b }
  function Max(a: real, b: real): real { if a >= b then a else b }

  /** The horizontal centre of a word. */
  function Center(w: Word): real { (w.x0 + w.x1) / 2.0 }

  /** A word overlaps a box: strict overlap on both axes. */
  predicate Overlaps(w: Word, b: BoundingBox) {
    w.x0 < b.x1 && w.x1 > b.x0 && w.top < b.y1 && w.bottom > b.y0
  }

  /** `[w for w in words if overlaps(w, b)]`. */
  function WordsIn(words: seq<Word>, b: BoundingBox): (r: seq<Word>)
    ensures |r| <= |words|
    ensures forall w :: w in r <==> w in words && Overlaps(w, b)
    decreases |words|
  {
    if words == [] then []
    else (if Overlaps(words[0], b) then [words[0]] else []) + WordsIn(words[1..], b)
  }

  /** `min(w['x0'] for w in ws)`. */
  function MinX0(ws: seq<Word>): real
    requires |ws| > 0
    decreases |ws|
  {
    if |ws| == 1 then ws[0].x0 else Min(ws[0].x0, MinX0(ws[1..]))
  }

  /** `max(w['x1'] for w in ws)`. */
  function MaxX1(ws: seq<Word>): real
    requires |ws| > 0
    decreases |ws|
  {
    if |ws| == 1 then ws[0].x1 else Max(ws[0].x1, MaxX1(ws[1..]))
  }

  /** `MinX0` is the least left edge, and some word has it. */
  lemma {:induction false} MinX0Spec(ws: seq<Word>)
    requires |ws| > 0
    ensures forall i :: 0 <= i < |ws| ==> MinX0(ws) <= ws[i].x0
    ensures exists i :: 0 <= i < |ws| && MinX0(ws) == ws[i].x0
    decreases |ws|
  {
    if |ws| > 1 {
      MinX0Spec(ws[1..]);
      assert forall i :: 1 <= i < |ws| ==> ws[1..][i - 1] == ws[i];
      var k :| 0 <= k < |ws[1..]| && MinX0(ws[1..]) == ws[1..][k].x0;
      assert ws[1..][k] == ws[k + 1];
      if MinX0(ws) == ws[0].x0 {
        assert 0 <= 0 < |ws| && MinX0(ws) == ws[0].x0;
      } else {
        assert 0 <= k + 1 < |ws| && MinX0(ws) == ws[k + 1].x0;
      }
    } else {
      assert MinX0(ws) == ws[0].x0;
    }
  }

  /** `MaxX1` is the greatest right edge, and some word has it. */
  lemma {:induction false} MaxX1Spec(ws: seq<Word>)
    requires |ws| > 0
    ensures forall i :: 0 <= i < |ws| ==> ws[i].x1 <= MaxX1(ws)
    ensures exists i :: 0 <= i < |ws| && MaxX1(ws) == ws[i].x1
    decreases |ws|
  {
    if |ws| > 1 {
      MaxX1Spec(ws[1..]);
      assert forall i :: 1 <= i < |ws| ==> ws[1..][i - 1] == ws[i];
      var k :| 0 <= k < |ws[1..]| && MaxX1(ws[1..]) == ws[1..][k].x1;
      assert ws[1..][k] == ws[k + 1];
      if MaxX1(ws) == ws[0].x1 {
        assert 0 <= 0 < |ws| && MaxX1(ws) == ws[0].x1;
      } else {
        assert 0 <= k + 1 < |ws| && MaxX1(ws) == ws[k + 1].x1;
      }
    } else {
      assert MaxX1(ws) == ws[0].x1;
    }
  }

  lemma MinX0Append(a: seq<Word>, b: seq<Word>)
    requires |a| > 0 && |b| > 0
    ensures MinX0(a + b) == Min(MinX0(a), MinX0(b))
  {
    var m := MinX0(a + b);
    MinX0Spec(a + b);
    MinX0Spec(a);
    MinX0Spec(b);
    forall i | 0 <= i < |a| ensures m <= a[i].x0 { assert (a + b)[i] == a[i]; }
    forall i | 0 <= i < |b| ensures m <= b[i].x0 { assert (a + b)[|a| + i] == b[i]; }
    var k :| 0 <= k < |a + b| && m == (a + b)[k].x0;
    if k < |a| { assert (a + b)[k] == a[k]; } else { assert (a + b)[k] == b[k - |a|]; }
  }

  lemma MaxX1Append(a: seq<Word>, b: seq<Word>)
    requires |a| > 0 && |b| > 0
    ensures MaxX1(a + b) == Max(MaxX1(a), MaxX1(b))
  {
    var m := MaxX1(a + b);
    MaxX1Spec(a + b);
    MaxX1Spec(a);
    MaxX1Spec(b);
    forall i | 0 <= i < |a| ensures a[i].x1 <= m { assert (a + b)[i] == a[i]; }
    forall i | 0 <= i < |b| ensures b[i].x1 <= m { assert (a + b)[|a| + i] == b[i]; }
    var k :| 0 <= k < |a + b| && m == (a + b)[k].x1;
    if k < |a| { assert (a + b)[k] == a[k]; } else { assert (a + b)[k] == b[k - |a|]; }
  }

  lemma MinX0Le(ws: seq<Word>, w: Word)
    requires w in ws
    ensures MinX0(ws) <= w.x0
  {
    MinX0Spec(ws);
    var i :| 0 <= i < |ws| && ws[i] == w;
  }

  lemma MaxX1Ge(ws: seq<Word>, w: Word)
    requires w in ws
    ensures w.x1 <= MaxX1(ws)
  {
    MaxX1Spec(ws);
    var i :| 0 <= i < |ws| && ws[i] == w;
  }
}
