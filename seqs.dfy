/** Sequence helpers shared by the table-recovery modules. */
module Seqs {

  function Last<T>(s: seq<T>): T
    requires |s| > 0
  {
    s[|s| - 1]
  }

  /** Concatenation of a list of lists, in order (Python `sum(rows, [])`). */
  function Flatten<T>(ss: seq<seq<T>>): (r: seq<T>)
    decreases |ss|
  {
    if ss == [] then [] else Flatten(ss[..|ss| - 1]) + Last(ss)
  }

  lemma FlattenAppend<T>(ss: seq<seq<T>>, s: seq<T>)
    ensures Flatten(ss + [s]) == Flatten(ss) + s
  {
    assert (ss + [s])[..|ss|] == ss;
  }

  /** Every element of a member list occurs in the flattening. */
  lemma {:induction false} InFlatten<T>(ss: seq<seq<T>>, j: nat, x: T)
    requires j < |ss| && x in ss[j]
    ensures x in Flatten(ss)
    decreases |ss|
  {
    if j < |ss| - 1 {
      InFlatten(ss[..|ss| - 1], j, x);
    }
  }

  /** Every element of the flattening comes from some member list. */
  lemma {:induction false} FromFlatten<T>(ss: seq<seq<T>>, x: T)
    requires x in Flatten(ss)
    ensures exists j :: 0 <= j < |ss| && x in ss[j]
    decreases |ss|
  {
    if x !in Last(ss) {
      FromFlatten(ss[..|ss| - 1], x);
      var j :| 0 <= j < |ss| - 1 && x in ss[..|ss| - 1][j];
      assert x in ss[j];
    }
  }
}
