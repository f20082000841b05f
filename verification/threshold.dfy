/** Rows whose voltage is strictly below a threshold (`df[df['Values'] < 20]`). */
module Threshold {
  import opened Series

  /** A row kept by the filter, with the position it had in the frame
      (the filtered frame keeps the original index labels). */
  datatype Kept<T> = Kept(index: nat, row: Row<T>)

  /** The positions carried by the kept rows, in output order. */
  function Indices<T>(ks: seq<Kept<T>>): (ix: seq<nat>)
    ensures |ix| == |ks|
    ensures forall j :: 0 <= j < |ks| ==> ix[j] == ks[j].index
  {
    seq(|ks|, j requires 0 <= j < |ks| => ks[j].index)
  }

  /** The position of each kept row is among the reported positions. */
  lemma IndexIsMember<T>(ks: seq<Kept<T>>, j: nat)
    requires j < |ks|
    ensures ks[j].index in Indices(ks)
  {
  }

  /** Every kept entry is, unchanged, the row of the frame at its recorded position. */
  ghost predicate RowsOf<T>(ks: seq<Kept<T>>, df: seq<Row<T>>) {
    forall j :: 0 <= j < |ks| ==> ks[j].index < |df| && ks[j].row == df[ks[j].index]
  }

  /** The filter: the order-preserving subsequence of rows whose value is
      strictly below the threshold; a value equal to it is not kept. */
  function BelowThreshold<T>(df: seq<Row<T>>, threshold: real): (ks: seq<Kept<T>>)
    ensures RowsOf(ks, df)
    ensures StrictlyIncreasing(Indices(ks))
    ensures forall i: nat :: i in Indices(ks) <==> i < |df| && df[i].value < threshold
    decreases |df|
  {
    if |df| == 0 then []
    else
      var n := |df| - 1;
      var earlier := BelowThreshold(df[..n], threshold);
      var last := if df[n].value < threshold then [Kept(n, df[n])] else [];
      assert Indices(earlier + last) == Indices(earlier) + Indices(last);
      assert forall i :: 0 <= i < n ==> df[..n][i] == df[i];
      assert forall j :: 0 <= j < |earlier| ==> Indices(earlier)[j] in Indices(earlier);
      assert Indices(last) == if df[n].value < threshold then [n] else [];
      earlier + last
  }

  /** The filter result is the only list with those three properties: any list of
      kept rows that are rows of the frame, in increasing position order, holding
      exactly the positions below the threshold, is the filter result. */
  lemma {:induction false} BelowThresholdIsUnique<T>(df: seq<Row<T>>, threshold: real, ks: seq<Kept<T>>)
    requires RowsOf(ks, df)
    requires StrictlyIncreasing(Indices(ks))
    requires forall i: nat :: i in Indices(ks) <==> i < |df| && df[i].value < threshold
    ensures ks == BelowThreshold(df, threshold)
  {
    var expected := BelowThreshold(df, threshold);
    IncreasingDeterminedByMembers(Indices(ks), Indices(expected));
    assert |ks| == |expected|;
    forall j | 0 <= j < |ks|
      ensures ks[j] == expected[j]
    {
      assert Indices(ks)[j] == Indices(expected)[j];
    }
  }

  /** When no value is below the threshold, nothing is reported. */
  lemma {:induction false} NothingBelow<T>(df: seq<Row<T>>, threshold: real)
    requires forall i :: 0 <= i < |df| ==> threshold <= df[i].value
    ensures BelowThreshold(df, threshold) == []
  {
    var ks := BelowThreshold(df, threshold);
    if ks != [] {
      IndexIsMember(ks, 0);
    }
  }
}
