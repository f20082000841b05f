/** The trailing moving average of the `Values` column
    (`rolling(window=w).mean()` with pandas' default `min_periods = w`). */
module Rolling {
  import opened Wrappers

  /** Exact sum of a window, accumulated from the left. */
  function Sum(s: seq<real>): real
  {
    if |s| == 0 then 0.0 else Sum(s[..|s| - 1]) + s[|s| - 1]
  }

  /** Extending a window on the right adds the new sample. */
  lemma SumExtendRight(v: seq<real>, lo: nat, hi: nat)
    requires lo <= hi < |v|
    ensures Sum(v[lo..hi + 1]) == Sum(v[lo..hi]) + v[hi]
  {
    assert v[lo..hi + 1][..hi - lo] == v[lo..hi];
  }

  /** Dropping the leftmost sample of a window subtracts it. */
  lemma {:induction false} SumDropLeft(v: seq<real>, lo: nat, hi: nat)
    requires lo < hi <= |v|
    ensures Sum(v[lo + 1..hi]) == Sum(v[lo..hi]) - v[lo]
    decreases hi - lo
  {
    if hi == lo + 1 {
      assert v[lo + 1..hi] == [];
      SumExtendRight(v, lo, lo);
      assert v[lo..lo] == [];
    } else {
      SumDropLeft(v, lo, hi - 1);
      SumExtendRight(v, lo + 1, hi - 1);
      SumExtendRight(v, lo, hi - 1);
    }
  }

  /** Arithmetic mean of the w samples ending at position i. */
  function WindowMean(v: seq<real>, w: nat, i: nat): real
    requires 1 <= w <= i + 1 <= |v|
  {
    Sum(v[i + 1 - w..i + 1]) / (w as real)
  }

  /** The column as a whole: one entry per sample, absent until a full window
      of w samples is available, then the mean of the last w samples. */
  function TrailingMean(v: seq<real>, w: nat): (r: seq<Option<real>>)
    requires w >= 1
    ensures |r| == |v|
    ensures forall i :: 0 <= i < |v| ==> (r[i].Some? <==> w <= i + 1)
  {
    seq(|v|, i requires 0 <= i < |v| => if i + 1 < w then None else Some(WindowMean(v, w, i)))
  }

  /** First index of the window of samples held in the running sum before position i. */
  function WindowStart(i: nat, w: nat): nat
  {
    if i < w then 0 else i - w
  }

  /** One step of the running sum: the window ending before i + 1 is the
      window ending before i plus sample i, less the sample that left it. */
  lemma RunningSumStep(v: seq<real>, w: nat, i: nat)
    requires w >= 1 && i < |v|
    ensures Sum(v[WindowStart(i + 1, w)..i + 1])
            == Sum(v[WindowStart(i, w)..i]) + v[i] - (if i >= w then v[i - w] else 0.0)
  {
    SumExtendRight(v, WindowStart(i, w), i);
    if i >= w {
      SumDropLeft(v, i - w, i + 1);
    }
  }

  /** The rolling mean computed in one pass with a running window sum:
      add the incoming sample, subtract the one that leaves the window. */
  method RollingMean(v: seq<real>, w: nat) returns (r: seq<Option<real>>)
    requires w >= 1
    ensures |r| == |v|
    ensures forall i :: 0 <= i < |v| && i + 1 < w ==> r[i] == None
    ensures forall i :: 0 <= i < |v| && w <= i + 1 ==> r[i] == Some(WindowMean(v, w, i))
    ensures r == TrailingMean(v, w)
  {
    ghost var spec := TrailingMean(v, w);
    r := [];
    var sum := 0.0;
    var i := 0;
    while i < |v|
      invariant 0 <= i <= |v|
      invariant |r| == i
      invariant forall j :: 0 <= j < i ==> r[j] == spec[j]
      invariant sum == Sum(v[WindowStart(i, w)..i])
    {
      RunningSumStep(v, w, i);
      sum := sum + v[i];
      if i >= w {
        sum := sum - v[i - w];
      }
      var entry := if i + 1 < w then None else Some(sum / (w as real));
      assert i + 1 >= w ==> WindowStart(i + 1, w) == i + 1 - w;
      assert entry == spec[i];
      r := r + [entry];
      i := i + 1;
    }
  }

  /** The window the source uses: five samples. Positions 0 to 3 are absent and
      position i >= 4 holds the mean of samples i - 4 .. i. */
  lemma FiveSampleMean(v: seq<real>)
    ensures forall i :: 0 <= i < |v| && i < 4 ==> TrailingMean(v, 5)[i] == None
    ensures forall i :: 4 <= i < |v| ==>
              TrailingMean(v, 5)[i] == Some((v[i - 4] + v[i - 3] + v[i - 2] + v[i - 1] + v[i]) / 5.0)
  {
    forall i | 4 <= i < |v|
      ensures Sum(v[i - 4..i + 1]) == v[i - 4] + v[i - 3] + v[i - 2] + v[i - 1] + v[i]
    {
      SumExtendRight(v, i - 4, i);
      SumExtendRight(v, i - 4, i - 1);
      SumExtendRight(v, i - 4, i - 2);
      SumExtendRight(v, i - 4, i - 3);
      SumExtendRight(v, i - 4, i - 4);
      assert v[i - 4..i - 4] == [];
    }
  }

  /** A constant series averages to itself once the window is full. */
  lemma {:induction false} ConstantSeriesMean(v: seq<real>, w: nat, c: real)
    requires w >= 1
    requires forall i :: 0 <= i < |v| ==> v[i] == c
    ensures forall i :: w - 1 <= i < |v| ==> TrailingMean(v, w)[i] == Some(c)
  {
    forall i: nat | w <= i + 1 <= |v|
      ensures TrailingMean(v, w)[i] == Some(c)
    {
      ConstantSum(v[i + 1 - w..i + 1], c);
      assert WindowMean(v, w, i) == ((w as real) * c) / (w as real);
      assert ((w as real) * c) / (w as real) == c;
    }
  }

  /** The sum of n copies of c is n * c. */
  lemma {:induction false} ConstantSum(s: seq<real>, c: real)
    requires forall i :: 0 <= i < |s| ==> s[i] == c
    ensures Sum(s) == (|s| as real) * c
  {
    if |s| > 0 {
      ConstantSum(s[..|s| - 1], c);
    }
  }
}
