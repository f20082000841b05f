/** The voltage data frame: one row per reading, in file order.
    Timestamps are opaque values of a type parameter: the analyses never compare,
    sort or validate them, they only carry them to the output. */
module Series {
  import opened Wrappers

  /** One row as loaded from the CSV file: columns `Timestamp` and `Values`. */
  datatype Sample<T> = Sample(timestamp: T, value: real)

  /** One row after the moving-average column has been added. */
  datatype Row<T> = Row(timestamp: T, value: real, movingAverage: Option<real>)

  /** The `Values` column of a loaded frame. */
  function SampleValues<T>(samples: seq<Sample<T>>): (v: seq<real>)
    ensures |v| == |samples|
    ensures forall i :: 0 <= i < |samples| ==> v[i] == samples[i].value
  {
    seq(|samples|, i requires 0 <= i < |samples| => samples[i].value)
  }

  /** The `Timestamp` and `Values` columns of an augmented frame, without the
      moving-average column. */
  function Samples<T>(rows: seq<Row<T>>): (samples: seq<Sample<T>>)
    ensures |samples| == |rows|
    ensures forall i :: 0 <= i < |rows| ==>
              samples[i].timestamp == rows[i].timestamp && samples[i].value == rows[i].value
  {
    seq(|rows|, i requires 0 <= i < |rows| => Sample(rows[i].timestamp, rows[i].value))
  }

  /** The `Values` column of an augmented frame. */
  function Values<T>(rows: seq<Row<T>>): (v: seq<real>)
    ensures |v| == |rows|
    ensures forall i :: 0 <= i < |rows| ==> v[i] == rows[i].value
  {
    SampleValues(Samples(rows))
  }

  /** Positions listed in strictly increasing order, hence without repetition. */
  predicate StrictlyIncreasing(s: seq<nat>) {
    forall i, j :: 0 <= i < j < |s| ==> s[i] < s[j]
  }

  /** A strictly increasing list of positions is determined by the set of
      positions it holds: two such lists with the same members are equal. */
  lemma {:induction false} IncreasingDeterminedByMembers(a: seq<nat>, b: seq<nat>)
    requires StrictlyIncreasing(a) && StrictlyIncreasing(b)
    requires forall x: nat :: x in a <==> x in b
    ensures a == b
    decreases |a|
  {
    assert |a| > 0 ==> a[0] in b;
    assert |b| > 0 ==> b[0] in a;
    if |a| > 0 && |b| > 0 {
      assert a[0] in a && b[0] in b;
      var i :| 0 <= i < |a| && a[i] == b[0];
      var j :| 0 <= j < |b| && b[j] == a[0];
      assert a[0] == b[0] by {
        assert a[0] <= a[i];
        assert b[0] <= b[j];
      }
      forall x: nat
        ensures x in a[1..] <==> x in b[1..]
      {
        if x in a[1..] {
          var k :| 1 <= k < |a| && a[k] == x;
          assert x in b && x != b[0];
        }
        if x in b[1..] {
          var k :| 1 <= k < |b| && b[k] == x;
          assert x in a && x != a[0];
        }
      }
      IncreasingDeterminedByMembers(a[1..], b[1..]);
      assert a == [a[0]] + a[1..];
      assert b == [b[0]] + b[1..];
    }
  }
}
