/** Accelerating downward slopes: positions where a falling series falls
    faster than it did one step earlier (`find_accelerating_slopes`). */
module Slopes {
  import opened Series

  /** First differences, as `np.diff` computes them: one fewer than the samples,
      and none at all for an empty or one-sample series. */
  function Diff(v: seq<real>): (d: seq<real>)
    ensures |v| == 0 ==> |d| == 0
    ensures |v| > 0 ==> |d| == |v| - 1
    ensures forall i :: 0 <= i < |d| ==> d[i] == v[i + 1] - v[i]
  {
    if |v| < 2 then [] else seq(|v| - 1, i requires 0 <= i < |v| - 1 => v[i + 1] - v[i])
  }

  /** The declarative event condition: position k ends a downward step that is
      strictly steeper than the downward step ending at k - 1. The event is
      attributed to the endpoint of the steeper step. */
  predicate IsAcceleration(v: seq<real>, k: int) {
    2 <= k < |v| && v[k] - v[k - 1] < v[k - 1] - v[k - 2] < 0.0
  }

  /** Whether position k is an event depends only on the samples up to k, so the
      events of a prefix of length n are the events of the series below n. */
  lemma PrefixEvents(v: seq<real>, n: nat, earlier: seq<nat>)
    requires n <= |v|
    requires forall k: nat :: k in earlier <==> IsAcceleration(v[..n], k)
    ensures forall k: nat :: k in earlier <==> k < n && IsAcceleration(v, k)
    ensures forall j :: 0 <= j < |earlier| ==> earlier[j] < n
  {
    forall k: nat
      ensures IsAcceleration(v[..n], k) <==> k < n && IsAcceleration(v, k)
    {
      if k < n {
        assert v[..n][k] == v[k];
      }
    }
    forall j | 0 <= j < |earlier|
      ensures earlier[j] < n
    {
      assert earlier[j] in earlier;
    }
  }

  /** The reported positions as a function: every event position, in increasing order. */
  function AcceleratingPositions(v: seq<real>): (ps: seq<nat>)
    ensures StrictlyIncreasing(ps)
    ensures forall k: nat :: k in ps <==> IsAcceleration(v, k)
    decreases |v|
  {
    if |v| < 3 then []
    else
      var n := |v| - 1;
      var earlier := AcceleratingPositions(v[..n]);
      PrefixEvents(v, n, earlier);
      earlier + (if IsAcceleration(v, n) then [n] else [])
  }

  /** The loop invariant: `positions` lists, in increasing order, exactly the
      events at positions up to `upTo`. */
  ghost predicate ScannedUpTo(v: seq<real>, positions: seq<nat>, upTo: nat) {
    && StrictlyIncreasing(positions)
    && (forall j :: 0 <= j < |positions| ==> positions[j] <= upTo)
    && (forall k: nat :: k in positions <==> k <= upTo && IsAcceleration(v, k))
  }

  /** One loop step: examining position upTo + 1 and appending it when it is an
      event extends the scan by one position. */
  lemma ScanStep(v: seq<real>, positions: seq<nat>, upTo: nat, emit: bool)
    requires ScannedUpTo(v, positions, upTo)
    requires emit <==> IsAcceleration(v, upTo + 1)
    ensures ScannedUpTo(v, positions + (if emit then [upTo + 1] else []), upTo + 1)
  {
  }

  /** The detector as the source runs it: one pass over the first differences,
      emitting, for loop index i, the sample at position i + 1. */
  method FindAcceleratingSlopes<T>(df: seq<Row<T>>) returns (events: seq<T>, positions: seq<nat>)
    ensures |events| == |positions|
    ensures forall j :: 0 <= j < |positions| ==>
              positions[j] < |df| && events[j] == df[positions[j]].timestamp
    ensures |df| < 3 ==> events == []
    ensures StrictlyIncreasing(positions)
    ensures forall k: nat :: k in positions <==> IsAcceleration(Values(df), k)
    ensures positions == AcceleratingPositions(Values(df))
  {
    var v := Values(df);
    var slopes := Diff(v);
    events, positions := [], [];
    var i := 1;
    while i < |slopes|
      invariant 1 <= i
      invariant i <= |slopes| || |slopes| <= 1
      invariant |events| == |positions|
      invariant forall j :: 0 <= j < |positions| ==>
                  positions[j] < |df| && events[j] == df[positions[j]].timestamp
      invariant ScannedUpTo(v, positions, i)
    {
      var emit := slopes[i] < slopes[i - 1] < 0.0;
      ScanStep(v, positions, i, emit);
      if emit {
        events := events + [df[i + 1].timestamp];
        positions := positions + [i + 1];
      }
      i := i + 1;
    }
    IncreasingDeterminedByMembers(positions, AcceleratingPositions(v));
  }

  /** A series that never goes down has no accelerating downward slope. */
  lemma {:induction false} NonDecreasingHasNoEvents(v: seq<real>)
    requires forall i :: 1 <= i < |v| ==> v[i - 1] <= v[i]
    ensures AcceleratingPositions(v) == []
  {
    var ps := AcceleratingPositions(v);
    if ps != [] {
      NonDecreasingNoStep(v, ps[0]);
    }
  }

  /** No position of a non-decreasing series closes a downward step. */
  lemma NonDecreasingNoStep(v: seq<real>, k: int)
    requires forall i :: 1 <= i < |v| ==> v[i - 1] <= v[i]
    ensures !IsAcceleration(v, k)
  {
  }

  /** A run of m downward differences, each strictly steeper than the one before,
      starting at sample s (so covering samples s .. s + m). */
  ghost predicate SteepeningRun(v: seq<real>, s: nat, m: nat) {
    && s + m < |v|
    && (forall j :: s <= j < s + m ==> v[j + 1] - v[j] < 0.0)
    && (forall j :: s < j < s + m ==> v[j + 1] - v[j] < v[j] - v[j - 1])
  }

  /** Every step of a steepening run after its first is reported on its own:
      m differences give the m - 1 events s + 2 .. s + m, with no run-collapsing. */
  lemma RunReportsEachStep(v: seq<real>, s: nat, m: nat)
    requires SteepeningRun(v, s, m)
    ensures forall k :: s + 2 <= k <= s + m ==> k in AcceleratingPositions(v)
  {
  }

  /** When the whole series is one steepening run, the events are exactly
      positions 2, 3, ..., |v| - 1. */
  lemma {:induction false} WholeRunEvents(v: seq<real>)
    requires |v| >= 2
    requires SteepeningRun(v, 0, |v| - 1)
    ensures AcceleratingPositions(v) == seq(|v| - 2, j requires 0 <= j < |v| - 2 => j + 2)
  {
    var expected: seq<nat> := seq(|v| - 2, j requires 0 <= j < |v| - 2 => j + 2);
    var ps := AcceleratingPositions(v);
    RunReportsEachStep(v, 0, |v| - 1);
    forall k: nat
      ensures k in expected <==> k in ps
    {
      if 2 <= k < |v| {
        assert expected[k - 2] == k;
        assert k in ps;
      } else {
        assert !IsAcceleration(v, k);
      }
    }
    IncreasingDeterminedByMembers(expected, ps);
  }

  /** A series whose drops grow by one each step: differences -1, -2, -3, -4
      report positions 2, 3 and 4. */
  lemma FallingExample()
    ensures AcceleratingPositions([10.0, 9.0, 7.0, 4.0, 0.0]) == [2, 3, 4]
  {
    var v := [10.0, 9.0, 7.0, 4.0, 0.0];
    assert v[1] - v[0] == -1.0 && v[2] - v[1] == -2.0 && v[3] - v[2] == -3.0 && v[4] - v[3] == -4.0;
    assert SteepeningRun(v, 0, 4);
    WholeRunEvents(v);
    assert seq(|v| - 2, j requires 0 <= j < |v| - 2 => j + 2) == [2, 3, 4];
  }
}
