# Voltage series feature extraction

A Dafny model of the analysis core of a small voltage dashboard (`app.py`). The
script loads one series of (timestamp, value) readings into a data frame, adds a
five-sample trailing moving average, lists the readings below 20 volts and
reports "accelerating downward slopes": positions where the series falls faster
than it did one step earlier. Everything around that core (CSV loading, chart
construction, page output) is presentation.

The model works on exact `real` values. Timestamps are a type parameter `T`:
the analyses never compare, sort or validate them, they only carry them to the
output, so nothing here assumes the series is in time order.

Modules, one per concern:

- `Wrappers` (`wrappers.dfy`): `Option`, for moving-average entries that are undefined (NaN in pandas).
- `Series` (`series.dfy`): the frame rows `Sample` (as loaded) and `Row` (with the moving-average column), the projection `Samples` that drops the added column, the `Values` column, and the fact that a strictly increasing position list is determined by its members.
- `Slopes` (`slopes.dfy`): `find_accelerating_slopes`. It is written twice: as the source's loop over first differences (`FindAcceleratingSlopes`) and as a declarative characterisation (`IsAcceleration`, `AcceleratingPositions`). The two are proved equal.
- `Rolling` (`rolling.dfy`): `rolling(window=w).mean()`. The one-pass running-sum computation (`RollingMean`) is proved equal to the window-by-window definition (`TrailingMean`).
- `Threshold` (`threshold.dfy`): `df[df['Values'] < 20]`, the order-preserving subsequence of rows strictly below the threshold, each row keeping its original position.
- `Dashboard` (`dashboard.dfy`): the constants 5 and 20 and the script's sequence of analyses over one frame.

For loop index `i` over the first differences, the detector reports the
sample at position `i + 1` (`iloc[i + 1]`), the endpoint of the steeper step.
So `[10, 9, 7, 4, 0]` reports positions 2, 3 and 4 (`Slopes.FallingExample`).

## Model

| member | source | states |
|---|---|---|
| `Slopes.Diff` | app.py:9 | The first differences have one entry fewer than the series (none for an empty series), and entry i is `v[i+1] - v[i]`. |
| `Slopes.AcceleratingPositions` | app.py:9-13 | Declarative event list: position k is listed iff `2 <= k < n` and `v[k]-v[k-1] < v[k-1]-v[k-2] < 0`. Positions are listed in strictly increasing order, so there are no duplicates. |
| `Slopes.FindAcceleratingSlopes` | app.py:8-14 | The source loop. Each event is the timestamp of an in-bounds sample, and fewer than 3 samples give no events. The reported positions are strictly increasing and are exactly those satisfying the declarative condition. They equal `AcceleratingPositions`. |
| `Slopes.NonDecreasingNoStep` | app.py:12 | In a series that never decreases, no position satisfies the event condition, because no difference is negative. |
| `Slopes.NonDecreasingHasNoEvents` | app.py:12 | A non-decreasing series (which includes constant and strictly increasing series) yields no events. |
| `Slopes.RunReportsEachStep` | app.py:11-13 | A run of m negative, strictly steepening differences starting at sample s reports every position s+2 .. s+m. That is m-1 events, with no run-collapsing. |
| `Slopes.WholeRunEvents` | app.py:11-13 | When the whole series is one steepening run, the events are exactly positions 2, 3, ..., n-1. |
| `Slopes.FallingExample` | app.py:8-14 | `[10, 9, 7, 4, 0]` reports positions 2, 3 and 4. |
| `Rolling.TrailingMean` | app.py:26 | The average column has one entry per sample. An entry is present exactly when a full window of w samples ends at it. |
| `Rolling.RollingMean` | app.py:26 | The running-sum computation has the input's length. Entries before the first full window are absent. Entry i afterwards is the mean of samples i-w+1 .. i. The whole column equals `TrailingMean`. |
| `Rolling.FiveSampleMean` | app.py:26 | With window 5, entries 0..3 are absent and entry i >= 4 is `(v[i-4]+v[i-3]+v[i-2]+v[i-1]+v[i]) / 5`. |
| `Rolling.ConstantSeriesMean` | app.py:26 | On a constant series c, every entry after the first full window is c. |
| `Threshold.BelowThreshold` | app.py:33 | Each kept entry is the frame's row at its recorded position, unchanged. Positions are strictly increasing, so the original order is kept. Position i is kept iff `df[i].value < threshold`; a value equal to the threshold is excluded. |
| `Threshold.BelowThresholdIsUnique` | app.py:33 | Any list of rows with those three properties is the filter result. So the result is exactly the order-preserving subsequence of rows below the threshold. |
| `Threshold.NothingBelow` | app.py:33 | When no value is below the threshold, the result is empty. |
| `Dashboard.AddMovingAverage` | app.py:26 | Adding the average column leaves every row's timestamp and value unchanged: dropping the new column gives back exactly the loaded samples, and the `Values` column equals the loaded one. Rows 0..3 have no average; row i >= 4 has the mean of the last five values. |
| `Dashboard.Analyse` | app.py:23-36 | The frame is the loaded samples with the average column added. The below-20 list is the filter applied to that frame, so each kept row carries its moving-average cell unchanged. Stated against the loaded samples, the kept rows are exactly the readings strictly below 20, in order, and the events are the timestamps of `AcceleratingPositions` of the loaded values. |

## Left out

- Peak and low detection (app.py:29-30): these call `scipy.signal.find_peaks`, whose source is not part of this model. Its documented behaviour, which reports the middle of a flat plateau, cannot be checked against anything here.
- CSV loading, timestamp parsing and `@st.cache` (app.py:16-23): file I/O and library parsing. The model starts from the loaded sequence of samples.
- Chart construction and Streamlit output (app.py:38-58): presentation only.
- Floating-point and NaN semantics of pandas and numpy: values are exact reals. Rounding in differences and means is therefore not modelled, and neither is NaN propagation through `rolling().mean()` or comparisons with NaN. pandas' own rolling sum also subtracts the leaving sample, but in floating point.
- Moving-average window: the code only uses 5. `RollingMean` and `TrailingMean` take any window w >= 1, and a window below 1 is excluded by precondition rather than modelled as an error.
