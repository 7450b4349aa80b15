# Transfer length from distributed fibre-optic strain readings

The Transfer Length Calculator reads a sheet of strain readings. Every
column but the last is a strain channel, and its header names the sensor
position along the fibre. The last column holds the time of each sample.

The tool first chooses one sample row in one of three ways:

- at the peak of the strain integral over the sensor;
- the first row of the sheet;
- the row nearest a typed time.

On that row it then finds the two ends of the transfer zone. The readings
are grouped into strain-amplitude bins of width eps, and the fullest bin is
taken. Scanning that bin's points from the front gives the Live End: the
first point that lies closer than l_ol to its successor. Scanning from the
back gives the Dead End: the last point that lies closer than l_ol to its
predecessor, measured from the last reading. Every result goes into a
results table keyed by time, eps and l_ol within a tolerance, and New Start
empties that table.

The model is written over exact reals. It has these parts:

- `common.dfy`: `Option`, plus the first-maximum and first-minimum searches (`np.argmax`, `idxmin`).
- `table.dfy`: the sheet, and the dropping of rows whose strain cells are all missing.
- `integral.dfy`: the unit-spaced trapezoidal integral, the peak time, and the integral loop.
- `selection.dfy`: the three ways to select a row.
- `boundary.dfy`: point extraction, the amplitude bins with histogram and digitize semantics, the dominant bin, and the Live End / Dead End scans.
- `ledger.dfy`: the tolerance-keyed replace-or-append of the results table.
- `session.dfy`: the application state as a class, with the selection actions, Confirm, filing a result, and New Start.

The code does not sort the points by position. The integral uses the
column index as abscissa. The points keep column order in the bins and in
both scans. The model follows the code in all three respects.

## Model

| member | source | states |
|---|---|---|
| Numeric.ArgMax | TLC_DFOS.py:138-139 | the index returned holds a greatest value and every earlier value is strictly smaller (the first maximum) |
| Numeric.ArgMin | TLC_DFOS.py:571-572 | the index returned holds a least value and every earlier value is strictly greater (the first minimum) |
| StrainTable.Clean | TLC_DFOS.py:106-109 | no kept row has all its strain cells missing, and none is invented |
| StrainTable.CleanKeepsExactly | TLC_DFOS.py:108-109 | a row is kept exactly when it is in the sheet and has at least one strain reading |
| StrainTable.CleanDistributes | TLC_DFOS.py:109 | the filter works row by row, so it keeps the sheet order |
| StrainIntegral.Trapz | TLC_DFOS.py:121-124 | the unit-spaced trapezoidal integral is 0 for fewer than two readings, and otherwise equals the sum of the readings minus half of each end reading |
| StrainIntegral.RowIntegral | TLC_DFOS.py:121-124 | a row's integral runs over its strain cells with missing cells read as 0: the filled readings' sum minus half of each end reading, and 0 for at most one strain column |
| StrainIntegral.ZeroRowIntegral | TLC_DFOS.py:121-124 | a row with at most one strain column, or whose present readings are all 0, integrates to 0 (missing cells read as 0) |
| StrainIntegral.PeakTime | TLC_DFOS.py:109-112 | None exactly when no row has a reading; otherwise the time of the first kept row with the greatest integral |
| StrainIntegral.PeakTimeIsSheetTime | TLC_DFOS.py:134-139 | the peak time is the time of a row of the sheet that has a reading |
| StrainIntegral.IntegralWithMax | TLC_DFOS.py:114-139 | the loop yields one integral and one time per kept row in sheet order, and the peak time |
| TimeSelection.Closest | TLC_DFOS.py:571-572 | the first row nearest the target time |
| TimeSelection.ClosestHitsExactTime | TLC_DFOS.py:570-572 | when some row carries the target time, the first such row is chosen |
| TimeSelection.SelectByIntegral | TLC_DFOS.py:564-572 | None exactly when no row has a reading; otherwise the first kept row whose time is the peak time |
| TimeSelection.SelectFirstRow | TLC_DFOS.py:691-693 | row 0 of the unfiltered sheet; None on an empty sheet |
| TimeSelection.SelectManual | TLC_DFOS.py:703-707 | None when the text is not a number or the sheet is empty; otherwise the first row of the whole sheet nearest the typed time |
| TimeSelection.ManualSelectedTime | TLC_DFOS.py:707-709 | a time is recorded exactly when a value was typed and the sheet has rows; it is the time of the row the manual selection picks, one of the sheet's times, nearest the typed value |
| TimeSelection.ManualExactTime | TLC_DFOS.py:704-709 | a typed time that a row carries selects that row and records that time |
| TimeSelection.ManualSelectedTimeAsWritten | TLC_DFOS.py:706-709 | as the code is written, the recorded time is the least distance from the typed value to any sheet time: never negative, no greater than any row's distance, and attained by some row |
| TimeSelection.ManualTimeAsWrittenIsDistance | TLC_DFOS.py:706-709 | typing a nonzero time that a row carries records 0 as written, not that time |
| Boundary.ExtractPoints | TLC_DFOS.py:851-871 | builds one (strain, position) point per numeric-headed column with a present cell; its properties are the three lemmas below |
| Boundary.LastColumnIsLastPoint | TLC_DFOS.py:871-901 | a reading in the last column under a numeric header becomes the last point, the one Dead End is measured from |
| Boundary.ExtractPointsByColumn | TLC_DFOS.py:851-871 | the points come from the columns with a numeric header and a present cell, one each, in column order, unsorted |
| Boundary.ExtractPointsEmpty | TLC_DFOS.py:871-875 | no point exactly when every cell under a numeric header is missing |
| Boundary.MaxStrain | TLC_DFOS.py:878 | the greatest strain among the points, attained by one of them |
| Boundary.BinCount | TLC_DFOS.py:878 | the edges 0, eps, 2·eps, … stop below M + eps, so the count n is at least 1 and the last edge is the first that reaches the greatest strain M |
| Boundary.BinIndex | TLC_DFOS.py:880-885 | the `np.digitize` index less one, floor(strain / eps); its properties are the two lemmas below |
| Boundary.NegativeStrainHasNoBin | TLC_DFOS.py:880-885 | a strain gets a negative bin index, and so joins no bin list, exactly when it is negative |
| Boundary.BinIndexIsEdgeInterval | TLC_DFOS.py:880-885 | a strain's bin index is k exactly when it lies in [k·eps, (k+1)·eps) |
| Boundary.Members | TLC_DFOS.py:880-885 | bin k's list is no longer than the point list, and every point in it has bin index k |
| Boundary.MembersExactly | TLC_DFOS.py:880-885 | a point is in bin k's list exactly when its strain lies in [k·eps, (k+1)·eps) |
| Boundary.MembersDistributes | TLC_DFOS.py:881-885 | each bin list keeps its points in input order |
| Boundary.HistCount | TLC_DFOS.py:879 | a bin's count never exceeds the number of points |
| Boundary.Histogram | TLC_DFOS.py:879 | one count per bin, each between 0 and the number of points |
| Boundary.HistCountVersusMembers | TLC_DFOS.py:879-885 | each histogram count equals its list's length, except that the last bin also counts points exactly on the top edge |
| Boundary.HistCountPositive | TLC_DFOS.py:879 | a bin that holds a point has a positive count |
| Boundary.TopEdgeCountZero | TLC_DFOS.py:879 | with every strain below the top edge, no point sits on it |
| Boundary.FillBins | TLC_DFOS.py:880-885 | the loop fills one list per bin, and each list equals that bin's members |
| Boundary.DominantBin | TLC_DFOS.py:886 | the first bin with the greatest histogram count |
| Boundary.FirstLiveFrom | TLC_DFOS.py:891-898 | the first member at or after i that the Live End test accepts |
| Boundary.LiveEnd | TLC_DFOS.py:891-898 | None exactly for an empty list; otherwise the position of an accepted member such that every earlier member is at least l_ol before its successor |
| Boundary.LastDeadFrom | TLC_DFOS.py:899-905 | the last member at or before i that the Dead End test accepts |
| Boundary.DeadEnd | TLC_DFOS.py:899-905 | None exactly for an empty list; otherwise the last point's position minus that of an accepted member such that every later member is at least l_ol beyond its predecessor |
| Boundary.FirstLiveUnique | TLC_DFOS.py:891-898 | an accepted member with no accepted member before it is the one the Live End scan finds |
| Boundary.LastDeadUnique | TLC_DFOS.py:899-905 | an accepted member with no accepted member after it is the one the Dead End scan finds |
| Boundary.ScanLiveEnd | TLC_DFOS.py:891-898 | the forward scan that stops at the first accepted member computes the Live End |
| Boundary.ScanDeadEnd | TLC_DFOS.py:899-905 | the backward scan that stops at the last accepted member computes the Dead End |
| Boundary.SinglePointEnds | TLC_DFOS.py:891-905 | a one-point list gives Live End p and Dead End last − p |
| Boundary.Detect | TLC_DFOS.py:878-905 | Live End and Dead End are each defined exactly when the dominant bin's list is non-empty |
| Boundary.DetectBin | TLC_DFOS.py:878-888 | the detection reports the first fullest bin and its edges k·eps and (k+1)·eps |
| Boundary.DetectMembers | TLC_DFOS.py:880-898 | the reported points are exactly those inside the dominant bin's half-open interval, and both ends are defined exactly when there is one |
| Boundary.DominantBinOccupied | TLC_DFOS.py:878-891 | unless the greatest strain is an exact multiple of eps, the dominant bin holds a point and both ends are defined |
| Boundary.EmptyDominantBin | TLC_DFOS.py:878-891 | one reading of 0.02 with eps = 0.01 is counted in the last bin but dropped from its list, so neither end is defined |
| Boundary.ThreePointScenario | TLC_DFOS.py:878-905 | readings 0.01, 0.02 and 0.03 at 0, 10 and 25 with eps = 0.01 and l_ol = 12 give bin 2 holding only the reading at 10, Live End 10 and Dead End 15 |
| ResultLedger.FirstMatch | TLC_DFOS.py:917-925 | the first entry within 1e-6 in time and 1e-9 in eps and l_ol, or the length when there is none |
| ResultLedger.Upserted | TLC_DFOS.py:916-927 | the first matching entry is replaced in place and every other entry is kept at the same length; with no match the record is appended after all the old entries |
| ResultLedger.UpsertIdempotent | TLC_DFOS.py:826-827 | filing the same record again, as each resize does, changes nothing |
| ResultLedger.UpsertSupersedes | TLC_DFOS.py:916-927 | two records with keys within tolerance leave one entry, the later one |
| ResultLedger.ToleranceExample | TLC_DFOS.py:919-921 | times 5.0 and 5.0000001 with eps 0.023 and 0.023000000001 share one entry |
| Dashboard.Analyse | TLC_DFOS.py:848-888 | a failed analysis never reports success or an input-format error, which are settled before the analysis runs |
| Dashboard.AnalyseOutcomes | TLC_DFOS.py:848-888 | no numeric header, or a numeric header with every cell under it missing, is reported as its own failure; a non-positive greatest strain is reported as no bins; a detection happens exactly when there is a numeric header, at least one point and a positive greatest strain, and it is the detection on the extracted points |
| Dashboard.RunAnalysis | TLC_DFOS.py:848-905 | the step-by-step extraction, binning, argmax and the two scans compute the analysis |
| Dashboard.Session.constructor | TLC_DFOS.py:255-261 | nothing loaded, nothing selected, no results |
| Dashboard.Session.LoadTable | TLC_DFOS.py:441 | the outcome of reading the file replaces the loaded sheet |
| Dashboard.Session.SelectTimeByIntegral | TLC_DFOS.py:559-572 | fails without change when there is no sheet or no reading; otherwise stores the peak time and the first kept row at it |
| Dashboard.Session.SelectTimeFirstRow | TLC_DFOS.py:686-693 | fails without change when there is no sheet or no row; otherwise stores row 0 and its time |
| Dashboard.Session.SelectTimeManual | TLC_DFOS.py:697-713 | fails without change when there is no number, no sheet or no row; otherwise stores the nearest row and its own time |
| Dashboard.Session.Upsert | TLC_DFOS.py:916-927 | the replace-or-append loop yields the upserted table |
| Dashboard.Session.Confirm | TLC_DFOS.py:831-846 | unparseable or non-positive eps or l_ol changes nothing; otherwise the analysis of the selected row decides the new state |
| Dashboard.Session.ConfirmAccepted | TLC_DFOS.py:845-927 | eps and l_ol are stored; a failed analysis leaves the result and the table alone; a detection becomes the current result and is filed under the selected time |
| Dashboard.Session.NewStart | TLC_DFOS.py:988-994 | the results table is emptied and the selected time cleared; the loaded sheet and the selected row stay |

## Left out

- The Qt screens, dialogs, message boxes, the error label, the plot-size arithmetic and plotting are presentation only. The debug output and the progress callback are informational.
- Reading and writing Excel files, copying and saving plots, and the file path are I/O. `Dashboard.Session.LoadTable` takes the outcome of reading the file as its argument.
- Floating point: all values are exact reals. There is no rounding in the `np.arange` edges or in the tolerance comparisons, and there are no NaN or infinite inputs. A NaN typed as eps or l_ol would pass the positivity check in the code; the model has no such value.
- Header and number parsing is not modelled. Each strain header arrives already classified as a position (`Some`) or not (`None`). eps, l_ol and the typed time arrive as `Option<real>`, with None standing for text that does not parse. A cancelled time dialog is also None.
- The time column is taken to be present in every row. Its header is taken not to read as a number, so the labelled selected row never offers the time cell as a strain reading.
- Adding the `time_diff` column to the sheet in place (line 706) changes which column later runs treat as the time. Those later runs are not modelled; its effect within the same call is under Findings.
- Dashboard.AnalyseOutcomes: when the greatest strain is not positive the code has no bins and `np.argmax` raises an exception that nothing catches. The model reports the outcome NoAmplitudeBins instead. eps and l_ol are already stored, and the result and the table are untouched.
- TimeSelection.SelectFirstRow: on an empty sheet the code raises an uncaught IndexError. The model returns None, and the session keeps its state.
- TimeSelection.SelectManual: on an empty sheet `idxmin` raises ValueError, which the code reports as an invalid format. The model returns None, the same as for unparseable text.
- Dashboard.Session.constructor: the code creates the results table lazily when the dashboard first opens (lines 821-822); the model starts with an empty one.

## Findings

| source | as written | input that shows it | evidently intended | confidence | as-written member | corrected member |
|---|---|---|---|---|---|---|
| TLC_DFOS.py:706-709 | line 706 appends the `time_diff` column to the sheet, so the "last column" read at line 708 is that column, and the recorded time is the distance between the row's time and the typed value | a sheet whose rows include time 5.0, typed 5.0: the selected row is right, but the recorded time is 0.0 instead of 5.0, and the result is filed under time 0.0 | the selected row's own time, as the comment on line 709 says | high, not executed | TimeSelection.ManualTimeAsWrittenIsDistance | TimeSelection.ManualSelectedTime |
