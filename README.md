# Fibrosis network ODE runner: a verified model of its bookkeeping

The repository simulates a 91-node signalling network of cardiac fibroblasts
with a logic-based ODE model. It compares the activities of the nodes under
four scenarios:

- regular parameters;
- one node knocked down;
- high TGF-B;
- knock-down together with high TGF-B.

It reports the differences as bar charts and plots the time courses of
highlighted nodes. `RapidODE_run.py` runs the same simulation once for each
row of a parameter spreadsheet and collects the activities at time 100.

This project models everything in those two scripts except the numerics and
the I/O. The ODE solver and the right-hand side are parameters. Activities
are exact reals. Python dictionaries keep their insertion order.

| module | file | what it models |
|---|---|---|
| `Wrappers` | wrappers.dfy | `Option` and `Result` |
| `PyDict` | pydict.dfy | insertion-ordered string-keyed dictionaries (`d[k] = v`, `d.get`, `list(d.values())`) |
| `Simulation` | simulation.dfy | `run_simulation` (the sampling loop), `create_results_dict`, `run_simulation_and_return_dict` (the index arithmetic and row extraction), shared verbatim by both scripts |
| `Differential` | differential.dfy | the computational half of `generate_bar_graph`: the delta map, a caller-supplied order kept exactly, or a stable ascending sort by delta |
| `Series` | series.dfy | `plot_results` before drawing: column selection for highlighted nodes, the legend order and the label each drawn line receives |
| `RunGraphs` | run_graphs.dfy | `run_graphs`: trimming, filtering and de-duplicating the highlight entries, splitting them into known and unknown names, the focus-node and display-type fallbacks, the scenario dispatch and the reuse of the first chart's order |
| `RapidBatch` | batch.dfy | the module-level loop of `RapidODE_run.py`: `str.split(',')`, cell parsing, skipping rows with an empty TAU cell, collecting results in row order |

## How the solver is modelled

One call `r.integrate(r.t + dt)` is a `Stepper`. It either reaches the
target time with a new state, or fails and reports where it stopped; after a
failure `r.successful()` is false. The modelled loop is the source loop:

- it appends exactly one time and one row per call;
- it stops after a failure;
- it stops once the time has passed the end of the horizon.

The imperative parts keep their form:

- `SampleLoop` is a `while` loop;
- `CreateResultsDict` fills a dictionary in a loop;
- `PartitionHighlights` removes entries from one list and appends to another;
- `RunBatch` appends one result per kept row.

Each of these is proved equal to a specification function. The properties
are proved about those functions.

Two facts about the code are easy to misread, and the model states them as
the code has them:

- **The initial state.** The sampling loop never records the initial state:
  the first sample is the one at `t0 + dt` (NetfluxODE_run.py:19-23).
- **Which rows are skipped.** The batch loop skips only rows whose TAU cell
  is empty (RapidODE_run.py:57). Any other empty or non-numeric cell raises,
  and the raised exception ends the whole script (`RowErrors`,
  `CollectStopsAt`).

## Model

| member | source | states |
|---|---|---|
| PyDict.Empty | NetfluxODE_run.py:51 | `{}` is a well-formed dictionary without keys |
| PyDict.Set | NetfluxODE_run.py:55 | `d[k] = v`: k maps to v and every other key keeps its value. A new key goes to the end of the key order; an existing key keeps its place |
| PyDict.Values | NetfluxODE_run.py:65 | `list(d.values())` has one value per key, in key order |
| Simulation.DtOfHorizon | NetfluxODE_run.py:16 | for the horizon `[0, T]` with T ≠ 0 the step `tspan[1] / ((T*150)/10)` is exactly 1/15, and the loop terminates |
| Simulation.Sample | NetfluxODE_run.py:20-23 | the time list and the row list grow in lockstep: they always have the same length |
| Simulation.SampleReached | NetfluxODE_run.py:20-23 | a successful step records its target time `t + dt` and the new state, and the loop goes on from there |
| Simulation.SampleFailed | NetfluxODE_run.py:20-23 | a failed step records the time and state where the solver stopped, and the loop ends |
| Simulation.SampleLoop | NetfluxODE_run.py:19-24 | the `while` loop returns the sampled trajectory when every row has as many entries as there are names, and the `np.append` shape error otherwise |
| Simulation.RunSimulation | NetfluxODE_run.py:14-24 | `run_simulation` divides by zero when `specific_time` is 0; otherwise it runs the sampling loop with `dt = tspan[1] / (specific_time*15)` |
| Simulation.SampleTimes | NetfluxODE_run.py:20-23 | every sample but the last is at `t + (k+1)·dt` and not after the horizon, so the loop continued only while time ≤ `tspan[1]` and the solver succeeded |
| Simulation.SampleCount | NetfluxODE_run.py:20-23 | with a solver that never fails the loop collects exactly `floor((tEnd - t)/dt) + 1` samples at `t + dt, t + 2dt, …`, and the last one is past the horizon |
| Simulation.HorizonSamples | RapidODE_run.py:20-27 | over `[0, T]` the samples are at `1/15, 2/15, …`, and there are `floor(15T) + 1` of them |
| Simulation.SampleRowsWidth | NetfluxODE_run.py:19-22 | a solver that keeps the state width produces rows of that width, so `np.append` never fails |
| Simulation.ZipDictKeys | NetfluxODE_run.py:50-56 | the dictionary's keys are exactly the names |
| Simulation.ZipDictLastWins | NetfluxODE_run.py:52-55 | `names[i]` maps to `values[i]` whenever the name does not occur again later |
| Simulation.ZipDictDistinct | RapidODE_run.py:31-37 | with distinct names the keys are the names in their order, and `names[i]` maps to `values[i]` |
| Simulation.CreateResultsDict | NetfluxODE_run.py:50-56 | the `for` loop builds the same dictionary as assigning `d[names[i]] = values[i]` for i = 0, 1, … |
| Simulation.Trunc | NetfluxODE_run.py:96 | `int(x)` truncates toward zero: the result lies within one unit of x, on the side of 0 |
| Simulation.PyRowIndex | NetfluxODE_run.py:97 | numpy accepts a row index iff `-n ≤ index < n`, and then selects row `index mod n`: a negative index -k counts back to row n-k. Any other index raises |
| Simulation.ExtractionIndexClosedForm | RapidODE_run.py:41 | for `tspan = [0, T]` with T > 0 the index `int((T - 0)/dt) - 1` is `floor(15T) - 1` |
| Simulation.ExtractRow | NetfluxODE_run.py:96-97 | the corrected extraction picks row `index` exactly when `0 ≤ index < rows`; a negative index is an error instead of a wrap-around |
| Simulation.RunSimulationAndReturnDict | NetfluxODE_run.py:94-99 | the method, as written, runs the simulation, computes the index, reads the row with numpy's indexing (a negative index counts from the end) and builds the dictionary. Any error from those steps propagates |
| Simulation.ExtractedSampleNotAfterRequestedTime | RapidODE_run.py:39-44 | for T ≥ 1/15 and a solver that never fails, the code as written and the corrected extraction pick the same row, and it is the last sample not after T: it lies in `(T - 1/15, T]` and the next sample is past T |
| Simulation.NegativeIndexWrapsPastRequestedTime | NetfluxODE_run.py:96-97 | as written, for 0 < T < 1/15 the index is -1. numpy then reads the last row, whose time is after T |
| Simulation.SimulateAndExtractAtRequestedTime | NetfluxODE_run.py:94-99 | end to end over `[0, T]` with T ≥ 1/15: the result maps each node to its activity at the last sample not after T, with keys in node order |
| Simulation.SimulateAndExtractBelowOneStep | NetfluxODE_run.py:94-99 | end to end over `[0, T]` with 0 < T < 1/15, as written: the result is the dictionary of the last sample, whose time is after T |
| Simulation.SimulateAndExtractNegativeTime | NetfluxODE_run.py:94-99 | end to end for T < 0: the loop records nothing, and reading a row of the empty table raises IndexError |
| Differential.DeltaDictInverse | NetfluxODE_run.py:64 | the deltas have exactly the treatment's keys in the treatment's order, and control plus delta gives the treatment value. A node missing from control counts as 0, and a control-only node never appears |
| Differential.SelfDeltaIsZero | NetfluxODE_run.py:64-65 | comparing a run with itself gives delta 0 for every node |
| Differential.Insert | NetfluxODE_run.py:78 | one insertion step of the sort adds exactly the inserted position to the list |
| Differential.InsertSorted | NetfluxODE_run.py:78 | inserting into a list sorted by (delta, original position) keeps it sorted |
| Differential.SortPositions | NetfluxODE_run.py:78 | the sort is a permutation of its input positions |
| Differential.SortPositionsSorted | NetfluxODE_run.py:78 | the sort's output is ordered by delta, and equal deltas keep their original order |
| Differential.StableOrderCorrect | NetfluxODE_run.py:78 | `sorted(..., key=lambda x: x[0])` is a permutation of the positions, with non-decreasing keys; equal keys keep their relative order |
| Differential.FirstMissing | NetfluxODE_run.py:70 | the lookup fails exactly when some name of the given order is not a delta key, and then it names such a key |
| Differential.ExplicitOrderKept | NetfluxODE_run.py:69-72 | with a caller-supplied order the names returned are that order exactly, and each value is that node's delta. The call succeeds iff every name is a treatment node; otherwise it raises KeyError on a missing name |
| Differential.SortedByDeltaCorrect | NetfluxODE_run.py:75-81 | the first `min(|deltas|, |names|)` pairs are read along a permutation, with non-decreasing deltas, each name staying with its delta and ties stable. Zero pairs fail to unpack |
| Differential.SortedByDeltaOrdered | NetfluxODE_run.py:75-81 | for at least one pair, the sorted names and deltas are the pairs read along the stable order |
| Differential.DefaultOrderSorted | NetfluxODE_run.py:63-81 | without a caller order, control-order names are zipped with treatment-order deltas and sorted. The sort fails iff a run is empty, and the bars are non-decreasing |
| Differential.SortedByDeltaNames | NetfluxODE_run.py:75-81 | sorting keeps distinct names distinct and adds no name |
| Differential.DefaultOrderNames | NetfluxODE_run.py:63-90 | the returned default order names each control node at most once |
| Differential.DefaultOrderLabelsMatch | NetfluxODE_run.py:63-81 | when both runs list the same nodes in the same order, every bar shows its own node's delta |
| Series.IndexOf | NetfluxODE_run.py:34 | `list.index(x)` is the first position holding x |
| Series.DescendingOrder | NetfluxODE_run.py:39 | `np.argsort(final)[::-1]` is a permutation of the columns |
| Series.DescendingOrderSorted | NetfluxODE_run.py:39 | along that order the final activities never increase |
| Series.LegendDescending | NetfluxODE_run.py:39-40 | the legend lists the names along that permutation, by non-increasing final activity. It fails only when there are fewer names than columns |
| Series.AsWrittenIndices | NetfluxODE_run.py:31-34 | as written, there is one column index per highlighted name |
| Series.NodeIndices | NetfluxODE_run.py:33-34 | the lookup among the network's nodes succeeds iff every highlighted name is a node, and then gives one index per name |
| Series.AsWrittenIndicesArePositions | NetfluxODE_run.py:31-34 | as written, distinct highlighted names get the indices 0, 1, …, k-1 |
| Series.AsWrittenPlotsLeadingColumns | NetfluxODE_run.py:31-37 | as written, the highlight plot shows the first k columns of the table whichever names were asked for |
| Series.SingleLegend | NetfluxODE_run.py:39-40 | a single series is labelled with its own name |
| Series.AsWrittenMislabelsExample | NetfluxODE_run.py:31-40 | as written, highlighting "ROS" in the network AngII, AT1R, ROS plots AngII's activity under the label "ROS" |
| Series.CorrectedSelectionExample | NetfluxODE_run.py:33-40 | with the lookup the comment on line 33 describes, the same request plots ROS's own activity |
| Series.SortedLinesCarryTheirLabels | NetfluxODE_run.py:39-45 | with the lines drawn in legend order, line j is column `order[j]` and carries that column's name, the lines' final activities never increase, and the plot fails exactly where the code as written fails |
| Series.AsWrittenLegendMislabelsLines | NetfluxODE_run.py:39-45 | as written, plotting all nodes of a network A, B with final activities 0.1 and 0.9 draws A's activity as the first line and the legend labels that line "B" |
| Series.CorrectedLegendExample | NetfluxODE_run.py:39-45 | drawing the lines in legend order, the same network gets the line labelled "B" with B's 0.9 and the line labelled "A" with A's 0.1 |
| Series.PlotSeriesNamedColumns | NetfluxODE_run.py:28-45 | with the lookup among the nodes and the lines drawn in legend order, every line is the activity of the node whose name it is labelled with, every label is a highlighted node, and the lines' final activities never increase. The plot fails only on an unknown name or an empty table |
| RunGraphs.LeadingSpaces | NetfluxODE_run.py:112 | counts the whitespace characters `strip()` removes at the front: all of them are whitespace, and the next character is not |
| RunGraphs.TrailingSpaces | NetfluxODE_run.py:112 | counts the whitespace characters `strip()` removes at the back: all of them are whitespace, and the character before them is not |
| RunGraphs.StripCorrect | NetfluxODE_run.py:112-116 | `strip()` returns a slice of the entry with only whitespace cut off on either side, and neither end of the result is whitespace. Stripping twice changes nothing |
| RunGraphs.NonEmpty | NetfluxODE_run.py:117 | the filter keeps exactly the non-empty entries |
| RunGraphs.NonEmptyAppend | NetfluxODE_run.py:117 | filtering a concatenation is filtering each part in turn, so the filter keeps the entries' order |
| RunGraphs.NonEmptyKeepsOrder | NetfluxODE_run.py:117 | two kept entries appear after filtering in the order of their first occurrences among all entries |
| RunGraphs.Dedup | NetfluxODE_run.py:118 | `OrderedDict.fromkeys` keeps exactly the names that occur |
| RunGraphs.DedupFirstOccurrences | NetfluxODE_run.py:118 | the names are distinct after `OrderedDict.fromkeys`, in the order of their first occurrence |
| RunGraphs.SanitiseCorrect | NetfluxODE_run.py:112-118 | the sanitised list holds each non-empty stripped entry exactly once and nothing else, in the order of their first occurrences among the stripped entries |
| RunGraphs.PartitionCounts | NetfluxODE_run.py:131-134 | the known and unknown lists together hold each entry as often as the entries do |
| RunGraphs.KnownMembers | NetfluxODE_run.py:131-134 | the names left in `new_node_entries` are exactly the entries that are network nodes |
| RunGraphs.UnknownMembers | NetfluxODE_run.py:131-134 | `incorrect_entries` holds exactly the entries that are not nodes |
| RunGraphs.PartitionExact | NetfluxODE_run.py:131-134 | the two lists partition the de-duplicated entries |
| RunGraphs.RemoveFirstAt | NetfluxODE_run.py:134 | `list.remove(x)` drops the first occurrence of x and nothing else |
| RunGraphs.PartitionStep | NetfluxODE_run.py:131-134 | each entry extends exactly one of the two lists, at its end |
| RunGraphs.RemoveStep | NetfluxODE_run.py:131-134 | one turn of the loop removes an unknown entry from the not-yet-visited part of the list, and leaves a known one in place |
| RunGraphs.PartitionHighlights | NetfluxODE_run.py:131-134 | the loop leaves the known entries in `new_node_entries` and appends the unknown ones to `incorrect_entries`, both in order |
| RunGraphs.FocusNode | NetfluxODE_run.py:128-129 | the focus node is kept iff it is a node (or already "ROS"); otherwise it becomes "ROS", which is then a node |
| RunGraphs.DisplayType | NetfluxODE_run.py:108-109 | the display type is one of high, reg, kd, kdhigh or "", and it is unchanged iff it already was one of those |
| RunGraphs.ScenarioDispatch | NetfluxODE_run.py:179-190 | kd, kdhigh and high pick the knock-down, combined and high-TGF-B loaders, and any other input picks the regular one. The knock-down loaders get the focus node, which is a network node |
| RunGraphs.PlanHighlights | NetfluxODE_run.py:106-193 | the plotted and reported lists are the known and unknown sanitised entries. A highlight plot is made iff some name is plotted, with the loader and title of the dispatch |
| RunGraphs.HighlightPartition | NetfluxODE_run.py:117-134 | every plotted name is a distinct network node and every reported name is a non-empty non-node. Every non-blank entry ends up in exactly one list |
| RunGraphs.SecondChartAligned | NetfluxODE_run.py:168-175 | the high-TGF-B chart lists exactly the baseline chart's nodes in its order, each with its own delta under high TGF-B |
| RapidBatch.Split | RapidODE_run.py:59 | `str.split(',')` gives at least one piece and no piece contains a comma |
| RapidBatch.SplitCount | RapidODE_run.py:59-64 | a cell splits into one piece more than it has commas |
| RapidBatch.SplitJoin | RapidODE_run.py:59 | joining the pieces with commas gives the cell back |
| RapidBatch.JoinSplit | RapidODE_run.py:59 | comma-free pieces come back from splitting their join |
| RapidBatch.ParsePieces | RapidODE_run.py:59 | `[float(v) for v in pieces]` succeeds iff every piece is a number, then yields one value per piece in order; otherwise it raises ValueError |
| RapidBatch.ParseCellCorrect | RapidODE_run.py:59-64 | a text cell parses iff every field is a number, into `Count(',') + 1` values in field order. A non-text cell raises AttributeError |
| RapidBatch.RunRow | RapidODE_run.py:57-68 | one row: skipped when TAU is empty; otherwise its six cells are parsed and it is simulated over `[0, 100]` and read at 100, or the first exception is raised |
| RapidBatch.RunBatch | RapidODE_run.py:52-72 | the loop appends one dictionary per row that is not skipped, in row order, and stops at the first exception |
| RapidBatch.CollectAppend | RapidODE_run.py:55-72 | running the loop over two runs of rows back to back is running it over the first, then the second |
| RapidBatch.CollectStep | RapidODE_run.py:55-72 | one more row adds its result, adds nothing, or raises |
| RapidBatch.CollectStopsAt | RapidODE_run.py:55-72 | an exception in a row ends the whole batch with that exception |
| RapidBatch.Kept | RapidODE_run.py:57 | the kept rows are exactly the rows whose TAU cell holds data |
| RapidBatch.NullTauIgnored | RapidODE_run.py:57 | a row with an empty TAU cell contributes nothing and raises nothing: deleting it leaves the batch unchanged |
| RapidBatch.CollectOnePerEvaluation | RapidODE_run.py:55-72 | collection succeeds iff no evaluated row raised, and then holds one result per evaluated row, in order |
| RapidBatch.KeptOutcomes | RapidODE_run.py:55-57 | the rows that are not skipped are exactly the kept rows, in order |
| RapidBatch.BatchOnePerKeptRow | RapidODE_run.py:55-72 | `results_list` holds exactly one result per kept row, in input order. The batch fails iff a kept row raises |
| RapidBatch.RowErrors | RapidODE_run.py:57-64 | a kept row is never skipped. A non-text TAU, or an empty Y Max after a good TAU, raises AttributeError; a non-numeric TAU field raises ValueError |
| RapidBatch.ReadOutAtTime100 | RapidODE_run.py:66-68 | every kept row is simulated over `[0, 100]` and read at row 1499. For a solver that never fails and keeps the 91-wide state, that row is the sample at exactly time 100, of 1501 samples |

## Left out

- The ODE solver is a parameter. It stands in for scipy's `vode` integrator with the Adams method, its tolerances, `NetfluxODE.ODEfunc` and the parameter arrays. No numeric property of the solutions is modelled.
- The four `NetfluxODE_params` loaders are not part of this model. The dispatch names them as `ParamLoader` values.
- Not modelled: the Tk window and its widget reads (the entries arrive as strings), the message box listing unknown names, and every matplotlib call (bars, lines, labels, `plt.show`).
- Not modelled: pandas reading and writing of the spreadsheets and the final `print`. A sheet is a sequence of rows of cells.
- The `show_extra_graphs` block (NetfluxODE_run.py:195-214) only chains calls that are modelled: simulation and `plot_results` with all nodes. It is not modelled as a unit.
- Floating point is exact reals. IEEE rounding of `dt` and of the index division can move the extracted row by one sample whenever `T / dt` is an integer in exact arithmetic.
- RapidBatch.ParseCell: Python's `float()` on one field is a parameter `parse`. Its accepted syntax, including surrounding whitespace, is not modelled.
- RunGraphs.Strip: `str.strip()` removes the ASCII whitespace and the characters U+001C–U+001F, U+0085 and U+00A0. The other Unicode space separators are not treated as whitespace.
- Series.DescendingOrder: it reverses a stable ascending sort. `np.argsort` uses an unstable sort by default, so among equal final activities the legend order may differ.
- Simulation.RunSimulation: requires `Terminates`. With `dt ≤ 0` and a start inside the horizon the source loops forever, and the model does not represent non-termination.
- Simulation.CreateResultsDict: requires at least as many values as names. The source raises IndexError otherwise, but every caller passes a row of the state width, which equals the number of names (`SampleLoop` rejects other widths).
- RapidBatch.ReadOutAtTime100: states the result as the names zipped with row 1499. The distinctness of the 91 node names is not proved, so the key order is not spelled out for this constant.
- The solver is a history-free function of the current time, state and target. `vode` keeps internal state (step size, history) between `integrate` calls, so two calls from the same time and state may differ in the source. An exception raised inside `ODEfunc`, such as a batch row whose parameter arrays have the wrong length, is not represented either: a step only reaches its target or fails.
- `np.append` is modelled only through its shape check. A row of the wrong width raises, and the array layout is a sequence of rows.

## Findings

| source | as written | input that shows it | evidently intended | confidence | as-written member | corrected member |
|---|---|---|---|---|---|---|
| NetfluxODE_run.py:96-97 | the index `int(T / dt) - 1` is -1 when 0 < T < 1/15, and `results[-1, :]` silently reads the last row | `tspan = [0, 0.05]`, `specific_time = 0.05`, a solver that never fails: the only sample is at 1/15 > 0.05 and it is returned as the activity at 0.05 | the activity at the last sample not after T, or an error when there is none | not executed | Simulation.NegativeIndexWrapsPastRequestedTime | Simulation.ExtractedSampleNotAfterRequestedTime |
| NetfluxODE_run.py:31-34 | line 31 replaces `speciesNames` by the highlight list, so line 34 finds each name in that list: the indices are 0..k-1 | network AngII, AT1R, ROS with final activities 0.1, 0.2, 0.9; highlight "ROS": the series drawn as "ROS" is AngII's 0.1 | look the names up among the network's nodes, as the comment on line 33 says | not executed | Series.AsWrittenMislabelsExample | Series.PlotSeriesNamedColumns |
| NetfluxODE_run.py:39-45 | line 43 draws the columns in table order, but line 45 hands the legend the names in descending order of final activity; matplotlib labels the lines in drawing order, so line j gets the name of column `order[j]` | network A, B with final activities 0.1 and 0.9, all nodes plotted: the legend is B, A, and the first line, A's 0.1, is labelled "B" | every line labelled with its own node's name, the legend still listing the names by descending final activity | not executed | Series.AsWrittenLegendMislabelsLines | Series.SortedLinesCarryTheirLabels |
