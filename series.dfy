/**
  What `plot_results` (NetfluxODE_run.py:28-46) decides before it draws:
  which columns of the state table are plotted, the legend order (the names
  by descending activity in the final row), and which label each plotted
  line gets. The drawing itself is not modelled.

  As written, line 31 replaces `speciesNames` by the highlight list before
  line 34 looks the highlighted names up in it, so the column indices are
  the positions of the names in the highlight list itself (0, 1, ... for
  distinct names): the plot shows the first columns of the table under the
  highlighted names.

  Also as written, line 43 draws the columns in table order while line 45
  hands the legend the names in descending order; matplotlib gives the
  labels to the lines in drawing order, so line j is labelled with the name
  of column `order[j]`, not with its own.

  PlotSeriesAsWritten models that code. PlotSeries looks the names up in
  the network's node list, as the comment on line 33 says, and draws the
  columns in legend order, so that every line carries its own name.
 */
module Series {
  import opened Wrappers
  import Simulation
  import Differential

  /** IndexError: numpy or list indexing out of bounds.
      ValueError: `list.index` of a name that is not in the list. */
  datatype SeriesError = IndexError | ValueError

  /** What reaches the chart: `ax.plot(t, table)` draws column j of `table`
      as line j, and `ax.legend(legend)` gives line j the label `legend[j]`. */
  datatype Plot = Plot(legend: seq<string>, table: seq<seq<real>>)

  /** `s.index(x)`: the first position of x. */
  function IndexOf(s: seq<string>, x: string): (i: nat)
    requires x in s
    ensures i < |s| && s[i] == x && x !in s[..i]
  {
    if s[0] == x then 0
    else
      assert s == [s[0]] + s[1..];
      var j := IndexOf(s[1..], x);
      assert s[..j + 1] == [s[0]] + s[1..][..j];
      j + 1
  }

  /** `results[:, indices]` on a table whose rows all have `width` entries. */
  function Columns(rows: seq<seq<real>>, width: nat, indices: seq<nat>): Result<seq<seq<real>>, SeriesError>
    requires Simulation.AllWidth(rows, width)
  {
    if forall j :: 0 <= j < |indices| ==> indices[j] < width then
      Success(seq(|rows|, r requires 0 <= r < |rows| =>
        seq(|indices|, j requires 0 <= j < |indices| && indices[j] < width => rows[r][indices[j]])))
    else Failure(IndexError)
  }

  /** The table the chart is drawn from: the selected columns, or all of them. */
  function Selected(rows: seq<seq<real>>, width: nat, indices: Option<seq<nat>>)
    : (r: Result<seq<seq<real>>, SeriesError>)
    requires Simulation.AllWidth(rows, width)
    ensures r.Success? ==> |r.value| == |rows|
    ensures r.Success? ==> Simulation.AllWidth(r.value, if indices.Some? then |indices.value| else width)
  {
    if indices.Some? then Columns(rows, width, indices.value) else Success(rows)
  }

  /** The columns of `table` along `order`. */
  function Reorder(table: seq<seq<real>>, n: nat, order: seq<nat>): (r: seq<seq<real>>)
    requires Simulation.AllWidth(table, n) && Differential.IsPermutation(order, n)
    ensures |r| == |table| && Simulation.AllWidth(r, n)
  {
    seq(|table|, i requires 0 <= i < |table| =>
      seq(n, j requires 0 <= j < n => table[i][order[j]]))
  }

  /** `np.argsort(final)[::-1]`: positions by descending value. */
  function DescendingOrder(final: seq<real>): (order: seq<nat>)
    ensures Differential.IsPermutation(order, |final|)
  {
    var up := Differential.StableOrder(final);
    Differential.StableOrderCorrect(final);
    seq(|final|, i requires 0 <= i < |final| => up[|final| - 1 - i])
  }

  /** `[speciesNames[i] for i in sorting_indices]` */
  function Legend(names: seq<string>, final: seq<real>): Result<seq<string>, SeriesError>
  {
    var order := DescendingOrder(final);
    if |names| < |final| then Failure(IndexError)
    else Success(seq(|final|, i requires 0 <= i < |final| => names[order[i]]))
  }

  /** Read along DescendingOrder, the final activities never increase. */
  lemma DescendingOrderSorted(final: seq<real>)
    ensures forall i, j :: 0 <= i < j < |final| ==>
      final[DescendingOrder(final)[i]] >= final[DescendingOrder(final)[j]]
  {
    var up := Differential.StableOrder(final);
    Differential.StableOrderCorrect(final);
    var order := DescendingOrder(final);
    forall i, j | 0 <= i < j < |final|
      ensures final[order[i]] >= final[order[j]]
    {
      assert order[i] == up[|final| - 1 - i] && order[j] == up[|final| - 1 - j];
    }
  }

  /** The legend lists the names along a permutation of the final row's
      positions, by non-increasing final activity; it fails only when there
      are fewer names than columns. */
  lemma LegendDescending(names: seq<string>, final: seq<real>)
    ensures Legend(names, final).Failure? <==> |names| < |final|
    ensures Legend(names, final).Success? ==>
      var legend := Legend(names, final).value;
      var order := DescendingOrder(final);
      && |legend| == |final|
      && (forall i :: 0 <= i < |final| ==> legend[i] == names[order[i]])
      && (forall i, j :: 0 <= i < j < |final| ==> final[order[i]] >= final[order[j]])
  {
    DescendingOrderSorted(final);
  }

  /** Lines 34 and 31 together: each highlighted name is looked up in the
      highlight list itself. */
  function AsWrittenIndices(nodeEntries: seq<string>): (indices: seq<nat>)
    ensures |indices| == |nodeEntries|
  {
    seq(|nodeEntries|, j requires 0 <= j < |nodeEntries| => IndexOf(nodeEntries, nodeEntries[j]))
  }

  /** The indices looked up in the network's node list, as intended; a name
      that is not a node is a ValueError. */
  function NodeIndices(speciesNames: seq<string>, nodeEntries: seq<string>): (r: Result<seq<nat>, SeriesError>)
    ensures r.Success? ==> |r.value| == |nodeEntries|
    ensures r.Success? <==> forall j :: 0 <= j < |nodeEntries| ==> nodeEntries[j] in speciesNames
  {
    if forall j :: 0 <= j < |nodeEntries| ==> nodeEntries[j] in speciesNames then
      Success(seq(|nodeEntries|, j requires 0 <= j < |nodeEntries| && nodeEntries[j] in speciesNames =>
        IndexOf(speciesNames, nodeEntries[j])))
    else Failure(ValueError)
  }

  /** The chart's lines and legend once the column indices are known, as
      written: the lines in table order, the labels in descending order. */
  function Draw(rows: seq<seq<real>>, width: nat, names: seq<string>, indices: Option<seq<nat>>)
    : Result<Plot, SeriesError>
    requires Simulation.AllWidth(rows, width)
  {
    var table := Selected(rows, width, indices);
    if table.Failure? then Failure(table.error)
    else if |table.value| == 0 then Failure(IndexError)
    else
      var legend := Legend(names, table.value[|table.value| - 1]);
      if legend.Failure? then Failure(legend.error)
      else Success(Plot(legend.value, table.value))
  }

  /** The chart as intended: the lines drawn in the legend's descending
      order, so that each label lands on its own column. */
  function DrawSorted(rows: seq<seq<real>>, width: nat, names: seq<string>, indices: Option<seq<nat>>)
    : Result<Plot, SeriesError>
    requires Simulation.AllWidth(rows, width)
  {
    var table := Selected(rows, width, indices);
    if table.Failure? then Failure(table.error)
    else if |table.value| == 0 then Failure(IndexError)
    else
      var final := table.value[|table.value| - 1];
      var legend := Legend(names, final);
      if legend.Failure? then Failure(legend.error)
      else Success(Plot(legend.value, Reorder(table.value, |final|, DescendingOrder(final))))
  }

  /** Drawn in legend order, line j is column `order[j]` of the table and
      carries that column's name; the lines' final activities never
      increase. DrawSorted fails exactly where Draw does. */
  lemma SortedLinesCarryTheirLabels(rows: seq<seq<real>>, width: nat, names: seq<string>, indices: Option<seq<nat>>)
    requires Simulation.AllWidth(rows, width)
    ensures DrawSorted(rows, width, names, indices).Success? <==> Draw(rows, width, names, indices).Success?
    ensures DrawSorted(rows, width, names, indices).Success? ==>
      var table := Selected(rows, width, indices).value;
      var final := table[|table| - 1];
      var order := DescendingOrder(final);
      var p := DrawSorted(rows, width, names, indices).value;
      && |p.legend| == |final| && |p.table| == |table|
      && (forall j :: 0 <= j < |final| ==> p.legend[j] == names[order[j]])
      && (forall r, j :: 0 <= r < |table| && 0 <= j < |final| ==> p.table[r][j] == table[r][order[j]])
      && (forall i, j :: 0 <= i < j < |final| ==> final[order[i]] >= final[order[j]])
  {
    var table := Selected(rows, width, indices);
    if table.Success? && |table.value| > 0 {
      var final := table.value[|table.value| - 1];
      LegendDescending(names, final);
    }
  }

  /** `plot_results(t, results, speciesNames, title, certain_nodes, node_entries)` as written. */
  function PlotSeriesAsWritten(rows: seq<seq<real>>, width: nat, speciesNames: seq<string>,
                               certainNodes: bool, nodeEntries: seq<string>): Result<Plot, SeriesError>
    requires Simulation.AllWidth(rows, width)
  {
    if certainNodes then Draw(rows, width, nodeEntries, Some(AsWrittenIndices(nodeEntries)))
    else Draw(rows, width, speciesNames, None)
  }

  /** `plot_results` with the highlighted names looked up among the nodes
      and the lines drawn in legend order. */
  function PlotSeries(rows: seq<seq<real>>, width: nat, speciesNames: seq<string>,
                      certainNodes: bool, nodeEntries: seq<string>): Result<Plot, SeriesError>
    requires Simulation.AllWidth(rows, width)
  {
    if certainNodes then
      match NodeIndices(speciesNames, nodeEntries)
      case Failure(e) => Failure(e)
      case Success(indices) => DrawSorted(rows, width, nodeEntries, Some(indices))
    else DrawSorted(rows, width, speciesNames, None)
  }

  /** As written, distinct highlighted names get the indices 0, 1, ..., k-1. */
  lemma AsWrittenIndicesArePositions(nodeEntries: seq<string>)
    requires forall i, j :: 0 <= i < j < |nodeEntries| ==> nodeEntries[i] != nodeEntries[j]
    ensures forall j :: 0 <= j < |nodeEntries| ==> AsWrittenIndices(nodeEntries)[j] == j
  {
  }

  /** As written, the highlight plot shows the first k columns of the table
      whatever names were asked for. */
  lemma AsWrittenPlotsLeadingColumns(rows: seq<seq<real>>, width: nat, speciesNames: seq<string>,
                                     nodeEntries: seq<string>)
    requires Simulation.AllWidth(rows, width)
    requires forall i, j :: 0 <= i < j < |nodeEntries| ==> nodeEntries[i] != nodeEntries[j]
    requires |nodeEntries| <= width && |rows| > 0
    ensures PlotSeriesAsWritten(rows, width, speciesNames, true, nodeEntries).Success?
    ensures var p := PlotSeriesAsWritten(rows, width, speciesNames, true, nodeEntries).value;
      && |p.table| == |rows|
      && forall r, j :: 0 <= r < |rows| && 0 <= j < |nodeEntries| ==> p.table[r][j] == rows[r][j]
  {
    AsWrittenIndicesArePositions(nodeEntries);
    LegendDescending(nodeEntries, Columns(rows, width, AsWrittenIndices(nodeEntries)).value[|rows| - 1]);
  }

  /** A single series gets its own name as the legend. */
  lemma SingleLegend(name: string, v: real)
    ensures Legend([name], [v]) == Success([name])
  {
    assert Differential.Positions(1) == [0];
    assert Differential.StableOrder([v]) == [0];
    assert DescendingOrder([v]) == [0];
    var legend := Legend([name], [v]);
    assert legend.Success? && |legend.value| == 1 && legend.value[0] == name;
    assert legend.value == [name];
  }

  /** A three-node network whose final state is AngII 0.1, AT1R 0.2, ROS 0.9. */
  const ExampleNames: seq<string> := ["AngII", "AT1R", "ROS"]
  const ExampleRows: seq<seq<real>> := [[0.1, 0.2, 0.9]]

  /** Highlighting only "ROS", as written: the single series plotted under
      "ROS" is AngII's activity 0.1. */
  lemma AsWrittenMislabelsExample()
    ensures Simulation.AllWidth(ExampleRows, 3)
    ensures PlotSeriesAsWritten(ExampleRows, 3, ExampleNames, true, ["ROS"]) == Success(Plot(["ROS"], [[0.1]]))
  {
    assert IndexOf(["ROS"], "ROS") == 0;
    assert AsWrittenIndices(["ROS"]) == [0];
    var leading := Columns(ExampleRows, 3, [0]).value;
    assert |leading| == 1 && |leading[0]| == 1 && leading[0][0] == 0.1;
    assert leading[0] == [0.1];
    assert leading == [[0.1]];
    SingleLegend("ROS", 0.1);
  }

  /** Highlighting only "ROS" with the lookup among the nodes: the series
      plotted under "ROS" is ROS's own activity 0.9. */
  lemma CorrectedSelectionExample()
    ensures Simulation.AllWidth(ExampleRows, 3)
    ensures PlotSeries(ExampleRows, 3, ExampleNames, true, ["ROS"]) == Success(Plot(["ROS"], [[0.9]]))
  {
    assert IndexOf(ExampleNames, "ROS") == 2 by {
      assert ExampleNames[1..] == ["AT1R", "ROS"];
      assert ExampleNames[1..][1..] == ["ROS"];
    }
    assert NodeIndices(ExampleNames, ["ROS"]).value == [2];
    var named := Columns(ExampleRows, 3, [2]).value;
    assert |named| == 1 && |named[0]| == 1 && named[0][0] == 0.9;
    assert named[0] == [0.9];
    assert named == [[0.9]];
    SingleLegend("ROS", 0.9);
    assert DescendingOrder([0.9]) == [0];
    var lines := Reorder(named, 1, [0]);
    assert |lines| == 1 && |lines[0]| == 1 && lines[0][0] == 0.9;
    assert lines[0] == [0.9];
    assert lines == [[0.9]];
  }

  /** A two-node network A, B whose final activities are 0.1 and 0.9. */
  const PairNames: seq<string> := ["A", "B"]
  const PairRows: seq<seq<real>> := [[0.1, 0.9]]

  /** The descending order of the pair's final activities is B, A. */
  lemma PairDescending()
    ensures DescendingOrder([0.1, 0.9]) == [1, 0]
  {
    var keys := [0.1, 0.9];
    assert Differential.Positions(2) == [0, 1];
    assert Differential.SortPositions(keys, [1]) == [1];
    assert Differential.Insert(keys, 0, [1]) == [0, 1];
    assert Differential.SortPositions(keys, [0, 1]) == [0, 1];
    assert Differential.StableOrder(keys) == [0, 1];
  }

  /** Plotting all nodes, as written: line 0 is A's activity 0.1 and the
      legend gives it the label "B". */
  lemma AsWrittenLegendMislabelsLines()
    ensures Simulation.AllWidth(PairRows, 2)
    ensures PlotSeriesAsWritten(PairRows, 2, PairNames, false, []) == Success(Plot(["B", "A"], [[0.1, 0.9]]))
  {
    PairDescending();
    var legend := Legend(PairNames, [0.1, 0.9]);
    assert legend.Success? && |legend.value| == 2 && legend.value[0] == "B" && legend.value[1] == "A";
    assert legend.value == ["B", "A"];
  }

  /** Plotting all nodes with the lines drawn in legend order: the line
      labelled "B" is B's activity 0.9, the line labelled "A" is A's 0.1. */
  lemma CorrectedLegendExample()
    ensures Simulation.AllWidth(PairRows, 2)
    ensures PlotSeries(PairRows, 2, PairNames, false, []) == Success(Plot(["B", "A"], [[0.9, 0.1]]))
  {
    PairDescending();
    var legend := Legend(PairNames, [0.1, 0.9]);
    assert legend.Success? && |legend.value| == 2 && legend.value[0] == "B" && legend.value[1] == "A";
    assert legend.value == ["B", "A"];
    var lines := Reorder(PairRows, 2, [1, 0]);
    assert |lines| == 1 && |lines[0]| == 2 && lines[0][0] == 0.9 && lines[0][1] == 0.1;
    assert lines[0] == [0.9, 0.1];
    assert lines == [[0.9, 0.1]];
  }

  /** With the lookup among the nodes and the lines drawn in legend order,
      every line is the activity of the node it is labelled with, the labels
      are highlighted names, and the lines' final activities never
      increase; the plot fails only on an unknown name or an empty table. */
  lemma PlotSeriesNamedColumns(rows: seq<seq<real>>, speciesNames: seq<string>, nodeEntries: seq<string>)
    requires Simulation.AllWidth(rows, |speciesNames|)
    ensures var p := PlotSeries(rows, |speciesNames|, speciesNames, true, nodeEntries);
      && (p.Success? <==> |rows| > 0 && forall j :: 0 <= j < |nodeEntries| ==> nodeEntries[j] in speciesNames)
      && (p.Success? ==>
            && |p.value.table| == |rows| && |p.value.legend| == |nodeEntries|
            && (forall j :: 0 <= j < |nodeEntries| ==> p.value.legend[j] in nodeEntries)
            && (forall j :: 0 <= j < |nodeEntries| ==> p.value.legend[j] in speciesNames)
            && (forall r, j :: 0 <= r < |rows| && 0 <= j < |nodeEntries| ==>
                  |p.value.table[r]| == |nodeEntries| &&
                  p.value.table[r][j] == rows[r][IndexOf(speciesNames, p.value.legend[j])])
            && (forall i, j :: 0 <= i < j < |nodeEntries| ==>
                  rows[|rows| - 1][IndexOf(speciesNames, p.value.legend[i])] >=
                  rows[|rows| - 1][IndexOf(speciesNames, p.value.legend[j])]))
  {
    var idx := NodeIndices(speciesNames, nodeEntries);
    if idx.Success? && |rows| > 0 {
      var indices := idx.value;
      SortedLinesCarryTheirLabels(rows, |speciesNames|, nodeEntries, Some(indices));
      var table := Columns(rows, |speciesNames|, indices).value;
      var order := DescendingOrder(table[|rows| - 1]);
      var p := DrawSorted(rows, |speciesNames|, nodeEntries, Some(indices)).value;
      forall j | 0 <= j < |nodeEntries|
        ensures p.legend[j] in nodeEntries && p.legend[j] in speciesNames
        ensures forall r :: 0 <= r < |rows| ==> p.table[r][j] == rows[r][IndexOf(speciesNames, p.legend[j])]
      {
        assert p.legend[j] == nodeEntries[order[j]];
        assert indices[order[j]] == IndexOf(speciesNames, nodeEntries[order[j]]);
      }
    }
  }
}
