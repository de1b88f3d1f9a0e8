/**
  The batch sweep of RapidODE_run.py (lines 46-72): every row of the
  parameter sheet whose TAU cell holds data is split into six parameter
  arrays, simulated over `[0, 100]` on the fixed 91-node network and
  reduced to the node activities at time 100; the results are collected in
  row order.

  Reading and writing the spreadsheet is not modelled: the sheet is a
  sequence of rows of cells. Python's `float()` on one piece of text is a
  parameter `parse`, and the ODE right-hand side for one parameter set is
  a parameter `solverFor`.
 */
module RapidBatch {
  import opened Wrappers
  import opened PyDict
  import Simulation

  /** RapidODE_run.py:6-13: the network's nodes, in state-vector order. */
  const SpeciesNames: seq<string> := [
    "AngII", "AT1R", "AGT", "ACE", "NOX", "ROS", "ET1", "ETAR", "DAG", "PKC", "TRPC", "NE", "BAR",
    "Forskolin", "AC", "cAMP", "PKA", "CREB", "CBP", "TGFB", "TGFB1R", "smad3", "smad7", "latentTGFB",
    "BAMBI", "PDGF", "PDGFR", "NP", "NPRA", "cGMP", "PKG", "mechanical", "B1int", "Rho", "ROCK", "Ca",
    "calcineurin", "NFAT", "IL6", "gp130", "STAT", "IL1", "IL1RI", "TNFa", "TNFaR", "NFKB", "PI3K",
    "Akt", "p38", "TRAF", "ASK1", "MKK3", "PP1", "JNK", "abl", "Rac1", "MEKK1", "MKK4", "ERK", "Ras",
    "Raf", "MEK1", "FAK", "epac", "Factin", "FA", "migration", "cmyc", "CTGF", "proliferation", "SRF",
    "EDAFN", "aSMA", "AP1", "TIMP1", "TIMP2", "PAI1", "proMMP14", "proMMP1", "proMMP2", "proMMP9",
    "MMP1", "MMP2", "MMP9", "MMP14", "fibronectin", "periostin", "CImRNA", "CIIImRNA", "CI", "CIII"]

  /** RapidODE_run.py:15: the horizon's end and the time read out. */
  const SpecificTime: real := 100.0

  /** A spreadsheet cell as pandas hands it over: empty (NaN), a number, or text. */
  datatype Cell = Null | Number(x: real) | Text(s: string)

  /** The six columns read from each row (RapidODE_run.py:50). */
  datatype Row = Row(tau: Cell, yMax: Cell, yInit: Cell, w: Cell, n: Cell, ec50: Cell)

  /** The parameter arrays handed to the right-hand side, in call order. */
  datatype Params = Params(tau: seq<real>, yMax: seq<real>, w: seq<real>, n: seq<real>, ec50: seq<real>)

  /** AttributeError: `.split` on a cell that is not text.
      ValueError: `float()` of a piece that is not a number.
      Sim: an exception raised inside `run_simulation_and_return_dict`. */
  datatype BatchError = AttributeError | ValueError | Sim(e: Simulation.SimError)

  /** What one row contributes. */
  datatype RowOutcome = Skipped | Evaluated(d: Dict<real>) | Raised(e: BatchError)

  /** How often c occurs in s. */
  function Count(s: string, c: char): nat {
    if s == [] then 0 else (if s[0] == c then 1 else 0) + Count(s[1..], c)
  }

  /** `s.split(sep)`: the pieces between the separators, empty ones included. */
  function Split(s: string, sep: char): (pieces: seq<string>)
    ensures |pieces| >= 1
    ensures forall p :: p in pieces ==> sep !in p
  {
    if sep !in s then [s]
    else
      var k := FirstChar(s, sep);
      [s[..k]] + Split(s[k + 1..], sep)
  }

  /** The position of the first c in s. */
  function FirstChar(s: string, c: char): (k: nat)
    requires c in s
    ensures k < |s| && s[k] == c && c !in s[..k]
  {
    if s[0] == c then 0
    else
      assert s == [s[0]] + s[1..];
      var j := FirstChar(s[1..], c);
      assert s[..j + 1] == [s[0]] + s[1..][..j];
      j + 1
  }

  /** `sep.join(pieces)` */
  function Join(pieces: seq<string>, sep: char): string
    requires |pieces| >= 1
  {
    if |pieces| == 1 then pieces[0] else pieces[0] + [sep] + Join(pieces[1..], sep)
  }

  /** Splitting on a character gives one piece more than it has occurrences. */
  lemma {:induction false} SplitCount(s: string, sep: char)
    ensures |Split(s, sep)| == Count(s, sep) + 1
  {
    if sep !in s {
      CountAbsent(s, sep);
    } else {
      var k := FirstChar(s, sep);
      SplitCount(s[k + 1..], sep);
      CountAbsent(s[..k], sep);
      CountAppend(s[..k], [sep] + s[k + 1..], sep);
      CountAppend([sep], s[k + 1..], sep);
      assert s == s[..k] + ([sep] + s[k + 1..]);
    }
  }

  /** A character that does not occur is counted zero times. */
  lemma {:induction false} CountAbsent(s: string, c: char)
    requires c !in s
    ensures Count(s, c) == 0
  {
    if s != [] {
      CountAbsent(s[1..], c);
    }
  }

  /** Counting distributes over concatenation. */
  lemma {:induction false} CountAppend(a: string, b: string, c: char)
    ensures Count(a + b, c) == Count(a, c) + Count(b, c)
  {
    if a != [] {
      assert (a + b)[0] == a[0];
      assert (a + b)[1..] == a[1..] + b;
      CountAppend(a[1..], b, c);
      assert Count(a + b, c) == (if a[0] == c then 1 else 0) + Count(a[1..] + b, c);
    } else {
      assert a + b == b;
    }
  }

  /** Joining the pieces with the separator gives the text back. */
  lemma {:induction false} SplitJoin(s: string, sep: char)
    ensures Join(Split(s, sep), sep) == s
  {
    if sep in s {
      var k := FirstChar(s, sep);
      SplitJoin(s[k + 1..], sep);
      SplitAt(s, sep, k);
      JoinCons(s[..k], Split(s[k + 1..], sep), sep);
      AroundIndex(s, k);
    }
  }

  /** A text is what comes before position k, the character there, and the rest. */
  lemma AroundIndex(s: string, k: nat)
    requires k < |s|
    ensures s == s[..k] + [s[k]] + s[k + 1..]
  {
  }

  /** Joining a piece in front of at least one other. */
  lemma JoinCons(head: string, rest: seq<string>, sep: char)
    requires |rest| >= 1
    ensures Join([head] + rest, sep) == head + [sep] + Join(rest, sep)
  {
    assert ([head] + rest)[1..] == rest;
  }

  /** Splitting at the first separator. */
  lemma SplitAt(s: string, sep: char, k: nat)
    requires k < |s| && s[k] == sep && sep !in s[..k]
    ensures Split(s, sep) == [s[..k]] + Split(s[k + 1..], sep)
  {
  }

  /** Pieces free of the separator come back from splitting their join. */
  lemma {:induction false} JoinSplit(pieces: seq<string>, sep: char)
    requires |pieces| >= 1 && forall p :: p in pieces ==> sep !in p
    ensures Split(Join(pieces, sep), sep) == pieces
  {
    if |pieces| > 1 {
      var head := pieces[0];
      var rest := Join(pieces[1..], sep);
      var s := head + [sep] + rest;
      JoinSplit(pieces[1..], sep);
      assert s[..|head|] == head;
      assert s[|head| + 1..] == rest;
      SplitAt(s, sep, |head|);
      assert pieces == [head] + pieces[1..];
    }
  }

  /** `np.array([float(value) for value in cell.split(',')])`: the first
      piece that is not a number raises ValueError, a cell that is not text
      has no `split`. */
  function ParseCell(cell: Cell, parse: string -> Option<real>): Result<seq<real>, BatchError> {
    if !cell.Text? then Failure(AttributeError)
    else ParsePieces(Split(cell.s, ','), parse)
  }

  /** The list comprehension over the pieces, in order. */
  function ParsePieces(pieces: seq<string>, parse: string -> Option<real>): (r: Result<seq<real>, BatchError>)
    ensures r.Success? <==> forall i :: 0 <= i < |pieces| ==> parse(pieces[i]).Some?
    ensures r.Success? ==> |r.value| == |pieces| && forall i :: 0 <= i < |pieces| ==> r.value[i] == parse(pieces[i]).value
    ensures r.Failure? ==> r.error == ValueError
  {
    if pieces == [] then Success([])
    else match parse(pieces[0])
      case None => Failure(ValueError)
      case Some(x) =>
        match ParsePieces(pieces[1..], parse)
        case Failure(e) => Failure(e)
        case Success(xs) => Success([x] + xs)
  }

  /** A text cell parses to one value per comma-separated field, each the
      field's own number; anything else raises. */
  lemma ParseCellCorrect(cell: Cell, parse: string -> Option<real>)
    ensures ParseCell(cell, parse).Success? <==>
      cell.Text? && forall p :: p in Split(cell.s, ',') ==> parse(p).Some?
    ensures !cell.Text? ==> ParseCell(cell, parse) == Failure(AttributeError)
    ensures cell.Text? && ParseCell(cell, parse).Failure? ==> ParseCell(cell, parse).error == ValueError
    ensures ParseCell(cell, parse).Success? ==>
      var pieces := Split(cell.s, ',');
      && |ParseCell(cell, parse).value| == Count(cell.s, ',') + 1
      && forall i :: 0 <= i < |pieces| ==> ParseCell(cell, parse).value[i] == parse(pieces[i]).value
  {
    if cell.Text? {
      SplitCount(cell.s, ',');
      var pieces := Split(cell.s, ',');
      if forall i :: 0 <= i < |pieces| ==> parse(pieces[i]).Some? {
        forall p | p in pieces
          ensures parse(p).Some?
        {
          var i :| 0 <= i < |pieces| && pieces[i] == p;
        }
      }
    }
  }

  /** RapidODE_run.py:59-64: the six cells parsed in order, the first
      failure winning. */
  function ParseRow(row: Row, parse: string -> Option<real>): Result<(Params, seq<real>), BatchError> {
    var tau := ParseCell(row.tau, parse);
    if tau.Failure? then Failure(tau.error) else
    var yMax := ParseCell(row.yMax, parse);
    if yMax.Failure? then Failure(yMax.error) else
    var yInit := ParseCell(row.yInit, parse);
    if yInit.Failure? then Failure(yInit.error) else
    var w := ParseCell(row.w, parse);
    if w.Failure? then Failure(w.error) else
    var n := ParseCell(row.n, parse);
    if n.Failure? then Failure(n.error) else
    var ec50 := ParseCell(row.ec50, parse);
    if ec50.Failure? then Failure(ec50.error) else
    Success((Params(tau.value, yMax.value, w.value, n.value, ec50.value), yInit.value))
  }

  /** The loop body of RapidODE_run.py:55-72 for one row. */
  function EvaluateRow(row: Row, parse: string -> Option<real>, solverFor: Params -> Simulation.Stepper): RowOutcome {
    if row.tau.Null? then Skipped
    else
      match ParseRow(row, parse)
      case Failure(e) => Raised(e)
      case Success((params, yInit)) =>
        assert Simulation.Terminates(0.0, SpecificTime, SpecificTime) by {
          Simulation.DtOfHorizon(SpecificTime);
        }
        match Simulation.SimulateAndExtract(solverFor(params), 0.0, SpecificTime, yInit, SpecificTime, SpeciesNames)
        case Failure(e) => Raised(Sim(e))
        case Success(d) => Evaluated(d)
  }

  /** The loop body as a function of the row alone. */
  function RowEvaluator(parse: string -> Option<real>, solverFor: Params -> Simulation.Stepper): (f: Row -> RowOutcome)
    ensures forall row :: f(row) == EvaluateRow(row, parse, solverFor)
  {
    row => EvaluateRow(row, parse, solverFor)
  }

  /** f applied to each row, in order. */
  function MapRows(rows: seq<Row>, f: Row -> RowOutcome): (outcomes: seq<RowOutcome>)
    ensures |outcomes| == |rows|
    ensures forall i :: 0 <= i < |rows| ==> outcomes[i] == f(rows[i])
  {
    seq(|rows|, i requires 0 <= i < |rows| => f(rows[i]))
  }

  /** What each row of the sheet contributes, row by row. */
  function Outcomes(rows: seq<Row>, parse: string -> Option<real>, solverFor: Params -> Simulation.Stepper)
    : seq<RowOutcome>
  {
    MapRows(rows, RowEvaluator(parse, solverFor))
  }

  /** The results collected from a run of outcomes, or the first exception. */
  function Collect(outcomes: seq<RowOutcome>): Result<seq<Dict<real>>, BatchError> {
    if outcomes == [] then Success([])
    else
      var n := |outcomes| - 1;
      match Collect(outcomes[..n])
      case Failure(e) => Failure(e)
      case Success(ds) =>
        match outcomes[n]
        case Skipped => Success(ds)
        case Raised(e) => Failure(e)
        case Evaluated(d) => Success(ds + [d])
  }

  /** `results_list` after the loop over the rows, or the exception that
      stopped it. */
  function Batch(rows: seq<Row>, parse: string -> Option<real>, solverFor: Params -> Simulation.Stepper)
    : Result<seq<Dict<real>>, BatchError>
  {
    Collect(Outcomes(rows, parse, solverFor))
  }

  /** RapidODE_run.py:57-68: one row, skipped when its TAU cell is empty,
      otherwise parsed, simulated and read out. */
  method RunRow(row: Row, parse: string -> Option<real>, solverFor: Params -> Simulation.Stepper)
    returns (outcome: RowOutcome)
    ensures outcome == EvaluateRow(row, parse, solverFor)
  {
    if row.tau.Null? {
      return Skipped;
    }
    var parsed := ParseRow(row, parse);
    if parsed.Failure? {
      return Raised(parsed.error);
    }
    var (params, yInit) := parsed.value;
    Simulation.DtOfHorizon(SpecificTime);
    var d := Simulation.RunSimulationAndReturnDict(solverFor(params), 0.0, SpecificTime, yInit,
                                                   SpecificTime, SpeciesNames);
    if d.Failure? {
      return Raised(Sim(d.error));
    }
    outcome := Evaluated(d.value);
  }

  /** RapidODE_run.py:52-72: the loop over the sheet's rows. */
  method RunBatch(rows: seq<Row>, parse: string -> Option<real>, solverFor: Params -> Simulation.Stepper)
    returns (r: Result<seq<Dict<real>>, BatchError>)
    ensures r == Batch(rows, parse, solverFor)
  {
    ghost var outcomes := Outcomes(rows, parse, solverFor);
    var results: seq<Dict<real>> := [];
    for i := 0 to |rows|
      invariant Collect(outcomes[..i]) == Success(results)
    {
      CollectStep(outcomes, i);
      var outcome := RunRow(rows[i], parse, solverFor);
      match outcome
      case Skipped =>
      case Raised(e) =>
        CollectStopsAt(outcomes, i);
        return Failure(e);
      case Evaluated(d) =>
        results := results + [d];
    }
    assert outcomes[..|rows|] == outcomes;
    r := Success(results);
  }

  /** Collecting two runs of outcomes back to back is collecting their
      concatenation. */
  lemma {:induction false} CollectAppend(a: seq<RowOutcome>, b: seq<RowOutcome>)
    ensures Collect(a + b) ==
      match Collect(a)
      case Failure(e) => Failure(e)
      case Success(ds) =>
        match Collect(b)
        case Failure(e) => Failure(e)
        case Success(es) => Success(ds + es)
  {
    if b == [] {
      assert a + b == a;
      if Collect(a).Success? {
        assert Collect(a).value + [] == Collect(a).value;
      }
    } else {
      var n := |b| - 1;
      CollectAppend(a, b[..n]);
      assert (a + b)[..|a + b| - 1] == a + b[..n];
      assert (a + b)[|a + b| - 1] == b[n];
      match Collect(a)
      case Failure(e) =>
      case Success(ds) =>
        match Collect(b[..n])
        case Failure(e) =>
        case Success(es) =>
          if b[n].Evaluated? {
            assert (ds + es) + [b[n].d] == ds + (es + [b[n].d]);
          }
    }
  }

  /** Collecting one more outcome. */
  lemma CollectStep(outcomes: seq<RowOutcome>, i: nat)
    requires i < |outcomes|
    ensures Collect(outcomes[..i + 1]) ==
      match Collect(outcomes[..i])
      case Failure(e) => Failure(e)
      case Success(ds) =>
        match outcomes[i]
        case Skipped => Success(ds)
        case Raised(e) => Failure(e)
        case Evaluated(d) => Success(ds + [d])
  {
    assert outcomes[..i + 1][..i] == outcomes[..i];
  }

  /** An outcome that raises stops the collection with its error. */
  lemma CollectStopsAt(outcomes: seq<RowOutcome>, i: nat)
    requires i < |outcomes| && Collect(outcomes[..i]).Success? && outcomes[i].Raised?
    ensures Collect(outcomes) == Failure(outcomes[i].e)
  {
    assert outcomes[..i + 1][..i] == outcomes[..i];
    CollectAppend(outcomes[..i + 1], outcomes[i + 1..]);
    assert outcomes == outcomes[..i + 1] + outcomes[i + 1..];
  }

  /** The rows that reach the simulation: those whose TAU cell holds data. */
  function Kept(rows: seq<Row>): (kept: seq<Row>)
    ensures forall row :: row in kept <==> row in rows && !row.tau.Null?
  {
    if rows == [] then []
    else
      var n := |rows| - 1;
      assert rows == rows[..n] + [rows[n]];
      Kept(rows[..n]) + (if rows[n].tau.Null? then [] else [rows[n]])
  }

  /** A row whose TAU cell is empty contributes nothing and raises nothing,
      wherever it stands. */
  lemma NullTauIgnored(rows: seq<Row>, i: nat, parse: string -> Option<real>, solverFor: Params -> Simulation.Stepper)
    requires i < |rows| && rows[i].tau.Null?
    ensures Batch(rows, parse, solverFor) == Batch(rows[..i] + rows[i + 1..], parse, solverFor)
  {
    var f := RowEvaluator(parse, solverFor);
    var outcomes := MapRows(rows, f);
    MapRowsWithout(rows, i, f);
    assert f(rows[i]) == Skipped;
    CollectDropSkip(outcomes[..i], outcomes[i + 1..]);
  }

  /** Dropping a row drops its outcome. */
  lemma MapRowsWithout(rows: seq<Row>, i: nat, f: Row -> RowOutcome)
    requires i < |rows|
    ensures MapRows(rows, f) == MapRows(rows, f)[..i] + [f(rows[i])] + MapRows(rows, f)[i + 1..]
    ensures MapRows(rows[..i] + rows[i + 1..], f) == MapRows(rows, f)[..i] + MapRows(rows, f)[i + 1..]
  {
    var outcomes := MapRows(rows, f);
    assert outcomes == outcomes[..i] + [outcomes[i]] + outcomes[i + 1..];
    var shorter := rows[..i] + rows[i + 1..];
    forall j | 0 <= j < |shorter|
      ensures MapRows(shorter, f)[j] == (outcomes[..i] + outcomes[i + 1..])[j]
    {
      if j < i {
        assert shorter[j] == rows[j];
      } else {
        assert shorter[j] == rows[j + 1];
      }
    }
  }

  /** A skipped outcome changes nothing in the collection. */
  lemma CollectDropSkip(before: seq<RowOutcome>, after: seq<RowOutcome>)
    ensures Collect(before + [Skipped] + after) == Collect(before + after)
  {
    assert Collect([Skipped]) == Success([]) by {
      assert [Skipped][..0] == [];
    }
    CollectAppend(before + [Skipped], after);
    CollectAppend(before, [Skipped]);
    CollectAppend(before, after);
    match Collect(before)
    case Failure(_) =>
    case Success(ds) => assert ds + [] == ds;
  }

  /** The results of the outcomes that are not skips. */
  function Evaluations(outcomes: seq<RowOutcome>): seq<RowOutcome> {
    if outcomes == [] then []
    else
      var n := |outcomes| - 1;
      Evaluations(outcomes[..n]) + (if outcomes[n].Skipped? then [] else [outcomes[n]])
  }

  /** Collection succeeds exactly when no non-skipped outcome raised, and
      then holds each evaluation's result, in order. */
  lemma {:induction false} CollectOnePerEvaluation(outcomes: seq<RowOutcome>)
    ensures Collect(outcomes).Success? <==>
      forall j :: 0 <= j < |Evaluations(outcomes)| ==> Evaluations(outcomes)[j].Evaluated?
    ensures Collect(outcomes).Success? ==>
      && |Collect(outcomes).value| == |Evaluations(outcomes)|
      && forall j :: 0 <= j < |Evaluations(outcomes)| ==>
           Evaluations(outcomes)[j] == Evaluated(Collect(outcomes).value[j])
  {
    if outcomes != [] {
      var n := |outcomes| - 1;
      var prefix := outcomes[..n];
      CollectOnePerEvaluation(prefix);
      var ev := Evaluations(prefix);
      if !outcomes[n].Skipped? {
        assert Evaluations(outcomes) == ev + [outcomes[n]];
        assert Evaluations(outcomes)[|ev|] == outcomes[n];
        assert forall j :: 0 <= j < |ev| ==> Evaluations(outcomes)[j] == ev[j];
        if Collect(outcomes).Success? {
          assert Collect(prefix).Success? && outcomes[n].Evaluated?;
          assert Collect(outcomes).value == Collect(prefix).value + [outcomes[n].d];
        }
      } else {
        assert Evaluations(outcomes) == ev;
      }
    }
  }

  /** Outcomes of the kept rows are the non-skipped outcomes, when f skips
      exactly the rows with an empty TAU cell. */
  lemma {:induction false} KeptOutcomes(rows: seq<Row>, f: Row -> RowOutcome)
    requires forall row :: f(row).Skipped? <==> row.tau.Null?
    ensures Evaluations(MapRows(rows, f)) == MapRows(Kept(rows), f)
  {
    if rows != [] {
      var n := |rows| - 1;
      KeptOutcomes(rows[..n], f);
      assert MapRows(rows, f)[..n] == MapRows(rows[..n], f);
      var k := Kept(rows[..n]);
      if !rows[n].tau.Null? {
        assert MapRows(Kept(rows), f) == MapRows(k, f) + [f(rows[n])];
      }
    }
  }

  /** The batch succeeds exactly when no kept row raises, and then holds one
      result per kept row, in row order. */
  lemma BatchOnePerKeptRow(rows: seq<Row>, parse: string -> Option<real>,
                           solverFor: Params -> Simulation.Stepper)
    ensures Batch(rows, parse, solverFor).Success? <==>
      forall j :: 0 <= j < |Kept(rows)| ==> EvaluateRow(Kept(rows)[j], parse, solverFor).Evaluated?
    ensures Batch(rows, parse, solverFor).Success? ==>
      && |Batch(rows, parse, solverFor).value| == |Kept(rows)|
      && forall j :: 0 <= j < |Kept(rows)| ==>
           EvaluateRow(Kept(rows)[j], parse, solverFor) == Evaluated(Batch(rows, parse, solverFor).value[j])
  {
    var f := RowEvaluator(parse, solverFor);
    KeptOutcomes(rows, f);
    CollectOnePerEvaluation(MapRows(rows, f));
  }

  /** A kept row raises AttributeError when one of its six cells is not text
      (an empty cell other than TAU included) and all cells before it parse;
      ValueError when a field of a text cell is not a number. */
  lemma RowErrors(row: Row, parse: string -> Option<real>, solverFor: Params -> Simulation.Stepper)
    requires !row.tau.Null?
    ensures EvaluateRow(row, parse, solverFor) != Skipped
    ensures !row.tau.Text? ==> EvaluateRow(row, parse, solverFor) == Raised(AttributeError)
    ensures ParseCell(row.tau, parse).Success? && row.yMax.Null? ==>
      EvaluateRow(row, parse, solverFor) == Raised(AttributeError)
    ensures row.tau.Text? && (exists p :: p in Split(row.tau.s, ',') && parse(p).None?) ==>
      EvaluateRow(row, parse, solverFor) == Raised(ValueError)
  {
    ParseCellCorrect(row.tau, parse);
    ParseCellCorrect(row.yMax, parse);
  }

  /** Every kept row is read out at row 1499 of its trajectory, which with
      a solver that never fails and keeps the 91-wide state is the sample at
      exactly time 100: the result pairs the nodes with that row. */
  lemma ReadOutAtTime100(row: Row, parse: string -> Option<real>, solverFor: Params -> Simulation.Stepper)
    requires !row.tau.Null? && ParseRow(row, parse).Success?
    requires var params := ParseRow(row, parse).value.0;
      Simulation.AlwaysReaches(solverFor(params)) && Simulation.KeepsWidth(solverFor(params), |SpeciesNames|)
    ensures |SpeciesNames| == 91
    ensures Simulation.ExtractionIndex(0.0, SpecificTime, SpecificTime) == 1499
    ensures var params := ParseRow(row, parse).value.0;
      var yInit := ParseRow(row, parse).value.1;
      var tr := Simulation.Sample(solverFor(params), 0.0, yInit, SpecificTime, 1.0 / 15.0);
      && |tr.times| == 1501 && tr.times[1499] == SpecificTime && |tr.rows[1499]| == 91
      && EvaluateRow(row, parse, solverFor) == Evaluated(Simulation.ZipDict(SpeciesNames, tr.rows[1499]))
  {
    var params := ParseRow(row, parse).value.0;
    var yInit := ParseRow(row, parse).value.1;
    var step := solverFor(params);
    Simulation.ExtractionIndexClosedForm(SpecificTime);
    assert (15.0 * SpecificTime).Floor == 1500;
    Simulation.HorizonSamples(step, yInit, SpecificTime);
    Simulation.ExtractedSampleNotAfterRequestedTime(step, yInit, SpecificTime);
    var tr := Simulation.Sample(step, 0.0, yInit, SpecificTime, 1.0 / 15.0);
    Simulation.SampleRowsWidth(step, 0.0, yInit, SpecificTime, 1.0 / 15.0, |SpeciesNames|);
    assert Simulation.Simulate(step, 0.0, yInit, SpecificTime, SpecificTime, |SpeciesNames|) == Success(tr);
  }
}
