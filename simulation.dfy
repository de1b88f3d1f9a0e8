/**
  The simulation bookkeeping shared by NetfluxODE_run.py and RapidODE_run.py
  (RapidODE_run.py carries verbatim copies of these three functions):

  - `run_simulation`: drive the solver in steps of `dt` from `tspan[0]`,
    appending one time and one state row per step, while the solver reports
    success and the current time has not passed `tspan[1]`;
  - `create_results_dict`: pair the node names with one state row;
  - `run_simulation_and_return_dict`: pick the row at the requested time.

  The ODE solver (scipy's `vode`, Adams method) and the right-hand side
  `NetfluxODE.ODEfunc` are not part of this model: a `Stepper` stands for
  one call `r.integrate(target)`. Activities are exact reals.
 */
module Simulation {
  import opened Wrappers
  import opened PyDict

  /** What the solver leaves behind after one `r.integrate(target)` call:
      on success its time is the target; on failure it reports the time it
      reached, and `r.successful()` turns false. */
  datatype StepOutcome = Reached(y: seq<real>) | Failed(t: real, y: seq<real>)

  /** One solver step: (current time, current state, target time). */
  type Stepper = (real, seq<real>, real) -> StepOutcome

  /** The lists `t` and `results` returned by `run_simulation`. */
  datatype Trajectory = Trajectory(times: seq<real>, rows: seq<seq<real>>)

  /** The Python exceptions the modelled code can raise:
      ZeroDivision (a zero divisor in the step formula),
      ShapeMismatch (`np.append` of a row whose width is not the number of names),
      IndexError (`results[index, :]` past the end),
      OutOfRange (a negative extraction index in the corrected ExtractRow). */
  datatype SimError = ZeroDivision | ShapeMismatch | IndexError | OutOfRange

  /** The step `dt = tspan[1] / ((specific_time * 150) / 10)`. */
  function Dt(tEnd: real, specificTime: real): real
    requires specificTime != 0.0
  {
    tEnd / ((specificTime * 150.0) / 10.0)
  }

  /** The sampling loop ends: either the formula for dt divides by zero, or
      the loop never starts, or every step moves time forward. With
      `dt <= 0` and a start inside the horizon the source loops forever. */
  predicate Terminates(t0: real, tEnd: real, specificTime: real) {
    specificTime == 0.0 || t0 > tEnd || Dt(tEnd, specificTime) > 0.0
  }

  /** With the horizon `[0, T]` that every caller uses, the step is 1/15. */
  lemma DtOfHorizon(specificTime: real)
    requires specificTime != 0.0
    ensures Dt(specificTime, specificTime) == 1.0 / 15.0
    ensures Terminates(0.0, specificTime, specificTime)
  {
    var d := (specificTime * 150.0) / 10.0;
    assert d == 15.0 * specificTime;
    assert (1.0 / 15.0) * d == specificTime;
  }

  /** Division by a nonzero number has a unique quotient. */
  lemma DivideExact(x: real, d: real, z: real)
    requires d != 0.0 && z * d == x
    ensures x / d == z
  {
  }

  /** One more step of length dt lowers the number of whole steps left by one. */
  lemma StepDecreases(t: real, tEnd: real, dt: real)
    requires dt > 0.0
    ensures ((tEnd - (t + dt)) / dt).Floor == ((tEnd - t) / dt).Floor - 1
  {
    var q := (tEnd - t) / dt;
    assert q * dt == tEnd - t;
    DivideExact(tEnd - (t + dt), dt, q - 1.0);
    assert (q - 1.0).Floor == q.Floor - 1;
  }

  /** How many more steps the loop can take before time passes `tEnd`. */
  function StepsLeft(t: real, tEnd: real, dt: real): int
    requires dt > 0.0 || t > tEnd
  {
    if t <= tEnd then ((tEnd - t) / dt).Floor + 1 else 0
  }

  lemma StepsLeftDecrease(t: real, tEnd: real, dt: real)
    requires dt > 0.0 && t <= tEnd
    ensures 0 <= StepsLeft(t + dt, tEnd, dt) < StepsLeft(t, tEnd, dt)
  {
    StepDecreases(t, tEnd, dt);
  }

  /** The samples that the loop of `run_simulation` collects from time `t` and
      state `y` on: one time and one row per solver call, stopping after a
      failed call or once the time has passed `tEnd`. The initial state is
      not recorded. */
  function Sample(step: Stepper, t: real, y: seq<real>, tEnd: real, dt: real): (tr: Trajectory)
    requires dt > 0.0 || t > tEnd
    ensures |tr.times| == |tr.rows|
    decreases StepsLeft(t, tEnd, dt)
  {
    if t > tEnd then Trajectory([], [])
    else
      match step(t, y, t + dt)
      case Reached(y1) =>
        StepsLeftDecrease(t, tEnd, dt);
        var rest := Sample(step, t + dt, y1, tEnd, dt);
        Trajectory([t + dt] + rest.times, [y1] + rest.rows)
      case Failed(t1, y1) =>
        Trajectory([t1], [y1])
  }

  /** `run_simulation(tspan, y0, params, speciesNames, specific_time)` as a
      value: the trajectory, or the exception it raises. */
  function Simulate(step: Stepper, t0: real, y0: seq<real>, tEnd: real, specificTime: real, width: nat)
    : Result<Trajectory, SimError>
    requires Terminates(t0, tEnd, specificTime)
  {
    if specificTime == 0.0 then Failure(ZeroDivision)
    else
      var tr := Sample(step, t0, y0, tEnd, Dt(tEnd, specificTime));
      if AllWidth(tr.rows, width) then Success(tr)
      else Failure(ShapeMismatch)
  }

  /** A successful step records its target time and new state, then the
      loop goes on from there. */
  lemma SampleReached(step: Stepper, t: real, y: seq<real>, tEnd: real, dt: real, y1: seq<real>)
    requires dt > 0.0 && t <= tEnd && step(t, y, t + dt) == Reached(y1)
    ensures Sample(step, t, y, tEnd, dt).times == [t + dt] + Sample(step, t + dt, y1, tEnd, dt).times
    ensures Sample(step, t, y, tEnd, dt).rows == [y1] + Sample(step, t + dt, y1, tEnd, dt).rows
  {
  }

  /** A failed step records where the solver stopped, and the loop ends. */
  lemma SampleFailed(step: Stepper, t: real, y: seq<real>, tEnd: real, dt: real, t1: real, y1: seq<real>)
    requires dt > 0.0 && t <= tEnd && step(t, y, t + dt) == Failed(t1, y1)
    ensures Sample(step, t, y, tEnd, dt) == Trajectory([t1], [y1])
  {
  }

  /** Every row has `width` entries, so `np.append` accepts it. */
  predicate AllWidth(rows: seq<seq<real>>, width: nat) {
    forall i :: 0 <= i < |rows| ==> |rows[i]| == width
  }

  /** The sampling loop itself (NetfluxODE_run.py:14-24), once `dt` is known. */
  method SampleLoop(step: Stepper, t0: real, y0: seq<real>, tEnd: real, dt: real, width: nat)
    returns (r: Result<Trajectory, SimError>)
    requires dt > 0.0 || t0 > tEnd
    ensures AllWidth(Sample(step, t0, y0, tEnd, dt).rows, width) ==> r == Success(Sample(step, t0, y0, tEnd, dt))
    ensures !AllWidth(Sample(step, t0, y0, tEnd, dt).rows, width) ==> r == Failure(ShapeMismatch)
  {
    ghost var all := Sample(step, t0, y0, tEnd, dt);
    var times: seq<real> := [];
    var rows: seq<seq<real>> := [];
    var t, y, ok := t0, y0, true;
    while ok && t <= tEnd
      invariant dt > 0.0 || t > tEnd
      invariant ok ==> all == Append(Trajectory(times, rows), Sample(step, t, y, tEnd, dt))
      invariant !ok ==> all == Trajectory(times, rows)
      invariant |times| <= |all.times|
      invariant AllWidth(rows, width)
      decreases |all.times| - |times|
    {
      var outcome := step(t, y, t + dt);
      var next := if outcome.Reached? then t + dt else outcome.t;
      var reached := outcome.Reached?;
      SampleStep(step, t, y, tEnd, dt, next, outcome.y, reached, times, rows, all);
      t, y, ok := next, outcome.y, reached;
      if |y| != width {
        return Failure(ShapeMismatch);
      }
      rows := rows + [y];
      times := times + [t];
    }
    if ok {
      assert Sample(step, t, y, tEnd, dt) == Trajectory([], []);
      assert times + [] == times && rows + [] == rows;
      assert all == Trajectory(times, rows);
    }
    r := Success(Trajectory(times, rows));
  }

  /** The samples of `first` followed by those of `second`. */
  function Append(first: Trajectory, second: Trajectory): Trajectory {
    Trajectory(first.times + second.times, first.rows + second.rows)
  }

  /** One turn of the sampling loop: what has been collected plus what is
      still to come stays the whole trajectory. */
  lemma SampleStep(step: Stepper, t: real, y: seq<real>, tEnd: real, dt: real,
                   next: real, y1: seq<real>, reached: bool,
                   times: seq<real>, rows: seq<seq<real>>, all: Trajectory)
    requires dt > 0.0 && t <= tEnd
    requires reached == step(t, y, t + dt).Reached? && y1 == step(t, y, t + dt).y
    requires next == if reached then t + dt else step(t, y, t + dt).t
    requires all == Append(Trajectory(times, rows), Sample(step, t, y, tEnd, dt))
    ensures reached ==> all == Append(Trajectory(times + [next], rows + [y1]), Sample(step, next, y1, tEnd, dt))
    ensures !reached ==> all == Trajectory(times + [next], rows + [y1])
    ensures |times| < |all.times| && |rows| < |all.rows| && all.rows[|rows|] == y1
  {
    if reached {
      SampleReached(step, t, y, tEnd, dt, y1);
      var rest := Sample(step, next, y1, tEnd, dt);
      Regroup(times, next, rest.times);
      Regroup(rows, y1, rest.rows);
    } else {
      SampleFailed(step, t, y, tEnd, dt, next, y1);
    }
  }

  /** Moving the head of the second part to the end of the first. */
  lemma Regroup<T>(xs: seq<T>, x: T, ys: seq<T>)
    ensures xs + ([x] + ys) == (xs + [x]) + ys
  {
  }

  /** `run_simulation`: compute dt, then sample (NetfluxODE_run.py:14-24). */
  method RunSimulation(step: Stepper, t0: real, y0: seq<real>, tEnd: real, specificTime: real, width: nat)
    returns (r: Result<Trajectory, SimError>)
    requires Terminates(t0, tEnd, specificTime)
    ensures r == Simulate(step, t0, y0, tEnd, specificTime, width)
  {
    if specificTime == 0.0 {
      return Failure(ZeroDivision);
    }
    r := SampleLoop(step, t0, y0, tEnd, Dt(tEnd, specificTime), width);
  }

  /** Every sample but the last comes from a successful step: its time is
      `t + (k+1)*dt` and the loop went on because that time was within the
      horizon. */
  lemma {:induction false} SampleTimes(step: Stepper, t: real, y: seq<real>, tEnd: real, dt: real)
    requires dt > 0.0
    ensures var tr := Sample(step, t, y, tEnd, dt);
      forall k :: 0 <= k < |tr.times| - 1 ==> tr.times[k] == t + (k + 1) as real * dt && tr.times[k] <= tEnd
    decreases StepsLeft(t, tEnd, dt)
  {
    if t <= tEnd && step(t, y, t + dt).Reached? {
      var y1 := step(t, y, t + dt).y;
      SampleReached(step, t, y, tEnd, dt, y1);
      StepsLeftDecrease(t, tEnd, dt);
      SampleTimes(step, t + dt, y1, tEnd, dt);
      var rest := Sample(step, t + dt, y1, tEnd, dt);
      var tr := Sample(step, t, y, tEnd, dt);
      forall k | 0 <= k < |tr.times| - 1
        ensures tr.times[k] == t + (k + 1) as real * dt && tr.times[k] <= tEnd
      {
        if k > 0 {
          assert tr.times[k] == rest.times[k - 1];
          ShiftTime(t, dt, k);
        } else {
          assert rest.times != [];
        }
      }
    }
  }

  /** The k-th sample after t + dt is the (k+1)-th after t. */
  lemma ShiftTime(t: real, dt: real, k: nat)
    ensures (t + dt) + k as real * dt == t + (k + 1) as real * dt
  {
  }

  /** Times spaced dt apart from t + dt on, with t + dt put in front, are
      spaced dt apart from t on. */
  lemma ShiftedTimes(t: real, dt: real, times: seq<real>, rest: seq<real>)
    requires times == [t + dt] + rest
    requires forall k :: 0 <= k < |rest| ==> rest[k] == (t + dt) + (k + 1) as real * dt
    ensures forall k :: 0 <= k < |times| ==> times[k] == t + (k + 1) as real * dt
  {
    forall k | 0 <= k < |times|
      ensures times[k] == t + (k + 1) as real * dt
    {
      if k > 0 {
        assert times[k] == rest[k - 1] == (t + dt) + ((k - 1) + 1) as real * dt;
        ShiftTime(t, dt, k);
      }
    }
  }

  /** Less than one step to go: the number of whole steps left is zero. */
  lemma OneStepLeft(t: real, tEnd: real, dt: real)
    requires dt > 0.0 && t <= tEnd < t + dt
    ensures ((tEnd - t) / dt).Floor == 0
  {
    DivideExact(tEnd - t, dt, (tEnd - t) / dt);
    assert (tEnd - t) / dt * dt == tEnd - t;
  }

  /** The solver never fails. */
  ghost predicate AlwaysReaches(step: Stepper) {
    forall t, y, target :: step(t, y, target).Reached?
  }

  /** With a solver that never fails, the loop collects exactly
      `floor((tEnd - t) / dt) + 1` samples at `t + dt, t + 2dt, ...`, and the
      last one is the first to pass the horizon. */
  lemma {:induction false} SampleCount(step: Stepper, t: real, y: seq<real>, tEnd: real, dt: real)
    requires dt > 0.0 && t <= tEnd && AlwaysReaches(step)
    ensures var tr := Sample(step, t, y, tEnd, dt);
      && |tr.times| == ((tEnd - t) / dt).Floor + 1
      && (forall k :: 0 <= k < |tr.times| ==> tr.times[k] == t + (k + 1) as real * dt)
      && tr.times[|tr.times| - 1] > tEnd
    decreases StepsLeft(t, tEnd, dt)
  {
    var y1 := step(t, y, t + dt).y;
    var tr := Sample(step, t, y, tEnd, dt);
    var rest := Sample(step, t + dt, y1, tEnd, dt);
    assert tr.times == [t + dt] + rest.times;
    if t + dt <= tEnd {
      StepDecreases(t, tEnd, dt);
      SampleCount(step, t + dt, y1, tEnd, dt);
      ShiftedTimes(t, dt, tr.times, rest.times);
    } else {
      OneStepLeft(t, tEnd, dt);
    }
  }

  /** `create_results_dict(values, names)`: the dictionary built by
      `d[names[i]] = values[i]` for i = 0, 1, ... in turn. */
  function ZipDict(names: seq<string>, values: seq<real>): (d: Dict<real>)
    requires |names| <= |values|
    ensures Valid(d)
  {
    if names == [] then Empty()
    else Set(ZipDict(names[..|names| - 1], values), names[|names| - 1], values[|names| - 1])
  }

  /** Every name is a key and every key is a name. */
  lemma {:induction false} ZipDictKeys(names: seq<string>, values: seq<real>)
    requires |names| <= |values|
    ensures forall k :: k in ZipDict(names, values).entries <==> k in names
  {
    if names != [] {
      var n := |names| - 1;
      ZipDictKeys(names[..n], values);
      assert names == names[..n] + [names[n]];
    }
  }

  /** A name maps to the value at its last occurrence, so to `values[i]`
      whenever `names[i]` does not recur later. */
  lemma {:induction false} ZipDictLastWins(names: seq<string>, values: seq<real>, i: nat)
    requires |names| <= |values| && i < |names|
    requires forall j :: i < j < |names| ==> names[j] != names[i]
    ensures names[i] in ZipDict(names, values).entries
    ensures ZipDict(names, values).entries[names[i]] == values[i]
  {
    var n := |names| - 1;
    var prev := ZipDict(names[..n], values);
    assert ZipDict(names, values) == Set(prev, names[n], values[n]);
    if i < n {
      assert names[..n][i] == names[i];
      ZipDictLastWins(names[..n], values, i);
      assert names[n] != names[i];
    }
  }

  /** With distinct names (as the network's node list is), the keys are the
      names in their order and `names[i]` maps to `values[i]`. */
  lemma {:induction false} ZipDictDistinct(names: seq<string>, values: seq<real>)
    requires |names| <= |values|
    requires forall i, j :: 0 <= i < j < |names| ==> names[i] != names[j]
    ensures ZipDict(names, values).keys == names
    ensures forall i :: 0 <= i < |names| ==> ZipDict(names, values).entries[names[i]] == values[i]
  {
    ZipDictKeyOrder(names, values);
    forall i | 0 <= i < |names|
      ensures ZipDict(names, values).entries[names[i]] == values[i]
    {
      ZipDictLastWins(names, values, i);
    }
  }

  /** With distinct names every assignment adds a new key at the end. */
  lemma {:induction false} ZipDictKeyOrder(names: seq<string>, values: seq<real>)
    requires |names| <= |values|
    requires forall i, j :: 0 <= i < j < |names| ==> names[i] != names[j]
    ensures ZipDict(names, values).keys == names
  {
    if names != [] {
      var n := |names| - 1;
      var prefix := ZipDict(names[..n], values);
      ZipDictKeyOrder(names[..n], values);
      ZipDictKeys(names[..n], values);
      assert names[n] !in names[..n];
      assert names[n] !in prefix.entries;
      assert ZipDict(names, values) == Set(prefix, names[n], values[n]);
      assert names[..n] + [names[n]] == names;
    }
  }

  /** The loop of `create_results_dict` (NetfluxODE_run.py:50-56). */
  method CreateResultsDict(values: seq<real>, names: seq<string>) returns (d: Dict<real>)
    requires |names| <= |values|
    ensures d == ZipDict(names, values)
  {
    d := Empty();
    var i := 0;
    while i < |names|
      invariant 0 <= i <= |names|
      invariant d == ZipDict(names[..i], values)
    {
      assert names[..i + 1][..i] == names[..i];
      d := Set(d, names[i], values[i]);
      i := i + 1;
    }
    assert names[..|names|] == names;
  }

  /** Python's `int(x)`: truncation toward zero. */
  function Trunc(x: real): (n: int)
    ensures x >= 0.0 ==> n as real <= x < n as real + 1.0
    ensures x < 0.0 ==> n as real - 1.0 < x <= n as real
  {
    if x >= 0.0 then x.Floor else -((-x).Floor)
  }

  /** The row index of NetfluxODE_run.py:96,
      `int((specific_time - tspan[0]) / dt) - 1`. */
  function ExtractionIndex(t0: real, tEnd: real, specificTime: real): int
    requires specificTime != 0.0 && Dt(tEnd, specificTime) != 0.0
  {
    Trunc((specificTime - t0) / Dt(tEnd, specificTime)) - 1
  }

  /** numpy's `results[index, :]` on a table of n rows: a negative index
      counts from the end, anything else outside the table is an IndexError. */
  function PyRowIndex(n: nat, index: int): (r: Option<nat>)
    ensures r.Some? <==> -(n as int) <= index < n
    ensures r.Some? ==> r.value < n && r.value as int == index % n
  {
    if 0 <= index < n then Some(index)
    else if -(n as int) <= index < 0 then Some(n + index)
    else None
  }

  /** The row `results[index, :]` picks, as written. */
  function ExtractRowAsWritten(tr: Trajectory, index: int): Result<nat, SimError> {
    match PyRowIndex(|tr.rows|, index)
    case Some(k) => Success(k)
    case None => Failure(IndexError)
  }

  /** The row the extraction is meant to pick (the corrected half of the
      wrap-around at NetfluxODE_run.py:96-97): a negative index (fewer than
      one full step before the requested time) is OutOfRange rather than a
      wrap-around to the end of the table. */
  function ExtractRow(tr: Trajectory, index: int): (r: Result<nat, SimError>)
    ensures r.Success? ==> r.value == index && r.value < |tr.rows|
    ensures r.Failure? <==> index < 0 || index >= |tr.rows|
  {
    if index < 0 then Failure(OutOfRange)
    else if index >= |tr.rows| then Failure(IndexError)
    else Success(index)
  }

  /** `run_simulation_and_return_dict` as a value, as written: a negative
      index wraps around to the end of the table. */
  function SimulateAndExtract(step: Stepper, t0: real, tEnd: real, y0: seq<real>, specificTime: real,
                              names: seq<string>): Result<Dict<real>, SimError>
    requires Terminates(t0, tEnd, specificTime)
  {
    match Simulate(step, t0, y0, tEnd, specificTime, |names|)
    case Failure(e) => Failure(e)
    case Success(tr) =>
      if Dt(tEnd, specificTime) == 0.0 then Failure(ZeroDivision)
      else
        match ExtractRowAsWritten(tr, ExtractionIndex(t0, tEnd, specificTime))
        case Failure(e) => Failure(e)
        case Success(k) => Success(ZipDict(names, tr.rows[k]))
  }

  /** NetfluxODE_run.py:94-99. */
  method RunSimulationAndReturnDict(step: Stepper, t0: real, tEnd: real, y0: seq<real>,
                                    specificTime: real, names: seq<string>)
    returns (r: Result<Dict<real>, SimError>)
    requires Terminates(t0, tEnd, specificTime)
    ensures r == SimulateAndExtract(step, t0, tEnd, y0, specificTime, names)
  {
    var sim := RunSimulation(step, t0, y0, tEnd, specificTime, |names|);
    if sim.Failure? {
      return Failure(sim.error);
    }
    var tr := sim.value;
    if Dt(tEnd, specificTime) == 0.0 {
      return Failure(ZeroDivision);
    }
    var index := ExtractionIndex(t0, tEnd, specificTime);
    var row := ExtractRowAsWritten(tr, index);
    if row.Failure? {
      return Failure(row.error);
    }
    var d := CreateResultsDict(tr.rows[row.value], names);
    r := Success(d);
  }

  /** Every state the solver returns has `width` entries. */
  ghost predicate KeepsWidth(step: Stepper, width: nat) {
    forall t, y, target :: |step(t, y, target).y| == width
  }

  /** For the horizon `[0, T]` with T > 0, the extraction index is
      `floor(15 T) - 1`. */
  lemma ExtractionIndexClosedForm(specificTime: real)
    requires specificTime > 0.0
    ensures Dt(specificTime, specificTime) == 1.0 / 15.0
    ensures ExtractionIndex(0.0, specificTime, specificTime) == (15.0 * specificTime).Floor - 1
  {
    DtOfHorizon(specificTime);
    DivideExact(specificTime, 1.0 / 15.0, 15.0 * specificTime);
  }

  /** With a solver that never fails, the horizon `[0, T]` is sampled at
      `1/15, 2/15, ...` and the loop collects `floor(15 T) + 1` samples. */
  lemma HorizonSamples(step: Stepper, y0: seq<real>, specificTime: real)
    requires specificTime > 0.0 && AlwaysReaches(step)
    ensures var tr := Sample(step, 0.0, y0, specificTime, 1.0 / 15.0);
      && |tr.times| == (15.0 * specificTime).Floor + 1
      && forall k :: 0 <= k < |tr.times| ==> tr.times[k] == (k + 1) as real / 15.0
  {
    SampleCount(step, 0.0, y0, specificTime, 1.0 / 15.0);
    DivideExact(specificTime - 0.0, 1.0 / 15.0, 15.0 * specificTime);
    var tr := Sample(step, 0.0, y0, specificTime, 1.0 / 15.0);
    forall k | 0 <= k < |tr.times|
      ensures tr.times[k] == (k + 1) as real / 15.0
    {
      DivideExact((k + 1) as real, 15.0, (k + 1) as real * (1.0 / 15.0));
    }
  }

  /** When at least one full step fits before T, the row extracted is the
      last sample not after T: it lies within one step of T and the next
      sample is past T. */
  lemma ExtractedSampleNotAfterRequestedTime(step: Stepper, y0: seq<real>, specificTime: real)
    requires specificTime >= 1.0 / 15.0 && AlwaysReaches(step)
    ensures var tr := Sample(step, 0.0, y0, specificTime, 1.0 / 15.0);
      var index := ExtractionIndex(0.0, specificTime, specificTime);
      && ExtractRow(tr, index) == Success(index)
      && ExtractRowAsWritten(tr, index) == Success(index)
      && index + 1 < |tr.times|
      && specificTime - 1.0 / 15.0 < tr.times[index] <= specificTime
      && tr.times[index + 1] > specificTime
  {
    ExtractionIndexClosedForm(specificTime);
    HorizonSamples(step, y0, specificTime);
    var f := (15.0 * specificTime).Floor;
    assert f >= 1;
    assert f as real <= 15.0 * specificTime < f as real + 1.0;
  }

  /** NetfluxODE_run.py:96-97 as written: for `0 < T < 1/15` the index is -1,
      numpy reads it as the last row, and that row lies after T. */
  lemma NegativeIndexWrapsPastRequestedTime(step: Stepper, y0: seq<real>, specificTime: real)
    requires 0.0 < specificTime < 1.0 / 15.0 && AlwaysReaches(step)
    ensures var tr := Sample(step, 0.0, y0, specificTime, 1.0 / 15.0);
      var index := ExtractionIndex(0.0, specificTime, specificTime);
      && index == -1
      && ExtractRowAsWritten(tr, index) == Success(|tr.rows| - 1)
      && tr.times[|tr.times| - 1] > specificTime
      && ExtractRow(tr, index) == Failure(OutOfRange)
  {
    ExtractionIndexClosedForm(specificTime);
    HorizonSamples(step, y0, specificTime);
    assert (15.0 * specificTime).Floor == 0;
  }

  /** End to end: with a solver that never fails and keeps the state width,
      `run_simulation_and_return_dict` over `[0, T]` pairs each node name
      with its activity at the last sample not after T. */
  lemma SimulateAndExtractAtRequestedTime(step: Stepper, y0: seq<real>, specificTime: real, names: seq<string>)
    requires specificTime >= 1.0 / 15.0 && AlwaysReaches(step) && KeepsWidth(step, |names|)
    requires forall i, j :: 0 <= i < j < |names| ==> names[i] != names[j]
    ensures Terminates(0.0, specificTime, specificTime)
    ensures var tr := Sample(step, 0.0, y0, specificTime, 1.0 / 15.0);
      var index := ExtractionIndex(0.0, specificTime, specificTime);
      && 0 <= index < |tr.rows| && |tr.rows[index]| == |names|
      && specificTime - 1.0 / 15.0 < tr.times[index] <= specificTime
      && SimulateAndExtract(step, 0.0, specificTime, y0, specificTime, names).Success?
      && var d := SimulateAndExtract(step, 0.0, specificTime, y0, specificTime, names).value;
         d.keys == names && forall i :: 0 <= i < |names| ==> d.entries[names[i]] == tr.rows[index][i]
  {
    DtOfHorizon(specificTime);
    ExtractedSampleNotAfterRequestedTime(step, y0, specificTime);
    var tr := Sample(step, 0.0, y0, specificTime, 1.0 / 15.0);
    var index := ExtractionIndex(0.0, specificTime, specificTime);
    SampleRowsWidth(step, 0.0, y0, specificTime, 1.0 / 15.0, |names|);
    assert Simulate(step, 0.0, y0, specificTime, specificTime, |names|) == Success(tr);
    ZipDictDistinct(names, tr.rows[index]);
  }

  /** End to end as written, for `0 < T < 1/15`: the result is the dictionary
      of the last sample, which lies after T. */
  lemma SimulateAndExtractBelowOneStep(step: Stepper, y0: seq<real>, specificTime: real, names: seq<string>)
    requires 0.0 < specificTime < 1.0 / 15.0 && AlwaysReaches(step) && KeepsWidth(step, |names|)
    ensures Terminates(0.0, specificTime, specificTime)
    ensures var tr := Sample(step, 0.0, y0, specificTime, 1.0 / 15.0);
      && |tr.rows| > 0
      && tr.times[|tr.times| - 1] > specificTime
      && |tr.rows[|tr.rows| - 1]| == |names|
      && SimulateAndExtract(step, 0.0, specificTime, y0, specificTime, names)
           == Success(ZipDict(names, tr.rows[|tr.rows| - 1]))
  {
    DtOfHorizon(specificTime);
    NegativeIndexWrapsPastRequestedTime(step, y0, specificTime);
    var tr := Sample(step, 0.0, y0, specificTime, 1.0 / 15.0);
    SampleRowsWidth(step, 0.0, y0, specificTime, 1.0 / 15.0, |names|);
    assert Simulate(step, 0.0, y0, specificTime, specificTime, |names|) == Success(tr);
  }

  /** End to end for a negative T: the loop never starts, and indexing the
      empty table raises IndexError. */
  lemma SimulateAndExtractNegativeTime(step: Stepper, y0: seq<real>, specificTime: real, names: seq<string>)
    requires specificTime < 0.0
    ensures Terminates(0.0, specificTime, specificTime)
    ensures SimulateAndExtract(step, 0.0, specificTime, y0, specificTime, names) == Failure(IndexError)
  {
    DtOfHorizon(specificTime);
    assert Sample(step, 0.0, y0, specificTime, 1.0 / 15.0) == Trajectory([], []);
    assert Simulate(step, 0.0, y0, specificTime, specificTime, |names|) == Success(Trajectory([], []));
  }

  /** A solver that keeps the width produces rows of that width. */
  lemma {:induction false} SampleRowsWidth(step: Stepper, t: real, y: seq<real>, tEnd: real, dt: real, width: nat)
    requires dt > 0.0 && KeepsWidth(step, width)
    ensures AllWidth(Sample(step, t, y, tEnd, dt).rows, width)
    decreases StepsLeft(t, tEnd, dt)
  {
    if t <= tEnd && step(t, y, t + dt).Reached? {
      var y1 := step(t, y, t + dt).y;
      SampleReached(step, t, y, tEnd, dt, y1);
      StepsLeftDecrease(t, tEnd, dt);
      SampleRowsWidth(step, t + dt, y1, tEnd, dt, width);
    }
  }
}
