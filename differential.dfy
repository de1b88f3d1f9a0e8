/**
  The computational half of `generate_bar_graph` (NetfluxODE_run.py:60-90):
  per-node deltas (treatment minus control, a node missing from control
  counting as 0), and the order in which the bars are drawn: either the
  caller's node order, kept exactly, or the deltas sorted ascending by a
  stable sort. The function returns the name order so that a second chart
  can reuse it; the values go to the bar chart, which is not modelled.
 */
module Differential {
  import opened Wrappers
  import opened PyDict
  import Simulation

  /** KeyError: a name of the caller's order is not a treatment node.
      UnpackError: `zip(*sorted_data)` on an empty list cannot be unpacked
      into two names. */
  datatype BarError = KeyError(key: string) | UnpackError

  /** The bars: names in drawing order and the delta drawn for each. */
  datatype Report = Report(names: seq<string>, deltas: seq<real>)

  /** `difference_dict`: for each treatment node, in the treatment's order,
      its activity minus the control's (0 when control lacks it). */
  function DeltaDict(control: Dict<real>, treatment: Dict<real>): (d: Dict<real>)
    requires Valid(treatment)
    ensures Valid(d)
  {
    Dict(treatment.keys, map k | k in treatment.entries :: treatment.entries[k] - GetOr(control, k, 0.0))
  }

  /** The delta map has exactly the treatment's keys, in its order; each
      delta added to the control activity (0 when absent) gives back the
      treatment activity, and a node only the control has never appears. */
  lemma DeltaDictInverse(control: Dict<real>, treatment: Dict<real>)
    requires Valid(treatment)
    ensures DeltaDict(control, treatment).keys == treatment.keys
    ensures forall k :: k in DeltaDict(control, treatment).entries <==> k in treatment.entries
    ensures forall k :: k in treatment.entries ==>
      GetOr(control, k, 0.0) + DeltaDict(control, treatment).entries[k] == treatment.entries[k]
    ensures forall k :: k in treatment.entries && k !in control.entries ==>
      DeltaDict(control, treatment).entries[k] == treatment.entries[k]
  {
  }

  /** Comparing a run with itself gives a zero delta for every node. */
  lemma SelfDeltaIsZero(m: Dict<real>)
    requires Valid(m)
    ensures forall k :: k in DeltaDict(m, m).entries ==> DeltaDict(m, m).entries[k] == 0.0
    ensures forall i :: 0 <= i < |m.keys| ==> Values(DeltaDict(m, m))[i] == 0.0
  {
  }

  /** Position p is drawn before position q by a stable ascending sort on
      `keys`: a smaller key, or an equal key and an earlier position. */
  predicate Before(keys: seq<real>, p: nat, q: nat)
    requires p < |keys| && q < |keys|
  {
    keys[p] < keys[q] || (keys[p] == keys[q] && p < q)
  }

  /** Every entry of s is a position of keys and s is in Before order. */
  ghost predicate SortedPositions(keys: seq<real>, s: seq<nat>) {
    && (forall i :: 0 <= i < |s| ==> s[i] < |keys|)
    && (forall i, j :: 0 <= i < j < |s| ==> Before(keys, s[i], s[j]))
  }

  /** Insert position p before the first entry it should precede. */
  function Insert(keys: seq<real>, p: nat, s: seq<nat>): (r: seq<nat>)
    requires p < |keys| && forall i :: 0 <= i < |s| ==> s[i] < |keys|
    ensures multiset(r) == multiset(s) + multiset{p}
    ensures forall i :: 0 <= i < |r| ==> r[i] < |keys|
    ensures forall i :: 0 <= i < |r| ==> r[i] == p || r[i] in s
  {
    if s == [] then [p]
    else if Before(keys, p, s[0]) then [p] + s
    else
      assert s == [s[0]] + s[1..];
      [s[0]] + Insert(keys, p, s[1..])
  }

  lemma {:induction false} InsertSorted(keys: seq<real>, p: nat, s: seq<nat>)
    requires p < |keys| && SortedPositions(keys, s) && p !in s
    ensures SortedPositions(keys, Insert(keys, p, s))
  {
    if s != [] {
      if Before(keys, p, s[0]) {
        PrependSorted(keys, p, s);
      } else {
        var tail := s[1..];
        InsertSorted(keys, p, tail);
        var r := Insert(keys, p, tail);
        HeadGoesFirst(keys, p, s, r);
        PrependSorted(keys, s[0], r);
      }
    }
  }

  /** The head of a sorted list goes before the rest of it and before any
      position that does not go before the head. */
  lemma HeadGoesFirst(keys: seq<real>, p: nat, s: seq<nat>, r: seq<nat>)
    requires p < |keys| && SortedPositions(keys, s) && s != []
    requires p != s[0] && !Before(keys, p, s[0])
    requires forall i :: 0 <= i < |r| ==> r[i] == p || r[i] in s[1..]
    ensures forall j :: 0 <= j < |r| ==> r[j] < |keys| && Before(keys, s[0], r[j])
  {
    forall j | 0 <= j < |r|
      ensures r[j] < |keys| && Before(keys, s[0], r[j])
    {
      if r[j] != p {
        var k :| 0 <= k < |s[1..]| && s[1..][k] == r[j];
        assert s[k + 1] == r[j];
      }
    }
  }

  /** A position that goes before the head of a sorted list goes before all of it. */
  lemma PrependSorted(keys: seq<real>, p: nat, s: seq<nat>)
    requires p < |keys| && SortedPositions(keys, s)
    requires s != [] ==> Before(keys, p, s[0])
    ensures SortedPositions(keys, [p] + s)
  {
    var r := [p] + s;
    forall i, j | 0 <= i < j < |r|
      ensures Before(keys, r[i], r[j])
    {
      assert r[j] == s[j - 1];
      if i > 0 {
        assert r[i] == s[i - 1];
      } else if j > 1 {
        assert Before(keys, s[0], s[j - 1]);
      }
    }
  }

  /** Insertion sort of the positions `ps` by Before. */
  function SortPositions(keys: seq<real>, ps: seq<nat>): (r: seq<nat>)
    requires forall i :: 0 <= i < |ps| ==> ps[i] < |keys|
    ensures multiset(r) == multiset(ps)
    ensures forall i :: 0 <= i < |r| ==> r[i] < |keys|
  {
    if ps == [] then []
    else
      assert ps == [ps[0]] + ps[1..];
      Insert(keys, ps[0], SortPositions(keys, ps[1..]))
  }

  lemma {:induction false} SortPositionsSorted(keys: seq<real>, ps: seq<nat>)
    requires forall i :: 0 <= i < |ps| ==> ps[i] < |keys|
    requires forall i, j :: 0 <= i < j < |ps| ==> ps[i] != ps[j]
    ensures SortedPositions(keys, SortPositions(keys, ps))
  {
    if ps != [] {
      assert ps == [ps[0]] + ps[1..];
      SortPositionsSorted(keys, ps[1..]);
      var rest := SortPositions(keys, ps[1..]);
      assert ps[0] !in multiset(ps[1..]);
      assert ps[0] !in multiset(rest);
      InsertSorted(keys, ps[0], rest);
    }
  }

  /** `range(n)` */
  function Positions(n: nat): (r: seq<nat>)
    ensures |r| == n && forall i :: 0 <= i < n ==> r[i] == i
  {
    seq(n, i requires 0 <= i < n => i)
  }

  /** The drawing order of `sorted(..., key=lambda x: x[0])` over the
      positions of `keys`. */
  function StableOrder(keys: seq<real>): seq<nat>
  {
    SortPositions(keys, Positions(|keys|))
  }

  /** StableOrder is a permutation of the positions, the keys along it never
      decrease, and equal keys keep their original relative order. */
  lemma StableOrderCorrect(keys: seq<real>)
    ensures |StableOrder(keys)| == |keys|
    ensures multiset(StableOrder(keys)) == multiset(Positions(|keys|))
    ensures forall i :: 0 <= i < |keys| ==> StableOrder(keys)[i] < |keys|
    ensures forall i, j :: 0 <= i < j < |keys| ==> keys[StableOrder(keys)[i]] <= keys[StableOrder(keys)[j]]
    ensures forall i, j :: 0 <= i < j < |keys| && keys[StableOrder(keys)[i]] == keys[StableOrder(keys)[j]] ==>
              StableOrder(keys)[i] < StableOrder(keys)[j]
    ensures forall i, j :: 0 <= i < j < |keys| ==> StableOrder(keys)[i] != StableOrder(keys)[j]
  {
    var ps := Positions(|keys|);
    SortPositionsSorted(keys, ps);
    var order := StableOrder(keys);
    assert |order| == |multiset(order)| == |multiset(ps)| == |keys|;
  }

  /** `zip(difference_values, species_names)`, sorted by delta, unzipped. */
  function SortedByDelta(deltas: seq<real>, names: seq<string>): Result<Report, BarError>
  {
    var n := if |deltas| < |names| then |deltas| else |names|;
    if n == 0 then Failure(UnpackError)
    else
      var order := StableOrder(deltas[..n]);
      StableOrderCorrect(deltas[..n]);
      Success(Report(seq(n, i requires 0 <= i < n => names[order[i]]),
                     seq(n, i requires 0 <= i < n => deltas[order[i]])))
  }

  /** The first name of `order` that is not a key of d, if any. */
  function FirstMissing(order: seq<string>, d: Dict<real>): (r: Option<string>)
    ensures r.Some? ==> r.value in order && r.value !in d.entries
    ensures r.None? <==> forall i :: 0 <= i < |order| ==> order[i] in d.entries
  {
    if order == [] then None
    else if order[0] !in d.entries then Some(order[0])
    else FirstMissing(order[1..], d)
  }

  /** `generate_bar_graph(control, treatment, ..., sorted_species)`: the bars
      it draws and, in `names`, the order it returns. */
  function BarGraph(control: Dict<real>, treatment: Dict<real>, sortedSpecies: seq<string>)
    : Result<Report, BarError>
    requires Valid(control) && Valid(treatment)
  {
    var delta := DeltaDict(control, treatment);
    if |sortedSpecies| != 0 then
      match FirstMissing(sortedSpecies, delta)
      case Some(k) => Failure(KeyError(k))
      case None =>
        var ordered := Simulation.ZipDict(sortedSpecies,
                         seq(|sortedSpecies|, i requires 0 <= i < |sortedSpecies| => delta.entries[sortedSpecies[i]]));
        Success(Report(sortedSpecies, Values(ordered)))
    else
      SortedByDelta(Values(delta), control.keys)
  }

  /** With a caller-supplied order: the names returned are that order exactly,
      each bar shows the node's delta, and a name that is not a treatment
      node is a KeyError. */
  lemma ExplicitOrderKept(control: Dict<real>, treatment: Dict<real>, sortedSpecies: seq<string>)
    requires Valid(control) && Valid(treatment) && |sortedSpecies| != 0
    requires forall i, j :: 0 <= i < j < |sortedSpecies| ==> sortedSpecies[i] != sortedSpecies[j]
    ensures (forall i :: 0 <= i < |sortedSpecies| ==> sortedSpecies[i] in treatment.entries)
      <==> BarGraph(control, treatment, sortedSpecies).Success?
    ensures BarGraph(control, treatment, sortedSpecies).Failure? ==>
      BarGraph(control, treatment, sortedSpecies).error.KeyError? &&
      BarGraph(control, treatment, sortedSpecies).error.key in sortedSpecies &&
      BarGraph(control, treatment, sortedSpecies).error.key !in treatment.entries
    ensures BarGraph(control, treatment, sortedSpecies).Success? ==>
      var r := BarGraph(control, treatment, sortedSpecies).value;
      && r.names == sortedSpecies
      && |r.deltas| == |sortedSpecies|
      && forall i :: 0 <= i < |sortedSpecies| ==>
           r.deltas[i] == treatment.entries[sortedSpecies[i]] - GetOr(control, sortedSpecies[i], 0.0)
  {
    var delta := DeltaDict(control, treatment);
    if FirstMissing(sortedSpecies, delta).None? {
      var vals := seq(|sortedSpecies|, i requires 0 <= i < |sortedSpecies| => delta.entries[sortedSpecies[i]]);
      Simulation.ZipDictDistinct(sortedSpecies, vals);
    }
  }

  /** `order` lists each of the positions 0..n-1 exactly once. */
  ghost predicate IsPermutation(order: seq<nat>, n: nat) {
    && |order| == n
    && (forall i :: 0 <= i < n ==> order[i] < n)
    && (forall i, j :: 0 <= i < j < n ==> order[i] != order[j])
  }

  /** The sort on pairs: the first n = min(|deltas|, |names|) pairs are read
      along a permutation; the deltas drawn never decrease, each bar keeps
      its pair, and pairs with equal deltas keep their relative order. With
      no pair at all the unpacking fails. */
  lemma SortedByDeltaCorrect(deltas: seq<real>, names: seq<string>)
    ensures var n := if |deltas| < |names| then |deltas| else |names|;
      var r := SortedByDelta(deltas, names);
      && (r.Failure? <==> n == 0)
      && (r.Success? ==>
           var order := StableOrder(deltas[..n]);
           && IsPermutation(order, n)
           && |r.value.names| == |r.value.deltas| == n
           && (forall i :: 0 <= i < n ==> r.value.names[i] == names[order[i]] && r.value.deltas[i] == deltas[order[i]])
           && (forall i, j :: 0 <= i < j < n ==> r.value.deltas[i] <= r.value.deltas[j])
           && (forall i, j :: 0 <= i < j < n && r.value.deltas[i] == r.value.deltas[j] ==> order[i] < order[j]))
  {
    var n := if |deltas| < |names| then |deltas| else |names|;
    if n > 0 {
      SortedByDeltaOrdered(deltas, names, n);
    }
  }

  /** The non-empty case of SortedByDeltaCorrect, with the report spelled out. */
  lemma SortedByDeltaOrdered(deltas: seq<real>, names: seq<string>, n: nat)
    requires 0 < n && n == (if |deltas| < |names| then |deltas| else |names|)
    ensures SortedByDelta(deltas, names).Success?
    ensures var r := SortedByDelta(deltas, names).value;
      var order := StableOrder(deltas[..n]);
      && IsPermutation(order, n)
      && r.names == seq(n, i requires 0 <= i < n => names[order[i]])
      && r.deltas == seq(n, i requires 0 <= i < n => deltas[order[i]])
      && (forall i, j :: 0 <= i < j < n ==> r.deltas[i] <= r.deltas[j])
      && (forall i, j :: 0 <= i < j < n && r.deltas[i] == r.deltas[j] ==> order[i] < order[j])
  {
    var keys := deltas[..n];
    var order := StableOrder(keys);
    StableOrderCorrect(keys);
    var r := SortedByDelta(deltas, names).value;
    forall i, j | 0 <= i < j < n
      ensures r.deltas[i] <= r.deltas[j]
      ensures r.deltas[i] == r.deltas[j] ==> order[i] < order[j]
    {
      assert r.deltas[i] == keys[order[i]] && r.deltas[j] == keys[order[j]];
    }
  }

  /** Without a caller-supplied order: control-order names are paired with
      treatment-order deltas, cut to the shorter list, and sorted stably by
      delta (see SortedByDeltaCorrect); the report is empty-handed only when
      one of the runs has no node. */
  lemma DefaultOrderSorted(control: Dict<real>, treatment: Dict<real>)
    requires Valid(control) && Valid(treatment)
    ensures var n := if |treatment.keys| < |control.keys| then |treatment.keys| else |control.keys|;
      var r := BarGraph(control, treatment, []);
      && r == SortedByDelta(Values(DeltaDict(control, treatment)), control.keys)
      && (r.Failure? <==> n == 0)
      && (r.Success? ==>
           && |r.value.names| == |r.value.deltas| == n
           && (forall i, j :: 0 <= i < j < n ==> r.value.deltas[i] <= r.value.deltas[j]))
  {
    SortedByDeltaCorrect(Values(DeltaDict(control, treatment)), control.keys);
  }

  /** Sorting the pairs keeps distinct names distinct and invents none. */
  lemma SortedByDeltaNames(deltas: seq<real>, names: seq<string>)
    requires forall i, j :: 0 <= i < j < |names| ==> names[i] != names[j]
    requires SortedByDelta(deltas, names).Success?
    ensures forall i, j :: 0 <= i < j < |SortedByDelta(deltas, names).value.names| ==>
      SortedByDelta(deltas, names).value.names[i] != SortedByDelta(deltas, names).value.names[j]
    ensures forall i :: 0 <= i < |SortedByDelta(deltas, names).value.names| ==>
      SortedByDelta(deltas, names).value.names[i] in names
  {
    var n := if |deltas| < |names| then |deltas| else |names|;
    SortedByDeltaOrdered(deltas, names, n);
    var r := SortedByDelta(deltas, names).value.names;
    var order := StableOrder(deltas[..n]);
    forall i, j | 0 <= i < j < |r|
      ensures r[i] != r[j]
    {
      assert r[i] == names[order[i]] && r[j] == names[order[j]];
    }
    forall i | 0 <= i < |r|
      ensures r[i] in names
    {
      assert r[i] == names[order[i]];
    }
  }

  /** The default order names each control node at most once. */
  lemma DefaultOrderNames(control: Dict<real>, treatment: Dict<real>)
    requires Valid(control) && Valid(treatment)
    requires BarGraph(control, treatment, []).Success?
    ensures forall i, j :: 0 <= i < j < |BarGraph(control, treatment, []).value.names| ==>
      BarGraph(control, treatment, []).value.names[i] != BarGraph(control, treatment, []).value.names[j]
    ensures forall i :: 0 <= i < |BarGraph(control, treatment, []).value.names| ==>
      BarGraph(control, treatment, []).value.names[i] in control.entries
  {
    var deltas := Values(DeltaDict(control, treatment));
    assert BarGraph(control, treatment, []) == SortedByDelta(deltas, control.keys);
    SortedByDeltaNames(deltas, control.keys);
  }

  /** When both runs list the same nodes in the same order (as runs of one
      network do), every bar in the default order is labelled with its own
      node's delta. */
  lemma DefaultOrderLabelsMatch(control: Dict<real>, treatment: Dict<real>)
    requires Valid(control) && Valid(treatment) && control.keys == treatment.keys
    requires BarGraph(control, treatment, []).Success?
    ensures var r := BarGraph(control, treatment, []).value;
      forall i :: 0 <= i < |r.names| ==>
        r.names[i] in treatment.entries &&
        r.deltas[i] == treatment.entries[r.names[i]] - GetOr(control, r.names[i], 0.0)
  {
    SortedByDeltaCorrect(Values(DeltaDict(control, treatment)), control.keys);
  }
}
