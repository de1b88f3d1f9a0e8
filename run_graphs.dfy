/**
  The bookkeeping of `run_graphs` (NetfluxODE_run.py:102-216), without the
  window it reads its inputs from, the message box and the charts:

  - the highlight names: each entry trimmed, empty entries dropped,
    duplicates reduced to their first occurrence, then split into the
    names the network knows (plotted) and the others (reported back);
  - the focus node, replaced by "ROS" when the network does not know it;
  - the display type, anything unrecognised becoming "";
  - which parameter loader the highlight plot uses;
  - the two bar charts, the second drawn in the first one's node order.
 */
module RunGraphs {
  import opened Wrappers
  import opened PyDict
  import Series
  import Differential

  /** The characters Python's `str.strip()` removes that this model knows:
      the ASCII whitespace, the information separators, NEL and NBSP. */
  predicate IsSpace(c: char) {
    c == ' ' || c == '\t' || c == '\n' || c == '\r' || c == '\U{000B}' || c == '\U{000C}'
    || c == '\U{001C}' || c == '\U{001D}' || c == '\U{001E}' || c == '\U{001F}'
    || c == '\U{0085}' || c == '\U{00A0}'
  }

  /** How many whitespace characters s starts with. */
  function LeadingSpaces(s: string): (n: nat)
    ensures n <= |s|
    ensures forall i :: 0 <= i < n ==> IsSpace(s[i])
    ensures n < |s| ==> !IsSpace(s[n])
  {
    if s == [] || !IsSpace(s[0]) then 0 else 1 + LeadingSpaces(s[1..])
  }

  /** How many whitespace characters s ends with. */
  function TrailingSpaces(s: string): (n: nat)
    ensures n <= |s|
    ensures forall i :: |s| - n <= i < |s| ==> IsSpace(s[i])
    ensures n < |s| ==> !IsSpace(s[|s| - n - 1])
  {
    if s == [] || !IsSpace(s[|s| - 1]) then 0 else 1 + TrailingSpaces(s[..|s| - 1])
  }

  /** Where `s.strip()` starts: after the leading whitespace. */
  function StripStart(s: string): (lo: nat)
    ensures lo <= |s|
  {
    LeadingSpaces(s)
  }

  /** Where `s.strip()` ends: before the trailing whitespace of what is left
      after the leading whitespace. */
  function StripEnd(s: string): (hi: nat)
    ensures StripStart(s) <= hi <= |s|
  {
    |s| - TrailingSpaces(s[StripStart(s)..])
  }

  /** `s.strip()` */
  function Strip(s: string): string {
    s[StripStart(s)..StripEnd(s)]
  }

  /** Everything Strip cuts off is whitespace. */
  lemma StripCutsSpaces(s: string)
    ensures forall i :: 0 <= i < StripStart(s) ==> IsSpace(s[i])
    ensures forall i :: StripEnd(s) <= i < |s| ==> IsSpace(s[i])
  {
    var lead := StripStart(s);
    var rest := s[lead..];
    var trail := TrailingSpaces(rest);
    forall i | |s| - trail <= i < |s|
      ensures IsSpace(s[i])
    {
      assert s[i] == rest[i - lead];
    }
  }

  /** What Strip keeps starts and ends on a non-space character. */
  lemma StripStops(s: string)
    ensures StripStart(s) < StripEnd(s) ==> !IsSpace(s[StripStart(s)]) && !IsSpace(s[StripEnd(s) - 1])
  {
    var lead := StripStart(s);
    var rest := s[lead..];
    var trail := TrailingSpaces(rest);
    if trail < |rest| {
      var k := |rest| - trail - 1;
      assert !IsSpace(rest[k]);
      assert rest[k] == s[lead + k];
    }
  }

  /** A string with no whitespace at either end is its own strip. */
  lemma StripTrimmed(r: string)
    requires r != [] ==> !IsSpace(r[0]) && !IsSpace(r[|r| - 1])
    ensures Strip(r) == r
  {
    if r != [] {
      assert StripStart(r) == 0;
      assert r[0..] == r;
      assert TrailingSpaces(r) == 0;
    }
  }

  /** Neither end of a non-empty strip is whitespace. */
  lemma StripNonSpaceEnds(s: string)
    ensures var r := Strip(s);
      r != [] ==> !IsSpace(r[0]) && !IsSpace(r[|r| - 1])
  {
    StripStops(s);
    var r := Strip(s);
    if r != [] {
      assert r[0] == s[StripStart(s)] && r[|r| - 1] == s[StripEnd(s) - 1];
    }
  }

  /** Strip removes only whitespace, from the two ends, and leaves neither
      end on whitespace; stripping again changes nothing. */
  lemma StripCorrect(s: string)
    ensures var r := Strip(s);
      && (r != [] ==> !IsSpace(r[0]) && !IsSpace(r[|r| - 1]))
      && (exists lo, hi :: 0 <= lo <= hi <= |s| && r == s[lo..hi]
            && (forall i :: 0 <= i < lo ==> IsSpace(s[i]))
            && (forall i :: hi <= i < |s| ==> IsSpace(s[i])))
      && Strip(r) == r
  {
    StripCutsSpaces(s);
    StripNonSpaceEnds(s);
    StripTrimmed(Strip(s));
  }

  /** `list(filter(lambda x: x != '', entries))` */
  function NonEmpty(entries: seq<string>): (r: seq<string>)
    ensures forall x :: x in r <==> x in entries && x != ""
  {
    if entries == [] then []
    else
      var n := |entries| - 1;
      assert entries == entries[..n] + [entries[n]];
      NonEmpty(entries[..n]) + (if entries[n] != "" then [entries[n]] else [])
  }

  /** Filtering a concatenation filters each part in turn, so the kept
      entries stay in their order. */
  lemma {:induction false} NonEmptyAppend(a: seq<string>, b: seq<string>)
    ensures NonEmpty(a + b) == NonEmpty(a) + NonEmpty(b)
    decreases |b|
  {
    if b != [] {
      var n := |b| - 1;
      assert b == b[..n] + [b[n]];
      assert a + b == (a + b[..n]) + [b[n]];
      assert (a + b)[..|a + b| - 1] == a + b[..n];
      NonEmptyAppend(a, b[..n]);
    } else {
      assert a + b == a;
    }
  }

  /** Two kept entries come in the order of their first occurrences among
      all entries. */
  lemma {:induction false} NonEmptyKeepsOrder(entries: seq<string>, x: string, y: string)
    requires x in NonEmpty(entries) && y in NonEmpty(entries)
    ensures Series.IndexOf(NonEmpty(entries), x) < Series.IndexOf(NonEmpty(entries), y) ==>
            Series.IndexOf(entries, x) < Series.IndexOf(entries, y)
  {
    var n := |entries| - 1;
    var prefix := entries[..n];
    var last := entries[n];
    var kept := NonEmpty(prefix);
    assert entries == prefix + [last];
    if x in kept && y in kept {
      NonEmptyKeepsOrder(prefix, x, y);
      IndexOfPrefix(prefix, last, x);
      IndexOfPrefix(prefix, last, y);
      if last != "" {
        assert NonEmpty(entries) == kept + [last];
        IndexOfPrefix(kept, last, x);
        IndexOfPrefix(kept, last, y);
      } else {
        assert NonEmpty(entries) == kept;
      }
    } else if y !in kept {
      assert y == last && last != "" && y !in prefix;
      assert NonEmpty(entries) == kept + [last];
      IndexOfUnique(NonEmpty(entries), y, |kept|);
      IndexOfUnique(entries, y, n);
      if x in kept {
        IndexOfPrefix(prefix, last, x);
      }
    } else {
      assert x == last && last != "" && x !in prefix;
      assert NonEmpty(entries) == kept + [last];
      IndexOfUnique(NonEmpty(entries), x, |kept|);
    }
  }

  /** `list(OrderedDict.fromkeys(entries))`: each entry appended unless it
      is already there. */
  function Dedup(entries: seq<string>): (r: seq<string>)
    ensures forall x :: x in r <==> x in entries
  {
    if entries == [] then []
    else
      var n := |entries| - 1;
      assert entries == entries[..n] + [entries[n]];
      var d := Dedup(entries[..n]);
      if entries[n] in d then d else d + [entries[n]]
  }

  /** The duplicates are gone and the names keep the order of their first
      occurrences. */
  lemma {:induction false} DedupFirstOccurrences(entries: seq<string>)
    ensures forall i, j :: 0 <= i < j < |Dedup(entries)| ==> Dedup(entries)[i] != Dedup(entries)[j]
    ensures forall i, j :: 0 <= i < j < |Dedup(entries)| ==>
              Series.IndexOf(entries, Dedup(entries)[i]) < Series.IndexOf(entries, Dedup(entries)[j])
  {
    if entries != [] {
      var n := |entries| - 1;
      var prefix := entries[..n];
      DedupFirstOccurrences(prefix);
      var d := Dedup(prefix);
      var r := Dedup(entries);
      assert entries == prefix + [entries[n]];
      forall x | x in prefix
        ensures Series.IndexOf(entries, x) == Series.IndexOf(prefix, x)
      {
        IndexOfPrefix(prefix, entries[n], x);
      }
      forall i | 0 <= i < |d|
        ensures Series.IndexOf(entries, d[i]) == Series.IndexOf(prefix, d[i])
      {
        assert d[i] in prefix;
      }
      if entries[n] !in d {
        assert r == d + [entries[n]];
        assert entries[..n] == prefix;
        IndexOfUnique(entries, entries[n], n);
        forall i, j | 0 <= i < j < |r|
          ensures r[i] != r[j]
          ensures Series.IndexOf(entries, r[i]) < Series.IndexOf(entries, r[j])
        {
          assert r[i] == d[i] && d[i] in d;
          if j < |d| {
            assert r[j] == d[j];
            assert d[i] != d[j];
          } else {
            assert r[j] == entries[n];
            assert Series.IndexOf(prefix, d[i]) < n;
          }
        }
      }
    }
  }

  /** The first occurrence is the one with no occurrence before it. */
  lemma IndexOfUnique(s: seq<string>, x: string, k: nat)
    requires k < |s| && s[k] == x && x !in s[..k]
    ensures Series.IndexOf(s, x) == k
  {
  }

  /** Looking a name up in a longer list finds it where it was. */
  lemma IndexOfPrefix(prefix: seq<string>, last: string, x: string)
    requires x in prefix
    ensures Series.IndexOf(prefix + [last], x) == Series.IndexOf(prefix, x)
  {
    var k := Series.IndexOf(prefix, x);
    assert (prefix + [last])[..k] == prefix[..k];
    IndexOfUnique(prefix + [last], x, k);
  }

  /** NetfluxODE_run.py:112-118: the five entries trimmed, empty ones
      dropped, duplicates removed. */
  function Sanitise(raw: seq<string>): seq<string> {
    Dedup(NonEmpty(Stripped(raw)))
  }

  /** `[entry.strip() for entry in raw]` */
  function Stripped(raw: seq<string>): (r: seq<string>)
    ensures |r| == |raw| && forall i :: 0 <= i < |raw| ==> r[i] == Strip(raw[i])
  {
    seq(|raw|, i requires 0 <= i < |raw| => Strip(raw[i]))
  }

  /** The sanitised list holds each non-empty trimmed entry exactly once,
      and nothing else, in the order of their first occurrences. */
  lemma SanitiseCorrect(raw: seq<string>)
    ensures var r := Sanitise(raw);
      && (forall i, j :: 0 <= i < j < |r| ==> r[i] != r[j])
      && (forall x :: x in r <==> x != "" && x in Stripped(raw))
      && (forall i, j :: 0 <= i < j < |r| ==>
            Series.IndexOf(Stripped(raw), r[i]) < Series.IndexOf(Stripped(raw), r[j]))
  {
    var entries := Stripped(raw);
    var kept := NonEmpty(entries);
    var r := Sanitise(raw);
    DedupFirstOccurrences(kept);
    assert r == Dedup(kept);
    forall i, j | 0 <= i < j < |r|
      ensures Series.IndexOf(entries, r[i]) < Series.IndexOf(entries, r[j])
    {
      assert r[i] in kept && r[j] in kept;
      NonEmptyKeepsOrder(entries, r[i], r[j]);
    }
  }

  /** The entries the network knows, in order. */
  function KnownNames(entries: seq<string>, speciesNames: seq<string>): seq<string> {
    if entries == [] then []
    else
      var n := |entries| - 1;
      KnownNames(entries[..n], speciesNames) + (if entries[n] in speciesNames then [entries[n]] else [])
  }

  /** The entries the network does not know, in order. */
  function UnknownNames(entries: seq<string>, speciesNames: seq<string>): seq<string> {
    if entries == [] then []
    else
      var n := |entries| - 1;
      UnknownNames(entries[..n], speciesNames) + (if entries[n] !in speciesNames then [entries[n]] else [])
  }

  /** Together the two lists hold each entry as often as the entries do. */
  lemma {:induction false} PartitionCounts(entries: seq<string>, speciesNames: seq<string>)
    ensures multiset(KnownNames(entries, speciesNames)) + multiset(UnknownNames(entries, speciesNames))
            == multiset(entries)
  {
    if entries != [] {
      var n := |entries| - 1;
      var prefix, last := entries[..n], entries[n];
      PartitionCounts(prefix, speciesNames);
      assert entries == prefix + [last];
      assert multiset(entries) == multiset(prefix) + multiset{last};
      if last in speciesNames {
        assert KnownNames(entries, speciesNames) == KnownNames(prefix, speciesNames) + [last];
        assert UnknownNames(entries, speciesNames) == UnknownNames(prefix, speciesNames);
      } else {
        assert KnownNames(entries, speciesNames) == KnownNames(prefix, speciesNames);
        assert UnknownNames(entries, speciesNames) == UnknownNames(prefix, speciesNames) + [last];
      }
    }
  }

  /** The kept entries are exactly the entries that are nodes. */
  lemma {:induction false} KnownMembers(entries: seq<string>, speciesNames: seq<string>)
    ensures forall x :: x in KnownNames(entries, speciesNames) <==> x in entries && x in speciesNames
  {
    if entries != [] {
      var n := |entries| - 1;
      KnownMembers(entries[..n], speciesNames);
      assert entries == entries[..n] + [entries[n]];
    }
  }

  /** The reported entries are exactly the entries that are not nodes. */
  lemma {:induction false} UnknownMembers(entries: seq<string>, speciesNames: seq<string>)
    ensures forall x :: x in UnknownNames(entries, speciesNames) <==> x in entries && x !in speciesNames
  {
    if entries != [] {
      var n := |entries| - 1;
      UnknownMembers(entries[..n], speciesNames);
      assert entries == entries[..n] + [entries[n]];
    }
  }

  /** The two lists partition the entries: together they hold each entry
      as often as the entries do, every known one is a node and no unknown
      one is. */
  lemma PartitionExact(entries: seq<string>, speciesNames: seq<string>)
    ensures multiset(KnownNames(entries, speciesNames)) + multiset(UnknownNames(entries, speciesNames))
            == multiset(entries)
    ensures forall x :: x in KnownNames(entries, speciesNames) <==> x in entries && x in speciesNames
    ensures forall x :: x in UnknownNames(entries, speciesNames) <==> x in entries && x !in speciesNames
  {
    PartitionCounts(entries, speciesNames);
    KnownMembers(entries, speciesNames);
    UnknownMembers(entries, speciesNames);
  }

  /** `list.remove(x)`: drop the first occurrence of x. */
  function RemoveFirst(s: seq<string>, x: string): seq<string>
    requires x in s
  {
    var k := Series.IndexOf(s, x);
    s[..k] + s[k + 1..]
  }

  /** Removing a name that does not occur before a given point drops the
      occurrence at that point. */
  lemma RemoveFirstAt(before: seq<string>, x: string, after: seq<string>)
    requires x !in before
    ensures RemoveFirst(before + [x] + after, x) == before + after
  {
    var s := before + [x] + after;
    assert s[..|before|] == before;
    IndexOfUnique(s, x, |before|);
    assert s[|before| + 1..] == after;
  }

  /** One more entry extends exactly one of the two lists. */
  lemma PartitionStep(entries: seq<string>, i: nat, speciesNames: seq<string>)
    requires i < |entries|
    ensures KnownNames(entries[..i + 1], speciesNames)
            == KnownNames(entries[..i], speciesNames) + (if entries[i] in speciesNames then [entries[i]] else [])
    ensures UnknownNames(entries[..i + 1], speciesNames)
            == UnknownNames(entries[..i], speciesNames) + (if entries[i] !in speciesNames then [entries[i]] else [])
  {
    assert entries[..i + 1][..i] == entries[..i];
  }

  /** One turn of the loop below keeps its invariant: a known entry stays
      where it is, an unknown one is the first occurrence `remove` drops. */
  lemma RemoveStep(entries: seq<string>, i: nat, speciesNames: seq<string>)
    requires i < |entries|
    ensures var current := KnownNames(entries[..i], speciesNames) + entries[i..];
      var next := KnownNames(entries[..i + 1], speciesNames) + entries[i + 1..];
      && entries[i] in current
      && (entries[i] !in speciesNames ==> RemoveFirst(current, entries[i]) == next)
      && (entries[i] in speciesNames ==> current == next)
  {
    PartitionStep(entries, i, speciesNames);
    var entry := entries[i];
    var before := KnownNames(entries[..i], speciesNames);
    var after := entries[i + 1..];
    assert entries[i..] == [entry] + after;
    assert before + entries[i..] == before + [entry] + after;
    if entry !in speciesNames {
      KnownMembers(entries[..i], speciesNames);
      RemoveFirstAt(before, entry, after);
    }
  }

  /** The loop of NetfluxODE_run.py:131-134: `new_node_entries` starts as a
      copy of the list and loses each unknown name, which goes to
      `incorrect_entries`. */
  method PartitionHighlights(entries: seq<string>, speciesNames: seq<string>)
    returns (known: seq<string>, unknown: seq<string>)
    ensures known == KnownNames(entries, speciesNames)
    ensures unknown == UnknownNames(entries, speciesNames)
  {
    known := entries;
    unknown := [];
    assert entries[..0] == [] && entries[0..] == entries;
    for i := 0 to |entries|
      invariant known == KnownNames(entries[..i], speciesNames) + entries[i..]
      invariant unknown == UnknownNames(entries[..i], speciesNames)
    {
      RemoveStep(entries, i, speciesNames);
      PartitionStep(entries, i, speciesNames);
      var entry := entries[i];
      if entry !in speciesNames {
        unknown := unknown + [entry];
        known := RemoveFirst(known, entry);
      }
    }
    assert entries[..|entries|] == entries;
  }

  /** NetfluxODE_run.py:128-129: an unknown focus node becomes "ROS". */
  function FocusNode(node: string, speciesNames: seq<string>): (r: string)
    ensures r == node <==> node in speciesNames || node == "ROS"
    ensures "ROS" in speciesNames ==> r in speciesNames
  {
    if node in speciesNames then node else "ROS"
  }

  /** NetfluxODE_run.py:108-109: an unrecognised display type becomes "". */
  function DisplayType(requested: string): (r: string)
    ensures r in ["high", "reg", "kd", "kdhigh", ""]
    ensures r == requested <==> requested in ["high", "reg", "kd", "kdhigh", ""]
  {
    if requested != "high" && requested != "reg" && requested != "kd" && requested != "kdhigh" then ""
    else requested
  }

  /** The four parameter loaders of NetfluxODE_params, which are not part of
      this model: the regular network, a node knocked down, the same with a
      high TGF-B stimulus, and the high stimulus alone. */
  datatype ParamLoader = Regular | KnockedDown(node: string) | BothOperations(node: string) | HighTgfb

  /** NetfluxODE_run.py:178-190: the loader and the title of the highlight plot. */
  function Scenario(displayType: string, node: string): (ParamLoader, string) {
    if displayType == "kd" then (KnockedDown(node), "Knocked Down " + node)
    else if displayType == "kdhigh" then (BothOperations(node), "Knocked Down " + node + " and High TGF-B")
    else if displayType == "high" then (HighTgfb, "High TGF-B")
    else (Regular, "Regular Parameters")
  }

  /** The dispatch is total: after normalisation every display type picks
      exactly one loader, a knock-down always targets the focus node (so a
      network node whenever "ROS" is one), and "reg", "" and anything
      unrecognised all use the regular parameters. */
  lemma ScenarioDispatch(requested: string, node: string, speciesNames: seq<string>)
    requires "ROS" in speciesNames
    ensures var d := DisplayType(requested);
      var focus := FocusNode(node, speciesNames);
      var loader := Scenario(d, focus).0;
      && (loader.KnockedDown? <==> requested == "kd")
      && (loader.BothOperations? <==> requested == "kdhigh")
      && (loader.HighTgfb? <==> requested == "high")
      && (loader.Regular? <==> requested !in ["kd", "kdhigh", "high"])
      && ((loader.KnockedDown? || loader.BothOperations?) ==> loader.node == focus && loader.node in speciesNames)
  {
  }

  /** What `run_graphs` does with the highlight inputs. */
  datatype HighlightPlan = HighlightPlan(
    plotted: seq<string>,         // `new_node_entries`
    reported: seq<string>,        // `incorrect_entries`, shown in the message box
    loader: Option<ParamLoader>,  // the highlight plot's loader; None when nothing is plotted
    title: string)

  /** NetfluxODE_run.py:106-134 and 177-193: sanitise and split the highlight
      names, normalise the display type and focus node, pick the loader. */
  method PlanHighlights(raw: seq<string>, node: string, requested: string, speciesNames: seq<string>)
    returns (plan: HighlightPlan)
    ensures var entries := Sanitise(raw);
      && plan.plotted == KnownNames(entries, speciesNames)
      && plan.reported == UnknownNames(entries, speciesNames)
      && (plan.loader.Some? <==> plan.plotted != [])
      && (plan.loader.Some? ==>
            (plan.loader.value, plan.title) == Scenario(DisplayType(requested), FocusNode(node, speciesNames)))
  {
    var displayType := DisplayType(requested);
    var entries := Sanitise(raw);
    var focus := FocusNode(node, speciesNames);
    var known, unknown := PartitionHighlights(entries, speciesNames);
    if |known| > 0 {
      var (loader, title) := Scenario(displayType, focus);
      plan := HighlightPlan(known, unknown, Some(loader), title);
    } else {
      plan := HighlightPlan(known, unknown, None, "");
    }
  }

  /** Every plotted name is a distinct network node, every reported name is
      a non-empty trimmed entry the network does not know, and each
      non-empty trimmed entry lands in exactly one of the two lists. */
  lemma HighlightPartition(raw: seq<string>, speciesNames: seq<string>)
    ensures var entries := Sanitise(raw);
      var plotted := KnownNames(entries, speciesNames);
      var reported := UnknownNames(entries, speciesNames);
      && (forall x :: x in plotted ==> x in speciesNames)
      && (forall x :: x in reported ==> x !in speciesNames && x != "")
      && (forall i :: 0 <= i < |raw| && Strip(raw[i]) != "" ==>
            (Strip(raw[i]) in plotted <==> Strip(raw[i]) in speciesNames) &&
            (Strip(raw[i]) in reported <==> Strip(raw[i]) !in speciesNames))
      && multiset(plotted) + multiset(reported) == multiset(entries)
  {
    SanitiseCorrect(raw);
    PartitionExact(Sanitise(raw), speciesNames);
  }

  /** NetfluxODE_run.py:168-175: the baseline comparison (knock-down against
      control) and the high TGF-B comparison (both operations against high
      TGF-B alone), the second drawn in the first one's node order. */
  function CompareScenarios(regular: Dict<real>, knockedDown: Dict<real>,
                            both: Dict<real>, highTgfb: Dict<real>)
    : Result<(Differential.Report, Differential.Report), Differential.BarError>
    requires Valid(regular) && Valid(knockedDown) && Valid(both) && Valid(highTgfb)
  {
    match Differential.BarGraph(regular, knockedDown, [])
    case Failure(e) => Failure(e)
    case Success(baseline) =>
      match Differential.BarGraph(highTgfb, both, baseline.names)
      case Failure(e) => Failure(e)
      case Success(high) => Success((baseline, high))
  }

  /** The first chart exists, and names distinct nodes that the second
      chart's treatment run covers. */
  lemma BaselineNames(regular: Dict<real>, knockedDown: Dict<real>, both: Dict<real>)
    requires Valid(regular) && Valid(knockedDown)
    requires regular.keys != [] && knockedDown.keys != []
    requires forall k :: k in regular.keys ==> k in both.entries
    ensures Differential.BarGraph(regular, knockedDown, []).Success?
    ensures var names := Differential.BarGraph(regular, knockedDown, []).value.names;
      && |names| != 0
      && (forall i, j :: 0 <= i < j < |names| ==> names[i] != names[j])
      && (forall i :: 0 <= i < |names| ==> names[i] in both.entries)
  {
    Differential.DefaultOrderSorted(regular, knockedDown);
    Differential.DefaultOrderNames(regular, knockedDown);
  }

  /** When the runs cover the same nodes, the second chart lists exactly the
      first chart's nodes in the first chart's order, each with its own
      delta under high TGF-B. */
  lemma SecondChartAligned(regular: Dict<real>, knockedDown: Dict<real>,
                           both: Dict<real>, highTgfb: Dict<real>)
    requires Valid(regular) && Valid(knockedDown) && Valid(both) && Valid(highTgfb)
    requires regular.keys != [] && knockedDown.keys != []
    requires forall k :: k in regular.keys ==> k in both.entries
    ensures CompareScenarios(regular, knockedDown, both, highTgfb).Success?
    ensures var (baseline, high) := CompareScenarios(regular, knockedDown, both, highTgfb).value;
      && high.names == baseline.names
      && |high.deltas| == |high.names|
      && forall i :: 0 <= i < |high.names| ==>
           high.deltas[i] == both.entries[high.names[i]] - GetOr(highTgfb, high.names[i], 0.0)
  {
    BaselineNames(regular, knockedDown, both);
    var baseline := Differential.BarGraph(regular, knockedDown, []).value;
    Differential.ExplicitOrderKept(highTgfb, both, baseline.names);
    var high := Differential.BarGraph(highTgfb, both, baseline.names).value;
    assert CompareScenarios(regular, knockedDown, both, highTgfb) == Success((baseline, high));
  }
}
