/**
 Weighting the selected barrier points (DrAnalysis.py, __SelectSignificantBarrierPoints): per-phase
 scaling factors accumulated onto representatives, the selected points with their multipliers, and
 the four-decimal values written to the output file.
 */
module Scaling {
  import opened Common
  import opened Clustering

  /** Instructions of the phases i < n whose representative is in reps. */
  function Represented(m: seq<nat>, ins: seq<nat>, reps: set<nat>, n: nat): nat
    requires n <= |m| == |ins|
  {
    if n == 0 then 0 else Represented(m, ins, reps, n - 1) + if m[n - 1] in reps then ins[n - 1] else 0
  }

  /** A multiplier applied to a number of instructions. */
  function Weight(f: real, n: nat): real {
    f * (n as real)
  }

  lemma WeightAdd(f: real, g: real, n: nat)
    ensures Weight(f + g, n) == Weight(f, n) + Weight(g, n)
  {
  }

  /** The relative weight of phase i against its representative, as the code computes it. */
  function Factor(insPhase: nat, insRep: nat): real
    requires insRep != 0
  {
    1.0 + ((insPhase as real) - (insRep as real)) / (insRep as real)
  }

  lemma FactorIsRatio(insPhase: nat, insRep: nat)
    requires insRep != 0
    ensures Weight(Factor(insPhase, insRep), insRep) == insPhase as real
  {
    var a, b := insPhase as real, insRep as real;
    assert (1.0 + (a - b) / b) * b == b + ((a - b) / b) * b;
  }

  /** The scaling factors of all phases, or None when some representative executed nothing: the
      code then divides by zero. */
  method ScalingFactors(m: seq<nat>, ins: seq<nat>) returns (factors: Option<seq<real>>)
    requires |m| == |ins| && forall i :: 0 <= i < |m| ==> m[i] < |ins|
    ensures factors.None? <==> exists i :: 0 <= i < |m| && ins[m[i]] == 0
    ensures factors.Some? ==> |factors.value| == |m|
    ensures factors.Some? ==>
              forall i :: 0 <= i < |m| ==> Weight(factors.value[i], ins[m[i]]) == ins[i] as real
  {
    var fs: seq<real> := [];
    for i := 0 to |m|
      invariant |fs| == i
      invariant forall j :: 0 <= j < i ==> ins[m[j]] != 0 && Weight(fs[j], ins[m[j]]) == ins[j] as real
    {
      hide Weight, Factor;
      if ins[m[i]] == 0 {
        return None;
      }
      FactorIsRatio(ins[i], ins[m[i]]);
      fs := fs + [Factor(ins[i], ins[m[i]])];
    }
    return Some(fs);
  }

  lemma {:induction false} RepresentedStep(m: seq<nat>, ins: seq<nat>, i: nat)
    requires i < |m| == |ins|
    ensures forall p :: Represented(m, ins, {p}, i + 1) == Represented(m, ins, {p}, i) + if p == m[i] then ins[i] else 0
  {
  }

  /** After the first n phases, each representative's multiplier times its own instructions is the
      number of instructions of those phases it stands for; phases that stand for none have 0. */
  ghost predicate Accumulated(scaling: seq<real>, m: seq<nat>, ins: seq<nat>, n: nat) {
    && n <= |m| == |ins| == |scaling|
    && (forall p :: 0 <= p < |m| ==> Weight(scaling[p], ins[p]) == Represented(m, ins, {p}, n) as real)
    && (forall p :: 0 <= p < |m| && p !in m[..n] ==> scaling[p] == 0.0)
  }

  lemma {:induction false} AccumulatedStart(m: seq<nat>, ins: seq<nat>)
    requires |m| == |ins|
    ensures Accumulated(seq(|m|, _ => 0.0), m, ins, 0)
  {
  }

  lemma {:induction false} AccumulatedStep(scaling: seq<real>, m: seq<nat>, ins: seq<nat>, n: nat, factor: real)
    requires n < |m| && m[n] < |ins| && Accumulated(scaling, m, ins, n)
    requires Weight(factor, ins[m[n]]) == ins[n] as real
    ensures Accumulated(scaling[m[n] := scaling[m[n]] + factor], m, ins, n + 1)
  {
    hide Weight, Represented;
    assert m[..n + 1] == m[..n] + [m[n]];
    WeightAdd(scaling[m[n]], factor, ins[m[n]]);
    RepresentedStep(m, ins, n);
  }

  lemma {:induction false} AccumulatedAll(scaling: seq<real>, m: seq<nat>, ins: seq<nat>)
    requires |m| == |ins| && Accumulated(scaling, m, ins, |m|)
    ensures |scaling| == |m|
    ensures forall p :: 0 <= p < |m| ==> Weight(scaling[p], ins[p]) == Represented(m, ins, {p}, |m|) as real
    ensures forall p :: 0 <= p < |m| && p !in m ==> scaling[p] == 0.0
  {
    hide Weight, Represented;
    assert m[..|m|] == m;
  }

  /** The accumulated multipliers: each representative's multiplier times its own instructions is
      the number of instructions of all the phases it stands for. */
  method Accumulate(m: seq<nat>, ins: seq<nat>, factors: seq<real>) returns (scaling: seq<real>)
    requires |m| == |ins| == |factors| && forall i :: 0 <= i < |m| ==> m[i] < |ins|
    requires forall i :: 0 <= i < |m| ==> Weight(factors[i], ins[m[i]]) == ins[i] as real
    ensures |scaling| == |m|
    ensures forall p :: 0 <= p < |m| ==> Weight(scaling[p], ins[p]) == Represented(m, ins, {p}, |m|) as real
    ensures forall p :: 0 <= p < |m| && p !in m ==> scaling[p] == 0.0
  {
    hide Weight, Represented, Accumulated;
    var a := new real[|m|](_ => 0.0);
    AccumulatedStart(m, ins);
    assert a[..] == seq(|m|, _ => 0.0);
    for i := 0 to |m|
      invariant Accumulated(a[..], m, ins, i)
    {
      AccumulatedStep(a[..], m, ins, i, factors[i]);
      ghost var before := a[..];
      a[m[i]] := a[m[i]] + factors[i];
      assert a[..] == before[m[i] := before[m[i]] + factors[i]];
    }
    scaling := a[..];
    AccumulatedAll(scaling, m, ins);
  }

  // ---------- sorted ----------

  predicate Ascending(s: seq<nat>) {
    forall i, j :: 0 <= i < j < |s| ==> s[i] <= s[j]
  }

  function Insert(x: nat, s: seq<nat>): (r: seq<nat>)
    ensures multiset(r) == multiset(s) + multiset{x}
  {
    if s == [] || x <= s[0] then [x] + s
    else
      assert s == [s[0]] + s[1..];
      [s[0]] + Insert(x, s[1..])
  }

  lemma {:induction false} InsertAscending(x: nat, s: seq<nat>)
    requires Ascending(s)
    ensures Ascending(Insert(x, s))
  {
    if s != [] && x > s[0] {
      InsertAscending(x, s[1..]);
      var r := Insert(x, s[1..]);
      forall i | 0 <= i < |r|
        ensures s[0] <= r[i]
      {
        assert r[i] in multiset(r);
        assert r[i] in s[1..] || r[i] == x;
      }
    }
  }

  function Sorted(s: seq<nat>): (r: seq<nat>)
    ensures multiset(r) == multiset(s)
  {
    if s == [] then []
    else
      assert s == s[..|s| - 1] + [s[|s| - 1]];
      Insert(s[|s| - 1], Sorted(s[..|s| - 1]))
  }

  lemma {:induction false} SortedAscending(s: seq<nat>)
    ensures Ascending(Sorted(s))
  {
    if s != [] {
      SortedAscending(s[..|s| - 1]);
      InsertAscending(s[|s| - 1], Sorted(s[..|s| - 1]));
    }
  }

  // ---------- selection ----------

  /** What the selected points stand for: multipliers times instructions, summed. */
  function Reconstructed(points: seq<nat>, mults: seq<real>, ins: seq<nat>): real
    requires |points| == |mults| && forall k :: 0 <= k < |points| ==> points[k] < |ins|
  {
    if points == [] then 0.0
    else Reconstructed(points[..|points| - 1], mults[..|mults| - 1], ins) +
         Weight(mults[|mults| - 1], ins[points[|points| - 1]])
  }

  lemma {:induction false} RepresentedAll(m: seq<nat>, ins: seq<nat>, reps: set<nat>, n: nat)
    requires n <= |m| == |ins| && forall i :: 0 <= i < n ==> m[i] in reps
    ensures Represented(m, ins, reps, n) == Sum(ins[..n])
  {
    if n > 0 {
      RepresentedAll(m, ins, reps, n - 1);
      assert ins[..n][..n - 1] == ins[..n - 1];
    }
  }

  lemma {:induction false} RepresentedSplit(m: seq<nat>, ins: seq<nat>, reps: set<nat>, p: nat, n: nat)
    requires n <= |m| == |ins| && p !in reps
    ensures Represented(m, ins, reps + {p}, n) == Represented(m, ins, reps, n) + Represented(m, ins, {p}, n)
  {
    if n > 0 {
      RepresentedSplit(m, ins, reps, p, n - 1);
    }
  }

  lemma {:induction false} RepresentedNone(m: seq<nat>, ins: seq<nat>, n: nat)
    requires n <= |m| == |ins|
    ensures Represented(m, ins, {}, n) == 0
  {
    if n > 0 {
      RepresentedNone(m, ins, n - 1);
    }
  }

  /** The selected points, each with its exact multiplier, reconstruct what they represent. */
  lemma {:induction false} ReconstructedIs(m: seq<nat>, ins: seq<nat>, points: seq<nat>, mults: seq<real>)
    requires |m| == |ins| && |points| == |mults| && NoDuplicates(points)
    requires forall k :: 0 <= k < |points| ==> points[k] < |ins|
    requires forall k :: 0 <= k < |points| ==>
               Weight(mults[k], ins[points[k]]) == Represented(m, ins, {points[k]}, |m|) as real
    ensures Reconstructed(points, mults, ins) == Represented(m, ins, Elements(points), |m|) as real
  {
    hide Weight;
    if points == [] {
      assert Elements(points) == {};
      RepresentedNone(m, ins, |m|);
    } else {
      var pre, p := points[..|points| - 1], points[|points| - 1];
      ReconstructedIs(m, ins, pre, mults[..|mults| - 1]);
      assert points == pre + [p];
      assert Elements(points) == Elements(pre) + {p};
      RepresentedSplit(m, ins, Elements(pre), p, |m|);
    }
  }

  /** m's representatives are the points of reps, each of them once. */
  ghost predicate Represents(m: seq<nat>, reps: seq<nat>) {
    && NoDuplicates(reps)
    && (forall i :: 0 <= i < |m| ==> m[i] in reps)
    && (forall k :: 0 <= k < |reps| ==> reps[k] < |m|)
  }

  lemma {:induction false} SortedUnique(s: seq<nat>)
    requires NoDuplicates(s)
    ensures NoDuplicates(Sorted(s)) && Elements(Sorted(s)) == Elements(s)
    ensures forall x :: x in Sorted(s) <==> x in s
  {
    var r := Sorted(s);
    forall x
      ensures x in r <==> x in s
    {
      assert x in multiset(r) <==> x in multiset(s);
    }
    forall i, j | 0 <= i < j < |r|
      ensures r[i] != r[j]
    {
      if r[i] == r[j] {
        CountTwice(r, i, j);
        AtMostOnce(s, r[i]);
      }
    }
  }

  lemma CountTwice(s: seq<nat>, i: nat, j: nat)
    requires i < j < |s| && s[i] == s[j]
    ensures multiset(s)[s[i]] >= 2
  {
    assert s == s[..j] + [s[j]] + s[j + 1..];
    assert s[..j][i] == s[i] && s[i] in multiset(s[..j]);
  }

  lemma {:induction false} AtMostOnce(s: seq<nat>, x: nat)
    requires NoDuplicates(s)
    ensures multiset(s)[x] <= 1
  {
    if s != [] {
      AtMostOnce(s[..|s| - 1], x);
      assert s == s[..|s| - 1] + [s[|s| - 1]];
      if x == s[|s| - 1] {
        assert x !in s[..|s| - 1];
      }
    }
  }

  /** The selected points of one map with their multipliers; None for the division by zero.  The
      multipliers times the points' instructions add up to the instructions of the whole run. */
  method Select(m: seq<nat>, reps: seq<nat>, ins: seq<nat>)
    returns (selected: Option<(seq<nat>, seq<real>)>)
    requires |m| == |ins| && Represents(m, reps)
    ensures selected.None? <==> exists i :: 0 <= i < |m| && ins[m[i]] == 0
    ensures selected.Some? ==>
              var (points, mults) := selected.value;
              && points == Sorted(reps) && |mults| == |points|
              && (forall k :: 0 <= k < |points| ==> points[k] < |ins|)
              && (forall k :: 0 <= k < |points| ==>
                   Weight(mults[k], ins[points[k]]) == Represented(m, ins, {points[k]}, |m|) as real)
              && Reconstructed(points, mults, ins) == Sum(ins) as real
  {
    hide Weight, Represented, Reconstructed, Sum;
    var factors := ScalingFactors(m, ins);
    if factors.None? {
      return None;
    }
    var scaling := Accumulate(m, ins, factors.value);
    SortedUnique(reps);
    var sorted := Sorted(reps);
    hide Sorted;
    assert forall k :: 0 <= k < |sorted| ==> sorted[k] in reps;
    var points, mults := Pick(sorted, scaling);
    ReconstructedIs(m, ins, points, mults);
    assert forall i :: 0 <= i < |m| ==> m[i] in Elements(points);
    RepresentedAll(m, ins, Elements(points), |m|);
    assert ins[..|m|] == ins;
    return Some((points, mults));
  }

  /** The representatives in order, each with its accumulated multiplier. */
  method Pick(sorted: seq<nat>, scaling: seq<real>) returns (points: seq<nat>, mults: seq<real>)
    requires forall k :: 0 <= k < |sorted| ==> sorted[k] < |scaling|
    ensures points == sorted && |mults| == |sorted|
    ensures forall k :: 0 <= k < |mults| ==> mults[k] == scaling[sorted[k]]
  {
    points, mults := [], [];
    for k := 0 to |sorted|
      invariant points == sorted[..k] && |mults| == k
      invariant forall j :: 0 <= j < k ==> mults[j] == scaling[sorted[j]]
    {
      points := points + [sorted[k]];
      mults := mults + [scaling[sorted[k]]];
    }
  }

  // ---------- four decimals ----------

  /** The nearest integer, the even one on ties. */
  function Nearest(y: real): (n: int)
    ensures y - 0.5 <= n as real <= y + 0.5
    ensures n as real == y - 0.5 || n as real == y + 0.5 ==> n % 2 == 0
  {
    var f := y.Floor;
    var rest := y - f as real;
    if rest < 0.5 || (rest == 0.5 && f % 2 == 0) then f else f + 1
  }

  /** Formatting with four decimals: the nearest multiple of 0.0001, the even one on ties. */
  function Round4(x: real): (r: real)
    ensures r * 10000.0 == Nearest(x * 10000.0) as real
    ensures x - 0.00005 <= r <= x + 0.00005
  {
    (Nearest(x * 10000.0) as real) / 10000.0
  }

  function Rounded(mults: seq<real>): (r: seq<real>)
    ensures |r| == |mults|
    ensures forall k :: 0 <= k < |r| ==> r[k] == Round4(mults[k])
  {
    seq(|mults|, k requires 0 <= k < |mults| => Round4(mults[k]))
  }

  function InstrsAt(points: seq<nat>, ins: seq<nat>): nat
    requires forall k :: 0 <= k < |points| ==> points[k] < |ins|
  {
    if points == [] then 0 else InstrsAt(points[..|points| - 1], ins) + ins[points[|points| - 1]]
  }

  /** The written multipliers reconstruct the total to within 0.00005 times the instructions of the
      selected points. */
  lemma {:induction false} RoundingBound(points: seq<nat>, mults: seq<real>, ins: seq<nat>)
    requires |points| == |mults| && forall k :: 0 <= k < |points| ==> points[k] < |ins|
    ensures Reconstructed(points, mults, ins) - Weight(0.00005, InstrsAt(points, ins))
            <= Reconstructed(points, Rounded(mults), ins)
            <= Reconstructed(points, mults, ins) + Weight(0.00005, InstrsAt(points, ins))
  {
    if points != [] {
      var pre, x, n := points[..|points| - 1], mults[|mults| - 1], ins[points[|points| - 1]];
      RoundingBound(pre, mults[..|mults| - 1], ins);
      assert Rounded(mults)[..|mults| - 1] == Rounded(mults[..|mults| - 1]);
      WeightError(x, n);
      WeightSum(0.00005, InstrsAt(pre, ins), n);
      hide Weight, Round4, Rounded;
    } else {
      assert Weight(0.00005, 0) == 0.0;
    }
  }

  lemma WeightSum(f: real, n: nat, k: nat)
    ensures Weight(f, n + k) == Weight(f, n) + Weight(f, k)
  {
  }

  lemma WeightError(x: real, n: nat)
    ensures Weight(x, n) - Weight(0.00005, n) <= Weight(Round4(x), n) <= Weight(x, n) + Weight(0.00005, n)
  {
    var r, k := Round4(x), n as real;
    hide Round4;
    NonNegative(r - (x - 0.00005), k);
    NonNegative((x + 0.00005) - r, k);
    assert (r - (x - 0.00005)) * k == r * k - x * k + 0.00005 * k;
    assert ((x + 0.00005) - r) * k == x * k + 0.00005 * k - r * k;
  }

  lemma NonNegative(a: real, b: real)
    requires a >= 0.0 && b >= 0.0
    ensures a * b >= 0.0
  {
  }

  // ---------- the three maps ----------

  /** A relabelled map has the replacements as its representatives. */
  lemma RelabelledRepresents(m: seq<nat>, simpoints: seq<nat>, repl: seq<nat>, r: seq<nat>)
    requires Represents(m, simpoints) && Replaces(simpoints, repl, m) && Substituted(m, simpoints, repl, r)
    ensures |r| == |m| && Represents(r, repl)
  {
    forall i | 0 <= i < |r|
      ensures r[i] in repl
    {
      var k :| 0 <= k < |simpoints| && simpoints[k] == m[i];
      assert r[i] == repl[k];
    }
    assert forall j, k :: 0 <= j < k < |repl| ==> m[repl[j]] != m[repl[k]];
  }

  type Selection = (seq<nat>, seq<real>)

  /** The points and multipliers reconstruct the instructions of the whole run, exactly as computed
      and up to rounding as written. */
  ghost predicate Reconstructs(s: Selection, ins: seq<nat>) {
    && |s.0| == |s.1|
    && (forall k :: 0 <= k < |s.0| ==> s.0[k] < |ins|)
    && Reconstructed(s.0, s.1, ins) == Sum(ins) as real
    && (Sum(ins) as real) - Weight(0.00005, InstrsAt(s.0, ins)) <= Reconstructed(s.0, Rounded(s.1), ins)
         <= (Sum(ins) as real) + Weight(0.00005, InstrsAt(s.0, ins))
  }

  /** Instructions of the phases i < n that SimPoint gave this label. */
  ghost function ClusterInstrs(labels: seq<nat>, ins: seq<nat>, id: nat, n: nat): nat
    requires n <= |labels| == |ins|
  {
    if n == 0 then 0 else ClusterInstrs(labels, ins, id, n - 1) + if labels[n - 1] == id then ins[n - 1] else 0
  }

  /** The points are those chosen for the clusters, in order, and the multiplier of the point chosen
      for a cluster, times that point's instructions, is what the phases of the cluster executed. */
  ghost predicate WeighsClusters(s: Selection, d: SimPointData, chosen: seq<nat>, ins: seq<nat>)
    requires |d.labels| == |ins| && |chosen| == |d.ids|
  {
    && s.0 == Sorted(chosen) && |s.0| == |s.1|
    && (forall p :: 0 <= p < |s.0| ==> s.0[p] < |ins|)
    && (forall k, p :: 0 <= k < |chosen| && 0 <= p < |s.0| && s.0[p] == chosen[k] ==>
         Weight(s.1[p], ins[s.0[p]]) == ClusterInstrs(d.labels, ins, d.ids[k], |ins|) as real)
  }

  /** The phases a chosen point represents are those with its cluster's label. */
  lemma SameCluster(d: SimPointData, m: seq<nat>, chosen: seq<nat>, r: seq<nat>, k: nat, i: nat)
    requires WellFormed(d) && IsClusterMap(d, m) && |chosen| == |d.simpoints|
    requires Substituted(m, d.simpoints, chosen, r) && NoDuplicates(chosen)
    requires k < |chosen| && i < |d.labels|
    ensures r[i] == chosen[k] <==> d.labels[i] == d.ids[k]
  {
    var l :| 0 <= l < |d.ids| && d.ids[l] == d.labels[i];
    assert m[i] == d.simpoints[l] && r[i] == chosen[l];
  }

  lemma {:induction false} RepresentsCluster(d: SimPointData, m: seq<nat>, chosen: seq<nat>, r: seq<nat>, ins: seq<nat>,
                                             k: nat, n: nat)
    requires WellFormed(d) && IsClusterMap(d, m) && |chosen| == |d.simpoints|
    requires Substituted(m, d.simpoints, chosen, r) && NoDuplicates(chosen)
    requires k < |chosen| && n <= |d.labels| == |ins|
    ensures Represented(r, ins, {chosen[k]}, n) == ClusterInstrs(d.labels, ins, d.ids[k], n)
  {
    if n > 0 {
      SameCluster(d, m, chosen, r, k, n - 1);
      RepresentsCluster(d, m, chosen, r, ins, k, n - 1);
    }
  }

  /** From SimPoint's output and the instructions per phase to the base, closest and earliest
      selections; each is None exactly when one of its representatives executed nothing. */
  method Analyse(d: SimPointData, ins: seq<nat>)
    returns (m: seq<nat>, ecs: seq<nat>, ees: seq<nat>, base: Option<Selection>, closest: Option<Selection>,
             earliest: Option<Selection>)
    requires WellFormed(d) && |ins| == |d.labels|
    ensures IsClusterMap(d, m) && Replaces(d.simpoints, ecs, m) && Replaces(d.simpoints, ees, m)
    ensures forall k :: 0 <= k < |d.simpoints| ==> Chosen(m, d.distances, d.simpoints[k], ecs[k], ees[k])
    ensures forall k :: 0 <= k < |d.simpoints| ==> ees[k] <= ecs[k] <= d.simpoints[k]
    ensures base.Some? ==> Reconstructs(base.value, ins) && WeighsClusters(base.value, d, d.simpoints, ins)
    ensures closest.Some? ==> Reconstructs(closest.value, ins) && WeighsClusters(closest.value, d, ecs, ins)
    ensures earliest.Some? ==> Reconstructs(earliest.value, ins) && WeighsClusters(earliest.value, d, ees, ins)
    ensures base.None? <==> exists k :: 0 <= k < |d.simpoints| && ins[d.simpoints[k]] == 0
    ensures closest.None? <==> exists k :: 0 <= k < |ecs| && ins[ecs[k]] == 0
    ensures earliest.None? <==> exists k :: 0 <= k < |ees| && ins[ees[k]] == 0
  {
    hide Reconstructs, WeighsClusters, Sorted, Chosen, Substituted;
    m := ClusterMap(d);
    ClusterMapFacts(d, m);
    ecs, ees := EarlierAll(d.simpoints, m, d.distances);
    forall k | 0 <= k < |d.simpoints|
      ensures ees[k] <= ecs[k] <= d.simpoints[k]
    {
      ChosenOrder(m, d.distances, d.simpoints[k], ecs[k], ees[k]);
    }
    var mEC := Relabel(m, d.simpoints, ecs);
    var mEE := Relabel(m, d.simpoints, ees);
    Unchanged(m, d.simpoints);
    base := SelectRounded(d, m, d.simpoints, m, ins);
    closest := SelectRounded(d, m, ecs, mEC, ins);
    earliest := SelectRounded(d, m, ees, mEE, ins);
  }

  lemma Unchanged(m: seq<nat>, simpoints: seq<nat>)
    ensures Substituted(m, simpoints, simpoints, m)
  {
  }

  /** The selection for one map r, in which the chosen points have replaced the simpoints of m. */
  method SelectRounded(ghost d: SimPointData, ghost m: seq<nat>, chosen: seq<nat>, r: seq<nat>, ins: seq<nat>)
    returns (selected: Option<Selection>)
    requires WellFormed(d) && |ins| == |d.labels| && IsClusterMap(d, m)
    requires Replaces(d.simpoints, chosen, m) && Substituted(m, d.simpoints, chosen, r)
    ensures selected.None? <==> exists k :: 0 <= k < |chosen| && ins[chosen[k]] == 0
    ensures selected.Some? ==> Reconstructs(selected.value, ins) && WeighsClusters(selected.value, d, chosen, ins)
  {
    hide Weight, Represented, Reconstructed, Sum, Sorted, InstrsAt, Rounded, ClusterInstrs, Substituted, IsClusterMap;
    ClusterMapFacts(d, m);
    RelabelledRepresents(m, d.simpoints, chosen, r);
    ZeroAtRep(m, d.simpoints, chosen, r, ins);
    selected := Select(r, chosen, ins);
    if selected.Some? {
      RoundingBound(selected.value.0, selected.value.1, ins);
      forall k | 0 <= k < |chosen|
        ensures Represented(r, ins, {chosen[k]}, |ins|) == ClusterInstrs(d.labels, ins, d.ids[k], |ins|)
      {
        RepresentsCluster(d, m, chosen, r, ins, k, |ins|);
      }
    }
  }

  /** Every replacement represents at least its simpoint's phase. */
  lemma ZeroAtRep(m: seq<nat>, simpoints: seq<nat>, repl: seq<nat>, r: seq<nat>, ins: seq<nat>)
    requires Represents(m, simpoints) && Replaces(simpoints, repl, m) && Substituted(m, simpoints, repl, r)
    requires forall k :: 0 <= k < |simpoints| ==> m[simpoints[k]] == simpoints[k]
    requires |ins| == |m|
    ensures forall i :: 0 <= i < |r| ==> r[i] < |ins|
    ensures (exists i :: 0 <= i < |r| && ins[r[i]] == 0) <==> exists k :: 0 <= k < |repl| && ins[repl[k]] == 0
  {
    RelabelledRepresents(m, simpoints, repl, r);
    if i :| 0 <= i < |r| && ins[r[i]] == 0 {
      var k :| 0 <= k < |repl| && repl[k] == r[i];
    }
    forall k | 0 <= k < |repl|
      ensures r[simpoints[k]] == repl[k]
    {
    }
    if k :| 0 <= k < |repl| && ins[repl[k]] == 0 {
      assert r[simpoints[k]] == repl[k];
    }
  }
}
