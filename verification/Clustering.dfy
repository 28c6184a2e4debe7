/**
 Barrier-point clustering after SimPoint (DrAnalysis.py, __ClusterBarrierPoints): the map from
 phases to representatives, the earlier representatives of each cluster, and the relabelled maps.
 */
module Clustering {
  import opened Common

  /** SimPoint's output: cluster ids with their representatives, and per phase its label and its
      distance to the centre of its cluster. */
  datatype SimPointData = SimPointData(ids: seq<nat>, simpoints: seq<nat>, labels: seq<nat>, distances: seq<real>)

  /** What SimPoint guarantees. */
  ghost predicate WellFormed(d: SimPointData) {
    && |d.ids| == |d.simpoints| > 0
    && |d.labels| == |d.distances|
    && NoDuplicates(d.ids) && NoDuplicates(d.simpoints)
    && (forall i :: 0 <= i < |d.labels| ==> d.labels[i] in d.ids)
    && (forall k :: 0 <= k < |d.ids| ==> d.simpoints[k] < |d.labels| && d.labels[d.simpoints[k]] == d.ids[k])
    && (forall i :: 0 <= i < |d.distances| ==> d.distances[i] >= 0.0)
  }

  /** m sends every phase to the representative of its label. */
  ghost predicate IsClusterMap(d: SimPointData, m: seq<nat>)
    requires |d.ids| == |d.simpoints|
  {
    && |m| == |d.labels|
    && (forall i, k :: 0 <= i < |m| && 0 <= k < |d.ids| && d.ids[k] == d.labels[i] ==> m[i] == d.simpoints[k])
  }

  method MaxOf(s: seq<nat>) returns (m: nat)
    requires s != []
    ensures forall i :: 0 <= i < |s| ==> s[i] <= m
    ensures m in s
  {
    m := s[0];
    for i := 1 to |s|
      invariant forall j :: 0 <= j < i ==> s[j] <= m
      invariant m in s
    {
      if s[i] > m {
        m := s[i];
      }
    }
  }

  method ClusterMap(d: SimPointData) returns (m: seq<nat>)
    requires WellFormed(d)
    ensures IsClusterMap(d, m)
  {
    var top := MaxOf(d.ids);
    var id2index := new int[top + 1](_ => -1);
    for i := 0 to |d.ids|
      invariant forall k :: 0 <= k < i ==> id2index[d.ids[k]] == k
    {
      id2index[d.ids[i]] := i;
    }
    m := [];
    for i := 0 to |d.labels|
      invariant |m| == i
      invariant forall j, k :: 0 <= j < i && 0 <= k < |d.ids| && d.ids[k] == d.labels[j] ==> m[j] == d.simpoints[k]
    {
      var k :| 0 <= k < |d.ids| && d.ids[k] == d.labels[i];
      m := m + [d.simpoints[id2index[d.labels[i]]]];
    }
  }

  /** Every phase is represented by a simpoint, and every simpoint represents itself. */
  lemma ClusterMapFacts(d: SimPointData, m: seq<nat>)
    requires WellFormed(d) && IsClusterMap(d, m)
    ensures |m| == |d.labels|
    ensures forall i :: 0 <= i < |m| ==> m[i] in d.simpoints
    ensures forall k :: 0 <= k < |d.simpoints| ==> d.simpoints[k] < |m| && m[d.simpoints[k]] == d.simpoints[k]
  {
    forall i | 0 <= i < |m|
      ensures m[i] in d.simpoints
    {
      var k :| 0 <= k < |d.ids| && d.ids[k] == d.labels[i];
      assert m[i] == d.simpoints[k];
    }
  }

  // ---------- earlier representatives ----------

  /** j is a phase of sp's cluster, not after sp. */
  predicate Candidate(m: seq<nat>, sp: nat, j: nat) {
    j < |m| && m[j] == sp && j <= sp
  }

  /** The candidate closest to the centre, the latest one on ties. */
  ghost predicate IsClosest(m: seq<nat>, dist: seq<real>, sp: nat, ec: nat)
    requires |dist| == |m|
  {
    && Candidate(m, sp, ec)
    && (forall j: nat :: Candidate(m, sp, j) ==> dist[ec] <= dist[j])
    && (forall j: nat :: Candidate(m, sp, j) && ec < j ==> dist[ec] < dist[j])
  }

  /** A candidate whose distance exceeds the simpoint's by at most a twentieth of the distance of
      some member of the cluster. */
  ghost predicate CloseEnough(m: seq<nat>, dist: seq<real>, sp: nat, j: nat)
    requires |dist| == |m| && sp < |m|
  {
    Candidate(m, sp, j) && exists x :: 0 <= x < |m| && m[x] == sp && 20.0 * (dist[j] - dist[sp]) <= dist[x]
  }

  /** The earliest candidate that is close enough. */
  ghost predicate IsEarliest(m: seq<nat>, dist: seq<real>, sp: nat, ee: nat)
    requires |dist| == |m| && sp < |m|
  {
    CloseEnough(m, dist, sp, ee) && forall j: nat :: CloseEnough(m, dist, sp, j) ==> ee <= j
  }

  /** The phases represented by sp, in order. */
  function Members(m: seq<nat>, sp: nat): (c: seq<nat>)
    ensures forall k :: 0 <= k < |c| ==> c[k] < |m| && m[c[k]] == sp
    ensures forall i, k :: 0 <= i < k < |c| ==> c[i] < c[k]
    ensures forall j :: 0 <= j < |m| && m[j] == sp ==> j in c
  {
    if m == [] then []
    else Members(m[..|m| - 1], sp) + if m[|m| - 1] == sp then [|m| - 1] else []
  }

  function MaxDist(c: seq<nat>, dist: seq<real>): (r: real)
    requires c != [] && forall k :: 0 <= k < |c| ==> c[k] < |dist|
    ensures forall k :: 0 <= k < |c| ==> dist[c[k]] <= r
    ensures exists k :: 0 <= k < |c| && r == dist[c[k]]
  {
    var d := dist[c[|c| - 1]];
    if |c| == 1 then d
    else
      var r := MaxDist(c[..|c| - 1], dist);
      if r < d then d else r
  }

  /** Being within maxD_05, the simpoint's distance plus 5% of the largest in the cluster, is being
      close enough to some member. */
  lemma {:induction false} WithinSlack(m: seq<nat>, dist: seq<real>, sp: nat, j: nat)
    requires |dist| == |m| && sp < |m| && m[sp] == sp && Candidate(m, sp, j)
    ensures Members(m, sp) != []
    ensures dist[j] <= dist[sp] + MaxDist(Members(m, sp), dist) * 0.05 <==> CloseEnough(m, dist, sp, j)
  {
    var c := Members(m, sp);
    assert sp in c;
    var top := MaxDist(c, dist);
    if dist[j] <= dist[sp] + top * 0.05 {
      var k :| 0 <= k < |c| && top == dist[c[k]];
      assert 20.0 * (dist[j] - dist[sp]) <= dist[c[k]];
    }
    if x :| 0 <= x < |m| && m[x] == sp && 20.0 * (dist[j] - dist[sp]) <= dist[x] {
      assert x in c;
    }
  }

  /** The phases of the list within the slack and not after sp, with their distances. */
  method Closer(cluster: seq<nat>, dist: seq<real>, sp: nat, slack: real) returns (closer: seq<(nat, real)>)
    requires forall k :: 0 <= k < |cluster| ==> cluster[k] < |dist|
    requires forall i, k :: 0 <= i < k < |cluster| ==> cluster[i] < cluster[k]
    ensures forall k :: 0 <= k < |closer| ==>
              && closer[k].0 in cluster && closer[k].0 <= sp && closer[k].1 <= slack
              && closer[k].1 == dist[closer[k].0]
    ensures forall i, k :: 0 <= i < k < |closer| ==> closer[i].0 < closer[k].0
    ensures forall j :: j in cluster && j <= sp && dist[j] <= slack ==> (j, dist[j]) in closer
  {
    closer := [];
    for i := 0 to |cluster|
      invariant forall k :: 0 <= k < |closer| ==>
                  && closer[k].0 in cluster[..i] && closer[k].0 <= sp && closer[k].1 <= slack
                  && closer[k].1 == dist[closer[k].0]
      invariant forall i, k :: 0 <= i < k < |closer| ==> closer[i].0 < closer[k].0
      invariant forall j :: j in cluster[..i] && j <= sp && dist[j] <= slack ==> (j, dist[j]) in closer
    {
      var jj := cluster[i];
      assert cluster[..i + 1] == cluster[..i] + [jj];
      if dist[jj] <= slack && jj <= sp {
        closer := closer + [(jj, dist[jj])];
      }
    }
    assert cluster[..|cluster|] == cluster;
  }

  /** The left fold keeping its accumulator only when that is strictly closer. */
  method Reduce(closer: seq<(nat, real)>) returns (best: (nat, real))
    requires closer != []
    ensures best in closer
    ensures forall k :: 0 <= k < |closer| ==> best.1 <= closer[k].1
    ensures exists b :: 0 <= b < |closer| && closer[b] == best && forall k :: b < k < |closer| ==> best.1 < closer[k].1
  {
    best := closer[0];
    ghost var b := 0;
    for i := 1 to |closer|
      invariant 0 <= b < i && closer[b] == best
      invariant forall k :: 0 <= k < i ==> best.1 <= closer[k].1
      invariant forall k :: b < k < i ==> best.1 < closer[k].1
    {
      if !(best.1 < closer[i].1) {
        best := closer[i];
        b := i;
      }
    }
  }

  /** The two earlier representatives of the cluster of sp. */
  method Earlier(m: seq<nat>, dist: seq<real>, sp: nat) returns (ec: nat, ee: nat)
    requires |dist| == |m| && sp < |m| && m[sp] == sp
    requires forall i :: 0 <= i < |dist| ==> dist[i] >= 0.0
    ensures Candidate(m, sp, ec) && Candidate(m, sp, ee) && Chosen(m, dist, sp, ec, ee)
  {
    var cluster := Members(m, sp);
    assert sp in cluster;
    var slack := dist[sp] + MaxDist(cluster, dist) * 0.05;
    var closer := Closer(cluster, dist, sp, slack);
    assert (sp, dist[sp]) in closer;
    var best := Reduce(closer);
    ec := best.0;
    ee := closer[0].0;
    assert dist[ec] <= dist[sp];
    WithinSlack(m, dist, sp, ee);
    forall j: nat | Candidate(m, sp, j)
      ensures dist[ec] <= dist[j] && (ec < j ==> dist[ec] < dist[j])
      ensures CloseEnough(m, dist, sp, j) ==> ee <= j
    {
      assert j in cluster;
      WithinSlack(m, dist, sp, j);
      if dist[j] <= slack {
        var k :| 0 <= k < |closer| && closer[k] == (j, dist[j]);
        var b :| 0 <= b < |closer| && closer[b] == best && forall k :: b < k < |closer| ==> best.1 < closer[k].1;
        assert k < b ==> closer[k].0 < closer[b].0;
      }
    }
  }

  /** Earliest, closest and the simpoint itself are in this order, all in the simpoint's cluster;
      the closest one is the simpoint exactly when no earlier member is strictly closer. */
  lemma EarlierOrder(m: seq<nat>, dist: seq<real>, sp: nat, ec: nat, ee: nat)
    requires |dist| == |m| && sp < |m| && m[sp] == sp
    requires forall i :: 0 <= i < |dist| ==> dist[i] >= 0.0
    requires IsClosest(m, dist, sp, ec) && IsEarliest(m, dist, sp, ee)
    ensures ee <= ec <= sp && m[ee] == m[ec] == sp
    ensures ec == sp <==> forall j: nat :: Candidate(m, sp, j) ==> dist[sp] <= dist[j]
  {
    assert Candidate(m, sp, sp);
    assert 20.0 * (dist[ec] - dist[sp]) <= dist[sp];
    assert CloseEnough(m, dist, sp, ec);
  }

  /** The closest one does not depend on the slack: it is determined by the distances alone. */
  lemma ClosestUnique(m: seq<nat>, dist: seq<real>, sp: nat, a: nat, b: nat)
    requires |dist| == |m| && IsClosest(m, dist, sp, a) && IsClosest(m, dist, sp, b)
    ensures a == b
  {
  }

  /** ec and ee are the two earlier representatives of the cluster of sp. */
  ghost predicate Chosen(m: seq<nat>, dist: seq<real>, sp: nat, ec: nat, ee: nat) {
    && |dist| == |m| && sp < |m| && m[sp] == sp
    && IsClosest(m, dist, sp, ec)
    && IsEarliest(m, dist, sp, ee)
  }

  lemma ChosenOrder(m: seq<nat>, dist: seq<real>, sp: nat, ec: nat, ee: nat)
    requires Chosen(m, dist, sp, ec, ee) && forall i :: 0 <= i < |dist| ==> dist[i] >= 0.0
    ensures ee <= ec <= sp
  {
    EarlierOrder(m, dist, sp, ec, ee);
  }

  /** The first n simpoints have their earlier representatives, each in its simpoint's cluster. */
  ghost predicate ChosenUpTo(simpoints: seq<nat>, m: seq<nat>, dist: seq<real>, n: nat, ecs: seq<nat>, ees: seq<nat>) {
    && |ecs| == |ees| == n <= |simpoints|
    && (forall k :: 0 <= k < n ==> Candidate(m, simpoints[k], ecs[k]) && Candidate(m, simpoints[k], ees[k]))
    && (forall k :: 0 <= k < n ==> Chosen(m, dist, simpoints[k], ecs[k], ees[k]))
  }

  lemma ChosenStep(simpoints: seq<nat>, m: seq<nat>, dist: seq<real>, n: nat, ecs: seq<nat>, ees: seq<nat>,
                   ec: nat, ee: nat)
    requires n < |simpoints| && ChosenUpTo(simpoints, m, dist, n, ecs, ees)
    requires Chosen(m, dist, simpoints[n], ec, ee)
    requires Candidate(m, simpoints[n], ec) && Candidate(m, simpoints[n], ee)
    ensures ChosenUpTo(simpoints, m, dist, n + 1, ecs + [ec], ees + [ee])
  {
    hide Chosen;
  }

  /** The earlier representatives of all simpoints. */
  method EarlierAll(simpoints: seq<nat>, m: seq<nat>, dist: seq<real>) returns (ecs: seq<nat>, ees: seq<nat>)
    requires |dist| == |m| && forall i :: 0 <= i < |dist| ==> dist[i] >= 0.0
    requires forall k :: 0 <= k < |simpoints| ==> simpoints[k] < |m| && m[simpoints[k]] == simpoints[k]
    ensures Replaces(simpoints, ecs, m) && Replaces(simpoints, ees, m)
    ensures forall k :: 0 <= k < |simpoints| ==> Chosen(m, dist, simpoints[k], ecs[k], ees[k])
  {
    hide Chosen;
    ecs, ees := [], [];
    for i := 0 to |simpoints|
      invariant ChosenUpTo(simpoints, m, dist, i, ecs, ees)
    {
      var ec, ee := Earlier(m, dist, simpoints[i]);
      ChosenStep(simpoints, m, dist, i, ecs, ees, ec, ee);
      ecs, ees := ecs + [ec], ees + [ee];
    }
  }

  // ---------- relabelling ----------

  /** Each replacement lies in the cluster of the simpoint it replaces. */
  ghost predicate Replaces(simpoints: seq<nat>, repl: seq<nat>, m: seq<nat>) {
    && |repl| == |simpoints|
    && (forall k :: 0 <= k < |repl| ==> repl[k] < |m| && m[repl[k]] == simpoints[k])
  }

  /** r is m with every simpoint replaced at once. */
  ghost predicate Substituted(m: seq<nat>, simpoints: seq<nat>, repl: seq<nat>, r: seq<nat>)
    requires |repl| == |simpoints|
  {
    && |r| == |m|
    && (forall i, k :: 0 <= i < |m| && 0 <= k < |simpoints| && m[i] == simpoints[k] ==> r[i] == repl[k])
  }

  /** The state of an entry after the first n pairs. */
  ghost predicate Partly(m: seq<nat>, simpoints: seq<nat>, repl: seq<nat>, n: nat, i: nat, v: nat)
    requires |repl| == |simpoints| && i < |m|
  {
    forall k :: 0 <= k < |simpoints| && m[i] == simpoints[k] ==> v == if k < n then repl[k] else m[i]
  }

  /** No entry already replaced is captured by a later pair: replacements stay in their own cluster. */
  lemma NotCaptured(m: seq<nat>, simpoints: seq<nat>, repl: seq<nat>, n: nat, i: nat, v: nat)
    requires NoDuplicates(simpoints) && Replaces(simpoints, repl, m) && n < |simpoints| && i < |m|
    requires forall k :: 0 <= k < |simpoints| ==> simpoints[k] < |m| && m[simpoints[k]] == simpoints[k]
    requires m[i] in simpoints && Partly(m, simpoints, repl, n, i, v)
    ensures Partly(m, simpoints, repl, n + 1, i, if v == simpoints[n] then repl[n] else v)
  {
    var k :| 0 <= k < |simpoints| && m[i] == simpoints[k];
    if k < n {
      assert v == repl[k] && m[v] == simpoints[k];
    }
  }

  method Relabel(m: seq<nat>, simpoints: seq<nat>, repl: seq<nat>) returns (r: seq<nat>)
    requires NoDuplicates(simpoints) && Replaces(simpoints, repl, m)
    requires forall k :: 0 <= k < |simpoints| ==> simpoints[k] < |m| && m[simpoints[k]] == simpoints[k]
    requires forall i :: 0 <= i < |m| ==> m[i] in simpoints
    ensures Substituted(m, simpoints, repl, r)
  {
    var a := new nat[|m|](i requires 0 <= i < |m| => m[i]);
    for n := 0 to |simpoints|
      invariant forall i :: 0 <= i < |m| ==> Partly(m, simpoints, repl, n, i, a[i])
    {
      if simpoints[n] == repl[n] {
        forall i | 0 <= i < |m|
          ensures Partly(m, simpoints, repl, n + 1, i, a[i])
        {
          NotCaptured(m, simpoints, repl, n, i, a[i]);
        }
      } else {
        for i := 0 to |m|
          invariant forall j :: 0 <= j < |m| ==> Partly(m, simpoints, repl, if j < i then n + 1 else n, j, a[j])
        {
          NotCaptured(m, simpoints, repl, n, i, a[i]);
          if a[i] == simpoints[n] {
            a[i] := repl[n];
          }
        }
      }
    }
    r := a[..];
    forall i, k | 0 <= i < |m| && 0 <= k < |simpoints| && m[i] == simpoints[k]
      ensures r[i] == repl[k]
    {
      assert Partly(m, simpoints, repl, |simpoints|, i, a[i]);
    }
  }
}
