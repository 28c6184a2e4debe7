/**
 The layout of the one-layer skip list: at which positions of a list of n nodes
 the skip nodes sit, when they are kept s apart.
 */
module SkipLayout {
  import opened Common

  /** The depths of the skip nodes, front to back.  With s == 0 no node is ever made a skip node. */
  function Depths(n: nat, s: nat): (d: seq<nat>)
  {
    if s == 0 || n < 2 * s - 1 then [] else Depths(n - s, s) + [n - s]
  }

  function Inc(d: seq<nat>): seq<nat> {
    seq(|d|, i requires 0 <= i < |d| => d[i] + 1)
  }

  /** Neighbours are exactly s apart, the first is in [s-1, 2s-2], the last is s from the back. */
  lemma {:induction false} DepthsShape(n: nat, s: nat)
    ensures var d := Depths(n, s);
            && (d == [] <==> s == 0 || n < 2 * s - 1)
            && (d != [] ==> s - 1 <= d[0] <= 2 * s - 2 && d[|d| - 1] == n - s)
            && (forall k :: 0 <= k < |d| - 1 ==> d[k + 1] == d[k] + s)
  {
    if s != 0 && n >= 2 * s - 1 {
      DepthsShape(n - s, s);
      var e := Depths(n - s, s);
      var d := e + [n - s];
      forall k | 0 <= k < |d| - 1
        ensures d[k + 1] == d[k] + s
      {
        if k < |e| - 1 {
          assert e[k + 1] == e[k] + s;
        }
      }
    }
  }

  /** Any two skip nodes are at least s apart, and all lie inside the list. */
  lemma {:induction false} DepthsSpread(n: nat, s: nat)
    ensures forall j, k :: 0 <= j < k < |Depths(n, s)| ==> Depths(n, s)[j] + s <= Depths(n, s)[k]
    ensures forall k :: 0 <= k < |Depths(n, s)| ==> s - 1 <= Depths(n, s)[k] && Depths(n, s)[k] + s <= n
  {
    if s != 0 && n >= 2 * s - 1 {
      DepthsSpread(n - s, s);
      var e, d := Depths(n - s, s), Depths(n, s);
      assert d == e + [n - s];
      assert forall k :: 0 <= k < |e| ==> e[k] + s <= n - s;
    }
  }

  /** Where the k-th skip node and its neighbours sit. */
  lemma {:induction false} DepthNeighbours(n: nat, s: nat, k: nat)
    requires k < |Depths(n, s)|
    ensures s - 1 <= Depths(n, s)[k] <= n - s
    ensures if Depths(n, s)[k] >= 2 * s - 1 then k > 0 && Depths(n, s)[k - 1] == Depths(n, s)[k] - s else k == 0
    ensures if Depths(n, s)[k] + 2 * s <= n then k + 1 < |Depths(n, s)| && Depths(n, s)[k + 1] == Depths(n, s)[k] + s
            else k + 1 == |Depths(n, s)|
  {
    DepthsShape(n, s);
    DepthsSpread(n, s);
    var d := Depths(n, s);
    hide Depths;
    assert k > 0 ==> d[k - 1 + 1] == d[k - 1] + s && s - 1 <= d[k - 1];
    assert k < |d| - 1 ==> d[k + 1] == d[k] + s && d[k + 1] + s <= n;
  }

  /** There are max(0, floor((n+1)/s) - 1) skip nodes. */
  lemma {:induction false} DepthsCount(n: nat, s: nat)
    requires s > 0
    ensures |Depths(n, s)| == if n + 1 < s then 0 else (n + 1) / s - 1
  {
    if n + 1 < s {
    } else if n < 2 * s - 1 {
      QuotientIsOne(n + 1, s);
    } else {
      DepthsCount(n - s, s);
      QuotientStep(n + 1, s);
    }
  }

  /** No more than a list of n nodes can hold skip nodes. */
  ghost predicate FewSkips(touched: nat, n: nat, s: nat) {
    s > 0 ==> touched <= (n + 1) / s
  }

  lemma {:induction false} FewSkipsOf(n: nat, s: nat)
    ensures forall touched: nat :: touched <= |Depths(n, s)| ==> FewSkips(touched, n, s)
  {
    if s > 0 {
      DepthsCount(n, s);
    }
  }

  lemma QuotientIsOne(a: nat, s: nat)
    requires 0 < s <= a < 2 * s
    ensures a / s == 1
  {
    assert a == 1 * s + (a - s);
    QuotientUnique(a, s, 1, a - s);
  }

  lemma QuotientStep(a: nat, s: nat)
    requires 0 < s <= a
    ensures a / s == (a - s) / s + 1
  {
    var q, r := (a - s) / s, (a - s) % s;
    assert a - s == q * s + r;
    assert (q + 1) * s == q * s + s;
    QuotientUnique(a, s, q + 1, r);
  }

  /** Adding one node at the front shifts every skip node by one and opens a new one at
      depth s-1 exactly when the front stretch has grown to 2s-1 nodes. */
  lemma {:induction false} DepthsGrow(n: nat, s: nat)
    ensures Depths(n + 1, s) == Opened(n, s) + Inc(Depths(n, s))
  {
    if s != 0 && n == 2 * s - 2 {
      assert Depths(n + 1 - s, s) == [];
    } else if s != 0 && n >= 2 * s - 1 {
      DepthsGrow(n - s, s);
      OpenedStep(n, s);
      IncLast(Depths(n - s, s), n - s, Opened(n, s));
    }
  }

  lemma IncLast(e: seq<nat>, x: nat, pre: seq<nat>)
    ensures (pre + Inc(e)) + [x + 1] == pre + Inc(e + [x])
  {
    assert Inc(e + [x]) == Inc(e) + [x + 1];
  }

  lemma OpenedStep(n: nat, s: nat)
    requires s != 0 && n >= 2 * s - 1
    ensures Opened(n, s) == Opened(n - s, s)
  {
    var e := Depths(n - s, s);
    assert (e + [n - s])[0] == if e == [] then n - s else e[0];
  }

  /** The skip node opened when a node is added in front of n others. */
  ghost function Opened(n: nat, s: nat): seq<nat> {
    var front := if Depths(n, s) == [] then n + 1 else Depths(n, s)[0] + 1;
    if s > 0 && front == 2 * s - 1 then [s - 1] else []
  }

  /** The stretch of plain nodes in front once one more node has been added: at most 2s-1 long,
      and exactly that long when a new skip node is due. */
  lemma FrontStretch(n: nat, s: nat) returns (front: nat)
    ensures front == if Depths(n, s) == [] then n + 1 else Depths(n, s)[0] + 1
    ensures front <= n + 1
    ensures s > 0 ==> front <= 2 * s - 1
    ensures forall k :: 0 <= k < |Depths(n, s)| ==> front <= Inc(Depths(n, s))[k]
    ensures if s > 0 && front == 2 * s - 1
            then s - 1 !in Inc(Depths(n, s)) && Depths(n + 1, s) == [s - 1] + Inc(Depths(n, s))
            else Depths(n + 1, s) == Inc(Depths(n, s))
  {
    var d := Depths(n, s);
    front := if d == [] then n + 1 else d[0] + 1;
    FrontBounds(n, s, front);
    DepthsGrow(n, s);
    assert Opened(n, s) == if s > 0 && front == 2 * s - 1 then [s - 1] else [];
    assert [] + Inc(d) == Inc(d);
  }

  lemma {:induction false} FrontBounds(n: nat, s: nat, front: nat)
    requires front == if Depths(n, s) == [] then n + 1 else Depths(n, s)[0] + 1
    ensures front <= n + 1
    ensures s > 0 ==> front <= 2 * s - 1
    ensures forall k :: 0 <= k < |Depths(n, s)| ==> front <= Inc(Depths(n, s))[k]
  {
    DepthsShape(n, s);
    DepthsSpread(n, s);
  }

  /** The head is a skip node exactly when skip_distance is 1: only then can the shifting loop
      of a move reach a skip node without a predecessor. */
  lemma {:induction false} HeadIsSkipIff(n: nat, s: nat)
    requires n > 0
    ensures 0 in Depths(n, s) <==> s == 1
  {
    DepthsShape(n, s);
    DepthsSpread(n, s);
    if s == 1 {
      assert Depths(n, s)[0] == 0;
    }
  }

  /** With s == 1 every position is a skip position. */
  lemma {:induction false} UnitDepths(n: nat)
    ensures |Depths(n, 1)| == n && forall i :: 0 <= i < n ==> Depths(n, 1)[i] == i
  {
    if n > 0 {
      UnitDepths(n - 1);
      assert Depths(n, 1) == Depths(n - 1, 1) + [n - 1];
    }
  }

  /** No skip position is the head, and no two are neighbours: each skip node can be shifted one
      node towards the head without meeting another one. */
  ghost predicate Spaced(d: seq<nat>) {
    && (forall k :: 0 <= k < |d| ==> d[k] > 0)
    && (forall j, k :: 0 <= j < k < |d| ==> d[j] + 1 < d[k])
  }

  lemma {:induction false} SpacedIff(n: nat, s: nat)
    ensures Spaced(Depths(n, s)) <==> s != 1 || n == 0
  {
    DepthsSpread(n, s);
    if s == 1 {
      UnitDepths(n);
      assert n > 0 ==> Depths(n, 1)[0] == 0;
    } else if s != 0 {
      assert forall j, k :: 0 <= j < k < |Depths(n, s)| ==> Depths(n, s)[j] + s <= Depths(n, s)[k];
    }
  }

  /** The c-th skip position is the last one at or before p (c == -1: there is none). */
  ghost predicate Nearest(d: seq<nat>, p: nat, c: int) {
    && -1 <= c < |d|
    && (forall k :: 0 <= k <= c ==> d[k] <= d[c] <= p)
    && (forall k :: c < k < |d| ==> p < d[k])
  }

  /** From any position, a skip node or the front of the list is at most 2s-2 steps away. */
  lemma NearestSkip(n: nat, s: nat, p: nat) returns (c: int)
    requires p < n
    ensures Nearest(Depths(n, s), p, c)
    ensures s > 0 ==> (if c < 0 then p + 1 else p - Depths(n, s)[c]) <= 2 * s - 2
  {
    var d := Depths(n, s);
    DepthsShape(n, s);
    DepthsSpread(n, s);
    hide Depths;
    c := |d| - 1;
    while c >= 0 && d[c] > p
      invariant -1 <= c < |d|
      invariant forall k :: c < k < |d| ==> p < d[k]
    {
      c := c - 1;
    }
    if 0 <= c < |d| - 1 {
      assert d[c + 1] == d[c] + s;
    }
    assert forall k :: 0 <= k < c ==> d[k] + s <= d[c];
  }
}
