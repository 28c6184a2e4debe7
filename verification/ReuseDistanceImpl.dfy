/**
 The most-recent-first list of cache lines with its one-layer skip list and its gate
 (dynamorio_client/include/reuse_distance_impl.h), on heap nodes.

 Every relink is proved against a ghost sequence: `nodes` is the list front to back,
 `skips` the skip list front to back, and the depths held by the skip nodes are always
 Depths(|nodes|, skipDistance).
 */
module ReuseDistanceImpl {
  import opened SkipLayout
  import opened Common
  import opened StackDistance

  class LineRef {
    var prev: LineRef?
    var next: LineRef?
    var timeStamp: nat
    var totalRefs: nat
    var distantRefs: nat
    const tag: Tag
    var prevSkip: LineRef?
    var nextSkip: LineRef?
    var depth: int

    constructor (val: Tag)
      ensures tag == val && totalRefs == 1 && distantRefs == 0
      ensures prev == null && next == null
      ensures IsPlain()
    {
      prev, next := null, null;
      timeStamp, totalRefs, distantRefs := 0, 1, 0;
      tag := val;
      prevSkip, nextSkip, depth := null, null, -1;
    }

    /** Not a skip node. */
    ghost predicate IsPlain()
      reads this`depth, this`prevSkip, this`nextSkip
    {
      depth == -1 && prevSkip == null && nextSkip == null
    }
  }

  ghost function At(s: seq<LineRef>, i: int): LineRef? {
    if 0 <= i < |s| then s[i] else null
  }

  ghost function Just(x: LineRef?): set<LineRef> {
    if x == null then {} else {x}
  }

  ghost predicate Within(s: seq<LineRef>, r: set<LineRef>) {
    forall i :: 0 <= i < |s| ==> s[i] in r
  }

  /** prev and next are each other's inverse and run through s in order. */
  ghost predicate Linked(s: seq<LineRef>, r: set<LineRef>)
    reads r`prev, r`next
  {
    && Within(s, r)
    && (forall i {:trigger s[i].prev} :: 0 <= i < |s| ==> s[i].prev == At(s, i - 1))
    && (forall i {:trigger s[i].next} :: 0 <= i < |s| ==> s[i].next == At(s, i + 1))
  }

  /** Time stamps strictly decrease along the list and all lie in the past. */
  ghost predicate Stamped(s: seq<LineRef>, r: set<LineRef>, now: nat)
    reads r`timeStamp
  {
    && Within(s, r)
    && (forall i :: 0 <= i < |s| ==> s[i].timeStamp < now)
    && (forall i, j :: 0 <= i < j < |s| ==> s[j].timeStamp < s[i].timeStamp)
  }

  /** The skip links join exactly the nodes of sk, in order and in both directions; the k-th of
      them holds depth ds[k]; every other node of r is plain. */
  ghost predicate SkipLinked(r: set<LineRef>, sk: seq<LineRef>, ds: seq<nat>)
    reads r`depth, r`prevSkip, r`nextSkip
  {
    && |sk| == |ds|
    && NoDuplicates(sk)
    && Within(sk, r)
    && (forall k :: 0 <= k < |sk| ==> sk[k].depth == ds[k])
    && (forall k {:trigger sk[k].prevSkip} :: 0 <= k < |sk| ==> sk[k].prevSkip == At(sk, k - 1))
    && (forall k {:trigger sk[k].nextSkip} :: 0 <= k < |sk| ==> sk[k].nextSkip == At(sk, k + 1))
    && (forall x :: x in r && x !in sk ==> x.IsPlain())
  }

  lemma SkipsWithin(r: set<LineRef>, sk: seq<LineRef>, ds: seq<nat>)
    requires SkipLinked(r, sk, ds)
    ensures |sk| == |ds| && Within(sk, r)
  {
  }

  lemma NextSkip(r: set<LineRef>, sk: seq<LineRef>, ds: seq<nat>, k: nat)
    requires SkipLinked(r, sk, ds) && k < |sk|
    ensures sk[k].nextSkip == At(sk, k + 1)
  {
  }

  /** The k-th skip node sits at position ds[k] of the list. */
  ghost predicate Placed(s: seq<LineRef>, sk: seq<LineRef>, ds: seq<nat>) {
    && |sk| == |ds|
    && (forall k :: 0 <= k < |sk| ==> ds[k] < |s| && sk[k] == s[ds[k]])
  }

  lemma PlacedInFront(s: seq<LineRef>, sk: seq<LineRef>, ds: seq<nat>, p: nat)
    requires Placed(s, sk, ds) && p < |s|
    ensures Placed(s, [s[p]] + sk, [p] + ds)
  {
  }

  /** The node at position i is a skip node exactly when i is a skip position. */
  lemma SkipAt(s: seq<LineRef>, sk: seq<LineRef>, pos: seq<nat>, i: nat)
    requires i < |s| && NoDuplicates(s) && Placed(s, sk, pos)
    ensures i in pos <==> s[i] in sk
  {
    if i in pos {
      var k :| 0 <= k < |pos| && pos[k] == i;
      assert sk[k] == s[i];
    }
  }

  /** The nodes before the first skip position are plain. */
  lemma PlainBefore(s: seq<LineRef>, r: set<LineRef>, sk: seq<LineRef>, ds: seq<nat>, pos: seq<nat>, front: nat)
    requires front <= |s| && NoDuplicates(s) && Within(s, r) && SkipLinked(r, sk, ds) && Placed(s, sk, pos)
    requires forall k :: 0 <= k < |pos| ==> front <= pos[k]
    ensures forall i :: 0 <= i < front ==> s[i].depth == -1
  {
    forall i | 0 <= i < front
      ensures s[i].depth == -1
    {
      SkipAt(s, sk, pos, i);
      assert s[i].IsPlain();
    }
  }

  /** The walk from the head meets plain nodes up to the first skip node. */
  lemma FrontIs(s: seq<LineRef>, r: set<LineRef>, sk: seq<LineRef>, d: seq<nat>, front: nat)
    requires NoDuplicates(s) && Within(s, r) && SkipLinked(r, sk, d) && Placed(s, sk, Inc(d))
    requires front == (if d == [] then |s| else d[0] + 1) && forall k :: 0 <= k < |d| ==> front <= Inc(d)[k]
    ensures |sk| == |d| == |Inc(d)| && front <= |s| && At(s, front) == At(sk, 0)
    ensures forall i :: 0 <= i < front ==> s[i].depth == -1
    ensures front < |s| ==> s[front].depth != -1
  {
    PlainBefore(s, r, sk, d, Inc(d), front);
    assert d != [] ==> s[front] == sk[0] && sk[0].depth == d[0];
  }

  /** A plain line put in front moves every skip node one position back. */
  lemma PlainInFront(s: seq<LineRef>, r: set<LineRef>, x: LineRef, sk: seq<LineRef>, ds: seq<nat>)
    requires SkipLinked(r, sk, ds) && Placed(s, sk, ds) && x.IsPlain()
    ensures SkipLinked(r + {x}, sk, ds) && Placed([x] + s, sk, Inc(ds))
  {
  }

  lemma Replaced(r: set<LineRef>, sk: seq<LineRef>, k: nat, dst: LineRef, sk': seq<LineRef>)
    requires NoDuplicates(sk) && Within(sk, r) && k < |sk| && dst in r && dst !in sk && sk' == sk[k := dst]
    ensures NoDuplicates(sk') && Within(sk', r)
    ensures sk[k] !in sk' && dst in sk'
    ensures forall j :: 0 <= j < |sk| && j != k ==> sk[j] in sk'
    ensures forall x :: x !in sk' ==> x == sk[k] || x !in sk
    ensures forall j :: 0 <= j < |sk| && j != k ==> sk[j] != sk[k] && sk'[j] == sk[j]
    ensures forall j :: 0 <= j < |sk| && j != k - 1 ==> sk[j] != At(sk, k - 1)
    ensures forall j :: 0 <= j < |sk| && j != k + 1 ==> sk[j] != At(sk, k + 1)
  {
    assert sk'[k] == dst;
    forall j | 0 <= j < |sk| && j != k
      ensures sk[j] in sk'
    {
      assert sk'[j] == sk[j];
    }
  }

  /** Of the first c+1 skip nodes, those after the m-th have been shifted one node to the front. */
  ghost predicate Shifted(s: seq<LineRef>, sk: seq<LineRef>, ds: seq<nat>, m: int, c: int) {
    && |sk| == |ds|
    && (forall k :: 0 <= k < |sk| ==>
         (if m < k <= c then 0 < ds[k] <= |s| && sk[k] == s[ds[k] - 1] else ds[k] < |s| && sk[k] == s[ds[k]]))
  }

  lemma ShiftStart(s: seq<LineRef>, sk: seq<LineRef>, ds: seq<nat>, c: int)
    requires Placed(s, sk, ds)
    ensures Shifted(s, sk, ds, c, c)
  {
  }

  /** The node the m-th skip node is about to be shifted to is not itself a live skip node. */
  lemma ShiftStep(s: seq<LineRef>, sk: seq<LineRef>, ds: seq<nat>, m: nat, c: nat)
    requires NoDuplicates(s) && Shifted(s, sk, ds, m, c) && m <= c < |ds| && Spaced(ds)
    ensures s[ds[m] - 1] !in sk
    ensures Shifted(s, sk[m := s[ds[m] - 1]], ds, m - 1, c)
  {
    forall k | 0 <= k < |sk|
      ensures sk[k] != s[ds[m] - 1]
    {
      assert k < m ==> ds[k] + 1 < ds[m];
      assert m < k ==> ds[m] + 1 < ds[k];
    }
  }

  /** Between the nearest skip node at or before position p and p itself, all nodes are plain. */
  lemma PlainBetween(s: seq<LineRef>, r: set<LineRef>, sk: seq<LineRef>, ds: seq<nat>, p: nat, c: int)
    requires p < |s| && NoDuplicates(s) && Within(s, r) && SkipLinked(r, sk, ds) && Placed(s, sk, ds)
    requires Nearest(ds, p, c)
    ensures forall i :: (if c < 0 then 0 else ds[c] + 1) <= i <= p ==> s[i].depth == -1
  {
    forall i | (if c < 0 then 0 else ds[c] + 1) <= i <= p
      ensures s[i].depth == -1
    {
      SkipAt(s, sk, ds, i);
      assert s[i].IsPlain();
    }
  }

  /** What the walk back from position p reads off: the depth noted at the nearest skip node plus
      the steps taken, -1 counting for the front of the list. */
  ghost function WalkBack(s: seq<LineRef>, r: set<LineRef>, p: int): int
    requires p < |s| && Within(s, r)
    reads r`depth
  {
    if p < 0 then -1 else if s[p].depth != -1 then s[p].depth else 1 + WalkBack(s, r, p - 1)
  }

  lemma {:induction false} WalkBackTo(s: seq<LineRef>, r: set<LineRef>, p: int, q: int)
    requires -1 <= q <= p < |s| && Within(s, r)
    requires forall i :: q < i <= p ==> s[i].depth == -1
    requires q >= 0 ==> s[q].depth != -1
    ensures WalkBack(s, r, p) == p - q + if q < 0 then -1 else s[q].depth
    decreases p
  {
    if p > q {
      WalkBackTo(s, r, p - 1, q);
    }
  }

  /** After the shift and the move, every skip node is back at its depth. */
  lemma ShiftedIsPlaced(s: seq<LineRef>, sk: seq<LineRef>, ds: seq<nat>, p: nat, c: int)
    requires p < |s| && Nearest(ds, p, c) && Shifted(s, sk, ds, -1, c)
    ensures Placed(Rotated(s, p), sk, ds)
  {
  }

  /** Behind its new head, a rotated list still has decreasing time stamps. */
  lemma RotatedStamps(s: seq<LineRef>, r: set<LineRef>, now: nat, p: nat)
    requires p < |s| && Stamped(s, r, now)
    ensures forall i :: 1 <= i < |s| ==> Rotated(s, p)[i].timeStamp < now
    ensures forall i, j :: 1 <= i < j < |s| ==> Rotated(s, p)[j].timeStamp < Rotated(s, p)[i].timeStamp
  {
  }

  /** src has handed its skip-list fields over to dst, whatever its skip links were: nothing else
      in r has changed but the links of src's former neighbours, which now lead to dst. */
  twostate predicate FieldsMoved(r: set<LineRef>, src: LineRef, dst: LineRef)
    reads r`depth, r`prevSkip, r`nextSkip, src, dst
  {
    && src.IsPlain() && dst.depth == old(src.depth)
    && dst.nextSkip == (if old(src.prevSkip) == dst then dst else old(src.nextSkip))
    && dst.prevSkip == (if old(src.prevSkip) == src || old(src.nextSkip) == dst then dst else old(src.prevSkip))
    && (forall x :: x in r && x != src && x != dst ==> x.depth == old(x.depth))
    && (forall x :: x in r && x != src && x != dst ==>
         x.prevSkip == if x == old(src.nextSkip) && old(src.prevSkip) != src then dst else old(x.prevSkip))
    && (forall x :: x in r && x != src && x != dst ==>
         x.nextSkip == if x == old(src.prevSkip) then dst else old(x.nextSkip))
  }

  twostate lemma RelinkedBack(r: set<LineRef>, new sk: seq<LineRef>, new ds: seq<nat>, new k: nat, new dst: LineRef,
                              new sk': seq<LineRef>)
    requires Within(sk, r) && old(SkipLinked(r, sk, ds)) && k < |sk| && dst in r && dst !in sk && sk' == sk[k := dst]
    requires FieldsMoved(r, sk[k], dst)
    ensures forall j {:trigger sk'[j].prevSkip} :: 0 <= j < |sk'| ==> sk'[j].prevSkip == At(sk', j - 1)
  {
    hide NoDuplicates;
    Replaced(r, sk, k, dst, sk');
  }

  twostate lemma RelinkedOn(r: set<LineRef>, new sk: seq<LineRef>, new ds: seq<nat>, new k: nat, new dst: LineRef,
                            new sk': seq<LineRef>)
    requires Within(sk, r) && old(SkipLinked(r, sk, ds)) && k < |sk| && dst in r && dst !in sk && sk' == sk[k := dst]
    requires FieldsMoved(r, sk[k], dst)
    ensures forall j {:trigger sk'[j].nextSkip} :: 0 <= j < |sk'| ==> sk'[j].nextSkip == At(sk', j + 1)
  {
    hide NoDuplicates;
    Replaced(r, sk, k, dst, sk');
  }

  twostate lemma RelinkedPlain(r: set<LineRef>, new sk: seq<LineRef>, new ds: seq<nat>, new k: nat, new dst: LineRef,
                               new sk': seq<LineRef>)
    requires Within(sk, r) && old(SkipLinked(r, sk, ds)) && k < |sk| && dst in r && dst !in sk && sk' == sk[k := dst]
    requires FieldsMoved(r, sk[k], dst)
    ensures forall x :: x in r && x !in sk' ==> x.IsPlain()
  {
    hide NoDuplicates;
    Replaced(r, sk, k, dst, sk');
    forall x | x in r && x !in sk'
      ensures x.IsPlain()
    {
      if x != sk[k] {
        assert x !in sk && x != dst && old(x.IsPlain());
        assert k > 0 ==> sk[k - 1] in sk;
        assert k + 1 < |sk| ==> sk[k + 1] in sk;
      }
    }
  }

  /** A plain node that takes over the fields of the k-th skip node takes over its place. */
  twostate lemma Relinked(r: set<LineRef>, new sk: seq<LineRef>, new ds: seq<nat>, new k: nat, new dst: LineRef,
                          new sk': seq<LineRef>)
    requires Within(sk, r) && old(SkipLinked(r, sk, ds)) && k < |sk| && dst in r && dst !in sk && sk' == sk[k := dst]
    requires FieldsMoved(r, sk[k], dst)
    ensures SkipLinked(r, sk', ds)
  {
    hide NoDuplicates, At;
    Replaced(r, sk, k, dst, sk');
    RelinkedBack(r, sk, ds, k, dst, sk');
    RelinkedOn(r, sk, ds, k, dst, sk');
    RelinkedPlain(r, sk, ds, k, dst, sk');
  }

  /** Everything a shift of skip looks at lies in r. */
  ghost predicate Surrounded(r: set<LineRef>, skip: LineRef)
    reads skip
  {
    skip in r && skip.prev != skip && Just(skip.prev) + Just(skip.prevSkip) + Just(skip.nextSkip) <= r
  }

  /** The m-th skip node is about to be shifted: its predecessor is there. */
  lemma BeforeShift(s: seq<LineRef>, r: set<LineRef>, sk: seq<LineRef>, ds: seq<nat>, m: nat, c: nat)
    requires NoDuplicates(s) && Linked(s, r) && SkipLinked(r, sk, ds) && Shifted(s, sk, ds, m, c) && Spaced(ds)
    requires m <= c < |ds|
    ensures Surrounded(r, sk[m]) && Within(s, r) && Within(sk, r) && 0 < ds[m] < |s| && sk[m].prev == s[ds[m] - 1]
  {
    assert sk[m] == s[ds[m]];
  }

  twostate lemma AfterShift(new s: seq<LineRef>, r: set<LineRef>, new sk: seq<LineRef>, new ds: seq<nat>, new m: nat,
                            new c: nat, new dst: LineRef)
    requires NoDuplicates(s) && Within(s, r) && Within(sk, r) && old(SkipLinked(r, sk, ds))
    requires Shifted(s, sk, ds, m, c) && Spaced(ds) && m <= c < |ds|
    requires 0 < ds[m] < |s| && dst == s[ds[m] - 1] && FieldsMoved(r, sk[m], dst)
    ensures SkipLinked(r, sk[m := dst], ds) && Shifted(s, sk[m := dst], ds, m - 1, c)
    ensures old(sk[m].prevSkip) == At(sk[m := dst], m - 1)
  {
    ShiftStep(s, sk, ds, m, c);
    Relinked(r, sk, ds, m, dst, sk[m := dst]);
  }

  // ---------- shifting when every node is a skip node ----------

  /** With skipDistance 1, the shift that starts at position p > 0, after phase steps.  The first
      step lands on a live skip node, which becomes its own neighbour and is then shifted twice. */
  ghost predicate UnitPhase(s: seq<LineRef>, r: set<LineRef>, p: nat, phase: nat, skip: LineRef?)
    reads r`depth, r`prevSkip, r`nextSkip
  {
    && 0 < p < |s| && Within(s, r) && phase <= 3 && (phase >= 2 ==> p >= 2)
    && skip == (if phase == 0 then s[p] else if phase == 3 then null else s[p - 1])
    && (if phase == 0 then s[p].depth == p && s[p].prevSkip == s[p - 1] && s[p].nextSkip == At(s, p + 1)
        else s[p].IsPlain())
    && (phase == 1 ==> s[p - 1].depth == p && s[p - 1].prevSkip == s[p - 1] && s[p - 1].nextSkip == s[p - 1])
    && (phase >= 2 ==> s[p - 1].IsPlain())
    && (phase == 3 ==> s[p - 2].IsPlain())
    && (forall i :: 0 <= i < |s| && (i < p - 2 || i > p) ==> s[i].depth == i)
  }

  lemma UnitDone(s: seq<LineRef>, r: set<LineRef>, p: nat, phase: nat)
    requires UnitPhase(s, r, p, phase, null)
    ensures phase == 3 && p >= 2
  {
  }

  lemma UnitStart(s: seq<LineRef>, r: set<LineRef>, sk: seq<LineRef>, ds: seq<nat>, p: nat)
    requires Linked(s, r) && SkipLinked(r, sk, ds) && Placed(s, sk, ds) && 0 < p < |s|
    requires |ds| == |s| && forall i :: 0 <= i < |ds| ==> ds[i] == i
    ensures sk == s && UnitPhase(s, r, p, 0, At(s, p))
  {
  }

  lemma BeforeUnitStep(s: seq<LineRef>, r: set<LineRef>, p: nat, phase: nat, skip: LineRef)
    requires NoDuplicates(s) && Linked(s, r) && UnitPhase(s, r, p, phase, skip)
    ensures Surrounded(r, skip) && Within(s, r) && phase < 3 && 0 < p && phase + 1 <= |s|
    ensures phase == 2 ==> p >= 2
    ensures skip.prev == At(s, if phase == 0 then p - 1 else p - 2)
  {
    assert skip == s[if phase == 0 then p else p - 1];
  }

  twostate lemma UnitStep(new s: seq<LineRef>, r: set<LineRef>, new p: nat, new phase: nat, new skip: LineRef,
                          new dst: LineRef)
    requires Within(s, r) && skip in r && dst in r && old(UnitPhase(s, r, p, phase, skip)) && NoDuplicates(s) && 0 < p
    requires dst == At(s, if phase == 0 then p - 1 else p - 2)
    requires FieldsMoved(r, skip, dst)
    ensures UnitPhase(s, r, p, phase + 1, old(skip.prevSkip))
  {
  }

  /** The depths such a shift from position p >= 2 leaves behind once the line has moved to the
      front: lines 1 to p-2 note one less than their position, 0, p-1 and p note nothing. */
  ghost predicate UnitMoved(s: seq<LineRef>, r: set<LineRef>, p: nat)
    reads r`depth
  {
    && 2 <= p < |s| && Within(s, r)
    && (forall i :: 0 <= i < |s| ==>
         s[i].depth == if i == 0 || i == p - 1 || i == p then -1 else if i < p then i - 1 else i)
  }

  lemma UnitRotated(s: seq<LineRef>, r: set<LineRef>, p: nat)
    requires UnitPhase(s, r, p, 3, null)
    ensures UnitMoved(Rotated(s, p), r, p)
  {
  }

  /** After it, the walk back reads one too little off for every line from 1 to p if p > 2, and is
      right everywhere if p == 2. */
  lemma {:induction false} UnitMisread(s: seq<LineRef>, r: set<LineRef>, p: nat, i: nat)
    requires UnitMoved(s, r, p) && i < |s|
    ensures WalkBack(s, r, i) == if p > 2 && 1 <= i <= p then i - 1 else i
  {
    if i == 0 || i == p - 1 || i == p {
      WalkBackTo(s, r, i, if i == 0 || p == 2 then -1 else p - 2);
    }
  }

  function IncBetween(d: seq<nat>, i: nat, j: nat): (r: seq<nat>) {
    seq(|d|, k requires 0 <= k < |d| => if i <= k < j then d[k] + 1 else d[k])
  }

  lemma IncAll(d: seq<nat>)
    ensures IncBetween(d, 0, |d|) == Inc(d)
  {
  }

  lemma IncRest(x: nat, d: seq<nat>)
    ensures IncBetween([x] + d, 1, |[x] + d|) == [x] + Inc(d)
  {
  }

  lemma IncNone(d: seq<nat>, i: nat)
    ensures IncBetween(d, i, i) == d
  {
  }

  lemma IncStep(d: seq<nat>, i: nat, m: nat)
    requires i <= m < |d|
    ensures |IncBetween(d, i, m)| == |d|
    ensures IncBetween(d, i, m)[m := IncBetween(d, i, m)[m] + 1] == IncBetween(d, i, m + 1)
  {
  }

  class LineRefList {
    var head: LineRef?
    var gate: LineRef?
    var curTime: nat
    var uniqueLines: nat
    const threshold: nat
    const skipDistance: nat
    const verifySkip: bool

    /** The list front to back, its lines as a set, and the skip nodes front to back with the
        depths they hold. */
    ghost var nodes: seq<LineRef>
    ghost var repr: set<LineRef>
    ghost var skips: seq<LineRef>
    ghost var depths: seq<nat>
    /** With threshold 0 the first move pushes the gate off the front, for good. */
    ghost var gateLost: bool

    constructor (reuseThreshold: nat, skipDist: nat, verify: bool)
      ensures Valid() && nodes == [] && repr == {} && !gateLost
      ensures threshold == reuseThreshold && skipDistance == skipDist
    {
      head, gate, curTime, uniqueLines := null, null, 0, 0;
      threshold, skipDistance, verifySkip := reuseThreshold, skipDist, verify;
      nodes, repr, skips, depths, gateLost := [], {}, [], [], false;
    }

    ghost function GatePosition(): int
      reads this
    {
      if gateLost then -1 else if |nodes| - 1 <= threshold then |nodes| - 1 else threshold
    }

    /** Everything but the skip list. */
    ghost predicate ListValid()
      reads this, repr`prev, repr`next, repr`timeStamp
    {
      && NoDuplicates(nodes)
      && Linked(nodes, repr)
      && Stamped(nodes, repr, curTime)
      && head == At(nodes, 0)
      && uniqueLines == |nodes|
      && gate == At(nodes, GatePosition())
      && (gateLost ==> threshold == 0 && nodes != [])
    }

    ghost predicate Valid()
      reads this, repr`prev, repr`next, repr`timeStamp, repr`depth, repr`prevSkip, repr`nextSkip
    {
      && ListValid()
      && depths == Depths(|nodes|, skipDistance)
      && SkipLinked(repr, skips, depths)
      && Placed(nodes, skips, depths)
    }

    predicate RefIsDistant(ref: LineRef)
      reads this, ref, gate
    {
      !(gate == null || ref.timeStamp >= gate.timeStamp)
    }

    // ---------- adding a line ----------

    method LinkAtFront(ref: LineRef)
      requires ref !in nodes && ref.prev == null
      requires NoDuplicates(nodes) && Linked(nodes, repr) && head == At(nodes, 0)
      modifies this`head, this`nodes, this`repr, repr`prev, ref`next
      ensures nodes == [ref] + old(nodes) && repr == old(repr) + {ref}
      ensures NoDuplicates(nodes) && Linked(nodes, repr) && head == ref
    {
      ref.next := head;
      if head != null {
        head.prev := ref;
      }
      head := ref;
      nodes := [ref] + nodes;
      repr := repr + {ref};
    }

    /** Gives the new head the current time. */
    method StampHead()
      requires nodes != [] && NoDuplicates(nodes) && Within(nodes, repr) && head == nodes[0]
      requires forall i :: 1 <= i < |nodes| ==> nodes[i].timeStamp < curTime
      requires forall i, j :: 1 <= i < j < |nodes| ==> nodes[j].timeStamp < nodes[i].timeStamp
      modifies this`curTime, head`timeStamp
      ensures Stamped(nodes, repr, curTime)
    {
      head.timeStamp := curTime;
      curTime := curTime + 1;
    }

    /** Keeps the gate on the earliest line within the threshold after a line was added. */
    method AdvanceGate()
      requires nodes != [] && Linked(nodes, repr) && head == nodes[0] && uniqueLines == |nodes| - 1
      requires gate == if gateLost || |nodes| == 1 then null
                       else if |nodes| - 2 <= threshold then nodes[|nodes| - 1] else nodes[threshold + 1]
      requires gateLost ==> threshold == 0 && |nodes| > 1
      modifies this`gate, this`uniqueLines
      ensures gate == At(nodes, GatePosition()) && uniqueLines == |nodes|
    {
      if gate == null {
        gate := head;
      }
      if uniqueLines > threshold {
        gate := gate.prev;
      }
      uniqueLines := uniqueLines + 1;
    }

    /** Links ref in as the new head and settles gate, counter and time stamp. */
    method InsertLine(ref: LineRef)
      requires ListValid() && ref !in repr && ref.prev == null
      modifies this`head, this`gate, this`curTime, this`uniqueLines, this`nodes, this`repr
      modifies repr`prev, ref`next, ref`timeStamp
      ensures ListValid() && nodes == [ref] + old(nodes) && repr == old(repr) + {ref}
    {
      LinkAtFront(ref);
      AdvanceGate();
      StampHead();
    }

    /** Walks from the head to the first skip node, at position front, remembering the
        skipDistance-th node on the way. */
    method ScanFront(ghost front: nat) returns (count: nat, node: LineRef?, skip: LineRef?)
      requires Linked(nodes, repr) && head == At(nodes, 0) && front <= |nodes|
      requires forall i :: 0 <= i < front ==> nodes[i].depth == -1
      requires front < |nodes| ==> nodes[front].depth != -1
      ensures count == front && node == At(nodes, front)
      ensures skip == if skipDistance <= front then At(nodes, skipDistance - 1) else null
    {
      count, node, skip := 0, head, null;
      while node != null && node.depth == -1
        invariant count <= front && node == At(nodes, count)
        invariant skip == if skipDistance <= count then At(nodes, skipDistance - 1) else null
        decreases front - count
      {
        count := count + 1;
        if count == skipDistance {
          skip := node;
        }
        node := node.next;
      }
    }

    /** Turns a plain node in front of all skip nodes into the first skip node. */
    method OpenSkip(skip: LineRef, node: LineRef?, ghost ds: seq<nat>)
      requires SkipLinked(repr, skips, ds) && skip in repr && skip !in skips
      requires node == At(skips, 0) && skipDistance > 0
      modifies this`skips, repr`depth, repr`prevSkip, repr`nextSkip
      ensures skips == [skip] + old(skips)
      ensures SkipLinked(repr, skips, [skipDistance - 1] + ds)
    {
      skip.depth := skipDistance - 1;
      if node != null {
        assert node.prevSkip == null;
        node.prevSkip := skip;
      }
      skip.nextSkip := node;
      assert skip.prevSkip == null;
      skips := [skip] + skips;
    }

    method Deepen(node: LineRef, ghost k: nat, ghost ds: seq<nat>)
      requires SkipLinked(repr, skips, ds) && k < |skips| && node == skips[k]
      modifies node`depth
      ensures SkipLinked(repr, skips, ds[k := ds[k] + 1])
    {
      node.depth := node.depth + 1;
    }

    /** Increments the depth of node and of every skip node behind it. */
    method DeepenSkips(node: LineRef?, ghost first: nat, ghost ds: seq<nat>) returns (ghost touched: nat)
      requires SkipLinked(repr, skips, ds) && first <= |skips| && node == At(skips, first)
      modifies repr`depth
      ensures SkipLinked(repr, skips, IncBetween(ds, first, |ds|)) && touched == |ds| - first
    {
      hide SkipLinked, IncBetween;
      var cur := node;
      ghost var m := first;
      touched := 0;
      IncNone(ds, first);
      SkipsWithin(repr, skips, ds);
      while cur != null
        invariant first <= m <= |skips| && cur == At(skips, m) && touched == m - first
        invariant SkipLinked(repr, skips, IncBetween(ds, first, m))
        decreases |skips| - m
      {
        assert cur == skips[m];
        IncStep(ds, first, m);
        Deepen(cur, m, IncBetween(ds, first, m));
        NextSkip(repr, skips, IncBetween(ds, first, m + 1), m);
        cur := cur.nextSkip;
        m, touched := m + 1, touched + 1;
      }
    }

    /** The skip list after a line was added behind which no new skip node is due. */
    method ShiftDepths(node: LineRef?, ghost d: seq<nat>) returns (ghost touched: nat)
      requires SkipLinked(repr, skips, d) && Placed(nodes, skips, Inc(d)) && node == At(skips, 0)
      modifies repr`depth
      ensures SkipLinked(repr, skips, Inc(d)) && touched == |d|
    {
      IncAll(d);
      hide SkipLinked, Placed, Inc, IncBetween;
      touched := DeepenSkips(node, 0, d);
    }

    /** The skip list after a line was added that makes a new skip node due at skipDistance-1. */
    method OpenAndShiftDepths(skip: LineRef, node: LineRef?, ghost d: seq<nat>) returns (ghost touched: nat)
      requires 0 < skipDistance <= |nodes| && NoDuplicates(nodes) && skip == nodes[skipDistance - 1] && skip in repr
      requires SkipLinked(repr, skips, d) && Placed(nodes, skips, Inc(d)) && node == At(skips, 0)
      requires skipDistance - 1 !in Inc(d)
      modifies this`skips, repr`depth, repr`prevSkip, repr`nextSkip
      ensures skips == [skip] + old(skips)
      ensures SkipLinked(repr, skips, [skipDistance - 1] + Inc(d)) && touched == |d| + 1
    {
      SkipAt(nodes, skips, Inc(d), skipDistance - 1);
      IncRest(skipDistance - 1, d);
      hide SkipLinked, Placed, NoDuplicates, Inc, IncBetween;
      OpenSkip(skip, node, d);
      touched := DeepenSkips(node, 1, [skipDistance - 1] + d);
      touched := touched + 1;
    }

    /** Opens a new skip node when the front stretch of plain nodes is long enough, then deepens
        the old ones. */
    method UpdateSkips(ghost front: nat, ghost d: seq<nat>, ghost d': seq<nat>)
      returns (ghost steps: nat, ghost touched: nat)
      requires NoDuplicates(nodes) && Linked(nodes, repr) && head == At(nodes, 0) && front <= |nodes|
      requires SkipLinked(repr, skips, d) && Placed(nodes, skips, Inc(d))
      requires front == if d == [] then |nodes| else d[0] + 1
      requires forall k :: 0 <= k < |d| ==> front <= Inc(d)[k]
      requires skipDistance > 0 ==> front <= 2 * skipDistance - 1
      requires if skipDistance > 0 && front == 2 * skipDistance - 1
               then skipDistance - 1 !in Inc(d) && d' == [skipDistance - 1] + Inc(d)
               else d' == Inc(d)
      modifies this`skips, repr`depth, repr`prevSkip, repr`nextSkip
      ensures SkipLinked(repr, skips, d') && Placed(nodes, skips, d') && steps == front && touched == |d'|
    {
      hide SkipLinked, Placed, NoDuplicates;
      FrontIs(nodes, repr, skips, d, front);
      var count, node, skip := ScanFront(front);
      steps := count;
      // 2 * 0 - 1 wraps to the largest unsigned value in the source, which no count reaches
      if skipDistance != 0 && count >= 2 * skipDistance - 1 {
        assert skip != null;
        PlacedInFront(nodes, skips, Inc(d), skipDistance - 1);
        touched := OpenAndShiftDepths(skip, node, d);
      } else {
        touched := ShiftDepths(node, d);
      }
    }

    /** Links ref in; the skip nodes have moved one position back but still hold their old depths. */
    method InsertPlain(ref: LineRef, ghost d: seq<nat>)
      requires ListValid() && ref !in repr && ref.prev == null && ref.IsPlain()
      requires SkipLinked(repr, skips, d) && Placed(nodes, skips, d)
      modifies this`head, this`gate, this`curTime, this`uniqueLines, this`nodes, this`repr
      modifies repr`prev, ref`next, ref`timeStamp
      ensures ListValid() && nodes == [ref] + old(nodes) && repr == old(repr) + {ref}
      ensures SkipLinked(repr, skips, d) && Placed(nodes, skips, Inc(d))
    {
      PlainInFront(nodes, repr, ref, skips, d);
      InsertLine(ref);
    }

    /** Brings the skip list up to date after a line was linked in. */
    method RefreshSkips() returns (ghost steps: nat, ghost touched: nat)
      requires nodes != [] && NoDuplicates(nodes) && Linked(nodes, repr) && head == At(nodes, 0)
      requires depths == Depths(|nodes| - 1, skipDistance)
      requires SkipLinked(repr, skips, depths) && Placed(nodes, skips, Inc(depths))
      modifies this`skips, this`depths, repr`depth, repr`prevSkip, repr`nextSkip
      ensures depths == Depths(|nodes|, skipDistance)
      ensures SkipLinked(repr, skips, depths) && Placed(nodes, skips, depths)
      ensures skipDistance > 0 ==> steps <= 2 * skipDistance - 1
      ensures FewSkips(touched, |nodes|, skipDistance)
    {
      hide SkipLinked, Placed, Linked;
      ghost var front := FrontStretch(|nodes| - 1, skipDistance);
      ghost var d := depths;
      depths := Depths(|nodes|, skipDistance);
      steps, touched := UpdateSkips(front, d, depths);
      FewSkipsOf(|nodes|, skipDistance);
    }

    /** Adds a new line at the front of the list; the scan for the first skip node visits at most
        2 * skipDistance - 1 nodes, however long the list is, and at most (n + 1) / skipDistance skip
        nodes are opened or deepened. */
    method AddToFront(ref: LineRef) returns (ghost steps: nat, ghost touched: nat)
      requires Valid() && ref !in repr && ref.prev == null && ref.IsPlain()
      modifies this`head, this`gate, this`curTime, this`uniqueLines
      modifies this`nodes, this`repr, this`skips, this`depths
      modifies repr`prev, repr`depth, repr`prevSkip, repr`nextSkip
      modifies ref`next, ref`timeStamp, ref`depth, ref`prevSkip, ref`nextSkip
      ensures Valid() && nodes == [ref] + old(nodes) && repr == old(repr) + {ref}
      ensures skipDistance > 0 ==> steps <= 2 * skipDistance - 1
      ensures FewSkips(touched, |nodes|, skipDistance)
    {
      hide SkipLinked, Placed, Stamped;
      InsertPlain(ref, depths);
      steps, touched := RefreshSkips();
    }

    // ---------- moving a line ----------

    /** Hands the skip-list fields of src over to dst. */
    method MoveSkipFields(src: LineRef, dst: LineRef, ghost r: set<LineRef>)
      requires src != dst
      modifies src`prevSkip, src`nextSkip, src`depth, dst`prevSkip, dst`nextSkip, dst`depth
      modifies Just(src.prevSkip)`nextSkip, Just(src.nextSkip)`prevSkip
      ensures FieldsMoved(r, src, dst)
    {
      dst.prevSkip := src.prevSkip;
      dst.nextSkip := src.nextSkip;
      dst.depth := src.depth;
      if src.prevSkip != null {
        src.prevSkip.nextSkip := dst;
      }
      if src.nextSkip != null {
        src.nextSkip.prevSkip := dst;
      }
      src.prevSkip := null;
      src.nextSkip := null;
      src.depth := -1;
    }

    /** Walks back from ref, at position p, to the nearest skip node, at position q (-1: there is
        none), and takes the depth noted there. */
    method Measure(ref: LineRef, ghost p: nat, ghost q: int) returns (dist: int, skip: LineRef?, ghost steps: nat)
      requires p < |nodes| && nodes[p] == ref && Linked(nodes, repr) && -1 <= q <= p
      requires forall i :: q < i <= p ==> nodes[i].depth == -1
      requires q >= 0 ==> nodes[q].depth != -1
      ensures dist == WalkBack(nodes, repr, p) && skip == At(nodes, q) && steps == p - q
    {
      WalkBackTo(nodes, repr, p, q);
      dist, skip, steps := 0, ref, 0;
      while skip != null && skip.depth == -1
        invariant q <= p - steps && skip == At(nodes, p - steps) && dist == steps
        decreases p - steps
      {
        dist := dist + 1;
        steps := steps + 1;
        skip := skip.prev;
      }
      if skip != null {
        dist := dist + skip.depth;
      } else {
        dist := dist - 1;
      }
    }

    /** Measures ref and compares with a full walk if asked to. */
    method MeasureChecked(ref: LineRef, ghost p: nat, ghost c: int)
      returns (dist: int, skip: LineRef?, ghost steps: nat)
      requires p < |nodes| && nodes[p] == ref && NoDuplicates(nodes) && Linked(nodes, repr) && head == At(nodes, 0)
      requires SkipLinked(repr, skips, depths) && Placed(nodes, skips, depths)
      requires Nearest(depths, p, c)
      ensures dist == p && skip == At(skips, c) && (skip == null ==> ref.depth == -1)
      ensures steps == if c < 0 then p + 1 else p - depths[c]
    {
      PlainBetween(nodes, repr, skips, depths, p, c);
      ghost var q := if c < 0 then -1 else depths[c];
      WalkBackTo(nodes, repr, p, q);
      assert c >= 0 ==> nodes[q] == skips[c] && skips[c].depth == q;
      dist, skip, steps := Measure(ref, p, q);
      if verifySkip {
        var bruteDist := BruteDistance(ref, p);
        assert bruteDist == dist;
      }
    }

    /** Shifts one skip node towards the head; ok is whether it has a predecessor, as the source
        asserts. */
    method ShiftSkip(skip: LineRef, ghost r: set<LineRef>) returns (ok: bool, next: LineRef?)
      requires skip.prev != skip
      modifies skip`prevSkip, skip`nextSkip, skip`depth
      modifies Just(skip.prev)`prevSkip, Just(skip.prev)`nextSkip, Just(skip.prev)`depth
      modifies Just(skip.prevSkip)`nextSkip, Just(skip.nextSkip)`prevSkip
      ensures next == old(skip.prevSkip) && ok == (skip.prev != null)
      ensures ok ==> FieldsMoved(r, skip, skip.prev)
    {
      next := skip.prevSkip;
      ok := skip.prev != null;
      if ok {
        MoveSkipFields(skip, skip.prev, r);
      }
    }

    /** Shifts the skip nodes from first to the head one node towards the head each.  When skip
        positions are spaced, this leaves their depths right once a line behind them has moved to
        the front.  When every node is a skip node it stops after three nodes, or fails at the
        head. */
    method ShiftSkips(first: LineRef?, ghost s: seq<LineRef>, ghost r: set<LineRef>, ghost sk: seq<LineRef>,
                      ghost ds: seq<nat>, ghost p: nat, ghost c: int)
      returns (ok: bool, ghost sk': seq<LineRef>, ghost touched: nat)
      requires NoDuplicates(s) && Linked(s, r)
      requires SkipLinked(r, sk, ds) && Placed(s, sk, ds) && Nearest(ds, p, c)
      requires first == At(sk, c)
      requires Spaced(ds) || (c == p > 0 && |ds| == |s| && forall i :: 0 <= i < |ds| ==> ds[i] == i)
      modifies r`depth, r`prevSkip, r`nextSkip
      ensures touched <= |ds|
      ensures Spaced(ds) ==> ok && touched == c + 1 && SkipLinked(r, sk', ds) && Shifted(s, sk', ds, -1, c)
      ensures !Spaced(ds) ==> 0 < p < |s| && (ok <==> p >= 2) && (ok ==> UnitPhase(s, r, p, 3, null))
    {
      hide SkipLinked, Shifted, Placed, Linked, Within, NoDuplicates, Spaced, UnitPhase, FieldsMoved;
      if Spaced(ds) {
        ShiftStart(s, sk, ds, c);
      } else {
        UnitStart(s, r, sk, ds, p);
      }
      var skip := first;
      ghost var m := c;
      ok, sk', touched := true, sk, 0;
      while skip != null
        invariant ok && touched <= |ds|
        invariant Spaced(ds) ==> -1 <= m <= c && |sk'| == |ds| && skip == At(sk', m) && touched == c - m
        invariant Spaced(ds) ==> SkipLinked(r, sk', ds) && Shifted(s, sk', ds, m, c)
        invariant !Spaced(ds) ==> UnitPhase(s, r, p, touched, skip)
        decreases if Spaced(ds) then m + 1 else 3 - touched
      {
        if Spaced(ds) {
          BeforeShift(s, r, sk', ds, m, c);
        } else {
          BeforeUnitStep(s, r, p, touched, skip);
        }
        label before:
        var next;
        ok, next := ShiftSkip(skip, r);
        if !ok {
          touched := touched + 1;
          return;
        }
        if Spaced(ds) {
          AfterShift@before(s, r, sk', ds, m, c, skip.prev);
          sk', m := sk'[m := skip.prev], m - 1;
        } else {
          UnitStep@before(s, r, p, touched, skip, skip.prev);
        }
        touched := touched + 1;
        skip := next;
      }
      if !Spaced(ds) {
        UnitDone(s, r, p, touched);
      }
    }

    /** Where the line is now that the gate must be on once position p has moved to the front. */
    ghost function GateBeforeMove(p: nat): int
      reads this
    {
      if p < GatePosition() then GatePosition() else GatePosition() - 1
    }

    /** Counts a distant reference and pulls the gate one line forward when ref is at or behind it. */
    method MoveGate(ref: LineRef, ghost p: nat)
      requires ListValid() && 0 < p < |nodes| && nodes[p] == ref
      modifies this`gate, this`gateLost, ref`distantRefs
      ensures ref.distantRefs == old(ref.distantRefs) + if p > threshold && !old(gateLost) then 1 else 0
      ensures gateLost == (old(gateLost) || threshold == 0)
      ensures gate == At(nodes, GateBeforeMove(p))
    {
      if RefIsDistant(ref) {
        ref.distantRefs := ref.distantRefs + 1;
        gate := gate.prev;
      } else if ref == gate {
        gate := gate.prev;
      }
      gateLost := gateLost || threshold == 0;
    }

    /** Takes ref out of the list. */
    method Unlink(ref: LineRef, ghost p: nat)
      requires NoDuplicates(nodes) && Linked(nodes, repr) && 0 < p < |nodes| && nodes[p] == ref
      modifies this`nodes, repr`prev, repr`next
      ensures nodes == old(nodes[..p] + nodes[p + 1..])
      ensures NoDuplicates(nodes) && Linked(nodes, repr) && ref !in nodes
    {
      var prev := ref.prev;
      var next := ref.next;
      prev.next := next;
      if next != null {
        next.prev := prev;
      }
      nodes := nodes[..p] + nodes[p + 1..];
    }

    /** Moves ref from position p to the front. */
    method Relink(ref: LineRef, ghost p: nat)
      requires NoDuplicates(nodes) && Linked(nodes, repr) && head == At(nodes, 0)
      requires 0 < p < |nodes| && nodes[p] == ref
      modifies this`head, this`nodes, this`repr, repr`prev, repr`next
      ensures nodes == Rotated(old(nodes), p) && repr == old(repr)
      ensures NoDuplicates(nodes) && Linked(nodes, repr) && head == ref
    {
      Unlink(ref, p);
      ref.prev := null;
      LinkAtFront(ref);
      assert repr == old(repr);
    }

    /** The reuse distance by a full walk from the head: the source's optional sanity check. */
    method BruteDistance(ref: LineRef, ghost p: nat) returns (bruteDist: nat)
      requires NoDuplicates(nodes) && Linked(nodes, repr) && head == At(nodes, 0)
      requires p < |nodes| && nodes[p] == ref
      ensures bruteDist == p
    {
      bruteDist := 0;
      var walk := head;
      while walk != ref
        invariant bruteDist <= p && walk == nodes[bruteDist]
        decreases p - bruteDist
      {
        bruteDist := bruteDist + 1;
        walk := walk.next;
      }
    }

    /** Measures ref and shifts the skip nodes in front of it, leaving the list itself alone. */
    method MeasureAndShift(ref: LineRef, ghost p: nat, ghost c: int)
      returns (ok: bool, dist: int, ghost steps: nat, ghost touched: nat)
      requires 0 < p < |nodes| && nodes[p] == ref
      requires NoDuplicates(nodes) && Linked(nodes, repr) && head == At(nodes, 0)
      requires SkipLinked(repr, skips, depths) && Placed(nodes, skips, depths)
      requires depths == Depths(|nodes|, skipDistance) && Nearest(depths, p, c)
      modifies this`skips, repr`depth, repr`prevSkip, repr`nextSkip
      ensures dist == p && steps == (if c < 0 then p + 1 else p - depths[c]) && touched <= |depths|
      ensures ok <==> skipDistance != 1 || p >= 2
      ensures skipDistance != 1 ==> SkipLinked(repr, skips, depths) && Placed(Rotated(nodes, p), skips, depths)
      ensures skipDistance == 1 && ok ==> UnitMoved(Rotated(nodes, p), repr, p)
    {
      hide SkipLinked, Linked, NoDuplicates, UnitPhase, Depths, Spaced, UnitMoved;
      SpacedIff(|nodes|, skipDistance);
      if skipDistance == 1 {
        UnitDepths(|nodes|);
        assert depths[p] == p;
      }
      var skip;
      dist, skip, steps := MeasureChecked(ref, p, c);
      ok, touched := true, 0;
      if skip != null {
        ok, skips, touched := ShiftSkips(skip, nodes, repr, skips, depths, p, c);
      } else {
        assert ref.depth == -1;
      }
      if skipDistance != 1 {
        ShiftedIsPlaced(nodes, skips, depths, p, c);
      } else if ok {
        UnitRotated(nodes, repr, p);
      }
    }

    /** Rotates the list and stamps the new head. */
    method RotateLine(ref: LineRef, ghost p: nat)
      requires NoDuplicates(nodes) && Linked(nodes, repr) && Stamped(nodes, repr, curTime)
      requires 0 < p < |nodes| && nodes[p] == ref && head == At(nodes, 0) && uniqueLines == |nodes|
      requires gate == At(nodes, GateBeforeMove(p)) && (gateLost <==> threshold == 0)
      modifies this`head, this`curTime, this`nodes, this`repr
      modifies repr`prev, repr`next, ref`timeStamp
      ensures ListValid() && nodes == Rotated(old(nodes), p) && repr == old(repr)
    {
      RotatedStamps(nodes, repr, curTime, p);
      assert At(nodes, GateBeforeMove(p)) == At(Rotated(nodes, p), GatePosition());
      Relink(ref, p);
      StampHead();
    }

    /** The distance, the skip list and the list itself once the gate is settled. */
    method ShiftAndRotate(ref: LineRef, ghost p: nat, ghost c: int)
      returns (ok: bool, dist: int, ghost steps: nat, ghost touched: nat)
      requires NoDuplicates(nodes) && Linked(nodes, repr) && Stamped(nodes, repr, curTime)
      requires 0 < p < |nodes| && nodes[p] == ref && head == At(nodes, 0) && uniqueLines == |nodes|
      requires gate == At(nodes, GateBeforeMove(p)) && (gateLost <==> threshold == 0)
      requires SkipLinked(repr, skips, depths) && Placed(nodes, skips, depths)
      requires depths == Depths(|nodes|, skipDistance) && Nearest(depths, p, c)
      modifies this`head, this`curTime, this`nodes, this`repr, this`skips
      modifies repr`prev, repr`next, repr`depth, repr`prevSkip, repr`nextSkip, ref`timeStamp
      ensures dist == p && steps == (if c < 0 then p + 1 else p - depths[c]) && touched <= |depths|
      ensures ok <==> skipDistance != 1 || p >= 2
      ensures ok ==> ListValid() && nodes == Rotated(old(nodes), p) && repr == old(repr)
      ensures skipDistance != 1 ==> SkipLinked(repr, skips, depths) && Placed(nodes, skips, depths)
      ensures skipDistance == 1 && ok ==> UnitMoved(nodes, repr, p)
    {
      hide SkipLinked, Placed, Linked, Stamped, Nearest, Depths, UnitMoved;
      ok, dist, steps, touched := MeasureAndShift(ref, p, c);
      if ok {
        RotateLine(ref, p);
      }
    }

    method MoveFromBehind(ref: LineRef, ghost p: nat)
      returns (ok: bool, dist: int, ghost steps: nat, ghost touched: nat)
      requires Valid() && 0 < p < |nodes| && nodes[p] == ref
      modifies this`head, this`gate, this`curTime
      modifies this`nodes, this`repr, this`skips, this`gateLost
      modifies repr`prev, repr`next, repr`depth, repr`prevSkip, repr`nextSkip
      modifies ref`timeStamp, ref`distantRefs
      ensures dist == p && (ok <==> skipDistance != 1 || p >= 2)
      ensures ok ==> ListValid() && nodes == Rotated(old(nodes), p) && repr == old(repr)
      ensures ref.distantRefs == old(ref.distantRefs) + if p > threshold && !old(gateLost) then 1 else 0
      ensures gateLost == (old(gateLost) || threshold == 0)
      ensures skipDistance != 1 ==> Valid()
      ensures skipDistance == 1 && ok ==> UnitMoved(nodes, repr, p)
      ensures skipDistance > 0 ==> steps <= 2 * skipDistance - 2
      ensures FewSkips(touched, |old(nodes)|, skipDistance)
    {
      hide SkipLinked, Placed, Linked, Stamped, Nearest, Depths, UnitMoved, FewSkips;
      MoveGate(ref, p);
      ghost var c := NearestSkip(|nodes|, skipDistance, p);
      FewSkipsOf(|nodes|, skipDistance);
      ok, dist, steps, touched := ShiftAndRotate(ref, p, c);
      assert ok ==> ListValid();
    }

    /** Moves a referenced line to the front and returns its reuse distance, which is its position.
        The walk to the nearest skip node takes at most 2 * skipDistance - 2 steps, and at most
        (n + 1) / skipDistance skip nodes are touched.  With skipDistance 1 only a move of the head
        keeps the skip list: the source's assertion fails at position 1 (not ok), and from
        position 2 on the noted depths come out as UnitMoved says. */
    method MoveToFront(ref: LineRef) returns (ok: bool, dist: int, ghost steps: nat, ghost touched: nat)
      requires Valid() && ref in nodes
      modifies this, repr`prev, repr`next, repr`depth, repr`prevSkip, repr`nextSkip
      modifies ref`timeStamp, ref`totalRefs, ref`distantRefs
      ensures 0 <= dist < |old(nodes)| && old(nodes)[dist] == ref
      ensures ok <==> skipDistance != 1 || dist != 1
      ensures ok ==> ListValid() && nodes == Rotated(old(nodes), dist) && repr == old(repr)
      ensures skipDistance != 1 || dist == 0 ==> Valid()
      ensures skipDistance == 1 && dist >= 2 ==> UnitMoved(nodes, repr, dist)
      ensures ref.totalRefs == old(ref.totalRefs) + 1
      ensures ref.distantRefs == old(ref.distantRefs) + if dist > threshold && !old(gateLost) then 1 else 0
      ensures gateLost == (old(gateLost) || (threshold == 0 && dist > 0))
      ensures skipDistance > 0 ==> steps <= 2 * skipDistance - 2
      ensures FewSkips(touched, |old(nodes)|, skipDistance)
    {
      hide SkipLinked, Placed, Linked, Stamped, UnitMoved, FewSkips;
      ref.totalRefs := ref.totalRefs + 1;
      ghost var p :| 0 <= p < |nodes| && nodes[p] == ref;
      if ref == head {
        assert p == 0 && Rotated(nodes, 0) == nodes;
        assert Valid();
        FewSkipsOf(|nodes|, skipDistance);
        return true, 0, 0, 0;
      }
      ok, dist, steps, touched := MoveFromBehind(ref, p);
      assert ok ==> ListValid();
    }
  }

  // ---------- what the invariant says ----------

  /** A node's depth is its list position where the layout for this length keeps a skip node, and
      -1 elsewhere: the depths by position depend on the length and skipDistance alone. */
  lemma DepthByPosition(l: LineRefList, i: nat)
    requires l.Valid() && i < |l.nodes|
    ensures l.nodes[i].depth == if i in Depths(|l.nodes|, l.skipDistance) then i else -1
    ensures l.nodes[i].depth == -1 ==> l.nodes[i].IsPlain()
  {
    SkipAt(l.nodes, l.skips, l.depths, i);
    if i in l.depths {
      var k :| 0 <= k < |l.depths| && l.depths[k] == i;
      assert l.skips[k] == l.nodes[i];
    }
  }

  /** Skip nodes keep skipDistance-1 nodes in front of them and skipDistance behind them; their skip
      links lead to the nodes exactly skipDistance positions before and behind. */
  lemma SkipLinksByPosition(l: LineRefList, i: nat)
    requires l.Valid() && i < |l.nodes| && l.nodes[i].depth != -1
    ensures l.skipDistance - 1 <= i <= |l.nodes| - l.skipDistance
    ensures l.nodes[i].prevSkip == if i >= 2 * l.skipDistance - 1 then l.nodes[i - l.skipDistance] else null
    ensures l.nodes[i].nextSkip == if i + 2 * l.skipDistance <= |l.nodes| then l.nodes[i + l.skipDistance] else null
  {
    DepthByPosition(l, i);
    var k :| 0 <= k < |l.depths| && l.depths[k] == i;
    DepthNeighbours(|l.nodes|, l.skipDistance, k);
    hide Linked, Stamped, Depths, LineRefList.ListValid;
    assert l.skips[k] == l.nodes[i];
    assert k > 0 ==> l.skips[k - 1] == l.nodes[l.depths[k - 1]];
    assert k < |l.depths| - 1 ==> l.skips[k + 1] == l.nodes[l.depths[k + 1]];
  }

  /** A skip node about to be shifted meets a live skip node in front of it exactly when
      skipDistance is 1; that node is then also its neighbour in the skip list. */
  lemma {:induction false} ShiftMeetsSkipIff(l: LineRefList, i: nat)
    requires l.Valid() && 0 < i < |l.nodes| && l.nodes[i].depth != -1
    ensures l.nodes[i].prev == l.nodes[i - 1]
    ensures l.nodes[i - 1].depth != -1 <==> l.skipDistance == 1
    ensures l.skipDistance == 1 ==> l.nodes[i].prevSkip == l.nodes[i].prev
  {
    DepthByPosition(l, i);
    DepthByPosition(l, i - 1);
    DepthsSpread(|l.nodes|, l.skipDistance);
    SkipLinksByPosition(l, i);
    if l.skipDistance == 1 {
      UnitDepths(|l.nodes|);
      assert Depths(|l.nodes|, 1)[i - 1] == i - 1;
    }
  }

  /** The depths left by a move from position 2 or behind with skipDistance 1 are no valid list's. */
  lemma UnitMoveBreaks(l: LineRefList, p: nat)
    requires l.ListValid() && l.skipDistance == 1 && UnitMoved(l.nodes, l.repr, p)
    ensures !l.Valid()
  {
    if l.Valid() {
      DepthByPosition(l, 0);
      HeadIsSkipIff(|l.nodes|, 1);
    }
  }

  /** The O(1) time-stamp test is true exactly when the gate is on the list and the line lies
      deeper than the threshold. */
  lemma RefIsDistantIff(l: LineRefList, p: nat)
    requires l.ListValid() && p < |l.nodes|
    ensures l.RefIsDistant(l.nodes[p]) <==> !l.gateLost && p > l.threshold
  {
  }
}
