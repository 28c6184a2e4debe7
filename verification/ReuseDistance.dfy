/**
 The public stack-distance engine (dynamorio_client/reuse_distance.cpp): a map from tags to list
 nodes in front of the most-recent-first list, proved to compute the distance of the plain
 trace definition.
 */
module ReuseEngine {
  import opened Common
  import opened StackDistance
  import Impl = ReuseDistanceImpl

  /** The list is the trace's most-recent-first order, and the map finds every line's own node. */
  ghost predicate Indexed(nodes: seq<Impl.LineRef>, r: set<Impl.LineRef>, cacheMap: map<Tag, Impl.LineRef>,
                          tr: seq<Tag>) {
    && |nodes| == |Mru(tr)|
    && (forall i :: 0 <= i < |nodes| ==> nodes[i] in r && nodes[i].tag == Mru(tr)[i])
    && (forall x :: x in r ==> x.tag in cacheMap && cacheMap[x.tag] == x)
    && cacheMap.Keys == Elements(tr)
  }

  /** Every line's counters say how often, and how often distantly, it was referenced. */
  ghost predicate Counted(r: set<Impl.LineRef>, tr: seq<Tag>, threshold: nat)
    reads r`totalRefs, r`distantRefs
  {
    forall x :: x in r ==>
      && x.totalRefs == multiset(tr)[x.tag]
      && x.distantRefs == |CountedRefs(tr, x.tag, threshold)|
  }

  /** The map finds the line of every tag of the trace in the list. */
  lemma FindLine(nodes: seq<Impl.LineRef>, r: set<Impl.LineRef>, cacheMap: map<Tag, Impl.LineRef>, tr: seq<Tag>, t: Tag)
    requires Indexed(nodes, r, cacheMap, tr)
    ensures t in cacheMap <==> t in tr
    ensures t in cacheMap ==> cacheMap[t] in nodes && cacheMap[t] in r && cacheMap[t].tag == t
  {
    assert t in cacheMap <==> t in cacheMap.Keys;
    MruElements(tr);
    if t in tr {
      var p := IndexOf(Mru(tr), t);
      assert nodes[p].tag == t;
      assert cacheMap[t] == nodes[p];
    }
  }

  lemma IndexedAdd(nodes: seq<Impl.LineRef>, r: set<Impl.LineRef>, cacheMap: map<Tag, Impl.LineRef>, tr: seq<Tag>,
                   ref: Impl.LineRef)
    requires Indexed(nodes, r, cacheMap, tr) && ref.tag !in cacheMap && ref !in r
    ensures Indexed([ref] + nodes, r + {ref}, cacheMap[ref.tag := ref], tr + [ref.tag])
    ensures ref.tag !in tr
  {
    FindLine(nodes, r, cacheMap, tr, ref.tag);
    MruAdd(tr, ref.tag);
    assert Elements(tr + [ref.tag]) == Elements(tr) + {ref.tag};
  }

  lemma IndexedMove(nodes: seq<Impl.LineRef>, r: set<Impl.LineRef>, cacheMap: map<Tag, Impl.LineRef>, tr: seq<Tag>,
                    p: nat)
    requires Indexed(nodes, r, cacheMap, tr) && p < |nodes|
    ensures Indexed(Rotated(nodes, p), r, cacheMap, tr + [nodes[p].tag])
    ensures p == Distance(tr, nodes[p].tag)
  {
    hide Mru, Distance;
    MruMove(tr, p);
    assert Elements(tr + [nodes[p].tag]) == Elements(tr);
  }

  /** A reference to a tag leaves the counters of all other lines right. */
  lemma CountedOthers(r: set<Impl.LineRef>, tr: seq<Tag>, tag: Tag, threshold: nat)
    requires Counted(r, tr, threshold) && forall x :: x in r ==> x.tag != tag
    ensures Counted(r, tr + [tag], threshold)
  {
    forall x | x in r
      ensures x.distantRefs == |CountedRefs(tr + [tag], x.tag, threshold)|
    {
      CountedStep(tr, tag, x.tag, threshold);
    }
  }

  /** All counters, with those of a line that has just been referenced for the first time. */
  lemma CountedAdd(r: set<Impl.LineRef>, ref: Impl.LineRef, tr: seq<Tag>, threshold: nat)
    requires Counted(r, tr, threshold) && forall x :: x in r ==> x.tag != ref.tag
    requires ref.tag !in tr && ref.totalRefs == 1 && ref.distantRefs == 0
    ensures Counted(r + {ref}, tr + [ref.tag], threshold)
  {
    CountedOthers(r, tr, ref.tag, threshold);
    CountedStep(tr, ref.tag, ref.tag, threshold);
    assert CountedRefs(tr, ref.tag, threshold) == {};
  }

  /** What a reference to the line's own tag must add to its counters. */
  lemma {:induction false} CountedReference(r: set<Impl.LineRef>, ref: Impl.LineRef, tr: seq<Tag>, threshold: nat)
    requires Counted(r, tr, threshold) && ref in r
    ensures multiset(tr + [ref.tag])[ref.tag] == ref.totalRefs + 1
    ensures |CountedRefs(tr + [ref.tag], ref.tag, threshold)| ==
            ref.distantRefs + if Distance(tr, ref.tag) > threshold && !GateLost(tr, threshold) then 1 else 0
  {
    CountedStep(tr, ref.tag, ref.tag, threshold);
  }

  lemma CountedWith(r: set<Impl.LineRef>, ref: Impl.LineRef, tr: seq<Tag>, threshold: nat)
    requires Counted(r - {ref}, tr, threshold) && ref in r
    requires ref.totalRefs == multiset(tr)[ref.tag]
    requires ref.distantRefs == |CountedRefs(tr, ref.tag, threshold)|
    ensures Counted(r, tr, threshold)
  {
  }

  lemma OtherTags(nodes: seq<Impl.LineRef>, r: set<Impl.LineRef>, cacheMap: map<Tag, Impl.LineRef>, tr: seq<Tag>,
                  ref: Impl.LineRef, threshold: nat)
    requires Indexed(nodes, r, cacheMap, tr) && ref in r && Counted(r, tr, threshold)
    ensures Counted(r - {ref}, tr + [ref.tag], threshold)
  {
    CountedOthers(r - {ref}, tr, ref.tag, threshold);
  }

  lemma ValidIsListValid(l: Impl.LineRefList)
    requires l.Valid()
    ensures l.ListValid()
  {
  }

  class ReuseDistance {
    const refList: Impl.LineRefList
    var cacheMap: map<Tag, Impl.LineRef>
    ghost var trace: seq<Tag>

    /** The list, indexed by cm, is what the references of tr leave behind, skip list aside. */
    ghost predicate Reflects(cm: map<Tag, Impl.LineRef>, tr: seq<Tag>)
      reads refList, refList.repr
    {
      && refList.ListValid()
      && Indexed(refList.nodes, refList.repr, cm, tr)
      && Counted(refList.repr, tr, refList.threshold)
      && refList.gateLost == GateLost(tr, refList.threshold)
    }

    ghost predicate Valid()
      reads this, refList, refList.repr
    {
      refList.Valid() && Reflects(cacheMap, trace)
    }

    constructor (skipDistance: nat, verify: bool, threshold: nat)
      ensures Valid() && trace == [] && fresh(refList) && refList.repr == {}
      ensures refList.threshold == threshold && refList.skipDistance == skipDistance
    {
      refList := new Impl.LineRefList(threshold, skipDistance, verify);
      cacheMap := map[];
      trace := [];
    }

    lemma FindKnown(cm: map<Tag, Impl.LineRef>, tr: seq<Tag>, tag: Tag)
      requires Reflects(cm, tr)
      ensures tag in cm <==> tag in tr
      ensures tag in cm ==> cm[tag] in refList.nodes && cm[tag] in refList.repr && cm[tag].tag == tag
      ensures if tag in tr then Distance(tr, tag) >= 0 else Distance(tr, tag) == -1
    {
      FindLine(refList.nodes, refList.repr, cm, tr, tag);
    }

    method InsertNew(ref: Impl.LineRef, ghost cm: map<Tag, Impl.LineRef>, ghost tr: seq<Tag>)
      requires refList.Valid() && Reflects(cm, tr) && ref.tag !in cm && ref !in refList.repr
      requires ref.totalRefs == 1 && ref.distantRefs == 0 && ref.prev == null && ref.IsPlain()
      modifies refList, refList.repr, ref
      ensures refList.Valid() && Reflects(cm[ref.tag := ref], tr + [ref.tag])
      ensures refList.repr == old(refList.repr) + {ref}
    {
      hide Impl.LineRefList.Valid, Impl.LineRefList.ListValid, Counted;
      ghost var cm', tr' := cm[ref.tag := ref], tr + [ref.tag];
      IndexedAdd(refList.nodes, refList.repr, cm, tr, ref);
      CountedAdd(refList.repr, ref, tr, refList.threshold);
      GateLostStep(tr, ref.tag, refList.threshold);
      ghost var steps, touched := refList.AddToFront(ref);
      ValidIsListValid(refList);
      assert Indexed(refList.nodes, refList.repr, cm', tr');
    }

    method MoveKnown(ref: Impl.LineRef, ghost cm: map<Tag, Impl.LineRef>, ghost tr: seq<Tag>)
      returns (ok: bool, dist: int)
      requires refList.Valid() && Reflects(cm, tr) && ref in refList.nodes && ref in refList.repr
      modifies refList, refList.repr
      ensures dist == Distance(tr, ref.tag) >= 0
      ensures ok <==> refList.skipDistance != 1 || dist != 1
      ensures ok ==> Reflects(cm, tr + [ref.tag]) && refList.repr == old(refList.repr)
      ensures refList.skipDistance != 1 || dist == 0 ==> refList.Valid()
      ensures refList.skipDistance == 1 && dist >= 2 ==> Impl.UnitMoved(refList.nodes, refList.repr, dist)
    {
      hide Impl.LineRefList.Valid, Impl.LineRefList.ListValid, Counted, Indexed, Impl.UnitMoved;
      OtherTags(refList.nodes, refList.repr, cm, tr, ref, refList.threshold);
      CountedReference(refList.repr, ref, tr, refList.threshold);
      GateLostStep(tr, ref.tag, refList.threshold);
      ghost var nodes, r := refList.nodes, refList.repr;
      ghost var steps, touched := 0, 0;
      ok, dist, steps, touched := refList.MoveToFront(ref);
      IndexedMove(nodes, r, cm, tr, dist);
      if ok {
        CountedWith(r, ref, tr + [ref.tag], refList.threshold);
      }
    }

    /** The LRU stack distance of a reference to tag: -1 if it is the first, otherwise the number of
        distinct tags referenced since the last one.  The engine stays valid unless skipDistance is
        1 and the distance positive: distance 1 then fails the source's assertion (not ok), a larger
        one leaves wrong depths in the skip list. */
    method LookupDistance(tag: Tag) returns (ok: bool, dist: int)
      requires Valid()
      modifies this, refList, refList.repr
      ensures dist == Distance(old(trace), tag) >= -1
      ensures ok <==> refList.skipDistance != 1 || dist != 1
      ensures ok ==> Reflects(cacheMap, trace) && trace == old(trace) + [tag]
      ensures ok ==> fresh(refList.repr - old(refList.repr))
      ensures refList.skipDistance != 1 || dist <= 0 ==> Valid()
      ensures refList.skipDistance == 1 && dist >= 2 ==> Impl.UnitMoved(refList.nodes, refList.repr, dist)
    {
      hide Impl.LineRefList.Valid, ReuseDistance.Reflects, Impl.UnitMoved, Distance;
      FindKnown(cacheMap, trace, tag);
      if tag !in cacheMap {
        var ref := new Impl.LineRef(tag);
        ghost var cm := cacheMap;
        cacheMap := cacheMap[tag := ref];
        InsertNew(ref, cm, trace);
        ok, dist := true, -1;
      } else {
        ok, dist := MoveKnown(cacheMap[tag], cacheMap, trace);
      }
      trace := trace + [tag];
    }
  }

  // ---------- what every run establishes ----------

  /** In every reachable state, the O(1) distance test reports a line distant exactly when its next
      reference will be and the gate is still on the list. */
  lemma DistantTestIs(rd: ReuseDistance, t: Tag)
    requires rd.Reflects(rd.cacheMap, rd.trace) && t in rd.trace
    ensures t in rd.cacheMap && rd.cacheMap[t] in rd.refList.repr
    ensures rd.refList.RefIsDistant(rd.cacheMap[t]) <==>
            Distance(rd.trace, t) > rd.refList.threshold && !GateLost(rd.trace, rd.refList.threshold)
  {
    FindLine(rd.refList.nodes, rd.refList.repr, rd.cacheMap, rd.trace, t);
    var p :| 0 <= p < |rd.refList.nodes| && rd.refList.nodes[p] == rd.cacheMap[t];
    IndexedMove(rd.refList.nodes, rd.refList.repr, rd.cacheMap, rd.trace, p);
    Impl.RefIsDistantIff(rd.refList, p);
  }

  /** The test agrees with the trace for every line. */
  ghost predicate DistantTestRight(rd: ReuseDistance)
    requires rd.Reflects(rd.cacheMap, rd.trace)
    reads rd, rd.refList, rd.refList.repr
  {
    forall t :: t in rd.trace ==>
      && t in rd.cacheMap && rd.cacheMap[t] in rd.refList.repr
      && (rd.refList.RefIsDistant(rd.cacheMap[t]) <==> Distance(rd.trace, t) > rd.refList.threshold)
  }

  /** In every reachable state, the test is right for every line if and only if the threshold is
      positive or no reference so far had a positive distance. */
  lemma DistantTestRightIff(rd: ReuseDistance)
    requires rd.Reflects(rd.cacheMap, rd.trace)
    ensures DistantTestRight(rd) <==> rd.refList.threshold >= 1 || NoReuse(rd.trace)
  {
    forall t | t in rd.trace
      ensures t in rd.cacheMap && rd.cacheMap[t] in rd.refList.repr
      ensures rd.refList.RefIsDistant(rd.cacheMap[t]) <==>
              Distance(rd.trace, t) > rd.refList.threshold && !GateLost(rd.trace, rd.refList.threshold)
    {
      DistantTestIs(rd, t);
    }
    GateLostIff(rd.trace, rd.refList.threshold);
    if GateLost(rd.trace, rd.refList.threshold) {
      var t := SomeDistantLine(rd.trace);
      assert !rd.refList.RefIsDistant(rd.cacheMap[t]);
    }
  }

  /** Each line's total_refs is its number of references in the trace, and unique_lines the number
      of distinct tags. */
  lemma CountersAreExact(rd: ReuseDistance, t: Tag)
    requires rd.Reflects(rd.cacheMap, rd.trace) && t in rd.trace
    ensures t in rd.cacheMap && rd.cacheMap[t] in rd.refList.repr
    ensures rd.cacheMap[t].totalRefs == multiset(rd.trace)[t]
    ensures rd.refList.uniqueLines == |Elements(rd.trace)|
  {
    FindLine(rd.refList.nodes, rd.refList.repr, rd.cacheMap, rd.trace, t);
    MruLength(rd.trace);
  }

  /** Every line's distant_refs is its number of distant references in the trace. */
  ghost predicate DistantCountsRight(rd: ReuseDistance)
    requires rd.Reflects(rd.cacheMap, rd.trace)
    reads rd, rd.refList, rd.refList.repr
  {
    forall t :: t in rd.trace ==>
      && t in rd.cacheMap && rd.cacheMap[t] in rd.refList.repr
      && rd.cacheMap[t].distantRefs == |DistantRefs(rd.trace, t, rd.refList.threshold)|
  }

  /** In every reachable state, the distant counts are right for every line if and only if the
      threshold is positive or at most one reference so far had a positive distance. */
  lemma DistantCountsRightIff(rd: ReuseDistance)
    requires rd.Reflects(rd.cacheMap, rd.trace)
    ensures DistantCountsRight(rd) <==> rd.refList.threshold >= 1 || AtMostOneReuse(rd.trace)
  {
    hide CountedRefs, DistantRefs, AtMostOneReuse;
    forall t | t in rd.trace
      ensures t in rd.cacheMap && rd.cacheMap[t] in rd.refList.repr
      ensures rd.cacheMap[t].distantRefs == |CountedRefs(rd.trace, t, rd.refList.threshold)|
    {
      FindLine(rd.refList.nodes, rd.refList.repr, rd.cacheMap, rd.trace, t);
    }
    forall t | t !in rd.trace
      ensures |CountedRefs(rd.trace, t, rd.refList.threshold)| == |DistantRefs(rd.trace, t, rd.refList.threshold)|
    {
      NoRefs(rd.trace, t, rd.refList.threshold);
    }
    DistantCountsExactIff(rd.trace, rd.refList.threshold);
  }

  /** With skipDistance 1, once a line has moved from position p >= 3, the walk of the next lookup
      reads one too little off for every line at distance 1 to p; after p == 2 it is still right. */
  lemma UnitLookupMisreads(rd: ReuseDistance, p: nat, t: Tag)
    requires rd.Reflects(rd.cacheMap, rd.trace) && t in rd.trace
    requires Impl.UnitMoved(rd.refList.nodes, rd.refList.repr, p)
    ensures var d := Distance(rd.trace, t);
            && 0 <= d < |rd.refList.nodes|
            && t in rd.cacheMap && rd.refList.nodes[d] == rd.cacheMap[t]
            && Impl.WalkBack(rd.refList.nodes, rd.refList.repr, d) == if p > 2 && 1 <= d <= p then d - 1 else d
  {
    FindLine(rd.refList.nodes, rd.refList.repr, rd.cacheMap, rd.trace, t);
    var i :| 0 <= i < |rd.refList.nodes| && rd.refList.nodes[i] == rd.cacheMap[t];
    IndexedMove(rd.refList.nodes, rd.refList.repr, rd.cacheMap, rd.trace, i);
    Impl.UnitMisread(rd.refList.nodes, rd.refList.repr, p, i);
  }

  /** With skipDistance 1, the trace 1,2,3,4,1 moves a line from position 3; the walk for a next
      reference to 4, at distance 1, then reads 0. */
  lemma UnitMisreadsFour(rd: ReuseDistance)
    requires rd.Reflects(rd.cacheMap, rd.trace) && rd.trace == [1, 2, 3, 4, 1]
    requires Impl.UnitMoved(rd.refList.nodes, rd.refList.repr, Distance([1, 2, 3, 4], 1))
    ensures Distance([1, 2, 3, 4], 1) == 3 && Distance(rd.trace, 4) == 1
    ensures 4 in rd.cacheMap && |rd.refList.nodes| > 1 && rd.refList.nodes[1] == rd.cacheMap[4]
    ensures Impl.WalkBack(rd.refList.nodes, rd.refList.repr, 1) == 0
  {
    hide Distance;
    ThreeOthers();
    SmallDistance(rd.trace, 4, 1);
    UnitLookupMisreads(rd, 3, 4);
  }
}
