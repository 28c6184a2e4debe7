/**
 The vectors the clustering works on: the items the client writes per synchronization point
 (dynamorio_client/barrierpoint.cpp, save_ldv_bb and save_bbv_count) and their combination in
 DrAnalysis.py (__CombineBBVsandLDVs).  Threads are numbered by their place in the list.
 */
module Fingerprint {
  import opened Common
  import opened ThreadDatas
  import opened LineFormat

  type Regions = map<nat, Region>

  /** Where an item of a vector comes from. */
  datatype Source = Reuse(thread: nat, bucket: nat) | Code(thread: nat, key: BlockKey)

  /** The region has this count in the source's bucket or block. */
  ghost predicate Holds(region: Region, src: Source, count: nat) {
    match src
    case Reuse(_, b) => b < |region.lruHist| && region.lruHist[b] == count != 0
    case Code(_, k) => k in region.bbv && region.bbv[k] == count
  }

  /** In its region id, the source's thread has this count in its bucket or block. */
  ghost predicate Emits(threads: seq<Regions>, id: nat, src: Source, count: nat) {
    src.thread < |threads| && id in threads[src.thread] && Holds(threads[src.thread][id], src, count)
  }

  /** The first t+1 threads emit what the first t do and what thread t does. */
  lemma EmitsStep(threads: seq<Regions>, id: nat, t: nat, src: Source, count: nat)
    requires t < |threads|
    ensures Emits(threads[..t + 1], id, src, count) <==>
            Emits(threads[..t], id, src, count) ||
            (src.thread == t && id in threads[t] && Holds(threads[t][id], src, count))
  {
  }

  function SumCounts(row: seq<Item>): nat {
    if row == [] then 0 else SumCounts(row[..|row| - 1]) + row[|row| - 1].1
  }

  lemma {:induction false} SumCountsConcat(a: seq<Item>, b: seq<Item>)
    ensures SumCounts(a + b) == SumCounts(a) + SumCounts(b)
  {
    if b == [] {
      assert a + b == a;
    } else {
      SumCountsConcat(a, b[..|b| - 1]);
      assert (a + b)[..|a + b| - 1] == a + b[..|b| - 1];
    }
  }

  /** Reuses all threads counted in region id. */
  function PhaseReuses(threads: seq<Regions>, id: nat): nat {
    if threads == [] then 0
    else PhaseReuses(threads[..|threads| - 1], id) +
         if id in threads[|threads| - 1] then Sum(threads[|threads| - 1][id].lruHist) else 0
  }

  // ---------- dimension ids ----------

  function ReuseId(maxSize: nat, thread: nat, bucket: nat): nat {
    1 + bucket + thread * maxSize
  }

  function CodeId(ids: map<BlockKey, nat>, thread: nat, key: BlockKey): nat
    requires key in ids
  {
    ids[key] + thread * |ids|
  }

  /** a + t * n determines a and t when a stays within a stretch of n. */
  lemma StrideInjective(n: nat, t: nat, a: nat, u: nat, b: nat)
    requires a < n && b < n && a + t * n == b + u * n
    ensures t == u && a == b
  {
    QuotientUnique(a + t * n, n, t, a);
    QuotientUnique(b + u * n, n, u, b);
  }

  /** The numbers 1 + t * n to (t + 1) * n belong to thread t, in order. */
  lemma StrideIs(n: nat, t: nat, a: nat, d: nat)
    requires a < n
    ensures d == 1 + a + t * n <==> d >= 1 && (d - 1) / n == t && (d - 1) % n == a
    ensures 1 + t * n <= 1 + a + t * n <= (t + 1) * n
  {
    QuotientUnique(a + t * n, n, t, a);
    if d >= 1 && (d - 1) / n == t && (d - 1) % n == a {
      assert d - 1 == (d - 1) / n * n + (d - 1) % n;
    }
    assert (t + 1) * n == t * n + n;
  }

  /** Thread t's buckets have the dimensions from 1 + t * maxSize to (t + 1) * maxSize, bucket 0
      first. */
  lemma ReuseIdIs(maxSize: nat, t: nat, b: nat, d: nat)
    requires b < maxSize
    ensures d == ReuseId(maxSize, t, b) <==> d >= 1 && (d - 1) / maxSize == t && (d - 1) % maxSize == b
    ensures 1 + t * maxSize <= ReuseId(maxSize, t, b) <= (t + 1) * maxSize
  {
    StrideIs(maxSize, t, b, d);
  }

  /** Thread t's blocks have the dimensions from 1 + t * n to (t + 1) * n for n blocks, in the order
      of their numbers. */
  lemma CodeIdIs(ids: map<BlockKey, nat>, t: nat, k: BlockKey, d: nat)
    requires Numbering(ids) && k in ids
    ensures d == CodeId(ids, t, k) <==> d >= 1 && (d - 1) / |ids| == t && (d - 1) % |ids| + 1 == ids[k]
    ensures 1 + t * |ids| <= CodeId(ids, t, k) <= (t + 1) * |ids|
  {
    assert 1 <= ids[k] <= |ids|;
    hide Numbering;
    StrideIs(|ids|, t, ids[k] - 1, d);
  }

  /** Block ids are 1, 2, 3, ..., each used once. */
  ghost predicate Numbering(ids: map<BlockKey, nat>) {
    && (forall k :: k in ids ==> 1 <= ids[k] <= |ids|)
    && (forall j, k :: j in ids && k in ids && ids[j] == ids[k] ==> j == k)
  }

  lemma NumberNext(ids: map<BlockKey, nat>, k: BlockKey)
    requires Numbering(ids) && k !in ids
    ensures Numbering(ids[k := |ids| + 1])
    ensures |ids[k := |ids| + 1]| == |ids| + 1
  {
    assert ids[k := |ids| + 1].Keys == ids.Keys + {k};
    assert |ids[k := |ids| + 1]| == |ids| + 1 by {
      assert |ids.Keys + {k}| == |ids.Keys| + 1;
    }
  }

  /** Old numbers stay, new ones come after them. */
  ghost predicate Extends(ids: map<BlockKey, nat>, more: map<BlockKey, nat>) {
    && |ids| <= |more|
    && (forall k :: k in ids ==> k in more && more[k] == ids[k])
    && (forall k :: k in more && k !in ids ==> |ids| < more[k])
  }

  /** Gives a block the next number if it has none. */
  method NumberBlock(ids0: map<BlockKey, nat>, k: BlockKey) returns (ids: map<BlockKey, nat>)
    requires Numbering(ids0)
    ensures Numbering(ids) && ids.Keys == ids0.Keys + {k} && Extends(ids0, ids)
  {
    if k !in ids0 {
      NumberNext(ids0, k);
      ids := ids0[k := |ids0| + 1];
    } else {
      ids := ids0;
    }
  }

  lemma ExtendsTwice(a: map<BlockKey, nat>, b: map<BlockKey, nat>, c: map<BlockKey, nat>)
    requires Extends(a, b) && Extends(b, c)
    ensures Extends(a, c)
  {
  }

  lemma TakenOver(done: set<BlockKey>, rest: set<BlockKey>, k: BlockKey)
    requires k in rest
    ensures (done + {k}) + (rest - {k}) == done + rest
  {
  }

  /** Numbers the blocks of one region that have no number yet, in some order. */
  method NumberRegion(ids0: map<BlockKey, nat>, bbv: map<BlockKey, nat>) returns (ids: map<BlockKey, nat>)
    requires Numbering(ids0)
    ensures Numbering(ids) && ids.Keys == ids0.Keys + bbv.Keys && Extends(ids0, ids)
  {
    hide Numbering, Extends;
    ids := ids0;
    var rest := bbv.Keys;
    ExtendsSelf(ids);
    while rest != {}
      invariant Numbering(ids) && ids.Keys + rest == ids0.Keys + bbv.Keys && Extends(ids0, ids)
      decreases rest
    {
      var k :| k in rest;
      ghost var before := ids;
      ids := NumberBlock(ids, k);
      ExtendsTwice(ids0, before, ids);
      TakenOver(before.Keys, rest, k);
      rest := rest - {k};
    }
  }

  // ---------- first-seen order ----------

  /** The blocks in the regions before region id of thread t, thread by thread. */
  ghost function BlocksBefore(threads: seq<Regions>, synchCount: nat, t: nat, id: nat): set<BlockKey>
    requires t <= |threads| && id <= synchCount && (id > 0 ==> t < |threads|)
    decreases t, id
  {
    if id > 0 then
      BlocksBefore(threads, synchCount, t, id - 1) + if id - 1 in threads[t] then threads[t][id - 1].bbv.Keys else {}
    else if t > 0 then BlocksBefore(threads, synchCount, t - 1, synchCount)
    else {}
  }

  /** Some region below synchCount holds the block. */
  ghost predicate Seen(threads: seq<Regions>, synchCount: nat, k: BlockKey) {
    exists t, id :: 0 <= t < |threads| && 0 <= id < synchCount && id in threads[t] && k in threads[t][id].bbv
  }

  lemma {:induction false} BeforeIsSeen(threads: seq<Regions>, synchCount: nat, t: nat, id: nat, k: BlockKey)
    requires t <= |threads| && id <= synchCount && (id > 0 ==> t < |threads|)
    ensures k in BlocksBefore(threads, synchCount, t, id) <==>
            exists u, i :: 0 <= u < |threads| && 0 <= i < synchCount && (u < t || (u == t && i < id)) &&
                           i in threads[u] && k in threads[u][i].bbv
    decreases t, id
  {
    if id > 0 {
      BeforeIsSeen(threads, synchCount, t, id - 1, k);
    } else if t > 0 {
      BeforeIsSeen(threads, synchCount, t - 1, synchCount, k);
    }
  }

  /** The early blocks have smaller numbers than all others. */
  ghost predicate OrderedAt(ids: map<BlockKey, nat>, early: set<BlockKey>) {
    && early <= ids.Keys
    && (forall j, k :: j in early && k in ids && k !in early ==> ids[j] < ids[k])
  }

  /** Up to region id of thread t, blocks are numbered in the order they are first seen. */
  ghost predicate OrderedUpTo(threads: seq<Regions>, synchCount: nat, ids: map<BlockKey, nat>, t: nat, id: nat) {
    forall u, i :: 0 <= u < |threads| && 0 <= i <= synchCount && (u < t || (u == t && i <= id)) ==>
      OrderedAt(ids, BlocksBefore(threads, synchCount, u, i))
  }

  lemma OrderedExtends(ids: map<BlockKey, nat>, more: map<BlockKey, nat>, early: set<BlockKey>)
    requires Numbering(ids) && Extends(ids, more) && OrderedAt(ids, early)
    ensures OrderedAt(more, early)
  {
  }

  lemma {:induction false} OrderedStep(threads: seq<Regions>, synchCount: nat, ids: map<BlockKey, nat>,
                                       more: map<BlockKey, nat>, t: nat, id: nat)
    requires Numbering(ids) && Extends(ids, more) && OrderedUpTo(threads, synchCount, ids, t, id)
    requires t < |threads| && id < synchCount && more.Keys == BlocksBefore(threads, synchCount, t, id + 1)
    ensures OrderedUpTo(threads, synchCount, more, t, id + 1)
  {
    hide Numbering, Extends, BlocksBefore;
    forall u, i | 0 <= u < |threads| && 0 <= i <= synchCount && (u < t || (u == t && i <= id + 1))
      ensures OrderedAt(more, BlocksBefore(threads, synchCount, u, i))
    {
      if u < t || i <= id {
        OrderedExtends(ids, more, BlocksBefore(threads, synchCount, u, i));
      }
    }
  }

  /** Numbers the blocks of all regions of one thread, in region order. */
  method NumberThread(ids0: map<BlockKey, nat>, threads: seq<Regions>, t: nat, synchCount: nat)
    returns (ids: map<BlockKey, nat>)
    requires Numbering(ids0) && t < |threads|
    requires ids0.Keys == BlocksBefore(threads, synchCount, t, 0) && OrderedUpTo(threads, synchCount, ids0, t, 0)
    ensures Numbering(ids)
    ensures ids.Keys == BlocksBefore(threads, synchCount, t, synchCount)
    ensures OrderedUpTo(threads, synchCount, ids, t, synchCount)
  {
    hide Numbering, Extends, OrderedUpTo;
    ids := ids0;
    for id := 0 to synchCount
      invariant Numbering(ids) && ids.Keys == BlocksBefore(threads, synchCount, t, id)
      invariant OrderedUpTo(threads, synchCount, ids, t, id)
    {
      ghost var before := ids;
      if id in threads[t] {
        ids := NumberRegion(ids, threads[t][id].bbv);
      } else {
        ExtendsSelf(ids);
      }
      OrderedStep(threads, synchCount, before, ids, t, id);
    }
  }

  lemma ExtendsSelf(ids: map<BlockKey, nat>)
    ensures Extends(ids, ids)
  {
  }

  lemma {:induction false} OrderedStart(threads: seq<Regions>, synchCount: nat)
    ensures Numbering(map[]) && BlocksBefore(threads, synchCount, 0, 0) == {}
    ensures OrderedUpTo(threads, synchCount, map[], 0, 0)
  {
  }

  lemma {:induction false} OrderedNext(threads: seq<Regions>, synchCount: nat, ids: map<BlockKey, nat>, t: nat)
    requires t < |threads| && OrderedUpTo(threads, synchCount, ids, t, synchCount)
    ensures BlocksBefore(threads, synchCount, t + 1, 0) == BlocksBefore(threads, synchCount, t, synchCount)
    ensures OrderedUpTo(threads, synchCount, ids, t + 1, 0)
  {
    hide OrderedAt;
    if t + 1 < |threads| {
      assert OrderedAt(ids, BlocksBefore(threads, synchCount, t, synchCount));
    }
  }

  lemma {:induction false} AllSeen(threads: seq<Regions>, synchCount: nat, k: BlockKey)
    ensures k in BlocksBefore(threads, synchCount, |threads|, 0) <==> Seen(threads, synchCount, k)
  {
    BeforeIsSeen(threads, synchCount, |threads|, 0, k);
  }

  /** Numbers exactly the blocks that occur, in the order they are first seen: the blocks of the
      regions before any one have smaller numbers than all others. */
  method NumberBlocks(threads: seq<Regions>, synchCount: nat) returns (ids: map<BlockKey, nat>)
    ensures Numbering(ids) && forall k :: k in ids <==> Seen(threads, synchCount, k)
    ensures OrderedUpTo(threads, synchCount, ids, |threads|, 0)
  {
    hide Numbering, OrderedUpTo, BlocksBefore, Seen;
    ids := map[];
    OrderedStart(threads, synchCount);
    for t := 0 to |threads|
      invariant Numbering(ids) && ids.Keys == BlocksBefore(threads, synchCount, t, 0)
      invariant OrderedUpTo(threads, synchCount, ids, t, 0)
    {
      ids := NumberThread(ids, threads, t, synchCount);
      OrderedNext(threads, synchCount, ids, t);
    }
    forall k
      ensures k in ids <==> Seen(threads, synchCount, k)
    {
      AllSeen(threads, synchCount, k);
    }
  }

  method MaxHistSize(threads: seq<Regions>, synchCount: nat) returns (maxSize: nat)
    ensures forall t, id :: 0 <= t < |threads| && 0 <= id < synchCount && id in threads[t] ==>
              |threads[t][id].lruHist| <= maxSize
    ensures maxSize == 0 || exists t, id :: 0 <= t < |threads| && 0 <= id < synchCount && id in threads[t] &&
                                            |threads[t][id].lruHist| == maxSize
  {
    maxSize := 0;
    for t := 0 to |threads|
      invariant forall u, id :: 0 <= u < t && 0 <= id < synchCount && id in threads[u] ==>
                  |threads[u][id].lruHist| <= maxSize
      invariant maxSize == 0 || exists u, id :: 0 <= u < t && 0 <= id < synchCount && id in threads[u] &&
                                                |threads[u][id].lruHist| == maxSize
    {
      for id := 0 to synchCount
        invariant forall u, i :: 0 <= u < t && 0 <= i < synchCount && i in threads[u] ==>
                    |threads[u][i].lruHist| <= maxSize
        invariant forall i :: 0 <= i < id && i in threads[t] ==> |threads[t][i].lruHist| <= maxSize
        invariant maxSize == 0 || exists u, i :: 0 <= u <= t && 0 <= i < synchCount && i in threads[u] &&
                                                 |threads[u][i].lruHist| == maxSize
      {
        if id in threads[t] && |threads[t][id].lruHist| > maxSize {
          maxSize := |threads[t][id].lruHist|;
        }
      }
    }
  }

  // ---------- rows ----------

  /** The row holds, for every source of this kind in region id, its id and count, once. */
  ghost predicate ReuseRow(threads: seq<Regions>, id: nat, maxSize: nat, row: seq<Item>, srcs: seq<Source>) {
    && |srcs| == |row|
    && (forall k :: 0 <= k < |row| ==>
         && srcs[k].Reuse? && Emits(threads, id, srcs[k], row[k].1)
         && row[k].0 == ReuseId(maxSize, srcs[k].thread, srcs[k].bucket))
    && NoDuplicates(srcs)
    && (forall t, b, c :: Emits(threads, id, Reuse(t, b), c) ==> Reuse(t, b) in srcs)
    && SumCounts(row) == PhaseReuses(threads, id)
  }

  ghost predicate CodeRow(threads: seq<Regions>, id: nat, ids: map<BlockKey, nat>, row: seq<Item>, srcs: seq<Source>) {
    && |srcs| == |row|
    && (forall k :: 0 <= k < |row| ==>
         && srcs[k].Code? && Emits(threads, id, srcs[k], row[k].1)
         && srcs[k].key in ids && row[k].0 == CodeId(ids, srcs[k].thread, srcs[k].key))
    && NoDuplicates(srcs)
    && (forall t, key, c :: Emits(threads, id, Code(t, key), c) ==> Code(t, key) in srcs)
  }

  /** The row holds the non-zero buckets of region id of every thread, each once and at its id. */
  ghost predicate IsReuseRow(threads: seq<Regions>, id: nat, maxSize: nat, row: seq<Item>) {
    exists srcs :: ReuseRow(threads, id, maxSize, row, srcs)
  }

  /** The row holds the blocks of region id of every thread, each once and at its id. */
  ghost predicate IsCodeRow(threads: seq<Regions>, id: nat, ids: map<BlockKey, nat>, row: seq<Item>) {
    exists srcs :: CodeRow(threads, id, ids, row, srcs)
  }

  /** The items of the first n buckets of thread t's histogram. */
  ghost predicate BucketItems(hist: seq<nat>, n: nat, t: nat, maxSize: nat, row: seq<Item>, srcs: seq<Source>) {
    && n <= |hist| && |srcs| == |row|
    && (forall k :: 0 <= k < |row| ==>
         && srcs[k].Reuse? && srcs[k].thread == t && srcs[k].bucket < n
         && row[k].1 == hist[srcs[k].bucket] != 0 && row[k].0 == ReuseId(maxSize, t, srcs[k].bucket))
    && NoDuplicates(srcs)
    && (forall b :: 0 <= b < n && hist[b] != 0 ==> Reuse(t, b) in srcs)
    && SumCounts(row) == Sum(hist[..n])
  }

  /** The items of the given blocks of thread t's basic-block vector. */
  ghost predicate BlockItems(bbv: map<BlockKey, nat>, keys: set<BlockKey>, t: nat, ids: map<BlockKey, nat>,
                             row: seq<Item>, srcs: seq<Source>) {
    && keys <= bbv.Keys <= ids.Keys && |srcs| == |row|
    && (forall k :: 0 <= k < |row| ==>
         && srcs[k].Code? && srcs[k].thread == t && srcs[k].key in keys
         && row[k].1 == bbv[srcs[k].key] && row[k].0 == CodeId(ids, t, srcs[k].key))
    && NoDuplicates(srcs)
    && (forall key :: key in keys ==> Code(t, key) in srcs)
  }

  /** The items of one thread's histogram: the non-zero buckets. */
  method ReuseItems(hist: seq<nat>, t: nat, maxSize: nat) returns (row: seq<Item>, ghost srcs: seq<Source>)
    ensures BucketItems(hist, |hist|, t, maxSize, row, srcs)
  {
    row, srcs := [], [];
    for b := 0 to |hist|
      invariant BucketItems(hist, b, t, maxSize, row, srcs)
    {
      hide BucketItems;
      BucketStep(hist, b, t, maxSize, row, srcs);
      if hist[b] != 0 {
        row := row + [(ReuseId(maxSize, t, b), hist[b])];
        srcs := srcs + [Reuse(t, b)];
      }
    }
  }

  lemma {:induction false} BucketStep(hist: seq<nat>, b: nat, t: nat, maxSize: nat, row: seq<Item>, srcs: seq<Source>)
    requires b < |hist| && BucketItems(hist, b, t, maxSize, row, srcs)
    ensures if hist[b] != 0
            then BucketItems(hist, b + 1, t, maxSize, row + [(ReuseId(maxSize, t, b), hist[b])], srcs + [Reuse(t, b)])
            else BucketItems(hist, b + 1, t, maxSize, row, srcs)
  {
    var item: Item := (ReuseId(maxSize, t, b), hist[b]);
    SumsStep(hist, b, row, item);
    hide SumCounts, Sum, ReuseId;
    if hist[b] != 0 {
      assert (srcs + [Reuse(t, b)])[|srcs|] == Reuse(t, b);
      assert forall s :: s in srcs ==> s in srcs + [Reuse(t, b)];
    }
  }

  lemma {:induction false} SumsStep(hist: seq<nat>, b: nat, row: seq<Item>, item: Item)
    requires b < |hist|
    ensures Sum(hist[..b + 1]) == Sum(hist[..b]) + hist[b]
    ensures SumCounts(row + [item]) == SumCounts(row) + item.1
  {
    assert hist[..b + 1][..b] == hist[..b];
    assert (row + [item])[..|row|] == row;
  }

  method SaveReuseRow(threads: seq<Regions>, id: nat, maxSize: nat) returns (row: seq<Item>)
    ensures IsReuseRow(threads, id, maxSize, row)
  {
    hide ReuseRow, BucketItems;
    row := [];
    ghost var srcs: seq<Source> := [];
    ReuseRowStart(threads, id, maxSize);
    for t := 0 to |threads|
      invariant ReuseRow(threads[..t], id, maxSize, row, srcs)
    {
      var items: seq<Item> := [];
      ghost var itemSrcs: seq<Source> := [];
      if id in threads[t] {
        items, itemSrcs := ReuseItems(threads[t][id].lruHist, t, maxSize);
      }
      ReuseRowStep(threads, id, t, maxSize, row, srcs, items, itemSrcs);
      row, srcs := row + items, srcs + itemSrcs;
    }
    assert threads[..|threads|] == threads;
  }

  lemma ReuseRowStart(threads: seq<Regions>, id: nat, maxSize: nat)
    ensures ReuseRow(threads[..0], id, maxSize, [], [])
  {
  }

  lemma {:induction false} PhaseReusesStep(threads: seq<Regions>, id: nat, t: nat)
    requires t < |threads|
    ensures PhaseReuses(threads[..t + 1], id) ==
            PhaseReuses(threads[..t], id) + if id in threads[t] then Sum(threads[t][id].lruHist) else 0
    ensures SumCounts([]) == 0
  {
    assert threads[..t + 1][..t] == threads[..t];
  }

  lemma {:induction false} WholeHist(hist: seq<nat>, t: nat, maxSize: nat, row: seq<Item>, srcs: seq<Source>)
    requires BucketItems(hist, |hist|, t, maxSize, row, srcs)
    ensures SumCounts(row) == Sum(hist)
  {
    assert hist[..|hist|] == hist;
  }

  lemma {:induction false} ReuseRowStep(threads: seq<Regions>, id: nat, t: nat, maxSize: nat, row: seq<Item>,
                                        srcs: seq<Source>, items: seq<Item>, itemSrcs: seq<Source>)
    requires t < |threads| && ReuseRow(threads[..t], id, maxSize, row, srcs)
    requires if id in threads[t] then
               BucketItems(threads[t][id].lruHist, |threads[t][id].lruHist|, t, maxSize, items, itemSrcs)
             else items == [] && itemSrcs == []
    ensures ReuseRow(threads[..t + 1], id, maxSize, row + items, srcs + itemSrcs)
  {
    hide SumCounts, Sum, PhaseReuses, ReuseId;
    SumCountsConcat(row, items);
    PhaseReusesStep(threads, id, t);
    if id in threads[t] {
      WholeHist(threads[t][id].lruHist, t, maxSize, items, itemSrcs);
    }
    var all, allSrcs := row + items, srcs + itemSrcs;
    forall k | 0 <= k < |all|
      ensures Emits(threads[..t + 1], id, allSrcs[k], all[k].1)
    {
      EmitsStep(threads, id, t, allSrcs[k], all[k].1);
    }
    var first := threads[..t + 1];
    forall u, b, c {:trigger Emits(first, id, Reuse(u, b), c)} | Emits(first, id, Reuse(u, b), c)
      ensures Reuse(u, b) in allSrcs
    {
      EmitsStep(threads, id, t, Reuse(u, b), c);
    }
  }

  /** The items of one thread's basic-block vector, in some order. */
  method CodeItems(bbv: map<BlockKey, nat>, t: nat, ids: map<BlockKey, nat>)
    returns (row: seq<Item>, ghost srcs: seq<Source>)
    requires bbv.Keys <= ids.Keys
    ensures BlockItems(bbv, bbv.Keys, t, ids, row, srcs)
  {
    row, srcs := [], [];
    var rest := bbv.Keys;
    while rest != {}
      invariant rest <= bbv.Keys && BlockItems(bbv, bbv.Keys - rest, t, ids, row, srcs)
      decreases |rest|
    {
      var key :| key in rest;
      row := row + [(CodeId(ids, t, key), bbv[key])];
      srcs := srcs + [Code(t, key)];
      rest := rest - {key};
    }
    assert bbv.Keys - rest == bbv.Keys;
  }

  method SaveCodeRow(threads: seq<Regions>, id: nat, ids: map<BlockKey, nat>) returns (row: seq<Item>)
    requires forall t :: 0 <= t < |threads| && id in threads[t] ==> threads[t][id].bbv.Keys <= ids.Keys
    ensures IsCodeRow(threads, id, ids, row)
  {
    hide CodeRow, BlockItems;
    row := [];
    ghost var srcs: seq<Source> := [];
    CodeRowStart(threads, id, ids);
    for t := 0 to |threads|
      invariant CodeRow(threads[..t], id, ids, row, srcs)
    {
      var items: seq<Item> := [];
      ghost var itemSrcs: seq<Source> := [];
      if id in threads[t] {
        items, itemSrcs := CodeItems(threads[t][id].bbv, t, ids);
      }
      CodeRowStep(threads, id, t, ids, row, srcs, items, itemSrcs);
      row, srcs := row + items, srcs + itemSrcs;
    }
    assert threads[..|threads|] == threads;
  }

  lemma CodeRowStart(threads: seq<Regions>, id: nat, ids: map<BlockKey, nat>)
    ensures CodeRow(threads[..0], id, ids, [], [])
  {
  }

  lemma {:induction false} CodeRowStep(threads: seq<Regions>, id: nat, t: nat, ids: map<BlockKey, nat>, row: seq<Item>,
                                       srcs: seq<Source>, items: seq<Item>, itemSrcs: seq<Source>)
    requires t < |threads| && CodeRow(threads[..t], id, ids, row, srcs)
    requires if id in threads[t] then BlockItems(threads[t][id].bbv, threads[t][id].bbv.Keys, t, ids, items, itemSrcs)
             else items == [] && itemSrcs == []
    ensures CodeRow(threads[..t + 1], id, ids, row + items, srcs + itemSrcs)
  {
    hide CodeId;
    var all, allSrcs := row + items, srcs + itemSrcs;
    forall k | 0 <= k < |all|
      ensures Emits(threads[..t + 1], id, allSrcs[k], all[k].1)
    {
      EmitsStep(threads, id, t, allSrcs[k], all[k].1);
    }
    var first := threads[..t + 1];
    forall u, key, c {:trigger Emits(first, id, Code(u, key), c)} | Emits(first, id, Code(u, key), c)
      ensures Code(u, key) in allSrcs
    {
      EmitsStep(threads, id, t, Code(u, key), c);
    }
  }
}
