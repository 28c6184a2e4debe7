/**
 Per-thread accumulation into regions (dynamorio_client/thread_data.cpp, region.cpp): stack
 distances go into a log2 histogram, executed blocks into a basic-block vector, and every
 synchronization point cuts off a region.
 */
module ThreadDatas {
  import opened Common
  import opened StackDistance
  import opened Histogram
  import opened ReuseEngine
  import opened Addresses

  type BlockKey = nat
  datatype Block = Block(key: BlockKey, instrs: nat)
  datatype Region = Region(synchName: string, instrCount: nat, bbv: map<BlockKey, nat>, lruHist: seq<nat>)

  /** What a thread did between two synchronization points. */
  datatype Segment = Segment(distances: seq<int>, blocks: seq<Block>)

  // ---------- basic-block vectors ----------

  /** Instructions executed in the block with this key. */
  function InstrsOf(blocks: seq<Block>, key: BlockKey): nat {
    if blocks == [] then 0
    else InstrsOf(blocks[..|blocks| - 1], key) +
         if blocks[|blocks| - 1].key == key then blocks[|blocks| - 1].instrs else 0
  }

  function TotalInstrs(blocks: seq<Block>): nat {
    if blocks == [] then 0 else TotalInstrs(blocks[..|blocks| - 1]) + blocks[|blocks| - 1].instrs
  }

  function Keys(blocks: seq<Block>): set<BlockKey> {
    set i | 0 <= i < |blocks| :: blocks[i].key
  }

  ghost predicate IsBbv(bbv: map<BlockKey, nat>, blocks: seq<Block>) {
    && bbv.Keys == Keys(blocks)
    && (forall k :: k in bbv ==> bbv[k] == InstrsOf(blocks, k))
    && MapSum(bbv) == TotalInstrs(blocks)
  }

  ghost function MapSum(m: map<BlockKey, nat>): nat
    decreases |m|
  {
    if m == map[] then 0
    else
      var k :| k in m;
      m[k] + MapSum(m - {k})
  }

  /** The sum over a map does not depend on the order the keys are taken in. */
  lemma {:induction false} MapSumTake(m: map<BlockKey, nat>, k: BlockKey)
    requires k in m
    ensures MapSum(m) == m[k] + MapSum(m - {k})
    decreases |m|
  {
    var j :| j in m && MapSum(m) == m[j] + MapSum(m - {j});
    if j != k {
      MapSumTake(m - {j}, k);
      MapSumTake(m - {k}, j);
      assert m - {j} - {k} == m - {k} - {j};
    }
  }

  lemma MapSumPut(m: map<BlockKey, nat>, k: BlockKey, v: nat)
    ensures MapSum(m[k := v]) == MapSum(m) + v - if k in m then m[k] else 0
  {
    MapSumTake(m[k := v], k);
    if k in m {
      MapSumTake(m, k);
      assert m[k := v] - {k} == m - {k};
    } else {
      assert m[k := v] - {k} == m;
    }
  }

  lemma {:induction false} BbvStep(bbv: map<BlockKey, nat>, blocks: seq<Block>, b: Block)
    requires IsBbv(bbv, blocks)
    ensures IsBbv(bbv[b.key := (if b.key in bbv then bbv[b.key] else 0) + b.instrs], blocks + [b])
    ensures TotalInstrs(blocks + [b]) == TotalInstrs(blocks) + b.instrs
  {
    var v := (if b.key in bbv then bbv[b.key] else 0) + b.instrs;
    var blocks' := blocks + [b];
    assert blocks'[..|blocks|] == blocks;
    MapSumPut(bbv, b.key, v);
    assert Keys(blocks') == Keys(blocks) + {b.key} by {
      assert blocks'[|blocks|].key == b.key;
      assert forall i :: 0 <= i < |blocks| ==> blocks'[i] == blocks[i];
    }
    if b.key !in bbv {
      AbsentKey(blocks, b.key);
    }
  }

  lemma {:induction false} AbsentKey(blocks: seq<Block>, key: BlockKey)
    requires key !in Keys(blocks)
    ensures InstrsOf(blocks, key) == 0
  {
    if blocks != [] {
      var pre := blocks[..|blocks| - 1];
      assert blocks[|blocks| - 1].key in Keys(blocks);
      assert forall i :: 0 <= i < |pre| ==> pre[i] == blocks[i];
      AbsentKey(pre, key);
    }
  }

  // ---------- regions ----------

  /** The region r records exactly what happened in the segment s. */
  ghost predicate Records(r: Region, s: Segment) {
    && r.instrCount == TotalInstrs(s.blocks)
    && IsBbv(r.bbv, s.blocks)
    && IsHistogram(r.lruHist, s.distances)
  }

  lemma EmptyRecords()
    ensures Records(Region("", 0, map[], []), Segment([], []))
  {
  }

  lemma SameRecords(r: Region, name: string, s: Segment)
    ensures Records(r, s) <==> Records(r.(synchName := name), s)
  {
  }

  function AllDistances(segs: seq<Segment>): seq<int> {
    if segs == [] then [] else AllDistances(segs[..|segs| - 1]) + segs[|segs| - 1].distances
  }

  lemma {:induction false} AllDistancesStep(segs: seq<Segment>, s: Segment)
    ensures AllDistances(segs + [s]) + Segment([], []).distances == AllDistances(segs) + s.distances
  {
    assert (segs + [s])[..|segs|] == segs;
  }

  /** The tags of the buffered addresses, in order. */
  function LineTags(buffer: seq<Word>, lineMask: Word): (tags: seq<Tag>)
    ensures |tags| == |buffer|
    ensures forall i :: 0 <= i < |tags| ==> tags[i] == LineTag(buffer[i], lineMask)
  {
    if buffer == [] then [] else LineTags(buffer[..|buffer| - 1], lineMask) + [LineTag(buffer[|buffer| - 1], lineMask)]
  }

  class ThreadData {
    const tid: nat
    const isMaster: bool
    var inSingle: bool
    const reuseDist: ReuseDistance
    const lineMask: Word
    var regions: map<nat, Region>
    var curInstrCount: nat
    var curSynchId: nat
    var curBbv: map<BlockKey, nat>
    var curLruHist: seq<nat>
    var buffer: seq<Word>

    ghost const firstId: nat
    ghost var saved: seq<Segment>
    ghost var open: Segment

    ghost predicate RegionsValid()
      reads this`regions, this`curSynchId, this`saved
    {
      && curSynchId == firstId + |saved|
      && (forall id :: id in regions <==> firstId <= id < curSynchId)
      && (forall i :: 0 <= i < |saved| ==> Records(regions[firstId + i], saved[i]))
    }

    ghost predicate OpenValid()
      reads this`curInstrCount, this`curBbv, this`curLruHist, this`open
    {
      Records(Region("", curInstrCount, curBbv, curLruHist), open)
    }

    ghost predicate Valid()
      reads this`regions, this`curSynchId, this`saved, this`curInstrCount, this`curBbv, this`curLruHist, this`open
      reads reuseDist, reuseDist.refList, reuseDist.refList.repr
    {
      && reuseDist.Valid() && reuseDist.refList.skipDistance == 500 && reuseDist.refList.threshold == 100
      && RegionsValid()
      && OpenValid()
      && Distances(reuseDist.trace) == AllDistances(saved) + open.distances
    }

    constructor (threadId: nat, isMasterThread: bool, regionId: nat, mask: Word)
      ensures Valid() && fresh(reuseDist) && fresh(reuseDist.refList) && reuseDist.refList.repr == {}
      ensures tid == threadId && isMaster == isMasterThread && !inSingle
      ensures firstId == curSynchId == regionId && regions == map[] && reuseDist.trace == [] && buffer == []
      ensures saved == [] && open == Segment([], []) && lineMask == mask
    {
      tid, isMaster, inSingle, lineMask := threadId, isMasterThread, false, mask;
      curSynchId, curInstrCount := regionId, 0;
      regions, curBbv, curLruHist, buffer := map[], map[], [], [];
      reuseDist := new ReuseDistance(500, false, 100);
      firstId, saved, open := regionId, [], Segment([], []);
    }

    /** Counts one execution of a basic block. */
    method AddBb(key: BlockKey, instN: nat)
      requires Valid()
      modifies this`curBbv, this`curInstrCount, this`open
      ensures Valid() && open == old(open).(blocks := old(open).blocks + [Block(key, instN)])
    {
      hide ReuseDistance.Valid, ThreadData.RegionsValid, IsHistogram, IsBbv, TotalInstrs, Distances, AllDistances;
      BbvStep(curBbv, open.blocks, Block(key, instN));
      if key in curBbv {
        curBbv := curBbv[key := curBbv[key] + instN];
      } else {
        curBbv := curBbv[key := instN];
      }
      curInstrCount := curInstrCount + instN;
      open := open.(blocks := open.blocks + [Block(key, instN)]);
    }

    /** Cuts off the region between the last synchronization point and this one. */
    method SaveBarrier(synchName: string)
      requires Valid()
      modifies this`regions, this`curSynchId, this`curInstrCount, this`curBbv, this`curLruHist, this`saved, this`open
      ensures Valid() && curSynchId == old(curSynchId) + 1
      ensures saved == old(saved) + [old(open)] && open == Segment([], [])
      ensures regions ==
              old(regions)[old(curSynchId) := Region(synchName, old(curInstrCount), old(curBbv), old(curLruHist))]
    {
      hide ReuseDistance.Valid, ReuseDistance.Reflects, Records, Distances, AllDistances;
      AllDistancesStep(saved, open);
      EmptyRecords();
      SameRecords(Region("", curInstrCount, curBbv, curLruHist), synchName, open);
      // insert leaves an existing entry alone; there never is one
      if curSynchId !in regions {
        regions := regions[curSynchId := Region(synchName, curInstrCount, curBbv, curLruHist)];
      }
      assert curSynchId in regions && regions != map[];
      saved := saved + [open];
      open := Segment([], []);
      curSynchId := curSynchId + 1;
      curInstrCount := 0;
      curBbv := map[];
      curLruHist := [];
    }

    /** The instruction count of a saved region, 0 for one this thread has not seen. */
    method GetInstrCount(synchId: nat) returns (n: nat)
      requires Valid()
      ensures n == if firstId <= synchId < curSynchId then TotalInstrs(saved[synchId - firstId].blocks) else 0
    {
      if synchId in regions {
        n := regions[synchId].instrCount;
        assert Records(regions[firstId + (synchId - firstId)], saved[synchId - firstId]);
      } else {
        n := 0;
      }
    }

    /** Counts the distance of one reference in the current histogram. */
    method CountDistance(d: int)
      requires OpenValid() && d >= -1
      modifies this`curLruHist, this`open
      ensures OpenValid() && open == old(open).(distances := old(open).distances + [d])
    {
      if d != -1 {
        HistogramStep(curLruHist, open.distances, d);
        var log2 := Bucket(d);
        ghost var grown := Bumped(curLruHist, log2);
        if log2 >= |curLruHist| {
          curLruHist := curLruHist + seq(log2 + 1 - |curLruHist|, _ => 0);
        }
        curLruHist := curLruHist[log2 := curLruHist[log2] + 1];
        assert curLruHist == grown;
      } else {
        HistogramSkip(curLruHist, open.distances);
      }
      open := open.(distances := open.distances + [d]);
    }

    /** Feeds the buffered addresses to the distance engine and empties the buffer. */
    method AddAddress()
      requires Valid()
      modifies this`curLruHist, this`open, this`buffer
      modifies reuseDist, reuseDist.refList, reuseDist.refList.repr
      ensures Valid() && buffer == []
      ensures reuseDist.trace == old(reuseDist.trace) + LineTags(old(buffer), lineMask)
      ensures open.blocks == old(open).blocks
      ensures fresh(reuseDist.refList.repr - old(reuseDist.refList.repr))
    {
      hide ReuseDistance.Valid, ThreadData.RegionsValid, ThreadData.OpenValid, Distances, AllDistances;
      var i := 0;
      while i < |buffer|
        invariant 0 <= i <= |buffer| && buffer == old(buffer)
        invariant Valid() && open.blocks == old(open).blocks
        invariant reuseDist.trace == old(reuseDist.trace) + LineTags(buffer[..i], lineMask)
        invariant fresh(reuseDist.refList.repr - old(reuseDist.refList.repr))
      {
        FeedOne(LineTag(buffer[i], lineMask));
        assert buffer[..i + 1][..i] == buffer[..i];
        i := i + 1;
      }
      assert buffer[..i] == buffer;
      buffer := [];
    }

    method FeedOne(tag: Tag)
      requires Valid()
      modifies this`curLruHist, this`open, reuseDist, reuseDist.refList, reuseDist.refList.repr
      ensures Valid() && reuseDist.trace == old(reuseDist.trace) + [tag]
      ensures open.blocks == old(open).blocks
      ensures fresh(reuseDist.refList.repr - old(reuseDist.refList.repr))
    {
      hide ReuseDistance.Valid, ReuseDistance.Reflects, ThreadData.RegionsValid, ThreadData.OpenValid, Distances,
           AllDistances, Distance;
      DistancesStep(reuseDist.trace, tag);
      var ok, d := reuseDist.LookupDistance(tag);
      assert ok;
      CountDistance(d);
    }

    /** Drops the buffered addresses. */
    method CleanBuffer()
      requires Valid()
      modifies this`buffer
      ensures Valid() && buffer == []
    {
      buffer := [];
    }
  }

  // ---------- whole-run conservation ----------

  /** The reuses counted by the histograms of the first n saved regions. */
  ghost function SavedReuses(td: ThreadData, n: nat): nat
    requires td.RegionsValid() && n <= |td.saved|
    reads td
  {
    if n == 0 then 0 else SavedReuses(td, n - 1) + Sum(td.regions[td.firstId + n - 1].lruHist)
  }

  /** The instructions in the basic-block vectors of the first n saved regions. */
  ghost function SavedInstrs(td: ThreadData, n: nat): nat
    requires td.RegionsValid() && n <= |td.saved|
    reads td
  {
    if n == 0 then 0 else SavedInstrs(td, n - 1) + MapSum(td.regions[td.firstId + n - 1].bbv)
  }

  function AllBlocks(segs: seq<Segment>): seq<Block> {
    if segs == [] then [] else AllBlocks(segs[..|segs| - 1]) + segs[|segs| - 1].blocks
  }

  /** What the records of a segment add up to. */
  lemma RecordsSum(r: Region, s: Segment)
    requires Records(r, s)
    ensures Sum(r.lruHist) == Reuses(s.distances)
    ensures MapSum(r.bbv) == r.instrCount == TotalInstrs(s.blocks)
  {
  }

  lemma EmptySums()
    ensures Reuses([]) == 0 && TotalInstrs([]) == 0
  {
  }

  lemma {:induction false} SavedReusesAre(td: ThreadData, n: nat)
    requires td.RegionsValid() && n <= |td.saved|
    ensures SavedReuses(td, n) == Reuses(AllDistances(td.saved[..n]))
  {
    hide Records, Reuses, Sum;
    EmptySums();
    if n > 0 {
      SavedReusesAre(td, n - 1);
      RecordsSum(td.regions[td.firstId + (n - 1)], td.saved[n - 1]);
      assert td.saved[..n][..n - 1] == td.saved[..n - 1];
      ReusesConcat(AllDistances(td.saved[..n - 1]), td.saved[n - 1].distances);
    }
  }

  lemma {:induction false} TotalConcat(a: seq<Block>, b: seq<Block>)
    ensures TotalInstrs(a + b) == TotalInstrs(a) + TotalInstrs(b)
  {
    if b == [] {
      assert a + b == a;
    } else {
      TotalConcat(a, b[..|b| - 1]);
      assert (a + b)[..|a + b| - 1] == a + b[..|b| - 1];
    }
  }

  lemma {:induction false} SavedInstrsAre(td: ThreadData, n: nat)
    requires td.RegionsValid() && n <= |td.saved|
    ensures SavedInstrs(td, n) == TotalInstrs(AllBlocks(td.saved[..n]))
  {
    hide Records, MapSum, TotalInstrs;
    EmptySums();
    if n > 0 {
      SavedInstrsAre(td, n - 1);
      RecordsSum(td.regions[td.firstId + (n - 1)], td.saved[n - 1]);
      assert td.saved[..n][..n - 1] == td.saved[..n - 1];
      TotalConcat(AllBlocks(td.saved[..n - 1]), td.saved[n - 1].blocks);
    }
  }

  /** In every reachable state, all histogram buckets of all saved regions and the current one,
      plus the number of distinct lines, add up to the number of references fed. */
  lemma {:induction false} ReferencesConserved(td: ThreadData)
    requires td.Valid()
    ensures SavedReuses(td, |td.saved|) + Sum(td.curLruHist) + |Elements(td.reuseDist.trace)| == |td.reuseDist.trace|
  {
    SavedReusesAre(td, |td.saved|);
    assert td.saved[..|td.saved|] == td.saved;
    ReusesConcat(AllDistances(td.saved), td.open.distances);
    ReusesPlusLines(td.reuseDist.trace);
  }

  /** All basic-block vectors together hold every instruction of every executed block, and each
      region's vector sums to its instruction count. */
  lemma {:induction false} InstructionsConserved(td: ThreadData)
    requires td.Valid()
    ensures SavedInstrs(td, |td.saved|) + MapSum(td.curBbv) == TotalInstrs(AllBlocks(td.saved) + td.open.blocks)
    ensures forall id :: id in td.regions ==> MapSum(td.regions[id].bbv) == td.regions[id].instrCount
    ensures MapSum(td.curBbv) == td.curInstrCount
  {
    SavedInstrsAre(td, |td.saved|);
    assert td.saved[..|td.saved|] == td.saved;
    TotalConcat(AllBlocks(td.saved), td.open.blocks);
    forall id | id in td.regions
      ensures MapSum(td.regions[id].bbv) == td.regions[id].instrCount
    {
      assert Records(td.regions[td.firstId + (id - td.firstId)], td.saved[id - td.firstId]);
    }
  }
}
