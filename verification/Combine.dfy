/**
 Combining reuse and code vectors into the fingerprint of each barrier point (DrAnalysis.py,
 __CombineBBVsandLDVs): the first row of every file is skipped, code dimensions are shifted past
 the reuse dimensions, and reuse counts are reweighted to the phase's instruction count.
 */
module Combine {
  import opened Common
  import opened LineFormat
  import opened Fingerprint
  import opened ThreadDatas

  /** An entry of a combined vector: a dimension id and a weight. */
  type Entry = (nat, real)

  function SumWeights(es: seq<Entry>): real {
    if es == [] then 0.0 else SumWeights(es[..|es| - 1]) + es[|es| - 1].1
  }

  /** The part of the phase's instructions that falls to count out of total reuses. */
  function Share(count: nat, ins: nat, total: nat): real
    requires total != 0
  {
    ((count * ins) as real) / (total as real)
  }

  function Reweighted(row: seq<Item>, ins: nat, total: nat): (es: seq<Entry>)
    requires total != 0
    ensures |es| == |row|
    ensures forall k :: 0 <= k < |es| ==> es[k] == (row[k].0, Share(row[k].1, ins, total))
  {
    seq(|row|, k requires 0 <= k < |row| => (row[k].0, Share(row[k].1, ins, total)))
  }

  function Shifted(row: seq<Item>, bbmax: nat): (es: seq<Entry>)
    ensures |es| == |row|
    ensures forall k :: 0 <= k < |es| ==> es[k] == (row[k].0 + bbmax, row[k].1 as real)
  {
    seq(|row|, k requires 0 <= k < |row| => (row[k].0 + bbmax, row[k].1 as real))
  }

  lemma ShareAdd(a: nat, b: nat, ins: nat, total: nat)
    requires total != 0
    ensures Share(a + b, ins, total) == Share(a, ins, total) + Share(b, ins, total)
  {
    assert (a + b) * ins == a * ins + b * ins;
  }

  lemma ShareAll(ins: nat, total: nat)
    requires total != 0
    ensures Share(0, ins, total) == 0.0 && Share(total, ins, total) == ins as real
  {
    assert (total * ins) as real == (total as real) * (ins as real);
  }

  lemma {:induction false} WeightsAreShare(row: seq<Item>, ins: nat, total: nat)
    requires total != 0
    ensures SumWeights(Reweighted(row, ins, total)) == Share(SumCounts(row), ins, total)
  {
    var es := Reweighted(row, ins, total);
    if row == [] {
      ShareAll(ins, total);
    } else {
      WeightsAreShare(row[..|row| - 1], ins, total);
      ShareAdd(SumCounts(row[..|row| - 1]), row[|row| - 1].1, ins, total);
      assert es[..|es| - 1] == Reweighted(row[..|row| - 1], ins, total);
    }
  }

  /** The adjusted reuse weights of a phase add up to its instruction count, exactly. */
  lemma {:induction false} MassConserved(row: seq<Item>, ins: nat)
    requires SumCounts(row) != 0
    ensures SumWeights(Reweighted(row, ins, SumCounts(row))) == ins as real
  {
    WeightsAreShare(row, ins, SumCounts(row));
    ShareAll(ins, SumCounts(row));
  }

  /** The files' rows without the first one. */
  function Tail<T>(rows: seq<T>): seq<T> {
    if rows == [] then [] else rows[1..]
  }

  /** The combined vector of one phase. */
  function Combined(reuse: seq<Item>, ins: nat, code: seq<Item>, bbmax: nat): seq<Entry>
    requires reuse != [] ==> SumCounts(reuse) != 0
  {
    (if reuse == [] then [] else Reweighted(reuse, ins, SumCounts(reuse))) + Shifted(code, bbmax)
  }

  /** The analysis goes through: every code row has its reuse and instruction rows, these two are
      equally many, and no row with reuses has a zero total. */
  ghost predicate Consistent(reuse: seq<seq<Item>>, ins: seq<seq<nat>>, code: seq<seq<Item>>) {
    && |Tail(ins)| == |Tail(reuse)|
    && |Tail(code)| <= |Tail(reuse)|
    && (forall i :: 0 <= i < |Tail(code)| && Tail(reuse)[i] != [] ==> SumCounts(Tail(reuse)[i]) != 0)
  }

  /** bbmax is the largest reuse dimension of the rows, 0 if there is none. */
  ghost predicate IsMaxId(rows: seq<seq<Item>>, bbmax: nat) {
    && (forall i, k :: 0 <= i < |rows| && 0 <= k < |rows[i]| ==> rows[i][k].0 <= bbmax)
    && (bbmax == 0 || exists i, k :: 0 <= i < |rows| && 0 <= k < |rows[i]| && rows[i][k].0 == bbmax)
  }

  method MaxId(rows: seq<seq<Item>>) returns (bbmax: nat)
    ensures IsMaxId(rows, bbmax)
  {
    bbmax := 0;
    for i := 0 to |rows|
      invariant IsMaxId(rows[..i], bbmax)
    {
      ghost var before := bbmax;
      for k := 0 to |rows[i]|
        invariant before <= bbmax
        invariant forall j :: 0 <= j < k ==> rows[i][j].0 <= bbmax
        invariant bbmax == before || exists j :: 0 <= j < k && rows[i][j].0 == bbmax
      {
        if rows[i][k].0 > bbmax {
          bbmax := rows[i][k].0;
        }
      }
      var now := rows[..i + 1];
      assert forall j :: 0 <= j < i ==> now[j] == rows[..i][j];
      assert now[i] == rows[i];
    }
    assert rows[..|rows|] == rows;
  }

  /** The combined vectors of all phases after the first row; None when the source's length
      assertion, an index or the division fails. */
  method CombineRows(reuse: seq<seq<Item>>, ins: seq<seq<nat>>, code: seq<seq<Item>>)
    returns (combined: Option<seq<seq<Entry>>>, bbmax: nat)
    ensures IsMaxId(Tail(reuse), bbmax)
    ensures combined.Some? <==> Consistent(reuse, ins, code)
    ensures combined.Some? ==>
              && |combined.value| == |Tail(code)|
              && (forall i :: 0 <= i < |Tail(code)| ==>
                   combined.value[i] == Combined(Tail(reuse)[i], Sum(Tail(ins)[i]), Tail(code)[i], bbmax))
  {
    var rs, ns, cs := Tail(reuse), Tail(ins), Tail(code);
    bbmax := MaxId(rs);
    if |ns| != |rs| {
      return None, bbmax;
    }
    var out: seq<seq<Entry>> := [];
    for i := 0 to |cs|
      invariant |out| == i && i <= |rs|
      invariant forall j :: 0 <= j < i && rs[j] != [] ==> SumCounts(rs[j]) != 0
      invariant forall j :: 0 <= j < i ==> out[j] == Combined(rs[j], Sum(ns[j]), cs[j], bbmax)
    {
      if i >= |rs| || (rs[i] != [] && SumCounts(rs[i]) == 0) {
        return None, bbmax;
      }
      out := out + [Combined(rs[i], Sum(ns[i]), cs[i], bbmax)];
    }
    return Some(out), bbmax;
  }

  /** The text of a file: the first line starts with W, the others with T. */
  function FileLines(rows: seq<seq<Item>>): (lines: seq<string>)
    ensures |lines| == |rows|
  {
    seq(|rows|, i requires 0 <= i < |rows| => Print(if i == 0 then 'W' else 'T', rows[i]))
  }

  /** Reading every line of a written file gives the rows back. */
  lemma FilesReadBack(rows: seq<seq<Item>>)
    ensures forall i :: 0 <= i < |rows| ==> Parse(FileLines(rows)[i]) == Some(rows[i])
    ensures forall i :: 0 <= i < |rows| ==> FileLines(rows)[i] != [] && (FileLines(rows)[i][0] == 'W' <==> i == 0)
  {
    hide Parse, ArePieces;
    forall i | 0 <= i < |rows|
      ensures Parse(FileLines(rows)[i]) == Some(rows[i])
      ensures FileLines(rows)[i] != [] && (FileLines(rows)[i][0] == 'W' <==> i == 0)
    {
      PrintedText(if i == 0 then 'W' else 'T', rows[i]);
      RoundTrip(if i == 0 then 'W' else 'T', rows[i]);
    }
  }

  // ---------- from regions to fingerprints ----------

  /** The three files for a run: per synchronization point the reuse items, the instruction counts
      of the threads, and the code items. */
  method SaveFiles(threads: seq<Regions>, synchCount: nat)
    returns (reuse: seq<seq<Item>>, ins: seq<seq<nat>>, code: seq<seq<Item>>, maxSize: nat, ids: map<BlockKey, nat>)
    ensures |reuse| == |ins| == |code| == synchCount
    ensures Numbering(ids)
    ensures forall t, id :: 0 <= t < |threads| && 0 <= id < synchCount && id in threads[t] ==>
              |threads[t][id].lruHist| <= maxSize
    ensures forall id :: 0 <= id < synchCount ==> IsReuseRow(threads, id, maxSize, reuse[id])
    ensures forall id :: 0 <= id < synchCount ==> IsCodeRow(threads, id, ids, code[id])
    ensures forall id :: 0 <= id < synchCount ==> InsRow(threads, id, ins[id])
  {
    maxSize := MaxHistSize(threads, synchCount);
    ids := NumberBlocks(threads, synchCount);
    reuse, ins, code := [], [], [];
    for id := 0 to synchCount
      invariant |reuse| == |ins| == |code| == id
      invariant forall i :: 0 <= i < id ==> IsReuseRow(threads, i, maxSize, reuse[i])
      invariant forall i :: 0 <= i < id ==> IsCodeRow(threads, i, ids, code[i])
      invariant forall i :: 0 <= i < id ==> InsRow(threads, i, ins[i])
    {
      forall t | 0 <= t < |threads| && id in threads[t]
        ensures threads[t][id].bbv.Keys <= ids.Keys
      {
        assert forall k :: k in threads[t][id].bbv ==> Seen(threads, synchCount, k);
      }
      hide IsReuseRow, IsCodeRow, InsRow, Numbering, Seen;
      var row := SaveReuseRow(threads, id, maxSize);
      var crow := SaveCodeRow(threads, id, ids);
      var irow := SaveInsRow(threads, id);
      reuse, ins, code := reuse + [row], ins + [irow], code + [crow];
    }
  }

  /** The instruction counts of all threads in region id, 0 for a thread that has not seen it. */
  ghost predicate InsRow(threads: seq<Regions>, id: nat, row: seq<nat>) {
    && |row| == |threads|
    && (forall t :: 0 <= t < |row| ==> row[t] == if id in threads[t] then threads[t][id].instrCount else 0)
  }

  method SaveInsRow(threads: seq<Regions>, id: nat) returns (row: seq<nat>)
    ensures InsRow(threads, id, row)
  {
    row := [];
    for t := 0 to |threads|
      invariant |row| == t
      invariant forall u :: 0 <= u < t ==> row[u] == if id in threads[u] then threads[u][id].instrCount else 0
    {
      row := row + [if id in threads[t] then threads[t][id].instrCount else 0];
    }
  }

  /** The client's files always pass the analysis: the rows line up and no total is zero. */
  lemma ClientFilesConsistent(threads: seq<Regions>, maxSize: nat, reuse: seq<seq<Item>>, ins: seq<seq<nat>>,
                              code: seq<seq<Item>>)
    requires |reuse| == |ins| == |code|
    requires forall id :: 0 <= id < |reuse| ==> IsReuseRow(threads, id, maxSize, reuse[id])
    ensures Consistent(reuse, ins, code)
  {
    forall i | 0 <= i < |Tail(code)| && Tail(reuse)[i] != []
      ensures SumCounts(Tail(reuse)[i]) != 0
    {
      assert IsReuseRow(threads, i + 1, maxSize, reuse[i + 1]);
      var srcs :| ReuseRow(threads, i + 1, maxSize, reuse[i + 1], srcs);
      PositiveSum(reuse[i + 1]);
    }
  }

  lemma {:induction false} PositiveSum(row: seq<Item>)
    requires row != [] && forall k :: 0 <= k < |row| ==> row[k].1 != 0
    ensures SumCounts(row) != 0
  {
  }

  /** The dimension id a source ends up with in the combined vectors. */
  function Dimension(maxSize: nat, ids: map<BlockKey, nat>, bbmax: nat, src: Source): nat
    requires src.Code? ==> src.key in ids
  {
    match src
    case Reuse(t, b) => ReuseId(maxSize, t, b)
    case Code(t, k) => CodeId(ids, t, k) + bbmax
  }

  /** A source that occurs in the vectors: its bucket fits the stride, its reuse dimension is
      below the shift. */
  ghost predicate Proper(maxSize: nat, ids: map<BlockKey, nat>, bbmax: nat, src: Source) {
    match src
    case Reuse(t, b) => b < maxSize && ReuseId(maxSize, t, b) <= bbmax
    case Code(t, k) => k in ids
  }

  /** Reuse dimensions never meet code dimensions. */
  lemma KindsApart(maxSize: nat, ids: map<BlockKey, nat>, bbmax: nat, t: nat, b: nat, u: nat, k: BlockKey)
    requires Numbering(ids) && k in ids && ReuseId(maxSize, t, b) <= bbmax
    ensures ReuseId(maxSize, t, b) < CodeId(ids, u, k) + bbmax
  {
    hide Numbering, ReuseId, CodeId;
    CodeIdIs(ids, u, k, 1);
    assert u * |ids| >= 0;
  }

  lemma CodeApart(ids: map<BlockKey, nat>, t: nat, j: BlockKey, u: nat, k: BlockKey)
    requires Numbering(ids) && j in ids && k in ids && CodeId(ids, t, j) == CodeId(ids, u, k)
    ensures t == u && j == k
  {
    StrideInjective(|ids|, t, ids[j] - 1, u, ids[k] - 1);
  }

  lemma ReuseApart(maxSize: nat, t: nat, b: nat, u: nat, c: nat)
    requires b < maxSize && c < maxSize && ReuseId(maxSize, t, b) == ReuseId(maxSize, u, c)
    ensures t == u && b == c
  {
    StrideInjective(maxSize, t, b, u, c);
  }

  /** Two sources share a dimension exactly when they are the same thread and bucket, or the same
      thread and basic block. */
  lemma NoCollision(maxSize: nat, ids: map<BlockKey, nat>, bbmax: nat, a: Source, b: Source)
    requires Numbering(ids) && Proper(maxSize, ids, bbmax, a) && Proper(maxSize, ids, bbmax, b)
    ensures Dimension(maxSize, ids, bbmax, a) == Dimension(maxSize, ids, bbmax, b) <==> a == b
  {
    hide ReuseId, CodeId, Numbering;
    if Dimension(maxSize, ids, bbmax, a) == Dimension(maxSize, ids, bbmax, b) {
      match (a, b)
      case (Reuse(t, i), Reuse(u, j)) => ReuseApart(maxSize, t, i, u, j);
      case (Code(t, i), Code(u, j)) => CodeApart(ids, t, i, u, j);
      case (Reuse(t, i), Code(u, j)) => KindsApart(maxSize, ids, bbmax, t, i, u, j);
      case (Code(t, i), Reuse(u, j)) => KindsApart(maxSize, ids, bbmax, u, j, t, i);
    }
  }

  // ---------- end to end ----------

  /** Instructions all threads executed in region id. */
  function PhaseInstrs(threads: seq<Regions>, id: nat): nat {
    if threads == [] then 0
    else PhaseInstrs(threads[..|threads| - 1], id) +
         if id in threads[|threads| - 1] then threads[|threads| - 1][id].instrCount else 0
  }

  lemma {:induction false} InsRowSum(threads: seq<Regions>, id: nat, row: seq<nat>)
    requires InsRow(threads, id, row)
    ensures Sum(row) == PhaseInstrs(threads, id)
  {
    if row != [] {
      InsRowSum(threads[..|threads| - 1], id, row[..|row| - 1]);
    }
  }

  /** The weight the source's count c gets: a block's count itself, and for a reuse its share of the
      phase's instructions among all reuses of the phase. */
  ghost predicate Weighs(threads: seq<Regions>, id: nat, src: Source, c: nat, weight: real) {
    match src
    case Reuse(_, _) =>
      PhaseReuses(threads, id) != 0 && weight == Share(c, PhaseInstrs(threads, id), PhaseReuses(threads, id))
    case Code(_, _) => weight == c as real
  }

  /** The weight is the one of the source's count. */
  ghost predicate Carries(threads: seq<Regions>, id: nat, src: Source, weight: real) {
    exists c :: Emits(threads, id, src, c) && Weighs(threads, id, src, c, weight)
  }

  /** The entries of a phase, the first cut of them for reuses: one for every source of region id,
      at the source's dimension and with its weight; the reuse entries together weigh as much as
      the phase has instructions. */
  ghost predicate Describes(threads: seq<Regions>, id: nat, maxSize: nat, ids: map<BlockKey, nat>, bbmax: nat,
                            es: seq<Entry>, cut: nat, srcs: seq<Source>) {
    && |srcs| == |es| && cut <= |es|
    && (forall k :: 0 <= k < |es| ==>
         && Proper(maxSize, ids, bbmax, srcs[k]) && es[k].0 == Dimension(maxSize, ids, bbmax, srcs[k])
         && (srcs[k].Reuse? <==> k < cut))
    && (forall k :: 0 <= k < |es| ==> Carries(threads, id, srcs[k], es[k].1))
    && NoDuplicates(srcs)
    && (forall src, c :: Emits(threads, id, src, c) ==> src in srcs)
    && (cut > 0 ==> SumWeights(es[..cut]) == PhaseInstrs(threads, id) as real)
  }

  lemma {:induction false} ReuseEntries(threads: seq<Regions>, id: nat, maxSize: nat, ids: map<BlockKey, nat>,
                                        bbmax: nat, reuse: seq<Item>, rsrcs: seq<Source>, ins: nat)
    requires ReuseRow(threads, id, maxSize, reuse, rsrcs) && reuse != [] && SumCounts(reuse) != 0
    requires ins == PhaseInstrs(threads, id)
    requires forall k :: 0 <= k < |reuse| ==> reuse[k].0 <= bbmax
    requires forall t :: 0 <= t < |threads| && id in threads[t] ==> |threads[t][id].lruHist| <= maxSize
    ensures forall k :: 0 <= k < |reuse| ==>
              && rsrcs[k].Reuse? && Proper(maxSize, ids, bbmax, rsrcs[k])
              && Reweighted(reuse, ins, SumCounts(reuse))[k].0 == Dimension(maxSize, ids, bbmax, rsrcs[k])
              && Carries(threads, id, rsrcs[k], Reweighted(reuse, ins, SumCounts(reuse))[k].1)
  {
    hide ReuseId, SumCounts, Emits, PhaseInstrs, PhaseReuses, Share;
    forall k | 0 <= k < |reuse|
      ensures rsrcs[k].Reuse? && Proper(maxSize, ids, bbmax, rsrcs[k])
      ensures Carries(threads, id, rsrcs[k], Reweighted(reuse, ins, SumCounts(reuse))[k].1)
    {
      BucketFits(threads, id, rsrcs[k], reuse[k].1);
      assert Weighs(threads, id, rsrcs[k], reuse[k].1, Reweighted(reuse, ins, SumCounts(reuse))[k].1);
    }
  }

  lemma CodeEntries(threads: seq<Regions>, id: nat, maxSize: nat, ids: map<BlockKey, nat>, bbmax: nat,
                    code: seq<Item>, csrcs: seq<Source>)
    requires CodeRow(threads, id, ids, code, csrcs)
    ensures forall k :: 0 <= k < |code| ==>
              && csrcs[k].Code? && Proper(maxSize, ids, bbmax, csrcs[k])
              && Shifted(code, bbmax)[k].0 == Dimension(maxSize, ids, bbmax, csrcs[k])
              && Carries(threads, id, csrcs[k], Shifted(code, bbmax)[k].1)
  {
    hide CodeId, Emits;
    forall k | 0 <= k < |code|
      ensures Carries(threads, id, csrcs[k], Shifted(code, bbmax)[k].1)
    {
      assert Emits(threads, id, csrcs[k], code[k].1);
      assert Weighs(threads, id, csrcs[k], code[k].1, Shifted(code, bbmax)[k].1);
    }
  }

  lemma AllSources(threads: seq<Regions>, id: nat, maxSize: nat, ids: map<BlockKey, nat>,
                   reuse: seq<Item>, rsrcs: seq<Source>, code: seq<Item>, csrcs: seq<Source>)
    requires ReuseRow(threads, id, maxSize, reuse, rsrcs) && CodeRow(threads, id, ids, code, csrcs)
    ensures |rsrcs| == |reuse| && |csrcs| == |code| && NoDuplicates(rsrcs + csrcs)
    ensures forall src, c :: Emits(threads, id, src, c) ==> src in rsrcs + csrcs
  {
    hide ReuseId, CodeId, Emits;
    forall j, k | 0 <= j < k < |rsrcs + csrcs|
      ensures (rsrcs + csrcs)[j] != (rsrcs + csrcs)[k]
    {
      if j < |reuse| <= k {
        assert rsrcs[j].Reuse? && csrcs[k - |reuse|].Code?;
      }
    }
    forall src, c | Emits(threads, id, src, c)
      ensures src in rsrcs + csrcs
    {
      match src
      case Reuse(t, b) => assert Reuse(t, b) in rsrcs;
      case Code(t, k) => assert Code(t, k) in csrcs;
    }
  }

  lemma {:induction false} CombinedParts(reuse: seq<Item>, ins: nat, code: seq<Item>, bbmax: nat)
    requires reuse != [] ==> SumCounts(reuse) != 0
    ensures |Combined(reuse, ins, code, bbmax)| == |reuse| + |code|
    ensures reuse != [] ==>
              Combined(reuse, ins, code, bbmax)[..|reuse|] == Reweighted(reuse, ins, SumCounts(reuse))
    ensures forall k :: 0 <= k < |reuse| ==>
              Combined(reuse, ins, code, bbmax)[k] == Reweighted(reuse, ins, SumCounts(reuse))[k]
    ensures forall k :: |reuse| <= k < |reuse| + |code| ==>
              Combined(reuse, ins, code, bbmax)[k] == Shifted(code, bbmax)[k - |reuse|]
  {
    hide SumCounts;
  }

  lemma {:induction false} DescribesRow(threads: seq<Regions>, id: nat, maxSize: nat, ids: map<BlockKey, nat>,
                                        bbmax: nat, reuse: seq<Item>, rsrcs: seq<Source>, code: seq<Item>,
                                        csrcs: seq<Source>, ins: seq<nat>)
    requires ReuseRow(threads, id, maxSize, reuse, rsrcs) && CodeRow(threads, id, ids, code, csrcs)
    requires InsRow(threads, id, ins) && (reuse != [] ==> SumCounts(reuse) != 0)
    requires forall k :: 0 <= k < |reuse| ==> reuse[k].0 <= bbmax
    requires forall t :: 0 <= t < |threads| && id in threads[t] ==> |threads[t][id].lruHist| <= maxSize
    ensures Describes(threads, id, maxSize, ids, bbmax, Combined(reuse, Sum(ins), code, bbmax), |reuse|, rsrcs + csrcs)
  {
    hide InsRow, SumCounts, Sum, SumWeights, PhaseInstrs, Emits, Carries, Dimension, ReuseRow, CodeRow,
         Combined;
    var total := Sum(ins);
    var es, srcs := Combined(reuse, total, code, bbmax), rsrcs + csrcs;
    InsRowSum(threads, id, ins);
    AllSources(threads, id, maxSize, ids, reuse, rsrcs, code, csrcs);
    CombinedParts(reuse, total, code, bbmax);
    if reuse != [] {
      MassConserved(reuse, total);
    }
    forall k | 0 <= k < |es|
      ensures Proper(maxSize, ids, bbmax, srcs[k]) && es[k].0 == Dimension(maxSize, ids, bbmax, srcs[k])
      ensures srcs[k].Reuse? <==> k < |reuse|
      ensures Carries(threads, id, srcs[k], es[k].1)
    {
      if k < |reuse| {
        ReuseEntries(threads, id, maxSize, ids, bbmax, reuse, rsrcs, total);
        assert srcs[k] == rsrcs[k];
      } else {
        CodeEntries(threads, id, maxSize, ids, bbmax, code, csrcs);
        assert srcs[k] == csrcs[k - |reuse|];
      }
    }
  }

  lemma BucketFits(threads: seq<Regions>, id: nat, src: Source, count: nat)
    requires src.Reuse? && Emits(threads, id, src, count)
    ensures src.thread < |threads| && id in threads[src.thread] && src.bucket < |threads[src.thread][id].lruHist|
  {
  }

  /** Same dimension exactly for the same source. */
  predicate SameIff(e: Entry, f: Entry, s: Source, t: Source) {
    e.0 == f.0 <==> s == t
  }

  /** The vectors are complete and collision-free: phase i describes synchronization point i+1, and
      across all phases two entries share a dimension exactly when they stem from the same thread
      and reuse bucket, or the same thread and basic block. */
  ghost predicate Faithful(threads: seq<Regions>, maxSize: nat, ids: map<BlockKey, nat>, bbmax: nat,
                           combined: seq<seq<Entry>>, cuts: seq<nat>, srcs: seq<seq<Source>>) {
    && |combined| == |cuts| == |srcs|
    && (forall i :: 0 <= i < |combined| ==>
         && |srcs[i]| == |combined[i]|
         && Describes(threads, i + 1, maxSize, ids, bbmax, combined[i], cuts[i], srcs[i]))
    && (forall i, j, k, l ::
         0 <= i < |combined| && 0 <= j < |combined| && 0 <= k < |combined[i]| && 0 <= l < |combined[j]| ==>
           SameIff(combined[i][k], combined[j][l], srcs[i][k], srcs[j][l]))
  }

  /** From the threads' regions to the fingerprints of all synchronization points but the first. */
  method Fingerprints(threads: seq<Regions>, synchCount: nat)
    returns (combined: seq<seq<Entry>>, maxSize: nat, ids: map<BlockKey, nat>, bbmax: nat)
    ensures |combined| == if synchCount == 0 then 0 else synchCount - 1
    ensures exists cuts, srcs :: Faithful(threads, maxSize, ids, bbmax, combined, cuts, srcs)
  {
    hide Faithful, Numbering, Consistent, IsMaxId, Combined, IsReuseRow, IsCodeRow, InsRow, SumCounts;
    var reuse: seq<seq<Item>>, ins: seq<seq<nat>>, code: seq<seq<Item>>;
    reuse, ins, code, maxSize, ids := SaveFiles(threads, synchCount);
    ClientFilesConsistent(threads, maxSize, reuse, ins, code);
    var rows: Option<seq<seq<Entry>>>;
    rows, bbmax := CombineRows(reuse, ins, code);
    combined := rows.value;
    RowsFaithful(threads, maxSize, ids, bbmax, reuse, ins, code, combined);
  }

  lemma RowsFaithful(threads: seq<Regions>, maxSize: nat, ids: map<BlockKey, nat>, bbmax: nat,
                     reuse: seq<seq<Item>>, ins: seq<seq<nat>>, code: seq<seq<Item>>, combined: seq<seq<Entry>>)
    requires |reuse| == |ins| == |code| && Numbering(ids)
    requires forall t, id :: 0 <= t < |threads| && 0 <= id < |reuse| && id in threads[t] ==>
               |threads[t][id].lruHist| <= maxSize
    requires forall id :: 0 <= id < |reuse| ==> IsReuseRow(threads, id, maxSize, reuse[id])
    requires forall id :: 0 <= id < |reuse| ==> IsCodeRow(threads, id, ids, code[id])
    requires forall id :: 0 <= id < |reuse| ==> InsRow(threads, id, ins[id])
    requires IsMaxId(Tail(reuse), bbmax) && Consistent(reuse, ins, code) && |combined| == |Tail(code)|
    requires forall i :: 0 <= i < |Tail(code)| ==>
               combined[i] == Combined(Tail(reuse)[i], Sum(Tail(ins)[i]), Tail(code)[i], bbmax)
    ensures exists cuts, srcs :: Faithful(threads, maxSize, ids, bbmax, combined, cuts, srcs)
  {
    hide Describes, Numbering, ReuseRow, CodeRow, InsRow, Combined, IsReuseRow, IsCodeRow, IsMaxId, SumCounts, Sum;
    var rsrcs, csrcs := RowSources(threads, maxSize, ids, reuse, code);
    var cuts, srcs := Join(reuse, rsrcs, csrcs);
    forall i | 0 <= i < |combined|
      ensures Describes(threads, i + 1, maxSize, ids, bbmax, combined[i], cuts[i], srcs[i])
    {
      PhaseDescribed(threads, i, maxSize, ids, bbmax, reuse, rsrcs, code, csrcs, ins);
    }
    AllApart(threads, maxSize, ids, bbmax, combined, cuts, srcs);
    assert Faithful(threads, maxSize, ids, bbmax, combined, cuts, srcs);
  }

  /** The sources behind every row. */
  lemma RowSources(threads: seq<Regions>, maxSize: nat, ids: map<BlockKey, nat>,
                   reuse: seq<seq<Item>>, code: seq<seq<Item>>)
    returns (rsrcs: seq<seq<Source>>, csrcs: seq<seq<Source>>)
    requires |reuse| == |code|
    requires forall id :: 0 <= id < |reuse| ==> IsReuseRow(threads, id, maxSize, reuse[id])
    requires forall id :: 0 <= id < |reuse| ==> IsCodeRow(threads, id, ids, code[id])
    ensures |rsrcs| == |csrcs| == |reuse|
    ensures forall id :: 0 <= id < |reuse| ==> ReuseRow(threads, id, maxSize, reuse[id], rsrcs[id])
    ensures forall id :: 0 <= id < |reuse| ==> CodeRow(threads, id, ids, code[id], csrcs[id])
  {
    hide ReuseRow, CodeRow;
    rsrcs, csrcs := [], [];
    for n := 0 to |reuse|
      invariant |rsrcs| == |csrcs| == n
      invariant forall id :: 0 <= id < n ==> ReuseRow(threads, id, maxSize, reuse[id], rsrcs[id])
      invariant forall id :: 0 <= id < n ==> CodeRow(threads, id, ids, code[id], csrcs[id])
    {
      assert IsReuseRow(threads, n, maxSize, reuse[n]) && IsCodeRow(threads, n, ids, code[n]);
      var r :| ReuseRow(threads, n, maxSize, reuse[n], r);
      var c :| CodeRow(threads, n, ids, code[n], c);
      rsrcs, csrcs := rsrcs + [r], csrcs + [c];
    }
  }

  /** Per phase, the number of reuse items and the sources of all items. */
  lemma Join(reuse: seq<seq<Item>>, rsrcs: seq<seq<Source>>, csrcs: seq<seq<Source>>)
    returns (cuts: seq<nat>, srcs: seq<seq<Source>>)
    requires |reuse| == |rsrcs| == |csrcs|
    ensures |cuts| == |srcs| == if reuse == [] then 0 else |reuse| - 1
    ensures forall i :: 0 <= i < |cuts| ==> cuts[i] == |reuse[i + 1]| && srcs[i] == rsrcs[i + 1] + csrcs[i + 1]
  {
    var n := if reuse == [] then 0 else |reuse| - 1;
    cuts := seq(n, (i: nat) requires i < n => |reuse[i + 1]|);
    srcs := seq(n, (i: nat) requires i < n => rsrcs[i + 1] + csrcs[i + 1]);
  }

  lemma PhaseDescribed(threads: seq<Regions>, i: nat, maxSize: nat, ids: map<BlockKey, nat>, bbmax: nat,
                       reuse: seq<seq<Item>>, rsrcs: seq<seq<Source>>, code: seq<seq<Item>>, csrcs: seq<seq<Source>>,
                       ins: seq<seq<nat>>)
    requires i + 1 < |reuse| == |rsrcs| == |code| == |csrcs| == |ins|
    requires IsMaxId(Tail(reuse), bbmax) && Consistent(reuse, ins, code)
    requires ReuseRow(threads, i + 1, maxSize, reuse[i + 1], rsrcs[i + 1])
    requires CodeRow(threads, i + 1, ids, code[i + 1], csrcs[i + 1])
    requires InsRow(threads, i + 1, ins[i + 1])
    requires forall t :: 0 <= t < |threads| && i + 1 in threads[t] ==> |threads[t][i + 1].lruHist| <= maxSize
    ensures Tail(reuse)[i] == reuse[i + 1] && Tail(code)[i] == code[i + 1] && Tail(ins)[i] == ins[i + 1]
    ensures reuse[i + 1] != [] ==> SumCounts(reuse[i + 1]) != 0
    ensures Describes(threads, i + 1, maxSize, ids, bbmax, Combined(reuse[i + 1], Sum(ins[i + 1]), code[i + 1], bbmax),
                      |reuse[i + 1]|, rsrcs[i + 1] + csrcs[i + 1])
  {
    hide ReuseRow, CodeRow, InsRow, Describes, Combined, Sum, SumCounts;
    assert Tail(reuse)[i] == reuse[i + 1] && Tail(code)[i] == code[i + 1];
    var rows: seq<seq<Item>> := Tail(reuse);
    assert forall k :: 0 <= k < |rows[i]| ==> rows[i][k].0 <= bbmax;
    DescribesRow(threads, i + 1, maxSize, ids, bbmax, reuse[i + 1], rsrcs[i + 1], code[i + 1], csrcs[i + 1],
                 ins[i + 1]);
  }

  lemma AllApart(threads: seq<Regions>, maxSize: nat, ids: map<BlockKey, nat>, bbmax: nat,
                 combined: seq<seq<Entry>>, cuts: seq<nat>, srcs: seq<seq<Source>>)
    requires Numbering(ids) && |combined| == |cuts| == |srcs|
    requires forall i :: 0 <= i < |combined| ==>
               Describes(threads, i + 1, maxSize, ids, bbmax, combined[i], cuts[i], srcs[i])
    ensures forall i :: 0 <= i < |combined| ==> |srcs[i]| == |combined[i]|
    ensures forall i, j, k, l ::
              0 <= i < |combined| && 0 <= j < |combined| && 0 <= k < |combined[i]| && 0 <= l < |combined[j]| ==>
                SameIff(combined[i][k], combined[j][l], srcs[i][k], srcs[j][l])
  {
    hide Describes, Numbering;
    forall i | 0 <= i < |combined|
      ensures |srcs[i]| == |combined[i]|
    {
      DescribedLength(threads, i + 1, maxSize, ids, bbmax, combined[i], cuts[i], srcs[i]);
    }
    forall i, j, k, l | 0 <= i < |combined| && 0 <= j < |combined| && 0 <= k < |combined[i]| && 0 <= l < |combined[j]|
      ensures SameIff(combined[i][k], combined[j][l], srcs[i][k], srcs[j][l])
    {
      SameDimension(threads, i + 1, j + 1, maxSize, ids, bbmax, combined[i], cuts[i], srcs[i],
                    combined[j], cuts[j], srcs[j], k, l);
    }
  }

  lemma DescribedLength(threads: seq<Regions>, id: nat, maxSize: nat, ids: map<BlockKey, nat>, bbmax: nat,
                        es: seq<Entry>, cut: nat, srcs: seq<Source>)
    requires Describes(threads, id, maxSize, ids, bbmax, es, cut, srcs)
    ensures |srcs| == |es|
  {
  }

  lemma SameDimension(threads: seq<Regions>, id: nat, jd: nat, maxSize: nat, ids: map<BlockKey, nat>, bbmax: nat,
                      es: seq<Entry>, cut: nat, srcs: seq<Source>, fs: seq<Entry>, dut: nat, trcs: seq<Source>,
                      k: nat, l: nat)
    requires Numbering(ids) && k < |es| && l < |fs|
    requires Describes(threads, id, maxSize, ids, bbmax, es, cut, srcs)
    requires Describes(threads, jd, maxSize, ids, bbmax, fs, dut, trcs)
    ensures |srcs| == |es| && |trcs| == |fs|
    ensures SameIff(es[k], fs[l], srcs[k], trcs[l])
  {
    NoCollision(maxSize, ids, bbmax, srcs[k], trcs[l]);
  }
}
