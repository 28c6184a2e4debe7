/**
 Log2 histograms of stack distances: what a bucket counts, and how a distance is added
 (dynamorio_client/thread_data.cpp, add_address).
 */
module Histogram {
  import opened Common
  import opened StackDistance

  function Pow2(b: nat): (p: nat)
    ensures p >= 1
  {
    if b == 0 then 1 else 2 * Pow2(b - 1)
  }

  lemma {:induction false} Pow2Mono(a: nat, b: nat)
    requires a <= b
    ensures Pow2(a) <= Pow2(b)
  {
    if a < b {
      Pow2Mono(a, b - 1);
    }
  }

  /** 63 minus the number of leading zeros of the 64-bit word d: the position of its top bit. */
  function TopBit(d: nat): nat
    requires d > 0
  {
    if d < 2 then 0 else 1 + TopBit(d / 2)
  }

  /** The bucket a distance is counted in. */
  function Bucket(d: nat): nat {
    if d != 0 then TopBit(d) else 0
  }

  /** Distance d belongs to bucket b: 2^b <= max(d, 1) < 2^(b+1). */
  predicate InBucket(d: int, b: nat) {
    d != -1 && Pow2(b) <= (if d > 1 then d else 1) < Pow2(b + 1)
  }

  lemma {:induction false} TopBitBounds(d: nat)
    requires d > 0
    ensures Pow2(TopBit(d)) <= d < Pow2(TopBit(d) + 1)
  {
    if d >= 2 {
      TopBitBounds(d / 2);
    }
  }

  /** The bucket the code computes is the one and only bucket the distance belongs to. */
  lemma BucketUnique(d: nat, b: nat)
    ensures InBucket(d, b) <==> b == Bucket(d)
  {
    if d > 0 {
      TopBitBounds(d);
    }
    if b < Bucket(d) {
      Pow2Mono(b + 1, Bucket(d));
    } else if Bucket(d) < b {
      Pow2Mono(Bucket(d) + 1, b);
    }
  }

  /** The distances of the references of a trace, in order. */
  function Distances(tr: seq<Tag>): (ds: seq<int>)
    ensures |ds| == |tr|
  {
    if tr == [] then [] else Distances(tr[..|tr| - 1]) + [Distance(tr[..|tr| - 1], tr[|tr| - 1])]
  }

  lemma {:induction false} DistancesStep(tr: seq<Tag>, t: Tag)
    ensures Distances(tr + [t]) == Distances(tr) + [Distance(tr, t)]
  {
    assert (tr + [t])[..|tr|] == tr;
  }

  /** How many of the distances belong to bucket b. */
  function CountIn(ds: seq<int>, b: nat): nat {
    if ds == [] then 0 else CountIn(ds[..|ds| - 1], b) + if InBucket(ds[|ds| - 1], b) then 1 else 0
  }

  /** How many of the distances are reuses. */
  function Reuses(ds: seq<int>): nat {
    if ds == [] then 0 else Reuses(ds[..|ds| - 1]) + if ds[|ds| - 1] != -1 then 1 else 0
  }

  lemma {:induction false} CountStep(ds: seq<int>, d: int, b: nat)
    ensures CountIn(ds + [d], b) == CountIn(ds, b) + if InBucket(d, b) then 1 else 0
    ensures Reuses(ds + [d]) == Reuses(ds) + if d != -1 then 1 else 0
  {
    assert (ds + [d])[..|ds|] == ds;
  }

  /** h counts every reuse of ds in its bucket and has no trailing zero bucket. */
  ghost predicate IsHistogram(h: seq<nat>, ds: seq<int>) {
    && (forall b: nat :: CountIn(ds, b) == if b < |h| then h[b] else 0)
    && (h != [] ==> h[|h| - 1] > 0)
    && Sum(h) == Reuses(ds)
  }

  /** h with one more count in bucket b, grown with empty buckets if need be. */
  function Bumped(h: seq<nat>, b: nat): (r: seq<nat>) {
    if b < |h| then h[b := h[b] + 1] else h + seq(b - |h|, _ => 0) + [1]
  }

  lemma {:induction false} SumBumped(h: seq<nat>, b: nat)
    ensures Sum(Bumped(h, b)) == Sum(h) + 1
  {
    var r := Bumped(h, b);
    if b >= |h| {
      SumPadded(h, b - |h|);
      assert r[..|r| - 1] == h + seq(b - |h|, _ => 0);
    } else if b == |h| - 1 {
      assert r[..|r| - 1] == h[..|h| - 1];
    } else {
      SumBumped(h[..|h| - 1], b);
      assert r[..|r| - 1] == Bumped(h[..|h| - 1], b);
    }
  }

  lemma {:induction false} SumPadded(h: seq<nat>, k: nat)
    ensures Sum(h + seq(k, _ => 0)) == Sum(h)
  {
    var p := h + seq(k, _ => 0);
    if k == 0 {
      assert p == h;
    } else {
      SumPadded(h, k - 1);
      assert p[..|p| - 1] == h + seq(k - 1, _ => 0);
    }
  }

  /** Counting a reuse keeps a histogram a histogram. */
  lemma HistogramStep(h: seq<nat>, ds: seq<int>, d: nat)
    requires IsHistogram(h, ds)
    ensures IsHistogram(Bumped(h, Bucket(d)), ds + [d])
  {
    var r := Bumped(h, Bucket(d));
    forall b: nat
      ensures CountIn(ds + [d], b) == if b < |r| then r[b] else 0
    {
      CountStep(ds, d, b);
      BucketUnique(d, b);
    }
    SumBumped(h, Bucket(d));
    CountStep(ds, d, 0);
  }

  /** A first reference is not counted. */
  lemma HistogramSkip(h: seq<nat>, ds: seq<int>)
    requires IsHistogram(h, ds)
    ensures IsHistogram(h, ds + [-1])
  {
    forall b: nat
      ensures CountIn(ds + [-1], b) == CountIn(ds, b)
    {
      CountStep(ds, -1, b);
    }
    CountStep(ds, -1, 0);
  }

  lemma HistogramLength(h: seq<nat>, k: seq<nat>, ds: seq<int>)
    requires IsHistogram(h, ds) && IsHistogram(k, ds)
    ensures |k| <= |h|
  {
    if k != [] {
      assert CountIn(ds, |k| - 1) == k[|k| - 1] > 0;
    }
  }

  /** The histogram of a list of distances is unique: buckets and length are determined. */
  lemma HistogramUnique(h: seq<nat>, k: seq<nat>, ds: seq<int>)
    requires IsHistogram(h, ds) && IsHistogram(k, ds)
    ensures h == k
  {
    HistogramLength(h, k, ds);
    HistogramLength(k, h, ds);
    forall b | 0 <= b < |h|
      ensures h[b] == k[b]
    {
      assert CountIn(ds, b) == h[b];
    }
  }

  /** References are reuses or first references, and there is one of the latter per distinct tag. */
  lemma {:induction false} ReusesPlusLines(tr: seq<Tag>)
    ensures Reuses(Distances(tr)) + |Elements(tr)| == |tr|
  {
    if tr != [] {
      var pre, t := tr[..|tr| - 1], tr[|tr| - 1];
      assert tr == pre + [t];
      ReusesPlusLines(pre);
      DistancesStep(pre, t);
      CountStep(Distances(pre), Distance(pre, t), 0);
      if t in pre {
        assert Elements(tr) == Elements(pre);
      } else {
        assert Elements(tr) == Elements(pre) + {t};
      }
    }
  }

  lemma {:induction false} ReusesConcat(a: seq<int>, b: seq<int>)
    ensures Reuses(a + b) == Reuses(a) + Reuses(b)
  {
    if b == [] {
      assert a + b == a;
    } else {
      ReusesConcat(a, b[..|b| - 1]);
      assert (a + b)[..|a + b| - 1] == a + b[..|b| - 1];
    }
  }
}
