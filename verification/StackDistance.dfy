/**
 The plain definition of the LRU stack distance on an access trace, and the
 most-recent-first order of a trace (dynamorio_client/README.md, "Gathering agnostic metrics").
 A trace lists the referenced tags, oldest first.
 */
module StackDistance {
  import opened Common

  type Tag = nat

  /** Index of the last reference to t, or -1. */
  function LastUse(tr: seq<Tag>, t: Tag): (i: int)
    ensures -1 <= i < |tr|
    ensures i >= 0 ==> tr[i] == t
    ensures forall j :: i < j < |tr| ==> tr[j] != t
  {
    if tr == [] then -1
    else if tr[|tr| - 1] == t then |tr| - 1
    else LastUse(tr[..|tr| - 1], t)
  }

  /** The distinct tags referenced since the last reference to t. */
  function Since(tr: seq<Tag>, t: Tag): set<Tag> {
    set i | LastUse(tr, t) < i < |tr| :: tr[i]
  }

  /** What a reference to t costs after the trace tr: -1 if it is the first one, otherwise the
      number of distinct tags referenced since. */
  function Distance(tr: seq<Tag>, t: Tag): int {
    if t in tr then |Since(tr, t)| else -1
  }

  // ---------- most-recent-first order ----------

  function IndexOf(s: seq<Tag>, t: Tag): (i: nat)
    requires t in s
    ensures i < |s| && s[i] == t
    ensures forall j :: 0 <= j < i ==> s[j] != t
  {
    if s[0] == t then 0 else 1 + IndexOf(s[1..], t)
  }

  function Touched(s: seq<Tag>, t: Tag): seq<Tag> {
    if t in s then Rotated(s, IndexOf(s, t)) else [t] + s
  }

  /** The tags of the trace in order of last reference, most recent first. */
  function Mru(tr: seq<Tag>): seq<Tag> {
    if tr == [] then [] else Touched(Mru(tr[..|tr| - 1]), tr[|tr| - 1])
  }

  lemma {:induction false} MruElements(tr: seq<Tag>)
    ensures NoDuplicates(Mru(tr))
    ensures forall t :: t in Mru(tr) <==> t in tr
  {
    if tr != [] {
      var pre, x := tr[..|tr| - 1], tr[|tr| - 1];
      MruElements(pre);
      TouchedElements(Mru(pre), x);
      assert forall t :: t in tr <==> t in pre || t == x;
    }
  }

  lemma TouchedElements(s: seq<Tag>, x: Tag)
    requires NoDuplicates(s)
    ensures NoDuplicates(Touched(s, x))
    ensures forall t :: t in Touched(s, x) <==> t in s || t == x
  {
    if x in s {
      var p := IndexOf(s, x);
      assert s == s[..p] + [s[p]] + s[p + 1..];
    }
  }

  /** Position in the most-recent-first order is exactly the stack distance. */
  lemma {:induction false} MruPosition(tr: seq<Tag>, t: Tag)
    requires t in tr
    ensures t in Mru(tr) && IndexOf(Mru(tr), t) == Distance(tr, t)
  {
    MruElements(tr);
    MruPrefix(tr, t);
    DistinctCount(Mru(tr)[..IndexOf(Mru(tr), t)]);
  }

  lemma {:induction false} MruPrefix(tr: seq<Tag>, t: Tag)
    requires t in tr
    ensures t in Mru(tr) && Elements(Mru(tr)[..IndexOf(Mru(tr), t)]) == Since(tr, t)
  {
    MruElements(tr);
    var pre, x := tr[..|tr| - 1], tr[|tr| - 1];
    if t == x {
      assert Mru(tr)[0] == t;
      assert Since(tr, t) == {};
    } else {
      MruElements(pre);
      MruPrefix(pre, t);
      SinceStep(tr, t);
      TouchedPrefix(Mru(pre), x, t);
    }
  }

  lemma SinceStep(tr: seq<Tag>, t: Tag)
    requires tr != [] && tr[|tr| - 1] != t
    ensures Since(tr, t) == Since(tr[..|tr| - 1], t) + {tr[|tr| - 1]}
  {
    var pre := tr[..|tr| - 1];
    assert LastUse(tr, t) == LastUse(pre, t);
    forall y | y in Since(pre, t)
      ensures y in Since(tr, t)
    {
      var i :| LastUse(pre, t) < i < |pre| && pre[i] == y;
      assert tr[i] == y;
    }
    forall y | y in Since(tr, t)
      ensures y in Since(pre, t) + {tr[|tr| - 1]}
    {
      var i :| LastUse(tr, t) < i < |tr| && tr[i] == y;
      assert i < |pre| ==> pre[i] == y;
    }
    assert tr[|tr| - 1] in Since(tr, t);
  }

  lemma {:induction false} IndexAt(s: seq<Tag>, k: nat)
    requires NoDuplicates(s) && k < |s|
    ensures IndexOf(s, s[k]) == k
  {
  }

  /** Touching x adds x to what lies in front of any other element t. */
  lemma {:induction false} TouchedPrefix(s: seq<Tag>, x: Tag, t: Tag)
    requires NoDuplicates(s) && t in s && t != x
    ensures t in Touched(s, x)
    ensures Elements(Touched(s, x)[..IndexOf(Touched(s, x), t)]) == Elements(s[..IndexOf(s, t)]) + {x}
  {
    TouchedElements(s, x);
    hide Touched, Elements;
    if x in s && IndexOf(s, x) < IndexOf(s, t) {
      TouchedPrefixInside(s, x, t);
    } else {
      TouchedPrefixOutside(s, x, t);
    }
  }

  lemma {:induction false} TouchedPrefixOutside(s: seq<Tag>, x: Tag, t: Tag)
    requires NoDuplicates(s) && NoDuplicates(Touched(s, x)) && t in s && t != x
    requires x in s ==> IndexOf(s, t) < IndexOf(s, x)
    ensures t in Touched(s, x)
    ensures Elements(Touched(s, x)[..IndexOf(Touched(s, x), t)]) == Elements(s[..IndexOf(s, t)]) + {x}
  {
    var i, r := IndexOf(s, t), Touched(s, x);
    assert r[i + 1] == t;
    IndexAt(r, i + 1);
    assert r[..i + 1] == [x] + s[..i];
  }

  lemma {:induction false} TouchedPrefixInside(s: seq<Tag>, x: Tag, t: Tag)
    requires NoDuplicates(s) && NoDuplicates(Touched(s, x))
    requires t in s && x in s && IndexOf(s, x) < IndexOf(s, t)
    ensures t in Touched(s, x)
    ensures Elements(Touched(s, x)[..IndexOf(Touched(s, x), t)]) == Elements(s[..IndexOf(s, t)]) + {x}
  {
    var p, i, r := IndexOf(s, x), IndexOf(s, t), Touched(s, x);
    assert r[i] == t;
    IndexAt(r, i);
    RotatedPrefix(s, p, i);
    RotatedElements(s[..i], p);
    hide Rotated, IndexOf, NoDuplicates;
    assert s[..i][p] == x;
    assert Elements(r[..i]) == Elements(s[..i]);
  }

  lemma RotatedPrefix(s: seq<Tag>, p: nat, i: nat)
    requires p < i <= |s|
    ensures Rotated(s, p)[..i] == Rotated(s[..i], p)
  {
  }

  /** Referencing the tag at position p costs p and moves that tag to the front. */
  lemma {:induction false} MruMove(tr: seq<Tag>, p: nat)
    requires p < |Mru(tr)|
    ensures Mru(tr + [Mru(tr)[p]]) == Rotated(Mru(tr), p)
    ensures Mru(tr)[p] in tr && p == Distance(tr, Mru(tr)[p])
  {
    var t := Mru(tr)[p];
    MruElements(tr);
    IndexAt(Mru(tr), p);
    MruPosition(tr, t);
    assert (tr + [t])[..|tr|] == tr;
  }

  lemma {:induction false} MruAdd(tr: seq<Tag>, t: Tag)
    requires t !in tr
    ensures Mru(tr + [t]) == [t] + Mru(tr)
  {
    MruElements(tr);
    assert (tr + [t])[..|tr|] == tr;
  }

  /** The number of lines kept is the number of distinct tags referenced. */
  lemma {:induction false} MruLength(tr: seq<Tag>)
    ensures |Mru(tr)| == |Elements(tr)|
  {
    MruElements(tr);
    DistinctCount(Mru(tr));
    assert Elements(Mru(tr)) == Elements(tr);
  }

  // ---------- distant references ----------

  /** The references to t whose stack distance was greater than the threshold. */
  function DistantRefs(tr: seq<Tag>, t: Tag, threshold: nat): set<nat> {
    set i: nat | i < |tr| && tr[i] == t && Distance(tr[..i], t) > threshold
  }

  /** Some earlier reference had a positive distance and the threshold is 0: the gate, which sat
      on the head, has then been pulled off the list. */
  predicate GateLost(tr: seq<Tag>, threshold: nat) {
    if tr == [] then false
    else
      var pre, x := tr[..|tr| - 1], tr[|tr| - 1];
      GateLost(pre, threshold) || (threshold == 0 && Distance(pre, x) > 0)
  }

  lemma {:induction false} GateLostIff(tr: seq<Tag>, threshold: nat)
    ensures GateLost(tr, threshold) <==> threshold == 0 && exists i :: 0 <= i < |tr| && Distance(tr[..i], tr[i]) > 0
  {
    if tr != [] {
      var pre, x := tr[..|tr| - 1], tr[|tr| - 1];
      GateLostIff(pre, threshold);
      assert forall i :: 0 <= i < |pre| ==> pre[..i] == tr[..i] && pre[i] == tr[i];
      if GateLost(tr, threshold) && !GateLost(pre, threshold) {
        assert Distance(tr[..|pre|], tr[|pre|]) > 0;
      }
    }
  }

  /** The distant references the time-stamp test against the gate recognises. */
  function CountedRefs(tr: seq<Tag>, t: Tag, threshold: nat): set<nat> {
    set i: nat | i < |tr| && tr[i] == t && Distance(tr[..i], t) > threshold && !GateLost(tr[..i], threshold)
  }

  lemma {:induction false} CountedStep(tr: seq<Tag>, x: Tag, t: Tag, threshold: nat)
    ensures |CountedRefs(tr + [x], t, threshold)| == |CountedRefs(tr, t, threshold)| +
            if x == t && Distance(tr, t) > threshold && !GateLost(tr, threshold) then 1 else 0
  {
    hide Distance, GateLost;
    var tr' := tr + [x];
    assert tr'[..|tr|] == tr;
    assert forall i :: 0 <= i < |tr| ==> tr'[..i] == tr[..i];
    var c, c' := CountedRefs(tr, t, threshold), CountedRefs(tr', t, threshold);
    if x == t && Distance(tr, t) > threshold && !GateLost(tr, threshold) {
      assert c' == c + {|tr|};
    } else {
      assert c' == c;
    }
  }

  lemma {:induction false} GateLostStep(tr: seq<Tag>, x: Tag, threshold: nat)
    ensures GateLost(tr + [x], threshold) <==> GateLost(tr, threshold) || (threshold == 0 && Distance(tr, x) > 0)
  {
    assert (tr + [x])[..|tr|] == tr;
  }

  /** The trace reuses no line at a positive distance. */
  ghost predicate NoReuse(tr: seq<Tag>) {
    forall i :: 0 <= i < |tr| ==> Distance(tr[..i], tr[i]) <= 0
  }

  /** A trace with a reuse at a positive distance has a line that is not the latest one. */
  lemma SomeDistantLine(tr: seq<Tag>) returns (t: Tag)
    requires !NoReuse(tr)
    ensures t in tr && Distance(tr, t) > 0
  {
    var i :| 0 <= i < |tr| && Distance(tr[..i], tr[i]) > 0;
    var y :| y in Since(tr[..i], tr[i]);
    assert y in tr[..i] && tr[i] in tr && y != tr[i];
    MruElements(tr);
    assert y in Mru(tr) && tr[i] in Mru(tr);
    MruMove(tr, 1);
    t := Mru(tr)[1];
  }

  lemma NoRefs(tr: seq<Tag>, t: Tag, threshold: nat)
    requires t !in tr
    ensures CountedRefs(tr, t, threshold) == {} && DistantRefs(tr, t, threshold) == {}
  {
  }

  /** The trace reuses a line at a positive distance at most once. */
  ghost predicate AtMostOneReuse(tr: seq<Tag>) {
    forall i, j :: 0 <= i < j < |tr| ==> Distance(tr[..i], tr[i]) <= 0 || Distance(tr[..j], tr[j]) <= 0
  }

  /** The per-line distant counts are right for every line exactly when the threshold is positive
      or the trace leaves the gate no second chance to be missed. */
  lemma DistantCountsExactIff(tr: seq<Tag>, threshold: nat)
    ensures (forall t :: |CountedRefs(tr, t, threshold)| == |DistantRefs(tr, t, threshold)|)
            <==> threshold >= 1 || AtMostOneReuse(tr)
  {
    hide CountedRefs, DistantRefs, Distance;
    if threshold >= 1 || AtMostOneReuse(tr) {
      forall t
        ensures CountedRefs(tr, t, threshold) == DistantRefs(tr, t, threshold)
      {
        AllCounted(tr, t, threshold);
      }
    } else {
      var i, j :| 0 <= i < j < |tr| && Distance(tr[..i], tr[i]) > 0 && Distance(tr[..j], tr[j]) > 0;
      SecondReuseMissed(tr, i, j);
    }
  }

  lemma AllCounted(tr: seq<Tag>, t: Tag, threshold: nat)
    requires threshold >= 1 || AtMostOneReuse(tr)
    ensures CountedRefs(tr, t, threshold) == DistantRefs(tr, t, threshold)
  {
    hide Distance, GateLost;
    forall i | i in DistantRefs(tr, t, threshold)
      ensures !GateLost(tr[..i], threshold)
    {
      GateLostIff(tr[..i], threshold);
      if threshold == 0 {
        forall j | 0 <= j < i
          ensures Distance(tr[..i][..j], tr[..i][j]) <= 0
        {
          assert tr[..i][..j] == tr[..j];
        }
      }
    }
  }

  lemma SecondReuseMissed(tr: seq<Tag>, i: nat, j: nat)
    requires i < j < |tr| && Distance(tr[..i], tr[i]) > 0 && Distance(tr[..j], tr[j]) > 0
    ensures |CountedRefs(tr, tr[j], 0)| < |DistantRefs(tr, tr[j], 0)|
  {
    assert tr[..j][..i] == tr[..i];
    GateLostIff(tr[..j], 0);
    var c, d := CountedRefs(tr, tr[j], 0), DistantRefs(tr, tr[j], 0);
    assert c <= d - {j};
    SubsetSize(c, d - {j});
  }

  /** With threshold 0, in the trace 1,2,1,2 the second reuse, at distance 1, is missed. */
  lemma ThresholdZeroMisses()
    ensures 3 in DistantRefs([1, 2, 1, 2], 2, 0)
    ensures CountedRefs([1, 2, 1, 2], 2, 0) == {}
  {
    var tr := [1, 2, 1, 2];
    assert tr[..3] == [1, 2, 1] && tr[..2] == [1, 2] && tr[..1] == [1];
    SmallDistance([1, 2, 1], 2, 1);
    SmallDistance([1, 2], 1, 2);
    assert tr[..3][..2] == [1, 2];
    GateLostIff(tr[..3], 0);
    assert 2 !in tr[..1];
  }

  lemma SmallDistance(tr: seq<Tag>, t: Tag, y: Tag)
    requires |tr| >= 2 && tr[|tr| - 2] == t && tr[|tr| - 1] == y && y != t
    ensures Distance(tr, t) == 1
  {
    var pre := tr[..|tr| - 1];
    assert LastUse(tr, t) == LastUse(pre, t) == |tr| - 2;
    assert Since(tr, t) == {y};
  }

  lemma ThreeOthers()
    ensures Distance([1, 2, 3, 4], 1) == 3
  {
    var tr := [1, 2, 3, 4];
    assert tr[..2][..1] == tr[..1] && tr[..3][..2] == tr[..2] && tr[..3] == tr[..|tr| - 1];
    assert LastUse(tr[..1], 1) == LastUse(tr[..2], 1) == LastUse(tr[..3], 1) == 0;
    assert Since(tr, 1) == {2, 3, 4};
  }
}
