/** Values and sequence facts used by several modules. */
module Common {

  datatype Option<+T> = None | Some(value: T)

  /** The element at position p moved to the front. */
  function Rotated<T>(s: seq<T>, p: nat): (r: seq<T>)
    requires p < |s|
  {
    [s[p]] + s[..p] + s[p + 1..]
  }

  predicate NoDuplicates<T(==)>(s: seq<T>) {
    forall i, j :: 0 <= i < j < |s| ==> s[i] != s[j]
  }

  function Elements<T>(s: seq<T>): set<T> {
    set x | x in s
  }

  function Sum(s: seq<nat>): nat {
    if s == [] then 0 else Sum(s[..|s| - 1]) + s[|s| - 1]
  }

  lemma RotatedElements<T>(s: seq<T>, p: nat)
    requires p < |s|
    ensures forall x :: x in s <==> x in Rotated(s, p)
  {
    assert s == s[..p] + [s[p]] + s[p + 1..];
  }

  lemma {:induction false} DistinctCount<T>(s: seq<T>)
    requires NoDuplicates(s)
    ensures |Elements(s)| == |s|
  {
    if s != [] {
      var pre, x := s[..|s| - 1], s[|s| - 1];
      DistinctCount(pre);
      assert s == pre + [x];
      assert Elements(s) == Elements(pre) + {x};
    }
  }

  lemma {:induction false} SubsetSize<T>(a: set<T>, b: set<T>)
    requires a <= b
    ensures |a| <= |b|
  {
    if a != {} {
      var x :| x in a;
      SubsetSize(a - {x}, b - {x});
    }
  }

  lemma QuotientUnique(a: nat, d: nat, q: nat, r: nat)
    requires r < d && a == q * d + r
    ensures a / d == q && a % d == r
  {
    var q', r' := a / d, a % d;
    assert (q' - q) * d == r - r';
    assert q' - q >= 1 ==> (q' - q) * d >= d;
    assert q - q' >= 1 ==> (q - q') * d >= d;
  }
}
