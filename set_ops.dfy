/**
 * The Zadeh operators on membership sets. Like the source, which pairs the two inputs
 * with `zip`, the binary operators stop at the end of the shorter input.
 */
module SetOps {
  import opened Degrees

  /** Length of the pairing of two sequences: that of the shorter one. */
  function ZipLength(a: seq<real>, b: seq<real>): nat {
    if |a| <= |b| then |a| else |b|
  }

  /** Element-wise minimum (the min T-norm). */
  function Intersection(a: seq<real>, b: seq<real>): (r: seq<real>)
    ensures |r| <= |a| && |r| <= |b|
    ensures |r| == |a| || |r| == |b|
    ensures forall i :: 0 <= i < |r| ==> r[i] <= a[i] && r[i] <= b[i]
    ensures forall i :: 0 <= i < |r| ==> r[i] == a[i] || r[i] == b[i]
  {
    seq(ZipLength(a, b), i requires 0 <= i < |a| && i < |b| => Min(a[i], b[i]))
  }

  /** Element-wise maximum (the max T-conorm). */
  function Union(a: seq<real>, b: seq<real>): (r: seq<real>)
    ensures |r| <= |a| && |r| <= |b|
    ensures |r| == |a| || |r| == |b|
    ensures forall i :: 0 <= i < |r| ==> r[i] >= a[i] && r[i] >= b[i]
    ensures forall i :: 0 <= i < |r| ==> r[i] == a[i] || r[i] == b[i]
  {
    seq(ZipLength(a, b), i requires 0 <= i < |a| && i < |b| => Max(a[i], b[i]))
  }

  /** Element-wise standard negation 1 - x. */
  function Complement(a: seq<real>): (r: seq<real>)
    ensures |r| == |a|
    ensures forall i :: 0 <= i < |a| ==> r[i] + a[i] == 1.0
  {
    seq(|a|, i requires 0 <= i < |a| => 1.0 - a[i])
  }

  lemma IntersectionCommutative(a: seq<real>, b: seq<real>)
    ensures Intersection(a, b) == Intersection(b, a)
  {
  }

  lemma UnionCommutative(a: seq<real>, b: seq<real>)
    ensures Union(a, b) == Union(b, a)
  {
  }

  lemma IntersectionIdempotent(a: seq<real>)
    ensures Intersection(a, a) == a
  {
  }

  lemma UnionIdempotent(a: seq<real>)
    ensures Union(a, a) == a
  {
  }

  lemma IntersectionAssociative(a: seq<real>, b: seq<real>, c: seq<real>)
    ensures Intersection(a, Intersection(b, c)) == Intersection(Intersection(a, b), c)
  {
  }

  lemma UnionAssociative(a: seq<real>, b: seq<real>, c: seq<real>)
    ensures Union(a, Union(b, c)) == Union(Union(a, b), c)
  {
  }

  /** Absorption; with truncation it holds when `a` is not longer than `b`. */
  lemma Absorption(a: seq<real>, b: seq<real>)
    requires |a| <= |b|
    ensures Intersection(a, Union(a, b)) == a
    ensures Union(a, Intersection(a, b)) == a
  {
  }

  lemma IntersectionDistributesOverUnion(a: seq<real>, b: seq<real>, c: seq<real>)
    ensures Intersection(a, Union(b, c)) == Union(Intersection(a, b), Intersection(a, c))
  {
  }

  lemma ComplementInvolution(a: seq<real>)
    ensures Complement(Complement(a)) == a
  {
  }

  lemma DeMorganUnion(a: seq<real>, b: seq<real>)
    ensures Complement(Union(a, b)) == Intersection(Complement(a), Complement(b))
  {
  }

  lemma DeMorganIntersection(a: seq<real>, b: seq<real>)
    ensures Complement(Intersection(a, b)) == Union(Complement(a), Complement(b))
  {
  }

  lemma IntersectionInUnit(a: seq<real>, b: seq<real>)
    requires InUnit(a) && InUnit(b)
    ensures InUnit(Intersection(a, b))
  {
  }

  lemma UnionInUnit(a: seq<real>, b: seq<real>)
    requires InUnit(a) && InUnit(b)
    ensures InUnit(Union(a, b))
  {
  }

  lemma ComplementInUnit(a: seq<real>)
    requires InUnit(a)
    ensures InUnit(Complement(a))
  {
  }

  /**
   * Fuzzy sets do not obey the excluded middle: a set met with its complement stays at or
   * below one half, joined with it stays at or above one half, and both bounds are reached.
   */
  lemma HalfBounds(a: seq<real>)
    ensures forall i :: 0 <= i < |a| ==> Intersection(a, Complement(a))[i] <= 0.5
    ensures forall i :: 0 <= i < |a| ==> Union(a, Complement(a))[i] >= 0.5
  {
  }

  lemma NoExcludedMiddle()
    ensures Intersection([0.5], Complement([0.5])) == [0.5]
    ensures Union([0.5], Complement([0.5])) == [0.5]
  {
  }
}
