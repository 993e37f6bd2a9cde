/**
 * The example sets of the demonstration script, sampled on its grid, and the four
 * composite operations it plots, stated as facts about the model.
 */
module Examples {
  import opened Degrees
  import opened Membership
  import opened SetOps

  const A: seq<real> := [-1.0, -1.0, -0.9, -0.2]
  const B: seq<real> := [-0.6, -0.5, 0.0, 0.1]
  const C: seq<real> := [-0.3, 0.0, 0.2, 0.3]
  const D: seq<real> := [0.1, 0.2, 0.3, 0.8]
  const E: seq<real> := [0.4, 0.6, 1.0, 1.0]

  /** `n` evenly spaced samples from `lo` to `hi`, both included, in exact arithmetic. */
  function Linspace(lo: real, hi: real, n: nat): (r: seq<real>)
    ensures |r| == n
    ensures n >= 1 ==> r[0] == lo
    ensures n >= 2 ==> r[n - 1] == hi
  {
    if n <= 1 then seq(n, k => lo)
    else
      var step := (hi - lo) / ((n - 1) as real);
      assert step * ((n - 1) as real) == hi - lo;
      seq(n, k => lo + (k as real) * step)
  }

  /** Scaling by a positive factor keeps strict order. */
  lemma ScaleStrict(x: real, y: real, c: real)
    requires x < y && c > 0.0
    ensures x * c < y * c
  {
    assert y * c - x * c == (y - x) * c;
  }

  /** Consecutive samples are one step (hi - lo)/(n - 1) apart. */
  lemma LinspaceEvenGaps(lo: real, hi: real, n: nat)
    requires n >= 2
    ensures forall k :: 0 <= k < n - 1 ==>
      Linspace(lo, hi, n)[k + 1] - Linspace(lo, hi, n)[k] == (hi - lo) / ((n - 1) as real)
  {
  }

  /** Evenly spaced samples over a non-empty interval are strictly increasing. */
  lemma LinspaceIncreasing(lo: real, hi: real, n: nat)
    requires lo < hi
    ensures forall i, j :: 0 <= i < j < n ==> Linspace(lo, hi, n)[i] < Linspace(lo, hi, n)[j]
  {
    var r := Linspace(lo, hi, n);
    if n >= 2 {
      var step := (hi - lo) / ((n - 1) as real);
      assert step * ((n - 1) as real) == hi - lo;
      forall i, j | 0 <= i < j < n
        ensures r[i] < r[j]
      {
        ScaleStrict(i as real, j as real, step);
      }
    }
  }

  /** The sampling grid of the script: 41 points from -1 to 1, step 1/20. */
  function Grid(): (x: seq<real>)
    ensures |x| == 41 && x[0] == -1.0 && x[40] == 1.0
    ensures forall k :: 0 <= k < 41 ==> x[k] == -1.0 + (k as real) / 20.0
  {
    Linspace(-1.0, 1.0, 41)
  }

  /** The membership set of a trapezoid over the grid. */
  function Sampled(p: seq<real>): (s: seq<real>)
    requires |p| == 4
    ensures |s| == 41 && InUnit(s)
    ensures forall k :: 0 <= k < 41 ==> Degree(Grid()[k], p) == Ok(s[k])
  {
    FuzzyFun(Grid(), p).value
  }

  lemma ExampleSetsOrdered()
    ensures Ordered(A) && Ordered(B) && Ordered(C) && Ordered(D) && Ordered(E)
  {
  }

  /** The leftmost sample lies in the core of A and the rightmost one outside its support. */
  lemma SetAAtGridEnds()
    ensures Sampled(A)[0] == 1.0
    ensures Sampled(A)[40] == 0.0
  {
    assert Degree(Grid()[0], A) == Ok(Sampled(A)[0]);
    assert Degree(Grid()[40], A) == Ok(Sampled(A)[40]);
  }

  /** The four composite operations of the script yield membership sets over the whole grid. */
  lemma OperationsAreMembershipSets()
    ensures var op1 := Union(Sampled(D), Intersection(Sampled(A), Sampled(C)));
            |op1| == 41 && InUnit(op1)
    ensures var op2 := Intersection(Complement(Intersection(Sampled(A), Sampled(B))),
                                    Intersection(Sampled(D), Sampled(E)));
            |op2| == 41 && InUnit(op2)
    ensures var op3 := Intersection(Complement(Sampled(D)), Union(Sampled(B), Sampled(A)));
            |op3| == 41 && InUnit(op3)
    ensures var op4 := Complement(Union(Sampled(A), Sampled(B)));
            |op4| == 41 && InUnit(op4)
  {
    IntersectionInUnit(Sampled(A), Sampled(C));
    UnionInUnit(Sampled(D), Intersection(Sampled(A), Sampled(C)));
    IntersectionInUnit(Sampled(A), Sampled(B));
    ComplementInUnit(Intersection(Sampled(A), Sampled(B)));
    IntersectionInUnit(Sampled(D), Sampled(E));
    IntersectionInUnit(Complement(Intersection(Sampled(A), Sampled(B))), Intersection(Sampled(D), Sampled(E)));
    ComplementInUnit(Sampled(D));
    UnionInUnit(Sampled(B), Sampled(A));
    IntersectionInUnit(Complement(Sampled(D)), Union(Sampled(B), Sampled(A)));
    UnionInUnit(Sampled(A), Sampled(B));
    ComplementInUnit(Union(Sampled(A), Sampled(B)));
  }

  /** The fourth operation, the complement of A or B, is "not A and not B". */
  lemma Operation4DeMorgan()
    ensures Complement(Union(Sampled(A), Sampled(B)))
         == Intersection(Complement(Sampled(A)), Complement(Sampled(B)))
  {
    DeMorganUnion(Sampled(A), Sampled(B));
  }
}
