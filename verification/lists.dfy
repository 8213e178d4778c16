/**
 * The java.util.List operations the game relies on, over immutable sequences,
 * and the Option type that stands for a nullable Integer.
 */
module Lists {

  /** A nullable boxed value: None is Java's null. */
  datatype Option<+T> = None | Some(value: T)

  /** No element occurs twice. */
  predicate Distinct<T(==)>(s: seq<T>)
  {
    forall i, j :: 0 <= i < j < |s| ==> s[i] != s[j]
  }

  /** The indices 0, 1, ..., n-1 in order, as the constructors' `add(i)` loops build them. */
  function Range(n: nat): (r: seq<nat>)
    ensures |r| == n
    ensures forall i :: 0 <= i < n ==> r[i] == i
    ensures forall x: nat :: x in r <==> x < n
    ensures Distinct(r)
  {
    if n == 0 then [] else Range(n - 1) + [n - 1]
  }

  /**
   * List.remove(Object): drops the first occurrence of x and leaves the list
   * alone when x is absent.
   */
  function RemoveFirst<T(==,!new)>(s: seq<T>, x: T): (r: seq<T>)
    ensures x !in s ==> r == s
    ensures x in s ==> |r| == |s| - 1
    ensures forall y :: y in r ==> y in s
    ensures forall y :: y != x && y in s ==> y in r
    ensures Distinct(s) ==> Distinct(r) && x !in r
  {
    if |s| == 0 then []
    else if s[0] == x then
      assert s == [s[0]] + s[1..];
      s[1..]
    else
      var rest := RemoveFirst(s[1..], x);
      assert s == [s[0]] + s[1..];
      assert Distinct(s) ==> s[0] !in s[1..];
      [s[0]] + rest
  }

  /**
   * Applies List.remove(Object) once for every element of xs, in order
   * (the dealer's `slotsToPlace.remove(emptySlot)` loop).
   */
  function RemoveEach<T(==,!new)>(s: seq<T>, xs: seq<T>): (r: seq<T>)
    ensures forall y :: y in r ==> y in s
    ensures Distinct(s) ==> Distinct(r)
    ensures Distinct(s) ==> forall y :: y in r <==> y in s && y !in xs
    decreases |xs|
  {
    if |xs| == 0 then s else RemoveEach(RemoveFirst(s, xs[0]), xs[1..])
  }

  /** The number of distinct values of a duplicate-free sequence is its length. */
  lemma {:induction false} DistinctCardinality<T>(s: seq<T>)
    requires Distinct(s)
    ensures |set x | x in s| == |s|
  {
    if |s| > 0 {
      DistinctCardinality(s[1..]);
      assert (set x | x in s) == (set x | x in s[1..]) + {s[0]};
      assert s[0] !in (set x | x in s[1..]);
    }
  }

  /**
   * Pigeonhole: a duplicate-free list of numbers below n that leaves out one
   * of them is shorter than n.
   */
  lemma DistinctBelowMissing(s: seq<nat>, n: nat, absent: nat)
    requires Distinct(s) && absent < n && absent !in s
    requires forall i :: 0 <= i < |s| ==> s[i] < n
    ensures |s| < n
  {
    var held := set x | x in s;
    var others := (set x | x in Range(n)) - {absent};
    DistinctCardinality(s);
    DistinctCardinality(Range(n));
    assert held <= others;
    SubsetCardinality(held, others);
  }

  /** A subset is no larger than its superset. */
  lemma {:induction false} SubsetCardinality<T>(a: set<T>, b: set<T>)
    requires a <= b
    ensures |a| <= |b|
    decreases |a|
  {
    if a != {} {
      var x :| x in a;
      SubsetCardinality(a - {x}, b - {x});
    }
  }
}
