/** Facts about sequences of node identifiers shared by both traversals:
    duplicate-freedom, occurrence counts, and the counting arguments
    (pigeonhole) that bound a duplicate-free sequence of small naturals. */
module Sequences {

  /** No element occurs twice in `s`. */
  ghost predicate Distinct<T>(s: seq<T>) {
    forall i, j :: 0 <= i < j < |s| ==> s[i] != s[j]
  }

  /** The two halves of a duplicate-free concatenation are duplicate-free and
      share no element. */
  lemma DistinctSplit<T>(a: seq<T>, b: seq<T>)
    requires Distinct(a + b)
    ensures Distinct(a) && Distinct(b)
    ensures forall i, j :: 0 <= i < |a| && 0 <= j < |b| ==> a[i] != b[j]
    ensures forall x :: x in a ==> x !in b
  {
    forall i, j | 0 <= i < |a| && 0 <= j < |b|
      ensures a[i] != b[j]
    {
      assert (a + b)[i] == a[i] && (a + b)[|a| + j] == b[j];
    }
    forall i, j | 0 <= i < j < |b|
      ensures b[i] != b[j]
    {
      assert (a + b)[|a| + i] == b[i] && (a + b)[|a| + j] == b[j];
    }
    forall i, j | 0 <= i < j < |a|
      ensures a[i] != a[j]
    {
      assert (a + b)[i] == a[i] && (a + b)[j] == a[j];
    }
  }

  /** Every element of `s` is a node identifier below `n`. */
  ghost predicate AllBelow(s: seq<nat>, n: nat) {
    forall i :: 0 <= i < |s| ==> s[i] < n
  }

  /** Each element of `s` is strictly smaller than every later one. */
  ghost predicate StrictlyAscending(s: seq<nat>) {
    forall i, j :: 0 <= i < j < |s| ==> s[i] < s[j]
  }

  /** Number of times `v` occurs in `s`. */
  function Occ<T(==)>(s: seq<T>, v: T): nat {
    multiset(s)[v]
  }

  /** The set of elements of `s`. */
  function Elems<T>(s: seq<T>): set<T> {
    set x | x in s
  }

  /** The identifiers `0 .. n-1`. */
  function Below(n: nat): set<nat> {
    if n == 0 then {} else Below(n - 1) + {n - 1}
  }

  lemma {:induction false} BelowCard(n: nat)
    ensures |Below(n)| == n
    ensures forall x: nat :: x in Below(n) <==> x < n
  {
    if n > 0 {
      BelowCard(n - 1);
    }
  }

  lemma {:induction false} SubsetCard<T>(a: set<T>, b: set<T>)
    requires a <= b
    ensures |a| <= |b|
    decreases a
  {
    if a != {} {
      var x :| x in a;
      SubsetCard(a - {x}, b - {x});
    }
  }

  /** A duplicate-free sequence has exactly as many distinct elements as entries. */
  lemma {:induction false} DistinctElemsCard<T>(s: seq<T>)
    requires Distinct(s)
    ensures |Elems(s)| == |s|
  {
    if |s| > 0 {
      var t := s[..|s| - 1];
      assert Distinct(t);
      DistinctElemsCard(t);
      assert Elems(s) == Elems(t) + {s[|s| - 1]};
      assert s[|s| - 1] !in Elems(t);
    }
  }

  /** Any sequence has at most as many distinct elements as entries. */
  lemma {:induction false} ElemsCard<T>(s: seq<T>)
    ensures |Elems(s)| <= |s|
  {
    if |s| > 0 {
      var t := s[..|s| - 1];
      ElemsCard(t);
      assert Elems(s) == Elems(t) + {s[|s| - 1]};
    }
  }

  /** Pigeonhole: a duplicate-free sequence of identifiers below `n` has at most `n` entries. */
  lemma DistinctBelowBound(s: seq<nat>, n: nat)
    requires Distinct(s) && AllBelow(s, n)
    ensures |s| <= n
  {
    DistinctElemsCard(s);
    BelowCard(n);
    SubsetCard(Elems(s), Below(n));
  }

  /** A sequence of identifiers below `n` that is shorter than `n` misses one of them. */
  lemma ShortMissesSome(s: seq<nat>, n: nat) returns (v: nat)
    requires AllBelow(s, n) && |s| < n
    ensures v < n && v !in s
  {
    ElemsCard(s);
    BelowCard(n);
    if Below(n) <= Elems(s) {
      SubsetCard(Below(n), Elems(s));
      assert false;
    }
    var w :| w in Below(n) && w !in Elems(s);
    v := w;
  }

  /** A duplicate-free sequence of `n` identifiers below `n` lists every one of them. */
  lemma FullCoversAll(s: seq<nat>, n: nat)
    requires Distinct(s) && AllBelow(s, n) && |s| == n
    ensures forall v: nat :: v < n ==> v in s
  {
    forall v: nat | v < n
      ensures v in s
    {
      if v !in s {
        DistinctElemsCard(s);
        BelowCard(n);
        SubsetCard(Elems(s), Below(n) - {v});
        assert false;
      }
    }
  }

  /** A sequence of more than `n` identifiers below `n` repeats one of them. */
  lemma Pigeonhole(s: seq<nat>, n: nat) returns (i: nat, j: nat)
    requires AllBelow(s, n) && |s| > n
    ensures i < j < |s| && s[i] == s[j]
  {
    if Distinct(s) {
      DistinctBelowBound(s, n);
      assert false;
    }
    var a, b :| 0 <= a < b < |s| && s[a] == s[b];
    i, j := a, b;
  }
}
