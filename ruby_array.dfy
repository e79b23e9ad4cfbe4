/** The Ruby Array operations the manifest validator relies on: `map`,
    `find_all`, `uniq`, `-` and `count`, with the properties the validator
    needs of them.  `count(x)` is Dafny's `multiset(s)[x]`. */
module RubyArray {

  /** No element occurs twice. */
  predicate Distinct<T(==,!new)>(s: seq<T>) {
    forall i, j :: 0 <= i < j < |s| ==> s[i] != s[j]
  }

  /** `d` can be obtained from `a` by deleting elements (greedy matching). */
  predicate IsSubsequence<T(==,!new)>(d: seq<T>, a: seq<T>)
    decreases |a|
  {
    d == [] || (a != [] && if d[0] == a[0] then IsSubsequence(d[1..], a[1..]) else IsSubsequence(d, a[1..]))
  }

  /** Index of the first occurrence of `x` in `s` (Ruby's `index`). */
  function FirstIndex<T(==,!new)>(s: seq<T>, x: T): (i: nat)
    requires x in s
    ensures i < |s| && s[i] == x && x !in s[..i]
  {
    if s[0] == x then 0 else
      assert x in s[1..] by { var k :| 0 <= k < |s| && s[k] == x; assert s[1..][k - 1] == x; }
      var i := 1 + FirstIndex(s[1..], x);
      assert s[..i] == [s[0]] + s[1..][..i - 1];
      i
  }

  /** The elements of `u` are elements of `s`, listed in the order in which
      they first occur in `s`. */
  predicate InFirstOccurrenceOrder<T(==,!new)>(u: seq<T>, s: seq<T>) {
    (forall k :: 0 <= k < |u| ==> u[k] in s) &&
    forall i, j :: 0 <= i < j < |u| ==> FirstIndex(s, u[i]) < FirstIndex(s, u[j])
  }

  /** `Array#map`. */
  function Map<T, U>(s: seq<T>, f: T -> U): (r: seq<U>)
    ensures |r| == |s| && forall i :: 0 <= i < |s| ==> r[i] == f(s[i])
  {
    if s == [] then [] else Map(s[..|s| - 1], f) + [f(s[|s| - 1])]
  }

  /** `Array#find_all`: the elements satisfying `p`, in order. */
  function FindAll<T(!new)>(s: seq<T>, p: T -> bool): seq<T> {
    if s == [] then [] else if p(s[0]) then [s[0]] + FindAll(s[1..], p) else FindAll(s[1..], p)
  }

  /** `find_all` keeps exactly the elements satisfying `p`, each as often as
      it occurs in `s`, in their order in `s`. */
  lemma {:induction false} FindAllSpec<T(!new)>(s: seq<T>, p: T -> bool)
    ensures forall x :: x in FindAll(s, p) <==> x in s && p(x)
    ensures forall x :: multiset(FindAll(s, p))[x] == if p(x) then multiset(s)[x] else 0
    ensures IsSubsequence(FindAll(s, p), s)
  {
    if s != [] {
      FindAllSpec(s[1..], p);
      assert s == [s[0]] + s[1..];
    }
  }

  /** `Array#uniq`: keeps the first occurrence of each element. */
  function Uniq<T(==,!new)>(s: seq<T>): seq<T> {
    if s == [] then [] else
      var u := Uniq(s[..|s| - 1]);
      if s[|s| - 1] in u then u else u + [s[|s| - 1]]
  }

  /** `uniq` returns a distinct sequence with the same elements as `s`. */
  lemma {:induction false} UniqSpec<T(!new)>(s: seq<T>)
    ensures Distinct(Uniq(s))
    ensures forall x :: x in Uniq(s) <==> x in s
    ensures |Uniq(s)| <= |s|
  {
    if s != [] {
      UniqSpec(s[..|s| - 1]);
      assert s == s[..|s| - 1] + [s[|s| - 1]];
    }
  }

  /** `Array#-`: the elements of `a` that do not occur in `b`. */
  function Difference<T(==,!new)>(a: seq<T>, b: seq<T>): seq<T> {
    if a == [] then [] else if a[0] in b then Difference(a[1..], b) else [a[0]] + Difference(a[1..], b)
  }

  /** `Array#-` keeps the order and the multiplicity that the surviving
      elements have in `a`, and drops every element of `b`. */
  lemma {:induction false} DifferenceSpec<T(!new)>(a: seq<T>, b: seq<T>)
    ensures forall x :: x in Difference(a, b) <==> x in a && x !in b
    ensures forall x :: multiset(Difference(a, b))[x] == if x in b then 0 else multiset(a)[x]
    ensures IsSubsequence(Difference(a, b), a)
  {
    if a != [] {
      DifferenceSpec(a[1..], b);
      assert a == [a[0]] + a[1..];
    }
  }

  lemma {:induction false} FirstIndexIsUnique<T(!new)>(s: seq<T>, x: T, i: nat)
    requires i < |s| && s[i] == x && x !in s[..i]
    ensures FirstIndex(s, x) == i
  {
  }

  lemma FirstIndexOfPrefix<T(!new)>(p: seq<T>, q: seq<T>, x: T)
    requires x in p
    ensures FirstIndex(p + q, x) == FirstIndex(p, x)
  {
    var i := FirstIndex(p, x);
    assert (p + q)[..i] == p[..i];
    FirstIndexIsUnique(p + q, x, i);
  }

  /** A distinct sequence holds each of its elements exactly once. */
  lemma {:induction false} DistinctCount<T(!new)>(s: seq<T>, x: T)
    requires Distinct(s)
    ensures multiset(s)[x] == if x in s then 1 else 0
  {
    if s != [] {
      var p := s[..|s| - 1];
      assert s == p + [s[|s| - 1]];
      assert Distinct(p);
      DistinctCount(p, x);
      assert s[|s| - 1] !in p;
    }
  }

  /** `uniq` returns its input unchanged exactly when the input is distinct,
      and otherwise something strictly shorter. */
  lemma {:induction false} UniqLength<T(!new)>(s: seq<T>)
    ensures Distinct(s) ==> Uniq(s) == s
    ensures !Distinct(s) ==> |Uniq(s)| < |s|
  {
    if s != [] {
      var p, x := s[..|s| - 1], s[|s| - 1];
      assert s == p + [x];
      UniqLength(p);
      if Distinct(s) {
        assert Distinct(p);
        assert x !in p;
      } else if x !in p {
        assert !Distinct(p) by {
          var i, j :| 0 <= i < j < |s| && s[i] == s[j];
          assert j < |p|;
          assert p[i] == p[j];
        }
      }
    }
  }

  /** `uniq` lists the elements in the order of their first occurrence. */
  lemma {:induction false} UniqOrder<T(!new)>(s: seq<T>)
    ensures InFirstOccurrenceOrder(Uniq(s), s)
  {
    if s != [] {
      var p, x := s[..|s| - 1], s[|s| - 1];
      assert s == p + [x];
      var u := Uniq(p);
      UniqOrder(p);
      UniqSpec(p);
      forall k | 0 <= k < |u|
        ensures FirstIndex(s, u[k]) == FirstIndex(p, u[k])
      {
        FirstIndexOfPrefix(p, [x], u[k]);
      }
      if x !in u {
        assert s[..|p|] == p;
        FirstIndexIsUnique(s, x, |p|);
        assert Uniq(s) == u + [x];
      }
    }
  }

  /** Filtering keeps the relative order of first occurrences. */
  lemma {:induction false} FindAllFirstIndexOrder<T(!new)>(s: seq<T>, p: T -> bool, x: T, y: T)
    requires x in s && y in s && x in FindAll(s, p) && y in FindAll(s, p)
    requires FirstIndex(FindAll(s, p), x) < FirstIndex(FindAll(s, p), y)
    ensures FirstIndex(s, x) < FirstIndex(s, y)
  {
    var r, rest := FindAll(s, p), FindAll(s[1..], p);
    FindAllSpec(s, p);
    FindAllSpec(s[1..], p);
    if p(s[0]) {
      assert r == [s[0]] + rest;
      if s[0] != x && s[0] != y {
        assert FirstIndex(r, x) == 1 + FirstIndex(rest, x);
        assert FirstIndex(r, y) == 1 + FirstIndex(rest, y);
        FindAllFirstIndexOrder(s[1..], p, x, y);
      }
    } else {
      assert r == rest;
      FindAllFirstIndexOrder(s[1..], p, x, y);
    }
  }

  /** `find_all` followed by `uniq` keeps first-occurrence order with
      respect to the original array. */
  lemma UniqFindAllOrder<T(!new)>(s: seq<T>, p: T -> bool)
    ensures InFirstOccurrenceOrder(Uniq(FindAll(s, p)), s)
  {
    var r := FindAll(s, p);
    var u := Uniq(r);
    UniqOrder(r);
    UniqSpec(r);
    FindAllSpec(s, p);
    forall i, j | 0 <= i < j < |u|
      ensures FirstIndex(s, u[i]) < FirstIndex(s, u[j])
    {
      FindAllFirstIndexOrder(s, p, u[i], u[j]);
    }
  }

  /** `Array#-` looks at `b` only through membership. */
  lemma {:induction false} DifferenceUsesMembershipOnly<T(!new)>(a: seq<T>, b1: seq<T>, b2: seq<T>)
    requires forall x :: x in b1 <==> x in b2
    ensures Difference(a, b1) == Difference(a, b2)
  {
    if a != [] {
      DifferenceUsesMembershipOnly(a[1..], b1, b2);
    }
  }

  /** An element listed twice is counted at least twice. */
  lemma RepeatedElementCount<T(!new)>(s: seq<T>, i: nat, j: nat)
    requires i < j < |s| && s[i] == s[j]
    ensures multiset(s)[s[i]] > 1
  {
    assert s == s[..j] + s[j..];
    assert s[..j][i] == s[i];
    assert s[j..][0] == s[i];
  }

  /** A sequence is distinct exactly when it counts every value at most once. */
  lemma DistinctIffCountsAtMostOne<T(!new)>(s: seq<T>)
    ensures Distinct(s) <==> forall x :: multiset(s)[x] <= 1
  {
    if Distinct(s) {
      forall x ensures multiset(s)[x] <= 1 { DistinctCount(s, x); }
    } else {
      var i, j :| 0 <= i < j < |s| && s[i] == s[j];
      RepeatedElementCount(s, i, j);
    }
  }

  /** Mapping with an injective function preserves the count of each element. */
  lemma {:induction false} MapCountInjective<T(!new), U>(s: seq<T>, f: T -> U, x: T)
    requires forall a, b :: f(a) == f(b) ==> a == b
    ensures multiset(Map(s, f))[f(x)] == multiset(s)[x]
  {
    if s != [] {
      var p := s[..|s| - 1];
      assert s == p + [s[|s| - 1]];
      MapCountInjective(p, f, x);
    }
  }
}
