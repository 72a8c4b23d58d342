/** Ordering of the lists that a material description sorts when it is
    finalised: reflections by d-spacing and then Miller indices, atom roles
    by atomic number. The sort takes a total preorder `leq`; the result is
    ordered by `leq` and a permutation of the input. */
module Sorting {

  /** `leq` is total and transitive. Elements it ranks equal (each `leq` the
      other) may still differ. */
  ghost predicate TotalPreorder<T(!new)>(leq: (T, T) -> bool) {
    && (forall a, b :: leq(a, b) || leq(b, a))
    && (forall a, b, c :: leq(a, b) && leq(b, c) ==> leq(a, c))
  }

  /** `s` is ordered by `leq`. */
  predicate SortedBy<T>(s: seq<T>, leq: (T, T) -> bool) {
    forall i, j :: 0 <= i < j < |s| ==> leq(s[i], s[j])
  }

  /** Inserts `x` into the sorted `s`, in front of the first element that
      `x` does not come after. */
  function InsertBy<T(!new)>(x: T, s: seq<T>, leq: (T, T) -> bool): (r: seq<T>)
    requires TotalPreorder(leq) && SortedBy(s, leq)
    ensures SortedBy(r, leq)
    ensures multiset(r) == multiset(s) + multiset{x}
    decreases |s|
  {
    if s == [] || leq(x, s[0]) then
      ConsSorted(x, s, leq);
      [x] + s
    else
      var rest := InsertBy(x, s[1..], leq);
      InsertStep(x, s, rest, leq);
      [s[0]] + rest
  }

  /** An element that does not come after the first of a sorted list can be
      put in front of it. */
  lemma ConsSorted<T(!new)>(y: T, t: seq<T>, leq: (T, T) -> bool)
    requires TotalPreorder(leq) && SortedBy(t, leq) && (t == [] || leq(y, t[0]))
    ensures SortedBy([y] + t, leq)
  {
    var r := [y] + t;
    forall i, j | 0 <= i < j < |r| ensures leq(r[i], r[j]) {
      if i == 0 {
        assert r[j] == t[j - 1];
        if j > 1 {
          assert leq(t[0], t[j - 1]);
        }
      } else {
        assert r[i] == t[i - 1] && r[j] == t[j - 1];
      }
    }
  }

  /** The recursive case of `InsertBy`: the head of `s` stays in front of the
      insertion into the rest of `s`. */
  lemma InsertStep<T(!new)>(x: T, s: seq<T>, rest: seq<T>, leq: (T, T) -> bool)
    requires TotalPreorder(leq) && SortedBy(s, leq) && s != [] && !leq(x, s[0])
    requires SortedBy(rest, leq) && multiset(rest) == multiset(s[1..]) + multiset{x}
    ensures SortedBy([s[0]] + rest, leq)
    ensures multiset([s[0]] + rest) == multiset(s) + multiset{x}
  {
    assert s == [s[0]] + s[1..];
    forall i | 0 <= i < |s[1..]| ensures leq(s[0], s[1..][i]) {
      assert s[1..][i] == s[i + 1];
    }
    LowerBoundKept(x, s[1..], rest, s[0], leq);
    ConsSorted(s[0], rest, leq);
  }

  /** An element that comes before `x` and before every element of `s` comes
      before every element of a permutation of `s` with `x` added. */
  lemma LowerBoundKept<T>(x: T, s: seq<T>, r: seq<T>, b: T, leq: (T, T) -> bool)
    requires multiset(r) == multiset(s) + multiset{x}
    requires leq(b, x) && forall i :: 0 <= i < |s| ==> leq(b, s[i])
    ensures forall i :: 0 <= i < |r| ==> leq(b, r[i])
  {
    forall i | 0 <= i < |r| ensures leq(b, r[i]) {
      assert r[i] in multiset(r);
      if r[i] != x {
        assert r[i] in multiset(s);
        var j :| 0 <= j < |s| && s[j] == r[i];
      }
    }
  }

  /** Insertion sort by `leq`. */
  function SortBy<T(!new)>(s: seq<T>, leq: (T, T) -> bool): (r: seq<T>)
    requires TotalPreorder(leq)
    ensures SortedBy(r, leq)
    ensures multiset(r) == multiset(s)
    ensures |r| == |s|
    decreases |s|
  {
    if s == [] then []
    else
      assert s == [s[0]] + s[1..];
      InsertBy(s[0], SortBy(s[1..], leq), leq)
  }

  /** Removing the element at position `j` removes one occurrence of it. */
  lemma RemoveAtMultiset<T>(r: seq<T>, j: nat)
    requires j < |r|
    ensures multiset(r[..j] + r[j + 1..]) == multiset(r) - multiset{r[j]}
  {
    assert r == r[..j] + [r[j]] + r[j + 1..];
  }

  /** Every element of a permutation of `s` is an element of `s`. */
  lemma PermutationMembers<T>(s: seq<T>, r: seq<T>, i: nat)
    requires multiset(r) == multiset(s) && i < |r|
    ensures r[i] in s
  {
    assert r[i] in multiset(r);
  }
}
