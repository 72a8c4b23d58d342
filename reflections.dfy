/** Reflections (HKL planes) of a crystalline material: one record per family
    of symmetry-equivalent planes, with its d-spacing, squared structure
    factor, multiplicity and, optionally, half of its plane normals and the
    Miller indices that go with them. */
module Reflections {
  import opened Optional
  import opened Sorting

  /** A 2-byte signed integer, the storage type of expanded Miller indices. */
  type Short = x: int | -32768 <= x <= 32767

  /** A unit plane normal. */
  datatype Normal = Normal(x: real, y: real, z: real)

  /** One reflection family: d-spacing (angstrom), squared structure factor
      (barn), representative Miller indices, multiplicity, the demi-normals
      (of each pair n, -n only one is listed) and, when present, the Miller
      indices of the demi-normals packed three per normal. */
  datatype HKLInfo = HKLInfo(dspacing: real, fsquared: real, h: int, k: int, l: int,
                             multiplicity: nat, demiNormals: seq<Normal>,
                             eqvHKL: Option<seq<Short>>)
  {
    /** The documented layout: listed demi-normals are half of the
        multiplicity, and packed Miller indices are three per demi-normal. */
    predicate Consistent() {
      && (|demiNormals| > 0 ==> multiplicity == 2 * |demiNormals|)
      && (eqvHKL.Some? ==> |eqvHKL.value| == 3 * |demiNormals|)
    }

    /** The packed Miller indices of demi-normal `j`. */
    function EqvTriple(j: nat): (t: (Short, Short, Short))
      requires eqvHKL.Some? && 3 * j + 2 < |eqvHKL.value|
    {
      (eqvHKL.value[3 * j], eqvHKL.value[3 * j + 1], eqvHKL.value[3 * j + 2])
    }

    /** Demi-normal `j` has Miller indices (h, k, l). */
    predicate TripleAt(j: nat, h: Short, k: Short, l: Short) {
      eqvHKL.Some? && 3 * j + 2 < |eqvHKL.value| && EqvTriple(j) == (h, k, l)
    }

    /** The expanded Miller indices of this family include (h, k, l). */
    predicate HasEqv(h: Short, k: Short, l: Short) {
      eqvHKL.Some? && exists j :: 0 <= j < |eqvHKL.value| / 3 && TripleAt(j, h, k, l)
    }
  }

  /** For a consistent family with packed Miller indices, there is one index
      triple per demi-normal, and the multiplicity counts each of them twice
      (once for n and once for -n) as soon as any is listed. */
  lemma TriplesPerDemiNormal(hi: HKLInfo)
    requires hi.Consistent() && hi.eqvHKL.Some?
    ensures |hi.eqvHKL.value| / 3 == |hi.demiNormals|
    ensures forall j :: 0 <= j < |hi.demiNormals| ==> 3 * j + 2 < |hi.eqvHKL.value|
    ensures |hi.demiNormals| > 0 ==> hi.multiplicity == 2 * (|hi.eqvHKL.value| / 3)
  {
  }

  /** A consistent family lists (h, k, l) among its expanded Miller indices
      exactly when one of its demi-normals carries that triple. */
  lemma HasEqvIsDemiNormal(hi: HKLInfo, h: Short, k: Short, l: Short)
    requires hi.Consistent()
    ensures hi.HasEqv(h, k, l) <==> exists j :: 0 <= j < |hi.demiNormals| && hi.TripleAt(j, h, k, l)
  {
    if hi.eqvHKL.Some? {
      TriplesPerDemiNormal(hi);
    }
  }

  /** Every reordering of a list of consistent families holds only
      consistent families. */
  lemma PermutationKeepsLayout(s: seq<HKLInfo>, r: seq<HKLInfo>)
    requires multiset(r) == multiset(s)
    requires forall i :: 0 <= i < |s| ==> s[i].Consistent()
    ensures forall i :: 0 <= i < |r| ==> r[i].Consistent()
  {
    forall i | 0 <= i < |r| ensures r[i].Consistent() {
      PermutationMembers(s, r, i);
    }
  }

  /** Order of reflections: by d-spacing, and among equal d-spacings by the
      Miller indices (h, k, l), lexicographically. */
  predicate HKLOrder(a: HKLInfo, b: HKLInfo) {
    || a.dspacing < b.dspacing
    || (a.dspacing == b.dspacing
        && (|| a.h < b.h
            || (a.h == b.h && (a.k < b.k || (a.k == b.k && a.l <= b.l)))))
  }

  lemma HKLOrderIsTotalPreorder()
    ensures TotalPreorder(HKLOrder)
  {
  }

  /** The reflection sort of a finished description: ordered by `HKLOrder`,
      a permutation of the input, and keeping the documented layout. */
  function SortReflections(s: seq<HKLInfo>): (r: seq<HKLInfo>)
    ensures SortedBy(r, HKLOrder) && multiset(r) == multiset(s) && |r| == |s|
    ensures (forall i :: 0 <= i < |s| ==> s[i].Consistent()) ==> forall i :: 0 <= i < |r| ==> r[i].Consistent()
  {
    HKLOrderIsTotalPreorder();
    var r := SortBy(s, HKLOrder);
    if forall i :: 0 <= i < |s| ==> s[i].Consistent() then
      PermutationKeepsLayout(s, r);
      r
    else
      r
  }

  /** Position of the first reflection at or after `i` whose expanded Miller
      indices include (h, k, l); `|list|` if there is none. */
  function SearchFrom(list: seq<HKLInfo>, h: Short, k: Short, l: Short, i: nat): (r: nat)
    requires i <= |list|
    ensures i <= r <= |list|
    ensures r < |list| ==> list[r].HasEqv(h, k, l)
    ensures forall j :: i <= j < r ==> !list[j].HasEqv(h, k, l)
    decreases |list| - i
  {
    if i == |list| then |list|
    else if list[i].HasEqv(h, k, l) then i
    else SearchFrom(list, h, k, l, i + 1)
  }

  /** A d-spacing or the infinite value that stands for "no reflections". */
  datatype DBound = Finite(d: real) | Infinite

  /** The smallest d-spacing of a non-empty list. */
  function MinDSpacing(list: seq<HKLInfo>): (d: real)
    requires |list| > 0
    ensures exists i :: 0 <= i < |list| && list[i].dspacing == d
    ensures forall i :: 0 <= i < |list| ==> d <= list[i].dspacing
  {
    if |list| == 1 then list[0].dspacing
    else
      var m := MinDSpacing(list[1..]);
      assert forall i :: 1 <= i < |list| ==> list[i] == list[1..][i - 1];
      if list[0].dspacing <= m then list[0].dspacing else m
  }

  /** The largest d-spacing of a non-empty list. */
  function MaxDSpacing(list: seq<HKLInfo>): (d: real)
    requires |list| > 0
    ensures exists i :: 0 <= i < |list| && list[i].dspacing == d
    ensures forall i :: 0 <= i < |list| ==> list[i].dspacing <= d
  {
    if |list| == 1 then list[0].dspacing
    else
      var m := MaxDSpacing(list[1..]);
      assert forall i :: 1 <= i < |list| ==> list[i] == list[1..][i - 1];
      if m <= list[0].dspacing then list[0].dspacing else m
  }

  /** In a list sorted by d-spacing the smallest value is the first entry's
      and the largest the last entry's. */
  lemma SortedBounds(list: seq<HKLInfo>)
    requires |list| > 0 && SortedBy(list, HKLOrder)
    ensures MinDSpacing(list) == list[0].dspacing
    ensures MaxDSpacing(list) == list[|list| - 1].dspacing
  {
    var lo, hi := MinDSpacing(list), MaxDSpacing(list);
    var i :| 0 <= i < |list| && list[i].dspacing == lo;
    OrderedDSpacing(list, 0, i);
    var j :| 0 <= j < |list| && list[j].dspacing == hi;
    OrderedDSpacing(list, j, |list| - 1);
  }

  /** In a list ordered by `HKLOrder`, d-spacings do not decrease. */
  lemma OrderedDSpacing(list: seq<HKLInfo>, i: nat, j: nat)
    requires SortedBy(list, HKLOrder) && i <= j < |list|
    ensures list[i].dspacing <= list[j].dspacing
  {
    if i < j {
      assert HKLOrder(list[i], list[j]);
    }
  }
}
