/** Atom records of a material description: the shared composition record
    of one atom, its pairing with an index that is unique within one material
    (IndexedAtomData), the per-role structural description (AtomInfo), the
    composition list, and the index-keyed lookup table built when the
    material is finalised. */
module Atoms {
  import opened Optional
  import opened Sorting

  /** The shared, immutable composition record of one atom (an element, an
      isotope or a mixture). Its internals are not modelled: `id` tells two
      records apart, `z` is the atomic number used to order atom roles and
      `displayName` is the name the record is displayed with. */
  datatype AtomData = AtomData(id: nat, z: nat, displayName: string)

  /** An atom record paired with its index. The index is only meaningful
      within one material description; comparisons look at the index alone. */
  datatype IndexedAtomData = IndexedAtomData(atomData: AtomData, index: nat) {

    /** The sanity condition both comparisons check: the same index always
        goes with the same atom record. */
    predicate ComparableWith(o: IndexedAtomData) {
      atomData == o.atomData || index != o.index
    }

    /** `operator<`: ordering by index. Records it orders are distinct;
        asymmetry and totality are `LessIsStrictTotalOrder`. */
    function Less(o: IndexedAtomData): (r: bool)
      requires ComparableWith(o)
      ensures r ==> this != o && !Equal(o)
    {
      index < o.index
    }

    /** `operator==`: equality by index, which for comparable records is
        identity of the records. */
    function Equal(o: IndexedAtomData): (r: bool)
      requires ComparableWith(o)
      ensures r <==> this == o
    {
      index == o.index
    }
  }

  /** `Less` is a strict order and, together with `Equal`, trichotomous:
      exactly one of a < b, a == b, b < a holds. */
  lemma LessIsStrictTotalOrder(a: IndexedAtomData, b: IndexedAtomData, c: IndexedAtomData)
    requires a.ComparableWith(b) && b.ComparableWith(c) && a.ComparableWith(c)
    ensures !a.Less(a)
    ensures a.Less(b) && b.Less(c) ==> a.Less(c)
    ensures b.ComparableWith(a)
    ensures (if a.Less(b) then 1 else 0) + (if a.Equal(b) then 1 else 0)
            + (if b.Less(a) then 1 else 0) == 1
  {
  }

  /** One unit-cell position, in fractional coordinates. */
  datatype Pos = Pos(x: real, y: real, z: real)

  /** Unit-cell positions of one atom role; the list is never empty. */
  type Positions = s: seq<Pos> | |s| > 0 witness [Pos(0.0, 0.0, 0.0)]

  /** One structural role of an atom in the unit cell: its indexed atom
      record, its positions, an optional Debye temperature (kelvin) and an
      optional mean-squared displacement (square angstrom). The link to the
      corresponding dynamic information is not modelled. */
  datatype AtomInfo = AtomInfo(atom: IndexedAtomData, positions: Positions,
                               debyeTemp: Option<real>, msd: Option<real>)
  {
    /** `numberPerUnitCell`: how many of this atom a unit cell holds, one per
        position, so at least one. */
    function NumberPerUnitCell(): (n: nat)
      ensures n == |positions| && n >= 1
    {
      |positions|
    }
  }

  /** Order of atom roles: by atomic number. */
  predicate ZOrder(a: AtomInfo, b: AtomInfo) {
    a.atom.atomData.z <= b.atom.atomData.z
  }

  lemma ZOrderIsTotalPreorder()
    ensures TotalPreorder(ZOrder)
  {
  }

  /** The atom-role sort of a finished description: ordered by `ZOrder`, a
      permutation of the input with the same number of atoms per unit cell,
      and, for a homogeneous list, the same first-entry MSD and Debye flags. */
  function SortAtomRoles(s: seq<AtomInfo>): (r: seq<AtomInfo>)
    ensures SortedBy(r, ZOrder) && multiset(r) == multiset(s) && |r| == |s|
    ensures AtomsPerUnitCell(r) == AtomsPerUnitCell(s)
    ensures |s| > 0 && MSDHomogeneous(s) ==> r[0].msd.Some? == s[0].msd.Some?
    ensures |s| > 0 && DebyeTempHomogeneous(s) ==> r[0].debyeTemp.Some? == s[0].debyeTemp.Some?
  {
    ZOrderIsTotalPreorder();
    var r := SortBy(s, ZOrder);
    PermutationKeepsAtomsPerUnitCell(s, r);
    if |s| > 0 then
      PermutationKeepsFirstEntry(s, r);
      r
    else
      r
  }

  /** Number of atoms in the unit cell over all roles of `s`. */
  function AtomsPerUnitCell(s: seq<AtomInfo>): (n: nat)
    ensures n >= |s|
    ensures s == [] <==> n == 0
  {
    if s == [] then 0 else s[0].NumberPerUnitCell() + AtomsPerUnitCell(s[1..])
  }

  /** Taking out the role at position `j` takes out its count. */
  lemma {:induction false} AtomsPerUnitCellRemove(s: seq<AtomInfo>, j: nat)
    requires j < |s|
    ensures AtomsPerUnitCell(s) == s[j].NumberPerUnitCell() + AtomsPerUnitCell(s[..j] + s[j + 1..])
  {
    if j > 0 {
      AtomsPerUnitCellRemove(s[1..], j - 1);
      assert s[1..][..j - 1] + s[1..][j..] == (s[..j] + s[j + 1..])[1..];
    } else {
      assert s[..j] + s[j + 1..] == s[1..];
    }
  }

  /** Reordering the roles (as the sort at lock time does) keeps the number
      of atoms per unit cell. */
  lemma {:induction false} PermutationKeepsAtomsPerUnitCell(s: seq<AtomInfo>, r: seq<AtomInfo>)
    requires multiset(r) == multiset(s)
    ensures AtomsPerUnitCell(r) == AtomsPerUnitCell(s)
    decreases |s|
  {
    if s != [] {
      assert s[0] in multiset(r);
      var j :| 0 <= j < |r| && r[j] == s[0];
      var r' := r[..j] + r[j + 1..];
      RemoveAtMultiset(r, j);
      assert s == [s[0]] + s[1..];
      assert multiset(s[1..]) == multiset(s) - multiset{s[0]};
      AtomsPerUnitCellRemove(r, j);
      PermutationKeepsAtomsPerUnitCell(s[1..], r');
    } else {
      assert |r| == |multiset(r)| == 0;
    }
  }

  /** The documented convention that either all roles carry a mean-squared
      displacement or none does. */
  predicate MSDHomogeneous(s: seq<AtomInfo>) {
    forall i, j :: 0 <= i < |s| && 0 <= j < |s| ==> s[i].msd.Some? == s[j].msd.Some?
  }

  /** The same convention for Debye temperatures. */
  predicate DebyeTempHomogeneous(s: seq<AtomInfo>) {
    forall i, j :: 0 <= i < |s| && 0 <= j < |s| ==> s[i].debyeTemp.Some? == s[j].debyeTemp.Some?
  }

  /** When the convention holds, looking at the first entry only gives the
      same answer for every ordering of the list: reordering a homogeneous
      list keeps it homogeneous and keeps what its first entry reports. */
  lemma {:induction false} PermutationKeepsFirstEntry(s: seq<AtomInfo>, r: seq<AtomInfo>)
    requires multiset(r) == multiset(s) && |s| > 0
    ensures |r| == |s|
    ensures MSDHomogeneous(s) ==> MSDHomogeneous(r) && r[0].msd.Some? == s[0].msd.Some?
    ensures DebyeTempHomogeneous(s) ==> DebyeTempHomogeneous(r)
                                        && r[0].debyeTemp.Some? == s[0].debyeTemp.Some?
  {
    assert |r| == |multiset(r)| == |s|;
    forall i | 0 <= i < |r| ensures exists j :: 0 <= j < |s| && s[j] == r[i] {
      PermutationMembers(s, r, i);
    }
  }

  /** One entry of the composition: a fraction and an indexed atom record. */
  datatype CompositionEntry = CompositionEntry(fraction: real, atom: IndexedAtomData)

  /** The atom indices of a composition are dense: each entry's index is
      below the number of entries, and no index occurs twice. */
  predicate DenseIndices(comp: seq<CompositionEntry>) {
    && (forall i :: 0 <= i < |comp| ==> comp[i].atom.index < |comp|)
    && (forall i, j :: 0 <= i < j < |comp| ==> comp[i].atom.index != comp[j].atom.index)
  }

  /** Builds the index-keyed table of a finalised material: entry `k` of
      `table` is the atom record whose index is `k`. */
  method BuildAtomIndexTable(comp: seq<CompositionEntry>) returns (table: seq<AtomData>)
    requires DenseIndices(comp)
    ensures |table| == |comp|
    ensures forall i :: 0 <= i < |comp| ==> table[comp[i].atom.index] == comp[i].atom.atomData
  {
    // every slot is overwritten below (IndexTableCovers); the initial values
    // only give the table its size
    table := seq(|comp|, i requires 0 <= i < |comp| => comp[i].atom.atomData);
    var i := 0;
    while i < |comp|
      invariant 0 <= i <= |comp|
      invariant |table| == |comp|
      invariant forall j :: 0 <= j < i ==> table[comp[j].atom.index] == comp[j].atom.atomData
    {
      table := table[comp[i].atom.index := comp[i].atom.atomData];
      i := i + 1;
    }
  }

  /** Display labels tell atom roles apart: no two indices share a label. */
  predicate DistinctLabels(labels: seq<string>) {
    forall i, j :: 0 <= i < j < |labels| ==> labels[i] != labels[j]
  }

  /** The set of atom indices a composition uses. */
  ghost function IndexSet(comp: seq<CompositionEntry>): set<nat> {
    set i | 0 <= i < |comp| :: comp[i].atom.index
  }

  /** Distinct indices: the index set has as many elements as the list. */
  lemma {:induction false} IndexSetSize(comp: seq<CompositionEntry>)
    requires forall i, j :: 0 <= i < j < |comp| ==> comp[i].atom.index != comp[j].atom.index
    ensures |IndexSet(comp)| == |comp|
  {
    if comp != [] {
      var init := comp[..|comp| - 1];
      IndexSetSize(init);
      assert IndexSet(comp) == IndexSet(init) + {comp[|comp| - 1].atom.index};
      assert comp[|comp| - 1].atom.index !in IndexSet(init);
    }
  }

  /** The first `n` naturals. */
  ghost function Below(n: nat): set<nat> {
    if n == 0 then {} else Below(n - 1) + {n - 1}
  }

  lemma {:induction false} BelowSpec(n: nat)
    ensures |Below(n)| == n
    ensures forall k: nat :: k in Below(n) <==> k < n
  {
    if n > 0 {
      BelowSpec(n - 1);
      assert n - 1 !in Below(n - 1);
    }
  }

  lemma {:induction false} SubsetSize(a: set<nat>, b: set<nat>)
    requires a <= b
    ensures |a| <= |b|
    decreases |a|
  {
    if a != {} {
      var x :| x in a;
      SubsetSize(a - {x}, b - {x});
    }
  }

  /** Some entry of the composition carries index `k`. */
  predicate UsesIndex(comp: seq<CompositionEntry>, k: nat) {
    exists i :: 0 <= i < |comp| && comp[i].atom.index == k
  }

  /** Pigeonhole: with dense indices every index below the number of entries
      is used by some entry, so the table built from the composition has no
      slot left unassigned. */
  lemma IndexTableCovers(comp: seq<CompositionEntry>)
    requires DenseIndices(comp)
    ensures forall k: nat :: k < |comp| ==> UsesIndex(comp, k)
  {
    IndexSetSize(comp);
    BelowSpec(|comp|);
    assert IndexSet(comp) <= Below(|comp|);
    forall k: nat | k < |comp| ensures UsesIndex(comp, k) {
      if k !in IndexSet(comp) {
        assert IndexSet(comp) <= Below(|comp|) - {k};
        assert |Below(|comp|) - {k}| == |comp| - 1;
        SubsetSize(IndexSet(comp), Below(|comp|) - {k});
        assert false;
      }
    }
  }
}
