/** The material description ("Info"): everything known about one material,
    filled in piece by piece by a factory and then locked. While building,
    every setter and adder is permitted; `ObjectDone` sorts the reflection and
    atom lists, builds the index-keyed lookup tables and locks the object,
    after which no setter may be called again. */
module MaterialInfo {
  import opened Optional
  import opened Sorting
  import opened Atoms
  import opened Reflections
  import opened Dynamics

  /** Crystal structure: spacegroup number (1-230, or 0 when unknown), the
      three lattice lengths (angstrom) and angles (degree), the unit cell
      volume (cubic angstrom) and the number of atoms per unit cell. */
  datatype StructureInfo = StructureInfo(spacegroup: nat,
                                         latticeA: real, latticeB: real, latticeC: real,
                                         alpha: real, beta: real, gamma: real,
                                         volume: real, nAtoms: nat)

  /** Custom data: named sections, each a list of lines of words. */
  type CustomLine = seq<string>
  type CustomSectionData = seq<CustomLine>
  datatype CustomSection = CustomSection(name: string, data: CustomSectionData)

  /** The externally supplied non-Bragg scattering cross-section (barn) as a
      function of the neutron energy. */
  type XSectProvider = real -> real

  /** Number of sections called `name`. */
  function CountNamed(cd: seq<CustomSection>, name: string): (n: nat)
    ensures n <= |cd|
    ensures n == 0 <==> forall i :: 0 <= i < |cd| ==> cd[i].name != name
    decreases |cd|
  {
    if cd == [] then 0
    else
      assert forall i :: 1 <= i < |cd| ==> cd[i] == cd[1..][i - 1];
      (if cd[0].name == name then 1 else 0) + CountNamed(cd[1..], name)
  }

  /** The body of the `index`-th section called `name` (counting from 0). */
  function NthNamed(cd: seq<CustomSection>, name: string, index: nat): (r: Option<CustomSectionData>)
    ensures r.Some? <==> index < CountNamed(cd, name)
    ensures r.Some? ==> exists i :: 0 <= i < |cd| && cd[i].name == name && cd[i].data == r.value
                                    && CountNamed(cd[..i], name) == index
    decreases |cd|
  {
    if cd == [] then None
    else
      assert forall i :: 1 <= i < |cd| ==> cd[i] == cd[1..][i - 1];
      if cd[0].name == name then
        if index == 0 then
          assert CountNamed(cd[..0], name) == 0;
          Some(cd[0].data)
        else
          var r := NthNamed(cd[1..], name, index - 1);
          PrefixCount(cd, r, name, index - 1);
          r
      else
        var r := NthNamed(cd[1..], name, index);
        PrefixCount(cd, r, name, index);
        r
  }

  /** The recursive case of `NthNamed`: a section of `cd[1..]` preceded by
      `n` sections called `name` is preceded in `cd` by those and by `cd[0]`
      if it is called `name` too. */
  lemma PrefixCount(cd: seq<CustomSection>, r: Option<CustomSectionData>, name: string, n: nat)
    requires cd != []
    requires r.Some? ==> exists i :: 0 <= i < |cd[1..]| && cd[1..][i].name == name && cd[1..][i].data == r.value
                                     && CountNamed(cd[1..][..i], name) == n
    ensures r.Some? ==> exists i :: 0 <= i < |cd| && cd[i].name == name && cd[i].data == r.value
                                    && CountNamed(cd[..i], name) == n + (if cd[0].name == name then 1 else 0)
  {
    if r.Some? {
      var i :| 0 <= i < |cd[1..]| && cd[1..][i].name == name && cd[1..][i].data == r.value
               && CountNamed(cd[1..][..i], name) == n;
      assert cd[..i + 1][1..] == cd[1..][..i];
      assert cd[..i + 1][0] == cd[0];
      assert cd[i + 1] == cd[1..][i];
    }
  }

  /** Every dynamic-information entry has the material temperature `t`. */
  predicate SharedTemperature(dyn: seq<DynamicInfo>, t: Option<real>) {
    |dyn| > 0 ==> t.Some? && forall i :: 0 <= i < |dyn| ==> dyn[i].temperature == t.value
  }

  class Info {
    var structInfo: Option<StructureInfo>
    var atomList: seq<AtomInfo>
    var hklList: seq<HKLInfo>
    var dynInfoList: seq<DynamicInfo>
    var hklDRange: Option<(real, real)>
    var density: Option<real>
    var numberDensity: Option<real>
    var xsectFree: Option<real>
    var xsectAbsorption: Option<real>
    var temperature: Option<real>
    var xsectProvider: Option<XSectProvider>
    var composition: seq<CompositionEntry>
    var custom: seq<CustomSection>
    var locked: bool
    var atomDataTable: seq<AtomData>  // indexed by atom index; filled when locking
    var displayLabels: seq<string>    // indexed by atom index; filled when locking

    /** Every reflection keeps the documented demi-normal layout. A locked
        description also has its lists ordered, its lookup tables built and
        the header's rules for a finished description. */
    ghost predicate Valid()
      reads this
    {
      && Layout()
      && (locked ==> LockedOrder() && LockedTables() && LockedRules())
    }

    /** Every reflection keeps the documented demi-normal layout. */
    ghost predicate Layout()
      reads this`hklList
    {
      forall i :: 0 <= i < |hklList| ==> hklList[i].Consistent()
    }

    /** Reflections ordered by d-spacing and then Miller indices, atom roles
        by atomic number. */
    ghost predicate LockedOrder()
      reads this`hklList, this`atomList
    {
      SortedBy(hklList, HKLOrder) && SortedBy(atomList, ZOrder)
    }

    /** Lookup tables that agree with the composition, and one distinct
        display label per atom index. */
    ghost predicate LockedTables()
      reads this`composition, this`atomDataTable, this`displayLabels
    {
      && DenseIndices(composition)
      && |atomDataTable| == |composition| && |displayLabels| == |composition|
      && (forall i :: 0 <= i < |composition| ==>
            atomDataTable[composition[i].atom.index] == composition[i].atom.atomData)
      && DistinctLabels(displayLabels)
    }

    /** The header's rules for a finished description: a material that is
        not crystalline has dynamic information; without reflection
        information the reflection list is empty; every dynamic-information
        entry has the material's temperature. */
    ghost predicate LockedRules()
      reads this`structInfo, this`atomList, this`hklDRange, this`hklList, this`dynInfoList, this`temperature
    {
      && (structInfo.Some? || atomList != [] || hklDRange.Some? || dynInfoList != [])
      && (hklDRange.Some? || hklList == [])
      && SharedTemperature(dynInfoList, temperature)
    }

    constructor ()
      ensures Valid() && !locked
      ensures structInfo == None && atomList == [] && hklList == [] && dynInfoList == []
      ensures hklDRange == None && density == None && numberDensity == None
      ensures xsectFree == None && xsectAbsorption == None && temperature == None
      ensures xsectProvider == None && composition == [] && custom == []
      ensures atomDataTable == [] && displayLabels == []
    {
      structInfo, atomList, hklList, dynInfoList, hklDRange := None, [], [], [], None;
      density, numberDensity, xsectFree, xsectAbsorption := None, None, None, None;
      temperature, xsectProvider, composition, custom := None, None, [], [];
      locked, atomDataTable, displayLabels := false, [], [];
    }

    ////////////////////////////////////////////////////////////////////////
    // Read side

    /** `isLocked`: whether `ObjectDone` has been called. */
    function IsLocked(): (r: bool)
      reads this
      ensures r <==> locked
    {
      locked
    }

    /** Crystalline: at least one of structure, atom and reflection
        information is present. */
    function IsCrystalline(): (r: bool)
      reads this
      ensures r <==> HasStructureInfo() || HasAtomInfo() || HasHKLInfo()
      ensures Valid() && locked && !r ==> HasDynamicInfo()
    {
      HasStructureInfo() || HasAtomInfo() || HasHKLInfo()
    }

    function HasStructureInfo(): (r: bool)
      reads this
      ensures r <==> structInfo.Some?
    {
      structInfo.Some?
    }

    /** Every value getter below demands that its presence test holds. */
    function GetStructureInfo(): (si: StructureInfo)
      reads this
      requires HasStructureInfo()
      ensures structInfo == Some(si)
    {
      structInfo.value
    }

    function HasXSectAbsorption(): (r: bool)
      reads this
      ensures r <==> xsectAbsorption.Some?
    {
      xsectAbsorption.Some?
    }

    function GetXSectAbsorption(): (x: real)
      reads this
      requires HasXSectAbsorption()
      ensures xsectAbsorption == Some(x)
    {
      xsectAbsorption.value
    }

    function HasXSectFree(): (r: bool)
      reads this
      ensures r <==> xsectFree.Some?
    {
      xsectFree.Some?
    }

    function GetXSectFree(): (x: real)
      reads this
      requires HasXSectFree()
      ensures xsectFree == Some(x)
    {
      xsectFree.value
    }

    function ProvidesNonBraggXSects(): (r: bool)
      reads this
      ensures r <==> xsectProvider.Some?
    {
      xsectProvider.Some?
    }

    function XSectScatNonBragg(ekin: real): (x: real)
      reads this
      requires ProvidesNonBraggXSects()
      ensures xsectProvider.Some? && x == xsectProvider.value(ekin)
    {
      xsectProvider.value(ekin)
    }

    function HasTemperature(): (r: bool)
      reads this
      ensures r <==> temperature.Some?
    {
      temperature.Some?
    }

    function GetTemperature(): (t: real)
      reads this
      requires HasTemperature()
      ensures temperature == Some(t)
    {
      temperature.value
    }

    function HasAtomInfo(): (r: bool)
      reads this`atomList
      ensures r <==> |atomList| > 0
    {
      atomList != []
    }

    /** Whether the atom roles carry mean-squared displacements. Only the
        first role is consulted, by the all-or-none convention. */
    function HasAtomMSD(): (r: bool)
      reads this`atomList
      ensures r ==> HasAtomInfo()
    {
      HasAtomInfo() && atomList[0].msd.Some?
    }

    /** Whether the atom roles carry Debye temperatures; first role only. */
    function HasAtomDebyeTemp(): (r: bool)
      reads this`atomList
      ensures r ==> HasAtomInfo()
    {
      HasAtomInfo() && atomList[0].debyeTemp.Some?
    }

    function HasDynamicInfo(): (r: bool)
      reads this
      ensures r <==> |dynInfoList| > 0
    {
      dynInfoList != []
    }

    /** Reflection information is present once its d-range was given. A
        locked description without it has an empty reflection list. */
    function HasHKLInfo(): (r: bool)
      reads this
      ensures r <==> hklDRange.Some?
      ensures Valid() && locked && !r ==> NHKL() == 0 && HklBegin() == HklLast() == HklEnd()
    {
      hklDRange.Some?
    }

    function NHKL(): (n: nat)
      reads this
      ensures n == |hklList|
    {
      |hklList|
    }

    /** Positions into the reflection list stand for its iterators. */
    function HklEnd(): (p: nat)
      reads this
      ensures p == NHKL()
    {
      |hklList|
    }

    function HklBegin(): (p: nat)
      reads this
      ensures p <= HklEnd()
      ensures p == HklEnd() <==> hklList == []
    {
      0
    }

    /** The last reflection, or the end position when there is none. */
    function HklLast(): (p: nat)
      reads this
      ensures p <= HklEnd()
      ensures p == HklEnd() <==> hklList == []
      ensures p < HklEnd() ==> p + 1 == HklEnd()
    {
      if hklList == [] then HklEnd() else |hklList| - 1
    }

    function HklDLower(): (d: real)
      reads this
      requires HasHKLInfo()
      ensures hklDRange == Some((d, hklDRange.value.1))
    {
      hklDRange.value.0
    }

    function HklDUpper(): (d: real)
      reads this
      requires HasHKLInfo()
      ensures hklDRange == Some((hklDRange.value.0, d))
    {
      hklDRange.value.1
    }

    /** The smallest d-spacing of the list, infinite when it is empty. */
    function HklDMinVal(): (r: DBound)
      reads this
      ensures r == Infinite <==> hklList == []
      ensures r.Finite? ==> (forall i :: 0 <= i < |hklList| ==> r.d <= hklList[i].dspacing)
                            && exists i :: 0 <= i < |hklList| && hklList[i].dspacing == r.d
    {
      if hklList == [] then Infinite else Finite(MinDSpacing(hklList))
    }

    /** The largest d-spacing of the list, infinite when it is empty. */
    function HklDMaxVal(): (r: DBound)
      reads this
      ensures r == Infinite <==> hklList == []
      ensures r.Finite? ==> (forall i :: 0 <= i < |hklList| ==> hklList[i].dspacing <= r.d)
                            && exists i :: 0 <= i < |hklList| && hklList[i].dspacing == r.d
    {
      if hklList == [] then Infinite else Finite(MaxDSpacing(hklList))
    }

    /** Whether reflections carry demi-normals; first reflection only. */
    function HasHKLDemiNormals(): (r: bool)
      reads this
      ensures r ==> HasHKLInfo() && NHKL() > 0
    {
      HasHKLInfo() && hklList != [] && hklList[0].demiNormals != []
    }

    /** Whether reflections carry expanded Miller indices; first reflection
        only. */
    function HasExpandedHKLInfo(): (r: bool)
      reads this
      ensures r ==> HasHKLInfo() && NHKL() > 0
    {
      HasHKLInfo() && hklList != [] && hklList[0].eqvHKL.Some?
    }

    /** The first reflection whose expanded Miller indices include
        (h, k, l), or the end position when none does. */
    function SearchExpandedHKL(h: Short, k: Short, l: Short): (r: nat)
      reads this
      ensures r <= HklEnd()
      ensures r < HklEnd() ==> hklList[r].HasEqv(h, k, l)
      ensures forall j :: 0 <= j < r ==> !hklList[j].HasEqv(h, k, l)
      ensures r == HklEnd() <==> forall j :: 0 <= j < |hklList| ==> !hklList[j].HasEqv(h, k, l)
    {
      SearchFrom(hklList, h, k, l, 0)
    }

    /** A reflection found by `SearchExpandedHKL` carries (h, k, l) on one of
        its demi-normals, and its multiplicity is twice its number of
        demi-normals. */
    lemma SearchFindsDemiNormal(h: Short, k: Short, l: Short)
      requires Valid()
      ensures SearchExpandedHKL(h, k, l) < HklEnd() ==>
                var hi := hklList[SearchExpandedHKL(h, k, l)];
                && hi.multiplicity == 2 * |hi.demiNormals|
                && exists j :: 0 <= j < |hi.demiNormals| && hi.TripleAt(j, h, k, l)
    {
      var r := SearchExpandedHKL(h, k, l);
      if r < HklEnd() {
        HasEqvIsDemiNormal(hklList[r], h, k, l);
      }
    }

    function HasDensity(): (r: bool)
      reads this
      ensures r <==> density.Some?
    {
      density.Some?
    }

    function GetDensity(): (d: real)
      reads this
      requires HasDensity()
      ensures density == Some(d)
    {
      density.value
    }

    function HasNumberDensity(): (r: bool)
      reads this
      ensures r <==> numberDensity.Some?
    {
      numberDensity.Some?
    }

    function GetNumberDensity(): (d: real)
      reads this
      requires HasNumberDensity()
      ensures numberDensity == Some(d)
    {
      numberDensity.value
    }

    function HasComposition(): (r: bool)
      reads this
      ensures r <==> |composition| > 0
    {
      composition != []
    }

    /** Display label of the atom with index `ai`. Once locked, it tells
        that index apart from every other: no other index has this label. */
    function DisplayLabel(ai: nat): (s: string)
      reads this
      requires ai < |displayLabels|
      ensures Valid() && locked ==> ai < |atomDataTable|
                                    && forall j :: 0 <= j < |displayLabels| && j != ai ==> displayLabels[j] != s
    {
      displayLabels[ai]
    }

    /** The atom record with index `ai`. */
    function AtomDataAt(ai: nat): (a: AtomData)
      reads this
      requires ai < |atomDataTable|
      ensures Valid() && locked ==> exists i :: 0 <= i < |composition| && composition[i].atom.index == ai
                                                 && composition[i].atom.atomData == a
    {
      IndexTableCoversWhenLocked(ai);
      atomDataTable[ai]
    }

    /** The atom record with index `ai`, paired with that index. */
    function IndexedAtom(ai: nat): (r: IndexedAtomData)
      reads this
      requires ai < |atomDataTable|
      ensures r.index == ai && r.atomData == AtomDataAt(ai)
      ensures Valid() && locked ==> exists i :: 0 <= i < |composition| && composition[i].atom == r
    {
      IndexedAtomData(AtomDataAt(ai), ai)
    }

    /** A locked description has a composition entry for every table slot,
        and that entry's atom record is the one in the slot. */
    lemma IndexTableCoversWhenLocked(ai: nat)
      requires ai < |atomDataTable|
      ensures Valid() && locked ==> exists i :: 0 <= i < |composition| && composition[i].atom.index == ai
                                               && composition[i].atom.atomData == atomDataTable[ai]
    {
      if Valid() && locked {
        IndexTableCovers(composition);
        assert UsesIndex(composition, ai);
      }
    }

    /** Number of custom sections called `name`. */
    function CountCustomSections(name: string): (n: nat)
      reads this
      ensures n <= |custom|
      ensures n == 0 <==> forall i :: 0 <= i < |custom| ==> custom[i].name != name
    {
      CountNamed(custom, name)
    }

    /** The `index`-th custom section called `name`, or None when there are
        not that many. */
    function GetCustomSection(name: string, index: nat := 0): (r: Option<CustomSectionData>)
      reads this
      ensures r.Some? <==> index < CountCustomSections(name)
      ensures r.Some? ==> exists i :: 0 <= i < |custom| && custom[i].name == name && custom[i].data == r.value
                                      && CountNamed(custom[..i], name) == index
    {
      NthNamed(custom, name, index)
    }

    ////////////////////////////////////////////////////////////////////////
    // Building: every method below is permitted only before locking

    method AddAtom(ai: AtomInfo)
      requires Valid() && !locked
      modifies this`atomList
      ensures Valid() && atomList == old(atomList) + [ai]
      ensures HasAtomInfo() && IsCrystalline()
      ensures old(HasAtomInfo()) ==> HasAtomMSD() == old(HasAtomMSD())
                                     && HasAtomDebyeTemp() == old(HasAtomDebyeTemp())
      ensures !old(HasAtomInfo()) ==> HasAtomMSD() == ai.msd.Some?
                                      && HasAtomDebyeTemp() == ai.debyeTemp.Some?
    {
      atomList := atomList + [ai];
    }

    /** Declares reflection information present, generated for d-spacings
        in [dlower, dupper]. */
    method EnableHKLInfo(dlower: real, dupper: real)
      requires Valid() && !locked
      modifies this`hklDRange
      ensures Valid() && hklDRange == Some((dlower, dupper))
      ensures HasHKLInfo() && HklDLower() == dlower && HklDUpper() == dupper && IsCrystalline()
    {
      hklDRange := Some((dlower, dupper));
    }

    /** Reflections are added with the documented demi-normal layout. */
    method AddHKL(hi: HKLInfo)
      requires Valid() && !locked && hi.Consistent()
      modifies this`hklList
      ensures Valid() && hklList == old(hklList) + [hi]
      ensures NHKL() == old(NHKL()) + 1 && HklLast() == old(NHKL())
      ensures HasHKLInfo() == old(HasHKLInfo())
      ensures old(NHKL()) > 0 ==> HasHKLDemiNormals() == old(HasHKLDemiNormals())
                                  && HasExpandedHKLInfo() == old(HasExpandedHKLInfo())
    {
      hklList := hklList + [hi];
    }

    method SetHKLList(list: seq<HKLInfo>)
      requires Valid() && !locked
      requires forall i :: 0 <= i < |list| ==> list[i].Consistent()
      modifies this`hklList
      ensures Valid() && hklList == list
      ensures NHKL() == |list| && HasHKLInfo() == old(HasHKLInfo())
    {
      hklList := list;
    }

    /** Structure information may be given only once. */
    method SetStructInfo(si: StructureInfo)
      requires Valid() && !locked && !HasStructureInfo()
      modifies this`structInfo
      ensures Valid() && structInfo == Some(si)
      ensures HasStructureInfo() && GetStructureInfo() == si && IsCrystalline()
    {
      structInfo := Some(si);
    }

    method SetXSectFree(x: real)
      requires Valid() && !locked
      modifies this`xsectFree
      ensures Valid() && xsectFree == Some(x)
      ensures HasXSectFree() && GetXSectFree() == x
    {
      xsectFree := Some(x);
    }

    method SetXSectAbsorption(x: real)
      requires Valid() && !locked
      modifies this`xsectAbsorption
      ensures Valid() && xsectAbsorption == Some(x)
      ensures HasXSectAbsorption() && GetXSectAbsorption() == x
    {
      xsectAbsorption := Some(x);
    }

    method SetTemperature(t: real)
      requires Valid() && !locked
      modifies this`temperature
      ensures Valid() && temperature == Some(t)
      ensures HasTemperature() && GetTemperature() == t
    {
      temperature := Some(t);
    }

    method SetDensity(d: real)
      requires Valid() && !locked
      modifies this`density
      ensures Valid() && density == Some(d)
      ensures HasDensity() && GetDensity() == d
    {
      density := Some(d);
    }

    method SetNumberDensity(d: real)
      requires Valid() && !locked
      modifies this`numberDensity
      ensures Valid() && numberDensity == Some(d)
      ensures HasNumberDensity() && GetNumberDensity() == d
    {
      numberDensity := Some(d);
    }

    method SetXSectProvider(xsp: XSectProvider)
      requires Valid() && !locked
      modifies this`xsectProvider
      ensures Valid() && xsectProvider == Some(xsp)
      ensures ProvidesNonBraggXSects() && forall e :: XSectScatNonBragg(e) == xsp(e)
    {
      xsectProvider := Some(xsp);
    }

    method AddDynInfo(di: DynamicInfo)
      requires Valid() && !locked
      modifies this`dynInfoList
      ensures Valid() && dynInfoList == old(dynInfoList) + [di]
      ensures HasDynamicInfo()
    {
      dynInfoList := dynInfoList + [di];
    }

    method SetComposition(c: seq<CompositionEntry>)
      requires Valid() && !locked
      modifies this`composition
      ensures Valid() && composition == c
      ensures HasComposition() <==> c != []
    {
      composition := c;
    }

    method SetCustomData(cd: seq<CustomSection>)
      requires Valid() && !locked
      modifies this`custom
      ensures Valid() && custom == cd
      ensures forall name :: CountCustomSections(name) == CountNamed(cd, name)
    {
      custom := cd;
    }

    /** Finishes the description: orders the reflections by d-spacing and
        then Miller indices and the atom roles by atomic number, builds the
        index-keyed table from the composition, installs the display labels
        (one per atom index, no two alike) and locks the object for good. */
    method ObjectDone(labels: seq<string>)
      requires Valid() && !locked && DenseIndices(composition)
      requires |labels| == |composition| && DistinctLabels(labels)
      requires LockedRules()
      modifies this`hklList, this`atomList, this`atomDataTable, this`displayLabels, this`locked
      ensures Valid() && IsLocked()
      ensures SortedBy(hklList, HKLOrder) && multiset(hklList) == multiset(old(hklList))
      ensures SortedBy(atomList, ZOrder) && multiset(atomList) == multiset(old(atomList))
      ensures AtomsPerUnitCell(atomList) == AtomsPerUnitCell(old(atomList))
      ensures displayLabels == labels
      ensures MSDHomogeneous(old(atomList)) ==> HasAtomMSD() == old(HasAtomMSD())
      ensures DebyeTempHomogeneous(old(atomList)) ==> HasAtomDebyeTemp() == old(HasAtomDebyeTemp())
    {
      SortLists();
      BuildTables(labels);
      locked := true;
    }

    /** The sorting step of `ObjectDone`. */
    method SortLists()
      requires Layout() && LockedRules()
      modifies this`hklList, this`atomList
      ensures Layout() && LockedOrder() && LockedRules()
      ensures multiset(hklList) == multiset(old(hklList)) && multiset(atomList) == multiset(old(atomList))
      ensures AtomsPerUnitCell(atomList) == AtomsPerUnitCell(old(atomList))
      ensures MSDHomogeneous(old(atomList)) ==> HasAtomMSD() == old(HasAtomMSD())
      ensures DebyeTempHomogeneous(old(atomList)) ==> HasAtomDebyeTemp() == old(HasAtomDebyeTemp())
    {
      hklList, atomList := SortReflections(hklList), SortAtomRoles(atomList);
    }

    /** The table-building step of `ObjectDone`. */
    method BuildTables(labels: seq<string>)
      requires DenseIndices(composition)
      requires |labels| == |composition| && DistinctLabels(labels)
      modifies this`atomDataTable, this`displayLabels
      ensures LockedTables() && displayLabels == labels
    {
      atomDataTable := BuildAtomIndexTable(composition);
      displayLabels := labels;
    }

    /** In a locked description every dynamic-information entry reports the
        material's own temperature. */
    lemma LockedDynamicTemperature(i: nat)
      requires Valid() && locked && i < |dynInfoList|
      ensures HasTemperature() && dynInfoList[i].temperature == GetTemperature()
    {
    }

    /** The Debye temperature of any Debye-model entry of the description
        can be read, in every state, and is positive. */
    lemma DebyeEntryTemperature(i: nat)
      requires i < |dynInfoList| && dynInfoList[i].kind.VDOSDebye?
      ensures dynInfoList[i].DebyeTemperature() > 0.0
    {
    }

    /** In a locked description, looking up the index of any composition
        entry gives back that entry's indexed atom record. */
    lemma LockedLookups()
      requires Valid() && locked
      ensures forall i :: 0 <= i < |composition| ==>
                composition[i].atom.index < |atomDataTable| && IndexedAtom(composition[i].atom.index) == composition[i].atom
    {
    }
  }

  /** Locked reflection bounds are those of the first and the last entry of
      the list, which is ordered by d-spacing. */
  lemma LockedHKLBounds(info: Info)
    requires info.Valid() && info.locked && info.hklList != []
    ensures info.HklDMinVal() == Finite(info.hklList[0].dspacing)
    ensures info.HklDMaxVal() == Finite(info.hklList[|info.hklList| - 1].dspacing)
  {
    SortedBounds(info.hklList);
  }
}
