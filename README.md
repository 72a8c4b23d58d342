# NCrystal material description (`Info`) in Dafny

This project models the material description of NCrystal, a library for
neutron scattering in crystals and other materials. The `Info` object holds
everything known about one material:

- its crystal structure;
- its atom roles (`AtomInfo`), each with unit-cell positions and, optionally,
  a mean-squared displacement and a Debye temperature;
- its reflection (HKL) list;
- its dynamic information (`DynamicInfo`);
- its composition;
- density, number density, cross-sections and temperature;
- free-form custom sections.

A factory builds an `Info` piece by piece and then calls `objectDone`. That
call sorts the reflections by d-spacing first and the atom roles by atomic
number first; the model sorts both in ascending order and breaks ties in
d-spacing by Miller indices (h,k,l). It also builds the index-keyed lookup
tables and locks the object. After that, no
setter may be called.

Files and modules:

- `optional.dfy` (`Optional`): the `Option` type used for every optional field.
- `sorting.dfy` (`Sorting`): the ordering `objectDone` establishes. It is an
  insertion sort by a total preorder, proved to give an ordered list that is
  a permutation of the input.
- `atoms.dfy` (`Atoms`): atom records, the index-only comparisons of
  `IndexedAtomData`, `AtomInfo` with its never-empty position list, the
  number of atoms per unit cell, composition entries and the index-keyed
  table built at lock time.
- `reflections.dfy` (`Reflections`): `HKLInfo` and its documented layout,
  the search over expanded Miller indices, and the smallest and largest
  d-spacing.
- `dynamic_info.dfy` (`Dynamics`): class `DynamicInfo` with its variants, its
  mutable abundance (`changeFraction`) and the Debye-model constructor.
- `info.dfy` (`MaterialInfo`): class `Info`. It has one field per member of
  the C++ class. Each setter's `modifies` clause names the one field it may
  change, so nothing else changes. `Valid()` is the object invariant. Every
  reflection follows the documented demi-normal layout. A locked object also
  has its ordered lists, its tables and its distinct display labels, and
  keeps the header's rules on dynamic information, reflection presence and
  temperature.

The read side (`has*`, `get*`, `hklLast`, the lookups) is made of functions
that read the object. Each `get*` requires its `has*`. Each setter's
postcondition says that its `has*` becomes true and its `get*` returns the
argument. Every building method requires `Valid()` and `!locked`; `ensureNoLock` treats a
call after locking as a fatal programming error. Only `ObjectDone` may
change `locked`, and it sets it to true, so a locked object stays locked.

Units (kelvin, g/cm3, barn, angstrom) are plain `real` values. Positions into
the reflection list stand for its iterators: `HklBegin() == 0` and
`HklEnd() == |hklList|`.

## Model

| member | source | states |
|---|---|---|
| `Sorting.InsertBy` | ncrystal_core/include/NCrystal/NCInfo.hh:487 | for a total preorder, inserting into an ordered list keeps it ordered and adds exactly that element (multiset) |
| `Sorting.SortBy` | ncrystal_core/include/NCrystal/NCInfo.hh:487 | for a total preorder, the sort used by `objectDone` gives an ordered list that is a permutation of the input |
| `Atoms.IndexedAtomData.Less` | ncrystal_core/include/NCrystal/NCInfo.hh:581-585 | `operator<`, defined under the sanity condition that the same index means the same record; records it orders are distinct and not equal by index |
| `Atoms.IndexedAtomData.Equal` | ncrystal_core/include/NCrystal/NCInfo.hh:586-590 | `operator==`, defined under the same sanity condition; equality by index holds exactly when the records are identical |
| `Atoms.LessIsStrictTotalOrder` | ncrystal_core/include/NCrystal/NCInfo.hh:581-590 | `<` by index is irreflexive and transitive, and exactly one of a<b, a==b, b<a holds |
| `Atoms.AtomInfo.NumberPerUnitCell` | ncrystal_core/include/NCrystal/NCInfo.hh:120-127 | one atom per listed position, and at least one, because the position list of a role is never empty (enforced by its type) |
| `Atoms.PermutationKeepsFirstEntry` | ncrystal_core/include/NCrystal/NCInfo.hh:348-355 | under the all-or-none convention, any reordering (such as the sort at lock time) keeps the convention and what the first entry reports about MSD and Debye temperature |
| `Atoms.BuildAtomIndexTable` | ncrystal_core/include/NCrystal/NCInfo.hh:507 | the table has one slot per composition entry, and slot `e.index` holds entry `e`'s atom record |
| `Atoms.IndexTableCovers` | ncrystal_core/include/NCrystal/NCInfo.hh:609-613 | with dense, distinct indices every slot of the table belongs to some composition entry (pigeonhole) |
| `Reflections.TriplesPerDemiNormal` | ncrystal_core/include/NCrystal/NCInfo.hh:62-77 | for a reflection in the documented layout with packed indices, there is one index triple per demi-normal, and multiplicity is twice that count when demi-normals are listed |
| `Dynamics.DynamicInfo.constructor` | ncrystal_core/include/NCrystal/NCInfo.hh:156 | a non-Debye variant stores fraction, atom, temperature and variant as given |
| `Dynamics.DynamicInfo.VDOSDebye` | ncrystal_core/include/NCrystal/NCInfo.hh:576-577 | the Debye-model variant requires a positive Debye temperature and stores it |
| `Dynamics.DynamicInfo.ChangeFraction` | ncrystal_core/include/NCrystal/NCInfo.hh:159 | the abundance becomes the argument; the atom, temperature and variant are constants and do not change |
| `Dynamics.DynamicInfo.DebyeTemperature` | ncrystal_core/include/NCrystal/NCInfo.hh:576-578 | the Debye temperature of a Debye-model variant is the one it was built with and is positive; positivity is part of the variant's type, so it can be read without any precondition beyond the variant |
| `MaterialInfo.Info.constructor` | ncrystal_core/include/NCrystal/NCInfo.hh:466 | a new description is unlocked, with every optional field absent and every list empty |
| `MaterialInfo.Info.HasAtomMSD` | ncrystal_core/include/NCrystal/NCInfo.hh:548 | MSDs are reported only when atom info is present (first entry consulted) |
| `MaterialInfo.Info.HasAtomDebyeTemp` | ncrystal_core/include/NCrystal/NCInfo.hh:549 | Debye temperatures are reported only when atom info is present (first entry consulted) |
| `MaterialInfo.Info.HklBegin` | ncrystal_core/include/NCrystal/NCInfo.hh:371 | begin equals end exactly when the reflection list is empty |
| `MaterialInfo.Info.HklLast` | ncrystal_core/include/NCrystal/NCInfo.hh:559-562 | last is end exactly for an empty list, and otherwise the position just before end |
| `MaterialInfo.Info.HklDMinVal` | ncrystal_core/include/NCrystal/NCInfo.hh:378-380 | infinite exactly for an empty list; otherwise a d-spacing of the list that no entry undercuts |
| `MaterialInfo.Info.HklDMaxVal` | ncrystal_core/include/NCrystal/NCInfo.hh:378-380 | infinite exactly for an empty list; otherwise a d-spacing of the list that no entry exceeds |
| `MaterialInfo.Info.HasHKLDemiNormals` | ncrystal_core/include/NCrystal/NCInfo.hh:556 | demi-normals are reported only with HKL info present and a non-empty list |
| `MaterialInfo.Info.HasExpandedHKLInfo` | ncrystal_core/include/NCrystal/NCInfo.hh:555 | expanded indices are reported only with HKL info present and a non-empty list |
| `MaterialInfo.Info.SearchExpandedHKL` | ncrystal_core/include/NCrystal/NCInfo.hh:392-393 | returns the first reflection whose expanded indices contain (h,k,l), and end exactly when none does |
| `MaterialInfo.Info.DisplayLabel` | ncrystal_core/include/NCrystal/NCInfo.hh:422-428 | needs an index below the label table size; once locked, the index is also a valid table index and no other index has the same label, so two roles of one atom are told apart |
| `MaterialInfo.Info.AtomDataAt` | ncrystal_core/include/NCrystal/NCInfo.hh:597-607 | needs an index below the table size; once locked, the record is that of the composition entry carrying this index |
| `MaterialInfo.Info.IndexedAtom` | ncrystal_core/include/NCrystal/NCInfo.hh:609-613 | the returned record carries index `ai`; once locked, it is exactly a composition entry's indexed atom record |
| `MaterialInfo.Info.IndexTableCoversWhenLocked` | ncrystal_core/include/NCrystal/NCInfo.hh:609-613 | in a locked description every table slot is backed by the composition entry with that index |
| `MaterialInfo.Info.CountCustomSections` | ncrystal_core/include/NCrystal/NCInfo.hh:456 | at most the number of sections, and zero exactly when no section has that name |
| `MaterialInfo.Info.GetCustomSection` | ncrystal_core/include/NCrystal/NCInfo.hh:457-458 | present exactly when the index is below the count for that name, and then the body of the section with that name preceded by exactly `index` sections of that name |
| `MaterialInfo.Info.AddAtom` | ncrystal_core/include/NCrystal/NCInfo.hh:472 | appends one role and changes nothing else; atom info becomes present; MSD and Debye flags are those of the first role ever added |
| `MaterialInfo.Info.EnableHKLInfo` | ncrystal_core/include/NCrystal/NCInfo.hh:473 | HKL info becomes present with the given d-range bounds; nothing else changes |
| `MaterialInfo.Info.AddHKL` | ncrystal_core/include/NCrystal/NCInfo.hh:474 | requires the documented demi-normal layout of the reflection; appends it, which `hklLast` then designates; HKL presence is unchanged; demi-normal and expanded flags stay as the first entry set them |
| `MaterialInfo.Info.SetHKLList` | ncrystal_core/include/NCrystal/NCInfo.hh:475 | requires every reflection to follow the documented demi-normal layout; replaces the list; `nHKL` is its length; HKL presence is unchanged |
| `MaterialInfo.Info.SetStructInfo` | ncrystal_core/include/NCrystal/NCInfo.hh:476 | allowed only once; afterwards structure info is present, equal to the argument, and the material is crystalline |
| `MaterialInfo.Info.SetXSectFree` | ncrystal_core/include/NCrystal/NCInfo.hh:477 | the free cross-section becomes present and equal to the argument; nothing else changes |
| `MaterialInfo.Info.SetXSectAbsorption` | ncrystal_core/include/NCrystal/NCInfo.hh:478 | the absorption cross-section becomes present and equal to the argument; nothing else changes |
| `MaterialInfo.Info.SetTemperature` | ncrystal_core/include/NCrystal/NCInfo.hh:479 | the temperature becomes present and equal to the argument; nothing else changes |
| `MaterialInfo.Info.SetDensity` | ncrystal_core/include/NCrystal/NCInfo.hh:480 | the density becomes present and equal to the argument; nothing else changes |
| `MaterialInfo.Info.SetNumberDensity` | ncrystal_core/include/NCrystal/NCInfo.hh:481 | the number density becomes present and equal to the argument; nothing else changes |
| `MaterialInfo.Info.SetXSectProvider` | ncrystal_core/include/NCrystal/NCInfo.hh:482 | non-Bragg cross-sections become available and evaluate the given function; nothing else changes |
| `MaterialInfo.Info.AddDynInfo` | ncrystal_core/include/NCrystal/NCInfo.hh:483 | appends one entry and changes nothing else; dynamic info becomes present |
| `MaterialInfo.Info.SetComposition` | ncrystal_core/include/NCrystal/NCInfo.hh:484 | replaces the composition; composition is present exactly when the argument is non-empty |
| `MaterialInfo.Info.SetCustomData` | ncrystal_core/include/NCrystal/NCInfo.hh:485 | replaces the custom sections, and the section counts are those of the argument |
| `Reflections.SortReflections` | ncrystal_core/include/NCrystal/NCInfo.hh:487 | reflections ordered by d-spacing and then (h,k,l), a permutation of the input; a list whose entries all have the documented layout keeps it |
| `Atoms.SortAtomRoles` | ncrystal_core/include/NCrystal/NCInfo.hh:487 | atom roles ordered by Z, a permutation of the input, with the same number of atoms per unit cell; for a homogeneous list the first entry still reports whether MSD and Debye temperatures are present |
| `MaterialInfo.Info.ObjectDone` | ncrystal_core/include/NCrystal/NCInfo.hh:487 | locks the object; reflections become ordered by d-spacing and then (h,k,l), atom roles by Z, each a permutation of the old list; the number of atoms per unit cell is unchanged; the index table is built and the given distinct labels installed; nothing else changes; for homogeneous atom lists the MSD and Debye flags survive the sort; the locked state keeps the documented rules (non-crystalline means dynamic info, no HKL info means an empty list, one shared temperature) |
| `Atoms.AtomsPerUnitCell` | ncrystal_core/include/NCrystal/NCInfo.hh:120-127 | the number of atoms per unit cell over a list of roles is at least the number of roles, and zero only for no roles |
| `Atoms.PermutationKeepsAtomsPerUnitCell` | ncrystal_core/include/NCrystal/NCInfo.hh:487 | reordering the roles, as the sort at lock time does, keeps the number of atoms per unit cell |
| `Reflections.HasEqvIsDemiNormal` | ncrystal_core/include/NCrystal/NCInfo.hh:62-77 | for a reflection in the documented layout, (h,k,l) is among its expanded indices exactly when one of its demi-normals carries that triple |
| `Reflections.PermutationKeepsLayout` | ncrystal_core/include/NCrystal/NCInfo.hh:62-77 | reordering a list of reflections in the documented layout keeps every entry in that layout |
| `MaterialInfo.Info.SearchFindsDemiNormal` | ncrystal_core/include/NCrystal/NCInfo.hh:392-393 | a reflection found by the search carries (h,k,l) on one of its demi-normals, and its multiplicity is twice its number of demi-normals |
| `MaterialInfo.NthNamed` | ncrystal_core/include/NCrystal/NCInfo.hh:457-458 | the `index`-th section of that name: present exactly when there are more than `index` of them, and then preceded by exactly `index` sections of that name |
| `MaterialInfo.Info.IsLocked` | ncrystal_core/include/NCrystal/NCInfo.hh:488 | true exactly after `ObjectDone`, which no setter can undo |
| `MaterialInfo.Info.IsCrystalline` | ncrystal_core/include/NCrystal/NCInfo.hh:285-288 | crystalline exactly when structure, atom or reflection information is present; a locked description that is not crystalline has dynamic information |
| `MaterialInfo.Info.HasStructureInfo` | ncrystal_core/include/NCrystal/NCInfo.hh:537 | structure information is present exactly when it was set |
| `MaterialInfo.Info.GetStructureInfo` | ncrystal_core/include/NCrystal/NCInfo.hh:538 | demands presence and returns the stored structure; `SetStructInfo` is its inverse |
| `MaterialInfo.Info.HasXSectAbsorption` | ncrystal_core/include/NCrystal/NCInfo.hh:539 | the absorption cross-section is present exactly when it was set |
| `MaterialInfo.Info.HasXSectFree` | ncrystal_core/include/NCrystal/NCInfo.hh:540 | the free cross-section is present exactly when it was set |
| `MaterialInfo.Info.GetXSectAbsorption` | ncrystal_core/include/NCrystal/NCInfo.hh:541 | demands presence and returns the stored value; `SetXSectAbsorption` is its inverse |
| `MaterialInfo.Info.GetXSectFree` | ncrystal_core/include/NCrystal/NCInfo.hh:542 | demands presence and returns the stored value; `SetXSectFree` is its inverse |
| `MaterialInfo.Info.ProvidesNonBraggXSects` | ncrystal_core/include/NCrystal/NCInfo.hh:543 | non-Bragg cross-sections are available exactly when a provider was set |
| `MaterialInfo.Info.XSectScatNonBragg` | ncrystal_core/include/NCrystal/NCInfo.hh:544 | demands a provider and returns its value at the given energy |
| `MaterialInfo.Info.HasTemperature` | ncrystal_core/include/NCrystal/NCInfo.hh:545 | the temperature is present exactly when it was set |
| `MaterialInfo.Info.GetTemperature` | ncrystal_core/include/NCrystal/NCInfo.hh:547 | demands presence and returns the stored value; `SetTemperature` is its inverse |
| `MaterialInfo.Info.HasAtomInfo` | ncrystal_core/include/NCrystal/NCInfo.hh:550 | atom information is present exactly when at least one role was added |
| `MaterialInfo.Info.HasHKLInfo` | ncrystal_core/include/NCrystal/NCInfo.hh:363-370 | reflection information is present exactly when its d-range was given; in a locked description without it the list reads as empty (`nHKL` is 0 and begin, last and end coincide) |
| `MaterialInfo.Info.NHKL` | ncrystal_core/include/NCrystal/NCInfo.hh:557 | the number of reflections in the list |
| `MaterialInfo.Info.HklEnd` | ncrystal_core/include/NCrystal/NCInfo.hh:563 | the end position is the number of reflections |
| `MaterialInfo.Info.HklDLower` | ncrystal_core/include/NCrystal/NCInfo.hh:564 | demands reflection information and returns the lower end of its d-range; `EnableHKLInfo` is its inverse |
| `MaterialInfo.Info.HklDUpper` | ncrystal_core/include/NCrystal/NCInfo.hh:565 | demands reflection information and returns the upper end of its d-range; `EnableHKLInfo` is its inverse |
| `MaterialInfo.Info.HasDensity` | ncrystal_core/include/NCrystal/NCInfo.hh:566 | the density is present exactly when it was set |
| `MaterialInfo.Info.GetDensity` | ncrystal_core/include/NCrystal/NCInfo.hh:567 | demands presence and returns the stored value; `SetDensity` is its inverse |
| `MaterialInfo.Info.HasNumberDensity` | ncrystal_core/include/NCrystal/NCInfo.hh:568 | the number density is present exactly when it was set |
| `MaterialInfo.Info.GetNumberDensity` | ncrystal_core/include/NCrystal/NCInfo.hh:569 | demands presence and returns the stored value; `SetNumberDensity` is its inverse |
| `MaterialInfo.Info.HasDynamicInfo` | ncrystal_core/include/NCrystal/NCInfo.hh:570 | dynamic information is present exactly when at least one entry was added |
| `MaterialInfo.Info.HasComposition` | ncrystal_core/include/NCrystal/NCInfo.hh:574 | the composition is present exactly when it is non-empty |
| `MaterialInfo.Info.LockedDynamicTemperature` | ncrystal_core/include/NCrystal/NCInfo.hh:160 | in a locked description every dynamic-information entry has the temperature of the material |
| `MaterialInfo.Info.DebyeEntryTemperature` | ncrystal_core/include/NCrystal/NCInfo.hh:576-578 | the Debye temperature of every Debye-model entry of a description, locked or not, can be read and is positive |
| `MaterialInfo.Info.LockedLookups` | ncrystal_core/include/NCrystal/NCInfo.hh:609-613 | in a locked description, looking up any composition entry's index returns that entry's indexed atom record |
| `MaterialInfo.LockedHKLBounds` | ncrystal_core/include/NCrystal/NCInfo.hh:378-380 | in a locked description the smallest d-spacing is the first entry's and the largest the last entry's |

## Left out

- `NCLatticeUtils.hh` (lattice rotation matrices, HKL-range and d-cutoff estimates, spacegroup completion) is not part of this model. It is floating-point linear algebra defined outside `NCInfo.hh`. `Info::dspacingFromHKL`, which relies on it, is left out for the same reason.
- The lazily built scattering kernel of `DI_ScatKnlDirect` (`ensureBuildThenReturnSAB`, `hasBuiltSAB`, `buildSAB`, the per-object mutex) is left out. It is about concurrency, and it is declared in `NCInfo.hh` without an inline definition. So are `DI_ScatKnl::energyGrid` and the `DI_VDOS` data accessors, whose data types are foreign.
- The non-Bragg cross-section provider is an opaque `real -> real` function. The model only records whether one was set and applies it.
- The cross-links `AtomInfo::correspondingDynamicInfo` and `DynamicInfo::correspondingAtomInfo` are left out. `objectDone` sets them, and it is declared in `NCInfo.hh` without an inline definition.
- MaterialInfo.Info.ObjectDone: `objectDone` is declared in `NCInfo.hh` without an inline definition. The header says only that reflections are sorted "by dspacing first" and atom roles "by Z first". Sorting both lists in ascending order, and ordering reflections with equal d-spacing by (h,k,l), are the model's choices among the orders the header leaves open; `MaterialInfo.LockedHKLBounds` relies on the ascending direction. Atom roles are ordered by atomic number alone. The contract states that order and that each list is a permutation of the old one. It does not fix the relative order of atom roles with equal Z, or of reflections with equal d-spacing and Miller indices, because no further sort key is documented.
- MaterialInfo.Info.ObjectDone: the model builds the index table from the composition and requires the composition's indices to be dense and distinct (`DenseIndices`). The source's table-building code is declared without an inline definition, so its own checks are not known.
- MaterialInfo.Info.ObjectDone: the header states three rules of a finished description: a non-crystalline material has dynamic information (lines 286-288); without HKL information the reflection list reads as empty (lines 365-367); every dynamic-information entry has the material's temperature (line 160). The model requires them of the caller of `ObjectDone` and keeps them in `Valid()`; whether the source checks them is not known.
- MaterialInfo.Info.ObjectDone: the scheme that turns atom names into display labels ("Al-a", "Al-b" for two roles of one atom) is computed by code declared without an inline definition. The model takes the labels as an argument. It requires one label per atom index and no two alike, which is the documented point of the scheme, and installs them as given.
- MaterialInfo.Info.DisplayLabel: states only that labels tell indices apart; the text of a label is not modelled, for the reason given for `ObjectDone`.
- Atoms.BuildAtomIndexTable: builds only the atom-record table; the display labels are not derived from the records, for the reason given for `ObjectDone`.
- `enableHKLInfo` is declared without an inline definition. The model stores the pair (dlower, dupper) without checking it.
- `getCustomSection` for a section that does not exist returns `None`. The source declares it without an inline definition, so its reaction to a missing section is not known.
- The obsolete Debye-temperature functions that always throw, the aliases `hasAtomPositions`, `hasDebyeTemperature` and `hasAnyDebyeTemperature`, `getUniqueID`, the internals of `AtomData`, the unit wrapper types, and move-only or shared-pointer ownership are left out. `isCrystalline` uses `HasAtomInfo` in place of its alias `hasAtomPositions`.
- Plain accessors that return a whole field are the field itself: `getAtomInfos`, `atomInfoBegin`/`atomInfoEnd`, `hklList`, `getDynamicInfoList`, `getComposition`, `getAllCustomSections`, `fraction`, `temperature`, and the `AtomInfo` getters.
- Machine integer widths are not modelled. `nHKL` and `numberPerUnitCell` return `unsigned` values that are taken as unbounded naturals; Miller indices are unbounded integers. The packed expanded indices are kept within the 16-bit range by a subset type.
- The model requires every reflection handed to `AddHKL` or `SetHKLList` to follow the documented demi-normal layout, and keeps that layout as part of the object invariant. It does not require the composition to agree with the atom and dynamic-info lists. The header describes the composition as "always consistent" with them, but it is not known whether `objectDone` checks this, and the model states nothing about it.
