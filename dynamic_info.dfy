/** Dynamic information: how one atom role of a material moves, which
    decides how its inelastic scattering is modelled. */
module Dynamics {
  import opened Atoms

  /** A strictly positive real, such as a Debye temperature. */
  type PositiveReal = r: real | r > 0.0 witness 1.0

  /** The variants of dynamic information. Only the Debye-model variant
      carries data of its own here: its Debye temperature (kelvin), which
      construction insists is positive. */
  datatype DynKind =
    | Sterile          // inelastic scattering absent or disabled
    | FreeGas          // scattering on a free gas
    | ScatKnlDirect    // a precomputed scattering kernel
    | VDOS             // a vibrational density of states
    | VDOSDebye(debyeTemperature: PositiveReal)  // an idealised Debye-model VDOS

  /** Dynamic information of one atom role: its abundance, which the owner
      may change after construction, its indexed atom record, the material
      temperature (kelvin) and its variant. */
  class DynamicInfo {
    var fraction: real
    const atom: IndexedAtomData
    const temperature: real
    const kind: DynKind

    /** Construction of every variant that carries no data of its own. */
    constructor (fraction: real, atom: IndexedAtomData, temperature: real, kind: DynKind)
      requires !kind.VDOSDebye?
      ensures this.fraction == fraction && this.atom == atom
      ensures this.temperature == temperature && this.kind == kind
    {
      this.fraction := fraction;
      this.atom := atom;
      this.temperature := temperature;
      this.kind := kind;
    }

    /** Construction of the Debye-model variant, which insists on a positive
        Debye temperature. */
    constructor VDOSDebye(fraction: real, atom: IndexedAtomData, temperature: real, debyeTemperature: real)
      requires debyeTemperature > 0.0
      ensures this.fraction == fraction && this.atom == atom && this.temperature == temperature
      ensures kind == DynKind.VDOSDebye(debyeTemperature)
    {
      this.fraction := fraction;
      this.atom := atom;
      this.temperature := temperature;
      this.kind := DynKind.VDOSDebye(debyeTemperature);
    }

    /** `changeFraction`: replaces the abundance and nothing else. */
    method ChangeFraction(f: real)
      modifies this
      ensures fraction == f
    {
      fraction := f;
    }

    /** The Debye temperature of a Debye-model variant, always positive. */
    function DebyeTemperature(): (dt: real)
      requires kind.VDOSDebye?
      ensures dt > 0.0 && kind == DynKind.VDOSDebye(dt)
    {
      kind.debyeTemperature
    }
  }
}
