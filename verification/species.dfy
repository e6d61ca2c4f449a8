/**
 Per-species constant tables of the ecosystem simulation.

 The herbivore and the carnivore share their common rules and differ in their
 constants (and in one feeding operation each, modelled elsewhere), so both
 are described by one `Params` record instantiated twice.
 Floating-point constants become exact `real`s; the source's unsigned integer
 widths (`u8`, `u16`) are kept as bounds.
 */
module Species {

  /** Values of the source's `u16` type. */
  type U16 = x: int | 0 <= x < 0x1_0000

  const U16Max: U16 := 0xFFFF

  /** One species' constant table. */
  datatype Params = Params(
    wBirth: real,        // mean birth weight
    mu: real,
    sigmaBirth: real,    // standard deviation of the birth weight
    beta: real,
    eta: real,           // yearly fraction of weight lost
    aHalf: real,         // age at which the age factor of fitness is one half
    phiAge: real,
    wHalf: real,         // weight at which the weight factor of fitness is one half
    phiWeight: real,
    gamma: real,
    zeta: real,
    xi: real,            // weight the mother loses per unit of birth weight
    omega: real,
    f: U16,              // intake capacity of one feeding
    deltaPhiMax: nat,    // fitness difference above which a kill is certain (a u8)
    stride: nat          // movement allowance (a u8)
  )

  /** The shape every constant table of the simulation has. */
  predicate Valid(p: Params)
  {
    && 0.0 < p.wBirth && 0.0 < p.sigmaBirth
    && 0.0 < p.eta < 1.0
    && 0.0 < p.phiAge && 0.0 < p.phiWeight
    && 0.0 < p.xi
    && 0 < p.f
    && 0 < p.deltaPhiMax < 0x100
    && p.stride < 0x100
  }

  /** Weight a parent needs before it may procreate: zeta * (w_birth + sigma_birth). */
  function Procreate(p: Params): (r: real)
    requires Valid(p) && 0.0 < p.zeta
    ensures r > p.zeta * p.wBirth
  {
    p.zeta * (p.wBirth + p.sigmaBirth)
  }

  const HerbivoreParams := Params(
    wBirth := 10.0, mu := 17.0, sigmaBirth := 4.0, beta := 0.05, eta := 0.2,
    aHalf := 2.5, phiAge := 5.0, wHalf := 3.0, phiWeight := 0.09,
    gamma := 0.9, zeta := 0.22, xi := 0.42, omega := 0.4,
    f := 20, deltaPhiMax := 10, stride := 1)

  const CarnivoreParams := Params(
    wBirth := 6.0, mu := 0.4, sigmaBirth := 1.0, beta := 0.6, eta := 0.125,
    aHalf := 40.0, phiAge := 0.45, wHalf := 4.0, phiWeight := 0.28,
    gamma := 0.8, zeta := 3.5, xi := 1.1, omega := 0.3,
    f := 70, deltaPhiMax := 10, stride := 3)

  /** The herbivore table has the shape the rest of the model relies on. */
  lemma HerbivoreTableValid()
    ensures Valid(HerbivoreParams)
    ensures Procreate(HerbivoreParams) == 3.08
  {
  }

  /** The carnivore table has the shape the rest of the model relies on. */
  lemma CarnivoreTableValid()
    ensures Valid(CarnivoreParams)
    ensures Procreate(CarnivoreParams) == 24.5
  {
  }

  /**
   The source's `w as u16` on a weight: rounds toward zero and saturates at
   both ends of the `u16` range (NaN does not arise for `real`).
   */
  function TruncU16(w: real): (r: U16)
    ensures w < 1.0 ==> r == 0
    ensures 0.0 <= w < U16Max as real ==> r as real <= w < r as real + 1.0
    ensures U16Max as real <= w ==> r == U16Max
    ensures r as real <= w || w < 0.0
  {
    if w < 0.0 then 0
    else if w >= U16Max as real then U16Max
    else w.Floor
  }
}
