/** Real numbers extended with +infinity, for the yield strain of a point that
    never yields. */
module Extended {
  datatype ExtReal = Finite(value: real) | PosInf
}

/** The linear elastic point law of ElastoPlasticQPot3d (class Elastic): bulk
    modulus kappa and shear modulus mu, fixed at construction, and pure
    functions of a symmetric strain tensor. Its plasticity diagnostics are
    constant: no plastic strain, yield interval 0, infinite yield strains. */
module ElastoPlasticQPot3d {
  import opened Tensor
  import opened Extended

  /** A symmetric second-order tensor (T2s). */
  type T2s = T: Tensor2 | T.Symmetric() witness Zero()

  datatype Elastic = Elastic(K: real, G: real)
  {
    /** The bulk modulus given to the constructor. */
    function Kappa(): real
    {
      K
    }

    /** The shear modulus given to the constructor. */
    function Mu(): real
    {
      G
    }

    /** Square of the equivalent deviatoric strain, 0.5 * dev(Eps) : dev(Eps),
        with the full double contraction of symmetric tensors. */
    function EpsdSquared(Eps: T2s): real
    {
      var D := Deviatoric(Eps);
      0.5 * Ddot(D, D)
    }

    /** Equivalent plastic strain of a strain tensor. */
    function Epsp(Eps: T2s): real
    {
      0.0
    }

    /** Equivalent plastic strain of an equivalent strain. */
    function EpspOf(epsd: real): real
    {
      0.0
    }

    /** Yield strain i. */
    function Epsy(i: nat): ExtReal
    {
      PosInf
    }

    /** Index of the potential a strain tensor lies in. */
    function Find(Eps: T2s): nat
    {
      0
    }

    /** Index of the potential an equivalent strain lies in. */
    function FindOf(epsd: real): nat
    {
      0
    }

    /** Stress: 3 kappa epsm I + 2 mu dev(Eps), with epsm = tr(Eps) / 3. */
    function Sig(Eps: T2s): (S: T2s)
    {
      var epsm := Trace(Eps) / 3.0;
      var Epsd := Add(Eps, Isotropic(-epsm));
      Add(Isotropic(Mul(3.0 * K, epsm)), Scale(2.0 * G, Epsd))
    }

    /** Energy: 9/2 kappa epsm^2 + 2 mu epsd^2. */
    function Energy(Eps: T2s): real
    {
      var epsm := Trace(Eps) / 3.0;
      Mul(9.0 / 2.0 * K, Mul(epsm, epsm)) + Mul(2.0 * G, EpsdSquared(Eps))
    }
  }

  /** kappa() and mu() return the constructor's moduli unchanged. */
  lemma ModuliRoundTrip(K: real, G: real)
    ensures Elastic(K, G).Kappa() == K && Elastic(K, G).Mu() == G
  {
  }

  /** The plasticity diagnostics do not depend on their argument: no plastic
      strain, potential 0, every yield strain infinite; the scalar and the
      tensor overloads agree through the equivalent strain. */
  lemma NoPlasticity(m: Elastic, Eps: T2s, epsd: real, i: nat)
    ensures m.Epsp(Eps) == 0.0 && m.EpspOf(epsd) == 0.0
    ensures m.Find(Eps) == 0 && m.FindOf(epsd) == 0
    ensures m.Epsy(i) == PosInf
    ensures m.Find(Eps) == m.FindOf(epsd) && m.Epsp(Eps) == m.EpspOf(epsd)
  {
  }

  /** The stress splits into a hydrostatic part 3 kappa hyd(Eps) and a
      deviatoric part 2 mu dev(Eps). */
  lemma {:induction false} StressSplit(m: Elastic, Eps: T2s)
    ensures Hydrostatic(m.Sig(Eps)) == Mul(3.0 * m.K, Hydrostatic(Eps))
    ensures Deviatoric(m.Sig(Eps)) == Scale(2.0 * m.G, Deviatoric(Eps))
  {
    var D := Deviatoric(Eps);
    SigIsSplit(m, Eps);
    DeviatoricSplit(Eps);
    ScaleTrace(2.0 * m.G, D);
  }

  /** The stress written through the strain's split: 3 kappa hyd(Eps) I + 2 mu dev(Eps). */
  lemma SigIsSplit(m: Elastic, E: T2s)
    ensures m.Sig(E) == Add(Isotropic(Mul(3.0 * m.K, Hydrostatic(E))), Scale(2.0 * m.G, Deviatoric(E)))
  {
  }

  /** The stress is linear in the strain. */
  lemma {:induction false} StressLinear(m: Elastic, a: real, E1: T2s, b: real, E2: T2s)
    ensures m.Sig(Add(Scale(a, E1), Scale(b, E2))) == Add(Scale(a, m.Sig(E1)), Scale(b, m.Sig(E2)))
  {
    var E: T2s := Add(Scale(a, E1), Scale(b, E2));
    var k, g := 3.0 * m.K, 2.0 * m.G;
    var h1, h2 := Hydrostatic(E1), Hydrostatic(E2);
    var D1, D2 := Deviatoric(E1), Deviatoric(E2);
    SigIsSplit(m, E);
    SigIsSplit(m, E1);
    SigIsSplit(m, E2);
    HydrostaticLinear(a, E1, b, E2);
    DeviatoricLinear(a, E1, b, E2);
    DiagonalCombination(k, g, a, h1, D1.xx, b, h2, D2.xx);
    DiagonalCombination(k, g, a, h1, D1.yy, b, h2, D2.yy);
    DiagonalCombination(k, g, a, h1, D1.zz, b, h2, D2.zz);
    OffDiagonalCombination(g, a, D1.xy, b, D2.xy);
    OffDiagonalCombination(g, a, D1.xz, b, D2.xz);
    OffDiagonalCombination(g, a, D1.yz, b, D2.yz);
    OffDiagonalCombination(g, a, D1.yx, b, D2.yx);
    OffDiagonalCombination(g, a, D1.zx, b, D2.zx);
    OffDiagonalCombination(g, a, D1.zy, b, D2.zy);
  }

  /** A diagonal component k h + g d of the stress, taken of a combination. */
  lemma DiagonalCombination(k: real, g: real, a: real, h1: real, d1: real, b: real, h2: real, d2: real)
    ensures Mul(k, Mul(a, h1) + Mul(b, h2)) + Mul(g, Mul(a, d1) + Mul(b, d2))
         == Mul(a, Mul(k, h1) + Mul(g, d1)) + Mul(b, Mul(k, h2) + Mul(g, d2))
  {
  }

  /** An off-diagonal component g d of the stress, taken of a combination. */
  lemma OffDiagonalCombination(g: real, a: real, d1: real, b: real, d2: real)
    ensures 0.0 + Mul(g, Mul(a, d1) + Mul(b, d2)) == Mul(a, 0.0 + Mul(g, d1)) + Mul(b, 0.0 + Mul(g, d2))
  {
  }

  /** With non-negative moduli the energy is never negative. */
  lemma {:induction false} EnergyNonnegative(m: Elastic, Eps: T2s)
    requires m.K >= 0.0 && m.G >= 0.0
    ensures m.Energy(Eps) >= 0.0
  {
    var epsm := Trace(Eps) / 3.0;
    var D := Deviatoric(Eps);
    DeviatoricSplit(Eps);
    A2DdotB2IsContractionForSymmetric(D, D);
    SelfContractionNonnegative(D);
    SquareNonnegative(epsm);
    MulNonnegative(9.0 / 2.0 * m.K, Mul(epsm, epsm));
    MulNonnegative(2.0 * m.G, m.EpsdSquared(Eps));
  }

  /** The energy is half the work of the stress on the strain:
      Sig(Eps) : Eps == 2 energy(Eps). */
  lemma {:induction false} WorkIsTwiceEnergy(m: Elastic, Eps: T2s)
    ensures Ddot(m.Sig(Eps), Eps) == 2.0 * m.Energy(Eps)
  {
    var h := Hydrostatic(Eps);
    var D := Deviatoric(Eps);
    var k, g := 3.0 * m.K, 2.0 * m.G;
    SigIsSplit(m, Eps);
    DdotAddLeft(Isotropic(Mul(k, h)), Scale(g, D), Eps);
    DdotIsotropicLeft(Mul(k, h), Eps);
    DdotScaleLeft(g, D, Eps);
    DeviatoricWork(Eps);
    EnergyTerms(m.K, m.G, h, Trace(Eps), Ddot(D, D));
  }

  /** The scalar identity behind WorkIsTwiceEnergy, with t = tr(Eps) = 3 h
      and q = dev(Eps) : dev(Eps). */
  lemma EnergyTerms(K: real, G: real, h: real, t: real, q: real)
    requires t == 3.0 * h
    ensures Mul(Mul(3.0 * K, h), t) + Mul(2.0 * G, q)
         == 2.0 * (Mul(9.0 / 2.0 * K, Mul(h, h)) + Mul(2.0 * G, 0.5 * q))
  {
  }

  /** dev(E) : E == dev(E) : dev(E), since dev(E) is trace free. */
  lemma {:induction false} DeviatoricWork(E: Tensor2)
    ensures Ddot(Deviatoric(E), E) == Ddot(Deviatoric(E), Deviatoric(E))
  {
    var D := Deviatoric(E);
    var h := Hydrostatic(E);
    DeviatoricSplit(E);
    DdotCommutes(D, E);
    DdotAddLeft(D, Isotropic(h), D);
    DdotIsotropicLeft(h, D);
  }

  /** On the test suite's strain (volumetric epsm, shear gamma) the stress
      has 3 kappa epsm on the diagonal, 2 mu gamma in the (0,1) and (1,0)
      components and nothing elsewhere. */
  lemma {:induction false} SimpleShearStress(m: Elastic, epsm: real, gamma: real)
    ensures m.Sig(SimpleShear(epsm, gamma)) == Tensor2(
      Mul(3.0 * m.K, epsm), Mul(2.0 * m.G, gamma), 0.0,
      Mul(2.0 * m.G, gamma), Mul(3.0 * m.K, epsm), 0.0,
      0.0, 0.0, Mul(3.0 * m.K, epsm))
    ensures m.Epsp(SimpleShear(epsm, gamma)) == 0.0 && m.Find(SimpleShear(epsm, gamma)) == 0
  {
    var E := SimpleShear(epsm, gamma);
    assert Trace(E) / 3.0 == epsm;
  }
}
