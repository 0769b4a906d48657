/** The material points of GMatElastoPlasticQPot3d::Cartesian3d: the linear
    elastic point and the two elasto-plastic points, Cusp and Smooth. Each
    point holds its parameters and its current strain, which set_strain
    replaces and from which every query is computed.

    How a Cusp or Smooth point finds its current potential, its plastic
    strain, its stress and its energy is not part of this model: those four
    maps are a Potential, a parameter of every query. What the header states
    about them is modelled: the yield strains around the current potential
    are epsy[index] and epsy[index + 1]. */
module PointLaws {
  import opened Tensor
  import opened Extended
  import Old = ElastoPlasticQPot3d

  /** Material identifier of a point. */
  datatype Type = Unset | Elastic | Cusp | Smooth

  /** A linear elastic point: bulk modulus K, shear modulus G, current strain. */
  datatype ElasticPoint = ElasticPoint(K: real, G: real, Eps: Tensor2)
  {
    /** The point after set_strain(E): same moduli, strain E. */
    function SetStrain(E: Tensor2): (p: ElasticPoint)
      ensures p.K == K && p.G == G && p.Eps == E
    {
      ElasticPoint(K, G, E)
    }

    /** Stress 3 K hyd(Eps) I + 2 G dev(Eps). */
    function Stress(): (S: Tensor2)
      ensures Hydrostatic(S) == Mul(3.0 * K, Hydrostatic(Eps))
      ensures Deviatoric(S) == Scale(2.0 * G, Deviatoric(Eps))
    {
      var S := Add(Isotropic(Mul(3.0 * K, Hydrostatic(Eps))), Scale(2.0 * G, Deviatoric(Eps)));
      IsotropicPlusDeviator(Mul(3.0 * K, Hydrostatic(Eps)), 2.0 * G, Eps);
      S
    }

    /** Energy 9/2 K hyd(Eps)^2 + 2 G epsd(Eps)^2, never negative for
        non-negative moduli. */
    function Energy(): (U: real)
      ensures K >= 0.0 && G >= 0.0 ==> U >= 0.0
    {
      var h := Hydrostatic(Eps);
      SquareNonnegative(h);
      WeightedSumNonnegative(9.0 / 2.0 * K, Mul(h, h), 2.0 * G, EpsdSquared(Eps));
      Mul(9.0 / 2.0 * K, Mul(h, h)) + Mul(2.0 * G, EpsdSquared(Eps))
    }
  }

  /** k x + g y is never negative for non-negative weights and terms. */
  lemma WeightedSumNonnegative(k: real, x: real, g: real, y: real)
    requires x >= 0.0 && y >= 0.0
    ensures k >= 0.0 && g >= 0.0 ==> Mul(k, x) + Mul(g, y) >= 0.0
  {
    if k >= 0.0 && g >= 0.0 {
      MulNonnegative(k, x);
      MulNonnegative(g, y);
    }
  }

  /** The hydrostatic and deviatoric parts of k I + g dev(E). */
  lemma {:induction false} IsotropicPlusDeviator(k: real, g: real, E: Tensor2)
    ensures Hydrostatic(Add(Isotropic(k), Scale(g, Deviatoric(E)))) == k
    ensures Deviatoric(Add(Isotropic(k), Scale(g, Deviatoric(E)))) == Scale(g, Deviatoric(E))
  {
    var D := Deviatoric(E);
    DeviatoricSplit(E);
    ScaleTrace(g, D);
  }

  /** On a symmetric strain the elastic point computes what the older
      ElastoPlasticQPot3d::Elastic computes with kappa = K and mu = G. */
  lemma {:induction false} ElasticPointAgreesWithElastic(K: real, G: real, Eps: Old.T2s)
    ensures ElasticPoint(K, G, Eps).Stress() == Old.Elastic(K, G).Sig(Eps)
    ensures ElasticPoint(K, G, Eps).Energy() == Old.Elastic(K, G).Energy(Eps)
  {
    var D := Deviatoric(Eps);
    Old.SigIsSplit(Old.Elastic(K, G), Eps);
    DeviatoricSplit(Eps);
    A2DdotB2IsContractionForSymmetric(D, D);
  }

  /** The elastic point on the test suite's strain: 3 K epsm on the
      diagonal, 2 G gamma in the (0,1) and (1,0) components, 0 elsewhere. */
  lemma {:induction false} ElasticPointShearTest(K: real, G: real, epsm: real, gamma: real)
    ensures ElasticPoint(K, G, SimpleShear(epsm, gamma)).Stress() == Tensor2(
      Mul(3.0 * K, epsm), Mul(2.0 * G, gamma), 0.0,
      Mul(2.0 * G, gamma), Mul(3.0 * K, epsm), 0.0,
      0.0, 0.0, Mul(3.0 * K, epsm))
  {
    var E: Old.T2s := SimpleShear(epsm, gamma);
    ElasticPointAgreesWithElastic(K, G, E);
    Old.SimpleShearStress(Old.Elastic(K, G), epsm, gamma);
  }

  /** Parameters of a Cusp or Smooth point: moduli, yield strains, and
      whether the point starts in the elastic potential. */
  datatype YieldParams = YieldParams(K: real, G: real, epsy: seq<real>, initElastic: bool)

  /** What a Cusp or Smooth point computes, none of it visible in the
      header: the yield strains it keeps and reports from (epsy(), built by
      its constructor from the given yield strains and init_elastic), and,
      from its parameters and strain, the index of its current potential,
      its plastic strain, its stress and its energy. */
  datatype Potential = Potential(
    epsy: YieldParams -> seq<real>,
    index: (YieldParams, Tensor2) -> nat,
    epsp: (YieldParams, Tensor2) -> real,
    stress: (YieldParams, Tensor2) -> Tensor2,
    energy: (YieldParams, Tensor2) -> real)

  /** A Cusp or Smooth point: its parameters and its current strain. */
  datatype YieldPoint = YieldPoint(params: YieldParams, Eps: Tensor2)
  {
    function K(): real
    {
      params.K
    }

    function G(): real
    {
      params.G
    }

    /** epsy(): the yield strains the point keeps. */
    function Epsy(law: Potential): seq<real>
    {
      law.epsy(params)
    }

    /** The point after set_strain(E): same parameters, strain E. */
    function SetStrain(E: Tensor2): (p: YieldPoint)
      ensures p.params == params && p.Eps == E
    {
      YieldPoint(params, E)
    }

    function Index(law: Potential): nat
    {
      law.index(params, Eps)
    }

    function Epsp(law: Potential): real
    {
      law.epsp(params, Eps)
    }

    function Stress(law: Potential): Tensor2
    {
      law.stress(params, Eps)
    }

    function Energy(law: Potential): real
    {
      law.energy(params, Eps)
    }

    /** Yield strain bounding the current potential for an increasing
        equivalent strain. */
    function EpsyPos(law: Potential): (y: real)
      requires Index(law) + 1 < |Epsy(law)|
      ensures y in Epsy(law)
    {
      Epsy(law)[Index(law) + 1]
    }

    /** Yield strain bounding the current potential for a decreasing
        equivalent strain. */
    function EpsyNeg(law: Potential): (y: real)
      requires Index(law) < |Epsy(law)|
      ensures y in Epsy(law)
    {
      Epsy(law)[Index(law)]
    }
  }

  /** Yield strains listed in strictly increasing order. */
  predicate Increasing(ys: seq<real>)
  {
    forall i, j | 0 <= i < j < |ys| :: ys[i] < ys[j]
  }

  /** The header's reading of epsy_neg and epsy_pos, the yield strains
      reached when the equivalent strain decreases or increases: the point's
      equivalent strain, the non-negative root of EpsdSquared(E), lies
      between them. The search that would establish this is not visible, so
      the lemmas below take it as a hypothesis. */
  ghost predicate Brackets(law: Potential, p: YieldParams, E: Tensor2)
  {
    var ys, i := law.epsy(p), law.index(p, E);
    i + 1 < |ys| && forall e | 0.0 <= e && Mul(e, e) == EpsdSquared(E) :: ys[i] <= e <= ys[i + 1]
  }

  /** The two yield strains around the current potential are neighbours in
      the list the point keeps, the negative one first; with increasing yield
      strains they bracket an interval of positive width and no yield strain
      lies strictly between them; under the header's reading they enclose
      the point's equivalent strain. */
  lemma {:induction false} YieldBracket(p: YieldPoint, law: Potential)
    requires p.Index(law) + 1 < |p.Epsy(law)|
    ensures p.EpsyNeg(law) == p.Epsy(law)[p.Index(law)]
    ensures p.EpsyPos(law) == p.Epsy(law)[p.Index(law) + 1]
    ensures Increasing(p.Epsy(law)) ==> p.EpsyNeg(law) < p.EpsyPos(law)
    ensures Increasing(p.Epsy(law)) ==>
              forall y | y in p.Epsy(law) :: y <= p.EpsyNeg(law) || p.EpsyPos(law) <= y
    ensures Brackets(law, p.params, p.Eps) ==>
              forall e | 0.0 <= e && Mul(e, e) == EpsdSquared(p.Eps) :: p.EpsyNeg(law) <= e <= p.EpsyPos(law)
  {
    var ys, i := p.Epsy(law), p.Index(law);
    if Increasing(ys) {
      forall y | y in ys
        ensures y <= ys[i] || ys[i + 1] <= y
      {
        var j :| 0 <= j < |ys| && ys[j] == y;
        if j < i {
          assert ys[j] < ys[i];
        } else if i + 1 < j {
          assert ys[i + 1] < ys[j];
        }
      }
    }
  }

  /** The parameters the test suite gives its Cusp and Smooth points:
      K = 12.3, G = 45.6, epsy = {0.01, 0.03, 0.10}, elastic start. */
  function TestParams(): (p: YieldParams)
    ensures Increasing(p.epsy) && |p.epsy| == 3
  {
    YieldParams(12.3, 45.6, [0.01, 0.03, 0.10], true)
  }

  /** The strain of the test suite: 0.12 on the diagonal and 0.02 in the
      (0,1) and (1,0) components, the same tensor as SimpleShear(0.12, 0.02).
      It is written as a literal because a call of SimpleShear on literal
      arguments lets the prover unfold the contracts of Deviatoric and
      EpsdSquared on constants, which makes the lemmas about the tests far
      more expensive; TestStrainIsSimpleShear relates the two. */
  function TestStrain(): Tensor2
  {
    Tensor2(0.12, 0.02, 0.0, 0.02, 0.12, 0.0, 0.0, 0.0, 0.12)
  }

  lemma TestStrainIsSimpleShear()
    ensures TestStrain() == SimpleShear(0.12, 0.02)
  {
  }

  /** Two non-negative reals with the same square are equal. */
  lemma {:induction false} RootUnique(a: real, b: real)
    requires 0.0 <= a && 0.0 <= b && Mul(a, a) == Mul(b, b)
    ensures a == b
  {
    assert (a - b) * (a + b) == a * a - b * b;
    if a + b == 0.0 {
      assert a == 0.0 && b == 0.0;
    } else {
      ProductZero(a - b, a + b);
    }
  }

  /** Under the header's reading, a point at a strain with shear gamma >= 0
      has epsy_neg <= gamma <= epsy_pos: gamma is its equivalent strain. */
  lemma {:induction false} ShearBracket(law: Potential, p: YieldParams, epsm: real, gamma: real)
    requires 0.0 <= gamma && Brackets(law, p, SimpleShear(epsm, gamma))
    ensures law.epsy(p)[law.index(p, SimpleShear(epsm, gamma))] <= gamma
    ensures gamma <= law.epsy(p)[law.index(p, SimpleShear(epsm, gamma)) + 1]
  {
    SimpleShearSplit(epsm, gamma);
  }

  /** A law reporting from ys at potential i meets the header's reading at
      a strain of shear gamma whenever ys[i] <= gamma <= ys[i + 1]. */
  lemma {:induction false} ShearBracketed(law: Potential, p: YieldParams, epsm: real, gamma: real)
    requires 0.0 <= gamma
    requires law.index(p, SimpleShear(epsm, gamma)) + 1 < |law.epsy(p)|
    requires law.epsy(p)[law.index(p, SimpleShear(epsm, gamma))] <= gamma
    requires gamma <= law.epsy(p)[law.index(p, SimpleShear(epsm, gamma)) + 1]
    ensures Brackets(law, p, SimpleShear(epsm, gamma))
  {
    forall e | 0.0 <= e && Mul(e, e) == EpsdSquared(SimpleShear(epsm, gamma))
      ensures e == gamma
    {
      SimpleShearSplit(epsm, gamma);
      RootUnique(e, gamma);
    }
  }

  /** What the test suite observes of a Cusp or Smooth point with TestParams
      at TestStrain: potential 1, plastic strain 0.02, and a stress with
      3 K epsm on the diagonal and no shear. */
  predicate ReproducesTests(law: Potential)
  {
    law.index(TestParams(), TestStrain()) == 1
    && law.epsp(TestParams(), TestStrain()) == 0.02
    && law.stress(TestParams(), TestStrain()) == Isotropic(3.0 * 12.3 * 0.12)
  }

  /** The test facts and the header's reading can be met together. The
      witness reports from a list with a leading yield strain 0; it only
      shows consistency and is not the library's construction. */
  lemma TestsAreSatisfiable()
    ensures exists law :: ReproducesTests(law) && Brackets(law, TestParams(), TestStrain())
  {
    var law := Potential(
      (p: YieldParams) => [0.0, 0.01, 0.03, 0.10],
      (p: YieldParams, E: Tensor2) => 1,
      (p: YieldParams, E: Tensor2) => 0.02,
      (p: YieldParams, E: Tensor2) => Isotropic(3.0 * 12.3 * 0.12),
      (p: YieldParams, E: Tensor2) => 0.0);
    TestStrainIsSimpleShear();
    ShearBracketed(law, TestParams(), 0.12, 0.02);
    assert ReproducesTests(law) && Brackets(law, TestParams(), TestStrain());
  }

  /** A point reproducing the tests has a purely hydrostatic stress, 3 K
      epsm. */
  lemma {:induction false} TestPointDiagnostics(law: Potential)
    requires ReproducesTests(law)
    ensures Hydrostatic(YieldPoint(TestParams(), TestStrain()).Stress(law)) == Mul(3.0 * 12.3, 0.12)
    ensures Deviatoric(YieldPoint(TestParams(), TestStrain()).Stress(law)) == Zero()
  {
    var S := YieldPoint(TestParams(), TestStrain()).Stress(law);
    assert S == Isotropic(3.0 * 12.3 * 0.12);
  }

  /** Under the header's reading, a point reproducing the tests has epsy_neg
      at most its equivalent strain 0.02 and epsy_pos at least 0.02. So the
      list it reports from is not the given {0.01, 0.03, 0.10}, whose entry
      1 is 0.03: the constructor changes it (the init_elastic treatment). */
  lemma {:induction false} TestPointBracket(law: Potential)
    requires ReproducesTests(law) && Brackets(law, TestParams(), TestStrain())
    ensures YieldPoint(TestParams(), TestStrain()).EpsyNeg(law) <= 0.02
    ensures 0.02 <= YieldPoint(TestParams(), TestStrain()).EpsyPos(law)
    ensures law.epsy(TestParams()) != TestParams().epsy
  {
    TestStrainIsSimpleShear();
    ShearBracket(law, TestParams(), 0.12, 0.02);
  }
}
