/** Second-order tensors in three dimensions and the single-tensor algebra of
    GMatElastoPlasticQPot3d::Cartesian3d: the unit tensor, the trace, the
    double contraction, the hydrostatic/deviatoric split and the two
    equivalent (von Mises type) invariants. Doubles are modelled as reals. */
module Tensor {

  /** A 3x3 tensor, one field per component (row index first). */
  datatype Tensor2 = Tensor2(
    xx: real, xy: real, xz: real,
    yx: real, yy: real, yz: real,
    zx: real, zy: real, zz: real)
  {
    /** Component (i, j), i and j in {0, 1, 2}. */
    function At(i: nat, j: nat): real
      requires i < 3 && j < 3
    {
      if i == 0 then (if j == 0 then xx else if j == 1 then xy else xz)
      else if i == 1 then (if j == 0 then yx else if j == 1 then yy else yz)
      else (if j == 0 then zx else if j == 1 then zy else zz)
    }

    predicate Symmetric()
    {
      xy == yx && xz == zx && yz == zy
    }
  }

  function Zero(): Tensor2
  {
    Tensor2(0.0, 0.0, 0.0, 0.0, 0.0, 0.0, 0.0, 0.0, 0.0)
  }

  /** Component-wise sum. */
  function Add(A: Tensor2, B: Tensor2): Tensor2
  {
    Tensor2(A.xx + B.xx, A.xy + B.xy, A.xz + B.xz,
            A.yx + B.yx, A.yy + B.yy, A.yz + B.yz,
            A.zx + B.zx, A.zy + B.zy, A.zz + B.zz)
  }

  /** Product of two reals. Every product of two varying quantities in the
      model is written through Mul, so that a product is a term the lemmas
      below rewrite (distribute, reassociate) rather than arithmetic the
      prover has to rediscover inside each larger identity. */
  function Mul(x: real, y: real): real
  {
    x * y
  }

  /** Component-wise product with a scalar. */
  function Scale(c: real, A: Tensor2): Tensor2
  {
    Tensor2(Mul(c, A.xx), Mul(c, A.xy), Mul(c, A.xz),
            Mul(c, A.yx), Mul(c, A.yy), Mul(c, A.yz),
            Mul(c, A.zx), Mul(c, A.zy), Mul(c, A.zz))
  }

  /** The second-order unit tensor: the Kronecker delta. */
  function I2(): (I: Tensor2)
    ensures forall i: nat, j: nat | i < 3 && j < 3 :: I.At(i, j) == if i == j then 1.0 else 0.0
    ensures I.Symmetric()
  {
    Tensor2(1.0, 0.0, 0.0, 0.0, 1.0, 0.0, 0.0, 0.0, 1.0)
  }

  /** The isotropic tensor c * I2(), written out. */
  function Isotropic(c: real): (T: Tensor2)
    ensures T.Symmetric()
  {
    Tensor2(c, 0.0, 0.0, 0.0, c, 0.0, 0.0, 0.0, c)
  }

  /** Sum of the diagonal, A_ii. */
  function Trace(A: Tensor2): real
  {
    A.xx + A.yy + A.zz
  }

  /** The library's double contraction. It reads only the diagonal and the
      upper triangle and counts every upper off-diagonal product twice, so it
      is the contraction A_ij B_ji only for symmetric arguments. */
  function A2DdotB2(A: Tensor2, B: Tensor2): real
  {
    Mul(A.xx, B.xx) + Mul(A.yy, B.yy) + Mul(A.zz, B.zz)
    + 2.0 * Mul(A.xy, B.xy)
    + 2.0 * Mul(A.xz, B.xz)
    + 2.0 * Mul(A.yz, B.yz)
  }

  /** The contraction c = A_ij B_ji, summed over all nine index pairs. */
  function Contraction(A: Tensor2, B: Tensor2): real
  {
    Mul(A.xx, B.xx) + Mul(A.xy, B.yx) + Mul(A.xz, B.zx)
    + Mul(A.yx, B.xy) + Mul(A.yy, B.yy) + Mul(A.yz, B.zy)
    + Mul(A.zx, B.xz) + Mul(A.zy, B.yz) + Mul(A.zz, B.zz)
  }

  /** The full double contraction c = A_ij B_ij. */
  function Ddot(A: Tensor2, B: Tensor2): real
  {
    Mul(A.xx, B.xx) + Mul(A.xy, B.xy) + Mul(A.xz, B.xz)
    + Mul(A.yx, B.yx) + Mul(A.yy, B.yy) + Mul(A.yz, B.yz)
    + Mul(A.zx, B.zx) + Mul(A.zy, B.zy) + Mul(A.zz, B.zz)
  }

  /** Mean of the diagonal: the scale of the isotropic part of A. */
  function Hydrostatic(A: Tensor2): real
  {
    Trace(A) / 3.0
  }

  /** A with its isotropic part removed (see DeviatoricSplit). */
  function Deviatoric(A: Tensor2): Tensor2
  {
    var m := Trace(A) / 3.0;
    Tensor2(A.xx - m, A.xy, A.xz,
            A.yx, A.yy - m, A.yz,
            A.zx, A.zy, A.zz - m)
  }

  /** Square of the equivalent deviatoric strain, 0.5 * dev(A) : dev(A). */
  function EpsdSquared(A: Tensor2): (r: real)
    ensures r >= 0.0
  {
    var D := Deviatoric(A);
    SelfContractionNonnegative(D);
    0.5 * A2DdotB2(D, D)
  }

  /** Square of the equivalent deviatoric stress, 2 * dev(A) : dev(A). */
  function SigdSquared(A: Tensor2): (r: real)
    ensures r == 4.0 * EpsdSquared(A)
  {
    var D := Deviatoric(A);
    2.0 * A2DdotB2(D, D)
  }

  /** The strain state of the test suite: volumetric strain epsm on the
      diagonal plus simple shear gamma in the (0,1)/(1,0) components. */
  function SimpleShear(epsm: real, gamma: real): (E: Tensor2)
    ensures E.Symmetric()
  {
    Tensor2(epsm, gamma, 0.0, gamma, epsm, 0.0, 0.0, 0.0, epsm)
  }

  /** The split of the test strain: hydrostatic part epsm, deviatoric part
      the shear alone, equivalent strain gamma. */
  lemma SimpleShearSplit(epsm: real, gamma: real)
    ensures Hydrostatic(SimpleShear(epsm, gamma)) == epsm
    ensures Deviatoric(SimpleShear(epsm, gamma)) == Tensor2(0.0, gamma, 0.0, gamma, 0.0, 0.0, 0.0, 0.0, 0.0)
    ensures EpsdSquared(SimpleShear(epsm, gamma)) == Mul(gamma, gamma)
  {
  }

  /** Isotropic(c) is the unit tensor scaled by c. */
  lemma IsotropicIsScaledUnit(c: real)
    ensures Isotropic(c) == Scale(c, I2())
  {
  }

  lemma SquareNonnegative(x: real)
    ensures Mul(x, x) >= 0.0
  {
  }

  /** The contraction of a tensor with itself is never negative. */
  lemma SelfContractionNonnegative(A: Tensor2)
    ensures A2DdotB2(A, A) >= 0.0
  {
    SquareNonnegative(A.xx);
    SquareNonnegative(A.yy);
    SquareNonnegative(A.zz);
    SquareNonnegative(A.xy);
    SquareNonnegative(A.xz);
    SquareNonnegative(A.yz);
  }

  /** The double contraction does not depend on the order of its arguments. */
  lemma A2DdotB2Commutes(A: Tensor2, B: Tensor2)
    ensures A2DdotB2(A, B) == A2DdotB2(B, A)
  {
  }

  /** On symmetric tensors the library's contraction is A_ij B_ji, which is
      then also the full A_ij B_ij. */
  lemma A2DdotB2IsContractionForSymmetric(A: Tensor2, B: Tensor2)
    requires A.Symmetric() && B.Symmetric()
    ensures A2DdotB2(A, B) == Contraction(A, B)
    ensures A2DdotB2(A, B) == Ddot(A, B)
  {
  }

  /** The deviatoric part is trace free, only its diagonal differs from A,
      it keeps A symmetric, and with the hydrostatic part it rebuilds A. */
  lemma DeviatoricSplit(A: Tensor2)
    ensures Trace(Deviatoric(A)) == 0.0
    ensures Trace(Isotropic(Hydrostatic(A))) == Trace(A)
    ensures Add(Deviatoric(A), Isotropic(Hydrostatic(A))) == A
    ensures A.Symmetric() ==> Deviatoric(A).Symmetric()
    ensures forall i: nat, j: nat | i < 3 && j < 3 && i != j :: Deviatoric(A).At(i, j) == A.At(i, j)
  {
  }

  /** Removing the isotropic part twice removes nothing more. */
  lemma DeviatoricIdempotent(A: Tensor2)
    ensures Deviatoric(Deviatoric(A)) == Deviatoric(A)
    ensures Hydrostatic(Deviatoric(A)) == 0.0
  {
  }

  /** The hydrostatic part is linear. */
  lemma {:induction false} HydrostaticLinear(a: real, A: Tensor2, b: real, B: Tensor2)
    ensures Hydrostatic(Add(Scale(a, A), Scale(b, B))) == Mul(a, Hydrostatic(A)) + Mul(b, Hydrostatic(B))
  {
    MeanOfCombination(a, A.xx, A.yy, A.zz, b, B.xx, B.yy, B.zz);
  }

  /** The mean of three components of a A + b B. */
  lemma MeanOfCombination(a: real, x1: real, y1: real, z1: real, b: real, x2: real, y2: real, z2: real)
    ensures ((Mul(a, x1) + Mul(b, x2)) + (Mul(a, y1) + Mul(b, y2)) + (Mul(a, z1) + Mul(b, z2))) / 3.0
         == Mul(a, (x1 + y1 + z1) / 3.0) + Mul(b, (x2 + y2 + z2) / 3.0)
  {
  }

  /** The deviatoric part is linear. */
  lemma {:induction false} DeviatoricLinear(a: real, A: Tensor2, b: real, B: Tensor2)
    ensures Deviatoric(Add(Scale(a, A), Scale(b, B))) == Add(Scale(a, Deviatoric(A)), Scale(b, Deviatoric(B)))
  {
    DiagonalShiftLinear(a, A.xx, A.yy, A.zz, b, B.xx, B.yy, B.zz);
    DiagonalShiftLinear(a, A.yy, A.zz, A.xx, b, B.yy, B.zz, B.xx);
    DiagonalShiftLinear(a, A.zz, A.xx, A.yy, b, B.zz, B.xx, B.yy);
  }

  /** One diagonal component of the deviatoric part of a A + b B. */
  lemma DiagonalShiftLinear(a: real, x1: real, y1: real, z1: real, b: real, x2: real, y2: real, z2: real)
    ensures (Mul(a, x1) + Mul(b, x2))
            - ((Mul(a, x1) + Mul(b, x2)) + (Mul(a, y1) + Mul(b, y2)) + (Mul(a, z1) + Mul(b, z2))) / 3.0
         == Mul(a, x1 - (x1 + y1 + z1) / 3.0) + Mul(b, x2 - (x2 + y2 + z2) / 3.0)
  {
  }

  /** The trace commutes with scaling. */
  lemma ScaleTrace(c: real, A: Tensor2)
    ensures Trace(Scale(c, A)) == Mul(c, Trace(A))
  {
  }

  /** The full double contraction is symmetric in its arguments. */
  lemma {:induction false} DdotCommutes(A: Tensor2, B: Tensor2)
    ensures Ddot(A, B) == Ddot(B, A)
  {
    MulCommutes(A.xx, B.xx); MulCommutes(A.xy, B.xy); MulCommutes(A.xz, B.xz);
    MulCommutes(A.yx, B.yx); MulCommutes(A.yy, B.yy); MulCommutes(A.yz, B.yz);
    MulCommutes(A.zx, B.zx); MulCommutes(A.zy, B.zy); MulCommutes(A.zz, B.zz);
  }

  /** The full double contraction distributes over a sum on the left. */
  lemma {:induction false} DdotAddLeft(A: Tensor2, B: Tensor2, C: Tensor2)
    ensures Ddot(Add(A, B), C) == Ddot(A, C) + Ddot(B, C)
  {
    MulDistributesLeft(A.xx, B.xx, C.xx); MulDistributesLeft(A.xy, B.xy, C.xy);
    MulDistributesLeft(A.xz, B.xz, C.xz); MulDistributesLeft(A.yx, B.yx, C.yx);
    MulDistributesLeft(A.yy, B.yy, C.yy); MulDistributesLeft(A.yz, B.yz, C.yz);
    MulDistributesLeft(A.zx, B.zx, C.zx); MulDistributesLeft(A.zy, B.zy, C.zy);
    MulDistributesLeft(A.zz, B.zz, C.zz);
  }

  /** A scalar factor on the left comes out of the full double contraction. */
  lemma {:induction false} DdotScaleLeft(c: real, A: Tensor2, B: Tensor2)
    ensures Ddot(Scale(c, A), B) == Mul(c, Ddot(A, B))
  {
    MulAssociates(c, A.xx, B.xx); MulAssociates(c, A.xy, B.xy); MulAssociates(c, A.xz, B.xz);
    MulAssociates(c, A.yx, B.yx); MulAssociates(c, A.yy, B.yy); MulAssociates(c, A.yz, B.yz);
    MulAssociates(c, A.zx, B.zx); MulAssociates(c, A.zy, B.zy); MulAssociates(c, A.zz, B.zz);
    MulDistributesOverNine(c, Mul(A.xx, B.xx), Mul(A.xy, B.xy), Mul(A.xz, B.xz),
      Mul(A.yx, B.yx), Mul(A.yy, B.yy), Mul(A.yz, B.yz),
      Mul(A.zx, B.zx), Mul(A.zy, B.zy), Mul(A.zz, B.zz));
  }

  /** Contracting with the isotropic tensor c I picks out c times the trace. */
  lemma {:induction false} DdotIsotropicLeft(c: real, A: Tensor2)
    ensures Ddot(Isotropic(c), A) == Mul(c, Trace(A))
  {
    MulDistributes(c, A.xx, A.yy);
    MulDistributes(c, A.xx + A.yy, A.zz);
  }

  lemma MulCommutes(x: real, y: real)
    ensures Mul(x, y) == Mul(y, x)
  {
  }

  lemma MulAssociates(x: real, y: real, z: real)
    ensures Mul(Mul(x, y), z) == Mul(x, Mul(y, z))
  {
  }

  lemma MulDistributes(c: real, x: real, y: real)
    ensures Mul(c, x + y) == Mul(c, x) + Mul(c, y)
  {
  }

  lemma MulDistributesLeft(x: real, y: real, c: real)
    ensures Mul(x + y, c) == Mul(x, c) + Mul(y, c)
  {
  }

  lemma MulDistributesOverNine(c: real, t1: real, t2: real, t3: real, t4: real, t5: real,
                               t6: real, t7: real, t8: real, t9: real)
    ensures Mul(c, t1 + t2 + t3 + t4 + t5 + t6 + t7 + t8 + t9)
         == Mul(c, t1) + Mul(c, t2) + Mul(c, t3) + Mul(c, t4) + Mul(c, t5)
          + Mul(c, t6) + Mul(c, t7) + Mul(c, t8) + Mul(c, t9)
  {
  }

  lemma MulNonnegative(x: real, y: real)
    requires x >= 0.0 && y >= 0.0
    ensures Mul(x, y) >= 0.0
  {
  }

  /** A symmetric tensor has zero equivalent strain exactly when it is
      purely hydrostatic. */
  lemma EpsdZeroIffHydrostatic(A: Tensor2)
    requires A.Symmetric()
    ensures EpsdSquared(A) == 0.0 <==> A == Isotropic(Hydrostatic(A))
  {
    if EpsdSquared(A) == 0.0 {
      ZeroEpsdIsHydrostatic(A);
    }
    if A == Isotropic(Hydrostatic(A)) {
      HydrostaticHasZeroEpsd(A);
    }
  }

  lemma {:induction false} ZeroEpsdIsHydrostatic(A: Tensor2)
    requires A.Symmetric() && EpsdSquared(A) == 0.0
    ensures A == Isotropic(Hydrostatic(A))
  {
    var D := Deviatoric(A);
    assert A2DdotB2(D, D) == 0.0;
    SumOfSquaresZero(D.xx, D.yy, D.zz, D.xy, D.xz, D.yz);
    DeviatoricSplit(A);
  }

  lemma {:induction false} HydrostaticHasZeroEpsd(A: Tensor2)
    requires A == Isotropic(Hydrostatic(A))
    ensures EpsdSquared(A) == 0.0
  {
    var h := Hydrostatic(A);
    assert Deviatoric(A) == Zero() by {
      assert A.xx == h && A.yy == h && A.zz == h;
    }
    ZeroContraction();
  }

  lemma ZeroContraction()
    ensures A2DdotB2(Zero(), Zero()) == 0.0
  {
  }

  lemma SumOfSquaresZero(a: real, b: real, c: real, d: real, e: real, f: real)
    requires Mul(a, a) + Mul(b, b) + Mul(c, c) + 2.0 * Mul(d, d) + 2.0 * Mul(e, e) + 2.0 * Mul(f, f) == 0.0
    ensures a == 0.0 && b == 0.0 && c == 0.0 && d == 0.0 && e == 0.0 && f == 0.0
  {
    SquareNonnegative(a);
    SquareNonnegative(b);
    SquareNonnegative(c);
    SquareNonnegative(d);
    SquareNonnegative(e);
    SquareNonnegative(f);
    SquareZero(a);
    SquareZero(b);
    SquareZero(c);
    SquareZero(d);
    SquareZero(e);
    SquareZero(f);
  }

  lemma ProductZero(x: real, y: real)
    requires x * y == 0.0
    ensures x == 0.0 || y == 0.0
  {
  }

  lemma SquareZero(x: real)
    requires Mul(x, x) == 0.0
    ensures x == 0.0
  {
    ProductZero(x, x);
  }

  /** The equivalent stress of a tensor is twice its equivalent strain: any
      non-negative square roots r of EpsdSquared(A) and s of SigdSquared(A)
      satisfy s == 2 r. */
  lemma {:induction false} SigdIsTwiceEpsd(A: Tensor2, r: real, s: real)
    requires r >= 0.0 && r * r == EpsdSquared(A)
    requires s >= 0.0 && s * s == SigdSquared(A)
    ensures s == 2.0 * r
  {
    assert (s - 2.0 * r) * (s + 2.0 * r) == s * s - 4.0 * (r * r);
    assert (s - 2.0 * r) * (s + 2.0 * r) == 0.0;
    if s + 2.0 * r == 0.0 {
      assert s == 0.0 && r == 0.0;
    } else {
      assert s - 2.0 * r == 0.0;
    }
  }
}
