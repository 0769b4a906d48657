# GMatElastoPlasticQPot3d, modelled in Dafny

GMatElastoPlasticQPot3d is a library of constitutive models for three
dimensional solids. A material point gets a strain tensor and answers with a
stress, an energy and plasticity diagnostics. This model covers three parts
of the library.

- **Tensor algebra** (`Cartesian3d.hpp`), in modules `Tensor` and `TensorBatch`.
  - A second-order tensor is a datatype of nine reals.
  - The single-tensor operations are functions: `I2`, `trace`, `A2_ddot_B2`,
    `Hydrostatic`, `Deviatoric`, and `Epsd`/`Sigd` by their squares.
  - The "list" forms loop over an `(n, 3, 3)` buffer, the "matrix" forms over an
    `(nelem, nip, 3, 3)` buffer. Each is a method that fills a caller-owned
    output array point by point. The shape assertion becomes its precondition.
    The deviatoric forms also require the output's trailing shape (3, 3),
    which the source does not assert (see "## Left out").
  - The allocating wrappers create the output array and call the buffer form.
- **The linear elastic law of the older API** (`ElastoPlasticQPot3d::Elastic`),
  in module `ElastoPlasticQPot3d`.
  - It is a datatype holding kappa and mu, with pure functions of a symmetric
    strain.
  - The stress is 3 kappa epsm I + 2 mu dev(Eps); the energy is
    9/2 kappa epsm^2 + 2 mu epsd^2.
  - Its diagnostics are constant: plastic strain 0, potential 0, every yield
    strain +infinity.
- **The material points and the matrix of points** (`Cartesian3d.h`), in
  modules `PointLaws` and `MaterialMatrix`.
  - A point is Elastic, Cusp or Smooth and holds its parameters and current strain.
    The material identifier (Unset, Elastic, Cusp, Smooth) is the datatype
    `PointLaws.Type`.
  - How Cusp and Smooth points respond is not visible in the sources. It is a
    `Potential` parameter: the yield strains the point keeps (`epsy()`, which
    its constructor builds from the given list and `init_elastic`), and the
    maps giving its potential index, plastic strain, stress and energy.
    - The header's doc comments fix `epsy_neg == epsy[index]` and
      `epsy_pos == epsy[index + 1]` over the kept list.
    - Their reading, that the equivalent strain lies between the two, is the
      predicate `Brackets`. Lemmas take it as a hypothesis.
    - `ReproducesTests` states the facts the test suites observe.
  - `Matrix` is a class holding:
    - the `types` and `index` maps over the `nelem x nip` points;
    - three append-only vectors of instances;
    - the `allSet` flag.
  - Its methods mirror `check`, the uniform and table forms of `setElastic`,
    `setCusp` and `setSmooth`, `set_strain`, and every batched query, both in
    place and allocating.
  - A ghost owner map records which point each instance was created for.
    The class invariant `Valid` states from it that no two points share an
    instance.

All quantities are Dafny `real`s. Every product of two varying quantities goes
through `Tensor.Mul`, so that the algebraic lemmas can name it.

## Model

| member | source | states |
|---|---|---|
| Tensor.I2 | include/GMatElastoPlasticQPot3d/Cartesian3d.hpp:15-20 | the unit tensor: 1 on the diagonal, 0 elsewhere, and symmetric |
| Tensor.Trace | include/GMatElastoPlasticQPot3d/Cartesian3d.hpp:246-250 | trace(A) = A00 + A11 + A22 |
| Tensor.A2DdotB2 | include/GMatElastoPlasticQPot3d/Cartesian3d.hpp:252-259 | the diagonal products plus twice the upper off-diagonal products (see A2DdotB2IsContractionForSymmetric) |
| Tensor.Hydrostatic | include/GMatElastoPlasticQPot3d/Cartesian3d.hpp:22-25 | trace(A) / 3 |
| Tensor.Deviatoric | include/GMatElastoPlasticQPot3d/Cartesian3d.hpp:27-30 | A minus trace(A) / 3 on the diagonal (see DeviatoricSplit) |
| Tensor.IsotropicIsScaledUnit | include/GMatElastoPlasticQPot3d/Cartesian3d.hpp:15-20 | c times the unit tensor is the tensor with c on the diagonal |
| Tensor.DeviatoricSplit | include/GMatElastoPlasticQPot3d/Cartesian3d.hpp:22-30 | dev(A) is trace free; dev(A) + hyd(A) I == A; the deviator of a symmetric tensor is symmetric; only the diagonal is shifted |
| Tensor.DeviatoricIdempotent | include/GMatElastoPlasticQPot3d/Cartesian3d.hpp:27-30 | dev(dev(A)) == dev(A) and hyd(dev(A)) == 0 |
| Tensor.HydrostaticLinear | include/GMatElastoPlasticQPot3d/Cartesian3d.hpp:22-25 | hyd(a A + b B) == a hyd(A) + b hyd(B) |
| Tensor.DeviatoricLinear | include/GMatElastoPlasticQPot3d/Cartesian3d.hpp:27-30 | dev(a A + b B) == a dev(A) + b dev(B) |
| Tensor.A2DdotB2Commutes | include/GMatElastoPlasticQPot3d/Cartesian3d.hpp:252-259 | A2_ddot_B2(A, B) == A2_ddot_B2(B, A) |
| Tensor.A2DdotB2IsContractionForSymmetric | include/GMatElastoPlasticQPot3d/Cartesian3d.h:331-334 | for symmetric A and B, A2_ddot_B2 equals both the contraction A_ij B_ji and the double contraction A_ij B_ij |
| Tensor.SelfContractionNonnegative | include/GMatElastoPlasticQPot3d/Cartesian3d.hpp:252-259 | A2_ddot_B2(A, A) >= 0 |
| Tensor.EpsdSquared | include/GMatElastoPlasticQPot3d/Cartesian3d.hpp:32-36 | Epsd(A)^2 = 0.5 A2_ddot_B2(dev A, dev A) is never negative |
| Tensor.SigdSquared | include/GMatElastoPlasticQPot3d/Cartesian3d.hpp:38-42 | Sigd(A)^2 is four times Epsd(A)^2 |
| Tensor.SigdIsTwiceEpsd | include/GMatElastoPlasticQPot3d/Cartesian3d.hpp:32-42 | the non-negative roots of the two squares satisfy Sigd(A) == 2 Epsd(A) |
| Tensor.EpsdZeroIffHydrostatic | include/GMatElastoPlasticQPot3d/Cartesian3d.hpp:27-36 | a symmetric tensor has equivalent strain 0 exactly when it is hyd(A) I |
| Tensor.DdotCommutes | src/ElastoPlasticQPot3d/Elastic.hpp:40-45 | the double contraction of the older API is symmetric |
| Tensor.SimpleShearSplit | test/Cartesian3d.cpp:20-24 | the test strain (epsm on the diagonal, gamma in (0,1) and (1,0)) has hydrostatic part epsm, deviator with only the shear, and Epsd^2 == gamma^2 |
| TensorBatch.StoreItem | include/GMatElastoPlasticQPot3d/Cartesian3d.hpp:53-54 | writing item e of a list sets exactly that 3 x 3 item and leaves every other item unchanged |
| TensorBatch.StoreItemAt | include/GMatElastoPlasticQPot3d/Cartesian3d.hpp:170-172 | writing item (e, q) of a matrix sets exactly that item and leaves every other item unchanged |
| TensorBatch.HydrostaticListInto | include/GMatElastoPlasticQPot3d/Cartesian3d.hpp:44-57 | with matching shapes, Am[e] is hyd of item e for every e |
| TensorBatch.DeviatoricListInto | include/GMatElastoPlasticQPot3d/Cartesian3d.hpp:59-75 | with matching shapes, item e of Ad is dev of item e of the input as it was on entry, also when input and output are the same array |
| TensorBatch.EpsdSquaredListInto | include/GMatElastoPlasticQPot3d/Cartesian3d.hpp:77-93 | with matching shapes, Aeq[e] is Epsd^2 of item e for every e |
| TensorBatch.SigdSquaredListInto | include/GMatElastoPlasticQPot3d/Cartesian3d.hpp:95-111 | with matching shapes, Aeq[e] is Sigd^2 of item e for every e |
| TensorBatch.HydrostaticList | include/GMatElastoPlasticQPot3d/Cartesian3d.hpp:113-118 | a new array of the input's length, holding hyd of every item |
| TensorBatch.DeviatoricList | include/GMatElastoPlasticQPot3d/Cartesian3d.hpp:120-125 | a new list of the input's shape, holding dev of every item |
| TensorBatch.EpsdSquaredList | include/GMatElastoPlasticQPot3d/Cartesian3d.hpp:127-132 | a new array of the input's length, holding Epsd^2 of every item |
| TensorBatch.SigdSquaredList | include/GMatElastoPlasticQPot3d/Cartesian3d.hpp:134-139 | a new array of the input's length, holding Sigd^2 of every item |
| TensorBatch.HydrostaticMatrixInto | include/GMatElastoPlasticQPot3d/Cartesian3d.hpp:141-156 | with matching shapes, Am[e, q] is hyd of item (e, q) for every point |
| TensorBatch.DeviatoricMatrixInto | include/GMatElastoPlasticQPot3d/Cartesian3d.hpp:158-176 | with matching shapes, item (e, q) of Ad is dev of item (e, q) of the input as it was on entry |
| TensorBatch.EpsdSquaredMatrixInto | include/GMatElastoPlasticQPot3d/Cartesian3d.hpp:178-196 | with matching shapes, Aeq[e, q] is Epsd^2 of item (e, q) for every point |
| TensorBatch.SigdSquaredMatrixInto | include/GMatElastoPlasticQPot3d/Cartesian3d.hpp:198-216 | with matching shapes, Aeq[e, q] is Sigd^2 of item (e, q) for every point |
| TensorBatch.HydrostaticMatrix | include/GMatElastoPlasticQPot3d/Cartesian3d.hpp:218-223 | a new (nelem, nip) array holding hyd of every item |
| TensorBatch.DeviatoricMatrix | include/GMatElastoPlasticQPot3d/Cartesian3d.hpp:225-230 | a new matrix of the input's shape holding dev of every item |
| TensorBatch.EpsdSquaredMatrix | include/GMatElastoPlasticQPot3d/Cartesian3d.hpp:232-237 | a new (nelem, nip) array holding Epsd^2 of every item |
| TensorBatch.SigdSquaredMatrix | include/GMatElastoPlasticQPot3d/Cartesian3d.hpp:239-244 | a new (nelem, nip) array holding Sigd^2 of every item |
| ElastoPlasticQPot3d.Elastic.Kappa | src/ElastoPlasticQPot3d/Elastic.hpp:26-29 | kappa(): the stored bulk modulus |
| ElastoPlasticQPot3d.Elastic.Mu | src/ElastoPlasticQPot3d/Elastic.hpp:33-36 | mu(): the stored shear modulus |
| ElastoPlasticQPot3d.Elastic.EpsdSquared | src/ElastoPlasticQPot3d/Elastic.hpp:40-45 | the square of epsd(Eps): 0.5 dev(Eps) : dev(Eps), full contraction |
| ElastoPlasticQPot3d.Elastic.Epsp | src/ElastoPlasticQPot3d/Elastic.hpp:49-54 | epsp(Eps) = 0 |
| ElastoPlasticQPot3d.Elastic.EpspOf | src/ElastoPlasticQPot3d/Elastic.hpp:58-63 | epsp(epsd) = 0 |
| ElastoPlasticQPot3d.Elastic.Epsy | src/ElastoPlasticQPot3d/Elastic.hpp:67-72 | epsy(i) = +infinity |
| ElastoPlasticQPot3d.Elastic.Find | src/ElastoPlasticQPot3d/Elastic.hpp:76-81 | find(Eps) = 0 |
| ElastoPlasticQPot3d.Elastic.FindOf | src/ElastoPlasticQPot3d/Elastic.hpp:85-90 | find(epsd) = 0 |
| ElastoPlasticQPot3d.Elastic.Sig | src/ElastoPlasticQPot3d/Elastic.hpp:94-103 | 3 kappa epsm I + 2 mu (Eps - epsm I), a symmetric tensor (see StressSplit, StressLinear) |
| ElastoPlasticQPot3d.Elastic.Energy | src/ElastoPlasticQPot3d/Elastic.hpp:107-121 | 9/2 kappa epsm^2 + 2 mu epsd^2 (see EnergyNonnegative, WorkIsTwiceEnergy) |
| ElastoPlasticQPot3d.ModuliRoundTrip | src/ElastoPlasticQPot3d/Elastic.hpp:20-36 | kappa() and mu() return the constructor's K and G |
| ElastoPlasticQPot3d.NoPlasticity | src/ElastoPlasticQPot3d/Elastic.hpp:49-90 | for every argument: plastic strain 0, potential 0, every yield strain +infinity, and the tensor and scalar overloads agree |
| ElastoPlasticQPot3d.StressSplit | src/ElastoPlasticQPot3d/Elastic.hpp:94-103 | the hydrostatic part of Sig(Eps) is 3 kappa hyd(Eps) and its deviator is 2 mu dev(Eps) |
| ElastoPlasticQPot3d.SigIsSplit | src/ElastoPlasticQPot3d/Elastic.hpp:94-103 | Sig(Eps) == 3 kappa hyd(Eps) I + 2 mu dev(Eps) |
| ElastoPlasticQPot3d.StressLinear | src/ElastoPlasticQPot3d/Elastic.hpp:94-103 | Sig(a E1 + b E2) == a Sig(E1) + b Sig(E2) |
| ElastoPlasticQPot3d.EnergyNonnegative | src/ElastoPlasticQPot3d/Elastic.hpp:107-121 | with kappa, mu >= 0 the energy is never negative |
| ElastoPlasticQPot3d.WorkIsTwiceEnergy | src/ElastoPlasticQPot3d/Elastic.hpp:94-121 | Sig(Eps) : Eps == 2 energy(Eps) |
| ElastoPlasticQPot3d.DeviatoricWork | src/ElastoPlasticQPot3d/Elastic.hpp:107-121 | dev(E) : E == dev(E) : dev(E) |
| ElastoPlasticQPot3d.SimpleShearStress | test/Cartesian3d.cpp:26-36 | on the test strain the stress is 3 kappa epsm on the diagonal, 2 mu gamma in (0,1) and (1,0), 0 elsewhere; plastic strain and potential are 0 |
| PointLaws.ElasticPoint.SetStrain | include/GMatElastoPlasticQPot3d/Cartesian3d.h:84-86 | set_strain replaces the strain and keeps K and G |
| PointLaws.ElasticPoint.Stress | include/GMatElastoPlasticQPot3d/Cartesian3d.h:88-91 | the stress's hydrostatic part is 3 K hyd(Eps) and its deviator 2 G dev(Eps) |
| PointLaws.ElasticPoint.Energy | include/GMatElastoPlasticQPot3d/Cartesian3d.h:93 | the energy is never negative for non-negative moduli |
| PointLaws.ElasticPointAgreesWithElastic | include/GMatElastoPlasticQPot3d/Cartesian3d.h:72-100 | the new-API elastic point computes the same stress and energy as the older Elastic law with kappa = K, mu = G |
| PointLaws.ElasticPointShearTest | test/Cartesian3d.cpp:26-36 | on the test strain the elastic point's stress is 3 K epsm on the diagonal and 2 G gamma in the shear components |
| PointLaws.YieldPoint.SetStrain | include/GMatElastoPlasticQPot3d/Cartesian3d.h:119-121 | set_strain of a Cusp or Smooth point replaces the strain and keeps the parameters |
| PointLaws.YieldPoint.Index | include/GMatElastoPlasticQPot3d/Cartesian3d.h:129 | index(): the potential index the point's law gives at its current strain |
| PointLaws.YieldPoint.Epsp | include/GMatElastoPlasticQPot3d/Cartesian3d.h:132 | epsp(): the plastic strain the point's law gives at its current strain |
| PointLaws.YieldPoint.Stress | include/GMatElastoPlasticQPot3d/Cartesian3d.h:126 | Stress(): the stress the point's law gives at its current strain |
| PointLaws.YieldPoint.Energy | include/GMatElastoPlasticQPot3d/Cartesian3d.h:128 | energy(): the energy the point's law gives at its current strain |
| PointLaws.YieldPoint.EpsyPos | include/GMatElastoPlasticQPot3d/Cartesian3d.h:130 | epsy_pos(): entry index + 1 of the yield strains the point keeps, hence one of them |
| PointLaws.YieldPoint.EpsyNeg | include/GMatElastoPlasticQPot3d/Cartesian3d.h:131 | epsy_neg(): entry index of the yield strains the point keeps, hence one of them |
| PointLaws.YieldBracket | include/GMatElastoPlasticQPot3d/Cartesian3d.h:129-131 | epsy_neg == epsy[index] and epsy_pos == epsy[index + 1] of the kept list; with increasing yield strains epsy_neg < epsy_pos and no yield strain lies strictly between; under the header's reading (Brackets) every non-negative root of EpsdSquared lies in [epsy_neg, epsy_pos] |
| PointLaws.ShearBracket | include/GMatElastoPlasticQPot3d/Cartesian3d.h:130-131 | under the header's reading, a point at a strain with shear gamma >= 0 has epsy_neg <= gamma <= epsy_pos |
| PointLaws.TestParams | test/Cartesian3d.cpp:38-40 | the tests' yield strains {0.01, 0.03, 0.10} are increasing and three in number |
| PointLaws.TestsAreSatisfiable | test/Cartesian3d.cpp:38-64 | the facts the tests observe of a Cusp or Smooth point are consistent with each other and with the header's reading: some law meets both |
| PointLaws.TestPointDiagnostics | test/Cartesian3d.py:46-110 | a point reproducing the tests has a purely hydrostatic stress, 3 K epsm |
| PointLaws.TestPointBracket | test/Cartesian3d.cpp:38-49 | under the header's reading, a point reproducing the tests (index 1 at equivalent strain 0.02) has epsy_neg <= 0.02 <= epsy_pos, so the list it keeps differs from the given {0.01, 0.03, 0.10} |
| MaterialMatrix.Matrix.constructor | include/GMatElastoPlasticQPot3d/Cartesian3d.h:201 | a new matrix of the given shape with every point Unset, empty vectors and allSet false |
| MaterialMatrix.Matrix.Check | include/GMatElastoPlasticQPot3d/Cartesian3d.h:231-233 | check() passes exactly when no point is Unset, and otherwise names an Unset point |
| MaterialMatrix.Matrix.CheckAllSet | include/GMatElastoPlasticQPot3d/Cartesian3d.h:319-321 | allSet becomes true exactly when every point has a material |
| MaterialMatrix.Matrix.SetElastic | include/GMatElastoPlasticQPot3d/Cartesian3d.h:238-241 | exactly the points with I == 1 become new elastic instances with K and G; other points keep type and index; the other vectors are unchanged; allSet is recomputed |
| MaterialMatrix.Matrix.SetCusp | include/GMatElastoPlasticQPot3d/Cartesian3d.h:243-248 | exactly the points with I == 1 become new Cusp instances with K, G, epsy and init_elastic; other points keep their material |
| MaterialMatrix.Matrix.SetSmooth | include/GMatElastoPlasticQPot3d/Cartesian3d.h:250-255 | exactly the points with I == 1 become new Smooth instances with K, G, epsy and init_elastic; other points keep their material |
| MaterialMatrix.Matrix.SetElasticTable | include/GMatElastoPlasticQPot3d/Cartesian3d.h:257-265 | each selected point gets K[idx(e, q)] and G[idx(e, q)]; other points keep their material |
| MaterialMatrix.Matrix.SetCuspTable | include/GMatElastoPlasticQPot3d/Cartesian3d.h:267-273 | each selected point becomes Cusp with K[idx], G[idx] and row epsy[idx, :]; other points keep their material |
| MaterialMatrix.Matrix.SetSmoothTable | include/GMatElastoPlasticQPot3d/Cartesian3d.h:275-281 | each selected point becomes Smooth with K[idx], G[idx] and row epsy[idx, :]; other points keep their material |
| MaterialMatrix.Matrix.SetStrain | include/GMatElastoPlasticQPot3d/Cartesian3d.h:285 | every point's strain becomes Eps[e, q]; types, indices and all parameters stay |
| MaterialMatrix.Matrix.StressInto | include/GMatElastoPlasticQPot3d/Cartesian3d.h:287 | Sig[e, q] is the stress of the instance point (e, q) refers to |
| MaterialMatrix.Matrix.EnergyInto | include/GMatElastoPlasticQPot3d/Cartesian3d.h:289 | out[e, q] is the energy of point (e, q) |
| MaterialMatrix.Matrix.IndexInto | include/GMatElastoPlasticQPot3d/Cartesian3d.h:290 | out[e, q] is the potential index of point (e, q), 0 for an elastic point |
| MaterialMatrix.Matrix.EpsyPosInto | include/GMatElastoPlasticQPot3d/Cartesian3d.h:291 | out[e, q] is epsy[index + 1] of point (e, q), +infinity for an elastic point |
| MaterialMatrix.Matrix.EpsyNegInto | include/GMatElastoPlasticQPot3d/Cartesian3d.h:292 | out[e, q] is epsy[index] of point (e, q), +infinity for an elastic point |
| MaterialMatrix.Matrix.EpspInto | include/GMatElastoPlasticQPot3d/Cartesian3d.h:293 | out[e, q] is the plastic strain of point (e, q), 0 for an elastic point |
| MaterialMatrix.Matrix.Stress | include/GMatElastoPlasticQPot3d/Cartesian3d.h:295 | a new (nelem, nip, 3, 3) array holding every point's stress |
| MaterialMatrix.Matrix.Energy | include/GMatElastoPlasticQPot3d/Cartesian3d.h:297 | a new (nelem, nip) array holding every point's energy |
| MaterialMatrix.Matrix.Index | include/GMatElastoPlasticQPot3d/Cartesian3d.h:298 | a new (nelem, nip) array holding every point's potential index |
| MaterialMatrix.Matrix.EpsyPos | include/GMatElastoPlasticQPot3d/Cartesian3d.h:299 | a new (nelem, nip) array holding every point's upper yield strain |
| MaterialMatrix.Matrix.EpsyNeg | include/GMatElastoPlasticQPot3d/Cartesian3d.h:300 | a new (nelem, nip) array holding every point's lower yield strain |
| MaterialMatrix.Matrix.Epsp | include/GMatElastoPlasticQPot3d/Cartesian3d.h:301 | a new (nelem, nip) array holding every point's plastic strain |
| MaterialMatrix.Matrix.NoSharedInstance | include/GMatElastoPlasticQPot3d/Cartesian3d.h:305-312 | two points with the same type and index are the same point |
| MaterialMatrix.Matrix.ElasticResponse | include/GMatElastoPlasticQPot3d/Cartesian3d.h:72-100 | an elastic point of the matrix answers with 3 K hyd I + 2 G dev of its own strain and moduli, potential 0, plastic strain 0, yield strains +infinity |
| MaterialMatrix.Matrix.YieldResponse | include/GMatElastoPlasticQPot3d/Cartesian3d.h:168-171 | a Cusp or Smooth point of the matrix reports epsy[index] and epsy[index + 1] of the list it keeps, which bracket no other yield strain and, under the header's reading, enclose the point's equivalent strain |
| MaterialMatrix.TestLawAnswers | test/Cartesian3d.py:46-110 | a law reproducing the tests answers plastic strain 0.02 and stress 3 K epsm I at the test strain |
| MaterialMatrix.ElasticShearResponse | test/Cartesian3d.cpp:104-111 | an elastic point of the matrix at the test strain has stress 3 K epsm on the diagonal, 2 G gamma in the shear, and plastic strain 0 |
| MaterialMatrix.MixedColumn | test/Cartesian3d.py:151-187 | in the mixed matrix under a uniform test strain, column q reports the elastic answer in row 0 and the yield laws' answers in rows 1 and 2 |
| MaterialMatrix.MixedMatrixTest | test/Cartesian3d.py:122-187 | building the elastic/Cusp/Smooth matrix row by row, setting a uniform strain and querying: row 0 has the elastic stress and plastic strain 0; rows 1 and 2 have the laws' stress and plastic strain |
| MaterialMatrix.PythonMatrixTest | test/Cartesian3d.py:114-187 | the mixed-matrix test as the Python suite runs it: diagonal stress 3 K epsm everywhere, shear 2 G gamma only in row 0, plastic strain 0, gamma, gamma |

## Left out

- Tensor.EpsdSquared: models `Epsd` by its square, because `std::sqrt` has no
  definition over Dafny's reals. `Tensor.SigdIsTwiceEpsd` states the root relation.
- Tensor.SigdSquared: models `Sigd` by its square, for the same reason.
- TensorBatch.EpsdSquaredListInto, TensorBatch.SigdSquaredListInto,
  TensorBatch.EpsdSquaredMatrixInto and TensorBatch.SigdSquaredMatrixInto
  store the squares of the equivalent strain and stress, for the same reason.
  The allocating forms do the same.
- Floating-point rounding, `std::pow` and `double` infinity are not modelled.
  Values are exact reals, and +infinity is the `PosInf` case of `Extended.ExtReal`.
- The OpenMP parallel loops run sequentially in the model. Their iterations
  are independent.
- The xtensor views and adaptors are not modelled. Buffers are Dafny
  multi-dimensional arrays.
- `II`, `I4`, `I4rt`, `I4s`, `I4d`, every `tangent`/`Tangent`, and the matrix's
  unit-tensor accessors are left out. Their bodies are not part of this model.
- The matrix's shape and parameter accessors are not modelled separately:
  `ndim`, `nelem`, `nip`, `type`, `isElastic`, `isPlastic`, `isCusp`,
  `isSmooth`, `K`, `G`. The `nelem`, `nip`, `types` and instance fields expose
  the same information.
- How a Cusp or Smooth point finds its potential, plastic strain, stress and
  energy is not modelled. This includes the `init_elastic` treatment and the
  Smooth potential's shape.
  - `Cartesian3d_Cusp.hpp` and `Cartesian3d_Smooth.hpp` are not part of this model.
  - These maps, and the list of yield strains the point keeps, are the
    `PointLaws.Potential` parameter.
  - The doc comments fix epsy_neg and epsy_pos as entries of the kept list.
    The test facts are the predicate `PointLaws.ReproducesTests`.
- `Cartesian3d_Elastic.hpp` and `Cartesian3d_Matrix.hpp` are not part of this model.
  - The elastic point of the newer API uses the formulas of the older `Elastic` law.
  - The matrix's bodies are modelled from the header's declarations and
    comments and from the tests.
  - Layout choices made here:
    - each selected point gets a new instance appended to the vector of its kind;
    - the uniform set form is the table form with a one-row table;
    - a new instance starts at the zero strain.
- PointLaws.YieldBracket: the header's reading that the equivalent strain
  lies between epsy_neg and epsy_pos is the predicate `PointLaws.Brackets`.
  It is a hypothesis of `YieldBracket`, `ShearBracket`, `TestPointBracket`
  and `MaterialMatrix.Matrix.YieldResponse`, not a derived fact, because
  the search for the index is not visible.
- TensorBatch.DeviatoricListInto and TensorBatch.DeviatoricMatrixInto: also
  require the output to have trailing shape (3, 3). The source asserts only
  that the input's shape is the output's leading dimensions followed by
  (3, 3). An output with smaller trailing dimensions passes that assertion,
  and the 3 x 3 view of item e then writes past that item. The model does
  not capture that out-of-bounds write.
- MaterialMatrix.Matrix.SetStrain: is only modelled once every point has a
  material (`allSet`). What the hidden body does on an Unset point is not visible.
- MaterialMatrix.Matrix.StressInto, MaterialMatrix.Matrix.EnergyInto,
  MaterialMatrix.Matrix.IndexInto and MaterialMatrix.Matrix.EpspInto, together
  with their allocating forms: require `allSet`, for the same reason.
- MaterialMatrix.Matrix.EpsyPosInto and MaterialMatrix.Matrix.EpsyPos: also
  require every Cusp/Smooth point's `index + 1` to lie inside its yield-strain
  list. Reading past the end is undefined in the source.
- MaterialMatrix.Matrix.EpsyNegInto and MaterialMatrix.Matrix.EpsyNeg: likewise
  require `index` to lie inside the list.
- MaterialMatrix.Matrix.SetElasticTable, MaterialMatrix.Matrix.SetCuspTable and
  MaterialMatrix.Matrix.SetSmoothTable: require `idx(e, q)` to address an
  existing table entry at every selected point. An out-of-range `idx` is
  undefined in the source.
- The tests query the matrix with the strain as an argument (`Stress(eps)`).
  The model follows the header: `set_strain` first, then the query.
  `MaterialMatrix.MixedMatrixTest` composes the two.
- The C++ matrix test (rows 1 and 2 both Cusp) is not written out separately.
  `MaterialMatrix.MixedMatrixTest` is stated for any two laws and covers the
  Python variant (row 1 Cusp, row 2 Smooth).
- The Python bindings, `setup.py` and the HDF5 regression script
  `test/compare_versions/Cartesian3d_check_v0.5.0.py` are left out. They are
  packaging and file I/O.
