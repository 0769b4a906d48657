/** The batched forms of the tensor algebra. A "list" is an (n,3,3) buffer
    holding one tensor per entry e; a "matrix" is an (nelem,nip,3,3) buffer
    holding one tensor per element e and integration point q. The "Into"
    methods fill an output buffer owned by the caller, after the caller has
    made its shape agree with the input's; the other methods allocate the
    output and fill it with the "Into" form. */
module TensorBatch {
  import opened Tensor

  /** A buffer of shape (n, 3, 3). */
  predicate IsList(A: array3<real>)
  {
    A.Length1 == 3 && A.Length2 == 3
  }

  /** A buffer of shape (nelem, nip, 3, 3). */
  predicate IsMatrix(A: array4<real>)
  {
    A.Length2 == 3 && A.Length3 == 3
  }

  /** The tensor stored in A[e, :, :]. */
  function Item(A: array3<real>, e: nat): Tensor2
    reads A
    requires IsList(A) && e < A.Length0
  {
    Tensor2(A[e, 0, 0], A[e, 0, 1], A[e, 0, 2],
            A[e, 1, 0], A[e, 1, 1], A[e, 1, 2],
            A[e, 2, 0], A[e, 2, 1], A[e, 2, 2])
  }

  /** The tensor stored in A[e, q, :, :]. */
  function ItemAt(A: array4<real>, e: nat, q: nat): Tensor2
    reads A
    requires IsMatrix(A) && e < A.Length0 && q < A.Length1
  {
    Tensor2(A[e, q, 0, 0], A[e, q, 0, 1], A[e, q, 0, 2],
            A[e, q, 1, 0], A[e, q, 1, 1], A[e, q, 1, 2],
            A[e, q, 2, 0], A[e, q, 2, 1], A[e, q, 2, 2])
  }

  /** Writes T into A[e, :, :] and nothing else. */
  method StoreItem(A: array3<real>, e: nat, T: Tensor2)
    requires IsList(A) && e < A.Length0
    modifies A
    ensures Item(A, e) == T
    ensures forall k, i, j :: 0 <= k < A.Length0 && 0 <= i < 3 && 0 <= j < 3 && k != e ==> A[k, i, j] == old(A[k, i, j])
  {
    A[e, 0, 0], A[e, 0, 1], A[e, 0, 2] := T.xx, T.xy, T.xz;
    A[e, 1, 0], A[e, 1, 1], A[e, 1, 2] := T.yx, T.yy, T.yz;
    A[e, 2, 0], A[e, 2, 1], A[e, 2, 2] := T.zx, T.zy, T.zz;
  }

  /** Writes T into A[e, q, :, :] and nothing else. */
  method StoreItemAt(A: array4<real>, e: nat, q: nat, T: Tensor2)
    requires IsMatrix(A) && e < A.Length0 && q < A.Length1
    modifies A
    ensures ItemAt(A, e, q) == T
    ensures forall k, p, i, j :: 0 <= k < A.Length0 && 0 <= p < A.Length1 && 0 <= i < 3 && 0 <= j < 3 && (k, p) != (e, q) ==> A[k, p, i, j] == old(A[k, p, i, j])
  {
    A[e, q, 0, 0], A[e, q, 0, 1], A[e, q, 0, 2] := T.xx, T.xy, T.xz;
    A[e, q, 1, 0], A[e, q, 1, 1], A[e, q, 1, 2] := T.yx, T.yy, T.yz;
    A[e, q, 2, 0], A[e, q, 2, 1], A[e, q, 2, 2] := T.zx, T.zy, T.zz;
  }

  // ----- list forms -------------------------------------------------------

  /** out[e] := f(A[e]) for every entry e. */
  method ScalarsListInto(A: array3<real>, out: array<real>, f: Tensor2 -> real)
    requires IsList(A) && A.Length0 == out.Length
    modifies out
    ensures forall e :: 0 <= e < out.Length ==> out[e] == f(Item(A, e))
  {
    var e := 0;
    while e < A.Length0
      invariant 0 <= e <= A.Length0
      invariant forall k :: 0 <= k < e ==> out[k] == f(Item(A, k))
    {
      out[e] := f(Item(A, e));
      e := e + 1;
    }
  }

  method HydrostaticListInto(A: array3<real>, Am: array<real>)
    requires IsList(A) && A.Length0 == Am.Length
    modifies Am
    ensures forall e :: 0 <= e < Am.Length ==> Am[e] == Hydrostatic(Item(A, e))
  {
    ScalarsListInto(A, Am, Hydrostatic);
  }

  method EpsdSquaredListInto(A: array3<real>, Aeq: array<real>)
    requires IsList(A) && A.Length0 == Aeq.Length
    modifies Aeq
    ensures forall e :: 0 <= e < Aeq.Length ==> Aeq[e] == EpsdSquared(Item(A, e))
  {
    ScalarsListInto(A, Aeq, EpsdSquared);
  }

  method SigdSquaredListInto(A: array3<real>, Aeq: array<real>)
    requires IsList(A) && A.Length0 == Aeq.Length
    modifies Aeq
    ensures forall e :: 0 <= e < Aeq.Length ==> Aeq[e] == SigdSquared(Item(A, e))
  {
    ScalarsListInto(A, Aeq, SigdSquared);
  }

  /** Ad[e] := Deviatoric(A[e]) for every entry e. A and Ad may be the same
      buffer: every entry is read before it is written. */
  method DeviatoricListInto(A: array3<real>, Ad: array3<real>)
    requires IsList(A) && IsList(Ad) && A.Length0 == Ad.Length0
    modifies Ad
    ensures forall e :: 0 <= e < Ad.Length0 ==> Item(Ad, e) == Deviatoric(old(Item(A, e)))
  {
    var e := 0;
    while e < A.Length0
      invariant 0 <= e <= A.Length0
      invariant forall k :: 0 <= k < e ==> Item(Ad, k) == Deviatoric(old(Item(A, k)))
      invariant forall k :: e <= k < A.Length0 ==> Item(A, k) == old(Item(A, k))
    {
      StoreItem(Ad, e, Deviatoric(Item(A, e)));
      e := e + 1;
    }
  }

  method HydrostaticList(A: array3<real>) returns (Am: array<real>)
    requires IsList(A)
    ensures Am.Length == A.Length0
    ensures forall e :: 0 <= e < Am.Length ==> Am[e] == Hydrostatic(Item(A, e))
  {
    Am := new real[A.Length0];
    HydrostaticListInto(A, Am);
  }

  method EpsdSquaredList(A: array3<real>) returns (Aeq: array<real>)
    requires IsList(A)
    ensures Aeq.Length == A.Length0
    ensures forall e :: 0 <= e < Aeq.Length ==> Aeq[e] == EpsdSquared(Item(A, e))
  {
    Aeq := new real[A.Length0];
    EpsdSquaredListInto(A, Aeq);
  }

  method SigdSquaredList(A: array3<real>) returns (Aeq: array<real>)
    requires IsList(A)
    ensures Aeq.Length == A.Length0
    ensures forall e :: 0 <= e < Aeq.Length ==> Aeq[e] == SigdSquared(Item(A, e))
  {
    Aeq := new real[A.Length0];
    SigdSquaredListInto(A, Aeq);
  }

  method DeviatoricList(A: array3<real>) returns (Ad: array3<real>)
    requires IsList(A)
    ensures IsList(Ad) && Ad.Length0 == A.Length0
    ensures forall e :: 0 <= e < Ad.Length0 ==> Item(Ad, e) == Deviatoric(Item(A, e))
  {
    Ad := new real[A.Length0, 3, 3];
    DeviatoricListInto(A, Ad);
  }

  // ----- matrix forms -----------------------------------------------------

  /** out[e, q] := f(A[e, q]) for every element e and integration point q. */
  method ScalarsMatrixInto(A: array4<real>, out: array2<real>, f: Tensor2 -> real)
    requires IsMatrix(A) && A.Length0 == out.Length0 && A.Length1 == out.Length1
    modifies out
    ensures forall e, q :: 0 <= e < out.Length0 && 0 <= q < out.Length1 ==> out[e, q] == f(ItemAt(A, e, q))
  {
    var e := 0;
    while e < A.Length0
      invariant 0 <= e <= A.Length0
      invariant forall k, p :: 0 <= k < e && 0 <= p < A.Length1 ==> out[k, p] == f(ItemAt(A, k, p))
    {
      var q := 0;
      while q < A.Length1
        invariant 0 <= q <= A.Length1
        invariant forall k, p :: 0 <= k < e && 0 <= p < A.Length1 ==> out[k, p] == f(ItemAt(A, k, p))
        invariant forall p :: 0 <= p < q ==> out[e, p] == f(ItemAt(A, e, p))
      {
        out[e, q] := f(ItemAt(A, e, q));
        q := q + 1;
      }
      e := e + 1;
    }
  }

  method HydrostaticMatrixInto(A: array4<real>, Am: array2<real>)
    requires IsMatrix(A) && A.Length0 == Am.Length0 && A.Length1 == Am.Length1
    modifies Am
    ensures forall e, q :: 0 <= e < Am.Length0 && 0 <= q < Am.Length1 ==> Am[e, q] == Hydrostatic(ItemAt(A, e, q))
  {
    ScalarsMatrixInto(A, Am, Hydrostatic);
  }

  method EpsdSquaredMatrixInto(A: array4<real>, Aeq: array2<real>)
    requires IsMatrix(A) && A.Length0 == Aeq.Length0 && A.Length1 == Aeq.Length1
    modifies Aeq
    ensures forall e, q :: 0 <= e < Aeq.Length0 && 0 <= q < Aeq.Length1 ==> Aeq[e, q] == EpsdSquared(ItemAt(A, e, q))
  {
    ScalarsMatrixInto(A, Aeq, EpsdSquared);
  }

  method SigdSquaredMatrixInto(A: array4<real>, Aeq: array2<real>)
    requires IsMatrix(A) && A.Length0 == Aeq.Length0 && A.Length1 == Aeq.Length1
    modifies Aeq
    ensures forall e, q :: 0 <= e < Aeq.Length0 && 0 <= q < Aeq.Length1 ==> Aeq[e, q] == SigdSquared(ItemAt(A, e, q))
  {
    ScalarsMatrixInto(A, Aeq, SigdSquared);
  }

  /** Ad[e, q] := Deviatoric(A[e, q]) for every point. A and Ad may be the
      same buffer: every point is read before it is written. */
  method DeviatoricMatrixInto(A: array4<real>, Ad: array4<real>)
    requires IsMatrix(A) && IsMatrix(Ad) && A.Length0 == Ad.Length0 && A.Length1 == Ad.Length1
    modifies Ad
    ensures forall e, q :: 0 <= e < Ad.Length0 && 0 <= q < Ad.Length1 ==> ItemAt(Ad, e, q) == Deviatoric(old(ItemAt(A, e, q)))
  {
    var e := 0;
    while e < A.Length0
      invariant 0 <= e <= A.Length0
      invariant forall k, p :: 0 <= k < e && 0 <= p < A.Length1 ==> ItemAt(Ad, k, p) == Deviatoric(old(ItemAt(A, k, p)))
      invariant forall k, p :: e <= k < A.Length0 && 0 <= p < A.Length1 ==> ItemAt(A, k, p) == old(ItemAt(A, k, p))
    {
      var q := 0;
      while q < A.Length1
        invariant 0 <= q <= A.Length1
        invariant forall k, p :: 0 <= k < e && 0 <= p < A.Length1 ==> ItemAt(Ad, k, p) == Deviatoric(old(ItemAt(A, k, p)))
        invariant forall p :: 0 <= p < q ==> ItemAt(Ad, e, p) == Deviatoric(old(ItemAt(A, e, p)))
        invariant forall k, p :: 0 <= k < A.Length0 && 0 <= p < A.Length1 && (e < k || (e == k && q <= p)) ==> ItemAt(A, k, p) == old(ItemAt(A, k, p))
      {
        StoreItemAt(Ad, e, q, Deviatoric(ItemAt(A, e, q)));
        q := q + 1;
      }
      e := e + 1;
    }
  }

  method HydrostaticMatrix(A: array4<real>) returns (Am: array2<real>)
    requires IsMatrix(A)
    ensures Am.Length0 == A.Length0 && Am.Length1 == A.Length1
    ensures forall e, q :: 0 <= e < Am.Length0 && 0 <= q < Am.Length1 ==> Am[e, q] == Hydrostatic(ItemAt(A, e, q))
  {
    Am := new real[A.Length0, A.Length1];
    HydrostaticMatrixInto(A, Am);
  }

  method EpsdSquaredMatrix(A: array4<real>) returns (Aeq: array2<real>)
    requires IsMatrix(A)
    ensures Aeq.Length0 == A.Length0 && Aeq.Length1 == A.Length1
    ensures forall e, q :: 0 <= e < Aeq.Length0 && 0 <= q < Aeq.Length1 ==> Aeq[e, q] == EpsdSquared(ItemAt(A, e, q))
  {
    Aeq := new real[A.Length0, A.Length1];
    EpsdSquaredMatrixInto(A, Aeq);
  }

  method SigdSquaredMatrix(A: array4<real>) returns (Aeq: array2<real>)
    requires IsMatrix(A)
    ensures Aeq.Length0 == A.Length0 && Aeq.Length1 == A.Length1
    ensures forall e, q :: 0 <= e < Aeq.Length0 && 0 <= q < Aeq.Length1 ==> Aeq[e, q] == SigdSquared(ItemAt(A, e, q))
  {
    Aeq := new real[A.Length0, A.Length1];
    SigdSquaredMatrixInto(A, Aeq);
  }

  method DeviatoricMatrix(A: array4<real>) returns (Ad: array4<real>)
    requires IsMatrix(A)
    ensures IsMatrix(Ad) && Ad.Length0 == A.Length0 && Ad.Length1 == A.Length1
    ensures forall e, q :: 0 <= e < Ad.Length0 && 0 <= q < Ad.Length1 ==> ItemAt(Ad, e, q) == Deviatoric(ItemAt(A, e, q))
  {
    Ad := new real[A.Length0, A.Length1, 3, 3];
    DeviatoricMatrixInto(A, Ad);
  }
}
