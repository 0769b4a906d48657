/** GMatElastoPlasticQPot3d::Cartesian3d::Matrix: a batch of nelem x nip
    material points, each of which is Unset or refers to one instance of an
    elastic, a Cusp or a Smooth point. The instances live in three vectors
    that only grow; a type map and an index map say, for every point (e, q),
    which vector holds its instance and where.

    The set calls give a material to the points selected by an indicator
    map I (those with I[e, q] == 1), appending one new instance per selected
    point, and leave the other points as they were. set_strain hands every
    point its strain; the batched queries then read, point by point, the
    response of the instance the point refers to. */
module MaterialMatrix {
  import opened Tensor
  import opened TensorBatch
  import opened Extended
  import opened PointLaws

  /** Outcome of check(): every point has a material, or (the source throws)
      the point found without one. */
  datatype Outcome = Pass | Unassigned(e: nat, q: nat)

  /** Row i of a table: the yield strains the table form gives entry i. */
  function Row(A: array2<real>, i: nat): (r: seq<real>)
    reads A
    requires i < A.Length0
    ensures |r| == A.Length1 && forall j | 0 <= j < A.Length1 :: r[j] == A[i, j]
  {
    seq(A.Length1, j requires 0 <= j < A.Length1 reads A => A[i, j])
  }

  /** A new instance, of one of the three kinds. */
  datatype Instance = ElasticInstance(ep: ElasticPoint) | YieldInstance(yp: YieldPoint)

  /** Whether an instance can be stored as a point of kind t. */
  predicate Fits(t: Type, x: Instance)
  {
    match t
    case Unset => false
    case Elastic => x.ElasticInstance?
    case Cusp => x.YieldInstance?
    case Smooth => x.YieldInstance?
  }

  function Min(a: nat, b: nat): nat
  {
    if a <= b then a else b
  }

  /** The fresh elastic instances of the table form, entry i with moduli
      K[i] and G[i], for every i both tables cover. */
  function ElasticTable(K: seq<real>, G: seq<real>): (r: seq<Instance>)
    ensures |r| == Min(|K|, |G|)
    ensures forall i | 0 <= i < |r| :: r[i] == ElasticInstance(ElasticPoint(K[i], G[i], Zero()))
  {
    seq(Min(|K|, |G|), i requires 0 <= i < Min(|K|, |G|) => ElasticInstance(ElasticPoint(K[i], G[i], Zero())))
  }

  /** The fresh Cusp or Smooth instances of the table form, entry i with
      moduli K[i] and G[i] and yield strains epsy[i, :], for every i all
      three tables cover. */
  function YieldTable(K: seq<real>, G: seq<real>, epsy: array2<real>, initElastic: bool): (r: seq<Instance>)
    reads epsy
    ensures |r| == Min(Min(|K|, |G|), epsy.Length0)
    ensures forall i | 0 <= i < |r| ::
              r[i] == YieldInstance(YieldPoint(YieldParams(K[i], G[i], Row(epsy, i), initElastic), Zero()))
  {
    var n := Min(Min(|K|, |G|), epsy.Length0);
    seq(n, i requires 0 <= i < n reads epsy =>
      YieldInstance(YieldPoint(YieldParams(K[i], G[i], Row(epsy, i), initElastic), Zero())))
  }

  class Matrix {
    const nelem: nat
    const nip: nat
    /** The behaviour of the Cusp points and of the Smooth points. */
    const cuspLaw: Potential
    const smoothLaw: Potential
    /** Material type of every point. */
    const types: array2<Type>
    /** Position of every point's instance in the vector of its type. */
    const index: array2<nat>
    var elastic: seq<ElasticPoint>
    var cusp: seq<YieldPoint>
    var smooth: seq<YieldPoint>
    /** Whether every point had a material at the last set call. */
    var allSet: bool
    /** The point each instance was created for, vector by vector. */
    ghost var elasticOwner: seq<(nat, nat)>
    ghost var cuspOwner: seq<(nat, nat)>
    ghost var smoothOwner: seq<(nat, nat)>

    /** Number of instances of kind t. */
    function Size(t: Type): nat
      reads this
    {
      match t
      case Unset => 0
      case Elastic => |elastic|
      case Cusp => |cusp|
      case Smooth => |smooth|
    }

    /** For every instance of kind t, the point it was created for. */
    ghost function Owner(t: Type): seq<(nat, nat)>
      reads this
    {
      match t
      case Unset => []
      case Elastic => elasticOwner
      case Cusp => cuspOwner
      case Smooth => smoothOwner
    }

    /** The maps have the batch's shape; every assigned point refers to an
        existing instance of its kind that was created for that very point,
        so that no two points share an instance (NoSharedInstance); and
        allSet is only true when every point has a material. */
    ghost predicate Valid()
      reads this, types, index
    {
      && types.Length0 == nelem && types.Length1 == nip
      && index.Length0 == nelem && index.Length1 == nip
      && |elasticOwner| == |elastic| && |cuspOwner| == |cusp| && |smoothOwner| == |smooth|
      && (forall e: nat, q: nat {:trigger types[e, q]} | e < nelem && q < nip && types[e, q] != Unset ::
            index[e, q] < Size(types[e, q]) && Owner(types[e, q])[index[e, q]] == (e, q))
      && (allSet ==> AllAssigned())
    }

    /** Every point has a material. */
    predicate AllAssigned()
      reads this, types
      requires types.Length0 == nelem && types.Length1 == nip
    {
      forall e, q | 0 <= e < nelem && 0 <= q < nip :: types[e, q] != Unset
    }

    /** A batch of nelem x nip points, none of which has a material yet. */
    constructor (nelem: nat, nip: nat, cuspLaw: Potential, smoothLaw: Potential)
      ensures Valid()
      ensures this.nelem == nelem && this.nip == nip
      ensures this.cuspLaw == cuspLaw && this.smoothLaw == smoothLaw
      ensures forall e, q | 0 <= e < nelem && 0 <= q < nip :: types[e, q] == Unset
      ensures elastic == [] && cusp == [] && smooth == [] && !allSet
      ensures fresh(types) && fresh(index)
    {
      this.nelem := nelem;
      this.nip := nip;
      this.cuspLaw := cuspLaw;
      this.smoothLaw := smoothLaw;
      types := new Type[nelem, nip]((e, q) => Unset);
      index := new nat[nelem, nip]((e, q) => 0);
      elastic, cusp, smooth := [], [], [];
      elasticOwner, cuspOwner, smoothOwner := [], [], [];
      allSet := false;
    }

    /** check(): passes exactly when every point has a material, and
        otherwise names a point that has none. */
    method Check() returns (r: Outcome)
      requires Valid()
      ensures r == Pass <==> AllAssigned()
      ensures r.Unassigned? ==> r.e < nelem && r.q < nip && types[r.e, r.q] == Unset
    {
      var e := 0;
      while e < nelem
        invariant 0 <= e <= nelem
        invariant forall e', q | 0 <= e' < e && 0 <= q < nip :: types[e', q] != Unset
      {
        var q := 0;
        while q < nip
          invariant 0 <= q <= nip
          invariant forall q' | 0 <= q' < q :: types[e, q'] != Unset
        {
          if types[e, q] == Unset {
            return Unassigned(e, q);
          }
          q := q + 1;
        }
        e := e + 1;
      }
      return Pass;
    }

    /** checkAllSet(): records whether every point has a material. */
    method CheckAllSet()
      requires Valid()
      modifies this`allSet
      ensures Valid() && allSet == AllAssigned()
    {
      var r := Check();
      allSet := r == Pass;
    }


    /** The instance point (e, q) refers to. */
    function InstanceAt(e: nat, q: nat): Instance
      reads this, types, index
      requires Valid() && e < nelem && q < nip && types[e, q] != Unset
    {
      if types[e, q] == Elastic then ElasticInstance(elastic[index[e, q]])
      else if types[e, q] == Cusp then YieldInstance(cusp[index[e, q]])
      else YieldInstance(smooth[index[e, q]])
    }

    /** The vectors extend e0, c0 and s0, and only the one of kind t may have
        grown. */
    ghost predicate Extends(t: Type, e0: seq<ElasticPoint>, c0: seq<YieldPoint>, s0: seq<YieldPoint>)
      reads this
    {
      && e0 <= elastic && c0 <= cusp && s0 <= smooth
      && (t != Elastic ==> elastic == e0)
      && (t != Cusp ==> cusp == c0)
      && (t != Smooth ==> smooth == s0)
    }

    /** Point (e, q) gets kind t and the new instance x, appended to the
        vector of kind t; nothing else changes. */
    method Place(e: nat, q: nat, t: Type, x: Instance)
      requires Valid() && e < nelem && q < nip && Fits(t, x)
      modifies this`elastic, this`cusp, this`smooth, this`elasticOwner, this`cuspOwner, this`smoothOwner, types, index
      ensures Valid()
      ensures types[e, q] == t && InstanceAt(e, q) == x
      ensures Extends(t, old(elastic), old(cusp), old(smooth))
      ensures forall e', q' | 0 <= e' < nelem && 0 <= q' < nip && (e' != e || q' != q) ::
                types[e', q'] == old(types[e', q']) && index[e', q'] == old(index[e', q'])
      ensures forall e', q' | 0 <= e' < nelem && 0 <= q' < nip && (e' != e || q' != q) && types[e', q'] != Unset ::
                InstanceAt(e', q') == old(InstanceAt(e', q'))
    {
      if t == Elastic {
        PlaceElastic(e, q, x.ep);
      } else if t == Cusp {
        PlaceCusp(e, q, x.yp);
      } else {
        PlaceSmooth(e, q, x.yp);
      }
    }

    /** Place for a new elastic instance p. */
    method PlaceElastic(e: nat, q: nat, p: ElasticPoint)
      requires Valid() && e < nelem && q < nip
      modifies this`elastic, this`cusp, this`smooth, this`elasticOwner, this`cuspOwner, this`smoothOwner, types, index
      ensures Valid()
      ensures types[e, q] == Elastic && InstanceAt(e, q) == ElasticInstance(p)
      ensures Extends(Elastic, old(elastic), old(cusp), old(smooth))
      ensures forall e', q' | 0 <= e' < nelem && 0 <= q' < nip && (e' != e || q' != q) ::
                types[e', q'] == old(types[e', q']) && index[e', q'] == old(index[e', q'])
      ensures forall e', q' | 0 <= e' < nelem && 0 <= q' < nip && (e' != e || q' != q) && types[e', q'] != Unset ::
                InstanceAt(e', q') == old(InstanceAt(e', q'))
    {
      types[e, q] := Elastic;
      index[e, q] := |elastic|;
      elastic, elasticOwner := elastic + [p], elasticOwner + [(e, q)];
      forall e', q' | 0 <= e' < nelem && 0 <= q' < nip && types[e', q'] != Unset
        ensures index[e', q'] < Size(types[e', q']) && Owner(types[e', q'])[index[e', q']] == (e', q')
      {
        if e' != e || q' != q {
          assert old(index[e', q'] < Size(types[e', q']) && Owner(types[e', q'])[index[e', q']] == (e', q'));
        }
      }
      if allSet {
        forall e', q' | 0 <= e' < nelem && 0 <= q' < nip
          ensures types[e', q'] != Unset
        {
          if e' != e || q' != q {
            assert old(types[e', q'] != Unset);
          }
        }
      }
    }

    /** Place for a new Cusp instance p. */
    method PlaceCusp(e: nat, q: nat, p: YieldPoint)
      requires Valid() && e < nelem && q < nip
      modifies this`elastic, this`cusp, this`smooth, this`elasticOwner, this`cuspOwner, this`smoothOwner, types, index
      ensures Valid()
      ensures types[e, q] == Cusp && InstanceAt(e, q) == YieldInstance(p)
      ensures Extends(Cusp, old(elastic), old(cusp), old(smooth))
      ensures forall e', q' | 0 <= e' < nelem && 0 <= q' < nip && (e' != e || q' != q) ::
                types[e', q'] == old(types[e', q']) && index[e', q'] == old(index[e', q'])
      ensures forall e', q' | 0 <= e' < nelem && 0 <= q' < nip && (e' != e || q' != q) && types[e', q'] != Unset ::
                InstanceAt(e', q') == old(InstanceAt(e', q'))
    {
      types[e, q] := Cusp;
      index[e, q] := |cusp|;
      cusp, cuspOwner := cusp + [p], cuspOwner + [(e, q)];
      forall e', q' | 0 <= e' < nelem && 0 <= q' < nip && types[e', q'] != Unset
        ensures index[e', q'] < Size(types[e', q']) && Owner(types[e', q'])[index[e', q']] == (e', q')
      {
        if e' != e || q' != q {
          assert old(index[e', q'] < Size(types[e', q']) && Owner(types[e', q'])[index[e', q']] == (e', q'));
        }
      }
      if allSet {
        forall e', q' | 0 <= e' < nelem && 0 <= q' < nip
          ensures types[e', q'] != Unset
        {
          if e' != e || q' != q {
            assert old(types[e', q'] != Unset);
          }
        }
      }
    }

    /** Place for a new Smooth instance p. */
    method PlaceSmooth(e: nat, q: nat, p: YieldPoint)
      requires Valid() && e < nelem && q < nip
      modifies this`elastic, this`cusp, this`smooth, this`elasticOwner, this`cuspOwner, this`smoothOwner, types, index
      ensures Valid()
      ensures types[e, q] == Smooth && InstanceAt(e, q) == YieldInstance(p)
      ensures Extends(Smooth, old(elastic), old(cusp), old(smooth))
      ensures forall e', q' | 0 <= e' < nelem && 0 <= q' < nip && (e' != e || q' != q) ::
                types[e', q'] == old(types[e', q']) && index[e', q'] == old(index[e', q'])
      ensures forall e', q' | 0 <= e' < nelem && 0 <= q' < nip && (e' != e || q' != q) && types[e', q'] != Unset ::
                InstanceAt(e', q') == old(InstanceAt(e', q'))
    {
      types[e, q] := Smooth;
      index[e, q] := |smooth|;
      smooth, smoothOwner := smooth + [p], smoothOwner + [(e, q)];
      forall e', q' | 0 <= e' < nelem && 0 <= q' < nip && types[e', q'] != Unset
        ensures index[e', q'] < Size(types[e', q']) && Owner(types[e', q'])[index[e', q']] == (e', q')
      {
        if e' != e || q' != q {
          assert old(index[e', q'] < Size(types[e', q']) && Owner(types[e', q'])[index[e', q']] == (e', q'));
        }
      }
      if allSet {
        forall e', q' | 0 <= e' < nelem && 0 <= q' < nip
          ensures types[e', q'] != Unset
        {
          if e' != e || q' != q {
            assert old(types[e', q'] != Unset);
          }
        }
      }
    }

    /** Every selected point before (e, q), in row-major order, has kind t
        and refers to a new instance equal to table[idx[e', q']]. */
    ghost predicate Placed(I: array2<nat>, idx: array2<nat>, t: Type, table: seq<Instance>, e: nat, q: nat)
      reads this, types, index, I, idx
      requires Valid()
      requires I.Length0 == nelem && I.Length1 == nip && idx.Length0 == nelem && idx.Length1 == nip
    {
      && t != Unset
      && forall e': nat, q': nat {:trigger types[e', q']} |
           e' < nelem && q' < nip && (e' < e || (e' == e && q' < q)) && I[e', q'] == 1 ::
           types[e', q'] == t && idx[e', q'] < |table| && InstanceAt(e', q') == table[idx[e', q']]
    }

    /** The set calls' precondition on the table: it holds instances of kind
        t and covers every selected point. */
    ghost predicate TableCovers(I: array2<nat>, idx: array2<nat>, t: Type, table: seq<Instance>)
      reads I, idx
      requires I.Length0 == nelem && I.Length1 == nip && idx.Length0 == nelem && idx.Length1 == nip
    {
      && (forall k | 0 <= k < |table| :: Fits(t, table[k]))
      && (forall e, q | 0 <= e < nelem && 0 <= q < nip && I[e, q] == 1 :: idx[e, q] < |table|)
    }

    /** One step of the set loop: point (e, q). */
    method PlaceStep(I: array2<nat>, idx: array2<nat>, t: Type, table: seq<Instance>, e: nat, q: nat)
      requires Valid() && e < nelem && q < nip
      requires I.Length0 == nelem && I.Length1 == nip && I != index
      requires idx.Length0 == nelem && idx.Length1 == nip && idx != index
      requires TableCovers(I, idx, t, table)
      requires Placed(I, idx, t, table, e, q)
      modifies this`elastic, this`cusp, this`smooth, this`elasticOwner, this`cuspOwner, this`smoothOwner, types, index
      ensures Valid()
      ensures Placed(I, idx, t, table, e, q + 1)
      ensures Extends(t, old(elastic), old(cusp), old(smooth))
      ensures forall e', q' | 0 <= e' < nelem && 0 <= q' < nip && (e' != e || q' != q || I[e', q'] != 1) ::
                types[e', q'] == old(types[e', q']) && index[e', q'] == old(index[e', q'])
    {
      if I[e, q] == 1 {
        Place(e, q, t, table[idx[e, q]]);
        forall e': nat, q': nat | e' < nelem && q' < nip && (e' < e || (e' == e && q' < q + 1)) && I[e', q'] == 1
          ensures types[e', q'] == t && idx[e', q'] < |table| && InstanceAt(e', q') == table[idx[e', q']]
        {
          if e' != e || q' != q {
            assert old(types[e', q'] == t && InstanceAt(e', q') == table[idx[e', q']]);
          }
        }
      }
    }
    /** The set loop over row e. */
    method PlaceRow(I: array2<nat>, idx: array2<nat>, t: Type, table: seq<Instance>, e: nat)
      requires Valid() && e < nelem
      requires I.Length0 == nelem && I.Length1 == nip && I != index
      requires idx.Length0 == nelem && idx.Length1 == nip && idx != index
      requires TableCovers(I, idx, t, table)
      requires Placed(I, idx, t, table, e, 0)
      modifies this`elastic, this`cusp, this`smooth, this`elasticOwner, this`cuspOwner, this`smoothOwner, types, index
      ensures Valid()
      ensures Placed(I, idx, t, table, e + 1, 0)
      ensures Extends(t, old(elastic), old(cusp), old(smooth))
      ensures forall e', q' | 0 <= e' < nelem && 0 <= q' < nip && I[e', q'] != 1 ::
                types[e', q'] == old(types[e', q']) && index[e', q'] == old(index[e', q'])
    {
      var q := 0;
      while q < nip
        invariant 0 <= q <= nip
        invariant Valid()
        invariant Placed(I, idx, t, table, e, q)
        invariant Extends(t, old(elastic), old(cusp), old(smooth))
        invariant forall e', q' | 0 <= e' < nelem && 0 <= q' < nip && I[e', q'] != 1 ::
                    types[e', q'] == old(types[e', q']) && index[e', q'] == old(index[e', q'])
      {
        PlaceStep(I, idx, t, table, e, q);
        q := q + 1;
      }
      NextRow(I, idx, t, table, e);
    }

    /** Having placed up to the end of row e is having placed up to the start
        of row e + 1. */
    lemma NextRow(I: array2<nat>, idx: array2<nat>, t: Type, table: seq<Instance>, e: nat)
      requires Valid()
      requires I.Length0 == nelem && I.Length1 == nip && idx.Length0 == nelem && idx.Length1 == nip
      requires Placed(I, idx, t, table, e, nip)
      ensures Placed(I, idx, t, table, e + 1, 0)
    {
      forall e': nat, q': nat | e' < nelem && q' < nip && e' < e + 1 && I[e', q'] == 1
        ensures types[e', q'] == t && idx[e', q'] < |table| && InstanceAt(e', q') == table[idx[e', q']]
      {
        assert e' < e || (e' == e && q' < nip);
      }
    }

    /** The set loop: every selected point, in row-major order, gets kind t
        and a new instance equal to table[idx[e, q]]; the other points keep
        their entries. */
    method PlaceAll(I: array2<nat>, idx: array2<nat>, t: Type, table: seq<Instance>)
      requires Valid() && t != Unset
      requires I.Length0 == nelem && I.Length1 == nip && I != index
      requires idx.Length0 == nelem && idx.Length1 == nip && idx != index
      requires TableCovers(I, idx, t, table)
      modifies this`elastic, this`cusp, this`smooth, this`elasticOwner, this`cuspOwner, this`smoothOwner, types, index
      ensures Valid()
      ensures Placed(I, idx, t, table, nelem, 0)
      ensures Extends(t, old(elastic), old(cusp), old(smooth))
      ensures forall e, q | 0 <= e < nelem && 0 <= q < nip && I[e, q] != 1 ::
                types[e, q] == old(types[e, q]) && index[e, q] == old(index[e, q])
    {
      var e := 0;
      while e < nelem
        invariant 0 <= e <= nelem
        invariant Valid()
        invariant Placed(I, idx, t, table, e, 0)
        invariant Extends(t, old(elastic), old(cusp), old(smooth))
        invariant forall e', q' | 0 <= e' < nelem && 0 <= q' < nip && I[e', q'] != 1 ::
                    types[e', q'] == old(types[e', q']) && index[e', q'] == old(index[e', q'])
      {
        PlaceRow(I, idx, t, table, e);
        e := e + 1;
      }
    }
    /** setElastic(I, idx, K, G): every point with I[e, q] == 1 becomes a
        new elastic instance with moduli K[idx[e, q]] and G[idx[e, q]]; every
        other point keeps its material. */
    method SetElasticTable(I: array2<nat>, idx: array2<nat>, K: seq<real>, G: seq<real>)
      requires Valid()
      requires I.Length0 == nelem && I.Length1 == nip && I != index
      requires idx.Length0 == nelem && idx.Length1 == nip && idx != index
      requires forall e, q | 0 <= e < nelem && 0 <= q < nip && I[e, q] == 1 :: idx[e, q] < |K| && idx[e, q] < |G|
      modifies this, types, index
      ensures Valid()
      ensures forall e, q | 0 <= e < nelem && 0 <= q < nip && I[e, q] == 1 ::
                types[e, q] == Elastic && elastic[index[e, q]] == ElasticPoint(K[idx[e, q]], G[idx[e, q]], Zero())
      ensures forall e, q | 0 <= e < nelem && 0 <= q < nip && I[e, q] != 1 ::
                types[e, q] == old(types[e, q]) && index[e, q] == old(index[e, q])
      ensures old(elastic) <= elastic && cusp == old(cusp) && smooth == old(smooth)
      ensures allSet == AllAssigned()
    {
      var table := ElasticTable(K, G);
      PlaceAll(I, idx, Elastic, table);
      forall e, q | 0 <= e < nelem && 0 <= q < nip && I[e, q] == 1
        ensures types[e, q] == Elastic && elastic[index[e, q]] == ElasticPoint(K[idx[e, q]], G[idx[e, q]], Zero())
      {
        assert types[e, q] == Elastic && InstanceAt(e, q) == table[idx[e, q]];
      }
      CheckAllSet();
    }

    /** setElastic(I, K, G): every point with I[e, q] == 1 becomes a new
        elastic instance with moduli K and G; every other point keeps its
        material. */
    method SetElastic(I: array2<nat>, K: real, G: real)
      requires Valid()
      requires I.Length0 == nelem && I.Length1 == nip && I != index
      modifies this, types, index
      ensures Valid()
      ensures forall e, q | 0 <= e < nelem && 0 <= q < nip && I[e, q] == 1 ::
                types[e, q] == Elastic && elastic[index[e, q]] == ElasticPoint(K, G, Zero())
      ensures forall e, q | 0 <= e < nelem && 0 <= q < nip && I[e, q] != 1 ::
                types[e, q] == old(types[e, q]) && index[e, q] == old(index[e, q])
      ensures old(elastic) <= elastic && cusp == old(cusp) && smooth == old(smooth)
      ensures allSet == AllAssigned()
    {
      var idx := new nat[nelem, nip]((e, q) => 0);
      SetElasticTable(I, idx, [K], [G]);
    }

    /** setCusp(I, idx, K, G, epsy, init_elastic): every point with
        I[e, q] == 1 becomes a new Cusp instance with moduli K[idx[e, q]] and
        G[idx[e, q]] and yield strains epsy[idx[e, q], :]; every other point
        keeps its material. */
    method SetCuspTable(I: array2<nat>, idx: array2<nat>, K: seq<real>, G: seq<real>, epsy: array2<real>,
                        initElastic: bool := true)
      requires Valid()
      requires I.Length0 == nelem && I.Length1 == nip && I != index
      requires idx.Length0 == nelem && idx.Length1 == nip && idx != index
      requires forall e, q | 0 <= e < nelem && 0 <= q < nip && I[e, q] == 1 ::
                 idx[e, q] < |K| && idx[e, q] < |G| && idx[e, q] < epsy.Length0
      modifies this, types, index
      ensures Valid()
      ensures forall e, q | 0 <= e < nelem && 0 <= q < nip && I[e, q] == 1 ::
                types[e, q] == Cusp
                && cusp[index[e, q]] == YieldPoint(YieldParams(K[idx[e, q]], G[idx[e, q]], Row(epsy, idx[e, q]), initElastic), Zero())
      ensures forall e, q | 0 <= e < nelem && 0 <= q < nip && I[e, q] != 1 ::
                types[e, q] == old(types[e, q]) && index[e, q] == old(index[e, q])
      ensures old(cusp) <= cusp && elastic == old(elastic) && smooth == old(smooth)
      ensures allSet == AllAssigned()
    {
      var table := YieldTable(K, G, epsy, initElastic);
      PlaceAll(I, idx, Cusp, table);
      forall e, q | 0 <= e < nelem && 0 <= q < nip && I[e, q] == 1
        ensures types[e, q] == Cusp
                && cusp[index[e, q]] == YieldPoint(YieldParams(K[idx[e, q]], G[idx[e, q]], Row(epsy, idx[e, q]), initElastic), Zero())
      {
        assert types[e, q] == Cusp && InstanceAt(e, q) == table[idx[e, q]];
      }
      CheckAllSet();
    }

    /** setCusp(I, K, G, epsy, init_elastic): every point with I[e, q] == 1
        becomes a new Cusp instance with moduli K and G and yield strains
        epsy; every other point keeps its material. */
    method SetCusp(I: array2<nat>, K: real, G: real, epsy: seq<real>, initElastic: bool := true)
      requires Valid()
      requires I.Length0 == nelem && I.Length1 == nip && I != index
      modifies this, types, index
      ensures Valid()
      ensures forall e, q | 0 <= e < nelem && 0 <= q < nip && I[e, q] == 1 ::
                types[e, q] == Cusp && cusp[index[e, q]] == YieldPoint(YieldParams(K, G, epsy, initElastic), Zero())
      ensures forall e, q | 0 <= e < nelem && 0 <= q < nip && I[e, q] != 1 ::
                types[e, q] == old(types[e, q]) && index[e, q] == old(index[e, q])
      ensures old(cusp) <= cusp && elastic == old(elastic) && smooth == old(smooth)
      ensures allSet == AllAssigned()
    {
      var idx := new nat[nelem, nip]((e, q) => 0);
      var table := new real[1, |epsy|]((i, j) requires 0 <= j < |epsy| => epsy[j]);
      assert Row(table, 0) == epsy;
      SetCuspTable(I, idx, [K], [G], table, initElastic);
    }

    /** setSmooth(I, idx, K, G, epsy, init_elastic): as SetCuspTable, with
        Smooth instances. */
    method SetSmoothTable(I: array2<nat>, idx: array2<nat>, K: seq<real>, G: seq<real>, epsy: array2<real>,
                          initElastic: bool := true)
      requires Valid()
      requires I.Length0 == nelem && I.Length1 == nip && I != index
      requires idx.Length0 == nelem && idx.Length1 == nip && idx != index
      requires forall e, q | 0 <= e < nelem && 0 <= q < nip && I[e, q] == 1 ::
                 idx[e, q] < |K| && idx[e, q] < |G| && idx[e, q] < epsy.Length0
      modifies this, types, index
      ensures Valid()
      ensures forall e, q | 0 <= e < nelem && 0 <= q < nip && I[e, q] == 1 ::
                types[e, q] == Smooth
                && smooth[index[e, q]] == YieldPoint(YieldParams(K[idx[e, q]], G[idx[e, q]], Row(epsy, idx[e, q]), initElastic), Zero())
      ensures forall e, q | 0 <= e < nelem && 0 <= q < nip && I[e, q] != 1 ::
                types[e, q] == old(types[e, q]) && index[e, q] == old(index[e, q])
      ensures old(smooth) <= smooth && elastic == old(elastic) && cusp == old(cusp)
      ensures allSet == AllAssigned()
    {
      var table := YieldTable(K, G, epsy, initElastic);
      PlaceAll(I, idx, Smooth, table);
      forall e, q | 0 <= e < nelem && 0 <= q < nip && I[e, q] == 1
        ensures types[e, q] == Smooth
                && smooth[index[e, q]] == YieldPoint(YieldParams(K[idx[e, q]], G[idx[e, q]], Row(epsy, idx[e, q]), initElastic), Zero())
      {
        assert types[e, q] == Smooth && InstanceAt(e, q) == table[idx[e, q]];
      }
      CheckAllSet();
    }

    /** setSmooth(I, K, G, epsy, init_elastic): as SetCusp, with Smooth
        instances. */
    method SetSmooth(I: array2<nat>, K: real, G: real, epsy: seq<real>, initElastic: bool := true)
      requires Valid()
      requires I.Length0 == nelem && I.Length1 == nip && I != index
      modifies this, types, index
      ensures Valid()
      ensures forall e, q | 0 <= e < nelem && 0 <= q < nip && I[e, q] == 1 ::
                types[e, q] == Smooth && smooth[index[e, q]] == YieldPoint(YieldParams(K, G, epsy, initElastic), Zero())
      ensures forall e, q | 0 <= e < nelem && 0 <= q < nip && I[e, q] != 1 ::
                types[e, q] == old(types[e, q]) && index[e, q] == old(index[e, q])
      ensures old(smooth) <= smooth && elastic == old(elastic) && cusp == old(cusp)
      ensures allSet == AllAssigned()
    {
      var idx := new nat[nelem, nip]((e, q) => 0);
      var table := new real[1, |epsy|]((i, j) requires 0 <= j < |epsy| => epsy[j]);
      assert Row(table, 0) == epsy;
      SetSmoothTable(I, idx, [K], [G], table, initElastic);
    }
    /** The vectors hold as many instances as e0, c0 and s0, with the same
        parameters: only strains may differ. */
    ghost predicate SameParams(e0: seq<ElasticPoint>, c0: seq<YieldPoint>, s0: seq<YieldPoint>)
      reads this
    {
      && |elastic| == |e0| && |cusp| == |c0| && |smooth| == |s0|
      && (forall i | 0 <= i < |elastic| :: elastic[i].K == e0[i].K && elastic[i].G == e0[i].G)
      && (forall i | 0 <= i < |cusp| :: cusp[i].params == c0[i].params)
      && (forall i | 0 <= i < |smooth| :: smooth[i].params == s0[i].params)
    }

    /** The current strain of point (e, q). */
    function StrainAt(e: nat, q: nat): Tensor2
      reads this, types, index
      requires Valid() && e < nelem && q < nip && types[e, q] != Unset
    {
      if types[e, q] == Elastic then elastic[index[e, q]].Eps
      else if types[e, q] == Cusp then cusp[index[e, q]].Eps
      else smooth[index[e, q]].Eps
    }

    /** set_strain on point (e, q) alone. */
    method SetPointStrain(e: nat, q: nat, E: Tensor2)
      requires Valid() && allSet && e < nelem && q < nip
      modifies this`elastic, this`cusp, this`smooth
      ensures Valid()
      ensures SameParams(old(elastic), old(cusp), old(smooth))
      ensures StrainAt(e, q) == E
      ensures forall e', q' | 0 <= e' < nelem && 0 <= q' < nip && (e' != e || q' != q) ::
                StrainAt(e', q') == old(StrainAt(e', q'))
    {
      assert types[e, q] != Unset;
      if types[e, q] == Elastic {
        SetElasticStrain(e, q, E);
      } else if types[e, q] == Cusp {
        SetCuspStrain(e, q, E);
      } else {
        SetSmoothStrain(e, q, E);
      }
    }

    /** SetPointStrain for a elastic point. */
    method SetElasticStrain(e: nat, q: nat, E: Tensor2)
      requires Valid() && allSet && e < nelem && q < nip && types[e, q] == Elastic
      modifies this`elastic, this`cusp, this`smooth
      ensures Valid()
      ensures SameParams(old(elastic), old(cusp), old(smooth))
      ensures StrainAt(e, q) == E
      ensures forall e', q' | 0 <= e' < nelem && 0 <= q' < nip && (e' != e || q' != q) ::
                StrainAt(e', q') == old(StrainAt(e', q'))
    {
      var i := index[e, q];
      elastic := elastic[i := elastic[i].SetStrain(E)];
      forall e', q' | 0 <= e' < nelem && 0 <= q' < nip && (e' != e || q' != q)
        ensures StrainAt(e', q') == old(StrainAt(e', q'))
      {
        assert types[e', q'] != Unset;
        assert old(Owner(types[e', q'])[index[e', q']]) == (e', q');
      }
    }

    /** SetPointStrain for a cusp point. */
    method SetCuspStrain(e: nat, q: nat, E: Tensor2)
      requires Valid() && allSet && e < nelem && q < nip && types[e, q] == Cusp
      modifies this`elastic, this`cusp, this`smooth
      ensures Valid()
      ensures SameParams(old(elastic), old(cusp), old(smooth))
      ensures StrainAt(e, q) == E
      ensures forall e', q' | 0 <= e' < nelem && 0 <= q' < nip && (e' != e || q' != q) ::
                StrainAt(e', q') == old(StrainAt(e', q'))
    {
      var i := index[e, q];
      cusp := cusp[i := cusp[i].SetStrain(E)];
      forall e', q' | 0 <= e' < nelem && 0 <= q' < nip && (e' != e || q' != q)
        ensures StrainAt(e', q') == old(StrainAt(e', q'))
      {
        assert types[e', q'] != Unset;
        assert old(Owner(types[e', q'])[index[e', q']]) == (e', q');
      }
    }

    /** SetPointStrain for a smooth point. */
    method SetSmoothStrain(e: nat, q: nat, E: Tensor2)
      requires Valid() && allSet && e < nelem && q < nip && types[e, q] == Smooth
      modifies this`elastic, this`cusp, this`smooth
      ensures Valid()
      ensures SameParams(old(elastic), old(cusp), old(smooth))
      ensures StrainAt(e, q) == E
      ensures forall e', q' | 0 <= e' < nelem && 0 <= q' < nip && (e' != e || q' != q) ::
                StrainAt(e', q') == old(StrainAt(e', q'))
    {
      var i := index[e, q];
      smooth := smooth[i := smooth[i].SetStrain(E)];
      forall e', q' | 0 <= e' < nelem && 0 <= q' < nip && (e' != e || q' != q)
        ensures StrainAt(e', q') == old(StrainAt(e', q'))
      {
        assert types[e', q'] != Unset;
        assert old(Owner(types[e', q'])[index[e', q']]) == (e', q');
      }
    }

    /** set_strain over row e. */
    method SetRowStrain(Eps: array4<real>, e: nat)
      requires Valid() && allSet && e < nelem
      requires IsMatrix(Eps) && Eps.Length0 == nelem && Eps.Length1 == nip
      requires forall e', q' | 0 <= e' < e && 0 <= q' < nip :: StrainAt(e', q') == ItemAt(Eps, e', q')
      modifies this`elastic, this`cusp, this`smooth
      ensures Valid()
      ensures SameParams(old(elastic), old(cusp), old(smooth))
      ensures forall e', q' | 0 <= e' <= e && 0 <= q' < nip :: StrainAt(e', q') == ItemAt(Eps, e', q')
    {
      var q := 0;
      while q < nip
        invariant 0 <= q <= nip
        invariant Valid()
        invariant SameParams(old(elastic), old(cusp), old(smooth))
        invariant forall e', q' | 0 <= e' < e && 0 <= q' < nip :: StrainAt(e', q') == ItemAt(Eps, e', q')
        invariant forall q' | 0 <= q' < q :: StrainAt(e, q') == ItemAt(Eps, e, q')
      {
        SetPointStrain(e, q, ItemAt(Eps, e, q));
        q := q + 1;
      }
    }

    /** set_strain(Eps): every point's strain becomes Eps[e, q]; the
        materials and their parameters stay. */
    method SetStrain(Eps: array4<real>)
      requires Valid() && allSet
      requires IsMatrix(Eps) && Eps.Length0 == nelem && Eps.Length1 == nip
      modifies this`elastic, this`cusp, this`smooth
      ensures Valid()
      ensures SameParams(old(elastic), old(cusp), old(smooth))
      ensures forall e, q | 0 <= e < nelem && 0 <= q < nip :: StrainAt(e, q) == ItemAt(Eps, e, q)
    {
      var e := 0;
      while e < nelem
        invariant 0 <= e <= nelem
        invariant Valid()
        invariant SameParams(old(elastic), old(cusp), old(smooth))
        invariant forall e', q' | 0 <= e' < e && 0 <= q' < nip :: StrainAt(e', q') == ItemAt(Eps, e', q')
      {
        SetRowStrain(Eps, e);
        e := e + 1;
      }
    }
    /** The instance of a Cusp or Smooth point, and the law of its kind. */
    function YieldAt(e: nat, q: nat): (YieldPoint, Potential)
      reads this, types, index
      requires Valid() && e < nelem && q < nip && (types[e, q] == Cusp || types[e, q] == Smooth)
    {
      if types[e, q] == Cusp then (cusp[index[e, q]], cuspLaw) else (smooth[index[e, q]], smoothLaw)
    }

    /** The stress of point (e, q) at its current strain. */
    function StressAt(e: nat, q: nat): Tensor2
      reads this, types, index
      requires Valid() && e < nelem && q < nip && types[e, q] != Unset
    {
      if types[e, q] == Elastic then elastic[index[e, q]].Stress()
      else var (p, law) := YieldAt(e, q); p.Stress(law)
    }

    /** The energy of point (e, q) at its current strain. */
    function EnergyAt(e: nat, q: nat): real
      reads this, types, index
      requires Valid() && e < nelem && q < nip && types[e, q] != Unset
    {
      if types[e, q] == Elastic then elastic[index[e, q]].Energy()
      else var (p, law) := YieldAt(e, q); p.Energy(law)
    }

    /** The index of the current potential of point (e, q); an elastic
        point has the single potential 0. */
    function IndexAt(e: nat, q: nat): nat
      reads this, types, index
      requires Valid() && e < nelem && q < nip && types[e, q] != Unset
    {
      if types[e, q] == Elastic then 0
      else var (p, law) := YieldAt(e, q); p.Index(law)
    }

    /** The plastic strain of point (e, q); an elastic point has none. */
    function EpspAt(e: nat, q: nat): real
      reads this, types, index
      requires Valid() && e < nelem && q < nip && types[e, q] != Unset
    {
      if types[e, q] == Elastic then 0.0
      else var (p, law) := YieldAt(e, q); p.Epsp(law)
    }

    /** Point (e, q) has a yield strain epsy[index] below its current
        potential (elastic points always do, at infinity). */
    predicate HasEpsyNeg(e: nat, q: nat)
      reads this, types, index
      requires Valid() && e < nelem && q < nip && types[e, q] != Unset
    {
      types[e, q] == Elastic || var (p, law) := YieldAt(e, q); p.Index(law) < |p.Epsy(law)|
    }

    /** Point (e, q) has a yield strain epsy[index + 1] above its current
        potential (elastic points always do, at infinity). */
    predicate HasEpsyPos(e: nat, q: nat)
      reads this, types, index
      requires Valid() && e < nelem && q < nip && types[e, q] != Unset
    {
      types[e, q] == Elastic || var (p, law) := YieldAt(e, q); p.Index(law) + 1 < |p.Epsy(law)|
    }

    /** The yield strain point (e, q) reaches when its equivalent strain
        decreases. */
    function EpsyNegAt(e: nat, q: nat): ExtReal
      reads this, types, index
      requires Valid() && e < nelem && q < nip && types[e, q] != Unset && HasEpsyNeg(e, q)
    {
      if types[e, q] == Elastic then PosInf
      else var (p, law) := YieldAt(e, q); Finite(p.EpsyNeg(law))
    }

    /** The yield strain point (e, q) reaches when its equivalent strain
        increases. */
    function EpsyPosAt(e: nat, q: nat): ExtReal
      reads this, types, index
      requires Valid() && e < nelem && q < nip && types[e, q] != Unset && HasEpsyPos(e, q)
    {
      if types[e, q] == Elastic then PosInf
      else var (p, law) := YieldAt(e, q); Finite(p.EpsyPos(law))
    }
    /** stress(Sig): Sig[e, q] is the stress of point (e, q). */
    method StressInto(Sig: array4<real>)
      requires Valid() && allSet && IsMatrix(Sig) && Sig.Length0 == nelem && Sig.Length1 == nip
      modifies Sig
      ensures forall e, q | 0 <= e < nelem && 0 <= q < nip :: ItemAt(Sig, e, q) == StressAt(e, q)
    {
      var e := 0;
      while e < nelem
        invariant 0 <= e <= nelem
        invariant forall e', q' | 0 <= e' < e && 0 <= q' < nip :: ItemAt(Sig, e', q') == StressAt(e', q')
      {
        StressRow(Sig, e);
        e := e + 1;
      }
    }

    /** The stress of row e into Sig[e, :]. */
    method StressRow(Sig: array4<real>, e: nat)
      requires Valid() && allSet && e < nelem && IsMatrix(Sig) && Sig.Length0 == nelem && Sig.Length1 == nip
      modifies Sig
      ensures forall q' | 0 <= q' < nip :: ItemAt(Sig, e, q') == StressAt(e, q')
      ensures forall e', q' | 0 <= e' < nelem && 0 <= q' < nip && e' != e :: ItemAt(Sig, e', q') == old(ItemAt(Sig, e', q'))
    {
      var q := 0;
      while q < nip
        invariant 0 <= q <= nip
        invariant forall q' | 0 <= q' < q :: ItemAt(Sig, e, q') == StressAt(e, q')
        invariant forall e', q' | 0 <= e' < nelem && 0 <= q' < nip && e' != e :: ItemAt(Sig, e', q') == old(ItemAt(Sig, e', q'))
      {
        StoreItemAt(Sig, e, q, StressAt(e, q));
        q := q + 1;
      }
    }

    /** energy(out): out[e, q] is the energy of point (e, q). */
    method EnergyInto(out: array2<real>)
      requires Valid() && allSet && out.Length0 == nelem && out.Length1 == nip
      modifies out
      ensures forall e, q | 0 <= e < nelem && 0 <= q < nip :: out[e, q] == EnergyAt(e, q)
    {
      var e := 0;
      while e < nelem
        invariant 0 <= e <= nelem
        invariant forall e', q' | 0 <= e' < e && 0 <= q' < nip :: out[e', q'] == EnergyAt(e', q')
      {
        EnergyRow(out, e);
        e := e + 1;
      }
    }

    /** The energy of row e into out[e, :]. */
    method EnergyRow(out: array2<real>, e: nat)
      requires Valid() && allSet && e < nelem && out.Length0 == nelem && out.Length1 == nip
      modifies out
      ensures forall q' | 0 <= q' < nip :: out[e, q'] == EnergyAt(e, q')
      ensures forall e', q' | 0 <= e' < nelem && 0 <= q' < nip && e' != e :: out[e', q'] == old(out[e', q'])
    {
      var q := 0;
      while q < nip
        invariant 0 <= q <= nip
        invariant forall q' | 0 <= q' < q :: out[e, q'] == EnergyAt(e, q')
        invariant forall e', q' | 0 <= e' < nelem && 0 <= q' < nip && e' != e :: out[e', q'] == old(out[e', q'])
      {
        out[e, q] := EnergyAt(e, q);
        q := q + 1;
      }
    }

    /** index(out): out[e, q] is the index of the current potential of point (e, q). */
    method IndexInto(out: array2<nat>)
      requires Valid() && allSet && out.Length0 == nelem && out.Length1 == nip && out != index
      modifies out
      ensures forall e, q | 0 <= e < nelem && 0 <= q < nip :: out[e, q] == IndexAt(e, q)
    {
      var e := 0;
      while e < nelem
        invariant 0 <= e <= nelem
        invariant forall e', q' | 0 <= e' < e && 0 <= q' < nip :: out[e', q'] == IndexAt(e', q')
      {
        IndexRow(out, e);
        e := e + 1;
      }
    }

    /** The potential index of row e into out[e, :]. */
    method IndexRow(out: array2<nat>, e: nat)
      requires Valid() && allSet && e < nelem && out.Length0 == nelem && out.Length1 == nip && out != index
      modifies out
      ensures forall q' | 0 <= q' < nip :: out[e, q'] == IndexAt(e, q')
      ensures forall e', q' | 0 <= e' < nelem && 0 <= q' < nip && e' != e :: out[e', q'] == old(out[e', q'])
    {
      var q := 0;
      while q < nip
        invariant 0 <= q <= nip
        invariant forall q' | 0 <= q' < q :: out[e, q'] == IndexAt(e, q')
        invariant forall e', q' | 0 <= e' < nelem && 0 <= q' < nip && e' != e :: out[e', q'] == old(out[e', q'])
      {
        out[e, q] := IndexAt(e, q);
        q := q + 1;
      }
    }

    /** epsy_pos(out): out[e, q] is the yield strain above point (e, q). */
    method EpsyPosInto(out: array2<ExtReal>)
      requires Valid() && allSet && out.Length0 == nelem && out.Length1 == nip
      requires forall e, q | 0 <= e < nelem && 0 <= q < nip :: HasEpsyPos(e, q)
      modifies out
      ensures forall e, q | 0 <= e < nelem && 0 <= q < nip :: out[e, q] == EpsyPosAt(e, q)
    {
      var e := 0;
      while e < nelem
        invariant 0 <= e <= nelem
        invariant forall e', q' | 0 <= e' < e && 0 <= q' < nip :: out[e', q'] == EpsyPosAt(e', q')
      {
        EpsyPosRow(out, e);
        e := e + 1;
      }
    }

    /** The yield strains above the points of row e into out[e, :]. */
    method EpsyPosRow(out: array2<ExtReal>, e: nat)
      requires Valid() && allSet && e < nelem && out.Length0 == nelem && out.Length1 == nip
      requires forall q | 0 <= q < nip :: HasEpsyPos(e, q)
      modifies out
      ensures forall q' | 0 <= q' < nip :: out[e, q'] == EpsyPosAt(e, q')
      ensures forall e', q' | 0 <= e' < nelem && 0 <= q' < nip && e' != e :: out[e', q'] == old(out[e', q'])
    {
      var q := 0;
      while q < nip
        invariant 0 <= q <= nip
        invariant forall q' | 0 <= q' < q :: out[e, q'] == EpsyPosAt(e, q')
        invariant forall e', q' | 0 <= e' < nelem && 0 <= q' < nip && e' != e :: out[e', q'] == old(out[e', q'])
      {
        out[e, q] := EpsyPosAt(e, q);
        q := q + 1;
      }
    }

    /** epsy_neg(out): out[e, q] is the yield strain below point (e, q). */
    method EpsyNegInto(out: array2<ExtReal>)
      requires Valid() && allSet && out.Length0 == nelem && out.Length1 == nip
      requires forall e, q | 0 <= e < nelem && 0 <= q < nip :: HasEpsyNeg(e, q)
      modifies out
      ensures forall e, q | 0 <= e < nelem && 0 <= q < nip :: out[e, q] == EpsyNegAt(e, q)
    {
      var e := 0;
      while e < nelem
        invariant 0 <= e <= nelem
        invariant forall e', q' | 0 <= e' < e && 0 <= q' < nip :: out[e', q'] == EpsyNegAt(e', q')
      {
        EpsyNegRow(out, e);
        e := e + 1;
      }
    }

    /** The yield strains below the points of row e into out[e, :]. */
    method EpsyNegRow(out: array2<ExtReal>, e: nat)
      requires Valid() && allSet && e < nelem && out.Length0 == nelem && out.Length1 == nip
      requires forall q | 0 <= q < nip :: HasEpsyNeg(e, q)
      modifies out
      ensures forall q' | 0 <= q' < nip :: out[e, q'] == EpsyNegAt(e, q')
      ensures forall e', q' | 0 <= e' < nelem && 0 <= q' < nip && e' != e :: out[e', q'] == old(out[e', q'])
    {
      var q := 0;
      while q < nip
        invariant 0 <= q <= nip
        invariant forall q' | 0 <= q' < q :: out[e, q'] == EpsyNegAt(e, q')
        invariant forall e', q' | 0 <= e' < nelem && 0 <= q' < nip && e' != e :: out[e', q'] == old(out[e', q'])
      {
        out[e, q] := EpsyNegAt(e, q);
        q := q + 1;
      }
    }

    /** epsp(out): out[e, q] is the plastic strain of point (e, q). */
    method EpspInto(out: array2<real>)
      requires Valid() && allSet && out.Length0 == nelem && out.Length1 == nip
      modifies out
      ensures forall e, q | 0 <= e < nelem && 0 <= q < nip :: out[e, q] == EpspAt(e, q)
    {
      var e := 0;
      while e < nelem
        invariant 0 <= e <= nelem
        invariant forall e', q' | 0 <= e' < e && 0 <= q' < nip :: out[e', q'] == EpspAt(e', q')
      {
        EpspRow(out, e);
        e := e + 1;
      }
    }

    /** The plastic strain of row e into out[e, :]. */
    method EpspRow(out: array2<real>, e: nat)
      requires Valid() && allSet && e < nelem && out.Length0 == nelem && out.Length1 == nip
      modifies out
      ensures forall q' | 0 <= q' < nip :: out[e, q'] == EpspAt(e, q')
      ensures forall e', q' | 0 <= e' < nelem && 0 <= q' < nip && e' != e :: out[e', q'] == old(out[e', q'])
    {
      var q := 0;
      while q < nip
        invariant 0 <= q <= nip
        invariant forall q' | 0 <= q' < q :: out[e, q'] == EpspAt(e, q')
        invariant forall e', q' | 0 <= e' < nelem && 0 <= q' < nip && e' != e :: out[e', q'] == old(out[e', q'])
      {
        out[e, q] := EpspAt(e, q);
        q := q + 1;
      }
    }

    /** Stress(): a new (nelem, nip, 3, 3) buffer holding every point's stress. */
    method Stress() returns (Sig: array4<real>)
      requires Valid() && allSet
      ensures IsMatrix(Sig) && Sig.Length0 == nelem && Sig.Length1 == nip
      ensures forall e, q | 0 <= e < nelem && 0 <= q < nip :: ItemAt(Sig, e, q) == StressAt(e, q)
    {
      Sig := new real[nelem, nip, 3, 3];
      StressInto(Sig);
    }

    /** Energy(): a new (nelem, nip) buffer holding every point's energy. */
    method Energy() returns (out: array2<real>)
      requires Valid() && allSet
      ensures out.Length0 == nelem && out.Length1 == nip
      ensures forall e, q | 0 <= e < nelem && 0 <= q < nip :: out[e, q] == EnergyAt(e, q)
    {
      out := new real[nelem, nip]((e, q) => 0.0);
      EnergyInto(out);
    }

    /** Index(): a new (nelem, nip) buffer holding every point's potential index. */
    method Index() returns (out: array2<nat>)
      requires Valid() && allSet
      ensures out.Length0 == nelem && out.Length1 == nip
      ensures forall e, q | 0 <= e < nelem && 0 <= q < nip :: out[e, q] == IndexAt(e, q)
    {
      out := new nat[nelem, nip]((e, q) => 0);
      IndexInto(out);
    }

    /** Epsy_pos(): a new (nelem, nip) buffer holding every point's upper yield strain. */
    method EpsyPos() returns (out: array2<ExtReal>)
      requires Valid() && allSet
      requires forall e, q | 0 <= e < nelem && 0 <= q < nip :: HasEpsyPos(e, q)
      ensures out.Length0 == nelem && out.Length1 == nip
      ensures forall e, q | 0 <= e < nelem && 0 <= q < nip :: out[e, q] == EpsyPosAt(e, q)
    {
      out := new ExtReal[nelem, nip]((e, q) => PosInf);
      EpsyPosInto(out);
    }

    /** Epsy_neg(): a new (nelem, nip) buffer holding every point's lower yield strain. */
    method EpsyNeg() returns (out: array2<ExtReal>)
      requires Valid() && allSet
      requires forall e, q | 0 <= e < nelem && 0 <= q < nip :: HasEpsyNeg(e, q)
      ensures out.Length0 == nelem && out.Length1 == nip
      ensures forall e, q | 0 <= e < nelem && 0 <= q < nip :: out[e, q] == EpsyNegAt(e, q)
    {
      out := new ExtReal[nelem, nip]((e, q) => PosInf);
      EpsyNegInto(out);
    }

    /** Epsp(): a new (nelem, nip) buffer holding every point's plastic strain. */
    method Epsp() returns (out: array2<real>)
      requires Valid() && allSet
      ensures out.Length0 == nelem && out.Length1 == nip
      ensures forall e, q | 0 <= e < nelem && 0 <= q < nip :: out[e, q] == EpspAt(e, q)
    {
      out := new real[nelem, nip]((e, q) => 0.0);
      EpspInto(out);
    }
    /** No two points share an instance: a point's kind and index identify
        it. */
    lemma NoSharedInstance(e1: nat, q1: nat, e2: nat, q2: nat)
      requires Valid() && e1 < nelem && q1 < nip && e2 < nelem && q2 < nip
      requires types[e1, q1] != Unset && types[e1, q1] == types[e2, q2] && index[e1, q1] == index[e2, q2]
      ensures e1 == e2 && q1 == q2
    {
      assert Owner(types[e1, q1])[index[e1, q1]] == (e1, q1);
      assert Owner(types[e2, q2])[index[e2, q2]] == (e2, q2);
    }

    /** An elastic point answers with the linear elastic law of its own
        moduli: stress 3 K hyd(Eps) I + 2 G dev(Eps) for its current strain
        Eps, and no plasticity (potential 0, plastic strain 0, no finite
        yield strain). */
    lemma ElasticResponse(e: nat, q: nat)
      requires Valid() && e < nelem && q < nip && types[e, q] == Elastic
      ensures Hydrostatic(StressAt(e, q)) == Mul(3.0 * elastic[index[e, q]].K, Hydrostatic(StrainAt(e, q)))
      ensures Deviatoric(StressAt(e, q)) == Scale(2.0 * elastic[index[e, q]].G, Deviatoric(StrainAt(e, q)))
      ensures IndexAt(e, q) == 0 && EpspAt(e, q) == 0.0
      ensures EpsyNegAt(e, q) == PosInf && EpsyPosAt(e, q) == PosInf
    {
    }

    /** The yield strains a Cusp or Smooth point (e, q) keeps. */
    function YieldStrainsAt(e: nat, q: nat): seq<real>
      reads this, types, index
      requires Valid() && e < nelem && q < nip && (types[e, q] == Cusp || types[e, q] == Smooth)
    {
      var (p, law) := YieldAt(e, q); p.Epsy(law)
    }

    /** A Cusp or Smooth point reports the yield strains epsy[index] and
        epsy[index + 1] of the list it keeps; with increasing yield strains
        the first is below the second and no yield strain lies between;
        under the header's reading they enclose the point's equivalent
        strain. */
    lemma YieldResponse(e: nat, q: nat)
      requires Valid() && e < nelem && q < nip && (types[e, q] == Cusp || types[e, q] == Smooth)
      requires HasEpsyPos(e, q)
      ensures HasEpsyNeg(e, q)
      ensures EpsyNegAt(e, q) == Finite(YieldStrainsAt(e, q)[IndexAt(e, q)])
      ensures EpsyPosAt(e, q) == Finite(YieldStrainsAt(e, q)[IndexAt(e, q) + 1])
      ensures Increasing(YieldStrainsAt(e, q)) ==> EpsyNegAt(e, q).value < EpsyPosAt(e, q).value
      ensures Increasing(YieldStrainsAt(e, q)) ==>
                forall y | y in YieldStrainsAt(e, q) :: y <= EpsyNegAt(e, q).value || EpsyPosAt(e, q).value <= y
      ensures Brackets(YieldAt(e, q).1, YieldAt(e, q).0.params, StrainAt(e, q)) ==>
                forall r | 0.0 <= r && Mul(r, r) == EpsdSquared(StrainAt(e, q)) ::
                  EpsyNegAt(e, q).value <= r <= EpsyPosAt(e, q).value
    {
      var (p, law) := YieldAt(e, q);
      YieldBracket(p, law);
    }
  }
  /** Indicator of row r of a 3 x 2 matrix of points. */
  method RowIndicator(r: nat) returns (I: array2<nat>)
    ensures fresh(I) && I.Length0 == 3 && I.Length1 == 2
    ensures forall e, q | 0 <= e < 3 && 0 <= q < 2 :: I[e, q] == (if e == r then 1 else 0)
  {
    I := new nat[3, 2]((e, q) => if e == r then 1 else 0);
  }

  /** Every point of row e is elastic with moduli K and G. */
  ghost predicate ElasticRow(m: Matrix, e: nat, K: real, G: real)
    reads m, m.types, m.index
  {
    && e < m.types.Length0 && e < m.index.Length0 && m.types.Length1 == m.index.Length1
    && forall q | 0 <= q < m.types.Length1 ::
         m.types[e, q] == Elastic && m.index[e, q] < |m.elastic|
         && m.elastic[m.index[e, q]].K == K && m.elastic[m.index[e, q]].G == G
  }

  /** Every point of row e is a Cusp point with parameters p. */
  ghost predicate CuspRow(m: Matrix, e: nat, p: YieldParams)
    reads m, m.types, m.index
  {
    && e < m.types.Length0 && e < m.index.Length0 && m.types.Length1 == m.index.Length1
    && forall q | 0 <= q < m.types.Length1 ::
         m.types[e, q] == Cusp && m.index[e, q] < |m.cusp| && m.cusp[m.index[e, q]].params == p
  }

  /** Every point of row e is a Smooth point with parameters p. */
  ghost predicate SmoothRow(m: Matrix, e: nat, p: YieldParams)
    reads m, m.types, m.index
  {
    && e < m.types.Length0 && e < m.index.Length0 && m.types.Length1 == m.index.Length1
    && forall q | 0 <= q < m.types.Length1 ::
         m.types[e, q] == Smooth && m.index[e, q] < |m.smooth| && m.smooth[m.index[e, q]].params == p
  }

  /** A new 3 x 2 matrix whose row 0 is elastic with moduli K and G. */
  method ElasticFirstRow(cuspLaw: Potential, smoothLaw: Potential, K: real, G: real) returns (m: Matrix)
    ensures fresh(m) && fresh(m.types) && fresh(m.index)
    ensures m.Valid() && m.nelem == 3 && m.nip == 2 && m.cuspLaw == cuspLaw && m.smoothLaw == smoothLaw
    ensures ElasticRow(m, 0, K, G)
  {
    m := new Matrix(3, 2, cuspLaw, smoothLaw);
    var I0 := RowIndicator(0);
    m.SetElastic(I0, K, G);
    assert forall q | 0 <= q < 2 :: I0[0, q] == 1;
  }

  /** Row 1 of the matrix becomes Cusp with parameters p; row 0 keeps its
      elastic points. */
  method CuspSecondRow(m: Matrix, K: real, G: real, epsy: seq<real>)
    requires m.Valid() && m.nelem == 3 && m.nip == 2 && ElasticRow(m, 0, K, G)
    modifies m, m.types, m.index
    ensures m.Valid() && ElasticRow(m, 0, K, G) && CuspRow(m, 1, YieldParams(K, G, epsy, true))
  {
    var I1 := RowIndicator(1);
    m.SetCusp(I1, K, G, epsy);
    assert forall q | 0 <= q < 2 :: I1[0, q] != 1 && I1[1, q] == 1;
  }

  /** Row 2 of the matrix becomes Smooth with parameters p; rows 0 and 1
      keep their points, and every point is now assigned. */
  method SmoothThirdRow(m: Matrix, K: real, G: real, epsy: seq<real>)
    requires m.Valid() && m.nelem == 3 && m.nip == 2
    requires ElasticRow(m, 0, K, G) && CuspRow(m, 1, YieldParams(K, G, epsy, true))
    modifies m, m.types, m.index
    ensures m.Valid() && m.allSet
    ensures ElasticRow(m, 0, K, G) && CuspRow(m, 1, YieldParams(K, G, epsy, true))
    ensures SmoothRow(m, 2, YieldParams(K, G, epsy, true))
  {
    var I2 := RowIndicator(2);
    m.SetSmooth(I2, K, G, epsy);
    assert forall q | 0 <= q < 2 :: I2[0, q] != 1 && I2[1, q] != 1 && I2[2, q] == 1;
    assert m.AllAssigned() by {
      forall e, q | 0 <= e < 3 && 0 <= q < 2
        ensures m.types[e, q] != Unset
      {
      }
    }
  }

  /** The material matrix of the matrix tests: 3 elements of 2 integration
      points, row 0 elastic, row 1 Cusp and row 2 Smooth, all with moduli K
      and G, the yield points with yield strains epsy and an elastic start. */
  method MixedMatrix(cuspLaw: Potential, smoothLaw: Potential, K: real, G: real, epsy: seq<real>) returns (m: Matrix)
    ensures fresh(m) && fresh(m.types) && fresh(m.index)
    ensures m.Valid() && m.allSet && m.nelem == 3 && m.nip == 2
    ensures m.cuspLaw == cuspLaw && m.smoothLaw == smoothLaw
    ensures ElasticRow(m, 0, K, G) && CuspRow(m, 1, YieldParams(K, G, epsy, true))
    ensures SmoothRow(m, 2, YieldParams(K, G, epsy, true))
  {
    m := ElasticFirstRow(cuspLaw, smoothLaw, K, G);
    CuspSecondRow(m, K, G, epsy);
    SmoothThirdRow(m, K, G, epsy);
  }

  /** The strain E at every point of a 3 x 2 matrix. */
  method UniformStrain(E: Tensor2) returns (Eps: array4<real>)
    ensures fresh(Eps) && IsMatrix(Eps) && Eps.Length0 == 3 && Eps.Length1 == 2
    ensures forall e, q | 0 <= e < 3 && 0 <= q < 2 :: ItemAt(Eps, e, q) == E
  {
    Eps := new real[3, 2, 3, 3]((e, q, i, j) requires 0 <= i < 3 && 0 <= j < 3 => E.At(i, j));
  }

  /** m is the mixed matrix of the matrix tests, with moduli K and G, yield
      strains epsy and strain E at every point. */
  ghost predicate MixedState(m: Matrix, K: real, G: real, epsy: seq<real>, E: Tensor2)
    reads m, m.types, m.index
  {
    && m.Valid() && m.allSet && m.nelem == 3 && m.nip == 2
    && ElasticRow(m, 0, K, G) && CuspRow(m, 1, YieldParams(K, G, epsy, true))
    && SmoothRow(m, 2, YieldParams(K, G, epsy, true))
    && (forall e, q | 0 <= e < 3 && 0 <= q < 2 :: m.StrainAt(e, q) == E)
  }

  /** The mixed matrix with strain E set at every point. */
  method StrainedMixedMatrix(cuspLaw: Potential, smoothLaw: Potential, K: real, G: real, epsy: seq<real>, E: Tensor2)
    returns (m: Matrix)
    ensures fresh(m) && fresh(m.types) && fresh(m.index)
    ensures m.cuspLaw == cuspLaw && m.smoothLaw == smoothLaw
    ensures MixedState(m, K, G, epsy, E)
  {
    m := MixedMatrix(cuspLaw, smoothLaw, K, G, epsy);
    var Eps := UniformStrain(E);
    m.SetStrain(Eps);
  }

  /** A law answers plastic strain epsp and stress S for parameters p at
      strain E. */
  predicate Answers(law: Potential, p: YieldParams, E: Tensor2, epsp: real, S: Tensor2)
  {
    law.epsp(p, E) == epsp && law.stress(p, E) == S
  }

  /** A law reproducing the test facts answers the test suite's values at
      the test strain, so MixedMatrixTest applies with K = 12.3, G = 45.6,
      epsy = {0.01, 0.03, 0.10}, epsm = 0.12 and gamma = 0.02. */
  lemma TestLawAnswers(law: Potential)
    requires ReproducesTests(law)
    ensures Answers(law, YieldParams(12.3, 45.6, [0.01, 0.03, 0.10], true), TestStrain(),
                    0.02, Isotropic(3.0 * 12.3 * 0.12))
  {
  }

  /** An elastic point (e, q) with moduli K and G at a strain of volumetric
      part epsm and shear gamma: 3 K epsm on the diagonal, 2 G gamma in the
      (0,1) and (1,0) components, no plastic strain. */
  lemma {:induction false} ElasticShearResponse(m: Matrix, e: nat, q: nat, K: real, G: real, epsm: real, gamma: real)
    requires m.Valid() && e < m.nelem && q < m.nip
    requires m.types[e, q] == Elastic && m.elastic[m.index[e, q]].K == K && m.elastic[m.index[e, q]].G == G
    requires m.StrainAt(e, q) == SimpleShear(epsm, gamma)
    ensures m.StressAt(e, q) == Tensor2(
              Mul(3.0 * K, epsm), Mul(2.0 * G, gamma), 0.0,
              Mul(2.0 * G, gamma), Mul(3.0 * K, epsm), 0.0,
              0.0, 0.0, Mul(3.0 * K, epsm))
    ensures m.EpspAt(e, q) == 0.0
  {
    assert m.elastic[m.index[e, q]] == ElasticPoint(K, G, SimpleShear(epsm, gamma));
    ElasticPointShearTest(K, G, epsm, gamma);
  }

  /** Column q of the mixed matrix, at a strain of volumetric part epsm and
      shear gamma everywhere, with yield laws that answer epsp and S there:
      the elastic point as ElasticShearResponse, the Cusp and Smooth points
      as their laws. */
  lemma {:induction false} MixedColumn(m: Matrix, q: nat, K: real, G: real, epsy: seq<real>,
                                       epsm: real, gamma: real, epsp: real, S: Tensor2)
    requires MixedState(m, K, G, epsy, SimpleShear(epsm, gamma)) && q < 2
    requires Answers(m.cuspLaw, YieldParams(K, G, epsy, true), SimpleShear(epsm, gamma), epsp, S)
    requires Answers(m.smoothLaw, YieldParams(K, G, epsy, true), SimpleShear(epsm, gamma), epsp, S)
    ensures m.StressAt(0, q) == Tensor2(
              Mul(3.0 * K, epsm), Mul(2.0 * G, gamma), 0.0,
              Mul(2.0 * G, gamma), Mul(3.0 * K, epsm), 0.0,
              0.0, 0.0, Mul(3.0 * K, epsm))
    ensures m.StressAt(1, q) == S && m.StressAt(2, q) == S
    ensures m.EpspAt(0, q) == 0.0 && m.EpspAt(1, q) == epsp && m.EpspAt(2, q) == epsp
  {
    ElasticShearResponse(m, 0, q, K, G, epsm, gamma);
    assert m.StrainAt(1, q) == SimpleShear(epsm, gamma) && m.StrainAt(2, q) == SimpleShear(epsm, gamma);
    assert m.cusp[m.index[1, q]] == YieldPoint(YieldParams(K, G, epsy, true), SimpleShear(epsm, gamma));
    assert m.smooth[m.index[2, q]] == YieldPoint(YieldParams(K, G, epsy, true), SimpleShear(epsm, gamma));
  }

  /** The matrix test: row 0 elastic, row 1 Cusp, row 2 Smooth, moduli K
      and G, strain of volumetric part epsm and shear gamma set at every
      point. The elastic row has 3 K epsm on the diagonal and 2 G gamma in
      the (0,1) and (1,0) components and no plastic strain; the Cusp and
      Smooth rows have what their laws answer. */
  method MixedMatrixTest(cuspLaw: Potential, smoothLaw: Potential, K: real, G: real, epsy: seq<real>,
                         epsm: real, gamma: real, epspYield: real, SYield: Tensor2)
    returns (Sig: array4<real>, epsp: array2<real>)
    requires Answers(cuspLaw, YieldParams(K, G, epsy, true), SimpleShear(epsm, gamma), epspYield, SYield)
    requires Answers(smoothLaw, YieldParams(K, G, epsy, true), SimpleShear(epsm, gamma), epspYield, SYield)
    ensures IsMatrix(Sig) && Sig.Length0 == 3 && Sig.Length1 == 2
    ensures epsp.Length0 == 3 && epsp.Length1 == 2
    ensures forall q | 0 <= q < 2 :: ItemAt(Sig, 0, q) == Tensor2(
              Mul(3.0 * K, epsm), Mul(2.0 * G, gamma), 0.0,
              Mul(2.0 * G, gamma), Mul(3.0 * K, epsm), 0.0,
              0.0, 0.0, Mul(3.0 * K, epsm))
    ensures forall q | 0 <= q < 2 :: ItemAt(Sig, 1, q) == SYield && ItemAt(Sig, 2, q) == SYield
    ensures forall q | 0 <= q < 2 :: epsp[0, q] == 0.0 && epsp[1, q] == epspYield && epsp[2, q] == epspYield
  {
    var m := StrainedMixedMatrix(cuspLaw, smoothLaw, K, G, epsy, SimpleShear(epsm, gamma));
    Sig := MixedStress(m, K, G, epsy, epsm, gamma, epspYield, SYield);
    epsp := MixedEpsp(m, K, G, epsy, epsm, gamma, epspYield, SYield);
  }

  /** The stress query on the strained mixed matrix. */
  method MixedStress(m: Matrix, K: real, G: real, epsy: seq<real>, epsm: real, gamma: real, epspYield: real, SYield: Tensor2)
    returns (Sig: array4<real>)
    requires MixedState(m, K, G, epsy, SimpleShear(epsm, gamma))
    requires Answers(m.cuspLaw, YieldParams(K, G, epsy, true), SimpleShear(epsm, gamma), epspYield, SYield)
    requires Answers(m.smoothLaw, YieldParams(K, G, epsy, true), SimpleShear(epsm, gamma), epspYield, SYield)
    ensures IsMatrix(Sig) && Sig.Length0 == 3 && Sig.Length1 == 2
    ensures forall q | 0 <= q < 2 :: ItemAt(Sig, 0, q) == Tensor2(
              Mul(3.0 * K, epsm), Mul(2.0 * G, gamma), 0.0,
              Mul(2.0 * G, gamma), Mul(3.0 * K, epsm), 0.0,
              0.0, 0.0, Mul(3.0 * K, epsm))
    ensures forall q | 0 <= q < 2 :: ItemAt(Sig, 1, q) == SYield && ItemAt(Sig, 2, q) == SYield
  {
    Sig := m.Stress();
    forall q | 0 <= q < 2
      ensures ItemAt(Sig, 0, q) == Tensor2(
                Mul(3.0 * K, epsm), Mul(2.0 * G, gamma), 0.0,
                Mul(2.0 * G, gamma), Mul(3.0 * K, epsm), 0.0,
                0.0, 0.0, Mul(3.0 * K, epsm))
      ensures ItemAt(Sig, 1, q) == SYield && ItemAt(Sig, 2, q) == SYield
    {
      MixedColumn(m, q, K, G, epsy, epsm, gamma, epspYield, SYield);
      assert ItemAt(Sig, 0, q) == m.StressAt(0, q) && ItemAt(Sig, 1, q) == m.StressAt(1, q) && ItemAt(Sig, 2, q) == m.StressAt(2, q);
    }
  }

  /** The plastic strain query on the strained mixed matrix. */
  method MixedEpsp(m: Matrix, K: real, G: real, epsy: seq<real>, epsm: real, gamma: real, epspYield: real, SYield: Tensor2)
    returns (epsp: array2<real>)
    requires MixedState(m, K, G, epsy, SimpleShear(epsm, gamma))
    requires Answers(m.cuspLaw, YieldParams(K, G, epsy, true), SimpleShear(epsm, gamma), epspYield, SYield)
    requires Answers(m.smoothLaw, YieldParams(K, G, epsy, true), SimpleShear(epsm, gamma), epspYield, SYield)
    ensures epsp.Length0 == 3 && epsp.Length1 == 2
    ensures forall q | 0 <= q < 2 :: epsp[0, q] == 0.0 && epsp[1, q] == epspYield && epsp[2, q] == epspYield
  {
    epsp := m.Epsp();
    forall q | 0 <= q < 2
      ensures epsp[0, q] == 0.0 && epsp[1, q] == epspYield && epsp[2, q] == epspYield
    {
      MixedColumn(m, q, K, G, epsy, epsm, gamma, epspYield, SYield);
      assert epsp[0, q] == m.EpspAt(0, q) && epsp[1, q] == m.EpspAt(1, q) && epsp[2, q] == m.EpspAt(2, q);
    }
  }

  /** The matrix test of the Python suite: K = 12.3, G = 45.6, epsy =
      {0.01, 0.03, 0.10}, strain with epsm = 0.12 and gamma = 0.02 at every
      point, Cusp and Smooth laws that reproduce the point tests. */
  method PythonMatrixTest(cuspLaw: Potential, smoothLaw: Potential) returns (Sig: array4<real>, epsp: array2<real>)
    requires ReproducesTests(cuspLaw) && ReproducesTests(smoothLaw)
    ensures IsMatrix(Sig) && Sig.Length0 == 3 && Sig.Length1 == 2
    ensures epsp.Length0 == 3 && epsp.Length1 == 2
    ensures forall q | 0 <= q < 2 :: ItemAt(Sig, 0, q) == Tensor2(
              Mul(3.0 * 12.3, 0.12), Mul(2.0 * 45.6, 0.02), 0.0,
              Mul(2.0 * 45.6, 0.02), Mul(3.0 * 12.3, 0.12), 0.0,
              0.0, 0.0, Mul(3.0 * 12.3, 0.12))
    ensures forall q | 0 <= q < 2 ::
              ItemAt(Sig, 1, q) == Isotropic(3.0 * 12.3 * 0.12) && ItemAt(Sig, 2, q) == Isotropic(3.0 * 12.3 * 0.12)
    ensures forall q | 0 <= q < 2 :: epsp[0, q] == 0.0 && epsp[1, q] == 0.02 && epsp[2, q] == 0.02
  {
    TestLawAnswers(cuspLaw);
    TestLawAnswers(smoothLaw);
    Sig, epsp := MixedMatrixTest(cuspLaw, smoothLaw, 12.3, 45.6, [0.01, 0.03, 0.10], 0.12, 0.02, 0.02, Isotropic(3.0 * 12.3 * 0.12));
  }
}
