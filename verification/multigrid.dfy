/** Multigrid set-up (src/multigrid.c): the checks of mgAlloc, the geometry
    of the coarser grids built by mgAllocSubGrids, the choice of smoothers
    and stencils by name, and which grids mgFree releases.

    Grids are modelled by their geometry only; grid values, the smoothers
    and the stencils themselves are not modelled. Configuration values are
    plain parameters, and a configuration error (the source's msg(ERROR,
    ...), which ends the program) is an Err result. */
module Multigrid {
  import opened Aux

  // ---------------------------------------------------------------------
  // Grid geometry

  /** The geometry of a Grid. Dimension 0 is the value dimension; the
      spatial dimensions are 1..rank-1. nGhostLayers holds the lower ghost
      layers of every dimension followed by the upper ones. nSliceMax is the
      number of elements of the largest slice, the size of the slice
      buffer. */
  datatype Grid = Grid(rank: int, size: seq<int>, sizeProd: seq<int>, trueSize: seq<int>,
                       nGhostLayers: seq<int>, nSliceMax: int)
  {
    /** Shapes agree with the rank, and sizeProd holds the cumulative
        products of size, so sizeProd[rank] is the number of elements. */
    predicate Valid()
    {
      && rank >= 1 && |size| == rank && |trueSize| == rank
      && |sizeProd| == rank + 1 && |nGhostLayers| == 2 * rank
      && (forall i :: 0 <= i <= rank ==> sizeProd[i] == Prod(size[..i]))
      && (forall d :: 0 <= d < rank ==> trueSize[d] >= 0)
      && (forall d :: 0 <= d < 2 * rank ==> nGhostLayers[d] >= 0)
    }

    function NDims(): int
    {
      rank - 1
    }
  }

  /** The strides of a grid: entry i is the product of a[..i], so the last
      entry is the number of elements. The allocating routine the strides
      come from is not part of this model; it is taken to compute these
      cumulative products, which CumProdsRecurrence shows are the ones
      Aux.CumProd's loop builds. */
  function CumProds(a: seq<int>): (r: seq<int>)
    ensures |r| == |a| + 1
    ensures forall i :: 0 <= i <= |a| ==> r[i] == Prod(a[..i])
  {
    seq(|a| + 1, i requires 0 <= i <= |a| => Prod(a[..i]))
  }

  /** The strides obey the loop recurrence of Aux.CumProd: they start at 1,
      and each entry is the one before times the next extent. */
  lemma CumProdsRecurrence(a: seq<int>)
    ensures CumProds(a)[0] == 1
    ensures forall i :: 0 <= i < |a| ==> CumProds(a)[i + 1] == CumProds(a)[i] * a[i]
  {
    var r := CumProds(a);
    assert a[..0] == [];
    forall i | 0 <= i < |a| ensures r[i + 1] == r[i] * a[i] {
      assert a[..i + 1][..i] == a[..i];
    }
  }

  /** Product of a[dd] over dd < k with dd != d: the C inner loop of the
      slice computation after k steps. */
  function SliceTo(a: seq<int>, d: nat, k: nat): int
    requires k <= |a|
  {
    if k == 0 then 1 else SliceTo(a, d, k - 1) * (if k - 1 == d then 1 else a[k - 1])
  }

  /** Elements of a slice perpendicular to dimension d. */
  function Slice(a: seq<int>, d: nat): int
  {
    SliceTo(a, d, |a|)
  }

  /** The largest slice over dimensions below k, and 0 when there is none
      larger than 0 (the C running maximum starts at 0). */
  function MaxSliceTo(a: seq<int>, k: nat): (m: int)
    requires k <= |a|
    ensures m >= 0
  {
    if k == 0 then 0
    else
      var prev := MaxSliceTo(a, k - 1);
      if Slice(a, k - 1) > prev then Slice(a, k - 1) else prev
  }

  /** A running maximum is no smaller than any slice it has seen and is
      either 0 or one of them. */
  lemma {:induction false} MaxSliceIsMax(a: seq<int>, k: nat)
    requires k <= |a|
    ensures forall d :: 0 <= d < k ==> Slice(a, d) <= MaxSliceTo(a, k)
    ensures MaxSliceTo(a, k) == 0 || exists d :: 0 <= d < k && MaxSliceTo(a, k) == Slice(a, d)
  {
    if k > 0 {
      MaxSliceIsMax(a, k - 1);
    }
  }

  /** A slice perpendicular to d, times the extent along d, is the whole
      grid: every slice holds the elements of one index along d. */
  lemma SliceTimesExtent(a: seq<int>, d: nat)
    requires d < |a|
    ensures Slice(a, d) * a[d] == Prod(a)
  {
    SliceToProd(a, d, |a|);
    assert a[..|a|] == a;
  }

  lemma {:induction false} SliceToProd(a: seq<int>, d: nat, k: nat)
    requires d < |a| && k <= |a|
    ensures k <= d ==> SliceTo(a, d, k) == Prod(a[..k])
    ensures k > d ==> SliceTo(a, d, k) * a[d] == Prod(a[..k])
  {
    if k > 0 {
      SliceToProd(a, d, k - 1);
      assert a[..k][..k - 1] == a[..k - 1];
      var s := SliceTo(a, d, k - 1);
      if k - 1 > d {
        calc {
          SliceTo(a, d, k) * a[d];
          s * a[k - 1] * a[d];
          { MulCommute3(s, a[k - 1], a[d]); }
          s * a[d] * a[k - 1];
          Prod(a[..k]);
        }
      }
    }
  }

  lemma MulCommute3(x: int, y: int, z: int)
    ensures x * y * z == x * z * y
  {
  }

  /** The nested loops of mgAllocSubGrids that size the slice buffer: the
      largest product of all extents but one. */
  method NSliceMax(size: seq<int>) returns (m: int)
    ensures m == MaxSliceTo(size, |size|)
    ensures forall d :: 0 <= d < |size| ==> Slice(size, d) <= m
    ensures m == 0 || exists d :: 0 <= d < |size| && m == Slice(size, d)
  {
    m := 0;
    var d := 0;
    while d < |size|
      invariant 0 <= d <= |size|
      invariant m == MaxSliceTo(size, d)
    {
      var nSlice := 1;
      var dd := 0;
      while dd < |size|
        invariant 0 <= dd <= |size|
        invariant nSlice == SliceTo(size, d, dd)
      {
        if dd != d {
          nSlice := nSlice * size[dd];
        }
        dd := dd + 1;
      }
      if nSlice > m {
        m := nSlice;
      }
      d := d + 1;
    }
    MaxSliceIsMax(size, |size|);
  }

  // ---------------------------------------------------------------------
  // mgAllocSubGrids

  /** Extents of the grid at level q as mgAllocSubGrids computes them: the
      value dimension is kept, every spatial extent is divided by 2*q (C
      integer division; the operands are non-negative, so it agrees with
      Dafny's). */
  function SubTrueSize(trueSize: seq<int>, q: int): (r: seq<int>)
    requires |trueSize| >= 1 && q >= 1
    ensures |r| == |trueSize| && r[0] == trueSize[0]
  {
    seq(|trueSize|, d requires 0 <= d < |trueSize| => if d == 0 then trueSize[0] else trueSize[d] / (2 * q))
  }

  /** The grid mgAllocSubGrids builds for level q from the finest grid g,
      given the extents of that level. */
  function Coarsened(g: Grid, subTrueSize: seq<int>): (r: Grid)
    requires g.Valid() && |subTrueSize| == g.rank && subTrueSize[0] == g.trueSize[0]
    requires forall d :: 0 <= d < g.rank ==> subTrueSize[d] >= 0
    ensures r.Valid() && r.rank == g.rank && r.trueSize == subTrueSize && r.nGhostLayers == g.nGhostLayers
  {
    var size := seq(g.rank, d requires 0 <= d < g.rank =>
      if d == 0 then g.trueSize[0] else subTrueSize[d] + g.nGhostLayers[d] + g.nGhostLayers[g.rank + d]);
    Grid(g.rank, size, CumProds(size), subTrueSize, g.nGhostLayers, MaxSliceTo(size, |size|))
  }

  /** Level q of the hierarchy, as written. */
  function SubGrid(g: Grid, q: int): (r: Grid)
    requires g.Valid() && q >= 1
    ensures r.Valid() && r.rank == g.rank && r.nGhostLayers == g.nGhostLayers
  {
    var t := SubTrueSize(g.trueSize, q);
    assert forall d :: 0 <= d < g.rank ==> t[d] >= 0;
    Coarsened(g, t)
  }

  /** The extents of a sub-grid of mgAllocSubGrids: the value dimension is
      that of the finest grid, every spatial true size is the finest one
      divided by 2*q and rounded down, and every spatial size adds both ghost
      layers of the finest grid. */
  lemma SubGridExtents(g: Grid, q: int, d: int)
    requires g.Valid() && q >= 1 && 1 <= d < g.rank
    ensures var r := SubGrid(g, q);
      && r.trueSize[0] == g.trueSize[0] && r.size[0] == g.trueSize[0]
      && 2 * q * r.trueSize[d] <= g.trueSize[d] < 2 * q * (r.trueSize[d] + 1)
      && r.size[d] == r.trueSize[d] + g.nGhostLayers[d] + g.nGhostLayers[g.rank + d]
  {
    var t := SubTrueSize(g.trueSize, q);
    assert t[d] == g.trueSize[d] / (2 * q);
    FloorDivBounds(g.trueSize[d], 2 * q);
  }

  /** C division of a non-negative x by a positive m rounds down. */
  lemma FloorDivBounds(x: int, m: int)
    requires x >= 0 && m >= 1
    ensures m * (x / m) <= x < m * (x / m + 1)
  {
  }

  /** The element counts of a sub-grid: sizeProd[rank] is the product of
      the sizes, every slice fits the slice buffer, and a slice times its
      extent is the whole grid. */
  lemma SubGridSlices(g: Grid, q: int, d: int)
    requires g.Valid() && q >= 1 && 0 <= d < g.rank
    ensures var r := SubGrid(g, q);
      && r.sizeProd[g.rank] == Prod(r.size)
      && Slice(r.size, d) <= r.nSliceMax
      && Slice(r.size, d) * r.size[d] == r.sizeProd[g.rank]
  {
    var r := SubGrid(g, q);
    assert r.size[..g.rank] == r.size;
    MaxSliceIsMax(r.size, |r.size|);
    SliceTimesExtent(r.size, d);
  }

  /** mgAllocSubGrids: level 0 is the caller's grid, levels 1..nLevels-1 are
      new sub-grids. The level array is allocated with nLevels+1 slots; when
      that is not positive, storing grids[0] writes outside it, and the model
      stops there with LevelArrayOverrun. */
  function AllocSubGrids(g: Grid, nLevels: int): (r: Result<seq<Grid>>)
    requires g.Valid()
    ensures r.Err? <==> nLevels + 1 <= 0
    ensures r.Err? ==> r.error == LevelArrayOverrun
    ensures r.Ok? ==> |r.value| == (if nLevels >= 1 then nLevels else 1) && r.value[0] == g
    ensures r.Ok? ==> forall q :: 1 <= q < |r.value| ==> r.value[q] == SubGrid(g, q)
  {
    if nLevels + 1 <= 0 then Err(LevelArrayOverrun)
    else Ok([g] + seq(if nLevels >= 1 then nLevels - 1 else 0, i requires 0 <= i => SubGrid(g, i + 1)))
  }

  // ---------------------------------------------------------------------
  // Corrected coarsening

  function Pow2(n: nat): (r: int)
    ensures r >= 1
  {
    if n == 0 then 1 else 2 * Pow2(n - 1)
  }

  /** Extents of level q when every level halves the one above it: the
      spatial true sizes of the finest grid divided by 2^q. */
  function HalvedTrueSize(trueSize: seq<int>, q: nat): (r: seq<int>)
    requires |trueSize| >= 1
    ensures |r| == |trueSize| && r[0] == trueSize[0]
  {
    seq(|trueSize|, d requires 0 <= d < |trueSize| => if d == 0 then trueSize[0] else trueSize[d] / Pow2(q))
  }

  /** Level q of the hierarchy when every level halves the one above. */
  function HalvedSubGrid(g: Grid, q: nat): (r: Grid)
    requires g.Valid()
    ensures r.Valid() && r.rank == g.rank && r.nGhostLayers == g.nGhostLayers
    ensures r.trueSize == HalvedTrueSize(g.trueSize, q)
  {
    var t := HalvedTrueSize(g.trueSize, q);
    var p := Pow2(q);
    assert forall d :: 1 <= d < g.rank ==> t[d] == g.trueSize[d] / p;
    Coarsened(g, t)
  }

  /** The as-written extents divide by 2*q, not 2^q: the two agree on
      levels 1 and 2 only, and at level 3 a finest extent of 32 becomes 5
      instead of 4. */
  lemma SubTrueSizeAtLevelThree()
    ensures SubTrueSize([1, 32], 1) == HalvedTrueSize([1, 32], 1)
    ensures SubTrueSize([1, 32], 2) == HalvedTrueSize([1, 32], 2)
    ensures SubTrueSize([1, 32], 3)[1] == 5
    ensures HalvedTrueSize([1, 32], 3)[1] == 4
  {
    assert Pow2(3) == 8;
  }

  /** Each halved level covers exactly half the true points of the level
      above it, along every spatial dimension, as long as the finest
      extents are multiples of 2^(L-1) and the level is below L. */
  lemma {:induction false} HalvedLevelsHalve(x: int, nLevels: nat, q: nat)
    requires x >= 0 && nLevels >= 1 && x % Pow2(nLevels - 1) == 0 && q + 1 < nLevels
    ensures x / Pow2(q) == 2 * (x / Pow2(q + 1))
    ensures Pow2(q + 1) * (x / Pow2(q + 1)) == x
  {
    PowDivides(q + 1, nLevels - 1, x);
    var k := x / Pow2(q + 1);
    assert x == Pow2(q + 1) * k;
    assert x == Pow2(q) * (2 * k);
    DivExact(x, Pow2(q), 2 * k);
  }

  /** A multiple of 2^n is a multiple of every smaller power of two. */
  lemma {:induction false} PowDivides(m: nat, n: nat, x: int)
    requires m <= n && x % Pow2(n) == 0
    ensures x % Pow2(m) == 0
    decreases n - m
  {
    if m < n {
      var k := x / Pow2(n);
      assert x == Pow2(n) * k;
      assert x == Pow2(n - 1) * (2 * k);
      DivExact(x, Pow2(n - 1), 2 * k);
      PowDivides(m, n - 1, x);
    }
  }

  lemma DivExact(x: int, p: int, k: int)
    requires p >= 1 && x == p * k
    ensures x / p == k && x % p == 0
  {
    var q, r := x / p, x % p;
    assert p * (k - q) == r;
    if k - q >= 1 {
      MulAtLeast(p, k - q);
    } else if k - q <= -1 {
      MulAtLeast(p, q - k);
    }
  }

  lemma MulAtLeast(p: int, m: int)
    requires p >= 1 && m >= 1
    ensures p * m >= p
  {
  }

  /** Levels built by HalvedSubGrid: every spatial true size of level q+1 is
      exactly half that of level q. */
  lemma HalvedSubGridsHalve(g: Grid, nLevels: nat, q: nat, d: int)
    requires g.Valid() && 1 <= d < g.rank && CorrectedSizeCheck(g, nLevels).Ok? && q + 1 < nLevels
    ensures HalvedSubGrid(g, q).trueSize[d] == 2 * HalvedSubGrid(g, q + 1).trueSize[d]
  {
    HalvedLevelsHalve(g.trueSize[d], nLevels, q);
  }

  // ---------------------------------------------------------------------
  // Configuration errors

  /** Which smoother a name is looked up for. */
  datatype Role = PreSmooth | PostSmooth | CoarseSolve

  /** The configuration errors of mgAlloc, one per msg(ERROR, ...). */
  datatype MgError =
    | NoLevels
    | NoCycles
    | TrueSizeNotMultiple(d: int)
    | NoSmootherForDims(role: Role, nDims: int)
    | NoSmoother(role: Role)
    | NoRestrictorForDims(nDims: int)
    | NoRestrictor
    | NoProlongatorForDims(nDims: int)
    | NoProlongator
    // not a message: grids[0] stored outside a level array of no slots
    | LevelArrayOverrun

  datatype Result<T> = Ok(value: T) | Err(error: MgError)

  // ---------------------------------------------------------------------
  // mgAlloc size check

  /** The check of mgAlloc as written, from spatial dimension index d on:
      `trueSize[d+1] % (int) 2*nLevels` parses as
      `(trueSize[d+1] % 2) * nLevels`, so it only rejects odd extents. */
  function SizeCheckFrom(g: Grid, nLevels: int, d: nat): (r: Result<()>)
    requires g.Valid()
    decreases g.rank - d
  {
    if d >= g.NDims() then Ok(())
    else if (g.trueSize[d + 1] % 2) * nLevels != 0 then Err(TrueSizeNotMultiple(d))
    else SizeCheckFrom(g, nLevels, d + 1)
  }

  /** The first spatial dimension from d on whose extent is odd, if any. */
  predicate OddFirstFrom(g: Grid, d: nat, e: int)
    requires g.Valid()
  {
    && d <= e < g.NDims() && g.trueSize[e + 1] % 2 == 1
    && forall f :: d + 1 <= f < e + 1 ==> g.trueSize[f] % 2 == 0
  }

  /** The as-written check passes iff nLevels is 0 or every spatial extent
      is even, and otherwise names the first odd one. */
  lemma {:induction false} SizeCheckFromMeaning(g: Grid, nLevels: int, d: nat)
    requires g.Valid()
    ensures SizeCheckFrom(g, nLevels, d).Ok?
      <==> nLevels == 0 || forall f :: d + 1 <= f < g.rank ==> g.trueSize[f] % 2 == 0
    ensures SizeCheckFrom(g, nLevels, d).Err? ==>
      && SizeCheckFrom(g, nLevels, d).error.TrueSizeNotMultiple?
      && OddFirstFrom(g, d, SizeCheckFrom(g, nLevels, d).error.d)
    decreases g.rank - d
  {
    if d < g.NDims() && (g.trueSize[d + 1] % 2) * nLevels == 0 {
      SizeCheckFromMeaning(g, nLevels, d + 1);
    }
  }

  /** mgAlloc's size check on all spatial dimensions, as written. */
  function SizeCheck(g: Grid, nLevels: int): (r: Result<()>)
    requires g.Valid()
    ensures r.Ok? <==> nLevels == 0 || forall d :: 1 <= d < g.rank ==> g.trueSize[d] % 2 == 0
    ensures r.Err? ==> r.error.TrueSizeNotMultiple? && OddFirstFrom(g, 0, r.error.d)
  {
    SizeCheckFromMeaning(g, nLevels, 0);
    assert forall d :: 1 <= d < g.rank ==> g.trueSize[d] == g.trueSize[(d - 1) + 1];
    SizeCheckFrom(g, nLevels, 0)
  }

  /** The check the nLevels-1 halvings need: every spatial extent a
      multiple of 2^(nLevels-1), so that all levels halve exactly. The
      message of the source asks for the stronger 2^nLevels. */
  function CorrectedSizeCheck(g: Grid, nLevels: nat): (r: Result<()>)
    requires g.Valid()
    ensures r.Ok? <==> nLevels == 0 || forall d :: 1 <= d < g.rank ==> g.trueSize[d] % Pow2(nLevels - 1) == 0
    ensures r.Err? ==>
      && r.error.TrueSizeNotMultiple? && 0 <= r.error.d < g.NDims()
      && g.trueSize[r.error.d + 1] % Pow2(nLevels - 1) != 0
  {
    if nLevels == 0 then Ok(()) else CorrectedSizeCheckFrom(g, Pow2(nLevels - 1), 0)
  }

  /** The corrected check from spatial dimension index d on, for a level
      count whose finest extents must be multiples of p. */
  function CorrectedSizeCheckFrom(g: Grid, p: int, d: nat): (r: Result<()>)
    requires g.Valid() && p >= 1
    ensures r.Ok? <==> forall f :: d + 1 <= f < g.rank ==> g.trueSize[f] % p == 0
    ensures r.Err? ==>
      && r.error.TrueSizeNotMultiple? && d <= r.error.d < g.NDims()
      && g.trueSize[r.error.d + 1] % p != 0
    decreases g.rank - d
  {
    if d >= g.NDims() then Ok(())
    else if g.trueSize[d + 1] % p != 0 then Err(TrueSizeNotMultiple(d))
    else CorrectedSizeCheckFrom(g, p, d + 1)
  }

  /** The as-written check accepts a finest extent of 6 with 3 levels,
      although 6 is not a multiple of 2^2, while the corrected check
      rejects it. */
  lemma SizeCheckAcceptsSix()
    ensures var g := Grid(2, [1, 6], [1, 1, 6], [1, 6], [0, 0, 0, 0], 6);
      && g.Valid()
      && SizeCheck(g, 3).Ok?
      && CorrectedSizeCheck(g, 3).Err?
  {
    var g := Grid(2, [1, 6], [1, 1, 6], [1, 6], [0, 0, 0, 0], 6);
    assert g.size[..0] == [] && g.size[..1] == [1] && g.size[..2] == [1, 6];
    assert [1, 6][..1] == [1] && [1][..0] == [];
    assert Pow2(2) == 4;
  }

  /** With two or more levels, the corrected check rejects everything the
      as-written one rejects. */
  lemma CorrectedSizeCheckStronger(g: Grid, nLevels: nat)
    requires g.Valid() && nLevels >= 2
    ensures CorrectedSizeCheck(g, nLevels).Ok? ==> SizeCheck(g, nLevels).Ok?
  {
    if CorrectedSizeCheck(g, nLevels).Ok? {
      forall d | 1 <= d < g.rank ensures g.trueSize[d] % 2 == 0 {
        PowDivides(1, nLevels - 1, g.trueSize[d]);
      }
    }
  }

  // ---------------------------------------------------------------------
  // setSolvers and setRestrictProlong

  datatype Smoother = GaussSeidel2D | GaussSeidel3D | Jacobian
  datatype Restrictor = HalfWeightRestrict2D | HalfWeightRestrict3D
  datatype Prolongator = BilinearProlong2D | BilinearProlong3D

  /** Number of spatial dimensions a smoother is written for; Jacobi works
      in any. */
  function SmootherDims(s: Smoother): int
  {
    match s
    case GaussSeidel2D => 2
    case GaussSeidel3D => 3
    case Jacobian => -1
  }

  /** Look up one smoother by name for a grid with nDims spatial
      dimensions. */
  function ChooseSmoother(role: Role, name: string, nDims: int): (r: Result<Smoother>)
  {
    if name == "gaussSeidel" then
      if nDims == 2 then Ok(GaussSeidel2D)
      else if nDims == 3 then Ok(GaussSeidel3D)
      else Err(NoSmootherForDims(role, nDims))
    else if name == "jacobian" then Ok(Jacobian)
    else Err(NoSmoother(role))
  }

  /** A smoother is found exactly for "jacobian", and for "gaussSeidel" in
      two or three dimensions; a Gauss-Seidel smoother found is the one for
      the grid's dimensions; a failed lookup says whether the name or the
      dimensions were at fault. */
  lemma ChooseSmootherMeaning(role: Role, name: string, nDims: int)
    ensures ChooseSmoother(role, name, nDims).Ok?
      <==> name == "jacobian" || (name == "gaussSeidel" && (nDims == 2 || nDims == 3))
    ensures var r := ChooseSmoother(role, name, nDims);
      r.Ok? ==> (r.value == Jacobian <==> name == "jacobian")
    ensures var r := ChooseSmoother(role, name, nDims);
      r.Ok? && r.value != Jacobian ==> SmootherDims(r.value) == nDims
    ensures var r := ChooseSmoother(role, name, nDims);
      r.Err? ==> r.error == (if name == "gaussSeidel" then NoSmootherForDims(role, nDims) else NoSmoother(role))
  {
  }

  datatype Solvers = Solvers(preSmooth: Smoother, postSmooth: Smoother, coarseSolv: Smoother)

  /** setSolvers: the pre-smoother, post-smoother and coarse solver are
      looked up in that order and the first failure ends the run. */
  function SetSolvers(pre: string, post: string, coarse: string, nDims: int): (r: Result<Solvers>)
    ensures var p := ChooseSmoother(PreSmooth, pre, nDims);
      var q := ChooseSmoother(PostSmooth, post, nDims);
      var c := ChooseSmoother(CoarseSolve, coarse, nDims);
      && (r.Ok? <==> p.Ok? && q.Ok? && c.Ok?)
      && (r.Ok? ==> r.value == Solvers(p.value, q.value, c.value))
      && (r.Err? ==> r.error == (if p.Err? then p.error else if q.Err? then q.error else c.error))
  {
    match ChooseSmoother(PreSmooth, pre, nDims)
    case Err(e) => Err(e)
    case Ok(p) =>
      match ChooseSmoother(PostSmooth, post, nDims)
      case Err(e) => Err(e)
      case Ok(q) =>
        match ChooseSmoother(CoarseSolve, coarse, nDims)
        case Err(e) => Err(e)
        case Ok(c) => Ok(Solvers(p, q, c))
  }

  datatype Stencils = Stencils(restrictor: Restrictor, prolongator: Prolongator)

  /** setRestrictProlong: the restrictor, then the prolongator, chosen by
      name and by the grid's rank (3 for two spatial dimensions, 4 for
      three). The source reports a prolongator missing for the dimensions
      with the restrictor's wording; the model keeps the two apart. */
  function SetRestrictProlong(restrictor: string, prolongator: string, rank: int): (r: Result<Stencils>)
  {
    if restrictor != "halfWeight" then Err(NoRestrictor)
    else if rank != 3 && rank != 4 then Err(NoRestrictorForDims(rank - 1))
    else if prolongator != "bilinear" then Err(NoProlongator)
    else Ok(Stencils(if rank == 3 then HalfWeightRestrict2D else HalfWeightRestrict3D,
                     if rank == 3 then BilinearProlong2D else BilinearProlong3D))
  }

  /** Stencils are found exactly for "halfWeight" and "bilinear" on grids
      with two or three spatial dimensions, both for those dimensions, and
      a failure names the first stencil at fault. */
  lemma SetRestrictProlongMeaning(restrictor: string, prolongator: string, rank: int)
    ensures SetRestrictProlong(restrictor, prolongator, rank).Ok?
      <==> restrictor == "halfWeight" && prolongator == "bilinear" && (rank == 3 || rank == 4)
    ensures var r := SetRestrictProlong(restrictor, prolongator, rank);
      r.Ok? ==> (r.value.restrictor == HalfWeightRestrict2D <==> rank == 3)
                && (r.value.prolongator == BilinearProlong2D <==> rank == 3)
    ensures var r := SetRestrictProlong(restrictor, prolongator, rank);
      r.Err? ==> r.error == (if restrictor != "halfWeight" then NoRestrictor
                             else if rank != 3 && rank != 4 then NoRestrictorForDims(rank - 1)
                             else NoProlongator)
  {
  }

  // ---------------------------------------------------------------------
  // mgAlloc and mgFree

  /** The multigrid entries of the input file; absent entries read as 0
      and as empty names. */
  datatype MgConfig = MgConfig(nLevels: int, nMGCycles: int, nPreSmooth: int, nPostSmooth: int,
                               nCoarseSolve: int, preSmooth: string, postSmooth: string,
                               coarseSolv: string, restrictor: string, prolongator: string)

  datatype Multigrid = Multigrid(nLevels: int, nMGCycles: int, nPreSmooth: int, nPostSmooth: int,
                                 nCoarseSolve: int, grids: seq<Grid>, solvers: Solvers,
                                 stencils: Stencils)

  /** mgAlloc, as written: the level and cycle counts, then the size check,
      then the sub-grids, smoothers and stencils. */
  function MgAlloc(cfg: MgConfig, g: Grid): (r: Result<Multigrid>)
    requires g.Valid()
    ensures r == Err(NoLevels) <==> cfg.nLevels == 0
    ensures r == Err(NoCycles) <==> cfg.nLevels != 0 && cfg.nMGCycles == 0
    ensures r == Err(LevelArrayOverrun) <==>
      && cfg.nLevels < 0 && cfg.nMGCycles != 0
      && (forall d :: 1 <= d < g.rank ==> g.trueSize[d] % 2 == 0)
    ensures r.Ok? <==>
      && cfg.nLevels >= 1 && cfg.nMGCycles != 0
      && (forall d :: 1 <= d < g.rank ==> g.trueSize[d] % 2 == 0)
      && SetSolvers(cfg.preSmooth, cfg.postSmooth, cfg.coarseSolv, g.NDims()).Ok?
      && SetRestrictProlong(cfg.restrictor, cfg.prolongator, g.rank).Ok?
    ensures r.Ok? ==>
      && r.value.nLevels == cfg.nLevels && r.value.nMGCycles == cfg.nMGCycles
      && r.value.nPreSmooth == cfg.nPreSmooth && r.value.nPostSmooth == cfg.nPostSmooth
      && r.value.nCoarseSolve == cfg.nCoarseSolve
      && r.value.grids == AllocSubGrids(g, cfg.nLevels).value
  {
    if cfg.nLevels == 0 then Err(NoLevels)
    else if cfg.nMGCycles == 0 then Err(NoCycles)
    else match SizeCheck(g, cfg.nLevels)
      case Err(e) => Err(e)
      case Ok(_) =>
        match AllocSubGrids(g, cfg.nLevels)
        case Err(e) => Err(e)
        case Ok(grids) => Assemble(cfg, g, grids)
  }

  /** The part of mgAlloc after its checks: store the counts and grids and
      choose the algorithms. */
  function Assemble(cfg: MgConfig, g: Grid, grids: seq<Grid>): (r: Result<Multigrid>)
    requires g.Valid()
    ensures r.Err? ==> r.error !in {NoLevels, NoCycles, LevelArrayOverrun} && !r.error.TrueSizeNotMultiple?
    ensures r.Ok? <==> SetSolvers(cfg.preSmooth, cfg.postSmooth, cfg.coarseSolv, g.NDims()).Ok?
                       && SetRestrictProlong(cfg.restrictor, cfg.prolongator, g.rank).Ok?
    ensures r.Ok? ==>
      && r.value.grids == grids && r.value.nLevels == cfg.nLevels
      && r.value.nMGCycles == cfg.nMGCycles && r.value.nPreSmooth == cfg.nPreSmooth
      && r.value.nPostSmooth == cfg.nPostSmooth && r.value.nCoarseSolve == cfg.nCoarseSolve
  {
    match SetSolvers(cfg.preSmooth, cfg.postSmooth, cfg.coarseSolv, g.NDims())
    case Err(e) => Err(e)
    case Ok(solvers) =>
      match SetRestrictProlong(cfg.restrictor, cfg.prolongator, g.rank)
      case Err(e) => Err(e)
      case Ok(stencils) =>
        Ok(Multigrid(cfg.nLevels, cfg.nMGCycles, cfg.nPreSmooth, cfg.nPostSmooth,
                     cfg.nCoarseSolve, grids, solvers, stencils))
  }

  /** mgAlloc with the corrected size check and halved sub-grids. It also
      turns down a negative level count, which the source lets through. */
  function MgAllocCorrected(cfg: MgConfig, g: Grid): (r: Result<Multigrid>)
    requires g.Valid()
    ensures r == Err(NoLevels) <==> cfg.nLevels <= 0
    ensures r.Ok? ==> cfg.nLevels >= 1 && |r.value.grids| == cfg.nLevels && r.value.grids[0] == g
    ensures r.Ok? ==> CorrectedSizeCheck(g, cfg.nLevels).Ok?
    ensures r.Ok? ==> forall q :: 1 <= q < cfg.nLevels ==> r.value.grids[q] == HalvedSubGrid(g, q)
  {
    if cfg.nLevels <= 0 then Err(NoLevels)
    else if cfg.nMGCycles == 0 then Err(NoCycles)
    else match CorrectedSizeCheck(g, cfg.nLevels)
      case Err(e) => Err(e)
      case Ok(_) =>
        var grids := [g] + seq(cfg.nLevels - 1, i requires 0 <= i => HalvedSubGrid(g, i + 1));
        Assemble(cfg, g, grids)
  }

  /** Memory blocks a multigrid owns: its record, the array of level
      pointers, and the grid of a level. */
  datatype Block = MultigridRecord | LevelArray | LevelGrid(level: int)

  /** The blocks mgAlloc allocates: the record, the level array, and a new
      grid for every level but the finest, which the caller owns. */
  function Allocated(mg: Multigrid): set<Block>
  {
    {MultigridRecord, LevelArray} + set q | 1 <= q < |mg.grids| :: LevelGrid(q)
  }

  /** mgFree: the grids of levels 1..nLevels-1 and the record. The finest
      grid stays with its owner, and the level array is not released. */
  function MgFree(mg: Multigrid): (freed: set<Block>)
    ensures LevelGrid(0) !in freed
    ensures forall q :: LevelGrid(q) in freed <==> 1 <= q < mg.nLevels
  {
    {MultigridRecord} + set n | 1 <= n < mg.nLevels :: LevelGrid(n)
  }

  /** mgFree releases everything mgAlloc allocated except the level array. */
  lemma MgFreeLeaksLevelArray(cfg: MgConfig, g: Grid)
    requires g.Valid() && MgAlloc(cfg, g).Ok?
    ensures var mg := MgAlloc(cfg, g).value;
      && LevelArray in Allocated(mg) && LevelArray !in MgFree(mg)
      && MgFree(mg) == Allocated(mg) - {LevelArray}
  {
    var mg := MgAlloc(cfg, g).value;
    assert forall b :: b in MgFree(mg) <==> b in Allocated(mg) - {LevelArray};
  }

  /** mgFree releasing the level array too. */
  function MgFreeCorrected(mg: Multigrid): (freed: set<Block>)
    ensures LevelGrid(0) !in freed
  {
    MgFree(mg) + {LevelArray}
  }

  /** The corrected mgFree releases exactly what mgAlloc allocated, and
      never the caller's grid. */
  lemma MgFreeCorrectedReleasesAll(cfg: MgConfig, g: Grid)
    requires g.Valid() && MgAlloc(cfg, g).Ok?
    ensures var mg := MgAlloc(cfg, g).value;
      MgFreeCorrected(mg) == Allocated(mg) && LevelGrid(0) !in Allocated(mg)
  {
    var mg := MgAlloc(cfg, g).value;
    assert forall b :: b in MgFreeCorrected(mg) <==> b in Allocated(mg);
  }

  /** In the corrected hierarchy every level has exactly half the true
      points of the one above it, along every spatial dimension. */
  lemma CorrectedLevelsHalve(cfg: MgConfig, g: Grid, q: nat, d: int)
    requires g.Valid() && MgAllocCorrected(cfg, g).Ok?
    requires q + 1 < cfg.nLevels && 1 <= d < g.rank
    ensures var grids := MgAllocCorrected(cfg, g).value.grids;
      grids[q].trueSize[d] == 2 * grids[q + 1].trueSize[d]
  {
    HalvedSubGridsHalve(g, cfg.nLevels, q, d);
    assert Pow2(0) == 1;
  }
}
