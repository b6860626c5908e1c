/** The control flow of the multigrid V-cycle (mgVCycle and linearMGSolv in
    src/multigrid.c) as the sequence of grid operations it performs. Each
    step names the levels of the three hierarchies (source term rho,
    potential phi, residual res) that it reads or writes; the numerical
    kernels behind the steps are not modelled. */
module VCycles {
  import opened Multigrid

  /** One call made by mgVCycle. */
  datatype Step =
    | ZeroPhi(level: int)                      // gZero(phi[level])
    | PreSmoothing(level: int, sweeps: int)    // preSmooth(phi[level], rho[level], nPreSmooth)
    | Residual(level: int)                     // mgResidual(res[level], rho[level], phi[level])
    | Restrict(level: int)                     // restrictor(res[level], rho[level + 1])
    | AddCorrection(level: int)                // gAddTo(phi[level], res[level])
    | PostSmoothing(level: int, sweeps: int)   // postSmooth(phi[level], rho[level], nPostSmooth)
    | CoarseSolving(level: int, sweeps: int)   // coarseSolv(phi[level], rho[level], nCoarseSolve)
    | Prolong(level: int)                      // prolongator(res[level - 1], phi[level])

  /** The levels whose grids a step reads or writes. */
  function Touched(s: Step): set<int>
  {
    match s
    case Restrict(l) => {l, l + 1}
    case Prolong(l) => {l - 1, l}
    case _ => {s.level}
  }

  /** Every grid a trace touches exists in a hierarchy of nLevels levels. */
  predicate InRange(trace: seq<Step>, nLevels: int)
  {
    forall i :: 0 <= i < |trace| ==> forall l :: l in Touched(trace[i]) ==> 0 <= l < nLevels
  }

  /** Number of coarse solves in a trace. */
  function CoarseSolves(trace: seq<Step>): nat
  {
    if |trace| == 0 then 0
    else CoarseSolves(trace[..|trace| - 1]) + (if trace[|trace| - 1].CoarseSolving? then 1 else 0)
  }

  /** mgVCycle from level down to targetLvl and back, as written: the
      coarsest level solves and then prolongs into level-1 unconditionally.
      The counts are those of the source-term hierarchy. */
  function VCycle(mg: Multigrid, level: int, target: int): seq<Step>
    requires 0 <= level <= target
    decreases target - level
  {
    if level == target then
      [CoarseSolving(level, mg.nCoarseSolve), Prolong(level)]
    else
      [ZeroPhi(level), PreSmoothing(level, mg.nPreSmooth), Residual(level), Restrict(level)]
      + VCycle(mg, level + 1, target)
      + [AddCorrection(level), PostSmoothing(level, mg.nPostSmooth)]
      + (if level > 0 then [Prolong(level)] else [])
  }

  /** mgVCycle with the coarsest level's prolongation guarded by level > 0,
      as the finer levels' already is. */
  function VCycleCorrected(mg: Multigrid, level: int, target: int): seq<Step>
    requires 0 <= level <= target
    decreases target - level
  {
    if level == target then
      [CoarseSolving(level, mg.nCoarseSolve)] + (if level > 0 then [Prolong(level)] else [])
    else
      [ZeroPhi(level), PreSmoothing(level, mg.nPreSmooth), Residual(level), Restrict(level)]
      + VCycleCorrected(mg, level + 1, target)
      + [AddCorrection(level), PostSmoothing(level, mg.nPostSmooth)]
      + (if level > 0 then [Prolong(level)] else [])
  }

  /** The two cycles differ only when the finest level is also the
      coarsest: below the top of the recursion they are the same. */
  lemma {:induction false} VCycleCorrectedAgrees(mg: Multigrid, level: int, target: int)
    requires 0 <= level <= target && 1 <= target
    ensures VCycleCorrected(mg, level, target) == VCycle(mg, level, target)
    decreases target - level
  {
    if level < target {
      VCycleCorrectedAgrees(mg, level + 1, target);
    }
  }

  /** A cycle below the finest level ends by prolonging its result into
      the residual of the level above; the cycle of the finest level ends
      with its post-smoothing. */
  lemma VCycleEnds(mg: Multigrid, level: int, target: int)
    requires 0 <= level <= target
    ensures var t := VCycle(mg, level, target);
      && |t| >= 2
      && (level > 0 ==> t[|t| - 1] == Prolong(level))
      && (level == 0 < target ==> t[|t| - 1] == PostSmoothing(0, mg.nPostSmooth))
  {
  }

  /** Every correction a level adds to its potential is the one just
      prolonged from the level below it into its residual. */
  lemma {:induction false} CorrectionIsProlonged(mg: Multigrid, level: int, target: int)
    requires 0 <= level <= target
    ensures var t := VCycle(mg, level, target);
      forall i :: 0 <= i < |t| && t[i].AddCorrection? ==> 0 < i && t[i - 1] == Prolong(t[i].level + 1)
    decreases target - level
  {
    if level < target {
      var sub := VCycle(mg, level + 1, target);
      CorrectionIsProlonged(mg, level + 1, target);
      VCycleEnds(mg, level + 1, target);
      var head := [ZeroPhi(level), PreSmoothing(level, mg.nPreSmooth), Residual(level), Restrict(level)];
      var tail := [AddCorrection(level), PostSmoothing(level, mg.nPostSmooth)]
        + (if level > 0 then [Prolong(level)] else []);
      var t := VCycle(mg, level, target);
      assert t == head + sub + tail;
      forall i | 0 <= i < |t| && t[i].AddCorrection?
        ensures 0 < i && t[i - 1] == Prolong(t[i].level + 1)
      {
        if 4 <= i < 4 + |sub| {
          assert t[i] == sub[i - 4] && t[i - 1] == sub[i - 5];
        } else if i >= 4 + |sub| {
          assert t[i] == tail[i - 4 - |sub|];
          assert i == 4 + |sub|;
          assert t[i - 1] == sub[|sub| - 1];
        }
      }
    }
  }

  /** A V-cycle solves on the coarsest level exactly once and nowhere
      else. */
  lemma {:induction false} VCycleSolvesOnce(mg: Multigrid, level: int, target: int)
    requires 0 <= level <= target
    ensures CoarseSolves(VCycle(mg, level, target)) == 1
    ensures var t := VCycle(mg, level, target);
      forall i :: 0 <= i < |t| && t[i].CoarseSolving? ==> t[i].level == target
    decreases target - level
  {
    if level < target {
      var sub := VCycle(mg, level + 1, target);
      VCycleSolvesOnce(mg, level + 1, target);
      var head := [ZeroPhi(level), PreSmoothing(level, mg.nPreSmooth), Residual(level), Restrict(level)];
      var tail := [AddCorrection(level), PostSmoothing(level, mg.nPostSmooth)]
        + (if level > 0 then [Prolong(level)] else []);
      CoarseSolvesAppend(head, sub);
      CoarseSolvesAppend(head + sub, tail);
      CoarseSolvesNone(head);
      CoarseSolvesNone(tail);
      var t := VCycle(mg, level, target);
      assert t == head + sub + tail;
      forall i | 0 <= i < |t| && t[i].CoarseSolving? ensures t[i].level == target {
        if 4 <= i < 4 + |sub| {
          assert t[i] == sub[i - 4];
        }
      }
    } else {
      var t := VCycle(mg, level, target);
      assert t[..|t| - 1] == [t[0]] && [t[0]][..0] == [];
      assert CoarseSolves([t[0]]) == 1;
    }
  }

  lemma {:induction false} CoarseSolvesAppend(a: seq<Step>, b: seq<Step>)
    ensures CoarseSolves(a + b) == CoarseSolves(a) + CoarseSolves(b)
    decreases |b|
  {
    if |b| > 0 {
      var b' := b[..|b| - 1];
      assert (a + b)[..|a + b| - 1] == a + b';
      CoarseSolvesAppend(a, b');
    } else {
      assert a + b == a;
    }
  }

  lemma {:induction false} CoarseSolvesNone(a: seq<Step>)
    requires forall i :: 0 <= i < |a| ==> !a[i].CoarseSolving?
    ensures CoarseSolves(a) == 0
  {
    if |a| > 0 {
      CoarseSolvesNone(a[..|a| - 1]);
    }
  }

  /** With at least two levels every grid the cycle touches lies between
      the starting level and the coarsest one. */
  lemma {:induction false} VCycleInRange(mg: Multigrid, level: int, target: int)
    requires 0 <= level <= target && 1 <= target
    ensures InRange(VCycle(mg, level, target), target + 1)
    decreases target - level
  {
    if level < target {
      VCycleInRange(mg, level + 1, target);
      var head := [ZeroPhi(level), PreSmoothing(level, mg.nPreSmooth), Residual(level), Restrict(level)];
      var tail := [AddCorrection(level), PostSmoothing(level, mg.nPostSmooth)]
        + (if level > 0 then [Prolong(level)] else []);
      assert InRange(head, target + 1) && InRange(tail, target + 1);
      InRangeAppend(head, VCycle(mg, level + 1, target), target + 1);
      InRangeAppend(head + VCycle(mg, level + 1, target), tail, target + 1);
    }
  }

  /** The corrected cycle stays within the hierarchy for any number of
      levels, one included. */
  lemma VCycleCorrectedInRange(mg: Multigrid, target: int)
    requires 0 <= target
    ensures InRange(VCycleCorrected(mg, 0, target), target + 1)
  {
    if target >= 1 {
      VCycleCorrectedAgrees(mg, 0, target);
      VCycleInRange(mg, 0, target);
    }
  }

  lemma InRangeAppend(a: seq<Step>, b: seq<Step>, nLevels: int)
    requires InRange(a, nLevels) && InRange(b, nLevels)
    ensures InRange(a + b, nLevels)
  {
    forall i | 0 <= i < |a + b|
      ensures forall l :: l in Touched((a + b)[i]) ==> 0 <= l < nLevels
    {
      if i < |a| {
        assert (a + b)[i] == a[i];
      } else {
        assert (a + b)[i] == b[i - |a|];
      }
    }
  }

  /** trace repeated n times, or empty when n is not positive. */
  function Repeat(trace: seq<Step>, n: int): (r: seq<Step>)
    ensures |r| == (if n <= 0 then 0 else n * |trace|)
  {
    if n <= 0 then [] else Repeat(trace, n - 1) + trace
  }

  /** linearMGSolv, as written: nMGCycles V-cycles from the finest level
      down to level nLevels-1. A hierarchy without levels is left out: for
      it the source's recursion never reaches its target. */
  function LinearMGSolv(mg: Multigrid): seq<Step>
    requires mg.nLevels >= 1
  {
    Repeat(VCycle(mg, 0, mg.nLevels - 1), mg.nMGCycles)
  }

  /** linearMGSolv built from the corrected V-cycle. */
  function LinearMGSolvCorrected(mg: Multigrid): seq<Step>
    requires mg.nLevels >= 1
  {
    Repeat(VCycleCorrected(mg, 0, mg.nLevels - 1), mg.nMGCycles)
  }

  lemma {:induction false} RepeatCoarseSolves(trace: seq<Step>, n: int)
    ensures CoarseSolves(Repeat(trace, n)) == (if n <= 0 then 0 else n * CoarseSolves(trace))
  {
    if n > 0 {
      RepeatCoarseSolves(trace, n - 1);
      CoarseSolvesAppend(Repeat(trace, n - 1), trace);
      var c := CoarseSolves(trace);
      assert (n - 1) * c + c == n * c;
    }
  }

  lemma {:induction false} RepeatInRange(trace: seq<Step>, n: int, nLevels: int)
    requires InRange(trace, nLevels)
    ensures InRange(Repeat(trace, n), nLevels)
  {
    if n > 0 {
      RepeatInRange(trace, n - 1, nLevels);
      InRangeAppend(Repeat(trace, n - 1), trace, nLevels);
    }
  }

  /** The solve performs one coarse solve per requested cycle. */
  lemma LinearMGSolvCycles(mg: Multigrid)
    requires mg.nLevels >= 1
    ensures CoarseSolves(LinearMGSolv(mg)) == (if mg.nMGCycles <= 0 then 0 else mg.nMGCycles)
  {
    VCycleSolvesOnce(mg, 0, mg.nLevels - 1);
    RepeatCoarseSolves(VCycle(mg, 0, mg.nLevels - 1), mg.nMGCycles);
  }

  /** With two or more levels, the solve on a hierarchy mgAlloc built only
      touches levels that hierarchy has. */
  lemma LinearMGSolvInRange(cfg: MgConfig, g: Grid)
    requires g.Valid() && MgAlloc(cfg, g).Ok? && cfg.nLevels >= 2
    ensures var mg := MgAlloc(cfg, g).value;
      InRange(LinearMGSolv(mg), |mg.grids|)
  {
    var mg := MgAlloc(cfg, g).value;
    VCycleInRange(mg, 0, mg.nLevels - 1);
    RepeatInRange(VCycle(mg, 0, mg.nLevels - 1), mg.nMGCycles, mg.nLevels);
  }

  /** A 4 x 4 grid without ghost layers. */
  function SmallGrid(): Grid
  {
    Grid(3, [1, 4, 4], [1, 1, 4, 16], [1, 4, 4], [0, 0, 0, 0, 0, 0], 16)
  }

  /** One level, one cycle, Jacobi smoothing and the usual stencils. */
  function SingleLevel(): MgConfig
  {
    MgConfig(1, 1, 1, 1, 1, "jacobian", "jacobian", "jacobian", "halfWeight", "bilinear")
  }

  /** mgAlloc accepts a single-level configuration. */
  lemma SingleLevelAccepted()
    ensures SmallGrid().Valid() && MgAlloc(SingleLevel(), SmallGrid()).Ok?
  {
    var g := SmallGrid();
    assert g.size[..0] == [] && g.size[..1] == [1] && g.size[..2] == [1, 4] && g.size[..3] == [1, 4, 4];
    assert [1, 4, 4][..2] == [1, 4] && [1, 4][..1] == [1] && [1][..0] == [];
    assert g.Valid() && SizeCheck(g, 1).Ok?;
    assert "jacobian" != "gaussSeidel";
    assert ChooseSmoother(PreSmooth, "jacobian", 2).Ok?;
    assert SetRestrictProlong("halfWeight", "bilinear", 3).Ok?;
  }

  /** A negative level count passes mgAlloc's checks when every extent is
      even, and mgAllocSubGrids then stores grids[0] outside its level array;
      the corrected allocation rejects the count. */
  lemma NegativeLevelsOverrun()
    ensures var cfg := SingleLevel().(nLevels := -1);
      && SmallGrid().Valid() && SizeCheck(SmallGrid(), -1).Ok?
      && MgAlloc(cfg, SmallGrid()) == Err(LevelArrayOverrun)
      && MgAllocCorrected(cfg, SmallGrid()) == Err(NoLevels)
  {
    var g := SmallGrid();
    assert g.size[..0] == [] && g.size[..1] == [1] && g.size[..2] == [1, 4] && g.size[..3] == [1, 4, 4];
    assert [1, 4, 4][..2] == [1, 4] && [1, 4][..1] == [1] && [1][..0] == [];
    assert g.Valid() && SizeCheck(g, -1).Ok?;
  }

  /** With a single level mgAlloc accepts the configuration, but the solve
      then prolongs into the residual grid of level -1, before the start of
      the level array. */
  lemma SingleLevelProlongsOutside()
    ensures SmallGrid().Valid() && MgAlloc(SingleLevel(), SmallGrid()).Ok?
    ensures var mg := MgAlloc(SingleLevel(), SmallGrid()).value;
      && mg.nLevels == 1
      && LinearMGSolv(mg)[1] == Prolong(0)
      && -1 in Touched(Prolong(0))
      && !InRange(LinearMGSolv(mg), |mg.grids|)
  {
    SingleLevelAccepted();
    var mg := MgAlloc(SingleLevel(), SmallGrid()).value;
    assert Repeat(VCycle(mg, 0, 0), 1) == VCycle(mg, 0, 0);
    assert -1 in Touched(LinearMGSolv(mg)[1]);
  }

  /** The corrected solve on a hierarchy built by the corrected mgAlloc only
      touches levels that hierarchy has, whatever its number of levels. */
  lemma LinearMGSolvCorrectedInRange(cfg: MgConfig, g: Grid)
    requires g.Valid() && MgAllocCorrected(cfg, g).Ok?
    ensures var mg := MgAllocCorrected(cfg, g).value;
      InRange(LinearMGSolvCorrected(mg), |mg.grids|)
  {
    var mg := MgAllocCorrected(cfg, g).value;
    VCycleCorrectedInRange(mg, mg.nLevels - 1);
    RepeatInRange(VCycleCorrected(mg, 0, mg.nLevels - 1), mg.nMGCycles, mg.nLevels);
  }
}
