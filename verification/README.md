# PINC bookkeeping core in Dafny

PINC is a particle-in-cell plasma simulator. The domain is split over a grid
of processes, and a multigrid solver finds the electric potential. This
project models the integer and index bookkeeping of that program and proves
properties of it. It has four parts.

- **Topology** (`topology.dfy`, src/pusher.c). Neighbour directions are
  base-3 numbers with one digit per dimension: digit 0, 1 or 2 is an offset
  of -1, 0 or +1. Three operations are modelled:
  - the reciprocal direction (`puNeighborToReciprocal`);
  - the rank of a neighbour with periodic wrap (`puNeighborToRank`);
  - the inverse decoding (`puRankToNeighbor`).
- **Migration** (`migration.dfy`, `exchange.dfy`, src/pusher.c). A particle
  is a (position, velocity) tuple of reals. The population is one store with
  a live range `[iStart[s], iStop[s])` per species s. Modelled are:
  - the threshold classification of a particle into a neighbour direction;
  - the swap-with-last extraction of `puExtractEmigrantsND`, which packs
    per-neighbour send buffers and counts;
  - the periodic shift of `shiftImmigrants`;
  - the append of `importParticles`;
  - the message tags of `exchangeNMigrants` and `exchangeMigrants`, and the
    receive loop, with the arrival order as a parameter.
- **Multigrid** (`multigrid.dfy`, `vcycle.dfy`, src/multigrid.c). Modelled
  are:
  - the configuration checks of `mgAlloc`;
  - the per-level sizes, strides and slice sizes of `mgAllocSubGrids`;
  - the name-to-algorithm dispatch of `setSolvers` and `setRestrictProlong`;
  - what `mgFree` releases;
  - the calls `mgVCycle` and `linearMGSolv` make, as a trace of steps, each
    naming the levels it touches.

  The multigrid code is modelled as written. Where it differs from what its
  own comments and messages ask for, a corrected variant is proved beside
  it (see Findings).
- **Array helpers** (`aux.dfy`, src/aux.c). The integer loops are methods
  with loop invariants, checked against recursive reference definitions.
  They are cumulative product and sum, sum, product, max, min, extreme
  value, equality, set-all, copy and element-wise add. `strCatAlloc` is
  modelled too.

Errors that the C code reports through `msg(ERROR, ...)`, which ends the
run, are `Err` values of a `Result` type. Configuration values that the C
code reads with `iniparser` are fields of a plain `MgConfig` record.

## Model

| member | source | states |
|---|---|---|
| Aux.CumProd | src/aux.c:403-416 | res[0] is 1 and res[i+1] = res[i]*a[i] for i < n, so every res[i] is the product of a[0..i) |
| Aux.CumSum | src/aux.c:423-436 | res[0] is 0 and res[i+1] = res[i]+a[i] for i < n, so every res[i] is the sum of a[0..i) |
| Aux.ArraySum | src/aux.c:240-250 | the result is the sum of the first n entries |
| Aux.ArrayProd | src/aux.c:270-280 | the result is the product of the first n entries |
| Aux.ArrayMax | src/aux.c:186-196 | the result is one of the entries scanned (a[0] when n <= 1) and is >= each of the first n entries |
| Aux.ArrayMin | src/aux.c:204-214 | the result is one of the entries scanned (a[0] when n <= 1) and is <= each of the first n entries |
| Aux.ArrayExt | src/aux.c:222-232 | the result is an entry of largest absolute value among the first n; on a tie between max and -min it is the negative one; with n <= 1 it is a[0], which the scans read even when n is 0 |
| Aux.ArrayEq | src/aux.c:388-396 | the result is 0 or 1, and it is 1 exactly when the first n entries of a and b are pairwise equal |
| Aux.SetAll | src/aux.c:438-452 | exactly the first n entries become value; every later entry is unchanged |
| Aux.ArrayCopy | src/aux.c:497-499 | b[0..n) becomes a[0..n); the rest of b is unchanged |
| Aux.ArrayAdd | src/aux.c:132-138 | entry i of the result is a[i]+b[i] for every i < n |
| Aux.StrCat | src/aux.c:94-122 | the result is the argument strings concatenated in order; its length is the sum of their lengths |
| Aux.ConcatLength | src/aux.c:99-108 | the length the first pass adds up is the length of the concatenation, so the allocation fits |
| Topology.Digits | src/pusher.c:551-554 | a direction has exactly nDims base-3 digits, each in 0..2 |
| Topology.DigitsRoundTrip | src/pusher.c:551-554 | reading back the digits of a direction below 3^nDims gives the direction |
| Topology.FromDigitsRoundTrip | src/pusher.c:551-554 | any digit string encodes a direction below 3^k whose digits are that string |
| Topology.DigitsInjective | src/pusher.c:551-554 | two directions below 3^k with the same digits are equal |
| Topology.CenterDigits | src/pusher.c:547-558 | the centre direction is below 3^nDims and all its digits are 1 |
| Topology.CenterIn3D | src/pusher.c:293 | in three dimensions the centre direction is 13 |
| Topology.Reciprocal | src/pusher.c:547-558 | the result is below 3^nDims, and each of its digits is 2 minus the input's digit |
| Topology.ReciprocalInvolution | src/pusher.c:547-558 | the reciprocal of the reciprocal of a direction is the direction itself |
| Topology.ReciprocalFixesOnlyCenter | src/pusher.c:547-558 | a direction is its own reciprocal exactly when it is the centre |
| Topology.Wrap | src/pusher.c:568-572 | the wrapped coordinate subdomain[d]+digit-1, taken modulo nSubdomains[d], lies in [0, nSubdomains[d]) |
| Topology.NeighborCoords | src/pusher.c:567-575 | the neighbour's coordinates form a valid subdomain position of the same grid |
| Topology.NeighborToRankFrom | src/pusher.c:567-575 | the partial rank from dimension d on lies in [0, NProcs - nSubdomainsProd[d]] |
| Topology.NeighborToRank | src/pusher.c:560-578 | the rank of every neighbour lies in [0, product of nSubdomains) |
| Topology.NeighborToRankLinear | src/pusher.c:560-578 | the rank is the linearisation, with nSubdomainsProd, of the neighbour's wrapped coordinates |
| Topology.NeighborToRankFromLinear | src/pusher.c:567-575 | the loop from dimension d on computes the linearisation of the wrapped coordinates from d on |
| Topology.NeighborToRankCenter | src/pusher.c:560-578 | the centre direction gives the process's own rank, the sum of subdomain[d]*nSubdomainsProd[d] |
| Topology.ReciprocalCoords | src/pusher.c:386-391 | from the neighbour's coordinates, the reciprocal direction leads back to this process's coordinates |
| Topology.TagAgreement | src/pusher.c:386-391 | the process that P sends to in direction ne has rank NeighborToRank(ne); its direction reciprocal(ne), which is the send's tag, has rank P |
| Topology.StridesPositive | src/pusher.c:574 | every stride nSubdomainsProd[d] is at least 1 |
| Topology.LinearIsMixed | src/pusher.c:574 | the linearisation from d on is nSubdomainsProd[d] times a mixed-radix number |
| Topology.RankToNeighborFromInverse | src/pusher.c:586-594 | when every nSubdomains[d] >= 3, decoding from d on the rank of wrapped coordinates gives back the digits |
| Topology.RankToNeighborInverse | src/pusher.c:580-598 | when every nSubdomains[d] >= 3, puRankToNeighbor(puNeighborToRank(ne)) == ne for every direction ne |
| Migration.DigitBoundaries | src/pusher.c:350 | the digit is 0 iff x < lower, 2 iff x >= upper and 1 iff lower <= x < upper; a particle exactly at upper migrates up, one exactly at lower stays |
| Migration.ClassifyFrom | src/pusher.c:347-356 | the loop over dimensions d >= k yields a number below 3^(nDims-k) whose digits are the per-dimension digits from k on |
| Migration.Classify | src/pusher.c:346-356 | a particle's direction is below 3^nDims and its digits are the per-dimension classification digits |
| Migration.ClassifyCenterIff | src/pusher.c:346-357 | a particle classifies to the centre exactly when lower[d] <= pos[d] < upper[d] in every dimension |
| Migration.Classify3DAgrees | src/pusher.c:290-293 | the 3D formula 13 + nx + 3ny + 9nz gives the same direction as the ND loop with nDims = 3 |
| Migration.RemoveAt | src/pusher.c:362-366 | removing slot p by moving the last particle into it shortens the range by one, keeps the slots before p, and loses exactly live[p] from the multiset |
| Migration.ScanSpecies | src/pusher.c:346-368 | the scan keeps a prefix unchanged, keeps only centre particles, logs each removed particle with its direction, and loses or duplicates nothing (the multisets add up) |
| Migration.ScanPartition | src/pusher.c:346-368 | the particles kept are exactly the live ones that classify to the centre, and the ones removed exactly those that do not (counted with multiplicity) |
| Migration.ScanWindow | src/pusher.c:346-368 | the scan loop on the memory it writes: the old live range keeps its length and stays well shaped |
| Migration.ScanWindowKept | src/pusher.c:346-368 | after the loop the old live range starts with exactly the kept particles, and every slot beyond the final cursor keeps its old content; the slot at the final cursor is not promised |
| Migration.VacatedSlotOverwritten | src/pusher.c:362-366 | when both of two particles leave, slot 0, where the empty live range now ends, holds a copy of the second one, not the first |
| Migration.PackBuffers | src/pusher.c:358-359 | buffer ne grows by the particles packed for ne, in scan order, and only by those |
| Migration.PackCounts | src/pusher.c:360 | count (ne, s) grows by the number packed for ne; every other species' count is unchanged |
| Migration.WindowOf | src/pusher.c:346-368 | species s's old live range as the loop leaves it: as long as before, the kept particles first, and beyond the first vacated slot the old particles |
| Migration.Shrink | src/pusher.c:362-366 | species s's old live range is overwritten by the loop's window and its live part is the window's first n particles; every other species and every slot outside the old range is unchanged |
| Migration.ExtractFrom | src/pusher.c:341-369 | species s.. are processed in order, each as the scan describes, on top of the buffers and counts so far; each old live range of s.. holds that species' window, and every other slot is unchanged |
| Migration.ExtractEmigrants | src/pusher.c:322-370 | iStop[s] drops by the number of emigrants of s; every particle left classifies to the centre; nothing is lost; buffer ne holds what went to ne, grouped by species in increasing order; count (ne, s) is the number of those of species s; each species' old live range holds exactly what the loop leaves there, and every slot outside the old live ranges is unchanged |
| Migration.ExtractionVacated | src/pusher.c:322-370 | the new iStop[s] is iStart[s] plus the number kept, and every vacated slot after the first keeps its old particle |
| Migration.ExtractedAll | src/pusher.c:322-370 | the extraction's result, stated per species and per neighbour |
| Migration.NothingForCenter | src/pusher.c:357 | the centre's buffer stays empty and its counts stay 0 |
| Migration.ExtractionConserves | src/pusher.c:339-366 | summed over all neighbours, the counts of species s equal the drop of iStop[s]; the packed particles of s together with those left are the original ones |
| Migration.LogConserved | src/pusher.c:357-360 | every logged emigrant is counted once and packed for exactly one neighbour |
| Migration.BufferMatchesCounts | src/pusher.c:358-360 | each neighbour's buffer holds as many particles as its count row adds up to |
| Migration.FlattenLength | src/pusher.c:358-359 | a buffer of k particles is 2*nDims*k numbers long |
| Migration.UnflattenFlatten | src/pusher.c:433-434 | reading a flattened buffer back, with any trailing data after it, gives the particles that were packed |
| Migration.ShiftFrom | src/pusher.c:408-417 | the loop from dimension d on adds (digit_e(ne) - 1)*trueSize[e+1] to each coordinate e >= d and leaves the earlier ones alone |
| Migration.ShiftParticle | src/pusher.c:408-417 | only the position moves, by the direction's offset in each dimension; the velocity is unchanged |
| Migration.ShiftImmigrants | src/pusher.c:401-419 | the first total particles move by the offsets of direction ne; velocities and all later particles are unchanged |
| Migration.ShiftReciprocal | src/pusher.c:401-419 | in exact arithmetic, shifting by the reciprocal direction undoes a shift (the program's double additions round; see Left out) |
| Migration.OffsetReciprocal | src/pusher.c:409-412 | the reciprocal direction's offset in each dimension is the negated offset |
| Migration.Chunks | src/pusher.c:427-438 | the buffer is cut into one piece per species from s on, one piece for each remaining entry of nParticles |
| Migration.ChunkSizes | src/pusher.c:427-438 | piece t of the cut holds exactly nParticles[s+t] particles, the count announced for that species |
| Migration.ChunksJoin | src/pusher.c:427-438 | cutting pieces laid end to end at their own sizes gives the pieces back |
| Migration.Grow | src/pusher.c:429-437 | species s's live range is extended by the added particles in order; every other species and every slot outside the new part is unchanged |
| Migration.ImportFrom | src/pusher.c:427-438 | species s.. each get their piece of the buffer appended, in order |
| Migration.ImportParticles | src/pusher.c:422-440 | iStop[s] grows by nParticles[s]; species s's live range is its old particles followed by its piece of the buffer; no other slot changes |
| Migration.ImportPieces | src/pusher.c:422-440 | importing a buffer made of per-species pieces laid end to end gives each species its own piece |
| Exchange.CountSends | src/pusher.c:384-393 | every non-centre direction posts its count row to the neighbour's rank, tagged with the reciprocal direction; the centre posts nothing |
| Exchange.CountRecvs | src/pusher.c:384-393 | every non-centre direction m posts a receive from the neighbour's rank with tag m; the centre posts nothing |
| Exchange.CountsDelivered | src/pusher.c:384-398 | the row P sends towards ne is taken by the neighbour's receive for direction reciprocal(ne), which stores it as that direction's row |
| Exchange.CountsReceived | src/pusher.c:384-398 | every posted receive is matched by the send of the neighbour in that direction |
| Exchange.SendTagsDistinct | src/pusher.c:390 | two different directions send with different tags |
| Exchange.PayloadSends | src/pusher.c:454-462 | every non-centre direction sends exactly its flattened buffer, which is 2*nDims times its count sum long, to the neighbour's rank with the reciprocal tag |
| Exchange.ExtractionConsistent | src/pusher.c:322-370 | every buffer the extraction leaves is well shaped and holds as many particles as its counts add up to |
| Exchange.GroupedIsJoin | src/pusher.c:341-360 | a send buffer is its per-species pieces laid end to end |
| Exchange.SumFromIsSum | src/pusher.c:405 | the front-to-back sum of counts equals alSum of them |
| Exchange.Moved | src/pusher.c:408-417 | every particle moves by the direction's offset; velocities are unchanged |
| Exchange.MovedBack | src/pusher.c:401-419 | in exact arithmetic, moving by the reciprocal direction undoes a move (the program's double additions round; see Left out) |
| Exchange.MovedIsShift | src/pusher.c:401-419 | shifting a whole receive buffer moves every particle in it |
| Exchange.ChunksMoved | src/pusher.c:401-440 | moving the buffer and then cutting it gives the same pieces as cutting it and then moving each piece |
| Exchange.Incoming | src/pusher.c:470-476 | the particles of an arrival are as many as its direction's counts add up to |
| Exchange.ReceiveOne | src/pusher.c:470-476 | after shift and import, species s has its old particles followed by its piece of the message, moved by the arrival's offset; iStop[s] grows by the count |
| Exchange.Delivery | src/pusher.c:443-482 | when P's buffer for ne arrives at the neighbour with tag reciprocal(ne), with stale data after it, each species there gains exactly what P packed for ne, moved into the neighbour's coordinates |
| Exchange.DeliveryFacts | src/pusher.c:341-360 | the extraction's buffer for ne is its per-species pieces laid end to end, and the pieces' sizes are the count row |
| Exchange.ReceivePieces | src/pusher.c:470-476 | a message of pieces laid end to end, received with those sizes as counts, adds each piece, moved, to its species |
| Exchange.ArrivedHead | src/pusher.c:467-478 | what arrivals k.. add is arrival k's piece followed by what arrivals k+1.. add |
| Exchange.ReceiveFrom | src/pusher.c:467-478 | after arrivals k.., in the order given, each species holds its old particles followed by every arrival's piece in that order, and iStop[s] grows by the announced counts |
| Exchange.ReceiveAll | src/pusher.c:443-482 | the receive loop over nNeighbors-1 arrivals, in whatever order they come, appends every arrival's moved piece to each species |
| Multigrid.CumProdsRecurrence | src/multigrid.c:143 | the strides, whose entry i is the product of size[0..i), obey the loop of Aux.CumProd: they start at 1 and each entry is the previous one times the next extent |
| Multigrid.MaxSliceTo | src/multigrid.c:134-141 | the running maximum of slice sizes is never negative |
| Multigrid.MaxSliceIsMax | src/multigrid.c:134-141 | the maximum bounds every slice size and is either 0 or the size of some slice |
| Multigrid.SliceTimesExtent | src/multigrid.c:135-139 | the slice across dimension d times size[d] is the element count |
| Multigrid.NSliceMax | src/multigrid.c:133-141 | the nested loop returns the largest product of all extents but one; it bounds every slice and is attained (or 0) |
| Multigrid.SubTrueSize | src/multigrid.c:118-123 | level q keeps trueSize[0] and has as many entries as the finest grid |
| Multigrid.SubGrid | src/multigrid.c:113-162 | every level is a valid grid of the same rank with the finest grid's ghost layers |
| Multigrid.SubGridExtents | src/multigrid.c:118-131 | level q's extent d >= 1 is trueSize[d] divided by 2q, rounded down, and size[d] adds both ghost layers |
| Multigrid.SubGridSlices | src/multigrid.c:133-143 | level q's strides end in its element count, and every slice fits in its nSliceMax |
| Multigrid.AllocSubGrids | src/multigrid.c:99-166 | fails with LevelArrayOverrun exactly when the level array of nLevels+1 slots has no slot for grids[0]; otherwise there are max(nLevels, 1) levels, level 0 is the caller's grid and level q >= 1 is SubGrid(g, q) |
| Multigrid.SizeCheckFromMeaning | src/multigrid.c:277-281 | the check passes iff nLevels is 0 or every extent from d on is even; an error names the first odd one |
| Multigrid.SizeCheck | src/multigrid.c:276-281 | as written, the check passes exactly when nLevels is 0 or every spatial extent is even, and an error names the first odd one |
| Multigrid.SizeCheckAcceptsSix | src/multigrid.c:276-281 | an extent of 6 with 3 levels passes the check as written but is not a multiple of 2^(3-1) |
| Multigrid.CorrectedSizeCheck | src/multigrid.c:276-281 | passes exactly when every spatial extent is a multiple of 2^(nLevels-1), which is what the nLevels-1 halvings need (the message asks for the stronger 2^nLevels); an error names a dimension that is not |
| Multigrid.CorrectedSizeCheckStronger | src/multigrid.c:276-281 | for two or more levels, whatever the corrected check accepts the written one accepts too |
| Multigrid.SubTrueSizeAtLevelThree | src/multigrid.c:123 | dividing by 2q agrees with halving at levels 1 and 2, but at level 3 an extent of 32 becomes 5 instead of 4 |
| Multigrid.HalvedTrueSize | src/multigrid.c:122-123 | the halved extents keep trueSize[0] and the rank |
| Multigrid.HalvedSubGrid | src/multigrid.c:113-162 | a halved level is a valid grid of the same rank and ghost layers, with extents trueSize[d]/2^q |
| Multigrid.HalvedLevelsHalve | src/multigrid.c:122-123 | for an extent divisible by 2^(nLevels-1), each halved level is exactly twice the next |
| Multigrid.HalvedSubGridsHalve | src/multigrid.c:122-123 | once the corrected check passes, level q's extent is exactly twice level q+1's |
| Multigrid.ChooseSmootherMeaning | src/multigrid.c:35-63 | a smoother is chosen iff the name is "jacobian", or "gaussSeidel" in 2 or 3 dimensions; Gauss-Seidel matches the grid's dimensions; the two error kinds are told apart |
| Multigrid.SetSolvers | src/multigrid.c:26-73 | all three roles succeed iff each choice does, with the chosen smoothers; the first failing role's error is reported |
| Multigrid.SetRestrictProlongMeaning | src/multigrid.c:75-96 | succeeds iff "halfWeight" and "bilinear" are given and the rank is 3 or 4; rank 3 selects the 2D variants; errors report the restrictor name, then the rank, then the prolongator name |
| Multigrid.MgAlloc | src/multigrid.c:256-301 | fails with NoLevels iff nLevels is 0 and with NoCycles iff nMGCycles is 0 after that; overruns the level array iff nLevels < 0 passes the checks; succeeds iff nLevels >= 1 and all checks pass; the result copies the counts and holds the levels of mgAllocSubGrids |
| Multigrid.Assemble | src/multigrid.c:283-299 | past the sanity checks, construction succeeds iff the solver dispatch does, and reports no sanity-check error |
| Multigrid.MgAllocCorrected | src/multigrid.c:256-301 | rejects nLevels <= 0; on success there are nLevels levels, level 0 is the caller's grid, the corrected check passed and level q is the grid halved q times |
| Multigrid.CorrectedLevelsHalve | src/multigrid.c:113-123 | in the corrected hierarchy every level's extents are exactly twice the next level's |
| Multigrid.MgFree | src/multigrid.c:303-315 | the level-q grid is freed iff 1 <= q < nLevels; the caller's grid never is |
| Multigrid.MgFreeLeaksLevelArray | src/multigrid.c:303-315 | mgFree releases everything mgAlloc allocated except the array of level pointers |
| Multigrid.MgFreeCorrected | src/multigrid.c:303-315 | freeing the level array too never frees the caller's grid |
| Multigrid.MgFreeCorrectedReleasesAll | src/multigrid.c:303-315 | the corrected mgFree releases exactly what mgAlloc allocated |
| VCycles.VCycleEnds | src/multigrid.c:935-990 | a cycle has at least two steps; below the finest level it ends by prolonging into the level above; from level 0 it ends with post-smoothing |
| VCycles.CorrectionIsProlonged | src/multigrid.c:972-977 | every correction added at level l comes right after the prolongation from level l+1 into res[l] |
| VCycles.VCycleSolvesOnce | src/multigrid.c:935-975 | one V-cycle does exactly one coarse solve, at the target level |
| VCycles.CoarseSolvesAppend | src/multigrid.c:935-975 | coarse solves of a trace add up over its parts |
| VCycles.VCycleInRange | src/multigrid.c:931-991 | with a target level of at least 1, every grid a cycle touches is one of levels 0..target |
| VCycles.VCycleCorrectedAgrees | src/multigrid.c:935-941 | the guarded coarse branch changes nothing when the target level is at least 1 |
| VCycles.VCycleCorrectedInRange | src/multigrid.c:931-991 | with the coarse prolongation guarded by level > 0, every grid touched exists for any target level |
| VCycles.Repeat | src/multigrid.c:1000-1002 | nMGCycles repetitions are nMGCycles times as long |
| VCycles.RepeatCoarseSolves | src/multigrid.c:1000-1002 | n repetitions of a trace do n times its coarse solves |
| VCycles.RepeatInRange | src/multigrid.c:1000-1002 | repeating a trace touches no new levels |
| VCycles.LinearMGSolvCycles | src/multigrid.c:993-1005 | linearMGSolv does exactly nMGCycles coarse solves |
| VCycles.LinearMGSolvInRange | src/multigrid.c:993-1005 | with at least two levels, every grid the solve touches exists in the hierarchy mgAlloc built |
| VCycles.SingleLevelAccepted | src/multigrid.c:256-301 | mgAlloc accepts a 2D configuration (a 4 x 4 grid) with a single level |
| VCycles.NegativeLevelsOverrun | src/multigrid.c:99-107 | with nLevels = -1 and even extents the size check passes and mgAllocSubGrids stores grids[0] outside its level array, while the corrected mgAlloc rejects the count with NoLevels |
| VCycles.SingleLevelProlongsOutside | src/multigrid.c:935-941 | with one level, the solve's second step prolongs into level -1, outside the hierarchy |
| VCycles.LinearMGSolvCorrectedInRange | src/multigrid.c:993-1005 | with the guard and the corrected allocation, every grid the solve touches exists, for any level count |

## Left out

- Message passing. `MPI_Isend`, `MPI_Irecv`, `MPI_Recv` and `MPI_Waitall` are not modelled as concurrency. The sends and receives are `Post` records, and `Matches` pairs them by rank and tag. The order in which `exchangeMigrants` receives is a parameter, the `arrivals` sequence.
- Floating-point kernels are left out: the smoothers, restriction, prolongation, `mgResidual`, `puAcc3D1`, `puDistr3D1` and `puInterp3D1`. Grid values are left out too. The V-cycle records these kernels only as steps with their levels and sweep counts.
- `puMove` and `puBndPeriodic` are left out. They are plain float updates outside the bookkeeping.
- The deprecated `puBndIdMigrants3D` and `puBndIdMigrantsND` are left out. They are marked as not working, and their classification is the one modelled.
- `puExtractEmigrants3D` is left out as a separate member. Its classification equals the ND loop at nDims = 3 (Classify3DAgrees). Its packing order (x, y, z, vx, vy, vz) and its swap-with-last removal are those of `puExtractEmigrantsND` at nDims = 3.
- Parts of src/aux.c outside the integer helpers are left out:
  - the timers and the print and dump functions;
  - the GSL rotation;
  - the tolerance compare `adEq`;
  - `adNormal` and `adReflect`;
  - the double-precision `ad*` variants;
  - the scale, shift, multiply, average and dot-product helpers.
- `iniparser` and `msg` are left out. A configuration is an `MgConfig` value, and an error is an `Err` result, because the run ends there.
- Integer width. All integers are unbounded. The C code uses `int` and `long int`, and some accumulators are narrower than their results. The members below do not model overflow, because it only occurs with counts beyond any grid the program allocates:
  - Aux.ArraySum: `aiSum` accumulates in a 32-bit `int`; no wrap-around is modelled.
  - Aux.ArrayProd: `aiProd` accumulates in a 32-bit `int`; no wrap-around is modelled.
  - Aux.CumProd: the `int` and `long int` variants are one method over unbounded integers.
  - Aux.CumSum: the `int` and `long int` variants are one method over unbounded integers.
  - Topology.Reciprocal: the source computes 3^d with the floating-point `pow`. It is exact for every dimension count the program uses, so it is modelled as an integer power.
- Aux.SetAll: `aiSetAll`, `alSetAll` and `bSetAll` are one generic method.
- Aux.ArrayAdd: the result holds only the n entries written. The rest of the caller's `res` array is not modelled.
- Aux.StrCat: requires at least one string. With n = 0 the source reads an argument that was never passed.
- Aux.StrCat: a string is a sequence of characters with no terminator. The source measures its arguments with `strlen`, so a C string ends at its first NUL byte; embedded NULs and bytes versus characters are not modelled.
- Multigrid.CumProds: `longIntArrCumProd`, which src/multigrid.c:143 calls, is not part of this model. Its result is taken to be the cumulative products that Aux.CumProd computes.
- Aux.CumProd: the result is a new sequence of n+1 entries. The source writes into an array the caller passes, so the caller's entries past n, and a call where `res` and `a` are the same array, are not modelled.
- Aux.CumSum: the result is a new sequence of n+1 entries. The source writes into an array the caller passes, so the caller's entries past n, and a call where `res` and `a` are the same array, are not modelled.
- Migration.ShiftImmigrants: positions are exact reals. The source adds the shift to `double` coordinates, and each addition rounds, so the model's positions are the exact sums.
- Migration.ShiftReciprocal: holds in exact arithmetic only. In `double`, shifting and shifting back can differ from the start in the last bits, for example (0.1 + 64.0) - 64.0 is not 0.1.
- Exchange.MovedBack: holds in exact arithmetic only, for the same reason as Migration.ShiftReciprocal.
- Buffer capacity. The source does not check the emigrant buffers, the receive buffer or the species ranges for overflow. The model has these preconditions instead:
  - `Room` and `RoomForAll` state that the species ranges fit;
  - `Readable` states that an arrival holds the particles its counts announce;
  - send buffers are unbounded sequences.
- The flat count array `nEmigrants[ne*nSpecies+s]` is modelled as a sequence of rows, `counts[ne][s]`. The source reads and writes it only in per-neighbour blocks of nSpecies.
- The `pos` and `vel` arrays of the population are one store of `Particle` tuples. The source indexes both the same way.
- The grid buffers `val` and `slice`, and the HDF5 handle, are left out. Only their sizes are modelled (`sizeProd[rank]`, `nSliceMax`).
- `mgAllocSubGrids` allocates `(nLevels+1)*sizeof(Grid)` for an array of pointers. For nLevels >= 0 that is more than needed, so only the number of slots is modelled. For nLevels <= -1 it leaves no slot for `grids[0]`; see Findings.
- VCycles.LinearMGSolv: requires nLevels >= 1. Every hierarchy MgAlloc returns has that many levels: a negative count that passes the check as written ends in the level-array overrun of mgAllocSubGrids (see Findings), and with such a count `mgVCycle` would recurse without reaching its target level, so no finite trace exists.
- The V-cycle uses the sweep counts of the source-term hierarchy (`mgRho`), as the source does. The three hierarchies share level numbers, so only levels are tracked.
- Multigrid.SetRestrictProlong: the source's error for a prolongator with a wrong rank reuses the restrictor's wording. That branch cannot be reached, because the rank is checked first when the restrictor is chosen and that error ends the run. The model has no such error.

## Findings

| source | as written | input that shows it | evidently intended | confidence | as-written member | corrected member |
|---|---|---|---|---|---|---|
| src/multigrid.c:277-281 | `trueSize[d+1] % (int) 2*nLevels` parses as `(trueSize[d+1] % 2) * nLevels`, so only odd extents are rejected | trueSize 6 with 3 levels passes, but 6 is not a multiple of 2^(3-1) = 4 | every spatial extent is a multiple of 2^(nLevels-1), so each of the nLevels-1 coarsenings halves exactly; the message asks for the stronger 2^nLevels, which the halvings do not need | not executed | Multigrid.SizeCheck, Multigrid.SizeCheckAcceptsSix | Multigrid.CorrectedSizeCheck, Multigrid.CorrectedSizeCheckStronger, Multigrid.HalvedSubGridsHalve |
| src/multigrid.c:123 | level q's extent is `trueSize[d]/(2*q)`, which halves only from level 0 to 1 and from 1 to 2 | trueSize 32 at level 3 gives 5, but halving three times gives 4 | level q's extent is `trueSize[d]/2^q` ("the subgrid needs half the grid points"), so each level is half the one before | not executed | Multigrid.SubTrueSize, Multigrid.SubTrueSizeAtLevelThree | Multigrid.HalvedSubGrid, Multigrid.HalvedLevelsHalve, Multigrid.CorrectedLevelsHalve |
| src/multigrid.c:935-941 | at the coarsest level, mgVCycle prolongs into `mgRes->grids[level-1]` without the `level > 0` guard used at line 988 | nLevels = 1 (accepted by mgAlloc for a 2D 4 x 4 grid): the first cycle prolongs into level -1 | the coarsest level prolongs only when level > 0, as the finer levels do | not executed | VCycles.SingleLevelProlongsOutside | VCycles.VCycleCorrectedInRange, VCycles.LinearMGSolvCorrectedInRange |
| src/multigrid.c:303-315 | mgFree frees levels 1..nLevels-1 and the record, but not the `grids` array that mgAllocSubGrids allocated | any successful mgAlloc followed by mgFree | mgFree releases everything mgAlloc allocated except the caller's grid | not executed | Multigrid.MgFreeLeaksLevelArray | Multigrid.MgFreeCorrectedReleasesAll |
| src/multigrid.c:99-107 | the size check is `(trueSize[d+1] % 2) * nLevels`, so a negative level count passes when every extent is even; mgAllocSubGrids then allocates `(nLevels+1)*sizeof(Grid)` bytes, zero or a wrapped size, and stores `grids[0]` into it | nLevels = -1 with a 2D 4 x 4 grid: the check passes and `grids[0]` is written to a zero-byte block | level counts below 1 are rejected like 0 is | not executed | Multigrid.MgAlloc, VCycles.NegativeLevelsOverrun | Multigrid.MgAllocCorrected |
