# JUPITER: verified cores

JUPITER is a multiphase-flow code written in C with MPI and OpenMP.  This project models six of its
parts in Dafny and proves what they are for.  `dafny verify dfyconfig.toml` checks everything.

Numbers of the C type `type` are `real`, integers are unbounded unless a word width is named.  A field
is one flat array in the program's own row-major layout (`Layout`).  Axis 0 is z, 1 is y, 2 is x;
direction `2 * axis` points down and `2 * axis + 1` up, which is the order of `nrk[]` in the source.

**Halo exchange and walls** (`Layout`, `Ranks`, `Slab`, `Halo`, `ExchangeProtocol`, `HaloExchange`,
`HaloTheorems`, `BcfWall`, `BcfTheorems`).  The slab loops and the buffer layout are methods on arrays.
The exchange is a distributed protocol: each rank packs, posts its messages, waits, unpacks and moves
on to the next axis at its own speed, over channels that are told apart by source and tag only.  Every
interleaving yields the lock-step result, no reachable state is stuck, and after the z, y and x phases
every cell inside the domain, edges and corners included, holds the global field.  This needs
`n >= stcl` on every axis with three or more ranks, and there a concrete field shows that it fails
without.  Mirroring the walls afterwards gives the global field folded at the walls, whatever the rank
grid.

**Pressure projection** (`Frames`, `Ghosts`, `GhostLaws`, `Flow`, `Projection`, `FlowSteps`,
`FlowLaws`, `MatrixRows`, `PressureMatrix`, `DivergenceFree`, `Sums`, `Definiteness`, `Decomposition`,
`Conservation`).  The matrix assembly, the ghost fills, the velocity correction and the divergence are
methods.  `ProjectionResidual` gives the exact divergence left after the correction for any pressure
and any walls; for clean faces and a pressure that solves the system stored in the matrix array only
the 1e-10 shift is left, and `CleanExactly` says which faces are clean.  The matrix is symmetric and
strictly dominant, and on one rank negative definite, by summation by parts along every line of the
grid, for every grid size.  The rows several ranks assemble are the rows of that one matrix, so the
distributed system has at most one solution too.  `FlowLaws` and `GhostLaws` read the physics off the
flat arrays: inlets, momentum on a face, stored entries and ghosts; and no cell loses volume that its
neighbour does not gain (`Conservation`).

**Temperature matrix** (`Thermal`, `HeatLaws`).  Eliminating the ghosts into the row is exact for
insulated and isothermal walls, for the stored matrix and right-hand side too; `EliminationResidual`
gives the exact difference with diffusion walls.  A face conducts as two half cells in series, and a
uniform field only stores heat.

**Communication-avoiding CG** (`Vectors`, `CacgCoordinates`, `CacgUpdate`, `CacgTheorems`,
`ConjugateGradients`, `CacgRun`, `GramMatrix`, `CacgGram`, `CacgNext`, `BlockPreconditioner`,
`MatrixSweeps`).  The short coordinate recurrences, the in-place slot updates in their four variants,
the threaded Gram tables and the two-sweep block preconditioner are methods.  One block is shown to be
`smax` steps of the preconditioned three-term CG method on the long vectors, scalars included; the
residual slots stay residuals over whole runs; updating `x` late changes nothing; and the
preconditioner's result does not depend on how the threads interleave, and works on the rows that the
matrix assembly has stored.  For symmetric definite matrices a whole run of blocks keeps all its
residuals conjugate, divides by zero nowhere before a residual is zero, and has a zero residual after
as many inner steps as there are unknowns, in exact arithmetic.  `CacgNext.RunContinues` says what the
callers must hand to the next block for that: the recorded scalars in the small matrices, and a Gram
matrix put together from the tables and the recorded `myu`.

**Material pairs** (`PairIndex`, `Selection`).  Both address tables are bijections; the triangular one
is inverted through a digit-by-digit integer root that never leaves its word.  The barycentre distances
of the reduction amount to keeping the two largest rates, ties by position.

**Work sharing, search and formats** (`WorkSharing`, `ParallelSearch`, `SearchBarriers`,
`SearchResult`, `CountingSearch`, `Format`, `FormatStandard`, `FormatMatch`, `FormatLanguage`, `Glob`,
`Inlet`).  The thread protocols are state machines whose steps are the atomic actions.  The two passes
of the formatter, the matcher that undoes it and the glob pattern are methods on buffers; `Inlet` is
the pivoted normalisation of volume fractions.

Where the source disagrees with what its comments or callers expect, the code is followed and a
theorem says exactly when the expectation holds:

- The formatter's first pass does not count the blank of a `' '` flag for a non-negative number in at
  most one column (`Format.PassesAgree`).  `FormatIntegers` therefore asks that no such conversion occurs.
- The formats are documented as C-compliant.  The output is that of the standard (section 7.21.6.1 of
  ISO C17) exactly where `FormatStandard.Complies` holds: a zero flag beside a plus flag is dropped, a
  blank flag keeps room for a blank beside a sign, and a written precision of zero counts as none.
- The matcher's overflow check looks for a negative number only: 4294967296 is read as 0 and no error is
  recorded (`FormatMatch.UnrecordedOverflow`, `FormatMatch.OverflowExactly`).
- The matcher reads a minus sign and drops it: a value comes back exactly when it is not negative
  (`FormatMatch.RecoversValue`).  It does not expect the blanks a number may be printed with at its end:
  a format whose conversions have ends of their own is matched exactly when what follows takes up all
  such blanks (`FormatMatch.MatchUndoesFormat`).
- Several threads may together count more matches than the bound of the counting search asks for, by
  less than one per thread and block (`CountingSearch.StopsEarly`).
- The plain slot loop of the CG update is wrong for `smax = 1` unless the step ignores the older slot
  (`CacgUpdate.PlainLoopAtOne`); the source has a separate function for that case.
- The comment on `shared_nb` asks for it to be initialised; the protocol does not need that.
- Threads of a search may leave the loop behind different blocks (`SearchBarriers.ThreadsMayLeaveApart`
  is a run): exactly when there are two or more of them and the first matching cell is in nobody's first
  block (`SearchBarriers.LeaveApartExactly`).  One of them then waits for ever at a barrier the others
  have left behind exactly when that block is not the last one either (`SearchBarriers.StrandedExactly`).
- `vel_correction` and `make_matrix_array` weigh a face by different porosity factors;
  `Flow.EpsAgreeExactly` says when they coincide, and `Projection.CleanExactly` when it matters.

## Model

| member | source | states |
|---|---|---|
| Layout.StructIndexOfAddr | jupiter/common_util.h:29-84 | taking an address apart gives back the cell it was formed from |
| Layout.AddrOfStructIndex | jupiter/common_util.h:59-84 | exactly the addresses below the size are accepted, and each is the address of the cell returned |
| Layout.AddrInjective | jupiter/common_util.h:29-40 | two cells never share an address |
| Ranks.NeighbourSymmetric | jupiter/communication.c:143-170 | s is r's neighbour in a direction exactly when r is s's in the opposite one |
| Ranks.OneDirection | jupiter/communication.c:772-812 | two ranks are joined in at most one direction, so source and tag identify a message |
| Ranks.MpiParam.SetForRank | jupiter/communication.c:96-173 | the error status is raised exactly for ranks outside the grid, and nrk holds the six grid neighbours or -1 |
| Ranks.CalcPtr | jupiter/communication.c:860-895 | active segments start where the earlier active ones end, and the last entry is the space used |
| Ranks.SegmentsDisjoint | jupiter/communication.c:860-895 | segments of directions with a neighbour do not overlap |
| Ranks.SegmentsFit | jupiter/communication.c:916 | all segments fit into the buffer the exchange allocates |
| Slab.Pack | jupiter/communication.c:595-639 | the slab is written to its segment in loop order and the rest of the buffer is untouched |
| Slab.Unpack | jupiter/communication.c:431-475 | exactly the cells of the slab take the message's values |
| Slab.UnpackPacked | jupiter/communication.c:431-639 | a packed slab unpacks to the cells it was taken from, shifted by the offset of the two slabs |
| Halo.CalcPtrLays | jupiter/communication.c:860-916 | the offsets computed at run time form a disjoint layout inside the allocated buffers |
| Halo.PackAxis | jupiter/communication.c:698-715 | both messages of an axis end up in their own segments, neither disturbing the other |
| Halo.UnpackAxis | jupiter/communication.c:549-568 | the field after one phase, as a function of the two segments received |
| ExchangeProtocol.StepKeeps | jupiter/communication.c:901-971 | every step of any rank keeps the invariant that ties fields and channels to the lock-step fields |
| ExchangeProtocol.AnyOrderIsLockStep | jupiter/communication.c:901-971 | a rank that is done holds the lock-step result, whatever the order of all ranks' steps |
| ExchangeProtocol.NoDeadlock | jupiter/communication.c:901-971 | in every state the invariant allows, some rank can act until all are done |
| ExchangeProtocol.RunIsShort | jupiter/communication.c:901-971 | no run has more steps than the work of its ranks, so every exchange ends |
| HaloExchange.HaloSystemValid | jupiter/communication.c:772-812 | every send has its one matching receive on the other side, in every phase and on every grid |
| HaloExchange.AfterAt | jupiter/communication.c:901-971 | each cell after the three phases holds the initial value of one determined cell of one determined rank |
| HaloTheorems.HaloShowsGlobal | jupiter/communication.c:901-971 | every local cell inside the domain equals the global field there, edges and corners included |
| HaloTheorems.AnyScheduleShowsGlobal | jupiter/communication.c:901-971 | the same for a real run in which ranks proceed at any speed |
| HaloTheorems.InteriorUnchanged | jupiter/communication.c:901-971 | no interior cell of any rank changes |
| HaloTheorems.SecondExchangeIsIdle | jupiter/communication.c:901-971 | a second exchange changes nothing at all |
| HaloTheorems.NarrowSubdomainsFail | jupiter/communication.c:901-971 | on any grid with three or more ranks on an axis and fewer cells than halo layers there, some field comes out wrong |
| BcfWall.MirrorWall | jupiter/boundary.c:283-362 | one wall's loops give its ghosts the mirrored cells and leave all others alone |
| BcfWall.Wall | jupiter/boundary.c:283-362 | all six walls in order equal the composed mirror images |
| BcfWall.WallsAt | jupiter/boundary.c:283-362 | after all walls each cell shows the cell at its folded coordinates on the three axes |
| BcfTheorems.FoldIsMirror | jupiter/boundary.c:283-362 | local folding at the outer ranks is mirroring in global coordinates |
| BcfTheorems.BcfShowsMirror | jupiter/boundary.c:195-204 | after exchange and walls every cell shows the global field mirrored into the domain |
| BcfTheorems.BcfIsReflection | jupiter/boundary.c:195-204 | every ghost shows the cell whose centre lies as far from the wall plane, on its other side |
| BcfTheorems.DecompositionDoesNotMatter | jupiter/boundary.c:195-204 | two rank grids give the same value at the same global position |
| Ghosts.BoundaryPointSymmetry | jupiter/boundary.c:30-39 | every ghost of the line reflects its image about the given value; nothing else changes |
| Ghosts.BoundaryLineSymmetry | jupiter/boundary.c:57-64 | every ghost of the line equals the cell as far inside as it is outside |
| Ghosts.BctDiffusion | jupiter/boundary.c:2187-2198 | ghosts continue the slope at the wall linearly, cut off at the limit |
| Ghosts.FillSide | jupiter/boundary.c:563-600 | a side's double loop fills exactly the ghosts in front of that side's cells |
| Ghosts.FillGhosts | jupiter/boundary.c:563-670 | the six sides in order, those with a neighbour left out |
| Ghosts.FirstGhost | jupiter/boundary.c:535-670 | the first ghost behind a wall cell follows that cell's condition, whatever the other five sides do |
| Ghosts.OthersKept | jupiter/boundary.c:563-670 | a cell that is no ghost of a wall keeps its value |
| GhostLaws.GhostsObey | jupiter/boundary.c:535-670 | every ghost of every layer whose partner is a cell equals it, has its mean with it equal to the wall value, or continues the slope at the wall line down to the limit |
| Flow.EpsAgreeExactly | jupiter/divergence_free.c:158-215 | the exact condition on two porosities under which matrix and correction weigh their face alike |
| Projection.FaceChange | jupiter/divergence_free.c:139-226 | the correction changes the flux through a face by coefficient times pressure jump, and not at all at an inlet |
| Projection.DivergenceChange | jupiter/divergence_free.c:35-226 | the recomputed divergence differs by the net correction through the six faces |
| Projection.RowIsBalance | jupiter/ccse_poisson.c:375-490 | a matrix row, ghosts eliminated, is that net correction up to the shift and named defects |
| Projection.ProjectionResidual | jupiter/divergence_free.c:312-314 | the divergence left over is residual, shift and defects, exactly, for any pressure |
| Projection.CleanHasNoDefect | jupiter/boundary.c:535-558 | clean faces have no defect: equal porosity factors, outlets at zero pressure, other walls, immersed inlets |
| Projection.UncleanHasDefect | jupiter/ccse_poisson.c:212-244 | a face that is not clean has a defect for some pressure with filled ghosts |
| Projection.CleanExactly | jupiter/boundary.c:535-558 | so a face is clean if and only if it never has a defect |
| Projection.ProjectionClearsDivergence | jupiter/divergence_free.c:228-314 | with a solution of the system exactly -1e-10 p is left in every cell |
| FlowSteps.FaceFlow | jupiter/divergence_free.c:19-33 | the velocity a face contributes: the prescribed one on an immersed inlet |
| FlowSteps.Divergence | jupiter/divergence_free.c:35-137 | every cell gets its divergence, and the returned number is the largest magnitude among them |
| FlowSteps.CorrectAxis | jupiter/divergence_free.c:139-226 | one component is corrected on every face of the domain and nowhere else |
| FlowSteps.VelCorrection | jupiter/divergence_free.c:139-226 | all three components are corrected with the same pressure |
| FlowLaws.FaceVelocityIs | jupiter/divergence_free.c:75-111 | from the arrays: an inlet at place 3 j + axis imposes its velocity times the normal component at that place, any other face has u[j] |
| FlowLaws.DivergenceFromArrays | jupiter/divergence_free.c:60-130 | divergence times dt is the sum over the axes of the face velocities' difference over the spacing, neighbours lying 1, mx and mx my places further on |
| FlowLaws.DivergenceIsOdd | jupiter/divergence_free.c:19-130 | turning round all velocities and surface normals turns round the divergence, inlets included |
| FlowLaws.CorrectionLaw | jupiter/divergence_free.c:158-219 | on every face velocity change times mean density is minus porosity times pressure gradient times dt, the porosity being the smaller positive one or 1 |
| Conservation.VolumeIsConserved | jupiter/divergence_free.c:35-137 | the divergence of all cells together is the net flow through the sides of the domain, whatever immersed inlets lie inside |
| MatrixRows.SentinelIsSafe | jupiter/ccse_poisson.c:384-490 | a column number is -1 only where its direction is a wall, so no real entry is dropped |
| MatrixRows.RankZeroIsCorner | jupiter/communication.c:143-170 | rank 0 has no lower neighbours, which the sentinel relies on |
| MatrixRows.SlotInjective | jupiter/ccse_poisson.c:484-490 | no two entries of the matrix share a place in the array |
| MatrixRows.StoreRow | jupiter/ccse_poisson.c:484-490 | the seven entries of a row are stored and every other place is kept |
| PressureMatrix.CloseInlet | jupiter/ccse_poisson.c:228-244 | a face with an immersed inlet loses its coefficient, and the diagonal is adjusted by the same amount |
| PressureMatrix.CloseWall | jupiter/ccse_poisson.c:213-226 | the diagonal absorbs the eliminated ghost according to the wall |
| PressureMatrix.AssembleRow | jupiter/ccse_poisson.c:300-490 | the seven entries of a row equal the specified matrix, for any number of walls and inlets |
| PressureMatrix.MakeMatrix | jupiter/ccse_poisson.c:246-495 | every row of the domain is in place when the loops end |
| PressureMatrix.StoredIsRow | jupiter/ccse_poisson.c:484-490 | the stored array applied to a field is the specified matrix applied to it |
| FlowLaws.StoredFaceLaw | jupiter/ccse_poisson.c:300-490 | a stored entry times the mean density is the smaller porosity over the squared spacing, and zero beside a wall and across an inlet |
| FlowLaws.UniformLaw | jupiter/ccse_poisson.c:381 | away from outlets a uniform pressure gives -1e-10 times itself |
| DivergenceFree.StoredMeansSolved | jupiter/divergence_free.c:228-325 | a field that solves the stored system solves the specified one in every cell |
| DivergenceFree.BcpFillsGhosts | jupiter/boundary.c:535-670 | the pressure ghosts are the ones the matrix rows assume |
| DivergenceFree.BcpKeepsRow | jupiter/boundary.c:535-670 | filling the ghosts changes no row and no cell value |
| DivergenceFree.FromSolution | jupiter/divergence_free.c:228-325 | from an exact solution of the stored system, ghost fill, correction and divergence in that order leave -1e-10 p everywhere |
| Definiteness.Symmetric | jupiter/ccse_poisson.c:300-490 | neighbours couple to each other with the same entry, on any rank, across immersed inlets too |
| Definiteness.StrictlyDominant | jupiter/ccse_poisson.c:340-490 | the diagonal exceeds the rest of its row by at least 1e-10, on any rank |
| Definiteness.EnergyIdentity | jupiter/ccse_poisson.c:300-490 | the quadratic form is minus the weighted squared jumps, the outlet terms and the shift, summed over the whole grid |
| Definiteness.NegativeDefinite | jupiter/ccse_poisson.c:300-490 | the form is never positive and vanishes only on the zero field |
| Definiteness.OnlyTrivialKernel | jupiter/ccse_poisson.c:246-495 | the homogeneous system has only the zero solution |
| Definiteness.SolutionIsUnique | jupiter/ccse_poisson.c:246-495 | a right-hand side has at most one pressure field |
| Decomposition.LocalRowIsGlobal | jupiter/ccse_poisson.c:246-495 | a row of any rank, applied to what the rank holds, is the row of the whole domain's matrix |
| Decomposition.DistributedKernel | jupiter/ccse_poisson.c:246-495 | if all rows of all ranks give zero, the field is zero on every rank |
| Thermal.BctFills | jupiter/boundary.c:2234-2377 | insulated ghosts copy, isothermal ghosts reflect about the wall temperature, in cells touching up to six walls |
| Thermal.BctKeepsReduced | jupiter/boundary.c:2267-2377 | the reduced row sees no ghost of a wall |
| Thermal.EliminationResidual | jupiter/ccse_poisson.c:498-640 | full stencil and reduced system differ exactly by the diffusion walls' fluxes |
| Thermal.EliminationIsExact | jupiter/ccse_poisson.c:498-640 | without diffusion walls the reduced row holds if and only if the full stencil does |
| Thermal.AssembleRowT | jupiter/ccse_poisson.c:560-636 | entries and right-hand side of one cell after all wall adjustments |
| Thermal.MakeMatrixT | jupiter/ccse_poisson.c:515-640 | all rows are stored, and each right-hand side is shifted once, in place |
| Thermal.StoredIsReduced | jupiter/ccse_poisson.c:515-640 | the stored array applied to a field is the reduced row |
| Thermal.StoredSystemIsExact | jupiter/ccse_poisson.c:515-640 | without diffusion walls the stored system holds in a cell if and only if the full stencil does |
| HeatLaws.SeriesLaw | jupiter/ccse_poisson.c:567-573 | the conductance of a face is that of two half cells in series: some face temperature makes both carry its heat |
| HeatLaws.StoredFaceLaw | jupiter/ccse_poisson.c:567-636 | a stored entry times the sum of the two conductivities is twice their product over the squared spacing, and zero beside a wall |
| HeatLaws.UniformLaw | jupiter/ccse_poisson.c:583-586 | in a uniform field without prescribed wall temperatures a row is the heat stored per step and the shift of 1e-8 |
| HeatLaws.WallGhosts | jupiter/boundary.c:2187-2377 | behind every wall, in every layer whose partner is a cell: no gradient when insulated, the prescribed temperature on an isothermal wall, the slope of the last two cells down to the limit where heat diffuses |
| CacgCoordinates.NextD | jupiter/cacg.c:776-838 | the two TBsk products together are one application of the coordinate operator |
| CacgCoordinates.PreInner | jupiter/cacg.c:711-887 | the recorded rows and scalars satisfy the inner recurrences of all smax steps |
| CacgCoordinates.FirstTracks | jupiter/cacg.c:766-780 | the first dsk is the operator applied to the first gsk, for small matrices of the documented shape |
| CacgCoordinates.CoordinatesTrack | jupiter/cacg.c:738-887 | in every inner step dsk is the operator applied to gsk |
| CacgUpdate.Solver.Combine | jupiter/cacg.c:1543-1576 | the accumulation loop yields the basis combined with a row of dsk |
| CacgUpdate.Solver.Recur | jupiter/cacg.c:1607-1633 | for smax >= 2 the in-place loops run the recurrence although slot 0 is overwritten first |
| CacgUpdate.Solver.Update | jupiter/cacg.c:1404-1885 | the whole new state of an outer update and the squared residual |
| CacgUpdate.Solver.UpdateFused | jupiter/cacg.c:1579-1606 | the fused form for smax = 3, with x and x_1 taking turns, leaves the same state as the generic loops |
| CacgUpdate.Solver.UpdateNox | jupiter/cacg.c:2560-2603 | the same update without touching x and x_1 |
| CacgUpdate.Solver.UpdateLate | jupiter/cacg.c:2989-3098 | x catches up on the old slots and then takes part in the update |
| CacgUpdate.Solver.UpdateSingle | jupiter/cacg.c:3304-3515 | for smax = 1 saving the slot first keeps the recurrence |
| CacgUpdate.PlainLoopAtOne | jupiter/cacg.c:1607-1633 | at smax = 1 the plain loop is right exactly if rho is 1 or the last two slots agree |
| CacgTheorems.SlotsTrack | jupiter/cacg.c:1802-1866 | every new slot is the old basis combined with the coordinates of its residual |
| CacgTheorems.CoordinatesGrow | jupiter/cacg.c:738-887 | the j-th residual needs no coordinate from s + j on, so a block never runs out of basis |
| CacgTheorems.CoordinatesReach | jupiter/cacg.c:738-887 | inside a block no residual refers to the oldest slot, and in the first block none to any old slot, because rho starts as one |
| CacgTheorems.CombinedIsA | jupiter/cacg.c:1802-1866 | each combined vector is the operator applied to the new q slot |
| CacgTheorems.BlockIsCg | jupiter/cacg.c:711-887 | a block's slots and scalars are those of the three-term CG method on the long vectors |
| CacgTheorems.StaysPreconditioned | jupiter/cacg.c:1607-1633 | if the q basis is the preconditioned z basis, so are the new slots |
| CacgTheorems.GramForm | jupiter/cacg.c:842-866 | the quadratic forms on coordinates are inner products of the long vectors |
| CacgTheorems.UpdateKeepsResiduals | jupiter/cacg.c:1634-1885 | the last two Z slots stay the residuals of x and x_1 for any rho and gamma |
| CacgTheorems.BlockKeepsResiduals | jupiter/cacg.c:1404-1885 | and with the coefficients of pre_inner that is what happens |
| CacgTheorems.FirstUpdateMakesResiduals | jupiter/cacg.c:1404-1885 | the very first update makes both slots residuals from the newest one alone |
| CacgTheorems.RunKeepsResiduals | jupiter/cacg.c:1404-1885 | over any number of outer updates |
| CacgTheorems.DeferredPair | jupiter/cacg.c:2383-3302 | leaving x behind once and catching up gives the state of two plain updates |
| CacgTheorems.DeferredRunIsRun | jupiter/cacg.c:2383-3302 | whole deferred runs equal plain runs of twice the length |
| ConjugateGradients.NextIsConjugate | jupiter/cacg.c:738-887 | with these gamma and rho a new residual is conjugate to every earlier one, not only to the last two |
| ConjugateGradients.DivisorNonzero | jupiter/cacg.c:869-876 | for definite matrices the divisor of rho is not zero |
| ConjugateGradients.ResidualsConjugate | jupiter/cacg.c:738-887 | until a residual is zero, all are mutually conjugate and no quotient has a zero divisor |
| ConjugateGradients.EndsInTime | jupiter/cacg.c:738-887 | among the residuals 0 to n of any run of the method one is zero, n being the number of unknowns |
| CacgRun.RunIsCg | jupiter/cacg.c:711-887 | the residual slots of a run of blocks, in order, are a run of the three-term CG method |
| CacgRun.RunIsConjugate | jupiter/cacg.c:711-887 | so they are mutually conjugate and pre_inner divides by zero nowhere until one of them is zero |
| CacgRun.RunEnds | jupiter/cacg.c:711-887 | blocks with at least as many inner steps as unknowns have made a zero residual |
| GramMatrix.TeamHasAll | jupiter/cacg.c:56-108 | dealing planes out to threads and adding up in any order gives the inner product over all cells |
| GramMatrix.GramLocal | jupiter/cacg.c:11-120 | both result tables, for every dealing and every order; the row that is not written stays |
| GramMatrix.BoxIsDot | jupiter/cacg.c:68-97 | the loops' sum is the inner product of the two slots' vectors of unknowns |
| GramMatrix.UnknownAt | jupiter/cacg.c:68-97 | the unknown of a cell is the slot's value at l m + (jx + stmx) + mx (jy + stm) + mxy (jz + stm) |
| CacgGram.GramLocalMakesTables | jupiter/cacg.c:11-120 | what the loops leave are the inner products of the slots' vectors, entry by entry |
| CacgGram.AssembledIsGram | jupiter/cacg.c:110-117 | the tables are three of the four blocks of the Gram matrix, one of them by symmetry of the preconditioner |
| CacgGram.NextGram | jupiter/cacg.c:110-117 | the fourth block is the diagonal of the myu recorded by the last block |
| CacgNext.OldRelation | jupiter/cacg.c:786-838 | T and e1e1 filled from the recorded rho and gamma say how A maps every old direction but the oldest |
| CacgNext.RunContinues | jupiter/cacg.c:711-887 | a block fed with what the last one recorded belongs to the same run |
| BlockPreconditioner.ForwardRow | jupiter/cacg.c:157-247 | a row of r is A x, and the row of s solves its recurrence from the rows below |
| BlockPreconditioner.BackwardRow | jupiter/cacg.c:251-300 | a row of s after elimination of what lies above it |
| BlockPreconditioner.SweepSlab | jupiter/cacg.c:123-304 | a thread's two sweeps leave the backward values in its slab, A x in r, and everything else alone |
| BlockPreconditioner.OthersUnaffected | jupiter/cacg.c:142-302 | a row swept in one slab neither changes nor depends on another slab |
| BlockPreconditioner.InterleavingDoesNotMatter | jupiter/cacg.c:137-302 | every complete interleaving of the threads' rows leaves each slab's own result |
| BlockPreconditioner.SweepsSolve | jupiter/cacg.c:123-304 | s solves (D + L) D^-1 (D + U) s = A x inside the slab, rows beside the domain counting as given |
| MatrixSweeps.AxIsStoredRow | jupiter/cacg.c:171-178 | A x is the product of the row that make_matrix_array stores, entry by entry with the neighbour it belongs to |
| MatrixSweeps.AxFromArrays | jupiter/cacg.c:171-178 | A x at position j is the sum of A[j + k m] times x at j - mxy, j - mx, j - 1, j, j + 1, j + mx, j + mxy |
| MatrixSweeps.SweepsSplitStoredRow | jupiter/cacg.c:157-300 | the parts the two sweeps use and the diagonal together are that same row, for every field |
| PairIndex.Address | jupiter/dccalc.h:280-298 | -1 exactly for what is no pair, otherwise a place inside the table |
| PairIndex.IdsThenAddress | jupiter/dccalc.h:309-332 | exactly the places of the table are accepted, and their pair has that address |
| PairIndex.AddressThenIds | jupiter/dccalc.h:280-332 | every pair comes back from its address |
| PairIndex.AddressOrder | jupiter/dccalc.h:280-298 | addresses are in the lexicographic order of the pairs |
| PairIndex.CommutativeAddress | jupiter/dccalc.h:374-404 | symmetric in the pair, inside the triangle, counted from the start of its row |
| PairIndex.CommutativeOrder | jupiter/dccalc.h:374-404 | so are triangular addresses, the smaller index first |
| PairIndex.RowStartFormula | jupiter/dccalc.h:388-402 | the closed formula is the number of pairs in earlier rows, and its division by two is exact |
| PairIndex.Root | jupiter/dccalc.h:470-485 | the digit loop ends with the integer root and its remainder, for every word width, without wrap-around |
| PairIndex.RowOfRoot | jupiter/dccalc.h:486-501 | the rounded-up root of the discriminant names the row that holds the address |
| PairIndex.BehindTable | jupiter/dccalc.h:503-515 | an address behind the table is rejected whatever the root |
| PairIndex.CommutativeIds | jupiter/dccalc.h:444-517 | accepts exactly the places of the triangle and returns the one pair with that address, smaller index first |
| Selection.NearestIsSmallest | jupiter/dccalc.h:100-143 | the nearest barycentre is opposite the smallest rate |
| Selection.SelectMaterial | jupiter/dccalc.h:100-143 | returns the first position of the minimum |
| Selection.SelectPair | jupiter/dccalc.h:156-176 | the two largest rates, ties to the later place, in order, with their values in front |
| WorkSharing.SharesJoin | jupiter/common_util.h:148-178 | the threads' ranges follow one another from the first index to the last |
| WorkSharing.SharesAreEven | jupiter/common_util.h:148-178 | their sizes differ by at most one, later ones not smaller |
| WorkSharing.Owner | jupiter/common_util.h:148-178 | every index belongs to some thread |
| WorkSharing.BlocksCover | jupiter/common_util.h:191-201 | blocks of any positive size cover a range and no more, extra ones being empty |
| WorkSharing.BlocksAreLeast | jupiter/common_util.h:191-201 | the number of blocks is the least that covers the range; without a request blocks have 128 indices |
| WorkSharing.AllGetMaximum | jupiter/common_util.h:211-235 | every thread leaves with the largest number of the team, for every interleaving |
| WorkSharing.NoThreadIsStuck | jupiter/common_util.h:211-235 | the two barriers never lock the team |
| ParallelSearch.AgreedBlocksSuffice | jupiter/common_util.h:272-319 | the number of blocks each thread is handed covers every thread's share |
| ParallelSearch.FoundIsMatch | jupiter/common_util.h:351-412 | at any moment shared_found is -1 or an interior cell that satisfies func |
| ParallelSearch.MissingMeansNone | jupiter/common_util.h:351-412 | once all threads have left, -1 is there if and only if no interior cell satisfies func |
| SearchBarriers.RunTogether | jupiter/common_util.h:351-412 | with barriers, no thread is a block ahead of one still in it, nor beyond a block with a match |
| SearchBarriers.LeaveApartExactly | jupiter/common_util.h:394-410 | threads can leave behind different blocks if and only if there are two and the first match is in nobody's first block |
| SearchBarriers.StrandedExactly | jupiter/common_util.h:394-410 | a thread can come to wait at an abandoned barrier if and only if besides that block is not the last |
| SearchBarriers.WaitsForEver | jupiter/common_util.h:394-410 | who waits at an abandoned barrier never moves again |
| SearchBarriers.SomebodyMoves | jupiter/common_util.h:351-412 | otherwise some thread can always act until all have left |
| SearchBarriers.ThreadsMayLeaveApart | jupiter/common_util.h:394-410 | an input with a run, barriers respected, in which one thread has left and another waits at a later barrier |
| SearchResult.FoundInFirstBlock | jupiter/common_util.h:351-412 | with barriers the result is the first match of a thread's b-th block, b being the first block number with a match in any share |
| CountingSearch.CountIsBounded | jupiter/common_util.h:497-570 | the final number is at least the smaller of bound and total, and at most the total |
| CountingSearch.NeverTooMany | jupiter/common_util.h:497-570 | at no moment does the number exceed the total |
| CountingSearch.StopsEarly | jupiter/common_util.h:497-570 | at every moment the number exceeds the bound by less than one match per block of every thread |
| CountingSearch.LoneThreadIsExact | jupiter/common_util.h:497-570 | one thread with one block ends with the smaller of bound and total |
| Format.PassesAgreeOnNumber | jupiter/csvtmpl_format.c:484-692 | counted and written bytes agree except for an uncounted blank |
| Format.PassesAgree | jupiter/csvtmpl_format.c:406-742 | over a whole format the passes differ by the number of such blanks |
| Format.PutNumber | jupiter/csvtmpl_format.c:634-692 | the second pass appends sign, padding and digits, the digits written from the right |
| Format.FormatIntegers | jupiter/csvtmpl_format.c:406-742 | the buffer the first pass sizes is filled exactly, with a final NUL |
| FormatStandard.CompliesExactly | jupiter/csvtmpl_format.c:484-692 | the exact condition on flags, width, precision and number under which the output is that of the C standard's %d |
| FormatMatch.DigitsRoundTrip | jupiter/csvtmpl_format.c:673-681 | the printed digits stand for the number |
| FormatMatch.ReadsNumber | jupiter/csvtmpl_format.c:1118-1223 | blanks, at most one sign and digits are read as the digits' value, up to the next non-digit |
| FormatLanguage.NumberIsRead | jupiter/csvtmpl_format.c:1118-1223 | blanks with at most one sign among them and digits are read as the digits' value wrapped to 32 bits, or as INT_MAX with the overflow on record |
| FormatLanguage.NumberNeedsSplit | jupiter/csvtmpl_format.c:1118-1223 | nothing else is read as a number |
| FormatLanguage.TextExactly | jupiter/csvtmpl_format.c:1225-1290 | a text is read exactly if blanks, a letter, and letters and digits up to something else stand there |
| FormatMatch.OverflowExactly | jupiter/csvtmpl_format.c:1153-1211 | an overflow is recorded exactly when some leading part of the digits wraps round to a negative number |
| FormatMatch.UnrecordedOverflow | jupiter/csvtmpl_format.c:1153-1211 | 4294967296 is read as 0 without an error |
| FormatMatch.OverflowIsRecorded | jupiter/csvtmpl_format.c:1188-1214 | a recorded overflow is still on record when the match ends |
| FormatMatch.Match | jupiter/csvtmpl_format.c:933-1301 | the scanning loops compute the specified result and records; an overflow stays on record, and a text leaves the value alone |
| FormatMatch.MatchUndoesFormat | jupiter/csvtmpl_format.c:933-1301 | the output of a format with separated directives is accepted exactly when all trailing blanks are taken up, and then every text and magnitude is recorded |
| FormatMatch.MatchedByAccident | jupiter/csvtmpl_format.c:1223-1290 | without separated directives a format can be accepted with other texts than were written |
| FormatMatch.RecoversValue | jupiter/csvtmpl_format.c:1118-1223 | a printed number comes back exactly when it is not negative |
| FormatMatch.RecoversText | jupiter/csvtmpl_format.c:1225-1290 | every text comes back as it was written, whatever else the format converts |
| FormatMatch.UnusedKept | jupiter/csvtmpl_format.c:933-1301 | a key the format does not convert keeps its record |
| FormatMatch.NoNewErrors | jupiter/csvtmpl_format.c:1153-1214 | reading back what the formatter wrote records no error |
| FormatMatch.PlainFlagsReadable | jupiter/csvtmpl_format.c:484-692 | without '-' and blank flag a number never ends in blanks |
| FormatMatch.AloneMatchesExactly | jupiter/csvtmpl_format.c:933-1301 | a number on its own is matched exactly when it was printed without trailing blanks |
| Glob.MakePattern | jupiter/csvtmpl_format.c:771-931 | both passes agree, and conversions next to each other share one star |
| Glob.CoversOutput | jupiter/csvtmpl_format.c:771-931 | every output of the format matches the pattern |
| Glob.GlobsExactly | jupiter/csvtmpl_format.c:771-931 | the pattern matches exactly the format's characters in their order with any text for each conversion |
| Glob.StarsApart | jupiter/csvtmpl_format.c:771-931 | no star of the pattern follows another one |
| Inlet.BcvfCalc | jupiter/boundary.c:861-921 | every ghost of every component gets its fraction, and nothing else changes |
| Inlet.FractionsSumToOne | jupiter/boundary.c:788-921 | a layer's fractions sum to one, or are all zero exactly when every weight is |
| Inlet.FractionsAreProportional | jupiter/boundary.c:788-921 | fractions are proportional to Vp times Y |
| Inlet.StoredRatios | jupiter/boundary.c:861-921 | from the arrays: the values stored at m i + jj + j offset stand in the ratio of Vp times Y at the same places |
| Inlet.StoredSumToOne | jupiter/boundary.c:861-921 | the values stored in a layer sum to one exactly when some component has a share |

## Left out

- Rounding, overflow of floating-point numbers, and the double-double, GMP, Kahan, SIMD and CUDA variants.
- PairIndex.CommutativeIds: component counts and addresses for which products of signed integers overflow.
- Quotients by zero: `CacgCoordinates.Over` gives them a fixed value on which no theorem depends.
- The funroll and opts1, opts2, opts4, opts5 preprocessor variants, which only unroll the loops modelled here.
- MPI and OpenMP beyond messages matched by source and tag, barriers, critical regions and atomic accesses; posting all sends of a phase is one step, and so is completing its waits.
- CacgUpdate.Solver.Update: a slot stands for a whole vector, so the blocking of the loops by rows and the layout s * m + j are not modelled.
- CacgUpdate.Solver.Combine: whole vectors, as for Update.
- CacgUpdate.Solver.Recur: whole vectors, as for Update.
- CacgUpdate.Solver.UpdateFused: whole vectors, as for Update.
- CacgUpdate.Solver.UpdateNox: whole vectors, as for Update.
- CacgUpdate.Solver.UpdateLate: whole vectors, as for Update.
- CacgUpdate.Solver.UpdateSingle: whole vectors, as for Update.
- BlockPreconditioner.InterleavingDoesNotMatter: a thread's row is one step; finer interleavings are not modelled, although no thread reads or writes another's slab.
- CacgCoordinates.PreInner: the small matrices are rows instead of flattened arrays, and the records T_, rhogamma_inv_, nyu and the older scalars are not returned.
- The callers that build the bases, fill the small matrices and put the Gram matrix together; what they must do is stated by BlockSetting, PlansFit and CacgNext.Continues.
- GramMatrix.GramLocal: one rank's cells; the reduction over ranks and the symmetric, block and compensated variants are not modelled.
- A basis relation for the oldest slot of a block is not assumed: its recurrence goes back to a vector that is gone.
- Convergence of the solver: that a linear system was solved exactly is a hypothesis.
- Immersed boundaries (IBM on) and the PW compile option in the pressure matrix and the correction.
- FlowSteps.Divergence: the source term of immersed boundaries and the PW branch.
- Definiteness.EnergyIdentity: stated on one rank; several ranks are covered through Decomposition.
- Definiteness.NegativeDefinite: stated on one rank, as for EnergyIdentity.
- Definiteness.OnlyTrivialKernel: stated on one rank; DistributedKernel is the statement for several.
- Definiteness.SolutionIsUnique: stated on one rank, as for EnergyIdentity.
- BcfWall.WallsAt: subdomains with fewer than four cells on an axis, where a mirror image would itself be a ghost.
- BcfTheorems.FoldIsMirror: at least four cells per axis and rank, as for WallsAt.
- BcfTheorems.BcfShowsMirror: at least four cells per axis and rank, as for WallsAt.
- BcfTheorems.DecompositionDoesNotMatter: at least four cells per axis and rank, as for WallsAt.
- Format.PutNumber: conversions whose blank the first pass does not count; PassesAgree says by how much they differ.
- Format.FormatIntegers: formats with such a conversion, for which the buffer would be too small.
- Inlet.BcvfCalc: negative products of Vp and Y.
- DivergenceFree.FromSolution: bcu after the velocity correction; the divergence statement is about the velocities before it.
- Projection.ProjectionClearsDivergence: faces that are not clean are covered by ProjectionResidual only.
- Thermal.EliminationIsExact: diffusion walls are covered by EliminationResidual only.
- Condition arrays of the walls are functions from direction and cell; how they are read and indexed is not modelled.
- bcf with one rank skips the exchange, which on a one-rank grid changes nothing.
- The upper halo layer n + 6 next to another rank is never exchanged; DecompositionDoesNotMatter is silent there.
- The lexers generated from the format grammar: a format is the list of its directives, with all its keys defined.
- FormatMatch.Match: overflow of an int is modelled as two's-complement wrap-around.
- FormatMatch.MatchUndoesFormat: formats in which a number runs into digits or a text into letters or digits behind it.
- Glob.CoversOutput: literals that are glob metacharacters.
- Glob.GlobsExactly: literals that are glob metacharacters, as for CoversOutput.
- BcfTheorems.BcfIsReflection: at least four cells per axis and rank, as for WallsAt.
- GhostLaws.GhostsObey: ghosts so deep that their partner in front of the wall is no cell of the domain.
- HeatLaws.WallGhosts: ghosts whose partner is no cell, as for GhostsObey.
- Inlet.StoredSumToOne: negative products of Vp and Y, as for BcvfCalc.
- MatrixSweeps.AxIsStoredRow: the matrix assembly has one offset for all axes; AxFromArrays also covers another one on the x axis.
- MatrixSweeps.SweepsSplitStoredRow: one offset for all axes, as for AxIsStoredRow.
- dc_calc_all with its use of the normalised rates after the reduction, material correlations, and component_data_update_index.
- advection, file output, CSV reading, allocation and error messages, and the cmake lexers.
- The conversions between gas identifiers and char_to_tval_idx would only add easy members.
