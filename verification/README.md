# Verified model of an ARM64 guest recompiler

The modelled program is a just-in-time compiler that translates ARMv7-A guest code
(ARM Architecture Reference Manual, DDI 0406) to A64. It decodes a bounded trace,
decides at compile time what may be left out (dead flags, repeated page checks,
register write-backs), emits straight-line host code, chains compiled fragments
through a generated dispatcher, and keeps everything in byte-bounded caches. Each
part claims that a fast form does on every run what the plain machine does. This
project states those claims over explicit models and proves them.

How the model is laid out:

- `Words`, `Isa`, `IntegerSemantics`, `GuestMachine`: 32-bit words as integers with
  explicit truncation, the decoded instruction, the portable integer semantics, and a
  register-level guest machine whose other families are uninterpreted functions.
- `FlagScan`, `InstructionWindow`, `DeadFlags`, `ComparisonFlags`, `CycleExits`: the
  search for dead NZCV bits as a function of the instruction source, the sliding window
  that memoises it, what dropping flags does to a whole trace, what floating comparisons
  may clobber, and what is left at the exit of a trace that closes on itself.
- `AddressDisplacements`, `AddressKeys`, `SegmentGuards`, `AddressSegments`,
  `IndexBounds`, `AccessBounds`, `WindowGuards`, `AddressWindows`: an abstract
  interpreter over registers modulo 2^32, and the page guards derived from it.
- `CachePointers`, `AddressCache`, `CacheGuards`, `CacheRuns`: cached host pointers,
  their availability under conditional publication, and guards patched across the
  backedge of a loop.
- `PointerPaths`, `PointerRuns`: all of that put together over the emitted pointer
  arithmetic of a body, from the analyses' results and the guards that passed.
- `AddressRegisterPlan`, `AddressRegisters`, `AddressRegisterScopes`,
  `AddressRegisterRuns`, `HeldPointers`: guest bases kept as host pointers or as deferred
  offsets, guest code run over them, and the accesses that use a held pointer.
- `ContinuationTable`, `ContinuationScope`, `Dispatcher`: native chaining.
- `CacheAccounting`, `CodeCache`, `SharedCompilationCache`, `CodeRegions`: the caches.
- `ScalarRegisterPlan`, `VectorRegisters`, `VectorFrames`: vector words packed into spare
  registers, and the banks that a compiled cycle loads and stores.
- `ShiftCountRange`, `ParallelBytes`, `SaturatingArithmetic`, `HalfwordMultiply`:
  lowerings of integer operations as A64 programs.

Code that updates state in place is a class whose methods are proved against a
specification function; the theorems are about those functions and about runs of
them. Emitted code is modelled as the sequence of its effects on ghost host state.

Two properties turned out not to hold as the comments in the code put them, and are
stated exactly here:

- A run can end past its tick budget (`src/arm64/executor.cpp:123-133`): when the
  ordinary entry does not fit what is left, the one-instruction entry runs even if it
  does not fit either. `Dispatcher.WithinExactly` gives the exact condition,
  `Dispatcher.TailOvershoots` an example.
- A trace that returns to its own entry in straight-line flow keeps the flags of its
  last instruction (`src/arm64/compiler.cpp:952-967`), but an earlier producer's search
  may still run on into the next pass, so the exit between two passes can publish stale
  flags. `CycleExits.ExitExact` says exactly when nothing is stale there,
  `CycleExits.ExitCanBeStale` gives an example, and `CycleExits.ResumeExact` shows that
  guest code resumed at that exit cannot observe the difference.

## Model

| member | source | states |
|---|---|---|
| GuestMachine.EffectsSound | src/arm64/flag_effects.cpp:21-102 | The read, possible-write and guaranteed-write sets are right about every crossable instruction: runs that differ only in unread flags decide the condition alike, compute the same registers, stop differing in surely written flags, and flags outside the possible set are kept. |
| GuestMachine.SkipAgrees | src/arm64/flag_effects.cpp:7-19 | A condition's outcome depends on no flag outside its read set. |
| FlagScan.ScanMonotone | src/arm64/instruction_window.cpp:564-610 | A search that finds its bits dead still does under any larger instruction and tick limits. |
| InstructionWindow.InstructionWindow.FlagsDead | src/arm64/instruction_window.cpp:523-611 | With any remembered proofs and any window contents the answer equals the plain search of the instruction source under the given limits; the window invariant is kept. |
| InstructionWindow.InstructionWindow.SearchFlags | src/arm64/instruction_window.cpp:548-610 | The search through cached decodes equals the plain search, and whatever it remembers keeps the window invariant. |
| InstructionWindow.InstructionWindow.InspectAhead | src/arm64/instruction_window.cpp:564-590 | Looking at the k-th instruction ahead, decoding and pricing it only when needed, gives exactly what a fresh inspection of the source gives and disturbs no earlier entry. |
| InstructionWindow.InstructionWindow.Take | src/arm64/instruction_window.cpp:128-158 | The consumed instruction is the source's own decode of the requested address, however it was cached, and the remembered proofs still describe the suffix that remains. |
| InstructionWindow.InstructionWindow.SlideProofs | src/arm64/instruction_window.cpp:145-156 | Every remembered proof that survives one taken instruction is true of the rest of the window. |
| InstructionWindow.SlideHolds | src/arm64/instruction_window.cpp:149-155 | Taking one instruction off a remembered proof never underflows its tick count and leaves a true proof about the next head for every limit pair. |
| InstructionWindow.PriceHolds | src/arm64/instruction_window.cpp:159-172 | Filling in an entry's timing falsifies no remembered proof. |
| InstructionWindow.ExtendHolds | src/arm64/instruction_window.cpp:565-570 | Lookahead that extends the window falsifies no remembered proof. |
| InstructionWindow.CachedInspection | src/arm64/instruction_window.cpp:571-586 | Inspecting a cached decode, even one first taken with permission to straddle its region, gives the verdict of a fresh one. |
| InstructionWindow.InstructionWindow.Price | src/arm64/instruction_window.cpp:159-172 | A cached entry ahead is priced once with the source's timing and nothing else ahead changes. |
| InstructionWindow.InstructionWindow.Timing | src/arm64/instruction_window.cpp:159-172 | Timing a taken copy prices it with the source's ticks, gives its retained original the same price, and leaves the rest of the window alone. |
| InstructionWindow.InstructionWindow.Match | src/arm64/instruction_window.cpp:118-127 | A window whose head is not the requested instruction is forgotten with its proofs and its cycle; otherwise nothing changes. |
| InstructionWindow.InstructionWindow.RepeatCycle | src/arm64/instruction_window.cpp:173-182 | Rewinding keeps exactly the consumed decodes, drops lookahead past the closing edge and every proof, and keeps the invariant. |
| InstructionWindow.InstructionWindow.Mode | src/arm64/instruction_window.cpp:72-81 | A mode change forgets all decodes and proofs; the same mode changes nothing. |
| InstructionWindow.InstructionWindow.Regions | src/arm64/instruction_window.cpp:82-88 | New regions forget all decodes and proofs. |
| DeadFlags.Elimination | src/arm64/compiler.cpp:955-972 | Whatever the host leaves in dropped, carry-only or clobbered flags, and whichever instructions keep theirs, every prefix of the emitted trace has the portable registers, and every boundary and the end of the trace have the portable state. |
| DeadFlags.SkipsAlike | src/arm64/compiler.cpp:955-972 | Every instruction of the emitted trace is skipped or executed as in the portable run; no condition reads a stale flag. |
| DeadFlags.EliminationFrom | src/arm64/compiler.cpp:955-972 | The same from a start with stale flags that settle, with the exact set of flags that may still be stale after each prefix. |
| DeadFlags.DropSound | src/arm64/compiler.cpp:957-959 | Clearing the flag write of an instruction changes at most the flags it could have written. |
| DeadFlags.StaleSettles | src/arm64/compiler.cpp:957-972 | The flags one chosen lowering leaves stale are overwritten before they are seen in the rest of the trace. |
| DeadFlags.ScanUnion | src/arm64/instruction_window.cpp:564-610 | Two flag sets whose searches succeed from one point succeed together. |
| ComparisonFlags.ComparedElimination | src/arm64/compiler.cpp:1128-1141 | With comparisons that may clobber NZCV once their trap controls are known clear, and a VMRS behind one that takes over its result, every instruction the trace reaches finds the portable registers and decides its condition alike; boundaries, the end of the trace and a comparison whose controls are set find the portable flags as well. |
| ComparisonFlags.ComparisonSettles | src/arm64/instruction_window.cpp:577-583 | At a comparison nothing is stale but what earlier comparisons clobbered, its condition reads none of that, and all of it is overwritten before it is seen in the rest of the trace. |
| ComparisonFlags.OrdinarySettles | src/arm64/instruction_window.cpp:582-607 | At any other instruction searches may cross, what comparisons clobbered and what was dropped are both unread and both settle; a write of the status register makes the former visible to any later comparison, as the search assumes. |
| ComparisonFlags.OmittedTest | src/arm64/compiler.cpp:487-503 | A trap-control test left out because an earlier unconditional one covers it would have passed at every instruction the trace reaches. |
| CycleExits.ResumeExact | src/arm64/compiler.cpp:952-967 | From an exit after any number of emitted instructions the portable machine goes on as from the exact state: the same registers after every further instruction, the same state at every boundary. |
| CycleExits.ExitExact | src/arm64/compiler.cpp:946-967 | Nothing is stale at an exit after m instructions if and only if every choice would be the same with searches confined to those m; the exit then publishes the portable state. |
| CycleExits.ExitCanBeStale | src/arm64/compiler.cpp:946-967 | A concrete four-instruction cycle whose exit between passes publishes a wrong Z. |
| AddressDisplacements.RunSound | src/arm64/address_displacements.hpp:76-110 | After any sequence of retired instructions each known expression gives its register from the entry registers modulo 2^32, a register not reported written still has its entry value, and one not reported modified is unchanged if known. |
| AddressDisplacements.ObservedSound | src/arm64/address_displacements.hpp:76-110 | One retired instruction, conditional or not, known or not, leaves no wrong fact. |
| AddressDisplacements.UpdateMoves | src/arm64/address_displacements.hpp:38-98 | A recognised write-back or add/subtract moves its register by exactly the recorded increment modulo 2^32. |
| AddressDisplacements.AddedDenotes | src/arm64/address_displacements.hpp:18-32 | Adding expressions with wrapped 32-bit constants and coefficients adds what they denote modulo 2^32. |
| AddressDisplacements.Displacements.Observe | src/arm64/address_displacements.hpp:76-110 | The analysis object's fields follow the transfer function, register by register. |
| AddressKeys.HostBoundExact | src/arm64/address_windows.cpp:288-291 | The unsigned 64-bit shift test accepts exactly the offsets inside the page. |
| SegmentGuards.SegmentGuardSound | src/arm64/address_segments.cpp:61-166 | If the guard of one access passes, that access and every later one of its group lies wholly in the same page, keeps the required alignment, whatever the sign of the stride. |
| SegmentGuards.BoxInPage | src/arm64/address_segments.cpp:144-165 | Passing corners bound the linear form of every boxed point with its last byte, although the upper end was rounded down to the alignment lattice. |
| SegmentGuards.CornersPass | src/arm64/address_segments.cpp:152-165 | All four corners of the box pass, although duplicate and zero corners were not emitted. |
| SegmentGuards.HullBounds | src/arm64/address_segments.cpp:72-92 | The running minima and maxima of the backward pass bound every later use and its own bounds. |
| SegmentGuards.GuardImmediates | src/arm64/address_segments.cpp:120-166 | Every constant a segment guard adds is a 12-bit immediate. |
| AddressSegments.PathGuardSound | src/arm64/address_segments.cpp:9-166 | Over a whole observed path and any execution of it: if the guard recorded for an access passes in the registers of its step, every later access of that group lies wholly in the same page, correctly aligned. |
| AddressSegments.ObserveAllKeeps | src/arm64/address_segments.cpp:9-60 | For every execution of the observed path each recorded use's linear form is the address it really formed. |
| AddressSegments.StaticAnchor | src/arm64/address_segments.cpp:93-96 | Every access of a segment without stride names the same anchor: its address minus its offset is the address of the first covered use. |
| AddressSegments.ProvenPair | src/arm64/address_segments.cpp:12-112 | On every execution of the observed path, two proven accesses of one group agree in direction and stride, form their address from the base alone, lie at most a page apart in offset, and without a stride name one anchor. |
| AddressSegments.ObserveAllStepped | src/arm64/address_segments.cpp:9-60 | After any observed path every step belongs to at most one use and each group's uses are in step order, which is what finishing relies on. |
| AddressSegments.AddressSegments.Observe | src/arm64/address_segments.cpp:9-60 | The observer's groups and active list follow the specification of one path step. |
| AddressSegments.AddressSegments.Finish | src/arm64/address_segments.cpp:61-112 | Each access step receives exactly the proof of its own use and group, and no other step receives one. |
| AddressSegments.AddressSegments.BackwardPass | src/arm64/address_segments.cpp:72-92 | The loop over one group stores for each use the hull of all later ones where it fits a page, touches no other step, and reports the earliest use that kept one. |
| IndexBounds.ShiftWithin | src/arm64/address_windows.cpp:36-51 | A shifted register has no bit that its equally shifted possible-bits mask lacks, for all four shifts. |
| AccessBounds.AccessCovered | src/arm64/address_windows.cpp:17-112 | Every address formed at any step of the cycle, even in a run that leaves right after it, is bounded by what the whole cycle's analysis recorded for its key. |
| AccessBounds.OffsetInRange | src/arm64/address_windows.cpp:30-51 | The offset a key adds lies in the range computed from possible bits and on its alignment lattice. |
| AccessBounds.NotedCovers | src/arm64/address_windows.cpp:52-81 | A valid note of an access bounds the linear form of the address formed at that moment. |
| AccessBounds.BitsAdvance | src/arm64/address_windows.cpp:83-104 | The possible-bits masks stay upper bounds after every retired instruction. |
| WindowGuards.WindowGuardSound | src/arm64/address_windows.cpp:113-324 | If the guard of an expanded window passes at entry, every access of every copy of the cycle, run partly or wholly, lies wholly in the entry base's page modulo 2^32, keeps the window's alignment residue, and is indexed by less than a page. |
| WindowGuards.BoxInPage | src/arm64/address_windows.cpp:254-324 | A passed guard keeps every boxed linear form in the page for either sign of the stride. |
| WindowGuards.BaseAtCopy | src/arm64/address_windows.cpp:168-194 | At copy m the base has moved by m times the cycle's net displacement, and the stride register not at all. |
| WindowGuards.CopyBounds | src/arm64/address_windows.cpp:168-194 | Expanding a window covers the bounds of every copy. |
| WindowGuards.GuardImmediates | src/arm64/address_windows.cpp:10-15 | The constants of an enabled window's guard are 12-bit immediates and its multipliers signed 32-bit values. |
| AddressWindows.AddressWindows.Observe | src/arm64/address_windows.cpp:17-112 | The analysis object's accesses, masks and facts follow the specification of one step. |
| AddressWindows.AddressWindows.Finish | src/arm64/address_windows.cpp:113-167 | Exactly the eligible accesses are placed, each in a window that bounds everything it was observed to do; at most the given number of windows is enabled, all of them guardable, and none eligible is left when fewer are. |
| AddressWindows.AddressWindows.Best | src/arm64/address_windows.cpp:157-166 | The chosen window is eligible, has the most keys, and is the earliest of those. |
| AddressWindows.AddressWindows.Expand | src/arm64/address_windows.cpp:168-194 | Windows are widened over all copies, or all disabled when the instruction count is no whole number of copies, and stay guardable. |
| CachePointers.StaticPublication | src/arm64/address_cache.cpp:212-231 | Publishing through any access of a static window stores the same anchor, although the base may have wrapped in between. |
| CachePointers.StaticReferenceExact | src/arm64/address_cache.cpp:132-139 | The pointer rebuilt from a static window slot, through a signed 32-bit immediate or a zero-extended index, is the one a fresh validation would produce, however far the displacement wrapped. |
| CachePointers.StridedReferenceExact | src/arm64/address_cache.cpp:112-131 | A strided window slot, which keeps only the page bias, gives the freshly validated pointer. |
| CachePointers.SegmentReferenceExact | src/arm64/address_cache.cpp:109-111 | The anchor published by one access of a static segment gives another access of it its own pointer. |
| CachePointers.StridedSegmentExact | src/arm64/address_cache.cpp:112-131 | Two accesses of a strided segment in one page leave the same page bias, on which the address formed anew is the access's own pointer. |
| CachePointers.ValueStays | src/arm64/address_cache.cpp:97-103 | What a slot should hold does not change while its input registers do not. |
| AddressCache.AddressCache.Access | src/arm64/address_cache.cpp:141-244 | Emitting one access changes slots, guards, coverage and counters exactly as specified, in all three outcomes. |
| AddressCache.AddressCache.Find | src/arm64/address_cache.cpp:141-155 | The lookup returns the lowest slot whose publications dominate this point for this identity. |
| AddressCache.AddressCache.Retire | src/arm64/address_cache.cpp:245-261 | Observing an instruction revokes exactly the entries whose inputs it writes and ends partial coverage exactly when it may write flags. |
| AddressCache.AddressCache.Finalize | src/arm64/address_cache.cpp:304-343 | The patched guards and cleared slots are exactly those of the closed body's specification. |
| AddressCache.PatchesAre | src/arm64/address_cache.cpp:318-341 | The patched guards are exactly the first guard of each patchable slot and, where the slot was never shared, its late guards. |
| CacheGuards.CompileTidy | src/arm64/address_cache.cpp:167-261 | For every body: the first guard of a slot precedes all its guards and names their identity while the slot is unshared, and an entry dominates exactly when its conditions cover all sixteen NZCV values. |
| CacheGuards.FinalizedGuard | src/arm64/address_cache.cpp:309-341 | A patched guard belongs to its slot's owner and is the first guard unless the slot was never shared. |
| CacheGuards.PreservesFlagsSound | src/arm64/address_cache.cpp:25-45 | An instruction classified as preserving flags and executed in line leaves NZCV as it was, so the snapshot partial coverage refers to is still current. |
| CacheRuns.NeverStale | src/arm64/address_cache.cpp:141-343 | On every run of any number of passes, left anywhere, every access is formed from exactly the slot value that validating it there would publish, whichever guards were patched to skip. |
| CacheRuns.LoadedValid | src/arm64/address_cache.cpp:141-244 | While the run invariant holds, a dominating slot or a skipped guard delivers what the access would publish. |
| CacheRuns.StepHolds | src/arm64/address_cache.cpp:167-261 | One instruction, executed or not, under any flags, keeps the run invariant. |
| CacheRuns.PatchedGuard | src/arm64/address_cache.cpp:318-341 | In a closed body a patched guard tests its own slot owner's identity and is the first guard or on an unshared slot. |
| CacheRuns.CloseReady | src/arm64/address_cache.cpp:304-341 | Across the backedge a patched slot is empty or holds what its owner publishes in the next pass. |
| PointerPaths.WindowAccess | src/arm64/address_windows.cpp:168-324 | In a run of a body, left anywhere, an access found in an enabled window whose guard passed at group entry lies in the entry base's page, in whichever copy of the cycle it happens. |
| PointerPaths.GuardReturns | src/arm64/address_windows.cpp:249-257 | After all copies a window that does not advance finds its base and stride as they were, so its guard need not be checked again. |
| PointerPaths.WindowPointers | src/arm64/address_cache.cpp:104-140 | What the emitted publication of a window access stores is the window's slot value, and what its emitted reference forms from that value is its own validated pointer, static or strided. |
| PointerPaths.SegmentAccess | src/arm64/address_segments.cpp:113-166 | After an access whose segment guard passed, a later access of the segment lies in the same page with the same direction and stride, in every run of the body, complete or left early. |
| PointerPaths.SegmentPointers | src/arm64/address_cache.cpp:185-244 | A later access of a segment, static or strided, publishes exactly what the earlier guarded one published and forms its own validated pointer from it. |
| PointerRuns.Publishes | src/arm64/address_cache.cpp:185-244 | In every pass the emitted publication of a validated access, be its identity a key, a window or a segment, stores what its slot should hold; for a segment that is the publication of the pass's first validated access of it. |
| PointerRuns.SegmentSeen | src/arm64/address_cache.cpp:141-155 | An executed access that uses a segment's slot comes at or after a validated access of that segment in the same pass. |
| PointerRuns.JourneyRefines | src/arm64/address_cache.cpp:185-343 | Every run of the emitted publications, guards and backedges is a run of cached slot values. |
| PointerRuns.OnlyAccepted | src/arm64/vector_memory_emitter.cpp:207-240 | No executed access goes through a slot, reused or kept across the backedge, for an address whose alignment, page fit or mapping validation would have refused. |
| PointerRuns.WindowSeen | src/arm64/address_windows.cpp:62-66 | An access through a window is accepted exactly when the window's entry base is admitted, and then publishes the window's anchor and forms its own pointer from it. |
| PointerRuns.OnePage | src/arm64/address_cache.cpp:112-131 | Accesses of one pass through the same window or segment are in one direction and one page. |
| PointerRuns.PointersExact | src/arm64/address_cache.cpp:74-343 | At every executed access of every pass of every run, the pointer the emitted code uses, formed from the slot or fresh publication by the emitted arithmetic, is exactly what translating that access's own address there would give, and that address is aligned, inside one page and mapped as validation demands. The identity, displacement, window and segment are those the analyses computed, and the page conditions follow from the guards that passed. |
| AddressRegisterPlan.AdmittedNeverRead | src/arm64/address_register_plan.cpp:16-88 | No observed instruction names an admitted register except to update it or address through it in a handled form, never also as its index, and constant-offset registers are only moved by immediates. |
| AddressRegisterPlan.Builder.Observe | src/arm64/address_register_plan.cpp:16-88 | The builder's two register sets grow exactly by the rules of the observed instruction. |
| AddressRegisterRuns.RunDenotes | src/arm64/address_registers.cpp:31-154 | For every run of a body whose bases the builders' rules permit, with scopes entered, eligible bases acquired and groups ended anywhere: no lowering throws, the host computes the guest's flags and other state although ordinary code reads host registers directly, every register denotes and reads as its guest value, and an exit there publishes exactly the guest's registers. |
| AddressRegisterRuns.ExecutedExact | src/arm64/address_registers.cpp:48-110 | One emitted instruction under an admitted plan never fails to lower and leaves the host standing for the guest; no register held as a pointer or offset is read or written as if it were plain. |
| AddressRegisterRuns.EffectFrame | src/arm64/address_register_plan.cpp:16-88 | The effect of an instruction depends on the core registers its encoding names and on no other, and it writes no other, so the rules look at enough. |
| AddressRegisterRuns.CycleAdmits | src/arm64/address_windows.cpp:216-248 | Bases that the rules permit after a whole observed cycle are admitted at every instruction of its unrolled copies, with dead flags dropped or not. |
| AddressRegisterRuns.AddedAdmits | src/arm64/address_register_scopes.hpp:21-37 | Adding a lifetime inside a stretch that a permitting builder watched keeps every allowed base admitted. |
| AddressRegisterScopes.AddressRegisterScopes.Add | src/arm64/address_register_scopes.hpp:21-37 | A lifetime is recorded exactly when it overlaps none of its register and a base slot is left: allowed at its steps, ending after them. |
| AddressRegisterScopes.AddressRegisterScopes.Resize | src/arm64/address_register_scopes.hpp:20 | A path of this many steps starts with no base allowed or ending at any of them or at its end. |
| AddressRegisters.ExitExact | src/arm64/compiler.cpp:643-645 | Publishing offsets and restoring pointers at an exit leaves the architectural value in every register. |
| AddressRegisters.UpdateDenotes | src/arm64/address_registers.cpp:48-79 | An update handled in pointer or offset form gives the portable ALU result and flags. |
| AddressRegisters.WritebackDenotes | src/arm64/address_registers.cpp:80-97 | A handled write-back moves what the base denotes by the architectural displacement. |
| AddressRegisters.AcquireDenotes | src/arm64/address_registers.cpp:38-47 | Turning a register into a pointer changes nothing it denotes and forms bias plus guest value. |
| AddressRegisters.ScopeDenotes | src/arm64/address_registers.cpp:31-37 | A scope change gives back disallowed and ending bases without changing what any register denotes. |
| AddressRegisters.FinishDenotes | src/arm64/address_registers.cpp:122-130 | Ending a group leaves every register architectural. |
| AddressRegisters.ReadGuestExact | src/arm64/address_registers.cpp:98-110 | Reading a register through either form yields its guest value. |
| AddressRegisters.PointerExact | src/arm64/address_registers.cpp:38-79 | A pointer moved within its page equals the page bias plus the moved guest address. |
| HeldPointers.HeldRun | src/arm64/address_registers.cpp:31-96 | Over every run of admitted code during which a base stays a pointer, whatever is acquired, scoped or executed meanwhile, the pointer moves by exactly the distance the run's updates and write-backs travel and its saved bias stays. |
| HeldPointers.HeldGuest | src/arm64/address_registers.cpp:48-96 | The guest's base travels the same distance modulo 2^32. |
| HeldPointers.HeldExact | src/arm64/address_cache.cpp:112-148 | A base that became a pointer at one access of a guarded window or segment and is still one at another is exactly the pointer that translating the second access's own address there would give, if it travelled less than 2^31. |
| HeldPointers.ConstantTravel | src/arm64/address_register_plan.cpp:5-15 | With constant updates the distance travelled is at most 4095 for each move of the run. |
| AddressRegisters.AddressRegisters.UpdateBase | src/arm64/address_registers.cpp:48-79 | The emission method handles, declines or fails exactly as specified and changes nothing unless it handles. |
| AddressRegisters.AddressRegisters.WritebackBase | src/arm64/address_registers.cpp:80-97 | The base update after an access is handled, declined or failed exactly as specified, and nothing changes unless it is handled. |
| AddressRegisters.AddressRegisters.AcquireBase | src/arm64/address_registers.cpp:38-47 | An eligible base becomes bias plus guest value with its bias saved, and an active one is left alone. |
| AddressRegisters.AddressRegisters.ChangeScope | src/arm64/address_registers.cpp:31-37 | Exactly the active bases that end or are no longer allowed are turned back, and the allowed set is the new one. |
| AddressRegisters.AddressRegisters.RestoreBases | src/arm64/address_registers.cpp:111-121 | The restoring loop turns exactly the masked pointers back. |
| AddressRegisters.AddressRegisters.CloseGroup | src/arm64/address_registers.cpp:122-130 | The emitted group end has exactly the specified effect on host registers, offsets and active bases. |
| Dispatcher.HopConserves | src/arm64/native_continuations.cpp:32-113 | One hop conserves ticks: paid plus remaining stays the grant, a successor starts only within the remainder, at equality only if it ends with a stop, and one hop is spent. |
| Dispatcher.ChainWithinGrant | src/arm64/native_continuations.cpp:32-143 | No chain of fragments that keep their promised maxima pays more than its grant. |
| Dispatcher.ChainTerminates | src/arm64/native_continuations.cpp:43-46 | Every chain leaves after at most one more fragment than its hop count. |
| Dispatcher.RootThenChain | src/arm64/code_cache.cpp:438-511 | A root entered on the whole remaining budget and the chain behind it never pay more than that budget. |
| Dispatcher.RunWithinBudget | src/arm64/executor.cpp:123-153 | Over a whole run the total exceeds the budget by at most what the last one-instruction entry costs beyond one tick. |
| Dispatcher.WithinExactly | src/arm64/executor.cpp:123-133 | An invocation stays within what is left for all behaviours of its fragments if and only if the ordinary entry is kept or the one-instruction entry fits. |
| Dispatcher.TailOvershoots | src/arm64/executor.cpp:130-133 | A run with one tick left and an instruction of two ticks ends one tick over. |
| Dispatcher.NativeOutcome.Enter | src/arm64/native_continuations.cpp:18-143 | The dispatcher's stores, one by one, add up to the specified hop, and the published tick count is the invocation's total. |
| ContinuationTable.ProbeExact | src/arm64/native_continuations.cpp:52-88 | The dispatcher's two probes find a key exactly when it is stored anywhere in the table. |
| ContinuationTable.StoreUnique | src/arm64/native_continuations.hpp:54-73 | Storing never puts one key in two places and keeps every key in one of its two hash slots. |
| ContinuationTable.ProbeAfterStore | src/arm64/native_continuations.hpp:54-73 | The last descriptor stored for a key is the one found. |
| ContinuationTable.ProbeOthersAfterStore | src/arm64/native_continuations.hpp:54-73 | Every other key keeps its answer unless its own place was taken over. |
| ContinuationTable.ProbeAfterClear | src/arm64/continuation_scope.cpp:19-24 | Clearing descriptors forgets exactly the keys stored there. |
| ContinuationTable.AlternateIsSecondary | src/arm64/native_continuations.cpp:79-83 | The incremental second hash equals the table's own second slot. |
| ContinuationTable.StatusRoundTrip | src/arm64/code_cache.cpp:417-420 | The status word of a key decodes to its endian, Thumb and IT fields and lies within the mask. |
| ContinuationTable.StatusReencodes | src/arm64/continuation_scope.cpp:47-51 | Encoding the fields of any status word gives back its masked bits. |
| ContinuationScope.HitValidated | src/arm64/continuation_scope.cpp:5-95 | After any sequence of invocations, resolutions, collisions, epoch changes and cache changes, a descriptor hit under the current cookie belongs to a live entry with that key, and this invocation validated a region of its domain, under the epoch the cache holds, that covers its dependency, or pinned it. |
| ContinuationScope.RunValid | src/arm64/continuation_scope.cpp:5-95 | Every event keeps the table invariant. |
| ContinuationScope.ResolvedIsFound | src/arm64/continuation_scope.cpp:63-89 | A resolution leaves its entry where the next probe of the same key finds it under the current cookie. |
| ContinuationScope.ValidateValid | src/arm64/continuation_scope.cpp:5-29 | Validating a region changes no cell that a remaining descriptor names except to renew its cookie. |
| ContinuationScope.LinkTable.Validate | src/arm64/continuation_scope.cpp:5-29 | The two loops renew the region's cell or repurpose an idle one after clearing its descriptors, or report that none is free. |
| ContinuationScope.LinkTable.SelectPlace | src/arm64/native_continuations.hpp:54-73 | The selection over the arrays and the replacement mask follow the specification. |
| CacheAccounting.TouchesExact | src/arm64/code_cache.cpp:54-72 | The interval test removes an entry if and only if some written byte lies in its dependency or is one of its four fetched bytes, whose addresses wrap. |
| CacheAccounting.ErasedExact | src/arm64/code_cache.cpp:88-96 | Erasing an entry never underflows a counter and keeps the sum of all retained bytes and the recency list exact. |
| CacheAccounting.InvalidatedExact | src/arm64/code_cache.cpp:25-35 | Invalidating a domain keeps the accounting and the recency list exact. |
| CacheAccounting.InstalledExact | src/arm64/code_cache.cpp:359-379 | Inserting a new entry keeps the accounting and the recency list exact. |
| CodeCache.CodeCache.Install | src/arm64/code_cache.cpp:344-379 | A translation is refused exactly when it alone exceeds the budget; otherwise the cache ends within budget with the new entry most recent, the others in their old order less only some of the oldest. |
| CodeCache.CodeCache.Trim | src/arm64/code_cache.cpp:97-135 | Trimming terminates without its accounting error, ends with room for the entry, and evicts only from the old end of the recency list and only as many as must go: with the last evicted entry and its domain still there the new one would not fit. |
| CodeCache.CodeCache.InvalidateRange | src/arm64/code_cache.cpp:50-87 | Exactly the entries a written byte touches go, then exactly the domains left empty, and every byte stays counted. |
| CodeCache.CodeCache.InvalidateDomain | src/arm64/code_cache.cpp:25-35 | A domain's entries and epoch are forgotten, nothing else, and the accounting stays exact. |
| CodeCache.CodeCache.EraseEntry | src/arm64/code_cache.cpp:88-96 | One entry and its bytes go from the map, the list and both counters. |
| CodeCache.CodeCache.EvictOldest | src/arm64/code_cache.cpp:124-134 | One round of eviction removes the oldest entry and its domain if that leaves it empty. |
| CodeCache.CodeCache.Hit | src/arm64/code_cache.cpp:213-217 | A lookup that finds its entry moves it to the recent end and changes nothing else; the accounting stays exact. |
| CodeCache.CodeCache.ReclaimDomains | src/arm64/code_cache.cpp:114-123 | Exactly the domains without entries go. |
| CodeCache.CodeCache.Obtain | src/arm64/code_cache.cpp:143-156 | The binding's domain exists afterwards under its epoch and a new one is charged once. |
| CodeCache.CodeCache.Bind | src/arm64/code_cache.cpp:157-180 | Losing the epoch revokes the domain, a new epoch empties it, and no other entry is touched. |
| CodeCache.CodeCache.BeginRun | src/arm64/code_cache.cpp:46-49 | Exactly the anonymous translations are dropped at the start of a run. |
| CodeCache.CodeCache.Clear | src/arm64/code_cache.cpp:36-45 | Clearing leaves an empty, exact cache with no continuation storage and a fresh cookie. |
| CodeCache.CodeCache.ReserveContinuations | src/arm64/code_cache.cpp:454-468 | Continuation storage is taken only from free budget and never evicts. |
| SharedCompilationCache.SharedCompilationCache.Insert | src/arm64/shared_compilation_cache.cpp:70-97 | A plan is inserted unless pressed, too large or present; the total stays within budget and only as many of the oldest plans go as are needed. |
| SharedCompilationCache.SharedCompilationCache.Find | src/arm64/shared_compilation_cache.cpp:60-69 | A hit moves its key to the recent end and changes nothing else. |
| SharedCompilationCache.SharedCompilationCache.SetPressureLimited | src/arm64/shared_compilation_cache.cpp:53-59 | Pressure empties the cache. |
| CodeRegions.CodeRegions.Load | src/arm64/code_regions.hpp:16-34 | After filtering, sorting and merging the regions are separated, within capacity, and authorise exactly the same addresses; too many are refused. |
| CodeRegions.CodeRegions.Containing | src/arm64/code_regions.hpp:35-41 | A region is found exactly for authorised addresses and contains the address. |
| CodeRegions.FoundIsMaximal | src/arm64/code_regions.hpp:16-41 | A found region is wholly authorised by the input and cannot be extended. |
| ScalarRegisterPlan.Builder.Finish | src/arm64/scalar_register_plan.cpp:79-154 | The plan's views have pairwise distinct registers, cover each word at most once, avoid blocked words and occupied banks, hold pairs consistently, and stay disjoint from the constants' registers; every candidate is in the plan or left no room by views of candidates before it in weight order. |
| ScalarRegisterPlan.Choose | src/arm64/scalar_register_plan.cpp:133-142 | Views are taken greedily: each candidate is in the plan with all its views, or the views of candidates before it alone already left it no room. |
| ScalarRegisterPlan.Place | src/arm64/scalar_register_plan.cpp:143-152 | A free bank is always found, and every view receives a register of its own. |
| ScalarRegisterPlan.Sort | src/arm64/scalar_register_plan.cpp:128-132 | The candidates are ordered by weight and remain the same candidates. |
| VectorRegisters.FlushAfterRun | src/arm64/vector_registers.hpp:115-225 | Restoring at entry, any sequence of observed operations, constants, scratch and polls, then flushing, leaves every architectural word equal to its last write. |
| VectorFrames.CompiledFlush | src/arm64/vector_registers.hpp:40-52 | A plan made from the observed accesses and the masks marked while their operands were compiled form a valid frame; whatever the compiled code then executes, with polls anywhere, is legal in it, and the exit flush leaves every architectural word equal to its last write. |
| VectorFrames.CompiledRead | src/arm64/vector_registers.hpp:64-79 | A compiled single read finds the architectural word, in a resident or in a bank that its own compilation marked. |
| VectorFrames.CompiledReadDouble | src/arm64/vector_registers.hpp:80-93 | A compiled double read finds both architectural words. |
| VectorFrames.FrameValid | src/arm64/vector_registers.hpp:40-52 | Compiling planned operands only ever marks banks in which the plan put no resident. |
| VectorFrames.Registers.Compile | src/arm64/vector_registers.hpp:40-52 | Compiling an operand marks its bank as used when no resident serves it, and as dirty as well when it is written. |
| VectorRegisters.PollHolds | src/arm64/compiler.cpp:238-251 | A poll in the middle of a run publishes every architectural word, and after the host has overwritten every register the restore brings each one back. |
| VectorRegisters.RunTracks | src/arm64/vector_registers.hpp:40-135 | Any sequence of operations keeps every live word where the plan says it is. |
| VectorRegisters.FlushExact | src/arm64/vector_registers.hpp:190-225 | Publishing banks and then resident words yields the architectural words although packed neighbours may be stale. |
| VectorRegisters.LocationsDistinct | src/arm64/vector_registers.hpp:94-114 | No two live words share a host lane, and no resident sits in a bank in use. |
| VectorRegisters.DoubleKeeps | src/arm64/vector_registers.hpp:115-126 | Writing a double, whole, split or packed, is to every live word writing its two halves. |
| VectorRegisters.ReadSingleExact | src/arm64/vector_registers.hpp:64-79 | Reading an observed single operand yields the architectural word. |
| VectorRegisters.ReadDoubleExact | src/arm64/vector_registers.hpp:80-93 | Reading an observed double operand yields both architectural words. |
| VectorRegisters.Flush | src/arm64/vector_registers.hpp:190-225 | The flushing loops leave in memory exactly the specified word at every index. |
| ShiftCountRange.FourWayExact | src/arm64/compiler.cpp:1318-1334 | For every count, kind, operand and incoming carry the body the four-way entry code selects, including reused bodies, computes the portable value and carry. |
| ShiftCountRange.TwoWayExact | src/arm64/shift_count_range.cpp:18-28 | Dispatch on bits 5 to 7 selects a body with the portable value. |
| ShiftCountRange.ValueExact | src/arm64/register_shift_emitter.cpp:22-43 | In its range every specialised body computes the portable value although host shifts take the count modulo 32. |
| ShiftCountRange.CarryExact | src/arm64/register_shift_emitter.cpp:44-86 | In its range every refined body publishes the portable carry, as native C or in the saved flags. |
| ShiftCountRange.GeneralExact | src/arm64/integer_emitter.cpp:168-240 | The unspecialised lowering computes the portable value and carry for every count. |
| ShiftCountRange.Canonical | src/arm64/shift_count_range.cpp:34-51 | Equal bodies share one representative equal to each of them, and the count is the number of bodies kept. |
| ShiftCountRange.SurveyCovers | src/arm64/instruction_window.cpp:454-512 | The selected count register is written nowhere in the cycle, a linking closing branch included, and is the lowest such register that some shift is worth specialising for; the recorded kinds cover every shift by it, the carry kinds every one whose carry is live. |
| ParallelBytes.BytesExact | src/arm64/parallel_byte_arithmetic_emitter.cpp:4-50 | For all operands, signs and directions the word-parallel program gives the lane loop's result and comparison bits. |
| ParallelBytes.LaneLoop | src/arm/parallel_arithmetic.cpp:52-86 | The portable loop computes its lane-by-lane specification. |
| ParallelBytes.SumByte | src/arm64/parallel_byte_arithmetic_emitter.cpp:12-26 | Each byte of the parallel sum or difference is the wrapped lane result; no carry crosses lanes. |
| ParallelBytes.SignOfByte | src/arm64/parallel_byte_arithmetic_emitter.cpp:27-42 | The majority of the sign bits decides each lane's comparison. |
| ParallelBytes.GatherExact | src/arm64/parallel_byte_arithmetic_emitter.cpp:43-47 | The multiplication collects the four comparison bits without collisions. |
| SaturatingArithmetic.SaturatingExact | src/arm64/saturating_arithmetic_emitter.cpp:6-73 | Every saturating operation the decoders produce gives the portable result and sticky Q. |
| SaturatingArithmetic.SaturateExact | src/arm64/scalar_saturation_emitter.cpp:4-42 | The host saturation equals the clamp on every value its source width allows, also where the test is skipped. |
| SaturatingArithmetic.FlagsTestExact | src/arm64/integer_emitter.cpp:9-20 | The predicate for flag clobbers says yes exactly when the emitted program compares. |
| HalfwordMultiply.MultiplyExact | src/arm64/dsp_multiply_emitter.cpp:16-51 | Every halfword multiply leaves the portable registers and sticky Q, whatever registers coincide. |
| HalfwordMultiply.DualsExact | src/arm64/dual_halfword_multiply_emitter.cpp:16-55 | The dual products, with or without exchange, long or accumulating, equal the wide sums of the reference, also where the overflow test is skipped. |
| HalfwordMultiply.OverflowExact | src/arm64/dsp_multiply_emitter.cpp:16-51 | Overflow of the host word addition is the wide sum leaving the signed range. |
| HalfwordMultiply.SumCanOverflow | src/arm64/dual_halfword_multiply_emitter.cpp:16-55 | The test may be skipped for differences only: the largest sum of two products leaves the signed word. |

## Left out

- DeadFlags.Elimination: a floating comparison is a boundary here; ComparisonFlags.ComparedElimination is the theorem for traces whose comparisons may clobber NZCV. An instruction that straddles the end of its region is fetched alone and keeps its flags.
- InstructionWindow.InstructionWindow.Take: the caller is assumed to follow straight-line flow when it leaves the decoded window and to pass the regions' end function; the decoder is assumed to report wide Thumb encodings as four bytes long.
- CycleExits.ExitExact: the condition is exact for the set of flags that may be stale; whether a given host run then really shows a wrong bit depends on guest values, so that direction is an example and not a theorem.
- Dispatcher.RunWithinBudget: the executor's clamp against the end of the 64-bit tick counter and its interpreted slices while a path is recorded are not modelled.
- CodeCache.CodeCache.constructor: a budget below the minimum is a precondition instead of an exception.
- CacheRuns.NeverStale: the flags of a pass are those of the emitted run whose internal clobbers are undone, which DeadFlags.SkipsAlike shows to skip and execute alike; what a segment's slot should hold is a parameter here and the publication of its first validated access in PointerRuns.
- ComparisonFlags.ComparedElimination: that a comparison with clear trap controls changes only the opaque state, and that only a write of the status register sets trap controls, are assumptions about the uninterpreted families, as the architecture defines them; the run is the one up to a comparison that leaves the trace.
- HeldPointers.HeldExact: a base moved by its stride register is taken to travel less than 2^31, which ConstantTravel proves for constant updates; that a held base serves only accesses of its own window or segment is part of how lifetimes are proposed.
- PointerRuns.PointersExact: an access through a base already held as a pointer takes that register instead, which is HeldPointers.HeldExact; vector transfers split over two pages, which use no slot, are not modelled.
- CacheGuards.PreservesFlagsSound: the memory kinds, which the classifier also answers for, are boundaries of the guest machine, so that they keep NZCV is an assumption about them.
- GuestMachine.EffectsSound: families other than data processing, multiplication and system access are uninterpreted functions of the registers and the remaining state, without NZCV, as the architecture defines them.
- WindowGuards.WindowGuardSound: page biases, leases and guest memory are uninterpreted; keys with a PC base get no window, as in the code.
- AddressRegisterRuns.RunDenotes: which lifetimes and which cycle bases are proposed is a heuristic and left open; whatever is proposed must be permitted by the rules.
- ScalarRegisterPlan.Builder.Finish: weights are whatever they are; the packing is greedy, not optimal.
- VectorRegisters.FlushAfterRun: the used and dirty masks are given here and derived in VectorFrames.CompiledFlush; operations are the observed operands rather than decoded vector instructions.
- ContinuationScope.HitValidated: visit and heat counters and their effect on promotion only appear as events that move the revision on.
- ParallelBytes.BytesExact: bytes are bit-vectors here and integers elsewhere; there is no conversion between the two.
- Bit masks over registers, flags and slots are modelled as sets, and the continuation table as a map keyed by way and set.
- The full A32/T32 decode tables: a decoded instruction is given, with the operand ranges the decoders guarantee where an evaluator needs them.
- Floating point and vector evaluation and emission, which rest on a software library and IEEE rounding.
- Memory contents, page tables, instruction leases, I/O, clocks, statistics and allocation failures.
- A64 encodings, labels, alignment padding, executable memory and its permissions.
- Selection heuristics (copy counts, heat, slot counts by read chains) except where a bound appears in a property.
