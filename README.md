# p-os kernel: frame allocator, interrupt-masking mutex, test exit codes

A Dafny model of three sequential pieces of the p-os x86-64 kernel and its test runner.

- **Memory** (`memory.dfy`): the boot-info physical frame allocator.
  - `usable_frames` turns the bootloader's memory map into a flat sequence of 4 KiB frames. It keeps the `Usable` regions, steps each `[start, end)` range by 4096 and rounds each address down to the frame that contains it. Here it is the pure function `UsableFrames`, built stage by stage: filter, step, flat-map, containing frame.
  - `BootInfoFrameAllocator` is a class. Its cursor moves forward through that sequence, one frame per `AllocateFrame` call, and then returns `None`.
  - The page-table-root translation is `virt = physical_memory_offset + phys`.
- **UninterruptibleMutex** (`uninterruptible_mutex.dfy`): the spin lock whose guard also masks interrupts.
  - Class `Cpu` holds the core's interrupt-enable flag. It also keeps four ghost values: the trace of side effects performed so far, the stack of live `InterruptGuard`s, the owner of each live guard (the mutex whose `lock` or `try_lock` made it), and `enabledOutside`, the flag's value outside any critical section, which the nesting invariant restores.
  - Class `UninterruptibleMutex` holds the held bit and the protected value.
  - Each operation states its new state and the exact effects it appends to the trace. That is how the guard's field drop order (release the lock, then restore interrupts) is stated.
  - The invariant `WellNested` says three things. Interrupts stay masked while any guard lives. Inner guards record `false`. The flag returns to its earlier value when the outermost guard is dropped.
- **QemuExit** (`qemu_exit.dfy`): how the test runner recovers the kernel's exit code from the emulator's status.
  - A missing status becomes -1.
  - In test mode, a code above 0x20 becomes `(code >> 1) - 0x10`, on Rust's `i32`.
- `wrappers.dfy` holds the `Option` type.

A caller of `usable_frames` might expect three things of a map with S usable bytes: ⌊S / 4096⌋ frames, each frame lying within a usable region, and no frame repeated. The code promises less, and this model follows the code.

- The code counts ⌈(end − start) / 4096⌉ frames per region, and it rounds an unaligned start down below the region.
- For page-aligned maps, `AlignedMapFrameCount` proves the ⌊S / 4096⌋ count and `AlignedFrameWithinUsableRegion` proves that each frame lies within a usable region. For page-aligned maps whose usable regions are also sorted, `AlignedSortedFramesDistinct` proves that no frame repeats.
- `OneByteRegionYieldsFrame`, `UnalignedStartRoundsDown` and `UnalignedNeighboursShareFrame` show where they fail otherwise. In the last one, two half-page usable regions both yield frame 0.
- Whether the bootloader ever produces such a map is not part of this model.

## Model

| member | source | states |
|---|---|---|
| Memory.UsableRegions | kernel/src/memory.rs:15 | the filter keeps exactly the Usable regions of the map and no more entries than the map has |
| Memory.StepBy | kernel/src/memory.rs:19 | the step walk is empty exactly when end <= start, and every address it reaches lies in [start, end) |
| Memory.FrameAddresses | kernel/src/memory.rs:17-19 | every address the flat-map yields lies in [start, end) of one of the regions |
| Memory.ContainingFrames | kernel/src/memory.rs:21 | one frame per address, each 4096-aligned and holding its address |
| Memory.ContainingAddress | kernel/src/memory.rs:21 | the frame is 4096-aligned and its 4 KiB span holds the address, so the address is rounded down to its frame |
| Memory.ContainingAddressStep | kernel/src/memory.rs:19-21 | moving an address up one page moves its containing frame up exactly one page |
| Memory.UsableFrames | kernel/src/memory.rs:12-22 | every frame the pipeline yields starts on a 4096 boundary |
| Memory.FrameCountIsCeiling | kernel/src/memory.rs:19 | index k is below a range's frame count exactly when start + k*4096 < end, so the count is ceil((end-start)/4096) and 0 when end <= start |
| Memory.StepByLength | kernel/src/memory.rs:19 | `step_by(4096)` over [start, end) yields exactly the ceiling count of addresses |
| Memory.StepByAt | kernel/src/memory.rs:19 | the k-th address of the step walk is start + k*4096 |
| Memory.SingleRegionFrameAt | kernel/src/memory.rs:15-21 | a single region yields its ceiling count of frames if usable and none otherwise; the k-th is the frame holding start + k*4096 |
| Memory.UsableFramesConcat | kernel/src/memory.rs:14-19 | the frames of a concatenated map are the frames of the first part followed by those of the second |
| Memory.NonUsableContributesNothing | kernel/src/memory.rs:15 | deleting a region of any kind other than Usable leaves the frame sequence unchanged |
| Memory.UsableFramesLength | kernel/src/memory.rs:12-22 | the number of frames is the sum over regions of the per-region ceiling counts, 0 for non-usable regions |
| Memory.UsableFramesAt | kernel/src/memory.rs:14-21 | completeness with position: the k-th address of usable region i yields its frame at position (frames of regions before i) + k |
| Memory.UsableFrameOrigin | kernel/src/memory.rs:14-21 | soundness: every yielded frame is the frame of some address start + k*4096 < end of some usable region |
| Memory.RegionsInMapOrder | kernel/src/memory.rs:14-19 | for usable regions i < i', the k-th frame of region i sits at an earlier position of the sequence than the k'-th frame of region i', and both positions hold those frames |
| Memory.RegionFramesConsecutive | kernel/src/memory.rs:19-21 | within a region, consecutive frames are exactly 4096 apart |
| Memory.UnalignedStartRoundsDown | kernel/src/memory.rs:21 | a usable region with an unaligned start yields a first frame that begins below its start |
| Memory.AlignedFrameWithinUsableRegion | kernel/src/memory.rs:12-22 | when every usable region is page-aligned, each yielded frame's 4 KiB span lies inside some usable region |
| Memory.AlignedRegionFramesBelowEnd | kernel/src/memory.rs:19-21 | a usable region with an aligned start yields increasing frames, the k-th at start + k*4096 and below the region's end |
| Memory.AlignedFramesAbove | kernel/src/memory.rs:14-21 | in a page-aligned map, a bound below every usable region's start bounds every yielded frame |
| Memory.AlignedMapFrameCount | kernel/src/memory.rs:12-22 | when every usable region is page-aligned, the frame count is the usable byte count divided by 4096 |
| Memory.AlignedSortedFramesDistinct | kernel/src/memory.rs:12-22 | when usable regions are page-aligned and sorted without overlap, the frames are strictly increasing, so none repeats |
| Memory.OneMebibyteRegion | kernel/src/memory.rs:12-22 | usable [0x100000, 0x200000) yields exactly 256 frames, 0x100000 + k*4096 |
| Memory.OneByteRegionYieldsFrame | kernel/src/memory.rs:17-21 | one usable byte yields a whole frame although floor(usable bytes / 4096) is 0 |
| Memory.UnalignedNeighboursShareFrame | kernel/src/memory.rs:17-21 | usable [0, 0x800) and [0x800, 0x1000) yield frame 0 twice |
| Memory.BootInfoFrameAllocator.constructor | kernel/src/memory.rs:25-31 | a new allocator walks UsableFrames of the map and has handed out nothing |
| Memory.BootInfoFrameAllocator.AllocateFrame | kernel/src/memory.rs:36-38 | returns the next frame in sequence order and advances the cursor by one, or returns None and stays put once exhausted |
| Memory.AllocatorNeverRepeats | kernel/src/memory.rs:36-38 | for a page-aligned sorted map, handed-out frames are pairwise distinct and none is still waiting in the iterator |
| Memory.Level4TableAddress | kernel/src/memory.rs:51-52 | the table's virtual address lies at or above the offset and exceeds it by exactly the CR3 frame's start address |
| Memory.OffsetMappingKeepsFramesApart | kernel/src/memory.rs:51-52 | with an aligned offset, the translated address is page-aligned and distinct frames translate to distinct addresses |
| UninterruptibleMutex.GuardNewEffects | kernel/src/uninterruptible_mutex.rs:117-119 | creating a guard performs an effect exactly when interrupts were on, and that effect only disables them |
| UninterruptibleMutex.GuardDropEffects | kernel/src/uninterruptible_mutex.rs:129-131 | dropping a guard performs an effect exactly when it recorded interrupts on, and that effect only enables them |
| UninterruptibleMutex.LockEffects | kernel/src/uninterruptible_mutex.rs:33-36 | `lock` ends with acquiring the spin lock, preceded only by the interrupt disable, which happens exactly when interrupts were on |
| UninterruptibleMutex.GuardedUnlockEffects | kernel/src/uninterruptible_mutex.rs:12-15 | a guard drop starts with releasing the spin lock, followed only by the interrupt enable, which happens exactly when the guard recorded interrupts on |
| UninterruptibleMutex.LockEffectsRun | kernel/src/uninterruptible_mutex.rs:32-39 | during `lock` the mutex becomes held only at the last effect, and by then interrupts are masked |
| UninterruptibleMutex.GuardedUnlockRun | kernel/src/uninterruptible_mutex.rs:12-15 | on guard drop the lock is free from the first effect on, and the flag ends set exactly when the guard recorded it set |
| UninterruptibleMutex.CriticalSectionMasked | kernel/src/uninterruptible_mutex.rs:32-39 | across lock, a body that does not re-enable interrupts, and guard drop: interrupts are masked whenever the mutex is held, and at the end the lock is free and the flag is back at its pre-acquire value |
| UninterruptibleMutex.GuardNewKeepsNesting | kernel/src/uninterruptible_mutex.rs:114-125 | creating a guard with the current flag keeps the nesting invariant |
| UninterruptibleMutex.GuardDropKeepsNesting | kernel/src/uninterruptible_mutex.rs:127-133 | dropping the innermost guard keeps the nesting invariant |
| UninterruptibleMutex.InnerGuardIsInert | kernel/src/uninterruptible_mutex.rs:114-133 | a guard taken while interrupts are off records false, and neither its creation nor its drop touches the flag |
| UninterruptibleMutex.NestedGuards | kernel/src/uninterruptible_mutex.rs:114-133 | after n nested guards and m innermost drops, interrupts stay off while m < n and are back at their original value when m = n |
| UninterruptibleMutex.Cpu.NewInterruptGuard | kernel/src/uninterruptible_mutex.rs:114-125 | records the prior flag in the guard; afterwards interrupts are off; disables only if they were on |
| UninterruptibleMutex.Cpu.DropInterruptGuard | kernel/src/uninterruptible_mutex.rs:127-133 | only the innermost guard, by its owner, can be dropped; sets the flag exactly when the guard recorded it set, otherwise leaves it; dropping the last guard restores the outside value |
| UninterruptibleMutex.UninterruptibleMutex.constructor | kernel/src/uninterruptible_mutex.rs:21-27 | a new mutex is free and holds the given value |
| UninterruptibleMutex.UninterruptibleMutex.Lock | kernel/src/uninterruptible_mutex.rs:32-39 | afterwards the mutex is held, interrupts are off, the guard records the prior flag and stays live, owned by this mutex; effects are guard creation then acquire |
| UninterruptibleMutex.UninterruptibleMutex.TryLock | kernel/src/uninterruptible_mutex.rs:52-62 | succeeds exactly when the mutex was free, behaving as Lock; otherwise None, the held bit unchanged, the flag back at its prior value and no guard left live |
| UninterruptibleMutex.UninterruptibleMutex.Unlock | kernel/src/uninterruptible_mutex.rs:12-15 | only the innermost live guard, and only when this mutex made it, can be dropped; guard drop in field order: the lock is released, then interrupts are re-enabled exactly if they were on at acquire |
| UninterruptibleMutex.UninterruptibleMutex.IsLocked | kernel/src/uninterruptible_mutex.rs:42-44 | reports the held bit and changes nothing |
| UninterruptibleMutex.UninterruptibleMutex.ForceUnlock | kernel/src/uninterruptible_mutex.rs:47-49 | clears the held bit and leaves the interrupt flag alone |
| UninterruptibleMutex.UninterruptibleMutex.Read | kernel/src/uninterruptible_mutex.rs:100-105 | reading needs a live guard of this mutex (held, its interrupt guard on the stack and owned by this mutex); it returns the protected value, changes nothing, and happens with interrupts masked |
| UninterruptibleMutex.UninterruptibleMutex.Write | kernel/src/uninterruptible_mutex.rs:107-111 | writing needs a live guard of this mutex; it changes only the protected value, the guard stays live, and interrupts are masked |
| UninterruptibleMutex.UninterruptibleMutex.GetMut | kernel/src/uninterruptible_mutex.rs:65-67 | exclusive access changes only the protected value, touching neither the held bit nor the interrupt flag |
| QemuExit.ExitCode | src/bin/qemu-uefi.rs:64 | the child's exit code when it has one, and -1 when it has none |
| QemuExit.ShiftRight1 | src/bin/qemu-uefi.rs:67 | `>> 1` on i32 is the floor of half: 2r <= x <= 2r + 1 |
| QemuExit.Decode | src/bin/qemu-uefi.rs:64-71 | a missing status gives -1; outside test mode, or for codes <= 0x20, the code is unchanged; otherwise the result r is >= 0 and 2(r + 0x10) <= code <= 2(r + 0x10) + 1 |
| QemuExit.DebugExitStatus | src/bin/qemu-uefi.rs:35 | the `isa-debug-exit` status, v shifted left by one with the low bit set, is odd and halves back to v |
| QemuExit.DecodeRoundTrip | src/bin/qemu-uefi.rs:66-67 | for kernel value v >= 0x10, decoding the debug-exit status in test mode gives v - 0x10 |
| QemuExit.SmallValuePassesThrough | src/bin/qemu-uefi.rs:66-71 | for kernel value v < 0x10 the status 2v + 1 is at most 0x1f and is returned undecoded |
| QemuExit.LowBitDiscarded | src/bin/qemu-uefi.rs:67 | in test mode the statuses 2k and 2k + 1 above 0x20 decode to the same code |

## Left out

- Addresses are unbounded naturals. The model has no `u64` limit, and it leaves out the panic in `PhysAddr::new` for addresses at or above 2^52 and the canonical-address check in `VirtAddr` addition.
- `Cr3::read`, the raw pointer cast to a page table and `OffsetPageTable::new` (kernel/src/memory.rs:43-55) are hardware and foreign-library calls. Only the offset addition is modelled.
- The spin loop of `spin::Mutex::lock` is busy-waiting. `UninterruptibleMutex.UninterruptibleMutex.Lock` requires the lock to be free instead. On one core with interrupts masked, nothing else could free it.
- UninterruptibleMutex.UninterruptibleMutex.Unlock: guards are dropped innermost first, as Rust scopes drop them. Dropping guards out of order with an explicit `drop` is not modelled.
- Only interrupt guards change the interrupt flag in this model. Direct `interrupts::enable` or `disable` calls elsewhere in the kernel (during initialisation) are not modelled.
- UninterruptibleMutex.CriticalSectionMasked: the critical-section body may only mask interrupts. Acquisitions of other mutexes inside it are covered by `NestedGuards` and `InnerGuardIsInert`. They are not part of this trace, because the trace does not say which mutex a lock effect belongs to.
- A guard is not tied to the lifetime of the borrowed mutex, which Rust's borrow checker enforces. What the model keeps of that guarantee is ownership: each live interrupt guard is recorded with the mutex that made it, `Unlock` accepts only the innermost live guard made by that same mutex, and `Read` and `Write` only a live guard of a held mutex. `DropInterruptGuard` takes the owner as a ghost argument and accepts only the innermost guard's owner. Inside the model only the mutex calls it, passing itself. This stands in for the source's private `interrupt_guard` field (kernel/src/uninterruptible_mutex.rs:12-15): the model cannot stop an outside caller from naming the owner itself.
- The `Debug`, `Display`, `Default` and `From` implementations on the mutex and its guard are formatting and construction sugar.
- QemuExit.DecodeRoundTrip: stated for statuses that fit an `i32`. The host operating system's truncation of a process exit status to 8 bits is outside the runner's code and is not modelled.
- The rest of `run_qemu` (building the emulator command, spawning it, the 300-second test timeout, terminal sizing, `process::exit`) is process plumbing.
- Register loading (kernel/src/gdt.rs, kernel/src/interrupts.rs), the serial, framebuffer and logging output code, the kernel entry point and build.rs are hardware, I/O or thin wrappers over libraries outside these files.
