/**
 * The boot-info physical frame allocator and the page-table-root translation
 * of the kernel's memory module.
 *
 * `usable_frames` is an iterator pipeline over the bootloader's memory map:
 * keep the `Usable` regions, step each `[start, end)` range by 4096 bytes and
 * turn every address reached into the 4 KiB frame that contains it. Here that
 * pipeline is the pure function `UsableFrames`, built stage by stage, and the
 * allocator is a class holding a cursor into the sequence it denotes.
 */
module Memory {
  import opened Wrappers

  /** The size of a 4 KiB frame and the stride of the address walk. */
  const PageSize: nat := 4096

  /** The classification the bootloader gives each memory region. */
  datatype MemoryRegionKind =
    | Usable
    | Bootloader
    | UnknownUefi(uefiType: nat)
    | UnknownBios(biosType: nat)

  /** One entry of the boot memory map: the physical byte range [start, end) and its kind. */
  datatype MemoryRegion = MemoryRegion(start: nat, end: nat, kind: MemoryRegionKind)

  /** A 4 KiB physical frame, identified by its start address. */
  datatype PhysFrame = PhysFrame(startAddress: nat)

  predicate IsAligned(addr: nat) {
    addr % PageSize == 0
  }

  /** `PhysFrame::containing_address`: the frame whose 4 KiB span holds `addr`. */
  function ContainingAddress(addr: nat): (frame: PhysFrame)
    ensures IsAligned(frame.startAddress)
    ensures frame.startAddress <= addr < frame.startAddress + PageSize
  {
    PhysFrame(addr - addr % PageSize)
  }

  /** An aligned frame whose span holds `addr` is the containing frame: the
      contract of `ContainingAddress` determines its result. */
  lemma ContainingAddressUnique(addr: nat, frame: PhysFrame)
    requires IsAligned(frame.startAddress)
    requires frame.startAddress <= addr < frame.startAddress + PageSize
    ensures ContainingAddress(addr) == frame
  {
    var q := frame.startAddress / PageSize;
    assert frame.startAddress == q * PageSize;
    assert addr == q * PageSize + (addr - frame.startAddress);
    assert addr % PageSize == addr - frame.startAddress;
  }

  /** Moving an address up by one page moves its containing frame up by one page. */
  lemma ContainingAddressStep(addr: nat)
    ensures ContainingAddress(addr + PageSize).startAddress == ContainingAddress(addr).startAddress + PageSize
  {
    var f := ContainingAddress(addr);
    ContainingAddressUnique(addr + PageSize, PhysFrame(f.startAddress + PageSize));
  }

  // ---------------------------------------------------------------------
  // The iterator pipeline of `usable_frames`, one stage at a time
  // ---------------------------------------------------------------------

  /** `regions.filter(|r| r.kind == Usable)`, keeping map order. */
  function UsableRegions(memoryMap: seq<MemoryRegion>): (regions: seq<MemoryRegion>)
    ensures |regions| <= |memoryMap|
    ensures forall r :: r in regions <==> r in memoryMap && r.kind == Usable
  {
    if memoryMap == [] then []
    else (if memoryMap[0].kind == Usable then [memoryMap[0]] else []) + UsableRegions(memoryMap[1..])
  }

  /** `(start..end).step_by(4096)`: start, start + 4096, ... while below `end`. */
  function StepBy(start: nat, end: nat): (addrs: seq<nat>)
    ensures addrs == [] <==> end <= start
    ensures forall a :: a in addrs ==> start <= a < end
    decreases end - start
  {
    if start < end then [start] + StepBy(start + PageSize, end) else []
  }

  /** `flat_map(|r| r.step_by(4096))` over the regions' address ranges. */
  function FrameAddresses(regions: seq<MemoryRegion>): (addrs: seq<nat>)
    ensures forall a :: a in addrs ==> exists r :: r in regions && r.start <= a < r.end
  {
    if regions == [] then [] else StepBy(regions[0].start, regions[0].end) + FrameAddresses(regions[1..])
  }

  /** `map(|addr| PhysFrame::containing_address(addr))`. */
  function ContainingFrames(addrs: seq<nat>): (frames: seq<PhysFrame>)
    ensures |frames| == |addrs|
    ensures forall i :: 0 <= i < |frames| ==>
      IsAligned(frames[i].startAddress) && frames[i].startAddress <= addrs[i] < frames[i].startAddress + PageSize
  {
    seq(|addrs|, i requires 0 <= i < |addrs| => ContainingAddress(addrs[i]))
  }

  /** The whole sequence `usable_frames` yields for a memory map. */
  function UsableFrames(memoryMap: seq<MemoryRegion>): (frames: seq<PhysFrame>)
    ensures forall j :: 0 <= j < |frames| ==> IsAligned(frames[j].startAddress)
  {
    ContainingFrames(FrameAddresses(UsableRegions(memoryMap)))
  }

  // ---------------------------------------------------------------------
  // Reference definitions: how many frames a region gives, and which
  // ---------------------------------------------------------------------

  /** ceil((end - start) / 4096), and none for an empty or inverted range. */
  function FrameCount(start: nat, end: nat): nat
  {
    if start < end then (end - start + PageSize - 1) / PageSize else 0
  }

  /** The frames a single region contributes to the sequence. */
  function RegionFrameCount(r: MemoryRegion): nat
  {
    if r.kind == Usable then FrameCount(r.start, r.end) else 0
  }

  /** The sum of the per-region counts over a memory map. */
  function TotalFrameCount(memoryMap: seq<MemoryRegion>): nat
  {
    if memoryMap == [] then 0 else RegionFrameCount(memoryMap[0]) + TotalFrameCount(memoryMap[1..])
  }

  /** The k-th address the walk over `r` reaches. */
  function RegionAddress(r: MemoryRegion, k: nat): nat
  {
    r.start + k * PageSize
  }

  /** The k-th frame region `r` yields: the frame holding its k-th address. */
  function RegionFrame(r: MemoryRegion, k: nat): PhysFrame
  {
    ContainingAddress(RegionAddress(r, k))
  }

  /** The usable bytes of a memory map, against which a caller might measure the frame count. */
  function UsableBytes(memoryMap: seq<MemoryRegion>): nat
  {
    if memoryMap == [] then 0
    else
      var r := memoryMap[0];
      (if r.kind == Usable && r.start < r.end then r.end - r.start else 0) + UsableBytes(memoryMap[1..])
  }

  // ---------------------------------------------------------------------
  // The address walk of one range
  // ---------------------------------------------------------------------

  /** The count is the ceiling: index k is in range exactly when start + k*4096 < end. */
  lemma FrameCountIsCeiling(start: nat, end: nat, k: nat)
    ensures k < FrameCount(start, end) <==> start + k * PageSize < end
  {
    if start < end {
      var d := end - start;
      if k < FrameCount(start, end) {
        assert (k + 1) * PageSize <= d + PageSize - 1;
      } else {
        assert (d + PageSize - 1) / PageSize <= k;
        assert d + PageSize - 1 < (k + 1) * PageSize;
      }
    }
  }

  /** `step_by` yields exactly ceil((end - start) / 4096) addresses. */
  lemma {:induction false} StepByLength(start: nat, end: nat)
    ensures |StepBy(start, end)| == FrameCount(start, end)
    decreases end - start
  {
    if start < end {
      StepByLength(start + PageSize, end);
      var d := end - start;
      if start + PageSize < end {
        assert (d + PageSize - 1) / PageSize == (d - PageSize + PageSize - 1) / PageSize + 1;
      } else {
        assert 1 <= d <= PageSize;
        assert (d + PageSize - 1) / PageSize == 1;
      }
    }
  }

  /** The k-th address `step_by` yields is start + k*4096. */
  lemma {:induction false} StepByAt(start: nat, end: nat, k: nat)
    requires k < |StepBy(start, end)|
    ensures StepBy(start, end)[k] == start + k * PageSize
    decreases k
  {
    if k > 0 {
      StepByAt(start + PageSize, end, k - 1);
    }
  }

  // ---------------------------------------------------------------------
  // Concatenation: the pipeline consumes the map in order
  // ---------------------------------------------------------------------

  lemma {:induction false} UsableRegionsConcat(a: seq<MemoryRegion>, b: seq<MemoryRegion>)
    ensures UsableRegions(a + b) == UsableRegions(a) + UsableRegions(b)
    decreases |a|
  {
    if a != [] {
      assert (a + b)[1..] == a[1..] + b;
      UsableRegionsConcat(a[1..], b);
    } else {
      assert a + b == b;
    }
  }

  lemma {:induction false} FrameAddressesConcat(a: seq<MemoryRegion>, b: seq<MemoryRegion>)
    ensures FrameAddresses(a + b) == FrameAddresses(a) + FrameAddresses(b)
    decreases |a|
  {
    if a != [] {
      assert (a + b)[1..] == a[1..] + b;
      FrameAddressesConcat(a[1..], b);
    } else {
      assert a + b == b;
    }
  }

  lemma ContainingFramesConcat(a: seq<nat>, b: seq<nat>)
    ensures ContainingFrames(a + b) == ContainingFrames(a) + ContainingFrames(b)
  {
    var l, r := ContainingFrames(a + b), ContainingFrames(a) + ContainingFrames(b);
    assert |l| == |r|;
    forall j | 0 <= j < |l| ensures l[j] == r[j] {
      if j < |a| {
        assert (a + b)[j] == a[j];
      } else {
        assert (a + b)[j] == b[j - |a|];
      }
    }
  }

  /** The frames of a map are the frames of its first part followed by those of the rest. */
  lemma UsableFramesConcat(a: seq<MemoryRegion>, b: seq<MemoryRegion>)
    ensures UsableFrames(a + b) == UsableFrames(a) + UsableFrames(b)
  {
    UsableRegionsConcat(a, b);
    FrameAddressesConcat(UsableRegions(a), UsableRegions(b));
    ContainingFramesConcat(FrameAddresses(UsableRegions(a)), FrameAddresses(UsableRegions(b)));
  }

  /** A single region gives the frames of its addresses if usable, and nothing otherwise. */
  lemma SingleRegionFrames(r: MemoryRegion)
    ensures UsableFrames([r]) == if r.kind == Usable then ContainingFrames(StepBy(r.start, r.end)) else []
  {
    assert [r][1..] == [];
    if r.kind == Usable {
      assert UsableRegions([r]) == [r];
      assert FrameAddresses([r]) == StepBy(r.start, r.end) + FrameAddresses([]);
    }
  }

  /** The frames of one region, by index: ceil((end - start) / 4096) of them, the k-th holding start + k*4096. */
  lemma SingleRegionFrameAt(r: MemoryRegion, k: nat)
    ensures |UsableFrames([r])| == RegionFrameCount(r)
    ensures k < RegionFrameCount(r) ==> UsableFrames([r])[k] == RegionFrame(r, k)
  {
    SingleRegionFrames(r);
    StepByLength(r.start, r.end);
    if k < RegionFrameCount(r) {
      StepByAt(r.start, r.end, k);
    }
  }

  // ---------------------------------------------------------------------
  // Properties of the whole frame sequence
  // ---------------------------------------------------------------------

  /** Only usable regions contribute frames: removing any other region changes nothing. */
  lemma NonUsableContributesNothing(before: seq<MemoryRegion>, r: MemoryRegion, after: seq<MemoryRegion>)
    requires r.kind != Usable
    ensures UsableFrames(before + [r] + after) == UsableFrames(before + after)
  {
    UsableFramesConcat(before + [r], after);
    UsableFramesConcat(before, [r]);
    UsableFramesConcat(before, after);
    SingleRegionFrames(r);
  }

  /** The total number of frames is the sum of the per-region ceilings. */
  lemma {:induction false} UsableFramesLength(memoryMap: seq<MemoryRegion>)
    ensures |UsableFrames(memoryMap)| == TotalFrameCount(memoryMap)
    decreases |memoryMap|
  {
    if memoryMap != [] {
      assert memoryMap == [memoryMap[0]] + memoryMap[1..];
      UsableFramesConcat([memoryMap[0]], memoryMap[1..]);
      SingleRegionFrameAt(memoryMap[0], 0);
      UsableFramesLength(memoryMap[1..]);
    }
  }

  lemma {:induction false} TotalFrameCountConcat(a: seq<MemoryRegion>, b: seq<MemoryRegion>)
    ensures TotalFrameCount(a + b) == TotalFrameCount(a) + TotalFrameCount(b)
    decreases |a|
  {
    if a != [] {
      assert (a + b)[1..] == a[1..] + b;
      TotalFrameCountConcat(a[1..], b);
    } else {
      assert a + b == b;
    }
  }

  /** Completeness, with position: the k-th address of usable region i yields a frame,
      placed right after all frames of the regions before it. */
  lemma UsableFramesAt(memoryMap: seq<MemoryRegion>, i: nat, k: nat)
    requires i < |memoryMap| && memoryMap[i].kind == Usable
    requires memoryMap[i].start + k * PageSize < memoryMap[i].end
    ensures TotalFrameCount(memoryMap[..i]) + k < |UsableFrames(memoryMap)|
    ensures UsableFrames(memoryMap)[TotalFrameCount(memoryMap[..i]) + k] == RegionFrame(memoryMap[i], k)
  {
    var r := memoryMap[i];
    assert memoryMap == memoryMap[..i] + [r] + memoryMap[i + 1..];
    UsableFramesConcat(memoryMap[..i] + [r], memoryMap[i + 1..]);
    UsableFramesConcat(memoryMap[..i], [r]);
    UsableFramesLength(memoryMap[..i]);
    FrameCountIsCeiling(r.start, r.end, k);
    SingleRegionFrameAt(r, k);
  }

  /** Soundness: every frame in the sequence is the k-th frame of some usable region,
      for an index k at which that region's walk is still below its end. */
  lemma {:induction false} UsableFrameOrigin(memoryMap: seq<MemoryRegion>, j: nat)
    requires j < |UsableFrames(memoryMap)|
    ensures exists i: nat, k: nat ::
      (i < |memoryMap| && memoryMap[i].kind == Usable &&
       RegionAddress(memoryMap[i], k) < memoryMap[i].end &&
       UsableFrames(memoryMap)[j] == RegionFrame(memoryMap[i], k))
    decreases |memoryMap|
  {
    var r, rest := memoryMap[0], memoryMap[1..];
    assert memoryMap == [r] + rest;
    UsableFramesConcat([r], rest);
    var n := |UsableFrames([r])|;
    SingleRegionFrameAt(r, j);
    if j < n {
      FrameCountIsCeiling(r.start, r.end, j);
      assert RegionAddress(memoryMap[0], j) < memoryMap[0].end;
    } else {
      UsableFrameOrigin(rest, j - n);
      var i: nat, k: nat :| i < |rest| && rest[i].kind == Usable &&
        RegionAddress(rest[i], k) < rest[i].end &&
        UsableFrames(rest)[j - n] == RegionFrame(rest[i], k);
      assert memoryMap[i + 1] == rest[i];
    }
  }

  /** Map order: each frame of an earlier usable region precedes each frame of a later one. */
  lemma RegionsInMapOrder(memoryMap: seq<MemoryRegion>, i: nat, k: nat, i': nat, k': nat)
    requires i < i' < |memoryMap|
    requires memoryMap[i].kind == Usable && memoryMap[i].start + k * PageSize < memoryMap[i].end
    requires memoryMap[i'].kind == Usable && memoryMap[i'].start + k' * PageSize < memoryMap[i'].end
    ensures TotalFrameCount(memoryMap[..i]) + k < TotalFrameCount(memoryMap[..i']) + k' < |UsableFrames(memoryMap)|
    ensures UsableFrames(memoryMap)[TotalFrameCount(memoryMap[..i]) + k] == RegionFrame(memoryMap[i], k)
    ensures UsableFrames(memoryMap)[TotalFrameCount(memoryMap[..i']) + k'] == RegionFrame(memoryMap[i'], k')
  {
    UsableFramesAt(memoryMap, i, k);
    UsableFramesAt(memoryMap, i', k');
    assert memoryMap[..i'] == memoryMap[..i] + [memoryMap[i]] + memoryMap[i + 1..i'];
    TotalFrameCountConcat(memoryMap[..i] + [memoryMap[i]], memoryMap[i + 1..i']);
    TotalFrameCountConcat(memoryMap[..i], [memoryMap[i]]);
    assert [memoryMap[i]][1..] == [];
    FrameCountIsCeiling(memoryMap[i].start, memoryMap[i].end, k);
  }

  /** Within one region consecutive frames are exactly one page apart. */
  lemma RegionFramesConsecutive(memoryMap: seq<MemoryRegion>, i: nat, k: nat)
    requires i < |memoryMap| && memoryMap[i].kind == Usable
    requires memoryMap[i].start + (k + 1) * PageSize < memoryMap[i].end
    ensures TotalFrameCount(memoryMap[..i]) + k + 1 < |UsableFrames(memoryMap)|
    ensures UsableFrames(memoryMap)[TotalFrameCount(memoryMap[..i]) + k + 1].startAddress ==
            UsableFrames(memoryMap)[TotalFrameCount(memoryMap[..i]) + k].startAddress + PageSize
  {
    UsableFramesAt(memoryMap, i, k);
    UsableFramesAt(memoryMap, i, k + 1);
    ContainingAddressStep(RegionAddress(memoryMap[i], k));
    assert RegionAddress(memoryMap[i], k + 1) == RegionAddress(memoryMap[i], k) + PageSize;
  }

  /** An unaligned start is rounded down: the region's first frame begins below its start. */
  lemma UnalignedStartRoundsDown(r: MemoryRegion)
    requires r.kind == Usable && r.start < r.end && !IsAligned(r.start)
    ensures |UsableFrames([r])| > 0 && UsableFrames([r])[0].startAddress < r.start
  {
    FrameCountIsCeiling(r.start, r.end, 0);
    SingleRegionFrameAt(r, 0);
  }

  // ---------------------------------------------------------------------
  // Page-aligned memory maps
  // ---------------------------------------------------------------------

  /** Every usable region starts and ends on a page boundary. */
  predicate PageAlignedUsable(memoryMap: seq<MemoryRegion>)
  {
    forall i :: 0 <= i < |memoryMap| && memoryMap[i].kind == Usable ==>
      IsAligned(memoryMap[i].start) && IsAligned(memoryMap[i].end)
  }

  /** Usable regions appear in ascending address order without overlapping. */
  predicate SortedUsable(memoryMap: seq<MemoryRegion>)
  {
    forall i, j :: 0 <= i < j < |memoryMap| && memoryMap[i].kind == Usable && memoryMap[j].kind == Usable ==>
      memoryMap[i].end <= memoryMap[j].start
  }

  predicate StrictlyIncreasing(frames: seq<PhysFrame>)
  {
    forall i, j :: 0 <= i < j < |frames| ==> frames[i].startAddress < frames[j].startAddress
  }

  /** In a region with an aligned start the k-th frame begins exactly at the k-th address. */
  lemma AlignedRegionFrame(r: MemoryRegion, k: nat)
    requires IsAligned(r.start)
    ensures RegionFrame(r, k).startAddress == RegionAddress(r, k)
  {
    assert RegionAddress(r, k) == PageSize * (r.start / PageSize + k);
    ContainingAddressUnique(RegionAddress(r, k), PhysFrame(RegionAddress(r, k)));
  }

  /** With page-aligned usable regions every yielded frame lies whole within a
      usable region: its 4 KiB span starts at or after the region's start and
      ends at or before the region's end. */
  lemma AlignedFrameWithinUsableRegion(memoryMap: seq<MemoryRegion>, j: nat)
    requires PageAlignedUsable(memoryMap)
    requires j < |UsableFrames(memoryMap)|
    ensures exists i ::
      (0 <= i < |memoryMap| && memoryMap[i].kind == Usable &&
       memoryMap[i].start <= UsableFrames(memoryMap)[j].startAddress &&
       UsableFrames(memoryMap)[j].startAddress + PageSize <= memoryMap[i].end)
  {
    UsableFrameOrigin(memoryMap, j);
    var i: nat, k: nat :| i < |memoryMap| && memoryMap[i].kind == Usable &&
      RegionAddress(memoryMap[i], k) < memoryMap[i].end &&
      UsableFrames(memoryMap)[j] == RegionFrame(memoryMap[i], k);
    var r := memoryMap[i];
    AlignedRegionFrame(r, k);
    var a := RegionAddress(r, k);
    assert a == PageSize * (r.start / PageSize + k);
    assert r.end == PageSize * (r.end / PageSize);
    assert a / PageSize < r.end / PageSize;
  }

  /** With page-aligned usable regions every region yields exactly its (end - start) / 4096
      frames, so the total is the usable byte count divided by the page size. */
  lemma {:induction false} AlignedMapFrameCount(memoryMap: seq<MemoryRegion>)
    requires PageAlignedUsable(memoryMap)
    ensures |UsableFrames(memoryMap)| == UsableBytes(memoryMap) / PageSize
    ensures UsableBytes(memoryMap) % PageSize == 0
    decreases |memoryMap|
  {
    UsableFramesLength(memoryMap);
    if memoryMap != [] {
      var r, rest := memoryMap[0], memoryMap[1..];
      assert PageAlignedUsable(rest) by {
        forall i | 0 <= i < |rest| && rest[i].kind == Usable
          ensures IsAligned(rest[i].start) && IsAligned(rest[i].end)
        {
          assert rest[i] == memoryMap[i + 1];
        }
      }
      AlignedMapFrameCount(rest);
      UsableFramesLength(rest);
      var bytes := if r.kind == Usable && r.start < r.end then r.end - r.start else 0;
      var restBytes := UsableBytes(rest);
      if r.kind == Usable && r.start < r.end {
        var qs, qe := r.start / PageSize, r.end / PageSize;
        assert bytes == PageSize * (qe - qs);
        assert FrameCount(r.start, r.end) == qe - qs;
      }
      assert bytes % PageSize == 0 && RegionFrameCount(r) == bytes / PageSize;
      var qb, qr := bytes / PageSize, restBytes / PageSize;
      assert bytes + restBytes == PageSize * (qb + qr);
    }
  }

  /** A usable region with an aligned start yields the frames of its walk in
      increasing order, each beginning below the region's end. */
  lemma AlignedRegionFramesBelowEnd(r: MemoryRegion)
    requires r.kind == Usable && IsAligned(r.start)
    ensures StrictlyIncreasing(UsableFrames([r]))
    ensures forall k :: 0 <= k < |UsableFrames([r])| ==>
      UsableFrames([r])[k].startAddress == RegionAddress(r, k) < r.end
  {
    var a := UsableFrames([r]);
    SingleRegionFrameAt(r, 0);
    forall k | 0 <= k < |a|
      ensures a[k].startAddress == RegionAddress(r, k) < r.end
    {
      SingleRegionFrameAt(r, k);
      FrameCountIsCeiling(r.start, r.end, k);
      AlignedRegionFrame(r, k);
    }
  }

  /** In a page-aligned map every frame begins at or above the start of the usable
      region it comes from, so a bound below all usable starts bounds the frames. */
  lemma AlignedFramesAbove(memoryMap: seq<MemoryRegion>, bound: nat)
    requires PageAlignedUsable(memoryMap)
    requires forall i :: 0 <= i < |memoryMap| && memoryMap[i].kind == Usable ==> bound <= memoryMap[i].start
    ensures forall j :: 0 <= j < |UsableFrames(memoryMap)| ==> bound <= UsableFrames(memoryMap)[j].startAddress
  {
    forall j | 0 <= j < |UsableFrames(memoryMap)|
      ensures bound <= UsableFrames(memoryMap)[j].startAddress
    {
      UsableFrameOrigin(memoryMap, j);
      var i: nat, k: nat :| i < |memoryMap| && memoryMap[i].kind == Usable &&
        RegionAddress(memoryMap[i], k) < memoryMap[i].end &&
        UsableFrames(memoryMap)[j] == RegionFrame(memoryMap[i], k);
      AlignedRegionFrame(memoryMap[i], k);
    }
  }

  /** Two increasing runs, the first entirely below the second, make one increasing run. */
  lemma IncreasingConcat(a: seq<PhysFrame>, b: seq<PhysFrame>)
    requires StrictlyIncreasing(a) && StrictlyIncreasing(b)
    requires forall x, y :: 0 <= x < |a| && 0 <= y < |b| ==> a[x].startAddress < b[y].startAddress
    ensures StrictlyIncreasing(a + b)
  {
    var all := a + b;
    forall x, y | 0 <= x < y < |all| ensures all[x].startAddress < all[y].startAddress {
      if y < |a| {
        assert all[x] == a[x] && all[y] == a[y];
      } else if x < |a| {
        assert all[x] == a[x] && all[y] == b[y - |a|];
      } else {
        assert all[x] == b[x - |a|] && all[y] == b[y - |a|];
      }
    }
  }

  /** A page-aligned, sorted memory map never yields the same frame twice:
      its frames are strictly increasing. */
  lemma {:induction false} AlignedSortedFramesDistinct(memoryMap: seq<MemoryRegion>)
    requires PageAlignedUsable(memoryMap) && SortedUsable(memoryMap)
    ensures StrictlyIncreasing(UsableFrames(memoryMap))
    decreases |memoryMap|
  {
    if memoryMap != [] {
      var r, rest := memoryMap[0], memoryMap[1..];
      assert memoryMap == [r] + rest;
      assert PageAlignedUsable(rest) && SortedUsable(rest) by {
        forall i | 0 <= i < |rest| ensures rest[i] == memoryMap[i + 1] { }
      }
      AlignedSortedFramesDistinct(rest);
      UsableFramesConcat([r], rest);
      var a, b := UsableFrames([r]), UsableFrames(rest);
      if r.kind == Usable {
        AlignedRegionFramesBelowEnd(r);
        assert forall i :: 0 <= i < |rest| && rest[i].kind == Usable ==> r.end <= rest[i].start by {
          forall i | 0 <= i < |rest| && rest[i].kind == Usable ensures r.end <= rest[i].start {
            assert rest[i] == memoryMap[i + 1];
          }
        }
        AlignedFramesAbove(rest, r.end);
        IncreasingConcat(a, b);
      } else {
        SingleRegionFrameAt(r, 0);
        assert a + b == b;
      }
    }
  }

  // ---------------------------------------------------------------------
  // Worked memory maps
  // ---------------------------------------------------------------------

  /** One usable mebibyte at 1 MiB yields 256 frames, from 0x100000 upwards one page at a time. */
  lemma OneMebibyteRegion()
    ensures |UsableFrames([MemoryRegion(0x100000, 0x200000, Usable)])| == 256
    ensures forall k :: 0 <= k < 256 ==>
      UsableFrames([MemoryRegion(0x100000, 0x200000, Usable)])[k] == PhysFrame(0x100000 + k * PageSize)
  {
    var r := MemoryRegion(0x100000, 0x200000, Usable);
    SingleRegionFrameAt(r, 0);
    forall k | 0 <= k < 256 ensures UsableFrames([r])[k] == PhysFrame(0x100000 + k * PageSize) {
      SingleRegionFrameAt(r, k);
      AlignedRegionFrame(r, k);
    }
  }

  /** The count is a per-region ceiling: a single usable byte still yields a whole frame,
      although floor(usable bytes / 4096) is zero. */
  lemma OneByteRegionYieldsFrame()
    ensures UsableBytes([MemoryRegion(0x1000, 0x1001, Usable)]) / PageSize == 0
    ensures UsableFrames([MemoryRegion(0x1000, 0x1001, Usable)]) == [PhysFrame(0x1000)]
  {
    var r := MemoryRegion(0x1000, 0x1001, Usable);
    assert [r][1..] == [];
    SingleRegionFrameAt(r, 0);
    AlignedRegionFrame(r, 0);
  }

  /** Two adjacent usable half-pages inside one frame both yield that frame:
      without page alignment the same frame is handed out twice. */
  lemma UnalignedNeighboursShareFrame()
    ensures UsableFrames([MemoryRegion(0, 0x800, Usable), MemoryRegion(0x800, 0x1000, Usable)])
         == [PhysFrame(0), PhysFrame(0)]
  {
    var r1, r2 := MemoryRegion(0, 0x800, Usable), MemoryRegion(0x800, 0x1000, Usable);
    UsableFramesConcat([r1], [r2]);
    SingleRegionFrameAt(r1, 0);
    SingleRegionFrameAt(r2, 0);
    ContainingAddressUnique(0x800, PhysFrame(0));
    ContainingAddressUnique(0, PhysFrame(0));
  }

  // ---------------------------------------------------------------------
  // The allocator
  // ---------------------------------------------------------------------

  /**
   * `BootInfoFrameAllocator`: it stores the `usable_frames` iterator and
   * `allocate_frame` calls `next()` on it. The iterator is a cursor into the
   * frame sequence; it only moves forward, so no position is handed out twice.
   */
  class BootInfoFrameAllocator {
    /** The sequence the stored iterator walks. */
    const usableFrames: seq<PhysFrame>
    /** How many frames the iterator has yielded so far. */
    var cursor: nat

    ghost predicate Valid()
      reads this
    {
      cursor <= |usableFrames|
    }

    /** The frames handed out so far, in the order they were handed out. */
    ghost function Allocated(): seq<PhysFrame>
      reads this
      requires Valid()
    {
      usableFrames[..cursor]
    }

    /** The frames the iterator has yet to yield. */
    ghost function Remaining(): seq<PhysFrame>
      reads this
      requires Valid()
    {
      usableFrames[cursor..]
    }

    /** `BootInfoFrameAllocator::new`: a fresh iterator over the memory map's usable frames. */
    constructor (memoryMap: seq<MemoryRegion>)
      ensures Valid()
      ensures usableFrames == UsableFrames(memoryMap)
      ensures Allocated() == [] && Remaining() == UsableFrames(memoryMap)
    {
      usableFrames := UsableFrames(memoryMap);
      cursor := 0;
    }

    /** `allocate_frame`: the next frame of the sequence, or `None` once it is exhausted. */
    method AllocateFrame() returns (frame: Option<PhysFrame>)
      requires Valid()
      modifies this
      ensures Valid()
      ensures old(Remaining()) == [] ==> frame == None && cursor == old(cursor)
      ensures old(Remaining()) != [] ==>
        frame == Some(old(Remaining())[0]) &&
        Allocated() == old(Allocated()) + [frame.value] &&
        Remaining() == old(Remaining())[1..]
    {
      if cursor < |usableFrames| {
        frame := Some(usableFrames[cursor]);
        assert usableFrames[..cursor + 1] == usableFrames[..cursor] + [usableFrames[cursor]];
        cursor := cursor + 1;
      } else {
        frame := None;
      }
    }
  }

  /** Under a page-aligned, sorted memory map the frames handed out so far are pairwise
      distinct and none of them is still waiting in the iterator. */
  lemma AllocatorNeverRepeats(allocator: BootInfoFrameAllocator, memoryMap: seq<MemoryRegion>)
    requires allocator.Valid() && allocator.usableFrames == UsableFrames(memoryMap)
    requires PageAlignedUsable(memoryMap) && SortedUsable(memoryMap)
    ensures forall x, y :: 0 <= x < y < |allocator.Allocated()| ==> allocator.Allocated()[x] != allocator.Allocated()[y]
    ensures forall f :: f in allocator.Allocated() ==> f !in allocator.Remaining()
  {
    AlignedSortedFramesDistinct(memoryMap);
    var s, c := allocator.usableFrames, allocator.cursor;
    forall f | f in allocator.Allocated() ensures f !in allocator.Remaining() {
      var x :| 0 <= x < c && s[x] == f;
    }
  }

  // ---------------------------------------------------------------------
  // The page-table root seen through the physical-memory window
  // ---------------------------------------------------------------------

  /** `active_level_4_table`'s address arithmetic: the CR3 frame's start address
      offset by the physical-memory window's base. */
  function Level4TableAddress(physicalMemoryOffset: nat, level4Frame: PhysFrame): (virt: nat)
    ensures virt >= physicalMemoryOffset
    ensures virt - physicalMemoryOffset == level4Frame.startAddress
  {
    physicalMemoryOffset + level4Frame.startAddress
  }

  /** The offset mapping is one to one and keeps page alignment when the window base is aligned:
      distinct frames have distinct, page-aligned table addresses. */
  lemma OffsetMappingKeepsFramesApart(physicalMemoryOffset: nat, f: PhysFrame, g: PhysFrame)
    requires IsAligned(physicalMemoryOffset) && IsAligned(f.startAddress)
    ensures IsAligned(Level4TableAddress(physicalMemoryOffset, f))
    ensures Level4TableAddress(physicalMemoryOffset, f) == Level4TableAddress(physicalMemoryOffset, g) <==> f == g
  {
    var q, p := physicalMemoryOffset / PageSize, f.startAddress / PageSize;
    assert Level4TableAddress(physicalMemoryOffset, f) == PageSize * (q + p);
  }
}
