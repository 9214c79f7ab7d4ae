/**
 A model of `BootInfoFrameAllocator` (src/memory.rs): a frame allocator that walks the
 bootloader's memory map, keeps the regions marked usable, cuts each into 4 KiB steps and
 hands the frames out one by one through a cursor that only ever moves forward.
 */
module FrameAllocator {
  import opened Options

  /** Size of a `Size4KiB` page frame, and the `step_by` stride of `usable_frames`. */
  const PAGE_SIZE: nat := 4096

  /** `MemoryRegionType` of the bootloader crate. Only `Usable` matters to the allocator. */
  datatype MemoryRegionType =
    | Usable | InUse | Reserved | AcpiReclaimable | AcpiNvs | BadMemory
    | Kernel | KernelStack | PageTable | Bootloader | FrameZero | Empty
    | BootInfo | Package | UnknownUefi(uefiType: nat) | UnknownBios(biosType: nat)

  /** One entry of the firmware memory map: the physical range `[startAddr, endAddr)` and its type. */
  datatype MemoryRegion = MemoryRegion(startAddr: nat, endAddr: nat, regionType: MemoryRegionType)

  type MemoryMap = seq<MemoryRegion>

  /** A 4 KiB physical frame, identified by its start address. */
  datatype PhysFrame = PhysFrame(startAddress: nat)

  predicate IsAligned(addr: nat) {
    addr % PAGE_SIZE == 0
  }

  /** `PhysFrame::containing_address`: the 4 KiB frame the address falls in. */
  function ContainingFrame(addr: nat): (f: PhysFrame)
    ensures IsAligned(f.startAddress)
    ensures f.startAddress <= addr < f.startAddress + PAGE_SIZE
  {
    PhysFrame(addr - addr % PAGE_SIZE)
  }

  /** The containing frame is the only aligned frame start within 4 KiB below the address. */
  lemma ContainingFrameUnique(addr: nat, start: nat)
    requires IsAligned(start) && start <= addr < start + PAGE_SIZE
    ensures ContainingFrame(addr).startAddress == start
  {
    var s := ContainingFrame(addr).startAddress;
    assert s % PAGE_SIZE == 0 && start % PAGE_SIZE == 0;
    assert -(PAGE_SIZE as int) < s - start < PAGE_SIZE;
    assert (s - start) % PAGE_SIZE == 0;
  }

  /** Number of frames in `(start..end).step_by(4096)`: the ceiling of the length over 4096. */
  function FrameCount(start: nat, end: nat): nat {
    if start >= end then 0 else (end - start + PAGE_SIZE - 1) / PAGE_SIZE
  }

  /** `(start..end).step_by(4096)`: start, start + 4096, ... as long as the address is below `end`. */
  function StepBy(start: nat, end: nat): (addrs: seq<nat>)
    ensures |addrs| == FrameCount(start, end)
    ensures forall i :: 0 <= i < |addrs| ==> addrs[i] == start + PAGE_SIZE * i
    decreases end - start
  {
    if start >= end then []
    else
      var rest := StepBy(start + PAGE_SIZE, end);
      assert FrameCount(start, end) == 1 + FrameCount(start + PAGE_SIZE, end);
      [start] + rest
  }

  /** An address is stepped over exactly when it lies in the range at a multiple of 4096 from its start. */
  lemma {:induction false} StepByMembership(start: nat, end: nat, addr: nat)
    ensures addr in StepBy(start, end) <==> start <= addr < end && (addr - start) % PAGE_SIZE == 0
    decreases end - start
  {
    if start < end {
      StepByMembership(start + PAGE_SIZE, end, addr);
      assert StepBy(start, end) == [start] + StepBy(start + PAGE_SIZE, end);
      if addr != start && start <= addr && (addr - start) % PAGE_SIZE == 0 {
        assert addr - start >= PAGE_SIZE;
        assert (addr - (start + PAGE_SIZE)) % PAGE_SIZE == 0;
      }
    }
  }

  /** The `filter` step of `usable_frames`: the usable regions, in memory-map order. */
  function UsableRegions(m: MemoryMap): (rs: MemoryMap)
    ensures |rs| <= |m|
    ensures forall r :: r in rs <==> r in m && r.regionType == Usable
  {
    if m == [] then []
    else
      var rest := UsableRegions(m[1..]);
      assert m == [m[0]] + m[1..];
      if m[0].regionType == Usable then [m[0]] + rest else rest
  }

  /** The `map` and `flat_map` steps of `usable_frames`: every region's range stepped by 4096, concatenated. */
  function FrameAddresses(rs: MemoryMap): seq<nat> {
    if rs == [] then [] else StepBy(rs[0].startAddr, rs[0].endAddr) + FrameAddresses(rs[1..])
  }

  /** The frame start addresses `usable_frames` steps over, before they are wrapped as frames. */
  function UsableFrameAddresses(m: MemoryMap): seq<nat> {
    FrameAddresses(UsableRegions(m))
  }

  /** `BootInfoFrameAllocator::usable_frames`: each stepped address wrapped as its containing frame. */
  function UsableFrames(m: MemoryMap): (fs: seq<PhysFrame>)
    ensures |fs| == |UsableFrameAddresses(m)|
    ensures forall i :: 0 <= i < |fs| ==>
      IsAligned(fs[i].startAddress)
      && fs[i].startAddress <= UsableFrameAddresses(m)[i] < fs[i].startAddress + PAGE_SIZE
  {
    var addrs := UsableFrameAddresses(m);
    seq(|addrs|, i requires 0 <= i < |addrs| => ContainingFrame(addrs[i]))
  }

  /** Reference count: the sum, over the usable regions in map order, of each region's frame count. */
  function UsableFrameCount(m: MemoryMap): nat {
    if m == [] then 0
    else (if m[0].regionType == Usable then FrameCount(m[0].startAddr, m[0].endAddr) else 0)
         + UsableFrameCount(m[1..])
  }

  /** Regions are visited in memory-map order: the frames of a split map are the frames of its halves, concatenated. */
  lemma UsableFrameAddressesAppend(a: MemoryMap, b: MemoryMap)
    ensures UsableFrameAddresses(a + b) == UsableFrameAddresses(a) + UsableFrameAddresses(b)
  {
    UsableRegionsAppend(a, b);
    FrameAddressesAppend(UsableRegions(a), UsableRegions(b));
  }

  lemma {:induction false} UsableRegionsAppend(a: MemoryMap, b: MemoryMap)
    ensures UsableRegions(a + b) == UsableRegions(a) + UsableRegions(b)
    decreases |a|
  {
    if a == [] {
      assert a + b == b;
    } else {
      assert (a + b)[1..] == a[1..] + b;
      UsableRegionsAppend(a[1..], b);
    }
  }

  lemma {:induction false} FrameAddressesAppend(a: MemoryMap, b: MemoryMap)
    ensures FrameAddresses(a + b) == FrameAddresses(a) + FrameAddresses(b)
    decreases |a|
  {
    if a == [] {
      assert a + b == b;
    } else {
      assert (a + b)[1..] == a[1..] + b;
      FrameAddressesAppend(a[1..], b);
    }
  }

  /** `addr` is one of the steps of `r`'s range, and `r` is usable. */
  predicate StepsOver(r: MemoryRegion, addr: nat) {
    r.regionType == Usable && r.startAddr <= addr < r.endAddr && (addr - r.startAddr) % PAGE_SIZE == 0
  }

  /** The stepped addresses of a one-region map: its own steps when usable, nothing otherwise. */
  lemma UsableFrameAddressesSingle(r: MemoryRegion)
    ensures UsableFrameAddresses([r]) == if r.regionType == Usable then StepBy(r.startAddr, r.endAddr) else []
  {
    assert [r][1..] == [];
    if r.regionType == Usable {
      assert UsableRegions([r]) == [r];
      assert FrameAddresses([r]) == StepBy(r.startAddr, r.endAddr) + FrameAddresses([]);
    }
  }

  /** Frames are drawn only from usable regions, at 4 KiB steps from a region's start; every such step is drawn. */
  lemma {:induction false} UsableFrameAddressesMembership(m: MemoryMap, addr: nat)
    ensures addr in UsableFrameAddresses(m) <==> exists j :: 0 <= j < |m| && StepsOver(m[j], addr)
    decreases |m|
  {
    if m != [] {
      assert m == [m[0]] + m[1..];
      UsableFrameAddressesAppend([m[0]], m[1..]);
      UsableFrameAddressesSingle(m[0]);
      UsableFrameAddressesMembership(m[1..], addr);
      StepByMembership(m[0].startAddr, m[0].endAddr, addr);
      if exists j :: 0 <= j < |m[1..]| && StepsOver(m[1..][j], addr) {
        var j :| 0 <= j < |m[1..]| && StepsOver(m[1..][j], addr);
        assert StepsOver(m[j + 1], addr);
      }
      if exists j :: 0 <= j < |m| && StepsOver(m[j], addr) {
        var j :| 0 <= j < |m| && StepsOver(m[j], addr);
        if j > 0 {
          assert StepsOver(m[1..][j - 1], addr);
        }
      }
    }
  }

  /** The number of usable frames is the sum of the usable regions' ceiling counts; other regions add none. */
  lemma {:induction false} UsableFramesCount(m: MemoryMap)
    ensures |UsableFrames(m)| == UsableFrameCount(m)
    decreases |m|
  {
    if m != [] {
      assert m == [m[0]] + m[1..];
      UsableFrameAddressesAppend([m[0]], m[1..]);
      UsableFrameAddressesSingle(m[0]);
      UsableFramesCount(m[1..]);
    }
  }

  predicate StrictlyIncreasing(s: seq<nat>) {
    forall i, j :: 0 <= i < j < |s| ==> s[i] < s[j]
  }

  /** The usable regions of the map are 4 KiB-aligned, ascending and pairwise disjoint. */
  predicate UsableRegionsAscending(m: MemoryMap) {
    && (forall i :: 0 <= i < |m| && m[i].regionType == Usable ==> IsAligned(m[i].startAddr))
    && (forall i, j :: 0 <= i < j < |m| && m[i].regionType == Usable && m[j].regionType == Usable ==>
          m[i].endAddr <= m[j].startAddr)
  }

  lemma StepByAscending(start: nat, end: nat)
    requires IsAligned(start)
    ensures StrictlyIncreasing(StepBy(start, end))
    ensures forall i :: 0 <= i < |StepBy(start, end)| ==> IsAligned(StepBy(start, end)[i])
  {
    var addrs := StepBy(start, end);
    forall i | 0 <= i < |addrs|
      ensures IsAligned(addrs[i])
    {
      assert addrs[i] == start + PAGE_SIZE * i;
    }
  }

  lemma ConcatIncreasing(head: seq<nat>, tail: seq<nat>)
    requires StrictlyIncreasing(head) && StrictlyIncreasing(tail)
    requires forall i, k :: 0 <= i < |head| && 0 <= k < |tail| ==> head[i] < tail[k]
    ensures StrictlyIncreasing(head + tail)
  {
  }

  /** Over an ascending map the stepped addresses are aligned and strictly increasing. */
  lemma {:induction false} AscendingMapGivesAscendingAddresses(m: MemoryMap)
    requires UsableRegionsAscending(m)
    ensures StrictlyIncreasing(UsableFrameAddresses(m))
    ensures forall i :: 0 <= i < |UsableFrameAddresses(m)| ==> IsAligned(UsableFrameAddresses(m)[i])
    decreases |m|
  {
    if m != [] {
      var rest := m[1..];
      assert m == [m[0]] + rest;
      assert UsableRegionsAscending(rest) by {
        forall i, j | 0 <= i < j < |rest| && rest[i].regionType == Usable && rest[j].regionType == Usable
          ensures rest[i].endAddr <= rest[j].startAddr
        {
          assert rest[i] == m[i + 1] && rest[j] == m[j + 1];
        }
      }
      AscendingMapGivesAscendingAddresses(rest);
      UsableFrameAddressesAppend([m[0]], rest);
      UsableFrameAddressesSingle(m[0]);
      var head := UsableFrameAddresses([m[0]]);
      var tail := UsableFrameAddresses(rest);
      if m[0].regionType == Usable {
        StepByAscending(m[0].startAddr, m[0].endAddr);
      }
      HeadBelowTail(m, head, tail);
      ConcatIncreasing(head, tail);
    }
  }

  lemma HeadBelowTail(m: MemoryMap, head: seq<nat>, tail: seq<nat>)
    requires m != [] && UsableRegionsAscending(m)
    requires head == UsableFrameAddresses([m[0]]) && tail == UsableFrameAddresses(m[1..])
    ensures forall i, k :: 0 <= i < |head| && 0 <= k < |tail| ==> head[i] < tail[k]
  {
    UsableFrameAddressesSingle(m[0]);
    forall i, k | 0 <= i < |head| && 0 <= k < |tail|
      ensures head[i] < tail[k]
    {
      StepByMembership(m[0].startAddr, m[0].endAddr, head[i]);
      UsableFrameAddressesMembership(m[1..], tail[k]);
      var j :| 0 <= j < |m[1..]| && StepsOver(m[1..][j], tail[k]);
      assert m[1..][j] == m[j + 1];
    }
  }

  /** Over an ascending map every usable frame starts at its own stepped address, so the frames ascend strictly. */
  lemma AscendingMapGivesAscendingFrames(m: MemoryMap)
    requires UsableRegionsAscending(m)
    ensures forall i :: 0 <= i < |UsableFrames(m)| ==> UsableFrames(m)[i].startAddress == UsableFrameAddresses(m)[i]
    ensures forall i, j :: 0 <= i < j < |UsableFrames(m)| ==>
      UsableFrames(m)[i].startAddress < UsableFrames(m)[j].startAddress
  {
    AscendingMapGivesAscendingAddresses(m);
    var fs := UsableFrames(m);
    var addrs := UsableFrameAddresses(m);
    forall i | 0 <= i < |fs|
      ensures fs[i].startAddress == addrs[i]
    {
      ContainingFrameUnique(addrs[i], addrs[i]);
      ContainingFrameUnique(addrs[i], fs[i].startAddress);
    }
  }

  // ---------------------------------------------------------------------------------------------
  // The allocator: a memory map and a cursor into its usable frames.
  // ---------------------------------------------------------------------------------------------

  /** `BootInfoFrameAllocator`: the memory map it was created from and the index of the next frame. */
  datatype BootInfoFrameAllocator = BootInfoFrameAllocator(memoryMap: MemoryMap, next: nat)

  /** What `allocate_frame` returns, together with the allocator state after the call. */
  datatype Allocation = Allocation(frame: Option<PhysFrame>, allocator: BootInfoFrameAllocator)

  /** `Iterator::nth`: the `n`-th element, or `None` when the sequence is shorter. */
  function Nth<T>(s: seq<T>, n: nat): (r: Option<T>)
    ensures r.Some? <==> n < |s|
    ensures r.Some? ==> r.value == s[n]
  {
    if n < |s| then Some(s[n]) else None
  }

  /** `BootInfoFrameAllocator::init`. */
  function Init(m: MemoryMap): (a: BootInfoFrameAllocator)
    ensures a.memoryMap == m && a.next == 0
    // so the first allocation is the first usable frame, if there is one
    ensures AllocateFrame(a).frame == if |UsableFrames(m)| > 0 then Some(UsableFrames(m)[0]) else None
  {
    BootInfoFrameAllocator(m, 0)
  }

  /** `allocate_frame`: the `next`-th usable frame, if any; the cursor advances in both cases. */
  function AllocateFrame(a: BootInfoFrameAllocator): (r: Allocation)
    ensures r.allocator.memoryMap == a.memoryMap
    ensures r.allocator.next == a.next + 1
    ensures r.frame.Some? <==> a.next < |UsableFrames(a.memoryMap)|
    ensures r.frame.Some? ==> r.frame.value == UsableFrames(a.memoryMap)[a.next]
  {
    Allocation(Nth(UsableFrames(a.memoryMap), a.next), a.(next := a.next + 1))
  }

  /** The results of `n` successive `allocate_frame` calls, and the allocator afterwards. */
  function AllocateMany(a: BootInfoFrameAllocator, n: nat): (r: (seq<Option<PhysFrame>>, BootInfoFrameAllocator))
    ensures |r.0| == n
    ensures r.1 == BootInfoFrameAllocator(a.memoryMap, a.next + n)
    decreases n
  {
    if n == 0 then ([], a)
    else
      var first := AllocateFrame(a);
      var rest := AllocateMany(first.allocator, n - 1);
      ([first.frame] + rest.0, rest.1)
  }

  /** The `k`-th of `n` successive calls returns the usable frame at position `next + k`, or `None` past the end. */
  lemma {:induction false} AllocateManyReturnsConsecutiveFrames(a: BootInfoFrameAllocator, n: nat)
    ensures forall k :: 0 <= k < n ==> AllocateMany(a, n).0[k] == Nth(UsableFrames(a.memoryMap), a.next + k)
    decreases n
  {
    if n > 0 {
      var first := AllocateFrame(a);
      AllocateManyReturnsConsecutiveFrames(first.allocator, n - 1);
      forall k | 0 <= k < n
        ensures AllocateMany(a, n).0[k] == Nth(UsableFrames(a.memoryMap), a.next + k)
      {
        if k > 0 {
          assert AllocateMany(a, n).0[k] == AllocateMany(first.allocator, n - 1).0[k - 1];
        }
      }
    }
  }

  /** After `init(m)`, the `k`-th call (from 0) returns `usable_frames[k]`, then `None` once the frames run out;
      the map is kept unchanged and the cursor counts the calls. */
  lemma InitThenAllocate(m: MemoryMap, n: nat)
    ensures AllocateMany(Init(m), n).1 == BootInfoFrameAllocator(m, n)
    ensures forall k :: 0 <= k < n && k < |UsableFrames(m)| ==> AllocateMany(Init(m), n).0[k] == Some(UsableFrames(m)[k])
    ensures forall k :: 0 <= k < n && k >= |UsableFrames(m)| ==> AllocateMany(Init(m), n).0[k] == None
  {
    AllocateManyReturnsConsecutiveFrames(Init(m), n);
  }

  /** Once `allocate_frame` has returned `None`, every later call returns `None` as well. */
  lemma ExhaustionIsSticky(a: BootInfoFrameAllocator, n: nat)
    requires AllocateFrame(a).frame == None
    ensures forall k :: 0 <= k < n ==> AllocateMany(AllocateFrame(a).allocator, n).0[k] == None
  {
    AllocateManyReturnsConsecutiveFrames(AllocateFrame(a).allocator, n);
  }

  /** Over an ascending map, the frames handed out after `init` are aligned, pairwise distinct and
      strictly increasing: no frame is ever handed out twice. */
  lemma AllocationsAscend(m: MemoryMap, n: nat)
    requires UsableRegionsAscending(m)
    ensures forall k :: 0 <= k < n && AllocateMany(Init(m), n).0[k].Some? ==>
      IsAligned(AllocateMany(Init(m), n).0[k].value.startAddress)
    ensures forall i, j :: 0 <= i < j < n && AllocateMany(Init(m), n).0[i].Some? && AllocateMany(Init(m), n).0[j].Some? ==>
      AllocateMany(Init(m), n).0[i].value.startAddress < AllocateMany(Init(m), n).0[j].value.startAddress
  {
    InitThenAllocate(m, n);
    AscendingMapGivesAscendingFrames(m);
  }

  /** One usable region `[0x100000, 0x200000)` followed by a reserved `[0x200000, 0x300000)`:
      exactly 0x100000 / 4096 frames, all inside the usable region. */
  lemma OneUsableOneReservedRegion()
    ensures var m := [MemoryRegion(0x10_0000, 0x20_0000, Usable), MemoryRegion(0x20_0000, 0x30_0000, Reserved)];
      && |UsableFrames(m)| == 0x10_0000 / PAGE_SIZE
      && forall f :: f in UsableFrames(m) ==> 0x10_0000 <= f.startAddress && f.startAddress + PAGE_SIZE <= 0x20_0000
  {
    var m := [MemoryRegion(0x10_0000, 0x20_0000, Usable), MemoryRegion(0x20_0000, 0x30_0000, Reserved)];
    UsableFramesCount(m);
    assert m[1..][1..] == [];
    AscendingMapGivesAscendingFrames(m);
    forall f | f in UsableFrames(m)
      ensures 0x10_0000 <= f.startAddress && f.startAddress + PAGE_SIZE <= 0x20_0000
    {
      var i :| 0 <= i < |UsableFrames(m)| && UsableFrames(m)[i] == f;
      var addr := UsableFrameAddresses(m)[i];
      UsableFrameAddressesMembership(m, addr);
      var j :| 0 <= j < |m| && StepsOver(m[j], addr);
      assert j == 0;
    }
  }

  /** Without the ascending assumption the allocator can hand out a frame twice: two usable regions
      covering the same 4 KiB give the same frame at positions 0 and 1. */
  lemma OverlappingRegionsRepeatFrame()
    ensures var m := [MemoryRegion(0, PAGE_SIZE, Usable), MemoryRegion(0, PAGE_SIZE, Usable)];
      && |UsableFrames(m)| == 2
      && UsableFrames(m)[0] == UsableFrames(m)[1] == PhysFrame(0)
  {
    var m := [MemoryRegion(0, PAGE_SIZE, Usable), MemoryRegion(0, PAGE_SIZE, Usable)];
    UsableFrameAddressesAppend([m[0]], [m[1]]);
    UsableFrameAddressesSingle(m[0]);
    assert m == [m[0]] + [m[1]];
    assert StepBy(0, PAGE_SIZE) == [0];
  }

  /** A usable region that does not start on a frame boundary yields, first, the frame containing its
      start, which begins below the region. */
  lemma UnalignedRegionFrameStartsBelowRegion()
    ensures var m := [MemoryRegion(100, 100 + PAGE_SIZE, Usable)];
      && UsableFrames(m) == [PhysFrame(0)]
      && UsableFrames(m)[0].startAddress < m[0].startAddr
  {
    var m := [MemoryRegion(100, 100 + PAGE_SIZE, Usable)];
    UsableFrameAddressesSingle(m[0]);
    assert StepBy(100, 100 + PAGE_SIZE) == [100];
  }

  /** A usable region whose end is off a frame boundary yields, last, a frame that runs past the region:
      `[0, 5000)` gives frames 0 and 4096, and the second ends at 8192. */
  lemma UnalignedRegionEndFrameRunsPastRegion()
    ensures var m := [MemoryRegion(0, 5000, Usable)];
      && UsableFrames(m) == [PhysFrame(0), PhysFrame(PAGE_SIZE)]
      && UsableFrames(m)[1].startAddress + PAGE_SIZE > m[0].endAddr
  {
    var m := [MemoryRegion(0, 5000, Usable)];
    UsableFrameAddressesSingle(m[0]);
    assert StepBy(0, 5000) == [0, PAGE_SIZE];
    ContainingFrameUnique(PAGE_SIZE, PAGE_SIZE);
  }
}
