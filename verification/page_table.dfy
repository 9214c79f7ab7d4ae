/**
 A model of the address arithmetic of `active_level_4_table` and of the four-level page-table
 walk `translate_addr_inner` (src/memory.rs). Page tables are not read from hardware: they are
 looked up in an abstract store that maps each virtual address at which physical memory is
 mapped to the 512-entry table found there. The root frame, read from CR3 in the source, is a
 parameter.
 */
module PageTableWalk {
  import opened Options
  import FA = FrameAllocator

  /** Entries per page table. */
  const ENTRY_COUNT: nat := 512

  /** Sizes covered by one entry at each level (section 4.5 of the Intel 64 and IA-32 SDM, Vol. 3A):
      bits 11:0 are the page offset, then 9 index bits per level. */
  const P1_SPAN: nat := 0x1000          // 2^12
  const P2_SPAN: nat := 0x20_0000       // 2^21
  const P3_SPAN: nat := 0x4000_0000     // 2^30
  const P4_SPAN: nat := 0x80_0000_0000  // 2^39
  const ADDRESS_SPACE: nat := 0x1_0000_0000_0000  // 2^48: the bits the four levels translate

  /** A 4 KiB physical frame; like the crate's `PhysFrame`, its start is always 4 KiB-aligned. */
  type AlignedFrame = f: FA.PhysFrame | FA.IsAligned(f.startAddress) witness FA.PhysFrame(0)

  /** A page-table entry as `PageTableEntry::frame` classifies it. */
  datatype PageTableEntry = NotPresent | Huge | Present(addr: nat)

  type PageTable = t: seq<PageTableEntry> | |t| == ENTRY_COUNT witness seq(ENTRY_COUNT, _ => NotPresent)

  /** The page tables reachable through the linear mapping of physical memory, by virtual address. */
  type TableStore = map<nat, PageTable>

  /** Why `PageTableEntry::frame` yields no frame. */
  datatype FrameError = FrameNotPresent | HugeFrame

  /** Why the walk stopped before the last level: an entry without a frame, or a table address
      at which the store holds no table (an unchecked dereference in the source). */
  datatype WalkError = EntryError(error: FrameError) | TableNotInStore

  /** The outcome of `translate_addr_inner`: `Some(addr)`, `None`, or the "huge pages not supported" panic.
      `TableUnreachable` stands for dereferencing a table pointer that points at no table. */
  datatype Translation = Mapped(physAddr: nat) | Unmapped | HugePagePanic | TableUnreachable

  // ---------------------------------------------------------------------------------------------
  // Virtual-address split
  // ---------------------------------------------------------------------------------------------

  /** `VirtAddr::p4_index`: bits 47:39. */
  function P4Index(va: nat): (i: nat)
    ensures i < ENTRY_COUNT
  {
    (va / P4_SPAN) % ENTRY_COUNT
  }

  /** `VirtAddr::p3_index`: bits 38:30. */
  function P3Index(va: nat): (i: nat)
    ensures i < ENTRY_COUNT
  {
    (va / P3_SPAN) % ENTRY_COUNT
  }

  /** `VirtAddr::p2_index`: bits 29:21. */
  function P2Index(va: nat): (i: nat)
    ensures i < ENTRY_COUNT
  {
    (va / P2_SPAN) % ENTRY_COUNT
  }

  /** `VirtAddr::p1_index`: bits 20:12. */
  function P1Index(va: nat): (i: nat)
    ensures i < ENTRY_COUNT
  {
    (va / P1_SPAN) % ENTRY_COUNT
  }

  /** `VirtAddr::page_offset`: bits 11:0. */
  function PageOffset(va: nat): (o: nat)
    ensures o < FA.PAGE_SIZE
  {
    va % FA.PAGE_SIZE
  }

  /** `[p4_index, p3_index, p2_index, p1_index]`, most significant first. */
  function TableIndexes(va: nat): (idx: seq<nat>)
    ensures |idx| == 4
    ensures forall i :: 0 <= i < |idx| ==> idx[i] < ENTRY_COUNT
    // below 2^48, the four indices and the page offset determine the address
    ensures va < ADDRESS_SPACE ==> ComposeAddress(idx[0], idx[1], idx[2], idx[3], PageOffset(va)) == va
  {
    if va < ADDRESS_SPACE then SplitCompose(va); [P4Index(va), P3Index(va), P2Index(va), P1Index(va)]
    else [P4Index(va), P3Index(va), P2Index(va), P1Index(va)]
  }

  /** Reassembles a lower-half address from its four indices and its page offset. */
  function ComposeAddress(p4: nat, p3: nat, p2: nat, p1: nat, offset: nat): nat {
    p4 * P4_SPAN + p3 * P3_SPAN + p2 * P2_SPAN + p1 * P1_SPAN + offset
  }

  lemma DivMod(q: nat, k: nat, r: nat)
    requires 0 <= r < k
    ensures (q * k + r) / k == q && (q * k + r) % k == r
  {
    DivModUnique(q * k + r, k, q, r);
  }

  /** Every address below 2^48 is exactly its four indices and its page offset, put back together. */
  lemma SplitCompose(va: nat)
    requires va < ADDRESS_SPACE
    ensures ComposeAddress(P4Index(va), P3Index(va), P2Index(va), P1Index(va), PageOffset(va)) == va
  {
    var pn := va / P1_SPAN;
    var q2 := pn / ENTRY_COUNT;
    var q3 := q2 / ENTRY_COUNT;
    var q4 := q3 / ENTRY_COUNT;
    DivDiv(va, P1_SPAN, ENTRY_COUNT);
    DivDiv(va, P2_SPAN, ENTRY_COUNT);
    DivDiv(va, P3_SPAN, ENTRY_COUNT);
    assert q2 == va / P2_SPAN && q3 == va / P3_SPAN && q4 == va / P4_SPAN;
    assert q4 < ENTRY_COUNT;
  }

  /** Composing indices below 512 and an offset below 4096 gives an address that splits back into them. */
  lemma ComposeSplit(p4: nat, p3: nat, p2: nat, p1: nat, offset: nat)
    requires p4 < ENTRY_COUNT && p3 < ENTRY_COUNT && p2 < ENTRY_COUNT && p1 < ENTRY_COUNT
    requires offset < FA.PAGE_SIZE
    ensures var va := ComposeAddress(p4, p3, p2, p1, offset);
      && va < ADDRESS_SPACE
      && P4Index(va) == p4 && P3Index(va) == p3 && P2Index(va) == p2 && P1Index(va) == p1
      && PageOffset(va) == offset
  {
    var va := ComposeAddress(p4, p3, p2, p1, offset);
    var pn := ((p4 * ENTRY_COUNT + p3) * ENTRY_COUNT + p2) * ENTRY_COUNT + p1;
    assert va == pn * P1_SPAN + offset;
    DivMod(pn, P1_SPAN, offset);
    DivMod((p4 * ENTRY_COUNT + p3) * ENTRY_COUNT + p2, ENTRY_COUNT, p1);
    DivMod(p4 * ENTRY_COUNT + p3, ENTRY_COUNT, p2);
    DivMod(p4, ENTRY_COUNT, p3);
    DivDiv(va, P1_SPAN, ENTRY_COUNT);
    DivDiv(va, P2_SPAN, ENTRY_COUNT);
    DivDiv(va, P3_SPAN, ENTRY_COUNT);
  }

  lemma DivDiv(a: nat, b: nat, c: nat)
    requires b > 0 && c > 0
    ensures a / b / c == a / (b * c)
  {
    var q := a / b;
    var r := a % b;
    var q2 := q / c;
    var r2 := q % c;
    assert a == b * q + r;
    assert q == c * q2 + r2;
    MulDistrib(b, c, q2, r2);
    assert a == (b * c) * q2 + (b * r2 + r);
    MulBelow(b, r2, c);
    DivModUnique(a, b * c, q2, b * r2 + r);
  }

  lemma MulDistrib(b: nat, c: nat, q2: nat, r2: nat)
    ensures b * (c * q2 + r2) == (b * c) * q2 + b * r2
  {
  }

  lemma MulBelow(b: nat, r2: nat, c: nat)
    requires r2 < c
    ensures b * r2 + b <= b * c
  {
    if r2 + 1 < c {
      MulAtLeast(b, c - (r2 + 1));
    }
    assert b * c == b * (r2 + 1) + b * (c - (r2 + 1));
  }

  /** Quotient and remainder are unique. */
  lemma DivModUnique(a: nat, k: nat, q: nat, r: nat)
    requires k > 0 && 0 <= r < k && a == k * q + r
    ensures a / k == q && a % k == r
  {
    var q' := a / k;
    var r' := a % k;
    assert a == k * q' + r';
    if q' < q {
      MulAtLeast(k, q - q');
    } else if q' > q {
      MulAtLeast(k, q' - q);
    }
  }

  lemma {:induction false} MulAtLeast(k: nat, d: nat)
    requires d >= 1
    ensures k * d >= k
  {
    if d > 1 {
      MulAtLeast(k, d - 1);
      assert k * d == k * (d - 1) + k;
    }
  }

  // ---------------------------------------------------------------------------------------------
  // The walk
  // ---------------------------------------------------------------------------------------------

  /** `physical_memory_offset + frame.start_address()`: where a table frame is seen in virtual memory. */
  function TableVirtAddr(physicalMemoryOffset: nat, frame: AlignedFrame): nat {
    physicalMemoryOffset + frame.startAddress
  }

  /** The table held in `frame`, read through the linear mapping. */
  function TableAt(store: TableStore, physicalMemoryOffset: nat, frame: AlignedFrame): (t: Option<PageTable>)
    ensures t.Some? <==> physicalMemoryOffset + frame.startAddress in store
    ensures t.Some? ==> t.value == store[physicalMemoryOffset + frame.startAddress]
  {
    var virt := TableVirtAddr(physicalMemoryOffset, frame);
    if virt in store then Some(store[virt]) else None
  }

  /** `active_level_4_table`: the level-4 table held in the frame named by CR3. */
  function ActiveLevel4Table(store: TableStore, physicalMemoryOffset: nat, level4Frame: AlignedFrame): (t: Option<PageTable>)
    ensures t.Some? <==> physicalMemoryOffset + level4Frame.startAddress in store
    ensures t.Some? ==> t.value == store[physicalMemoryOffset + level4Frame.startAddress]
  {
    TableAt(store, physicalMemoryOffset, level4Frame)
  }

  /** `PageTableEntry::frame`: not present, huge, or the 4 KiB frame containing the entry's address. */
  function EntryFrame(e: PageTableEntry): (r: Result<AlignedFrame, FrameError>)
    ensures r.Ok? <==> e.Present?
    ensures e.NotPresent? <==> r == Err(FrameNotPresent)
    ensures e.Huge? <==> r == Err(HugeFrame)
    ensures r.Ok? ==> r.value.startAddress <= e.addr < r.value.startAddress + FA.PAGE_SIZE
  {
    match e
    case NotPresent => Err(FrameNotPresent)
    case Huge => Err(HugeFrame)
    case Present(addr) => Ok(FA.ContainingFrame(addr))
  }

  /** One iteration of the loop: read the table in `frame` and follow its entry at `index`. */
  function Step(store: TableStore, physicalMemoryOffset: nat, frame: AlignedFrame, index: nat): Result<AlignedFrame, WalkError>
    requires index < ENTRY_COUNT
  {
    match TableAt(store, physicalMemoryOffset, frame)
    case None => Err(TableNotInStore)
    case Some(table) =>
      match EntryFrame(table[index])
      case Ok(next) => Ok(next)
      case Err(e) => Err(EntryError(e))
  }

  /** The loop over `table_indexes`: one step per index, stopping at the first failing step. */
  function Walk(store: TableStore, physicalMemoryOffset: nat, frame: AlignedFrame, indexes: seq<nat>): Result<AlignedFrame, WalkError>
    requires forall i :: 0 <= i < |indexes| ==> indexes[i] < ENTRY_COUNT
    decreases |indexes|
  {
    if indexes == [] then Ok(frame)
    else
      match Step(store, physicalMemoryOffset, frame, indexes[0])
      case Err(e) => Err(e)
      case Ok(next) => Walk(store, physicalMemoryOffset, next, indexes[1..])
  }

  /** The outcome of a walk: the reached frame plus the page offset, `None`, or a panic. */
  function Outcome(w: Result<AlignedFrame, WalkError>, va: nat): Translation {
    match w
    case Ok(frame) => Mapped(frame.startAddress + PageOffset(va))
    case Err(EntryError(FrameNotPresent)) => Unmapped
    case Err(EntryError(HugeFrame)) => HugePagePanic
    case Err(TableNotInStore) => TableUnreachable
  }

  /** `translate_addr_inner`, with the root table's frame passed in instead of read from CR3. */
  function TranslateAddrInner(store: TableStore, physicalMemoryOffset: nat, level4Frame: AlignedFrame, va: nat): (r: Translation)
    ensures r == TranslateByLevels(store, physicalMemoryOffset, level4Frame, va)
  {
    WalkVisitsLevelsInOrder(store, physicalMemoryOffset, level4Frame, va);
    Outcome(Walk(store, physicalMemoryOffset, level4Frame, TableIndexes(va)), va)
  }

  /** Reference definition: the walk written out level by level, P4 first and P1 last. */
  function TranslateByLevels(store: TableStore, physicalMemoryOffset: nat, level4Frame: AlignedFrame, va: nat): Translation {
    match Step(store, physicalMemoryOffset, level4Frame, P4Index(va))
    case Err(e) => Outcome(Err(e), va)
    case Ok(p3Frame) =>
      match Step(store, physicalMemoryOffset, p3Frame, P3Index(va))
      case Err(e) => Outcome(Err(e), va)
      case Ok(p2Frame) =>
        match Step(store, physicalMemoryOffset, p2Frame, P2Index(va))
        case Err(e) => Outcome(Err(e), va)
        case Ok(p1Frame) =>
          match Step(store, physicalMemoryOffset, p1Frame, P1Index(va))
          case Err(e) => Outcome(Err(e), va)
          case Ok(frame) => Mapped(frame.startAddress + PageOffset(va))
  }

  // ---------------------------------------------------------------------------------------------
  // Properties of the walk
  // ---------------------------------------------------------------------------------------------

  predicate ValidIndexes(indexes: seq<nat>) {
    forall i :: 0 <= i < |indexes| ==> indexes[i] < ENTRY_COUNT
  }

  /** Walking `a + b` is walking `a`, then walking `b` from the frame reached; a failure in `a` ends the walk. */
  lemma {:induction false} WalkAppend(store: TableStore, physicalMemoryOffset: nat, frame: AlignedFrame, a: seq<nat>, b: seq<nat>)
    requires ValidIndexes(a) && ValidIndexes(b)
    ensures ValidIndexes(a + b)
    ensures Walk(store, physicalMemoryOffset, frame, a + b) ==
      match Walk(store, physicalMemoryOffset, frame, a)
      case Ok(reached) => Walk(store, physicalMemoryOffset, reached, b)
      case Err(e) => Err(e)
    decreases |a|
  {
    if a == [] {
      assert a + b == b;
    } else {
      assert (a + b)[0] == a[0];
      assert (a + b)[1..] == a[1..] + b;
      match Step(store, physicalMemoryOffset, frame, a[0])
      case Err(e) =>
      case Ok(next) => WalkAppend(store, physicalMemoryOffset, next, a[1..], b);
    }
  }

  /** The loop visits the levels in order P4, P3, P2, P1: it agrees with the walk written out level by level. */
  lemma WalkVisitsLevelsInOrder(store: TableStore, physicalMemoryOffset: nat, level4Frame: AlignedFrame, va: nat)
    ensures Outcome(Walk(store, physicalMemoryOffset, level4Frame, TableIndexes(va)), va) ==
            TranslateByLevels(store, physicalMemoryOffset, level4Frame, va)
  {
    var idx := TableIndexes(va);
    var idx3, idx2, idx1 := idx[1..], idx[2..], idx[3..];
    assert idx3 == [P3Index(va), P2Index(va), P1Index(va)] && idx3[1..] == idx2;
    assert idx2 == [P2Index(va), P1Index(va)] && idx2[1..] == idx1;
    assert idx1 == [P1Index(va)] && idx1[1..] == [];
    match Step(store, physicalMemoryOffset, level4Frame, P4Index(va))
    case Err(e) =>
    case Ok(p3Frame) =>
      assert Walk(store, physicalMemoryOffset, level4Frame, idx) == Walk(store, physicalMemoryOffset, p3Frame, idx3);
      match Step(store, physicalMemoryOffset, p3Frame, P3Index(va))
      case Err(e) =>
      case Ok(p2Frame) =>
        assert Walk(store, physicalMemoryOffset, p3Frame, idx3) == Walk(store, physicalMemoryOffset, p2Frame, idx2);
        match Step(store, physicalMemoryOffset, p2Frame, P2Index(va))
        case Err(e) =>
        case Ok(p1Frame) =>
          assert Walk(store, physicalMemoryOffset, p2Frame, idx2) == Walk(store, physicalMemoryOffset, p1Frame, idx1);
          match Step(store, physicalMemoryOffset, p1Frame, P1Index(va))
          case Err(e) =>
          case Ok(frame) =>
            assert Walk(store, physicalMemoryOffset, p1Frame, idx1) == Walk(store, physicalMemoryOffset, frame, []);
  }

  /** The root table is the one `active_level_4_table` finds at `physical_memory_offset + cr3_frame`:
      when nothing is there the walk cannot start, and a not-present P4 entry makes the address unmapped. */
  lemma WalkStartsAtActiveLevel4Table(store: TableStore, physicalMemoryOffset: nat, level4Frame: AlignedFrame, va: nat)
    ensures ActiveLevel4Table(store, physicalMemoryOffset, level4Frame).None? ==>
      TranslateAddrInner(store, physicalMemoryOffset, level4Frame, va) == TableUnreachable
    ensures ActiveLevel4Table(store, physicalMemoryOffset, level4Frame).Some? &&
            ActiveLevel4Table(store, physicalMemoryOffset, level4Frame).value[P4Index(va)] == NotPresent ==>
      TranslateAddrInner(store, physicalMemoryOffset, level4Frame, va) == Unmapped
  {
    WalkVisitsLevelsInOrder(store, physicalMemoryOffset, level4Frame, va);
  }

  /** At whatever level the walk meets a not-present entry, the address is unmapped; at whatever level it
      meets a huge-page entry, the walk panics. */
  lemma FailingEntryEndsWalk(store: TableStore, physicalMemoryOffset: nat, level4Frame: AlignedFrame, va: nat,
                             level: nat, tableFrame: AlignedFrame)
    requires level < 4
    requires Walk(store, physicalMemoryOffset, level4Frame, TableIndexes(va)[..level]) == Ok(tableFrame)
    requires TableAt(store, physicalMemoryOffset, tableFrame).Some?
    ensures TableAt(store, physicalMemoryOffset, tableFrame).value[TableIndexes(va)[level]] == NotPresent ==>
      TranslateAddrInner(store, physicalMemoryOffset, level4Frame, va) == Unmapped
    ensures TableAt(store, physicalMemoryOffset, tableFrame).value[TableIndexes(va)[level]] == Huge ==>
      TranslateAddrInner(store, physicalMemoryOffset, level4Frame, va) == HugePagePanic
  {
    var idx := TableIndexes(va);
    assert idx == idx[..level] + idx[level..];
    WalkAppend(store, physicalMemoryOffset, level4Frame, idx[..level], idx[level..]);
  }

  /** A successful translation lands in the 4 KiB frame named by the P1 entry, at the address's own page
      offset: the first three levels reach a P1 table whose entry at the P1 index is present, and the
      result is that entry's frame start plus the page offset. */
  lemma TranslationKeepsPageOffset(store: TableStore, physicalMemoryOffset: nat, level4Frame: AlignedFrame, va: nat)
    returns (p1Frame: AlignedFrame, entryAddr: nat)
    requires TranslateAddrInner(store, physicalMemoryOffset, level4Frame, va).Mapped?
    ensures Walk(store, physicalMemoryOffset, level4Frame, TableIndexes(va)[..3]) == Ok(p1Frame)
    ensures TableAt(store, physicalMemoryOffset, p1Frame).Some?
    ensures TableAt(store, physicalMemoryOffset, p1Frame).value[P1Index(va)] == Present(entryAddr)
    ensures var p := TranslateAddrInner(store, physicalMemoryOffset, level4Frame, va).physAddr;
      && p == FA.ContainingFrame(entryAddr).startAddress + PageOffset(va)
      && PageOffset(p) == PageOffset(va)
      && FA.IsAligned(p - PageOffset(va))
  {
    var idx := TableIndexes(va);
    assert idx == idx[..3] + idx[3..];
    WalkAppend(store, physicalMemoryOffset, level4Frame, idx[..3], idx[3..]);
    assert idx[3..] == [P1Index(va)] && idx[3..][1..] == [];
    p1Frame := Walk(store, physicalMemoryOffset, level4Frame, idx[..3]).value;
    entryAddr := TableAt(store, physicalMemoryOffset, p1Frame).value[P1Index(va)].addr;
    var p := TranslateAddrInner(store, physicalMemoryOffset, level4Frame, va).physAddr;
    var base := p - PageOffset(va);
    assert FA.IsAligned(base);
    DivModUnique(p, FA.PAGE_SIZE, base / FA.PAGE_SIZE, PageOffset(va));
  }

  /** Addresses in the same 4 KiB page take the same walk: both are unmapped, both panic, or both map
      into the same frame at their own page offsets. */
  lemma SamePageSameFrame(store: TableStore, physicalMemoryOffset: nat, level4Frame: AlignedFrame, va1: nat, va2: nat)
    requires va1 / FA.PAGE_SIZE == va2 / FA.PAGE_SIZE
    ensures var t1 := TranslateAddrInner(store, physicalMemoryOffset, level4Frame, va1);
            var t2 := TranslateAddrInner(store, physicalMemoryOffset, level4Frame, va2);
      && t1.Mapped? == t2.Mapped?
      && (!t1.Mapped? ==> t1 == t2)
      && (t1.Mapped? ==> t1.physAddr - PageOffset(va1) == t2.physAddr - PageOffset(va2))
  {
    DivDiv(va1, P1_SPAN, P2_SPAN / P1_SPAN);
    DivDiv(va2, P1_SPAN, P2_SPAN / P1_SPAN);
    DivDiv(va1, P1_SPAN, P3_SPAN / P1_SPAN);
    DivDiv(va2, P1_SPAN, P3_SPAN / P1_SPAN);
    DivDiv(va1, P1_SPAN, P4_SPAN / P1_SPAN);
    DivDiv(va2, P1_SPAN, P4_SPAN / P1_SPAN);
    assert TableIndexes(va1) == TableIndexes(va2);
  }

  /** `translate_addr_inner` as the source writes it: a loop over the four indexes that replaces `frame`
      by the frame of each entry in turn, returning early on a missing frame. */
  method TranslateAddr(store: TableStore, physicalMemoryOffset: nat, level4Frame: AlignedFrame, va: nat)
    returns (r: Translation)
    ensures r == TranslateByLevels(store, physicalMemoryOffset, level4Frame, va)
  {
    WalkVisitsLevelsInOrder(store, physicalMemoryOffset, level4Frame, va);
    var tableIndexes := TableIndexes(va);
    var frame := level4Frame;
    var i := 0;
    while i < |tableIndexes|
      invariant 0 <= i <= |tableIndexes|
      invariant Walk(store, physicalMemoryOffset, level4Frame, tableIndexes)
             == Walk(store, physicalMemoryOffset, frame, tableIndexes[i..])
    {
      assert tableIndexes[i..][1..] == tableIndexes[i + 1..];
      var table := TableAt(store, physicalMemoryOffset, frame);
      if table.None? {
        return TableUnreachable;
      }
      var entry := table.value[tableIndexes[i]];
      match EntryFrame(entry) {
        case Ok(next) =>
          frame := next;
        case Err(FrameNotPresent) =>
          return Unmapped;
        case Err(HugeFrame) =>
          return HugePagePanic;
      }
      i := i + 1;
    }
    assert tableIndexes[i..] == [];
    r := Mapped(frame.startAddress + PageOffset(va));
  }
}
