# minircore kernel core in Dafny

This project models two pieces of the minircore x86_64 kernel and proves properties about them.

- **The boot-info frame allocator** (`BootInfoFrameAllocator` in `src/memory.rs`). It reads the
  bootloader's memory map and keeps only the regions typed `Usable`. It steps through each of
  those regions in 4 KiB strides and wraps every address as the 4 KiB `PhysFrame` that contains
  it. A cursor `next` then hands the frames out one per `allocate_frame` call.
- **The four-level page-table walk** (`translate_addr_inner`, commented out in `src/memory.rs`),
  plus the `physical_memory_offset + phys` arithmetic of `active_level_4_table`. The walk splits
  the virtual address into four 9-bit indices and a 12-bit page offset, as in section 4.5 of the
  Intel 64 and IA-32 Architectures Software Developer's Manual, Vol. 3A. It reads each level's
  table through the linear physical-memory mapping and follows one entry per level.
- **The VGA text-mode `Writer`** (`src/vga_buffer.rs`). This is a 25 × 80 grid of
  (character, colour) cells with a cursor column on the bottom row. It covers `ColorCode::new`,
  `write_byte`, `write_string`, `new_line`, `clear_row` and `write_str`.

Files:

- `options.dfy`: `Option` and `Result`.
- `frame_allocator.dfy`: module `FrameAllocator`.
- `page_table.dfy`: module `PageTableWalk`.
- `vga_buffer.dfy`: module `VgaBuffer`, the writer as pure functions over an immutable `Writer` value.
- `vga_text.dfy`: module `VgaText`, the writer as the source runs it. It is a class that updates a
  2-D array in place with loops. Each of its methods is proved to produce exactly the `VgaBuffer`
  result, through a ghost `model` field.

Parameters and abstractions:

- **Page tables** are not read from hardware. They come from a `TableStore`, a map from virtual
  address to a 512-entry table.
- **The CR3 root frame** is a parameter.
- **Entries** are `NotPresent`, `Huge` or `Present(addr)`. `PageTableEntry::frame` gives the
  frame containing `addr`.
- **Outcomes of the walk.** The source returns `None` for a not-present entry and panics on a
  huge entry. The model reports these as the outcomes `Unmapped` and `HugePagePanic`. A table
  address with no table in the store is reported as `TableUnreachable`. In the source that case is
  an unchecked dereference.

Facts about the code that the model keeps:

- **Huge entries.** The `entry.frame()` match runs at every level, so a huge flag on a P1 entry
  also panics (`src/memory.rs:115-127`).
- **When `allocate_frame` returns `None`.** It returns `None` as soon as `next` equals the frame
  count (`nth(self.next)`, `src/memory.rs:62`).
- **Distinct, increasing frames.** Frames are distinct and increasing only over 4 KiB-aligned,
  ascending, disjoint usable regions (`FrameAllocator.AllocationsAscend`).
  `FrameAllocator.OverlappingRegionsRepeatFrame` shows a repeated frame without that assumption.
  `FrameAllocator.UnalignedRegionFrameStartsBelowRegion` and
  `FrameAllocator.UnalignedRegionEndFrameRunsPastRegion` show frames reaching outside a region
  whose bounds are off frame boundaries.

## Model

| member | source | states |
|---|---|---|
| FrameAllocator.ContainingFrame | src/memory.rs:89 | `PhysFrame::containing_address` gives a 4 KiB-aligned frame whose 4 KiB span contains the address |
| FrameAllocator.ContainingFrameUnique | src/memory.rs:89 | any aligned start at most 4095 below the address is the containing frame's start, so an aligned address is its own frame |
| FrameAllocator.StepBy | src/memory.rs:84-87 | `(start..end).step_by(4096)` yields ceil((end-start)/4096) addresses, none when start >= end, the i-th being start + 4096·i |
| FrameAllocator.StepByMembership | src/memory.rs:87 | an address is stepped over iff it lies in [start, end) at a multiple of 4096 from start |
| FrameAllocator.UsableRegions | src/memory.rs:80-82 | the filter keeps exactly the regions typed `Usable`, and no more regions than the map has |
| FrameAllocator.UsableFrames | src/memory.rs:78-90 | one frame per stepped address, each the aligned frame containing that address |
| FrameAllocator.UsableFrameAddressesAppend | src/memory.rs:80-87 | regions are visited in memory-map order: the addresses of a concatenated map are the two parts' addresses concatenated |
| FrameAllocator.UsableFrameAddressesSingle | src/memory.rs:80-87 | a lone region contributes its own steps if usable and nothing otherwise |
| FrameAllocator.UsableFrameAddressesMembership | src/memory.rs:80-87 | an address is produced iff some usable region of the map steps over it (both directions) |
| FrameAllocator.UsableFramesCount | src/memory.rs:78-90 | the number of usable frames is the sum of the usable regions' ceiling counts; other regions add nothing |
| FrameAllocator.AscendingMapGivesAscendingAddresses | src/memory.rs:80-87 | over aligned, ascending, disjoint usable regions, the stepped addresses are aligned and strictly increasing |
| FrameAllocator.AscendingMapGivesAscendingFrames | src/memory.rs:84-89 | over such a map, each frame starts at its stepped address and the frames strictly increase |
| FrameAllocator.OneUsableOneReservedRegion | src/memory.rs:78-90 | a usable [0x100000, 0x200000) next to a reserved [0x200000, 0x300000) gives exactly 256 frames, all inside the usable region |
| FrameAllocator.OverlappingRegionsRepeatFrame | src/memory.rs:78-90 | two usable regions over the same 4 KiB make the sequence contain the same frame twice |
| FrameAllocator.UnalignedRegionFrameStartsBelowRegion | src/memory.rs:87-89 | a usable region starting off a frame boundary first yields a frame that begins below the region |
| FrameAllocator.UnalignedRegionEndFrameRunsPastRegion | src/memory.rs:87-89 | a usable `[0, 5000)` yields frames 0 and 4096, and the second runs past the region's end |
| FrameAllocator.Nth | src/memory.rs:62 | `Iterator::nth(n)` is `Some` of the n-th element iff n is below the length, else `None` |
| FrameAllocator.Init | src/memory.rs:70-75 | `init` keeps the memory map and sets `next` to 0, so the first allocation is the first usable frame, or `None` when there is none |
| FrameAllocator.AllocateFrame | src/memory.rs:61-65 | returns `usable_frames[next]` when next is in range, else `None`; in both cases next grows by exactly 1 and the memory map is unchanged |
| FrameAllocator.AllocateMany | src/memory.rs:61-65 | n successive calls give n results, keep the map, and move the cursor by exactly n |
| FrameAllocator.AllocateManyReturnsConsecutiveFrames | src/memory.rs:61-65 | the k-th of n successive calls returns the usable frame at position next + k, or `None` past the end |
| FrameAllocator.InitThenAllocate | src/memory.rs:61-75 | after `init(m)` (cursor 0, map kept), the k-th call returns `usable_frames[k]` and `None` from the frame count on |
| FrameAllocator.ExhaustionIsSticky | src/memory.rs:61-65 | once a call returns `None`, every later call returns `None` |
| FrameAllocator.AllocationsAscend | src/memory.rs:61-89 | over an aligned, ascending, disjoint map, the frames handed out after `init` are aligned, pairwise distinct and strictly increasing |
| PageTableWalk.SplitCompose | src/memory.rs:109-111 | any address below 2^48 equals p4·2^39 + p3·2^30 + p2·2^21 + p1·2^12 + page offset of its own indices |
| PageTableWalk.ComposeSplit | src/memory.rs:109-111 | indices below 512 and an offset below 4096 are recovered from the address they compose |
| PageTableWalk.TableAt | src/memory.rs:117-119 | a table frame is read at `physical_memory_offset + frame.start_address()`; the table is found iff that address is in the store |
| PageTableWalk.WalkStartsAtActiveLevel4Table | src/memory.rs:19-22 | the walk starts from the table at `physical_memory_offset + phys` of the CR3 frame: none there means no translation, a not-present P4 entry means `None` |
| PageTableWalk.WalkAppend | src/memory.rs:115-128 | walking a + b is walking a, then walking b from the frame reached; a failure in a ends the walk |
| PageTableWalk.WalkVisitsLevelsInOrder | src/memory.rs:109-131 | the loop over the index array equals the walk written out level by level, P4, P3, P2, then P1 |
| PageTableWalk.TranslateAddrInner | src/memory.rs:100-132 | `translate_addr_inner` visits the tables in order P4, P3, P2, P1 and gives the outcome of the first failing level, or the last frame plus the page offset |
| PageTableWalk.TableIndexes | src/memory.rs:109-111 | four indices, each below 512, that together with the page offset rebuild any address below 2^48 |
| PageTableWalk.ActiveLevel4Table | src/memory.rs:13-22 | the level-4 table is the one found at `physical_memory_offset + phys` of the CR3 frame, and none when nothing is there |
| PageTableWalk.EntryFrame | src/memory.rs:123-127 | an entry yields a frame iff it is present; not-present gives `FrameNotPresent`, huge gives `HugeFrame`; the frame contains the entry's address |
| PageTableWalk.FailingEntryEndsWalk | src/memory.rs:122-127 | a not-present entry at any level yields `None`; a huge entry at any level is the panic |
| PageTableWalk.TranslationKeepsPageOffset | src/memory.rs:121-131 | a successful result is the frame of the present P1 entry reached by the first three levels, plus the page offset; it keeps the page offset over an aligned base |
| PageTableWalk.SamePageSameFrame | src/memory.rs:109-131 | two addresses in the same 4 KiB page get the same outcome, and when mapped, the same frame |
| PageTableWalk.TranslateAddr | src/memory.rs:100-132 | the in-place loop that replaces `frame` entry by entry and returns early computes the level-by-level walk |
| VgaBuffer.ColorValue | src/vga_buffer.rs:13-30 | every colour's discriminant is below 16 |
| VgaBuffer.ColorOfValue | src/vga_buffer.rs:13-30 | each value below 16 names the colour with that discriminant |
| VgaBuffer.NewColorCode | src/vga_buffer.rs:40-42 | `background << 4` ORed with `foreground` equals 16·background + foreground as a number, so it fits in a byte |
| VgaBuffer.ColorCodeRoundTrip | src/vga_buffer.rs:36-42 | both colours are recovered from the attribute byte: low nibble foreground, high nibble background |
| VgaBuffer.ColorCodeInjective | src/vga_buffer.rs:40-42 | two colour pairs give the same byte iff they are the same pair |
| VgaBuffer.NewWriter | src/vga_buffer.rs:74-79 | a writer starts at column 0 inside the 0..=80 bound over a 25×80 buffer |
| VgaBuffer.ClearRow | src/vga_buffer.rs:138-147 | every cell of the row becomes a space in the current colour; every other row, the cursor and the colour are unchanged |
| VgaBuffer.CopyRowsUp | src/vga_buffer.rs:128-133 | after the copy loop, row r-1 holds the old row r for r in 1..25 and the bottom row is untouched |
| VgaBuffer.NewLine | src/vga_buffer.rs:127-136 | rows move up by one (old row 0 dropped), the bottom row is blank in the current colour, the cursor is 0 |
| VgaBuffer.PutChar | src/vga_buffer.rs:95-106 | the byte in the current colour lands at the bottom row, cursor column; the cursor advances by 1; no other cell changes |
| VgaBuffer.WriteByte | src/vga_buffer.rs:84-109 | newline writes no cell, scrolls and sets the cursor to 0; with room, one cell written at the cursor, which advances by 1, nothing else changes; on a full line, scroll first, byte at column 0, cursor 1; the cursor stays within 0..=80 |
| VgaBuffer.Displayed | src/vga_buffer.rs:116-123 | bytes in 0x20..=0x7e and newline pass through, all others become 0xfe; only a newline becomes a newline, everything else shown is printable or 0xfe |
| VgaBuffer.WriteString | src/vga_buffer.rs:112-125 | writing any byte string keeps the buffer shape, the cursor bound and the colour |
| VgaBuffer.WriteStringAppend | src/vga_buffer.rs:112-125 | one `write_byte` per input byte in order: writing s + t is writing s, then t |
| VgaBuffer.WriteStringLastByte | src/vga_buffer.rs:114-123 | the last byte of a string is one more `write_byte` of that byte, or of 0xfe when it is unprintable |
| VgaBuffer.WriteStringWithinLine | src/vga_buffer.rs:112-125 | a newline-free string that fits on the line lands from the cursor on, printable bytes as themselves and others as 0xfe; the cursor ends just past it; no other cell changes |
| VgaBuffer.WriteLineEndsOnBlankRow | src/vga_buffer.rs:119 | a string ending in a newline leaves the cursor at column 0 on a blank bottom row |
| VgaBuffer.WriteByteKeepsScreenDisplayable | src/vga_buffer.rs:84-109 | writing a printable byte, 0xfe or a newline keeps every cell printable or 0xfe |
| VgaBuffer.WriteStringKeepsScreenDisplayable | src/vga_buffer.rs:114-123 | whatever bytes are written, a screen holding only printable ASCII and 0xfe keeps holding only those |
| VgaBuffer.WriteStr | src/vga_buffer.rs:153-158 | `write_str` always returns `Ok(())` and has the effect of `write_string` |

| VgaText.TextWriter.ClearRow | src/vga_buffer.rs:138-147 | the in-place loop over the row's cells leaves the array and cursor exactly as `VgaBuffer.ClearRow` says |
| VgaText.TextWriter.NewLine | src/vga_buffer.rs:127-136 | the nested copy loops, then `clear_row` of the bottom row and the cursor reset, leave the array exactly as `VgaBuffer.NewLine` says |
| VgaText.TextWriter.WriteByte | src/vga_buffer.rs:84-109 | the in-place `write_byte` leaves the array and cursor exactly as `VgaBuffer.WriteByte` says |
| VgaText.TextWriter.WriteString | src/vga_buffer.rs:112-125 | the loop over the bytes, with its printable-or-0xfe match, leaves the array exactly as `VgaBuffer.WriteString` says |
| VgaText.TextWriter.WriteStr | src/vga_buffer.rs:153-158 | `write_str` returns `Ok(())` and leaves the array exactly as `VgaBuffer.WriteString` says |

## Left out

- `src/interrupts.rs`: the interrupt descriptor table, the exception and IRQ handlers, the PIC
  driver and keyboard decoding are not modelled. They are thin wrappers over the `x86_64`,
  `pic8259` and `pc_keyboard` crates, which are not part of this model, and they run in
  asynchronous interrupt context.
- `Cr3::read`, the raw pointer cast to `&mut PageTable` and `OffsetPageTable::new`
  (`src/memory.rs:7-27`) are left out. They are a CPU register read and a foreign crate. The
  CR3 frame is a parameter, and only the offset arithmetic is kept.
- `create_example_mapping` (commented out) depends on the crate's `map_to` and is left out.
- `PageTableEntry::frame`, `VirtAddr` and `PhysFrame` come from the `x86_64` crate, which is not
  part of this model. Their behaviour is restated from the crate's documented semantics.
  - Entries are abstracted to not present / huge / present with an address.
  - Flags other than PRESENT and HUGE_PAGE are not modelled.
- `PhysAddr::new` panics when bits 52..64 are set. That check is not modelled.
- Integer widths are not modelled:
  - addresses and the cursor `next` are unbounded naturals;
  - the `usize` overflow of `next += 1`, u64 wrap-around and the `VirtAddr` addition panics are ignored.
- `PageTableWalk.SplitCompose` is stated only for addresses below 2^48. Canonical upper-half
  addresses carry sign-extension bits above bit 47, which the four indices do not cover.
- `MemoryRegionType` lists the bootloader crate's region kinds. Only `Usable` affects the model.
- Region ranges are generalised to arbitrary naturals. In the bootloader crate a region's range is
  counted in frame numbers, so its start and end are always multiples of 4096. The two
  `Unaligned...` lemmas therefore describe maps the bootloader does not produce.
- The global `WRITER` is left out: its `lazy_static`, the `spin::Mutex`, the MMIO address
  `0xb8000`, the `Volatile` wrapper, and the `print!`/`println!`/`_print` formatting path
  (`src/vga_buffer.rs:74-80, 185-199`). These are locking, raw MMIO and `core::fmt` machinery.
  The buffer is a plain array, and `write_str` takes the string's UTF-8 bytes as a byte sequence.
- VgaBuffer.ClearRow: requires `row < 25`. In the source a larger row panics on the array index.
  The only caller passes the bottom row.
- VgaBuffer.WriteString: its own contract states only the invariants it keeps. Its byte-by-byte
  effect is stated by `WriteStringAppend`, `WriteStringLastByte` and `WriteStringWithinLine`.
- `src/allocator.rs` (a stub allocator), `tests/heap_allocation.rs`, `src/main.rs` and `main.rs`
  (boot entry points, panic handlers and raw MMIO writes) carry no logic that is modelled here.
