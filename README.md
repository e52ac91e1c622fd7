# elfmalloc's general-purpose allocator, modelled in Dafny

This project models the core of `elfmalloc/src/general.rs` from allocators-rs.
It covers three parts.

- **Size classes.** The maps from a request size to a fixed-size object allocator:
  - `Multiples`: classes 16 bytes apart.
  - `PowersOfTwo`: power-of-two classes.
  - `TieredSizeClasses`: an 8-byte word class, then multiples of 16 up to the small cutoff, then powers of two.

  Each map is a class over an array. The array holds the size each class was built for. `init_conserve` fills it in a loop. `get_raw` is a function computing the index.
- **`ElfMalloc`.** The allocator built on the default tiered table: start at 8 bytes, 25 classes, a 1 MiB largest class.
  - `alloc` sends a request to its class or to the large path.
  - `free` first finds the page size of the pointer's slag: a pointer off a 64 KiB boundary is in a small slag, and otherwise the type tag at the 2 MiB boundary below it decides. The owning class is then the class of the object size recorded in the slag's metadata; a large object goes to `large_alloc::free`.
  - `realloc` allocates, frees, keeps or moves.
  - `get_page_size`, `get_type`, `round_to_page`, `get_layout` and `elfmalloc_get_layout` do the address arithmetic behind these.
- **`large_alloc`.** Allocations beyond the largest class:
  - A region of the request plus 2 MiB is mapped in 64 KiB pages.
  - The pointer returned is 2 MiB past the base.
  - The `AllocInfo` record sits at the 2 MiB boundary in the padding below it.

Memory is an `AddressSpace` object with natural-number addresses:
- the records at 2 MiB boundaries;
- the object size of each slag;
- the mapped large regions;
- a ghost map of the objects handed out.

Its invariant `WellFormed` states the arrangement the source's comments describe. Every object has a record of its own kind below it, and objects outside small slags are aligned to the 64 KiB cutoff. The allocator keeps a ghost record of the class that handed out each slag object.

Four things the allocator obtains from code outside this model are parameters of the methods, with preconditions saying what that code guarantees:
- the slot an object allocator hands out (`obj`);
- the base of a fresh mapping (`base`);
- the slag set-up performed by the page allocator;
- the operating system's mapping.

Files: `arith.dfy`, `size_classes.dfy`, `memory.dfy`, `large_alloc.dfy`, `elf_malloc.dfy`.

## Model

| member | source | states |
|---|---|---|
| `Arith.RoundUp` | elfmalloc/src/general.rs:476-480 | the result is a multiple of 16, at least `n` and less than `n + 16` |
| `Arith.RoundUpMonotone` | elfmalloc/src/general.rs:476-480 | rounding up preserves order |
| `Arith.NextPowerOfTwo` | elfmalloc/src/general.rs:557-565 | `next_power_of_two` is a power of two and at least `n`; for `n >= 1` its half is below `n` (for `n = 0` the result is 1) |
| `Arith.NextPowerOfTwoLeast` | elfmalloc/src/general.rs:557-565 | `next_power_of_two(n)` is below every power of two that holds `n` |
| `Arith.TrailingZerosPow2` | elfmalloc/src/general.rs:586-599 | the trailing zeros of `2^e` are `e`, which makes `get_raw`'s difference of trailing zeros a difference of base-2 logarithms |
| `SizeClasses.Multiples.InitConserve` | elfmalloc/src/general.rs:484-501 | class `i` is built for `round_up(start) + 16 i`; `max_size` is the last class (the debug assertion after the loop) |
| `SizeClasses.Multiples.GetRaw` | elfmalloc/src/general.rs:503-511 | the debug assertion `round_up(n) <= max_size` holds, so the index is in bounds; the class has size `round_up(n) >= n`; the class before it is smaller than `n`, so this is the best fit |
| `SizeClasses.Multiples.GetRawMonotone` | elfmalloc/src/general.rs:503-511 | a larger request never selects an earlier class |
| `SizeClasses.Multiples.GetRawOfClassSize` | elfmalloc/src/general.rs:468-474 | looking a class up by its own size finds that class |
| `SizeClasses.Multiples.Clone` | elfmalloc/src/general.rs:468-474 | the clone has the same starting size, maximum and class sizes |
| `SizeClasses.PowersOfTwo.InitConserve` | elfmalloc/src/general.rs:557-584 | the first class is `start.next_power_of_two()`; each class doubles the previous one; `max_size` is half the size after the last class |
| `SizeClasses.PowersOfTwo.MaxSizeIsLastClass` | elfmalloc/src/general.rs:569-584 | with at least one class, `max_size` is the last class and bounds every class |
| `SizeClasses.PowersOfTwo.GetRaw` | elfmalloc/src/general.rs:586-599 | for `k <= max_size`, the index is in bounds (the second debug assertion); the class is `k.next_power_of_two()`; the class before it is smaller than `k` |
| `SizeClasses.PowersOfTwo.GetRawMonotone` | elfmalloc/src/general.rs:586-599 | a larger request never selects an earlier class |
| `SizeClasses.PowersOfTwo.GetRawOfClassSize` | elfmalloc/src/general.rs:535-541 | looking a class up by its own size finds that class |
| `SizeClasses.PowersOfTwo.Clone` | elfmalloc/src/general.rs:535-541 | the clone has the same starting size, maximum and class sizes |
| `SizeClasses.TieredSizeClasses.InitConserve` | elfmalloc/src/general.rs:387-411 | `min(4096 - start/16, n/2)` small classes; the small and medium counts add up to `n_classes`; the medium tier starts at the next power of two above the small maximum; `max_key` is the medium maximum |
| `SizeClasses.TieredSizeClasses.GetRaw` | elfmalloc/src/general.rs:413-437 | `n <= 8` selects the word class exactly; `8 < n <= small max` selects the small tier exactly; otherwise the medium tier; the class holds `n` and has size 8, `round_up(n)` or `n.next_power_of_two()` |
| `SizeClasses.TieredSizeClasses.GetRawMonotone` | elfmalloc/src/general.rs:413-437 | a larger request selects a class no earlier in `foreach` order and no smaller |
| `SizeClasses.TieredSizeClasses.GetRawIdempotent` | elfmalloc/src/general.rs:897-907 | the class of a class's own size is that class, which `free` relies on when it looks the class up by the object size of the slag |
| `SizeClasses.TieredSizeClasses.MaxKeyIsLargestClass` | elfmalloc/src/general.rs:439-442 | `max_key` is the size of the last medium class, and no small or medium class is built for more |
| `SizeClasses.TieredSizeClasses.CutoffClassesArePowersOfTwo` | elfmalloc/src/general.rs:829-836 | with the small tier below 64 KiB, a class of at least the cutoff is a medium class, a power of two and a multiple of the cutoff: the reason the comment in `get_page_size` gives for such objects lying on the cutoff |
| `SizeClasses.DefaultTable` | elfmalloc/src/general.rs:690-705 | with `start_from = 8` and `n_classes = 25` there are 12 small classes from 16 to 192, the medium tier starts at 256, and `max_key` is 1 MiB |
| `Memory.RoundToPage` | elfmalloc/src/general.rs:708-711 | the result is a multiple of 2 MiB, at or below the pointer and within 2 MiB of it |
| `Memory.HeaderOf` | elfmalloc/src/general.rs:719-723 | the record `get_type` reads is at a 2 MiB boundary strictly below the item and at most 2 MiB below it |
| `Memory.SlagBase` | elfmalloc/src/general.rs:897-903 | the slag found for a pointer is the pointer rounded down to a multiple of the page size, so it starts at or below the pointer and holds it |
| `Memory.SlagKind` | elfmalloc/src/general.rs:772-781 | a class is given small slags exactly when its size is below the 64 KiB cutoff, and never large memory |
| `Memory.AddressSpace.GetType` | elfmalloc/src/general.rs:720-723 | in a well-formed address space, the tag read for an object handed out is the kind of memory it came from |
| `Memory.AddressSpace.GetTypeOfLive` | elfmalloc/src/general.rs:713-723 | `get_type` of an object handed out is the kind of memory it came from |
| `LargeAlloc.PageCount` | elfmalloc/src/general.rs:944-951 | `n_pages` is the ceiling of `region_size / 64 KiB` |
| `LargeAlloc.MappedLength` | elfmalloc/src/general.rs:947-952 | the mapping is a multiple of 64 KiB, at least the region and less than 64 KiB more |
| `LargeAlloc.AllocLayout` | elfmalloc/src/general.rs:944-973 | for a base aligned to 64 KiB, the result is aligned to 64 KiB and 4 KiB (the debug assertions); the record lies in `[base, res)` at least 64 KiB below `res`; the requested bytes lie inside the mapping |
| `LargeAlloc.HeaderInPadding` | elfmalloc/src/general.rs:952-953 | for a base aligned to 64 KiB, the record `get_commitment_mut(res)` finds is at or above the base and at least 64 KiB below `res`, so it lies in the padding page |
| `LargeAlloc.GetSize` | elfmalloc/src/general.rs:1011-1014 | the size is the recorded region size less the 2 MiB padding page; for an object 2 MiB past its region's base it runs from the object to the region's end. `LargeAlloc.Alloc` proves it gives back the requested size |
| `LargeAlloc.Alloc` | elfmalloc/src/general.rs:944-973 | writes the record `(Large, base, size + 2 MiB)` at `get_commitment_mut(res)`; maps the region; returns `base + 2 MiB`; `get_size` gives back `size`; the address-space invariant is kept |
| `LargeAlloc.Free` | elfmalloc/src/general.rs:975-1009 | a record saying nothing was mapped changes nothing; otherwise the region is unmapped whole, the record goes with it, the object is no longer live, and the invariant is kept |
| `LargeAlloc.AllocThenFree` | elfmalloc/src/general.rs:944-1009 | a large allocation that is freed again leaves records, regions, slags and live objects as they were |
| `LargeAlloc.SystemRoundUp` | elfmalloc/src/general.rs:1008 | an unmapped length reaches up to the next 4 KiB multiple |
| `LargeAlloc.LeftMappedAsWritten` | elfmalloc/src/general.rs:1008 | `free` as written leaves less than 64 KiB of the mapping behind |
| `LargeAlloc.AsWrittenFreeLeaks` | elfmalloc/src/general.rs:944-1009 | for every region size, `free` as written leaves part of the mapping behind exactly when `0 < region_size % 64 KiB <= 60 KiB` |
| `LargeAlloc.AsWrittenFreeLeaksTail` | elfmalloc/src/general.rs:944-1009 | for a request of 1 MiB + 1, 49 pages are mapped and 61440 bytes stay mapped after `free` as written |
| `General.ElfmallocGetLayout` | elfmalloc/src/general.rs:742-756 | the alignment is a power of two; for a slag object the size is the object size in the metadata of the slag found with the given page size, and the alignment is that size or 8; for a large object the size is the region size less the 2 MiB padding and the alignment is the operating system's page |
| `General.GetLayout` | elfmalloc/src/general.rs:212-233 | choosing the backing memory by the tag gives the layout of the slag of the object's own kind, since the tag of an object handed out is its kind; the alignment is a power of two |
| `General.LayoutOfLive` | elfmalloc/src/general.rs:742-756 | a slag object's layout is its slag's object size, aligned to that size when it is a power of two and to 8 otherwise; a large object's layout is its recorded size with the operating system's page as alignment |
| `General.ReallocPlan` | elfmalloc/src/general.rs:861-895 | the four branches: null allocates; zero size frees; the object is kept exactly when its layout already has the size and alignment; otherwise it moves. Whatever is allocated holds `new_size` and is rounded to a power of two exactly when the alignment exceeds 8. A move copies `min(old_size, new_size)` bytes, with `new_size` after the rounding: the length is at most both sizes and equal to one of them |
| `General.ElfMalloc.constructor` | elfmalloc/src/general.rs:690-705 | the default table from 8 bytes with 25 classes; `max_size` is 1 MiB |
| `General.ElfMalloc.AllocRoute` | elfmalloc/src/general.rs:853-859 | a class is used exactly when `bytes <= max_size`, and the class holds the request |
| `General.ElfMalloc.GetPageSize` | elfmalloc/src/general.rs:827-851 | the answer is 256 KiB, 2 MiB or none, and none only for a pointer on the 64 KiB cutoff whose tag says large. `GetPageSizeCorrect` proves it right for every object handed out |
| `General.ElfMalloc.GetPageSizeCorrect` | elfmalloc/src/general.rs:827-851 | for every object handed out, the shortcut for pointers off the cutoff and the tag lookup give the page size of its slag; the answer is none exactly for large objects |
| `General.ElfMalloc.FreeRoute` | elfmalloc/src/general.rs:897-907 | `free` sends a large object to `large_alloc::free`; it sends a slag object to the class that handed it out |
| `General.ElfMalloc.AllocThenFreeSameClass` | elfmalloc/src/general.rs:853-907 | the class `alloc` chooses for `bytes` (`AllocRoute`) has a size `get_mut` accepts, and looking that size up, as `free` does with the object size in the slag, finds the same class: an object of the class for `bytes` is freed back to that class |
| `General.ElfMalloc.PowerOfTwoRequestAligned` | elfmalloc/src/general.rs:742-756 | a power-of-two request up to `max_size` gets a layout whose alignment is at least the request |
| `General.ElfMalloc.OwnersKeptOnClassAlloc` | elfmalloc/src/general.rs:853-859 | handing out a ready slot to its class keeps every object well formed (a slot in a big slag lies on the 64 KiB cutoff because its class size is a power of two, by `CutoffClassesArePowersOfTwo`) and every slag object with its owner, and the new object is owned by its class |
| `General.ElfMalloc.ClassAlloc` | elfmalloc/src/general.rs:853-859 | the class hands out the ready slot, which from then on belongs to it; the invariant is kept and every earlier object keeps its layout |
| `General.ElfMalloc.ClassFree` | elfmalloc/src/general.rs:897-907 | the owning class takes the object back; the invariant is kept and every other object keeps its layout |
| `General.ElfMalloc.Alloc` | elfmalloc/src/general.rs:853-859 | class path or large path as `max_size` decides, with the new live map and owners of each path. The records and regions are `AllocHeaders` and `AllocRegions` of the old ones: a large request adds the record `(Large, base, bytes + 2 MiB)` and maps its region, a class request adds neither; no slag metadata changes. The new object's layout holds the request: a class object's layout is that of its class, and a large object's is `(bytes, page)`. Its alignment is at least 8, and at least the request when the request is a power of two served by a class. Every earlier object keeps its layout |
| `General.ElfMalloc.LargeAllocate` | elfmalloc/src/general.rs:856-858 | the large path maps a fresh region and writes its record, returns `base + 2 MiB`, marks it live as a large object, keeps every slag object with its owner and every earlier object's layout, and gives the new object the layout `(bytes, page)` |
| `General.ElfMalloc.LargeFree` | elfmalloc/src/general.rs:905 | the large path of `free` removes the object, its record and the mapping of its region; no slag metadata changes; the invariant is kept and every other object keeps its layout |
| `General.ElfMalloc.Release` | elfmalloc/src/general.rs:897-907 | the object goes back to its class when its page size is known, otherwise to `large_alloc::free`; it is no longer live and no longer owned. Records and regions change as `Released` says: a large object's record is removed and its region unmapped, a slag object leaves both alone. No slag metadata changes, the invariant is kept and every other object keeps its layout |
| `General.ElfMalloc.Free` | elfmalloc/src/general.rs:897-907 | takes `FreeRoute`, which for a slag object is the class that handed it out; the object is no longer live and no longer owned; records and regions change as `Released` says and slag metadata not at all; every other object keeps its layout |
| `General.ElfMalloc.Realloc` | elfmalloc/src/general.rs:861-895 | takes the `ReallocPlan` step for the current layout, with the new live map and owners of each step; Keep changes nothing. FreeOnly changes records and regions as `Released` says; AllocOnly as `AllocHeaders` and `AllocRegions` say; Move as the two in turn; no step changes slag metadata. A new object holds the requested size, which is the debug assertion after the move, is aligned to at least 8, to its power-of-two size when `new_alignment > 8` and it is a class object, and to the page when it is large. The new object is the ready slot `obj` when a class serves it and `base + 2 MiB` when it is large, and its layout `Serves` the allocated size, exactly `(size, page)` when large. The copy fits both objects. A moved object is freed, and every other object keeps its layout |
| `General.ElfMalloc.MoveObject` | elfmalloc/src/general.rs:886-888 | the new object is live: the ready slot `obj` owned by the class of `size`, or `base + 2 MiB` when large; its layout `Serves` the request as `Alloc` promises (holds `size`, aligned to at least 8, to a power-of-two class request, and exactly `(size, page)` when large); the old one is freed. Records and regions are those `alloc` leaves (`AllocHeaders`, `AllocRegions`) changed as `Released` says for the old object; no slag metadata changes; every other object keeps its layout |
| `General.ElfMalloc.DefaultLayoutLookup` | elfmalloc/src/general.rs:1035-1061 | in the default table: 8 bytes get layout (8, 8), 24 bytes get (32, 32), 512 bytes get (512, 512), and 4 MiB takes the large path, whose layout is `(4 MiB, page)` by `Alloc` |

## Left out

- Byte contents are not modelled. `realloc`'s copy is modelled only as its length (`ReallocStep.Move.copyLen`), and the debug writes are not modelled either.
- Integers are unbounded. `usize` overflow of `size + 2 MiB`, of `round_up` near the top of the address space, and of `n_pages * 64 KiB` is not modelled.
- The operating-system calls (`mmap`, `unmap`, `MmapSource::carve`) are represented by the `regions` map and the `base` parameter, which must be fresh and aligned to 64 KiB. Failure of the mapping, where the source panics, is not modelled.
- The object allocators of the size classes are modelled only by the size they were built for. `ObjectAlloc::alloc` hands out a slot that is a parameter (`obj`, precondition `SlotReady`). SlotReady assumes that the slot is aligned to its class size when that size is a power of two, the premise the comment in `get_page_size` states (general.rs:829-831); that a big-slag object lies on the 64 KiB cutoff is derived from it. The allocator's invariant keeps the small tier below the cutoff, as the default table's 192-byte maximum does. The slags the page allocators carve are present in the address space before the call; their creation by `PageAlloc`, `Slag` metadata layout and `compute_metadata` are not modelled.
- `new_internal` is modelled only through its choice of slag kind by size (`SlagKind`) and by building the table in the constructor. The metadata array, the cutoff factor and the page cleanup are not modelled.
- `dirty_slag`, `foreach`, `Drop`, the `global` module's thread-local handles, background dirtying and destructors are not modelled. Only `get_layout`'s choice of backing memory is kept, in `General.GetLayout`.
- `ElfMalloc::clone` and `DynamicAllocator` (a thin wrapper) are not modelled.
- The operating system's page size, which `mmap::page_size()` asks for at run time, is fixed at 4 KiB (`Arith.SYSTEM_PAGE_SIZE`). The large-object layout `(bytes, page)` stated by `General.ElfMalloc.Alloc`, `General.LayoutOfLive` and `General.ElfMalloc.DefaultLayoutLookup`, and the 61440-byte figure under "Findings", hold as stated only where pages are 4 KiB.
- General.ElfMalloc.Realloc promises alignment `new_alignment` only when `new_alignment <= 8` or `new_alignment <= new_size.next_power_of_two()`: a new class object is aligned to at least its power-of-two size, and a new large object to the operating system's page. With `new_size` below `new_alignment`, such as 16 bytes at alignment 64, the source moves the object to the 16-byte class, whose objects are aligned to 16. The source's own `realloc` test passes alignments no larger than the rounded size.
- The `c-api` build on macOS and 64-bit Windows has no word class. Only the default build is modelled.
- The test-only `SEEN_PTRS` map is not modelled; the round trip it checks is stated by `LargeAlloc.Alloc` (`GetSize`). Threads and concurrency are not modelled.
- SizeClasses.TieredSizeClasses.InitConserve requires `start <= 16`. With a larger start, `Multiples::get_raw` underflows for a request `n` of at least 9 with `round_up(n) < round_up(start)`, that is for `9 <= n <= round_up(start) - 16`; with `start = 24`, requests of 9 to 16 bytes. The only caller passes 8.
- SizeClasses.Multiples.GetRaw requires that the subtraction in the index does not underflow. In the source that unsigned subtraction panics in debug builds and wraps around in release builds.
- SizeClasses.PowersOfTwo.GetRaw requires that the subtraction of trailing zeros does not underflow. In the source that unsigned subtraction panics in debug builds and wraps around in release builds.
- LargeAlloc.Alloc and LargeAlloc.AllocThenFree require `base + 2 MiB` not to be a live object. For a zero-byte request the result lies at the end of its own mapping, so freshness of the mapping does not imply it. `ElfMalloc` sends only requests above `max_size` there; they are not empty, so the result lies inside the fresh mapping and `ElfMalloc` does not need the precondition.

## Findings

| source | as written | input that shows it | evidently intended | confidence | as-written member | corrected member |
|---|---|---|---|---|---|---|
| elfmalloc/src/general.rs:1008 | `large_alloc::free` unmaps `region_size` bytes from the base, but `alloc` mapped `n_pages` whole 64 KiB pages. The tail of the mapping beyond the 4 KiB page holding the region's end is never unmapped | `alloc(1 MiB + 1)` on the default allocator and then `free`, with 4 KiB system pages: the region is 3145729 bytes, 3211264 are mapped, and 61440 stay mapped; in general some bytes stay mapped exactly when `0 < region_size % 64 KiB <= 60 KiB` | unmap the whole mapping of `n_pages * 64 KiB` bytes, as the comment in `alloc` ("round up to page size") suggests | not executed; medium, since `mmap::unmap` is not part of this model | `LargeAlloc.AsWrittenFreeLeaksTail`, `LargeAlloc.AsWrittenFreeLeaks` | `LargeAlloc.Free` |
