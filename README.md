# Memory management core of a bare-metal Cortex-M runtime

This project models the memory-management core of a small Rust runtime for
ARM Cortex-M microcontrollers and proves properties of it in Dafny. The core
has five parts:

- **Memory primitives** (`memory.dfy`, module `Memory`). These are the
  compiler intrinsics `__aeabi_memclr` and `__aeabi_memset`, `memset` (the
  current one and its older copy), `memcmp` and its word-stepping generic
  `memcmp_t`, the overlap test of `memcpy`, and the `IOVec` (pointer, size)
  descriptor. Memory is one array of bytes, and a pointer is an offset into
  it.
- **Software division** (`math.dfy`, module `Math`). This is `__aeabi_uidivmod` and
  `__aeabi_idivmod` (division by repeated subtraction), the `round_up` of
  their results, and the ceiling division `uceil`.
- **Bitmap** (`bitmap.dfy`, module `Bitmaps`). A region of memory is read as
  bits, least significant bit of each byte first, together with a `used`
  counter. The operations are set and clear (plain, checked and ranged),
  first-fit search, and search-and-set with or without a bound. The class
  keeps the source's fields. Its abstract value is `Bits()`, the bit
  sequence decoded from the bytes in memory. `Consistent()` says that
  `used` counts the set bits.
- **Slab allocator** (`slab.dfy`, module `Slab`). A region is cut into
  equal blocks. A bitmap either sits in the region's leading blocks or, when
  it fits, in the leftover tail. Allocation takes the first run of free
  blocks. Freeing clears bits block by block. The abstract value is
  `Allocated()`, the bits of the managed blocks.
- **Ring buffer** (`ring_buffer.dfy`, module `RingBuffers`). A fixed number
  of slots is written round-robin, and the oldest value is overwritten once
  the buffer is full. The ghost field `history` records every value pushed.
  The buffer's contents are `Window(history, Size())`, the last `Size()`
  pushes.

`results.dfy` (module `Results`) holds the `Option` and `Result` types and
the error kinds. Each kind stands for one of the source's error strings.

Where a source function would overflow, underflow or never return for some
input, the model does not invent a result for that input. It excludes the
input with a `requires` and lists it under "Left out". Where the code
behaves differently from what its comments or tests suggest, the model
follows the code. These divergences are stated in the contracts:

- `memcmp_t` skips the bytes after the last whole word. Once one word has
  been compared, the tail loop starts one word past the end. `ComparedLength`
  captures this, and `TailDifferenceExample` shows two regions differing
  only in the tail that compare equal.
- `__aeabi_uidivmod` leaves a remainder in `1..rhs`, not `0..rhs-1`, when
  the dividend is a non-zero multiple of the divisor.
- `bounded_find_and_set` tries only the first fit in the whole bitmap. If
  that run crosses the bound, the call fails, even when a later run would
  fit.
- `set` and `clear` change `used` even when the bit already had the value
  they write, so `used` can drift from the number of set bits.
- `free` leaves earlier blocks cleared when a later `checked_clear` fails.

## Model

| member | source | states |
|---|---|---|
| Memory.FromRange | src/libc/memory/mod.rs:328-330 | the region starts at `begin` and ends at `end` |
| Memory.Filled | src/libc/memory/mod.rs:12-14 | the bytes `dest..dest+cnt` hold `val`; every other byte is unchanged |
| Memory.FilledNothing | src/libc/memory/mod.rs:12-14 | filling zero bytes changes nothing |
| Memory.FilledWhole | src/libc/memory/mod.rs:38-69 | filling a whole buffer yields a buffer of `val` only (the memset tests) |
| Memory.AeabiMemclr | src/libc/memory/mod.rs:11-14 | the loop leaves memory equal to `Filled` of the old memory |
| Memory.AeabiMemset | src/libc/memory/mod.rs:16-19 | same result as `__aeabi_memclr` |
| Memory.Memset | src/libc/memory/mod.rs:32-37 | memory becomes `Filled` of the old memory; the older `memset` of src/libc/memory.rs (lines 10-13) has the same effect |
| Memory.LexCmp | src/libc/memory/mod.rs:78-88 | lexicographic order of two equal-length byte strings, always in -1..1 |
| Memory.LexCmpZeroIffEqual | src/libc/memory/mod.rs:103-107 | the comparison is 0 exactly when the strings are equal |
| Memory.LexCmpAtFirstDifference | src/libc/memory/mod.rs:78-88 | the comparison is the sign of the first differing byte pair |
| Memory.LexCmpAppend | src/libc/memory/mod.rs:117-134 | comparing concatenations: the prefixes decide unless they are equal |
| Memory.ComparedLength | src/libc/memory/mod.rs:113-130 | how many leading bytes `memcmp_t` examines: all when fewer than one word, otherwise only the whole words |
| Memory.ComparedLengthSkipsRemainder | src/libc/memory/mod.rs:128-130 | the bytes left unexamined are exactly `byte_cnt % size_of::<T>()` once a word exists |
| Memory.CompareBytes | src/libc/memory/mod.rs:121-124 | the byte loop returns the lexicographic comparison of the range |
| Memory.CompareWord | src/libc/memory/mod.rs:119-125 | one word step: the comparison of that word, 0 exactly when the words are equal |
| Memory.CompareWords | src/libc/memory/mod.rs:117-126 | the word loop returns the comparison of all the whole words |
| Memory.WordDecides | src/libc/memory/mod.rs:117-126 | the first differing word decides the comparison of the whole prefix |
| Memory.MemcmpT | src/libc/memory/mod.rs:108-136 | the result is the lexicographic comparison of the first `ComparedLength` bytes |
| Memory.Memcmp | src/libc/memory/mod.rs:95-97 | `memcmp_t::<usize>` with four-byte words |
| Memory.ByteStepComparesAll | src/libc/memory/mod.rs:108-136 | with one-byte steps every byte is compared |
| Memory.TailDifferenceUnreported | src/libc/memory/mod.rs:128-135 | regions equal on their whole words compare equal, whatever their tails hold |
| Memory.TailDifferenceExample | src/libc/memory/mod.rs:128-135 | a concrete pair of five-byte regions that differ in the tail yet compare 0 with four-byte words |
| Memory.Copied | src/libc/memory/mod.rs:260-266 | after the copy, the destination holds the old source bytes and nothing else changed |
| Memory.UsesMemmoveIffOverlap | src/libc/memory/mod.rs:261 | the overlap test picks the overlapping copy exactly when the two distinct regions share a byte |
| Memory.CopyMemory | src/libc/memory/mod.rs:262 | the overlapping copy's result is `Copied` of the old memory |
| Memory.CopyNonoverlappingMemory | src/libc/memory/mod.rs:264 | the non-overlapping copy, called only for regions the test calls disjoint, gives `Copied` |
| Memory.Memcpy | src/libc/memory/mod.rs:260-266 | the destination receives the old source bytes, even when the regions overlap; no other byte changes |
| Memory.CopyThenCompareEqual | src/libc/memory/mod.rs:270-278 | after copying between disjoint regions, `memcmp_t` reports them equal |
| Math.UIDivMod | src/libc/math.rs:15-27 | `quot * rhs + rem == lhs`, `(0, lhs)` when `lhs <= rhs`, and a remainder in `1..rhs` for `lhs > 0` |
| Math.UDivModAgainstEuclid | src/libc/math.rs:15-27 | against Euclidean division: equal off exact multiples; on them, one less quotient and remainder `rhs` |
| Math.RoundUpIsCeil | src/libc/math.rs:11 | `round_up` of a `__aeabi_uidivmod` result is the ceiling of `lhs / rhs` |
| Math.UCeil | src/os/mman/slab.rs:18-19 | `uceil(a, b)` is the least `r` with `r * b >= a` |
| Math.UCeilAtMost | src/os/mman/slab.rs:18-19 | the ceiling never exceeds the dividend and is 0 only for 0 |
| Math.CeilUnique | src/libc/math.rs:11 | only one value lies between the bounds that define the ceiling |
| Math.DivUnique | src/libc/math.rs:15-27 | quotient and remainder are unique once the remainder's range is fixed |
| Math.IDivMod | src/libc/math.rs:43-55 | `quot * rhs + rem == lhs`, `(0, lhs)` when `lhs <= rhs`, otherwise a positive quotient and a remainder in `1..rhs` |
| Math.UDivModResult.RoundUp | src/libc/math.rs:11 | the quotient, raised by one exactly when there is a remainder |
| Math.IDivModResult.RoundUp | src/libc/math.rs:39 | the quotient, raised by one exactly when the remainder is positive |
| Math.SignedRoundUp | src/libc/math.rs:39-55 | with a positive divisor, `round_up` of the signed result is the ceiling for a positive dividend but 0 for any dividend at or below 0, above the true ceiling from `-rhs` down |
| Math.SignedAgreesWithUnsigned | src/libc/math.rs:43-55 | on non-negative operands the signed helper returns what the unsigned one does |
| Bitmaps.MaskIsShift | src/libc/structures/bitmap.rs:90 | the mask table is `1 << k` |
| Bitmaps.UnmaskIsNotShift | src/libc/structures/bitmap.rs:172 | the inverted mask table is `!(1 << k)` |
| Bitmaps.BitOfIsDigit | src/libc/structures/bitmap.rs:63-66 | the bit test `val & (1 << k) > 0` reads binary digit `k` |
| Bitmaps.SetBitInByte | src/libc/structures/bitmap.rs:90 | OR-ing the mask sets bit `k` and keeps the other bits |
| Bitmaps.ClearBitInByte | src/libc/structures/bitmap.rs:172 | AND-ing the inverted mask clears bit `k` and keeps the other bits |
| Bitmaps.BitsOf | src/libc/structures/bitmap.rs:63-66 | the bit sequence of a byte region has eight bits per byte |
| Bitmaps.BitsOfAt | src/libc/structures/bitmap.rs:63-66 | bit `i` is bit `i % 8` of byte `i / 8` |
| Bitmaps.BitsOfStore | src/libc/structures/bitmap.rs:90 | storing the updated byte changes bit `i` only and moves the set-bit count by one at most |
| Bitmaps.StoreBit | src/libc/structures/bitmap.rs:90 | the same, for a byte stored into the bitmap's region of memory |
| Bitmaps.WithBit | src/libc/structures/bitmap.rs:90 | the new byte's bits are the old ones with bit `k` set |
| Bitmaps.WithoutBit | src/libc/structures/bitmap.rs:172 | the new byte's bits are the old ones with bit `k` clear |
| Bitmaps.BitsOfZeros | src/libc/structures/bitmap.rs:45-48 | zero bytes hold no set bit |
| Bitmaps.ZeroedRegion | src/libc/structures/bitmap.rs:45-48 | after memset with 0 the region's bits are all clear and count 0 |
| Bitmaps.Popcount | src/libc/structures/bitmap.rs:56-60 | the number of set bits is at most the number of bits |
| Bitmaps.PopcountPlusClearCount | src/libc/structures/bitmap.rs:60 | set and clear bits add up to the total |
| Bitmaps.PopcountUpdate | src/libc/structures/bitmap.rs:85-93 | writing one bit changes the set-bit count by that bit's change |
| Bitmaps.PopcountAppend | src/libc/structures/bitmap.rs:56-60 | the count of a concatenation is the sum of the counts |
| Bitmaps.PopcountAllClear | src/libc/structures/bitmap.rs:45-48 | an all-clear sequence counts 0 |
| Bitmaps.Assigned | src/libc/structures/bitmap.rs:140-146 | bits `lo..hi` take the value `v` and the rest are kept |
| Bitmaps.AssignedStep | src/libc/structures/bitmap.rs:142-144 | one more loop step extends the assigned range by one bit |
| Bitmaps.PopcountAssignedStep | src/libc/structures/bitmap.rs:142-144 | one step of a ranged set or clear moves the count by the one bit's change |
| Bitmaps.SetClearRun | src/libc/structures/bitmap.rs:286-297 | setting a run of clear bits raises the count by its length |
| Bitmaps.RangeStop | src/libc/structures/bitmap.rs:140-146 | where a ranged set or clear stops: at `index + count`, or at the first out-of-bounds index |
| Bitmaps.FirstFitFrom | src/libc/structures/bitmap.rs:247-269 | the first run of `count` clear bits at or after `from`; none when no such run exists |
| Bitmaps.FirstFit | src/libc/structures/bitmap.rs:247-269 | the first run of `count` clear bits; none for `count == 0` or when no run exists |
| Bitmaps.FirstFitIsUnique | src/libc/structures/bitmap.rs:247-269 | a start that is a run with no earlier run is the first fit |
| Bitmaps.ScanStep | src/libc/structures/bitmap.rs:254-265 | one step of the scan keeps its invariant and finds the first fit when the counter reaches `count` |
| Bitmaps.Bitmap.New | src/libc/structures/bitmap.rs:19-21 | a bitmap over `size` bytes has `8 * size` clear bits, `used == 0`, and no byte outside it changes |
| Bitmaps.Bitmap.FromIov | src/libc/structures/bitmap.rs:26-36 | the same, over the region `iov` |
| Bitmaps.Bitmap.ClearAll | src/libc/structures/bitmap.rs:45-48 | all bits clear, `used == 0`, and only the bitmap's bytes are written |
| Bitmaps.Bitmap.Free | src/libc/structures/bitmap.rs:60 | `free()` is the number of clear bits less the drift of `used`, so exactly the clear bits while `used` counts the set bits |
| Bitmaps.Bitmap.IsSet | src/libc/structures/bitmap.rs:63-66 | returns bit `index` of `Bits()` |
| Bitmaps.Bitmap.SetBit | src/libc/structures/bitmap.rs:90 | bit `index` becomes set; the set-bit count rises by one unless it was set |
| Bitmaps.Bitmap.ClearBit | src/libc/structures/bitmap.rs:172 | bit `index` becomes clear; the set-bit count falls by one if it was set |
| Bitmaps.Bitmap.Set | src/libc/structures/bitmap.rs:85-93 | succeeds exactly for in-range indices; then sets the bit and raises `used`, which drifts when the bit was already set; otherwise changes nothing |
| Bitmaps.Bitmap.CheckedSet | src/libc/structures/bitmap.rs:109-124 | out of bounds past `count()`, `AlreadySet` on a set bit, otherwise sets it; `used` keeps counting the set bits |
| Bitmaps.Bitmap.SetRange | src/libc/structures/bitmap.rs:140-146 | sets bits `index..stop` and raises `used` by their number; fails exactly when the range leaves the bitmap, after setting the in-range prefix |
| Bitmaps.Bitmap.Clear | src/libc/structures/bitmap.rs:167-175 | succeeds exactly for in-range indices; then clears the bit and lowers `used`, which drifts when the bit was already clear |
| Bitmaps.Bitmap.ClearRange | src/libc/structures/bitmap.rs:191-197 | clears bits `index..stop` and lowers `used` by their number; fails exactly when the range leaves the bitmap |
| Bitmaps.Bitmap.CheckedClear | src/libc/structures/bitmap.rs:212-227 | out of bounds past `count()`, `AlreadyClear` on a clear bit, otherwise clears it; `used` keeps counting the set bits |
| Bitmaps.Bitmap.Find | src/libc/structures/bitmap.rs:247-269 | returns the first run of `count` clear bits, or none |
| Bitmaps.Bitmap.ScanByte | src/libc/structures/bitmap.rs:255-265 | the inner loop over one byte's bits either finds the first fit or keeps the scan invariant |
| Bitmaps.Bitmap.SetFound | src/libc/structures/bitmap.rs:290-291 | setting a found run returns its start and marks exactly that run |
| Bitmaps.Bitmap.FindAndSet | src/libc/structures/bitmap.rs:286-297 | fails only when no run exists; otherwise marks the first run and returns its start, and `used` keeps counting the set bits |
| Bitmaps.Bitmap.BoundedFindAndSet | src/libc/structures/bitmap.rs:325-344 | `BoundTooLarge` when `bound >= count()`; otherwise the first fit, refused when it ends past `bound`, and set when it does not |
| Slab.PlanLayout | src/os/mman/slab.rs:16-52 | blocks and bitmap lie in the region without overlap; the blocks are whole; the bitmap has a bit for every block |
| Slab.LayoutArithmetic | src/os/mman/slab.rs:17-19 | the layout arithmetic: bitmap blocks never outnumber blocks, and the bitmap bytes fit in them |
| Slab.SplitBlocks | src/os/mman/slab.rs:43-44 | the bitmap blocks and the managed blocks together make up the whole blocks |
| Slab.LayoutDeadSpace | src/os/mman/slab.rs:176-182 | 4200 bytes in 1024-byte blocks give 4 blocks with the bitmap in the tail |
| Slab.LayoutDeadSpaceFive | src/os/mman/slab.rs:159-168 | 5125 bytes in 1024-byte blocks give 5 blocks with the bitmap in the tail |
| Slab.LayoutSmall | src/os/mman/slab.rs:216-222 | 64 bytes in 16-byte blocks give 3 blocks after one bitmap block |
| Slab.LayoutTwoBitmapBlocks | src/os/mman/slab.rs:226-232 | 1024 bytes in 8-byte blocks give 126 blocks after two bitmap blocks |
| Slab.LayoutFourBitmapBlocks | src/os/mman/slab.rs:235-240 | 512 bytes in 4-byte blocks give 124 blocks after four bitmap blocks |
| Slab.RunEnd | src/os/mman/slab.rs:105-110 | where the `free` loop stops: at the end of the range or at the first clear bit |
| Slab.RunEndIsRun | src/os/mman/slab.rs:105-110 | all bits before the stop are set, and the bit at the stop is not |
| Slab.RunWithinClearCount | src/os/mman/slab.rs:68 | a run of clear bits is no longer than the number of clear bits |
| Slab.FirstFitInPrefix | src/os/mman/slab.rs:71 | the first fit among the managed blocks is the whole bitmap's first fit if it ends in time |
| Slab.FreeUndoesAlloc | src/os/mman/slab.rs:87-113 | freeing a just-allocated run clears all of it and restores the previous bits |
| Slab.SlabAllocator.CountsAllocated | src/os/mman/slab.rs:120 | the bitmap's `used` counts the allocated blocks |
| Slab.SlabAllocator.constructor | src/os/mman/slab.rs:16-62 | zeroes the region, lays it out by `PlanLayout`, and allocates no block |
| Slab.SlabAllocator.Alloc | src/os/mman/slab.rs:67-78 | succeeds exactly when a run fits, then returns the memory of the first run and marks it; `used` rises by `block_count`; errors for too few free or too many blocks |
| Slab.SlabAllocator.NoFitBeyondFree | src/os/mman/slab.rs:68 | a request for more blocks than are free has no fit |
| Slab.SlabAllocator.AllocRun | src/os/mman/slab.rs:71-77 | the bounded search over the managed blocks returns the first run and its memory |
| Slab.SlabAllocator.Free | src/os/mman/slab.rs:87-113 | each alignment and count check gives its error; otherwise clears the allocated blocks from the first one up to the first free block, and fails if it stops early |
| Slab.SlabAllocator.ClearBlocks | src/os/mman/slab.rs:105-112 | the loop clears bits `first..stop` and lowers `used` by their number; it fails exactly when `stop` falls short |
| Slab.SlabAllocator.ClearNext | src/os/mman/slab.rs:106-109 | one loop step clears the next block or returns the error at the stop |
| Slab.SlabAllocator.ClearBlock | src/os/mman/slab.rs:106 | `checked_clear` on a block's bit |
| Slab.SlabAllocator.Blocks | src/os/mman/slab.rs:116 | the number of managed blocks, which fill the block region |
| Slab.SlabAllocator.FreeBlocks | src/os/mman/slab.rs:118 | the number of managed blocks not allocated |
| Slab.SlabAllocator.UsedBlocks | src/os/mman/slab.rs:120 | the number of allocated blocks |
| Slab.BlockRunWithin | src/os/mman/slab.rs:74-77 | the memory handed out for a run lies within the block region |
| RingBuffers.Window | src/libc/structures/ring_buffer.rs:99-117 | the last `size` values pushed, oldest first |
| RingBuffers.WindowPush | src/libc/structures/ring_buffer.rs:154-161 | a push appends to the window and drops the oldest value once the window is full |
| RingBuffers.CountingWindow | src/libc/structures/ring_buffer.rs:288-300 | after pushing `0..n`, position `i` holds `n - min(n, size) + i` |
| RingBuffers.HoldsPush | src/libc/structures/ring_buffer.rs:154-161 | writing the scribe's slot keeps every slot holding its latest push |
| RingBuffers.HoldsWindow | src/libc/structures/ring_buffer.rs:99-117 | the slot `get` reads holds the window's value at that position |
| RingBuffers.WindowSlotIs | src/libc/structures/ring_buffer.rs:112 | the window position maps to slot `(scribe + index) % size` once wrapped, to `index` before |
| RingBuffers.NewestSlot | src/libc/structures/ring_buffer.rs:188 | the slot before the scribe holds the last push |
| RingBuffers.ModDistinct | src/libc/structures/ring_buffer.rs:154-161 | pushes fewer than `size` apart go to different slots |
| RingBuffers.RingBuffer.New | src/libc/structures/ring_buffer.rs:16-23 | an empty buffer of `num_bytes / size_of::<T>()` slots |
| RingBuffers.RingBuffer.From | src/libc/structures/ring_buffer.rs:30-37 | an empty buffer whose size is the slice's length |
| RingBuffers.RingBuffer.Size | src/libc/structures/ring_buffer.rs:40-42 | the number of slots |
| RingBuffers.RingBuffer.Get | src/libc/structures/ring_buffer.rs:99-117 | succeeds exactly for indices within the contents and returns that oldest-first value; the two error cases |
| RingBuffers.RingBuffer.ScribePtr | src/libc/structures/ring_buffer.rs:123-125 | the slot of the next push, the push count modulo the size |
| RingBuffers.RingBuffer.Push | src/libc/structures/ring_buffer.rs:154-161 | writes the scribe's slot, advances and wraps the scribe, and the contents become the window with the value appended |
| RingBuffers.RingBuffer.Newest | src/libc/structures/ring_buffer.rs:183-195 | the last value pushed; an error exactly when nothing was pushed |
| RingBuffers.RingBuffer.Oldest | src/libc/structures/ring_buffer.rs:221-223 | the oldest value held, which is the first push until the buffer wraps; an error when empty |

## Left out

- The definition of `uceil` is not part of this model. The slab allocator imports it from `libc::math` (src/os/mman/slab.rs:1), and `Math.UCeil` models it as ceiling division, as the layout comments and tests at src/os/mman/slab.rs:216-232 expect.
- Null pointers are not modelled, so neither are the "received nullptr" errors of `get` and `newest`. A pointer is an offset into one array that always exists.
- Volatility of the intrinsics is not modelled, and neither is the byte-at-a-time behaviour of the copy intrinsics. `CopyMemory` and `CopyNonoverlappingMemory` state their results, not how the copy is done.
- The 32-bit widths of `usize` and `isize` are not modelled: integers are unbounded. Wrap-around of pointer offsets (`isize` casts in `memcmp_t` and `memcpy`) is not modelled.
- Reading a word as a value of type `T`: `memcmp_t` only tests words for equality, which the model does byte by byte (`WordsDiffer`). Word order is never used.
- `IOVec::new`, `IOVec::from_addr`, `convert_ptr`, `convert_mut_ptr` and `as_mut` are the datatype constructor and the identity on offsets, so they have no members of their own.
- `Bitmaps.Bitmap.Count` and `Bitmaps.Bitmap.Used` return fields and carry no contract.
- Math.UIDivMod: requires `rhs > 0` unless `lhs == 0`, because the loop never ends for `rhs == 0`.
- Math.IDivMod: requires `lhs <= rhs || rhs > 0`. For `rhs == 0 < lhs` the loop never ends. For `rhs < 0` with `lhs > rhs`, `iter - rhs` grows on every step until it overflows `isize`; the unbounded model cannot show that overflow, so that case is excluded.
- Bitmaps.Bitmap.Free: requires `used <= total`. Once `set` on already-set bits has pushed `used` past `total`, `total - used` underflows; the model gives no result for that state.
- Bitmaps.Bitmap.IsSet: requires `index < Count()`. For a larger index the source reads a byte past the bitmap, whose value the model does not know.
- Bitmaps.Bitmap.Set: requires `Count() > 0`, because `total - 1` underflows on an empty bitmap.
- Bitmaps.Bitmap.Clear: requires `Count() > 0` for the same reason, and `used > 0` for an in-range index, because `used -= 1` underflows.
- Bitmaps.Bitmap.SetRange: requires `Count() > 0` when `count > 0`, because it calls `set`.
- Bitmaps.Bitmap.ClearRange: requires `Count() > 0` when `count > 0`, and that `used` is at least the number of bits it clears, because `used -= 1` underflows.
- Bitmaps.Bitmap.CheckedSet: requires `index != Count()`. At that index the bound test `index > total` passes and the source writes the byte just past the bitmap.
- Bitmaps.Bitmap.CheckedClear: requires `index != Count()` for the same reason, and `used > 0` when the bit is set.
- Slab.SlabAllocator.Free: requires that `iov` does not start before the blocks, because the offset is an unsigned subtraction. It also requires `!FreeReachesBitmapEnd(iov)`, because `checked_clear(count())` reads past the bitmap.
- Slab.SlabAllocator.ClearBlock: has the same `index != Count()` requirement as `checked_clear`.
- RingBuffers.RingBuffer.Push: requires `Size() > 0`, because a buffer without slots writes out of bounds.
- RingBuffers.RingBuffer.Newest: requires `Size() > 0`, because `size() - 1` underflows.
- RingBuffers.RingBuffer.New: requires `elemSize > 0` (zero-sized `T` divides by zero in `size`) and takes the slot array as a parameter. Memory is not reinterpreted as values of `T`.
- RingBuffers.RingBuffer.From: requires `elemSize > 0` for the same reason, and a non-empty slice, because taking `&mem[0]` panics on an empty one.
- Memory.FromRange: requires `begin <= end`, because `end - begin` is an unsigned subtraction that underflows otherwise.
- Slab.SlabAllocator.constructor: requires `blockSize > 0`, because `new` divides by `block_size`.
- The tests' allocation-then-free sequences (the `alloc_all_and_free` tests) are covered by `Alloc`, `Free` and `FreeUndoesAlloc` for one run at a time. There is no lemma about a whole sequence of calls.
