/** The slab allocator of src/os/mman/slab.rs: a region cut into blocks of
    one size, with a bitmap holding one bit per block.

    The allocator's abstract value is `Allocated()`, the bits of the managed
    blocks. `Valid()` holds the invariant the public operations keep: the
    bitmap's count matches its set bits, and the bits past the managed
    blocks (the bitmap is a whole number of bytes) stay clear. */
module Slab {
  import opened Results
  import opened Memory
  import opened Math
  import opened Bitmaps

  //------------------------------------------------
  // layout
  //------------------------------------------------

  /** How `SlabAllocator::new` cuts up its region. */
  datatype Layout = Layout(blocks: IOVec, bitmap: IOVec, numBlocks: nat)

  /** `inner` lies inside `outer`. */
  predicate Within(inner: IOVec, outer: IOVec)
  {
    outer.ptr <= inner.ptr && inner.End() <= outer.End()
  }

  /** The two regions share no byte. */
  predicate Disjoint(a: IOVec, b: IOVec)
  {
    a.End() <= b.ptr || b.End() <= a.ptr
  }

  /** The layout computed by `SlabAllocator::new(iov, block_size)`. The region
      holds `size / block_size` whole blocks. The bitmap needs one bit per
      block, so `uceil(blocks, 8)` bytes, which take `uceil(bytes,
      block_size)` blocks. When that is one block and the bytes fit in the
      leftover tail of the region, the bitmap goes in the tail instead and
      every whole block is managed; otherwise the bitmap takes the leading
      blocks. Either way both parts lie in the region, they do not overlap,
      and the bitmap has a bit for every managed block and, unless there are
      none, at least one more. */
  function PlanLayout(iov: IOVec, blockSize: nat): (l: Layout)
    requires blockSize > 0
    ensures Within(l.blocks, iov) && Within(l.bitmap, iov) && Disjoint(l.blocks, l.bitmap)
    ensures l.blocks.size == l.numBlocks * blockSize
    ensures l.numBlocks < 8 * l.bitmap.size || l.numBlocks == l.bitmap.size == 0
  {
    var numBlocks := iov.size / blockSize;
    var bitmapBytes := UCeil(numBlocks, 8);
    var bitmapBlocks := UCeil(bitmapBytes, blockSize);
    var rem := iov.size % blockSize;
    LayoutArithmetic(iov.size, blockSize, numBlocks, bitmapBytes, bitmapBlocks);
    if bitmapBlocks == 1 && bitmapBytes < rem then
      Layout(IOVec(iov.ptr, iov.size - rem), IOVec(iov.ptr + (iov.size - rem), rem), numBlocks)
    else
      Layout(IOVec(iov.ptr + bitmapBlocks * blockSize, (numBlocks - bitmapBlocks) * blockSize),
             IOVec(iov.ptr, bitmapBytes),
             numBlocks - bitmapBlocks)
  }

  /** The facts `PlanLayout` rests on. */
  lemma LayoutArithmetic(size: nat, blockSize: nat, numBlocks: nat, bitmapBytes: nat, bitmapBlocks: nat)
    requires blockSize > 0 && numBlocks == size / blockSize
    requires bitmapBytes == UCeil(numBlocks, 8) && bitmapBlocks == UCeil(bitmapBytes, blockSize)
    ensures numBlocks * blockSize + size % blockSize == size
    ensures bitmapBlocks <= numBlocks && (bitmapBlocks == 0 <==> numBlocks == 0)
    ensures bitmapBytes <= bitmapBlocks * blockSize && numBlocks <= 8 * bitmapBytes
    ensures 0 <= (numBlocks - bitmapBlocks) * blockSize
    ensures (numBlocks - bitmapBlocks) * blockSize + bitmapBlocks * blockSize == numBlocks * blockSize
  {
    UCeilAtMost(numBlocks, 8);
    UCeilAtMost(bitmapBytes, blockSize);
    SplitBlocks(numBlocks, bitmapBlocks, blockSize);
  }

  /** Taking `k` of `n` blocks leaves `n - k` blocks' worth of bytes. */
  lemma SplitBlocks(n: nat, k: nat, blockSize: nat)
    requires k <= n
    ensures 0 <= (n - k) * blockSize
    ensures (n - k) * blockSize + k * blockSize == n * blockSize
  {
    var d: nat := n - k;
    assert (d + k) * blockSize == d * blockSize + k * blockSize;
  }

  /** The layouts the source's tests expect. 4200 bytes in blocks of 1024:
      four blocks, and the bitmap in the 104 bytes left over. */
  lemma LayoutDeadSpace()
    ensures PlanLayout(IOVec(0, 4200), 1024) == Layout(IOVec(0, 4096), IOVec(4096, 104), 4)
  {
    assert UCeil(4, 8) == 1;
    assert UCeil(1, 1024) == 1;
  }

  /** 5125 bytes in blocks of 1024: five blocks, the bitmap in the 5 bytes
      left over. */
  lemma LayoutDeadSpaceFive()
    ensures PlanLayout(IOVec(0, 5125), 1024) == Layout(IOVec(0, 5120), IOVec(5120, 5), 5)
  {
    assert UCeil(5, 8) == 1;
    assert UCeil(1, 1024) == 1;
  }

  /** 64 bytes in blocks of 16: no bytes left over, so the bitmap takes the
      first block and three remain. */
  lemma LayoutSmall()
    ensures PlanLayout(IOVec(0, 64), 16) == Layout(IOVec(16, 48), IOVec(0, 1), 3)
  {
    assert UCeil(4, 8) == 1;
    assert UCeil(1, 16) == 1;
  }

  /** 1024 bytes in blocks of 8: the 16 bitmap bytes take two blocks, 126
      remain. */
  lemma LayoutTwoBitmapBlocks()
    ensures PlanLayout(IOVec(0, 1024), 8) == Layout(IOVec(16, 1008), IOVec(0, 16), 126)
  {
    assert UCeil(128, 8) == 16;
    assert UCeil(16, 8) == 2;
  }

  /** 512 bytes in blocks of 4: the 16 bitmap bytes take four blocks, 124
      remain. */
  lemma LayoutFourBitmapBlocks()
    ensures PlanLayout(IOVec(0, 512), 4) == Layout(IOVec(16, 496), IOVec(0, 16), 124)
  {
    assert UCeil(128, 8) == 16;
    assert UCeil(16, 4) == 4;
  }

  //------------------------------------------------
  // runs of set bits
  //------------------------------------------------

  /** Where `free`'s loop of `checked_clear` calls over `lo..hi` stops: the
      first position that is clear or past the bits, else `hi`. */
  ghost function RunEnd(bits: seq<bool>, lo: nat, hi: nat): (stop: nat)
    decreases hi - lo
    ensures lo <= stop && (lo <= hi ==> stop <= hi)
  {
    if lo >= hi || lo >= |bits| || !bits[lo] then lo else RunEnd(bits, lo + 1, hi)
  }

  /** The bits from `lo` up to `RunEnd` are set, and the run stops before
      `hi` only at a clear bit or the end of the bits. */
  lemma {:induction false} RunEndIsRun(bits: seq<bool>, lo: nat, hi: nat)
    decreases hi - lo
    ensures var stop := RunEnd(bits, lo, hi);
            (stop > lo ==> stop <= |bits| && bits[stop - 1]) &&
            (forall j :: lo <= j < stop ==> bits[j]) &&
            (stop < hi ==> stop >= |bits| || !bits[stop])
  {
    if !(lo >= hi || lo >= |bits| || !bits[lo]) {
      RunEndIsRun(bits, lo + 1, hi);
    }
  }

  /** A run of set bits is the first fit of nothing: a set bit counts. */
  lemma PopcountPositive(bits: seq<bool>, j: nat)
    requires j < |bits| && bits[j]
    ensures Popcount(bits) >= 1
  {
    PopcountUpdate(bits, j, false);
  }

  /** A position inside the run is set and one past it, if before `hi`, is
      not: the run ends exactly at the first position that is not set. */
  lemma RunEndAt(bits: seq<bool>, lo: nat, hi: nat, p: nat)
    requires lo <= p < hi && p <= RunEnd(bits, lo, hi)
    ensures p < |bits| && bits[p] ==> p < RunEnd(bits, lo, hi)
    ensures !(p < |bits| && bits[p]) ==> p == RunEnd(bits, lo, hi)
  {
    RunEndIsRun(bits, lo, hi);
  }

  /** When the bits past `numBlocks` are clear, a run of set bits never
      reaches the end. */
  lemma RunEndShortOfEnd(bits: seq<bool>, lo: nat, hi: nat, numBlocks: nat)
    requires numBlocks < |bits| || numBlocks == |bits| == 0
    requires forall j :: numBlocks <= j < |bits| ==> !bits[j]
    ensures RunEnd(bits, lo, hi) > lo ==> RunEnd(bits, lo, hi) < |bits|
  {
    RunEndIsRun(bits, lo, hi);
  }

  /** A run of `count` clear bits means at least `count` clear bits. */
  lemma {:induction false} RunWithinClearCount(bits: seq<bool>, start: nat, count: nat)
    requires ClearRun(bits, start, count)
    ensures count <= |bits| - Popcount(bits)
  {
    var pre, run, post := bits[..start], bits[start..start + count], bits[start + count..];
    assert bits == pre + run + post;
    PopcountAppend(pre + run, post);
    PopcountAppend(pre, run);
    PopcountAllClear(run);
  }

  /** The first fit in a prefix of the bits: the first fit of the whole when
      it ends inside the prefix, otherwise none. */
  lemma FirstFitInPrefix(bits: seq<bool>, n: nat, count: nat)
    requires n <= |bits|
    ensures FirstFit(bits[..n], count) ==
            match FirstFit(bits, count)
            case None => None
            case Some(s) => if s + count <= n then Some(s) else None
  {
    var pre := bits[..n];
    var whole := FirstFit(bits, count);
    var part := FirstFit(pre, count);
    if part.Some? {
      var t := part.value;
      assert ClearRun(bits, t, count);
      if whole.Some? {
        var s := whole.value;
        if s < t {
          assert ClearRun(pre, s, count);
        }
        FirstFitIsUnique(pre, count, t);
      }
    } else if whole.Some? && whole.value + count <= n {
      assert ClearRun(pre, whole.value, count);
    }
  }

  /** The first `n` bits after a range inside them is assigned. */
  lemma AssignedPrefix(bits: seq<bool>, lo: nat, hi: nat, v: bool, n: nat)
    requires hi <= n <= |bits|
    ensures Assigned(bits, lo, hi, v)[..n] == Assigned(bits[..n], lo, hi, v)
  {
  }

  /** Freeing what was just allocated: the loop of `free` runs through the
      whole run, and clearing it restores the bits. */
  lemma {:induction false} FreeUndoesAlloc(bits: seq<bool>, start: nat, count: nat)
    requires ClearRun(bits, start, count)
    ensures RunEnd(Assigned(bits, start, start + count, true), start, start + count) == start + count
    ensures Assigned(Assigned(bits, start, start + count, true), start, start + count, false) == bits
  {
    RunEndIsRun(Assigned(bits, start, start + count, true), start, start + count);
  }

  //------------------------------------------------
  // the allocator
  //------------------------------------------------

  /** `SlabAllocator { blocks, bitmap, block_size, num_blocks }` over the
      memory `ram`. */
  class SlabAllocator {
    /** The memory the allocator's region lies in. */
    const ram: array<Byte>
    /** `blocks`: the managed blocks, one after another. */
    const blocks: IOVec
    /** `bitmap`: bit `i` is set when block `i` is allocated. */
    const bitmap: Bitmap
    /** `block_size`. */
    const blockSize: nat
    /** `num_blocks`: the number of managed blocks. */
    const numBlocks: nat

    ghost predicate Valid()
      reads this, bitmap, ram
    {
      bitmap.ram == ram && bitmap.Valid() && bitmap.Consistent() &&
      blockSize > 0 && blocks.size == numBlocks * blockSize && blocks.End() <= ram.Length &&
      Disjoint(blocks, bitmap.mem) &&
      (numBlocks < bitmap.Count() || numBlocks == bitmap.Count() == 0) &&
      forall j :: numBlocks <= j < bitmap.Count() ==> !bitmap.Bits()[j]
    }

    /** Which blocks are allocated. */
    ghost function Allocated(): (r: seq<bool>)
      reads this, bitmap, ram
      requires Valid()
      ensures |r| == numBlocks
    {
      bitmap.Bits()[..numBlocks]
    }

    /** Bytes of `ram` outside the bitmap are as in `before`. */
    ghost predicate OutsideBitmapUnchanged(before: seq<Byte>)
      reads this, bitmap, ram
      requires Valid()
    {
      bitmap.OutsideUnchanged(before)
    }

    /** The set bits are exactly the allocated blocks. */
    lemma CountsAllocated()
      requires Valid()
      ensures bitmap.used == Popcount(Allocated()) <= numBlocks
    {
      var bits := bitmap.Bits();
      var tail := bits[numBlocks..];
      assert bits == Allocated() + tail;
      PopcountAppend(Allocated(), tail);
      PopcountAllClear(tail);
    }

    /** `SlabAllocator::new(iov, block_size)`: zeroes the whole region and
        lays it out as `PlanLayout` says, with no block allocated. */
    constructor (ram: array<Byte>, iov: IOVec, blockSize: nat)
      requires iov.End() <= ram.Length && blockSize > 0
      modifies ram
      ensures Valid() && this.ram == ram && this.blockSize == blockSize && fresh(bitmap)
      ensures var l := PlanLayout(iov, blockSize);
              blocks == l.blocks && bitmap.mem == l.bitmap && numBlocks == l.numBlocks
      ensures Allocated() == seq(numBlocks, _ => false)
      ensures forall k :: iov.ptr <= k < iov.End() ==> ram[k] == 0
      ensures forall k :: 0 <= k < ram.Length && !(iov.ptr <= k < iov.End()) ==> ram[k] == old(ram[k])
    {
      var l := PlanLayout(iov, blockSize);
      Memset(ram, iov.ptr, 0, iov.size);
      this.ram := ram;
      blocks := l.blocks;
      bitmap := new Bitmap.FromIov(ram, l.bitmap);
      this.blockSize := blockSize;
      numBlocks := l.numBlocks;
    }

    /** `alloc(block_count)`: succeeds exactly when the managed blocks hold
        `blockCount` free blocks in a row, and then allocates the first such
        run and returns its memory. It refuses a request larger than the
        bitmap's free bits or than the heap before searching. */
    method Alloc(blockCount: nat) returns (r: Result<IOVec>)
      requires Valid()
      modifies bitmap, ram
      ensures Valid()
      ensures r.Ok? <==> old(FirstFit(Allocated(), blockCount)).Some?
      ensures r.Ok? ==>
                var s := old(FirstFit(Allocated(), blockCount)).value;
                r.value == BlockRun(blocks, blockSize, s, blockCount) && Within(r.value, blocks) &&
                Allocated() == Assigned(old(Allocated()), s, s + blockCount, true)
      ensures r.Ok? ==> bitmap.used == old(bitmap.used) + blockCount
      ensures blockCount > old(bitmap.Free()) ==> r == Err(InsufficientFree)
      ensures blockCount <= old(bitmap.Free()) && blockCount > numBlocks ==> r == Err(TooManyBlocks)
      ensures r.Err? ==> bitmap.used == old(bitmap.used) && unchanged(ram)
      ensures OutsideBitmapUnchanged(old(ram[..]))
    {
      if blockCount > bitmap.Free() {
        NoFitBeyondFree(blockCount);
        return Err(InsufficientFree);
      }
      if blockCount > numBlocks {
        return Err(TooManyBlocks);
      }
      r := AllocRun(blockCount);
    }

    /** More blocks than the bitmap has clear bits never fit. */
    lemma NoFitBeyondFree(blockCount: nat)
      requires Valid() && blockCount > bitmap.Free()
      ensures FirstFit(Allocated(), blockCount).None?
    {
      var fit := FirstFit(Allocated(), blockCount);
      if fit.Some? {
        assert ClearRun(bitmap.Bits(), fit.value, blockCount);
        RunWithinClearCount(bitmap.Bits(), fit.value, blockCount);
      }
    }

    /** The search of `alloc`: `bounded_find_and_set(block_count,
        num_blocks)`, which finds the first fit among the managed blocks
        because the bits past them are clear. */
    method AllocRun(blockCount: nat) returns (r: Result<IOVec>)
      requires Valid()
      modifies bitmap, ram
      ensures Valid()
      ensures r.Ok? <==> old(FirstFit(Allocated(), blockCount)).Some?
      ensures r.Ok? ==>
                var s := old(FirstFit(Allocated(), blockCount)).value;
                r.value == BlockRun(blocks, blockSize, s, blockCount) && Within(r.value, blocks) &&
                Allocated() == Assigned(old(Allocated()), s, s + blockCount, true)
      ensures r.Ok? ==> bitmap.used == old(bitmap.used) + blockCount
      ensures r.Err? ==> bitmap.used == old(bitmap.used) && unchanged(ram)
      ensures OutsideBitmapUnchanged(old(ram[..]))
    {
      ghost var bits := bitmap.Bits();
      FirstFitInPrefix(bits, numBlocks, blockCount);
      var found := bitmap.BoundedFindAndSet(blockCount, numBlocks);
      if found.Err? {
        return Err(found.error);
      }
      var s := found.value;
      AssignedPrefix(bits, s, s + blockCount, true, numBlocks);
      BlockRunWithin(blocks, blockSize, numBlocks, s, blockCount);
      return Ok(BlockRun(blocks, blockSize, s, blockCount));
    }

    /** The first block `free(iov)` clears. */
    ghost function FirstBlock(iov: IOVec): nat
      reads this
      requires iov.ptr >= blocks.ptr && blockSize > 0
    {
      (iov.ptr - blocks.ptr) / blockSize
    }

    /** The number of blocks `free(iov)` clears. */
    ghost function BlockCount(iov: IOVec): nat
      reads this
      requires blockSize > 0
    {
      iov.size / blockSize
    }

    /** `iov` passes the checks `free` makes before clearing bits: aligned
        pointer and size, no more blocks than are used or managed. */
    ghost predicate PassesFreeChecks(iov: IOVec)
      reads this, bitmap
      requires iov.ptr >= blocks.ptr && blockSize > 0
    {
      (iov.ptr - blocks.ptr) % blockSize == 0 && iov.size % blockSize == 0 &&
      BlockCount(iov) <= bitmap.used && BlockCount(iov) <= numBlocks
    }

    /** Where the run of allocated blocks that `free(iov)` clears ends: at
        the end of `iov`, or at the first block in it that is not allocated. */
    ghost function FreeStop(iov: IOVec): nat
      reads this, bitmap, ram
      requires Valid() && iov.ptr >= blocks.ptr
    {
      RunEnd(bitmap.Bits(), FirstBlock(iov), FirstBlock(iov) + BlockCount(iov))
    }

    /** `free(iov)` would call `checked_clear(count())`, whose bound test lets
        it read the byte after the bitmap. */
    ghost predicate FreeReachesBitmapEnd(iov: IOVec)
      reads this, bitmap
      requires iov.ptr >= blocks.ptr && blockSize > 0
    {
      PassesFreeChecks(iov) && BlockCount(iov) > 0 && FirstBlock(iov) == bitmap.Count()
    }

    /** `free(iov)`: checks alignment and size, then clears the bits of the
        blocks in order with `checked_clear`, stopping at the first block
        that is not allocated. The blocks cleared before such an error stay
        freed. `iov.ptr - blocks.ptr` is an unsigned subtraction, so `iov`
        must not start before the blocks. */
    method Free(iov: IOVec) returns (r: Result<()>)
      requires Valid() && iov.ptr >= blocks.ptr
      requires !FreeReachesBitmapEnd(iov)
      modifies bitmap, ram
      ensures Valid()
      ensures (iov.ptr - blocks.ptr) % blockSize != 0 ==> r == Err(UnalignedPtr)
      ensures (iov.ptr - blocks.ptr) % blockSize == 0 && iov.size % blockSize != 0 ==> r == Err(UnalignedSize)
      ensures ((iov.ptr - blocks.ptr) % blockSize == 0 && iov.size % blockSize == 0 &&
               iov.size / blockSize > old(bitmap.used)) ==> r == Err(FreeMoreThanUsed)
      ensures ((iov.ptr - blocks.ptr) % blockSize == 0 && iov.size % blockSize == 0 &&
               old(bitmap.used) >= iov.size / blockSize > numBlocks) ==> r == Err(FreeMoreThanHeap)
      ensures !old(PassesFreeChecks(iov)) ==> bitmap.used == old(bitmap.used) && unchanged(ram)
      ensures old(PassesFreeChecks(iov)) ==>
                var first, stop := FirstBlock(iov), old(FreeStop(iov));
                bitmap.Bits() == Assigned(old(bitmap.Bits()), first, stop, false) &&
                bitmap.used == old(bitmap.used) - (stop - first) &&
                (r.Ok? <==> stop == first + BlockCount(iov)) &&
                (r.Err? ==> r.error == if stop > bitmap.Count() then OutOfBounds else AlreadyClear)
      ensures OutsideBitmapUnchanged(old(ram[..]))
    {
      var offset := iov.ptr - blocks.ptr;
      if offset % blockSize != 0 {
        return Err(UnalignedPtr);
      }
      var firstBlock := offset / blockSize;
      if iov.size % blockSize != 0 {
        return Err(UnalignedSize);
      }
      var n := iov.size / blockSize;
      if n > bitmap.Used() {
        return Err(FreeMoreThanUsed);
      }
      if n > numBlocks {
        return Err(FreeMoreThanHeap);
      }
      assert FirstBlock(iov) == firstBlock && BlockCount(iov) == n;
      r := ClearBlocks(firstBlock, n, FreeStop(iov));
    }

    /** The loop of `free`: `checked_clear` on the `n` blocks from `first`,
        in order, up to the first error. */
    method ClearBlocks(first: nat, n: nat, ghost stop: nat) returns (r: Result<()>)
      requires Valid() && n <= bitmap.used && n <= numBlocks
      requires n > 0 ==> first != bitmap.Count()
      requires stop == RunEnd(bitmap.Bits(), first, first + n)
      modifies bitmap, ram
      ensures Valid()
      ensures bitmap.Bits() == Assigned(old(bitmap.Bits()), first, stop, false)
      ensures bitmap.used == old(bitmap.used) - (stop - first)
      ensures r.Ok? <==> stop == first + n
      ensures r.Err? ==> r.error == if stop > bitmap.Count() then OutOfBounds else AlreadyClear
      ensures OutsideBitmapUnchanged(old(ram[..]))
    {
      ghost var before := bitmap.Bits();
      RunEndShortOfEnd(before, first, first + n, numBlocks);
      assert n > 0 ==> first != |before|;
      assert Assigned(before, first, first, false) == before;
      for i := 0 to n
        invariant Cleared(before, old(ram[..]), old(bitmap.used), first, i) && first + i <= stop
      {
        var check := ClearNext(before, old(ram[..]), old(bitmap.used), first, n, i, stop);
        if check.Err? {
          return Err(check.error);
        }
      }
      return Ok(());
    }

    /** The state after `free`'s loop has cleared the `i` bits from `first`
        on: the bitmap is `before` with those bits cleared, `used` is `i`
        less than `used0`, and the memory outside the bitmap is as in
        `image`. */
    ghost predicate Cleared(before: seq<bool>, image: seq<Byte>, used0: nat, first: nat, i: nat)
      reads this, bitmap, ram
    {
      Valid() && bitmap.Bits() == Assigned(before, first, first + i, false) &&
      bitmap.used + i == used0 && OutsideBitmapUnchanged(image)
    }

    /** The `i`-th step of `free`'s loop, from the state the earlier steps
        leave: it clears the next bit of the run, or reports that the run
        ends there. */
    method ClearNext(ghost before: seq<bool>, ghost image: seq<Byte>, ghost used0: nat,
                     first: nat, n: nat, i: nat, ghost stop: nat)
      returns (r: Result<()>)
      requires Cleared(before, image, used0, first, i)
      requires i < n && first != |before| && stop == RunEnd(before, first, first + n)
      requires first + i <= stop && (stop > first ==> stop < |before|)
      modifies bitmap, ram
      ensures r.Ok? ==> first + i + 1 <= stop && Cleared(before, image, used0, first, i + 1)
      ensures r.Err? ==> stop == first + i && Cleared(before, image, used0, first, i) &&
                         r.error == if first + i > bitmap.Count() then OutOfBounds else AlreadyClear
    {
      RunEndAt(before, first, first + n, first + i);
      r := ClearBlock(first + i);
      if r.Ok? {
        AssignedStep(before, first, first + i, false);
      }
    }

    /** One step of `free`'s loop: `checked_clear(index)` on the bitmap,
        which keeps the allocator's invariant. */
    method ClearBlock(index: nat) returns (r: Result<()>)
      requires Valid() && index != bitmap.Count()
      modifies bitmap, ram
      ensures Valid()
      ensures index > bitmap.Count() ==> r == Err(OutOfBounds)
      ensures index < bitmap.Count() ==> r == if old(bitmap.Bits())[index] then Ok(()) else Err(AlreadyClear)
      ensures r.Err? ==> bitmap.used == old(bitmap.used) && unchanged(ram) && bitmap.Bits() == old(bitmap.Bits())
      ensures r.Ok? ==> bitmap.Bits() == old(bitmap.Bits())[index := false] && bitmap.used == old(bitmap.used) - 1
      ensures OutsideBitmapUnchanged(old(ram[..]))
    {
      if index < bitmap.Count() && bitmap.Bits()[index] {
        PopcountPositive(bitmap.Bits(), index);
      }
      r := bitmap.CheckedClear(index);
    }

    /** `blocks`: the number of managed blocks. */
    function Blocks(): (r: nat)
      reads this, bitmap, ram
      requires Valid()
      ensures r == |Allocated()| && r * blockSize == blocks.size
    {
      numBlocks
    }

    /** `free_blocks`: the bitmap's free bits less the bits that stand for
        no block; that is the number of unallocated blocks. */
    function FreeBlocks(): (r: nat)
      reads this, bitmap, ram
      requires Valid()
      ensures r == ClearCount(Allocated())
    {
      CountsAllocated();
      PopcountPlusClearCount(Allocated());
      bitmap.Free() - (bitmap.Count() - numBlocks)
    }

    /** `used_blocks`: the bitmap's count, which is the number of allocated
        blocks. */
    function UsedBlocks(): (r: nat)
      reads this, bitmap, ram
      requires Valid()
      ensures r == Popcount(Allocated())
    {
      CountsAllocated();
      bitmap.Used()
    }
  }

  /** The memory of the `count` blocks from block `s` of `blocks`. */
  function BlockRun(blocks: IOVec, blockSize: nat, s: nat, count: nat): IOVec
  {
    IOVec(blocks.ptr + s * blockSize, count * blockSize)
  }

  /** A run of blocks that are there lies inside the blocks. */
  lemma BlockRunWithin(blocks: IOVec, blockSize: nat, n: nat, s: nat, count: nat)
    requires blocks.size == n * blockSize && s + count <= n
    ensures Within(BlockRun(blocks, blockSize, s, count), blocks)
  {
    MulMonotone(s + count, n, blockSize);
  }
}
