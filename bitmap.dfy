/** The bit array of src/libc/structures/bitmap.rs: a region of memory read
    as bits, least significant bit of each byte first, with a count of the
    bits it has set.

    The class keeps the source's fields. Its abstract value is the sequence
    of bits `Bits()`; `Consistent()` says that `used` counts the set bits,
    which `set` and `clear` only keep when the bit was not already in the
    state they put it in. */
module Bitmaps {
  import opened Results
  import opened Memory

  //------------------------------------------------
  // bits of a byte
  //------------------------------------------------

  /** The mask of bit `k` of a byte, by cases. */
  function Mask(k: nat): Byte
    requires k < 8
  {
    match k
    case 0 => 0x01
    case 1 => 0x02
    case 2 => 0x04
    case 3 => 0x08
    case 4 => 0x10
    case 5 => 0x20
    case 6 => 0x40
    case _ => 0x80
  }

  /** The mask is the source's `1 << k`. */
  lemma MaskIsShift(k: nat)
    requires k < 8
    ensures Mask(k) == (1 as Byte) << (k as bv8)
  {
  }

  /** The inverted mask of bit `k`, by cases. */
  function Unmask(k: nat): Byte
    requires k < 8
  {
    match k
    case 0 => 0xFE
    case 1 => 0xFD
    case 2 => 0xFB
    case 3 => 0xF7
    case 4 => 0xEF
    case 5 => 0xDF
    case 6 => 0xBF
    case _ => 0x7F
  }

  /** The inverted mask is the source's `!(1 << k)`. */
  lemma UnmaskIsNotShift(k: nat)
    requires k < 8
    ensures Unmask(k) == !((1 as Byte) << (k as bv8))
  {
  }

  /** Bit `k` of byte `b`, counting from the least significant: set when
      `b` shares a bit with the mask. */
  function BitOf(b: Byte, k: nat): bool
    requires k < 8
  {
    b & Mask(k) != 0
  }

  /** Binary digit `k` of byte `b`, by shifting rather than masking. */
  lemma BitOfIsDigit(b: Byte, k: nat)
    requires k < 8
    ensures BitOf(b, k) == ((b >> (k as bv8)) & 1 == 1)
  {
  }

  /** Or-ing the mask in sets bit `k` and no other. */
  lemma SetBitInByte(b: Byte, k: nat, j: nat)
    requires k < 8 && j < 8
    ensures BitOf(b | Mask(k), j) == (j == k || BitOf(b, j))
  {
  }

  /** And-ing the inverted mask in clears bit `k` and no other. */
  lemma ClearBitInByte(b: Byte, k: nat, j: nat)
    requires k < 8 && j < 8
    ensures BitOf(b & Unmask(k), j) == (j != k && BitOf(b, j))
  {
  }

  /** A zero byte has no bit set. */
  lemma ZeroByte(j: nat)
    requires j < 8
    ensures !BitOf(0, j)
  {
  }

  //------------------------------------------------
  // bit sequences
  //------------------------------------------------

  /** The eight bits of a byte, least significant first. */
  function ByteBits(b: Byte): (r: seq<bool>)
    ensures |r| == 8
  {
    seq(8, k requires 0 <= k < 8 => BitOf(b, k))
  }

  /** The bits of a run of bytes, byte after byte. */
  function BitsOf(bytes: seq<Byte>): (r: seq<bool>)
    ensures |r| == 8 * |bytes|
  {
    if |bytes| == 0 then [] else BitsOf(bytes[..|bytes| - 1]) + ByteBits(bytes[|bytes| - 1])
  }

  /** Bit `i` of a run of bytes is bit `i % 8` of byte `i / 8`. */
  lemma {:induction false} BitsOfAt(bytes: seq<Byte>, i: nat)
    requires i < 8 * |bytes|
    ensures BitsOf(bytes)[i] == BitOf(bytes[i / 8], i % 8)
  {
    var n := |bytes|;
    if i < 8 * (n - 1) {
      BitsOfAt(bytes[..n - 1], i);
    }
  }

  /** Bit `j` after one byte of `bytes` is replaced by `v`: bit `j % 8`
      of `v` when `j` lies in that byte, otherwise as before. */
  lemma BitsOfByteUpdate(bytes: seq<Byte>, k: nat, v: Byte, j: nat)
    requires k < |bytes| && j < 8 * |bytes|
    ensures BitsOf(bytes[k := v])[j] == if j / 8 == k then BitOf(v, j % 8) else BitsOf(bytes)[j]
  {
    BitsOfAt(bytes[k := v], j);
    BitsOfAt(bytes, j);
  }

  /** Setting bit `k` of a byte, as a change to its eight bits. */
  lemma SetByteBits(b: Byte, k: nat)
    requires k < 8
    ensures ByteBits(b | Mask(k)) == ByteBits(b)[k := true]
  {
    var x, y := ByteBits(b | Mask(k)), ByteBits(b)[k := true];
    forall j | 0 <= j < 8
      ensures x[j] == y[j]
    {
      SetBitInByte(b, k, j);
    }
  }

  /** Clearing bit `k` of a byte, as a change to its eight bits. */
  lemma ClearByteBits(b: Byte, k: nat)
    requires k < 8
    ensures ByteBits(b & Unmask(k)) == ByteBits(b)[k := false]
  {
    var x, y := ByteBits(b & Unmask(k)), ByteBits(b)[k := false];
    forall j | 0 <= j < 8
      ensures x[j] == y[j]
    {
      ClearBitInByte(b, k, j);
    }
  }

  /** Replacing the byte that holds bit `i` by one that differs from it in
      that bit alone changes bit `i` of the run, and its count by at most
      one, and nothing else. */
  lemma BitsOfStore(bytes: seq<Byte>, i: nat, v: Byte, bit: bool)
    requires i < 8 * |bytes|
    requires ByteBits(v) == ByteBits(bytes[i / 8])[i % 8 := bit]
    ensures BitsOf(bytes[i / 8 := v]) == BitsOf(bytes)[i := bit]
    ensures Popcount(BitsOf(bytes[i / 8 := v])) ==
            Popcount(BitsOf(bytes)) - (if BitsOf(bytes)[i] then 1 else 0) + (if bit then 1 else 0)
  {
    var x, y := BitsOf(bytes[i / 8 := v]), BitsOf(bytes)[i := bit];
    forall j | 0 <= j < |x|
      ensures x[j] == y[j]
    {
      BitsOfByteUpdate(bytes, i / 8, v, j);
      if j / 8 == i / 8 {
        BitsOfAt(bytes, j);
        assert ByteBits(v)[j % 8] == BitOf(v, j % 8);
        assert j == i <==> j % 8 == i % 8;
      }
    }
    PopcountUpdate(BitsOf(bytes), i, bit);
  }

  /** Storing one byte of memory changes the same byte of any slice that
      covers it. */
  lemma StoreInSlice(mem: seq<Byte>, lo: nat, hi: nat, p: nat, v: Byte)
    requires lo <= p < hi <= |mem|
    ensures mem[p := v][lo..hi] == mem[lo..hi][p - lo := v]
  {
  }

  /** `BitsOfStore` for a bitmap at `lo..hi` of memory: the byte of memory
      that holds bit `i` is replaced. */
  lemma StoreBit(mem: seq<Byte>, lo: nat, hi: nat, i: nat, v: Byte, bit: bool)
    requires lo <= hi <= |mem| && i < 8 * (hi - lo)
    requires ByteBits(v) == ByteBits(mem[lo + i / 8])[i % 8 := bit]
    ensures lo + i / 8 < hi
    ensures BitsOf(mem[lo + i / 8 := v][lo..hi]) == BitsOf(mem[lo..hi])[i := bit]
    ensures Popcount(BitsOf(mem[lo + i / 8 := v][lo..hi])) ==
            Popcount(BitsOf(mem[lo..hi])) - (if BitsOf(mem[lo..hi])[i] then 1 else 0) + (if bit then 1 else 0)
  {
    StoreInSlice(mem, lo, hi, lo + i / 8, v);
    BitsOfStore(mem[lo..hi], i, v, bit);
  }

  /** The byte `x | (1 << k)`: bit `k` set, the others as in `x`. */
  method WithBit(x: Byte, k: nat) returns (r: Byte)
    requires k < 8
    ensures ByteBits(r) == ByteBits(x)[k := true]
  {
    r := x | Mask(k);
    SetByteBits(x, k);
  }

  /** The byte `x & !(1 << k)`: bit `k` clear, the others as in `x`. */
  method WithoutBit(x: Byte, k: nat) returns (r: Byte)
    requires k < 8
    ensures ByteBits(r) == ByteBits(x)[k := false]
  {
    r := x & Unmask(k);
    ClearByteBits(x, k);
  }

  /** Zeroed bytes hold no set bit. */
  lemma BitsOfZeros(bytes: seq<Byte>)
    requires forall k :: 0 <= k < |bytes| ==> bytes[k] == 0
    ensures BitsOf(bytes) == seq(8 * |bytes|, _ => false)
  {
    var x := BitsOf(bytes);
    forall j | 0 <= j < |x|
      ensures !x[j]
    {
      BitsOfAt(bytes, j);
      ZeroByte(j % 8);
    }
  }

  /** The number of set bits. */
  function Popcount(bits: seq<bool>): (n: nat)
    ensures n <= |bits|
  {
    if |bits| == 0 then 0
    else Popcount(bits[..|bits| - 1]) + if bits[|bits| - 1] then 1 else 0
  }

  /** The number of clear bits. */
  function ClearCount(bits: seq<bool>): nat
  {
    if |bits| == 0 then 0
    else ClearCount(bits[..|bits| - 1]) + if bits[|bits| - 1] then 0 else 1
  }

  /** Every bit is set or clear. */
  lemma {:induction false} PopcountPlusClearCount(bits: seq<bool>)
    ensures Popcount(bits) + ClearCount(bits) == |bits|
  {
    if |bits| > 0 {
      PopcountPlusClearCount(bits[..|bits| - 1]);
    }
  }

  /** Changing one bit changes the count by at most one, as the bit says. */
  lemma {:induction false} PopcountUpdate(bits: seq<bool>, i: nat, v: bool)
    requires i < |bits|
    ensures Popcount(bits[i := v]) ==
            Popcount(bits) - (if bits[i] then 1 else 0) + (if v then 1 else 0)
  {
    var n := |bits|;
    var after := bits[i := v];
    if i == n - 1 {
      assert after[..n - 1] == bits[..n - 1];
    } else {
      assert after[..n - 1] == bits[..n - 1][i := v];
      PopcountUpdate(bits[..n - 1], i, v);
    }
  }

  /** The count of a concatenation is the sum of the counts. */
  lemma {:induction false} PopcountAppend(a: seq<bool>, b: seq<bool>)
    ensures Popcount(a + b) == Popcount(a) + Popcount(b)
  {
    if |b| == 0 {
      assert a + b == a;
    } else {
      assert (a + b)[..|a + b| - 1] == a + b[..|b| - 1];
      PopcountAppend(a, b[..|b| - 1]);
    }
  }

  /** No set bit, no count. */
  lemma {:induction false} PopcountAllClear(bits: seq<bool>)
    requires forall j :: 0 <= j < |bits| ==> !bits[j]
    ensures Popcount(bits) == 0
  {
    if |bits| > 0 {
      PopcountAllClear(bits[..|bits| - 1]);
    }
  }

  /** Zeroing `n` bytes of memory from `lo` on leaves them zero and their
      bits all clear. */
  lemma ZeroedRegion(mem: seq<Byte>, lo: nat, n: nat)
    requires lo + n <= |mem|
    ensures forall k :: lo <= k < lo + n ==> Filled(mem, lo, 0, n)[k] == 0
    ensures BitsOf(Filled(mem, lo, 0, n)[lo..lo + n]) == seq(8 * n, _ => false)
    ensures Popcount(BitsOf(Filled(mem, lo, 0, n)[lo..lo + n])) == 0
  {
    var bytes := Filled(mem, lo, 0, n)[lo..lo + n];
    assert forall k :: 0 <= k < |bytes| ==> bytes[k] == Filled(mem, lo, 0, n)[lo + k];
    BitsOfZeros(bytes);
    PopcountAllClear(BitsOf(bytes));
  }

  /** `bits` with the positions `lo..hi` that it has replaced by `v`. */
  function Assigned(bits: seq<bool>, lo: nat, hi: nat, v: bool): (r: seq<bool>)
    ensures |r| == |bits|
    ensures forall j :: 0 <= j < |bits| ==> r[j] == if lo <= j < hi then v else bits[j]
  {
    seq(|bits|, j requires 0 <= j < |bits| => if lo <= j < hi then v else bits[j])
  }

  lemma AssignedStep(bits: seq<bool>, lo: nat, hi: nat, v: bool)
    requires lo <= hi < |bits|
    ensures Assigned(bits, lo, hi, v)[hi := v] == Assigned(bits, lo, hi + 1, v)
  {
    assert Assigned(bits, lo, hi, v)[hi := v] == Assigned(bits, lo, hi + 1, v);
  }

  /** Extending the assigned range by one position changes the count as
      that one bit changes. */
  lemma PopcountAssignedStep(bits: seq<bool>, lo: nat, hi: nat, v: bool)
    requires lo <= hi < |bits|
    ensures Popcount(Assigned(bits, lo, hi + 1, v)) + (if bits[hi] then 1 else 0) ==
            Popcount(Assigned(bits, lo, hi, v)) + (if v then 1 else 0)
  {
    var prev := Assigned(bits, lo, hi, v);
    AssignedStep(bits, lo, hi, v);
    assert prev[hi] == bits[hi];
    PopcountUpdate(prev, hi, v);
  }

  /** Setting a run of clear bits adds its length to the count. */
  lemma {:induction false} SetClearRun(bits: seq<bool>, start: nat, count: nat)
    requires start + count <= |bits|
    requires forall j :: start <= j < start + count ==> !bits[j]
    ensures Popcount(Assigned(bits, start, start + count, true)) == Popcount(bits) + count
  {
    if count == 0 {
      assert Assigned(bits, start, start, true) == bits;
    } else {
      SetClearRun(bits, start, count - 1);
      PopcountAssignedStep(bits, start, start + count - 1, true);
    }
  }

  /** Where a loop over `index..index + count` that stops at the first
      position outside `0..total` has got to. */
  function RangeStop(index: nat, count: nat, total: nat): (stop: nat)
    ensures index <= stop <= index + count
  {
    if index + count <= total then index + count
    else if index < total then total
    else index
  }

  //------------------------------------------------
  // runs of clear bits
  //------------------------------------------------

  /** `count` clear bits from `start` on, inside the sequence. */
  ghost predicate ClearRun(bits: seq<bool>, start: nat, count: nat)
  {
    start + count <= |bits| && forall j :: start <= j < start + count ==> !bits[j]
  }

  /** `start` begins the first run of `count` clear bits. */
  ghost predicate IsFirstFit(bits: seq<bool>, count: nat, start: nat)
  {
    ClearRun(bits, start, count) && forall s: nat :: s < start ==> !ClearRun(bits, s, count)
  }

  /** No run of `count` clear bits exists. */
  ghost predicate NoFit(bits: seq<bool>, count: nat)
  {
    forall s: nat :: !ClearRun(bits, s, count)
  }

  /** The first run of `count` clear bits starting at `from` or later. */
  ghost function FirstFitFrom(bits: seq<bool>, count: nat, from: nat): (r: Option<nat>)
    decreases |bits| - from
    ensures r.Some? ==> from <= r.value && ClearRun(bits, r.value, count) &&
                        forall s: nat :: from <= s < r.value ==> !ClearRun(bits, s, count)
    ensures r.None? ==> forall s: nat :: from <= s ==> !ClearRun(bits, s, count)
  {
    if from + count > |bits| then None
    else if ClearRun(bits, from, count) then Some(from)
    else FirstFitFrom(bits, count, from + 1)
  }

  /** What `find(count)` is to return: the start of the first run of
      `count` clear bits; never a run of zero bits. */
  ghost function FirstFit(bits: seq<bool>, count: nat): (r: Option<nat>)
    ensures r.Some? ==> count > 0 && IsFirstFit(bits, count, r.value)
    ensures r.None? ==> count == 0 || NoFit(bits, count)
  {
    if count == 0 then None else FirstFitFrom(bits, count, 0)
  }

  /** A first fit is the one `FirstFit` returns. */
  lemma FirstFitIsUnique(bits: seq<bool>, count: nat, start: nat)
    requires count > 0 && IsFirstFit(bits, count, start)
    ensures FirstFit(bits, count) == Some(start)
  {
  }

  /** The state of `find`'s scan after the first `p` bits: `contig` is the
      length of the run of clear bits ending at `p`, which starts at
      `first`, and is shorter than `count`; no run of `count` clear bits
      ends at or before `p`. */
  ghost predicate ScanState(bits: seq<bool>, count: nat, p: nat, contig: nat, first: nat)
  {
    p <= |bits| && contig <= p &&
    (count > 0 ==> contig < count) &&
    ClearRun(bits, p - contig, contig) &&
    (p - contig > 0 ==> bits[p - contig - 1]) &&
    (contig > 0 ==> first == p - contig) &&
    (count > 0 ==> forall s: nat :: s + count <= p ==> !ClearRun(bits, s, count))
  }

  /** One step of the scan: a set bit ends the run; a clear bit lengthens
      it and, at `count`, completes the first fit. */
  lemma ScanStep(bits: seq<bool>, count: nat, p: nat, contig: nat, first: nat)
    requires ScanState(bits, count, p, contig, first) && p < |bits|
    ensures bits[p] ==> ScanState(bits, count, p + 1, 0, first)
    ensures !bits[p] ==>
              var first' := if contig == 0 then p else first;
              if contig + 1 == count then IsFirstFit(bits, count, first')
              else ScanState(bits, count, p + 1, contig + 1, first')
  {
    if bits[p] {
      forall s: nat | s + count <= p + 1 && count > 0
        ensures !ClearRun(bits, s, count)
      {
        if s + count == p + 1 {
          assert s <= p < s + count;
        }
      }
    } else {
      var first' := p - contig;
      assert ClearRun(bits, first', contig + 1);
      if contig + 1 < count {
        forall s: nat | s + count <= p + 1
          ensures !ClearRun(bits, s, count)
        {
          if s + count == p + 1 {
            assert s <= first' - 1 < s + count && bits[first' - 1];
          }
        }
      } else if contig + 1 == count {
        forall s: nat | s < first'
          ensures !ClearRun(bits, s, count)
        {
          assert s + count <= p;
        }
      }
    }
  }

  //------------------------------------------------
  // the bitmap
  //------------------------------------------------

  /** `Bitmap { mem, total, used }` over the memory `ram`. */
  class Bitmap {
    /** The memory the bitmap's bytes live in. */
    const ram: array<Byte>
    /** `mem`: the bitmap's bytes. */
    const mem: IOVec
    /** `total`: the number of bits, eight per byte. */
    const total: nat
    /** `used`: the count that `set` raises and `clear` lowers. */
    var used: nat

    ghost predicate Valid()
      reads this
    {
      mem.End() <= ram.Length && total == 8 * mem.size
    }

    /** The bitmap's bits, in index order. */
    ghost function Bits(): (r: seq<bool>)
      reads this, ram
      requires Valid()
      ensures |r| == total
    {
      BitsOf(ram[mem.ptr..mem.End()])
    }

    /** `used` counts the set bits. */
    ghost predicate Consistent()
      reads this, ram
      requires Valid()
    {
      used == Popcount(Bits())
    }

    /** How far `used` is from the number of set bits. */
    ghost function Drift(): int
      reads this, ram
      requires Valid()
    {
      used - Popcount(Bits())
    }

    /** Every byte of `ram` outside the bitmap is as in `before`. */
    ghost predicate OutsideUnchanged(before: seq<Byte>)
      reads this, ram
      requires Valid()
    {
      |before| == ram.Length &&
      forall k :: 0 <= k < ram.Length && !(mem.ptr <= k < mem.End()) ==> ram[k] == before[k]
    }

    /** `Bitmap::new(addr, size)`: `from_iov` on the region. */
    constructor New(ram: array<Byte>, addr: nat, size: nat)
      requires addr + size <= ram.Length
      modifies ram
      ensures this.ram == ram && mem == IOVec(addr, size) && Valid()
      ensures total == 8 * size && used == 0
      ensures Bits() == seq(total, _ => false) && Consistent()
      ensures forall k :: mem.ptr <= k < mem.End() ==> ram[k] == 0
      ensures OutsideUnchanged(old(ram[..]))
    {
      this.ram := ram;
      mem := IOVec(addr, size);
      total := size * 8;
      used := 0;
      new;
      ClearAll();
    }

    /** `Bitmap::from_iov(iov)`: `size * 8` bits, all cleared. */
    constructor FromIov(ram: array<Byte>, iov: IOVec)
      requires iov.End() <= ram.Length
      modifies ram
      ensures this.ram == ram && mem == iov && Valid()
      ensures total == 8 * iov.size && used == 0
      ensures Bits() == seq(total, _ => false) && Consistent()
      ensures forall k :: mem.ptr <= k < mem.End() ==> ram[k] == 0
      ensures OutsideUnchanged(old(ram[..]))
    {
      this.ram := ram;
      mem := iov;
      total := iov.size * 8;
      used := 0;
      new;
      ClearAll();
    }

    /** `clear_all`: zero the count and every byte of the bitmap. */
    method ClearAll()
      requires Valid()
      modifies this`used, ram
      ensures Valid() && used == 0
      ensures Bits() == seq(total, _ => false) && Consistent()
      ensures forall k :: mem.ptr <= k < mem.End() ==> ram[k] == 0
      ensures OutsideUnchanged(old(ram[..]))
    {
      used := 0;
      ghost var image := ram[..];
      Memset(ram, mem.ptr, 0, mem.size);
      ZeroedRegion(image, mem.ptr, mem.size);
    }

    /** `count`: the number of bits. */
    function Count(): nat
      reads this
    {
      total
    }

    /** `used`: the count of bits set so far. */
    function Used(): nat
      reads this
    {
      used
    }

    /** `free`: `total - used`, an unsigned subtraction. While `used` counts
        the set bits this is the number of clear bits; otherwise it is off
        from that number by exactly the drift of `used`. */
    function Free(): (r: nat)
      reads this, ram
      requires Valid() && used <= total
      ensures r + Drift() == ClearCount(Bits())
      ensures Consistent() ==> r == ClearCount(Bits())
    {
      PopcountPlusClearCount(Bits());
      total - used
    }

    /** `is_set(index)`: the bit at `index`. The source reads past the
        bitmap for `index >= count()`; the model demands a bit that exists. */
    function IsSet(index: nat): (r: bool)
      reads this, ram
      requires Valid() && index < Count()
      ensures r == Bits()[index]
    {
      BitsOfAt(ram[mem.ptr..mem.End()], index);
      ram[mem.ptr + index / 8] & Mask(index % 8) != 0
    }

    /** The store `*byte |= 1 << (index % 8)` shared by `set` and
        `checked_set`. */
    method SetBit(index: nat)
      requires Valid() && index < Count()
      modifies ram
      ensures Valid() && Bits() == old(Bits())[index := true]
      ensures Popcount(Bits()) == old(Popcount(Bits())) + if old(Bits())[index] then 0 else 1
      ensures OutsideUnchanged(old(ram[..]))
    {
      ghost var image := ram[..];
      var p := mem.ptr + index / 8;
      var b := WithBit(ram[p], index % 8);
      ram[p] := b;
      assert ram[..] == image[p := b];
      StoreBit(image, mem.ptr, mem.End(), index, b, true);
    }

    /** The store `*byte &= !(1 << (index % 8))` shared by `clear` and
        `checked_clear`. */
    method ClearBit(index: nat)
      requires Valid() && index < Count()
      modifies ram
      ensures Valid() && Bits() == old(Bits())[index := false]
      ensures Popcount(Bits()) == old(Popcount(Bits())) - if old(Bits())[index] then 1 else 0
      ensures OutsideUnchanged(old(ram[..]))
    {
      ghost var image := ram[..];
      var p := mem.ptr + index / 8;
      var b := WithoutBit(ram[p], index % 8);
      ram[p] := b;
      assert ram[..] == image[p := b];
      StoreBit(image, mem.ptr, mem.End(), index, b, false);
    }

    /** `set(index)`: an index past the last bit is an error; otherwise the
        bit is set and `used` goes up by one even when the bit was already
        set. `total - 1` is an unsigned subtraction, so the bitmap must have
        a bit. */
    method Set(index: nat) returns (r: Result<()>)
      requires Valid() && Count() > 0
      modifies this`used, ram
      ensures Valid()
      ensures r.Ok? <==> index < Count()
      ensures r.Err? ==> r.error == OutOfBounds && used == old(used) && unchanged(ram)
      ensures r.Ok? ==> Bits() == old(Bits())[index := true] && used == old(used) + 1
      ensures OutsideUnchanged(old(ram[..]))
      ensures Drift() == old(Drift()) + if r.Ok? && old(Bits())[index] then 1 else 0
    {
      if index > total - 1 {
        return Err(OutOfBounds);
      }
      SetBit(index);
      used := used + 1;
      return Ok(());
    }

    /** `checked_set(index)`: refuses an index past the bitmap and a bit
        that is already set. Its bound test `index > total` lets `index ==
        total` through to a byte past the bitmap; the model excludes it. */
    method CheckedSet(index: nat) returns (r: Result<()>)
      requires Valid() && index != Count()
      modifies this`used, ram
      ensures Valid()
      ensures index > Count() ==> r == Err(OutOfBounds)
      ensures index < Count() ==> r == if old(Bits())[index] then Err(AlreadySet) else Ok(())
      ensures r.Err? ==> used == old(used) && unchanged(ram)
      ensures r.Ok? ==> Bits() == old(Bits())[index := true] && used == old(used) + 1
      ensures OutsideUnchanged(old(ram[..]))
      ensures Drift() == old(Drift())
    {
      if index > total {
        return Err(OutOfBounds);
      }
      // `*ptr & mask != 0` is the test `is_set` makes
      if IsSet(index) {
        return Err(AlreadySet);
      }
      SetBit(index);
      used := used + 1;
      return Ok(());
    }

    /** `set_range(index, count)`: `set` on `index..index + count` in order,
        stopping at the first error. The bits set before the error stay set. */
    method SetRange(index: nat, count: nat) returns (r: Result<()>)
      requires Valid() && (count > 0 ==> Count() > 0)
      modifies this`used, ram
      ensures Valid()
      ensures r.Ok? <==> count == 0 || index + count <= Count()
      ensures r.Err? ==> r.error == OutOfBounds
      ensures var stop := RangeStop(index, count, Count());
              Bits() == Assigned(old(Bits()), index, stop, true) && used == old(used) + (stop - index)
      ensures OutsideUnchanged(old(ram[..]))
    {
      ghost var before := Bits();
      for i := index to index + count
        invariant Valid() && OutsideUnchanged(old(ram[..]))
        invariant i <= Count() || i == index
        invariant Bits() == Assigned(before, index, i, true)
        invariant used == old(used) + (i - index)
      {
        r := Set(i);
        if r.Err? {
          return;
        }
        AssignedStep(before, index, i, true);
      }
      return Ok(());
    }

    /** `clear(index)`: an index past the last bit is an error; otherwise the
        bit is cleared and `used` goes down by one even when the bit was
        already clear. Both subtractions are unsigned: the bitmap must have
        a bit, and `used` must be positive when it is decremented. */
    method Clear(index: nat) returns (r: Result<()>)
      requires Valid() && Count() > 0 && (index < Count() ==> used > 0)
      modifies this`used, ram
      ensures Valid()
      ensures r.Ok? <==> index < Count()
      ensures r.Err? ==> r.error == OutOfBounds && used == old(used) && unchanged(ram)
      ensures r.Ok? ==> Bits() == old(Bits())[index := false] && used == old(used) - 1
      ensures OutsideUnchanged(old(ram[..]))
      ensures Drift() == old(Drift()) - if r.Ok? && !old(Bits())[index] then 1 else 0
    {
      if index > total - 1 {
        return Err(OutOfBounds);
      }
      ClearBit(index);
      used := used - 1;
      return Ok(());
    }

    /** `clear_range(index, count)`: `clear` on `index..index + count` in
        order, stopping at the first error. `used` must cover every
        decrement. */
    method ClearRange(index: nat, count: nat) returns (r: Result<()>)
      requires Valid() && (count > 0 ==> Count() > 0)
      requires used >= RangeStop(index, count, Count()) - index
      modifies this`used, ram
      ensures Valid()
      ensures r.Ok? <==> count == 0 || index + count <= Count()
      ensures r.Err? ==> r.error == OutOfBounds
      ensures var stop := RangeStop(index, count, Count());
              Bits() == Assigned(old(Bits()), index, stop, false) && used == old(used) - (stop - index)
      ensures OutsideUnchanged(old(ram[..]))
    {
      ghost var before := Bits();
      ghost var stop := RangeStop(index, count, Count());
      for i := index to index + count
        invariant Valid() && OutsideUnchanged(old(ram[..]))
        invariant i <= Count() || i == index
        invariant i <= stop
        invariant Bits() == Assigned(before, index, i, false)
        invariant used == old(used) - (i - index)
      {
        r := Clear(i);
        if r.Err? {
          return;
        }
        AssignedStep(before, index, i, false);
      }
      return Ok(());
    }

    /** `checked_clear(index)`: refuses an index past the bitmap and a bit
        that is already clear. As in `checked_set`, `index == total` is
        excluded, and `used` must be positive when the bit is set. */
    method CheckedClear(index: nat) returns (r: Result<()>)
      requires Valid() && index != Count()
      requires index < Count() && Bits()[index] ==> used > 0
      modifies this`used, ram
      ensures Valid()
      ensures index > Count() ==> r == Err(OutOfBounds)
      ensures index < Count() ==> r == if old(Bits())[index] then Ok(()) else Err(AlreadyClear)
      ensures r.Err? ==> used == old(used) && unchanged(ram)
      ensures r.Ok? ==> Bits() == old(Bits())[index := false] && used == old(used) - 1
      ensures OutsideUnchanged(old(ram[..]))
      ensures Drift() == old(Drift())
    {
      if index > total {
        return Err(OutOfBounds);
      }
      // `*ptr & mask == 0` is the negation of the test `is_set` makes
      if !IsSet(index) {
        return Err(AlreadyClear);
      }
      ClearBit(index);
      used := used - 1;
      return Ok(());
    }

    /** `find(count)`: scans the bits in order, counting the clear bits
        since the last set one, and returns where the count first reaches
        `count`: the first run of `count` clear bits. `find(0)` finds
        nothing. */
    method Find(count: nat) returns (r: Option<nat>)
      requires Valid()
      ensures r == FirstFit(Bits(), count)
    {
      ghost var bits := Bits();
      var contig: nat := 0;
      var firstContig: nat := 0;
      for index: nat := 0 to mem.size
        invariant ScanState(bits, count, index * 8, contig, firstContig)
      {
        var found;
        found, contig, firstContig := ScanByte(count, index, contig, firstContig);
        if found {
          FirstFitIsUnique(bits, count, firstContig);
          return Some(firstContig);
        }
      }
      return None;
    }

    /** The inner loop of `find`, over the eight bits of byte `index`: it
        carries the run being counted on, or reports that the run reached
        `count` bits, which makes it the first fit. */
    method ScanByte(count: nat, index: nat, contig: nat, firstContig: nat)
      returns (found: bool, contig': nat, firstContig': nat)
      requires Valid() && index < mem.size
      requires ScanState(Bits(), count, index * 8, contig, firstContig)
      ensures found ==> count > 0 && IsFirstFit(Bits(), count, firstContig')
      ensures !found ==> ScanState(Bits(), count, index * 8 + 8, contig', firstContig')
    {
      ghost var bits := Bits();
      contig', firstContig' := contig, firstContig;
      for b: nat := 0 to 8
        invariant ScanState(bits, count, index * 8 + b, contig', firstContig')
      {
        var p := index * 8 + b;
        ScanStep(bits, count, p, contig', firstContig');
        if IsSet(p) {
          contig' := 0;
        } else {
          if contig' == 0 {
            firstContig' := p;
          }
          contig' := contig' + 1;
          if contig' == count {
            return true, contig', firstContig';
          }
        }
      }
      return false, contig', firstContig';
    }

    /** What `find_and_set` and `bounded_find_and_set` do with the run
        `find` returned: `set_range(bit, count)`, forwarding its error, which
        cannot occur because the run lies inside the bitmap. The run was
        clear, so `used` stays the number of set bits if it was. */
    method SetFound(bit: nat, count: nat) returns (r: Result<nat>)
      requires Valid() && count > 0 && ClearRun(Bits(), bit, count)
      modifies this`used, ram
      ensures Valid() && r == Ok(bit)
      ensures Bits() == Assigned(old(Bits()), bit, bit + count, true) && used == old(used) + count
      ensures OutsideUnchanged(old(ram[..]))
      ensures Drift() == old(Drift())
    {
      ghost var before := Bits();
      var result := SetRange(bit, count);
      if result.Err? {
        assert false;
      }
      assert RangeStop(bit, count, Count()) == bit + count;
      SetClearRun(before, bit, count);
      return Ok(bit);
    }

    /** `find_and_set(count)`: sets the first run of `count` clear bits and
        returns where it starts. The run fits, so the `set_range` error it
        forwards cannot occur. */
    method FindAndSet(count: nat) returns (r: Result<nat>)
      requires Valid()
      modifies this`used, ram
      ensures Valid()
      ensures r.Ok? ==> count > 0 && old(IsFirstFit(Bits(), count, r.value))
      ensures r.Err? ==> r.error == NotFound && (count == 0 || old(NoFit(Bits(), count)))
      ensures r.Ok? ==> Bits() == Assigned(old(Bits()), r.value, r.value + count, true) &&
                        used == old(used) + count
      ensures r.Err? ==> used == old(used) && unchanged(ram)
      ensures OutsideUnchanged(old(ram[..]))
      ensures Drift() == old(Drift())
    {
      var found := Find(count);
      if found.None? {
        return Err(NotFound);
      }
      var bit := found.value;
      r := SetFound(bit, count);
    }

    /** `bounded_find_and_set(count, bound)`: as `find_and_set`, but the run
        must end at or before `bound`, and `bound` must lie inside the
        bitmap. Only the first run is considered: when it does not end in
        the bound, no later run is tried. */
    method BoundedFindAndSet(count: nat, bound: nat) returns (r: Result<nat>)
      requires Valid()
      modifies this`used, ram
      ensures Valid()
      ensures bound >= Count() ==> r == Err(BoundTooLarge)
      ensures bound < Count() ==>
                r == match old(FirstFit(Bits(), count))
                       case None => Err(NotFound)
                       case Some(s) => if s + count > bound then Err(NoRunWithinBound) else Ok(s)
      ensures r.Ok? ==> Bits() == Assigned(old(Bits()), r.value, r.value + count, true) &&
                        used == old(used) + count
      ensures r.Err? ==> used == old(used) && unchanged(ram)
      ensures OutsideUnchanged(old(ram[..]))
      ensures Drift() == old(Drift())
    {
      if bound >= Count() {
        return Err(BoundTooLarge);
      }
      var found := Find(count);
      if found.None? {
        return Err(NotFound);
      }
      var bit := found.value;
      if bit + count > bound {
        return Err(NoRunWithinBound);
      }
      r := SetFound(bit, count);
    }
  }
}
