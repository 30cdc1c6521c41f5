/** Byte-region primitives (src/libc/memory/mod.rs and its older snapshot
    src/libc/memory.rs): memset, memcmp, memcpy and the `IOVec` descriptor.

    Memory is one array of bytes; a pointer is an offset into it. */
module Memory {

  type Byte = bv8

  //------------------------------------------------
  // IOVec
  //------------------------------------------------

  /** A non-owning (pointer, size) view of memory. `IOVec::new(ptr, size)` and
      `IOVec::from_addr(addr, size)` are this constructor. */
  datatype IOVec = IOVec(ptr: nat, size: nat) {
    /** One past the last byte of the region. */
    function End(): nat { ptr + size }
  }

  /** `IOVec::from_range(begin, end)`: the region between two pointers.
      `end - begin` is an unsigned subtraction, so `begin <= end` is demanded. */
  function FromRange(begin: nat, end: nat): (r: IOVec)
    requires begin <= end
    ensures r.ptr == begin && r.End() == end
  {
    IOVec(begin, end - begin)
  }

  //------------------------------------------------
  // memset
  //------------------------------------------------

  /** `s` with the `cnt` bytes from `dest` on set to `val`. */
  function Filled(s: seq<Byte>, dest: nat, val: Byte, cnt: nat): (r: seq<Byte>)
    requires dest + cnt <= |s|
    ensures |r| == |s|
    ensures forall i :: 0 <= i < |s| ==> r[i] == if dest <= i < dest + cnt then val else s[i]
  {
    s[..dest] + seq(cnt, _ => val) + s[dest + cnt..]
  }

  lemma FilledNothing(s: seq<Byte>, dest: nat, val: Byte)
    requires dest <= |s|
    ensures Filled(s, dest, val, 0) == s
  {
  }

  lemma FilledWhole(s: seq<Byte>, val: Byte)
    ensures Filled(s, 0, val, |s|) == seq(|s|, _ => val)
  {
  }

  /** `__aeabi_memclr`: a byte loop storing `val` into `cnt` bytes from `dest`. */
  method AeabiMemclr(ram: array<Byte>, dest: nat, val: Byte, cnt: nat)
    requires dest + cnt <= ram.Length
    modifies ram
    ensures ram[..] == Filled(old(ram[..]), dest, val, cnt)
  {
    for i := 0 to cnt
      invariant ram[..] == Filled(old(ram[..]), dest, val, i)
    {
      ram[dest + i] := val;
    }
  }

  /** `__aeabi_memset`: forwards to `__aeabi_memclr`. */
  method AeabiMemset(ram: array<Byte>, dest: nat, val: Byte, cnt: nat)
    requires dest + cnt <= ram.Length
    modifies ram
    ensures ram[..] == Filled(old(ram[..]), dest, val, cnt)
  {
    AeabiMemclr(ram, dest, val, cnt);
  }

  /** `memset` (both copies): the volatile set-memory intrinsic, which
      stores `val` into the `cnt` bytes from `dest`. */
  method Memset(ram: array<Byte>, dest: nat, val: Byte, cnt: nat)
    requires dest + cnt <= ram.Length
    modifies ram
    ensures ram[..] == Filled(old(ram[..]), dest, val, cnt)
  {
    forall k | dest <= k < dest + cnt {
      ram[k] := val;
    }
  }

  //------------------------------------------------
  // memcmp
  //------------------------------------------------

  /** The `lex_cmp!` macro on two bytes. */
  function Cmp(x: Byte, y: Byte): int
  {
    if x < y then -1 else if x > y then 1 else 0
  }

  /** Lexicographic comparison of two byte strings of one length: the
      comparison of the first pair of bytes that differ, or 0. */
  function LexCmp(x: seq<Byte>, y: seq<Byte>): (r: int)
    requires |x| == |y|
    ensures -1 <= r <= 1
  {
    if |x| == 0 then 0
    else if x[0] != y[0] then Cmp(x[0], y[0])
    else LexCmp(x[1..], y[1..])
  }

  /** The comparison is 0 exactly when the strings are equal. */
  lemma {:induction false} LexCmpZeroIffEqual(x: seq<Byte>, y: seq<Byte>)
    requires |x| == |y|
    ensures LexCmp(x, y) == 0 <==> x == y
  {
    if |x| > 0 && x[0] == y[0] {
      LexCmpZeroIffEqual(x[1..], y[1..]);
      assert x == [x[0]] + x[1..] && y == [y[0]] + y[1..];
    }
  }

  /** LexCmp is decided by the first byte at which the strings differ. */
  lemma {:induction false} LexCmpAtFirstDifference(x: seq<Byte>, y: seq<Byte>, k: nat)
    requires |x| == |y| && k < |x|
    requires forall j :: 0 <= j < k ==> x[j] == y[j]
    requires x[k] != y[k]
    ensures LexCmp(x, y) == Cmp(x[k], y[k])
  {
    if k > 0 {
      LexCmpAtFirstDifference(x[1..], y[1..], k - 1);
    }
  }

  /** The number of leading bytes that `memcmp_t` with a step of `width`
      bytes actually looks at when given `byteCnt`: all of them when fewer
      than one step, otherwise only the whole steps (the tail loop starts one
      step past the last whole step, so it never runs). */
  function ComparedLength(byteCnt: nat, width: nat): (m: nat)
    requires width > 0
    ensures m <= byteCnt
    ensures byteCnt < width ==> m == byteCnt
  {
    if byteCnt < width then byteCnt else (byteCnt / width) * width
  }

  /** What `memcmp_t` skips is exactly the remainder of the count by the
      step: nothing when the count is a multiple of the step or below it. */
  lemma ComparedLengthSkipsRemainder(byteCnt: nat, width: nat)
    requires width > 0
    ensures byteCnt < width || byteCnt % width == 0 ==> ComparedLength(byteCnt, width) == byteCnt
    ensures byteCnt >= width ==> byteCnt - ComparedLength(byteCnt, width) == byteCnt % width
  {
  }

  /** Two words of `width` bytes, read as unsigned integers, differ exactly
      when their bytes differ. */
  predicate WordsDiffer(ram: seq<Byte>, a: nat, b: nat, width: nat)
    requires a + width <= |ram| && b + width <= |ram|
  {
    ram[a..a + width] != ram[b..b + width]
  }

  lemma MulStep(i: nat, n: nat, w: nat)
    requires i < n
    ensures i * w + w <= n * w
    ensures (i + 1) * w == i * w + w
  {
    var d: nat := n - (i + 1);
    assert n * w == (i + 1) * w + d * w;
  }

  lemma DivFloor(n: nat, w: nat)
    requires w > 0
    ensures (n / w) * w <= n < (n / w) * w + w
    ensures n / w == 0 <==> n < w
  {
  }

  /** Comparing two concatenations: the first parts decide unless they are
      equal, in which case the second parts do. */
  lemma {:induction false} LexCmpAppend(x1: seq<Byte>, y1: seq<Byte>, x2: seq<Byte>, y2: seq<Byte>)
    requires |x1| == |y1| && |x2| == |y2|
    ensures LexCmp(x1 + x2, y1 + y2) == if x1 == y1 then LexCmp(x2, y2) else LexCmp(x1, y1)
  {
    if |x1| > 0 {
      assert (x1 + x2)[1..] == x1[1..] + x2 && (y1 + y2)[1..] == y1[1..] + y2;
      if x1[0] == y1[0] {
        LexCmpAppend(x1[1..], y1[1..], x2, y2);
        assert x1 == y1 <==> x1[1..] == y1[1..] by {
          assert x1 == [x1[0]] + x1[1..] && y1 == [y1[0]] + y1[1..];
        }
      }
    } else {
      assert x1 + x2 == x2 && y1 + y2 == y2;
    }
  }

  /** The byte loop `for i in lo..hi { cmp = a[i].cmp(&b[i]); if cmp != Equal
      { return cmp } }` shared by the word scan and the tail of `memcmp_t`; an
      empty range (`lo >= hi`) compares nothing. */
  method CompareBytes(ram: seq<Byte>, a: nat, b: nat, lo: nat, hi: nat) returns (r: int)
    requires a + hi <= |ram| && b + hi <= |ram|
    ensures lo >= hi ==> r == 0
    ensures lo < hi ==> r == LexCmp(ram[a + lo..a + hi], ram[b + lo..b + hi])
  {
    if lo >= hi {
      return 0;
    }
    ghost var x, y := ram[a + lo..a + hi], ram[b + lo..b + hi];
    for k := lo to hi
      invariant forall j :: 0 <= j < k - lo ==> x[j] == y[j]
    {
      var cmp := Cmp(ram[a + k], ram[b + k]);
      if cmp != 0 {
        assert x[k - lo] == ram[a + k] && y[k - lo] == ram[b + k];
        LexCmpAtFirstDifference(x, y, k - lo);
        return cmp;
      }
    }
    assert x == y;
    LexCmpZeroIffEqual(x, y);
    return 0;
  }

  /** `memcmp_t::<T>(a, b, byte_cnt)` with `T` an unsigned integer of `width`
      bytes. It walks whole words and, inside the first word that differs,
      the bytes; then a tail loop over the bytes from one word past the last
      whole word. The result is the lexicographic comparison of the first
      `ComparedLength(byteCnt, width)` bytes. */
  method MemcmpT(ram: seq<Byte>, a: nat, b: nat, byteCnt: nat, width: nat) returns (r: int)
    requires width > 0
    requires a + byteCnt <= |ram| && b + byteCnt <= |ram|
    ensures r == LexCmp(ram[a..a + ComparedLength(byteCnt, width)], ram[b..b + ComparedLength(byteCnt, width)])
  {
    var tOff := byteCnt / width;
    ghost var m := ComparedLength(byteCnt, width);
    ghost var full := WordSteps(byteCnt, width, tOff, m);
    r := CompareWords(ram, a, b, tOff, width, full);
    if r != 0 {
      return r;
    }
    var newBegin := tOff * width;
    if newBegin > 0 {
      newBegin := newBegin + width;
    }
    r := CompareBytes(ram, a, b, newBegin, byteCnt);
    if tOff == 0 {
      assert ram[a..a + m] == ram[a + newBegin..a + byteCnt];
      assert ram[b..b + m] == ram[b + newBegin..b + byteCnt];
    }
  }

  /** The word loop of `memcmp_t`: `for i in 0..t_off`, comparing the words at
      `i * width` and scanning the bytes of the first that differs. The
      result is the comparison of the `tOff` whole words. */
  method CompareWords(ram: seq<Byte>, a: nat, b: nat, tOff: nat, width: nat, ghost full: nat) returns (r: int)
    requires width > 0 && full == tOff * width
    requires a + full <= |ram| && b + full <= |ram|
    ensures r == LexCmp(ram[a..a + full], ram[b..b + full])
  {
    var i := 0;
    ghost var done := 0;
    while i < tOff
      invariant i <= tOff && done <= full
      invariant done == i * width
      invariant ram[a..a + done] == ram[b..b + done]
    {
      var off := i * width;
      NextStep(i, tOff, width, done, full);
      var cmp := CompareWord(ram, a, b, off, width);
      if cmp != 0 {
        WordDecidesAt(ram, a, b, full, off, width);
        return cmp;
      }
      WordExtendsAt(ram, a, b, off, width);
      i := i + 1;
      done := done + width;
    }
    LexCmpZeroIffEqual(ram[a..a + full], ram[b..b + full]);
    return 0;
  }

  /** One step of the word loop: the words at `off` are compared as
      integers, and only when they differ are their bytes scanned. The result
      is the comparison of the two words, 0 exactly when they are equal. */
  method CompareWord(ram: seq<Byte>, a: nat, b: nat, off: nat, width: nat) returns (r: int)
    requires width > 0
    requires a + (off + width) <= |ram| && b + (off + width) <= |ram|
    ensures r == LexCmp(ram[a + off..a + (off + width)], ram[b + off..b + (off + width)])
    ensures r == 0 <==> ram[a + off..a + (off + width)] == ram[b + off..b + (off + width)]
  {
    r := 0;
    if WordsDiffer(ram, a + off, b + off, width) {
      r := CompareBytes(ram, a, b, off, off + width);
    }
    LexCmpZeroIffEqual(ram[a + off..a + (off + width)], ram[b + off..b + (off + width)]);
  }

  /** `WordDecides` for the regions at `a` and `b` of a memory. */
  lemma WordDecidesAt(ram: seq<Byte>, a: nat, b: nat, full: nat, off: nat, width: nat)
    requires off + width <= full && a + full <= |ram| && b + full <= |ram|
    requires ram[a..a + off] == ram[b..b + off]
    requires ram[a + off..a + (off + width)] != ram[b + off..b + (off + width)]
    ensures LexCmp(ram[a..a + full], ram[b..b + full]) ==
            LexCmp(ram[a + off..a + (off + width)], ram[b + off..b + (off + width)])
  {
    var x, y := ram[a..a + full], ram[b..b + full];
    SliceOfSlice(ram, a, full, 0, off);
    SliceOfSlice(ram, b, full, 0, off);
    SliceOfSlice(ram, a, full, off, off + width);
    SliceOfSlice(ram, b, full, off, off + width);
    assert x[..off] == x[0..off] && y[..off] == y[0..off];
    WordDecides(x, y, off, width);
  }

  /** Equal bytes up to `off` and an equal word at `off` give equal bytes up
      to the end of that word. */
  lemma WordExtendsAt(ram: seq<Byte>, a: nat, b: nat, off: nat, width: nat)
    requires a + off + width <= |ram| && b + off + width <= |ram|
    requires ram[a..a + off] == ram[b..b + off]
    requires ram[a + off..a + (off + width)] == ram[b + off..b + (off + width)]
    ensures ram[a..a + off + width] == ram[b..b + off + width]
  {
    assert ram[a..a + off + width] == ram[a..a + off] + ram[a + off..a + off + width];
    assert ram[b..b + off + width] == ram[b..b + off] + ram[b + off..b + off + width];
  }

  lemma SliceOfSlice(s: seq<Byte>, a: nat, n: nat, lo: nat, hi: nat)
    requires lo <= hi <= n && a + n <= |s|
    ensures s[a..a + n][lo..hi] == s[a + lo..a + hi]
  {
    var x, y := s[a..a + n][lo..hi], s[a + lo..a + hi];
    forall j | 0 <= j < hi - lo
      ensures x[j] == y[j]
    {
      assert x[j] == s[a..a + n][lo + j];
    }
  }

  /** The arithmetic of `memcmp_t`'s word steps, as linear facts: `full` is
      the length of the whole steps. */
  lemma WordSteps(byteCnt: nat, width: nat, tOff: nat, m: nat) returns (full: nat)
    requires width > 0 && tOff == byteCnt / width && m == ComparedLength(byteCnt, width)
    ensures full == tOff * width && full <= byteCnt < full + width
    ensures tOff == 0 ==> m == byteCnt && full == 0
    ensures tOff > 0 ==> m == full && full > 0
  {
    full := tOff * width;
  }

  lemma NextStep(i: nat, n: nat, w: nat, done: nat, full: nat)
    requires i < n && done == i * w && full == n * w
    ensures done + w <= full && (i + 1) * w == done + w
  {
    MulStep(i, n, w);
  }

  /** A difference inside the word at `off`, after equal words before it,
      decides the comparison of the whole. */
  lemma WordDecides(x: seq<Byte>, y: seq<Byte>, off: nat, width: nat)
    requires |x| == |y| && off + width <= |x|
    requires x[..off] == y[..off]
    requires x[off..off + width] != y[off..off + width]
    ensures LexCmp(x, y) == LexCmp(x[off..off + width], y[off..off + width])
  {
    var x2, y2 := x[off..off + width], y[off..off + width];
    var x3, y3 := x[off + width..], y[off + width..];
    assert x == x[..off] + (x2 + x3);
    assert y == y[..off] + (y2 + y3);
    LexCmpAppend(x[..off], y[..off], x2 + x3, y2 + y3);
    LexCmpAppend(x2, y2, x3, y3);
  }

  /** `usize` on the Cortex-M target is four bytes wide. */
  const UsizeBytes: nat := 4

  /** `memcmp`: `memcmp_t::<usize>`. */
  method Memcmp(ram: seq<Byte>, a: nat, b: nat, byteCnt: nat) returns (r: int)
    requires a + byteCnt <= |ram| && b + byteCnt <= |ram|
    ensures r == LexCmp(ram[a..a + ComparedLength(byteCnt, UsizeBytes)], ram[b..b + ComparedLength(byteCnt, UsizeBytes)])
  {
    r := MemcmpT(ram, a, b, byteCnt, UsizeBytes);
  }

  /** With a one-byte step, memcmp_t compares the whole region: the result
      is the comparison of the first differing byte, and 0 exactly when the
      regions are equal. */
  lemma ByteStepComparesAll(x: seq<Byte>, y: seq<Byte>)
    requires |x| == |y|
    ensures ComparedLength(|x|, 1) == |x|
    ensures x[..ComparedLength(|x|, 1)] == x && y[..ComparedLength(|x|, 1)] == y
  {
  }

  /** Divergence from "lexical ordering": when the count is at least one
      step, bytes past the last whole step are never compared, so regions
      that differ only there compare equal. */
  lemma {:induction false} TailDifferenceUnreported(x: seq<Byte>, y: seq<Byte>, width: nat)
    requires |x| == |y| && 0 < width <= |x|
    requires x[..(|x| / width) * width] == y[..(|x| / width) * width]
    ensures LexCmp(x[..ComparedLength(|x|, width)], y[..ComparedLength(|x|, width)]) == 0
  {
    DivFloor(|x|, width);
    var m := ComparedLength(|x|, width);
    LexCmpZeroIffEqual(x[..m], y[..m]);
  }

  /** A concrete instance: five bytes, four-byte steps, last byte differs. */
  lemma TailDifferenceExample()
    ensures var x: seq<Byte> := [0, 0, 0, 0, 1];
            var y: seq<Byte> := [0, 0, 0, 0, 2];
            ComparedLength(5, 4) == 4 && LexCmp(x[..4], y[..4]) == 0 && LexCmp(x, y) == -1
  {
    var x: seq<Byte> := [0, 0, 0, 0, 1];
    var y: seq<Byte> := [0, 0, 0, 0, 2];
    assert x[..4] == y[..4];
    LexCmpZeroIffEqual(x[..4], y[..4]);
    LexCmpAtFirstDifference(x, y, 4);
  }

  //------------------------------------------------
  // memcpy
  //------------------------------------------------

  /** `s` after the `byteCnt` bytes from `src` have been copied to `dst`,
      all of them read from `s` (memmove semantics). */
  function Copied(s: seq<Byte>, dst: nat, src: nat, byteCnt: nat): (r: seq<Byte>)
    requires dst + byteCnt <= |s| && src + byteCnt <= |s|
    ensures |r| == |s|
    ensures r[dst..dst + byteCnt] == s[src..src + byteCnt]
    ensures forall k :: 0 <= k < |s| && !(dst <= k < dst + byteCnt) ==> r[k] == s[k]
  {
    s[..dst] + s[src..src + byteCnt] + s[dst + byteCnt..]
  }

  /** Address `k` is one of the `byteCnt` bytes from `p`. */
  predicate InRegion(k: nat, p: nat, byteCnt: nat)
  {
    p <= k < p + byteCnt
  }

  /** The branch `memcpy` tests to choose the overlap-safe copy. */
  predicate UsesMemmove(dst: nat, src: nat, byteCnt: nat)
  {
    (dst < src && dst + byteCnt > src) || (src < dst && src + byteCnt > dst)
  }

  /** The overlap-safe copy is chosen exactly when the two ranges share a byte
      and do not start at the same address. */
  lemma UsesMemmoveIffOverlap(dst: nat, src: nat, byteCnt: nat)
    ensures UsesMemmove(dst, src, byteCnt) <==>
            dst != src && exists k: nat :: InRegion(k, dst, byteCnt) && InRegion(k, src, byteCnt)
  {
    if UsesMemmove(dst, src, byteCnt) {
      var k := if dst < src then src else dst;
      assert InRegion(k, dst, byteCnt) && InRegion(k, src, byteCnt);
    }
  }

  /** The volatile copy-memory intrinsic (memmove): every destination byte
      receives the source byte as it was before the copy. */
  method CopyMemory(ram: array<Byte>, dst: nat, src: nat, byteCnt: nat)
    requires dst + byteCnt <= ram.Length && src + byteCnt <= ram.Length
    modifies ram
    ensures ram[..] == Copied(old(ram[..]), dst, src, byteCnt)
  {
    var s := ram[..];
    forall k | dst <= k < dst + byteCnt {
      ram[k] := s[k - dst + src];
    }
    CopiedPointwise(s, ram[..], dst, src, byteCnt);
  }

  /** The volatile copy-nonoverlapping-memory intrinsic. Its contract forbids
      ranges that share a byte, but `memcpy` also sends it the case `dst ==
      src`, where copying each byte onto itself is harmless. */
  method CopyNonoverlappingMemory(ram: array<Byte>, dst: nat, src: nat, byteCnt: nat)
    requires dst + byteCnt <= ram.Length && src + byteCnt <= ram.Length
    requires !UsesMemmove(dst, src, byteCnt)
    modifies ram
    ensures ram[..] == Copied(old(ram[..]), dst, src, byteCnt)
  {
    forall k | dst <= k < dst + byteCnt {
      ram[k] := ram[k - dst + src];
    }
    CopiedPointwise(old(ram[..]), ram[..], dst, src, byteCnt);
  }

  /** A memory that agrees with `Copied` byte by byte is `Copied`. */
  lemma CopiedPointwise(s: seq<Byte>, t: seq<Byte>, dst: nat, src: nat, byteCnt: nat)
    requires dst + byteCnt <= |s| && src + byteCnt <= |s| && |t| == |s|
    requires forall k :: 0 <= k < |s| && !(dst <= k < dst + byteCnt) ==> t[k] == s[k]
    requires forall k :: dst <= k < dst + byteCnt ==> t[k] == s[k - dst + src]
    ensures t == Copied(s, dst, src, byteCnt)
  {
    var r := Copied(s, dst, src, byteCnt);
    forall k | 0 <= k < |s|
      ensures t[k] == r[k]
    {
      if dst <= k < dst + byteCnt {
        assert r[k] == r[dst..dst + byteCnt][k - dst];
      }
    }
  }

  /** `memcpy(dst, src, byte_cnt)`: afterwards the destination holds the
      bytes the source held before the call, even when the ranges overlap;
      nothing else changes. */
  method Memcpy(ram: array<Byte>, dst: nat, src: nat, byteCnt: nat)
    requires dst + byteCnt <= ram.Length && src + byteCnt <= ram.Length
    modifies ram
    ensures ram[dst..dst + byteCnt] == old(ram[src..src + byteCnt])
    ensures forall k :: 0 <= k < ram.Length && !(dst <= k < dst + byteCnt) ==> ram[k] == old(ram[k])
  {
    if UsesMemmove(dst, src, byteCnt) {
      CopyMemory(ram, dst, src, byteCnt);
    } else {
      CopyNonoverlappingMemory(ram, dst, src, byteCnt);
    }
  }

  /** Copying between disjoint regions and then comparing them finds them
      equal, whatever the step width. */
  lemma CopyThenCompareEqual(s: seq<Byte>, dst: nat, src: nat, byteCnt: nat, width: nat)
    requires dst + byteCnt <= |s| && src + byteCnt <= |s| && width > 0
    requires dst + byteCnt <= src || src + byteCnt <= dst
    ensures var t := Copied(s, dst, src, byteCnt);
            var m := ComparedLength(byteCnt, width);
            LexCmp(t[dst..dst + m], t[src..src + m]) == 0
  {
    var t := Copied(s, dst, src, byteCnt);
    var m := ComparedLength(byteCnt, width);
    var ts, ss := t[src..src + byteCnt], s[src..src + byteCnt];
    forall j | 0 <= j < byteCnt
      ensures ts[j] == ss[j]
    {
      assert t[src + j] == s[src + j];
    }
    assert t[dst..dst + m] == t[dst..dst + byteCnt][..m];
    assert t[src..src + m] == t[src..src + byteCnt][..m];
    LexCmpZeroIffEqual(t[dst..dst + m], t[src..src + m]);
  }
}
