/** The overwrite-oldest ring buffer of src/libc/structures/ring_buffer.rs.

    The buffer's slots are an array; `scribe` is the slot the next push
    writes, and `hasRolled` records that the buffer has wrapped at least
    once. The ghost `history` is every value pushed so far: the buffer holds
    its last `Size()` values, `Window(history, Size())`, and `get(0)` is the
    oldest of them. */
module RingBuffers {
  import opened Results
  import opened Math

  //------------------------------------------------
  // the window of recent pushes
  //------------------------------------------------

  function Min(a: nat, b: nat): nat
  {
    if a <= b then a else b
  }

  /** The last `size` values of `h` (all of them while there are fewer),
      oldest first. */
  function Window<T>(h: seq<T>, size: nat): (w: seq<T>)
    ensures |w| == Min(|h|, size)
    ensures forall i :: 0 <= i < |w| ==> w[i] == h[|h| - |w| + i]
  {
    h[|h| - Min(|h|, size)..]
  }

  /** Pushing onto a buffer that is not yet full appends to the window;
      onto a full one, it also drops the oldest value. */
  lemma WindowPush<T>(h: seq<T>, size: nat, v: T)
    requires size > 0
    ensures Window(h + [v], size) ==
            if |h| < size then Window(h, size) + [v] else Window(h, size)[1..] + [v]
  {
    var w, w' := Window(h, size), Window(h + [v], size);
    if |h| < size {
      assert w' == w + [v] by {
        forall i | 0 <= i < |w'| ensures w'[i] == (w + [v])[i] {
          assert w'[i] == (h + [v])[|h| + 1 - |w'| + i];
        }
      }
    } else {
      assert w' == w[1..] + [v] by {
        forall i | 0 <= i < |w'| ensures w'[i] == (w[1..] + [v])[i] {
          assert w'[i] == (h + [v])[|h| + 1 - |w'| + i];
        }
      }
    }
  }

  /** After `n` pushes of `0, 1, ..., n - 1`, position `i` of the window
      holds `n - k + i` where `k` is the window's length; for `n == 2 * size`
      that is `i + size`. */
  lemma CountingWindow(n: nat, size: nat, i: nat)
    requires i < Min(n, size)
    ensures Window(seq(n, p => p), size)[i] == n - Min(n, size) + i
  {
  }

  //------------------------------------------------
  // slot arithmetic
  //------------------------------------------------

  /** Adding whole multiples of `m` does not change the remainder. */
  lemma {:induction false} ModAddMultiple(k: nat, x: nat, m: nat)
    requires m > 0
    ensures (k * m + x) % m == x % m
  {
    if k > 0 {
      ModAddMultiple(k - 1, x, m);
      assert k * m + x == ((k - 1) * m + x) + m;
      ModAddOne((k - 1) * m + x, m);
    }
  }

  lemma ModAddOne(y: nat, m: nat)
    requires m > 0
    ensures (y + m) % m == y % m
  {
    DivBounds(y, m);
    DivUnique(y + m, m, y / m + 1, y % m, (y + m) / m, (y + m) % m);
  }

  /** Positions fewer than `m` apart have different remainders. */
  lemma ModDistinct(a: nat, b: nat, m: nat)
    requires m > 0 && a < b < a + m
    ensures a % m != b % m
  {
    var qa, qb := a / m, b / m;
    assert a == qa * m + a % m && b == qb * m + b % m;
    if a % m == b % m {
      assert (qb - qa) * m == b - a;
      DivUnique(b - a, m, qb - qa, 0, 0, b - a);
    }
  }

  /** The slot after position `n`. */
  lemma ModStep(n: nat, m: nat)
    requires m > 0
    ensures (n + 1) % m == if n % m + 1 == m then 0 else n % m + 1
  {
    DivBounds(n, m);
    var q, r := n / m, n % m;
    if r + 1 == m {
      assert n + 1 == (q + 1) * m;
      DivUnique(n + 1, m, q + 1, 0, (n + 1) / m, (n + 1) % m);
    } else {
      assert n + 1 == q * m + (r + 1);
      DivUnique(n + 1, m, q, r + 1, (n + 1) / m, (n + 1) % m);
    }
  }

  /** A slice of `len` elements of `elemSize` bytes has `len` slots. */
  lemma SliceSlots(len: nat, elemSize: nat)
    requires elemSize > 0
    ensures (len * elemSize) / elemSize == len
  {
    DivBounds(len * elemSize, elemSize);
    DivUnique(len * elemSize, elemSize, len, 0, (len * elemSize) / elemSize, (len * elemSize) % elemSize);
  }

  //------------------------------------------------
  // slots holding the window
  //------------------------------------------------

  /** The slots hold the last `|s|` values of `h`, the value pushed at
      position `p` in slot `p % |s|`. */
  ghost predicate Holds<T>(s: seq<T>, h: seq<T>)
  {
    |s| > 0 ==> forall p :: |h| - |s| <= p < |h| && 0 <= p ==> s[p % |s|] == h[p]
  }

  /** The slot of the window's `i`-th value. */
  function WindowSlot(len: nat, n: nat, i: nat): nat
    requires n > 0
  {
    (len - Min(len, n) + i) % n
  }

  /** Writing the value pushed at position `|h|` into slot `|h| % |s|`
      keeps the slots holding the window. */
  lemma HoldsPush<T>(s: seq<T>, h: seq<T>, v: T)
    requires |s| > 0 && Holds(s, h)
    ensures Holds(s[|h| % |s| := v], h + [v])
  {
    var s', h' := s[|h| % |s| := v], h + [v];
    forall p | |h'| - |s| <= p < |h'| && 0 <= p
      ensures s'[p % |s|] == h'[p]
    {
      if p < |h| {
        ModDistinct(p, |h|, |s|);
      }
    }
  }

  /** The slots that hold the window hold its `i`-th value in `WindowSlot`. */
  lemma HoldsWindow<T>(s: seq<T>, h: seq<T>, i: nat)
    requires |s| > 0 && Holds(s, h) && i < Min(|h|, |s|)
    ensures s[WindowSlot(|h|, |s|, i)] == Window(h, |s|)[i]
  {
    assert Window(h, |s|)[i] == h[|h| - Min(|h|, |s|) + i];
  }

  /** Once full, the window starts at the slot after the newest value, the
      next one to write; before, at slot 0. */
  lemma WindowSlotIs(len: nat, n: nat, i: nat)
    requires n > 0 && i < Min(len, n)
    ensures WindowSlot(len, n, i) == if len >= n then (len % n + i) % n else i
  {
    if len >= n {
      var q := len / n;
      DivBounds(len, n);
      assert q * n > 0;
      assert len - n + i == (q - 1) * n + (len % n + i);
      ModAddMultiple(q - 1, len % n + i, n);
    }
  }

  /** The newest value sits in the slot before the next one to write. */
  lemma NewestSlot<T>(s: seq<T>, h: seq<T>)
    requires |s| > 0 && Holds(s, h) && |h| % |s| > 0
    ensures s[|h| % |s| - 1] == h[|h| - 1]
  {
    ModStep(|h| - 1, |s|);
  }

  //------------------------------------------------
  // the buffer
  //------------------------------------------------

  /** `RingBuffer<T> { mem, num_bytes, scribe, has_rolled }`. */
  class RingBuffer<T> {
    /** `mem`, as the slots it points to. */
    const slots: array<T>
    /** `num_bytes`: the byte length of the memory. */
    const numBytes: nat
    /** `size_of::<T>()`. */
    const elemSize: nat
    /** `scribe`: the slot the next push writes. */
    var scribe: nat
    /** `has_rolled`: the scribe has wrapped at least once. */
    var hasRolled: bool
    /** Every value pushed so far, oldest first. */
    ghost var history: seq<T>

    ghost predicate Valid()
      reads this, slots
    {
      elemSize > 0 && slots.Length == numBytes / elemSize &&
      (if slots.Length == 0 then scribe == 0 && history == [] else scribe == |history| % slots.Length) &&
      (hasRolled <==> slots.Length > 0 && |history| >= slots.Length) &&
      (!hasRolled ==> scribe == |history|) &&
      Holds(slots[..], history)
    }

    /** What `get` sees: the last `Size()` values pushed, oldest first. */
    ghost function Contents(): (w: seq<T>)
      reads this, slots
      requires Valid()
      ensures |w| <= Size()
    {
      Window(history, Size())
    }

    /** `RingBuffer::new(mem)`: an empty buffer over `numBytes` bytes of
        memory holding `numBytes / elemSize` slots. */
    constructor New(mem: array<T>, numBytes: nat, elemSize: nat)
      requires elemSize > 0 && mem.Length == numBytes / elemSize
      ensures Valid() && slots == mem && Size() == mem.Length
      ensures history == [] && Contents() == []
    {
      slots := mem;
      this.numBytes := numBytes;
      this.elemSize := elemSize;
      scribe := 0;
      hasRolled := false;
      history := [];
    }

    /** `RingBuffer::from(slice)`: an empty buffer over the slice, which it
        shares; its size is the slice's length. Taking the address of the
        first element panics on an empty slice, so the slice is not empty. */
    constructor From(slice: array<T>, elemSize: nat)
      requires elemSize > 0 && slice.Length > 0
      ensures Valid() && slots == slice && Size() == slice.Length
      ensures history == [] && Contents() == []
    {
      slots := slice;
      numBytes := slice.Length * elemSize;
      this.elemSize := elemSize;
      scribe := 0;
      hasRolled := false;
      history := [];
      SliceSlots(slice.Length, elemSize);
    }

    /** `size`: how many values the buffer holds once full. */
    function Size(): (r: nat)
      reads this, slots
      requires Valid()
      ensures r == slots.Length
    {
      numBytes / elemSize
    }

    /** `get(index)`: the `index`-th oldest value the buffer holds. Before
        the first wrap it fails from the count of pushes on; after, from
        the size on. */
    function Get(index: nat): (r: Result<T>)
      reads this, slots
      requires Valid()
      ensures r.Ok? <==> index < |Contents()|
      ensures r.Ok? ==> r.value == Contents()[index]
      ensures !hasRolled && index >= scribe ==> r == Err(NotYetWritten)
      ensures hasRolled && index >= Size() ==> r == Err(IndexOutOfRange)
    {
      if !hasRolled then
        if index >= scribe then Err(NotYetWritten)
        else
          WindowSlotIs(|history|, Size(), index);
          HoldsWindow(slots[..], history, index);
          Ok(slots[index])
      else if index >= Size() then Err(IndexOutOfRange)
      else
        WindowSlotIs(|history|, Size(), index);
        HoldsWindow(slots[..], history, index);
        Ok(slots[(scribe + index) % Size()])
    }

    /** `scribe_ptr`: the slot the next push writes, which is the position
        of that push modulo the size. */
    function ScribePtr(): (r: nat)
      reads this, slots
      requires Valid() && Size() > 0
      ensures r < Size() && r == |history| % Size()
    {
      scribe
    }

    /** `push(val)`: writes the scribe's slot and advances the scribe,
        wrapping it to the first slot at the end. The value becomes the
        newest of the buffer; once full, the oldest value is dropped. A
        buffer of no slots has no slot to write. */
    method Push(val: T)
      requires Valid() && Size() > 0
      modifies this, slots
      ensures Valid() && history == old(history) + [val]
      ensures slots[..] == old(slots[..])[old(scribe) := val]
      ensures scribe == (if old(scribe) + 1 == Size() then 0 else old(scribe) + 1)
      ensures hasRolled == (old(hasRolled) || old(scribe) + 1 == Size())
      ensures Contents() == if |old(history)| < Size() then old(Contents()) + [val]
                            else old(Contents())[1..] + [val]
    {
      var n := Size();
      ghost var h := history;
      ModStep(|h|, n);
      HoldsPush(slots[..], h, val);
      slots[scribe] := val;
      scribe := scribe + 1;
      if scribe == n {
        scribe := 0;
        hasRolled := true;
      }
      history := history + [val];
      WindowPush(h, n, val);
    }

    /** `newest`: the value pushed last, an error on an empty buffer. With
        the scribe at slot 0 it asks `get(size - 1)`, which fails before the
        first wrap. */
    function Newest(): (r: Result<T>)
      reads this, slots
      requires Valid() && Size() > 0
      ensures r.Ok? <==> |history| > 0
      ensures r.Ok? ==> r.value == history[|history| - 1]
      ensures r.Err? ==> r.error == NotYetWritten
    {
      if scribe == 0 then
        assert hasRolled ==> Contents()[Size() - 1] == history[|history| - 1];
        assert !hasRolled ==> |history| == 0;
        Get(Size() - 1)
      else
        NewestSlot(slots[..], history);
        Ok(slots[scribe - 1])
    }

    /** `oldest`: `get(0)`, the oldest value the buffer holds, an error on
        an empty buffer. */
    function Oldest(): (r: Result<T>)
      reads this, slots
      requires Valid()
      ensures r.Ok? <==> |history| > 0 && Size() > 0
      ensures r.Ok? ==> r.value == history[|history| - Min(|history|, Size())]
      ensures r.Ok? && |history| <= Size() ==> r.value == history[0]
    {
      Get(0)
    }
  }
}
