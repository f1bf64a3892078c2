/**
 * The power-of-two byte FIFO of Src/fifo.c: free-running 32-bit `in` and
 * `out` cursors, storage indexed through `& mask`, short writes and short
 * reads. Because `mask + 1` is a power of two, `x & mask` equals
 * `x % (mask + 1)`, which is how the model writes it.
 */
module Fifo {
  import opened LibC

  /** `is_power_of_2(x)` on an unsigned value: 1, 2, 4, 8, ... */
  predicate IsPowerOfTwo(n: nat)
    decreases n
  {
    n == 1 || (n >= 2 && n % 2 == 0 && IsPowerOfTwo(n / 2))
  }

  function Pow2(k: nat): nat {
    if k == 0 then 1 else 2 * Pow2(k - 1)
  }

  // ---------------------------------------------------------------------
  // Arithmetic behind the "let the indices wrap" technique.
  // ---------------------------------------------------------------------

  lemma MulAtLeast(x: int, m: int)
    requires x >= 1 && m >= 0
    ensures x * m >= m
  {
  }

  /** Euclidean division is unique: a == q*m + r with 0 <= r < m fixes both. */
  lemma ModUnique(a: int, m: int, q: int, r: int)
    requires m > 0 && 0 <= r < m && a == q * m + r
    ensures a % m == r && a / m == q
  {
    var q0, r0 := a / m, a % m;
    assert (q - q0) * m == r0 - r;
    if q > q0 {
      MulAtLeast(q - q0, m);
    } else if q < q0 {
      MulAtLeast(q0 - q, m);
    }
  }

  lemma ModAddMultiple(a: int, t: int, m: int)
    requires m > 0
    ensures (a + t * m) % m == a % m
  {
    var q, r := a / m, a % m;
    assert a + t * m == (q + t) * m + r;
    ModUnique(a + t * m, m, q + t, r);
  }

  lemma {:induction false} Pow2IsPowerOfTwo(k: nat)
    ensures IsPowerOfTwo(Pow2(k))
  {
    if k > 0 {
      Pow2IsPowerOfTwo(k - 1);
      assert Pow2(k) / 2 == Pow2(k - 1);
    }
  }

  lemma {:induction false} Pow2Add(a: nat, b: nat)
    ensures Pow2(a + b) == Pow2(a) * Pow2(b)
    decreases a
  {
    if a > 0 {
      Pow2Add(a - 1, b);
    }
  }

  lemma U32IsPowerOfTwo()
    ensures IsPowerOfTwo(U32)
  {
    assert Pow2(2) == 4;
    Pow2Add(2, 2);
    Pow2Add(4, 4);
    assert Pow2(8) == 256;
    Pow2Add(8, 8);
    assert Pow2(16) == 65536;
    Pow2Add(16, 16);
    assert Pow2(32) == U32;
    Pow2IsPowerOfTwo(32);
  }

  /** A power of two divides every larger power of two. */
  lemma {:induction false} PowerOfTwoDivides(n: nat, m: nat)
    requires IsPowerOfTwo(n) && IsPowerOfTwo(m) && n <= m
    ensures m % n == 0
    decreases n
  {
    if n > 1 {
      assert m >= 2;
      PowerOfTwoDivides(n / 2, m / 2);
      var q := (m / 2) / (n / 2);
      assert m / 2 == q * (n / 2);
      assert m == q * n;
      ModAddMultiple(0, q, n);
    }
  }

  /** Every storage size divides 2^32. */
  lemma SizeDividesU32(size: nat)
    requires IsPowerOfTwo(size) && size <= U32
    ensures size > 0 && U32 == (U32 / size) * size
  {
    U32IsPowerOfTwo();
    PowerOfTwoDivides(size, U32);
  }

  /** Reducing a cursor modulo 2^32 does not move its storage slot. */
  lemma WrapKeepsSlot(x: int, d: int, size: nat)
    requires IsPowerOfTwo(size) && size <= U32
    ensures ((x % U32) + d) % size == (x + d) % size
  {
    SizeDividesU32(size);
    var k := U32 / size;
    var w := x / U32;
    assert x % U32 == x - w * U32;
    assert (x % U32) + d == (x + d) + (-(w * k)) * size;
    ModAddMultiple(x + d, -(w * k), size);
  }

  /** Where `(off + d) & mask` lands, for an offset d below the storage size. */
  lemma SlotOfOffset(off: int, d: int, size: int)
    requires size > 0 && 0 <= d < size
    ensures (off + d) % size ==
      if off % size + d < size then off % size + d else off % size + d - size
  {
    var q, o := off / size, off % size;
    if o + d < size {
      ModUnique(off + d, size, q, o + d);
    } else {
      ModUnique(off + d, size, q + 1, o + d - size);
    }
  }

  /** Writing `n` more bytes: the unsigned difference `(in + n) - out` grows by n. */
  lemma WrapGrow(a: int, b: int, n: int)
    requires 0 <= (a - b) % U32 + n < U32
    ensures ((a + n) % U32 - b) % U32 == (a - b) % U32 + n
  {
    var x := (a - b) % U32;
    var w := (a + n) / U32;
    assert (a + n) % U32 - b == (a - b + n) + (-w) * U32;
    ModAddMultiple(a - b + n, -w, U32);
    ModUnique(a - b + n, U32, (a - b) / U32, x + n);
  }

  /** Reading `n` stored bytes: the unsigned difference `in - (out + n)` shrinks by n. */
  lemma WrapShrink(a: int, b: int, n: int)
    requires 0 <= n <= (a - b) % U32
    ensures (a - (b + n) % U32) % U32 == (a - b) % U32 - n
  {
    var x := (a - b) % U32;
    var w := (b + n) / U32;
    assert a - (b + n) % U32 == (a - b - n) + w * U32;
    ModAddMultiple(a - b - n, w, U32);
    ModUnique(a - b - n, U32, (a - b) / U32, x - n);
  }

  /** With both cursors below 2^32, `in` is `out` advanced by the used count. */
  lemma CursorAhead(a: u32, b: u32)
    ensures a == (b + (a - b) % U32) % U32
  {
    if a >= b {
      ModUnique(a - b, U32, 0, a - b);
      ModUnique(b + (a - b), U32, 0, a);
    } else {
      ModUnique(a - b, U32, -1, a - b + U32);
      ModUnique(b + (a - b + U32), U32, 1, a);
    }
  }

  lemma ModMinusMod(x: int, y: int, m: int)
    requires m > 0
    ensures (x % m - y) % m == (x - y) % m
  {
    var q := x / m;
    assert x % m - y == (x - y) + (-q) * m;
    ModAddMultiple(x - y, -q, m);
  }

  /** Multiples of 2^32 are multiples of every storage size. */
  lemma U32MultipleSlot(a: int, w: int, size: nat)
    requires IsPowerOfTwo(size) && size <= U32
    ensures (a + w * U32) % size == a % size
  {
    SizeDividesU32(size);
    var k := U32 / size;
    assert w * U32 == (w * k) * size;
    ModAddMultiple(a, w * k, size);
  }

  /**
   * Seen from the write cursor `in = out + used`, the slot of stored byte i
   * lies at least `size - used` positions ahead, beyond any new write.
   */
  lemma SlotGap(outPos: int, used: int, i: int, inPos: int, size: nat)
    requires IsPowerOfTwo(size) && size <= U32
    requires 0 <= i < used <= size
    requires inPos == (outPos + used) % U32
    ensures ((outPos + i) % size - inPos) % size == i - used + size
  {
    ModMinusMod(outPos + i, inPos, size);
    var w := (outPos + used) / U32;
    assert outPos + i - inPos == (i - used) + w * U32;
    U32MultipleSlot(i - used, w, size);
    ModUnique(i - used, size, -1, i - used + size);
  }

  /** Byte i of `contents` is stored at slot `(out + i) & (size - 1)`. */
  ghost predicate Layout(store: seq<char>, outPos: int, contents: seq<char>, size: nat)
    requires 0 < size <= |store|
  {
    forall i {:trigger contents[i]} :: 0 <= i < |contents| ==> contents[i] == store[(outPos + i) % size]
  }

  /** How far slot `j` lies ahead of slot `o` on a ring of `size` slots. */
  function Ahead(j: int, o: int, size: int): int {
    if j >= o then j - o else j - o + size
  }

  /** Seen from slot `off & (size - 1)`, slot `j` lies `(j - off) & (size - 1)` ahead. */
  lemma AheadOfSlot(j: int, off: int, size: int)
    requires 0 <= j < size
    ensures Ahead(j, off % size, size) == (j - off) % size
  {
    var q, o := off / size, off % size;
    if j >= o {
      ModUnique(j - off, size, -q, j - o);
    } else {
      ModUnique(j - off, size, -q - 1, j - o + size);
    }
  }

  /** A stored byte's slot lies at least `size - used` slots ahead of the write cursor. */
  lemma StoredSlotKept(outPos: int, used: int, i: int, inPos: int, size: nat)
    requires IsPowerOfTwo(size) && size <= U32
    requires 0 <= i < used <= size
    requires inPos == (outPos + used) % U32
    ensures Ahead((outPos + i) % size, inPos % size, size) == i - used + size
  {
    AheadOfSlot((outPos + i) % size, inPos, size);
    SlotGap(outPos, used, i, inPos, size);
  }

  /** The `d`-th new byte's slot lies `d` slots ahead of the write cursor. */
  lemma NewSlotAhead(outPos: int, used: int, d: int, inPos: int, size: nat)
    requires IsPowerOfTwo(size) && size <= U32
    requires 0 <= d < size
    requires inPos == (outPos + used) % U32
    ensures Ahead((outPos + (used + d)) % size, inPos % size, size) == d
  {
    AheadOfSlot((outPos + (used + d)) % size, inPos, size);
    WrapKeepsSlot(outPos + used, d, size);
    ModMinusMod(inPos + d, inPos, size);
    ModUnique(d, size, 0, d);
  }

  /**
   * The storage after `fifo_copy_in(src, n, off)` with `o = off & (size - 1)`:
   * slot `j` holds the byte of `src` at its distance ahead of `o` when that
   * distance is below `n`, and its old byte otherwise.
   */
  ghost function Overwrite(s: seq<char>, o: int, src: seq<char>, n: nat, size: nat): (t: seq<char>)
    requires 0 <= o < size <= |s| && n <= |src| && n <= size
    ensures |t| == |s|
  {
    seq(|s|, j requires 0 <= j < |s| =>
      if j < size && Ahead(j, o, size) < n then src[Ahead(j, o, size)] else s[j])
  }

  /**
   * Writing n bytes at the slots that follow the stored ones, and nowhere
   * within `size - n` slots behind them, appends those bytes to the layout.
   */
  lemma LayoutAfterWrite(s: seq<char>, t: seq<char>, outPos: int, inPos: int, contents: seq<char>,
                         src: seq<char>, n: nat, size: nat)
    requires IsPowerOfTwo(size) && size < U32 && size <= |s| == |t|
    requires Layout(s, outPos, contents, size)
    requires |contents| + n <= size && n <= |src|
    requires inPos == (outPos + |contents|) % U32
    requires t == Overwrite(s, inPos % size, src, n, size)
    ensures Layout(t, outPos, contents + src[..n], size)
  {
    var c := contents + src[..n];
    forall i | 0 <= i < |c|
      ensures c[i] == t[(outPos + i) % size]
    {
      if i < |contents| {
        StoredSlotKept(outPos, |contents|, i, inPos, size);
      } else {
        NewSlotAhead(outPos, |contents|, i - |contents|, inPos, size);
      }
    }
  }

  /** The whole effect of `fifo_in` on the cursors and the layout. */
  lemma AppendKeepsLayout(s: seq<char>, t: seq<char>, outPos: u32, inPos: u32, contents: seq<char>,
                          src: seq<char>, n: nat, size: nat)
    requires IsPowerOfTwo(size) && size < U32 && size <= |s| == |t|
    requires Layout(s, outPos, contents, size) && |contents| == (inPos - outPos) % U32
    requires |contents| + n <= size && n <= |src|
    requires t == Overwrite(s, inPos % size, src, n, size)
    ensures |contents + src[..n]| == ((inPos + n) % U32 - outPos) % U32
    ensures Layout(t, outPos, contents + src[..n], size)
  {
    CursorAhead(inPos, outPos);
    WrapGrow(inPos, outPos, n);
    LayoutAfterWrite(s, t, outPos, inPos, contents, src, n, size);
  }

  /**
   * The representation invariant of a `struct fifo` over the values of its
   * members: a power-of-two size that fits the storage, `in - out` (mod
   * 2^32) bytes stored, and each at its slot.
   */
  ghost predicate RingOk(store: seq<char>, mask: u32, inPos: u32, outPos: u32, contents: seq<char>) {
    && IsPowerOfTwo(mask + 1)
    && mask + 1 < U32
    && mask + 1 <= |store|
    && |contents| == (inPos - outPos) % U32
    && |contents| <= mask + 1
    && Layout(store, outPos, contents, mask + 1)
  }

  /** `fifo_in`'s write and cursor update keep the invariant. */
  lemma AppendKeepsRing(s: seq<char>, t: seq<char>, mask: u32, inPos: u32, outPos: u32, contents: seq<char>,
                        src: seq<char>, n: nat)
    requires RingOk(s, mask, inPos, outPos, contents)
    requires |contents| + n <= mask + 1 && n <= |src|
    requires t == Overwrite(s, inPos % (mask + 1), src, n, mask + 1)
    ensures RingOk(t, mask, (inPos + n) % U32, outPos, contents + src[..n])
  {
    AppendKeepsLayout(s, t, outPos, inPos, contents, src, n, mask + 1);
  }

  /** The slot `d` places after slot `o` on a ring of `size` slots. */
  function SlotAfter(o: int, d: int, size: int): int {
    if o + d < size then o + d else o + d - size
  }

  /** The `n` bytes stored from slot `o` on, wrapping at `size`. */
  ghost function Window(store: seq<char>, o: int, n: nat, size: nat): (w: seq<char>)
    requires 0 <= o < size <= |store| && n <= size
    ensures |w| == n
  {
    seq(n, i requires 0 <= i < n => store[SlotAfter(o, i, size)])
  }

  /** The window at `out & (size - 1)` starts with the `n` oldest bytes. */
  lemma ReadOldest(store: seq<char>, outPos: int, contents: seq<char>, size: nat, n: nat)
    requires 0 < size <= |store| && Layout(store, outPos, contents, size)
    requires n <= |contents| && n <= size
    ensures Window(store, outPos % size, n, size) == contents[..n]
  {
    forall k | 0 <= k < n
      ensures Window(store, outPos % size, n, size)[k] == contents[k]
    {
      SlotOfOffset(outPos, k, size);
    }
  }

  /** Advancing the read cursor by n drops the n oldest bytes from the layout. */
  lemma LayoutAfterRead(s: seq<char>, outPos: int, contents: seq<char>, n: nat, size: nat)
    requires IsPowerOfTwo(size) && size <= U32 && size <= |s|
    requires Layout(s, outPos, contents, size) && n <= |contents|
    ensures Layout(s, (outPos + n) % U32, contents[n..], size)
  {
    forall i | 0 <= i < |contents| - n
      ensures contents[n..][i] == s[((outPos + n) % U32 + i) % size]
    {
      WrapKeepsSlot(outPos + n, i, size);
    }
  }

  // ---------------------------------------------------------------------
  // memcpy
  // ---------------------------------------------------------------------

  /** `memcpy(dst + dstOff, src + srcOff, n)`. */
  method MemCopy(dst: array<char>, dstOff: nat, src: seq<char>, srcOff: nat, n: nat)
    requires dstOff + n <= dst.Length && srcOff + n <= |src|
    modifies dst
    ensures forall j :: dstOff <= j < dstOff + n ==> dst[j] == src[j - dstOff + srcOff]
    ensures forall j :: 0 <= j < dst.Length && !(dstOff <= j < dstOff + n) ==> dst[j] == old(dst[j])
  {
    var i := 0;
    while i < n
      invariant 0 <= i <= n
      invariant forall j :: dstOff <= j < dstOff + i ==> dst[j] == src[j - dstOff + srcOff]
      invariant forall j :: 0 <= j < dst.Length && !(dstOff <= j < dstOff + i) ==> dst[j] == old(dst[j])
    {
      dst[dstOff + i] := src[srcOff + i];
      i := i + 1;
    }
  }

  /** `fifo_out`'s cursor update keeps the invariant and drops the `n` oldest bytes. */
  lemma ReadKeepsRing(store: seq<char>, mask: u32, inPos: u32, outPos: u32, contents: seq<char>, n: nat)
    requires RingOk(store, mask, inPos, outPos, contents) && n <= |contents|
    ensures RingOk(store, mask, inPos, (outPos + n) % U32, contents[n..])
  {
    WrapShrink(inPos, outPos, n);
    LayoutAfterRead(store, outPos, contents, n, mask + 1);
  }

  // ---------------------------------------------------------------------
  // struct fifo
  // ---------------------------------------------------------------------

  class Ring {
    var inPos: u32
    var outPos: u32
    var mask: u32
    var data: array?<char>
    /** The bytes stored and not yet read, oldest first. */
    ghost var Contents: seq<char>

    ghost predicate Valid()
      reads this, data
    {
      data != null && RingOk(data[..], mask, inPos, outPos, Contents)
    }

    /** A statically allocated `struct fifo`: every member zero. */
    constructor ()
      ensures inPos == 0 && outPos == 0 && mask == 0 && data == null && Contents == []
    {
      inPos, outPos, mask, data := 0, 0, 0, null;
      Contents := [];
    }

    /** `fifo_used`: the number of stored bytes, `in - out` in unsigned arithmetic. */
    function Used(): (r: u32)
      reads this
      ensures Valid() ==> r == |Contents|
    {
      (inPos - outPos) % U32
    }

    /** `fifo_unused`: the free space, `(mask + 1) - (in - out)`. */
    function Unused(): (r: u32)
      reads this, data
      requires Valid()
      ensures r == mask + 1 - |Contents|
      ensures r + |Contents| == Capacity()
    {
      (mask + 1) - Used()
    }

    function Capacity(): (c: nat)
      reads this
      ensures c >= 1
    {
      mask + 1
    }

    /**
     * `fifo_init`: adopt caller-supplied storage. A size that is not a power
     * of two is refused with -1 and the structure is left as it was; size 1
     * sets the cursors and the storage but leaves `mask` at 0 and also
     * reports -1.
     */
    method Init(buffer: array<char>, size: u32) returns (r: int)
      requires size <= buffer.Length
      modifies this
      ensures !IsPowerOfTwo(size) ==>
                r == -1 && inPos == old(inPos) && outPos == old(outPos)
                && mask == old(mask) && data == old(data) && Contents == old(Contents)
      ensures IsPowerOfTwo(size) ==>
                Valid() && data == buffer && inPos == 0 && outPos == 0
                && Contents == [] && mask == (if size < 2 then 0 else size - 1)
                && r == (if size < 2 then -1 else 0)
    {
      if !IsPowerOfTwo(size) {
        return -1;
      }
      inPos := 0;
      outPos := 0;
      data := buffer;
      Contents := [];
      if size < 2 {
        mask := 0;
        return -1;
      }
      mask := size - 1;
      return 0;
    }

    /**
     * `fifo_alloc`: like `Init`, but the storage is a fresh array of `size`
     * bytes and both cursors start at 1. Size 1 gets no storage and also
     * reports -1.
     */
    method Alloc(size: u32) returns (r: int)
      modifies this
      ensures !IsPowerOfTwo(size) ==>
                r == -1 && inPos == old(inPos) && outPos == old(outPos)
                && mask == old(mask) && data == old(data) && Contents == old(Contents)
      ensures IsPowerOfTwo(size) && size < 2 ==>
                r == -1 && inPos == 1 && outPos == 1 && mask == 0 && data == null && Contents == []
      ensures IsPowerOfTwo(size) && size >= 2 ==>
                r == 0 && Valid() && fresh(data) && data.Length == size && mask == size - 1
                && inPos == 1 && outPos == 1 && Contents == []
    {
      if !IsPowerOfTwo(size) {
        return -1;
      }
      inPos := 1;
      outPos := 1;
      Contents := [];
      if size < 2 {
        data := null;
        mask := 0;
        return -1;
      }
      data := new char[size];
      mask := size - 1;
      return 0;
    }

    /** `fifo_free`: forget the storage and zero the cursors and the mask. */
    method Free()
      modifies this
      ensures inPos == 0 && outPos == 0 && mask == 0 && data == null && Contents == []
    {
      inPos := 0;
      outPos := 0;
      data := null;
      mask := 0;
      Contents := [];
    }

    /**
     * `fifo_copy_in`: store `src[i]` at slot `(off + i) & mask`, in two
     * copies split at the end of the storage. A slot whose offset from
     * `off` is `len` or more keeps its byte.
     */
    method CopyIn(src: seq<char>, len: u32, off: u32)
      requires data != null && mask + 1 <= data.Length
      requires len <= mask + 1 && len <= |src|
      modifies data
      ensures data[..] == Overwrite(old(data[..]), off % (mask + 1), src, len, mask + 1)
    {
      var size := mask + 1;
      var o := off % size;  // off &= mask
      var l := Min(len, size - o);
      MemCopy(data, o, src, 0, l);
      MemCopy(data, 0, src, l, len - l);
      assert data[..] == Overwrite(old(data[..]), o, src, len, size);
    }

    /**
     * `fifo_in`: accept as many of the first `len` bytes of `src` as there
     * are free slots, store them after the newest byte and return their count.
     */
    method In(src: seq<char>, len: u32) returns (n: u32)
      requires Valid() && len <= |src|
      modifies this, data
      ensures Valid() && data == old(data) && mask == old(mask) && outPos == old(outPos)
      ensures n == Min(len, old(Unused()))
      ensures inPos == (old(inPos) + n) % U32
      ensures Contents == old(Contents) + src[..n]
    {
      var l := Unused();
      n := len;
      if n > l {
        n := l;
      }
      ghost var before := data[..];
      ghost var stored := Contents;
      CopyIn(src, n, inPos);
      ghost var after := data[..];
      AppendKeepsRing(before, after, mask, inPos, outPos, stored, src, n);
      inPos := (inPos + n) % U32;
      Contents := stored + src[..n];
      assert data[..] == after;
    }

    /**
     * `fifo_copy_out`: `dst[dstOff + i] := data[(off + i) & mask]` for
     * `i < len`, in two copies split at the end of the storage.
     */
    method CopyOut(dst: array<char>, dstOff: nat, len: u32, off: u32)
      requires data != null && mask + 1 <= data.Length && dst != data
      requires len <= mask + 1 && dstOff + len <= dst.Length
      modifies dst
      ensures dst[dstOff..dstOff + len] == Window(data[..], off % (mask + 1), len, mask + 1)
      ensures dst[..dstOff] == old(dst[..dstOff]) && dst[dstOff + len..] == old(dst[dstOff + len..])
    {
      var size := mask + 1;
      var o := off % size;  // off &= mask
      var l := Min(len, size - o);
      MemCopy(dst, dstOff, data[..], o, l);
      MemCopy(dst, dstOff + l, data[..], 0, len - l);
      assert dst[dstOff..dstOff + len] == Window(data[..], o, len, size);
    }

    /**
     * `fifo_out_peek`: copy the oldest `min(len, used)` bytes to
     * `dst[dstOff..]` without consuming them.
     */
    method Peek(dst: array<char>, dstOff: nat, len: u32) returns (n: u32)
      requires Valid() && dst != data && dstOff + len <= dst.Length
      modifies dst
      ensures n == Min(len, |Contents|)
      ensures dst[dstOff..dstOff + n] == Contents[..n]
      ensures dst[..dstOff] == old(dst[..dstOff]) && dst[dstOff + n..] == old(dst[dstOff + n..])
    {
      var l := (inPos - outPos) % U32;
      n := len;
      if n > l {
        n := l;
      }
      ReadOldest(data[..], outPos, Contents, mask + 1, n);
      CopyOut(dst, dstOff, n, outPos);
    }

    /**
     * `fifo_out`: the same bytes as `Peek`, then `out` advances by the
     * returned count only; the storage is untouched.
     */
    method Out(dst: array<char>, dstOff: nat, len: u32) returns (n: u32)
      requires Valid() && dst != data && dstOff + len <= dst.Length
      modifies this, dst
      ensures Valid() && data == old(data) && mask == old(mask) && inPos == old(inPos)
      ensures n == Min(len, |old(Contents)|)
      ensures outPos == (old(outPos) + n) % U32
      ensures dst[dstOff..dstOff + n] == old(Contents)[..n]
      ensures Contents == old(Contents)[n..]
      ensures dst[..dstOff] == old(dst[..dstOff]) && dst[dstOff + n..] == old(dst[dstOff + n..])
    {
      n := Peek(dst, dstOff, len);
      ReadKeepsRing(data[..], mask, inPos, outPos, Contents, n);
      outPos := (outPos + n) % U32;
      Contents := Contents[n..];
    }
  }

  // ---------------------------------------------------------------------
  // The queue discipline over whole traces of calls.
  // ---------------------------------------------------------------------

  /** One producer or consumer call on a FIFO. */
  datatype Call = Put(src: seq<char>, len: nat) | Get(len: nat)

  /** What a trace of calls did: every byte accepted, every byte delivered, and what is left. */
  datatype Trace = Trace(accepted: seq<char>, delivered: seq<char>, contents: seq<char>)

  /** The effect of one `fifo_in` or `fifo_out` on the contents, as `Ring.In` and `Ring.Out` state it. */
  function Apply(t: Trace, c: Call, capacity: nat): Trace {
    match c
    case Put(src, len) =>
      var n := Min(Min(len, |src|), capacity - |t.contents|);
      if n < 0 then t
      else Trace(t.accepted + src[..n], t.delivered, t.contents + src[..n])
    case Get(len) =>
      var n := Min(len, |t.contents|);
      Trace(t.accepted, t.delivered + t.contents[..n], t.contents[n..])
  }

  /** A trace of calls replayed from an empty FIFO. */
  function Replay(calls: seq<Call>, capacity: nat): (t: Trace)
    decreases |calls|
  {
    if |calls| == 0 then Trace([], [], [])
    else Apply(Replay(calls[..|calls| - 1], capacity), calls[|calls| - 1], capacity)
  }

  /** Every single call keeps "delivered, then stored, is what was accepted" and the capacity bound. */
  lemma ApplyKeepsOrder(t: Trace, c: Call, capacity: nat)
    requires t.accepted == t.delivered + t.contents && |t.contents| <= capacity
    ensures Apply(t, c, capacity).accepted == Apply(t, c, capacity).delivered + Apply(t, c, capacity).contents
    ensures |Apply(t, c, capacity).contents| <= capacity
  {
    match c
    case Put(src, len) =>
      var n := Min(Min(len, |src|), capacity - |t.contents|);
      assert t.accepted + src[..n] == t.delivered + (t.contents + src[..n]);
    case Get(len) =>
      var n := Min(len, |t.contents|);
      assert t.contents == t.contents[..n] + t.contents[n..];
      assert t.accepted == (t.delivered + t.contents[..n]) + t.contents[n..];
  }

  /**
   * Round trip: the bytes delivered so far, followed by what is still
   * stored, are exactly the bytes accepted, in order; and the FIFO never
   * holds more than its capacity.
   */
  lemma {:induction false} ReplayRoundTrip(calls: seq<Call>, capacity: nat)
    ensures Replay(calls, capacity).accepted == Replay(calls, capacity).delivered + Replay(calls, capacity).contents
    ensures |Replay(calls, capacity).contents| <= capacity
    decreases |calls|
  {
    if |calls| > 0 {
      var prefix := calls[..|calls| - 1];
      ReplayRoundTrip(prefix, capacity);
      ApplyKeepsOrder(Replay(prefix, capacity), calls[|calls| - 1], capacity);
    }
  }

  /** Once everything stored has been read back, the output is exactly the accepted input. */
  lemma DrainedTraceDeliversAll(calls: seq<Call>, capacity: nat)
    requires |Replay(calls, capacity).contents| == 0
    ensures Replay(calls, capacity).delivered == Replay(calls, capacity).accepted
  {
    ReplayRoundTrip(calls, capacity);
  }
  /** A call whose lengths fit the `unsigned int` parameters of `fifo_in` and `fifo_out`. */
  predicate CallFits(c: Call) {
    match c
    case Put(_, len) => len < U32
    case Get(len) => len < U32
  }

  /**
   * Runs a trace of calls on an empty FIFO through `Ring.In` and `Ring.Out`,
   * each read into a scratch buffer of the requested length, and returns
   * the bytes read in order: exactly what `Replay` says, so the round trip
   * proved there holds for the FIFO itself.
   */
  method RunTrace(f: Ring, calls: seq<Call>) returns (delivered: seq<char>)
    requires f.Valid() && f.Contents == []
    requires forall i :: 0 <= i < |calls| ==> CallFits(calls[i])
    modifies f, f.data
    ensures f.Valid() && f.data == old(f.data) && f.mask == old(f.mask)
    ensures delivered == Replay(calls, f.Capacity()).delivered
    ensures f.Contents == Replay(calls, f.Capacity()).contents
    ensures delivered + f.Contents == Replay(calls, f.Capacity()).accepted
  {
    delivered := [];
    var i := 0;
    while i < |calls|
      invariant 0 <= i <= |calls|
      invariant f.Valid() && f.data == old(f.data) && f.mask == old(f.mask)
      invariant delivered == Replay(calls[..i], f.Capacity()).delivered
      invariant f.Contents == Replay(calls[..i], f.Capacity()).contents
    {
      assert calls[..i + 1][..i] == calls[..i];
      match calls[i] {
        case Put(src, len) =>
          var n := f.In(src, Min(len, |src|));
        case Get(len) =>
          var scratch := new char[len];
          var n := f.Out(scratch, 0, len);
          delivered := delivered + scratch[..n];
      }
      i := i + 1;
    }
    assert calls[..|calls|] == calls;
    ReplayRoundTrip(calls, f.Capacity());
  }
}
