/** The pointer arithmetic and the slot layout of the ring buffer, as pure functions.

    Pointers run modulo twice the size, so that a full buffer (pointers one size apart) and an
    empty one (equal pointers) differ. `Cbuf` uses these functions on its fields, `CbufThreads`
    on the values two threads happen to observe. */
module Ring {
  import opened Bits

  function PtrAdd(size: nat, ptr: nat, n: nat): nat
    requires 0 < size
  {
    And(ptr + n, 2 * size - 1)
  }

  predicate IsFull(size: nat, wr: nat, rd: nat) {
    wr == Xor(rd, size)
  }

  /** The level computed from two observations of each pointer: the full test uses the first
      pair, the subtraction the second. Without interference both pairs are the same. */
  function FillLevel(size: nat, wr1: nat, rd1: nat, wr2: nat, rd2: nat): int
    requires 0 < size
  {
    if IsFull(size, wr1, rd1) then size
    else
      var level := And(wr2, size - 1) - And(rd2, size - 1);
      if level < 0 then level + size else level
  }

  /** How far `wr` is ahead of `rd` on the circle of `2 * size` pointers. */
  function Distance(size: nat, wr: nat, rd: nat): nat
    requires rd < 2 * size
  {
    if wr >= rd then wr - rd else wr + 2 * size - rd
  }

  /** A position less than two array lengths, brought back into the array. */
  function Wrap(s: nat, pos: nat): (r: nat)
    requires 0 < s && pos < 2 * s
    ensures r < s
  {
    if pos < s then pos else pos - s
  }

  /** The pointers are kept modulo `2 * size`, and the distance is their difference there. */
  lemma PointersAreModular(size: nat, wr: nat, rd: nat, n: nat)
    requires IsPow2(size) && wr < 2 * size && rd < 2 * size
    ensures PtrAdd(size, wr, n) == (wr + n) % (2 * size)
    ensures Distance(size, wr, rd) == (wr + 2 * size - rd) % (2 * size)
  {
    var k: nat :| size == Pow2(k);
    assert 2 * size == Pow2(k + 1);
    MaskIsMod(wr + n, k + 1);
    ModUnique(wr + 2 * size - rd, 2 * size, if wr >= rd then 1 else 0, Distance(size, wr, rd));
  }

  lemma SlotIsWrap(size: nat, ptr: nat)
    requires IsPow2(size) && ptr < 2 * size
    ensures And(ptr, size - 1) == Wrap(size, ptr)
  {
    var k: nat :| size == Pow2(k);
    MaskIsMod(ptr, k);
    ModUnique(ptr, size, if ptr < size then 0 else 1, Wrap(size, ptr));
  }

  lemma FullIsHalfTurn(size: nat, wr: nat, rd: nat)
    requires IsPow2(size) && wr < 2 * size && rd < 2 * size
    ensures IsFull(size, wr, rd) <==> Distance(size, wr, rd) == size
  {
    var k: nat :| size == Pow2(k);
    XorFlipsTopBit(rd, k);
  }

  /** Without interference the masked subtraction is exactly the distance of the pointers, for
      every power-of-two size, and the two tests recognise its extreme values. */
  lemma FillLevelIsDistance(size: nat, wr: nat, rd: nat)
    requires IsPow2(size) && wr < 2 * size && rd < 2 * size
    requires Distance(size, wr, rd) <= size
    ensures FillLevel(size, wr, rd, wr, rd) == Distance(size, wr, rd)
    ensures IsFull(size, wr, rd) <==> Distance(size, wr, rd) == size
    ensures wr == rd <==> Distance(size, wr, rd) == 0
  {
    FullIsHalfTurn(size, wr, rd);
    SlotIsWrap(size, wr);
    SlotIsWrap(size, rd);
  }

  /** The level a reader computes while the writer moves between its two looks: exact, unless
      the writer filled the buffer to the brim in between. Then it is zero. */
  lemma ReaderLevel(size: nat, wrSeen: nat, wr: nat, rd: nat)
    requires IsPow2(size) && wrSeen < 2 * size && wr < 2 * size && rd < 2 * size
    requires Distance(size, wrSeen, rd) <= Distance(size, wr, rd) <= size
    ensures FillLevel(size, wrSeen, rd, wr, rd)
         == if Distance(size, wrSeen, rd) < size == Distance(size, wr, rd) then 0
            else Distance(size, wr, rd)
  {
    FullIsHalfTurn(size, wrSeen, rd);
    FillLevelIsDistance(size, wr, rd);
    SlotIsWrap(size, wr);
    SlotIsWrap(size, rd);
  }

  /** The level a writer computes while the reader moves between its two looks: exact, unless
      the buffer was full at the first one. Then it is still taken to be full. */
  lemma WriterLevel(size: nat, wr: nat, rdSeen: nat, rd: nat)
    requires IsPow2(size) && wr < 2 * size && rdSeen < 2 * size && rd < 2 * size
    requires Distance(size, wr, rd) <= Distance(size, wr, rdSeen) <= size
    ensures FillLevel(size, wr, rdSeen, wr, rd)
         == if Distance(size, wr, rdSeen) == size then size else Distance(size, wr, rd)
  {
    FullIsHalfTurn(size, wr, rdSeen);
    FillLevelIsDistance(size, wr, rd);
  }

  /** Advancing a pointer by at most the size. */
  lemma PtrAddSteps(size: nat, ptr: nat, n: nat)
    requires IsPow2(size) && ptr < 2 * size && n <= size
    ensures PtrAdd(size, ptr, n) == Wrap(2 * size, ptr + n)
  {
    PointersAreModular(size, ptr, ptr, n);
    ModUnique(ptr + n, 2 * size, if ptr + n < 2 * size then 0 else 1, Wrap(2 * size, ptr + n));
  }

  /** The `n` bytes stored from slot `from` on, wrapping at the end of the array. */
  function Window(d: seq<byte>, from: nat, n: nat): (w: seq<byte>)
    requires from < |d| && n <= |d|
    ensures |w| == n
    ensures forall i :: 0 <= i < n ==> w[i] == d[Wrap(|d|, from + i)]
  {
    seq(n, i requires 0 <= i < n => d[Wrap(|d|, from + i)])
  }

  /** The array after storing `src` from slot `at` on, wrapping at the end. */
  function Store(d: seq<byte>, at: nat, src: seq<byte>): (r: seq<byte>)
    requires at < |d|
    ensures |r| == |d|
    ensures forall i :: 0 <= i < |d| ==>
              var off := Wrap(|d|, i + |d| - at);
              r[i] == if off < |src| then src[off] else d[i]
  {
    seq(|d|, i requires 0 <= i < |d| =>
      var off := Wrap(|d|, i + |d| - at);
      if off < |src| then src[off] else d[i])
  }

  lemma WindowConcat(d: seq<byte>, from: nat, n: nat, m: nat)
    requires from < |d| && n + m <= |d|
    ensures Window(d, from, n + m)
         == Window(d, from, n) + Window(d, Wrap(|d|, from + n), m)
  {
    var whole, first, rest :=
      Window(d, from, n + m), Window(d, from, n), Window(d, Wrap(|d|, from + n), m);
    forall i | 0 <= i < n + m
      ensures whole[i] == (first + rest)[i]
    {
    }
  }

  /** Without a wrap the window is a slice of the array, with a wrap it is two slices. */
  lemma WindowIsSlices(d: seq<byte>, from: nat, n: nat)
    requires from < |d| && n <= |d|
    ensures from + n <= |d| ==> Window(d, from, n) == d[from..from + n]
    ensures from + n > |d| ==> Window(d, from, n) == d[from..] + d[..n - (|d| - from)]
  {
    var w := Window(d, from, n);
    if from + n <= |d| {
      assert forall i | 0 <= i < n :: w[i] == d[from..from + n][i];
    } else {
      assert forall i | 0 <= i < n :: w[i] == (d[from..] + d[..n - (|d| - from)])[i];
    }
  }

  lemma StoreThenWindow(d: seq<byte>, at: nat, src: seq<byte>)
    requires at < |d| && |src| <= |d|
    ensures Window(Store(d, at, src), at, |src|) == src
  {
    var w := Window(Store(d, at, src), at, |src|);
    assert forall i | 0 <= i < |src| :: w[i] == src[i];
  }

  /** Storing into the free slots behind a window leaves the window alone. */
  lemma StoreBehindWindow(d: seq<byte>, from: nat, n: nat, src: seq<byte>)
    requires from < |d| && n + |src| <= |d|
    ensures Window(Store(d, Wrap(|d|, from + n), src), from, n) == Window(d, from, n)
  {
    var w, was := Window(Store(d, Wrap(|d|, from + n), src), from, n), Window(d, from, n);
    assert forall i | 0 <= i < n :: w[i] == was[i];
  }

  /** A store made of at most two copies, one to the end of the array and one at its start. */
  function Sliced(d: seq<byte>, at: nat, src: seq<byte>): seq<byte>
    requires at < |d| && |src| <= |d|
  {
    var end := |d| - at;
    if |src| <= end then d[..at] + src + d[at + |src|..]
    else src[end..] + d[|src| - end..at] + src[..end]
  }

  lemma StoreIsSlices(d: seq<byte>, at: nat, src: seq<byte>)
    requires at < |d| && |src| <= |d|
    ensures Store(d, at, src) == Sliced(d, at, src)
  {
    var end, r := |d| - at, Store(d, at, src);
    if |src| <= end {
      assert forall i | 0 <= i < |d| :: r[i] == (d[..at] + src + d[at + |src|..])[i];
    } else {
      assert forall i | 0 <= i < |d| ::
          r[i] == (src[end..] + d[|src| - end..at] + src[..end])[i];
    }
  }

  /** Storing `src` behind the valid bytes leaves them alone; the slots from the writer on then
      hold `src`. */
  lemma StoreAtWriter(size: nat, d: seq<byte>, wr: nat, rd: nat, src: seq<byte>, k: nat)
    requires 0 < size == |d| && wr < 2 * size && rd < 2 * size
    requires Distance(size, wr, rd) + |src| <= size && k <= |src|
    ensures var n, stored := Distance(size, wr, rd), Store(d, Wrap(size, wr), src);
            && Window(stored, Wrap(size, rd), n) == Window(d, Wrap(size, rd), n)
            && Window(stored, Wrap(size, wr), k) == src[..k]
  {
    var n, from, at := Distance(size, wr, rd), Wrap(size, rd), Wrap(size, wr);
    assert at == Wrap(size, from + n);
    StoreBehindWindow(d, from, n, src);
    StoreThenWindow(d, at, src);
    WindowConcat(Store(d, at, src), at, k, |src| - k);
  }

  /** Advancing the writer appends what the slots from the writer on hold. */
  lemma AdvanceWriter(size: nat, d: seq<byte>, wr: nat, rd: nat, k: nat)
    requires 0 < size == |d| && wr < 2 * size && rd < 2 * size
    requires Distance(size, wr, rd) + k <= size
    ensures var n, wr' := Distance(size, wr, rd), Wrap(2 * size, wr + k);
            && Distance(size, wr', rd) == n + k
            && Window(d, Wrap(size, rd), n + k)
               == Window(d, Wrap(size, rd), n) + Window(d, Wrap(size, wr), k)
  {
    var n, from, at := Distance(size, wr, rd), Wrap(size, rd), Wrap(size, wr);
    assert at == Wrap(size, from + n);
    WindowConcat(d, from, n, k);
  }

  /** Advancing the reader drops the oldest bytes of the queue. */
  lemma DropFromQueue(size: nat, d: seq<byte>, wr: nat, rd: nat, k: nat)
    requires 0 < size == |d| && wr < 2 * size && rd < 2 * size
    requires k <= Distance(size, wr, rd) <= size
    ensures var n, rd' := Distance(size, wr, rd), Wrap(2 * size, rd + k);
            && Distance(size, wr, rd') == n - k
            && Window(d, Wrap(size, rd), k) == Window(d, Wrap(size, rd), n)[..k]
            && Window(d, Wrap(size, rd'), n - k) == Window(d, Wrap(size, rd), n)[k..]
  {
    var n := Distance(size, wr, rd);
    assert Wrap(size, Wrap(2 * size, rd + k)) == Wrap(size, Wrap(size, rd) + k);
    WindowConcat(d, Wrap(size, rd), k, n - k);
  }

  /** The copy from a temporary buffer: `tmp` to the end of the array, then, if `n` reaches
      further, the rest of the first `n` bytes to its start. */
  lemma TemporaryCopyIsStore(d: seq<byte>, at: nat, tmp: seq<byte>, n: nat)
    requires at < |d| && |d| - at <= |tmp| && n <= |tmp| && n <= |d|
    ensures var end := |d| - at;
            var first := d[..at] + tmp[..end] + d[at + end..];
            && (n <= end ==> Store(d, at, tmp[..end]) == first)
            && (n > end ==> Store(d, at, tmp[..n]) == tmp[end..n] + first[n - end..])
  {
    var end := |d| - at;
    var first := d[..at] + tmp[..end] + d[at + end..];
    if n <= end {
      StoreIsSlices(d, at, tmp[..end]);
    } else {
      StoreIsSlices(d, at, tmp[..n]);
      assert tmp[..n][..end] == tmp[..end] && tmp[..n][end..] == tmp[end..n];
      assert first[n - end..] == d[n - end..at] + tmp[..end];
      assert tmp[end..n] + first[n - end..] == tmp[end..n] + d[n - end..at] + tmp[..end];
    }
  }
}
