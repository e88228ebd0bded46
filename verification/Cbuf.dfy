/** The circular buffer of the GLIP library: a byte queue of bounded length over an array,
    with a copying interface (`Write`, `Read`) and a pointer interface (`Reserve`/`Commit`,
    `Peek`/`Discard`) that falls back to temporary buffers when a block wraps. */
module Cbufs {
  import opened Bits
  import opened Ring

  /** Return values: 0 and -EINVAL. */
  datatype Status = Success | Invalid

  class Cbuf {
    const size: nat
    const data: array<byte>
    var wrPtr: nat
    var rdPtr: nat
    var hintMaxReadSize: nat
    var hintMaxWriteSize: nat
    var readTmp: array<byte>
    var writeTmp: array<byte>
    /** The block handed out by the last `Reserve` and not committed yet. */
    ghost var reserved: nat

    ghost predicate Valid()
      reads this
    {
      && IsPow2(size) && data.Length == size
      && wrPtr < 2 * size && rdPtr < 2 * size
      && Distance(size, wrPtr, rdPtr) <= size
      && data != readTmp && data != writeTmp && readTmp != writeTmp
      && reserved <= size - Distance(size, wrPtr, rdPtr)
      && (Wraps(wrPtr, reserved) ==> reserved <= writeTmp.Length)
    }

    /** What may change under a client that calls methods of the buffer. */
    ghost function Repr(): set<object>
      reads this
    {
      {this, data, readTmp, writeTmp}
    }

    ghost predicate Wraps(ptr: nat, n: nat)
    {
      0 < size && ptr < 2 * size && Wrap(size, ptr) + n > size
    }

    /** The bytes in the buffer, oldest first. */
    ghost function Contents(): (c: seq<byte>)
      requires Valid()
      reads this, data
      ensures |c| == Distance(size, wrPtr, rdPtr) <= size
    {
      Window(data[..], Wrap(size, rdPtr), Distance(size, wrPtr, rdPtr))
    }

    constructor (n: nat)
      requires n != 0 && And(n, n - 1) == 0
      ensures Valid() && fresh(Repr())
      ensures size == n && Contents() == [] && reserved == 0
    {
      size := n;
      data := new byte[n](_ => 0);
      wrPtr, rdPtr := 0, 0;
      hintMaxReadSize, hintMaxWriteSize := 0, 0;
      readTmp, writeTmp := new byte[0], new byte[0];
      reserved := 0;
      new;
      PowerOfTwoTest(n);
    }

    function FillLevel(): (level: nat)
      requires Valid()
      reads this, data
      ensures level == |Contents()|
    {
      FillLevelIsDistance(size, wrPtr, rdPtr);
      Ring.FillLevel(size, wrPtr, rdPtr, wrPtr, rdPtr)
    }

    function FreeLevel(): (level: nat)
      requires Valid()
      reads this, data
      ensures level == size - |Contents()|
    {
      size - FillLevel()
    }

    predicate IsEmpty()
      requires Valid()
      reads this, data
      ensures IsEmpty() <==> Contents() == []
    {
      FillLevelIsDistance(size, wrPtr, rdPtr);
      wrPtr == rdPtr
    }

    predicate IsFull()
      requires Valid()
      reads this, data
      ensures IsFull() <==> |Contents()| == size
    {
      FillLevelIsDistance(size, wrPtr, rdPtr);
      Ring.IsFull(size, wrPtr, rdPtr)
    }

    method SetHintMaxReadSize(n: nat)
      requires Valid()
      modifies this`hintMaxReadSize
      ensures Valid() && Contents() == old(Contents()) && hintMaxReadSize == n
    {
      hintMaxReadSize := n;
    }

    method SetHintMaxWriteSize(n: nat)
      requires Valid()
      modifies this`hintMaxWriteSize
      ensures Valid() && Contents() == old(Contents()) && hintMaxWriteSize == n
    {
      hintMaxWriteSize := n;
    }

    /** The power of two above the request, but at most `sizeMax`. */
    static method CalcBufsize(sizeReq: nat, sizeMax: nat) returns (n: nat)
      ensures exists powTwo: nat :: IsPow2(powTwo) && n == Min(powTwo, sizeMax)
                && Max(sizeReq, 1) < powTwo <= 2 * Max(sizeReq, 1)
    {
      var log2Size: nat := 0;
      var sizeTmp: nat := sizeReq / 2;
      while sizeTmp != 0
        invariant Bracket(sizeReq, sizeTmp, log2Size)
        decreases sizeTmp
      {
        HalvingStep(sizeReq, sizeTmp, log2Size);
        sizeTmp := sizeTmp / 2;
        log2Size := log2Size + 1;
      }
      var powTwo := Pow2(log2Size + 1);
      assert IsPow2(powTwo);
      n := if powTwo > sizeMax then sizeMax else powTwo;
    }

    /** After `k` halvings of `x / 2` the quotient is `t`. */
    ghost static predicate Bracket(x: nat, t: nat, k: nat)
    {
      && t * Pow2(k + 1) <= x < (t + 1) * Pow2(k + 1)
      && (k == 0 || Pow2(k) <= x)
    }

    static lemma HalvingStep(x: nat, t: nat, k: nat)
      requires 0 < t && Bracket(x, t, k)
      ensures Bracket(x, t / 2, k + 1)
    {
      var h, p := t / 2, Pow2(k + 1);
      assert Pow2(k + 2) == 2 * p;
      Twice(h, p);
      Twice(h + 1, p);
      NextMultiple(2 * h, p);
      NextMultiple(2 * h + 1, p);
      NextMultiple(t - 1, p);
      assert (t - 1) * p >= 0;
    }

    static lemma Twice(h: nat, p: nat)
      ensures h * (2 * p) == (2 * h) * p
    {
    }

    static method MemCpy(dst: array<byte>, off: nat, src: seq<byte>)
      requires off + |src| <= dst.Length
      modifies dst
      ensures dst[..] == old(dst[..off]) + src + old(dst[off + |src|..])
    {
      forall i | 0 <= i < |src| {
        dst[off + i] := src[i];
      }
    }

    function Slot(ptr: nat): (at: nat)
      requires Valid() && ptr < 2 * size
      reads this
      ensures at == Wrap(size, ptr)
    {
      SlotIsWrap(size, ptr);
      And(ptr, size - 1)
    }

    /** Store `src` behind the valid bytes; the pointer is not moved yet. */
    method CopyIn(src: seq<byte>)
      requires Valid() && |src| <= size - |Contents()|
      modifies data
      ensures data[..] == Store(old(data[..]), Wrap(size, wrPtr), src)
    {
      hide Cbuf.Contents, Store, Sliced;
      StoreIsSlices(data[..], Wrap(size, wrPtr), src);
      CopyInAt(Slot(wrPtr), src);
    }

    method CopyInAt(at: nat, src: seq<byte>)
      requires at < data.Length && |src| <= data.Length
      modifies data
      ensures data[..] == Sliced(old(data[..]), at, src)
    {
      if at + |src| <= data.Length {
        MemCpy(data, at, src);
      } else {
        var sizeAtEnd := data.Length - at;
        ghost var d := data[..];
        MemCpy(data, at, src[..sizeAtEnd]);
        assert data[..] == d[..at] + src[..sizeAtEnd];
        MemCpy(data, 0, src[sizeAtEnd..]);
        assert (d[..at] + src[..sizeAtEnd])[|src| - sizeAtEnd..] == d[|src| - sizeAtEnd..at] + src[..sizeAtEnd];
      }
    }

    method Write(src: seq<byte>) returns (rv: Status)
      requires Valid()
      modifies this`wrPtr, this`reserved, data
      ensures Valid() && reserved == 0
      ensures rv == if |src| <= size - |old(Contents())| then Success else Invalid
      ensures Contents() == if rv == Success then old(Contents()) + src else old(Contents())
    {
      reserved := 0;
      if |src| > FreeLevel() {
        return Invalid;
      }
      StoreAtWriter(size, data[..], wrPtr, rdPtr, src, |src|);
      CopyIn(src);
      AdvanceWrPtr(|src|);
      return Success;
    }

    /** The block a successful `Reserve` hands out: part of the array, or the temporary buffer. */
    ghost predicate IsReservedBlock(block: array<byte>, off: nat)
      requires Valid()
      reads this
    {
      if Wraps(wrPtr, reserved) then block == writeTmp && off == 0
      else block == data && off == Wrap(size, wrPtr)
    }

    method Reserve(n: nat) returns (rv: Status, block: array<byte>, off: nat)
      requires Valid()
      modifies this`reserved, this`writeTmp
      ensures Valid() && Contents() == old(Contents())
      ensures rv == if n <= size - |Contents()| then Success else Invalid
      ensures fresh(Repr() - old(Repr()))
      ensures if rv == Success then reserved == n && IsReservedBlock(block, off)
                                    && off + n <= block.Length
              else reserved == 0
    {
      reserved := 0;
      block, off := data, Slot(wrPtr);
      if n > FreeLevel() {
        return Invalid, block, off;
      }
      if Slot(wrPtr) + n > size {
        if writeTmp.Length < n {
          var tmpSize := hintMaxWriteSize;
          if n > hintMaxWriteSize {
            tmpSize := CalcBufsize(n, size);
          }
          writeTmp := new byte[tmpSize](_ => 0);
        }
        block, off := writeTmp, 0;
      }
      reserved := n;
      return Success, block, off;
    }

    /** A client of `Reserve` writes through the pointer it got. The bytes land in free slots or
        in the temporary buffer, so the queue does not change. */
    method FillReserved(block: array<byte>, off: nat, bytes: seq<byte>)
      requires Valid() && IsReservedBlock(block, off) && |bytes| <= reserved
      modifies data, writeTmp
      ensures Valid() && Contents() == old(Contents())
      ensures off + |bytes| <= block.Length && block[off..off + |bytes|] == bytes
    {
      if block == data {
        StoreIsSlices(data[..], Wrap(size, wrPtr), bytes);
        StoreAtWriter(size, data[..], wrPtr, rdPtr, bytes, |bytes|);
      }
      MemCpy(block, off, bytes);
    }

    /** Publish the first `n` bytes of a reserved block. When the block is the temporary buffer,
        everything up to the end of the array is copied, even if `n` is smaller. */
    method Commit(block: array<byte>, off: nat, n: nat)
      requires Valid() && IsReservedBlock(block, off) && n <= reserved && off + n <= block.Length
      modifies this`wrPtr, this`reserved, data
      ensures Valid() && reserved == 0
      ensures Contents() == old(Contents()) + old(block[off..off + n])
    {
      if n == 0 {
        reserved := 0;
        return;
      }
      if block == writeTmp {
        ghost var copied := block[..Max(n, size - Wrap(size, wrPtr))];
        StoreAtWriter(size, data[..], wrPtr, rdPtr, copied, n);
        CopyTemporary(n);
      } else {
        WindowIsSlices(data[..], off, n);
      }
      reserved := 0;
      AdvanceWrPtr(n);
    }

    /** The temporary buffer goes to its place: always up to the end of the array, and the rest
        of the `n` bytes to its start. */
    method CopyTemporary(n: nat)
      requires Valid() && Wraps(wrPtr, reserved) && 0 < n <= reserved
      modifies data
      ensures data[..] == Store(old(data[..]), Wrap(size, wrPtr),
                                writeTmp[..Max(n, size - Wrap(size, wrPtr))])
    {
      var sizeAtEnd := size - Slot(wrPtr);
      TemporaryCopyIsStore(data[..], Wrap(size, wrPtr), writeTmp[..], n);
      assert forall k | 0 <= k <= writeTmp.Length :: writeTmp[..][..k] == writeTmp[..k];
      MemCpy(data, Slot(wrPtr), writeTmp[..sizeAtEnd]);
      if n > sizeAtEnd {
        MemCpy(data, 0, writeTmp[sizeAtEnd..n]);
      }
    }

    /** The published pointer moves: what the slots behind it hold joins the queue. */
    method AdvanceWrPtr(n: nat)
      requires Valid() && reserved == 0 && n <= size - |Contents()|
      modifies this`wrPtr
      ensures Valid()
      ensures Contents() == old(Contents()) + Window(data[..], Wrap(size, old(wrPtr)), n)
    {
      AdvanceWriter(size, data[..], wrPtr, rdPtr, n);
      PtrAddSteps(size, wrPtr, n);
      wrPtr := PtrAdd(size, wrPtr, n);
    }

    method AdvanceRdPtr(n: nat)
      requires Valid() && n <= |Contents()|
      modifies this`rdPtr
      ensures Valid() && Contents() == old(Contents())[n..]
    {
      DropFromQueue(size, data[..], wrPtr, rdPtr, n);
      PtrAddSteps(size, rdPtr, n);
      rdPtr := PtrAdd(size, rdPtr, n);
    }

    /** The oldest `n` bytes, taken from one or two stretches of the array. */
    function CopyOut(n: nat): (bytes: seq<byte>)
      requires Valid() && n <= |Contents()|
      reads this, data
      ensures bytes == Contents()[..n]
    {
      DropFromQueue(size, data[..], wrPtr, rdPtr, n);
      WindowIsSlices(data[..], Wrap(size, rdPtr), n);
      if Slot(rdPtr) + n <= size then data[Slot(rdPtr)..Slot(rdPtr) + n]
      else data[Slot(rdPtr)..] + data[..n - (size - Slot(rdPtr))]
    }

    method Read(n: nat) returns (rv: Status, bytes: seq<byte>)
      requires Valid()
      modifies this`rdPtr
      ensures Valid() && reserved == old(reserved)
      ensures rv == if n <= |old(Contents())| then Success else Invalid
      ensures rv == Success ==> old(Contents()) == bytes + Contents() && |bytes| == n
      ensures rv == Invalid ==> Contents() == old(Contents()) && bytes == []
    {
      if n == 0 {
        return Success, [];
      }
      if FillLevel() < n {
        return Invalid, [];
      }
      bytes := CopyOut(n);
      AdvanceRdPtr(n);
      return Success, bytes;
    }

    /** What `Peek` hands out: a place in the array if the bytes do not wrap, a copy of them in the
        temporary buffer otherwise. */
    ghost predicate IsPeekedBlock(block: array<byte>, off: nat, n: nat)
      requires Valid()
      reads this, data, readTmp
    {
      n <= |Contents()| &&
      if Wrap(size, rdPtr) + n <= size then block == data && off == Wrap(size, rdPtr)
      else block == readTmp && off == 0 && n <= readTmp.Length && readTmp[..n] == Contents()[..n]
    }

    /** However the other side appends meanwhile, a peeked block holds the oldest bytes. */
    lemma PeekedBlockHoldsOldest(block: array<byte>, off: nat, n: nat)
      requires Valid() && IsPeekedBlock(block, off, n)
      ensures off + n <= block.Length && block[off..off + n] == Contents()[..n]
    {
      hide Window;
      var bytes := CopyOut(n);
    }

    /** A pointer to the oldest `n` bytes without removing them: into the array if they do not
        wrap, to a copy in the temporary buffer otherwise. */
    method Peek(n: nat) returns (rv: Status, block: array<byte>, off: nat)
      requires Valid()
      modifies this`readTmp, readTmp
      ensures Valid() && Contents() == old(Contents()) && reserved == old(reserved)
      ensures rv == if n <= |Contents()| then Success else Invalid
      ensures fresh(Repr() - old(Repr()))
      ensures rv == Success ==>
                off + n <= block.Length && block[off..off + n] == Contents()[..n]
      ensures rv == Success && 0 < n ==> IsPeekedBlock(block, off, n)
    {
      hide Window;
      block, off := data, Slot(rdPtr);
      if n == 0 {
        return Success, data, 0;
      }
      if FillLevel() < n {
        return Invalid, block, off;
      }
      ghost var bytes := CopyOut(n);
      if Slot(rdPtr) + n <= size {
        return Success, block, off;
      }
      EnlargeReadTmp(n);
      JoinStretches(n);
      assert readTmp[..n] == bytes;
      return Success, readTmp, 0;
    }

    method EnlargeReadTmp(n: nat)
      requires Valid() && n <= size
      modifies this`readTmp
      ensures Valid() && n <= readTmp.Length && (readTmp == old(readTmp) || fresh(readTmp))
    {
      if readTmp.Length < n {
        var tmpSize := hintMaxReadSize;
        if n > hintMaxReadSize {
          tmpSize := CalcBufsize(n, size);
        }
        readTmp := new byte[tmpSize](_ => 0);
      }
    }

    method JoinStretches(n: nat)
      requires Valid() && n <= size <= Wrap(size, rdPtr) + n && n <= readTmp.Length
      modifies readTmp
      ensures readTmp[..n] == data[Wrap(size, rdPtr)..] + data[..n - (size - Wrap(size, rdPtr))]
    {
      var sizeToEnd := size - Slot(rdPtr);
      MemCpy(readTmp, 0, data[Slot(rdPtr)..]);
      MemCpy(readTmp, sizeToEnd, data[..n - sizeToEnd]);
    }

    method Discard(n: nat) returns (rv: Status)
      requires Valid()
      modifies this`rdPtr
      ensures Valid() && reserved == old(reserved)
      ensures rv == if n <= |old(Contents())| then Success else Invalid
      ensures Contents() == if rv == Success then old(Contents())[n..] else old(Contents())
    {
      if FillLevel() < n {
        return Invalid;
      }
      AdvanceRdPtr(n);
      return Success;
    }
  }
}
