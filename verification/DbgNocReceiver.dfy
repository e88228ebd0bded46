/** The thread that receives data from the Debug NoC, in blocks of 256 words. Its buffer holds two
    blocks, so that a packet can begin in one block and end in the next. */
module DbgNocReceivers {
  import opened Bits
  import opened DbgNocStream

  /** Put `n` pairs of flits together. */
  method JoinInto(src: array<word16>, start: nat, n: nat, dst: array<word32>)
    requires start + 2 * n <= src.Length && n <= dst.Length && (src as object) != dst
    modifies dst
    ensures dst[..n] == Joined(src[start..start + 2 * n])
    ensures forall i :: n <= i < dst.Length ==> dst[i] == old(dst[i])
  {
    var flitPos, j := 0, start;
    while j < start + 2 * n
      invariant 0 <= flitPos <= n && j == start + 2 * flitPos
      invariant forall i :: 0 <= i < flitPos ==>
                  dst[i] == JoinFlits(src[start + 2 * i], src[start + 2 * i + 1])
      invariant forall i :: flitPos <= i < dst.Length ==> dst[i] == old(dst[i])
    {
      dst[flitPos] := JoinFlits(src[j], src[j + 1]);
      flitPos := flitPos + 1;
      j := j + 2;
    }
  }

  class Receiver {
    const buffer: array<word16>
    const flits16: array<word16>
    const flits32: array<word32>
    var len16: nat
    var len32: nat
    var readPos: nat
    var running: bool
    var log: seq<Event>
    ghost var stream: seq<word16>

    ghost predicate Shape() {
      && buffer.Length == 2 * NUM_SAMPLES_PER_TRANSFER
      && flits16.Length == NUM_SAMPLES_PER_TRANSFER
      && flits32.Length == NCM_MAX_LISNOC32_FLITS_PER_PKG
      && buffer != flits16 && (buffer as object) != flits32 && (flits16 as object) != flits32
    }

    /** Position `base` of the stream is at the start of the buffer; `base` is negative before the
        buffer has been filled once. */
    ghost predicate Aligned(base: int)
      reads this, buffer
      requires Shape()
    {
      && 0 <= base + readPos <= |stream|
      && forall i :: 0 <= i < buffer.Length && 0 <= base + i < |stream| ==>
                       buffer[i] == stream[base + i]
    }

    /** Between two blocks, a running thread has handed on exactly the complete packets, and the
        unfinished one starts in the block that is now in the first half of the buffer. */
    ghost predicate Valid()
      reads this, buffer, flits32
    {
      && Shape()
      && (running ==>
            && readPos <= NUM_SAMPLES_PER_TRANSFER
            && var base := |stream| - NUM_SAMPLES_PER_TRANSFER;
               && Aligned(base)
               && Parse(stream) == Progress(base + readPos, flits32[0], log, false))
    }

    constructor ()
      ensures Valid() && running && stream == [] && log == []
      ensures fresh(buffer) && fresh(flits16) && fresh(flits32)
    {
      buffer := new word16[2 * NUM_SAMPLES_PER_TRANSFER](_ => 0);
      flits16 := new word16[NUM_SAMPLES_PER_TRANSFER](_ => 0);
      flits32 := new word32[NCM_MAX_LISNOC32_FLITS_PER_PKG](_ => 0);
      len16, len32 := 0, 0;
      readPos := NUM_SAMPLES_PER_TRANSFER;
      running := true;
      log := [];
      stream := [];
    }

    /** Store the flits of a packet for its consumer. */
    method CopyFlits16(len: nat)
      requires Shape() && readPos + len < buffer.Length && len <= flits16.Length
      modifies flits16, this`len16
      ensures len16 == len && flits16[..len] == buffer[readPos + 1..readPos + 1 + len]
    {
      len16 := len;
      for j := readPos + 1 to readPos + 1 + len
        invariant len16 == len && flits16[..j - readPos - 1] == buffer[readPos + 1..j]
      {
        flits16[j - readPos - 1] := buffer[j];
      }
    }

    /** Put two flits together to one of the system NoC. */
    method JoinFlits32(len: nat)
      requires Shape() && len % 2 == 1 && readPos + len < buffer.Length
      requires (len - 1) / 2 <= flits32.Length
      modifies flits32, this`len32
      ensures len32 == (len - 1) / 2
      ensures flits32[..len32] == Joined(buffer[readPos + 2..readPos + 1 + len])
      ensures forall i :: len32 <= i < flits32.Length ==> flits32[i] == old(flits32[i])
    {
      hide Joined;
      len32 := (len - 1) / 2;
      JoinInto(buffer, readPos + 2, len32, flits32);
    }

    /** Take care of a wrapped system NoC packet at the read position. */
    method HandleWrapped(len: nat) returns (ok: bool)
      requires Shape() && 0 < len && readPos + len < buffer.Length
      requires Class16(buffer[readPos + 1]) == DBG_NOC_CLASS_NCM
      modifies flits32, this`len32, this`log
      ensures Took(buffer[readPos + 1..readPos + 1 + len], old(flits32[0]), ok, old(log))
    {
      hide Joined, ControlOf, Class16;
      ghost var p := buffer[readPos + 1..readPos + 1 + len];
      assert p[1..] == buffer[readPos + 2..readPos + 1 + len];
      if len % 2 != 1 {
        Associative(log, [Malformed(len)], ControlOf(flits32[0]));
        log := log + [Malformed(len)];
      } else {
        if (len - 1) / 2 > NCM_MAX_LISNOC32_FLITS_PER_PKG {
          return false;
        }
        JoinFlits32(len);
        Associative(log, [Packet32(flits32[..len32])], ControlOf(flits32[0]));
        log := log + [Packet32(flits32[..len32])];
      }
      log := log + ControlOf(flits32[0]);
      return true;
    }

    /** A packet has been handled as the specification says. */
    ghost predicate Took(p: Flits16, header: word32, ok: bool, before: seq<Event>)
      reads this, flits32
      requires Shape()
    {
      var o := Handle(p, header);
      && (ok <==> o.Handled?)
      && (ok ==> log == before + o.events && flits32[0] == o.header)
      && (!ok ==> log == before)
    }

    /** Take care of the packet at the read position. */
    method HandlePacket(len: nat) returns (ok: bool)
      requires Shape() && 0 < len && readPos + len < buffer.Length
      modifies flits16, flits32, this`len16, this`len32, this`log
      ensures Took(buffer[readPos + 1..readPos + 1 + len], old(flits32[0]), ok, old(log))
    {
      hide Joined, ControlOf, Class16;
      ghost var p := buffer[readPos + 1..readPos + 1 + len];
      assert p[0] == buffer[readPos + 1] && |p| == len;
      if Class16(buffer[readPos + 1]) == DBG_NOC_CLASS_NCM {
        ok := HandleWrapped(len);
      } else {
        if len > NUM_SAMPLES_PER_TRANSFER {
          return false;
        }
        CopyFlits16(len);
        assert flits16[..len16] == p;
        log := log + [Packet16(flits16[..len16])];
        ok := true;
      }
    }

    /** Make room for the next block. */
    method Shift()
      requires Shape() && NUM_SAMPLES_PER_TRANSFER <= readPos
      modifies buffer, this`readPos
      ensures readPos == old(readPos) - NUM_SAMPLES_PER_TRANSFER
      ensures forall i :: 0 <= i < NUM_SAMPLES_PER_TRANSFER ==>
                buffer[i] == old(buffer[i + NUM_SAMPLES_PER_TRANSFER])
      ensures forall i :: NUM_SAMPLES_PER_TRANSFER <= i < buffer.Length ==> buffer[i] == old(buffer[i])
    {
      for copyPos := 0 to NUM_SAMPLES_PER_TRANSFER
        invariant readPos == old(readPos)
        invariant forall i :: 0 <= i < NUM_SAMPLES_PER_TRANSFER ==>
                    buffer[i] == old(buffer[if i < copyPos then i + NUM_SAMPLES_PER_TRANSFER else i])
        invariant forall i :: NUM_SAMPLES_PER_TRANSFER <= i < buffer.Length ==>
                    buffer[i] == old(buffer[i])
      {
        buffer[copyPos] := buffer[copyPos + NUM_SAMPLES_PER_TRANSFER];
      }
      readPos := readPos - NUM_SAMPLES_PER_TRANSFER;
    }

    /** The block in the second half of the buffer. */
    ghost function LastBlock(): seq<word16>
      requires Shape()
      reads this, buffer
    {
      buffer[NUM_SAMPLES_PER_TRANSFER..]
    }

    /** Read a block into the second half of the buffer. */
    method ReadBlock(block: seq<word16>)
      requires Valid() && running && |block| == NUM_SAMPLES_PER_TRANSFER
      modifies buffer, this`stream
      ensures stream == old(stream) + block && Aligned(|stream| - buffer.Length)
      ensures LastBlock() == block
    {
      forall i | 0 <= i < NUM_SAMPLES_PER_TRANSFER {
        buffer[NUM_SAMPLES_PER_TRANSFER + i] := block[i];
      }
      stream := stream + block;
    }

    /** While a block is processed: what has been handed on, followed by what the rest means, is
        what the whole stream means. */
    ghost predicate Underway()
      reads this, buffer, flits32
    {
      && Shape() && Aligned(|stream| - buffer.Length)
      && Parse(stream)
      == After(log, ParseFrom(stream, |stream| - buffer.Length + readPos, flits32[0]))
    }

    /** Hand on the packet at the read position, which lies completely in the buffer. */
    method ProcessPacket(len: nat) returns (ok: bool)
      requires Underway() && readPos + len < buffer.Length && len == buffer[readPos]
      modifies flits16, flits32, this`len16, this`len32, this`log, this`readPos
      ensures ok ==> Underway() && readPos == old(readPos) + len + 1
      ensures !ok ==> Parse(stream).stopped && log == Parse(stream).events
    {
      hide Handle, ParseFrom;
      ghost var pos, h, before := |stream| - buffer.Length + readPos, flits32[0], log;
      ghost var p := buffer[readPos + 1..readPos + 1 + len];
      assert p == stream[pos + 1..pos + 1 + len];
      ParseAtPacket(stream, pos, h);
      if len >= 1 {
        ok := HandlePacket(len);
        if !ok {
          assert before + [] == before;
          return;
        }
      } else {
        PaddingMeansNothing(h);
        assert before + [] == before;
      }
      AfterAfter(before, Handle(p, h).events, ParseFrom(stream, pos + 1 + len, flits32[0]));
      readPos := readPos + len + 1;
      ok := true;
    }

    /** The packet at the read position is not complete: keep its block for the next time. */
    method KeepBlock()
      requires Underway() && running && NUM_SAMPLES_PER_TRANSFER <= readPos
      requires readPos < buffer.Length ==> readPos + buffer[readPos] >= buffer.Length
      modifies buffer, this`readPos
      ensures Valid() && LastBlock() == old(LastBlock())
    {
      ghost var pos := |stream| - buffer.Length + readPos;
      assert ParseFrom(stream, pos, flits32[0]) == Progress(pos, flits32[0], [], false);
      assert log + [] == log;
      Shift();
    }

    /** Process the next block. `stray` is whatever is in memory behind the buffer: it is looked at
        when a packet ends with the block, and does not matter. */
    method ReceiveBlock(block: seq<word16>, stray: word16)
      requires Valid() && running && |block| == NUM_SAMPLES_PER_TRANSFER
      modifies this, buffer, flits16, flits32
      ensures Valid() && stream == old(stream) + block && LastBlock() == block
      ensures log == Parse(stream).events
      ensures var r := Parse(stream);
              running <==> !r.stopped && |stream| <= r.pos + NUM_SAMPLES_PER_TRANSFER
    {
      hide ParseFrom;
      StartBlock(block);
      var process := true;
      while process
        invariant stream == old(stream) + block && running && Shape() && LastBlock() == block
        invariant process ==> Underway()
        invariant !process ==> Valid()
        decreases process, buffer.Length - readPos
      {
        var len := if readPos == buffer.Length then stray else buffer[readPos];
        if readPos + len > buffer.Length - 1 {
          if readPos < NUM_SAMPLES_PER_TRANSFER {
            ParseStuck(stream, |stream| - buffer.Length + readPos, flits32[0], log);
            running := false;
            return;
          }
          KeepBlock();
          process := false;
        } else {
          var ok := ProcessPacket(len);
          if !ok {
            running := false;
            return;
          }
        }
      }
    }

    /** The read returns success without a byte, as a blocking read may. The thread processes what is
        in the second half of the buffer: it has set as many bytes to zero as a block has words, so
        the second half of the block before is still there. */
    method ReceiveNothing(stray: word16)
      requires Valid() && running
      modifies this, buffer, flits16, flits32
      ensures Valid()
      ensures var block := Blank(NUM_SAMPLES_PER_TRANSFER / 2)
                           + old(LastBlock())[NUM_SAMPLES_PER_TRANSFER / 2..];
              && stream == old(stream) + block && LastBlock() == block
      ensures log == Parse(stream).events
      ensures var r := Parse(stream);
              running <==> !r.stopped && |stream| <= r.pos + NUM_SAMPLES_PER_TRANSFER
    {
      hide ParseFrom;
      var half := NUM_SAMPLES_PER_TRANSFER / 2;
      assert LastBlock()[half..] == buffer[NUM_SAMPLES_PER_TRANSFER + half..];
      ReceiveBlock(Blank(half) + buffer[NUM_SAMPLES_PER_TRANSFER + half..], stray);
    }

    /** Read a block, before any packet is processed. */
    method StartBlock(block: seq<word16>)
      requires Valid() && running && |block| == NUM_SAMPLES_PER_TRANSFER
      modifies buffer, this`stream
      ensures stream == old(stream) + block && Underway() && LastBlock() == block
    {
      hide ParseFrom;
      ParseExtend(stream, block, 0, 0);
      ReadBlock(block);
    }
  }

  function Blank(n: nat): (ws: seq<word16>)
    ensures |ws| == n && forall i :: 0 <= i < n ==> ws[i] == 0
  {
    if n == 0 then [] else [0] + Blank(n - 1)
  }

  lemma ParseAtPacket(ws: seq<word16>, pos: nat, header: word32)
    requires pos < |ws| && pos + ws[pos] < |ws|
    ensures var o := Handle(ws[pos + 1..pos + 1 + ws[pos]], header);
            (ParseFrom(ws, pos, header)
             == if o.Unsupported? then Progress(pos, header, [], true)
                else After(o.events, ParseFrom(ws, pos + 1 + ws[pos], o.header)))
  {
    hide Handle;
  }

  lemma ParseStuck(ws: seq<word16>, pos: nat, header: word32, log: seq<Event>)
    requires pos < |ws| && pos + ws[pos] >= |ws|
    ensures After(log, ParseFrom(ws, pos, header)) == Progress(pos, header, log, false)
  {
    assert log + [] == log;
  }

  lemma PaddingMeansNothing(header: word32)
    ensures Handle([], header) == Handled([], header)
  {
  }
}
