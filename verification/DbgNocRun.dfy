/** The receiving thread of the Debug NoC on a whole stream of framed packets. */
module DbgNocRuns {
  import opened Bits
  import opened DbgNocStream
  import opened DbgNocReceivers
  import opened DbgNocSenders

  /** After any number of blocks of a framed stream of supported packets the thread is running, and
      it has handed on exactly the packets that lie completely in these blocks. What is in memory
      behind the buffer during a block, `strays`, does not matter. */
  method ReceiveBlocks(rec: Receiver, ghost ps: seq<Packet>, wire: seq<word16>, strays: seq<word16>)
    requires rec.Valid() && rec.running && rec.stream == [] && rec.log == []
    requires wire == FrameAll(ps) && forall p :: p in ps ==> Supported(p)
    requires |strays| * NUM_SAMPLES_PER_TRANSFER <= |wire|
    modifies rec, rec.buffer, rec.flits16, rec.flits32
    ensures rec.Valid() && rec.running
    ensures rec.stream == wire[..|strays| * NUM_SAMPLES_PER_TRANSFER]
    ensures var m := HandleAll(ps[..CountWithin(ps, |strays| * NUM_SAMPLES_PER_TRANSFER)], 0);
            m.Handled? && rec.log == m.events
  {
    hide ParseFrom, HandleAll, Supported, Receiver.Valid;
    SupportedStreamKeepsRunning(ps, 0);
    NoWords(ps);
    var i := 0;
    while i < |strays|
      invariant 0 <= i <= |strays| && rec.Valid() && rec.running
      invariant rec.stream == wire[..i * NUM_SAMPLES_PER_TRANSFER]
      invariant var m := HandleAll(ps[..CountWithin(ps, i * NUM_SAMPLES_PER_TRANSFER)], 0);
                m.Handled? && rec.log == m.events
    {
      var from, to := i * NUM_SAMPLES_PER_TRANSFER, (i + 1) * NUM_SAMPLES_PER_TRANSFER;
      rec.ReceiveBlock(wire[from..to], strays[i]);
      assert wire[..from] + wire[from..to] == wire[..to];
      SupportedStreamKeepsRunning(ps, to);
      i := i + 1;
    }
  }

  lemma NoWords(ps: seq<Packet>)
    ensures ps[..CountWithin(ps, 0)] == [] && HandleAll([], 0) == Handled([], 0)
  {
  }

  // A read that returns nothing.

  function Padding(n: nat): seq<Packet> {
    if n == 0 then [] else [[]] + Padding(n - 1)
  }

  lemma {:induction false} PaddingIsBlank(n: nat, ps: seq<Packet>, header: word32)
    ensures FrameAll(Padding(n) + ps) == Blank(n) + FrameAll(ps)
    ensures HandleAll(Padding(n) + ps, header) == HandleAll(ps, header)
  {
    hide FrameAll, HandleAll;
    if n == 0 {
      assert Padding(0) + ps == ps && Blank(0) + FrameAll(ps) == FrameAll(ps);
    } else {
      var rest := Padding(n - 1) + ps;
      PaddingIsBlank(n - 1, ps, header);
      OnePadding(rest, header);
      assert Padding(n) + ps == [[]] + rest;
      Associative([0], Blank(n - 1), FrameAll(ps));
    }
  }

  lemma OnePadding(ps: seq<Packet>, header: word32)
    ensures FrameAll([[]] + ps) == [0] + FrameAll(ps)
    ensures HandleAll([[]] + ps, header) == HandleAll(ps, header)
  {
    hide Handle;
    PaddingMeansNothing(header);
    var all: seq<Packet> := [[]] + ps;
    assert all[0] == [] && all[1..] == ps && Frame([]) == [0];
    var m := HandleAll(ps, header);
    assert m.Handled? ==> [] + m.events == m.events;
  }

  /** Padding, a packet, padding, and other packets. */
  lemma OnePacketMore(before: nat, p: Packet, after: nat, ps: seq<Packet>, header: word32)
    requires Handle(p, header) == Handled([Packet16(p)], header) && HandleAll(ps, header).Handled?
    ensures var all := Padding(before) + ([p] + (Padding(after) + ps));
            && FrameAll(all) == Blank(before) + (Frame(p) + (Blank(after) + FrameAll(ps)))
            && HandleAll(all, header)
            == Handled([Packet16(p)] + HandleAll(ps, header).events, HandleAll(ps, header).header)
  {
    hide Handle;
    var tail := Padding(after) + ps;
    PaddingIsBlank(after, ps, header);
    assert ([p] + tail)[1..] == tail;
    PaddingIsBlank(before, [p] + tail, header);
  }

  /** A block with one packet in its second half, and then a read that returns nothing: the packet is
      handed on twice. */
  method EmptyReadExample(before: nat, after: nat) returns (rec: Receiver, block: seq<word16>)
    requires before + 2 + after == NUM_SAMPLES_PER_TRANSFER && NUM_SAMPLES_PER_TRANSFER / 2 <= before
    ensures block == FrameAll(OnePacket(before, after)) && |block| == NUM_SAMPLES_PER_TRANSFER
    ensures rec.running && rec.log == [Packet16([5]), Packet16([5])]
  {
    hide ParseFrom, FrameAll, OnePacket, Blank, Receiver.Valid;
    block := Blank(before) + ([1, 5] + Blank(after));
    EmptyReadStreams(block, before, after, NUM_SAMPLES_PER_TRANSFER / 2);
    rec := new Receiver();
    rec.ReceiveBlock(block, 0);
    assert [] + block == block;
    rec.ReceiveNothing(0);
  }

  function OnePacket(before: nat, after: nat): seq<Packet> {
    Padding(before) + ([[5]] + Padding(after))
  }

  /** What the stream means after the block, and after the read that returns nothing. */
  lemma EmptyReadStreams(block: seq<word16>, before: nat, after: nat, half: nat)
    requires block == Blank(before) + ([1, 5] + Blank(after)) && half <= before
    ensures block == FrameAll(OnePacket(before, after))
    ensures var r := Parse(block);
            !r.stopped && r.pos == |block| && r.events == [Packet16([5])]
    ensures var all := block + (Blank(half) + block[half..]);
            var r := Parse(all);
            !r.stopped && r.pos == |all| && r.events == [Packet16([5]), Packet16([5])]
  {
    hide ParseFrom, FrameAll, HandleAll, Blank, Padding;
    var p: Packet := [5];
    assert Frame(p) == [1, 5] && Handle(p, 0) == Handled([Packet16(p)], 0);
    NoPackets();
    var one := OnePacket(before, after);
    OnePacketMore(before, p, after, [], 0);
    assert Padding(after) + [] == Padding(after) && Blank(after) + [] == Blank(after);
    WholeStream(one);
    assert [Packet16(p)] + [] == [Packet16(p)];
    var again := Padding(before) + ([p] + (Padding(after) + one));
    OnePacketMore(before, p, after, one, 0);
    WholeStream(again);
    assert block[half..] == Blank(before - half) + ([1, 5] + Blank(after));
    assert Blank(half) + block[half..] == block;
    assert FrameAll(again) == block + (Blank(half) + block[half..]);
    assert [Packet16(p)] + [Packet16(p)] == [Packet16(p), Packet16(p)];
  }

  lemma NoPackets()
    ensures FrameAll([]) == [] && HandleAll([], 0) == Handled([], 0)
  {
  }
}
