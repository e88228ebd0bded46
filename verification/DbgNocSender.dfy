/** Sending packets to the Debug NoC and, wrapped, to the system NoC; and what the receiver makes
    of such streams. */
module DbgNocSenders {
  import opened Bits
  import opened DbgNocStream

  /** The connection: words that went out, and how many words the next failing transfers still
      get out before they fail. */
  class Wire {
    var sent: seq<word16>
    var failures: seq<nat>

    method WriteB(data: seq<word16>) returns (ok: bool, ghost k: nat)
      modifies this
      ensures sent == old(sent) + data[..Transfers(old(failures), |data|)]
      ensures k == Transfers(old(failures), |data|) && (ok <==> old(failures) == [])
    {
      if failures == [] {
        sent := sent + data;
        assert data[..|data|] == data;
        return true, |data|;
      }
      var n := Min(failures[0], |data|);
      failures := failures[1..];
      sent := sent + data[..n];
      return false, n;
    }
  }

  /** How many of `n` words the next transfer gets out. */
  function Transfers(failures: seq<nat>, n: nat): (k: nat)
    ensures k <= n
  {
    if failures == [] then n else Min(failures[0], n)
  }

  lemma {:induction false} FrameAllAppend(a: seq<Packet>, b: seq<Packet>)
    ensures FrameAll(a + b) == FrameAll(a) + FrameAll(b)
  {
    hide Frame;
    if a == [] {
      assert a + b == b;
    } else {
      FrameAllAppend(a[1..], b);
      assert (a + b)[1..] == a[1..] + b;
      Associative(Frame(a[0]), FrameAll(a[1..]), FrameAll(b));
    }
  }

  lemma FrameOne(ps: seq<Packet>, i: nat)
    requires i < |ps|
    ensures FrameAll(ps[..i + 1]) == FrameAll(ps[..i]) + Frame(ps[i])
  {
    hide Frame;
    assert ps[..i + 1] == ps[..i] + [ps[i]];
    FrameAllAppend(ps[..i], [ps[i]]);
    assert FrameAll([ps[i]]) == Frame(ps[i]) + FrameAll([]);
  }

  /** Copy a packet with its length in front into the output buffer. */
  method CopyPacket(p: Packet, data: array<word16>, start: nat) returns (pos: nat)
    requires start + |Frame(p)| <= data.Length
    modifies data
    ensures pos == start + |Frame(p)| && data[..pos] == old(data[..start]) + Frame(p)
  {
    pos := start;
    data[pos] := |p|;
    pos := pos + 1;
    for j := 0 to |p|
      invariant pos == start + 1 + j
      invariant data[..pos] == old(data[..start]) + [|p|] + p[..j]
    {
      data[pos] := p[j];
      pos := pos + 1;
    }
  }

  /** Send packets, each with its length in front; a transfer that fails has sent a prefix. */
  method Lisnoc16SendPackets(wire: Wire, ps: seq<Packet>) returns (rv: int, ghost k: nat)
    modifies wire
    ensures k <= |FrameAll(ps)| && wire.sent == old(wire.sent) + FrameAll(ps)[..k]
    ensures rv == if old(wire.failures) == [] then 0 else -1
    ensures k == Transfers(old(wire.failures), |FrameAll(ps)|)
  {
    var length := 0;
    for i := 0 to |ps|
      invariant unchanged(wire) && length == |FrameAll(ps[..i])|
    {
      FrameOne(ps, i);
      length := length + (|ps[i]| + 1);
    }
    assert ps[..|ps|] == ps;
    var data := new word16[length](_ => 0);
    var pos := 0;
    for i := 0 to |ps|
      invariant unchanged(wire)
      invariant pos == |FrameAll(ps[..i])| <= data.Length && data[..pos] == FrameAll(ps[..i])
    {
      FrameOne(ps, i);
      FramePrefix(ps, i + 1);
      pos := CopyPacket(ps[i], data, pos);
    }
    assert ps[..|ps|] == ps && data[..] == data[..pos];
    var ok;
    ok, k := wire.WriteB(data[..]);
    rv := if ok then 0 else -1;
  }

  lemma FramePrefix(ps: seq<Packet>, i: nat)
    requires i <= |ps|
    ensures |FrameAll(ps[..i])| <= |FrameAll(ps)|
  {
    FrameAllAppend(ps[..i], ps[i..]);
    assert ps[..i] + ps[i..] == ps;
  }

  // System NoC packets.

  function Wrapped(ps: seq<Flits32>, addr: nat): (r: seq<Packet>)
    requires forall p :: p in ps ==> |p| <= NCM_MAX_LISNOC32_FLITS_PER_PKG
    ensures |r| == |ps|
    ensures forall i :: 0 <= i < |ps| ==> r[i] == Encapsulate(ps[i], addr)
  {
    seq(|ps|, i requires 0 <= i < |ps| => Encapsulate(ps[i], addr))
  }

  /** Split every flit of a packet in two, behind a header for the network control module. */
  method WrapPacket(p: Flits32, addr: nat) returns (packet16: array<word16>)
    ensures fresh(packet16) && packet16[..] == Encapsulate(p, addr)
  {
    hide Split;
    packet16 := new word16[2 * |p| + 1](_ => 0);
    packet16[0] := NcmHeader(addr);
    var pos := 1;
    for j := 0 to |p|
      invariant pos == 1 + 2 * j && packet16[0] == NcmHeader(addr)
      invariant forall i :: 0 <= i < 2 * j ==> packet16[1 + i] == Split(p)[i]
    {
      SplitAt(p, j);
      packet16[pos] := p[j] / 0x1_0000;
      packet16[pos + 1] := p[j] % 0x1_0000;
      pos := pos + 2;
    }
  }

  /** Send system NoC packets. `addr` is the address of the network control module, if known. All
      packets are checked before anything is sent; a transfer that fails is not reported. */
  method Lisnoc32SendPackets(wire: Wire, ps: seq<Flits32>, addr: int) returns (rv: int, ghost k: nat)
    requires -1 <= addr
    modifies wire
    ensures rv == 0 || rv == -1
    ensures rv == 0 <==> addr != -1 && forall p :: p in ps ==> |p| <= NCM_MAX_LISNOC32_FLITS_PER_PKG
    ensures rv == -1 ==> unchanged(wire)
    ensures rv == 0 ==> k <= |FrameAll(Wrapped(ps, addr))|
                        && wire.sent == old(wire.sent) + FrameAll(Wrapped(ps, addr))[..k]
    ensures rv == 0 ==> k == Transfers(old(wire.failures), |FrameAll(Wrapped(ps, addr))|)
    ensures rv == 0 ==> forall p :: p in Wrapped(ps, addr) ==> AddressedTo(p, addr)
  {
    hide FrameAll, Encapsulate, AddressedTo;
    k := 0;
    if addr == -1 {
      return -1, 0;
    }
    var packets: seq<Packet> := [];
    for i := 0 to |ps|
      invariant unchanged(wire) && |packets| == i
      invariant forall j :: 0 <= j < i ==> |ps[j]| <= NCM_MAX_LISNOC32_FLITS_PER_PKG
      invariant forall j :: 0 <= j < i ==> packets[j] == Encapsulate(ps[j], addr)
    {
      if |ps[i]| > NCM_MAX_LISNOC32_FLITS_PER_PKG {
        assert ps[i] in ps;
        return -1, 0;
      }
      var packet16 := WrapPacket(ps[i], addr);
      packets := packets + [packet16[..]];
    }
    assert forall p :: p in ps ==> |p| <= NCM_MAX_LISNOC32_FLITS_PER_PKG;
    assert packets == Wrapped(ps, addr);
    forall i | 0 <= i < |ps|
      ensures AddressedTo(packets[i], addr)
    {
      WrapperIsAddressed(ps[i], addr);
    }
    var ignored;
    ignored, k := Lisnoc16SendPackets(wire, packets);
    rv := 0;
  }

  // Receiving what was sent.

  function EventsOf(ps: seq<Flits32>): seq<Event>
    requires forall p :: p in ps ==> 0 < |p|
  {
    if ps == [] then [] else [Packet32(ps[0])] + ControlOf(ps[0][0]) + EventsOf(ps[1..])
  }

  lemma HandleWrapped(p: Flits32, addr: nat, header: word32)
    requires 0 < |p| <= NCM_MAX_LISNOC32_FLITS_PER_PKG
    ensures Handle(Encapsulate(p, addr), header) == Handled([Packet32(p)] + ControlOf(p[0]), p[0])
  {
    hide Split, Joined, ControlOf;
    var w := Encapsulate(p, addr);
    assert w[1..] == Split(p);
    JoinSplit(p);
    ModUnique(w[0], 256, (addr % 32) * 8 + 7, 0);
    ModUnique((addr % 32) * 8 + 7, 8, addr % 32, 7);
  }

  /** A packet of the wrapping class with an even number of flits makes the receiver hand on the
      control message of the last wrapped packet once more. */
  lemma MalformedRepeatsControl(fs: Flits32, addr: nat, p: Flits16, header: word32)
    requires 0 < |fs| <= NCM_MAX_LISNOC32_FLITS_PER_PKG
    requires 0 < |p| < 0x1_0000 && |p| % 2 == 0 && Class16(p[0]) == DBG_NOC_CLASS_NCM
    ensures HandleAll([Encapsulate(fs, addr), p], header)
         == Handled([Packet32(fs)] + ControlOf(fs[0]) + [Malformed(|p|)] + ControlOf(fs[0]), fs[0])
  {
    hide ControlOf, Encapsulate, Joined;
    HandleWrapped(fs, addr, header);
    var ps: seq<Packet> := [Encapsulate(fs, addr), p];
    var events := [Malformed(|p|)] + ControlOf(fs[0]);
    assert ps[1..] == [p] && [p][1..] == [] && events + [] == events;
    assert HandleAll([p], fs[0]) == Handled(events, fs[0]);
    Associative([Packet32(fs)] + ControlOf(fs[0]), [Malformed(|p|)], ControlOf(fs[0]));
  }

  lemma {:induction false} HandleAllWrapped(ps: seq<Flits32>, addr: nat, header: word32)
    requires forall p :: p in ps ==> 0 < |p| <= NCM_MAX_LISNOC32_FLITS_PER_PKG
    ensures var o := HandleAll(Wrapped(ps, addr), header);
            && o.Handled? && o.events == EventsOf(ps)
            && o.header == if ps == [] then header else ps[|ps| - 1][0]
  {
    hide Handle, ControlOf, Encapsulate;
    if ps != [] {
      assert ps[0] in ps;
      HandleWrapped(ps[0], addr, header);
      var rest := ps[1..];
      assert Wrapped(ps, addr)[1..] == Wrapped(rest, addr);
      HandleAllWrapped(rest, addr, ps[0][0]);
    }
  }

  /** Wrapping, framing and flattening system NoC packets, and then parsing and joining them again,
      gives back the same packets in the same order, with nothing left over. */
  lemma WrappedRoundTrip(ps: seq<Flits32>, addr: nat)
    requires forall p :: p in ps ==> 0 < |p| <= NCM_MAX_LISNOC32_FLITS_PER_PKG
    ensures var ws := FrameAll(Wrapped(ps, addr));
            var r := Parse(ws);
            r.pos == |ws| && !r.stopped && r.events == EventsOf(ps)
  {
    hide HandleAll, ParseFrom, Handle;
    WholeStream(Wrapped(ps, addr));
    HandleAllWrapped(ps, addr, 0);
  }

  // Packets of the Debug NoC itself.

  predicate Plain(p: Packet) {
    0 < |p| <= NUM_SAMPLES_PER_TRANSFER && Class16(p[0]) != DBG_NOC_CLASS_NCM
  }

  lemma {:induction false} HandleAllPlain(ps: seq<Packet>, header: word32)
    requires forall p :: p in ps ==> Plain(p)
    ensures var o := HandleAll(ps, header);
            && o.Handled? && o.header == header && |o.events| == |ps|
            && forall i :: 0 <= i < |ps| ==> o.events[i] == Packet16(ps[i])
    decreases |ps|
  {
    hide Class16, Joined, ControlOf;
    if ps != [] {
      assert Plain(ps[0]);
      HandleAllPlain(ps[1..], header);
    }
  }

  /** Framing packets of other classes and parsing them again gives back these packets, in order. */
  lemma PlainRoundTrip(ps: seq<Packet>)
    requires forall p :: p in ps ==> Plain(p)
    ensures var ws := FrameAll(ps);
            var r := Parse(ws);
            && r.pos == |ws| && !r.stopped && |r.events| == |ps|
            && forall i :: 0 <= i < |ps| ==> r.events[i] == Packet16(ps[i])
  {
    hide HandleAll, ParseFrom, Handle, Plain;
    WholeStream(ps);
    HandleAllPlain(ps, 0);
  }

  lemma {:induction false} CountAll(ps: seq<Packet>)
    ensures CountWithin(ps, |FrameAll(ps)|) == |ps|
  {
    hide Frame;
    if ps != [] {
      CountAll(ps[1..]);
    }
  }

  lemma WholeStream(ps: seq<Packet>)
    ensures var r, m := Parse(FrameAll(ps)), HandleAll(ps, 0);
            if m.Unsupported? then r.stopped
            else r == Progress(|FrameAll(ps)|, m.header, m.events, false)
  {
    hide HandleAll, ParseFrom, FrameAll;
    var ws := FrameAll(ps);
    CountAll(ps);
    PrefixMeansCompletePackets(ps, |ws|, [], 0);
    assert ps[..|ps|] == ps && [] + ws[..|ws|] == ws;
  }

  // The receiving thread on framed streams.

  /** A packet the receiver supports: at most one block long and, if it is a wrapped packet, with
      at most 16 flits of the system NoC. */
  predicate Supported(p: Packet) {
    && |p| <= NUM_SAMPLES_PER_TRANSFER
    && (0 < |p| && Class16(p[0]) == DBG_NOC_CLASS_NCM && |p| % 2 == 1 ==>
          |p| <= 2 * NCM_MAX_LISNOC32_FLITS_PER_PKG + 1)
  }

  lemma {:induction false} SupportedIsHandled(ps: seq<Packet>, header: word32)
    requires forall p :: p in ps ==> Supported(p)
    ensures HandleAll(ps, header).Handled?
  {
    hide Joined, ControlOf;
    if ps != [] {
      assert Supported(ps[0]);
      SupportedIsHandled(ps[1..], Handle(ps[0], header).header);
    }
  }

  /** After any number of blocks, cut anywhere, of a framed stream of supported packets, the
      thread is still running and has handed on exactly the packets that lie completely in these
      blocks. */
  lemma SupportedStreamKeepsRunning(ps: seq<Packet>, n: nat)
    requires (forall p :: p in ps ==> Supported(p)) && n <= |FrameAll(ps)|
    ensures var done := ps[..CountWithin(ps, n)];
            var r, m := Parse(FrameAll(ps)[..n]), HandleAll(done, 0);
            && !r.stopped && n <= r.pos + NUM_SAMPLES_PER_TRANSFER
            && m.Handled? && r.events == m.events
  {
    hide HandleAll, ParseFrom, Supported;
    var j := CountWithin(ps, n);
    SupportedIsHandled(ps[..j], 0);
    PrefixMeansCompletePackets(ps, n, [], 0);
    assert [] + FrameAll(ps)[..n] == FrameAll(ps)[..n];
    PendingPacket(ps, n);
    if j < |ps| {
      assert Supported(ps[j]);
      assert |ps[j]| <= NUM_SAMPLES_PER_TRANSFER by { assert Supported(ps[j]); SupportedFits(ps[j]); }
    }
  }

  lemma SupportedFits(p: Packet)
    requires Supported(p)
    ensures |p| <= NUM_SAMPLES_PER_TRANSFER
  {
  }

  lemma {:induction false} PendingPacket(ps: seq<Packet>, n: nat)
    requires n <= |FrameAll(ps)|
    ensures var j := CountWithin(ps, n);
            n <= |FrameAll(ps[..j])| + if j < |ps| then |ps[j]| else 0
  {
    var j := CountWithin(ps, n);
    if j == 0 {
      assert ps[..j] == [];
    } else {
      PendingPacket(ps[1..], n - |Frame(ps[0])|);
      assert ps[..j][0] == ps[0] && ps[..j][1..] == ps[1..][..j - 1];
    }
  }
}
