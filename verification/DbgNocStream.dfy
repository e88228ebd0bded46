/** The word stream of the Debug NoC: packets with a length word in front, and zero words as
    padding. What a complete stream prefix means is defined here; how the receiving thread finds
    out, block by block, is in `DbgNocReceivers`. */
module DbgNocStream {
  import opened Bits

  type word32 = w: int | 0 <= w < 0x1_0000_0000

  const NUM_SAMPLES_PER_TRANSFER: nat := 256
  const NCM_MAX_LISNOC32_FLITS_PER_PKG: nat := 16
  const DBG_NOC_CLASS_NCM: nat := 7
  const NOC_CLASS_CONTROLMSG: nat := 7

  type Flits16 = seq<word16>
  type Flits32 = seq<word32>

  /** What the receiver hands on: packets of the Debug NoC, packets of the system NoC that were
      wrapped in them, complaints about wrongly wrapped ones, and control messages. */
  datatype Event =
    | Packet16(flits: Flits16)
    | Packet32(flits32: Flits32)
    | Malformed(len: nat)
    | Control(source: nat, message: nat)

  function Class16(header: word16): nat { (header / 256) % 8 }

  function ControlOf(header: word32): seq<Event> {
    if (header / 0x100_0000) % 8 == NOC_CLASS_CONTROLMSG then
      [Control((header / 0x8_0000) % 32, header % 256)]
    else []
  }

  /** A header flit of the system NoC made of its fields: destination, class, source, and a message in
      the lowest byte. What is handed on of a control message are source and message; flits of other
      classes are none. */
  lemma ControlFields(dest: nat, class_: nat, source: nat, middle: nat, message: nat)
    requires dest < 32 && class_ < 8 && source < 32 && middle < 2048 && message < 256
    ensures var h := dest * 0x800_0000 + class_ * 0x100_0000 + source * 0x8_0000 + middle * 256 + message;
            && h < 0x1_0000_0000
            && ControlOf(h) == if class_ == 7 then [Control(source, message)] else []
  {
    var low := source * 0x8_0000 + middle * 256 + message;
    var h := dest * 0x800_0000 + class_ * 0x100_0000 + low;
    ModUnique(h, 0x100_0000, dest * 8 + class_, low);
    ModUnique(dest * 8 + class_, 8, dest, class_);
    ModUnique(h, 0x8_0000, (dest * 8 + class_) * 32 + source, middle * 256 + message);
    ModUnique((dest * 8 + class_) * 32 + source, 32, dest * 8 + class_, source);
    ModUnique(h, 256, (dest * 8 + class_) * 65536 + source * 2048 + middle, message);
  }

  // Wrapping system NoC packets.

  function Split(fs: Flits32): (r: Flits16)
    ensures |r| == 2 * |fs|
  {
    if fs == [] then [] else [fs[0] / 0x1_0000, fs[0] % 0x1_0000] + Split(fs[1..])
  }

  function JoinFlits(high: word16, low: word16): word32 { high * 0x1_0000 + low }

  function Joined(ws: Flits16): (r: Flits32)
    requires |ws| % 2 == 0
    ensures |r| == |ws| / 2
  {
    seq(|ws| / 2, i requires 0 <= i < |ws| / 2 => JoinFlits(ws[2 * i], ws[2 * i + 1]))
  }

  lemma {:induction false} SplitAt(fs: Flits32, i: nat)
    requires i < |fs|
    ensures Split(fs)[2 * i] == fs[i] / 0x1_0000 && Split(fs)[2 * i + 1] == fs[i] % 0x1_0000
  {
    if i > 0 {
      SplitAt(fs[1..], i - 1);
      assert Split(fs)[2 * i] == Split(fs[1..])[2 * (i - 1)];
      assert Split(fs)[2 * i + 1] == Split(fs[1..])[2 * (i - 1) + 1];
    }
  }

  lemma JoinSplit(fs: Flits32)
    ensures Joined(Split(fs)) == fs
  {
    hide Split;
    forall i | 0 <= i < |fs|
      ensures Joined(Split(fs))[i] == fs[i]
    {
      SplitAt(fs, i);
    }
  }

  function NcmHeader(addr: nat): word16 { (addr % 32) * 2048 + DBG_NOC_CLASS_NCM * 256 }

  /** The fields of a header flit of the Debug NoC beside its class: the destination in bits 15 to 11,
      and the data in bits 7 to 0. */
  function Dest16(header: word16): nat { header / 2048 }

  function Data16(header: word16): nat { header % 256 }

  /** A packet of the wrapping class for a module. */
  predicate AddressedTo(p: Flits16, addr: nat) {
    p != [] && Dest16(p[0]) == addr % 32 && Class16(p[0]) == 7 && Data16(p[0]) == 0
  }

  lemma WrapperIsAddressed(fs: Flits32, addr: nat)
    ensures AddressedTo(Encapsulate(fs, addr), addr)
  {
    var d := addr % 32;
    ModUnique(NcmHeader(addr), 2048, d, 7 * 256);
    ModUnique(NcmHeader(addr), 256, d * 8 + 7, 0);
    ModUnique(d * 8 + 7, 8, d, 7);
  }

  function Encapsulate(fs: Flits32, addr: nat): (p: Flits16)
    ensures |p| == 2 * |fs| + 1
  {
    [NcmHeader(addr)] + Split(fs)
  }

  // Handling one packet.

  datatype Outcome = Unsupported | Handled(events: seq<Event>, header: word32)

  /** What becomes of a complete packet; a packet without flits is padding. `header` is the first
      flit of the last system NoC packet seen; a wrapped packet without flits leaves it in place. */
  function Handle(p: Flits16, header: word32): Outcome {
    if p == [] then Handled([], header)
    else if Class16(p[0]) == DBG_NOC_CLASS_NCM then
      if |p| % 2 != 1 then Handled([Malformed(|p|)] + ControlOf(header), header)
      else if (|p| - 1) / 2 > NCM_MAX_LISNOC32_FLITS_PER_PKG then Unsupported
      else
        var fs := Joined(p[1..]);
        var h := if fs == [] then header else fs[0];
        Handled([Packet32(fs)] + ControlOf(h), h)
    else if |p| > NUM_SAMPLES_PER_TRANSFER then Unsupported
    else Handled([Packet16(p)], header)
  }

  // Streams.

  /** How far a stream prefix can be understood: `pos` is where the first incomplete packet starts,
      or the packet that made the receiver give up. */
  datatype Progress = Progress(pos: nat, header: word32, events: seq<Event>, stopped: bool)

  function ParseFrom(ws: seq<word16>, pos: nat, header: word32): (r: Progress)
    requires pos <= |ws|
    ensures pos <= r.pos <= |ws|
    decreases |ws| - pos
  {
    if pos == |ws| || pos + ws[pos] >= |ws| then Progress(pos, header, [], false)
    else
      var next := pos + 1 + ws[pos];
      match Handle(ws[pos + 1..next], header)
      case Unsupported => Progress(pos, header, [], true)
      case Handled(events, h) => After(events, ParseFrom(ws, next, h))
  }

  function Parse(ws: seq<word16>): Progress { ParseFrom(ws, 0, 0) }

  /** Some events, and then those of `r`. */
  function After(events: seq<Event>, r: Progress): Progress {
    r.(events := events + r.events)
  }

  lemma AfterAfter(a: seq<Event>, b: seq<Event>, r: Progress)
    ensures After(a, After(b, r)) == After(a + b, r)
  {
    assert a + (b + r.events) == a + b + r.events;
  }

  /** More words do not change what the words before meant; parsing goes on where it stopped. */
  lemma {:induction false} ParseExtend(ws: seq<word16>, more: seq<word16>, pos: nat, header: word32)
    requires pos <= |ws|
    ensures var r := ParseFrom(ws, pos, header);
            (ParseFrom(ws + more, pos, header)
             == if r.stopped then r else After(r.events, ParseFrom(ws + more, r.pos, r.header)))
    decreases |ws| - pos
  {
    hide Handle;
    if pos == |ws| || pos + ws[pos] >= |ws| {
      var q := ParseFrom(ws + more, pos, header);
      assert [] + q.events == q.events;
    } else {
      var next := pos + 1 + ws[pos];
      var p := ws[pos + 1..next];
      assert (ws + more)[pos + 1..next] == p;
      var o := Handle(p, header);
      if o.Handled? {
        ParseExtend(ws, more, next, o.header);
        var r := ParseFrom(ws, next, o.header);
        if !r.stopped {
          AfterAfter(o.events, r.events, ParseFrom(ws + more, r.pos, r.header));
        }
      }
    }
  }

  // Streams of packets.

  /** A packet as a sender frames it: its length fits a word. An empty one is a padding word. */
  type Packet = p: Flits16 | |p| < 0x1_0000

  function Frame(p: Packet): seq<word16> { [|p|] + p }

  function FrameAll(ps: seq<Packet>): seq<word16> {
    if ps == [] then [] else Frame(ps[0]) + FrameAll(ps[1..])
  }

  /** The number of packets that lie completely within the first `n` words. */
  function CountWithin(ps: seq<Packet>, n: nat): (j: nat)
    ensures j <= |ps|
  {
    if ps == [] || |Frame(ps[0])| > n then 0
    else 1 + CountWithin(ps[1..], n - |Frame(ps[0])|)
  }

  /** What becomes of a list of packets, one after the other. */
  function HandleAll(ps: seq<Packet>, header: word32): Outcome {
    if ps == [] then Handled([], header)
    else
      match Handle(ps[0], header)
      case Unsupported => Unsupported
      case Handled(events, h) =>
        match HandleAll(ps[1..], h)
        case Unsupported => Unsupported
        case Handled(rest, h') => Handled(events + rest, h')
  }

  lemma ParseStep(before: seq<word16>, p: Packet, tail: seq<word16>, header: word32)
    ensures var o, ws := Handle(p, header), before + Frame(p) + tail;
            (ParseFrom(ws, |before|, header)
             == if o.Unsupported? then Progress(|before|, header, [], true)
                else After(o.events, ParseFrom(ws, |before + Frame(p)|, o.header)))
  {
    hide Handle;
    var ws, pos := before + Frame(p) + tail, |before|;
    assert ws[pos] == |p|;
    assert ws[pos + 1..pos + 1 + |p|] == p;
  }

  lemma ParseStops(before: seq<word16>, p: Packet, n: nat, header: word32)
    requires n < |Frame(p)|
    ensures ParseFrom(before + Frame(p)[..n], |before|, header)
         == Progress(|before|, header, [], false)
  {
    hide Handle;
    var ws := before + Frame(p)[..n];
    if n > 0 {
      assert ws[|before|] == |p|;
    }
  }

  /** A prefix of a framed stream, cut at any word, means exactly the packets that lie completely
      within it, once each and in order. */
  lemma {:induction false} PrefixMeansCompletePackets(ps: seq<Packet>, n: nat, before: seq<word16>,
                                                      header: word32)
    requires n <= |FrameAll(ps)|
    ensures var done := ps[..CountWithin(ps, n)];
            var m, r := HandleAll(done, header), ParseFrom(before + FrameAll(ps)[..n], |before|, header);
            && |FrameAll(done)| <= n
            && (m.Unsupported? <==> r.stopped)
            && (m.Handled? ==>
                  r == Progress(|before| + |FrameAll(done)|, m.header, m.events, false))
    decreases |ps|
  {
    hide Handle, ParseFrom, Frame;
    var j := CountWithin(ps, n);
    var ws := before + FrameAll(ps)[..n];
    CountFits(ps, n);
    if ps == [] {
      assert ws == before && ps[..j] == [];
      NothingToParse(before, header);
    } else if j == 0 {
      assert FrameAll(ps)[..n] == Frame(ps[0])[..n];
      assert ps[..j] == [];
      ParseStops(before, ps[0], n, header);
    } else {
      var code, rest := Frame(ps[0]), ps[1..];
      var tail := FrameAll(rest)[..n - |code|];
      assert ws == before + code + tail;
      assert ps[..j][0] == ps[0] && ps[..j][1..] == rest[..j - 1];
      ParseStep(before, ps[0], tail, header);
      var o := Handle(ps[0], header);
      if o.Handled? {
        PrefixMeansCompletePackets(rest, n - |code|, before + code, o.header);
      }
    }
  }

  lemma {:induction false} CountFits(ps: seq<Packet>, n: nat)
    ensures |FrameAll(ps[..CountWithin(ps, n)])| <= n
  {
    hide Frame;
    var j := CountWithin(ps, n);
    if j == 0 {
      assert ps[..j] == [];
    } else {
      CountFits(ps[1..], n - |Frame(ps[0])|);
      assert ps[..j][0] == ps[0] && ps[..j][1..] == ps[1..][..j - 1];
    }
  }

  lemma NothingToParse(ws: seq<word16>, header: word32)
    ensures ParseFrom(ws, |ws|, header) == Progress(|ws|, header, [], false)
  {
  }
}
