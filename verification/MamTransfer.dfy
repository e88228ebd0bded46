/** Memory access transfers as the host and the Memory Access Module exchange them: the request
    format, its transport in packets of 16-bit words, and a model of the module. */
module MamTransfer {
  import opened Bits

  /** `aw` and `dw` are the address and data width in bytes. */
  datatype Widths = Widths(aw: nat, dw: nat)

  /** The module transports addresses and data in whole 16-bit words, and its byte select has
      eight bits. */
  predicate Supported(c: Widths) {
    c.aw in {2, 4, 8} && c.dw in {2, 4, 8}
  }

  // Bytes and numbers.

  function BigEndian(a: nat, n: nat): (bs: seq<byte>)
    ensures |bs| == n
  {
    if n == 0 then [] else BigEndian(a / 256, n - 1) + [a % 256]
  }

  function FromBigEndian(bs: seq<byte>): nat {
    if bs == [] then 0 else FromBigEndian(bs[..|bs| - 1]) * 256 + bs[|bs| - 1]
  }

  lemma {:induction false} BigEndianRoundTrip(a: nat, n: nat)
    requires a < Pow256(n)
    ensures FromBigEndian(BigEndian(a, n)) == a
  {
    if n > 0 {
      BigEndianRoundTrip(a / 256, n - 1);
      assert BigEndian(a, n)[..n - 1] == BigEndian(a / 256, n - 1);
    }
  }

  /** The byte the request loop computes: `(a >> ((n - i - 1) * 8)) & 0xff`. */
  function ByteAt(a: nat, n: nat, i: nat): byte
    requires i < n
  {
    (a / Pow256(n - i - 1)) % 256
  }

  lemma {:induction false} BigEndianByte(a: nat, n: nat, i: nat)
    requires i < n
    ensures BigEndian(a, n)[i] == ByteAt(a, n, i)
  {
    if i < n - 1 {
      BigEndianByte(a / 256, n - 1, i);
      DivDiv(a, Pow256(n - 2 - i));
    }
  }

  lemma DivDiv(a: nat, p: nat)
    requires 0 < p
    ensures a / 256 / p == a / (256 * p)
  {
    var q, r := a / 256 / p, a / 256 % p;
    assert a == (q * p + r) * 256 + a % 256;
    assert a == q * (256 * p) + (r * 256 + a % 256);
    ModUnique(a, 256 * p, q, r * 256 + a % 256);
  }

  // Words.

  /** Pairs of bytes, high byte first; an odd byte at the end is dropped. */
  function ToWords(bs: seq<byte>): (ws: seq<word16>)
    ensures |ws| == |bs| / 2
  {
    seq(|bs| / 2, i requires 0 <= i < |bs| / 2 => Pair(bs[2 * i], bs[2 * i + 1]))
  }

  function Pair(high: byte, low: byte): word16 {
    (high as int) * 256 + low
  }

  function FromWords(ws: seq<word16>): (bs: seq<byte>)
    ensures |bs| == 2 * |ws|
  {
    if ws == [] then [] else Bytes(ws[0]) + FromWords(ws[1..])
  }

  function Bytes(w: word16): seq<byte> { [w / 256, w % 256] }

  lemma {:induction false} FromWordsAt(ws: seq<word16>, i: nat)
    requires i < |ws|
    ensures FromWords(ws)[2 * i] == ws[i] / 256 && FromWords(ws)[2 * i + 1] == ws[i] % 256
  {
    if i > 0 {
      FromWordsAt(ws[1..], i - 1);
      assert FromWords(ws)[2 * i] == FromWords(ws[1..])[2 * (i - 1)];
      assert FromWords(ws)[2 * i + 1] == FromWords(ws[1..])[2 * (i - 1) + 1];
    }
  }

  lemma {:induction false} FromWordsAppend(a: seq<word16>, b: seq<word16>)
    ensures FromWords(a + b) == FromWords(a) + FromWords(b)
  {
    hide Bytes;
    if a == [] {
      assert a + b == b;
    } else {
      FromWordsAppend(a[1..], b);
      assert (a + b)[1..] == a[1..] + b;
      Associative(Bytes(a[0]), FromWords(a[1..]), FromWords(b));
    }
  }

  function Even(n: nat): nat { n - n % 2 }

  lemma WordsRoundTrip(bs: seq<byte>)
    ensures FromWords(ToWords(bs)) == bs[..Even(|bs|)]
  {
    hide FromWords, ToWords;
    var ws := ToWords(bs);
    forall j | 0 <= j < Even(|bs|)
      ensures FromWords(ws)[j] == bs[j]
    {
      WordRoundTrip(bs, j / 2);
      assert j == 2 * (j / 2) || j == 2 * (j / 2) + 1;
    }
  }

  lemma WordRoundTrip(bs: seq<byte>, i: nat)
    requires 2 * i + 1 < |bs|
    ensures var r := FromWords(ToWords(bs));
            |r| == Even(|bs|) && r[2 * i] == bs[2 * i] && r[2 * i + 1] == bs[2 * i + 1]
  {
    hide FromWords;
    FromWordsAt(ToWords(bs), i);
  }

  // Packets.

  type Payload = seq<word16>

  /** A request cut into packets of at most `mb` bytes. */
  function Packets(bs: seq<byte>, mb: nat): (ps: seq<Payload>)
    requires 0 < mb
    decreases |bs|
  {
    if |bs| <= mb then [ToWords(bs)] else [ToWords(bs[..mb])] + Packets(bs[mb..], mb)
  }

  function Flat(ps: seq<Payload>): seq<byte> {
    if ps == [] then [] else FromWords(ps[0]) + Flat(ps[1..])
  }

  lemma {:induction false} FlatAppend(a: seq<Payload>, b: seq<Payload>)
    ensures Flat(a + b) == Flat(a) + Flat(b)
  {
    hide FromWords;
    if a == [] {
      assert a + b == b;
    } else {
      FlatAppend(a[1..], b);
      assert (a + b)[1..] == a[1..] + b;
      Associative(FromWords(a[0]), Flat(a[1..]), Flat(b));
    }
  }

  /** The packets carry the request without its last byte if its size is odd, completely
      otherwise. */
  lemma {:induction false} PacketsCarry(bs: seq<byte>, mb: nat)
    requires 0 < mb && mb % 2 == 0
    ensures Flat(Packets(bs, mb)) == bs[..Even(|bs|)]
    ensures Flat(Packets(bs, mb)) == bs <==> |bs| % 2 == 0
    decreases |bs|
  {
    hide FromWords, ToWords, Even;
    EvenSize(|bs|, 0);
    if |bs| <= mb {
      WordsRoundTrip(bs);
      assert Flat([ToWords(bs)]) == FromWords(ToWords(bs)) + Flat([]);
    } else {
      var first, rest := bs[..mb], bs[mb..];
      EvenSize(|bs|, mb);
      EvenSize(mb, mb);
      WordsRoundTrip(first);
      PacketsCarry(rest, mb);
      assert first[..mb] == first;
      assert first + rest[..Even(|rest|)] == bs[..Even(|bs|)];
      assert ([ToWords(first)] + Packets(rest, mb))[1..] == Packets(rest, mb);
    }
    assert bs[..|bs|] == bs;
  }

  lemma EvenSize(n: nat, mb: nat)
    requires mb % 2 == 0 && mb <= n
    ensures Even(n) == mb + Even(n - mb) && Even(n) <= n
    ensures Even(n) == n <==> n % 2 == 0
  {
    ModUnique(n - mb, 2, n / 2 - mb / 2, n % 2);
  }

  // Requests.

  datatype Request = Request(we: bool, burst: bool, sync: bool, selsize: byte, addr: nat,
                             data: seq<byte>)

  function Flag(b: bool, weight: nat): nat { if b then weight else 0 }

  function Header(we: bool, burst: bool, sync: bool): byte {
    Flag(we, 128) + Flag(burst, 64) + Flag(sync, 32)
  }

  function Serialize(r: Request, c: Widths): (bs: seq<byte>)
    ensures |bs| == 2 + c.aw + |r.data|
  {
    [Header(r.we, r.burst, r.sync), r.selsize] + BigEndian(r.addr, c.aw) + r.data
  }

  /** The bytes of a request: the flags, from bit 7 on, in the first byte, the select or size byte, the
      address, most significant byte first, and the data. */
  lemma RequestLayout(r: Request, c: Widths)
    ensures var bs := Serialize(r, c);
            && bs[0] == (if r.we then 0x80 else 0) + (if r.burst then 0x40 else 0) + (if r.sync then 0x20 else 0)
            && bs[1] == r.selsize
            && (forall i :: 0 <= i < c.aw ==> bs[2 + i] == ByteAt(r.addr, c.aw, i))
            && bs[2 + c.aw..] == r.data
  {
    hide BigEndian, ByteAt, Pow256;
    forall i | 0 <= i < c.aw
      ensures Serialize(r, c)[2 + i] == ByteAt(r.addr, c.aw, i)
    {
      BigEndianByte(r.addr, c.aw, i);
    }
  }

  /** The data bytes a request with this header brings along. */
  function DataSize(we: bool, burst: bool, selsize: byte, dw: nat): nat {
    if !we then 0 else if burst then selsize * dw else dw
  }

  predicate WellFormed(r: Request, c: Widths) {
    r.addr < Pow256(c.aw) && |r.data| == DataSize(r.we, r.burst, r.selsize, c.dw)
  }

  // The module.

  /** `buf` holds the bytes of a request that is not complete yet, `syncs` the synchronous flags
      of the requests carried out so far; `ok` is lost when the module receives something it does
      not understand. */
  datatype Device = Device(mem: seq<byte>, buf: seq<byte>, ok: bool, syncs: seq<bool>)

  /** What the module sends back: nothing, an empty acknowledgement, or memory contents. */
  datatype Reply = None | Ack | Contents(bytes: seq<byte>)

  function Splice(mem: seq<byte>, at: nat, data: seq<byte>): (r: seq<byte>)
    requires at + |data| <= |mem|
    ensures |r| == |mem|
  {
    mem[..at] + data + mem[at + |data|..]
  }

  predicate BitSet(mask: nat, i: nat) {
    if i == 0 then mask % 2 == 1 else BitSet(mask / 2, i - 1)
  }

  /** A single-word write changes the selected bytes of the word only. */
  function MaskedWrite(mem: seq<byte>, at: nat, word: seq<byte>, mask: nat): (r: seq<byte>)
    requires at + |word| <= |mem|
    ensures |r| == |mem|
    ensures forall j :: 0 <= j < |mem| ==>
              r[j] == if at <= j < at + |word| && BitSet(mask, j - at) then word[j - at] else mem[j]
  {
    seq(|mem|, j requires 0 <= j < |mem| =>
      if at <= j < at + |word| && BitSet(mask, j - at) then word[j - at] else mem[j])
  }

  /** How many bytes of memory a request is about. */
  function Extent(r: Request, c: Widths): nat {
    if r.burst then r.selsize * c.dw else c.dw
  }

  function Execute(mem: seq<byte>, r: Request, c: Widths): seq<byte>
    requires WellFormed(r, c) && r.addr + Extent(r, c) <= |mem|
  {
    if !r.we then mem
    else if r.burst then Splice(mem, r.addr, r.data)
    else MaskedWrite(mem, r.addr, r.data, r.selsize)
  }

  function ReplyTo(mem: seq<byte>, r: Request, c: Widths): Reply
    requires r.addr + Extent(r, c) <= |mem|
  {
    if !r.we then Contents(mem[r.addr..r.addr + Extent(r, c)])
    else if r.sync then Ack else None
  }

  /** Reading a request back from its bytes. */
  function Deserialize(bs: seq<byte>, c: Widths): Request
    requires |bs| >= 2 + c.aw
  {
    Request(bs[0] / 128 == 1, (bs[0] / 64) % 2 == 1, (bs[0] / 32) % 2 == 1, bs[1],
            FromBigEndian(bs[2..2 + c.aw]), bs[2 + c.aw..])
  }

  /** Is the header there, and all the data it announces? */
  predicate Complete(bs: seq<byte>, c: Widths) {
    |bs| >= 2 + c.aw &&
    var r := Deserialize(bs, c);
    |r.data| >= DataSize(r.we, r.burst, r.selsize, c.dw)
  }

  /** The module after it has carried out a request. */
  function Done(d: Device, r: Request, c: Widths): Device
    requires WellFormed(r, c) && r.addr + Extent(r, c) <= |d.mem|
  {
    Device(Execute(d.mem, r, c), [], true, d.syncs + [r.sync])
  }

  /** One packet arrives. */
  function Receive(d: Device, p: Payload, c: Widths): (Device, Reply) {
    var bs := d.buf + FromWords(p);
    if !d.ok || !Complete(bs, c) then (d.(buf := bs), None)
    else
      var r := Deserialize(bs, c);
      if WellFormed(r, c) && r.addr + Extent(r, c) <= |d.mem| then
        (Done(d, r, c), ReplyTo(d.mem, r, c))
      else (d.(buf := bs, ok := false), None)
  }

  lemma SerializeRoundTrip(r: Request, c: Widths)
    requires WellFormed(r, c)
    ensures Deserialize(Serialize(r, c), c) == r && Complete(Serialize(r, c), c)
  {
    hide BigEndian, FromBigEndian, Pow256;
    BigEndianRoundTrip(r.addr, c.aw);
    var bs := Serialize(r, c);
    assert bs[2..2 + c.aw] == BigEndian(r.addr, c.aw);
    assert bs[2 + c.aw..] == r.data;
    HeaderBits(r.we, r.burst, r.sync);
  }

  lemma HeaderBits(we: bool, burst: bool, sync: bool)
    ensures var h := Header(we, burst, sync);
            && (h / 128 == 1 <==> we)
            && ((h / 64) % 2 == 1 <==> burst)
            && ((h / 32) % 2 == 1 <==> sync)
  {
  }

  /** A proper prefix of a request is not complete. */
  lemma PrefixIncomplete(r: Request, c: Widths, k: nat)
    requires WellFormed(r, c) && k < |Serialize(r, c)|
    ensures !Complete(Serialize(r, c)[..k], c)
  {
    var bs := Serialize(r, c);
    SerializeRoundTrip(r, c);
    if k >= 2 + c.aw {
      assert bs[..k][2..2 + c.aw] == bs[2..2 + c.aw];
    }
  }

  /** The module's state while a request comes in: an idle module that has received the first
      `k` bytes. */
  function Partial(d: Device, r: Request, c: Widths, k: nat): Device
    requires k <= |Serialize(r, c)|
  {
    d.(buf := Serialize(r, c)[..k], ok := true)
  }

  /** The next packet of a request either leaves the module waiting or, with the last byte, makes
      it carry out exactly that request. */
  lemma ReceivePart(d: Device, r: Request, c: Widths, lo: nat, hi: nat)
    requires WellFormed(r, c) && r.addr + Extent(r, c) <= |d.mem|
    requires lo < hi <= |Serialize(r, c)| && (hi - lo) % 2 == 0
    ensures Receive(Partial(d, r, c, lo), ToWords(Serialize(r, c)[lo..hi]), c)
         == if hi < |Serialize(r, c)| then (Partial(d, r, c, hi), None)
            else (Done(d, r, c), ReplyTo(d.mem, r, c))
  {
    hide FromWords, ToWords, Deserialize, Complete, Execute, ReplyTo;
    var bs := Serialize(r, c);
    WordsRoundTrip(bs[lo..hi]);
    assert bs[lo..hi][..hi - lo] == bs[lo..hi];
    assert bs[..lo] + bs[lo..hi] == bs[..hi];
    if hi < |bs| {
      PrefixIncomplete(r, c, hi);
    } else {
      assert bs[..hi] == bs;
      SerializeRoundTrip(r, c);
    }
  }

  // Memory effects.

  lemma SpliceConcat(mem: seq<byte>, at: nat, a: seq<byte>, b: seq<byte>)
    requires at + |a| + |b| <= |mem|
    ensures Splice(Splice(mem, at, a), at + |a|, b) == Splice(mem, at, a + b)
  {
  }

  /** Reading the spliced range gives the data back; nothing else changed. */
  lemma SpliceReadsBack(mem: seq<byte>, at: nat, data: seq<byte>)
    requires at + |data| <= |mem|
    ensures Splice(mem, at, data)[at..at + |data|] == data
    ensures forall j :: 0 <= j < |mem| && !(at <= j < at + |data|) ==>
              Splice(mem, at, data)[j] == mem[j]
  {
  }

  lemma {:induction false} RangeMaskBit(lo: nat, hi: nat, i: nat)
    requires lo <= hi
    ensures Pow2(lo) <= Pow2(hi)
    ensures BitSet(Pow2(hi) - Pow2(lo), i) <==> lo <= i < hi
    decreases hi
  {
    if hi == lo {
      ZeroHasNoBits(i);
    } else {
      var lo' := if lo == 0 then 0 else lo - 1;
      RangeMaskBit(lo', hi - 1, if i == 0 then 0 else i - 1);
      if lo == 0 {
        assert Pow2(hi) - 1 == 2 * (Pow2(hi - 1) - 1) + 1;
      } else {
        assert Pow2(hi) - Pow2(lo) == 2 * (Pow2(hi - 1) - Pow2(lo - 1));
      }
    }
  }

  lemma {:induction false} ZeroHasNoBits(i: nat)
    ensures !BitSet(0, i)
  {
    if i > 0 {
      ZeroHasNoBits(i - 1);
    }
  }

  /** The aligned word, with the data at its place. */
  function AlignedWord(baddr: nat, data: seq<byte>, dw: nat): (w: seq<byte>)
    requires baddr + |data| <= dw
    ensures |w| == dw
  {
    seq(baddr, _ => 0) + data + seq(dw - baddr - |data|, _ => 0)
  }

  /** Writing the aligned word with the mask of its data bytes is a splice of the data. */
  lemma MaskedWriteIsSplice(mem: seq<byte>, word: nat, baddr: nat, data: seq<byte>, dw: nat)
    requires baddr + |data| <= dw && word + dw <= |mem|
    ensures Pow2(baddr) <= Pow2(baddr + |data|)
    ensures MaskedWrite(mem, word, AlignedWord(baddr, data, dw),
                        Pow2(baddr + |data|) - Pow2(baddr))
         == Splice(mem, word + baddr, data)
  {
    RangeMaskBit(baddr, baddr + |data|, 0);
    var mask, w := Pow2(baddr + |data|) - Pow2(baddr), AlignedWord(baddr, data, dw);
    var r, s := MaskedWrite(mem, word, w, mask), Splice(mem, word + baddr, data);
    forall j | 0 <= j < |mem|
      ensures r[j] == s[j]
    {
      if word <= j < word + dw {
        RangeMaskBit(baddr, baddr + |data|, j - word);
      }
    }
  }
}
