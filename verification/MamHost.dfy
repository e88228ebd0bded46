/** Writing to and reading from a memory through its Memory Access Module. */
module MamHost {
  import opened Bits
  import opened MamTransfer
  import opened Mam

  /** Division rounding up, as `1 + (x - 1) / y`. */
  function IntDivCeil(x: nat, y: nat): (q: nat)
    requires 0 < x && 0 < y
    ensures 0 < q && (q - 1) * y < x <= q * y
  {
    assert x - 1 == ((x - 1) / y) * y + (x - 1) % y;
    1 + (x - 1) / y
  }

  // What a call of the host module's interface costs, and how it ends.

  /** The widths of the memory, how many words a packet has, and how answers are cut. */
  datatype Setup = Setup(c: Widths, words: nat, cuts: seq<nat>)
  {
    predicate Valid() { Supported(c) && 0 < words }

    /** How many packets a request with `n` bytes of data takes. */
    function Sends(n: nat): nat
      requires Valid()
    {
      IntDivCeil(2 + c.aw + n, 2 * words)
    }

    /** How many calls a request for `n` bytes takes: a write with its acknowledgement, if there is
        one, a read with the packets of the answer. */
    function Cost(read: bool, n: nat, sync: bool): nat
      requires Valid()
    {
      if read then Sends(0) + HostMod.Pieces(n / 2, cuts) else Sends(n) + if sync then 1 else 0
    }
  }

  function SetupOf(link: HostMod): Setup {
    Setup(link.c, link.maxEventWords, link.cuts)
  }

  /** A request: does it keep to the words of the memory, and how many calls does it take? */
  datatype Piece = Piece(fits: bool, calls: nat)

  /** How a list of requests ends, and which faults are left then. A request that does not fit is not
      issued. */
  function Fate(plan: seq<Piece>, faults: seq<bool>): (Status, seq<bool>) {
    if plan == [] then (Ok, faults)
    else if !plan[0].fits then (Aborted, faults)
    else
      var r := Calls(faults, plan[0].calls);
      if r.0 then Fate(plan[1..], r.1) else (LinkError, r.1)
  }

  /** A request for part of a word is one for the word around it; it is not issued if the part reaches
      into the next word. */
  lemma SingleFate(u: Setup, read: bool, start: nat, n: nat, sync: bool, faults: seq<bool>)
    requires u.Valid()
    ensures start % u.c.dw + n > u.c.dw ==>
              Fate([SinglePiece(u, read, start, n, sync)], faults) == (Aborted, faults)
    ensures start % u.c.dw + n <= u.c.dw ==>
              SinglePiece(u, read, start, n, sync)
              == Piece((start - start % u.c.dw) % u.c.aw == 0, u.Cost(read, u.c.dw, sync))
  {
    hide Setup.Cost;
    OnePiece(SinglePiece(u, read, start, n, sync), faults);
  }

  lemma {:induction false} FateConcat(a: seq<Piece>, b: seq<Piece>, faults: seq<bool>)
    ensures Fate(a + b, faults)
         == if Fate(a, faults).0 == Ok then Fate(b, Fate(a, faults).1) else Fate(a, faults)
  {
    hide Calls;
    if a == [] {
      assert a + b == b;
    } else {
      assert (a + b)[1..] == a[1..] + b;
      FateConcat(a[1..], b, Calls(faults, a[0].calls).1);
    }
  }

  lemma OnePiece(p: Piece, faults: seq<bool>)
    ensures Fate([p], faults)
         == if !p.fits then (Aborted, faults)
            else (if Calls(faults, p.calls).0 then Ok else LinkError, Calls(faults, p.calls).1)
  {
    assert [p][1..] == [];
  }

  /** Without faults a list of requests ends well exactly if all of them fit, and is aborted
      otherwise. */
  lemma {:induction false} FateWithoutFaults(plan: seq<Piece>, faults: seq<bool>)
    ensures true !in faults ==>
              && Fate(plan, faults).0 == (if forall p :: p in plan ==> p.fits then Ok else Aborted)
              && true !in Fate(plan, faults).1
  {
    if plan != [] && true !in faults {
      CallsMean(faults, plan[0].calls);
      if plan[0].fits {
        FateWithoutFaults(plan[1..], Calls(faults, plan[0].calls).1);
        assert forall p :: p in plan <==> p == plan[0] || p in plan[1..];
      } else {
        assert plan[0] in plan;
      }
    }
  }

  /** The requests for whole words: bursts of at most 255 words, the last one synchronous if `sync`
      holds. */
  function BurstPlan(u: Setup, read: bool, start: nat, n: nat, sync: bool): (plan: seq<Piece>)
    requires u.Valid()
    ensures plan != []
    decreases n
  {
    var size := MAX_BURST_WORDS * u.c.dw;
    if n <= size then [Piece(start % u.c.aw == 0, u.Cost(read, n, sync))]
    else [Piece(start % u.c.aw == 0, u.Cost(read, size, false))]
         + BurstPlan(u, read, start + size, n - size, sync)
  }

  function SinglePiece(u: Setup, read: bool, start: nat, n: nat, sync: bool): Piece
    requires u.Valid()
  {
    Piece(SingleFits(start, n, u.c), u.Cost(read, u.c.dw, sync))
  }

  /** The requests for a range: a partial first word, whole words, and a partial last word. Only the
      last one is synchronous. */
  function Plan(u: Setup, read: bool, start: nat, n: nat): seq<Piece>
    requires u.Valid()
  {
    var p := CalculateParts(start, n, u.c.dw);
    (if p.prolog > 0 then [SinglePiece(u, read, start, p.prolog, !read && p.bulk == 0 && p.epilog == 0)] else [])
    + (if p.bulk > 0 then BurstPlan(u, read, start + p.prolog, p.bulk, !read && p.epilog == 0) else [])
    + (if p.epilog > 0 && p.bulk >= 0 then
         [SinglePiece(u, read, start + p.prolog + p.bulk, p.epilog, !read)] else [])
  }

  /** The bursts of a plan fit exactly if the range is acceptable. */
  lemma {:induction false} BurstPlanFits(u: Setup, read: bool, start: nat, n: nat, sync: bool)
    requires u.Valid() && 0 < n
    ensures (forall p :: p in BurstPlan(u, read, start, n, sync) ==> p.fits) <==> AcceptsBurst(start, n, u.c)
    decreases n
  {
    var size, plan := MAX_BURST_WORDS * u.c.dw, BurstPlan(u, read, start, n, sync);
    assert plan[0] in plan;
    if n > size {
      BurstPlanFits(u, read, start + size, n - size, sync);
      assert plan[1..] == BurstPlan(u, read, start + size, n - size, sync);
      assert forall p :: p in plan <==> p == plan[0] || p in plan[1..];
      if start % u.c.aw == 0 {
        NextAligned(start, size, u.c.aw);
      }
    }
  }

  lemma NextAligned(start: nat, size: nat, aw: nat)
    requires 0 < aw && start % aw == 0
    ensures (start + size) % aw == 0 <==> size % aw == 0
  {
    ModAddMod(start, size, aw);
  }

  /** All requests of a plan fit exactly if the range is acceptable. */
  lemma PlanFits(u: Setup, read: bool, start: nat, n: nat)
    requires u.Valid() && start + n <= 0x1_0000_0000_0000_0000
    ensures (forall p :: p in Plan(u, read, start, n) ==> p.fits) <==> Accepts(start, n, u.c)
  {
    hide CalculateParts, AcceptsBurst, SingleFits, Accepts, BurstPlan, Setup.Cost;
    PartsCoverRange(start, n, u.c.dw);
    AcceptsParts(start, n, u.c);
    var p := CalculateParts(start, n, u.c.dw);
    var alone := !read && p.bulk == 0 && p.epilog == 0;
    var a := if p.prolog > 0 then [SinglePiece(u, read, start, p.prolog, alone)] else [];
    var b := if p.bulk > 0 then BurstPlan(u, read, start + p.prolog, p.bulk, !read && p.epilog == 0) else [];
    var c := if p.epilog > 0 then [SinglePiece(u, read, start + p.prolog + p.bulk, p.epilog, !read)] else [];
    assert Plan(u, read, start, n) == a + b + c;
    if p.bulk > 0 {
      BurstPlanFits(u, read, start + p.prolog, p.bulk, !read && p.epilog == 0);
    }
    assert forall x :: x in a + b + c <==> x in a || x in b || x in c;
    AllFit(a, b, c);
    assert p.prolog > 0 ==> a[0] in a;
    assert p.epilog > 0 ==> c[0] in c;
  }

  lemma AllFit(a: seq<Piece>, b: seq<Piece>, c: seq<Piece>)
    ensures (forall p :: p in a + b + c ==> p.fits)
       <==> (forall p :: p in a ==> p.fits) && (forall p :: p in b ==> p.fits) && (forall p :: p in c ==> p.fits)
  {
    assert forall p :: p in a + b + c <==> p in a || p in b || p in c;
  }

  // One transfer.

  /** Write an address, most significant byte first, after the two header bytes. */
  method FillAddress(transfer: array<byte>, addr: nat, aw: nat)
    requires 2 + aw <= transfer.Length
    modifies transfer
    ensures forall j :: 0 <= j < transfer.Length ==>
              transfer[j] == if 2 <= j < 2 + aw then BigEndian(addr, aw)[j - 2] else old(transfer[j])
  {
    hide BigEndian, Pow256, ByteAt;
    for i := 0 to aw
      invariant forall j :: 0 <= j < transfer.Length ==>
                  transfer[j] == if 2 <= j < 2 + i then BigEndian(addr, aw)[j - 2] else old(transfer[j])
    {
      transfer[2 + i] := ByteAt(addr, aw, i);
      BigEndianByte(addr, aw, i);
    }
  }

  /** Build the bytes of a request; fails if the address is not a multiple of the address width. */
  method CreateMamTransfer(c: Widths, r: Request) returns (ok: bool, transfer: array<byte>)
    requires Supported(c) && WellFormed(r, c)
    ensures ok <==> r.addr % c.aw == 0
    ensures ok ==> fresh(transfer) && transfer[..] == Serialize(r, c)
  {
    hide BigEndian, Pow256, Header;
    if r.addr % c.aw != 0 {
      return false, new byte[0];
    }
    transfer := new byte[2 + c.aw + |r.data|](_ => 0);
    transfer[0] := Header(r.we, r.burst, r.sync);
    transfer[1] := r.selsize;
    FillAddress(transfer, r.addr, c.aw);
    if r.we {
      forall j | 0 <= j < |r.data| {
        transfer[2 + c.aw + j] := r.data[j];
      }
    }
    assert transfer[..] == Serialize(r, c);
    return true, transfer;
  }

  /** The packet with number `idx` of a transfer. */
  method PkgInTransfer(transfer: array<byte>, idx: nat, mb: nat) returns (p: Payload)
    requires 0 < mb && idx * mb < transfer.Length
    ensures p == ToWords(transfer[idx * mb..Min(idx * mb + mb, transfer.Length)])
  {
    var posStart := idx * mb;
    var posEnd := posStart + mb;
    if posEnd > transfer.Length {
      posEnd := transfer.Length;
    }
    hide ToWords;
    p := PackWords(transfer, posStart, posEnd);
  }

  /** Two bytes make a word, high byte first. */
  method PackWords(transfer: array<byte>, posStart: nat, posEnd: nat) returns (p: Payload)
    requires posStart <= posEnd <= transfer.Length
    ensures p == ToWords(transfer[posStart..posEnd])
  {
    var words := (posEnd - posStart) / 2;
    var bpos := posStart;
    p := [];
    for w := 0 to words
      invariant bpos == posStart + 2 * w && |p| == w
      invariant forall j :: 0 <= j < w ==>
                  p[j] == Pair(transfer[posStart + 2 * j], transfer[posStart + 2 * j + 1])
    {
      p := p + [Pair(transfer[bpos], transfer[bpos + 1])];
      bpos := bpos + 2;
    }
  }

  /** `i * mb`, by counting. */
  function Offset(i: nat, mb: nat): nat {
    if i == 0 then 0 else mb + Offset(i - 1, mb)
  }

  lemma {:induction false} OffsetIsProduct(i: nat, mb: nat)
    ensures Offset(i, mb) == i * mb
  {
    if i > 0 {
      OffsetIsProduct(i - 1, mb);
      NextMultiple(i - 1, mb);
    }
  }

  lemma {:induction false} PacketAtOffset(bs: seq<byte>, mb: nat, i: nat)
    requires 0 < mb && Offset(i, mb) < |bs|
    ensures i < |Packets(bs, mb)|
    ensures Packets(bs, mb)[i] == ToWords(bs[Offset(i, mb)..Min(Offset(i, mb) + mb, |bs|)])
  {
    hide ToWords;
    if i == 0 {
      assert bs[0..Min(0 + mb, |bs|)] == if |bs| <= mb then bs else bs[..mb];
    } else {
      var rest, lo := bs[mb..], Offset(i - 1, mb);
      PacketAtOffset(rest, mb, i - 1);
      assert rest[lo..Min(lo + mb, |rest|)] == bs[lo + mb..Min(lo + mb + mb, |bs|)];
      assert Packets(bs, mb)[i] == Packets(rest, mb)[i - 1];
    }
  }

  /** The numbered packets are the pieces of the transfer, and their number is as computed. */
  lemma PacketsAreNumbered(bs: seq<byte>, mb: nat, i: nat)
    requires 0 < mb && i * mb < |bs|
    ensures i < |Packets(bs, mb)| == IntDivCeil(|bs|, mb)
    ensures Packets(bs, mb)[i] == ToWords(bs[i * mb..Min(i * mb + mb, |bs|)])
  {
    hide Offset, Packets, ToWords, IntDivCeil;
    OffsetIsProduct(i, mb);
    PacketAtOffset(bs, mb, i);
    PacketsAreCounted(bs, mb);
  }

  lemma {:induction false} PacketsAreCounted(bs: seq<byte>, mb: nat)
    requires 0 < mb && 0 < |bs|
    ensures |Packets(bs, mb)| == IntDivCeil(|bs|, mb)
    decreases |bs|
  {
    hide ToWords;
    if |bs| <= mb {
      ModUnique(|bs| - 1, mb, 0, |bs| - 1);
    } else {
      var rest := bs[mb..];
      PacketsAreCounted(rest, mb);
      ModUnique(|bs| - 1, mb, (|rest| - 1) / mb + 1, (|rest| - 1) % mb);
    }
  }

  /** The host module holds exactly the answer. */
  ghost predicate Answered(rx: seq<Payload>, reply: Reply, cuts: seq<nat>) {
    match reply
    case None => rx == []
    case Ack => rx == [[]]
    case Contents(bytes) =>
      Flat(rx) == bytes && [] !in rx && |rx| == HostMod.Pieces(|bytes| / 2, cuts)
  }

  /** Send the bytes from `lo` to `hi` of a request as one packet. */
  method SendPart(link: HostMod, p: Payload, ghost d: Device, ghost r: Request, ghost lo: nat,
                  ghost hi: nat)
    returns (sent: bool)
    requires link.Valid() && WellFormed(r, link.c) && r.addr + Extent(r, link.c) <= |d.mem|
    requires lo < hi <= |Serialize(r, link.c)| && (hi - lo) % 2 == 0
    requires link.dev == Partial(d, r, link.c, lo) && link.rx == []
    requires p == ToWords(Serialize(r, link.c)[lo..hi])
    modifies link
    ensures link.Valid()
    ensures !sent ==> link.dev == old(link.dev)
    ensures sent ==>
              if hi < |Serialize(r, link.c)| then
                link.dev == Partial(d, r, link.c, hi) && link.rx == []
              else
                link.dev == Done(d, r, link.c) && Answered(link.rx, ReplyTo(d.mem, r, link.c), link.cuts)
    ensures (sent, link.faults) == Calls(old(link.faults), 1)
  {
    hide Serialize, Receive, Execute, ToWords, Flat;
    ReceivePart(d, r, link.c, lo, hi);
    TransferIsEven(r, link.c);
    sent := link.EventSend(p);
  }

  /** A transfer that was sent has been carried out exactly once; one that could not be sent
      completely has changed nothing. */
  method SendMamTransfer(link: HostMod, transfer: array<byte>, ghost r: Request)
    returns (ok: bool)
    requires link.Idle() && WellFormed(r, link.c)
    requires r.addr + Extent(r, link.c) <= |link.dev.mem|
    requires transfer[..] == Serialize(r, link.c)
    modifies link
    ensures link.Valid()
    ensures !ok ==> link.dev.mem == old(link.dev.mem) && link.dev.syncs == old(link.dev.syncs)
    ensures ok ==> link.dev == Done(old(link.dev), r, link.c)
    ensures ok ==> Answered(link.rx, ReplyTo(old(link.dev.mem), r, link.c), link.cuts)
    ensures (ok, link.faults) == Calls(old(link.faults), SetupOf(link).Sends(|r.data|))
  {
    hide Serialize, Execute, ToWords, Done, ReplyTo, Answered, WellFormed, IntDivCeil, Extent, Calls;
    ghost var d, faults := link.dev, link.faults;
    ghost var bs := Serialize(r, link.c);
    assert d == Partial(d, r, link.c, 0);
    var mb := 2 * link.maxEventWords;
    TransferIsEven(r, link.c);
    var n := IntDivCeil(transfer.Length, mb);
    assert n == SetupOf(link).Sends(|r.data|);
    var i := 0;
    while i < n
      invariant i <= n && link.Valid()
      invariant Calls(faults, n) == Calls(link.faults, n - i)
      invariant i < n ==> i * mb < |bs| && link.dev == Partial(d, r, link.c, i * mb) && link.rx == []
      invariant i == n ==> link.dev == Done(d, r, link.c)
      invariant i == n ==> Answered(link.rx, ReplyTo(d.mem, r, link.c), link.cuts)
    {
      NextPacket(i, mb, |bs|, n);
      ghost var lo := i * mb;
      ghost var hi := Min(lo + mb, |bs|);
      assert transfer[lo..hi] == bs[lo..hi];
      var p := PkgInTransfer(transfer, i, mb);
      CallsFurther(link.faults, 1, n - i - 1);
      var sent := SendPart(link, p, d, r, lo, hi);
      if !sent {
        return false;
      }
      i := i + 1;
    }
    NoCalls(link.faults);
    return true;
  }

  lemma NoCalls(faults: seq<bool>)
    ensures Calls(faults, 0) == (true, faults)
  {
  }

  lemma TransferIsEven(r: Request, c: Widths)
    requires Supported(c) && WellFormed(r, c)
    ensures |Serialize(r, c)| % 2 == 0 && Extent(r, c) % 2 == 0
  {
    hide BigEndian;
    EvenMultiple(r.selsize, c.dw);
  }

  lemma NextPacket(i: nat, mb: nat, size: nat, n: nat)
    requires mb % 2 == 0 && size % 2 == 0 && i < n && (n - 1) * mb < size <= n * mb
    ensures (Min(i * mb + mb, size) - i * mb) % 2 == 0
    ensures if i + 1 < n then (i + 1) * mb == i * mb + mb < size else i * mb + mb >= size
  {
    EvenMultiple(i, mb);
    PartIsEven(i * mb, mb, size);
    NextMultiple(i, mb);
    if i + 1 < n {
      MultiplesGrow(i + 1, n - 1, mb);
    }
  }

  lemma PartIsEven(lo: nat, mb: nat, size: nat)
    requires lo % 2 == 0 && mb % 2 == 0 && size % 2 == 0
    ensures (Min(lo + mb, size) - lo) % 2 == 0
  {
  }

  lemma EvenMultiple(i: nat, m: nat)
    requires m % 2 == 0
    ensures i * m % 2 == 0
  {
    assert m == 2 * (m / 2);
    assert i * m == 2 * (i * (m / 2));
  }

  // Writing.

  /** The synchronous flags of the requests that were added to `before`: at least one request,
      and the last one synchronous if `sync` holds, no other one. */
  predicate Added(before: seq<bool>, after: seq<bool>, sync: bool) {
    && before < after
    && (forall i :: |before| <= i < |after| - 1 ==> !after[i])
    && after[|after| - 1] == sync
  }

  lemma SmallAddress(mem: seq<byte>, addr: nat, c: Widths)
    requires Supported(c) && |mem| <= Pow256(c.aw) && addr < |mem|
    ensures addr < Pow256(c.aw)
  {
  }

  /** Issue one write request and, if it is synchronous, wait for the acknowledgement. */
  method MamWrite(link: HostMod, data: seq<byte>, start: nat, burst: bool, sync: bool, selsize: byte)
    returns (st: Status)
    requires link.Idle() && 0 < |data| == DataSize(true, burst, selsize, link.c.dw)
    requires start + |data| <= |link.dev.mem|
    modifies link
    ensures link.Valid()
    ensures st == Aborted <==> start % link.c.aw != 0
    ensures st == Aborted ==> unchanged(link)
    ensures (st, link.faults)
         == Fate([Piece(start % link.c.aw == 0, SetupOf(link).Cost(false, |data|, sync))], old(link.faults))
    ensures var r := Request(true, burst, sync, selsize, start, data);
            && r.addr < Pow256(link.c.aw)
            && (st == Ok ==> link.Idle() && link.dev == Done(old(link.dev), r, link.c))
            && link.dev.mem in [old(link.dev.mem), Execute(old(link.dev.mem), r, link.c)]
  {
    hide Serialize, Execute, Pow256, Calls, Fate, Setup.Sends;
    ghost var mem := link.dev.mem;
    SmallAddress(mem, start, link.c);
    OnePiece(Piece(start % link.c.aw == 0, SetupOf(link).Cost(false, |data|, sync)), link.faults);
    CallsFurther(link.faults, SetupOf(link).Sends(|data|), 1);
    var r := Request(true, burst, sync, selsize, start, data);
    var created, transfer := CreateMamTransfer(link.c, r);
    if !created {
      return Aborted;
    }
    var sent := SendMamTransfer(link, transfer, r);
    if !sent {
      return LinkError;
    }
    if sync {
      var received, _ := link.EventReceive();
      if !received {
        return LinkError;
      }
    }
    return Ok;
  }

  /** The mask with the bits from `lo` up to `hi` set, as one byte. */
  method ByteSelect(lo: nat, hi: nat, dw: nat) returns (mask: byte)
    requires lo < hi <= dw <= 8
    ensures Pow2(lo) < Pow2(hi) && mask == Pow2(hi) - Pow2(lo)
  {
    var bs := 0;
    for i := 0 to dw
      invariant 0 <= bs < Pow2(i)
      invariant if i <= lo then bs == 0 else bs == Pow2(Min(i, hi)) - Pow2(lo)
    {
      if i >= lo && i < hi {
        OrSetsTopBit(bs, i);
        bs := Or(bs, Pow2(i));
      }
    }
    PowersGrow(hi, 8);
    assert Pow2(8) == 256;
    PowersGrow(lo + 1, hi);
    return bs;
  }

  /** Place up to a word of data into a word, and select its bytes. */
  method AlignDataToWord(baddr: nat, data: seq<byte>, dw: nat)
    returns (ok: bool, word: array<byte>, mask: byte)
    requires 0 < |data| && dw <= 8
    ensures ok <==> baddr + |data| <= dw
    ensures ok ==> fresh(word) && word[..] == AlignedWord(baddr, data, dw)
    ensures ok ==> Pow2(baddr) < Pow2(baddr + |data|) && mask == Pow2(baddr + |data|) - Pow2(baddr)
  {
    hide Pow2;
    if baddr + |data| > dw {
      return false, new byte[0], 0;
    }
    mask := ByteSelect(baddr, baddr + |data|, dw);
    word := new byte[dw](_ => 0);
    forall j | 0 <= j < |data| {
      word[baddr + j] := data[j];
    }
    return true, word, mask;
  }

  lemma {:induction false} PowersGrow(i: nat, j: nat)
    requires i <= j
    ensures Pow2(i) <= Pow2(j)
  {
    if i < j {
      PowersGrow(i, j - 1);
    }
  }

  // Widths and addresses.

  /** The word that holds an address lies in the memory. */
  lemma WordInMemory(size: nat, start: nat, dw: nat)
    requires 0 < dw && size % dw == 0 && start < size
    ensures start - start % dw + dw <= size
  {
    var q, n := start / dw, size / dw;
    assert start == q * dw + start % dw && size == n * dw;
    if q >= n {
      MultiplesGrow(n, q, dw);
    }
    MultiplesGrow(q + 1, n, dw);
  }

  /** Write up to a word of data with one request for the word around it. */
  method WriteSingle(link: HostMod, data: seq<byte>, start: nat, sync: bool) returns (st: Status)
    requires link.Idle() && 0 < |data| && start + |data| <= |link.dev.mem|
    modifies link
    ensures link.Valid()
    ensures var dw := link.c.dw;
            st == Aborted <==> start % dw + |data| > dw || (start - start % dw) % link.c.aw != 0
    ensures st == Aborted ==> unchanged(link)
    ensures (st, link.faults)
         == Fate([SinglePiece(SetupOf(link), false, start, |data|, sync)], old(link.faults))
    ensures st == Ok ==> link.Idle() && Added(old(link.dev.syncs), link.dev.syncs, sync)
    ensures st == Ok ==> link.dev.mem == Splice(old(link.dev.mem), start, data)
    ensures link.dev.mem in [old(link.dev.mem), Splice(old(link.dev.mem), start, data)]
  {
    hide Pow2, MaskedWrite, Splice, AlignedWord, Fate, Setup.Cost, SinglePiece;
    var dw := link.c.dw;
    SingleFate(SetupOf(link), false, start, |data|, sync, link.faults);
    var baddr := start % dw;
    var ok, word, mask := AlignDataToWord(baddr, data, dw);
    if !ok {
      return Aborted;
    }
    WordInMemory(|link.dev.mem|, start, dw);
    MaskedWriteIsSplice(link.dev.mem, start - baddr, baddr, data, dw);
    st := MamWrite(link, word[..], start - baddr, false, sync, mask);
  }

  /** Write the bytes from `lo` to `hi` of a range, in one burst request. */
  method WriteBurstPart(link: HostMod, data: seq<byte>, start: nat, lo: nat, hi: nat, sync: bool,
                        ghost mem: seq<byte>)
    returns (st: Status, ghost k: nat)
    requires link.Idle() && lo < hi <= |data| && hi - lo <= MAX_BURST_WORDS * link.c.dw
    requires (hi - lo) % link.c.dw == 0 && start + |data| <= |mem|
    requires link.dev.mem == Splice(mem, start, data[..lo])
    modifies link
    ensures link.Valid() && lo <= k <= hi && link.dev.mem == Splice(mem, start, data[..k])
    ensures st == Ok ==> k == hi && link.Idle() && link.dev.syncs == old(link.dev.syncs) + [sync]
    ensures st == Aborted <==> (start + lo) % link.c.aw != 0
    ensures (st, link.faults)
         == Fate([Piece((start + lo) % link.c.aw == 0, SetupOf(link).Cost(false, hi - lo, sync))],
                 old(link.faults))
  {
    hide Fate, Setup.Cost;
    var dw := link.c.dw;
    var words := (hi - lo) / dw;
    assert hi - lo == words * dw;
    BurstFits(words, dw);
    st := MamWrite(link, data[lo..hi], start + lo, true, sync, words);
    SpliceConcat(mem, start, data[..lo], data[lo..hi]);
    assert data[..lo] + data[lo..hi] == data[..hi];
    k := if st != Ok && link.dev.mem == old(link.dev.mem) then lo else hi;
  }

  lemma BurstFits(words: nat, dw: nat)
    requires 0 < dw && words * dw <= MAX_BURST_WORDS * dw
    ensures words <= MAX_BURST_WORDS
  {
    if words > MAX_BURST_WORDS {
      MultiplesGrow(MAX_BURST_WORDS + 1, words, dw);
    }
  }

  /** Write whole words as bursts of at most 255 words; `k` tells how many bytes have arrived. */
  method WriteBurst(link: HostMod, data: seq<byte>, start: nat, sync: bool)
    returns (st: Status, ghost k: nat)
    requires link.Idle() && 0 < |data| < 0x1_0000_0000 && |data| % link.c.dw == 0
    requires start + |data| <= |link.dev.mem|
    modifies link
    ensures link.Valid()
    ensures k <= |data| && link.dev.mem == Splice(old(link.dev.mem), start, data[..k])
    ensures st == Ok ==> k == |data| && link.Idle()
    ensures st == Ok ==> Added(old(link.dev.syncs), link.dev.syncs, sync)
    ensures st == Ok ==> AcceptsBurst(start, |data|, link.c)
    ensures st == Aborted ==> !AcceptsBurst(start, |data|, link.c)
    ensures (st, link.faults)
         == Fate(BurstPlan(SetupOf(link), false, start, |data|, sync), old(link.faults))
  {
    hide Splice, Fate, BurstPlan, Setup.Cost, BurstsLeft;
    ghost var mem, syncs, u := link.dev.mem, link.dev.syncs, SetupOf(link);
    FirstBursts(u, false, start, |data|, sync, link.faults);
    var dw, n := link.c.dw, |data|;
    assert mem == Splice(mem, start, data[..0]) by { SpliceNothing(mem, start); }
    if start % link.c.aw != 0 {
      return Aborted, 0;
    }
    var size := MAX_BURST_WORDS * dw;
    var count := IntDivCeil(n, size);
    var t := 0;
    k := 0;
    ghost var whole := Fate(BurstPlan(u, false, start, n, sync), link.faults);
    while t < count
      invariant t <= count && k == Min(t * size, n)
      invariant link.Idle() && link.dev.mem == Splice(mem, start, data[..k])
      invariant syncs <= link.dev.syncs
      invariant t == 0 ==> syncs == link.dev.syncs
      invariant t > 0 ==> Added(syncs, link.dev.syncs, sync && t == count)
      invariant if t == count then k == n else t * size == k < n
      invariant BurstsLeft(u, false, start, n, sync, whole, k, link.faults)
      invariant t > 1 ==> size % link.c.aw == 0
    {
      var lo := t * size;
      var hi := lo + size;
      if hi > n {
        hi := n;
      }
      NextBurst(t, dw, n, count);
      BurstAlignment(start, t, size, link.c.aw);
      OneBurstMore(u, false, start, n, sync, whole, lo, hi, link.faults);
      st, k := WriteBurstPart(link, data, start, lo, hi, sync && t == count - 1, mem);
      if st != Ok {
        return;
      }
      t := t + 1;
    }
    assert data[..n] == data;
    AllBurstsDone(u, false, start, n, sync, whole, link.faults);
    return Ok, k;
  }

  lemma AllBurstsDone(u: Setup, read: bool, start: nat, n: nat, sync: bool, whole: (Status, seq<bool>),
                      faults: seq<bool>)
    requires u.Valid() && BurstsLeft(u, read, start, n, sync, whole, n, faults)
    ensures whole == (Ok, faults)
  {
  }

  /** How a list of bursts ends, starting with the first one. */
  lemma BurstFate(u: Setup, read: bool, start: nat, n: nat, sync: bool, faults: seq<bool>)
    requires u.Valid() && 0 < n
    ensures var size := MAX_BURST_WORDS * u.c.dw;
            var last := n <= size;
            var m := if last then n else size;
            var first := Fate([Piece(start % u.c.aw == 0, u.Cost(read, m, sync && last))], faults);
            (Fate(BurstPlan(u, read, start, n, sync), faults)
             == if last || first.0 != Ok then first
                else Fate(BurstPlan(u, read, start + size, n - size, sync), first.1))
    ensures start % u.c.aw != 0 ==> Fate(BurstPlan(u, read, start, n, sync), faults) == (Aborted, faults)
  {
    hide Setup.Cost, Calls;
    var size := MAX_BURST_WORDS * u.c.dw;
    if n > size {
      FateConcat([Piece(start % u.c.aw == 0, u.Cost(read, size, false))],
                 BurstPlan(u, read, start + size, n - size, sync), faults);
    }
    OnePiece(Piece(start % u.c.aw == 0, u.Cost(read, if n <= size then n else size, sync && n <= size)), faults);
  }

  /** A list of bursts of which the first `lo` bytes are done ends as the rest of it. */
  ghost predicate BurstsLeft(u: Setup, read: bool, start: nat, n: nat, sync: bool,
                             whole: (Status, seq<bool>), lo: nat, faults: seq<bool>)
    requires u.Valid() && lo <= n
  {
    whole == if lo == n then (Ok, faults) else Fate(BurstPlan(u, read, start + lo, n - lo, sync), faults)
  }

  lemma FirstBursts(u: Setup, read: bool, start: nat, n: nat, sync: bool, faults: seq<bool>)
    requires u.Valid() && 0 < n
    ensures BurstsLeft(u, read, start, n, sync, Fate(BurstPlan(u, read, start, n, sync), faults), 0, faults)
    ensures start % u.c.aw != 0 ==> Fate(BurstPlan(u, read, start, n, sync), faults) == (Aborted, faults)
  {
    BurstFate(u, read, start, n, sync, faults);
  }

  lemma OneBurstMore(u: Setup, read: bool, start: nat, n: nat, sync: bool, whole: (Status, seq<bool>),
                     lo: nat, hi: nat, faults: seq<bool>)
    requires u.Valid() && lo < n && hi == Min(lo + MAX_BURST_WORDS * u.c.dw, n)
    requires BurstsLeft(u, read, start, n, sync, whole, lo, faults)
    ensures var r := Fate([Piece((start + lo) % u.c.aw == 0, u.Cost(read, hi - lo, sync && hi == n))], faults);
            if r.0 == Ok then BurstsLeft(u, read, start, n, sync, whole, hi, r.1) else whole == r
  {
    hide Fate, BurstPlan, Setup.Cost;
    BurstFate(u, read, start + lo, n - lo, sync, faults);
  }

  lemma NoRequests(faults: seq<bool>)
    ensures Fate([], faults) == (Ok, faults)
  {
  }

  lemma SpliceNothing(mem: seq<byte>, at: nat)
    requires at <= |mem|
    ensures Splice(mem, at, []) == mem
  {
  }

  lemma NextBurst(t: nat, dw: nat, n: nat, count: nat)
    requires 0 < dw && n % dw == 0 && t < count
    requires (count - 1) * (MAX_BURST_WORDS * dw) < n <= count * (MAX_BURST_WORDS * dw)
    ensures var size := MAX_BURST_WORDS * dw; var lo := t * size;
            && lo < n && (Min(lo + size, n) - lo) % dw == 0
            && if t + 1 < count then (t + 1) * size == lo + size < n else lo + size >= n
  {
    hide Min;
    var size := MAX_BURST_WORDS * dw;
    MultiplesGrow(t, count - 1, size);
    NextMultiple(t, size);
    if t + 1 < count {
      MultiplesGrow(t + 1, count - 1, size);
    }
    assert n == (n / dw) * dw;
    BurstOfWords(t, n / dw, dw);
  }

  lemma BurstOfWords(t: nat, words: nat, dw: nat)
    requires 0 < dw
    ensures var size, n := MAX_BURST_WORDS * dw, words * dw;
            (Min(t * size + size, n) - t * size) % dw == 0
  {
    var size, n := MAX_BURST_WORDS * dw, words * dw;
    if t * size + size <= n {
      ModUnique(size, dw, MAX_BURST_WORDS, 0);
    } else {
      assert t * size == (t * MAX_BURST_WORDS) * dw;
      ModUnique(n - t * size, dw, words - t * MAX_BURST_WORDS, 0);
    }
  }

  lemma BurstAlignment(start: nat, t: nat, size: nat, aw: nat)
    requires 0 < aw && start % aw == 0
    ensures t == 0 || size % aw == 0 ==> (start + t * size) % aw == 0
    ensures t == 1 ==> ((start + t * size) % aw == 0 <==> size % aw == 0)
  {
    ModAddMod(start, t * size, aw);
    if size % aw == 0 {
      assert size == (size / aw) * aw;
      assert t * size == (t * (size / aw)) * aw + 0;
      ModUnique(t * size, aw, t * (size / aw), 0);
    }
  }

  /** Extending a splice by the next bytes of the same data. */
  lemma SpliceExtend(mem: seq<byte>, at: nat, data: seq<byte>, lo: nat, hi: nat, k: nat)
    requires lo <= hi <= |data| && k <= hi - lo && at + |data| <= |mem|
    ensures Splice(Splice(mem, at, data[..lo]), at + lo, data[lo..hi][..k])
         == Splice(mem, at, data[..lo + k])
  {
    hide Splice;
    SpliceConcat(mem, at, data[..lo], data[lo..hi][..k]);
    assert data[..lo] + data[lo..hi][..k] == data[..lo + k];
  }

  lemma AddedTwice(a: seq<bool>, b: seq<bool>, c: seq<bool>, sync: bool)
    requires Added(a, b, false) && Added(b, c, sync)
    ensures Added(a, c, sync)
  {
  }

  lemma AddressesFit(size: nat, c: Widths)
    requires Supported(c) && size <= Pow256(c.aw)
    ensures size <= 0x1_0000_0000_0000_0000
  {
    assert Pow256(2) == 0x1_0000;
    assert Pow256(4) == 0x1_0000_0000;
    assert Pow256(6) == 0x1_0000_0000_0000;
    assert Pow256(8) == 0x1_0000_0000_0000_0000;
  }

  /** The synchronous flags after the first `k` bytes of a write have been sent. */
  predicate SoFar(before: seq<bool>, after: seq<bool>, k: nat) {
    if k == 0 then after == before else Added(before, after, false)
  }

  predicate SingleFits(start: nat, n: nat, c: Widths)
    requires Supported(c)
  {
    start % c.dw + n <= c.dw && (start - start % c.dw) % c.aw == 0
  }

  /** The bytes of a write from `lo` to `hi`, within one word. */
  method WriteEdge(link: HostMod, data: seq<byte>, start: nat, lo: nat, hi: nat, sync: bool,
                   ghost mem: seq<byte>, ghost syncs: seq<bool>)
    returns (st: Status, ghost k: nat)
    requires link.Idle() && lo < hi <= |data| && start + |data| <= |mem|
    requires link.dev.mem == Splice(mem, start, data[..lo]) && SoFar(syncs, link.dev.syncs, lo)
    modifies link
    ensures link.Valid() && k <= |data| && link.dev.mem == Splice(mem, start, data[..k])
    ensures st == Aborted <==> !SingleFits(start + lo, hi - lo, link.c)
    ensures st == Ok ==> k == hi && link.Idle() && Added(syncs, link.dev.syncs, sync)
    ensures (st, link.faults)
         == Fate([SinglePiece(SetupOf(link), false, start + lo, hi - lo, sync)], old(link.faults))
  {
    hide Splice, Added, Fate, SinglePiece;
    ghost var was := link.dev;
    st := WriteSingle(link, data[lo..hi], start + lo, sync);
    SpliceExtend(mem, start, data, lo, hi, hi - lo);
    assert data[lo..hi][..hi - lo] == data[lo..hi];
    k := if st != Ok && link.dev.mem == was.mem then lo else hi;
    if st == Ok && lo > 0 {
      AddedTwice(syncs, was.syncs, link.dev.syncs, sync);
    }
  }

  /** The bytes of a write from `lo` to `hi`, whole words. */
  method WriteBulk(link: HostMod, data: seq<byte>, start: nat, lo: nat, hi: nat, sync: bool,
                   ghost mem: seq<byte>, ghost syncs: seq<bool>)
    returns (st: Status, ghost k: nat)
    requires link.Idle() && lo < hi <= |data| < 0x1_0000_0000 && (hi - lo) % link.c.dw == 0
    requires start + |data| <= |mem|
    requires link.dev.mem == Splice(mem, start, data[..lo]) && SoFar(syncs, link.dev.syncs, lo)
    modifies link
    ensures link.Valid() && k <= |data| && link.dev.mem == Splice(mem, start, data[..k])
    ensures st == Ok ==> AcceptsBurst(start + lo, hi - lo, link.c)
    ensures st == Aborted ==> !AcceptsBurst(start + lo, hi - lo, link.c)
    ensures st == Ok ==> k == hi && link.Idle() && Added(syncs, link.dev.syncs, sync)
    ensures (st, link.faults)
         == Fate(BurstPlan(SetupOf(link), false, start + lo, hi - lo, sync), old(link.faults))
  {
    hide Splice, Added, AcceptsBurst, Fate, BurstPlan;
    ghost var was := link.dev;
    st, k := WriteBurst(link, data[lo..hi], start + lo, sync);
    SpliceExtend(mem, start, data, lo, hi, k);
    k := lo + k;
    if st == Ok && lo > 0 {
      AddedTwice(syncs, was.syncs, link.dev.syncs, sync);
    }
  }

  /** What the three parts of a range ask for is what `Accepts` says. */
  lemma AcceptsParts(start: nat, n: nat, c: Widths)
    requires Supported(c) && start + n <= 0x1_0000_0000_0000_0000
    ensures var p := CalculateParts(start, n, c.dw);
            Accepts(start, n, c) <==>
            && (p.prolog > 0 ==> SingleFits(start, p.prolog, c))
            && (p.bulk > 0 ==> AcceptsBurst(start + p.prolog, p.bulk, c))
            && (p.epilog > 0 ==> SingleFits(start + p.prolog + p.bulk, p.epilog, c))
  {
    PartsCoverRange(start, n, c.dw);
    hide AcceptsBurst, Sub64;
  }

  /** A completed write has changed exactly the addressed bytes, whatever their alignment, and
      only its last request was synchronous. A write that fails has changed a prefix of them. The
      write is abandoned on an assertion only if the range is not acceptable. */
  method OsdClMamWrite(link: HostMod, data: seq<byte>, start: nat)
    returns (st: Status, ghost k: nat)
    requires link.Idle() && |data| < 0x1_0000_0000 && start + |data| <= |link.dev.mem|
    modifies link
    ensures link.Valid()
    ensures k <= |data| && link.dev.mem == Splice(old(link.dev.mem), start, data[..k])
    ensures st == Ok ==> link.Idle() && link.dev.mem == Splice(old(link.dev.mem), start, data)
    ensures st == Ok && 0 < |data| ==> Added(old(link.dev.syncs), link.dev.syncs, true)
    ensures data == [] ==> st == Ok && unchanged(link)
    ensures st == Ok ==> Accepts(start, |data|, link.c)
    ensures st == Aborted ==> !Accepts(start, |data|, link.c)
    ensures (st, link.faults) == Fate(Plan(SetupOf(link), false, start, |data|), old(link.faults))
    ensures true !in old(link.faults) ==> st == if Accepts(start, |data|, link.c) then Ok else Aborted
  {
    hide Splice, Added, CalculateParts, AcceptsBurst, SingleFits, Accepts, Fate, Plan, BurstPlan, SinglePiece;
    ghost var mem, syncs, u := link.dev.mem, link.dev.syncs, SetupOf(link);
    AddressesFit(|mem|, link.c);
    FateWithoutFaults(Plan(u, false, start, |data|), link.faults);
    PlanFits(u, false, start, |data|);
    PlanFate(u, false, start, |data|, link.faults);
    SpliceNothing(mem, start);
    PartsCoverRange(start, |data|, link.c.dw);
    AcceptsParts(start, |data|, link.c);
    var p := CalculateParts(start, |data|, link.c.dw);
    k := 0;
    if p.prolog > 0 {
      st, k := WriteEdge(link, data, start, 0, p.prolog, p.bulk == 0 && p.epilog == 0, mem, syncs);
      if st != Ok {
        return;
      }
    }
    if p.bulk > 0 {
      st, k := WriteBulk(link, data, start, p.prolog, p.prolog + p.bulk, p.epilog == 0, mem, syncs);
      if st != Ok {
        return;
      }
    }
    if p.epilog > 0 {
      st, k := WriteEdge(link, data, start, p.prolog + p.bulk, |data|, true, mem, syncs);
      if st != Ok {
        return;
      }
    }
    assert data[..|data|] == data;
    return Ok, k;
  }

  /** A plan is carried out part by part. */
  lemma PlanFate(u: Setup, read: bool, start: nat, n: nat, faults: seq<bool>)
    requires u.Valid() && start + n <= 0x1_0000_0000_0000_0000
    ensures var p := CalculateParts(start, n, u.c.dw);
            && p.bulk >= 0
            && var single := !read && p.bulk == 0 && p.epilog == 0;
               var f1 := if p.prolog > 0 then Fate([SinglePiece(u, read, start, p.prolog, single)], faults)
                         else (Ok, faults);
               var f2 := if f1.0 == Ok && p.bulk > 0 then
                           Fate(BurstPlan(u, read, start + p.prolog, p.bulk, !read && p.epilog == 0), f1.1)
                         else f1;
               var f3 := if f2.0 == Ok && p.epilog > 0 then
                           Fate([SinglePiece(u, read, start + p.prolog + p.bulk, p.epilog, !read)], f2.1)
                         else f2;
               Fate(Plan(u, read, start, n), faults) == f3
  {
    hide CalculateParts, BurstPlan, SinglePiece, Fate;
    PartsCoverRange(start, n, u.c.dw);
    var p := CalculateParts(start, n, u.c.dw);
    var alone := !read && p.bulk == 0 && p.epilog == 0;
    var a := if p.prolog > 0 then [SinglePiece(u, read, start, p.prolog, alone)] else [];
    var b := if p.bulk > 0 then BurstPlan(u, read, start + p.prolog, p.bulk, !read && p.epilog == 0) else [];
    var c := if p.epilog > 0 then [SinglePiece(u, read, start + p.prolog + p.bulk, p.epilog, !read)] else [];
    assert Plan(u, read, start, n) == a + b + c;
    FateConcat(a + b, c, faults);
    FateConcat(a, b, faults);
    NoRequests(faults);
    NoRequests(Fate(a, faults).1);
    NoRequests(Fate(a + b, faults).1);
  }

  // Reading.

  /** `k` bytes of memory from `start` have arrived in the buffer at `off`; the rest of the buffer
      is as it was. */
  predicate Filled(was: seq<byte>, now: seq<byte>, off: nat, mem: seq<byte>, start: nat, k: nat) {
    && off + k <= |was| && start + k <= |mem|
    && now == Splice(was, off, mem[start..start + k])
  }

  lemma FilledFurther(a: seq<byte>, b: seq<byte>, c: seq<byte>, off: nat, mem: seq<byte>,
                      start: nat, j: nat, k: nat)
    requires Filled(a, b, off, mem, start, j) && Filled(b, c, off + j, mem, start + j, k)
    ensures Filled(a, c, off, mem, start, j + k)
  {
    hide Splice;
    SpliceConcat(a, off, mem[start..start + j], mem[start + j..start + j + k]);
    assert mem[start..start + j] + mem[start + j..start + j + k] == mem[start..start + j + k];
  }

  /** Copy the words of one packet, high byte first. */
  method CopyPayload(p: Payload, data: array<byte>, at: nat)
    requires at + 2 * |p| <= data.Length
    modifies data
    ensures data[..] == Splice(old(data[..]), at, FromWords(p))
  {
    hide FromWords;
    for w := 0 to |p|
      invariant forall j :: 0 <= j < data.Length ==>
                  data[j] == if at <= j < at + 2 * w then FromWords(p)[j - at] else old(data[j])
    {
      data[at + 2 * w] := p[w] / 256;
      data[at + 2 * w + 1] := p[w] % 256;
      FromWordsAt(p, w);
    }
  }

  /** Receive packets until the answer is complete. */
  method CollectAnswer(link: HostMod, data: array<byte>, off: nat, nbyte: nat, ghost start: nat)
    returns (ok: bool, ghost k: nat)
    requires link.Valid() && 0 < nbyte && off + nbyte <= data.Length
    requires start + nbyte <= |link.dev.mem|
    requires Answered(link.rx, Contents(link.dev.mem[start..start + nbyte]), link.cuts)
    modifies link`rx, link`faults, data
    ensures link.Valid() && k <= nbyte
    ensures Filled(old(data[..]), data[..], off, link.dev.mem, start, k)
    ensures ok ==> k == nbyte && link.rx == []
    ensures (ok, link.faults) == Calls(old(link.faults), HostMod.Pieces(nbyte / 2, link.cuts))
  {
    hide FromWords, Flat, Filled, Calls;
    ghost var mem, buffer, faults, n := link.dev.mem, data[..], link.faults, |link.rx|;
    var got: nat := 0;
    k := 0;
    NothingFilled(buffer, off, mem, start);
    while got < nbyte
      invariant link.Valid() && k == got <= nbyte && Filled(buffer, data[..], off, mem, start, k)
      invariant Flat(link.rx) == mem[start + got..start + nbyte] && [] !in link.rx
      invariant Calls(faults, n) == Calls(link.faults, |link.rx|)
      decreases |link.rx|
    {
      SomethingLeft(link.rx);
      CallsFurther(link.faults, 1, |link.rx| - 1);
      var received, p := link.EventReceive();
      if !received {
        return false, k;
      }
      TakePacket(p, link.rx, mem[start + got..start + nbyte]);
      ghost var before := data[..];
      CopyPayload(p, data, off + got);
      FilledBy(before, data[..], off + got, mem, start + got, FromWords(p));
      FilledFurther(buffer, before, data[..], off, mem, start, got, 2 * |p|);
      got := got + 2 * |p|;
      k := got;
    }
    NothingLeft(link.rx);
    NoCalls(link.faults);
    return true, k;
  }

  lemma NothingFilled(buffer: seq<byte>, off: nat, mem: seq<byte>, start: nat)
    requires off <= |buffer| && start <= |mem|
    ensures Filled(buffer, buffer, off, mem, start, 0)
  {
    SpliceNothing(buffer, off);
  }

  lemma FilledBy(was: seq<byte>, now: seq<byte>, off: nat, mem: seq<byte>, start: nat,
                 bytes: seq<byte>)
    requires off + |bytes| <= |was| && now == Splice(was, off, bytes)
    requires start + |bytes| <= |mem| && bytes == mem[start..start + |bytes|]
    ensures Filled(was, now, off, mem, start, |bytes|)
  {
  }

  /** Issue one read request and collect the answer, whatever packets it comes in. */
  method MamRead(link: HostMod, data: array<byte>, off: nat, nbyte: nat, start: nat, burst: bool,
                 selsize: byte)
    returns (st: Status, ghost k: nat)
    requires link.Idle() && 0 < nbyte == (if burst then selsize * link.c.dw else link.c.dw)
    requires off + nbyte <= data.Length && start + nbyte <= |link.dev.mem|
    modifies link, data
    ensures link.Valid() && link.dev.mem == old(link.dev.mem)
    ensures k <= nbyte && Filled(old(data[..]), data[..], off, link.dev.mem, start, k)
    ensures st == Aborted <==> start % link.c.aw != 0
    ensures st == Aborted ==> k == 0 && unchanged(link)
    ensures st == Ok ==> k == nbyte && link.Idle()
    ensures (st, link.faults)
         == Fate([Piece(start % link.c.aw == 0, SetupOf(link).Cost(true, nbyte, false))], old(link.faults))
  {
    hide Serialize, Pow256, Answered, Filled, BigEndian, Calls, Fate, Setup.Sends;
    ghost var mem := link.dev.mem;
    OnePiece(Piece(start % link.c.aw == 0, SetupOf(link).Cost(true, nbyte, false)), link.faults);
    CallsFurther(link.faults, SetupOf(link).Sends(0), HostMod.Pieces(nbyte / 2, link.cuts));
    SmallAddress(mem, start, link.c);
    NothingFilled(data[..], off, mem, start);
    k := 0;
    var r := Request(false, burst, false, selsize, start, []);
    assert Extent(r, link.c) == nbyte;
    var created, transfer := CreateMamTransfer(link.c, r);
    if !created {
      return Aborted, k;
    }
    var sent := SendMamTransfer(link, transfer, r);
    if !sent {
      return LinkError, k;
    }
    var ok;
    ok, k := CollectAnswer(link, data, off, nbyte, start);
    return if ok then Ok else LinkError, k;
  }

  lemma TakePacket(p: Payload, rest: seq<Payload>, bytes: seq<byte>)
    requires Flat([p] + rest) == bytes
    ensures 2 * |p| <= |bytes| && FromWords(p) == bytes[..2 * |p|] && Flat(rest) == bytes[2 * |p|..]
  {
    hide FromWords;
    assert ([p] + rest)[1..] == rest;
  }

  lemma SomethingLeft(rx: seq<Payload>)
    ensures Flat(rx) != [] ==> rx != []
  {
  }

  lemma NothingLeft(rx: seq<Payload>)
    requires [] !in rx
    ensures Flat(rx) == [] ==> rx == []
  {
    if rx != [] {
      assert rx[0] in rx;
    }
  }

  method CopyFromWord(word: array<byte>, baddr: nat, data: array<byte>, off: nat, n: nat)
    requires word != data && baddr + n <= word.Length && off + n <= data.Length
    modifies data
    ensures forall j :: 0 <= j < data.Length ==>
              data[j] == if off <= j < off + n then word[baddr + j - off] else old(data[j])
  {
    forall j | 0 <= j < n {
      data[off + j] := word[baddr + j];
    }
  }

  /** Read up to a word: the addressed bytes of the word around them. */
  method ReadSingle(link: HostMod, data: array<byte>, off: nat, n: nat, start: nat)
    returns (st: Status, ghost k: nat)
    requires link.Idle() && 0 < n && off + n <= data.Length && start + n <= |link.dev.mem|
    modifies link, data
    ensures link.Valid() && link.dev.mem == old(link.dev.mem)
    ensures k <= n && Filled(old(data[..]), data[..], off, link.dev.mem, start, k)
    ensures st == Aborted <==> !SingleFits(start, n, link.c)
    ensures st == Ok ==> k == n && link.Idle()
    ensures (st, link.faults) == Fate([SinglePiece(SetupOf(link), true, start, n, false)], old(link.faults))
  {
    hide Splice, Pow2, Filled, AlignedWord, Fate, Setup.Cost, SinglePiece;
    SingleFate(SetupOf(link), true, start, n, false, link.faults);
    var dw := link.c.dw;
    var baddr := start % dw;
    ghost var mem, buffer := link.dev.mem, data[..];
    NothingFilled(buffer, off, mem, start);
    k := 0;
    var ok, word, mask := AlignDataToWord(baddr, data[off..off + n], dw);
    if !ok {
      return Aborted, k;
    }
    WordInMemory(|mem|, start, dw);
    ghost var kk: nat := 0;
    st, kk := MamRead(link, word, 0, dw, start - baddr, false, mask);
    CopyFromWord(word, baddr, data, off, n);
    k := if kk < baddr then 0 else Min(kk - baddr, n);
    FilledFromWord(buffer, data[..], off, mem, start, n, word[..], baddr, kk, dw);
  }

  /** Copying a partly filled word leaves the buffer filled as far as the word is. */
  lemma FilledFromWord(buffer: seq<byte>, now: seq<byte>, off: nat, mem: seq<byte>, start: nat,
                       n: nat, word: seq<byte>, baddr: nat, kk: nat, dw: nat)
    requires off + n <= |buffer| && start + n <= |mem| && baddr <= start
    requires baddr + n <= dw && kk <= dw && start - baddr + dw <= |mem|
    requires Filled(AlignedWord(baddr, buffer[off..off + n], dw), word, 0, mem, start - baddr, kk)
    requires |now| == |buffer|
    requires forall j :: 0 <= j < |now| ==>
               now[j] == if off <= j < off + n then word[baddr + j - off] else buffer[j]
    ensures Filled(buffer, now, off, mem, start, if kk < baddr then 0 else Min(kk - baddr, n))
  {
    var k := if kk < baddr then 0 else Min(kk - baddr, n);
    var aligned := AlignedWord(baddr, buffer[off..off + n], dw);
    var goal := Splice(buffer, off, mem[start..start + k]);
    forall j | 0 <= j < |now|
      ensures now[j] == goal[j]
    {
      if off <= j < off + n {
        var w := baddr + (j - off);
        assert aligned[w] == buffer[off..off + n][j - off] == buffer[j];
        assert word[w] == if w < kk then mem[start - baddr + w] else aligned[w];
      }
    }
  }

  /** Read whole words in bursts of at most 255 words. */
  method ReadBurst(link: HostMod, data: array<byte>, off: nat, n: nat, start: nat)
    returns (st: Status, ghost k: nat)
    requires link.Idle() && 0 < n < 0x1_0000_0000 && n % link.c.dw == 0
    requires off + n <= data.Length && start + n <= |link.dev.mem|
    modifies link, data
    ensures link.Valid() && link.dev.mem == old(link.dev.mem)
    ensures k <= n && Filled(old(data[..]), data[..], off, link.dev.mem, start, k)
    ensures st == Ok ==> k == n && link.Idle()
    ensures st == Ok ==> AcceptsBurst(start, n, link.c)
    ensures st == Aborted ==> !AcceptsBurst(start, n, link.c)
    ensures (st, link.faults) == Fate(BurstPlan(SetupOf(link), true, start, n, false), old(link.faults))
  {
    hide Filled, Fate, BurstPlan, Setup.Cost, BurstsLeft;
    ghost var mem, buffer, u := link.dev.mem, data[..], SetupOf(link);
    FirstBursts(u, true, start, n, false, link.faults);
    NothingFilled(buffer, off, mem, start);
    k := 0;
    if start % link.c.aw != 0 {
      return Aborted, k;
    }
    var dw := link.c.dw;
    var size := MAX_BURST_WORDS * dw;
    var count := IntDivCeil(n, size);
    var t := 0;
    ghost var whole := Fate(BurstPlan(u, true, start, n, false), link.faults);
    while t < count
      invariant t <= count && k == Min(t * size, n)
      invariant link.Idle() && link.dev.mem == mem && Filled(buffer, data[..], off, mem, start, k)
      invariant if t == count then k == n else t * size == k < n
      invariant BurstsLeft(u, true, start, n, false, whole, k, link.faults)
      invariant t > 1 ==> size % link.c.aw == 0
    {
      var lo := t * size;
      var hi := lo + size;
      if hi > n {
        hi := n;
      }
      NextBurst(t, dw, n, count);
      BurstAlignment(start, t, size, link.c.aw);
      OneBurstMore(u, true, start, n, false, whole, lo, hi, link.faults);
      st, k := ReadBurstPart(link, data, off, start, lo, hi, buffer);
      if st != Ok {
        return;
      }
      t := t + 1;
    }
    AllBurstsDone(u, true, start, n, false, whole, link.faults);
    return Ok, k;
  }

  /** Read the bytes from `lo` to `hi` of a range, in one burst request. */
  method ReadBurstPart(link: HostMod, data: array<byte>, off: nat, start: nat, lo: nat, hi: nat,
                       ghost buffer: seq<byte>)
    returns (st: Status, ghost k: nat)
    requires link.Idle() && lo < hi && hi - lo <= MAX_BURST_WORDS * link.c.dw
    requires (hi - lo) % link.c.dw == 0 && off + hi <= data.Length && start + hi <= |link.dev.mem|
    requires Filled(buffer, data[..], off, link.dev.mem, start, lo)
    modifies link, data
    ensures link.Valid() && link.dev.mem == old(link.dev.mem) && lo <= k <= hi
    ensures Filled(buffer, data[..], off, link.dev.mem, start, k)
    ensures st == Aborted <==> (start + lo) % link.c.aw != 0
    ensures st == Aborted ==> k == lo
    ensures st == Ok ==> k == hi && link.Idle()
    ensures (st, link.faults)
         == Fate([Piece((start + lo) % link.c.aw == 0, SetupOf(link).Cost(true, hi - lo, false))],
                 old(link.faults))
  {
    hide Filled, Fate, Setup.Cost;
    var words := (hi - lo) / link.c.dw;
    assert hi - lo == words * link.c.dw;
    BurstFits(words, link.c.dw);
    ghost var before, kk: nat := data[..], 0;
    st, kk := MamRead(link, data, off + lo, hi - lo, start + lo, true, words);
    FilledFurther(buffer, before, data[..], off, link.dev.mem, start, lo, kk);
    k := lo + kk;
  }

  /** A completed read has put exactly the addressed bytes into the buffer; a read that fails, a
      prefix of them. The memory stays as it is. */
  method OsdClMamRead(link: HostMod, data: array<byte>, n: nat, start: nat)
    returns (st: Status, ghost k: nat)
    requires link.Idle() && n < 0x1_0000_0000 && n <= data.Length && start + n <= |link.dev.mem|
    modifies link, data
    ensures link.Valid() && link.dev.mem == old(link.dev.mem)
    ensures k <= n
    ensures data[..] == old(link.dev.mem)[start..start + k] + old(data[k..])
    ensures st == Ok ==> k == n && link.Idle()
    ensures st == Ok ==> Accepts(start, n, link.c)
    ensures st == Aborted ==> !Accepts(start, n, link.c)
    ensures (st, link.faults) == Fate(Plan(SetupOf(link), true, start, n), old(link.faults))
    ensures true !in old(link.faults) ==> st == if Accepts(start, n, link.c) then Ok else Aborted
  {
    hide Filled, CalculateParts, AcceptsBurst, SingleFits, Accepts, Fate, Plan, BurstPlan, SinglePiece;
    ghost var mem, buffer, u := link.dev.mem, data[..], SetupOf(link);
    FateWithoutFaults(Plan(u, true, start, n), link.faults);
    AddressesFit(|mem|, link.c);
    PlanFits(u, true, start, n);
    PlanFate(u, true, start, n, link.faults);
    AddressesFit(|mem|, link.c);
    PartsCoverRange(start, n, link.c.dw);
    AcceptsParts(start, n, link.c);
    var p := CalculateParts(start, n, link.c.dw);
    NothingFilled(buffer, 0, mem, start);
    k := 0;
    st := Ok;
    if p.prolog > 0 {
      st, k := ReadSingle(link, data, 0, p.prolog, start);
    }
    if st == Ok && p.bulk > 0 {
      ghost var before, kk: nat := data[..], 0;
      st, kk := ReadBurst(link, data, p.prolog, p.bulk, start + p.prolog);
      FilledFurther(buffer, before, data[..], 0, mem, start, p.prolog, kk);
      k := p.prolog + kk;
    }
    if st == Ok && p.epilog > 0 {
      ghost var before, kk: nat := data[..], 0;
      st, kk := ReadSingle(link, data, p.prolog + p.bulk, p.epilog, start + p.prolog + p.bulk);
      FilledFurther(buffer, before, data[..], 0, mem, start, p.prolog + p.bulk, kk);
      k := p.prolog + p.bulk + kk;
    }
    FilledFront(buffer, data[..], mem, start, k);
  }

  lemma FilledFront(was: seq<byte>, now: seq<byte>, mem: seq<byte>, start: nat, k: nat)
    requires Filled(was, now, 0, mem, start, k)
    ensures now == mem[start..start + k] + was[k..]
  {
  }

  /** What was written is read back, whatever the alignment: if both calls succeed, the buffer holds
      the data, and the memory differs from what it was in the range written only. */
  method WriteThenRead(link: HostMod, data: seq<byte>, start: nat, buffer: array<byte>)
    returns (written: Status, read: Status)
    requires link.Idle() && |data| < 0x1_0000_0000 && start + |data| <= |link.dev.mem|
    requires |data| <= buffer.Length
    modifies link, buffer
    ensures link.Valid()
    ensures written == Ok ==> link.dev.mem == Splice(old(link.dev.mem), start, data)
    ensures written == read == Ok ==> buffer[..] == data + old(buffer[|data|..])
    ensures written == Ok ==> read != Aborted
    ensures true !in old(link.faults) && Accepts(start, |data|, link.c) ==> written == read == Ok
  {
    hide Accepts, Fate, Plan, CalculateParts;
    ghost var mem, k := link.dev.mem, 0;
    FateWithoutFaults(Plan(SetupOf(link), false, start, |data|), link.faults);
    read := Ok;
    written, k := OsdClMamWrite(link, data, start);
    if written == Ok {
      SpliceReadsBack(mem, start, data);
      read, k := OsdClMamRead(link, buffer, |data|, start);
    }
  }
}
