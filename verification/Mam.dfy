/** The host side of memory access: a byte range is cut into a partial first word, bursts of at
    most 255 words, and a partial last word; every piece becomes one request. */
module Mam {
  import opened Bits
  import opened MamTransfer

  const MAX_BURST_WORDS: nat := 255

  /** `Aborted` stands for a failed assertion, `LinkError` for an error of the host module. */
  datatype Status = Ok | LinkError | Aborted

  /** Some calls of the host module one after the other, until one fails: do all succeed, and which of
      the faults to come are left? A call fails exactly if the next entry says so. */
  function Calls(faults: seq<bool>, n: nat): (bool, seq<bool>)
    decreases n
  {
    if n == 0 then (true, faults)
    else if faults == [] then (true, [])
    else if faults[0] then (false, faults[1..])
    else Calls(faults[1..], n - 1)
  }

  lemma {:induction false} CallsFurther(faults: seq<bool>, n: nat, m: nat)
    ensures Calls(faults, n + m) == if Calls(faults, n).0 then Calls(Calls(faults, n).1, m) else Calls(faults, n)
    decreases n
  {
    if n > 0 && faults != [] && !faults[0] {
      CallsFurther(faults[1..], n - 1, m);
    } else if n > 0 && faults == [] {
      NoFaults(m);
    }
  }

  lemma NoFaults(n: nat)
    ensures Calls([], n) == (true, [])
  {
  }

  /** Calls fail exactly if one of them does. */
  lemma {:induction false} CallsMean(faults: seq<bool>, n: nat)
    ensures Calls(faults, n).0 <==> forall i :: 0 <= i < n && i < |faults| ==> !faults[i]
    ensures forall fault :: fault in Calls(faults, n).1 ==> fault in faults
    decreases n
  {
    if n > 0 && faults != [] && !faults[0] {
      var rest := faults[1..];
      CallsMean(rest, n - 1);
      assert forall i :: 0 < i < |faults| ==> faults[i] == rest[i - 1];
    }
  }

  /** The host module with the memory access module behind it: packets it could not send or
      receive, and how answers are cut into packets, are scripts. */
  class HostMod {
    const c: Widths
    const maxEventWords: nat
    const cuts: seq<nat>
    var dev: Device
    var rx: seq<Payload>
    var faults: seq<bool>

    ghost predicate Valid()
      reads this
    {
      Supported(c) && 0 < maxEventWords
      && |dev.mem| <= Pow256(c.aw) && |dev.mem| % c.dw == 0
    }

    /** No request is under way and no packet is waiting. */
    ghost predicate Idle()
      reads this
    {
      Valid() && dev.ok && dev.buf == [] && rx == []
    }

    method NextFault() returns (fault: bool)
      modifies this`faults
      ensures (!fault, faults) == Calls(old(faults), 1)
    {
      fault := faults != [] && faults[0];
      faults := if faults == [] then [] else faults[1..];
    }

    method EventSend(p: Payload) returns (ok: bool)
      requires Valid()
      modifies this
      ensures |dev.mem| == |old(dev.mem)| && (ok, faults) == Calls(old(faults), 1)
      ensures !ok ==> dev == old(dev) && rx == old(rx)
      ensures ok ==> dev == Receive(old(dev), p, c).0
      ensures ok ==> var reply := Receive(old(dev), p, c).1;
                     && (reply == None ==> rx == old(rx))
                     && (reply == Ack ==> rx == old(rx) + [[]])
                     && (reply.Contents? && |reply.bytes| % 2 == 0 && old(rx) == [] ==>
                           && Flat(rx) == reply.bytes && [] !in rx
                           && |rx| == Pieces(|reply.bytes| / 2, cuts))
    {
      var fault := NextFault();
      if fault {
        return false;
      }
      var (d, reply) := Receive(dev, p, c);
      dev := d;
      match reply {
        case None =>
        case Ack => rx := rx + [[]];
        case Contents(bytes) =>
          var pieces := Cut(ToWords(bytes), cuts);
          CutIsComplete(ToWords(bytes), cuts);
          PiecesAreCounted(ToWords(bytes), cuts);
          WordsRoundTrip(bytes);
          assert bytes[..|bytes|] == bytes && [] + pieces == pieces;
          rx := rx + pieces;
      }
      return true;
    }

    /** Cut an answer into packets with at least one word each. */
    static function Cut(ws: seq<word16>, cuts: seq<nat>): (ps: seq<Payload>)
      ensures [] !in ps
      decreases |ws|
    {
      if ws == [] then []
      else if cuts == [] || 1 + cuts[0] >= |ws| then [ws]
      else [ws[..1 + cuts[0]]] + Cut(ws[1 + cuts[0]..], cuts[1..])
    }

    /** How many packets that makes. */
    static function Pieces(words: nat, cuts: seq<nat>): nat
      decreases words
    {
      if words == 0 then 0
      else if cuts == [] || 1 + cuts[0] >= words then 1
      else 1 + Pieces(words - (1 + cuts[0]), cuts[1..])
    }

    static lemma {:induction false} PiecesAreCounted(ws: seq<word16>, cuts: seq<nat>)
      ensures |Cut(ws, cuts)| == Pieces(|ws|, cuts)
      decreases |ws|
    {
      if ws != [] && cuts != [] && 1 + cuts[0] < |ws| {
        PiecesAreCounted(ws[1 + cuts[0]..], cuts[1..]);
      }
    }

    static lemma {:induction false} CutIsComplete(ws: seq<word16>, cuts: seq<nat>)
      ensures Flat(Cut(ws, cuts)) == FromWords(ws)
      decreases |ws|
    {
      if ws == [] {
      } else if cuts == [] || 1 + cuts[0] >= |ws| {
        assert Flat([ws]) == FromWords(ws) + Flat([]);
      } else {
        var n := 1 + cuts[0];
        CutIsComplete(ws[n..], cuts[1..]);
        FromWordsAppend(ws[..n], ws[n..]);
        assert ws[..n] + ws[n..] == ws;
        assert ([ws[..n]] + Cut(ws[n..], cuts[1..]))[1..] == Cut(ws[n..], cuts[1..]);
      }
    }

    method EventReceive() returns (ok: bool, p: Payload)
      modifies this`rx, this`faults
      ensures ok ==> old(rx) == [p] + rx
      ensures !ok ==> rx == old(rx)
      ensures faults == Calls(old(faults), 1).1 && (ok <==> Calls(old(faults), 1).0 && old(rx) != [])
    {
      var fault := NextFault();
      if fault || rx == [] {
        return false, [];
      }
      p, rx := rx[0], rx[1..];
      return true, p;
    }
  }

  // Cutting the range.

  datatype Parts = Parts(prolog: nat, bulk: int, epilog: nat)

  /** `a - b` in unsigned 64-bit arithmetic. */
  function Sub64(a: nat, b: nat): nat {
    (a - b) % 0x1_0000_0000_0000_0000
  }

  function CalculateParts(start: nat, n: nat, dw: nat): Parts
    requires 0 < dw
  {
    if n < dw then Parts(n, 0, 0)
    else
      var prolog, epilog := Sub64(dw, start) % dw, (start + n) % dw;
      Parts(prolog, n - prolog - epilog, epilog)
  }

  /** The parts make up the range, the middle one consists of whole aligned words, and the others
      stay within one word, unless a range shorter than a word crosses into the next one. */
  lemma PartsCoverRange(start: nat, n: nat, dw: nat)
    requires dw in {2, 4, 8} && start + n <= 0x1_0000_0000_0000_0000
    ensures var p := CalculateParts(start, n, dw);
            && 0 <= p.bulk && p.prolog + p.bulk + p.epilog == n
            && p.bulk % dw == 0 && p.epilog < dw
            && (p.bulk > 0 || p.epilog > 0 ==> (start + p.prolog) % dw == 0)
            && (p.epilog > 0 ==> (start + p.prolog + p.bulk) % dw == 0)
            && (n >= dw ==> start % dw + p.prolog <= dw && p.prolog < dw)
            && (n > 0 ==> p.prolog > 0 || p.bulk > 0 || p.epilog > 0)
  {
    hide Sub64;
    if n >= dw {
      PrologReachesBoundary(start, dw);
      WholeWordsBetween(start, n, dw, Sub64(dw, start) % dw);
    }
  }

  /** Between the first word boundary and the last one are whole words. */
  lemma WholeWordsBetween(start: nat, n: nat, dw: nat, prolog: nat)
    requires 0 < dw <= n && prolog < dw && (start + prolog) % dw == 0
    ensures var epilog := (start + n) % dw;
            && epilog < dw && 0 <= n - prolog - epilog && (n - prolog - epilog) % dw == 0
            && (start + n - epilog) % dw == 0
  {
    var q1, q2, epilog := (start + prolog) / dw, (start + n) / dw, (start + n) % dw;
    MultipleBetween(q1, q2, dw, n - prolog - epilog);
    ModUnique(start + n - epilog, dw, q2, 0);
  }

  lemma MultipleBetween(q1: int, q2: int, dw: nat, bulk: int)
    requires 0 < dw && q1 * dw + bulk == q2 * dw && 0 < bulk + dw
    ensures 0 <= bulk && bulk % dw == 0
  {
    assert bulk == (q2 - q1) * dw;
    SignOfMultiple(q2 - q1, dw);
    ModUnique(bulk, dw, q2 - q1, 0);
  }

  /** The prolog ends at the next word boundary, although its size is computed modulo 2^64. */
  lemma PrologReachesBoundary(start: nat, dw: nat)
    requires dw in {2, 4, 8}
    ensures var prolog := Sub64(dw, start) % dw;
            && prolog == (if start % dw == 0 then 0 else dw - start % dw)
            && (start + prolog) % dw == 0
  {
    assert dw == 2 || dw == 4 || dw == 8;
    var c := 0x1_0000_0000_0000_0000 / dw;
    assert c * dw == 0x1_0000_0000_0000_0000;
    ModOfMod(dw - start, dw, c);
    var q, r := start / dw, start % dw;
    assert start == q * dw + r;
    if r == 0 {
      assert dw - start == (1 - q) * dw + 0;
      ModUnique(dw - start, dw, 1 - q, 0);
    } else {
      assert dw - start == (-q) * dw + (dw - r);
      ModUnique(dw - start, dw, -q, dw - r);
      assert start + (dw - r) == (q + 1) * dw + 0;
      ModUnique(start + (dw - r), dw, q + 1, 0);
    }
  }

  /** Does a range shorter than a word reach into the next word? */
  predicate Crosses(start: nat, n: nat, dw: nat)
    requires 0 < dw
  {
    n < dw && start % dw + n > dw
  }

  /** The checks of the source on word boundaries and request addresses, for the whole range. */
  predicate Accepts(start: nat, n: nat, c: Widths)
    requires Supported(c)
  {
    var p := CalculateParts(start, n, c.dw);
    && !Crosses(start, n, c.dw)
    && (p.prolog > 0 ==> (start - start % c.dw) % c.aw == 0)
    && (p.bulk > 0 ==> AcceptsBurst(start + p.prolog, p.bulk, c))
    && (p.epilog > 0 ==> (start + p.prolog + p.bulk) % c.aw == 0)
  }

  predicate AcceptsBurst(start: nat, n: int, c: Widths)
    requires Supported(c)
  {
    start % c.aw == 0 && (n <= MAX_BURST_WORDS * c.dw || (MAX_BURST_WORDS * c.dw) % c.aw == 0)
  }

  /** When addresses are no wider than data words, the only range refused is one shorter than a
      word that crosses a word boundary. */
  lemma AcceptsAllButCrossing(start: nat, n: nat, c: Widths)
    requires Supported(c) && c.aw <= c.dw && start + n <= 0x1_0000_0000_0000_0000
    ensures Accepts(start, n, c) <==> !Crosses(start, n, c.dw)
  {
    hide CalculateParts;
    PartsCoverRange(start, n, c.dw);
    var p := CalculateParts(start, n, c.dw);
    WordStart(start, c.dw);
    WordsAreAligned(start - start % c.dw, c);
    if p.bulk > 0 {
      WordsAreAligned(start + p.prolog, c);
      BurstsAreAligned(c);
    }
    if p.epilog > 0 {
      WordsAreAligned(start + p.prolog + p.bulk, c);
    }
  }

  lemma WordStart(start: nat, dw: nat)
    requires 0 < dw
    ensures (start - start % dw) % dw == 0
  {
    var q := start / dw;
    assert start - start % dw == q * dw + 0;
    ModUnique(start - start % dw, dw, q, 0);
  }

  lemma BurstsAreAligned(c: Widths)
    requires Supported(c) && c.aw <= c.dw
    ensures (MAX_BURST_WORDS * c.dw) % c.aw == 0
  {
    ModUnique(MAX_BURST_WORDS * c.dw, c.dw, MAX_BURST_WORDS, 0);
    WordsAreAligned(MAX_BURST_WORDS * c.dw, c);
  }

  lemma WordsAreAligned(addr: nat, c: Widths)
    requires Supported(c) && c.aw <= c.dw && addr % c.dw == 0
    ensures addr % c.aw == 0
  {
    var k := c.dw / c.aw;
    assert k * c.aw == c.dw;
    ModOfMod(addr, c.aw, k);
    ModUnique(0, c.aw, 0, 0);
  }
}
