/** Word counts in the head and the tail of a JTAG transfer, and the size of transfers. */
module JtagWords {
  import opened Bits

  const BUFFER_SIZE: nat := 65536
  const MAX_PAYLOAD_WORDS: nat := 15000

  /** Values of 32 bits, least significant byte first, as the host keeps them. */
  function LittleEndian(v: nat, n: nat): (bs: seq<byte>)
    ensures |bs| == n
  {
    if n == 0 then [] else [v % 256] + LittleEndian(v / 256, n - 1)
  }

  function FromLittleEndian(bs: seq<byte>): nat {
    if bs == [] then 0 else bs[0] + 256 * FromLittleEndian(bs[1..])
  }

  lemma {:induction false} LittleEndianKeeps(v: nat, n: nat)
    ensures FromLittleEndian(LittleEndian(v, n)) == v % Pow256(n)
  {
    if n > 0 {
      LittleEndianKeeps(v / 256, n - 1);
      SplitLowByte(v, Pow256(n - 1));
    }
  }

  lemma SplitLowByte(v: nat, p: nat)
    requires 0 < p
    ensures v % (256 * p) == v % 256 + 256 * (v / 256 % p)
  {
    var q, r := v / 256 / p, v / 256 % p;
    assert v == 256 * (q * p + r) + v % 256;
    assert v == q * (256 * p) + (256 * r + v % 256);
    ModUnique(v, 256 * p, q, 256 * r + v % 256);
  }

  function Zeros(n: nat): seq<byte> { seq(n, _ => 0) }

  /** A word of `w` bytes: all bytes of the value if they fit, a single byte in wide words. */
  function CopyToWord(v: nat, w: nat): (bs: seq<byte>)
    requires 0 < w
    ensures |bs| == w
  {
    if w <= 4 then LittleEndian(v, w) else Zeros(w - 4) + [v % 256] + Zeros(3)
  }

  lemma {:induction false} LittleEndianByte(v: nat, n: nat, i: nat)
    requires i < n
    ensures LittleEndian(v, n)[i] == (v / Pow256(i)) % 256
  {
    if i > 0 {
      LittleEndianByte(v / 256, n - 1, i - 1);
      DivTwice(v, Pow256(i - 1));
    }
  }

  lemma DivTwice(v: nat, p: nat)
    requires 0 < p
    ensures v / 256 / p == v / (256 * p)
  {
    var q, r := v / 256 / p, v / 256 % p;
    assert v == (q * p + r) * 256 + v % 256;
    assert v == q * (256 * p) + (r * 256 + v % 256);
    ModUnique(v, 256 * p, q, r * 256 + v % 256);
  }

  /** Where the bytes of a count are: least significant first in words of up to four bytes, and the
      lowest byte alone, four bytes before the end, in wider ones. */
  lemma CountBytes(v: nat, w: nat, i: nat)
    requires i < w
    ensures CopyToWord(v, w)[i] == if w <= 4 then (v / Pow256(i)) % 256
                                   else if i == w - 4 then v % 256 else 0
  {
    if w <= 4 {
      LittleEndianByte(v, w, i);
    }
  }

  function CopyFromWord(bs: seq<byte>, w: nat): nat
    requires 0 < w == |bs|
  {
    FromLittleEndian(bs[w - Min(w, 4)..])
  }

  /** The first value that does not fit a word. */
  function Limit(w: nat): nat {
    if w <= 4 then Pow256(w) else 256
  }

  /** A count survives being written to and read from a word if and only if it is small enough;
      words of more than four bytes carry no more than words of one byte. */
  lemma WordRoundTripIff(v: nat, w: nat)
    requires 0 < w
    ensures CopyFromWord(CopyToWord(v, w), w) == v <==> v < Limit(w)
  {
    var bs := CopyToWord(v, w);
    if w <= 4 {
      assert bs[w - w..] == bs;
      LittleEndianKeeps(v, w);
    } else {
      assert bs[w - 4..] == [v % 256] + [0, 0, 0];
      assert FromLittleEndian([0, 0, 0]) == 0 by {
        assert [0, 0, 0][1..] == [0, 0] && [0, 0][1..] == [0] && [0][1..] == [];
        assert FromLittleEndian([0]) == 0;
        assert FromLittleEndian([0, 0]) == 0;
      }
      assert (([v % 256] + [0, 0, 0])[1..]) == [0, 0, 0];
    }
    ModBelow(v, Limit(w));
  }

  lemma ModBelow(v: nat, m: nat)
    requires 0 < m
    ensures v % m == v <==> v < m
  {
    if v < m {
      ModUnique(v, m, 0, v);
    }
  }

  /** The head of a request, as the device reads it: how many words to take and to give. */
  function Head(req: seq<byte>, w: nat): (nat, nat)
    requires 0 < w && 2 * w <= |req|
  {
    (CopyFromWord(req[..w], w), CopyFromWord(req[w..2 * w], w))
  }

  // Growing the transfer buffers.

  function GrowBuf(currentSize: nat): (size: nat)
    ensures currentSize <= size && (0 < currentSize ==> currentSize < size)
    ensures size <= currentSize + 32 * 1024
  {
    if currentSize < 32 * 1024 then currentSize * 2 else currentSize + 32 * 1024
  }

  // The number of words asked for.

  /** The adjustment after a transfer. `bound` is `(1 << (8 * w)) - 2`, which is not defined for
      words of four bytes and more. */
  function Adjust(wanted: nat, minWanted: nat, bound: int, acked: nat, wr: nat, read: nat, rd: nat): nat
  {
    var x := if 10 * acked > 9 * wr || 10 * read >= 9 * rd then wanted * 3 / 2
             else if 2 * acked <= wr && 2 * read <= rd then wanted * 3 / 10
             else wanted;
    Min(Max(minWanted, Min(x, bound)), MAX_PAYLOAD_WORDS)
  }

  /** A well used transfer makes the next one half as large again, a badly used one makes it three
      tenths as large, as far as the bounds allow; otherwise nothing changes. */
  lemma AdjustMeans(wanted: nat, minWanted: nat, bound: int, acked: nat, wr: nat, read: nat, rd: nat)
    requires minWanted <= bound <= MAX_PAYLOAD_WORDS && minWanted <= wanted <= bound
    ensures var a := Adjust(wanted, minWanted, bound, acked, wr, read, rd);
            if 10 * acked > 9 * wr || 10 * read >= 9 * rd then
              a == bound < (3 * wanted) / 2 || 2 * a <= 3 * wanted < 2 * a + 2
            else if 2 * acked <= wr && 2 * read <= rd then
              a == minWanted > (3 * wanted) / 10 || 10 * a <= 3 * wanted < 10 * a + 10
            else a == wanted
  {
  }

  lemma AdjustStaysBetween(wanted: nat, minWanted: nat, bound: int, acked: nat, wr: nat, read: nat,
                           rd: nat)
    ensures var a := Adjust(wanted, minWanted, bound, acked, wr, read, rd);
            Min(minWanted, MAX_PAYLOAD_WORDS) <= a <= Min(Max(minWanted, bound), MAX_PAYLOAD_WORDS)
  {
  }

  /** With buffers of 64 KiB, the counts always fit into words of two, three and four bytes. */
  lemma CountsFit(w: nat, words: nat)
    requires w in {2, 3, 4} && words * w <= BUFFER_SIZE
    ensures words < Limit(w)
  {
    assert w == 2 || w == 3 || w == 4;
    assert Pow256(2) == 65536;
    assert Pow256(3) == 256 * Pow256(2);
    assert Pow256(4) == 256 * Pow256(3);
  }

  predicate FitsByte(minWanted: nat, wanted: nat, acked: nat, wr: nat, read: nat, rd: nat) {
    Adjust(wanted, minWanted, 256 - 2, acked, wr, read, rd) < Limit(1)
  }

  /** For words of one byte, the adjustment keeps the counts in range, whatever happened, if and
      only if the buffer of the target has less than 256 words. */
  lemma AdjustFitsByteIff(minWanted: nat)
    ensures (forall wanted: nat, acked: nat, wr: nat, read: nat, rd: nat ::
               FitsByte(minWanted, wanted, acked, wr, read, rd))
       <==> minWanted < 256
  {
    assert Pow256(1) == 256 * Pow256(0);
    if minWanted >= 256 {
      assert !FitsByte(minWanted, 0, 0, 0, 0, 0);
    }
  }
}
