/** The converter from binary images to VMEM text, with its running counters. */
module Bin2Vmem {
  import opened Bits
  import opened Vmem

  const PAD_FILL: byte := 0

  /** Up to a number of rows, up to (not including) a byte address, or not at all. */
  datatype Padding = NoPadding | ToRow(rows: int) | ToAddr(end: int)

  function WordEnd(n: nat, bpw: nat): nat
    requires 0 < bpw
  {
    if n % bpw == 0 then n else n - n % bpw + bpw
  }

  /** How many bytes the output stands for. Padding to rows also completes the last word. */
  function Target(f: Format, n: nat, pad: Padding): (t: nat)
    requires Proper(f)
    ensures n <= t
  {
    match pad
    case NoPadding => n
    case ToRow(rows) => Max(WordEnd(n, f.bpw), rows * LineBytes(f))
    case ToAddr(end) => Max(n, end)
  }

  function Fill(k: nat): seq<byte> { seq(k, _ => PAD_FILL) }

  /** What the output stands for: the image, and zeros. Nothing is padded; or the words are completed
      and there are the rows asked for, with as few words as possible; or the bytes before an address
      are there. Padding never cuts the image. */
  lemma ImageIsPadded(f: Format, image: seq<byte>, pad: Padding)
    requires Proper(f)
    ensures var all := image + Fill(Target(f, |image|, pad) - |image|);
            && all[..|image|] == image && (forall i :: |image| <= i < |all| ==> all[i] == 0)
            && (pad.NoPadding? ==> all == image)
            && (pad.ToRow? ==>
                  && Enough(f, |image|, pad.rows, |all|)
                  && forall k: nat :: Enough(f, |image|, pad.rows, k) ==> |all| <= k)
            && (pad.ToAddr? ==> |all| == if |image| <= pad.end then pad.end else |image|)
  {
    hide LineBytes;
    var n, t := |image|, Target(f, |image|, pad);
    if pad.ToRow? {
      WordEndIsNext(f, n);
      WholeWords(f, pad.rows);
      forall k: nat | Enough(f, n, pad.rows, k)
        ensures t <= k
      {
        WordEndIsLeast(f, n, k);
      }
    }
  }

  /** Only whole words, not less than the image, and the rows asked for. */
  predicate Enough(f: Format, n: nat, rows: int, k: nat)
    requires Proper(f)
  {
    k % f.bpw == 0 && n <= k && rows * (f.bpw * f.wpl) <= k
  }

  lemma WordEndIsNext(f: Format, n: nat)
    requires Proper(f)
    ensures n <= WordEnd(n, f.bpw) < n + f.bpw && WordEnd(n, f.bpw) % f.bpw == 0
  {
    var q := n / f.bpw;
    assert n == q * f.bpw + n % f.bpw;
    NextMultiple(q, f.bpw);
    ModUnique((q + 1) * f.bpw, f.bpw, q + 1, 0);
  }

  lemma WordEndIsLeast(f: Format, n: nat, k: nat)
    requires Proper(f) && n <= k && k % f.bpw == 0
    ensures WordEnd(n, f.bpw) <= k
  {
    WordEndIsNext(f, n);
    var a, b := WordEnd(n, f.bpw) / f.bpw, k / f.bpw;
    assert a * f.bpw == WordEnd(n, f.bpw) && b * f.bpw == k;
    if b < a {
      MultiplesGrow(b + 1, a, f.bpw);
      NextMultiple(b, f.bpw);
    }
  }

  lemma WholeWords(f: Format, rows: int)
    requires Proper(f)
    ensures rows * LineBytes(f) == rows * (f.bpw * f.wpl)
    ensures (rows * LineBytes(f)) % f.bpw == 0
  {
    assert rows * (f.bpw * f.wpl) == (rows * f.wpl) * f.bpw;
    ModUnique(rows * LineBytes(f), f.bpw, rows * f.wpl, 0);
  }

  /** Byte number `n` is byte `byte` of word `word` of line `line`. */
  predicate At(f: Format, n: nat, line: nat, word: nat, byt: nat) {
    && Proper(f) && byt < f.bpw && word < f.wpl
    && n == line * LineBytes(f) + word * f.bpw + byt
  }

  /** What the counters say about a position is what the renderer asks about it. */
  lemma PositionIsCounted(f: Format, n: nat, line: nat, word: nat, byt: nat)
    requires At(f, n, line, word, byt)
    ensures n / LineBytes(f) == line && (n % LineBytes(f) == 0 <==> word == 0 && byt == 0)
    ensures n % f.bpw == byt
    ensures (n + 1) % LineBytes(f) == 0 <==> word == f.wpl - 1 && byt == f.bpw - 1
  {
    var size, inLine := LineBytes(f), word * f.bpw + byt;
    PlaceInLine(f, word, byt);
    ModUnique(n, size, line, inLine);
    if inLine + 1 < size {
      ModUnique(n + 1, size, line, inLine + 1);
    } else {
      NextMultiple(line, size);
      ModUnique(n + 1, size, line + 1, 0);
    }
    assert line * (f.bpw * f.wpl) == (line * f.wpl) * f.bpw;
    assert n == (line * f.wpl + word) * f.bpw + byt;
    ModUnique(n, f.bpw, line * f.wpl + word, byt);
  }

  lemma PlaceInLine(f: Format, word: nat, byt: nat)
    requires Proper(f) && byt < f.bpw && word < f.wpl
    ensures 0 <= word * f.bpw + byt < LineBytes(f)
    ensures word * f.bpw + byt == 0 <==> word == 0 && byt == 0
    ensures word * f.bpw + byt + 1 == LineBytes(f) <==> word == f.wpl - 1 && byt == f.bpw - 1
  {
    assert f.bpw * f.wpl == word * f.bpw + (f.wpl - word) * f.bpw;
    assert (f.wpl - word) * f.bpw == (f.wpl - 1 - word) * f.bpw + f.bpw;
    assert word > 0 ==> word * f.bpw == (word - 1) * f.bpw + f.bpw;
    if word < f.wpl - 1 {
      PositiveProduct(f.wpl - 1 - word, f.bpw);
    }
  }

  class Printer {
    const f: Format
    var currentWordAddr: nat
    var wordCounter: nat
    var byteCounter: nat
    var rowCounter: nat
    var startingNewLine: bool
    var out: string
    /** The bytes printed so far. */
    ghost var printed: seq<byte>

    ghost predicate Valid()
      reads this
    {
      && 1 <= rowCounter && At(f, |printed|, rowCounter - 1, wordCounter, byteCounter)
      && currentWordAddr == (rowCounter - 1) * f.wpl
      && (startingNewLine <==> wordCounter == 0 && byteCounter == 0)
      && out == Render(f, printed)
    }

    constructor (f: Format)
      requires Proper(f)
      ensures Valid() && printed == [] && out == "" && this.f == f
    {
      this.f := f;
      currentWordAddr, wordCounter, byteCounter, rowCounter := 0, 0, 0, 1;
      startingNewLine := true;
      out := "";
      printed := [];
    }

    /** One round of a loop: print a byte, with what belongs before and behind it. */
    method Emit(b: byte)
      requires Valid()
      modifies this
      ensures Valid() && printed == old(printed) + [b]
    {
      hide LineBytes, HexByte, Lead, Trail;
      ghost var n := |printed|;
      RenderAppend(f, 0, printed, b);
      ghost var before := out;
      PrintLead();
      out := out + HexByte(b);
      AdvanceCounters();
      printed := printed + [b];
      Associative(before, Lead(f, n), HexByte(b));
      Associative(before, Lead(f, n) + HexByte(b), Trail(f, n));
    }

    method PrintLead()
      requires Valid()
      modifies this`startingNewLine, this`out
      ensures !startingNewLine && out == old(out) + Lead(f, |printed|)
    {
      hide LineBytes, HexNumber;
      PositionIsCounted(f, |printed|, rowCounter - 1, wordCounter, byteCounter);
      ghost var before := out;
      if startingNewLine {
        if f.addr {
          out := out + ("@" + HexNumber(currentWordAddr, 8));
        }
        startingNewLine := false;
      }
      ghost var middle := out;
      if byteCounter == 0 && (f.wpl > 1 || f.addr) {
        out := out + " ";
      }
    }

    /** Count a byte; print a line break behind the last one of a line. */
    method AdvanceCounters()
      requires 1 <= rowCounter && At(f, |printed|, rowCounter - 1, wordCounter, byteCounter)
      requires currentWordAddr == (rowCounter - 1) * f.wpl && !startingNewLine
      modifies this`byteCounter, this`wordCounter, this`currentWordAddr, this`startingNewLine
      modifies this`rowCounter, this`out
      ensures 1 <= rowCounter && At(f, |printed| + 1, rowCounter - 1, wordCounter, byteCounter)
      ensures currentWordAddr == (rowCounter - 1) * f.wpl
      ensures startingNewLine <==> wordCounter == 0 && byteCounter == 0
      ensures out == old(out) + Trail(f, |printed|)
    {
      PositionIsCounted(f, |printed|, rowCounter - 1, wordCounter, byteCounter);
      ghost var line, word, n := rowCounter - 1, wordCounter, |printed|;
      NextWord(f, n, line, word, byteCounter);
      byteCounter := byteCounter + 1;
      if byteCounter == f.bpw {
        wordCounter := wordCounter + 1;
        byteCounter := 0;
      }
      if wordCounter == f.wpl {
        out := out + "\n";
        wordCounter := 0;
        currentWordAddr := currentWordAddr + f.wpl;
        startingNewLine := true;
        rowCounter := rowCounter + 1;
      }
    }

    /** Fill up a word that has been started, without counting the bytes one by one. */
    method CompleteWord()
      requires Valid()
      modifies this
      ensures Valid() && byteCounter == 0
      ensures printed == old(printed) + Fill(WordEnd(|old(printed)|, f.bpw) - |old(printed)|)
    {
      hide LineBytes, Render, Trail;
      ghost var n, k := |printed|, f.bpw - byteCounter;
      PositionIsCounted(f, n, rowCounter - 1, wordCounter, byteCounter);
      if byteCounter == 0 {
        assert printed + Fill(0) == printed;
        return;
      }
      FillWord();
      LastOfWord(f, n, rowCounter - 1, wordCounter, byteCounter);
      byteCounter := 0;
      wordCounter := wordCounter + 1;
      if wordCounter == f.wpl {
        out := out + "\n";
        wordCounter := 0;
        currentWordAddr := currentWordAddr + f.wpl;
        startingNewLine := true;
        rowCounter := rowCounter + 1;
      }
      printed := printed + Fill(k);
    }

    /** Print the missing bytes of a word, but no line break behind them. */
    method FillWord()
      requires Valid() && 0 < byteCounter
      modifies this`out
      ensures var k := f.bpw - byteCounter;
              out + Trail(f, |printed| + k - 1) == Render(f, printed + Fill(k))
    {
      hide LineBytes, Render, Trail;
      ghost var n, k := |printed|, f.bpw - byteCounter;
      assert printed + Fill(0) == printed;
      for i := 0 to f.bpw - byteCounter
        invariant i < k ==> out == Render(f, printed + Fill(i))
        invariant i == k ==> out + Trail(f, n + k - 1) == Render(f, printed + Fill(k))
      {
        InsideWord(f, n, rowCounter - 1, wordCounter, byteCounter, i);
        FillOneMore(f, printed, i);
        assert out + HexByte(PAD_FILL) + "" == out + HexByte(PAD_FILL);
        out := out + HexByte(PAD_FILL);
      }
    }

    /** Pad until the next row to print is the one behind the last row asked for. */
    method PadRows(rows: int)
      requires Valid() && byteCounter == 0
      modifies this
      ensures Valid()
      ensures printed == old(printed) + Fill(Max(|old(printed)|, rows * LineBytes(f)) - |old(printed)|)
    {
      hide LineBytes, Printer.Valid;
      ghost var before, k, goal := printed, 0, rows * LineBytes(f);
      assert before + Fill(0) == before;
      RowsLeft(rows);
      while rowCounter < rows + 1
        invariant Valid() && printed == before + Fill(k)
        invariant rowCounter < rows + 1 <==> |printed| < goal
        invariant k > 0 ==> |printed| <= goal
        decreases goal - |printed|
      {
        Emit(PAD_FILL);
        assert before + Fill(k) + [PAD_FILL] == before + Fill(k + 1);
        k := k + 1;
        RowsLeft(rows);
      }
    }

    /** Comparing line numbers is comparing positions with the start of a line. */
    lemma RowsLeft(rows: int)
      requires Valid()
      ensures rowCounter < rows + 1 <==> |printed| < rows * LineBytes(f)
    {
      PlaceInLine(f, wordCounter, byteCounter);
      var line := rowCounter - 1;
      if line < rows {
        NextMultiple(line, LineBytes(f));
        MultiplesGrow(line + 1, rows, LineBytes(f));
      } else if line > rows {
        NextMultiple(rows, LineBytes(f));
        MultiplesGrow(rows + 1, line, LineBytes(f));
      }
    }

    /** Pad until a byte address. `total` is computed from the counters. */
    method PadToAddress(end: int)
      requires Valid()
      modifies this
      ensures Valid()
      ensures printed == old(printed) + Fill(Max(|old(printed)|, end) - |old(printed)|)
    {
      hide LineBytes, Render;
      TotalIsCounted(f, |printed|, rowCounter - 1, wordCounter, byteCounter);
      var total := currentWordAddr * f.bpw + wordCounter * f.bpw + byteCounter;
      ghost var before := printed;
      assert before + Fill(0) == before;
      while total < end
        invariant Valid() && |before| <= total == |printed| <= Max(|before|, end)
        invariant printed == before + Fill(total - |before|)
      {
        Emit(PAD_FILL);
        assert before + Fill(total - |before|) + [PAD_FILL] == before + Fill(total + 1 - |before|);
        total := total + 1;
      }
    }
  }

  lemma TotalIsCounted(f: Format, n: nat, line: nat, word: nat, byt: nat)
    requires At(f, n, line, word, byt)
    ensures line * f.wpl * f.bpw + word * f.bpw + byt == n
  {
    assert line * (f.bpw * f.wpl) == line * f.wpl * f.bpw;
  }

  /** The whole conversion: the output is the rendering of the image, followed by the padding, and
      loading it puts every byte at its address. */
  method Convert(image: seq<byte>, f: Format, pad: Padding) returns (out: string)
    requires Proper(f)
    ensures var all := image + Fill(Target(f, |image|, pad) - |image|);
            out == Render(f, all) && Load(out, f.bpw, 0) == Placed(0, all)
  {
    hide Render, LineBytes;
    var p := new Printer(f);
    for i := 0 to |image|
      invariant fresh(p) && p.Valid() && p.f == f && p.printed == image[..i]
    {
      p.Emit(image[i]);
    }
    assert image[..|image|] == image;
    match pad {
      case NoPadding =>
        assert image + Fill(0) == image;
      case ToRow(rows) =>
        p.CompleteWord();
        ghost var n := |p.printed|;
        p.PadRows(rows);
        FillTwice(image, n - |image|, Max(n, rows * LineBytes(f)) - n);
      case ToAddr(end) =>
        p.PadToAddress(end);
    }
    LoadRender(f, p.printed);
    return p.out;
  }

  lemma FillTwice(s: seq<byte>, j: nat, k: nat)
    ensures s + Fill(j) + Fill(k) == s + Fill(j + k)
  {
  }

  lemma FillOneMore(f: Format, bs: seq<byte>, i: nat)
    requires Proper(f) && Lead(f, |bs| + i) == ""
    ensures Render(f, bs + Fill(i + 1))
         == Render(f, bs + Fill(i)) + HexByte(PAD_FILL) + Trail(f, |bs| + i)
  {
    hide Trail, Lead, HexByte, RenderFrom;
    RenderAppend(f, 0, bs + Fill(i), PAD_FILL);
    assert bs + Fill(i) + [PAD_FILL] == bs + Fill(i + 1);
    Associative(Render(f, bs + Fill(i)), HexByte(PAD_FILL), Trail(f, |bs| + i));
    assert "" + HexByte(PAD_FILL) == HexByte(PAD_FILL);
  }

  /** Inside a word that has been started there is no address, no space and no line break. */
  lemma InsideWord(f: Format, n: nat, line: nat, word: nat, byt: nat, i: nat)
    requires At(f, n, line, word, byt) && 0 < byt && byt + i < f.bpw
    ensures Lead(f, n + i) == ""
    ensures byt + i < f.bpw - 1 ==> Trail(f, n + i) == ""
  {
    PositionIsCounted(f, n + i, line, word, byt + i);
  }

  lemma LastOfWord(f: Format, n: nat, line: nat, word: nat, byt: nat)
    requires At(f, n, line, word, byt) && 0 < byt
    ensures var last := n + f.bpw - byt - 1;
            && Trail(f, last) == (if word == f.wpl - 1 then "\n" else "")
            && (if word == f.wpl - 1 then At(f, last + 1, line + 1, 0, 0)
                else At(f, last + 1, line, word + 1, 0))
    ensures (line + 1) * f.wpl == line * f.wpl + f.wpl
  {
    var last := n + f.bpw - byt - 1;
    PositionIsCounted(f, last, line, word, f.bpw - 1);
    NextWord(f, last, line, word, f.bpw - 1);
  }

  lemma NextWord(f: Format, n: nat, line: nat, word: nat, byt: nat)
    requires At(f, n, line, word, byt)
    ensures byt + 1 < f.bpw ==> At(f, n + 1, line, word, byt + 1)
    ensures byt + 1 == f.bpw && word + 1 < f.wpl ==> At(f, n + 1, line, word + 1, 0)
    ensures byt + 1 == f.bpw && word + 1 == f.wpl ==> At(f, n + 1, line + 1, 0, 0)
    ensures (line + 1) * f.wpl == line * f.wpl + f.wpl
  {
    NextMultiple(line, LineBytes(f));
    NextMultiple(line, f.wpl);
    NextMultiple(word, f.bpw);
    PlaceInLine(f, word, byt);
  }
}