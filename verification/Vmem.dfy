/** The VMEM text format: what a rendering of bytes is, and how a memory is loaded from it. */
module Vmem {
  import opened Bits

  /** Bytes per word, words per line, and whether lines start with an address. */
  datatype Format = Format(bpw: nat, wpl: nat, addr: bool)

  predicate Proper(f: Format) { 0 < f.bpw && 0 < f.wpl }

  function LineBytes(f: Format): (n: nat)
    ensures Proper(f) ==> 0 < n
  {
    if Proper(f) then PositiveProduct(f.bpw, f.wpl); f.bpw * f.wpl else 0
  }

  lemma PositiveProduct(a: nat, b: nat)
    requires 0 < a && 0 < b
    ensures 0 < a * b
  {
    assert (a - 1) * b >= 0;
  }

  // Hexadecimal numbers.

  function HexDigit(d: nat): char
    requires d < 16
  {
    "0123456789abcdef"[d]
  }

  function DigitValue(c: char): nat {
    if '0' <= c <= '9' then c as nat - '0' as nat
    else if 'a' <= c <= 'f' then c as nat - 'a' as nat + 10
    else 16
  }

  predicate IsDigit(c: char) { DigitValue(c) < 16 }

  lemma DigitRoundTrip(d: nat)
    requires d < 16
    ensures DigitValue(HexDigit(d)) == d && IsDigit(HexDigit(d))
  {
  }

  /** `%.2x` of a byte. */
  function HexByte(b: byte): string { [HexDigit(b / 16), HexDigit(b % 16)] }

  /** At least `n` digits, as printf does with a precision. */
  function HexNumber(v: nat, n: nat): string
    decreases v, n
  {
    if n == 0 && v == 0 then ""
    else if v == 0 then HexNumber(0, n - 1) + "0"
    else HexNumber(v / 16, if n == 0 then 0 else n - 1) + [HexDigit(v % 16)]
  }

  function Value(s: string): nat {
    if s == "" then 0 else Value(s[..|s| - 1]) * 16 + DigitValue(s[|s| - 1])
  }

  function Pow16(n: nat): nat { if n == 0 then 1 else 16 * Pow16(n - 1) }

  lemma {:induction false} HexNumberValue(v: nat, n: nat)
    ensures Value(HexNumber(v, n)) == v && |HexNumber(v, n)| >= n
    ensures forall i :: 0 <= i < |HexNumber(v, n)| ==> IsDigit(HexNumber(v, n)[i])
    ensures v < Pow16(n) ==> |HexNumber(v, n)| == n
    decreases v, n
  {
    hide HexDigit, DigitValue, IsDigit;
    var s := HexNumber(v, n);
    if v != 0 || n != 0 {
      var front := HexNumber(v / 16, if n == 0 then 0 else n - 1);
      HexNumberValue(v / 16, if n == 0 then 0 else n - 1);
      DigitRoundTrip(v % 16);
      assert s == front + [HexDigit(v % 16)] by {
        assert v == 0 ==> v / 16 == 0 && HexDigit(0) == '0' by { ZeroDigit(); }
      }
      assert s[..|s| - 1] == front;
    }
  }

  lemma ZeroDigit()
    ensures HexDigit(0) == '0'
  {
  }

  // Rendering.

  /** What is printed before byte number `i`: at the start of a line its word address, at the start
      of a word a space. */
  function Lead(f: Format, i: nat): string
    requires Proper(f)
  {
    (if i % LineBytes(f) == 0 && f.addr then "@" + HexNumber((i / LineBytes(f)) * f.wpl, 8) else "")
    + (if i % f.bpw == 0 && (f.wpl > 1 || f.addr) then " " else "")
  }

  /** What is printed behind it: a line break if it is the last byte of a line. */
  function Trail(f: Format, i: nat): string
    requires Proper(f)
  {
    if (i + 1) % LineBytes(f) == 0 then "\n" else ""
  }

  function Chunk(f: Format, i: nat, b: byte): string
    requires Proper(f)
  {
    Lead(f, i) + HexByte(b) + Trail(f, i)
  }

  /** The rendering of bytes that start at byte number `i`. */
  function RenderFrom(f: Format, i: nat, bs: seq<byte>): string
    requires Proper(f)
    decreases |bs|
  {
    if bs == [] then "" else Chunk(f, i, bs[0]) + RenderFrom(f, i + 1, bs[1..])
  }

  function Render(f: Format, bs: seq<byte>): string
    requires Proper(f)
  {
    RenderFrom(f, 0, bs)
  }

  lemma {:induction false} RenderAppend(f: Format, i: nat, bs: seq<byte>, b: byte)
    requires Proper(f)
    ensures RenderFrom(f, i, bs + [b]) == RenderFrom(f, i, bs) + Chunk(f, i + |bs|, b)
    decreases |bs|
  {
    hide Chunk;
    if bs == [] {
      assert RenderFrom(f, i, [b]) == Chunk(f, i, b) + RenderFrom(f, i + 1, []);
    } else {
      RenderAppend(f, i + 1, bs[1..], b);
      assert (bs + [b])[1..] == bs[1..] + [b];
      Associative(Chunk(f, i, bs[0]), RenderFrom(f, i + 1, bs[1..]), Chunk(f, i + |bs|, b));
    }
  }

  // Layout.

  function Count(c: char, s: string): nat {
    if s == "" then 0 else (if s[0] == c then 1 else 0) + Count(c, s[1..])
  }

  lemma {:induction false} CountConcat(c: char, s: string, t: string)
    ensures Count(c, s + t) == Count(c, s) + Count(c, t)
  {
    if s == "" {
      assert s + t == t;
    } else {
      CountConcat(c, s[1..], t);
      assert (s + t)[1..] == s[1..] + t;
    }
  }

  lemma {:induction false} DigitsAreNone(c: char, s: string)
    requires !IsDigit(c) && forall i :: 0 <= i < |s| ==> IsDigit(s[i])
    ensures Count(c, s) == 0
  {
    if s != "" {
      DigitsAreNone(c, s[1..]);
    }
  }

  /** How many stretches of `k` bytes `n` bytes begin. */
  function Begun(n: nat, k: nat): nat
    requires 0 < k
  {
    n / k + if n % k == 0 then 0 else 1
  }

  lemma OneByteMore(n: nat, k: nat)
    requires 0 < k
    ensures (n + 1) / k == n / k + (if (n + 1) % k == 0 then 1 else 0)
    ensures Begun(n + 1, k) == Begun(n, k) + (if n % k == 0 then 1 else 0)
  {
    var q, r := n / k, n % k;
    assert n == q * k + r;
    if r + 1 < k {
      ModUnique(n + 1, k, q, r + 1);
    } else {
      NextMultiple(q, k);
      ModUnique(n + 1, k, q + 1, 0);
    }
  }

  lemma SingleCounts(c: char, d: char)
    ensures Count(c, []) == 0 && Count(c, [d]) == if c == d then 1 else 0
  {
    assert [d][1..] == [];
  }

  /** What is printed for a byte, counted. */
  lemma CountChunk(f: Format, i: nat, b: byte)
    requires Proper(f)
    ensures Count('\n', Chunk(f, i, b)) == if (i + 1) % LineBytes(f) == 0 then 1 else 0
    ensures Count('@', Chunk(f, i, b)) == if i % LineBytes(f) == 0 && f.addr then 1 else 0
    ensures Count(' ', Chunk(f, i, b)) == if i % f.bpw == 0 && (f.wpl > 1 || f.addr) then 1 else 0
  {
    hide LineBytes, HexNumber, HexByte, Count;
    var address := HexNumber((i / LineBytes(f)) * f.wpl, 8);
    HexNumberValue((i / LineBytes(f)) * f.wpl, 8);
    HexByteDigits(b);
    var mark := if i % LineBytes(f) == 0 && f.addr then "@" + address else "";
    var space := if i % f.bpw == 0 && (f.wpl > 1 || f.addr) then " " else "";
    forall c | c == '\n' || c == '@' || c == ' '
      ensures Count(c, Chunk(f, i, b))
           == Count(c, if mark == "" then "" else "@") + Count(c, space) + Count(c, Trail(f, i))
    {
      assert !IsDigit(c) by { NoDigits(); }
      DigitsAreNone(c, address);
      DigitsAreNone(c, HexByte(b));
      CountConcat(c, mark + space + HexByte(b), Trail(f, i));
      CountConcat(c, mark + space, HexByte(b));
      CountConcat(c, mark, space);
      CountConcat(c, "@", address);
    }
    forall c | c == '\n' || c == '@' || c == ' '
      ensures Count(c, "") == 0 && Count(c, "\n") == (if c == '\n' then 1 else 0)
      ensures Count(c, "@") == (if c == '@' then 1 else 0) && Count(c, " ") == if c == ' ' then 1 else 0
    {
      SingleCounts(c, '\n');
      SingleCounts(c, '@');
      SingleCounts(c, ' ');
    }
  }

  lemma HexByteDigits(b: byte)
    ensures forall i :: 0 <= i < |HexByte(b)| ==> IsDigit(HexByte(b)[i])
  {
    DigitRoundTrip(b / 16);
    DigitRoundTrip(b % 16);
  }

  /** A rendering has a line break for every complete line, an address for every line begun if there
      are addresses, and a space for every word begun if lines have several words or addresses. As
      this is so for every number of bytes, it says where they are. */
  lemma {:induction false} RenderIsLaidOut(f: Format, bs: seq<byte>)
    requires Proper(f)
    ensures var s := Render(f, bs);
            && Count('\n', s) == |bs| / LineBytes(f)
            && Count('@', s) == (if f.addr then Begun(|bs|, LineBytes(f)) else 0)
            && Count(' ', s) == (if f.wpl > 1 || f.addr then Begun(|bs|, f.bpw) else 0)
    decreases |bs|
  {
    hide LineBytes, Chunk, Count, Begun;
    if bs == [] {
      NothingIsLaidOut(f);
    } else {
      var n := |bs| - 1;
      var s, t := Render(f, bs[..n]), Chunk(f, n, bs[n]);
      RenderIsLaidOut(f, bs[..n]);
      assert bs[..n] + [bs[n]] == bs;
      RenderAppend(f, 0, bs[..n], bs[n]);
      CountConcat('\n', s, t);
      CountConcat('@', s, t);
      CountConcat(' ', s, t);
      CountChunk(f, n, bs[n]);
      OneByteMore(n, LineBytes(f));
      OneByteMore(n, f.bpw);
    }
  }

  lemma NothingIsLaidOut(f: Format)
    requires Proper(f)
    ensures 0 / LineBytes(f) == 0 && Begun(0, LineBytes(f)) == 0 && Begun(0, f.bpw) == 0
    ensures Render(f, []) == "" && Count('\n', "") == Count('@', "") == Count(' ', "") == 0
  {
    hide LineBytes;
    ModUnique(0, LineBytes(f), 0, 0);
  }

  // Loading.

  /** The number of leading digits. */
  function Digits(s: string): (n: nat)
    ensures n <= |s|
  {
    if s == "" || !IsDigit(s[0]) then 0 else 1 + Digits(s[1..])
  }

  /** What a reader of the format puts where: an address sets the position in words, white space
      separates, and two digits are the next byte. */
  function Load(s: string, bpw: nat, pos: nat): seq<(nat, byte)>
    decreases |s|
  {
    if s == "" then []
    else if s[0] == '@' then
      var n := Digits(s[1..]);
      Load(s[1 + n..], bpw, Value(s[1..1 + n]) * bpw)
    else if s[0] == ' ' || s[0] == '\n' then Load(s[1..], bpw, pos)
    else if 2 <= |s| && IsDigit(s[0]) && IsDigit(s[1]) then
      [(pos, DigitValue(s[0]) * 16 + DigitValue(s[1]))] + Load(s[2..], bpw, pos + 1)
    else []
  }

  /** Byte after byte, from position `i` on. */
  function Placed(i: nat, bs: seq<byte>): (r: seq<(nat, byte)>)
    ensures |r| == |bs| && forall k :: 0 <= k < |bs| ==> r[k] == (i + k, bs[k])
  {
    seq(|bs|, k requires 0 <= k < |bs| => (i + k, bs[k]))
  }

  lemma {:induction false} DigitsRun(s: string, rest: string)
    requires forall i :: 0 <= i < |s| ==> IsDigit(s[i])
    requires rest == "" || !IsDigit(rest[0])
    ensures Digits(s + rest) == |s|
  {
    if s == "" {
      assert s + rest == rest;
    } else {
      DigitsRun(s[1..], rest);
      assert (s + rest)[1..] == s[1..] + rest;
    }
  }

  lemma LoadAddress(v: nat, rest: string, bpw: nat, pos: nat)
    requires rest != "" && !IsDigit(rest[0])
    ensures Load("@" + HexNumber(v, 8) + rest, bpw, pos) == Load(rest, bpw, v * bpw)
  {
    hide HexNumber, Value, IsDigit;
    var digits := HexNumber(v, 8);
    HexNumberValue(v, 8);
    DigitsRun(digits, rest);
    var s := "@" + digits + rest;
    assert s[1..] == digits + rest;
    assert s[1..1 + |digits|] == digits && s[1 + |digits|..] == rest;
  }

  lemma LoadSpace(c: char, rest: string, bpw: nat, pos: nat)
    requires c == ' ' || c == '\n'
    ensures Load([c] + rest, bpw, pos) == Load(rest, bpw, pos)
  {
    assert ([c] + rest)[1..] == rest;
  }

  lemma LoadByte(b: byte, rest: string, bpw: nat, pos: nat)
    ensures Load(HexByte(b) + rest, bpw, pos) == [(pos, b)] + Load(rest, bpw, pos + 1)
  {
    var s := HexByte(b) + rest;
    DigitRoundTrip(b / 16);
    DigitRoundTrip(b % 16);
    assert s[0] == HexDigit(b / 16) && s[1] == HexDigit(b % 16) && s[2..] == rest;
    assert s[0] != '@' && s[0] != ' ' && s[0] != '\n';
  }

  lemma LineStart(f: Format, i: nat)
    requires Proper(f) && i % LineBytes(f) == 0
    ensures i % f.bpw == 0 && (i / LineBytes(f)) * f.wpl * f.bpw == i
  {
    var n, q := LineBytes(f), i / LineBytes(f);
    assert i == q * n;
    assert q * (f.bpw * f.wpl) == q * f.wpl * f.bpw;
    ModUnique(i, f.bpw, q * f.wpl, 0);
  }

  /** What is printed for a byte behind an address. */
  lemma LoadBehindAddress(f: Format, i: nat, b: byte, rest: string)
    requires Proper(f)
    ensures var space := if i % f.bpw == 0 && (f.wpl > 1 || f.addr) then " " else "";
            (Load(space + (HexByte(b) + (Trail(f, i) + rest)), f.bpw, i)
             == [(i, b)] + Load(rest, f.bpw, i + 1))
  {
    hide HexByte, Load, LineBytes;
    var line := Trail(f, i);
    if line != "" {
      LoadSpace('\n', rest, f.bpw, i + 1);
    } else {
      assert line + rest == rest;
    }
    var data := HexByte(b) + (line + rest);
    LoadByte(b, line + rest, f.bpw, i);
    LoadSpace(' ', data, f.bpw, i);
    assert "" + data == data;
  }

  /** Loading what was printed for a byte puts it at its own position. At the start of an addressed
      line it does not matter where the reader thought it was. */
  lemma LoadChunk(f: Format, i: nat, b: byte, rest: string, pos: nat)
    requires Proper(f) && (pos == i || (i % LineBytes(f) == 0 && f.addr))
    ensures Load(Chunk(f, i, b) + rest, f.bpw, pos) == [(i, b)] + Load(rest, f.bpw, i + 1)
  {
    hide HexNumber, HexByte, Load, LineBytes, IsDigit, Trail;
    var space := if i % f.bpw == 0 && (f.wpl > 1 || f.addr) then " " else "";
    var data := HexByte(b) + (Trail(f, i) + rest);
    LoadBehindAddress(f, i, b, rest);
    if i % LineBytes(f) == 0 && f.addr {
      LineStart(f, i);
      var v := (i / LineBytes(f)) * f.wpl;
      assert !IsDigit(' ') by { NoDigits(); }
      LoadAddress(v, space + data, f.bpw, pos);
      assert Chunk(f, i, b) + rest == "@" + HexNumber(v, 8) + (space + data);
    } else {
      assert Chunk(f, i, b) + rest == space + data;
    }
  }

  lemma NoDigits()
    ensures !IsDigit(' ') && !IsDigit('\n') && !IsDigit('@')
  {
  }

  /** A memory loaded from a rendering holds every byte at its own address: the first byte at 0,
      and no byte anywhere else. */
  lemma LoadRender(f: Format, bs: seq<byte>)
    requires Proper(f)
    ensures Load(Render(f, bs), f.bpw, 0) == Placed(0, bs)
  {
    LoadRenderFrom(f, 0, bs);
  }

  lemma {:induction false} LoadRenderFrom(f: Format, i: nat, bs: seq<byte>)
    requires Proper(f)
    ensures Load(RenderFrom(f, i, bs), f.bpw, i) == Placed(i, bs)
    decreases |bs|
  {
    hide Chunk;
    if bs != [] {
      LoadChunk(f, i, bs[0], RenderFrom(f, i + 1, bs[1..]), i);
      LoadRenderFrom(f, i + 1, bs[1..]);
      assert [(i, bs[0])] + Placed(i + 1, bs[1..]) == Placed(i, bs);
    }
  }

  /** Every line that starts with an address loads to the same place on its own, wherever the
      reader was before. */
  lemma AddressedLineStandsAlone(f: Format, i: nat, bs: seq<byte>, pos: nat)
    requires Proper(f) && f.addr && i % LineBytes(f) == 0 && bs != []
    ensures Load(RenderFrom(f, i, bs), f.bpw, pos) == Placed(i, bs)
  {
    hide Chunk;
    LoadChunk(f, i, bs[0], RenderFrom(f, i + 1, bs[1..]), pos);
    LoadRenderFrom(f, i + 1, bs[1..]);
    assert [(i, bs[0])] + Placed(i + 1, bs[1..]) == Placed(i, bs);
  }
}
