/** The byte encoding of the UART link. A data byte 0xfe is doubled; 0xfe followed by an odd byte
    starts a control message. `ParseByte` is the host's parser, one byte at a time; `DecodeByte`
    is the receiver in the target. */
module UartCodec {
  import opened Bits

  const MARK: byte := 0xfe
  /** The largest tranche of credit the host puts into one message. */
  const MAX_TRANCHE: nat := 0x3fff

  datatype Msg = Word(b: byte) | Credit(n: nat) | LogicReset(r: bool) | ComReset(r: bool)

  /** The data bytes among the messages, in order. */
  function Words(ms: seq<Msg>): seq<byte> {
    if ms == [] then []
    else (if ms[0].Word? then [ms[0].b] else []) + Words(ms[1..])
  }

  /** The credit handed over by the messages. */
  function Credits(ms: seq<Msg>): nat {
    if ms == [] then 0
    else (if ms[0].Credit? then ms[0].n else 0) + Credits(ms[1..])
  }

  lemma {:induction false} MsgsAppend(a: seq<Msg>, b: seq<Msg>)
    ensures Words(a + b) == Words(a) + Words(b)
    ensures Credits(a + b) == Credits(a) + Credits(b)
  {
    if a == [] {
      assert a + b == b;
    } else {
      MsgsAppend(a[1..], b);
      assert (a + b)[1..] == a[1..] + b;
      Associative(if a[0].Word? then [a[0].b] else [], Words(a[1..]), Words(b));
    }
  }

  // Sending.

  function Bit(b: bool): nat { if b then 1 else 0 }

  /** The bytes of a message, as both sides put them on the wire. */
  function Encode(m: Msg): seq<byte>
    requires m.Credit? ==> m.n < 0x8000
  {
    match m
    case Word(b) => if b == MARK then [MARK, MARK] else [b]
    case Credit(n) => [MARK, CreditHigh(n), n % 256]
    case LogicReset(r) => [MARK, 0x81 + 2 * Bit(r)]
    case ComReset(r) => [MARK, 0x85 + 2 * Bit(r)]
  }

  /** The bytes on the wire: 0xfe stands alone before a message and twice for itself; a tranche has an
      odd byte with its upper seven bits, and its lower byte; resets have their own odd bytes. */
  lemma WireBytes(b: byte, n: nat)
    requires n < 0x8000
    ensures Encode(Word(b)) == if b == 0xfe then [0xfe, 0xfe] else [b]
    ensures var e := Encode(Credit(n));
            && |e| == 3 && e[0] == 0xfe && e[1] % 2 == 1
            && n == (e[1] as int / 2) * 256 + e[2] as int
    ensures Encode(LogicReset(true)) == [0xfe, 0x83] && Encode(LogicReset(false)) == [0xfe, 0x81]
    ensures Encode(ComReset(true)) == [0xfe, 0x87] && Encode(ComReset(false)) == [0xfe, 0x85]
  {
  }

  /** `1 | ((n >> 8) << 1)`. */
  function CreditHigh(n: nat): byte
    requires n < 0x8000
  {
    1 + 2 * (n / 256)
  }

  /** The host's messages: tranches of at most 14 bits. */
  predicate Encodable(ms: seq<Msg>) {
    forall i :: 0 <= i < |ms| ==> ms[i].Credit? ==> ms[i].n <= MAX_TRANCHE
  }

  /** Messages that have an encoding: tranches of at most 15 bits. */
  predicate Sendable(ms: seq<Msg>) {
    forall i :: 0 <= i < |ms| ==> ms[i].Credit? ==> ms[i].n < 0x8000
  }

  function EncodeAll(ms: seq<Msg>): seq<byte>
    requires Sendable(ms)
  {
    if ms == [] then [] else Encode(ms[0]) + EncodeAll(ms[1..])
  }

  lemma {:induction false} EncodeAllAppend(ms: seq<Msg>, m: Msg)
    requires Encodable(ms) && (m.Credit? ==> m.n <= MAX_TRANCHE)
    ensures Encodable(ms + [m])
    ensures EncodeAll(ms + [m]) == EncodeAll(ms) + Encode(m)
  {
    if ms == [] {
      assert ms + [m] == [m];
      assert EncodeAll([m]) == Encode(m) + EncodeAll([m][1..]);
    } else {
      assert (ms + [m])[1..] == ms[1..] + [m];
      EncodeAllAppend(ms[1..], m);
    }
  }

  lemma {:induction false} EncodeAllConcat(a: seq<Msg>, b: seq<Msg>)
    requires Encodable(a) && Encodable(b)
    ensures Encodable(a + b) && EncodeAll(a + b) == EncodeAll(a) + EncodeAll(b)
    decreases |b|
  {
    hide Encode;
    if b == [] {
      assert a + b == a && EncodeAll(a) + [] == EncodeAll(a);
    } else {
      var front, last := b[..|b| - 1], b[|b| - 1];
      assert b == front + [last] && a + b == (a + front) + [last];
      EncodeAllConcat(a, front);
      EncodeAllAppend(front, last);
      EncodeAllAppend(a + front, last);
      Associative(EncodeAll(a), EncodeAll(front), Encode(last));
    }
  }

  /** Data bytes as messages. */
  function AsWords(bs: seq<byte>): (ms: seq<Msg>)
    ensures Encodable(ms) && |ms| == |bs|
  {
    seq(|bs|, i requires 0 <= i < |bs| => Word(bs[i]))
  }

  lemma {:induction false} WordsOfAsWords(bs: seq<byte>)
    ensures Words(AsWords(bs)) == bs && Credits(AsWords(bs)) == 0
  {
    if bs != [] {
      WordsOfAsWords(bs[1..]);
      assert AsWords(bs)[1..] == AsWords(bs[1..]);
    }
  }

  lemma AsWordsStep(bs: seq<byte>, k: nat)
    requires k < |bs|
    ensures EncodeAll(AsWords(bs[..k + 1])) == EncodeAll(AsWords(bs[..k])) + Encode(Word(bs[k]))
  {
    assert AsWords(bs[..k + 1]) == AsWords(bs[..k]) + [Word(bs[k])];
    EncodeAllAppend(AsWords(bs[..k]), Word(bs[k]));
  }

  // Receiving in the host.

  datatype Parser = AtBoundary | AfterMark | AfterFirst(first: byte)

  datatype Parsed = Parsed(state: Parser, msgs: seq<Msg>)

  /** `(((first >> 1) & 0x7f) << 8) | second`. */
  function TrancheOf(first: byte, second: byte): nat {
    ((first / 2) % 128) * 256 + second
  }

  function ParseByte(p: Parser, b: byte): Parsed {
    match p
    case AtBoundary =>
      if b == MARK then Parsed(AfterMark, []) else Parsed(AtBoundary, [Word(b)])
    case AfterMark =>
      if b == MARK then Parsed(AtBoundary, [Word(MARK)]) else Parsed(AfterFirst(b), [])
    case AfterFirst(first) => Parsed(AtBoundary, [Credit(TrancheOf(first, b))])
  }

  function Parse(p: Parser, bs: seq<byte>): Parsed
    decreases |bs|
  {
    if bs == [] then Parsed(p, [])
    else
      var step := ParseByte(p, bs[0]);
      var rest := Parse(step.state, bs[1..]);
      Parsed(rest.state, step.msgs + rest.msgs)
  }

  /** Parsing the first byte and then the rest. */
  lemma ParseHead(p: Parser, bs: seq<byte>)
    requires bs != []
    ensures var step := ParseByte(p, bs[0]);
            var rest := Parse(step.state, bs[1..]);
            && Parse(p, bs) == Parsed(rest.state, step.msgs + rest.msgs)
            && Words(Parse(p, bs).msgs) == Words(step.msgs) + Words(rest.msgs)
            && Credits(Parse(p, bs).msgs) == Credits(step.msgs) + Credits(rest.msgs)
  {
    MsgsAppend(ParseByte(p, bs[0]).msgs, Parse(ParseByte(p, bs[0]).state, bs[1..]).msgs);
  }

  /** What a boundary is followed by: a data byte, a doubled marker, a credit message, or one of
      them cut off. */
  lemma NextMessage(bs: seq<byte>)
    requires bs != []
    ensures var whole := Parse(AtBoundary, bs);
            if bs[0] != MARK then
              var rest := Parse(AtBoundary, bs[1..]);
              whole == Parsed(rest.state, [Word(bs[0])] + rest.msgs)
            else if |bs| == 1 then whole == Parsed(AfterMark, [])
            else if bs[1] == MARK then
              var rest := Parse(AtBoundary, bs[2..]);
              whole == Parsed(rest.state, [Word(MARK)] + rest.msgs)
            else if |bs| == 2 then whole == Parsed(AfterFirst(bs[1]), [])
            else
              var rest := Parse(AtBoundary, bs[3..]);
              whole == Parsed(rest.state, [Credit(TrancheOf(bs[1], bs[2]))] + rest.msgs)
  {
    ParseHead(AtBoundary, bs);
    if bs[0] == MARK && |bs| >= 2 {
      ParseHead(AfterMark, bs[1..]);
      assert bs[1..][1..] == bs[2..];
      if bs[1] != MARK && |bs| >= 3 {
        ParseHead(AfterFirst(bs[1]), bs[2..]);
        assert bs[2..][1..] == bs[3..];
      }
    }
  }

  lemma {:induction false} ParseAppend(p: Parser, a: seq<byte>, b: seq<byte>)
    ensures var first := Parse(p, a);
            Parse(p, a + b) == Parsed(Parse(first.state, b).state,
                                      first.msgs + Parse(first.state, b).msgs)
    decreases |a|
  {
    if a == [] {
      assert a + b == b;
    } else {
      assert (a + b)[1..] == a[1..] + b;
      ParseAppend(ParseByte(p, a[0]).state, a[1..], b);
    }
  }

  lemma ParseNothing(p: Parser)
    ensures Parse(p, []) == Parsed(p, [])
  {
  }

  /** A chunk followed by a few bytes more: the messages add up. */
  lemma ParseTopUp(chunk: seq<byte>, extra: seq<byte>)
    ensures var p := Parse(AtBoundary, chunk);
            var e := Parse(p.state, extra);
            var q := Parse(AtBoundary, chunk + extra);
            && q.state == e.state
            && Words(q.msgs) == Words(p.msgs) + Words(e.msgs)
            && Credits(q.msgs) == Credits(p.msgs) + Credits(e.msgs)
  {
    ParseAppend(AtBoundary, chunk, extra);
    MsgsAppend(Parse(AtBoundary, chunk).msgs,
               Parse(Parse(AtBoundary, chunk).state, extra).msgs);
  }

  // Receiving in the target.

  datatype Decoder = Passthrough | Match | CreditSecond(first: nat)

  datatype Decoded = Decoded(state: Decoder, msgs: seq<Msg>)

  function DecodeByte(d: Decoder, b: byte): Decoded {
    match d
    case Passthrough =>
      if b == MARK then Decoded(Match, []) else Decoded(Passthrough, [Word(b)])
    case Match =>
      if b % 2 == 0 then Decoded(Passthrough, [Word(b)])
      else if b < 0x80 then Decoded(CreditSecond((b / 2) % 64), [])
      else if (b / 4) % 2 == 0 then Decoded(Passthrough, [LogicReset((b / 2) % 2 == 1)])
      else Decoded(Passthrough, [ComReset((b / 2) % 2 == 1)])
    case CreditSecond(first) => Decoded(Passthrough, [Credit(first * 256 + b)])
  }

  function Decode(d: Decoder, bs: seq<byte>): Decoded
    decreases |bs|
  {
    if bs == [] then Decoded(d, [])
    else
      var step := DecodeByte(d, bs[0]);
      var rest := Decode(step.state, bs[1..]);
      Decoded(rest.state, step.msgs + rest.msgs)
  }

  lemma {:induction false} DecodeAppend(d: Decoder, a: seq<byte>, b: seq<byte>)
    ensures var first := Decode(d, a);
            Decode(d, a + b) == Decoded(Decode(first.state, b).state,
                                        first.msgs + Decode(first.state, b).msgs)
    decreases |a|
  {
    if a == [] {
      assert a + b == b;
    } else {
      assert (a + b)[1..] == a[1..] + b;
      DecodeAppend(DecodeByte(d, a[0]).state, a[1..], b);
    }
  }

  lemma DecodeOne(m: Msg)
    requires m.Credit? ==> m.n <= MAX_TRANCHE
    ensures Decode(Passthrough, Encode(m)) == Decoded(Passthrough, [m])
  {
    var bs := Encode(m);
    var s1 := DecodeByte(Passthrough, bs[0]);
    if |bs| >= 2 {
      var s2 := DecodeByte(s1.state, bs[1]);
      assert Decode(s2.state, bs[1..][1..])
          == if |bs| == 2 then Decoded(s2.state, [])
             else Decoded(DecodeByte(s2.state, bs[2]).state, DecodeByte(s2.state, bs[2]).msgs);
    }
  }

  /** However data, credit and reset messages follow each other, the target recovers exactly the
      messages sent, in order, and is back at a message boundary. */
  lemma {:induction false} DecodeEncodeAll(ms: seq<Msg>)
    requires Encodable(ms)
    ensures Decode(Passthrough, EncodeAll(ms)) == Decoded(Passthrough, ms)
  {
    if ms != [] {
      DecodeOne(ms[0]);
      DecodeEncodeAll(ms[1..]);
      DecodeAppend(Passthrough, Encode(ms[0]), EncodeAll(ms[1..]));
    }
  }

  /** Two message lists with the same bytes on the wire are the same list. */
  lemma EncodingIsUnique(a: seq<Msg>, b: seq<Msg>)
    requires Encodable(a) && Encodable(b) && EncodeAll(a) == EncodeAll(b)
    ensures a == b
  {
    DecodeEncodeAll(a);
    DecodeEncodeAll(b);
  }

  /** The 14 bits are needed: a larger tranche is not what the target decodes. */
  lemma TrancheRoundTripIff(n: nat)
    requires n < 0x8000
    ensures Decode(Passthrough, Encode(Credit(n))).msgs == [Credit(n)] <==> n <= MAX_TRANCHE
  {
    if n <= MAX_TRANCHE {
      DecodeOne(Credit(n));
    } else {
      var bs := Encode(Credit(n));
      var s2 := DecodeByte(Match, bs[1]);
      assert bs[1..] == [bs[1], bs[2]];
      assert Decode(Match, bs[1..]).msgs == s2.msgs + Decode(s2.state, bs[1..][1..]).msgs;
      assert Decode(Passthrough, bs).msgs == [] + Decode(Match, bs[1..]).msgs;
      assert bs[1] >= 0x81 && bs[1] % 2 == 1;
      assert |s2.msgs| == 1 && s2.msgs[0] != Credit(n);
      assert Decode(Passthrough, bs).msgs[0] == s2.msgs[0];
    }
  }

  /** The host's parser recovers a data byte or a tranche of up to 15 bits from its encoding. */
  lemma ParseOne(m: Msg)
    requires m.Word? || (m.Credit? && m.n < 0x8000)
    ensures Parse(AtBoundary, Encode(m)) == Parsed(AtBoundary, [m])
  {
    var bs := Encode(m);
    var s1 := ParseByte(AtBoundary, bs[0]);
    if |bs| >= 2 {
      var s2 := ParseByte(s1.state, bs[1]);
      assert Parse(s2.state, bs[1..][1..])
          == if |bs| == 2 then Parsed(s2.state, [])
             else Parsed(ParseByte(s2.state, bs[2]).state, ParseByte(s2.state, bs[2]).msgs);
    }
  }

  /** What a target may send: data bytes and tranches of 15 bits. */
  predicate Inbound(ms: seq<Msg>) {
    forall i :: 0 <= i < |ms| ==> ms[i].Word? || (ms[i].Credit? && ms[i].n < 0x8000)
  }

  /** Cut the target's byte stream in two anywhere, inside a message or not: parsing the second
      piece where the parser stopped after the first yields the messages sent, in order. */
  lemma {:induction false} ParseIsChunkIndependent(ms: seq<Msg>, cut: nat)
    requires Inbound(ms) && cut <= |EncodeAll(ms)|
    ensures var bs := EncodeAll(ms);
            var first := Parse(AtBoundary, bs[..cut]);
            var second := Parse(first.state, bs[cut..]);
            first.msgs + second.msgs == ms && second.state == AtBoundary
  {
    var bs := EncodeAll(ms);
    ParseWhole(ms);
    ParseAppend(AtBoundary, bs[..cut], bs[cut..]);
    assert bs[..cut] + bs[cut..] == bs;
  }

  lemma {:induction false} ParseWhole(ms: seq<Msg>)
    requires Inbound(ms)
    ensures Parse(AtBoundary, EncodeAll(ms)) == Parsed(AtBoundary, ms)
  {
    if ms != [] {
      ParseOne(ms[0]);
      ParseWhole(ms[1..]);
      ParseAppend(AtBoundary, Encode(ms[0]), EncodeAll(ms[1..]));
    }
  }
}
