/** The polling thread of the JTAG backend: every transfer carries words in both directions, and
    its tail tells how many of them were accepted and how many were delivered. */
module Jtag {
  import opened Bits
  import opened Cbufs
  import opened CbufUtil
  import opened JtagWords

  datatype Build = Built(size: nat) | TooSmall | PeekFailed

  /** How many of the words offered the target accepts in its next transfer. */
  function Accept(accepts: seq<nat>, wr: nat): (a: nat)
    ensures a <= wr
  {
    if accepts == [] then wr else Min(accepts[0], wr)
  }

  /** How many of the words asked for it delivers, when some number of words is ready. */
  function Give(gives: seq<nat>, rd: nat, ready: nat): (g: nat)
    ensures g <= rd && g <= ready
  {
    if gives == [] then Min(rd, ready) else Min(Min(rd, ready), gives[0])
  }

  /** A script after one transfer. */
  function Tail(script: seq<nat>): seq<nat> {
    if script == [] then [] else script[1..]
  }

  /** The target: it accepts some of the words it is offered and delivers some of the words it is
      asked for, as its scripts say. */
  class Target {
    const w: nat
    var accepts: seq<nat>
    var gives: seq<nat>
    /** Bytes accepted so far, bytes delivered so far, bytes waiting to be delivered. */
    var received: seq<byte>
    var delivered: seq<byte>
    var waiting: seq<byte>

    constructor (w: nat, accepts: seq<nat>, gives: seq<nat>, waiting: seq<byte>)
      ensures this.w == w && this.accepts == accepts && this.gives == gives
      ensures this.waiting == waiting && received == [] && delivered == []
    {
      this.w, this.accepts, this.gives, this.waiting := w, accepts, gives, waiting;
      received, delivered := [], [];
    }

    ghost predicate Answer(req: seq<byte>, resp: seq<byte>, acked: nat, read: nat)
      requires 0 < w && 4 * w <= |req| == |resp| && acked < Limit(w) && read < Limit(w)
    {
      && acked <= Head(req, w).0 && read <= Head(req, w).1
      && resp[|resp| - 2 * w..|resp| - w] == CopyToWord(acked, w)
      && resp[|resp| - w..] == CopyToWord(read, w)
    }

    /** How many whole words are waiting. */
    function Ready(): nat
      requires 0 < w
      reads this
    {
      |waiting| / w
    }

    /** One transfer. The target finds the tail from the counts in the head. */
    method Scan(req: seq<byte>) returns (resp: seq<byte>, ghost acked: nat, ghost read: nat)
      requires 0 < w && 4 * w <= |req|
      requires Head(req, w).0 < Limit(w) && Head(req, w).1 < Limit(w)
      requires |req| == (Max(Head(req, w).0, Head(req, w).1) + 4) * w
      modifies this
      ensures |resp| == |req| && acked < Limit(w) && read < Limit(w)
      ensures Answer(req, resp, acked, read) && acked == Accept(old(accepts), Head(req, w).0)
      ensures read == Give(old(gives), Head(req, w).1, old(Ready()))
      ensures accepts == Tail(old(accepts)) && gives == Tail(old(gives))
      ensures |waiting| + read * w == |old(waiting)|
      ensures acked * w <= |req| - 4 * w && read * w <= |req| - 4 * w
      ensures received == old(received) + req[2 * w..2 * w + acked * w]
      ensures delivered == old(delivered) + resp[2 * w..2 * w + read * w]
      ensures delivered + waiting == old(delivered + waiting)
    {
      hide CopyToWord, Head, Limit;
      var a, g := Decide(Head(req, w).0, Head(req, w).1, |req|);
      acked, read := a, g;
      var accepted, given := a * w, g * w;
      received := received + req[2 * w..2 * w + accepted];
      resp := Exchange(given, |req| - 4 * w, a, g);
    }

    /** How many words to accept and to deliver, following the scripts. */
    method Decide(wr: nat, rd: nat, size: nat) returns (a: nat, g: nat)
      requires 0 < w && size == (Max(wr, rd) + 4) * w
      modifies this`accepts, this`gives
      ensures a == Accept(old(accepts), wr) && g == Give(old(gives), rd, old(Ready()))
      ensures accepts == Tail(old(accepts)) && gives == Tail(old(gives))
      ensures a * w + 4 * w <= size && g * w + 4 * w <= size && g * w <= |waiting|
    {
      a := Accept(accepts, wr);
      g := Give(gives, rd, |waiting| / w);
      accepts, gives := Tail(accepts), Tail(gives);
      FitsTransfer(a, Max(wr, rd), w);
      FitsTransfer(g, Max(wr, rd), w);
      PartOfLevel(g, |waiting|, w);
    }

    /** Take the bytes to deliver off the queue, and lay out the response. */
    method Exchange(given: nat, payload: nat, a: nat, g: nat) returns (resp: seq<byte>)
      requires 0 < w && given <= payload && given <= |waiting|
      modifies this`delivered, this`waiting
      ensures |resp| == payload + 4 * w
      ensures resp[|resp| - 2 * w..|resp| - w] == CopyToWord(a, w)
      ensures resp[|resp| - w..] == CopyToWord(g, w)
      ensures delivered == old(delivered) + resp[2 * w..2 * w + given]
      ensures delivered + waiting == old(delivered + waiting) && |waiting| + given == |old(waiting)|
    {
      hide CopyToWord;
      var out := waiting[..given];
      resp := Zeros(2 * w) + out + Zeros(payload - given) + CopyToWord(a, w) + CopyToWord(g, w);
      delivered := delivered + out;
      waiting := waiting[given..];
      assert out + waiting == old(waiting);
      assert old(delivered) + (out + waiting) == delivered + waiting;
      assert resp[2 * w..2 * w + given] == out;
    }
  }

  lemma FitsTransfer(a: nat, b: nat, w: nat)
    requires a <= b
    ensures a * w + 4 * w <= (b + 4) * w
  {
    PartOfTransfer(a, b, w);
  }

  lemma PartOfTransfer(a: nat, b: nat, w: nat)
    requires a <= b
    ensures a * w <= b * w && (b + 4) * w == b * w + 4 * w
  {
    MultiplesGrow(a, b, w);
  }

  // One transfer.

  /** The tail of a response. */
  predicate EndsWithCounts(resp: seq<byte>, acked: nat, read: nat, w: nat) {
    && 0 < w && 2 * w <= |resp|
    && resp[|resp| - 2 * w..|resp| - w] == CopyToWord(acked, w)
    && resp[|resp| - w..] == CopyToWord(read, w)
  }

  function RequestBytes(wr: nat, rd: nat, data: seq<byte>, size: nat, w: nat): (bs: seq<byte>)
    requires 0 < w && 2 * w + |data| <= size
    ensures |bs| == size
  {
    CopyToWord(wr, w) + CopyToWord(rd, w) + data + Zeros(size - 2 * w - |data|)
  }

  method FillRequest(tx: array<byte>, wr: nat, rd: nat, data: seq<byte>, len: nat, w: nat)
    requires 0 < w && 2 * w + |data| <= len <= tx.Length
    modifies tx
    ensures tx[..len] == RequestBytes(wr, rd, data, len, w)
  {
    hide CopyToWord, Put;
    forall i | 0 <= i < len {
      tx[i] := 0;
    }
    assert tx[..len] == Zeros(len);
    PutBytes(tx, 0, CopyToWord(wr, w), len);
    PutBytes(tx, w, CopyToWord(rd, w), len);
    PutBytes(tx, 2 * w, data, len);
    PutThree(CopyToWord(wr, w), CopyToWord(rd, w), data, len);
  }

  function Put(s: seq<byte>, at: nat, bytes: seq<byte>): seq<byte>
    requires at + |bytes| <= |s|
    ensures |Put(s, at, bytes)| == |s|
  {
    s[..at] + bytes + s[at + |bytes|..]
  }

  method PutBytes(tx: array<byte>, at: nat, bytes: seq<byte>, len: nat)
    requires at + |bytes| <= len <= tx.Length
    modifies tx
    ensures tx[..len] == Put(old(tx[..len]), at, bytes)
  {
    Cbuf.MemCpy(tx, at, bytes);
  }

  lemma PutThree(a: seq<byte>, b: seq<byte>, c: seq<byte>, len: nat)
    requires |a| + |b| + |c| <= len
    ensures |Put(Zeros(len), 0, a)| == len
    ensures |Put(Put(Zeros(len), 0, a), |a|, b)| == len
    ensures Put(Put(Put(Zeros(len), 0, a), |a|, b), |a| + |b|, c)
         == a + b + c + Zeros(len - |a| - |b| - |c|)
  {
    var x := Put(Zeros(len), 0, a);
    assert x == a + Zeros(len - |a|);
    assert Put(x, |a|, b) == a + b + Zeros(len - |a| - |b|);
  }

  /** How many words to send and to ask for, given the levels of the two buffers. */
  function PayloadWords(wanted: nat, fill: nat, free: nat, w: nat): (r: (nat, nat))
    requires 0 < w
    ensures r.0 == Min(fill / w, wanted) && r.1 == Min(free / w, wanted)
  {
    var availWr, availRd := fill / w, free / w;
    var payload := Min(wanted, Max(availWr, availRd));
    (Min(availWr, payload), Min(availRd, payload))
  }

  /** Both counts are as large as they can be without exceeding the number of words wanted, or the
      level of their buffer. */
  lemma PayloadIsMaximal(wanted: nat, fill: nat, free: nat, w: nat)
    requires 0 < w
    ensures var r := PayloadWords(wanted, fill, free, w);
            && r.0 * w <= fill && r.1 * w <= free && Max(r.0, r.1) <= wanted
            && (r.0 < wanted ==> (r.0 + 1) * w > fill)
            && (r.1 < wanted ==> (r.1 + 1) * w > free)
  {
    hide PayloadWords;
    PartOfLevel(wanted, fill, w);
    PartOfLevel(wanted, free, w);
  }

  lemma PartOfLevel(wanted: nat, level: nat, w: nat)
    requires 0 < w
    ensures var n := Min(level / w, wanted);
            n * w <= level && (n < wanted ==> (n + 1) * w > level)
  {
    var q := level / w;
    assert level == q * w + level % w;
    NextMultiple(q, w);
    PartOfTransfer(Min(q, wanted), q, w);
  }

  lemma PositiveWords(n: nat, w: nat)
    requires 0 < w
    ensures 0 < n * w <==> 0 < n
  {
    if 0 < n {
      PartOfTransfer(1, n, w);
    }
  }

  /** The words a transfer takes from the write buffer. The application has a turn before the
      transfer, and turn 1 in the look at the fill level. It has turn 2 before the peek. */
  function WordsToSend(script: seq<seq<byte>>, free: nat, w: nat, wanted: nat): nat
    requires 0 < w && free <= BUFFER_SIZE
  {
    FeedingShrinks(script, free, 2);
    Min((if BrimsAt(script, free, 1) then 0 else BUFFER_SIZE - FreeAfter(script, free, 2)) / w, wanted)
  }

  /** The words a transfer asks for. The reading application has a turn before the transfer, and turn
      1 in the look at the free level. */
  function WordsToGet(drain: seq<nat>, level: nat, w: nat, wanted: nat): nat
    requires 0 < w && level <= BUFFER_SIZE
  {
    DrainingShrinks(drain, level, 0);
    DrainingShrinks(drain, level, 1);
    Min(FreeSeen(BUFFER_SIZE, LevelAfter(drain, level, 1), LevelAfter(drain, level, 2)) / w, wanted)
  }

  /** The start of a transfer. For the write buffer: the oldest byte in it, how often the writing
      application had a turn since the thread started, its turns to come and the space it has. For
      the read buffer: the reading application's turns to come, and the level. The number of words
      wanted. For the target: how many words it is going to accept, how many it is going to deliver,
      and how many bytes are waiting to be delivered. */
  datatype Situation = Situation(start: nat, turns: nat, script: seq<seq<byte>>, free: nat,
                                 drain: seq<nat>, level: nat, wanted: nat, accepts: seq<nat>,
                                 gives: seq<nat>, waiting: nat)
  {
    /** Does the peek of the transfer succeed? It looks at the level in turn 3. */
    predicate Alive(w: nat) {
      0 < w && free <= BUFFER_SIZE
      && !(0 < WordsToSend(script, free, w, wanted) && BrimsAt(script, free, 3))
    }

    function Acked(w: nat): nat {
      if Alive(w) then Accept(accepts, WordsToSend(script, free, w, wanted)) else 0
    }

    /** Is the discard refused? It looks at the level in turn 5. */
    predicate Refused(w: nat) {
      0 < Acked(w) && BrimsAt(script, free, 5)
    }

    /** The end of the piece sent, and the oldest byte in the write buffer afterwards. */
    function End(w: nat): (e: nat)
      ensures start <= e
    {
      start + Acked(w) * w
    }

    function Next(w: nat): nat { if Refused(w) then start else End(w) }

    /** How many turns the writing application has during the transfer. */
    function Turns(w: nat): nat {
      if !Alive(w) then 4 else if WordsToSend(script, free, w, wanted) == 0 then 5 else 6
    }

    /** The words asked for, and the words delivered. */
    function Asked(w: nat): nat {
      if 0 < w && level <= BUFFER_SIZE then WordsToGet(drain, level, w, wanted) else 0
    }

    function Given(w: nat): nat {
      if Alive(w) then Give(gives, Asked(w), waiting / w) else 0
    }

    /** How many turns the reading application has during the transfer. */
    function ReadTurns(w: nat): nat {
      if Alive(w) then 5 else 3
    }

    function WantedNext(w: nat, minWanted: nat, bound: int): nat {
      if !Alive(w) then wanted
      else Adjust(wanted, minWanted, bound, Acked(w), WordsToSend(script, free, w, wanted), Given(w), Asked(w))
    }

    /** Is `t` the start of the next transfer? */
    predicate Leads(t: Situation, w: nat, minWanted: nat, bound: int) {
      && 0 < w && free <= BUFFER_SIZE && level <= BUFFER_SIZE && t.waiting + Given(w) * w == waiting
      && var n, m := Turns(w), ReadTurns(w);
         t == Situation(Next(w), turns + n, Rest(script, n), FreeAfter(script, free, n) + (Next(w) - start),
                        Rest(drain, m), LevelAfter(drain, level, m) + Given(w) * w,
                        WantedNext(w, minWanted, bound), if Alive(w) then Tail(accepts) else accepts,
                        if Alive(w) then Tail(gives) else gives, t.waiting)
    }
  }

  class Poller {
    const w: nat
    const writeBuf: Cbuf
    const readBuf: Cbuf
    const app: Feeder
    const sink: Drainer
    const target: Target
    const minWanted: nat
    const bound: int
    var wanted: nat
    var tx: array<byte>

    ghost predicate Valid()
      reads this, writeBuf, readBuf
    {
      && writeBuf.Valid() && readBuf.Valid()
      && writeBuf != readBuf && writeBuf.Repr() !! readBuf.Repr()
      && tx !in writeBuf.Repr() && tx !in readBuf.Repr() && 0 < tx.Length
      && writeBuf.size == readBuf.size == BUFFER_SIZE
      && 0 < w == target.w
    }

    /** The oldest `k` bytes the application wrote have left the write buffer, the others are in it;
        every byte the target delivered is in the read buffer or has been read. */
    ghost predicate Serving(k: nat)
      requires writeBuf.Valid() && readBuf.Valid()
      reads writeBuf, writeBuf.data, readBuf, readBuf.data, app, sink, target
    {
      app.Left(writeBuf, k) && sink.Accepted(readBuf) == target.delivered
    }

    /** The thread starts with the width and the buffer size it read from the target. */
    constructor (writeBuf: Cbuf, readBuf: Cbuf, app: Feeder, sink: Drainer, target: Target,
                 minWanted: nat, bound: int)
      requires writeBuf.Valid() && readBuf.Valid() && writeBuf != readBuf
      requires writeBuf.Repr() !! readBuf.Repr()
      requires writeBuf.size == readBuf.size == BUFFER_SIZE && 0 < target.w
      ensures Valid() && wanted == minWanted == this.minWanted && this.bound == bound && fresh(tx)
      ensures this.writeBuf == writeBuf && this.readBuf == readBuf && this.app == app
      ensures this.sink == sink && this.target == target
    {
      this.w, this.minWanted, this.bound := target.w, minWanted, bound;
      this.writeBuf, this.readBuf, this.app, this.sink := writeBuf, readBuf, app, sink;
      this.target := target;
      wanted := minWanted;
      tx := new byte[(MAX_PAYLOAD_WORDS + 4) * 2](_ => 0);
    }

    /** The application threads make progress. */
    method Turns(ghost k: nat)
      requires Valid() && app.Left(writeBuf, k)
      modifies writeBuf`wrPtr, writeBuf`reserved, writeBuf.data, app, readBuf`rdPtr, sink
      ensures Valid() && app.Left(writeBuf, k) && old(app.sent) <= app.sent
      ensures app.Fed(writeBuf, old(app.script), old(Free(writeBuf)), 1)
      ensures sink.Accepted(readBuf) == old(sink.Accepted(readBuf))
      ensures sink.Drained(readBuf, old(sink.script), old(|readBuf.Contents()|), 1)
      ensures |writeBuf.Contents()| >= |old(writeBuf.Contents())|
      ensures |readBuf.Contents()| <= |old(readBuf.Contents())|
    {
      hide Cbuf.Contents, Cbuf.Valid, Feeder.Left, Drainer.Accepted, Rest, FreeAfter, BrimsAt, LevelAfter;
      app.Turn(writeBuf, k);
      sink.Turn(readBuf);
    }

    /** The number of words to offer and to ask for. */
    method CalcPayloadLen(ghost k: nat) returns (wr: nat, rd: nat)
      requires Valid() && Serving(k)
      modifies writeBuf`wrPtr, writeBuf`reserved, writeBuf.data, app, readBuf`rdPtr, sink
      ensures Valid() && Serving(k) && old(app.sent) <= app.sent
      ensures app.Fed(writeBuf, old(app.script), old(Free(writeBuf)), 1)
      ensures var seen := if BrimsAt(old(app.script), old(Free(writeBuf)), 0) then 0
                          else |writeBuf.Contents()|;
              wr == Min(seen / w, wanted)
      ensures sink.Drained(readBuf, old(sink.script), old(|readBuf.Contents()|), 1)
      ensures rd == Min(FreeSeen(readBuf.size, old(|readBuf.Contents()|), |readBuf.Contents()|) / w, wanted)
      ensures wr * w <= |writeBuf.Contents()| && rd * w <= readBuf.size - |readBuf.Contents()|
      ensures Max(wr, rd) <= wanted
    {
      hide Cbuf.Contents, Cbuf.Valid, PayloadWords, Rest, FreeAfter, BrimsAt, LevelAfter;
      var fill := LookAtFill(writeBuf, app, k);
      var free := LookAtFree(readBuf, sink);
      PayloadIsMaximal(wanted, fill, free, w);
      var r := PayloadWords(wanted, fill, free, w);
      return r.0, r.1;
    }

    /** A request for the oldest bytes in the write buffer is ready. */
    ghost predicate Prepared(b: Build, wr: nat, rd: nat, k: nat)
      requires Valid()
      reads this, writeBuf, readBuf, app, tx
    {
      b.Built? ==>
        && b.size == (Max(wr, rd) + 4) * w <= tx.Length
        && 2 * w + wr * w <= b.size && k + wr * w <= |app.sent|
        && tx[..b.size] == RequestBytes(wr, rd, app.sent[k..k + wr * w], b.size, w)
    }

    /** Fill the transfer buffer, if it is large enough. The peek fails exactly if there is something
        to send and the application fills the write buffer to the brim during its look. */
    method BuildJtagReq(wr: nat, rd: nat, ghost k: nat) returns (b: Build)
      requires Valid() && Serving(k) && wr * w <= |writeBuf.Contents()|
      modifies writeBuf`wrPtr, writeBuf`reserved, writeBuf.data, writeBuf`readTmp, writeBuf.readTmp
      modifies app, tx
      ensures Valid() && Serving(k) && old(app.sent) <= app.sent
      ensures writeBuf.readTmp == old(writeBuf.readTmp) || fresh(writeBuf.readTmp)
      ensures |writeBuf.Contents()| >= |old(writeBuf.Contents())|
      ensures b == TooSmall <==> (Max(wr, rd) + 4) * w > tx.Length
      ensures b == TooSmall ==> unchanged(app) && unchanged(writeBuf) && unchanged(writeBuf.data)
      ensures b != TooSmall ==>
                && (b == PeekFailed <==>
                      0 < wr && BrimsAt(old(app.script), old(Free(writeBuf)), 0))
                && app.Fed(writeBuf, old(app.script), old(Free(writeBuf)), if wr == 0 then 0 else 1)
      ensures Prepared(b, wr, rd, k)
    {
      hide Cbuf.Contents, CopyToWord, Rest, FreeAfter, BrimsAt;
      var wrBytes := wr * w;
      var len := (Max(wr, rd) + 4) * w;
      if len > tx.Length {
        return TooSmall;
      }
      PartOfTransfer(wr, Max(wr, rd), w);
      PositiveWords(wr, w);
      var rv, data := ContendedPeek(writeBuf, app, k, wrBytes);
      if rv != Success {
        return PeekFailed;
      }
      FillRequest(tx, wr, rd, data, len, w);
      return Built(len);
    }

    /** Enlarge the transfer buffer until the request fits, and build it. */
    method BuildWithGrowth(wr: nat, rd: nat, ghost k: nat) returns (b: Build)
      requires Valid() && Serving(k) && wr * w <= |writeBuf.Contents()|
      modifies writeBuf`wrPtr, writeBuf`reserved, writeBuf.data, writeBuf`readTmp, writeBuf.readTmp
      modifies app, tx, this`tx
      ensures Valid() && Serving(k) && old(app.sent) <= app.sent && (tx == old(tx) || fresh(tx))
      ensures writeBuf.readTmp == old(writeBuf.readTmp) || fresh(writeBuf.readTmp)
      ensures |writeBuf.Contents()| >= |old(writeBuf.Contents())|
      ensures b != TooSmall && Prepared(b, wr, rd, k)
      ensures b == PeekFailed <==> 0 < wr && BrimsAt(old(app.script), old(Free(writeBuf)), 0)
      ensures app.Fed(writeBuf, old(app.script), old(Free(writeBuf)), if wr == 0 then 0 else 1)
    {
      hide Prepared, Serving, Cbuf.Contents, GrowBuf, RequestBytes, Rest, FreeAfter, BrimsAt;
      ghost var script, free := app.script, Free(writeBuf);
      b := BuildJtagReq(wr, rd, k);
      while b == TooSmall
        invariant Valid() && Serving(k) && (tx == old(tx) || fresh(tx))
        invariant old(app.sent) <= app.sent
        invariant writeBuf.readTmp == old(writeBuf.readTmp) || fresh(writeBuf.readTmp)
        invariant |writeBuf.Contents()| >= |old(writeBuf.Contents())|
        invariant b == TooSmall <==> (Max(wr, rd) + 4) * w > tx.Length
        invariant b == TooSmall ==> app.script == script && Free(writeBuf) == free
        invariant b != TooSmall ==>
                    && Prepared(b, wr, rd, k) && (b == PeekFailed <==> 0 < wr && BrimsAt(script, free, 0))
                    && app.Fed(writeBuf, script, free, if wr == 0 then 0 else 1)
        decreases (Max(wr, rd) + 4) * w - tx.Length
      {
        tx := new byte[GrowBuf(tx.Length)](_ => 0);
        b := BuildJtagReq(wr, rd, k);
      }
    }

    /** Read the tail of a response, drop what was accepted from the write buffer, and store what
        was delivered. The results of the two buffer operations are not looked at: the second one
        always succeeds, the first one is refused exactly if something was accepted and the
        application fills the write buffer to the brim during the look. */
    method ParseJtagResp(resp: seq<byte>, ghost k: nat, ghost acked: nat, ghost read: nat)
      returns (ackedWords: nat, readWords: nat, refused: bool)
      requires Valid() && 4 * w <= |resp| && acked < Limit(w) && read < Limit(w)
      requires acked * w <= |resp| - 4 * w && read * w <= |resp| - 4 * w
      requires EndsWithCounts(resp, acked, read, w)
      requires app.Left(writeBuf, k) && acked * w <= |writeBuf.Contents()|
      requires read * w <= readBuf.size - |readBuf.Contents()|
      requires target.delivered == sink.Accepted(readBuf) + resp[2 * w..2 * w + read * w]
      modifies writeBuf`wrPtr, writeBuf`rdPtr, writeBuf`reserved, writeBuf.data, app
      modifies readBuf`wrPtr, readBuf`rdPtr, readBuf`reserved, readBuf.data, sink
      ensures Valid() && old(app.sent) <= app.sent && ackedWords == acked && readWords == read
      ensures refused <==> 0 < acked && BrimsAt(old(app.script), old(Free(writeBuf)), 0)
      ensures app.script == Rest(old(app.script), 1)
      ensures Serving(if refused then k else k + acked * w)
      ensures Free(writeBuf) == FreeAfter(old(app.script), old(Free(writeBuf)), 1)
                                + (if refused then 0 else acked * w)
      ensures sink.script == Rest(old(sink.script), 1)
      ensures |readBuf.Contents()| == LevelAfter(old(sink.script), old(|readBuf.Contents()|), 1) + read * w
    {
      hide Cbuf.Contents, Cbuf.Valid, CopyToWord, CopyFromWord, Limit, Rest, FreeAfter, BrimsAt, LevelAfter;
      WordRoundTripIff(acked, w);
      WordRoundTripIff(read, w);
      PositiveWords(acked, w);
      ackedWords := CopyFromWord(resp[|resp| - 2 * w..|resp| - w], w);
      readWords := CopyFromWord(resp[|resp| - w..], w);
      var rv := ContendedDiscard(writeBuf, app, k, ackedWords * w);
      refused := rv != Success;
      var ignored := ContendedWrite(readBuf, sink, resp[2 * w..2 * w + readWords * w]);
    }

    /** Can the counts of a transfer always be told through its head? */
    predicate CountsFitHead()
      reads this
    {
      w in {2, 3, 4} || wanted < Limit(w)
    }

    lemma HeadOfRequest(wr: nat, rd: nat, data: seq<byte>, size: nat)
      requires 0 < w && 2 * w + |data| <= size && wr < Limit(w) && rd < Limit(w)
      ensures Head(RequestBytes(wr, rd, data, size, w), w) == (wr, rd)
    {
      hide CopyToWord, CopyFromWord, Limit;
      WordRoundTripIff(wr, w);
      WordRoundTripIff(rd, w);
      var bs := RequestBytes(wr, rd, data, size, w);
      assert bs[..w] == CopyToWord(wr, w) && bs[w..2 * w] == CopyToWord(rd, w);
    }

    lemma CountsAreSmall(wr: nat, rd: nat)
      requires CountsFitHead() && Max(wr, rd) <= wanted
      requires wr * w <= BUFFER_SIZE && rd * w <= BUFFER_SIZE
      ensures wr < Limit(w) && rd < Limit(w)
    {
      if w in {2, 3, 4} {
        CountsFit(w, wr);
        CountsFit(w, rd);
      }
    }

    /** Build the next request. The application has had four turns, or three if nothing is sent. */
    method Prepare(ghost k: nat) returns (wr: nat, rd: nat, b: Build)
      requires Valid() && Serving(k) && CountsFitHead()
      modifies writeBuf`wrPtr, writeBuf`reserved, writeBuf.data, writeBuf`readTmp, writeBuf.readTmp
      modifies readBuf`rdPtr, app, sink, tx, this`tx
      ensures Valid() && Serving(k) && old(app.sent) <= app.sent
      ensures tx == old(tx) || fresh(tx)
      ensures writeBuf.readTmp == old(writeBuf.readTmp) || fresh(writeBuf.readTmp)
      ensures b != TooSmall && Prepared(b, wr, rd, k)
      ensures wr * w <= |writeBuf.Contents()| && rd * w <= readBuf.size - |readBuf.Contents()|
      ensures wr < Limit(w) && rd < Limit(w) && k <= |app.sent|
      ensures wr == WordsToSend(old(app.script), old(Free(writeBuf)), w, wanted)
      ensures rd == WordsToGet(old(sink.script), old(|readBuf.Contents()|), w, wanted)
      ensures sink.Drained(readBuf, old(sink.script), old(|readBuf.Contents()|), 3)
      ensures b == PeekFailed <==> 0 < wr && BrimsAt(old(app.script), old(Free(writeBuf)), 3)
      ensures app.Fed(writeBuf, old(app.script), old(Free(writeBuf)), if wr == 0 then 3 else 4)
    {
      hide Cbuf.Contents, Cbuf.Valid, Limit, Prepared, Drainer.Accepted, CountsFitHead;
      hide Rest, FreeAfter, BrimsAt, LevelAfter;
      ghost var script, free := app.script, Free(writeBuf);
      DrainFurther(sink.script, |readBuf.Contents()|, 1, 1);
      DrainFurther(sink.script, |readBuf.Contents()|, 2, 1);
      FeedFurther(script, free, 1, 0);
      FeedFurther(script, free, 1, 1);
      FeedFurther(script, free, 2, 1);
      FeedFurther(script, free, 3, 0);
      FeedFurther(script, free, 3, 1);
      Turns(k);
      wr, rd := CalcPayloadLen(k);
      CountsAreSmall(wr, rd);
      Turns(k);
      b := BuildWithGrowth(wr, rd, k);
    }

    /** Hand the prepared request to the target. */
    method ScanRequest(wr: nat, rd: nat, size: nat, ghost data: seq<byte>)
      returns (resp: seq<byte>, ghost acked: nat, ghost read: nat, ghost taken: nat, ghost given: nat)
      requires 0 < w == target.w && wr < Limit(w) && rd < Limit(w)
      requires 2 * w + |data| <= size <= tx.Length && tx[..size] == RequestBytes(wr, rd, data, size, w)
      requires |data| == wr * w && size == (Max(wr, rd) + 4) * w
      modifies target
      ensures 4 * w <= size == |resp| && acked == Accept(old(target.accepts), wr) && read <= rd
      ensures target.accepts == Tail(old(target.accepts)) && target.gives == Tail(old(target.gives))
      ensures acked < Limit(w) && read < Limit(w)
      ensures |target.waiting| + given == |old(target.waiting)|
      ensures taken <= |data| && taken + 4 * w <= |resp| && given + 4 * w <= |resp|
      ensures EndsWithCounts(resp, acked, read, w)
      ensures target.received == old(target.received) + data[..taken]
      ensures target.delivered == old(target.delivered) + resp[2 * w..2 * w + given]
      ensures target.delivered + target.waiting == old(target.delivered + target.waiting)
      ensures taken == acked * w && given == read * w <= rd * w
      ensures read == Give(old(target.gives), rd, old(target.Ready()))
    {
      hide Limit, RequestBytes, Head, CopyToWord;
      HeadOfRequest(wr, rd, data, size);
      PartOfTransfer(0, Max(wr, rd), w);
      resp, acked, read := target.Scan(tx[..size]);
      PartOfTransfer(acked, wr, w);
      PartOfTransfer(read, rd, w);
      taken, given := acked * w, read * w;
      AcceptedBytes(wr, rd, data, size, taken);
    }

    /** Exchange the prepared request, and deal with the response. The application has two turns. */
    method Exchange(wr: nat, rd: nat, size: nat, ghost k: nat)
      returns (ackedWords: nat, readWords: nat, refused: bool, ghost end: nat)
      requires Valid() && Serving(k) && Prepared(Built(size), wr, rd, k)
      requires wr * w <= |writeBuf.Contents()| && rd * w <= readBuf.size - |readBuf.Contents()|
      requires wr < Limit(w) && rd < Limit(w)
      modifies writeBuf`wrPtr, writeBuf`rdPtr, writeBuf`reserved, writeBuf.data, app
      modifies readBuf`wrPtr, readBuf`rdPtr, readBuf`reserved, readBuf.data, sink, target
      ensures Valid() && old(app.sent) <= app.sent
      ensures ackedWords == Accept(old(target.accepts), wr)
      ensures target.accepts == Tail(old(target.accepts)) && target.gives == Tail(old(target.gives))
      ensures |target.waiting| + readWords * w == |old(target.waiting)|
      ensures sink.script == Rest(old(sink.script), 2)
      ensures |readBuf.Contents()|
           == LevelAfter(old(sink.script), old(|readBuf.Contents()|), 2) + readWords * w
      ensures refused <==> 0 < ackedWords && BrimsAt(old(app.script), old(Free(writeBuf)), 1)
      ensures app.script == Rest(old(app.script), 2)
      ensures target.delivered + target.waiting == old(target.delivered + target.waiting)
      ensures k <= end <= |app.sent| && end == k + ackedWords * w
      ensures target.received == old(target.received) + app.sent[k..end]
      ensures Serving(if refused then k else end)
      ensures Free(writeBuf) == FreeAfter(old(app.script), old(Free(writeBuf)), 2)
                                + (if refused then 0 else end - k)
      ensures readWords == Give(old(target.gives), rd, old(target.Ready()))
    {
      hide Cbuf.Contents, Cbuf.Valid, Limit, RequestBytes, Head, CopyToWord;
      hide Feeder.Left, Drainer.Accepted, Rest, FreeAfter, BrimsAt, LevelAfter;
      DrainFurther(sink.script, |readBuf.Contents()|, 1, 1);
      FeedFurther(app.script, Free(writeBuf), 1, 0);
      FeedFurther(app.script, Free(writeBuf), 1, 1);
      ghost var data := app.sent[k..k + wr * w];
      var resp;
      ghost var acked, read, taken, given;
      resp, acked, read, taken, given := ScanRequest(wr, rd, size, data);
      end := k + taken;
      assert data[..taken] == app.sent[k..end];
      Turns(k);
      ackedWords, readWords, refused := ParseJtagResp(resp, k, acked, read);
    }

    lemma AcceptedBytes(wr: nat, rd: nat, data: seq<byte>, size: nat, n: nat)
      requires 0 < w && 2 * w + |data| <= size && n <= |data|
      ensures RequestBytes(wr, rd, data, size, w)[2 * w..2 * w + n] == data[..n]
    {
    }

    /** The situation in which a transfer starts. */
    ghost function Situated(k: nat, turns: nat): Situation
      requires Valid()
      reads this, writeBuf, writeBuf.data, readBuf, readBuf.data, app, sink, target
    {
      Situation(k, turns, app.script, Free(writeBuf), sink.script, |readBuf.Contents()|, wanted,
                target.accepts, target.gives, |target.waiting|)
    }

    /** One transfer. The target gets a piece of what the application wrote. The bytes leave the
        write buffer unless the discard is refused; bytes delivered by the target are stored in any
        case. What happens, and the situation afterwards, is determined by the situation at the
        start. */
    method PollOnce(ghost k: nat, ghost turns: nat)
      returns (alive: bool, ghost k': nat, ghost turns': nat)
      requires Valid() && Serving(k) && CountsFitHead()
      modifies this, writeBuf, writeBuf.data, writeBuf.readTmp, readBuf, readBuf.data
      modifies app, sink, target, tx
      ensures Valid() && old(app.sent) <= app.sent && Serving(k')
      ensures tx == old(tx) || fresh(tx)
      ensures writeBuf.readTmp == old(writeBuf.readTmp) || fresh(writeBuf.readTmp)
      ensures target.delivered + target.waiting == old(target.delivered + target.waiting)
      ensures var t := old(Situated(k, turns));
              && alive == t.Alive(w)
              && t.Leads(Situated(k', turns'), w, minWanted, bound)
              && t.End(w) <= |app.sent|
              && target.received == old(target.received) + app.sent[k..t.End(w)]
      ensures alive || wanted == old(wanted)
    {
      hide Cbuf.Contents, Cbuf.Valid, Limit, Prepared, Rest, FreeAfter, BrimsAt, WordsToSend;
      hide Serving, CountsFitHead, Accept, LevelAfter, WordsToGet;
      ghost var t := Situated(k, turns);
      var wr, rd, b := Prepare(k);
      if b == PeekFailed {
        assert target.received + app.sent[k..k] == target.received by { assert k <= |app.sent|; }
        return false, k, turns + 4;
      }
      alive := true;
      k' := Complete(wr, rd, b.size, k, t);
      turns' := turns + t.Turns(w);
    }

    /** The second half of a transfer. */
    method Complete(wr: nat, rd: nat, size: nat, ghost k: nat, ghost t: Situation)
      returns (ghost k': nat)
      requires Valid() && Serving(k) && Prepared(Built(size), wr, rd, k)
      requires wr * w <= |writeBuf.Contents()| && rd * w <= readBuf.size - |readBuf.Contents()|
      requires wr < Limit(w) && rd < Limit(w)
      requires t.start == k && t.free <= BUFFER_SIZE && t.level <= BUFFER_SIZE && t.wanted == wanted
      requires t.accepts == target.accepts && t.gives == target.gives && t.waiting == |target.waiting|
      requires rd == WordsToGet(t.drain, t.level, w, t.wanted)
      requires sink.Drained(readBuf, t.drain, t.level, 3)
      requires wr == WordsToSend(t.script, t.free, w, t.wanted)
      requires !(0 < wr && BrimsAt(t.script, t.free, 3))
      requires app.Fed(writeBuf, t.script, t.free, if wr == 0 then 3 else 4)
      modifies writeBuf`wrPtr, writeBuf`rdPtr, writeBuf`reserved, writeBuf.data, app, this`wanted
      modifies readBuf`wrPtr, readBuf`rdPtr, readBuf`reserved, readBuf.data, sink, target
      ensures Valid() && old(app.sent) <= app.sent && Serving(k')
      ensures target.delivered + target.waiting == old(target.delivered + target.waiting)
      ensures t.Alive(w) && t.End(w) <= |app.sent|
      ensures t.Leads(Situated(k', t.turns + t.Turns(w)), w, minWanted, bound)
      ensures target.received == old(target.received) + app.sent[k..t.End(w)]
    {
      hide Cbuf.Contents, Cbuf.Valid, Limit, Prepared, Rest, FreeAfter, BrimsAt, WordsToSend;
      hide Adjust, Serving, Situation.Alive, Situation.End, Situation.Next, Situation.Turns, LevelAfter;
      hide WordsToGet, Situation.Given, Situation.Asked, Situation.WantedNext, Situation.ReadTurns;
      DrainFurther(t.drain, t.level, 3, 2);
      ghost var end;
      var acked, read, refused;
      ghost var turns := if wr == 0 then 3 else 4;
      FeedFurther(t.script, t.free, turns, 1);
      FeedFurther(t.script, t.free, turns, 2);
      acked, read, refused, end := Exchange(wr, rd, size, k);
      Resolved(t, w, wr, acked, refused);
      ReadResolved(t, w, wr, rd, acked, read, minWanted, bound);
      k' := if refused then k else end;
      wanted := Adjust(wanted, minWanted, bound, acked, wr, read, rd);
    }

    /** Any number of transfers, until a peek fails. Every byte the target delivers has been read or
        is in the read buffer, exactly once and in order, whatever happens in the other direction.
        There, the target receives the pieces listed in `log`, one per transfer: each starts with the
        oldest byte in the write buffer, so a piece whose discard is refused is sent again. The first
        situation is that of the call, each leads to the next, and the last one to the situation in
        the end. What was received is what left the write buffer if and only if no discard was
        refused. */
    method PollThread(rounds: nat, ghost k0: nat)
      returns (ghost k: nat, ghost log: seq<Situation>, ghost turns: nat)
      requires Valid() && Serving(k0) && CountsFitHead()
      requires w in {2, 3, 4} || (w == 1 && bound == 254 && minWanted < 256)
      modifies this, writeBuf, writeBuf.data, writeBuf.readTmp, readBuf, readBuf.data
      modifies app, sink, target, tx
      ensures Valid() && Serving(k) && old(app.sent) <= app.sent
      ensures target.delivered + target.waiting == old(target.delivered + target.waiting)
      ensures Linked(log, w, minWanted, bound, old(Situated(k0, 0)), Situated(k, turns))
      ensures EndsWithin(log, w, |app.sent|)
      ensures target.received == old(target.received) + Pieces(app.sent, log, w)
      ensures k0 <= k <= |app.sent|
      ensures target.received == old(target.received) + app.sent[k0..k]
         <==> forall t :: t in log ==> !t.Refused(w)
      ensures |log| <= rounds && forall i :: 0 <= i < |log| - 1 ==> log[i].Alive(w)
      ensures |log| < rounds ==> log != [] && !log[|log| - 1].Alive(w)
    {
      hide Cbuf.Contents, Cbuf.Valid, Serving, Rest, Situation.Alive, Situation.End, Situation.Leads;
      hide Situation.Refused, FreeAfter, BrimsAt, Linked, EndsWithin, Pieces;
      k, log, turns := k0, [], 0;
      ServedBytes(k0);
      ghost var first := Situated(k0, 0);
      StartOfLog(first, w, minWanted, bound, app.sent, target.received);
      var alive, i := true, 0;
      while i < rounds && alive
        invariant Valid() && Serving(k) && old(app.sent) <= app.sent && CountsFitHead()
        invariant tx == old(tx) || fresh(tx)
        invariant writeBuf.readTmp == old(writeBuf.readTmp) || fresh(writeBuf.readTmp)
        invariant target.delivered + target.waiting == old(target.delivered + target.waiting)
        invariant Linked(log, w, minWanted, bound, first, Situated(k, turns))
        invariant EndsWithin(log, w, |app.sent|)
        invariant target.received == old(target.received) + Pieces(app.sent, log, w)
        invariant 0 <= i == |log| <= rounds
        invariant forall j :: 0 <= j < |log| - 1 ==> log[j].Alive(w)
        invariant if alive then log != [] ==> log[|log| - 1].Alive(w)
                  else log != [] && !log[|log| - 1].Alive(w)
      {
        ghost var t, before := Situated(k, turns), app.sent;
        alive, k, turns := PollOnce(k, turns);
        WantedFits(t, Situated(k, turns));
        OnePieceMore(before, app.sent, log, w, minWanted, bound, first, t, Situated(k, turns),
                     old(target.received));
        log := log + [t];
        i := i + 1;
      }
      ServedBytes(k);
      ExactIffNoneRefused(app.sent, log, w, minWanted, bound, first, Situated(k, turns),
                          old(target.received));
    }

    /** The number of words wanted keeps within what the head of a request can tell. */
    lemma WantedFits(t: Situation, t': Situation)
      requires t.Leads(t', w, minWanted, bound) && wanted == t'.wanted
      requires w in {2, 3, 4} || (w == 1 && bound == 254 && minWanted < 256 && t.wanted < Limit(w))
      ensures CountsFitHead()
    {
      assert Pow256(1) == 256 * Pow256(0);
    }

    lemma ServedBytes(k: nat)
      requires Valid() && Serving(k)
      ensures k <= |app.sent|
    {
    }
  }

  // The pieces sent in a number of transfers.

  /** The situations of a run, from the first one to that in the end. */
  predicate Linked(log: seq<Situation>, w: nat, minWanted: nat, bound: int, first: Situation, end: Situation) {
    if log == [] then end == first
    else
      var t := log[|log| - 1];
      t.Leads(end, w, minWanted, bound) && Linked(log[..|log| - 1], w, minWanted, bound, first, t)
  }

  predicate EndsWithin(log: seq<Situation>, w: nat, n: nat) {
    forall i :: 0 <= i < |log| ==> log[i].End(w) <= n
  }

  function Pieces(sent: seq<byte>, log: seq<Situation>, w: nat): seq<byte>
    requires EndsWithin(log, w, |sent|)
  {
    if log == [] then []
    else
      var t := log[|log| - 1];
      Pieces(sent, log[..|log| - 1], w) + sent[t.start..t.End(w)]
  }

  lemma StartOfLog(first: Situation, w: nat, minWanted: nat, bound: int, sent: seq<byte>, received: seq<byte>)
    ensures Linked([], w, minWanted, bound, first, first) && EndsWithin([], w, |sent|)
    ensures received + Pieces(sent, [], w) == received
  {
  }

  lemma {:induction false} PiecesStay(before: seq<byte>, after: seq<byte>, log: seq<Situation>, w: nat)
    requires before <= after && EndsWithin(log, w, |before|)
    ensures EndsWithin(log, w, |after|) && Pieces(after, log, w) == Pieces(before, log, w)
  {
    hide Situation.End;
    if log != [] {
      var t := log[|log| - 1];
      PiecesStay(before, after, log[..|log| - 1], w);
      assert before[t.start..t.End(w)] == after[t.start..t.End(w)];
    }
  }

  lemma OnePieceMore(before: seq<byte>, after: seq<byte>, log: seq<Situation>, w: nat, minWanted: nat,
                     bound: int, first: Situation, t: Situation, end: Situation, received: seq<byte>)
    requires before <= after && EndsWithin(log, w, |before|) && t.End(w) <= |after|
    requires Linked(log, w, minWanted, bound, first, t) && t.Leads(end, w, minWanted, bound)
    ensures EndsWithin(log, w, |after|) && EndsWithin(log + [t], w, |after|)
    ensures Linked(log + [t], w, minWanted, bound, first, end)
    ensures received + Pieces(after, log + [t], w)
         == received + Pieces(before, log, w) + after[t.start..t.End(w)]
  {
    hide Situation.End, Situation.Leads;
    PiecesStay(before, after, log, w);
    assert (log + [t])[..|log|] == log;
    Associative(received, Pieces(before, log, w), after[t.start..t.End(w)]);
  }

  /** The pieces are the stretch that left the write buffer if no discard was refused, and longer
      than it otherwise. */
  lemma {:induction false} PiecesAreLonger(sent: seq<byte>, log: seq<Situation>, w: nat, minWanted: nat,
                                           bound: int, first: Situation, end: Situation)
    requires 0 < w && Linked(log, w, minWanted, bound, first, end)
    requires EndsWithin(log, w, |sent|) && first.start <= |sent|
    ensures first.start <= end.start <= |sent|
    ensures |Pieces(sent, log, w)| >= end.start - first.start
    ensures if forall t :: t in log ==> !t.Refused(w)
            then Pieces(sent, log, w) == sent[first.start..end.start]
            else |Pieces(sent, log, w)| > end.start - first.start
  {
    hide Situation.Refused, Situation.Leads, Situation.Next, Situation.End;
    if log != [] {
      var front, t := log[..|log| - 1], log[|log| - 1];
      PiecesAreLonger(sent, front, w, minWanted, bound, first, t);
      NextStarts(t, end, w, minWanted, bound);
      assert forall x :: x in log <==> x in front || x == t;
      RefusedIsSentAgain(t, w);
      assert sent[first.start..t.start] + sent[t.start..t.End(w)] == sent[first.start..t.End(w)];
    }
  }

  lemma NextStarts(t: Situation, t': Situation, w: nat, minWanted: nat, bound: int)
    requires t.Leads(t', w, minWanted, bound)
    ensures t'.start == t.Next(w)
  {
  }

  lemma RefusedIsSentAgain(t: Situation, w: nat)
    requires 0 < w
    ensures if t.Refused(w) then t.Next(w) == t.start < t.End(w) else t.Next(w) == t.End(w)
  {
    PositiveWords(t.Acked(w), w);
  }

  lemma ExactIffNoneRefused(sent: seq<byte>, log: seq<Situation>, w: nat, minWanted: nat, bound: int,
                            first: Situation, end: Situation, received: seq<byte>)
    requires 0 < w && Linked(log, w, minWanted, bound, first, end)
    requires EndsWithin(log, w, |sent|) && first.start <= |sent|
    ensures first.start <= end.start <= |sent|
    ensures received + Pieces(sent, log, w) == received + sent[first.start..end.start]
       <==> forall t :: t in log ==> !t.Refused(w)
  {
    hide Situation.Refused;
    PiecesAreLonger(sent, log, w, minWanted, bound, first, end);
    if received + Pieces(sent, log, w) == received + sent[first.start..end.start] {
      assert |received + Pieces(sent, log, w)| == |received| + (end.start - first.start);
    }
  }

  lemma ReadResolved(t: Situation, w: nat, wr: nat, rd: nat, acked: nat, read: nat, minWanted: nat,
                     bound: int)
    requires 0 < w && t.Alive(w) && t.level <= BUFFER_SIZE && wr == WordsToSend(t.script, t.free, w, t.wanted)
    requires rd == WordsToGet(t.drain, t.level, w, t.wanted) && acked == Accept(t.accepts, wr)
    requires read == Give(t.gives, rd, t.waiting / w)
    ensures t.Given(w) == read && t.ReadTurns(w) == 5
    ensures t.WantedNext(w, minWanted, bound) == Adjust(t.wanted, minWanted, bound, acked, wr, read, rd)
  {
    hide WordsToSend, WordsToGet, Adjust, Situation.Alive, Accept;
  }

  /** What the situation at the start of a transfer says, once its words are counted. */
  lemma Resolved(t: Situation, w: nat, wr: nat, acked: nat, refused: bool)
    requires 0 < w && t.free <= BUFFER_SIZE && wr == WordsToSend(t.script, t.free, w, t.wanted)
    requires !(0 < wr && BrimsAt(t.script, t.free, 3)) && acked == Accept(t.accepts, wr)
    requires refused <==> 0 < acked && BrimsAt(t.script, t.free, 5)
    ensures t.Alive(w) && t.End(w) == t.start + acked * w
    ensures t.Next(w) == (if refused then t.start else t.End(w)) && (t.Refused(w) <==> refused)
    ensures t.Turns(w) == if wr == 0 then 5 else 6
  {
    hide WordsToSend, BrimsAt;
  }

  // What the target delivers.

  /** With the reading application at rest and a target that keeps nothing back, a transfer that takes
      place delivers as many whole words as are waiting, as are wanted, and as there is room for. */
  lemma RestingTransferDelivers(t: Situation, w: nat)
    requires t.Alive(w) && t.level <= BUFFER_SIZE && t.drain == [] && t.gives == []
    ensures t.Given(w) == Min(Min((BUFFER_SIZE - t.level) / w, t.wanted), t.waiting / w)
  {
    DrainingShrinks([], t.level, 1);
    DrainingShrinks([], t.level, 2);
  }

  /** With the writing application at rest no transfer fails and no discard is refused, and the target
      accepts what it will of all words there are, up to those wanted. */
  lemma RestingTransferSends(t: Situation, w: nat)
    requires 0 < w && t.free <= BUFFER_SIZE && t.script == []
    ensures t.Alive(w) && !t.Refused(w)
    ensures t.Acked(w) == Accept(t.accepts, Min((BUFFER_SIZE - t.free) / w, t.wanted))
  {
    NothingToFeed([], t.free, 1);
    NothingToFeed([], t.free, 2);
    NothingToFeed([], t.free, 3);
    NothingToFeed([], t.free, 5);
  }

  // How often a byte is sent.

  /** A transfer that starts with a full write buffer cannot fail, and its discard is not refused. */
  lemma FullBufferIsServed(t: Situation, w: nat)
    requires 0 < w && t.free == 0
    ensures t.Alive(w) && !t.Refused(w)
    ensures t.Acked(w) == Accept(t.accepts, Min(BUFFER_SIZE / w, t.wanted))
  {
    NothingToFeed(t.script, 0, 1);
    NothingToFeed(t.script, 0, 2);
    NothingToFeed(t.script, 0, 3);
    NothingToFeed(t.script, 0, 5);
  }

  /** A refused discard leaves a full write buffer behind: two in a row are never refused. */
  lemma RefusalsAreApart(t: Situation, t': Situation, w: nat, minWanted: nat, bound: int)
    requires t.Leads(t', w, minWanted, bound) && t.Refused(w)
    ensures t'.free == 0 < t.free && t'.start == t.start && !t'.Refused(w) && t'.Alive(w)
  {
    FeedingShrinks(t.script, t.free, 5);
    FullBufferIsServed(t', w);
  }

  /** How often the target accepts byte number `at`. */
  function Copies(log: seq<Situation>, w: nat, at: nat): nat {
    if log == [] then 0
    else
      var t := log[|log| - 1];
      Copies(log[..|log| - 1], w, at) + if t.start <= at < t.End(w) then 1 else 0
  }

  /** How often it does so in a transfer whose discard is refused. */
  function Resent(log: seq<Situation>, w: nat, at: nat): nat {
    if log == [] then 0
    else
      var t := log[|log| - 1];
      Resent(log[..|log| - 1], w, at) + if t.Refused(w) && t.start <= at < t.End(w) then 1 else 0
  }

  /** Nothing is lost: the target accepts every byte that left the write buffer exactly once more
      than in transfers whose discard is refused, and the others only in those. */
  lemma {:induction false} EveryByteArrives(log: seq<Situation>, w: nat, minWanted: nat, bound: int,
                                            first: Situation, end: Situation, at: nat)
    requires 0 < w && Linked(log, w, minWanted, bound, first, end) && first.start <= at
    ensures Copies(log, w, at) == Resent(log, w, at) + if at < end.start then 1 else 0
    ensures first.start <= end.start
  {
    hide Situation.Refused, Situation.Leads, Situation.Next, Situation.End;
    if log != [] {
      var t := log[|log| - 1];
      EveryByteArrives(log[..|log| - 1], w, minWanted, bound, first, t, at);
      NextStarts(t, end, w, minWanted, bound);
      RefusedIsSentAgain(t, w);
    }
  }

  /** Between two transfers that are refused at least one word leaves the write buffer. So a byte is
      accepted in at most as many of them as there are words in a transfer. */
  lemma ResentAtMost(log: seq<Situation>, w: nat, minWanted: nat, bound: int, first: Situation,
                     end: Situation, at: nat, m: nat)
    requires Linked(log, w, minWanted, bound, first, end) && first.wanted <= m
    requires Min(Max(minWanted, bound), MAX_PAYLOAD_WORDS) <= m
    ensures Resent(log, w, at) <= m
  {
    var s := ResentSince(log, w, minWanted, bound, first, end, at, m);
    var n := Resent(log, w, at);
    if n > m {
      MultiplesGrow(m, n - 1, w);
    }
  }

  /** `s` is where the first refused transfer that contains byte `at` starts. */
  lemma {:induction false} ResentSince(log: seq<Situation>, w: nat, minWanted: nat, bound: int,
                                       first: Situation, end: Situation, at: nat, m: nat)
    returns (s: nat)
    requires Linked(log, w, minWanted, bound, first, end) && first.wanted <= m
    requires Min(Max(minWanted, bound), MAX_PAYLOAD_WORDS) <= m
    ensures end.wanted <= m
    ensures var n := Resent(log, w, at);
            n > 0 ==>
              && s + (n - 1) * w <= at < s + m * w && s + (n - 1) * w <= end.start
              && (end.free > 0 ==> s + n * w <= end.start)
    decreases |log|
  {
    hide Situation.Refused, Situation.Leads, Situation.Next, Situation.End;
    s := 0;
    if log != [] {
      var t := log[|log| - 1];
      s := ResentSince(log[..|log| - 1], w, minWanted, bound, first, t, at, m);
      var n := Resent(log[..|log| - 1], w, at);
      NextMultiple(n as int - 1, w);
      LeadsOn(t, end, w, minWanted, bound);
      PartOfTransfer(t.Acked(w), m, w);
      if n == 0 {
        s := t.start;
      }
    }
  }

  /** What a transfer does to the oldest byte in the write buffer and to the free space. */
  lemma LeadsOn(t: Situation, t': Situation, w: nat, minWanted: nat, bound: int)
    requires t.Leads(t', w, minWanted, bound)
    ensures t.Acked(w) <= t.wanted && t.End(w) == t.start + t.Acked(w) * w
    ensures t'.wanted <= Max(Min(Max(minWanted, bound), MAX_PAYLOAD_WORDS), t.wanted)
    ensures if t.Refused(w) then t'.start == t.start && t'.free == 0 < t.free
            else t'.start == t.End(w) && (t'.free > 0 && t.free == 0 ==> t'.start >= t.start + w)
  {
    hide BrimsAt, FreeAfter, Rest;
    FeedingShrinks(t.script, t.free, 5);
    FeedingShrinks(t.script, t.free, 4);
    FeedingShrinks(t.script, t.free, 3);
    if t.Acked(w) > 0 {
      PartOfTransfer(1, t.Acked(w), w);
    }
  }

  // A family of runs that shows that the bound is reached.

  /** Turns without effect before some others. */
  function Idle(i: nat, rest: seq<seq<byte>>): (script: seq<seq<byte>>)
    ensures i > 0 ==> script != []
  {
    if i == 0 then rest else [[]] + Idle(i - 1, rest)
  }

  lemma {:induction false} IdleTurns(i: nat, rest: seq<seq<byte>>, free: nat, t: nat)
    ensures t < i ==> !BrimsAt(Idle(i, rest), free, t)
    ensures t <= i ==> FreeAfter(Idle(i, rest), free, t) == free
    ensures Rest(Idle(i, rest), i) == rest
  {
    if i > 0 {
      var script := Idle(i, rest);
      assert script[1..] == Idle(i - 1, rest);
      IdleTurns(i - 1, rest, free, if t == 0 then 0 else t - 1);
      assert Rest(script, i) == Rest(script[1..], i - 1);
    }
  }

  /** The application's turns in a transfer whose discard is refused. */
  function Refusing(begin: seq<byte>, end: seq<byte>, rest: seq<seq<byte>>): seq<seq<byte>> {
    [begin] + Idle(4, [end] + rest)
  }

  lemma RefusingTurns(begin: seq<byte>, end: seq<byte>, rest: seq<seq<byte>>, free: nat)
    requires 0 < |end| && free == |begin| + |end|
    ensures var script := Refusing(begin, end, rest);
            && !BrimsAt(script, free, 1) && !BrimsAt(script, free, 3) && BrimsAt(script, free, 5)
            && FreeAfter(script, free, 2) == |end| && FreeAfter(script, free, 6) == 0
            && Rest(script, 6) == rest
  {
    var script, tail := Refusing(begin, end, rest), [end] + rest;
    var idle := Idle(4, tail);
    assert script[1..] == idle && FreeNext(free, begin) == |end|;
    IdleTurns(4, tail, |end|, 0);
    IdleTurns(4, tail, |end|, 1);
    IdleTurns(4, tail, |end|, 2);
    IdleTurns(4, tail, |end|, 4);
    FeedFurther(idle, |end|, 4, 0);
    FeedFurther(idle, |end|, 4, 1);
    FeedingShrinks(idle, |end|, 4);
    assert Rest(script, 6) == Rest(idle, 5);
    assert tail[1..] == rest && Rest(tail, 1) == rest;
  }

  /** In the run, word `i` of the first `n` is removed after two transfers: the first one accepts all
      words from it on, and the application, having left two bytes free, fills the buffer in its last
      turn; the second one accepts one word. */
  function ManyScript(n: nat, i: nat): seq<seq<byte>>
    requires i <= n <= MAX_PAYLOAD_WORDS
    decreases n - i
  {
    if i == n then []
    else Refusing(if i == 0 then Zeros(2 * n) else [], Zeros(if i == 0 then BUFFER_SIZE - 2 * n else 2),
                  Idle(6, ManyScript(n, i + 1)))
  }

  function ManyAccepts(n: nat, i: nat): seq<nat>
    requires i <= n
    decreases n - i
  {
    if i == n then [] else [n - i, 1] + ManyAccepts(n, i + 1)
  }

  /** The situation after `2 * i` transfers, and that after one more. */
  function ManyEven(n: nat, i: nat): Situation
    requires i <= n <= MAX_PAYLOAD_WORDS
  {
    Situation(2 * i, 12 * i, ManyScript(n, i), if i == 0 then BUFFER_SIZE else 2, [], 0,
              MAX_PAYLOAD_WORDS, ManyAccepts(n, i), [], 0)
  }

  function ManyOdd(n: nat, i: nat): Situation
    requires i < n <= MAX_PAYLOAD_WORDS
  {
    Situation(2 * i, 12 * i + 6, Idle(6, ManyScript(n, i + 1)), 0, [], 0, MAX_PAYLOAD_WORDS,
              [1] + ManyAccepts(n, i + 1), [], 0)
  }

  /** Nothing waits, and nothing is read. */
  lemma NothingRead(t: Situation, t': Situation)
    requires t.Leads(t', 2, MAX_PAYLOAD_WORDS, 65534) && t.Alive(2) && t.wanted == MAX_PAYLOAD_WORDS
    requires t.drain == [] && t.level == 0 && t.waiting == 0 && t.gives == []
    ensures t'.drain == [] && t'.level == 0 && t'.waiting == 0 && t'.gives == []
    ensures t'.wanted == MAX_PAYLOAD_WORDS
  {
    DrainingShrinks([], 0, 5);
    AdjustStaysBetween(t.wanted, MAX_PAYLOAD_WORDS, 65534, t.Acked(2),
                       WordsToSend(t.script, t.free, 2, t.wanted), t.Given(2), t.Asked(2));
  }

  lemma ManyEvenLeads(n: nat, i: nat, t': Situation)
    requires i < n <= MAX_PAYLOAD_WORDS
    requires ManyEven(n, i).Leads(t', 2, MAX_PAYLOAD_WORDS, 65534)
    ensures var t := ManyEven(n, i);
            t' == ManyOdd(n, i) && t.Alive(2) && t.Refused(2) && t.End(2) == 2 * n
  {
    hide BrimsAt, FreeAfter, Rest, Refusing, Idle;
    var t := ManyEven(n, i);
    var begin, end := if i == 0 then Zeros(2 * n) else [], Zeros(if i == 0 then BUFFER_SIZE - 2 * n else 2);
    RefusingTurns(begin, end, Idle(6, ManyScript(n, i + 1)), t.free);
    var fill := BUFFER_SIZE - |end|;
    assert WordsToSend(t.script, t.free, 2, t.wanted) == Min(fill / 2, MAX_PAYLOAD_WORDS) >= n - i;
    NothingRead(t, t');
    assert t.accepts[0] == n - i && t.accepts[1..] == [1] + ManyAccepts(n, i + 1);
  }

  lemma ManyOddLeads(n: nat, i: nat, t': Situation)
    requires i < n <= MAX_PAYLOAD_WORDS
    requires ManyOdd(n, i).Leads(t', 2, MAX_PAYLOAD_WORDS, 65534)
    ensures var t := ManyOdd(n, i);
            t' == ManyEven(n, i + 1) && t.Alive(2) && !t.Refused(2) && t.End(2) == 2 * i + 2
  {
    hide BrimsAt, FreeAfter, Rest, Refusing, Idle;
    var t := ManyOdd(n, i);
    FullBufferIsServed(t, 2);
    NothingToFeed(t.script, 0, 1);
    NothingToFeed(t.script, 0, 2);
    NothingToFeed(t.script, 0, 6);
    IdleTurns(6, ManyScript(n, i + 1), 0, 0);
    NothingRead(t, t');
    assert t.accepts[1..] == ManyAccepts(n, i + 1);
  }

  lemma {:induction false} ManyLinked(log: seq<Situation>, end: Situation, n: nat)
    requires 0 < n <= MAX_PAYLOAD_WORDS && |log| <= 2 * n
    requires Linked(log, 2, MAX_PAYLOAD_WORDS, 65534, ManyEven(n, 0), end)
    ensures end == if |log| % 2 == 0 then ManyEven(n, |log| / 2) else ManyOdd(n, |log| / 2)
    ensures forall t :: t in log ==> t.Alive(2)
    ensures Copies(log, 2, 2 * n - 1) == (|log| + 1) / 2 + if |log| == 2 * n then 1 else 0
    decreases |log|
  {
    hide Situation.Alive, Situation.Refused, Situation.End, Situation.Leads, ManyEven, ManyOdd;
    if log != [] {
      var front, t, i := log[..|log| - 1], log[|log| - 1], (|log| - 1) / 2;
      ManyLinked(front, t, n);
      assert forall x :: x in log ==> x in front || x == t;
      if |log| % 2 == 1 {
        ManyEvenLeads(n, i, end);
      } else {
        ManyOddLeads(n, i, end);
      }
      ManyStarts(n, i);
    }
  }

  lemma ManyStarts(n: nat, i: nat)
    requires i < n <= MAX_PAYLOAD_WORDS
    ensures ManyEven(n, i).start == ManyOdd(n, i).start == 2 * i
  {
    hide ManyScript, ManyAccepts;
  }

  method ManyPoller(n: nat) returns (poller: Poller)
    requires 0 < n <= MAX_PAYLOAD_WORDS
    ensures fresh(poller) && fresh(poller.tx) && fresh(poller.app) && fresh(poller.sink)
    ensures fresh(poller.writeBuf.Repr()) && fresh(poller.readBuf.Repr()) && fresh(poller.target)
    ensures poller.Valid() && poller.w == 2 && poller.Serving(0) && poller.target.received == []
    ensures poller.minWanted == MAX_PAYLOAD_WORDS && poller.bound == 65534
    ensures poller.Situated(0, 0) == ManyEven(n, 0)
  {
    hide And, ManyScript, ManyAccepts;
    BufferSizeIsPower();
    var writeBuf := new Cbuf(BUFFER_SIZE);
    var readBuf := new Cbuf(BUFFER_SIZE);
    var app := new Feeder(ManyScript(n, 0), writeBuf);
    var target := new Target(2, ManyAccepts(n, 0), [], []);
    var sink := new Drainer([]);
    poller := new Poller(writeBuf, readBuf, app, sink, target, MAX_PAYLOAD_WORDS, 65534);
  }

  /** For every number `n` of words in a transfer there is a run in which the target accepts one and
      the same byte `n + 1` times: in `n` transfers whose discard is refused, and once more. */
  method ResendExample(n: nat) returns (poller: Poller, ghost log: seq<Situation>)
    requires 0 < n <= MAX_PAYLOAD_WORDS
    ensures EndsWithin(log, 2, |poller.app.sent|)
    ensures poller.target.received == Pieces(poller.app.sent, log, 2)
    ensures Copies(log, 2, 2 * n - 1) == n + 1
  {
    hide Situation.Alive, Situation.Refused, Cbuf.Valid, Cbuf.Contents, Linked, Pieces, EndsWithin;
    hide Copies, ManyEven, ManyOdd;
    poller := ManyPoller(n);
    ghost var k, turns;
    k, log, turns := poller.PollThread(2 * n, 0);
    ManyLinked(log, poller.Situated(k, turns), n);
  }

  lemma BufferSizeIsPower()
    ensures And(BUFFER_SIZE, BUFFER_SIZE - 1) == 0
  {
    assert Pow2(4) == 16;
    assert Pow2(8) == 256;
    assert Pow2(12) == 4096;
    assert Pow2(16) == 65536;
    MaskIsMod(BUFFER_SIZE, 16);
  }
}
