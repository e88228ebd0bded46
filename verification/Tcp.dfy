/** The communication thread of the TCP backend: it moves bytes between a non-blocking socket and
    the two buffers, while application threads read from one and write to the other. */
module Tcp {
  import opened Bits
  import opened Cbufs
  import opened CbufUtil

  /** 0, -ENOTCONN or -1, and a failed assertion. */
  datatype Outcome = Good | NotConnected | Error | AssertionFailed

  /** How the next call on the socket ends: it transfers at most `n` bytes, or fails with EAGAIN,
      because the connection is closed, or otherwise. */
  datatype Reply = Transfers(n: nat) | Again | Closed | Broken

  /** How many of `n` bytes a call transfers. */
  function Transferred(r: Reply, n: nat): (k: nat)
    ensures k <= n
  {
    if r.Transfers? then Min(r.n, n) else 0
  }

  /** How the next call ends, and the calls after that. */
  function NextOf(replies: seq<Reply>): Reply {
    if replies == [] then Again else replies[0]
  }

  function LaterOf(replies: seq<Reply>): seq<Reply> {
    if replies == [] then [] else replies[1..]
  }

  class Socket {
    var replies: seq<Reply>
    /** Bytes still to arrive, bytes taken by `Read`, bytes accepted by `Send`. */
    var coming: seq<byte>
    var taken: seq<byte>
    var sent: seq<byte>

    /** How the next call ends. */
    function Next(): Reply
      reads this
    {
      NextOf(replies)
    }

    method NextReply() returns (r: Reply)
      modifies this`replies
      ensures r == old(Next()) && replies == LaterOf(old(replies))
    {
      r := Next();
      replies := LaterOf(replies);
    }

    method Read(n: nat) returns (r: Reply, bytes: seq<byte>)
      modifies this
      ensures |bytes| == Min(Transferred(r, n), |old(coming)|)
      ensures taken == old(taken) + bytes && old(coming) == bytes + coming && sent == old(sent)
      ensures r == old(Next()) && replies == LaterOf(old(replies))
    {
      r := NextReply();
      var k := Min(Transferred(r, n), |coming|);
      bytes := coming[..k];
      taken, coming := taken + bytes, coming[k..];
    }

    method Send(bytes: seq<byte>) returns (r: Reply, k: nat)
      modifies this
      ensures r == old(Next()) && k == Transferred(r, |bytes|) && replies == LaterOf(old(replies))
      ensures sent == old(sent) + bytes[..k]
      ensures taken == old(taken) && coming == old(coming)
    {
      r := NextReply();
      k := Transferred(r, |bytes|);
      sent := sent + bytes[..k];
    }
  }

  function OutcomeOf(r: Reply): (o: Outcome)
    ensures o == Good <==> r.Transfers? || r.Again?
    ensures o == NotConnected <==> r.Closed?
    ensures o == Error <==> r.Broken?
  {
    match r
    case Transfers(_) => Good
    case Again => Good
    case Closed => NotConnected
    case Broken => Error
  }

  /** How tcp_write ends, given the application's turns to come, the free space of the write buffer,
      and the answer of the socket. The application has a turn in each look at the level, and
      between any two calls: the peek looks in turn 2, the discard in turn 5. */
  function WriteOutcome(script: seq<seq<byte>>, free: nat, size: nat, reply: Reply): Outcome
    requires free <= size
  {
    var n := SeenFirst(script, free, size);
    if n == 0 then Good
    else if BrimsAt(script, free, 2) then AssertionFailed
    else if 0 < Transferred(reply, n) && BrimsAt(script, free, 5) then AssertionFailed
    else OutcomeOf(reply)
  }

  /** A round of the thread as it starts. For the write buffer: how many turns the application has had
      since the thread started, its turns to come, the space it has, and how many bytes have been
      sent. For the read buffer: the reading application's turns to come, the level, and how many
      bytes have been received and are still coming. And the answers of the socket. */
  datatype Situation = Situation(turns: nat, script: seq<seq<byte>>, free: nat, sent: nat,
                                 drain: seq<nat>, level: nat, received: nat, coming: nat,
                                 replies: seq<Reply>)
  {
    /** How many bytes tcp_read asks for, with a turn of the application during the look. */
    function Wants(cap: nat): nat
      requires level <= cap
    {
      DrainingShrinks(drain, level, 0);
      FreeSeen(cap, level, LevelAfter(drain, level, 1))
    }

    /** How tcp_read ends, how many bytes it receives, and the answers left then. */
    function ReadResult(cap: nat): Outcome
      requires level <= cap
    {
      if 0 < Wants(cap) then OutcomeOf(NextOf(replies)) else Good
    }

    function Receives(cap: nat): nat
      requires level <= cap
    {
      if 0 < Wants(cap) then Min(Transferred(NextOf(replies), Wants(cap)), coming) else 0
    }

    function Pending(cap: nat): seq<Reply>
      requires level <= cap
    {
      if 0 < Wants(cap) then LaterOf(replies) else replies
    }

    /** How many turns the reading application has: in both looks and between them, before the call
        of the socket, and before what it transfers is committed. */
    function ReadTurns(cap: nat): nat
      requires level <= cap
    {
      if Wants(cap) == 0 then 1 else if NextOf(replies).Transfers? then 5 else 4
    }

    /** The situation after tcp_read. */
    function AfterRead(cap: nat): Situation
      requires level <= cap
    {
      this.(drain := Rest(drain, ReadTurns(cap)),
            level := LevelAfter(drain, level, ReadTurns(cap)) + Receives(cap),
            received := received + Receives(cap), coming := coming - Receives(cap),
            replies := Pending(cap))
    }

    /** How tcp_write ends. */
    function WriteResult(size: nat): Outcome
      requires free <= size
    {
      WriteOutcome(script, free, size, NextOf(replies))
    }

    /** Does it come as far as the socket? */
    predicate Reaches(size: nat)
      requires free <= size
    {
      0 < SeenFirst(script, free, size) && !BrimsAt(script, free, 2)
    }

    /** How many bytes it sends. */
    function Sends(size: nat): nat
      requires free <= size
    {
      if Reaches(size) then Transferred(NextOf(replies), SeenFirst(script, free, size)) else 0
    }

    /** The situation after tcp_write. Bytes sent stay in the buffer if the discard fails. */
    function AfterWrite(size: nat): Situation
      requires free <= size
    {
      var n := WriteTurns(script, free, size, NextOf(replies));
      this.(turns := turns + n, script := Rest(script, n),
            free := FreeAfter(script, free, n)
                    + (if WriteResult(size) == AssertionFailed then 0 else Sends(size)),
            sent := sent + Sends(size), replies := if Reaches(size) then LaterOf(replies) else replies)
    }

    /** How a round ends, and the start of the next one. */
    function Result(size: nat, cap: nat): Outcome
      requires Fits(size, cap)
    {
      if ReadResult(cap) != Good then ReadResult(cap) else AfterRead(cap).WriteResult(size)
    }

    function Next(size: nat, cap: nat): Situation
      requires Fits(size, cap)
    {
      if ReadResult(cap) != Good then AfterRead(cap) else AfterRead(cap).AfterWrite(size)
    }

    predicate Fits(size: nat, cap: nat) {
      free <= size && level <= cap
    }
  }

  /** How many turns the application has during tcp_write. */
  function WriteTurns(script: seq<seq<byte>>, free: nat, size: nat, reply: Reply): nat
    requires free <= size
  {
    if SeenFirst(script, free, size) == 0 then 1
    else if BrimsAt(script, free, 2) then 3
    else if reply.Transfers? then 6 else 5
  }

  /** The fill level tcp_write starts with. */
  function SeenFirst(script: seq<seq<byte>>, free: nat, size: nat): nat
    requires free <= size
  {
    FeedingShrinks(script, free, 1);
    if BrimsAt(script, free, 0) then 0 else size - FreeAfter(script, free, 1)
  }

  /** Reserve all the space the writing side sees; it always gets it. */
  method ReserveAll(buf: Cbuf, sink: Drainer) returns (n: nat, block: array<byte>, off: nat)
    requires buf.Valid()
    modifies buf`rdPtr, buf`reserved, buf`writeTmp, sink
    ensures buf.Valid() && sink.Accepted(buf) == old(sink.Accepted(buf))
    ensures var drain, level := old(sink.script), old(|buf.Contents()|);
            && LevelAfter(drain, level, 1) <= buf.size
            && n == FreeSeen(buf.size, level, LevelAfter(drain, level, 1))
            && sink.Drained(buf, drain, level, if n == 0 then 1 else 3)
    ensures 0 < n ==>
              n == buf.reserved && buf.IsReservedBlock(block, off) && off + n <= block.Length
    ensures buf.writeTmp == old(buf.writeTmp) || fresh(buf.writeTmp)
  {
    hide Cbuf.Contents, Cbuf.Valid, Rest, LevelAfter;
    block, off := buf.data, 0;
    DrainFurther(sink.script, |buf.Contents()|, 1, 1);
    DrainFurther(sink.script, |buf.Contents()|, 2, 1);
    n := LookAtFree(buf, sink);
    if n == 0 {
      return;
    }
    sink.Turn(buf);
    var level := LookAtFree(buf, sink);
    assert n <= level;
    var rv;
    rv, block, off := buf.Reserve(n);
    assert rv == Success;
  }

  /** Read from the socket into the reserved block, and commit what arrived. */
  method ReceiveInto(buf: Cbuf, sink: Drainer, socket: Socket, block: array<byte>, off: nat, n: nat)
    returns (r: Outcome)
    requires buf.Valid() && n == buf.reserved && buf.IsReservedBlock(block, off)
    requires off + n <= block.Length && sink.Accepted(buf) == socket.taken
    modifies buf`rdPtr, buf`wrPtr, buf`reserved, buf.data, buf.writeTmp, sink, socket
    ensures buf.Valid() && sink.Accepted(buf) == socket.taken && r != AssertionFailed
    ensures socket.sent == old(socket.sent)
    ensures r == OutcomeOf(old(socket.Next())) && socket.replies == LaterOf(old(socket.replies))
    ensures var reply, coming := old(socket.Next()), old(socket.coming);
            var k, turns := Min(Transferred(reply, n), |coming|), if reply.Transfers? then 2 else 1;
            && socket.taken == old(socket.taken) + coming[..k] && socket.coming == coming[k..]
            && sink.script == Rest(old(sink.script), turns)
            && |buf.Contents()| == LevelAfter(old(sink.script), old(|buf.Contents()|), turns) + k
  {
    hide Cbuf.Contents, Cbuf.Valid, Drainer.Accepted, Rest, LevelAfter;
    DrainFurther(sink.script, |buf.Contents()|, 1, 1);
    sink.Turn(buf);
    var reply, bytes := socket.Read(n);
    if !reply.Transfers? {
      return OutcomeOf(reply);
    }
    StoreArrived(buf, sink, block, off, bytes);
    return Good;
  }

  /** The bytes are in the reserved block, and are committed after a turn of the application. */
  method StoreArrived(buf: Cbuf, sink: Drainer, block: array<byte>, off: nat, bytes: seq<byte>)
    requires buf.Valid() && |bytes| <= buf.reserved && buf.IsReservedBlock(block, off)
    modifies buf`rdPtr, buf`wrPtr, buf`reserved, buf.data, buf.writeTmp, sink
    ensures buf.Valid() && sink.Accepted(buf) == old(sink.Accepted(buf)) + bytes
    ensures sink.script == Rest(old(sink.script), 1)
    ensures |buf.Contents()| == LevelAfter(old(sink.script), old(|buf.Contents()|), 1) + |bytes|
  {
    hide Cbuf.Contents, Cbuf.Valid, Rest, LevelAfter;
    buf.FillReserved(block, off, bytes);
    sink.Turn(buf);
    ghost var c := buf.Contents();
    buf.Commit(block, off, |bytes|);
    Associative(sink.taken, c, bytes);
  }

  /** Peek at everything the reading side sees. This fails exactly if the application fills the
      buffer to the brim during the second look at its level. */
  method PeekAll(buf: Cbuf, app: Feeder, ghost k: nat)
    returns (n: nat, ok: bool, block: array<byte>, off: nat)
    requires buf.Valid() && app.Left(buf, k)
    modifies buf`wrPtr, buf`reserved, buf.data, buf`readTmp, buf.readTmp, app
    ensures buf.Valid() && app.Left(buf, k) && old(app.sent) <= app.sent
    ensures n == SeenFirst(old(app.script), old(Free(buf)), buf.size)
    ensures ok <==> n == 0 || !BrimsAt(old(app.script), old(Free(buf)), 2)
    ensures !ok ==> |buf.Contents()| == buf.size
    ensures ok && 0 < n ==> buf.IsPeekedBlock(block, off, n)
    ensures app.Fed(buf, old(app.script), old(Free(buf)), if n == 0 then 1 else 3)
    ensures buf.readTmp == old(buf.readTmp) || fresh(buf.readTmp)
  {
    hide Cbuf.Contents, Rest, FreeAfter, BrimsAt;
    ghost var script, free := app.script, Free(buf);
    FeedFurther(script, free, 1, 1);
    FeedFurther(script, free, 2, 0);
    FeedFurther(script, free, 2, 1);
    block, off, ok := buf.data, 0, true;
    n := LookAtFill(buf, app, k);
    if n == 0 {
      return;
    }
    app.Turn(buf, k);
    var level := LookAtFill(buf, app, k);
    if level < n {
      ok := false;
      return;
    }
    var rv;
    rv, block, off := buf.Peek(n);
    assert rv == Success;
  }

  /** Send a peeked block, and discard what the socket has accepted. This fails exactly if it has
      accepted something and the application fills the buffer to the brim during the look of the
      discard. */
  method SendFrom(buf: Cbuf, app: Feeder, socket: Socket, block: array<byte>, off: nat, n: nat,
                  ghost k: nat)
    returns (r: Outcome, ghost k': nat)
    requires buf.Valid() && buf.IsPeekedBlock(block, off, n)
    requires app.Left(buf, k) && socket.sent == app.sent[..k]
    modifies buf`rdPtr, buf`wrPtr, buf`reserved, buf.data, app, socket
    ensures buf.Valid() && old(app.sent) <= app.sent
    ensures socket.taken == old(socket.taken) && socket.coming == old(socket.coming)
    ensures k' == k + Transferred(old(socket.Next()), n) <= |app.sent|
    ensures socket.sent == app.sent[..k']
    ensures var reply, lost := old(socket.Next()), BrimsAt(old(app.script), old(Free(buf)), 2);
            r == if 0 < Transferred(reply, n) && lost then AssertionFailed else OutcomeOf(reply)
    ensures var turns := if old(socket.Next()).Transfers? then 3 else 2;
            && app.script == Rest(old(app.script), turns)
            && Free(buf) == FreeAfter(old(app.script), old(Free(buf)), turns)
                            + (if r == AssertionFailed then 0 else k' - k)
    ensures socket.replies == LaterOf(old(socket.replies))
    ensures r != AssertionFailed ==> app.Left(buf, k')
    ensures r == AssertionFailed ==>
              k < k' && app.Left(buf, k) && |buf.Contents()| == buf.size
  {
    hide Cbuf.Contents, Cbuf.Valid, Rest, FreeAfter, BrimsAt;
    FeedFurther(app.script, Free(buf), 2, 0);
    FeedFurther(app.script, Free(buf), 2, 1);
    var reply, wsize := SendBlock(buf, app, socket, block, off, n, k);
    k' := k + wsize;
    if !reply.Transfers? {
      return OutcomeOf(reply), k;
    }
    var rv := ContendedDiscard(buf, app, k, wsize);
    r := if rv == Success then Good else AssertionFailed;
  }

  /** Hand a peeked block to the socket, with a turn of the application before and after that. */
  method SendBlock(buf: Cbuf, app: Feeder, socket: Socket, block: array<byte>, off: nat, n: nat,
                   ghost k: nat)
    returns (reply: Reply, wsize: nat)
    requires buf.Valid() && buf.IsPeekedBlock(block, off, n)
    requires app.Left(buf, k) && socket.sent == app.sent[..k]
    modifies buf`wrPtr, buf`reserved, buf.data, app, socket
    ensures buf.Valid() && app.Left(buf, k) && old(app.sent) <= app.sent
    ensures socket.taken == old(socket.taken) && socket.coming == old(socket.coming)
    ensures reply == old(socket.Next()) && wsize == Transferred(reply, n)
    ensures socket.replies == LaterOf(old(socket.replies))
    ensures k + wsize <= |app.sent| && socket.sent == app.sent[..k + wsize]
    ensures n <= |buf.Contents()| && app.Fed(buf, old(app.script), old(Free(buf)), 2)
  {
    hide Cbuf.Contents, Cbuf.Valid, Cbuf.IsPeekedBlock, Rest, FreeAfter, BrimsAt;
    FeedFurther(app.script, Free(buf), 1, 1);
    TurnKeepsBlock(buf, app, block, off, n, k);
    reply, wsize := socket.Send(block[off..off + n]);
    assert block[off..off + n] == app.sent[k..k + n];
    assert block[off..off + n][..wsize] == app.sent[k..k + wsize];
    assert app.sent[..k] + app.sent[k..k + wsize] == app.sent[..k + wsize];
    app.Turn(buf, k);
  }

  /** A turn of the application leaves a peeked block as it is. */
  method TurnKeepsBlock(buf: Cbuf, app: Feeder, block: array<byte>, off: nat, n: nat, ghost k: nat)
    requires buf.Valid() && buf.IsPeekedBlock(block, off, n) && app.Left(buf, k)
    modifies buf`wrPtr, buf`reserved, buf.data, app
    ensures buf.Valid() && app.Left(buf, k) && old(app.sent) <= app.sent
    ensures app.Fed(buf, old(app.script), old(Free(buf)), 1)
    ensures off + n <= block.Length && n <= |buf.Contents()|
    ensures block[off..off + n] == app.sent[k..k + n]
  {
    hide Cbuf.Contents, Rest, FreeAfter, BrimsAt;
    app.Turn(buf, k);
    buf.PeekedBlockHoldsOldest(block, off, n);
  }

  class Backend {
    const writeBuf: Cbuf
    const readBuf: Cbuf
    const app: Feeder
    const sink: Drainer
    const socket: Socket

    ghost predicate Valid()
      reads this, writeBuf, readBuf
    {
      && writeBuf.Valid() && readBuf.Valid()
      && writeBuf != readBuf && writeBuf.Repr() !! readBuf.Repr()
    }

    constructor (writeBuf: Cbuf, readBuf: Cbuf, app: Feeder, sink: Drainer, socket: Socket)
      requires writeBuf.Valid() && readBuf.Valid()
      requires writeBuf != readBuf && writeBuf.Repr() !! readBuf.Repr()
      ensures Valid() && this.writeBuf == writeBuf && this.readBuf == readBuf
      ensures this.app == app && this.sink == sink && this.socket == socket
    {
      this.writeBuf, this.readBuf := writeBuf, readBuf;
      this.app, this.sink, this.socket := app, sink, socket;
    }

    /** Bytes the application wrote: the first `k` were sent, the others are in the write buffer. */
    ghost predicate Outgoing(k: nat)
      requires writeBuf.Valid()
      reads writeBuf, writeBuf.data, app, socket
    {
      app.Left(writeBuf, k) && socket.sent == app.sent[..k]
    }

    /** Bytes that arrived: read by the application, and after that in the read buffer. */
    ghost predicate Incoming()
      requires readBuf.Valid()
      reads readBuf, readBuf.data, sink, socket
    {
      sink.Accepted(readBuf) == socket.taken
    }

    /** The situation of the thread, when `k` bytes have been sent in `turns` turns. */
    ghost function Situated(k: nat, turns: nat): Situation
      requires Valid()
      reads this, writeBuf, writeBuf.data, readBuf, readBuf.data, app, sink, socket
    {
      Situation(turns, app.script, Free(writeBuf), k, sink.script, |readBuf.Contents()|, |socket.taken|,
                |socket.coming|, socket.replies)
    }

    /** Read as much as there is room for, straight into the reserved block. The assertions never
        fail. The bytes received are the next ones, as many as the socket transfers. */
    method TcpRead(ghost k: nat, ghost turns: nat) returns (r: Outcome)
      requires Valid() && Incoming() && Outgoing(k)
      modifies readBuf, readBuf.data, readBuf.writeTmp, sink, socket
      ensures Valid() && Incoming() && Outgoing(k) && r != AssertionFailed
      ensures var t, cap := old(Situated(k, turns)), readBuf.size;
              && r == t.ReadResult(cap) && Situated(k, turns) == t.AfterRead(cap)
              && socket.taken == old(socket.taken) + old(socket.coming)[..t.Receives(cap)]
              && socket.coming == old(socket.coming)[t.Receives(cap)..]
      ensures socket.taken + socket.coming == old(socket.taken + socket.coming)
      ensures readBuf.writeTmp == old(readBuf.writeTmp) || fresh(readBuf.writeTmp)
    {
      hide Cbuf.Contents, Cbuf.Valid, Rest, LevelAfter;
      DrainFurther(sink.script, |readBuf.Contents()|, 3, 1);
      DrainFurther(sink.script, |readBuf.Contents()|, 3, 2);
      var n, block, off := ReserveAll(readBuf, sink);
      if n == 0 {
        return Good;
      }
      r := ReceiveInto(readBuf, sink, socket, block, off, n);
      ghost var k1 := |old(socket.coming)| - |socket.coming|;
      Associative(old(socket.taken), old(socket.coming)[..k1], socket.coming);
    }

    /** Send as much as there is. `WriteOutcome` tells exactly when an assertion fails. Otherwise
        `k'` bytes have been sent so far, once and in order. */
    method TcpWrite(ghost k: nat, ghost turns: nat) returns (r: Outcome, ghost k': nat, ghost turns': nat)
      requires Valid() && Outgoing(k) && Incoming()
      modifies writeBuf, writeBuf.data, writeBuf.readTmp, app, socket
      ensures Valid() && Incoming() && old(app.sent) <= app.sent && k <= k'
      ensures socket.taken == old(socket.taken) && socket.coming == old(socket.coming)
      ensures writeBuf.readTmp == old(writeBuf.readTmp) || fresh(writeBuf.readTmp)
      ensures k' <= |app.sent| && socket.sent == app.sent[..k']
      ensures r != AssertionFailed ==> Outgoing(k')
      ensures r == AssertionFailed ==> |writeBuf.Contents()| == writeBuf.size
      ensures var t, size := old(Situated(k, turns)), writeBuf.size;
              && r == t.WriteResult(size) && k' == k + t.Sends(size)
              && Situated(k', turns') == t.AfterWrite(size)
    {
      hide Cbuf.Contents, Cbuf.Valid, Cbuf.IsPeekedBlock, FreeAfter, BrimsAt, Rest, SeenFirst;
      ghost var script, free, reply := app.script, Free(writeBuf), socket.Next();
      FeedFurther(script, free, 3, 2);
      FeedFurther(script, free, 3, 3);
      var n, ok, block, off := PeekAll(writeBuf, app, k);
      k', turns' := k, turns + WriteTurns(script, free, writeBuf.size, reply);
      if !ok {
        return AssertionFailed, k, turns';
      }
      if n == 0 {
        return Good, k, turns';
      }
      r, k' := SendFrom(writeBuf, app, socket, block, off, n, k);
    }

    /** One round of the thread: first read, then write. The situation at its start determines how
        it ends, what is sent, and the situation afterwards. */
    method Round(ghost k: nat, ghost turns: nat) returns (r: Outcome, ghost k': nat, ghost turns': nat)
      requires Valid() && Incoming() && Outgoing(k)
      modifies writeBuf, writeBuf.data, writeBuf.readTmp, readBuf, readBuf.data, readBuf.writeTmp
      modifies app, sink, socket
      ensures Valid() && Incoming() && old(app.sent) <= app.sent && k <= k'
      ensures k' <= |app.sent| && socket.sent == app.sent[..k']
      ensures r != AssertionFailed ==> Outgoing(k')
      ensures var t, size, cap := old(Situated(k, turns)), writeBuf.size, readBuf.size;
              && t.Fits(size, cap) && r == t.Result(size, cap) && Situated(k', turns') == t.Next(size, cap)
      ensures socket.taken + socket.coming == old(socket.taken + socket.coming)
      ensures writeBuf.readTmp == old(writeBuf.readTmp) || fresh(writeBuf.readTmp)
      ensures readBuf.writeTmp == old(readBuf.writeTmp) || fresh(readBuf.writeTmp)
    {
      k', turns' := k, turns;
      assert k <= |app.sent|;
      hide Cbuf.Contents, Cbuf.Valid, Outgoing, Incoming, Situated, Situation.AfterRead;
      hide Situation.AfterWrite, Situation.WriteResult, Situation.Receives;
      SituatedFits(k, turns);
      r := TcpRead(k, turns);
      SituatedFits(k, turns);
      if r == Good {
        r, k', turns' := TcpWrite(k, turns);
      }
    }

    lemma SituatedFits(k: nat, turns: nat)
      requires Valid()
      ensures Situated(k, turns).Fits(writeBuf.size, readBuf.size)
    {
    }

    /** The loop of the communication thread, for any number of rounds and until the first failure.
        Nothing is lost, duplicated or reordered in either direction. `log` lists the situations in
        which the rounds started: the first one is that of the call, each leads to the next, the last
        one to the situation in the end, and decides how the call ends. */
    method ComThread(rounds: nat, ghost k0: nat)
      returns (r: Outcome, ghost k: nat, ghost log: seq<Situation>, ghost turns: nat)
      requires Valid() && Incoming() && Outgoing(k0)
      modifies writeBuf, writeBuf.data, writeBuf.readTmp, readBuf, readBuf.data, readBuf.writeTmp
      modifies app, sink, socket
      ensures Valid() && Incoming() && old(app.sent) <= app.sent && k0 <= k
      ensures socket.taken + socket.coming == old(socket.taken + socket.coming)
      ensures k <= |app.sent| && socket.sent == app.sent[..k]
      ensures r != AssertionFailed ==> Outgoing(k)
      ensures Linked(log, writeBuf.size, readBuf.size, old(Situated(k0, 0)), Situated(k, turns))
      ensures EndsWith(log, writeBuf.size, readBuf.size, r)
      ensures |log| <= rounds && (|log| < rounds ==> r != Good)
      ensures old(app.script) == [] ==> r != AssertionFailed
    {
      r, k, log, turns := Good, k0, [], 0;
      assert k <= |app.sent|;
      hide Cbuf.Contents, Cbuf.Valid, Outgoing, Incoming, Rest, FreeAfter, BrimsAt, WriteOutcome;
      hide Situation.Result, Situation.Next, Linked, EndsWith, Situated;
      ghost var first := Situated(k0, 0);
      StartOfLog(writeBuf.size, readBuf.size, first);
      var i := 0;
      while i < rounds && r == Good
        invariant Valid() && Incoming() && old(app.sent) <= app.sent && k0 <= k
        invariant socket.taken + socket.coming == old(socket.taken + socket.coming)
        invariant k <= |app.sent| && socket.sent == app.sent[..k]
        invariant r != AssertionFailed ==> Outgoing(k)
        invariant Linked(log, writeBuf.size, readBuf.size, first, Situated(k, turns))
        invariant EndsWith(log, writeBuf.size, readBuf.size, r) && 0 <= i == |log| <= rounds
        invariant writeBuf.readTmp == old(writeBuf.readTmp) || fresh(writeBuf.readTmp)
        invariant readBuf.writeTmp == old(readBuf.writeTmp) || fresh(readBuf.writeTmp)
      {
        ghost var t := Situated(k, turns);
        r, k, turns := Round(k, turns);
        OneRoundMore(log, writeBuf.size, readBuf.size, first, t, Situated(k, turns));
        log := log + [t];
        i := i + 1;
      }
      QuietNeverFails(log, writeBuf.size, readBuf.size, first, Situated(k, turns), r);
    }
  }

  // The situations of a run.

  /** Each situation leads to the next, from the first one to that in the end. */
  predicate Linked(log: seq<Situation>, size: nat, cap: nat, first: Situation, end: Situation) {
    if log == [] then end == first
    else
      var t := log[|log| - 1];
      t.Fits(size, cap) && end == t.Next(size, cap) && Linked(log[..|log| - 1], size, cap, first, t)
  }

  /** Only the last round of a run fails, if any, and the run ends as that one does. */
  ghost predicate EndsWith(log: seq<Situation>, size: nat, cap: nat, r: Outcome) {
    && (forall i :: 0 <= i < |log| ==> log[i].Fits(size, cap))
    && (forall i :: 0 <= i < |log| - 1 ==> log[i].Result(size, cap) == Good)
    && r == if log == [] then Good else log[|log| - 1].Result(size, cap)
  }

  lemma StartOfLog(size: nat, cap: nat, first: Situation)
    ensures Linked([], size, cap, first, first) && EndsWith([], size, cap, Good)
  {
  }

  lemma OneRoundMore(log: seq<Situation>, size: nat, cap: nat, first: Situation, t: Situation,
                     end: Situation)
    requires Linked(log, size, cap, first, t) && t.Fits(size, cap) && end == t.Next(size, cap)
    requires EndsWith(log, size, cap, Good)
    ensures Linked(log + [t], size, cap, first, end)
    ensures EndsWith(log + [t], size, cap, t.Result(size, cap))
  {
    hide Situation.Result, Situation.Next;
    assert (log + [t])[..|log|] == log;
  }

  /** A round that starts with a full write buffer cannot fail an assertion. */
  lemma FullNeverFails(t: Situation, size: nat, cap: nat)
    requires t.free == 0 && t.level <= cap
    ensures t.Result(size, cap) != AssertionFailed
  {
    NothingToFeed(t.script, 0, 0);
    NothingToFeed(t.script, 0, 1);
    NothingToFeed(t.script, 0, 2);
    NothingToFeed(t.script, 0, 5);
  }

  /** Without writes of the application no assertion fails in any round. */
  lemma {:induction false} QuietStaysQuiet(log: seq<Situation>, size: nat, cap: nat, first: Situation,
                                           end: Situation)
    requires Linked(log, size, cap, first, end) && first.script == []
    ensures end.script == [] && forall t :: t in log ==> t.script == []
  {
    hide Situation.WriteResult, Situation.Sends, Situation.Receives, Situation.ReadTurns, LevelAfter;
    if log != [] {
      var front, t := log[..|log| - 1], log[|log| - 1];
      QuietStaysQuiet(front, size, cap, first, t);
      assert forall x :: x in log ==> x in front || x == t;
    }
  }

  lemma QuietNeverFails(log: seq<Situation>, size: nat, cap: nat, first: Situation, end: Situation,
                        r: Outcome)
    requires Linked(log, size, cap, first, end) && EndsWith(log, size, cap, r)
    ensures first.script == [] ==> r != AssertionFailed
  {
    if log != [] && first.script == [] {
      var t := log[|log| - 1];
      QuietStaysQuiet(log, size, cap, first, end);
      assert t in log;
      NothingToFeed([], t.free, 2);
      NothingToFeed([], t.free, 5);
    }
  }

  /** A round in which the reading application rests and the socket is ready receives as many bytes as
      there are, as the socket transfers and as there is room for. */
  lemma RestingRoundReceives(t: Situation, cap: nat)
    requires t.level <= cap && t.drain == [] && NextOf(t.replies).Transfers?
    ensures t.Receives(cap) == Min(Min(NextOf(t.replies).n, cap - t.level), t.coming)
  {
  }

  /** If the writing application rests and the socket is ready, a call sends as many bytes as there are
      and as the socket transfers. */
  lemma RestingRoundSends(t: Situation, size: nat)
    requires t.free <= size && t.script == [] && NextOf(t.replies).Transfers?
    ensures t.Sends(size) == Min(NextOf(t.replies).n, size - t.free) && t.WriteResult(size) == Good
  {
    NothingToFeed([], t.free, 0);
    NothingToFeed([], t.free, 1);
    NothingToFeed([], t.free, 2);
    NothingToFeed([], t.free, 5);
  }

  /** Nothing that comes is lost or made up in any number of rounds. */
  lemma {:induction false} ReceivedAndComing(log: seq<Situation>, size: nat, cap: nat, first: Situation,
                                             end: Situation)
    requires Linked(log, size, cap, first, end)
    ensures end.received + end.coming == first.received + first.coming && first.received <= end.received
  {
    hide Situation.WriteResult, Situation.Sends, Situation.ReadTurns, LevelAfter, FreeAfter;
    if log != [] {
      ReceivedAndComing(log[..|log| - 1], size, cap, first, log[|log| - 1]);
    }
  }

  lemma StartOfScript(script: seq<seq<byte>>, free: nat)
    ensures Rest(script, 0) == script && FreeAfter(script, free, 0) == free
  {
  }

  /** A run of tcp_write on a buffer for two bytes that holds one, while the application adds the
      second one in turn number `i`. In turn 2 the assertion on the peek fails. In turn 5 the byte
      has been sent already when the assertion on the discard fails. */
  method WriteFailsExample(i: nat) returns (r: Outcome, sent: seq<byte>)
    requires i == 2 || i == 5
    ensures r == AssertionFailed && |sent| == if i == 2 then 0 else 1
  {
    hide FreeAfter, BrimsAt, Rest, And, Cbuf.Contents, Cbuf.Valid, LevelAfter, Situation.AfterWrite;
    var writeBuf, app := OneOfTwo(i);
    TwoIsASize();
    var readBuf := new Cbuf(2);
    var sink := new Drainer([]);
    var socket := new Socket;
    socket.replies, socket.sent, socket.taken := [Transfers(1)], [], [];
    var backend := new Backend(writeBuf, readBuf, app, sink, socket);
    ghost var script, free := app.script, Free(writeBuf);
    FeedingShrinks(script, free, 1);
    ghost var k, turns;
    r, k, turns := backend.TcpWrite(0, 0);
    sent := socket.sent;
  }
}
