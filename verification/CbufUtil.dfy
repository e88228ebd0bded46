/** The read and write helpers of the GLIP backends on top of a circular buffer.

    The thread on the other side of the buffer is a `Feeder` or a `Drainer` with an arbitrary
    script. It gets a turn in every look at a level, and one between any two calls that a helper
    makes. How the waits of a call end is a script, too. A call whose script of waits is used up is
    still blocked. */
module CbufUtil {
  import opened Bits
  import opened Ring
  import opened Cbufs

  datatype Wait = Changed | TimedOut | Canceled

  /** 0, -1, -ETIMEDOUT and -ECANCELED; `Blocked` if the call has not returned. */
  datatype Code = Ok | Failed | Timeout | Cancelled | Blocked

  /** How one wait ends: without a timeout it cannot time out, only wake up. */
  function EndOf(w: Wait, timed: bool): Code {
    match w
    case Changed => Ok
    case TimedOut => if timed then Timeout else Ok
    case Canceled => Cancelled
  }

  lemma EndMeans(w: Wait, timed: bool)
    ensures EndOf(w, timed) in {Ok, Timeout, Cancelled}
    ensures EndOf(w, timed) == Timeout <==> timed && w == TimedOut
    ensures EndOf(w, timed) == Cancelled <==> w == Canceled
  {
  }

  // What a feeder's script does to the free space.

  /** What is left of a script after `i` turns. */
  function Rest<T>(script: seq<T>, i: nat): seq<T> {
    if i <= |script| then script[i..] else []
  }

  /** A block that does not fit is refused. */
  function FreeNext(free: nat, block: seq<byte>): nat {
    if |block| <= free then free - |block| else free
  }

  /** The free space after `i` turns. */
  function FreeAfter(script: seq<seq<byte>>, free: nat, i: nat): nat
    decreases i
  {
    if i == 0 || script == [] then free
    else FreeAfter(script[1..], FreeNext(free, script[0]), i - 1)
  }

  /** Is turn number `i` the one that fills the buffer to the brim? */
  predicate BrimsAt(script: seq<seq<byte>>, free: nat, i: nat)
    decreases i
  {
    script != [] &&
    if i == 0 then 0 < free == |script[0]|
    else BrimsAt(script[1..], FreeNext(free, script[0]), i - 1)
  }

  /** Turns can be counted from any of them. */
  lemma {:induction false} FeedFurther(script: seq<seq<byte>>, free: nat, i: nat, j: nat)
    ensures Rest(Rest(script, i), j) == Rest(script, i + j)
    ensures FreeAfter(Rest(script, i), FreeAfter(script, free, i), j)
         == FreeAfter(script, free, i + j)
    ensures BrimsAt(Rest(script, i), FreeAfter(script, free, i), j)
       <==> BrimsAt(script, free, i + j)
    decreases i
  {
    if i > 0 && script != [] {
      FeedFurther(script[1..], FreeNext(free, script[0]), i - 1, j);
      assert Rest(script, i) == Rest(script[1..], i - 1);
      assert Rest(script, i + j) == Rest(script[1..], i - 1 + j);
    }
  }

  /** A feeder without a script, and one with a full buffer, does nothing. */
  lemma {:induction false} NothingToFeed(script: seq<seq<byte>>, free: nat, i: nat)
    requires script == [] || free == 0
    ensures FreeAfter(script, free, i) == free && !BrimsAt(script, free, i)
    decreases i
  {
    if i > 0 && script != [] {
      NothingToFeed(script[1..], FreeNext(free, script[0]), i - 1);
    }
  }

  /** Space only gets less, and a turn that fills the buffer to the brim leaves none. */
  lemma {:induction false} FeedingShrinks(script: seq<seq<byte>>, free: nat, i: nat)
    ensures FreeAfter(script, free, i + 1) <= FreeAfter(script, free, i) <= free
    ensures BrimsAt(script, free, i) ==> 0 < free && FreeAfter(script, free, i + 1) == 0
    decreases i
  {
    if i > 0 && script != [] {
      FeedingShrinks(script[1..], FreeNext(free, script[0]), i - 1);
    }
  }

  // What a drainer's script does to the level.

  /** A request for more than there is is refused. */
  function LevelNext(level: nat, n: nat): nat {
    if n <= level then level - n else level
  }

  /** The level after `i` turns. */
  function LevelAfter(script: seq<nat>, level: nat, i: nat): nat
    decreases i
  {
    if i == 0 || script == [] then level
    else LevelAfter(script[1..], LevelNext(level, script[0]), i - 1)
  }

  lemma {:induction false} DrainFurther(script: seq<nat>, level: nat, i: nat, j: nat)
    ensures Rest(Rest(script, i), j) == Rest(script, i + j)
    ensures LevelAfter(Rest(script, i), LevelAfter(script, level, i), j)
         == LevelAfter(script, level, i + j)
    decreases i
  {
    if i > 0 && script != [] {
      DrainFurther(script[1..], LevelNext(level, script[0]), i - 1, j);
      assert Rest(script, i) == Rest(script[1..], i - 1);
      assert Rest(script, i + j) == Rest(script[1..], i - 1 + j);
    }
  }

  /** The level only falls, and stays without a script. */
  lemma {:induction false} DrainingShrinks(script: seq<nat>, level: nat, i: nat)
    ensures LevelAfter(script, level, i + 1) <= LevelAfter(script, level, i) <= level
    ensures script == [] ==> LevelAfter(script, level, i) == level
    decreases i
  {
    if i > 0 && script != [] {
      DrainingShrinks(script[1..], LevelNext(level, script[0]), i - 1);
    }
  }

  /** The free level seen by a look that starts at one level and ends at another. */
  function FreeSeen(cap: nat, before: nat, after: nat): nat
    requires after <= cap
  {
    if before == cap then 0 else cap - after
  }

  ghost function Free(buf: Cbuf): nat
    requires buf.Valid()
    reads buf, buf.data
  {
    buf.size - |buf.Contents()|
  }

  class Feeder {
    var script: seq<seq<byte>>
    /** Every byte ever put into the buffer. */
    var sent: seq<byte>

    constructor (script: seq<seq<byte>>, buf: Cbuf)
      requires buf.Valid()
      ensures this.script == script && sent == buf.Contents() && Left(buf, 0)
    {
      this.script, sent := script, [];
      new;
      ghost var c := buf.Contents();
      var all := buf.CopyOut(buf.FillLevel());
      sent := all;
    }

    /** All but the oldest `k` bytes ever sent are still in the buffer. */
    ghost predicate Left(buf: Cbuf, k: nat)
      requires buf.Valid()
      reads this, buf, buf.data
    {
      k <= |sent| && buf.Contents() == sent[k..]
    }

    /** The feeder has taken `i` turns since it had the given script and space. */
    ghost predicate Fed(buf: Cbuf, script0: seq<seq<byte>>, free0: nat, i: nat)
      requires buf.Valid()
      reads this, buf, buf.data
    {
      script == Rest(script0, i) && Free(buf) == FreeAfter(script0, free0, i)
    }

    method Turn(buf: Cbuf, ghost k: nat)
      requires buf.Valid() && Left(buf, k)
      modifies this, buf`wrPtr, buf`reserved, buf.data
      ensures buf.Valid() && Left(buf, k) && old(sent) <= sent
      ensures |buf.Contents()| >= |old(buf.Contents())|
      ensures Fed(buf, old(script), old(Free(buf)), 1)
      ensures BrimsAt(old(script), old(Free(buf)), 0)
         <==> |old(buf.Contents())| < buf.size == |buf.Contents()|
    {
      hide Cbuf.Contents, Cbuf.Valid;
      if script != [] {
        var rv := buf.Write(script[0]);
        if rv == Success {
          assert sent[k..] + script[0] == (sent + script[0])[k..];
          sent := sent + script[0];
        }
        script := script[1..];
      }
    }
  }

  class Drainer {
    var script: seq<nat>
    /** Everything taken out of the buffer so far. */
    var taken: seq<byte>

    constructor (script: seq<nat>)
      ensures this.script == script && taken == []
    {
      this.script, taken := script, [];
    }

    /** Every byte the buffer has accepted. */
    ghost function Accepted(buf: Cbuf): seq<byte>
      requires buf.Valid()
      reads this, buf, buf.data
    {
      taken + buf.Contents()
    }

    /** The drainer has taken `i` turns since it had the given script and the buffer the given
        level. */
    ghost predicate Drained(buf: Cbuf, script0: seq<nat>, level0: nat, i: nat)
      requires buf.Valid()
      reads this, buf, buf.data
    {
      script == Rest(script0, i) && |buf.Contents()| == LevelAfter(script0, level0, i)
    }

    method Turn(buf: Cbuf)
      requires buf.Valid()
      modifies this, buf`rdPtr
      ensures buf.Valid() && Accepted(buf) == old(Accepted(buf))
      ensures |buf.Contents()| <= |old(buf.Contents())|
      ensures Drained(buf, old(script), old(|buf.Contents()|), 1)
    {
      hide Cbuf.Contents, Cbuf.Valid;
      if script != [] {
        var rv, bytes := buf.Read(script[0]);
        script := script[1..];
        if rv == Success {
          assert taken + (bytes + buf.Contents()) == (taken + bytes) + buf.Contents();
          taken := taken + bytes;
        }
      }
    }
  }

  /** cbuf_fill_level as the reading side gets it, with a turn of the feeder between the full
      test and the subtraction: 0 if that turn fills the buffer to the brim, the level otherwise. */
  method LookAtFill(buf: Cbuf, peer: Feeder, ghost k: nat) returns (level: nat)
    requires buf.Valid() && peer.Left(buf, k)
    modifies buf`wrPtr, buf`reserved, buf.data, peer
    ensures buf.Valid() && old(peer.sent) <= peer.sent && peer.Left(buf, k)
    ensures |old(buf.Contents())| <= |buf.Contents()|
    ensures peer.Fed(buf, old(peer.script), old(Free(buf)), 1)
    ensures level == if |old(buf.Contents())| < buf.size == |buf.Contents()| then 0
                     else |buf.Contents()|
    ensures BrimsAt(old(peer.script), old(Free(buf)), 0)
       <==> |old(buf.Contents())| < buf.size == |buf.Contents()|
  {
    hide Rest, FreeAfter, BrimsAt;
    var wrSeen := buf.wrPtr;
    peer.Turn(buf, k);
    ReaderLevel(buf.size, wrSeen, buf.wrPtr, buf.rdPtr);
    level := Ring.FillLevel(buf.size, wrSeen, buf.rdPtr, buf.wrPtr, buf.rdPtr);
  }

  /** cbuf_read by the reading side: it fails exactly if the feeder fills the buffer to the brim
      during the look at the level. */
  method ContendedRead(buf: Cbuf, peer: Feeder, ghost k: nat, n: nat)
    returns (rv: Status, bytes: seq<byte>)
    requires buf.Valid() && peer.Left(buf, k) && n <= |buf.Contents()|
    modifies buf`rdPtr, buf`wrPtr, buf`reserved, buf.data, peer
    ensures buf.Valid() && old(peer.sent) <= peer.sent && peer.Left(buf, k + |bytes|)
    ensures rv == Invalid <==> 0 < n && BrimsAt(old(peer.script), old(Free(buf)), 0)
    ensures rv == Invalid ==> |old(buf.Contents())| < buf.size == |buf.Contents()|
    ensures k + |bytes| <= |peer.sent| && bytes == peer.sent[k..k + |bytes|]
    ensures |bytes| == if rv == Success then n else 0
    ensures peer.script == Rest(old(peer.script), if n == 0 then 0 else 1)
    ensures Free(buf) == FreeAfter(old(peer.script), old(Free(buf)), if n == 0 then 0 else 1) + |bytes|
    ensures n == 0 ==> unchanged(buf) && unchanged(buf.data) && unchanged(peer)
  {
    hide Cbuf.Valid, FreeAfter, BrimsAt, Cbuf.Contents;
    StartOfTurns(peer.script, Free(buf));
    if n == 0 {
      return Success, [];
    }
    var level := LookAtFill(buf, peer, k);
    if level < n {
      return Invalid, [];
    }
    ghost var c := buf.Contents();
    rv, bytes := buf.Read(n);
    assert c == peer.sent[k..];
    assert peer.sent[k..][..n] == peer.sent[k..k + n] && peer.sent[k..][n..] == peer.sent[k + n..];
  }

  /** gb_util_cbuf_read: as much as there is, up to `size`. The feeder has a turn in each of the
      two looks at the level, and one between them. Nothing is read exactly if it fills the buffer
      to the brim during the first look, and the call fails exactly if it does so during the
      second. */
  method CbufRead(buf: Cbuf, size: nat, peer: Feeder, ghost k: nat)
    returns (rv: Code, bytes: seq<byte>)
    requires buf.Valid() && peer.Left(buf, k)
    modifies buf`rdPtr, buf`wrPtr, buf`reserved, buf.data, peer
    ensures buf.Valid() && rv in {Ok, Failed} && |bytes| <= size
    ensures old(peer.sent) <= peer.sent && peer.Left(buf, k + |bytes|)
    ensures bytes == peer.sent[k..k + |bytes|]
    ensures var script, free := old(peer.script), old(Free(buf));
            var avail := buf.size - FreeAfter(script, free, 1);
            && (rv == Failed <==>
                  0 < size && 0 < avail && !BrimsAt(script, free, 0) && BrimsAt(script, free, 2))
            && |bytes| == (if rv == Failed || BrimsAt(script, free, 0) then 0 else Min(avail, size))
            && |old(buf.Contents())| <= avail
    ensures BrimsAt(old(peer.script), old(Free(buf)), 0) || rv == Failed ==>
              bytes == [] && |old(buf.Contents())| < buf.size == |buf.Contents()|
  {
    hide Cbuf.Valid, Rest, FreeAfter, BrimsAt, Cbuf.Contents;
    ghost var script, free := peer.script, Free(buf);
    FeedFurther(script, free, 1, 1);
    FeedFurther(script, free, 2, 0);
    var level := LookAtFill(buf, peer, k);
    var sizeReadReq := Min(level, size);
    peer.Turn(buf, k);
    var status;
    status, bytes := ContendedRead(buf, peer, k, sizeReadReq);
    rv := if status == Success then Ok else Failed;
  }

  /** The level a look sees that starts after `i` turns. */
  function SeenAt(script: seq<seq<byte>>, free: nat, cap: nat, i: nat): (level: nat)
    requires free <= cap
  {
    FeedingShrinks(script, free, i);
    FeedingShrinks(script, free, i + 1);
    if BrimsAt(script, free, i) then 0 else cap - FreeAfter(script, free, i + 1)
  }

  /** How the waiting half of gb_util_cbuf_read_b ends, and the number of turns the feeder has had
      by then: one in each look at the level, and one before each wait. */
  function Waiting(script: seq<seq<byte>>, free: nat, cap: nat, size: nat, timed: bool,
                   waits: seq<Wait>): (r: (Code, nat))
    requires free <= cap
    ensures r.0 != Failed && 0 < r.1
    decreases |waits|
  {
    FeedingShrinks(script, free, 1);
    if size <= SeenAt(script, free, cap, 0) then (Ok, 1)
    else if waits == [] then (Blocked, 2)
    else
      EndMeans(waits[0], timed);
      var end := EndOf(waits[0], timed);
      if end != Ok then (end, 2)
      else
        var later := Waiting(Rest(script, 2), FreeAfter(script, free, 2), cap, size, timed, waits[1..]);
        (later.0, 2 + later.1)
  }

  /** A call that does not expire or end otherwise has seen enough in its last look; a call that
      expires had a timeout, and one that is cancelled was. */
  lemma {:induction false} WaitingMeans(script: seq<seq<byte>>, free: nat, cap: nat, size: nat,
                                        timed: bool, waits: seq<Wait>)
    requires free <= cap
    ensures var r := Waiting(script, free, cap, size, timed, waits);
            && (r.0 == Ok ==> size <= SeenAt(script, free, cap, r.1 - 1))
            && (r.0 == Timeout ==> timed && TimedOut in waits)
            && (r.0 == Cancelled ==> Canceled in waits)
    decreases |waits|
  {
    hide EndOf, Rest, FreeAfter, BrimsAt;
    FeedingShrinks(script, free, 1);
    if size > SeenAt(script, free, cap, 0) && waits != [] {
      EndMeans(waits[0], timed);
      if EndOf(waits[0], timed) == Ok {
        var script2, free2 := Rest(script, 2), FreeAfter(script, free, 2);
        WaitingMeans(script2, free2, cap, size, timed, waits[1..]);
        var turns := Waiting(script2, free2, cap, size, timed, waits[1..]).1;
        FeedFurther(script, free, 2, turns - 1);
        FeedFurther(script, free, 2, turns);
      }
    }
  }

  /** The waiting half of gb_util_cbuf_read_b: look at the level until it is high enough. */
  method AwaitLevel(buf: Cbuf, size: nat, timed: bool, waits: seq<Wait>, peer: Feeder, ghost k: nat)
    returns (rv: Code, ghost turns: nat)
    requires buf.Valid() && peer.Left(buf, k)
    modifies buf`wrPtr, buf`reserved, buf.data, peer
    ensures buf.Valid() && old(peer.sent) <= peer.sent && peer.Left(buf, k)
    ensures peer.Fed(buf, old(peer.script), old(Free(buf)), turns)
    ensures (rv, turns) == Waiting(old(peer.script), old(Free(buf)), buf.size, size, timed, waits)
  {
    hide Cbuf.Contents, Cbuf.Valid, EndOf, Rest, FreeAfter, BrimsAt, Waiting, WaitsLike;
    ghost var script, free := peer.script, Free(buf);
    StartOfTurns(script, free);
    var level := LookAtFill(buf, peer, k);
    NoTurnYet(script, free, buf.size, size, timed, waits);
    var i := 0;
    rv, turns := Ok, 1;
    while level < size
      invariant buf.Valid() && 0 <= i <= |waits|
      invariant old(peer.sent) <= peer.sent && peer.Left(buf, k)
      invariant peer.Fed(buf, script, free, turns) && 0 < turns
      invariant WaitsLike(script, free, buf.size, size, timed, waits, turns - 1, i)
      invariant level == SeenAt(script, free, buf.size, turns - 1)
      invariant rv == Ok
      decreases |waits| - i
    {
      FeedFurther(script, free, turns, 1);
      OneMoreWait(script, free, buf.size, size, timed, waits, turns - 1, i);
      peer.Turn(buf, k);
      turns := turns + 1;
      if i == |waits| {
        return Blocked, turns;
      }
      rv := EndOf(waits[i], timed);
      i := i + 1;
      if rv != Ok {
        return;
      }
      FeedFurther(script, free, turns, 0);
      FeedFurther(script, free, turns, 1);
      level := LookAtFill(buf, peer, k);
      turns := turns + 1;
    }
    LastWait(script, free, buf.size, size, timed, waits, turns - 1, i);
  }

  /** A call that has had `turns` turns and `i` waits goes on as one that starts there. */
  ghost predicate WaitsLike(script: seq<seq<byte>>, free: nat, cap: nat, size: nat, timed: bool,
                            waits: seq<Wait>, turns: nat, i: nat)
    requires free <= cap && i <= |waits|
  {
    && FreeAfter(script, free, turns) <= cap
    && var later := Waiting(Rest(script, turns), FreeAfter(script, free, turns), cap, size, timed,
                            waits[i..]);
       Waiting(script, free, cap, size, timed, waits) == (later.0, turns + later.1)
  }

  lemma NoTurnYet(script: seq<seq<byte>>, free: nat, cap: nat, size: nat, timed: bool, waits: seq<Wait>)
    requires free <= cap
    ensures WaitsLike(script, free, cap, size, timed, waits, 0, 0)
  {
    StartOfTurns(script, free);
    assert waits[0..] == waits;
  }

  lemma OneMoreWait(script: seq<seq<byte>>, free: nat, cap: nat, size: nat, timed: bool,
                    waits: seq<Wait>, turns: nat, i: nat)
    requires free <= cap && i <= |waits| && WaitsLike(script, free, cap, size, timed, waits, turns, i)
    requires SeenAt(script, free, cap, turns) < size
    ensures var end := if i == |waits| then Blocked else EndOf(waits[i], timed);
            && end != Failed
            && if end == Ok then WaitsLike(script, free, cap, size, timed, waits, turns + 2, i + 1)
               else Waiting(script, free, cap, size, timed, waits) == (end, turns + 2)
  {
    hide EndOf, Rest, FreeAfter, BrimsAt;
    FeedFurther(script, free, turns, 0);
    FeedFurther(script, free, turns, 1);
    FeedFurther(script, free, turns, 2);
    FeedingShrinks(script, free, turns + 1);
    FeedingShrinks(script, free, turns + 2);
    if i < |waits| {
      EndMeans(waits[i], timed);
      assert waits[i..][0] == waits[i] && waits[i..][1..] == waits[i + 1..];
    }
  }

  lemma LastWait(script: seq<seq<byte>>, free: nat, cap: nat, size: nat, timed: bool,
                 waits: seq<Wait>, turns: nat, i: nat)
    requires free <= cap && i <= |waits| && WaitsLike(script, free, cap, size, timed, waits, turns, i)
    requires size <= SeenAt(script, free, cap, turns)
    ensures Waiting(script, free, cap, size, timed, waits) == (Ok, turns + 1)
  {
    hide Rest, FreeAfter, BrimsAt;
    FeedFurther(script, free, turns, 0);
    FeedFurther(script, free, turns, 1);
  }

  lemma StartOfTurns(script: seq<seq<byte>>, free: nat)
    ensures Rest(script, 0) == script && FreeAfter(script, free, 0) == free
  {
  }

  /** gb_util_cbuf_read_b: wait until `size` bytes are there, then read them. The bytes returned
      are the oldest ones, whatever the other side adds meanwhile.

      The feeder has had `turns` turns when the wait ends, as `Waiting` says. It has one more before
      the final read, one in each look of that, and one between the looks. `missed1` and `missed2`
      tell whether it fills the buffer to the brim during the first or the second of them. A timeout
      is reported exactly if a wait expired or the first look missed the bytes; success is reported
      with no bytes exactly if the second look missed them. */
  method CbufReadB(buf: Cbuf, size: nat, timed: bool, waits: seq<Wait>, peer: Feeder,
                   ghost k: nat)
    returns (rv: Code, bytes: seq<byte>, ghost turns: nat, ghost missed1: bool, ghost missed2: bool)
    requires buf.Valid() && peer.Left(buf, k)
    modifies buf`rdPtr, buf`wrPtr, buf`reserved, buf.data, peer
    ensures buf.Valid() && old(peer.sent) <= peer.sent && peer.Left(buf, k + |bytes|)
    ensures bytes == peer.sent[k..k + |bytes|] && |bytes| <= size
    ensures rv == Failed <==> size > buf.size
    ensures rv == Failed ==> bytes == [] && unchanged(buf) && unchanged(buf.data) && unchanged(peer)
    ensures size <= buf.size ==>
              var script, free := old(peer.script), old(Free(buf));
              var wait := Waiting(script, free, buf.size, size, timed, waits);
              var seen := Min(SeenAt(script, free, buf.size, turns + 1), size);
              && turns == wait.1
              && (missed1 <==> wait.0 in {Ok, Timeout} && 0 < size && BrimsAt(script, free, turns + 1))
              && (missed2 <==> wait.0 in {Ok, Timeout} && 0 < seen && BrimsAt(script, free, turns + 3))
              && rv == (if missed1 then Timeout else wait.0)
              && |bytes| == (if wait.0 in {Cancelled, Blocked} || missed1 || missed2 then 0 else seen)
    ensures rv == Ok ==> |bytes| == if missed2 then 0 else size
    ensures missed1 || missed2 ==> bytes == [] && |old(buf.Contents())| < buf.size == |buf.Contents()|
    ensures old(peer.script) == [] ==> !missed1 && !missed2
    ensures rv == Timeout ==> missed1 || (timed && TimedOut in waits)
    ensures rv == Cancelled ==> Canceled in waits
  {
    hide Cbuf.Contents, Cbuf.Valid, Rest, FreeAfter, BrimsAt, Waiting;
    ghost var script, free := peer.script, Free(buf);
    bytes, turns, missed1, missed2 := [], 0, false, false;
    if size > buf.size {
      return Failed, [], 0, false, false;
    }
    rv, turns := AwaitLevel(buf, size, timed, waits, peer, k);
    WaitingMeans(script, free, buf.size, size, timed, waits);
    if rv == Cancelled || rv == Blocked {
      return;
    }
    AfterWaiting(script, free, buf.size, turns);
    peer.Turn(buf, k);
    var retval := rv;
    rv, bytes := CbufRead(buf, size, peer, k);
    missed1 := 0 < size && BrimsAt(script, free, turns + 1);
    missed2 := rv == Failed;
    if rv == Ok && |bytes| != size {
      retval := Timeout;
    }
    rv := retval;
  }

  /** The final read, counted from the start of the call: what its looks see, and that they miss
      something at most once. */
  lemma AfterWaiting(script: seq<seq<byte>>, free: nat, cap: nat, turns: nat)
    requires free <= cap && 0 < turns
    ensures var script1, free1 := Rest(script, turns), FreeAfter(script, free, turns);
            var script2, free2 := Rest(script1, 1), FreeAfter(script1, free1, 1);
            && free2 <= free1 <= free
            && (BrimsAt(script2, free2, 0) <==> BrimsAt(script, free, turns + 1))
            && (BrimsAt(script2, free2, 2) <==> BrimsAt(script, free, turns + 3))
            && FreeAfter(script2, free2, 1) == FreeAfter(script, free, turns + 2)
            && SeenAt(script, free, cap, turns - 1) <= cap - free2
            && !(BrimsAt(script, free, turns + 1) && BrimsAt(script, free, turns + 3))
            && (script == [] ==> !BrimsAt(script, free, turns + 1) && !BrimsAt(script, free, turns + 3))
  {
    hide Rest, FreeAfter, BrimsAt;
    if script == [] {
      NothingToFeed(script, free, turns + 1);
      NothingToFeed(script, free, turns + 3);
    }
    FeedFurther(script, free, turns, 1);
    FeedFurther(script, free, turns + 1, 0);
    FeedFurther(script, free, turns + 1, 1);
    FeedFurther(script, free, turns + 1, 2);
    FeedFurther(script, free, turns + 2, 1);
    FeedingShrinks(script, free, turns - 1);
    FeedingShrinks(script, free, turns);
    FeedingShrinks(script, free, turns + 1);
    if BrimsAt(script, free, turns + 1) {
      NothingToFeed(Rest(script, turns + 2), 0, 1);
    }
  }

  /** cbuf_free_level as the writing side gets it, with a turn of the drainer in between. */
  method LookAtFree(buf: Cbuf, peer: Drainer) returns (level: nat)
    requires buf.Valid()
    modifies buf`rdPtr, peer
    ensures buf.Valid() && peer.Accepted(buf) == old(peer.Accepted(buf))
    ensures |buf.Contents()| <= |old(buf.Contents())|
    ensures level == FreeSeen(buf.size, old(|buf.Contents()|), |buf.Contents()|)
    ensures peer.Drained(buf, old(peer.script), old(|buf.Contents()|), 1)
  {
    hide Rest, LevelAfter;
    var rdSeen := buf.rdPtr;
    peer.Turn(buf);
    WriterLevel(buf.size, buf.wrPtr, rdSeen, buf.rdPtr);
    level := buf.size - Ring.FillLevel(buf.size, buf.wrPtr, rdSeen, buf.wrPtr, buf.rdPtr);
  }

  /** cbuf_write by the writing side. */
  method Append(buf: Cbuf, bytes: seq<byte>, peer: Drainer) returns (status: Status)
    requires buf.Valid() && |bytes| <= buf.size - |buf.Contents()|
    modifies buf`wrPtr, buf`reserved, buf.data
    ensures buf.Valid() && status == Success
    ensures peer.Accepted(buf) == old(peer.Accepted(buf)) + bytes
    ensures |buf.Contents()| == |old(buf.Contents())| + |bytes|
  {
    hide Cbuf.Valid, Cbuf.Contents;
    ghost var before := buf.Contents();
    status := buf.Write(bytes);
    Associative(peer.taken, before, bytes);
  }

  /** gb_util_cbuf_write: as much as fits. A request that fitted once is never refused. The drainer
      has a turn in each of the two looks at the level, and one between them. */
  method CbufWrite(buf: Cbuf, data: seq<byte>, peer: Drainer) returns (rv: Code, written: nat)
    requires buf.Valid()
    modifies buf`rdPtr, buf`wrPtr, buf`reserved, buf.data, peer
    ensures buf.Valid() && rv == Ok && written <= |data|
    ensures peer.Accepted(buf) == old(peer.Accepted(buf)) + data[..written]
    ensures written == |data| || written >= buf.size - |old(buf.Contents())|
    ensures var script, level := old(peer.script), old(|buf.Contents()|);
            && LevelAfter(script, level, 1) <= buf.size
            && written == Min(|data|, FreeSeen(buf.size, level, LevelAfter(script, level, 1)))
            && peer.script == Rest(script, 3)
            && |buf.Contents()| == LevelAfter(script, level, 3) + written
  {
    hide Cbuf.Contents, Cbuf.Valid, peer.Accepted, Rest, LevelAfter;
    DrainFurther(peer.script, |buf.Contents()|, 1, 1);
    DrainFurther(peer.script, |buf.Contents()|, 2, 1);
    var level := LookAtFree(buf, peer);
    written := Min(|data|, level);
    peer.Turn(buf);
    level := LookAtFree(buf, peer);
    rv := if written <= level then Ok else Failed;
    var status := Append(buf, data[..written], peer);
  }

  /** One piece of gb_util_cbuf_write_b, with four turns of the drainer: how much is written, and the
      level then. */
  function Piece(script: seq<nat>, level: nat, cap: nat, len: nat): (p: (nat, nat))
    requires level <= cap
    ensures Min(len, cap - level) <= p.0 <= len && p.1 <= cap
    ensures script == [] ==> p.0 == Min(len, cap - level) && p.1 == level + p.0
  {
    DrainingShrinks(script, level, 0);
    DrainingShrinks(script, level, 1);
    DrainingShrinks(script, level, 2);
    DrainingShrinks(script, level, 3);
    DrainingShrinks(script, level, 4);
    var n := Min(len, FreeSeen(cap, LevelAfter(script, level, 1), LevelAfter(script, level, 2)));
    (n, LevelAfter(script, level, 4) + n)
  }

  /** The level after one or two more turns. */
  function Lower(script: seq<nat>, level: nat, i: nat): (l: nat)
    ensures l <= level && (script == [] ==> l == level)
  {
    DrainingShrinks(script, level, i);
    LevelAfter(script, level, i)
  }

  /** How gb_util_cbuf_write_b ends, how much it has written then, and what the level is. The
      drainer has four turns around each piece, one in the look that follows if there is more to
      write, and one before a wait. */
  function Writing(script: seq<nat>, level: nat, cap: nat, len: nat, timed: bool, waits: seq<Wait>):
    (r: (Code, nat, nat))
    requires level <= cap
    ensures r.1 <= len && r.2 <= cap
    decreases |script|, len, |waits|
  {
    var p, left := Piece(script, level, cap, len), Rest(script, 4);
    if p.0 == len then (Ok, p.0, p.1)
    else if p.1 < cap then
      var r := Writing(Rest(left, 1), Lower(left, p.1, 1), cap, len - p.0, timed, waits);
      (r.0, p.0 + r.1, r.2)
    else if waits == [] then (Blocked, p.0, Lower(left, p.1, 1))
    else
      var end := EndOf(waits[0], timed);
      if end != Ok then (end, p.0, Lower(left, p.1, 2))
      else
        var r := Writing(Rest(left, 2), Lower(left, p.1, 2), cap, len - p.0, timed, waits[1..]);
        (r.0, p.0 + r.1, r.2)
  }

  /** Success means everything; at least as much is written as is free at the call; without a reader
      on the other side the call ends otherwise only with a full buffer. */
  lemma {:induction false} WritingMeans(script: seq<nat>, level: nat, cap: nat, len: nat, timed: bool,
                                        waits: seq<Wait>)
    requires level <= cap
    ensures var r := Writing(script, level, cap, len, timed, waits);
            && r.0 != Failed && (r.0 == Ok <==> r.1 == len)
            && r.1 >= Min(len, cap - level)
            && (r.0 == Timeout ==> timed && TimedOut in waits)
            && (r.0 == Cancelled ==> Canceled in waits)
            && (script == [] ==> r.2 == level + r.1 && (r.0 != Ok ==> r.2 == cap))
    decreases |script|, len, |waits|
  {
    hide EndOf, Piece, Lower;
    var p, left := Piece(script, level, cap, len), Rest(script, 4);
    if p.0 < len {
      if p.1 < cap {
        WritingMeans(Rest(left, 1), Lower(left, p.1, 1), cap, len - p.0, timed, waits);
      } else if waits != [] {
        EndMeans(waits[0], timed);
        if EndOf(waits[0], timed) == Ok {
          WritingMeans(Rest(left, 2), Lower(left, p.1, 2), cap, len - p.0, timed, waits[1..]);
        }
      }
    }
  }

  /** gb_util_cbuf_write_b: write in pieces until everything is in the buffer. */
  method CbufWriteB(buf: Cbuf, data: seq<byte>, timed: bool, waits: seq<Wait>, peer: Drainer)
    returns (rv: Code, written: nat)
    requires buf.Valid()
    modifies buf`rdPtr, buf`wrPtr, buf`reserved, buf.data, peer
    ensures buf.Valid() && written <= |data| && rv != Failed
    ensures peer.Accepted(buf) == old(peer.Accepted(buf)) + data[..written]
    ensures rv == Ok <==> written == |data|
    ensures rv == Timeout ==> timed && TimedOut in waits
    ensures rv == Cancelled ==> Canceled in waits
    ensures (rv, written, |buf.Contents()|)
         == Writing(old(peer.script), old(|buf.Contents()|), buf.size, |data|, timed, waits)
  {
    hide Cbuf.Contents, Cbuf.Valid, peer.Accepted, Rest, LevelAfter, Writing, WritesLike, Piece, Lower;
    ghost var whole := Writing(peer.script, |buf.Contents()|, buf.size, |data|, timed, waits);
    WritingMeans(peer.script, |buf.Contents()|, buf.size, |data|, timed, waits);
    NothingWritten(peer.script, |buf.Contents()|, buf.size, |data|, timed, waits);
    var sizeDone := 0;
    var i := 0;
    while true
      invariant buf.Valid() && 0 <= i <= |waits| && 0 <= sizeDone <= |data|
      invariant peer.Accepted(buf) == old(peer.Accepted(buf)) + data[..sizeDone]
      invariant WritesLike(whole, peer.script, |buf.Contents()|, buf.size, |data| - sizeDone, timed,
                           waits[i..], sizeDone)
      decreases |peer.script|, |data| - sizeDone, |waits| - i
    {
      ghost var script, level0, len := peer.script, |buf.Contents()|, |data| - sizeDone;
      WritePiece(whole, script, level0, buf.size, len, timed, waits[i..], sizeDone);
      var n := WriteOnce(buf, data[sizeDone..], peer);
      assert data[..sizeDone] + data[sizeDone..][..n] == data[..sizeDone + n];
      sizeDone := sizeDone + n;
      if sizeDone == |data| {
        return Ok, sizeDone;
      }
      LookAfterPiece(peer.script, |buf.Contents()|);
      var level := LookAtFree(buf, peer);
      if level == 0 {
        if i == |waits| {
          return Blocked, sizeDone;
        }
        rv := EndOf(waits[i], timed);
        assert waits[i..][0] == waits[i] && waits[i..][1..] == waits[i + 1..];
        i := i + 1;
        peer.Turn(buf);
        if rv != Ok {
          return rv, sizeDone;
        }
      }
    }
  }

  /** One piece, after a turn of the drainer. */
  method WriteOnce(buf: Cbuf, data: seq<byte>, peer: Drainer) returns (n: nat)
    requires buf.Valid()
    modifies buf`rdPtr, buf`wrPtr, buf`reserved, buf.data, peer
    ensures buf.Valid() && n <= |data|
    ensures peer.Accepted(buf) == old(peer.Accepted(buf)) + data[..n]
    ensures peer.script == Rest(old(peer.script), 4)
    ensures (n, |buf.Contents()|) == Piece(old(peer.script), old(|buf.Contents()|), buf.size, |data|)
  {
    hide Cbuf.Contents, Cbuf.Valid, peer.Accepted, Rest, LevelAfter;
    DrainFurther(peer.script, |buf.Contents()|, 1, 1);
    DrainFurther(peer.script, |buf.Contents()|, 1, 3);
    peer.Turn(buf);
    var status;
    status, n := CbufWrite(buf, data, peer);
  }

  lemma LookAfterPiece(script: seq<nat>, level: nat)
    ensures LevelAfter(script, level, 1) == Lower(script, level, 1)
    ensures LevelAfter(Rest(script, 1), Lower(script, level, 1), 1) == Lower(script, level, 2)
    ensures Rest(Rest(script, 1), 1) == Rest(script, 2)
  {
    DrainFurther(script, level, 1, 1);
  }

  /** A call that has written `done` bytes goes on as one that starts there. */
  ghost predicate WritesLike(whole: (Code, nat, nat), script: seq<nat>, level: nat, cap: nat, len: nat,
                             timed: bool, waits: seq<Wait>, done: nat)
  {
    && level <= cap
    && var r := Writing(script, level, cap, len, timed, waits);
       whole == (r.0, done + r.1, r.2)
  }

  lemma NothingWritten(script: seq<nat>, level: nat, cap: nat, len: nat, timed: bool, waits: seq<Wait>)
    requires level <= cap
    ensures WritesLike(Writing(script, level, cap, len, timed, waits), script, level, cap, len, timed,
                       waits[0..], 0)
  {
    assert waits[0..] == waits;
  }

  lemma WritePiece(whole: (Code, nat, nat), script: seq<nat>, level: nat, cap: nat, len: nat,
                   timed: bool, waits: seq<Wait>, done: nat)
    requires WritesLike(whole, script, level, cap, len, timed, waits, done)
    ensures var p, left := Piece(script, level, cap, len), Rest(script, 4);
            var l1, l2 := Lower(left, p.1, 1), Lower(left, p.1, 2);
            if p.0 == len then whole == (Ok, done + p.0, p.1)
            else if p.1 < cap then
              && WritesLike(whole, Rest(left, 1), l1, cap, len - p.0, timed, waits, done + p.0)
              && (|Rest(left, 1)| < |script| || (|Rest(left, 1)| == |script| && 0 < p.0))
            else if waits == [] then whole == (Blocked, done + p.0, l1)
            else if EndOf(waits[0], timed) != Ok then whole == (EndOf(waits[0], timed), done + p.0, l2)
            else
              && WritesLike(whole, Rest(left, 2), l2, cap, len - p.0, timed, waits[1..], done + p.0)
              && |Rest(left, 2)| <= |script|
  {
    hide EndOf, Piece, Lower;
  }

  // Single calls of the communication threads, with the application at work on the other side.

  /** cbuf_peek by the reading side: it fails exactly if the application fills the buffer to the
      brim during the look at the level. */
  method ContendedPeek(buf: Cbuf, app: Feeder, ghost k: nat, n: nat)
    returns (rv: Status, bytes: seq<byte>)
    requires buf.Valid() && app.Left(buf, k) && n <= |buf.Contents()|
    modifies buf`wrPtr, buf`reserved, buf.data, buf`readTmp, buf.readTmp, app
    ensures buf.Valid() && app.Left(buf, k) && old(app.sent) <= app.sent
    ensures buf.readTmp == old(buf.readTmp) || fresh(buf.readTmp)
    ensures |buf.Contents()| >= |old(buf.Contents())|
    ensures rv == Success ==> bytes == app.sent[k..k + n]
    ensures rv == Invalid <==>
              0 < n && |old(buf.Contents())| < buf.size && |buf.Contents()| == buf.size
    ensures rv == Invalid <==> 0 < n && BrimsAt(old(app.script), old(Free(buf)), 0)
    ensures app.Fed(buf, old(app.script), old(Free(buf)), if n == 0 then 0 else 1)
  {
    hide BrimsAt;
    if n == 0 {
      return Success, [];
    }
    var level := LookAtFill(buf, app, k);
    if level < n {
      return Invalid, [];
    }
    var block, off;
    rv, block, off := buf.Peek(n);
    bytes := block[off..off + n];
  }

  /** cbuf_discard by the reading side, which fails in the same case. */
  method ContendedDiscard(buf: Cbuf, app: Feeder, ghost k: nat, n: nat) returns (rv: Status)
    requires buf.Valid() && app.Left(buf, k) && n <= |buf.Contents()|
    modifies buf`wrPtr, buf`rdPtr, buf`reserved, buf.data, app
    ensures buf.Valid() && old(app.sent) <= app.sent
    ensures app.Left(buf, if rv == Success then k + n else k)
    ensures rv == Invalid <==> 0 < n && BrimsAt(old(app.script), old(Free(buf)), 0)
    ensures rv == Invalid ==> |old(buf.Contents())| < buf.size == |buf.Contents()|
    ensures app.script == Rest(old(app.script), 1)
    ensures Free(buf) == FreeAfter(old(app.script), old(Free(buf)), 1)
                         + if rv == Success then n else 0
  {
    hide Cbuf.Valid, BrimsAt, FreeAfter, Rest;
    var level := LookAtFill(buf, app, k);
    if level < n {
      return Invalid;
    }
    ghost var c := buf.Contents();
    buf.AdvanceRdPtr(n);
    assert c[n..] == app.sent[k + n..];
    return Success;
  }

  /** cbuf_write by the writing side: with enough room once, it never fails. */
  method ContendedWrite(buf: Cbuf, sink: Drainer, bytes: seq<byte>) returns (rv: Status)
    requires buf.Valid() && |bytes| <= buf.size - |buf.Contents()|
    modifies buf`rdPtr, buf`wrPtr, buf`reserved, buf.data, sink
    ensures buf.Valid() && rv == Success
    ensures sink.Accepted(buf) == old(sink.Accepted(buf)) + bytes
    ensures sink.script == Rest(old(sink.script), 1)
    ensures |buf.Contents()| == LevelAfter(old(sink.script), old(|buf.Contents()|), 1) + |bytes|
    ensures |buf.Contents()| <= |old(buf.Contents())| + |bytes|
  {
    hide Cbuf.Valid, Cbuf.Contents, Drainer.Accepted, Rest, LevelAfter;
    var level := LookAtFree(buf, sink);
    assert |bytes| <= level;
    rv := Append(buf, bytes, sink);
  }

  // Runs in which the reading side misses bytes that are there.

  /** A buffer for two bytes that holds one, and an application that adds the second one in turn
      number `i`. */
  method OneOfTwo(i: nat) returns (buf: Cbuf, peer: Feeder)
    ensures fresh(buf.Repr()) && fresh(peer) && buf.Valid() && buf.size == 2
    ensures |buf.Contents()| == 1 && peer.Left(buf, 0)
    ensures forall t: nat :: BrimsAt(peer.script, Free(buf), t) <==> t == i
  {
    TwoIsASize();
    buf := new Cbuf(2);
    var rv := buf.Write([0]);
    peer := new Feeder(Later(i, [1]), buf);
    forall t: nat
      ensures BrimsAt(peer.script, Free(buf), t) <==> t == i
    {
      LaterBrims(i, [1], 1, t);
    }
  }

  lemma TwoIsASize()
    ensures And(2, 1) == 0
  {
    assert And(1, 0) == 0 by { assert And(0, 0) == 0; }
  }

  /** A script of `i` turns without effect before a given block. */
  function Later(i: nat, block: seq<byte>): (script: seq<seq<byte>>)
    ensures script != []
  {
    if i == 0 then [block] else [[]] + Later(i - 1, block)
  }

  lemma {:induction false} LaterBrims(i: nat, block: seq<byte>, free: nat, t: nat)
    requires 0 < free == |block|
    ensures BrimsAt(Later(i, block), free, t) <==> t == i
  {
    if i > 0 && t > 0 {
      LaterBrims(i - 1, block, free, t - 1);
    }
  }

  /** gb_util_cbuf_read fails, or returns nothing, although the byte asked for is there. */
  method ReadMissesExample() returns (failed: (Code, seq<byte>), empty: (Code, seq<byte>))
    ensures failed == (Failed, []) && empty == (Ok, [])
  {
    var buf, peer := OneOfTwo(2);
    var rv, bytes := CbufRead(buf, 1, peer, 0);
    failed := (rv, bytes);
    buf, peer := OneOfTwo(0);
    rv, bytes := CbufRead(buf, 1, peer, 0);
    empty := (rv, bytes);
  }

  /** gb_util_cbuf_read_b without a timeout returns 0 without a byte, or reports a timeout, although
      the byte asked for is there from the start. */
  method ReadBMissesExample() returns (nothing: (Code, seq<byte>), timeout: (Code, seq<byte>))
    ensures nothing == (Ok, []) && timeout == (Timeout, [])
  {
    var buf, peer := OneOfTwo(4);
    var rv, bytes, turns, m1, m2 := CbufReadB(buf, 1, false, [], peer, 0);
    nothing := (rv, bytes);
    buf, peer := OneOfTwo(2);
    rv, bytes, turns, m1, m2 := CbufReadB(buf, 1, false, [], peer, 0);
    timeout := (rv, bytes);
  }
}
