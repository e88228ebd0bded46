/** What the communication thread of the UART backend does in a round, as functions of the state in
    which the round starts and of the turns the applications are going to take. */
module UartStates {
  import opened Bits
  import opened CbufUtil
  import opened UartCodec

  const TMP_BUFFER_SIZE: nat := 256

  /** How a piece of the thread ends: normally, at a failed assertion of the parser or about
      cbuf_read, or waiting forever for a byte or for space that never comes. */
  datatype Outcome = Done | ParserFailed | ReadFailed | Hung

  // The input buffer.

  /** The reading application's turns to come, and the level of the input buffer. */
  datatype Inbox = Inbox(drain: seq<nat>, level: nat)
  {
    /** After `i` turns. */
    function After(i: nat): (b: Inbox)
      ensures b.level <= level && |b.drain| <= |drain|
    {
      DrainingShrinks(drain, level, i);
      Inbox(Rest(drain, i), LevelAfter(drain, level, i))
    }
  }

  lemma AfterFurther(box: Inbox, i: nat, j: nat)
    ensures box.After(i).After(j) == box.After(i + j) && box.After(0) == box
  {
    DrainFurther(box.drain, box.level, i, j);
  }

  /** After `n` words have been stored, with a turn of the application in the look before each. */
  function Stored(box: Inbox, n: nat): (b: Inbox)
    ensures b.level <= box.level + n
  {
    if n == 0 then box
    else
      var b := Stored(box, n - 1).After(1);
      Inbox(b.drain, b.level + 1)
  }

  lemma {:induction false} StoredFurther(box: Inbox, n: nat, m: nat)
    ensures Stored(Stored(box, n), m) == Stored(box, n + m)
  {
    if m > 0 {
      StoredFurther(box, n, m - 1);
    }
  }

  /** The tranche update_credit announces, with a turn of the application in the look at the free
      level. If the buffer is full at its start the space freed is not seen, but then there is no
      credit either: the difference is never negative. */
  function Tranche(cap: nat, box: Inbox, credit: nat): (n: nat)
    requires credit + box.level <= cap
    ensures n <= MAX_TRANCHE && credit + n + box.After(1).level <= cap
  {
    Min(FreeSeen(cap, box.level, box.After(1).level) - credit, MAX_TRANCHE)
  }

  /** Something is announced unless there is no room, or the buffer is full at the start of the look. */
  lemma TrancheMeans(cap: nat, box: Inbox, credit: nat)
    requires credit + box.level <= cap
    ensures var n := Tranche(cap, box, credit);
            n == 0 <==> box.level == cap || credit + box.After(1).level == cap
  {
  }

  lemma NoMessages()
    ensures EncodeAll([]) == [] && Words([]) == [] && Credits([]) == 0
  {
  }

  function Announcing(n: nat): (ms: seq<Msg>)
    requires n <= MAX_TRANCHE
    ensures Encodable(ms) && Words(ms) == [] && Credits(ms) == n
  {
    assert [Credit(n)][1..] == [];
    if n == 0 then [] else [Credit(n)]
  }

  /** How the wait for two words of credit ends: does it, which messages are sent, and credit and
      input buffer then. */
  datatype Granting = Granting(ok: bool, grants: seq<Msg>, credit: nat, box: Inbox)
  {
    function Behind(ms: seq<Msg>): Granting {
      this.(grants := ms + grants)
    }
  }

  /** The application has a turn before each update of the credit, and one in it. The wait is endless
      if it never reads again and there is no room. */
  function Grant(cap: nat, box: Inbox, credit: nat): (g: Granting)
    requires credit + box.level <= cap
    ensures g.credit + g.box.level <= cap
    decreases |box.drain|, 2 - Min(2, credit)
  {
    if credit >= 2 then Granting(true, [], credit, box)
    else if box.drain == [] && cap - box.level <= credit then Granting(false, [], credit, box)
    else
      var b := box.After(1);
      var n := Tranche(cap, b, credit);
      NothingDrained(box);
      Grant(cap, b.After(1), credit + n).Behind(Announcing(n))
  }

  lemma NothingDrained(box: Inbox)
    ensures if box.drain == [] then box.After(1) == box else |box.After(1).drain| < |box.drain|
  {
    DrainingShrinks(box.drain, box.level, 1);
  }

  /** One turn of the wait. */
  lemma GrantUnfolds(cap: nat, box: Inbox, credit: nat)
    requires credit + box.level <= cap
    ensures var g, b := Grant(cap, box, credit), box.After(1);
            if credit >= 2 then g == Granting(true, [], credit, box)
            else if box.drain == [] && cap - box.level <= credit then g == Granting(false, [], credit, box)
            else
              var n := Tranche(cap, b, credit);
              g == Grant(cap, b.After(1), credit + n).Behind(Announcing(n))
  {
  }

  /** The messages sent are tranches of credit, and counted; two words are granted exactly if the wait
      ends; nothing is sent if they were granted before. */
  lemma {:induction false} GrantMeans(cap: nat, box: Inbox, credit: nat)
    requires credit + box.level <= cap
    ensures var g := Grant(cap, box, credit);
            && Encodable(g.grants) && Words(g.grants) == [] && g.credit == credit + Credits(g.grants)
            && (g.ok <==> g.credit >= 2) && g.box.level <= box.level
            && (credit >= 2 ==> g.grants == [] && g.box == box)
            && (!g.ok ==> g.box.drain == [] && cap <= g.credit + g.box.level)
    decreases |box.drain|, 2 - Min(2, credit)
  {
    hide Tranche, Announcing, Inbox.After, Words, Credits;
    NoMessages();
    if credit < 2 && !(box.drain == [] && cap - box.level <= credit) {
      var b := box.After(1);
      var n := Tranche(cap, b, credit);
      NothingDrained(box);
      TrancheMeans(cap, b, credit);
      GrantMeans(cap, b.After(1), credit + n);
      MsgsAppend(Announcing(n), Grant(cap, b.After(1), credit + n).grants);
    }
  }

  // The reading half.

  /** How many bytes are read beyond a chunk that leaves the parser in state `p`. */
  function TopUp(p: Parser, rx: seq<byte>): nat {
    match p
    case AtBoundary => 0
    case AfterFirst(_) => 1
    case AfterMark => if rx != [] && rx[0] == MARK then 1 else 2
  }

  /** The reading half of a round as it starts: the size of the input buffer and its state, the bytes
      to come, how many of them a read can return, and the credit. */
  datatype Reading = Reading(cap: nat, box: Inbox, rx: seq<byte>, offers: nat, credit: nat)
  {
    predicate Valid() {
      credit + box.level <= cap && offers <= |rx|
    }

    predicate Full() {
      box.level == cap
    }

    /** How many bytes come with the first read. */
    function First(): (n: nat)
      requires Valid()
      ensures n <= offers && n <= if Full() then 1 else TMP_BUFFER_SIZE
    {
      if Full() then Min(1, offers)
      else Min(Min(FreeSeen(cap, box.level, box.After(1).level), TMP_BUFFER_SIZE), offers)
    }

    function Chunk(): Parsed
      requires Valid()
    {
      Parse(AtBoundary, rx[..First()])
    }

    /** Does an assertion of the parser fail? */
    predicate Fails()
      requires Valid()
    {
      if Full() then First() > 0 && rx[0] != MARK else |Words(Chunk().msgs)| > credit
    }

    /** How many bytes are taken: three of a credit message, or a chunk with the rest of its last
        message. */
    function Consumed(): (k: nat)
      requires Valid()
      ensures First() <= k
    {
      if Full() then 3 * First() else First() + TopUp(Chunk().state, rx[First()..])
    }

    /** The input buffer when the chunk has been parsed, and the credit granted then. */
    function Parsed(): (b: Inbox)
      requires Valid() && !Fails()
      ensures Full() || credit - |Words(Chunk().msgs)| + b.level <= cap
    {
      if Full() then box.After(1) else Stored(box.After(1), |Words(Chunk().msgs)|)
    }

    function Granted(): Granting
      requires Valid() && !Fails()
    {
      if Full() then Granting(true, [], credit, Parsed())
      else
        var left := credit - |Words(Chunk().msgs)|;
        if Chunk().state == AfterMark then Grant(cap, Parsed(), left)
        else Granting(true, [], left, Parsed())
    }

    /** Does it end? It does not if there is never room for two words, or a byte never comes. */
    predicate Hangs()
      requires Valid() && !Fails()
    {
      !Granted().ok || Consumed() > |rx|
    }

    function Outcome(): Outcome
      requires Valid()
    {
      if Fails() then ParserFailed else if Hangs() then Hung else Done
    }

    predicate Ends()
    {
      Valid() && !Fails() && !Hangs()
    }

    /** The number of data words behind the chunk. */
    function More(): nat
      requires Ends()
    {
      if Full() then 0 else |Words(Parse(Chunk().state, rx[First()..Consumed()]).msgs)|
    }

    function BoxThen(): Inbox
      requires Ends()
    {
      Stored(Granted().box, More())
    }

    function CreditThen(): nat
      requires Ends()
    {
      if More() <= Granted().credit then Granted().credit - More() else 0
    }

    /** The credit for the host in the bytes taken. */
    function Gained(): nat
      requires Ends()
    {
      if !Full() then Credits(Parse(AtBoundary, rx[..Consumed()]).msgs)
      else if First() == 0 then 0 else TrancheOf(rx[1], rx[2])
    }

    /** Does the target keep to its credit as far as this depends on it: does no data word follow
        when the input buffer is full? */
    predicate Obeyed()
      requires Valid()
    {
      !Full() || Consumed() < 2 || |rx| < 2 || rx[1] != MARK
    }
  }

  lemma OutcomeMeans(t: Reading)
    requires t.Valid()
    ensures t.Outcome() != ReadFailed && (t.Outcome() == Done <==> t.Ends())
    ensures t.Ends() ==> t.Consumed() <= |t.rx|
  {
    hide Reading.Fails, Reading.Granted, Reading.Consumed;
  }

  // The writing half.

  /** The start of the writing half of a round: the turns of the writing application to come, how
      many it had since the thread started, the space it has, and the debt. */
  datatype Situation = Situation(script: seq<seq<byte>>, turns: nat, free: nat, debt: nat)
  {
    /** The size of the batch: the application has a turn during the look at the level. */
    function Batch(size: nat): nat
      requires free <= size
    {
      FeedingShrinks(script, free, 0);
      FeedingShrinks(script, free, 1);
      if debt == 0 || BrimsAt(script, free, 0) then 0
      else Min(size - FreeAfter(script, free, 1), Min(debt, TMP_BUFFER_SIZE))
    }

    /** Does the assertion about cbuf_read fail? The application has a turn between the two looks,
        and turn 2 in the second one. */
    predicate Fails(size: nat)
      requires free <= size
    {
      0 < Batch(size) && BrimsAt(script, free, 2)
    }

    /** The situation after `i` more turns. */
    function After(i: nat): Situation {
      Situation(Rest(script, i), turns + i, FreeAfter(script, free, i), debt)
    }

    /** How many turns the looks take. */
    function Turns(size: nat): nat
      requires free <= size
    {
      if debt == 0 then 0 else if Batch(size) == 0 then 1 else 3
    }

    /** The space after the batch and two more turns. */
    function FreeThen(size: nat): nat
      requires free <= size
    {
      var i := Turns(size);
      FreeAfter(Rest(script, i), FreeAfter(script, free, i) + Batch(size), 2)
    }
  }

  /** With the application at rest, the batch is what there is, up to the debt. */
  lemma QuietBatch(t: Situation, size: nat)
    requires t.free <= size && t.script == []
    ensures t.Batch(size) == Min(Min(t.debt, TMP_BUFFER_SIZE), size - t.free) && !t.Fails(size)
  {
    NothingToFeed([], t.free, 0);
    NothingToFeed([], t.free, 1);
    NothingToFeed([], t.free, 2);
  }

  // Resets.

  /** The reset messages among some messages. */
  function Resets(ms: seq<Msg>): seq<Msg> {
    if ms == [] then [] else ResetOf(ms[0]) + Resets(ms[1..])
  }

  function ResetOf(m: Msg): seq<Msg> {
    if m.LogicReset? || m.ComReset? then [m] else []
  }

  lemma {:induction false} ResetsAppend(a: seq<Msg>, b: seq<Msg>)
    ensures Resets(a + b) == Resets(a) + Resets(b)
  {
    hide ResetOf;
    if a == [] {
      assert a + b == b;
    } else {
      assert (a + b)[1..] == a[1..] + b;
      ResetsAppend(a[1..], b);
      Associative(ResetOf(a[0]), Resets(a[1..]), Resets(b));
    }
  }

  lemma {:induction false} WordsAreNoResets(bs: seq<byte>)
    ensures Resets(AsWords(bs)) == []
  {
    if bs != [] {
      assert AsWords(bs)[1..] == AsWords(bs[1..]);
      WordsAreNoResets(bs[1..]);
    }
  }

  lemma {:induction false} GrantsAreNoResets(cap: nat, box: Inbox, credit: nat)
    requires credit + box.level <= cap
    ensures Resets(Grant(cap, box, credit).grants) == []
    decreases |box.drain|, 2 - Min(2, credit)
  {
    hide Tranche, Announcing, Inbox.After, Resets;
    NothingReset();
    if credit < 2 && !(box.drain == [] && cap - box.level <= credit) {
      var b := box.After(1);
      var n := Tranche(cap, b, credit);
      NothingDrained(box);
      TrancheMeans(cap, b, credit);
      GrantsAreNoResets(cap, b.After(1), credit + n);
      ResetsAppend(Announcing(n), Grant(cap, b.After(1), credit + n).grants);
      AnnouncingIsNoReset(n);
    }
  }

  lemma NothingReset()
    ensures Resets([]) == []
  {
  }

  lemma AnnouncingIsNoReset(n: nat)
    requires n <= MAX_TRANCHE
    ensures Resets(Announcing(n)) == []
  {
    assert [Credit(n)][1..] == [];
  }

  /** What a requested reset puts first: the logic reset is set and released. */
  function Reset(request: bool): (ms: seq<Msg>)
    ensures Encodable(ms)
  {
    if request then [LogicReset(true), LogicReset(false)] else []
  }

  function AllResets(requests: seq<bool>): seq<Msg> {
    if requests == [] then [] else AllResets(requests[..|requests| - 1]) + Reset(requests[|requests| - 1])
  }

  /** Over any number of rounds the logic reset is set and released in turn, once for every request. */
  lemma {:induction false} ResetsAlternate(requests: seq<bool>)
    ensures var ms := AllResets(requests);
            && |ms| == 2 * Requested(requests)
            && forall i :: 0 <= i < |ms| ==> ms[i] == LogicReset(i % 2 == 0)
  {
    if requests != [] {
      ResetsAlternate(requests[..|requests| - 1]);
    }
  }

  function Requested(requests: seq<bool>): nat {
    if requests == [] then 0
    else Requested(requests[..|requests| - 1]) + if requests[|requests| - 1] then 1 else 0
  }

  /** The resets of a round are those requested, ahead of everything else. */
  lemma OutResets(t: Record, words: seq<byte>)
    requires t.Valid()
    ensures Resets(t.Out(words)) == if t.reset then [LogicReset(true), LogicReset(false)] else []
    ensures Resets(t.Out(words)) <= t.Out(words)
  {
    hide Reading.Hangs, Record.Result, Record.TopUp, Announcing, Resets, Reset, Grant, Inbox.After;
    hide Reading.First, Reading.Chunk, Reading.Parsed;
    var grants := if t.Read().Fails() then [] else t.Read().Granted().grants;
    var rest := if !t.Read().Ends() || t.Result() != Done then [] else AsWords(words) + Announcing(t.TopUp());
    NothingReset();
    if !t.Read().Fails() && !t.Read().Full() && t.Read().Chunk().state == AfterMark {
      GrantsAreNoResets(t.cap, t.Read().Parsed(), t.start.credit - |Words(t.Read().Chunk().msgs)|);
    }
    if rest != [] {
      WordsAreNoResets(words);
      AnnouncingIsNoReset(t.TopUp());
      ResetsAppend(AsWords(words), Announcing(t.TopUp()));
    }
    ResetsComeFirst(t.reset, grants, rest);
  }

  lemma ResetsComeFirst(request: bool, grants: seq<Msg>, rest: seq<Msg>)
    requires Resets(grants) == Resets(rest) == []
    ensures var ms := Reset(request) + grants + rest;
            && Resets(ms) == (if request then [LogicReset(true), LogicReset(false)] else [])
            && Resets(ms) <= ms
  {
    hide Resets;
    ResetsOfReset(request);
    ResetsAppend(Reset(request), grants);
    ResetsAppend(Reset(request) + grants, rest);
  }

  lemma ResetsOfReset(request: bool)
    ensures Resets(Reset(request)) == Reset(request)
  {
    if request {
      assert Reset(true)[1..] == [LogicReset(false)] && [LogicReset(false)][1..] == [];
      assert Resets([LogicReset(false)]) == [LogicReset(false)];
    }
  }

  // Rounds.

  /** The thread between two rounds: the input buffer, the bytes to come and how many the reads return,
      credit and debt, and the writing application. */
  datatype Start = Start(box: Inbox, rx: seq<byte>, readSizes: seq<nat>, credit: nat, debt: nat,
                         turns: nat, script: seq<seq<byte>>, free: nat)

  /** A round on buffers of the given sizes: how it starts, and whether a reset is requested. */
  datatype Record = Record(start: Start, reset: bool, size: nat, cap: nat)
  {
    function Read(): Reading {
      Reading(cap, start.box, start.rx,
              if start.readSizes == [] then |start.rx| else Min(|start.rx|, start.readSizes[0]), start.credit)
    }

    predicate Valid() {
      Read().Valid() && start.free <= size
    }

    /** The start of the writing half, which follows a turn of the application. */
    function Writing(): (t: Situation)
      requires Valid() && Read().Ends()
      ensures t.free <= size
    {
      FeedingShrinks(start.script, start.free, 0);
      Situation(start.script, start.turns, start.free, start.debt + Read().Gained()).After(1)
    }

    /** How the round ends. */
    function Result(): Outcome
      requires Valid()
    {
      if Read().Outcome() != Done then Read().Outcome()
      else if Writing().Fails(size) then ReadFailed else Done
    }

    /** The tranche announced at the end, if the credit is below one. */
    function TopUp(): (n: nat)
      requires Valid() && Read().Ends()
      ensures n <= MAX_TRANCHE
    {
      var credit, box := Read().CreditThen(), Read().BoxThen().After(2);
      if credit < MAX_TRANCHE && credit + box.level <= cap then Tranche(cap, box, credit) else 0
    }

    /** The messages sent, given the bytes of the batch: resets first, then what a marker needs, the
        batch, and the tranche. */
    function Out(words: seq<byte>): seq<Msg>
      requires Valid()
    {
      Reset(reset) + (if Read().Fails() then [] else Read().Granted().grants)
        + (if !Read().Ends() || Result() != Done then [] else AsWords(words) + Announcing(TopUp()))
    }

    /** The start of the next round, after one that is done. */
    function Next(): Start
      requires Valid() && Read().Ends()
    {
      var t, box := Writing(), Read().BoxThen();
      Start(box.After(if Read().CreditThen() < MAX_TRANCHE then 4 else 3),
            start.rx[Read().Consumed()..], if start.readSizes == [] then [] else start.readSizes[1..],
            Read().CreditThen() + TopUp(), if t.Batch(size) <= t.debt then t.debt - t.Batch(size) else 0,
            t.turns + t.Turns(size) + 2, Rest(start.script, 3 + t.Turns(size)), t.FreeThen(size))
    }
  }

  /** With the reading application at rest and a line that returns all there is, a round first reads as
      much as there is room for, or one byte of a credit message if there is no room. */
  lemma RestingRead(t: Reading)
    requires t.Valid() && t.box.drain == [] && t.offers == |t.rx|
    ensures var free := t.cap - t.box.level;
            t.First() == Min(if free == 0 then 1 else Min(free, 256), |t.rx|)
  {
    NothingDrained(t.box);
  }

  /** At the end of a round it announces as much as there is room for, if the credit is below a tranche
      and the application is at rest by then. */
  lemma RestingTopUp(t: Record)
    requires t.Valid() && t.Read().Ends() && t.Read().BoxThen().drain == []
    ensures var credit, free := t.Read().CreditThen(), t.cap - t.Read().BoxThen().level;
            t.TopUp() == if credit >= 0x3fff || free <= credit then 0 else Min(free - credit, 0x3fff)
  {
    hide Reading.CreditThen, Reading.BoxThen, Reading.Fails, Reading.Hangs;
    var box := t.Read().BoxThen();
    NothingDrained(box);
    AfterFurther(box, 1, 1);
  }

  /** The rounds of a run, each leading to the next; the last one decides how the run ends. */
  predicate Linked(log: seq<Record>, size: nat, cap: nat, first: Start, end: Start, r: Outcome) {
    if log == [] then end == first && r == Done
    else
      var t := log[|log| - 1];
      && t.size == size && t.cap == cap && t.Valid() && r == t.Result()
      && (r == Done ==> end == t.Next())
      && Linked(log[..|log| - 1], size, cap, first, t.start, Done)
  }

  lemma OneRoundMore(log: seq<Record>, size: nat, cap: nat, first: Start, t: Record, end: Start)
    requires Linked(log, size, cap, first, t.start, Done) && t.size == size && t.cap == cap && t.Valid()
    requires t.Result() == Done ==> end == t.Next()
    ensures Linked(log + [t], size, cap, first, end, t.Result())
  {
    hide Record.Result, Record.Next, Record.Valid;
    assert (log + [t])[..|log|] == log;
  }

  /** With an application that does not write while the thread runs, no assertion about cbuf_read
      fails in any round. */
  lemma {:induction false} QuietThreadReads(log: seq<Record>, size: nat, cap: nat, first: Start,
                                            end: Start, r: Outcome)
    requires Linked(log, size, cap, first, end, r) && first.script == []
    ensures r != ReadFailed && (r == Done ==> end.script == [])
  {
    hide Situation.Fails, Situation.Batch, Situation.Turns, Situation.FreeThen, Record.TopUp;
    hide Reading.Fails, Reading.Hangs, Reading.Gained, Reading.BoxThen, Reading.CreditThen;
    if log != [] {
      var t := log[|log| - 1];
      QuietThreadReads(log[..|log| - 1], size, cap, first, t.start, Done);
      if t.Read().Ends() {
        QuietBatch(t.Writing(), size);
      }
    }
  }
}
