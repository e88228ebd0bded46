/** The host thread on the UART link: what the class `UartHost` does in a round, starting in a state
    of the protocol, is a run of the link. */
module UartRounds {
  import opened Bits
  import opened Cbufs
  import opened CbufUtil
  import opened UartCodec
  import opened UartStates
  import opened UartHosts
  import UartLink

  /** The thread is at a message boundary and has nothing half done, and what the target has sent so
      far is what it can read. */
  ghost predicate OnLink(host: UartHost, s: UartLink.State)
    requires host.Valid()
    reads host, host.input, host.input.data, host.output, host.serial, host.app
  {
    && UartLink.Inv(s) && UartLink.ThreadFree(s) && s.p.AtBoundary?
    && s.cap == host.input.size && s.input == host.input.Contents() && s.appRead == host.app.taken
    && s.credit == host.credit && s.debt == host.debt && s.toHost == host.serial.rx
  }

  // The reading half.

  /** However many bytes come with the first read, they hold no more data words than there is
      credit; and if the input buffer is full, they start with a credit message. */
  lemma ReadingIsCovered(s: UartLink.State, t: Reading)
    requires UartLink.Inv(s) && UartLink.ThreadFree(s) && s.p.AtBoundary?
    requires t.cap == s.cap && t.box.level == |s.input| && t.credit == s.credit && t.rx == s.toHost
    requires t.offers <= |t.rx|
    ensures t.Valid() && !t.Fails() && t.Obeyed()
    ensures t.Full() ==> s.credit == 0 && (t.First() > 0 ==> s.toHost[0] == MARK)
  {
    hide Parse, Words;
    UartLink.ReceivingIsParsing(s, t.First());
    if |s.input| == s.cap && s.toHost != [] {
      assert s.credit == 0;
      UartLink.NoCreditMeansControl(s);
    }
  }

  /** The state after some credit messages, when the application has read up to a level. */
  function AfterGrants(s: UartLink.State, grants: seq<Msg>, credit: nat, level: nat): UartLink.State
    requires Encodable(grants) && level <= |s.input|
  {
    var d := |s.input| - level;
    s.(toTarget := s.toTarget + EncodeAll(grants), credit := credit, offered := s.offered + Credits(grants),
       input := s.input[d..], appRead := s.appRead + s.input[..d])
  }

  /** The application reads down to a level. */
  lemma ReadingDown(s: UartLink.State, level: nat) returns (steps: seq<UartLink.Step>)
    requires s.look != UartLink.Aborted && level <= |s.input|
    ensures UartLink.IsRun(s, steps) && UartLink.Run(s, steps) == AfterGrants(s, [], s.credit, level)
  {
    steps := [UartLink.AppReads(|s.input| - level)];
    UartLink.OneStep(s, steps[0]);
    assert s.toTarget + [] == s.toTarget;
  }

  /** Credit messages and then others, with the application reading in between. */
  lemma GrantsCompose(s: UartLink.State, a: seq<Msg>, c1: nat, l1: nat, b: seq<Msg>, c2: nat, l2: nat)
    requires Encodable(a) && Encodable(b) && l2 <= l1 <= |s.input|
    ensures Encodable(a + b)
    ensures AfterGrants(AfterGrants(s, a, c1, l1), b, c2, l2) == AfterGrants(s, a + b, c2, l2)
  {
    hide Encode, EncodeAll, Credits;
    EncodeAllConcat(a, b);
    MsgsAppend(a, b);
    Associative(s.toTarget, EncodeAll(a), EncodeAll(b));
    var d, d1 := |s.input| - l1, |s.input| - l2;
    assert s.input[d..][l1 - l2..] == s.input[d1..];
    assert s.input[..d] + s.input[d..][..l1 - l2] == s.input[..d1];
    Associative(s.appRead, s.input[..d], s.input[d..][..l1 - l2]);
  }

  /** One turn of the wait for credit: the application reads, and a tranche is announced and counted if
      there is room. */
  lemma GrantingRun(s: UartLink.State, n: nat, level: nat) returns (steps: seq<UartLink.Step>)
    requires UartLink.ThreadFree(s) && s.p.AfterMark? && s.credit < 2 && level <= |s.input|
    requires n <= MAX_TRANCHE
    requires n > 0 ==> n == Min(s.cap - level - s.credit, MAX_TRANCHE)
    ensures UartLink.IsRun(s, steps)
    ensures UartLink.Run(s, steps) == AfterGrants(s, Announcing(n), s.credit + n, level)
    ensures var s1 := UartLink.Run(s, steps);
            && UartLink.ThreadFree(s1) && s1.p.AfterMark? && s1.cap == s.cap && |s1.input| == level
            && s1.credit == s.credit + n
  {
    hide Encode, EncodeAll, UartLink.Run, UartLink.IsRun;
    steps := ReadingDown(s, level);
    var s1 := UartLink.Run(s, steps);
    NoMessages();
    if n > 0 {
      UartHost.OneCredit(n);
      UartLink.AnnouncingIsUpdateCredit(s1);
      var last := [UartLink.HostAnnounces, UartLink.HostCounts];
      UartLink.RunAppend(s, steps, last);
      steps := steps + last;
      assert s.toTarget + [] == s.toTarget;
    }
  }

  /** The wait for two words of credit behind a marker is a run. */
  lemma {:induction false} GrantsAreRun(s: UartLink.State, box: Inbox) returns (steps: seq<UartLink.Step>)
    requires UartLink.ThreadFree(s) && s.p.AfterMark?
    requires box.level <= |s.input| && s.credit + box.level <= s.cap
    ensures var g := Grant(s.cap, box, s.credit);
            && Encodable(g.grants) && g.box.level <= |s.input| && UartLink.IsRun(s, steps)
            && UartLink.Run(s, steps) == AfterGrants(s, g.grants, g.credit, g.box.level)
    decreases |box.drain|, 2 - Min(2, s.credit)
  {
    hide UartLink.Run, UartLink.IsRun, EncodeAll, Encode, Tranche, Announcing, Inbox.After, Grant;
    hide AfterGrants;
    GrantMeans(s.cap, box, s.credit);
    GrantUnfolds(s.cap, box, s.credit);
    if s.credit >= 2 || (box.drain == [] && s.cap - box.level <= s.credit) {
      steps := ReadingDown(s, box.level);
    } else {
      var b := box.After(1);
      var n, level := Tranche(s.cap, b, s.credit), b.After(1).level;
      NothingDrained(box);
      TrancheMeans(s.cap, b, s.credit);
      TrancheIsLargest(s.cap, b, s.credit);
      var first := GrantingRun(s, n, level);
      var s1 := UartLink.Run(s, first);
      var rest := GrantsAreRun(s1, b.After(1));
      UartLink.RunAppend(s, first, rest);
      steps := first + rest;
      var g := Grant(s.cap, b.After(1), s.credit + n);
      GrantsCompose(s, Announcing(n), s.credit + n, level, g.grants, g.credit, g.box.level);
    }
  }

  lemma TrancheIsLargest(cap: nat, box: Inbox, credit: nat)
    requires credit + box.level <= cap
    ensures var n := Tranche(cap, box, credit);
            n > 0 ==> n == Min(cap - box.After(1).level - credit, MAX_TRANCHE)
  {
  }

  /** The state after the first `k` bytes have been parsed and credit messages have been sent, when
      the application has read up to a level. */
  function AfterReading(s: UartLink.State, k: nat, grants: seq<Msg>, credit: nat, level: nat): UartLink.State
    requires k <= |s.toHost| && Encodable(grants)
    requires level <= |s.input + Words(Parse(s.p, s.toHost[..k]).msgs)|
  {
    var q := Parse(s.p, s.toHost[..k]);
    var all := s.input + Words(q.msgs);
    var d := |all| - level;
    s.(toHost := s.toHost[k..], p := q.state, credit := credit, debt := s.debt + Credits(q.msgs),
       input := all[d..], appRead := s.appRead + all[..d],
       toTarget := s.toTarget + EncodeAll(grants), offered := s.offered + Credits(grants))
  }

  /** Parsing a piece, sending credit if it ends behind a marker, and parsing another piece: the
      application may read all the while. `box` is the input buffer after the first piece. */
  lemma PiecesAreRun(s: UartLink.State, n: nat, k: nat, box: Inbox, g: Granting, credit: nat, level: nat)
    returns (steps: seq<UartLink.Step>)
    requires UartLink.Inv(s) && UartLink.ThreadFree(s) && n <= k <= |s.toHost|
    requires var p := Parse(s.p, s.toHost[..n]);
             var left, more := s.credit - |Words(p.msgs)|, |Words(Parse(p.state, s.toHost[n..k]).msgs)|;
             && 0 <= left && left + box.level <= s.cap && box.level <= |s.input| + |Words(p.msgs)|
             && g == (if p.state == AfterMark then Grant(s.cap, box, left) else Granting(true, [], left, box))
             && credit + more == g.credit && level <= g.box.level + more
    ensures Encodable(g.grants)
    ensures level <= |s.input + Words(Parse(s.p, s.toHost[..k]).msgs)| && UartLink.IsRun(s, steps)
    ensures UartLink.Run(s, steps) == AfterReading(s, k, g.grants, credit, level)
  {
    hide UartLink.Inv, UartLink.Run, UartLink.IsRun, Parse, Words, Credits, EncodeAll, Grant;
    var p := Parse(s.p, s.toHost[..n]);
    var w2 := Words(Parse(p.state, s.toHost[n..k]).msgs);
    UartLink.ReceivingIsParsing(s, n);
    var first := seq(n, i => UartLink.HostReceives);
    var s1 := UartLink.Run(s, first);
    UartLink.RunKeeps(s, first);
    var second;
    if p.state == AfterMark {
      second := GrantsAreRun(s1, box);
    } else {
      second := ReadingDown(s1, box.level);
    }
    var s2 := UartLink.Run(s1, second);
    UartLink.RunKeeps(s1, second);
    UartLink.RunAppend(s, first, second);
    SecondPiece(s, s2, n, k, g.grants, credit, g.box.level);
    UartLink.ReceivingIsParsing(s2, k - n);
    var third := seq(k - n, i => UartLink.HostReceives);
    var s3 := UartLink.Run(s2, third);
    UartLink.RunAppend(s, first + second, third);
    var fourth := ReadingDown(s3, level);
    UartLink.RunAppend(s, first + second + third, fourth);
    steps := first + second + third + fourth;
    LastReading(s, n, k, g.grants, credit, g.box.level, level);
  }

  /** The state when both pieces have been parsed, and the application has read down to level `l`
      in between. */
  function BothParsed(s: UartLink.State, n: nat, k: nat, grants: seq<Msg>, credit: nat, l: nat): UartLink.State
    requires n <= k <= |s.toHost| && Encodable(grants)
    requires l <= |s.input + Words(Parse(s.p, s.toHost[..n]).msgs)|
  {
    var p, q := Parse(s.p, s.toHost[..n]), Parse(s.p, s.toHost[..k]);
    var first := s.input + Words(p.msgs);
    var d := |first| - l;
    s.(toHost := s.toHost[k..], p := q.state, credit := credit, debt := s.debt + Credits(q.msgs),
       input := first[d..] + Words(Parse(p.state, s.toHost[n..k]).msgs), appRead := s.appRead + first[..d],
       toTarget := s.toTarget + EncodeAll(grants), offered := s.offered + Credits(grants))
  }

  lemma SecondPiece(s: UartLink.State, s2: UartLink.State, n: nat, k: nat, grants: seq<Msg>, credit: nat,
                    l: nat)
    requires n <= k <= |s.toHost| && Encodable(grants)
    requires var p := Parse(s.p, s.toHost[..n]);
             var w1, w2 := Words(p.msgs), Words(Parse(p.state, s.toHost[n..k]).msgs);
             && |w1| <= s.credit && l <= |s.input + w1|
             && s2 == AfterGrants(UartLink.Parsing(s, n), grants, credit + |w2|, l)
    ensures s2.toHost[..k - n] == s.toHost[n..k]
    ensures UartLink.Parsing(s2, k - n) == BothParsed(s, n, k, grants, credit, l)
  {
    hide Parse, Words, Credits, EncodeAll;
    assert s2.toHost[..k - n] == s.toHost[n..k] && s2.toHost[k - n..] == s.toHost[k..];
    JoinPieces(s, n, k);
  }

  lemma LastReading(s: UartLink.State, n: nat, k: nat, grants: seq<Msg>, credit: nat, l: nat, level: nat)
    requires n <= k <= |s.toHost| && Encodable(grants)
    requires var p := Parse(s.p, s.toHost[..n]);
             var w1, w2 := Words(p.msgs), Words(Parse(p.state, s.toHost[n..k]).msgs);
             l <= |s.input + w1| && level <= l + |w2|
    ensures level <= |s.input + Words(Parse(s.p, s.toHost[..k]).msgs)|
    ensures AfterGrants(BothParsed(s, n, k, grants, credit, l), [], credit, level)
         == AfterReading(s, k, grants, credit, level)
  {
    hide Parse, Words, Credits, EncodeAll;
    var p := Parse(s.p, s.toHost[..n]);
    var w1, w2 := Words(p.msgs), Words(Parse(p.state, s.toHost[n..k]).msgs);
    JoinPieces(s, n, k);
    DropTwice(s.appRead, s.input, w1, w2, |s.input + w1| - l, l + |w2| - level);
    NoMessages();
    var s3 := BothParsed(s, n, k, grants, credit, l);
    assert s3.toTarget + [] == s3.toTarget;
  }

  lemma JoinPieces(s: UartLink.State, n: nat, k: nat)
    requires n <= k <= |s.toHost|
    ensures var p := Parse(s.p, s.toHost[..n]);
            var e, q := Parse(p.state, s.toHost[n..k]), Parse(s.p, s.toHost[..k]);
            && q.state == e.state && Words(q.msgs) == Words(p.msgs) + Words(e.msgs)
            && Credits(q.msgs) == Credits(p.msgs) + Credits(e.msgs)
  {
    ParseAppend(s.p, s.toHost[..n], s.toHost[n..k]);
    assert s.toHost[..n] + s.toHost[n..k] == s.toHost[..k];
    var p := Parse(s.p, s.toHost[..n]);
    MsgsAppend(p.msgs, Parse(p.state, s.toHost[n..k]).msgs);
  }

  /** Taking from the front, adding at the end, and taking again. */
  lemma DropTwice(taken: seq<byte>, input: seq<byte>, w1: seq<byte>, w2: seq<byte>, d: nat, j: nat)
    requires d <= |input + w1| && d + j <= |input + w1 + w2|
    ensures var rest := (input + w1)[d..] + w2;
            && rest[j..] == (input + (w1 + w2))[d + j..]
            && taken + (input + w1)[..d] + rest[..j] == taken + (input + (w1 + w2))[..d + j]
  {
    var rest := (input + w1)[d..] + w2;
    assert (input + w1)[..d] + rest == input + (w1 + w2);
    assert (input + w1)[..d] + rest[..j] == ((input + w1)[..d] + rest)[..d + j];
  }

  /** What the reading half of a round does is a run of the link: the bytes are received one by one,
      and the credit messages sent while a marker waits for its second byte are announced and
      counted, with the application reading in between. */
  lemma ReadingIsRun(s: UartLink.State, t: Reading) returns (steps: seq<UartLink.Step>)
    requires UartLink.Inv(s) && UartLink.ThreadFree(s) && s.p.AtBoundary? && t.Ends()
    requires t.cap == s.cap && t.box.level == |s.input| && t.credit == s.credit && t.rx == s.toHost
    requires t.More() <= t.Granted().credit
    ensures Encodable(t.Granted().grants)
    ensures t.BoxThen().level <= |s.input + Words(Parse(s.p, s.toHost[..t.Consumed()]).msgs)|
    ensures UartLink.IsRun(s, steps)
    ensures UartLink.Run(s, steps)
         == AfterReading(s, t.Consumed(), t.Granted().grants, t.CreditThen(), t.BoxThen().level)
    ensures t.Gained() == Credits(Parse(s.p, s.toHost[..t.Consumed()]).msgs)
  {
    hide UartLink.Inv, UartLink.Run, UartLink.IsRun, Parse, Words, Credits, Grant, EncodeAll, Stored;
    hide Inbox.After;
    var k := t.Consumed();
    if t.Full() {
      ReadingIsCovered(s, t);
      UartHost.ThreeBytes(s.toHost, t.First());
      NoMessages();
      UartHost.NothingStored(t.Parsed());
      steps := PiecesAreRun(s, k, k, t.Parsed(), t.Granted(), t.CreditThen(), t.BoxThen().level);
    } else {
      steps := PiecesAreRun(s, t.First(), k, t.Parsed(), t.Granted(), t.CreditThen(), t.BoxThen().level);
    }
  }

  /** The reading half on the link: no assertion of the parser fails, and what happens is a run that
      ends where the class ends. */
  method ReadOnLink(host: UartHost, ghost s: UartLink.State, buffer: array<byte>)
    returns (r: Outcome, ghost k: nat, ghost grants: seq<Msg>, ghost steps: seq<UartLink.Step>)
    requires host.Valid() && buffer.Length == TMP_BUFFER_SIZE && OnLink(host, s)
    requires buffer != host.input.data
    modifies host`credit, host`debt, host.serial, host.app, buffer
    modifies host.input`rdPtr, host.input`wrPtr, host.input`reserved, host.input.data
    ensures host.Valid() && Encodable(grants) && host.serial.tx == old(host.serial.tx) + EncodeAll(grants)
    ensures r in {Done, Hung} && UartLink.IsRun(s, steps)
    ensures r == Done ==>
              && k <= |s.toHost| && |host.input.Contents()| <= |s.input + Words(Parse(s.p, s.toHost[..k]).msgs)|
              && UartLink.Run(s, steps) == AfterReading(s, k, grants, host.credit, |host.input.Contents()|)
              && OnLink(host, UartLink.Run(s, steps))
  {
    hide Parse, Words, Credits, EncodeAll, Encode, UartLink.Inv, UartLink.Run, Grant, Stored, Reading.Fails;
    hide Reading.Obeyed, Reading.Gained, Reading.Granted, Reading.Consumed, Reading.BoxThen, Reading.First;
    ghost var t := host.AboutToRead();
    host.ReadingFits();
    ReadingIsCovered(s, t);
    steps, k := [], 0;
    r, grants := host.ReadPhase(buffer);
    if r == Done {
      k := t.Consumed();
      CreditsSuffice(t);
      steps := ReadingIsRun(s, t);
      UartLink.RunKeeps(s, steps);
      ghost var words := Words(Parse(s.p, s.toHost[..k]).msgs);
      Associative(s.appRead, s.input, words);
      SameSplit(s.appRead, s.input + words, host.app.taken, host.input.Contents());
    }
  }

  /** The rest of a message is at most one word, and covered by credit if it is one. */
  lemma CreditsSuffice(t: Reading)
    requires t.Ends()
    ensures t.More() <= t.Granted().credit
  {
    if !t.Full() {
      RestOfMessage(t.Chunk().state, t.rx[t.First()..]);
      var k := TopUp(t.Chunk().state, t.rx[t.First()..]);
      assert t.rx[t.First()..][..k] == t.rx[t.First()..t.Consumed()];
      if t.Chunk().state == AfterMark {
        GrantMeans(t.cap, t.Parsed(), t.credit - |Words(t.Chunk().msgs)|);
      }
    }
  }

  lemma RestOfMessage(p: Parser, rx: seq<byte>)
    requires TopUp(p, rx) <= |rx|
    ensures var words := Words(Parse(p, rx[..TopUp(p, rx)]).msgs);
            |words| <= if p == AfterMark then 1 else 0
  {
    var k := TopUp(p, rx);
    if k == 1 {
      assert rx[..1] == [rx[0]];
      UartHost.ParseTwo(rx[0], rx[0]);
      if p.AfterFirst? {
        UartHost.ParseTwo(p.first, rx[0]);
      }
    } else if k == 2 {
      assert rx[..2] == [rx[0], rx[1]];
      UartHost.ParseTwo(rx[0], rx[1]);
    }
  }

  /** Bytes cut in two with the same lengths are cut at the same place. */
  lemma SameSplit(taken: seq<byte>, all: seq<byte>, taken': seq<byte>, rest: seq<byte>)
    requires taken + all == taken' + rest && |rest| <= |all|
    ensures var d := |all| - |rest|;
            rest == all[d..] && taken' == taken + all[..d]
  {
    var d, whole := |all| - |rest|, taken + all;
    assert whole[|taken| + d..] == all[d..] && (taken' + rest)[|taken'|..] == rest;
    assert whole[..|taken| + d] == taken + all[..d] && (taken' + rest)[..|taken'|] == taken';
  }

  // The update of the credit.

  /** The update at the end of a round on the link is a run: the application reads during the look,
      and the tranche is announced and counted if there is one. */
  method UpdateOnLink(host: UartHost, ghost s: UartLink.State)
    returns (ghost steps: seq<UartLink.Step>, ghost message: seq<byte>)
    requires host.Valid() && OnLink(host, s) && host.credit < MAX_TRANCHE
    modifies host`credit, host.serial, host.app, host.input`rdPtr
    ensures host.Valid() && UartLink.IsRun(s, steps) && OnLink(host, UartLink.Run(s, steps))
    ensures s.credit <= host.credit <= s.credit + MAX_TRANCHE
    ensures message == EncodeAll(Announcing(host.credit - s.credit))
    ensures host.serial.tx == old(host.serial.tx) + message
    ensures UartLink.Run(s, steps).toTarget == s.toTarget + message
  {
    hide Encode, EncodeAll, UartLink.Inv, UartLink.Run, UartLink.ThreadFree, Cbuf.Contents, Cbuf.Valid;
    hide Inbox.After, Announcing, LevelAfter, Rest, Tranche, UartLink.IsRun, FreeSeen;
    ghost var box := host.Box();
    host.UpdateCredit();
    ghost var n, d := host.credit - s.credit, |s.input| - |host.input.Contents()|;
    assert host.input.Contents() == s.input[d..] && host.app.taken == s.appRead + s.input[..d] by {
      SameSplit(s.appRead, s.input, host.app.taken, host.input.Contents());
    }
    TrancheIsLargest(s.cap, box, s.credit);
    message := EncodeAll(Announcing(n));
    steps := UpdateIsRun(s, n, |host.input.Contents()|);
  }

  lemma UpdateIsRun(s: UartLink.State, n: nat, level: nat) returns (steps: seq<UartLink.Step>)
    requires UartLink.Inv(s) && UartLink.ThreadFree(s) && s.p.AtBoundary? && s.credit < MAX_TRANCHE
    requires level <= |s.input| && n <= MAX_TRANCHE
    requires n > 0 ==> n == Min(s.cap - level - s.credit, MAX_TRANCHE)
    ensures UartLink.IsRun(s, steps)
    ensures var s' := UartLink.Run(s, steps);
            && UartLink.Inv(s') && UartLink.ThreadFree(s')
            && var d := |s.input| - level;
               s' == s.(toTarget := s.toTarget + EncodeAll(Announcing(n)), credit := s.credit + n,
                        offered := s.offered + n, input := s.input[d..], appRead := s.appRead + s.input[..d])
  {
    hide Encode, EncodeAll, UartLink.Inv, UartLink.Run;
    steps := ReadingDown(s, level);
    var s1 := UartLink.Run(s, steps);
    NoMessages();
    assert s.toTarget + [] == s.toTarget;
    if n > 0 {
      UartHost.OneCredit(n);
      UartLink.AnnouncingIsUpdateCredit(s1);
      var last := [UartLink.HostAnnounces, UartLink.HostCounts];
      UartLink.RunAppend(s, steps, last);
      steps := steps + last;
    }
    UartLink.RunKeeps(s, steps);
  }

  // A whole round.

  /** What the target and the others may do from `s` on before the host receives a byte, and the
      bytes on their way to the host then. */
  predicate Sending(s: UartLink.State, later: seq<UartLink.Step>, rx: seq<byte>) {
    && UartLink.IsRun(s, later) && UartLink.HostReceives !in later
    && UartLink.Run(s, later).toHost == rx
  }

  /** Bytes are only added; after the marker of a credit message the next one is its first byte. */
  lemma {:induction false} SendingAdds(s: UartLink.State, later: seq<UartLink.Step>, rx: seq<byte>)
    requires Sending(s, later, rx)
    ensures s.toHost <= rx
    ensures s.e.High? && |rx| > |s.toHost| ==> s.e.n < 0x8000 && rx[|s.toHost|] == CreditHigh(s.e.n)
    decreases |later|
  {
    hide UartLink.Apply, UartLink.Enabled;
    if later != [] {
      assert later[0] != UartLink.HostReceives;
      SendingStep(s, later[0]);
      SendingAdds(UartLink.Apply(s, later[0]), later[1..], rx);
    }
  }

  lemma SendingStep(s: UartLink.State, step: UartLink.Step)
    requires UartLink.Enabled(s, step) && step != UartLink.HostReceives
    ensures var s' := UartLink.Apply(s, step);
            && s.toHost <= s'.toHost
            && (s.e.High? ==>
                  if s'.toHost == s.toHost then s'.e == s.e
                  else s.e.n < 0x8000 && s'.toHost == s.toHost + [CreditHigh(s.e.n)])
  {
    hide Encode, UartLink.MayAnnounce;
  }

  /** The first read of a round is covered although the target goes on sending. */
  lemma FirstReadIsCovered(s: UartLink.State, later: seq<UartLink.Step>, t: Reading)
    requires UartLink.Inv(s) && UartLink.ThreadFree(s) && s.p.AtBoundary?
    requires t.cap == s.cap && t.box.level == |s.input| && t.credit == s.credit
    requires Sending(s, later, t.rx) && t.offers <= |s.toHost|
    ensures t.Valid() && !t.Fails() && t.Obeyed()
  {
    hide Parse, Words, UartLink.Inv;
    SendingAdds(s, later, t.rx);
    var now := t.(rx := s.toHost);
    ReadingIsCovered(s, now);
    assert t.rx[..t.First()] == s.toHost[..t.First()];
    if |s.input| == s.cap && t.First() > 0 && |s.toHost| == 1 {
      MarkOfCredit(s);
    }
  }

  /** A marker that arrives alone while there is no credit begins a credit message. */
  lemma MarkOfCredit(s: UartLink.State)
    requires UartLink.Inv(s) && s.p.AtBoundary? && s.toHost == [MARK]
    requires |s.input| == s.cap
    ensures s.e.High?
  {
    assert [MARK][1..] == [];
    assert Parse(AtBoundary, [MARK]) == Parsed(AfterMark, []);
    assert Words([]) == [];
  }

  /** With a target that obeys its credit no assertion of the parser fails in any round, and what
      the round promises under the condition that the target obeys is unconditional. The first read
      returns bytes that the target has sent by then, the state being `s`; meanwhile the target may
      go on sending, with credit that it gets in between. */
  method RoundOnLink(host: UartHost, s: UartLink.State, later: seq<UartLink.Step>, buffer: array<byte>,
                     resetRequest: bool, ghost o: nat, ghost turns: nat)
    returns (r: Outcome, ghost out: seq<Msg>, ghost o': nat, ghost turns': nat)
    requires host.Valid() && buffer.Length == TMP_BUFFER_SIZE && host.writer.Left(host.output, o)
    requires buffer != host.input.data && buffer != host.output.data
    requires UartLink.Inv(s) && UartLink.ThreadFree(s) && s.p.AtBoundary?
    requires s.cap == host.input.size && |s.input| == |host.input.Contents()| && s.credit == host.credit
    requires Sending(s, later, host.serial.rx) && host.serial.Offers() <= |s.toHost|
    modifies host`credit, host`debt, host.serial, host.app, buffer
    modifies host.input`rdPtr, host.input`wrPtr, host.input`reserved, host.input.data
    modifies host.writer, host.output`rdPtr, host.output`wrPtr, host.output`reserved, host.output.data
    ensures host.Valid() && host.writer.Left(host.output, o') && Encodable(out)
    ensures host.serial.tx == old(host.serial.tx) + EncodeAll(out)
    ensures o <= o' <= |host.writer.sent|
    ensures var t := old(host.AboutToRound(resetRequest, turns));
            && t.Valid() && r == t.Result() != ParserFailed && out == t.Out(host.writer.sent[o..o'])
            && (r == Done ==> host.Started(turns') == t.Next())
            && (r in {Done, ReadFailed} ==>
                  var k := t.Read().Consumed();
                  && k <= |t.start.rx| && host.serial.rx == t.start.rx[k..]
                  && var q := Parse(AtBoundary, t.start.rx[..k]);
                     && q.state == AtBoundary
                     && host.Balanced(q.msgs, out, old(host.Received()), o, o', old(host.debt), s.credit))
  {
    hide Parse, Words, Credits, EncodeAll, Encode, Reading.Fails, Situation.Fails, UartLink.Inv;
    hide Record.Next, Record.Out, Reading.Obeyed, Reading.Consumed, Sending;
    host.RoundFits(resetRequest, turns);
    FirstReadIsCovered(s, later, host.AboutToRead());
    r, out, o', turns' := host.Round(buffer, resetRequest, o, turns);
  }

  // The writing half.

  /** What the application adds to the output in turn number `i`: a block that does not fit is
      refused. */
  function Written(script: seq<seq<byte>>, free: nat, i: nat): seq<byte>
    decreases i
  {
    if script == [] then []
    else if i == 0 then (if |script[0]| <= free then script[0] else [])
    else Written(script[1..], FreeNext(free, script[0]), i - 1)
  }

  lemma {:induction false} WrittenIsMissing(script: seq<seq<byte>>, free: nat, i: nat)
    ensures FreeAfter(script, free, i + 1) == FreeAfter(script, free, i) - |Written(script, free, i)|
    ensures BrimsAt(script, free, i) <==> 0 < FreeAfter(script, free, i) == |Written(script, free, i)|
    decreases i
  {
    if i > 0 && script != [] {
      WrittenIsMissing(script[1..], FreeNext(free, script[0]), i - 1);
    }
  }

  /** The batch the class takes is the one the link takes in the same situation, and the assertion
      about cbuf_read fails in the one if and only if it fails in the other. Otherwise the same
      bytes go out. */
  lemma WritePhaseIsRun(s: UartLink.State, t: Situation)
    requires UartLink.Inv(s) && UartLink.ThreadFree(s) && s.p.AtBoundary?
    requires t.debt == s.debt && t.free == s.ocap - |s.output| && 0 < t.Batch(s.ocap)
    ensures var n, a, b, c := t.Batch(s.ocap), Written(t.script, t.free, 0),
                              Written(t.script, t.free, 1), Written(t.script, t.free, 2);
            var out, looks := s.output + a + b + c, UartLink.LookSteps(a, b, c);
            var steps := looks + seq(n, i => UartLink.HostSendsWord) + [UartLink.HostEndsBatch];
            && n <= |out| <= s.ocap && UartLink.IsRun(s, looks)
            && (UartLink.Run(s, looks).look == UartLink.Aborted <==> t.Fails(s.ocap))
            && (!t.Fails(s.ocap) ==>
                  && UartLink.IsRun(s, steps)
                  && UartLink.Run(s, steps) ==
                       s.(toTarget := s.toTarget + EncodeAll(AsWords(out[..n])), output := out[n..],
                          appWrote := s.appWrote + a + b + c, debt := s.debt - n, sent := 0))
  {
    hide UartLink.Inv, UartLink.Run, UartLink.IsRun, UartLink.LookSteps, EncodeAll, BrimsAt, FreeAfter;
    WrittenIsMissing(t.script, t.free, 0);
    WrittenIsMissing(t.script, t.free, 1);
    WrittenIsMissing(t.script, t.free, 2);
    StartOfTurns(t.script, t.free);
    var a, b, c := Written(t.script, t.free, 0), Written(t.script, t.free, 1), Written(t.script, t.free, 2);
    assert t.Batch(s.ocap) == UartLink.BatchSize(s, a);
    UartLink.LooksTakeBatch(s, a, b, c);
    if !t.Fails(s.ocap) {
      UartLink.BatchIsWritePhase(s, a, b, c);
    }
  }
}
