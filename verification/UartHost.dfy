/** The communication thread of the UART backend: the parser for chunks of the incoming byte
    stream with its top-up reads, the credit messages, and the escaped output. The application
    reads the input buffer and writes the output buffer all the while. */
module UartHosts {
  import opened Bits
  import opened Cbufs
  import opened CbufUtil
  import opened UartCodec
  import opened UartStates

  /** The serial device: the bytes still to arrive, the bytes written, and scripts for how many
      bytes each read or write transfers. */
  class Serial {
    var rx: seq<byte>
    var tx: seq<byte>
    var readSizes: seq<nat>
    var writeSizes: seq<nat>

    /** How many bytes the next read can return. */
    function Offers(): nat
      reads this
    {
      if readSizes == [] then |rx| else Min(|rx|, readSizes[0])
    }

    /** read(): any number of bytes up to `n`, possibly none. */
    method Read(n: nat) returns (bytes: seq<byte>)
      modifies this
      ensures |bytes| == Min(n, old(Offers())) && old(rx) == bytes + rx && tx == old(tx)
      ensures readSizes == if old(readSizes) == [] then [] else old(readSizes)[1..]
    {
      var k := Min(n, |rx|);
      if readSizes != [] {
        k := Min(k, readSizes[0]);
        readSizes := readSizes[1..];
      }
      bytes := rx[..k];
      rx := rx[k..];
    }

    /** read_blocking() of one byte. */
    method ReadBlocking() returns (ok: bool, b: byte)
      modifies this
      ensures ok <==> old(rx) != []
      ensures ok ==> old(rx) == [b] + rx
      ensures !ok ==> rx == old(rx)
      ensures tx == old(tx) && readSizes == old(readSizes)
    {
      ok, b := rx != [], 0;
      if ok {
        b, rx := rx[0], rx[1..];
      }
    }

    /** write_blocking(): repeat short writes until everything is out. */
    method WriteBlocking(bytes: seq<byte>)
      modifies this
      ensures tx == old(tx) + bytes && rx == old(rx) && readSizes == old(readSizes)
    {
      var written := 0;
      while written != |bytes|
        invariant 0 <= written <= |bytes| && rx == old(rx) && readSizes == old(readSizes)
        invariant tx == old(tx) + bytes[..written]
        decreases |writeSizes|, |bytes| - written
      {
        var k := |bytes| - written;
        if writeSizes != [] {
          k := Min(k, writeSizes[0]);
          writeSizes := writeSizes[1..];
        }
        tx := tx + bytes[written..written + k];
        written := written + k;
      }
    }
  }

  class UartHost {
    const input: Cbuf
    const output: Cbuf
    const serial: Serial
    /** The application thread that reads the input buffer. */
    const app: Drainer
    /** The application thread that writes the output buffer. */
    const writer: Feeder
    var debt: nat
    var credit: nat

    ghost predicate Valid()
      reads this, input, input.data, output
    {
      && input.Valid() && output.Valid()
      && input != output && input.data != output.data
      && input.Repr() !! output.Repr()
      && credit + |input.Contents()| <= input.size
    }

    /** Every data byte received: read by the application or still in the buffer. */
    ghost function Received(): seq<byte>
      requires Valid()
      reads this, input, input.data, output, app
    {
      app.Accepted(input)
    }

    constructor (input: Cbuf, output: Cbuf, serial: Serial, app: Drainer, writer: Feeder)
      requires input.Valid() && output.Valid() && input != output
      requires input.data != output.data && input.Repr() !! output.Repr()
      ensures Valid() && credit == 0 && debt == 0
      ensures this.input == input && this.output == output
      ensures this.serial == serial && this.app == app && this.writer == writer
    {
      this.input, this.output, this.serial, this.app := input, output, serial, app;
      this.writer := writer;
      debt, credit := 0, 0;
    }

    method UpdateDebt(first: byte, second: byte)
      modifies this`debt
      ensures debt == old(debt) + TrancheOf(first, second)
    {
      debt := debt + (((first / 2) % 128) * 256 + second);
    }

    /** The reading application and the input buffer. */
    ghost function Box(): Inbox
      requires Valid()
      reads this, input, input.data, output, app
    {
      Inbox(app.script, |input.Contents()|)
    }

    lemma BoxFits()
      requires Valid()
      ensures credit + Box().level <= input.size
    {
    }

    /** Announce as much credit as there is unpromised space, at most one tranche. */
    method UpdateCredit()
      requires Valid()
      modifies this`credit, serial, app, input`rdPtr
      ensures Valid() && Received() == old(Received())
      ensures serial.rx == old(serial.rx) && serial.readSizes == old(serial.readSizes)
      ensures old(credit) + old(Box()).level <= input.size && Box() == old(Box()).After(1)
      ensures var n := Tranche(input.size, old(Box()), old(credit));
              && credit == old(credit) + n
              && serial.tx == old(serial.tx) + EncodeAll(Announcing(n))
    {
      hide Cbuf.Valid, Cbuf.Contents, Drainer.Accepted, LevelAfter, Rest, EncodeAll;
      var level := LookAtFree(input, app);
      var add := Min(level - credit, MAX_TRANCHE);
      OneCredit(add);
      NoMessages();
      if add == 0 {
        return;
      }
      serial.WriteBlocking([0xfe, 1 + 2 * (add / 256), add % 256]);
      credit := credit + add;
    }

    /** A complete data word: the assertions of the source, then one byte into the buffer. */
    method StoreWord(b: byte) returns (ok: bool)
      requires Valid()
      modifies this`credit, app, input`rdPtr, input`wrPtr, input`reserved, input.data
      ensures Valid() && (ok <==> old(credit) > 0)
      ensures ok ==> credit == old(credit) - 1 && Received() == old(Received()) + [b]
      ensures !ok ==> credit == old(credit) && Received() == old(Received())
      ensures Box() == if ok then Stored(old(Box()), 1) else old(Box())
    {
      hide Cbuf.Valid, Cbuf.Contents, Drainer.Accepted, LevelAfter, Rest;
      if credit == 0 {
        return false;
      }
      var rv := ContendedWrite(input, app, [b]);
      credit := credit - 1;
      ok := rv == Success;
    }

    /** Grant at least two words before waiting for the byte after a marker. The loop ends when
        the application has made room; it hangs if the application never reads again. */
    method GrantTwo() returns (ok: bool, ghost grants: seq<Msg>)
      requires Valid()
      modifies this`credit, serial, app, input`rdPtr
      ensures Valid() && Received() == old(Received())
      ensures serial.rx == old(serial.rx) && serial.readSizes == old(serial.readSizes)
      ensures Encodable(grants) && serial.tx == old(serial.tx) + EncodeAll(grants)
      ensures old(credit) + old(Box()).level <= input.size
      ensures Granting(ok, grants, credit, Box()) == Grant(input.size, old(Box()), old(credit))
    {
      hide Cbuf.Contents, Cbuf.Valid, app.Accepted, Received, Encode, EncodeAll, Grant;
      grants := [];
      NoMessages();
      BoxFits();
      ghost var whole := Grant(input.size, Box(), credit);
      ok := true;
      while credit < 2
        invariant Valid() && Received() == old(Received()) && ok
        invariant serial.rx == old(serial.rx) && serial.readSizes == old(serial.readSizes)
        invariant Encodable(grants) && serial.tx == old(serial.tx) + EncodeAll(grants)
        invariant credit + Box().level <= input.size
        invariant whole == Grant(input.size, Box(), credit).Behind(grants)
        decreases |app.script|, 2 - credit
      {
        ok, grants := GrantMore(grants);
        if !ok {
          return;
        }
      }
      EnoughGranted(input.size, Box(), credit, grants);
    }

    static lemma EnoughGranted(cap: nat, box: Inbox, credit: nat, grants: seq<Msg>)
      requires 2 <= credit && credit + box.level <= cap
      ensures Grant(cap, box, credit).Behind(grants) == Granting(true, grants, credit, box)
    {
    }

    /** One turn of the loop: the application may read, then the credit is updated. */
    method GrantMore(ghost grants: seq<Msg>) returns (progress: bool, ghost more: seq<Msg>)
      requires Valid() && Encodable(grants) && credit < 2
      modifies this`credit, serial, app, input`rdPtr
      ensures Valid() && Received() == old(Received())
      ensures serial.rx == old(serial.rx) && serial.readSizes == old(serial.readSizes)
      ensures Encodable(more) && old(serial.tx) <= serial.tx
      ensures EncodeAll(more) == EncodeAll(grants) + serial.tx[|old(serial.tx)|..]
      ensures old(credit) + old(Box()).level <= input.size && credit + Box().level <= input.size
      ensures var g := Grant(input.size, old(Box()), old(credit)).Behind(grants);
              if progress then g == Grant(input.size, Box(), credit).Behind(more)
              else g == Granting(false, more, credit, Box())
      ensures progress ==> credit >= old(credit) && |app.script| <= |old(app.script)|
      ensures progress ==> credit > old(credit) || |app.script| < |old(app.script)|
    {
      hide Cbuf.Contents, Cbuf.Valid, app.Accepted, Encode, EncodeAll, Grant, LevelAfter, Rest;
      BoxFits();
      GrantStep(input.size, Box(), credit, grants);
      progress := app.script != [] || input.FreeLevel() > credit;
      app.Turn(input);
      UpdateCredit();
      ghost var n := credit - old(credit);
      EncodeAllConcat(grants, Announcing(n));
      more := grants + Announcing(n);
    }

    /** What one turn of the loop does to the wait for credit. */
    static lemma GrantStep(cap: nat, box: Inbox, credit: nat, grants: seq<Msg>)
      requires credit < 2 && credit + box.level <= cap
      ensures var b := box.After(1);
              var n := Tranche(cap, b, credit);
              var more, g := grants + Announcing(n), Grant(cap, box, credit).Behind(grants);
              if box.drain == [] && cap - box.level <= credit then
                n == 0 && more == grants && b.After(1) == box && g == Granting(false, grants, credit, box)
              else
                && g == Grant(cap, b.After(1), credit + n).Behind(more)
                && |b.After(1).drain| <= |box.drain|
                && (n > 0 || |b.After(1).drain| < |box.drain|)
    {
      hide Tranche, Announcing, Inbox.After;
      var b := box.After(1);
      var n := Tranche(cap, b, credit);
      NothingDrained(box);
      NothingDrained(b);
      TrancheMeans(cap, b, credit);
      NothingAnnounced();
      assert grants + [] == grants;
      if !(box.drain == [] && cap - box.level <= credit) {
        Associative(grants, Announcing(n), Grant(cap, b.After(1), credit + n).grants);
      }
    }

    static lemma NothingAnnounced()
      ensures Announcing(0) == []
    {
    }

    /** The chunk ended behind a marker: wait for credit, then read the rest of the message. */
    method FinishMarker(buffer: array<byte>) returns (r: Outcome, ghost grants: seq<Msg>)
      requires Valid() && 2 <= buffer.Length && buffer != input.data
      modifies this`credit, this`debt, serial, app, buffer
      modifies input`rdPtr, input`wrPtr, input`reserved, input.data
      ensures Valid() && r in {Done, Hung} && serial.readSizes == old(serial.readSizes)
      ensures Encodable(grants) && serial.tx == old(serial.tx) + EncodeAll(grants)
      ensures old(credit) + old(Box()).level <= input.size
      ensures var g := Grant(input.size, old(Box()), old(credit));
              var k := TopUp(AfterMark, old(serial.rx));
              && grants == g.grants && (r == Hung <==> !g.ok || k > |old(serial.rx)|)
              && (r == Done ==>
                    && serial.rx == old(serial.rx)[k..]
                    && var q := Parse(AfterMark, old(serial.rx)[..k]);
                    && q.state == AtBoundary
                    && Received() == old(Received()) + Words(q.msgs)
                    && debt == old(debt) + Credits(q.msgs)
                    && credit + |Words(q.msgs)| == g.credit
                    && Box() == Stored(g.box, |Words(q.msgs)|))
    {
      hide Cbuf.Contents, Cbuf.Valid, Parse, Encode, EncodeAll, TopUp, Words, Credits, Grant, Stored;
      GrantMeans(input.size, Box(), credit);
      var ok;
      ok, grants := GrantTwo();
      if !ok {
        return Hung, grants;
      }
      r := ReadRestOfMessage(buffer);
    }

    /** Read the bytes behind a marker, and act on the message. */
    method ReadRestOfMessage(buffer: array<byte>) returns (r: Outcome)
      requires Valid() && 2 <= buffer.Length && buffer != input.data && credit >= 2
      modifies this`credit, this`debt, serial, buffer
      modifies app, input`rdPtr, input`wrPtr, input`reserved, input.data
      ensures Valid() && r in {Done, Hung} && serial.tx == old(serial.tx)
      ensures serial.readSizes == old(serial.readSizes)
      ensures r == Hung <==> TopUp(AfterMark, old(serial.rx)) > |old(serial.rx)|
      ensures r == Done ==>
                var k := TopUp(AfterMark, old(serial.rx));
                && serial.rx == old(serial.rx)[k..]
                && var q := Parse(AfterMark, old(serial.rx)[..k]);
                && q.state == AtBoundary
                && Received() == old(Received()) + Words(q.msgs)
                && debt == old(debt) + Credits(q.msgs)
                && credit + |Words(q.msgs)| == old(credit)
                && Box() == Stored(old(Box()), |Words(q.msgs)|)
    {
      hide Cbuf.Contents, Cbuf.Valid, Parse, Inbox.After;
      var ok, b := serial.ReadBlocking();
      if !ok {
        return Hung;
      }
      buffer[0] := b;
      if buffer[0] == 0xfe {
        var stored := StoreWord(buffer[0]);
        ParseTwo(b, b);
        assert old(serial.rx)[..1] == [b];
      } else {
        ok, b := serial.ReadBlocking();
        if !ok {
          return Hung;
        }
        buffer[1] := b;
        UpdateDebt(buffer[0], buffer[1]);
        ParseTwo(buffer[0], buffer[1]);
        assert old(serial.rx)[..2] == [buffer[0], buffer[1]];
      }
      return Done;
    }

    static lemma ParseTwo(b: byte, c: byte)
      ensures b == MARK ==> Parse(AfterMark, [b]) == Parsed(AtBoundary, [Word(MARK)])
      ensures b != MARK ==>
                Parse(AfterMark, [b, c]) == Parsed(AtBoundary, [Credit(TrancheOf(b, c))])
      ensures Parse(AfterFirst(b), [c]) == Parsed(AtBoundary, [Credit(TrancheOf(b, c))])
    {
      assert [b, c][1..] == [c];
      assert Parse(AfterMark, [b, c]).msgs
          == ParseByte(AfterMark, b).msgs + Parse(ParseByte(AfterMark, b).state, [c]).msgs;
    }

    /** The chunk ended inside a credit message: read its last byte over the start of the buffer. */
    method FinishCredit(buffer: array<byte>, at: nat) returns (r: Outcome)
      requires Valid() && 1 <= at < buffer.Length && buffer != input.data
      modifies this`debt, serial, buffer
      ensures Valid() && r in {Done, Hung} && serial.tx == old(serial.tx)
      ensures Received() == old(Received()) && credit == old(credit)
      ensures Box() == old(Box()) && serial.readSizes == old(serial.readSizes)
      ensures r == Hung <==> old(serial.rx) == []
      ensures r == Done ==>
                && old(serial.rx) != [] && serial.rx == old(serial.rx)[1..]
                && var q := Parse(AfterFirst(old(buffer[at])), old(serial.rx)[..1]);
                && q == Parsed(AtBoundary, q.msgs) && Words(q.msgs) == []
                && debt == old(debt) + Credits(q.msgs)
    {
      var ok, b := serial.ReadBlocking();
      if !ok {
        return Hung;
      }
      buffer[0] := b;
      UpdateDebt(buffer[at], buffer[0]);
      ParseTwo(buffer[at], b);
      assert old(serial.rx)[..1] == [b];
      return Done;
    }

    /** What has been done about the messages `ms` since the given counters. */
    ghost predicate Accounted(ms: seq<Msg>, grants: seq<Msg>, received: seq<byte>, debt0: nat,
                              credit0: nat)
      requires Valid()
      reads this, input, input.data, output, app
    {
      && Received() == received + Words(ms)
      && debt == debt0 + Credits(ms)
      && credit + |Words(ms)| == credit0 + Credits(grants)
    }

    /** The parser's loop over the complete messages of a chunk. It stops at the end of the chunk
        or at a message that is cut off. */
    method ParseMessages(buffer: array<byte>, size: nat)
      returns (ok: bool, i: nat, ghost done: seq<Msg>)
      requires Valid() && size <= buffer.Length && buffer != input.data
      modifies this`credit, this`debt, app, input`rdPtr, input`wrPtr, input`reserved, input.data
      ensures Valid() && i <= size
      ensures Accounted(done, [], old(Received()), old(debt), old(credit))
      ensures Box() == Stored(old(Box()), |Words(done)|)
      ensures var p := Parse(AtBoundary, buffer[..size]);
              && (!ok ==> |Words(p.msgs)| > old(credit))
              && (ok ==>
                    && p.msgs == done
                    && match p.state
                       case AtBoundary => i == size
                       case AfterMark => i + 1 == size
                       case AfterFirst(b) => i + 2 == size && buffer[i + 1] == b)
    {
      hide Parse, Cbuf.Valid, Cbuf.Contents, Words, Credits, Drainer.Accepted, Stored;
      ghost var chunk := buffer[..size];
      ok, i, done := true, 0, [];
      NoMessages();
      assert Received() + [] == Received();
      NothingStored(Box());
      ParseNothing(AtBoundary);
      while i < size
        invariant 0 <= i <= size && Valid()
        invariant var rest := Parse(AtBoundary, chunk[i..]);
                  Parse(AtBoundary, chunk) == Parsed(rest.state, done + rest.msgs)
        invariant Accounted(done, [], old(Received()), old(debt), old(credit))
        invariant Box() == Stored(old(Box()), |Words(done)|)
      {
        NextMessage(chunk[i..]);
        ghost var m := Word(buffer[i]);
        var next := i + 1;
        if buffer[i] == 0xfe {
          if i + 1 == size || (i + 2 == size && buffer[i + 1] != 0xfe) {
            assert done + [] == done;
            return;
          }
          if buffer[i + 1] == 0xfe {
            ok := StoreWord(buffer[i]);
            next := i + 2;
          } else {
            UpdateDebt(buffer[i + 1], buffer[i + 2]);
            m := Credit(TrancheOf(buffer[i + 1], buffer[i + 2]));
            next := i + 3;
          }
        } else {
          ok := StoreWord(buffer[i]);
        }
        assert chunk[i..][next - i..] == chunk[next..];
        StoredFurther(old(Box()), |Words(done)|, 1);
        AddMessage(chunk, done, m, Parse(AtBoundary, chunk[next..]));
        if !ok {
          return;
        }
        done := done + [m];
        i := next;
      }
      assert chunk[i..] == [] && done + [] == done;
    }

    static lemma NothingStored(box: Inbox)
      ensures Stored(box, 0) == box
    {
    }

    static lemma AddMessage(chunk: seq<byte>, done: seq<Msg>, m: Msg, rest: Parsed)
      requires Parse(AtBoundary, chunk) == Parsed(rest.state, done + ([m] + rest.msgs))
      ensures Parse(AtBoundary, chunk) == Parsed(rest.state, (done + [m]) + rest.msgs)
      ensures Words(done + [m]) == Words(done) + (if m.Word? then [m.b] else [])
      ensures Credits(done + [m]) == Credits(done) + (if m.Credit? then m.n else 0)
      ensures |Words(Parse(AtBoundary, chunk).msgs)| >= |Words(done + [m])|
    {
      assert done + ([m] + rest.msgs) == (done + [m]) + rest.msgs;
      MsgsAppend(done, [m]);
      MsgsAppend(done + [m], rest.msgs);
    }

    /** Parse the first `size` bytes of `buffer`, reading on if the last message is cut off.

        An assertion fails exactly when the chunk holds more data words than there was credit.
        Otherwise, unless the missing bytes never come, the parser ends at a message boundary and
        has stored and counted exactly the messages in the chunk and the bytes read on. */
    method ParseBuffer(buffer: array<byte>, size: nat) returns (r: Outcome, ghost grants: seq<Msg>)
      requires Valid() && size <= buffer.Length && 2 <= buffer.Length && buffer != input.data
      modifies this`credit, this`debt, serial, app, buffer
      modifies input`rdPtr, input`wrPtr, input`reserved, input.data
      ensures Valid() && r != ReadFailed && serial.readSizes == old(serial.readSizes)
      ensures Encodable(grants) && serial.tx == old(serial.tx) + EncodeAll(grants)
      ensures var p := Parse(AtBoundary, old(buffer[..size]));
              && (r == ParserFailed <==> |Words(p.msgs)| > old(credit))
              && (r == ParserFailed ==> grants == [])
              && (r != ParserFailed ==>
                    var k, left := TopUp(p.state, old(serial.rx)), old(credit) - |Words(p.msgs)|;
                    var box := Stored(old(Box()), |Words(p.msgs)|);
                    && left + box.level <= input.size
                    && var g := if p.state == AfterMark then Grant(input.size, box, left)
                                else Granting(true, [], left, box);
                    && grants == g.grants && (r == Hung <==> !g.ok || k > |old(serial.rx)|)
                    && (r == Done ==>
                          && serial.rx == old(serial.rx)[k..]
                          && var q, e := Parse(AtBoundary, old(buffer[..size]) + old(serial.rx)[..k]),
                                         Parse(p.state, old(serial.rx)[..k]);
                          && q.state == AtBoundary
                          && Accounted(q.msgs, grants, old(Received()), old(debt), old(credit))
                          && credit + |Words(e.msgs)| == g.credit
                          && Box() == Stored(g.box, |Words(e.msgs)|)))
    {
      hide Parse, Cbuf.Valid, Cbuf.Contents, Words, Credits, EncodeAll, Grant, Stored;
      ghost var chunk, rx := buffer[..size], serial.rx;
      ghost var p := Parse(AtBoundary, chunk);
      ghost var done;
      var ok, i;
      grants := [];
      NoMessages();
      ok, i, done := ParseMessages(buffer, size);
      ghost var extra := if TopUp(p.state, rx) <= |rx| then rx[..TopUp(p.state, rx)] else [];
      ParseTopUp(chunk, extra);
      ParseNothing(AtBoundary);
      if !ok {
        return ParserFailed, grants;
      }
      BoxFits();
      GrantMeans(input.size, Box(), credit);
      NothingStored(Box());
      ghost var first, more := Words(p.msgs), Words(Parse(p.state, extra).msgs);
      assert (old(Received()) + first) + more == old(Received()) + (first + more);
      if i == size {
        assert more == [];
        assert chunk + rx[..0] == chunk && rx[0..] == rx;
        return Done, grants;
      } else if i + 1 == size {
        r, grants := FinishMarker(buffer);
      } else {
        r := FinishCredit(buffer, i + 1);
      }
    }

    /** Where the reading half starts. */
    ghost function AboutToRead(): Reading
      requires Valid()
      reads this, input, input.data, output, serial, app
    {
      Reading(input.size, Box(), serial.rx, serial.Offers(), credit)
    }

    lemma ReadingFits()
      requires Valid()
      ensures AboutToRead().Valid()
    {
    }

    /** The reading half of the main loop: a chunk if there is room for one, otherwise at most a
        credit message. What it does is determined by its start. With an input buffer full at the
        start the three bytes read are taken for a credit message; this is right only if no data word
        follows, which the credit protocol guarantees. */
    method ReadPhase(buffer: array<byte>) returns (r: Outcome, ghost grants: seq<Msg>)
      requires Valid() && buffer.Length == TMP_BUFFER_SIZE && buffer != input.data
      modifies this`credit, this`debt, serial, app, buffer
      modifies input`rdPtr, input`wrPtr, input`reserved, input.data
      ensures Valid() && Encodable(grants) && serial.tx == old(serial.tx) + EncodeAll(grants)
      ensures serial.readSizes == if old(serial.readSizes) == [] then [] else old(serial.readSizes)[1..]
      ensures var t := old(AboutToRead());
              && t.Valid() && r == t.Outcome()
              && grants == (if t.Fails() then [] else t.Granted().grants)
              && (r == Done ==>
                    && serial.rx == t.rx[t.Consumed()..] && debt == old(debt) + t.Gained()
                    && credit == t.CreditThen() && Box() == t.BoxThen())
              && (r == Done && t.Obeyed() ==>
                    var q := Parse(AtBoundary, t.rx[..t.Consumed()]);
                    && q.state == AtBoundary
                    && Accounted(q.msgs, grants, old(Received()), old(debt), old(credit)))
    {
      hide Parse, Cbuf.Valid, Cbuf.Contents, Words, Credits, EncodeAll, Drainer.Accepted, Grant, Stored;
      ghost var t := AboutToRead();
      ReadingFits();
      grants := [];
      NoMessages();
      NothingStored(t.box.After(1));
      var avail := LookAtFree(input, app);
      if avail == 0 {
        ghost var n;
        r, n := ReadWhenFull(buffer);
        ThreeBytes(t.rx, n);
        assert Received() + [] == Received();
      } else {
        r, grants := ReadChunk(buffer, Min(avail, TMP_BUFFER_SIZE));
      }
    }

    /** With a full input buffer: at most one byte, and if there is one, the rest of a credit
        message. */
    method ReadWhenFull(buffer: array<byte>) returns (r: Outcome, ghost n: nat)
      requires Valid() && buffer.Length == TMP_BUFFER_SIZE && buffer != input.data
      modifies this`debt, serial, buffer
      ensures Valid() && Received() == old(Received()) && credit == old(credit)
      ensures Box() == old(Box()) && serial.tx == old(serial.tx)
      ensures serial.readSizes == if old(serial.readSizes) == [] then [] else old(serial.readSizes)[1..]
      ensures r != ReadFailed && n == Min(1, old(serial.Offers())) <= |old(serial.rx)|
      ensures r == ParserFailed <==> n > 0 && old(serial.rx)[0] != MARK
      ensures r == Hung <==> n > 0 && old(serial.rx)[0] == MARK && |old(serial.rx)| < 3
      ensures r == Done ==>
                && 3 * n <= |old(serial.rx)| && serial.rx == old(serial.rx)[3 * n..]
                && (n == 1 ==> old(serial.rx)[0] == MARK)
                && debt == old(debt)
                           + (if n == 0 then 0 else TrancheOf(old(serial.rx)[1], old(serial.rx)[2]))
    {
      var bytes := serial.Read(1);
      n, r := |bytes|, Done;
      if |bytes| == 1 {
        r := ReadCredit(buffer, bytes[0]);
      }
    }

    /** What these bytes mean: nothing, or a credit message. */
    static lemma ThreeBytes(rx: seq<byte>, n: nat)
      requires n <= 1
      ensures 3 * n <= |rx| && (n == 1 ==> rx[0] == MARK && rx[1] != MARK) ==>
                var q := Parse(AtBoundary, rx[..3 * n]);
                && q.state == AtBoundary && Words(q.msgs) == []
                && Credits(q.msgs) == (if n == 0 then 0 else TrancheOf(rx[1], rx[2]))
                && Words(Parse(AtBoundary, rx[3 * n..3 * n]).msgs) == []
    {
      if 3 * n <= |rx| {
        assert rx[3 * n..3 * n] == [] && rx[..0] == [];
        if n == 1 && rx[0] == MARK && rx[1] != MARK {
          NextMessage(rx[..3]);
          assert rx[..3][3..] == [];
          OneCredit(TrancheOf(rx[1], rx[2]));
        }
      }
    }

    /** Read a chunk of at most `max` bytes and parse it. */
    method ReadChunk(buffer: array<byte>, max: nat) returns (r: Outcome, ghost grants: seq<Msg>)
      requires Valid() && max <= buffer.Length == TMP_BUFFER_SIZE && buffer != input.data
      modifies this`credit, this`debt, serial, app, buffer
      modifies input`rdPtr, input`wrPtr, input`reserved, input.data
      ensures Valid() && r != ReadFailed
      ensures serial.readSizes == if old(serial.readSizes) == [] then [] else old(serial.readSizes)[1..]
      ensures Encodable(grants) && serial.tx == old(serial.tx) + EncodeAll(grants)
      ensures var n, rx := Min(max, old(serial.Offers())), old(serial.rx);
              var p := Parse(AtBoundary, rx[..n]);
              && (r == ParserFailed <==> |Words(p.msgs)| > old(credit))
              && (r == ParserFailed ==> grants == [])
              && (r != ParserFailed ==>
                    var k, left := n + TopUp(p.state, rx[n..]), old(credit) - |Words(p.msgs)|;
                    var box := Stored(old(Box()), |Words(p.msgs)|);
                    && left + box.level <= input.size
                    && var g := if p.state == AfterMark then Grant(input.size, box, left)
                                else Granting(true, [], left, box);
                    && grants == g.grants && (r == Hung <==> !g.ok || k > |rx|)
                    && (r == Done ==>
                          && serial.rx == rx[k..]
                          && var q, e := Parse(AtBoundary, rx[..k]), Parse(p.state, rx[n..k]);
                          && q.state == AtBoundary
                          && Accounted(q.msgs, grants, old(Received()), old(debt), old(credit))
                          && credit + |Words(e.msgs)| == g.credit
                          && Box() == Stored(g.box, |Words(e.msgs)|)))
    {
      hide Parse, Cbuf.Valid, Cbuf.Contents, Words, Credits, EncodeAll, TopUp, Encodable, Grant, Stored;
      ghost var rx := serial.rx;
      var bytes := serial.Read(max);
      ghost var n := |bytes|;
      assert rx[..n] == bytes && rx[n..] == serial.rx;
      Cbuf.MemCpy(buffer, 0, bytes);
      assert buffer[..|bytes|] == bytes;
      ghost var extra := TopUp(Parse(AtBoundary, bytes).state, serial.rx);
      r, grants := ParseBuffer(buffer, |bytes|);
      if r == Done {
        assert rx[..n + extra] == bytes + rx[n..][..extra] && rx[n..n + extra] == rx[n..][..extra];
      }
    }

    static lemma OneCredit(n: nat)
      ensures [Credit(n)] + [] == [Credit(n)]
      ensures Words([Credit(n)]) == [] && Credits([Credit(n)]) == n
      ensures n <= MAX_TRANCHE ==> EncodeAll([Credit(n)]) == Encode(Credit(n))
    {
      assert [Credit(n)][1..] == [];
    }

    /** A credit message in three single reads. */
    method ReadCredit(buffer: array<byte>, mark: byte) returns (r: Outcome)
      requires Valid() && buffer.Length == TMP_BUFFER_SIZE && buffer != input.data
      modifies this`debt, serial, buffer
      ensures Valid() && Received() == old(Received()) && credit == old(credit)
      ensures serial.tx == old(serial.tx) && Box() == old(Box()) && serial.readSizes == old(serial.readSizes)
      ensures r == Hung <==> mark == MARK && |old(serial.rx)| < 2
      ensures r != ReadFailed && (r == ParserFailed <==> mark != MARK)
      ensures r == Done ==>
                && |old(serial.rx)| >= 2 && serial.rx == old(serial.rx)[2..]
                && debt == old(debt) + TrancheOf(old(serial.rx)[0], old(serial.rx)[1])
    {
      if mark != 0xfe {
        return ParserFailed;
      }
      var ok, b := serial.ReadBlocking();
      if ok {
        buffer[0] := b;
        ok, b := serial.ReadBlocking();
      }
      if !ok {
        return Hung;
      }
      buffer[1] := b;
      UpdateDebt(buffer[0], buffer[1]);
      return Done;
    }

    /** Write words to the serial line, the marker twice. */
    method SendWords(buffer: array<byte>, size: nat)
      requires size <= buffer.Length
      modifies serial
      ensures serial.rx == old(serial.rx) && serial.readSizes == old(serial.readSizes)
      ensures serial.tx == old(serial.tx) + EncodeAll(AsWords(buffer[..size]))
    {
      hide EncodeAll;
      NoMessages();
      ghost var bytes := buffer[..size];
      var i := 0;
      while i < size
        invariant 0 <= i <= size && serial.rx == old(serial.rx) && serial.readSizes == old(serial.readSizes)
        invariant serial.tx == old(serial.tx) + EncodeAll(AsWords(bytes[..i]))
      {
        serial.WriteBlocking([buffer[i]]);
        if buffer[i] == 0xfe {
          serial.WriteBlocking([buffer[i]]);
        }
        AsWordsStep(bytes, i);
        i := i + 1;
      }
      assert bytes[..size] == bytes;
    }

    /** Where the writing half starts. */
    ghost function Situated(turns: nat): Situation
      requires Valid()
      reads this, input, input.data, output, output.data, writer
    {
      Situation(writer.script, turns, Free(output), debt)
    }

    /** Take the next batch out of the output buffer. The application has a turn during each of the
        two looks at the level, and one between them. */
    method TakeBatch(ghost o: nat, ghost done: nat) returns (r: Outcome, bytes: seq<byte>)
      requires Valid() && writer.Left(output, o)
      modifies writer, output`rdPtr, output`wrPtr, output`reserved, output.data
      ensures Valid() && Received() == old(Received()) && Box() == old(Box()) && r in {Done, ReadFailed}
      ensures old(writer.sent) <= writer.sent && writer.Left(output, o + |bytes|)
      ensures o + |bytes| <= |writer.sent| && bytes == writer.sent[o..o + |bytes|]
      ensures var t := old(Situated(done));
              && (r == ReadFailed <==> t.Fails(output.size))
              && |bytes| == (if r == Done then t.Batch(output.size) else 0)
              && writer.script == Rest(t.script, t.Turns(output.size))
              && Free(output) == FreeAfter(t.script, t.free, t.Turns(output.size)) + |bytes|
    {
      hide Cbuf.Valid, Cbuf.Contents, Drainer.Accepted, BrimsAt, FreeAfter, Rest;
      r, bytes := Done, [];
      StartOfTurns(writer.script, Free(output));
      FeedFurther(writer.script, Free(output), 1, 1);
      FeedFurther(writer.script, Free(output), 1, 2);
      if debt > 0 {
        var size := Min(debt, TMP_BUFFER_SIZE);
        var avail := LookAtFill(output, writer, o);
        if avail > 0 {
          r, bytes := ReadBatch(o, Min(avail, size));
        }
      }
    }

    /** Read a batch of a given size, after a turn of the application. */
    method ReadBatch(ghost o: nat, size: nat) returns (r: Outcome, bytes: seq<byte>)
      requires Valid() && writer.Left(output, o) && 0 < size <= |output.Contents()|
      modifies writer, output`rdPtr, output`wrPtr, output`reserved, output.data
      ensures Valid() && Received() == old(Received()) && Box() == old(Box()) && r in {Done, ReadFailed}
      ensures old(writer.sent) <= writer.sent && writer.Left(output, o + |bytes|)
      ensures o + |bytes| <= |writer.sent| && bytes == writer.sent[o..o + |bytes|]
      ensures var script, free := old(writer.script), old(Free(output));
              && (r == ReadFailed <==> BrimsAt(script, free, 1))
              && |bytes| == (if r == Done then size else 0)
              && writer.script == Rest(script, 2) && Free(output) == FreeAfter(script, free, 2) + |bytes|
    {
      hide Cbuf.Valid, Cbuf.Contents, Drainer.Accepted, BrimsAt, FreeAfter, Rest;
      FeedFurther(writer.script, Free(output), 1, 0);
      FeedFurther(writer.script, Free(output), 1, 1);
      writer.Turn(output, o);
      var rv;
      rv, bytes := ContendedRead(output, writer, o, size);
      r := if rv == Success then Done else ReadFailed;
    }

    /** The writing half: as many words as there is debt, in one batch of at most 256. The assertion
        about cbuf_read fails exactly if there is a batch and the application fills the buffer to
        the brim during the second look. */
    method WritePhase(buffer: array<byte>, ghost o: nat, ghost done: nat)
      returns (r: Outcome, ghost o': nat)
      requires Valid() && buffer.Length == TMP_BUFFER_SIZE && writer.Left(output, o)
      requires buffer != input.data && buffer != output.data
      modifies this`debt, serial, buffer
      modifies writer, output`rdPtr, output`wrPtr, output`reserved, output.data
      ensures Valid() && Received() == old(Received()) && r in {Done, ReadFailed}
      ensures serial.rx == old(serial.rx) && serial.readSizes == old(serial.readSizes)
      ensures credit == old(credit) && Box() == old(Box())
      ensures old(writer.sent) <= writer.sent && o <= o' <= |writer.sent| && writer.Left(output, o')
      ensures var t := old(Situated(done));
              && (r == ReadFailed <==> t.Fails(output.size))
              && o' == (if r == Done then o + t.Batch(output.size) else o)
              && writer.script == Rest(t.script, t.Turns(output.size))
              && Free(output) == FreeAfter(t.script, t.free, t.Turns(output.size)) + (o' - o)
      ensures debt + (o' - o) == old(debt)
      ensures serial.tx == old(serial.tx) + EncodeAll(AsWords(writer.sent[o..o']))
    {
      hide Cbuf.Valid, Cbuf.Contents, EncodeAll, BrimsAt, FreeAfter, Rest, Situation.Fails;
      hide Situation.Turns;
      NoMessages();
      var bytes;
      r, bytes := TakeBatch(o, done);
      o' := o + |bytes|;
      if bytes != [] {
        Cbuf.MemCpy(buffer, 0, bytes);
        assert buffer[..|bytes|] == bytes;
        SendWords(buffer, |bytes|);
        debt := debt - |bytes|;
      }
    }

    /** A logic reset message. */
    method ResetLogic(state: bool)
      modifies serial
      ensures serial.rx == old(serial.rx) && serial.readSizes == old(serial.readSizes)
      ensures serial.tx == old(serial.tx) + Encode(LogicReset(state))
    {
      serial.WriteBlocking([0xfe, if state then 0x83 else 0x81]);
    }

    /** What a piece of the main loop has done: the messages `got` came in and the messages `out`
        went out. Every word in was stored and paid with credit; the words out are those the
        application wrote next, and were paid with debt; tranches in either direction were counted.
        Bytes number `o0` to `o` have left the output buffer. */
    ghost predicate Balanced(got: seq<Msg>, out: seq<Msg>, received: seq<byte>, o0: nat, o: nat,
                             debt0: nat, credit0: nat)
      requires Valid()
      reads this, input, input.data, output, output.data, app, writer
    {
      && Received() == received + Words(got)
      && o0 <= o <= |writer.sent| && Words(out) == writer.sent[o0..o]
      && debt + |Words(out)| == debt0 + Credits(got)
      && credit + |Words(got)| == credit0 + Credits(out)
    }

    /** The resets, if requested, and the reading half of a round. */
    method ResetAndRead(buffer: array<byte>, resetRequest: bool, ghost o: nat)
      returns (r: Outcome, ghost out: seq<Msg>)
      requires Valid() && buffer.Length == TMP_BUFFER_SIZE && o <= |writer.sent|
      requires buffer != input.data && buffer != output.data
      modifies this`credit, this`debt, serial, app, buffer
      modifies input`rdPtr, input`wrPtr, input`reserved, input.data
      ensures Valid() && Encodable(out) && serial.tx == old(serial.tx) + EncodeAll(out)
      ensures serial.readSizes == if old(serial.readSizes) == [] then [] else old(serial.readSizes)[1..]
      ensures var t := old(AboutToRead());
              && t.Valid() && r == t.Outcome()
              && out == Reset(resetRequest) + (if t.Fails() then [] else t.Granted().grants)
              && (r == Done ==>
                    && serial.rx == t.rx[t.Consumed()..] && debt == old(debt) + t.Gained()
                    && credit == t.CreditThen() && Box() == t.BoxThen())
              && (r == Done && t.Obeyed() ==>
                    var q := Parse(AtBoundary, t.rx[..t.Consumed()]);
                    && q.state == AtBoundary && Words(out) == []
                    && Balanced(q.msgs, out, old(Received()), o, o, old(debt), old(credit)))
    {
      hide Cbuf.Valid, Cbuf.Contents, Parse, Words, Credits, EncodeAll, Encode, Grant, Stored;
      hide Reading.Fails, Reading.Consumed, Reading.Gained, Reading.Obeyed, Reading.BoxThen;
      hide Reading.CreditThen, Reading.Hangs, Reading.Outcome;
      NoMessages();
      ghost var tx := serial.tx;
      if resetRequest {
        ResetLogic(true);
        ResetLogic(false);
        Associative(tx, Encode(LogicReset(true)), Encode(LogicReset(false)));
      }
      ResetMessages(resetRequest);
      ghost var grants;
      r, grants := ReadPhase(buffer);
      out := Reset(resetRequest) + grants;
      GrantsAreCredit(old(AboutToRead()));
      EncodeAllConcat(Reset(resetRequest), grants);
      MsgsAppend(Reset(resetRequest), grants);
      Associative(tx, EncodeAll(Reset(resetRequest)), EncodeAll(grants));
    }

    static lemma GrantsAreCredit(t: Reading)
      ensures t.Valid() && !t.Fails() ==> Words(t.Granted().grants) == []
    {
      hide Parse, Words, Grant, Stored, Tranche, Inbox.After;
      NoMessages();
      if t.Valid() && !t.Fails() && !t.Full() && t.Chunk().state == AfterMark {
        GrantMeans(t.cap, t.Parsed(), t.credit - |Words(t.Chunk().msgs)|);
      }
    }

    static lemma ResetMessages(request: bool)
      ensures var ms := Reset(request);
              && Words(ms) == [] && Credits(ms) == 0
              && EncodeAll(ms) ==
                   if request then Encode(LogicReset(true)) + Encode(LogicReset(false)) else []
    {
      NoMessages();
      if request {
        OneReset(true);
        OneReset(false);
        assert [LogicReset(true)] + [LogicReset(false)] == [LogicReset(true), LogicReset(false)];
        EncodeAllConcat([LogicReset(true)], [LogicReset(false)]);
        MsgsAppend([LogicReset(true)], [LogicReset(false)]);
      }
    }

    static lemma OneReset(state: bool)
      ensures var ms := [LogicReset(state)];
              Words(ms) == [] && Credits(ms) == 0 && EncodeAll(ms) == Encode(LogicReset(state))
    {
      assert [LogicReset(state)][1..] == [];
    }

    /** The application threads make progress. */
    method Turns(ghost o: nat)
      requires Valid() && writer.Left(output, o)
      modifies app, input`rdPtr, writer, output`wrPtr, output`reserved, output.data
      ensures Valid() && Received() == old(Received()) && old(writer.sent) <= writer.sent
      ensures writer.Left(output, o) && Box() == old(Box()).After(1)
      ensures writer.Fed(output, old(writer.script), old(Free(output)), 1)
    {
      hide Cbuf.Valid, Cbuf.Contents, Drainer.Accepted, FreeAfter, Rest, BrimsAt, LevelAfter;
      app.Turn(input);
      writer.Turn(output, o);
    }

    /** The writing half of a round, and the update of the credit. The applications have turns
        before, between and after them. */
    method WriteAndUpdate(buffer: array<byte>, ghost o: nat, ghost turns: nat)
      returns (r: Outcome, ghost out: seq<Msg>, ghost o': nat)
      requires Valid() && buffer.Length == TMP_BUFFER_SIZE && writer.Left(output, o)
      requires buffer != input.data && buffer != output.data
      modifies this`credit, this`debt, serial, buffer, app, input`rdPtr
      modifies writer, output`rdPtr, output`wrPtr, output`reserved, output.data
      ensures Valid() && Encodable(out) && serial.tx == old(serial.tx) + EncodeAll(out)
      ensures serial.rx == old(serial.rx) && serial.readSizes == old(serial.readSizes)
      ensures old(writer.sent) <= writer.sent && writer.Left(output, o') && r in {Done, ReadFailed}
      ensures Balanced([], out, old(Received()), o, o', old(debt), old(credit))
      ensures var t := old(Situated(turns)).After(1);
              && t.free <= output.size && (r == ReadFailed <==> t.Fails(output.size))
              && o' == (if r == Done then o + t.Batch(output.size) else o)
              && (r == Done ==>
                    && writer.script == Rest(old(writer.script), 3 + t.Turns(output.size))
                    && Free(output) == t.FreeThen(output.size))
      ensures var credit0, box := old(credit), old(Box()).After(2);
              && credit0 + box.level <= input.size
              && var n := if credit0 < MAX_TRANCHE && r == Done then Tranche(input.size, box, credit0) else 0;
                 && out == AsWords(writer.sent[o..o']) + Announcing(n) && credit == credit0 + n
                 && (r == Done ==>
                       Box() == old(Box()).After(if credit0 < MAX_TRANCHE then 4 else 3))
    {
      hide Cbuf.Valid, Cbuf.Contents, EncodeAll, Encode, Drainer.Accepted, BrimsAt, FreeAfter, Rest;
      hide Situation.Fails, Situation.Turns, Situation.Batch, Feeder.Left, LevelAfter, Inbox.After, Tranche;
      hide Words, Credits, Announcing;
      ghost var tx, script, box := serial.tx, writer.script, Box();
      AfterFurther(box, 1, 1);
      AfterFurther(box, 1, 2);
      AfterFurther(box, 1, 3);
      FitsLater(input.size, box, credit);
      Turns(o);
      ghost var t := Situated(turns + 1);
      r, o' := WritePhase(buffer, o, turns + 1);
      ghost var i := t.Turns(output.size);
      ghost var words := writer.sent[o..o'];
      NoMessages();
      assert Received() + [] == Received();
      ghost var n := 0;
      if r == Done {
        FeedFurther(script, 0, 1, i);
        FeedFurther(script, 0, i + 1, 2);
        n := UpdateBetweenTurns(o');
        assert words == writer.sent[o..o'];
      }
      out := AsWords(words) + Announcing(n);
      WordsAndTranche(tx, words, n);
    }

    static lemma WordsAndTranche(tx: seq<byte>, words: seq<byte>, n: nat)
      requires n <= MAX_TRANCHE
      ensures var out := AsWords(words) + Announcing(n);
              && Encodable(out) && Words(out) == words && Credits(out) == n
              && tx + EncodeAll(out) == tx + EncodeAll(AsWords(words)) + EncodeAll(Announcing(n))
      ensures var sent := tx + EncodeAll(AsWords(words));
              n == 0 ==> sent + EncodeAll(Announcing(n)) == sent
    {
      hide EncodeAll, Encode, Words, Credits;
      WordsOfAsWords(words);
      EncodeAllConcat(AsWords(words), Announcing(n));
      MsgsAppend(AsWords(words), Announcing(n));
      Associative(tx, EncodeAll(AsWords(words)), EncodeAll(Announcing(n)));
      NoMessages();
      NothingAnnounced();
      assert words + [] == words;
    }

    static lemma FitsLater(cap: nat, box: Inbox, credit: nat)
      ensures credit + box.level <= cap ==> credit + box.After(2).level <= cap
    {
    }

    /** The update of the credit, with turns of the applications before and after it. */
    method UpdateBetweenTurns(ghost o: nat) returns (ghost n: nat)
      requires Valid() && writer.Left(output, o)
      modifies this`credit, serial, app, input`rdPtr, writer, output`wrPtr, output`reserved, output.data
      ensures Valid() && Received() == old(Received())
      ensures serial.rx == old(serial.rx) && serial.readSizes == old(serial.readSizes)
      ensures old(writer.sent) <= writer.sent && writer.Left(output, o)
      ensures writer.Fed(output, old(writer.script), old(Free(output)), 2)
      ensures old(credit) + old(Box()).After(1).level <= input.size
      ensures n == if old(credit) < MAX_TRANCHE then Tranche(input.size, old(Box()).After(1), old(credit)) else 0
      ensures credit == old(credit) + n && serial.tx == old(serial.tx) + EncodeAll(Announcing(n))
      ensures Box() == old(Box()).After(if old(credit) < MAX_TRANCHE then 3 else 2)
    {
      hide Cbuf.Valid, Cbuf.Contents, EncodeAll, Encode, Drainer.Accepted, FreeAfter, Rest, Feeder.Left;
      hide LevelAfter, Inbox.After, Tranche;
      ghost var credit0 := credit;
      AfterFurther(Box(), 1, 1);
      AfterFurther(Box(), 2, 1);
      FeedFurther(writer.script, Free(output), 1, 1);
      Turns(o);
      BoxFits();
      if credit < MAX_TRANCHE {
        UpdateCredit();
      }
      n := credit - credit0;
      NothingAnnounced();
      NoMessages();
      assert serial.tx + [] == serial.tx;
      Turns(o);
    }

    /** Where a round starts. */
    ghost function Started(turns: nat): Start
      requires Valid()
      reads this, input, input.data, output, output.data, serial, writer, app
    {
      Start(Box(), serial.rx, serial.readSizes, credit, debt, turns, writer.script, Free(output))
    }

    ghost function AboutToRound(resetRequest: bool, turns: nat): Record
      requires Valid()
      reads this, input, input.data, output, output.data, serial, writer, app
    {
      Record(Started(turns), resetRequest, output.size, input.size)
    }

    lemma RoundFits(resetRequest: bool, turns: nat)
      requires Valid()
      ensures AboutToRound(resetRequest, turns).Valid()
      ensures AboutToRound(resetRequest, turns).Read() == AboutToRead()
      ensures var t := AboutToRound(resetRequest, turns);
              && t.start == Started(turns) && t.size == output.size && t.cap == input.size
              && t.start.rx == serial.rx && t.start.debt == debt && t.start.credit == credit
              && t.reset == resetRequest
    {
    }

    /** A round of the main loop, with both applications at work. Its start determines what it reads
        and how it ends, the messages sent, and the start of the next round. The balance holds if the
        target kept to its credit as far as the round depends on it. */
    method Round(buffer: array<byte>, resetRequest: bool, ghost o: nat, ghost turns: nat)
      returns (r: Outcome, ghost out: seq<Msg>, ghost o': nat, ghost turns': nat)
      requires Valid() && buffer.Length == TMP_BUFFER_SIZE && writer.Left(output, o)
      requires buffer != input.data && buffer != output.data
      modifies this`credit, this`debt, serial, app, buffer
      modifies input`rdPtr, input`wrPtr, input`reserved, input.data
      modifies writer, output`rdPtr, output`wrPtr, output`reserved, output.data
      ensures Valid() && Encodable(out) && serial.tx == old(serial.tx) + EncodeAll(out)
      ensures old(writer.sent) <= writer.sent && o <= o' <= |writer.sent| && writer.Left(output, o')
      ensures var t := old(AboutToRound(resetRequest, turns));
              && t.Valid() && r == t.Result() && out == t.Out(writer.sent[o..o'])
              && (r == Done ==> Started(turns') == t.Next())
              && (r in {Done, ReadFailed} ==> serial.rx == t.start.rx[t.Read().Consumed()..])
              && (r in {Done, ReadFailed} && t.Read().Obeyed() ==>
                    var q := Parse(AtBoundary, t.start.rx[..t.Read().Consumed()]);
                    && q.state == AtBoundary
                    && Balanced(q.msgs, out, old(Received()), o, o', old(debt), old(credit)))
    {
      hide Cbuf.Valid, Cbuf.Contents, Parse, Words, Credits, EncodeAll, Encode, Drainer.Accepted;
      hide Reading.Fails, Reading.Obeyed, Reading.Consumed, Reading.Gained, Reading.CreditThen;
      hide Reading.BoxThen, Reading.Hangs, Reading.Granted, Record.Next, Record.TopUp, Started;
      hide Situation.Fails, Situation.Batch, Feeder.Left, Situated, Balanced, Reading.Outcome, Record.Writing;
      ghost var tx, t := serial.tx, AboutToRound(resetRequest, turns);
      RoundFits(resetRequest, turns);
      SituatedAtStart(turns);
      o', turns' := o, turns;
      assert o <= |writer.sent| by { LeftMeans(o); }
      ghost var first, second;
      OutcomeMeans(t.Read());
      r, first := ResetAndRead(buffer, resetRequest, o);
      out := first;
      assert first + [] == first;
      if r != Done {
        return;
      }
      ghost var got := Parse(AtBoundary, t.start.rx[..t.Read().Consumed()]).msgs;
      ghost var received, received1, debt0, credit0 := old(Received()), Received(), t.start.debt, t.start.credit;
      ghost var debt1, credit1 := debt, credit;
      UnfoldBalanced(got, first, received, o, o, debt0, credit0, t.Read().Obeyed());
      r, second, o', turns' := WriteInRound(buffer, t, o, turns);
      out := first + second;
      EncodeAllConcat(first, second);
      Associative(tx, EncodeAll(first), EncodeAll(second));
      if t.Read().Obeyed() {
        BalancedFurther(got, first, [], second, received, received1, o, o, o', debt0, debt1, credit0, credit1);
        assert got + [] == got;
      }
    }

    lemma LeftMeans(o: nat)
      requires Valid() && writer.Left(output, o)
      ensures o <= |writer.sent|
    {
    }

    lemma SituatedAtStart(turns: nat)
      requires Valid()
      ensures var t := Started(turns);
              && t.turns == turns && t.script == writer.script && t.free == Free(output)
              && t.rx == serial.rx && t.readSizes == serial.readSizes && t.debt == debt
    {
    }

    /** The second half of the round `t`, after the first one has been done. */
    method WriteInRound(buffer: array<byte>, ghost t: Record, ghost o: nat, ghost turns: nat)
      returns (r: Outcome, ghost out: seq<Msg>, ghost o': nat, ghost turns': nat)
      requires Valid() && buffer.Length == TMP_BUFFER_SIZE && writer.Left(output, o)
      requires buffer != input.data && buffer != output.data
      requires t.Valid() && t.Read().Ends() && t.size == output.size && t.cap == input.size
      requires serial.rx == t.start.rx[t.Read().Consumed()..] && credit == t.Read().CreditThen()
      requires serial.readSizes == if t.start.readSizes == [] then [] else t.start.readSizes[1..]
      requires debt == t.start.debt + t.Read().Gained() && Box() == t.Read().BoxThen()
      requires t.start.turns == turns && writer.script == t.start.script && Free(output) == t.start.free
      modifies this`credit, this`debt, serial, buffer, app, input`rdPtr
      modifies writer, output`rdPtr, output`wrPtr, output`reserved, output.data
      ensures Valid() && Encodable(out) && serial.tx == old(serial.tx) + EncodeAll(out)
      ensures serial.rx == old(serial.rx) && r == t.Result()
      ensures old(writer.sent) <= writer.sent && o <= o' <= |writer.sent| && writer.Left(output, o')
      ensures Balanced([], out, old(Received()), o, o', old(debt), old(credit))
      ensures out == if r == Done then AsWords(writer.sent[o..o']) + Announcing(t.TopUp()) else []
      ensures r == Done ==> Started(turns') == t.Next()
    {
      hide Cbuf.Valid, Cbuf.Contents, Parse, Words, Credits, EncodeAll, Encode, Drainer.Accepted;
      hide Reading.Fails, Reading.Consumed, Reading.Gained, Reading.CreditThen, Feeder.Left;
      hide Reading.BoxThen, Reading.Hangs, Reading.Granted, Inbox.After, Tranche, Stored;
      hide Situation.Fails, Situation.Batch, Situation.Turns, Situation.FreeThen, Rest, FreeAfter;
      FitsLater(t.cap, t.Read().BoxThen(), t.Read().CreditThen());
      BoxFits();
      NothingAnnounced();
      r, out, o' := WriteAndUpdate(buffer, o, turns);
      turns' := turns + 3 + t.Writing().Turns(output.size);
      BalancedMeans(out, old(Received()), o, o', old(debt), old(credit));
      assert AsWords([]) + [] == [];
    }

    lemma BalancedMeans(out: seq<Msg>, received: seq<byte>, o: nat, o': nat, debt0: nat, credit0: nat)
      requires Valid() && Balanced([], out, received, o, o', debt0, credit0)
      ensures o <= o' <= |writer.sent| && debt + (o' - o) == debt0
    {
    }

    lemma BalancedFurther(got: seq<Msg>, out: seq<Msg>, more: seq<Msg>, next: seq<Msg>,
                          received: seq<byte>, received1: seq<byte>, o0: nat, o1: nat, o: nat,
                          debt0: nat, debt1: nat, credit0: nat, credit1: nat)
      requires Valid() && Balanced(more, next, received1, o1, o, debt1, credit1)
      requires received1 == received + Words(got)
      requires o0 <= o1 <= |writer.sent| && Words(out) == writer.sent[o0..o1]
      requires debt1 + |Words(out)| == debt0 + Credits(got)
      requires credit1 + |Words(got)| == credit0 + Credits(out)
      ensures Balanced(got + more, out + next, received, o0, o, debt0, credit0)
    {
      hide Words, Credits, Cbuf.Contents, Cbuf.Valid;
      MsgsAppend(got, more);
      MsgsAppend(out, next);
      Associative(received, Words(got), Words(more));
      assert writer.sent[o0..o1] + writer.sent[o1..o] == writer.sent[o0..o];
    }

    /** What the rounds in `log` have done with the bytes `rx` since the given start: as long as the
        target kept to its credit, `k` of them were consumed, they are the messages `got`, and these
        are balanced with those sent. */
    ghost predicate Kept(r: Outcome, log: seq<Record>, k: nat, got: seq<Msg>, out: seq<Msg>, o: nat,
                         rx: seq<byte>, received: seq<byte>, o0: nat, debt0: nat, credit0: nat)
      requires Valid()
      reads this, input, input.data, output, output.data, app, writer, serial
    {
      r in {Done, ReadFailed} && AllObeyed(log) ==>
        && k <= |rx| && serial.rx == rx[k..] && Parse(AtBoundary, rx[..k]) == Parsed(AtBoundary, got)
        && Balanced(got, out, received, o0, o, debt0, credit0)
    }

    /** The communication thread, for any number of rounds with and without reset requests, until
        something fails, with the applications at work. `log` lists the rounds: the first one starts
        at the call, each leads to the next, the last one to the state in the end. The bytes sent
        decode, in one way only, to `out`; the bytes read are complete messages, `got`; and the two
        are balanced. */
    method ThreadFunc(resetRequests: seq<bool>, ghost o0: nat)
      returns (r: Outcome, ghost log: seq<Record>, ghost k: nat, ghost got: seq<Msg>,
               ghost out: seq<Msg>, ghost o: nat, ghost turns: nat)
      requires Valid() && writer.Left(output, o0)
      modifies this`credit, this`debt, serial, app
      modifies input`rdPtr, input`wrPtr, input`reserved, input.data
      modifies writer, output`rdPtr, output`wrPtr, output`reserved, output.data
      ensures Valid() && Encodable(out) && serial.tx == old(serial.tx) + EncodeAll(out)
      ensures Decode(Passthrough, EncodeAll(out)) == Decoded(Passthrough, out)
      ensures old(writer.sent) <= writer.sent && writer.Left(output, o)
      ensures Linked(log, output.size, input.size, old(Started(0)), Started(turns), r)
      ensures |log| <= |resetRequests| && (|log| < |resetRequests| ==> r != Done)
      ensures forall i :: 0 <= i < |log| ==> log[i].reset == resetRequests[i]
      ensures Resets(out) == AllResets(resetRequests[..|log|])
      ensures Kept(r, log, k, got, out, o, old(serial.rx), old(Received()), o0, old(debt), old(credit))
      ensures r in {Done, ReadFailed} && AllObeyed(log) ==> |Words(out)| <= old(debt) + Credits(got)
    {
      hide Cbuf.Valid, Cbuf.Contents, Parse, Words, Credits, EncodeAll, Encode, Decode, Kept, Resets;
      hide Drainer.Accepted, Feeder.Left, Linked, AllObeyed, AllResets, Started;
      var buffer := new byte[TMP_BUFFER_SIZE](_ => 0);
      ghost var rx, received, debt0, credit0, first := serial.rx, Received(), debt, credit, Started(0);
      r, log, k, got, out, o, turns := Done, [], 0, [], [], o0, 0;
      NothingKept(o);
      StartOfLog(output.size, input.size, first);
      var i := 0;
      while i < |resetRequests| && r == Done
        invariant Valid() && Encodable(out) && serial.tx == old(serial.tx) + EncodeAll(out)
        invariant old(writer.sent) <= writer.sent && writer.Left(output, o)
        invariant Linked(log, output.size, input.size, first, Started(turns), r)
        invariant 0 <= i == |log| <= |resetRequests|
        invariant forall j :: 0 <= j < i ==> log[j].reset == resetRequests[j]
        invariant Resets(out) == AllResets(resetRequests[..i])
        invariant Kept(r, log, k, got, out, o, rx, received, o0, debt0, credit0)
      {
        ResetsOfNext(resetRequests, i);
        r, log, k, got, out, o, turns :=
          NextRound(buffer, resetRequests[i], log, k, got, out, o, turns, first, old(serial.tx), rx,
                    received, o0, debt0, credit0);
        i := i + 1;
      }
      DecodeEncodeAll(out);
      WordsArePaid(r, log, k, got, out, o, rx, received, o0, debt0, credit0);
    }

    static lemma ResetsOfNext(requests: seq<bool>, i: nat)
      requires i < |requests|
      ensures AllResets(requests[..i + 1]) == AllResets(requests[..i]) + Reset(requests[i])
    {
      assert requests[..i + 1][..i] == requests[..i];
    }

    /** One more round. */
    method NextRound(buffer: array<byte>, resetRequest: bool, ghost log0: seq<Record>, ghost k0: nat,
                     ghost got0: seq<Msg>, ghost out0: seq<Msg>, ghost o1: nat, ghost turns0: nat,
                     ghost first: Start, ghost tx: seq<byte>, ghost rx: seq<byte>,
                     ghost received: seq<byte>, ghost o0: nat, ghost debt0: nat, ghost credit0: nat)
      returns (r: Outcome, ghost log: seq<Record>, ghost k: nat, ghost got: seq<Msg>,
               ghost out: seq<Msg>, ghost o: nat, ghost turns: nat)
      requires Valid() && buffer.Length == TMP_BUFFER_SIZE && writer.Left(output, o1)
      requires buffer != input.data && buffer != output.data
      requires Encodable(out0) && serial.tx == tx + EncodeAll(out0)
      requires Linked(log0, output.size, input.size, first, Started(turns0), Done)
      requires Kept(Done, log0, k0, got0, out0, o1, rx, received, o0, debt0, credit0)
      modifies this`credit, this`debt, serial, app, buffer
      modifies input`rdPtr, input`wrPtr, input`reserved, input.data
      modifies writer, output`rdPtr, output`wrPtr, output`reserved, output.data
      ensures Valid() && Encodable(out) && serial.tx == tx + EncodeAll(out)
      ensures old(writer.sent) <= writer.sent && writer.Left(output, o)
      ensures log == log0 + [old(AboutToRound(resetRequest, turns0))]
      ensures Resets(out) == Resets(out0) + Reset(resetRequest)
      ensures Linked(log, output.size, input.size, first, Started(turns), r)
      ensures Kept(r, log, k, got, out, o, rx, received, o0, debt0, credit0)
    {
      hide Cbuf.Valid, Cbuf.Contents, Parse, Words, Credits, EncodeAll, Encode, Drainer.Accepted;
      hide Feeder.Left, Linked, Record.Result, Record.Next, Record.Out, AllObeyed, Balanced, Resets, Started;
      UnfoldBalanced(got0, out0, received, o0, o1, debt0, credit0, AllObeyed(log0));
      RoundFits(resetRequest, turns0);
      ghost var seen, received1, debt1, credit1 := serial.rx, Received(), debt, credit;
      ghost var t, next := AboutToRound(resetRequest, turns0), [];
      r, next, o, turns := Round(buffer, resetRequest, o1, turns0);
      OneRoundMore(log0, output.size, input.size, first, t, Started(turns));
      log, k, got, out := log0 + [t], k0, got0, out0 + next;
      OneMoreObeyed(log0, t, r);
      EncodeAllConcat(out0, next);
      Associative(tx, EncodeAll(out0), EncodeAll(next));
      ResetsAppend(out0, next);
      OutResets(t, writer.sent[o1..o]);
      if r in {Done, ReadFailed} && AllObeyed(log) {
        ghost var n := t.Read().Consumed();
        ghost var q := Parse(AtBoundary, seen[..n]);
        ParsedFurther(rx, k, n, got);
        BalancedFurther(got, out0, q.msgs, next, received, received1, o0, o1, o, debt0, debt1,
                        credit0, credit1);
        got, k := got + q.msgs, k + n;
      }
    }

    lemma NothingKept(o: nat)
      requires Valid() && writer.Left(output, o)
      ensures Kept(Done, [], 0, [], [], o, serial.rx, Received(), o, debt, credit)
      ensures Encodable([]) && serial.tx + EncodeAll([]) == serial.tx
    {
      hide Cbuf.Contents, Cbuf.Valid;
      StartBalanced(o);
      ParseNothing(AtBoundary);
      assert serial.rx[..0] == [] && serial.rx[0..] == serial.rx;
    }

    lemma WordsArePaid(r: Outcome, log: seq<Record>, k: nat, got: seq<Msg>, out: seq<Msg>, o: nat,
                       rx: seq<byte>, received: seq<byte>, o0: nat, debt0: nat, credit0: nat)
      requires Valid() && Kept(r, log, k, got, out, o, rx, received, o0, debt0, credit0)
      ensures r in {Done, ReadFailed} && AllObeyed(log) ==> |Words(out)| <= debt0 + Credits(got)
    {
    }

    static lemma ParsedFurther(rx: seq<byte>, k: nat, n: nat, got: seq<Msg>)
      requires k + n <= |rx| && Parse(AtBoundary, rx[..k]) == Parsed(AtBoundary, got)
      ensures var q := Parse(AtBoundary, rx[k..][..n]);
              && Parse(AtBoundary, rx[..k + n]) == Parsed(q.state, got + q.msgs)
              && rx[k..][n..] == rx[k + n..]
    {
      ParseAppend(AtBoundary, rx[..k], rx[k..][..n]);
      assert rx[..k] + rx[k..][..n] == rx[..k + n];
    }

    static ghost predicate AllObeyed(log: seq<Record>) {
      forall t :: t in log ==> t.Read().Valid() && t.Read().Obeyed()
    }

    static lemma OneMoreObeyed(log: seq<Record>, t: Record, r: Outcome)
      requires t.Valid() && r == t.Result()
      ensures AllObeyed(log + [t]) <==> AllObeyed(log) && t.Read().Obeyed()
      ensures r in {Done, ReadFailed} ==> t.Read().Consumed() <= |t.start.rx|
    {
      hide Reading.Obeyed, Reading.Consumed, Situation.Fails;
      if AllObeyed(log + [t]) {
        assert forall x :: x in log ==> x in log + [t];
        assert t in log + [t];
      }
    }

    static lemma StartOfLog(size: nat, cap: nat, first: Start)
      ensures Linked([], size, cap, first, first, Done) && AllObeyed([])
      ensures Resets([]) == AllResets([]) == []
    {
    }

    lemma StartBalanced(o: nat)
      requires Valid() && writer.Left(output, o)
      ensures Balanced([], [], Received(), o, o, debt, credit)
      ensures Encodable([]) && EncodeAll([]) == []
    {
      hide Cbuf.Contents, Cbuf.Valid;
      assert Received() + [] == Received();
    }

    lemma UnfoldBalanced(got: seq<Msg>, out: seq<Msg>, received: seq<byte>, o0: nat, o: nat,
                         debt0: nat, credit0: nat, holds: bool)
      requires Valid() && (holds ==> Balanced(got, out, received, o0, o, debt0, credit0))
      ensures holds ==>
                && Received() == received + Words(got)
                && o0 <= o <= |writer.sent| && Words(out) == writer.sent[o0..o]
                && debt + |Words(out)| == debt0 + Credits(got)
                && credit + |Words(got)| == credit0 + Credits(out)
    {
    }
  }
}
