/** The credit protocol of the UART backend as a state machine: the host thread, the application
    threads on its two buffers, both wires, and a target that obeys its credit.

    The target model follows the interface of the FPGA logic: it sends a data byte only while it
    holds credit, pays when the first byte of the word goes out, doubles the marker, and
    interleaves credit messages between words. `lost` is the credit the host still counted when
    the session was opened: `reset` clears the debt and both buffers but not the credit.

    The application writes the output buffer while the host thread looks at its level, so each of
    the two looks the thread takes, one for the size of a batch and one in cbuf_read, is two steps,
    the full test and the subtraction. The free level of the input buffer needs no such split: a
    look interrupted by the application sees what the buffer has at its end, or finds it full as it
    was at its start (`Ring.WriterLevel`), and then the credit is zero and nothing is announced. */
module UartLink {
  import opened Bits
  import opened UartCodec
  import Ring

  /** The target's sender: idle, owing the second marker byte, or inside a credit message. */
  datatype Egress = Idle | Repeat | High(n: nat) | Low(n: nat)

  /** Where the host thread is on its way to the next batch of output: the level the full test
      saw, the size of the batch, both, or at the failed assertion about cbuf_read. */
  datatype Look =
    | NotLooking
    | LevelTested(seen: nat)
    | Sized(n: nat)
    | ReadTested(n: nat, seen: nat)
    | Aborted

  datatype State = State(
    cap: nat, ocap: nat, lost: nat,
    // host thread: parser, counters, the tranche announced but not counted yet, its look at the
    // output, how much of the current batch is on the wire, and the bytes of it that are not
    p: Parser, credit: nat, debt: nat, grant: nat, look: Look, batch: nat, sent: nat,
    taken: seq<byte>, failed: bool,
    // host buffers, and what the application read and wrote so far
    input: seq<byte>, output: seq<byte>, appRead: seq<byte>, appWrote: seq<byte>,
    // wires
    toHost: seq<byte>, toTarget: seq<byte>,
    // target: sender, credit counter, receiver, all words sent and received, credit granted
    e: Egress, tc: nat, d: Decoder, wordsSent: seq<byte>, wordsGot: seq<byte>, granted: nat,
    // credit offered to the target in this session
    offered: nat)

  datatype Step =
    | TargetSendsWord(b: byte)
    | TargetRepeats
    | TargetStartsCredit(n: nat)
    | TargetSendsHigh
    | TargetSendsLow
    | TargetReceives
    | HostReceives
    | HostAnnounces
    | HostCounts
    | HostTestsLevel
    | HostSizesBatch
    | HostTestsRead
    | HostReadsBatch
    | HostSendsWord
    | HostEndsBatch
    | HostResetsLogic(r: bool)
    | AppReads(k: nat)
    | AppWrites(bytes: seq<byte>)

  /** The state `reset` leaves behind, before the first tranche is announced: `stale` is the
      credit counter of the previous session, zero in the first one. That `reset` announces the
      first tranche and reads the target's first message itself makes no difference as long as that
      message is a tranche of credit. */
  function Opened(cap: nat, ocap: nat, stale: nat): State {
    State(cap, ocap, stale, AtBoundary, stale, 0, 0, NotLooking, 0, 0, [], false,
          [], [], [], [], [], [], Idle, 0, Passthrough, [], [], 0, 0)
  }

  /** The fill level computed from a full test that saw one level and a subtraction at another. */
  function Measured(size: nat, seen: nat, now: nat): nat {
    if seen < size == now then 0 else now
  }

  /** This is what the masks of the ring buffer compute. */
  lemma MeasuredIsFillLevel(size: nat, wrSeen: nat, wr: nat, rd: nat)
    requires IsPow2(size) && wrSeen < 2 * size && wr < 2 * size && rd < 2 * size
    requires Ring.Distance(size, wrSeen, rd) <= Ring.Distance(size, wr, rd) <= size
    ensures Ring.FillLevel(size, wrSeen, rd, wr, rd)
         == Measured(size, Ring.Distance(size, wrSeen, rd), Ring.Distance(size, wr, rd))
  {
    Ring.ReaderLevel(size, wrSeen, wr, rd);
  }

  /** The tranche `update_credit` computes. */
  function Tranche(s: State): int {
    Min(s.cap - |s.input| - s.credit, MAX_TRANCHE)
  }

  predicate ThreadFree(s: State) {
    s.grant == 0 && s.batch == 0 && s.look == NotLooking
  }

  /** The main loop tops up the credit when it is below one tranche, the parser when the second
      byte of a marker is missing and less than two words are granted; `reset` always does. */
  predicate MayAnnounce(s: State) {
    && ThreadFree(s) && Tranche(s) > 0
    && match s.p
       case AtBoundary => s.credit < MAX_TRANCHE || s.offered == 0
       case AfterMark => s.credit < 2
       case AfterFirst(_) => false
  }

  predicate Enabled(s: State, step: Step) {
    match step
    case TargetSendsWord(b) => s.e.Idle? && s.tc > 0
    case TargetRepeats => s.e.Repeat?
    case TargetStartsCredit(n) => s.e.Idle? && n < 0x8000
    case TargetSendsHigh => s.e.High? && s.e.n < 0x8000
    case TargetSendsLow => s.e.Low? && s.e.n < 0x8000
    case TargetReceives => s.toTarget != []
    case HostReceives => ThreadFree(s) && s.toHost != []
    case HostAnnounces => MayAnnounce(s)
    case HostCounts => s.grant > 0
    case HostTestsLevel => ThreadFree(s) && s.p.AtBoundary? && s.debt > 0
    case HostSizesBatch => s.look.LevelTested?
    case HostTestsRead => s.look.Sized?
    case HostReadsBatch => s.look.ReadTested? && s.look.n <= |s.output|
    case HostSendsWord => s.sent < s.batch && s.taken != []
    case HostEndsBatch => 0 < s.batch == s.sent <= s.debt
    case HostResetsLogic(r) => ThreadFree(s) && s.p.AtBoundary?
    case AppReads(k) => s.look != Aborted && k <= |s.input|
    case AppWrites(bytes) => s.look != Aborted && |s.output| + |bytes| <= s.ocap
  }

  function Apply(s: State, step: Step): State
    requires Enabled(s, step)
  {
    match step
    case TargetSendsWord(b) =>
      s.(toHost := s.toHost + [b], tc := s.tc - 1, wordsSent := s.wordsSent + [b],
         e := if b == MARK then Repeat else Idle)
    case TargetRepeats => s.(toHost := s.toHost + [MARK], e := Idle)
    case TargetStartsCredit(n) =>
      s.(toHost := s.toHost + [MARK], e := High(n), granted := s.granted + n)
    case TargetSendsHigh => s.(toHost := s.toHost + [CreditHigh(s.e.n)], e := Low(s.e.n))
    case TargetSendsLow => s.(toHost := s.toHost + [s.e.n % 256], e := Idle)
    case TargetReceives =>
      var r := DecodeByte(s.d, s.toTarget[0]);
      s.(toTarget := s.toTarget[1..], d := r.state, tc := s.tc + Credits(r.msgs),
         wordsGot := s.wordsGot + Words(r.msgs))
    case HostReceives =>
      var r := ParseByte(s.p, s.toHost[0]);
      var n := |Words(r.msgs)|;
      // the assertions of the parser: credit left, and room in the input buffer
      var ok := n <= s.credit && |s.input| + n <= s.cap;
      s.(toHost := s.toHost[1..], p := r.state, failed := s.failed || !ok,
         credit := if ok then s.credit - n else s.credit,
         input := if ok then s.input + Words(r.msgs) else s.input,
         debt := s.debt + Credits(r.msgs))
    case HostAnnounces =>
      s.(toTarget := s.toTarget + Encode(Credit(Tranche(s))), grant := Tranche(s),
         offered := s.offered + Tranche(s))
    case HostCounts => s.(credit := s.credit + s.grant, grant := 0)
    case HostTestsLevel => s.(look := LevelTested(|s.output|))
    case HostSizesBatch =>
      var avail := Measured(s.ocap, s.look.seen, |s.output|);
      s.(look := if avail == 0 then NotLooking else Sized(Min(avail, Min(s.debt, 256))))
    case HostTestsRead => s.(look := ReadTested(s.look.n, |s.output|))
    case HostReadsBatch =>
      var n := s.look.n;
      if Measured(s.ocap, s.look.seen, |s.output|) < n then s.(look := Aborted)
      else s.(look := NotLooking, batch := n, sent := 0, taken := s.output[..n],
              output := s.output[n..])
    case HostSendsWord =>
      s.(toTarget := s.toTarget + Encode(Word(s.taken[0])), taken := s.taken[1..],
         sent := s.sent + 1)
    case HostEndsBatch => s.(debt := s.debt - s.batch, batch := 0, sent := 0)
    case HostResetsLogic(r) => s.(toTarget := s.toTarget + Encode(LogicReset(r)))
    case AppReads(k) => s.(input := s.input[k..], appRead := s.appRead + s.input[..k])
    case AppWrites(bytes) =>
      s.(output := s.output + bytes, appWrote := s.appWrote + bytes)
  }

  // What is on its way.

  /** Data words sent by the target that the host has not stored yet. */
  function InFlightIn(s: State): seq<byte> {
    Words(Parse(s.p, s.toHost).msgs) + (if s.e.Repeat? then [MARK] else [])
  }

  /** Tranches for the target that it has not received yet. */
  function CreditInFlight(s: State): nat {
    Credits(Decode(s.d, s.toTarget).msgs)
  }

  function InFlightOut(s: State): seq<byte> {
    Words(Decode(s.d, s.toTarget).msgs)
  }

  /** Credit for the host that its parser has not added to the debt yet. */
  function DebtInFlight(s: State): nat {
    Credits(Parse(s.p, s.toHost).msgs) + Started(s.e)
  }

  /** The tranche of a credit message the target has begun. */
  function Started(e: Egress): nat {
    if e.High? || e.Low? then e.n else 0
  }

  /** Where the host's parser will be when it has read everything sent so far. */
  predicate ParserFollows(s: State) {
    Follows(s.e, Parse(s.p, s.toHost).state)
  }

  predicate Follows(e: Egress, p: Parser) {
    match e
    case Idle => p == AtBoundary
    case Repeat => p == AfterMark
    case High(n) => p == AfterMark && n < 0x8000
    case Low(n) => n < 0x8000 && p == AfterFirst(CreditHigh(n))
  }

  predicate Inv(s: State) {
    && !s.failed
    && ParserFollows(s)
    && Decode(s.d, s.toTarget).state == Passthrough
    // the credit equation
    && s.credit + s.grant == s.tc + CreditInFlight(s) + |InFlightIn(s)| + s.lost
    && s.credit + s.grant + |s.input| <= s.cap
    && s.credit + s.grant <= s.lost + 0x7ffd
    && s.offered == s.tc + CreditInFlight(s) + |s.wordsSent|
    // nothing is lost, doubled or reordered in either direction
    && s.wordsSent == s.appRead + s.input + InFlightIn(s)
    && s.appWrote == s.wordsGot + InFlightOut(s) + s.taken + s.output
    // one thing at a time: the looks at the output, and the batch
    && LooksRight(s) && |s.output| <= s.ocap
    && (s.grant == 0 || s.batch == 0)
    // the debt equation
    && s.sent <= s.batch <= s.debt && |s.taken| == s.batch - s.sent
    && s.granted + s.sent == s.debt + |s.wordsGot| + |InFlightOut(s)| + DebtInFlight(s)
  }

  /** What the looks have found so far holds, and a batch is neither empty nor larger than what
      there is to read and to pay with. */
  predicate LooksRight(s: State) {
    && (s.look != NotLooking ==> s.grant == 0 && s.batch == 0 && s.p.AtBoundary?)
    && match s.look
       case NotLooking => true
       case LevelTested(seen) => seen <= |s.output| && 0 < s.debt
       case Sized(n) => 0 < n <= Min(s.debt, 256) && n <= |s.output|
       case ReadTested(n, seen) => 0 < n <= Min(s.debt, 256) && n <= seen <= |s.output|
       case Aborted => |s.output| == s.ocap
  }

  lemma OpenedInv(cap: nat, ocap: nat, stale: nat)
    requires stale <= cap
    ensures Inv(Opened(cap, ocap, stale))
  {
  }

  /** One more byte from the target: what the parser will make of it. */
  lemma ByteToHost(s: State, b: byte)
    ensures var before, after := Parse(s.p, s.toHost), Parse(s.p, s.toHost + [b]);
            var r := ParseByte(before.state, b);
            && after.state == r.state
            && Words(after.msgs) == Words(before.msgs) + Words(r.msgs)
            && Credits(after.msgs) == Credits(before.msgs) + Credits(r.msgs)
  {
    var before := Parse(s.p, s.toHost);
    var r := ParseByte(before.state, b);
    ParseAppend(s.p, s.toHost, [b]);
    assert [b][1..] == [];
    assert Parse(before.state, [b]) == Parsed(r.state, r.msgs + []);
    assert r.msgs + [] == r.msgs;
    MsgsAppend(before.msgs, r.msgs);
  }

  /** One more message from the host: what the target will make of it. */
  lemma MessageToTarget(s: State, m: Msg)
    requires m.Credit? ==> m.n <= MAX_TRANCHE
    requires Decode(s.d, s.toTarget).state == Passthrough
    ensures var before, after := Decode(s.d, s.toTarget), Decode(s.d, s.toTarget + Encode(m));
            && after.state == Passthrough
            && Words(after.msgs) == Words(before.msgs) + Words([m])
            && Credits(after.msgs) == Credits(before.msgs) + Credits([m])
  {
    DecodeAppend(s.d, s.toTarget, Encode(m));
    DecodeOne(m);
    MsgsAppend(Decode(s.d, s.toTarget).msgs, [m]);
  }

  lemma TargetWordKeeps(s: State, step: Step)
    requires Inv(s) && Enabled(s, step) && (step.TargetSendsWord? || step.TargetRepeats?)
    ensures Inv(Apply(s, step))
  {
    hide Parse, Decode;
    var s' := Apply(s, step);
    match step {
      case TargetSendsWord(b) =>
        ByteToHost(s, b);
        assert InFlightIn(s') == InFlightIn(s) + [b];
        assert s'.wordsSent == s.appRead + s.input + (InFlightIn(s) + [b]);
      case TargetRepeats =>
        ByteToHost(s, MARK);
        assert InFlightIn(s') == InFlightIn(s);
    }
  }

  /** A byte of a credit message carries no data word. */
  lemma ControlByteKeeps(s: State, b: byte, e: Egress, n: nat)
    requires Inv(s) && !s.e.Repeat? && !e.Repeat?
    requires var r := ParseByte(Parse(s.p, s.toHost).state, b);
             && Words(r.msgs) == [] && Follows(e, r.state)
             && Credits(r.msgs) + Started(e) == Started(s.e) + n
    ensures Inv(s.(toHost := s.toHost + [b], e := e, granted := s.granted + n))
  {
    ByteToHost(s, b);
    assert InFlightIn(s.(toHost := s.toHost + [b], e := e)) == InFlightIn(s);
  }

  lemma TargetCreditKeeps(s: State, step: Step)
    requires Inv(s) && Enabled(s, step)
    requires step.TargetStartsCredit? || step.TargetSendsHigh? || step.TargetSendsLow?
    ensures Inv(Apply(s, step))
  {
    hide Decode;
    match step {
      case TargetStartsCredit(n) => ControlByteKeeps(s, MARK, High(n), n);
      case TargetSendsHigh => ControlByteKeeps(s, CreditHigh(s.e.n), Low(s.e.n), 0);
      case TargetSendsLow =>
        TrancheBytes(s.e.n);
        ControlByteKeeps(s, s.e.n % 256, Idle, 0);
    }
  }

  lemma TrancheBytes(n: nat)
    requires n < 0x8000
    ensures TrancheOf(CreditHigh(n), n % 256) == n
  {
  }

  lemma TargetReceivesKeeps(s: State)
    requires Inv(s) && Enabled(s, TargetReceives)
    ensures Inv(Apply(s, TargetReceives))
  {
    var r := DecodeByte(s.d, s.toTarget[0]);
    var s' := Apply(s, TargetReceives);
    MsgsAppend(r.msgs, Decode(s'.d, s'.toTarget).msgs);
    assert InFlightOut(s) == Words(r.msgs) + InFlightOut(s');
    assert s.wordsGot + (Words(r.msgs) + InFlightOut(s')) == s'.wordsGot + InFlightOut(s');
    assert InFlightIn(s') == InFlightIn(s);
  }

  /** The parser's assertions hold: a word on its way is covered by credit, and the credit by
      free space. */
  lemma WordsAreCovered(s: State)
    requires Inv(s) && Enabled(s, HostReceives)
    ensures var w := Words(ParseByte(s.p, s.toHost[0]).msgs);
            && |w| <= s.credit && |s.input| + |w| <= s.cap
            && InFlightIn(s) == w + InFlightIn(Apply(s, HostReceives))
            && ParserFollows(Apply(s, HostReceives))
            && DebtInFlight(s) == Credits(ParseByte(s.p, s.toHost[0]).msgs)
                                  + DebtInFlight(Apply(s, HostReceives))
  {
    var r := ParseByte(s.p, s.toHost[0]);
    MsgsAppend(r.msgs, Parse(r.state, s.toHost[1..]).msgs);
  }

  lemma HostReceivesKeeps(s: State)
    requires Inv(s) && Enabled(s, HostReceives)
    ensures Inv(Apply(s, HostReceives))
  {
    hide Parse, Decode, Words, Credits, ParseByte;
    WordsAreCovered(s);
    var s', w := Apply(s, HostReceives), Words(ParseByte(s.p, s.toHost[0]).msgs);
    assert s.appRead + s.input + (w + InFlightIn(s')) == s'.appRead + s'.input + InFlightIn(s');
  }

  lemma HostAnnouncesKeeps(s: State)
    requires Inv(s) && Enabled(s, HostAnnounces)
    ensures Inv(Apply(s, HostAnnounces))
  {
    hide Parse, Decode, Encode;
    MessageToTarget(s, Credit(Tranche(s)));
  }

  lemma HostSendsWordKeeps(s: State)
    requires Inv(s) && Enabled(s, HostSendsWord)
    ensures Inv(Apply(s, HostSendsWord))
  {
    hide Parse, Decode, Encode;
    MessageToTarget(s, Word(s.taken[0]));
    assert s.taken == [s.taken[0]] + s.taken[1..];
  }

  lemma HostResetsLogicKeeps(s: State, r: bool)
    requires Inv(s) && Enabled(s, HostResetsLogic(r))
    ensures Inv(Apply(s, HostResetsLogic(r)))
  {
    hide Parse, Decode, Encode;
    MessageToTarget(s, LogicReset(r));
  }

  lemma LocalStepKeeps(s: State, step: Step)
    requires Inv(s) && Enabled(s, step)
    requires step.HostCounts? || step.HostEndsBatch? || step.AppReads? || step.AppWrites?
    ensures Inv(Apply(s, step))
  {
    hide Parse, Decode, Words, Credits;
    match step {
      case AppReads(k) =>
        assert s.appRead + s.input == s.appRead + s.input[..k] + s.input[k..];
      case _ =>
    }
  }

  lemma LookingKeeps(s: State, step: Step)
    requires Inv(s) && Enabled(s, step)
    requires step.HostTestsLevel? || step.HostSizesBatch? || step.HostTestsRead? || step.HostReadsBatch?
    ensures Inv(Apply(s, step))
  {
    hide Parse, Decode, Words, Credits;
    if step.HostReadsBatch? {
      var n, x := s.look.n, s.wordsGot + InFlightOut(s);
      assert s.taken == [] && x + [] == x && s.output == s.output[..n] + s.output[n..];
      Associative(x, s.output[..n], s.output[n..]);
    }
  }

  /** Every step of either party keeps the invariant. */
  lemma StepKeeps(s: State, step: Step)
    requires Inv(s) && Enabled(s, step)
    ensures Inv(Apply(s, step))
  {
    match step {
      case TargetSendsWord(b) => TargetWordKeeps(s, step);
      case TargetRepeats => TargetWordKeeps(s, step);
      case TargetStartsCredit(n) => TargetCreditKeeps(s, step);
      case TargetSendsHigh => TargetCreditKeeps(s, step);
      case TargetSendsLow => TargetCreditKeeps(s, step);
      case TargetReceives => TargetReceivesKeeps(s);
      case HostReceives => HostReceivesKeeps(s);
      case HostAnnounces => HostAnnouncesKeeps(s);
      case HostSendsWord => HostSendsWordKeeps(s);
      case HostResetsLogic(r) => HostResetsLogicKeeps(s, r);
      case HostCounts => LocalStepKeeps(s, step);
      case HostEndsBatch => LocalStepKeeps(s, step);
      case AppReads(k) => LocalStepKeeps(s, step);
      case AppWrites(bytes) => LocalStepKeeps(s, step);
      case _ => LookingKeeps(s, step);
    }
  }

  // Whole runs.

  predicate IsRun(s: State, steps: seq<Step>)
    decreases |steps|
  {
    steps == [] || (Enabled(s, steps[0]) && IsRun(Apply(s, steps[0]), steps[1..]))
  }

  function Run(s: State, steps: seq<Step>): State
    requires IsRun(s, steps)
    decreases |steps|
  {
    if steps == [] then s else Run(Apply(s, steps[0]), steps[1..])
  }

  lemma {:induction false} RunKeeps(s: State, steps: seq<Step>)
    requires Inv(s) && IsRun(s, steps)
    ensures Inv(Run(s, steps))
    ensures Run(s, steps).cap == s.cap && Run(s, steps).lost == s.lost
    decreases |steps|
  {
    if steps != [] {
      StepKeeps(s, steps[0]);
      RunKeeps(Apply(s, steps[0]), steps[1..]);
    }
  }

  /** In every reachable state of every session no assertion of the parser has failed, the credit
      never exceeds the free space of the input buffer, and the words the target sent are those
      the application read, those in the buffer and those on the wire, in this order. In the
      other direction the application's bytes arrive in order, never more than the target granted,
      and the 15-bit credit counter of the target does not overflow. The credit of the host is
      exactly the target's credit plus tranches and words in flight in the first session; later it
      is larger by the credit left over from the session before.

      The host's assertion about cbuf_read has failed if and only if the application filled the
      output buffer to the brim between the two halves of the look in it. */
  lemma EverySessionIsSafe(cap: nat, ocap: nat, stale: nat, steps: seq<Step>)
    requires stale <= cap && IsRun(Opened(cap, ocap, stale), steps)
    ensures var s := Run(Opened(cap, ocap, stale), steps);
            && !s.failed
            && (s.look == Aborted <==> Brimmed(Opened(cap, ocap, stale), steps))
            && s.credit + |s.input| <= cap
            && s.wordsSent == s.appRead + s.input + InFlightIn(s)
            && s.appWrote == s.wordsGot + InFlightOut(s) + s.taken + s.output
            && |s.wordsGot| + |InFlightOut(s)| <= s.granted
            && s.tc + CreditInFlight(s) < 0x8000
            && s.credit + s.grant == s.tc + CreditInFlight(s) + |InFlightIn(s)| + stale
  {
    OpenedInv(cap, ocap, stale);
    RunKeeps(Opened(cap, ocap, stale), steps);
    AbortedIffBrimmed(Opened(cap, ocap, stale), steps);
  }

  /** cbuf_read looks at the output, which has become full since the first half of the look. */
  predicate BrimmedAt(s: State, step: Step) {
    step.HostReadsBatch? && s.look.ReadTested? && s.look.seen < s.ocap == |s.output|
  }

  predicate Brimmed(s: State, steps: seq<Step>)
    requires IsRun(s, steps)
    decreases |steps|
  {
    steps != [] && (BrimmedAt(s, steps[0]) || Brimmed(Apply(s, steps[0]), steps[1..]))
  }

  /** One step fails the assertion about cbuf_read exactly if the output has become full. */
  lemma AbortsIffBrimmed(s: State, step: Step)
    requires Inv(s) && Enabled(s, step)
    ensures Apply(s, step).look == Aborted <==> s.look == Aborted || BrimmedAt(s, step)
  {
  }

  lemma {:induction false} AbortedIffBrimmed(s: State, steps: seq<Step>)
    requires Inv(s) && IsRun(s, steps)
    ensures Run(s, steps).look == Aborted <==> s.look == Aborted || Brimmed(s, steps)
    decreases |steps|
  {
    hide Inv, Apply, Enabled, BrimmedAt;
    if steps != [] {
      StepKeeps(s, steps[0]);
      AbortsIffBrimmed(s, steps[0]);
      AbortedIffBrimmed(Apply(s, steps[0]), steps[1..]);
    }
  }

  /** With no credit left the next message from the target is a credit message: what the main
      loop asserts when the input buffer is full. */
  lemma NoCreditMeansControl(s: State)
    requires Inv(s) && ThreadFree(s) && s.p.AtBoundary? && s.credit == 0 && s.toHost != []
    ensures s.toHost[0] == MARK && !s.e.Repeat?
    ensures |s.toHost| > 1 ==> s.toHost[1] != MARK
  {
    var rest := s.toHost[1..];
    var r := ParseByte(AtBoundary, s.toHost[0]);
    MsgsAppend(r.msgs, Parse(r.state, rest).msgs);
    if |s.toHost| > 1 && s.toHost[0] == MARK {
      var r2 := ParseByte(AfterMark, rest[0]);
      assert Parse(AfterMark, rest).msgs == r2.msgs + Parse(r2.state, rest[1..]).msgs;
      MsgsAppend(r2.msgs, Parse(r2.state, rest[1..]).msgs);
    }
  }

  /** The host waits for the byte after a marker only when it has granted two words. The target
      modelled here pays for a doubled marker once, so it does not need them. One that waits for
      credit before it repeats the marker has some, or some is on its way, exactly when the host's
      credit exceeds the stale credit by more than the word begun: always in the first session. */
  lemma MarkerIsCompleted(s: State)
    requires Inv(s) && s.p.AfterMark? && s.toHost == [] && s.credit >= 2
    ensures s.e.High? || s.e.Repeat?
    ensures s.e.Repeat? ==> (s.tc + CreditInFlight(s) > 0 <==> s.credit + s.grant > s.lost + 1)
    ensures s.e.Repeat? && s.lost == 0 ==> s.tc + CreditInFlight(s) > 0
  {
    assert Parse(s.p, s.toHost) == Parsed(AfterMark, []);
  }

  /** A target that has used up its credit is served again, once the application has emptied the
      input buffer, exactly when less than one tranche was left over from the session before. */
  lemma ExhaustedTargetIsServedIff(s: State)
    requires Inv(s) && ThreadFree(s) && s.p.AtBoundary? && s.offered > 0 && s.lost < s.cap
    requires s.tc == 0 && CreditInFlight(s) == 0 && InFlightIn(s) == [] && s.input == []
    ensures MayAnnounce(s) <==> s.lost < MAX_TRANCHE
  {
    assert s.credit == s.lost;
  }

  /** Otherwise the first tranche is all the credit the target gets in the whole session. */
  lemma {:induction false} StaleCreditStarvesTarget(s: State, steps: seq<Step>)
    requires Inv(s) && IsRun(s, steps) && s.lost >= MAX_TRANCHE && s.offered <= MAX_TRANCHE
    ensures var e := Run(s, steps);
            e.offered <= MAX_TRANCHE && |e.wordsSent| <= MAX_TRANCHE
    decreases |steps|
  {
    if steps != [] {
      StepKeeps(s, steps[0]);
      StaleCreditStarvesTarget(Apply(s, steps[0]), steps[1..]);
    }
  }

  /** The state after the host has parsed the next `k` bytes in one go. */
  function Parsing(s: State, k: nat): State
    requires k <= |s.toHost| && |Words(Parse(s.p, s.toHost[..k]).msgs)| <= s.credit
  {
    var r := Parse(s.p, s.toHost[..k]);
    s.(toHost := s.toHost[k..], p := r.state, credit := s.credit - |Words(r.msgs)|,
       input := s.input + Words(r.msgs), debt := s.debt + Credits(r.msgs))
  }

  lemma ParsingStep(s: State, k: nat)
    requires Inv(s) && ThreadFree(s) && 0 < k <= |s.toHost|
    requires var s' := Apply(s, HostReceives);
             |Words(Parse(s'.p, s'.toHost[..k - 1]).msgs)| <= s'.credit
    ensures |Words(Parse(s.p, s.toHost[..k]).msgs)| <= s.credit
    ensures Parsing(s, k) == Parsing(Apply(s, HostReceives), k - 1)
  {
    hide Inv, Decode, Encode, Parse, Words, Credits, ParseByte;
    WordsAreCovered(s);
    ParseHead(s.p, s.toHost[..k]);
    var s' := Apply(s, HostReceives);
    assert s.toHost[..k][1..] == s'.toHost[..k - 1];
    assert s.toHost[k..] == s'.toHost[k - 1..];
    var rest := Words(Parse(s'.p, s'.toHost[..k - 1]).msgs);
    assert s'.input + rest == s.input + (Words(ParseByte(s.p, s.toHost[0]).msgs) + rest);
  }

  /** Receiving byte by byte amounts to parsing the bytes received, whatever the chunks were. */
  lemma {:induction false} ReceivingIsParsing(s: State, k: nat)
    requires Inv(s) && ThreadFree(s) && k <= |s.toHost|
    ensures var steps := seq(k, i => HostReceives);
            && |Words(Parse(s.p, s.toHost[..k]).msgs)| <= s.credit
            && IsRun(s, steps) && Run(s, steps) == Parsing(s, k)
    decreases k
  {
    hide Inv, Decode, Encode;
    var steps := seq(k, i => HostReceives);
    if k > 0 {
      HostReceivesKeeps(s);
      ReceivingIsParsing(Apply(s, HostReceives), k - 1);
      ParsingStep(s, k);
      assert steps[1..] == seq(k - 1, i => HostReceives);
    }
  }

  // The thread's calls as runs.

  lemma {:induction false} RunAppend(s: State, a: seq<Step>, b: seq<Step>)
    requires IsRun(s, a) && IsRun(Run(s, a), b)
    ensures IsRun(s, a + b) && Run(s, a + b) == Run(Run(s, a), b)
    decreases |a|
  {
    hide Apply, Enabled;
    if a == [] {
      assert a + b == b;
    } else {
      RunAppend(Apply(s, a[0]), a[1..], b);
      assert (a + b)[1..] == a[1..] + b;
    }
  }

  lemma OneStep(s: State, step: Step)
    requires Enabled(s, step)
    ensures IsRun(s, [step]) && Run(s, [step]) == Apply(s, step)
  {
    hide Apply, Enabled;
    assert [step][1..] == [];
  }

  lemma ThreeSteps(s: State, a: Step, b: Step, c: Step)
    requires Enabled(s, a) && Enabled(Apply(s, a), b) && Enabled(Apply(Apply(s, a), b), c)
    ensures IsRun(s, [a, b, c]) && Run(s, [a, b, c]) == Apply(Apply(Apply(s, a), b), c)
  {
    hide Apply, Enabled;
    assert [a, b, c][1..] == [b, c] && [b, c][1..] == [c];
    OneStep(Apply(Apply(s, a), b), c);
  }

  /** Writing the words of a batch one by one puts their encoding on the wire. */
  lemma {:induction false} SendingIsEncoding(s: State, k: nat)
    requires s.sent + k <= s.batch && k <= |s.taken|
    ensures var steps := seq(k, i => HostSendsWord);
            && IsRun(s, steps)
            && Run(s, steps) == s.(toTarget := s.toTarget + EncodeAll(AsWords(s.taken[..k])),
                                   taken := s.taken[k..], sent := s.sent + k)
    decreases k
  {
    hide Encode;
    var steps := seq(k, i => HostSendsWord);
    var all := s.taken[..k];
    if k == 0 {
      assert AsWords(all) == [] && s.toTarget + [] == s.toTarget;
    } else {
      var s', b := Apply(s, HostSendsWord), s.taken[0];
      SendingIsEncoding(s', k - 1);
      assert steps[1..] == seq(k - 1, i => HostSendsWord);
      assert s'.taken[..k - 1] == all[1..];
      assert AsWords(all)[0] == Word(b) && AsWords(all)[1..] == AsWords(all[1..]);
      Associative(s.toTarget, Encode(Word(b)), EncodeAll(AsWords(all[1..])));
    }
  }

  /** The steps of the two looks, with the application writing in the middle of both and between
      them. */
  function LookSteps(a: seq<byte>, b: seq<byte>, c: seq<byte>): seq<Step> {
    [HostTestsLevel, AppWrites(a), HostSizesBatch] + [AppWrites(b)] +
    [HostTestsRead, AppWrites(c), HostReadsBatch]
  }

  /** What the looks find: the size of the batch, zero if there is none. */
  function BatchSize(s: State, a: seq<byte>): (n: nat)
    ensures n <= |s.output| + |a|
  {
    Min(Measured(s.ocap, |s.output|, |s.output| + |a|), Min(s.debt, 256))
  }

  lemma LevelLook(s: State, a: seq<byte>)
    requires s.grant == 0 && s.batch == 0 && s.look == NotLooking && s.p.AtBoundary?
    requires 0 < s.debt && |s.output| + |a| <= s.ocap && 0 < BatchSize(s, a)
    ensures var steps := [HostTestsLevel, AppWrites(a), HostSizesBatch];
            && IsRun(s, steps)
            && Run(s, steps) == s.(output := s.output + a, appWrote := s.appWrote + a,
                                   look := Sized(BatchSize(s, a)))
  {
    ThreeSteps(s, HostTestsLevel, AppWrites(a), HostSizesBatch);
  }

  lemma ReadLook(s: State, c: seq<byte>)
    requires s.look.Sized? && s.look.n <= |s.output| && |s.output| + |c| <= s.ocap && 0 < s.look.n
    ensures var steps := [HostTestsRead, AppWrites(c), HostReadsBatch];
            var n, out, s' := s.look.n, s.output + c, s.(appWrote := s.appWrote + c);
            && IsRun(s, steps)
            && Run(s, steps) ==
                 if |s.output| < s.ocap == |out| then s'.(output := out, look := Aborted)
                 else s'.(output := out[n..], look := NotLooking, batch := n, sent := 0,
                          taken := out[..n])
  {
    ThreeSteps(s, HostTestsRead, AppWrites(c), HostReadsBatch);
  }

  /** The looks end with a batch, or at the failed assertion. */
  lemma LooksTakeBatch(s: State, a: seq<byte>, b: seq<byte>, c: seq<byte>)
    requires Inv(s) && ThreadFree(s) && s.p.AtBoundary? && 0 < BatchSize(s, a)
    requires |s.output + a + b + c| <= s.ocap
    ensures var n, out := BatchSize(s, a), s.output + a + b + c;
            var s' := s.(appWrote := s.appWrote + a + b + c);
            && IsRun(s, LookSteps(a, b, c))
            && Run(s, LookSteps(a, b, c)) ==
                 if |s.output + a + b| < s.ocap == |out| then s'.(output := out, look := Aborted)
                 else s'.(output := out[n..], batch := n, sent := 0, taken := out[..n])
  {
    hide Inv, IsRun, Run, ThreadFree;
    var first, second := [HostTestsLevel, AppWrites(a), HostSizesBatch], [AppWrites(b)];
    var third := [HostTestsRead, AppWrites(c), HostReadsBatch];
    ThreadIsFree(s);
    LevelLook(s, a);
    var s1 := Run(s, first);
    OneStep(s1, AppWrites(b));
    var s2 := Run(s1, second);
    ReadLook(s2, c);
    RunAppend(s, first, second);
    RunAppend(s, first + second, third);
  }

  lemma ThreadIsFree(s: State)
    requires Inv(s) && ThreadFree(s)
    ensures s.grant == 0 && s.batch == 0 && s.look == NotLooking && s.taken == [] && s.sent == 0
  {
  }

  /** The steps from the first look to the end of a batch amount to what the writing half of the
      main loop does in one call, unless the assertion about cbuf_read fails. */
  lemma BatchIsWritePhase(s: State, a: seq<byte>, b: seq<byte>, c: seq<byte>)
    requires Inv(s) && ThreadFree(s) && s.p.AtBoundary? && 0 < BatchSize(s, a)
    requires |s.output + a + b + c| <= s.ocap
    requires !(|s.output + a + b| < s.ocap == |s.output + a + b + c|)
    ensures var n, out := BatchSize(s, a), s.output + a + b + c;
            var steps := LookSteps(a, b, c) + seq(n, i => HostSendsWord) + [HostEndsBatch];
            && IsRun(s, steps)
            && Run(s, steps) == s.(toTarget := s.toTarget + EncodeAll(AsWords(out[..n])),
                                   output := out[n..], appWrote := s.appWrote + a + b + c,
                                   debt := s.debt - n, sent := 0)
  {
    hide Encode, EncodeAll, Inv, LookSteps, IsRun, Run, Measured, ThreadFree;
    ThreadIsFree(s);
    var n := BatchSize(s, a);
    var looks, words := LookSteps(a, b, c), seq(n, i => HostSendsWord);
    LooksTakeBatch(s, a, b, c);
    var s1 := Run(s, looks);
    SendingIsEncoding(s1, n);
    assert s1.taken[..n] == s1.taken && s1.taken[n..] == [];
    RunAppend(s, looks, words);
    var s2 := Run(s1, words);
    OneStep(s2, HostEndsBatch);
    RunAppend(s, looks + words, [HostEndsBatch]);
  }

  /** Announcing a tranche and counting it amount to what the update of the credit does in one
      call. */
  lemma AnnouncingIsUpdateCredit(s: State)
    requires MayAnnounce(s)
    ensures var n, steps := Tranche(s), [HostAnnounces, HostCounts];
            && IsRun(s, steps)
            && Run(s, steps) == s.(toTarget := s.toTarget + Encode(Credit(n)),
                                   credit := s.credit + n, offered := s.offered + n)
  {
    hide Encode;
    OneStep(s, HostAnnounces);
    OneStep(Apply(s, HostAnnounces), HostCounts);
    RunAppend(s, [HostAnnounces], [HostCounts]);
    assert [HostAnnounces] + [HostCounts] == [HostAnnounces, HostCounts];
  }

  /** The first session can end with a whole tranche of credit, and leave it to the next one. */
  lemma StaleTrancheIsReachable(cap: nat, ocap: nat)
    requires cap >= MAX_TRANCHE
    ensures var steps := [HostAnnounces, HostCounts];
            && IsRun(Opened(cap, ocap, 0), steps)
            && Run(Opened(cap, ocap, 0), steps).credit == MAX_TRANCHE
  {
    AnnouncingIsUpdateCredit(Opened(cap, ocap, 0));
  }

  // A run in which the assertion about cbuf_read fails.

  /** The target grants one word, the application writes one byte, and then, in the middle of the
      second look, the rest of the buffer. */
  function AbortingSteps(ocap: nat): seq<Step>
    requires 2 <= ocap
  {
    [TargetStartsCredit(1), TargetSendsHigh, TargetSendsLow, HostReceives, HostReceives,
     HostReceives, AppWrites([7])] + LookSteps([], [], seq(ocap - 1, _ => 7))
  }

  lemma AbortExample(cap: nat, ocap: nat)
    requires 2 <= ocap
    ensures IsRun(Opened(cap, ocap, 0), AbortingSteps(ocap))
    ensures Run(Opened(cap, ocap, 0), AbortingSteps(ocap)).look == Aborted
  {
    GrantExample(cap, ocap);
    var s := Opened(cap, ocap, 0);
    var first := AbortingSteps(ocap)[..7];
    var s1 := Run(s, first);
    OpenedInv(cap, ocap, 0);
    RunKeeps(s, first);
    var rest: seq<byte> := seq(ocap - 1, _ => 7);
    LooksTakeBatch(s1, [], [], rest);
    RunAppend(s, first, LookSteps([], [], rest));
    assert AbortingSteps(ocap) == first + LookSteps([], [], rest);
  }

  lemma GrantStart(s: State)
    requires s.e == Idle && s.toHost == []
    ensures var steps := [TargetStartsCredit(1), TargetSendsHigh, TargetSendsLow];
            IsRun(s, steps) && Run(s, steps) == s.(toHost := [MARK, 1, 1], granted := s.granted + 1)
  {
    hide Run, IsRun, Parse, Decode, MayAnnounce;
    ThreeSteps(s, TargetStartsCredit(1), TargetSendsHigh, TargetSendsLow);
  }

  lemma GrantArrives(s: State)
    requires ThreadFree(s) && s.p == AtBoundary && s.toHost == [MARK, 1, 1] && |s.input| <= s.cap
    requires !s.failed
    ensures var steps := [HostReceives, HostReceives, HostReceives];
            IsRun(s, steps) && Run(s, steps) == s.(toHost := [], debt := s.debt + 1)
  {
    hide Run, IsRun, Parse, Decode, MayAnnounce;
    assert s.toHost[1..] == [1, 1] && [1, 1][1..] == [1] && [1][1..] == [];
    assert Credits([Credit(1)]) == 1 && Words([Credit(1)]) == [] && s.input + [] == s.input;
    assert Apply(s, HostReceives) == s.(toHost := [1, 1], p := AfterMark);
    assert Apply(Apply(s, HostReceives), HostReceives) == s.(toHost := [1], p := AfterFirst(1));
    ThreeSteps(s, HostReceives, HostReceives, HostReceives);
  }

  lemma GrantExample(cap: nat, ocap: nat)
    requires 2 <= ocap
    ensures var first := AbortingSteps(ocap)[..7];
            && IsRun(Opened(cap, ocap, 0), first)
            && var s := Run(Opened(cap, ocap, 0), first);
               ThreadFree(s) && s.p.AtBoundary? && s.debt == 1 && s.output == [7] && s.ocap == ocap
  {
    hide IsRun, Run;
    var s0, first := Opened(cap, ocap, 0), AbortingSteps(ocap)[..7];
    var a, b := [TargetStartsCredit(1), TargetSendsHigh, TargetSendsLow], seq(3, _ => HostReceives);
    GrantStart(s0);
    var s3 := Run(s0, a);
    GrantArrives(s3);
    assert b == [HostReceives, HostReceives, HostReceives];
    var s6 := Run(s3, b);
    OneStep(s6, AppWrites([7]));
    RunAppend(s0, a, b);
    RunAppend(s0, a + b, [AppWrites([7])]);
    assert first == a + b + [AppWrites([7])];
  }
}
