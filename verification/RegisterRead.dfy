/** Reading a register through the Debug NoC: a rendezvous between the receiving thread, which
    owns the buffer of the last packet, and a thread that waits for an answer in that buffer.
    A flag asks for the rendezvous, and two semaphores carry it out. Every step below is one
    access to shared state. */
module RegisterRead {
  import opened Bits
  import opened DbgNocStream

  const DBG_NOC_CLASS_REG_READ_RESP: nat := 1
  const REGISTER_READ_MAXPKGS: nat := 100000
  const MAX_BURST_LEN: nat := 4

  /** The receiving thread: between packets, storing the flits of a packet one by one, about to
      look at the flag, about to announce the packet, waiting until it has been processed. */
  datatype Receiver = Parsing | Storing(p: Flits16, stored: nat) | Looking | Announcing | Blocked

  /** How a register read goes on when it lets the receiver go. */
  datatype Verdict = Retry | Found | GaveUp

  /** A register read of `burst` words: about to send the request, waiting for a packet, just timed
      out, looking at a packet, copying words from it, about to clear the flag, about to release
      the receiver. `i` counts packets. */
  datatype Reader =
    | Idle
    | Sending(burst: nat)
    | Waiting(burst: nat, i: nat)
    | TimedOut
    | Checking(burst: nat, i: nat)
    | Copying(burst: nat, data: seq<word16>)
    | Clearing(burst: nat, i: nat, data: seq<word16>, verdict: Verdict)
    | Releasing(burst: nat, i: nat, data: seq<word16>, verdict: Verdict)

  type Cells = c: seq<word16> | |c| == NUM_SAMPLES_PER_TRANSFER
    witness seq(NUM_SAMPLES_PER_TRANSFER, _ => 0)

  /** `len` and `cells` are the shared packet, `seen` all packets that arrived (the last one may
      still be on its way into the cells), `finished` how many of them the receiver is done with,
      `results` the words returned by successful register reads. */
  datatype State = State(flag: bool, available: nat, processed: nat, len: nat, cells: Cells,
                         receiver: Receiver, reader: Reader,
                         seen: seq<Flits16>, finished: nat, results: seq<seq<word16>>)

  datatype Step =
    | Arrive(p: Flits16)
    | StoreFlit
    | LookAtFlag
    | Announce
    | WakeUp
    | Request(burst: nat)
    | SendRequest
    | SendFails
    | TakePacket
    | TimeOut
    | Abandon
    | Check
    | CopyWord
    | ClearFlag
    | Release
    // a wait that a signal interrupts goes on without the token
    | TakeNothing
    | WakeUpEarly

  predicate ReceiverStep(step: Step) {
    step.Arrive? || step.StoreFlit? || step.LookAtFlag? || step.Announce? || step.WakeUp?
  }

  /** A step that leaves the rendezvous in order: sending does not fail, a read that timed out does
      not clear the flag after the receiver has already seen it set, and no wait is interrupted. */
  predicate Harmless(s: State, step: Step) {
    && !Interrupted(step)
    && !step.SendFails?
    && (step.Abandon? ==> !Committed(s))
  }

  predicate Interrupted(step: Step) {
    step.TakeNothing? || step.WakeUpEarly?
  }

  /** The receiver has seen the flag and is about to wait, or waits, for somebody to take its
      packet. */
  predicate Committed(s: State) {
    s.receiver.Announcing? || (s.receiver.Blocked? && s.available > 0)
  }

  function Init(): State {
    State(false, 0, 0, 0, seq(NUM_SAMPLES_PER_TRANSFER, _ => 0), Parsing, Idle, [], 0, [])
  }

  predicate Enabled(s: State, step: Step) {
    match step
    case Arrive(p) => s.receiver.Parsing? && 0 < |p| <= NUM_SAMPLES_PER_TRANSFER
    case StoreFlit => s.receiver.Storing?
    case LookAtFlag => s.receiver.Looking?
    case Announce => s.receiver.Announcing?
    case WakeUp => s.receiver.Blocked? && s.processed > 0
    case Request(burst) => s.reader.Idle? && burst <= MAX_BURST_LEN
    case SendRequest => s.reader.Sending?
    case SendFails => s.reader.Sending?
    case TakePacket => s.reader.Waiting? && s.available > 0
    case TimeOut => s.reader.Waiting? && s.available == 0
    case Abandon => s.reader.TimedOut?
    case Check => s.reader.Checking?
    case CopyWord => s.reader.Copying?
    case ClearFlag => s.reader.Clearing?
    case Release => s.reader.Releasing?
    case TakeNothing => s.reader.Waiting?
    case WakeUpEarly => s.receiver.Blocked?
  }

  /** Is the shared packet the answer to a read of `burst` words? */
  predicate IsAnswer(header: word16, len: nat, burst: nat) {
    len == burst + 1 && Class16(header) == DBG_NOC_CLASS_REG_READ_RESP
  }

  function Apply(s: State, step: Step): State
    requires Enabled(s, step)
  {
    match step
    case Arrive(p) => s.(receiver := Storing(p, 0), len := |p|, seen := s.seen + [p])
    case StoreFlit =>
      var p, j := s.receiver.p, s.receiver.stored;
      if j < |p| && j < |s.cells| then
        s.(cells := s.cells[j := p[j]], receiver := Storing(p, j + 1))
      else s.(receiver := Looking)
    case LookAtFlag =>
      if s.flag then s.(receiver := Announcing)
      else s.(receiver := Parsing, finished := s.finished + 1)
    case Announce => s.(available := s.available + 1, receiver := Blocked)
    case WakeUp =>
      s.(processed := s.processed - 1, receiver := Parsing, finished := s.finished + 1)
    case Request(burst) => s.(flag := true, reader := Sending(burst))
    case SendRequest => s.(reader := Waiting(s.reader.burst, 0))
    case SendFails => s.(reader := Idle)
    case TakePacket =>
      s.(available := s.available - 1, reader := Checking(s.reader.burst, s.reader.i))
    case TimeOut => s.(reader := TimedOut)
    case Abandon => s.(flag := false, reader := Idle)
    case Check =>
      var r := s.reader;
      s.(reader :=
         if IsAnswer(s.cells[0], s.len, r.burst) then Copying(r.burst, [])
         else if r.i + 1 >= REGISTER_READ_MAXPKGS then Clearing(r.burst, r.i, [], GaveUp)
         else Releasing(r.burst, r.i, [], Retry))
    case CopyWord =>
      var r := s.reader;
      s.(reader :=
         if |r.data| < r.burst && |r.data| + 1 < |s.cells| then
           Copying(r.burst, r.data + [s.cells[|r.data| + 1]])
         else Clearing(r.burst, 0, r.data, Found))
    case ClearFlag =>
      var r := s.reader;
      s.(flag := false, reader := Releasing(r.burst, r.i, r.data, r.verdict))
    case Release =>
      var r := s.reader;
      s.(processed := s.processed + 1,
         reader := if r.verdict == Retry then Waiting(r.burst, r.i + 1) else Idle,
         results := if r.verdict == Found then s.results + [r.data] else s.results)
    case TakeNothing => s.(reader := Checking(s.reader.burst, s.reader.i))
    case WakeUpEarly => s.(receiver := Parsing, finished := s.finished + 1)
  }

  // The invariant.

  predicate Asking(r: Reader) {
    r.Sending? || r.Waiting? || r.TimedOut?
  }

  predicate Holding(r: Reader) {
    r.Checking? || r.Copying? || r.Clearing? || r.Releasing?
  }

  /** The flag is set exactly while a register read may still wait for a packet. */
  predicate FlagInOrder(s: State) {
    && (s.flag <==>
          Asking(s.reader) || s.reader.Checking? || s.reader.Copying? || s.reader.Clearing?
          || (s.reader.Releasing? && s.reader.verdict == Retry))
    && (s.reader.Clearing? ==> s.reader.verdict != Retry)
  }

  /** Where the single token of the rendezvous is. */
  predicate TokenInOrder(s: State) {
    match s.receiver
    case Announcing => s.available == s.processed == 0 && Asking(s.reader)
    case Blocked =>
      || (s.available == 1 && s.processed == 0 && Asking(s.reader))
      || (s.available == 0 && s.processed == 1 && !Holding(s.reader))
      || (s.available == 0 && s.processed == 0 && Holding(s.reader))
    case _ => s.available == s.processed == 0 && !Holding(s.reader)
  }

  /** What the shared packet holds. */
  predicate PacketInOrder(s: State) {
    !s.receiver.Parsing? ==>
          && s.seen != []
          && var p := s.seen[|s.seen| - 1];
             && 0 < |p| <= NUM_SAMPLES_PER_TRANSFER && s.len == |p|
             && (s.receiver.Storing? ==>
                   s.receiver.p == p && s.receiver.stored <= |p|
                   && s.cells[..s.receiver.stored] == p[..s.receiver.stored])
             && (!s.receiver.Storing? ==> s.cells[..s.len] == p)
  }

  predicate Answers(p: Flits16, burst: nat) {
    0 < |p| && IsAnswer(p[0], |p|, burst)
  }

  predicate CopyInOrder(s: State) {
    && (s.reader.Copying? || ((s.reader.Clearing? || s.reader.Releasing?) && s.reader.verdict == Found) ==>
          && s.seen != [] && s.reader.burst <= MAX_BURST_LEN
          && var p := s.seen[|s.seen| - 1];
             && Answers(p, s.reader.burst)
             && |s.reader.data| <= s.reader.burst && s.reader.data == p[1..1 + |s.reader.data|]
             && (!s.reader.Copying? ==> |s.reader.data| == s.reader.burst))
    && (!s.reader.Idle? && !s.reader.TimedOut? ==> s.reader.burst <= MAX_BURST_LEN)
  }

  /** All words come from one packet, which has the class of a response and the right length. */
  ghost predicate FromOnePacket(data: seq<word16>, seen: seq<Flits16>) {
    exists p :: p in seen && Answers(p, |data|) && data == p[1..]
  }

  ghost predicate ResultsInOrder(s: State) {
    forall data :: data in s.results ==> FromOnePacket(data, s.seen)
  }

  ghost predicate Inv(s: State) {
    && FlagInOrder(s) && TokenInOrder(s) && PacketInOrder(s) && CopyInOrder(s) && ResultsInOrder(s)
    && s.finished + (if s.receiver.Parsing? then 0 else 1) == |s.seen|
  }

  lemma InitIsInOrder()
    ensures Inv(Init())
  {
  }

  lemma StepKeepsToken(s: State, step: Step)
    requires Inv(s) && Enabled(s, step) && Harmless(s, step)
    ensures FlagInOrder(Apply(s, step)) && TokenInOrder(Apply(s, step))
  {
    hide IsAnswer;
  }

  lemma StepKeepsPacket(s: State, step: Step)
    requires Inv(s) && Enabled(s, step) && Harmless(s, step)
    ensures PacketInOrder(Apply(s, step))
  {
    hide ResultsInOrder, CopyInOrder;
  }

  lemma StepKeepsCopy(s: State, step: Step)
    requires Inv(s) && Enabled(s, step) && Harmless(s, step)
    ensures CopyInOrder(Apply(s, step))
  {
    hide ResultsInOrder;
    if Holding(s.reader) {
      var p := s.seen[|s.seen| - 1];
      assert s.cells[..s.len] == p;
      assert forall j :: 0 <= j < |p| ==> s.cells[j] == p[j];
    }
  }

  lemma StepKeepsResults(s: State, step: Step)
    requires Inv(s) && Enabled(s, step) && Harmless(s, step)
    ensures ResultsInOrder(Apply(s, step))
  {
    hide TokenInOrder, FlagInOrder, PacketInOrder;
    var t := Apply(s, step);
    forall data | data in t.results
      ensures FromOnePacket(data, t.seen)
    {
      if data in s.results {
        var p :| p in s.seen && Answers(p, |data|) && data == p[1..];
        assert p in t.seen;
      } else {
        var p := s.seen[|s.seen| - 1];
        assert p in t.seen && Answers(p, |data|) && data == p[1..];
      }
    }
  }

  // Runs.

  ghost predicate CanRun(s: State, run: seq<Step>)
    decreases |run|
  {
    run == [] || (Enabled(s, run[0]) && CanRun(Apply(s, run[0]), run[1..]))
  }

  ghost function Run(s: State, run: seq<Step>): State
    requires CanRun(s, run)
    decreases |run|
  {
    if run == [] then s else Run(Apply(s, run[0]), run[1..])
  }

  ghost predicate AllHarmless(s: State, run: seq<Step>)
    requires CanRun(s, run)
    decreases |run|
  {
    run == [] || (Harmless(s, run[0]) && AllHarmless(Apply(s, run[0]), run[1..]))
  }

  lemma StepKeeps(s: State, step: Step)
    requires Inv(s) && Enabled(s, step) && Harmless(s, step)
    ensures Inv(Apply(s, step))
  {
    hide FlagInOrder, TokenInOrder, PacketInOrder, CopyInOrder, ResultsInOrder;
    StepKeepsToken(s, step);
    StepKeepsPacket(s, step);
    StepKeepsCopy(s, step);
    StepKeepsResults(s, step);
  }

  lemma {:induction false} RunKeeps(s: State, run: seq<Step>)
    requires Inv(s) && CanRun(s, run) && AllHarmless(s, run)
    ensures Inv(Run(s, run))
    decreases |run|
  {
    hide Inv, Apply, Harmless;
    if run != [] {
      StepKeeps(s, run[0]);
      RunKeeps(Apply(s, run[0]), run[1..]);
    }
  }

  /** In every run of harmless steps: the reader looks at the shared packet only while the receiver
      is blocked, and then it is the packet that arrived last; at most one token is under way, and
      none when both threads are done; and the words of every result come from one packet with the
      class and the length of an answer. */
  lemma EveryReadIsSafe(run: seq<Step>)
    requires CanRun(Init(), run) && AllHarmless(Init(), run)
    ensures var s := Run(Init(), run);
            && (Holding(s.reader) ==>
                  s.receiver == Blocked && s.seen != []
                  && s.len <= |s.cells| && s.cells[..s.len] == s.seen[|s.seen| - 1])
            && s.available + s.processed <= 1
            && (s.reader == Idle && s.receiver == Parsing ==>
                  s.available == 0 && s.processed == 0 && !s.flag)
            && (forall data :: data in s.results ==> FromOnePacket(data, s.seen))
  {
    hide Apply, CanRun, Run, AllHarmless;
    InitIsInOrder();
    RunKeeps(Init(), run);
  }

  // The receiver is never kept waiting for long.

  /** How many steps the reader can make while the receiver stays blocked. */
  function Patience(s: State): nat {
    match s.reader
    case Idle => 2
    case Sending(_) => if s.processed > 0 then 1 else 12
    case Waiting(_, _) => if s.processed > 0 then 0 else 11
    case TimedOut => 0
    case Checking(_, _) => 10
    case Copying(burst, data) => if |data| <= burst <= 4 then 5 + burst - |data| else 5
    case Clearing(_, _, _, _) => 4
    case Releasing(_, _, _, _) => 3
  }

  predicate Smooth(step: Step) {
    !step.SendFails? && !step.TimeOut? && !step.Abandon? && !Interrupted(step)
  }

  lemma PatienceRunsOut(s: State, step: Step)
    requires Inv(s) && s.receiver == Blocked
    requires Enabled(s, step) && Smooth(step) && step != WakeUp
    ensures Apply(s, step).receiver == Blocked && Patience(Apply(s, step)) < Patience(s)
  {
    hide ResultsInOrder, PacketInOrder, IsAnswer;
  }

  /** Without time-outs and failures, every run in which the receiver stays blocked has at most
      twelve steps, and when no step is left, the receiver can wake up. */
  lemma {:induction false} ReceiverIsReleased(s: State, run: seq<Step>)
    requires Inv(s) && s.receiver == Blocked && CanRun(s, run)
    requires forall step :: step in run ==> Smooth(step) && step != WakeUp
    ensures |run| <= Patience(s) <= 12
    ensures var t := Run(s, run);
            Patience(t) == 0 && t.reader != TimedOut ==> Enabled(t, WakeUp)
    decreases |run|
  {
    hide ResultsInOrder, PacketInOrder, CopyInOrder, IsAnswer, Apply;
    if run != [] {
      assert Smooth(run[0]) && run[0] != WakeUp;
      StepKeeps(s, run[0]);
      PatienceRunsOut(s, run[0]);
      ReceiverIsReleased(Apply(s, run[0]), run[1..]);
    }
  }

  // An answer is returned.

  /** The register read is at work on an answer of the right class and length, which the receiver
      keeps for it. */
  predicate AtWork(s: State) {
    && s.receiver.Blocked? && s.seen != []
    && (|| (s.reader.Waiting? && s.available == 1) || s.reader.Checking? || s.reader.Copying?
        || ((s.reader.Clearing? || s.reader.Releasing?) && s.reader.verdict == Found))
    && Answers(s.seen[|s.seen| - 1], s.reader.burst)
  }

  /** It has let the receiver go, which is about to wake up. */
  predicate Served(s: State) {
    s.receiver.Blocked? && s.processed == 1 && (s.reader.Idle? || Asking(s.reader))
  }

  lemma AnsweringStep(s: State, step: Step)
    requires Inv(s) && Enabled(s, step) && Smooth(step) && step != WakeUp
    requires AtWork(s) || Served(s)
    ensures var t := Apply(s, step);
            && t.seen == s.seen
            && (AtWork(s) && step != Release ==> AtWork(t) && t.results == s.results)
            && (AtWork(s) && step == Release ==>
                  Served(t) && !t.flag && t.results == s.results + [s.seen[|s.seen| - 1][1..]])
            && (Served(s) ==> Served(t) && t.results == s.results)
  {
    hide ResultsInOrder;
    var p := s.seen[|s.seen| - 1];
    assert s.cells[..s.len] == p;
    assert s.cells[0] == p[0];
    assert step == Release && AtWork(s) ==> s.reader.data == p[1..];
  }

  /** While the read is at work, it can make a step. */
  lemma WorkGoesOn(s: State)
    requires Inv(s) && AtWork(s)
    ensures exists step :: Enabled(s, step) && Smooth(step) && step != WakeUp
  {
    var step := match s.reader
      case Waiting(_, _) => TakePacket
      case Checking(_, _) => Check
      case Copying(_, _) => CopyWord
      case Clearing(_, _, _, _) => ClearFlag
      case _ => Release;
    assert Enabled(s, step) && Smooth(step) && step != WakeUp;
  }

  /** When the receiver has announced an answer to a waiting read, the read returns the words of that
      packet, once: it is at work until then, with nothing returned, and `ReceiverIsReleased` bounds
      the steps it makes. */
  lemma {:induction false} AnswerIsReturned(s: State, run: seq<Step>)
    requires Inv(s) && (AtWork(s) || Served(s)) && CanRun(s, run)
    requires forall step :: step in run ==> Smooth(step) && step != WakeUp
    ensures var t := Run(s, run);
            && (Release !in run && AtWork(s) ==> AtWork(t) && t.results == s.results)
            && (Release in run && AtWork(s) ==>
                  Served(t) && t.results == s.results + [s.seen[|s.seen| - 1][1..]])
            && (Served(s) ==> Served(t) && t.results == s.results)
    decreases |run|
  {
    hide Apply, Enabled, Inv, AtWork, Served;
    if run != [] {
      var t := Apply(s, run[0]);
      assert run[0] in run;
      StepKeeps(s, run[0]);
      AnsweringStep(s, run[0]);
      AnswerIsReturned(t, run[1..]);
    }
  }

  // What a step that is not harmless does.

  /** The invariant survives exactly the harmless steps. */
  lemma KeptIffHarmless(s: State, step: Step)
    requires Inv(s) && Enabled(s, step)
    ensures Inv(Apply(s, step)) <==> Harmless(s, step)
  {
    hide PacketInOrder, CopyInOrder, ResultsInOrder;
    if Harmless(s, step) {
      StepKeeps(s, step);
    }
  }

  /** The receiver is or will be blocked, and no one is there to let it go. */
  predicate Stranded(s: State) {
    s.reader == Idle && s.processed == 0 && (s.flag || Committed(s))
    && (s.receiver.Blocked? ==> s.available > 0)
  }

  lemma {:induction false} StrandedStays(s: State, run: seq<Step>)
    requires Stranded(s) && CanRun(s, run) && forall step :: step in run ==> ReceiverStep(step)
    ensures Run(s, run).finished == s.finished && Stranded(Run(s, run))
    decreases |run|
  {
    if run != [] {
      assert ReceiverStep(run[0]);
      StrandedStays(Apply(s, run[0]), run[1..]);
    }
  }

  /** After a failed request, or a time-out the receiver has overtaken, the receiver finishes no
      further packet, apart from the one it was already released from, until another register
      read is started. */
  lemma HarmBlocksReceiver(s: State, step: Step, run: seq<Step>)
    requires Inv(s) && Enabled(s, step) && !Harmless(s, step) && CanRun(Apply(s, step), run)
    requires !Interrupted(step)
    requires forall st :: st in run ==> ReceiverStep(st)
    ensures Run(Apply(s, step), run).finished <= s.finished + s.processed
  {
    hide PacketInOrder, CopyInOrder, ResultsInOrder;
    ReceiverStops(Apply(s, step), run);
  }

  lemma {:induction false} ReceiverStops(s: State, run: seq<Step>)
    requires Stranded(s) || (s.reader == Idle && s.flag && s.processed == 1 && s.receiver.Blocked?)
    requires CanRun(s, run) && forall step :: step in run ==> ReceiverStep(step)
    ensures Run(s, run).finished <= s.finished + s.processed
    decreases |run|
  {
    if Stranded(s) {
      StrandedStays(s, run);
    } else if run != [] {
      assert ReceiverStep(run[0]);
      ReceiverStops(Apply(s, run[0]), run[1..]);
    }
  }

  // An interrupted wait.

  /** The answer to a read of one word. */
  const ANSWER: Flits16 := [256, 1]

  lemma {:induction false} OneStepMore(s0: State, run: seq<Step>, s: State, step: Step)
    returns (more: seq<Step>, t: State)
    requires CanRun(s0, run) && Run(s0, run) == s && Enabled(s, step)
    ensures more == run + [step] && t == Apply(s, step)
    ensures CanRun(s0, more) && Run(s0, more) == t
    decreases |run|
  {
    hide Apply, Enabled;
    more, t := run + [step], Apply(s, step);
    if run != [] {
      assert more[1..] == run[1..] + [step];
      var rest, u := OneStepMore(Apply(s0, run[0]), run[1..], s, step);
    } else {
      assert more[1..] == [];
    }
  }

  /** The reader's wait is interrupted when the header of the answer has been stored, but not its
      word: the register read succeeds with a word that is in no packet. */
  lemma InterruptedReadExample() returns (run: seq<Step>)
    ensures TakeNothing in run && CanRun(Init(), run)
    ensures Run(Init(), run).results == [[0]] && Run(Init(), run).seen == [ANSWER]
    ensures !ResultsInOrder(Run(Init(), run))
  {
    hide CanRun, Run;
    var s;
    run, s := WordCopied();
    run, s := OneStepMore(Init(), run, s, ClearFlag);
    run, s := OneStepMore(Init(), run, s, Release);
    assert s.seen == [ANSWER] && s.results == [[0]];
    assert [0] in s.results && !FromOnePacket([0], s.seen) by {
      assert ANSWER[1..] == [1];
    }
  }

  lemma WordCopied() returns (run: seq<Step>, s: State)
    ensures TakeNothing in run && CanRun(Init(), run) && Run(Init(), run) == s
    ensures s.reader == Clearing(1, 0, [0], Found) && s.results == [] && s.seen == [ANSWER]
  {
    hide CanRun, Run;
    run, s := HeaderStored();
    run, s := OneStepMore(Init(), run, s, TakeNothing);
    assert TakeNothing in run;
    run, s := OneStepMore(Init(), run, s, Check);
    assert s.cells[0] == 256 && s.cells[1] == 0 && s.reader == Copying(1, []);
    run, s := OneStepMore(Init(), run, s, CopyWord);
    assert s.reader == Copying(1, [0]);
    run, s := OneStepMore(Init(), run, s, CopyWord);
  }

  lemma HeaderStored() returns (run: seq<Step>, s: State)
    ensures CanRun(Init(), run) && Run(Init(), run) == s
    ensures s == Init().(flag := true, reader := Waiting(1, 0), receiver := Storing(ANSWER, 1), len := 2,
                         seen := [ANSWER], cells := Init().cells[0 := 256])
  {
    run, s := [], Init();
    run, s := OneStepMore(Init(), run, s, Request(1));
    run, s := OneStepMore(Init(), run, s, SendRequest);
    run, s := OneStepMore(Init(), run, s, Arrive(ANSWER));
    run, s := OneStepMore(Init(), run, s, StoreFlit);
  }
}
