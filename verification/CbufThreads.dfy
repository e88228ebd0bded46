/** One writer thread and one reader thread on a ring buffer, at the granularity of single
    pointer reads, single byte copies and single pointer updates (sequentially consistent).

    Neither thread takes a lock to look at the levels: each reads the other's pointer twice, once
    in the full test and once in the subtraction, and the other thread may move in between. */
module CbufThreads {
  import opened Bits
  import opened Ring

  /** `Tested` keeps the opposite pointer as the full test saw it. */
  datatype Writer = WIdle | WTested(n: nat, rdSeen: nat) | WFilling(n: nat)

  datatype Reader = RIdle | RTested(n: nat, wrSeen: nat) | RCopying(n: nat, got: seq<byte>)

  /** `written` and `taken` record every byte committed by the writer and removed by the reader. */
  datatype State = State(size: nat, data: seq<byte>, wr: nat, rd: nat,
                         writer: Writer, reader: Reader,
                         written: seq<byte>, taken: seq<byte>)

  datatype Step =
    | WriterTests(n: nat)
    | WriterMeasures
    | WriterStores(i: nat, b: byte)
    | WriterCommits(k: nat)
    | ReaderTests(m: nat)
    | ReaderMeasures
    | ReaderCopies
    | ReaderDiscards(k: nat)

  ghost predicate Sane(s: State) {
    && IsPow2(s.size) && |s.data| == s.size
    && s.wr < 2 * s.size && s.rd < 2 * s.size
  }

  function Fill(s: State): nat
    requires s.rd < 2 * s.size
  {
    Distance(s.size, s.wr, s.rd)
  }

  /** What the writer believes to be free: `cbuf_free_level` with an interruption. */
  function FreeSeen(s: State): int
    requires 0 < s.size && s.writer.WTested?
  {
    s.size - FillLevel(s.size, s.wr, s.writer.rdSeen, s.wr, s.rd)
  }

  /** What the reader believes to be stored: `cbuf_fill_level` with an interruption. */
  function FillSeen(s: State): int
    requires 0 < s.size && s.reader.RTested?
  {
    FillLevel(s.size, s.reader.wrSeen, s.rd, s.wr, s.rd)
  }

  ghost predicate Init(s: State) {
    && Sane(s) && s.wr == s.rd == 0
    && s.writer == WIdle && s.reader == RIdle && s.written == [] && s.taken == []
  }

  predicate Enabled(s: State, step: Step) {
    match step
    case WriterTests(n) => s.writer.WIdle?
    case WriterMeasures => s.writer.WTested?
    case WriterStores(i, b) => s.writer.WFilling? && i < s.writer.n <= s.size
    case WriterCommits(k) => s.writer.WFilling? && k <= s.writer.n <= s.size
    case ReaderTests(m) => s.reader.RIdle?
    case ReaderMeasures => s.reader.RTested?
    case ReaderCopies => s.reader.RCopying? && |s.reader.got| < s.reader.n <= s.size
    case ReaderDiscards(k) => s.reader.RCopying? && k <= |s.reader.got|
  }

  ghost function Apply(s: State, step: Step): State
    requires Sane(s) && Enabled(s, step)
  {
    var at, from := Wrap(s.size, s.wr), Wrap(s.size, s.rd);
    match step
    case WriterTests(n) => s.(writer := WTested(n, s.rd))
    case WriterMeasures =>
      s.(writer := if s.writer.n <= FreeSeen(s) then WFilling(s.writer.n) else WIdle)
    case WriterStores(i, b) => s.(data := s.data[Wrap(s.size, at + i) := b])
    case WriterCommits(k) =>
      s.(wr := PtrAdd(s.size, s.wr, k), written := s.written + Window(s.data, at, k),
         writer := WIdle)
    case ReaderTests(m) => s.(reader := RTested(m, s.wr))
    case ReaderMeasures =>
      s.(reader := if s.reader.n <= FillSeen(s) then RCopying(s.reader.n, []) else RIdle)
    case ReaderCopies =>
      s.(reader := s.reader.(got := s.reader.got + [s.data[Wrap(s.size, from + |s.reader.got|)]]))
    case ReaderDiscards(k) =>
      s.(rd := PtrAdd(s.size, s.rd, k), taken := s.taken + s.reader.got[..k], reader := RIdle)
  }

  /** The valid bytes are exactly those written and not yet taken; an old observation of the
      opposite pointer errs to the safe side; the two threads own disjoint slots. */
  ghost predicate Inv(s: State) {
    && Sane(s)
    && Fill(s) <= s.size
    && |s.written| == |s.taken| + Fill(s)
    && s.taken <= s.written
    && Window(s.data, Wrap(s.size, s.rd), Fill(s)) == s.written[|s.taken|..]
    && (s.writer.WTested? ==>
          && s.writer.rdSeen < 2 * s.size
          && Fill(s) <= Distance(s.size, s.wr, s.writer.rdSeen) <= s.size)
    && (s.writer.WFilling? ==> Fill(s) + s.writer.n <= s.size)
    && (s.reader.RTested? ==>
          s.reader.wrSeen < 2 * s.size && Distance(s.size, s.reader.wrSeen, s.rd) <= Fill(s))
    && (s.reader.RCopying? ==>
          && |s.reader.got| <= s.reader.n <= Fill(s)
          && s.reader.got <= s.written[|s.taken|..])
  }

  /** The queue the buffer implements. */
  function Queue(s: State): seq<byte>
    requires |s.taken| <= |s.written|
  {
    s.written[|s.taken|..]
  }

  /** The writer never sees more than the real free space. It misjudges it only when the buffer
      was full at the first look and the reader moved since. */
  lemma WriterSees(s: State)
    requires Inv(s) && s.writer.WTested?
    ensures FreeSeen(s) == if Distance(s.size, s.wr, s.writer.rdSeen) == s.size then 0
                           else s.size - Fill(s)
    ensures 0 <= FreeSeen(s) <= s.size - Fill(s)
  {
    WriterLevel(s.size, s.wr, s.writer.rdSeen, s.rd);
  }

  /** The reader never sees more than the real fill. It misjudges it in exactly one case: the
      writer filled the buffer to the brim between the two looks. Then it sees nothing at all. */
  lemma ReaderSees(s: State)
    requires Inv(s) && s.reader.RTested?
    ensures FillSeen(s) == if Distance(s.size, s.reader.wrSeen, s.rd) < s.size == Fill(s) then 0
                           else Fill(s)
    ensures 0 <= FillSeen(s) <= Fill(s)
  {
    ReaderLevel(s.size, s.reader.wrSeen, s.wr, s.rd);
  }

  lemma InitInv(s: State)
    requires Init(s)
    ensures Inv(s)
  {
  }

  lemma CommitAppends(s: State, k: nat)
    requires Inv(s) && Enabled(s, WriterCommits(k))
    ensures var s' := Apply(s, WriterCommits(k));
            && Inv(s') && |Queue(s')| <= s.size
            && Queue(s') == Queue(s) + Window(s.data, Wrap(s.size, s.wr), k)
  {
    AdvanceWriter(s.size, s.data, s.wr, s.rd, k);
    PtrAddSteps(s.size, s.wr, k);
    var added := Window(s.data, Wrap(s.size, s.wr), k);
    assert (s.written + added)[|s.taken|..] == Queue(s) + added;
  }

  lemma DiscardRemoves(s: State, k: nat)
    requires Inv(s) && Enabled(s, ReaderDiscards(k))
    ensures var s' := Apply(s, ReaderDiscards(k));
            && Inv(s') && k <= |Queue(s)|
            && Queue(s') == Queue(s)[k..] && s'.taken == s.taken + Queue(s)[..k]
  {
    hide Window;
    DropFromQueue(s.size, s.data, s.wr, s.rd, k);
    PtrAddSteps(s.size, s.rd, k);
    assert s.reader.got[..k] == Queue(s)[..k];
    assert s.written == s.taken + Queue(s)[..k] + Queue(s)[k..];
  }

  lemma CopyKeeps(s: State)
    requires Inv(s) && Enabled(s, ReaderCopies)
    ensures Inv(Apply(s, ReaderCopies))
  {
    var i := |s.reader.got|;
    assert s.data[Wrap(s.size, Wrap(s.size, s.rd) + i)] == Queue(s)[i];
  }

  lemma StoreKeeps(s: State, i: nat, b: byte)
    requires Inv(s) && Enabled(s, WriterStores(i, b))
    ensures Inv(Apply(s, WriterStores(i, b)))
  {
    var d := s.data[Wrap(s.size, Wrap(s.size, s.wr) + i) := b];
    assert Window(d, Wrap(s.size, s.rd), Fill(s)) == Window(s.data, Wrap(s.size, s.rd), Fill(s));
  }

  lemma LookKeeps(s: State, step: Step)
    requires Inv(s) && Enabled(s, step)
    requires step.WriterTests? || step.WriterMeasures? || step.ReaderTests? || step.ReaderMeasures?
    ensures Inv(Apply(s, step)) && Queue(Apply(s, step)) == Queue(s)
  {
    match step {
      case WriterMeasures => WriterSees(s);
      case ReaderMeasures => ReaderSees(s);
      case _ =>
    }
  }

  /** Every step of either thread keeps the invariant and is, on the queue, nothing, an append of
      the committed bytes or the removal of the bytes handed to the reader. */
  lemma StepRefinesFifo(s: State, step: Step)
    requires Inv(s) && Enabled(s, step)
    ensures var s' := Apply(s, step);
            && Inv(s')
            && (match step
                case WriterCommits(k) =>
                  && Queue(s') == Queue(s) + Window(s.data, Wrap(s.size, s.wr), k)
                  && |Queue(s')| <= s.size && s'.taken == s.taken
                case ReaderDiscards(k) =>
                  && k <= |Queue(s)| && Queue(s') == Queue(s)[k..]
                  && s'.taken == s.taken + Queue(s)[..k]
                case _ => Queue(s') == Queue(s) && s'.taken == s.taken)
  {
    match step {
      case WriterStores(i, b) => StoreKeeps(s, i, b);
      case WriterCommits(k) => CommitAppends(s, k);
      case ReaderCopies => CopyKeeps(s);
      case ReaderDiscards(k) => DiscardRemoves(s, k);
      case _ => LookKeeps(s, step);
    }
  }

  /** A run: a list of steps, each enabled in the state the earlier ones lead to. */
  ghost predicate IsRun(s: State, steps: seq<Step>)
    decreases |steps|
  {
    Sane(s) && (steps == [] || (Enabled(s, steps[0]) && IsRun(Apply(s, steps[0]), steps[1..])))
  }

  ghost function Run(s: State, steps: seq<Step>): State
    requires IsRun(s, steps)
    decreases |steps|
  {
    if steps == [] then s else Run(Apply(s, steps[0]), steps[1..])
  }

  /** Is `slot` one of the `n` slots from pointer `ptr` on? */
  predicate InBlock(size: nat, ptr: nat, n: nat, slot: nat)
    requires ptr < 2 * size && slot < size
  {
    Wrap(size, slot + size - Wrap(size, ptr)) < n
  }

  lemma {:induction false} RunKeepsInv(s: State, steps: seq<Step>)
    requires Inv(s) && IsRun(s, steps)
    ensures var e := Run(s, steps);
            Inv(e) && s.written <= e.written && s.taken <= e.taken
    decreases |steps|
  {
    hide Inv, Window;
    if steps != [] {
      StepRefinesFifo(s, steps[0]);
      HistoriesGrow(s, steps[0]);
      RunKeepsInv(Apply(s, steps[0]), steps[1..]);
    }
  }

  lemma HistoriesGrow(s: State, step: Step)
    requires Inv(s) && Enabled(s, step)
    ensures s.written <= Apply(s, step).written && s.taken <= Apply(s, step).taken
  {
    hide Window;
  }

  lemma BlocksAreDisjoint(s: State, slot: nat)
    requires Inv(s) && s.writer.WFilling? && s.reader.RCopying? && slot < s.size
    ensures !(InBlock(s.size, s.wr, s.writer.n, slot) && InBlock(s.size, s.rd, s.reader.n, slot))
  {
    hide Window;
  }

  /** Over every interleaving the reader receives exactly a prefix of what the writer committed,
      in order, and what is missing is still in the buffer; while the writer fills a block and the
      reader copies one, no slot belongs to both. */
  lemma EveryInterleavingIsFifo(s: State, steps: seq<Step>)
    requires Inv(s) && IsRun(s, steps)
    ensures var e := Run(s, steps);
            && Inv(e)
            && e.written == e.taken + Window(e.data, Wrap(e.size, e.rd), Fill(e))
            && s.written <= e.written && s.taken <= e.taken
            && (e.writer.WFilling? && e.reader.RCopying? ==>
                  forall slot :: 0 <= slot < e.size ==>
                    !(InBlock(e.size, e.wr, e.writer.n, slot)
                      && InBlock(e.size, e.rd, e.reader.n, slot)))
  {
    hide Window, InBlock, Run, IsRun;
    RunKeepsInv(s, steps);
    var e := Run(s, steps);
    assert e.written == e.taken + Queue(e);
    if e.writer.WFilling? && e.reader.RCopying? {
      forall slot | 0 <= slot < e.size
        ensures !(InBlock(e.size, e.wr, e.writer.n, slot) && InBlock(e.size, e.rd, e.reader.n, slot))
      {
        BlocksAreDisjoint(e, slot);
      }
    }
  }

  /** A block with the bytes stored in it in some steps. */
  function WithStores(block: seq<byte>, steps: seq<Step>): (r: seq<byte>)
    ensures |r| == |block|
    decreases |steps|
  {
    if steps == [] then block
    else
      var step := steps[0];
      WithStores(if step.WriterStores? && step.i < |block| then block[step.i := step.b] else block, steps[1..])
  }

  ghost function WriterBlock(s: State): seq<byte>
    requires Inv(s) && s.writer.WFilling?
  {
    Window(s.data, Wrap(s.size, s.wr), s.writer.n)
  }

  lemma StoreFillsBlock(s: State, i: nat, b: byte)
    requires Inv(s) && Enabled(s, WriterStores(i, b))
    ensures WriterBlock(Apply(s, WriterStores(i, b))) == WriterBlock(s)[i := b]
  {
  }

  /** Until a block is committed, it holds exactly what the writer has stored in it, whatever the
      reader does in between; and nothing else is committed: the queue grows by the first bytes of
      this block. */
  lemma {:induction false} BlockIsWhatWasStored(s: State, steps: seq<Step>, k: nat)
    requires Inv(s) && s.writer.WFilling? && IsRun(s, steps) && k <= s.writer.n
    requires forall step :: step in steps ==> !step.WriterCommits?
    ensures var e := Run(s, steps);
            && e.writer == s.writer && e.written == s.written && Inv(e)
            && WriterBlock(e) == WithStores(WriterBlock(s), steps)
            && Apply(e, WriterCommits(k)).written == s.written + WithStores(WriterBlock(s), steps)[..k]
    decreases |steps|
  {
    hide Inv, Window;
    if steps == [] {
      CommitsBlock(s, k);
    } else {
      var step := steps[0];
      assert step in steps;
      StepRefinesFifo(s, step);
      if step.WriterStores? {
        StoreFillsBlock(s, step.i, step.b);
      }
      BlockIsWhatWasStored(Apply(s, step), steps[1..], k);
    }
  }

  lemma CommitsBlock(s: State, k: nat)
    requires Inv(s) && s.writer.WFilling? && k <= s.writer.n
    ensures Enabled(s, WriterCommits(k))
    ensures Apply(s, WriterCommits(k)).written == s.written + WriterBlock(s)[..k]
  {
    assert Window(s.data, Wrap(s.size, s.wr), k) == WriterBlock(s)[..k];
  }

  function Copies(steps: seq<Step>): nat {
    if steps == [] then 0 else (if steps[0].ReaderCopies? then 1 else 0) + Copies(steps[1..])
  }

  /** Until the reader has done with its bytes, it has got the oldest ones of the queue, one for every
      copy, whatever the writer does in between; and it can always copy the next one. */
  lemma {:induction false} ReaderGetsOldest(s: State, steps: seq<Step>)
    requires Inv(s) && s.reader.RCopying? && IsRun(s, steps)
    requires forall step :: step in steps ==> !step.ReaderDiscards?
    ensures var e, c := Run(s, steps), |s.reader.got| + Copies(steps);
            && Inv(e) && c <= s.reader.n <= |Queue(s)| && Queue(s) <= Queue(e)
            && e.reader == RCopying(s.reader.n, Queue(s)[..c])
            && (c < s.reader.n ==> Enabled(e, ReaderCopies))
    decreases |steps|
  {
    hide Inv, Window;
    HoldsOldest(s);
    if steps != [] {
      var step := steps[0];
      var t := Apply(s, step);
      assert step in steps;
      StepRefinesFifo(s, step);
      HistoriesGrow(s, step);
      ReaderGetsOldest(t, steps[1..]);
      if step.ReaderCopies? {
        HoldsOldest(t);
      }
      assert Queue(s) <= Queue(t);
    }
  }

  lemma HoldsOldest(s: State)
    requires Inv(s) && s.reader.RCopying?
    ensures |s.taken| <= |s.written| && |s.reader.got| <= s.reader.n <= |Queue(s)| && s.reader.n <= s.size
    ensures s.reader.got == Queue(s)[..|s.reader.got|]
  {
    hide Window;
  }

  /** A writer's request that fits when it starts looking is never refused. */
  lemma WriterNeverRefusedWrongly(s: State)
    requires Inv(s) && s.writer.WTested?
    requires s.writer.n <= s.size - Distance(s.size, s.wr, s.writer.rdSeen)
    ensures s.writer.n <= FreeSeen(s) && Apply(s, WriterMeasures).writer == WFilling(s.writer.n)
  {
    WriterSees(s);
  }

  /** A reader's request for bytes that were there when it started looking is refused exactly
      when the writer filled the buffer completely between the two looks. */
  lemma ReaderRefusedWronglyIff(s: State)
    requires Inv(s) && s.reader.RTested?
    requires s.reader.n <= Distance(s.size, s.reader.wrSeen, s.rd)
    ensures var refused := 0 < s.reader.n && Distance(s.size, s.reader.wrSeen, s.rd) < s.size == Fill(s);
            && (s.reader.n > FillSeen(s) <==> refused)
            && Apply(s, ReaderMeasures).reader == if refused then RIdle else RCopying(s.reader.n, [])
  {
    ReaderSees(s);
  }

  /** The refusal does happen: one byte waits in a buffer of two, the reader finds the buffer not
      full, the writer adds the second byte, and the reader then computes a fill level of zero. */
  lemma ReaderRefusedWronglyExample() returns (s: State, steps: seq<Step>)
    ensures Init(s) && IsRun(s, steps)
    ensures var e := Run(s, steps);
            Sane(e) && e.reader == RTested(1, 1) && e.written == [0, 0] && e.taken == []
            && FillSeen(e) == 0 && Apply(e, ReaderMeasures).reader == RIdle
  {
    assert 2 == Pow2(1);
    s := State(2, [0, 0], 0, 0, WIdle, RIdle, [], []);
    InitInv(s);
    var s1 := UndisturbedWrite(s, 1);
    LookKeeps(s1, ReaderTests(1));
    var s2 := Apply(s1, ReaderTests(1));
    var s3 := UndisturbedWrite(s2, 1);
    PtrAddSteps(2, 0, 1);
    PtrAddSteps(2, 1, 1);
    ReaderSees(s3);
    FirstStep(s1, ReaderTests(1), WriteSteps(1));
    steps := WriteSteps(1) + ([ReaderTests(1)] + WriteSteps(1));
    RunConcat(s, WriteSteps(1), [ReaderTests(1)] + WriteSteps(1));
  }

  lemma FirstStep(s: State, step: Step, rest: seq<Step>)
    requires Sane(s) && Enabled(s, step) && IsRun(Apply(s, step), rest)
    ensures IsRun(s, [step] + rest) && Run(s, [step] + rest) == Run(Apply(s, step), rest)
  {
    assert ([step] + rest)[1..] == rest;
  }

  lemma {:induction false} RunConcat(s: State, first: seq<Step>, rest: seq<Step>)
    requires IsRun(s, first) && IsRun(Run(s, first), rest)
    ensures IsRun(s, first + rest) && Run(s, first + rest) == Run(Run(s, first), rest)
    decreases |first|
  {
    if first == [] {
      assert first + rest == rest;
    } else {
      RunConcat(Apply(s, first[0]), first[1..], rest);
      FirstStep(s, first[0], first[1..] + rest);
      assert [first[0]] + (first[1..] + rest) == first + rest;
    }
  }

  function WriteSteps(n: nat): seq<Step> {
    [WriterTests(n), WriterMeasures, WriterCommits(n)]
  }

  /** A write that fits, without interference. */
  lemma UndisturbedWrite(s: State, n: nat) returns (e: State)
    requires Inv(s) && s.writer == WIdle && n <= s.size - Fill(s)
    ensures IsRun(s, WriteSteps(n)) && e == Run(s, WriteSteps(n)) && Inv(e)
    ensures e == s.(wr := PtrAdd(s.size, s.wr, n),
                    written := s.written + Window(s.data, Wrap(s.size, s.wr), n))
  {
    var one := WriteSteps(n);
    LookKeeps(s, one[0]);
    var s1 := Apply(s, one[0]);
    WriterSees(s1);
    LookKeeps(s1, one[1]);
    var s2 := Apply(s1, one[1]);
    assert s2 == s.(writer := WFilling(n));
    CommitAppends(s2, n);
    e := Apply(s2, one[2]);
    FirstStep(s2, one[2], []);
    FirstStep(s1, one[1], [one[2]]);
    FirstStep(s, one[0], [one[1], one[2]]);
  }
}
