/** Hosts that write every byte a poll hands out and acknowledge it before polling again, as all
    the transports do; what that discipline keeps, and what happens when it is broken. */
module Discipline {
  import opened Bytes
  import opened Types
  import opened CommandLine
  import opened Decode
  import opened Framing
  import opened Machine
  import opened History

  /** `HostService` is one poll, with the write and the acknowledgement when bytes are handed out. */
  datatype HostOp = HostSubmit(cmd: Command) | HostPush(bytes: seq<u8>) | HostService

  function Service(h: Hist): Hist
    requires Bounded(h.core)
  {
    var p := PollOnce(h.core);
    StepBounded(h, DoPoll);
    var polled := Step(h, DoPoll);
    if p.out.NeedTx? then Step(polled, DoAck(|p.out.bytes|)) else polled
  }

  function HostStep(h: Hist, op: HostOp): (h': Hist)
    requires Bounded(h.core)
    ensures Bounded(h'.core)
  {
    match op
    case HostSubmit(cmd) => StepBounded(h, DoSubmit(cmd)); Step(h, DoSubmit(cmd))
    case HostPush(bytes) => StepBounded(h, DoPush(bytes)); Step(h, DoPush(bytes))
    case HostService => ServiceBounded(h); Service(h)
  }

  lemma ServiceBounded(h: Hist)
    requires Bounded(h.core)
    ensures Bounded(Service(h).core)
  {
    hide Step, PollOnce;
    StepBounded(h, DoPoll);
    var p := PollOnce(h.core);
    if p.out.NeedTx? {
      StepBounded(Step(h, DoPoll), DoAck(|p.out.bytes|));
    }
  }

  function HostRun(ops: seq<HostOp>): (h: Hist)
    ensures Bounded(h.core)
  {
    if ops == [] then BEGINNING else HostStep(HostRun(ops[..|ops| - 1]), ops[|ops| - 1])
  }

  lemma RunOneMore(ops: seq<Op>, op: Op)
    ensures Run(ops + [op]) == Step(Run(ops), op)
  {
    assert (ops + [op])[..|ops|] == ops;
  }

  /** Every disciplined run is a run, so the theorems about runs hold of it. */
  lemma {:induction false} HostRunIsRun(hops: seq<HostOp>) returns (ops: seq<Op>)
    ensures Run(ops) == HostRun(hops)
  {
    hide Run, Step, PollOnce;
    if hops == [] {
      ops := [];
      assert Run([]) == BEGINNING by { EmptyRun(); }
    } else {
      var n := |hops| - 1;
      var before := HostRunIsRun(hops[..n]);
      match hops[n]
      case HostSubmit(cmd) =>
        RunOneMore(before, DoSubmit(cmd));
        ops := before + [DoSubmit(cmd)];
      case HostPush(bytes) =>
        RunOneMore(before, DoPush(bytes));
        ops := before + [DoPush(bytes)];
      case HostService =>
        var out := PollOnce(Run(before).core).out;
        RunOneMore(before, DoPoll);
        ops := before + [DoPoll];
        if out.NeedTx? {
          RunOneMore(ops, DoAck(|out.bytes|));
          ops := ops + [DoAck(|out.bytes|)];
        }
    }
  }

  lemma EmptyRun()
    ensures Run([]) == BEGINNING
  {
  }

  // ---- The invariant of the slot ---------------------------------------------

  predicate Tidy(c: Core) {
    match c.state
    case Idle => c.tx == [] && c.pending.None? && !c.readyAsOk
    case SendingTx => c.tx != [] && c.pending.Some? && (c.readyAsOk ==> c.pending == Some(Ack))
    case Awaiting(kind) => c.tx == [] && c.pending.None? && (c.readyAsOk ==> kind == Ack)
  }

  /** Between host steps nothing is handed out and not acknowledged. */
  predicate Clean(c: Core) {
    Bounded(c) && Tidy(c) && c.inFlight == 0
  }

  /** After any `+RESET` lines, `+READY` is next. */
  predicate ReadyNext(rx: seq<u8>)
    decreases |rx|
  {
    match NextLineEnd(rx)
    case None => false
    case Some(end) =>
      end <= LINE_BUF && if RESET <= rx[..end] then ReadyNext(rx[end + 2..]) else rx[..end] == READY
  }

  /** Submitting, pushing and acknowledging keep the slot tidy, and so does polling, with one exception:
      a `+READY` polled while the reset command is handed out but not yet acknowledged. */
  lemma {:induction false} PollKeepsTidyExactly(c: Core)
    requires Bounded(c) && Tidy(c)
    ensures Tidy(PollOnce(c).core) <==>
      !(c.state.SendingTx? && c.readyAsOk && c.inFlight == |c.tx| && ReadyNext(c.rx))
    decreases |c.rx|
  {
    hide PollOnce, NextLineEnd, Judge;
    if c.inFlight < |c.tx| || NextLineEnd(c.rx).None? {
      PollNoLine(c);
    } else {
      var end := NextLineEnd(c.rx).value;
      PollHead(c, end);
      if end <= LINE_BUF {
        if c.readyAsOk && RESET <= c.rx[..end] {
          PollKeepsTidyExactly(c.(rx := c.rx[end + 2..]));
        } else {
          JudgeKeepsTidyExactly(c, c.rx[..end], c.(rx := c.rx[end + 2..]));
        }
      }
    }
  }

  lemma JudgeKeepsTidyExactly(c: Core, line: seq<u8>, drained: Core)
    requires Tidy(c) && drained == c.(rx := drained.rx)
    ensures Tidy(Judge(c, line, drained).core) <==> !(c.state.SendingTx? && c.readyAsOk && line == READY)
  {
    hide ParseEvent, ParseResponse, ResponseMatches;
  }

  lemma {:induction false} PollKeepsTidy(c: Core)
    requires Bounded(c) && Tidy(c) && !(c.state.SendingTx? && c.inFlight == |c.tx|)
    ensures Tidy(PollOnce(c).core)
  {
    hide PollOnce;
    PollKeepsTidyExactly(c);
  }

  lemma OtherStepsKeepTidy(c: Core, cmd: Command, bytes: seq<u8>, n: nat)
    requires Bounded(c) && Tidy(c)
    ensures Tidy(Submit(c, cmd).0) && Tidy(PushRx(c, bytes).0) && Tidy(AckTx(c, n))
    ensures c.inFlight == 0 ==> Submit(c, cmd).0.inFlight == 0
    ensures cmd.FactoryReset? ==> Submit(c, cmd).1 != Failure(TxOverflow)
  {
    assert Line(FactoryReset) == AT_RESET + CRLF;
    assert |Line(cmd)| >= 2;
  }

  /** A clean driver accepts a command exactly when it is idle and the line fits the transmit buffer, and a
      refused command leaves no trace. */
  lemma SubmitAcceptsExactly(c: Core, cmd: Command)
    requires Clean(c)
    ensures var (d, r) := Submit(c, cmd);
      && (r.Success? <==> c.state.Idle? && |Line(cmd)| <= 512)
      && (r == Failure(Busy) <==> !c.state.Idle?)
      && (r.Failure? ==> d == c)
      && (r.Success? ==> d.tx == Line(cmd) && d.inFlight == 0 && InFlight(d) == Some(KindOf(cmd)) && d.rx == c.rx)
  {
    OtherStepsKeepTidy(c, cmd, [], 0);
    hide Line;
    assert [] + Line(cmd) == Line(cmd);
  }

  /** It has room for every command the radio understands: payloads of at most 240 bytes and passwords of at
      most 8. */
  lemma IdleAcceptsAll(c: Core, cmd: Command)
    requires Clean(c) && c.state.Idle?
    requires (cmd.Send? ==> |cmd.data| <= 240) && (cmd.SetCpin? ==> |cmd.password| <= 8)
    ensures Submit(c, cmd).1.Success?
  {
    LineLength(cmd);
    SubmitAcceptsExactly(c, cmd);
  }

  /** A poll, and the acknowledgement of what it hands out, keep the slot clean. */
  lemma PollThenAck(c: Core)
    requires Clean(c)
    ensures var p := PollOnce(c);
      && Bounded(p.core)
      && (p.out.NeedTx? ==> Clean(AckTx(p.core, |p.out.bytes|)) && AckTx(p.core, |p.out.bytes|).tx == [])
      && (!p.out.NeedTx? ==> Clean(p.core))
  {
    hide PollOnce;
    PollKeepsTidy(c);
    PollTx(c);
    PollShrinks(c);
    var p := PollOnce(c);
    if p.out.NeedTx? {
      OtherStepsKeepTidy(p.core, Ping, [], |p.out.bytes|);
    }
  }

  lemma ServiceKeepsClean(h: Hist)
    requires Clean(h.core)
    ensures Clean(Service(h).core)
  {
    hide PollOnce;
    PollThenAck(h.core);
    StepBounded(h, DoPoll);
    ServiceBounded(h);
  }

  /** The slot stays clean over every disciplined run: idle means nothing queued, nothing pending and no
      reset outstanding; and a command is never half acknowledged. */
  lemma {:induction false} HostRunClean(hops: seq<HostOp>)
    ensures Clean(HostRun(hops).core)
  {
    hide Step, Tidy, Service;
    if hops == [] {
      BeginningClean();
    } else {
      var n := |hops| - 1;
      HostRunClean(hops[..n]);
      HostStepClean(HostRun(hops[..n]), hops[n]);
    }
  }

  lemma BeginningClean()
    ensures Clean(BEGINNING.core)
  {
  }

  lemma HostStepClean(h: Hist, op: HostOp)
    requires Clean(h.core)
    ensures Clean(HostStep(h, op).core)
  {
    hide Tidy, Service, PollOnce;
    match op
    case HostSubmit(cmd) =>
      OtherStepsKeepTidy(h.core, cmd, [], 0);
    case HostPush(bytes) => OtherStepsKeepTidy(h.core, Ping, bytes, 0);
    case HostService => ServiceKeepsClean(h);
  }

  // ---- The command in flight --------------------------------------------------

  /** The kind of command in flight. */
  function InFlight(c: Core): Option<AwaitKind> {
    match c.state
    case Idle => None
    case SendingTx => c.pending
    case Awaiting(kind) => Some(kind)
  }

  /** From here to there, the slot has been freed or is still held by the same command. */
  predicate SameFlight(c: Core, d: Core) {
    d.state.Idle? || (!c.state.Idle? && InFlight(d) == InFlight(c))
  }

  lemma SameFlightThrough(b: Core, c: Core, d: Core)
    requires SameFlight(b, c) && SameFlight(c, d)
    ensures SameFlight(b, d)
  {
  }

  lemma {:induction false} PollFlight(c: Core)
    ensures SameFlight(c, PollOnce(c).core) && (PollOnce(c).core.readyAsOk ==> c.readyAsOk)
    decreases |c.rx|
  {
    hide ParseEvent, ParseResponse, ResponseMatches, IsEvent, NextLineEnd;
    if NextLineEnd(c.rx).Some? {
      PollFlight(c.(rx := c.rx[NextLineEnd(c.rx).value + 2..]));
    }
  }

  /** A response always frees the slot. */
  lemma {:induction false} ResponseFrees(c: Core)
    ensures PollOnce(c).out.Responded? ==> PollOnce(c).core.state.Idle?
    decreases |c.rx|
  {
    hide ParseEvent, ParseResponse, ResponseMatches, IsEvent, NextLineEnd;
    if NextLineEnd(c.rx).Some? {
      ResponseFrees(c.(rx := c.rx[NextLineEnd(c.rx).value + 2..]));
    }
  }

  /** A command being sent has a kind, and the reset flag is up only for an acknowledged command in flight.
      Every accepted command brings this about and every step keeps it, disciplined or not. */
  predicate Wary(c: Core) {
    && (c.state.SendingTx? ==> c.pending.Some?)
    && (c.readyAsOk ==> InFlight(c) == Some(Ack))
  }

  lemma WarySteps(c: Core, cmd: Command, bytes: seq<u8>, n: nat)
    requires Bounded(c)
    ensures Submit(c, cmd).1.Success? ==> Wary(Submit(c, cmd).0) && InFlight(Submit(c, cmd).0) == Some(KindOf(cmd))
    ensures Wary(c) ==> Wary(PushRx(c, bytes).0) && Wary(AckTx(c, n))
    ensures InFlight(PushRx(c, bytes).0) == InFlight(c) == InFlight(AckTx(c, n))
    ensures PushRx(c, bytes).0.state.Idle? <==> c.state.Idle?
    ensures AckTx(c, n).state.Idle? <==> c.state.Idle?
    ensures PushRx(c, bytes).0.readyAsOk == c.readyAsOk == AckTx(c, n).readyAsOk
  {
    hide Line;
  }

  /** Whatever has become of earlier writes, a response is surfaced only to a command in flight, suits it
      and frees the slot. */
  lemma {:induction false} WaryPoll(c: Core)
    requires Wary(c)
    ensures var p := PollOnce(c);
      && Wary(p.core)
      && (p.out.Responded? ==>
            InFlight(c).Some? && Answers(InFlight(c).value, p.out.response) && p.core.state.Idle?)
    decreases |c.rx|
  {
    hide PollOnce, Judge, NextLineEnd, Answers;
    if c.inFlight < |c.tx| || NextLineEnd(c.rx).None? {
      PollNoLine(c);
    } else {
      var end := NextLineEnd(c.rx).value;
      PollHead(c, end);
      if end <= LINE_BUF && c.readyAsOk && RESET <= c.rx[..end] {
        WaryPoll(c.(rx := c.rx[end + 2..]));
      } else {
        JudgedResponse(c, c.rx[..end], c.(rx := c.rx[end + 2..]));
      }
    }
  }

  lemma JudgedResponse(c: Core, line: seq<u8>, drained: Core)
    requires Wary(c) && drained == c.(rx := drained.rx)
    ensures var p := Judge(c, line, drained);
      && Wary(p.core)
      && (p.out.Responded? ==>
            InFlight(c).Some? && Answers(InFlight(c).value, p.out.response) && p.core.state.Idle?)
  {
    hide ParseEvent, ParseResponse, ResponseMatches, Answers;
    OkAnswersAck();
    if c.state.Awaiting? && ResponseMatches(c.state.kind, line) && ParseResponse(line).Good? {
      MatchedReplyAnswers(c.state.kind, line);
    }
  }

  lemma OkAnswersAck()
    ensures Answers(Ack, Ok)
  {
  }

  /** Under the discipline it is surfaced only to a command that is out. */
  lemma ResponseSuits(c: Core)
    requires Clean(c) && PollOnce(c).out.Responded?
    ensures c.state.Awaiting? && Answers(c.state.kind, PollOnce(c).out.response)
    ensures PollOnce(c).core.state.Idle?
  {
    hide PollOnce, Answers;
    WaryPoll(c);
    PollTx(c);
  }

  // ---- Exact accounting ---------------------------------------------------------

  /** No `+READY` has been, or can be, taken for an answer without a command. */
  predicate NoGhost(s: Spec) {
    s.spurious == 0 && (s.slot.ready ==> s.slot.inFlight.Some?)
  }

  lemma {:induction false} LinesNoGhost(s: Spec, lines: seq<seq<u8>>)
    requires NoGhost(s)
    ensures NoGhost(Replay(s, Gots(lines)))
    decreases |lines|
  {
    hide ParseEvent, ParseResponse, ResponseMatches, IsEvent;
    if lines != [] {
      assert NoGhost(OnLine(s, lines[0]));
      hide OnLine;
      LinesNoGhost(OnLine(s, lines[0]), lines[1..]);
      assert Gots(lines)[1..] == Gots(lines[1..]);
    }
  }

  ghost predicate Unhaunted(h: Hist) {
    NoGhost(Replay(START, h.items))
  }

  lemma StepUnhaunted(h: Hist, op: Op)
    requires Bounded(h.core) && Unhaunted(h)
    requires op.DoSubmit? && op.cmd.FactoryReset? ==> Submit(h.core, op.cmd).1 != Failure(TxOverflow)
    ensures Unhaunted(Step(h, op))
  {
    hide Replay, PollOnce, Line;
    if !h.crashed {
      match op
      case DoSubmit(cmd) =>
        NewItem(h, Began(KindOf(cmd), cmd.FactoryReset?));
        NewItem(h, Refused(cmd.FactoryReset?));
      case DoPush(_) =>
      case DoAck(_) => NewItem(h, Sent);
      case DoPoll =>
        ReplayAppend(START, h.items, Gots(PollOnce(h.core).eaten));
        LinesNoGhost(Replay(START, h.items), PollOnce(h.core).eaten);
    }
  }

  lemma HostStepUnhaunted(h: Hist, op: HostOp)
    requires Clean(h.core) && Unhaunted(h)
    ensures Unhaunted(HostStep(h, op))
  {
    hide Unhaunted, Step, PollOnce, Submit, Tidy;
    match op
    case HostSubmit(cmd) =>
      OtherStepsKeepTidy(h.core, cmd, [], 0);
      StepUnhaunted(h, DoSubmit(cmd));
    case HostPush(bytes) => StepUnhaunted(h, DoPush(bytes));
    case HostService =>
      StepUnhaunted(h, DoPoll);
      StepBounded(h, DoPoll);
      var p := PollOnce(h.core);
      if p.out.NeedTx? {
        StepUnhaunted(Step(h, DoPoll), DoAck(|p.out.bytes|));
      }
  }

  lemma {:induction false} HostRunUnhaunted(hops: seq<HostOp>)
    ensures Unhaunted(HostRun(hops))
  {
    hide Unhaunted, HostStep;
    if hops == [] {
      BeginningUnhaunted();
    } else {
      HostRunClean(hops[..|hops| - 1]);
      HostRunUnhaunted(hops[..|hops| - 1]);
      HostStepUnhaunted(HostRun(hops[..|hops| - 1]), hops[|hops| - 1]);
    }
  }

  lemma BeginningUnhaunted()
    ensures Unhaunted(BEGINNING)
  {
  }

  /** Over every disciplined run: accepted commands = responses surfaced + replies that matched but
      did not parse + (1 if the driver is not idle). */
  lemma DisciplinedAccounting(hops: seq<HostOp>)
    ensures var h := HostRun(hops);
      |h.commands| == Responses(h.outs) + Replay(START, h.items).lost + (if h.core.state.Idle? then 0 else 1)
  {
    hide HostRun, Replay, Run;
    var ops := HostRunIsRun(hops);
    SlotAccounting(ops);
    HostRunUnhaunted(hops);
  }

  // ---- Going on from a given point ----------------------------------------------

  function From(h: Hist, hops: seq<HostOp>): (h': Hist)
    requires Bounded(h.core)
    ensures Bounded(h'.core)
  {
    if hops == [] then h else HostStep(From(h, hops[..|hops| - 1]), hops[|hops| - 1])
  }

  /** An idle driver that accepts a command and is then served waits for the reply exactly when it owed no
      acknowledgement before. The line goes out either way, and until a reply is taken every submit is
      `Busy`, so a deadline that passes without a reply leaves the driver so. */
  lemma ServedCommandWaitsExactly(h: Hist, cmd: Command, next: Command)
    requires Bounded(h.core) && !h.crashed && h.core.state.Idle? && Submit(h.core, cmd).1.Success?
    ensures var s := HostStep(HostStep(h, HostSubmit(cmd)), HostService);
      && (s.core.state == Awaiting(KindOf(cmd)) <==> h.core.inFlight == 0)
      && (s.core.state == SendingTx <==> h.core.inFlight > 0)
      && s.handed == h.handed + h.core.tx[h.core.inFlight..] + Line(cmd)
      && s.core.inFlight == h.core.inFlight
      && Submit(s.core, next).1 == Failure(Busy)
  {
    var tx, n := h.core.tx, h.core.inFlight;
    assert |Line(cmd)| >= 2;
    hide Line, PollOnce;
    var submitted := Step(h, DoSubmit(cmd));
    StepBounded(h, DoSubmit(cmd));
    StepBounded(submitted, DoPoll);
    PollTx(submitted.core);
    assert submitted.core.tx == tx + Line(cmd);
    assert (tx + Line(cmd))[n..] == tx[n..] + Line(cmd);
    Associate(h.handed, tx[n..], Line(cmd));
  }
}
