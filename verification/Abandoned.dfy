/** Hosts that were handed bytes and never acknowledged them: a write that failed, or a reset answered
    before its acknowledgement. The driver then never waits for a reply again. */
module Abandoned {
  import opened Bytes
  import opened Types
  import CommandLine
  import opened Decode
  import opened Framing
  import opened Machine
  import opened History
  import opened Discipline

  /** Bytes are handed out that no later acknowledgement will be for. */
  predicate Stale(c: Core) {
    Bounded(c) && c.inFlight > 0 && !c.state.Awaiting?
  }

  /** A command that is not a reset is in the slot; it can neither go out nor be answered. */
  predicate Mute(c: Core) {
    c.state.SendingTx? && !c.readyAsOk
  }

  /** Abandoning the write that a poll asked for, as the blocking radio does when the port fails, leaves
      the command stale in its slot. */
  lemma AbandonedWriteIsStale(c: Core)
    requires Clean(c) && PollOnce(c).out.NeedTx?
    ensures var d := PollOnce(c).core;
      Stale(d) && d.state.SendingTx? && d.readyAsOk == c.readyAsOk && d.rx == c.rx
  {
    hide PollOnce;
    PollTx(c);
  }

  /** The only responses among the later outputs are `Ok`s. */
  ghost predicate OnlyOks(before: seq<Poll>, after: seq<Poll>) {
    before <= after && forall i :: |before| <= i < |after| && after[i].Responded? ==> after[i] == Responded(Ok)
  }

  /** There are no responses among them. */
  predicate NoResponse(before: seq<Poll>, after: seq<Poll>) {
    |before| <= |after| && forall i :: |before| <= i < |after| ==> !after[i].Responded?
  }

  lemma {:induction false} StalePoll(c: Core)
    requires !c.state.Awaiting?
    ensures var p := PollOnce(c);
      && !p.core.state.Awaiting?
      && (p.out.Responded? ==> p.out.response == Ok && c.readyAsOk)
      && (Mute(c) ==> Mute(p.core))
    decreases |c.rx|
  {
    hide PollOnce, NextLineEnd, ParseEvent, ResponseMatches, IsEvent;
    if c.inFlight < |c.tx| || NextLineEnd(c.rx).None? {
      PollNoLine(c);
    } else {
      var end := NextLineEnd(c.rx).value;
      PollHead(c, end);
      if end <= LINE_BUF && c.readyAsOk && RESET <= c.rx[..end] {
        StalePoll(c.(rx := c.rx[end + 2..]));
      }
    }
  }

  /** What a stale driver has done from one point to a later one: it surfaces no response but `Ok`, and none
      while it is mute. */
  ghost predicate Doomed(h: Hist, h': Hist) {
    && Stale(h'.core) && OnlyOks(h.outs, h'.outs)
    && (Mute(h.core) ==> Mute(h'.core) && NoResponse(h.outs, h'.outs))
  }

  lemma DoomedThrough(h0: Hist, h1: Hist, h2: Hist)
    requires Doomed(h0, h1) && Doomed(h1, h2)
    ensures Doomed(h0, h2)
  {
    forall i | |h0.outs| <= i < |h1.outs| ensures h2.outs[i] == h1.outs[i] {
    }
  }

  /** One poll by a stale driver, and the acknowledgement of what the poll hands out. */
  lemma DoomedPoll(h: Hist)
    requires Stale(h.core)
    ensures var polled := Step(h, DoPoll);
      && Doomed(h, polled)
      && (PollOnce(h.core).out.NeedTx? ==>
            Doomed(h, Step(polled, DoAck(|PollOnce(h.core).out.bytes|))))
  {
    hide PollOnce;
    StepBounded(h, DoPoll);
    PollTx(h.core);
    StalePoll(h.core);
    assert h.outs + [] == h.outs;
  }

  lemma DoomedPush(h: Hist, bytes: seq<u8>)
    requires Stale(h.core)
    ensures Doomed(h, Step(h, DoPush(bytes)))
  {
  }

  lemma DoomedSubmit(h: Hist, cmd: Command)
    requires Stale(h.core)
    ensures Doomed(h, Step(h, DoSubmit(cmd)))
    ensures Mute(h.core) ==> Step(h, DoSubmit(cmd)).commands == h.commands
    ensures Submit(h.core, cmd).1.Success? && !cmd.FactoryReset? ==> Mute(Submit(h.core, cmd).0)
  {
    hide CommandLine.Line;
  }

  /** And if its host is disciplined, nothing moves in it. */
  ghost predicate Stuck(h: Hist, h': Hist) {
    Doomed(h, h') && h'.core.inFlight == h.core.inFlight && (Mute(h.core) ==> h'.commands == h.commands)
  }

  lemma StaleStep(h: Hist, op: HostOp)
    requires Stale(h.core)
    ensures Stuck(h, HostStep(h, op))
  {
    hide PollOnce, Submit, Doomed, Mute;
    match op
    case HostSubmit(cmd) =>
      DoomedSubmit(h, cmd);
      SubmitKeepsInFlight(h, cmd);
    case HostPush(bytes) => DoomedPush(h, bytes);
    case HostService =>
      DoomedPoll(h);
      StepBounded(h, DoPoll);
      PollTx(h.core);
  }

  lemma SubmitKeepsInFlight(h: Hist, cmd: Command)
    requires Bounded(h.core)
    ensures Step(h, DoSubmit(cmd)).core.inFlight == h.core.inFlight
  {
    hide CommandLine.Line;
  }

  /** Whatever a disciplined host does from then on, the driver stays stale: it never waits for a reply, the
      unacknowledged count never changes, and it surfaces no response but `Ok`. If a command other than
      a reset holds the slot, every submit is refused and there is no response at all. */
  lemma {:induction false} StaleForever(h: Hist, hops: seq<HostOp>)
    requires Stale(h.core)
    ensures Stuck(h, From(h, hops))
  {
    hide HostStep;
    if hops == [] {
      assert From(h, hops) == h;
    } else {
      var before := From(h, hops[..|hops| - 1]);
      StaleForever(h, hops[..|hops| - 1]);
      StaleStep(before, hops[|hops| - 1]);
      DoomedThrough(h, before, HostStep(before, hops[|hops| - 1]));
      assert From(h, hops) == HostStep(before, hops[|hops| - 1]);
    }
  }

  // ---- When a stale driver can still answer -------------------------------------

  /** Some disciplined continuation surfaces a response. */
  ghost predicate CanAnswer(h: Hist)
    requires Bounded(h.core)
  {
    exists hops :: !NoResponse(h.outs, From(h, hops).outs)
  }

  /** A line that a reset waiting for `+READY` gets past, or is answered by. */
  ghost predicate Passes(line: seq<u8>) {
    |line| <= LINE_BUF && (RESET <= line || (IsEvent(line) && !LengthOverflows(line)))
  }

  /** The received bytes are, or can be made, the terminated line. */
  ghost predicate Begins(rx: seq<u8>, line: seq<u8>) {
    CR !in line && Passes(line) && rx <= line + CRLF
  }

  /** Up to the first `+READY`, or to the end, every line passes, the unfinished one once it is completed. */
  ghost predicate Passable(rx: seq<u8>)
    decreases |rx|
  {
    match NextLineEnd(rx)
    case None => exists line :: Begins(rx, line)
    case Some(end) => Passes(rx[..end]) && (rx[..end] == READY || Passable(rx[end + 2..]))
  }

  lemma ReadyPasses()
    ensures Passes(READY) && !(RESET <= READY)
  {
    ReadyParses();
    ParseEventPanicsExactly(READY);
    assert READY[3] != RESET[3];
  }

  lemma NothingPassable()
    ensures Passable([])
  {
    ReadyPasses();
    assert Begins([], READY);
  }

  /** More bytes do not make an impassable buffer passable. */
  lemma {:induction false} PassablePrefix(rx: seq<u8>, more: seq<u8>)
    requires Passable(rx + more)
    ensures Passable(rx)
    decreases |rx|
  {
    hide NextLineEnd, Passes;
    var long := rx + more;
    match NextLineEnd(rx)
    case Some(end) =>
      NextLineEndExtends(rx, more);
      assert long[..end] == rx[..end] && long[end + 2..] == rx[end + 2..] + more;
      if rx[..end] != READY {
        PassablePrefix(rx[end + 2..], more);
      }
    case None =>
      if NextLineEnd(long).Some? {
        UnfinishedBegins(rx, more);
        assert Begins(rx, long[..NextLineEnd(long).value]);
      } else {
        var line :| Begins(long, line);
        assert Begins(rx, line);
      }
  }

  lemma UnfinishedBegins(rx: seq<u8>, more: seq<u8>)
    requires NextLineEnd(rx).None? && NextLineEnd(rx + more).Some?
    ensures var line := (rx + more)[..NextLineEnd(rx + more).value];
      CR !in line && rx <= line + CRLF
  {
    var long := rx + more;
    var line := long[..NextLineEnd(long).value];
    assert long == line + CRLF + long[|line| + 2..];
    hide NextLineEnd;
    if |rx| >= |line| + 2 {
      assert rx == line + CRLF + rx[|line| + 2..];
      NextLineEndOfLine(line, rx[|line| + 2..]);
    }
  }

  /** A poll by a driver sending a command never gets past a buffer that is not passable. */
  lemma {:induction false} PollBlocked(c: Core)
    requires c.state.SendingTx? && !Passable(c.rx)
    ensures var p := PollOnce(c);
      p.out.Crash? || (!p.out.Responded? && p.core.state.SendingTx? && !Passable(p.core.rx))
    decreases |c.rx|
  {
    hide PollOnce, NextLineEnd, Judge, Passes, Begins;
    if c.inFlight < |c.tx| || NextLineEnd(c.rx).None? {
      PollNoLine(c);
    } else {
      var end := NextLineEnd(c.rx).value;
      PollHead(c, end);
      if end <= LINE_BUF {
        if c.readyAsOk && RESET <= c.rx[..end] {
          assert Passes(c.rx[..end]) by { NoticePasses(c.rx[..end]); }
          PollBlocked(c.(rx := c.rx[end + 2..]));
        } else {
          JudgeSending(c, c.rx[..end], c.rx[end + 2..]);
        }
      }
    }
  }

  lemma NoticePasses(line: seq<u8>)
    requires RESET <= line && |line| <= LINE_BUF
    ensures Passes(line)
  {
  }

  /** The verdict on a line while a command is being sent. */
  lemma JudgeSending(c: Core, line: seq<u8>, rest: seq<u8>)
    requires c.state.SendingTx? && |line| <= LINE_BUF && !(c.readyAsOk && RESET <= line)
    ensures var j := Judge(c, line, c.(rx := rest));
      if !IsEvent(line) then j == Polled(c, Poll.Idle, [])
      else if !Passes(line) then j.out.Crash?
      else if c.readyAsOk && line == READY then j.out == Responded(Ok)
      else j.core == c.(rx := rest) && (j.out.Noticed? || j.out.Idle?)
  {
    hide ParseEvent, IsEvent, LengthOverflows;
    ReadyParses();
    ParseEventPanicsExactly(line);
    if LengthOverflows(line) {
      OverflowIsEvent(line);
    } else if IsEvent(line) {
      assert Passes(line);
    }
  }

  /** And a poll for a reset gets past one that is, or is answered. */
  lemma {:induction false} PollPasses(c: Core)
    requires c.state.SendingTx? && c.readyAsOk && c.inFlight >= |c.tx|
    requires NextLineEnd(c.rx).Some? && Passable(c.rx)
    ensures var p := PollOnce(c);
      || p.out == Responded(Ok)
      || (p.core == c.(rx := p.core.rx) && (p.out.Noticed? || p.out.Idle?)
          && Passable(p.core.rx) && |p.core.rx| + NextLineEnd(c.rx).value + 2 <= |c.rx|)
    decreases |c.rx|
  {
    hide PollOnce, NextLineEnd, Judge, Begins, IsEvent, LengthOverflows;
    var end := NextLineEnd(c.rx).value;
    var line, rest := c.rx[..end], c.rx[end + 2..];
    PollHead(c, end);
    ReadyPasses();
    if RESET <= line {
      if NextLineEnd(rest).Some? {
        PollPasses(c.(rx := rest));
      } else {
        PollNoLine(c.(rx := rest));
      }
    } else {
      JudgeSending(c, line, rest);
    }
  }

  // ---- No continuation answers --------------------------------------------------

  ghost predicate Hopeless(h: Hist) {
    Bounded(h.core) && (h.crashed || (Stale(h.core) && h.core.state.SendingTx? && !Passable(h.core.rx)))
  }

  lemma HopelessService(h: Hist)
    requires Hopeless(h)
    ensures Hopeless(Service(h)) && NoResponse(h.outs, Service(h).outs)
  {
    hide PollOnce, Passable;
    ServiceBounded(h);
    if !h.crashed {
      StepBounded(h, DoPoll);
      PollTx(h.core);
      PollBlocked(h.core);
    }
  }

  lemma HopelessStep(h: Hist, op: HostOp)
    requires Hopeless(h)
    ensures Hopeless(HostStep(h, op)) && NoResponse(h.outs, HostStep(h, op).outs)
  {
    hide Service, Passable, CommandLine.Line;
    match op
    case HostSubmit(cmd) =>
    case HostPush(bytes) =>
      var n := Room(h.core, bytes);
      if Passable(h.core.rx + bytes[..n]) {
        PassablePrefix(h.core.rx, bytes[..n]);
      }
    case HostService => HopelessService(h);
  }

  lemma {:induction false} HopelessForever(h: Hist, hops: seq<HostOp>)
    requires Hopeless(h)
    ensures Hopeless(From(h, hops)) && h.outs <= From(h, hops).outs && NoResponse(h.outs, From(h, hops).outs)
  {
    hide HostStep, Hopeless;
    assert Bounded(h.core) by { HopelessBounded(h); }
    if hops != [] {
      var before := From(h, hops[..|hops| - 1]);
      HopelessForever(h, hops[..|hops| - 1]);
      HopelessStep(before, hops[|hops| - 1]);
      OutsGrow(before, hops[|hops| - 1]);
    }
  }

  lemma HopelessBounded(h: Hist)
    requires Hopeless(h)
    ensures Bounded(h.core)
  {
  }

  lemma OutsGrow(h: Hist, op: HostOp)
    requires Bounded(h.core)
    ensures h.outs <= HostStep(h, op).outs
  {
    hide PollOnce, CommandLine.Line;
    StepBounded(h, DoPoll);
  }

  // ---- Some continuation answers ------------------------------------------------

  lemma {:induction false} FromFront(h: Hist, op: HostOp, hops: seq<HostOp>)
    requires Bounded(h.core)
    ensures From(h, [op] + hops) == From(HostStep(h, op), hops)
  {
    hide HostStep;
    var all := [op] + hops;
    if hops == [] {
      assert all == [op] && [op][..0] == [];
    } else {
      FromFront(h, op, hops[..|hops| - 1]);
      assert all[..|all| - 1] == [op] + hops[..|hops| - 1];
    }
  }

  lemma {:induction false} FromGrows(h: Hist, hops: seq<HostOp>)
    requires Bounded(h.core)
    ensures h.outs <= From(h, hops).outs
  {
    hide HostStep;
    if hops != [] {
      FromGrows(h, hops[..|hops| - 1]);
      OutsGrow(From(h, hops[..|hops| - 1]), hops[|hops| - 1]);
    }
  }

  lemma AnswersLater(h: Hist, op: HostOp)
    requires Bounded(h.core) && CanAnswer(HostStep(h, op))
    ensures CanAnswer(h)
  {
    hide HostStep, From;
    var next := HostStep(h, op);
    var hops :| !NoResponse(next.outs, From(next, hops).outs);
    FromFront(h, op, hops);
    OutsGrow(h, op);
    FromGrows(next, hops);
    assert !NoResponse(h.outs, From(h, [op] + hops).outs);
  }

  lemma AnswersNow(h: Hist)
    requires Bounded(h.core) && Service(h).outs == h.outs + [Responded(Ok)]
    ensures CanAnswer(h)
  {
    hide Service;
    FromFront(h, HostService, []);
    var hops := [HostService] + [];
    assert From(h, hops).outs[|h.outs|].Responded?;
    assert !NoResponse(h.outs, From(h, hops).outs);
  }

  /** A reset whose line is handed out, in the slot of a stale driver. */
  ghost predicate Waiting(h: Hist) {
    Stale(h.core) && !h.crashed && h.core.state.SendingTx? && h.core.readyAsOk
  }

  lemma ServedHandsOut(h: Hist)
    requires Waiting(h) && h.core.inFlight < |h.core.tx|
    ensures Waiting(Service(h)) && Service(h).core.rx == h.core.rx
    ensures Service(h).core.inFlight == |Service(h).core.tx|
  {
    hide PollOnce;
    StepBounded(h, DoPoll);
    PollTx(h.core);
  }

  lemma ServedPasses(h: Hist)
    requires Waiting(h) && h.core.inFlight == |h.core.tx|
    requires NextLineEnd(h.core.rx).Some? && Passable(h.core.rx)
    ensures var s := Service(h);
      || s.outs == h.outs + [Responded(Ok)]
      || (Waiting(s) && s.core.inFlight == |s.core.tx| && Passable(s.core.rx)
          && |s.core.rx| + NextLineEnd(h.core.rx).value + 2 <= |h.core.rx|)
  {
    hide PollOnce, Passable, NextLineEnd;
    StepBounded(h, DoPoll);
    PollTx(h.core);
    PollPasses(h.core);
  }

  lemma PushedLine(h: Hist, line: seq<u8>)
    requires Waiting(h) && h.core.inFlight == |h.core.tx| && Begins(h.core.rx, line)
    ensures var pushed := HostStep(h, HostPush((line + CRLF)[|h.core.rx|..]));
      && Waiting(pushed) && pushed.core.inFlight == |pushed.core.tx| && pushed.core.rx == line + CRLF
      && NextLineEnd(pushed.core.rx) == Some(|line|) && Passable(pushed.core.rx)
  {
    hide NextLineEnd;
    var tail := (line + CRLF)[|h.core.rx|..];
    assert tail[..|tail|] == tail;
    assert h.core.rx + tail == line + CRLF;
    assert line + CRLF == line + CRLF + [];
    NextLineEndOfLine(line, []);
    assert (line + CRLF)[..|line|] == line && (line + CRLF)[|line| + 2..] == [];
    hide Passes;
    NothingPassable();
  }

  lemma ReadyAnswers(h: Hist)
    requires Waiting(h) && h.core.inFlight == |h.core.tx| && h.core.rx == []
    ensures CanAnswer(h)
  {
    hide CanAnswer, Service, NextLineEnd, PollOnce, Passes;
    ReadyPasses();
    PushedLine(h, READY);
    var pushed := HostStep(h, HostPush((READY + CRLF)[0..]));
    ReadyServed(pushed);
    AnswersNow(pushed);
    AnswersLater(h, HostPush((READY + CRLF)[0..]));
  }

  lemma ReadyServed(h: Hist)
    requires Waiting(h) && h.core.inFlight == |h.core.tx| && h.core.rx == READY + CRLF
    ensures Service(h).outs == h.outs + [Responded(Ok)]
  {
    assert h.core.rx == READY + CRLF + [];
    PollOfReady(h.core, []);
    hide PollOnce;
    StepBounded(h, DoPoll);
  }

  /** Complete the unfinished line, if there is one, then send `+READY`. */
  lemma CompletedAnswers(h: Hist)
    requires Waiting(h) && h.core.inFlight == |h.core.tx|
    requires NextLineEnd(h.core.rx).None? && Passable(h.core.rx)
    ensures CanAnswer(h)
  {
    hide CanAnswer, NextLineEnd, HostStep, Service, Waiting, Begins;
    assert Bounded(h.core) by { WaitingBounded(h); }
    var line :| Begins(h.core.rx, line);
    BeginsPrefix(h.core.rx, line);
    var tail := (line + CRLF)[|h.core.rx|..];
    PushedLine(h, line);
    var pushed := HostStep(h, HostPush(tail));
    ServedPasses(pushed);
    var s := Service(pushed);
    if s.outs == pushed.outs + [Responded(Ok)] {
      AnswersNow(pushed);
    } else {
      assert s.core.rx == [];
      ReadyAnswers(s);
      ServeStep(pushed);
      AnswersLater(pushed, HostService);
    }
    AnswersLater(h, HostPush(tail));
  }

  lemma WaitingBounded(h: Hist)
    requires Waiting(h)
    ensures Bounded(h.core)
  {
  }

  lemma BeginsPrefix(rx: seq<u8>, line: seq<u8>)
    requires Begins(rx, line)
    ensures rx <= line + CRLF
  {
  }

  lemma ServeStep(h: Hist)
    requires Bounded(h.core)
    ensures HostStep(h, HostService) == Service(h)
  {
  }

  lemma {:induction false} PassableAnswers(h: Hist)
    requires Waiting(h) && Passable(h.core.rx)
    ensures CanAnswer(h)
    decreases |h.core.rx|, |h.core.tx| - h.core.inFlight
  {
    hide CanAnswer, NextLineEnd, Service, Passable;
    var s := Service(h);
    ServeStep(h);
    hide HostStep;
    if h.core.inFlight < |h.core.tx| {
      ServedHandsOut(h);
      PassableAnswers(s);
      AnswersLater(h, HostService);
    } else if NextLineEnd(h.core.rx).None? {
      CompletedAnswers(h);
    } else {
      ServedPasses(h);
      if s.outs == h.outs + [Responded(Ok)] {
        AnswersNow(h);
      } else {
        PassableAnswers(s);
        AnswersLater(h, HostService);
      }
    }
  }

  // ---- The exact condition ------------------------------------------------------

  /** When an abandoned command can still be answered: some disciplined continuation surfaces a response
      exactly when the command is a reset and nothing received so far stands in the way of a `+READY`. */
  lemma AbandonedAnsweredExactly(h: Hist)
    requires Stale(h.core) && h.core.state.SendingTx?
    ensures CanAnswer(h) <==> !h.crashed && h.core.readyAsOk && Passable(h.core.rx)
  {
    hide From, Passable;
    if !h.core.readyAsOk {
      forall hops ensures NoResponse(h.outs, From(h, hops).outs) {
        StaleForever(h, hops);
      }
    } else if h.crashed || !Passable(h.core.rx) {
      forall hops ensures NoResponse(h.outs, From(h, hops).outs) {
        HopelessForever(h, hops);
      }
    } else {
      PassableAnswers(h);
    }
  }

  /** And so for every command accepted later by an idle driver that owes an acknowledgement. */
  lemma LaterAnsweredExactly(h: Hist, cmd: Command)
    requires Stale(h.core) && h.core.state.Idle? && Submit(h.core, cmd).1.Success?
    ensures CanAnswer(HostStep(h, HostSubmit(cmd))) <==> !h.crashed && cmd.FactoryReset? && Passable(h.core.rx)
  {
    hide CanAnswer, Passable, CommandLine.Line;
    var next := HostStep(h, HostSubmit(cmd));
    StaleStep(h, HostSubmit(cmd));
    if h.crashed {
      CrashedCannotAnswer(next);
    } else {
      AbandonedAnsweredExactly(next);
    }
  }

  lemma CrashedCannotAnswer(h: Hist)
    requires Bounded(h.core) && h.crashed
    ensures !CanAnswer(h)
  {
    hide From;
    forall hops ensures NoResponse(h.outs, From(h, hops).outs) {
      HopelessForever(h, hops);
    }
  }

  /** A late `+OK` in the buffer, which nobody waits for while the reset is being sent, blocks even that. */
  lemma LateReplyBlocksReset(h: Hist, rest: seq<u8>)
    requires Stale(h.core) && h.core.state.SendingTx? && h.core.rx == OK_LINE + CRLF + rest
    ensures !CanAnswer(h)
  {
    hide CanAnswer, NextLineEnd;
    NextLineEndOfLine(OK_LINE, rest);
    assert h.core.rx[..3] == OK_LINE;
    assert !Passes(OK_LINE);
    AbandonedAnsweredExactly(h);
  }

  /** How an idle driver comes to owe one: `+READY` polled before the reset command is acknowledged answers
      the command and leaves the driver idle with the ten bytes of that command still queued. */
  lemma ReadyBeforeAck(c: Core, polled: Core, pushed: Core)
    requires c == Submit(FRESH, FactoryReset).0
    requires polled == PollOnce(c).core
    requires pushed == PushRx(polled, READY + CRLF).0
    ensures var p := PollOnce(pushed);
      && p.out == Responded(Ok)
      && p.core.state.Idle? && p.core.inFlight == |p.core.tx| == 10 && !Tidy(p.core) && Stale(p.core)
  {
    assert |CommandLine.Line(FactoryReset)| == 10;
    assert polled == c.(inFlight := 10);
    hide PollOnce;
    assert pushed.rx == READY + CRLF + [];
    PollOfReady(pushed, []);
  }
}
