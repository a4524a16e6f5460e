/** The blocking radio: submit, then pump the driver and the port until the reply or the deadline. */
module Radio {
  import opened Bytes
  import opened Types
  import CommandLine
  import opened Framing
  import opened Machine
  import opened History
  import opened Discipline
  import opened Abandoned
  import Chunking
  import Driver

  const DEFAULT_TIMEOUT: int := 1000
  const FACTORY_RESET_TIMEOUT: int := 4000

  datatype Failure = Protocol(error: Error) | Io | Timeout | Radio(code: u8) | Panicked

  datatype Outcome<+T> = Done(value: T) | Failed(failure: Failure)

  /** The ways in which pumping ends without an answer. */
  predicate GaveUp(f: Failure) {
    f.Timeout? || f.Io? || f == Protocol(RxOverflow)
  }

  /** What a read may do: bring bytes, time out or would block, or fail. */
  datatype Read = Got(bytes: seq<u8>) | NoData | Broken

  /** An arbitrary serial port and clock: what the n-th read, the n-th write and the n-th look at the
      clock do is anything, except that reads fill at most the caller's buffer. */
  class Port {
    const incoming: nat -> Read
    const outgoing: nat -> bool
    const clock: nat -> int
    var readCount: nat
    var writeCount: nat
    var ticks: nat
    ghost var written: seq<u8>
    ghost var taken: seq<u8>

    ghost predicate Valid() {
      forall n: nat :: incoming(n).Got? ==> |incoming(n).bytes| <= READ_BUF
    }

    /** At some look from the `from`-th on, the clock shows this time or later. */
    ghost predicate Passes(time: int, from: nat) {
      exists n: nat :: n >= from && clock(n) >= time
    }

    /** The clock passes every deadline after finitely many looks. */
    ghost predicate TimePasses() {
      forall time: int, from: nat :: Passes(time, from)
    }

    /** These looks at the clock show earlier times. */
    ghost predicate StillBefore(time: int, from: nat, to: int) {
      forall n: nat :: from <= n < to ==> clock(n) < time
    }

    lemma StillBeforeNone(time: int, from: nat)
      ensures StillBefore(time, from, from)
    {
    }

    lemma StillBeforeOneMore(time: int, from: nat, to: nat)
      requires StillBefore(time, from, to) && clock(to) < time
      ensures StillBefore(time, from, to + 1)
    {
    }

    /** The last read or the last write has failed, and was not among the first `n` reads or `m` writes. */
    ghost predicate FailedSince(n: nat, m: nat)
      reads this
    {
      || (readCount > n && incoming(readCount - 1).Broken?)
      || (writeCount > m && !outgoing(writeCount - 1))
    }

    constructor (incoming: nat -> Read, outgoing: nat -> bool, clock: nat -> int)
      requires forall n: nat :: incoming(n).Got? ==> |incoming(n).bytes| <= READ_BUF
      ensures Valid() && written == [] && taken == [] && ticks == 0
      ensures this.incoming == incoming && this.outgoing == outgoing && this.clock == clock
    {
      this.incoming := incoming;
      this.outgoing := outgoing;
      this.clock := clock;
      readCount, writeCount, ticks := 0, 0, 0;
      written, taken := [], [];
    }

    method WriteAll(bytes: seq<u8>) returns (ok: bool)
      modifies this
      ensures ticks == old(ticks) && readCount == old(readCount) && taken == old(taken)
      ensures writeCount == old(writeCount) + 1 && ok == outgoing(old(writeCount))
      ensures written == if ok then old(written) + bytes else old(written)
    {
      ok := outgoing(writeCount);
      writeCount := writeCount + 1;
      if ok {
        written := written + bytes;
      }
    }

    method ReadSome() returns (r: Read)
      requires Valid()
      modifies this
      ensures Valid() && ticks == old(ticks) && written == old(written) && writeCount == old(writeCount)
      ensures readCount == old(readCount) + 1 && r == incoming(old(readCount))
      ensures r.Got? ==> |r.bytes| <= READ_BUF
      ensures taken == if r.Got? then old(taken) + r.bytes else old(taken)
    {
      r := incoming(readCount);
      readCount := readCount + 1;
      if r.Got? {
        taken := taken + r.bytes;
      }
    }

    method Now() returns (t: int)
      modifies this
      ensures ticks == old(ticks) + 1 && t == clock(old(ticks)) && written == old(written)
      ensures readCount == old(readCount) && writeCount == old(writeCount) && taken == old(taken)
    {
      t := clock(ticks);
      ticks := ticks + 1;
    }
  }

  /** The closure a command method pumps with: `wait_ok` for acknowledged commands, and for each query
      the one that unwraps its own variant; each maps an error code to `Error::Radio`. */
  function Want(kind: AwaitKind, r: Response): Option<Outcome<Response>> {
    if r.Err? then Some(Failed(Radio(r.code)))
    else if Answers(kind, r) then Some(Done(r))
    else None
  }

  function TimeoutFor(cmd: Command): int {
    if cmd.FactoryReset? then FACTORY_RESET_TIMEOUT else DEFAULT_TIMEOUT
  }

  /** The responses surfaced meanwhile were not wanted, but for the last one if there is an answer. */
  ghost predicate Unwanted(before: seq<Poll>, after: seq<Poll>,
                           want: Response -> Option<Outcome<Response>>, answer: Option<Response>) {
    && before <= after
    && (answer.Some? ==> |after| > |before| && after[|after| - 1] == Responded(answer.value))
    && (forall i :: |before| <= i < |after| && after[i].Responded? ==>
          (answer.Some? && i == |after| - 1) || want(after[i].response).None?)
  }

  lemma UnwantedMore(before: seq<Poll>, after: seq<Poll>, want: Response -> Option<Outcome<Response>>, p: Poll)
    requires Unwanted(before, after, want, None)
    ensures !p.Responded? || want(p.response).None? ==> Unwanted(before, after + Surface(p), want, None)
    ensures p.Responded? ==> Unwanted(before, after + Surface(p), want, Some(p.response))
  {
  }

  /** Each poll hands out what is left to hand out, or finds none left and shortens the receive buffer. */
  lemma Measure(c: Core)
    requires Bounded(c)
    ensures var p := PollOnce(c);
      && Bounded(p.core) && p.core.tx == c.tx && p.core.inFlight == |c.tx|
      && (p.out.NeedTx? <==> c.inFlight < |c.tx|)
      && (Surfaced(p.out) ==> |p.core.rx| < |c.rx|)
      && (p.out.NeedTx? ==> p.out.bytes == c.tx[c.inFlight..])
  {
    hide PollOnce;
    PollTx(c);
    PollShrinks(c);
    if Chunking.HandedOut(c) {
      Chunking.PollTakes(c);
    }
  }

  lemma PolledHistory(h: Hist)
    requires Bounded(h.core) && !h.crashed && !PollOnce(h.core).out.Crash?
    ensures var h', p := Step(h, DoPoll), PollOnce(h.core);
      && h'.outs == h.outs + Surface(p.out) && h'.commands == h.commands && h'.acked == h.acked
      && h'.core == p.core && h'.accepted == h.accepted && !h'.crashed
  {
    hide PollOnce;
  }

  lemma AckedHistory(h: Hist, n: nat)
    requires Bounded(h.core) && !h.crashed
    ensures var h' := Step(h, DoAck(n));
      && h'.core == AckTx(h.core, n) && h'.outs == h.outs && h'.commands == h.commands
      && h'.acked == h.acked + h.core.tx[..Acked(h.core, n)] && h'.accepted == h.accepted
  {
  }

  /** What has happened between two points of pumping. */
  ghost predicate Pumped(h0: Hist, h: Hist, wasIntact: bool, intact: bool,
                         want: Response -> Option<Outcome<Response>>, answer: Option<Response>) {
    && h.commands == h0.commands
    && (intact ==> wasIntact)
    && Unwanted(h0.outs, h.outs, want, answer)
    && SameFlight(h0.core, h.core)
    && (answer.Some? ==> h.core.state.Idle?)
    && (Wary(h0.core) ==> Wary(h.core) && Suiting(InFlight(h0.core), h0.outs, h.outs))
    && (Stale(h0.core) ==> Doomed(h0, h))
  }

  /** The driver while no write has failed, and after one has. */
  predicate Standing(c: Core, intact: bool) {
    if intact then Clean(c) else Stale(c)
  }

  /** Every response surfaced meanwhile suits the command that was in flight. */
  ghost predicate Suiting(kind: Option<AwaitKind>, before: seq<Poll>, after: seq<Poll>) {
    |before| <= |after| && forall i :: |before| <= i < |after| && after[i].Responded? ==>
      kind.Some? && Answers(kind.value, after[i].response)
  }

  lemma SuitingMore(kind: Option<AwaitKind>, before: seq<Poll>, after: seq<Poll>, p: Poll)
    requires Suiting(kind, before, after)
    requires p.Responded? ==> kind.Some? && Answers(kind.value, p.response)
    ensures Suiting(kind, before, after + Surface(p))
  {
    hide Answers;
  }

  lemma DoomedIsStale(h0: Hist, h: Hist)
    requires Doomed(h0, h)
    ensures Stale(h.core)
  {
  }

  lemma PumpPush(h0: Hist, h: Hist, intact: bool, want: Response -> Option<Outcome<Response>>, bytes: seq<u8>)
    requires Bounded(h.core) && !h.crashed
    requires Pumped(h0, h, intact, intact, want, None) && Standing(h.core, intact)
    ensures var h' := Step(h, DoPush(bytes));
      && Pumped(h0, h', intact, intact, want, None) && h'.outs == h.outs && h'.acked == h.acked
      && h'.accepted == h.accepted + bytes[..Room(h.core, bytes)]
      && Standing(h'.core, intact)
  {
    hide Answers, Wary, Doomed, Tidy;
    WarySteps(h.core, Ping, bytes, 0);
    if intact {
      OtherStepsKeepTidy(h.core, Ping, bytes, 0);
    }
    if Stale(h0.core) {
      DoomedIsStale(h0, h);
      DoomedPush(h, bytes);
      DoomedThrough(h0, h, Step(h, DoPush(bytes)));
    }
  }

  lemma PumpedStart(h: Hist, intact: bool, want: Response -> Option<Outcome<Response>>)
    ensures Pumped(h, h, intact, intact, want, None)
  {
    if Stale(h.core) {
      assert Doomed(h, h);
    }
  }

  /** One poll while pumping. */
  lemma PumpPoll(h0: Hist, h: Hist, intact: bool, want: Response -> Option<Outcome<Response>>)
    requires Bounded(h.core) && !h.crashed && !PollOnce(h.core).out.Crash?
    requires Pumped(h0, h, intact, intact, want, None) && Standing(h.core, intact)
    ensures var h', out := Step(h, DoPoll), PollOnce(h.core).out;
      && h'.acked == h.acked && h'.accepted == h.accepted
      && (!out.NeedTx? ==> Standing(h'.core, intact))
      && EventsIn(h'.outs) == EventsIn(h.outs) + (if out.Noticed? then [out.event] else [])
      && (!out.Responded? || want(out.response).None? ==> Pumped(h0, h', intact, intact, want, None))
      && (out.Responded? ==> Pumped(h0, h', intact, intact, want, Some(out.response)))
  {
    hide PollOnce, Step, EventsIn, SameFlight, Unwanted, Answers, Tidy, Suiting, Wary, Doomed, Stale;
    PolledHistory(h);
    EventsInMore(h.outs, PollOnce(h.core).out);
    UnwantedMore(h0.outs, h.outs, want, PollOnce(h.core).out);
    PollFlight(h.core);
    ResponseFrees(h.core);
    SameFlightThrough(h0.core, h.core, PollOnce(h.core).core);
    if Wary(h0.core) {
      WaryPoll(h.core);
      AnsweredThrough(h0.core, h.core);
      SuitingMore(InFlight(h0.core), h0.outs, h.outs, PollOnce(h.core).out);
    }
    if intact {
      PollThenAck(h.core);
    } else {
      DoomedPoll(h);
      DoomedIsStale(h, Step(h, DoPoll));
    }
    if Stale(h0.core) {
      DoomedIsStale(h0, h);
      DoomedPoll(h);
      DoomedThrough(h0, h, Step(h, DoPoll));
    }
  }

  lemma AnsweredThrough(c: Core, d: Core)
    requires SameFlight(c, d)
    ensures InFlight(d).Some? ==> InFlight(c) == InFlight(d)
  {
  }

  /** The acknowledgement after the write that a poll asked for, and the write going wrong instead. */
  lemma PumpAck(h0: Hist, h: Hist, intact: bool, want: Response -> Option<Outcome<Response>>)
    requires Bounded(h.core) && !h.crashed && PollOnce(h.core).out.NeedTx?
    requires Pumped(h0, h, intact, intact, want, None) && Standing(h.core, intact)
    ensures var h', bytes := Step(h, DoPoll), PollOnce(h.core).out.bytes;
      && Bounded(h'.core)
      && Pumped(h0, h', intact, false, want, None) && Standing(h'.core, false)
      && var h'' := Step(h', DoAck(|bytes|));
      && Pumped(h0, h'', intact, intact, want, None) && Standing(h''.core, intact)
      && h''.outs == h.outs && h'.outs == h.outs && h''.accepted == h'.accepted == h.accepted
      && (intact ==> h''.acked == h.acked + bytes)
  {
    hide PollOnce, Step, EventsIn, SameFlight, Unwanted, Answers, Tidy, Suiting, Wary, AckTx, Doomed, Stale;
    PolledHistory(h);
    Measure(h.core);
    var p := PollOnce(h.core);
    assert h.outs + [] == h.outs;
    AckedHistory(Step(h, DoPoll), |p.out.bytes|);
    WritePoll(h0.core, h.core);
    if intact {
      PollThenAck(h.core);
      assert p.core.tx[..|p.core.tx|] == p.out.bytes;
      AbandonedWriteIsStale(h.core);
    } else {
      DoomedPoll(h);
      DoomedIsStale(h, Step(h, DoPoll));
      DoomedIsStale(h, Step(Step(h, DoPoll), DoAck(|p.out.bytes|)));
    }
    if Stale(h0.core) {
      DoomedIsStale(h0, h);
      DoomedPoll(h);
      DoomedThrough(h0, h, Step(h, DoPoll));
      DoomedThrough(h0, h, Step(Step(h, DoPoll), DoAck(|p.out.bytes|)));
    }
  }

  /** Neither the poll that asks for a write nor the acknowledgement touches the command in flight. */
  lemma WritePoll(c0: Core, c: Core)
    requires Bounded(c) && PollOnce(c).out.NeedTx? && SameFlight(c0, c)
    ensures var p := PollOnce(c);
      && Bounded(p.core)
      && var d := AckTx(p.core, |p.out.bytes|);
      && SameFlight(c0, p.core) && SameFlight(c0, d)
      && (Wary(c) ==> Wary(p.core) && Wary(d))
  {
    hide PollOnce;
    PollTx(c);
    PollShrinks(c);
    WarySteps(PollOnce(c).core, Ping, [], |PollOnce(c).out.bytes|);
  }

  /** The radio has answered. */
  predicate Settled(r: Outcome<Response>) {
    r.Done? || r.failure.Radio?
  }

  lemma SubmittedHistory(h: Hist, cmd: Command)
    requires Bounded(h.core) && !h.crashed
    ensures var h', (core, r) := Step(h, DoSubmit(cmd)), Submit(h.core, cmd);
      && h'.outs == h.outs && h'.acked == h.acked && h'.core == core && h'.accepted == h.accepted
      && h'.commands == (if r.Success? then h.commands + [cmd] else h.commands)
      && (Standing(h.core, true) ==> Standing(core, true)) && (Standing(h.core, false) ==> Standing(core, false))
      && (r.Success? ==> InFlight(core) == Some(KindOf(cmd)) && Wary(core) && (Mute(core) <==> !cmd.FactoryReset?))
  {
    hide CommandLine.Line;
    if Clean(h.core) {
      OtherStepsKeepTidy(h.core, cmd, [], 0);
    }
  }

  lemma PumpedCall(h0: Hist, h: Hist, cmd: Command, wasIntact: bool, intact: bool, answer: Option<Response>)
    requires InFlight(h0.core) == Some(KindOf(cmd)) && Wary(h0.core) && (Mute(h0.core) <==> !cmd.FactoryReset?)
    requires Pumped(h0, h, wasIntact, intact, response => Want(KindOf(cmd), response), answer)
    ensures h.commands == h0.commands
    ensures answer.Some? ==> |h.outs| > |h0.outs| && h.outs[|h.outs| - 1] == Responded(answer.value)
    ensures answer.Some? ==> h.core.state.Idle?
    ensures answer.None? ==> NoResponse(h0.outs, h.outs)
    ensures !h.core.state.Idle? ==> InFlight(h.core) == Some(KindOf(cmd))
    ensures Standing(h0.core, false) && answer.Some? ==> cmd.FactoryReset? && answer == Some(Ok)
  {
  }

  lemma CommandsSettled(ops: seq<Op>)
    ensures var h := Run(ops); |h.commands| == RepliesTaken(h) + (if h.core.state.Idle? then 0 else 1)
  {
    hide Run, Replay;
    SlotAccounting(ops);
  }

  /** Between two clean points with nothing queued exactly the line of the one command has been released. */
  lemma AllWritten(before: seq<Op>, after: seq<Op>, cmd: Command)
    requires Run(after).commands == Run(before).commands + [cmd]
    requires Standing(Run(before).core, true) && Run(before).core.state.Idle?
    requires Standing(Run(after).core, true) && Chunking.HandedOut(Run(after).core)
    ensures Run(after).core.tx == [] && Run(after).acked == Run(before).acked + CommandLine.Line(cmd)
  {
    hide Run, CommandLine.Line, CommandLine.Stream;
    TxConservation(before);
    TxConservation(after);
    StreamAppend(Run(before).commands, cmd);
    assert Run(before).acked + [] == Run(before).acked;
    assert Run(after).acked + [] == Run(after).acked;
  }

  lemma PumpedFlight(h0: Hist, h: Hist, wasIntact: bool, intact: bool,
                     want: Response -> Option<Outcome<Response>>, answer: Option<Response>)
    requires Pumped(h0, h, wasIntact, intact, want, answer)
    ensures SameFlight(h0.core, h.core) && h.commands == h0.commands
  {
  }

  // ---- What the log shows ---------------------------------------------------------

  /** The next poll panics. */
  ghost predicate Panics(log: seq<Op>) {
    PollOnce(Run(log).core).out.Crash?
  }

  /** The last thing done was a poll that found nothing to do. */
  ghost predicate PolledIdle(log: seq<Op>) {
    log != [] && log[|log| - 1] == DoPoll && PollOnce(Run(log[..|log| - 1]).core).out.Idle?
  }

  /** So it was before the last read. */
  ghost predicate CaughtUp(log: seq<Op>) {
    PolledIdle(log) || (log != [] && log[|log| - 1].DoPush? && PolledIdle(log[..|log| - 1]))
  }

  lemma PanicsNow(log: seq<Op>)
    requires PollOnce(Run(log).core).out.Crash?
    ensures Panics(log)
  {
  }

  lemma IdleAtLast(log: seq<Op>)
    requires PollOnce(Run(log).core).out.Idle?
    ensures PolledIdle(log + [DoPoll])
  {
    hide PollOnce, Run;
    assert (log + [DoPoll])[..|log|] == log;
  }

  lemma CaughtUpStill(log: seq<Op>, bytes: seq<u8>)
    requires PolledIdle(log)
    ensures CaughtUp(log) && CaughtUp(log + [DoPush(bytes)])
  {
    hide PolledIdle;
    assert (log + [DoPush(bytes)])[..|log|] == log;
  }

  function Since(before: seq<Poll>, after: seq<Poll>): seq<Poll> {
    if |before| <= |after| then after[|before|..] else []
  }

  /** What is left of the loop that polls until the first `Idle` is the same loop from here on. */
  ghost predicate Pumping(start: Core, outs: seq<Poll>, h: Hist) {
    Chunking.HandedOut(start) ==>
      && Chunking.HandedOut(h.core) && |outs| <= |h.outs|
      && Chunking.PumpIdle(start) == Chunking.Then(Since(outs, h.outs), Chunking.PumpIdle(h.core))
  }

  /** The loop is over. */
  ghost predicate PumpedIdle(start: Core, outs: seq<Poll>, h: Hist, dead: bool) {
    Chunking.HandedOut(start) ==>
      Chunking.PumpIdle(start) == if dead then Chunking.Crashed else Chunking.Drained(h.core, Since(outs, h.outs))
  }

  lemma PumpingStart(h: Hist)
    ensures Pumping(h.core, h.outs, h)
  {
    hide Chunking.PumpIdle;
    assert h.outs[|h.outs|..] == [];
    if Chunking.HandedOut(h.core) {
      Chunking.ThenThen([], [], Chunking.PumpIdle(h.core));
    }
  }

  lemma PumpingNot(start: Core, outs: seq<Poll>, h: Hist)
    requires !Chunking.HandedOut(start)
    ensures Pumping(start, outs, h)
  {
  }

  lemma PumpingPoll(start: Core, outs: seq<Poll>, h: Hist)
    requires Bounded(h.core) && !h.crashed && Pumping(start, outs, h)
    ensures var p, h' := PollOnce(h.core), Step(h, DoPoll);
      && (p.out.NeedTx? ==> !Chunking.HandedOut(start))
      && (p.out.Crash? ==> PumpedIdle(start, outs, h, true))
      && (Surfaced(p.out) ==> Pumping(start, outs, h'))
      && (p.out.Idle? ==> PumpedIdle(start, outs, h', false))
  {
    hide PollOnce, Step;
    Measure(h.core);
    var p, h' := PollOnce(h.core), Step(h, DoPoll);
    if Chunking.HandedOut(start) && !p.out.Crash? {
      PolledHistory(h);
      if Surfaced(p.out) {
        Chunking.ThenThen(Since(outs, h.outs), [p.out], Chunking.PumpIdle(h'.core));
        assert Since(outs, h'.outs) == Since(outs, h.outs) + [p.out];
      } else {
        assert h.outs + [] == h.outs;
        assert Since(outs, h.outs) + [] == Since(outs, h.outs);
      }
    }
  }

  class Blocking {
    const driver: Driver.Driver
    const port: Port
    var events: seq<Event>

    /** Events already returned to the caller. */
    ghost var returned: seq<Event>
    /** No write has been abandoned half way. */
    ghost var intact: bool
    /** No read has overflowed the receive buffer. */
    ghost var lossless: bool
    /** A poll has panicked. */
    ghost var dead: bool

    ghost function History(): (h: Hist)
      reads driver, driver.rx, driver.tx
    {
      Run(driver.log)
    }

    /** Events returned, then queued, are those polled, in order; the driver took in what the port gave, while no
        read has overflowed; and while no write was abandoned the slot is clean and what the port took is
        what the driver released. */
    ghost predicate Valid()
      reads this, driver, driver.rx, driver.tx, port
    {
      && !dead && driver.Valid() && port.Valid()
      && returned + events == EventsIn(History().outs)
      && Standing(driver.Now(), intact) && (intact ==> port.written == History().acked)
      && (lossless ==> port.taken == History().accepted)
    }

    constructor (port: Port)
      requires port.Valid() && port.written == [] && port.taken == []
      ensures Valid() && intact && lossless && events == [] && returned == [] && this.port == port
      ensures fresh(driver) && fresh(driver.rx) && fresh(driver.tx) && fresh(driver.lineBuf)
      ensures driver.Now() == FRESH
    {
      driver := new Driver.Driver();
      this.port := port;
      events, returned := [], [];
      intact, lossless, dead := true, true, false;
    }

    /** The write that a poll has asked for, and its acknowledgement. */
    method Write(bytes: seq<u8>, ghost h0: Hist, ghost h: Hist, ghost want: Response -> Option<Outcome<Response>>)
      returns (ok: bool)
      requires !dead && driver.Valid() && port.Valid()
      requires Bounded(h.core) && !h.crashed && PollOnce(h.core).out == NeedTx(bytes) && History() == Step(h, DoPoll)
      requires Pumped(h0, h, intact, intact, want, None) && Standing(h.core, intact)
      requires returned + events == EventsIn(h.outs) && (intact ==> port.written == h.acked)
      requires lossless ==> port.taken == h.accepted
      modifies this`intact, driver, driver.tx, port
      ensures Valid() && Pumped(h0, History(), old(intact), intact, want, None)
      ensures if ok then intact == old(intact) else !intact
      ensures driver.txLen == driver.inFlight && driver.rxLen == old(driver.rxLen) && old(driver.log) <= driver.log
      ensures port.ticks == old(port.ticks) && port.readCount == old(port.readCount)
      ensures port.writeCount == old(port.writeCount) + 1 && ok == port.outgoing(old(port.writeCount))
    {
      hide PollOnce, Run, Standing, EventsIn, Pumped, Step;
      PumpAck(h0, h, intact, want);
      PolledHistory(h);
      Measure(h.core);
      ok := port.WriteAll(bytes);
      if ok {
        Driver.RunMore(driver.log, DoAck(|bytes|));
        driver.AckTx(|bytes|);
      } else {
        intact := false;
      }
    }

    /** The inner loop: poll until there is nothing to do, writing, queueing and offering responses; `h0` is
        when the pumping began. */
    method DrainDriver(want: Response -> Option<Outcome<Response>>, ghost h0: Hist)
      returns (r: Option<Outcome<Response>>, ghost answer: Option<Response>)
      requires Valid() && Pumped(h0, History(), intact, intact, want, None)
      modifies this`events, this`intact, this`dead, driver, driver.rx, driver.tx, driver.lineBuf, port
      ensures dead ==> r == Some(Failed(Panicked)) && answer.None?
      ensures !dead ==> Valid() && Pumped(h0, History(), old(intact), intact, want, answer)
      ensures port.Valid() && port.ticks == old(port.ticks) && returned == old(returned)
      ensures port.readCount == old(port.readCount) && port.writeCount >= old(port.writeCount)
      ensures answer.Some? ==> r == want(answer.value) && r.Some?
      ensures answer.None? && r.Some? && !dead ==>
        r == Some(Failed(Io)) && port.FailedSince(port.readCount, old(port.writeCount))
      ensures intact ==> old(intact)
      ensures !dead && old(intact) && !intact ==> r == Some(Failed(Io))
      // All there was to write has been handed out, and the last poll found nothing to do.
      ensures old(driver.log) <= driver.log && (dead ==> Panics(driver.log))
      ensures !dead ==> driver.inFlight == driver.txLen
      ensures !dead && r.None? ==> |driver.log| > |old(driver.log)| && PolledIdle(driver.log)
      // With nothing to write it is the loop that polls until the first `Idle`.
      ensures old(driver.inFlight == driver.txLen) ==> port.writeCount == old(port.writeCount)
      ensures dead || r.None? ==> PumpedIdle(old(driver.Now()), old(History().outs), History(), dead)
    {
      hide PollOnce, Run, Standing, EventsIn, Pumped, Step, Pumping, PumpedIdle, PolledIdle, Panics;
      hide Driver.Driver.Valid, Driver.Driver.Now, Driver.Driver.Shaped, Port.Valid, Bounded;
      driver.Facts();
      ghost var start, outs := driver.Now(), History().outs;
      PumpingStart(History());
      while true
        invariant Valid() && returned == old(returned) && intact == old(intact)
        invariant Pumped(h0, History(), intact, intact, want, None)
        invariant port.ticks == old(port.ticks) && old(driver.log) <= driver.log
        invariant port.readCount == old(port.readCount) && port.writeCount >= old(port.writeCount)
        invariant Chunking.HandedOut(start) ==> port.writeCount == old(port.writeCount)
        invariant Pumping(start, outs, History())
        decreases driver.txLen - driver.inFlight, driver.rxLen
      {
        ghost var h, before := History(), driver.log;
        driver.Facts();
        Measure(h.core);
        PumpingPoll(start, outs, h);
        Driver.RunMore(before, DoPoll);
        var out := driver.Poll();
        if out.Crash? {
          PanicsNow(before);
          dead := true;
          return Some(Failed(Panicked)), None;
        }
        driver.Facts();
        if out.NeedTx? {
          var ok := Write(out.bytes, h0, h, want);
          if !ok {
            return Some(Failed(Io)), None;
          }
          PumpingNot(start, outs, History());
        } else {
          PumpPoll(h0, h, intact, want);
          match out {
            case Responded(response) =>
              var wanted := want(response);
              if wanted.Some? {
                return wanted, Some(response);
              }
            case Noticed(e) =>
              events := events + [e];
            case _ =>
              IdleAtLast(before);
              return None, None;
          }
        }
      }
    }

    /** Read what the port has and push it, then look at the clock; read timeouts are no failure. */
    method ReadOnce(deadline: int, ghost want: Response -> Option<Outcome<Response>>, ghost h0: Hist)
      returns (failure: Option<Failure>)
      requires Valid() && Pumped(h0, History(), intact, intact, want, None) && PolledIdle(driver.log)
      modifies this`lossless, driver, driver.rx, port
      ensures Valid() && Pumped(h0, History(), intact, intact, want, None)
      ensures port.ticks <= old(port.ticks) + 1
      ensures driver.inFlight == old(driver.inFlight) && driver.txLen == old(driver.txLen)
      ensures old(driver.log) <= driver.log && CaughtUp(driver.log)
      ensures lossless == (old(lossless) && failure != Some(Protocol(RxOverflow)))
      ensures port.readCount == old(port.readCount) + 1 && port.writeCount == old(port.writeCount)
      ensures failure.None? ==> port.ticks == old(port.ticks) + 1 && port.clock(old(port.ticks)) < deadline
      ensures failure == Some(Timeout) ==> port.ticks == old(port.ticks) + 1 && port.clock(old(port.ticks)) >= deadline
      ensures failure.Some? ==> GaveUp(failure.value)
      ensures failure == Some(Io) ==> port.incoming(old(port.readCount)).Broken?
      ensures failure == Some(Protocol(RxOverflow)) ==> driver.rxLen == RX_BUF
    {
      hide PollOnce, Run, Standing, EventsIn, Pumped, Step, PolledIdle, CaughtUp;
      CaughtUpStill(driver.log, []);
      var read := port.ReadSome();
      match read {
        case Got(bytes) =>
          PumpPush(h0, History(), intact, want, bytes);
          Driver.RunMore(driver.log, DoPush(bytes));
          CaughtUpStill(driver.log, bytes);
          var pushed := driver.PushRx(bytes);
          if pushed.Failure? {
            lossless := false;
            return Some(Protocol(pushed.error));
          }
        case NoData =>
        case Broken =>
          return Some(Io);
      }
      var now := port.Now();
      return if now >= deadline then Some(Timeout) else None;
    }

    /** One round of pumping: the inner loop, a read and a look at the clock. */
    method Round(deadline: int, want: Response -> Option<Outcome<Response>>, ghost h0: Hist)
      returns (r: Option<Outcome<Response>>, ghost answer: Option<Response>)
      requires Valid() && Pumped(h0, History(), intact, intact, want, None)
      modifies this`events, this`intact, this`lossless, this`dead
      modifies driver, driver.rx, driver.tx, driver.lineBuf, port
      ensures dead ==> r == Some(Failed(Panicked)) && answer.None? && Panics(driver.log)
      ensures !dead ==>
        Valid() && Pumped(h0, History(), old(intact), intact, want, answer) && driver.inFlight == driver.txLen
      ensures returned == old(returned) && old(driver.log) <= driver.log && port.writeCount >= old(port.writeCount)
      ensures answer.Some? ==> r.Some? && r == want(answer.value)
      ensures answer.None? && r.Some? ==> dead || (r.value.Failed? && GaveUp(r.value.failure))
      ensures r.None? ==> answer.None? && !dead && intact == old(intact) && port.clock(old(port.ticks)) < deadline
      ensures answer.None? && r == Some(Failed(Timeout)) ==>
        port.clock(old(port.ticks)) >= deadline && CaughtUp(driver.log)
      ensures r.None? || (answer.None? && r == Some(Failed(Timeout))) ==>
        port.ticks == old(port.ticks) + 1 && port.readCount == old(port.readCount) + 1
      ensures lossless == (old(lossless) && !(answer.None? && r == Some(Failed(Protocol(RxOverflow)))))
      ensures answer.None? && r == Some(Failed(Io)) ==> port.FailedSince(old(port.readCount), old(port.writeCount))
      ensures answer.None? && r == Some(Failed(Protocol(RxOverflow))) ==> driver.rxLen == RX_BUF
      ensures intact ==> old(intact)
      ensures !dead && old(intact) && !intact ==> r == Some(Failed(Io))
    {
      hide PollOnce, Run, Standing, EventsIn, Pumped, Step, PumpedIdle, PolledIdle, CaughtUp, Panics, Valid, Port.Valid;
      hide Driver.Driver.Valid, Driver.Driver.Now, Driver.Driver.Shaped, Bounded;
      var drained;
      drained, answer := DrainDriver(want, h0);
      if drained.Some? {
        return drained, answer;
      }
      var failure := ReadOnce(deadline, want, h0);
      return if failure.Some? then Some(Failed(failure.value)) else None, None;
    }

    /** Pump the driver and the port until a response is wanted, the port fails or the deadline has passed. It
        returns for every behaviour of the port. */
    method PumpUntil(deadline: int, want: Response -> Option<Outcome<Response>>)
      returns (r: Outcome<Response>, ghost answer: Option<Response>)
      requires Valid() && port.Passes(deadline, port.ticks)
      modifies this`events, this`intact, this`lossless, this`dead
      modifies driver, driver.rx, driver.tx, driver.lineBuf, port
      ensures dead ==> r == Failed(Panicked) && answer.None? && Panics(driver.log)
      ensures !dead ==> Valid() && Pumped(old(History()), History(), old(intact), intact, want, answer)
      ensures returned == old(returned)
      ensures answer.Some? ==> want(answer.value) == Some(r)
      ensures answer.None? ==> dead || (r.Failed? && GaveUp(r.failure))
      // On a timeout the deadline has passed, each look at the clock came after a read, and all but the last
      // read has been polled.
      ensures answer.None? && r == Failed(Timeout) ==>
        && port.ticks > old(port.ticks) && port.clock(port.ticks - 1) >= deadline
        && port.StillBefore(deadline, old(port.ticks), port.ticks - 1)
        && port.readCount - old(port.readCount) == port.ticks - old(port.ticks) && CaughtUp(driver.log)
      ensures old(driver.log) <= driver.log && (!dead ==> driver.inFlight == driver.txLen)
      ensures lossless == (old(lossless) && !(answer.None? && r == Failed(Protocol(RxOverflow))))
      ensures answer.None? && r == Failed(Io) ==> port.FailedSince(old(port.readCount), old(port.writeCount))
      ensures answer.None? && r == Failed(Protocol(RxOverflow)) ==> driver.rxLen == RX_BUF
      ensures intact ==> old(intact)
      ensures !dead && old(intact) && !intact ==> r == Failed(Io)
    {
      hide PollOnce, Run, Standing, EventsIn, Pumped, Step, PumpedIdle, PolledIdle, CaughtUp, Panics, Valid, Port.Valid;
      hide Driver.Driver.Valid, Driver.Driver.Now, Driver.Driver.Shaped, Bounded;
      ghost var h0 := History();
      PumpedStart(h0, intact, want);
      ghost var last: nat :| last >= port.ticks && port.clock(last) >= deadline;
      hide Port.StillBefore, Port.Passes;
      port.StillBeforeNone(deadline, port.ticks);
      while true
        invariant Valid() && returned == old(returned) && intact == old(intact)
        invariant Pumped(h0, History(), intact, intact, want, None)
        invariant old(port.ticks) <= port.ticks <= last
        invariant port.readCount - old(port.readCount) == port.ticks - old(port.ticks)
        invariant port.writeCount >= old(port.writeCount) && old(driver.log) <= driver.log
        invariant lossless == old(lossless) && port.StillBefore(deadline, old(port.ticks), port.ticks)
        decreases last - port.ticks
      {
        var round;
        round, answer := Round(deadline, want, h0);
        if round.Some? {
          r := round.value;
          return;
        }
        port.StillBeforeOneMore(deadline, old(port.ticks), port.ticks - 1);
      }
    }

    /** A command method: submit, then pump for the reply. */
    method Call(cmd: Command) returns (r: Outcome<Response>)
      requires Valid() && port.TimePasses()
      modifies this`events, this`intact, this`lossless, this`dead
      modifies driver, driver.rx, driver.tx, driver.lineBuf, port
      ensures dead ==> r == Failed(Panicked) && Panics(driver.log)
      ensures !dead ==> Valid()
      ensures returned == old(returned) && old(driver.log) <= driver.log
      // A refused command changes nothing but the record of the attempt.
      ensures old(Submit(driver.Now(), cmd).1).Failure? ==>
        && !dead && r == Failed(Protocol(old(Submit(driver.Now(), cmd).1).error))
        && driver.Now() == old(Submit(driver.Now(), cmd).0)
        && events == old(events) && port.written == old(port.written)
      // A value is of the variant the command asks for.
      ensures r.Done? ==> ReplyTo(cmd, r.value) && !r.value.Err?
      // The value or error code is that of the response surfaced last.
      ensures !dead && Settled(r) ==>
        && |History().outs| > |old(History().outs)|
        && History().outs[|History().outs| - 1] == Responded(if r.Done? then r.value else Err(r.failure.code))
      // Once the radio has answered, the next command is not refused as busy.
      ensures !dead && Settled(r) ==> driver.Now().state.Idle?
      // The command has been written whole, and nothing else, unless a write failed.
      ensures !dead && intact && old(Submit(driver.Now(), cmd).1).Success? ==>
        driver.Now().tx == [] && port.written == old(port.written) + CommandLine.Line(cmd)
      // It gives up only when the time is over, the port fails or the receive buffer overflows.
      ensures !dead && old(Submit(driver.Now(), cmd).1).Success? && !Settled(r) ==>
        GaveUp(r.failure)
      ensures !dead && r == Failed(Timeout) ==>
        var deadline := port.clock(old(port.ticks)) + if cmd.FactoryReset? then 4000 else 1000;
        && port.ticks > old(port.ticks) + 1 && port.clock(port.ticks - 1) >= deadline
        && port.StillBefore(deadline, old(port.ticks) + 1, port.ticks - 1) && CaughtUp(driver.log)
      ensures !dead && r == Failed(Io) ==> port.FailedSince(old(port.readCount), old(port.writeCount))
      ensures !dead && r == Failed(Protocol(RxOverflow)) ==> driver.rxLen == RX_BUF
      ensures lossless == (old(lossless) && r != Failed(Protocol(RxOverflow)))
      // If it has not, no response has been surfaced, and so none was thrown away.
      ensures !dead && !Settled(r) ==> NoResponse(old(History().outs), History().outs)
      // Once a write has failed, nothing but a reset is ever answered again.
      ensures !dead && !old(intact) && Settled(r) ==> cmd.FactoryReset? && r == Done(Ok)
      // An accepted command has left its slot exactly if its reply has been taken, readable or not.
      ensures !dead && old(Submit(driver.Now(), cmd).1).Success? ==>
        && (driver.Now().state.Idle? || InFlight(driver.Now()) == Some(KindOf(cmd)))
        && RepliesTaken(History()) == old(RepliesTaken(History())) + (if driver.Now().state.Idle? then 1 else 0)
    {
      hide PollOnce, Run, EventsIn, Step, Pumped, Answers, ReplyTo, CommandLine.Line, RepliesTaken, CaughtUp, Panics;
      hide Standing, Wary, Mute, Bounded, Port.Valid, Port.StillBefore;
      hide Driver.Driver.Valid, Driver.Driver.Now, Driver.Driver.Shaped;
      driver.Facts();
      SubmittedHistory(History(), cmd);
      CommandsSettled(driver.log);
      Driver.RunMore(driver.log, DoSubmit(cmd));
      var submitted := driver.Submit(cmd);
      if submitted.Failure? {
        return Failed(Protocol(submitted.error));
      }
      driver.Facts();
      ghost var h := History();
      var now := port.Now();
      assert port.Passes(now + TimeoutFor(cmd), port.ticks);
      ghost var answer;
      r, answer := PumpUntil(now + TimeoutFor(cmd), response => Want(KindOf(cmd), response));
      if !dead {
        driver.Facts();
        PumpedCall(h, History(), cmd, old(intact), intact, answer);
        CommandsSettled(driver.log);
        if intact {
          AllWritten(old(driver.log), driver.log, cmd);
        }
      }
      if r.Done? {
        KindAsksForReply(cmd, r.value);
      }
    }

    /** The next unsolicited event: the oldest one queued, or the oldest that arrives before the deadline. It
        returns a queued one at once; otherwise it pumps until the deadline, however many arrive, unless the
        port fails or the receive buffer overflows. A reply that comes meanwhile frees the slot unseen. */
    method NextEvent(timeout: int) returns (r: Outcome<Event>, ghost gaveUp: bool)
      requires Valid() && port.TimePasses()
      modifies this`events, this`returned, this`intact, this`lossless, this`dead
      modifies driver, driver.rx, driver.tx, driver.lineBuf, port
      ensures dead ==> r == Failed(Panicked) && Panics(driver.log)
      ensures !dead ==> Valid()
      ensures r.Done? ==> returned == old(returned) + [r.value]
      ensures r.Failed? ==> returned == old(returned)
      ensures !dead && r.Failed? ==> r == Failed(Timeout) && events == []
      ensures old(events) != [] ==>
        r == Done(old(events)[0]) && events == old(events)[1..] && driver.log == old(driver.log) && !gaveUp
      ensures old(events) == [] && !dead && !gaveUp ==>
        && port.ticks > old(port.ticks) + 1 && port.clock(port.ticks - 1) >= port.clock(old(port.ticks)) + timeout
        && port.StillBefore(port.clock(old(port.ticks)) + timeout, old(port.ticks) + 1, port.ticks - 1)
        && CaughtUp(driver.log) && old(driver.log) <= driver.log
      ensures old(lossless) && !gaveUp ==> lossless
      ensures gaveUp ==> port.FailedSince(old(port.readCount), old(port.writeCount)) || driver.rxLen == RX_BUF
      ensures !dead ==>
        SameFlight(old(driver.Now()), driver.Now()) && History().commands == old(History()).commands
    {
      hide PollOnce, Run, EventsIn, Step, Pumped, Standing, CaughtUp, Panics;
      hide Port.Valid, Port.StillBefore, Driver.Driver.Valid, Driver.Driver.Now, Driver.Driver.Shaped, Bounded;
      driver.Facts();
      gaveUp := false;
      if events == [] {
        ghost var h := History();
        var now := port.Now();
        assert port.Passes(now + timeout, port.ticks);
        ghost var answer;
        var ignored;
        ignored, answer := PumpUntil(now + timeout, _ => None);
        if ignored == Failed(Panicked) {
          return Failed(Panicked), false;
        }
        driver.Facts();
        gaveUp := ignored != Failed(Timeout);
        PumpedFlight(h, History(), old(intact), intact, _ => None, answer);
      }
      if events == [] {
        return Failed(Timeout), gaveUp;
      }
      r := Done(events[0]);
      assert returned + events == (returned + [events[0]]) + events[1..];
      returned, events := returned + [events[0]], events[1..];
    }
  }

  /** At any time the events returned to the caller, then those queued, are what the lines taken from the port
      say, in order; among them the packets are those of the `+RCV` lines. */
  lemma NoEventMissed(radio: Blocking)
    requires radio.Valid()
    ensures radio.returned + radio.events == Heard(START, radio.History().items)
    ensures PacketsAmong(radio.returned + radio.events) == Packets(LinesOf(radio.History().items))
  {
    hide Run, Heard, Standing, Packets, LinesOf, PacketsAmong;
    RunReportsEvents(radio.driver.log);
    RunReportsPackets(radio.driver.log);
  }

  /** And while no read has overflowed, these lines and what is still buffered are all the port gave. */
  lemma AllReadIsKept(radio: Blocking)
    requires radio.Valid() && radio.lossless
    ensures radio.port.taken == Unlines(LinesOf(radio.History().items)) + radio.driver.Now().rx
  {
    hide Run, Standing, LinesOf, Unlines;
    RunRefinesLines(radio.driver.log);
  }

  /** While no write was abandoned, the port has taken the commands accepted so far, byte for byte and in
      order, except for what is still queued; nothing is queued once the driver is idle. */
  lemma PortTookCommands(radio: Blocking)
    requires radio.Valid() && radio.intact
    ensures CommandLine.Stream(radio.History().commands) == radio.port.written + radio.driver.Now().tx
    ensures radio.driver.Now().state.Idle? ==> CommandLine.Stream(radio.History().commands) == radio.port.written
  {
    hide Run, CommandLine.Stream;
    TxConservation(radio.driver.log);
  }
}
