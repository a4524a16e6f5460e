/** Whole runs of the driver: what was submitted, written, received and reported, and how the
    reports follow from a transition on whole lines that knows nothing of buffers or chunks. */
module History {
  import opened Bytes
  import opened Types
  import opened CommandLine
  import opened Decode
  import opened Framing
  import opened Machine

  // ---- The line-at-a-time specification --------------------------------------

  /** What the line level sees: a command began, its last byte was acknowledged, a line came in. */
  datatype Item =
    | Began(kind: AwaitKind, reset: bool)
    | Refused(reset: bool) // no room to transmit it, although no command was in flight
    | Sent
    | Got(line: seq<u8>)

  /** The command in flight, whether it is out, and whether `+READY` would answer it. */
  datatype Slot = Slot(inFlight: Option<AwaitKind>, sent: bool, ready: bool)

  const FREE: Slot := Slot(None, false, false)

  /** `begun` counts commands, `answered` and `lost` their replies that did and did not parse,
      `spurious` `+READY` lines taken as an answer with no command in flight, `stray` lines consumed
      although nobody waited for them. */
  datatype Spec = Spec(
    slot: Slot, outs: seq<Poll>, begun: nat, answered: nat, lost: nat, spurious: nat, stray: nat)

  const START: Spec := Spec(FREE, [], 0, 0, 0, 0, 0)

  function OnLine(s: Spec, line: seq<u8>): Spec {
    if s.slot.ready && RESET <= line then s
    else if s.slot.ready && line == READY then
      var freed := s.(slot := FREE, outs := s.outs + [Responded(Ok)]);
      if s.slot.inFlight.Some? then freed.(answered := s.answered + 1) else freed.(spurious := s.spurious + 1)
    else if IsEvent(line) then
      match ParseEvent(line)
      case Good(e) => s.(outs := s.outs + [Noticed(e)])
      case _ => s
    else if s.slot.sent && s.slot.inFlight.Some? && ResponseMatches(s.slot.inFlight.value, line) then
      match ParseResponse(line)
      case Good(r) => s.(slot := FREE, outs := s.outs + [Responded(r)], answered := s.answered + 1)
      case _ => s.(slot := FREE, lost := s.lost + 1)
    else s.(stray := s.stray + 1)
  }

  function OnItem(s: Spec, i: Item): Spec {
    match i
    case Began(kind, reset) => s.(slot := Slot(Some(kind), false, reset), begun := s.begun + 1)
    case Refused(reset) => s.(slot := s.slot.(ready := reset))
    case Sent => s.(slot := s.slot.(sent := true))
    case Got(line) => OnLine(s, line)
  }

  function Replay(s: Spec, items: seq<Item>): Spec
    decreases |items|
  {
    if items == [] then s else Replay(OnItem(s, items[0]), items[1..])
  }

  lemma {:induction false} ReplayAppend(s: Spec, a: seq<Item>, b: seq<Item>)
    ensures Replay(s, a + b) == Replay(Replay(s, a), b)
    decreases |a|
  {
    hide OnItem;
    if a == [] {
      assert a + b == b;
    } else {
      ReplayAppend(OnItem(s, a[0]), a[1..], b);
      assert (a + b)[1..] == a[1..] + b;
    }
  }

  function Gots(lines: seq<seq<u8>>): (items: seq<Item>)
    ensures |items| == |lines|
  {
    if lines == [] then [] else [Got(lines[0])] + Gots(lines[1..])
  }

  /** The lines among the items, in order. */
  function LinesOf(items: seq<Item>): seq<seq<u8>> {
    if items == [] then []
    else (if items[0].Got? then [items[0].line] else []) + LinesOf(items[1..])
  }

  lemma {:induction false} LinesOfAppend(a: seq<Item>, b: seq<Item>)
    ensures LinesOf(a + b) == LinesOf(a) + LinesOf(b)
  {
    if a == [] {
      assert a + b == b;
    } else {
      LinesOfAppend(a[1..], b);
      assert (a + b)[0] == a[0] && (a + b)[1..] == a[1..] + b;
      Associate(if a[0].Got? then [a[0].line] else [], LinesOf(a[1..]), LinesOf(b));
    }
  }

  lemma {:induction false} LinesOfGots(lines: seq<seq<u8>>)
    ensures LinesOf(Gots(lines)) == lines
  {
    if lines != [] {
      LinesOfGots(lines[1..]);
      assert Gots(lines)[1..] == Gots(lines[1..]);
    }
  }

  // ---- Runs --------------------------------------------------------------------

  datatype Op = DoSubmit(cmd: Command) | DoPush(bytes: seq<u8>) | DoAck(n: nat) | DoPoll

  datatype Hist = Hist(
    core: Core,
    commands: seq<Command>, // accepted by submit
    handed: seq<u8>,        // offered by polls for writing
    acked: seq<u8>,         // released by acknowledgements
    accepted: seq<u8>,      // taken in by push_rx, including the part kept on overflow
    items: seq<Item>,
    outs: seq<Poll>,        // responses and events surfaced by polls
    crashed: bool)          // a poll panicked; nothing happens after that

  const BEGINNING: Hist := Hist(FRESH, [], [], [], [], [], [], false)

  predicate Surfaced(p: Poll) { p.Responded? || p.Noticed? }

  function Surface(p: Poll): seq<Poll> {
    if Surfaced(p) then [p] else []
  }

  function Step(h: Hist, op: Op): Hist
    requires Bounded(h.core)
  {
    if h.crashed then h
    else
      match op
      case DoSubmit(cmd) => SubmitStep(h, cmd)
      case DoPush(bytes) =>
        h.(core := PushRx(h.core, bytes).0, accepted := h.accepted + bytes[..Room(h.core, bytes)])
      case DoAck(n) => AckStep(h, n)
      case DoPoll => PollStep(h)
  }

  function SubmitStep(h: Hist, cmd: Command): Hist {
    var (core, r) := Submit(h.core, cmd);
    if r.Success? then
      h.(core := core, commands := h.commands + [cmd],
         items := h.items + [Began(KindOf(cmd), cmd.FactoryReset?)])
    else if r.error == TxOverflow then
      h.(core := core, items := h.items + [Refused(cmd.FactoryReset?)])
    else h
  }

  function AckStep(h: Hist, n: nat): Hist
    requires Bounded(h.core)
  {
    var core := AckTx(h.core, n);
    h.(core := core, acked := h.acked + h.core.tx[..Acked(h.core, n)],
       items := if core.state == h.core.state then h.items else h.items + [Sent])
  }

  function PollStep(h: Hist): Hist {
    var p := PollOnce(h.core);
    if p.out.Crash? then h.(crashed := true)
    else
      h.(core := p.core,
         handed := if p.out.NeedTx? then h.handed + p.out.bytes else h.handed,
         items := h.items + Gots(p.eaten),
         outs := h.outs + Surface(p.out))
  }

  /** The slot as the line level sees it. */
  function SlotOf(c: Core): Slot {
    match c.state
    case Idle => Slot(None, false, c.readyAsOk)
    case SendingTx => Slot(c.pending, false, c.readyAsOk)
    case Awaiting(kind) => Slot(Some(kind), true, c.readyAsOk)
  }

  ghost predicate TxConserved(h: Hist) {
    && Stream(h.commands) == h.acked + h.core.tx
    && h.core.inFlight <= |h.core.tx|
    && h.handed == h.acked + h.core.tx[..h.core.inFlight]
  }

  ghost predicate RxConserved(h: Hist) {
    && h.accepted == Unlines(LinesOf(h.items)) + h.core.rx
    && Framable(LinesOf(h.items))
    && forall l <- LinesOf(h.items) :: |l| <= LINE_BUF
  }

  /** The outputs and the slot are those of the line-level specification. */
  ghost predicate Refines(h: Hist) {
    var s := Replay(START, h.items);
    s.slot == SlotOf(h.core) && s.outs == h.outs && s.stray == 0
  }

  predicate Plausible(c: Core) {
    Bounded(c) && (c.state.SendingTx? ==> c.pending.Some?)
  }

  ghost predicate Sound(h: Hist) {
    Plausible(h.core) && TxConserved(h) && RxConserved(h) && Refines(h)
  }

  lemma {:induction false} StreamAppend(cs: seq<Command>, c: Command)
    ensures Stream(cs + [c]) == Stream(cs) + Line(c)
  {
    hide Line;
    if cs == [] {
      assert cs + [c] == [c];
      assert Stream([c][1..]) == [];
    } else {
      StreamAppend(cs[1..], c);
      assert (cs + [c])[1..] == cs[1..] + [c];
      Associate(Line(cs[0]), Stream(cs[1..]), Line(c));
    }
  }

  lemma NewItem(h: Hist, i: Item)
    requires !i.Got?
    ensures LinesOf(h.items + [i]) == LinesOf(h.items)
    ensures Replay(START, h.items + [i]) == OnItem(Replay(START, h.items), i)
  {
    hide OnItem;
    LinesOfAppend(h.items, [i]);
    assert LinesOf([i]) == [];
    ReplayAppend(START, h.items, [i]);
    assert [i][1..] == [];
  }

  lemma SubmitSound(h: Hist, cmd: Command)
    requires Sound(h)
    ensures Sound(SubmitStep(h, cmd))
  {
    hide Line, Replay, LinesOf, Stream;
    var (core, r) := Submit(h.core, cmd);
    if r.Success? {
      NewItem(h, Began(KindOf(cmd), cmd.FactoryReset?));
      StreamAppend(h.commands, cmd);
      Associate(h.acked, h.core.tx, Line(cmd));
      assert core.tx[..core.inFlight] == h.core.tx[..h.core.inFlight];
    } else if r.error == TxOverflow {
      NewItem(h, Refused(cmd.FactoryReset?));
    }
  }

  lemma PushSound(h: Hist, bytes: seq<u8>)
    requires Sound(h) && !h.crashed
    ensures Sound(Step(h, DoPush(bytes)))
  {
    hide Replay, LinesOf, Stream;
    Associate(Unlines(LinesOf(h.items)), h.core.rx, bytes[..Room(h.core, bytes)]);
  }

  lemma AckSound(h: Hist, n: nat)
    requires Sound(h)
    ensures Sound(AckStep(h, n))
  {
    hide Replay, LinesOf, Stream;
    var c, m := h.core, Acked(h.core, n);
    var core := AckTx(c, n);
    assert c.tx == c.tx[..m] + c.tx[m..];
    Associate(h.acked, c.tx[..m], c.tx[m..]);
    assert c.tx[..c.inFlight] == c.tx[..m] + c.tx[m..][..c.inFlight - m];
    Associate(h.acked, c.tx[..m], c.tx[m..][..c.inFlight - m]);
    if core.state != c.state {
      NewItem(h, Sent);
    }
  }

  lemma JudgeRefines(c: Core, s: Spec, line: seq<u8>, drained: Core)
    requires Plausible(c) && s.slot == SlotOf(c) && drained == c.(rx := drained.rx)
    requires !(c.readyAsOk && RESET <= line)
    requires !Judge(c, line, drained).out.Crash?
    ensures var p := Judge(c, line, drained); var t := if p.eaten == [] then s else OnLine(s, line);
      t.slot == SlotOf(p.core) && t.outs == s.outs + Surface(p.out) && t.stray == s.stray
  {
    hide ParseEvent, ParseResponse, ResponseMatches;
    assert s.outs + [] == s.outs;
  }

  /** One poll does to the slot and the outputs what the lines it ate do, one after another. */
  lemma {:induction false} PollRefines(c: Core, s: Spec)
    requires Plausible(c) && s.slot == SlotOf(c)
    requires !PollOnce(c).out.Crash?
    ensures var p := PollOnce(c); var t := Replay(s, Gots(p.eaten));
      t.slot == SlotOf(p.core) && t.outs == s.outs + Surface(p.out) && t.stray == s.stray
    decreases |c.rx|
  {
    hide PollOnce, Judge, SlotOf, OnLine, NextLineEnd;
    assert s.outs + [] == s.outs;
    var p := PollOnce(c);
    if c.inFlight >= |c.tx| && NextLineEnd(c.rx).Some? {
      var end := NextLineEnd(c.rx).value;
      var line, drained := c.rx[..end], c.(rx := c.rx[end + 2..]);
      PollHead(c, end);
      if c.readyAsOk && RESET <= line {
        SameSlot(c, drained);
        PollRefines(drained, s);
        assert p.eaten[1..] == PollOnce(drained).eaten;
        assert Gots(p.eaten)[1..] == Gots(p.eaten[1..]);
        SwallowedLine(s, line);
      } else {
        JudgeRefines(c, s, line, drained);
        JudgeEats(c, line, drained);
        OneGot(s, line);
      }
    } else {
      PollNoLine(c);
      SameSlot(c, p.core);
    }
  }

  lemma JudgeEats(c: Core, line: seq<u8>, drained: Core)
    ensures Judge(c, line, drained).eaten == [] || Judge(c, line, drained).eaten == [line]
  {
    hide ParseEvent, ParseResponse, ResponseMatches, IsEvent;
  }

  lemma SwallowedLine(s: Spec, line: seq<u8>)
    requires s.slot.ready && RESET <= line
    ensures OnLine(s, line) == s
  {
  }

  lemma SameSlot(c: Core, d: Core)
    requires d == c.(rx := d.rx, inFlight := d.inFlight)
    ensures SlotOf(d) == SlotOf(c) && SlotOf(c).ready == c.readyAsOk
  {
  }

  lemma OneGot(s: Spec, line: seq<u8>)
    ensures Replay(s, Gots([line])) == OnLine(s, line)
  {
    hide OnLine;
    assert Gots([line]) == [Got(line)] by { assert [line][1..] == []; }
    assert [Got(line)][1..] == [];
  }

  lemma {:induction false} PollPlausible(c: Core)
    requires Plausible(c)
    ensures Plausible(PollOnce(c).core)
    decreases |c.rx|
  {
    hide ParseEvent, ParseResponse, ResponseMatches, NextLineEnd, IsEvent;
    if NextLineEnd(c.rx).Some? {
      PollPlausible(c.(rx := c.rx[NextLineEnd(c.rx).value + 2..]));
    }
  }

  lemma PollSound(h: Hist)
    requires Sound(h)
    ensures Sound(PollStep(h))
  {
    hide Replay, LinesOf, Stream, PollOnce, SlotOf;
    var p := PollOnce(h.core);
    if !p.out.Crash? {
      var s := Replay(START, h.items);
      PollRefines(h.core, s);
      PollPlausible(h.core);
      ReplayAppend(START, h.items, Gots(p.eaten));
      LinesOfAppend(h.items, Gots(p.eaten));
      LinesOfGots(p.eaten);
      PollEats(h.core);
      UnlinesAppend(LinesOf(h.items), p.eaten);
      Associate(Unlines(LinesOf(h.items)), Unlines(p.eaten), p.core.rx);
      PollHandsOut(h);
    }
  }

  lemma PollHandsOut(h: Hist)
    requires TxConserved(h) && Bounded(h.core)
    ensures TxConserved(PollStep(h))
  {
    hide PollOnce, Stream;
    var c := h.core;
    PollTx(c);
    assert c.tx == c.tx[..c.inFlight] + c.tx[c.inFlight..];
    Associate(h.acked, c.tx[..c.inFlight], c.tx[c.inFlight..]);
    assert c.tx[..|c.tx|] == c.tx;
  }

  lemma StepSound(h: Hist, op: Op)
    requires Sound(h)
    ensures Sound(Step(h, op))
  {
    hide Sound, SubmitStep, AckStep, PollStep;
    if !h.crashed {
      match op
      case DoSubmit(cmd) => SubmitSound(h, cmd);
      case DoPush(bytes) => PushSound(h, bytes);
      case DoAck(n) => AckSound(h, n);
      case DoPoll => PollSound(h);
    }
  }

  // ---- Theorems about every run --------------------------------------------------

  function Run(ops: seq<Op>): (h: Hist)
    ensures Bounded(h.core)
  {
    if ops == [] then BEGINNING
    else
      var h := Run(ops[..|ops| - 1]);
      StepBounded(h, ops[|ops| - 1]);
      Step(h, ops[|ops| - 1])
  }

  lemma StepBounded(h: Hist, op: Op)
    requires Bounded(h.core)
    ensures Bounded(Step(h, op).core)
  {
    hide PollOnce, Line;
    PollTx(h.core);
    PollShrinks(h.core);
  }

  lemma {:induction false} RunSound(ops: seq<Op>)
    ensures Sound(Run(ops))
  {
    hide Sound, Step;
    if ops == [] {
      BeginningSound();
    } else {
      RunSound(ops[..|ops| - 1]);
      StepSound(Run(ops[..|ops| - 1]), ops[|ops| - 1]);
    }
  }

  lemma BeginningSound()
    ensures Sound(BEGINNING)
  {
  }

  /** Whatever the mix of submits, polls and partial or excess acknowledgements, every byte of every
      accepted command is offered once, in order, and released once, in order; refused submits add nothing. */
  lemma TxConservation(ops: seq<Op>)
    ensures var h := Run(ops); var c := h.core;
      && c.inFlight <= |c.tx|
      && Stream(h.commands) == h.handed + c.tx[c.inFlight..]
      && Stream(h.commands) == h.acked + c.tx
      && h.acked <= h.handed
  {
    hide Run, Stream, RxConserved, Refines;
    RunSound(ops);
    var h := Run(ops);
    var c := h.core;
    assert c.tx == c.tx[..c.inFlight] + c.tx[c.inFlight..];
    Associate(h.acked, c.tx[..c.inFlight], c.tx[c.inFlight..]);
  }

  /** Once all is handed out, the bytes on the wire can be the bytes of no other commands. */
  lemma WireReadsBack(ops: seq<Op>, cs: seq<Command>)
    requires var h := Run(ops); h.core.inFlight == |h.core.tx| && h.handed == Stream(cs)
    requires Decodable(cs) && Decodable(Run(ops).commands)
    ensures cs == Run(ops).commands
  {
    hide Run, Stream, Decodable;
    TxConservation(ops);
    var h := Run(ops);
    assert h.handed + h.core.tx[h.core.inFlight..] == h.handed;
    StreamDecodes(cs, h.commands);
  }

  /** The refinement: the bytes taken in are the consumed lines, whole and in order, followed by what
      is still buffered; the slot and everything reported are the line-level specification's; and no
      line was consumed that nobody waited for. */
  lemma RunRefinesLines(ops: seq<Op>)
    ensures var h := Run(ops); var s := Replay(START, h.items);
      && h.accepted == Unlines(LinesOf(h.items)) + h.core.rx
      && Framable(LinesOf(h.items))
      && (forall l <- LinesOf(h.items) :: |l| <= LINE_BUF)
      && s.slot == SlotOf(h.core)
      && s.outs == h.outs
      && s.stray == 0
  {
    hide Run, TxConserved;
    RunSound(ops);
  }

  lemma SurplusFrames(lines: seq<seq<u8>>, rx: seq<u8>)
    requires lines != [] && Framable(lines)
    ensures NextLineEnd(Unlines(lines) + rx).Some?
  {
    hide NextLineEnd;
    assert lines[0] in lines;
    Associate(lines[0] + CRLF, Unlines(lines[1..]), rx);
    NextLineEndOfLine(lines[0], Unlines(lines[1..]) + rx);
  }

  /** However the received bytes are cut into lines, the consumed lines come first. */
  lemma ConsumedLinesComeFirst(ops: seq<Op>, lines: seq<seq<u8>>, rest: seq<u8>)
    requires Framable(lines) && NextLineEnd(rest).None?
    requires Run(ops).accepted == Unlines(lines) + rest
    ensures LinesOf(Run(ops).items) <= lines
  {
    hide Run, Replay, LinesOf, NextLineEnd;
    RunRefinesLines(ops);
    var h := Run(ops);
    var done := LinesOf(h.items);
    if |done| <= |lines| {
      OneCut(done, h.core.rx, lines, rest);
    } else {
      OneCut(lines, rest, done, h.core.rx);
      SurplusFrames(done[|lines|..], h.core.rx);
    }
  }

  // ---- Counting ------------------------------------------------------------------

  function Responses(outs: seq<Poll>): nat {
    if outs == [] then 0
    else Responses(outs[..|outs| - 1]) + (if outs[|outs| - 1].Responded? then 1 else 0)
  }

  /** Every begun command is answered, lost or in flight; every response answers one, or is spurious. */
  predicate Balanced(s: Spec) {
    && s.begun == s.answered + s.lost + (if s.slot.inFlight.Some? then 1 else 0)
    && Responses(s.outs) == s.answered + s.spurious
  }

  lemma OneMoreOut(outs: seq<Poll>, p: Poll)
    ensures Responses(outs + [p]) == Responses(outs) + (if p.Responded? then 1 else 0)
  {
    assert (outs + [p])[..|outs|] == outs;
  }

  lemma LineBalanced(s: Spec, line: seq<u8>)
    requires Balanced(s)
    ensures Balanced(OnLine(s, line)) && OnLine(s, line).begun == s.begun
  {
    hide ParseEvent, ParseResponse, ResponseMatches, IsEvent, Responses;
    forall p: Poll ensures Responses(s.outs + [p]) == Responses(s.outs) + (if p.Responded? then 1 else 0) {
      OneMoreOut(s.outs, p);
    }
  }

  lemma {:induction false} LinesBalanced(s: Spec, lines: seq<seq<u8>>)
    requires Balanced(s)
    ensures var t := Replay(s, Gots(lines)); Balanced(t) && t.begun == s.begun
    decreases |lines|
  {
    hide Balanced, OnLine;
    if lines != [] {
      LineBalanced(s, lines[0]);
      LinesBalanced(OnLine(s, lines[0]), lines[1..]);
      assert Gots(lines)[1..] == Gots(lines[1..]);
    }
  }

  /** Accepted commands = answered + answered unreadably + (1 if the driver is not idle), in every run;
      the responses surfaced are the answers, plus any `+READY` taken with no command in flight. */
  lemma SlotAccounting(ops: seq<Op>)
    ensures var h := Run(ops); var s := Replay(START, h.items);
      && |h.commands| == s.answered + s.lost + (if h.core.state.Idle? then 0 else 1)
      && Responses(h.outs) == s.answered + s.spurious
      && s.begun == |h.commands|
  {
    hide Run, Replay, Sound;
    RunSound(ops);
    SoundMeansAccounted(Run(ops));
    RunAccounted(ops);
  }

  lemma {:induction false} RunAccounted(ops: seq<Op>)
    ensures Accounted(Run(ops))
  {
    hide Step, Accounted, Sound;
    if ops == [] {
      BeginningAccounted();
    } else {
      RunSound(ops[..|ops| - 1]);
      RunAccounted(ops[..|ops| - 1]);
      StepAccounts(Run(ops[..|ops| - 1]), ops[|ops| - 1]);
    }
  }

  lemma BeginningAccounted()
    ensures Accounted(BEGINNING)
  {
  }

  /** How many commands have left the slot: their replies were taken, readable or not. */
  function RepliesTaken(h: Hist): nat {
    var s := Replay(START, h.items);
    s.answered + s.lost
  }

  ghost predicate Accounted(h: Hist) {
    var s := Replay(START, h.items);
    Balanced(s) && s.begun == |h.commands|
  }

  lemma SoundMeansAccounted(h: Hist)
    requires Sound(h)
    ensures var s := Replay(START, h.items);
      s.outs == h.outs && (s.slot.inFlight.Some? <==> !h.core.state.Idle?)
  {
    hide TxConserved, RxConserved, Replay;
  }

  lemma StepAccounts(h: Hist, op: Op)
    requires Sound(h) && Accounted(h)
    ensures Accounted(Step(h, op))
  {
    hide Replay, PollOnce, TxConserved, RxConserved, Line, Responses;
    if !h.crashed {
      match op
      case DoSubmit(cmd) =>
        NewItem(h, Began(KindOf(cmd), cmd.FactoryReset?));
        NewItem(h, Refused(cmd.FactoryReset?));
      case DoPush(_) =>
      case DoAck(_) => NewItem(h, Sent);
      case DoPoll =>
        ReplayAppend(START, h.items, Gots(PollOnce(h.core).eaten));
        LinesBalanced(Replay(START, h.items), PollOnce(h.core).eaten);
    }
  }

  // ---- Events --------------------------------------------------------------------

  /** The events among what polls surfaced. */
  function EventsIn(outs: seq<Poll>): seq<Event> {
    if outs == [] then []
    else
      var last := outs[|outs| - 1];
      EventsIn(outs[..|outs| - 1]) + (if last.Noticed? then [last.event] else [])
  }

  lemma EventsInMore(outs: seq<Poll>, p: Poll)
    ensures EventsIn(outs + Surface(p)) == EventsIn(outs) + (if p.Noticed? then [p.event] else [])
  {
    if Surfaced(p) {
      assert (outs + [p])[..|outs|] == outs;
    } else {
      assert outs + [] == outs;
    }
  }

  /** What the lines among these items say: every parseable event line its event, except a `+READY` that
      answers a reset. */
  function Heard(s: Spec, items: seq<Item>): seq<Event>
    decreases |items|
  {
    if items == [] then []
    else HeardIn(s, items[0]) + Heard(OnItem(s, items[0]), items[1..])
  }

  function HeardIn(s: Spec, i: Item): seq<Event> {
    if !i.Got? || (s.slot.ready && i.line == READY) then []
    else
      match ParseEvent(i.line)
      case Good(e) => [e]
      case _ => []
  }

  /** What an item adds to the outputs, and which event that is. */
  lemma ItemOut(s: Spec, i: Item) returns (p: Poll)
    ensures OnItem(s, i).outs == s.outs + Surface(p)
    ensures HeardIn(s, i) == if p.Noticed? then [p.event] else []
  {
    p := Poll.Idle;
    if i.Got? {
      var line := i.line;
      if ParseEvent(line).Good? {
        ParsedIsEvent(line);
      }
      hide ParseEvent, ParseResponse, ResponseMatches, IsEvent;
      if s.slot.ready && RESET <= line {
      } else if s.slot.ready && line == READY {
        p := Responded(Ok);
      } else if IsEvent(line) {
        p := if ParseEvent(line).Good? then Noticed(ParseEvent(line).value) else Poll.Idle;
      } else if s.slot.sent && s.slot.inFlight.Some? && ResponseMatches(s.slot.inFlight.value, line) {
        p := if ParseResponse(line).Good? then Responded(ParseResponse(line).value) else Poll.Idle;
      }
    }
    assert s.outs + [] == s.outs;
  }

  lemma ItemHeard(s: Spec, i: Item)
    ensures EventsIn(OnItem(s, i).outs) == EventsIn(s.outs) + HeardIn(s, i)
  {
    hide OnItem, HeardIn, EventsIn;
    var p := ItemOut(s, i);
    EventsInMore(s.outs, p);
  }

  lemma {:induction false} ReplayHeard(s: Spec, items: seq<Item>)
    ensures EventsIn(Replay(s, items).outs) == EventsIn(s.outs) + Heard(s, items)
    decreases |items|
  {
    hide OnItem, HeardIn, EventsIn;
    if items == [] {
      assert EventsIn(s.outs) + [] == EventsIn(s.outs);
    } else {
      ItemHeard(s, items[0]);
      ReplayHeard(OnItem(s, items[0]), items[1..]);
      Associate(EventsIn(s.outs), HeardIn(s, items[0]), Heard(OnItem(s, items[0]), items[1..]));
    }
  }

  /** In every run, whatever command traffic is mixed in, the events reported are exactly those the lines
      consumed say: none lost, none twice, none out of order. */
  lemma RunReportsEvents(ops: seq<Op>)
    ensures EventsIn(Run(ops).outs) == Heard(START, Run(ops).items)
  {
    hide Run, Heard, Replay;
    RunRefinesLines(ops);
    ReplayHeard(START, Run(ops).items);
    assert EventsIn([]) == [];
  }

  function PacketIn(line: seq<u8>): seq<Event> {
    match ParseEvent(line)
    case Good(e) => if e.Recv? then [e] else []
    case _ => []
  }

  /** What the parseable `+RCV` lines among these say. */
  function Packets(lines: seq<seq<u8>>): seq<Event> {
    if lines == [] then [] else PacketIn(lines[0]) + Packets(lines[1..])
  }

  function PacketsAmong(events: seq<Event>): seq<Event> {
    if events == [] then []
    else (if events[0].Recv? then [events[0]] else []) + PacketsAmong(events[1..])
  }

  lemma {:induction false} PacketsHeard(s: Spec, items: seq<Item>)
    ensures PacketsAmong(Heard(s, items)) == Packets(LinesOf(items))
    decreases |items|
  {
    hide ParseEvent, OnItem;
    if items != [] {
      var i, rest := items[0], items[1..];
      PacketsHeard(OnItem(s, i), rest);
      ReadyParses();
      var head, tail := HeardIn(s, i), Heard(OnItem(s, i), rest);
      assert head + tail == tail || (head + tail)[1..] == tail;
      if i.Got? {
        assert LinesOf(items)[1..] == LinesOf(rest);
      } else {
        assert LinesOf(items) == LinesOf(rest);
      }
    }
  }

  /** Among them the packets are exactly the parseable `+RCV` lines, whatever the state of the slot was. */
  lemma RunReportsPackets(ops: seq<Op>)
    ensures PacketsAmong(EventsIn(Run(ops).outs)) == Packets(LinesOf(Run(ops).items))
  {
    hide Run, Heard, Packets, PacketsAmong;
    RunReportsEvents(ops);
    PacketsHeard(START, Run(ops).items);
  }
}
