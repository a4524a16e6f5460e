/** The driver composed with a radio: every response is the radio's reply to the command in flight. */
module Correlation {
  import opened Bytes
  import opened Types
  import opened CommandLine
  import opened Decode
  import opened Framing
  import opened Machine
  import opened Discipline
  import Chunking

  /** What the radio says: an unsolicited packet, the notice before a reset, or the answer to a command. */
  datatype Message =
    | Packet(from: u16, data: seq<u8>, rssi: i16, snr: i16)
    | ResetNotice
    | Answer(reset: bool, reply: Response)

  function Text(m: Message): seq<u8> {
    match m
    case Packet(from, data, rssi, snr) => RcvText(from, data, rssi, snr)
    case ResetNotice => RESET
    case Answer(reset, reply) => if reset && reply.Ok? then READY else ReplyText(reply)
  }

  /** A line the radio can send: no carriage return, no longer than the driver's line buffer. */
  predicate Wellformed(m: Message) {
    && CR !in Text(m) && |Text(m)| <= LINE_BUF
    && (m.Packet? ==> |m.data| < USIZE_MAX)
    && (m.Answer? ==> Sendable(m.reply))
  }

  /** The reply suits the command: the variant it asks for, or an error code. */
  predicate Suits(cmd: Command, m: Message) {
    m.Answer? && ReplyTo(cmd, m.reply) && m.reset == cmd.FactoryReset?
  }

  function Texts(ms: seq<Message>): seq<seq<u8>> {
    if ms == [] then [] else [Text(ms[0])] + Texts(ms[1..])
  }

  /** The host's driver, the wires in both directions and the radio.
      `downlink` is what the radio sent and the host has not read; `said` the messages not yet consumed. */
  datatype World = World(
    core: Core,
    uplink: seq<u8>,
    downlink: seq<u8>,
    job: Option<Command>,             // read by the radio, not yet answered
    noticed: bool,                    // the reset notice for the job is out
    said: seq<Message>,
    accepted: seq<Command>,           // by submit
    answers: seq<Message>,            // given by the radio, in order
    replies: seq<Response>,           // surfaced by polls, in order
    packets: seq<Message>,            // injected by the radio, in order
    events: seq<Event>)               // surfaced by polls, in order

  const QUIET: World := World(FRESH, [], [], None, false, [], [], [], [], [], [])

  datatype Action =
    | Submits(cmd: Command)           // the host submits a command
    | Serves                          // the host polls once, writing and acknowledging what it is handed
    | Reads(n: nat)                   // the host pushes the next n bytes of the downlink
    | Hears(cmd: Command)             // the radio takes a complete command line off the uplink
    | Notifies                        // the radio announces a reset
    | Replies(m: Message)             // the radio answers its job
    | Injects(m: Message)             // the radio delivers a packet, between lines

  /** When an action can happen. Pushes fit; the radio answers one command at a time, once. */
  predicate Enabled(w: World, a: Action) {
    match a
    case Submits(cmd) => !(cmd.SetCpin? && HasCrlf(cmd.password))
    case Serves => true
    case Reads(n) => n <= |w.downlink| && |w.core.rx| + n <= RX_BUF
    case Hears(cmd) => w.job.None? && Unwrapped(cmd) && Line(cmd) <= w.uplink
    case Notifies => w.job == Some(FactoryReset) && !w.noticed
    case Replies(m) =>
      && w.job.Some? && Suits(w.job.value, m) && Wellformed(m)
      && (w.job.value.FactoryReset? ==> w.noticed == m.reply.Ok?)
    case Injects(m) => m.Packet? && Wellformed(m)
  }

  function Says(w: World, m: Message): World {
    w.(downlink := w.downlink + Text(m) + CRLF, said := w.said + [m])
  }

  function Act(w: World, a: Action): World
    requires Bounded(w.core) && Enabled(w, a)
  {
    match a
    case Submits(cmd) =>
      var (core, r) := Submit(w.core, cmd);
      w.(core := core, accepted := if r.Success? then w.accepted + [cmd] else w.accepted)
    case Serves => Serve(w)
    case Reads(n) => w.(core := PushRx(w.core, w.downlink[..n]).0, downlink := w.downlink[n..])
    case Hears(cmd) => w.(uplink := w.uplink[|Line(cmd)|..], job := Some(cmd), noticed := false)
    case Notifies => Says(w, ResetNotice).(noticed := true)
    case Replies(m) => Says(w, m).(job := None, answers := w.answers + [m])
    case Injects(m) => Says(w, m).(packets := w.packets + [m])
  }

  function Serve(w: World): World
    requires Bounded(w.core)
  {
    var p := PollOnce(w.core);
    match p.out
    case NeedTx(bytes) =>
      PollBounded(w.core);
      w.(core := AckTx(p.core, |bytes|), uplink := w.uplink + bytes)
    case Responded(r) => w.(core := p.core, said := Rest(w.said, |p.eaten|), replies := w.replies + [r])
    case Noticed(e) => w.(core := p.core, said := Rest(w.said, |p.eaten|), events := w.events + [e])
    case _ => w.(core := p.core, said := Rest(w.said, |p.eaten|))
  }

  function Rest(ms: seq<Message>, n: nat): seq<Message> {
    if n <= |ms| then ms[n..] else []
  }

  lemma PollBounded(c: Core)
    requires Bounded(c)
    ensures Bounded(PollOnce(c).core)
  {
    hide PollOnce;
    PollTx(c);
    PollShrinks(c);
  }

  // ---- What one message does to the driver ------------------------------------------

  lemma ReplyShape(r: Response)
    ensures !IsEvent(ReplyText(r)) && !(RESET <= ReplyText(r))
  {
    var line := ReplyText(r);
    AfterPrefix(PREFIXES[ReplySort(r)], ReplyField(r));
    PrefixSort(line, ReplySort(r));
    assert PREFIXES[10] == RCV_HEAD && PREFIXES[11] == READY && PREFIXES[12] == RESET;
    forall i: nat | 10 <= i < 13 ensures !(PREFIXES[i] <= line) {
      if PREFIXES[i] <= line {
        PrefixSort(line, i);
      }
    }
  }

  lemma ReplyMatches(kind: AwaitKind, r: Response)
    requires Answers(kind, r)
    ensures ResponseMatches(kind, ReplyText(r))
  {
    AfterPrefix(PREFIXES[ReplySort(r)], ReplyField(r));
  }

  lemma PacketShape(m: Message)
    requires m.Packet? && |m.data| < USIZE_MAX
    ensures IsEvent(Text(m)) && !(RESET <= Text(m)) && Text(m) != READY
    ensures ParseEvent(Text(m)) == Good(EventOf(m))
  {
    ParseRcvText(m.from, m.data, m.rssi, m.snr);
    hide ParseEvent;
    var line := Text(m);
    assert RCV <= line;
    assert line[..4] == RCV[..4] == RCV_HEAD;
    assert line[2] == RCV[2];
  }

  function EventOf(m: Message): Event
    requires m.Packet?
  {
    Recv(m.from, m.data, m.rssi, m.snr)
  }

  lemma JudgePacket(c: Core, m: Message, drained: Core)
    requires m.Packet? && |m.data| < USIZE_MAX
    ensures Judge(c, Text(m), drained) == Polled(drained, Noticed(EventOf(m)), [Text(m)])
  {
    PacketShape(m);
    hide ParseEvent, IsEvent, ResponseMatches, Text;
  }

  lemma JudgeAnswer(c: Core, m: Message, drained: Core)
    requires m.Answer? && Sendable(m.reply) && c.state.Awaiting? && c.readyAsOk == m.reset
    requires Answers(c.state.kind, m.reply)
    ensures !(RESET <= Text(m))
    ensures Judge(c, Text(m), drained)
         == Polled(drained.(readyAsOk := false, state := State.Idle), Responded(m.reply), [Text(m)])
  {
    if m.reset && m.reply.Ok? {
      assert RESET[3] != READY[3];
      assert IsEvent(READY);
    } else {
      ReplyShape(m.reply);
      ReplyMatches(c.state.kind, m.reply);
      ParseReplyText(m.reply);
      hide IsEvent, ResponseMatches, ParseResponse, ReplyText;
    }
  }

  // ---- What may be on its way to the host ----------------------------------------------

  /** Packets only, except that while a reset is in flight notices may occur, and that the answer, once
      given, occurs once, behind every notice. */
  predicate Expect(ms: seq<Message>, reset: bool, answer: Option<Message>) {
    if ms == [] then answer.None?
    else
      match ms[0]
      case Packet(_, _, _, _) => Expect(ms[1..], reset, answer)
      case ResetNotice => reset && Expect(ms[1..], reset, answer)
      case Answer(_, _) => answer == Some(ms[0]) && Expect(ms[1..], false, None)
  }

  lemma {:induction false} ExpectMore(ms: seq<Message>, reset: bool, answer: Option<Message>, m: Message)
    requires Expect(ms, reset, answer)
    ensures m.Packet? ==> Expect(ms + [m], reset, answer)
    ensures m.ResetNotice? && reset && answer.None? ==> Expect(ms + [m], reset, answer)
    ensures m.Answer? && answer.None? ==> Expect(ms + [m], reset, Some(m))
  {
    if ms == [] {
      assert (ms + [m])[1..] == [];
    } else {
      assert (ms + [m])[1..] == ms[1..] + [m];
      if ms[0].Answer? {
        ExpectMore(ms[1..], false, None, m);
      } else {
        ExpectMore(ms[1..], reset, answer, m);
      }
    }
  }

  lemma {:induction false} ExpectReset(ms: seq<Message>)
    requires Expect(ms, false, None)
    ensures Expect(ms, true, None)
  {
    if ms != [] {
      ExpectReset(ms[1..]);
    }
  }

  function EventsOf(ms: seq<Message>): seq<Event> {
    if ms == [] then []
    else (if ms[0].Packet? then [EventOf(ms[0])] else []) + EventsOf(ms[1..])
  }

  lemma {:induction false} EventsOfMore(ms: seq<Message>, m: Message)
    ensures EventsOf(ms + [m]) == EventsOf(ms) + (if m.Packet? then [EventOf(m)] else [])
  {
    if ms == [] {
      assert ms + [m] == [m] && [m][1..] == [];
    } else {
      EventsOfMore(ms[1..], m);
      assert (ms + [m])[0] == ms[0] && (ms + [m])[1..] == ms[1..] + [m];
      Associate(if ms[0].Packet? then [EventOf(ms[0])] else [], EventsOf(ms[1..]),
                if m.Packet? then [EventOf(m)] else []);
    }
  }

  lemma {:induction false} TextsMore(ms: seq<Message>, m: Message)
    ensures Unlines(Texts(ms + [m])) == Unlines(Texts(ms)) + (Text(m) + CRLF)
  {
    hide Text;
    if ms == [] {
      assert ms + [m] == [m] && [m][1..] == [];
      UnlinesOne(Text(m));
    } else {
      TextsMore(ms[1..], m);
      assert (ms + [m])[0] == ms[0] && (ms + [m])[1..] == ms[1..] + [m];
      assert Texts(ms)[1..] == Texts(ms[1..]) && Texts(ms + [m])[1..] == Texts(ms[1..] + [m]);
      Associate(Text(ms[0]) + CRLF, Unlines(Texts(ms[1..])), Text(m) + CRLF);
    }
  }

  // ---- One poll with messages on the line ------------------------------------------------

  /** Bytes buffered or on the downlink are exactly these well-formed messages. */
  ghost predicate Carries(rx: seq<u8>, down: seq<u8>, said: seq<Message>) {
    rx + down == Unlines(Texts(said)) && forall m <- said :: Wellformed(m)
  }

  lemma HeadMessage(rx: seq<u8>, down: seq<u8>, said: seq<Message>)
    requires Carries(rx, down, said) && NextLineEnd(rx).Some?
    ensures var end := NextLineEnd(rx).value;
      && said != [] && Wellformed(said[0]) && rx[..end] == Text(said[0]) && end <= LINE_BUF
      && Carries(rx[end + 2..], down, said[1..])
  {
    hide NextLineEnd, Wellformed, Text;
    assert Framable(Texts(said)) by { TextsFramable(said); }
    HeadLine(rx, down, Texts(said));
    assert Texts(said)[1..] == Texts(said[1..]);
    assert Wellformed(said[0]) by { assert said[0] in said; }
    WellformedLine(said[0]);
  }

  lemma WellformedLine(m: Message)
    requires Wellformed(m)
    ensures |Text(m)| <= LINE_BUF && CR !in Text(m)
  {
  }

  lemma {:induction false} TextsFramable(said: seq<Message>)
    requires forall m <- said :: Wellformed(m)
    ensures Framable(Texts(said))
  {
    hide Wellformed, Text;
    if said != [] {
      assert said[0] in said;
      WellformedLine(said[0]);
      TextsFramable(said[1..]);
    }
  }

  /** The slot and what is expected on the line agree. */
  ghost predicate Agrees(c: Core, said: seq<Message>, reset: bool, answer: Option<Message>) {
    && Chunking.HandedOut(c) && c.readyAsOk == reset && Expect(said, reset, answer)
    && match c.state
       case Idle => !reset && answer.None?
       case SendingTx => false
       case Awaiting(kind) =>
         && (reset ==> kind == Ack)
         && (answer.Some? ==>
              answer.value.Answer? && answer.value.reset == reset && Answers(kind, answer.value.reply))
  }

  /** What a poll may do: report the next packet, answer with the awaited reply, or nothing. */
  ghost predicate Progress(c: Core, down: seq<u8>, said: seq<Message>, reset: bool, answer: Option<Message>,
                           p: Polled) {
    var n := |p.eaten|;
    && n <= |said|
    && Carries(p.core.rx, down, said[n..])
    && match p.out
       case Idle =>
         && p.core == c.(rx := p.core.rx) && Agrees(p.core, said[n..], reset, answer)
         && EventsOf(said) == EventsOf(said[n..]) && NextLineEnd(p.core.rx).None?
       case Noticed(e) =>
         && p.core == c.(rx := p.core.rx) && Agrees(p.core, said[n..], reset, answer)
         && EventsOf(said) == [e] + EventsOf(said[n..])
       case Responded(r) =>
         && answer.Some? && answer.value.Answer? && r == answer.value.reply
         && p.core == c.(rx := p.core.rx, readyAsOk := false, state := State.Idle)
         && Agrees(p.core, said[n..], false, None)
         && EventsOf(said) == EventsOf(said[n..])
       case _ => false
  }

  lemma PacketProgress(c: Core, drained: Core, down: seq<u8>, said: seq<Message>, reset: bool, answer: Option<Message>)
    requires said != [] && said[0].Packet? && drained == c.(rx := drained.rx)
    requires Agrees(c, said, reset, answer) && Carries(drained.rx, down, said[1..])
    ensures Progress(c, down, said, reset, answer, Polled(drained, Noticed(EventOf(said[0])), [Text(said[0])]))
  {
    hide Carries, Text;
  }

  lemma NoticeProgress(c: Core, drained: Core, down: seq<u8>, said: seq<Message>, reset: bool, answer: Option<Message>,
                       p: Polled)
    requires said != [] && said[0].ResetNotice? && drained == c.(rx := drained.rx)
    requires Progress(drained, down, said[1..], reset, answer, p)
    ensures Progress(c, down, said, reset, answer, p.(eaten := [Text(said[0])] + p.eaten))
  {
    hide Carries, Text, Agrees;
    assert said[1..][|p.eaten|..] == said[|p.eaten| + 1..];
    assert EventsOf(said) == EventsOf(said[1..]);
  }

  lemma AnswerProgress(c: Core, drained: Core, down: seq<u8>, said: seq<Message>, reset: bool, answer: Option<Message>)
    requires said != [] && said[0].Answer? && drained == c.(rx := drained.rx)
    requires Agrees(c, said, reset, answer) && Carries(drained.rx, down, said[1..])
    ensures Progress(c, down, said, reset, answer,
      Polled(drained.(readyAsOk := false, state := State.Idle), Responded(said[0].reply), [Text(said[0])]))
  {
    hide Carries, Text;
    assert EventsOf(said) == EventsOf(said[1..]);
  }

  lemma {:induction false} PollProgress(c: Core, down: seq<u8>, said: seq<Message>, reset: bool,
                                        answer: Option<Message>)
    requires Carries(c.rx, down, said) && Agrees(c, said, reset, answer)
    ensures Progress(c, down, said, reset, answer, PollOnce(c))
    decreases |c.rx|
  {
    hide NextLineEnd, Judge, Carries, Text, Wellformed, Progress;
    match NextLineEnd(c.rx)
    case None => PollNothing(c, down, said, reset, answer);
    case Some(end) =>
      hide PollOnce;
      HeadMessage(c.rx, down, said);
      PollHead(c, end);
      var m := said[0];
      var drained := c.(rx := c.rx[end + 2..]);
      match m {
        case Packet(_, _, _, _) =>
          WellformedPacket(m);
          JudgePacket(c, m, drained);
          PacketProgress(c, drained, down, said, reset, answer);
        case ResetNotice =>
          NoticeText(m);
          PollProgress(drained, down, said[1..], reset, answer);
          NoticeProgress(c, drained, down, said, reset, answer, PollOnce(drained));
        case Answer(_, reply) =>
          WellformedAnswer(m);
          JudgeAnswer(c, m, drained);
          AnswerProgress(c, drained, down, said, reset, answer);
      }
  }

  lemma PollNothing(c: Core, down: seq<u8>, said: seq<Message>, reset: bool, answer: Option<Message>)
    requires Carries(c.rx, down, said) && Agrees(c, said, reset, answer) && NextLineEnd(c.rx).None?
    ensures Progress(c, down, said, reset, answer, PollOnce(c))
  {
    hide NextLineEnd, Carries;
    assert said[0..] == said;
  }

  lemma NoticeText(m: Message)
    requires m.ResetNotice?
    ensures Text(m) == RESET && RESET <= Text(m)
  {
  }

  lemma WellformedPacket(m: Message)
    requires Wellformed(m) && m.Packet?
    ensures |m.data| < USIZE_MAX && !(RESET <= Text(m))
  {
    PacketShape(m);
  }

  lemma WellformedAnswer(m: Message)
    requires Wellformed(m) && m.Answer?
    ensures Sendable(m.reply)
  {
  }

  // ---- The invariant of every interleaving ---------------------------------------------

  /** The command in flight and how far it has got. */
  ghost predicate Phase(w: World) {
    var c, n := w.core, |w.replies|;
    match c.state
    case Idle =>
      && |w.accepted| == |w.answers| == n && w.uplink == [] && w.job.None?
      && Agrees(c, w.said, false, None)
    case SendingTx =>
      && |w.accepted| == n + 1 && |w.answers| == n && w.uplink == [] && w.job.None?
      && c.tx == Line(w.accepted[n]) && c.pending == Some(KindOf(w.accepted[n]))
      && c.readyAsOk == w.accepted[n].FactoryReset? && Expect(w.said, false, None)
    case Awaiting(kind) =>
      && |w.accepted| == n + 1 && kind == KindOf(w.accepted[n]) && c.readyAsOk == w.accepted[n].FactoryReset?
      && if |w.answers| == n then
           && (w.job.None? ==> w.uplink == Line(w.accepted[n]))
           && (w.job.Some? ==> w.uplink == [] && w.job.value == w.accepted[n])
           && Agrees(c, w.said, c.readyAsOk, None)
         else
           && |w.answers| == n + 1 && w.job.None? && w.uplink == []
           && Agrees(c, w.said, c.readyAsOk, Some(w.answers[n]))
  }

  /** Each reply surfaced is the radio's answer to the command with the same number, and suits it. */
  ghost predicate Matched(w: World) {
    && |w.replies| <= |w.answers| <= |w.accepted| <= |w.replies| + 1
    && (forall i :: 0 <= i < |w.answers| ==> Suits(w.accepted[i], w.answers[i]))
    && (forall i :: 0 <= i < |w.replies| ==> w.replies[i] == w.answers[i].reply)
  }

  ghost predicate Inv(w: World) {
    && Clean(w.core)
    && Carries(w.core.rx, w.downlink, w.said)
    && (forall c <- w.accepted :: Unwrapped(c) && SelfDelimiting(c))
    && Matched(w)
    && EventsOf(w.packets) == w.events + EventsOf(w.said)
    && Phase(w)
  }

  lemma SubmitsInv(w: World, cmd: Command)
    requires Inv(w) && Enabled(w, Submits(cmd))
    ensures Inv(Act(w, Submits(cmd)))
  {
    hide Carries, EventsOf, Expect, Line, SelfDelimiting, HasCrlf, Answers;
    if |Line(cmd)| <= TX_BUF {
      FittingMeansUnwrapped(cmd);
      SelfDelimitingExactly(cmd);
    }
    OtherStepsKeepTidy(w.core, cmd, [], 0);
    if w.core.state.Idle? {
      assert [] + Line(cmd) == Line(cmd);
    }
  }

  /** The phase does not depend on how far the downlink has been read. */
  lemma PhaseFrame(w: World, v: World)
    requires Phase(w) && Matched(w) && v == w.(core := w.core.(rx := v.core.rx), downlink := v.downlink)
    ensures Phase(v) && Matched(v)
  {
    hide Expect, Line, Answers, ReplyTo;
  }

  lemma ReadsInv(w: World, n: nat)
    requires Inv(w) && Enabled(w, Reads(n))
    ensures Inv(Act(w, Reads(n)))
  {
    hide EventsOf, SelfDelimiting, Matched, Phase, Tidy, Wellformed, Texts;
    PhaseFrame(w, Act(w, Reads(n)));
    OtherStepsKeepTidy(w.core, Ping, w.downlink[..n], 0);
    assert w.downlink[..n][..n] == w.downlink[..n];
    assert w.downlink == w.downlink[..n] + w.downlink[n..];
    Associate(w.core.rx, w.downlink[..n], w.downlink[n..]);
  }

  lemma HearsInv(w: World, cmd: Command)
    requires Inv(w) && Enabled(w, Hears(cmd))
    ensures Inv(Act(w, Hears(cmd)))
  {
    hide EventsOf, Expect, Line, Answers, Agrees, Carries;
    LineNonempty(cmd);
    assert w.core.state.Awaiting? && |w.answers| == |w.replies|;
    var last := w.accepted[|w.replies|];
    assert last in w.accepted;
    assert cmd == last;
    assert Line(last)[|Line(last)|..] == [];
  }

  lemma LineNonempty(cmd: Command)
    ensures |Line(cmd)| >= 2
  {
  }

  lemma SaysCarries(w: World, m: Message)
    requires Carries(w.core.rx, w.downlink, w.said) && Wellformed(m)
    ensures Carries(w.core.rx, Says(w, m).downlink, Says(w, m).said)
    ensures EventsOf(Says(w, m).said) == EventsOf(w.said) + (if m.Packet? then [EventOf(m)] else [])
  {
    hide Text, Wellformed, Texts;
    TextsMore(w.said, m);
    EventsOfMore(w.said, m);
    assert w.downlink + Text(m) + CRLF == w.downlink + (Text(m) + CRLF);
    Associate(w.core.rx, w.downlink, Text(m) + CRLF);
  }

  lemma NoticeWellformed()
    ensures Wellformed(ResetNotice)
  {
  }

  lemma NotifiesInv(w: World)
    requires Inv(w) && Enabled(w, Notifies)
    ensures Inv(Act(w, Notifies))
  {
    hide EventsOf, Expect, Line, Answers, Carries, Text, Wellformed, SelfDelimiting;
    NoticeWellformed();
    SaysCarries(w, ResetNotice);
    assert EventsOf(w.said) + [] == EventsOf(w.said);
    ExpectMore(w.said, true, None, ResetNotice);
  }

  lemma RepliesInv(w: World, m: Message)
    requires Inv(w) && Enabled(w, Replies(m))
    ensures Inv(Act(w, Replies(m)))
  {
    hide EventsOf, Expect, Line, Answers, ReplyTo, Carries, Text, Wellformed, SelfDelimiting;
    SaysCarries(w, m);
    KindAsksForReply(w.job.value, m.reply);
    assert EventsOf(w.said) + [] == EventsOf(w.said);
    ExpectMore(w.said, w.core.readyAsOk, None, m);
  }

  lemma InjectsInv(w: World, m: Message)
    requires Inv(w) && Enabled(w, Injects(m))
    ensures Inv(Act(w, Injects(m)))
  {
    hide Expect, Line, Answers, Carries, Text, Wellformed, SelfDelimiting, EventsOf;
    SaysCarries(w, m);
    EventsOfMore(w.packets, m);
    Associate(w.events, EventsOf(w.said), [EventOf(m)]);
    match w.core.state
    case Idle => ExpectMore(w.said, false, None, m);
    case SendingTx => ExpectMore(w.said, false, None, m);
    case Awaiting(_) =>
      ExpectMore(w.said, w.core.readyAsOk,
                 if |w.answers| == |w.replies| then None else Some(w.answers[|w.replies|]), m);
  }

  lemma ServesSending(w: World)
    requires Inv(w) && w.core.state.SendingTx?
    ensures Inv(Serve(w))
  {
    hide EventsOf, Expect, Line, Answers, Carries, SelfDelimiting;
    var c := w.core;
    var p := PollOnce(c);
    assert p.core == c.(inFlight := |c.tx|) && p.out == NeedTx(c.tx[0..]);
    assert c.tx[0..] == c.tx;
    hide PollOnce;
    assert [] + c.tx == c.tx;
    if c.readyAsOk {
      ExpectReset(w.said);
    }
  }

  /** The answer the radio has given to the command in flight, if it has. */
  ghost function Pending(w: World): Option<Message> {
    if |w.answers| > |w.replies| then Some(w.answers[|w.replies|]) else None
  }

  lemma ServesListening(w: World)
    requires Inv(w) && !w.core.state.SendingTx?
    ensures Inv(Serve(w))
  {
    hide Carries, SelfDelimiting, PollOnce, EventsOf, Line, Expect;
    var reset, answer := w.core.readyAsOk, Pending(w);
    PollProgress(w.core, w.downlink, w.said, reset, answer);
    PollBounded(w.core);
    var p := PollOnce(w.core);
    var rest := w.said[|p.eaten|..];
    match p.out
    case Noticed(e) => Associate(w.events, [e], EventsOf(rest));
    case _ =>
  }

  lemma ActInv(w: World, a: Action)
    requires Inv(w) && Enabled(w, a)
    ensures Inv(Act(w, a))
  {
    hide Inv, Enabled, Serve, Submit, PushRx, Says;
    match a
    case Submits(cmd) => SubmitsInv(w, cmd);
    case Serves => ServesInv(w);
    case Reads(n) => ReadsInv(w, n);
    case Hears(cmd) => HearsInv(w, cmd);
    case Notifies => NotifiesInv(w);
    case Replies(m) => RepliesInv(w, m);
    case Injects(m) => InjectsInv(w, m);
  }

  lemma ServesInv(w: World)
    requires Inv(w)
    ensures Inv(Serve(w))
  {
    hide Inv, Serve;
    if w.core.state.SendingTx? {
      ServesSending(w);
    } else {
      ServesListening(w);
    }
  }

  // ---- The theorems -----------------------------------------------------------------------

  /** Any interleaving: actions that are not enabled when their turn comes do not happen. */
  function After(actions: seq<Action>): (w: World)
    ensures Bounded(w.core)
  {
    if actions == [] then QUIET
    else
      var w := After(actions[..|actions| - 1]);
      var a := actions[|actions| - 1];
      if Enabled(w, a) then ActBounded(w, a); Act(w, a) else w
  }

  lemma ActBounded(w: World, a: Action)
    requires Bounded(w.core) && Enabled(w, a)
    ensures Bounded(Act(w, a).core)
  {
    hide PollOnce, Line;
    PollBounded(w.core);
  }

  lemma {:induction false} AfterInv(actions: seq<Action>)
    ensures Inv(After(actions))
  {
    hide Inv, Act, Enabled;
    if actions == [] {
      QuietInv();
    } else {
      var w, a := After(actions[..|actions| - 1]), actions[|actions| - 1];
      AfterInv(actions[..|actions| - 1]);
      if Enabled(w, a) {
        ActInv(w, a);
      }
    }
  }

  lemma QuietInv()
    ensures Inv(QUIET)
  {
  }

  /** End-to-end correlation: in every interleaving, the responses surfaced are, in order and one for
      one, the radio's replies to the commands accepted, each of a variant its command asks for; and
      the events surfaced are, in order, the packets delivered, the rest still being on their way. */
  lemma Correlated(actions: seq<Action>)
    ensures var w := After(actions);
      && |w.replies| <= |w.answers| <= |w.accepted| <= |w.replies| + 1
      && (forall i :: 0 <= i < |w.replies| ==>
            w.answers[i].Answer? && w.replies[i] == w.answers[i].reply && ReplyTo(w.accepted[i], w.replies[i]))
      && EventsOf(w.packets) == w.events + EventsOf(w.said)
  {
    hide After, ReplyTo, Answers, Carries, EventsOf, Phase;
    AfterInv(actions);
    var w := After(actions);
    forall i | 0 <= i < |w.replies|
      ensures w.answers[i].Answer? && w.replies[i] == w.answers[i].reply && ReplyTo(w.accepted[i], w.replies[i])
    {
      assert Suits(w.accepted[i], w.answers[i]);
    }
  }

  /** A response is only ever surfaced while its command is in flight, after the radio has answered that
      command; it frees the slot. */
  lemma ResponseMeetsItsCommand(actions: seq<Action>)
    ensures var w := After(actions); var w' := Act(w, Serves);
      w'.replies != w.replies ==>
        && |w.answers| == |w.accepted| == |w.replies| + 1 && w.answers[|w.replies|].Answer?
        && w.core.state == Awaiting(KindOf(w.accepted[|w.replies|]))
        && w'.replies == w.replies + [w.answers[|w.replies|].reply]
        && w'.core.state.Idle?
  {
    hide After, PollOnce, Carries, EventsOf, Line, Expect;
    AfterInv(actions);
    var w := After(actions);
    if w.core.state.SendingTx? {
      PollTx(w.core);
    } else {
      PollProgress(w.core, w.downlink, w.said, w.core.readyAsOk, Pending(w));
    }
  }

  lemma NoneLeft(rx: seq<u8>, said: seq<Message>)
    requires Carries(rx, [], said) && NextLineEnd(rx).None?
    ensures said == []
  {
    hide NextLineEnd, Text, Wellformed;
    if said != [] {
      TextsFramable(said);
      assert Texts(said)[0] == Text(said[0]) && Text(said[0]) in Texts(said);
      assert rx == rx + [];
      NextLineEndOfLine(Text(said[0]), Unlines(Texts(said)[1..]));
    }
  }

  /** Delivery: when the host has read all there is and a poll by a driver that is not sending finds nothing
      more to do, every answer the radio gave and every packet it delivered has been surfaced. */
  lemma Delivered(actions: seq<Action>)
    requires var w := After(actions); w.downlink == [] && !w.core.state.SendingTx? && PollOnce(w.core).out.Idle?
    ensures var w := After(actions); |w.replies| == |w.answers| && w.events == EventsOf(w.packets)
  {
    hide After, PollOnce, Carries, EventsOf, Line, NextLineEnd;
    AfterInv(actions);
    var w := After(actions);
    PollProgress(w.core, [], w.said, w.core.readyAsOk, Pending(w));
    var p := PollOnce(w.core);
    NoneLeft(p.core.rx, w.said[|p.eaten|..]);
    NoEvents();
    assert w.events + [] == w.events;
  }

  lemma NoEvents()
    ensures EventsOf([]) == []
  {
  }

  /** The driver never panics, and is idle only when it has surfaced every answer there is. */
  lemma NothingLost(actions: seq<Action>)
    ensures var w := After(actions);
      && !PollOnce(w.core).out.Crash?
      && (w.core.state.Idle? ==> |w.replies| == |w.answers| == |w.accepted| && w.uplink == [])
  {
    hide After, PollOnce, Carries, EventsOf, Line, Expect;
    AfterInv(actions);
    var w := After(actions);
    if w.core.state.SendingTx? {
      PollTx(w.core);
    } else {
      PollProgress(w.core, w.downlink, w.said, w.core.readyAsOk, Pending(w));
    }
  }
}
