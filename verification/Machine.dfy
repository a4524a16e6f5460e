/** The driver's fields as one value, and what each of its operations does to that value. */
module Machine {
  import opened Bytes
  import opened Types
  import CommandLine
  import Decimal
  import opened Decode
  import opened Framing

  const RX_BUF: nat := 512
  const TX_BUF: nat := 512
  const LINE_BUF: nat := 288

  /** The hosts' read buffer. */
  const READ_BUF: nat := 256

  datatype State = Idle | SendingTx | Awaiting(kind: AwaitKind)

  /** A poll's answer; `Crash` stands for the panics of an oversized line or length field. */
  datatype Poll = Idle | NeedTx(bytes: seq<u8>) | Responded(response: Response) | Noticed(event: Event) | Crash

  datatype Core = Core(
    rx: seq<u8>,
    tx: seq<u8>,
    inFlight: nat,
    state: State,
    readyAsOk: bool,
    pending: Option<AwaitKind>)

  const FRESH: Core := Core([], [], 0, State.Idle, false, None)

  predicate Bounded(c: Core) {
    |c.rx| <= RX_BUF && c.inFlight <= |c.tx| <= TX_BUF
  }

  function Submit(c: Core, cmd: Command): (Core, Result<()>) {
    if !c.state.Idle? then (c, Failure(Busy))
    else
      var flagged := c.(readyAsOk := cmd.FactoryReset?);
      if |CommandLine.Line(cmd)| > TX_BUF || |c.tx| + |CommandLine.Line(cmd)| > TX_BUF then
        (flagged, Failure(TxOverflow))
      else
        (flagged.(tx := c.tx + CommandLine.Line(cmd), state := SendingTx, pending := Some(KindOf(cmd))), Success(()))
  }

  function Room(c: Core, bytes: seq<u8>): (n: nat)
    requires Bounded(c)
    ensures n <= |bytes| && |c.rx| + n <= RX_BUF
    ensures n == |bytes| || |c.rx| + n == RX_BUF
  {
    if |bytes| <= RX_BUF - |c.rx| then |bytes| else RX_BUF - |c.rx|
  }

  function PushRx(c: Core, bytes: seq<u8>): (Core, Result<nat>)
    requires Bounded(c)
  {
    var n := Room(c, bytes);
    (c.(rx := c.rx + bytes[..n]), if n < |bytes| then Failure(RxOverflow) else Success(n))
  }

  /** A push reports overflow exactly when the bytes do not fit, and even then keeps all that do. */
  lemma PushKeepsWhatFits(c: Core, bytes: seq<u8>)
    requires Bounded(c)
    ensures var (d, r) := PushRx(c, bytes);
      && (r == Failure(RxOverflow) <==> |c.rx| + |bytes| > 512)
      && (r.Success? ==> r.value == |bytes|)
      && c.rx <= d.rx <= c.rx + bytes && d == c.(rx := d.rx)
      && (d.rx == c.rx + bytes || |d.rx| == 512)
  {
    assert bytes[..|bytes|] == bytes;
  }

  function Acked(c: Core, n: nat): (m: nat)
    ensures m <= c.inFlight
  {
    if n < c.inFlight then n else c.inFlight
  }

  function AckTx(c: Core, n: nat): Core
    requires Bounded(c)
  {
    var m := Acked(c, n);
    var shifted := c.(tx := c.tx[m..], inFlight := c.inFlight - m);
    if shifted.tx == [] && c.state.SendingTx? && c.pending.Some? then
      shifted.(state := Awaiting(c.pending.value), pending := None)
    else shifted
  }

  predicate IsEvent(line: seq<u8>) {
    RCV_HEAD <= line || READY <= line
  }

  predicate ResponseMatches(kind: AwaitKind, line: seq<u8>) {
    ERR <= line ||
    match kind
    case Ack => line == OK_LINE || line == RESET || line == READY
    case Query(AddressKey) => ADDRESS <= line
    case Query(NetworkIdKey) => NETWORKID <= line
    case Query(BandKey) => BAND <= line
    case Query(ParametersKey) => PARAMETER <= line
    case Query(CrfopKey) => CRFOP <= line
    case Query(UidKey) => UID <= line
    case Query(VersionKey) => VER <= line
    case Query(CpinKey) => CPIN <= line
  }

  function NoticeOf(p: Parsed<Event>): Poll {
    match p
    case Good(e) => Noticed(e)
    case Malformed => Poll.Idle
    case Panic => Crash
  }

  function ReplyOf(p: Parsed<Response>): Poll {
    match p
    case Good(r) => Responded(r)
    case _ => Poll.Idle
  }

  /** `eaten` are the lines the poll took out of the receive buffer. */
  datatype Polled = Polled(core: Core, out: Poll, eaten: seq<seq<u8>>)

  /** What becomes of a head line other than a swallowed `+RESET`. */
  function Judge(c: Core, line: seq<u8>, drained: Core): Polled {
    if IsEvent(line) then
      if c.readyAsOk && line == READY then
        Polled(drained.(readyAsOk := false, state := State.Idle), Responded(Ok), [line])
      else
        Polled(drained, NoticeOf(ParseEvent(line)), [line])
    else if c.state.Awaiting? && ResponseMatches(c.state.kind, line) then
      Polled(drained.(readyAsOk := false, state := State.Idle), ReplyOf(ParseResponse(line)), [line])
    else
      Polled(c, Poll.Idle, [])
  }

  function PollOnce(c: Core): Polled
    decreases |c.rx|
  {
    if c.inFlight < |c.tx| then
      Polled(c.(inFlight := |c.tx|), NeedTx(c.tx[c.inFlight..]), [])
    else
      match NextLineEnd(c.rx)
      case None => Polled(c, Poll.Idle, [])
      case Some(end) =>
        var line := c.rx[..end];
        var drained := c.(rx := c.rx[end + 2..]);
        if end > LINE_BUF then
          Polled(c, Crash, [])
        else if c.readyAsOk && RESET <= line then
          var p := PollOnce(drained);
          p.(eaten := [line] + p.eaten)
        else
          Judge(c, line, drained)
  }

  /** The prefix by which a line matches. */
  function MatchSort(kind: AwaitKind, line: seq<u8>): nat {
    if ERR <= line then 1
    else
      match kind
      case Ack => if line == OK_LINE then 0 else if line == READY then 11 else 12
      case Query(AddressKey) => 2
      case Query(ParametersKey) => 3
      case Query(NetworkIdKey) => 4
      case Query(BandKey) => 5
      case Query(CrfopKey) => 6
      case Query(CpinKey) => 7
      case Query(UidKey) => 8
      case Query(VersionKey) => 9
  }

  lemma MatchHasPrefix(kind: AwaitKind, line: seq<u8>)
    requires ResponseMatches(kind, line)
    ensures MatchSort(kind, line) < |PREFIXES| && PREFIXES[MatchSort(kind, line)] <= line
  {
  }

  /** Classification is sound: a line taken as the reply to a command of this kind, if it parses at
      all, parses to the variant that command asks for, or to an error code. */
  lemma MatchedReplyAnswers(kind: AwaitKind, line: seq<u8>)
    requires ResponseMatches(kind, line) && ParseResponse(line).Good?
    ensures Answers(kind, ParseResponse(line).value)
  {
    hide ParseResponse, ParseStr, ParseCpin, ParseParams;
    MatchHasPrefix(kind, line);
    var i := MatchSort(kind, line);
    if line == OK_LINE {
      ParseReplyText(Ok);
      assert ReplyText(Ok) == OK_LINE;
      PrefixSort(line, 0);
      PrefixSort(line, i);
    } else {
      ParseByPrefix(line, i);
    }
  }

  /** A line is never both an event and a reply somebody waits for, except `+READY`, which an
      acknowledged command accepts too; it is then read as an event. */
  lemma EventOrReply(kind: AwaitKind, line: seq<u8>)
    ensures IsEvent(line) && ResponseMatches(kind, line) <==> kind == Ack && line == READY
  {
    if IsEvent(line) && ResponseMatches(kind, line) {
      MatchHasPrefix(kind, line);
      assert PREFIXES[10] == RCV_HEAD && PREFIXES[11] == READY;
      PrefixesExclusive(line, MatchSort(kind, line), if RCV_HEAD <= line then 10 else 11);
    }
  }

  /** Which head lines a core would take out of its buffer. */
  predicate Takes(c: Core, line: seq<u8>) {
    || (c.readyAsOk && RESET <= line)
    || IsEvent(line)
    || (c.state.Awaiting? && ResponseMatches(c.state.kind, line))
  }

  /** The head of the receive buffer is not a complete line that somebody waits for. */
  predicate NothingToTake(c: Core) {
    match NextLineEnd(c.rx)
    case None => true
    case Some(end) => end <= LINE_BUF && !Takes(c, c.rx[..end])
  }

  /** A poll gets nowhere exactly when nothing is left to hand out and nothing is there to take; a line
      that nobody waits for then blocks everything behind it. */
  lemma PollGetsNowhereExactly(c: Core)
    ensures PollOnce(c) == Polled(c, Poll.Idle, []) <==> c.inFlight >= |c.tx| && NothingToTake(c)
  {
  }

  lemma ParsedIsEvent(l: seq<u8>)
    requires ParseEvent(l).Good?
    ensures IsEvent(l) && !(RESET <= l)
  {
    hide ParseRcv;
    assert RCV_HEAD <= RCV;
    if RCV <= l {
      assert l[2] == RCV[2];
      assert RCV_HEAD <= l by { assert RCV[..4] == RCV_HEAD; assert l[..4] == RCV[..4]; }
    } else {
      assert l[3] == READY[3];
    }
  }

  /** A line that is taken, as an event or as the reply awaited, and does not parse. */
  predicate Unreadable(c: Core, line: seq<u8>) {
    if IsEvent(line) then ParseEvent(line).Malformed?
    else c.state.Awaiting? && ResponseMatches(c.state.kind, line) && !ParseResponse(line).Good?
  }

  /** The driver behind a line it has taken: a reply, or `+READY` for a reset, has freed the slot. */
  function Behind(c: Core, line: seq<u8>, rest: seq<u8>): Core {
    if IsEvent(line) && !(c.readyAsOk && line == READY) then c.(rx := rest)
    else c.(rx := rest, readyAsOk := false, state := State.Idle)
  }

  /** A verdict, by the line's class and by whether it parses. */
  lemma JudgeByClass(c: Core, line: seq<u8>, rest: seq<u8>)
    requires !(c.readyAsOk && RESET <= line)
    ensures var j := Judge(c, line, c.(rx := rest));
      if Takes(c, line) then
        && j.core == Behind(c, line, rest) && j.eaten == [line]
        && (j.out.Crash? <==> ParseEvent(line).Panic?) && (j.out.Idle? <==> Unreadable(c, line)) && !j.out.NeedTx?
      else j == Polled(c, Poll.Idle, [])
  {
    hide ParseEvent, ParseResponse, ResponseMatches, IsEvent, LengthOverflows;
    ReadyParses();
    ParseEventPanicsExactly(line);
    if LengthOverflows(line) {
      OverflowIsEvent(line);
    }
  }

  lemma OverflowIsEvent(line: seq<u8>)
    requires LengthOverflows(line)
    ensures IsEvent(line) && !(RESET <= line)
  {
    assert RCV[..4] == RCV_HEAD && RCV[2] != RESET[2];
  }

  /** A poll with nothing to hand out and a line to look at. */
  lemma PollHead(c: Core, end: nat)
    requires c.inFlight >= |c.tx| && NextLineEnd(c.rx) == Some(end)
    ensures var line, drained := c.rx[..end], c.(rx := c.rx[end + 2..]);
      PollOnce(c) ==
        if end > LINE_BUF then Polled(c, Crash, [])
        else if c.readyAsOk && RESET <= line then
          var p := PollOnce(drained);
          p.(eaten := [line] + p.eaten)
        else Judge(c, line, drained)
  {
    hide NextLineEnd, Judge;
  }

  /** A poll with something to hand out, or with no line to look at. */
  lemma PollNoLine(c: Core)
    requires c.inFlight < |c.tx| || NextLineEnd(c.rx).None?
    ensures var p := PollOnce(c);
      && p.eaten == [] && p.core == c.(inFlight := p.core.inFlight) && (p.out.NeedTx? || p.out.Idle?)
      && (c.inFlight >= |c.tx| ==> p.core == c && p.out.Idle?)
  {
    hide NextLineEnd;
  }

  lemma ReadyParses()
    ensures ParseEvent(READY) == Good(Ready)
  {
  }

  /** What a poll eats, terminators included, is exactly the front of the receive buffer. */
  lemma {:induction false} PollEats(c: Core)
    ensures var p := PollOnce(c);
      && c.rx == Unlines(p.eaten) + p.core.rx
      && Framable(p.eaten)
      && forall l <- p.eaten :: |l| <= LINE_BUF
    decreases |c.rx|
  {
    hide ParseEvent, ParseResponse, ResponseMatches, NextLineEnd, IsEvent;
    var p := PollOnce(c);
    match NextLineEnd(c.rx)
    case None =>
    case Some(end) =>
      var line, rest := c.rx[..end], c.rx[end + 2..];
      assert c.rx == line + CRLF + rest;
      UnlinesOne(line);
      if c.inFlight >= |c.tx| && end <= LINE_BUF && c.readyAsOk && RESET <= line {
        PollEats(c.(rx := rest));
        var q := PollOnce(c.(rx := rest));
        assert p.eaten == [line] + q.eaten && p.core == q.core;
        UnlinesAppend([line], q.eaten);
        Associate(line + CRLF, Unlines(q.eaten), q.core.rx);
      }
  }

  /** A poll changes the transmit side only by handing out what has not been handed out yet. */
  lemma {:induction false} PollTx(c: Core)
    requires Bounded(c)
    ensures var p := PollOnce(c);
      && p.core.tx == c.tx && p.core.pending == c.pending
      && p.core.inFlight == |c.tx|
      && (p.out.NeedTx? <==> c.inFlight < |c.tx|)
      && (p.out.NeedTx? ==> p.out.bytes == c.tx[c.inFlight..] && p.core == c.(inFlight := |c.tx|) && p.eaten == [])
    decreases |c.rx|
  {
    hide ParseEvent, ParseResponse, ResponseMatches, NextLineEnd, IsEvent;
    match NextLineEnd(c.rx)
    case None =>
    case Some(end) =>
      PollTx(c.(rx := c.rx[end + 2..]));
  }

  lemma PollShrinks(c: Core)
    ensures var p := PollOnce(c); |p.core.rx| <= |c.rx| && (p.eaten != [] ==> |p.core.rx| < |c.rx|)
  {
    hide PollOnce;
    PollEats(c);
  }

  lemma PollOfReady(c: Core, tail: seq<u8>)
    requires c.inFlight == |c.tx| && c.readyAsOk && c.rx == READY + CRLF + tail
    ensures PollOnce(c)
         == Polled(c.(rx := tail, readyAsOk := false, state := State.Idle), Responded(Ok), [READY])
  {
    hide NextLineEnd, ParseEvent;
    NextLineEndOfLine(READY, tail);
    assert c.rx[..6] == READY && c.rx[8..] == tail;
    assert c.rx[..6][3] != RESET[3];
  }

  lemma PollOfNotice(c: Core, line: seq<u8>, rest: seq<u8>)
    requires c.inFlight >= |c.tx| && c.readyAsOk && c.rx == line + CRLF + rest
    requires CR !in line && |line| <= LINE_BUF && RESET <= line
    ensures var p := PollOnce(c.(rx := rest)); PollOnce(c) == p.(eaten := [line] + p.eaten)
  {
    hide NextLineEnd, Judge;
    NextLineEndOfLine(line, rest);
    assert c.rx[..|line|] == line && c.rx[|line| + 2..] == rest;
  }

  /** A reset waiting with any number of `+RESET` lines and then `+READY` buffered: one poll swallows the
      former, answers once on the latter, goes idle and leaves exactly what follows. */
  lemma {:induction false} ResetCompletes(c: Core, notices: seq<seq<u8>>, tail: seq<u8>)
    requires c.inFlight == |c.tx| && c.readyAsOk
    requires Framable(notices) && forall l <- notices :: |l| <= LINE_BUF && RESET <= l
    requires c.rx == Unlines(notices) + (READY + CRLF + tail)
    ensures PollOnce(c)
         == Polled(c.(rx := tail, readyAsOk := false, state := State.Idle), Responded(Ok), notices + [READY])
    decreases |notices|
  {
    hide PollOnce;
    if notices == [] {
      assert c.rx == READY + CRLF + tail;
      PollOfReady(c, tail);
      assert [] + [READY] == [READY];
    } else {
      var line, rest := notices[0], Unlines(notices[1..]) + (READY + CRLF + tail);
      assert line in notices;
      Associate(line + CRLF, Unlines(notices[1..]), READY + CRLF + tail);
      PollOfNotice(c, line, rest);
      ResetCompletes(c.(rx := rest), notices[1..], tail);
      assert notices + [READY] == [line] + (notices[1..] + [READY]);
    }
  }

  lemma PollOfParsed(c: Core, line: seq<u8>, rest: seq<u8>)
    requires c.inFlight >= |c.tx| && c.rx == line + CRLF + rest && CR !in line && |line| <= LINE_BUF
    requires ParseEvent(line).Good? && !(c.readyAsOk && line == READY)
    ensures PollOnce(c) == Polled(c.(rx := rest), Noticed(ParseEvent(line).value), [line])
  {
    ParsedIsEvent(line);
    hide PollOnce, ParseEvent, IsEvent, NextLineEnd, ParseResponse, ResponseMatches;
    NextLineEndOfLine(line, rest);
    assert c.rx[..|line|] == line && c.rx[|line| + 2..] == rest;
    PollHead(c, |line|);
  }

  /** Every packet a radio can deliver, up to 240 payload bytes, is reported as that packet, whatever else is
      going on, unless its payload holds a carriage return. */
  lemma PacketReported(c: Core, from: u16, data: seq<u8>, rssi: i16, snr: i16, rest: seq<u8>)
    requires c.inFlight >= |c.tx| && |data| <= 240 && CR !in data
    requires c.rx == RcvText(from, data, rssi, snr) + CRLF + rest
    ensures PollOnce(c)
         == Polled(c.(rx := rest), Noticed(Recv(from, data, rssi, snr)), [RcvText(from, data, rssi, snr)])
  {
    hide PollOnce, RcvText, ParseEvent;
    RcvTextLength(from, data, rssi, snr);
    ParseRcvText(from, data, rssi, snr);
    ReadyParses();
    PollOfParsed(c, RcvText(from, data, rssi, snr), rest);
  }

  /** A reply that is taken but does not parse frees the slot and is answered by nothing. */
  lemma UnreadableReplyFreesSlot(c: Core, line: seq<u8>, rest: seq<u8>)
    requires c.inFlight >= |c.tx| && c.rx == line + CRLF + rest && CR !in line && |line| <= LINE_BUF
    requires c.state.Awaiting? && ResponseMatches(c.state.kind, line) && !IsEvent(line)
    requires !ParseResponse(line).Good? && !(c.readyAsOk && RESET <= line)
    ensures PollOnce(c) == Polled(c.(rx := rest, readyAsOk := false, state := State.Idle), Poll.Idle, [line])
  {
    hide PollOnce, ParseResponse, ParseEvent, NextLineEnd, ResponseMatches, IsEvent;
    NextLineEndOfLine(line, rest);
    assert c.rx[..|line|] == line && c.rx[|line| + 2..] == rest;
    PollHead(c, |line|);
  }

  /** So does `+RESET` met by an acknowledged command other than a reset. */
  lemma StrayResetFreesSlot(c: Core, rest: seq<u8>)
    requires c.inFlight >= |c.tx| && c.state == Awaiting(Ack) && !c.readyAsOk
    requires c.rx == RESET + CRLF + rest
    ensures PollOnce(c) == Polled(c.(rx := rest, state := State.Idle), Poll.Idle, [RESET]) && RESET == Ascii("+RESET")
  {
    assert PREFIXES[12] == RESET;
    ParseByPrefix(RESET, 12);
    assert RESET[2] != RCV_HEAD[2] && RESET[3] != READY[3];
    ReplyTexts();
    hide PollOnce, ParseResponse;
    UnreadableReplyFreesSlot(c, RESET, rest);
  }

  /** An acknowledged byte leaves the queue, if it has been handed out. */
  lemma AckOfOne(c: Core)
    requires Bounded(c)
    ensures AckTx(c, 1).tx == (if c.inFlight > 0 then c.tx[1..] else c.tx)
    ensures AckTx(c, 1).inFlight == (if c.inFlight > 0 then c.inFlight - 1 else 0)
  {
  }

  /** Acknowledging in parts is acknowledging at once. */
  lemma AcksAddUp(c: Core, m: nat, n: nat)
    requires Bounded(c)
    ensures Bounded(AckTx(c, m)) && AckTx(AckTx(c, m), n) == AckTx(c, m + n)
  {
    var k, l := Acked(c, m), Acked(AckTx(c, m), n);
    assert Acked(c, m + n) == k + l;
    hide Acked;
    assert c.tx[k..][l..] == c.tx[k + l..];
  }

  /** A reset that is refused for lack of room has still raised the flag, so that a `+READY` is then reported as
      the answer to a command that never was. */
  lemma RefusedResetHaunts(c: Core, rest: seq<u8>)
    requires Bounded(c) && c.inFlight == |c.tx| && c.rx == READY + CRLF + rest
    requires Submit(c, FactoryReset).1 == Failure(TxOverflow)
    ensures PollOnce(Submit(c, FactoryReset).0).out == Responded(Ok)
  {
    hide CommandLine.Line;
    var d := Submit(c, FactoryReset).0;
    PollOfReady(d, rest);
  }

  // ---- When a poll panics -------------------------------------------------------

  /** These received bytes: `+RESET` lines that a pending reset swallows, then a line too long for the
      line buffer or one whose length field overflows. */
  ghost predicate Fatal(c: Core, notices: seq<seq<u8>>, line: seq<u8>, rest: seq<u8>) {
    && c.rx == Unlines(notices) + (line + CRLF + rest)
    && (notices != [] ==> c.readyAsOk)
    && (forall l <- notices :: CR !in l && |l| <= LINE_BUF && RESET <= l)
    && CR !in line && (|line| > LINE_BUF || LengthOverflows(line))
  }

  /** Which head line makes a poll panic by itself. */
  lemma HeadPanics(c: Core, line: seq<u8>, rest: seq<u8>)
    requires c.inFlight >= |c.tx| && c.rx == line + CRLF + rest && CR !in line
    requires c.readyAsOk && RESET <= line ==> |line| > LINE_BUF
    ensures PollOnce(c).out == Crash <==> |line| > LINE_BUF || LengthOverflows(line)
  {
    hide PollOnce, NextLineEnd, LengthOverflows, Judge, ParseEvent, Behind, Unreadable, Takes;
    NextLineEndOfLine(line, rest);
    assert c.rx[..|line|] == line;
    PollHead(c, |line|);
    if |line| <= LINE_BUF {
      JudgeByClass(c, line, c.rx[|line| + 2..]);
      ParseEventPanicsExactly(line);
      if LengthOverflows(line) {
        TakesOverflowing(c, line);
      }
    }
  }

  lemma TakesOverflowing(c: Core, line: seq<u8>)
    requires LengthOverflows(line)
    ensures Takes(c, line)
  {
    OverflowIsEvent(line);
  }

  lemma {:induction false} FatalPanics(c: Core, notices: seq<seq<u8>>, line: seq<u8>, rest: seq<u8>)
    requires c.inFlight >= |c.tx| && Fatal(c, notices, line, rest)
    ensures PollOnce(c).out == Crash
    decreases |notices|
  {
    hide PollOnce, LengthOverflows;
    if notices == [] {
      assert c.rx == line + CRLF + rest;
      if LengthOverflows(line) {
        OverflowIsEvent(line);
      }
      HeadPanics(c, line, rest);
    } else {
      assert notices[0] in notices;
      var behind := Unlines(notices[1..]) + (line + CRLF + rest);
      Associate(notices[0] + CRLF, Unlines(notices[1..]), line + CRLF + rest);
      PollOfNotice(c, notices[0], behind);
      FatalPanics(c.(rx := behind), notices[1..], line, rest);
    }
  }

  lemma {:induction false} PanicIsFatal(c: Core) returns (notices: seq<seq<u8>>, line: seq<u8>, rest: seq<u8>)
    requires PollOnce(c).out == Crash
    ensures c.inFlight >= |c.tx| && Fatal(c, notices, line, rest)
    decreases |c.rx|
  {
    hide PollOnce, LengthOverflows, NextLineEnd;
    if c.inFlight < |c.tx| || NextLineEnd(c.rx).None? {
      PollNoLine(c);
    }
    var end := NextLineEnd(c.rx).value;
    line, rest := c.rx[..end], c.rx[end + 2..];
    assert c.rx == line + CRLF + rest;
    if c.readyAsOk && RESET <= line && end <= LINE_BUF {
      var head, behind := line, rest;
      PollOfNotice(c, head, behind);
      notices, line, rest := PanicIsFatal(c.(rx := behind));
      Associate(head + CRLF, Unlines(notices), line + CRLF + rest);
      notices := [head] + notices;
    } else {
      HeadPanics(c, line, rest);
      notices := [];
      assert Unlines([]) + c.rx == c.rx;
    }
  }

  /** When a poll panics. */
  lemma PollCrashesExactly(c: Core)
    ensures PollOnce(c).out == Crash
       <==> c.inFlight >= |c.tx| && exists notices, line, rest :: Fatal(c, notices, line, rest)
  {
    hide PollOnce, Fatal;
    if PollOnce(c).out == Crash {
      var notices, line, rest := PanicIsFatal(c);
    }
    forall notices, line, rest | c.inFlight >= |c.tx| && Fatal(c, notices, line, rest)
      ensures PollOnce(c).out == Crash
    {
      FatalPanics(c, notices, line, rest);
    }
  }

  /** A packet from sender 0 with this length field and no more. */
  function Headless(digits: seq<u8>): seq<u8> {
    RCV + ([Decimal.ZERO] + [COMMA] + (digits + [COMMA] + []))
  }

  lemma HeadlessOverflows(digits: seq<u8>)
    requires Decimal.ParseUsize(digits) == Some(USIZE_MAX) && Decimal.AllDigits(digits)
    ensures LengthOverflows(Headless(digits)) && |Headless(digits)| == |digits| + 8 && CR !in Headless(digits)
  {
    assert Decimal.Show(0) == [Decimal.ZERO];
    Decimal.ParseShow(0, 0xFFFF);
    hide Decimal.ParseUnsigned;
    assert Decimal.ParseU16([Decimal.ZERO]).Some?;
    assert COMMA !in digits;
  }

  /** A received buffer on which a fresh driver panics: a packet with the largest length field there is. */
  lemma FreshPanics()
    ensures var rx := Headless(Decimal.Show(USIZE_MAX)) + CRLF;
      |rx| <= 30 && PollOnce(FRESH.(rx := rx)).out == Crash
  {
    hide PollOnce, Headless, LengthOverflows, Decimal.Show;
    var digits := Decimal.Show(USIZE_MAX);
    Decimal.UsizeLength();
    Decimal.ParseShow(USIZE_MAX, USIZE_MAX);
    HeadlessOverflows(digits);
    var line := Headless(digits);
    assert line + CRLF == line + CRLF + [];
    OverflowIsEvent(line);
    HeadPanics(FRESH.(rx := line + CRLF), line, []);
  }

  /** And others: lines of meaningless bytes, from 289 of them on. */
  lemma LongLinePanicsExactly(n: nat)
    ensures var rx: seq<u8> := seq(n, _ => LF) + CRLF; PollOnce(FRESH.(rx := rx)).out == Crash <==> n > 288
  {
    hide PollOnce, LengthOverflows;
    var line: seq<u8> := seq(n, _ => LF);
    assert line + CRLF == line + CRLF + [];
    HeadPanics(FRESH.(rx := line + CRLF), line, []);
    if LengthOverflows(line) {
      OverflowStartsWithPlus(line);
    }
  }

  lemma OverflowStartsWithPlus(line: seq<u8>)
    requires LengthOverflows(line)
    ensures line != [] && line[0] == Decimal.PLUS
  {
  }
}
