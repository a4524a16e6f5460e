/** How the received bytes are cut into reads does not matter. */
module Chunking {
  import opened Bytes
  import opened Types
  import opened Decode
  import opened Framing
  import opened Machine
  import opened History

  datatype Drained = Drained(core: Core, outs: seq<Poll>) | Crashed

  predicate HandedOut(c: Core) {
    c.inFlight == |c.tx|
  }

  lemma PollTakes(c: Core)
    requires HandedOut(c)
    ensures var p := PollOnce(c); HandedOut(p.core)
    ensures var p := PollOnce(c); |p.core.rx| <= |c.rx| && (Surfaced(p.out) ==> |p.core.rx| < |c.rx|)
    ensures var p := PollOnce(c); |p.core.rx| == |c.rx| ==> p.core == c && (p.out.Idle? || p.out.Crash?)
    decreases |c.rx|
  {
    hide ParseEvent, ParseResponse, ResponseMatches, IsEvent, NextLineEnd;
    if NextLineEnd(c.rx).Some? {
      var end := NextLineEnd(c.rx).value;
      if end <= LINE_BUF && c.readyAsOk && RESET <= c.rx[..end] {
        PollTakes(c.(rx := c.rx[end + 2..]));
      }
    }
  }

  function Then(outs: seq<Poll>, d: Drained): Drained {
    match d
    case Crashed => Crashed
    case Drained(core, more) => Drained(core, outs + more)
  }

  /** Poll until the receive buffer stops shrinking. */
  function Drain(c: Core): (d: Drained)
    requires HandedOut(c)
    ensures d.Drained? ==> HandedOut(d.core) && |d.core.rx| <= |c.rx|
    decreases |c.rx|
  {
    PollTakes(c);
    var p := PollOnce(c);
    if p.out.Crash? then Crashed
    else if |p.core.rx| < |c.rx| then
      Then(Surface(p.out), Drain(p.core))
    else Drained(c, [])
  }

  /** Poll until the first `Idle`, as the transports do. */
  function PumpIdle(c: Core): (d: Drained)
    requires HandedOut(c)
    decreases |c.rx|
  {
    PollTakes(c);
    var p := PollOnce(c);
    if p.out.Crash? then Crashed
    else if Surfaced(p.out) then Then([p.out], PumpIdle(p.core))
    else Drained(p.core, [])
  }

  /** The same drain, line by line. */
  function Digest(c: Core): Drained
    decreases |c.rx|
  {
    match NextLineEnd(c.rx)
    case None => Drained(c, [])
    case Some(end) =>
      var line, drained := c.rx[..end], c.(rx := c.rx[end + 2..]);
      if end > LINE_BUF then Crashed
      else if c.readyAsOk && RESET <= line then Digest(drained)
      else
        var j := Judge(c, line, drained);
        if j.out.Crash? then Crashed
        else if j.eaten == [] then Drained(c, [])
        else Then(Surface(j.out), Digest(j.core))
  }

  lemma JudgeShape(c: Core, line: seq<u8>, drained: Core)
    ensures var j := Judge(c, line, drained);
      || (j.eaten == [line] && j.core.rx == drained.rx && (HandedOut(drained) ==> HandedOut(j.core)))
      || (j.eaten == [] && j.core == c && j.out == Poll.Idle)
  {
    hide ParseEvent, ParseResponse, ResponseMatches, IsEvent;
  }

  lemma {:induction false} DrainIsDigest(c: Core)
    requires HandedOut(c)
    ensures Drain(c) == Digest(c)
    decreases |c.rx|
  {
    hide Judge, NextLineEnd;
    PollTakes(c);
    match NextLineEnd(c.rx)
    case None =>
    case Some(end) =>
      var line, drained := c.rx[..end], c.(rx := c.rx[end + 2..]);
      if end <= LINE_BUF {
        if c.readyAsOk && RESET <= line {
          SwallowDrain(c, drained);
          DrainIsDigest(drained);
        } else {
          JudgeShape(c, line, drained);
          var j := Judge(c, line, drained);
          if j.eaten != [] && !j.out.Crash? {
            DrainIsDigest(j.core);
          }
        }
      }
  }

  /** A swallowed line makes no difference to the drain. */
  lemma SwallowDrain(c: Core, drained: Core)
    requires HandedOut(c) && HandedOut(drained) && |drained.rx| < |c.rx|
    requires PollOnce(c).core == PollOnce(drained).core || PollOnce(c).out.Crash?
    requires PollOnce(c).out == PollOnce(drained).out
    ensures Drain(c) == Drain(drained)
  {
    hide PollOnce;
    PollTakes(c);
    PollTakes(drained);
    var p := PollOnce(drained);
    if !p.out.Crash? && |p.core.rx| == |drained.rx| {
      assert Drain(drained) == Drained(drained, []);
      assert Drain(c) == Drained(drained, Surface(p.out) + []);
      assert Surface(p.out) == [];
    }
  }

  function Longer(c: Core, more: seq<u8>): Core {
    c.(rx := c.rx + more)
  }

  /** The verdict on a line does not depend on what is buffered behind it. */
  lemma JudgeLonger(c: Core, line: seq<u8>, drained: Core, more: seq<u8>)
    requires drained == c.(rx := drained.rx)
    ensures var j := Judge(c, line, drained); var k := Judge(Longer(c, more), line, Longer(drained, more));
      k.out == j.out && k.eaten == j.eaten && k.core == Longer(j.core, more)
  {
    hide ParseEvent, ParseResponse, ResponseMatches, IsEvent;
  }

  lemma ThenThen(a: seq<Poll>, b: seq<Poll>, d: Drained)
    ensures Then(a, Then(b, d)) == Then(a + b, d)
    ensures Then([], d) == d
  {
    if d.Drained? {
      Associate(a, b, d.outs);
    }
  }

  /** Draining again after more bytes. */
  function Resume(d: Drained, more: seq<u8>): Drained {
    match d
    case Crashed => Crashed
    case Drained(core, outs) => Then(outs, Digest(Longer(core, more)))
  }

  lemma ResumeThen(outs: seq<Poll>, d: Drained, more: seq<u8>)
    ensures Resume(Then(outs, d), more) == Then(outs, Resume(d, more))
  {
    if d.Drained? {
      ThenThen(outs, d.outs, Digest(Longer(d.core, more)));
    }
  }

  lemma ResumeNothing(c: Core, more: seq<u8>)
    ensures Resume(Drained(c, []), more) == Digest(Longer(c, more)) && Resume(Crashed, more) == Crashed
  {
    ThenThen([], [], Digest(Longer(c, more)));
  }

  /** Draining now and again after more bytes is draining once after all of them. */
  lemma {:induction false} DigestLonger(c: Core, more: seq<u8>)
    ensures Digest(Longer(c, more)) == Resume(Digest(c), more)
    decreases |c.rx|
  {
    hide Judge, NextLineEnd, Surface, Then, Resume;
    var long := Longer(c, more);
    ResumeNothing(c, more);
    match NextLineEnd(c.rx)
    case None =>
    case Some(end) =>
      var line, drained := c.rx[..end], c.(rx := c.rx[end + 2..]);
      NextLineEndExtends(c.rx, more);
      assert long.rx[..end] == line && long.rx[end + 2..] == drained.rx + more;
      assert long.(rx := long.rx[end + 2..]) == Longer(drained, more);
      if end > LINE_BUF {
      } else if c.readyAsOk && RESET <= line {
        DigestLonger(drained, more);
      } else {
        JudgeLonger(c, line, drained, more);
        JudgeShape(c, line, drained);
        var j := Judge(c, line, drained);
        if j.eaten != [] {
          DigestLonger(j.core, more);
          ResumeThen(Surface(j.out), Digest(j.core), more);
        }
      }
  }

  // ---- Feeding chunks -----------------------------------------------------------

  /** Every chunk fits the buffer when it is pushed, and is drained before the next. */
  predicate Fits(c: Core, chunks: seq<seq<u8>>)
    requires HandedOut(c)
    decreases |chunks|
  {
    chunks != [] ==>
    && |c.rx| + |chunks[0]| <= RX_BUF
    && (Drain(Longer(c, chunks[0])) != Crashed ==> Fits(Drain(Longer(c, chunks[0])).core, chunks[1..]))
  }

  function Feed(c: Core, chunks: seq<seq<u8>>): Drained
    requires HandedOut(c) && |c.tx| <= TX_BUF && |c.rx| <= RX_BUF
    requires Fits(c, chunks)
    decreases |chunks|
  {
    if chunks == [] then Drained(c, [])
    else
      var pushed := PushRx(c, chunks[0]).0;
      assert chunks[0][..|chunks[0]|] == chunks[0];
      assert pushed == Longer(c, chunks[0]);
      match Drain(pushed)
      case Crashed => Crashed
      case Drained(core, outs) => DrainKeepsTx(pushed); Then(outs, Feed(core, chunks[1..]))
  }

  lemma {:induction false} DrainKeepsTx(c: Core)
    requires HandedOut(c) && Bounded(c)
    ensures Drain(c) != Crashed ==> Bounded(Drain(c).core)
    decreases |c.rx|
  {
    hide PollOnce;
    PollTx(c);
    PollTakes(c);
    var p := PollOnce(c);
    if !p.out.Crash? && |p.core.rx| < |c.rx| {
      DrainKeepsTx(p.core);
    }
  }

  function Concat(chunks: seq<seq<u8>>): seq<u8> {
    if chunks == [] then [] else chunks[0] + Concat(chunks[1..])
  }

  lemma {:induction false} FeedIsDigest(c: Core, chunks: seq<seq<u8>>)
    requires HandedOut(c) && Bounded(c) && Fits(c, chunks) && chunks != []
    ensures Feed(c, chunks) == Digest(Longer(c, Concat(chunks)))
    decreases |chunks|
  {
    hide Digest, Drain, PollOnce;
    var a, rest := chunks[0], chunks[1..];
    var first := Longer(c, a);
    assert PushRx(c, a).0 == first by { assert a[..|a|] == a; }
    DrainIsDigest(first);
    assert Longer(first, Concat(rest)) == Longer(c, Concat(chunks)) by { Associate(c.rx, a, Concat(rest)); }
    DigestLonger(first, Concat(rest));
    DrainKeepsTx(first);
    var d := Drain(first);
    if d.Crashed? {
    } else if rest == [] {
      assert Longer(d.core, []) == d.core;
      assert Longer(first, []) == first;
      assert Feed(d.core, rest) == Drained(d.core, []);
      assert d.outs + [] == d.outs;
    } else {
      FeedIsDigest(d.core, rest);
    }
  }

  /** Chunking independence: with no submit in between and all pushes fitting, any two ways of cutting the
      same bytes into reads end in the same driver and report the same responses and events in the same order;
      or both panic. */
  lemma ChunkingIndependence(c: Core, a: seq<seq<u8>>, b: seq<seq<u8>>)
    requires HandedOut(c) && Bounded(c) && Fits(c, a) && Fits(c, b) && a != [] && b != []
    requires Concat(a) == Concat(b)
    ensures Feed(c, a) == Feed(c, b)
  {
    hide Digest, Feed, Fits;
    FeedIsDigest(c, a);
    FeedIsDigest(c, b);
  }

  // ---- Stopping at the first Idle ---------------------------------------------------

  /** The first line that is taken and does not parse is the last one that can be taken. */
  ghost predicate MuteOnlyLast(c: Core)
    decreases |c.rx|
  {
    match NextLineEnd(c.rx)
    case None => true
    case Some(end) =>
      var line, rest := c.rx[..end], c.rx[end + 2..];
      if end > LINE_BUF || !Takes(c, line) || ParseEvent(line).Panic? then true
      else if c.readyAsOk && RESET <= line then MuteOnlyLast(c.(rx := rest))
      else if Unreadable(c, line) then NothingToTake(Behind(c, line, rest))
      else MuteOnlyLast(Behind(c, line, rest))
  }

  lemma PumpSwallow(c: Core, drained: Core)
    requires HandedOut(c) && HandedOut(drained) && |drained.rx| < |c.rx|
    requires PollOnce(c).core == PollOnce(drained).core || PollOnce(c).out.Crash?
    requires PollOnce(c).out == PollOnce(drained).out
    ensures PumpIdle(c) == PumpIdle(drained)
  {
    hide PollOnce;
  }

  /** The callers' loop drains everything exactly when no unreadable line hides behind it more to take. */
  lemma {:induction false} PumpIsDrainExactly(c: Core)
    requires HandedOut(c)
    ensures PumpIdle(c) == Drain(c) <==> MuteOnlyLast(c)
    decreases |c.rx|
  {
    hide Judge, NextLineEnd, Takes, Unreadable, NothingToTake, ParseEvent;
    PollTakes(c);
    match NextLineEnd(c.rx)
    case None =>
    case Some(end) =>
      var line, rest := c.rx[..end], c.rx[end + 2..];
      if end > LINE_BUF {
      } else if c.readyAsOk && RESET <= line {
        ResetTaken(c, line);
        SwallowDrain(c, c.(rx := rest));
        PumpSwallow(c, c.(rx := rest));
        PumpIsDrainExactly(c.(rx := rest));
      } else {
        JudgeByClass(c, line, rest);
        if Takes(c, line) && !ParseEvent(line).Panic? {
          PumpTaken(c, Behind(c, line, rest), Judge(c, line, c.(rx := rest)).out);
          if !Unreadable(c, line) {
            PumpIsDrainExactly(Behind(c, line, rest));
          }
        }
      }
  }

  lemma ResetTaken(c: Core, line: seq<u8>)
    requires c.readyAsOk && RESET <= line
    ensures Takes(c, line) && !ParseEvent(line).Panic?
  {
    assert RESET[2] != RCV[2];
  }

  lemma PumpTaken(c: Core, next: Core, out: Poll)
    requires HandedOut(c) && HandedOut(next) && !out.Crash? && |next.rx| < |c.rx|
    requires PollOnce(c).core == next && PollOnce(c).out == out
    ensures Surfaced(out) ==> (PumpIdle(c) == Drain(c) <==> PumpIdle(next) == Drain(next))
    ensures !Surfaced(out) ==> (PumpIdle(c) == Drain(c) <==> NothingToTake(next))
  {
    hide PollOnce, NothingToTake;
    PollTakes(c);
    if Surfaced(out) {
      if Drain(next).Drained? {
        assert ([out] + Drain(next).outs)[1..] == Drain(next).outs;
      }
      if PumpIdle(next).Drained? {
        assert ([out] + PumpIdle(next).outs)[1..] == PumpIdle(next).outs;
      }
    } else {
      assert PumpIdle(c) == Drained(next, []);
      DrainsNothingExactly(next);
      if Drain(next).Drained? {
        assert [] + Drain(next).outs == Drain(next).outs;
      }
    }
  }

  lemma DrainsNothingExactly(c: Core)
    requires HandedOut(c)
    ensures Drain(c) == Drained(c, []) <==> NothingToTake(c)
  {
    hide PollOnce, NothingToTake;
    PollTakes(c);
    PollShrinks(c);
    PollGetsNowhereExactly(c);
  }

  /** All lines that are taken parse. */
  ghost predicate AllReadable(c: Core)
    decreases |c.rx|
  {
    match NextLineEnd(c.rx)
    case None => true
    case Some(end) =>
      var line, rest := c.rx[..end], c.rx[end + 2..];
      if end > LINE_BUF || !Takes(c, line) || ParseEvent(line).Panic? then true
      else if c.readyAsOk && RESET <= line then AllReadable(c.(rx := rest))
      else !Unreadable(c, line) && AllReadable(Behind(c, line, rest))
  }

  lemma {:induction false} ReadableMeansMuteOnlyLast(c: Core)
    requires AllReadable(c)
    ensures MuteOnlyLast(c)
    decreases |c.rx|
  {
    hide NextLineEnd, Takes, Unreadable, ParseEvent;
    match NextLineEnd(c.rx)
    case None =>
    case Some(end) =>
      var line, rest := c.rx[..end], c.rx[end + 2..];
      if end > LINE_BUF || !Takes(c, line) || ParseEvent(line).Panic? {
      } else if c.readyAsOk && RESET <= line {
        ReadableMeansMuteOnlyLast(c.(rx := rest));
      } else {
        ReadableMeansMuteOnlyLast(Behind(c, line, rest));
      }
  }

  /** If every event and matching reply parses, stopping at the first `Idle` misses nothing. */
  lemma PumpIsDrain(c: Core)
    requires HandedOut(c) && AllReadable(c)
    ensures PumpIdle(c) == Drain(c)
  {
    hide Digest, Drain, PumpIdle, AllReadable, MuteOnlyLast;
    ReadableMeansMuteOnlyLast(c);
    PumpIsDrainExactly(c);
  }

  /** Two event lines of which the first does not parse: the callers' loop stops between them. */
  lemma IdleMidBatch(c: Core)
    requires HandedOut(c) && !c.readyAsOk && c.rx == RCV_HEAD + CRLF + (READY + CRLF + [])
    ensures PumpIdle(c) == Drained(c.(rx := READY + CRLF + []), [])
    ensures Drain(c) == Drained(c.(rx := []), [Noticed(Ready)])
  {
    var second := c.(rx := READY + CRLF + []);
    var third := c.(rx := []);
    PollOfEvent(c, RCV_HEAD, second.rx);
    PollOfEvent(second, READY, []);
    assert ParseEvent(RCV_HEAD).Malformed?;
    ReadyParses();
    assert PollOnce(third) == Polled(third, Poll.Idle, []);
    hide PollOnce;
    assert Drain(third) == Drained(third, []);
    assert Drain(second) == Drained(third, [Noticed(Ready)] + []);
    assert Drain(c) == Drained(third, [] + ([Noticed(Ready)] + []));
  }

  lemma PollOfEvent(c: Core, line: seq<u8>, rest: seq<u8>)
    requires HandedOut(c) && !c.readyAsOk && c.rx == line + CRLF + rest
    requires CR !in line && |line| <= LINE_BUF && IsEvent(line)
    ensures PollOnce(c) == Polled(c.(rx := rest), NoticeOf(ParseEvent(line)), [line])
  {
    hide NextLineEnd, ParseEvent, IsEvent;
    NextLineEndOfLine(line, rest);
    assert c.rx[..|line|] == line && c.rx[|line| + 2..] == rest;
  }

  /** A complete line nobody waits for blocks everything behind it, whatever arrives, for as long as no
      command is submitted or completed. */
  lemma UnclaimedLineBlocks(c: Core, line: seq<u8>, rest: seq<u8>, more: seq<u8>)
    requires HandedOut(c) && c.rx == line + CRLF + rest && CR !in line && |line| <= LINE_BUF
    requires !Takes(c, line)
    ensures Digest(Longer(c, more)) == Drained(Longer(c, more), [])
    ensures PollOnce(Longer(c, more)) == Polled(Longer(c, more), Poll.Idle, [])
  {
    hide NextLineEnd, ParseEvent, ParseResponse, ResponseMatches, IsEvent;
    var long := Longer(c, more);
    Associate(line + CRLF, rest, more);
    NextLineEndOfLine(line, rest + more);
    assert long.rx[..|line|] == line;
  }
}
