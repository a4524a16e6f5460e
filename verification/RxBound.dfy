/** How long an event line may be before a reader that drains after every read can overflow the
    512-byte receive buffer. */
module RxBound {
  import opened Bytes
  import Decimal
  import opened Decode
  import opened Framing
  import opened Machine
  import History
  import opened Chunking

  /** Lines the parser accepts as events, of at most this length. */
  predicate EventLines(lines: seq<seq<u8>>, limit: nat) {
    forall l <- lines :: CR !in l && |l| <= limit && ParseEvent(l).Good?
  }

  /** Draining event lines surfaces every complete one and keeps the unfinished rest. */
  lemma {:induction false} DigestEvents(c: Core, more: seq<u8>, lines: seq<seq<u8>>, limit: nat) returns (k: nat)
    requires EventLines(lines, limit) && limit <= LINE_BUF
    requires c.rx + more == Unlines(lines)
    ensures k <= |lines| && Digest(c).Drained?
    ensures var d := Digest(c);
      d.core.rx + more == Unlines(lines[k..]) && NextLineEnd(d.core.rx).None? && |d.outs| == k
    decreases |c.rx|
  {
    hide ParseEvent, NextLineEnd, Judge, EventLines;
    match NextLineEnd(c.rx)
    case None => k := 0;
    case Some(end) =>
      var line, drained := c.rx[..end], c.(rx := c.rx[end + 2..]);
      HeadEvent(c, more, lines, limit);
      k := DigestEvents(Judge(c, line, drained).core, more, lines[1..], limit);
      assert lines[1..][k..] == lines[k + 1..];
      k := k + 1;
  }

  /** Stopping at the first `Idle`, as the transports do, is the same drain here. */
  lemma CallersDrainEvents(c: Core, more: seq<u8>, lines: seq<seq<u8>>, limit: nat)
    requires EventLines(lines, limit) && limit <= LINE_BUF
    requires HandedOut(c) && c.rx + more == Unlines(lines)
    ensures PumpIdle(c) == Drain(c)
  {
    hide Digest, Drain, PumpIdle, AllReadable, EventLines;
    EventsReadable(c, more, lines, limit);
    PumpIsDrain(c);
  }

  lemma {:induction false} EventsReadable(c: Core, more: seq<u8>, lines: seq<seq<u8>>, limit: nat)
    requires EventLines(lines, limit) && limit <= LINE_BUF
    requires c.rx + more == Unlines(lines)
    ensures AllReadable(c)
    decreases |c.rx|
  {
    hide ParseEvent, NextLineEnd, Judge, EventLines, Behind, Takes, Unreadable;
    match NextLineEnd(c.rx)
    case None =>
    case Some(end) =>
      HeadEvent(c, more, lines, limit);
      JudgeByClass(c, c.rx[..end], c.rx[end + 2..]);
      EventsReadable(Behind(c, c.rx[..end], c.rx[end + 2..]), more, lines[1..], limit);
  }

  lemma HeadEvent(c: Core, more: seq<u8>, lines: seq<seq<u8>>, limit: nat)
    requires EventLines(lines, limit) && c.rx + more == Unlines(lines) && NextLineEnd(c.rx).Some?
    ensures lines != [] && EventLines(lines[1..], limit)
    ensures var end := NextLineEnd(c.rx).value; var line := c.rx[..end];
      var j := Judge(c, line, c.(rx := c.rx[end + 2..]));
      && end <= limit && !(RESET <= line)
      && j.eaten == [line] && History.Surfaced(j.out)
      && j.core.rx == c.rx[end + 2..] && j.core.rx + more == Unlines(lines[1..])
  {
    hide ParseEvent, NextLineEnd, Judge, EventLines, IsEvent;
    var end := NextLineEnd(c.rx).value;
    LinesOfLimit(lines, limit);
    HeadLine(c.rx, more, lines);
    HeadParses(lines, limit);
    ParsedIsEvent(lines[0]);
    EventJudged(c, lines[0], c.(rx := c.rx[end + 2..]));
    EventLinesSuffix(lines, 1, limit);
  }

  lemma HeadParses(lines: seq<seq<u8>>, limit: nat)
    requires EventLines(lines, limit) && lines != []
    ensures ParseEvent(lines[0]).Good? && |lines[0]| <= limit
  {
    assert lines[0] in lines;
  }

  lemma EventJudged(c: Core, line: seq<u8>, drained: Core)
    requires IsEvent(line) && ParseEvent(line).Good? && drained == c.(rx := drained.rx)
    ensures var j := Judge(c, line, drained);
      j.eaten == [line] && History.Surfaced(j.out) && j.core.rx == drained.rx
  {
    hide ParseEvent, ResponseMatches;
  }

  /** After each read the residue is at most one unfinished line, so the next read fits. */
  lemma {:induction false} ReadsFit(c: Core, chunks: seq<seq<u8>>, future: seq<u8>, lines: seq<seq<u8>>, limit: nat)
    requires HandedOut(c) && Bounded(c) && EventLines(lines, limit) && limit <= 255
    requires c.rx + Concat(chunks) + future == Unlines(lines)
    requires NextLineEnd(c.rx).None? && forall b <- chunks :: |b| <= READ_BUF
    ensures |c.rx| <= limit + 1 && Fits(c, chunks)
    ensures Feed(c, chunks).Drained? && |Feed(c, chunks).core.rx| <= limit + 1
    decreases |chunks|
  {
    hide NextLineEnd, Drain, Digest, EventLines, PollOnce, ParseEvent;
    assert Framable(lines) && forall l <- lines :: |l| <= limit by { LinesOfLimit(lines, limit); }
    Associate(c.rx, Concat(chunks), future);
    Residue(c.rx, Concat(chunks) + future, lines, limit);
    if chunks != [] {
      var a, rest := chunks[0], chunks[1..];
      assert a in chunks;
      var first := Longer(c, a);
      assert PushRx(c, a).0 == first by { assert a[..|a|] == a; }
      assert first.rx + (Concat(rest) + future) == Unlines(lines) by {
        Associate(c.rx, a, Concat(rest));
        Associate(first.rx, Concat(rest), future);
      }
      var k := DigestEvents(first, Concat(rest) + future, lines, limit);
      DrainIsDigest(first);
      DrainKeepsTx(first);
      var next := Drain(first).core;
      Associate(next.rx, Concat(rest), future);
      EventLinesSuffix(lines, k, limit);
      ReadsFit(next, rest, future, lines[k..], limit);
    }
  }

  lemma LinesOfLimit(lines: seq<seq<u8>>, limit: nat)
    requires EventLines(lines, limit)
    ensures Framable(lines) && forall l <- lines :: |l| <= limit
  {
  }

  lemma EventLinesSuffix(lines: seq<seq<u8>>, k: nat, limit: nat)
    requires EventLines(lines, limit) && k <= |lines|
    ensures EventLines(lines[k..], limit)
  {
  }

  /** No cutting of any such stream into reads overflows the buffer of a fresh driver. */
  ghost predicate NeverOverflows(limit: nat) {
    forall lines, chunks, future ::
      EventLines(lines, limit) && Concat(chunks) + future == Unlines(lines) && (forall b <- chunks :: |b| <= READ_BUF)
      ==> Fits(FRESH, chunks)
  }

  /** A line of 256 bytes. */
  const LONG_LINE: seq<u8> := RcvText(1, seq(241, _ => 97), 0, 0)

  /** The split that overflows: the line, its carriage return alone, then a full read. */
  function BadReads(s: seq<u8>): seq<seq<u8>>
    requires |s| >= 513
  {
    [s[..256], s[256..257], s[257..513]]
  }

  lemma ThreeDigits()
    ensures Decimal.Show(241) == [50, 52, 49] && Decimal.Show(1) == [49] && Decimal.ShowInt(0) == [48]
  {
    var two := Decimal.Show(2);
    assert two == [50];
    var twentyFour := Decimal.Show(24);
    assert twentyFour == two + [52];
    assert Decimal.Show(241) == twentyFour + [49];
  }

  lemma LongLine()
    ensures |LONG_LINE| == 256 && CR !in LONG_LINE && ParseEvent(LONG_LINE).Good?
  {
    hide ParseEvent;
    var data: seq<u8> := seq(241, _ => 97);
    ParseRcvText(1, data, 0, 0);
    ThreeDigits();
    assert |LONG_LINE| == 5 + 1 + 1 + 3 + 1 + 241 + 1 + 1 + 1 + 1;
    assert CR !in data;
  }

  lemma DrainNothing(c: Core)
    requires HandedOut(c) && NextLineEnd(c.rx).None?
    ensures Drain(c) == Drained(c, [])
  {
    hide NextLineEnd;
  }

  lemma LongLineOverflows()
    ensures var s := Unlines([LONG_LINE, LONG_LINE]); |s| == 516 && !Fits(FRESH, BadReads(s))
  {
    hide Drain, PollOnce, Decimal.Show, Decimal.ShowInt, ParseEvent;
    LongLine();
    var l := LONG_LINE;
    hide RcvText;
    var s := Unlines([l, l]);
    UnlinesOne(l);
    assert [l, l][1..] == [l];
    assert s == l + CRLF + (l + CRLF);
    var b := BadReads(s);
    assert s[..256] == l && s[256] == CR;
    assert b[0] == l && b[1] == [s[256]] && |b[2]| == 256;
    var c1 := Longer(FRESH, b[0]);
    assert c1.rx == l;
    DrainNothing(c1);
    var c2 := Longer(c1, b[1]);
    assert c2.rx == l + [CR] + [];
    PositionAfter(l, CR, []);
    DrainNothing(c2);
    var c3 := Longer(c2, b[2]);
    assert |c3.rx| == 513;
    assert b[1..][1..][0] == b[2] && b[1..][0] == b[1];
    assert !Fits(c2, b[1..][1..]);
    assert !Fits(c1, b[1..]);
  }

  /** The bound is exact: 255 bytes is the longest event line every sequence of reads survives. */
  lemma RxBoundExactly(limit: nat)
    ensures NeverOverflows(limit) <==> limit <= 255
  {
    hide Fits, Concat, Unlines, ParseEvent;
    if limit <= 255 {
      forall lines, chunks, future |
          && EventLines(lines, limit) && Concat(chunks) + future == Unlines(lines)
          && (forall b <- chunks :: |b| <= READ_BUF)
        ensures Fits(FRESH, chunks)
      {
        FreshFits(lines, chunks, future, limit);
      }
    } else {
      LongLine();
      LongLineOverflows();
      var s := Unlines([LONG_LINE, LONG_LINE]);
      BadReadsConcat(s);
      assert EventLines([LONG_LINE, LONG_LINE], limit);
      assert forall b <- BadReads(s) :: |b| <= READ_BUF;
    }
  }

  lemma FreshFits(lines: seq<seq<u8>>, chunks: seq<seq<u8>>, future: seq<u8>, limit: nat)
    requires EventLines(lines, limit) && limit <= 255
    requires Concat(chunks) + future == Unlines(lines) && (forall b <- chunks :: |b| <= READ_BUF)
    ensures Fits(FRESH, chunks)
  {
    hide Fits, Feed, Unlines;
    assert FRESH.rx + Concat(chunks) == Concat(chunks);
    ReadsFit(FRESH, chunks, future, lines, limit);
  }

  lemma BadReadsConcat(s: seq<u8>)
    requires |s| >= 513
    ensures Concat(BadReads(s)) + s[513..] == s
  {
    var b := BadReads(s);
    assert b[1..] == [b[1], b[2]] && b[1..][1..] == [b[2]];
    assert Concat([b[2]]) == b[2];
    assert Concat(b[1..]) == s[256..513];
    assert Concat(b) == s[..513];
  }
}
