/** The driver over fixed buffers, updated in place. */
module Driver {
  import opened Bytes
  import opened Types
  import CommandLine
  import opened Decode
  import opened Framing
  import opened Machine
  import opened History
  import Encode

  /** Moves what starts at `from` to the front, byte by byte in the same array. */
  method ShiftLeft(a: array<u8>, from: nat, len: nat)
    requires from <= len <= a.Length
    modifies a
    ensures a[..len - from] == old(a[from..len])
  {
    for k := 0 to len - from
      invariant a[..k] == old(a[from..from + k])
      invariant forall j :: from + k <= j < len ==> a[j] == old(a[j])
    {
      a[k] := a[from + k];
    }
  }

  /** Writes some bytes into the spare room behind the first `len`. */
  method Extend(a: array<u8>, len: nat, s: seq<u8>)
    requires len + |s| <= a.Length
    modifies a
    ensures a[..len + |s|] == old(a[..len]) + s
  {
    for k := 0 to |s|
      invariant a[..len + k] == old(a[..len]) + s[..k]
    {
      a[len + k] := s[k];
      assert a[..len + k + 1] == a[..len + k] + [s[k]];
      assert s[..k + 1] == s[..k] + [s[k]];
    }
    assert s[..|s|] == s;
  }

  class Driver {
    const rx: array<u8>
    var rxLen: nat
    const tx: array<u8>
    var txLen: nat
    var inFlight: nat
    var state: State
    var readyAsOk: bool
    var pending: Option<AwaitKind>
    const lineBuf: array<u8>
    var lineLen: nat

    /** The operations performed so far. */
    ghost var log: seq<Op>

    ghost predicate Shaped()
      reads this
    {
      && rx.Length == RX_BUF && tx.Length == TX_BUF && lineBuf.Length == LINE_BUF
      && rx != tx && rx != lineBuf && tx != lineBuf
      && rxLen <= RX_BUF && inFlight <= txLen <= TX_BUF && lineLen <= LINE_BUF
    }

    /** The fields as one value. */
    ghost function Now(): (c: Core)
      requires Shaped()
      reads this, rx, tx
      ensures Bounded(c)
    {
      Core(rx[..rxLen], tx[..txLen], inFlight, state, readyAsOk, pending)
    }

    /** The fields are what the operations so far lead to; so whatever holds of every run holds here. */
    ghost predicate Valid()
      reads this, rx, tx
    {
      Shaped() && Run(log).core == Now() && !Run(log).crashed
    }

    lemma Facts()
      requires Valid()
      ensures Shaped() && Run(log).core == Now() && !Run(log).crashed && Bounded(Now())
      ensures txLen == |Now().tx| && rxLen == |Now().rx| && inFlight == Now().inFlight
    {
    }

    constructor ()
      ensures Valid() && Now() == FRESH && log == []
      ensures fresh(rx) && fresh(tx) && fresh(lineBuf)
    {
      rx := new u8[RX_BUF];
      tx := new u8[TX_BUF];
      lineBuf := new u8[LINE_BUF];
      rxLen, txLen, lineLen := 0, 0, 0;
      inFlight := 0;
      state := State.Idle;
      readyAsOk := false;
      pending := None;
      log := [];
    }

    ghost method Record(op: Op)
      requires Shaped() && Run(log + [op]).core == Now() && !Run(log + [op]).crashed
      modifies this`log
      ensures Valid() && log == old(log) + [op]
    {
      log := log + [op];
    }

    method Submit(cmd: Command) returns (r: Result<()>)
      requires Valid()
      modifies this, tx
      ensures Valid() && log == old(log) + [DoSubmit(cmd)]
      ensures (Now(), r) == Machine.Submit(old(Now()), cmd)
    {
      hide Run, CommandLine.Line;
      RunMore(log, DoSubmit(cmd));
      if !state.Idle? {
        r := Failure(Busy);
      } else {
        var kind := KindOf(cmd);
        readyAsOk := cmd.FactoryReset?;
        var tmp := new u8[TX_BUF];
        var encoded := Encode.Encode(cmd, tmp);
        if encoded.Failure? {
          r := Failure(encoded.error);
        } else if txLen + encoded.value > TX_BUF {
          r := Failure(TxOverflow);
        } else {
          Extend(tx, txLen, tmp[..encoded.value]);
          txLen := txLen + encoded.value;
          state := SendingTx;
          pending := Some(kind);
          r := Success(());
        }
      }
      Record(DoSubmit(cmd));
    }

    method PushRx(bytes: seq<u8>) returns (r: Result<nat>)
      requires Valid()
      modifies this, rx
      ensures Valid() && log == old(log) + [DoPush(bytes)]
      ensures (Now(), r) == Machine.PushRx(old(Now()), bytes)
    {
      hide Run;
      RunMore(log, DoPush(bytes));
      var room := RX_BUF - rxLen;
      if |bytes| > room {
        Extend(rx, rxLen, bytes[..room]);
        rxLen := RX_BUF;
        r := Failure(RxOverflow);
      } else {
        Extend(rx, rxLen, bytes);
        rxLen := rxLen + |bytes|;
        assert bytes[..|bytes|] == bytes;
        r := Success(|bytes|);
      }
      Record(DoPush(bytes));
    }

    method AckTx(count: nat)
      requires Valid()
      modifies this, tx
      ensures Valid() && log == old(log) + [DoAck(count)]
      ensures Now() == Machine.AckTx(old(Now()), count)
    {
      hide Run;
      RunMore(log, DoAck(count));
      var n := if count < inFlight then count else inFlight;
      if n > 0 && n <= txLen {
        ShiftLeft(tx, n, txLen);
        txLen := txLen - n;
      }
      inFlight := inFlight - n;
      if txLen == 0 && state.SendingTx? && pending.Some? {
        state := Awaiting(pending.value);
        pending := None;
      }
      assert Now().tx == old(Now()).tx[n..];
      Record(DoAck(count));
    }

    method NextLineEnd() returns (r: Option<nat>)
      requires Shaped()
      ensures r == Framing.NextLineEnd(rx[..rxLen])
    {
      var i := 0;
      while i < rxLen && rx[i] != CR
        invariant i <= rxLen && CR !in rx[..i]
      {
        i := i + 1;
      }
      ghost var s := rx[..rxLen];
      if i < rxLen {
        assert s == s[..i] + [CR] + s[i + 1..];
        assert s[..i] == rx[..i];
        PositionAfter(s[..i], CR, s[i + 1..]);
      } else {
        assert s == rx[..i];
      }
      r := if i + 1 < rxLen && rx[i + 1] == LF then Some(i) else None;
    }

    method DrainRxLine(end: nat)
      requires Shaped() && end + 2 <= rxLen
      modifies this`rxLen, rx
      ensures Shaped() && Now() == old(Now()).(rx := old(Now()).rx[end + 2..])
    {
      ShiftLeft(rx, end + 2, rxLen);
      rxLen := rxLen - (end + 2);
    }

    /** One poll. `Crash` stands for the panic of an oversized line or length field; the driver is
        of no use afterwards. */
    method Poll() returns (out: Machine.Poll)
      requires Valid()
      modifies this, rx, lineBuf
      ensures out == PollOnce(old(Now())).out
      ensures !out.Crash? ==> Valid() && log == old(log) + [DoPoll] && Now() == PollOnce(old(Now())).core
      ensures out.Crash? ==> log == old(log)
    {
      hide Run, PollOnce;
      RunMore(log, DoPoll);
      out := Advance();
      if !out.Crash? {
        Record(DoPoll);
      }
    }

    /** Copies the head line into the line buffer, which a line over 288 bytes does not fit. */
    method CopyLine(end: nat)
      requires Shaped() && end <= rxLen && end <= LINE_BUF
      modifies this`lineLen, lineBuf
      ensures Shaped() && lineLen == end && lineBuf[..lineLen] == rx[..end]
    {
      for k := 0 to end
        invariant lineBuf[..k] == rx[..k]
      {
        lineBuf[k] := rx[k];
        assert lineBuf[..k + 1] == lineBuf[..k] + [rx[k]];
      }
      lineLen := end;
    }

    /** The body of a poll, which starts over after a swallowed line. */
    method Advance() returns (out: Machine.Poll)
      requires Shaped()
      modifies this`rxLen, this`inFlight, this`state, this`readyAsOk, this`lineLen, rx, lineBuf
      ensures Shaped() && out == PollOnce(old(Now())).out
      ensures !out.Crash? ==> Now() == PollOnce(old(Now())).core
      decreases rxLen
    {
      hide Framing.NextLineEnd, ParseEvent, ParseResponse, ResponseMatches, IsEvent, Position;
      ghost var c := Now();
      if inFlight < txLen {
        out := NeedTx(tx[inFlight..txLen]);
        inFlight := txLen;
        assert tx[c.inFlight..txLen] == c.tx[c.inFlight..];
        return;
      }
      var found := NextLineEnd();
      if found.None? {
        return Machine.Poll.Idle;
      }
      var end := found.value;
      assert c.rx[..end] == rx[..end];
      if end > LINE_BUF {
        return Crash; // the copy below is out of range
      }
      CopyLine(end);
      var line := lineBuf[..lineLen];
      if readyAsOk && RESET <= line {
        DrainRxLine(end);
        out := Advance();
        return;
      }
      if IsEvent(line) {
        if readyAsOk && line == READY {
          DrainRxLine(end);
          readyAsOk := false;
          state := State.Idle;
          return Responded(Ok);
        }
        DrainRxLine(end);
        return NoticeOf(ParseEvent(line));
      }
      if state.Awaiting? && ResponseMatches(state.kind, line) {
        DrainRxLine(end);
        readyAsOk := false;
        state := State.Idle;
        return ReplyOf(ParseResponse(line));
      }
      return Machine.Poll.Idle;
    }
  }

  lemma RunMore(log: seq<Op>, op: Op)
    ensures Run(log + [op]) == Step(Run(log), op)
  {
    assert (log + [op])[..|log|] == log;
  }
}
