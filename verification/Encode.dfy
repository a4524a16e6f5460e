/** The bounded in-place encoder. */
module Encode {
  import opened Bytes
  import opened Types
  import opened Decimal
  import opened CommandLine

  datatype Outcome = Pass | Fail(error: Error) {
    predicate IsFailure() { Fail? }
    function PropagateFailure<T>(): Result<T>
      requires Fail?
    {
      Failure(error)
    }
  }

  function Reverse(s: seq<u8>): (r: seq<u8>)
    ensures |r| == |s|
  {
    if s == [] then [] else [s[|s| - 1]] + Reverse(s[..|s| - 1])
  }

  /** A cursor over a caller's buffer. */
  class Writer {
    const buf: array<u8>
    var pos: nat

    /** Everything the writer was asked to write, whether or not it fitted. */
    ghost var asked: seq<u8>
    ghost const initial: seq<u8>

    /** The buffer starts with a prefix of what was asked and is untouched behind the cursor. */
    ghost predicate Valid()
      reads this, buf
    {
      && |initial| == buf.Length
      && pos <= buf.Length
      && buf[..pos] <= asked
      && buf[pos..] == initial[pos..]
    }

    /** Nothing has been refused yet. */
    ghost predicate Complete()
      reads this, buf
    {
      Valid() && buf[..pos] == asked
    }

    /** `text` was asked for on top of what was before, and refused exactly when there is no room. */
    twostate predicate Attempted(text: seq<u8>, r: Outcome)
      reads this, buf
    {
      && Valid()
      && asked == old(asked) + text
      && (r.Pass? <==> |asked| <= buf.Length)
      && (r.Pass? ==> Complete())
      && (r.Fail? ==> r.error == TxOverflow)
    }

    constructor (buf: array<u8>)
      ensures Complete() && asked == [] && this.buf == buf && initial == buf[..]
    {
      this.buf := buf;
      pos := 0;
      asked := [];
      initial := buf[..];
    }

    method Write(s: seq<u8>) returns (r: Outcome)
      requires Complete()
      modifies this, buf
      ensures Attempted(s, r)
    {
      asked := asked + s;
      if pos + |s| > buf.Length {
        return Fail(TxOverflow);
      }
      for k := 0 to |s|
        invariant pos == old(pos) && asked == old(asked) + s
        invariant buf[..pos + k] == old(asked) + s[..k]
        invariant buf[pos + k..] == initial[pos + k..]
      {
        buf[pos + k] := s[k];
        assert buf[..pos + k + 1] == buf[..pos + k] + [s[k]];
        assert s[..k + 1] == s[..k] + [s[k]];
      }
      pos := pos + |s|;
      return Pass;
    }

    method Number16(n: u16) returns (r: Outcome)
      requires Complete()
      modifies this, buf
      ensures Attempted(Show(n), r)
    {
      assert Pow10(5) == 100000;
      r := Digits(n, 5);
    }

    method Number32(n: u32) returns (r: Outcome)
      requires Complete()
      modifies this, buf
      ensures Attempted(Show(n), r)
    {
      assert Pow10(9) == 1000000000 && Pow10(10) == 10 * Pow10(9);
      r := Digits(n, 10);
    }

    /** The digit loop of `u16` and `u32`, which differ only in the number of slots. */
    method Digits(number: nat, slots: nat) returns (r: Outcome)
      requires Complete() && number < Pow10(slots)
      modifies this, buf
      ensures Attempted(Show(number), r)
    {
      if number == 0 {
        r := Write([ZERO]);
        return;
      }
      var digits := new u8[slots];
      var i := Collect(number, digits);
      ghost var goal := asked + Show(number);
      var j := i;
      while j > 0
        invariant 0 <= j <= i && Complete() && fresh(digits) && digits.Length == slots
        invariant goal == asked + Reverse(digits[..j])
      {
        j := j - 1;
        assert digits[..j + 1][..j] == digits[..j];
        NextPiece(asked, [digits[j]], Reverse(digits[..j]), goal);
        r := Write([digits[j]]);
        if r.Fail? {
          asked := goal;
          return;
        }
      }
      assert goal == asked + [];
      return Pass;
    }

    /** Address, length and their commas: one numeric field of a comma-separated line. */
    method Field(n: u16) returns (r: Outcome)
      requires Complete()
      modifies this, buf
      ensures Attempted(Show(n) + [COMMA], r)
    {
      ghost var goal := asked + (Show(n) + [COMMA]);
      NextPiece(asked, Show(n), [COMMA], goal);
      r := Number16(n);
      if r.Fail? {
        asked := goal;
        return;
      }
      r := Write([COMMA]);
    }

    method SendFields(to: u16, data: seq<u8>) returns (r: Outcome)
      requires Complete()
      modifies this, buf
      ensures Attempted(SendText(to, data), r)
    {
      ghost var goal := asked + SendText(to, data);
      ghost var n := |data| % 0x1_0000;
      NextPiece(asked, Show(to) + [COMMA], Show(n) + [COMMA] + data, goal);
      r := Field(to);
      if r.Fail? {
        asked := goal;
        return;
      }
      NextPiece(asked, Show(n) + [COMMA], data, goal);
      r := Field(|data| % 0x1_0000);
      if r.Fail? {
        asked := goal;
        return;
      }
      r := Write(data);
    }

    method ParamFields(p: RfParams) returns (r: Outcome)
      requires Complete()
      modifies this, buf
      ensures Attempted(ParamsText(p), r)
    {
      ghost var goal := asked + ParamsText(p);
      ghost var last := Show(p.preamble);
      NextPiece(asked, Show(p.sf) + [COMMA], Show(p.bw) + [COMMA] + (Show(p.cr) + [COMMA] + last), goal);
      r := Field(p.sf);
      if r.Fail? {
        asked := goal;
        return;
      }
      NextPiece(asked, Show(p.bw) + [COMMA], Show(p.cr) + [COMMA] + last, goal);
      r := Field(p.bw);
      if r.Fail? {
        asked := goal;
        return;
      }
      NextPiece(asked, Show(p.cr) + [COMMA], last, goal);
      r := Field(p.cr);
      if r.Fail? {
        asked := goal;
        return;
      }
      r := Number16(p.preamble);
    }

    /** A name and its value, as in `AT+ADDRESS=5`. */
    method Set16(lead: seq<u8>, n: u16) returns (r: Outcome)
      requires Complete()
      modifies this, buf
      ensures Attempted(lead + Show(n), r)
    {
      ghost var goal := asked + (lead + Show(n));
      NextPiece(asked, lead, Show(n), goal);
      r := Write(lead);
      if r.Fail? {
        asked := goal;
        return;
      }
      r := Number16(n);
    }

    /** The same for 32-bit values. */
    method Set32(lead: seq<u8>, n: u32) returns (r: Outcome)
      requires Complete()
      modifies this, buf
      ensures Attempted(lead + Show(n), r)
    {
      ghost var goal := asked + (lead + Show(n));
      NextPiece(asked, lead, Show(n), goal);
      r := Write(lead);
      if r.Fail? {
        asked := goal;
        return;
      }
      r := Number32(n);
    }

    /** The same for raw bytes. */
    method SetBytes(lead: seq<u8>, s: seq<u8>) returns (r: Outcome)
      requires Complete()
      modifies this, buf
      ensures Attempted(lead + s, r)
    {
      ghost var goal := asked + (lead + s);
      NextPiece(asked, lead, s, goal);
      r := Write(lead);
      if r.Fail? {
        asked := goal;
        return;
      }
      r := Write(s);
    }

    /** The same for the radio parameters. */
    method SetParams(lead: seq<u8>, p: RfParams) returns (r: Outcome)
      requires Complete()
      modifies this, buf
      ensures Attempted(lead + ParamsText(p), r)
    {
      ghost var goal := asked + (lead + ParamsText(p));
      NextPiece(asked, lead, ParamsText(p), goal);
      r := Write(lead);
      if r.Fail? {
        asked := goal;
        return;
      }
      r := ParamFields(p);
    }

    /** The same for a destination and its payload. */
    method SetSend(lead: seq<u8>, to: u16, data: seq<u8>) returns (r: Outcome)
      requires Complete()
      modifies this, buf
      ensures Attempted(lead + SendText(to, data), r)
    {
      ghost var goal := asked + (lead + SendText(to, data));
      NextPiece(asked, lead, SendText(to, data), goal);
      r := Write(lead);
      if r.Fail? {
        asked := goal;
        return;
      }
      r := SendFields(to, data);
    }

    /** The line of a command without its terminator. */
    method Command(cmd: Command) returns (r: Outcome)
      requires Complete()
      modifies this, buf
      ensures Attempted(Body(cmd), r)
    {
      match cmd {
        case Ping => r := Write(AT);
        case GetAddress => r := Write(AT_GET_ADDRESS);
        case SetAddress(n) => r := Set16(AT_SET_ADDRESS, n);
        case GetNetworkId => r := Write(AT_GET_NETWORKID);
        case SetNetworkId(n) => r := Set16(AT_SET_NETWORKID, n);
        case GetBand => r := Write(AT_GET_BAND);
        case SetBand(hz) => r := Set32(AT_SET_BAND, hz);
        case GetParameters => r := Write(AT_GET_PARAMETER);
        case SetParameters(p) => r := SetParams(AT_SET_PARAMETER, p);
        case GetCpin => r := Write(AT_GET_CPIN);
        case SetCpin(pw) => r := SetBytes(AT_SET_CPIN, pw);
        case GetCrfop => r := Write(AT_GET_CRFOP);
        case GetUid => r := Write(AT_GET_UID);
        case GetVersion => r := Write(AT_GET_VER);
        case FactoryReset => r := Write(AT_RESET);
        case Send(to, data) => r := SetSend(AT_SEND, to, data);
      }
    }
  }

  lemma NextPiece(before: seq<u8>, piece: seq<u8>, rest: seq<u8>, goal: seq<u8>)
    requires goal == before + (piece + rest)
    ensures goal == (before + piece) + rest
    ensures before + piece <= goal
  {
  }

  lemma ReverseMore(done: seq<u8>, more: seq<u8>)
    requires |more| == |done| + 1 && more[..|done|] == done
    ensures Reverse(more) == [more[|done|]] + Reverse(done)
  {
  }

  lemma NextDigit(n: nat, done: seq<u8>, more: seq<u8>)
    requires n > 0 && |more| == |done| + 1
    requires more[..|done|] == done && more[|done|] == ZERO + n % 10
    ensures Show(n) + Reverse(done) == (if n / 10 > 0 then Show(n / 10) else []) + Reverse(more)
  {
    hide Reverse, Show;
    ReverseMore(done, more);
    ShowStep(n);
    Associate(if n / 10 > 0 then Show(n / 10) else [], [ZERO + n % 10], Reverse(done));
  }

  lemma ShowStep(n: nat)
    requires n > 0
    ensures Show(n) == (if n / 10 > 0 then Show(n / 10) else []) + [ZERO + n % 10]
  {
  }

  /** Fill the slots with the digits of `number`, least significant first. */
  method Collect(number: nat, digits: array<u8>) returns (i: nat)
    requires 0 < number < Pow10(digits.Length)
    modifies digits
    ensures i <= digits.Length && Show(number) == Reverse(digits[..i])
  {
    i := 0;
    var n := number;
    while n > 0
      invariant i <= digits.Length && n < Pow10(digits.Length - i)
      invariant Show(number) == (if n > 0 then Show(n) else []) + Reverse(digits[..i])
      decreases n
    {
      assert Pow10(0) == 1;
      ghost var done := digits[..i];
      digits[i] := ZERO + n % 10;
      NextDigit(n, done, digits[..i + 1]);
      n := n / 10;
      i := i + 1;
    }
  }

  /** The encoder succeeds exactly when the command's line fits, and then writes exactly that line. */
  method Encode(cmd: Command, buf: array<u8>) returns (r: Result<nat>)
    modifies buf
    ensures r.Success? <==> |Line(cmd)| <= buf.Length
    ensures r.Success? ==> r.value == |Line(cmd)| && buf[..r.value] == Line(cmd)
    ensures r.Success? ==> buf[r.value..] == old(buf[..])[r.value..]
    ensures r.Failure? ==> r.error == TxOverflow
    ensures r.Failure? ==> exists p :: 0 <= p <= buf.Length && buf[..p] <= Line(cmd) && buf[p..] == old(buf[..])[p..]
  {
    hide Body;
    var w := new Writer(buf);
    :- w.Command(cmd);
    :- w.Write(CRLF);
    return Success(w.pos);
  }
}
