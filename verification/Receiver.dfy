/** What the other end makes of a command line: a reader of the command set that is independent of the
    encoder. */
module Receiver {
  import opened Bytes
  import opened Types
  import opened Decimal
  import opened CommandLine
  import opened Decode

  /** A line without its terminator. */
  function Unterminated(line: seq<u8>): Parsed<seq<u8>> {
    if |line| >= 2 && line[|line| - 2..] == Ascii("\r\n") then Good(line[..|line| - 2]) else Malformed
  }

  /** Commands that are a name only. */
  function ReadName(body: seq<u8>): Option<Command> {
    if body == Ascii("AT") then Some(Ping)
    else if body == Ascii("AT+ADDRESS?") then Some(GetAddress)
    else if body == Ascii("AT+NETWORKID?") then Some(GetNetworkId)
    else if body == Ascii("AT+BAND?") then Some(GetBand)
    else if body == Ascii("AT+PARAMETER?") then Some(GetParameters)
    else if body == Ascii("AT+CPIN?") then Some(GetCpin)
    else if body == Ascii("AT+CRFOP?") then Some(GetCrfop)
    else if body == Ascii("AT+UID?") then Some(GetUid)
    else if body == Ascii("AT+VER?") then Some(GetVersion)
    else if body == Ascii("AT+RESET") then Some(FactoryReset)
    else None
  }

  /** Commands that set something. */
  function ReadSetting(body: seq<u8>): Parsed<Command> {
    if Ascii("AT+ADDRESS=") <= body then
      var n :- Number(ParseU16(body[11..]));
      Good(SetAddress(n))
    else if Ascii("AT+NETWORKID=") <= body then
      var n :- Number(ParseU8(body[13..]));
      Good(SetNetworkId(n))
    else if Ascii("AT+BAND=") <= body then
      var n :- Number(ParseU32(body[8..]));
      Good(SetBand(n))
    else if Ascii("AT+PARAMETER=") <= body then
      var p :- ParseParams(body[13..]);
      Good(SetParameters(p))
    else if Ascii("AT+CPIN=") <= body then Good(SetCpin(body[8..]))
    else Malformed
  }

  /** A payload is read by its length, not up to the terminator. */
  function ReadCommand(line: seq<u8>): Parsed<Command> {
    if Ascii("AT+SEND=") <= line then
      var (to, data, rest) :- ReadSend(line[8..]);
      if rest == [] then Good(Send(to, data)) else Malformed
    else
      var body :- Unterminated(line);
      match ReadName(body)
      case Some(cmd) => Good(cmd)
      case None => ReadSetting(body)
  }

  lemma ReadsNames(cmd: Command)
    requires TagOf(cmd) in {0, 1, 3, 5, 7, 9, 11, 12, 13, 14}
    ensures ReadName(Body(cmd)) == Some(cmd)
  {
    CommandTexts();
    hide Ascii;
  }

  lemma NotAName(body: seq<u8>, name: seq<u8>)
    requires name in {AT_SET_ADDRESS, AT_SET_NETWORKID, AT_SET_BAND, AT_SET_PARAMETER, AT_SET_CPIN} && name <= body
    ensures ReadName(body).None?
  {
    CommandTexts();
    hide Ascii;
    assert body[3] == name[3] && body[4] == name[4];
    assert body[|name| - 1] == name[|name| - 1] == 61;
  }

  lemma ReadsSettings(cmd: Command)
    requires cmd.SetAddress? || cmd.SetNetworkId? || cmd.SetBand? || cmd.SetParameters? || cmd.SetCpin?
    ensures ReadSetting(Body(cmd)) == Good(cmd)
  {
    CommandTexts();
    hide Ascii, ParseUnsigned, ParseParams, Show;
    var body := Body(cmd);
    match cmd
    case SetAddress(n) =>
      AfterPrefix(AT_SET_ADDRESS, Show(n));
      ParseShow(n, 0xFFFF);
    case SetNetworkId(n) =>
      assert body[3] == AT_SET_NETWORKID[3];
      AfterPrefix(AT_SET_NETWORKID, Show(n));
      ParseShow(n, 0xFF);
    case SetBand(n) =>
      AfterPrefix(AT_SET_BAND, Show(n));
      ParseShow(n, 0xFFFF_FFFF);
    case SetParameters(p) =>
      assert body[3] == AT_SET_PARAMETER[3];
      AfterPrefix(AT_SET_PARAMETER, ParamsText(p));
      ParseParamsText(p);
    case SetCpin(password) =>
      AfterPrefix(AT_SET_CPIN, password);
  }

  lemma SendByName(cmd: Command)
    requires AT_SEND <= Line(cmd)
    ensures cmd.Send?
  {
    var line := Line(cmd) + seq(14, _ => ZERO);
    TagOfLine(cmd, seq(14, _ => ZERO));
    hide Line;
    assert line[2] == AT_SEND[2] && line[3] == AT_SEND[3];
  }

  lemma ReadsBody(cmd: Command)
    requires !cmd.Send?
    ensures match ReadName(Body(cmd))
            case Some(c) => c == cmd
            case None => ReadSetting(Body(cmd)) == Good(cmd)
  {
    hide ReadName, ReadSetting, Show, ParamsText;
    if cmd.SetAddress? || cmd.SetNetworkId? || cmd.SetBand? || cmd.SetParameters? || cmd.SetCpin? {
      ReadsSettings(cmd);
      NotAName(Body(cmd), if cmd.SetAddress? then AT_SET_ADDRESS else if cmd.SetNetworkId? then AT_SET_NETWORKID
                          else if cmd.SetBand? then AT_SET_BAND else if cmd.SetParameters? then AT_SET_PARAMETER
                          else AT_SET_CPIN);
    } else {
      ReadsNames(cmd);
    }
  }

  /** Every command whose length field has not wrapped is understood as what it is. */
  lemma CommandReadsBack(cmd: Command)
    requires Unwrapped(cmd)
    ensures ReadCommand(Line(cmd)) == Good(cmd)
  {
    CommandTexts();
    Separators();
    hide Ascii, Body, ReadSend, ReadName, ReadSetting;
    if cmd.Send? {
      SendReadsBack(cmd.to, cmd.data, []);
      assert Line(cmd) + [] == Line(cmd);
    } else {
      if AT_SEND <= Line(cmd) {
        SendByName(cmd);
      }
      var line := Line(cmd);
      assert line[|line| - 2..] == CRLF && line[..|line| - 2] == Body(cmd);
      ReadsBody(cmd);
    }
  }
}
