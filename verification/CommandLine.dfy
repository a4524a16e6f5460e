/** The command lines of the protocol as byte strings, and what a receiver can recover from them. */
module CommandLine {
  import opened Bytes
  import opened Types
  import opened Decimal

  const AT: seq<u8> := [65, 84] // "AT"
  const AT_GET_ADDRESS: seq<u8> := [65, 84, 43, 65, 68, 68, 82, 69, 83, 83, 63] // "AT+ADDRESS?"
  const AT_SET_ADDRESS: seq<u8> := [65, 84, 43, 65, 68, 68, 82, 69, 83, 83, 61] // "AT+ADDRESS="
  const AT_GET_NETWORKID: seq<u8> := [65, 84, 43, 78, 69, 84, 87, 79, 82, 75, 73, 68, 63] // "AT+NETWORKID?"
  const AT_SET_NETWORKID: seq<u8> := [65, 84, 43, 78, 69, 84, 87, 79, 82, 75, 73, 68, 61] // "AT+NETWORKID="
  const AT_GET_BAND: seq<u8> := [65, 84, 43, 66, 65, 78, 68, 63] // "AT+BAND?"
  const AT_SET_BAND: seq<u8> := [65, 84, 43, 66, 65, 78, 68, 61] // "AT+BAND="
  const AT_GET_PARAMETER: seq<u8> := [65, 84, 43, 80, 65, 82, 65, 77, 69, 84, 69, 82, 63] // "AT+PARAMETER?"
  const AT_SET_PARAMETER: seq<u8> := [65, 84, 43, 80, 65, 82, 65, 77, 69, 84, 69, 82, 61] // "AT+PARAMETER="
  const AT_GET_CPIN: seq<u8> := [65, 84, 43, 67, 80, 73, 78, 63] // "AT+CPIN?"
  const AT_SET_CPIN: seq<u8> := [65, 84, 43, 67, 80, 73, 78, 61] // "AT+CPIN="
  const AT_GET_CRFOP: seq<u8> := [65, 84, 43, 67, 82, 70, 79, 80, 63] // "AT+CRFOP?"
  const AT_GET_UID: seq<u8> := [65, 84, 43, 85, 73, 68, 63] // "AT+UID?"
  const AT_GET_VER: seq<u8> := [65, 84, 43, 86, 69, 82, 63] // "AT+VER?"
  const AT_RESET: seq<u8> := [65, 84, 43, 82, 69, 83, 69, 84] // "AT+RESET"
  const AT_SEND: seq<u8> := [65, 84, 43, 83, 69, 78, 68, 61] // "AT+SEND="

  /** The texts of the commands. */
  lemma CommandTexts()
    ensures AT == Ascii("AT")
    ensures AT_GET_ADDRESS == Ascii("AT+ADDRESS?")
    ensures AT_SET_ADDRESS == Ascii("AT+ADDRESS=")
    ensures AT_GET_NETWORKID == Ascii("AT+NETWORKID?")
    ensures AT_SET_NETWORKID == Ascii("AT+NETWORKID=")
    ensures AT_GET_BAND == Ascii("AT+BAND?")
    ensures AT_SET_BAND == Ascii("AT+BAND=")
    ensures AT_GET_PARAMETER == Ascii("AT+PARAMETER?")
    ensures AT_SET_PARAMETER == Ascii("AT+PARAMETER=")
    ensures AT_GET_CPIN == Ascii("AT+CPIN?")
    ensures AT_SET_CPIN == Ascii("AT+CPIN=")
    ensures AT_GET_CRFOP == Ascii("AT+CRFOP?")
    ensures AT_GET_UID == Ascii("AT+UID?")
    ensures AT_GET_VER == Ascii("AT+VER?")
    ensures AT_RESET == Ascii("AT+RESET")
    ensures AT_SEND == Ascii("AT+SEND=")
  {
  }

  /** The line a command stands for, without its terminator. */
  function Body(cmd: Command): seq<u8> {
    match cmd
    case Ping => AT
    case GetAddress => AT_GET_ADDRESS
    case SetAddress(n) => AT_SET_ADDRESS + Show(n)
    case GetNetworkId => AT_GET_NETWORKID
    case SetNetworkId(n) => AT_SET_NETWORKID + Show(n)
    case GetBand => AT_GET_BAND
    case SetBand(hz) => AT_SET_BAND + Show(hz)
    case GetParameters => AT_GET_PARAMETER
    case SetParameters(p) => AT_SET_PARAMETER + ParamsText(p)
    case GetCpin => AT_GET_CPIN
    case SetCpin(pw) => AT_SET_CPIN + pw
    case GetCrfop => AT_GET_CRFOP
    case GetUid => AT_GET_UID
    case GetVersion => AT_GET_VER
    case FactoryReset => AT_RESET
    case Send(to, data) => AT_SEND + SendText(to, data)
  }

  /** The four fields of a `PARAMETER` line. */
  function ParamsText(p: RfParams): seq<u8> {
    Show(p.sf) + [COMMA] + (Show(p.bw) + [COMMA] + (Show(p.cr) + [COMMA] + Show(p.preamble)))
  }

  /** Destination, 16-bit length field, payload: the length is cast with `as u16`. */
  function SendText(to: u16, data: seq<u8>): seq<u8> {
    Show(to) + [COMMA] + (Show(|data| % 0x1_0000) + [COMMA] + data)
  }

  function Line(cmd: Command): seq<u8> {
    Body(cmd) + CRLF
  }

  /** A payload whose length field does not wrap; implied by fitting any buffer of at most 65535 bytes. */
  predicate Unwrapped(cmd: Command) {
    cmd.Send? ==> |cmd.data| < 0x1_0000
  }

  lemma FittingMeansUnwrapped(cmd: Command)
    requires |Line(cmd)| <= 0xFFFF
    ensures Unwrapped(cmd)
  {
  }

  lemma LineLength(cmd: Command)
    requires (cmd.Send? ==> |cmd.data| <= 240) && (cmd.SetCpin? ==> |cmd.password| <= 8)
    ensures |Line(cmd)| <= 260
  {
    assert Pow10(3) == 1000 && Pow10(5) == 100000 && Pow10(10) == 1_00000_00000;
    match cmd
    case SetAddress(n) => ShowLength(n, 5);
    case SetNetworkId(n) => ShowLength(n, 3);
    case SetBand(hz) => ShowLength(hz, 10);
    case SetParameters(p) =>
      ShowLength(p.sf, 3);
      ShowLength(p.bw, 3);
      ShowLength(p.cr, 3);
      ShowLength(p.preamble, 3);
    case Send(to, data) =>
      ShowLength(to, 5);
      ShowLength(|data|, 3);
    case _ =>
  }

  /** Which command a line starts, decided by a few of its bytes. */
  function Tag(s: seq<u8>): int
    requires |s| >= 14
  {
    if s[2] == CR then 0
    else if s[3] == 65 then (if s[10] == 63 then 1 else 2)
    else if s[3] == 78 then (if s[12] == 63 then 3 else 4)
    else if s[3] == 66 then (if s[7] == 63 then 5 else 6)
    else if s[3] == 80 then (if s[12] == 63 then 7 else 8)
    else if s[3] == 67 && s[4] == 80 then (if s[7] == 63 then 9 else 10)
    else if s[3] == 67 then 11
    else if s[3] == 85 then 12
    else if s[3] == 86 then 13
    else if s[3] == 82 then 14
    else 15
  }

  function TagOf(cmd: Command): int {
    match cmd
    case Ping => 0
    case GetAddress => 1
    case SetAddress(_) => 2
    case GetNetworkId => 3
    case SetNetworkId(_) => 4
    case GetBand => 5
    case SetBand(_) => 6
    case GetParameters => 7
    case SetParameters(_) => 8
    case GetCpin => 9
    case SetCpin(_) => 10
    case GetCrfop => 11
    case GetUid => 12
    case GetVersion => 13
    case FactoryReset => 14
    case Send(_, _) => 15
  }

  /** The tag is readable whatever follows the line. */
  lemma TagOfLine(cmd: Command, rest: seq<u8>)
    requires |Line(cmd) + rest| >= 14
    ensures Tag(Line(cmd) + rest) == TagOf(cmd)
  {
  }

  lemma SameTag(c: Command, d: Command, x: seq<u8>, y: seq<u8>)
    requires Line(c) + x == Line(d) + y
    ensures TagOf(c) == TagOf(d)
  {
    var pad := seq(14, _ => ZERO);
    Associate(Line(c), x, pad);
    Associate(Line(d), y, pad);
    TagOfLine(c, x + pad);
    TagOfLine(d, y + pad);
  }

  lemma Cancel(p: seq<u8>, a: seq<u8>, b: seq<u8>, x: seq<u8>, y: seq<u8>)
    requires (p + a) + CRLF + x == (p + b) + CRLF + y
    ensures a + [CR] + ([LF] + x) == b + [CR] + ([LF] + y)
  {
    var s, t := (p + a) + CRLF + x, (p + b) + CRLF + y;
    assert s[|p|..] == a + [CR] + ([LF] + x);
    assert t[|p|..] == b + [CR] + ([LF] + y);
  }

  lemma SameNumber(p: seq<u8>, m: nat, n: nat, x: seq<u8>, y: seq<u8>)
    requires (p + Show(m)) + CRLF + x == (p + Show(n)) + CRLF + y
    ensures m == n && x == y
  {
    Cancel(p, Show(m), Show(n), x, y);
    SplitAtFirst(Show(m), [LF] + x, Show(n), [LF] + y, CR);
    ShowInjective(m, n);
    assert ([LF] + x)[1..] == x && ([LF] + y)[1..] == y;
  }

  lemma SameField(m: nat, x: seq<u8>, n: nat, y: seq<u8>)
    requires Show(m) + [COMMA] + x == Show(n) + [COMMA] + y
    ensures m == n && x == y
  {
    SplitAtFirst(Show(m), x, Show(n), y, COMMA);
    ShowInjective(m, n);
  }

  /** The fields of a `PARAMETER` line, the last one followed by whatever comes after the line. */
  function ParamsThen(p: RfParams, u: seq<u8>): seq<u8> {
    Show(p.sf) + [COMMA] + (Show(p.bw) + [COMMA] + (Show(p.cr) + [COMMA] + (Show(p.preamble) + u)))
  }

  lemma RegroupParams(p: RfParams, x: seq<u8>)
    ensures ParamsText(p) + [CR] + ([LF] + x) == ParamsThen(p, CRLF + x)
  {
    var a, b, c, d := Show(p.sf) + [COMMA], Show(p.bw) + [COMMA], Show(p.cr) + [COMMA], Show(p.preamble);
    assert CRLF + x == [CR] + ([LF] + x);
    Associate(a + (b + (c + d)), [CR], [LF] + x);
    Associate(a, b + (c + d), CRLF + x);
    Associate(b, c + d, CRLF + x);
    Associate(c, d, CRLF + x);
  }

  lemma SameParams(p: RfParams, q: RfParams, x: seq<u8>, y: seq<u8>)
    requires Line(SetParameters(p)) + x == Line(SetParameters(q)) + y
    ensures p == q && x == y
  {
    Cancel(AT_SET_PARAMETER, ParamsText(p), ParamsText(q), x, y);
    RegroupParams(p, x);
    RegroupParams(q, y);
    SameFields(p, q, x, y);
  }

  lemma SameFields(p: RfParams, q: RfParams, x: seq<u8>, y: seq<u8>)
    requires ParamsThen(p, CRLF + x) == ParamsThen(q, CRLF + y)
    ensures p == q && x == y
  {
    var u, v := CRLF + x, CRLF + y;
    SameField(p.sf, Show(p.bw) + [COMMA] + (Show(p.cr) + [COMMA] + (Show(p.preamble) + u)),
              q.sf, Show(q.bw) + [COMMA] + (Show(q.cr) + [COMMA] + (Show(q.preamble) + v)));
    SameField(p.bw, Show(p.cr) + [COMMA] + (Show(p.preamble) + u),
              q.bw, Show(q.cr) + [COMMA] + (Show(q.preamble) + v));
    SameField(p.cr, Show(p.preamble) + u, q.cr, Show(q.preamble) + v);
    assert Show(p.preamble) + u == ([] + Show(p.preamble)) + CRLF + x;
    assert Show(q.preamble) + v == ([] + Show(q.preamble)) + CRLF + y;
    SameNumber([], p.preamble, q.preamble, x, y);
  }

  lemma RegroupSend(to: u16, n: nat, data: seq<u8>, x: seq<u8>)
    ensures Show(to) + [COMMA] + (Show(n) + [COMMA] + data) + [CR] + ([LF] + x)
         == Show(to) + [COMMA] + (Show(n) + [COMMA] + (data + CRLF + x))
  {
    assert data + CRLF + x == data + ([CR] + ([LF] + x));
    Associate(Show(n) + [COMMA], data, [CR] + ([LF] + x));
    Associate(Show(to) + [COMMA], Show(n) + [COMMA] + data, [CR] + ([LF] + x));
    Associate(Show(to) + [COMMA] + (Show(n) + [COMMA] + data), [CR], [LF] + x);
  }

  lemma SameSend(to: u16, data: seq<u8>, to': u16, data': seq<u8>, x: seq<u8>, y: seq<u8>)
    requires Line(Send(to, data)) + x == Line(Send(to', data')) + y
    ensures to == to' && |data| % 0x1_0000 == |data'| % 0x1_0000
    ensures data + CRLF + x == data' + CRLF + y
  {
    Cancel(AT_SEND, SendText(to, data), SendText(to', data'), x, y);
    var n, m := |data| % 0x1_0000, |data'| % 0x1_0000;
    RegroupSend(to, n, data, x);
    RegroupSend(to', m, data', y);
    SameField(to, Show(n) + [COMMA] + (data + CRLF + x), to', Show(m) + [COMMA] + (data' + CRLF + y));
    SameField(n, data + CRLF + x, m, data' + CRLF + y);
  }

  lemma SameTail(a: seq<u8>, b: seq<u8>, x: seq<u8>, y: seq<u8>)
    requires a + CRLF + x == b + CRLF + y && |a| == |b|
    ensures a == b && x == y
  {
    assert a == (a + CRLF + x)[..|a|] && b == (b + CRLF + y)[..|a|];
    assert x == (a + CRLF + x)[|a| + 2..] && y == (b + CRLF + y)[|a| + 2..];
  }

  lemma SameRest(l: seq<u8>, x: seq<u8>, y: seq<u8>)
    requires l + x == l + y
    ensures x == y
  {
    assert x == (l + x)[|l|..] && y == (l + y)[|l|..];
  }

  lemma SamePassword(p: seq<u8>, q: seq<u8>, x: seq<u8>, y: seq<u8>)
    requires Line(SetCpin(p)) + x == Line(SetCpin(q)) + y
    ensures p + CRLF + x == q + CRLF + y
  {
    Cancel(AT_SET_CPIN, p, q, x, y);
    assert p + CRLF + x == p + [CR] + ([LF] + x);
    assert q + CRLF + y == q + [CR] + ([LF] + y);
  }

  predicate Numeric(c: Command) {
    c.SetAddress? || c.SetNetworkId? || c.SetBand?
  }

  lemma SameNumeric(c: Command, d: Command, x: seq<u8>, y: seq<u8>)
    requires Numeric(c) && TagOf(c) == TagOf(d)
    requires Line(c) + x == Line(d) + y
    ensures c == d && x == y
  {
    match c
    case SetAddress(n) => SameNumber(AT_SET_ADDRESS, n, d.address, x, y);
    case SetNetworkId(n) => SameNumber(AT_SET_NETWORKID, n, d.networkId, x, y);
    case SetBand(n) => SameNumber(AT_SET_BAND, n, d.hz, x, y);
  }

  /** Byte streams that start with two unwrapped command lines start with the same command,
      unless both set a password: only passwords are neither numeric nor length-prefixed. */
  lemma SameHead(c: Command, d: Command, x: seq<u8>, y: seq<u8>)
    requires Unwrapped(c) && Unwrapped(d)
    requires Line(c) + x == Line(d) + y
    ensures (c.SetCpin? && d.SetCpin? && c.password + CRLF + x == d.password + CRLF + y)
         || (c == d && x == y)
  {
    SameTag(c, d, x, y);
    if Numeric(c) {
      SameNumeric(c, d, x, y);
    } else if c.SetParameters? {
      SameParams(c.params, d.params, x, y);
    } else if c.SetCpin? {
      SamePassword(c.password, d.password, x, y);
    } else if c.Send? {
      SameSend(c.to, c.data, d.to, d.data, x, y);
      SameTail(c.data, d.data, x, y);
    } else {
      assert c == d;
      SameRest(Line(c), x, y);
    }
  }

  /** Encoding is injective over all commands, wrapped length fields included. */
  lemma LineInjective(c: Command, d: Command)
    requires Line(c) == Line(d)
    ensures c == d
  {
    assert Line(c) + [] == Line(c) && Line(d) + [] == Line(d);
    SameTag(c, d, [], []);
    if c.Send? {
      SameSend(c.to, c.data, d.to, d.data, [], []);
      SameTail(c.data, d.data, [], []);
    } else {
      SameHead(c, d, [], []);
      if c.SetCpin? {
        SameTail(c.password, d.password, [], []);
      }
    }
  }

  predicate HasCrlf(s: seq<u8>) {
    exists i :: 0 <= i < |s| - 1 && s[i] == CR && s[i + 1] == LF
  }

  /** No other unwrapped command line is a prefix of this one's. */
  ghost predicate SelfDelimiting(d: Command) {
    forall c :: Unwrapped(c) && Line(c) <= Line(d) ==> c == d
  }

  /** A receiver can tell where a command ends exactly when no password smuggles a terminator in. */
  lemma SelfDelimitingExactly(d: Command)
    requires Unwrapped(d)
    ensures SelfDelimiting(d) <==> !(d.SetCpin? && HasCrlf(d.password))
  {
    if d.SetCpin? && HasCrlf(d.password) {
      var c := SplitPassword(d.password);
    } else {
      forall c | Unwrapped(c) && Line(c) <= Line(d)
        ensures c == d
      {
        PrefixIsWhole(c, d);
      }
    }
  }

  lemma SplitPassword(q: seq<u8>) returns (c: Command)
    requires HasCrlf(q)
    ensures Unwrapped(c) && Line(c) <= Line(SetCpin(q)) && c != SetCpin(q)
  {
    var i :| 0 <= i < |q| - 1 && q[i] == CR && q[i + 1] == LF;
    var p := q[..i];
    c := SetCpin(p);
    assert q == p + CRLF + q[i + 2..];
    assert (AT_SET_CPIN + q) + CRLF == ((AT_SET_CPIN + p) + CRLF) + (q[i + 2..] + CRLF);
  }

  lemma PrefixIsWhole(c: Command, d: Command)
    requires Unwrapped(c) && Unwrapped(d) && Line(c) <= Line(d)
    requires !(d.SetCpin? && HasCrlf(d.password))
    ensures c == d
  {
    hide Body;
    var x := Line(d)[|Line(c)|..];
    assert Line(c) + x == Line(d) + [];
    SameHead(c, d, x, []);
    if c != d {
      ShorterPassword(c.password, d.password, x);
    }
  }

  lemma ShorterPassword(p: seq<u8>, q: seq<u8>, x: seq<u8>)
    requires p + CRLF + x == q + CRLF + []
    ensures p == q || HasCrlf(q)
  {
    var s := p + CRLF + x;
    if |p| == |q| {
      SameTail(p, q, x, []);
    } else {
      assert s[|p|] == CR && s[|p| + 1] == LF;
      assert s == q + CRLF;
      if |p| + 1 < |q| {
        assert q[|p|] == CR && q[|p| + 1] == LF;
      }
    }
  }

  /** What the host has sent when it has sent these commands. */
  function Stream(cs: seq<Command>): seq<u8> {
    if cs == [] then [] else Line(cs[0]) + Stream(cs[1..])
  }

  ghost predicate Decodable(cs: seq<Command>) {
    forall c <- cs :: Unwrapped(c) && SelfDelimiting(c)
  }

  /** The commands sent can be read back from the bytes alone. */
  lemma {:induction false} StreamDecodes(cs: seq<Command>, ds: seq<Command>)
    requires Decodable(cs) && Decodable(ds)
    requires Stream(cs) == Stream(ds)
    ensures cs == ds
  {
    if cs != [] && ds != [] {
      var c, d := cs[0], ds[0];
      var s := Stream(cs);
      assert s[..|Line(c)|] == Line(c) && s[..|Line(d)|] == Line(d);
      assert Line(c) <= Line(d) || Line(d) <= Line(c);
      assert c in cs && d in ds;
      assert c == d;
      assert Stream(cs[1..]) == s[|Line(c)|..] == Stream(ds[1..]);
      StreamDecodes(cs[1..], ds[1..]);
      assert cs == [c] + cs[1..] && ds == [d] + ds[1..];
    } else {
      assert cs != [] ==> Stream(cs) != [];
      assert ds != [] ==> Stream(ds) != [];
    }
  }
}
