/** The parsers for the radio's lines, and the printers they invert. */
module Decode {
  import opened Bytes
  import opened Types
  import opened Decimal
  import opened CommandLine
  import opened Unicode

  const OK_LINE: seq<u8> := [43, 79, 75] // "+OK"
  const ERR: seq<u8> := [43, 69, 82, 82, 61] // "+ERR="
  const ADDRESS: seq<u8> := [43, 65, 68, 68, 82, 69, 83, 83, 61] // "+ADDRESS="
  const NETWORKID: seq<u8> := [43, 78, 69, 84, 87, 79, 82, 75, 73, 68, 61] // "+NETWORKID="
  const BAND: seq<u8> := [43, 66, 65, 78, 68, 61] // "+BAND="
  const PARAMETER: seq<u8> := [43, 80, 65, 82, 65, 77, 69, 84, 69, 82, 61] // "+PARAMETER="
  const CRFOP: seq<u8> := [43, 67, 82, 70, 79, 80, 61] // "+CRFOP="
  const CPIN: seq<u8> := [43, 67, 80, 73, 78, 61] // "+CPIN="
  const UID: seq<u8> := [43, 85, 73, 68, 61] // "+UID="
  const VER: seq<u8> := [43, 86, 69, 82, 61] // "+VER="
  const READY: seq<u8> := [43, 82, 69, 65, 68, 89] // "+READY"
  const RCV: seq<u8> := [43, 82, 67, 86, 61] // "+RCV="
  const RCV_HEAD: seq<u8> := [43, 82, 67, 86] // "+RCV"
  const RESET: seq<u8> := [43, 82, 69, 83, 69, 84] // "+RESET"
  const NO_PASSWORD: seq<u8> := [78, 111, 32, 80, 97, 115, 115, 119, 111, 114, 100, 33] // "No Password!"

  /** The texts the parsers look for. */
  lemma ReplyTexts()
    ensures OK_LINE == Ascii("+OK")
    ensures ERR == Ascii("+ERR=")
    ensures ADDRESS == Ascii("+ADDRESS=")
    ensures NETWORKID == Ascii("+NETWORKID=")
    ensures BAND == Ascii("+BAND=")
    ensures PARAMETER == Ascii("+PARAMETER=")
    ensures CRFOP == Ascii("+CRFOP=")
    ensures CPIN == Ascii("+CPIN=")
    ensures UID == Ascii("+UID=")
    ensures VER == Ascii("+VER=")
    ensures READY == Ascii("+READY")
    ensures RCV == Ascii("+RCV=")
    ensures RCV_HEAD == Ascii("+RCV")
    ensures RESET == Ascii("+RESET")
    ensures NO_PASSWORD == Ascii("No Password!")
  {
  }

  // ---- Replies -------------------------------------------------------------

  predicate HexDigit(b: u8) {
    48 <= b <= 57 || 65 <= b <= 70 || 97 <= b <= 102
  }

  /** Eight hex digits, not all zero. */
  predicate CpinPassword(s: seq<u8>) {
    |s| == 8 && (forall i :: 0 <= i < |s| ==> HexDigit(s[i])) && (exists i :: 0 <= i < |s| && s[i] != ZERO)
  }

  function Number<T>(n: Option<T>): Parsed<T> {
    match n
    case None => Malformed
    case Some(v) => Good(v)
  }

  function ParseStr(s: seq<u8>): Parsed<seq<u8>> {
    if Utf8(s) then Good(s) else Malformed
  }

  function ParseCpin(s: seq<u8>): Parsed<seq<u8>> {
    if s == NO_PASSWORD then Good([])
    else if !CpinPassword(s) then Malformed
    else ParseStr(s)
  }

  function Split(s: seq<u8>, b: u8): (parts: seq<seq<u8>>)
    ensures parts != []
  {
    match Position(s, b)
    case None => [s]
    case Some(i) => [s[..i]] + Split(s[i + 1..], b)
  }

  function ParseParams(s: seq<u8>): Parsed<RfParams> {
    var parts := Split(s, COMMA);
    if |parts| != 4 then Malformed
    else
      var sf :- Number(ParseU8(parts[0]));
      var bw :- Number(ParseU8(parts[1]));
      var cr :- Number(ParseU8(parts[2]));
      var preamble :- Number(ParseU8(parts[3]));
      Good(RfParams(sf, bw, cr, preamble))
  }

  function ParseResponse(line: seq<u8>): Parsed<Response> {
    if line == OK_LINE then Good(Ok)
    else if ERR <= line then
      var n :- Number(ParseU8(line[|ERR|..]));
      Good(Err(n))
    else if ADDRESS <= line then
      var n :- Number(ParseU16(line[|ADDRESS|..]));
      Good(Address(n))
    else if PARAMETER <= line then
      var p :- ParseParams(line[|PARAMETER|..]);
      Good(Parameters(p))
    else if NETWORKID <= line then
      var n :- Number(ParseU8(line[|NETWORKID|..]));
      Good(NetworkId(n))
    else if BAND <= line then
      var n :- Number(ParseU32(line[|BAND|..]));
      Good(Band(n))
    else if CRFOP <= line then
      var n :- Number(ParseU8(line[|CRFOP|..]));
      Good(Crfop(n))
    else if CPIN <= line then
      var s :- ParseCpin(line[|CPIN|..]);
      Good(Cpin(s))
    else if UID <= line then
      var s :- ParseStr(line[|UID|..]);
      Good(Uid(s))
    else if VER <= line then
      var s :- ParseStr(line[|VER|..]);
      Good(Version(s))
    else Malformed
  }

  /** The prefixes lines are told apart by. */
  const PREFIXES: seq<seq<u8>> :=
    [OK_LINE, ERR, ADDRESS, PARAMETER, NETWORKID, BAND, CRFOP, CPIN, UID, VER, RCV_HEAD, READY, RESET]

  /** Where in `PREFIXES` a line belongs, from its second to fourth byte. */
  function Sort(line: seq<u8>): int
    requires |line| >= 3
  {
    var b, c := line[1], line[2];
    if b == 79 then 0
    else if b == 69 then 1
    else if b == 65 then 2
    else if b == 80 then 3
    else if b == 78 then 4
    else if b == 66 then 5
    else if b == 67 && c == 82 then 6
    else if b == 67 then 7
    else if b == 85 then 8
    else if b == 86 then 9
    else if c == 67 then 10
    else if |line| >= 4 && line[3] == 65 then 11
    else 12
  }

  /** No line has two of the prefixes, so the order in which they are tried cannot matter. */
  lemma PrefixesExclusive(line: seq<u8>, i: nat, j: nat)
    requires i < |PREFIXES| && j < |PREFIXES|
    requires PREFIXES[i] <= line && PREFIXES[j] <= line
    ensures i == j
  {
    PrefixSort(line, i);
    PrefixSort(line, j);
  }

  lemma PrefixSort(line: seq<u8>, i: nat)
    requires i < |PREFIXES| && PREFIXES[i] <= line
    ensures |line| >= 3 && Sort(line) == i
  {
    var p := PREFIXES[i];
    assert |p| >= 3 && Sort(p) == i;
    assert line[1] == p[1] && line[2] == p[2];
    assert |p| >= 4 ==> line[3] == p[3];
  }

  /** Which prefix a reply is printed with, and what follows it. */
  function ReplySort(r: Response): nat {
    match r
    case Ok => 0
    case Err(_) => 1
    case Address(_) => 2
    case Parameters(_) => 3
    case NetworkId(_) => 4
    case Band(_) => 5
    case Crfop(_) => 6
    case Cpin(_) => 7
    case Uid(_) => 8
    case Version(_) => 9
  }

  function ReplyField(r: Response): seq<u8> {
    match r
    case Ok => []
    case Err(n) => Show(n)
    case Address(n) => Show(n)
    case Parameters(p) => FourFields(Show(p.sf), Show(p.bw), Show(p.cr), Show(p.preamble))
    case NetworkId(n) => Show(n)
    case Band(n) => Show(n)
    case Crfop(n) => Show(n)
    case Cpin(s) => if s == [] then NO_PASSWORD else s
    case Uid(s) => s
    case Version(s) => s
  }

  function FourFields(a: seq<u8>, b: seq<u8>, c: seq<u8>, d: seq<u8>): seq<u8> {
    a + [COMMA] + (b + [COMMA] + (c + [COMMA] + d))
  }

  /** The text of a reply. */
  function ReplyText(r: Response): seq<u8> {
    PREFIXES[ReplySort(r)] + ReplyField(r)
  }

  /** Replies a radio can send: strings are UTF-8, a password is absent or well formed. */
  predicate Sendable(r: Response) {
    match r
    case Uid(s) => Utf8(s)
    case Version(s) => Utf8(s)
    case Cpin(s) => s == [] || CpinPassword(s)
    case _ => true
  }

  lemma AfterPrefix(p: seq<u8>, s: seq<u8>)
    ensures p <= p + s && (p + s)[|p|..] == s
  {
  }

  /** What the branch for each prefix makes of the rest of the line. */
  function ParseField(i: nat, s: seq<u8>): Parsed<Response> {
    match i
    case 1 => (var n :- Number(ParseU8(s)); Good(Err(n)))
    case 2 => (var n :- Number(ParseU16(s)); Good(Address(n)))
    case 3 => (var p :- ParseParams(s); Good(Parameters(p)))
    case 4 => (var n :- Number(ParseU8(s)); Good(NetworkId(n)))
    case 5 => (var n :- Number(ParseU32(s)); Good(Band(n)))
    case 6 => (var n :- Number(ParseU8(s)); Good(Crfop(n)))
    case 7 => (var t :- ParseCpin(s); Good(Cpin(t)))
    case 8 => (var t :- ParseStr(s); Good(Uid(t)))
    case 9 => (var t :- ParseStr(s); Good(Version(t)))
    case _ => Malformed
  }

  /** The prefix alone decides how a line is read, whatever the order of the branches. */
  lemma ParseByPrefix(line: seq<u8>, i: nat)
    requires i < |PREFIXES| && PREFIXES[i] <= line && line != OK_LINE
    ensures ParseResponse(line) == ParseField(i, line[|PREFIXES[i]|..])
  {
    PrefixSort(line, i);
    forall j: nat | j < |PREFIXES| && PREFIXES[j] <= line ensures j == i {
      PrefixesExclusive(line, i, j);
    }
    assert PREFIXES[1] == ERR && PREFIXES[2] == ADDRESS && PREFIXES[3] == PARAMETER;
    assert PREFIXES[4] == NETWORKID && PREFIXES[5] == BAND && PREFIXES[6] == CRFOP;
    assert PREFIXES[7] == CPIN && PREFIXES[8] == UID && PREFIXES[9] == VER;
  }

  /** What a password field says: no password, or eight hex digits that are not all zero. */
  ghost predicate Says(s: seq<u8>, password: seq<u8>) {
    || (s == Ascii("No Password!") && password == [])
    || (s == password && |s| == 8
        && (forall b <- s :: b in Ascii("0123456789abcdefABCDEF")) && (exists b <- s :: b != Ascii("0")[0]))
  }

  lemma HexDigits(b: u8)
    ensures HexDigit(b) <==> b in Ascii("0123456789abcdefABCDEF")
  {
    var digits := Ascii("0123456789abcdefABCDEF");
    if 48 <= b <= 57 {
      assert digits[b - 48] == b;
    } else if 97 <= b <= 102 {
      assert digits[b - 87] == b;
    } else if 65 <= b <= 70 {
      assert digits[b - 49] == b;
    }
  }

  /** Exactly these fields are accepted; the UTF-8 check never refuses one. */
  lemma CpinAcceptedExactly(s: seq<u8>, password: seq<u8>)
    ensures ParseCpin(s) == Good(password) <==> Says(s, password)
  {
    ReplyTexts();
    hide HexDigit, Utf8;
    forall b <- s ensures HexDigit(b) <==> b in Ascii("0123456789abcdefABCDEF") {
      HexDigits(b);
    }
    assert Ascii("0")[0] == ZERO;
    hide Ascii;
    if CpinPassword(s) {
      HexIsAscii(s);
      AsciiIsUtf8(s);
      assert s != NO_PASSWORD by { assert |NO_PASSWORD| == 12; }
    }
  }

  lemma HexIsAscii(s: seq<u8>)
    requires CpinPassword(s)
    ensures forall i :: 0 <= i < |s| ==> s[i] < 0x80
  {
  }

  /** The name each reply goes by in the command set. */
  function ReplyName(r: Response): seq<int> {
    match r
    case Ok => Ascii("+OK")
    case Err(_) => Ascii("+ERR=")
    case Address(_) => Ascii("+ADDRESS=")
    case NetworkId(_) => Ascii("+NETWORKID=")
    case Band(_) => Ascii("+BAND=")
    case Parameters(_) => Ascii("+PARAMETER=")
    case Crfop(_) => Ascii("+CRFOP=")
    case Uid(_) => Ascii("+UID=")
    case Version(_) => Ascii("+VER=")
    case Cpin(_) => Ascii("+CPIN=")
  }

  /** What has to follow the name. */
  ghost predicate FieldReads(s: seq<u8>, r: Response) {
    match r
    case Ok => s == []
    case Err(n) => ParseU8(s) == Some(n)
    case Address(n) => ParseU16(s) == Some(n)
    case NetworkId(n) => ParseU8(s) == Some(n)
    case Band(n) => ParseU32(s) == Some(n)
    case Parameters(p) => ParseParams(s) == Good(p)
    case Crfop(n) => ParseU8(s) == Some(n)
    case Uid(t) => s == t && Utf8(t)
    case Version(t) => s == t && Utf8(t)
    case Cpin(password) => Says(s, password)
  }

  lemma SplitParts(s: seq<u8>)
    ensures var parts := Split(s, COMMA); COMMA !in parts[0]
    ensures var parts := Split(s, COMMA);
      if |parts| == 1 then parts[0] == s
      else exists rest :: s == parts[0] + [COMMA] + rest && Split(rest, COMMA) == parts[1..]
  {
    match Position(s, COMMA)
    case None =>
    case Some(i) =>
      assert s == s[..i] + [COMMA] + s[i + 1..];
      assert Split(s, COMMA)[1..] == Split(s[i + 1..], COMMA);
  }

  lemma FourParts(s: seq<u8>)
    requires |Split(s, COMMA)| == 4
    ensures var p := Split(s, COMMA);
      && s == FourFields(p[0], p[1], p[2], p[3])
      && COMMA !in p[0] && COMMA !in p[1] && COMMA !in p[2] && COMMA !in p[3]
  {
    hide Split;
    var p := Split(s, COMMA);
    SplitParts(s);
    var t :| s == p[0] + [COMMA] + t && Split(t, COMMA) == p[1..];
    SplitParts(t);
    var u :| t == p[1] + [COMMA] + u && Split(u, COMMA) == p[1..][1..];
    SplitParts(u);
    var v :| u == p[2] + [COMMA] + v && Split(v, COMMA) == p[1..][1..][1..];
    SplitParts(v);
  }

  /** A parameter field is accepted exactly when it has four comma-free parts, each a byte. */
  lemma ParamsAcceptedExactly(s: seq<u8>, q: RfParams)
    ensures ParseParams(s) == Good(q) <==>
      exists a, b, c, d ::
        && COMMA !in a && COMMA !in b && COMMA !in c && COMMA !in d
        && s == a + [COMMA] + (b + [COMMA] + (c + [COMMA] + d))
        && ParseU8(a) == Some(q.sf) && ParseU8(b) == Some(q.bw) && ParseU8(c) == Some(q.cr)
        && ParseU8(d) == Some(q.preamble)
  {
    hide ParseUnsigned, Split;
    if ParseParams(s) == Good(q) {
      FourParts(s);
    }
    forall a, b, c, d |
        && COMMA !in a && COMMA !in b && COMMA !in c && COMMA !in d
        && s == a + [COMMA] + (b + [COMMA] + (c + [COMMA] + d))
        && ParseU8(a) == Some(q.sf) && ParseU8(b) == Some(q.bw) && ParseU8(c) == Some(q.cr)
        && ParseU8(d) == Some(q.preamble)
      ensures ParseParams(s) == Good(q)
    {
      SplitFour(a, b, c, d);
    }
  }

  lemma SplitField(a: seq<u8>, rest: seq<u8>)
    requires COMMA !in a
    ensures Split(a + [COMMA] + rest, COMMA) == [a] + Split(rest, COMMA)
  {
    PositionAfter(a, COMMA, rest);
    var s := a + [COMMA] + rest;
    assert s[..|a|] == a && s[|a| + 1..] == rest;
  }

  lemma SplitTwo(c: seq<u8>, d: seq<u8>)
    requires COMMA !in c && COMMA !in d
    ensures Split(c + [COMMA] + d, COMMA) == [c, d]
  {
    SplitField(c, d);
  }

  lemma SplitThree(b: seq<u8>, c: seq<u8>, d: seq<u8>)
    requires COMMA !in b && COMMA !in c && COMMA !in d
    ensures Split(b + [COMMA] + (c + [COMMA] + d), COMMA) == [b, c, d]
  {
    hide Split;
    SplitTwo(c, d);
    SplitField(b, c + [COMMA] + d);
    assert [b] + [c, d] == [b, c, d];
  }

  lemma SplitFour(a: seq<u8>, b: seq<u8>, c: seq<u8>, d: seq<u8>)
    requires COMMA !in a && COMMA !in b && COMMA !in c && COMMA !in d
    ensures Split(FourFields(a, b, c, d), COMMA) == [a, b, c, d]
  {
    hide Split;
    SplitThree(b, c, d);
    SplitField(a, b + [COMMA] + (c + [COMMA] + d));
    assert [a] + [b, c, d] == [a, b, c, d];
  }

  lemma ParseReplyField(r: Response)
    requires Sendable(r) && !r.Ok?
    ensures ParseField(ReplySort(r), ReplyField(r)) == Good(r)
  {
    match r
    case Err(n) => ParseByte(n);
    case Address(n) => ParseAddress(n);
    case Parameters(p) => ParseParamsText(p);
    case NetworkId(n) => ParseByte(n);
    case Band(n) => ParseBand(n);
    case Crfop(n) => ParseByte(n);
    case Cpin(s) => ParseCpinText(s);
    case _ =>
  }

  lemma ParseByte(n: u8)
    ensures ParseField(1, Show(n)) == Good(Err(n))
    ensures ParseField(4, Show(n)) == Good(NetworkId(n))
    ensures ParseField(6, Show(n)) == Good(Crfop(n))
  {
    ParseShow(n, 0xFF);
  }

  lemma ParseAddress(n: u16)
    ensures ParseField(2, Show(n)) == Good(Address(n))
  {
    ParseShow(n, 0xFFFF);
  }

  lemma ParseBand(n: u32)
    ensures ParseField(5, Show(n)) == Good(Band(n))
  {
    ParseShow(n, 0xFFFF_FFFF);
  }

  lemma ParseParamsText(p: RfParams)
    ensures ParseParams(FourFields(Show(p.sf), Show(p.bw), Show(p.cr), Show(p.preamble))) == Good(p)
  {
    hide ParseUnsigned, Split, Show;
    SplitFour(Show(p.sf), Show(p.bw), Show(p.cr), Show(p.preamble));
    ParseShow(p.sf, 0xFF);
    ParseShow(p.bw, 0xFF);
    ParseShow(p.cr, 0xFF);
    ParseShow(p.preamble, 0xFF);
  }

  lemma ParseCpinText(s: seq<u8>)
    requires s == [] || CpinPassword(s)
    ensures ParseCpin(if s == [] then NO_PASSWORD else s) == Good(s)
  {
    if s != [] {
      AsciiIsUtf8(s);
    }
  }

  /** Every reply a radio can send is read back as that reply. */
  lemma ParseReplyText(r: Response)
    requires Sendable(r)
    ensures ParseResponse(ReplyText(r)) == Good(r)
  {
    if r.Ok? {
      assert ReplyText(r) == OK_LINE;
    } else {
      ReadBack(ReplySort(r), ReplyField(r));
      ParseReplyField(r);
    }
  }

  lemma ReadBack(i: nat, s: seq<u8>)
    requires 1 <= i <= 9
    ensures ParseResponse(PREFIXES[i] + s) == ParseField(i, s)
  {
    var line := PREFIXES[i] + s;
    AfterPrefix(PREFIXES[i], s);
    PrefixSort(line, i);
    assert line != OK_LINE by {
      if line == OK_LINE {
        PrefixSort(line, 0);
      }
    }
    ParseByPrefix(line, i);
  }

  lemma NameIsPrefix(r: Response)
    ensures ReplyName(r) == PREFIXES[ReplySort(r)]
  {
    ReplyTexts();
  }

  lemma FieldExact(r: Response, s: seq<u8>)
    requires !r.Ok?
    ensures ParseField(ReplySort(r), s) == Good(r) <==> FieldReads(s, r)
  {
    hide ParseUnsigned, ParseParams, ParseCpin, Says, Utf8;
    if r.Cpin? {
      CpinAcceptedExactly(s, r.password);
    }
  }

  lemma FieldSort(i: nat, s: seq<u8>)
    requires ParseField(i, s).Good?
    ensures i == ReplySort(ParseField(i, s).value) && 1 <= i <= 9
  {
    hide ParseUnsigned, ParseParams, ParseCpin, Utf8;
  }

  lemma GoodHasPrefix(line: seq<u8>) returns (i: nat)
    requires ParseResponse(line).Good?
    ensures i < 10 && PREFIXES[i] <= line
    ensures i == 0 <==> line == OK_LINE
  {
    hide ParseUnsigned, ParseParams, ParseCpin, Utf8;
    assert PREFIXES[0] == OK_LINE && PREFIXES[1] == ERR && PREFIXES[2] == ADDRESS && PREFIXES[3] == PARAMETER;
    assert PREFIXES[4] == NETWORKID && PREFIXES[5] == BAND && PREFIXES[6] == CRFOP;
    assert PREFIXES[7] == CPIN && PREFIXES[8] == UID && PREFIXES[9] == VER;
    i := if line == OK_LINE then 0 else if ERR <= line then 1 else if ADDRESS <= line then 2
         else if PARAMETER <= line then 3 else if NETWORKID <= line then 4 else if BAND <= line then 5
         else if CRFOP <= line then 6 else if CPIN <= line then 7 else if UID <= line then 8 else 9;
  }

  /** A line is accepted as a reply exactly when it is that reply's name and a field that reads so. */
  lemma ResponseAcceptedExactly(line: seq<u8>, r: Response)
    ensures ParseResponse(line) == Good(r) <==> exists s :: line == ReplyName(r) + s && FieldReads(s, r)
  {
    NameIsPrefix(r);
    hide ReplyName, FieldReads, ParseResponse, ParseField;
    if ParseResponse(line) == Good(r) {
      ReplyFields(line, r);
    }
    forall s | line == ReplyName(r) + s && FieldReads(s, r) ensures ParseResponse(line) == Good(r) {
      FieldsParse(s, r);
    }
  }

  lemma FieldsParse(s: seq<u8>, r: Response)
    requires FieldReads(s, r)
    ensures ParseResponse(PREFIXES[ReplySort(r)] + s) == Good(r)
  {
    if r.Ok? {
      assert PREFIXES[0] + s == OK_LINE;
    } else {
      hide FieldReads, ParseResponse, ParseField;
      ReadBack(ReplySort(r), s);
      FieldExact(r, s);
    }
  }

  lemma ReplyFields(line: seq<u8>, r: Response)
    requires ParseResponse(line) == Good(r)
    ensures exists s :: line == PREFIXES[ReplySort(r)] + s && FieldReads(s, r)
  {
    if line == OK_LINE {
      assert line == PREFIXES[0] + [] && FieldReads([], r);
    } else {
      var i := GoodHasPrefix(line);
      hide FieldReads, ParseResponse, ParseField;
      ParseByPrefix(line, i);
      var s := line[|PREFIXES[i]|..];
      FieldSort(i, s);
      FieldExact(r, s);
      assert line == PREFIXES[i] + s;
    }
  }

  // ---- Events --------------------------------------------------------------

  function TakeUntilComma(s: seq<u8>): Parsed<(seq<u8>, seq<u8>)> {
    match Position(s, COMMA)
    case None => Malformed
    case Some(i) => Good((s[..i], s[i + 1..]))
  }

  function ParseSignal(from: u16, data: seq<u8>, s: seq<u8>): Parsed<Event> {
    var (rssiBytes, snrBytes) :- TakeUntilComma(s);
    var rssi :- Number(ParseI16(rssiBytes));
    var snr :- Number(ParseI16(snrBytes));
    Good(Recv(from, data, rssi, snr))
  }

  function ParsePayload(from: u16, s: seq<u8>): Parsed<Event> {
    var (lenBytes, rest) :- TakeUntilComma(s);
    var n :- Number(ParseUsize(lenBytes));
    if n == USIZE_MAX then Panic // `data_len + 1` overflows
    else if |rest| < n + 1 then Malformed
    else if rest[n] != COMMA then Malformed
    else ParseSignal(from, rest[..n], rest[n + 1..])
  }

  function ParseRcv(s: seq<u8>): Parsed<Event> {
    var (fromBytes, rest) :- TakeUntilComma(s);
    var from :- Number(ParseU16(fromBytes));
    ParsePayload(from, rest)
  }

  function ParseEvent(line: seq<u8>): Parsed<Event> {
    if line == READY then Good(Ready)
    else if RCV <= line then ParseRcv(line[|RCV|..])
    else Malformed
  }

  /** The fields of a `+RCV` line put together. */
  function RcvLine(a: seq<u8>, b: seq<u8>, data: seq<u8>, c: seq<u8>, d: seq<u8>): seq<u8> {
    RCV + (a + [COMMA] + (b + [COMMA] + (data + [COMMA] + (c + [COMMA] + d))))
  }

  function RcvText(from: u16, data: seq<u8>, rssi: i16, snr: i16): seq<u8> {
    RcvLine(Show(from), Show(|data|), data, ShowInt(rssi), ShowInt(snr))
  }

  lemma TakeField(a: seq<u8>, rest: seq<u8>)
    requires COMMA !in a
    ensures TakeUntilComma(a + [COMMA] + rest) == Good((a, rest))
  {
    PositionAfter(a, COMMA, rest);
    var s := a + [COMMA] + rest;
    assert s[..|a|] == a && s[|a| + 1..] == rest;
  }

  lemma TakenField(s: seq<u8>) returns (a: seq<u8>, rest: seq<u8>)
    requires TakeUntilComma(s).Good?
    ensures TakeUntilComma(s) == Good((a, rest)) && COMMA !in a && s == a + [COMMA] + rest
  {
    a, rest := TakeUntilComma(s).value.0, TakeUntilComma(s).value.1;
  }

  lemma ReadSignal(from: u16, data: seq<u8>, c: seq<u8>, d: seq<u8>)
    requires COMMA !in c && ParseI16(c).Some? && ParseI16(d).Some?
    ensures ParseSignal(from, data, c + [COMMA] + d)
         == Good(Recv(from, data, ParseI16(c).value, ParseI16(d).value))
  {
    hide ParseUnsigned, ParseI16, Position;
    TakeField(c, d);
  }

  lemma ReadPayload(from: u16, b: seq<u8>, data: seq<u8>, s: seq<u8>)
    requires COMMA !in b && ParseUsize(b) == Some(|data|) && |data| < USIZE_MAX
    ensures ParsePayload(from, b + [COMMA] + (data + [COMMA] + s)) == ParseSignal(from, data, s)
  {
    var rest := data + [COMMA] + s;
    hide ParseUnsigned, ParseSignal, Position;
    TakeField(b, rest);
    assert rest[|data|] == COMMA && rest[..|data|] == data && rest[|data| + 1..] == s;
  }

  lemma ReadRcv(a: seq<u8>, s: seq<u8>)
    requires COMMA !in a && ParseU16(a).Some?
    ensures ParseEvent(RCV + (a + [COMMA] + s)) == ParsePayload(ParseU16(a).value, s)
  {
    hide ParseUnsigned, ParsePayload, Position;
    var line := RCV + (a + [COMMA] + s);
    TakeField(a, s);
    AfterPrefix(RCV, a + [COMMA] + s);
    assert line[1] == RCV[1] && line[2] == RCV[2];
    assert line != READY;
  }

  /** How the parser reads a line whose fields are given; the payload may contain anything. */
  lemma ParseRcvLine(a: seq<u8>, b: seq<u8>, data: seq<u8>, c: seq<u8>, d: seq<u8>)
    requires COMMA !in a && COMMA !in b && COMMA !in c
    requires ParseU16(a).Some? && ParseUsize(b) == Some(|data|) && |data| < USIZE_MAX
    requires ParseI16(c).Some? && ParseI16(d).Some?
    ensures ParseEvent(RcvLine(a, b, data, c, d))
         == Good(Recv(ParseU16(a).value, data, ParseI16(c).value, ParseI16(d).value))
  {
    hide ParseUnsigned, ParseI16, ParseEvent, ParsePayload, ParseSignal;
    ReadRcv(a, b + [COMMA] + (data + [COMMA] + (c + [COMMA] + d)));
    ReadPayload(ParseU16(a).value, b, data, c + [COMMA] + d);
    ReadSignal(ParseU16(a).value, data, c, d);
  }

  lemma SignalFields(from: u16, data: seq<u8>, s: seq<u8>) returns (c: seq<u8>, d: seq<u8>)
    requires ParseSignal(from, data, s).Good?
    ensures COMMA !in c && s == c + [COMMA] + d
    ensures var e := ParseSignal(from, data, s).value;
      e.Recv? && e.from == from && e.data == data && ParseI16(c) == Some(e.rssi) && ParseI16(d) == Some(e.snr)
  {
    hide ParseUnsigned, ParseI16, Position;
    c, d := TakenField(s);
  }

  lemma PayloadFields(from: u16, s: seq<u8>) returns (b: seq<u8>, data: seq<u8>, rest: seq<u8>)
    requires ParsePayload(from, s).Good?
    ensures COMMA !in b && s == b + [COMMA] + (data + [COMMA] + rest)
    ensures ParseUsize(b) == Some(|data|) && |data| < USIZE_MAX
    ensures ParsePayload(from, s) == ParseSignal(from, data, rest)
  {
    hide ParseUnsigned, ParseSignal, Position;
    var after: seq<u8>;
    b, after := TakenField(s);
    var n := ParseUsize(b).value;
    data, rest := after[..n], after[n + 1..];
    assert after == data + [COMMA] + rest;
  }

  lemma RcvFields(line: seq<u8>) returns (a: seq<u8>, rest: seq<u8>)
    requires RCV <= line && !ParseEvent(line).Malformed?
    ensures COMMA !in a && line == RCV + (a + [COMMA] + rest) && ParseU16(a).Some?
    ensures ParseEvent(line) == ParsePayload(ParseU16(a).value, rest)
  {
    hide ParseUnsigned, ParsePayload, Position;
    assert line[2] == RCV[2];
    a, rest := TakenField(line[|RCV|..]);
    assert line == RCV + line[|RCV|..];
  }

  lemma RcvFieldsOf(line: seq<u8>) returns (a: seq<u8>, b: seq<u8>, c: seq<u8>, d: seq<u8>)
    requires ParseEvent(line).Good? && ParseEvent(line).value.Recv?
    ensures COMMA !in a && COMMA !in b && COMMA !in c
    ensures var e := ParseEvent(line).value;
      && line == RcvLine(a, b, e.data, c, d)
      && ParseU16(a) == Some(e.from) && ParseUsize(b) == Some(|e.data|) && |e.data| < USIZE_MAX
      && ParseI16(c) == Some(e.rssi) && ParseI16(d) == Some(e.snr)
  {
    hide ParseUnsigned, ParseI16, ParsePayload, ParseSignal, TakeUntilComma;
    var afterFrom: seq<u8>, data: seq<u8>, signal: seq<u8>;
    a, afterFrom := RcvFields(line);
    var from := ParseU16(a).value;
    b, data, signal := PayloadFields(from, afterFrom);
    c, d := SignalFields(from, data, signal);
  }

  /** A `+RCV` line is accepted exactly when it splits into five fields whose second is the length
      of the third, and the event is made of those fields. */
  lemma RcvAcceptedExactly(line: seq<u8>, from: u16, data: seq<u8>, rssi: i16, snr: i16)
    ensures ParseEvent(line) == Good(Recv(from, data, rssi, snr)) <==>
      exists a, b, c, d ::
        && COMMA !in a && COMMA !in b && COMMA !in c
        && line == RCV + (a + [COMMA] + (b + [COMMA] + (data + [COMMA] + (c + [COMMA] + d))))
        && ParseU16(a) == Some(from) && ParseUsize(b) == Some(|data|) && |data| < USIZE_MAX
        && ParseI16(c) == Some(rssi) && ParseI16(d) == Some(snr)
  {
    hide ParseUnsigned, ParseI16, ParseEvent;
    if ParseEvent(line) == Good(Recv(from, data, rssi, snr)) {
      var a, b, c, d := RcvFieldsOf(line);
    }
    forall a, b, c, d |
        && COMMA !in a && COMMA !in b && COMMA !in c
        && line == RCV + (a + [COMMA] + (b + [COMMA] + (data + [COMMA] + (c + [COMMA] + d))))
        && ParseU16(a) == Some(from) && ParseUsize(b) == Some(|data|) && |data| < USIZE_MAX
        && ParseI16(c) == Some(rssi) && ParseI16(d) == Some(snr)
      ensures ParseEvent(line) == Good(Recv(from, data, rssi, snr))
    {
      ParseRcvLine(a, b, data, c, d);
    }
  }

  /** Printing then parsing gives the event back, commas and all. */
  lemma ParseRcvText(from: u16, data: seq<u8>, rssi: i16, snr: i16)
    requires |data| < USIZE_MAX
    ensures ParseEvent(RcvText(from, data, rssi, snr)) == Good(Recv(from, data, rssi, snr))
  {
    hide ParseUnsigned, ParseEvent, RcvLine;
    ParseShow(from, 0xFFFF);
    ParseShow(|data|, USIZE_MAX);
    ParseShowInt(rssi);
    ParseShowInt(snr);
    ParseRcvLine(Show(from), Show(|data|), data, ShowInt(rssi), ShowInt(snr));
  }

  /** The longest packet line there is. */
  lemma RcvTextLength(from: u16, data: seq<u8>, rssi: i16, snr: i16)
    requires |data| <= 240
    ensures |RcvText(from, data, rssi, snr)| <= 269
    ensures CR !in data ==> CR !in RcvText(from, data, rssi, snr)
  {
    assert Pow10(5) == 100000 && Pow10(3) == 1000;
    ShowLength(from, 5);
    ShowLength(|data|, 3);
    ShowIntLength(rssi);
    ShowIntLength(snr);
    hide Show, ShowInt;
    assert CR !in Show(from) && CR !in Show(|data|);
  }

  /** One line has one reading: the fields, and so the payload, are determined by the text. */
  lemma RcvOneReading(a: seq<u8>, b: seq<u8>, data: seq<u8>, c: seq<u8>, d: seq<u8>,
                      a': seq<u8>, b': seq<u8>, data': seq<u8>, c': seq<u8>, d': seq<u8>)
    requires COMMA !in a && COMMA !in b && COMMA !in c && COMMA !in a' && COMMA !in b' && COMMA !in c'
    requires ParseUsize(b) == Some(|data|) && ParseUsize(b') == Some(|data'|)
    requires RcvLine(a, b, data, c, d) == RcvLine(a', b', data', c', d')
    ensures a == a' && b == b' && data == data' && c == c' && d == d'
  {
    var s, t := c + [COMMA] + d, c' + [COMMA] + d';
    var p, q := data + [COMMA] + s, data' + [COMMA] + t;
    AfterPrefix(RCV, a + [COMMA] + (b + [COMMA] + p));
    AfterPrefix(RCV, a' + [COMMA] + (b' + [COMMA] + q));
    SplitAtFirst(a, b + [COMMA] + p, a', b' + [COMMA] + q, COMMA);
    SplitAtFirst(b, p, b', q, COMMA);
    assert data == p[..|data|] && data' == q[..|data|];
    assert s == p[|data| + 1..] && t == q[|data| + 1..];
    SplitAtFirst(c, d, c', d', COMMA);
  }

  lemma SignalDoesNotPanic(from: u16, data: seq<u8>, s: seq<u8>)
    ensures !ParseSignal(from, data, s).Panic?
  {
  }

  lemma PayloadOverflow(from: u16, s: seq<u8>) returns (b: seq<u8>, rest: seq<u8>)
    requires ParsePayload(from, s).Panic?
    ensures COMMA !in b && s == b + [COMMA] + rest && ParseUsize(b) == Some(USIZE_MAX)
  {
    hide ParseUnsigned, ParseSignal, Position;
    b, rest := TakenField(s);
    var n := ParseUsize(b).value;
    if n < |rest| {
      SignalDoesNotPanic(from, rest[..n], rest[n + 1..]);
    }
  }

  lemma OverflowOf(line: seq<u8>) returns (a: seq<u8>, b: seq<u8>, rest: seq<u8>)
    requires ParseEvent(line).Panic?
    ensures COMMA !in a && COMMA !in b && line == RCV + (a + [COMMA] + (b + [COMMA] + rest))
    ensures ParseU16(a).Some? && ParseUsize(b) == Some(USIZE_MAX)
  {
    hide ParseUnsigned, ParsePayload, TakeUntilComma;
    var afterFrom: seq<u8>;
    a, afterFrom := RcvFields(line);
    b, rest := PayloadOverflow(ParseU16(a).value, afterFrom);
  }

  lemma OverflowingLine(a: seq<u8>, b: seq<u8>, rest: seq<u8>)
    requires COMMA !in a && COMMA !in b && ParseU16(a).Some? && ParseUsize(b) == Some(USIZE_MAX)
    ensures ParseEvent(RCV + (a + [COMMA] + (b + [COMMA] + rest))).Panic?
  {
    hide ParseUnsigned, ParseSignal, ParseEvent, TakeUntilComma;
    ReadRcv(a, b + [COMMA] + rest);
    TakeField(b, rest);
  }

  /** A `+RCV` line whose first field is a sender and whose second, the length, is `usize::MAX`. */
  ghost predicate LengthOverflows(line: seq<u8>) {
    exists a, b, rest ::
      && COMMA !in a && COMMA !in b && line == RCV + (a + [COMMA] + (b + [COMMA] + rest))
      && ParseU16(a).Some? && ParseUsize(b) == Some(USIZE_MAX)
  }

  /** The event parser overflows on exactly these lines. */
  lemma ParseEventPanicsExactly(line: seq<u8>)
    ensures ParseEvent(line).Panic? <==> LengthOverflows(line)
  {
    hide ParseUnsigned, ParseEvent;
    if ParseEvent(line).Panic? {
      var a, b, rest := OverflowOf(line);
    } else {
      forall a, b, rest |
          && COMMA !in a && COMMA !in b && line == RCV + (a + [COMMA] + (b + [COMMA] + rest))
          && ParseU16(a).Some? && ParseUsize(b) == Some(USIZE_MAX)
        ensures false
      {
        OverflowingLine(a, b, rest);
      }
    }
  }

  // ---- Reading a sent payload back -------------------------------------------------

  /** What a receiver of `AT+SEND=` makes of the rest of the stream: destination, payload by its length
      prefix, and what follows the terminator. */
  function ReadSend(s: seq<u8>): Parsed<(u16, seq<u8>, seq<u8>)> {
    var (toBytes, rest) :- TakeUntilComma(s);
    var to :- Number(ParseU16(toBytes));
    var (lenBytes, rest) :- TakeUntilComma(rest);
    var n :- Number(ParseU16(lenBytes));
    if |rest| < n || !(CRLF <= rest[n..]) then Malformed
    else Good((to, rest[..n], rest[n..][2..]))
  }

  /** The length prefix recovers any payload, commas and terminators included, as long as the 16-bit length
      field has not wrapped. */
  lemma SendReadsBack(to: u16, data: seq<u8>, more: seq<u8>)
    requires |data| < 0x1_0000
    ensures AT_SEND <= Line(Send(to, data)) + more
    ensures ReadSend((Line(Send(to, data)) + more)[|AT_SEND|..]) == Good((to, data, more))
  {
    hide ParseUnsigned, Position, Show;
    var n := |data| % 0x1_0000;
    assert n == |data|;
    var s := Show(to) + [COMMA] + (Show(n) + [COMMA] + (data + CRLF + more));
    RegroupSend(to, n, data, more);
    assert (Line(Send(to, data)) + more)[|AT_SEND|..] == s by {
      SendTail(to, data, more);
    }
    ReadSendFields(to, data, more);
  }

  lemma SendTail(to: u16, data: seq<u8>, more: seq<u8>)
    ensures (Line(Send(to, data)) + more)[|AT_SEND|..] == SendText(to, data) + [CR] + ([LF] + more)
  {
    var t := SendText(to, data);
    hide SendText;
    assert Line(Send(to, data)) + more == AT_SEND + (t + [CR] + ([LF] + more));
  }

  lemma ReadSendFields(to: u16, data: seq<u8>, more: seq<u8>)
    requires |data| <= 0xFFFF
    ensures ReadSend(Show(to) + [COMMA] + (Show(|data|) + [COMMA] + (data + CRLF + more))) == Good((to, data, more))
  {
    hide ParseUnsigned, Position, Show, TakeUntilComma;
    var rest := data + CRLF + more;
    TakeField(Show(to), Show(|data|) + [COMMA] + rest);
    TakeField(Show(|data|), rest);
    ParseShow(to, 0xFFFF);
    ParseShow(|data|, 0xFFFF);
    assert rest[..|data|] == data && rest[|data|..] == CRLF + more && (CRLF + more)[2..] == more;
  }
}
