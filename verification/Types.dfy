/** The vocabulary shared by the encoder, the parsers and the driver. */
module Types {
  import opened Bytes

  datatype RfParams = RfParams(sf: u8, bw: u8, cr: u8, preamble: u8)

  datatype Command =
    | Ping
    | GetAddress | SetAddress(address: u16)
    | GetNetworkId | SetNetworkId(networkId: u8)
    | GetBand | SetBand(hz: u32)
    | GetCpin | SetCpin(password: seq<u8>)
    | GetParameters | SetParameters(params: RfParams)
    | GetCrfop
    | GetUid
    | GetVersion
    | FactoryReset
    | Send(to: u16, data: seq<u8>)

  /** String replies carry the bytes of the `&str`. */
  datatype Response =
    | Ok
    | Err(code: u8)
    | Address(address: u16)
    | NetworkId(networkId: u8)
    | Band(hz: u32)
    | Parameters(params: RfParams)
    | Crfop(power: u8)
    | Uid(uid: seq<u8>)
    | Version(version: seq<u8>)
    | Cpin(password: seq<u8>)

  datatype Event = Recv(from: u16, data: seq<u8>, rssi: i16, snr: i16) | Ready

  datatype Error = Busy | TxOverflow | RxOverflow | Parse

  datatype Result<+T> = Success(value: T) | Failure(error: Error)

  /** A parser's answer; `Panic` marks the one arithmetic overflow the event parser can run into. */
  datatype Parsed<+T> = Good(value: T) | Malformed | Panic {
    predicate IsFailure() { !Good? }
    function PropagateFailure<U>(): Parsed<U>
      requires IsFailure()
    {
      if Malformed? then Malformed else Panic
    }
    function Extract(): T
      requires Good?
    {
      value
    }
  }

  /** What the driver waits for once a command is out. */
  datatype QueryKey =
    AddressKey | NetworkIdKey | BandKey | ParametersKey | CrfopKey | UidKey | VersionKey | CpinKey

  datatype AwaitKind = Ack | Query(key: QueryKey)

  function KindOf(cmd: Command): AwaitKind {
    match cmd
    case GetAddress => Query(AddressKey)
    case GetNetworkId => Query(NetworkIdKey)
    case GetBand => Query(BandKey)
    case GetParameters => Query(ParametersKey)
    case GetCrfop => Query(CrfopKey)
    case GetUid => Query(UidKey)
    case GetVersion => Query(VersionKey)
    case GetCpin => Query(CpinKey)
    case _ => Ack
  }

  /** The reply variant a caller of a command of this kind can use; `Err` always can be. */
  predicate Answers(kind: AwaitKind, r: Response) {
    r.Err? ||
    match kind
    case Ack => r.Ok?
    case Query(AddressKey) => r.Address?
    case Query(NetworkIdKey) => r.NetworkId?
    case Query(BandKey) => r.Band?
    case Query(ParametersKey) => r.Parameters?
    case Query(CrfopKey) => r.Crfop?
    case Query(UidKey) => r.Uid?
    case Query(VersionKey) => r.Version?
    case Query(CpinKey) => r.Cpin?
  }

  /** The replies the command set documents for a command: its own variant, or an error code. */
  predicate ReplyTo(cmd: Command, r: Response) {
    r.Err? ||
    match cmd
    case Ping => r.Ok?
    case GetAddress => r.Address?
    case SetAddress(_) => r.Ok?
    case GetNetworkId => r.NetworkId?
    case SetNetworkId(_) => r.Ok?
    case GetBand => r.Band?
    case SetBand(_) => r.Ok?
    case GetCpin => r.Cpin?
    case SetCpin(_) => r.Ok?
    case GetParameters => r.Parameters?
    case SetParameters(_) => r.Ok?
    case GetCrfop => r.Crfop?
    case GetUid => r.Uid?
    case GetVersion => r.Version?
    case FactoryReset => r.Ok?
    case Send(_, _) => r.Ok?
  }

  /** The kind a command is filed under asks for exactly its documented replies. */
  lemma KindAsksForReply(cmd: Command, r: Response)
    ensures Answers(KindOf(cmd), r) <==> ReplyTo(cmd, r)
  {
  }
}
