/** What one command does to the signing session, as a function of the session and the command.
    A command is five header bytes (class, instruction, two parameters, length) and its data. */
module Session {
  import opened Words
  import opened Display
  import opened DisplayProofs
  import opened Parser

  const CLA: u8 := 0x88
  const INS_GET_VERSION: u8 := 0x00
  const INS_GET_ADDR: u8 := 0x01
  const INS_SIGN: u8 := 0x02
  const P1_INIT: u8 := 0
  const P1_ADD: u8 := 1
  const P1_LAST: u8 := 2
  const OFFSET_CLA: nat := 0
  const OFFSET_INS: nat := 1
  const OFFSET_PAYLOAD_TYPE: nat := 2
  const OFFSET_DATA: nat := 5
  const APDU_MIN_LENGTH: nat := 5
  const HDPATH_LEN: nat := 5
  const HDPATH_0: u32 := 0x8000_002c
  const HDPATH_1: u32 := 0x8000_013e

  type Path = p: seq<u32> | |p| == 5 witness [0, 0, 0, 0, 0]

  /** The static variables a command can change. */
  datatype State = State(initialized: bool, path: Path, buffer: seq<u8>)

  /** What the environment decides about one command: the count buffering_append returns, the
      contents it leaves when that count is not the length, whether the address can be
      computed, and how the review ends. */
  datatype Conditions = Conditions(added: u32, residue: seq<u8>, addressFilled: bool, decision: Status)

  datatype Status =
    | StatusOk
    | ClaNotSupported
    | InsNotSupported
    | WrongLength
    | DataInvalid
    | TxNotInitialized
    | OutputBufferTooSmall
    | InvalidP1P2
    | ExecutionError
    | CommandNotAllowed
    | SignVerifyError

  /** The contents of the exchange buffer, the number of bytes received, and the conditions. */
  datatype Received = Received(io: seq<u8>, rx: u32, conditions: Conditions)

  /** The exchange buffer has 260 bytes. */
  type Command = c: Received | |c.io| == 260 && c.rx <= 260
    witness Received(seq(260, i => 0), 0, Conditions(0, [], false, StatusOk))

  /** The exits of process_chunk: a thrown status, false, or true. */
  datatype Chunk = Thrown(status: Status) | More | Complete

  datatype Reply =
    | Answer(status: Status)
    | AddressReview
    | ParseError
    | SignReview

  // ---------- Derivation paths ----------

  /** A 32-bit word of the exchange buffer, least significant byte first. */
  function Word(io: seq<u8>, k: nat): u32
    requires k + 4 <= |io|
  {
    var (b0: int, b1: int, b2: int, b3: int) := (io[k], io[k + 1], io[k + 2], io[k + 3]);
    b0 + 0x100 * b1 + 0x1_0000 * b2 + 0x100_0000 * b3
  }

  function PathFrom(io: seq<u8>, k: nat): Path
    requires k + 20 <= |io|
  {
    [Word(io, k), Word(io, k + 4), Word(io, k + 8), Word(io, k + 12), Word(io, k + 16)]
  }

  predicate Mainnet(path: Path)
  {
    path[0] == HDPATH_0 && path[1] == HDPATH_1
  }

  /** extractHDPath: the session is closed first, and the path is stored before it is checked.
      The number of bytes behind the header is an unsigned difference. */
  function ExtractStep(s: State, c: Command): (r: (State, Status))
  {
    if (c.rx - OFFSET_DATA) % W32 < 4 * HDPATH_LEN then (s.(initialized := false), WrongLength)
    else
      var path := PathFrom(c.io, OFFSET_DATA);
      (s.(initialized := false, path := path), if Mainnet(path) then StatusOk else DataInvalid)
  }

  // ---------- Chunks ----------

  function Payload(c: Command): seq<u8>
  {
    if c.rx < OFFSET_DATA then [] else c.io[OFFSET_DATA..c.rx]
  }

  predicate Stored(c: Command)
  {
    c.conditions.added == |Payload(c)|
  }

  /** tx_append: everything is stored, or another count is returned. */
  function Appended(buffer: seq<u8>, c: Command): seq<u8>
  {
    if Stored(c) then buffer + Payload(c) else c.conditions.residue
  }

  function ChunkStep(s: State, c: Command): (State, Chunk)
  {
    if c.rx < OFFSET_DATA then (s, Thrown(WrongLength))
    else if c.io[OFFSET_PAYLOAD_TYPE] == P1_INIT then
      var (t, status) := ExtractStep(s.(buffer := []), c);
      if status == StatusOk then (t.(initialized := true), More) else (t, Thrown(status))
    else if c.io[OFFSET_PAYLOAD_TYPE] == P1_ADD then
      if !s.initialized then (s, Thrown(TxNotInitialized))
      else if !Stored(c) then (s.(initialized := false, buffer := Appended(s.buffer, c)), Thrown(OutputBufferTooSmall))
      else (s.(buffer := Appended(s.buffer, c)), More)
    else if c.io[OFFSET_PAYLOAD_TYPE] == P1_LAST then
      if !s.initialized then (s, Thrown(TxNotInitialized))
      else if !Stored(c) then (s.(initialized := false, buffer := Appended(s.buffer, c)), Thrown(OutputBufferTooSmall))
      else (s.(initialized := false, buffer := Appended(s.buffer, c)), Complete)
    else (s, Thrown(InvalidP1P2))
  }

  // ---------- Commands ----------

  /** The buffered message parses and every row of it can be shown. */
  ghost predicate Accepted(platform: Platform, message: seq<u8>)
  {
    && ParseOutcome(message).Success?
    && Displayable(message, ParseOutcome(message).value)
    && Acceptable(platform, message, ParseOutcome(message).value)
  }

  ghost function SignStep(platform: Platform, s: State, c: Command): (State, Reply)
  {
    var (t, chunk) := ChunkStep(s, c);
    match chunk
    case Thrown(status) => (t, Answer(status))
    case More => (t, Answer(StatusOk))
    case Complete => (t, if Accepted(platform, t.buffer) then SignReview else ParseError)
  }

  function AddressStep(s: State, c: Command): (State, Reply)
  {
    var (t, status) := ExtractStep(s, c);
    if status != StatusOk then (t, Answer(status))
    else if !c.conditions.addressFilled then (t, Answer(ExecutionError))
    else if c.io[OFFSET_PAYLOAD_TYPE] != 0 then (t, AddressReview)
    else (t, Answer(StatusOk))
  }

  ghost function Step(platform: Platform, s: State, c: Command): (State, Reply)
  {
    if c.io[OFFSET_CLA] != CLA then (s, Answer(ClaNotSupported))
    else if c.rx < APDU_MIN_LENGTH then (s, Answer(WrongLength))
    else if c.io[OFFSET_INS] == INS_GET_VERSION then (s, Answer(StatusOk))
    else if c.io[OFFSET_INS] == INS_GET_ADDR then AddressStep(s, c)
    else if c.io[OFFSET_INS] == INS_SIGN then SignStep(platform, s, c)
    else (s, Answer(InsNotSupported))
  }

  /** process_chunk returned true: the upload is complete and was handed to the parser. */
  predicate Completes(r: Reply)
  {
    r == SignReview || r == ParseError
  }
}
