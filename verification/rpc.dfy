/**
 * Framing of the RPC example: a message is a 4-byte big-endian length followed by the
 * payload. Bytes are the raw octets of the C++ `char`/`uint8_t` buffers.
 */
module RpcFraming {
  import opened Wrappers

  type Byte = bv8

  const FIXED_LEN: nat := 4
  const U32_RANGE: nat := 0x1_0000_0000

  /** The four bytes `write_u32` stores: most significant first. */
  function U32ToBytes(value: bv32): (bytes: seq<Byte>)
    ensures |bytes| == FIXED_LEN
  {
    [((value >> 24) & 0xFF) as Byte, ((value >> 16) & 0xFF) as Byte,
     ((value >> 8) & 0xFF) as Byte, (value & 0xFF) as Byte]
  }

  /** `write_u32(value, bytes)`: fills the first four bytes of the span. */
  method WriteU32(value: bv32, bytes: array<Byte>)
    requires bytes.Length >= FIXED_LEN
    modifies bytes
    ensures bytes[..FIXED_LEN] == U32ToBytes(value)
    ensures bytes[FIXED_LEN..] == old(bytes[FIXED_LEN..])
  {
    bytes[0] := ((value >> 24) & 0xFF) as Byte;
    bytes[1] := ((value >> 16) & 0xFF) as Byte;
    bytes[2] := ((value >> 8) & 0xFF) as Byte;
    bytes[3] := (value & 0xFF) as Byte;
  }

  /**
   * `static_cast<uint32_t>(c)` for a `char` c on a target where `char` is signed: a byte
   * of 0x80 or more is a negative char and sign-extends to 0xFFFFFFxx.
   */
  function SignedCharToU32(b: Byte): (v: bv32)
    ensures b < 0x80 ==> v == b as bv32
    ensures b >= 0x80 ==> v == 0xFFFF_FF00 | b as bv32
  {
    if b < 0x80 then b as bv32 else 0xFFFF_FF00 | b as bv32
  }

  /** `read_u32` as written: each `char` is cast straight to `uint32_t`. */
  function ReadU32AsWritten(bytes: seq<Byte>): (v: bv32)
    requires |bytes| >= FIXED_LEN
    ensures (v & 0xFF) as Byte == bytes[3]
    ensures bytes[3] >= 0x80 ==> v >> 8 == 0xFF_FFFF
  {
    (SignedCharToU32(bytes[0]) << 24) | (SignedCharToU32(bytes[1]) << 16)
      | (SignedCharToU32(bytes[2]) << 8) | SignedCharToU32(bytes[3])
  }

  /** `read_u32` with each byte read as unsigned (`uint8_t`), i.e. `ntohl`. */
  function ReadU32(bytes: seq<Byte>): (v: bv32)
    requires |bytes| >= FIXED_LEN
    ensures U32ToBytes(v) == bytes[..FIXED_LEN]
  {
    BigEndianBytes(bytes[0], bytes[1], bytes[2], bytes[3]);
    assert bytes[..FIXED_LEN] == [bytes[0], bytes[1], bytes[2], bytes[3]];
    (bytes[0] as bv32 << 24) | (bytes[1] as bv32 << 16) | (bytes[2] as bv32 << 8) | bytes[3] as bv32
  }

  /** The four bytes, high byte first, make a value whose big-endian bytes they are. */
  lemma BigEndianBytes(b0: Byte, b1: Byte, b2: Byte, b3: Byte)
    ensures U32ToBytes((b0 as bv32 << 24) | (b1 as bv32 << 16) | (b2 as bv32 << 8) | b3 as bv32) == [b0, b1, b2, b3]
  {
  }

  /** Reading back what `write_u32` stored gives the value again. */
  lemma ReadWriteU32(value: bv32)
    ensures ReadU32(U32ToBytes(value)) == value
  {
    var b := U32ToBytes(value);
    assert b[0] as bv32 == (value >> 24) & 0xFF;
    assert b[1] as bv32 == (value >> 16) & 0xFF;
    assert b[2] as bv32 == (value >> 8) & 0xFF;
    assert b[3] as bv32 == value & 0xFF;
  }

  /** The as-written read agrees with the unsigned read exactly when no byte has its top bit set. */
  lemma ReadU32AsWrittenAgrees(bytes: seq<Byte>)
    requires |bytes| >= FIXED_LEN
    requires bytes[0] < 0x80 && bytes[1] < 0x80 && bytes[2] < 0x80 && bytes[3] < 0x80
    ensures ReadU32AsWritten(bytes) == ReadU32(bytes)
  {
  }

  /** A length of 128 is written as 00 00 00 80 and read back by the as-written code as 0xFFFFFF80. */
  lemma ReadU32AsWrittenSignExtends()
    ensures U32ToBytes(0x80) == [0, 0, 0, 0x80]
    ensures ReadU32AsWritten(U32ToBytes(0x80)) == 0xFFFF_FF80
  {
  }

  /** `RpcMessage::write_to`: the length (taken as `uint32_t`, so modulo 2^32), then the payload. */
  function Encode(payload: seq<Byte>): (frame: seq<Byte>)
    ensures |frame| == FIXED_LEN + |payload|
    ensures frame[FIXED_LEN..] == payload
  {
    U32ToBytes((|payload| % U32_RANGE) as bv32) + payload
  }

  /** `RpcMessage::write_to(buf)`: appends the frame of the payload to `buf`. */
  method WriteTo(payload: seq<Byte>, buf: seq<Byte>) returns (out: seq<Byte>)
    ensures out == buf + Encode(payload)
  {
    var bytes := new Byte[FIXED_LEN];
    WriteU32((|payload| % U32_RANGE) as bv32, bytes);
    out := buf + bytes[..] + payload;
  }

  datatype RpcErrorCode =
    | InsufficientData
    | ConnectFailed
    | ReadEOF
    | ReadFailed
    | WriteFailed
    | ReadFrameFailed
    | WriteFrameFailed
    | UnregisteredMethod

  /** Decoding with a given reading of the length header. */
  function DecodeWith(buf: seq<Byte>, length: nat): (r: Result<seq<Byte>, RpcErrorCode>)
    requires |buf| >= FIXED_LEN
    ensures r.Ok? <==> |buf| - FIXED_LEN >= length
    ensures r.Ok? ==> r.value == buf[FIXED_LEN..FIXED_LEN + length]
    ensures r.Err? ==> r.error == InsufficientData
  {
    if |buf| - FIXED_LEN < length then Err(InsufficientData)
    else Ok(buf[FIXED_LEN..FIXED_LEN + length])
  }

  /**
   * `RpcCodec::decode` with the header read as unsigned bytes: fails with InsufficientData
   * on fewer than 4 bytes or fewer than `length` bytes after the header, and otherwise
   * yields the `length` bytes after the header, ignoring anything beyond them.
   */
  function Decode(buf: seq<Byte>): (r: Result<seq<Byte>, RpcErrorCode>)
    ensures |buf| < FIXED_LEN ==> r == Err(InsufficientData)
    ensures |buf| >= FIXED_LEN ==>
      var length := ReadU32(buf[..FIXED_LEN]) as nat;
      (r.Ok? <==> |buf| - FIXED_LEN >= length)
      && (r.Ok? ==> r.value == buf[FIXED_LEN..FIXED_LEN + length])
      && (r.Err? ==> r.error == InsufficientData)
  {
    if |buf| < FIXED_LEN then Err(InsufficientData)
    else DecodeWith(buf, ReadU32(buf[..FIXED_LEN]) as nat)
  }

  /** `RpcCodec::decode` as written, with the sign-extending `read_u32`. */
  function DecodeAsWritten(buf: seq<Byte>): (r: Result<seq<Byte>, RpcErrorCode>)
    ensures |buf| < FIXED_LEN ==> r == Err(InsufficientData)
    ensures |buf| >= FIXED_LEN ==>
      var length := ReadU32AsWritten(buf[..FIXED_LEN]) as nat;
      (r.Ok? <==> |buf| - FIXED_LEN >= length)
      && (r.Ok? ==> r.value == buf[FIXED_LEN..FIXED_LEN + length])
      && (r.Err? ==> r.error == InsufficientData)
  {
    if |buf| < FIXED_LEN then Err(InsufficientData)
    else DecodeWith(buf, ReadU32AsWritten(buf[..FIXED_LEN]) as nat)
  }

  /** Decoding an encoded payload, followed by any bytes, gives the payload back. */
  lemma DecodeEncode(payload: seq<Byte>, rest: seq<Byte>)
    requires |payload| < U32_RANGE
    ensures Decode(Encode(payload) + rest) == Ok(payload)
  {
    var n := |payload|;
    var frame := Encode(payload) + rest;
    var header: bv32 := (n % U32_RANGE) as bv32;
    assert frame[..FIXED_LEN] == U32ToBytes(header);
    ReadWriteU32(header);
    LengthFits(n);
    assert ReadU32(frame[..FIXED_LEN]) as nat == n;
    assert frame[FIXED_LEN..FIXED_LEN + n] == payload;
  }

  /** A length below 2^32 survives the cast to `uint32_t` and back. */
  lemma LengthFits(n: nat)
    requires n < U32_RANGE
    ensures ((n % U32_RANGE) as bv32) as nat == n
  {
    assert n % U32_RANGE == n;
  }

  /** The as-written decoder rejects the complete frame of a 128-byte payload. */
  lemma DecodeAsWrittenRejects128()
    ensures var payload := seq(128, _ => 0 as Byte);
      DecodeAsWritten(Encode(payload)) == Err(InsufficientData)
  {
    var payload := seq(128, _ => 0 as Byte);
    var frame := Encode(payload);
    HeaderOf128(payload);
    SignExtendedLength();
    assert |frame| - FIXED_LEN < 0xFFFF_FF80;
  }

  /** The header of a 128-byte payload is 00 00 00 80. */
  lemma HeaderOf128(payload: seq<Byte>)
    requires |payload| == 128
    ensures Encode(payload)[..FIXED_LEN] == [0, 0, 0, 0x80]
  {
    assert (|payload| % U32_RANGE) as bv32 == 0x80;
    ReadU32AsWrittenSignExtends();
  }

  /** The as-written read of 00 00 00 80, as a length. */
  lemma SignExtendedLength()
    ensures ReadU32AsWritten([0, 0, 0, 0x80]) as nat == 0xFFFF_FF80
  {
    ReadU32AsWrittenSignExtends();
  }

  /** The value of each enumerator: InsufficientData is 9000 and each later one is one more. */
  function RpcCode(c: RpcErrorCode): (v: int)
    ensures 9000 <= v < 9008
  {
    match c
    case InsufficientData => 9000
    case ConnectFailed => 9001
    case ReadEOF => 9002
    case ReadFailed => 9003
    case WriteFailed => 9004
    case ReadFrameFailed => 9005
    case WriteFrameFailed => 9006
    case UnregisteredMethod => 9007
  }

  /** The enumerator an int names, if any: the inverse of `RpcCode`. */
  function FromRpcCode(v: int): (r: Option<RpcErrorCode>)
    ensures r.Some? <==> 9000 <= v < 9008
    ensures r.Some? ==> RpcCode(r.value) == v
  {
    if v == 9000 then Some(InsufficientData)
    else if v == 9001 then Some(ConnectFailed)
    else if v == 9002 then Some(ReadEOF)
    else if v == 9003 then Some(ReadFailed)
    else if v == 9004 then Some(WriteFailed)
    else if v == 9005 then Some(ReadFrameFailed)
    else if v == 9006 then Some(WriteFrameFailed)
    else if v == 9007 then Some(UnregisteredMethod)
    else None
  }

  /** `RpcError` holds a plain int. */
  datatype RpcError = RpcError(value: int)

  /** `make_rpc_error` asserts the value is 9000 or more. */
  function MakeRpcError(err: int): (e: RpcError)
    requires err >= 9000
    ensures e.value == err
  {
    RpcError(err)
  }

  /** `RpcError::message`: fixed texts for the eight codes, `strerror` (passed in) otherwise. */
  function RpcMessage(e: RpcError, strerror: int -> string): (m: string)
    ensures FromRpcCode(e.value).Some? ==> |m| > 0
    ensures FromRpcCode(e.value).None? ==> m == strerror(e.value)
  {
    match FromRpcCode(e.value)
    case None => strerror(e.value)
    case Some(c) =>
      match c
      case InsufficientData => "Insufficient data"
      case ConnectFailed => "Connect failed"
      case ReadEOF => "Read eof"
      case ReadFailed => "Read failed"
      case WriteFailed => "Write failed"
      case ReadFrameFailed => "Read frame failed"
      case WriteFrameFailed => "Write frame failed"
      case UnregisteredMethod => "Unregistered method"
  }

  /** Every RPC error code is found again from its value. */
  lemma RpcCodeRoundTrip(c: RpcErrorCode)
    ensures FromRpcCode(RpcCode(c)) == Some(c)
  {
    match c
    case InsufficientData =>
    case ConnectFailed =>
    case ReadEOF =>
    case ReadFailed =>
    case WriteFailed =>
    case ReadFrameFailed =>
    case WriteFrameFailed =>
    case UnregisteredMethod =>
  }
}
