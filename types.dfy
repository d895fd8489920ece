/** The enumerations of the GLOS header and the error taxonomy shared by the
    codec, the stream reader and writer. The byte codes are those of the
    header fields at offsets 12 (device), 13 (sample format) and 14
    (compression). */
module GlosTypes {
  import opened Bytes

  /** Why a block was rejected as corrupted; the reader treats all kinds alike. */
  datatype CorruptKind = BlockTooSmall | IncompleteBlock | InvalidContentSize | Lz4Failed

  /** What a format violation is about. */
  datatype Violation =
    | UnknownIqFormat(code: Byte)
    | UnknownCompression(code: Byte)
    | SampleCountMismatch(expected: nat, found: nat)
    | TotalSamplesMismatch(header: U64, recovered: nat)

  /** How an I/O operation on the underlying file or stream failed. */
  datatype IoKind = UnexpectedEof | ReadFailed | WriteFailed

  datatype GlosError =
    | InvalidMagic
    | UnsupportedVersion(foundVersion: Byte, expectedVersion: Byte)
    | CrcMismatch(computedCrc: U32, storedCrc: U32)
    | Corrupted(kind: CorruptKind)
    | InvalidBlockSize(size: nat)
    | Io(io: IoKind)
    | FormatViolation(violation: Violation)

  datatype Result<+T> = Ok(value: T) | Err(error: GlosError)

  /** The type of receiver that produced a recording. */
  datatype SdrType = HackRf | PlutoSdr | UsrpB200 | Unknown

  /** The representation of one I/Q pair. */
  datatype IqFormat = Int8 | Int16 | Float32

  /** How block payloads are stored; `NoCompression` is the source's `Compression::None`. */
  datatype Compression = NoCompression | Lz4

  /** The discriminant of a device type (`as u8`). */
  function SdrAsU8(t: SdrType): (v: Byte)
    ensures v in {0, 1, 2, 255}
    ensures v == 255 <==> t == Unknown
  {
    match t
    case HackRf => 0
    case PlutoSdr => 1
    case UsrpB200 => 2
    case Unknown => 255
  }

  /** Decoding a device code never fails: unassigned codes mean an unknown device. */
  function SdrFromU8(v: Byte): (t: SdrType)
    ensures SdrAsU8(t) == v <==> v in {0, 1, 2, 255}
    ensures v !in {0, 1, 2} <==> t == Unknown
  {
    if v == 0 then HackRf
    else if v == 1 then PlutoSdr
    else if v == 2 then UsrpB200
    else Unknown
  }

  function IqFormatAsU8(f: IqFormat): (v: Byte)
    ensures v <= 2
  {
    match f
    case Int8 => 0
    case Int16 => 1
    case Float32 => 2
  }

  /** Decoding a sample-format code: only the three assigned codes are accepted. */
  function IqFormatFromU8(v: Byte): (r: Result<IqFormat>)
    ensures r.Ok? <==> v <= 2
    ensures r.Ok? ==> IqFormatAsU8(r.value) == v
    ensures r.Err? ==> r.error == FormatViolation(UnknownIqFormat(v))
  {
    if v == 0 then Ok(Int8)
    else if v == 1 then Ok(Int16)
    else if v == 2 then Ok(Float32)
    else Err(FormatViolation(UnknownIqFormat(v)))
  }

  /** Bytes per I/Q pair: two components of 1, 2 or 4 bytes. */
  function SampleSize(f: IqFormat): (n: nat)
    ensures n == 2 * (if f == Int8 then 1 else if f == Int16 then 2 else 4)
  {
    match f
    case Int8 => 2
    case Int16 => 4
    case Float32 => 8
  }

  function CompressionAsU8(c: Compression): (v: Byte)
    ensures v <= 1
  {
    match c
    case NoCompression => 0
    case Lz4 => 1
  }

  function CompressionFromU8(v: Byte): (r: Result<Compression>)
    ensures r.Ok? <==> v <= 1
    ensures r.Ok? ==> CompressionAsU8(r.value) == v
    ensures r.Err? ==> r.error == FormatViolation(UnknownCompression(v))
  {
    if v == 0 then Ok(NoCompression)
    else if v == 1 then Ok(Lz4)
    else Err(FormatViolation(UnknownCompression(v)))
  }

  /** Every variant survives encoding and decoding, including Unknown (code 255). */
  lemma EnumCodesRoundTrip(t: SdrType, f: IqFormat, c: Compression)
    ensures SdrFromU8(SdrAsU8(t)) == t
    ensures IqFormatFromU8(IqFormatAsU8(f)) == Ok(f)
    ensures CompressionFromU8(CompressionAsU8(c)) == Ok(c)
  {
  }
}
