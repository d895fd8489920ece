/** The fixed 128-byte GLOS file header: its byte layout, its encoder, which
    fills a zeroed buffer through a moving cursor, and its decoder, which checks
    magic, version, codes and checksum in that order. */
module Header {
  import opened Bytes
  import opened GlosTypes
  import opened Binary
  import Crc32

  const Magic: seq<Byte> := [0x47, 0x4C, 0x4F, 0x53]
  const Version: Byte := 1
  /** The header checksum covers bytes [0, CrcOffset) and is stored right after them. */
  const CrcOffset: nat := 72

  /** `GlosHeader`; the gain is kept as the bit pattern of its 32-bit float. */
  datatype GlosHeader = GlosHeader(
    version: Byte,
    flags: Byte,
    sdrType: SdrType,
    iqFormat: IqFormat,
    compression: Compression,
    sampleRate: U32,
    centerFreq: U64,
    gainBits: U32,
    timestampStart: U64,
    timestampEnd: U64,
    totalSamples: U64)

  /** Bit 0 of the flags selects little-endian integer fields. */
  predicate IsLittleEndian(flags: Byte)
  {
    flags % 2 == 1
  }

  /** `GlosHeader::new`: the start time is the caller's clock reading. */
  function NewHeader(sdrType: SdrType, sampleRate: U32, centerFreq: U64, nowSecs: U64): (h: GlosHeader)
    ensures h.version == Version && !IsLittleEndian(h.flags)
    ensures h.iqFormat == Int16 && h.compression == NoCompression && h.gainBits == 0
    ensures h.sdrType == sdrType && h.sampleRate == sampleRate && h.centerFreq == centerFreq
    ensures h.timestampStart == nowSecs && h.timestampEnd == 0 && h.totalSamples == 0
  {
    GlosHeader(Version, 0, sdrType, Int16, NoCompression, sampleRate, centerFreq, 0, nowSecs, 0, 0)
  }

  /** The six integer fields, packed from offset 16 to 56 in the flag-selected order. */
  function HeaderFields(h: GlosHeader): (r: seq<Byte>)
    ensures |r| == 40
  {
    var le := IsLittleEndian(h.flags);
    UintBytes(le, h.sampleRate, 4) + UintBytes(le, h.centerFreq, 8) + UintBytes(le, h.gainBits, 4)
    + UintBytes(le, h.timestampStart, 8) + UintBytes(le, h.timestampEnd, 8) + UintBytes(le, h.totalSamples, 8)
  }

  /** The first 16 bytes: magic, version, flags, six zero bytes, the three codes, one zero byte. */
  function HeaderLead(h: GlosHeader): (r: seq<Byte>)
    ensures |r| == 16
  {
    Magic + [h.version, h.flags] + Zeros(6)
    + [SdrAsU8(h.sdrType), IqFormatAsU8(h.iqFormat), CompressionAsU8(h.compression), 0]
  }

  /** The bytes the header checksum covers. */
  function HeaderPrefix(h: GlosHeader): (r: seq<Byte>)
    ensures |r| == CrcOffset
  {
    HeaderLead(h) + HeaderFields(h) + Zeros(16)
  }

  /** The serialized header. */
  function HeaderBytes(h: GlosHeader): (r: seq<Byte>)
    ensures |r| == HeaderSize
  {
    HeaderPrefix(h) + BeBytes(Crc32.Checksum(HeaderPrefix(h)), 4) + Zeros(52)
  }

  /** The header fields sit at fixed offsets; reserved bytes are zero. */
  lemma HeaderLayout(h: GlosHeader)
    ensures var b := HeaderBytes(h); var le := IsLittleEndian(h.flags);
      b[..4] == Magic && b[4] == h.version && b[5] == h.flags &&
      b[12] == SdrAsU8(h.sdrType) && b[13] == IqFormatAsU8(h.iqFormat) &&
      b[14] == CompressionAsU8(h.compression) &&
      b[16..20] == UintBytes(le, h.sampleRate, 4) &&
      b[20..28] == UintBytes(le, h.centerFreq, 8) &&
      b[28..32] == UintBytes(le, h.gainBits, 4) &&
      b[32..40] == UintBytes(le, h.timestampStart, 8) &&
      b[40..48] == UintBytes(le, h.timestampEnd, 8) &&
      b[48..56] == UintBytes(le, h.totalSamples, 8) &&
      b[..CrcOffset] == HeaderPrefix(h) &&
      b[72..76] == BeBytes(Crc32.Checksum(b[..CrcOffset]), 4) &&
      (forall i :: (6 <= i < 12 || i == 15 || 56 <= i < 72 || 76 <= i < 128) ==> b[i] == 0)
  {
    hide Crc32.Checksum;
    var b := HeaderBytes(h);
    var p := HeaderPrefix(h);
    var f := HeaderFields(h);
    var le := IsLittleEndian(h.flags);
    assert b[..CrcOffset] == p;
    assert p[16..56] == f;
    assert b[16..20] == f[0..4];
    assert b[20..28] == f[4..12];
    assert b[28..32] == f[12..16];
    assert b[32..40] == f[16..24];
    assert b[40..48] == f[24..32];
    assert b[48..56] == f[32..40];
    assert b[72..76] == BeBytes(Crc32.Checksum(p), 4);
    forall i | 56 <= i < 72
      ensures b[i] == 0
    {
      assert b[i] == p[i] == Zeros(16)[i - 56];
    }
    forall i | 76 <= i < 128
      ensures b[i] == 0
    {
      assert b[i] == Zeros(52)[i - 76];
    }
    forall i | 6 <= i < 12
      ensures b[i] == 0
    {
      assert b[i] == HeaderLead(h)[i] == Zeros(6)[i - 6];
    }
  }

  /** The checksum stored at bytes 72..76, always big-endian. */
  function StoredCrc(s: seq<Byte>): (v: U32)
    requires |s| == HeaderSize
    ensures v == BeValue(s[72..76])
  {
    Uint32At(false, s, 72)
  }

  /** `GlosHeader::deserialize` as a function of the 128 bytes. */
  function DecodeHeader(s: seq<Byte>): (r: Result<GlosHeader>)
    requires |s| == HeaderSize
    ensures r.Err? ==> r.error.InvalidMagic? || r.error.UnsupportedVersion? ||
                       r.error.FormatViolation? || r.error.CrcMismatch?
    ensures r.Ok? ==> s[..4] == Magic && r.value.version == Version &&
                      StoredCrc(s) == Crc32.Checksum(s[..CrcOffset])
    ensures r.Ok? ==> r.value.flags == s[5] && r.value.sdrType == SdrFromU8(s[12]) &&
                      IqFormatAsU8(r.value.iqFormat) == s[13] &&
                      CompressionAsU8(r.value.compression) == s[14]
  {
    if s[..4] != Magic then Err(InvalidMagic)
    else if s[4] != Version then Err(UnsupportedVersion(s[4], Version))
    else
      var isLe := IsLittleEndian(s[5]);
      var sdr := SdrFromU8(s[12]);
      match IqFormatFromU8(s[13])
      case Err(e) => Err(e)
      case Ok(fmt) =>
        (match CompressionFromU8(s[14])
         case Err(e) => Err(e)
         case Ok(comp) =>
           var computed := Crc32.Checksum(s[..CrcOffset]);
           if StoredCrc(s) != computed then Err(CrcMismatch(computed, StoredCrc(s)))
           else Ok(GlosHeader(s[4], s[5], sdr, fmt, comp,
                              Uint32At(isLe, s, 16), Uint64At(isLe, s, 20), Uint32At(isLe, s, 28),
                              Uint64At(isLe, s, 32), Uint64At(isLe, s, 40), Uint64At(isLe, s, 48))))
  }

  /** The checks come in a fixed order, each error is reported only when every
      earlier check passed, and decoding succeeds exactly when all pass. */
  lemma DecodeHeaderErrorOrder(s: seq<Byte>)
    requires |s| == HeaderSize
    ensures var r := DecodeHeader(s);
      (r == Err(InvalidMagic) <==> s[..4] != Magic) &&
      (r == Err(UnsupportedVersion(s[4], Version)) <==> s[..4] == Magic && s[4] != Version) &&
      (r == Err(FormatViolation(UnknownIqFormat(s[13]))) <==>
         s[..4] == Magic && s[4] == Version && s[13] > 2) &&
      (r == Err(FormatViolation(UnknownCompression(s[14]))) <==>
         s[..4] == Magic && s[4] == Version && s[13] <= 2 && s[14] > 1) &&
      (r.Err? && r.error.CrcMismatch? <==>
         s[..4] == Magic && s[4] == Version && s[13] <= 2 && s[14] <= 1 &&
         StoredCrc(s) != Crc32.Checksum(s[..CrcOffset]))
  {
    hide Crc32.Checksum;
  }

  /** Bytes 76..128 are never looked at. */
  lemma DecodeHeaderIgnoresReserved(s: seq<Byte>, t: seq<Byte>)
    requires |s| == HeaderSize && |t| == HeaderSize
    requires s[..76] == t[..76]
    ensures DecodeHeader(s) == DecodeHeader(t)
  {
    hide Crc32.Checksum;
    SameWindow(s, t, 76, 0, 4);
    SameWindow(s, t, 76, 0, CrcOffset);
    SameWindow(s, t, 76, 16, 20);
    SameWindow(s, t, 76, 20, 28);
    SameWindow(s, t, 76, 28, 32);
    SameWindow(s, t, 76, 32, 40);
    SameWindow(s, t, 76, 40, 48);
    SameWindow(s, t, 76, 48, 56);
    SameWindow(s, t, 76, 72, 76);
    assert s[4] == s[..76][4] && s[5] == s[..76][5];
    assert s[12] == s[..76][12] && s[13] == s[..76][13] && s[14] == s[..76][14];
  }

  /** Two sequences that agree on a prefix agree on every window inside it. */
  lemma SameWindow(s: seq<Byte>, t: seq<Byte>, k: nat, lo: nat, hi: nat)
    requires k <= |s| && k <= |t| && s[..k] == t[..k] && lo <= hi <= k
    ensures s[lo..hi] == t[lo..hi]
  {
    hide Crc32.Checksum;
    assert s[lo..hi] == s[..k][lo..hi];
    assert t[lo..hi] == t[..k][lo..hi];
  }

  /** Decoding a serialized version-1 header gives back every field, in either byte order. */
  lemma HeaderRoundTrip(h: GlosHeader)
    requires h.version == Version
    ensures DecodeHeader(HeaderBytes(h)) == Ok(h)
  {
    hide Crc32.Checksum;
    var b := HeaderBytes(h);
    var le := IsLittleEndian(h.flags);
    HeaderLayout(h);
    Pow256Widths();
    UintRoundTrip(le, h.sampleRate, 4);
    UintRoundTrip(le, h.centerFreq, 8);
    UintRoundTrip(le, h.gainBits, 4);
    UintRoundTrip(le, h.timestampStart, 8);
    UintRoundTrip(le, h.timestampEnd, 8);
    UintRoundTrip(le, h.totalSamples, 8);
    BeRoundTrip(Crc32.Checksum(b[..CrcOffset]), 4);
    EnumCodesRoundTrip(h.sdrType, h.iqFormat, h.compression);
  }

  /** Changing any byte of the stored checksum of a valid header makes decoding
      report a checksum mismatch. */
  lemma HeaderStoredCrcFlip(h: GlosHeader, i: nat, v: Byte)
    requires h.version == Version
    requires 72 <= i < 76 && v != HeaderBytes(h)[i]
    ensures DecodeHeader(HeaderBytes(h)[i := v]) ==
      Err(CrcMismatch(Crc32.Checksum(HeaderPrefix(h)), StoredCrc(HeaderBytes(h)[i := v])))
  {
    hide Crc32.Checksum;
    var p := HeaderPrefix(h);
    var b := HeaderBytes(h);
    var c := b[i := v];
    var crc := BeBytes(Crc32.Checksum(p), 4);
    assert b[..CrcOffset] == p && b[72..76] == crc;
    UpdateAfterWindow(b, i, v, CrcOffset, 76);
    PrefixCodes(h);
    SameWindow(c, p, CrcOffset, 0, 4);
    assert c[4] == p[4] && c[13] == p[13] && c[14] == p[14];
    BeValueInjective(c[72..76], crc);
    BeRoundTrip(Crc32.Checksum(p), 4) by { Pow256Widths(); }
    DecodeHeaderCrcStage(c);
  }

  /** Updating one byte inside [lo, hi) keeps the bytes before lo and changes the window. */
  lemma UpdateAfterWindow(s: seq<Byte>, i: nat, v: Byte, lo: nat, hi: nat)
    requires lo <= i < hi <= |s| && v != s[i]
    ensures s[i := v][..lo] == s[..lo]
    ensures s[i := v][lo..hi] != s[lo..hi]
  {
    hide Crc32.Checksum;
    assert s[i := v][lo..hi][i - lo] != s[lo..hi][i - lo];
  }

  lemma PrefixCodes(h: GlosHeader)
    ensures var p := HeaderPrefix(h);
      p[..4] == Magic && p[4] == h.version && p[5] == h.flags && p[12] == SdrAsU8(h.sdrType) &&
      p[13] == IqFormatAsU8(h.iqFormat) && p[14] == CompressionAsU8(h.compression)
  {
    hide Crc32.Checksum;
    var p := HeaderPrefix(h);
    assert p[..16] == HeaderLead(h);
  }

  /** Once magic, version and codes are acceptable, a stored checksum that
      differs from the computed one is the error reported. */
  lemma DecodeHeaderCrcStage(s: seq<Byte>)
    requires |s| == HeaderSize && s[..4] == Magic && s[4] == Version && s[13] <= 2 && s[14] <= 1
    requires StoredCrc(s) != Crc32.Checksum(s[..CrcOffset])
    ensures DecodeHeader(s) == Err(CrcMismatch(Crc32.Checksum(s[..CrcOffset]), StoredCrc(s)))
  {
    hide Crc32.Checksum;
  }

  /** A version byte of 99 is refused before anything after it is examined. */
  lemma HeaderVersion99(h: GlosHeader)
    ensures DecodeHeader(HeaderBytes(h)[4 := 99]) == Err(UnsupportedVersion(99, Version))
  {
    hide Crc32.Checksum;
    HeaderLayout(h);
    assert HeaderBytes(h)[4 := 99][..4] == HeaderBytes(h)[..4];
  }

  /** `GlosHeader::serialize`: fills a zeroed 128-byte buffer field by field
      through a moving cursor, then stores the big-endian checksum of [0, 72).
      It never fails. */
  method SerializeHeader(h: GlosHeader) returns (r: Result<array<Byte>>)
    ensures r.Ok? && fresh(r.value) && r.value[..] == HeaderBytes(h)
  {
    hide Crc32.Checksum;
    var buf := new Byte[HeaderSize](_ => 0);
    WriteLead(buf, h);
    WriteFields(buf, h);
    var crc := Crc32.Checksum(buf[..CrcOffset]);
    ghost var before := buf[..];
    assert before[..CrcOffset] == HeaderPrefix(h) by {
      assert Zeros(72)[..16] == Zeros(16);
    }
    var _ := WriteU32Local(buf, CrcOffset, false, crc);
    assert before[CrcOffset + 4..] == Zeros(52);
    r := Ok(buf);
  }

  /** Bytes 0..16 of a zeroed buffer: magic, version, flags, padding, the three codes. */
  method WriteLead(buf: array<Byte>, h: GlosHeader)
    requires buf.Length == HeaderSize && buf[..] == Zeros(HeaderSize)
    modifies buf
    ensures buf[..] == HeaderLead(h) + Zeros(112)
  {
    hide Crc32.Checksum;
    buf[0], buf[1], buf[2], buf[3] := Magic[0], Magic[1], Magic[2], Magic[3];
    buf[4] := h.version;
    buf[5] := h.flags;
    var off := 12;
    buf[off] := SdrAsU8(h.sdrType);
    buf[off + 1] := IqFormatAsU8(h.iqFormat);
    buf[off + 2] := CompressionAsU8(h.compression);
    ghost var want := HeaderLead(h) + Zeros(112);
    assert forall i | 0 <= i < 16 :: buf[i] == want[i];
    assert forall i | 16 <= i < HeaderSize :: buf[i] == want[i];
    assert buf[..] == want;
  }

  /** The six integer fields at the write cursor, from offset 16 to 56. */
  method WriteFields(buf: array<Byte>, h: GlosHeader)
    requires buf.Length == HeaderSize && buf[..] == HeaderLead(h) + Zeros(112)
    modifies buf
    ensures buf[..] == HeaderLead(h) + HeaderFields(h) + Zeros(72)
  {
    hide Crc32.Checksum;
    var le := IsLittleEndian(h.flags);
    var off := 16;
    ghost var built := HeaderLead(h);
    off := PutU32(buf, off, built, le, h.sampleRate);
    built := built + UintBytes(le, h.sampleRate, 4);
    off := PutU64(buf, off, built, le, h.centerFreq);
    built := built + UintBytes(le, h.centerFreq, 8);
    off := PutU32(buf, off, built, le, h.gainBits);
    built := built + UintBytes(le, h.gainBits, 4);
    off := PutU64(buf, off, built, le, h.timestampStart);
    built := built + UintBytes(le, h.timestampStart, 8);
    off := PutU64(buf, off, built, le, h.timestampEnd);
    built := built + UintBytes(le, h.timestampEnd, 8);
    off := PutU64(buf, off, built, le, h.totalSamples);
    built := built + UintBytes(le, h.totalSamples, 8);
    assert built == HeaderLead(h) + HeaderFields(h);
  }

  /** One 32-bit field written at the end of what is already filled in. */
  method PutU32(buf: array<Byte>, off: nat, ghost built: seq<Byte>, le: bool, val: U32) returns (next: nat)
    requires buf.Length == HeaderSize && off == |built| && |built| + 4 <= HeaderSize
    requires buf[..] == built + Zeros(HeaderSize - |built|)
    modifies buf
    ensures next == |built| + 4
    ensures buf[..] == built + UintBytes(le, val, 4) + Zeros(HeaderSize - |built| - 4)
  {
    hide Crc32.Checksum;
    next := WriteU32Local(buf, off, le, val);
    SpliceZeros(built, UintBytes(le, val, 4), HeaderSize - |built|);
  }

  /** One 64-bit field written at the end of what is already filled in. */
  method PutU64(buf: array<Byte>, off: nat, ghost built: seq<Byte>, le: bool, val: U64) returns (next: nat)
    requires buf.Length == HeaderSize && off == |built| && |built| + 8 <= HeaderSize
    requires buf[..] == built + Zeros(HeaderSize - |built|)
    modifies buf
    ensures next == |built| + 8
    ensures buf[..] == built + UintBytes(le, val, 8) + Zeros(HeaderSize - |built| - 8)
  {
    hide Crc32.Checksum;
    next := WriteU64Local(buf, off, le, val);
    SpliceZeros(built, UintBytes(le, val, 8), HeaderSize - |built|);
  }

  /** Writing w bytes at the end of what was built keeps the rest zero. */
  lemma SpliceZeros(built: seq<Byte>, bytes: seq<Byte>, n: nat)
    requires |bytes| <= n
    ensures var s := built + Zeros(n);
      s[..|built|] + bytes + s[|built| + |bytes|..] == (built + bytes) + Zeros(n - |bytes|)
  {
    hide Crc32.Checksum;
    var s := built + Zeros(n);
    assert s[|built| + |bytes|..] == Zeros(n - |bytes|);
  }

  /** `GlosHeader::deserialize` over the buffer, walking a read cursor. */
  method DeserializeHeader(buf: array<Byte>) returns (r: Result<GlosHeader>)
    requires buf.Length == HeaderSize
    ensures r == DecodeHeader(buf[..])
  {
    hide Crc32.Checksum;
    ghost var s := buf[..];
    if buf[..4] != Magic {
      return Err(InvalidMagic);
    }
    var off := 4;
    var version := buf[off];
    if version != Version {
      return Err(UnsupportedVersion(version, Version));
    }
    off := off + 1;
    var flags := buf[off];
    var isLe := IsLittleEndian(flags);
    off := off + 1;
    off := off + 6;
    var sdr := SdrFromU8(buf[off]);
    off := off + 1;
    var fmt := IqFormatFromU8(buf[off]);
    if fmt.Err? {
      return Err(fmt.error);
    }
    off := off + 1;
    var comp := CompressionFromU8(buf[off]);
    if comp.Err? {
      return Err(comp.error);
    }
    off := off + 1;
    off := off + 1;
    var sampleRate, centerFreq, gainBits, start, end, total;
    sampleRate, off := ReadU32Local(buf, off, isLe);
    centerFreq, off := ReadU64Local(buf, off, isLe);
    gainBits, off := ReadU32Local(buf, off, isLe);
    start, off := ReadU64Local(buf, off, isLe);
    end, off := ReadU64Local(buf, off, isLe);
    total, off := ReadU64Local(buf, off, isLe);
    var stored, _ := ReadU32Local(buf, CrcOffset, false);
    var computed := Crc32.Checksum(buf[..CrcOffset]);
    if stored != computed {
      return Err(CrcMismatch(computed, stored));
    }
    r := Ok(GlosHeader(version, flags, sdr, fmt.value, comp.value,
                       sampleRate, centerFreq, gainBits, start, end, total));
  }
}
