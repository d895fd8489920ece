/** IQ sample blocks: their framing (big-endian content size, sample count,
    timestamp, payload, checksum), the decoder's classification of bad input,
    and the LZ4 payload compression. */
module Block {
  import opened Bytes
  import opened GlosTypes
  import Crc32
  import Lz4

  /** The largest serialized block, 1 MiB. */
  const MaxBlockSize: nat := 1024 * 1024
  /** Size, count, timestamp and checksum around the payload. */
  const BlockOverhead: nat := 20

  /** `IqBlock`; `isCompressed` says whether `data` is an LZ4 frame. */
  datatype IqBlock = IqBlock(timestampNs: U64, sampleCount: U32, data: seq<Byte>, isCompressed: bool)

  /** The bytes the block checksum covers: count, timestamp and payload. */
  function BlockContent(b: IqBlock): (r: seq<Byte>)
    ensures |r| == 12 + |b.data|
  {
    BeBytes(b.sampleCount, 4) + BeBytes(b.timestampNs, 8) + b.data
  }

  /** The framed block. */
  function BlockBytes(b: IqBlock): (r: seq<Byte>)
    ensures |r| == BlockOverhead + |b.data|
  {
    BeBytes(12 + |b.data|, 4) + BlockContent(b) + BeBytes(Crc32.Checksum(BlockContent(b)), 4)
  }

  /** The framing of a block that fits, field by field. */
  lemma BlockLayout(b: IqBlock)
    requires BlockOverhead + |b.data| <= MaxBlockSize
    ensures var r := BlockBytes(b); var n := |b.data|;
      BeValue(r[..4]) == 12 + n && r[4..8] == BeBytes(b.sampleCount, 4) &&
      r[8..16] == BeBytes(b.timestampNs, 8) && r[16..16 + n] == b.data &&
      r[4..16 + n] == BlockContent(b) &&
      r[16 + n..] == BeBytes(Crc32.Checksum(r[4..16 + n]), 4)
  {
    hide Crc32.Checksum;
    var r := BlockBytes(b);
    var n := |b.data|;
    var content := BlockContent(b);
    assert r[..4] == BeBytes(12 + n, 4);
    BeRoundTrip(12 + n, 4) by { Pow256Widths(); }
    assert r[4..16 + n] == content;
    assert content[..4] == BeBytes(b.sampleCount, 4);
    assert content[4..12] == BeBytes(b.timestampNs, 8);
    assert content[12..] == b.data;
    assert r[4..8] == content[..4];
    assert r[8..16] == content[4..12];
    assert r[16..16 + n] == content[12..];
  }

  /** `IqBlock::serialize`: builds the frame piece by piece; a frame larger than
      1 MiB is refused with its size. */
  method SerializeBlock(b: IqBlock) returns (r: Result<seq<Byte>>)
    ensures BlockOverhead + |b.data| > MaxBlockSize ==> r == Err(InvalidBlockSize(BlockOverhead + |b.data|))
    ensures BlockOverhead + |b.data| <= MaxBlockSize ==> r == Ok(BlockBytes(b))
  {
    hide Crc32.Checksum;
    var blockSize := 4 + 4 + 8 + |b.data| + 4;
    if blockSize > MaxBlockSize {
      return Err(InvalidBlockSize(blockSize));
    }
    var contentSize := 4 + 8 + |b.data|;
    var buf := BeBytes(contentSize, 4);
    buf := buf + BeBytes(b.sampleCount, 4);
    buf := buf + BeBytes(b.timestampNs, 8);
    buf := buf + b.data;
    assert buf == BeBytes(contentSize, 4) + BlockContent(b);
    assert buf[4..] == BlockContent(b);
    var crc := Crc32.Checksum(buf[4..]);
    buf := buf + BeBytes(crc, 4);
    r := Ok(buf);
  }

  /** `IqBlock::deserialize`: the block at the start of buf and the number of
      bytes it occupies; whether the payload is compressed comes from the file
      header, not from the bytes. */
  function DecodeBlock(buf: seq<Byte>, comp: Compression): (r: Result<(IqBlock, nat)>)
    ensures r.Err? ==> r.error.Corrupted? || r.error.CrcMismatch?
    ensures r.Ok? ==>
      var n := r.value.1;
      |buf| >= BlockOverhead && n == 8 + BeValue(buf[..4]) && BlockOverhead <= n <= |buf| &&
      r.value.0.data == buf[16..n - 4] &&
      r.value.0.sampleCount == BeValue(buf[4..8]) && r.value.0.timestampNs == BeValue(buf[8..16]) &&
      r.value.0.isCompressed == (comp == Lz4) &&
      BeValue(buf[n - 4..n]) == Crc32.Checksum(buf[4..n - 4])
  {
    if |buf| < BlockOverhead then Err(Corrupted(BlockTooSmall))
    else
      var contentSize := BeValue(buf[..4]);
      if 4 + contentSize + 4 > |buf| then Err(Corrupted(IncompleteBlock))
      else if contentSize < 12 then Err(Corrupted(InvalidContentSize))
      else
        var stored := Uint32At(false, buf, 4 + contentSize);
        var computed := Crc32.Checksum(buf[4..4 + contentSize]);
        if stored != computed then Err(CrcMismatch(computed, stored))
        else Ok((IqBlock(Uint64At(false, buf, 8), Uint32At(false, buf, 4),
                         buf[16..4 + contentSize], comp == Lz4), 4 + contentSize + 4))
  }

  /** A frame that passes the three length checks: at least 20 bytes, the
      announced frame inside the input, and room for count and timestamp. */
  predicate SoundFrame(buf: seq<Byte>)
  {
    |buf| >= BlockOverhead && 8 + BeValue(buf[..4]) <= |buf| && BeValue(buf[..4]) >= 12
  }

  /** Each kind of corruption has exactly its trigger, checked in order: the
      length of the input first, then whether the announced frame fits it,
      then whether the announced size covers count and timestamp; a sound frame
      then fails exactly when its stored checksum differs, and decodes otherwise. */
  lemma DecodeBlockOutcomes(buf: seq<Byte>, comp: Compression)
    ensures var r := DecodeBlock(buf, comp);
      (r == Err(Corrupted(BlockTooSmall)) <==> |buf| < BlockOverhead) &&
      (r == Err(Corrupted(IncompleteBlock)) <==>
         |buf| >= BlockOverhead && 8 + BeValue(buf[..4]) > |buf|) &&
      (r == Err(Corrupted(InvalidContentSize)) <==>
         |buf| >= BlockOverhead && 8 + BeValue(buf[..4]) <= |buf| && BeValue(buf[..4]) < 12) &&
      (r.Err? && r.error.CrcMismatch? <==>
         SoundFrame(buf) && BeValue(buf[4 + BeValue(buf[..4])..8 + BeValue(buf[..4])]) !=
                            Crc32.Checksum(buf[4..4 + BeValue(buf[..4])])) &&
      (r.Ok? <==>
         SoundFrame(buf) && BeValue(buf[4 + BeValue(buf[..4])..8 + BeValue(buf[..4])]) ==
                            Crc32.Checksum(buf[4..4 + BeValue(buf[..4])]))
  {
    hide Crc32.Checksum;
  }

  /** A block that decodes, or fails only its checksum, still does so with more
      bytes after it: the verdict depends on the announced frame alone. */
  lemma DecodeBlockExtend(buf: seq<Byte>, tail: seq<Byte>, comp: Compression)
    requires DecodeBlock(buf, comp).Ok? || DecodeBlock(buf, comp).error.CrcMismatch?
    ensures DecodeBlock(buf + tail, comp) == DecodeBlock(buf, comp)
  {
    hide Crc32.Checksum;
    var t := buf + tail;
    var cs := BeValue(buf[..4]);
    assert t[..4] == buf[..4];
    assert t[4..4 + cs] == buf[4..4 + cs];
    assert t[4 + cs..8 + cs] == buf[4 + cs..8 + cs];
    assert t[4..8] == buf[4..8];
    assert t[8..16] == buf[8..16];
    assert t[16..4 + cs] == buf[16..4 + cs];
  }

  /** Any serialized block is decoded from the front of a stream, whatever
      follows it, with the header's compression setting as its flag. */
  lemma BlockRoundTrip(b: IqBlock, tail: seq<Byte>, comp: Compression)
    requires BlockOverhead + |b.data| <= MaxBlockSize
    ensures DecodeBlock(BlockBytes(b) + tail, comp) ==
      Ok((b.(isCompressed := comp == Lz4), |BlockBytes(b)|))
  {
    hide Crc32.Checksum;
    var r := BlockBytes(b);
    var n := |b.data|;
    BlockLayout(b);
    Pow256Widths();
    BeRoundTrip(b.sampleCount, 4);
    BeRoundTrip(b.timestampNs, 8);
    BeRoundTrip(Crc32.Checksum(r[4..16 + n]), 4);
    assert r[16 + n..20 + n] == r[16 + n..];
    assert DecodeBlock(r, comp) == Ok((b.(isCompressed := comp == Lz4), |r|));
    DecodeBlockExtend(r, tail, comp);
  }

  /** Changing any byte of a block's stored checksum makes it fail its checksum,
      whatever follows it. */
  lemma BlockStoredCrcFlip(b: IqBlock, tail: seq<Byte>, comp: Compression, i: nat, v: Byte)
    requires BlockOverhead + |b.data| <= MaxBlockSize
    requires 16 + |b.data| <= i < BlockOverhead + |b.data| && v != BlockBytes(b)[i]
    ensures var r := DecodeBlock(BlockBytes(b)[i := v] + tail, comp);
      r.Err? && r.error.CrcMismatch?
  {
    hide Crc32.Checksum;
    var r := BlockBytes(b);
    var n := |b.data|;
    var c := r[i := v];
    BlockLayout(b);
    assert c[..4] == r[..4];
    assert c[4..16 + n] == r[4..16 + n];
    var crc := BeBytes(Crc32.Checksum(r[4..16 + n]), 4);
    assert c[16 + n..] != crc by { assert c[16 + n..][i - 16 - n] != r[16 + n..][i - 16 - n]; }
    BeValueInjective(c[16 + n..20 + n], crc);
    BeRoundTrip(Crc32.Checksum(r[4..16 + n]), 4) by { Pow256Widths(); }
    assert DecodeBlock(c, comp).error.CrcMismatch?;
    DecodeBlockExtend(c, tail, comp);
  }

  /** `IqBlock::compress`: replaces the payload by its LZ4 frame; a block that is
      already compressed is left alone. */
  function Compress(b: IqBlock): (r: IqBlock)
    ensures b.isCompressed ==> r == b
    ensures r.isCompressed && r.sampleCount == b.sampleCount && r.timestampNs == b.timestampNs
  {
    if b.isCompressed then b
    else b.(data := Lz4.CompressPrependSize(b.data), isCompressed := true)
  }

  /** `IqBlock::decompress`: the block after decompression. On an error the
      caller's block is unchanged. */
  function Decompress(b: IqBlock): (r: Result<IqBlock>)
    ensures !b.isCompressed ==> r == Ok(b)
    ensures r.Ok? ==> !r.value.isCompressed && r.value.sampleCount == b.sampleCount &&
                      r.value.timestampNs == b.timestampNs
    ensures r.Err? ==> b.isCompressed && r.error == Corrupted(Lz4Failed)
  {
    if !b.isCompressed then Ok(b)
    else match Lz4.DecompressSizePrepended(b.data)
      case None => Err(Corrupted(Lz4Failed))
      case Some(d) => Ok(b.(data := d, isCompressed := false))
  }

  /** Decompressing a freshly compressed block restores its payload and flag. */
  lemma DecompressCompress(b: IqBlock)
    requires !b.isCompressed && |b.data| < TWO32
    ensures Decompress(Compress(b)) == Ok(b)
  {
    hide Crc32.Checksum;
    Lz4.RoundTrip(b.data);
  }

  /** `IqBlock::validate_sample_count`: an uncompressed payload must hold exactly
      sample_count samples; a compressed one is not checked. */
  function ValidateSampleCount(b: IqBlock, fmt: IqFormat): (r: Result<()>)
    ensures r.Ok? <==> b.isCompressed || |b.data| == b.sampleCount * SampleSize(fmt)
    ensures r.Err? ==> r.error == FormatViolation(SampleCountMismatch(b.sampleCount * SampleSize(fmt), |b.data|))
  {
    if b.isCompressed then Ok(())
    else
      var expected := b.sampleCount * SampleSize(fmt);
      if |b.data| != expected then Err(FormatViolation(SampleCountMismatch(expected, |b.data|)))
      else Ok(())
  }

  /** `IqBlock::get_uncompressed_data`: the payload `Decompress` would leave, without changing the block. */
  function GetUncompressedData(b: IqBlock): (r: Result<seq<Byte>>)
    ensures r.Ok? <==> Decompress(b).Ok?
    ensures r.Ok? ==> r.value == Decompress(b).value.data
    ensures r.Err? ==> r.error == Decompress(b).error
  {
    if b.isCompressed then
      match Lz4.DecompressSizePrepended(b.data)
      case None => Err(Corrupted(Lz4Failed))
      case Some(d) => Ok(d)
    else Ok(b.data)
  }
}
