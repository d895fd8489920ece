/** The streaming writer: the header first, then one frame per block, and on
    `finish` the header rewritten in place with the final totals. The output
    stream is the byte sequence `sink`; whether each write to it succeeds is
    a parameter. */
module Writer {
  import opened Bytes
  import opened GlosTypes
  import opened Header
  import opened Block
  import opened Binary
  import opened Reader
  import opened ReaderProps
  import Crc32

  /** The block `write_block` frames: compressed first when the file says LZ4. */
  function StoredForm(c: Compression, b: IqBlock): (r: IqBlock)
    ensures c == Lz4 ==> r.isCompressed
    ensures c != Lz4 || b.isCompressed ==> r == b
    ensures r.sampleCount == b.sampleCount && r.timestampNs == b.timestampNs
  {
    if c == Lz4 && !b.isCompressed then Compress(b) else b
  }

  function StoredAll(c: Compression, bs: seq<IqBlock>): (r: seq<IqBlock>)
    ensures |r| == |bs|
  {
    if bs == [] then [] else [StoredForm(c, bs[0])] + StoredAll(c, bs[1..])
  }

  /** The header `finish` writes back: the running total, cut to 64 bits, and the end time. */
  function FinalHeader(h: GlosHeader, total: nat, nowSecs: U64): (r: GlosHeader)
    ensures r.totalSamples == total % TWO64 && r.timestampEnd == nowSecs
    ensures r.(totalSamples := h.totalSamples, timestampEnd := h.timestampEnd) == h
  {
    h.(totalSamples := total % TWO64, timestampEnd := nowSecs)
  }

  /** The whole file after the blocks bs were written and the writer finished at nowSecs. */
  function WrittenFile(h: GlosHeader, bs: seq<IqBlock>, nowSecs: U64): (r: seq<Byte>)
    ensures |r| == HeaderSize + |Frames(StoredAll(h.compression, bs))|
  {
    HeaderBytes(FinalHeader(h, SumCounts(bs), nowSecs)) + Frames(StoredAll(h.compression, bs))
  }

  lemma {:induction false} FramesSnoc(bs: seq<IqBlock>, b: IqBlock)
    ensures Frames(bs + [b]) == Frames(bs) + BlockBytes(b)
  {
    if bs == [] {
      assert [b][1..] == [];
    } else {
      assert (bs + [b])[1..] == bs[1..] + [b];
      FramesSnoc(bs[1..], b);
    }
  }

  lemma {:induction false} StoredAllSnoc(c: Compression, bs: seq<IqBlock>, b: IqBlock)
    ensures StoredAll(c, bs + [b]) == StoredAll(c, bs) + [StoredForm(c, b)]
  {
    if bs == [] {
      assert [b][1..] == [];
    } else {
      assert (bs + [b])[1..] == bs[1..] + [b];
      StoredAllSnoc(c, bs[1..], b);
    }
  }

  lemma {:induction false} SumCountsSnoc(bs: seq<IqBlock>, b: IqBlock)
    ensures SumCounts(bs + [b]) == SumCounts(bs) + b.sampleCount
  {
    if bs == [] {
      assert [b][1..] == [];
    } else {
      assert (bs + [b])[1..] == bs[1..] + [b];
      SumCountsSnoc(bs[1..], b);
    }
  }

  /** `GlosWriter`. `accepted` are the blocks whose frames reached the stream,
      as the caller passed them; `finished` stands for the writer having been
      consumed by `finish`. */
  class GlosWriter {
    var header: GlosHeader
    var totalSamples: nat
    var blockCount: nat
    var sink: seq<Byte>
    var finished: bool
    ghost var accepted: seq<IqBlock>

    /** Behind the header the stream holds exactly the frames of the accepted
        blocks in their stored form; until `finish` the header is the one given. */
    ghost predicate Valid()
      reads this
    {
      |sink| >= HeaderSize &&
      sink[HeaderSize..] == Frames(StoredAll(header.compression, accepted)) &&
      (!finished ==> sink[..HeaderSize] == HeaderBytes(header))
    }

    /** `GlosWriter::new`: the serialized header goes out first, with both counters at zero. */
    constructor (h: GlosHeader)
      ensures Valid() && !finished
      ensures header == h && totalSamples == 0 && blockCount == 0 && accepted == []
      ensures sink == HeaderBytes(h)
    {
      header := h;
      totalSamples := 0;
      blockCount := 0;
      sink := HeaderBytes(h);
      finished := false;
      accepted := [];
      new;
      assert sink[HeaderSize..] == [];
    }

    /** `GlosWriter::write_block`: the counters advance before the frame is
        built, so they also count a block that is then refused as too large
        or whose write fails. */
    method WriteBlock(block: IqBlock, writeOk: bool) returns (r: Result<()>)
      requires Valid() && !finished
      modifies this
      ensures Valid() && !finished && header == old(header)
      ensures totalSamples == old(totalSamples) + block.sampleCount
      ensures blockCount == old(blockCount) + 1
      ensures var s := StoredForm(header.compression, block);
        var size := BlockOverhead + |s.data|;
        (size > MaxBlockSize ==>
           r == Err(InvalidBlockSize(size)) && sink == old(sink) && accepted == old(accepted)) &&
        (size <= MaxBlockSize && !writeOk ==>
           r == Err(Io(WriteFailed)) && sink == old(sink) && accepted == old(accepted)) &&
        (size <= MaxBlockSize && writeOk ==>
           r == Ok(()) && sink == old(sink) + BlockBytes(s) && accepted == old(accepted) + [block])
      ensures r.Ok? && old(totalSamples) == SumCounts(old(accepted)) ==> totalSamples == SumCounts(accepted)
    {
      hide Crc32.Checksum, Frames, StoredAll, HeaderBytes, BlockBytes;
      var b := block;
      if header.compression == Lz4 && !b.isCompressed {
        b := Compress(b);
      }
      totalSamples := totalSamples + b.sampleCount;
      blockCount := blockCount + 1;
      var bytes := SerializeBlock(b);
      if bytes.Err? {
        return Err(bytes.error);
      }
      if !writeOk {
        return Err(Io(WriteFailed));
      }
      StoredAllSnoc(header.compression, accepted, block);
      SumCountsSnoc(accepted, block);
      FramesSnoc(StoredAll(header.compression, accepted), b);
      assert (sink + bytes.value)[..HeaderSize] == sink[..HeaderSize];
      assert (sink + bytes.value)[HeaderSize..] == sink[HeaderSize..] + bytes.value;
      sink := sink + bytes.value;
      accepted := accepted + [block];
      r := Ok(());
    }

    /** `GlosWriter::finish`: after the buffered bytes are flushed, the header
        takes the running total and the clock reading and overwrites the first
        128 bytes; the frames behind it are untouched. `flushOk` is the
        outcome of the first flush, `rewriteOk` that of seeking back and
        rewriting. */
    method Finish(nowSecs: U64, flushOk: bool, rewriteOk: bool) returns (r: Result<()>)
      requires Valid() && !finished
      modifies this
      ensures Valid() && finished && accepted == old(accepted)
      ensures totalSamples == old(totalSamples) && blockCount == old(blockCount)
      ensures !flushOk ==> r == Err(Io(WriteFailed)) && header == old(header) && sink == old(sink)
      ensures flushOk ==> header == FinalHeader(old(header), old(totalSamples), nowSecs)
      ensures flushOk && !rewriteOk ==> r == Err(Io(WriteFailed)) && sink == old(sink)
      ensures flushOk && rewriteOk ==>
        r == Ok(()) && sink == HeaderBytes(header) + old(sink)[HeaderSize..]
      ensures flushOk && rewriteOk && old(totalSamples) == SumCounts(accepted) ==>
        sink == WrittenFile(old(header), accepted, nowSecs)
    {
      hide Crc32.Checksum, Frames, StoredAll, HeaderBytes;
      finished := true;
      if !flushOk {
        return Err(Io(WriteFailed));
      }
      header := header.(totalSamples := totalSamples % TWO64, timestampEnd := nowSecs);
      if !rewriteOk {
        return Err(Io(WriteFailed));
      }
      var bytes := SerializeHeader(header);
      var body := sink[HeaderSize..];
      sink := bytes.value[..] + body;
      assert sink[HeaderSize..] == body;
      r := Ok(());
    }
  }

  /** A block the writer can store and the reader give back unchanged: an
      uncompressed payload of exactly its sample count, whose stored frame
      fits the size limit. */
  predicate Writable(h: GlosHeader, b: IqBlock)
  {
    !b.isCompressed && |b.data| < TWO32 &&
    |b.data| == b.sampleCount * SampleSize(h.iqFormat) &&
    BlockOverhead + |StoredForm(h.compression, b).data| <= MaxBlockSize
  }

  /** The reader's view of a stored block is the block as written. */
  lemma StoredReadable(h: GlosHeader, b: IqBlock)
    requires Writable(h, b)
    ensures Readable(h, StoredForm(h.compression, b))
    ensures Decompress(AsRead(h, StoredForm(h.compression, b))) == Ok(b)
  {
    if h.compression == Lz4 {
      DecompressCompress(b);
    }
  }

  lemma {:induction false} StoredAllReadable(h: GlosHeader, bs: seq<IqBlock>)
    requires forall i :: 0 <= i < |bs| ==> Writable(h, bs[i])
    ensures AllReadable(h, StoredAll(h.compression, bs))
    ensures Recovered(h, StoredAll(h.compression, bs)) == bs
    ensures SumCounts(StoredAll(h.compression, bs)) == SumCounts(bs)
  {
    if bs != [] {
      var s := StoredAll(h.compression, bs);
      StoredReadable(h, bs[0]);
      StoredAllReadable(h, bs[1..]);
      assert s[1..] == StoredAll(h.compression, bs[1..]);
      forall i | 0 <= i < |s|
        ensures Readable(h, s[i])
      {
        if i > 0 {
          assert s[i] == s[1..][i - 1];
        }
      }
    }
  }

  /** Writer and reader agree: a file written from writable blocks, however
      its bytes are split into reads, opens with the final header, gives back
      every block as it was passed in, counts nothing as corrupted, and passes
      the check of its stored total. */
  lemma WriteThenRead(h: GlosHeader, bs: seq<IqBlock>, nowSecs: U64, src: seq<ReadResult>)
    requires h.version == Version
    requires forall i :: 0 <= i < |bs| ==> Writable(h, bs[i])
    requires SumCounts(bs) < TWO64
    requires Clean(src) && Flatten(src) == WrittenFile(h, bs, nowSecs)
    ensures OpenStream(src).Ok?
    ensures var (hdr, st) := OpenStream(src).value;
      var r := ReadAll(hdr, st);
      hdr == FinalHeader(h, SumCounts(bs), nowSecs) &&
      r.0 == Oks(bs) &&
      r.1.stats == ReadStats(|bs|, 0, SumCounts(bs), |WrittenFile(h, bs, nowSecs)| - HeaderSize) &&
      ValidateTotals(hdr, r.1.stats) == Ok(()) &&
      CollectBlocks(hdr, st).0 == Ok(bs)
  {
    hide Crc32.Checksum, DecodeBlock, DecodeHeader, ReadAll, CollectBlocks, OpenStream, Frames;
    var fin := FinalHeader(h, SumCounts(bs), nowSecs);
    assert fin.totalSamples == SumCounts(bs);
    var body := Frames(StoredAll(h.compression, bs));
    var file := WrittenFile(h, bs, nowSecs);
    assert file[..HeaderSize] == HeaderBytes(fin);
    assert file[HeaderSize..] == body;
    HeaderRoundTrip(fin);
    OpenClean(src);
    var (hdr, st) := OpenStream(src).value;
    StoredAllReadable(fin, bs);
    assert StoredAll(fin.compression, bs) == StoredAll(h.compression, bs);
    CleanStream(fin, st.source, StoredAll(h.compression, bs));
  }
}
