/** The recorder's writer loop: incoming chunks of I/Q data are gathered into
    blocks of a fixed number of samples, each block goes to the stream
    writer, what is left over when the loop ends goes out as one shorter
    block, and the file is finished. What the loop sees at the top of each
    round (the duration limit, the stop flag, a chunk, a timeout, the channel
    closing) is a script of events; the outcome of every block write and of
    the final rewrite are parameters. */
module Pipeline {
  import opened Bytes
  import opened Wrappers
  import opened GlosTypes
  import opened Header
  import opened Block
  import opened ReaderProps
  import opened Writer
  import Crc32
  import Binary
  import Reader

  /** `IqChunk`: what the capture thread sends, `sampleCount` pairs in `data`. */
  datatype IqChunk = IqChunk(timestampNs: U64, sampleCount: U32, data: seq<Byte>)

  /** What one round of the loop finds, in the order it looks. */
  datatype Event = DurationReached | StopRequested | Received(chunk: IqChunk) | RecvTimeout | Disconnected

  /** The parts of `RecorderConfig` the writer loop reads. */
  datatype RecorderConfig = RecorderConfig(
    sdrType: SdrType,
    sampleRateHz: U32,
    centerFreqHz: U64,
    gainBits: U32,
    iqFormat: IqFormat,
    compression: Compression,
    blockSamples: U32)

  /** `RecorderMetrics`: lock-free counters shared with the capture thread. */
  class RecorderMetrics {
    var samplesRecorded: U64
    var blocksWritten: U64
    var droppedSamples: U64
    var writeErrors: U64
    var bytesWritten: U64

    constructor ()
      ensures samplesRecorded == 0 && blocksWritten == 0 && droppedSamples == 0
      ensures writeErrors == 0 && bytesWritten == 0
    {
      samplesRecorded, blocksWritten, droppedSamples := 0, 0, 0;
      writeErrors, bytesWritten := 0, 0;
    }
  }

  /** The header the loop opens its file with. */
  function RecordingHeader(cfg: RecorderConfig, nowSecs: U64): (h: GlosHeader)
    ensures h.version == Version && h.iqFormat == cfg.iqFormat && h.compression == cfg.compression
    ensures h.gainBits == cfg.gainBits && h.totalSamples == 0 && h.timestampEnd == 0
  {
    NewHeader(cfg.sdrType, cfg.sampleRateHz, cfg.centerFreqHz, nowSecs)
      .(gainBits := cfg.gainBits, iqFormat := cfg.iqFormat, compression := cfg.compression)
  }

  /** The chunks the loop takes in: those before the first event that ends it. */
  function Received(events: seq<Event>): seq<IqChunk>
  {
    if events == [] then []
    else match events[0]
      case Received(c) => [c] + Received(events[1..])
      case RecvTimeout => Received(events[1..])
      case _ => []
  }

  /** The number of samples in a run of chunks. */
  function Total(cs: seq<IqChunk>): nat
  {
    if cs == [] then 0 else cs[0].sampleCount + Total(cs[1..])
  }

  /** The bytes of a run of chunks, in arrival order. */
  function Stream(cs: seq<IqChunk>): seq<Byte>
  {
    if cs == [] then [] else cs[0].data + Stream(cs[1..])
  }

  /** The payloads of a run of blocks, in order. */
  function Payloads(bs: seq<IqBlock>): seq<Byte>
  {
    if bs == [] then [] else bs[0].data + Payloads(bs[1..])
  }

  /** The index of the first chunk by whose arrival at least t samples have
      come in altogether (the chunks before it hold fewer than t); |cs| when
      they never do. */
  function Origin(cs: seq<IqChunk>, t: int): (r: nat)
    ensures r <= |cs|
  {
    if t <= 0 || cs == [] then 0 else 1 + Origin(cs[1..], t - cs[0].sampleCount)
  }

  /** The timestamp of block j: the loop remembers the first chunk that comes
      in after a block is cut, and the next block cut takes that chunk's
      timestamp. A block cut while no chunk came in since the previous cut,
      i.e. within the same chunk, gets 0. Block j is cut on the arrival of
      chunk Origin((j+1)*B) - 1, block j - 1 on that of chunk Origin(j*B) - 1. */
  function BlockTs(cs: seq<IqChunk>, b: nat, j: nat): U64
  {
    var o := Origin(cs, j * b);
    if o < Origin(cs, (j + 1) * b) then cs[o].timestampNs else 0
  }

  /** The chunk the program can take in: its bytes are exactly its samples,
      and adding it to a partial block cannot overflow the 32-bit sample
      counter. */
  predicate ChunkFits(cfg: RecorderConfig, c: IqChunk)
  {
    |c.data| == c.sampleCount * SampleSize(cfg.iqFormat) && c.sampleCount + cfg.blockSamples <= TWO32
  }

  /** Block j of the recording is full: blockSamples samples, the timestamp
      rule, an uncompressed payload of the matching size. */
  predicate FullBlock(cfg: RecorderConfig, cs: seq<IqChunk>, j: nat, blk: IqBlock)
  {
    blk.sampleCount == cfg.blockSamples && !blk.isCompressed &&
    |blk.data| == cfg.blockSamples * SampleSize(cfg.iqFormat) &&
    blk.timestampNs == BlockTs(cs, cfg.blockSamples, j)
  }

  /** The blocks of the stored stream whose write went through. */
  function Kept(bs: seq<IqBlock>, oks: seq<bool>): seq<IqBlock>
    requires |bs| == |oks|
  {
    if bs == [] then [] else (if oks[0] then [bs[0]] else []) + Kept(bs[1..], oks[1..])
  }

  function CountTrue(oks: seq<bool>): (n: nat)
    ensures n <= |oks|
  {
    if oks == [] then 0 else (if oks[0] then 1 else 0) + CountTrue(oks[1..])
  }

  /** Whether `write_block` succeeds for a block: its stored frame fits and the write goes through. */
  predicate WriteSucceeds(c: Compression, blk: IqBlock, ioOk: bool)
  {
    BlockOverhead + |StoredForm(c, blk).data| <= MaxBlockSize && ioOk
  }

  // Appending one element at the end, for each of the folds above.

  lemma {:induction false} TotalSnoc(cs: seq<IqChunk>, c: IqChunk)
    ensures Total(cs + [c]) == Total(cs) + c.sampleCount
  {
    if cs == [] {
      assert [c][1..] == [];
    } else {
      assert (cs + [c])[1..] == cs[1..] + [c];
      TotalSnoc(cs[1..], c);
    }
  }

  lemma {:induction false} StreamSnoc(cs: seq<IqChunk>, c: IqChunk)
    ensures Stream(cs + [c]) == Stream(cs) + c.data
  {
    if cs == [] {
      assert [c][1..] == [];
    } else {
      assert (cs + [c])[1..] == cs[1..] + [c];
      StreamSnoc(cs[1..], c);
    }
  }

  lemma {:induction false} PayloadsSnoc(bs: seq<IqBlock>, b: IqBlock)
    ensures Payloads(bs + [b]) == Payloads(bs) + b.data
  {
    if bs == [] {
      assert [b][1..] == [];
    } else {
      assert (bs + [b])[1..] == bs[1..] + [b];
      PayloadsSnoc(bs[1..], b);
    }
  }

  lemma {:induction false} KeptSnoc(bs: seq<IqBlock>, oks: seq<bool>, b: IqBlock, ok: bool)
    requires |bs| == |oks|
    ensures Kept(bs + [b], oks + [ok]) == Kept(bs, oks) + (if ok then [b] else [])
  {
    if bs == [] {
      assert [b][1..] == [] && [ok][1..] == [];
    } else {
      assert (bs + [b])[1..] == bs[1..] + [b];
      assert (oks + [ok])[1..] == oks[1..] + [ok];
      KeptSnoc(bs[1..], oks[1..], b, ok);
    }
  }

  lemma {:induction false} CountTrueSnoc(oks: seq<bool>, ok: bool)
    ensures CountTrue(oks + [ok]) == CountTrue(oks) + (if ok then 1 else 0)
  {
    if oks == [] {
      assert [ok][1..] == [];
    } else {
      assert (oks + [ok])[1..] == oks[1..] + [ok];
      CountTrueSnoc(oks[1..], ok);
    }
  }

  /** A new chunk does not move the origin of a count already reached. */
  lemma {:induction false} OriginExtend(cs: seq<IqChunk>, c: IqChunk, t: int)
    requires t <= Total(cs)
    ensures Origin(cs + [c], t) == Origin(cs, t)
  {
    if t > 0 && cs != [] {
      assert (cs + [c])[1..] == cs[1..] + [c];
      OriginExtend(cs[1..], c, t - cs[0].sampleCount);
    }
  }

  /** A count not yet reached has its origin at the next chunk, whatever it holds. */
  lemma {:induction false} OriginSnocBeyond(cs: seq<IqChunk>, c: IqChunk, t: int)
    requires t > Total(cs)
    ensures Origin(cs + [c], t) == |cs| + 1
  {
    if cs == [] {
      assert [c][1..] == [];
    } else {
      assert (cs + [c])[1..] == cs[1..] + [c];
      OriginSnocBeyond(cs[1..], c, t - cs[0].sampleCount);
    }
  }

  /** A count not reached at all has no origin. */
  lemma {:induction false} OriginBeyond(cs: seq<IqChunk>, t: int)
    requires t > Total(cs)
    ensures Origin(cs, t) == |cs|
  {
    if cs != [] {
      OriginBeyond(cs[1..], t - cs[0].sampleCount);
    }
  }

  /** The timestamp of a block already cut does not change when chunks arrive. */
  lemma BlockTsExtend(cs: seq<IqChunk>, c: IqChunk, b: nat, j: nat)
    requires (j + 1) * b <= Total(cs)
    ensures BlockTs(cs + [c], b, j) == BlockTs(cs, b, j)
  {
    assert j * b <= (j + 1) * b;
    OriginExtend(cs, c, j * b);
    OriginExtend(cs, c, (j + 1) * b);
  }

  /** The accumulator: behind the payloads of the blocks cut so far, `acc`
      holds the rest of the incoming bytes; the samples add up; each block cut
      is full; the remembered timestamp is that of the first chunk after the
      last cut, if one came in. */
  ghost predicate Accumulated(cfg: RecorderConfig, cs: seq<IqChunk>, cut: seq<IqBlock>,
                              acc: seq<Byte>, accSamples: nat, blockTs: Option<U64>)
  {
    var b := cfg.blockSamples;
    var nf := |cut|;
    Payloads(cut) + acc == Stream(cs) &&
    nf * b + accSamples == Total(cs) && SumCounts(cut) == nf * b &&
    |acc| == accSamples * SampleSize(cfg.iqFormat) &&
    (forall j | 0 <= j < nf :: FullBlock(cfg, cs, j, cut[j])) &&
    blockTs == (if Origin(cs, nf * b) < |cs| then Some(cs[Origin(cs, nf * b)].timestampNs) else None)
  }

  /** Every chunk in the script is one the program can take in. */
  predicate ChunksFit(cfg: RecorderConfig, events: seq<Event>)
  {
    forall i | 0 <= i < |events| :: events[i].Received? ==> ChunkFits(cfg, events[i].chunk)
  }

  lemma ChunkAt(cfg: RecorderConfig, events: seq<Event>, e: nat)
    requires ChunksFit(cfg, events) && e < |events| && events[e].Received?
    ensures ChunkFits(cfg, events[e].chunk)
  {
  }

  /** Attempt i went through exactly when its stored frame fits and its write succeeded. */
  predicate Outcomes(c: Compression, writeOk: nat -> bool, tried: seq<IqBlock>, oks: seq<bool>)
  {
    |oks| == |tried| &&
    forall i | 0 <= i < |tried| :: oks[i] == WriteSucceeds(c, tried[i], writeOk(i))
  }

  lemma OutcomesSnoc(c: Compression, writeOk: nat -> bool, tried: seq<IqBlock>, oks: seq<bool>,
                     b: IqBlock, ok: bool)
    requires Outcomes(c, writeOk, tried, oks) && ok == WriteSucceeds(c, b, writeOk(|tried|))
    ensures Outcomes(c, writeOk, tried + [b], oks + [ok])
  {
    forall i | 0 <= i < |tried| + 1
      ensures (oks + [ok])[i] == WriteSucceeds(c, (tried + [b])[i], writeOk(i))
    {
      if i < |tried| {
        assert (oks + [ok])[i] == oks[i] && (tried + [b])[i] == tried[i];
      }
    }
  }

  /** The writer after the write attempts `tried` with outcomes `oks`: every
      attempt is counted, the ones that went through are on the stream. */
  ghost predicate WriterAccounted(cfg: RecorderConfig, w: GlosWriter, h: GlosHeader, writeOk: nat -> bool,
                                  tried: seq<IqBlock>, oks: seq<bool>)
    reads w
  {
    Outcomes(cfg.compression, writeOk, tried, oks) &&
    w.Valid() && !w.finished && w.header == h &&
    w.accepted == Kept(tried, oks) && w.totalSamples == SumCounts(tried) && w.blockCount == |tried|
  }

  /** The bytes one full block adds to `bytes_written`: its payload and the 20 bytes of framing. */
  function FullBlockBytes(cfg: RecorderConfig): nat
  {
    cfg.blockSamples * SampleSize(cfg.iqFormat) + BlockOverhead
  }

  /** The counters after the outcomes `oks`, the first `full` of them for
      full blocks, starting from `m0` (blocks written, write errors, bytes
      written, dropped samples). */
  ghost predicate CountersAccounted(cfg: RecorderConfig, metrics: RecorderMetrics, m0: (U64, U64, U64, U64),
                                    oks: seq<bool>, full: nat)
    reads metrics
  {
    full <= |oks| &&
    metrics.blocksWritten == WrapAdd(m0.0, CountTrue(oks)) &&
    metrics.writeErrors == WrapAdd(m0.1, |oks| - CountTrue(oks)) &&
    metrics.bytesWritten == WrapAdd(m0.2, CountTrue(oks[..full]) * FullBlockBytes(cfg)) &&
    metrics.droppedSamples == m0.3
  }

  /** How one more outcome moves the three write counters. */
  lemma CountersStep(m0: (U64, U64, U64, U64), oks: seq<bool>, ok: bool, full: bool, nfull: nat, per: nat)
    requires nfull <= |oks| && (full ==> nfull == |oks|)
    ensures var oks' := oks + [ok];
      var nfull' := if full then nfull + 1 else nfull;
      WrapAdd(m0.0, CountTrue(oks')) == WrapAdd(WrapAdd(m0.0, CountTrue(oks)), if ok then 1 else 0) &&
      WrapAdd(m0.1, |oks'| - CountTrue(oks')) ==
        WrapAdd(WrapAdd(m0.1, |oks| - CountTrue(oks)), if ok then 0 else 1) &&
      WrapAdd(m0.2, CountTrue(oks'[..nfull']) * per) ==
        WrapAdd(WrapAdd(m0.2, CountTrue(oks[..nfull]) * per), if ok && full then per else 0)
  {
    TalliesStep(m0.0, m0.1, oks, ok);
    BytesStep(m0.2, oks, ok, full, nfull, per);
  }

  lemma TalliesStep(good: U64, bad: U64, oks: seq<bool>, ok: bool)
    ensures var oks' := oks + [ok];
      WrapAdd(good, CountTrue(oks')) == WrapAdd(WrapAdd(good, CountTrue(oks)), if ok then 1 else 0) &&
      WrapAdd(bad, |oks'| - CountTrue(oks')) ==
        WrapAdd(WrapAdd(bad, |oks| - CountTrue(oks)), if ok then 0 else 1)
  {
    CountTrueSnoc(oks, ok);
    var k := CountTrue(oks);
    WrapAddAcc(good, k, if ok then 1 else 0);
    WrapAddAcc(bad, |oks| - k, if ok then 0 else 1);
  }

  lemma BytesStep(base: U64, oks: seq<bool>, ok: bool, full: bool, nfull: nat, per: nat)
    requires nfull <= |oks| && (full ==> nfull == |oks|)
    ensures var oks' := oks + [ok];
      var nfull' := if full then nfull + 1 else nfull;
      WrapAdd(base, CountTrue(oks'[..nfull']) * per) ==
        WrapAdd(WrapAdd(base, CountTrue(oks[..nfull]) * per), if ok && full then per else 0)
  {
    var oks' := oks + [ok];
    var c := CountTrue(oks[..nfull]);
    if full {
      assert oks'[..nfull + 1] == oks[..nfull] + [ok];
      CountTrueSnoc(oks[..nfull], ok);
      MulStep(c, ok, per);
      WrapAddAcc(base, c * per, if ok then per else 0);
    } else {
      assert oks'[..nfull] == oks[..nfull];
      WrapAddAcc(base, c * per, 0);
    }
  }

  lemma MulSucc(k: nat, b: nat)
    ensures (k + 1) * b == k * b + b
  {
  }

  lemma MulStep(c: nat, ok: bool, per: nat)
    ensures (c + (if ok then 1 else 0)) * per == c * per + (if ok then per else 0)
  {
  }

  /** One `write_block` call and the counters it moves; `full` says whether
      the block is a full one, whose bytes are counted. `attempt` numbers the
      call, and `writeOk` gives the outcome of each call's write. */
  method Attempt(cfg: RecorderConfig, w: GlosWriter, metrics: RecorderMetrics, blk: IqBlock, full: bool,
                 ghost h: GlosHeader, ghost m0: (U64, U64, U64, U64), writeOk: nat -> bool, attempt: nat,
                 ghost tried: seq<IqBlock>, ghost oks: seq<bool>, ghost nfull: nat)
    returns (ghost tried': seq<IqBlock>, ghost oks': seq<bool>)
    requires WriterAccounted(cfg, w, h, writeOk, tried, oks) && attempt == |tried|
    requires CountersAccounted(cfg, metrics, m0, oks, nfull) && h.compression == cfg.compression
    requires full ==> nfull == |tried|
    modifies w, metrics
    ensures tried' == tried + [blk] && oks' == oks + [WriteSucceeds(cfg.compression, blk, writeOk(attempt))]
    ensures WriterAccounted(cfg, w, h, writeOk, tried', oks')
    ensures CountersAccounted(cfg, metrics, m0, oks', if full then nfull + 1 else nfull)
    ensures metrics.samplesRecorded == old(metrics.samplesRecorded)
  {
    hide Crc32.Checksum, Frames, StoredAll, HeaderBytes, BlockBytes, Kept, CountTrue, SumCounts, WrapAdd;
    var r := w.WriteBlock(blk, writeOk(attempt));
    var ok := r.Ok?;
    assert ok == WriteSucceeds(cfg.compression, blk, writeOk(attempt));
    tried' := tried + [blk];
    oks' := oks + [ok];
    OutcomesSnoc(cfg.compression, writeOk, tried, oks, blk, ok);
    KeptSnoc(tried, oks, blk, ok);
    Writer.SumCountsSnoc(tried, blk);
    CountersStep(m0, oks, ok, full, nfull, FullBlockBytes(cfg));
    if ok {
      metrics.blocksWritten := WrapAdd(metrics.blocksWritten, 1);
      if full {
        metrics.bytesWritten := WrapAdd(metrics.bytesWritten, FullBlockBytes(cfg));
      }
    } else {
      metrics.writeErrors := WrapAdd(metrics.writeErrors, 1);
    }
  }

  /** A chunk joins the accumulator: its bytes and samples are appended, and
      it becomes the remembered timestamp unless one is held already. The
      blocks cut so far keep their timestamps, and the next full block is not
      yet reached before it. */
  lemma AccumulateChunk(cfg: RecorderConfig, cs: seq<IqChunk>, cut: seq<IqBlock>,
                        acc: seq<Byte>, accSamples: nat, blockTs: Option<U64>, c: IqChunk)
    requires Accumulated(cfg, cs, cut, acc, accSamples, blockTs) && accSamples < cfg.blockSamples
    requires ChunkFits(cfg, c)
    ensures Accumulated(cfg, cs + [c], cut, acc + c.data, accSamples + c.sampleCount,
                        if blockTs.None? then Some(c.timestampNs) else blockTs)
    ensures Total(cs) < (|cut| + 1) * cfg.blockSamples
  {
    hide Payloads, SumCounts, Stream, Total, Origin, BlockTs;
    var b := cfg.blockSamples;
    var ss := SampleSize(cfg.iqFormat);
    var nf := |cut|;
    var cs' := cs + [c];
    StreamSnoc(cs, c);
    TotalSnoc(cs, c);
    assert |acc + c.data| == (accSamples + c.sampleCount) * ss;
    forall j | 0 <= j < nf
      ensures FullBlock(cfg, cs', j, cut[j])
    {
      MulLe(j + 1, nf, b);
      BlockTsExtend(cs, c, b, j);
    }
    OriginExtend(cs, c, nf * b);
    MulSucc(nf, b);
  }

  /** One full block is cut from the front of the accumulator. Beforehand the
      chunks before the latest one held fewer samples than the block ends
      at, so the block's timestamp is the remembered one and none is
      remembered after the cut. */
  lemma CutOne(cfg: RecorderConfig, prev: seq<IqChunk>, c: IqChunk, cut: seq<IqBlock>,
               acc: seq<Byte>, accSamples: nat, blockTs: Option<U64>)
    requires cfg.blockSamples > 0 && accSamples >= cfg.blockSamples
    requires Accumulated(cfg, prev + [c], cut, acc, accSamples, blockTs)
    requires Total(prev) < (|cut| + 1) * cfg.blockSamples
    ensures var b := cfg.blockSamples;
      var n := b * SampleSize(cfg.iqFormat);
      n <= |acc| &&
      Accumulated(cfg, prev + [c],
                  cut + [IqBlock(if blockTs.Some? then blockTs.value else 0, b, acc[..n], false)],
                  acc[n..], accSamples - b, None) &&
      Total(prev) < (|cut| + 2) * b
  {
    hide Payloads, SumCounts;
    var cs := prev + [c];
    var b := cfg.blockSamples;
    var ss := SampleSize(cfg.iqFormat);
    var n := b * ss;
    var nf := |cut|;
    assert n <= |acc| by { assert b * ss <= accSamples * ss; }
    var blk := IqBlock(if blockTs.Some? then blockTs.value else 0, b, acc[..n], false);
    var cut' := cut + [blk];
    PayloadsSnoc(cut, blk);
    Writer.SumCountsSnoc(cut, blk);
    assert acc[..n] + acc[n..] == acc;
    assert |acc[n..]| == (accSamples - b) * ss;
    MulSucc(nf, b);
    OriginSnocBeyond(prev, c, (nf + 1) * b);
    assert blk.timestampNs == BlockTs(cs, b, nf) by {
      var o := Origin(cs, nf * b);
      assert Origin(cs, (nf + 1) * b) == |cs|;
      hide Origin, Total, Stream;
      if blockTs.Some? {
        assert o < |cs| && blk.timestampNs == cs[o].timestampNs;
      } else {
        assert o == |cs|;
      }
    }
    assert FullBlock(cfg, cs, nf, blk);
    forall j | 0 <= j < nf + 1
      ensures FullBlock(cfg, cs, j, cut'[j])
    {
      if j < nf {
        assert cut'[j] == cut[j];
      }
    }
    MulSucc(nf + 1, b);
  }

  /** `x / b` and `x % b` are the quotient and remainder of any division of x by b. */
  lemma DivModOf(x: nat, q: nat, r: nat, b: nat)
    requires 0 < b && r < b && q * b + r == x
    ensures x / b == q && x % b == r
  {
    var d := x / b;
    var m := x % b;
    assert d * b + m == x;
    if d > q {
      MulLe(q + 1, d, b);
    } else if d < q {
      MulLe(d + 1, q, b);
    }
  }

  lemma {:induction false} MulLe(a: nat, c: nat, b: nat)
    requires a <= c
    ensures a * b <= c * b
    decreases c - a
  {
    if a < c {
      MulLe(a + 1, c, b);
      assert (a + 1) * b == a * b + b;
    }
  }

  /** How many full blocks of b samples the chunks cs fill. */
  function FullCount(cs: seq<IqChunk>, b: nat): (n: nat)
    requires b > 0
    ensures n * b <= Total(cs) < (n + 1) * b
  {
    Total(cs) / b
  }

  /** The blocks a recording of the chunks cs consists of: Total(cs) / B full
      blocks, then one block of the Total(cs) % B samples left over, if any,
      with the timestamp rule of `BlockTs`; together their payloads are the
      incoming bytes in order and their counts the incoming samples. */
  ghost predicate Sliced(cfg: RecorderConfig, cs: seq<IqChunk>, bs: seq<IqBlock>)
  {
    var b := cfg.blockSamples;
    b > 0 &&
    var nf := FullCount(cs, b);
    var rem := Total(cs) - nf * b;
    |bs| == nf + (if rem > 0 then 1 else 0) &&
    (forall j | 0 <= j < nf :: FullBlock(cfg, cs, j, bs[j])) &&
    (rem > 0 ==> bs[nf] == IqBlock(BlockTs(cs, b, nf), rem, bs[nf].data, false) &&
                 |bs[nf].data| == rem * SampleSize(cfg.iqFormat)) &&
    Payloads(bs) == Stream(cs) && SumCounts(bs) == Total(cs)
  }

  /** What is left in the accumulator when the loop ends completes the
      recording: nothing, or one last short block. */
  lemma Flushed(cfg: RecorderConfig, cs: seq<IqChunk>, cut: seq<IqBlock>,
                acc: seq<Byte>, accSamples: nat, blockTs: Option<U64>)
    requires cfg.blockSamples > 0 && accSamples < cfg.blockSamples
    requires Accumulated(cfg, cs, cut, acc, accSamples, blockTs)
    ensures accSamples == 0 ==> Sliced(cfg, cs, cut)
    ensures accSamples > 0 ==>
      Sliced(cfg, cs, cut + [IqBlock(if blockTs.Some? then blockTs.value else 0, accSamples, acc, false)])
  {
    hide Payloads, SumCounts;
    var b := cfg.blockSamples;
    var nf := |cut|;
    DivModOf(Total(cs), nf, accSamples, b);
    if accSamples == 0 {
      assert acc == [];
      assert Payloads(cut) + [] == Payloads(cut);
    } else {
      var blk := IqBlock(if blockTs.Some? then blockTs.value else 0, accSamples, acc, false);
      var cut' := cut + [blk];
      PayloadsSnoc(cut, blk);
      Writer.SumCountsSnoc(cut, blk);
      MulSucc(nf, b);
      OriginBeyond(cs, (nf + 1) * b);
      assert cut'[nf] == IqBlock(BlockTs(cs, b, nf), accSamples, acc, false);
      forall j | 0 <= j < nf
        ensures FullBlock(cfg, cs, j, cut'[j])
      {
        assert cut'[j] == cut[j];
      }
    }
  }

  /** Received(events) once the first e events were seen and the next one ends the loop. */
  lemma {:induction false} ReceivedStep(events: seq<Event>, e: nat)
    requires e < |events|
    ensures events[e].Received? ==> Received(events[e..]) == [events[e].chunk] + Received(events[e + 1..])
    ensures events[e].RecvTimeout? ==> Received(events[e..]) == Received(events[e + 1..])
    ensures events[e].DurationReached? || events[e].StopRequested? || events[e].Disconnected? ==>
      Received(events[e..]) == []
  {
    assert events[e..][1..] == events[e + 1..];
  }

  lemma Regroup(cs: seq<IqChunk>, c: IqChunk, rest: seq<IqChunk>)
    ensures cs + ([c] + rest) == (cs + [c]) + rest
  {
  }

  lemma ReceivedEnd(events: seq<Event>)
    ensures Received(events[|events|..]) == []
  {
    assert events[|events|..] == [];
  }

  /** The inner loop of `writer_loop`: while a full block's worth of samples
      is held, cut one from the front of the accumulator and write it, with
      the remembered timestamp (0 if none) which is then forgotten. c is the
      chunk just taken in after the chunks prev. */
  method CutBlocks(cfg: RecorderConfig, w: GlosWriter, metrics: RecorderMetrics, writeOk: nat -> bool,
                   acc: seq<Byte>, accSamples: nat, blockTs: Option<U64>,
                   ghost h: GlosHeader, ghost m0: (U64, U64, U64, U64), ghost prev: seq<IqChunk>, ghost c: IqChunk,
                   ghost tried: seq<IqBlock>, ghost oks: seq<bool>)
    returns (acc': seq<Byte>, accSamples': nat, blockTs': Option<U64>,
             ghost tried': seq<IqBlock>, ghost oks': seq<bool>)
    requires cfg.blockSamples > 0 && h.compression == cfg.compression
    requires Accumulated(cfg, prev + [c], tried, acc, accSamples, blockTs)
    requires Total(prev) < (|tried| + 1) * cfg.blockSamples
    requires WriterAccounted(cfg, w, h, writeOk, tried, oks) && CountersAccounted(cfg, metrics, m0, oks, |tried|)
    modifies w, metrics
    ensures Accumulated(cfg, prev + [c], tried', acc', accSamples', blockTs') && accSamples' < cfg.blockSamples
    ensures WriterAccounted(cfg, w, h, writeOk, tried', oks') && CountersAccounted(cfg, metrics, m0, oks', |tried'|)
    ensures metrics.samplesRecorded == old(metrics.samplesRecorded)
  {
    hide Accumulated, CountersAccounted, Total, Kept, SumCounts, Frames, StoredAll, HeaderBytes, Crc32.Checksum, WrapAdd;
    var b := cfg.blockSamples;
    var sampleSize := SampleSize(cfg.iqFormat);
    acc', accSamples', blockTs', tried', oks' := acc, accSamples, blockTs, tried, oks;
    while accSamples' >= b
      invariant Accumulated(cfg, prev + [c], tried', acc', accSamples', blockTs')
      invariant Total(prev) < (|tried'| + 1) * b
      invariant WriterAccounted(cfg, w, h, writeOk, tried', oks')
      invariant CountersAccounted(cfg, metrics, m0, oks', |tried'|)
      invariant metrics.samplesRecorded == old(metrics.samplesRecorded)
      decreases accSamples'
    {
      CutOne(cfg, prev, c, tried', acc', accSamples', blockTs');
      var nBytes := b * sampleSize;
      var blockData := acc'[..nBytes];
      acc' := acc'[nBytes..];
      var ts := if blockTs'.Some? then blockTs'.value else 0;
      blockTs' := None;
      var block := IqBlock(ts, b, blockData, false);
      tried', oks' := Attempt(cfg, w, metrics, block, true, h, m0, writeOk, w.blockCount, tried', oks', |tried'|);
      accSamples' := accSamples' - b;
    }
  }

  /** The state of the main loop of `writer_loop` after the chunks cs: the
      accumulator holds what the blocks cut so far do not, the writer and the
      counters account for every attempt, and `samples_recorded` has moved
      by the samples of cs from s0. */
  ghost predicate Gathering(cfg: RecorderConfig, w: GlosWriter, metrics: RecorderMetrics, h: GlosHeader,
                            writeOk: nat -> bool, m0: (U64, U64, U64, U64), s0: U64, cs: seq<IqChunk>,
                            tried: seq<IqBlock>, oks: seq<bool>, acc: seq<Byte>, accSamples: nat,
                            blockTs: Option<U64>)
    reads w, metrics
  {
    Accumulated(cfg, cs, tried, acc, accSamples, blockTs) && accSamples < cfg.blockSamples &&
    WriterAccounted(cfg, w, h, writeOk, tried, oks) && CountersAccounted(cfg, metrics, m0, oks, |tried|) &&
    metrics.samplesRecorded == WrapAdd(s0, Total(cs))
  }

  /** One chunk taken in by the main loop of `writer_loop`: its samples go
      onto `samples_recorded`, it becomes the remembered timestamp unless one
      is held, its bytes and samples join the accumulator, and the full
      blocks this completes are cut. cs are the chunks before it, s0 the
      counter before the first of them. */
  method TakeChunk(cfg: RecorderConfig, w: GlosWriter, metrics: RecorderMetrics, writeOk: nat -> bool,
                   chunk: IqChunk, acc: seq<Byte>, accSamples: nat, blockTs: Option<U64>,
                   ghost h: GlosHeader, ghost m0: (U64, U64, U64, U64), ghost s0: U64, ghost cs: seq<IqChunk>,
                   ghost tried: seq<IqBlock>, ghost oks: seq<bool>)
    returns (acc': seq<Byte>, accSamples': nat, blockTs': Option<U64>,
             ghost tried': seq<IqBlock>, ghost oks': seq<bool>)
    requires cfg.blockSamples > 0 && h.compression == cfg.compression && ChunkFits(cfg, chunk)
    requires Gathering(cfg, w, metrics, h, writeOk, m0, s0, cs, tried, oks, acc, accSamples, blockTs)
    modifies w, metrics
    ensures Gathering(cfg, w, metrics, h, writeOk, m0, s0, cs + [chunk], tried', oks', acc', accSamples', blockTs')
  {
    hide Crc32.Checksum, Frames, StoredAll, HeaderBytes, BlockBytes, WrapAdd;
    hide Accumulated, WriterAccounted, Kept, SumCounts, Total;
    metrics.samplesRecorded := WrapAdd(metrics.samplesRecorded, chunk.sampleCount);
    WrapAddAcc(s0, Total(cs), chunk.sampleCount);
    TotalSnoc(cs, chunk);
    AccumulateChunk(cfg, cs, tried, acc, accSamples, blockTs, chunk);
    acc', accSamples', blockTs' := acc, accSamples, blockTs;
    if blockTs'.None? {
      blockTs' := Some(chunk.timestampNs);
    }
    acc' := acc' + chunk.data;
    accSamples' := accSamples' + chunk.sampleCount;
    acc', accSamples', blockTs', tried', oks' :=
      CutBlocks(cfg, w, metrics, writeOk, acc', accSamples', blockTs', h, m0, cs, chunk, tried, oks);
  }

  /** The main loop of `writer_loop`: it stops at the first event that ends
      it (or at the end of the script, the channel closing), skips timeouts,
      and for every chunk adds its samples to `samples_recorded`, takes it
      into the accumulator and cuts the full blocks it completes. */
  method Gather(cfg: RecorderConfig, events: seq<Event>, w: GlosWriter, metrics: RecorderMetrics,
                writeOk: nat -> bool, ghost h: GlosHeader, ghost m0: (U64, U64, U64, U64))
    returns (acc: seq<Byte>, accSamples: nat, blockTs: Option<U64>,
             ghost tried: seq<IqBlock>, ghost oks: seq<bool>)
    requires cfg.blockSamples > 0 && h.compression == cfg.compression
    requires ChunksFit(cfg, events)
    requires WriterAccounted(cfg, w, h, writeOk, [], []) && CountersAccounted(cfg, metrics, m0, [], 0)
    modifies w, metrics
    ensures Gathering(cfg, w, metrics, h, writeOk, m0, old(metrics.samplesRecorded), Received(events),
                      tried, oks, acc, accSamples, blockTs)
  {
    hide Crc32.Checksum, Frames, StoredAll, HeaderBytes, BlockBytes;
    var b := cfg.blockSamples;
    acc, accSamples, blockTs := [], 0, None;
    ghost var cs: seq<IqChunk> := [];
    tried, oks := [], [];
    assert Gathering(cfg, w, metrics, h, writeOk, m0, old(metrics.samplesRecorded), cs,
                     tried, oks, acc, accSamples, blockTs);
    assert events[0..] == events;
    hide *;
    var e := 0;
    while e < |events|
      invariant 0 <= e <= |events|
      invariant Received(events) == cs + Received(events[e..])
      invariant Gathering(cfg, w, metrics, h, writeOk, m0, old(metrics.samplesRecorded), cs,
                          tried, oks, acc, accSamples, blockTs)
      decreases |events| - e
    {
      ReceivedStep(events, e);
      var event := events[e];
      if event.DurationReached? || event.StopRequested? || event.Disconnected? {
        assert cs == Received(events);
        break;
      }
      if event.RecvTimeout? {
        e := e + 1;
        continue;
      }
      var chunk := event.chunk;
      ChunkAt(cfg, events, e);
      acc, accSamples, blockTs, tried, oks :=
        TakeChunk(cfg, w, metrics, writeOk, chunk, acc, accSamples, blockTs, h, m0, old(metrics.samplesRecorded), cs, tried, oks);
      Regroup(cs, chunk, Received(events[e + 1..]));
      cs := cs + [chunk];
      e := e + 1;
    }
    if e == |events| {
      ReceivedEnd(events);
    }
    assert cs == Received(events);
  }

  /** Where `writer_loop` stands before `finish`, after taking in the chunks
      cs: the attempts are their slicing, the writer holds the frames of the
      attempts that went through, and each counter has moved from its
      starting value (m0 and s0) by what the attempts and chunks add. */
  ghost predicate Recorded(cfg: RecorderConfig, cs: seq<IqChunk>, w: GlosWriter, metrics: RecorderMetrics,
                           h: GlosHeader, writeOk: nat -> bool, m0: (U64, U64, U64, U64), s0: U64,
                           tried: seq<IqBlock>, oks: seq<bool>)
    reads w, metrics
  {
    Sliced(cfg, cs, tried) &&
    Outcomes(cfg.compression, writeOk, tried, oks) &&
    w.Valid() && !w.finished && w.header == h &&
    w.accepted == Kept(tried, oks) && w.totalSamples == Total(cs) &&
    w.sink[Binary.HeaderSize..] == Frames(StoredAll(cfg.compression, Kept(tried, oks))) &&
    metrics.blocksWritten == WrapAdd(m0.0, CountTrue(oks)) &&
    metrics.writeErrors == WrapAdd(m0.1, |oks| - CountTrue(oks)) &&
    metrics.bytesWritten == WrapAdd(m0.2, CountTrue(oks[..FullCount(cs, cfg.blockSamples)]) * FullBlockBytes(cfg)) &&
    metrics.droppedSamples == m0.3 &&
    metrics.samplesRecorded == WrapAdd(s0, Total(cs))
  }

  /** `Recorded`, clause by clause. */
  lemma RecordedFacts(cfg: RecorderConfig, cs: seq<IqChunk>, w: GlosWriter, metrics: RecorderMetrics,
                      h: GlosHeader, writeOk: nat -> bool, m0: (U64, U64, U64, U64), s0: U64,
                      tried: seq<IqBlock>, oks: seq<bool>)
    requires Recorded(cfg, cs, w, metrics, h, writeOk, m0, s0, tried, oks)
    ensures Sliced(cfg, cs, tried)
    ensures Outcomes(cfg.compression, writeOk, tried, oks)
    ensures w.Valid() && !w.finished && w.header == h
    ensures w.accepted == Kept(tried, oks) && w.totalSamples == Total(cs)
    ensures w.sink[Binary.HeaderSize..] == Frames(StoredAll(cfg.compression, Kept(tried, oks)))
    ensures metrics.blocksWritten == WrapAdd(m0.0, CountTrue(oks))
    ensures metrics.writeErrors == WrapAdd(m0.1, |oks| - CountTrue(oks))
    ensures metrics.bytesWritten == WrapAdd(m0.2, CountTrue(oks[..FullCount(cs, cfg.blockSamples)]) * FullBlockBytes(cfg))
    ensures metrics.droppedSamples == m0.3
    ensures metrics.samplesRecorded == WrapAdd(s0, Total(cs))
  {
    hide Sliced, Outcomes, GlosWriter.Valid, Kept, Total, Frames, StoredAll, CountTrue, FullCount, WrapAdd,
      FullBlockBytes, Crc32.Checksum;
  }

  /** After the main loop of `writer_loop`: samples left in the accumulator
      go out as one last block, with the remembered timestamp (0 if none);
      the blocks attempted are then the slicing of the chunks received. */
  method FlushRest(cfg: RecorderConfig, w: GlosWriter, metrics: RecorderMetrics, writeOk: nat -> bool,
                   acc: seq<Byte>, accSamples: nat, blockTs: Option<U64>,
                   ghost h: GlosHeader, ghost m0: (U64, U64, U64, U64), ghost s0: U64, ghost cs: seq<IqChunk>,
                   ghost tried: seq<IqBlock>, ghost oks: seq<bool>)
    returns (ghost tried': seq<IqBlock>, ghost oks': seq<bool>)
    requires cfg.blockSamples > 0 && h.compression == cfg.compression
    requires Gathering(cfg, w, metrics, h, writeOk, m0, s0, cs, tried, oks, acc, accSamples, blockTs)
    modifies w, metrics
    ensures Recorded(cfg, cs, w, metrics, h, writeOk, m0, s0, tried', oks')
  {
    hide Crc32.Checksum, Frames, StoredAll, HeaderBytes, BlockBytes, Kept, CountTrue, SumCounts, WrapAdd;
    Flushed(cfg, cs, tried, acc, accSamples, blockTs);
    DivModOf(Total(cs), |tried|, accSamples, cfg.blockSamples);
    tried', oks' := tried, oks;
    if accSamples > 0 {
      var ts := if blockTs.Some? then blockTs.value else 0;
      var block := IqBlock(ts, accSamples, acc, false);
      tried', oks' := Attempt(cfg, w, metrics, block, false, h, m0, writeOk, w.blockCount, tried, oks, |tried|);
    }
  }

  /** `writer_loop` between opening the writer and `finish`: the main loop,
      then the last short block. */
  method Record(cfg: RecorderConfig, events: seq<Event>, w: GlosWriter, writeOk: nat -> bool,
                metrics: RecorderMetrics, ghost h: GlosHeader)
    returns (ghost tried: seq<IqBlock>, ghost oks: seq<bool>)
    requires cfg.blockSamples > 0 && h.compression == cfg.compression
    requires ChunksFit(cfg, events)
    requires w.Valid() && !w.finished && w.header == h
    requires w.accepted == [] && w.totalSamples == 0 && w.blockCount == 0
    modifies w, metrics
    ensures Recorded(cfg, Received(events), w, metrics, h, writeOk,
                     (old(metrics.blocksWritten), old(metrics.writeErrors), old(metrics.bytesWritten), old(metrics.droppedSamples)),
                     old(metrics.samplesRecorded), tried, oks)
  {
    hide Crc32.Checksum, Frames, StoredAll, HeaderBytes, BlockBytes;
    ghost var m0: (U64, U64, U64, U64) :=
      (metrics.blocksWritten, metrics.writeErrors, metrics.bytesWritten, metrics.droppedSamples);
    assert WriterAccounted(cfg, w, h, writeOk, [], []) && CountersAccounted(cfg, metrics, m0, [], 0);
    hide *;
    var acc, accSamples, blockTs;
    acc, accSamples, blockTs, tried, oks := Gather(cfg, events, w, metrics, writeOk, h, m0);
    ghost var s0 := old(metrics.samplesRecorded);
    ghost var cs := Received(events);
    tried, oks := FlushRest(cfg, w, metrics, writeOk, acc, accSamples, blockTs, h, m0, s0, cs, tried, oks);
    assert s0 == old(metrics.samplesRecorded) && cs == Received(events);
    assert m0.0 == old(metrics.blocksWritten) && m0.1 == old(metrics.writeErrors) &&
           m0.2 == old(metrics.bytesWritten) && m0.3 == old(metrics.droppedSamples);
  }

  /** `writer_loop`, from opening the file to `finish`: the header of the
      configuration goes out, the main loop takes in the chunks, the rest of
      the accumulator goes out as one short block, and the writer is
      finished at `endSecs`. The blocks attempted are exactly the slicing of
      the chunks received; each counter moved by its attempts, wrapping at
      2^64; the file holds the header with the total of every attempted
      block, then the frames of the blocks whose write went through. */
  method WriterLoop(cfg: RecorderConfig, events: seq<Event>, nowSecs: U64, writeOk: nat -> bool,
                    endSecs: U64, flushOk: bool, rewriteOk: bool, metrics: RecorderMetrics)
    returns (r: Result<()>, w: GlosWriter, ghost tried: seq<IqBlock>, ghost oks: seq<bool>)
    requires cfg.blockSamples > 0
    requires ChunksFit(cfg, events)
    modifies metrics
    ensures fresh(w)
    ensures Sliced(cfg, Received(events), tried)
    ensures Outcomes(cfg.compression, writeOk, tried, oks)
    ensures metrics.samplesRecorded == WrapAdd(old(metrics.samplesRecorded), Total(Received(events)))
    ensures metrics.blocksWritten == WrapAdd(old(metrics.blocksWritten), CountTrue(oks))
    ensures metrics.writeErrors == WrapAdd(old(metrics.writeErrors), |oks| - CountTrue(oks))
    ensures metrics.bytesWritten ==
      WrapAdd(old(metrics.bytesWritten), CountTrue(oks[..FullCount(Received(events), cfg.blockSamples)]) * FullBlockBytes(cfg))
    ensures metrics.droppedSamples == old(metrics.droppedSamples)
    ensures w.finished && w.accepted == Kept(tried, oks)
    ensures r == (if flushOk && rewriteOk then Ok(()) else Err(Io(WriteFailed)))
    ensures flushOk && rewriteOk ==>
      w.sink == HeaderBytes(FinalHeader(RecordingHeader(cfg, nowSecs), Total(Received(events)), endSecs)) +
                Frames(StoredAll(cfg.compression, Kept(tried, oks)))
  {
    var header := RecordingHeader(cfg, nowSecs);
    w := new GlosWriter(header);
    ghost var m0: (U64, U64, U64, U64) :=
      (metrics.blocksWritten, metrics.writeErrors, metrics.bytesWritten, metrics.droppedSamples);
    ghost var s0 := metrics.samplesRecorded;
    ghost var cs := Received(events);
    assert s0 == old(metrics.samplesRecorded) && m0.0 == old(metrics.blocksWritten) &&
           m0.1 == old(metrics.writeErrors) && m0.2 == old(metrics.bytesWritten) &&
           m0.3 == old(metrics.droppedSamples);
    hide *;
    tried, oks := Record(cfg, events, w, writeOk, metrics, header);
    RecordedFacts(cfg, cs, w, metrics, header, writeOk, m0, s0, tried, oks);
    ghost var counters := (metrics.samplesRecorded, metrics.blocksWritten, metrics.writeErrors,
                           metrics.bytesWritten, metrics.droppedSamples);
    r := w.Finish(endSecs, flushOk, rewriteOk);
    assert counters == (metrics.samplesRecorded, metrics.blocksWritten, metrics.writeErrors,
                        metrics.bytesWritten, metrics.droppedSamples);
  }

  /** With every write through, the stored blocks are the attempted ones. */
  lemma {:induction false} KeptAll(bs: seq<IqBlock>, oks: seq<bool>)
    requires |bs| == |oks| && forall i | 0 <= i < |oks| :: oks[i]
    ensures Kept(bs, oks) == bs
  {
    if bs != [] {
      assert oks[0];
      KeptAll(bs[1..], oks[1..]);
    }
  }

  /** Every block of a slicing is uncompressed and holds exactly its samples. */
  lemma SlicedBlock(cfg: RecorderConfig, cs: seq<IqChunk>, bs: seq<IqBlock>, i: nat)
    requires Sliced(cfg, cs, bs) && i < |bs|
    ensures !bs[i].isCompressed && |bs[i].data| == bs[i].sampleCount * SampleSize(cfg.iqFormat)
    ensures 0 < bs[i].sampleCount <= cfg.blockSamples
    ensures |bs[i].data| <= cfg.blockSamples * SampleSize(cfg.iqFormat)
  {
    if i < FullCount(cs, cfg.blockSamples) {
      assert FullBlock(cfg, cs, i, bs[i]);
    }
    MulLe(bs[i].sampleCount, cfg.blockSamples, SampleSize(cfg.iqFormat));
  }

  /** An uncompressed block whose write went through fits the frame limit, so
      its payload is at most 1 MiB less the frame overhead. */
  lemma StoredFits(b: IqBlock, ioOk: bool)
    requires WriteSucceeds(NoCompression, b, ioOk) && !b.isCompressed
    ensures BlockOverhead + |b.data| <= MaxBlockSize
  {
    assert StoredForm(NoCompression, b) == b;
  }

  /** A recording whose block writes all went through reads back, however
      its bytes arrive, with the final header, as exactly the blocks the
      loop cut, whose payloads are the incoming I/Q bytes in order, and it
      passes the check of its stored total. */
  lemma RecordingReadsBack(cfg: RecorderConfig, cs: seq<IqChunk>, nowSecs: U64, endSecs: U64,
                           writeOk: nat -> bool, tried: seq<IqBlock>, oks: seq<bool>, src: seq<Reader.ReadResult>)
    requires Sliced(cfg, cs, tried) && Outcomes(cfg.compression, writeOk, tried, oks)
    requires forall i | 0 <= i < |oks| :: oks[i]
    requires Total(cs) < TWO64
    requires cfg.compression == Lz4 ==> cfg.blockSamples * SampleSize(cfg.iqFormat) < TWO32
    requires Reader.Clean(src)
    requires Reader.Flatten(src) ==
      HeaderBytes(FinalHeader(RecordingHeader(cfg, nowSecs), Total(cs), endSecs)) +
      Frames(StoredAll(cfg.compression, Kept(tried, oks)))
    ensures Reader.OpenStream(src).Ok?
    ensures var (hdr, st) := Reader.OpenStream(src).value;
      hdr == FinalHeader(RecordingHeader(cfg, nowSecs), Total(cs), endSecs) &&
      Reader.CollectBlocks(hdr, st).0 == Ok(tried) &&
      Reader.ReadAll(hdr, st).0 == Oks(tried) &&
      Reader.ReadAll(hdr, st).1.stats.blocksOk == |tried| &&
      Reader.ReadAll(hdr, st).1.stats.blocksCorrupted == 0 &&
      Reader.ReadAll(hdr, st).1.stats.samplesRecovered == Total(cs) &&
      Reader.ValidateTotals(hdr, Reader.ReadAll(hdr, st).1.stats) == Ok(())
    ensures Payloads(tried) == Stream(cs)
  {
    var h := RecordingHeader(cfg, nowSecs);
    KeptAll(tried, oks);
    forall i | 0 <= i < |tried|
      ensures Writable(h, tried[i])
    {
      SlicedBlock(cfg, cs, tried, i);
      assert oks[i] == WriteSucceeds(cfg.compression, tried[i], writeOk(i));
      if cfg.compression == NoCompression {
        StoredFits(tried[i], writeOk(i));
      }
    }
    assert SumCounts(tried) == Total(cs);
    assert Reader.Flatten(src) == WrittenFile(h, tried, endSecs);
    WriteThenRead(h, tried, endSecs, src);
  }
}
