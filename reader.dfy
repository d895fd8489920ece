/** The resynchronising block reader. The underlying stream is a finite script
    of read results: a chunk of bytes (an empty chunk is end of input) or a
    failed read; running out of script is end of input as well. `NextBlock`
    is the reader's loop as a function of its state; the `GlosReader` class
    runs the same loop in place. */
module Reader {
  import opened Bytes
  import opened GlosTypes
  import opened Wrappers
  import opened Header
  import opened Block
  import opened Binary

  /** `ReadStats`. */
  datatype ReadStats = ReadStats(blocksOk: nat, blocksCorrupted: nat, samplesRecovered: nat, bytesProcessed: nat)

  /** One call of `read` on the underlying stream. */
  datatype ReadResult = Chunk(data: seq<Byte>) | ReadFailure

  /** The reader's mutable state: unparsed bytes, whether input ended, the
      reads still to come, and the counters. */
  datatype ReaderState = ReaderState(leftover: seq<Byte>, eof: bool, source: seq<ReadResult>, stats: ReadStats)

  /** What one pass of the loop body does: leave the loop with a result, or go round again. */
  datatype Step = Return(out: Option<Result<IqBlock>>, next: ReaderState) | Continue(next: ReaderState)

  const NoStats := ReadStats(0, 0, 0, 0)

  /** The state a freshly opened reader starts from. */
  function Initial(source: seq<ReadResult>): ReaderState
  {
    ReaderState([], false, source, NoStats)
  }

  /** Reads still possible, plus one while end of input has not been seen. */
  function Fuel(st: ReaderState): nat
  {
    |st.source| + (if st.eof then 0 else 1)
  }

  /** The termination order of the loop: less fuel, or as much fuel and fewer bytes held. */
  predicate Below(a: ReaderState, b: ReaderState)
  {
    Fuel(a) < Fuel(b) || (Fuel(a) == Fuel(b) && |a.leftover| < |b.leftover|)
  }

  predicate StatsLe(a: ReadStats, b: ReadStats)
  {
    a.blocksOk <= b.blocksOk && a.blocksCorrupted <= b.blocksCorrupted &&
    a.samplesRecovered <= b.samplesRecovered && a.bytesProcessed <= b.bytesProcessed
  }

  /** The counters that only a returned block moves are unchanged. */
  predicate OnlyCorruptedMoved(a: ReadStats, b: ReadStats)
  {
    b.blocksOk == a.blocksOk && b.samplesRecovered == a.samplesRecovered &&
    b.bytesProcessed == a.bytesProcessed && a.blocksCorrupted <= b.blocksCorrupted
  }

  function Drop(st: ReaderState, n: nat, corrupted: nat): (r: ReaderState)
    requires n <= |st.leftover|
  {
    st.(leftover := st.leftover[n..],
        stats := st.stats.(blocksCorrupted := st.stats.blocksCorrupted + corrupted))
  }

  /** The bottom of the loop: stop at end of input, otherwise read once. */
  function Refill(st: ReaderState): (r: Step)
    ensures r.Continue? ==> Below(r.next, st) && r.next.stats == st.stats
    ensures r.Return? ==> r.next.stats == st.stats && (r.out.Some? ==> Below(r.next, st))
    ensures r.Return? && r.out.Some? ==> r.out.value == Err(Io(ReadFailed))
    ensures r.Return? && r.out.None? ==> r.next.eof
    ensures st.eof ==> r == Return(None, st)
    ensures st.leftover <= r.next.leftover
    ensures !st.eof && st.source != [] && st.source[0].Chunk? ==>
      r.next.leftover == st.leftover + st.source[0].data
  {
    if st.eof then Return(None, st)
    else if st.source == [] || st.source[0] == Chunk([]) then
      var ended := st.(eof := true, source := []);
      if st.leftover == [] then Return(None, ended) else Continue(ended)
    else match st.source[0]
      case Chunk(d) => Continue(st.(leftover := st.leftover + d, source := st.source[1..]))
      case ReadFailure => Return(Some(Err(Io(ReadFailed))), st.(source := st.source[1..]))
  }

  /** A block decoded at the front: decompress it and check its sample count. */
  function Accept(hdr: GlosHeader, st: ReaderState, blk: IqBlock, n: nat): (r: Step)
    requires BlockOverhead <= n <= |st.leftover|
    ensures r.Continue? ==>
      (|r.next.leftover| < |st.leftover| && r.next.source == st.source &&
       r.next.eof == st.eof && OnlyCorruptedMoved(st.stats, r.next.stats))
    ensures r.Return? ==>
      (r.out.Some? && r.out.value.Ok? &&
       var consumed := |st.leftover| - |r.next.leftover|;
       |r.next.leftover| < |st.leftover| && r.next.source == st.source && r.next.eof == st.eof &&
       r.next.leftover == st.leftover[consumed..] &&
       r.next.stats == st.stats.(blocksOk := st.stats.blocksOk + 1,
                                 samplesRecovered := st.stats.samplesRecovered + r.out.value.value.sampleCount,
                                 bytesProcessed := st.stats.bytesProcessed + consumed))
    ensures r.Continue? <==>
      Decompress(blk).Err? || ValidateSampleCount(Decompress(blk).value, hdr.iqFormat).Err?
    ensures r.Continue? ==> r.next == Drop(st, n, 1)
    ensures r.Return? ==> r.out == Some(Ok(Decompress(blk).value)) && r.next.leftover == st.leftover[n..]
  {
    match Decompress(blk)
    case Err(_) => Continue(Drop(st, n, 1))
    case Ok(d) =>
      if ValidateSampleCount(d, hdr.iqFormat).Err? then Continue(Drop(st, n, 1))
      else
        var stats := st.stats.(blocksOk := st.stats.blocksOk + 1,
                               samplesRecovered := st.stats.samplesRecovered + d.sampleCount,
                               bytesProcessed := st.stats.bytesProcessed + n);
        Return(Some(Ok(d)), st.(leftover := st.leftover[n..], stats := stats))
  }

  /** What the loop does with the decoder's verdict on the front of the buffer. */
  function Dispatch(hdr: GlosHeader, st: ReaderState, decoded: Result<(IqBlock, nat)>): (r: Step)
    requires |st.leftover| >= BlockOverhead
    requires decoded.Ok? ==> BlockOverhead <= decoded.value.1 <= |st.leftover|
    ensures r.Continue? ==> Below(r.next, st) && OnlyCorruptedMoved(st.stats, r.next.stats)
    ensures r.Return? && r.out.Some? ==> Below(r.next, st)
    ensures r.Return? && r.out.Some? && r.out.value.Ok? ==>
      var consumed := |st.leftover| - |r.next.leftover|;
      |r.next.leftover| < |st.leftover| && r.next.leftover == st.leftover[consumed..] &&
      r.next.stats == st.stats.(blocksOk := st.stats.blocksOk + 1,
                                samplesRecovered := st.stats.samplesRecovered + r.out.value.value.sampleCount,
                                bytesProcessed := st.stats.bytesProcessed + consumed)
    ensures r.Return? && r.out.None? ==> r.next.eof && r.next.stats == st.stats
    ensures decoded.Err? && decoded.error.CrcMismatch? ==> r == Continue(Drop(st, 1, 1))
    ensures decoded.Err? && decoded.error.Corrupted? && st.eof ==> r == Continue(Drop(st, 1, 0))
    ensures decoded.Err? && decoded.error.Corrupted? && !st.eof ==>
      r == Refill(st) && r.next.stats == st.stats && st.leftover <= r.next.leftover
    ensures decoded.Ok? ==> r == Accept(hdr, st, decoded.value.0, decoded.value.1)
  {
    match decoded
    case Ok((blk, n)) => Accept(hdr, st, blk, n)
    case Err(Corrupted(_)) => if st.eof then Continue(Drop(st, 1, 0)) else Refill(st)
    case Err(CrcMismatch(_, _)) => Continue(Drop(st, 1, 1))
    case Err(e) => Return(Some(Err(e)), Drop(st, 1, 1))
  }

  /** One pass of the loop body of `next_block`. */
  function Step1(hdr: GlosHeader, st: ReaderState): (r: Step)
    ensures r.Continue? ==> Below(r.next, st) && OnlyCorruptedMoved(st.stats, r.next.stats)
    ensures r.Return? && r.out.Some? ==> Below(r.next, st)
    ensures r.Return? && r.out.Some? && r.out.value.Ok? ==>
      var consumed := |st.leftover| - |r.next.leftover|;
      |r.next.leftover| < |st.leftover| && r.next.leftover == st.leftover[consumed..] &&
      r.next.stats == st.stats.(blocksOk := st.stats.blocksOk + 1,
                                samplesRecovered := st.stats.samplesRecovered + r.out.value.value.sampleCount,
                                bytesProcessed := st.stats.bytesProcessed + consumed)
    ensures r.Return? && r.out.None? ==> r.next.eof && r.next.stats == st.stats
  {
    if |st.leftover| >= BlockOverhead then
      Dispatch(hdr, st, DecodeBlock(st.leftover, hdr.compression))
    else Refill(st)
  }

  /** `GlosReader::next_block`: the next block, or a read error, or None once
      input is exhausted; and the state after the call. */
  function Advance(hdr: GlosHeader, st: ReaderState): (r: (Option<Result<IqBlock>>, ReaderState))
    ensures StatsLe(st.stats, r.1.stats)
    ensures r.0.Some? ==> Below(r.1, st)
    ensures r.0.None? ==> r.1.eof && OnlyCorruptedMoved(st.stats, r.1.stats)
    ensures r.0.Some? && r.0.value.Ok? ==>
      r.1.stats.blocksOk == st.stats.blocksOk + 1 &&
      r.1.stats.samplesRecovered == st.stats.samplesRecovered + r.0.value.value.sampleCount &&
      r.1.stats.bytesProcessed >= st.stats.bytesProcessed + BlockOverhead
    decreases Fuel(st), |st.leftover|
  {
    match Step1(hdr, st)
    case Return(out, next) => (out, next)
    case Continue(next) => Advance(hdr, next)
  }

  /** Calling `next_block` until it yields None: every result, in order, and the final state. */
  function ReadAll(hdr: GlosHeader, st: ReaderState): (r: (seq<Result<IqBlock>>, ReaderState))
    ensures StatsLe(st.stats, r.1.stats)
    ensures r.1.eof
    decreases Fuel(st), |st.leftover|
  {
    var (out, next) := Advance(hdr, st);
    if out.None? then ([], next)
    else
      var (rest, last) := ReadAll(hdr, next);
      ([out.value] + rest, last)
  }

  /** `read_all_blocks`: the blocks until None; a checksum error is skipped and
      any other error ends the collection. */
  function CollectBlocks(hdr: GlosHeader, st: ReaderState): (r: (Result<seq<IqBlock>>, ReaderState))
    ensures StatsLe(st.stats, r.1.stats)
    ensures r.0.Ok? ==> r.1.eof
    ensures r.0.Err? ==> !r.0.error.CrcMismatch?
    decreases Fuel(st), |st.leftover|
  {
    var (out, next) := Advance(hdr, st);
    match out
    case None => (Ok([]), next)
    case Some(Ok(blk)) =>
      var (rest, last) := CollectBlocks(hdr, next);
      (if rest.Ok? then Ok([blk] + rest.value) else rest, last)
    case Some(Err(CrcMismatch(_, _))) => CollectBlocks(hdr, next)
    case Some(Err(e)) => (Err(e), next)
  }

  /** `GlosReader::validate_totals`: a header total of 0 means unknown and
      always passes; otherwise the recovered samples must match it. */
  function ValidateTotals(hdr: GlosHeader, stats: ReadStats): (r: Result<()>)
    ensures r.Ok? <==> hdr.totalSamples == 0 || stats.samplesRecovered == hdr.totalSamples
    ensures r.Err? ==> r.error == FormatViolation(TotalSamplesMismatch(hdr.totalSamples, stats.samplesRecovered))
  {
    var expected := hdr.totalSamples;
    if expected == 0 then Ok(())
    else if stats.samplesRecovered != expected then
      Err(FormatViolation(TotalSamplesMismatch(expected, stats.samplesRecovered)))
    else Ok(())
  }

  /** The bytes a script of reads delivers, in order. */
  function Flatten(src: seq<ReadResult>): seq<Byte>
  {
    if src == [] then []
    else (if src[0].Chunk? then src[0].data else []) + Flatten(src[1..])
  }

  /** Every read succeeds with at least one byte, until the script runs out. */
  predicate Clean(src: seq<ReadResult>)
  {
    forall i :: 0 <= i < |src| ==> src[i].Chunk? && src[i].data != []
  }

  /** `read_exact` of n bytes through the buffered reader: the bytes and the
      reads still to come, the unread part of a chunk staying in front. */
  function ReadExact(src: seq<ReadResult>, n: nat): (r: Result<(seq<Byte>, seq<ReadResult>)>)
    ensures r.Ok? ==> |r.value.0| == n
    ensures r.Err? ==> r.error.Io?
    decreases |src|
  {
    if n == 0 then Ok(([], src))
    else if src == [] || src[0] == Chunk([]) then Err(Io(UnexpectedEof))
    else if src[0].ReadFailure? then Err(Io(ReadFailed))
    else
      var d := src[0].data;
      if |d| >= n then Ok((d[..n], if |d| == n then src[1..] else [Chunk(d[n..])] + src[1..]))
      else match ReadExact(src[1..], n - |d|)
        case Err(e) => Err(e)
        case Ok((more, rest)) => Ok((d + more, rest))
  }

  /** `GlosReader::new` as a function of the stream: the validated header and the initial state. */
  function OpenStream(src: seq<ReadResult>): (r: Result<(GlosHeader, ReaderState)>)
    ensures (r.Err? && r.error.Io?) <==> ReadExact(src, HeaderSize).Err?
    ensures r.Ok? ==> r.value.0.version == Version &&
                      r.value.1 == Initial(ReadExact(src, HeaderSize).value.1)
  {
    match ReadExact(src, HeaderSize)
    case Err(e) => Err(e)
    case Ok((bytes, rest)) =>
      match DecodeHeader(bytes)
      case Err(e) => Err(e)
      case Ok(h) => Ok((h, Initial(rest)))
  }

  /** `GlosReader`: the open stream, the parsed header and the reader state. */
  class GlosReader {
    const header: GlosHeader
    var leftover: seq<Byte>
    var eof: bool
    var source: seq<ReadResult>
    var stats: ReadStats

    function State(): ReaderState
      reads this
    {
      ReaderState(leftover, eof, source, stats)
    }

    constructor FromParts(h: GlosHeader, rest: seq<ReadResult>)
      ensures header == h && State() == Initial(rest)
    {
      header := h;
      leftover := [];
      eof := false;
      source := rest;
      stats := NoStats;
    }

    /** `GlosReader::new`: reads the 128 header bytes into a buffer and decodes them. */
    static method Open(src: seq<ReadResult>) returns (r: Result<GlosReader>)
      ensures OpenStream(src).Err? ==> r == Err(OpenStream(src).error)
      ensures OpenStream(src).Ok? ==>
        (r.Ok? && fresh(r.value) &&
         r.value.header == OpenStream(src).value.0 && r.value.State() == OpenStream(src).value.1)
    {
      var got := ReadExact(src, HeaderSize);
      if got.Err? {
        return Err(got.error);
      }
      var bytes, rest := got.value.0, got.value.1;
      var buf := new Byte[HeaderSize](i requires 0 <= i < HeaderSize => bytes[i]);
      assert buf[..] == bytes;
      var hdr := DeserializeHeader(buf);
      if hdr.Err? {
        return Err(hdr.error);
      }
      var reader := new GlosReader.FromParts(hdr.value, rest);
      r := Ok(reader);
    }

    /** `GlosReader::next_block`, running the loop in place. */
    method NextBlock() returns (r: Option<Result<IqBlock>>)
      modifies this
      ensures (r, State()) == Advance(header, old(State()))
    {
      while true
        invariant Advance(header, State()) == Advance(header, old(State()))
        decreases Fuel(State()), |leftover|
      {
        var done, out := Pass();
        if done {
          return out;
        }
      }
    }

    /** One pass of the loop body: try to decode at the front, then refill. */
    method Pass() returns (done: bool, out: Option<Result<IqBlock>>)
      modifies this
      ensures Step1(header, old(State())) == (if done then Return(out, State()) else Continue(State()))
    {
      if |leftover| >= BlockOverhead {
        DecodeBlockOutcomes(leftover, header.compression);
        var decoded := DecodeBlock(leftover, header.compression);
        done, out := DispatchPass(decoded);
      } else {
        done, out := RefillPass();
      }
    }

    /** Acting on the decoder's verdict. */
    method DispatchPass(decoded: Result<(IqBlock, nat)>) returns (done: bool, out: Option<Result<IqBlock>>)
      requires |leftover| >= BlockOverhead
      requires decoded.Ok? ==> BlockOverhead <= decoded.value.1 <= |leftover|
      modifies this
      ensures Dispatch(header, old(State()), decoded) ==
        (if done then Return(out, State()) else Continue(State()))
    {
      if decoded.Ok? {
        var blk, n := decoded.value.0, decoded.value.1;
        var plain := Decompress(blk);
        if plain.Err? {
          leftover := leftover[n..];
          stats := stats.(blocksCorrupted := stats.blocksCorrupted + 1);
          return false, None;
        }
        if ValidateSampleCount(plain.value, header.iqFormat).Err? {
          leftover := leftover[n..];
          stats := stats.(blocksCorrupted := stats.blocksCorrupted + 1);
          return false, None;
        }
        stats := stats.(blocksOk := stats.blocksOk + 1,
                        samplesRecovered := stats.samplesRecovered + plain.value.sampleCount,
                        bytesProcessed := stats.bytesProcessed + n);
        leftover := leftover[n..];
        return true, Some(Ok(plain.value));
      } else if decoded.error.Corrupted? {
        if eof {
          leftover := leftover[1..];
          return false, None;
        }
        done, out := RefillPass();
      } else if decoded.error.CrcMismatch? {
        stats := stats.(blocksCorrupted := stats.blocksCorrupted + 1);
        leftover := leftover[1..];
        return false, None;
      } else {
        stats := stats.(blocksCorrupted := stats.blocksCorrupted + 1);
        leftover := leftover[1..];
        return true, Some(Err(decoded.error));
      }
    }

    /** The bottom of the loop body: stop at end of input, otherwise read once. */
    method RefillPass() returns (done: bool, out: Option<Result<IqBlock>>)
      modifies this
      ensures Refill(old(State())) == (if done then Return(out, State()) else Continue(State()))
    {
      if eof {
        return true, None;
      }
      if source == [] || source[0] == Chunk([]) {
        eof := true;
        source := [];
        return leftover == [], None;
      }
      if source[0].Chunk? {
        leftover := leftover + source[0].data;
        source := source[1..];
        return false, None;
      }
      source := source[1..];
      return true, Some(Err(Io(ReadFailed)));
    }

    /** `read_all_blocks` over this reader. */
    method ReadAllBlocks() returns (r: Result<seq<IqBlock>>)
      modifies this
      ensures (r, State()) == CollectBlocks(header, old(State()))
    {
      var blocks: seq<IqBlock> := [];
      PrependNil(CollectBlocks(header, State()));
      while true
        invariant CollectBlocks(header, old(State())) == Prepend(blocks, CollectBlocks(header, State()))
        decreases Fuel(State()), |leftover|
      {
        ghost var before := State();
        var out := NextBlock();
        if out.None? {
          assert blocks + [] == blocks;
          return Ok(blocks);
        }
        match out.value
        case Ok(blk) =>
          PrependStep(blocks, blk, CollectBlocks(header, State()));
          blocks := blocks + [blk];
        case Err(e) =>
          if !e.CrcMismatch? {
            return Err(e);
          }
      }
    }
  }

  lemma PrependStep(blocks: seq<IqBlock>, blk: IqBlock, r: (Result<seq<IqBlock>>, ReaderState))
    ensures Prepend(blocks, (if r.0.Ok? then Ok([blk] + r.0.value) else r.0, r.1)) == Prepend(blocks + [blk], r)
  {
    if r.0.Ok? {
      assert blocks + ([blk] + r.0.value) == (blocks + [blk]) + r.0.value;
    }
  }

  lemma PrependNil(r: (Result<seq<IqBlock>>, ReaderState))
    ensures Prepend([], r) == r
  {
    if r.0.Ok? {
      assert [] + r.0.value == r.0.value;
    }
  }

  /** The collection with some blocks already gathered in front. */
  function Prepend(blocks: seq<IqBlock>, r: (Result<seq<IqBlock>>, ReaderState)): (Result<seq<IqBlock>>, ReaderState)
  {
    (if r.0.Ok? then Ok(blocks + r.0.value) else r.0, r.1)
  }
}
