/** What the resynchronising reader guarantees: its only errors are read
    failures, its output does not depend on how the stream splits its reads,
    a stream of well-formed blocks comes back block for block, and bytes that
    frame no block are skipped one at a time. */
module ReaderProps {
  import opened Bytes
  import opened GlosTypes
  import opened Wrappers
  import opened Header
  import opened Block
  import opened Reader
  import opened Binary

  /** One pass of the loop hands back an error only when a read failed. */
  lemma Step1ErrorsAreIo(hdr: GlosHeader, st: ReaderState)
    ensures var r := Step1(hdr, st);
      r.Return? && r.out.Some? && r.out.value.Err? ==> r.out.value.error == Io(ReadFailed)
  {
    hide DecodeBlock;
    if |st.leftover| >= BlockOverhead {
      DecodeBlockOutcomes(st.leftover, hdr.compression);
    }
  }

  /** `next_block` reports an error only for a failed read: every decoding
      problem is absorbed by resynchronisation. */
  lemma {:induction false} AdvanceErrorsAreIo(hdr: GlosHeader, st: ReaderState)
    ensures var r := Advance(hdr, st);
      r.0.Some? && r.0.value.Err? ==> r.0.value.error == Io(ReadFailed)
    decreases Fuel(st), |st.leftover|
  {
    hide DecodeBlock;
    Step1ErrorsAreIo(hdr, st);
    match Step1(hdr, st)
    case Return(_, _) =>
    case Continue(next) => AdvanceErrorsAreIo(hdr, next);
  }

  /** Once input has ended, the reader stays ended, never reads again and
      never reports an error. */
  lemma {:induction false} AtEof(hdr: GlosHeader, st: ReaderState)
    requires st.eof && st.source == []
    ensures var r := Advance(hdr, st);
      r.1.eof && r.1.source == [] && (r.0.Some? ==> r.0.value.Ok?)
    decreases |st.leftover|
  {
    hide DecodeBlock;
    if |st.leftover| >= BlockOverhead {
      DecodeBlockOutcomes(st.leftover, hdr.compression);
    }
    match Step1(hdr, st)
    case Return(_, _) =>
    case Continue(next) => AtEof(hdr, next);
  }

  /** Fewer than 20 bytes left at end of input are dropped silently: None, and nothing changes. */
  lemma ShortTailAtEof(hdr: GlosHeader, st: ReaderState)
    requires st.eof && |st.leftover| < BlockOverhead
    ensures Advance(hdr, st) == (None, st)
  {
    hide DecodeBlock;
    assert Step1(hdr, st) == Return(None, st);
  }

  /** The resynchronisation rules of one pass, in terms of what it drops and counts. */
  lemma ResyncRules(hdr: GlosHeader, st: ReaderState)
    requires |st.leftover| >= BlockOverhead
    ensures var d := DecodeBlock(st.leftover, hdr.compression); var r := Step1(hdr, st);
      (d.Err? && d.error.CrcMismatch? ==>
         r.Continue? && r.next.leftover == st.leftover[1..] && r.next.source == st.source &&
         r.next.stats == st.stats.(blocksCorrupted := st.stats.blocksCorrupted + 1)) &&
      (d.Err? && d.error.Corrupted? && st.eof ==>
         r.Continue? && r.next.leftover == st.leftover[1..] && r.next.stats == st.stats) &&
      (d.Err? && d.error.Corrupted? && !st.eof ==>
         r == Refill(st) && r.next.stats == st.stats && st.leftover <= r.next.leftover) &&
      (d.Ok? && (Decompress(d.value.0).Err? ||
                 ValidateSampleCount(Decompress(d.value.0).value, hdr.iqFormat).Err?) ==>
         r.Continue? && r.next.leftover == st.leftover[d.value.1..] && r.next.source == st.source &&
         r.next.stats == st.stats.(blocksCorrupted := st.stats.blocksCorrupted + 1))
  {
    hide DecodeBlock;
    DecodeBlockOutcomes(st.leftover, hdr.compression);
  }

  lemma Step1Decoded(hdr: GlosHeader, st: ReaderState)
    requires |st.leftover| >= BlockOverhead
    ensures Step1(hdr, st) == Dispatch(hdr, st, DecodeBlock(st.leftover, hdr.compression))
  {
    hide DecodeBlock;
  }

  lemma AdvanceStep(hdr: GlosHeader, st: ReaderState)
    ensures Step1(hdr, st).Continue? ==> Advance(hdr, st) == Advance(hdr, Step1(hdr, st).next)
    ensures Step1(hdr, st).Return? ==> Advance(hdr, st) == (Step1(hdr, st).out, Step1(hdr, st).next)
  {
    hide DecodeBlock;
  }

  lemma ReadAllStep(hdr: GlosHeader, st: ReaderState)
    ensures var (out, next) := Advance(hdr, st);
      ReadAll(hdr, st) == if out.None? then ([], next)
                          else ([out.value] + ReadAll(hdr, next).0, ReadAll(hdr, next).1)
  {
    hide DecodeBlock;
  }

  /** Two states whose next call gives the same result read on identically. */
  lemma ReadAllByAdvance(hdr: GlosHeader, s: ReaderState, t: ReaderState)
    requires Advance(hdr, s) == Advance(hdr, t)
    ensures ReadAll(hdr, s) == ReadAll(hdr, t)
  {
    hide DecodeBlock;
    ReadAllStep(hdr, s);
    ReadAllStep(hdr, t);
  }

  // ---------------------------------------------------------------------
  // Independence from how the stream splits its reads

  /** `a` is still fed by a clean script; `b` holds everything `a` has and
      will read, with input already ended. */
  predicate Related(a: ReaderState, b: ReaderState)
  {
    b.eof && b.source == [] && a.stats == b.stats && Clean(a.source) &&
    a.leftover + Flatten(a.source) == b.leftover && (a.eof ==> a.source == [])
  }

  lemma SuffixRelated(a: ReaderState, b: ReaderState, n: nat)
    requires Related(a, b) && n <= |a.leftover|
    ensures a.leftover[n..] + Flatten(a.source) == b.leftover[n..]
  {
    hide DecodeBlock;
    assert (a.leftover + Flatten(a.source))[n..] == a.leftover[n..] + Flatten(a.source);
  }

  lemma ChunkRelated(a: ReaderState, b: ReaderState)
    requires Related(a, b) && !a.eof && a.source != []
    ensures Related(a.(leftover := a.leftover + a.source[0].data, source := a.source[1..]), b)
  {
    hide DecodeBlock;
    var src := a.source;
    assert Flatten(src) == src[0].data + Flatten(src[1..]);
    assert (a.leftover + src[0].data) + Flatten(src[1..]) == a.leftover + (src[0].data + Flatten(src[1..]));
    forall i | 0 <= i < |src[1..]|
      ensures src[1..][i].Chunk? && src[1..][i].data != []
    {
      assert src[1..][i] == src[i + 1];
    }
  }

  /** A related pair acts alike on the same verdict of a complete front frame. */
  lemma DispatchSim(hdr: GlosHeader, a: ReaderState, b: ReaderState, d: Result<(IqBlock, nat)>)
    requires Related(a, b) && |a.leftover| >= BlockOverhead && |b.leftover| >= BlockOverhead
    requires d.Ok? ==> BlockOverhead <= d.value.1 <= |a.leftover|
    requires d.Ok? || d.error.CrcMismatch?
    ensures var sa, sb := Dispatch(hdr, a, d), Dispatch(hdr, b, d);
      sa.Return? == sb.Return? && Related(sa.next, sb.next) && (sa.Return? ==> sa.out == sb.out)
  {
    hide DecodeBlock;
    if d.Ok? {
      SuffixRelated(a, b, d.value.1);
    } else {
      SuffixRelated(a, b, 1);
    }
  }

  /** A related pair takes the same decision in one pass whenever the block at
      the front is already complete in `a`. */
  lemma StepSim(hdr: GlosHeader, a: ReaderState, b: ReaderState)
    requires Related(a, b) && |a.leftover| >= BlockOverhead
    requires var d := DecodeBlock(a.leftover, hdr.compression); d.Ok? || d.error.CrcMismatch?
    ensures var sa, sb := Step1(hdr, a), Step1(hdr, b);
      sa.Return? == sb.Return? && Related(sa.next, sb.next) && (sa.Return? ==> sa.out == sb.out)
  {
    hide DecodeBlock;
    var c := hdr.compression;
    var d := DecodeBlock(a.leftover, c);
    DecodeBlockOutcomes(a.leftover, c);
    DecodeBlockExtend(a.leftover, Flatten(a.source), c);
    Step1Decoded(hdr, a);
    Step1Decoded(hdr, b);
    DispatchSim(hdr, a, b, d);
  }

  /** `next_block` gives the same result from a reader fed by a clean script
      as from one holding all the script's bytes at once, and the two stay related. */
  lemma {:induction false} AdvanceSim(hdr: GlosHeader, a: ReaderState, b: ReaderState)
    requires Related(a, b)
    ensures Advance(hdr, a).0 == Advance(hdr, b).0
    ensures Related(Advance(hdr, a).1, Advance(hdr, b).1)
    decreases Fuel(a), |a.leftover|
  {
    hide DecodeBlock;
    var c := hdr.compression;
    if a.eof {
      assert a == b;
      AtEof(hdr, b);
      return;
    }
    var d := DecodeBlock(a.leftover, c);
    if |a.leftover| >= BlockOverhead && (d.Ok? || d.error.CrcMismatch?) {
      StepSim(hdr, a, b);
      var sa, sb := Step1(hdr, a), Step1(hdr, b);
      if sa.Continue? {
        AdvanceSim(hdr, sa.next, sb.next);
      }
      return;
    }
    if |a.leftover| >= BlockOverhead {
      DecodeBlockOutcomes(a.leftover, c);
    }
    assert Step1(hdr, a) == Refill(a);
    if a.source == [] {
      var ended := a.(eof := true, source := []);
      assert ended == b;
      if a.leftover == [] {
        assert Advance(hdr, b) == (None, b);
      } else {
        AtEof(hdr, b);
      }
    } else {
      assert a.source[0].Chunk? && a.source[0].data != [];
      ChunkRelated(a, b);
      AdvanceSim(hdr, Refill(a).next, b);
    }
  }

  /** Reading to the end gives the same results and final counters for a
      related pair. */
  lemma {:induction false} ReadAllSim(hdr: GlosHeader, a: ReaderState, b: ReaderState)
    requires Related(a, b)
    ensures ReadAll(hdr, a).0 == ReadAll(hdr, b).0
    ensures ReadAll(hdr, a).1.stats == ReadAll(hdr, b).1.stats
    decreases Fuel(a), |a.leftover|
  {
    hide DecodeBlock;
    AdvanceSim(hdr, a, b);
    var (out, next) := Advance(hdr, a);
    if out.Some? {
      ReadAllSim(hdr, next, Advance(hdr, b).1);
    }
  }

  /** `read_all_blocks` gives the same outcome and final counters for a related pair. */
  lemma {:induction false} CollectSim(hdr: GlosHeader, a: ReaderState, b: ReaderState)
    requires Related(a, b)
    ensures CollectBlocks(hdr, a).0 == CollectBlocks(hdr, b).0
    ensures CollectBlocks(hdr, a).1.stats == CollectBlocks(hdr, b).1.stats
    decreases Fuel(a), |a.leftover|
  {
    hide DecodeBlock;
    AdvanceSim(hdr, a, b);
    var (out, next) := Advance(hdr, a);
    if out.Some? && (out.value.Ok? || out.value.error.CrcMismatch?) {
      CollectSim(hdr, next, Advance(hdr, b).1);
    }
  }

  /** A fresh reader over a clean script behaves as one that was handed all the bytes at once. */
  lemma InitialRelated(src: seq<ReadResult>)
    requires Clean(src)
    ensures Related(Initial(src), ReaderState(Flatten(src), true, [], NoStats))
  {
    hide DecodeBlock;
    assert [] + Flatten(src) == Flatten(src);
  }

  /** Two clean scripts delivering the same bytes give the same blocks, in the
      same order, and the same final counters, however their reads are split. */
  lemma ChunkingIndependence(hdr: GlosHeader, s1: seq<ReadResult>, s2: seq<ReadResult>)
    requires Clean(s1) && Clean(s2) && Flatten(s1) == Flatten(s2)
    ensures ReadAll(hdr, Initial(s1)).0 == ReadAll(hdr, Initial(s2)).0
    ensures ReadAll(hdr, Initial(s1)).1.stats == ReadAll(hdr, Initial(s2)).1.stats
    ensures CollectBlocks(hdr, Initial(s1)).0 == CollectBlocks(hdr, Initial(s2)).0
  {
    hide DecodeBlock;
    var b := ReaderState(Flatten(s1), true, [], NoStats);
    InitialRelated(s1);
    InitialRelated(s2);
    ReadAllSim(hdr, Initial(s1), b);
    ReadAllSim(hdr, Initial(s2), b);
    CollectSim(hdr, Initial(s1), b);
    CollectSim(hdr, Initial(s2), b);
  }

  // ---------------------------------------------------------------------
  // Clean streams

  /** Blocks framed back to back. */
  function Frames(bs: seq<IqBlock>): seq<Byte>
  {
    if bs == [] then [] else BlockBytes(bs[0]) + Frames(bs[1..])
  }

  /** The block the reader builds from a stored frame under this header. */
  function AsRead(hdr: GlosHeader, b: IqBlock): IqBlock
  {
    b.(isCompressed := hdr.compression == Lz4)
  }

  /** A stored block fits the size limit, and after decompression (when the
      header says LZ4) its payload holds exactly its sample count. */
  predicate Readable(hdr: GlosHeader, b: IqBlock)
  {
    BlockOverhead + |b.data| <= MaxBlockSize &&
    Decompress(AsRead(hdr, b)).Ok? &&
    ValidateSampleCount(Decompress(AsRead(hdr, b)).value, hdr.iqFormat).Ok?
  }

  predicate AllReadable(hdr: GlosHeader, bs: seq<IqBlock>)
  {
    forall i :: 0 <= i < |bs| ==> Readable(hdr, bs[i])
  }

  /** The blocks a reader hands back for readable stored blocks. */
  function Recovered(hdr: GlosHeader, bs: seq<IqBlock>): (r: seq<IqBlock>)
    requires AllReadable(hdr, bs)
    ensures |r| == |bs|
  {
    if bs == [] then []
    else [Decompress(AsRead(hdr, bs[0])).value] + Recovered(hdr, bs[1..])
  }

  function Oks(bs: seq<IqBlock>): (r: seq<Result<IqBlock>>)
    ensures |r| == |bs|
  {
    if bs == [] then [] else [Ok(bs[0])] + Oks(bs[1..])
  }

  function SumCounts(bs: seq<IqBlock>): nat
  {
    if bs == [] then 0 else bs[0].sampleCount + SumCounts(bs[1..])
  }

  /** The counters after `k` blocks of `bytes` bytes and `samples` samples came back whole. */
  function Credited(s: ReadStats, k: nat, samples: nat, bytes: nat): ReadStats
  {
    s.(blocksOk := s.blocksOk + k, samplesRecovered := s.samplesRecovered + samples,
       bytesProcessed := s.bytesProcessed + bytes)
  }

  lemma AllReadableTail(hdr: GlosHeader, bs: seq<IqBlock>)
    requires bs != [] && AllReadable(hdr, bs)
    ensures Readable(hdr, bs[0]) && AllReadable(hdr, bs[1..])
  {
    hide DecodeBlock;
    forall i | 0 <= i < |bs[1..]|
      ensures Readable(hdr, bs[1..][i])
    {
      assert bs[1..][i] == bs[i + 1];
    }
  }

  /** One pass of the loop over a buffer that starts with a readable frame
      returns that block and credits it. */
  lemma OnFrame(hdr: GlosHeader, st: ReaderState, b: IqBlock, tail: seq<Byte>)
    requires st.leftover == BlockBytes(b) + tail && Readable(hdr, b)
    ensures Step1(hdr, st) ==
      Return(Some(Ok(Decompress(AsRead(hdr, b)).value)),
             st.(leftover := tail, stats := Credited(st.stats, 1, b.sampleCount, |BlockBytes(b)|)))
  {
    hide DecodeBlock;
    var c := hdr.compression;
    var n := |BlockBytes(b)|;
    BlockRoundTrip(b, tail, c);
    var d := DecodeBlock(st.leftover, c);
    assert d == Ok((AsRead(hdr, b), n));
    assert st.leftover[n..] == tail;
    assert Step1(hdr, st) == Dispatch(hdr, st, d);
    assert Dispatch(hdr, st, d) == Accept(hdr, st, AsRead(hdr, b), n);
  }

  /** The first of several framed blocks comes back from one `next_block`. */
  lemma FirstOfFrames(hdr: GlosHeader, bs: seq<IqBlock>, s: ReadStats)
    requires bs != [] && AllReadable(hdr, bs)
    ensures Advance(hdr, ReaderState(Frames(bs), true, [], s)) ==
      (Some(Ok(Decompress(AsRead(hdr, bs[0])).value)),
       ReaderState(Frames(bs[1..]), true, [],
                   Credited(s, 1, bs[0].sampleCount, |BlockBytes(bs[0])|)))
  {
    hide DecodeBlock;
    AllReadableTail(hdr, bs);
    OnFrame(hdr, ReaderState(Frames(bs), true, [], s), bs[0], Frames(bs[1..]));
  }

  /** With input ended, a buffer of readable framed blocks yields each block,
      in order, then None; every block counts as recovered, none as corrupted. */
  lemma {:induction false} FramesAtEof(hdr: GlosHeader, bs: seq<IqBlock>, s: ReadStats)
    requires AllReadable(hdr, bs)
    ensures var r := ReadAll(hdr, ReaderState(Frames(bs), true, [], s));
      r.0 == Oks(Recovered(hdr, bs)) &&
      r.1.stats == Credited(s, |bs|, SumCounts(bs), |Frames(bs)|)
    ensures CollectBlocks(hdr, ReaderState(Frames(bs), true, [], s)).0 == Ok(Recovered(hdr, bs))
    decreases |bs|
  {
    hide DecodeBlock;
    var st := ReaderState(Frames(bs), true, [], s);
    if bs == [] {
      assert Advance(hdr, st) == (None, st);
    } else {
      AllReadableTail(hdr, bs);
      var blk := Decompress(AsRead(hdr, bs[0])).value;
      var rec := Recovered(hdr, bs[1..]);
      assert Recovered(hdr, bs) == [blk] + rec;
      assert ([blk] + rec)[1..] == rec;
      assert Oks(Recovered(hdr, bs)) == [Ok(blk)] + Oks(rec);
      assert |Frames(bs)| == |BlockBytes(bs[0])| + |Frames(bs[1..])|;
      var s' := Credited(s, 1, bs[0].sampleCount, |BlockBytes(bs[0])|);
      var st' := ReaderState(Frames(bs[1..]), true, [], s');
      assert SumCounts(bs) == bs[0].sampleCount + SumCounts(bs[1..]);
      assert Credited(s', |bs| - 1, SumCounts(bs[1..]), |Frames(bs[1..])|) ==
             Credited(s, |bs|, SumCounts(bs), |Frames(bs)|);
      hide Step1, Dispatch, Accept, Refill, Recovered, Oks, Frames, BlockBytes, Decompress, AllReadable,
           SumCounts, Credited;
      FirstOfFrames(hdr, bs, s);
      ReadAllStep(hdr, st);
      assert ReadAll(hdr, st) == ([Ok(blk)] + ReadAll(hdr, st').0, ReadAll(hdr, st').1);
      assert CollectBlocks(hdr, st) ==
        (if CollectBlocks(hdr, st').0.Ok? then Ok([blk] + CollectBlocks(hdr, st').0.value)
         else CollectBlocks(hdr, st').0, CollectBlocks(hdr, st').1);
      hide Advance, ReadAll, CollectBlocks;
      FramesAtEof(hdr, bs[1..], s');
    }
  }

  /** A clean stream of readable blocks, split into reads in any way, comes
      back block for block, then None, with ok = the block count,
      corrupted = 0, and samples recovered = the sum of the counts. */
  lemma CleanStream(hdr: GlosHeader, src: seq<ReadResult>, bs: seq<IqBlock>)
    requires Clean(src) && Flatten(src) == Frames(bs) && AllReadable(hdr, bs)
    ensures var r := ReadAll(hdr, Initial(src));
      r.0 == Oks(Recovered(hdr, bs)) &&
      r.1.stats == ReadStats(|bs|, 0, SumCounts(bs), |Frames(bs)|)
    ensures CollectBlocks(hdr, Initial(src)).0 == Ok(Recovered(hdr, bs))
  {
    hide DecodeBlock, ReadAll, CollectBlocks, Advance, Step1, Dispatch, Accept, Refill, Frames, Flatten,
         Recovered, Oks, Clean, AllReadable;
    var b := ReaderState(Flatten(src), true, [], NoStats);
    InitialRelated(src);
    ReadAllSim(hdr, Initial(src), b);
    CollectSim(hdr, Initial(src), b);
    FramesAtEof(hdr, bs, NoStats);
  }

  // ---------------------------------------------------------------------
  // Skipping bytes that frame no block

  /** No offset inside `g` starts a frame that decodes. */
  predicate NoFalseFrame(g: seq<Byte>, rest: seq<Byte>, comp: Compression)
    decreases |g|
  {
    g == [] || (DecodeBlock(g + rest, comp).Err? && NoFalseFrame(g[1..], rest, comp))
  }

  /** 1 for a checksum failure, 0 otherwise. */
  function Hit(d: Result<(IqBlock, nat)>): nat
  {
    if d.Err? && d.error.CrcMismatch? then 1 else 0
  }

  /** How many offsets inside `g` fail their checksum (the rest are corrupt or incomplete frames). */
  function CrcHits(g: seq<Byte>, rest: seq<Byte>, comp: Compression): nat
    decreases |g|
  {
    if g == [] then 0 else Hit(DecodeBlock(g + rest, comp)) + CrcHits(g[1..], rest, comp)
  }

  /** At end of input a front that decodes to nothing loses one byte, counted
      only when it failed its checksum. */
  lemma EofSkipOne(hdr: GlosHeader, st: ReaderState)
    requires st.eof && |st.leftover| >= BlockOverhead && DecodeBlock(st.leftover, hdr.compression).Err?
    ensures Step1(hdr, st) == Continue(Drop(st, 1, Hit(DecodeBlock(st.leftover, hdr.compression))))
  {
    hide DecodeBlock;
    DecodeBlockOutcomes(st.leftover, hdr.compression);
    Step1Decoded(hdr, st);
  }

  /** Starting from `st`, the loop goes round `n` times without leaving and reaches `t`. */
  predicate ContinuesTo(hdr: GlosHeader, st: ReaderState, t: ReaderState, n: nat)
    decreases n
  {
    if n == 0 then st == t
    else Step1(hdr, st).Continue? && ContinuesTo(hdr, Step1(hdr, st).next, t, n - 1)
  }

  /** Going round the loop without leaving changes nothing that `next_block` returns. */
  lemma {:induction false} ContinuesToAdvance(hdr: GlosHeader, st: ReaderState, t: ReaderState, n: nat)
    requires ContinuesTo(hdr, st, t, n)
    ensures Advance(hdr, st) == Advance(hdr, t)
    decreases n
  {
    hide DecodeBlock;
    if n > 0 {
      AdvanceStep(hdr, st);
      ContinuesToAdvance(hdr, Step1(hdr, st).next, t, n - 1);
    }
  }

  /** At end of input the reader steps over bytes that frame no block one at a
      time, counting those that fail their checksum, and then reads on as if
      they had never been there. */
  lemma {:induction false} SkipGarbage(hdr: GlosHeader, g: seq<Byte>, rest: seq<Byte>, s: ReadStats)
    requires |rest| >= BlockOverhead && NoFalseFrame(g, rest, hdr.compression)
    ensures ContinuesTo(hdr, ReaderState(g + rest, true, [], s),
      ReaderState(rest, true, [], s.(blocksCorrupted := s.blocksCorrupted + CrcHits(g, rest, hdr.compression))), |g|)
    decreases |g|
  {
    hide DecodeBlock, Step1, Dispatch, Accept, Refill;
    if g != [] {
      var st := ReaderState(g + rest, true, [], s);
      var hit := Hit(DecodeBlock(g + rest, hdr.compression));
      EofSkipOne(hdr, st);
      assert (g + rest)[1..] == g[1..] + rest;
      SkipGarbage(hdr, g[1..], rest, s.(blocksCorrupted := s.blocksCorrupted + hit));
    } else {
      assert g + rest == rest;
    }
  }

  /** What `SkipGarbage` means for the blocks the reader returns: the
      skipped bytes leave them unchanged and only add to the corrupted count. */
  lemma SkipGarbageReadAll(hdr: GlosHeader, g: seq<Byte>, rest: seq<Byte>, s: ReadStats)
    requires |rest| >= BlockOverhead && NoFalseFrame(g, rest, hdr.compression)
    ensures ReadAll(hdr, ReaderState(g + rest, true, [], s)) ==
      ReadAll(hdr, ReaderState(rest, true, [], s.(blocksCorrupted := s.blocksCorrupted + CrcHits(g, rest, hdr.compression))))
  {
    hide *;
    var t := ReaderState(rest, true, [], s.(blocksCorrupted := s.blocksCorrupted + CrcHits(g, rest, hdr.compression)));
    SkipGarbage(hdr, g, rest, s);
    ContinuesToAdvance(hdr, ReaderState(g + rest, true, [], s), t, |g|);
    ReadAllByAdvance(hdr, ReaderState(g + rest, true, [], s), t);
  }

  /** The middle of three blocks with a damaged stored checksum: the reader
      returns the outer two, counts at least one corrupted frame, and
      recovers the outer two blocks' samples, provided no offset inside the
      damaged frame happens to frame a valid block. */
  lemma MiddleCrcDamaged(hdr: GlosHeader, b1: IqBlock, b2: IqBlock, b3: IqBlock, i: nat, v: Byte)
    requires Readable(hdr, b1) && Readable(hdr, b3)
    requires BlockOverhead + |b2.data| <= MaxBlockSize
    requires 16 + |b2.data| <= i < BlockOverhead + |b2.data| && v != BlockBytes(b2)[i]
    requires NoFalseFrame(BlockBytes(b2)[i := v], BlockBytes(b3), hdr.compression)
    ensures var r := ReadAll(hdr, ReaderState(BlockBytes(b1) + BlockBytes(b2)[i := v] + BlockBytes(b3), true, [], NoStats));
      r.0 == [Ok(Decompress(AsRead(hdr, b1)).value), Ok(Decompress(AsRead(hdr, b3)).value)] &&
      r.1.stats.blocksOk == 2 && r.1.stats.blocksCorrupted >= 1 &&
      r.1.stats.samplesRecovered == b1.sampleCount + b3.sampleCount
  {
    hide DecodeBlock, Step1, Dispatch, Accept, Refill, Advance;
    var c := hdr.compression;
    var g := BlockBytes(b2)[i := v];
    var f3 := BlockBytes(b3);
    var st := ReaderState(BlockBytes(b1) + g + f3, true, [], NoStats);
    assert BlockBytes(b1) + g + f3 == BlockBytes(b1) + (g + f3);
    OnFrame(hdr, st, b1, g + f3);
    AdvanceStep(hdr, st);
    ReadAllStep(hdr, st);
    var s1 := Credited(NoStats, 1, b1.sampleCount, |BlockBytes(b1)|);
    var st1 := ReaderState(g + f3, true, [], s1);
    BlockStoredCrcFlip(b2, f3, c, i, v);
    assert CrcHits(g, f3, c) >= 1;
    var s2 := s1.(blocksCorrupted := s1.blocksCorrupted + CrcHits(g, f3, c));
    SkipGarbageReadAll(hdr, g, f3, s1);
    assert Frames([b3]) == f3;
    assert AllReadable(hdr, [b3]);
    FramesAtEof(hdr, [b3], s2);
    assert Oks(Recovered(hdr, [b3])) == [Ok(Decompress(AsRead(hdr, b3)).value)];
    assert SumCounts([b3]) == b3.sampleCount;
  }

  // ---------------------------------------------------------------------
  // Opening a stream

  lemma CleanTail(src: seq<ReadResult>)
    requires Clean(src) && src != []
    ensures Clean(src[1..]) && Flatten(src) == src[0].data + Flatten(src[1..])
  {
    hide DecodeBlock;
    forall i | 0 <= i < |src[1..]|
      ensures src[1..][i].Chunk? && src[1..][i].data != []
    {
      assert src[1..][i] == src[i + 1];
    }
  }

  /** A `read_exact` that the first read already covers takes its bytes from
      that read and leaves the remainder of it in front. */
  lemma ReadExactFront(src: seq<ReadResult>, n: nat)
    requires Clean(src) && src != [] && 0 < n <= |src[0].data|
    ensures ReadExact(src, n).Ok? && ReadExact(src, n).value.0 == Flatten(src)[..n] &&
      Clean(ReadExact(src, n).value.1) && Flatten(ReadExact(src, n).value.1) == Flatten(src)[n..]
  {
    hide DecodeBlock;
    CleanTail(src);
    var d := src[0].data;
    if |d| > n {
      var rest := [Chunk(d[n..])] + src[1..];
      assert rest[1..] == src[1..];
      assert Flatten(rest) == d[n..] + Flatten(src[1..]);
      forall i | 0 <= i < |rest|
        ensures rest[i].Chunk? && rest[i].data != []
      {
        if i > 0 {
          assert rest[i] == src[i];
        }
      }
    }
    assert (d + Flatten(src[1..]))[..n] == d[..n];
    assert (d + Flatten(src[1..]))[n..] == d[n..] + Flatten(src[1..]);
  }

  /** `read_exact` through the buffered reader over a clean script: the first n
      bytes of the stream, the rest still to come, or an early end. */
  lemma {:induction false} ReadExactClean(src: seq<ReadResult>, n: nat)
    requires Clean(src)
    ensures |Flatten(src)| < n ==> ReadExact(src, n) == Err(Io(UnexpectedEof))
    ensures |Flatten(src)| >= n ==>
      ReadExact(src, n).Ok? && ReadExact(src, n).value.0 == Flatten(src)[..n] &&
      Clean(ReadExact(src, n).value.1) && Flatten(ReadExact(src, n).value.1) == Flatten(src)[n..]
    decreases |src|
  {
    hide DecodeBlock;
    if n == 0 {
    } else if src == [] {
    } else {
      CleanTail(src);
      var d := src[0].data;
      if |d| >= n {
        ReadExactFront(src, n);
      } else {
        ReadExactClean(src[1..], n - |d|);
        if |Flatten(src)| >= n {
          assert (d + Flatten(src[1..]))[..n] == d + Flatten(src[1..])[..n - |d|];
          assert (d + Flatten(src[1..]))[n..] == Flatten(src[1..])[n - |d|..];
        }
      }
    }
  }

  /** `GlosReader::new` over a clean script takes exactly the first 128 bytes:
      too few bytes is an early end, a header that does not decode is its
      error, and otherwise the reader starts on the bytes after the header. */
  lemma OpenClean(src: seq<ReadResult>)
    requires Clean(src)
    ensures |Flatten(src)| < HeaderSize ==> OpenStream(src) == Err(Io(UnexpectedEof))
    ensures |Flatten(src)| >= HeaderSize && DecodeHeader(Flatten(src)[..HeaderSize]).Err? ==>
      OpenStream(src) == Err(DecodeHeader(Flatten(src)[..HeaderSize]).error)
    ensures |Flatten(src)| >= HeaderSize && DecodeHeader(Flatten(src)[..HeaderSize]).Ok? ==>
      OpenStream(src).Ok? && OpenStream(src).value.0 == DecodeHeader(Flatten(src)[..HeaderSize]).value &&
      var st := OpenStream(src).value.1;
      st == Initial(st.source) && Clean(st.source) && Flatten(st.source) == Flatten(src)[HeaderSize..]
  {
    hide DecodeBlock;
    ReadExactClean(src, HeaderSize);
  }
}
