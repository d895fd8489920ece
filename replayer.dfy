/** Replay over UDP: the 10-byte big-endian packet framing of a block, and the
    pacing decision that keeps a replay on the recording's time line. Clock
    readings are parameters; the playback speed, a float in the program, is
    the function `pace` from a file offset to a real-time offset. */
module Replayer {
  import opened Bytes
  import opened Wrappers
  import Block

  /** The largest UDP payload over IPv4: the 65,535-byte total length of
      section 3.1 of RFC 791, less a 20-byte IP header and the 8-byte UDP
      header of RFC 768. */
  const UdpMaxPayload: nat := 65507
  const UdpTimestampSize: nat := 8
  const UdpSampleCountSize: nat := 2
  const UdpHeaderSize: nat := UdpTimestampSize + UdpSampleCountSize
  /** The largest payload a packet can carry after its header. */
  const MaxData: nat := UdpMaxPayload - UdpHeaderSize
  /** A lag above one millisecond counts as an underrun. */
  const UnderrunThresholdNs: nat := 1_000_000

  /** Why a packet could not be built or read (the program reports a message string). */
  datatype PacketError = DataTooLarge(len: nat, limit: nat) | CountTooLarge(count: nat) | TooShort(len: nat)

  datatype Result<+T> = Ok(value: T) | Err(error: PacketError)

  /** What `UdpPacket::decode` hands back: timestamp, sample count and the I/Q bytes. */
  datatype Packet = Packet(timestampNs: U64, sampleCount: U16, data: seq<Byte>)

  /** `UdpPacket::encode`: the payload limit is checked before the count limit. */
  function Encode(b: Block.IqBlock): (r: Result<seq<Byte>>)
    ensures r.Ok? <==> |b.data| <= MaxData && b.sampleCount < 0x1_0000
    ensures |b.data| > MaxData ==> r == Err(DataTooLarge(|b.data|, MaxData))
    ensures |b.data| <= MaxData && b.sampleCount >= 0x1_0000 ==> r == Err(CountTooLarge(b.sampleCount))
    ensures r.Ok? ==> |r.value| == UdpHeaderSize + |b.data| <= UdpMaxPayload
  {
    if |b.data| > MaxData then Err(DataTooLarge(|b.data|, MaxData))
    else if b.sampleCount > 0xFFFF then Err(CountTooLarge(b.sampleCount))
    else Ok(BeBytes(b.timestampNs, 8) + BeBytes(b.sampleCount, 2) + b.data)
  }

  /** `UdpPacket::decode`: anything from 10 bytes up is a packet. */
  function Decode(buf: seq<Byte>): (r: Result<Packet>)
    ensures r.Err? <==> |buf| < UdpHeaderSize
    ensures r.Err? ==> r.error == TooShort(|buf|)
    ensures r.Ok? ==> r.value.data == buf[UdpHeaderSize..] &&
                      r.value.timestampNs == BeValue(buf[..8]) &&
                      r.value.sampleCount == BeValue(buf[8..10])
  {
    if |buf| < UdpHeaderSize then Err(TooShort(|buf|))
    else Ok(Packet(Uint64At(false, buf, 0), Uint16At(false, buf, 8), buf[UdpHeaderSize..]))
  }

  /** Whatever `Encode` accepts, `Decode` reads back field for field. */
  lemma DecodeEncode(b: Block.IqBlock)
    requires Encode(b).Ok?
    ensures Decode(Encode(b).value) == Ok(Packet(b.timestampNs, b.sampleCount, b.data))
  {
    var e := Encode(b).value;
    assert e[..8] == BeBytes(b.timestampNs, 8);
    assert e[8..10] == BeBytes(b.sampleCount, 2);
    Pow256Widths();
    BeRoundTrip(b.timestampNs, 8);
    BeRoundTrip(b.sampleCount, 2);
  }

  /** Every datagram that fits a UDP payload and is long enough to decode is
      the encoding of the block it decodes to. */
  lemma EncodeDecode(buf: seq<Byte>)
    requires UdpHeaderSize <= |buf| <= UdpMaxPayload
    ensures var p := Decode(buf).value;
      Encode(Block.IqBlock(p.timestampNs, p.sampleCount, p.data, false)) == Ok(buf)
  {
    var p := Decode(buf).value;
    BeBytesOfValue(buf[..8]);
    BeBytesOfValue(buf[8..10]);
    assert buf == buf[..8] + buf[8..10] + buf[UdpHeaderSize..];
  }

  /** The header of a packet is big-endian: timestamp 0x0102030405060708 and
      count 0x0A0B go out as the bytes 01 .. 08 0A 0B. */
  lemma HeaderBigEndian()
    ensures var r := Encode(Block.IqBlock(0x0102030405060708, 0x0A0B, [0, 0, 0, 0], false));
      r.Ok? && r.value[..10] == [0x01, 0x02, 0x03, 0x04, 0x05, 0x06, 0x07, 0x08, 0x0A, 0x0B]
  {
    assert BeBytes(0x0A0B, 2) == [0x0A, 0x0B];
    assert BeBytes(0x0102030405060708, 8) == [0x01, 0x02, 0x03, 0x04, 0x05, 0x06, 0x07, 0x08];
  }

  /** `Instant::elapsed` in nanoseconds, cut to 64 bits; it never goes below zero. */
  function Elapsed(start: nat, now: nat): (r: U64)
    ensures now <= start ==> r == 0
    ensures start <= now < start + TWO64 ==> start + r == now
  {
    if now <= start then 0 else (now - start) % TWO64
  }

  /** How far into the file a timestamp lies, counted from the origin; never below zero. */
  function FileOffset(origin: U64, timestampNs: U64): (r: U64)
    ensures r <= timestampNs
    ensures origin <= timestampNs ==> origin + r == timestampNs
    ensures timestampNs < origin ==> r == 0
  {
    if timestampNs >= origin then timestampNs - origin else 0
  }

  /** What `wait_for` does once it knows how far from the session start the
      block is due (`target`) and how much time has passed (`elapsed`):
      sleep for the difference, or go on at once behind time. `actual` is
      the elapsed time read after a sleep. */
  datatype Decision = Sleep(ns: U64, overshoot: U64) | Behind(lag: U64, underrun: bool)

  function Decide(target: U64, elapsed: U64, actual: U64): (d: Decision)
    ensures d.Sleep? <==> target > elapsed
    ensures d.Sleep? ==> elapsed + d.ns == target && d.ns > 0
    ensures d.Sleep? && actual >= target ==> target + d.overshoot == actual
    ensures d.Sleep? && actual < target ==> d.overshoot == 0
    ensures d.Behind? ==> target + d.lag == elapsed
    ensures d.Behind? ==> (d.underrun <==> d.lag > UnderrunThresholdNs)
  {
    if target > elapsed then
      Sleep(target - elapsed, if actual >= target then actual - target else 0)
    else
      var lag := elapsed - target;
      Behind(lag, lag > UnderrunThresholdNs)
  }

  /** The timing error `wait_for` returns and adds to the metrics. */
  function TimingError(d: Decision): U64
  {
    match d
    case Sleep(_, overshoot) => overshoot
    case Behind(lag, _) => lag
  }

  /** `ReplayMetrics`: lock-free counters of one replay session. */
  class ReplayMetrics {
    var packetsSent: U64
    var samplesSent: U64
    var bytesSent: U64
    var underruns: U64
    var sendErrors: U64
    var timingErrorNsTotal: U64

    constructor ()
      ensures packetsSent == 0 && samplesSent == 0 && bytesSent == 0
      ensures underruns == 0 && sendErrors == 0 && timingErrorNsTotal == 0
    {
      packetsSent, samplesSent, bytesSent := 0, 0, 0;
      underruns, sendErrors, timingErrorNsTotal := 0, 0, 0;
    }
  }

  /** `TimingController`. `sessionStart` is a clock reading in nanoseconds;
      `fileStartNs` the file time bound to it, once the first block is seen. */
  class TimingController {
    const pace: U64 -> U64
    var sessionStart: nat
    var fileStartNs: Option<U64>

    /** `TimingController::new`: the session starts now and no file time is bound yet. */
    constructor (pace: U64 -> U64, nowNs: nat)
      ensures this.pace == pace && sessionStart == nowNs && fileStartNs == None
    {
      this.pace := pace;
      sessionStart := nowNs;
      fileStartNs := None;
    }

    /** `TimingController::reset`: restarts the session clock and forgets the bound file time. */
    method Reset(nowNs: nat)
      modifies this
      ensures sessionStart == nowNs && fileStartNs == None
    {
      sessionStart := nowNs;
      fileStartNs := None;
    }

    /** `TimingController::wait_for`. The first call after `new` or `reset`
        binds the file origin to its timestamp and later calls keep it. The
        clock is read at `nowNs` and, after a sleep, at `afterNs`; `sleptNs`
        is the sleep requested, zero when the block is late. Only the
        underrun counter and the error total change. */
    method WaitFor(timestampNs: U64, nowNs: nat, afterNs: nat, metrics: ReplayMetrics)
      returns (error: U64, sleptNs: U64)
      modifies this, metrics
      ensures sessionStart == old(sessionStart)
      ensures fileStartNs == Some(if old(fileStartNs).Some? then old(fileStartNs).value else timestampNs)
      ensures var d := Decide(pace(FileOffset(fileStartNs.value, timestampNs)),
                              Elapsed(sessionStart, nowNs), Elapsed(sessionStart, afterNs));
        error == TimingError(d) &&
        sleptNs == (if d.Sleep? then d.ns else 0) &&
        metrics.underruns == (if d.Behind? && d.underrun then WrapAdd(old(metrics.underruns), 1)
                              else old(metrics.underruns))
      ensures metrics.timingErrorNsTotal == WrapAdd(old(metrics.timingErrorNsTotal), error)
      ensures metrics.packetsSent == old(metrics.packetsSent) && metrics.samplesSent == old(metrics.samplesSent)
      ensures metrics.bytesSent == old(metrics.bytesSent) && metrics.sendErrors == old(metrics.sendErrors)
    {
      if fileStartNs.None? {
        fileStartNs := Some(timestampNs);
      }
      var fileStart := fileStartNs.value;
      var fileOffsetNs := if timestampNs >= fileStart then timestampNs - fileStart else 0;
      var realOffsetNs := pace(fileOffsetNs);
      var elapsedNs := Elapsed(sessionStart, nowNs);
      if realOffsetNs > elapsedNs {
        sleptNs := realOffsetNs - elapsedNs;
        var actualElapsed := Elapsed(sessionStart, afterNs);
        error := if actualElapsed >= realOffsetNs then actualElapsed - realOffsetNs else 0;
        metrics.timingErrorNsTotal := WrapAdd(metrics.timingErrorNsTotal, error);
      } else {
        sleptNs := 0;
        var lag := elapsedNs - realOffsetNs;
        if lag > UnderrunThresholdNs {
          metrics.underruns := WrapAdd(metrics.underruns, 1);
        }
        metrics.timingErrorNsTotal := WrapAdd(metrics.timingErrorNsTotal, lag);
        error := lag;
      }
    }
  }
}
