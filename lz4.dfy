/** A stand-in for the LZ4 block codec the GLOS formats call for compressed
    payloads (`compress_prepend_size` / `decompress_size_prepended`).
    Compression emits the uncompressed length as four little-endian bytes and
    then one LZ4 sequence that carries every byte as a literal, which is a
    valid LZ4 block. Decompression decodes exactly such literal-only blocks and
    reports failure for everything else, so where it succeeds it agrees with
    a full LZ4 decoder. Decompressing a compressed payload gives the payload
    back; unlike a real LZ4 encoder, the output is always longer than the
    input, and the writer's frame-size check sees that length. */
module Lz4 {
  import opened Bytes
  import opened Wrappers

  /** An LZ4 length extension: bytes of 255 while at least 255 remains, then the rest. */
  function LengthBytes(n: nat): (r: seq<Byte>)
    ensures |r| >= 1
    decreases n
  {
    if n < 255 then [n] else [255] + LengthBytes(n - 255)
  }

  /** Reads an LZ4 length extension: its value and the number of bytes it took. */
  function ParseLength(s: seq<Byte>): (r: Option<(nat, nat)>)
    ensures r.Some? ==> 1 <= r.value.1 <= |s|
    decreases |s|
  {
    if s == [] then None
    else if s[0] < 255 then Some((s[0], 1))
    else match ParseLength(s[1..])
      case None => None
      case Some(p) => Some((255 + p.0, p.1 + 1))
  }

  /** One LZ4 sequence made only of literals: the token's high nibble is the
      literal count (15 meaning an extension follows), its low nibble is 0. */
  function LiteralBlock(d: seq<Byte>): (r: seq<Byte>)
    ensures |r| > |d|
  {
    if |d| < 15 then [|d| * 16] + d else [0xF0] + LengthBytes(|d| - 15) + d
  }

  /** `compress_prepend_size`. */
  function CompressPrependSize(d: seq<Byte>): (r: seq<Byte>)
    ensures |r| > 4 + |d|
  {
    LeBytes(|d| % TWO32, 4) + LiteralBlock(d)
  }

  function DecodeLiteralBlock(b: seq<Byte>): Option<seq<Byte>>
  {
    if b == [] then None
    else if b[0] % 16 != 0 then None
    else if b[0] / 16 < 15 then
      if |b| - 1 == b[0] / 16 then Some(b[1..]) else None
    else match ParseLength(b[1..])
      case None => None
      case Some(p) => if |b| - 1 - p.1 == 15 + p.0 then Some(b[1 + p.1..]) else None
  }

  /** `decompress_size_prepended`: fails unless the block decodes to exactly the announced length. */
  function DecompressSizePrepended(c: seq<Byte>): (r: Option<seq<Byte>>)
    ensures r.Some? ==> |c| >= 4 && |r.value| == LeValue(c[..4])
  {
    if |c| < 4 then None
    else match DecodeLiteralBlock(c[4..])
      case None => None
      case Some(d) => if |d| == LeValue(c[..4]) then Some(d) else None
  }

  lemma {:induction false} ParseLengthOfEncoding(n: nat, t: seq<Byte>)
    ensures ParseLength(LengthBytes(n) + t) == Some((n, |LengthBytes(n)|))
    decreases n
  {
    if n >= 255 {
      ParseLengthOfEncoding(n - 255, t);
      assert (LengthBytes(n) + t)[1..] == LengthBytes(n - 255) + t;
    }
  }

  lemma LiteralBlockDecodes(d: seq<Byte>)
    ensures DecodeLiteralBlock(LiteralBlock(d)) == Some(d)
  {
    var b := LiteralBlock(d);
    if |d| < 15 {
      assert b[1..] == d;
    } else {
      var ext := LengthBytes(|d| - 15);
      assert b[1..] == ext + d;
      ParseLengthOfEncoding(|d| - 15, d);
      assert b[1 + |ext|..] == d;
    }
  }

  /** Decompressing what was compressed restores it, for any payload whose
      length fits the 32-bit size prefix. */
  lemma RoundTrip(d: seq<Byte>)
    requires |d| < TWO32
    ensures DecompressSizePrepended(CompressPrependSize(d)) == Some(d)
  {
    assert |d| % TWO32 == |d|;
    var size := LeBytes(|d|, 4);
    var c := size + LiteralBlock(d);
    assert c == CompressPrependSize(d);
    Pow256Widths();
    LeRoundTrip(|d|, 4);
    assert c[..4] == size;
    assert c[4..] == LiteralBlock(d);
    LiteralBlockDecodes(d);
  }
}
