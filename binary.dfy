/** The cursor helpers that read and write the six integer fields of a
    header buffer in the byte order selected by the header flags. Each one
    works on the 128-byte buffer in place and hands back the advanced cursor. */
module Binary {
  import opened Bytes

  const HeaderSize: nat := 128

  /** The unsigned value of the w bytes at off, assembled one byte at a time. */
  method ReadUint(buf: array<Byte>, off: nat, w: nat, isLe: bool) returns (v: nat)
    requires off + w <= buf.Length
    ensures v == UintValue(isLe, buf[off..off + w])
  {
    v := 0;
    var i := 0;
    if isLe {
      while i < w
        invariant 0 <= i <= w
        invariant v == LeValue(buf[off + w - i..off + w])
      {
        var window := buf[off + w - i - 1..off + w];
        assert window[1..] == buf[off + w - i..off + w];
        v := buf[off + w - i - 1] + 256 * v;
        i := i + 1;
      }
    } else {
      while i < w
        invariant 0 <= i <= w
        invariant v == BeValue(buf[off..off + i])
      {
        var window := buf[off..off + i + 1];
        assert window[..i] == buf[off..off + i];
        v := v * 256 + buf[off + i];
        i := i + 1;
      }
    }
  }

  /** `read_u32_local`: the four bytes at the cursor, in the selected order. */
  method ReadU32Local(buf: array<Byte>, off: nat, isLe: bool) returns (v: U32, next: nat)
    requires buf.Length == HeaderSize && off + 4 <= HeaderSize
    ensures next == off + 4
    ensures v == UintValue(isLe, buf[off..off + 4])
    ensures isLe ==> v == BeValue(Reverse(buf[off..off + 4]))
  {
    var x := ReadUint(buf, off, 4, isLe);
    UintValueBound(isLe, buf[off..off + 4]);
    Pow256Widths();
    LeIsReversedBe(buf[off..off + 4]);
    v, next := x, off + 4;
  }

  /** `read_u64_local`: the eight bytes at the cursor, in the selected order. */
  method ReadU64Local(buf: array<Byte>, off: nat, isLe: bool) returns (v: U64, next: nat)
    requires buf.Length == HeaderSize && off + 8 <= HeaderSize
    ensures next == off + 8
    ensures v == UintValue(isLe, buf[off..off + 8])
    ensures isLe ==> v == BeValue(Reverse(buf[off..off + 8]))
  {
    var x := ReadUint(buf, off, 8, isLe);
    UintValueBound(isLe, buf[off..off + 8]);
    Pow256Widths();
    LeIsReversedBe(buf[off..off + 8]);
    v, next := x, off + 8;
  }

  /** Stores the w low-order bytes of val at off, peeling one byte off val per step. */
  method WriteUint(buf: array<Byte>, off: nat, w: nat, isLe: bool, val: nat)
    requires off + w <= buf.Length
    modifies buf
    ensures buf[..] == old(buf[..])[..off] + UintBytes(isLe, val, w) + old(buf[..])[off + w..]
  {
    if isLe {
      WriteLe(buf, off, w, val);
    } else {
      WriteBe(buf, off, w, val);
    }
  }

  /** The little-endian store: the lowest byte first, at off. */
  method WriteLe(buf: array<Byte>, off: nat, w: nat, val: nat)
    requires off + w <= buf.Length
    modifies buf
    ensures buf[..] == old(buf[..])[..off] + LeBytes(val, w) + old(buf[..])[off + w..]
  {
    ghost var before := buf[..];
    var x := val;
    var i := 0;
    while i < w
      invariant 0 <= i <= w
      invariant x == Shift(val, i)
      invariant buf[..] == before[..off] + LeBytes(val, i) + before[off + i..]
    {
      LeBytesSnoc(val, i);
      buf[off + i] := x % 256;
      x := x / 256;
      i := i + 1;
      assert x == Shift(val, i) by { ShiftStep(val, i - 1); }
    }
  }

  /** The big-endian store: the lowest byte last, at off + w - 1. */
  method WriteBe(buf: array<Byte>, off: nat, w: nat, val: nat)
    requires off + w <= buf.Length
    modifies buf
    ensures buf[..] == old(buf[..])[..off] + BeBytes(val, w) + old(buf[..])[off + w..]
  {
    ghost var before := buf[..];
    var x := val;
    var i := 0;
    while i < w
      invariant 0 <= i <= w
      invariant x == Shift(val, i)
      invariant buf[..] == before[..off + w - i] + BeBytes(val, i) + before[off + w..]
    {
      BeBytesCons(val, i);
      buf[off + w - i - 1] := x % 256;
      x := x / 256;
      i := i + 1;
      assert x == Shift(val, i) by { ShiftStep(val, i - 1); }
    }
  }

  /** Shifting out one more byte divides by 256. */
  lemma {:induction false} ShiftStep(x: nat, i: nat)
    ensures Shift(x, i + 1) == Shift(x, i) / 256
  {
    if i > 0 {
      ShiftStep(x / 256, i - 1);
    }
  }

  /** `write_u32_local`: stores val at the cursor and advances it by four. */
  method WriteU32Local(buf: array<Byte>, off: nat, isLe: bool, val: U32) returns (next: nat)
    requires buf.Length == HeaderSize && off + 4 <= HeaderSize
    modifies buf
    ensures next == off + 4
    ensures buf[..] == old(buf[..])[..off] + UintBytes(isLe, val, 4) + old(buf[..])[off + 4..]
  {
    WriteUint(buf, off, 4, isLe, val);
    next := off + 4;
  }

  /** `write_u64_local`: stores val at the cursor and advances it by eight. */
  method WriteU64Local(buf: array<Byte>, off: nat, isLe: bool, val: U64) returns (next: nat)
    requires buf.Length == HeaderSize && off + 8 <= HeaderSize
    modifies buf
    ensures next == off + 8
    ensures buf[..] == old(buf[..])[..off] + UintBytes(isLe, val, 8) + old(buf[..])[off + 8..]
  {
    WriteUint(buf, off, 8, isLe, val);
    next := off + 8;
  }

  /** Reading a window back after writing it with the same byte order gives the
      written value, and the bytes outside the window are the old ones. */
  lemma ReadAfterWrite(s: seq<Byte>, off: nat, w: nat, isLe: bool, val: nat)
    requires off + w <= |s| && val < Pow256(w)
    ensures var t := s[..off] + UintBytes(isLe, val, w) + s[off + w..];
      |t| == |s| && UintValue(isLe, t[off..off + w]) == val &&
      t[..off] == s[..off] && t[off + w..] == s[off + w..]
  {
    var t := s[..off] + UintBytes(isLe, val, w) + s[off + w..];
    assert t[off..off + w] == UintBytes(isLe, val, w);
    UintRoundTrip(isLe, val, w);
  }
}
