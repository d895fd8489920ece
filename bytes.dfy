/** Bytes and fixed-width unsigned integers, and their big- and little-endian
    byte encodings. Every multi-byte field of the GLOS formats is built from
    these helpers. */
module Bytes {

  type Byte = x: int | 0 <= x < 0x100
  type U16 = x: int | 0 <= x < 0x1_0000
  type U32 = x: int | 0 <= x < 0x1_0000_0000
  type U64 = x: int | 0 <= x < 0x1_0000_0000_0000_0000

  const TWO32: int := 0x1_0000_0000
  const TWO64: int := 0x1_0000_0000_0000_0000

  /** 256 to the power n: the number of values that fit in n bytes. */
  function Pow256(n: nat): (r: nat)
    ensures r >= 1
  {
    if n == 0 then 1 else 256 * Pow256(n - 1)
  }

  lemma Pow256Widths()
    ensures Pow256(2) == 0x1_0000
    ensures Pow256(4) == TWO32
    ensures Pow256(8) == TWO64
  {
    assert Pow256(1) == 256;
    assert Pow256(2) == 0x1_0000;
    assert Pow256(3) == 0x100_0000;
    assert Pow256(4) == TWO32;
    assert Pow256(5) == 0x100_0000_0000;
    assert Pow256(6) == 0x1_0000_0000_0000;
    assert Pow256(7) == 0x100_0000_0000_0000;
  }

  /** n zero bytes. */
  function Zeros(n: nat): (r: seq<Byte>)
    ensures |r| == n
    ensures forall i :: 0 <= i < n ==> r[i] == 0
  {
    seq(n, _ => 0)
  }

  /** The n low-order bytes of x, most significant first (`to_be_bytes`). */
  function BeBytes(x: nat, n: nat): (r: seq<Byte>)
    ensures |r| == n
  {
    if n == 0 then [] else BeBytes(x / 256, n - 1) + [x % 256]
  }

  /** The n low-order bytes of x, least significant first (`to_le_bytes`). */
  function LeBytes(x: nat, n: nat): (r: seq<Byte>)
    ensures |r| == n
  {
    if n == 0 then [] else [x % 256] + LeBytes(x / 256, n - 1)
  }

  /** x with its i low-order bytes shifted out. */
  function Shift(x: nat, i: nat): nat
  {
    if i == 0 then x else Shift(x / 256, i - 1)
  }

  /** The value of a byte string read most significant byte first (`from_be_bytes`). */
  function BeValue(s: seq<Byte>): nat
  {
    if s == [] then 0 else BeValue(s[..|s| - 1]) * 256 + s[|s| - 1]
  }

  /** The value of a byte string read least significant byte first (`from_le_bytes`). */
  function LeValue(s: seq<Byte>): nat
  {
    if s == [] then 0 else s[0] + 256 * LeValue(s[1..])
  }

  function Reverse<T>(s: seq<T>): (r: seq<T>)
    ensures |r| == |s|
  {
    if s == [] then [] else Reverse(s[1..]) + [s[0]]
  }

  /** The byte order selected by bit 0 of a GLOS header's flags. */
  function UintBytes(isLe: bool, x: nat, n: nat): (r: seq<Byte>)
    ensures |r| == n
  {
    if isLe then LeBytes(x, n) else BeBytes(x, n)
  }

  function UintValue(isLe: bool, s: seq<Byte>): nat
  {
    if isLe then LeValue(s) else BeValue(s)
  }

  lemma {:induction false} BeValueBound(s: seq<Byte>)
    ensures BeValue(s) < Pow256(|s|)
  {
    if s != [] {
      BeValueBound(s[..|s| - 1]);
    }
  }

  lemma {:induction false} LeValueBound(s: seq<Byte>)
    ensures LeValue(s) < Pow256(|s|)
  {
    if s != [] {
      LeValueBound(s[1..]);
    }
  }

  /** Reading back n big-endian bytes gives the value when it fits in n bytes. */
  lemma {:induction false} BeRoundTrip(x: nat, n: nat)
    requires x < Pow256(n)
    ensures BeValue(BeBytes(x, n)) == x
  {
    if n > 0 {
      BeRoundTrip(x / 256, n - 1);
      var s := BeBytes(x, n);
      assert s[..|s| - 1] == BeBytes(x / 256, n - 1);
    }
  }

  lemma {:induction false} LeRoundTrip(x: nat, n: nat)
    requires x < Pow256(n)
    ensures LeValue(LeBytes(x, n)) == x
  {
    if n > 0 {
      LeRoundTrip(x / 256, n - 1);
      var s := LeBytes(x, n);
      assert s[1..] == LeBytes(x / 256, n - 1);
    }
  }

  /** Encoding what was read gives the bytes back: BeValue is injective per width. */
  lemma {:induction false} BeBytesOfValue(s: seq<Byte>)
    ensures BeBytes(BeValue(s), |s|) == s
  {
    if s != [] {
      var init := s[..|s| - 1];
      BeBytesOfValue(init);
      var v := BeValue(s);
      assert v / 256 == BeValue(init);
      assert v % 256 == s[|s| - 1];
      assert s == init + [s[|s| - 1]];
    }
  }

  lemma {:induction false} LeBytesOfValue(s: seq<Byte>)
    ensures LeBytes(LeValue(s), |s|) == s
  {
    if s != [] {
      LeBytesOfValue(s[1..]);
      var v := LeValue(s);
      assert v / 256 == LeValue(s[1..]);
      assert v % 256 == s[0];
      assert s == [s[0]] + s[1..];
    }
  }

  lemma BeValueInjective(s: seq<Byte>, t: seq<Byte>)
    requires |s| == |t| && s != t
    ensures BeValue(s) != BeValue(t)
  {
    BeBytesOfValue(s);
    BeBytesOfValue(t);
  }

  lemma {:induction false} ReverseAppend<T>(a: seq<T>, b: seq<T>)
    ensures Reverse(a + b) == Reverse(b) + Reverse(a)
  {
    if a == [] {
      assert a + b == b;
    } else {
      assert (a + b)[1..] == a[1..] + b;
      ReverseAppend(a[1..], b);
    }
  }

  /** A little-endian window holds the same value as its reversal read big-endian. */
  lemma {:induction false} LeIsReversedBe(s: seq<Byte>)
    ensures LeValue(s) == BeValue(Reverse(s))
  {
    if s != [] {
      LeIsReversedBe(s[1..]);
      var r := Reverse(s);
      assert r == Reverse(s[1..]) + [s[0]];
      assert r[..|r| - 1] == Reverse(s[1..]);
    }
  }

  /** The two byte orders write the same bytes in opposite order. */
  lemma {:induction false} LeBytesIsReversedBe(x: nat, n: nat)
    ensures LeBytes(x, n) == Reverse(BeBytes(x, n))
  {
    if n > 0 {
      LeBytesIsReversedBe(x / 256, n - 1);
      var one: seq<Byte> := [x % 256];
      assert BeBytes(x, n) == BeBytes(x / 256, n - 1) + one;
      ReverseAppend<Byte>(BeBytes(x / 256, n - 1), one);
      assert one[1..] == [];
      assert Reverse(one) == one;
    }
  }

  /** Little-endian bytes grow at the end by the next byte of x. */
  lemma {:induction false} LeBytesSnoc(x: nat, i: nat)
    ensures LeBytes(x, i + 1) == LeBytes(x, i) + [Shift(x, i) % 256]
  {
    if i > 0 {
      LeBytesSnoc(x / 256, i - 1);
    }
  }

  /** Big-endian bytes grow at the front by the next byte of x. */
  lemma {:induction false} BeBytesCons(x: nat, i: nat)
    ensures BeBytes(x, i + 1) == [Shift(x, i) % 256] + BeBytes(x, i)
  {
    if i > 0 {
      BeBytesCons(x / 256, i - 1);
    }
  }

  lemma UintRoundTrip(isLe: bool, x: nat, n: nat)
    requires x < Pow256(n)
    ensures UintValue(isLe, UintBytes(isLe, x, n)) == x
  {
    if isLe { LeRoundTrip(x, n); } else { BeRoundTrip(x, n); }
  }

  lemma UintValueBound(isLe: bool, s: seq<Byte>)
    ensures UintValue(isLe, s) < Pow256(|s|)
  {
    if isLe { LeValueBound(s); } else { BeValueBound(s); }
  }

  /** `fetch_add` on a 64-bit atomic counter: addition that wraps around. */
  function WrapAdd(a: U64, b: int): (r: U64)
    ensures 0 <= a + b < TWO64 ==> r == a + b
    ensures TWO64 <= a + b < 2 * TWO64 ==> r == a + b - TWO64
  {
    (a + b) % TWO64
  }

  /** Adding twice to a wrapping counter is adding the sum once. */
  lemma WrapAddAcc(a: U64, k: nat, d: nat)
    ensures WrapAdd(WrapAdd(a, k), d) == WrapAdd(a, k + d)
  {
    var q := (a + k) / TWO64;
    assert (a + k) % TWO64 + d == (a + k + d) - q * TWO64;
    ModShift(a + k + d, q);
  }

  lemma ModShift(x: nat, q: nat)
    requires q * TWO64 <= x
    ensures (x - q * TWO64) % TWO64 == x % TWO64
  {
    if q > 0 {
      assert x - q * TWO64 == (x - TWO64) - (q - 1) * TWO64;
      ModShift(x - TWO64, q - 1);
    }
  }

  /** The 16-bit field at offset lo, in the given byte order. */
  function Uint16At(isLe: bool, s: seq<Byte>, lo: nat): (v: U16)
    requires lo + 2 <= |s|
    ensures v == UintValue(isLe, s[lo..lo + 2])
  {
    UintValueBound(isLe, s[lo..lo + 2]);
    Pow256Widths();
    UintValue(isLe, s[lo..lo + 2])
  }

  /** The 32-bit field at offset lo, in the given byte order. */
  function Uint32At(isLe: bool, s: seq<Byte>, lo: nat): (v: U32)
    requires lo + 4 <= |s|
    ensures v == UintValue(isLe, s[lo..lo + 4])
  {
    UintValueBound(isLe, s[lo..lo + 4]);
    Pow256Widths();
    UintValue(isLe, s[lo..lo + 4])
  }

  /** The 64-bit field at offset lo, in the given byte order. */
  function Uint64At(isLe: bool, s: seq<Byte>, lo: nat): (v: U64)
    requires lo + 8 <= |s|
    ensures v == UintValue(isLe, s[lo..lo + 8])
  {
    UintValueBound(isLe, s[lo..lo + 8]);
    Pow256Widths();
    UintValue(isLe, s[lo..lo + 8])
  }
}
