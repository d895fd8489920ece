/** The IEEE 802.3 CRC-32 (reflected polynomial 0xEDB88320, initial value and
    final mask 0xFFFFFFFF) that the GLOS formats use for header and block
    checksums. It is written out bit by bit on integers; the rest of the model
    relies only on it being a function of the covered bytes. */
module Crc32 {
  import opened Bytes

  const Polynomial: nat := 0xEDB8_8320
  const Mask: nat := 0xFFFF_FFFF

  /** 2 to the power k. */
  function Pow2(k: nat): (r: nat)
    ensures r >= 1
  {
    if k == 0 then 1 else 2 * Pow2(k - 1)
  }

  lemma {:induction false} Pow2Add(a: nat, b: nat)
    ensures Pow2(a + b) == Pow2(a) * Pow2(b)
    decreases a
  {
    if a > 0 {
      Pow2Add(a - 1, b);
    }
  }

  lemma Pow2Of32()
    ensures Pow2(32) == 0x1_0000_0000
  {
    assert Pow2(2) == 4;
    assert Pow2(4) == 16 by { Pow2Add(2, 2); }
    assert Pow2(8) == 256 by { Pow2Add(4, 4); }
    assert Pow2(16) == 0x1_0000 by { Pow2Add(8, 8); }
    Pow2Add(16, 16);
  }

  /** The exclusive or of the k low bits of a and b. */
  function Xor(a: nat, b: nat, k: nat): nat
    decreases k
  {
    if k == 0 then 0 else (a + b) % 2 + 2 * Xor(a / 2, b / 2, k - 1)
  }

  lemma {:induction false} XorBound(a: nat, b: nat, k: nat)
    ensures Xor(a, b, k) < Pow2(k)
    decreases k
  {
    if k > 0 {
      XorBound(a / 2, b / 2, k - 1);
    }
  }

  /** k rounds of the shift-and-conditionally-xor step of the reflected CRC. */
  function ShiftRounds(c: nat, k: nat): nat
    decreases k
  {
    if k == 0 then c
    else ShiftRounds(if c % 2 == 1 then Xor(c / 2, Polynomial, 32) else c / 2, k - 1)
  }

  function UpdateByte(c: nat, b: Byte): nat
  {
    ShiftRounds(Xor(c, b, 32), 8)
  }

  function Update(c: nat, data: seq<Byte>): nat
    decreases |data|
  {
    if data == [] then c else Update(UpdateByte(c, data[0]), data[1..])
  }

  /** `crc32_checksum`: the checksum of a byte range as an unsigned 32-bit value. */
  function Checksum(data: seq<Byte>): (r: U32)
  {
    XorBound(Update(Mask, data), Mask, 32);
    Pow2Of32();
    Xor(Update(Mask, data), Mask, 32)
  }
}
