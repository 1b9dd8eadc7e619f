/** SHA-1 as sections 4 and 6.1 of RFC 3174 define it. */
module Sha1Spec {
  type Byte = bv8

  type Word = bv32

  function And(x: Word, y: Word): Word { x & y }

  function Or(x: Word, y: Word): Word { x | y }

  function Xor(x: Word, y: Word): Word { x ^ y }

  function Not(x: Word): Word { !x }

  /** Addition modulo 2^32. */
  function Add(x: Word, y: Word): Word { x + y }

  function Left(x: Word, n: nat): Word
    requires n < 32
  {
    x << n
  }

  function Right(x: Word, n: nat): Word
    requires n < 32
  {
    x >> n
  }

  /** S^n of the standard */
  function Rotate(x: Word, n: nat): Word
    requires 0 < n < 32
  {
    Or(Left(x, n), Right(x, 32 - n))
  }

  function F(t: nat, x: Word, y: Word, z: Word): Word {
    if t < 20 then Or(And(x, y), And(Not(x), z))
    else if t < 40 then Xor(Xor(x, y), z)
    else if t < 60 then Or(Or(And(x, y), And(x, z)), And(y, z))
    else Xor(Xor(x, y), z)
  }

  function K(t: nat): Word {
    if t < 20 then 0x5A82_7999 else if t < 40 then 0x6ED9_EBA1 else if t < 60 then 0x8F1B_BCDC else 0xCA62_C1D6
  }

  function WordOf(block: seq<Byte>, i: nat): Word
    requires 4 * i + 4 <= |block|
  {
    ((block[4 * i] as Word) << 24) | ((block[4 * i + 1] as Word) << 16)
    | ((block[4 * i + 2] as Word) << 8) | (block[4 * i + 3] as Word)
  }

  /** The 80 words of the schedule, by method 1. */
  function W(block: seq<Byte>, t: nat): Word
    requires |block| == 64
  {
    if t < 16 then WordOf(block, t)
    else Rotate(Xor(Xor(Xor(W(block, t - 3), W(block, t - 8)), W(block, t - 14)), W(block, t - 16)), 1)
  }

  datatype Registers = Registers(a: Word, b: Word, c: Word, d: Word, e: Word)

  const START := Registers(0x6745_2301, 0xEFCD_AB89, 0x98BA_DCFE, 0x1032_5476, 0xC3D2_E1F0)

  function Round(block: seq<Byte>, r: Registers, t: nat): Registers
    requires |block| == 64
  {
    Registers(Add(Add(Add(Add(Rotate(r.a, 5), F(t, r.b, r.c, r.d)), r.e), W(block, t)), K(t)),
              r.a, Rotate(r.b, 30), r.c, r.d)
  }

  /** The first t of the 80 rounds. */
  function Rounds(block: seq<Byte>, r: Registers, t: nat): Registers
    requires |block| == 64
  {
    if t == 0 then r else Round(block, Rounds(block, r, t - 1), t - 1)
  }

  function Compress(h: Registers, block: seq<Byte>): Registers
    requires |block| == 64
  {
    var r := Rounds(block, h, 80);
    Registers(Add(h.a, r.a), Add(h.b, r.b), Add(h.c, r.c), Add(h.d, r.d), Add(h.e, r.e))
  }

  /** The state after all blocks of a text. */
  function Blocks(text: seq<Byte>): Registers
    requires |text| % 64 == 0
  {
    if text == [] then START else Compress(Blocks(text[..|text| - 64]), text[|text| - 64..])
  }

  /** The number of bits in eight bytes, most significant first. */
  function LengthBytes(n: nat): seq<Byte> { seq(8, i requires 0 <= i < 8 => Octet(8 * n, 7 - i)) }

  function Power256(k: nat): (n: nat)
    ensures n > 0
  {
    if k == 0 then 1 else 256 * Power256(k - 1)
  }

  /** Byte k of a number, counted from the least significant. */
  function Octet(n: nat, k: nat): Byte { (n / Power256(k) % 256) as Byte }

  function Zeros(n: nat): seq<Byte> { seq(n, _ => 0) }

  /** One bit, zeros up to 8 bytes before the end of a block, and the length. */
  function Pad(text: seq<Byte>): (p: seq<Byte>)
    ensures |p| % 64 == 0
  {
    text + [0x80] + Zeros((119 - |text| % 64) % 64) + LengthBytes(|text|)
  }

  function BytesOf(w: Word): seq<Byte> {
    [((w >> 24) & 0xFF) as Byte, ((w >> 16) & 0xFF) as Byte, ((w >> 8) & 0xFF) as Byte, (w & 0xFF) as Byte]
  }

  function Digest(text: seq<Byte>): seq<Byte> {
    var h := Blocks(Pad(text));
    BytesOf(h.a) + BytesOf(h.b) + BytesOf(h.c) + BytesOf(h.d) + BytesOf(h.e)
  }
}
