/** C's character arithmetic: promotion to `int`, shifts, masks and conversion back to
    `unsigned char`, on the bits, and what the expressions of the encoder are worth in numbers. */
module CChar {

  type byte = x: int | 0 <= x < 256

  /** A `char` promoted to `int`: sign-extended where plain char is signed. */
  function Promote(c: bv8, signed: bool): bv32 {
    if signed && c & 0x80 != 0 then 0xFFFF_FF00 | (c as bv32) else c as bv32
  }

  /** `>>` on an `int`, which keeps the sign. */
  function Sar(x: bv32, k: bv6): bv32
    requires k < 32
  {
    if x & 0x8000_0000 != 0 then !(!x >> k) else x >> k
  }

  /** Conversion of an `int` to `unsigned char`. */
  function U8(x: bv32): bv8 {
    (x & 0xFF) as bv8
  }

  /** The octet as a number. */
  function Octet(c: bv8): (v: byte)
  {
    c as int
  }

  function Octets(data: seq<bv8>): (r: seq<byte>)
    ensures |r| == |data| && forall i :: 0 <= i < |data| ==> r[i] == Octet(data[i])
  {
    seq(|data|, i requires 0 <= i < |data| => Octet(data[i]))
  }

  /** Promotion keeps the value; a negative one stands for itself plus 2^32. */
  lemma PromoteKeepsValue(c: bv8, signed: bool)
    ensures Promote(c, signed) as int
         == Octet(c) + if signed && Octet(c) >= 0x80 then 0x1_0000_0000 - 0x100 else 0
  {
  }

  // ---------------------------------------------------------------- no sign bit survives its mask

  lemma ShiftsAndMasks(c: bv8, signed: bool)
    ensures U8(Sar(Promote(c, signed), 2)) & 0x3F == c >> 2
    ensures U8(Sar(Promote(c, signed), 4)) & 0x0F == c >> 4
    ensures U8(Sar(Promote(c, signed), 6)) & 0x03 == c >> 6
    ensures U8(Promote(c, signed) << 4) & 0x30 == (c & 3) << 4
    ensures U8(Promote(c, signed) << 2) & 0x3C == (c & 15) << 2
    ensures U8(Promote(c, signed)) & 0x3F == c & 0x3F
  {
  }

  // ---------------------------------------------------------------- bits and numbers

  lemma Top6(c: bv8)
    ensures Octet(c >> 2) == Octet(c) / 4
  {
  }

  lemma Top4(c: bv8)
    ensures Octet(c >> 4) == Octet(c) / 16
  {
  }

  lemma Top2(c: bv8)
    ensures Octet(c >> 6) == Octet(c) / 64
  {
  }

  lemma Low2(c: bv8)
    ensures Octet((c & 3) << 4) == Octet(c) % 4 * 16
  {
  }

  lemma Low4(c: bv8)
    ensures Octet((c & 15) << 2) == Octet(c) % 16 * 4
  {
  }

  lemma Low6(c: bv8)
    ensures Octet(c & 0x3F) == Octet(c) % 64
  {
  }

  lemma Joined(a: bv8, b: bv8)
    ensures Octet(((a & 3) << 4) | (b >> 4)) == Octet((a & 3) << 4) + Octet(b >> 4)
    ensures Octet(((a & 15) << 2) | (b >> 6)) == Octet((a & 15) << 2) + Octet(b >> 6)
  {
  }
}
