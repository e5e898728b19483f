/** The source joins and splits numbers with shifts, bitwise or and masks. These
    lemmas say that its expressions are the functions of module Bytes and the
    client's window. */
module BitForms {
  import opened Bytes
  import Client

  function AsByte(b: bv8): byte {
    (b as nat) as byte
  }

  /** `hi << 8 | lo` */
  lemma {:induction false} Join16IsSum(hi: bv8, lo: bv8)
    ensures (((hi as bv16) << 8) | (lo as bv16)) as nat == 256 * (hi as nat) + (lo as nat)
    ensures (((hi as bv16) << 8) | (lo as bv16)) as nat == BigEndian16(AsByte(hi), AsByte(lo))
    ensures (((hi as bv16) << 8) | (lo as bv16)) as nat == LittleEndian16(AsByte(lo), AsByte(hi))
  {}

  /** `a << 24 | b << 16 | c << 8 | d` */
  lemma {:induction false} Join32IsSum(a: bv8, b: bv8, c: bv8, d: bv8)
    ensures (((a as bv32) << 24) | ((b as bv32) << 16) | ((c as bv32) << 8) | (d as bv32)) as nat ==
            0x100_0000 * (a as nat) + 0x1_0000 * (b as nat) + 256 * (c as nat) + (d as nat)
    ensures (((a as bv32) << 24) | ((b as bv32) << 16) | ((c as bv32) << 8) | (d as bv32)) as nat ==
            BigEndian32(AsByte(a), AsByte(b), AsByte(c), AsByte(d))
  {}

  /** `n >> 8` and `n & 0xFF` take the two bytes out again */
  lemma {:induction false} SplitIsHighLow(hi: bv8, lo: bv8)
    ensures var n := ((hi as bv16) << 8) | (lo as bv16);
      && (n >> 8) == hi as bv16 && (n & 0xFF) == lo as bv16
      && High(n as nat) == AsByte(hi) && Low(n as nat) == AsByte(lo)
  {
    Join16IsSum(hi, lo);
    HalvesOfSum(AsByte(hi), AsByte(lo));
  }

  lemma {:induction false} HalvesOfSum(hi: byte, lo: byte)
    ensures High(256 * hi as nat + lo as nat) == hi && Low(256 * hi as nat + lo as nat) == lo
  {}

  /** `magic >> 8 | value << 24`, one step of the client's window on a word made
      of four bytes */
  lemma {:induction false} SlideIsSum(a: bv8, b: bv8, c: bv8, d: bv8, e: bv8)
    ensures var word := ((a as bv32) << 24) | ((b as bv32) << 16) | ((c as bv32) << 8) | (d as bv32);
      ((word >> 8) | ((e as bv32) << 24)) as nat == Client.Slide(word as nat, AsByte(e))
  {
    Join32IsSum(a, b, c, d);
    Join32IsSum(e, a, b, c);
    Client.SlideShifts(AsByte(a), AsByte(b), AsByte(c), AsByte(d), AsByte(e));
    SlideBits(a, b, c, d, e);
  }

  lemma {:induction false} SlideBits(a: bv8, b: bv8, c: bv8, d: bv8, e: bv8)
    ensures var word := ((a as bv32) << 24) | ((b as bv32) << 16) | ((c as bv32) << 8) | (d as bv32);
      (word >> 8) | ((e as bv32) << 24) ==
      ((e as bv32) << 24) | ((a as bv32) << 16) | ((b as bv32) << 8) | (c as bv32)
  {}
}
