/** Bytes as rows of eight pixels, the leftmost pixel in the most significant bit. */
module Bits {

  type Byte = bv8

  /** The byte with only pixel `i` set. */
  function PixelMask(i: nat): Byte
    requires i < 8
  {
    match i
    case 0 => 0x80
    case 1 => 0x40
    case 2 => 0x20
    case 3 => 0x10
    case 4 => 0x08
    case 5 => 0x04
    case 6 => 0x02
    case _ => 0x01
  }

  /** Pixel `i` of a byte, counted from the left. */
  predicate Bit(b: Byte, i: nat)
    requires i < 8
  {
    b & PixelMask(i) != 0
  }

  /** Pixel `k` of a run of bytes. */
  predicate PixelAt(bytes: seq<Byte>, k: nat)
    requires k < 8 * |bytes|
  {
    Bit(bytes[k / 8], k % 8)
  }

  /** The first `n` pixels set: the `mask` table of `copybits.h`. */
  function HighMask(n: nat): Byte
    requires n <= 8
  {
    match n
    case 0 => 0x00
    case 1 => 0x80
    case 2 => 0xc0
    case 3 => 0xe0
    case 4 => 0xf0
    case 5 => 0xf8
    case 6 => 0xfc
    case 7 => 0xfe
    case _ => 0xff
  }

  /** All but the first `n` pixels set: the `mask_xor` table of `copybits.h` and `kMask` of `bitmap_image.cc`. */
  function LowMask(n: nat): Byte
    requires n <= 8
  {
    match n
    case 0 => 0xff
    case 1 => 0x7f
    case 2 => 0x3f
    case 3 => 0x1f
    case 4 => 0x0f
    case 5 => 0x07
    case 6 => 0x03
    case 7 => 0x01
    case _ => 0x00
  }

  /** `b << n`, cut back to eight bits. */
  function ShiftLeft(b: Byte, n: nat): Byte
    requires n <= 8
  {
    match n
    case 0 => b
    case 1 => b << 1
    case 2 => b << 2
    case 3 => b << 3
    case 4 => b << 4
    case 5 => b << 5
    case 6 => b << 6
    case 7 => b << 7
    case _ => 0
  }

  function ShiftRight(b: Byte, n: nat): Byte
    requires n <= 8
  {
    match n
    case 0 => b
    case 1 => b >> 1
    case 2 => b >> 2
    case 3 => b >> 3
    case 4 => b >> 4
    case 5 => b >> 5
    case 6 => b >> 6
    case 7 => b >> 7
    case _ => 0
  }

  function RotateRight(b: Byte, n: nat): Byte
    requires n < 8
  {
    ShiftRight(b, n) | ShiftLeft(b, 8 - n)
  }

  /** The leftmost pixel is the most significant bit. */
  lemma BitIs(b: Byte, i: nat)
    requires i < 8
    ensures Bit(b, i) <==> b & [0x80, 0x40, 0x20, 0x10, 0x08, 0x04, 0x02, 0x01][i] != 0
  {
    match i case 0 => case 1 => case 2 => case 3 => case 4 => case 5 => case 6 => case _ =>
  }

  lemma SinglePixel(i: nat)
    requires i < 8
    ensures PixelMask(i) & (PixelMask(i) - 1) == 0
  {
  }

  lemma MaskLogic(a: Byte, b: Byte, m: Byte)
    requires m & (m - 1) == 0
    ensures (a & b) & m != 0 <==> a & m != 0 && b & m != 0
    ensures (a | b) & m != 0 <==> a & m != 0 || b & m != 0
    ensures (a ^ b) & m != 0 <==> (a & m != 0) != (b & m != 0)
  {
  }

  lemma AndBit(a: Byte, b: Byte, i: nat)
    requires i < 8
    ensures Bit(a & b, i) <==> Bit(a, i) && Bit(b, i)
  {
    SinglePixel(i);
    MaskLogic(a, b, PixelMask(i));
    hide PixelMask;
  }

  lemma OrBit(a: Byte, b: Byte, i: nat)
    requires i < 8
    ensures Bit(a | b, i) <==> Bit(a, i) || Bit(b, i)
  {
    SinglePixel(i);
    MaskLogic(a, b, PixelMask(i));
    hide PixelMask;
  }

  lemma NotBit(a: Byte, i: nat)
    requires i < 8
    ensures Bit(!a, i) <==> !Bit(a, i)
  {
    match i case 0 => case 1 => case 2 => case 3 => case 4 => case 5 => case 6 => case _ =>
  }

  lemma MaskBit(n: nat, i: nat)
    requires n <= 8 && i < 8
    ensures Bit(HighMask(n), i) <==> i < n
    ensures Bit(LowMask(n), i) <==> n <= i
  {
  }

  lemma ShiftLeftBit(b: Byte, n: nat, i: nat)
    requires n <= 8 && i < 8
    ensures Bit(ShiftLeft(b, n), i) <==> i + n < 8 && Bit(b, i + n)
  {
    match n case 0 => case 1 => case 2 => case 3 => case 4 => case 5 => case 6 => case 7 => case _ =>
  }

  lemma ShiftRightBit(b: Byte, n: nat, i: nat)
    requires n <= 8 && i < 8
    ensures Bit(ShiftRight(b, n), i) <==> n <= i && Bit(b, i - n)
  {
    match n case 0 => case 1 => case 2 => case 3 => case 4 => case 5 => case 6 => case 7 => case _ =>
  }

  /** Two bytes with the same pixels are the same byte. */
  lemma SameBits(a: Byte, b: Byte)
    requires forall i :: 0 <= i < 8 ==> Bit(a, i) == Bit(b, i)
    ensures a == b
  {
    assert Bit(a, 0) == Bit(b, 0) && Bit(a, 1) == Bit(b, 1) && Bit(a, 2) == Bit(b, 2) && Bit(a, 3) == Bit(b, 3);
    assert Bit(a, 4) == Bit(b, 4) && Bit(a, 5) == Bit(b, 5) && Bit(a, 6) == Bit(b, 6) && Bit(a, 7) == Bit(b, 7);
  }

  /** Rotating right by `n` shows the pixel `n` places to the left, around the byte. */
  lemma RotateBit(b: Byte, n: nat, i: nat)
    requires n < 8 && i < 8
    ensures Bit(RotateRight(b, n), i) == Bit(b, (i + 8 - n) % 8)
  {
    hide Bit, PixelMask, ShiftLeft, ShiftRight;
    OrBit(ShiftRight(b, n), ShiftLeft(b, 8 - n), i);
    ShiftRightBit(b, n, i);
    ShiftLeftBit(b, 8 - n, i);
  }
}
