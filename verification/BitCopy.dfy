/** The unaligned bit copy of `emu/graphics/copybits.h`: whole bytes at a time, shifting the source where the
    two offsets disagree and masking the first and last byte. */
module BitCopy {
  import opened Bits

  /** `now` is `was` with `n` pixels of `src` from `srcAt` laid over it at `dstAt`. */
  ghost predicate Copied(now: seq<Byte>, was: seq<Byte>, dstAt: nat, src: seq<Byte>, srcAt: nat, n: nat)
    requires dstAt + n <= 8 * |was| && srcAt + n <= 8 * |src|
  {
    && |now| == |was|
    && forall k :: 0 <= k < 8 * |was| ==>
         PixelAt(now, k) == if dstAt <= k < dstAt + n then PixelAt(src, srcAt + k - dstAt) else PixelAt(was, k)
  }

  lemma PixelIndex(bytes: seq<Byte>, j: nat, i: nat)
    requires j < |bytes| && i < 8
    ensures PixelAt(bytes, 8 * j + i) == Bit(bytes[j], i)
  {
    assert (8 * j + i) / 8 == j && (8 * j + i) % 8 == i;
  }

  /** Writing byte `d` moves the end of the copied run from `n` to `m` pixels. */
  lemma CopyByte(now: seq<Byte>, was: seq<Byte>, dstAt: nat, src: seq<Byte>, srcAt: nat, n: nat, m: nat, d: nat,
                 b: Byte)
    requires n <= m && dstAt + m <= 8 * |was| && srcAt + m <= 8 * |src|
    requires Copied(now, was, dstAt, src, srcAt, n)
    requires d < |was| && 8 * d <= dstAt + n && dstAt + m <= 8 * (d + 1)
    requires forall i :: 0 <= i < 8 ==>
               Bit(b, i) == if dstAt + n <= 8 * d + i < dstAt + m then PixelAt(src, srcAt + (8 * d + i - dstAt))
                   else Bit(now[d], i)
    ensures Copied(now[d := b], was, dstAt, src, srcAt, m)
  {
    var after := now[d := b];
    forall k | 0 <= k < 8 * |was|
      ensures PixelAt(after, k) == if dstAt <= k < dstAt + m then PixelAt(src, srcAt + k - dstAt) else PixelAt(was, k)
    {
      assert PixelAt(now, k) == if dstAt <= k < dstAt + n then PixelAt(src, srcAt + k - dstAt) else PixelAt(was, k);
      if k / 8 == d {
        assert k == 8 * d + k % 8;
        PixelIndex(after, d, k % 8);
        PixelIndex(now, d, k % 8);
      }
    }
  }

  /** `b` shows pixels `lo` up to `hi` of `c`, and `was` elsewhere. */
  ghost predicate Merged(b: Byte, was: Byte, c: Byte, lo: nat, hi: nat)
    requires hi <= 8
  {
    forall i :: 0 <= i < 8 ==> Bit(b, i) == if lo <= i < hi then Bit(c, i) else Bit(was, i)
  }

  /** From pixel `lo` on, `c` shows `count` pixels of `src` starting at `p`. */
  ghost predicate Shows(c: Byte, lo: nat, count: nat, src: seq<Byte>, p: nat)
    requires lo + count <= 8 && p + count <= 8 * |src|
  {
    forall i :: lo <= i < lo + count ==> Bit(c, i) == PixelAt(src, p + (i - lo))
  }

  lemma CopyMerged(now: seq<Byte>, was: seq<Byte>, dstAt: nat, src: seq<Byte>, srcAt: nat, n: nat, count: nat,
                   d: nat, b: Byte, c: Byte, lo: nat)
    requires dstAt + n + count <= 8 * |was| && srcAt + n + count <= 8 * |src|
    requires Copied(now, was, dstAt, src, srcAt, n)
    requires d < |was| && dstAt + n == 8 * d + lo && lo + count <= 8
    requires Merged(b, now[d], c, lo, lo + count)
    requires Shows(c, lo, count, src, srcAt + n)
    ensures Copied(now[d := b], was, dstAt, src, srcAt, n + count)
  {
    hide Copied, Bit;
    CopyByte(now, was, dstAt, src, srcAt, n, n + count, d, b);
  }

  lemma ShowsAligned(src: seq<Byte>, s: nat, lo: nat, count: nat)
    requires s < |src| && lo + count <= 8
    ensures Shows(src[s], lo, count, src, 8 * s + lo)
  {
    forall i | lo <= i < lo + count ensures Bit(src[s], i) == PixelAt(src, 8 * s + lo + (i - lo)) {
      PixelIndex(src, s, i);
    }
  }

  /** The pixels of `b` under a mask. */
  function Keep(b: Byte, mask: Byte): Byte { b & mask }

  /** The pixels of either byte. */
  function Lay(b: Byte, c: Byte): Byte { b | c }

  lemma KeepBit(b: Byte, mask: Byte, i: nat)
    requires i < 8
    ensures Bit(Keep(b, mask), i) <==> Bit(b, i) && Bit(mask, i)
  {
    hide Bit;
    AndBit(b, mask, i);
  }

  lemma LayBit(b: Byte, c: Byte, i: nat)
    requires i < 8
    ensures Bit(Lay(b, c), i) <==> Bit(b, i) || Bit(c, i)
  {
    hide Bit;
    OrBit(b, c, i);
  }

  /** The first destination byte: pixels `lo` up to `hi` come from `c`. */
  lemma MergeFirst(was: Byte, c: Byte, lo: nat, hi: nat, i: nat)
    requires lo <= hi <= 8 && i < 8
    ensures Bit(Lay(Keep(was, Lay(HighMask(lo), LowMask(hi))), Keep(Keep(c, LowMask(lo)), HighMask(hi))), i)
            == if lo <= i < hi then Bit(c, i) else Bit(was, i)
    ensures Bit(Lay(Keep(was, HighMask(lo)), Keep(c, LowMask(lo))), i) == if lo <= i then Bit(c, i) else Bit(was, i)
  {
    hide *;
    var outer, inner := Lay(HighMask(lo), LowMask(hi)), Keep(c, LowMask(lo));
    MaskBit(lo, i);
    MaskBit(hi, i);
    LayBit(HighMask(lo), LowMask(hi), i);
    KeepBit(was, outer, i);
    KeepBit(c, LowMask(lo), i);
    KeepBit(inner, HighMask(hi), i);
    LayBit(Keep(was, outer), Keep(inner, HighMask(hi)), i);
    KeepBit(was, HighMask(lo), i);
    LayBit(Keep(was, HighMask(lo)), inner, i);
  }

  /** The last destination byte: its first `n` pixels come from `c`. */
  lemma MergeLast(was: Byte, c: Byte, n: nat, i: nat)
    requires n <= 8 && i < 8
    ensures Bit(Lay(Keep(was, LowMask(n)), Keep(HighMask(n), c)), i) == if i < n then Bit(c, i) else Bit(was, i)
  {
    hide *;
    MaskBit(n, i);
    KeepBit(was, LowMask(n), i);
    KeepBit(HighMask(n), c, i);
    LayBit(Keep(was, LowMask(n)), Keep(HighMask(n), c), i);
  }

  /** Eight pixels starting `n` pixels into `a` and running on into `b`. */
  function Window(a: Byte, b: Byte, n: nat): Byte
    requires n <= 8
  {
    ShiftLeft(a, n) | ShiftRight(b, 8 - n)
  }

  lemma WindowBit(a: Byte, b: Byte, n: nat, i: nat)
    requires n <= 8 && i < 8
    ensures Bit(Window(a, b, n), i) == if i + n < 8 then Bit(a, i + n) else Bit(b, i + n - 8)
  {
    hide Bit, ShiftLeft, ShiftRight;
    OrBit(ShiftLeft(a, n), ShiftRight(b, 8 - n), i);
    ShiftLeftBit(a, n, i);
    ShiftRightBit(b, 8 - n, i);
  }

  /** One source byte. The copy may look at the byte just past the end; `beyond` is whatever lies there. */
  function Fetch(src: seq<Byte>, j: nat, beyond: Byte): Byte
    requires j <= |src|
  {
    if j < |src| then src[j] else beyond
  }

  /** Lays the copied pixels of `fetched` over byte `d`, from pixel `offset` on; returns how many are still to come. */
  method FirstCopy(dst: array<Byte>, d: nat, offset: nat, len: nat, fetched: Byte) returns (left: nat)
    requires d < dst.Length && offset < 8
    modifies dst
    ensures left == if 8 - offset <= len then len - (8 - offset) else 0
    ensures dst[..] == old(dst[..])[d := dst[d]]
    ensures Merged(dst[d], old(dst[d]), fetched, offset, offset + (len - left))
  {
    hide *;
    if len >= 8 - offset {
      FillFrom(dst, d, offset, fetched);
      left := len - (8 - offset);
    } else {
      FillBetween(dst, d, offset, offset + len, fetched);
      left := 0;
    }
  }

  method FillFrom(dst: array<Byte>, d: nat, lo: nat, fetched: Byte)
    requires d < dst.Length && lo <= 8
    modifies dst
    ensures dst[..] == old(dst[..])[d := dst[d]]
    ensures Merged(dst[d], old(dst[d]), fetched, lo, 8)
  {
    hide *;
    MergedFull(dst[d], fetched, lo);
    var c := Keep(fetched, LowMask(lo));
    dst[d] := Keep(dst[d], HighMask(lo));
    dst[d] := Lay(dst[d], c);
  }

  method FillBetween(dst: array<Byte>, d: nat, lo: nat, hi: nat, fetched: Byte)
    requires d < dst.Length && lo <= hi <= 8
    modifies dst
    ensures dst[..] == old(dst[..])[d := dst[d]]
    ensures Merged(dst[d], old(dst[d]), fetched, lo, hi)
  {
    hide *;
    MergedFirst(dst[d], fetched, lo, hi);
    var c := Keep(fetched, LowMask(lo));
    dst[d] := Keep(dst[d], Lay(HighMask(lo), LowMask(hi)));
    c := Keep(c, HighMask(hi));
    dst[d] := Lay(dst[d], c);
  }

  /** Lays the first `tail` pixels of `c` over byte `d`. */
  method LastCopy(dst: array<Byte>, d: nat, tail: nat, c: Byte)
    requires d < dst.Length && tail <= 8
    modifies dst
    ensures dst[..] == old(dst[..])[d := dst[d]]
    ensures Merged(dst[d], old(dst[d]), c, 0, tail)
  {
    hide *;
    MergedLast(dst[d], c, tail);
    dst[d] := Keep(dst[d], LowMask(tail));
    dst[d] := Lay(dst[d], Keep(HighMask(tail), c));
  }

  /** Shifts two neighbouring source bytes into one. */
  method ShiftedByte(src: seq<Byte>, s: nat, shift: nat, beyond: Byte) returns (c: Byte)
    requires s < |src| && shift < 8
    ensures c == Window(src[s], Fetch(src, s + 1, beyond), shift)
  {
    c := ShiftLeft(src[s], shift);
    c := c | ShiftRight(Fetch(src, s + 1, beyond), 8 - shift);
  }

  /** Both offsets sit at the same pixel of their byte. */
  method CopyAligned(src: seq<Byte>, srcAt: nat, len: nat, dst: array<Byte>, dstAt: nat)
    requires 0 < len
    requires srcAt % 8 == dstAt % 8
    requires srcAt + len <= 8 * |src| && dstAt + len <= 8 * dst.Length
    modifies dst
    ensures Copied(dst[..], old(dst[..]), dstAt, src, srcAt, len)
  {
    hide *;
    ghost var was := dst[..];
    NothingCopied(was, dstAt, src, srcAt);
    var s, d := srcAt / 8, dstAt / 8;
    var offset := dstAt % 8;
    var srcLen := len;
    if offset != 0 {
      srcLen := FirstCopy(dst, d, offset, srcLen, src[s]);
      ShowsAligned(src, s, offset, len - srcLen);
      CopyMerged(was, was, dstAt, src, srcAt, 0, len - srcLen, d, dst[d], src[s], offset);
      s, d := s + 1, d + 1;
    }
    var byteLen := srcLen / 8;
    var tail := srcLen % 8;
    if srcLen > 0 {
      CopyWholeBytes(src, s, dst, d, byteLen, was, dstAt, srcAt, len - srcLen);
      CopyTail(src, s + byteLen, dst, d + byteLen, tail, was, dstAt, srcAt, len - tail);
    }
  }

  method CopyWholeBytes(src: seq<Byte>, s: nat, dst: array<Byte>, d: nat, byteLen: nat,
                        ghost was: seq<Byte>, ghost dstAt: nat, ghost srcAt: nat, ghost n: nat)
    requires s + byteLen <= |src| && d + byteLen <= dst.Length
    requires dstAt + n == 8 * d && srcAt + n == 8 * s && |was| == dst.Length
    requires Copied(dst[..], was, dstAt, src, srcAt, n)
    modifies dst
    ensures Copied(dst[..], was, dstAt, src, srcAt, n + 8 * byteLen)
  {
    hide *;
    for i := 0 to byteLen
      invariant Copied(dst[..], was, dstAt, src, srcAt, n + 8 * i)
    {
      ShowsAligned(src, s + i, 0, 8);
      MergedWhole(src[s + i], dst[d + i]);
      CopyMerged(dst[..], was, dstAt, src, srcAt, n + 8 * i, 8, d + i, src[s + i], src[s + i], 0);
      ghost var now := dst[..];
      dst[d + i] := src[s + i];
      assert dst[..] == now[d + i := src[s + i]];
    }
  }

  method CopyTail(src: seq<Byte>, s: nat, dst: array<Byte>, d: nat, tail: nat,
                  ghost was: seq<Byte>, ghost dstAt: nat, ghost srcAt: nat, ghost n: nat)
    requires tail < 8 && dstAt + n == 8 * d && srcAt + n == 8 * s && |was| == dst.Length
    requires dstAt + n + tail <= 8 * dst.Length && srcAt + n + tail <= 8 * |src|
    requires Copied(dst[..], was, dstAt, src, srcAt, n)
    modifies dst
    ensures Copied(dst[..], was, dstAt, src, srcAt, n + tail)
  {
    hide *;
    if tail != 0 {
      ghost var now := dst[..];
      LastCopy(dst, d, tail, src[s]);
      ShowsAligned(src, s, 0, tail);
      CopyMerged(now, was, dstAt, src, srcAt, n, tail, d, dst[d], src[s], 0);
    }
  }

  /** The source has to be shifted into place: `shift` is how far each source byte moves left. */
  method CopyShifted(src: seq<Byte>, srcAt: nat, len: nat, dst: array<Byte>, dstAt: nat, beyond: Byte)
    requires 0 < len
    requires srcAt % 8 != dstAt % 8
    requires srcAt + len <= 8 * |src| && dstAt + len <= 8 * dst.Length
    modifies dst
    ensures Copied(dst[..], old(dst[..]), dstAt, src, srcAt, len)
  {
    hide *;
    ghost var was := dst[..];
    NothingCopied(was, dstAt, src, srcAt);
    var s, d := srcAt / 8, dstAt / 8;
    var srcOffset, dstOffset := srcAt % 8, dstAt % 8;
    var shift;
    var fetched;
    ghost var first := if len < 8 - dstOffset then len else 8 - dstOffset;
    if srcOffset > dstOffset {
      shift := srcOffset - dstOffset;
      fetched := ShiftedByte(src, s, shift, beyond);
      ShowsWindow(src, s, beyond, shift, dstOffset, first);
      s := s + 1;
    } else {
      var rightShift := dstOffset - srcOffset;
      shift := 8 - rightShift;
      fetched := ShiftRight(src[s], rightShift);
      ShowsRight(src, s, rightShift, dstOffset, first);
    }
    var srcLen := FirstCopy(dst, d, dstOffset, len, fetched);
    CopyMerged(was, was, dstAt, src, srcAt, 0, len - srcLen, d, dst[d], fetched, dstOffset);
    d := d + 1;
    if srcLen > 0 {
      var byteLen := srcLen / 8;
      var tail := srcLen % 8;
      CopyWindows(src, s, dst, d, byteLen, shift, beyond, was, dstAt, srcAt, len - srcLen);
      CopyLastWindow(src, s + byteLen, dst, d + byteLen, tail, shift, beyond, was, dstAt, srcAt, len - tail);
    }
  }

  method CopyWindows(src: seq<Byte>, s: nat, dst: array<Byte>, d: nat, byteLen: nat, shift: nat, beyond: Byte,
                     ghost was: seq<Byte>, ghost dstAt: nat, ghost srcAt: nat, ghost n: nat)
    requires 0 < shift < 8 && d + byteLen <= dst.Length && |was| == dst.Length
    requires dstAt + n == 8 * d && srcAt + n == 8 * s + shift && srcAt + n + 8 * byteLen <= 8 * |src|
    requires Copied(dst[..], was, dstAt, src, srcAt, n)
    modifies dst
    ensures Copied(dst[..], was, dstAt, src, srcAt, n + 8 * byteLen)
  {
    hide *;
    for i := 0 to byteLen
      invariant Copied(dst[..], was, dstAt, src, srcAt, n + 8 * i)
    {
      var c := ShiftedByte(src, s + i, shift, beyond);
      ShowsWindow(src, s + i, beyond, shift, 0, 8);
      MergedWhole(c, dst[d + i]);
      CopyMerged(dst[..], was, dstAt, src, srcAt, n + 8 * i, 8, d + i, c, c, 0);
      ghost var now := dst[..];
      dst[d + i] := c;
      assert dst[..] == now[d + i := c];
    }
  }

  method CopyLastWindow(src: seq<Byte>, s: nat, dst: array<Byte>, d: nat, tail: nat, shift: nat, beyond: Byte,
                        ghost was: seq<Byte>, ghost dstAt: nat, ghost srcAt: nat, ghost n: nat)
    requires 0 < shift < 8 && tail < 8 && |was| == dst.Length
    requires dstAt + n == 8 * d && srcAt + n == 8 * s + shift
    requires dstAt + n + tail <= 8 * dst.Length && srcAt + n + tail <= 8 * |src|
    requires Copied(dst[..], was, dstAt, src, srcAt, n)
    modifies dst
    ensures Copied(dst[..], was, dstAt, src, srcAt, n + tail)
  {
    hide *;
    if tail != 0 {
      var c := ShiftedByte(src, s, shift, beyond);
      ghost var now := dst[..];
      LastCopy(dst, d, tail, c);
      ShowsWindow(src, s, beyond, shift, 0, tail);
      CopyMerged(now, was, dstAt, src, srcAt, n, tail, d, dst[d], c, 0);
    }
  }

  /** Two neighbouring source bytes, shifted left, show the source from pixel `shift` of the first on.
      The byte past the end is never among the pixels shown. */
  lemma ShowsWindow(src: seq<Byte>, s: nat, beyond: Byte, shift: nat, lo: nat, count: nat)
    requires s < |src| && 0 < shift < 8 && lo + count <= 8 && 8 * s + shift + lo + count <= 8 * |src|
    ensures Shows(Window(src[s], Fetch(src, s + 1, beyond), shift), lo, count, src, 8 * s + shift + lo)
  {
    var w := Window(src[s], Fetch(src, s + 1, beyond), shift);
    hide Bit, PixelAt, Window;
    forall i | lo <= i < lo + count ensures Bit(w, i) == PixelAt(src, 8 * s + shift + lo + (i - lo)) {
      WindowBit(src[s], Fetch(src, s + 1, beyond), shift, i);
      if i + shift < 8 {
        PixelIndex(src, s, i + shift);
      } else {
        PixelIndex(src, s + 1, i + shift - 8);
      }
    }
  }

  lemma ShowsRight(src: seq<Byte>, s: nat, shift: nat, lo: nat, count: nat)
    requires s < |src| && 0 < shift <= lo && lo + count <= 8
    ensures Shows(ShiftRight(src[s], shift), lo, count, src, 8 * s + lo - shift)
  {
    hide Bit, PixelAt, ShiftRight;
    forall i | lo <= i < lo + count ensures Bit(ShiftRight(src[s], shift), i)
        == PixelAt(src, 8 * s + lo - shift + (i - lo)) {
      ShiftRightBit(src[s], shift, i);
      PixelIndex(src, s, i - shift);
    }
  }

  /** The bytes that hold the first `bits` pixels of memory. */
  function BytesHolding(bits: nat): nat {
    (bits + 7) / 8
  }

  /** Copies `len` pixels out of `held`, which ends with the last byte that holds one of them. All that is looked at
      besides is the one byte that follows, `beyond`, and it makes no difference. */
  method CopyHeld(held: seq<Byte>, beyond: Byte, srcAt: nat, len: nat, dst: array<Byte>, dstAt: nat)
    requires |held| == BytesHolding(srcAt + len)
    requires dstAt + len <= 8 * dst.Length
    modifies dst
    ensures Copied(dst[..], old(dst[..]), dstAt, held, srcAt, len)
  {
    if len != 0 {
      hide Copied;
      if srcAt % 8 == dstAt % 8 {
        CopyAligned(held, srcAt, len, dst, dstAt);
      } else {
        CopyShifted(held, srcAt, len, dst, dstAt, beyond);
      }
    } else {
      NothingCopied(dst[..], dstAt, held, srcAt);
    }
  }

  /** Copies `srcLen` pixels from pixel `srcOffset` of `src`, counted from byte `srcOrg`, to pixel `dstOffset` of `dst`,
      counted from byte `dstOrg`. Every other pixel of `dst` stays, whatever lies beyond the end of `src`. */
  method BitArrayCopy(src: array<Byte>, srcOrg: nat, srcOffset: nat, srcLen: nat,
                      dst: array<Byte>, dstOrg: nat, dstOffset: nat, beyond: Byte)
    requires src != dst
    requires 8 * srcOrg + srcOffset + srcLen <= 8 * src.Length
    requires 8 * dstOrg + dstOffset + srcLen <= 8 * dst.Length
    modifies dst
    ensures Copied(dst[..], old(dst[..]), 8 * dstOrg + dstOffset, src[..], 8 * srcOrg + srcOffset, srcLen)
  {
    var srcAt, dstAt := 8 * srcOrg + srcOffset, 8 * dstOrg + dstOffset;
    var end := BytesHolding(srcAt + srcLen);
    hide Copied;
    ghost var was := dst[..];
    CopyHeld(src[..end], if end < src.Length then src[end] else beyond, srcAt, srcLen, dst, dstAt);
    CopiedFromHeld(dst[..], was, dstAt, src[..], end, srcAt, srcLen);
    assert src[..][..end] == src[..end];
  }

  lemma CopiedFromHeld(now: seq<Byte>, was: seq<Byte>, dstAt: nat, src: seq<Byte>, end: nat, srcAt: nat, n: nat)
    requires end <= |src| && srcAt + n <= 8 * end && dstAt + n <= 8 * |was|
    requires Copied(now, was, dstAt, src[..end], srcAt, n)
    ensures Copied(now, was, dstAt, src, srcAt, n)
  {
    forall k | 0 <= k < 8 * |was|
      ensures PixelAt(now, k) == if dstAt <= k < dstAt + n then PixelAt(src, srcAt + k - dstAt) else PixelAt(was, k)
    {
      if dstAt <= k < dstAt + n {
        HeldPixel(src, end, srcAt + k - dstAt);
      }
    }
  }

  lemma HeldPixel(src: seq<Byte>, end: nat, k: nat)
    requires end <= |src| && k < 8 * end
    ensures PixelAt(src[..end], k) == PixelAt(src, k)
  {
    assert src[..end][k / 8] == src[k / 8];
  }

  lemma NothingCopied(was: seq<Byte>, dstAt: nat, src: seq<Byte>, srcAt: nat)
    requires dstAt <= 8 * |was| && srcAt <= 8 * |src|
    ensures Copied(was, was, dstAt, src, srcAt, 0)
  {
  }

  lemma MergedWhole(b: Byte, was: Byte)
    ensures Merged(b, was, b, 0, 8)
  {
  }

  lemma MergedFirst(was: Byte, c: Byte, lo: nat, hi: nat)
    requires lo <= hi <= 8
    ensures Merged(Lay(Keep(was, Lay(HighMask(lo), LowMask(hi))), Keep(Keep(c, LowMask(lo)), HighMask(hi))), was, c,
                   lo, hi)
  {
    hide Bit, LowMask, HighMask, Keep, Lay;
    forall i | 0 <= i < 8 { MergeFirst(was, c, lo, hi, i); }
  }

  lemma MergedFull(was: Byte, c: Byte, lo: nat)
    requires lo <= 8
    ensures Merged(Lay(Keep(was, HighMask(lo)), Keep(c, LowMask(lo))), was, c, lo, 8)
  {
    hide Bit, LowMask, HighMask, Keep, Lay;
    forall i | 0 <= i < 8 { MergeFirst(was, c, lo, 8, i); }
  }

  lemma MergedLast(was: Byte, c: Byte, n: nat)
    requires n <= 8
    ensures Merged(Lay(Keep(was, LowMask(n)), Keep(HighMask(n), c)), was, c, 0, n)
  {
    hide Bit, LowMask, HighMask, Keep, Lay;
    forall i | 0 <= i < 8 { MergeLast(was, c, n, i); }
  }
}
