/** Byte-addressed memory with big-endian accessors (`core/memory_region.h`, `core/memory_region.cc`). */
module Memory {

  type Byte = b: int | 0 <= b < 256 witness 0

  /** `OutOfRange` is the error of a checked access. `Unchecked` stands for an access past the end of the memory
      that the original does not guard. */
  datatype Result<+T> = Ok(value: T) | OutOfRange | Unchecked

  /** An error passed on. */
  function Failed<T, U>(r: Result<T>): (e: Result<U>)
    requires !r.Ok?
    ensures !e.Ok? && e.OutOfRange? == r.OutOfRange?
  {
    if r.OutOfRange? then OutOfRange else Unchecked
  }

  // ---- Big-endian numbers -----------------------------------------------------------------------

  function Pow256(w: nat): (p: nat)
    ensures p >= 1
  {
    if w == 0 then 1 else 256 * Pow256(w - 1)
  }

  function BigEndian(n: nat, w: nat): (s: seq<Byte>)
    ensures |s| == w
  {
    if w == 0 then [] else BigEndian(n / 256, w - 1) + [n % 256]
  }

  function FromBigEndian(s: seq<Byte>): (n: nat)
    ensures n < Pow256(|s|)
  {
    if s == [] then 0 else 256 * FromBigEndian(s[..|s| - 1]) + s[|s| - 1]
  }

  lemma {:induction false} BigEndianInverts(n: nat, w: nat)
    requires n < Pow256(w)
    ensures FromBigEndian(BigEndian(n, w)) == n
  {
    if w > 0 {
      BigEndianInverts(n / 256, w - 1);
      assert BigEndian(n, w)[..w - 1] == BigEndian(n / 256, w - 1);
    }
  }

  /** The bytes at `at` are the `w` digits of the number to the base 256, the lowest last. */
  ghost predicate NumberAt(data: seq<Byte>, at: nat, n: nat, w: nat) {
    at + w <= |data| && forall i :: 0 <= i < w ==> data[at + w - 1 - i] == n / Pow256(i) % 256
  }

  lemma {:induction false} BigEndianByte(n: nat, w: nat, i: nat)
    requires i < w
    ensures BigEndian(n, w)[i] == n / Pow256(w - 1 - i) % 256
  {
    if i == w - 1 {
      assert Pow256(0) == 1;
    } else {
      BigEndianByte(n / 256, w - 1, i);
      DivideTwice(n, Pow256(w - 2 - i));
      assert BigEndian(n, w)[i] == BigEndian(n / 256, w - 1)[i];
    }
  }

  lemma DivideTwice(n: nat, p: nat)
    requires p > 0
    ensures n / 256 / p == n / (256 * p)
  {
    var q, r := n / 256 / p, n / 256 % p;
    assert n / 256 == q * p + r;
    var m := 256 * r + n % 256;
    assert n == q * (256 * p) + m;
    assert r + 1 <= p;
    assert 256 * r + 256 <= 256 * p;
    QuotientIs(n, 256 * p, q, m);
  }

  lemma QuotientIs(n: nat, d: nat, q: nat, r: nat)
    requires 0 < d && r < d && n == q * d + r
    ensures n / d == q
  {
    if n / d < q {
      MultipleBelow(n / d + 1, q, d);
    } else if n / d > q {
      MultipleBelow(q + 1, n / d, d);
    }
  }

  lemma MultipleBelow(a: nat, b: nat, d: nat)
    requires a <= b
    ensures a * d <= b * d
  {
  }

  lemma HoldsNumber(data: seq<Byte>, at: nat, n: nat, w: nat)
    requires HoldsAt(data, at, BigEndian(n, w))
    ensures NumberAt(data, at, n, w)
  {
    hide BigEndian, Pow256;
    forall i | 0 <= i < w ensures data[at + w - 1 - i] == n / Pow256(i) % 256 {
      BigEndianByte(n, w, w - 1 - i);
      assert data[at..at + w][w - 1 - i] == BigEndian(n, w)[w - 1 - i];
    }
  }

  /** Writing a number that was read gives back its bytes. */
  lemma {:induction false} FromBigEndianInverts(s: seq<Byte>)
    ensures BigEndian(FromBigEndian(s), |s|) == s
  {
    if s != [] {
      FromBigEndianInverts(s[..|s| - 1]);
      assert s == s[..|s| - 1] + [s[|s| - 1]];
    }
  }

  lemma ReadNumber(data: seq<Byte>, at: nat, w: nat)
    requires at + w <= |data|
    ensures NumberAt(data, at, FromBigEndian(data[at..at + w]), w)
  {
    FromBigEndianInverts(data[at..at + w]);
    HoldsNumber(data, at, FromBigEndian(data[at..at + w]), w);
  }

  /** A signed number of `w` bytes as the unsigned number with the same bits. */
  function ToUnsigned(n: int, w: nat): int {
    if n < 0 then n + Pow256(w) else n
  }

  function ToSigned(n: int, w: nat): int {
    if 2 * n >= Pow256(w) then n - Pow256(w) else n
  }

  // ---- Memory as a value ------------------------------------------------------------------------

  /** `data` with `bytes` stored from `offset` on. */
  function Stored(data: seq<Byte>, offset: nat, bytes: seq<Byte>): (data': seq<Byte>)
    requires offset + |bytes| <= |data|
    ensures |data'| == |data|
    ensures data'[offset..offset + |bytes|] == bytes
    ensures forall i :: 0 <= i < |data| && !(offset <= i < offset + |bytes|) ==> data'[i] == data[i]
  {
    data[..offset] + bytes + data[offset + |bytes|..]
  }

  lemma StoredIs(data: seq<Byte>, offset: nat, bytes: seq<Byte>, data': seq<Byte>)
    requires offset + |bytes| <= |data| == |data'|
    requires forall k :: 0 <= k < |data| ==> data'[k] == if offset <= k < offset + |bytes| then bytes[k - offset]
             else data[k]
    ensures data' == Stored(data, offset, bytes)
  {
  }

  ghost predicate HoldsAt(data: seq<Byte>, offset: nat, bytes: seq<Byte>) {
    offset + |bytes| <= |data| && data[offset..offset + |bytes|] == bytes
  }

  /** Two adjacent stores are one. */
  lemma StoredTwice(data: seq<Byte>, offset: nat, first: seq<Byte>, second: seq<Byte>)
    requires offset + |first| + |second| <= |data|
    ensures Stored(Stored(data, offset, first), offset + |first|, second) == Stored(data, offset, first + second)
  {
  }

  lemma HoldsAtSplit(data: seq<Byte>, offset: nat, first: seq<Byte>, second: seq<Byte>)
    ensures HoldsAt(data, offset, first + second) <==>
            HoldsAt(data, offset, first) && HoldsAt(data, offset + |first|, second)
  {
    if HoldsAt(data, offset, first + second) {
      assert data[offset..offset + |first|] == (first + second)[..|first|];
      assert data[offset + |first|..offset + |first| + |second|] == (first + second)[|first|..];
    }
  }

  // ---- Memory in place --------------------------------------------------------------------------

  /** The base region: all of a buffer. */
  class MemoryRegion {
    const data: array<Byte>

    constructor (data: array<Byte>)
      ensures this.data == data
    {
      this.data := data;
    }

    method ReadRaw(offset: nat, length: nat) returns (r: Result<seq<Byte>>)
      ensures r == if offset + length <= data.Length then Ok(data[offset..offset + length]) else OutOfRange
    {
      if data.Length < offset + length {
        return OutOfRange;
      }
      return Ok(data[offset..offset + length]);
    }

    method WriteRaw(src: seq<Byte>, offset: nat) returns (ok: bool)
      modifies data
      ensures ok == (offset + |src| <= data.Length)
      ensures data[..] == if ok then Stored(old(data[..]), offset, src) else old(data[..])
    {
      if data.Length < offset + |src| {
        return false;
      }
      ghost var before := data[..];
      for i := 0 to |src|
        invariant forall k :: 0 <= k < data.Length ==>
                    data[k] == if offset <= k < offset + i then src[k - offset] else before[k]
      {
        data[offset + i] := src[i];
      }
      assert data[..] == Stored(before, offset, src);
      return true;
    }
  }
}
