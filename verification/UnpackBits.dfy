/** Unpacking of PackBits data (`emu/graphics/pict_v1.cc`; section 9 of TIFF 6.0). */
module PackBits {
  import opened Memory

  /** What a flag byte introduces. The flag 0x80 stands for nothing in PackBits. */
  datatype Packet = Literal(bytes: seq<Byte>) | Run(byte: Byte, count: nat) | NoOp

  const NO_OP: Byte := 0x80

  predicate WellFormed(p: Packet) {
    match p
    case Literal(bytes) => 1 <= |bytes| <= 128
    case Run(_, count) => 2 <= count <= 128
    case NoOp => true
  }

  ghost predicate AllWellFormed(ps: seq<Packet>) {
    forall k :: 0 <= k < |ps| ==> WellFormed(ps[k])
  }

  function PackOne(p: Packet): (s: seq<Byte>)
    requires WellFormed(p)
    ensures |s| >= 1
  {
    match p
    case Literal(bytes) => [|bytes| - 1] + bytes
    case Run(byte, count) => [257 - count, byte]
    case NoOp => [NO_OP]
  }

  function Repeated(b: Byte, count: nat): (s: seq<Byte>)
    ensures |s| == count && forall k :: 0 <= k < count ==> s[k] == b
  {
    seq(count, i => b)
  }

  /** The bytes a packet stands for here: a flag of 0x80 stands for itself. */
  function ExpandOne(p: Packet): (s: seq<Byte>)
    requires WellFormed(p)
    ensures |s| >= 1
  {
    match p
    case Literal(bytes) => bytes
    case Run(byte, count) => Repeated(byte, count)
    case NoOp => [NO_OP]
  }

  ghost function Pack(ps: seq<Packet>): seq<Byte>
    requires AllWellFormed(ps)
  {
    if ps == [] then [] else PackOne(ps[0]) + Pack(ps[1..])
  }

  ghost function Expand(ps: seq<Packet>): seq<Byte>
    requires AllWellFormed(ps)
  {
    if ps == [] then [] else ExpandOne(ps[0]) + Expand(ps[1..])
  }

  /** What the format says the packets stand for. */
  ghost function Meaning(ps: seq<Packet>): seq<Byte>
    requires AllWellFormed(ps)
  {
    if ps == [] then [] else (if ps[0].NoOp? then [] else ExpandOne(ps[0])) + Meaning(ps[1..])
  }

  lemma FirstPacket(ps: seq<Packet>)
    requires AllWellFormed(ps) && ps != []
    ensures WellFormed(ps[0]) && AllWellFormed(ps[1..])
    ensures Pack(ps) == PackOne(ps[0]) + Pack(ps[1..]) && Expand(ps) == ExpandOne(ps[0]) + Expand(ps[1..])
  {
  }

  lemma OnlyPacket(p: Packet)
    requires WellFormed(p)
    ensures AllWellFormed([p]) && Pack([p]) == PackOne(p) && Expand([p]) == ExpandOne(p)
    ensures AllWellFormed([]) && Pack([]) == [] && Expand([]) == []
  {
    assert [p][1..] == [];
  }

  lemma AllAppend(ps: seq<Packet>, p: Packet)
    requires AllWellFormed(ps) && WellFormed(p)
    ensures AllWellFormed(ps + [p])
  {
  }

  lemma {:induction false} PackAppend(ps: seq<Packet>, p: Packet)
    requires AllWellFormed(ps) && WellFormed(p)
    ensures AllWellFormed(ps + [p]) && Pack(ps + [p]) == Pack(ps) + PackOne(p)
            && Expand(ps + [p]) == Expand(ps) + ExpandOne(p)
  {
    hide *;
    AllAppend(ps, p);
    OnlyPacket(p);
    if ps == [] {
      assert ps + [p] == [p];
    } else {
      FirstPacket(ps);
      PackAppend(ps[1..], p);
      assert (ps + [p])[1..] == ps[1..] + [p];
      FirstPacket(ps + [p]);
    }
  }

  /** Exactly the packets the format knows expand to what it says. */
  lemma {:induction false} MeansWhatItExpandsTo(ps: seq<Packet>)
    requires AllWellFormed(ps)
    ensures |Meaning(ps)| <= |Expand(ps)|
    ensures Expand(ps) == Meaning(ps) <==> NoOp !in ps
  {
    if ps != [] {
      MeansWhatItExpandsTo(ps[1..]);
      assert ps == [ps[0]] + ps[1..];
      if Expand(ps) == Meaning(ps) && !ps[0].NoOp? {
        var n := |ExpandOne(ps[0])|;
        assert Expand(ps)[n..] == Expand(ps[1..]) && Meaning(ps)[n..] == Meaning(ps[1..]);
      }
    }
  }

  // ---- Unpacking --------------------------------------------------------------------------------

  /** `WrongLength` is the failed check of the length byte. `DestinationEnds` is a store past the end of the
      destination, which the original does not guard. */
  datatype Status = Done | WrongLength | SourceEnds | DestinationEnds

  method StoreRun(dest: array<Byte>, at: nat, byte: Byte, count: nat) returns (ok: bool)
    modifies dest
    ensures ok == (at + count <= dest.Length)
    ensures ok ==> dest[..] == Stored(old(dest[..]), at, Repeated(byte, count))
  {
    if at + count > dest.Length {
      return false;
    }
    ghost var before := dest[..];
    var i := count;
    while i > 0
      invariant 0 <= i <= count
      invariant forall k :: 0 <= k < dest.Length ==> dest[k] == if at <= k < at + count - i then byte else before[k]
    {
      dest[at + count - i] := byte;
      i := i - 1;
    }
    StoredIs(before, at, Repeated(byte, count), dest[..]);
    return true;
  }

  method StoreLiteral(src: seq<Byte>, dest: array<Byte>, at: nat) returns (ok: bool)
    modifies dest
    ensures ok == (at + |src| <= dest.Length)
    ensures ok ==> dest[..] == Stored(old(dest[..]), at, src)
  {
    if at + |src| > dest.Length {
      return false;
    }
    ghost var before := dest[..];
    for i := 0 to |src|
      invariant forall k :: 0 <= k < dest.Length ==> dest[k] == if at <= k < at + i then src[k - at] else before[k]
    {
      dest[at + i] := src[i];
    }
    StoredIs(before, at, src, dest[..]);
    return true;
  }

  /** What a flag byte means: below 0x80, that the flag plus one bytes follow as they are; above, that the next byte
      stands for 257 minus the flag of it. The flag 0x80 stands for itself. */
  lemma FlagMeans(src: seq<Byte>, pos: nat, p: Packet)
    requires WellFormed(p) && HoldsAt(src, pos, PackOne(p))
    ensures pos < |src|
    ensures src[pos] < 0x80 ==>
              && |PackOne(p)| == src[pos] + 2 && pos + 2 + src[pos] <= |src|
              && ExpandOne(p) == src[pos + 1..pos + 2 + src[pos]]
    ensures src[pos] > 0x80 ==>
              && |PackOne(p)| == 2 && pos + 1 < |src| && |ExpandOne(p)| == 257 - src[pos]
              && forall i :: 0 <= i < |ExpandOne(p)| ==> ExpandOne(p)[i] == src[pos + 1]
    ensures src[pos] == 0x80 ==> |PackOne(p)| == 1 && ExpandOne(p) == [0x80]
  {
    var n := |PackOne(p)|;
    assert src[pos] == src[pos..pos + n][0];
    assert n > 1 ==> src[pos + 1] == src[pos..pos + n][1];
    assert src[pos + 1..pos + n] == PackOne(p)[1..];
  }

  lemma FlagTells(src: seq<Byte>, pos: nat, p: Packet)
    requires WellFormed(p) && HoldsAt(src, pos, PackOne(p))
    ensures pos < |src|
    ensures src[pos] > NO_OP ==> pos + 1 < |src|
    ensures src[pos] < NO_OP ==> pos + 2 + src[pos] <= |src|
  {
    assert src[pos] == src[pos..pos + |PackOne(p)|][0];
  }

  /** No packet starts where the source ends too soon for its flag. */
  lemma CutShort(src: seq<Byte>, pos: nat)
    requires pos < |src| ==>
               if src[pos] > NO_OP then |src| <= pos + 1 else src[pos] < NO_OP && |src| < pos + 2 + src[pos]
    ensures forall p :: WellFormed(p) ==> !HoldsAt(src, pos, PackOne(p))
  {
    hide *;
    forall p | WellFormed(p) ensures !HoldsAt(src, pos, PackOne(p)) {
      if HoldsAt(src, pos, PackOne(p)) {
        FlagTells(src, pos, p);
      }
    }
  }

  /** Read the packet at `pos` and store what it stands for at `at`. */
  method UnpackOne(src: seq<Byte>, pos: nat, dest: array<Byte>, at: nat) returns (status: Status, packet: Packet)
    modifies dest
    ensures status.Done? ==> WellFormed(packet) && HoldsAt(src, pos, PackOne(packet))
    ensures status.Done? ==>
              at + |ExpandOne(packet)| <= dest.Length && dest[..] == Stored(old(dest[..]), at, ExpandOne(packet))
    ensures !status.WrongLength?
    ensures !status.Done? ==>
              forall p :: WellFormed(p) && HoldsAt(src, pos, PackOne(p)) ==> dest.Length < at + |ExpandOne(p)|
  {
    packet := NoOp;
    if |src| <= pos {
      CutShort(src, pos);
      return SourceEnds, packet;
    }
    hide Stored, Repeated;
    var flag := src[pos];
    var ok: bool;
    if flag == NO_OP {
      ok := StoreRun(dest, at, flag, 1);
      assert Repeated(flag, 1) == [flag];
      assert src[pos..pos + 1] == [flag];
    } else if flag > NO_OP {
      if |src| <= pos + 1 {
        CutShort(src, pos);
        return SourceEnds, packet;
      }
      packet := Run(src[pos + 1], 257 - flag);
      assert src[pos..pos + 2] == [flag, src[pos + 1]];
      ok := StoreRun(dest, at, packet.byte, packet.count);
    } else {
      if |src| < pos + 2 + flag {
        CutShort(src, pos);
        return SourceEnds, packet;
      }
      packet := Literal(src[pos + 1..pos + 2 + flag]);
      assert src[pos..pos + 2 + flag] == [flag] + packet.bytes;
      ok := StoreLiteral(packet.bytes, dest, at);
    }
    assert HoldsAt(src, pos, PackOne(packet));
    forall p | WellFormed(p) && HoldsAt(src, pos, PackOne(p)) ensures p == packet {
      FirstUnique(src, pos, p, packet);
    }
    status := if ok then Done else DestinationEnds;
  }

  /** The packets take the bytes from `start` on and expand into the destination, and all are needed. */
  ghost predicate Unpacked(src: seq<Byte>, start: nat, before: seq<Byte>, dest: seq<Byte>, dstSize: nat,
                           ps: seq<Packet>) {
    && AllWellFormed(ps) && HoldsAt(src, start, Pack(ps))
    && |Expand(ps)| <= |before| && dest == Stored(before, 0, Expand(ps))
    && (ps != [] ==> |Expand(ps[..|ps| - 1])| < dstSize)
  }

  /** The bytes hold packets that expand to just so many bytes. */
  ghost predicate Serialised(src: seq<Byte>, start: nat, dstSize: nat) {
    exists ps :: AllWellFormed(ps) && HoldsAt(src, start, Pack(ps)) && |Expand(ps)| == dstSize
  }

  /** Unpack until the destination is full. The length byte is compared with the bytes consumed, modulo 256. */
  method UnpackBits(src: seq<Byte>, start: nat, dest: array<Byte>, dstSize: nat)
    returns (status: Status, pos: nat, ghost packets: seq<Packet>)
    modifies dest
    ensures status.Done? || status.WrongLength? ==>
              && start < |src| && Unpacked(src, start + 1, old(dest[..]), dest[..], dstSize, packets)
              && dstSize <= |Expand(packets)| && pos == start + 1 + |Pack(packets)|
              && (status.Done? <==> |Pack(packets)| % 256 == src[start])
    ensures status.SourceEnds? || status.DestinationEnds?
            ==> !Serialised(src, start + 1, dstSize) || dest.Length < dstSize
  {
    hide *;
    packets := [];
    pos := start;
    if |src| <= start {
      status := SourceEnds;
      NothingSerialised(src, start + 1, dstSize);
      return;
    }
    var length := src[pos];
    pos := pos + 1;
    var unpackedIndex := 0;
    var packedIndex := 0;
    ghost var before := dest[..];
    NothingUnpacked(src, pos, before, dstSize);
    while unpackedIndex < dstSize
      invariant Unpacked(src, start + 1, before, dest[..], dstSize, packets) && AllWellFormed(packets)
      invariant unpackedIndex == |Expand(packets)| && pos == start + 1 + |Pack(packets)| <= |src|
      invariant packedIndex == |Pack(packets)| % 256
      decreases |src| - pos
    {
      ghost var stored := dest[..];
      var packet;
      status, packet := UnpackOne(src, pos, dest, unpackedIndex);
      if !status.Done? {
        NoneSerialised(src, start + 1, before, stored, dstSize, packets, dest.Length);
        return;
      }
      OnePacket(src, start + 1, before, stored, dest[..], dstSize, packets, packet);
      WrapAdd(|Pack(packets)|, |PackOne(packet)|);
      packets := packets + [packet];
      packedIndex := (packedIndex + |PackOne(packet)|) % 256;
      pos := pos + |PackOne(packet)|;
      unpackedIndex := unpackedIndex + |ExpandOne(packet)|;
    }
    status := if packedIndex == length then Done else WrongLength;
  }

  lemma WrapAdd(a: nat, b: nat)
    ensures (a % 256 + b) % 256 == (a + b) % 256
  {
  }

  lemma NothingSerialised(src: seq<Byte>, start: nat, dstSize: nat)
    requires |src| < start
    ensures !Serialised(src, start, dstSize)
  {
  }

  /** If no packet follows that fits the destination, the bytes are no serialisation of what it should hold. */
  lemma NoneSerialised(src: seq<Byte>, start: nat, before: seq<Byte>, stored: seq<Byte>, dstSize: nat,
                       done: seq<Packet>, length: nat)
    requires Unpacked(src, start, before, stored, dstSize, done) && AllWellFormed(done) && |Expand(done)| < dstSize
    requires forall p ::
               WellFormed(p) && HoldsAt(src, start + |Pack(done)|, PackOne(p)) ==>
                 length < |Expand(done)| + |ExpandOne(p)|
    ensures !Serialised(src, start, dstSize) || length < dstSize
  {
    if Serialised(src, start, dstSize) {
      var ps :| AllWellFormed(ps) && HoldsAt(src, start, Pack(ps)) && |Expand(ps)| == dstSize;
      hide Pack, Expand, PackOne, ExpandOne, HoldsAt, AllWellFormed, WellFormed;
      var p := NextPacket(src, start, done, ps);
    }
  }

  lemma {:induction false} NextPacket(src: seq<Byte>, at: nat, done: seq<Packet>, ps: seq<Packet>) returns (p: Packet)
    requires AllWellFormed(done) && AllWellFormed(ps) && HoldsAt(src, at, Pack(done)) && HoldsAt(src, at, Pack(ps))
    requires |Expand(done)| < |Expand(ps)|
    ensures WellFormed(p) && HoldsAt(src, at + |Pack(done)|, PackOne(p))
            && |Expand(done)| + |ExpandOne(p)| <= |Expand(ps)|
    decreases |done|
  {
    hide *;
    NoPackets();
    assert ps != [];
    FirstPacket(ps);
    HoldsAtSplit(src, at, PackOne(ps[0]), Pack(ps[1..]));
    if done == [] {
      p := ps[0];
    } else {
      FirstPacket(done);
      HoldsAtSplit(src, at, PackOne(done[0]), Pack(done[1..]));
      FirstUnique(src, at, done[0], ps[0]);
      p := NextPacket(src, at + |PackOne(done[0])|, done[1..], ps[1..]);
    }
  }

  lemma NothingUnpacked(src: seq<Byte>, start: nat, before: seq<Byte>, dstSize: nat)
    requires start <= |src|
    ensures AllWellFormed([]) && Unpacked(src, start, before, before, dstSize, []) && Pack([]) == [] && Expand([]) == []
  {
  }

  lemma OnePacket(src: seq<Byte>, start: nat, before: seq<Byte>, stored: seq<Byte>, dest: seq<Byte>, dstSize: nat,
                  ps: seq<Packet>, p: Packet)
    requires WellFormed(p) && Unpacked(src, start, before, stored, dstSize, ps) && |Expand(ps)| < dstSize
    requires HoldsAt(src, start + |Pack(ps)|, PackOne(p))
    requires |Expand(ps)| + |ExpandOne(p)| <= |stored| && dest == Stored(stored, |Expand(ps)|, ExpandOne(p))
    ensures AllWellFormed(ps + [p]) && Unpacked(src, start, before, dest, dstSize, ps + [p])
    ensures start + |Pack(ps + [p])| <= |src|
    ensures Pack(ps + [p]) == Pack(ps) + PackOne(p) && Expand(ps + [p]) == Expand(ps) + ExpandOne(p)
  {
    hide *;
    UnpackedParts(src, start, before, stored, dstSize, ps);
    PackAppend(ps, p);
    HoldsAtSplit(src, start, Pack(ps), PackOne(p));
    StoredTwice(before, 0, Expand(ps), ExpandOne(p));
    assert (ps + [p])[..|ps|] == ps;
    UnpackedFrom(src, start, before, dest, dstSize, ps + [p]);
  }

  lemma UnpackedFrom(src: seq<Byte>, start: nat, before: seq<Byte>, dest: seq<Byte>, dstSize: nat, ps: seq<Packet>)
    requires AllWellFormed(ps) && HoldsAt(src, start, Pack(ps))
    requires |Expand(ps)| <= |before| && dest == Stored(before, 0, Expand(ps))
    requires ps != [] ==> AllWellFormed(ps[..|ps| - 1]) && |Expand(ps[..|ps| - 1])| < dstSize
    ensures Unpacked(src, start, before, dest, dstSize, ps) && start + |Pack(ps)| <= |src|
  {
  }

  /** Bytes hold the packets of one serialisation only. */
  lemma {:induction false} PacketsUnique(src: seq<Byte>, at: nat, dstSize: nat, a: seq<Packet>, b: seq<Packet>)
    requires AllWellFormed(a) && AllWellFormed(b) && HoldsAt(src, at, Pack(a)) && HoldsAt(src, at, Pack(b))
    requires |Expand(a)| == dstSize && |Expand(b)| >= dstSize
    requires b != [] ==> AllWellFormed(b[..|b| - 1]) && |Expand(b[..|b| - 1])| < dstSize
    ensures a == b
    decreases |a|
  {
    hide *;
    NoPackets();
    if a != [] {
      FirstPacket(a);
      if b != [] {
        FirstPacket(b);
        HoldsAtSplit(src, at, PackOne(a[0]), Pack(a[1..]));
        HoldsAtSplit(src, at, PackOne(b[0]), Pack(b[1..]));
        FirstUnique(src, at, a[0], b[0]);
        if |b| > 1 {
          FirstPacket(b[..|b| - 1]);
          assert b[..|b| - 1][0] == b[0] && b[..|b| - 1][1..] == b[1..][..|b| - 2];
        }
        PacketsUnique(src, at + |PackOne(a[0])|, dstSize - |ExpandOne(a[0])|, a[1..], b[1..]);
        assert a == [a[0]] + a[1..] && b == [b[0]] + b[1..];
      }
    }
  }

  lemma NoPackets()
    ensures AllWellFormed([]) && Pack([]) == [] && Expand([]) == []
  {
  }

  lemma FirstUnique(src: seq<Byte>, at: nat, p: Packet, q: Packet)
    requires WellFormed(p) && WellFormed(q) && HoldsAt(src, at, PackOne(p)) && HoldsAt(src, at, PackOne(q))
    ensures p == q
  {
    assert src[at] == PackOne(p)[0] == PackOne(q)[0];
    assert |PackOne(p)| > 1 ==> PackOne(p)[1..] == src[at + 1..at + |PackOne(p)|];
  }

  lemma LengthByte(src: seq<Byte>, start: nat, b: Byte)
    requires HoldsAt(src, start, [b])
    ensures start < |src| && src[start] == b
  {
    assert src[start] == src[start..start + 1][0];
  }

  lemma UnpackedParts(src: seq<Byte>, start: nat, before: seq<Byte>, dest: seq<Byte>, dstSize: nat, ps: seq<Packet>)
    requires Unpacked(src, start, before, dest, dstSize, ps)
    ensures AllWellFormed(ps) && HoldsAt(src, start, Pack(ps))
    ensures |Expand(ps)| <= |before| && dest == Stored(before, 0, Expand(ps))
    ensures ps != [] ==> AllWellFormed(ps[..|ps| - 1]) && |Expand(ps[..|ps| - 1])| < dstSize
  {
  }

  /** Unpacking inverts every serialisation of literal and run packets whose expansion fills the destination and whose
      length fits the length byte: it consumes just those packets and stores just what they mean. */
  lemma UnpackInverts(src: seq<Byte>, start: nat, before: seq<Byte>, dest: seq<Byte>, packed: seq<Packet>,
                      unpacked: seq<Packet>)
    requires AllWellFormed(packed) && NoOp !in packed && |Pack(packed)| < 256
    requires HoldsAt(src, start, [|Pack(packed)| as Byte] + Pack(packed))
    requires Unpacked(src, start + 1, before, dest, |Expand(packed)|, unpacked)
             && |Expand(packed)| <= |Expand(unpacked)|
    ensures unpacked == packed
    ensures |Pack(unpacked)| % 256 == src[start]
    ensures |Meaning(packed)| <= |before| && dest == Stored(before, 0, Meaning(packed))
  {
    hide *;
    var length := [|Pack(packed)| as Byte];
    HoldsAtSplit(src, start, length, Pack(packed));
    LengthByte(src, start, |Pack(packed)|);
    UnpackedParts(src, start + 1, before, dest, |Expand(packed)|, unpacked);
    PacketsUnique(src, start + 1, |Expand(packed)|, packed, unpacked);
    MeansWhatItExpandsTo(packed);
  }
}
