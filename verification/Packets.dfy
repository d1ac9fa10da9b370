/** Sending block data as packets: gathering from a list of buffers, splitting so that
    no checksum covers bytes from two checksum units of the block. */
module Packets {
  import opened Common
  import opened Words
  import opened Crc32cSpec

  /** A piece of the data to send; without `data` it stands for `len` zeros. */
  datatype Buffer = Real(data: seq<Byte>) | Zeros(len: nat) {
    function Len(): nat {
      if Real? then |data| else len
    }

    function Bytes(): (r: seq<Byte>)
      ensures |r| == Len()
    {
      if Real? then data else seq(len, _ => 0)
    }
  }

  /** Where a buffer has no data, zeros are sent. */
  lemma BufferBytes(b: Buffer, i: nat)
    requires i < b.Len()
    ensures |b.Bytes()| == (match b case Real(data) => |data| case Zeros(len) => len)
    ensures b.Bytes()[i] == match b case Real(data) => data[i] case Zeros(_) => 0
  {
  }

  function Flatten(buffers: seq<Buffer>): seq<Byte> {
    if buffers == [] then [] else Flatten(buffers[..|buffers| - 1]) + buffers[|buffers| - 1].Bytes()
  }

  lemma {:induction false} FlattenPrefix(buffers: seq<Buffer>, i: nat)
    requires i <= |buffers|
    ensures Flatten(buffers[..i]) <= Flatten(buffers)
    ensures i < |buffers| ==> Flatten(buffers[..i]) + buffers[i].Bytes() == Flatten(buffers[..i + 1])
    decreases |buffers| - i
  {
    if i == |buffers| {
      assert buffers[..i] == buffers;
    } else {
      assert buffers[..i + 1][..i] == buffers[..i];
      FlattenPrefix(buffers, i + 1);
    }
  }

  /** Copies `n` bytes of `buffer`, from `offset` on, to `packet` at `written`. */
  method CopyIn(packet: array<Byte>, written: nat, buffer: Buffer, offset: nat, n: nat)
    requires written + n <= packet.Length && offset + n <= buffer.Len()
    modifies packet
    ensures packet[..written + n] == old(packet[..written]) + buffer.Bytes()[offset..offset + n]
  {
    if buffer.Real? {
      forall k | 0 <= k < n { packet[written + k] := buffer.data[offset + k]; }
    } else {
      forall k | 0 <= k < n { packet[written + k] := 0; }
    }
    assert packet[..written] == old(packet[..written]);
    assert packet[written..written + n] == buffer.Bytes()[offset..offset + n];
    assert packet[..written + n] == packet[..written] + packet[written..written + n];
  }

  /** The wanted part of buffer `i`, where the bytes from `at` on have been taken up to `written`. */
  lemma GatherStep(buffers: seq<Buffer>, i: nat, at: nat, len: nat, written: nat)
    requires i < |buffers| && written < len && at + len <= |Flatten(buffers)|
    requires var idx := |Flatten(buffers[..i])|; if idx > at then idx == at + written else written == 0
    ensures var idx, n := |Flatten(buffers[..i])|, buffers[i].Len();
      && |Flatten(buffers[..i + 1])| == idx + n <= |Flatten(buffers)|
      && (idx + n > at ==>
            var offset := if idx > at then 0 else at - idx;
            var towrite := Min(len - written, n - offset);
            && offset <= n && idx + offset == at + written
            && buffers[i].Bytes()[offset..offset + towrite] ==
                 Flatten(buffers)[at + written..at + written + towrite]
            && (towrite < len - written ==> idx + n == at + written + towrite))
  {
    hide Flatten;
    FlattenAt(buffers, i);
    var all, idx, n := Flatten(buffers), |Flatten(buffers[..i])|, buffers[i].Len();
    if idx + n > at {
      var offset := if idx > at then 0 else at - idx;
      Subslice(all, idx, n, offset, Min(len - written, n - offset));
    }
  }

  lemma FlattenAt(buffers: seq<Buffer>, i: nat)
    requires i < |buffers|
    ensures var idx, n := |Flatten(buffers[..i])|, buffers[i].Len();
      && |Flatten(buffers[..i + 1])| == idx + n <= |Flatten(buffers)|
      && buffers[i].Bytes() == Flatten(buffers)[idx..idx + n]
  {
    hide Flatten;
    FlattenPrefix(buffers, i);
    FlattenPrefix(buffers, i + 1);
  }

  lemma Subslice(s: seq<Byte>, lo: nat, n: nat, offset: nat, k: nat)
    requires lo + n <= |s| && offset + k <= n
    ensures s[lo..lo + n][offset..offset + k] == s[lo + offset..lo + offset + k]
  {
    var a, b := s[lo..lo + n][offset..offset + k], s[lo + offset..lo + offset + k];
    forall i | 0 <= i < k ensures a[i] == b[i] {
      assert a[i] == s[lo..lo + n][offset + i] == s[lo + (offset + i)];
    }
  }

  lemma Join(s: seq<Byte>, at: nat, a: nat, b: nat)
    requires at + a + b <= |s|
    ensures s[at..at + a] + s[at + a..at + a + b] == s[at..at + (a + b)]
  {
  }

  /** Takes from buffer `i` what belongs to the packet.  If that is all of it, the packet is read
      straight from the buffer. */
  method TakeBuffer(buffers: seq<Buffer>, i: nat, idx: nat, at: nat, len: nat, assembled: array<Byte>, written: nat)
    returns (written': nat, direct: bool, packet: seq<Byte>)
    requires i < |buffers| && written < len == assembled.Length && at + len <= |Flatten(buffers)|
    requires idx == |Flatten(buffers[..i])| && if idx > at then idx == at + written else written == 0
    requires assembled[..written] == Flatten(buffers)[at..at + written]
    modifies assembled
    ensures direct ==> packet == Flatten(buffers)[at..at + len]
    ensures !direct ==>
      && written' <= len && assembled[..written'] == Flatten(buffers)[at..at + written']
      && (written' < len ==>
            var idx' := |Flatten(buffers[..i + 1])|; if idx' > at then idx' == at + written' else written' == 0)
  {
    hide Flatten, Buffer.Bytes, Buffer.Len;
    GatherStep(buffers, i, at, len, written);
    var buffer := buffers[i];
    written', direct, packet := written, false, [];
    if idx + buffer.Len() > at {
      var offset := if idx > at then 0 else at - idx;
      var towrite := Min(len - written, buffer.Len() - offset);
      if towrite == len {
        direct, packet := true, buffer.Bytes()[offset..offset + len];
      } else {
        CopyIn(assembled, written, buffer, offset, towrite);
        Join(Flatten(buffers), at, written, towrite);
        written' := written + towrite;
      }
    }
  }

  lemma FlattenEnds(buffers: seq<Buffer>)
    ensures Flatten(buffers[..0]) == [] && buffers[..|buffers|] == buffers
  {
  }

  /** Assembles the `len` bytes from `at` on, out of as many buffers as they lie in. */
  method Gather(buffers: seq<Buffer>, at: nat, len: nat) returns (packet: seq<Byte>)
    requires at + len <= |Flatten(buffers)| && len > 0
    ensures packet == Flatten(buffers)[at..at + len]
  {
    hide Flatten;
    FlattenEnds(buffers);
    var assembled := new Byte[len](_ => 0);
    var idx: nat, written: nat, i: nat := 0, 0, 0;
    while i < |buffers| && written < len
      invariant i <= |buffers| && written <= len
      invariant idx == |Flatten(buffers[..i])|
      invariant written < len ==> if idx > at then idx == at + written else written == 0
      invariant assembled[..written] == Flatten(buffers)[at..at + written]
    {
      var direct;
      written, direct, packet := TakeBuffer(buffers, i, idx, at, len, assembled, written);
      if direct {
        return;
      }
      FlattenAt(buffers, i);
      idx, i := idx + buffers[i].Len(), i + 1;
    }
    assert written == len && assembled[..len] == assembled[..];
    packet := assembled[..];
  }

  // ---------------------------------------------------------------- one packet

  datatype ChecksumType = Crc32c | Crc32 | NoChecksum | OtherChecksum

  /** What goes over the wire for one packet. */
  datatype Packet = Packet(seqno: nat, offset: nat, last: bool, checksums: seq<nat>, data: seq<Byte>)

  /** What becomes of a packet: accepted or refused by the other side, or not written for an error. */
  datatype Answer = Accepted | Refused(code: nat) | Unsent(code: nat) {
    function Result(): int {
      if Accepted? then 0 else -1 - code
    }
  }

  /** A call returns a code, or stops at a failed assertion. */
  datatype Outcome = Returned(res: int) | AssertionFailed

  const ENOSYS: int := 38

  /** A checksum for each unit of the data, the last of which may be short. */
  function Checksums(data: seq<Byte>, unit: nat): seq<nat>
    requires unit > 0
    decreases |data|
  {
    if |data| <= unit then (if data == [] then [] else [Crc(0, data)])
    else [Crc(0, data[..unit])] + Checksums(data[unit..], unit)
  }

  function RoundUp(num: nat, multiple: nat): nat
    requires multiple > 0
  {
    (num + multiple - 1) / multiple
  }

  /** Checksum `i` is that of the unit that starts at `at`. */
  lemma {:induction false} ChecksumsAt(data: seq<Byte>, unit: nat, i: nat, at: nat)
    requires unit > 0 && at == i * unit && at < |data|
    ensures i < |Checksums(data, unit)|
    ensures Checksums(data, unit)[i] == Crc(0, data[at..Min(at + unit, |data|)])
    decreases i
  {
    hide Checksums, Crc;
    ChecksumsUnfold(data, unit);
    if i == 0 {
      assert data[0..Min(unit, |data|)] == if |data| <= unit then data else data[..unit];
    } else {
      PreviousProduct(i, unit, at);
      ChecksumsAt(data[unit..], unit, i - 1, at - unit);
      DropSlice(data, unit, at - unit, Min(at, |data| - unit));
    }
  }

  lemma ChecksumsUnfold(data: seq<Byte>, unit: nat)
    requires unit > 0 && data != []
    ensures Checksums(data, unit) ==
      if |data| <= unit then [Crc(0, data)] else [Crc(0, data[..unit])] + Checksums(data[unit..], unit)
  {
    hide Crc;
  }

  lemma PreviousProduct(i: nat, unit: nat, at: nat)
    requires i > 0 && at == i * unit
    ensures at - unit == (i - 1) * unit && at >= unit
  {
    assert (i - 1) * unit == i * unit - unit;
  }

  lemma DropSlice(s: seq<Byte>, n: nat, from: nat, to: nat)
    requires n <= |s| && from <= to <= |s| - n
    ensures s[n..][from..to] == s[n + from..n + to]
  {
  }

  lemma {:induction false} ChecksumsCount(data: seq<Byte>, unit: nat)
    requires unit > 0
    ensures |Checksums(data, unit)| == RoundUp(|data|, unit)
    decreases |data|
  {
    hide Crc;
    if |data| > unit {
      ChecksumsCount(data[unit..], unit);
      assert (|data| - unit) + unit - 1 == |data| - 1;
      DivAddOne(|data| - 1, unit);
    } else if data == [] {
      DivSmall(unit - 1, unit);
    } else {
      DivAddOne(|data| - 1, unit);
      DivSmall(|data| - 1, unit);
    }
  }

  lemma DivSmall(a: nat, d: nat)
    requires a < d
    ensures a / d == 0
  {
    ModUnique(a, d, 0, a);
  }

  lemma DivAddOne(a: nat, d: nat)
    requires d > 0
    ensures (a + d) / d == a / d + 1
  {
    ModUnique(a + d, d, a / d + 1, a % d);
  }

  method ComputeChecksums(packet: seq<Byte>, unit: nat, count: nat) returns (sums: seq<nat>)
    requires unit > 0 && count == RoundUp(|packet|, unit)
    ensures sums == Checksums(packet, unit)
  {
    hide Checksums, Crc, RoundUp;
    ChecksumsCount(packet, unit);
    sums := [];
    for i := 0 to count
      invariant |sums| == i && sums == Checksums(packet, unit)[..i]
    {
      var sum := ChecksumAt(packet, unit, i);
      sums := sums + [sum];
    }
  }

  method ChecksumAt(packet: seq<Byte>, unit: nat, i: nat) returns (sum: nat)
    requires unit > 0 && i < RoundUp(|packet|, unit)
    ensures i < |Checksums(packet, unit)| && sum == Checksums(packet, unit)[i]
  {
    hide Checksums, Crc, RoundUp;
    RoundUpBound(|packet|, unit, i);
    var packetidx := i * unit;
    ChecksumsAt(packet, unit, i, packetidx);
    sum := Crc(0, packet[packetidx..packetidx + Min(unit, |packet| - packetidx)]);
  }

  lemma RoundUpBound(num: nat, multiple: nat, i: nat)
    requires multiple > 0 && i < RoundUp(num, multiple)
    ensures i * multiple < num
  {
    var q := RoundUp(num, multiple);
    assert multiple * q <= num + multiple - 1;
    MulStep(multiple, i, q);
  }

  /** The caller's position in its buffers, moved on by the packets sent. */
  class BufferPos {
    const buffers: seq<Buffer>
    const len: nat
    var bufferoffset: nat

    ghost predicate Valid()
      reads this
    {
      len == |Flatten(buffers)|
    }

    ghost function Rest(): seq<Byte>
      reads this
      requires Valid() && bufferoffset <= len
    {
      Flatten(buffers)[bufferoffset..]
    }
  }

  /** Sends one packet with the next `len` bytes; an empty packet ends the block. */
  method SendPacket(seqno: nat, from: BufferPos, len: nat, blockoffset: nat,
                    kind: ChecksumType, unit: nat, answer: Answer)
    returns (outcome: Outcome, sent: seq<Packet>)
    requires from.Valid() && from.bufferoffset <= from.len && unit > 0
    modifies from`bufferoffset
    ensures len > from.len - old(from.bufferoffset) ==>
      outcome == AssertionFailed && sent == [] && from.bufferoffset == old(from.bufferoffset)
    ensures len <= from.len - old(from.bufferoffset) && (kind.Crc32? || kind.OtherChecksum?) ==>
      outcome == Returned(-ENOSYS) && sent == [] && from.bufferoffset == old(from.bufferoffset)
    ensures len <= from.len - old(from.bufferoffset) && (kind.Crc32c? || kind.NoChecksum?) ==>
      && outcome == Returned(answer.Result())
      && from.bufferoffset == old(from.bufferoffset) + (if answer.Unsent? then 0 else len)
      && sent == if answer.Unsent? then []
           else [PacketOf(seqno, blockoffset, old(from.Rest())[..len], kind, unit)]
  {
    assert Checksums([], unit) == [];
    hide Flatten, Checksums, RoundUp;
    sent := [];
    if len > from.len - from.bufferoffset {
      return AssertionFailed, [];
    }
    if kind.Crc32? || kind.OtherChecksum? {
      return Returned(-ENOSYS), [];
    }
    var nChecksums := RoundUp(len, unit);
    var packet, sums := [], [];
    if len > 0 {
      packet := Gather(from.buffers, from.bufferoffset, len);
      assert packet == from.Rest()[..len];
      if kind.Crc32c? {
        sums := ComputeChecksums(packet, unit, nChecksums);
      }
    }
    if answer.Unsent? {
      return Returned(answer.Result()), [];
    }
    if len > 0 {
      from.bufferoffset := from.bufferoffset + len;
    }
    sent := [Packet(seqno, blockoffset, len == 0, sums, packet)];
    outcome := Returned(answer.Result());
  }

  function PacketOf(seqno: nat, offset: nat, data: seq<Byte>, kind: ChecksumType, unit: nat): Packet
    requires unit > 0
  {
    Packet(seqno, offset, data == [], if kind.Crc32c? then Checksums(data, unit) else [], data)
  }

  // ---------------------------------------------------------------- a block

  const WORD64: nat := 0x1_0000_0000_0000_0000

  /** The length of a packet at `offset` of the block when `left` bytes remain: a packet that starts
      inside a checksum unit holds the rest of that unit only. */
  function NextLength(left: nat, offset: nat, packetsize: nat, unit: nat): nat
    requires unit > 0
  {
    if Min(left, packetsize) > 0 && offset % unit != 0 then unit - offset % unit else Min(left, packetsize)
  }

  /** From a unit boundary a packet is as long as the packet size and the data allow; from elsewhere it goes to
      the next boundary. */
  lemma NextLengthMeaning(left: nat, offset: nat, packetsize: nat, unit: nat)
    requires unit > 0 && left > 0 && packetsize > 0
    ensures var n := NextLength(left, offset, packetsize, unit);
      if offset % unit == 0 then n <= left && n <= packetsize && (n == left || n == packetsize)
      else 0 < n < unit && (offset + n) % unit == 0
  {
    var past, q := offset % unit, offset / unit;
    if past != 0 {
      assert offset + (unit - past) == unit * (q + 1);
      ModUnique(offset + (unit - past), unit, q + 1, 0);
    }
  }

  /** The rest of a unit begun earlier is not longer than what remains to be sent. */
  predicate Aligned(left: nat, offset: nat, unit: nat)
    requires unit > 0
  {
    left == 0 || offset % unit == 0 || unit - offset % unit <= left
  }

  /** The bytes up to the first unit boundary. */
  function ToBoundary(offset: nat, unit: nat): nat
    requires unit > 0
  {
    if offset % unit == 0 then 0 else unit - offset % unit
  }

  /** The least whole number of units longer than a packet. */
  function Stride(packetsize: nat, unit: nat): nat
    requires unit > 0
  {
    packetsize - packetsize % unit + unit
  }

  /** No packet will be planned past the end of the data: the data reaches the first boundary, and does
      not end in the rest of a unit that a full packet broke off in. */
  predicate Fits(left: nat, offset: nat, packetsize: nat, unit: nat)
    requires unit > 0
  {
    left == 0 ||
      var first := ToBoundary(offset, unit);
      && first <= left
      && (packetsize % unit == 0 || (left - first) % Stride(packetsize, unit) <= packetsize)
  }

  /** With packets of whole units, only the first boundary matters. */
  lemma WholeUnitsFit(left: nat, offset: nat, packetsize: nat, unit: nat)
    requires unit > 0 && packetsize % unit == 0
    ensures Fits(left, offset, packetsize, unit) <==> Aligned(left, offset, unit)
  {
  }

  /** A packet is planned past the end exactly when the unit begun earlier ends there. */
  lemma OvershootIffUnaligned(left: nat, offset: nat, packetsize: nat, unit: nat)
    requires unit > 0 && packetsize > 0
    ensures NextLength(left, offset, packetsize, unit) > left <==> !Aligned(left, offset, unit)
  {
  }

  /** Data that ends in the unit it starts in, and data that ends in a unit a short packet began. */
  lemma Misfits()
    ensures !Fits(1, 1, 4, 4) && NextLength(1, 1, 4, 4) == 3
    ensures !Fits(3, 0, 2, 4) && NextLength(3, 0, 2, 4) == 2 && NextLength(1, 2, 2, 4) == 2
  {
  }

  /** The condition is exact at every packet: it holds before one if and only if the packet stays within
      the data and it holds after it. */
  lemma FitsNext(left: nat, offset: nat, packetsize: nat, unit: nat)
    requires unit > 0 && packetsize > 0 && left > 0
    ensures var n := NextLength(left, offset, packetsize, unit);
      && n > 0
      && (Fits(left, offset, packetsize, unit) <==> n <= left && Fits(left - n, offset + n, packetsize, unit))
  {
    var n := NextLength(left, offset, packetsize, unit);
    var past, q := offset % unit, offset / unit;
    assert offset == unit * q + past;
    if past != 0 {
      ModUnique(offset + n, unit, q + 1, 0);
      StrideBeyond(packetsize, unit);
    } else if left <= packetsize {
      StrideBeyond(packetsize, unit);
      FitsShort(left, packetsize, unit);
    } else {
      FullPacket(left, offset, packetsize, unit);
    }
  }

  lemma StrideBeyond(packetsize: nat, unit: nat)
    requires unit > 0
    ensures Stride(packetsize, unit) > packetsize
    ensures 0 % Stride(packetsize, unit) == 0
  {
  }

  lemma FitsShort(left: nat, packetsize: nat, unit: nat)
    requires unit > 0 && left <= packetsize
    ensures left % Stride(packetsize, unit) == left
  {
    StrideBeyond(packetsize, unit);
    ModUnique(left, Stride(packetsize, unit), 0, left);
  }

  lemma FullPacket(left: nat, offset: nat, packetsize: nat, unit: nat)
    requires unit > 0 && 0 < packetsize < left && offset % unit == 0
    ensures Fits(left, offset, packetsize, unit) <==> Fits(left - packetsize, offset + packetsize, packetsize, unit)
  {
    var r, s := packetsize % unit, Stride(packetsize, unit);
    ModOfSum(offset, packetsize, unit);
    if r != 0 {
      StrideBeyond(packetsize, unit);
      if left < s {
        ModUnique(left, s, 0, left);
      } else {
        ModStep(left, s);
      }
    }
  }

  lemma ModOfSum(a: nat, b: nat, d: nat)
    requires d > 0 && a % d == 0
    ensures (a + b) % d == b % d
  {
    var p, q := a / d, b / d;
    assert d * (p + q) == d * p + d * q;
    ModUnique(a + b, d, p + q, b % d);
  }

  lemma ModStep(a: nat, d: nat)
    requires 0 < d <= a
    ensures a % d == (a - d) % d
  {
    var q := a / d;
    assert a == d * q + a % d;
    assert d * (q - 1) == d * q - d;
    ModUnique(a - d, d, q - 1, a % d);
  }

  /** The packets of a block: `data` from `offset` on. */
  ghost function Block(data: seq<Byte>, offset: nat, seqno: nat, packetsize: nat, kind: ChecksumType, unit: nat): seq<Packet>
    requires unit > 0 && packetsize > 0 && Fits(|data|, offset, packetsize, unit)
    decreases |data|
  {
    if data == [] then [PacketOf(seqno, offset, [], kind, unit)]
    else
      FitsNext(|data|, offset, packetsize, unit);
      var n := NextLength(|data|, offset, packetsize, unit);
      [PacketOf(seqno, offset, data[..n], kind, unit)]
        + Block(data[n..], offset + n, seqno + 1, packetsize, kind, unit)
  }

  function Data(packets: seq<Packet>): seq<Byte> {
    if packets == [] then [] else packets[0].data + Data(packets[1..])
  }

  /** Packets that follow on from each other: numbers count up, each offset is where the data so far
      ends, and only the last packet is empty and says it is last. */
  ghost predicate Framed(b: seq<Packet>, offset: nat, seqno: nat) {
    b != [] && forall i :: 0 <= i < |b| ==>
      && b[i].seqno == seqno + i && b[i].offset == offset + |Data(b[..i])|
      && (b[i].last <==> i == |b| - 1) && (b[i].data == [] <==> i == |b| - 1)
  }

  lemma FramedCons(p: Packet, b: seq<Packet>, offset: nat, seqno: nat)
    requires p.seqno == seqno && p.offset == offset && !p.last && p.data != []
    requires Framed(b, offset + |p.data|, seqno + 1)
    ensures Framed([p] + b, offset, seqno)
  {
    var c := [p] + b;
    forall i | 0 <= i < |c|
      ensures c[i].seqno == seqno + i && c[i].offset == offset + |Data(c[..i])|
      ensures (c[i].last <==> i == |c| - 1) && (c[i].data == [] <==> i == |c| - 1)
    {
      if i > 0 {
        assert c[i] == b[i - 1] && c[..i][1..] == b[..i - 1];
      }
    }
  }

  /** What the packets of a block say: their data fields are the data, in order and complete. */
  lemma {:induction false} BlockMeaning(data: seq<Byte>, offset: nat, seqno: nat, packetsize: nat, kind: ChecksumType, unit: nat)
    requires unit > 0 && packetsize > 0 && Fits(|data|, offset, packetsize, unit)
    ensures var b := Block(data, offset, seqno, packetsize, kind, unit);
      Data(b) == data && Framed(b, offset, seqno)
    decreases |data|
  {
    hide Checksums, NextLength, Fits, Framed, Block, Data;
    if data == [] {
      BlockEmpty(offset, seqno, packetsize, kind, unit);
    } else {
      var n := BlockUnfold(data, offset, seqno, packetsize, kind, unit);
      BlockMeaning(data[n..], offset + n, seqno + 1, packetsize, kind, unit);
      var p, rest := PacketOf(seqno, offset, data[..n], kind, unit),
                     Block(data[n..], offset + n, seqno + 1, packetsize, kind, unit);
      FramedCons(p, rest, offset, seqno);
      DataCons(p, rest);
      assert data == data[..n] + data[n..];
    }
  }

  lemma DataCons(p: Packet, rest: seq<Packet>)
    ensures Data([p] + rest) == p.data + Data(rest)
  {
    assert ([p] + rest)[1..] == rest;
  }

  lemma BlockEmpty(offset: nat, seqno: nat, packetsize: nat, kind: ChecksumType, unit: nat)
    requires unit > 0 && packetsize > 0
    ensures var b := Block([], offset, seqno, packetsize, kind, unit); Data(b) == [] && Framed(b, offset, seqno)
  {
    hide Checksums;
    var b := Block([], offset, seqno, packetsize, kind, unit);
    assert b == [PacketOf(seqno, offset, [], kind, unit)];
    assert b[..0] == [] && Data(b[1..]) == [];
  }

  lemma BlockUnfold(data: seq<Byte>, offset: nat, seqno: nat, packetsize: nat, kind: ChecksumType, unit: nat)
    returns (n: nat)
    requires unit > 0 && packetsize > 0 && Fits(|data|, offset, packetsize, unit) && data != []
    ensures n == NextLength(|data|, offset, packetsize, unit) && 0 < n <= |data|
    ensures Fits(|data[n..]|, offset + n, packetsize, unit)
    ensures Block(data, offset, seqno, packetsize, kind, unit) ==
      [PacketOf(seqno, offset, data[..n], kind, unit)] + Block(data[n..], offset + n, seqno + 1, packetsize, kind, unit)
  {
    hide Checksums;
    FitsNext(|data|, offset, packetsize, unit);
    n := NextLength(|data|, offset, packetsize, unit);
  }

  /** Each packet's length, and the checksums it carries. */
  ghost predicate Planned(p: Packet, end: nat, packetsize: nat, kind: ChecksumType, unit: nat)
    requires unit > 0
  {
    && p.offset + |p.data| <= end
    && p.checksums == (if kind == Crc32c then Checksums(p.data, unit) else [])
    && (p.offset < end ==>
          if p.offset % unit == 0 then |p.data| == Min(packetsize, end - p.offset)
          else |p.data| == unit - p.offset % unit)
  }

  lemma {:induction false} BlockPlanned(data: seq<Byte>, offset: nat, seqno: nat, packetsize: nat, kind: ChecksumType,
                                        unit: nat)
    requires unit > 0 && packetsize > 0 && Fits(|data|, offset, packetsize, unit)
    ensures forall p :: p in Block(data, offset, seqno, packetsize, kind, unit) ==>
      Planned(p, offset + |data|, packetsize, kind, unit)
    decreases |data|
  {
    hide Checksums;
    if data == [] {
      EmptyChecksums(unit);
    } else {
      var n := BlockUnfold(data, offset, seqno, packetsize, kind, unit);
      hide Fits, Block;
      BlockPlanned(data[n..], offset + n, seqno + 1, packetsize, kind, unit);
    }
  }

  lemma EmptyChecksums(unit: nat)
    requires unit > 0
    ensures Checksums([], unit) == []
  {
  }

  /** No checksum covers bytes on both sides of a unit boundary of the block. */
  ghost predicate WithinUnits(p: Packet, unit: nat)
    requires unit > 0
  {
    forall i :: 0 <= i && i * unit < |p.data| ==>
      var first, last := p.offset + i * unit, p.offset + Min(i * unit + unit, |p.data|) - 1;
      first / unit == last / unit
  }

  lemma PacketWithinUnits(p: Packet, left: nat, packetsize: nat, unit: nat)
    requires unit > 0 && |p.data| <= NextLength(left, p.offset, packetsize, unit)
    ensures WithinUnits(p, unit)
  {
    assert p.offset % unit != 0 ==> |p.data| <= unit - p.offset % unit;
    hide NextLength;
    forall i: nat | i * unit < |p.data|
      ensures (p.offset + i * unit) / unit == (p.offset + Min(i * unit + unit, |p.data|) - 1) / unit
    {
      if p.offset % unit != 0 {
        UnitOnly(i, unit, |p.data|);
        StartsInside(p.offset, |p.data|, unit);
      } else {
        StartsAtUnit(p.offset, i, Min(i * unit + unit, |p.data|) - i * unit, unit);
      }
    }
  }

  /** The rest of a unit is within it. */
  lemma StartsInside(offset: nat, size: nat, unit: nat)
    requires unit > 0 && 0 < size <= unit - offset % unit
    ensures offset / unit == (offset + Min(unit, size) - 1) / unit
  {
    ModUnique(offset + size - 1, unit, offset / unit, offset % unit + size - 1);
  }

  lemma StartsAtUnit(offset: nat, i: nat, size: nat, unit: nat)
    requires unit > 0 && offset % unit == 0 && 0 < size <= unit
    ensures (offset + i * unit) / unit == (offset + i * unit + size - 1) / unit
  {
    var q := offset / unit + i;
    assert offset + i * unit == unit * q;
    ModUnique(offset + i * unit, unit, q, 0);
    ModUnique(offset + i * unit + size - 1, unit, q, size - 1);
  }

  /** Less than a unit of data has one checksum. */
  lemma UnitOnly(i: nat, unit: nat, size: nat)
    requires i * unit < size <= unit
    ensures i == 0
  {
    if i > 0 { MulStep(unit, 0, i); }
  }

  lemma {:induction false} BlockWithinUnits(data: seq<Byte>, offset: nat, seqno: nat, packetsize: nat, kind: ChecksumType, unit: nat)
    requires unit > 0 && packetsize > 0 && Fits(|data|, offset, packetsize, unit)
    ensures forall p :: p in Block(data, offset, seqno, packetsize, kind, unit) ==> WithinUnits(p, unit)
    decreases |data|
  {
    hide Checksums, WithinUnits;
    if data == [] {
      PacketWithinUnits(PacketOf(seqno, offset, [], kind, unit), 0, packetsize, unit);
    } else {
      var n := BlockUnfold(data, offset, seqno, packetsize, kind, unit);
      hide NextLength, Fits, Block;
      PacketWithinUnits(PacketOf(seqno, offset, data[..n], kind, unit), |data|, packetsize, unit);
      BlockWithinUnits(data[n..], offset + n, seqno + 1, packetsize, kind, unit);
    }
  }

  /** Where the loop stands after `b` bytes of `data`: the packets sent begin the block's packets. */
  ghost predicate OnTrack(data: seq<Byte>, b: nat, offset: nat, packetsize: nat, kind: ChecksumType, unit: nat,
                          sent: seq<Packet>)
  {
    && unit > 0 && packetsize > 0 && b <= |data|
    && Fits(|data|, offset, packetsize, unit) && Fits(|data[b..]|, offset + b, packetsize, unit)
    && sent + Block(data[b..], offset + b, |sent|, packetsize, kind, unit)
         == Block(data, offset, 0, packetsize, kind, unit)
  }

  /** One more packet keeps the track. */
  lemma TrackStep(data: seq<Byte>, b: nat, offset: nat, packetsize: nat, kind: ChecksumType, unit: nat,
                  sent: seq<Packet>) returns (n: nat)
    requires OnTrack(data, b, offset, packetsize, kind, unit, sent) && b < |data|
    ensures n == NextLength(|data| - b, offset + b, packetsize, unit) && 0 < n && b + n <= |data|
    ensures var p := PacketOf(|sent|, offset + b, data[b..b + n], kind, unit);
      && OnTrack(data, b + n, offset, packetsize, kind, unit, sent + [p])
      && sent + [p] <= Block(data, offset, 0, packetsize, kind, unit)
  {
    hide NextLength, Block, Fits, Checksums;
    var rest := data[b..];
    n := BlockUnfold(rest, offset + b, |sent|, packetsize, kind, unit);
    assert rest[..n] == data[b..b + n] && rest[n..] == data[b + n..];
    var p := PacketOf(|sent|, offset + b, data[b..b + n], kind, unit);
    var tail := Block(data[b + n..], offset + b + n, |sent| + 1, packetsize, kind, unit);
    assert sent + ([p] + tail) == sent + [p] + tail;
  }

  /** The empty packet completes it. */
  lemma TrackEnd(data: seq<Byte>, offset: nat, packetsize: nat, kind: ChecksumType, unit: nat, sent: seq<Packet>)
    requires OnTrack(data, |data|, offset, packetsize, kind, unit, sent)
    ensures NextLength(0, offset + |data|, packetsize, unit) == 0
    ensures sent + [PacketOf(|sent|, offset + |data|, [], kind, unit)] == Block(data, offset, 0, packetsize, kind, unit)
  {
    hide Checksums;
    assert data[|data|..] == [];
  }

  /** The length of the next packet; the bytes left are an unsigned 64-bit difference. */
  method PlanPacket(len: nat, bytessent: nat, packetoffset: nat, packetsize: nat, unit: nat) returns (packetlen: nat)
    requires unit > 0 && len < WORD64 && bytessent < WORD64
    ensures bytessent <= len ==> packetlen == NextLength(len - bytessent, packetoffset, packetsize, unit)
    ensures bytessent > len && packetsize > 0 ==> packetlen > 0
  {
    var left := (len - bytessent) % WORD64;
    packetlen := Min(left, packetsize);
    var bytespastboundary := packetoffset % unit;
    if packetlen > 0 && bytespastboundary != 0 {
      packetlen := unit - bytespastboundary;
    }
  }

  predicate Supported(kind: ChecksumType) {
    kind.Crc32c? || kind.NoChecksum?
  }

  /** The state of the loop over packets, which started at `initial`. */
  ghost predicate Sending(from: BufferPos, initial: nat, data: seq<Byte>, blockoffset: nat, packetsize: nat,
                          kind: ChecksumType, unit: nat, sent: seq<Packet>)
    reads from
  {
    && from.Valid() && initial <= from.bufferoffset <= from.len < WORD64 && initial + |data| <= from.len
    && data == Flatten(from.buffers)[initial..initial + |data|]
    && unit > 0 && packetsize > 0 && Supported(kind)
    && var b := from.bufferoffset - initial;
       if Fits(|data|, blockoffset, packetsize, unit) then OnTrack(data, b, blockoffset, packetsize, kind, unit, sent)
       else b > |data| || !Fits(|data| - b, blockoffset + b, packetsize, unit)
  }

  /** One pass of the loop: plans and sends a packet.  Off the track nothing but the data running out
      stops it. */
  method SendNext(from: BufferPos, initial: nat, len: nat, blockoffset: nat, packetsize: nat,
                  kind: ChecksumType, unit: nat, answer: Answer, sent: seq<Packet>, ghost data: seq<Byte>)
    returns (outcome: Outcome, sent': seq<Packet>, packetlen: nat)
    requires Sending(from, initial, data, blockoffset, packetsize, kind, unit, sent) && len == |data|
    modifies from`bufferoffset
    ensures outcome.Returned? ==> outcome.res == answer.Result()
    ensures outcome.Returned? && answer.Unsent? ==> sent' == sent
    ensures outcome.Returned? && !answer.Unsent? ==>
      && |sent'| == |sent| + 1 && from.bufferoffset == old(from.bufferoffset) + packetlen
      && (packetlen > 0 ==> Sending(from, initial, data, blockoffset, packetsize, kind, unit, sent'))
    ensures Fits(len, blockoffset, packetsize, unit) ==>
      var block := Block(data, blockoffset, 0, packetsize, kind, unit);
      && outcome.Returned? && sent' <= block && |sent| < |block|
      && (packetlen == 0 && !answer.Unsent? ==> sent' == block && from.bufferoffset == initial + len)
    ensures !Fits(len, blockoffset, packetsize, unit) ==> packetlen > 0
  {
    hide Flatten, Checksums, Block, Fits, NextLength, OnTrack;
    var bytessent := from.bufferoffset - initial;
    packetlen := PlanPacket(len, bytessent, blockoffset + bytessent, packetsize, unit);
    if Fits(len, blockoffset, packetsize, unit) {
      ghost var n, next := TrackNext(from, initial, data, blockoffset, packetsize, kind, unit, sent);
    } else if bytessent <= len {
      MisfitNext(len - bytessent, blockoffset + bytessent, packetsize, unit);
    }
    var more;
    outcome, more := SendPacket(|sent|, from, packetlen, blockoffset + bytessent, kind, unit, answer);
    sent' := sent + more;
  }

  lemma MisfitNext(left: nat, offset: nat, packetsize: nat, unit: nat)
    requires unit > 0 && packetsize > 0 && !Fits(left, offset, packetsize, unit)
    ensures var n := NextLength(left, offset, packetsize, unit);
      n > 0 && (n > left || !Fits(left - n, offset + n, packetsize, unit))
  {
    FitsNext(left, offset, packetsize, unit);
  }

  lemma TrackNext(from: BufferPos, initial: nat, data: seq<Byte>, blockoffset: nat, packetsize: nat,
                  kind: ChecksumType, unit: nat, sent: seq<Packet>) returns (n: nat, sent': seq<Packet>)
    requires Sending(from, initial, data, blockoffset, packetsize, kind, unit, sent)
    requires Fits(|data|, blockoffset, packetsize, unit)
    ensures from.bufferoffset - initial + n <= |data|
    ensures n == NextLength(|data| - (from.bufferoffset - initial), blockoffset + (from.bufferoffset - initial), packetsize, unit)
    ensures sent' == sent + [PacketOf(|sent|, blockoffset + (from.bufferoffset - initial), from.Rest()[..n], kind, unit)]
    ensures sent' <= Block(data, blockoffset, 0, packetsize, kind, unit)
    ensures n == 0 ==>
      sent' == Block(data, blockoffset, 0, packetsize, kind, unit) && from.bufferoffset - initial == |data|
    ensures n > 0 ==> OnTrack(data, from.bufferoffset - initial + n, blockoffset, packetsize, kind, unit, sent')
  {
    hide Flatten, Checksums, Block, Fits, NextLength, PacketOf, OnTrack;
    var b := from.bufferoffset - initial;
    TrackBound(data, b, blockoffset, packetsize, kind, unit, sent);
    if b < |data| {
      n := TrackStep(data, b, blockoffset, packetsize, kind, unit, sent);
      RestIsData(Flatten(from.buffers), initial, |data|, b, n);
    } else {
      n := 0;
      TrackEnd(data, blockoffset, packetsize, kind, unit, sent);
      assert from.Rest()[..0] == [];
    }
    sent' := sent + [PacketOf(|sent|, blockoffset + b, from.Rest()[..n], kind, unit)];
  }

  lemma TrackBound(data: seq<Byte>, b: nat, offset: nat, packetsize: nat, kind: ChecksumType, unit: nat, sent: seq<Packet>)
    requires OnTrack(data, b, offset, packetsize, kind, unit, sent)
    ensures b <= |data|
  {
  }

  lemma RestIsData(all: seq<Byte>, initial: nat, len: nat, b: nat, n: nat)
    requires initial + len <= |all| && b + n <= len
    ensures all[initial + b..][..n] == all[initial..initial + len][b..b + n]
  {
    Subslice(all, initial, len, b, n);
    Subslice(all, initial + b, |all| - initial - b, 0, n);
    assert all[initial + b..] == all[initial + b..initial + b + (|all| - initial - b)];
  }

  /** Sends `len` bytes as the packets of a block, the last of them empty.  With a packet size and a
      supported checksum it succeeds exactly when the data `Fits`; otherwise the first packet decides. */
  method SendPackets(from: BufferPos, len: nat, blockoffset: nat, packetsize: nat,
                     kind: ChecksumType, unit: nat, answers: nat -> Answer)
    returns (outcome: Outcome, sent: seq<Packet>)
    requires from.Valid() && from.bufferoffset <= from.len < WORD64 && unit > 0
    requires len <= from.len - from.bufferoffset
    modifies from`bufferoffset
    ensures Supported(kind) && packetsize > 0 && Fits(len, blockoffset, packetsize, unit) ==>
      var block := Block(old(from.Rest())[..len], blockoffset, 0, packetsize, kind, unit);
      && sent <= block && outcome.Returned?
      && (outcome.res == 0 || answers(|sent|).Unsent? || (sent != [] && answers(|sent| - 1).Refused?))
      && (outcome.res == 0 ==> sent == block && from.bufferoffset == old(from.bufferoffset) + len)
      && ((forall k :: 0 <= k < |block| ==> answers(k).Accepted?) ==> outcome == Returned(0))
    ensures Supported(kind) && packetsize > 0 && !Fits(len, blockoffset, packetsize, unit) ==>
      (forall k :: answers(k).Accepted?) ==> outcome == AssertionFailed
    ensures !Supported(kind) ==>
      && sent == [] && from.bufferoffset == old(from.bufferoffset)
      && outcome == if NextLength(len, blockoffset, packetsize, unit) > from.len - from.bufferoffset
           then AssertionFailed else Returned(-ENOSYS)
    ensures Supported(kind) && packetsize == 0 ==>
      && sent == (if answers(0).Unsent? then [] else [PacketOf(0, blockoffset, [], kind, unit)])
      && from.bufferoffset == old(from.bufferoffset) && outcome == Returned(answers(0).Result())
  {
    hide Flatten, Checksums, Block, Fits, NextLength, OnTrack;
    var initial := from.bufferoffset;
    if packetsize > 0 && Supported(kind) {
      outcome, sent := SendAll(from, len, blockoffset, packetsize, kind, unit, answers);
    } else {
      // the loop ends in its first pass
      var packetlen := PlanPacket(len, 0, blockoffset, packetsize, unit);
      outcome, sent := SendPacket(0, from, packetlen, blockoffset, kind, unit, answers(0));
      if packetsize == 0 {
        NothingPlanned(len, blockoffset, unit);
        assert old(from.Rest())[..0] == [];
      }
    }
  }

  lemma NothingPlanned(len: nat, offset: nat, unit: nat)
    requires unit > 0
    ensures NextLength(len, offset, 0, unit) == 0
  {
  }

  /** The loop, when it can make progress. */
  method SendAll(from: BufferPos, len: nat, blockoffset: nat, packetsize: nat,
                 kind: ChecksumType, unit: nat, answers: nat -> Answer)
    returns (outcome: Outcome, sent: seq<Packet>)
    requires from.Valid() && from.bufferoffset <= from.len < WORD64 && unit > 0 && packetsize > 0
    requires Supported(kind) && len <= from.len - from.bufferoffset
    modifies from`bufferoffset
    ensures Fits(len, blockoffset, packetsize, unit) ==>
      var block := Block(old(from.Rest())[..len], blockoffset, 0, packetsize, kind, unit);
      && sent <= block && outcome.Returned?
      && (outcome.res == 0 || answers(|sent|).Unsent? || (sent != [] && answers(|sent| - 1).Refused?))
      && (outcome.res == 0 ==> sent == block && from.bufferoffset == old(from.bufferoffset) + len)
      && ((forall k :: 0 <= k < |block| ==> answers(k).Accepted?) ==> outcome == Returned(0))
    ensures !Fits(len, blockoffset, packetsize, unit) && (forall k :: answers(k).Accepted?) ==> outcome == AssertionFailed
  {
    hide Flatten, Checksums, Block, Fits, NextLength;
    ghost var data := from.Rest()[..len];
    assert data[0..] == data;
    var initial := from.bufferoffset;
    sent := [];
    while true
      invariant Sending(from, initial, data, blockoffset, packetsize, kind, unit, sent)
      decreases from.len - from.bufferoffset
    {
      hide OnTrack;
      var packetlen;
      outcome, sent, packetlen :=
        SendNext(from, initial, len, blockoffset, packetsize, kind, unit, answers(|sent|), sent, data);
      if outcome.AssertionFailed? || outcome.res < 0 {
        return;
      }
      if packetlen == 0 {
        break;
      }
    }
    outcome := Returned(0);
  }
}
