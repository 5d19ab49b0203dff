/** The layout check of a received shared-memory ring and the 32-bit offset arithmetic built on it. */
module RingLayout {
  import opened Base

  const HEADER_SIZE := 64
  const SLOT_HEADER_SIZE := 64
  const MAX_PAYLOAD_BYTES := 0x80_0000
  const WORD := 0x1_0000_0000

  datatype Ring = Ring(size: nat, slotCount: nat, slotCapacity: nat, stride: nat)

  function ReadLE32(memory: seq<byte>, at: nat): (r: nat)
    requires at + 4 <= |memory|
    ensures r < WORD
  {
    memory[at] as int + memory[at + 1] as int * 0x100 + memory[at + 2] as int * 0x1_0000 + memory[at + 3] as int * 0x100_0000
  }

  const MAGIC: seq<byte> := [0x4f, 0x4b, 0x56, 0x52]

  /** Sums of 32-bit words wrap around. */
  function Word(v: nat): nat { v % WORD }

  /** The check in `ReceiveSharedRing`, on the first bytes of a mapping of the given size. */
  method CheckLayout(header: seq<byte>, size: nat) returns (ring: Option<Ring>)
    requires |header| == Min(size, HEADER_SIZE)
    ensures ring.Some? <==> size >= HEADER_SIZE && LayoutValid(header, size)
    ensures ring.Some? ==> ring.value == Parsed(header, size) && Accepted(ring.value)
  {
    if size < HEADER_SIZE {
      return None;
    }
    var slotCount, slotCapacity, stride := ReadLE32(header, 8), ReadLE32(header, 12), ReadLE32(header, 16);
    var headerSize := ReadLE32(header, 20);
    hide ReadLE32;
    var valid := header[..4] == MAGIC && ReadLE32(header, 4) == 1 && headerSize == HEADER_SIZE
                 && slotCount >= 2 && slotCount <= 16
                 && slotCapacity > 0 && slotCapacity <= MAX_PAYLOAD_BYTES
                 && stride >= Word(SLOT_HEADER_SIZE + slotCapacity)
                 && slotCount <= (size - headerSize) / stride;
    if stride > 0 { SlotsFit(slotCount, stride, size - HEADER_SIZE); }
    ring := if valid then Some(Ring(size, slotCount, slotCapacity, stride)) else None;
  }

  function Parsed(header: seq<byte>, size: nat): Ring
    requires |header| == HEADER_SIZE
  {
    Ring(size, ReadLE32(header, 8), ReadLE32(header, 12), ReadLE32(header, 16))
  }

  predicate LayoutValid(header: seq<byte>, size: nat)
    requires |header| == HEADER_SIZE <= size
  {
    && header[..4] == MAGIC && ReadLE32(header, 4) == 1 && ReadLE32(header, 20) == HEADER_SIZE
    && Accepted(Parsed(header, size))
  }

  /** A word as the producer stores it. */
  function LE32(v: nat): (r: seq<byte>)
    requires v < WORD
    ensures |r| == 4
  {
    [v % 0x100, v / 0x100 % 0x100, v / 0x1_0000 % 0x100, v / 0x100_0000]
  }

  lemma ReadAfterWriteLE(before: seq<byte>, v: nat, after: seq<byte>)
    requires v < WORD
    ensures ReadLE32(before + LE32(v) + after, |before|) == v
  {
    var memory, n := before + LE32(v) + after, |before|;
    assert memory[n..n + 4] == LE32(v);
    Digits(v);
  }

  lemma Digits(v: nat)
    ensures v == v % 0x100 + v / 0x100 % 0x100 * 0x100 + v / 0x1_0000 % 0x100 * 0x1_0000 + v / 0x100_0000 * 0x100_0000
  {
    assert v / 0x100 / 0x100 == v / 0x1_0000 && v / 0x1_0000 / 0x100 == v / 0x100_0000;
  }

  /** The first bytes of a ring, as a producer lays them out: magic, version, the three sizes, the size of the
      header, and whatever fills it up. */
  function Header(version: nat, r: Ring, headerSize: nat, rest: seq<byte>): seq<byte>
    requires version < WORD && r.slotCount < WORD && r.slotCapacity < WORD && r.stride < WORD && headerSize < WORD
  {
    MAGIC + LE32(version) + LE32(r.slotCount) + LE32(r.slotCapacity) + LE32(r.stride) + LE32(headerSize) + rest
  }

  /** Whatever a producer writes is read back, and it is accepted exactly if version, header size and the
      slots are. */
  lemma HeaderIsRead(version: nat, r: Ring, headerSize: nat, rest: seq<byte>)
    requires version < WORD && r.slotCount < WORD && r.slotCapacity < WORD && r.stride < WORD && headerSize < WORD
    requires |rest| == 40 && r.size >= HEADER_SIZE
    ensures var header := Header(version, r, headerSize, rest);
            && |header| == HEADER_SIZE && Parsed(header, r.size) == r
            && (LayoutValid(header, r.size) <==> version == 1 && headerSize == 64 && Accepted(r))
  {
    hide LE32, ReadLE32, Accepted;
    var header := Header(version, r, headerSize, rest);
    var a, b, c, d, e := LE32(version), LE32(r.slotCount), LE32(r.slotCapacity), LE32(r.stride), LE32(headerSize);
    assert header == MAGIC + a + (b + c + d + e + rest);
    ReadAfterWriteLE(MAGIC, version, b + c + d + e + rest);
    assert header == MAGIC + a + b + (c + d + e + rest);
    ReadAfterWriteLE(MAGIC + a, r.slotCount, c + d + e + rest);
    assert header == MAGIC + a + b + c + (d + e + rest);
    ReadAfterWriteLE(MAGIC + a + b, r.slotCapacity, d + e + rest);
    assert header == MAGIC + a + b + c + d + (e + rest);
    ReadAfterWriteLE(MAGIC + a + b + c, r.stride, e + rest);
    ReadAfterWriteLE(MAGIC + a + b + c + d, headerSize, rest);
    assert header[..4] == MAGIC;
  }

  /** What acceptance means without any division or wrap-around: 2 to 16 slots, each with room for its
      header and capacity, all of them inside the mapping. */
  predicate Accepted(r: Ring) {
    && 2 <= r.slotCount <= 16 && 0 < r.slotCapacity <= MAX_PAYLOAD_BYTES
    && SLOT_HEADER_SIZE + r.slotCapacity <= r.stride < WORD
    && HEADER_SIZE + r.slotCount * r.stride <= r.size
  }

  lemma SlotsFit(count: nat, stride: nat, space: nat)
    requires stride > 0
    ensures count <= space / stride <==> count * stride <= space
  {
    var q := space / stride;
    assert q * stride <= space < q * stride + stride;
    if count <= q { ProductMonotone(count, q, stride); } else { ProductMonotone(q + 1, count, stride); }
    assert (q + 1) * stride == q * stride + stride;
  }

  /** Where a slot is, and where the 32-bit expression says it is. */
  function Offset(r: Ring, i: nat): nat { HEADER_SIZE + i * r.stride }

  function Offset32(r: Ring, i: nat): nat { Word(HEADER_SIZE + Word(i * r.stride)) }

  /** The slots of an accepted ring are disjoint and inside the mapping, and a payload no larger than the
      capacity stays inside its own slot. */
  lemma SlotsDisjoint(r: Ring, i: nat, j: nat, payload: nat)
    requires Accepted(r) && i < j < r.slotCount && payload <= r.slotCapacity
    ensures HEADER_SIZE <= Offset(r, i) && Offset(r, i) + r.stride <= Offset(r, j)
    ensures Offset(r, j) + r.stride <= r.size
    ensures Offset(r, i) + SLOT_HEADER_SIZE + payload <= Offset(r, i) + r.stride
  {
    ProductMonotone(i + 1, j, r.stride);
    ProductMonotone(j + 1, r.slotCount, r.stride);
    assert (i + 1) * r.stride == i * r.stride + r.stride && (j + 1) * r.stride == j * r.stride + r.stride;
  }

  /** The 32-bit offsets of an accepted ring are the true ones exactly when the last slot starts below
      2^32, in particular for every mapping smaller than that. */
  lemma OffsetsExact(r: Ring)
    requires Accepted(r)
    ensures (forall i: nat :: i < r.slotCount ==> Offset32(r, i) == Offset(r, i)) <==> Offset(r, r.slotCount - 1) < WORD
    ensures r.size < WORD ==> Offset(r, r.slotCount - 1) < WORD
  {
    hide Offset, Offset32;
    var last := r.slotCount - 1;
    forall i: nat | i < r.slotCount
      ensures Offset(r, i) < WORD ==> Offset32(r, i) == Offset(r, i)
      ensures Offset(r, i) <= Offset(r, last)
    {
      OffsetsGrow(r, i, last);
      OffsetIs(r, i);
    }
    OffsetIs(r, last);
    LastInside(r);
  }

  lemma OffsetIs(r: Ring, i: nat)
    ensures Offset(r, i) < WORD ==> Offset32(r, i) == Offset(r, i)
    ensures Offset32(r, i) < WORD
  {
    SumWraps(i * r.stride);
  }

  lemma OffsetsGrow(r: Ring, i: nat, j: nat)
    requires i <= j
    ensures Offset(r, i) <= Offset(r, j)
  {
    ProductMonotone(i, j, r.stride);
  }

  lemma LastInside(r: Ring)
    requires Accepted(r)
    ensures Offset(r, r.slotCount - 1) < r.size
  {
    Distribute(r.stride, r.slotCount - 1, 1);
  }

  lemma SumWraps(x: nat)
    ensures HEADER_SIZE + x < WORD ==> Word(HEADER_SIZE + Word(x)) == HEADER_SIZE + x
    ensures Word(HEADER_SIZE + Word(x)) < WORD
  {
  }

  /** The check alone does not rule the wrap-around out: in this accepted ring slot 8 lands on slot 0. */
  lemma LargeRingWraps(size: nat) returns (r: Ring)
    requires size >= HEADER_SIZE + 9 * 0x2000_0000
    ensures r.size == size && Accepted(r) && 8 < r.slotCount && Offset32(r, 8) == Offset32(r, 0)
  {
    r := Ring(size, 9, MAX_PAYLOAD_BYTES, 0x2000_0000);
  }
}
