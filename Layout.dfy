/**
 * The fixed layout of a region file: 4096-byte sectors, a 32x32 grid of
 * chunk slots, the packed sector descriptor and the chunk frame.
 */
module Layout {
  import opened Bytes

  const SectorBytes: nat := 4096
  /** Entries per header table: one per slot of the 32x32 grid. */
  const SectorInts: nat := 1024
  const GridSize: int := 32
  /** Bytes of a frame before its payload: a 4-byte length and a 1-byte version. */
  const ChunkHeaderSize: nat := 5
  const VersionGzip: byte := 1
  const VersionDeflate: byte := 2
  /** A write needing this many sectors or more is dropped (the 1 MiB cap). */
  const SectorLimit: nat := 256
  /**
   * The largest sector count the model lets the file reach: sector numbers
   * stay below 2^19, so `sectorNumber * 4096` never leaves Java's `int`.
   */
  const MaxSectors: nat := 0x7_FFFF

  /** Coordinates outside the 32x32 grid. */
  predicate OutOfBounds(x: int, z: int): (r: bool)
    ensures !r ==> 0 <= Slot(x, z) < SectorInts
  {
    x < 0 || x >= GridSize || z < 0 || z >= GridSize
  }

  /** The header index of chunk (x, z): `x + z * 32`. */
  function Slot(x: int, z: int): int {
    x + z * 32
  }

  /** In-bounds coordinates and header indexes correspond one to one. */
  lemma SlotBijective(x: int, z: int, x': int, z': int)
    requires !OutOfBounds(x, z) && !OutOfBounds(x', z')
    ensures 0 <= Slot(x, z) < SectorInts
    ensures Slot(x, z) == Slot(x', z') <==> x == x' && z == z'
    ensures Slot(x, z) % GridSize == x && Slot(x, z) / GridSize == z
  {
  }

  /** Sectors a payload of `length` bytes needs once framed: `(length + 5) / 4096 + 1`. */
  function SectorsNeeded(length: nat): nat {
    (length + ChunkHeaderSize) / 4096 + 1
  }

  /**
   * The frame of a payload fits strictly inside the sectors it is given, and
   * one sector fewer would not hold its header and payload.
   */
  lemma SectorsNeededFits(length: nat)
    ensures 1 <= SectorsNeeded(length)
    ensures ChunkHeaderSize + length < 4096 * SectorsNeeded(length)
    ensures 4096 * (SectorsNeeded(length) - 1) <= ChunkHeaderSize + length
  {
  }

  /** The descriptor's sector number: Java's arithmetic shift `o >> 8`. */
  function SectorOf(o: int): int {
    o / 256
  }

  /** The descriptor's sector count: Java's mask `o & 0xff`. */
  function CountOf(o: int): int {
    o % 256
  }

  /** A descriptor `(sector << 8) | count` for a count below 256. */
  function Pack(sector: int, count: int): int
    requires 0 <= count < 256
  {
    sector * 256 + count
  }

  /** Unpacking a packed descriptor gives back its sector number and count. */
  lemma UnpackPack(sector: int, count: int)
    requires 0 <= count < 256
    ensures SectorOf(Pack(sector, count)) == sector
    ensures CountOf(Pack(sector, count)) == count
    ensures 1 <= count ==> Pack(sector, count) != 0
    ensures 0 <= sector < MaxSectors ==> IsInt32(Pack(sector, count))
  {
  }

  /** Every descriptor, negative ones as well, is the packing of its two fields. */
  lemma PackUnpack(o: int)
    ensures 0 <= CountOf(o) < 256
    ensures Pack(SectorOf(o), CountOf(o)) == o
  {
  }

  /** The bytes the private `write(sectorNumber, data, length)` puts at a chunk's first sector. */
  function Frame(data: seq<byte>): (r: seq<byte>)
    requires IsInt32(|data| + 1)
    ensures |r| == ChunkHeaderSize + |data|
  {
    EncodeInt32(|data| + 1) + [VersionDeflate] + data
  }

  /** Writing the length word, the version byte and the payload one after another writes the frame. */
  lemma FramePatches(f: seq<byte>, at: int, data: seq<byte>)
    requires IsInt32(|data| + 1) && 0 <= at && at + ChunkHeaderSize + |data| <= |f|
    ensures Patch(Patch(Patch(f, at, EncodeInt32(|data| + 1)), at + 4, [VersionDeflate]), at + ChunkHeaderSize, data)
         == Patch(f, at, Frame(data))
  {
    var g := Patch(Patch(Patch(f, at, EncodeInt32(|data| + 1)), at + 4, [VersionDeflate]), at + ChunkHeaderSize, data);
    var h := Patch(f, at, Frame(data));
    forall k | 0 <= k < |f| ensures g[k] == h[k] {
      if at <= k < at + ChunkHeaderSize + |data| {
        assert h[k] == h[at .. at + ChunkHeaderSize + |data|][k - at];
      }
    }
  }

  /**
   * Reading a frame back: its length word is the payload length plus one,
   * its version byte is deflate, and the payload read after the header is
   * exactly the payload written.
   */
  lemma FrameDecodes(f: seq<byte>, at: int, data: seq<byte>)
    requires IsInt32(|data| + 1) && 0 <= at && at + ChunkHeaderSize + |data| <= |f|
    requires f[at .. at + ChunkHeaderSize + |data|] == Frame(data)
    ensures ReadInt32At(f, at) == |data| + 1
    ensures f[at + 4] == VersionDeflate
    ensures ReadPadded(f, at + ChunkHeaderSize, |data|) == data
  {
    var frame := f[at .. at + ChunkHeaderSize + |data|];
    assert frame == EncodeInt32(|data| + 1) + ([VersionDeflate] + data);
    assert f[at .. at + 4] == frame[..4];
    DecodeEncode(|data| + 1);
    assert f[at + 4] == frame[4];
    var payload := ReadPadded(f, at + ChunkHeaderSize, |data|);
    forall k | 0 <= k < |data| ensures payload[k] == data[k] {
      assert f[at + ChunkHeaderSize + k] == frame[ChunkHeaderSize + k];
    }
  }
}
