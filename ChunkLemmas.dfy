/**
 * What a caller of the region file sees, proved about the functions of
 * RegionState: a written chunk reads back as written, a write leaves the
 * reads of every other chunk alone, a second write of the same size stays
 * where the first one went, and reopening the file reads the same chunks.
 */
module ChunkLemmas {
  import opened Optional
  import opened Bytes
  import opened Layout
  import opened SectorBitmap
  import opened RegionState
  import opened RegionLemmas
  import opened WriteLemmas

  /** The placed chunk reads back as version 2 (deflate) and exactly its payload. */
  lemma ReadPlaced(s: Store, r: Store, x: int, z: int, data: seq<byte>)
    requires WellFormed(s) && WellFormed(r) && !OutOfBounds(x, z) && IsInt32(|data| + 1)
    requires Placed(s, r, Slot(x, z), data)
    ensures ReadDefined(r, x, z) && Read(r, x, z) == Some(Chunk(VersionDeflate, data))
  {
    SectorsNeededFits(|data|);
    ReadFrame(r, x, z, data);
  }

  /** Placing one chunk leaves what any other slot reads unchanged. */
  lemma ReadOtherPlaced(s: Store, r: Store, slot: int, x': int, z': int, data: seq<byte>)
    requires Consistent(s) && WellFormed(r) && 0 <= slot < SectorInts && IsInt32(|data| + 1)
    requires !OutOfBounds(x', z') && Slot(x', z') != slot
    requires Placed(s, r, slot, data)
    ensures ReadDefined(s, x', z') && ReadDefined(r, x', z') && Read(r, x', z') == Read(s, x', z')
  {
    SlotBijective(x', z', x', z');
    var o := s.offsets[Slot(x', z')];
    if o != 0 {
      assert Live(s, o);
      var d := r.offsets[slot];
      var a := SectorOf(d) * 4096;
      SectorsNeededFits(|data|);
      // the other chunk's bytes lie past the header and outside the new frame
      forall k | SectorOf(o) * 4096 <= k < (SectorOf(o) + CountOf(o)) * 4096 ensures s.file[k] == r.file[k] {
        assert !(a <= k < a + ChunkHeaderSize + |data|);
      }
      ReadLocal(s, r, x', z');
    }
  }

  /**
   * After a write that is not dropped, reading the same coordinates gives
   * version 2 (deflate) and exactly the bytes written.
   */
  lemma ReadAfterWrite(s: Store, x: int, z: int, data: seq<byte>, ts: int)
    requires Consistent(s) && !OutOfBounds(x, z) && WriteDefined(s, Slot(x, z), |data|) && IsInt32(ts)
    requires SectorsNeeded(|data|) < SectorLimit
    ensures WellFormed(Write(s, Slot(x, z), data, ts))
    ensures ReadDefined(Write(s, Slot(x, z), data, ts), x, z)
    ensures Read(Write(s, Slot(x, z), data, ts), x, z) == Some(Chunk(VersionDeflate, data))
  {
    SlotBijective(x, z, x, z);
    WritePlaces(s, Slot(x, z), data, ts);
    ReadPlaced(s, Write(s, Slot(x, z), data, ts), x, z, data);
  }

  /**
   * A write to one chunk leaves what every other chunk reads unchanged,
   * whether the write was dropped, reused the old sectors, moved the chunk
   * or grew the file.
   */
  lemma WriteIsolation(s: Store, x: int, z: int, x': int, z': int, data: seq<byte>, ts: int)
    requires Consistent(s) && !OutOfBounds(x, z) && WriteDefined(s, Slot(x, z), |data|) && IsInt32(ts)
    requires x' != x || z' != z
    ensures WellFormed(Write(s, Slot(x, z), data, ts))
    ensures ReadDefined(s, x', z') && ReadDefined(Write(s, Slot(x, z), data, ts), x', z')
    ensures Read(Write(s, Slot(x, z), data, ts), x', z') == Read(s, x', z')
  {
    SlotBijective(x, z, x, z);
    WriteEffects(s, Slot(x, z), data, ts);
    if !OutOfBounds(x', z') && SectorsNeeded(|data|) < SectorLimit {
      SlotBijective(x, z, x', z');
      WritePlaces(s, Slot(x, z), data, ts);
      ReadOtherPlaced(s, Write(s, Slot(x, z), data, ts), Slot(x, z), x', z', data);
    }
  }

  /**
   * After a write that is not dropped, a second write of the same sector
   * count to the same chunk is an in-place rewrite at the same sector: the
   * descriptors and the free-list stay as the first write left them.
   */
  lemma SameSizeStaysPut(s: Store, slot: int, data: seq<byte>, ts: int, data': seq<byte>, ts': int)
    requires Consistent(s) && 0 <= slot < SectorInts && WriteDefined(s, slot, |data|) && IsInt32(ts) && IsInt32(ts')
    requires SectorsNeeded(|data|) < SectorLimit && SectorsNeeded(|data'|) == SectorsNeeded(|data|)
    requires |data'| + ChunkHeaderSize <= Int32Max
    ensures var r := Write(s, slot, data, ts);
      && WellFormed(r) && WriteDefined(r, slot, |data'|)
      && PlacementOf(r, slot, SectorsNeeded(|data'|)) == Rewrite(SectorOf(r.offsets[slot]))
      && Write(r, slot, data', ts').offsets == r.offsets
      && Write(r, slot, data', ts').sectorFree == r.sectorFree
      && |Write(r, slot, data', ts').file| == |r.file|
  {
    var r := Write(s, slot, data, ts);
    WriteTarget(s, slot, data, ts);
    RewriteInPlace(r, slot, data', ts');
  }

  /** Reopening the file of a consistent state reads back every chunk the state reads. */
  lemma ReopenReads(s: Store, x: int, z: int)
    requires Consistent(s)
    ensures OpenDefined(s.file) && WellFormed(Opened(s.file))
    ensures ReadDefined(s, x, z) && ReadDefined(Opened(s.file), x, z)
    ensures Read(Opened(s.file), x, z) == Read(s, x, z)
  {
    ReopenRestores(s);
    ReadWithinSectors(s, x, z);
  }
}
