/**
 * What the region file promises, proved about the functions of RegionState:
 * opening a consistent file gives back its state, a written chunk reads
 * back, a write leaves every other chunk alone, and writes keep the
 * allocator's invariant.
 */
module RegionLemmas {
  import opened Optional
  import opened Bytes
  import opened Layout
  import opened SectorBitmap
  import opened RegionState

  // ---------------------------------------------------------------- reading

  /** A frame written at a slot's first sector, inside its sectors, reads back as that payload. */
  lemma ReadFrame(s: Store, x: int, z: int, data: seq<byte>)
    requires WellFormed(s) && !OutOfBounds(x, z) && IsInt32(|data| + 1)
    requires var o := s.offsets[Slot(x, z)];
      && o != 0 && 0 <= SectorOf(o) && SectorOf(o) + CountOf(o) <= |s.sectorFree|
      && ChunkHeaderSize + |data| <= 4096 * CountOf(o)
      && s.file[SectorOf(o) * 4096 .. SectorOf(o) * 4096 + ChunkHeaderSize + |data|] == Frame(data)
    ensures ReadDefined(s, x, z)
    ensures Read(s, x, z) == Some(Chunk(VersionDeflate, data))
  {
    var o := s.offsets[Slot(x, z)];
    FrameDecodes(s.file, SectorOf(o) * 4096, data);
  }

  /**
   * A slot's read depends only on its descriptor, the free-list's length and
   * the bytes of its own sectors.
   */
  lemma ReadLocal(s: Store, t: Store, x: int, z: int)
    requires WellFormed(s) && WellFormed(t) && !OutOfBounds(x, z)
    requires var o := s.offsets[Slot(x, z)];
      && o != 0 && o == t.offsets[Slot(x, z)] && 1 <= CountOf(o)
      && 0 <= SectorOf(o) && SectorOf(o) + CountOf(o) <= |s.sectorFree| && SectorOf(o) + CountOf(o) <= |t.sectorFree|
      && FrameContained(s.file, o)
      && forall k :: SectorOf(o) * 4096 <= k < (SectorOf(o) + CountOf(o)) * 4096 ==> s.file[k] == t.file[k]
    ensures ReadDefined(s, x, z) && ReadDefined(t, x, z)
    ensures Read(s, x, z) == Read(t, x, z)
  {
    var o := s.offsets[Slot(x, z)];
    var at := SectorOf(o) * 4096;
    ReadInt32Local(s.file, t.file, at);
    var length := ReadInt32At(s.file, at);
    if 0 < length <= 4096 * CountOf(o) {
      assert s.file[at + 4] == t.file[at + 4];
      ReadPaddedLocal(s.file, t.file, at + ChunkHeaderSize, length - 1);
    }
  }

  /**
   * In a consistent file every chunk a read returns is made of bytes of the
   * slot's own sectors: the zero fill past the end of the file never shows.
   */
  lemma ReadWithinSectors(s: Store, x: int, z: int)
    requires Consistent(s)
    ensures ReadDefined(s, x, z)
    ensures Read(s, x, z).Some? ==>
      var o := s.offsets[Slot(x, z)];
      var at := SectorOf(o) * 4096;
      var payload := Read(s, x, z).value.payload;
      && at + ChunkHeaderSize + |payload| <= (SectorOf(o) + CountOf(o)) * 4096
      && payload == s.file[at + ChunkHeaderSize .. at + ChunkHeaderSize + |payload|]
  {
    if !OutOfBounds(x, z) && s.offsets[Slot(x, z)] != 0 {
      var o := s.offsets[Slot(x, z)];
      assert Live(s, o);
    }
  }

  // ---------------------------------------------------------------- opening

  /**
   * A file whose descriptors are all in range, past the header, disjoint and
   * hold contained frames opens into a consistent state.
   */
  lemma OpenedConsistent(contents: seq<byte>)
    requires OpenLength(|contents|)
    requires var s := Opened(contents);
      && (forall i :: 0 <= i < SectorInts && s.offsets[i] != 0 ==>
            2 <= SectorOf(s.offsets[i]) && 1 <= CountOf(s.offsets[i])
            && SectorOf(s.offsets[i]) + CountOf(s.offsets[i]) <= |s.sectorFree|
            && FrameContained(s.file, s.offsets[i]))
      && (forall i, j :: 0 <= i < SectorInts && 0 <= j < SectorInts && i != j && s.offsets[i] != 0 && s.offsets[j] != 0 ==>
            Disjoint(s.offsets[i], s.offsets[j]))
    ensures OpenDefined(contents)
    ensures Consistent(Opened(contents))
  {
    var s := Opened(contents);
    forall i | 0 <= i < SectorInts
      ensures MarkDefined(DescriptorAt(Initialized(contents), i), |Initialized(contents)| / SectorBytes)
    {
      assert DescriptorAt(Initialized(contents), i) == s.offsets[i];
    }
  }

  /**
   * A file shorter than one sector opens as two empty header sectors, counted
   * as growth, and holds no chunk at all.
   */
  lemma ShortFileOpensEmpty(contents: seq<byte>)
    requires |contents| < SectorBytes
    ensures OpenDefined(contents) && Consistent(Opened(contents))
    ensures |Opened(contents).sectorFree| == 2 && Opened(contents).sizeDelta == 2 * SectorBytes
    ensures forall x, z :: ReadDefined(Opened(contents), x, z) && Read(Opened(contents), x, z) == None
  {
    var s := Opened(contents);
    var f := Initialized(contents);
    forall i | 0 <= i < SectorInts ensures s.offsets[i] == 0 {
      assert f[4 * i .. 4 * i + 4] == [0, 0, 0, 0];
    }
    OpenedConsistent(contents);
  }

  /**
   * Two states with the same descriptors and the same number of sectors,
   * each with its header sectors taken and an exact bitmap, have the same
   * free-list: the descriptors alone determine it.
   */
  lemma SameBitmap(s: Store, t: Store)
    requires WellFormed(s) && WellFormed(t) && s.offsets == t.offsets && |s.sectorFree| == |t.sectorFree|
    requires !s.sectorFree[0] && !s.sectorFree[1] && !t.sectorFree[0] && !t.sectorFree[1]
    requires BitmapExact(s) && BitmapExact(t)
    ensures s.sectorFree == t.sectorFree
  {
    forall k | 0 <= k < |s.sectorFree| ensures s.sectorFree[k] == t.sectorFree[k] {
      if 2 <= k {
        assert s.sectorFree[k] <==> Uncovered(s.offsets, |s.sectorFree|, k);
      }
    }
  }

  /**
   * Reopening the file of a consistent state gives back that state: the
   * header tables and the free-list are exactly what the file records. Only
   * the growth count restarts.
   */
  lemma ReopenRestores(s: Store)
    requires Consistent(s)
    ensures OpenDefined(s.file)
    ensures Opened(s.file) == s.(sizeDelta := 0)
  {
    var f := s.file;
    var n := |s.sectorFree|;
    assert |f| / SectorBytes == n;
    assert OpenLength(|f|);
    var t := Opened(f);
    assert t.offsets == s.offsets by {
      forall i | 0 <= i < SectorInts ensures t.offsets[i] == s.offsets[i] { }
    }
    assert t.timestamps == s.timestamps by {
      forall i | 0 <= i < SectorInts ensures t.timestamps[i] == s.timestamps[i] { }
    }
    SameBitmap(t, s);
    forall i | 0 <= i < SectorInts ensures MarkDefined(DescriptorAt(f, i), n) {
      if s.offsets[i] != 0 {
        assert Live(s, s.offsets[i]);
      }
    }
  }
}
