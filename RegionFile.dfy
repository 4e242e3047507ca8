/**
 * The region file object: the header tables and the sector free-list kept
 * in memory, the backing file as a byte sequence, and the operations that
 * update them in place. Each method is proved to move the state exactly as
 * the matching function of RegionState says.
 */
module RegionFile {
  import opened Optional
  import opened Bytes
  import opened Layout
  import opened SectorBitmap
  import opened RegionState

  class RegionFile {
    /** The index table: one packed descriptor per slot. */
    const offsets: array<int>
    /** The timestamp table: one epoch-second value per slot. */
    const chunkTimestamps: array<int>
    /** One entry per sector of the file, true when the sector is free. */
    var sectorFree: seq<bool>
    /** The backing file's contents. */
    var file: seq<byte>
    /** Bytes the file has grown by since it was opened. */
    var sizeDelta: int

    ghost predicate Valid()
      reads this, offsets, chunkTimestamps
    {
      && offsets.Length == SectorInts
      && chunkTimestamps.Length == SectorInts
      && offsets != chunkTimestamps
      && WellFormed(State())
    }

    /** The object's state as a value. */
    ghost function State(): Store
      reads this, offsets, chunkTimestamps
    {
      Store(offsets[..], chunkTimestamps[..], sectorFree, file, sizeDelta)
    }

    /**
     * Opens a region file with the given contents: initialises a short file,
     * builds the free-list, reads both header tables and marks the sectors of
     * every nonzero descriptor that fits in the file.
     */
    constructor (contents: seq<byte>)
      requires OpenDefined(contents)
      ensures Valid() && fresh(offsets) && fresh(chunkTimestamps)
      ensures State() == Opened(contents)
    {
      var f := contents;
      var delta := 0;
      if |f| < SectorBytes {
        // two empty sectors written from position 0
        f := Zeros(2 * SectorBytes);
        delta := 2 * SectorBytes;
      }
      assert f == Initialized(contents);
      var free := NewBitmap(|f| / SectorBytes);
      var offs;
      offs, free := ReadOffsets(f, free);
      var stamps := ReadTimestamps(f);
      offsets := offs;
      chunkTimestamps := stamps;
      sectorFree := free;
      file := f;
      sizeDelta := delta;
    }

    /** `getOffset(x, z)`: the slot's descriptor. */
    function GetOffset(x: int, z: int): (r: int)
      requires Valid() && !OutOfBounds(x, z)
      reads this, offsets, chunkTimestamps
      ensures IsInt32(r) && r == State().offsets[Slot(x, z)]
    {
      offsets[Slot(x, z)]
    }

    /**
     * `read(x, z)`: the chunk at (x, z) with its version byte, or nothing
     * when the coordinates are out of bounds, the slot is unused, its
     * descriptor runs past the free-list, its length word is out of range
     * or its version is neither gzip nor deflate.
     */
    method Read(x: int, z: int) returns (chunk: Option<Chunk>)
      requires Valid() && ReadDefined(State(), x, z)
      ensures chunk == RegionState.Read(State(), x, z)
    {
      if OutOfBounds(x, z) {
        return None;
      }
      var offset := GetOffset(x, z);
      if offset == 0 {
        return None;
      }
      var sectorNumber := SectorOf(offset);
      var numSectors := CountOf(offset);
      if sectorNumber + numSectors > |sectorFree| {
        return None;
      }
      var at := sectorNumber * SectorBytes;
      var length := ReadInt32At(file, at);
      if length > SectorBytes * numSectors {
        return None;
      } else if length <= 0 {
        return None;
      }
      var version := file[at + 4];
      if version == VersionGzip || version == VersionDeflate {
        // the gzip and the deflate branch read the same bytes; only the decompressor differs
        var data := ReadPadded(file, at + ChunkHeaderSize, length - 1);
        return Some(Chunk(version, data));
      }
      return None;
    }

    /**
     * `write(x, z)` followed by `close()` on the stream it returns: out of
     * bounds nothing happens; otherwise the buffered (compressed) bytes are
     * written to the slot.
     */
    method Write(x: int, z: int, data: seq<byte>, epochSeconds: int) returns (accepted: bool)
      requires Valid()
      requires !OutOfBounds(x, z) ==> WriteDefined(State(), Slot(x, z), |data|)
      modifies this, offsets, chunkTimestamps
      ensures Valid()
      ensures accepted == !OutOfBounds(x, z)
      ensures accepted ==> State() == RegionState.Write(old(State()), Slot(x, z), data, WrapInt32(epochSeconds))
      ensures !accepted ==> State() == old(State())
    {
      if OutOfBounds(x, z) {
        return false;
      }
      WriteChunk(x, z, data, epochSeconds);
      return true;
    }

    /**
     * `write(x, z, data, length)`: drops a chunk of 256 sectors or more;
     * rewrites in place when the sector count is unchanged; otherwise frees
     * the old sectors and takes the first free run that fits, or grows the
     * file. Then it stamps the slot with the time.
     */
    method WriteChunk(x: int, z: int, data: seq<byte>, epochSeconds: int)
      requires Valid() && !OutOfBounds(x, z) && WriteDefined(State(), Slot(x, z), |data|)
      modifies this, offsets, chunkTimestamps
      ensures Valid()
      ensures State() == RegionState.Write(old(State()), Slot(x, z), data, WrapInt32(epochSeconds))
    {
      var slot := Slot(x, z);
      var offset := GetOffset(x, z);
      var sectorNumber := SectorOf(offset);
      var sectorsAllocated := CountOf(offset);
      var sectorsNeeded := SectorsNeeded(|data|);
      SectorsNeededFits(|data|);

      if sectorsNeeded >= SectorLimit {
        return;
      }

      if sectorNumber != 0 && sectorsAllocated == sectorsNeeded {
        WriteSectors(sectorNumber, data);
      } else {
        Relocate(slot, data);
      }

      SetTimestamp(slot, WrapInt32(epochSeconds));
    }

    /**
     * The branch of `write(x, z, data, length)` that moves the chunk: free
     * the slot's old sectors, take the first free run that fits or grow the
     * file, write the frame and record the new descriptor.
     */
    method Relocate(slot: int, data: seq<byte>)
      requires Valid() && 0 <= slot < SectorInts && WriteDefined(State(), slot, |data|)
      requires PlacementOf(State(), slot, SectorsNeeded(|data|)).Reuse?
            || PlacementOf(State(), slot, SectorsNeeded(|data|)).Append?
      modifies this, offsets
      ensures Valid() && State() == Place(old(State()), slot, data)
    {
      var offset := offsets[slot];
      var sectorNumber := SectorOf(offset);
      var sectorsAllocated := CountOf(offset);
      var sectorsNeeded := SectorsNeeded(|data|);
      SectorsNeededFits(|data|);

      SetSectors(sectorNumber, sectorsAllocated, true);
      var runStart, runLength := FindRun(sectorFree, sectorsNeeded);
      if runLength >= sectorsNeeded {
        TakeRun(slot, runStart, data);
      } else {
        Append(slot, data);
      }
    }

    /** The first-fit branch: record the descriptor, mark the run taken, write the frame. */
    method TakeRun(slot: int, start: int, data: seq<byte>)
      requires Valid() && 0 <= slot < SectorInts && IsInt32(|data| + 1) && SectorsNeeded(|data|) < SectorLimit
      requires 0 <= start && start + SectorsNeeded(|data|) <= |sectorFree|
      modifies this, offsets
      ensures Valid() && State() == MoveTo(old(State()), slot, start, data)
    {
      var sectorsNeeded := SectorsNeeded(|data|);
      SectorsNeededFits(|data|);
      UnpackPack(start, sectorsNeeded);
      SetOffset(slot, Pack(start, sectorsNeeded));
      SetSectors(start, sectorsNeeded, false);
      WriteSectors(start, data);
    }

    /** The growth branch: append the sectors, write the frame, record the descriptor. */
    method Append(slot: int, data: seq<byte>)
      requires Valid() && 0 <= slot < SectorInts && IsInt32(|data| + 1) && SectorsNeeded(|data|) < SectorLimit
      requires |sectorFree| + SectorsNeeded(|data|) <= MaxSectors
      modifies this, offsets
      ensures Valid() && State() == GrowTo(old(State()), slot, data)
    {
      var sectorsNeeded := SectorsNeeded(|data|);
      var sectorNumber := |sectorFree|;
      SectorsNeededFits(|data|);
      UnpackPack(sectorNumber, sectorsNeeded);
      Grow(sectorsNeeded);
      WriteSectors(sectorNumber, data);
      SetOffset(slot, Pack(sectorNumber, sectorsNeeded));
    }

    /** The private `write(sectorNumber, data, length)`: length word, version byte, payload. */
    method WriteSectors(sectorNumber: int, data: seq<byte>)
      requires Valid() && IsInt32(|data| + 1)
      requires 0 <= sectorNumber && sectorNumber * 4096 + ChunkHeaderSize + |data| <= |file|
      modifies this
      ensures Valid() && State() == PutFrame(old(State()), sectorNumber, data)
    {
      var at := sectorNumber * SectorBytes;
      FramePatches(file, at, data);
      file := Patch(file, at, EncodeInt32(|data| + 1));
      file := Patch(file, at + 4, [VersionDeflate]);
      file := Patch(file, at + ChunkHeaderSize, data);
    }

    /** The loops `for i < count: sectorFree.set(start + i, v)` that free and take sectors. */
    method SetSectors(start: int, count: nat, v: bool)
      requires Valid() && (count == 0 || (0 <= start && start + count <= |sectorFree|))
      modifies this
      ensures Valid() && State() == old(State()).(sectorFree := SetRun(old(sectorFree), start, count, v))
    {
      var i := 0;
      while i < count
        invariant 0 <= i <= count
        invariant sectorFree == SetRun(old(sectorFree), start, i, v)
        invariant file == old(file) && sizeDelta == old(sizeDelta)
      {
        sectorFree := sectorFree[start + i := v];
        i := i + 1;
      }
    }

    /** The growth loop: one empty sector appended and marked taken per step, then `sizeDelta` updated. */
    method Grow(count: nat)
      requires Valid() && |sectorFree| + count <= MaxSectors
      modifies this
      ensures Valid() && State() == Extend(old(State()), count)
    {
      var i := 0;
      while i < count
        invariant 0 <= i <= count
        invariant sectorFree == old(sectorFree) + seq(i, _ => false)
        invariant file == old(file) + Zeros(4096 * i)
        invariant sizeDelta == old(sizeDelta)
      {
        file := file + Zeros(SectorBytes);
        sectorFree := sectorFree + [false];
        i := i + 1;
      }
      sizeDelta := sizeDelta + SectorBytes * count;
    }

    /** `setOffset`: the descriptor in memory and, big-endian, at byte `4 * slot`. */
    method SetOffset(slot: int, d: int)
      requires Valid() && 0 <= slot < SectorInts && IsInt32(d)
      modifies this, offsets
      ensures Valid() && State() == SetDescriptor(old(State()), slot, d)
    {
      offsets[slot] := d;
      file := Patch(file, 4 * slot, EncodeInt32(d));
    }

    /** `setTimestamp`: the value in memory and, big-endian, at byte `4096 + 4 * slot`. */
    method SetTimestamp(slot: int, v: int)
      requires Valid() && 0 <= slot < SectorInts && IsInt32(v)
      modifies this, chunkTimestamps
      ensures Valid() && State() == Stamp(old(State()), slot, v)
    {
      chunkTimestamps[slot] := v;
      file := Patch(file, SectorBytes + 4 * slot, EncodeInt32(v));
    }
  }

  /** The constructor's first loop: `nSectors` free entries, then sectors 0 and 1 taken. */
  method NewBitmap(nSectors: nat) returns (free: seq<bool>)
    requires 2 <= nSectors
    ensures free == InitialBitmap(nSectors)
  {
    free := [];
    var i := 0;
    while i < nSectors
      invariant 0 <= i <= nSectors
      invariant free == seq(i, _ => true)
    {
      free := free + [true];
      i := i + 1;
    }
    free := free[0 := false][1 := false];
  }

  /**
   * The constructor's index loop: each descriptor read from the file, and
   * the sectors of each nonzero one that fits marked taken.
   */
  method ReadOffsets(f: seq<byte>, initial: seq<bool>) returns (offs: array<int>, free: seq<bool>)
    requires 2 * SectorBytes <= |f|
    requires forall i :: 0 <= i < SectorInts ==> MarkDefined(DescriptorAt(f, i), |initial|)
    ensures fresh(offs) && offs.Length == SectorInts
    ensures offs[..] == HeaderOffsets(f)
    ensures free == MarkAll(initial, HeaderOffsets(f))
  {
    offs := new int[SectorInts];
    free := initial;
    ghost var header := HeaderOffsets(f);
    var i := 0;
    while i < SectorInts
      invariant 0 <= i <= SectorInts
      invariant |free| == |initial|
      invariant forall k :: 0 <= k < i ==> offs[k] == header[k]
      invariant free == MarkAll(initial, header[..i])
    {
      var offset := DescriptorAt(f, i);
      offs[i] := offset;
      MarkAllSnoc(initial, header, i);
      free := MarkDescriptor(free, offset);
      i := i + 1;
    }
    assert header[..SectorInts] == header;
    assert offs[..] == header;
  }

  /**
   * The constructor's inner loop: the sectors of a nonzero descriptor that
   * fits within the free-list are marked taken.
   */
  method MarkDescriptor(free: seq<bool>, offset: int) returns (marked: seq<bool>)
    requires MarkDefined(offset, |free|)
    ensures marked == Mark(free, offset)
  {
    marked := free;
    if offset != 0 && SectorOf(offset) + CountOf(offset) <= |free| {
      var sectorNum := 0;
      while sectorNum < CountOf(offset)
        invariant 0 <= sectorNum <= CountOf(offset)
        invariant marked == SetRun(free, SectorOf(offset), sectorNum, false)
      {
        marked := marked[SectorOf(offset) + sectorNum := false];
        sectorNum := sectorNum + 1;
      }
    }
  }

  /** The constructor's timestamp loop. */
  method ReadTimestamps(f: seq<byte>) returns (stamps: array<int>)
    requires 2 * SectorBytes <= |f|
    ensures fresh(stamps) && stamps[..] == HeaderTimestamps(f)
  {
    stamps := new int[SectorInts];
    var i := 0;
    while i < SectorInts
      invariant 0 <= i <= SectorInts
      invariant forall k :: 0 <= k < i ==> stamps[k] == TimestampAt(f, k)
    {
      stamps[i] := TimestampAt(f, i);
      i := i + 1;
    }
  }
}
