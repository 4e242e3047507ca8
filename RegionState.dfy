/**
 * The region file as a value: the two header tables, the sector free-list,
 * the bytes of the backing file and the count of bytes appended since it
 * was opened. Opening, reading and writing are given here as functions of
 * that value; the class in RegionFile.dfy is proved to follow them, and
 * RegionLemmas.dfy proves what they promise.
 */
module RegionState {
  import opened Optional
  import opened Bytes
  import opened Layout
  import opened SectorBitmap

  /** The state of an open region file. */
  datatype Store = Store(
    offsets: seq<int>,       // the in-memory index table, one descriptor per slot
    timestamps: seq<int>,    // the in-memory timestamp table, epoch seconds per slot
    sectorFree: seq<bool>,   // one entry per sector of the file, true when free
    file: seq<byte>,         // the backing file
    sizeDelta: int)          // bytes the file has grown by since it was opened

  /** What a successful read exposes: the version byte and the (still compressed) payload. */
  datatype Chunk = Chunk(version: byte, payload: seq<byte>)

  /** The shape every reachable state has. */
  predicate WellFormed(s: Store) {
    && |s.offsets| == SectorInts
    && |s.timestamps| == SectorInts
    && 2 <= |s.sectorFree| <= MaxSectors
    && |s.file| == 4096 * |s.sectorFree|
    && 0 <= s.sizeDelta <= |s.file|
    && (forall i :: 0 <= i < SectorInts ==> IsInt32(s.offsets[i]))
    && (forall i :: 0 <= i < SectorInts ==> IsInt32(s.timestamps[i]))
  }

  /** The descriptor that the file's index table holds for slot `i` (bytes `4*i .. 4*i + 3`). */
  function DescriptorAt(f: seq<byte>, i: int): int
    requires 0 <= i < SectorInts && SectorBytes <= |f|
  {
    ReadInt32At(f, 4 * i)
  }

  /** The timestamp that the file's second table holds for slot `i` (bytes `4096 + 4*i ..`). */
  function TimestampAt(f: seq<byte>, i: int): int
    requires 0 <= i < SectorInts && 2 * SectorBytes <= |f|
  {
    ReadInt32At(f, 4096 + 4 * i)
  }

  // ---------------------------------------------------------------- opening

  /**
   * The file after the constructor's first branch: a file shorter than one
   * sector gets two empty sectors written from position 0, which leaves
   * exactly 8192 zero bytes.
   */
  function Initialized(contents: seq<byte>): (f: seq<byte>)
    ensures |contents| < SectorBytes ==> f == Zeros(2 * SectorBytes)
    ensures SectorBytes <= |contents| ==> f == contents
  {
    if |contents| < SectorBytes then Zeros(2 * SectorBytes) else contents
  }

  /**
   * File lengths the constructor handles without failing and without its
   * padding branch: shorter than a sector, or whole sectors, at least two of
   * them and fewer than 2^31 bytes.
   */
  predicate OpenLength(n: nat) {
    n < SectorBytes || (n % SectorBytes == 0 && 2 * SectorBytes <= n < 0x8000_0000)
  }

  /** Marking descriptor `o` in a bitmap of `n` sectors indexes no negative sector. */
  predicate MarkDefined(o: int, n: int) {
    o != 0 && SectorOf(o) + CountOf(o) <= n && 0 < CountOf(o) ==> 0 <= SectorOf(o)
  }

  /** The constructor runs to the end on these contents. */
  predicate OpenDefined(contents: seq<byte>) {
    && OpenLength(|contents|)
    && forall i :: 0 <= i < SectorInts ==>
         MarkDefined(DescriptorAt(Initialized(contents), i), |Initialized(contents)| / SectorBytes)
  }

  /** The index table as it is read from the file. */
  function HeaderOffsets(f: seq<byte>): (r: seq<int>)
    requires 2 * SectorBytes <= |f|
    ensures |r| == SectorInts
  {
    seq(SectorInts, i requires 0 <= i < SectorInts => DescriptorAt(f, i))
  }

  /** The timestamp table as it is read from the file. */
  function HeaderTimestamps(f: seq<byte>): (r: seq<int>)
    requires 2 * SectorBytes <= |f|
    ensures |r| == SectorInts
  {
    seq(SectorInts, i requires 0 <= i < SectorInts => TimestampAt(f, i))
  }

  /** `n` free sectors, then sectors 0 and 1 (the two header tables) taken. */
  function InitialBitmap(n: nat): (r: seq<bool>)
    ensures |r| == n
  {
    SetRun(seq(n, _ => true), 0, 2, false)
  }

  /**
   * The state the constructor builds from the file's contents: both tables
   * as the file holds them, sectors 0 and 1 taken, and past them a sector
   * free exactly when no descriptor that fits in the file covers it.
   */
  function Opened(contents: seq<byte>): (r: Store)
    requires OpenLength(|contents|)
    ensures WellFormed(r) && |r.sectorFree| == |Initialized(contents)| / SectorBytes
    ensures !r.sectorFree[0] && !r.sectorFree[1] && BitmapExact(r)
    ensures HeaderPersisted(r)
    ensures r.file == Initialized(contents)
    ensures r.sizeDelta == if |contents| < SectorBytes then 2 * SectorBytes else 0
  {
    var f := Initialized(contents);
    var offsets := HeaderOffsets(f);
    Store(offsets, HeaderTimestamps(f), MarkAll(InitialBitmap(|f| / SectorBytes), offsets), f,
          if |contents| < SectorBytes then 2 * SectorBytes else 0)
  }

  // ---------------------------------------------------------------- reading

  /**
   * The reads the model covers: a descriptor that passes the range check
   * has a nonnegative sector number inside the file, so its length word
   * lies inside the file. Java also reads at a negative sector number whose
   * `int` product with 4096 wraps to a nonnegative position; those reads
   * are not covered.
   */
  predicate ReadDefined(s: Store, x: int, z: int)
    requires WellFormed(s)
  {
    OutOfBounds(x, z) ||
    var o := s.offsets[Slot(x, z)];
    o == 0 || SectorOf(o) + CountOf(o) > |s.sectorFree| || 0 <= SectorOf(o) < |s.sectorFree|
  }

  /** What `read(x, z)` returns, before decompression. */
  function Read(s: Store, x: int, z: int): (r: Option<Chunk>)
    requires WellFormed(s) && ReadDefined(s, x, z)
    ensures r.Some? <==>
      && !OutOfBounds(x, z)
      && var o := s.offsets[Slot(x, z)];
      && o != 0 && SectorOf(o) + CountOf(o) <= |s.sectorFree|
      && 0 < ReadInt32At(s.file, SectorOf(o) * 4096) <= 4096 * CountOf(o)
      && s.file[SectorOf(o) * 4096 + 4] in {VersionGzip, VersionDeflate}
    ensures r.Some? ==>
      var at := SectorOf(s.offsets[Slot(x, z)]) * 4096;
      && r.value.version == s.file[at + 4]
      && |r.value.payload| == ReadInt32At(s.file, at) - 1
      && forall k :: 0 <= k < |r.value.payload| ==>
           r.value.payload[k] == if at + ChunkHeaderSize + k < |s.file| then s.file[at + ChunkHeaderSize + k] else 0
  {
    if OutOfBounds(x, z) then None
    else
      var o := s.offsets[Slot(x, z)];
      var sector, count := SectorOf(o), CountOf(o);
      if o == 0 || sector + count > |s.sectorFree| then None
      else
        var at := sector * 4096;
        var length := ReadInt32At(s.file, at);
        if length > 4096 * count || length <= 0 then None
        else
          var version := s.file[at + 4];
          if version == VersionGzip || version == VersionDeflate then
            Some(Chunk(version, ReadPadded(s.file, at + ChunkHeaderSize, length - 1)))
          else None
  }

  // ---------------------------------------------------------------- writing

  /** Where a write of `need` sectors to `slot` puts the chunk. */
  datatype Placement =
    | Dropped            // 256 sectors or more: nothing is written
    | Rewrite(start: int) // same sector count as before: the old sectors are reused as they are
    | Reuse(start: int)   // the first free run, after the slot's old sectors are freed
    | Append(start: int)  // no run fits: new sectors at the end of the file

  /** The free-list after the slot's old sectors are marked free. */
  function Released(s: Store, slot: int): (r: seq<bool>)
    requires WellFormed(s) && 0 <= slot < SectorInts
    ensures |r| == |s.sectorFree|
  {
    SetRun(s.sectorFree, SectorOf(s.offsets[slot]), CountOf(s.offsets[slot]), true)
  }

  /**
   * The branch `write(x, z, data, length)` takes for a chunk of `need`
   * sectors: dropped at 256 sectors or more, rewritten in place when the old
   * descriptor has a nonzero sector and the same count, otherwise the first
   * fit in the free-list with the old sectors freed, or else the end of the file.
   */
  function PlacementOf(s: Store, slot: int, need: nat): (r: Placement)
    requires WellFormed(s) && 0 <= slot < SectorInts
    ensures r.Dropped? <==> SectorLimit <= need
    ensures r.Rewrite? <==>
      need < SectorLimit && SectorOf(s.offsets[slot]) != 0 && CountOf(s.offsets[slot]) == need
    ensures r.Rewrite? ==> r.start == SectorOf(s.offsets[slot])
    ensures r.Reuse? ==> FreeRun(Released(s, slot), r.start, need)
    ensures r.Reuse? ==> forall t :: 0 <= t < r.start ==> !FreeRun(Released(s, slot), t, need)
    ensures r.Append? ==> r.start == |s.sectorFree|
    ensures r.Append? ==> forall t :: 0 <= t ==> !FreeRun(Released(s, slot), t, need)
  {
    var o := s.offsets[slot];
    if need >= SectorLimit then Dropped
    else if SectorOf(o) != 0 && CountOf(o) == need then Rewrite(SectorOf(o))
    else match FirstFit(Released(s, slot), need)
      case Some(start) => Reuse(start)
      case None => Append(|s.sectorFree|)
  }

  /** Freeing the slot's old sectors indexes only sectors of the free-list. */
  predicate ReleaseDefined(o: int, n: int) {
    CountOf(o) == 0 || (0 <= SectorOf(o) && SectorOf(o) + CountOf(o) <= n)
  }

  /**
   * The writes the model covers: `length + 5` stays an `int`, the old
   * sectors a write frees exist, a same-size rewrite lands at a positive
   * sector inside the file, and growth leaves at most 2^19 - 1 sectors.
   * Java fails when freeing an absent sector. It completes the other
   * excluded writes: it writes at a wrapped position, extends the file, or
   * grows it to 2^31 bytes, which the next open cannot handle.
   */
  predicate WriteDefined(s: Store, slot: int, length: nat)
    requires WellFormed(s) && 0 <= slot < SectorInts
  {
    var need := SectorsNeeded(length);
    && length + ChunkHeaderSize <= Int32Max
    && match PlacementOf(s, slot, need)
       case Dropped => true
       case Rewrite(start) => 0 < start && start + need <= |s.sectorFree|
       case Reuse(_) => ReleaseDefined(s.offsets[slot], |s.sectorFree|)
       case Append(start) => ReleaseDefined(s.offsets[slot], |s.sectorFree|) && start + need <= MaxSectors
  }

  /** `setOffset`: the slot's descriptor in memory and at byte `4 * slot`. */
  function SetDescriptor(s: Store, slot: int, d: int): Store
    requires |s.offsets| == SectorInts && SectorBytes <= |s.file| && 0 <= slot < SectorInts && IsInt32(d)
  {
    s.(offsets := s.offsets[slot := d], file := Patch(s.file, 4 * slot, EncodeInt32(d)))
  }

  /** `setTimestamp`: the slot's timestamp in memory and at byte `4096 + 4 * slot`. */
  function Stamp(s: Store, slot: int, v: int): Store
    requires |s.timestamps| == SectorInts && 2 * SectorBytes <= |s.file| && 0 <= slot < SectorInts && IsInt32(v)
  {
    s.(timestamps := s.timestamps[slot := v], file := Patch(s.file, 4096 + 4 * slot, EncodeInt32(v)))
  }

  /** The private `write(sectorNumber, data, length)`: the frame at the start of sector `start`. */
  function PutFrame(s: Store, start: int, data: seq<byte>): Store
    requires IsInt32(|data| + 1) && 0 <= start && start * 4096 + ChunkHeaderSize + |data| <= |s.file|
  {
    s.(file := Patch(s.file, start * 4096, Frame(data)))
  }

  /** The growth loop: `count` empty sectors appended, each marked taken. */
  function Extend(s: Store, count: nat): Store {
    s.(sectorFree := s.sectorFree + seq(count, _ => false),
       file := s.file + Zeros(4096 * count),
       sizeDelta := s.sizeDelta + 4096 * count)
  }

  /**
   * The first-fit branch, on the state whose old sectors are already freed:
   * the descriptor recorded, the run marked taken, the frame written.
   */
  function MoveTo(s: Store, slot: int, start: int, data: seq<byte>): (r: Store)
    requires WellFormed(s) && 0 <= slot < SectorInts && IsInt32(|data| + 1)
    requires SectorsNeeded(|data|) < SectorLimit && 0 <= start && start + SectorsNeeded(|data|) <= |s.sectorFree|
    ensures WellFormed(r)
  {
    var need := SectorsNeeded(|data|);
    SectorsNeededFits(|data|);
    UnpackPack(start, need);
    var placed := SetDescriptor(s, slot, Pack(start, need));
    PutFrame(placed.(sectorFree := SetRun(placed.sectorFree, start, need, false)), start, data)
  }

  /**
   * The growth branch, on the state whose old sectors are already freed:
   * new sectors appended at the end, the frame written, the descriptor
   * recorded.
   */
  function GrowTo(s: Store, slot: int, data: seq<byte>): (r: Store)
    requires WellFormed(s) && 0 <= slot < SectorInts && IsInt32(|data| + 1)
    requires SectorsNeeded(|data|) < SectorLimit && |s.sectorFree| + SectorsNeeded(|data|) <= MaxSectors
    ensures WellFormed(r)
  {
    var need, start := SectorsNeeded(|data|), |s.sectorFree|;
    SectorsNeededFits(|data|);
    UnpackPack(start, need);
    SetDescriptor(PutFrame(Extend(s, need), start, data), slot, Pack(start, need))
  }

  /** The new chunk's frame and descriptor in place, the timestamp not yet written. */
  function Place(s: Store, slot: int, data: seq<byte>): (r: Store)
    requires WellFormed(s) && 0 <= slot < SectorInts && WriteDefined(s, slot, |data|)
    requires !PlacementOf(s, slot, SectorsNeeded(|data|)).Dropped?
    ensures WellFormed(r)
  {
    var need := SectorsNeeded(|data|);
    SectorsNeededFits(|data|);
    match PlacementOf(s, slot, need)
    case Rewrite(start) =>
      PutFrame(s, start, data)
    case Reuse(start) =>
      MoveTo(s.(sectorFree := Released(s, slot)), slot, start, data)
    case Append(_) =>
      GrowTo(s.(sectorFree := Released(s, slot)), slot, data)
  }

  /**
   * What `write(x, z, data, length)` does to the state, `slot` being
   * `x + z * 32` and `ts` the timestamp as an `int`.
   */
  function Write(s: Store, slot: int, data: seq<byte>, ts: int): (r: Store)
    requires WellFormed(s) && 0 <= slot < SectorInts && WriteDefined(s, slot, |data|) && IsInt32(ts)
    ensures WellFormed(r)
  {
    if PlacementOf(s, slot, SectorsNeeded(|data|)).Dropped? then s
    else Stamp(Place(s, slot, data), slot, ts)
  }

  // ---------------------------------------------------------------- invariants

  /** The ranges of two descriptors share no sector. */
  predicate Disjoint(o1: int, o2: int) {
    SectorOf(o1) + CountOf(o1) <= SectorOf(o2) || SectorOf(o2) + CountOf(o2) <= SectorOf(o1)
  }

  /**
   * The frame of descriptor `o` lies inside its sectors, or its length word
   * already makes `read` reject it.
   */
  predicate FrameContained(f: seq<byte>, o: int)
    requires 0 <= SectorOf(o) && SectorOf(o) * 4096 + 4 <= |f|
  {
    var length := ReadInt32At(f, SectorOf(o) * 4096);
    length <= 0 || length > 4096 * CountOf(o) || length + 4 <= 4096 * CountOf(o)
  }

  /** A nonzero descriptor of a consistent file: past the header sectors, nonempty, inside the file. */
  predicate Live(s: Store, o: int)
    requires WellFormed(s)
  {
    && 2 <= SectorOf(o) && 1 <= CountOf(o) && SectorOf(o) + CountOf(o) <= |s.sectorFree|
    && FrameContained(s.file, o)
  }

  /** Both tables in memory equal the tables in the file (write-through). */
  predicate HeaderPersisted(s: Store)
    requires WellFormed(s)
  {
    forall i :: 0 <= i < SectorInts ==> DescriptorAt(s.file, i) == s.offsets[i] && TimestampAt(s.file, i) == s.timestamps[i]
  }

  /** Past the header, a sector is free exactly when no descriptor covers it. */
  predicate BitmapExact(s: Store)
    requires WellFormed(s)
  {
    forall k :: 2 <= k < |s.sectorFree| ==>
      (s.sectorFree[k] <==> Uncovered(s.offsets, |s.sectorFree|, k))
  }

  /** The allocator's invariant: a state a healthy file is in and every write keeps it in. */
  predicate Consistent(s: Store) {
    && WellFormed(s)
    && !s.sectorFree[0] && !s.sectorFree[1]
    && HeaderPersisted(s)
    && BitmapExact(s)
    && (forall i :: 0 <= i < SectorInts && s.offsets[i] != 0 ==> Live(s, s.offsets[i]))
    && (forall i, j :: 0 <= i < SectorInts && 0 <= j < SectorInts && i != j && s.offsets[i] != 0 && s.offsets[j] != 0 ==>
          Disjoint(s.offsets[i], s.offsets[j]))
  }
}
