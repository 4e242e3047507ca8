# RegionFile in Dafny

A model of `RegionFile`, the Minecraft region-file store. It keeps up to 1024
chunk blobs, addressed by (x, z) in a 32x32 grid, in one file divided into
4096-byte sectors.

The file has this layout:

- Sector 0 holds the index table: one big-endian descriptor per slot
  `x + z*32`. A descriptor is `(sector << 8) | count`.
- Sector 1 holds the timestamp table: one big-endian epoch-second value per
  slot.
- Every chunk is a frame at the start of its own run of sectors. A frame is
  a big-endian length word `length + 1`, then a version byte (1 gzip,
  2 deflate), then the payload.

In memory the object keeps both tables, a free-list with one boolean per
sector, and `sizeDelta`, the number of bytes the file has grown by since it
was opened.

The model has three layers:

- **Specification functions** (`RegionState`). The state is a value `Store`
  (offsets, timestamps, free-list, file bytes, sizeDelta). `Opened`, `Read`
  and `Write` say what opening, reading and writing do. Writing is built
  from:
  - `Place`, which chooses between rewrite in place, first-fit reuse
    (`MoveTo`) and growth (`GrowTo`);
  - `SetDescriptor`, `Stamp` and `PutFrame`.
- **The object** (`RegionFile.RegionFile`). It is a class whose index and
  timestamp tables are arrays and whose free-list, file and `sizeDelta` are
  fields its methods reassign. Every loop on the paths modelled is a `while`
  loop with its invariants:
  - opening: the bitmap, the index, the marking and the timestamps;
  - writing: freeing, the run scan, taking, growing.

  Every method is proved to move the object's state exactly as the matching
  specification function does.
- **Properties.** These are proved about the specification functions, in
  `RegionLemmas`, `WriteLemmas`, `ChunkLemmas` and `GrowthLemmas`:
  - the int32 and frame round trips;
  - first fit;
  - in-place rewrite;
  - growth;
  - the allocator invariant `Consistent` (header written through, free-list
    exact, chunks inside the file and pairwise disjoint). Every write keeps
    it. Opening establishes it when every nonzero descriptor in the file has
    a sector number of at least 2, a count of at least 1, fits in the file,
    holds a frame inside its sectors, and shares no sector with another
    (`OpenedConsistent`);
  - read-after-write, isolation between chunks, and reopening.

Bytes are integers in 0..255. Java `int` values are unbounded integers
checked or wrapped explicitly (`IsInt32`, `WrapInt32`). `o >> 8` and
`o & 0xff` are Dafny's Euclidean `o / 256` and `o % 256`, which agree with
Java for negative descriptors too. Payloads are the compressed bytes as they
are stored. Compression is outside the model, so a read returns the version
byte and the stored payload.

Some of what the code does is worth spelling out, because its own comments
suggest otherwise:

- The comment at `RegionFile.java:130` says a file whose size is not a
  multiple of 4096 is grown. The padding loop (`RegionFile.java:131-133`)
  writes `length & 0xfff` zero bytes at the current file position, which is
  0 at that point. That overwrites the start of the index table and leaves
  the length unaligned. Opening is therefore modelled only for lengths under
  4096 and for whole numbers of sectors (`OpenLength`).
- The two empty sectors are written only when the length is below 4096
  (`RegionFile.java:123`). A file of exactly 4096 bytes gets a one-entry
  free-list, and `sectorFree.set(1, false)` at `RegionFile.java:144` fails.
  `OpenLength` excludes it.
- The format comment at `RegionFile.java:86-87` says the length must be
  smaller than 4096 times the number of sectors. `read` only rejects
  `length > 4096 * count` (`RegionFile.java:183`), so a frame may run 4 bytes
  past its sectors. `RandomAccessFile.read` then returns short at the end of
  the file and leaves the rest of the zeroed array as it is. `ReadPadded`
  models this, and the invariant carries `FrameContained` so that other
  chunks are never read this way.
- Timestamps are the Java `(int)` cast of epoch seconds
  (`RegionFile.java:273`, modelled by `WrapInt32`), so they are signed 32-bit
  values.

## Model

All paths are `src/main/java/net/kyori/regionfile/RegionFile.java`.

| member | source | states |
|---|---|---|
| Bytes.EncodeInt32 | src/main/java/net/kyori/regionfile/RegionFile.java:290 | `writeInt` writes four bytes, and the first has its top bit set exactly when the value is negative |
| Bytes.DecodeInt32 | src/main/java/net/kyori/regionfile/RegionFile.java:149 | `readInt` of four bytes is an int32, negative exactly when the first byte's top bit is set |
| Bytes.ReadPadded | src/main/java/net/kyori/regionfile/RegionFile.java:191-196 | reading `length - 1` bytes into a fresh array gives that many bytes: every position still inside the file holds the file's byte, even when the read runs past the end, and every position past the end holds zero |
| Bytes.DecodeEncode | src/main/java/net/kyori/regionfile/RegionFile.java:287-291 | an int written big-endian by `writeInt` reads back as the same int with `readInt` |
| Bytes.EncodeDecode | src/main/java/net/kyori/regionfile/RegionFile.java:148-150 | four bytes read by `readInt` and written back by `writeInt` are the same four bytes |
| Bytes.WrapInt32 | src/main/java/net/kyori/regionfile/RegionFile.java:273 | the `(int)` cast of the seconds value is an int32 congruent to it modulo 2^32 and leaves int32 values alone |
| Bytes.Patch | src/main/java/net/kyori/regionfile/RegionFile.java:276-281 | a seek-then-write keeps the file length, puts the bytes at the position and leaves every other byte as it was |
| Bytes.ReadPaddedLocal | src/main/java/net/kyori/regionfile/RegionFile.java:195-196 | a payload read that stays inside two files gives the same bytes when the files agree on the bytes read |
| Bytes.ReadPatchedInt32 | src/main/java/net/kyori/regionfile/RegionFile.java:293-297 | after a word is written at a position, `readInt` there gives the value written |
| Bytes.ReadInt32Local | src/main/java/net/kyori/regionfile/RegionFile.java:182 | `readInt` depends only on the four bytes it reads |
| Layout.OutOfBounds | src/main/java/net/kyori/regionfile/RegionFile.java:299-301 | coordinates that pass the bounds check give an index `x + z*32` inside the 1024-entry tables |
| Layout.SlotBijective | src/main/java/net/kyori/regionfile/RegionFile.java:283-284 | in-bounds coordinates map one to one onto slots `x + z*32` in [0, 1024) and back; `Slot` is the index `x + z * 32` |
| Layout.SectorsNeededFits | src/main/java/net/kyori/regionfile/RegionFile.java:214 | `(length + 5) / 4096 + 1` sectors hold the frame strictly, and one sector fewer would not; `SectorsNeeded` is that count |
| Layout.UnpackPack | src/main/java/net/kyori/regionfile/RegionFile.java:253 | `>> 8` and `& 0xff` of `(s << 8) \| n` give back `s` and `n` for `n < 256`; the descriptor is nonzero for `n >= 1` and an int32 below 2^19 sectors; `SectorOf`, `CountOf` and `Pack` are `>> 8`, `& 0xff` and `(s << 8) \| n` |
| Layout.PackUnpack | src/main/java/net/kyori/regionfile/RegionFile.java:174-175 | every descriptor, negative ones included, is the packing of its sector number and count (`Pack`, `SectorOf`, `CountOf`) |
| Layout.FramePatches | src/main/java/net/kyori/regionfile/RegionFile.java:276-281 | the three writes of the private `write` (length word, version byte, payload) put one frame at the sector's first byte; `Frame` is that frame |
| Layout.FrameDecodes | src/main/java/net/kyori/regionfile/RegionFile.java:182-196 | a frame decodes as length word `length + 1`, version 2 and exactly the payload |
| SectorBitmap.SetRun | src/main/java/net/kyori/regionfile/RegionFile.java:225-227 | setting a run keeps the free-list length |
| SectorBitmap.IndexOf | src/main/java/net/kyori/regionfile/RegionFile.java:230 | `indexOf(v)` is -1 when no entry holds `v`, else the first entry holding `v` |
| SectorBitmap.FirstFitFrom | src/main/java/net/kyori/regionfile/RegionFile.java:229-248 | returns the lowest start of a run of free sectors long enough, or none when no such run exists |
| SectorBitmap.FindRun | src/main/java/net/kyori/regionfile/RegionFile.java:229-248 | the scan loop finds a run exactly when a first fit exists, and then stops at the first-fit start |
| SectorBitmap.FirstFit | src/main/java/net/kyori/regionfile/RegionFile.java:229-250 | the first fit is a run of free sectors long enough with no such run starting lower, and there is none only when no run anywhere is long enough |
| SectorBitmap.Mark | src/main/java/net/kyori/regionfile/RegionFile.java:151-155 | marking one descriptor keeps the length and makes a sector taken exactly when the descriptor is nonzero, fits in the file and covers it |
| SectorBitmap.MarkAll | src/main/java/net/kyori/regionfile/RegionFile.java:148-156 | after the marking loop a sector is free exactly when it was free and no fitting nonzero descriptor covers it |
| SectorBitmap.MarkAllSnoc | src/main/java/net/kyori/regionfile/RegionFile.java:148-156 | marking one more descriptor extends the marking of the ones before it |
| RegionState.Initialized | src/main/java/net/kyori/regionfile/RegionFile.java:123-127 | a file under 4096 bytes becomes exactly 8192 zero bytes; a longer one is kept |
| RegionState.Opened | src/main/java/net/kyori/regionfile/RegionFile.java:116-162 | opening keeps the initialized file (the contents, or 8192 zero bytes for a file under 4096 bytes, which alone counts as 8192 bytes of growth) and gives a well-formed state with one free-list entry per sector, sectors 0 and 1 taken, past them a sector free exactly when no fitting descriptor covers it, and both tables equal to the file's |
| RegionState.Read | src/main/java/net/kyori/regionfile/RegionFile.java:164-201 | a read returns a chunk exactly when the coordinates are in bounds, the descriptor is nonzero and fits, the length word is in 1..4096*count and the version byte is 1 or 2; the chunk carries that version and the `length - 1` bytes after the version byte, zero where they lie past the end of the file |
| RegionState.PlacementOf | src/main/java/net/kyori/regionfile/RegionFile.java:214-257 | a write is dropped exactly at 256 sectors or more; it rewrites in place exactly when the old sector is nonzero and the count unchanged; otherwise it takes the lowest free run after the old sectors are freed, or, when no run fits, the sector at the old end of the file |
| RegionState.Write | src/main/java/net/kyori/regionfile/RegionFile.java:210-274 | every write leaves a well-formed state: 1024 int32 entries per table and a file of whole sectors, fewer than 2^19 of them |
| RegionState.InitialBitmap | src/main/java/net/kyori/regionfile/RegionFile.java:136-144 | the initial free-list has one entry per sector |
| RegionState.HeaderOffsets | src/main/java/net/kyori/regionfile/RegionFile.java:148-150 | the index table read from the file has 1024 entries |
| RegionState.HeaderTimestamps | src/main/java/net/kyori/regionfile/RegionFile.java:158-161 | the timestamp table read from the file has 1024 entries |
| RegionState.Released | src/main/java/net/kyori/regionfile/RegionFile.java:224-227 | freeing the old sectors keeps the free-list length |
| RegionState.MoveTo | src/main/java/net/kyori/regionfile/RegionFile.java:250-257 | the first-fit branch keeps the state well formed |
| RegionState.GrowTo | src/main/java/net/kyori/regionfile/RegionFile.java:258-269 | the growth branch keeps the state well formed |
| RegionState.Place | src/main/java/net/kyori/regionfile/RegionFile.java:221-270 | placing a chunk keeps the state well formed |
| RegionFile.RegionFile.constructor | src/main/java/net/kyori/regionfile/RegionFile.java:116-162 | opening builds exactly the state `Opened(contents)` with fresh tables |
| RegionFile.RegionFile.GetOffset | src/main/java/net/kyori/regionfile/RegionFile.java:283-285 | `getOffset(x, z)` is the int32 descriptor of slot `x + z*32` in the index table |
| RegionFile.RegionFile.Read | src/main/java/net/kyori/regionfile/RegionFile.java:164-201 | `read(x, z)` returns exactly what the read specification gives for the current state, and changes nothing |
| RegionFile.RegionFile.Write | src/main/java/net/kyori/regionfile/RegionFile.java:203-208 | out of bounds there is no handle and no change; otherwise the state moves as `Write` with the wrapped timestamp |
| RegionFile.RegionFile.WriteChunk | src/main/java/net/kyori/regionfile/RegionFile.java:210-274 | `write(x, z, data, length)` moves the state exactly as `Write` with the wrapped timestamp |
| RegionFile.RegionFile.Relocate | src/main/java/net/kyori/regionfile/RegionFile.java:224-270 | freeing, scanning and then taking a run or growing moves the state exactly as `Place` |
| RegionFile.RegionFile.TakeRun | src/main/java/net/kyori/regionfile/RegionFile.java:250-257 | the first-fit branch moves the state exactly as `MoveTo` |
| RegionFile.RegionFile.Append | src/main/java/net/kyori/regionfile/RegionFile.java:258-269 | the growth branch moves the state exactly as `GrowTo` |
| RegionFile.RegionFile.WriteSectors | src/main/java/net/kyori/regionfile/RegionFile.java:276-281 | the private `write` puts the frame at the sector and changes nothing else; its `ensures` is the specification function `RegionState.PutFrame` |
| RegionFile.RegionFile.SetSectors | src/main/java/net/kyori/regionfile/RegionFile.java:254-256 | the set loop sets exactly the run and changes nothing else |
| RegionFile.RegionFile.Grow | src/main/java/net/kyori/regionfile/RegionFile.java:260-266 | the growth loop appends `count` taken sectors and `4096 * count` zero bytes and adds them to `sizeDelta`; its `ensures` is the specification function `RegionState.Extend` |
| RegionFile.RegionFile.SetOffset | src/main/java/net/kyori/regionfile/RegionFile.java:287-291 | `setOffset` changes the slot's descriptor in memory and in the file's index table; its `ensures` is the specification function `RegionState.SetDescriptor` |
| RegionFile.RegionFile.SetTimestamp | src/main/java/net/kyori/regionfile/RegionFile.java:293-297 | `setTimestamp` changes the slot's timestamp in memory and in the file's second table; its `ensures` is the specification function `RegionState.Stamp` |
| RegionFile.NewBitmap | src/main/java/net/kyori/regionfile/RegionFile.java:136-144 | the bitmap loop gives `nSectors` entries, free except sectors 0 and 1 |
| RegionFile.ReadOffsets | src/main/java/net/kyori/regionfile/RegionFile.java:146-156 | the index loop reads every descriptor and marks the sectors of each that fits |
| RegionFile.MarkDescriptor | src/main/java/net/kyori/regionfile/RegionFile.java:151-155 | the inner marking loop marks exactly the descriptor's sectors when it is nonzero and fits |
| RegionFile.ReadTimestamps | src/main/java/net/kyori/regionfile/RegionFile.java:158-161 | the timestamp loop reads every timestamp word |
| RegionLemmas.ReadFrame | src/main/java/net/kyori/regionfile/RegionFile.java:170-200 | a frame inside a slot's sectors passes every check of `read`, which returns version 2 and exactly the payload |
| RegionLemmas.ReadLocal | src/main/java/net/kyori/regionfile/RegionFile.java:180-197 | what `read` returns for a slot depends only on its descriptor and the bytes of its own sectors, when its frame lies inside its sectors (`FrameContained`) |
| RegionLemmas.ReadWithinSectors | src/main/java/net/kyori/regionfile/RegionFile.java:180-197 | in a consistent file every returned payload is made of bytes of the slot's own sectors |
| RegionLemmas.SameBitmap | src/main/java/net/kyori/regionfile/RegionFile.java:136-156 | two states with the same descriptors and sector count, both with an exact bitmap and the header sectors taken, have the same free-list |
| RegionLemmas.OpenedConsistent | src/main/java/net/kyori/regionfile/RegionFile.java:116-162 | a file whose descriptors lie past the header, fit, are disjoint and hold contained frames opens into a consistent state |
| RegionLemmas.ShortFileOpensEmpty | src/main/java/net/kyori/regionfile/RegionFile.java:123-127 | a file under 4096 bytes opens with two taken sectors, 8192 bytes counted as growth, and no chunk |
| RegionLemmas.ReopenRestores | src/main/java/net/kyori/regionfile/RegionFile.java:116-162 | reopening the file of a consistent state gives back its tables and free-list |
| WriteLemmas.PlaceEffects | src/main/java/net/kyori/regionfile/RegionFile.java:221-270 | placing keeps the timestamps and the other slots' descriptors, never shrinks the free-list, and counts appended bytes in `sizeDelta` |
| WriteLemmas.StampEffects | src/main/java/net/kyori/regionfile/RegionFile.java:293-297 | stamping changes only the slot's timestamp, in memory and in the file |
| WriteLemmas.WriteEffects | src/main/java/net/kyori/regionfile/RegionFile.java:214-273 | a write of 256 sectors or more changes nothing; any other sets exactly the slot's timestamp and keeps the other descriptors |
| WriteLemmas.RewriteInPlace | src/main/java/net/kyori/regionfile/RegionFile.java:221-222 | with a nonzero sector and an unchanged count, the descriptors, free-list, file length and `sizeDelta` stay as they are |
| WriteLemmas.ReuseFirstFit | src/main/java/net/kyori/regionfile/RegionFile.java:225-257 | the old sectors are freed; the chunk takes the lowest run that fits; exactly that run becomes taken and the descriptor records it; the file does not grow |
| WriteLemmas.AppendGrows | src/main/java/net/kyori/regionfile/RegionFile.java:258-270 | when no run fits, the new start is the old sector count, the free-list gains `need` taken sectors, and the file and `sizeDelta` gain `4096 * need` bytes |
| WriteLemmas.RunAvoidsTaken | src/main/java/net/kyori/regionfile/RegionFile.java:229-248 | a free run shares no sector with a run of taken sectors |
| WriteLemmas.ReleasedRunApart | src/main/java/net/kyori/regionfile/RegionFile.java:225-248 | in a consistent state a free run after the release lies past the header and apart from every other chunk |
| WriteLemmas.WriteTarget | src/main/java/net/kyori/regionfile/RegionFile.java:221-270 | the new sectors lie past the header and inside the file, at the old end when the file grew, and apart from every other chunk |
| WriteLemmas.WriteBytes | src/main/java/net/kyori/regionfile/RegionFile.java:221-281 | a write changes only the new frame, the slot's descriptor word and its timestamp word |
| WriteLemmas.WriteFreeList | src/main/java/net/kyori/regionfile/RegionFile.java:225-265 | after a write a sector is free exactly when it existed, lies outside the new sectors, and was free or was one of the slot's old sectors |
| WriteLemmas.BitmapStep | src/main/java/net/kyori/regionfile/RegionFile.java:225-265 | one sector of the free-list stays exactly "no descriptor covers it" across a write |
| WriteLemmas.WriteBitmapExact | src/main/java/net/kyori/regionfile/RegionFile.java:225-265 | after a write, past the header a sector is free exactly when no descriptor covers it |
| WriteLemmas.WritePlaces | src/main/java/net/kyori/regionfile/RegionFile.java:221-281 | every write that is not dropped places the chunk's frame at fresh sectors apart from every other chunk and changes no other byte outside the header words |
| WriteLemmas.HeaderKept | src/main/java/net/kyori/regionfile/RegionFile.java:287-297 | after a write the file's tables hold the slot's new descriptor and timestamp and every other entry as before |
| WriteLemmas.WriteHeaderPersisted | src/main/java/net/kyori/regionfile/RegionFile.java:287-297 | both tables stay written through to the file |
| WriteLemmas.LiveKept | src/main/java/net/kyori/regionfile/RegionFile.java:180-187 | another chunk's descriptor and frame survive a write |
| WriteLemmas.WriteKeepsLive | src/main/java/net/kyori/regionfile/RegionFile.java:221-281 | after a write every chunk lies past the header, inside the file, with its frame inside its sectors |
| WriteLemmas.WriteKeepsDisjoint | src/main/java/net/kyori/regionfile/RegionFile.java:225-270 | after a write no two chunks share a sector |
| WriteLemmas.WritePreservesConsistent | src/main/java/net/kyori/regionfile/RegionFile.java:210-274 | every write keeps the allocator's invariant |
| ChunkLemmas.ReadAfterWrite | src/main/java/net/kyori/regionfile/RegionFile.java:170-200 | reading a slot after writing `data` to it gives version 2 and exactly `data` |
| ChunkLemmas.WriteIsolation | src/main/java/net/kyori/regionfile/RegionFile.java:210-274 | a write to one chunk leaves what every other coordinate reads unchanged |
| ChunkLemmas.SameSizeStaysPut | src/main/java/net/kyori/regionfile/RegionFile.java:221-222 | after a write, a second write of the same sector count is an in-place rewrite at the same sector, keeping descriptors, free-list and file length |
| ChunkLemmas.ReopenReads | src/main/java/net/kyori/regionfile/RegionFile.java:116-201 | reopening the file of a consistent state reads back every chunk as before |
| GrowthLemmas.AppendWhenPacked | src/main/java/net/kyori/regionfile/RegionFile.java:258-269 | with no free sector, a write to an unused slot appends exactly the sectors it needs and leaves no sector free |
| GrowthLemmas.Fill | src/main/java/net/kyori/regionfile/RegionFile.java:258-269 | writes to distinct unused slots of a packed file grow it by exactly the sectors written |
| GrowthLemmas.FreshFileGrowth | src/main/java/net/kyori/regionfile/RegionFile.java:123-127 | a new file that takes N chunks of S sectors each in distinct slots ends with 2 + N*S sectors |

## Left out

- Compression and decompression (`GZIPInputStream`, `InflaterInputStream`, `DeflaterOutputStream`) are library calls. Payloads are the stored, compressed bytes, and a read returns the version byte beside them.
- The stream wrappers and `ChunkBuffer` are not modelled. `RegionFile.RegionFile.Write` is `write(x, z)` followed by the buffer's `close()`, which hands `buf` and `count` to `write(x, z, data, length)`; `data` stands for the first `count` bytes of the buffer.
- `synchronized`: every operation is sequential.
- `Instant.now()`: the write takes the epoch-second value as a parameter and applies the `(int)` cast. The millisecond-to-second division before it is not modelled.
- `file.lastModified()`, `lastModified`, the `Path` constructor and `close()` touch no state the core reads.
- The preconditions `OpenDefined`, `ReadDefined` and `WriteDefined` exclude some inputs. On some of these paths Java throws:
  - marking or freeing sectors at a negative index or past the free-list (`RegionFile.java:153`, `RegionFile.java:226`);
  - reading a length word at the very end of the file (`RegionFile.java:182`);
  - seeking to a negative position.

  The exclusions below do not fail in Java, and the model does not follow them.
- RegionState.ReadDefined and RegionFile.RegionFile.Read: a descriptor with a negative sector number is excluded once it passes the range check. Java computes `sectorNumber * SECTOR_BYTES` in `int` (`RegionFile.java:180`). When the product wraps to a nonnegative position, `read` reads there instead of failing. For example, descriptor `0x80000105` (sector -8388607, count 5) seeks to byte 4096, inside the timestamp table.
- RegionState.WriteDefined and RegionFile.RegionFile.WriteChunk: a same-size rewrite at a negative sector is excluded. Java takes the rewrite branch (`RegionFile.java:221-222`). When `sectorNumber * SECTOR_BYTES` wraps to a nonnegative position (`RegionFile.java:277`), the frame is written there. For example, descriptor `0x80000101` overwrites the start of the timestamp table.
- RegionState.WriteDefined and RegionFile.RegionFile.WriteChunk: growth that would end past 2^19 - 1 sectors is excluded, and every state has at most 2^19 - 1 sectors (`WellFormed`). Java completes such a write as long as the new start sector is below 2^19, because `start * 4096` is still an `int` (`RegionFile.java:258-270`). The resulting file has 2^31 bytes or more, and the next open fails on it (see below).
- RegionState.WriteDefined and RegionFile.RegionFile.WriteChunk: `length + 5` overflowing `int` is excluded. That needs a payload of at least 2^31 - 5 bytes. Java would compute the sector count from the wrapped value (`RegionFile.java:214`); the model does not follow this.
- RegionFile.RegionFile.WriteChunk and RegionState.WriteDefined: a same-size rewrite whose old descriptor runs past the end of the file is excluded. Java does not fail there: `seek` past the end is legal, so the private `write` (`RegionFile.java:222`, `RegionFile.java:277-280`) extends the file. The free-list keeps its length, so afterwards the file's length and the free-list disagree. The model keeps `|file| == 4096 * |sectorFree|` and does not follow that state.
- RegionState.OpenLength and RegionFile.RegionFile.constructor: the padding branch and files of 4096..8191 bytes are excluded, for the reasons given near the top of this file. Files of 2^31 bytes or more are excluded too. For them `(int) this.file.length()` (`RegionFile.java:136`) no longer gives the length. At 2^31 bytes the sector count is negative, and `new ArrayList<>(nSectors)` (`RegionFile.java:137`) throws.
- RegionFile.RegionFile.Write: proved to follow the `Write` specification on every state the preconditions allow. The chunk-level promises hold for states satisfying `Consistent`. Every write keeps it. An opened file satisfies it when every nonzero descriptor has a sector number of at least 2 and a count of at least 1, fits in the file, holds a frame inside its sectors, and shares no sector with another (`RegionLemmas.OpenedConsistent`). Files with overlapping or corrupt descriptors are not covered. This applies to read-after-write, isolation, reopening and the same-size rewrite.
- ChunkLemmas.WriteIsolation: stated for `Consistent` states only. In a corrupt file, two slots sharing sectors do see each other's writes.
- GrowthLemmas.FreshFileGrowth: all writes in the run use one timestamp, since timestamps do not affect placement.
