/**
 * What `write(x, z, data, length)` does, proved about RegionState.Write:
 * where the chunk goes, which bytes change, that the allocator's invariant
 * is kept, that the chunk reads back and that no other chunk moves.
 */
module WriteLemmas {
  import opened Optional
  import opened Bytes
  import opened Layout
  import opened SectorBitmap
  import opened RegionState
  import opened RegionLemmas

  /** A range written earlier survives a later write elsewhere. */
  lemma PatchKeeps(f: seq<byte>, at: int, bytes: seq<byte>, at2: int, bytes2: seq<byte>)
    requires 0 <= at && at + |bytes| <= |f| && f[at .. at + |bytes|] == bytes
    requires 0 <= at2 && at2 + |bytes2| <= |f|
    requires at + |bytes| <= at2 || at2 + |bytes2| <= at
    ensures Patch(f, at2, bytes2)[at .. at + |bytes|] == bytes
  {
    var g := Patch(f, at2, bytes2);
    forall k | 0 <= k < |bytes| ensures g[at .. at + |bytes|][k] == bytes[k] {
      assert g[at + k] == f[at + k];
    }
  }

  // ---------------------------------------------------------------- effects on any well-formed state

  /** Placing a chunk keeps the timestamps and the other descriptors, and only grows the file. */
  lemma PlaceEffects(s: Store, slot: int, data: seq<byte>)
    requires WellFormed(s) && 0 <= slot < SectorInts && WriteDefined(s, slot, |data|)
    requires !PlacementOf(s, slot, SectorsNeeded(|data|)).Dropped?
    ensures var p := Place(s, slot, data);
      && p.timestamps == s.timestamps
      && |s.sectorFree| <= |p.sectorFree|
      && p.sizeDelta - s.sizeDelta == |p.file| - |s.file|
      && (forall i :: 0 <= i < SectorInts && i != slot ==> p.offsets[i] == s.offsets[i])
  {
  }

  /** Stamping changes only the slot's timestamp, in memory and in the file's second table. */
  lemma StampEffects(p: Store, slot: int, ts: int)
    requires WellFormed(p) && 0 <= slot < SectorInts && IsInt32(ts)
    ensures var r := Stamp(p, slot, ts);
      && WellFormed(r)
      && r.timestamps == p.timestamps[slot := ts] && TimestampAt(r.file, slot) == ts
      && r.offsets == p.offsets && r.sectorFree == p.sectorFree
      && |r.file| == |p.file| && r.sizeDelta == p.sizeDelta
  {
    ReadPatchedInt32(p.file, 4096 + 4 * slot, ts);
  }

  /**
   * A write of 256 sectors or more changes nothing. Any other write stamps
   * exactly the slot's timestamp, in memory and in the file, and leaves the
   * other slots' descriptors alone. The free-list never shrinks and the
   * growth count follows the file's length.
   */
  lemma WriteEffects(s: Store, slot: int, data: seq<byte>, ts: int)
    requires WellFormed(s) && 0 <= slot < SectorInts && WriteDefined(s, slot, |data|) && IsInt32(ts)
    ensures var r := Write(s, slot, data, ts);
      && WellFormed(r)
      && |s.sectorFree| <= |r.sectorFree|
      && r.sizeDelta - s.sizeDelta == |r.file| - |s.file|
    ensures SectorsNeeded(|data|) >= SectorLimit ==> Write(s, slot, data, ts) == s
    ensures SectorsNeeded(|data|) < SectorLimit ==>
      var r := Write(s, slot, data, ts);
      && r.timestamps == s.timestamps[slot := ts]
      && TimestampAt(r.file, slot) == ts
      && (forall i :: 0 <= i < SectorInts && i != slot ==> r.offsets[i] == s.offsets[i])
  {
    if SectorsNeeded(|data|) < SectorLimit {
      PlaceEffects(s, slot, data);
      StampEffects(Place(s, slot, data), slot, ts);
    }
  }

  /**
   * Same sector count as before, at a nonzero sector: the descriptor and the
   * free-list stay as they are and the file keeps its length.
   */
  lemma RewriteInPlace(s: Store, slot: int, data: seq<byte>, ts: int)
    requires WellFormed(s) && 0 <= slot < SectorInts && WriteDefined(s, slot, |data|) && IsInt32(ts)
    requires var need := SectorsNeeded(|data|);
      need < SectorLimit && SectorOf(s.offsets[slot]) != 0 && CountOf(s.offsets[slot]) == need
    ensures PlacementOf(s, slot, SectorsNeeded(|data|)) == Rewrite(SectorOf(s.offsets[slot]))
    ensures var r := Write(s, slot, data, ts);
      && r.offsets == s.offsets && r.sectorFree == s.sectorFree
      && |r.file| == |s.file| && r.sizeDelta == s.sizeDelta
  {
  }

  /**
   * Otherwise the slot's old sectors are freed first; if a run fits, the
   * chunk takes the lowest run of free sectors long enough, those sectors
   * become taken and the descriptor records them; the file does not grow.
   */
  lemma ReuseFirstFit(s: Store, slot: int, data: seq<byte>, ts: int)
    requires WellFormed(s) && 0 <= slot < SectorInts && WriteDefined(s, slot, |data|) && IsInt32(ts)
    requires PlacementOf(s, slot, SectorsNeeded(|data|)).Reuse?
    ensures var o, need := s.offsets[slot], SectorsNeeded(|data|);
      var free := Released(s, slot);
      && !(SectorOf(o) != 0 && CountOf(o) == need)
      && forall k :: 0 <= k < |free| ==> (free[k] <==> s.sectorFree[k] || SectorOf(o) <= k < SectorOf(o) + CountOf(o))
    ensures var need, free := SectorsNeeded(|data|), Released(s, slot);
      var start := PlacementOf(s, slot, need).start;
      && FreeRun(free, start, need)
      && (forall t :: 0 <= t < start ==> !FreeRun(free, t, need))
    ensures var need, free := SectorsNeeded(|data|), Released(s, slot);
      var start := PlacementOf(s, slot, need).start;
      var r := Write(s, slot, data, ts);
      && |r.sectorFree| == |s.sectorFree|
      && (forall k :: 0 <= k < |free| ==> r.sectorFree[k] == (if start <= k < start + need then false else free[k]))
      && r.offsets[slot] == Pack(start, need)
      && |r.file| == |s.file| && r.sizeDelta == s.sizeDelta
  {
    var need := SectorsNeeded(|data|);
    var start := PlacementOf(s, slot, need).start;
    UnpackPack(start, need);
  }

  /**
   * When no run fits, the chunk goes at the old end of the file: the
   * free-list gains `need` taken sectors, the file and the growth count gain
   * `4096 * need` bytes, and the descriptor records the new sectors.
   */
  lemma AppendGrows(s: Store, slot: int, data: seq<byte>, ts: int)
    requires WellFormed(s) && 0 <= slot < SectorInts && WriteDefined(s, slot, |data|) && IsInt32(ts)
    requires PlacementOf(s, slot, SectorsNeeded(|data|)).Append?
    ensures var need, free := SectorsNeeded(|data|), Released(s, slot);
      && PlacementOf(s, slot, need).start == |s.sectorFree|
      && forall t :: 0 <= t ==> !FreeRun(free, t, need)
    ensures var need, free := SectorsNeeded(|data|), Released(s, slot);
      var r := Write(s, slot, data, ts);
      && r.sectorFree == free + seq(need, _ => false)
      && r.offsets[slot] == Pack(|s.sectorFree|, need)
      && |r.file| == |s.file| + 4096 * need
      && r.sizeDelta == s.sizeDelta + 4096 * need
  {
    var need := SectorsNeeded(|data|);
    UnpackPack(|s.sectorFree|, need);
  }

  // ---------------------------------------------------------------- writes to a consistent state

  /** A run of free sectors shares no sector with a range of taken ones. */
  lemma RunAvoidsTaken(free: seq<bool>, start: int, need: nat, o: int)
    requires 1 <= need && FreeRun(free, start, need)
    requires 1 <= CountOf(o) && 0 <= SectorOf(o) && SectorOf(o) + CountOf(o) <= |free|
    requires forall k :: SectorOf(o) <= k < SectorOf(o) + CountOf(o) ==> !free[k]
    ensures start + need <= SectorOf(o) || SectorOf(o) + CountOf(o) <= start
  {
    var k := if start < SectorOf(o) then SectorOf(o) else start;
    assert start <= k < start + need ==> free[k];
    assert SectorOf(o) <= k < SectorOf(o) + CountOf(o) ==> !free[k];
  }

  /**
   * The facts about the chunk's new descriptor `d` that a write to a
   * consistent state guarantees: past the header, inside the file, the
   * needed count, next to or at the end of the old file, and disjoint from
   * every other chunk.
   */
  predicate TargetFacts(s: Store, r: Store, slot: int, need: nat, start: int)
    requires WellFormed(s) && WellFormed(r) && 0 <= slot < SectorInts
  {
    var d := r.offsets[slot];
    && d != 0 && SectorOf(d) == start && CountOf(d) == need
    && 2 <= SectorOf(d) && SectorOf(d) + need <= |r.sectorFree|
    && (|r.sectorFree| == |s.sectorFree| || (SectorOf(d) == |s.sectorFree| && |r.sectorFree| == |s.sectorFree| + need))
    && (forall j :: 0 <= j < SectorInts && j != slot && s.offsets[j] != 0 ==> Disjoint(d, s.offsets[j]))
  }

  lemma RewriteTarget(s: Store, slot: int, data: seq<byte>, ts: int)
    requires Consistent(s) && 0 <= slot < SectorInts && WriteDefined(s, slot, |data|) && IsInt32(ts)
    requires PlacementOf(s, slot, SectorsNeeded(|data|)).Rewrite?
    ensures WellFormed(Write(s, slot, data, ts))
    ensures TargetFacts(s, Write(s, slot, data, ts), slot, SectorsNeeded(|data|), PlacementOf(s, slot, SectorsNeeded(|data|)).start)
  {
    SectorsNeededFits(|data|);
    WriteEffects(s, slot, data, ts);
    RewriteInPlace(s, slot, data, ts);
    assert Live(s, s.offsets[slot]);
  }

  /**
   * In a consistent state, a free run of the free-list with the slot's
   * sectors released lies past the header and apart from every other chunk.
   */
  lemma ReleasedRunApart(s: Store, slot: int, start: int, need: nat)
    requires Consistent(s) && 0 <= slot < SectorInts && ReleaseDefined(s.offsets[slot], |s.sectorFree|)
    requires 1 <= need && FreeRun(Released(s, slot), start, need)
    ensures 2 <= start
    ensures forall j :: 0 <= j < SectorInts && j != slot && s.offsets[j] != 0 ==>
      start + need <= SectorOf(s.offsets[j]) || SectorOf(s.offsets[j]) + CountOf(s.offsets[j]) <= start
  {
    var o := s.offsets[slot];
    var free := Released(s, slot);
    forall j | 0 <= j < SectorInts && j != slot && s.offsets[j] != 0
      ensures start + need <= SectorOf(s.offsets[j]) || SectorOf(s.offsets[j]) + CountOf(s.offsets[j]) <= start
    {
      var oj := s.offsets[j];
      assert Live(s, oj);
      // the release frees only the slot's own sectors, so another chunk's stay taken
      forall k | SectorOf(oj) <= k < SectorOf(oj) + CountOf(oj) ensures !free[k] {
        assert !Uncovered(s.offsets, |s.sectorFree|, k) by {
          assert Covers(s.offsets[j], |s.sectorFree|, k);
        }
        if o != 0 {
          assert Disjoint(o, oj);
        }
      }
      RunAvoidsTaken(free, start, need, oj);
    }
    if o != 0 {
      assert Live(s, o);
    }
    assert !free[0] && !free[1];
  }

  lemma ReuseTarget(s: Store, slot: int, data: seq<byte>, ts: int)
    requires Consistent(s) && 0 <= slot < SectorInts && WriteDefined(s, slot, |data|) && IsInt32(ts)
    requires PlacementOf(s, slot, SectorsNeeded(|data|)).Reuse?
    ensures WellFormed(Write(s, slot, data, ts))
    ensures TargetFacts(s, Write(s, slot, data, ts), slot, SectorsNeeded(|data|), PlacementOf(s, slot, SectorsNeeded(|data|)).start)
  {
    var need := SectorsNeeded(|data|);
    var start := PlacementOf(s, slot, need).start;
    SectorsNeededFits(|data|);
    WriteEffects(s, slot, data, ts);
    ReuseFirstFit(s, slot, data, ts);
    UnpackPack(start, need);
    ReleasedRunApart(s, slot, start, need);
  }

  lemma AppendTarget(s: Store, slot: int, data: seq<byte>, ts: int)
    requires Consistent(s) && 0 <= slot < SectorInts && WriteDefined(s, slot, |data|) && IsInt32(ts)
    requires PlacementOf(s, slot, SectorsNeeded(|data|)).Append?
    ensures WellFormed(Write(s, slot, data, ts))
    ensures TargetFacts(s, Write(s, slot, data, ts), slot, SectorsNeeded(|data|), PlacementOf(s, slot, SectorsNeeded(|data|)).start)
  {
    var need := SectorsNeeded(|data|);
    var r := Write(s, slot, data, ts);
    SectorsNeededFits(|data|);
    WriteEffects(s, slot, data, ts);
    AppendGrows(s, slot, data, ts);
    UnpackPack(|s.sectorFree|, need);
    forall j | 0 <= j < SectorInts && j != slot && s.offsets[j] != 0
      ensures Disjoint(r.offsets[slot], s.offsets[j])
    {
      assert Live(s, s.offsets[j]);
    }
  }

  /**
   * In a consistent state the chunk's new sectors lie past the two header
   * sectors, inside the file, and share no sector with any other chunk.
   */
  lemma WriteTarget(s: Store, slot: int, data: seq<byte>, ts: int)
    requires Consistent(s) && 0 <= slot < SectorInts && WriteDefined(s, slot, |data|) && IsInt32(ts)
    requires SectorsNeeded(|data|) < SectorLimit
    ensures var r, need := Write(s, slot, data, ts), SectorsNeeded(|data|);
      var d := r.offsets[slot];
      && WellFormed(r)
      && d != 0 && SectorOf(d) == PlacementOf(s, slot, need).start && CountOf(d) == need
      && 2 <= SectorOf(d) && SectorOf(d) + need <= |r.sectorFree|
      && (|r.sectorFree| == |s.sectorFree| || (SectorOf(d) == |s.sectorFree| && |r.sectorFree| == |s.sectorFree| + need))
      && (forall j :: 0 <= j < SectorInts && j != slot && s.offsets[j] != 0 ==> Disjoint(d, s.offsets[j]))
  {
    var p := PlacementOf(s, slot, SectorsNeeded(|data|));
    if p.Rewrite? {
      RewriteTarget(s, slot, data, ts);
    } else if p.Reuse? {
      ReuseTarget(s, slot, data, ts);
    } else {
      AppendTarget(s, slot, data, ts);
    }
  }

  /**
   * File `g` is file `f` with the frame of `data` at byte `a` and the slot's
   * descriptor word reading `d`; apart from those and the slot's timestamp
   * word, every byte of `f` is unchanged.
   */
  predicate FramePlaced(f: seq<byte>, g: seq<byte>, slot: int, a: int, data: seq<byte>, d: int)
    requires 0 <= slot < SectorInts && IsInt32(|data| + 1)
  {
    && |f| <= |g| && SectorBytes <= |g|
    && 0 <= a && a + ChunkHeaderSize + |data| <= |g|
    && g[a .. a + ChunkHeaderSize + |data|] == Frame(data)
    && DescriptorAt(g, slot) == d
    && forall k ::
         (0 <= k < |f| && !(a <= k < a + ChunkHeaderSize + |data|)
          && !(4 * slot <= k < 4 * slot + 4) && !(4096 + 4 * slot <= k < 4096 + 4 * slot + 4)) ==> g[k] == f[k]
  }

  /** The frame past the header, then the timestamp word: the descriptor word is untouched. */
  lemma FrameOnly(f: seq<byte>, slot: int, a: int, data: seq<byte>, ts: int)
    requires 0 <= slot < SectorInts && IsInt32(ts) && IsInt32(|data| + 1)
    requires 2 * SectorBytes <= a && a + ChunkHeaderSize + |data| <= |f|
    ensures var g := Patch(Patch(f, a, Frame(data)), 4096 + 4 * slot, EncodeInt32(ts));
      FramePlaced(f, g, slot, a, data, DescriptorAt(f, slot))
  {
    var f1 := Patch(f, a, Frame(data));
    var g := Patch(f1, 4096 + 4 * slot, EncodeInt32(ts));
    PatchKeeps(f1, a, Frame(data), 4096 + 4 * slot, EncodeInt32(ts));
    ReadInt32Local(f, g, 4 * slot);
  }

  /** The bytes of a same-size rewrite: the frame over the old one, then the timestamp. */
  lemma RewriteBytes(s: Store, slot: int, data: seq<byte>, ts: int)
    requires WellFormed(s) && 0 <= slot < SectorInts && WriteDefined(s, slot, |data|) && IsInt32(ts)
    requires PlacementOf(s, slot, SectorsNeeded(|data|)).Rewrite?
    requires 2 <= PlacementOf(s, slot, SectorsNeeded(|data|)).start && DescriptorAt(s.file, slot) == s.offsets[slot]
    ensures var r := Write(s, slot, data, ts);
      FramePlaced(s.file, r.file, slot, SectorOf(r.offsets[slot]) * 4096, data, r.offsets[slot])
  {
    var start := PlacementOf(s, slot, SectorsNeeded(|data|)).start;
    var r := Write(s, slot, data, ts);
    SectorsNeededFits(|data|);
    assert r.offsets == s.offsets;
    assert r.file == Patch(Patch(s.file, start * 4096, Frame(data)), 4096 + 4 * slot, EncodeInt32(ts));
    FrameOnly(s.file, slot, start * 4096, data, ts);
  }

  /** The descriptor word, then the frame past the header, then the timestamp word. */
  lemma WordThenFrame(f: seq<byte>, slot: int, d: int, a: int, data: seq<byte>, ts: int)
    requires 0 <= slot < SectorInts && IsInt32(d) && IsInt32(ts) && IsInt32(|data| + 1)
    requires 2 * SectorBytes <= a && a + ChunkHeaderSize + |data| <= |f|
    ensures var g := Patch(Patch(Patch(f, 4 * slot, EncodeInt32(d)), a, Frame(data)), 4096 + 4 * slot, EncodeInt32(ts));
      FramePlaced(f, g, slot, a, data, d)
  {
    var word, frame, stamp := EncodeInt32(d), Frame(data), EncodeInt32(ts);
    var f1 := Patch(f, 4 * slot, word);
    var f2 := Patch(f1, a, frame);
    PatchKeeps(f2, a, frame, 4096 + 4 * slot, stamp);
    PatchKeeps(f1, 4 * slot, word, a, frame);
    PatchKeeps(f2, 4 * slot, word, 4096 + 4 * slot, stamp);
    DecodeEncode(d);
  }

  /** Zero sectors appended, then the frame, the descriptor word and the timestamp word. */
  lemma FrameThenWord(f: seq<byte>, extra: nat, slot: int, d: int, a: int, data: seq<byte>, ts: int)
    requires 0 <= slot < SectorInts && IsInt32(d) && IsInt32(ts) && IsInt32(|data| + 1)
    requires 2 * SectorBytes <= a && a + ChunkHeaderSize + |data| <= |f| + extra
    ensures var g := Patch(Patch(Patch(f + Zeros(extra), a, Frame(data)), 4 * slot, EncodeInt32(d)), 4096 + 4 * slot, EncodeInt32(ts));
      FramePlaced(f, g, slot, a, data, d)
  {
    var word, frame, stamp := EncodeInt32(d), Frame(data), EncodeInt32(ts);
    var f0 := f + Zeros(extra);
    var f1 := Patch(f0, a, frame);
    var f2 := Patch(f1, 4 * slot, word);
    PatchKeeps(f1, a, frame, 4 * slot, word);
    PatchKeeps(f2, a, frame, 4096 + 4 * slot, stamp);
    PatchKeeps(f2, 4 * slot, word, 4096 + 4 * slot, stamp);
    DecodeEncode(d);
    assert forall k :: 0 <= k < |f| ==> f0[k] == f[k];
  }

  /** The bytes of a first-fit move: the descriptor word, the frame, then the timestamp. */
  lemma ReuseBytes(s: Store, slot: int, data: seq<byte>, ts: int)
    requires WellFormed(s) && 0 <= slot < SectorInts && WriteDefined(s, slot, |data|) && IsInt32(ts)
    requires PlacementOf(s, slot, SectorsNeeded(|data|)).Reuse?
    requires 2 <= PlacementOf(s, slot, SectorsNeeded(|data|)).start
    ensures var r := Write(s, slot, data, ts);
      FramePlaced(s.file, r.file, slot, SectorOf(r.offsets[slot]) * 4096, data, r.offsets[slot])
  {
    var need := SectorsNeeded(|data|);
    var start := PlacementOf(s, slot, need).start;
    SectorsNeededFits(|data|);
    UnpackPack(start, need);
    var d := Pack(start, need);
    var r := Write(s, slot, data, ts);
    assert FirstFit(Released(s, slot), need) == Some(start);
    assert r.offsets[slot] == d;
    assert r.file == Patch(Patch(Patch(s.file, 4 * slot, EncodeInt32(d)), start * 4096, Frame(data)), 4096 + 4 * slot, EncodeInt32(ts));
    WordThenFrame(s.file, slot, d, start * 4096, data, ts);
  }

  /** The bytes of a growing write: empty sectors appended, the frame, the descriptor word, the timestamp. */
  lemma AppendBytes(s: Store, slot: int, data: seq<byte>, ts: int)
    requires WellFormed(s) && 0 <= slot < SectorInts && WriteDefined(s, slot, |data|) && IsInt32(ts)
    requires PlacementOf(s, slot, SectorsNeeded(|data|)).Append?
    ensures var r := Write(s, slot, data, ts);
      FramePlaced(s.file, r.file, slot, SectorOf(r.offsets[slot]) * 4096, data, r.offsets[slot])
  {
    var need := SectorsNeeded(|data|);
    var start := |s.sectorFree|;
    SectorsNeededFits(|data|);
    UnpackPack(start, need);
    var d := Pack(start, need);
    var r := Write(s, slot, data, ts);
    assert r.offsets[slot] == d;
    assert r.file == Patch(Patch(Patch(s.file + Zeros(4096 * need), start * 4096, Frame(data)), 4 * slot, EncodeInt32(d)), 4096 + 4 * slot, EncodeInt32(ts));
    FrameThenWord(s.file, 4096 * need, slot, d, start * 4096, data, ts);
  }

  /**
   * In a consistent state a write changes only the bytes of the new frame,
   * the slot's descriptor word and its timestamp word; the frame sits at the
   * start of the new sectors and the descriptor word reads back as the new
   * descriptor.
   */
  lemma WriteBytes(s: Store, slot: int, data: seq<byte>, ts: int)
    requires Consistent(s) && 0 <= slot < SectorInts && WriteDefined(s, slot, |data|) && IsInt32(ts)
    requires SectorsNeeded(|data|) < SectorLimit
    ensures var r := Write(s, slot, data, ts);
      FramePlaced(s.file, r.file, slot, SectorOf(r.offsets[slot]) * 4096, data, r.offsets[slot])
  {
    var p := PlacementOf(s, slot, SectorsNeeded(|data|));
    WriteTarget(s, slot, data, ts);
    if p.Rewrite? {
      RewriteBytes(s, slot, data, ts);
    } else if p.Reuse? {
      ReuseBytes(s, slot, data, ts);
    } else {
      AppendBytes(s, slot, data, ts);
    }
  }

  /**
   * The free-list after a write to a consistent state: a sector is free
   * exactly when it existed before, lies outside the chunk's new sectors, and
   * was free or was one of the slot's old sectors.
   */
  lemma WriteFreeList(s: Store, slot: int, data: seq<byte>, ts: int)
    requires Consistent(s) && 0 <= slot < SectorInts && WriteDefined(s, slot, |data|) && IsInt32(ts)
    requires SectorsNeeded(|data|) < SectorLimit
    ensures var r, o := Write(s, slot, data, ts), s.offsets[slot];
      var d := r.offsets[slot];
      forall k :: 0 <= k < |r.sectorFree| ==>
        (r.sectorFree[k] <==>
           && k < |s.sectorFree|
           && !(SectorOf(d) <= k < SectorOf(d) + CountOf(d))
           && (s.sectorFree[k] || SectorOf(o) <= k < SectorOf(o) + CountOf(o)))
  {
    var p := PlacementOf(s, slot, SectorsNeeded(|data|));
    var o := s.offsets[slot];
    WriteTarget(s, slot, data, ts);
    if p.Rewrite? {
      RewriteInPlace(s, slot, data, ts);
      assert Live(s, o);
      forall k | SectorOf(o) <= k < SectorOf(o) + CountOf(o) ensures !s.sectorFree[k] {
        assert Covers(s.offsets[slot], |s.sectorFree|, k);
      }
    } else if p.Reuse? {
      ReuseFirstFit(s, slot, data, ts);
    } else {
      AppendGrows(s, slot, data, ts);
    }
  }

  /** No descriptor other than the one at `slot` covers sector `k`. */
  predicate OthersUncovered(ds: seq<int>, slot: int, n: int, k: int) {
    forall j :: 0 <= j < |ds| && j != slot ==> !Covers(ds[j], n, k)
  }

  lemma UncoveredSplit(ds: seq<int>, slot: int, n: int, k: int)
    requires 0 <= slot < |ds|
    ensures Uncovered(ds, n, k) <==> !Covers(ds[slot], n, k) && OthersUncovered(ds, slot, n, k)
  {
  }

  /**
   * What the bitmap step needs about the write, for every sector at once:
   * old descriptors `ds` over the free-list `free`, new ones `ds'` over
   * `free'`, only the slot's descriptor changed, the old ones inside the old
   * file, the slot's old sectors shared with no other chunk, and the new
   * sectors either inside the old file or exactly the appended ones.
   */
  predicate StepFacts(ds: seq<int>, ds': seq<int>, free: seq<bool>, free': seq<bool>, slot: int) {
    && |ds| == |ds'| == SectorInts && 0 <= slot < SectorInts
    && |free| <= |free'|
    && (forall j :: 0 <= j < SectorInts && j != slot ==> ds'[j] == ds[j])
    && (forall j :: 0 <= j < SectorInts && ds[j] != 0 ==> SectorOf(ds[j]) + CountOf(ds[j]) <= |free|)
    && (forall j :: 0 <= j < SectorInts && j != slot && ds[j] != 0 && ds[slot] != 0 ==> Disjoint(ds[slot], ds[j]))
    && ds'[slot] != 0 && SectorOf(ds'[slot]) + CountOf(ds'[slot]) <= |free'|
    && (|free'| == |free| || (SectorOf(ds'[slot]) == |free| && |free'| == |free| + CountOf(ds'[slot])))
  }

  /**
   * One sector of the bitmap after the write: if the old bitmap was exact
   * there and the sector is free exactly as the write leaves it, the new
   * bitmap is exact there.
   */
  lemma BitmapStep(ds: seq<int>, ds': seq<int>, free: seq<bool>, free': seq<bool>, slot: int, k: int)
    requires StepFacts(ds, ds', free, free', slot) && 2 <= k < |free'|
    requires k < |free| ==> (free[k] <==> Uncovered(ds, |free|, k))
    requires var o, d := ds[slot], ds'[slot];
      free'[k] <==>
        && k < |free|
        && !(SectorOf(d) <= k < SectorOf(d) + CountOf(d))
        && (free[k] || SectorOf(o) <= k < SectorOf(o) + CountOf(o))
    ensures free'[k] <==> Uncovered(ds', |free'|, k)
  {
    var o, d := ds[slot], ds'[slot];
    var n, n' := |free|, |free'|;
    UncoveredSplit(ds', slot, n', k);
    if SectorOf(d) <= k < SectorOf(d) + CountOf(d) {
      assert Covers(d, n', k);
    } else {
      UncoveredSplit(ds, slot, n, k);
      // the other descriptors are unchanged and lie inside the old file
      forall j | 0 <= j < SectorInts && j != slot ensures Covers(ds'[j], n', k) == Covers(ds[j], n, k) {
      }
      assert OthersUncovered(ds', slot, n', k) == OthersUncovered(ds, slot, n, k);
      if SectorOf(o) <= k < SectorOf(o) + CountOf(o) {
        // the slot's old sectors belonged to no other chunk
        forall j | 0 <= j < SectorInts && j != slot ensures !Covers(ds[j], n, k) {
          if ds[j] != 0 && o != 0 {
            assert Disjoint(o, ds[j]);
          }
        }
      }
    }
  }

  /** Past the header, the new free-list is free exactly where no descriptor covers. */
  lemma WriteBitmapExact(s: Store, slot: int, data: seq<byte>, ts: int)
    requires Consistent(s) && 0 <= slot < SectorInts && WriteDefined(s, slot, |data|) && IsInt32(ts)
    requires SectorsNeeded(|data|) < SectorLimit
    ensures WellFormed(Write(s, slot, data, ts)) && BitmapExact(Write(s, slot, data, ts))
  {
    var r := Write(s, slot, data, ts);
    WriteEffects(s, slot, data, ts);
    WriteTarget(s, slot, data, ts);
    WriteFreeList(s, slot, data, ts);
    assert StepFacts(s.offsets, r.offsets, s.sectorFree, r.sectorFree, slot) by {
      assert forall j :: 0 <= j < SectorInts && s.offsets[j] != 0 ==> Live(s, s.offsets[j]);
    }
    forall k | 2 <= k < |r.sectorFree| ensures r.sectorFree[k] <==> Uncovered(r.offsets, |r.sectorFree|, k) {
      BitmapStep(s.offsets, r.offsets, s.sectorFree, r.sectorFree, slot, k);
    }
  }

  /** The placed frame carries its own length word. */
  lemma FrameLengthWord(f: seq<byte>, g: seq<byte>, slot: int, a: int, data: seq<byte>, d: int)
    requires 0 <= slot < SectorInts && IsInt32(|data| + 1) && FramePlaced(f, g, slot, a, data, d)
    ensures ReadInt32At(g, a) == |data| + 1
  {
    FrameDecodes(g, a, data);
  }

  /** A word of `f` away from the frame and from the slot's two header words reads the same in `g`. */
  lemma WordKept(f: seq<byte>, g: seq<byte>, slot: int, a: int, data: seq<byte>, d: int, at: int)
    requires 0 <= slot < SectorInts && IsInt32(|data| + 1) && FramePlaced(f, g, slot, a, data, d)
    requires 0 <= at && at + 4 <= |f|
    requires at + 4 <= a || a + ChunkHeaderSize + |data| <= at
    requires at + 4 <= 4 * slot || 4 * slot + 4 <= at
    requires at + 4 <= 4096 + 4 * slot || 4096 + 4 * slot + 4 <= at
    ensures ReadInt32At(g, at) == ReadInt32At(f, at)
  {
    ReadInt32Local(f, g, at);
  }

  /**
   * The header words of `g`, after a frame placed past the header, read as
   * the tables of `f` with the slot's descriptor `d` and timestamp `ts`.
   */
  lemma HeaderKept(f: seq<byte>, g: seq<byte>, slot: int, a: int, data: seq<byte>, d: int, ts: int)
    requires 0 <= slot < SectorInts && IsInt32(|data| + 1) && FramePlaced(f, g, slot, a, data, d)
    requires 2 * SectorBytes <= a && 2 * SectorBytes <= |f| && TimestampAt(g, slot) == ts
    ensures forall i :: 0 <= i < SectorInts ==>
      DescriptorAt(g, i) == (if i == slot then d else DescriptorAt(f, i))
      && TimestampAt(g, i) == (if i == slot then ts else TimestampAt(f, i))
  {
    forall i | 0 <= i < SectorInts && i != slot
      ensures DescriptorAt(g, i) == DescriptorAt(f, i) && TimestampAt(g, i) == TimestampAt(f, i)
    {
      WordKept(f, g, slot, a, data, d, 4 * i);
      WordKept(f, g, slot, a, data, d, 4096 + 4 * i);
    }
  }

  /**
   * State `r` is state `s` after a chunk's frame of `data` was put at the
   * start of fresh sectors for `slot`: the file only grew, every other
   * descriptor is unchanged, the slot's new sectors lie past the header,
   * inside the file and apart from every other chunk, and only the frame and
   * the slot's two header words changed in the file.
   */
  predicate Placed(s: Store, r: Store, slot: int, data: seq<byte>)
    requires WellFormed(s) && WellFormed(r) && 0 <= slot < SectorInts && IsInt32(|data| + 1)
  {
    var d := r.offsets[slot];
    && |s.sectorFree| <= |r.sectorFree|
    && (forall i :: 0 <= i < SectorInts && i != slot ==> r.offsets[i] == s.offsets[i])
    && d != 0 && 2 <= SectorOf(d) && CountOf(d) == SectorsNeeded(|data|) && SectorOf(d) + CountOf(d) <= |r.sectorFree|
    && (forall j :: 0 <= j < SectorInts && j != slot && s.offsets[j] != 0 ==> Disjoint(d, s.offsets[j]))
    && FramePlaced(s.file, r.file, slot, SectorOf(d) * 4096, data, d)
  }

  /** Every write that is not dropped, to a consistent state, places the chunk that way. */
  lemma WritePlaces(s: Store, slot: int, data: seq<byte>, ts: int)
    requires Consistent(s) && 0 <= slot < SectorInts && WriteDefined(s, slot, |data|) && IsInt32(ts)
    requires SectorsNeeded(|data|) < SectorLimit
    ensures WellFormed(Write(s, slot, data, ts)) && Placed(s, Write(s, slot, data, ts), slot, data)
  {
    WriteEffects(s, slot, data, ts);
    WriteTarget(s, slot, data, ts);
    WriteBytes(s, slot, data, ts);
  }

  /** The header words of a placed chunk: its descriptor and its timestamp, every other entry as before. */
  lemma HeaderPlaced(s: Store, r: Store, slot: int, data: seq<byte>, ts: int)
    requires WellFormed(s) && HeaderPersisted(s) && WellFormed(r) && 0 <= slot < SectorInts && IsInt32(|data| + 1)
    requires Placed(s, r, slot, data)
    requires r.timestamps == s.timestamps[slot := ts] && TimestampAt(r.file, slot) == ts
    ensures HeaderPersisted(r)
  {
    var d := r.offsets[slot];
    HeaderKept(s.file, r.file, slot, SectorOf(d) * 4096, data, d, ts);
  }

  /** Both tables stay written through to the file. */
  lemma WriteHeaderPersisted(s: Store, slot: int, data: seq<byte>, ts: int)
    requires Consistent(s) && 0 <= slot < SectorInts && WriteDefined(s, slot, |data|) && IsInt32(ts)
    requires SectorsNeeded(|data|) < SectorLimit
    ensures WellFormed(Write(s, slot, data, ts)) && HeaderPersisted(Write(s, slot, data, ts))
  {
    WriteEffects(s, slot, data, ts);
    WritePlaces(s, slot, data, ts);
    HeaderPlaced(s, Write(s, slot, data, ts), slot, data, ts);
  }

  /**
   * A chunk other than the one written stays live: its descriptor is
   * unchanged, the file has not shrunk, and its length word lies away from
   * the new frame and the header.
   */
  lemma LiveKept(s: Store, r: Store, slot: int, data: seq<byte>, o: int)
    requires WellFormed(s) && WellFormed(r) && 0 <= slot < SectorInts && IsInt32(|data| + 1)
    requires |s.sectorFree| <= |r.sectorFree|
    requires var d := r.offsets[slot];
      && FramePlaced(s.file, r.file, slot, SectorOf(d) * 4096, data, d)
      && 2 <= SectorOf(d) && ChunkHeaderSize + |data| < 4096 * CountOf(d)
      && Disjoint(d, o)
    requires Live(s, o)
    ensures Live(r, o)
  {
    var d := r.offsets[slot];
    WordKept(s.file, r.file, slot, SectorOf(d) * 4096, data, d, SectorOf(o) * 4096);
  }

  /** Every chunk stays inside the file, past the header, with its frame inside its sectors. */
  lemma WriteKeepsLive(s: Store, slot: int, data: seq<byte>, ts: int)
    requires Consistent(s) && 0 <= slot < SectorInts && WriteDefined(s, slot, |data|) && IsInt32(ts)
    requires SectorsNeeded(|data|) < SectorLimit
    ensures var r := Write(s, slot, data, ts);
      WellFormed(r) && forall i :: 0 <= i < SectorInts && r.offsets[i] != 0 ==> Live(r, r.offsets[i])
  {
    WritePlaces(s, slot, data, ts);
    LivePlaced(s, Write(s, slot, data, ts), slot, data);
  }

  /** After a chunk is placed, it and every other chunk of a consistent state are live. */
  lemma LivePlaced(s: Store, r: Store, slot: int, data: seq<byte>)
    requires Consistent(s) && WellFormed(r) && 0 <= slot < SectorInts && IsInt32(|data| + 1)
    requires Placed(s, r, slot, data)
    ensures forall i :: 0 <= i < SectorInts && r.offsets[i] != 0 ==> Live(r, r.offsets[i])
  {
    var d := r.offsets[slot];
    SectorsNeededFits(|data|);
    assert Live(r, d) by {
      FrameLengthWord(s.file, r.file, slot, SectorOf(d) * 4096, data, d);
    }
    forall i | 0 <= i < SectorInts && i != slot && r.offsets[i] != 0 ensures Live(r, r.offsets[i]) {
      LiveKept(s, r, slot, data, s.offsets[i]);
    }
  }

  /** No two chunks share a sector after the write. */
  lemma WriteKeepsDisjoint(s: Store, slot: int, data: seq<byte>, ts: int)
    requires Consistent(s) && 0 <= slot < SectorInts && WriteDefined(s, slot, |data|) && IsInt32(ts)
    requires SectorsNeeded(|data|) < SectorLimit
    ensures var r := Write(s, slot, data, ts);
      forall i, j :: 0 <= i < SectorInts && 0 <= j < SectorInts && i != j && r.offsets[i] != 0 && r.offsets[j] != 0 ==>
        Disjoint(r.offsets[i], r.offsets[j])
  {
    WriteEffects(s, slot, data, ts);
    WriteTarget(s, slot, data, ts);
  }

  /**
   * Every write keeps the allocator's invariant: the header sectors stay
   * taken, both tables stay written through to the file, the free-list stays
   * exact, every chunk stays inside the file with its frame inside its
   * sectors, and no two chunks share a sector.
   */
  lemma WritePreservesConsistent(s: Store, slot: int, data: seq<byte>, ts: int)
    requires Consistent(s) && 0 <= slot < SectorInts && WriteDefined(s, slot, |data|) && IsInt32(ts)
    ensures Consistent(Write(s, slot, data, ts))
  {
    WriteEffects(s, slot, data, ts);
    if SectorsNeeded(|data|) < SectorLimit {
      var r := Write(s, slot, data, ts);
      WriteHeaderPersisted(s, slot, data, ts);
      WriteBitmapExact(s, slot, data, ts);
      WriteKeepsLive(s, slot, data, ts);
      WriteKeepsDisjoint(s, slot, data, ts);
      assert !r.sectorFree[0] && !r.sectorFree[1] by {
        WriteTarget(s, slot, data, ts);
        WriteFreeList(s, slot, data, ts);
        if s.offsets[slot] != 0 {
          assert Live(s, s.offsets[slot]);
        }
      }
    }
  }
}
