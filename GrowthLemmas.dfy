/**
 * Growth without reuse: while no sector is free, every write to an unused
 * slot appends exactly the sectors it needs, so a fresh file that takes N
 * chunks of S sectors each ends up with 2 + N*S sectors.
 */
module GrowthLemmas {
  import opened Optional
  import opened Bytes
  import opened Layout
  import opened SectorBitmap
  import opened RegionState
  import opened RegionLemmas
  import opened WriteLemmas

  /** No sector of the file is free. */
  predicate Packed(s: Store) {
    forall k :: 0 <= k < |s.sectorFree| ==> !s.sectorFree[k]
  }

  /**
   * In a packed file, a write of fewer than 256 sectors to an unused slot
   * finds no free run, so it appends: the file gains exactly the sectors the
   * chunk needs, stays packed, and only the slot's descriptor changes.
   */
  lemma AppendWhenPacked(s: Store, slot: int, data: seq<byte>, ts: int)
    requires WellFormed(s) && Packed(s) && 0 <= slot < SectorInts && s.offsets[slot] == 0 && IsInt32(ts)
    requires SectorsNeeded(|data|) < SectorLimit && |data| + ChunkHeaderSize <= Int32Max
    requires |s.sectorFree| + SectorsNeeded(|data|) <= MaxSectors
    ensures WriteDefined(s, slot, |data|)
    ensures var r := Write(s, slot, data, ts);
      && WellFormed(r) && Packed(r)
      && |r.sectorFree| == |s.sectorFree| + SectorsNeeded(|data|)
      && r.offsets[slot] != 0
      && (forall i :: 0 <= i < SectorInts && i != slot ==> r.offsets[i] == s.offsets[i])
  {
    var need := SectorsNeeded(|data|);
    SectorsNeededFits(|data|);
    assert Released(s, slot) == s.sectorFree;
    forall t | 0 <= t ensures !FreeRun(s.sectorFree, t, need) {
      if t < |s.sectorFree| {
        assert !s.sectorFree[t];
      }
    }
    assert FirstFit(s.sectorFree, need).None?;
    assert PlacementOf(s, slot, need).Append?;
    AppendGrows(s, slot, data, ts);
    WriteEffects(s, slot, data, ts);
  }

  /** The slots are distinct, in range and unused in `s`. */
  predicate FreshSlots(s: Store, slots: seq<int>)
    requires WellFormed(s)
  {
    && (forall i :: 0 <= i < |slots| ==> 0 <= slots[i] < SectorInts && s.offsets[slots[i]] == 0)
    && (forall i, j :: 0 <= i < j < |slots| ==> slots[i] != slots[j])
  }

  /** The conditions under which a run of writes to unused slots of a packed file is defined. */
  predicate FillDefined(s: Store, slots: seq<int>, payloads: seq<seq<byte>>, need: nat, ts: int) {
    && WellFormed(s) && Packed(s) && FreshSlots(s, slots) && |payloads| == |slots| && IsInt32(ts)
    && need < SectorLimit && |s.sectorFree| + |slots| * need <= MaxSectors
    && forall i :: 0 <= i < |payloads| ==>
         SectorsNeeded(|payloads[i]|) == need && |payloads[i]| + ChunkHeaderSize <= Int32Max
  }

  /** After the first write of such a run, the rest of the run is defined again, with one chunk's sectors used up. */
  lemma FillStep(s: Store, slots: seq<int>, payloads: seq<seq<byte>>, need: nat, ts: int)
    requires FillDefined(s, slots, payloads, need, ts) && slots != []
    ensures WriteDefined(s, slots[0], |payloads[0]|)
    ensures var next := Write(s, slots[0], payloads[0], ts);
      && FillDefined(next, slots[1..], payloads[1..], need, ts)
      && |next.sectorFree| + (|slots| - 1) * need == |s.sectorFree| + |slots| * need
  {
    assert (|slots| - 1) * need + need == |slots| * need;
    AppendWhenPacked(s, slots[0], payloads[0], ts);
    var next := Write(s, slots[0], payloads[0], ts);
    FreshRest(s, next, slots);
    forall i | 0 <= i < |payloads| - 1
      ensures SectorsNeeded(|payloads[1..][i]|) == need && |payloads[1..][i]| + ChunkHeaderSize <= Int32Max
    {
      assert payloads[1..][i] == payloads[i + 1];
    }
  }

  /** Once the first slot is used, the remaining ones are still distinct and unused. */
  lemma FreshRest(s: Store, next: Store, slots: seq<int>)
    requires WellFormed(s) && WellFormed(next) && FreshSlots(s, slots) && slots != []
    requires forall i :: 0 <= i < SectorInts && i != slots[0] ==> next.offsets[i] == s.offsets[i]
    ensures FreshSlots(next, slots[1..])
  {
    forall i | 0 <= i < |slots| - 1 ensures next.offsets[slots[1..][i]] == 0 {
      assert slots[i + 1] != slots[0];
    }
  }

  /**
   * Writing `payloads[i]` to `slots[i]`, one after the other, each needing
   * `need` sectors, all at time `ts`: the file grows by exactly the sectors
   * written and stays packed.
   */
  function Fill(s: Store, slots: seq<int>, payloads: seq<seq<byte>>, need: nat, ts: int): (r: Store)
    requires FillDefined(s, slots, payloads, need, ts)
    decreases |slots|
    ensures WellFormed(r) && Packed(r)
    ensures |r.sectorFree| == |s.sectorFree| + |slots| * need
    ensures |r.file| == 4096 * (|s.sectorFree| + |slots| * need)
  {
    if slots == [] then s
    else
      FillStep(s, slots, payloads, need, ts);
      Fill(Write(s, slots[0], payloads[0], ts), slots[1..], payloads[1..], need, ts)
  }

  /**
   * A new region file (one shorter than a sector) that takes N chunks of S
   * sectors each, in N distinct slots, ends with exactly 2 + N*S sectors and
   * a file of 4096 * (2 + N*S) bytes.
   */
  lemma FreshFileGrowth(contents: seq<byte>, slots: seq<int>, payloads: seq<seq<byte>>, need: nat, ts: int)
    requires |contents| < SectorBytes
    requires (forall i :: 0 <= i < |slots| ==> 0 <= slots[i] < SectorInts)
    requires (forall i, j :: 0 <= i < j < |slots| ==> slots[i] != slots[j])
    requires |payloads| == |slots| && IsInt32(ts)
    requires need < SectorLimit && 2 + |slots| * need <= MaxSectors
    requires forall i :: 0 <= i < |payloads| ==>
      SectorsNeeded(|payloads[i]|) == need && |payloads[i]| + ChunkHeaderSize <= Int32Max
    ensures OpenDefined(contents)
    ensures FillDefined(Opened(contents), slots, payloads, need, ts)
    ensures |Fill(Opened(contents), slots, payloads, need, ts).sectorFree| == 2 + |slots| * need
    ensures |Fill(Opened(contents), slots, payloads, need, ts).file| == 4096 * (2 + |slots| * need)
  {
    ShortFileOpensEmpty(contents);
    var s := Opened(contents);
    forall i | 0 <= i < SectorInts ensures s.offsets[i] == 0 {
      SlotBijective(i % GridSize, i / GridSize, i % GridSize, i / GridSize);
      assert Read(s, i % GridSize, i / GridSize) == None;
    }
  }
}
