/**
 * The sector free-list: one boolean per 4096-byte sector of the file, true
 * when the sector is free. Here are the run updates, the first-fit search
 * and the bitmap that opening a file derives from the descriptor table.
 */
module SectorBitmap {
  import opened Optional
  import opened Layout

  /** `free` with sectors `start .. start + count - 1` set to `v`: a loop of `sectorFree.set(start + i, v)`. */
  function SetRun(free: seq<bool>, start: int, count: nat, v: bool): (r: seq<bool>)
    ensures |r| == |free|
  {
    seq(|free|, i requires 0 <= i < |free| => if start <= i < start + count then v else free[i])
  }

  /** Sectors `start .. start + count - 1` exist and are all free. */
  predicate FreeRun(free: seq<bool>, start: int, count: nat) {
    0 <= start && start + count <= |free| && forall i :: start <= i < start + count ==> free[i]
  }

  /** `List.indexOf(v)`: the first index holding `v`, or -1. */
  function IndexOf(free: seq<bool>, v: bool): (r: int)
    ensures -1 <= r < |free|
    ensures r == -1 ==> forall j :: 0 <= j < |free| ==> free[j] != v
    ensures 0 <= r ==> free[r] == v && forall j :: 0 <= j < r ==> free[j] != v
  {
    if |free| == 0 then -1
    else if free[0] == v then 0
    else var k := IndexOf(free[1..], v); if k == -1 then -1 else k + 1
  }

  /** The lowest start at or after `from` of a free run of `count` sectors, if any. */
  function FirstFitFrom(free: seq<bool>, count: nat, from: nat): (r: Option<nat>)
    decreases |free| - from
    ensures r.Some? ==> from <= r.value && FreeRun(free, r.value, count)
    ensures r.Some? ==> forall t :: from <= t < r.value ==> !FreeRun(free, t, count)
    ensures r.None? ==> forall t :: from <= t ==> !FreeRun(free, t, count)
  {
    if from + count > |free| then None
    else if FreeRun(free, from, count) then Some(from)
    else FirstFitFrom(free, count, from + 1)
  }

  /** First-fit placement: the lowest start of a free run of `count` sectors, if there is one. */
  function FirstFit(free: seq<bool>, count: nat): (r: Option<nat>)
    ensures r.Some? ==> FreeRun(free, r.value, count)
    ensures r.Some? ==> forall t :: 0 <= t < r.value ==> !FreeRun(free, t, count)
    ensures r.None? ==> forall t :: 0 <= t ==> !FreeRun(free, t, count)
  {
    FirstFitFrom(free, count, 0)
  }

  /**
   * The scan of `write(x, z, data, length)`: from the first free sector,
   * count the length of the current run of free sectors, restart it after an
   * occupied one, and stop as soon as it reaches `sectorsNeeded`. The run it
   * stops at is exactly the first fit.
   */
  method FindRun(sectorFree: seq<bool>, sectorsNeeded: nat) returns (runStart: int, runLength: nat)
    requires 1 <= sectorsNeeded
    ensures runLength >= sectorsNeeded <==> FirstFit(sectorFree, sectorsNeeded).Some?
    ensures runLength >= sectorsNeeded ==> runStart == FirstFit(sectorFree, sectorsNeeded).value
  {
    runStart := IndexOf(sectorFree, true);
    runLength := 0;
    if runStart == -1 {
      forall t | 0 <= t ensures !FreeRun(sectorFree, t, sectorsNeeded) {
        if t < |sectorFree| {
          assert !sectorFree[t];
        }
      }
      return;
    }
    var i := runStart;
    forall t | 0 <= t && t + sectorsNeeded <= i ensures !FreeRun(sectorFree, t, sectorsNeeded) {
      assert !sectorFree[t];
    }
    while i < |sectorFree|
      invariant 0 <= runStart <= i <= |sectorFree|
      invariant runLength < sectorsNeeded
      invariant runLength > 0 ==> runStart + runLength == i && FreeRun(sectorFree, runStart, runLength)
      invariant runLength > 0 ==> runStart == 0 || !sectorFree[runStart - 1]
      invariant runLength == 0 ==> i == 0 || !sectorFree[i - 1]
      invariant forall t :: 0 <= t && t + sectorsNeeded <= i ==> !FreeRun(sectorFree, t, sectorsNeeded)
    {
      if runLength != 0 {
        if sectorFree[i] {
          runLength := runLength + 1;
        } else {
          runLength := 0;
        }
      } else if sectorFree[i] {
        runStart := i;
        runLength := 1;
      }
      assert runLength > 0 ==> runStart + runLength == i + 1 && FreeRun(sectorFree, runStart, runLength);
      if runLength >= sectorsNeeded {
        var first := FirstFit(sectorFree, sectorsNeeded);
        assert FreeRun(sectorFree, runStart, sectorsNeeded);
        assert first.Some? && first.value <= runStart;
        assert first.value + sectorsNeeded <= i ==> !FreeRun(sectorFree, first.value, sectorsNeeded);
        break;
      }
      // a window ending at i + 1 would reach back over the last occupied sector
      forall t | 0 <= t && t + sectorsNeeded == i + 1 ensures !FreeRun(sectorFree, t, sectorsNeeded) {
        if runLength == 0 {
          assert !sectorFree[i];
        } else {
          assert t < runStart;
          assert !sectorFree[runStart - 1];
        }
      }
      i := i + 1;
    }
  }

  /** Sector `k` lies in the range of descriptor `o`, and that range fits within `n` sectors. */
  predicate Covers(o: int, n: int, k: int) {
    o != 0 && SectorOf(o) + CountOf(o) <= n && SectorOf(o) <= k < SectorOf(o) + CountOf(o)
  }

  /** No descriptor of `ds` covers sector `k` of a file of `n` sectors. */
  predicate Uncovered(ds: seq<int>, n: int, k: int) {
    forall j :: 0 <= j < |ds| ==> !Covers(ds[j], n, k)
  }

  /** The open-time marking of one descriptor: its sectors become occupied when it is nonzero and fits. */
  function Mark(free: seq<bool>, o: int): (r: seq<bool>)
    ensures |r| == |free|
    ensures forall k :: 0 <= k < |free| ==> (r[k] <==> free[k] && !Covers(o, |free|, k))
  {
    if o != 0 && SectorOf(o) + CountOf(o) <= |free| then SetRun(free, SectorOf(o), CountOf(o), false) else free
  }

  /** The marking of every descriptor of `ds`, first to last. */
  function MarkAll(free: seq<bool>, ds: seq<int>): (r: seq<bool>)
    ensures |r| == |free|
    ensures forall k :: 0 <= k < |free| ==> (r[k] <==> free[k] && Uncovered(ds, |free|, k))
  {
    if ds == [] then free
    else
      var init := ds[..|ds| - 1];
      assert forall j :: 0 <= j < |ds| - 1 ==> ds[j] == init[j];
      Mark(MarkAll(free, init), ds[|ds| - 1])
  }

  /** Marking one more descriptor: the fold over a prefix one longer. */
  lemma MarkAllSnoc(free: seq<bool>, ds: seq<int>, i: nat)
    requires i < |ds|
    ensures MarkAll(free, ds[..i + 1]) == Mark(MarkAll(free, ds[..i]), ds[i])
  {
    assert ds[..i + 1][..i] == ds[..i];
  }
}
