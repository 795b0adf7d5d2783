/** `VolumeDiskCollection`: the disks of a single- or multi-volume ZIP
    archive, each with its size and the offset of its first byte from the
    start of the first disk, and the mapping between an offset from the
    start and a (disk number, offset on that disk) pair. */
module VolumeDisks {
  import opened Wrappers
  import opened Primitives

  /** One entry of the list the constructor builds. */
  datatype VolumeInfo = VolumeInfo(totalOffset: nat, volumeDiskSize: nat)

  /** The sum of the sizes. */
  function Sum(sizes: seq<nat>): nat
  {
    if sizes == [] then 0 else Sum(sizes[..|sizes| - 1]) + sizes[|sizes| - 1]
  }

  /** The offset of disk d from the start of the first disk: the sizes of
      the disks before it. */
  function TotalOffset(sizes: seq<nat>, d: nat): (r: nat)
    requires d <= |sizes|
    ensures d == 0 ==> r == 0
  {
    Sum(sizes[..d])
  }

  /** Each disk starts where the one before it ends. */
  lemma TotalOffsetStep(sizes: seq<nat>, d: nat)
    requires d < |sizes|
    ensures TotalOffset(sizes, d + 1) == TotalOffset(sizes, d) + sizes[d]
  {
    assert sizes[..d + 1][..d] == sizes[..d];
  }

  lemma TotalOffsetOfAll(sizes: seq<nat>)
    ensures TotalOffset(sizes, |sizes|) == Sum(sizes)
  {
    assert sizes[..|sizes|] == sizes;
  }

  /** Offsets never decrease along the disks. */
  lemma {:induction false} TotalOffsetMonotone(sizes: seq<nat>, i: nat, j: nat)
    requires i <= j <= |sizes|
    ensures TotalOffset(sizes, i) <= TotalOffset(sizes, j)
    decreases j - i
  {
    if i < j {
      TotalOffsetMonotone(sizes, i, j - 1);
      TotalOffsetStep(sizes, j - 1);
    }
  }

  /** The list the constructor builds from the sizes. */
  function Volumes(sizes: seq<nat>): (r: seq<VolumeInfo>)
    ensures |r| == |sizes|
    ensures forall d :: 0 <= d < |sizes| ==> r[d] == VolumeInfo(TotalOffset(sizes, d), sizes[d])
  {
    seq(|sizes|, d requires 0 <= d < |sizes| => VolumeInfo(TotalOffset(sizes, d), sizes[d]))
  }

  /** The list up to disk d + 1 is the list up to disk d and disk d's entry. */
  lemma VolumesStep(sizes: seq<nat>, d: nat)
    requires d < |sizes|
    ensures Volumes(sizes)[..d + 1] == Volumes(sizes)[..d] + [VolumeInfo(TotalOffset(sizes, d), sizes[d])]
  {
  }

  /** Disk d holds the byte at offset o from the start: d is the last disk
      whose offset is at most o. At the very end of the archive this is the
      last disk, with o at the end of it. */
  ghost predicate Locates(sizes: seq<nat>, o: nat, d: nat)
  {
    d < |sizes| && TotalOffset(sizes, d) <= o && (d == |sizes| - 1 || o < TotalOffset(sizes, d + 1))
  }

  /** At most one disk holds a given offset. */
  lemma LocatesUnique(sizes: seq<nat>, o: nat, d1: nat, d2: nat)
    requires Locates(sizes, o, d1) && Locates(sizes, o, d2)
    ensures d1 == d2
  {
    if d1 < d2 {
      TotalOffsetMonotone(sizes, d1 + 1, d2);
    } else if d2 < d1 {
      TotalOffsetMonotone(sizes, d2 + 1, d1);
    }
  }

  /** An offset found on a disk lies within that disk, so turning it back
      into an offset from the start succeeds and gives the offset found. */
  lemma PositionWithinDisk(sizes: seq<nat>, o: nat, d: nat)
    requires o <= Sum(sizes) && Locates(sizes, o, d)
    ensures o - TotalOffset(sizes, d) <= sizes[d]
  {
    TotalOffsetStep(sizes, d);
    if d == |sizes| - 1 {
      TotalOffsetOfAll(sizes);
    }
  }

  /** A position strictly inside a disk is found on that disk again. */
  lemma OffsetLocatesDisk(sizes: seq<nat>, d: nat, x: nat)
    requires d < |sizes| && x < sizes[d]
    ensures Locates(sizes, TotalOffset(sizes, d) + x, d)
  {
    TotalOffsetStep(sizes, d);
  }

  /** Going from (disk, offset on disk) to an offset from the start and
      back gives the same pair, for any offset strictly inside the disk. */
  lemma DiskPositionRoundTrip(sizes: seq<nat>, d: nat, x: nat, found: nat)
    requires d < |sizes| && x < sizes[d]
    requires Locates(sizes, TotalOffset(sizes, d) + x, found)
    ensures found == d && TotalOffset(sizes, d) + x - TotalOffset(sizes, found) == x
  {
    OffsetLocatesDisk(sizes, d, x);
    LocatesUnique(sizes, TotalOffset(sizes, d) + x, d, found);
  }

  /** The end of one disk is the same position as the start of the next,
      and it is found on the next non-empty disk, or on the last disk. */
  lemma EndOfDiskIsNextDisk(sizes: seq<nat>, d: nat)
    requires d + 1 < |sizes| && sizes[d + 1] > 0
    ensures Locates(sizes, TotalOffset(sizes, d) + sizes[d], d + 1)
  {
    TotalOffsetStep(sizes, d);
    TotalOffsetStep(sizes, d + 1);
  }

  /** Every offset up to the total is within one of the disks. */
  lemma {:induction false} OffsetWithinTotal(sizes: seq<nat>, d: nat)
    requires d <= |sizes|
    ensures TotalOffset(sizes, d) <= Sum(sizes)
  {
    TotalOffsetMonotone(sizes, d, |sizes|);
    TotalOffsetOfAll(sizes);
  }

  class VolumeDiskCollection {
    /** The sizes the collection was built from. */
    ghost const sizes: seq<nat>
    const volumeDisks: seq<VolumeInfo>
    const lastVolumeDiskNumber: nat
    const lastVolumeDiskSize: nat
    const totalVolumeDiskSize: nat

    ghost predicate Valid()
    {
      |sizes| > 0 && Sum(sizes) <= UINT64_MAX
      && volumeDisks == Volumes(sizes)
      && totalVolumeDiskSize == Sum(sizes)
      && lastVolumeDiskNumber == |sizes| - 1
      && lastVolumeDiskSize == sizes[|sizes| - 1]
    }

    /** The fields the constructor sets once the list is complete. */
    constructor (ghost volumeDiskSizes: seq<nat>, volumes: seq<VolumeInfo>, total: nat, lastSize: nat)
      requires |volumeDiskSizes| > 0 && Sum(volumeDiskSizes) <= UINT64_MAX
      requires volumes == Volumes(volumeDiskSizes) && total == Sum(volumeDiskSizes)
      requires lastSize == volumeDiskSizes[|volumeDiskSizes| - 1]
      ensures Valid() && sizes == volumeDiskSizes
    {
      sizes := volumeDiskSizes;
      volumeDisks := volumes;
      lastVolumeDiskNumber := |volumes| - 1;
      lastVolumeDiskSize := lastSize;
      totalVolumeDiskSize := total;
    }

    /** `new VolumeDiskCollection(volumeDiskSizes)`: appends one entry per
        disk, accumulating the offset with overflow checking. An empty
        sequence or a total past UInt64.MaxValue is an `ArgumentException`. */
    static method Create(volumeDiskSizes: seq<UInt64>) returns (r: Result<VolumeDiskCollection>)
      ensures r.Ok? <==> |volumeDiskSizes| > 0 && Sum(volumeDiskSizes) <= UINT64_MAX
      ensures r.Err? ==> r.error == Argument
      ensures r.Ok? ==> fresh(r.value) && r.value.Valid() && r.value.sizes == volumeDiskSizes
    {
      var volumes: seq<VolumeInfo> := [];
      var totalOffset := 0;
      var lastVolumeDiskSize := 0;
      var i := 0;
      while i < |volumeDiskSizes|
        invariant 0 <= i <= |volumeDiskSizes|
        invariant volumes == Volumes(volumeDiskSizes)[..i]
        invariant totalOffset == TotalOffset(volumeDiskSizes, i) <= UINT64_MAX
        invariant i > 0 ==> lastVolumeDiskSize == volumeDiskSizes[i - 1]
      {
        var volumeDiskSize := volumeDiskSizes[i];
        VolumesStep(volumeDiskSizes, i);
        volumes := volumes + [VolumeInfo(totalOffset, volumeDiskSize)];
        lastVolumeDiskSize := volumeDiskSize;
        TotalOffsetStep(volumeDiskSizes, i);
        if totalOffset + volumeDiskSize > UINT64_MAX {
          OffsetWithinTotal(volumeDiskSizes, i + 1);
          return Err(Argument);
        }
        totalOffset := totalOffset + volumeDiskSize;
        i := i + 1;
      }
      assert volumes == Volumes(volumeDiskSizes);
      TotalOffsetOfAll(volumeDiskSizes);
      if |volumes| == 0 {
        return Err(Argument);
      }
      var collection := new VolumeDiskCollection(volumeDiskSizes, volumes, totalOffset, lastVolumeDiskSize);
      return Ok(collection);
    }

    /** `TryGetVolumeDiskPosition(offsetFromStart, ...)`: fails past the
        end of the last disk; otherwise finds the disk holding the offset
        and the offset on that disk. */
    method TryGetVolumeDiskPosition(offsetFromStart: UInt64) returns (found: bool, diskNumber: nat, offsetOnTheDisk: nat)
      requires Valid()
      ensures found <==> offsetFromStart <= Sum(sizes)
      ensures found ==> Locates(sizes, offsetFromStart, diskNumber)
                        && offsetOnTheDisk == offsetFromStart - TotalOffset(sizes, diskNumber)
                        && offsetOnTheDisk <= sizes[diskNumber]
      ensures !found ==> diskNumber == 0 && offsetOnTheDisk == 0
    {
      if offsetFromStart > totalVolumeDiskSize {
        return false, 0, 0;
      }
      var totalOffset;
      diskNumber, totalOffset := GetVolumeDiskPosition(offsetFromStart, 0, lastVolumeDiskNumber);
      offsetOnTheDisk := offsetFromStart - totalOffset;
      PositionWithinDisk(sizes, offsetFromStart, diskNumber);
      found := true;
    }

    /** `TryGetVolumeDiskSize(diskNumber, ...)`. */
    method TryGetVolumeDiskSize(diskNumber: nat) returns (found: bool, volumeDiskSize: nat)
      requires Valid()
      ensures found <==> diskNumber < |sizes|
      ensures volumeDiskSize == if found then sizes[diskNumber] else 0
    {
      if diskNumber >= |volumeDisks| {
        return false, 0;
      }
      return true, volumeDisks[diskNumber].volumeDiskSize;
    }

    /** `TryGetOffsetFromStart(diskNumber, offsetOnTheDisk, ...)`: fails
        for a disk that does not exist or an offset past the end of the
        disk; the checked addition cannot overflow. */
    method TryGetOffsetFromStart(diskNumber: nat, offsetOnTheDisk: UInt64) returns (found: bool, offsetFromStart: UInt64)
      requires Valid()
      ensures found <==> diskNumber < |sizes| && offsetOnTheDisk <= sizes[diskNumber]
      ensures offsetFromStart == if found then TotalOffset(sizes, diskNumber) + offsetOnTheDisk else 0
    {
      if diskNumber >= |volumeDisks| {
        return false, 0;
      }
      var element := volumeDisks[diskNumber];
      if offsetOnTheDisk > element.volumeDiskSize {
        return false, 0;
      }
      OffsetWithinTotal(sizes, diskNumber + 1);
      TotalOffsetStep(sizes, diskNumber);
      return true, element.totalOffset + offsetOnTheDisk;
    }

    /** `GetVolumeDiskPosition(offsetFromStart, start, end, ...)`: the
        binary search over disks start..end, knowing that the offset lies
        at or past disk start and before disk end + 1. */
    method GetVolumeDiskPosition(offsetFromStart: nat, startOfDiskNumber: nat, endOfDiskNumber: nat)
      returns (diskNumber: nat, totalOffset: nat)
      requires Valid() && startOfDiskNumber <= endOfDiskNumber < |sizes|
      requires TotalOffset(sizes, startOfDiskNumber) <= offsetFromStart
      requires endOfDiskNumber == |sizes| - 1 || offsetFromStart < TotalOffset(sizes, endOfDiskNumber + 1)
      ensures startOfDiskNumber <= diskNumber <= endOfDiskNumber
      ensures Locates(sizes, offsetFromStart, diskNumber) && totalOffset == TotalOffset(sizes, diskNumber)
      decreases endOfDiskNumber - startOfDiskNumber
    {
      if startOfDiskNumber == endOfDiskNumber {
        diskNumber := startOfDiskNumber;
        totalOffset := volumeDisks[startOfDiskNumber].totalOffset;
      } else {
        var halfLength := (endOfDiskNumber - startOfDiskNumber + 1) / 2;
        var middleDiskNumber := startOfDiskNumber + halfLength;
        var middleElement := volumeDisks[middleDiskNumber];
        if offsetFromStart < middleElement.totalOffset {
          diskNumber, totalOffset := GetVolumeDiskPosition(offsetFromStart, startOfDiskNumber, middleDiskNumber - 1);
        } else {
          diskNumber, totalOffset := GetVolumeDiskPosition(offsetFromStart, middleDiskNumber, endOfDiskNumber);
        }
      }
    }
  }
}
