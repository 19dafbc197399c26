/** `fat_read_file` of fat/fat_boot.c, with its scratch buffer shared by FAT lookups and
    partial sectors and its direct reads into the destination. */
module FatReader {
  import opened Bytes
  import opened DivMod
  import opened FatVolume

  /** The EHCI reader appends the status wrapper of the transport to every transfer of
      more than one sector (usb/ehci_usb.c:696-698). */
  datatype Reader = Sd | Usb3 | Usb2(csw: seq<byte>) {
    predicate Valid() {
      Usb2? ==> |csw| == CSW_SIZE
    }

    function Spill(count: nat): nat {
      if Usb2? && count > 1 then CSW_SIZE else 0
    }
  }

  datatype Status = Pass | Fail

  /** Sectors per transfer in the whole-cluster phase. */
  function TransferSectors(reader: Reader, spc: nat): (t: nat)
    requires spc > 0
    ensures t > 0 && spc % t == 0
  {
    if spc % 8 == 0 then 8
    else if !reader.Sd? then 1
    else if spc % 2 == 0 then 2
    else if 2 < spc < 8 then spc
    else 1
  }

  /** Byte position in the file of sector `off` of its ci-th cluster. */
  function Pos(v: Volume, ci: nat, off: nat): nat {
    (ci * v.sectPerClus + off) * v.bytePerSect
  }

  lemma PosStep(v: Volume, ci: nat, off: nat, n: nat)
    ensures Pos(v, ci, off + n) == Pos(v, ci, off) + n * v.bytePerSect
    ensures Pos(v, ci, v.sectPerClus) == Pos(v, ci + 1, 0)
    ensures Pos(v, ci + 1, 0) == Pos(v, ci, 0) + v.sectPerClus * v.bytePerSect
  {
    var a, bps := ci * v.sectPerClus, v.bytePerSect;
    assert (a + off + n) * bps == (a + off) * bps + n * bps;
    assert (ci + 1) * v.sectPerClus == a + v.sectPerClus;
    assert (a + v.sectPerClus) * bps == a * bps + v.sectPerClus * bps;
  }

  lemma PosOrder(v: Volume, ci: nat, off: nat)
    requires off <= v.sectPerClus
    ensures Pos(v, ci, 0) <= Pos(v, ci, off) <= Pos(v, ci + 1, 0)
  {
    PosStep(v, ci, 0, 0);
    MulMonotone(ci * v.sectPerClus, ci * v.sectPerClus + off, v.bytePerSect);
    MulMonotone(ci * v.sectPerClus + off, ci * v.sectPerClus + v.sectPerClus, v.bytePerSect);
  }

  lemma PosInside(v: Volume, ci: nat, off: nat, n: nat)
    requires Pos(v, ci, off) < Pos(v, n, 0)
    ensures ci < n
  {
    if ci >= n {
      MulMonotone(n, ci, v.sectPerClus);
      MulMonotone(n * v.sectPerClus, ci * v.sectPerClus + off, v.bytePerSect);
    }
  }

  /** b is the k-th byte of the file. */
  ghost predicate IsFileByte(v: Volume, chain: seq<nat>, k: nat, b: byte)
    requires v.Shaped()
  {
    k / v.bytePerSect / v.sectPerClus < |chain| && b == v.FileByte(chain, k)
  }

  /** d[..n) holds the file's bytes from `offset` on. */
  ghost predicate Copied(v: Volume, chain: seq<nat>, offset: nat, d: seq<byte>, n: nat)
    requires v.Shaped()
  {
    n <= |d| && forall p :: 0 <= p < n ==> IsFileByte(v, chain, offset + p, d[p])
  }

  /** What a caller of `fat_read_file` knows: the chain, and that the range lies inside. */
  ghost predicate InFile(v: Volume, first: nat, chain: seq<nat>, offset: nat, length: nat)
    requires v.Shaped()
  {
    v.Chain(first, chain) && offset + length <= Pos(v, |chain|, 0)
  }

  /** Such a range on a volume whose sectors are the device's blocks. */
  ghost predicate Served(v: Volume, first: nat, chain: seq<nat>, offset: nat, length: nat)
    requires v.Shaped()
  {
    v.Plain() && InFile(v, first, chain, offset, length)
  }

  /** On such a volume `cluster` is the ci-th one of the chain, if there is one. */
  ghost predicate Known(v: Volume, first: nat, chain: seq<nat>, ci: nat, cluster: nat)
    requires v.Shaped()
  {
    v.Plain() && v.Chain(first, chain) && ci < |chain| ==> cluster == chain[ci]
  }

  /** The loader stands at sector `off` of the ci-th cluster with `at` bytes delivered. */
  ghost predicate Here(v: Volume, chain: seq<nat>, offset: nat, at: nat, ci: nat, off: nat, cluster: nat) {
    Pos(v, ci, off) == offset + at && (ci < |chain| ==> cluster == chain[ci])
  }

  /** Byte p of the destination, when sector `off` of the ci-th cluster starts at `at`. */
  lemma BytePoint(v: Volume, first: nat, chain: seq<nat>, offset: nat, at: nat, skip: nat, ci: nat, off: nat,
                  count: nat, x: nat)
    requires v.Shaped() && v.Chain(first, chain) && ci < |chain| && off + count <= v.sectPerClus
    requires Pos(v, ci, off) + skip == offset + at && skip + x < count * v.bytePerSect
    ensures v.ClusterSector(chain[ci]) >= 0
    ensures IsFileByte(v, chain, offset + at + x, v.SectorByte(v.ClusterSector(chain[ci]) + off, skip + x))
  {
    DivBelow(skip + x, count, v.bytePerSect);
    BytesOfCluster(v, first, chain, ci, off, skip + x, offset + at + x);
  }

  /** New bytes that come from sector `off` of the ci-th cluster on extend the copy. */
  lemma CopyGrows(v: Volume, first: nat, chain: seq<nat>, offset: nat, d: seq<byte>, d': seq<byte>,
                  at: nat, n: nat, ci: nat, off: nat, count: nat)
    requires v.Shaped() && v.Chain(first, chain) && ci < |chain| && Copied(v, chain, offset, d, at)
    requires Pos(v, ci, off) == offset + at && off + count <= v.sectPerClus && n <= count * v.bytePerSect
    requires |d| == |d'| && at + n <= |d'| && d'[..at] == d[..at]
    requires v.ClusterSector(chain[ci]) >= 0
    requires forall p :: at <= p < at + n ==> d'[p] == v.SectorByte(v.ClusterSector(chain[ci]) + off, p - at)
    ensures Copied(v, chain, offset, d', at + n)
  {
    forall p | 0 <= p < at + n ensures IsFileByte(v, chain, offset + p, d'[p]) {
      if p < at {
        assert d'[p] == d'[..at][p] == d[..at][p] == d[p];
      } else {
        BytePoint(v, first, chain, offset, at, 0, ci, off, count, p - at);
        assert offset + at + (p - at) == offset + p;
      }
    }
  }

  /** Bytes a transfer leaves behind its sectors. With wider sectors the status wrapper falls
      inside them, for the blocks moved end before they do. */
  function SpillBehind(v: Volume, reader: Reader, count: nat): nat {
    if v.Plain() then reader.Spill(count) else 0
  }

  lemma WideGap(v: Volume, count: nat)
    requires v.Shaped() && !v.Plain() && count > 0
    ensures count * BLOCK + CSW_SIZE < count * v.bytePerSect
  {
    MulMonotone(1, count, v.bytePerSect - BLOCK);
  }

  /** A read of whole sectors straight into the destination. */
  method ReadIntoDest(v: Volume, drive: Drive, reader: Reader, sector: nat, count: nat, dest: array<byte>, at: nat)
    requires v.Shaped() && reader.Valid() && count > 0 && (count == 1 || count == drive.step)
    requires at + count * v.bytePerSect + SpillBehind(v, reader, count) <= dest.Length
    requires drive.Ok()
    modifies dest, drive.Parts()
    ensures drive.Since(old(drive.asked))
    ensures v.Plain() ==> forall p :: at <= p < at + count * v.bytePerSect ==> dest[p] == v.SectorByte(sector, p - at)
    ensures Wrote(v, reader, old(dest[..]), dest[..], at, at + count * v.bytePerSect, SpillBehind(v, reader, count))
  {
    if !v.Plain() {
      WideGap(v, count);
    }
    ReadSectors(v, drive, sector, count, dest, at);
    if v.Plain() {
      forall p | at <= p < at + count * BLOCK ensures dest[p] == v.SectorByte(sector, p - at) {
        PlainByte(v, sector, p - at);
      }
    }
    if reader.Spill(count) > 0 {
      AppendCsw(reader, dest, at + count * BLOCK);
    }
  }

  method AppendCsw(reader: Reader, dest: array<byte>, end: nat)
    requires reader.Usb2? && reader.Valid() && end + CSW_SIZE <= dest.Length
    modifies dest
    ensures dest[end..end + CSW_SIZE] == reader.csw
    ensures forall p :: 0 <= p < end || end + CSW_SIZE <= p < dest.Length ==> dest[p] == old(dest[p])
  {
    for i := 0 to CSW_SIZE
      invariant forall p :: 0 <= p < end || end + i <= p < dest.Length ==> dest[p] == old(dest[p])
      invariant forall p :: end <= p < end + i ==> dest[p] == reader.csw[p - end]
    {
      dest[end + i] := reader.csw[i];
    }
  }

  /** The bytes from `at` on are those of `d`, but for the status wrapper a multi-sector
      read may have left there. */
  ghost predicate SpilledAt(reader: Reader, d: seq<byte>, d': seq<byte>, at: nat, spill: nat) {
    && at + spill <= |d'| && |d| == |d'|
    && (spill > 0 ==> reader.Usb2? && d'[at..at + spill] == reader.csw)
    && forall p :: at + spill <= p < |d'| ==> d'[p] == d[p]
  }

  lemma SpillTrans(reader: Reader, d: seq<byte>, d': seq<byte>, d'': seq<byte>, at: nat, at': nat, spill: nat,
                   spill': nat)
    requires SpilledAt(reader, d, d', at, spill) && SpilledAt(reader, d', d'', at', spill')
    requires at + spill <= at' + spill'
    ensures SpilledAt(reader, d, d'', at', spill')
  {
  }

  /** Transfers have filled the sectors from `at0` to `at`; wider sectors only in part, so
      that the last byte is still the old one. */
  ghost predicate Wrote(v: Volume, reader: Reader, d: seq<byte>, d': seq<byte>, at0: nat, at: nat, spill: nat) {
    && SpilledAt(reader, d, d', at, spill)
    && at0 <= at && d'[..at0] == d[..at0]
    && (!v.Plain() ==> spill == 0 && (at0 < at ==> d'[at - 1] == d[at - 1]))
  }

  lemma WroteTrans(v: Volume, reader: Reader, d: seq<byte>, d': seq<byte>, d'': seq<byte>, at0: nat, at: nat, at': nat,
                   spill: nat, spill': nat)
    requires Wrote(v, reader, d, d', at0, at, spill) && Wrote(v, reader, d', d'', at, at', spill')
    requires at + spill <= at' + spill'
    ensures Wrote(v, reader, d, d'', at0, at', spill')
  {
    assert d''[..at0] == d''[..at][..at0] == d'[..at][..at0] == d'[..at0];
    if 0 < at == at' {
      assert d''[..at][at - 1] == d'[..at][at - 1];
    }
  }

  /** Nothing written so far, or reads up to `at` with their spill. */
  ghost predicate WroteIf(any: bool, v: Volume, reader: Reader, d: seq<byte>, d': seq<byte>, at0: nat, at: nat,
                          spill: nat) {
    if any then Wrote(v, reader, d, d', at0, at, spill) else d' == d && at == at0
  }

  lemma WroteAgain(any: bool, v: Volume, reader: Reader, d: seq<byte>, d': seq<byte>, d'': seq<byte>, at0: nat, at: nat,
                   at': nat, spill: nat)
    requires WroteIf(any, v, reader, d, d', at0, at, spill) && Wrote(v, reader, d', d'', at, at', spill)
    ensures Wrote(v, reader, d, d'', at0, at', spill)
  {
    if any {
      WroteTrans(v, reader, d, d', d'', at0, at, at', spill, spill);
    }
  }

  /** A range that ends at `length` is done; its whole sectors from `at0` on end at `end`. */
  ghost predicate Finished(v: Volume, d: seq<byte>, d': seq<byte>, at0: nat, end: nat, length: nat) {
    && at0 <= end <= length < end + v.bytePerSect
    && length <= |d'| == |d| && d'[..at0] == d[..at0]
    && (!v.Plain() && at0 < end ==> d'[end - 1] == d[end - 1])
  }

  ghost predicate Leaves(v: Volume, d: seq<byte>, d': seq<byte>, at0: nat, length: nat) {
    exists end: nat :: Finished(v, d, d', at0, end, length)
  }

  /** The end of a range, behind what transfers have written. */
  lemma LeavesAfter(v: Volume, reader: Reader, d: seq<byte>, d': seq<byte>, d'': seq<byte>, at0: nat, at: nat,
                    length: nat, spill: nat)
    requires Wrote(v, reader, d, d', at0, at, spill) && Leaves(v, d', d'', at, length)
    ensures Leaves(v, d, d'', at0, length)
  {
    var end: nat :| Finished(v, d', d'', at, end, length);
    assert d''[..at0] == d''[..at][..at0] == d'[..at][..at0] == d'[..at0];
    if 0 < at == end {
      assert d''[..at][at - 1] == d'[..at][at - 1];
    }
    assert Finished(v, d, d'', at0, end, length);
  }

  /** The part of a sector at the end of a range, behind whole sectors up to `at`. */
  lemma LeavesLast(v: Volume, reader: Reader, d: seq<byte>, d': seq<byte>, d'': seq<byte>, at0: nat, at: nat,
                   length: nat)
    requires v.Shaped() && Wrote(v, reader, d, d', at0, at, 0) && |d''| == |d'| && length <= |d'|
    requires at <= length < at + v.bytePerSect && d''[..at] == d'[..at]
    ensures Leaves(v, d, d'', at0, length)
  {
    assert Finished(v, d', d'', at, at, length);
    LeavesAfter(v, reader, d, d', d'', at0, at, length, 0);
  }

  /** The rest of a read that ends inside a sector, through the scratch buffer. */
  method ReadPartial(v: Volume, drive: Drive, sector: nat, buffer: array<byte>, dest: array<byte>, at: nat, size: nat)
    requires v.Shaped() && buffer.Length >= v.bytePerSect && buffer != dest
    requires size < v.bytePerSect && at + size <= dest.Length
    requires drive.Ok()
    modifies buffer, dest, drive.Parts()
    ensures drive.Since(old(drive.asked))
    ensures dest[..at] == old(dest[..at])
    ensures dest[at..at + size] == v.Scratch(sector, old(buffer[BLOCK..v.bytePerSect]))[..size]
    ensures v.Plain() ==> forall p :: at <= p < at + size ==> dest[p] == v.SectorByte(sector, p - at)
    ensures SpilledAt(Sd, old(dest[..]), dest[..], at + size, 0)
  {
    ReadOneSector(v, drive, sector, buffer);
    ghost var scratch := v.Scratch(sector, old(buffer[BLOCK..v.bytePerSect]));
    for i := 0 to size
      invariant drive.Since(old(drive.asked))
      invariant dest[..at] == old(dest[..at]) && buffer[..v.bytePerSect] == scratch
      invariant forall p :: at <= p < at + i ==> dest[p] == scratch[p - at]
      invariant forall p :: at + i <= p < dest.Length ==> dest[p] == old(dest[p])
    {
      assert buffer[i] == buffer[..v.bytePerSect][i];
      dest[at + i] := buffer[i];
    }
    if v.Plain() {
      PlainScratch(v, sector, old(buffer[BLOCK..v.bytePerSect]));
    }
  }

  /** Follows the chain by one cluster. */
  method Follow(v: Volume, drive: Drive, cluster: nat, buffer: array<byte>, ghost first: nat, ghost chain: seq<nat>,
                ghost ci: nat)
    returns (cluster': nat)
    requires v.Valid() && buffer.Length >= v.bytePerSect
    requires drive.Ok()
    modifies buffer, drive.Parts()
    ensures drive.Since(old(drive.asked))
    ensures cluster' == v.Lookup(cluster, old(buffer[BLOCK..v.bytePerSect]))
    ensures buffer[BLOCK..v.bytePerSect] == old(buffer[BLOCK..v.bytePerSect])
    ensures v.Plain() && v.Chain(first, chain) && ci < |chain| && cluster == chain[ci] ==>
              cluster' == v.FatEntry(chain[ci]) && (ci + 1 < |chain| ==> cluster' == chain[ci + 1])
  {
    cluster' := NextCluster(v, drive, cluster, buffer);
    if v.Plain() && v.Chain(first, chain) && ci < |chain| && cluster == chain[ci] {
      assert v.DataCluster(chain[ci]);
    }
  }

  /** A chain with the end mark behind it. */
  ghost function WithMark(v: Volume, chain: seq<nat>): (w: seq<nat>)
    requires v.Shaped() && chain != []
    ensures |w| == |chain| + 1
  {
    chain + [v.FatEntry(chain[|chain| - 1])]
  }

  /** `cluster` is the i-th one of the whole file, or the end mark behind them. */
  ghost predicate AtMost(v: Volume, first: nat, chain: seq<nat>, i: nat, cluster: nat)
    requires v.Shaped()
  {
    v.Plain() && v.Ends(first, chain) ==> i <= |chain| && cluster == WithMark(v, chain)[i]
  }

  /** A walk that has not met an end mark goes on inside the file, or to its mark. */
  lemma AtMostStep(v: Volume, first: nat, chain: seq<nat>, i: nat, cluster: nat, cluster': nat)
    requires v.Shaped() && AtMost(v, first, chain, i, cluster) && cluster < v.EndMark()
    requires v.Plain() && v.Chain(first, chain) && i < |chain| ==> cluster' == v.FatEntry(chain[i])
    ensures AtMost(v, first, chain, i + 1, cluster')
  {
  }

  /** One step of the walk. */
  method WalkOn(v: Volume, drive: Drive, ghost first: nat, cluster: nat, buffer: array<byte>, ghost chain: seq<nat>,
                ghost i: nat)
    returns (cluster': nat)
    requires v.Valid() && buffer.Length >= v.bytePerSect && cluster < v.EndMark()
    requires Known(v, first, chain, i, cluster) && AtMost(v, first, chain, i, cluster)
    requires drive.Ok()
    modifies buffer, drive.Parts()
    ensures drive.Since(old(drive.asked))
    ensures cluster' == v.Lookup(cluster, old(buffer[BLOCK..v.bytePerSect]))
    ensures buffer[BLOCK..v.bytePerSect] == old(buffer[BLOCK..v.bytePerSect])
    ensures Known(v, first, chain, i + 1, cluster') && AtMost(v, first, chain, i + 1, cluster')
  {
    cluster' := Follow(v, drive, cluster, buffer, first, chain, i);
    AtMostStep(v, first, chain, i, cluster, cluster');
  }

  /** Walks to the cluster that holds file sector `sect`. It fails exactly beyond the end
      mark; on the mark itself it stops without testing it. */
  method WalkToCluster(v: Volume, drive: Drive, first: nat, sect: nat, buffer: array<byte>, ghost chain: seq<nat>)
    returns (ok: bool, cluster: nat, off: nat)
    requires v.Valid() && buffer.Length >= v.bytePerSect
    requires drive.Ok()
    modifies buffer, drive.Parts()
    ensures drive.Since(old(drive.asked))
    ensures buffer[BLOCK..v.bytePerSect] == old(buffer[BLOCK..v.bytePerSect])
    ensures ok ==> sect / v.sectPerClus >= 0
                   && cluster == Visited(v, first, old(buffer[BLOCK..v.bytePerSect]), sect / v.sectPerClus)
    ensures ok ==> off == sect % v.sectPerClus && sect / v.sectPerClus >= 0
                   && Known(v, first, chain, sect / v.sectPerClus, cluster)
                   && AtMost(v, first, chain, sect / v.sectPerClus, cluster)
    ensures !ok && v.Plain() && v.Chain(first, chain) ==> sect / v.sectPerClus > |chain|
    ensures ok <==> sect / v.sectPerClus >= 0
                    && PassesBy(v, first, old(buffer[BLOCK..v.bytePerSect]), sect / v.sectPerClus)
  {
    cluster, off, ok := first, sect, true;
    ghost var i: nat := 0;
    ghost var behind := buffer[BLOCK..v.bytePerSect];
    while off >= v.sectPerClus
      invariant drive.Since(old(drive.asked))
      invariant sect == i * v.sectPerClus + off
      invariant buffer[BLOCK..v.bytePerSect] == behind && cluster == Visited(v, first, behind, i)
      invariant Known(v, first, chain, i, cluster) && AtMost(v, first, chain, i, cluster)
      invariant PassesBy(v, first, behind, i)
    {
      ClustersLeft(v, sect, i, off);
      if cluster >= v.EndMark() {
        ok := false;
        EndMarkIsNotInside(v, first, chain, sect, i, off, cluster);
        return;
      }
      cluster := WalkOn(v, drive, first, cluster, buffer, chain, i);
      off := off - v.sectPerClus;
      Distribute(i, 1, v.sectPerClus);
      i := i + 1;
    }
    DivModUnique(sect, v.sectPerClus, i, off);
  }

  /** None of the first n clusters the loader visits is an end mark to it. */
  ghost predicate PassesBy(v: Volume, first: nat, behind: seq<byte>, n: nat)
    requires v.Shaped() && BLOCK + |behind| == v.bytePerSect
  {
    forall k :: 0 <= k < n ==> Visited(v, first, behind, k) < v.EndMark()
  }

  lemma ClustersLeft(v: Volume, sect: nat, i: nat, off: nat)
    requires v.Shaped() && sect == i * v.sectPerClus + off && off >= v.sectPerClus
    ensures i < sect / v.sectPerClus
  {
    DivShift(i, off, v.sectPerClus);
    DivBelow(0, 1, v.sectPerClus);
    assert off / v.sectPerClus >= 1;
  }

  lemma EndMarkIsNotInside(v: Volume, first: nat, chain: seq<nat>, sect: nat, i: nat, off: nat, cluster: nat)
    requires v.Shaped() && sect == i * v.sectPerClus + off && off >= v.sectPerClus
    requires Known(v, first, chain, i, cluster) && cluster >= v.EndMark()
    ensures v.Plain() && v.Chain(first, chain) ==> sect / v.sectPerClus > |chain|
  {
    if v.Plain() && v.Chain(first, chain) {
      assert forall k :: 0 <= k < |chain| ==> v.DataCluster(chain[k]) && chain[k] < v.EndMark();
      DivShift(i + 1, off - v.sectPerClus, v.sectPerClus);
      DivNonNegative(off - v.sectPerClus, v.sectPerClus);
      Distribute(i, 1, v.sectPerClus);
    }
  }

  /** The state between two phases: `at` bytes delivered, `size` to go. */
  ghost predicate Between(v: Volume, first: nat, chain: seq<nat>, offset: nat, length: nat, d: seq<byte>,
                          at: nat, size: nat, ci: nat, off: nat, cluster: nat)
    requires v.Shaped()
  {
    && at + size == length
    && (Served(v, first, chain, offset, length) ==>
          Here(v, chain, offset, at, ci, off, cluster) && Copied(v, chain, offset, d, at))
  }

  lemma MoreToRead(v: Volume, first: nat, chain: seq<nat>, offset: nat, length: nat, at: nat, ci: nat, off: nat)
    requires v.Shaped() && Served(v, first, chain, offset, length) && at < length
    requires Pos(v, ci, off) == offset + at
    ensures ci < |chain| && v.DataCluster(chain[ci])
  {
    PosInside(v, ci, off, |chain|);
  }

  /** The bytes of the head. */
  function HeadLength(v: Volume, remain: nat, length: nat): (n: nat)
    requires remain < v.bytePerSect
  {
    if length < v.bytePerSect - remain then length else v.bytePerSect - remain
  }

  /** What is left after the head, and where its copy loop ends; the sum wraps. */
  method HeadSize(v: Volume, remain: nat, length: nat) returns (size: nat, count: nat)
    requires v.Shaped() && remain < v.bytePerSect && length < TWO_32
    ensures count <= v.bytePerSect && count - remain <= length
    ensures remain + length >= TWO_32 ==> size == 0 && count <= remain
    ensures remain + length < TWO_32 ==>
              var n := HeadLength(v, remain, length);
              size == length - n && count == remain + n
  {
    if Wrap32(remain + length) < v.bytePerSect {
      size := 0;
      count := Wrap32(remain + length);
    } else {
      size := length - (v.bytePerSect - remain);
      count := v.bytePerSect;
    }
  }

  /** Phase 1: the unaligned head, `remain` bytes into sector `off`. */
  method ReadHead(v: Volume, drive: Drive, first: nat, cluster: nat, off: nat, remain: nat, offset: nat, length: nat,
                  buffer: array<byte>, dest: array<byte>, ghost chain: seq<nat>, ghost ci: nat)
    returns (cluster': nat, off': nat, at: nat, size: nat, ghost ci': nat)
    requires v.Valid() && buffer.Length >= v.bytePerSect && buffer != dest
    requires 0 < remain < v.bytePerSect && off < v.sectPerClus && 0 < length < TWO_32
    requires remain + length < TWO_32 ==> length <= dest.Length
    requires Known(v, first, chain, ci, cluster)
    requires offset == Pos(v, ci, off) + remain
    requires drive.Ok()
    modifies buffer, dest, drive.Parts()
    ensures drive.Since(old(drive.asked))
    ensures buffer[BLOCK..v.bytePerSect] == old(buffer[BLOCK..v.bytePerSect])
    ensures remain + length < TWO_32 ==>
              var n := HeadLength(v, remain, length);
              n <= dest.Length
              && dest[..n]
                 == v.Scratch(Wrap32(v.ClusterSector(cluster) + off),
                              old(buffer[BLOCK..v.bytePerSect]))[remain..remain + n]
    ensures cluster == Visited(v, first, old(buffer[BLOCK..v.bytePerSect]), ci) ==>
              cluster' == Visited(v, first, old(buffer[BLOCK..v.bytePerSect]), ci')
    ensures remain + length >= TWO_32 ==> size == 0 && dest[..] == old(dest[..])
    ensures remain + length < TWO_32 ==>
              var n := HeadLength(v, remain, length);
              && size == length - n
              && (Served(v, first, chain, offset, length) ==> Copied(v, chain, offset, dest[..], n))
              && SpilledAt(Sd, old(dest[..]), dest[..], n, 0)
              && Pos(v, ci', off') == Pos(v, ci, off) + v.bytePerSect
              && (size > 0 ==> off' < v.sectPerClus && at == n && ci' == (if off' == 0 then ci + 1 else ci)
                               && Between(v, first, chain, offset, length, dest[..], at, size, ci', off', cluster'))
  {
    var count;
    size, count := HeadSize(v, remain, length);
    CopyHead(v, drive, first, cluster, off, remain, count, offset, length, buffer, dest, chain, ci);
    at := v.bytePerSect - remain;
    cluster', off', ci' := StepSector(v, drive, first, cluster, off, buffer, chain, ci);
    if size > 0 && remain + length < TWO_32 {
      HeadBetween(v, first, chain, offset, length, dest[..], at, size, ci, off, ci', off', cluster');
    }
  }

  lemma HeadBetween(v: Volume, first: nat, chain: seq<nat>, offset: nat, length: nat, d: seq<byte>, at: nat, size: nat,
                    ci: nat, off: nat, ci': nat, off': nat, cluster': nat)
    requires v.Shaped() && at + size == length && size > 0
    requires Pos(v, ci', off') == offset + at && Pos(v, ci, off) <= offset
    requires Served(v, first, chain, offset, length) ==> Copied(v, chain, offset, d, at)
    requires Known(v, first, chain, ci', cluster')
    ensures Between(v, first, chain, offset, length, d, at, size, ci', off', cluster')
  {
    if Served(v, first, chain, offset, length) {
      PosInside(v, ci, off, |chain|);
    }
  }

  /** Copies buffer[remain..count) of sector `off` to the destination. */
  method CopyHead(v: Volume, drive: Drive, ghost first: nat, cluster: nat, off: nat, remain: nat, count: nat,
                  ghost offset: nat,
                  ghost length: nat, buffer: array<byte>, dest: array<byte>, ghost chain: seq<nat>, ghost ci: nat)
    requires v.Shaped() && buffer.Length >= v.bytePerSect && buffer != dest
    requires 0 < remain < v.bytePerSect && off < v.sectPerClus && length > 0
    requires count <= v.bytePerSect && count - remain <= length && count - remain <= dest.Length
    requires Known(v, first, chain, ci, cluster)
    requires offset == Pos(v, ci, off) + remain
    requires drive.Ok()
    modifies buffer, dest, drive.Parts()
    ensures drive.Since(old(drive.asked))
    ensures buffer[BLOCK..v.bytePerSect] == old(buffer[BLOCK..v.bytePerSect])
    ensures count > remain ==>
              dest[..count - remain]
              == v.Scratch(Wrap32(v.ClusterSector(cluster) + off), old(buffer[BLOCK..v.bytePerSect]))[remain..count]
    ensures count <= remain ==> dest[..] == old(dest[..])
    ensures count > remain && Served(v, first, chain, offset, length) ==>
              Copied(v, chain, offset, dest[..], count - remain)
    ensures forall p :: 0 <= p < dest.Length && p >= count - remain ==> dest[p] == old(dest[p])
  {
    var sector := Wrap32(v.FirstSector(cluster) + off);
    ReadOneSector(v, drive, sector, buffer);
    ghost var scratch := v.Scratch(sector, old(buffer[BLOCK..v.bytePerSect]));
    var j := remain;
    while j < count
      invariant drive.Since(old(drive.asked))
      invariant remain <= j && (j <= count || j == remain)
      invariant buffer[..v.bytePerSect] == scratch && buffer[BLOCK..v.bytePerSect] == old(buffer[BLOCK..v.bytePerSect])
      invariant forall p :: 0 <= p < j - remain ==> dest[p] == scratch[remain + p]
      invariant forall p :: j - remain <= p < dest.Length ==> dest[p] == old(dest[p])
    {
      assert buffer[j] == buffer[..v.bytePerSect][j];
      dest[j - remain] := buffer[j];
      j := j + 1;
    }
    if count > remain {
      if v.Plain() {
        PlainScratch(v, sector, old(buffer[BLOCK..v.bytePerSect]));
      }
      HeadCopied(v, first, chain, offset, length, dest[..], j - remain, ci, off, remain, sector, cluster);
    }
  }

  /** Done with sector `off`: the next sector, perhaps in the next cluster. */
  method StepSector(v: Volume, drive: Drive, ghost first: nat, cluster: nat, off: nat, buffer: array<byte>,
                    ghost chain: seq<nat>, ghost ci: nat)
    returns (cluster': nat, off': nat, ghost ci': nat)
    requires v.Valid() && buffer.Length >= v.bytePerSect && off < v.sectPerClus
    requires Known(v, first, chain, ci, cluster)
    requires drive.Ok()
    modifies buffer, drive.Parts()
    ensures drive.Since(old(drive.asked))
    ensures buffer[BLOCK..v.bytePerSect] == old(buffer[BLOCK..v.bytePerSect])
    ensures cluster == Visited(v, first, old(buffer[BLOCK..v.bytePerSect]), ci) ==>
              cluster' == Visited(v, first, old(buffer[BLOCK..v.bytePerSect]), ci')
    ensures off' < v.sectPerClus && Pos(v, ci', off') == Pos(v, ci, off) + v.bytePerSect
    ensures ci' == if off' == 0 then ci + 1 else ci
    ensures Known(v, first, chain, ci', cluster')
  {
    cluster', off', ci' := cluster, off + 1, ci;
    PosStep(v, ci, off, 1);
    MaskSector(v, off');
    LastSectorOnly(off', v.sectPerClus);
    if BitAnd(off', v.sectPerClus - 1) == 0 {
      cluster' := Follow(v, drive, cluster, buffer, first, chain, ci);
      off' := 0;
      ci' := ci + 1;
    }
  }

  lemma LastSectorOnly(off: nat, spc: nat)
    requires 0 < off <= spc
    ensures off % spc == 0 <==> off == spc
  {
    if off < spc {
      DivModUnique(off, spc, 0, off);
    } else {
      DivModUnique(off, spc, 1, 0);
    }
  }

  lemma {:induction false} HeadCopied(v: Volume, first: nat, chain: seq<nat>, offset: nat, length: nat, d: seq<byte>,
                                      n: nat, ci: nat, off: nat, remain: nat, sector: nat, cluster: nat)
    requires v.Shaped() && off < v.sectPerClus && n <= length && n <= |d| && remain + n <= v.bytePerSect
    requires Known(v, first, chain, ci, cluster)
    requires sector == Wrap32(v.ClusterSector(cluster) + off)
    requires offset == Pos(v, ci, off) + remain && length > 0
    requires v.Plain() ==> forall p :: 0 <= p < n ==> d[p] == v.SectorByte(sector, remain + p)
    ensures Served(v, first, chain, offset, length) ==> Copied(v, chain, offset, d, n)
  {
    if Served(v, first, chain, offset, length) {
      HeadSector(v, first, chain, offset, length, ci, off, cluster);
      forall p | 0 <= p < n ensures IsFileByte(v, chain, offset + p, d[p]) {
        BytePoint(v, first, chain, offset, 0, remain, ci, off, 1, p);
      }
    }
  }

  lemma {:induction false} HeadSector(v: Volume, first: nat, chain: seq<nat>, offset: nat, length: nat, ci: nat,
                                      off: nat, cluster: nat)
    requires v.Shaped() && Served(v, first, chain, offset, length) && length > 0 && off < v.sectPerClus
    requires Pos(v, ci, off) <= offset && (ci < |chain| ==> cluster == chain[ci])
    ensures ci < |chain| && cluster == chain[ci] && v.ClusterSector(cluster) >= 0
    ensures Wrap32(v.ClusterSector(cluster) + off) == v.ClusterSector(cluster) + off
  {
    PosInside(v, ci, off, |chain|);
    assert v.DataCluster(chain[ci]);
  }

  /** One more read, of `n` bytes from sector `off`, keeps the state between phases. */
  lemma {:induction false} ReadAdvances(v: Volume, first: nat, chain: seq<nat>, offset: nat, length: nat, d: seq<byte>,
                                        d': seq<byte>, at: nat, size: nat, ci: nat, off: nat, cluster: nat, sector: nat,
                                        count: nat, n: nat)
    requires v.Shaped() && Between(v, first, chain, offset, length, d, at, size, ci, off, cluster)
    requires 0 < count && off + count <= v.sectPerClus && n <= size && n <= count * v.bytePerSect
    requires |d| == |d'| && at + n <= |d'| && d'[..at] == d[..at]
    requires sector == Wrap32(v.ClusterSector(cluster) + off)
    requires v.Plain() ==> forall p :: at <= p < at + n ==> d'[p] == v.SectorByte(sector, p - at)
    ensures Served(v, first, chain, offset, length) ==> Copied(v, chain, offset, d', at + n)
  {
    if Served(v, first, chain, offset, length) {
      if n > 0 {
        SectorIsReal(v, first, chain, offset, length, at, ci, off, cluster);
        CopyGrows(v, first, chain, offset, d, d', at, n, ci, off, count);
      } else {
        CopySurvives(v, chain, offset, d, d', at);
      }
    }
  }

  lemma {:induction false} SectorIsReal(v: Volume, first: nat, chain: seq<nat>, offset: nat, length: nat, at: nat,
                                        ci: nat, off: nat, cluster: nat)
    requires v.Shaped() && Served(v, first, chain, offset, length) && at < length && off < v.sectPerClus
    requires Here(v, chain, offset, at, ci, off, cluster)
    ensures ci < |chain| && cluster == chain[ci] && v.ClusterSector(cluster) >= 0
    ensures Wrap32(v.ClusterSector(cluster) + off) == v.ClusterSector(cluster) + off
  {
    MoreToRead(v, first, chain, offset, length, at, ci, off);
  }

  lemma CopySurvives(v: Volume, chain: seq<nat>, offset: nat, d: seq<byte>, d': seq<byte>, at: nat)
    requires v.Shaped() && Copied(v, chain, offset, d, at)
    requires at <= |d'| && d'[..at] == d[..at]
    ensures Copied(v, chain, offset, d', at)
  {
    forall p | 0 <= p < at ensures d'[p] == d[p] {
      assert d'[p] == d'[..at][p];
    }
  }

  /** One transfer of `count` sectors from sector `off` of the current cluster. */
  method ReadRun(v: Volume, drive: Drive, reader: Reader, sector: nat, count: nat, dest: array<byte>, at: nat,
                 ghost size: nat,
                 ghost first: nat, ghost chain: seq<nat>, ghost offset: nat, ghost length: nat, ghost ci: nat,
                 ghost off: nat, ghost cluster: nat)
    returns (at': nat)
    requires v.Shaped() && reader.Valid() && 0 < count && off + count <= v.sectPerClus
    requires count == 1 || count == drive.step
    requires sector == Wrap32(v.ClusterSector(cluster) + off)
    requires Between(v, first, chain, offset, length, dest[..], at, size, ci, off, cluster)
    requires count * v.bytePerSect <= size && length + reader.Spill(count) <= dest.Length
    requires drive.Ok()
    modifies dest, drive.Parts()
    ensures drive.Since(old(drive.asked))
    ensures at' == at + count * v.bytePerSect
    ensures Between(v, first, chain, offset, length, dest[..], at', size - count * v.bytePerSect, ci, off + count,
                    cluster)
    ensures Wrote(v, reader, old(dest[..]), dest[..], at, at', SpillBehind(v, reader, count))
  {
    at' := at + count * v.bytePerSect;
    ReadIntoDest(v, drive, reader, sector, count, dest, at);
    ReadAdvances(v, first, chain, offset, length, old(dest[..]), dest[..], at, size, ci, off, cluster, sector, count,
                 count * v.bytePerSect);
    PosStep(v, ci, off, count);
  }

  /** Single sectors have been read from `at0` on; `sector` is the next one. */
  ghost predicate Singles(v: Volume, first: nat, chain: seq<nat>, offset: nat, length: nat, d0: seq<byte>, d: seq<byte>,
                          at0: nat, at: nat, size: nat, ci: nat, off: nat, cluster: nat, sector: nat)
    requires v.Shaped()
  {
    && Between(v, first, chain, offset, length, d, at, size, ci, off, cluster)
    && Wrote(v, Sd, d0, d, at0, at, 0)
    && sector == Wrap32(v.ClusterSector(cluster) + off)
  }

  lemma {:induction false} SinglesBegin(v: Volume, first: nat, chain: seq<nat>, offset: nat, length: nat, d: seq<byte>,
                                        at: nat, size: nat, ci: nat, off: nat, cluster: nat)
    requires v.Shaped() && Between(v, first, chain, offset, length, d, at, size, ci, off, cluster) && length <= |d|
    ensures Singles(v, first, chain, offset, length, d, d, at, at, size, ci, off, cluster,
                    Wrap32(v.ClusterSector(cluster) + off))
  {
  }

  /** The range is done: delivered, nothing written behind it, and wider sectors left short. */
  ghost predicate Ended(v: Volume, first: nat, chain: seq<nat>, offset: nat, length: nat, d0: seq<byte>, d: seq<byte>,
                        at0: nat)
    requires v.Shaped()
  {
    && (Served(v, first, chain, offset, length) ==> Copied(v, chain, offset, d, length))
    && SpilledAt(Sd, d0, d, length, 0) && Leaves(v, d0, d, at0, length)
  }

  /** One sector straight into the destination. */
  method ReadSingle(v: Volume, drive: Drive, sector: nat, dest: array<byte>, at: nat, size: nat, ghost first: nat,
                    ghost chain: seq<nat>,
                    ghost offset: nat, ghost length: nat, ghost d0: seq<byte>, ghost at0: nat, ghost ci: nat,
                    ghost off: nat, ghost cluster: nat)
    returns (sector': nat, at': nat, size': nat)
    requires v.Shaped() && off < v.sectPerClus && size >= v.bytePerSect && length <= dest.Length
    requires Singles(v, first, chain, offset, length, d0, dest[..], at0, at, size, ci, off, cluster, sector)
    requires drive.Ok()
    modifies dest, drive.Parts()
    ensures drive.Since(old(drive.asked))
    ensures Singles(v, first, chain, offset, length, d0, dest[..], at0, at', size', ci, off + 1, cluster, sector')
    ensures size' == size - v.bytePerSect
  {
    at' := ReadRun(v, drive, Sd, sector, 1, dest, at, size, first, chain, offset, length, ci, off, cluster);
    WroteTrans(v, Sd, d0, old(dest[..]), dest[..], at0, at, at', 0, 0);
    WrapPlus(v.ClusterSector(cluster) + off, 1);
    sector' := Wrap32(sector + 1);
    size' := size - v.bytePerSect;
  }

  /** The part of a sector at the end of the range. */
  method ReadLast(v: Volume, drive: Drive, sector: nat, buffer: array<byte>, dest: array<byte>, at: nat, size: nat,
                  ghost first: nat,
                  ghost chain: seq<nat>, ghost offset: nat, ghost length: nat, ghost d0: seq<byte>, ghost at0: nat,
                  ghost ci: nat, ghost off: nat, ghost cluster: nat)
    requires v.Shaped() && off < v.sectPerClus && size < v.bytePerSect && length <= dest.Length
    requires buffer.Length >= v.bytePerSect && buffer != dest
    requires Singles(v, first, chain, offset, length, d0, dest[..], at0, at, size, ci, off, cluster, sector)
    requires drive.Ok()
    modifies buffer, dest, drive.Parts()
    ensures drive.Since(old(drive.asked))
    ensures dest[at..length] == v.Scratch(sector, old(buffer[BLOCK..v.bytePerSect]))[..size]
    ensures Ended(v, first, chain, offset, length, d0, dest[..], at0)
  {
    ReadPartial(v, drive, sector, buffer, dest, at, size);
    SpillTrans(Sd, d0, old(dest[..]), dest[..], at, length, 0, 0);
    LeavesLast(v, Sd, d0, old(dest[..]), dest[..], at0, at, length);
    ReadAdvances(v, first, chain, offset, length, old(dest[..]), dest[..], at, size, ci, off, cluster, sector, 1, size);
  }

  /** The mask of the C code, inside or at the end of a cluster. */
  lemma MaskEndsCluster(v: Volume, off: nat)
    requires v.Valid() && 0 < off <= v.sectPerClus
    ensures BitAnd(off, v.sectPerClus - 1) != 0 <==> off < v.sectPerClus
  {
    MaskSector(v, off);
    LastSectorOnly(off, v.sectPerClus);
  }

  /** Phase 2: single sectors up to the end of the cluster. */
  method ReadToClusterEnd(v: Volume, drive: Drive, first: nat, cluster: nat, off0: nat, offset: nat, length: nat,
                          at0: nat, size0: nat,
                          buffer: array<byte>, dest: array<byte>, ghost chain: seq<nat>, ghost ci: nat)
    returns (done: bool, cluster': nat, at: nat, size: nat, ghost ci': nat)
    requires v.Valid() && buffer.Length >= v.bytePerSect && buffer != dest
    requires off0 < v.sectPerClus && length <= dest.Length
    requires Between(v, first, chain, offset, length, dest[..], at0, size0, ci, off0, cluster)
    requires drive.Ok()
    modifies buffer, dest, drive.Parts()
    ensures drive.Since(old(drive.asked))
    ensures off0 == 0 ==> cluster' == cluster && size == size0 && !done && buffer[..] == old(buffer[..])
                          && dest[..] == old(dest[..])
    ensures off0 > 0 && size0 < v.bytePerSect ==>
              done && dest[at0..length]
                      == v.Scratch(Wrap32(v.ClusterSector(cluster) + off0), old(buffer[BLOCK..v.bytePerSect]))[..size0]
    ensures done ==> off0 > 0 && Ended(v, first, chain, offset, length, old(dest[..]), dest[..], at0)
    ensures done && Served(v, first, chain, offset, length) ==> offset + length <= Pos(v, ci + 1, 0)
    ensures !done ==> Between(v, first, chain, offset, length, dest[..], at, size, ci', 0, cluster')
                      && Wrote(v, Sd, old(dest[..]), dest[..], at0, at, 0)
    ensures !done ==> ci' == (if off0 == 0 then ci else ci + 1) && (off0 == 0 ==> at == at0)
  {
    done, cluster', at, size, ci' := false, cluster, at0, size0, ci;
    var off := off0;
    if off == 0 {
      MaskSector(v, off);
      return;
    }
    MaskEndsCluster(v, off);
    var sector := Wrap32(v.FirstSector(cluster) + off);
    SinglesBegin(v, first, chain, offset, length, dest[..], at, size, ci, off, cluster);
    while BitAnd(off, v.sectPerClus - 1) != 0
      invariant drive.Since(old(drive.asked))
      invariant 0 < off <= v.sectPerClus
      invariant size0 < v.bytePerSect ==> off == off0 && at == at0 && size == size0 && buffer[..] == old(buffer[..])
      invariant BitAnd(off, v.sectPerClus - 1) != 0 <==> off < v.sectPerClus
      invariant Singles(v, first, chain, offset, length, old(dest[..]), dest[..], at0, at, size, ci, off, cluster,
                        sector)
      decreases v.sectPerClus - off
    {
      if size < v.bytePerSect {
        EndsInCluster(v, first, chain, offset, length, dest[..], at, size, ci, off, cluster);
        ReadLast(v, drive, sector, buffer, dest, at, size, first, chain, offset, length, old(dest[..]), at0, ci, off,
                 cluster);
        done := true;
        return;
      }
      sector, at, size := ReadSingle(v, drive, sector, dest, at, size, first, chain, offset, length, old(dest[..]),
                                     at0, ci, off,
                                     cluster);
      off := off + 1;
      MaskEndsCluster(v, off);
    }
    cluster' := FollowInFile(v, drive, first, cluster, offset, length, at, size, buffer, dest, chain, ci);
    ci' := ci + 1;
  }

  lemma EndsInCluster(v: Volume, first: nat, chain: seq<nat>, offset: nat, length: nat, d: seq<byte>, at: nat,
                      size: nat, ci: nat, off: nat, cluster: nat)
    requires v.Shaped() && off < v.sectPerClus && size < v.bytePerSect
    requires Between(v, first, chain, offset, length, d, at, size, ci, off, cluster)
    ensures Served(v, first, chain, offset, length) ==> offset + length <= Pos(v, ci + 1, 0)
  {
    PosOrder(v, ci, off + 1);
    PosStep(v, ci, off, 1);
  }

  /** From the end of a cluster to the start of the next one. */
  method FollowInFile(v: Volume, drive: Drive, ghost first: nat, cluster: nat, ghost offset: nat, ghost length: nat,
                      ghost at: nat,
                      ghost size: nat, buffer: array<byte>, ghost dest: array<byte>, ghost chain: seq<nat>,
                      ghost ci: nat)
    returns (cluster': nat)
    requires v.Valid() && buffer.Length >= v.bytePerSect && buffer != dest
    requires Between(v, first, chain, offset, length, dest[..], at, size, ci, v.sectPerClus, cluster)
    requires drive.Ok()
    modifies buffer, drive.Parts()
    ensures drive.Since(old(drive.asked))
    ensures Between(v, first, chain, offset, length, dest[..], at, size, ci + 1, 0, cluster')
  {
    cluster' := Follow(v, drive, cluster, buffer, first, chain, ci);
    PosStep(v, ci, 0, 0);
  }

  lemma WrapPlus(x: int, j: nat)
    ensures Wrap32(Wrap32(x) + j) == Wrap32(x + j)
  {
  }

  /** Phase 3, one cluster: multi-sector reads straight into the destination. */
  method ReadCluster(v: Volume, drive: Drive, reader: Reader, step: nat, cluster: nat, at0: nat, ghost size: nat,
                     dest: array<byte>,
                     ghost first: nat, ghost chain: seq<nat>, ghost offset: nat, ghost length: nat, ghost ci: nat)
    returns (at: nat)
    requires v.Shaped() && reader.Valid() && step == drive.step == TransferSectors(reader, v.sectPerClus)
    requires v.sectPerClus * v.bytePerSect <= size && length + reader.Spill(step) <= dest.Length
    requires Between(v, first, chain, offset, length, dest[..], at0, size, ci, 0, cluster)
    requires drive.Ok()
    modifies dest, drive.Parts()
    ensures drive.Since(old(drive.asked))
    ensures InCluster(v, reader, first, chain, offset, length, old(dest[..]), dest[..], at0, size, ci, cluster, step,
                      v.sectPerClus, at)
  {
    at := at0;
    var j: nat := 0;
    var sector := Wrap32(v.FirstSector(cluster));
    ClusterBegins(v, reader, first, chain, offset, length, dest[..], at0, size, ci, cluster, step);
    DivModUnique(j, step, 0, 0);
    while j < v.sectPerClus
      invariant drive.Since(old(drive.asked))
      invariant j % step == 0 && j <= v.sectPerClus
      invariant InCluster(v, reader, first, chain, offset, length, old(dest[..]), dest[..], at0, size, ci, cluster,
                          step, j, at)
      decreases v.sectPerClus - j
    {
      StepFits(j, v.sectPerClus, step);
      at := ReadStep(v, drive, reader, sector, step, j, dest, at, first, chain, offset, length, old(dest[..]), at0,
                     size, ci,
                     cluster);
      j := j + step;
    }
  }

  lemma ClusterBegins(v: Volume, reader: Reader, first: nat, chain: seq<nat>, offset: nat, length: nat, d: seq<byte>,
                      at: nat, size: nat, ci: nat, cluster: nat, step: nat)
    requires v.Shaped() && Between(v, first, chain, offset, length, d, at, size, ci, 0, cluster)
    ensures InCluster(v, reader, first, chain, offset, length, d, d, at, size, ci, cluster, step, 0, at)
  {
    assert 0 * v.bytePerSect == 0;
  }

  /** Inside a cluster of phase 3, j sectors read. */
  ghost predicate InCluster(v: Volume, reader: Reader, first: nat, chain: seq<nat>, offset: nat, length: nat,
                            d0: seq<byte>, d: seq<byte>, at0: nat, size: nat, ci: nat, cluster: nat, step: nat,
                            j: nat, at: nat)
    requires v.Shaped()
  {
    && at == at0 + j * v.bytePerSect && j * v.bytePerSect <= size
    && Between(v, first, chain, offset, length, d, at, size - j * v.bytePerSect, ci, j, cluster)
    && WroteIf(j > 0, v, reader, d0, d, at0, at, SpillBehind(v, reader, step))
  }

  /** One transfer of phase 3. */
  method ReadStep(v: Volume, drive: Drive, reader: Reader, sector: nat, step: nat, j: nat, dest: array<byte>, at: nat,
                  ghost first: nat, ghost chain: seq<nat>, ghost offset: nat, ghost length: nat, ghost d0: seq<byte>,
                  ghost at0: nat, ghost size: nat, ghost ci: nat, ghost cluster: nat)
    returns (at': nat)
    requires v.Shaped() && reader.Valid() && step == drive.step == TransferSectors(reader,
                      v.sectPerClus) && j + step <= v.sectPerClus
    requires v.sectPerClus * v.bytePerSect <= size && length + reader.Spill(step) <= dest.Length
    requires sector == Wrap32(v.ClusterSector(cluster))
    requires InCluster(v, reader, first, chain, offset, length, d0, dest[..], at0, size, ci, cluster, step, j, at)
    requires drive.Ok()
    modifies dest, drive.Parts()
    ensures drive.Since(old(drive.asked))
    ensures InCluster(v, reader, first, chain, offset, length, d0, dest[..], at0, size, ci, cluster, step, j + step,
                      at')
  {
    RunFits(j, step, v.sectPerClus, v.bytePerSect);
    WrapPlus(v.ClusterSector(cluster), j);
    at' := ReadRun(v, drive, reader, Wrap32(sector + j), step, dest, at, size - j * v.bytePerSect, first, chain,
                   offset, length,
                   ci, j, cluster);
    WroteAgain(j > 0, v, reader, d0, old(dest[..]), dest[..], at0, at, at', SpillBehind(v, reader, step));
  }

  lemma RunFits(j: nat, step: nat, spc: nat, bps: nat)
    requires j + step <= spc
    ensures (j + step) * bps == j * bps + step * bps <= spc * bps
  {
    Distribute(j, step, bps);
    MulMonotone(j + step, spc, bps);
  }

  /** Steps that divide the sectors of a cluster never leave it. */
  lemma StepFits(j: nat, spc: nat, step: nat)
    requires step > 0 && j % step == 0 && spc % step == 0 && j < spc
    ensures j + step <= spc && (j + step) % step == 0
  {
    var a, b := j / step, spc / step;
    assert j == a * step && spc == b * step;
    if a >= b {
      MulMonotone(b, a, step);
    } else {
      MulMonotone(a + 1, b, step);
    }
    DivModUnique(j + step, step, a + 1, 0);
  }

  /** One more cluster of phase 3; `any` says whether there were others before. */
  method ReadNextCluster(v: Volume, drive: Drive, reader: Reader, step: nat, cluster: nat, at: nat, ghost size: nat,
                         dest: array<byte>,
                         ghost first: nat, ghost chain: seq<nat>, ghost offset: nat, ghost length: nat, ghost ci: nat,
                         ghost any: bool, ghost d0: seq<byte>, ghost at0: nat)
    returns (at': nat)
    requires v.Shaped() && reader.Valid() && step == drive.step == TransferSectors(reader, v.sectPerClus)
    requires v.sectPerClus * v.bytePerSect <= size && length + reader.Spill(step) <= dest.Length
    requires Between(v, first, chain, offset, length, dest[..], at, size, ci, 0, cluster)
    requires WroteIf(any, v, reader, d0, dest[..], at0, at, SpillBehind(v, reader, step))
    requires drive.Ok()
    modifies dest, drive.Parts()
    ensures drive.Since(old(drive.asked))
    ensures Between(v, first, chain, offset, length, dest[..], at', size - v.sectPerClus * v.bytePerSect, ci,
                    v.sectPerClus, cluster)
    ensures Wrote(v, reader, d0, dest[..], at0, at', SpillBehind(v, reader, step))
  {
    at' := ReadCluster(v, drive, reader, step, cluster, at, size, dest, first, chain, offset, length, ci);
    WroteAgain(any, v, reader, d0, old(dest[..]), dest[..], at0, at, at', SpillBehind(v, reader, step));
  }

  /** Phase 3: all whole clusters. */
  method ReadWholeClusters(v: Volume, drive: Drive, reader: Reader, first: nat, cluster0: nat, offset: nat,
                           length: nat, at0: nat,
                           size0: nat, buffer: array<byte>, dest: array<byte>, ghost chain: seq<nat>, ghost ci0: nat)
    returns (cluster: nat, at: nat, size: nat, ghost ci: nat)
    requires v.Valid() && reader.Valid() && buffer.Length >= v.bytePerSect && buffer != dest
    requires length + reader.Spill(TransferSectors(reader, v.sectPerClus)) <= dest.Length
    requires Between(v, first, chain, offset, length, dest[..], at0, size0, ci0, 0, cluster0)
    requires drive.Ok() && drive.step == TransferSectors(reader, v.sectPerClus)
    modifies buffer, dest, drive.Parts()
    ensures drive.Since(old(drive.asked))
    ensures size0 < v.sectPerClus * v.bytePerSect ==>
              cluster == cluster0 && size == size0 && buffer[..] == old(buffer[..])
    ensures size < v.sectPerClus * v.bytePerSect
    ensures Between(v, first, chain, offset, length, dest[..], at, size, ci,
                    if size == 0 < size0 then v.sectPerClus else 0, cluster)
    ensures size == size0 % (v.sectPerClus * v.bytePerSect)
    ensures if size0 < v.sectPerClus * v.bytePerSect then dest[..] == old(dest[..]) && at == at0
            else Wrote(v, reader, old(dest[..]), dest[..], at0, at,
                       SpillBehind(v, reader, TransferSectors(reader, v.sectPerClus)))
  {
    cluster, at, size, ci := cluster0, at0, size0, ci0;
    var step := TransferSectors(reader, v.sectPerClus);
    var bytesPerClus: nat := v.sectPerClus * v.bytePerSect;
    MulMonotone(1, v.sectPerClus, v.bytePerSect);
    ghost var k: nat := 0;
    while size >= bytesPerClus
      invariant drive.Since(old(drive.asked))
      invariant size0 == k * bytesPerClus + size && (k == 0 ==> size == size0)
      invariant k == 0 ==> cluster == cluster0 && buffer[..] == old(buffer[..])
      invariant k > 0 ==> 0 < size < size0 && bytesPerClus <= size0
      invariant Between(v, first, chain, offset, length, dest[..], at, size, ci, 0, cluster)
      invariant WroteIf(k > 0, v, reader, old(dest[..]), dest[..], at0, at, SpillBehind(v, reader, step))
    {
      at := ReadNextCluster(v, drive, reader, step, cluster, at, size, dest, first, chain, offset, length, ci, k > 0,
                            old(dest[..]), at0);
      size := size - bytesPerClus;
      Distribute(k, 1, bytesPerClus);
      k := k + 1;
      if size == 0 {
        break;
      }
      cluster, ci := FollowOrGuess(v, drive, cluster, size, buffer, first, chain, offset, length, at, ci);
    }
    assert size < bytesPerClus;
    DivModUnique(size0, bytesPerClus, k, size);
  }

  /** Between two clusters of phase 3; the guess after an end mark is never made inside a file. */
  method FollowOrGuess(v: Volume, drive: Drive, cluster: nat, size: nat, buffer: array<byte>, ghost first: nat,
                       ghost chain: seq<nat>,
                       ghost offset: nat, ghost length: nat, ghost at: nat, ghost ci: nat)
    returns (cluster': nat, ghost ci': nat)
    requires v.Valid() && buffer.Length >= v.bytePerSect && 0 < size && at + size == length
    requires Served(v, first, chain, offset, length) ==> Here(v, chain, offset, at, ci, v.sectPerClus, cluster)
    requires drive.Ok()
    modifies buffer, drive.Parts()
    ensures drive.Since(old(drive.asked))
    ensures Served(v, first, chain, offset, length) ==> Here(v, chain, offset, at, ci', 0, cluster')
  {
    cluster' := Follow(v, drive, cluster, buffer, first, chain, ci);
    ci' := ci + 1;
    PosStep(v, ci, 0, 0);
    if Served(v, first, chain, offset, length) {
      MoreToRead(v, first, chain, offset, length, at, ci', 0);
    }
    if size < v.bytePerSect * v.sectPerClus && cluster' >= 0x0FFF_F000 {
      cluster' := cluster + 1;
    }
  }

  /** Phase 4: the sectors of the last cluster, and the part of a sector at the end. */
  method ReadTail(v: Volume, drive: Drive, cluster: nat, at0: nat, size0: nat, buffer: array<byte>, dest: array<byte>,
                  ghost first: nat, ghost chain: seq<nat>, ghost offset: nat, ghost length: nat, ghost ci: nat)
    requires v.Shaped() && buffer.Length >= v.bytePerSect && buffer != dest && length <= dest.Length
    requires size0 < v.sectPerClus * v.bytePerSect
    requires Between(v, first, chain, offset, length, dest[..], at0, size0, ci, 0, cluster)
    requires drive.Ok()
    modifies buffer, dest, drive.Parts()
    ensures drive.Since(old(drive.asked))
    ensures size0 < v.bytePerSect ==>
              dest[at0..length]
              == v.Scratch(Wrap32(v.ClusterSector(cluster)), old(buffer[BLOCK..v.bytePerSect]))[..size0]
    ensures Ended(v, first, chain, offset, length, old(dest[..]), dest[..], at0)
  {
    var at: nat, size: nat := at0, size0;
    var sector := Wrap32(v.FirstSector(cluster));
    ghost var off: nat := 0;
    SinglesBegin(v, first, chain, offset, length, dest[..], at, size, ci, off, cluster);
    while size >= v.bytePerSect
      invariant drive.Since(old(drive.asked))
      invariant size0 == off * v.bytePerSect + size
      invariant size0 < v.bytePerSect ==> off == 0 && at == at0 && size == size0 && buffer[..] == old(buffer[..])
      invariant Singles(v, first, chain, offset, length, old(dest[..]), dest[..], at0, at, size, ci, off, cluster,
                        sector)
    {
      SectorsLeft(off, 1, v.sectPerClus, v.bytePerSect, size0, size);
      sector, at, size := ReadSingle(v, drive, sector, dest, at, size, first, chain, offset, length, old(dest[..]),
                                     at0, ci, off,
                                     cluster);
      Distribute(off, 1, v.bytePerSect);
      off := off + 1;
    }
    if size == 0 {
      NothingLeft(v, first, chain, offset, length, old(dest[..]), dest[..], at0, at, ci, off, cluster, sector);
    } else {
      SectorsLeft(off, 0, v.sectPerClus, v.bytePerSect, size0, size);
      ReadLast(v, drive, sector, buffer, dest, at, size, first, chain, offset, length, old(dest[..]), at0, ci, off,
               cluster);
    }
  }

  lemma NothingLeft(v: Volume, first: nat, chain: seq<nat>, offset: nat, length: nat, d0: seq<byte>, d: seq<byte>,
                    at0: nat, at: nat, ci: nat, off: nat, cluster: nat, sector: nat)
    requires v.Shaped() && length <= |d|
    requires Singles(v, first, chain, offset, length, d0, d, at0, at, 0, ci, off, cluster, sector)
    ensures Ended(v, first, chain, offset, length, d0, d, at0)
  {
    LeavesLast(v, Sd, d0, d, d, at0, at, length);
  }

  lemma SectorsLeft(off: nat, n: nat, spc: nat, bps: nat, size0: nat, size: nat)
    requires size0 < spc * bps && size0 == off * bps + size && n * bps <= size && size > 0
    ensures off < spc
  {
    if off >= spc {
      MulMonotone(spc, off, bps);
    }
  }

  /** Bytes from `offset` to the next cluster boundary. */
  function Gap(offset: nat, bpc: nat): nat
    requires bpc > 0
  {
    (bpc - offset % bpc) % bpc
  }

  lemma GapIs(offset: nat, bpc: nat, ci: nat, at: nat)
    requires bpc > 0 && offset + at == ci * bpc && at < bpc
    ensures Gap(offset, bpc) == at
  {
    if at == 0 {
      DivModUnique(offset, bpc, ci, 0);
      DivModUnique(bpc, bpc, 1, 0);
    } else {
      assert ci > 0;
      Distribute(ci - 1, 1, bpc);
      DivModUnique(offset, bpc, ci - 1, bpc - at);
      DivModUnique(at, bpc, 0, at);
    }
  }

  /** Bytes of the status wrapper that stay behind the data: none unless whole clusters
      were read by multi-sector EHCI transfers and less than 13 bytes followed them. */
  function Overrun(v: Volume, reader: Reader, offset: nat, length: nat): nat
    requires v.sectPerClus * v.bytePerSect > 0 && v.sectPerClus > 0
  {
    var bpc := v.sectPerClus * v.bytePerSect;
    var gap := Gap(offset, bpc);
    var spill := SpillBehind(v, reader, TransferSectors(reader, v.sectPerClus));
    if length < gap + bpc || spill <= (length - gap) % bpc then 0 else spill - (length - gap) % bpc
  }

  /** Behind the data only the end of the status wrapper has been written. */
  ghost predicate Beyond(reader: Reader, d: seq<byte>, d': seq<byte>, length: nat, overrun: nat) {
    && |d| == |d'| && length + overrun <= |d'|
    && (overrun > 0 ==> reader.Usb2? && reader.Valid() && overrun <= CSW_SIZE
                        && d'[length..length + overrun] == reader.csw[CSW_SIZE - overrun..])
    && forall p :: length + overrun <= p < |d'| ==> d'[p] == d[p]
  }

  /** Exactly when the destination behind the range stays as it was. */
  lemma NoOverrunIff(v: Volume, reader: Reader, offset: nat, length: nat)
    requires v.Shaped()
    ensures v.sectPerClus * v.bytePerSect > 0
    ensures var bpc := v.sectPerClus * v.bytePerSect;
            var behind := length - Gap(offset, bpc);
            Overrun(v, reader, offset, length) == 0
            <==> !v.Plain() || !reader.Usb2? || v.sectPerClus % 8 != 0 || behind < bpc || behind % bpc >= CSW_SIZE
  {
    BpcPositive(v);
    SpillCases(v, reader);
  }

  lemma SpillCases(v: Volume, reader: Reader)
    requires v.sectPerClus > 0
    ensures SpillBehind(v, reader, TransferSectors(reader, v.sectPerClus))
            == if v.Plain() && reader.Usb2? && v.sectPerClus % 8 == 0 then CSW_SIZE else 0
  {
  }

  /** One whole cluster of eight 512-byte sectors over EHCI: all 13 bytes land behind it. */
  lemma OverrunExample(v: Volume, csw: seq<byte>)
    requires v.Shaped() && v.bytePerSect == 512 && v.sectPerClus == 8
    ensures v.sectPerClus * v.bytePerSect > 0 && Overrun(v, Usb2(csw), 0, 4096) == CSW_SIZE
  {
    assert Gap(0, 4096) == 0;
  }

  /** The sum `remain + length` is computed in 32 bits. */
  predicate NoWrap(v: Volume, offset: nat, length: nat)
    requires v.bytePerSect > 0
  {
    offset % v.bytePerSect == 0 || offset % v.bytePerSect + length < TWO_32
  }

  /** No range that ends below 4 GiB wraps. */
  lemma RangesOfFilesDoNotWrap(v: Volume, offset: nat, length: nat)
    requires v.bytePerSect > 0 && offset + length < TWO_32
    ensures NoWrap(v, offset, length)
  {
    MulMonotone(0, offset / v.bytePerSect, v.bytePerSect);
  }

  /** The image loader asks for the data behind a 64-byte header, `sign` bytes of signature
      included, after a signed test of the size field. A size of 0xFFFFFFC0 - sign passes any
      limit, and the length asked for wraps the sum: nothing is copied, and whatever file
      holds the header, a destination whose first byte differs is not filled. */
  lemma WrapExample(v: Volume, chain: seq<nat>, d: seq<byte>, sign: nat)
    requires v.Shaped() && v.Plain() && d != [] && !IsFileByte(v, chain, 64, d[0]) && sign <= 64
    ensures var size := 0xFFFF_FFC0 - sign;
            var length := Wrap32(AsInt(size) + sign);
            && AsInt(size) + 64 <= 0 && length == 0xFFFF_FFC0
            && !NoWrap(v, 64, length) && !Copied(v, chain, 64, d, length)
  {
    assert !IsFileByte(v, chain, 64 + 0, d[0]);
  }

  /** Some byte of the range is what it was before. */
  ghost predicate KeepsAByte(d: seq<byte>, d': seq<byte>, length: nat) {
    exists h: nat :: h < length && h < |d| && h < |d'| && d'[h] == d[h]
  }

  lemma LeavesKeepsAByte(v: Volume, d0: seq<byte>, d: seq<byte>, d': seq<byte>, at: nat, length: nat)
    requires !v.Plain() && Leaves(v, d, d', at, length) && at + v.bytePerSect <= length
    requires |d0| == |d| && forall p :: at <= p < |d| ==> d[p] == d0[p]
    ensures KeepsAByte(d0, d', length)
  {
    var end: nat :| Finished(v, d, d', at, end, length);
    var h: nat := end - 1;
    assert d'[h] == d[h] == d0[h];
  }

  /** The range contains a whole sector of the volume. */
  predicate WholeSector(v: Volume, offset: nat, length: nat)
    requires v.bytePerSect > 0
  {
    Gap(offset, v.bytePerSect) + v.bytePerSect <= length
  }

  /** A kept byte means a range not delivered, when the old destination had every byte wrong. */
  lemma KeptIsNotCopied(v: Volume, chain: seq<nat>, offset: nat, length: nat, d: seq<byte>, d': seq<byte>)
    requires v.Shaped() && KeepsAByte(d, d', length)
    requires forall p :: 0 <= p < length && p < |d| ==> !IsFileByte(v, chain, offset + p, d[p])
    ensures !Copied(v, chain, offset, d', length)
  {
    var h: nat :| h < length && h < |d| && h < |d'| && d'[h] == d[h];
    assert !IsFileByte(v, chain, offset + h, d'[h]);
  }

  /** 1024 bytes from the start of a file with 1024-byte sectors are such a range. */
  lemma WideExample(v: Volume)
    requires v.Shaped() && v.bytePerSect == 1024
    ensures !v.Plain() && WholeSector(v, 0, 1024) && NoWrap(v, 0, 1024)
  {
    assert Gap(0, 1024) == 0;
  }

  lemma BpcPositive(v: Volume)
    requires v.Shaped()
    ensures v.sectPerClus * v.bytePerSect > 0
    ensures forall ci: nat :: Pos(v, ci, 0) == ci * (v.sectPerClus * v.bytePerSect)
  {
    MulMonotone(1, v.sectPerClus, v.bytePerSect);
    forall ci: nat ensures Pos(v, ci, 0) == ci * (v.sectPerClus * v.bytePerSect) {
      MulAssoc(ci, v.sectPerClus, v.bytePerSect);
    }
  }

  /** A range that ends in the cluster it starts inside reads no whole cluster. */
  lemma NoOverrunInside(v: Volume, reader: Reader, offset: nat, length: nat, ci: nat)
    requires v.Shaped() && Pos(v, ci, 0) < offset && offset + length <= Pos(v, ci + 1, 0) && length > 0
    ensures v.sectPerClus * v.bytePerSect > 0 && Overrun(v, reader, offset, length) == 0
  {
    BpcPositive(v);
    PosStep(v, ci, 0, 0);
    GapIs(offset, v.sectPerClus * v.bytePerSect, ci + 1, Pos(v, ci + 1, 0) - offset);
  }

  lemma BeyondNothing(reader: Reader, d: seq<byte>, d': seq<byte>, length: nat)
    requires SpilledAt(Sd, d, d', length, 0)
    ensures Beyond(reader, d, d', length, 0)
  {
  }

  lemma BeyondFromSpill(reader: Reader, d: seq<byte>, d': seq<byte>, d'': seq<byte>, at: nat, length: nat, spill: nat)
    requires reader.Valid() && (spill == 0 || spill == CSW_SIZE) && at <= length && length + spill <= |d|
    requires SpilledAt(reader, d, d', at, spill) && SpilledAt(Sd, d', d'', length, 0)
    ensures Beyond(reader, d, d'', length, if spill <= length - at then 0 else spill - (length - at))
  {
    if spill > length - at {
      var o := spill - (length - at);
      forall p | length <= p < length + o ensures d''[p] == reader.csw[p - at] {
        assert d'[at..at + spill][p - at] == d'[p];
      }
      assert d''[length..length + o] == reader.csw[CSW_SIZE - o..];
    }
  }

  /** From the start of a cluster on: phases 3 and 4. */
  method ReadFromCluster(v: Volume, drive: Drive, reader: Reader, first: nat, cluster0: nat, offset: nat, length: nat,
                         at0: nat,
                         size0: nat, buffer: array<byte>, dest: array<byte>, ghost chain: seq<nat>, ghost ci0: nat)
    requires v.Valid() && reader.Valid() && buffer.Length >= v.bytePerSect && buffer != dest
    requires length + reader.Spill(2) <= dest.Length
    requires Between(v, first, chain, offset, length, dest[..], at0, size0, ci0, 0, cluster0)
    requires drive.Ok() && drive.step == TransferSectors(reader, v.sectPerClus)
    modifies buffer, dest, drive.Parts()
    ensures drive.Since(old(drive.asked))
    ensures size0 < v.bytePerSect ==>
              dest[at0..length]
              == v.Scratch(Wrap32(v.ClusterSector(cluster0)), old(buffer[BLOCK..v.bytePerSect]))[..size0]
    ensures Served(v, first, chain, offset, length) ==> Copied(v, chain, offset, dest[..], length)
    ensures Leaves(v, old(dest[..]), dest[..], at0, length)
    ensures v.sectPerClus * v.bytePerSect > 0
    ensures var spill := SpillBehind(v, reader, TransferSectors(reader, v.sectPerClus));
            var tail := size0 % (v.sectPerClus * v.bytePerSect);
            Beyond(reader, old(dest[..]), dest[..], length,
                   if size0 < v.sectPerClus * v.bytePerSect || spill <= tail then 0 else spill - tail)
  {
    BpcPositive(v);
    MulMonotone(1, v.sectPerClus, v.bytePerSect);
    var cluster, at, size;
    ghost var ci;
    cluster, at, size, ci := ReadWholeClusters(v, drive, reader, first, cluster0, offset, length, at0, size0, buffer,
                                               dest, chain, ci0);
    ghost var middle := dest[..];
    if size > 0 {
      ReadTail(v, drive, cluster, at, size, buffer, dest, first, chain, offset, length, ci);
    } else {
      assert Finished(v, middle, dest[..], at, at, length);
    }
    if size0 < v.sectPerClus * v.bytePerSect {
      DivModUnique(size0, v.sectPerClus * v.bytePerSect, 0, size0);
      BeyondNothing(reader, old(dest[..]), dest[..], length);
    } else {
      var spill := SpillBehind(v, reader, TransferSectors(reader, v.sectPerClus));
      LeavesAfter(v, reader, old(dest[..]), middle, dest[..], at0, at, length, spill);
      BeyondFromSpill(reader, old(dest[..]), middle, dest[..], at, length, spill);
    }
  }

  lemma BeyondLater(reader: Reader, d: seq<byte>, d': seq<byte>, d'': seq<byte>, at: nat, length: nat, o: nat)
    requires SpilledAt(Sd, d, d', at, 0) && Beyond(reader, d', d'', length, o) && at <= length
    ensures Beyond(reader, d, d'', length, o)
  {
  }

  /** A head that ends in its sector also ends in its cluster, and starts after its start. */
  lemma HeadInside(v: Volume, ci: nat, off: nat, remain: nat, offset: nat, length: nat)
    requires off < v.sectPerClus && offset == Pos(v, ci, off) + remain && 0 < remain && remain + length <= v.bytePerSect
    ensures Pos(v, ci, 0) < offset && offset + length <= Pos(v, ci + 1, 0)
  {
    PosOrder(v, ci, off);
    PosOrder(v, ci, off + 1);
    PosStep(v, ci, off, 1);
  }

  lemma StartsAfter(v: Volume, ci: nat, off: nat, remain: nat, offset: nat)
    requires v.Shaped() && off < v.sectPerClus && offset == Pos(v, ci, off) + remain && (remain > 0 || off > 0)
    ensures Pos(v, ci, 0) < offset
  {
    PosOrder(v, ci, off);
    PosStep(v, ci, 0, off);
    MulMonotone(if off > 0 then 1 else 0, off, v.bytePerSect);
  }

  /** Phases 1 and 2 deliver exactly the gap before the first whole cluster. */
  lemma StartOfWholeClusters(v: Volume, ci0: nat, ci: nat, offset: nat, at: nat)
    requires v.Shaped() && Pos(v, ci, 0) == offset + at
    requires at == 0 || (ci == ci0 + 1 && Pos(v, ci0, 0) < offset)
    ensures v.sectPerClus * v.bytePerSect > 0 && Gap(offset, v.sectPerClus * v.bytePerSect) == at
  {
    BpcPositive(v);
    PosStep(v, ci0, 0, 0);
    GapIs(offset, v.sectPerClus * v.bytePerSect, ci, at);
  }

  lemma OverrunIs(v: Volume, reader: Reader, offset: nat, length: nat, at: nat, size: nat)
    requires v.sectPerClus > 0 && v.sectPerClus * v.bytePerSect > 0
    requires Gap(offset, v.sectPerClus * v.bytePerSect) == at && at + size == length
    ensures var spill := SpillBehind(v, reader, TransferSectors(reader, v.sectPerClus));
            var tail := size % (v.sectPerClus * v.bytePerSect);
            Overrun(v, reader, offset, length)
            == if size < v.sectPerClus * v.bytePerSect || spill <= tail then 0 else spill - tail
  {
  }

  lemma StartsInside(v: Volume, first: nat, chain: seq<nat>, offset: nat, length: nat)
    requires v.Shaped() && length > 0
    ensures var sect := offset / v.bytePerSect;
            && sect >= 0 && sect / v.sectPerClus >= 0
            && offset == Pos(v, sect / v.sectPerClus, sect % v.sectPerClus) + offset % v.bytePerSect
            && (Served(v, first, chain, offset, length) ==> sect / v.sectPerClus < |chain|)
  {
    DivNonNegative(offset, v.bytePerSect);
    var sect := offset / v.bytePerSect;
    DivNonNegative(sect, v.sectPerClus);
    assert sect == sect / v.sectPerClus * v.sectPerClus + sect % v.sectPerClus;
    assert offset == sect * v.bytePerSect + offset % v.bytePerSect;
    if Served(v, first, chain, offset, length) {
      PosInside(v, sect / v.sectPerClus, sect % v.sectPerClus, |chain|);
    }
  }

  /** Where phase 2 may begin: at the start of the range's first cluster, inside it, or at
      the start of the next one. */
  ghost predicate Begins(v: Volume, offset: nat, c0: nat, ci: nat, off: nat, at: nat) {
    || (ci == c0 && off == 0 && at == 0)
    || (Pos(v, c0, 0) < offset && ci == if off > 0 then c0 else c0 + 1)
  }

  /** Phases 2 to 4. */
  method ReadBehindHead(v: Volume, drive: Drive, reader: Reader, first: nat, cluster0: nat, off: nat, offset: nat,
                        length: nat, at0: nat,
                        size0: nat, buffer: array<byte>, dest: array<byte>, ghost chain: seq<nat>, ghost ci0: nat,
                        ghost c0: nat)
    requires v.Valid() && reader.Valid() && buffer.Length >= v.bytePerSect && buffer != dest
    requires off < v.sectPerClus && size0 > 0 && length + reader.Spill(2) <= dest.Length
    requires Between(v, first, chain, offset, length, dest[..], at0, size0, ci0, off, cluster0)
    requires Begins(v, offset, c0, ci0, off, at0)
    requires drive.Ok() && drive.step == TransferSectors(reader, v.sectPerClus)
    modifies buffer, dest, drive.Parts()
    ensures drive.Since(old(drive.asked))
    ensures size0 < v.bytePerSect ==>
              dest[at0..length]
              == v.Scratch(Wrap32(v.ClusterSector(cluster0) + off), old(buffer[BLOCK..v.bytePerSect]))[..size0]
    ensures Leaves(v, old(dest[..]), dest[..], at0, length)
    ensures Served(v, first, chain, offset, length) ==>
              && Copied(v, chain, offset, dest[..], length)
              && v.sectPerClus * v.bytePerSect > 0
              && Beyond(reader, old(dest[..]), dest[..], length, Overrun(v, reader, offset, length))
  {
    var done, cluster, at, size;
    ghost var ci;
    done, cluster, at, size, ci := ReadToClusterEnd(v, drive, first, cluster0, off, offset, length, at0, size0,
                                                    buffer, dest, chain, ci0);
    if done {
      if Served(v, first, chain, offset, length) {
        NoOverrunInside(v, reader, offset, length, c0);
        BeyondNothing(reader, old(dest[..]), dest[..], length);
      }
      return;
    }
    ghost var d2 := dest[..];
    ReadFromCluster(v, drive, reader, first, cluster, offset, length, at, size, buffer, dest, chain, ci);
    LeavesAfter(v, Sd, old(dest[..]), d2, dest[..], at0, at, length, 0);
    if Served(v, first, chain, offset, length) {
      StartOfWholeClusters(v, c0, ci, offset, at);
      OverrunIs(v, reader, offset, length, at, size);
      BeyondLater(reader, old(dest[..]), d2, dest[..], at, length, Overrun(v, reader, offset, length));
    }
  }

  /** Byte k of the file as the loader computes its place, at any sector size: the sector is
      read as one block, and what does not fit the scratch buffer comes from behind it. */
  ghost function LoaderByte(v: Volume, first: nat, behind: seq<byte>, k: nat): byte
    requires v.Shaped() && BLOCK + |behind| == v.bytePerSect
  {
    DivNonNegative(k, v.bytePerSect);
    v.Scratch(SectorFor(v, first, behind, k / v.bytePerSect), behind)[k % v.bytePerSect]
  }

  /** Byte x of sector `off` of the ci-th cluster the loader visits. */
  lemma {:induction false} LoaderByteAt(v: Volume, first: nat, behind: seq<byte>, ci: nat, off: nat, x: nat)
    requires v.Shaped() && BLOCK + |behind| == v.bytePerSect && off < v.sectPerClus && x < v.bytePerSect
    ensures LoaderByte(v, first, behind, Pos(v, ci, off) + x)
            == v.Scratch(Wrap32(v.ClusterSector(Visited(v, first, behind, ci)) + off), behind)[x]
  {
    PlaceIndex(ci, off, x, v.sectPerClus, v.bytePerSect);
  }

  /** d[a..b) is what the scratch buffer holds from `skip` on after a read of `block`. */
  ghost predicate FromScratch(v: Volume, behind: seq<byte>, block: nat, skip: nat, d: seq<byte>, a: nat, b: nat)
    requires v.Shaped() && BLOCK + |behind| == v.bytePerSect
  {
    && a <= b <= |d| && skip + (b - a) <= v.bytePerSect
    && d[a..b] == v.Scratch(block, behind)[skip..skip + (b - a)]
  }

  lemma {:induction false} ScratchBytes(v: Volume, first: nat, behind: seq<byte>, ci: nat, off: nat, skip: nat,
                                        d: seq<byte>, a: nat, b: nat, k0: nat)
    requires v.Shaped() && BLOCK + |behind| == v.bytePerSect && off < v.sectPerClus && k0 + a == Pos(v, ci, off) + skip
    requires FromScratch(v, behind, Wrap32(v.ClusterSector(Visited(v, first, behind, ci)) + off), skip, d, a, b)
    ensures forall p :: a <= p < b ==> d[p] == LoaderByte(v, first, behind, k0 + p)
  {
    forall p | a <= p < b ensures d[p] == LoaderByte(v, first, behind, k0 + p) {
      LoaderByteAt(v, first, behind, ci, off, skip + (p - a));
      assert k0 + p == Pos(v, ci, off) + (skip + (p - a));
      assert d[p] == d[a..b][p - a];
    }
  }

  /** d[0..length) holds the range as the loader computes its places. */
  ghost predicate Loaded(v: Volume, first: nat, behind: seq<byte>, offset: nat, d: seq<byte>, length: nat)
    requires v.Shaped() && BLOCK + |behind| == v.bytePerSect
  {
    length <= |d| && forall p :: 0 <= p < length ==> d[p] == LoaderByte(v, first, behind, offset + p)
  }

  /** The length of the head, if there is one. */
  function HeadPart(v: Volume, remain: nat, length: nat): nat
    requires remain < v.bytePerSect
  {
    if remain == 0 then 0 else HeadLength(v, remain, length)
  }

  lemma ShortRange(v: Volume, offset: nat, length: nat)
    requires v.bytePerSect > 0 && !WholeSector(v, offset, length)
    ensures length - HeadPart(v, offset % v.bytePerSect, length) < v.bytePerSect
  {
    GapOfRemain(offset, v.bytePerSect);
  }

  /** A range that ends in its first sector. */
  lemma {:induction false} HeadLoaded(v: Volume, first: nat, behind: seq<byte>, ci: nat, off: nat, cluster: nat,
                                      remain: nat, offset: nat, d: seq<byte>, n: nat)
    requires v.Shaped() && BLOCK + |behind| == v.bytePerSect && off < v.sectPerClus && remain + n <= v.bytePerSect
    requires cluster == Visited(v, first, behind, ci) && offset == Pos(v, ci, off) + remain && n <= |d|
    requires d[..n] == v.Scratch(Wrap32(v.ClusterSector(cluster) + off), behind)[remain..remain + n]
    ensures Loaded(v, first, behind, offset, d, n)
  {
    assert d[0..n] == d[..n];
    ScratchBytes(v, first, behind, ci, off, remain, d, 0, n, offset);
  }

  /** A loaded head, and the rest from the start of the next sector. */
  lemma {:induction false} RestLoaded(v: Volume, first: nat, behind: seq<byte>, ci: nat, off: nat, cluster: nat,
                                      offset: nat, d: seq<byte>, d': seq<byte>, n: nat, length: nat)
    requires v.Shaped() && BLOCK + |behind| == v.bytePerSect && off < v.sectPerClus
    requires n <= length < n + v.bytePerSect && length <= |d'| && n <= |d| && d'[..n] == d[..n]
    requires Loaded(v, first, behind, offset, d, n)
    requires cluster == Visited(v, first, behind, ci) && offset + n == Pos(v, ci, off)
    requires d'[n..length] == v.Scratch(Wrap32(v.ClusterSector(cluster) + off), behind)[..length - n]
    ensures Loaded(v, first, behind, offset, d', length)
  {
    ScratchBytes(v, first, behind, ci, off, 0, d', n, length, offset);
    forall p | 0 <= p < length ensures d'[p] == LoaderByte(v, first, behind, offset + p) {
      if p < n {
        assert d'[p] == d'[..n][p] == d[p];
      }
    }
  }

  lemma LeavesPrefix(v: Volume, d: seq<byte>, d': seq<byte>, at: nat, length: nat)
    requires Leaves(v, d, d', at, length)
    ensures at <= |d'| == |d| && d'[..at] == d[..at]
  {
  }

  /** The sum of the head's place and the length fits 32 bits. */
  predicate HeadFits(remain: nat, length: nat) {
    remain == 0 || remain + length < TWO_32
  }

  /** Phase 1, where there is a head; the loader then stands at the start of a sector. */
  method ReadFirst(v: Volume, drive: Drive, reader: Reader, first: nat, cluster0: nat, off0: nat, remain: nat,
                   offset: nat,
                   length: nat, buffer: array<byte>, dest: array<byte>, ghost chain: seq<nat>, ghost ci0: nat)
    returns (cluster: nat, off: nat, at: nat, size: nat, ghost ci: nat)
    requires v.Valid() && reader.Valid() && buffer.Length >= v.bytePerSect && buffer != dest
    requires 0 < length < TWO_32 && (HeadFits(remain, length) ==> length <= dest.Length)
    requires off0 < v.sectPerClus && remain < v.bytePerSect && offset == Pos(v, ci0, off0) + remain
    requires Known(v, first, chain, ci0, cluster0)
    requires drive.Ok()
    modifies buffer, dest, drive.Parts()
    ensures drive.Since(old(drive.asked)) && BLOCK <= v.bytePerSect
    ensures buffer[BLOCK..v.bytePerSect] == old(buffer[BLOCK..v.bytePerSect])
    ensures !HeadFits(remain, length) ==> size == 0 && dest[..] == old(dest[..])
    ensures HeadFits(remain, length) ==>
              var n := HeadPart(v, remain, length);
              && size == length - n && SpilledAt(Sd, old(dest[..]), dest[..], n, 0)
              && (Served(v, first, chain, offset, length) ==> Copied(v, chain, offset, dest[..], n))
              && (cluster0 == Visited(v, first, buffer[BLOCK..v.bytePerSect], ci0) ==>
                    Loaded(v, first, buffer[BLOCK..v.bytePerSect], offset, dest[..], n))
              && (size > 0 ==> off < v.sectPerClus && at == n && Begins(v, offset, ci0, ci, off, at)
                               && Between(v, first, chain, offset, length, dest[..], at, size, ci, off, cluster)
                               && offset + n == Pos(v, ci, off)
                               && (cluster0 == Visited(v, first, buffer[BLOCK..v.bytePerSect], ci0) ==>
                                     cluster == Visited(v, first, buffer[BLOCK..v.bytePerSect], ci)))
  {
    cluster, off, at, size, ci := cluster0, off0, 0, length, ci0;
    if remain > 0 || off0 > 0 {
      StartsAfter(v, ci0, off0, remain, offset);
    }
    if remain != 0 {
      ghost var behind := buffer[BLOCK..v.bytePerSect];
      cluster, off, at, size, ci := ReadHead(v, drive, first, cluster, off, remain, offset, length, buffer, dest,
                                             chain, ci);
      if HeadFits(remain, length) && cluster0 == Visited(v, first, behind, ci0) {
        HeadLoaded(v, first, behind, ci0, off0, cluster0, remain, offset, dest[..], HeadLength(v, remain, length));
      }
    } else {
      KnownHere(v, first, chain, offset, length, dest[..], ci0, off0, cluster0);
    }
  }

  /** All phases, once the walk has found the first cluster. */
  method ReadFrom(v: Volume, drive: Drive, reader: Reader, first: nat, cluster0: nat, off0: nat, remain: nat,
                  offset: nat,
                  length: nat, buffer: array<byte>, dest: array<byte>, ghost chain: seq<nat>, ghost ci0: nat)
    requires v.Valid() && reader.Valid() && buffer.Length >= v.bytePerSect && buffer != dest
    requires 0 < length < TWO_32 && (HeadFits(remain, length) ==> length + reader.Spill(2) <= dest.Length)
    requires off0 < v.sectPerClus && remain < v.bytePerSect && offset == Pos(v, ci0, off0) + remain
    requires Known(v, first, chain, ci0, cluster0)
    requires drive.Ok() && drive.step == TransferSectors(reader, v.sectPerClus)
    modifies buffer, dest, drive.Parts()
    ensures drive.Since(old(drive.asked))
    ensures !HeadFits(remain, length) ==> dest[..] == old(dest[..])
    ensures HeadFits(remain, length) && Served(v, first, chain, offset, length) ==>
              && Copied(v, chain, offset, dest[..], length)
              && v.sectPerClus * v.bytePerSect > 0
              && Beyond(reader, old(dest[..]), dest[..], length, Overrun(v, reader, offset, length))
    ensures HeadFits(remain, length) && !v.Plain() && length >= v.bytePerSect + HeadPart(v, remain, length) ==>
              KeepsAByte(old(dest[..]), dest[..], length)
    ensures HeadFits(remain, length) && length < v.bytePerSect + HeadPart(v, remain, length)
            && cluster0 == Visited(v, first, old(buffer[BLOCK..v.bytePerSect]), ci0) ==>
              Loaded(v, first, old(buffer[BLOCK..v.bytePerSect]), offset, dest[..], length)
  {
    ghost var behind := buffer[BLOCK..v.bytePerSect];
    var cluster, off, at, size;
    ghost var ci;
    cluster, off, at, size, ci := ReadFirst(v, drive, reader, first, cluster0, off0, remain, offset, length, buffer,
                                            dest,
                                            chain, ci0);
    if size == 0 {
      if Served(v, first, chain, offset, length) && HeadFits(remain, length) {
        HeadInside(v, ci0, off0, remain, offset, length);
        NoOverrunInside(v, reader, offset, length, ci0);
        BeyondNothing(reader, old(dest[..]), dest[..], length);
      }
      return;
    }
    ghost var d1 := dest[..];
    ReadBehindHead(v, drive, reader, first, cluster, off, offset, length, at, size, buffer, dest, chain, ci, ci0);
    LeavesPrefix(v, d1, dest[..], at, length);
    if Served(v, first, chain, offset, length) {
      BeyondLater(reader, old(dest[..]), d1, dest[..], at, length, Overrun(v, reader, offset, length));
    }
    if size >= v.bytePerSect {
      if !v.Plain() {
        LeavesKeepsAByte(v, old(dest[..]), d1, dest[..], at, length);
      }
    } else if cluster0 == Visited(v, first, behind, ci0) {
      RestLoaded(v, first, behind, ci, off, cluster, offset, d1, dest[..], at, length);
    }
  }

  lemma KnownHere(v: Volume, first: nat, chain: seq<nat>, offset: nat, length: nat, d: seq<byte>, ci: nat, off: nat,
                  cluster: nat)
    requires v.Shaped() && length > 0 && offset == Pos(v, ci, off) && Known(v, first, chain, ci, cluster)
    ensures Between(v, first, chain, offset, length, d, 0, length, ci, off, cluster)
  {
    if Served(v, first, chain, offset, length) {
      PosInside(v, ci, off, |chain|);
    }
  }

  /** `fat_read_file`. `chain` is known to the proof only; `buffer` is the 512-byte scratch
      buffer and the memory behind it; `drive` records every read. Main result: with 512-byte
      sectors a range inside the file is delivered exactly, unless the head length wraps, and
      then nothing is. With wider sectors no range that contains a whole sector is delivered,
      and any other range holds the blocks the loader takes for its sectors. */
  method FatReadFile(v: Volume, drive: Drive, reader: Reader, first: nat, buffer: array<byte>, offset: nat, length: nat,
                     dest: array<byte>, ghost chain: seq<nat>)
    returns (ret: Status)
    requires v.Valid() && reader.Valid() && buffer.Length >= v.bytePerSect && buffer != dest
    requires offset < TWO_32 && length < TWO_32
    requires NoWrap(v, offset, length) ==> length + reader.Spill(2) <= dest.Length
    requires drive.Ok() && drive.step == TransferSectors(reader, v.sectPerClus)
    modifies buffer, dest, drive.Parts()
    ensures drive.Since(old(drive.asked))
    ensures ret.Pass? && NoWrap(v, offset, length) && !WholeSector(v, offset, length) ==>
              Loaded(v, first, old(buffer[BLOCK..v.bytePerSect]), offset, dest[..], length)
    ensures ret.Pass? <==> length > 0 && Clusters(v, offset) >= 0
                           && PassesBy(v, first, old(buffer[BLOCK..v.bytePerSect]), Clusters(v, offset))
    ensures length > 0 && v.Plain() && InFile(v, first, chain, offset, length) && NoWrap(v, offset, length) ==>
              ret.Pass? && Copied(v, chain, offset, dest[..], length)
    ensures length > 0 && v.Plain() && InFile(v, first, chain, offset, length) && NoWrap(v, offset, length) ==>
              v.sectPerClus * v.bytePerSect > 0
              && Beyond(reader, old(dest[..]), dest[..], length, Overrun(v, reader, offset, length))
    ensures !NoWrap(v, offset, length) || ret.Fail? ==> dest[..] == old(dest[..])
    ensures !v.Plain() && WholeSector(v, offset, length) && NoWrap(v, offset, length) ==>
              ret.Fail? || KeepsAByte(old(dest[..]), dest[..], length)
    ensures length > 0 && v.Plain() && v.Chain(first, chain) && offset / v.bytePerSect / v.sectPerClus < |chain| ==>
              ret.Pass?
    ensures length > 0 && v.Plain() && v.Ends(first, chain) ==>
              (ret.Pass? <==> offset / v.bytePerSect / v.sectPerClus <= |chain|)
  {
    if length == 0 {
      return Fail;
    }
    MaskSector(v, offset);
    StartsInside(v, first, chain, offset, length);
    var sect, remain := Shr(offset, v.bytePerSectInPower), BitAnd(offset, v.bytePerSect - 1);
    GapOfRemain(offset, v.bytePerSect);
    if !WholeSector(v, offset, length) {
      ShortRange(v, offset, length);
    }
    var ok, cluster, off := WalkToCluster(v, drive, first, sect, buffer, chain);
    if !ok {
      return Fail;
    }
    ReadFrom(v, drive, reader, first, cluster, off, remain, offset, length, buffer, dest, chain, sect / v.sectPerClus);
    return Pass;
  }

  /** The clusters in front of a file position. */
  function Clusters(v: Volume, offset: nat): int
    requires v.Shaped()
  {
    offset / v.bytePerSect / v.sectPerClus
  }

  lemma GapOfRemain(offset: nat, bps: nat)
    requires bps > 0
    ensures Gap(offset, bps) == if offset % bps == 0 then 0 else bps - offset % bps
  {
  }
}
