/** The sector table of the training firmware (fat/fat_boot.c), a cache of the cluster
    chain of file 0 from sector `start_lba` of that file on. */
module LbaTable {
  import opened Bytes
  import opened DivMod
  import opened FatVolume
  import opened FatReader

  const MAX_LEN := 128
  const LAST_MARK := 0x0FFF_FFFF
  const NO_LBA := 0xFFFF_FFFF
  const MAX_START := 0x8000_0001      // beyond it the signed test ends the scan at once

  /** Is the table full when `i` sectors have been seen? The test of the C code. */
  predicate Full(i: nat, start: nat) {
    AsInt(Wrap32(i - start)) >= MAX_LEN
  }

  /** The count at which the table is full. */
  function Limit(start: nat): (n: nat)
    requires start < TWO_32
    ensures 0 < n <= start + MAX_LEN && n < TWO_32
  {
    if start <= MAX_START then start + MAX_LEN
    else if start + MAX_LEN > TWO_32 then start + MAX_LEN - TWO_32
    else 1
  }

  lemma FullAtLimit(i: nat, start: nat)
    requires start < TWO_32 && 0 < i <= Limit(start)
    ensures Full(i, start) <==> i == Limit(start)
  {
  }

  /** The builder goes on to the n-th cluster, unless the table is full before. */
  ghost predicate Live(v: Volume, first: nat, behind: seq<byte>, n: nat)
    requires v.Shaped() && BLOCK + |behind| == v.bytePerSect
  {
    forall k :: 0 < k <= n ==> Visited(v, first, behind, k) != LAST_MARK
  }

  ghost predicate Scans(v: Volume, first: nat, behind: seq<byte>, p: nat)
    requires v.Shaped() && BLOCK + |behind| == v.bytePerSect
  {
    DivNonNegative(p, v.sectPerClus);
    Live(v, first, behind, p / v.sectPerClus)
  }

  /** The table holds the sector of every p from `start` on seen so far. */
  ghost predicate Caches(v: Volume, first: nat, behind: seq<byte>, t: seq<nat>, start: nat, i: nat)
    requires v.Shaped() && BLOCK + |behind| == v.bytePerSect
  {
    && |t| == MAX_LEN && i <= start + MAX_LEN
    && forall p :: start <= p < i ==> Scans(v, first, behind, p) && t[p - start] == SectorFor(v, first, behind, p)
  }

  lemma {:induction false} CacheGrows(v: Volume, first: nat, behind: seq<byte>, t: seq<nat>, t': seq<nat>, start: nat,
                                      i: nat, ci: nat, j: nat, sector: nat)
    requires v.Shaped() && BLOCK + |behind| == v.bytePerSect
    requires Live(v, first, behind, ci) && j < v.sectPerClus && i == ci * v.sectPerClus + j
    requires Caches(v, first, behind, t, start, i) && i < start + MAX_LEN
    requires sector == Wrap32(v.ClusterSector(Visited(v, first, behind, ci)) + j)
    requires t' == if i >= start then t[i - start := sector] else t
    ensures Caches(v, first, behind, t', start, i + 1)
  {
    DivModUnique(i, v.sectPerClus, ci, j);
    forall p | start <= p < i + 1
      ensures Scans(v, first, behind, p) && t'[p - start] == SectorFor(v, first, behind, p)
    {
      assert p < i ==> t'[p - start] == t[p - start];
    }
  }

  lemma CachedAt(v: Volume, first: nat, behind: seq<byte>, t: seq<nat>, start: nat, i: nat, k: nat)
    requires v.Shaped() && BLOCK + |behind| == v.bytePerSect
    requires Caches(v, first, behind, t, start, i) && start + k < i
    ensures Scans(v, first, behind, start + k) && t[k] == SectorFor(v, first, behind, start + k)
  {
    assert Scans(v, first, behind, start + k) && t[start + k - start] == SectorFor(v, first, behind, start + k);
  }

  /** The first maxLba + 1 entries are right, and they are all there are or all that fit. */
  ghost predicate Table(v: Volume, first: nat, behind: seq<byte>, t: seq<nat>, start: nat, maxLba: nat)
    requires v.Shaped() && BLOCK + |behind| == v.bytePerSect
  {
    && maxLba < MAX_LEN == |t|
    && (forall k :: 0 <= k <= maxLba ==>
          Scans(v, first, behind, start + k) && t[k] == SectorFor(v, first, behind, start + k))
    && (maxLba == MAX_LEN - 1 || !Scans(v, first, behind, start + maxLba + 1))
  }

  /** The state in which the scan ends, with i sectors seen: the table is full, or the ci-th
      cluster is an end mark. */
  ghost predicate Stopped(v: Volume, first: nat, behind: seq<byte>, t: seq<nat>, start: nat, i: nat, ci: nat)
    requires v.Shaped() && BLOCK + |behind| == v.bytePerSect && start < TWO_32
  {
    && 0 < i <= Limit(start) && Caches(v, first, behind, t, start, i)
    && (i < Limit(start) ==> i == ci * v.sectPerClus && !Live(v, first, behind, ci))
  }

  lemma DeadAfter(v: Volume, first: nat, behind: seq<byte>, ci: nat, p: nat)
    requires v.Shaped() && BLOCK + |behind| == v.bytePerSect
    requires !Live(v, first, behind, ci) && p >= ci * v.sectPerClus
    ensures !Scans(v, first, behind, p)
  {
    DivShift(ci, p - ci * v.sectPerClus, v.sectPerClus);
    DivNonNegative(p - ci * v.sectPerClus, v.sectPerClus);
    var k :| 0 < k <= ci && Visited(v, first, behind, k) == LAST_MARK;
    assert k <= p / v.sectPerClus;
  }

  class SectorTable {
    const fatTbl: array<nat>
    var maxLba: nat

    constructor ()
      ensures fresh(fatTbl) && fatTbl.Length == MAX_LEN && maxLba == 0
    {
      fatTbl := new nat[MAX_LEN];
      maxLba := 0;
    }

    /** The sectors of one cluster; `i` counts file sectors. */
    method ScanCluster(v: Volume, cluster: nat, start: nat, i0: nat, ghost first: nat, ghost behind: seq<byte>,
                       ghost ci: nat)
      returns (done: bool, i: nat)
      requires v.Shaped() && BLOCK + |behind| == v.bytePerSect
      requires Live(v, first, behind, ci) && cluster == Visited(v, first, behind, ci)
      requires fatTbl.Length == MAX_LEN && start < TWO_32 && i0 == ci * v.sectPerClus && i0 < Limit(start)
      requires Caches(v, first, behind, fatTbl[..], start, i0)
      modifies fatTbl
      ensures i0 < i <= Limit(start) && Caches(v, first, behind, fatTbl[..], start, i)
      ensures i <= start ==> fatTbl[..] == old(fatTbl[..])
      ensures done <==> i == Limit(start)
      ensures !done ==> i == i0 + v.sectPerClus
    {
      i, done := i0, false;
      var sector := Wrap32(v.FirstSector(cluster));
      var j := 0;
      while j < v.sectPerClus
        invariant 0 <= j <= v.sectPerClus && i == i0 + j && i < Limit(start)
        invariant sector == Wrap32(v.ClusterSector(cluster) + j)
        invariant Caches(v, first, behind, fatTbl[..], start, i)
        invariant i <= start ==> fatTbl[..] == old(fatTbl[..])
      {
        ghost var before := fatTbl[..];
        if i >= start {
          fatTbl[i - start] := sector;
        }
        CacheGrows(v, first, behind, before, fatTbl[..], start, i, ci, j, sector);
        i := i + 1;
        FullAtLimit(i, start);
        if Full(i, start) {
          done := true;
          return;
        }
        WrapPlus(v.ClusterSector(cluster) + j, 1);
        j := j + 1;
        sector := Wrap32(sector + 1);
      }
    }

    /** The scan over the clusters; it ends on every volume. */
    method Scan(v: Volume, drive: Drive, first: nat, buffer: array<byte>, start: nat) returns (i: nat, ghost ci: nat)
      requires v.Valid() && start < TWO_32 && buffer.Length >= v.bytePerSect && fatTbl.Length == MAX_LEN
      requires drive.Ok()
      modifies buffer, fatTbl, drive.Parts()
      ensures drive.Since(old(drive.asked))
      ensures Stopped(v, first, old(buffer[BLOCK..v.bytePerSect]), fatTbl[..], start, i, ci)
      ensures i <= start ==> fatTbl[..] == old(fatTbl[..])
    {
      ghost var behind := buffer[BLOCK..v.bytePerSect];
      var cluster := first;
      i, ci := 0, 0;
      while true
        invariant drive.Since(old(drive.asked))
        invariant i == ci * v.sectPerClus && i < Limit(start) && buffer[BLOCK..v.bytePerSect] == behind
        invariant cluster == Visited(v, first, behind, ci) && Live(v, first, behind, ci)
        invariant Caches(v, first, behind, fatTbl[..], start, i)
        invariant i <= start ==> fatTbl[..] == old(fatTbl[..])
        decreases Limit(start) - i
      {
        var done;
        done, i := ScanCluster(v, cluster, start, i, first, behind, ci);
        if done {
          return;
        }
        Distribute(ci, 1, v.sectPerClus);
        cluster := Visit(v, drive, cluster, buffer, first, behind, ci);
        ci := ci + 1;
        if cluster == LAST_MARK {
          return;
        }
        LiveStep(v, first, behind, ci);
      }
    }

    /** On to the next cluster. */
    method Visit(v: Volume, drive: Drive, cluster: nat, buffer: array<byte>, ghost first: nat,
                 ghost behind: seq<byte>, ghost ci: nat)
      returns (cluster': nat)
      requires v.Valid() && buffer.Length >= v.bytePerSect && behind == buffer[BLOCK..v.bytePerSect]
      requires cluster == Visited(v, first, behind, ci)
      requires drive.Ok()
      modifies buffer, drive.Parts()
      ensures drive.Since(old(drive.asked))
      ensures cluster' == Visited(v, first, behind, ci + 1) && behind == buffer[BLOCK..v.bytePerSect]
    {
      cluster' := NextCluster(v, drive, cluster, buffer);
    }

    /** `fat_read_fat_for_training_fw`. Main result, on every volume, whatever its FAT holds:
        it passes exactly when it scans sector `start` before its end mark and the signed test
        does not end the scan first, or when start is 0xFFFFFFFF, where `start_lba + 1` wraps. */
    method Build(v: Volume, drive: Drive, first: nat, buffer: array<byte>, start: nat) returns (ret: Status)
      requires v.Valid() && start < TWO_32
      requires buffer.Length >= v.bytePerSect && fatTbl.Length == MAX_LEN
      requires drive.Ok()
      modifies this`maxLba, buffer, fatTbl, drive.Parts()
      ensures drive.Since(old(drive.asked))
      ensures maxLba < MAX_LEN
      ensures ret.Pass? <==> start == NO_LBA
                             || (start <= MAX_START && Scans(v, first, old(buffer[BLOCK..v.bytePerSect]), start))
      ensures ret.Pass? && start != NO_LBA ==>
                Table(v, first, old(buffer[BLOCK..v.bytePerSect]), fatTbl[..], start, maxLba)
      ensures ret.Fail? ==> maxLba == 0 && fatTbl[..] == old(fatTbl[..])
    {
      ghost var behind := buffer[BLOCK..v.bytePerSect];
      var i;
      ghost var ci;
      i, ci := Scan(v, drive, first, buffer, start);
      WrappedTests(start, i);
      ScanDecides(v, first, behind, fatTbl[..], start, i, ci);
      if i >= Wrap32(start + 1) {
        maxLba := Wrap32(i - start - 1) % 0x1_0000;
        ret := Pass;
      } else {
        maxLba := 0;
        ret := Fail;
      }
    }

    /** `lba2sec_for_training_fw`: larger addresses clamp to the last entry. */
    method LbaToSector(lba0: nat) returns (sector: nat)
      requires maxLba < fatTbl.Length
      ensures sector == fatTbl[if lba0 > maxLba then maxLba else lba0]
    {
      var lba := lba0;
      if lba > maxLba {
        lba := maxLba;
      }
      sector := fatTbl[lba];
    }
  }

  /** What the wrapped tests after the scan come to. */
  lemma WrappedTests(start: nat, i: nat)
    requires start < TWO_32 && 0 < i <= Limit(start)
    ensures start == NO_LBA ==> Wrap32(start + 1) == 0 && Wrap32(i - start - 1) % 0x1_0000 == i < MAX_LEN
    ensures start != NO_LBA ==> (i >= Wrap32(start + 1) <==> start < i)
    ensures start < i ==> start <= MAX_START && Wrap32(i - start - 1) % 0x1_0000 == i - start - 1 < MAX_LEN
  {
  }

  /** The count at which the scan ends tells whether sector `start` was met. */
  lemma ScanDecides(v: Volume, first: nat, behind: seq<byte>, t: seq<nat>, start: nat, i: nat, ci: nat)
    requires v.Shaped() && BLOCK + |behind| == v.bytePerSect && start < TWO_32
    requires Stopped(v, first, behind, t, start, i, ci)
    ensures start < i <==> start <= MAX_START && Scans(v, first, behind, start)
    ensures start < i ==> Table(v, first, behind, t, start, i - start - 1)
  {
    WrappedTests(start, i);
    if start < i {
      forall k | 0 <= k <= i - start - 1
        ensures Scans(v, first, behind, start + k) && t[k] == SectorFor(v, first, behind, start + k)
      {
        CachedAt(v, first, behind, t, start, i, k);
      }
      CachedAt(v, first, behind, t, start, i, 0);
      if i < Limit(start) {
        DeadAfter(v, first, behind, ci, i);
        assert start + (i - start - 1) + 1 == i;
      }
    } else if i < Limit(start) {
      DeadAfter(v, first, behind, ci, start);
    }
  }

  lemma LiveStep(v: Volume, first: nat, behind: seq<byte>, ci: nat)
    requires v.Shaped() && BLOCK + |behind| == v.bytePerSect && ci > 0
    requires Live(v, first, behind, ci - 1) && Visited(v, first, behind, ci) != LAST_MARK
    ensures Live(v, first, behind, ci)
  {
  }

  ghost predicate Inside(v: Volume, chain: seq<nat>, n: nat)
    requires v.sectPerClus > 0
  {
    n / v.sectPerClus < |chain|
  }

  /** Inside a chain the builder visits its clusters. */
  lemma {:induction false} VisitsChain(v: Volume, first: nat, chain: seq<nat>, n: nat)
    requires v.Shaped() && v.Plain() && v.Chain(first, chain) && n <= |chain|
    ensures n < |chain| ==> Visited(v, first, [], n) == chain[n]
    ensures n == |chain| ==> Visited(v, first, [], n) == v.FatEntry(chain[n - 1])
  {
    if n > 0 {
      VisitsChain(v, first, chain, n - 1);
      assert v.DataCluster(chain[n - 1]);
      PlainLookup(v, chain[n - 1], []);
    }
  }

  lemma LiveInChain(v: Volume, first: nat, chain: seq<nat>, n: nat)
    requires v.Shaped() && v.Plain() && v.Chain(first, chain) && n < |chain|
    ensures Live(v, first, [], n)
  {
    forall k | 0 < k <= n ensures Visited(v, first, [], k) != LAST_MARK {
      VisitsChain(v, first, chain, k);
      assert v.DataCluster(chain[k]);
    }
  }

  /** Main result on files: where the chain ends in 0x0FFFFFFF, what the builder scans is the
      file, and the sectors it computes are those `fat_read_file` uses. */
  lemma ScansTheFile(v: Volume, first: nat, chain: seq<nat>, p: nat)
    requires v.Shaped() && v.Plain() && v.Chain(first, chain)
    ensures Inside(v, chain, p) ==> Scans(v, first, [], p) && SectorFor(v, first, [], p) == v.FileSector(chain, p)
    ensures v.FatEntry(chain[|chain| - 1]) == 0x0FFF_FFFF ==> (Scans(v, first, [], p) <==> Inside(v, chain, p))
  {
    DivNonNegative(p, v.sectPerClus);
    var n := p / v.sectPerClus;
    if n < |chain| {
      LiveInChain(v, first, chain, n);
      VisitsChain(v, first, chain, n);
      assert v.DataCluster(chain[n]);
    } else {
      VisitsChain(v, first, chain, |chain|);
      assert |chain| <= n;
    }
  }

  /** Main result on the cache: byte x of the 64 KiB from sector `start` of the file on has its
      sector in the table exactly if the file goes that far. */
  lemma CachesFirmware(v: Volume, first: nat, chain: seq<nat>, t: seq<nat>, start: nat, maxLba: nat, x: nat)
    requires v.Shaped() && v.Plain() && v.Chain(first, chain) && v.FatEntry(chain[|chain| - 1]) == 0x0FFF_FFFF
    requires Table(v, first, [], t, start, maxLba) && x < 64 * 1024
    ensures x / 512 <= maxLba <==> Inside(v, chain, start + x / 512)
    ensures x / 512 <= maxLba ==> t[x / 512] == v.FileSector(chain, start + x / 512)
  {
    var k := x / 512;
    ScansTheFile(v, first, chain, start + k);
    if k > maxLba {
      ScansLess(v, first, [], start + maxLba + 1, start + k);
    } else {
      assert Scans(v, first, [], start + k) && t[k] == SectorFor(v, first, [], start + k);
    }
  }

  lemma ScansLess(v: Volume, first: nat, behind: seq<byte>, p: nat, q: nat)
    requires v.Shaped() && BLOCK + |behind| == v.bytePerSect && p <= q
    ensures Scans(v, first, behind, q) ==> Scans(v, first, behind, p)
  {
    DivShift(0, q, v.sectPerClus);
    DivBelow(p, q / v.sectPerClus + 1, v.sectPerClus);
  }

  /** Any other end mark is taken for a cluster: the builder goes on behind the file, with
      sectors computed from the mark, and passes for a start there. */
  lemma OtherMarksAreClusters(v: Volume, first: nat, chain: seq<nat>, j: nat)
    requires v.Shaped() && v.Plain() && v.Ends(first, chain) && j < v.sectPerClus
    requires v.FatEntry(chain[|chain| - 1]) != LAST_MARK
    ensures var p, mark := |chain| * v.sectPerClus + j, v.FatEntry(chain[|chain| - 1]);
            && !Inside(v, chain, p) && Scans(v, first, [], p)
            && SectorFor(v, first, [], p) == Wrap32(v.ClusterSector(mark) + j)
  {
    var n := |chain|;
    DivModUnique(n * v.sectPerClus + j, v.sectPerClus, n, j);
    VisitsChain(v, first, chain, n);
    LiveInChain(v, first, chain, n - 1);
    forall k | 0 < k <= n ensures Visited(v, first, [], k) != LAST_MARK {
      if k < n {
        assert Live(v, first, [], n - 1);
      }
    }
  }

  /** On FAT16, whose entries have 16 bits, the builder meets no end mark at all: it passes
      for every start that the signed test lets through, inside the file or not. */
  lemma Fat16NeverEnds(v: Volume, first: nat, behind: seq<byte>, p: nat)
    requires v.Shaped() && BLOCK + |behind| == v.bytePerSect && v.fatType.Fat16?
    ensures Scans(v, first, behind, p)
  {
    forall k: nat | 0 < k ensures Visited(v, first, behind, k) != LAST_MARK {
      EntryOf16Bits(v, Visited(v, first, behind, k - 1), behind);
    }
  }

  lemma EntryOf16Bits(v: Volume, c: nat, behind: seq<byte>)
    requires v.Shaped() && BLOCK + |behind| == v.bytePerSect && v.fatType.Fat16?
    ensures v.Lookup(c, behind) < 0x1_0000
  {
  }
}
