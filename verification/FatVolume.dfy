/** A FAT volume as the loader sees it, and the file a cluster chain describes. */
module FatVolume {
  import opened Bytes
  import opened DivMod
  import EhciTransfer

  datatype FatType = Fat32 | Fat16

  const FIRST_DATA_CLUSTER := 2

  /** A volume that begins at block `start` of a device; sector numbers count from the
      device's first block to `start` in blocks and from there on in sectors. `clust0Sect` is
      where FAT32 has its data, `rootSectStart` and `rootSect` where FAT16 has its root
      directory; `disk` gives the bytes of every block of the device. */
  datatype Volume = Volume(fatType: FatType, bytePerSect: nat, bytePerSectInPower: nat, sectPerClus: nat,
                           start: nat, fat1Sect: nat, clust0Sect: nat, rootSectStart: nat, rootSect: nat,
                           disk: nat -> seq<byte>) {
    ghost predicate Shaped() {
      && bytePerSect >= BLOCK && bytePerSect % BLOCK == 0 && sectPerClus > 0
      && (forall b :: |disk(b)| == BLOCK)
    }

    /** The volume's sectors are the device's blocks. The loader takes this for granted: its
        readers move blocks, whatever sector size the volume declares. */
    predicate Plain() {
      bytePerSect == BLOCK
    }

    /** The block of the device at which a sector of the volume begins. */
    function FirstBlock(s: nat): (b: nat)
      ensures Plain() ==> b == s
    {
      if s <= start then s else
        MulMonotone(0, s - start, bytePerSect / BLOCK);
        start + (s - start) * (bytePerSect / BLOCK)
    }

    /** The bytes of a sector. */
    ghost function Sector(s: nat): (d: seq<byte>)
      requires Shaped()
      ensures |d| == bytePerSect
    {
      seq(bytePerSect, i requires 0 <= i < bytePerSect => disk(FirstBlock(s) + i / BLOCK)[i % BLOCK])
    }

    /** Sector and cluster sizes are powers of two that fit their 16-bit and 8-bit fields. */
    ghost predicate Valid() {
      && Shaped()
      && 2 <= bytePerSectInPower && bytePerSect == Pow2(bytePerSectInPower) && bytePerSect < 0x1_0000
      && (exists e :: sectPerClus == Pow2(e)) && sectPerClus < 0x100
    }

    /** Byte x of the run of sectors that starts at `sector`. */
    ghost function SectorByte(sector: nat, x: nat): byte
      requires Shaped()
    {
      Sector(sector + x / bytePerSect)[x % bytePerSect]
    }

    /** Byte x of the run of blocks that starts at `block`. */
    ghost function BlockByte(block: nat, x: nat): byte
      requires Shaped()
    {
      disk(block + x / BLOCK)[x % BLOCK]
    }

    /** log2 of the size of a FAT entry. */
    function EntryPower(): nat {
      if fatType.Fat32? then 2 else 1
    }

    function EntriesPerSect(): nat {
      bytePerSect / if fatType.Fat32? then 4 else 2
    }

    function Entry(sector: seq<byte>, i: nat): nat
      requires |sector| == bytePerSect && i < EntriesPerSect()
    {
      if fatType.Fat32? then Le32(sector, 4 * i) else Le16(sector, 2 * i)
    }

    /** The sector of the FAT that holds the entry for cluster c. */
    function FatSector(c: nat): nat
      requires bytePerSect >= 4
    {
      DivNonNegative(c, EntriesPerSect());
      fat1Sect + c / EntriesPerSect()
    }

    /** The scratch buffer after a read of `block`, with `behind` in memory behind its 512 bytes. */
    ghost function Scratch(block: nat, behind: seq<byte>): (s: seq<byte>)
      requires Shaped() && BLOCK + |behind| == bytePerSect
      ensures |s| == bytePerSect
    {
      disk(block) + behind
    }

    /** Byte i of the FAT. */
    ghost function FatByte(i: nat): byte
      requires Shaped()
    {
      SectorByte(fat1Sect, i)
    }

    /** The FAT's entry for cluster c. */
    ghost function FatEntry(c: nat): nat
      requires Shaped()
    {
      Entry(Sector(FatSector(c)), c % EntriesPerSect())
    }

    /** What `next_cluster` finds for c, with `behind` in memory behind the 512-byte buffer. */
    ghost function Lookup(c: nat, behind: seq<byte>): nat
      requires Shaped() && BLOCK + |behind| == bytePerSect
    {
      Entry(Scratch(Wrap32(FatSector(c)), behind), c % EntriesPerSect())
    }

    /** Where the data area starts: on FAT16 behind the root directory. */
    function DataStart(): nat {
      if fatType.Fat32? then clust0Sect else rootSectStart + rootSect
    }

    /** The sector at which a cluster starts: cluster 2 is the first of the data area, and
        clusters follow one another. */
    ghost function ClusterSector(c: int): int
      decreases if c < 2 then 2 - c else c - 2
    {
      if c == 2 then DataStart()
      else if c > 2 then ClusterSector(c - 1) + sectPerClus
      else ClusterSector(c + 1) - sectPerClus
    }

    /** The sector at which a cluster starts, as the loader computes it. */
    function FirstSector(c: int): (s: int)
      ensures s == ClusterSector(c)
    {
      FirstSectorRight(this, c);
      if fatType.Fat32? then clust0Sect + (c - FIRST_DATA_CLUSTER) * sectPerClus
      else rootSectStart + rootSect + (c - FIRST_DATA_CLUSTER) * sectPerClus
    }

    /** A cluster that holds file data, with sector numbers that fit 32 bits. For FAT32 the
        top nibble of its number is zero, so the raw FAT entry is the number. */
    ghost predicate DataCluster(c: nat)
      requires bytePerSect >= 4
    {
      && FIRST_DATA_CLUSTER <= c < (if fatType.Fat32? then 0x0FFF_F000 else 0xFFF5)
      && 0 <= ClusterSector(c) <= TWO_32 - sectPerClus
      && FatSector(c) < TWO_32
    }

    /** What the loader takes for an end mark, the standard's end marks among it. */
    function EndMark(): (m: nat)
      ensures if fatType.Fat32? then 0x0FFF_F000 <= m <= 0x0FFF_FFF8 else 0xFFF5 <= m <= 0xFFF8
    {
      if fatType.Fat32? then 0x0FFF_FFF8 else 0xFFF5
    }

    ghost predicate Chain(first: nat, chain: seq<nat>)
      requires Shaped()
    {
      && chain != [] && chain[0] == first
      && (forall i :: 0 <= i < |chain| ==> DataCluster(chain[i]))
      && (forall i :: 0 <= i < |chain| - 1 ==> FatEntry(chain[i]) == chain[i + 1])
    }

    /** The chain is the whole file: its last cluster's entry is an end mark. */
    ghost predicate Ends(first: nat, chain: seq<nat>)
      requires Shaped()
    {
      Chain(first, chain) && FatEntry(chain[|chain| - 1]) >= EndMark()
    }

    /** The disk sector of the n-th sector of the file. */
    ghost function FileSector(chain: seq<nat>, n: nat): int
      requires sectPerClus > 0 && n / sectPerClus < |chain|
    {
      ClusterSector(chain[n / sectPerClus]) + n % sectPerClus
    }

    /** The k-th byte of the file. */
    ghost function FileByte(chain: seq<nat>, k: nat): byte
      requires Shaped() && k / bytePerSect / sectPerClus < |chain|
    {
      var s := FileSector(chain, k / bytePerSect);
      if s >= 0 then Sector(s)[k % bytePerSect] else 0
    }
  }

  lemma {:induction false} FirstSectorRight(v: Volume, c: int)
    ensures v.ClusterSector(c) == v.DataStart() + (c - 2) * v.sectPerClus
    decreases if c < 2 then 2 - c else c - 2
  {
    if c > 2 {
      FirstSectorRight(v, c - 1);
      assert (c - 2) * v.sectPerClus == (c - 3) * v.sectPerClus + v.sectPerClus;
    } else if c < 2 {
      FirstSectorRight(v, c + 1);
      assert (c - 2) * v.sectPerClus == (c - 1) * v.sectPerClus - v.sectPerClus;
    }
  }

  /** A chain that ends in one of the standard's end marks ends for the loader. */
  lemma StandardMarkEnds(v: Volume, first: nat, chain: seq<nat>)
    requires v.Shaped() && v.Chain(first, chain)
    requires v.FatEntry(chain[|chain| - 1]) >= if v.fatType.Fat32? then 0x0FFF_FFF8 else 0xFFF8
    ensures v.Ends(first, chain)
  {
  }

  /** A file on the clusters 2, 3 and so on is the run of sectors from the data area's start. */
  lemma ConsecutiveFile(v: Volume, chain: seq<nat>, k: nat)
    requires v.Shaped() && (forall i :: 0 <= i < |chain| ==> chain[i] == 2 + i)
    requires k / v.bytePerSect / v.sectPerClus < |chain|
    ensures v.FileSector(chain, k / v.bytePerSect) == v.DataStart() + k / v.bytePerSect
    ensures v.FileByte(chain, k) == v.SectorByte(v.DataStart(), k)
  {
    var n := k / v.bytePerSect;
    DivNonNegative(n, v.sectPerClus);
    FirstSectorRight(v, 2 + n / v.sectPerClus);
    assert n / v.sectPerClus * v.sectPerClus + n % v.sectPerClus == n;
  }

  /** The FAT is an array of little-endian entries: that of cluster c is at byte 4 * c, or
      2 * c on FAT16, of the run of sectors from the FAT's first one. */
  lemma EntryIsInFat(v: Volume, c: nat)
    requires v.Shaped()
    ensures var at := 4 * c; v.fatType.Fat32? ==>
              v.FatEntry(c) == LeNat([v.FatByte(at), v.FatByte(at + 1), v.FatByte(at + 2), v.FatByte(at + 3)])
    ensures v.fatType.Fat16? ==> v.FatEntry(c) == LeNat([v.FatByte(2 * c), v.FatByte(2 * c + 1)])
  {
    var q, r := EntryPlace(v, c);
    if v.fatType.Fat32? {
      EntryIs32(v, c, q, r);
    } else {
      EntryIs16(v, c, q, r);
    }
  }

  /** Entry c is the r-th of sector q of the FAT. */
  lemma EntryPlace(v: Volume, c: nat) returns (q: nat, r: nat)
    requires v.Shaped()
    ensures r < v.EntriesPerSect() && v.FatEntry(c) == v.Entry(v.Sector(v.fat1Sect + q), r)
    ensures v.fatType.Fat32? ==> 4 * c == q * v.bytePerSect + 4 * r && 4 * r + 4 <= v.bytePerSect
    ensures v.fatType.Fat16? ==> 2 * c == q * v.bytePerSect + 2 * r && 2 * r + 2 <= v.bytePerSect
  {
    WholeEntries(v.bytePerSect);
    if v.fatType.Fat32? {
      q, r := Wider(c, v.EntriesPerSect(), 4, v.bytePerSect);
    } else {
      q, r := Wider(c, v.EntriesPerSect(), 2, v.bytePerSect);
    }
  }

  lemma WholeEntries(m: nat)
    requires m >= BLOCK && m % BLOCK == 0
    ensures 0 < m / 4 && m == 4 * (m / 4) && m == 2 * (m / 2)
  {
    var k := m / BLOCK;
    assert m == BLOCK * k;
    DivModUnique(m, 4, 128 * k, 0);
    DivModUnique(m, 2, 256 * k, 0);
  }

  lemma Wider(c: nat, n: nat, w: nat, m: nat) returns (q: nat, r: nat)
    requires n > 0 && m == w * n
    ensures q == c / n && r == c % n && w * c == q * m + w * r && w * r + w <= m
  {
    DivNonNegative(c, n);
    q, r := c / n, c % n;
    WiderOf(c, n, w, q, r);
  }

  lemma WiderOf(c: nat, n: nat, w: nat, q: nat, r: nat)
    requires c == q * n + r && r < n
    ensures w * c == q * (w * n) + w * r && w * r + w <= w * n
  {
    MulMonotone(r + 1, n, w);
    Distribute(q * n, r, w);
    MulAssoc(q, n, w);
  }

  lemma EntryIs32(v: Volume, c: nat, q: nat, r: nat)
    requires v.Shaped() && v.fatType.Fat32? && r < v.EntriesPerSect()
    requires 4 * c == q * v.bytePerSect + 4 * r && 4 * r + 4 <= v.bytePerSect
    ensures v.Entry(v.Sector(v.fat1Sect + q), r)
            == LeNat([v.FatByte(4 * c), v.FatByte(4 * c + 1), v.FatByte(4 * c + 2), v.FatByte(4 * c + 3)])
  {
    var s := v.Sector(v.fat1Sect + q);
    FourFatBytes(v, 4 * c, q, 4 * r, s);
    FourBytes(s, 4 * r);
  }

  lemma FourFatBytes(v: Volume, x: nat, q: nat, r: nat, s: seq<byte>)
    requires v.Shaped() && r + 4 <= v.bytePerSect && x == q * v.bytePerSect + r && s == v.Sector(v.fat1Sect + q)
    ensures [v.FatByte(x), v.FatByte(x + 1), v.FatByte(x + 2), v.FatByte(x + 3)] == [s[r], s[r + 1], s[r + 2], s[r + 3]]
  {
    FatByteIs(v, x, q, r);
    FatByteIs(v, x + 1, q, r + 1);
    FatByteIs(v, x + 2, q, r + 2);
    FatByteIs(v, x + 3, q, r + 3);
  }

  lemma EntryIs16(v: Volume, c: nat, q: nat, r: nat)
    requires v.Shaped() && v.fatType.Fat16? && r < v.EntriesPerSect()
    requires 2 * c == q * v.bytePerSect + 2 * r && 2 * r + 2 <= v.bytePerSect
    ensures v.Entry(v.Sector(v.fat1Sect + q), r) == LeNat([v.FatByte(2 * c), v.FatByte(2 * c + 1)])
  {
    FatByteIs(v, 2 * c, q, 2 * r);
    FatByteIs(v, 2 * c + 1, q, 2 * r + 1);
    TwoBytes(v.Sector(v.fat1Sect + q), 2 * r);
  }

  lemma FatByteIs(v: Volume, x: nat, q: nat, r: nat)
    requires v.Shaped() && r < v.bytePerSect && x == q * v.bytePerSect + r
    ensures v.FatByte(x) == v.Sector(v.fat1Sect + q)[r]
  {
    DivModUnique(x, v.bytePerSect, q, r);
  }

  /** The entries of a sector, counted by powers of two. */
  lemma EntriesPower(bps: nat, p: nat)
    requires p >= 2 && bps == Pow2(p)
    ensures bps / 4 == Pow2(p - 2) && bps / 2 == Pow2(p - 1)
  {
    assert Pow2(p) == 2 * Pow2(p - 1) && Pow2(p - 1) == 2 * Pow2(p - 2);
  }

  /** Masking with a power of two is the remainder. */
  lemma {:induction false} MaskSector(v: Volume, off: nat)
    requires v.Valid()
    ensures v.sectPerClus > 0 && BitAnd(off, v.sectPerClus - 1) == off % v.sectPerClus
    ensures v.bytePerSect > 0 && BitAnd(off, v.bytePerSect - 1) == off % v.bytePerSect
  {
    var e :| v.sectPerClus == Pow2(e);
    MaskIsMod(off, e);
    MaskIsMod(off, v.bytePerSectInPower);
  }

  /** Byte x of a run of sectors that starts at sector j of cluster i. */
  lemma ChunkIndex(i: nat, j: nat, x: nat, spc: nat, bps: nat)
    requires bps > 0 && j + x / bps < spc
    ensures var k := (i * spc + j) * bps + x;
            && k / bps == i * spc + (j + x / bps) && k / bps / spc == i
            && k / bps % spc == j + x / bps && k % bps == x % bps
  {
    DivShift(i * spc + j, x, bps);
    DivModUnique(i * spc + (j + x / bps), spc, i, j + x / bps);
  }

  /** The same for a byte inside its sector. */
  lemma PlaceIndex(i: nat, j: nat, x: nat, spc: nat, bps: nat)
    requires x < bps && j < spc
    ensures var k := (i * spc + j) * bps + x;
            k / bps == i * spc + j && k / bps / spc == i && k / bps % spc == j && k % bps == x
  {
    DivModUnique((i * spc + j) * bps + x, bps, i * spc + j, x);
    DivModUnique(i * spc + j, spc, i, j);
  }

  lemma BytesOfCluster(v: Volume, first: nat, chain: seq<nat>, i: nat, j: nat, x: nat, k: nat)
    requires v.Shaped() && v.Chain(first, chain) && i < |chain|
    requires j + x / v.bytePerSect < v.sectPerClus
    requires k == (i * v.sectPerClus + j) * v.bytePerSect + x
    ensures k / v.bytePerSect / v.sectPerClus < |chain|
    ensures v.ClusterSector(chain[i]) >= 0
    ensures v.FileByte(chain, k) == v.SectorByte(v.ClusterSector(chain[i]) + j, x)
  {
    ChunkIndex(i, j, x, v.sectPerClus, v.bytePerSect);
    assert v.DataCluster(chain[i]);
  }

  lemma PlainSector(v: Volume, s: nat)
    requires v.Shaped() && v.Plain()
    ensures v.Sector(s) == v.disk(s)
  {
  }

  lemma PlainByte(v: Volume, sector: nat, x: nat)
    requires v.Shaped() && v.Plain()
    ensures v.SectorByte(sector, x) == v.BlockByte(sector, x)
  {
    PlainSector(v, sector + x / BLOCK);
  }

  /** With wider sectors even the sector numbers lead elsewhere, so that a read that never
      leaves a sector reads the wrong block. */
  lemma WideSectorsLieElsewhere(v: Volume, s: nat)
    requires v.Shaped()
    ensures v.FirstBlock(s) == s <==> v.Plain() || s <= v.start
  {
    if s > v.start && !v.Plain() {
      MulMonotone(2, v.bytePerSect / BLOCK, s - v.start);
    }
  }

  /** The device behind `read_sector`, with a record of the sector counts it was asked for:
      one, or the step the loader uses for whole clusters. A device on EHCI has an IN pipe. */
  class Drive {
    const step: nat
    const pipe: EhciTransfer.InPipe?
    var asked: seq<nat>

    constructor (step: nat, pipe: EhciTransfer.InPipe?)
      requires pipe != null ==> pipe.InSync() && pipe.pending == [] && EhciTransfer.KeepsSync(step)
      ensures this.step == step && this.pipe == pipe && asked == [] && Ok()
    {
      this.step, this.pipe, asked := step, pipe, [];
    }

    function Parts(): set<object> {
      {this} + if pipe == null then {} else {pipe}
    }

    /** The record is as allowed, and an EHCI device is in step with its driver. */
    predicate Ok()
      reads Parts()
    {
      && (forall i :: 0 <= i < |asked| ==> asked[i] == 1 || asked[i] == step)
      && (pipe != null ==> pipe.InSync() && pipe.pending == [] && EhciTransfer.KeepsSync(step))
    }

    /** Reads have been added to the record, each of an allowed count. */
    predicate Since(before: seq<nat>)
      reads Parts()
    {
      before <= asked && Ok()
    }

    /** One read takes place: over EHCI its data and status stages are run. */
    method Read(count: nat)
      requires Ok() && (count == 1 || count == step)
      modifies Parts()
      ensures asked == old(asked) + [count] && Ok()
    {
      asked := asked + [count];
      if pipe != null {
        pipe.ReadStages(count);
      }
    }
  }

  /** The driver's `read_sector`, on a device whose reads succeed: it moves blocks. */
  method ReadSectors(v: Volume, drive: Drive, sector: nat, count: nat, dst: array<byte>, at: nat)
    requires v.Shaped() && at + count * BLOCK <= dst.Length
    requires drive.Ok() && (count == 1 || count == drive.step)
    modifies dst, drive.Parts()
    ensures drive.asked == old(drive.asked) + [count] && drive.Since(old(drive.asked))
    ensures forall p :: at <= p < at + count * BLOCK ==> dst[p] == v.BlockByte(sector, p - at)
    ensures forall p :: 0 <= p < at || at + count * BLOCK <= p < dst.Length ==> dst[p] == old(dst[p])
  {
    drive.Read(count);
    var end := at + count * BLOCK;
    var p := at;
    while p < end
      invariant drive.asked == old(drive.asked) + [count] && drive.Since(old(drive.asked))
      invariant at <= p <= end
      invariant forall q :: at <= q < p ==> dst[q] == v.BlockByte(sector, q - at)
      invariant forall q :: 0 <= q < at || p <= q < dst.Length ==> dst[q] == old(dst[q])
    {
      dst[p] := v.disk(sector + (p - at) / BLOCK)[(p - at) % BLOCK];
      p := p + 1;
    }
  }

  /** One block into the scratch buffer; `buffer` is its 512 bytes and the memory behind. */
  method ReadOneSector(v: Volume, drive: Drive, sector: nat, buffer: array<byte>)
    requires v.Shaped() && buffer.Length >= v.bytePerSect
    requires drive.Ok()
    modifies buffer, drive.Parts()
    ensures drive.Since(old(drive.asked))
    ensures buffer[..v.bytePerSect] == v.Scratch(sector, old(buffer[BLOCK..v.bytePerSect]))
    ensures buffer[BLOCK..v.bytePerSect] == old(buffer[BLOCK..v.bytePerSect])
  {
    ghost var behind := buffer[BLOCK..v.bytePerSect];
    ReadSectors(v, drive, sector, 1, buffer, 0);
    assert forall p :: 0 <= p < BLOCK ==> buffer[p] == v.BlockByte(sector, p - 0) == v.disk(sector)[p];
    assert buffer[..BLOCK] == v.disk(sector) && buffer[BLOCK..v.bytePerSect] == behind;
    assert buffer[..v.bytePerSect] == buffer[..BLOCK] + buffer[BLOCK..v.bytePerSect];
  }

  /** With 512-byte sectors the buffer holds the sector. */
  lemma PlainScratch(v: Volume, sector: nat, behind: seq<byte>)
    requires v.Shaped() && v.Plain() && BLOCK + |behind| == v.bytePerSect
    ensures forall p :: 0 <= p < v.bytePerSect ==> v.Scratch(sector, behind)[p] == v.SectorByte(sector, p)
  {
    forall p | 0 <= p < v.bytePerSect ensures v.Scratch(sector, behind)[p] == v.SectorByte(sector, p) {
      PlainByte(v, sector, p);
    }
  }

  lemma {:induction false} EntryIndex(v: Volume, c: nat)
    requires v.Valid()
    ensures v.EntriesPerSect() > 0
    ensures Shr(c, v.bytePerSectInPower - v.EntryPower()) == c / v.EntriesPerSect()
    ensures BitAnd(c, v.EntriesPerSect() - 1) == c % v.EntriesPerSect()
  {
    EntriesPower(v.bytePerSect, v.bytePerSectInPower);
    BitsOfIndex(c, v.EntriesPerSect(), v.bytePerSectInPower - v.EntryPower());
  }

  lemma BitsOfIndex(c: nat, n: nat, e: nat)
    requires n == Pow2(e)
    ensures n > 0 && Shr(c, e) == c / n && BitAnd(c, n - 1) == c % n
  {
    MaskIsMod(c, e);
  }

  /** `next_cluster`: looks up the FAT through the caller's scratch buffer. */
  method NextCluster(v: Volume, drive: Drive, currentClus: nat, buffer: array<byte>) returns (cluster: nat)
    requires v.Valid() && buffer.Length >= v.bytePerSect
    requires drive.Ok()
    modifies buffer, drive.Parts()
    ensures drive.Since(old(drive.asked))
    ensures cluster == v.Lookup(currentClus, old(buffer[BLOCK..v.bytePerSect]))
    ensures v.Plain() && v.FatSector(currentClus) < TWO_32 ==> cluster == v.FatEntry(currentClus)
    ensures buffer[BLOCK..v.bytePerSect] == old(buffer[BLOCK..v.bytePerSect])
  {
    EntryIndex(v, currentClus);
    var sector := Wrap32(v.fat1Sect + Shr(currentClus, v.bytePerSectInPower - v.EntryPower()));
    ghost var behind := buffer[BLOCK..v.bytePerSect];
    ReadOneSector(v, drive, sector, buffer);
    var i := BitAnd(currentClus, v.EntriesPerSect() - 1);
    cluster := v.Entry(buffer[..v.bytePerSect], i);
    PlainLookup(v, currentClus, behind);
  }

  lemma PlainLookup(v: Volume, c: nat, behind: seq<byte>)
    requires v.Shaped() && BLOCK + |behind| == v.bytePerSect
    ensures v.Plain() && v.FatSector(c) < TWO_32 ==> v.Lookup(c, behind) == v.FatEntry(c)
  {
    if v.Plain() && v.FatSector(c) < TWO_32 {
      PlainSector(v, v.FatSector(c));
      assert v.Scratch(v.FatSector(c), behind) == v.disk(v.FatSector(c));
    }
  }

  /** The cluster after n lookups from the first one, whatever they return. `behind` is what
      lies in memory behind the scratch buffer. */
  ghost function Visited(v: Volume, first: nat, behind: seq<byte>, n: nat): nat
    requires v.Shaped() && BLOCK + |behind| == v.bytePerSect
  {
    if n == 0 then first else v.Lookup(Visited(v, first, behind, n - 1), behind)
  }

  /** The sector that the loader computes for sector p of a file. */
  ghost function SectorFor(v: Volume, first: nat, behind: seq<byte>, p: nat): nat
    requires v.Shaped() && BLOCK + |behind| == v.bytePerSect
  {
    DivNonNegative(p, v.sectPerClus);
    Wrap32(v.ClusterSector(Visited(v, first, behind, p / v.sectPerClus)) + p % v.sectPerClus)
  }

  /** With wider sectors the entries that do not fit a block come from behind the buffer. */
  lemma WideEntryIsBehind(v: Volume, c: nat, behind: seq<byte>)
    requires v.Shaped() && v.bytePerSect == 1024 && v.fatType.Fat32? && |behind| == BLOCK && c % 256 >= 128
    ensures v.Lookup(c, behind) == Le32(behind, 4 * (c % 256 - 128))
  {
  }
}
