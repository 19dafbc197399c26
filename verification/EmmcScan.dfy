/** The search of xboot.c for a boot image on eMMC: uboot1 by its header, then a later
    uboot2, with the fallback that reloads uboot1 over what failed loads left behind. */
module EmmcScan {
  import opened Bytes
  import opened ImageSum

  const MAGIC := 0x2705_1956
  const NAME: seq<byte> := [0x75, 0x62, 0x6F, 0x6F, 0x74]   // "uboot"
  const AT_NAME := 32
  const UBOOT_MAX_LEN := 0x10_0000
  const NO_LBA := 0xFFFF_FFFF

  /** A device; a read that fails leaves its own residue in the destination. `sign` is the
      size of the signature behind the data. */
  datatype Emmc = Emmc(sector: nat -> seq<byte>, readable: (nat, nat) -> bool,
                       residue: (nat, nat) -> seq<byte>, sign: nat) {
    ghost predicate Valid() {
      && (forall s :: |sector(s)| == BLOCK)
      && (forall s: nat, n: nat :: |residue(s, n)| == n * BLOCK)
      && sign <= 0x1_0000
    }

    function Sectors(s: nat, n: nat): seq<byte>
      decreases n
    {
      if n == 0 then [] else sector(s) + Sectors(s + 1, n - 1)
    }

    /** What a read of n sectors leaves in memory. */
    function Delivered(s: nat, n: nat): seq<byte> {
      if readable(s, n) then Sectors(s, n) else residue(s, n)
    }
  }

  /** The checks on a header: magic, name, checksum. */
  predicate HeaderHolds(h: seq<byte>)
    requires |h| == HDR
  {
    Be32(h, 0) == MAGIC && h[AT_NAME..AT_NAME + |NAME|] == NAME && HeaderSumHolds(h)
  }

  /** The name field begins with these characters. */
  predicate Spells(name: seq<byte>, text: string) {
    |text| <= |name| && forall i :: 0 <= i < |text| ==> name[i] == text[i] as int
  }

  /** What the checks ask of a header's fields. */
  lemma HeaderHoldsIff(h: Header)
    requires h.Valid()
    ensures |h.Stored()| == HDR
    ensures HeaderHolds(h.Stored())
            <==> h.magic == 0x2705_1956 && Spells(h.name, "uboot") && h.hcrc == Checksum(h.(hcrc := 0).Stored())
    ensures DataLen(h.Stored()) == AsInt(h.size)
  {
    var s, text := h.Stored(), "uboot";
    FieldsOfHeader(h);
    HeaderSumIs(h);
    assert s[AT_NAME..AT_NAME + |NAME|] == h.name[..5];
    assert forall i :: 0 <= i < 5 ==> NAME[i] == text[i] as int;
    if Spells(h.name, text) {
      assert h.name[..5] == NAME;
    } else {
      var i :| 0 <= i < 5 && h.name[i] != text[i] as int;
      assert h.name[..5][i] != NAME[i];
    }
  }

  function DataLen(h: seq<byte>): int
    requires |h| == HDR
  {
    AsInt(Be32(h, AT_SIZE))
  }

  /** What is still to read of an image when its first block is in memory, in blocks. */
  function BlocksLeft(len: int, sign: nat): (n: nat)
    ensures HDR + len + sign <= BLOCK + n * BLOCK && (n > 0 ==> n * BLOCK < HDR + len + sign)
  {
    var res := HDR + len + sign - BLOCK;
    if res > 0 then (res + BLOCK - 1) / BLOCK else 0
  }

  /** The image at partition start `lba`, as far as it is loaded. */
  function ImageAt(d: Emmc, lba: nat): seq<byte> {
    if |d.sector(lba)| < HDR then []
    else d.sector(lba) + d.Sectors(lba + 1, BlocksLeft(DataLen(d.sector(lba)[..HDR]), d.sign))
  }

  /** Partition start `lba` carries a good header, and then a positive data length. */
  predicate GoodHeader(d: Emmc, lba: nat) {
    && d.readable(lba, 1) && |d.sector(lba)| >= HDR
    && HeaderHolds(d.sector(lba)[..HDR]) && DataLen(d.sector(lba)[..HDR]) > 0
  }

  /** An image in memory that passes every check of the loader. */
  predicate ImageHolds(m: seq<byte>) {
    && |m| >= HDR && HeaderHolds(m[..HDR])
    && 0 < DataLen(m[..HDR]) && HDR + DataLen(m[..HDR]) <= |m|
    && Checksum(m[HDR..HDR + DataLen(m[..HDR])]) == Be32(m[..HDR], AT_DCRC)
  }

  /** What the checks ask of an image: the header, and the sum of the data behind it. */
  lemma ImageHoldsIff(h: Header, data: seq<byte>, rest: seq<byte>)
    requires h.Valid() && AsInt(h.size) == |data| > 0
    ensures ImageHolds(h.Stored() + data + rest)
            <==> h.magic == 0x2705_1956 && Spells(h.name, "uboot") && h.hcrc == Checksum(h.(hcrc := 0).Stored())
                 && h.dcrc == Checksum(data)
  {
    var m := h.Stored() + data + rest;
    HeaderHoldsIff(h);
    FieldsOfHeader(h);
    assert m[..HDR] == h.Stored() && m[HDR..HDR + |data|] == data;
  }

  /** Partition start `lba` carries an image that loads and verifies. */
  predicate GoodImage(d: Emmc, lba: nat, limit: nat) {
    && GoodHeader(d, lba)
    && var len := DataLen(d.sector(lba)[..HDR]);
    && len + HDR < limit
    && (BlocksLeft(len, d.sign) > 0 ==> d.readable(lba + 1, BlocksLeft(len, d.sign)))
    && ImageHolds(ImageAt(d, lba))
  }

  lemma {:induction false} SectorsLength(d: Emmc, s: nat, n: nat)
    requires d.Valid()
    ensures |d.Sectors(s, n)| == n * BLOCK
    decreases n
  {
    if n > 0 {
      SectorsLength(d, s + 1, n - 1);
    }
  }

  /** Byte k of a run of sectors. */
  lemma {:induction false} SectorsAt(d: Emmc, s: nat, n: nat, k: nat)
    requires d.Valid() && k < n * BLOCK
    ensures |d.Sectors(s, n)| == n * BLOCK && d.Sectors(s, n)[k] == d.sector(s + k / BLOCK)[k % BLOCK]
    decreases n
  {
    SectorsLength(d, s, n);
    if k >= BLOCK {
      SectorsAt(d, s + 1, n - 1, k - BLOCK);
    }
  }

  /** An image is the run of the device's bytes from the partition's start on, as far as its
      header, data and signature go. */
  lemma ImageIsRun(d: Emmc, lba: nat, k: nat)
    requires d.Valid() && k < |ImageAt(d, lba)|
    ensures ImageAt(d, lba)[k] == d.sector(lba + k / 512)[k % 512]
    ensures |ImageAt(d, lba)| >= HDR + DataLen(d.sector(lba)[..HDR]) + d.sign
  {
    var n := BlocksLeft(DataLen(d.sector(lba)[..HDR]), d.sign);
    SectorsLength(d, lba + 1, n);
    if k >= BLOCK {
      SectorsAt(d, lba + 1, n, k - BLOCK);
    }
  }

  lemma {:induction false} OneSector(d: Emmc, s: nat)
    ensures d.Sectors(s, 1) == d.sector(s)
  {
    assert d.Sectors(s + 1, 0) == [];
  }

  /** `emmc_read` to offset `at` of the load area. */
  method EmmcRead(d: Emmc, mem: array<byte>, at: nat, blk: nat, count: nat) returns (failed: bool)
    requires d.Valid() && at + count * BLOCK <= mem.Length
    modifies mem
    ensures failed <==> !d.readable(blk, count)
    ensures |d.Delivered(blk, count)| == count * BLOCK
    ensures mem[..at + count * BLOCK] == old(mem[..at]) + d.Delivered(blk, count)
  {
    SectorsLength(d, blk, count);
    var s := d.Delivered(blk, count);
    for i := 0 to |s|
      invariant forall p :: 0 <= p < at ==> mem[p] == old(mem[p])
      invariant forall p :: at <= p < at + i ==> mem[p] == s[p - at]
    {
      mem[at + i] := s[i];
    }
    failed := !d.readable(blk, count);
  }

  method CheckHeader(mem: array<byte>) returns (ok: bool)
    requires mem.Length >= HDR
    ensures ok <==> HeaderHolds(mem[..HDR])
  {
    assert mem[0..HDR] == mem[..HDR];
    if Be32(mem[..HDR], 0) != MAGIC {
      return false;
    }
    if mem[..HDR][AT_NAME..AT_NAME + |NAME|] != NAME {
      return false;
    }
    ok := CheckHcrc(mem, 0);
  }

  /** `emmc_load_uhdr_image` with nothing loaded before. Main result on one load: whatever
      memory held before, the outcome is that of the device's content alone. */
  method LoadImage(d: Emmc, mem: array<byte>, blk: nat, onlyHdr: bool, limit: nat) returns (len: int)
    requires d.Valid() && limit <= UBOOT_MAX_LEN && mem.Length >= UBOOT_MAX_LEN + d.sign + 2 * BLOCK
    modifies mem
    ensures onlyHdr ==> (len > 0 <==> GoodHeader(d, blk))
    ensures !onlyHdr ==> (len > 0 <==> GoodImage(d, blk, limit))
    ensures !onlyHdr && len > 0 ==> |ImageAt(d, blk)| <= mem.Length && mem[..|ImageAt(d, blk)|] == ImageAt(d, blk)
                                    && len == DataLen(mem[..HDR]) && 64 + len < limit
  {
    var failed := EmmcRead(d, mem, 0, blk, 1);
    OneSector(d, blk);
    if failed {
      return -1;
    }
    assert mem[..BLOCK] == d.sector(blk);
    ghost var h := d.sector(blk)[..HDR];
    assert mem[..HDR] == mem[..BLOCK][..HDR] == h;
    var ok := CheckHeader(mem);
    if !ok {
      return -1;
    }
    len := DataLen(mem[..HDR]);
    if onlyHdr {
      return;
    }
    if len <= 0 || len + HDR >= limit {
      return -1;
    }
    len := LoadRest(d, mem, blk, len);
  }

  /** The part of a load behind the header checks. */
  method LoadRest(d: Emmc, mem: array<byte>, blk: nat, len0: int) returns (len: int)
    requires d.Valid() && mem.Length >= UBOOT_MAX_LEN + d.sign + 2 * BLOCK
    requires mem[..BLOCK] == d.sector(blk) && mem[..HDR] == d.sector(blk)[..HDR]
    requires len0 == DataLen(mem[..HDR]) && 0 < len0 && len0 + HDR < UBOOT_MAX_LEN
    requires d.readable(blk, 1) && HeaderHolds(mem[..HDR])
    modifies mem
    ensures len > 0 <==> (BlocksLeft(len0, d.sign) > 0 ==> d.readable(blk + 1, BlocksLeft(len0, d.sign)))
                         && ImageHolds(ImageAt(d, blk))
    ensures len > 0 ==> |ImageAt(d, blk)| <= mem.Length && mem[..|ImageAt(d, blk)|] == ImageAt(d, blk)
                        && len == DataLen(mem[..HDR])
  {
    ghost var image := ImageAt(d, blk);
    var failed := ReadRest(d, mem, blk, len0);
    if failed {
      return -1;
    }
    assert image[..HDR] == mem[..HDR];
    var ok := VerifyLoaded(mem, len0, image);
    len := if ok then len0 else -1;
  }

  /** The second read of a load, where the image does not end in its first block. */
  method ReadRest(d: Emmc, mem: array<byte>, blk: nat, len0: int) returns (failed: bool)
    requires d.Valid() && mem.Length >= UBOOT_MAX_LEN + d.sign + 2 * BLOCK
    requires mem[..BLOCK] == d.sector(blk) && 0 < len0 && len0 + HDR < UBOOT_MAX_LEN
    requires len0 == DataLen(d.sector(blk)[..HDR])
    modifies mem
    ensures failed <==> BlocksLeft(len0, d.sign) > 0 && !d.readable(blk + 1, BlocksLeft(len0, d.sign))
    ensures HDR + len0 <= |ImageAt(d, blk)| <= mem.Length && ImageAt(d, blk)[..HDR] == d.sector(blk)[..HDR]
    ensures !failed ==> mem[..|ImageAt(d, blk)|] == ImageAt(d, blk) && mem[..HDR] == d.sector(blk)[..HDR]
  {
    var res := HDR + len0 + d.sign - BLOCK;
    ghost var n := BlocksLeft(len0, d.sign);
    ghost var first := mem[..BLOCK];
    SectorsLength(d, blk + 1, n);
    failed := false;
    if res > 0 {
      var blks := (res + BLOCK - 1) / BLOCK;
      failed := EmmcRead(d, mem, BLOCK, blk + 1, blks);
      assert blks == n && mem[..BLOCK + n * BLOCK] == first + d.Delivered(blk + 1, n);
    } else {
      assert n == 0 && d.Sectors(blk + 1, 0) == [];
    }
    if !failed {
      assert mem[..HDR] == mem[..|ImageAt(d, blk)|][..HDR];
    }
  }

  /** The data checksum, on an image that is completely in memory. */
  method VerifyLoaded(mem: array<byte>, len0: nat, ghost image: seq<byte>) returns (ok: bool)
    requires |image| <= mem.Length && mem[..|image|] == image
    requires HDR + len0 <= |image| && HeaderHolds(image[..HDR]) && DataLen(image[..HDR]) == len0 > 0
    ensures mem[..HDR] == image[..HDR]
    ensures ok <==> ImageHolds(image)
  {
    assert mem[..HDR] == mem[..|image|][..HDR];
    assert mem[0..HDR] == mem[..HDR];
    assert mem[HDR..HDR + len0] == mem[..|image|][HDR..HDR + len0];
    ok := CheckDcrc(mem, 0);
  }

  /** p holds at a and at no earlier partition. */
  ghost predicate First(d: Emmc, parts: seq<nat>, a: nat) {
    a < |parts| && GoodHeader(d, parts[a]) && forall i :: 0 <= i < a ==> !GoodHeader(d, parts[i])
  }

  /** b is the first partition after a whose image is good. */
  ghost predicate FirstLater(d: Emmc, parts: seq<nat>, a: nat, b: nat) {
    a < b < |parts| && GoodImage(d, parts[b], UBOOT_MAX_LEN)
    && forall i :: a < i < b ==> !GoodImage(d, parts[i], UBOOT_MAX_LEN)
  }

  ghost predicate NoLater(d: Emmc, parts: seq<nat>, a: nat, n: nat)
    requires n <= |parts|
  {
    forall i :: a < i < n ==> !GoodImage(d, parts[i], UBOOT_MAX_LEN)
  }

  lemma NoLaterStep(d: Emmc, parts: seq<nat>, a: nat, n: nat)
    requires n < |parts| && NoLater(d, parts, a, n) && !GoodImage(d, parts[n], UBOOT_MAX_LEN)
    ensures NoLater(d, parts, a, n + 1)
  {
  }

  /** Memory holds the image of the partition that starts at `lba`, and it passes. */
  ghost predicate Holds(d: Emmc, mem: seq<byte>, lba: nat) {
    && |ImageAt(d, lba)| <= |mem| && mem[..|ImageAt(d, lba)|] == ImageAt(d, lba)
    && ImageHolds(ImageAt(d, lba))
  }

  /** Partition x is to be booted: uboot2, the first good image behind the first good header
      a, if there is one, else uboot1 at a if its image is good. */
  ghost predicate Selected(d: Emmc, parts: seq<nat>, a: nat, x: nat) {
    && First(d, parts, a)
    && (FirstLater(d, parts, a, x)
        || (x == a && NoLater(d, parts, a, |parts|) && GoodImage(d, parts[a], UBOOT_MAX_LEN)))
  }

  lemma SelectedUnique(d: Emmc, parts: seq<nat>, a: nat, x: nat, a': nat, x': nat)
    requires Selected(d, parts, a, x) && Selected(d, parts, a', x')
    ensures a == a' && x == x'
  {
  }

  /** The selection loop of `emmc_boot` over any number of partitions, none of which starts
      at the sector number that means "none". Main result: it succeeds exactly when a
      partition is to be booted, and then that image is in memory and passes every check,
      whatever the failed loads wrote there before. */
  method SelectUboot(d: Emmc, mem: array<byte>, parts: seq<nat>) returns (len: int, ghost a: nat, ghost x: nat)
    requires d.Valid() && mem.Length >= UBOOT_MAX_LEN + d.sign + 2 * BLOCK
    requires 0xFFFF_FFFF !in parts
    modifies mem
    ensures len > 0 ==> Selected(d, parts, a, x) && Holds(d, mem[..], parts[x]) && len == DataLen(mem[..HDR])
    ensures len <= 0 ==> forall a': nat, x': nat :: !Selected(d, parts, a', x')
  {
    var blkStart1, blkStart2 := NO_LBA, NO_LBA;
    len := 0;
    a, x := 0, 0;
    var i := 0;
    while i < |parts|
      invariant 0 <= i <= |parts| && blkStart2 == NO_LBA
      invariant blkStart1 == NO_LBA ==> len <= 0 && forall j :: 0 <= j < i ==> !GoodHeader(d, parts[j])
      invariant blkStart1 != NO_LBA ==> a < i && First(d, parts, a) && blkStart1 == parts[a] && NoLater(d, parts, a, i)
    {
      if blkStart1 == NO_LBA {
        blkStart1 := parts[i];
        len := LoadImage(d, mem, blkStart1, true, 0x200);
        a := i;
        if len <= 0 {
          blkStart1 := NO_LBA;
        }
      } else {
        blkStart2 := parts[i];
        len := LoadImage(d, mem, blkStart2, false, UBOOT_MAX_LEN);
        if len > 0 {
          x := i;
          break;
        }
        blkStart2 := NO_LBA;
        NoLaterStep(d, parts, a, i);
      }
      i := i + 1;
    }
    if blkStart2 == NO_LBA && blkStart1 != NO_LBA {
      len := LoadImage(d, mem, blkStart1, false, UBOOT_MAX_LEN);
      x := a;
    }
    if len <= 0 && blkStart1 != NO_LBA {
      NothingSelected(d, parts, a);
    }
  }

  lemma SelectedFirst(d: Emmc, parts: seq<nat>, a: nat, a': nat)
    requires First(d, parts, a) && First(d, parts, a')
    ensures a == a'
  {
  }

  lemma NothingSelected(d: Emmc, parts: seq<nat>, a: nat)
    requires First(d, parts, a) && NoLater(d, parts, a, |parts|) && !GoodImage(d, parts[a], UBOOT_MAX_LEN)
    ensures forall a': nat, x': nat :: !Selected(d, parts, a', x')
  {
    forall a': nat, x': nat ensures !Selected(d, parts, a', x') {
      if Selected(d, parts, a', x') {
        SelectedFirst(d, parts, a, a');
      }
    }
  }
}
