/** How `fat_boot` of fat/fat_boot.c derives a volume from the fields of its boot sector. */
module FatMount {
  import opened Bytes
  import opened DivMod
  import opened FatVolume

  /** The fields of the boot sector that the loader reads; FAT32 has no fixed root directory. */
  datatype Bpb = Bpb(fatType: FatType, bytePerSect: nat, sectPerClus: nat, numOfReserveSect: nat, numFatCopy: nat,
                     sectPerFat: nat, rootEntCnt: nat)

  /** The sectors of the regions in front of the root directory: the reserved ones, then the copies of the FAT. */
  function Regions(b: Bpb): seq<nat> {
    [b.numOfReserveSect] + seq(b.numFatCopy, i => b.sectPerFat)
  }

  function Sum(s: seq<nat>): nat {
    if s == [] then 0 else s[0] + Sum(s[1..])
  }

  lemma {:induction false} SumOfCopies(n: nat, size: nat)
    ensures Sum(seq(n, i => size)) == n * size
  {
    var s := seq(n, i => size);
    if n > 0 {
      SumOfCopies(n - 1, size);
      assert s[1..] == seq(n - 1, i => size);
    }
  }

  lemma SumOfRegions(b: Bpb)
    ensures Sum(Regions(b)) == b.numOfReserveSect + b.sectPerFat * b.numFatCopy
  {
    SumOfCopies(b.numFatCopy, b.sectPerFat);
    assert Regions(b)[1..] == seq(b.numFatCopy, i => b.sectPerFat);
  }

  /** `n` sectors are just enough for the root directory's entries of 32 bytes. */
  predicate HoldsRoot(b: Bpb, n: nat) {
    (n - 1) * b.bytePerSect < 32 * b.rootEntCnt <= n * b.bytePerSect
  }

  /** The regions follow one another without a gap: the FAT behind the reserved sectors, the
      root directory behind all copies of the FAT, the data behind the root directory. */
  ghost predicate Laid(b: Bpb, start: nat, v: Volume) {
    && v.fat1Sect == start + b.numOfReserveSect
    && (v.fatType.Fat32? ==> v.DataStart() == start + Sum(Regions(b)))
    && (v.fatType.Fat16? ==> v.rootSectStart == start + Sum(Regions(b)) && HoldsRoot(b, v.rootSect)
                             && v.DataStart() == v.rootSectStart + v.rootSect)
  }

  lemma RootFits(b: Bpb, n: nat)
    requires b.bytePerSect > 0 && n == (b.rootEntCnt * 32 + b.bytePerSect - 1) / b.bytePerSect
    ensures HoldsRoot(b, n)
  {
    var x, m := b.rootEntCnt * 32 + b.bytePerSect - 1, b.bytePerSect;
    assert x == n * m + x % m;
    Distribute(1, n, m);
    assert (n - 1) * m == n * m - m;
  }

  /** The exponent of a sector size that is a power of two. */
  method Log2(size: nat) returns (power: nat)
    ensures forall e :: size == Pow2(e) ==> power == e
    ensures size > 0 ==> Pow2(power) <= size < 2 * Pow2(power)
  {
    var tmp := size;
    power := 0;
    while tmp > 1
      invariant size > 0 ==> tmp > 0 && tmp * Pow2(power) <= size < (tmp + 1) * Pow2(power)
      invariant size == 0 ==> tmp == 0 && power == 0
    {
      Halve(tmp, Pow2(power), size);
      tmp := tmp / 2;
      power := power + 1;
    }
    forall e | size == Pow2(e) ensures power == e {
      OnlyPower(e, power);
    }
  }

  lemma Halve(tmp: nat, p: nat, size: nat)
    requires tmp * p <= size < (tmp + 1) * p
    ensures tmp / 2 * (2 * p) <= size < (tmp / 2 + 1) * (2 * p)
  {
    var h := tmp / 2;
    MulMonotone(2 * h, tmp, p);
    MulMonotone(tmp + 1, 2 * h + 2, p);
    assert h * (2 * p) == 2 * h * p && (h + 1) * (2 * p) == (2 * h + 2) * p;
  }

  lemma {:induction false} OnlyPower(e: nat, p: nat)
    requires Pow2(p) <= Pow2(e) < 2 * Pow2(p)
    ensures e == p
  {
    if e > 0 && p > 0 {
      OnlyPower(e - 1, p - 1);
    }
  }

  /** Sizes as FAT has them. */
  predicate SizesOfFat(b: Bpb) {
    b.bytePerSect in {512, 1024, 2048, 4096} && b.sectPerClus in {1, 2, 4, 8, 16, 32, 64, 128}
  }

  /** Main result: `fat_boot` finds the regions where the boot sector puts them, as long as
      the sector numbers fit 32 bits, and a volume of such sizes is valid. */
  method Mount(b: Bpb, startSector: nat, disk: nat -> seq<byte>) returns (v: Volume)
    requires b.fatType.Fat16? ==> b.bytePerSect > 0
    ensures v.fatType == b.fatType && v.bytePerSect == b.bytePerSect && v.sectPerClus == b.sectPerClus
    ensures v.start == startSector && v.disk == disk
    ensures startSector + Sum(Regions(b)) < TWO_32 ==> Laid(b, startSector, v)
    ensures (forall n :: |disk(n)| == BLOCK) && SizesOfFat(b) ==> v.Valid()
  {
    SumOfRegions(b);
    var power := Log2(b.bytePerSect);
    var fat1Sect := Wrap32(startSector + b.numOfReserveSect);
    if b.fatType.Fat32? {
      var clust0Sect := Wrap32(fat1Sect + b.sectPerFat * b.numFatCopy);
      v := Volume(b.fatType, b.bytePerSect, power, b.sectPerClus, startSector, fat1Sect, clust0Sect, 0, 0, disk);
    } else {
      var rootSectStart := Wrap32(startSector + b.numOfReserveSect + b.sectPerFat * b.numFatCopy);
      DivNonNegative(b.rootEntCnt * 32 + b.bytePerSect - 1, b.bytePerSect);
      var rootSect := (b.rootEntCnt * 32 + b.bytePerSect - 1) / b.bytePerSect;
      RootFits(b, rootSect);
      v := Volume(b.fatType, b.bytePerSect, power, b.sectPerClus, startSector, fat1Sect, 0, rootSectStart, rootSect,
                  disk);
    }
    PowersOfTwo();
  }

  lemma PowersOfTwo()
    ensures Pow2(0) == 1 && Pow2(1) == 2 && Pow2(2) == 4 && Pow2(3) == 8 && Pow2(4) == 16 && Pow2(5) == 32
    ensures Pow2(6) == 64 && Pow2(7) == 128 && Pow2(9) == 512 && Pow2(10) == 1024 && Pow2(11) == 2048
    ensures Pow2(12) == 4096
  {
    assert Pow2(3) == 8;
    assert Pow2(6) == 64;
    assert Pow2(9) == 512;
  }
}
