/** The checksums of lib/image.c: `sum32` and the two checks built on it. */
module ImageSum {
  import opened Bytes
  import opened DivMod

  const HDR := 64           // bytes of an image header
  const AT_HCRC := 4        // offsets of its big-endian fields
  const AT_SIZE := 12
  const AT_DCRC := 24

  function Be32(s: seq<byte>, i: nat): (w: nat)
    requires i + 4 <= |s|
    ensures w < TWO_32
  {
    (s[i + 3] as int) + 0x100 * ((s[i + 2] as int) + 0x100 * ((s[i + 1] as int) + 0x100 * (s[i] as int)))
  }

  /** A big-endian word of a buffer is the number that its bytes hold. */
  lemma {:induction false} Be32IsBeNat(s: seq<byte>, i: nat)
    requires i + 4 <= |s|
    ensures Be32(s, i) == BeNat(s[i..i + 4])
  {
    var w := s[i..i + 4];
    var w3, w2, w1 := w[..3], w[..2], w[..1];
    assert w3[..2] == w2 && w2[..1] == w1 && w1[..0] == [];
    assert BeNat(w1) == w[0] as int;
    assert BeNat(w2) == BeNat(w1) * 0x100 + w[1] as int;
    assert BeNat(w3) == BeNat(w2) * 0x100 + w[2] as int;
  }

  function Be32Bytes(w: nat): (s: seq<byte>)
    requires w < TWO_32
    ensures |s| == 4 && Be32(s, 0) == w
  {
    var w1 := w / 0x100;
    var w2 := w1 / 0x100;
    [w2 / 0x100, w2 % 0x100, w1 % 0x100, w % 0x100]
  }

  /** An image header (include/image.h); `kind` has its system, architecture, type and compression. */
  datatype Header = Header(magic: nat, hcrc: nat, time: nat, size: nat, load: nat, entry: nat, dcrc: nat,
                           kind: seq<byte>, name: seq<byte>) {
    predicate Valid() {
      && magic < TWO_32 && hcrc < TWO_32 && time < TWO_32 && size < TWO_32 && load < TWO_32 && entry < TWO_32
      && dcrc < TWO_32 && |kind| == 4 && |name| == 32
    }

    /** The header as it is stored. */
    function Stored(): seq<byte>
      requires Valid()
    {
      Be32Bytes(magic) + Be32Bytes(hcrc) + Be32Bytes(time) + Be32Bytes(size) + Be32Bytes(load) + Be32Bytes(entry)
      + Be32Bytes(dcrc) + kind + name
    }
  }

  /** Where the fields are that the loader reads. */
  lemma FieldsOfHeader(h: Header)
    requires h.Valid()
    ensures var s := h.Stored();
            && |s| == HDR && Be32(s, 0) == h.magic && Be32(s, AT_HCRC) == h.hcrc && Be32(s, AT_SIZE) == h.size
            && Be32(s, AT_DCRC) == h.dcrc && s[32..] == h.name
            && Blanked(s) == h.(hcrc := 0).Stored()
  {
    var s, b := h.Stored(), h.(hcrc := 0).Stored();
    assert s[0..4] == Be32Bytes(h.magic) && s[4..8] == Be32Bytes(h.hcrc);
    assert s[12..16] == Be32Bytes(h.size) && s[24..28] == Be32Bytes(h.dcrc);
    assert Be32Bytes(0) == [0, 0, 0, 0];
    assert Blanked(s) == b;
  }

  /** The header's checksum is that of the header with the field 0. */
  lemma HeaderSumIs(h: Header)
    requires h.Valid()
    ensures |h.Stored()| == HDR
    ensures HeaderSumHolds(h.Stored()) <==> h.hcrc == Checksum(h.(hcrc := 0).Stored())
  {
    FieldsOfHeader(h);
  }

  /** Data zero-padded to whole words. */
  function ZeroPadded(d: seq<byte>): (p: seq<byte>)
    ensures |p| % 4 == 0 && |d| <= |p| < |d| + 4
  {
    if |d| % 4 == 0 then d else d + seq(4 - |d| % 4, i => 0)
  }

  /** The sum of little-endian words. */
  function WordSum(p: seq<byte>): nat
    requires |p| % 4 == 0
  {
    if p == [] then 0 else Le32(p, 0) + WordSum(p[4..])
  }

  /** What `sum32` is for: words of the padded data, added modulo 2^32. */
  function Checksum(d: seq<byte>): (c: nat)
    ensures c < TWO_32
  {
    WordSum(ZeroPadded(d)) % TWO_32
  }

  lemma {:induction false} WordSumSnoc(p: seq<byte>, w: seq<byte>)
    requires |p| % 4 == 0 && |w| == 4
    ensures WordSum(p + w) == WordSum(p) + Le32(w, 0)
  {
    if p == [] {
      assert p + w == w && WordSum(w[4..]) == 0;
    } else {
      WordSumSnoc(p[4..], w);
      assert (p + w)[4..] == p[4..] + w;
      assert Le32(p + w, 0) == Le32(p, 0);
    }
  }

  lemma AddMod(a: nat, x: nat)
    ensures (a % TWO_32 + x) % TWO_32 == (a + x) % TWO_32
  {
  }

  lemma SumOfParts(a: nat, b: nat, c: nat)
    ensures ((a + b) % TWO_32 + c) % TWO_32 == (a + (b + c) % TWO_32) % TWO_32
  {
    AddMod(a + b, c);
    AddMod(b + c, a);
  }

  /** The words' sum is the number the data holds, modulo 2^32 - 1. */
  lemma {:induction false} WordSumIsNumber(p: seq<byte>)
    requires |p| % 4 == 0
    ensures WordSum(p) % (TWO_32 - 1) == LeNat(p) % (TWO_32 - 1)
    decreases |p|
  {
    if p != [] {
      WordSumIsNumber(p[4..]);
      LeNatTwo(p);
      LeNatTwo(p[2..]);
      assert p[2..][2..] == p[4..];
      FullWrap(Le32(p, 0), WordSum(p[4..]), LeNat(p[4..]));
    }
  }

  lemma FullWrap(w: nat, s: nat, n: nat)
    requires s % (TWO_32 - 1) == n % (TWO_32 - 1)
    ensures (w + s) % (TWO_32 - 1) == (w + TWO_32 * n) % (TWO_32 - 1)
  {
    var m := TWO_32 - 1;
    var q, q' := s / m, n / m;
    assert w + TWO_32 * n == (n - q + q') * m + (w + s);
    DivShift(n - q + q', w + s, m);
  }

  /** `sum` is `sum0` and the words of d[..pos). */
  ghost predicate Summed(d: seq<byte>, pos: nat, sum0: nat, sum: nat) {
    pos <= |d| && pos % 4 == 0 && sum == (sum0 + WordSum(d[..pos])) % TWO_32
  }

  lemma NoWordYet(d: seq<byte>, sum0: nat)
    requires sum0 < TWO_32
    ensures Summed(d, 0, sum0, sum0)
  {
    assert d[..0] == [];
  }

  /** One word of the word loop. */
  lemma NextWord(d: seq<byte>, pos: nat, sum0: nat, sum: nat)
    requires Summed(d, pos, sum0, sum) && pos + 4 <= |d|
    ensures Summed(d, pos + 4, sum0, (sum + Le32(d[pos..pos + 4], 0)) % TWO_32)
  {
    assert d[..pos + 4] == d[..pos] + d[pos..pos + 4];
    WordSumSnoc(d[..pos], d[pos..pos + 4]);
    AddMod(sum0 + WordSum(d[..pos]), Le32(d[pos..pos + 4], 0));
  }

  method AddWord(mem: array<byte>, at: nat, pos: nat, len0: nat, ghost sum0: nat, sum: nat) returns (sum': nat)
    requires pos + 4 <= len0 && at + len0 <= mem.Length && Summed(mem[at..at + len0], pos, sum0, sum)
    ensures Summed(mem[at..at + len0], pos + 4, sum0, sum')
  {
    NextWord(mem[at..at + len0], pos, sum0, sum);
    assert mem[at + pos..at + pos + 4] == mem[at..at + len0][pos..pos + 4];
    sum' := (sum + Le32(mem[at + pos..at + pos + 4], 0)) % TWO_32;
  }

  /** `sum32`. The word loop ends because pos + 4 does not wrap, see GuardStops. */
  method Sum32(sum0: nat, mem: array<byte>, at: nat, len0: nat) returns (sum: nat)
    requires sum0 < TWO_32 && len0 < 0xFFFF_FFFC && at + len0 <= mem.Length
    ensures sum == (sum0 + Checksum(mem[at..at + len0])) % TWO_32
  {
    var pos: nat := 0;
    sum := sum0;
    NoWordYet(mem[at..at + len0], sum0);
    while Wrap32(pos + 4) <= len0
      invariant pos <= len0 && Summed(mem[at..at + len0], pos, sum0, sum)
      decreases len0 - pos
    {
      sum := AddWord(mem, at, pos, len0, sum0, sum);
      pos := pos + 4;
    }
    var val := TailWord(mem, at, pos, len0);
    FinalSum(mem[at..at + len0], pos, sum0, sum, val);
    sum := (sum + val) % TWO_32;
  }

  lemma FinalSum(d: seq<byte>, pos: nat, sum0: nat, sum: nat, val: nat)
    requires Summed(d, pos, sum0, sum) && |d| < pos + 4 && val == LeNat(d[pos..])
    ensures (sum + val) % TWO_32 == (sum0 + Checksum(d)) % TWO_32
  {
    LastWord(d, pos);
    SumOfParts(sum0, WordSum(d[..pos]), val);
  }

  /** The second loop of `sum32`: the bytes behind the last whole word. */
  method TailWord(mem: array<byte>, at: nat, pos: nat, len0: nat) returns (val: nat)
    requires pos <= len0 < pos + 4 && at + len0 <= mem.Length
    ensures val == LeNat(mem[at..at + len0][pos..])
  {
    val := 0;
    var len: nat := len0;
    ghost var d := mem[at..at + len0];
    while len - pos != 0
      invariant pos <= len <= len0
      invariant val == LeNat(d[len..])
    {
      assert d[len - 1..][1..] == d[len..];
      ShortBound(d[len..]);
      val := val * 0x100 % TWO_32 + mem[at + len - 1];
      len := len - 1;
    }
  }

  lemma {:induction false} ShortBound(s: seq<byte>)
    requires |s| < 3
    ensures LeNat(s) < 0x1_0000
  {
    if s != [] {
      ShortBound(s[1..]);
    }
    assert |s| == 2 ==> |s[1..]| == 1 && s[1..][1..] == [];
    assert |s| == 1 ==> s[1..] == [];
  }

  /** The bytes behind the last whole word are the word that zero padding makes of them. */
  lemma {:induction false} PartialIsPadded(r: seq<byte>, w: seq<byte>)
    requires 0 < |r| < 4 == |w| && w == r + seq(4 - |r|, i => 0)
    ensures Le32(w, 0) == LeNat(r)
  {
    assert LeNat([]) == 0;
    if |r| == 1 {
      assert w == [r[0], 0, 0, 0] && r[1..] == [];
    } else if |r| == 2 {
      assert w == [r[0], r[1], 0, 0] && r[1..][1..] == [];
      assert LeNat(r[1..]) == r[1] as int;
    } else {
      assert w == [r[0], r[1], r[2], 0] && r[1..][1..] == [r[2]] && [r[2]][1..] == [];
      assert LeNat(r[1..]) == (r[1] as int) + 0x100 * (r[2] as int);
    }
  }

  lemma LastWord(d: seq<byte>, pos: nat)
    requires pos <= |d| < pos + 4 && pos % 4 == 0
    ensures WordSum(ZeroPadded(d)) == WordSum(d[..pos]) + LeNat(d[pos..])
  {
    if pos == |d| {
      assert d[..pos] == d;
    } else {
      var w := d[pos..] + seq(4 - |d[pos..]|, i => 0);
      assert ZeroPadded(d) == d[..pos] + w;
      WordSumSnoc(d[..pos], w);
      PartialIsPadded(d[pos..], w);
    }
  }

  /** The word loop's guard turns false for some aligned position exactly for lengths below
      0xFFFFFFFC; for a longer one pos + 4 wraps and the loop never ends. */
  lemma GuardStops(len: nat)
    requires len < TWO_32
    ensures len < 0xFFFF_FFFC <==> exists pos: nat :: pos % 4 == 0 && pos < TWO_32 && Wrap32(pos + 4) > len
  {
    if len < 0xFFFF_FFFC {
      var pos := len / 4 * 4;
      assert pos % 4 == 0 && pos < TWO_32 && Wrap32(pos + 4) > len;
    } else {
      forall pos: nat | pos % 4 == 0 && pos < TWO_32 ensures Wrap32(pos + 4) <= len {
        assert pos + 4 < TWO_32 ==> pos + 4 <= 0xFFFF_FFFC;
      }
    }
  }

  /** Only bytes of the aligned word w may differ. */
  ghost predicate SameOutsideWord(a: seq<byte>, b: seq<byte>, w: nat) {
    |a| == |b| && forall i :: 0 <= i < |a| && i / 4 != w ==> a[i] == b[i]
  }

  lemma {:induction false} WordSumHead(a: seq<byte>)
    requires |a| % 4 == 0 && a != []
    ensures WordSum(a) == Le32(a[..4], 0) + WordSum(a[4..]) && a == a[..4] + a[4..]
  {
  }

  lemma {:induction false} WordSumDiffers(a: seq<byte>, b: seq<byte>, w: nat)
    requires |a| % 4 == 0 && SameOutsideWord(a, b, w) && a != b
    ensures WordSum(a) % TWO_32 != WordSum(b) % TWO_32
    decreases w
  {
    WordSumHead(a);
    WordSumHead(b);
    if w == 0 {
      assert a[4..] == b[4..];
      if Le32(a[..4], 0) == Le32(b[..4], 0) {
        Le32Injective(a[..4], b[..4]);
      }
      ModDiffers(Le32(a[..4], 0), Le32(b[..4], 0), WordSum(a[4..]));
    } else {
      assert a[..4] == b[..4];
      DropWord(a, b, w);
      WordSumDiffers(a[4..], b[4..], w - 1);
      ModShift(Le32(a[..4], 0), WordSum(a[4..]), WordSum(b[4..]));
    }
  }

  lemma DropWord(a: seq<byte>, b: seq<byte>, w: nat)
    requires |a| >= 4 && w > 0 && SameOutsideWord(a, b, w)
    ensures SameOutsideWord(a[4..], b[4..], w - 1)
  {
    forall i | 0 <= i < |a[4..]| && i / 4 != w - 1 ensures a[4..][i] == b[4..][i] {
      assert (i + 4) / 4 != w;
    }
  }

  lemma ModDiffers(x: nat, y: nat, s: nat)
    requires x < TWO_32 && y < TWO_32 && x != y
    ensures (x + s) % TWO_32 != (y + s) % TWO_32
  {
  }

  lemma ModShift(x: nat, s: nat, t: nat)
    requires s % TWO_32 != t % TWO_32
    ensures (x + s) % TWO_32 != (x + t) % TWO_32
  {
  }

  lemma LowByte(x: byte, hx: int, y: byte, hy: int)
    requires (x as int) + 0x100 * hx == (y as int) + 0x100 * hy
    ensures x == y && hx == hy
  {
  }

  lemma Le32Injective(a: seq<byte>, b: seq<byte>)
    requires |a| == 4 == |b| && Le32(a, 0) == Le32(b, 0)
    ensures a == b
  {
    var a2, b2 := (a[2] as int) + 0x100 * (a[3] as int), (b[2] as int) + 0x100 * (b[3] as int);
    LowByte(a[0], (a[1] as int) + 0x100 * a2, b[0], (b[1] as int) + 0x100 * b2);
    LowByte(a[1], a2, b[1], b2);
    LowByte(a[2], a[3], b[2], b[3]);
  }

  /** Main result on data: a change confined to one aligned word changes the checksum. */
  lemma OneWordChangeShows(a: seq<byte>, b: seq<byte>, w: nat)
    requires SameOutsideWord(a, b, w) && a != b
    ensures Checksum(a) != Checksum(b)
  {
    var p, q := ZeroPadded(a), ZeroPadded(b);
    assert p[..|a|] == a && q[..|b|] == b;
    forall i | 0 <= i < |p| && i / 4 != w ensures p[i] == q[i] {
      assert i < |a| ==> p[i] == a[i] && q[i] == b[i];
    }
    WordSumDiffers(p, q, w);
  }

  /** A header with its own checksum field blanked. */
  function Blanked(h: seq<byte>): (b: seq<byte>)
    requires |h| == HDR
    ensures |b| == HDR
  {
    h[..AT_HCRC] + [0, 0, 0, 0] + h[AT_HCRC + 4..]
  }

  /** A header sealed with the byte-swapped sum of itself, the checksum blanked. */
  function Sealed(h: seq<byte>): (b: seq<byte>)
    requires |h| == HDR
    ensures |b| == HDR
  {
    h[..AT_HCRC] + Be32Bytes(Checksum(Blanked(h))) + h[AT_HCRC + 4..]
  }

  predicate HeaderSumHolds(h: seq<byte>)
    requires |h| == HDR
  {
    Checksum(Blanked(h)) == Be32(h, AT_HCRC)
  }

  lemma Be32Injective(a: seq<byte>, b: seq<byte>)
    requires |a| == 4 == |b| && Be32(a, 0) == Be32(b, 0)
    ensures a == b
  {
    var a1, b1 := (a[1] as int) + 0x100 * (a[0] as int), (b[1] as int) + 0x100 * (b[0] as int);
    LowByte(a[3], (a[2] as int) + 0x100 * a1, b[3], (b[2] as int) + 0x100 * b1);
    LowByte(a[2], a1, b[2], b1);
    LowByte(a[1], a[0], b[1], b[0]);
  }

  /** Main result on headers: sealing is accepted, and nothing else is. */
  lemma AcceptedIffSealed(h: seq<byte>)
    requires |h| == HDR
    ensures HeaderSumHolds(Sealed(h))
    ensures HeaderSumHolds(h) <==> h == Sealed(h)
  {
    var s := Sealed(h);
    assert Blanked(s) == Blanked(h);
    assert s[AT_HCRC..AT_HCRC + 4] == Be32Bytes(Checksum(Blanked(h)));
    assert Be32(s, AT_HCRC) == Be32(s[AT_HCRC..AT_HCRC + 4], 0);
    assert Be32(h, AT_HCRC) == Be32(h[AT_HCRC..AT_HCRC + 4], 0);
    assert h == h[..AT_HCRC] + h[AT_HCRC..AT_HCRC + 4] + h[AT_HCRC + 4..];
    if HeaderSumHolds(h) {
      Be32Injective(h[AT_HCRC..AT_HCRC + 4], s[AT_HCRC..AT_HCRC + 4]);
    }
  }

  /** `image_check_hcrc`, on a copy of the header with the field blanked. */
  method CheckHcrc(mem: array<byte>, hdr: nat) returns (ok: bool)
    requires hdr + HDR <= mem.Length
    ensures ok <==> HeaderSumHolds(mem[hdr..hdr + HDR])
  {
    var header := CopyBlanked(mem, hdr);
    var hcrc := Sum32(0, header, 0, HDR);
    assert header[0..HDR] == header[..];
    ok := hcrc == Be32(mem[hdr..hdr + HDR], AT_HCRC);
  }

  method CopyBlanked(mem: array<byte>, hdr: nat) returns (header: array<byte>)
    requires hdr + HDR <= mem.Length
    ensures fresh(header) && header.Length == HDR && header[..] == Blanked(mem[hdr..hdr + HDR])
  {
    header := new byte[HDR];
    for i := 0 to HDR
      invariant forall j :: 0 <= j < i ==> header[j] == mem[hdr + j]
    {
      header[i] := mem[hdr + i];
    }
    header[AT_HCRC], header[AT_HCRC + 1], header[AT_HCRC + 2], header[AT_HCRC + 3] := 0, 0, 0, 0;
  }

  /** `image_check_dcrc`. */
  method CheckDcrc(mem: array<byte>, hdr: nat) returns (ok: bool)
    requires hdr + HDR <= mem.Length && HeaderField(mem, hdr, AT_SIZE) < 0xFFFF_FFFC
    requires hdr + HDR + HeaderField(mem, hdr, AT_SIZE) <= mem.Length
    ensures ok <==> Checksum(mem[hdr + HDR..hdr + HDR + HeaderField(mem, hdr, AT_SIZE)])
                    == HeaderField(mem, hdr, AT_DCRC)
  {
    var len, stored := HeaderField(mem, hdr, AT_SIZE), HeaderField(mem, hdr, AT_DCRC);
    var dcrc := SumOf(mem, hdr + HDR, len);
    ok := dcrc == stored;
  }

  /** A big-endian field of the header at `hdr`. */
  function HeaderField(mem: array<byte>, hdr: nat, at: nat): (f: nat)
    requires hdr + HDR <= mem.Length && at + 4 <= HDR
    reads mem
    ensures f < TWO_32 && f == Be32(mem[hdr..hdr + HDR], at)
  {
    Be32(mem[hdr..hdr + HDR], at)
  }

  method SumOf(mem: array<byte>, at: nat, len: nat) returns (sum: nat)
    requires len < 0xFFFF_FFFC && at + len <= mem.Length
    ensures sum == Checksum(mem[at..at + len])
  {
    sum := Sum32(0, mem, at, len);
  }
}
