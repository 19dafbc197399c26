/** SHA3-512 as common/verify_image_sp7350_hw.c prepares it for the hash engine: byte-wise
    padding and absorption in batches. The permutation is a parameter. */
module Sha3 {
  import opened Bytes
  import opened DivMod

  const STATE := 200
  const DIGEST := 64
  const RATE := 72                          // STATE - 2 * DIGEST
  const BATCH := 0xFFFF / (RATE * 4) * (RATE * 4)

  /** One absorption step: xor of a block into the state, then Keccak-f. */
  type Step = (seq<byte>, seq<byte>) -> seq<byte>

  ghost predicate IsStep(f: Step) {
    forall s, b :: |f(s, b)| == STATE
  }

  function Zeros(n: nat): (z: seq<byte>)
    ensures |z| == n && forall i :: 0 <= i < n ==> z[i] == 0
  {
    seq(n, i => 0)
  }

  /** The padding bytes of a message that leaves n bytes of its last block free. */
  function PadBytes(n: nat): (p: seq<byte>)
    requires n > 0
    ensures |p| == n
  {
    if n == 1 then [0x86] else [0x06] + Zeros(n - 2) + [0x80]
  }

  predicate Whole(len: nat) {
    len % RATE == 0
  }

  /** The bytes that a message of this length leaves free in its last block. */
  function Free(len: nat): (n: nat)
    ensures 0 < n <= RATE
  {
    RATE - len % RATE
  }

  lemma PaddedIsWhole(len: nat, padded: nat)
    requires padded == len + Free(len)
    ensures Whole(padded)
  {
    assert padded == RATE * (len / RATE + 1);
  }

  function Pad(m: seq<byte>): (p: seq<byte>)
    ensures |p| % RATE == 0 && |m| < |p| <= |m| + RATE
  {
    PaddedIsWhole(|m|, |m| + Free(|m|));
    m + PadBytes(Free(|m|))
  }

  /** Drops the padding again. */
  function Unpad(p: seq<byte>): seq<byte>
    requires p != []
  {
    var body := p[..|p| - 1];
    if p[|p| - 1] == 0x86 then body else DropMark(body)
  }

  /** Drops trailing zeros and the byte before them. */
  function DropMark(s: seq<byte>): seq<byte> {
    if s == [] then s else if s[|s| - 1] == 0 then DropMark(s[..|s| - 1]) else s[..|s| - 1]
  }

  lemma {:induction false} DropMarkZeros(s: seq<byte>, x: byte, n: nat)
    requires x != 0
    ensures DropMark(s + [x] + Zeros(n)) == s
  {
    var t := s + [x] + Zeros(n);
    if n == 0 {
      assert t == s + [x];
    } else {
      assert t[..|t| - 1] == s + [x] + Zeros(n - 1);
      DropMarkZeros(s, x, n - 1);
    }
  }

  lemma UnpadPadBytes(m: seq<byte>, n: nat)
    requires n > 0
    ensures Unpad(m + PadBytes(n)) == m
  {
    var p := m + PadBytes(n);
    if n == 1 {
      assert p[..|p| - 1] == m;
    } else {
      assert p == m + [0x06] + Zeros(n - 2) + [0x80];
      assert p[..|p| - 1] == m + [0x06] + Zeros(n - 2);
      DropMarkZeros(m, 0x06, n - 2);
    }
  }

  lemma UnpadPad(m: seq<byte>)
    ensures Unpad(Pad(m)) == m
  {
    UnpadPadBytes(m, Free(|m|));
  }

  /** No two messages share a padded form. */
  lemma PadInjective(a: seq<byte>, b: seq<byte>)
    ensures Pad(a) == Pad(b) ==> a == b
  {
    UnpadPad(a);
    UnpadPad(b);
  }

  /** Applies g to every byte and joins the results. */
  function FlatMap(g: byte -> seq<bool>, s: seq<byte>): seq<bool> {
    if s == [] then [] else g(s[0]) + FlatMap(g, s[1..])
  }

  /** Bits of a byte, least significant first (FIPS 202, B.1). */
  function ByteBits(b: byte): seq<bool> {
    [b % 2 == 1, b / 2 % 2 == 1, b / 4 % 2 == 1, b / 8 % 2 == 1,
     b / 16 % 2 == 1, b / 32 % 2 == 1, b / 64 % 2 == 1, b / 128 % 2 == 1]
  }

  function Bits(s: seq<byte>): seq<bool> {
    FlatMap(ByteBits, s)
  }

  function Falses(n: nat): seq<bool> {
    seq(n, i => false)
  }

  /** FIPS 202 for SHA3-512, whose permutation works on 1600 bits and whose capacity is twice the
      512 bits of the digest: the suffix 01 of section 6.1, then pad10*1 of section 5.1. */
  function FipsPad(m: seq<byte>): seq<bool> {
    var x, bits := 1600 - 2 * 512, 8 * |m| + 2;
    var j := (-bits - 2) % x;
    Bits(m) + [false, true] + [true] + Falses(j) + [true]
  }

  lemma {:induction false} FlatMapConcat(g: byte -> seq<bool>, a: seq<byte>, b: seq<byte>)
    ensures FlatMap(g, a + b) == FlatMap(g, a) + FlatMap(g, b)
  {
    if a == [] {
      assert a + b == b;
    } else {
      FlatMapConcat(g, a[1..], b);
      assert (a + b)[1..] == a[1..] + b;
      Regroup(g(a[0]), FlatMap(g, a[1..]), FlatMap(g, b));
    }
  }

  lemma Regroup(a: seq<bool>, b: seq<bool>, c: seq<bool>)
    ensures a + (b + c) == a + b + c
  {
  }

  lemma BitsConcat(a: seq<byte>, b: seq<byte>)
    ensures Bits(a + b) == Bits(a) + Bits(b)
  {
    FlatMapConcat(ByteBits, a, b);
  }

  lemma {:induction false} BitsOfZeros(n: nat)
    ensures Bits(Zeros(n)) == Falses(8 * n)
  {
    if n > 0 {
      BitsOfZeros(n - 1);
      assert Zeros(n)[1..] == Zeros(n - 1);
      assert ByteBits(0) == Falses(8);
      assert Falses(8 * n) == Falses(8) + Falses(8 * (n - 1));
    }
  }

  lemma BitsOfByte(b: byte)
    ensures Bits([b]) == ByteBits(b)
  {
    assert FlatMap(ByteBits, [b][1..]) == [];
  }

  lemma BitsOfMarks()
    ensures ByteBits(0x06) == [false, true, true] + Falses(5)
    ensures ByteBits(0x80) == Falses(7) + [true]
    ensures ByteBits(0x86) == [false, true, true] + Falses(4) + [true]
  {
  }

  lemma FalsesConcat(a: nat, b: nat)
    ensures Falses(a) + Falses(b) == Falses(a + b)
  {
  }

  lemma JoinedFalses(a: nat, b: nat, c: nat)
    ensures [false, true, true] + Falses(a) + Falses(b) + (Falses(c) + [true])
            == [false, true] + [true] + Falses(a + b + c) + [true]
  {
    FalsesConcat(a, b);
    FalsesConcat(a + b, c);
  }

  lemma BitsOfPadBytes(n: nat)
    requires n > 0
    ensures Bits(PadBytes(n)) == [false, true] + [true] + Falses(8 * n - 4) + [true]
  {
    BitsOfMarks();
    if n == 1 {
      BitsOfByte(0x86);
    } else {
      BitsConcat([0x06] + Zeros(n - 2), [0x80]);
      BitsConcat([0x06], Zeros(n - 2));
      BitsOfByte(0x06);
      BitsOfByte(0x80);
      BitsOfZeros(n - 2);
      JoinedFalses(5, 8 * (n - 2), 7);
    }
  }

  /** The byte padding of the loader is the bit padding of the standard. */
  lemma PadIsFips(m: seq<byte>)
    ensures Bits(Pad(m)) == FipsPad(m)
  {
    var n := Free(|m|);
    BitsConcat(m, PadBytes(n));
    BitsOfPadBytes(n);
    DivModUnique(-(8 * |m| + 2) - 2, 8 * RATE, -(|m| / RATE) - 1, 8 * n - 4);
  }

  /** Absorbs whole blocks. */
  function Absorb(f: Step, s: seq<byte>, data: seq<byte>): seq<byte>
    requires |data| % RATE == 0
    decreases |data|
  {
    if data == [] then s else Absorb(f, f(s, data[..RATE]), data[RATE..])
  }

  lemma {:induction false} AbsorbConcat(f: Step, s: seq<byte>, a: seq<byte>, b: seq<byte>)
    requires |a| % RATE == 0 && |b| % RATE == 0
    ensures Absorb(f, s, a + b) == Absorb(f, Absorb(f, s, a), b)
    decreases |a|
  {
    if a == [] {
      assert a + b == b;
    } else {
      AbsorbConcat(f, f(s, a[..RATE]), a[RATE..], b);
      assert (a + b)[..RATE] == a[..RATE] && (a + b)[RATE..] == a[RATE..] + b;
    }
  }

  lemma {:induction false} AbsorbLength(f: Step, s: seq<byte>, data: seq<byte>)
    requires |data| % RATE == 0 && IsStep(f) && |s| == STATE
    ensures |Absorb(f, s, data)| == STATE
    decreases |data|
  {
    if data != [] {
      AbsorbLength(f, f(s, data[..RATE]), data[RATE..]);
    }
  }

  /** The state that has absorbed the padded message. */
  function Final(f: Step, m: seq<byte>): (s: seq<byte>)
    requires IsStep(f)
    ensures |s| == STATE
  {
    AbsorbLength(f, Zeros(STATE), Pad(m));
    Absorb(f, Zeros(STATE), Pad(m))
  }

  /** SHA3-512 of m: absorb the padded message, squeeze once (the digest fits the rate). */
  function Hash(f: Step, m: seq<byte>): (h: seq<byte>)
    requires IsStep(f)
    ensures |h| == DIGEST
  {
    Final(f, m)[..DIGEST]
  }

  /** The sponge of FIPS 202, section 4, on blocks of one rate each. */
  function Sponge(f: Step, s: seq<byte>, blocks: seq<seq<byte>>): seq<byte>
    decreases |blocks|
  {
    if blocks == [] then s else Sponge(f, f(s, blocks[0]), blocks[1..])
  }

  function Join(blocks: seq<seq<byte>>): seq<byte> {
    if blocks == [] then [] else blocks[0] + Join(blocks[1..])
  }

  /** Absorption takes blocks of 1600 - 2 * 512 bits. */
  lemma {:induction false} AbsorbsBlocks(f: Step, s: seq<byte>, data: seq<byte>) returns (blocks: seq<seq<byte>>)
    requires |data| % RATE == 0
    ensures Join(blocks) == data && (forall i :: 0 <= i < |blocks| ==> 8 * |blocks[i]| == 1600 - 2 * 512)
    ensures Absorb(f, s, data) == Sponge(f, s, blocks)
    decreases |data|
  {
    if data == [] {
      blocks := [];
    } else {
      var rest := AbsorbsBlocks(f, f(s, data[..RATE]), data[RATE..]);
      blocks := [data[..RATE]] + rest;
      assert blocks[1..] == rest;
    }
  }

  /** Main result: what the loader has the engine compute is SHA3-512 as FIPS 202 defines it, the
      first 512 bits of the sponge, from 1600 zero bits on, of the padded message. */
  lemma HashIsSha3(f: Step, m: seq<byte>) returns (zero: seq<byte>, blocks: seq<seq<byte>>)
    requires IsStep(f)
    ensures Bits(zero) == Falses(1600)
    ensures Bits(Join(blocks)) == FipsPad(m)
    ensures forall i :: 0 <= i < |blocks| ==> 8 * |blocks[i]| == 1600 - 2 * 512
    ensures Hash(f, m) <= Sponge(f, zero, blocks) && 8 * |Hash(f, m)| == 512
  {
    zero := Zeros(STATE);
    BitsOfZeros(STATE);
    blocks := AbsorbsBlocks(f, zero, Pad(m));
    PadIsFips(m);
  }
}
