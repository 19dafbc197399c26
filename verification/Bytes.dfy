/** Bytes, little-endian words and the bit operations of 32-bit code on natural numbers. */
module Bytes {
  import opened DivMod

  type byte = b: int | 0 <= b < 256

  const TWO_32 := 0x1_0000_0000
  const BLOCK := 512            // bytes of a block of a storage device
  const CSW_SIZE := 13          // bytes of the status wrapper of the USB bulk-only transport

  /** The value of an unsigned 32-bit computation. */
  function Wrap32(x: int): (r: nat)
    ensures r < TWO_32
    ensures 0 <= x < TWO_32 ==> r == x
  {
    x % TWO_32
  }

  /** A 32-bit word read as a signed int. */
  function AsInt(x: nat): (r: int)
    ensures x < TWO_32 ==> -0x8000_0000 <= r < 0x8000_0000 && (x - r) % TWO_32 == 0
  {
    if x < 0x8000_0000 then x else x - TWO_32
  }

  function Pow2(e: nat): (r: nat)
    ensures r > 0
  {
    if e == 0 then 1 else 2 * Pow2(e - 1)
  }

  /** Shift right. */
  function Shr(x: nat, e: nat): nat {
    DivNonNegative(x, Pow2(e));
    x / Pow2(e)
  }

  /** Bitwise and. */
  function BitAnd(a: nat, b: nat): nat {
    if a == 0 || b == 0 then 0 else (a % 2) * (b % 2) + 2 * BitAnd(a / 2, b / 2)
  }

  lemma ModDouble(x: nat, h: nat)
    requires h > 0
    ensures x % (2 * h) == 2 * (x / 2 % h) + x % 2
  {
    var q, r := x / 2 / h, x / 2 % h;
    assert q * (2 * h) == 2 * (q * h);
    DivModUnique(x, 2 * h, q, 2 * r + x % 2);
  }

  lemma BelowDouble(h: nat)
    requires h > 0
    ensures (2 * h - 1) / 2 == h - 1 && (2 * h - 1) % 2 == 1
  {
  }

  /** X & (2^n - 1) == X mod 2^n. */
  lemma {:induction false} MaskIsMod(x: nat, e: nat)
    ensures BitAnd(x, Pow2(e) - 1) == x % Pow2(e)
  {
    if x == 0 {
      DivModUnique(0, Pow2(e), 0, 0);
    } else if e > 0 {
      var h: nat := Pow2(e - 1);
      MaskIsMod(x / 2, e - 1);
      ModDouble(x, h);
      BelowDouble(h);
      LowBit(x, 2 * h - 1);
    }
  }

  /** With an odd mask the lowest bit stays. */
  lemma {:induction false} LowBit(x: nat, b: nat)
    requires x > 0 && b % 2 == 1
    ensures BitAnd(x, b) == x % 2 + 2 * BitAnd(x / 2, b / 2)
  {
  }

  lemma {:induction false} Pow2Add(a: nat, b: nat)
    ensures Pow2(a + b) == Pow2(a) * Pow2(b)
  {
    if a > 0 {
      Pow2Add(a - 1, b);
    }
  }

  /** The number a little-endian buffer holds. */
  function LeNat(s: seq<byte>): nat {
    if s == [] then 0 else (s[0] as int) + 0x100 * LeNat(s[1..])
  }

  /** The number a big-endian buffer holds. */
  function BeNat(s: seq<byte>): nat {
    if s == [] then 0 else BeNat(s[..|s| - 1]) * 0x100 + s[|s| - 1] as int
  }

  function Le16(s: seq<byte>, i: nat): nat
    requires i + 2 <= |s|
  {
    (s[i] as int) + 0x100 * (s[i + 1] as int)
  }

  function Le32(s: seq<byte>, i: nat): (w: nat)
    requires i + 4 <= |s|
    ensures w < TWO_32
  {
    (s[i] as int) + 0x100 * ((s[i + 1] as int) + 0x100 * ((s[i + 2] as int) + 0x100 * (s[i + 3] as int)))
  }

  lemma {:induction false} LeNatTwo(s: seq<byte>)
    requires |s| >= 2
    ensures LeNat(s) == (s[0] as int) + 0x100 * (s[1] as int) + 0x1_0000 * LeNat(s[2..])
  {
    assert s[1..][1..] == s[2..];
  }

  /** A word of a buffer is the number that its bytes hold. */
  lemma TwoBytes(s: seq<byte>, i: nat)
    requires i + 2 <= |s|
    ensures Le16(s, i) == LeNat([s[i], s[i + 1]])
  {
    LeNatTwo([s[i], s[i + 1]]);
  }

  lemma FourBytes(s: seq<byte>, i: nat)
    requires i + 4 <= |s|
    ensures Le32(s, i) == LeNat([s[i], s[i + 1], s[i + 2], s[i + 3]])
  {
    var w := [s[i], s[i + 1], s[i + 2], s[i + 3]];
    LeNatTwo(w);
    LeNatTwo(w[2..]);
  }

  /** Byte k of a little-endian buffer is worth 256^k. */
  lemma {:induction false} LeNatDigit(s: seq<byte>, k: nat)
    requires k < |s|
    ensures LeNat(s) / Pow2(8 * k) % 0x100 == s[k]
    decreases k
  {
    if k > 0 {
      LeNatDigit(s[1..], k - 1);
      Pow2Add(8, 8 * k - 8);
      Pow2Eight();
      assert LeNat(s) / 0x100 == LeNat(s[1..]);
      DivTwice(LeNat(s), 0x100, Pow2(8 * k - 8));
    }
  }

  lemma Pow2Eight()
    ensures Pow2(8) == 0x100
  {
    assert Pow2(4) == 16;
  }
}
