/** `mont_w` of common/verify_image_sp7350_hw.c: the word w with w * N = -1 (mod 2^64) that
    the RSA engine needs, from the low word of the modulus alone. */
module MontInverse {
  import opened Bytes
  import opened DivMod

  const WORD := 0x1_0000_0000_0000_0000
  const ITERATIONS := 62

  function Pow(b: nat, e: nat): nat {
    if e == 0 then 1 else b * Pow(b, e - 1)
  }

  lemma {:induction false} PowAdd(b: nat, d: nat, e: nat)
    ensures Pow(b, d + e) == Pow(b, d) * Pow(b, e)
  {
    if d > 0 {
      PowAdd(b, d - 1, e);
      MulAssoc(b, Pow(b, d - 1), Pow(b, e));
    }
  }

  /** The loop variable after k iterations. */
  function Iterate(n: nat, k: nat): (t: nat)
    ensures t < WORD
  {
    if k == 0 then 1 else Iterate(n, k - 1) * Iterate(n, k - 1) * n % WORD
  }

  lemma ModBothFactors(a: int, b: int, m: int)
    requires m > 0
    ensures (a % m) * (b % m) % m == a * b % m
  {
    ModMul(a, b % m, m);
    ModMul(b, a, m);
    assert a * (b % m) == (b % m) * a && a * b == b * a;
  }

  /** t_k * N = N^(2^k) (mod 2^64). */
  lemma {:induction false} IterateIsPower(n: nat, k: nat)
    ensures Iterate(n, k) * n % WORD == Pow(n, Pow2(k)) % WORD
  {
    if k == 0 {
      assert Pow(n, 1) == n * Pow(n, 0);
    } else {
      var t, p := Iterate(n, k - 1), Pow(n, Pow2(k - 1));
      IterateIsPower(n, k - 1);
      PowAdd(n, Pow2(k - 1), Pow2(k - 1));
      ModMul(t * t * n, n, WORD);
      assert t * t * n * n == (t * n) * (t * n) by {
        MulAssoc(t, n, t * n);
        MulAssoc(t, t, n);
        MulAssoc(n, t, n);
        assert t * n == n * t;
        SquareShape(t, n);
      }
      ModBothFactors(t * n, t * n, WORD);
      ModBothFactors(p, p, WORD);
    }
  }

  lemma SquareShape(t: nat, n: nat)
    ensures t * t * n * n == (t * n) * (t * n)
  {
  }

  /** Squaring a number that is 1 modulo 2^j makes it 1 modulo 2^(j+1). */
  lemma SquareOfOne(x: nat, j: nat)
    requires j > 0 && x % Pow2(j) == 1
    ensures x * x % Pow2(j + 1) == 1
  {
    var m := Pow2(j);
    var q := x / m;
    assert x == q * m + 1;
    assert m == 2 * Pow2(j - 1);
    assert x * x == (q * q * Pow2(j - 1) + q) * (2 * m) + 1 by {
      var h := Pow2(j - 1);
      ExpandSquare(q, h);
    }
    DivModUnique(x * x, 2 * m, q * q * Pow2(j - 1) + q, 1);
  }

  lemma ExpandSquare(q: nat, h: nat)
    ensures (q * (2 * h) + 1) * (q * (2 * h) + 1) == (q * q * h + q) * (2 * (2 * h)) + 1
  {
  }

  /** N^(2^k) = 1 (mod 2^(k+2)) for odd N and k >= 1. */
  lemma {:induction false} OddPower(n: nat, k: nat)
    requires n % 2 == 1 && k >= 1
    ensures Pow(n, Pow2(k)) % Pow2(k + 2) == 1
  {
    PowAdd(n, Pow2(k - 1), Pow2(k - 1));
    var p := Pow(n, Pow2(k - 1));
    if k == 1 {
      assert Pow(n, 1) == n * Pow(n, 0) && Pow2(3) == 2 * Pow2(2) && Pow2(2) == 2 * Pow2(1);
      OddSquare(n);
    } else {
      OddPower(n, k - 1);
      SquareOfOne(p, k + 1);
    }
  }

  lemma SquareModEight(q: nat, r: nat)
    ensures (8 * q + r) * (8 * q + r) == (8 * q * q + 2 * q * r) * 8 + r * r
  {
  }

  lemma OddSquare(n: nat)
    requires n % 2 == 1
    ensures n * n % 8 == 1
  {
    var q, r := n / 8, n % 8;
    assert n == 8 * q + r && (r == 1 || r == 3 || r == 5 || r == 7);
    SquareModEight(q, r);
    var h := 8 * q * q + 2 * q * r;
    assert r * r == 1 || r * r == 9 || r * r == 25 || r * r == 49;
    DivModUnique(n * n, 8, h + r * r / 8, 1);
  }

  lemma {:induction false} WordIsPow2(e: nat)
    requires e == 8
    ensures Pow2(e) == 0x100 && Pow2(8 * e) == WORD
  {
    assert Pow2(8) == 0x100;
    Pow2Double(e, 0x100);
    Pow2Double(2 * e, 0x1_0000);
    Pow2Double(4 * e, 0x1_0000_0000);
  }

  lemma {:induction false} Pow2Double(e: nat, x: nat)
    requires Pow2(e) == x
    ensures Pow2(2 * e) == x * x
  {
    Pow2Add(e, e);
  }

  /** Main result, for the word itself: after 62 iterations t is the inverse of every odd N. */
  lemma {:induction false} InverseOfOdd(n: nat, k: nat)
    requires n % 2 == 1 && k == ITERATIONS
    ensures Iterate(n, k) * n % WORD == 1
  {
    IterateIsPower(n, k);
    OddPower(n, k);
    WordIsPow2(k - 54);
  }

  /** An even modulus has no inverse to find. */
  lemma NoInverseOfEven(n: nat, w: nat)
    requires n % 2 == 0
    ensures (w * n + 1) % WORD != 0
  {
    var h := w * (n / 2);
    assert w * n == 2 * h;
    MultipleIsEven(2 * h + 1);
  }

  lemma MultipleIsEven(x: nat)
    ensures x % WORD == 0 ==> x % 2 == 0
  {
    if x % WORD == 0 {
      assert x == 2 * (0x8000_0000_0000_0000 * (x / WORD));
    }
  }

  /** A buffer's number and its low eight bytes agree modulo 2^64. */
  lemma {:induction false} LowWord(s: seq<byte>, k: nat)
    requires k <= |s|
    ensures LeNat(s) == LeNat(s[..k]) + Pow2(8 * k) * LeNat(s[k..])
  {
    if k == 0 {
      assert s[0..] == s && s[..0] == [];
    } else {
      LowWord(s[1..], k - 1);
      assert s[1..][..k - 1] == s[..k][1..] && s[1..][k - 1..] == s[k..];
      Pow2Add(8, 8 * (k - 1));
      assert Pow2(8) == 0x100;
      MulAssoc(0x100, Pow2(8 * (k - 1)), LeNat(s[k..]));
    }
  }

  lemma {:induction false} LeNatBound(s: seq<byte>)
    ensures LeNat(s) < Pow2(8 * |s|)
  {
    if s != [] {
      LeNatBound(s[1..]);
      Pow2Add(8, 8 * |s[1..]|);
      assert Pow2(8) == 0x100;
    }
  }

  /** `mont_w`. The signed 64-bit words are given by their bit patterns. */
  method MontW(mod: seq<byte>) returns (w: nat)
    requires |mod| >= 8
    ensures w < WORD
    ensures (w * LeNat(mod) + 1) % WORD == 0 <==> LeNat(mod) % 2 == 1
  {
    var mode := LeNat(mod[..8]);
    var t := 1;
    var i := 1;
    while i < 63
      invariant 1 <= i <= 63 && t == Iterate(mode, i - 1)
    {
      t := t * t * mode % WORD;
      i := i + 1;
    }
    w := (WORD - t) % WORD;
    InverseOfLowWord(mod, w, i - 1);
  }

  lemma {:induction false} LowEightBytes(mod: seq<byte>, k: nat)
    requires |mod| >= k == 8
    ensures LeNat(mod) == LeNat(mod[..k]) + WORD * LeNat(mod[k..])
  {
    LowWord(mod, k);
    WordIsPow2(k);
  }

  lemma {:induction false} InverseOfLowWord(mod: seq<byte>, w: nat, k: nat)
    requires |mod| >= 8 && k == ITERATIONS && w == (WORD - Iterate(LeNat(mod[..8]), k)) % WORD
    ensures (w * LeNat(mod) + 1) % WORD == 0 <==> LeNat(mod) % 2 == 1
  {
    var low, high := LeNat(mod[..8]), LeNat(mod[8..]);
    LowEightBytes(mod, 8);
    if LeNat(mod) % 2 == 1 {
      InverseOfOdd(low, k);
      NegatedInverse(Iterate(low, k), w, low, high);
    } else {
      NoInverseOfEven(LeNat(mod), w);
    }
  }

  lemma NegatedInverse(t: nat, w: nat, low: nat, high: nat)
    requires t < WORD && w == (WORD - t) % WORD && t * low % WORD == 1
    ensures (w * (low + WORD * high) + 1) % WORD == 0
  {
    var q := t * low / WORD;
    assert t * low == q * WORD + 1;
    assert w == WORD - t;
    var n := low + WORD * high;
    assert w * n + 1 == (n - q - t * high) * WORD by {
      assert w * n == WORD * n - t * n;
      assert t * n == t * low + t * (WORD * high);
      assert t * (WORD * high) == t * high * WORD;
      assert (n - q - t * high) * WORD == n * WORD - q * WORD - t * high * WORD;
    }
    DivModUnique(w * n + 1, WORD, n - q - t * high, 0);
  }
}
