/** The signature check of common/verify_image_sp7350_hw.c on one flat memory, in which the
    padding of the data overwrites the signature behind it. */
module ImageVerify {
  import opened Bytes
  import opened DivMod
  import opened MontInverse
  import opened Sha3

  const KEY_SZ := 256
  const EXPONENT := 0x1_0001

  /** s with the bytes from `at` on replaced by b. */
  function Patch(s: seq<byte>, at: nat, b: seq<byte>): (p: seq<byte>)
    requires at + |b| <= |s|
    ensures |p| == |s|
  {
    s[..at] + b + s[at + |b|..]
  }

  lemma PatchAt(s: seq<byte>, at: nat, b: seq<byte>, k: nat)
    requires at + |b| <= |s| && k < |s|
    ensures Patch(s, at, b)[k] == if at <= k < at + |b| then b[k - at] else s[k]
  {
  }

  lemma PatchSlice(s: seq<byte>, at: nat, b: seq<byte>, i: nat, j: nat)
    requires at + |b| <= |s| && i <= j <= |s|
    ensures j <= at || at + |b| <= i ==> Patch(s, at, b)[i..j] == s[i..j]
    ensures i == at && j == at + |b| ==> Patch(s, at, b)[i..j] == b
  {
    var p := Patch(s, at, b);
    forall k | i <= k < j ensures p[k] == if at <= k < at + |b| then b[k - at] else s[k] {
      PatchAt(s, at, b, k);
    }
    if j <= at || at + |b| <= i {
      assert p[i..j] == s[i..j];
    }
    if i == at && j == at + |b| {
      assert p[i..j] == b;
    }
  }

  lemma PatchInner(s: seq<byte>, at: nat, b: seq<byte>, i: nat, j: nat)
    requires at + |b| <= |s| && i <= j <= |b|
    ensures Patch(s, at, b)[at + i..at + j] == b[i..j]
  {
    forall k | i <= k < j ensures Patch(s, at, b)[at + k] == b[k] {
      PatchAt(s, at, b, at + k);
    }
    assert Patch(s, at, b)[at + i..at + j] == b[i..j];
  }

  function Reversed(s: seq<byte>): (r: seq<byte>)
    ensures |r| == |s| && forall i :: 0 <= i < |s| ==> r[i] == s[|s| - 1 - i]
  {
    seq(|s|, i requires 0 <= i < |s| => s[|s| - 1 - i])
  }

  /** The n low bytes of x, least significant first. */
  function ToLe(x: nat, n: nat): (s: seq<byte>)
    ensures |s| == n
  {
    if n == 0 then [] else [x % 0x100] + ToLe(x / 0x100, n - 1)
  }

  lemma {:induction false} LeNatToLe(x: nat, n: nat)
    ensures LeNat(ToLe(x, n)) == x % Pow2(8 * n)
  {
    if n > 0 {
      LeNatToLe(x / 0x100, n - 1);
      Pow2Add(8, 8 * (n - 1));
      assert Pow2(8) == 0x100;
      SplitMod(x, Pow2(8 * (n - 1)));
    }
  }

  lemma SplitMod(x: nat, m: nat)
    requires m > 0
    ensures x % (0x100 * m) == x % 0x100 + 0x100 * (x / 0x100 % m)
  {
    var q, r := x / 0x100 / m, x / 0x100 % m;
    assert x / 0x100 == q * m + r;
    assert q * (0x100 * m) == 0x100 * (q * m);
    DivModUnique(x, 0x100 * m, q, x % 0x100 + 0x100 * r);
  }

  lemma {:induction false} LeNatZeros(n: nat)
    ensures LeNat(Zeros(n)) == 0
  {
    if n > 0 {
      LeNatZeros(n - 1);
      assert Zeros(n)[1..] == Zeros(n - 1);
    }
  }

  /** The bytes the loader stores for the public exponent. */
  function ExponentBytes(): seq<byte> {
    [1, 0, 1] + Zeros(KEY_SZ - 3)
  }

  lemma ExponentIs65537()
    ensures LeNat(ExponentBytes()) == EXPONENT
  {
    var z := Zeros(KEY_SZ - 3);
    LeNatZeros(KEY_SZ - 3);
    assert ExponentBytes()[1..] == [0, 1] + z && ([0, 1] + z)[1..] == [1] + z && ([1] + z)[1..] == z;
  }

  predicate IsInverseWord(w: nat, n: nat) {
    (w * n + 1) % WORD == 0
  }

  /** What one run of the RSA engine works on: signature, exponent, modulus, word, whether P2 is
      fetched, and the bytes where P2 is kept. */
  datatype Inputs = Inputs(sig: nat, e: nat, n: nat, w: nat, fetch: bool, area: seq<byte>)

  /** The RSA engine: its number P, which no register shows, and what it leaves in its
      destination and where P2 is kept when it is not set up for the modulus. */
  datatype Engine = Engine(p: nat, wrong: Inputs -> seq<byte>, wrongP2: Inputs -> seq<byte>) {
    ghost predicate Valid() {
      forall i :: |wrong(i)| == KEY_SZ == |wrongP2(i)|
    }
  }

  /** P2 = P^2 mod N, as the engine keeps it in memory (common/crypto_drv.h:223-225). */
  function P2Bytes(n: nat, p: nat): (b: seq<byte>)
    requires n > 0
    ensures |b| == KEY_SZ
  {
    ToLe(p * p % n, KEY_SZ)
  }

  /** Is the engine set up for modulus n? A new modulus pointer makes the driver compute the
      word and the engine P2, which works for odd n. With a held pointer the word is the old
      one and the engine fetches P2 from `area`, whatever is there by then. */
  predicate EngineReady(held: bool, w: nat, n: nat, area: seq<byte>, p: nat) {
    if held then n > 0 && IsInverseWord(w, n) && area == P2Bytes(n, p) else n % 2 == 1
  }

  /** The same from what a run works on. */
  predicate EngineSet(i: Inputs, p: nat) {
    IsInverseWord(i.w, i.n) && (i.fetch ==> i.n > 0 && i.area == P2Bytes(i.n, p))
  }

  lemma SetIffReady(i: Inputs, w0: nat, p: nat)
    requires if i.fetch then i.w == w0 else IsInverseWord(i.w, i.n) <==> i.n % 2 == 1
    ensures EngineSet(i, p) <==> EngineReady(i.fetch, w0, i.n, i.area, p)
  {
  }

  /** The word for a new modulus. */
  method FreshWord(mod: seq<byte>) returns (w: nat)
    requires |mod| == KEY_SZ
    ensures IsInverseWord(w, LeNat(mod)) <==> LeNat(mod) % 2 == 1
  {
    w := MontW(mod);
  }

  /** What the engine leaves in its destination. */
  function RsaResult(i: Inputs, ready: bool, eng: Engine): (r: seq<byte>)
    requires eng.Valid()
    ensures |r| == KEY_SZ
  {
    if ready && i.n > 0 then ToLe(Pow(i.sig, i.e) % i.n, KEY_SZ) else eng.wrong(i)
  }

  /** What it leaves where P2 is kept: a held pointer only makes it read there. */
  function P2Left(i: Inputs, ready: bool, eng: Engine): (b: seq<byte>)
    requires eng.Valid() && |i.area| == KEY_SZ
    ensures |b| == KEY_SZ
  {
    if i.fetch then i.area else if ready && i.n > 0 then P2Bytes(i.n, eng.p) else eng.wrongP2(i)
  }

  /** The engines' registers that outlive a call. */
  class CryptoRegs {
    var rsaNPtr: nat
    var rsaW: nat
  }

  method Store(mem: array<byte>, at: nat, b: seq<byte>)
    requires at + |b| <= mem.Length
    modifies mem
    ensures mem[..] == Patch(old(mem[..]), at, b)
  {
    for i := 0 to |b|
      invariant mem[..at] == old(mem[..at]) && mem[at..at + i] == b[..i]
      invariant mem[at + i..] == old(mem[at + i..])
    {
      mem[at + i] := b[i];
      assert mem[at..at + i + 1] == mem[at..at + i] + [b[i]];
    }
  }

  /** `reverse_buf`. */
  method ReverseBuf(mem: array<byte>, at: nat, len: nat)
    requires at + len <= mem.Length
    modifies mem
    ensures mem[..] == Patch(old(mem[..]), at, Reversed(old(mem[at..at + len])))
  {
    var i := 0;
    while i < len / 2
      invariant 0 <= i <= len / 2
      invariant forall p :: 0 <= p < at || at + len <= p < mem.Length ==> mem[p] == old(mem[p])
      invariant forall p :: at <= p < at + len ==>
                  mem[p] == if p < at + i || p >= at + len - i then old(mem[2 * at + len - 1 - p]) else old(mem[p])
    {
      var temp := mem[at + i];
      mem[at + i] := mem[at + len - 1 - i];
      mem[at + len - 1 - i] := temp;
      i := i + 1;
    }
    ghost var m0 := old(mem[..]);
    assert old(mem[at..at + len]) == m0[at..at + len];
    SwappedIsReversed(m0, mem[..], at, len);
  }

  lemma SwappedIsReversed(m0: seq<byte>, m: seq<byte>, at: nat, len: nat)
    requires at + len <= |m0| == |m|
    requires forall p :: 0 <= p < at || at + len <= p < |m| ==> m[p] == m0[p]
    requires forall p :: at <= p < at + len ==> m[p] == m0[2 * at + len - 1 - p]
    ensures m == Patch(m0, at, Reversed(m0[at..at + len]))
  {
    var r := Reversed(m0[at..at + len]);
    assert m[at..at + len] == r;
    assert m == m[..at] + m[at..at + len] + m[at + len..];
  }

  method Compare(mem: array<byte>, a: nat, b: nat, len: nat) returns (ret: int)
    requires a + len <= mem.Length && b + len <= mem.Length
    ensures ret == 0 <==> mem[a..a + len] == mem[b..b + len]
  {
    for i := 0 to len
      invariant mem[a..a + i] == mem[b..b + i]
    {
      if mem[a + i] != mem[b + i] {
        ret := (mem[a + i] as int) - (mem[b + i] as int);
        assert mem[a..a + len][i] != mem[b..b + len][i];
        return;
      }
      assert mem[a..a + i + 1] == mem[a..a + i] + [mem[a + i]];
      assert mem[b..b + i + 1] == mem[b..b + i] + [mem[b + i]];
    }
    ret := 0;
  }

  /** What the engine reads from memory for a run. */
  function Operands(m: seq<byte>, src: nat, e: nat, n: nat, p2: nat, w: nat, fetch: bool): (i: Inputs)
    requires src + KEY_SZ <= |m| && e + KEY_SZ <= |m| && n + KEY_SZ <= |m| && p2 + KEY_SZ <= |m|
    ensures |i.area| == KEY_SZ
  {
    Inputs(LeNat(m[src..src + KEY_SZ]), LeNat(m[e..e + KEY_SZ]), LeNat(m[n..n + KEY_SZ]), w, fetch, m[p2..p2 + KEY_SZ])
  }

  /** One run of the RSA engine with word w; `fetch` makes it take P2 from memory. */
  method RsaEngine(mem: array<byte>, dst: nat, src: nat, e: nat, n: nat, p2: nat, w: nat, fetch: bool, eng: Engine)
    requires eng.Valid() && dst + KEY_SZ <= p2 && p2 + KEY_SZ <= mem.Length
    requires src + KEY_SZ <= dst && e + KEY_SZ <= dst && n + KEY_SZ <= dst
    modifies mem
    ensures var i := Operands(old(mem[..]), src, e, n, p2, w, fetch);
            var ready := EngineSet(i, eng.p);
            mem[..] == Patch(Patch(old(mem[..]), p2, P2Left(i, ready, eng)), dst, RsaResult(i, ready, eng))
  {
    var i := Operands(mem[..], src, e, n, p2, w, fetch);
    var ready := EngineSet(i, eng.p);
    Store(mem, p2, P2Left(i, ready, eng));
    Store(mem, dst, RsaResult(i, ready, eng));
  }

  /** `sp_expmod`; `base` is the address of mem[0]. */
  method ExpMod(regs: CryptoRegs, mem: array<byte>, base: nat, dst: nat, src: nat, e: nat, n: nat, p2: nat, eng: Engine)
    requires eng.Valid() && dst + KEY_SZ <= p2 && p2 + KEY_SZ <= mem.Length
    requires src + KEY_SZ <= dst && e + KEY_SZ <= dst && n + KEY_SZ <= dst
    modifies regs, mem
    ensures regs.rsaNPtr == base + n && (old(regs.rsaNPtr) == base + n ==> regs.rsaW == old(regs.rsaW))
    ensures var i := Operands(old(mem[..]), src, e, n, p2, regs.rsaW, old(regs.rsaNPtr) == base + n);
            var ready := EngineReady(i.fetch, old(regs.rsaW), i.n, i.area, eng.p);
            mem[..] == Patch(Patch(old(mem[..]), p2, P2Left(i, ready, eng)), dst, RsaResult(i, ready, eng))
  {
    ghost var w0 := regs.rsaW;
    var fetch := regs.rsaNPtr == base + n;
    if !fetch {
      var w := FreshWord(mem[n..n + KEY_SZ]);
      regs.rsaNPtr := base + n;
      regs.rsaW := w;
    }
    assert mem[..][n..n + KEY_SZ] == mem[n..n + KEY_SZ];
    SetIffReady(Operands(mem[..], src, e, n, p2, regs.rsaW, fetch), w0, eng.p);
    RsaEngine(mem, dst, src, e, n, p2, regs.rsaW, fetch, eng);
  }

  /** One run of the hash engine: absorbs `len` bytes into the state at `buf`. */
  method HashEngine(mem: array<byte>, src: nat, len: nat, buf: nat, f: Step)
    requires IsStep(f) && len % RATE == 0 && 0 < len <= 0xFFFF
    requires src + len <= buf && buf + STATE <= mem.Length
    modifies mem
    ensures var s := Absorb(f, old(mem[buf..buf + STATE]), old(mem[src..src + len]));
            |s| == STATE && mem[..] == Patch(old(mem[..]), buf, s)
  {
    AbsorbLength(f, mem[buf..buf + STATE], mem[src..src + len]);
    var s := Absorb(f, mem[buf..buf + STATE], mem[src..src + len]);
    Store(mem, buf, s);
  }

  /** The next address that is a multiple of 32. */
  function AlignUp(x: nat): (y: nat)
    ensures x <= y < x + 32 && y % 32 == 0
  {
    (x + 31) / 32 * 32
  }

  function SetTopBit(b: byte): byte {
    if b < 0x80 then b + 0x80 else b
  }

  /** Pads the message in place. */
  method PadInPlace(mem: array<byte>, data: nat, len: nat) returns (len': nat)
    requires data + len + RATE <= mem.Length
    modifies mem
    ensures len' == len + Free(len)
    ensures mem[..] == Patch(old(mem[..]), data + len, PadBytes(Free(len)))
  {
    var padding := Free(len);
    ghost var m0, at := mem[..], data + len;
    Store(mem, data + len, Zeros(padding));
    mem[data + len] := 0x06;
    len' := len + padding;
    ghost var marked := mem[..];
    mem[data + len' - 1] := SetTopBit(mem[data + len' - 1]);
    assert marked == Patch(m0, at, Zeros(padding))[at := 0x06];
    assert mem[..] == marked[at + padding - 1 := SetTopBit(marked[at + padding - 1])];
    MarksMakePadding(m0, at, padding);
  }

  /** Zeros, the mark and the top bit, one after the other. */
  lemma MarksMakePadding(m: seq<byte>, at: nat, n: nat)
    requires n > 0 && at + n <= |m|
    ensures var marked := Patch(m, at, Zeros(n))[at := 0x06];
            marked[at + n - 1 := SetTopBit(marked[at + n - 1])] == Patch(m, at, PadBytes(n))
  {
    var marked := Patch(m, at, Zeros(n))[at := 0x06];
    var p, q := marked[at + n - 1 := SetTopBit(marked[at + n - 1])], Patch(m, at, PadBytes(n));
    forall k | 0 <= k < |m| ensures p[k] == q[k] {
      PatchAt(m, at, Zeros(n), k);
      PatchAt(m, at, PadBytes(n), k);
      PatchAt(m, at, Zeros(n), at + n - 1);
    }
  }

  /** The next batch: whole blocks, below 2^16 bytes. */
  function BatchSize(len: nat): (bs: nat)
    requires len % RATE == 0 && len > 0
    ensures 0 < bs <= len && bs % RATE == 0 && bs <= 0xFFFF && (bs < len ==> bs == BATCH)
  {
    if len < BATCH then len else BATCH
  }

  /** One batch absorbed through the state at `buf`, on values. */
  lemma OneBatch(f: Step, start: seq<byte>, mem: seq<byte>, buf: nat, state: seq<byte>, at: nat, bs: nat, len: nat)
    requires IsStep(f) && |state| == STATE && buf + STATE <= |start| && mem == Patch(start, buf, state)
    requires bs % RATE == 0 && len % RATE == 0 && 0 < bs <= len && at + len <= buf
    ensures mem[at..at + bs] == start[at..at + bs] && mem[buf..buf + STATE] == state && (len - bs) % RATE == 0
    ensures var s := Absorb(f, state, start[at..at + bs]);
            && |s| == STATE && Patch(mem, buf, s) == Patch(start, buf, s)
            && Absorb(f, state, start[at..at + len]) == Absorb(f, s, start[at + bs..at + len])
  {
    PatchSlice(start, buf, state, at, at + bs);
    PatchSlice(start, buf, state, buf, buf + STATE);
    assert start[at..at + len] == start[at..at + bs] + start[at + bs..at + len];
    AbsorbConcat(f, state, start[at..at + bs], start[at + bs..at + len]);
    AbsorbLength(f, state, start[at..at + bs]);
  }

  method AbsorbBatch(mem: array<byte>, at: nat, bs: nat, buf: nat, f: Step, ghost start: seq<byte>,
                     ghost state: seq<byte>, ghost len: nat)
    returns (ghost s: seq<byte>)
    requires IsStep(f) && |state| == STATE && buf + STATE <= mem.Length == |start|
    requires mem[..] == Patch(start, buf, state)
    requires bs % RATE == 0 && len % RATE == 0 && 0 < bs <= len && bs <= 0xFFFF && at + len <= buf
    modifies mem
    ensures |s| == STATE && mem[..] == Patch(start, buf, s) && (len - bs) % RATE == 0
    ensures Absorb(f, s, start[at + bs..at + len]) == Absorb(f, state, start[at..at + len])
  {
    OneBatch(f, start, mem[..], buf, state, at, bs, len);
    s := Absorb(f, state, start[at..at + bs]);
    assert mem[buf..buf + STATE] == state && mem[at..at + bs] == start[at..at + bs];
    HashEngine(mem, at, bs, buf, f);
  }

  /** Absorbing goes on at `at`, with `len` bytes of whole blocks left, and comes to `all`. */
  ghost predicate Absorbing(f: Step, start: seq<byte>, m: seq<byte>, buf: nat, state: seq<byte>, at: nat, len: nat,
                            all: seq<byte>)
    requires buf + STATE <= |start|
  {
    && |state| == STATE && m == Patch(start, buf, state)
    && Whole(len) && at + len <= buf && Absorb(f, state, start[at..at + len]) == all
  }

  /** The batches of `sp_hash`. */
  method AbsorbBatches(mem: array<byte>, data: nat, len0: nat, buf: nat, f: Step)
    requires IsStep(f) && Whole(len0) && data + len0 <= buf && buf + STATE <= mem.Length
    modifies mem
    ensures var s := Absorb(f, old(mem[buf..buf + STATE]), old(mem[data..data + len0]));
            |s| == STATE && mem[..] == Patch(old(mem[..]), buf, s)
  {
    ghost var start := mem[..];
    var at: nat, len: nat := data, len0;
    ghost var state := start[buf..buf + STATE];
    ghost var all := Absorb(f, state, start[data..data + len0]);
    assert state == mem[buf..buf + STATE] && start[data..data + len0] == mem[data..data + len0];
    while len != 0
      invariant Absorbing(f, start, mem[..], buf, state, at, len, all)
      decreases len
    {
      var bs := BatchSize(len);
      state := AbsorbBatch(mem, at, bs, buf, f, start, state, len);
      at := at + bs;
      len := len - bs;
    }
  }

  /** Memory after `sp_hash`: the padding behind the data, the sponge state at `buf`. */
  function Hashed(f: Step, mem: seq<byte>, data: nat, len: nat, buf: nat): (mem': seq<byte>)
    requires IsStep(f) && data + len + RATE <= buf && buf + STATE <= |mem|
    ensures |mem'| == |mem|
  {
    Patch(Patch(mem, data + len, PadBytes(Free(len))), buf, Final(f, mem[data..data + len]))
  }

  /** Clearing the state, padding and absorbing, one write after the other. */
  lemma HashedByParts(f: Step, mem: seq<byte>, data: nat, len: nat, buf: nat)
    requires IsStep(f) && data + len + RATE <= buf && buf + STATE <= |mem|
    ensures Patch(ReadyToAbsorb(mem, data, len, buf), buf, Final(f, mem[data..data + len]))
            == Hashed(f, mem, data, len, buf)
  {
    PatchTwice(mem, buf, Zeros(STATE), Final(f, mem[data..data + len]), data + len, PadBytes(Free(len)));
  }

  function ReadyToAbsorb(mem: seq<byte>, data: nat, len: nat, buf: nat): (p: seq<byte>)
    requires data + len + RATE <= buf && buf + STATE <= |mem|
    ensures |p| == |mem|
  {
    Patch(Patch(mem, buf, Zeros(STATE)), data + len, PadBytes(Free(len)))
  }

  lemma ReadySlices(mem: seq<byte>, data: nat, len: nat, buf: nat)
    requires data + len + RATE <= buf && buf + STATE <= |mem|
    ensures var p, n := ReadyToAbsorb(mem, data, len, buf), Free(len);
            p[buf..buf + STATE] == Zeros(STATE) && p[data..data + (len + n)] == Pad(mem[data..data + len])
  {
    PaddedMessage(mem, data, len, buf, Zeros(STATE), PadBytes(Free(len)));
  }

  lemma PaddedMessage(m: seq<byte>, data: nat, len: nat, buf: nat, z: seq<byte>, b: seq<byte>)
    requires data + len + |b| <= buf && buf + |z| <= |m|
    ensures var p := Patch(Patch(m, buf, z), data + len, b);
            p[data..data + len + |b|] == m[data..data + len] + b && p[buf..buf + |z|] == z
  {
    var m1, at := Patch(m, buf, z), data + len;
    PatchSlice(m, buf, z, data, at);
    PatchSlice(m, buf, z, buf, buf + |z|);
    PatchSlice(m1, at, b, data, at);
    PatchSlice(m1, at, b, at, at + |b|);
    PatchSlice(m1, at, b, buf, buf + |z|);
    var p := Patch(m1, at, b);
    assert p[data..at + |b|] == p[data..at] + p[at..at + |b|];
  }

  /** Writes to disjoint places commute, and the last write to a place counts. */
  lemma PatchTwice(m: seq<byte>, buf: nat, z: seq<byte>, s: seq<byte>, at: nat, b: seq<byte>)
    requires |z| == |s| && at + |b| <= buf && buf + |z| <= |m|
    ensures Patch(Patch(Patch(m, buf, z), at, b), buf, s) == Patch(Patch(m, at, b), buf, s)
  {
    var p, q := Patch(Patch(Patch(m, buf, z), at, b), buf, s), Patch(Patch(m, at, b), buf, s);
    forall k | 0 <= k < |m| ensures p[k] == q[k] {
      PatchAt(Patch(Patch(m, buf, z), at, b), buf, s, k);
      PatchAt(Patch(m, buf, z), at, b, k);
      PatchAt(m, buf, z, k);
      PatchAt(Patch(m, at, b), buf, s, k);
      PatchAt(m, at, b, k);
    }
  }

  /** The state cleared and the message padded. */
  method MakeReady(mem: array<byte>, data: nat, len0: nat, buf: nat) returns (len: nat)
    requires data + len0 + RATE <= buf && buf + STATE <= mem.Length
    modifies mem
    ensures len == len0 + Free(len0)
    ensures mem[..] == ReadyToAbsorb(old(mem[..]), data, len0, buf)
    ensures mem[buf..buf + STATE] == Zeros(STATE) && mem[data..data + len] == Pad(old(mem[data..data + len0]))
  {
    ReadySlices(mem[..], data, len0, buf);
    Store(mem, buf, Zeros(STATE));
    len := PadInPlace(mem, data, len0);
  }

  /** `sp_hash`. Main result: batches absorbed through `buf` hash the original data, and
      only the padding and the state are written. */
  method SpHash(mem: array<byte>, base: nat, data: nat, len0: nat, p2: nat, f: Step) returns (buf: nat)
    requires IsStep(f) && data + len0 + RATE <= p2 && p2 + 31 + STATE <= mem.Length
    modifies mem
    ensures buf == AlignUp(base + p2) - base
    ensures mem[..] == Hashed(f, old(mem[..]), data, len0, buf)
  {
    buf := AlignUp(base + p2) - base;
    HashedByParts(f, mem[..], data, len0, buf);
    var len := MakeReady(mem, data, len0, buf);
    PaddedIsWhole(len0, len);
    AbsorbBatches(mem, data, len, buf, f);
  }

  /** Hashing leaves everything between the padding and the state alone. */
  lemma HashedSlices(f: Step, mem: seq<byte>, len: nat, buf: nat, i: nat, j: nat)
    requires IsStep(f) && len + RATE <= buf && buf + STATE <= |mem| && i <= j <= buf
    ensures j <= len || len + RATE <= i ==> Hashed(f, mem, 0, len, buf)[i..j] == mem[i..j]
    ensures Hashed(f, mem, 0, len, buf)[buf..buf + DIGEST] == Hash(f, mem[0..len])
  {
    var b := PadBytes(Free(len));
    var s := Final(f, mem[0..len]);
    var padded := Patch(mem, len, b);
    PatchSlice(mem, len, b, i, j);
    PatchSlice(padded, buf, s, i, j);
    PatchSlice(padded, buf, s, buf, buf + STATE);
    assert Patch(padded, buf, s)[buf..buf + DIGEST] == s[..DIGEST];
  }

  /** Memory when the hash starts: exponent, P2 and the reversed plain signature. */
  function Decrypted(mem: seq<byte>, n: nat, p2Bytes: seq<byte>, r: seq<byte>): (mem': seq<byte>)
    requires |p2Bytes| == KEY_SZ == |r| && n + 5 * KEY_SZ <= |mem|
    ensures |mem'| == |mem|
  {
    var withE := Patch(mem, n + 2 * KEY_SZ, ExponentBytes());
    var withR := Patch(Patch(withE, n + 4 * KEY_SZ, p2Bytes), n + 3 * KEY_SZ, r);
    Patch(withR, n + 3 * KEY_SZ, Reversed(withR[n + 3 * KEY_SZ..n + 3 * KEY_SZ + DIGEST]))
  }

  lemma DecryptedSlices(mem: seq<byte>, n: nat, p2Bytes: seq<byte>, r: seq<byte>, i: nat, j: nat)
    requires |p2Bytes| == KEY_SZ == |r| && n + 5 * KEY_SZ <= |mem| && i <= j <= n + 2 * KEY_SZ
    ensures var d, dst := Decrypted(mem, n, p2Bytes, r), n + 3 * KEY_SZ;
            && d[i..j] == mem[i..j]
            && d[dst..dst + DIGEST] == Reversed(r[..DIGEST])
  {
    var e, dst, p2 := n + 2 * KEY_SZ, n + 3 * KEY_SZ, n + 4 * KEY_SZ;
    var withE := Patch(mem, e, ExponentBytes());
    var withP := Patch(withE, p2, p2Bytes);
    var withR := Patch(withP, dst, r);
    var low := withR[dst..dst + DIGEST];
    assert low == r[..DIGEST];
    PatchSlice(mem, e, ExponentBytes(), i, j);
    PatchSlice(withE, p2, p2Bytes, i, j);
    PatchSlice(withP, dst, r, i, j);
    PatchSlice(withR, dst, Reversed(low), i, j);
    PatchSlice(withR, dst, Reversed(low), dst, dst + DIGEST);
  }

  /** The signature and the modulus behind n bytes of data. */
  function Signature(m: seq<byte>, n: nat): nat
    requires n + 5 * KEY_SZ <= |m|
  {
    LeNat(m[n..n + KEY_SZ])
  }

  function Modulus(m: seq<byte>, n: nat): nat
    requires n + 5 * KEY_SZ <= |m|
  {
    LeNat(m[n + KEY_SZ..n + 2 * KEY_SZ])
  }

  function P2Area(m: seq<byte>, n: nat): (area: seq<byte>)
    requires n + 5 * KEY_SZ <= |m|
    ensures |area| == KEY_SZ
  {
    m[n + 4 * KEY_SZ..n + 5 * KEY_SZ]
  }

  /** Will the engine be set up when the image in m is verified? The registers hold `nPtr`, w. */
  predicate ReadyFor(m: seq<byte>, base: nat, n: nat, nPtr: nat, w: nat, eng: Engine)
    requires n + 5 * KEY_SZ <= |m|
  {
    EngineReady(nPtr == base + n + KEY_SZ, w, Modulus(m, n), P2Area(m, n), eng.p)
  }

  /** What the engine works on when the image in m is verified with word w. */
  function Job(m: seq<byte>, n: nat, w: nat, held: bool): (i: Inputs)
    requires n + 5 * KEY_SZ <= |m|
    ensures |i.area| == KEY_SZ
  {
    Inputs(Signature(m, n), EXPONENT, Modulus(m, n), w, held, P2Area(m, n))
  }

  /** Stores the exponent and turns the signature into the reversed digest at dst. */
  method DecryptSignature(regs: CryptoRegs, mem: array<byte>, base: nat, n: nat, eng: Engine)
    requires eng.Valid() && n + 5 * KEY_SZ <= mem.Length
    modifies regs, mem
    ensures regs.rsaNPtr == base + n + KEY_SZ
    ensures old(regs.rsaNPtr) == base + n + KEY_SZ ==> regs.rsaW == old(regs.rsaW)
    ensures var m := old(mem[..]);
            var ready := ReadyFor(m, base, n, old(regs.rsaNPtr), old(regs.rsaW), eng);
            var i := Job(m, n, regs.rsaW, old(regs.rsaNPtr) == base + n + KEY_SZ);
            mem[..] == Decrypted(m, n, P2Left(i, ready, eng), RsaResult(i, ready, eng))
  {
    ghost var m0, held := mem[..], regs.rsaNPtr == base + n + KEY_SZ;
    var rsakeyN, rsakeyE, dst, p2 := n + KEY_SZ, n + 2 * KEY_SZ, n + 3 * KEY_SZ, n + 4 * KEY_SZ;
    StoreExponent(mem, rsakeyE);
    ghost var m1 := mem[..];
    ExpMod(regs, mem, base, dst, n, rsakeyE, rsakeyN, p2, eng);
    OperandsAreJob(m0, m1, n, regs.rsaW, held);
    ReverseBuf(mem, dst, DIGEST);
  }

  lemma OperandsAreJob(m0: seq<byte>, m1: seq<byte>, n: nat, w: nat, held: bool)
    requires n + 5 * KEY_SZ <= |m0| && m1 == Patch(m0, n + 2 * KEY_SZ, ExponentBytes())
    ensures Operands(m1, n, n + 2 * KEY_SZ, n + KEY_SZ, n + 4 * KEY_SZ, w, held) == Job(m0, n, w, held)
  {
    var e := n + 2 * KEY_SZ;
    PatchSlice(m0, e, ExponentBytes(), n, n + KEY_SZ);
    PatchSlice(m0, e, ExponentBytes(), n + KEY_SZ, e);
    PatchSlice(m0, e, ExponentBytes(), e, e + KEY_SZ);
    PatchSlice(m0, e, ExponentBytes(), n + 4 * KEY_SZ, n + 5 * KEY_SZ);
    ExponentIs65537();
  }

  method StoreExponent(mem: array<byte>, at: nat)
    requires at + KEY_SZ <= mem.Length
    modifies mem
    ensures mem[..] == Patch(old(mem[..]), at, ExponentBytes())
  {
    ghost var m0 := mem[..];
    Store(mem, at, Zeros(KEY_SZ));
    mem[at] := 1;
    mem[at + 2] := 1;
    assert mem[..] == Patch(m0, at, ExponentBytes());
  }

  /** The digest inside a signature: the reversed low bytes of sig^65537 mod N. */
  function PlainDigest(sig: nat, modulus: nat): (d: seq<byte>)
    requires modulus > 0
    ensures |d| == DIGEST
  {
    Reversed(ToLe(Pow(sig, EXPONENT) % modulus, KEY_SZ)[..DIGEST])
  }

  /** What a verification compares the hash with. */
  function Expected(i: Inputs, ready: bool, eng: Engine): (d: seq<byte>)
    requires eng.Valid()
  {
    if ready && i.n > 0 then PlainDigest(i.sig, i.n) else Reversed(eng.wrong(i)[..DIGEST])
  }

  /** Where the hash keeps its state: inside the area of P2. */
  function StateAt(base: nat, n: nat): (buf: nat)
    ensures n + 4 * KEY_SZ <= buf && buf + STATE <= n + 5 * KEY_SZ
  {
    AlignUp(base + n + 4 * KEY_SZ) - base
  }

  /** The same, counted from the start of that area. */
  function StateOffset(base: nat, n: nat): (at: nat)
    ensures at + STATE <= KEY_SZ
  {
    StateAt(base, n) - (n + 4 * KEY_SZ)
  }

  /** `sp7350_image_verify_decrypt` without the optional decryption. Main result: the verdict
      is 0 exactly when the digest inside the signature is the hash of the data as it was at
      the start, provided the engine is ready; a modulus pointer it does not hold yet and an
      odd modulus suffice for that. If it is not ready, the verdict is about what the engine
      leaves. Afterwards the engine holds the pointer, but its P2 has been overwritten. */
  method Verify(regs: CryptoRegs, mem: array<byte>, base: nat, n: nat, f: Step, eng: Engine)
    returns (ret: int)
    requires IsStep(f) && eng.Valid() && n + 5 * KEY_SZ <= mem.Length
    modifies regs, mem
    ensures var ready := ReadyFor(old(mem[..]), base, n, old(regs.rsaNPtr), old(regs.rsaW), eng);
            var i := Job(old(mem[..]), n, regs.rsaW, old(regs.rsaNPtr) == base + n + KEY_SZ);
            ret == 0 <==> Expected(i, ready, eng) == Hash(f, old(mem[0..n]))
    ensures mem[0..n] == old(mem[0..n])
    ensures mem[n + RATE..n + 2 * KEY_SZ] == old(mem[n + RATE..n + 2 * KEY_SZ])
    ensures mem[StateAt(base, n)..StateAt(base, n) + STATE] == Final(f, old(mem[0..n]))
    ensures regs.rsaNPtr == base + n + KEY_SZ
    ensures old(regs.rsaNPtr) == base + n + KEY_SZ ==> regs.rsaW == old(regs.rsaW)
  {
    ghost var data := mem[0..n];
    var dst := n + 3 * KEY_SZ;
    DecryptToDigest(regs, mem, base, n, eng);
    assert mem[0..n] == data;
    ghost var digest := mem[dst..dst + DIGEST];
    var src := Finish(mem, base, n, n + 4 * KEY_SZ, f);
    assert mem[dst..dst + DIGEST] == digest && mem[src..src + DIGEST] == Hash(f, data);
    ret := Compare(mem, dst, src, DIGEST);
  }

  /** A pointer the engine does not hold yet and an odd modulus make the digest inside the
      signature what the hash is compared with. */
  lemma ColdPointerSuffices(m: seq<byte>, base: nat, n: nat, nPtr: nat, w0: nat, w: nat, eng: Engine)
    requires eng.Valid() && n + 5 * KEY_SZ <= |m| && nPtr != base + n + KEY_SZ
    ensures ReadyFor(m, base, n, nPtr, w0, eng) <==> Modulus(m, n) % 2 == 1
    ensures Modulus(m, n) % 2 == 1 ==>
              Modulus(m, n) > 0
              && Expected(Job(m, n, w, false), ReadyFor(m, base, n, nPtr, w0, eng), eng)
                 == PlainDigest(Signature(m, n), Modulus(m, n))
  {
  }

  lemma {:induction false} BeOfReversed(s: seq<byte>)
    ensures BeNat(Reversed(s)) == LeNat(s)
  {
    if s != [] {
      BeOfReversed(s[1..]);
      var r := Reversed(s);
      assert r[..|r| - 1] == Reversed(s[1..]);
    }
  }

  lemma {:induction false} LeNatInjective(a: seq<byte>, b: seq<byte>)
    requires |a| == |b| && LeNat(a) == LeNat(b)
    ensures a == b
  {
    if a != [] {
      LeNatInjective(a[1..], b[1..]);
      assert a == [a[0]] + a[1..] && b == [b[0]] + b[1..];
    }
  }

  lemma {:induction false} ToLePrefix(x: nat, k: nat, n: nat)
    requires k <= n
    ensures ToLe(x, n)[..k] == ToLe(x, k)
  {
    if k > 0 {
      ToLePrefix(x / 0x100, k - 1, n - 1);
      assert ToLe(x, n)[..k] == [x % 0x100] + ToLe(x / 0x100, n - 1)[..k - 1];
    }
  }

  /** The digest inside a signature, as a number: the low 512 bits of sig^65537 mod N. */
  lemma {:induction false} PlainDigestIs(sig: nat, modulus: nat, h: seq<byte>)
    requires modulus > 0 && |h| == DIGEST
    ensures PlainDigest(sig, modulus) == h <==> BeNat(h) == Pow(sig, 65537) % modulus % Pow2(512)
  {
    var x := Pow(sig, EXPONENT) % modulus;
    var low := ToLe(x, KEY_SZ)[..DIGEST];
    ToLePrefix(x, DIGEST, KEY_SZ);
    LeNatToLe(x, DIGEST);
    assert LeNat(low) == x % Pow2(512);
    assert Reversed(Reversed(h)) == h && Reversed(Reversed(low)) == low;
    BeOfReversed(Reversed(h));
    if LeNat(low) == LeNat(Reversed(h)) {
      LeNatInjective(low, Reversed(h));
    }
  }

  /** Main result on genuine images, 2048 bits of signature and of modulus behind the data: where
      the modulus is odd and the engine does not hold its pointer yet, what `Verify` tests is
      that the low 512 bits of sig^65537 mod N are the hash of the data, read big-endian. */
  lemma {:induction false} GenuineImage(data: seq<byte>, sig: seq<byte>, mod: seq<byte>, room: seq<byte>, base: nat,
                                        nPtr: nat, w0: nat, w: nat, f: Step, eng: Engine)
    requires IsStep(f) && eng.Valid() && 8 * |sig| == 2048 == 8 * |mod| && |room| >= 3 * KEY_SZ
    requires LeNat(mod) % 2 == 1 && nPtr != base + |data| + |sig|
    ensures var m, n, x := data + sig + mod + room, |data|, Pow(LeNat(sig), 65537) % LeNat(mod);
            && m[0..n] == data
            && (Expected(Job(m, n, w, false), ReadyFor(m, base, n, nPtr, w0, eng), eng) == Hash(f, m[0..n])
                <==> BeNat(Hash(f, data)) == x % Pow2(512))
  {
    var m, n := data + sig + mod + room, |data|;
    assert m[n..n + KEY_SZ] == sig && m[n + KEY_SZ..n + 2 * KEY_SZ] == mod && m[0..n] == data;
    ColdPointerSuffices(m, base, n, nPtr, w0, w, eng);
    PlainDigestIs(LeNat(sig), LeNat(mod), Hash(f, data));
  }

  /** The engine `eng`, but for what it leaves when it is not ready: the digest d, reversed. */
  function Leaving(eng: Engine, d: seq<byte>): (e: Engine)
    requires eng.Valid() && |d| == DIGEST
    ensures e.Valid() && e.p == eng.p
  {
    eng.(wrong := i => Reversed(d) + Zeros(KEY_SZ - DIGEST))
  }

  /** If the engine is not ready, the verdict is open: whatever it works on, some engine that
      agrees wherever it is ready makes the hash be compared with any given digest. */
  lemma NotReadyIsUndetermined(i: Inputs, eng: Engine, d: seq<byte>)
    requires eng.Valid() && |d| == DIGEST
    ensures Expected(i, false, Leaving(eng, d)) == d
    ensures forall j: Inputs :: RsaResult(j, true, Leaving(eng, d)) == RsaResult(j, true, eng) || j.n == 0
  {
    var r := Reversed(d) + Zeros(KEY_SZ - DIGEST);
    assert r[..DIGEST] == Reversed(d);
    assert Reversed(Reversed(d)) == d;
  }

  /** The first half of the routine: memory up to the comparison's left side. */
  method DecryptToDigest(regs: CryptoRegs, mem: array<byte>, base: nat, n: nat, eng: Engine)
    requires eng.Valid() && n + 5 * KEY_SZ <= mem.Length
    modifies regs, mem
    ensures var ready := ReadyFor(old(mem[..]), base, n, old(regs.rsaNPtr), old(regs.rsaW), eng);
            var i := Job(old(mem[..]), n, regs.rsaW, old(regs.rsaNPtr) == base + n + KEY_SZ);
            mem[n + 3 * KEY_SZ..n + 3 * KEY_SZ + DIGEST] == Expected(i, ready, eng)
    ensures mem[0..n] == old(mem[0..n])
    ensures mem[n + RATE..n + 2 * KEY_SZ] == old(mem[n + RATE..n + 2 * KEY_SZ])
    ensures regs.rsaNPtr == base + n + KEY_SZ
    ensures old(regs.rsaNPtr) == base + n + KEY_SZ ==> regs.rsaW == old(regs.rsaW)
  {
    ghost var m0 := mem[..];
    ghost var held, ready := regs.rsaNPtr == base + n + KEY_SZ, ReadyFor(m0, base, n, regs.rsaNPtr, regs.rsaW, eng);
    DecryptSignature(regs, mem, base, n, eng);
    ghost var i := Job(m0, n, regs.rsaW, held);
    DecryptedSlices(m0, n, P2Left(i, ready, eng), RsaResult(i, ready, eng), 0, n);
    DecryptedSlices(m0, n, P2Left(i, ready, eng), RsaResult(i, ready, eng), n + RATE, n + 2 * KEY_SZ);
    ExpectedIsResult(i, ready, eng);
  }

  lemma ExpectedIsResult(i: Inputs, ready: bool, eng: Engine)
    requires eng.Valid() && i.e == EXPONENT
    ensures Expected(i, ready, eng) == Reversed(RsaResult(i, ready, eng)[..DIGEST])
  {
  }

  /** Hashes the data and shows which parts of memory it leaves alone. */
  method Finish(mem: array<byte>, base: nat, n: nat, p2: nat, f: Step) returns (buf: nat)
    requires IsStep(f) && p2 == n + 4 * KEY_SZ && n + 5 * KEY_SZ <= mem.Length
    modifies mem
    ensures buf == StateAt(base, n) && mem[buf..buf + STATE] == Final(f, old(mem[0..n]))
    ensures mem[0..n] == old(mem[0..n]) && mem[buf..buf + DIGEST] == Hash(f, old(mem[0..n]))
    ensures mem[n + RATE..n + 2 * KEY_SZ] == old(mem[n + RATE..n + 2 * KEY_SZ])
    ensures mem[n + 3 * KEY_SZ..n + 3 * KEY_SZ + DIGEST] == old(mem[n + 3 * KEY_SZ..n + 3 * KEY_SZ + DIGEST])
  {
    ghost var before := mem[..];
    buf := SpHash(mem, base, 0, n, p2, f);
    HashedSlices(f, before, n, buf, 0, n);
    HashedSlices(f, before, n, buf, n + RATE, n + 2 * KEY_SZ);
    HashedSlices(f, before, n, buf, n + 3 * KEY_SZ, n + 3 * KEY_SZ + DIGEST);
  }

  /** The hash of `data` destroys P2 of modulus n: its state is not by chance what it covers. */
  predicate P2Destroyed(f: Step, data: seq<byte>, base: nat, n: nat, modulus: nat, p: nat)
    requires IsStep(f)
  {
    var at := StateOffset(base, n);
    modulus > 0 ==> Final(f, data) != P2Bytes(modulus, p)[at..at + STATE]
  }

  /** After a verification the engine is not ready for any image that comes to the same place
      with a modulus whose P2 the hash has destroyed. */
  lemma NotReadyAgain(f: Step, data: seq<byte>, m: seq<byte>, base: nat, n: nat, w: nat, eng: Engine)
    requires IsStep(f) && n + 5 * KEY_SZ <= |m| && P2Destroyed(f, data, base, n, Modulus(m, n), eng.p)
    requires m[StateAt(base, n)..StateAt(base, n) + STATE] == Final(f, data)
    ensures !ReadyFor(m, base, n, base + n + KEY_SZ, w, eng)
  {
    StateInArea(m, base, n);
  }

  lemma SubSlice(s: seq<byte>, a: nat, b: nat, c: nat, d: nat)
    requires a <= b <= |s| && c <= d <= b - a
    ensures s[a..b][c..d] == s[a + c..a + d]
  {
    var x, y := s[a..b][c..d], s[a + c..a + d];
    assert |x| == |y| && forall k :: 0 <= k < |x| ==> x[k] == s[a + c + k] == y[k];
  }

  /** The hash state, seen in memory and in the area of P2. */
  lemma StateInArea(m: seq<byte>, base: nat, n: nat)
    requires n + 5 * KEY_SZ <= |m|
    ensures var buf, at := StateAt(base, n), StateOffset(base, n);
            P2Area(m, n)[at..at + STATE] == m[buf..buf + STATE]
  {
    SubSlice(m, n + 4 * KEY_SZ, n + 5 * KEY_SZ, StateOffset(base, n), StateOffset(base, n) + STATE);
  }

  /** Two verifications, the second of an image of the same length that comes to the same
      place, so that the engine holds its modulus pointer. Main result: unless the first hash
      has by chance left P2 of the second modulus alone, the engine is not ready for the
      second image, and the second verdict is about what it leaves then, given that image's
      signature and modulus and an area with the first hash in it. The engine may leave
      something else each time. */
  method VerifyTwice(regs: CryptoRegs, mem: array<byte>, base: nat, n: nat, f: Step, eng: Engine, later: Engine,
                     image: seq<byte>)
    returns (first: int, second: int, ghost area: seq<byte>)
    requires IsStep(f) && eng.Valid() && later.Valid() && later.p == eng.p
    requires n + 5 * KEY_SZ <= mem.Length && |image| == n + 2 * KEY_SZ
    modifies regs, mem
    ensures |area| == KEY_SZ
    ensures area[StateOffset(base, n)..StateOffset(base, n) + STATE] == Final(f, old(mem[0..n]))
    ensures var i := Inputs(LeNat(image[n..n + KEY_SZ]), EXPONENT, LeNat(image[n + KEY_SZ..]), regs.rsaW, true, area);
            var ready := EngineReady(true, regs.rsaW, i.n, area, eng.p);
            && (second == 0 <==> Expected(i, ready, later) == Hash(f, image[0..n]))
            && (P2Destroyed(f, old(mem[0..n]), base, n, i.n, eng.p) ==> !ready)
  {
    ghost var data := mem[0..n];
    first := Verify(regs, mem, base, n, f, eng);
    ghost var m1 := mem[..];
    Store(mem, 0, image);
    ghost var m2 := mem[..];
    area := P2Area(m2, n);
    Reloaded(m1, image, base, n, regs.rsaW);
    if P2Destroyed(f, data, base, n, Modulus(m2, n), eng.p) {
      NotReadyAgain(f, data, m2, base, n, regs.rsaW, eng);
    }
    assert mem[0..n] == m2[0..n] == image[0..n];
    second := Verify(regs, mem, base, n, f, later);
  }

  /** What a verification finds after an image has been loaded over the old one. */
  lemma Reloaded(m: seq<byte>, image: seq<byte>, base: nat, n: nat, w: nat)
    requires n + 5 * KEY_SZ <= |m| && |image| == n + 2 * KEY_SZ
    ensures var m2, at := Patch(m, 0, image), StateAt(base, n);
            && m2[0..n] == image[0..n] && m2[at..at + STATE] == m[at..at + STATE]
            && P2Area(m2, n)[StateOffset(base, n)..StateOffset(base, n) + STATE] == m[at..at + STATE]
            && Signature(m2, n) == LeNat(image[n..n + KEY_SZ]) && Modulus(m2, n) == LeNat(image[n + KEY_SZ..])
  {
    var m2, at := Patch(m, 0, image), StateAt(base, n);
    PatchSlice(m, 0, image, at, at + STATE);
    PatchInner(m, 0, image, 0, n);
    PatchInner(m, 0, image, n, n + KEY_SZ);
    PatchInner(m, 0, image, n + KEY_SZ, n + 2 * KEY_SZ);
    assert image[n + KEY_SZ..n + 2 * KEY_SZ] == image[n + KEY_SZ..];
    StateInArea(m2, base, n);
  }

  lemma {:induction false} ToLeOfZero(n: nat)
    ensures ToLe(0, n) == Zeros(n)
  {
    if n > 0 {
      ToLeOfZero(n - 1);
      assert Zeros(n) == [0] + Zeros(n - 1);
    }
  }

  /** An input for every hash function: P2 of the modulus 1 is destroyed exactly if the hash
      does not end in the zero state. */
  lemma DestroyedExample(f: Step, data: seq<byte>, base: nat, n: nat, p: nat)
    requires IsStep(f)
    ensures P2Destroyed(f, data, base, n, 1, p) <==> Final(f, data) != Zeros(STATE)
  {
    var at := StateOffset(base, n);
    ToLeOfZero(KEY_SZ);
    assert p * p % 1 == 0;
    assert Zeros(KEY_SZ)[at..at + STATE] == Zeros(STATE);
  }
}
