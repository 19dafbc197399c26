/** The UART framing of otp/mon_rw_otp.c: the encoder `write_package`, the byte-driven
    receiver `receive_package` and the checksum test of `parser_package`. */
module OtpFrame {
  import opened Bytes
  import opened DivMod
  import opened Wrappers

  const PACKAGE_SIZE_MAX := 150
  const HEADER_SIZE := 6
  const START1: byte := 0xFF
  const START2: byte := 0xFE

  /** Exclusive or of numbers below 2^bits. */
  function Xor(a: nat, b: nat, bits: nat): (x: nat)
    requires a < Pow2(bits) && b < Pow2(bits)
    ensures x < Pow2(bits)
  {
    if bits == 0 then 0 else (if a % 2 == b % 2 then 0 else 1) + 2 * Xor(a / 2, b / 2, bits - 1)
  }

  function XorBytes(a: byte, b: byte): byte {
    ByteRange();
    Xor(a, b, 8)
  }

  lemma ByteRange()
    ensures Pow2(8) == 0x100
  {
  }

  /** Bit k of a number. */
  function Bit(x: nat, k: nat): nat {
    Shr(x, k) % 2
  }

  lemma BitOfHalf(x: nat, k: nat)
    requires k > 0
    ensures Bit(x, k) == Bit(x / 2, k - 1)
  {
    DivTwice(x, 2, Pow2(k - 1));
  }

  lemma XorHalf(a: nat, b: nat, bits: nat)
    requires bits > 0 && a < Pow2(bits) && b < Pow2(bits)
    ensures Xor(a, b, bits) / 2 == Xor(a / 2, b / 2, bits - 1)
    ensures Xor(a, b, bits) % 2 == (a % 2 + b % 2) % 2
  {
  }

  lemma LowestBit(x: nat)
    ensures Bit(x, 0) == x % 2
  {
    assert Pow2(0) == 1;
  }

  lemma {:induction false} XorBit(a: nat, b: nat, bits: nat, k: nat)
    requires a < Pow2(bits) && b < Pow2(bits) && k < bits
    ensures Bit(Xor(a, b, bits), k) == (Bit(a, k) + Bit(b, k)) % 2
    decreases bits
  {
    var x := Xor(a, b, bits);
    XorHalf(a, b, bits);
    if k == 0 {
      LowestBit(x);
      LowestBit(a);
      LowestBit(b);
    } else {
      BitOfHalf(x, k);
      BitOfHalf(a, k);
      BitOfHalf(b, k);
      XorBit(a / 2, b / 2, bits - 1, k - 1);
    }
  }

  /** The number of bytes with bit k set. */
  function Ones(s: seq<byte>, k: nat): nat {
    if s == [] then 0 else Ones(s[..|s| - 1], k) + Bit(s[|s| - 1], k)
  }

  /** Bit by bit the checksum is the parity of the bytes' bits. */
  lemma {:induction false} ChecksumIsParity(s: seq<byte>, k: nat)
    requires s != [] && k < 8
    ensures Bit(XorAll(s), k) == Ones(s, k) % 2
    decreases |s|
  {
    var n := |s| - 1;
    if n == 0 {
      assert Ones(s[..0], k) == 0 && Bit(s[0], k) < 2;
    } else {
      ChecksumIsParity(s[..n], k);
      XorBytesBit(XorAll(s[..n]), s[n], k);
      ParityOfSum(Ones(s[..n], k), Bit(s[n], k));
    }
  }

  lemma XorBytesBit(a: byte, b: byte, k: nat)
    requires k < 8
    ensures Bit(XorBytes(a, b), k) == (Bit(a, k) + Bit(b, k)) % 2
  {
    ByteRange();
    XorBit(a, b, 8, k);
  }

  lemma ParityOfSum(x: nat, y: nat)
    ensures (x % 2 + y) % 2 == (x + y) % 2
  {
  }

  lemma {:induction false} XorCancels(a: nat, b: nat, c: nat, d: nat, bits: nat)
    requires a < Pow2(bits) && b < Pow2(bits) && c < Pow2(bits) && d < Pow2(bits)
    requires Xor(a, b, bits) == Xor(c, d, bits)
    ensures a == c <==> b == d
  {
    if bits > 0 {
      XorCancels(a / 2, b / 2, c / 2, d / 2, bits - 1);
    }
  }

  lemma XorBytesCancel(a: byte, b: byte, c: byte, d: byte)
    requires XorBytes(a, b) == XorBytes(c, d)
    ensures a == c <==> b == d
  {
    ByteRange();
    XorCancels(a, b, c, d, 8);
  }

  /** The exclusive or of all bytes, from the first one on. */
  function XorAll(s: seq<byte>): byte
    requires s != []
  {
    if |s| == 1 then s[0] else XorBytes(XorAll(s[..|s| - 1]), s[|s| - 1])
  }

  /** `checksum`. */
  method Checksum(data: array<byte>, len: nat) returns (sum: byte)
    requires 0 < len <= data.Length
    ensures sum == XorAll(data[..len])
  {
    sum := data[0];
    assert data[..1] == [data[0]];
    for i := 1 to len
      invariant sum == XorAll(data[..i])
    {
      assert data[..i + 1][..i] == data[..i];
      sum := XorBytes(sum, data[i]);
    }
  }

  function Header(event: byte, command: byte, len: nat): (h: seq<byte>)
    requires len < 0x1_0000
    ensures |h| == HEADER_SIZE
  {
    [START1, START2, event, command, len % 0x100, len / 0x100]
  }

  function Body(event: byte, command: byte, payload: seq<byte>): seq<byte>
    requires |payload| < 0x1_0000
  {
    Header(event, command, |payload|) + payload
  }

  function Frame(event: byte, command: byte, payload: seq<byte>): (f: seq<byte>)
    requires |payload| < 0x1_0000
    ensures |f| == |payload| + HEADER_SIZE + 1
  {
    Body(event, command, payload) + [XorAll(Body(event, command, payload))]
  }

  /** `write_package`; the result is what goes out on the UART. */
  method WritePackage(event: byte, command: byte, data: seq<byte>) returns (sent: seq<byte>)
    requires |data| + HEADER_SIZE + 1 <= PACKAGE_SIZE_MAX
    ensures sent == Frame(event, command, data)
  {
    var len := |data|;
    var package := new byte[PACKAGE_SIZE_MAX](_ => 0);
    PutHeader(package, event, command, len);
    CopyPayload(package, data);
    var sum := Checksum(package, len + HEADER_SIZE);
    package[6 + len] := sum;
    sent := package[..len + HEADER_SIZE + 1];
    assert sent == package[..6 + len] + [sum];
  }

  method PutHeader(package: array<byte>, event: byte, command: byte, len: nat)
    requires HEADER_SIZE <= package.Length && len < 0x1_0000
    modifies package
    ensures package[..HEADER_SIZE] == Header(event, command, len)
  {
    package[0], package[1], package[2], package[3] := START1, START2, event, command;
    package[4] := len % 0x100;
    package[5] := len / 0x100 % 0x100;
    assert len / 0x100 % 0x100 == len / 0x100;
  }

  /** The payload behind the header. */
  method CopyPayload(package: array<byte>, data: seq<byte>)
    requires HEADER_SIZE + |data| <= package.Length
    modifies package
    ensures package[..HEADER_SIZE + |data|] == old(package[..HEADER_SIZE]) + data
  {
    for i := 0 to |data|
      invariant package[..HEADER_SIZE + i] == old(package[..HEADER_SIZE]) + data[..i]
    {
      package[HEADER_SIZE + i] := data[i];
      assert package[..HEADER_SIZE + i + 1] == package[..HEADER_SIZE + i] + [data[i]];
    }
    assert data[..|data|] == data;
  }

  function PayloadLen(f: seq<byte>): nat
    requires |f| >= HEADER_SIZE
  {
    f[4] + 0x100 * (f[5] as int)
  }

  /** The frame is complete: as long as its own length field says. */
  predicate Complete(buf: seq<byte>) {
    |buf| > HEADER_SIZE && |buf| == PayloadLen(buf) + HEADER_SIZE + 1
  }

  /** The receiver's buffer after one more byte, before the overflow test. */
  function Take(buf: seq<byte>, b: byte): seq<byte> {
    if (buf == [] && b == START1) || (|buf| == 1 && b == START2) || |buf| > 1 then buf + [b] else []
  }

  /** The receiver's buffer after the overflow test. */
  function Kept(next: seq<byte>, bufsize: nat): seq<byte> {
    if |next| >= bufsize then [] else next
  }

  datatype Listening = Done(frame: seq<byte>) | Waiting(buf: seq<byte>)

  /** What a receiver that has `buf` makes of a byte stream. */
  function Listen(buf: seq<byte>, stream: seq<byte>, bufsize: nat): Listening
    decreases |stream|
  {
    if stream == [] then Waiting(buf)
    else
      var next := Take(buf, stream[0]);
      if Complete(next) then Done(next)
      else Listen(Kept(next, bufsize), stream[1..], bufsize)
  }

  /** One turn of the receive loop: perhaps a byte, and whether the overall time is up. */
  datatype Tick = Tick(rx: Option<byte>, expired: bool)

  datatype Ending = Received | TimedOut | StillWaiting

  function BytesOf(ticks: seq<Tick>): seq<byte> {
    if ticks == [] then [] else (if ticks[0].rx.Some? then [ticks[0].rx.value] else []) + BytesOf(ticks[1..])
  }

  /** The package length that bytes received so far announce; 0 before the length field. */
  function Announced(buf: seq<byte>): nat {
    if |buf| >= HEADER_SIZE then PayloadLen(buf) + HEADER_SIZE + 1 else 0
  }

  /** The handling of one received byte. */
  method ReceiveByte(data: array<byte>, byte: byte, readnum0: nat, packagelen0: nat)
    returns (done: bool, readnum: nat, packagelen: nat)
    requires data.Length > HEADER_SIZE && readnum0 < data.Length
    requires packagelen0 == Announced(data[..readnum0]) && !Complete(data[..readnum0])
    modifies data
    ensures var next := Take(old(data[..readnum0]), byte);
            && readnum <= data.Length && (done <==> Complete(next))
            && data[..readnum] == (if done then next else Kept(next, data.Length))
            && (!done ==> readnum < data.Length)
            && packagelen == Announced(data[..readnum])
  {
    ghost var before := data[..readnum0];
    readnum, packagelen, done := readnum0, packagelen0, false;
    if byte == START1 && readnum == 0 {
      data[readnum] := byte;
      readnum := readnum + 1;
    } else if byte == START2 && readnum == 1 {
      data[readnum] := byte;
      readnum := readnum + 1;
    } else if readnum > 1 && packagelen == 0 {
      data[readnum] := byte;
      readnum := readnum + 1;
      if readnum == 6 {
        var payloadlen := data[4] + 0x100 * (data[5] as int);
        packagelen := payloadlen + 7;
      }
    } else if readnum > 1 && packagelen != 0 {
      data[readnum] := byte;
      readnum := readnum + 1;
      if readnum == packagelen {
        done := true;
        assert data[..readnum] == Take(before, byte);
        return;
      }
    } else {
      readnum, packagelen := 0, 0;
    }
    assert data[..readnum] == Take(before, byte);
    if readnum >= data.Length {
      readnum, packagelen := 0, 0;
    }
  }

  /** `receive_package` on a sequence of turns; a read of the UART that times out or fails is
      a turn without a byte. Main result: it delivers what Listen delivers on the bytes of the
      turns it used, every store is inside the buffer, and without a time-out the package
      length is the number of bytes stored and fits the buffer. After a time-out it is what
      the length field promised, although the frame is not complete. */
  method ReceivePackage(data: array<byte>, ticks: seq<Tick>) returns (packagelen: nat, ending: Ending, used: nat)
    requires data.Length > HEADER_SIZE
    modifies data
    ensures used <= |ticks| && (ending.StillWaiting? ==> used == |ticks|)
    ensures ending.Received? ==>
              packagelen <= data.Length && Listen([], BytesOf(ticks[..used]), data.Length) == Done(data[..packagelen])
    ensures !ending.Received? ==>
              exists readnum :: 0 <= readnum < data.Length && packagelen == Announced(data[..readnum])
                && Listen([], BytesOf(ticks[..used]), data.Length) == Waiting(data[..readnum])
    ensures ending.TimedOut? ==> used > 0 && ticks[used - 1].expired
    ensures forall i :: 0 <= i < used - 1 ==> !ticks[i].expired
  {
    for i := 0 to data.Length
    {
      data[i] := 0;
    }
    var readnum: nat := 0;
    packagelen := 0;
    used := 0;
    while used < |ticks|
      invariant used <= |ticks| && readnum < data.Length
      invariant Heard(ticks[..used], data[..readnum], data.Length) && packagelen == Announced(data[..readnum])
      invariant forall i :: 0 <= i < used ==> !ticks[i].expired
    {
      var t := ticks[used];
      assert ticks[..used + 1] == ticks[..used] + [t];
      NextTick(ticks[..used], data[..readnum], t, data.Length);
      used := used + 1;
      if t.rx.Some? {
        var done;
        done, readnum, packagelen := ReceiveByte(data, t.rx.value, readnum, packagelen);
        if done {
          ending := Received;
          return;
        }
      }
      if t.expired {
        ending := TimedOut;
        return;
      }
    }
    ending := StillWaiting;
    assert ticks[..used] == ticks;
  }

  lemma {:induction false} ListenConcat(buf: seq<byte>, a: seq<byte>, b: seq<byte>, bufsize: nat)
    ensures Listen(buf, a, bufsize).Waiting? ==>
              Listen(buf, a + b, bufsize) == Listen(Listen(buf, a, bufsize).buf, b, bufsize)
    ensures Listen(buf, a, bufsize).Done? ==> Listen(buf, a + b, bufsize) == Listen(buf, a, bufsize)
    decreases |a|
  {
    if a == [] {
      assert a + b == b;
    } else {
      assert (a + b)[1..] == a[1..] + b;
      var next := Take(buf, a[0]);
      if !Complete(next) {
        ListenConcat(Kept(next, bufsize), a[1..], b, bufsize);
      }
    }
  }

  lemma {:induction false} BytesOfSnoc(ticks: seq<Tick>, t: Tick)
    ensures BytesOf(ticks + [t]) == BytesOf(ticks) + if t.rx.Some? then [t.rx.value] else []
  {
    if ticks == [] {
      assert ticks + [t] == [t] && [t][1..] == [];
    } else {
      BytesOfSnoc(ticks[1..], t);
      assert (ticks + [t])[1..] == ticks[1..] + [t];
    }
  }

  /** One more turn, seen from the stream. */
  lemma {:induction false} ListenTick(ticks: seq<Tick>, t: Tick, bufsize: nat)
    requires Listen([], BytesOf(ticks), bufsize).Waiting?
    ensures var buf := Listen([], BytesOf(ticks), bufsize).buf;
            var after := Listen([], BytesOf(ticks + [t]), bufsize);
            if t.rx.None? then after == Waiting(buf)
            else var next := Take(buf, t.rx.value);
                 after == if Complete(next) then Done(next) else Waiting(Kept(next, bufsize))
  {
    BytesOfSnoc(ticks, t);
    if t.rx.Some? {
      ListenConcat([], BytesOf(ticks), [t.rx.value], bufsize);
      assert [t.rx.value][1..] == [];
    } else {
      assert BytesOf(ticks) + [] == BytesOf(ticks);
    }
  }

  /** The turns so far have left `buf` with the receiver. */
  ghost predicate Heard(ticks: seq<Tick>, buf: seq<byte>, bufsize: nat) {
    !Complete(buf) && Listen([], BytesOf(ticks), bufsize) == Waiting(buf)
  }

  lemma {:induction false} NextTick(ticks: seq<Tick>, buf: seq<byte>, t: Tick, bufsize: nat)
    requires Heard(ticks, buf, bufsize) && bufsize > 0
    ensures t.rx.None? ==> Heard(ticks + [t], buf, bufsize)
    ensures t.rx.Some? && Complete(Take(buf, t.rx.value)) ==>
              Listen([], BytesOf(ticks + [t]), bufsize) == Done(Take(buf, t.rx.value))
    ensures t.rx.Some? && !Complete(Take(buf, t.rx.value)) ==>
              Heard(ticks + [t], Kept(Take(buf, t.rx.value), bufsize), bufsize)
  {
    ListenTick(ticks, t, bufsize);
  }

  /** The checksum test of `parser_package`. */
  predicate Accepts(f: seq<byte>)
    requires |f| > HEADER_SIZE && PayloadLen(f) + HEADER_SIZE <= |f|
  {
    XorAll(f[..PayloadLen(f) + HEADER_SIZE]) == f[|f| - 1]
  }

  lemma {:induction false} FrameIsHeard(f: seq<byte>, k: nat, rest: seq<byte>, bufsize: nat)
    requires |f| > HEADER_SIZE && f[0] == START1 && f[1] == START2 && Complete(f) && k < |f| <= bufsize
    ensures Listen(f[..k], f[k..] + rest, bufsize) == Done(f)
    decreases |f| - k
  {
    var stream := f[k..] + rest;
    assert stream[0] == f[k] && stream[1..] == f[k + 1..] + rest;
    assert Take(f[..k], f[k]) == f[..k + 1];
    if k + 1 < |f| {
      FrameIsHeard(f, k + 1, rest, bufsize);
    } else {
      assert f[..k + 1] == f;
    }
  }

  lemma {:induction false} NoiseIsIgnored(noise: seq<byte>, bufsize: nat)
    requires START1 !in noise && bufsize > 0
    ensures Listen([], noise, bufsize) == Waiting([])
  {
    if noise != [] {
      NoiseIsIgnored(noise[1..], bufsize);
    }
  }

  /** The places of a frame's parts. */
  lemma FrameShape(event: byte, command: byte, payload: seq<byte>)
    requires |payload| < 0x1_0000
    ensures var f := Frame(event, command, payload);
            && f[0] == 0xFF && f[1] == 0xFE && f[2] == event && f[3] == command
            && LeNat(f[4..6]) == |payload| && f[6..|f| - 1] == payload && f[|f| - 1] == XorAll(f[..|f| - 1])
            && Complete(f) && Accepts(f)
  {
    var f, b := Frame(event, command, payload), Body(event, command, payload);
    assert f[..|b|] == b;
    LeNatTwo(f[4..6]);
  }

  /** Main result: whatever follows, and behind any noise that leaves the receiver idle (all
      noise without 0xFF does), a sent frame is received as it is and passes the test. */
  lemma {:induction false} ReceivesWhatWasSent(event: byte, command: byte, payload: seq<byte>, noise: seq<byte>,
                                               rest: seq<byte>)
    requires |payload| + 7 <= 150
    requires 0xFF !in noise || Listen([], noise, PACKAGE_SIZE_MAX) == Waiting([])
    ensures var f := Frame(event, command, payload);
            && Listen([], noise + f + rest, PACKAGE_SIZE_MAX) == Done(f) && Accepts(f)
            && f[2] == event && f[3] == command && f[6..|f| - 1] == payload
  {
    var f := Frame(event, command, payload);
    if 0xFF !in noise {
      NoiseIsIgnored(noise, PACKAGE_SIZE_MAX);
    }
    FrameShape(event, command, payload);
    FrameIsHeard(f, 0, rest, PACKAGE_SIZE_MAX);
    assert f[..0] == [] && f[0..] == f && noise + f + rest == noise + (f + rest);
    ListenConcat([], noise, f + rest, PACKAGE_SIZE_MAX);
  }

  /** After a lone 0xFF the receiver takes the frame's own 0xFF for a wrong second byte: it loses
      the frame's start, and the whole frame if no other 0xFF is in it. */
  lemma {:induction false} LoneStartByteLosesFrame(event: byte, command: byte, payload: seq<byte>, rest: seq<byte>)
    requires |payload| + 7 <= 150
    ensures var f := Frame(event, command, payload);
            && Listen([], [0xFF] + f + rest, PACKAGE_SIZE_MAX) == Listen([], f[2..] + rest, PACKAGE_SIZE_MAX)
            && (0xFF !in f[2..] ==>
                  Listen([], [0xFF] + f + rest, PACKAGE_SIZE_MAX) == Listen([], rest, PACKAGE_SIZE_MAX))
  {
    var f := Frame(event, command, payload);
    FrameShape(event, command, payload);
    var lost: seq<byte> := [0xFF, 0xFF, 0xFE];
    assert lost[1..] == [0xFF, 0xFE] && lost[1..][1..] == [0xFE] && lost[1..][1..][1..] == [];
    assert Listen([], lost, PACKAGE_SIZE_MAX) == Waiting([]);
    assert f == [0xFF, 0xFE] + f[2..];
    assert [0xFF] + f + rest == lost + (f[2..] + rest);
    ListenConcat([], lost, f[2..] + rest, PACKAGE_SIZE_MAX);
    if 0xFF !in f[2..] {
      NoiseIsIgnored(f[2..], PACKAGE_SIZE_MAX);
      ListenConcat([], f[2..], rest, PACKAGE_SIZE_MAX);
    }
  }

  /** Everything the receiver delivers, from any stream, has the shape of a frame. */
  lemma {:induction false} DeliversOnlyFrames(buf: seq<byte>, stream: seq<byte>, bufsize: nat)
    requires |buf| < bufsize && (|buf| > 0 ==> buf[0] == START1) && (|buf| > 1 ==> buf[1] == START2)
    ensures var l := Listen(buf, stream, bufsize);
            l.Done? ==> Complete(l.frame) && |l.frame| <= bufsize && l.frame[0] == START1 && l.frame[1] == START2
    decreases |stream|
  {
    if stream != [] {
      var next := Take(buf, stream[0]);
      if !Complete(next) {
        DeliversOnlyFrames(Kept(next, bufsize), stream[1..], bufsize);
      }
    }
  }

  lemma {:induction false} XorAllDiffers(s: seq<byte>, i: nat, b: byte)
    requires i < |s| && b != s[i]
    ensures XorAll(s[i := b]) != XorAll(s)
  {
    var t, n := s[i := b], |s| - 1;
    if n > 0 {
      if i < n {
        XorAllDiffers(s[..n], i, b);
        assert t[..n] == s[..n][i := b];
      } else {
        assert t[..n] == s[..n];
      }
      if XorAll(t) == XorAll(s) {
        XorBytesCancel(XorAll(s[..n]), s[n], XorAll(t[..n]), t[n]);
      }
    }
  }

  /** One corrupted byte outside the length field is always noticed. */
  lemma OneByteErrorShows(f: seq<byte>, i: nat, b: byte)
    requires Complete(f) && Accepts(f) && i < |f| && i != 4 && i != 5 && b != f[i]
    ensures Complete(f[i := b]) && !Accepts(f[i := b])
  {
    var n := |f| - 1;
    if i < n {
      XorAllDiffers(f[..n], i, b);
      assert f[i := b][..n] == f[..n][i := b];
    } else {
      assert f[i := b][..n] == f[..n];
    }
  }
}
