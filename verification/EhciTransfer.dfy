/** `USB_transfer` and `doTransfer` of usb/ehci_usb.c: the page pointers of a transfer and
    the data toggle that software flips once a transfer while the device flips it once a
    packet (USB 2.0 specification, section 8.6). */
module EhciTransfer {
  import opened Bytes

  const PAGE := 0x1000
  const POINTERS := 5
  const PACKET := 512

  /** Section 3.5.4 of the EHCI specification: the low 12 bits of the first pointer are the
      offset of the transfer, every other pointer gives a page. */
  function AddressOf(buf: seq<nat>, k: nat): nat
    requires |buf| == 5 && buf[0] % 4096 + k < 5 * 4096
  {
    var x := buf[0] % 4096 + k;
    buf[x / 4096] / 4096 * 4096 + x % 4096
  }

  /** The pointer loop of `USB_transfer`. Main result: byte k of the transfer is at addr + k
      for every k the five pointers can reach, and no pointer beyond the last page is written. */
  method SetPointers(hwBuf: array<nat>, addr0: nat, wLen: nat)
    requires hwBuf.Length == POINTERS && addr0 + wLen <= TWO_32 && addr0 < TWO_32 && wLen < 0x8000_0000
    modifies hwBuf
    ensures hwBuf[0] == addr0
    ensures forall k :: 0 <= k < wLen && addr0 % 4096 + k < 5 * 4096 ==> AddressOf(hwBuf[..], k) == addr0 + k
    ensures forall i :: 1 <= i < 5 && i * 4096 >= addr0 % 4096 + wLen ==> hwBuf[i] == old(hwBuf[i])
  {
    hwBuf[0] := addr0;
    var cnt: int := wLen - (PAGE - addr0 % PAGE);
    var addr := Wrap32((addr0 + PAGE) / PAGE * PAGE);
    var page := addr0 / PAGE;
    var i := 1;
    while i < POINTERS
      invariant 1 <= i <= POINTERS && hwBuf[0] == addr0
      invariant cnt == addr0 % PAGE + wLen - i * PAGE
      invariant addr == Wrap32((page + i) * PAGE)
      invariant forall p :: 1 <= p < i ==> (p * PAGE < addr0 % PAGE + wLen && hwBuf[p] == Wrap32((page + p) * PAGE))
      invariant forall p :: i <= p < POINTERS ==> hwBuf[p] == old(hwBuf[p])
    {
      if cnt <= 0 {
        break;
      }
      hwBuf[i] := addr;
      cnt := cnt - PAGE;
      addr := Wrap32(addr + PAGE);
      i := i + 1;
    }
    PointersReach(hwBuf[..], addr0, wLen, i);
  }

  /** Page pointers up to the i-th, which the transfer does not need, reach every byte. */
  lemma PointersReach(b: seq<nat>, addr: nat, wLen: nat, i: nat)
    requires |b| == POINTERS && addr < TWO_32 && addr + wLen <= TWO_32 && b[0] == addr && 1 <= i <= POINTERS
    requires forall p :: 1 <= p < i ==> (p * PAGE < addr % PAGE + wLen && b[p] == Wrap32((addr / PAGE + p) * PAGE))
    requires i < POINTERS ==> addr % PAGE + wLen <= i * PAGE
    ensures forall k :: 0 <= k < wLen && addr % PAGE + k < POINTERS * PAGE ==> AddressOf(b, k) == addr + k
  {
    forall k | 0 <= k < wLen && addr % PAGE + k < POINTERS * PAGE
      ensures AddressOf(b, k) == addr + k
    {
      var x := addr % PAGE + k;
      var p := x / PAGE;
      assert p * PAGE <= x < addr % PAGE + wLen;
      assert p >= i ==> p * PAGE >= i * PAGE;
      assert 1 <= p ==> b[p] == (addr / PAGE + p) * PAGE;
    }
  }

  const TD_TOGGLE: bv32 := 0x8000_0000
  const TX_BYTES: bv32 := 0x7FFF_0000
  const TD_IN_DEFAULT: bv32 := 0x0200_8D80

  /** The data toggle is bit 31 of the token (section 3.5.3 of the EHCI specification). */
  predicate ToggleOf(info: bv32) {
    info / 0x8000_0000 == 1
  }

  /** One IN endpoint: the software's TD info word, the device's own toggle, and the lengths
      of the packets the device has ready. */
  class InPipe {
    var info: bv32
    var devToggle: bool
    var pending: seq<nat>

    predicate InSync()
      reads this
    {
      ToggleOf(info) == devToggle
    }

    /** The controller runs a transfer: it starts with the software's toggle and flips its own
        copy per packet; a packet with the wrong toggle would be dropped, so this needs the
        toggles to agree. It ends when the length is reached or on a short packet. */
    method RunPackets(toggle: bool, wLen0: nat)
      requires toggle == devToggle
      modifies this`devToggle, this`pending
      ensures pending == old(pending)[Taken(old(pending), wLen0)..]
      ensures devToggle == (old(devToggle) != (Taken(old(pending), wLen0) % 2 == 1))
    {
      var wLen: nat := wLen0;
      var hwToggle, more := toggle, true;
      ghost var n: nat := 0;
      while more && wLen > 0 && pending != []
        invariant n + Rest(more, pending, wLen) == Taken(old(pending), wLen0)
        invariant n <= |old(pending)| && pending == old(pending)[n..]
        invariant hwToggle == devToggle == (old(devToggle) != (n % 2 == 1))
        decreases |pending|
      {
        OneMoreTaken(pending, wLen);
        var p := pending[0];
        pending := pending[1..];
        more := p >= PACKET;
        wLen := if p >= wLen then 0 else wLen - p;
        hwToggle, devToggle := !hwToggle, !devToggle;
        n := n + 1;
      }
    }

    /** The bit operations on the TD info word: bits 16 to 30 are the length, bit 7 makes it
        active, and bit 8 stands for IN (section 3.5.3 of the EHCI specification). */
    method ClearLength()
      modifies this`info
      ensures ToggleOf(info) == old(ToggleOf(info))
      ensures info & 0x7FFF_0000 == 0 && info & 0xFFFF == old(info) & 0xFFFF
    {
      info := info & !TX_BYTES;
    }

    method Activate()
      modifies this`info
      ensures ToggleOf(info) == old(ToggleOf(info)) && info & 0x180 == 0x180
    {
      info := info | TD_IN_DEFAULT;
    }

    method FlipToggle()
      modifies this`info
      ensures ToggleOf(info) != old(ToggleOf(info)) && info & 0x7FFF_FFFF == old(info) & 0x7FFF_FFFF
    {
      info := info ^ TD_TOGGLE;
    }

    /** `USB_transfer` on this endpoint: one toggle flip in software, whatever the length. */
    method UsbTransfer(wLen0: nat)
      requires InSync()
      modifies this
      ensures pending == old(pending)[Taken(old(pending), TransferLength(wLen0))..]
      ensures devToggle == (old(devToggle) != (Taken(old(pending), TransferLength(wLen0)) % 2 == 1))
      ensures ToggleOf(info) != old(ToggleOf(info))
    {
      ClearLength();
      var wLen := wLen0;
      if wLen > PACKET {
        wLen := wLen + CSW_SIZE;
      }
      assert wLen == TransferLength(wLen0);
      ghost var n := Taken(pending, wLen);
      RunPackets(ToggleOf(info), wLen);
      assert n == Taken(old(pending), TransferLength(wLen0)) && pending == old(pending)[n..];
      FlipToggle();
    }

    /** The data and status stages of `doTransfer` for a read of `count` sectors. Main result
        on toggles: the pipe stays in sync exactly for a count of 0, 1 or an even number. */
    method ReadStages(count: nat)
      requires InSync() && pending == []
      modifies this
      ensures pending == []
      ensures InSync() <==> KeepsSync(count)
    {
      pending := Reply(count);
      ReplyTaken(count);
      Activate();
      var dataLength := count * PACKET;
      if dataLength != 0 {
        UsbTransfer(dataLength);
        assert pending == if count > 1 then [] else [CSW_SIZE];
        assert InSync() <==> count == 1 || count % 2 == 0;
      }
      if dataLength <= PACKET {
        UsbTransfer(CSW_SIZE);
      }
    }
  }

  /** A run of reads, ended early when sync is lost. Main result on runs: it keeps sync
      exactly if every count is 0, 1 or even. */
  method RunReads(pipe: InPipe, counts: seq<nat>)
    requires pipe.InSync() && pipe.pending == []
    modifies pipe
    ensures pipe.InSync() <==> forall i :: 0 <= i < |counts| ==> KeepsSync(counts[i])
  {
    for i := 0 to |counts|
      invariant pipe.InSync() && pipe.pending == []
      invariant forall j :: 0 <= j < i ==> KeepsSync(counts[j])
    {
      pipe.ReadStages(counts[i]);
      if !pipe.InSync() {
        return;
      }
    }
  }

  /** A transfer of more than a packet also collects the status wrapper. */
  function TransferLength(wLen: nat): nat {
    if wLen > PACKET then wLen + CSW_SIZE else wLen
  }

  /** How many of the ready packets a transfer of n bytes takes. A packet of a high-speed bulk
      endpoint has 512 bytes (section 5.8.3 of the USB 2.0 specification) unless it is the last. */
  function Taken(q: seq<nat>, n: nat): (t: nat)
    ensures t <= |q|
  {
    if q == [] || n == 0 then 0
    else if q[0] < 512 || q[0] >= n then 1
    else 1 + Taken(q[1..], n - q[0])
  }

  /** How many more packets a transfer takes, unless a short one has ended it. */
  function Rest(more: bool, q: seq<nat>, n: nat): nat {
    if more then Taken(q, n) else 0
  }

  lemma {:induction false} OneMoreTaken(q: seq<nat>, n: nat)
    requires q != [] && n > 0
    ensures Taken(q, n) == 1 + Rest(q[0] >= PACKET, q[1..], if q[0] >= n then 0 else n - q[0])
  {
  }

  /** What the device sends for a read of `count` sectors: data, then the 13 bytes of the status
      wrapper (bulk-only transport, section 5.2). */
  function Reply(count: nat): (q: seq<nat>)
    ensures |q| == count + 1
  {
    if count == 0 then [13] else [512] + Reply(count - 1)
  }

  predicate KeepsSync(count: nat) {
    count <= 1 || count % 2 == 0
  }

  lemma {:induction false} AllTaken(count: nat)
    ensures Taken(Reply(count), count * PACKET + CSW_SIZE) == count + 1
  {
    if count > 0 {
      AllTaken(count - 1);
      assert Reply(count)[1..] == Reply(count - 1);
    }
  }

  lemma {:induction false} ReplyTaken(count: nat)
    ensures count > 1 ==> Taken(Reply(count), TransferLength(count * PACKET)) == count + 1
    ensures count > 1 ==> Reply(count)[count + 1..] == []
    ensures count == 1 ==> Taken(Reply(count), TransferLength(PACKET)) == 1 && Reply(count)[1..] == [CSW_SIZE]
    ensures Reply(0) == [CSW_SIZE] && Taken([CSW_SIZE], TransferLength(CSW_SIZE)) == 1 && [CSW_SIZE][1..] == []
  {
    AllTaken(count);
  }
}
