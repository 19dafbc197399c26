/** Transfer descriptors built by `bulk_tx` and `ctrl_tx` of usb/xhci_usb.c. */
module BulkTd {
  import opened Bytes
  import opened TransferRing
  import RingProtocol

  const WINDOW := 0x1_0000      // TRB_MAX_BUFF_SIZE
  const BOUNDARY := 64 * 1024   // of section 6.4.1 of the xHCI specification

  datatype Piece = Piece(addr: nat, len: nat)

  /** Cuts a buffer at every 64 KB boundary inside it. */
  function Split(addr: nat, len: nat): seq<Piece> {
    SplitFrom(addr, len, WINDOW - addr % WINDOW)
  }

  /** Cuts a buffer after `room` bytes and then every 64 KB. */
  function SplitFrom(addr: nat, len: nat, room: nat): seq<Piece>
    decreases len
  {
    if len <= room || room == 0 then [Piece(addr, len)]
    else [Piece(addr, room)] + SplitFrom(addr + room, len - room, WINDOW)
  }

  /** The number of 64 KB windows a buffer touches; an empty buffer counts as one. */
  function Windows(addr: nat, len: nat): nat {
    if len == 0 then 1 else (addr + len - 1) / BOUNDARY - addr / BOUNDARY + 1
  }

  function TotalLength(ps: seq<Piece>): nat {
    if ps == [] then 0 else ps[0].len + TotalLength(ps[1..])
  }

  /** Section 6.4.1 of the xHCI specification: no TRB's buffer crosses a 64 KB boundary. */
  predicate InOneWindow(p: Piece) {
    p.len == 0 || p.addr / BOUNDARY == (p.addr + p.len - 1) / BOUNDARY
  }

  /** The next 64 KB boundary above addr, and which addresses lie below it. */
  lemma NextBoundary(addr: nat, n: nat)
    ensures var room := WINDOW - addr % WINDOW;
            && (addr + room) % WINDOW == 0 && (addr + room) / WINDOW == addr / WINDOW + 1
            && (n < room ==> (addr + n) / WINDOW == addr / WINDOW)
  {
  }

  lemma {:induction false} SplitCount(addr: nat, len: nat)
    ensures |Split(addr, len)| == Windows(addr, len)
    ensures TotalLength(Split(addr, len)) == len
    decreases len
  {
    var room := WINDOW - addr % WINDOW;
    if len <= room {
      NextBoundary(addr, if len == 0 then 0 else len - 1);
      assert TotalLength([Piece(addr, len)]) == len + TotalLength([]);
    } else {
      NextBoundary(addr, 0);
      SplitCount(addr + room, len - room);
      assert Split(addr, len)[1..] == Split(addr + room, len - room);
    }
  }

  lemma {:induction false} SplitPieces(addr: nat, len: nat)
    ensures var ps := Split(addr, len);
            && ps[0].addr == addr
            && (forall i :: 0 <= i < |ps| ==> InOneWindow(ps[i]) && (len > 0 ==> ps[i].len > 0))
            && (forall i :: 0 <= i < |ps| - 1 ==> ps[i + 1].addr == ps[i].addr + ps[i].len)
    decreases len
  {
    var ps, room := Split(addr, len), WINDOW - addr % WINDOW;
    NextBoundary(addr, if 0 < len <= room then len - 1 else room - 1);
    if len > room {
      SplitPieces(addr + room, len - room);
      PrependPiece(Piece(addr, room), Split(addr + room, len - room));
      assert ps == [Piece(addr, room)] + Split(addr + room, len - room);
    }
  }

  lemma PrependPiece(p: Piece, ps: seq<Piece>)
    requires ps != [] && ps[0].addr == p.addr + p.len
    requires forall i :: 0 <= i < |ps| - 1 ==> ps[i + 1].addr == ps[i].addr + ps[i].len
    ensures var qs := [p] + ps; forall i :: 0 <= i < |qs| - 1 ==> qs[i + 1].addr == qs[i].addr + qs[i].len
  {
    var qs := [p] + ps;
    forall i | 0 <= i < |qs| - 1 ensures qs[i + 1].addr == qs[i].addr + qs[i].len {
      assert qs[i + 1] == ps[i] && (i > 0 ==> qs[i] == ps[i - 1]);
    }
  }

  /** CHAIN on all but the last TRB, IOC on the last. */
  function BulkTrbs(ps: seq<Piece>, isIn: bool): (td: seq<Trb>)
    ensures |td| == |ps|
    ensures forall i :: 0 <= i < |td| ==>
      && td[i].param == ps[i].addr && td[i].status == ps[i].len && td[i].kind.Normal?
      && td[i].chain == (i < |td| - 1) && td[i].ioc == (i == |td| - 1) && !td[i].toggle
      && td[i].attrs == PLAIN.(isp := isIn)
  {
    if ps == [] then [] else
      [Trb(ps[0].addr, ps[0].len, Normal, PLAIN.(isp := isIn), false, |ps| > 1, |ps| <= 1, false)]
      + BulkTrbs(ps[1..], isIn)
  }

  lemma QueueAllStep(r: Ring, td: seq<Trb>, first: bool)
    requires r.WellFormed() && r.enq < r.Last() && td != []
    requires forall i :: 0 <= i < |td| ==> !td[i].kind.Link?
    ensures QueueAll(r, td, first) == QueueAll(Queue(r, td[0].(cycle := r.cycle != first), |td| > 1), td[1..], false)
    ensures |td| == 1 ==> QueueAll(r, td, first) == Queue(r, td[0].(cycle := r.cycle != first), false)
  {
  }

  lemma QueueAllHead(r: Ring, ps: seq<Piece>, isIn: bool, first: bool)
    requires r.WellFormed() && r.enq < r.Last() && ps != []
    ensures var t := BulkTrbs(ps, isIn)[0].(cycle := r.cycle != first);
            QueueAll(r, BulkTrbs(ps, isIn), first) == QueueAll(Queue(r, t, |ps| > 1), BulkTrbs(ps[1..], isIn), false)
  {
    assert BulkTrbs(ps, isIn)[1..] == BulkTrbs(ps[1..], isIn);
  }

  /** The first piece, and what is left behind it. */
  lemma NextPiece(addr: nat, len: nat, room: nat)
    requires room > 0
    ensures var ps, n := SplitFrom(addr, len, room), if room > len then len else room;
            && ps != [] && ps[0] == Piece(addr, n)
            && (n == len <==> |ps| == 1)
            && (n < len ==> ps[1..] == SplitFrom(addr + n, len - n, WINDOW))
  {
  }

  /** `num_trbs` as `bulk_tx` predicts it before it queues anything. */
  method PredictTrbs(addr: nat, length: nat) returns (numTrbs: nat)
    ensures numTrbs == Windows(addr, length)
  {
    var runningTotal := WINDOW - addr % WINDOW;
    runningTotal := runningTotal % WINDOW;
    numTrbs := 0;
    if runningTotal != 0 || length == 0 {
      numTrbs := numTrbs + 1;
    }
    while runningTotal < length
      invariant length > 0 ==> runningTotal == numTrbs * WINDOW - addr % WINDOW
      invariant length == 0 ==> numTrbs == 1
      invariant runningTotal < length + WINDOW
    {
      numTrbs := numTrbs + 1;
      runningTotal := runningTotal + WINDOW;
    }
  }

  /** What queueing the TRBs of a buffer, cut after `room` bytes, makes of the ring. */
  ghost function Queued(r: Ring, addr: nat, len: nat, room: nat, isIn: bool, first: bool): Ring
    requires r.WellFormed() && r.enq < r.Last()
  {
    QueueAll(r, BulkTrbs(SplitFrom(addr, len, room), isIn), first)
  }

  /** Queueing the TRB of the next piece leaves the rest of the buffer to be queued. */
  lemma QueuedStep(r: Ring, at: nat, left: nat, room: nat, len: nat, isIn: bool, first: bool, trb: Trb)
    requires r.WellFormed() && r.enq < r.Last() && room > 0 && len == (if room > left then left else room)
    requires var more := |SplitFrom(at, left, room)| > 1;
             trb == Trb(at, len, Normal, PLAIN.(isp := isIn), false, more, !more, r.cycle != first)
    ensures var n := |SplitFrom(at, left, room)|;
            var r' := Queue(r, trb, n > 1);
            && (n > 1 <==> len < left)
            && (n == 1 ==> r' == Queued(r, at, left, room, isIn, first))
            && (n > 1 ==> r'.enq < r'.Last() && |SplitFrom(at + len, left - len, WINDOW)| == n - 1
                          && Queued(r', at + len, left - len, WINDOW, isIn, false)
                             == Queued(r, at, left, room, isIn, first))
  {
    NextPiece(at, left, room);
    QueueAllHead(r, SplitFrom(at, left, room), isIn, first);
  }

  /** The loop body of `bulk_tx`: one Normal TRB, for the first piece of what is left. */
  method QueueNormalTrb(ring: ProducerRing, isIn: bool, numTrbs: nat, firstTrb: bool, startCycle: bool, at: nat,
                        len: nat, ghost left: nat, ghost room: nat)
    requires ring.Valid() && ring.enqueue < ring.trbs.Length - 1
    requires room > 0 && len == (if room > left then left else room) && numTrbs == |SplitFrom(at, left, room)|
    requires firstTrb ==> ring.cycleState == startCycle
    modifies ring, ring.trbs
    ensures ring.Valid() && (numTrbs > 1 <==> len < left)
    ensures len == left ==> ring.View() == Queued(old(ring.View()), at, left, room, isIn, firstTrb)
    ensures len < left ==> ring.enqueue < ring.trbs.Length - 1
                           && |SplitFrom(at + len, left - len, WINDOW)| == numTrbs - 1
                           && Queued(ring.View(), at + len, left - len, WINDOW, isIn, false)
                              == Queued(old(ring.View()), at, left, room, isIn, firstTrb)
  {
    var cycle;
    if firstTrb {
      cycle := !startCycle;
    } else {
      cycle := ring.cycleState;
    }
    var trb := Trb(at, len, Normal, PLAIN.(isp := isIn), false, numTrbs > 1, numTrbs <= 1, cycle);
    QueuedStep(ring.View(), at, left, room, len, isIn, firstTrb, trb);
    ring.QueueTrb(trb, numTrbs > 1);
  }

  /** The queueing loop of `bulk_tx`. */
  method QueueBuffer(ring: ProducerRing, addr: nat, length: nat, isIn: bool, num: nat, room: nat, startCycle: bool)
    requires ring.Valid() && ring.enqueue < ring.trbs.Length - 1 && ring.cycleState == startCycle
    requires room > 0 && num == |SplitFrom(addr, length, room)|
    modifies ring, ring.trbs
    ensures ring.View() == Queued(old(ring.View()), addr, length, room, isIn, true)
  {
    var numTrbs, trbBuffLen := num, room;
    if trbBuffLen > length {
      trbBuffLen := length;
    }
    var runningTotal: nat, at: nat := 0, addr;
    ghost var left: nat, gap: nat, all := length, room, Queued(ring.View(), addr, length, room, isIn, true);
    var firstTrb := true;
    while true
      invariant ring.Valid() && ring.enqueue < ring.trbs.Length - 1
      invariant left == length - runningTotal && gap > 0
      invariant numTrbs == |SplitFrom(at, left, gap)|
      invariant trbBuffLen == if gap > left then left else gap
      invariant firstTrb ==> ring.cycleState == startCycle
      invariant Queued(ring.View(), at, left, gap, isIn, firstTrb) == all
      decreases numTrbs
    {
      QueueNormalTrb(ring, isIn, numTrbs, firstTrb, startCycle, at, trbBuffLen, left, gap);
      firstTrb := false;
      numTrbs := numTrbs - 1;
      runningTotal := runningTotal + trbBuffLen;
      at := at + trbBuffLen;
      left := left - trbBuffLen;
      gap := WINDOW;
      if WINDOW >= length - runningTotal {
        trbBuffLen := length - runningTotal;
      } else {
        trbBuffLen := WINDOW;
      }
      if runningTotal >= length {
        break;
      }
    }
  }

  /** `bulk_tx` up to the doorbell. Lengths are those whose running total fits an int. */
  method BulkTx(ring: ProducerRing, addr: nat, length: nat, isIn: bool)
    requires ring.Valid()
    requires length + WINDOW <= 0x8000_0000 && addr + length <= 0x1_0000_0000_0000_0000
    modifies ring, ring.trbs
    ensures ring.View() == PublishTd(old(ring.View()), BulkTrbs(Split(addr, length), isIn))
  {
    var numTrbs := PredictTrbs(addr, length);
    SplitCount(addr, length);
    ring.PrepareRing();
    var start, startCycle := ring.enqueue, ring.cycleState;
    QueueBuffer(ring, addr, length, isIn, numTrbs, WINDOW - addr % WINDOW, startCycle);
    ring.GivebackFirstTrb(startCycle, start);
  }

  /** A bulk TD that wraps: every Link the controller steps over inside it has CHAIN, and the
      Links in front of it and behind it have none. */
  lemma {:induction false} BulkTdUnbroken(s: RingProtocol.Sys, addr: nat, length: nat, isIn: bool, n: nat)
    requires RingProtocol.Inv(s) && s.room == 0 && s.pub == |s.all|
    requires |s.all| + Windows(addr, length) <= |s.got| + s.ring.Last()
    ensures var td := BulkTrbs(Split(addr, length), isIn);
            var steps := [RingProtocol.BeginTd(|td|)] + RingProtocol.TdSteps(td);
            && RingProtocol.Runs(s, steps)
            && var e := RingProtocol.Exec(s, steps);
            && RingProtocol.Runs(e, RingProtocol.ControllerSteps(n))
            && var x := RingProtocol.Exec(e, RingProtocol.ControllerSteps(n));
            x.ring.WellFormed() && RingProtocol.ChainInside(|s.all|, Windows(addr, length), x)
  {
    var td := BulkTrbs(Split(addr, length), isIn);
    SplitCount(addr, length);
    SplitPieces(addr, length);
    RingProtocol.TdUnbroken(s, td, n);
    var e := RingProtocol.Exec(s, [RingProtocol.BeginTd(|td|)] + RingProtocol.TdSteps(td));
    RingProtocol.FitsInside(s.all, td, RingProtocol.Exec(e, RingProtocol.ControllerSteps(n)));
  }

  /** A control request (USB 2.0 specification, section 9.3). */
  datatype Request = Request(requestType: byte, request: byte, value: nat, index: nat, length: nat) {
    predicate Valid() {
      value < 0x1_0000 && index < 0x1_0000 && length < 0x1_0000
    }

    /** Does the data stage go to the host? */
    predicate Reads() {
      requestType / 0x80 % 2 == 1
    }
  }

  /** Words 0 and 1 of the setup TRB. */
  function SetupParam(req: Request): nat {
    var word0 := (req.requestType as int) + (req.request as int) * 0x100 + req.value * 0x1_0000;
    var word1 := req.index + req.length * 0x1_0000;
    word0 + word1 * TWO_32
  }

  /** The eight bytes of the setup packet as section 9.3 orders them. */
  function SetupPacket(req: Request): seq<byte>
    requires req.Valid()
  {
    [req.requestType, req.request, req.value % 0x100, req.value / 0x100,
     req.index % 0x100, req.index / 0x100, req.length % 0x100, req.length / 0x100]
  }

  /** The immediate data of the setup TRB is the setup packet. */
  lemma SetupIsPacket(req: Request)
    requires req.Valid()
    ensures |SetupPacket(req)| == 8 && LeNat(SetupPacket(req)) == SetupParam(req)
  {
    var p := SetupPacket(req);
    LeNatTwo(p);
    LeNatTwo(p[2..]);
    LeNatTwo(p[4..]);
    LeNatTwo(p[6..]);
    assert p[2..][2..] == p[4..] && p[4..][2..] == p[6..] && p[6..][2..] == [];
  }

  function SetupTrb(req: Request): Trb {
    Trb(SetupParam(req), 8, Setup, PLAIN.(idt := true), false, false, false, false)
  }

  function DataTrb(req: Request, buffer: nat, length: nat, pipeIn: bool): Trb {
    Trb(buffer, length, Data, PLAIN.(isp := pipeIn, dirIn := req.Reads()), false, false, false, false)
  }

  function StatusTrb(req: Request, length: nat): Trb {
    Trb(0, 0, Status, PLAIN.(dirIn := !(length > 0 && req.Reads())), false, false, true, false)
  }

  /** Setup, optional data and status stage of a control transfer, as section 6.4.1.2 of the
      xHCI specification asks for: the request is immediate data of the setup TRB, the data
      TRB has the buffer, and the status stage goes against the data stage, IN if there is
      none, and alone interrupts. */
  function ControlTrbs(req: Request, buffer: nat, length: nat, pipeIn: bool): (td: seq<Trb>)
    ensures ValidTd(td) && |td| == if length > 0 then 3 else 2
    ensures forall i :: 0 <= i < |td| ==>
      && td[i].kind == (if i == 0 then Setup else if i < |td| - 1 then Data else Status)
      && !td[i].chain && !td[i].toggle && td[i].ioc == (i == |td| - 1)
      && td[i].attrs.target == 0 && td[i].attrs.idt == (i == 0)
    ensures td[0].param == SetupParam(req) && td[0].status == 8 && !td[0].attrs.isp && !td[0].attrs.dirIn
    ensures length > 0 ==>
              && td[1].param == buffer && td[1].status == length
              && td[1].attrs.isp == pipeIn && td[1].attrs.dirIn == req.Reads()
    ensures var last := td[|td| - 1];
            && last.param == 0 && last.status == 0 && !last.attrs.isp
            && (length > 0 ==> last.attrs.dirIn != td[1].attrs.dirIn) && (length == 0 ==> last.attrs.dirIn)
  {
    if length > 0 then [SetupTrb(req), DataTrb(req, buffer, length, pipeIn), StatusTrb(req, length)]
    else [SetupTrb(req), StatusTrb(req, length)]
  }

  /** Two or three TRBs queued one after the other. */
  lemma QueueTwo(r: Ring, a: Trb, b: Trb)
    requires r.WellFormed() && r.enq < r.Last() && !a.kind.Link? && !b.kind.Link?
    ensures var r1 := Queue(r, a.(cycle := !r.cycle), true);
            QueueAll(r, [a, b], true) == Queue(r1, b.(cycle := r1.cycle), false)
  {
    var r1 := Queue(r, a.(cycle := !r.cycle), true);
    QueueAllStep(r, [a, b], true);
    assert [a, b][1..] == [b];
    QueueAllStep(r1, [b], false);
  }

  lemma QueueThree(r: Ring, a: Trb, b: Trb, c: Trb)
    requires r.WellFormed() && r.enq < r.Last() && !a.kind.Link? && !b.kind.Link? && !c.kind.Link?
    ensures var r1 := Queue(r, a.(cycle := !r.cycle), true);
            var r2 := Queue(r1, b.(cycle := r1.cycle), true);
            QueueAll(r, [a, b, c], true) == Queue(r2, c.(cycle := r2.cycle), false)
  {
    var r1 := Queue(r, a.(cycle := !r.cycle), true);
    var r2 := Queue(r1, b.(cycle := r1.cycle), true);
    QueueAllStep(r, [a, b, c], true);
    assert [a, b, c][1..] == [b, c] && [b, c][1..] == [c];
    QueueAllStep(r1, [b, c], false);
    QueueAllStep(r2, [c], false);
  }

  /** The stages of `ctrl_tx`: the setup TRB is hidden, the later ones are not. */
  method QueueStages(ring: ProducerRing, req: Request, buffer: nat, length: nat, pipeIn: bool)
    requires ring.Valid() && ring.enqueue < ring.trbs.Length - 1
    modifies ring, ring.trbs
    ensures ring.View() == QueueAll(old(ring.View()), ControlTrbs(req, buffer, length, pipeIn), true)
  {
    var first := SetupTrb(req);
    if ring.cycleState == false {
      first := first.(cycle := true);
    }
    if length > 0 {
      QueueThree(ring.View(), SetupTrb(req), DataTrb(req, buffer, length, pipeIn), StatusTrb(req, length));
      ring.QueueTrb(first, true);
      ring.QueueTrb(DataTrb(req, buffer, length, pipeIn).(cycle := ring.cycleState), true);
    } else {
      QueueTwo(ring.View(), SetupTrb(req), StatusTrb(req, length));
      ring.QueueTrb(first, true);
    }
    ring.QueueTrb(StatusTrb(req, length).(cycle := ring.cycleState), false);
  }

  /** `ctrl_tx` up to the doorbell. */
  method ControlTx(ring: ProducerRing, req: Request, buffer: nat, length: nat, pipeIn: bool)
    requires ring.Valid() && req.Valid() && length < 0x1_0000
    modifies ring, ring.trbs
    ensures ring.View() == PublishTd(old(ring.View()), ControlTrbs(req, buffer, length, pipeIn))
  {
    ring.PrepareRing();
    var start, startCycle := ring.enqueue, ring.cycleState;
    QueueStages(ring, req, buffer, length, pipeIn);
    ring.GivebackFirstTrb(startCycle, start);
  }
}
