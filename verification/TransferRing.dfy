/** The producer side of a one-segment xHCI ring (transfer or command ring): the
    functions on ring values are the specification, class `ProducerRing` is the driver. */
module TransferRing {

  datatype Kind = Blank | Normal | Setup | Data | Status | Command(code: nat) | Link

  /** Interrupt on short packet, immediate data, direction IN, and what a command is aimed at. */
  datatype Attrs = Attrs(isp: bool, idt: bool, dirIn: bool, target: nat)

  /** A decoded TRB. `param` is words 0 and 1, `status` is word 2; `attrs` are the bits of
      word 3 that neither the ring nor the controller acts on here. */
  datatype Trb = Trb(param: nat, status: nat, kind: Kind, attrs: Attrs, toggle: bool, chain: bool, ioc: bool,
                     cycle: bool)

  const PLAIN := Attrs(false, false, false, 0)
  const BLANK_TRB := Trb(0, 0, Blank, PLAIN, false, false, false, false)

  /** The Link TRB of a segment at address `base`, which leads back to its first TRB. */
  function LinkTo(base: nat): Trb {
    BLANK_TRB.(param := base, kind := Link, toggle := true)
  }

  /** The driver's view of a ring: segment memory, enqueue index, producer cycle state. */
  datatype Ring = Ring(mem: seq<Trb>, enq: nat, cycle: bool) {
    function Last(): int {
      |mem| - 1
    }

    /** Only the last TRB is a Link, it toggles, and its cycle bit is always the
        opposite of the producer's cycle state. */
    ghost predicate WellFormed() {
      && |mem| >= 3
      && enq < |mem|
      && mem[Last()].kind.Link? && mem[Last()].toggle
      && (forall i :: 0 <= i < Last() ==> !mem[i].kind.Link?)
      && mem[Last()].cycle != cycle
    }
  }

  /** A ring as it is allocated: zeroed TRBs, the Link in the last place, cycle state 1. */
  function FreshRing(size: nat, base: nat): (r: Ring)
    requires size >= 3
    ensures r.WellFormed()
  {
    Ring(seq(size - 1, i => BLANK_TRB) + [LinkTo(base)], 0, true)
  }

  /** Hands the Link TRB to the controller and restarts at the segment's first TRB. */
  function GiveLink(r: Ring, chain: bool): Ring
    requires |r.mem| >= 3
  {
    var link := r.mem[r.Last()].(chain := chain, cycle := !r.mem[r.Last()].cycle);
    Ring(r.mem[r.Last() := link], 0, !r.cycle)
  }

  function Prepare(r: Ring): (r': Ring)
    requires r.WellFormed()
    ensures r'.WellFormed() && r'.enq < r'.Last() && |r'.mem| == |r.mem|
  {
    if r.enq == r.Last() then GiveLink(r, false) else r
  }

  function Queue(r: Ring, t: Trb, more: bool): (r': Ring)
    requires r.WellFormed() && r.enq < r.Last() && !t.kind.Link?
    ensures r'.WellFormed() && |r'.mem| == |r.mem| && (more ==> r'.enq < r'.Last())
  {
    var written := r.(mem := r.mem[r.enq := t], enq := r.enq + 1);
    if r.enq + 1 == r.Last() && (t.chain || more) then GiveLink(written, t.chain) else written
  }

  function Giveback(r: Ring, start: nat, cycle: bool): (r': Ring)
    requires r.WellFormed() && start < r.Last()
    ensures r'.WellFormed()
  {
    r.(mem := r.mem[start := r.mem[start].(cycle := cycle)])
  }

  predicate ValidTd(td: seq<Trb>) {
    && td != []
    && !td[|td| - 1].chain
    && forall i :: 0 <= i < |td| ==> !td[i].kind.Link?
  }

  /** Queues the rest of a TD; its first TRB gets the cycle bit the controller ignores. */
  function QueueAll(r: Ring, td: seq<Trb>, first: bool): (r': Ring)
    requires r.WellFormed() && (td != [] ==> r.enq < r.Last())
    requires forall i :: 0 <= i < |td| ==> !td[i].kind.Link?
    ensures r'.WellFormed() && |r'.mem| == |r.mem|
    decreases |td|
  {
    if td == [] then r else
      QueueAll(Queue(r, td[0].(cycle := r.cycle != first), |td| > 1), td[1..], false)
  }

  /** What one call of `bulk_tx` or `ctrl_tx` does to the ring. */
  function PublishTd(r: Ring, td: seq<Trb>): Ring
    requires r.WellFormed() && ValidTd(td)
  {
    var p := Prepare(r);
    Giveback(QueueAll(p, td, true), p.enq, p.cycle)
  }

  /** What `queue_command` does to the ring: one TRB, visible as soon as it is written. */
  function PublishCommand(r: Ring, t: Trb): Ring
    requires r.WellFormed() && !t.kind.Link?
  {
    var p := Prepare(r);
    Queue(p, t.(cycle := p.cycle), false)
  }

  class ProducerRing {
    const trbs: array<Trb>
    var enqueue: nat
    var cycleState: bool

    ghost function View(): Ring
      reads this, trbs
    {
      Ring(trbs[..], enqueue, cycleState)
    }

    ghost predicate Valid()
      reads this, trbs
    {
      View().WellFormed()
    }

    /** Zeroed memory, a toggling Link TRB in the last place, cycle state 1. */
    constructor (size: nat, base: nat)
      requires size >= 3
      ensures Valid() && fresh(trbs) && trbs.Length == size && View() == FreshRing(size, base)
    {
      trbs := new Trb[size](_ => BLANK_TRB);
      enqueue, cycleState := 0, true;
      new;
      trbs[size - 1] := trbs[size - 1].(param := base);
      trbs[size - 1] := trbs[size - 1].(kind := Link);
      trbs[size - 1] := trbs[size - 1].(toggle := true);
      assert trbs[..] == FreshRing(size, base).mem;
    }

    predicate LastTrb(i: nat)
      requires i < trbs.Length
      reads trbs
    {
      trbs[i].kind.Link?
    }

    method PrepareRing()
      requires Valid()
      modifies this, trbs
      ensures View() == Prepare(old(View()))
    {
      var next := enqueue;
      while LastTrb(next)
        invariant next == enqueue && Valid()
        invariant Prepare(View()) == Prepare(old(View()))
        decreases enqueue
      {
        trbs[next] := trbs[next].(chain := false);
        trbs[next] := trbs[next].(cycle := !trbs[next].cycle);
        if trbs[next].toggle {
          cycleState := !cycleState;
        }
        enqueue := 0;
        next := enqueue;
      }
    }

    method IncEnq(more: bool)
      requires enqueue < trbs.Length - 1 && trbs.Length >= 3
      requires Valid()
      modifies this, trbs
      ensures View() == Queue(old(View()), old(trbs[enqueue]), more)
    {
      var chain := trbs[enqueue].chain;
      enqueue := enqueue + 1;
      var next := enqueue;
      ghost var written := View();
      assert old(trbs[..])[old(enqueue) := old(trbs[enqueue])] == trbs[..];
      while LastTrb(next)
        invariant next == enqueue && Valid()
        invariant View() == written || (View() == GiveLink(written, chain) && (chain || more))
        invariant View() == written || written.enq == written.Last()
        decreases enqueue
      {
        if !chain && !more {
          break;
        }
        trbs[next] := trbs[next].(chain := false);
        trbs[next] := trbs[next].(chain := trbs[next].chain || chain);
        trbs[next] := trbs[next].(cycle := !trbs[next].cycle);
        if trbs[next].toggle {
          cycleState := !cycleState;
        }
        enqueue := 0;
        next := enqueue;
      }
    }

    method QueueTrb(t: Trb, more: bool)
      requires Valid() && enqueue < trbs.Length - 1 && !t.kind.Link?
      modifies this, trbs
      ensures View() == Queue(old(View()), t, more)
    {
      trbs[enqueue] := t;
      assert trbs[..] == old(trbs[..])[enqueue := t];
      IncEnq(more);
    }

    method GivebackFirstTrb(startCycle: bool, start: nat)
      requires Valid() && start < trbs.Length - 1
      modifies trbs
      ensures View() == Giveback(old(View()), start, startCycle)
    {
      if startCycle {
        trbs[start] := trbs[start].(cycle := trbs[start].cycle || startCycle);
      } else {
        trbs[start] := trbs[start].(cycle := false);
      }
      assert trbs[..] == old(trbs[..])[start := old(trbs[start]).(cycle := startCycle)];
    }

    method QueueCommand(t: Trb)
      requires Valid() && !t.kind.Link?
      modifies this, trbs
      ensures View() == PublishCommand(old(View()), t)
    {
      PrepareRing();
      QueueTrb(t.(cycle := cycleState), false);
    }
  }
}
