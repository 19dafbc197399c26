/** The event ring of usb/xhci_usb.c: several segments without Link TRBs, written by the
    controller and read by the driver (xHCI specification, section 4.9.4). */
module EventRing {
  import opened DivMod
  import opened LapCounter
  import opened Wrappers

  datatype Event = Event(kind: nat, data: nat, cycle: bool)

  datatype Look = Waiting | Match(e: Event) | Dropped

  const BLANK_EVENT := Event(0, 0, false)
  const MAX_SKIPPED := 15

  /** The driver's dequeue position. Segments lie one after the other in memory. */
  datatype Cursor = Cursor(seg: nat, idx: nat, cycle: bool)

  /** The ring as driver and controller share it, with the history of events. */
  datatype Ring = Ring(segs: nat, size: nat, mem: seq<Event>, cur: Cursor, posted: seq<Event>, acked: nat) {
    predicate Shaped() {
      && segs > 0 && size > 0 && |mem| == segs * size && |mem| > 0
      && cur.seg < segs && cur.idx < size && cur.seg * size + cur.idx < |mem|
    }
  }

  function Current(r: Ring): Event
    requires r.Shaped()
  {
    r.mem[r.cur.seg * r.size + r.cur.idx]
  }

  /** `wait_for_event`'s test: does the slot under the cursor belong to the driver? */
  predicate Sees(r: Ring)
    requires r.Shaped()
  {
    Current(r).cycle == r.cur.cycle
  }

  function IncDeq(c: Cursor, segs: nat, size: nat): Cursor {
    if c.idx + 1 < size then c.(idx := c.idx + 1)
    else if c.seg + 1 < segs then Cursor(c.seg + 1, 0, c.cycle)
    else Cursor(0, 0, !c.cycle)
  }

  function Acknowledge(r: Ring): Ring {
    r.(cur := IncDeq(r.cur, r.segs, r.size), acked := r.acked + 1)
  }

  /** The controller writes its next event with the cycle bit of its own lap. */
  function Post(r: Ring, e: Event): Ring
    requires r.Shaped()
  {
    var n := |r.posted|;
    var t := e.(cycle := Phase(n, |r.mem|));
    r.(mem := r.mem[Slot(n, |r.mem|) := t], posted := r.posted + [t])
  }

  /** The cursor stands where a single counter n stands on segs * size slots. */
  ghost predicate At(c: Cursor, segs: nat, size: nat, n: nat) {
    && segs > 0 && size > 0 && segs * size > 0
    && c.seg < segs && c.idx < size
    && c.seg * size + c.idx == Slot(n, segs * size)
    && c.cycle == Phase(n, segs * size)
  }

  /** Main result on the cursor: acknowledging is n := n + 1, and the cycle state flips
      exactly when the counter wraps; the cursor never rests past the end of a segment. */
  lemma IncDeqRefinesCounter(c: Cursor, segs: nat, size: nat, n: nat)
    requires At(c, segs, size, n)
    ensures At(IncDeq(c, segs, size), segs, size, n + 1)
    ensures IncDeq(c, segs, size).cycle != c.cycle <==> Slot(n + 1, segs * size) == 0
  {
    Ahead(n, 1, segs * size);
    if c.idx + 1 < size {
      InsideSegment(c.seg, c.idx, segs, size);
    } else if c.seg + 1 < segs {
      NextSegment(c.seg, segs, size);
    } else {
      LastSegment(c.seg, segs, size);
    }
  }

  lemma InsideSegment(seg: nat, idx: nat, segs: nat, size: nat)
    requires seg < segs && idx + 1 < size
    ensures seg * size + idx + 1 < segs * size
  {
    MulMonotone(seg + 1, segs, size);
    Distribute(seg, 1, size);
  }

  lemma NextSegment(seg: nat, segs: nat, size: nat)
    requires seg + 1 < segs && size > 0
    ensures seg * size + size == (seg + 1) * size < segs * size
  {
    Distribute(seg, 1, size);
    MulMonotone(seg + 2, segs, size);
    Distribute(seg + 1, 1, size);
  }

  lemma LastSegment(seg: nat, segs: nat, size: nat)
    requires seg + 1 == segs
    ensures seg * size + size == segs * size
  {
    Distribute(seg, 1, size);
  }

  ghost predicate Inv(r: Ring) {
    && r.Shaped()
    && var p, total := |r.posted|, |r.mem|;
    && At(r.cur, r.segs, r.size, r.acked)
    && r.acked <= p <= r.acked + total
    && (forall i :: 0 <= i < total ==> r.mem[i].cycle == ((i < Slot(p, total)) == Phase(p, total)))
    && (forall k :: r.acked <= k < p ==> r.mem[Slot(k, total)] == r.posted[k])
  }

  /** No stale slot is taken for an event and no event is overlooked. */
  lemma SeesExactlyPending(r: Ring)
    requires Inv(r)
    ensures Sees(r) <==> r.acked < |r.posted|
    ensures r.acked < |r.posted| ==> Current(r) == r.posted[r.acked]
  {
    Ahead(r.acked, |r.posted| - r.acked, |r.mem|);
  }

  lemma AcknowledgeKeepsInv(r: Ring)
    requires Inv(r) && r.acked < |r.posted|
    ensures Inv(Acknowledge(r))
  {
    IncDeqRefinesCounter(r.cur, r.segs, r.size, r.acked);
    MulMonotone(Acknowledge(r).cur.seg + 1, r.segs, r.size);
  }

  lemma PostKeepsInv(r: Ring, e: Event)
    requires Inv(r) && |r.posted| < r.acked + |r.mem|
    ensures Inv(Post(r, e))
  {
    var p, total := |r.posted|, |r.mem|;
    Ahead(p, 1, total);
    forall k | r.acked <= k < p ensures Slot(k, total) != Slot(p, total) {
      Ahead(k, p - k, total);
    }
  }

  datatype Step = ControllerPosts(e: Event) | DriverPolls

  /** The controller stays at most one whole ring ahead; a poll without an event waits. */
  ghost predicate Enabled(r: Ring, s: Step) {
    r.Shaped() && (s.ControllerPosts? ==> |r.posted| < r.acked + |r.mem|)
  }

  ghost function Next(r: Ring, s: Step): Ring
    requires Enabled(r, s)
  {
    if s.ControllerPosts? then Post(r, s.e) else if Sees(r) then Acknowledge(r) else r
  }

  ghost predicate Runs(r: Ring, steps: seq<Step>)
    decreases |steps|
  {
    steps == [] || (Enabled(r, steps[0]) && Runs(Next(r, steps[0]), steps[1..]))
  }

  /** The events the driver sees at one step. */
  ghost function SeenAt(r: Ring, s: Step): seq<Event>
    requires Enabled(r, s)
  {
    if s.DriverPolls? && Sees(r) then [Current(r)] else []
  }

  /** The events the driver's polls see along a run. */
  ghost function Consumed(r: Ring, steps: seq<Step>): seq<Event>
    requires Runs(r, steps)
    decreases |steps|
  {
    if steps == [] then [] else SeenAt(r, steps[0]) + Consumed(Next(r, steps[0]), steps[1..])
  }

  ghost function Exec(r: Ring, steps: seq<Step>): Ring
    requires Runs(r, steps)
    decreases |steps|
  {
    if steps == [] then r else Exec(Next(r, steps[0]), steps[1..])
  }

  /** From r to e exactly the events `seen` have been consumed, the oldest first. */
  ghost predicate Consumes(r: Ring, e: Ring, seen: seq<Event>) {
    r.acked <= e.acked <= |e.posted| && r.posted <= e.posted && seen == e.posted[r.acked..e.acked]
  }

  lemma ConsumesTrans(r: Ring, n: Ring, e: Ring, a: seq<Event>, b: seq<Event>)
    requires Consumes(r, n, a) && Consumes(n, e, b)
    ensures Consumes(r, e, a + b)
  {
    assert e.posted[r.acked..n.acked] == n.posted[r.acked..n.acked];
  }

  lemma StepConsumes(r: Ring, s: Step)
    requires Inv(r) && Enabled(r, s)
    ensures Inv(Next(r, s)) && Consumes(r, Next(r, s), SeenAt(r, s))
  {
    SeesExactlyPending(r);
    if s.ControllerPosts? {
      PostKeepsInv(r, s.e);
    } else if Sees(r) {
      AcknowledgeKeepsInv(r);
    }
  }

  /** Main result on runs: the driver consumes each posted event once and in order. */
  lemma {:induction false} ConsumedInOrder(r: Ring, steps: seq<Step>)
    requires Inv(r) && Runs(r, steps)
    ensures Inv(Exec(r, steps)) && Consumes(r, Exec(r, steps), Consumed(r, steps))
    decreases |steps|
  {
    if steps != [] {
      var n := Next(r, steps[0]);
      StepConsumes(r, steps[0]);
      ConsumedInOrder(n, steps[1..]);
      ConsumesTrans(r, n, Exec(n, steps[1..]), SeenAt(r, steps[0]), Consumed(n, steps[1..]));
    }
  }

  function EmptyRing(segs: nat, size: nat): Ring {
    Ring(segs, size, seq(segs * size, i => BLANK_EVENT), Cursor(0, 0, true), [], 0)
  }

  lemma EmptyRingInv(segs: nat, size: nat)
    requires segs > 0 && size > 0
    ensures Inv(EmptyRing(segs, size))
  {
    MulMonotone(1, segs, size);
  }

  /** What a wait does with the stream of pending and arriving events: the number of
      events it drops, up to the limit of skipped events. */
  function Skipped(events: seq<Event>, expected: nat): (n: nat)
    ensures n <= |events| && n <= 15
    ensures forall i :: 0 <= i < n ==> events[i].kind != expected
    ensures n < |events| && n < 15 ==> events[n].kind == expected
  {
    SkippedFrom(events, expected, 0)
  }

  function SkippedFrom(events: seq<Event>, expected: nat, i: nat): (n: nat)
    requires i <= |events| && i <= MAX_SKIPPED && forall j :: 0 <= j < i ==> events[j].kind != expected
    ensures i <= n <= |events| && n <= MAX_SKIPPED
    ensures forall j :: 0 <= j < n ==> events[j].kind != expected
    ensures n < |events| && n < MAX_SKIPPED ==> events[n].kind == expected
    decreases |events| - i
  {
    if i == |events| || i == MAX_SKIPPED || events[i].kind == expected then i
    else SkippedFrom(events, expected, i + 1)
  }

  function Flatten(arrivals: seq<seq<Event>>): seq<Event> {
    if arrivals == [] then [] else arrivals[0] + Flatten(arrivals[1..])
  }

  /** Events without the cycle bit, which the controller decides. */
  function Kinds(events: seq<Event>): seq<Event> {
    seq(|events|, i requires 0 <= i < |events| => events[i].(cycle := false))
  }

  class EventQueue {
    const trbs: array<Event>
    const segs: nat
    const size: nat
    var deqSeg: nat
    var dequeue: nat
    var cycleState: bool
    var hcEnqueue: nat      // the controller's own enqueue index and cycle state
    var hcCycle: bool
    ghost var posted: seq<Event>
    ghost var acked: nat

    ghost function View(): Ring
      reads this, trbs
    {
      Ring(segs, size, trbs[..], Cursor(deqSeg, dequeue, cycleState), posted, acked)
    }

    ghost predicate Valid()
      reads this, trbs
    {
      && Inv(View())
      && hcEnqueue == Slot(|posted|, trbs.Length) && hcCycle == Phase(|posted|, trbs.Length)
    }

    constructor (segs: nat, size: nat)
      requires segs > 0 && size > 0
      ensures Valid() && fresh(trbs) && this.segs == segs && this.size == size && posted == [] && acked == 0
    {
      trbs := new Event[segs * size](_ => BLANK_EVENT);
      this.segs, this.size := segs, size;
      deqSeg, dequeue, cycleState := 0, 0, true;
      hcEnqueue, hcCycle := 0, true;
      posted, acked := [], 0;
      new;
      EmptyRingInv(segs, size);
      assert View() == EmptyRing(segs, size);
    }

    /** The controller's side: one event. */
    method ControllerPost(e: Event)
      requires Valid() && |posted| < acked + trbs.Length
      modifies this`hcEnqueue, this`hcCycle, this`posted, trbs
      ensures Valid() && View() == Post(old(View()), e)
    {
      ghost var before := View();
      PostKeepsInv(View(), e);
      Ahead(|posted|, 1, trbs.Length);
      posted := posted + [e.(cycle := hcCycle)];
      trbs[hcEnqueue] := e.(cycle := hcCycle);
      hcEnqueue := hcEnqueue + 1;
      if hcEnqueue == trbs.Length {
        hcEnqueue, hcCycle := 0, !hcCycle;
      }
      assert View() == Post(before, e);
    }

    method ControllerPostAll(es: seq<Event>)
      requires Valid() && |posted| + |es| <= acked + trbs.Length
      modifies this`hcEnqueue, this`hcCycle, this`posted, trbs
      ensures Valid() && old(posted) <= posted
      ensures |posted| == old(|posted|) + |es| && Kinds(posted[old(|posted|)..]) == Kinds(es)
    {
      for i := 0 to |es|
        invariant Valid() && old(posted) <= posted && |posted| == old(|posted|) + i
        invariant forall j :: 0 <= j < i ==> posted[old(|posted|) + j].(cycle := false) == es[j].(cycle := false)
      {
        ControllerPost(es[i]);
      }
    }

    /** `inc_deq` on the event ring. */
    method IncrementDequeue()
      requires deqSeg < segs && dequeue < size
      modifies this`deqSeg, this`dequeue, this`cycleState
      ensures Cursor(deqSeg, dequeue, cycleState) == IncDeq(old(Cursor(deqSeg, dequeue, cycleState)), segs, size)
    {
      var first := true;
      while true
        invariant deqSeg < segs
        invariant Cursor(deqSeg, dequeue, cycleState) ==
                  old(Cursor(deqSeg, if first then dequeue else size, cycleState))
        invariant !first ==> old(dequeue) + 1 == size
        decreases first
      {
        if dequeue == size {
          if deqSeg + 1 == segs {
            cycleState := !cycleState;
          }
          deqSeg := if deqSeg + 1 == segs then 0 else deqSeg + 1;
          dequeue := 0;
        } else {
          dequeue := dequeue + 1;
        }
        first := false;
        if dequeue != size {
          break;
        }
      }
    }

    /** `acknowledge_event`. */
    method AcknowledgeEvent()
      requires Valid() && acked < |posted|
      modifies this`deqSeg, this`dequeue, this`cycleState, this`acked
      ensures Valid() && View() == Acknowledge(old(View()))
    {
      AcknowledgeKeepsInv(View());
      ghost var after := Acknowledge(View());
      IncrementDequeue();
      acked := acked + 1;
      assert View() == after;
    }

    /** One iteration of `wait_for_event`'s loop; `t` counts the events it dropped before. */
    method Look(expected: nat, ghost rest: seq<seq<Event>>, ghost t: nat, ghost base: nat, ghost stream: seq<Event>)
      returns (look: Look)
      requires Valid() && Streams(posted, base, rest, stream) && Answered(stream, expected)
      requires acked == base + t && t < MAX_SKIPPED && t <= Skipped(stream, expected)
      modifies this`deqSeg, this`dequeue, this`cycleState, this`acked
      ensures Valid()
      ensures look.Waiting? ==> rest != [] && acked == old(acked) && acked == |posted|
      ensures look.Match? ==> acked == old(acked) && acked < |posted| && look.e == posted[acked]
                              && Outcome(Some(look.e), stream, expected, t)
      ensures look.Dropped? ==> acked == old(acked) + 1 && t < Skipped(stream, expected)
    {
      SeesExactlyPending(View());
      StreamAt(posted, base, rest, stream, acked);
      LookAt(stream, expected, t);
      var slot := deqSeg * size + dequeue;
      if trbs[slot].cycle != cycleState {
        return Waiting;
      }
      if trbs[slot].kind == expected {
        return Match(trbs[slot]);
      }
      AcknowledgeEvent();
      return Dropped;
    }

    /** The controller's count of events not acknowledged, from the dequeue place it is told. */
    method Pending() returns (n: nat)
      requires Valid()
      ensures n == |posted| - acked
    {
      Ahead(acked, |posted| - acked, trbs.Length);
      var place := deqSeg * size + dequeue;
      n := if hcCycle == cycleState then hcEnqueue - place else hcEnqueue + trbs.Length - place;
    }

    /** What the controller posts before one look: the next portion, once there is room. */
    method Arrive(arrivals: seq<seq<Event>>, i: nat, ghost base: nat, ghost stream: seq<Event>) returns (i': nat)
      requires Valid() && i <= |arrivals| && base <= acked
      requires forall j :: 0 <= j < |arrivals| ==> |arrivals[j]| <= trbs.Length
      requires Streams(posted, base, arrivals[i..], stream)
      modifies this`hcEnqueue, this`hcCycle, this`posted, trbs
      ensures Valid() && i <= i' <= |arrivals| && (i' == i ==> i == |arrivals| || acked < |posted|)
      ensures Streams(posted, base, arrivals[i'..], stream)
    {
      i' := i;
      var pending := Pending();
      if i < |arrivals| && pending + |arrivals[i]| <= trbs.Length {
        ControllerPostAll(arrivals[i]);
        ArrivalKeepsStream(old(posted), posted, base, arrivals[i..], stream);
        assert arrivals[i..][1..] == arrivals[i + 1..];
        i' := i + 1;
      }
    }

    /** `wait_for_event`; `arrivals` are the portions the controller posts between looks, each
        once the ring has room for it. The wait is answered when the stream of pending and
        arriving events, of any length, holds the expected event or enough others. */
    method WaitForEvent(expected: nat, arrivals: seq<seq<Event>>) returns (event: Option<Event>)
      requires Valid() && forall j :: 0 <= j < |arrivals| ==> |arrivals[j]| <= trbs.Length
      requires Answered(posted[acked..] + Flatten(arrivals), expected)
      modifies this, trbs
      ensures Valid()
      ensures Outcome(event, old(posted[acked..]) + Flatten(arrivals), expected, acked - old(acked))
      ensures event.Some? ==> acked < |posted| && event.value == posted[acked]
    {
      ghost var base := acked;
      ghost var stream := posted[base..] + Flatten(arrivals);
      var i, timeout := 0, 0;
      while true
        invariant Valid() && i <= |arrivals| && timeout < MAX_SKIPPED
        invariant acked == base + timeout && timeout <= Skipped(stream, expected)
        invariant Streams(posted, base, arrivals[i..], stream)
        decreases |arrivals| - i + MAX_SKIPPED - timeout
      {
        i := Arrive(arrivals, i, base, stream);
        var look := Look(expected, arrivals[i..], timeout, base, stream);
        if look.Match? {
          return Some(look.e);
        }
        if look.Dropped? {
          timeout := timeout + 1;
          if timeout >= MAX_SKIPPED {
            break;
          }
        }
      }
      return None;
    }
  }

  /** The stream holds the expected event, or as many others as a wait drops. */
  predicate Answered(stream: seq<Event>, expected: nat) {
    Skipped(stream, expected) < |stream| || Skipped(stream, expected) == 15
  }

  /** A wait drops the events before the first expected one and returns that one; after
      fifteen others it gives up. */
  ghost predicate Outcome(event: Option<Event>, stream: seq<Event>, expected: nat, dropped: int) {
    var n := Skipped(stream, expected);
    && dropped == n
    && (event.None? <==> n == 15)
    && (event.Some? ==> n < |stream| && SameEvent(event.value, stream[n]))
  }

  /** What is posted from `base` on, and what is still to arrive, is the stream. */
  ghost predicate Streams(posted: seq<Event>, base: nat, rest: seq<seq<Event>>, stream: seq<Event>) {
    base <= |posted| && Kinds(posted[base..] + Flatten(rest)) == Kinds(stream)
  }

  lemma ArrivalKeepsStream(posted: seq<Event>, posted': seq<Event>, base: nat, rest: seq<seq<Event>>,
                           stream: seq<Event>)
    requires Streams(posted, base, rest, stream) && rest != []
    requires posted <= posted' && Kinds(posted'[|posted|..]) == Kinds(rest[0])
    ensures Streams(posted', base, rest[1..], stream)
  {
    var a, b := posted[base..] + Flatten(rest), posted'[base..] + Flatten(rest[1..]);
    var added := posted'[|posted|..];
    assert |Kinds(added)| == |added| && |Kinds(rest[0])| == |rest[0]|;
    assert a == posted[base..] + rest[0] + Flatten(rest[1..]);
    assert b == posted[base..] + added + Flatten(rest[1..]);
    forall k | 0 <= k < |a| ensures a[k].(cycle := false) == b[k].(cycle := false) {
      var j := k - |posted[base..]|;
      if 0 <= j < |added| {
        assert Kinds(added)[j] == Kinds(rest[0])[j];
      }
    }
    assert Kinds(a) == Kinds(b);
  }

  /** Events are compared without the cycle bit, which the controller decides. */
  predicate SameEvent(a: Event, b: Event) {
    a.kind == b.kind && a.data == b.data
  }

  /** The verdict of a wait's look at the t-th event of its stream. */
  lemma LookAt(stream: seq<Event>, expected: nat, t: nat)
    requires t <= Skipped(stream, expected) && t < MAX_SKIPPED
    ensures t < |stream| && stream[t].kind == expected ==> t == Skipped(stream, expected)
    ensures t < |stream| && stream[t].kind != expected ==> t < Skipped(stream, expected)
    ensures t == |stream| ==> t == Skipped(stream, expected)
  {
  }

  lemma StreamAt(posted: seq<Event>, base: nat, rest: seq<seq<Event>>, stream: seq<Event>, k: nat)
    requires Streams(posted, base, rest, stream) && base <= k
    ensures rest == [] ==> |posted| - base == |stream|
    ensures k < |posted| ==> k - base < |stream| && SameEvent(posted[k], stream[k - base])
  {
    var a := posted[base..] + Flatten(rest);
    assert |Kinds(a)| == |a| && |Kinds(stream)| == |stream|;
    if k < |posted| {
      assert Kinds(a)[k - base] == Kinds(stream)[k - base];
      assert a[k - base] == posted[k];
    }
  }
}
