/** The two-party protocol on a producer ring: the driver of module TransferRing and a
    controller that knows only its own dequeue index, its consumer cycle state, the
    cycle bits in memory and the Link TRB (xHCI specification, sections 4.9.2 and 4.9.3). */
module RingProtocol {
  import opened LapCounter
  import opened TransferRing

  /** `base` is the segment's address; `all` lists every TRB queued so far as it looks once
      published, the first `pub` of them published; `room` counts the TRBs the open TD still has to queue; `start`
      and `startCycle` are the driver's locals; `got` is what the controller took. */
  datatype Sys = Sys(ring: Ring, base: nat, all: seq<Trb>, pub: nat, room: nat, start: nat, startCycle: bool,
                     deq: nat, ccs: bool, got: seq<Trb>)

  datatype Step = ControllerStep | BeginTd(n: nat) | QueueOne(t: Trb) | PublishOpenTd | IssueCommand(t: Trb)

  const TRB_SIZE := 16

  function Init(size: nat, base: nat): Sys
    requires size >= 3
  {
    Sys(FreshRing(size, base), base, [], 0, 0, 0, true, 0, true, [])
  }

  /** The place of the TRB at an address. */
  function PlaceOf(base: nat, address: nat): nat {
    if address >= base then (address - base) / TRB_SIZE else 0
  }

  /** One look of the controller at its current TRB; a Link leads where its address says. */
  function Controller(s: Sys): (s': Sys)
    requires s.deq < |s.ring.mem|
    ensures s'.ring == s.ring && s'.all == s.all && s'.pub == s.pub && s'.room == s.room && s'.base == s.base
  {
    var t := s.ring.mem[s.deq];
    if t.cycle != s.ccs then s
    else if t.kind.Link? then s.(deq := PlaceOf(s.base, t.param), ccs := s.ccs != t.toggle)
    else s.(deq := s.deq + 1, got := s.got + [t])
  }

  /** The only demand on callers of the driver: a TD starts when all of it fits beside
      the outstanding TRBs, on the size - 1 places that are not the Link. */
  ghost predicate Enabled(s: Sys, step: Step) {
    && s.ring.WellFormed()
    && s.deq < |s.ring.mem|
    && match step
       case ControllerStep => true
       case BeginTd(n) => s.room == 0 && s.pub == |s.all| && n > 0 && |s.all| + n <= |s.got| + |s.ring.mem| - 1
       case QueueOne(t) => s.room > 0 && s.ring.enq < s.ring.Last() && !t.kind.Link? && (s.room == 1 ==> !t.chain)
       case PublishOpenTd => s.room == 0 && s.pub < |s.all| && s.start < s.ring.Last()
       case IssueCommand(t) =>
         s.room == 1 && s.pub == |s.all| && s.ring.enq < s.ring.Last() && !t.kind.Link? && !t.chain
  }

  ghost function Next(s: Sys, step: Step): (s': Sys)
    requires Enabled(s, step)
  {
    match step
    case ControllerStep => Controller(s)
    case BeginTd(n) =>
      var r := Prepare(s.ring);
      s.(ring := r, room := n, start := r.enq, startCycle := r.cycle)
    case QueueOne(t) =>
      var hidden := s.pub == |s.all|;
      s.(ring := Queue(s.ring, t.(cycle := s.ring.cycle != hidden), s.room > 1),
         all := s.all + [t.(cycle := s.ring.cycle)], room := s.room - 1)
    case PublishOpenTd =>
      s.(ring := Giveback(s.ring, s.start, s.startCycle), pub := |s.all|)
    case IssueCommand(t) =>
      s.(ring := Queue(s.ring, t.(cycle := s.ring.cycle), false),
         all := s.all + [t.(cycle := s.ring.cycle)], room := 0, pub := |s.all| + 1)
  }

  ghost predicate Runs(s: Sys, steps: seq<Step>)
    decreases |steps|
  {
    steps == [] || (Enabled(s, steps[0]) && Runs(Next(s, steps[0]), steps[1..]))
  }

  ghost function Exec(s: Sys, steps: seq<Step>): Sys
    requires Runs(s, steps)
    decreases |steps|
  {
    if steps == [] then s else Exec(Next(s, steps[0]), steps[1..])
  }

  /** Where the driver, and the controller, stand when `k` TRBs are behind them: at the
      slot of TRB k, or still at the Link TRB before it. */
  ghost predicate StandsAt(i: nat, cycle: bool, k: nat, m: nat)
    requires m > 0
  {
    || (i == Slot(k, m) && cycle == Phase(k, m))
    || (i == m && k > 0 && Slot(k, m) == 0 && cycle != Phase(k, m))
  }

  ghost predicate Inv(s: Sys) {
    s.ring.WellFormed() && History(s) && Places(s) && Cycles(s) && Contents(s) && LinkRight(s)
  }

  /** What has been taken is a prefix of the history, what is outstanding fits the ring, and
      each TRB carries the cycle bit of its lap. */
  ghost predicate History(s: Sys)
    requires s.ring.WellFormed()
  {
    var m, q, c := s.ring.Last(), |s.all|, |s.got|;
    && c <= s.pub <= q && q + s.room <= c + m
    && s.got == s.all[..c]
    && (s.room == 0 && q > 0 ==> !s.all[q - 1].chain)
    && forall k :: 0 <= k < q ==> s.all[k].cycle == Phase(k, m) && !s.all[k].kind.Link?
  }

  /** The TRB before which the driver last gave the Link to the controller, 0 if it never did. */
  function LastGiven(s: Sys): int
    requires s.ring.Last() > 0
  {
    var m, q := s.ring.Last(), |s.all|;
    if s.ring.enq == m then q - m else q - Slot(q, m)
  }

  /** The Link is the one the ring was allocated with, and since it was last given its CHAIN
      bit is that of the TRB before it. */
  ghost predicate LinkRight(s: Sys)
    requires s.ring.WellFormed()
  {
    var link, g := s.ring.mem[s.ring.Last()], LastGiven(s);
    && link.(chain := false, cycle := false) == LinkTo(s.base)
    && (g > 0 ==> g <= |s.all| && link.chain == s.all[g - 1].chain)
  }

  /** Where the two parties stand, and where an open TD starts. */
  ghost predicate Places(s: Sys)
    requires s.ring.WellFormed()
  {
    var m, q, c := s.ring.Last(), |s.all|, |s.got|;
    && StandsAt(s.ring.enq, s.ring.cycle, q, m)
    && (s.room > 0 ==> s.ring.enq < m)
    && (s.ring.enq == 0 && q > 0 ==> q < c + m)
    && StandsAt(s.deq, s.ccs, c, m)
    && (s.pub < q || s.room > 0 ==> s.start == Slot(s.pub, m) && s.startCycle == Phase(s.pub, m))
  }

  /** The current lap up to the enqueue position carries its phase, the rest the opposite;
      a hidden first TRB is the exception. */
  ghost predicate Cycles(s: Sys)
    requires s.ring.WellFormed()
  {
    var m, q := s.ring.Last(), |s.all|;
    forall i :: 0 <= i < m ==>
      s.ring.mem[i].cycle == (((i < Slot(q, m)) == Phase(q, m)) != (s.pub < q && i == Slot(s.pub, m)))
  }

  /** `mem` holds the TRBs of `all` from number c on, but for their cycle bits. */
  ghost predicate Holds(mem: seq<Trb>, all: seq<Trb>, c: nat, m: nat)
    requires 0 < m < |mem|
  {
    forall k :: c <= k < |all| ==> mem[Slot(k, m)] == all[k].(cycle := mem[Slot(k, m)].cycle)
  }

  ghost predicate Contents(s: Sys)
    requires s.ring.WellFormed() && |s.got| <= |s.all|
  {
    Holds(s.ring.mem, s.all, |s.got|, s.ring.Last())
  }

  /** Ownership by cycle bit alone means exactly: published and not yet taken. */
  lemma OwnedIffPublished(s: Sys)
    requires Inv(s)
    ensures s.deq < s.ring.Last() ==> (s.ring.mem[s.deq].cycle == s.ccs <==> |s.got| < s.pub)
    ensures s.deq == s.ring.Last() && |s.got| < s.pub ==> s.ring.mem[s.deq].cycle == s.ccs
  {
    var m, q, c := s.ring.Last(), |s.all|, |s.got|;
    Ahead(c, q - c, m);
    Ahead(c, s.pub - c, m);
  }

  /** What the controller takes is the next TRB of the history, and where it stands then. */
  lemma ControllerTakesNext(s: Sys)
    requires Inv(s)
    ensures var s', m, c := Controller(s), s.ring.Last(), |s.got|;
            && StandsAt(s'.deq, s'.ccs, |s'.got|, m)
            && (s'.got == s.got || (c < s.pub && s'.got == s.got + [s.all[c]]))
  {
    var m, c := s.ring.Last(), |s.got|;
    OwnedIffPublished(s);
    Ahead(c, 1, m);
    if s.deq < m && s.ring.mem[s.deq].cycle == s.ccs {
      assert s.ring.mem[Slot(c, m)] == s.all[c].(cycle := s.ring.mem[Slot(c, m)].cycle);
    }
  }

  lemma ControllerKeepsInv(s: Sys)
    requires Inv(s)
    ensures Inv(Controller(s))
  {
    var s' := Controller(s);
    ControllerTakesNext(s);
    TakingKeepsInv(s, s'.deq, s'.ccs, s'.got);
    assert s' == s.(deq := s'.deq, ccs := s'.ccs, got := s'.got);
  }

  /** A change of the controller's place and of what it has taken. */
  lemma TakingKeepsInv(s: Sys, deq: nat, ccs: bool, got: seq<Trb>)
    requires Inv(s) && StandsAt(deq, ccs, |got|, s.ring.Last())
    requires got == s.got || (|s.got| < s.pub && got == s.got + [s.all[|s.got|]])
    ensures Inv(s.(deq := deq, ccs := ccs, got := got))
  {
    var s' := s.(deq := deq, ccs := ccs, got := got);
    assert got == s.all[..|got|];
    SameLink(s, s');
  }

  /** Steps that leave the Link, the producer's place and the history alone. */
  lemma SameLink(s: Sys, s': Sys)
    requires s.ring.WellFormed() && s'.ring.WellFormed() && LinkRight(s)
    requires |s'.ring.mem| == |s.ring.mem| && s'.ring.mem[s.ring.Last()] == s.ring.mem[s.ring.Last()]
    requires s'.ring.enq == s.ring.enq && s'.all == s.all && s'.base == s.base
    ensures LinkRight(s')
  {
  }

  lemma BeginKeepsInv(s: Sys, n: nat)
    requires Inv(s) && Enabled(s, BeginTd(n))
    ensures Inv(Next(s, BeginTd(n)))
  {
  }

  /** The Link that the controller steps over has CHAIN exactly if the TRB it took before has
      it: a TD goes on behind the Link, and the Link between two TDs belongs to neither. */
  lemma LinkCarriesChain(s: Sys)
    requires Inv(s) && s.deq == s.ring.Last() && s.ring.mem[s.deq].cycle == s.ccs
    ensures |s.got| > 0 && s.ring.mem[s.deq].chain == s.got[|s.got| - 1].chain
    ensures Controller(s).deq == 0 && Controller(s).got == s.got
  {
    var m, c, q := s.ring.Last(), |s.got|, |s.all|;
    Ahead(c, q - c, m);
    assert LastGiven(s) == c;
  }

  /** Slots of distinct outstanding TRBs are distinct. */
  lemma WindowDistinct(j: nat, k: nat, m: nat)
    requires m > 0 && j < k < j + m
    ensures Slot(j, m) != Slot(k, m)
  {
    Ahead(j, k - j, m);
  }

  ghost predicate Queues(s: Sys, step: Step) {
    (step.QueueOne? || step.IssueCommand?) && Inv(s) && Enabled(s, step)
  }

  /** Queueing on a ring whose producer stands at the slot of TRB q. */
  lemma RingEffect(r: Ring, t: Trb, more: bool, q: nat)
    requires r.WellFormed() && r.enq < r.Last() && !t.kind.Link? && StandsAt(r.enq, r.cycle, q, r.Last())
    ensures var m, r' := r.Last(), Queue(r, t, more);
            && r.enq == Slot(q, m) && r.cycle == Phase(q, m) && r'.Last() == m
            && (forall i :: 0 <= i < m && i != Slot(q, m) ==> r'.mem[i] == r.mem[i])
            && r'.mem[Slot(q, m)] == t
            && StandsAt(r'.enq, r'.cycle, q + 1, m)
            && (r'.enq == 0 ==> t.chain || more)
            && r'.mem[m].(chain := false, cycle := false) == r.mem[m].(chain := false, cycle := false)
            && r'.mem[m].chain == (if r'.enq == 0 then t.chain else r.mem[m].chain)
  {
    Ahead(q, 1, r.Last());
  }

  /** Queueing touches the slot of the new TRB and perhaps the Link, no other TRB. */
  lemma QueueEffect(s: Sys, step: Step)
    requires Queues(s, step)
    ensures var m, q, s' := s.ring.Last(), |s.all|, Next(s, step);
            && s.ring.enq == Slot(q, m) && s.ring.cycle == Phase(q, m)
            && s'.all == s.all + [step.t.(cycle := Phase(q, m))]
            && s'.ring.Last() == m
            && (forall i :: 0 <= i < m && i != Slot(q, m) ==> s'.ring.mem[i] == s.ring.mem[i])
            && s'.ring.mem[Slot(q, m)] == step.t.(cycle := Phase(q, m) != (s'.pub < |s'.all| && s.pub == q))
            && StandsAt(s'.ring.enq, s'.ring.cycle, q + 1, m)
            && (s'.ring.enq == 0 ==> s'.room > 0)
            && s'.ring.mem[m].(chain := false, cycle := false) == s.ring.mem[m].(chain := false, cycle := false)
            && s'.ring.mem[m].chain == (if s'.ring.enq == 0 then step.t.chain else s.ring.mem[m].chain)
  {
    var q := |s.all|;
    var hidden := step.QueueOne? && s.pub == q;
    RingEffect(s.ring, step.t.(cycle := s.ring.cycle != hidden), step.QueueOne? && s.room > 1, q);
  }

  /** The cycle bits of one lap and the next differ by one slot. */
  lemma NextSlotBit(q: nat, m: nat, i: nat)
    requires m > 0 && i < m && i != Slot(q, m)
    ensures ((i < Slot(q + 1, m)) == Phase(q + 1, m)) == ((i < Slot(q, m)) == Phase(q, m))
  {
    Ahead(q, 1, m);
  }

  lemma NewSlotBit(q: nat, m: nat)
    requires m > 0
    ensures ((Slot(q, m) < Slot(q + 1, m)) == Phase(q + 1, m)) == Phase(q, m)
  {
    Ahead(q, 1, m);
  }

  lemma QueueKeepsCycles(s: Sys, step: Step)
    requires Queues(s, step)
    ensures Cycles(Next(s, step))
  {
    var s' := Next(s, step);
    var m, q := s.ring.Last(), |s.all|;
    QueueEffect(s, step);
    if s.pub < q {
      WindowDistinct(s.pub, q, m);
    }
    forall i | 0 <= i < m
      ensures s'.ring.mem[i].cycle ==
              (((i < Slot(q + 1, m)) == Phase(q + 1, m)) != (s'.pub < q + 1 && i == Slot(s'.pub, m)))
    {
      if i == Slot(q, m) {
        NewSlotBit(q, m);
      } else {
        NextSlotBit(q, m, i);
        assert s'.ring.mem[i] == s.ring.mem[i];
      }
    }
  }

  lemma HoldsOneMore(a: seq<Trb>, b: seq<Trb>, all: seq<Trb>, t: Trb, c: nat, m: nat)
    requires 0 < m < |a| && m < |b| && c <= |all| < c + m && Holds(a, all, c, m)
    requires forall i :: 0 <= i < m && i != Slot(|all|, m) ==> b[i] == a[i]
    requires b[Slot(|all|, m)] == t.(cycle := b[Slot(|all|, m)].cycle)
    ensures Holds(b, all + [t], c, m)
  {
    forall k | c <= k < |all| + 1 ensures b[Slot(k, m)] == (all + [t])[k].(cycle := b[Slot(k, m)].cycle) {
      if k < |all| {
        WindowDistinct(k, |all|, m);
      }
    }
  }

  lemma QueueKeepsContents(s: Sys, step: Step)
    requires Queues(s, step)
    ensures |s.got| <= |Next(s, step).all| && Contents(Next(s, step))
  {
    var m, q := s.ring.Last(), |s.all|;
    QueueEffect(s, step);
    HoldsOneMore(s.ring.mem, Next(s, step).ring.mem, s.all, step.t.(cycle := Phase(q, m)), |s.got|, m);
  }

  lemma QueueKeepsHistory(s: Sys, step: Step)
    requires Queues(s, step)
    ensures History(Next(s, step))
  {
    QueueEffect(s, step);
    assert Next(s, step).all[..|s.got|] == s.all[..|s.got|];
  }

  lemma QueueKeepsPlaces(s: Sys, step: Step)
    requires Queues(s, step)
    ensures Places(Next(s, step))
  {
    QueueEffect(s, step);
  }

  lemma QueueKeepsInv(s: Sys, step: Step)
    requires Queues(s, step)
    ensures Inv(Next(s, step))
  {
    QueueKeepsHistory(s, step);
    QueueKeepsPlaces(s, step);
    QueueKeepsCycles(s, step);
    QueueKeepsContents(s, step);
    QueueKeepsLink(s, step);
  }

  lemma QueueKeepsLink(s: Sys, step: Step)
    requires Queues(s, step)
    ensures LinkRight(Next(s, step))
  {
    var s' := Next(s, step);
    QueueEffect(s, step);
    GivenAfterQueue(s.ring.enq, s'.ring.enq, s'.ring.cycle, |s.all|, s.ring.Last());
    if s'.ring.enq != 0 {
      assert LastGiven(s') == LastGiven(s);
    }
  }

  /** The last place of the Link's giving moves exactly when the producer starts again. */
  lemma GivenAfterQueue(enq: nat, enq': nat, cycle': bool, q: nat, m: nat)
    requires m > 0 && enq < m && enq == Slot(q, m) && StandsAt(enq', cycle', q + 1, m)
    ensures enq' == 0 ==> Slot(q + 1, m) == 0
    ensures enq' != 0 ==> q - Slot(q, m) == if enq' == m then q + 1 - m else q + 1 - Slot(q + 1, m)
  {
    Ahead(q, 1, m);
  }

  lemma PublishKeepsInv(s: Sys)
    requires Inv(s) && Enabled(s, PublishOpenTd)
    ensures Inv(Next(s, PublishOpenTd))
  {
    PublishKeepsPlaces(s);
    PublishKeepsCycles(s);
    PublishKeepsContents(s);
    SameLink(s, Next(s, PublishOpenTd));
  }

  lemma PublishKeepsPlaces(s: Sys)
    requires Inv(s) && Enabled(s, PublishOpenTd)
    ensures var s' := Next(s, PublishOpenTd); s'.ring.WellFormed() && History(s') && Places(s')
  {
  }

  /** The publishing write, TRB by TRB. */
  lemma GivebackEffect(r: Ring, start: nat, cycle: bool, i: nat)
    requires r.WellFormed() && start < r.Last() && i <= r.Last()
    ensures var r' := Giveback(r, start, cycle);
            r'.Last() == r.Last() && r'.mem[i] == if i == start then r.mem[i].(cycle := cycle) else r.mem[i]
  {
  }

  lemma PublishKeepsCycles(s: Sys)
    requires Inv(s) && Enabled(s, PublishOpenTd)
    ensures Cycles(Next(s, PublishOpenTd))
  {
    var m, q, s' := s.ring.Last(), |s.all|, Next(s, PublishOpenTd);
    Ahead(s.pub, q - s.pub, m);
    forall i | 0 <= i < m
      ensures s'.ring.mem[i].cycle == (((i < Slot(q, m)) == Phase(q, m)) != (s'.pub < q && i == Slot(s'.pub, m)))
    {
      GivebackEffect(s.ring, s.start, s.startCycle, i);
    }
  }

  lemma PublishKeepsContents(s: Sys)
    requires s.ring.WellFormed() && s.start < s.ring.Last() && |s.got| <= |s.all| && Contents(s)
    ensures Contents(s.(ring := Giveback(s.ring, s.start, s.startCycle), pub := |s.all|))
  {
    var m, r' := s.ring.Last(), Giveback(s.ring, s.start, s.startCycle);
    forall k | |s.got| <= k < |s.all| ensures r'.mem[Slot(k, m)] == s.all[k].(cycle := r'.mem[Slot(k, m)].cycle) {
      GivebackEffect(s.ring, s.start, s.startCycle, Slot(k, m));
    }
  }

  lemma NextKeepsInv(s: Sys, step: Step)
    requires Inv(s) && Enabled(s, step)
    ensures Inv(Next(s, step))
  {
    match step
    case ControllerStep => ControllerKeepsInv(s);
    case BeginTd(n) => BeginKeepsInv(s, n);
    case QueueOne(_) => QueueKeepsInv(s, step);
    case PublishOpenTd => PublishKeepsInv(s);
    case IssueCommand(_) => QueueKeepsInv(s, step);
  }

  lemma {:induction false} RunKeepsInv(s: Sys, steps: seq<Step>)
    requires Inv(s) && Runs(s, steps)
    ensures Inv(Exec(s, steps))
    decreases |steps|
  {
    if steps != [] {
      NextKeepsInv(s, steps[0]);
      RunKeepsInv(Next(s, steps[0]), steps[1..]);
    }
  }

  lemma InitInv(size: nat, base: nat)
    requires size >= 3
    ensures Inv(Init(size, base))
  {
    assert Slot(0, size - 1) == 0 && Phase(0, size - 1);
  }

  function SubmittedBy(step: Step): seq<Trb> {
    if step.QueueOne? || step.IssueCommand? then [step.t] else []
  }

  /** The TRBs the driver submitted in a run, in order. */
  function Submitted(steps: seq<Step>): seq<Trb> {
    if steps == [] then [] else SubmittedBy(steps[0]) + Submitted(steps[1..])
  }

  /** A TRB as submitted: the ring code alone decides the cycle bit. */
  function Erase(t: Trb): Trb {
    t.(cycle := false)
  }

  /** The history `b` is the history `a` and then the TRBs submitted, but for their cycle bits. */
  ghost predicate Records(a: seq<Trb>, b: seq<Trb>, submitted: seq<Trb>) {
    && |b| == |a| + |submitted| && b[..|a|] == a
    && forall k :: 0 <= k < |submitted| ==> Erase(b[|a| + k]) == Erase(submitted[k])
  }

  lemma RecordsTrans(a: seq<Trb>, b: seq<Trb>, c: seq<Trb>, first: seq<Trb>, then': seq<Trb>)
    requires Records(a, b, first) && Records(b, c, then')
    ensures Records(a, c, first + then')
  {
    assert c[..|a|] == c[..|b|][..|a|] == a;
    forall k | 0 <= k < |first + then'| ensures Erase(c[|a| + k]) == Erase((first + then')[k]) {
      if k < |first| {
        assert c[|a| + k] == c[..|b|][|a| + k] == b[|a| + k];
      } else {
        assert c[|b| + (k - |first|)] == c[|a| + k];
      }
    }
  }

  lemma StepRecords(s: Sys, step: Step)
    requires Enabled(s, step)
    ensures Records(s.all, Next(s, step).all, SubmittedBy(step))
  {
  }

  lemma {:induction false} RunRecordsSubmitted(s: Sys, steps: seq<Step>)
    requires Runs(s, steps)
    ensures Records(s.all, Exec(s, steps).all, Submitted(steps))
    decreases |steps|
  {
    if steps == [] {
      assert Exec(s, steps) == s;
    } else {
      var n := Next(s, steps[0]);
      StepRecords(s, steps[0]);
      RunRecordsSubmitted(n, steps[1..]);
      RecordsTrans(s.all, n.all, Exec(n, steps[1..]).all, SubmittedBy(steps[0]), Submitted(steps[1..]));
    }
  }

  /** Main result on safety: in every run from power-up the controller has taken a prefix
      of what was published, which is what the driver submitted, in order and once each;
      and the Link's cycle bit is the opposite of the driver's cycle state. */
  lemma {:induction false} DequeuedExactlyWhatWasQueued(size: nat, base: nat, steps: seq<Step>)
    requires size >= 3 && Runs(Init(size, base), steps)
    ensures var e := Exec(Init(size, base), steps);
            && |e.got| <= e.pub <= |Submitted(steps)|
            && (forall k :: 0 <= k < |e.got| ==> Erase(e.got[k]) == Erase(Submitted(steps)[k]))
            && e.ring.WellFormed() && e.ring.mem[e.ring.Last()].cycle != e.ring.cycle
            && (e.deq == e.ring.Last() && e.ring.mem[e.deq].cycle == e.ccs ==>
                  |e.got| > 0 && e.ring.mem[e.deq].chain == Submitted(steps)[|e.got| - 1].chain)
  {
    var s := Init(size, base);
    InitInv(size, base);
    RunKeepsInv(s, steps);
    RunRecordsSubmitted(s, steps);
    var e := Exec(s, steps);
    GotIsPrefix(e, Submitted(steps));
    if e.deq == e.ring.Last() && e.ring.mem[e.deq].cycle == e.ccs {
      LinkCarriesChain(e);
      assert Erase(e.got[|e.got| - 1]) == Erase(Submitted(steps)[|e.got| - 1]);
    }
  }

  lemma GotIsPrefix(e: Sys, submitted: seq<Trb>)
    requires Inv(e) && Records([], e.all, submitted)
    ensures |e.got| <= e.pub <= |submitted|
    ensures forall k :: 0 <= k < |e.got| ==> Erase(e.got[k]) == Erase(submitted[k])
  {
    var none: seq<Trb> := [];
    forall k | 0 <= k < |e.got| ensures Erase(e.got[k]) == Erase(submitted[k]) {
      assert e.got[k] == e.all[|none| + k];
    }
  }

  function ControllerSteps(n: nat): seq<Step> {
    if n == 0 then [] else [ControllerStep] + ControllerSteps(n - 1)
  }

  function Lag(s: Sys): int {
    if |s.got| == s.pub then 0 else 2 * (s.pub - |s.got|) + if s.deq == s.ring.Last() then 1 else 0
  }

  /** Main result on progress: nothing published is ever lost. From every state a run
      can reach, the controller alone takes all that is published, and no more. */
  lemma {:induction false} ControllerCatchesUp(s: Sys, n: nat)
    requires Inv(s) && n >= Lag(s)
    ensures Runs(s, ControllerSteps(n))
    ensures var e := Exec(s, ControllerSteps(n));
            e.got == s.all[..s.pub] && e.ring == s.ring && e.all == s.all && e.pub == s.pub
    decreases n
  {
    LagShrinks(s);
    if n > 0 {
      ControllerKeepsInv(s);
      ControllerFirst(s, n);
      ControllerCatchesUp(Controller(s), n - 1);
    }
  }

  lemma LagShrinks(s: Sys)
    requires Inv(s)
    ensures Lag(s) >= 0 && (Lag(s) == 0 ==> |s.got| == s.pub) && |Controller(s).got| <= s.pub
    ensures Lag(Controller(s)) <= if Lag(s) == 0 then 0 else Lag(s) - 1
  {
    OwnedIffPublished(s);
  }

  /** A run of the controller alone begins with one of its steps. */
  lemma ControllerFirst(s: Sys, n: nat)
    requires n > 0 && s.ring.WellFormed() && s.deq < |s.ring.mem|
    ensures Runs(s, ControllerSteps(n)) <==> Runs(Controller(s), ControllerSteps(n - 1))
    ensures Runs(s, ControllerSteps(n)) ==>
              Exec(s, ControllerSteps(n)) == Exec(Controller(s), ControllerSteps(n - 1))
  {
    assert ControllerSteps(n)[0] == ControllerStep && ControllerSteps(n)[1..] == ControllerSteps(n - 1);
  }

  /** While a TD is open the controller may step over a Link, but however long it runs
      it takes nothing of that TD. */
  lemma {:induction false} OpenTdIsInvisible(s: Sys, n: nat)
    requires Inv(s) && s.pub < |s.all|
    ensures Runs(s, ControllerSteps(n)) && |Exec(s, ControllerSteps(n)).got| <= s.pub
    ensures |s.got| == s.pub && s.deq < s.ring.Last() ==> Controller(s) == s
  {
    OwnedIffPublished(s);
    ControllerRunsAlone(s, n);
    RunKeepsInv(s, ControllerSteps(n));
  }

  /** All that the controller relies on. */
  ghost predicate CanRun(s: Sys) {
    s.ring.WellFormed() && s.deq < |s.ring.mem| && s.ring.mem[s.ring.Last()].param == s.base
  }

  lemma {:induction false} ControllerRunsAlone(s: Sys, n: nat)
    requires CanRun(s)
    ensures Runs(s, ControllerSteps(n))
    ensures var e := Exec(s, ControllerSteps(n));
            CanRun(e) && e.pub == s.pub && e.ring == s.ring && e.all == s.all
    decreases n
  {
    if n == 0 {
      assert ControllerSteps(n) == [] && Exec(s, []) == s;
    } else {
      ControllerFirst(s, n);
      ControllerRunsAlone(Controller(s), n - 1);
    }
  }

  /** Publishing changes one cycle bit, that of the open TD's first TRB. */
  lemma PublishIsOneWrite(s: Sys)
    requires Inv(s) && Enabled(s, PublishOpenTd)
    ensures var m, s' := s.ring.Last(), Next(s, PublishOpenTd);
            && s.start == Slot(s.pub, m)
            && (forall i :: 0 <= i <= m && i != s.start ==> s'.ring.mem[i] == s.ring.mem[i])
            && s.ring.mem[s.start] == s.all[s.pub].(cycle := !s.all[s.pub].cycle)
            && s'.ring.mem[s.start] == s.all[s.pub]
  {
    var m := s.ring.Last();
    Ahead(s.pub, |s.all| - s.pub, m);
    assert s.ring.mem[Slot(s.pub, m)] == s.all[s.pub].(cycle := s.ring.mem[Slot(s.pub, m)].cycle);
  }

  /** A later TRB of an open TD is in memory as the controller will take it. */
  lemma LaterTrbInMemory(s: Sys, k: nat)
    requires Inv(s) && s.pub < k < |s.all|
    ensures var m := s.ring.Last(); Slot(k, m) != Slot(s.pub, m) && s.ring.mem[Slot(k, m)] == s.all[k]
  {
    var m := s.ring.Last();
    WindowDistinct(s.pub, k, m);
    Ahead(k, |s.all| - k, m);
  }

  /** With the one write the whole TD is owned: every TRB of it is in memory as the
      controller takes it, and the controller takes them all. */
  lemma OneWritePublishesAll(s: Sys)
    requires Inv(s) && Enabled(s, PublishOpenTd)
    ensures Lag(Next(s, PublishOpenTd)) >= 0
    ensures var m, s' := s.ring.Last(), Next(s, PublishOpenTd);
            && (forall k :: s.pub <= k < |s.all| ==> s'.ring.mem[Slot(k, m)] == s.all[k])
            && Runs(s', ControllerSteps(Lag(s')))
            && Exec(s', ControllerSteps(Lag(s'))).got == s.all
  {
    var m := s.ring.Last();
    var s' := Next(s, PublishOpenTd);
    PublishIsOneWrite(s);
    forall k | s.pub <= k < |s.all| ensures s'.ring.mem[Slot(k, m)] == s.all[k] {
      if k > s.pub {
        LaterTrbInMemory(s, k);
      }
    }
    PublishedIsTaken(s);
  }

  lemma PublishedIsTaken(s: Sys)
    requires Inv(s) && Enabled(s, PublishOpenTd)
    ensures var s' := Next(s, PublishOpenTd);
            && Lag(s') >= 0 && Runs(s', ControllerSteps(Lag(s')))
            && Exec(s', ControllerSteps(Lag(s'))).got == s.all
  {
    var s' := Next(s, PublishOpenTd);
    PublishKeepsInv(s);
    LagShrinks(s');
    ControllerCatchesUp(s', Lag(s'));
    assert s'.all[..s'.pub] == s.all;
  }

  function TdSteps(td: seq<Trb>): seq<Step> {
    if td == [] then [PublishOpenTd] else [QueueOne(td[0])] + TdSteps(td[1..])
  }

  /** The driver calls that queue and publish a TD are a run of this protocol. */
  lemma {:induction false} PublishTdIsRun(s: Sys, td: seq<Trb>)
    requires Inv(s) && s.room == 0 && s.pub == |s.all| && ValidTd(td)
    requires |s.all| + |td| <= |s.got| + s.ring.Last()
    ensures var steps := [BeginTd(|td|)] + TdSteps(td);
            && Runs(s, steps)
            && var e := Exec(s, steps);
            && e.ring == PublishTd(s.ring, td)
            && e.pub == |e.all| == |s.all| + |td| && e.room == 0
            && e.got == s.got && e.deq == s.deq && e.ccs == s.ccs
  {
    var steps := [BeginTd(|td|)] + TdSteps(td);
    var s' := Next(s, BeginTd(|td|));
    BeginKeepsInv(s, |td|);
    QueueRestIsRun(s', td, true);
    assert steps[1..] == TdSteps(td);
  }

  /** So is the call that issues a command. */
  lemma {:induction false} PublishCommandIsRun(s: Sys, t: Trb)
    requires Inv(s) && s.room == 0 && s.pub == |s.all| && !t.kind.Link? && !t.chain
    requires |s.all| + 1 <= |s.got| + s.ring.Last()
    ensures var steps := [BeginTd(1), IssueCommand(t)];
            && Runs(s, steps)
            && var e := Exec(s, steps);
            && e.ring == PublishCommand(s.ring, t)
            && e.pub == |e.all| == |s.all| + 1 && e.room == 0
            && e.got == s.got && e.deq == s.deq && e.ccs == s.ccs
  {
    TwoSteps(s, BeginTd(1), IssueCommand(t));
  }

  lemma {:induction false} TwoSteps(s: Sys, a: Step, b: Step)
    requires Enabled(s, a) && Enabled(Next(s, a), b)
    ensures Runs(s, [a, b]) && Exec(s, [a, b]) == Next(Next(s, a), b)
  {
    var n := Next(s, a);
    assert [a, b][1..] == [b] && [b][1..] == [];
    assert Runs(Next(n, b), []) && Exec(Next(n, b), []) == Next(n, b);
    assert Runs(n, [b]) && Exec(n, [b]) == Next(n, b);
  }

  /** `e` is `s` after the open TD has been queued to the end and published. */
  ghost predicate Rest(s: Sys, td: seq<Trb>, first: bool, e: Sys)
    requires s.ring.WellFormed() && (td != [] ==> s.ring.enq < s.ring.Last())
    requires s.start < s.ring.Last() && forall i :: 0 <= i < |td| ==> !td[i].kind.Link?
  {
    && e.ring == Giveback(QueueAll(s.ring, td, first), s.start, s.startCycle)
    && e.pub == |e.all| == |s.all| + |td| && e.room == 0
    && e.got == s.got && e.deq == s.deq && e.ccs == s.ccs
  }

  /** Queueing one TRB and then the rest. */
  lemma RestStep(s: Sys, td: seq<Trb>, first: bool, e: Sys)
    requires td != [] && Queues(s, QueueOne(td[0])) && ValidTd(td) && s.room == |td|
    requires first == (s.pub == |s.all|) && s.start < s.ring.Last()
    requires var n := Next(s, QueueOne(td[0]));
             (td[1..] != [] ==> n.ring.enq < n.ring.Last()) && Rest(n, td[1..], false, e)
    ensures Rest(s, td, first, e)
  {
  }

  lemma {:induction false} QueueRestIsRun(s: Sys, td: seq<Trb>, first: bool)
    requires Inv(s) && s.room == |td| && first == (s.pub == |s.all|) && (td == [] ==> !first)
    requires td != [] ==> ValidTd(td)
    ensures Runs(s, TdSteps(td)) && s.start < s.ring.Last() && Rest(s, td, first, Exec(s, TdSteps(td)))
    decreases |td|
  {
    if td != [] {
      var n := Next(s, QueueOne(td[0]));
      QueueKeepsInv(s, QueueOne(td[0]));
      assert |td| > 1 ==> td[1..][|td| - 2] == td[|td| - 1];
      QueueRestIsRun(n, td[1..], false);
      assert TdSteps(td)[0] == QueueOne(td[0]) && TdSteps(td)[1..] == TdSteps(td[1..]);
      RestStep(s, td, first, Exec(n, TdSteps(td[1..])));
    } else {
      assert TdSteps(td)[1..] == [];
    }
  }

  lemma {:induction false} SubmittedTd(td: seq<Trb>)
    ensures Submitted(TdSteps(td)) == td
  {
    if td == [] {
      assert TdSteps(td)[1..] == [];
    } else {
      SubmittedTd(td[1..]);
      assert TdSteps(td)[0] == QueueOne(td[0]) && TdSteps(td)[1..] == TdSteps(td[1..]);
    }
  }

  /** What the driver calls that publish a TD add to the history. */
  lemma {:induction false} PublishedTdRecorded(s: Sys, td: seq<Trb>)
    requires Runs(s, [BeginTd(|td|)] + TdSteps(td))
    ensures Records(s.all, Exec(s, [BeginTd(|td|)] + TdSteps(td)).all, td)
  {
    var steps := [BeginTd(|td|)] + TdSteps(td);
    SubmittedTd(td);
    assert steps[1..] == TdSteps(td);
    assert Submitted(steps) == td;
    RunRecordsSubmitted(s, steps);
  }

  /** With the TRBs `before` and then those of a TD in the history: a Link that the controller
      steps over behind a TRB of the TD has that TRB's CHAIN bit, the one in front none. */
  ghost predicate LinkFits(before: seq<Trb>, td: seq<Trb>, x: Sys)
    requires x.ring.WellFormed()
  {
    var m, k := x.ring.Last(), |x.got| - |before|;
    && x.deq <= m && k <= |td|
    && (x.deq == m && x.ring.mem[m].cycle == x.ccs && k >= 0 ==>
          x.ring.mem[m].chain == (k > 0 && td[k - 1].chain))
  }

  lemma LinkInTd(before: seq<Trb>, td: seq<Trb>, x: Sys)
    requires Inv(x) && Records(before, x.all, td) && (before != [] ==> !before[|before| - 1].chain)
    ensures LinkFits(before, td, x)
  {
    var m, k := x.ring.Last(), |x.got| - |before|;
    if x.deq == m && x.ring.mem[m].cycle == x.ccs && k >= 0 {
      LinkCarriesChain(x);
      if k > 0 {
        assert Erase(x.all[|before| + (k - 1)]) == Erase(td[k - 1]);
        assert x.got[|x.got| - 1] == x.all[|before| + (k - 1)];
      } else {
        assert x.all[..|before|] == before;
        assert x.got[|x.got| - 1] == x.all[|before| - 1] == before[|before| - 1];
      }
    }
  }

  lemma {:induction false} PublishedState(s: Sys, td: seq<Trb>)
    requires Inv(s) && s.room == 0 && s.pub == |s.all| && ValidTd(td)
    requires |s.all| + |td| <= |s.got| + s.ring.Last()
    ensures var steps := [BeginTd(|td|)] + TdSteps(td); Runs(s, steps) && Inv(Exec(s, steps))
  {
    PublishTdIsRun(s, td);
    RunKeepsInv(s, [BeginTd(|td|)] + TdSteps(td));
  }

  lemma {:induction false} ControllerInTd(before: seq<Trb>, td: seq<Trb>, e: Sys, n: nat)
    requires Inv(e) && Records(before, e.all, td) && (before != [] ==> !before[|before| - 1].chain)
    ensures Runs(e, ControllerSteps(n))
    ensures var x := Exec(e, ControllerSteps(n)); x.ring.WellFormed() && LinkFits(before, td, x)
  {
    ControllerRunsAlone(e, n);
    RunKeepsInv(e, ControllerSteps(n));
    LinkInTd(before, td, Exec(e, ControllerSteps(n)));
  }

  /** Main result on wrapping TDs: so it is when the controller works through a TD that the
      driver has published, as far as it gets. */
  lemma {:induction false} TdUnbroken(s: Sys, td: seq<Trb>, n: nat)
    requires Inv(s) && s.room == 0 && s.pub == |s.all| && ValidTd(td)
    requires |s.all| + |td| <= |s.got| + s.ring.Last()
    ensures Runs(s, [BeginTd(|td|)] + TdSteps(td))
    ensures var e := Exec(s, [BeginTd(|td|)] + TdSteps(td));
            && Runs(e, ControllerSteps(n))
            && var x := Exec(e, ControllerSteps(n));
            x.ring.WellFormed() && LinkFits(s.all, td, x)
  {
    assert s.all != [] ==> !s.all[|s.all| - 1].chain;
    PublishedState(s, td);
    PublishedTdRecorded(s, td);
    ControllerInTd(s.all, td, Exec(s, [BeginTd(|td|)] + TdSteps(td)), n);
  }

  /** CHAIN on all but the last TRB. */
  predicate Chained(td: seq<Trb>) {
    forall i :: 0 <= i < |td| ==> td[i].chain == (i < |td| - 1)
  }

  /** A Link that the controller steps over has CHAIN exactly inside a TD of n TRBs that
      follows `before` others. */
  ghost predicate ChainInside(before: nat, n: nat, x: Sys)
    requires x.ring.WellFormed()
  {
    && x.deq <= x.ring.Last()
    && (x.deq == x.ring.Last() && x.ring.mem[x.deq].cycle == x.ccs && |x.got| >= before ==>
          (x.ring.mem[x.deq].chain <==> before < |x.got| < before + n))
  }

  lemma FitsInside(before: seq<Trb>, td: seq<Trb>, x: Sys)
    requires x.ring.WellFormed() && LinkFits(before, td, x) && Chained(td)
    ensures ChainInside(|before|, |td|, x)
  {
  }
}
