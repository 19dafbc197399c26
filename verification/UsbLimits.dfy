/** `usb_parse_config` of usb/xhci_usb.c beyond its limits of eight interfaces and sixteen
    endpoints: when an index leaves its table. */
module UsbLimits {
  import opened Bytes
  import opened UsbConfig

  /** What the walk can reach: the indices are those of the tables, or one past a full one. */
  predicate Reachable(s: State) {
    && |s.ifs| <= MAX_INTERFACES && -1 <= s.ifno && -1 <= s.epno <= MAX_ENDPOINTS
    && (s.ifno >= |s.ifs| ==> s.ifno == MAX_INTERFACES)
    && forall i :: 0 <= i < |s.ifs| ==> |s.ifs[i].eps| <= MAX_ENDPOINTS
  }

  /** An interface beyond the eighth has been turned away, but its number is kept as index. */
  predicate PastInterfaces(s: State) {
    s.ifno == MAX_INTERFACES
  }

  /** The descriptors with which the C code then goes on behind its tables: behind the
      interfaces, or with a companion behind the sixteen endpoints of one. */
  predicate GoesBehind(s: State, d: seq<byte>) {
    || (PastInterfaces(s) && IsEndpoint(d))
    || (PastInterfaces(s) && IsInterface(d) && d[2] as int == s.currIfNum)
    || (PastInterfaces(s) && IsCompanion(d) && s.epno >= 0)
    || (s.ifno >= 0 && IsCompanion(d) && s.epno == MAX_ENDPOINTS)
  }

  lemma HandleOverruns(s: State, d: seq<byte>)
    requires Reachable(s) && 2 <= |d| && d[0] as int == |d|
    ensures Reachable(Handle(s, d, |d|))
    ensures Handle(s, d, |d|).overran <==> s.overran || GoesBehind(s, d)
  {
  }

  /** An index leaves its table exactly at such a descriptor. */
  lemma {:induction false} OverrunsExactlyBehind(s: State, ds: seq<seq<byte>>)
    requires Reachable(s) && WellSized(ds)
    ensures Fold(s, ds).overran <==> s.overran || exists i :: 0 <= i < |ds| && GoesBehind(Fold(s, ds[..i]), ds[i])
    decreases |ds|
  {
    if ds != [] {
      var n := Handle(s, ds[0], |ds[0]|);
      HandleOverruns(s, ds[0]);
      OverrunsExactlyBehind(n, ds[1..]);
      assert Fold(s, ds[..0]) == s;
      forall i | 0 < i < |ds| ensures Fold(s, ds[..i]) == Fold(n, ds[1..][..i - 1]) && ds[i] == ds[1..][i - 1] {
        assert ds[..i][1..] == ds[1..][..i - 1];
      }
      if Fold(n, ds[1..]).overran && !n.overran {
        var i :| 0 <= i < |ds[1..]| && GoesBehind(Fold(n, ds[1..][..i]), ds[1..][i]);
        assert GoesBehind(Fold(s, ds[..i + 1]), ds[i + 1]);
      }
    }
  }

  /** The number of the last interface descriptor, -1 if there is none. */
  function LastNumber(ds: seq<seq<byte>>): int {
    if ds == [] then -1 else
      var d := ds[|ds| - 1];
      if IsInterface(d) then d[2] else LastNumber(ds[..|ds| - 1])
  }

  /** Does d, behind the descriptors `before`, bring a number other than the one before? */
  predicate Opens(before: seq<seq<byte>>, d: seq<byte>) {
    IsInterface(d) && d[2] as int != LastNumber(before)
  }

  /** How often the interface number changes; the first interface counts. */
  function Opened(ds: seq<seq<byte>>): nat {
    if ds == [] then 0 else
      var before := ds[..|ds| - 1];
      Opened(before) + if Opens(before, ds[|ds| - 1]) then 1 else 0
  }

  /** The number of the eighth interface counted so. */
  function EighthNumber(ds: seq<seq<byte>>): int {
    if ds == [] then -1 else
      var before, d := ds[..|ds| - 1], ds[|ds| - 1];
      if Opens(before, d) && Opened(before) + 1 == MAX_INTERFACES then d[2] else EighthNumber(before)
  }

  /** The endpoints behind the last interface counted so. */
  function Endpoints(ds: seq<seq<byte>>): nat {
    if ds == [] then 0 else
      var before, d := ds[..|ds| - 1], ds[|ds| - 1];
      if Opens(before, d) then 0
      else Endpoints(before) + if IsEndpoint(d) && Opened(before) > 0 then 1 else 0
  }

  /** The place of the last endpoint within its interface, -1 if there is none. */
  function LastPlace(ds: seq<seq<byte>>): int {
    if ds == [] then -1 else
      var before, d := ds[..|ds| - 1], ds[|ds| - 1];
      if IsEndpoint(d) && Opened(before) > 0 then Endpoints(before) else LastPlace(before)
  }

  /** With d, behind the descriptors `before`, the C code goes on behind a table: more than
      eight interfaces and then an endpoint, the eighth's number again, or a companion after
      any endpoint; or a companion behind an endpoint that was not among the first sixteen. */
  predicate TooMuch(before: seq<seq<byte>>, d: seq<byte>) {
    || (Opened(before) > MAX_INTERFACES && IsEndpoint(d))
    || (Opened(before) > MAX_INTERFACES && IsInterface(d) && d[2] as int == EighthNumber(before))
    || (Opened(before) > MAX_INTERFACES && IsCompanion(d) && LastPlace(before) >= 0)
    || (IsCompanion(d) && LastPlace(before) >= MAX_ENDPOINTS)
  }

  /** The parser's indices and tables count what the list shows. */
  ghost predicate Counts(s: State, ds: seq<seq<byte>>) {
    var o := Opened(ds);
    && |s.ifs| == (if o > MAX_INTERFACES then MAX_INTERFACES else o)
    && s.ifno == (if o > MAX_INTERFACES then MAX_INTERFACES else o - 1)
    && s.currIfNum == (if o > MAX_INTERFACES then EighthNumber(ds) else LastNumber(ds))
    && (o == MAX_INTERFACES ==> LastNumber(ds) == EighthNumber(ds))
    && (0 < o <= MAX_INTERFACES ==>
          |s.ifs[o - 1].eps| == if Endpoints(ds) > MAX_ENDPOINTS then MAX_ENDPOINTS else Endpoints(ds))
    && s.epno == (if LastPlace(ds) > MAX_ENDPOINTS then MAX_ENDPOINTS else LastPlace(ds))
    && LastPlace(ds) >= -1 && (LastPlace(ds) >= 0 ==> o > 0)
  }

  lemma CountsStart()
    ensures Counts(START, [])
  {
  }

  /** What one more descriptor does to the counts of a list. */
  lemma {:induction false} ListStep(before: seq<seq<byte>>, d: seq<byte>)
    ensures var ds, opens := before + [d], Opens(before, d);
            && LastNumber(ds) == (if IsInterface(d) then d[2] else LastNumber(before))
            && Opened(ds) == Opened(before) + (if opens then 1 else 0)
            && EighthNumber(ds)
               == (if opens && Opened(before) + 1 == MAX_INTERFACES then d[2] else EighthNumber(before))
            && Endpoints(ds) == (if opens then 0
                                 else Endpoints(before) + if IsEndpoint(d) && Opened(before) > 0 then 1 else 0)
            && LastPlace(ds) == if IsEndpoint(d) && Opened(before) > 0 then Endpoints(before) else LastPlace(before)
  {
    var ds := before + [d];
    assert ds[..|ds| - 1] == before && ds[|ds| - 1] == d;
  }

  lemma TooMuchGoesBehind(s: State, before: seq<seq<byte>>, d: seq<byte>)
    requires Reachable(s) && Counts(s, before)
    ensures GoesBehind(s, d) <==> TooMuch(before, d)
  {
  }

  lemma CountsStep(s: State, before: seq<seq<byte>>, d: seq<byte>)
    requires Reachable(s) && !s.overran && Counts(s, before) && 2 <= |d| && d[0] as int == |d|
    requires !TooMuch(before, d)
    ensures Counts(Handle(s, d, |d|), before + [d])
  {
    ListStep(before, d);
    if IsInterface(d) {
      CountsInterface(s, before, d);
    } else if IsEndpoint(d) {
      CountsEndpoint(s, before, d);
    }
  }

  lemma CountsInterface(s: State, before: seq<seq<byte>>, d: seq<byte>)
    requires Reachable(s) && Counts(s, before) && IsInterface(d) && !TooMuch(before, d)
    ensures Counts(Handle(s, d, |d|), before + [d])
  {
    ListStep(before, d);
  }

  lemma CountsEndpoint(s: State, before: seq<seq<byte>>, d: seq<byte>)
    requires Reachable(s) && Counts(s, before) && IsEndpoint(d) && !TooMuch(before, d)
    ensures Counts(Handle(s, d, |d|), before + [d])
  {
    ListStep(before, d);
  }

  lemma {:induction false} FoldCounts(ds: seq<seq<byte>>)
    requires WellSized(ds)
    ensures Reachable(Fold(START, ds))
    ensures !Fold(START, ds).overran ==> Counts(Fold(START, ds), ds)
    decreases |ds|
  {
    if ds == [] {
      CountsStart();
    } else {
      var before, d := ds[..|ds| - 1], ds[|ds| - 1];
      var s := Fold(START, before);
      FoldCounts(before);
      FoldLast(ds);
      HandleOverruns(s, d);
      if !s.overran {
        TooMuchGoesBehind(s, before, d);
        assert before + [d] == ds;
        if !TooMuch(before, d) {
          CountsStep(s, before, d);
        }
      }
    }
  }

  lemma {:induction false} FoldLast(ds: seq<seq<byte>>)
    requires ds != [] && WellSized(ds)
    ensures WellSized(ds[..|ds| - 1])
    ensures var d := ds[|ds| - 1]; Fold(START, ds) == Handle(Fold(START, ds[..|ds| - 1]), d, |d|)
  {
    var before, d := ds[..|ds| - 1], ds[|ds| - 1];
    assert ds == before + [d];
    FoldConcat(START, before, [d]);
    FoldOne(Fold(START, before), d);
  }

  /** Some descriptor of the list is too much behind those before it. */
  ghost predicate SomeTooMuch(ds: seq<seq<byte>>) {
    exists i :: 0 <= i < |ds| && TooMuch(ds[..i], ds[i])
  }

  lemma SomeOrLast(ds: seq<seq<byte>>)
    requires ds != []
    ensures var before := ds[..|ds| - 1];
            SomeTooMuch(ds) <==> SomeTooMuch(before) || TooMuch(before, ds[|ds| - 1])
  {
    var before := ds[..|ds| - 1];
    forall i | 0 <= i < |before| ensures TooMuch(ds[..i], ds[i]) <==> TooMuch(before[..i], before[i]) {
      assert ds[..i] == before[..i];
    }
  }

  lemma OverrunsAtLast(ds: seq<seq<byte>>)
    requires ds != [] && WellSized(ds)
    ensures var before := ds[..|ds| - 1];
            && WellSized(before)
            && (Fold(START, ds).overran <==> Fold(START, before).overran || TooMuch(before, ds[|ds| - 1]))
  {
    var before, d := ds[..|ds| - 1], ds[|ds| - 1];
    FoldLast(ds);
    FoldCounts(before);
    HandleOverruns(Fold(START, before), d);
    if !Fold(START, before).overran {
      TooMuchGoesBehind(Fold(START, before), before, d);
    }
  }

  /** Read off the list of whole descriptors: an index leaves its
      table exactly when one of them is too much behind those before it. */
  lemma {:induction false} OverrunsExactly(ds: seq<seq<byte>>)
    requires WellSized(ds)
    ensures Fold(START, ds).overran <==> SomeTooMuch(ds)
    decreases |ds|
  {
    if ds != [] {
      OverrunsAtLast(ds);
      OverrunsExactly(ds[..|ds| - 1]);
      SomeOrLast(ds);
    }
  }

  /** The whole descriptors of a walk over bytes. Those of length 1 and one cut off by the
      total length are passed over. */
  function WholeOnes(buffer: seq<byte>, index: nat, total: nat): (ds: seq<seq<byte>>)
    requires total <= |buffer|
    ensures WellSized(ds)
    decreases total - index
  {
    if index + 1 < total && buffer[index] != 0 then
      var next := index + buffer[index] as int;
      (if buffer[index] >= 2 && next <= total then [buffer[index..next]] else []) + WholeOnes(buffer, next, total)
    else []
  }

  /** A descriptor that does not fit, or is too short for its type, changes nothing. */
  lemma PartialIgnored(s: State, head: seq<byte>, room: nat)
    requires 2 <= room == |head| && (head[0] < 2 || head[0] > room)
    ensures Handle(s, head, room) == s
  {
  }

  lemma {:induction false} FoldFirst(s: State, d: seq<byte>, ds: seq<seq<byte>>)
    requires WellSized([d]) && WellSized(ds)
    ensures WellSized([d] + ds) && Fold(s, [d] + ds) == Fold(Handle(s, d, |d|), ds)
  {
    assert d == [d][0];
    assert ([d] + ds)[1..] == ds;
  }

  /** One descriptor of the walk, with what follows it up to the total length. */
  lemma HeadHandled(s: State, buffer: seq<byte>, index: nat, total: nat)
    requires total <= |buffer| && index + 1 < total && buffer[index] != 0
    ensures var head, next := buffer[index..total], index + buffer[index] as int;
            Handle(s, head, total - index)
            == if buffer[index] >= 2 && next <= total then Handle(s, buffer[index..next], next - index) else s
  {
    var head, room := buffer[index..total], total - index;
    var next := index + buffer[index] as int;
    if buffer[index] >= 2 && next <= total {
      HandleLocal(s, buffer[index..next], buffer[next..total]);
      assert buffer[index..next] + buffer[next..total] == head;
    } else {
      PartialIgnored(s, head, room);
    }
  }

  /** On every buffer the walk over bytes is the walk over its whole descriptors. */
  lemma {:induction false} ParseIsFoldOfWhole(s: State, buffer: seq<byte>, index: nat, total: nat)
    requires total <= |buffer|
    ensures Parse(s, buffer, index, total) == Fold(s, WholeOnes(buffer, index, total))
    decreases total - index
  {
    if index + 1 < total && buffer[index] != 0 {
      var next := index + buffer[index] as int;
      var rest := WholeOnes(buffer, next, total);
      HeadHandled(s, buffer, index, total);
      ParseIsFoldOfWhole(Handle(s, buffer[index..total], total - index), buffer, next, total);
      if buffer[index] >= 2 && next <= total {
        FoldFirst(s, buffer[index..next], rest);
      } else {
        assert [] + rest == rest;
      }
    }
  }

  /** Main result beyond the limits, for every buffer, well formed or not. */
  lemma {:induction false} ParseOverrunsExactly(buffer: seq<byte>)
    requires |buffer| >= DT_CONFIG_SIZE && Le16(buffer, 2) <= |buffer|
    ensures Parse(START, buffer, buffer[0], Le16(buffer, 2)).overran
            <==> SomeTooMuch(WholeOnes(buffer, buffer[0], Le16(buffer, 2)))
  {
    ParseIsFoldOfWhole(START, buffer, buffer[0], Le16(buffer, 2));
    OverrunsExactly(WholeOnes(buffer, buffer[0], Le16(buffer, 2)));
  }

  /** A ninth interface followed by an endpoint is such a case. */
  lemma {:induction false} NinthInterface(fs: seq<InterfaceSource>, d: seq<byte>, others: seq<seq<byte>>, e: seq<byte>)
    requires ValidConfiguration(fs) && |fs| == 8
    requires IsInterface(d) && d[2] != fs[7].Number() && AllOther(others) && IsEndpoint(e)
    ensures WellSized(AllDescriptors(fs) + ([d] + others + [e]))
    ensures Fold(START, AllDescriptors(fs) + ([d] + others + [e])).overran
  {
    ConfigurationFolds(fs, |fs|);
    assert fs[..|fs|] == fs;
    var s := Fold(START, AllDescriptors(fs));
    FoldWithOthers(s, d, others);
    var s1 := Handle(s, d, |d|);
    FoldConcat(s, [d] + others, [e]);
    FoldOne(s1, e);
    FoldConcat(START, AllDescriptors(fs), [d] + others + [e]);
  }
}
