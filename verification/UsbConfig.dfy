/** `usb_parse_config` of usb/xhci_usb.c: walks a configuration descriptor and records its
    interfaces, endpoints and endpoint companions (USB 2.0 specification, section 9.6). */
module UsbConfig {
  import opened Bytes
  import opened Wrappers

  const DT_CONFIG_SIZE := 9
  const DT_INTERFACE: byte := 4
  const DT_ENDPOINT: byte := 5
  const DT_SS_COMP: byte := 0x30
  const INTERFACE_SIZE := 9
  const ENDPOINT_SIZE := 7
  const ENDPOINT_AUDIO_SIZE := 9
  const SS_COMP_SIZE := 6
  const MAX_INTERFACES := 8
  const MAX_ENDPOINTS := 16

  /** One entry of the interface table; `comps` has the companion slots written so far. */
  datatype Interface = Interface(desc: seq<byte>, altSettings: nat, eps: seq<seq<byte>>, comps: map<nat, seq<byte>>)

  /** The table and the locals of the parser. `overran` is set where the C code would go on
      with an index past the end of a table. */
  datatype State = State(ifs: seq<Interface>, ifno: int, epno: int, currIfNum: int, overran: bool)

  const START := State([], -1, -1, -1, false)

  function OnInterface(s: State, d: seq<byte>, room: nat): State
    requires 0 < |d| && room <= |d|
  {
    if d[0] != INTERFACE_SIZE || INTERFACE_SIZE > room then s
    else if d[2] as int != s.currIfNum then
      if |s.ifs| >= MAX_INTERFACES then s.(ifno := |s.ifs|)
      else s.(ifs := s.ifs + [Interface(d[..INTERFACE_SIZE], 1, [], map[])], ifno := |s.ifs|, currIfNum := d[2])
    else if s.ifno < 0 then s
    else if s.ifno >= |s.ifs| then s.(overran := true)
    else s.(ifs := s.ifs[s.ifno := s.ifs[s.ifno].(altSettings := s.ifs[s.ifno].altSettings + 1)])
  }

  function OnEndpoint(s: State, d: seq<byte>, room: nat): State
    requires 0 < |d| && room <= |d|
  {
    if (d[0] != ENDPOINT_SIZE && d[0] != ENDPOINT_AUDIO_SIZE) || d[0] > room || s.ifno < 0 then s
    else if s.ifno >= |s.ifs| then s.(overran := true)
    else
      var i := s.ifs[s.ifno];
      if |i.eps| >= MAX_ENDPOINTS then s.(epno := |i.eps|)
      else s.(ifs := s.ifs[s.ifno := i.(eps := i.eps + [d[..ENDPOINT_SIZE]])], epno := |i.eps|)
  }

  function OnCompanion(s: State, d: seq<byte>, room: nat): State
    requires 0 < |d| && room <= |d|
  {
    if d[0] != SS_COMP_SIZE || SS_COMP_SIZE > room || s.ifno < 0 || s.epno < 0 then s
    else if s.ifno >= |s.ifs| || s.epno >= MAX_ENDPOINTS then s.(overran := true)
    else
      var i := s.ifs[s.ifno];
      s.(ifs := s.ifs[s.ifno := i.(comps := i.comps[s.epno := d[..SS_COMP_SIZE]])])
  }

  /** One descriptor that starts at d, with `room` bytes left of the configuration. */
  function Handle(s: State, d: seq<byte>, room: nat): State
    requires 2 <= |d| && room <= |d|
  {
    if d[1] == DT_INTERFACE then OnInterface(s, d, room)
    else if d[1] == DT_ENDPOINT then OnEndpoint(s, d, room)
    else if d[1] == DT_SS_COMP then OnCompanion(s, d, room)
    else s
  }

  /** The walk from `index` on. */
  function Parse(s: State, buffer: seq<byte>, index: nat, total: nat): State
    requires total <= |buffer|
    decreases total - index
  {
    if index + 1 < total && buffer[index] != 0 then
      Parse(Handle(s, buffer[index..total], total - index), buffer, index + buffer[index] as int, total)
    else s
  }

  class ConfigParser {
    var ifDesc: seq<Interface>
    var ifno: int
    var epno: int
    var currIfNum: int
    var overran: bool

    function View(): State
      reads this
    {
      State(ifDesc, ifno, epno, currIfNum, overran)
    }

    method HandleInterface(head: seq<byte>, room: nat)
      requires 0 < |head| && room <= |head|
      modifies this
      ensures View() == OnInterface(old(View()), head, room)
    {
      if head[0] != INTERFACE_SIZE {
        return;
      }
      if INTERFACE_SIZE > room {
        return;
      }
      if head[2] as int != currIfNum {
        ifno := |ifDesc|;
        if ifno >= MAX_INTERFACES {
          return;
        }
        ifDesc := ifDesc + [Interface(head[..INTERFACE_SIZE], 1, [], map[])];
        currIfNum := head[2];
      } else if ifno >= 0 {
        if ifno >= |ifDesc| {
          overran := true;
        } else {
          ifDesc := ifDesc[ifno := ifDesc[ifno].(altSettings := ifDesc[ifno].altSettings + 1)];
        }
      }
    }

    method HandleEndpoint(head: seq<byte>, room: nat)
      requires 0 < |head| && room <= |head|
      modifies this
      ensures View() == OnEndpoint(old(View()), head, room)
    {
      if head[0] != ENDPOINT_SIZE && head[0] != ENDPOINT_AUDIO_SIZE {
        return;
      }
      if head[0] > room || ifno < 0 {
        return;
      }
      if ifno >= |ifDesc| {
        overran := true;
        return;
      }
      epno := |ifDesc[ifno].eps|;
      if epno >= MAX_ENDPOINTS {
        return;
      }
      ifDesc := ifDesc[ifno := ifDesc[ifno].(eps := ifDesc[ifno].eps + [head[..ENDPOINT_SIZE]])];
    }

    method HandleCompanion(head: seq<byte>, room: nat)
      requires 0 < |head| && room <= |head|
      modifies this
      ensures View() == OnCompanion(old(View()), head, room)
    {
      if head[0] != SS_COMP_SIZE || SS_COMP_SIZE > room {
        return;
      }
      if ifno < 0 || epno < 0 {
        return;
      }
      if ifno >= |ifDesc| || epno >= MAX_ENDPOINTS {
        overran := true;
        return;
      }
      ifDesc := ifDesc[ifno := ifDesc[ifno].(comps := ifDesc[ifno].comps[epno := head[..SS_COMP_SIZE]])];
    }

    /** The switch on the descriptor's type. */
    method HandleOne(head: seq<byte>, room: nat)
      requires 2 <= |head| && room <= |head|
      modifies this
      ensures View() == Handle(old(View()), head, room)
    {
      match head[1] {
        case 4 => HandleInterface(head, room);
        case 5 => HandleEndpoint(head, room);
        case 0x30 => HandleCompanion(head, room);
        case _ =>
      }
    }

    /** `usb_parse_config`: ends on every buffer that is as long as its own total length. */
    method ParseConfig(buffer: seq<byte>)
      requires |buffer| >= DT_CONFIG_SIZE && Le16(buffer, 2) <= |buffer|
      modifies this
      ensures View() == Parse(START, buffer, buffer[0], Le16(buffer, 2))
    {
      ifDesc, ifno, epno, currIfNum, overran := [], -1, -1, -1, false;
      var total := Le16(buffer, 2);
      var index: nat := buffer[0];
      while index + 1 < total && buffer[index] != 0
        invariant Parse(View(), buffer, index, total) == Parse(START, buffer, buffer[0], total)
        decreases total - index
      {
        var head, room := buffer[index..total], total - index;
        HandleOne(head, room);
        index := index + head[0];
      }
    }
  }

  /** Standard interface and endpoint descriptors (USB 2.0 specification, sections 9.6.5 and
      9.6.6, with the two bytes the audio class adds), and the companion of USB 3. */
  predicate IsInterface(d: seq<byte>) {
    |d| == 9 && d[0] == 9 && d[1] == 4
  }

  predicate IsEndpoint(d: seq<byte>) {
    (|d| == 7 || |d| == 9) && d[0] as int == |d| && d[1] == 5
  }

  predicate IsCompanion(d: seq<byte>) {
    |d| == 6 && d[0] == 6 && d[1] == 0x30
  }

  /** Any other descriptor: an unknown type, or a known one of a wrong size. */
  predicate IsOther(d: seq<byte>) {
    && 2 <= |d| && d[0] as int == |d|
    && !IsInterface(d) && !IsEndpoint(d) && !IsCompanion(d)
  }

  /** The descriptors that change the table: an interface with a new number while there is
      room, a further setting of the current one, an endpoint while there is room, and a
      companion of an endpoint, unless it is there already. */
  predicate Changes(s: State, d: seq<byte>) {
    var inTable := 0 <= s.ifno < |s.ifs|;
    || (IsInterface(d) && (if d[2] as int != s.currIfNum then |s.ifs| < 8 else inTable))
    || (IsEndpoint(d) && inTable && |s.ifs[s.ifno].eps| < 16)
    || (IsCompanion(d) && inTable && 0 <= s.epno < 16
        && !(s.epno in s.ifs[s.ifno].comps && s.ifs[s.ifno].comps[s.epno] == d))
  }

  /** All others leave the table alone: orphans, and those for which there is no room. */
  lemma ChangesExactly(s: State, d: seq<byte>)
    requires 2 <= |d| && d[0] as int == |d|
    ensures Handle(s, d, |d|).ifs != s.ifs <==> Changes(s, d)
  {
    var s' := Handle(s, d, |d|);
    if s'.ifs != s.ifs && |s'.ifs| == |s.ifs| {
      assert s'.ifs[s.ifno] != s.ifs[s.ifno];
    }
    if IsCompanion(d) {
      assert d[..6] == d;
    }
  }

  predicate AllOther(ds: seq<seq<byte>>) {
    forall i :: 0 <= i < |ds| ==> IsOther(ds[i])
  }

  function Flat(ds: seq<seq<byte>>): seq<byte> {
    if ds == [] then [] else ds[0] + Flat(ds[1..])
  }

  /** The parser on whole descriptors. */
  function Fold(s: State, ds: seq<seq<byte>>): State
    requires forall i :: 0 <= i < |ds| ==> 2 <= |ds[i]|
    decreases |ds|
  {
    if ds == [] then s else Fold(Handle(s, ds[0], |ds[0]|), ds[1..])
  }

  predicate WellSized(ds: seq<seq<byte>>) {
    forall i :: 0 <= i < |ds| ==> 2 <= |ds[i]| && ds[i][0] as int == |ds[i]|
  }

  lemma WellSizedConcat(a: seq<seq<byte>>, b: seq<seq<byte>>)
    requires WellSized(a) && WellSized(b)
    ensures WellSized(a + b)
  {
  }

  /** Handling looks at no byte behind the descriptor. */
  lemma HandleLocal(s: State, d: seq<byte>, more: seq<byte>)
    requires 2 <= |d| && d[0] as int == |d|
    ensures Handle(s, d + more, |d + more|) == Handle(s, d, |d|)
  {
    assert |d| >= 9 ==> (d + more)[..9] == d[..9];
    assert |d| >= 7 ==> (d + more)[..7] == d[..7];
    assert |d| >= 6 ==> (d + more)[..6] == d[..6];
  }

  /** The walk over bytes is the walk over the descriptors they spell. */
  lemma {:induction false} ParseIsFold(s: State, buffer: seq<byte>, index: nat, total: nat, ds: seq<seq<byte>>)
    requires index <= total <= |buffer| && WellSized(ds) && buffer[index..total] == Flat(ds)
    ensures Parse(s, buffer, index, total) == Fold(s, ds)
    decreases |ds|
  {
    if ds != [] {
      var d, rest := ds[0], Flat(ds[1..]);
      HandleLocal(s, d, rest);
      FirstAndRest(buffer, index, total, d, rest);
      ParseIsFold(Handle(s, d, |d|), buffer, index + |d|, total, ds[1..]);
    }
  }

  lemma FirstAndRest(buffer: seq<byte>, index: nat, total: nat, d: seq<byte>, rest: seq<byte>)
    requires index <= total <= |buffer| && buffer[index..total] == d + rest && d != []
    ensures index + |d| <= total && buffer[index] == d[0] && buffer[index + |d|..total] == rest
  {
    assert |d + rest| == total - index;
    assert buffer[index] == (d + rest)[0];
    assert buffer[index + |d|..total] == (d + rest)[|d|..];
  }

  lemma {:induction false} FoldConcat(s: State, a: seq<seq<byte>>, b: seq<seq<byte>>)
    requires WellSized(a) && WellSized(b)
    ensures Fold(s, a + b) == Fold(Fold(s, a), b)
    decreases |a|
  {
    if a == [] {
      assert a + b == b;
    } else {
      assert (a + b)[1..] == a[1..] + b;
      FoldConcat(Handle(s, a[0], |a[0]|), a[1..], b);
    }
  }

  lemma {:induction false} OthersIgnored(s: State, ds: seq<seq<byte>>)
    requires AllOther(ds)
    ensures WellSized(ds) && Fold(s, ds) == s
    decreases |ds|
  {
    if ds != [] {
      OthersIgnored(s, ds[1..]);
      assert ds == [ds[0]] + ds[1..];
    }
  }

  /** An endpoint of a well-formed configuration, with foreign descriptors around it. */
  datatype EndpointSource = EndpointSource(desc: seq<byte>, middle: seq<seq<byte>>, comp: Option<seq<byte>>,
                                           after: seq<seq<byte>>) {
    predicate Valid() {
      IsEndpoint(desc) && AllOther(middle) && AllOther(after) && (comp.Some? ==> IsCompanion(comp.value))
    }

    function Descriptors(): seq<seq<byte>> {
      [desc] + middle + (if comp.Some? then [comp.value] else []) + after
    }
  }

  /** One setting of an interface: its descriptor and its endpoints. */
  datatype SettingSource = SettingSource(desc: seq<byte>, after: seq<seq<byte>>, eps: seq<EndpointSource>) {
    predicate Valid() {
      && IsInterface(desc) && AllOther(after)
      && forall i :: 0 <= i < |eps| ==> eps[i].Valid()
    }

    function Descriptors(): seq<seq<byte>> {
      [desc] + after + EndpointDescriptors(eps)
    }
  }

  /** An interface of a well-formed configuration: settings with one number, and room for all
      their endpoints. */
  datatype InterfaceSource = InterfaceSource(settings: seq<SettingSource>) {
    predicate Valid() {
      && settings != [] && |EndpointsOf(settings)| <= 16
      && forall i :: 0 <= i < |settings| ==> settings[i].Valid() && settings[i].desc[2] == Number()
    }

    function First(): seq<byte> {
      if settings == [] then [] else settings[0].desc
    }

    function Number(): byte {
      if |First()| > 2 then First()[2] else 0
    }

    function Descriptors(): seq<seq<byte>> {
      SettingDescriptors(settings)
    }

    /** The table entry this interface should leave: its first descriptor, the number of its
        settings, and the endpoints of all of them. */
    function Entry(): Interface {
      EntryOf(First(), |settings|, EndpointsOf(settings))
    }
  }

  function EntryOf(desc: seq<byte>, count: nat, eps: seq<EndpointSource>): Interface {
    Interface(desc, count, seq(|eps|, i requires 0 <= i < |eps| => Short(eps[i].desc)),
              map i: nat | i < |eps| && eps[i].comp.Some? :: eps[i].comp.value)
  }

  /** The endpoints of all settings, in order. */
  function EndpointsOf(settings: seq<SettingSource>): seq<EndpointSource> {
    if settings == [] then [] else EndpointsOf(settings[..|settings| - 1]) + settings[|settings| - 1].eps
  }

  function SettingDescriptors(settings: seq<SettingSource>): seq<seq<byte>> {
    if settings == [] then []
    else SettingDescriptors(settings[..|settings| - 1]) + settings[|settings| - 1].Descriptors()
  }

  /** The part of an endpoint descriptor that is kept. */
  function Short(desc: seq<byte>): seq<byte> {
    if |desc| < 7 then desc else desc[..7]
  }

  function EndpointDescriptors(eps: seq<EndpointSource>): seq<seq<byte>> {
    if eps == [] then [] else EndpointDescriptors(eps[..|eps| - 1]) + eps[|eps| - 1].Descriptors()
  }

  function AllDescriptors(fs: seq<InterfaceSource>): seq<seq<byte>> {
    if fs == [] then [] else AllDescriptors(fs[..|fs| - 1]) + fs[|fs| - 1].Descriptors()
  }

  /** At most eight valid interfaces; neighbours have different numbers. */
  predicate ValidConfiguration(fs: seq<InterfaceSource>) {
    && |fs| <= 8
    && (forall i :: 0 <= i < |fs| ==> fs[i].Valid())
    && forall i :: 0 <= i < |fs| - 1 ==> fs[i].Number() != fs[i + 1].Number()
  }

  lemma {:induction false} FoldOne(s: State, d: seq<byte>)
    requires 2 <= |d|
    ensures Fold(s, [d]) == Handle(s, d, |d|)
  {
    assert Fold(Handle(s, d, |d|), []) == Handle(s, d, |d|);
  }

  /** A descriptor that foreign ones follow. */
  lemma {:induction false} FoldWithOthers(s: State, d: seq<byte>, others: seq<seq<byte>>)
    requires WellSized([d]) && AllOther(others)
    ensures WellSized([d] + others) && Fold(s, [d] + others) == Handle(s, d, |d|)
  {
    assert 2 <= |[d][0]|;
    FoldOne(s, d);
    OthersIgnored(Handle(s, d, |d|), others);
    FoldConcat(s, [d], others);
  }

  /** The last interface of the table. */
  function Current(s: State): Interface
    requires s.ifs != []
  {
    s.ifs[|s.ifs| - 1]
  }

  function WithCurrent(s: State, i: Interface, epno: int): State
    requires s.ifs != []
  {
    s.(ifs := s.ifs[|s.ifs| - 1 := i], epno := epno)
  }

  lemma EndpointHandled(s: State, d: seq<byte>)
    requires IsEndpoint(d) && 0 <= s.ifno == |s.ifs| - 1 && |Current(s).eps| < MAX_ENDPOINTS
    ensures Handle(s, d, |d|) == WithCurrent(s, Current(s).(eps := Current(s).eps + [Short(d)]), |Current(s).eps|)
  {
  }

  lemma CompanionHandled(s: State, d: seq<byte>)
    requires IsCompanion(d) && 0 <= s.ifno == |s.ifs| - 1 && 0 <= s.epno < MAX_ENDPOINTS
    ensures Handle(s, d, |d|) == WithCurrent(s, Current(s).(comps := Current(s).comps[s.epno := d]), s.epno)
  {
    assert d[..SS_COMP_SIZE] == d;
  }

  /** What follows an endpoint and the foreign descriptors behind it. */
  function Tail(e: EndpointSource): seq<seq<byte>> {
    (if e.comp.Some? then [e.comp.value] else []) + e.after
  }

  lemma {:induction false} TailFolds(s: State, e: EndpointSource)
    requires e.Valid() && 0 <= s.ifno == |s.ifs| - 1 && 0 <= s.epno < MAX_ENDPOINTS
    ensures WellSized(Tail(e))
    ensures var i := Current(s);
            Fold(s, Tail(e))
            == WithCurrent(s, if e.comp.Some? then i.(comps := i.comps[s.epno := e.comp.value]) else i, s.epno)
  {
    if e.comp.Some? {
      FoldWithOthers(s, e.comp.value, e.after);
      CompanionHandled(s, e.comp.value);
    } else {
      assert Tail(e) == e.after;
      OthersIgnored(s, e.after);
    }
  }

  lemma {:induction false} EndpointFolds(s: State, e: EndpointSource)
    requires e.Valid() && 0 <= s.ifno == |s.ifs| - 1 && |Current(s).eps| < MAX_ENDPOINTS
    ensures WellSized(e.Descriptors())
    ensures var i, n := Current(s), |Current(s).eps|;
            var i' := i.(eps := i.eps + [Short(e.desc)],
                         comps := if e.comp.Some? then i.comps[n := e.comp.value] else i.comps);
            Fold(s, e.Descriptors()) == WithCurrent(s, i', n)
  {
    var head := [e.desc] + e.middle;
    FoldWithOthers(s, e.desc, e.middle);
    EndpointHandled(s, e.desc);
    TailFolds(Fold(s, head), e);
    assert e.Descriptors() == head + Tail(e);
    FoldConcat(s, head, Tail(e));
    WellSizedConcat(head, Tail(e));
  }

  /** The endpoints `eps` of one more setting, behind those of the settings before. */
  lemma {:induction false} EndpointsFold(s: State, desc: seq<byte>, count: nat, old': seq<EndpointSource>,
                                         eps: seq<EndpointSource>, n: nat)
    requires n <= |eps| && |old'| + |eps| <= 16 && 0 <= s.ifno == |s.ifs| - 1
    requires (forall i :: 0 <= i < |eps| ==> eps[i].Valid()) && Current(s) == EntryOf(desc, count, old')
    ensures WellSized(EndpointDescriptors(eps[..n]))
    ensures var s' := Fold(s, EndpointDescriptors(eps[..n]));
            s' == WithCurrent(s, EntryOf(desc, count, old' + eps[..n]), s'.epno)
    decreases n
  {
    if n == 0 {
      assert old' + eps[..0] == old';
    } else {
      EndpointsFold(s, desc, count, old', eps, n - 1);
      var before, e := EndpointDescriptors(eps[..n - 1]), eps[n - 1];
      var seen := old' + eps[..n - 1];
      SameCurrent(s, EntryOf(desc, count, seen), Fold(s, before).epno);
      LastEndpoint(eps, n);
      EndpointFolds(Fold(s, before), e);
      FoldConcat(s, before, e.Descriptors());
      WellSizedConcat(before, e.Descriptors());
      EntryGrows(desc, count, seen, e);
      assert seen + [e] == old' + eps[..n];
    }
  }

  lemma SameCurrent(s: State, i: Interface, epno: int)
    requires s.ifs != []
    ensures var s1 := WithCurrent(s, i, epno);
            && Current(s1) == i && |s1.ifs| == |s.ifs| && s1.ifno == s.ifno
            && forall i', epno' :: WithCurrent(s1, i', epno') == WithCurrent(s, i', epno')
  {
  }

  lemma LastEndpoint(eps: seq<EndpointSource>, n: nat)
    requires 0 < n <= |eps|
    ensures EndpointDescriptors(eps[..n]) == EndpointDescriptors(eps[..n - 1]) + eps[n - 1].Descriptors()
  {
    assert eps[..n][..n - 1] == eps[..n - 1] && eps[..n][n - 1] == eps[n - 1];
  }

  lemma EntryGrows(desc: seq<byte>, count: nat, eps: seq<EndpointSource>, e: EndpointSource)
    ensures var a, b := EntryOf(desc, count, eps), EntryOf(desc, count, eps + [e]);
            && |a.eps| == |eps|
            && b == a.(eps := a.eps + [Short(e.desc)],
                       comps := if e.comp.Some? then a.comps[|eps| := e.comp.value] else a.comps)
  {
  }

  /** A further setting: it is counted, and its endpoints follow the others. */
  lemma {:induction false} SettingFolds(s: State, f: SettingSource, desc: seq<byte>, count: nat,
                                        old': seq<EndpointSource>)
    requires f.Valid() && |old'| + |f.eps| <= 16 && 0 <= s.ifno == |s.ifs| - 1 && s.currIfNum == f.desc[2] as int
    requires Current(s) == EntryOf(desc, count, old')
    ensures WellSized(f.Descriptors())
    ensures var s' := Fold(s, f.Descriptors());
            s' == WithCurrent(s, EntryOf(desc, count + 1, old' + f.eps), s'.epno)
  {
    var s1 := Handle(s, f.desc, |f.desc|);
    assert s1 == WithCurrent(s, EntryOf(desc, count + 1, old'), s.epno);
    SameCurrent(s, EntryOf(desc, count + 1, old'), s.epno);
    RestOfSetting(s, f, desc, count + 1, old');
  }

  /** What follows a setting's descriptor. */
  lemma {:induction false} RestOfSetting(s: State, f: SettingSource, desc: seq<byte>, count: nat,
                                         old': seq<EndpointSource>)
    requires f.Valid() && |old'| + |f.eps| <= 16
    requires var s1 := Handle(s, f.desc, |f.desc|);
             0 <= s1.ifno == |s1.ifs| - 1 && Current(s1) == EntryOf(desc, count, old')
    ensures WellSized(f.Descriptors())
    ensures var s1, s' := Handle(s, f.desc, |f.desc|), Fold(s, f.Descriptors());
            s' == WithCurrent(s1, EntryOf(desc, count, old' + f.eps), s'.epno)
  {
    FoldWithOthers(s, f.desc, f.after);
    EndpointsFold(Handle(s, f.desc, |f.desc|), desc, count, old', f.eps, |f.eps|);
    assert f.eps[..|f.eps|] == f.eps;
    FoldConcat(s, [f.desc] + f.after, EndpointDescriptors(f.eps));
  }

  /** The first setting opens a new entry. */
  lemma {:induction false} FirstSettingFolds(s: State, f: SettingSource)
    requires f.Valid() && |f.eps| <= 16 && |s.ifs| < 8 && s.currIfNum != f.desc[2] as int
    ensures WellSized(f.Descriptors())
    ensures var s' := Fold(s, f.Descriptors());
            s' == State(s.ifs + [EntryOf(f.desc, 1, f.eps)], |s.ifs|, s'.epno, f.desc[2], s.overran)
  {
    assert f.desc[..INTERFACE_SIZE] == f.desc;
    assert EntryOf(f.desc, 1, []) == Interface(f.desc, 1, [], map[]);
    RestOfSetting(s, f, f.desc, 1, []);
    assert [] + f.eps == f.eps;
  }

  lemma {:induction false} SettingsFold(s: State, f: InterfaceSource, n: nat)
    requires f.Valid() && 0 < n <= |f.settings| && |s.ifs| < 8 && s.currIfNum != f.Number() as int
    ensures WellSized(SettingDescriptors(f.settings[..n]))
    ensures var s' := Fold(s, SettingDescriptors(f.settings[..n]));
            var entry := EntryOf(f.First(), n, EndpointsOf(f.settings[..n]));
            s' == State(s.ifs + [entry], |s.ifs|, s'.epno, f.Number(), s.overran)
    decreases n
  {
    LastSetting(f.settings, n);
    MoreEndpoints(f.settings, n);
    var d := f.settings[n - 1];
    if n == 1 {
      FirstSettingFolds(s, d);
      assert f.settings[..0] == [] && [] + d.Descriptors() == d.Descriptors() && [] + d.eps == d.eps;
    } else {
      SettingsFold(s, f, n - 1);
      var before, eps := SettingDescriptors(f.settings[..n - 1]), EndpointsOf(f.settings[..n - 1]);
      SettingFolds(Fold(s, before), d, f.First(), n - 1, eps);
      FoldConcat(s, before, d.Descriptors());
      WellSizedConcat(before, d.Descriptors());
    }
  }

  lemma LastSetting(settings: seq<SettingSource>, n: nat)
    requires 0 < n <= |settings|
    ensures SettingDescriptors(settings[..n]) == SettingDescriptors(settings[..n - 1]) + settings[n - 1].Descriptors()
    ensures EndpointsOf(settings[..n]) == EndpointsOf(settings[..n - 1]) + settings[n - 1].eps
  {
    assert settings[..n][..n - 1] == settings[..n - 1] && settings[..n][n - 1] == settings[n - 1];
  }

  lemma {:induction false} MoreEndpoints(settings: seq<SettingSource>, n: nat)
    requires n <= |settings|
    ensures |EndpointsOf(settings[..n])| <= |EndpointsOf(settings)|
    decreases |settings| - n
  {
    if n == |settings| {
      assert settings[..n] == settings;
    } else {
      MoreEndpoints(settings, n + 1);
      LastSetting(settings, n + 1);
    }
  }

  lemma {:induction false} InterfaceFolds(s: State, f: InterfaceSource)
    requires f.Valid() && |s.ifs| < 8 && s.currIfNum != f.Number() as int
    ensures WellSized(f.Descriptors())
    ensures var s' := Fold(s, f.Descriptors());
            s' == State(s.ifs + [f.Entry()], |s.ifs|, s'.epno, f.Number(), s.overran)
  {
    SettingsFold(s, f, |f.settings|);
    assert f.settings[..|f.settings|] == f.settings;
  }

  function Entries(fs: seq<InterfaceSource>): seq<Interface> {
    seq(|fs|, i requires 0 <= i < |fs| => fs[i].Entry())
  }

  /** The state behind the first n interfaces. */
  ghost predicate Parsed(s: State, fs: seq<InterfaceSource>, n: nat)
    requires n <= |fs|
  {
    && s.ifs == Entries(fs[..n]) && !s.overran
    && s.currIfNum == if n == 0 then -1 else fs[n - 1].Number() as int
  }

  lemma {:induction false} OneMoreParsed(s: State, fs: seq<InterfaceSource>, n: nat)
    requires ValidConfiguration(fs) && 0 < n <= |fs| && Parsed(s, fs, n - 1)
    ensures WellSized(fs[n - 1].Descriptors()) && Parsed(Fold(s, fs[n - 1].Descriptors()), fs, n)
  {
    LastInterface(fs, n);
    assert n > 1 ==> fs[n - 2].Number() != fs[n - 2 + 1].Number();
    InterfaceFolds(s, fs[n - 1]);
  }

  lemma {:induction false} ConfigurationFolds(fs: seq<InterfaceSource>, n: nat)
    requires ValidConfiguration(fs) && n <= |fs|
    ensures WellSized(AllDescriptors(fs[..n])) && Parsed(Fold(START, AllDescriptors(fs[..n])), fs, n)
    decreases n
  {
    if n > 0 {
      var before := AllDescriptors(fs[..n - 1]);
      ConfigurationFolds(fs, n - 1);
      OneMoreParsed(Fold(START, before), fs, n);
      LastInterface(fs, n);
      FoldConcat(START, before, fs[n - 1].Descriptors());
      WellSizedConcat(before, fs[n - 1].Descriptors());
    }
  }

  lemma LastInterface(fs: seq<InterfaceSource>, n: nat)
    requires 0 < n <= |fs|
    ensures AllDescriptors(fs[..n]) == AllDescriptors(fs[..n - 1]) + fs[n - 1].Descriptors()
    ensures Entries(fs[..n]) == Entries(fs[..n - 1]) + [fs[n - 1].Entry()]
  {
    assert fs[..n][..n - 1] == fs[..n - 1] && fs[..n][n - 1] == fs[n - 1];
  }

  /** Main result: parsing undoes serialisation. Whatever bytes follow, the table holds exactly
      the interfaces of the configuration in order, each with the descriptor of its first
      setting, the number of its settings, and all endpoints and companions in order. */
  lemma {:induction false} ParseUndoesSerialisation(config: seq<byte>, lead: seq<seq<byte>>, fs: seq<InterfaceSource>,
                                                    trailing: seq<byte>)
    requires |config| >= DT_CONFIG_SIZE && config[0] as int == |config|
    requires AllOther(lead) && ValidConfiguration(fs)
    requires Le16(config, 2) == |config + Flat(lead + AllDescriptors(fs))|
    ensures var buffer := config + Flat(lead + AllDescriptors(fs)) + trailing;
            var s := Parse(START, buffer, buffer[0], Le16(buffer, 2));
            s.ifs == Entries(fs) && !s.overran
  {
    var ds := lead + AllDescriptors(fs);
    var buffer := config + Flat(ds) + trailing;
    OthersIgnored(START, lead);
    ConfigurationFolds(fs, |fs|);
    assert fs[..|fs|] == fs;
    FoldConcat(START, lead, AllDescriptors(fs));
    assert buffer[|config|..|config + Flat(ds)|] == Flat(ds);
    ParseIsFold(START, buffer, |config|, |config + Flat(ds)|, ds);
  }
}
