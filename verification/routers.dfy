/** The bookkeeping of the three DUT wrappers that stand between simulated
    masters and slaves and a device under test: the registration tables of
    masters and slaves with their bus names, the interfaces the wrappers
    hand out per bus name, the monitor views, and the handshake flags a
    wrapper reports to a monitor once per cycle.  One record holds the union
    of the three classes' fields; each class uses the part it has. */
module Routers {
  import opened TileLinkTypes
  import Monitor

  /** An object by identity: a participant the test hands in (`Given`), or
      an interface a wrapper creates (`Made`, numbered in creation order). */
  datatype Obj = Given(id: nat) | Made(serial: nat)

  /** Registered participants in order (`slaves` / `masters`) with the name
      each is bound to, in both directions (`slave_name` / `name_slave`). */
  datatype Table = Table(members: seq<Obj>, nameOf: map<Obj, string>, byName: map<string, Obj>)

  /** The two name maps are inverse to each other, and the members are
      listed once each and are exactly the named participants. */
  ghost predicate Consistent(t: Table)
  {
    (forall p :: p in t.nameOf ==> t.nameOf[p] in t.byName && t.byName[t.nameOf[p]] == p)
    && (forall n :: n in t.byName ==> t.byName[n] in t.nameOf && t.nameOf[t.byName[n]] == n)
    && (forall i, j :: 0 <= i < j < |t.members| ==> t.members[i] != t.members[j])
    && (forall p :: p in t.nameOf <==> p in t.members)
  }

  /** `register_slave` / `register_master`: the capacity test comes first,
      then a name already used in this table, then a name used by the other
      table (`others`, the bridge only), then a participant already bound
      to another name. */
  function Register(t: Table, max: int, p: Obj, name: string, others: set<string>): (r: Result<Table>)
    ensures |t.members| + 1 > max ==> r == Err(TooManyParticipants)
    ensures r.Ok? <==>
      |t.members| + 1 <= max && name !in t.byName && name !in others && (p in t.nameOf ==> t.nameOf[p] == name)
    ensures r.Err? && |t.members| + 1 <= max ==>
      r.error == (if name in t.byName then NameTaken else if name in others then NameClash else AlreadyRegistered)
    ensures r.Ok? ==>
      r.value.members == t.members + [p] && r.value.nameOf == t.nameOf[p := name]
      && r.value.byName == t.byName[name := p]
  {
    if |t.members| + 1 > max then Err(TooManyParticipants)
    else if name in t.byName then Err(NameTaken)
    else if name in others then Err(NameClash)
    else if p in t.nameOf && t.nameOf[p] != name then Err(AlreadyRegistered)
    else Ok(Table(t.members + [p], t.nameOf[p := name], t.byName[name := p]))
  }

  /** A table within capacity `max`: empty, or at most `max` members. */
  predicate Within(t: Table, max: int)
  {
    t.members == [] || |t.members| <= max
  }

  /** A registration keeps a table consistent and within its capacity, and
      a participant already registered is refused whatever the name: each
      participant is registered at most once. */
  lemma RegisterKeeps(t: Table, max: int, p: Obj, name: string, others: set<string>)
    ensures Consistent(t) && Register(t, max, p, name, others).Ok? ==>
      Consistent(Register(t, max, p, name, others).value) && Within(Register(t, max, p, name, others).value, max)
    ensures Consistent(t) && p in t.nameOf ==> Register(t, max, p, name, others).Err?
  {
    if Consistent(t) && Register(t, max, p, name, others).Ok? {
      var t2 := Register(t, max, p, name, others).value;
      assert p !in t.nameOf;
      forall i, j | 0 <= i < j < |t2.members|
        ensures t2.members[i] != t2.members[j]
      {
        if j == |t.members| {
          assert t.members[i] in t.nameOf;
        }
      }
    }
  }

  /** The state of a wrapper.  `namedBus` are the bus names handed out,
      `namedMaster` / `namedSlave` the interfaces handed out per name,
      `monitorable` the monitor view per master interface, `made` the
      number of objects created so far. */
  datatype Router = Router(
    maxMasters: int, maxSlaves: int,
    masters: Table, slaves: Table,
    namedBus: set<string>,
    namedMaster: map<string, Obj>, namedSlave: map<string, Obj>,
    monitorable: map<Obj, Obj>,
    made: nat)

  /** A wrapper as constructed. */
  function NewRouter(maxMasters: int, maxSlaves: int): (r: Router)
    ensures Inv(r) && Separate(r)
    ensures r.masters.members == [] && r.slaves.members == [] && r.namedBus == {}
  {
    Router(maxMasters, maxSlaves, Table([], map[], map[]), Table([], map[], map[]), {}, map[], map[], map[], 0)
  }

  /** Every interface the wrapper made was made once. */
  ghost predicate Created(r: Router, o: Obj)
  {
    o.Made? && o.serial < r.made
  }

  /** The tables are consistent and within capacity, every handed-out name
      is a taken bus name, no name hands out both kinds of interface, and
      the handed-out master interfaces are distinct objects the wrapper
      made. */
  ghost predicate Inv(r: Router)
  {
    Consistent(r.masters) && Consistent(r.slaves)
    && Within(r.masters, r.maxMasters) && Within(r.slaves, r.maxSlaves)
    && r.namedMaster.Keys <= r.namedBus && r.namedSlave.Keys <= r.namedBus
    && r.namedMaster.Keys !! r.namedSlave.Keys
    && (forall n :: n in r.namedMaster ==> Created(r, r.namedMaster[n]))
    && (forall n :: n in r.namedSlave ==> Created(r, r.namedSlave[n]))
    && (forall m :: m in r.monitorable ==> Created(r, r.monitorable[m]))
    && (forall n1, n2 :: n1 in r.namedMaster && n2 in r.namedMaster && n1 != n2 ==>
          r.namedMaster[n1] != r.namedMaster[n2])
  }

  /** The bridge's rule: no bus name binds both a slave and a master. */
  ghost predicate Separate(r: Router)
  {
    r.masters.byName.Keys !! r.slaves.byName.Keys
  }

  // ----------------------------------------------------------------------
  // Registration

  /** `DutMultiMasterMultiSlaveBridgeUL.register_slave`. */
  function BridgeRegisterSlave(r: Router, p: Obj, name: string): (r2: Result<Router>)
    ensures r2.Ok? <==> Register(r.slaves, r.maxSlaves, p, name, r.masters.byName.Keys).Ok?
    ensures r2.Err? ==> r2 == Err(Register(r.slaves, r.maxSlaves, p, name, r.masters.byName.Keys).error)
    ensures r2.Ok? ==> r2.value == r.(slaves := r2.value.slaves)
    ensures Inv(r) && Separate(r) && r2.Ok? ==> Inv(r2.value) && Separate(r2.value)
  {
    var t := Register(r.slaves, r.maxSlaves, p, name, r.masters.byName.Keys);
    if t.Ok? then
      RegisterKeeps(r.slaves, r.maxSlaves, p, name, r.masters.byName.Keys);
      Ok(r.(slaves := t.value))
    else Err(t.error)
  }

  /** `DutMultiMasterMultiSlaveBridgeUL.register_master`. */
  function BridgeRegisterMaster(r: Router, p: Obj, name: string): (r2: Result<Router>)
    ensures r2.Ok? <==> Register(r.masters, r.maxMasters, p, name, r.slaves.byName.Keys).Ok?
    ensures r2.Err? ==> r2 == Err(Register(r.masters, r.maxMasters, p, name, r.slaves.byName.Keys).error)
    ensures r2.Ok? ==> r2.value == r.(masters := r2.value.masters)
    ensures Inv(r) && Separate(r) && r2.Ok? ==> Inv(r2.value) && Separate(r2.value)
  {
    var t := Register(r.masters, r.maxMasters, p, name, r.slaves.byName.Keys);
    if t.Ok? then
      RegisterKeeps(r.masters, r.maxMasters, p, name, r.slaves.byName.Keys);
      Ok(r.(masters := t.value))
    else Err(t.error)
  }

  /** `DutMasterMultiSlaveUL.register_slave`: no master table to clash
      with. */
  function RegisterSlave(r: Router, p: Obj, name: string): (r2: Result<Router>)
    ensures r2.Ok? <==> Register(r.slaves, r.maxSlaves, p, name, {}).Ok?
    ensures r2.Ok? ==> r2.value == r.(slaves := r2.value.slaves)
    ensures Inv(r) && r2.Ok? ==> Inv(r2.value)
  {
    var t := Register(r.slaves, r.maxSlaves, p, name, {});
    if t.Ok? then
      RegisterKeeps(r.slaves, r.maxSlaves, p, name, {});
      Ok(r.(slaves := t.value))
    else Err(t.error)
  }

  /** `DutMultiMasterSlaveUL.register_master`: no slave table to clash
      with. */
  function RegisterMaster(r: Router, p: Obj, name: string): (r2: Result<Router>)
    ensures r2.Ok? <==> Register(r.masters, r.maxMasters, p, name, {}).Ok?
    ensures r2.Ok? ==> r2.value == r.(masters := r2.value.masters)
    ensures Inv(r) && r2.Ok? ==> Inv(r2.value)
  {
    var t := Register(r.masters, r.maxMasters, p, name, {});
    if t.Ok? then
      RegisterKeeps(r.masters, r.maxMasters, p, name, {});
      Ok(r.(masters := t.value))
    else Err(t.error)
  }

  /** In the bridge a participant registered on either side cannot be
      registered again on that side, and a name bound on one side is
      refused on the other. */
  lemma BridgeRegisterOnce(r: Router, p: Obj, q: Obj, name: string)
    requires Inv(r) && Separate(r)
    ensures p in r.slaves.nameOf ==> BridgeRegisterSlave(r, p, name).Err?
    ensures p in r.masters.nameOf ==> BridgeRegisterMaster(r, p, name).Err?
    ensures name in r.masters.byName ==> BridgeRegisterSlave(r, q, name).Err?
    ensures name in r.slaves.byName ==> BridgeRegisterMaster(r, q, name).Err?
  {
    RegisterKeeps(r.slaves, r.maxSlaves, p, name, r.masters.byName.Keys);
    RegisterKeeps(r.masters, r.maxMasters, p, name, r.slaves.byName.Keys);
  }

  // ----------------------------------------------------------------------
  // Handing out interfaces

  /** `get_master_interface`: the interface already handed out under the
      name, or else a new one on a bus name not taken yet. */
  function GetMasterInterface(r: Router, name: string): (res: Result<(Router, Obj)>)
    ensures name in r.namedMaster ==> res == Ok((r, r.namedMaster[name]))
    ensures name !in r.namedMaster ==> (res.Ok? <==> name !in r.namedBus)
    ensures res.Err? ==> res.error == BusTaken
    ensures name !in r.namedMaster && res.Ok? ==>
      var (r2, h) := res.value;
      !Created(r, h) && Created(r2, h) && r2.namedMaster == r.namedMaster[name := h]
      && r2.namedBus == r.namedBus + {name} && r2.(namedMaster := r.namedMaster, namedBus := r.namedBus, made := r.made) == r
    ensures Inv(r) && res.Ok? ==> Inv(res.value.0) && (Separate(r) ==> Separate(res.value.0))
  {
    if name in r.namedMaster then Ok((r, r.namedMaster[name]))
    else if name in r.namedBus then Err(BusTaken)
    else
      var h := Made(r.made);
      Ok((r.(namedBus := r.namedBus + {name}, namedMaster := r.namedMaster[name := h], made := r.made + 1), h))
  }

  /** `get_slave_interface`: always a new interface, on a bus name not taken
      yet. */
  function GetSlaveInterface(r: Router, name: string): (res: Result<(Router, Obj)>)
    ensures res.Ok? <==> name !in r.namedBus
    ensures res.Err? ==> res.error == BusTaken
    ensures res.Ok? ==>
      var (r2, h) := res.value;
      !Created(r, h) && Created(r2, h) && r2.namedSlave == r.namedSlave[name := h]
      && r2.namedBus == r.namedBus + {name} && r2.(namedSlave := r.namedSlave, namedBus := r.namedBus, made := r.made) == r
    ensures Inv(r) && res.Ok? ==> Inv(res.value.0) && (Separate(r) ==> Separate(res.value.0))
  {
    if name in r.namedBus then Err(BusTaken)
    else
      var h := Made(r.made);
      Ok((r.(namedBus := r.namedBus + {name}, namedSlave := r.namedSlave[name := h], made := r.made + 1), h))
  }

  /** `get_monitorable_interface`: the monitor view of a master interface,
      made on first request. */
  function GetMonitorable(r: Router, master: Obj): (res: (Router, Obj))
    ensures master in r.monitorable ==> res == (r, r.monitorable[master])
    ensures master !in r.monitorable ==>
      !Created(r, res.1) && res.0.monitorable == r.monitorable[master := res.1]
      && res.0.(monitorable := r.monitorable, made := r.made) == r
    ensures Inv(r) ==> Inv(res.0) && (Separate(r) ==> Separate(res.0))
  {
    if master in r.monitorable then (r, r.monitorable[master])
    else
      var h := Made(r.made);
      (r.(monitorable := r.monitorable[master := h], made := r.made + 1), h)
  }

  /** Asking twice for the master interface of a name gives the same
      object and changes nothing the second time. */
  lemma MasterInterfaceIdempotent(r: Router, name: string)
    requires GetMasterInterface(r, name).Ok?
    ensures var (r1, h) := GetMasterInterface(r, name).value;
      GetMasterInterface(r1, name) == Ok((r1, h))
  {
  }

  /** A slave interface name can be handed out only once. */
  lemma SlaveInterfaceOnce(r: Router, name: string)
    requires GetSlaveInterface(r, name).Ok?
    ensures GetSlaveInterface(GetSlaveInterface(r, name).value.0, name) == Err(BusTaken)
  {
  }

  /** Asking twice for a master's monitor view gives the same object and
      changes nothing the second time. */
  lemma MonitorableIdempotent(r: Router, master: Obj)
    ensures var (r1, h) := GetMonitorable(r, master);
      GetMonitorable(r1, master) == (r1, h)
  {
  }

  // ----------------------------------------------------------------------
  // The handshake flags reported to monitors

  /** What a cycle samples on a handed-out master bus. */
  datatype BusSample = BusSample(aPacket: APacket, aValid: bool, dReady: bool)

  /** What a registered slave drives in a cycle. */
  datatype SlaveSample = SlaveSample(dPacket: DPacket, dValid: bool, aReady: bool)

  /** One of the `for` loops of `process` that write into the monitor views:
      for each `(master interface, sample)` in order, the view of that
      interface, if it has one, is updated by `f`. */
  function Fold<X>(st: map<Obj, Monitor.Status>, items: seq<(Obj, X)>, f: (Monitor.Status, X) -> Monitor.Status)
    : (r: map<Obj, Monitor.Status>)
    decreases |items|
  {
    if items == [] then st
    else
      var n := |items| - 1;
      var st1 := Fold(st, items[..n], f);
      var h := items[n].0;
      if h in st1 then st1[h := f(st1[h], items[n].1)] else st1
  }

  /** When the loop visits each interface at most once, each view is
      updated by the sample of its interface, or left alone. */
  lemma {:induction false} FoldPointwise<X>(st: map<Obj, Monitor.Status>, items: seq<(Obj, X)>,
                                           f: (Monitor.Status, X) -> Monitor.Status)
    requires forall i, j :: 0 <= i < j < |items| ==> items[i].0 != items[j].0
    ensures Fold(st, items, f).Keys == st.Keys
    ensures forall i :: 0 <= i < |items| && items[i].0 in st ==>
      Fold(st, items, f)[items[i].0] == f(st[items[i].0], items[i].1)
    ensures forall h :: h in st && (forall i :: 0 <= i < |items| ==> items[i].0 != h) ==>
      Fold(st, items, f)[h] == st[h]
    decreases |items|
  {
    if items != [] {
      var n := |items| - 1;
      FoldPointwise(st, items[..n], f);
      forall i | 0 <= i < n
        ensures items[..n][i] == items[i]
      {
      }
    }
  }

  /** `FoldPointwise` at one visited interface. */
  lemma FoldAt<X>(st: map<Obj, Monitor.Status>, items: seq<(Obj, X)>, f: (Monitor.Status, X) -> Monitor.Status, i: nat)
    requires forall i, j :: 0 <= i < j < |items| ==> items[i].0 != items[j].0
    requires i < |items| && items[i].0 in st
    ensures items[i].0 in Fold(st, items, f) && Fold(st, items, f)[items[i].0] == f(st[items[i].0], items[i].1)
  {
    FoldPointwise(st, items, f);
  }

  /** `FoldPointwise` at an interface the loop does not visit. */
  lemma FoldMiss<X>(st: map<Obj, Monitor.Status>, items: seq<(Obj, X)>, f: (Monitor.Status, X) -> Monitor.Status, h: Obj)
    requires forall i, j :: 0 <= i < j < |items| ==> items[i].0 != items[j].0
    requires h in st && forall i :: 0 <= i < |items| ==> items[i].0 != h
    ensures h in Fold(st, items, f) && Fold(st, items, f)[h] == st[h]
  {
    FoldPointwise(st, items, f);
  }

  /** The master interfaces handed out, in the order `names` lists them,
      with their bus samples. */
  function MasterItems(r: Router, names: seq<string>, buses: map<string, BusSample>): (items: seq<(Obj, BusSample)>)
    requires forall k :: 0 <= k < |names| ==> names[k] in r.namedMaster && names[k] in buses
    ensures |items| == |names|
    ensures forall k :: 0 <= k < |names| ==> items[k] == (r.namedMaster[names[k]], buses[names[k]])
  {
    seq(|names|, k requires 0 <= k < |names| => (r.namedMaster[names[k]], buses[names[k]]))
  }

  /** The registered slaves in order, each with the master interface of its
      bus name and its outputs. */
  function SlaveItems(r: Router, outs: map<Obj, SlaveSample>): (items: seq<(Obj, SlaveSample)>)
    requires forall k :: 0 <= k < |r.slaves.members| ==>
      r.slaves.members[k] in outs && r.slaves.members[k] in r.slaves.nameOf
      && r.slaves.nameOf[r.slaves.members[k]] in r.namedMaster
    ensures |items| == |r.slaves.members|
    ensures forall k :: 0 <= k < |items| ==>
      var s := r.slaves.members[k];
      items[k] == (r.namedMaster[r.slaves.nameOf[s]], outs[s])
  {
    var ms := r.slaves.members;
    seq(|ms|, k requires 0 <= k < |ms| => (r.namedMaster[r.slaves.nameOf[ms[k]]], outs[ms[k]]))
  }

  /** Every registered slave's bus name has a master interface (otherwise
      the lookup `named_master[slave_name[slave]]` fails). */
  predicate Bound(r: Router)
  {
    forall k :: 0 <= k < |r.slaves.members| ==>
      r.slaves.members[k] in r.slaves.nameOf && r.slaves.nameOf[r.slaves.members[k]] in r.namedMaster
  }

  /** The first pass: the request and `a_valid` of the master bus. */
  function SeeA(s: Monitor.Status, b: BusSample): Monitor.Status
  {
    s.(aPacket := Some(b.aPacket), aHandshake := b.aValid)
  }

  /** The second pass: the slave's response and `d_valid`. */
  function SeeD(s: Monitor.Status, o: SlaveSample): Monitor.Status
  {
    s.(dPacket := o.dPacket, dHandshake := o.dValid)
  }

  /** The third pass: `d_handshake &= d_ready` of the master bus. */
  function SeeDReady(s: Monitor.Status, b: BusSample): Monitor.Status
  {
    s.(dHandshake := s.dHandshake && b.dReady)
  }

  /** The fourth pass: `a_handshake &= a_ready` of the slave. */
  function SeeAReady(s: Monitor.Status, o: SlaveSample): Monitor.Status
  {
    s.(aHandshake := s.aHandshake && o.aReady)
  }

  /** The monitor-view updates of one iteration of `process`
      (`DutMasterMultiSlaveUL` and the bridge alike), in the source's four
      passes over the handed-out master interfaces and the registered
      slaves.  `names` is the iteration order of the master interfaces. */
  function MonitorCycle(r: Router, st: map<Obj, Monitor.Status>, names: seq<string>,
                        buses: map<string, BusSample>, outs: map<Obj, SlaveSample>)
    : (res: Result<map<Obj, Monitor.Status>>)
    requires forall k :: 0 <= k < |names| ==> names[k] in r.namedMaster && names[k] in buses
    requires forall k :: 0 <= k < |r.slaves.members| ==> r.slaves.members[k] in outs
    ensures res.Ok? <==> Bound(r)
    ensures res.Err? ==> res.error == UnknownBus
  {
    if !Bound(r) then Err(UnknownBus)
    else
      var ms, ss := MasterItems(r, names, buses), SlaveItems(r, outs);
      Ok(Fold(Fold(Fold(Fold(st, ms, SeeA), ss, SeeD), ms, SeeDReady), ss, SeeAReady))
  }

  /** `names` lists every handed-out master interface once. */
  predicate Enumerates(r: Router, names: seq<string>)
  {
    (forall i, j :: 0 <= i < j < |names| ==> names[i] != names[j])
    && (forall k :: 0 <= k < |names| ==> names[k] in r.namedMaster)
    && (forall n :: n in r.namedMaster ==> n in names)
  }

  /** What the monitor of a master interface sees after a cycle, whatever
      the loop order: when a slave is registered under the interface's bus
      name, `a_handshake` is `a_valid && a_ready` and `d_handshake` is
      `d_valid && d_ready`.  Without one, `a_handshake` is `a_valid` alone
      and the previous response stays, masked by `d_ready`. */
  lemma MonitorCycleFlags(r: Router, st: map<Obj, Monitor.Status>, names: seq<string>,
                          buses: map<string, BusSample>, outs: map<Obj, SlaveSample>, n: string)
    requires Inv(r) && Bound(r) && Enumerates(r, names)
    requires forall k :: 0 <= k < |names| ==> names[k] in buses
    requires forall k :: 0 <= k < |r.slaves.members| ==> r.slaves.members[k] in outs
    requires n in r.namedMaster && r.namedMaster[n] in st
    ensures var h := r.namedMaster[n];
      var res := MonitorCycle(r, st, names, buses, outs).value;
      h in res && n in buses && res[h].aPacket == Some(buses[n].aPacket)
      && (n in r.slaves.byName ==>
            r.slaves.byName[n] in outs
            && var b, o := buses[n], outs[r.slaves.byName[n]];
            res[h].aHandshake == (b.aValid && o.aReady) && res[h].dHandshake == (o.dValid && b.dReady)
            && res[h].dPacket == o.dPacket)
      && (n !in r.slaves.byName ==>
            res[h].aHandshake == buses[n].aValid && res[h].dHandshake == (st[h].dHandshake && buses[n].dReady)
            && res[h].dPacket == st[h].dPacket)
  {
    var h := r.namedMaster[n];
    var ms, ss := MasterItems(r, names, buses), SlaveItems(r, outs);
    ItemsDistinct(r, names, buses, outs);
    var st1 := Fold(st, ms, SeeA);
    var st2 := Fold(st1, ss, SeeD);
    var st3 := Fold(st2, ms, SeeDReady);
    var st4 := Fold(st3, ss, SeeAReady);
    assert MonitorCycle(r, st, names, buses, outs) == Ok(st4);
    var i :| 0 <= i < |names| && names[i] == n;
    assert ms[i] == (h, buses[n]);
    FoldAt(st, ms, SeeA, i);
    if n in r.slaves.byName {
      var s := r.slaves.byName[n];
      var j :| 0 <= j < |r.slaves.members| && r.slaves.members[j] == s;
      assert ss[j] == (h, outs[s]);
      FoldAt(st1, ss, SeeD, j);
      FoldAt(st2, ms, SeeDReady, i);
      FoldAt(st3, ss, SeeAReady, j);
    } else {
      forall j | 0 <= j < |ss|
        ensures ss[j].0 != h
      {
        var s := r.slaves.members[j];
        assert r.slaves.nameOf[s] in r.slaves.byName;
      }
      FoldMiss(st1, ss, SeeD, h);
      FoldAt(st2, ms, SeeDReady, i);
      FoldMiss(st3, ss, SeeAReady, h);
    }
  }

  /** A monitor view of no handed-out master interface is left alone. */
  lemma MonitorCycleOthers(r: Router, st: map<Obj, Monitor.Status>, names: seq<string>,
                           buses: map<string, BusSample>, outs: map<Obj, SlaveSample>, h: Obj)
    requires Inv(r) && Bound(r) && Enumerates(r, names)
    requires forall k :: 0 <= k < |names| ==> names[k] in buses
    requires forall k :: 0 <= k < |r.slaves.members| ==> r.slaves.members[k] in outs
    requires h in st && forall n :: n in r.namedMaster ==> r.namedMaster[n] != h
    ensures MonitorCycle(r, st, names, buses, outs).value.Keys == st.Keys
    ensures MonitorCycle(r, st, names, buses, outs).value[h] == st[h]
  {
    var ms, ss := MasterItems(r, names, buses), SlaveItems(r, outs);
    ItemsDistinct(r, names, buses, outs);
    var st1 := Fold(st, ms, SeeA);
    var st2 := Fold(st1, ss, SeeD);
    var st3 := Fold(st2, ms, SeeDReady);
    assert MonitorCycle(r, st, names, buses, outs) == Ok(Fold(st3, ss, SeeAReady));
    forall i | 0 <= i < |ms|
      ensures ms[i].0 != h
    {
      assert ms[i].0 == r.namedMaster[names[i]];
    }
    forall j | 0 <= j < |ss|
      ensures ss[j].0 != h
    {
      assert ss[j].0 == r.namedMaster[r.slaves.nameOf[r.slaves.members[j]]];
    }
    FoldMiss(st, ms, SeeA, h);
    FoldMiss(st1, ss, SeeD, h);
    FoldMiss(st2, ms, SeeDReady, h);
    FoldMiss(st3, ss, SeeAReady, h);
    FoldKeys(st, ms, SeeA);
    FoldKeys(st1, ss, SeeD);
    FoldKeys(st2, ms, SeeDReady);
    FoldKeys(st3, ss, SeeAReady);
  }

  lemma FoldKeys<X>(st: map<Obj, Monitor.Status>, items: seq<(Obj, X)>, f: (Monitor.Status, X) -> Monitor.Status)
    requires forall i, j :: 0 <= i < j < |items| ==> items[i].0 != items[j].0
    ensures Fold(st, items, f).Keys == st.Keys
  {
    FoldPointwise(st, items, f);
  }

  /** Each pass visits a master interface at most once. */
  lemma ItemsDistinct(r: Router, names: seq<string>, buses: map<string, BusSample>, outs: map<Obj, SlaveSample>)
    requires Inv(r) && Bound(r) && Enumerates(r, names)
    requires forall k :: 0 <= k < |names| ==> names[k] in buses
    requires forall k :: 0 <= k < |r.slaves.members| ==> r.slaves.members[k] in outs
    ensures var ms := MasterItems(r, names, buses);
      forall i, j :: 0 <= i < j < |ms| ==> ms[i].0 != ms[j].0
    ensures var ss := SlaveItems(r, outs);
      forall i, j :: 0 <= i < j < |ss| ==> ss[i].0 != ss[j].0
  {
    var ss := SlaveItems(r, outs);
    forall i, j | 0 <= i < j < |ss|
      ensures ss[i].0 != ss[j].0
    {
      var a, b := r.slaves.members[i], r.slaves.members[j];
      assert r.slaves.byName[r.slaves.nameOf[a]] == a;
    }
  }
}
