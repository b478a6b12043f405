/** The transaction monitor: the records it keeps, the status a monitored
    device reports once per sample, and one iteration of the monitor's
    `process` loop as a step over its table of open records, keyed by the
    request's source.  A completed record is emitted (the source logs it). */
module Monitor {
  import opened TileLinkTypes

  /** `Packet`: how many samples the transaction has been open, and the
      request and response fields once recorded (an empty field dictionary
      is `None`). */
  datatype Packet = Packet(age: nat, cmd: Option<APacket>, rsp: Option<DPacket>)

  /** `Packet()`. */
  function NewPacket(): (p: Packet)
    ensures p.age == 0 && p.cmd.None? && p.rsp.None?
  {
    Packet(0, None, None)
  }

  /** `age`: one more sample. */
  function Age(p: Packet): (r: Packet)
    ensures r.age == p.age + 1 && r.cmd == p.cmd && r.rsp == p.rsp
  {
    p.(age := p.age + 1)
  }

  /** `add_cmd`: the seven A fields are recorded as they are. */
  function AddCmd(p: Packet, a: APacket): (r: Packet)
    ensures r.cmd.Some? && r.age == p.age && r.rsp == p.rsp
    ensures var c := r.cmd.value;
      c.opcode == a.opcode && c.param == a.param && c.size == a.size && c.source == a.source
      && c.address == a.address && c.mask == a.mask && c.data == a.data
  {
    p.(cmd := Some(a))
  }

  /** `add_rsp`: the seven D fields are recorded as they are. */
  function AddRsp(p: Packet, d: DPacket): (r: Packet)
    ensures r.rsp.Some? && r.age == p.age && r.cmd == p.cmd
    ensures var c := r.rsp.value;
      c.opcode == d.opcode && c.param == d.param && c.size == d.size && c.source == d.source
      && c.sink == d.sink && c.error == d.error && c.data == d.data
  {
    p.(rsp := Some(d))
  }

  /** `TLMonitor`: what a monitored device reports for one sample.  The
      request slot is optional in the source. */
  datatype Status = Status(aPacket: Option<APacket>, aHandshake: bool, dPacket: DPacket, dHandshake: bool)

  /** `TLMonitor()`. */
  function DefaultStatus(): (s: Status)
    ensures !s.aHandshake && !s.dHandshake
    ensures s.aPacket == Some(DefaultA()) && s.dPacket == DefaultD()
  {
    Status(Some(DefaultA()), false, DefaultD(), false)
  }

  /** `waiting_for_resp`. */
  type Table = map<nat, Packet>

  /** The open records: each holds its request, filed under the request's
      source, and has no response yet. */
  predicate Open(w: Table)
  {
    forall s :: s in w ==> w[s].cmd.Some? && w[s].cmd.value.source == s && w[s].rsp.None?
  }

  /** An emitted record pairs a request with a response for the same
      source. */
  predicate Paired(p: Packet)
  {
    p.cmd.Some? && p.rsp.Some? && p.rsp.value.source == p.cmd.value.source
  }

  /** The sample carries an A handshake with its packet. */
  predicate Request(st: Status)
  {
    st.aHandshake && st.aPacket.Some?
  }

  /** The sample carries an A handshake and a D handshake of the same
      source. */
  predicate SameSource(st: Status)
  {
    Request(st) && st.dHandshake && st.dPacket.source == st.aPacket.value.source
  }

  /** When a sample is accepted, stated from the handshakes alone: a request
      needs its packet and a free source, unless the same sample answers the
      old transaction; a response needs an open record, which may be the one
      this sample opens. */
  predicate Accepts(w: Table, st: Status)
  {
    (st.aHandshake ==> st.aPacket.Some?)
    && (Request(st) && st.aPacket.value.source in w ==> SameSource(st))
    && (st.dHandshake && !(Request(st) && st.aPacket.value.source in w) ==>
          st.dPacket.source in w || SameSource(st))
  }

  /** Every open record one sample older. */
  function AgeAll(w: Table): (r: Table)
    ensures r.Keys == w.Keys
    ensures forall s :: s in r ==> r[s] == Age(w[s])
    ensures Open(w) ==> Open(r)
  {
    map s | s in w :: Age(w[s])
  }

  /** The A handshake of a sample: a source with an open record may only
      be reused when the same sample answers it, in which case the old
      record is completed and emitted and the D handshake is used up.  The
      result's flag says whether the D handshake is still to be handled. */
  function TakeA(w: Table, st: Status): (r: Result<(Table, seq<Packet>, bool)>)
    ensures st.aHandshake && st.aPacket.None? ==> r == Err(MissingPacket)
    ensures Request(st) && st.aPacket.value.source in w && !SameSource(st) ==> r == Err(SourceReused)
    ensures r.Ok? <==> (st.aHandshake ==> st.aPacket.Some?) && (Request(st) && st.aPacket.value.source in w ==> SameSource(st))
    ensures r.Ok? && !st.aHandshake ==> r.value == (w, [], st.dHandshake)
    ensures r.Ok? && Request(st) ==>
      var a := st.aPacket.value;
      r.value.0 == w[a.source := AddCmd(NewPacket(), a)]
      && (a.source in w ==> r.value.1 == [AddRsp(w[a.source], st.dPacket)] && !r.value.2)
      && (a.source !in w ==> r.value.1 == [] && r.value.2 == st.dHandshake)
  {
    if !st.aHandshake then Ok((w, [], st.dHandshake))
    else if st.aPacket.None? then Err(MissingPacket)
    else
      var a := st.aPacket.value;
      if a.source in w && !(st.dHandshake && st.dPacket.source == a.source) then Err(SourceReused)
      else if a.source in w then
        var done := AddRsp(w[a.source], st.dPacket);
        Ok(((w - {a.source})[a.source := AddCmd(NewPacket(), a)], [done], false))
      else Ok((w[a.source := AddCmd(NewPacket(), a)], [], st.dHandshake))
  }

  /** The D handshake of a sample, when still pending: the record of its
      source is removed, completed and emitted. */
  function TakeD(w: Table, d: DPacket, pending: bool): (r: Result<(Table, seq<Packet>)>)
    ensures !pending ==> r == Ok((w, []))
    ensures pending ==> (r.Ok? <==> d.source in w)
    ensures r.Err? ==> r.error == ResponseWithoutRequest
    ensures pending && r.Ok? ==>
      r.value.0 == w - {d.source} && r.value.1 == [AddRsp(w[d.source], d)]
  {
    if !pending then Ok((w, []))
    else if d.source !in w then Err(ResponseWithoutRequest)
    else Ok((w - {d.source}, [AddRsp(w[d.source], d)]))
  }

  /** The correlation part of a sample outside reset: the A handshake, then
      the D handshake. */
  function Sample(w: Table, st: Status): (r: Result<(Table, seq<Packet>)>)
    ensures r.Ok? <==> Accepts(w, st)
    ensures st.aHandshake && st.aPacket.None? ==> r == Err(MissingPacket)
    ensures Request(st) && st.aPacket.value.source in w && !SameSource(st) ==> r == Err(SourceReused)
    ensures !st.aHandshake && st.dHandshake && st.dPacket.source !in w ==> r == Err(ResponseWithoutRequest)
  {
    match TakeA(w, st)
    case Err(e) => Err(e)
    case Ok((w1, done, pending)) =>
      match TakeD(w1, st.dPacket, pending)
      case Err(e) => Err(e)
      case Ok((w2, done2)) => Ok((w2, done + done2))
  }

  /** One iteration of `process`: outside reset the handshakes are
      correlated, then every open record ages by one sample.  Under reset
      only the ageing happens. */
  function Step(w: Table, st: Status, reset: bool): (r: Result<(Table, seq<Packet>)>)
    ensures reset ==> r == Ok((AgeAll(w), []))
    ensures !reset ==> (r.Ok? <==> Accepts(w, st))
    ensures !reset && r.Ok? ==>
      forall s :: s in r.value.0 ==>
        if Request(st) && s == st.aPacket.value.source then r.value.0[s] == Age(AddCmd(NewPacket(), st.aPacket.value))
        else s in w && r.value.0[s] == Age(w[s])
    ensures !reset && SameSource(st) && st.aPacket.value.source in w ==>
      var s := st.aPacket.value.source;
      r == Ok((AgeAll(w[s := AddCmd(NewPacket(), st.aPacket.value)]), [AddRsp(w[s], st.dPacket)]))
  {
    if reset then Ok((AgeAll(w), []))
    else
      match Sample(w, st)
      case Err(e) => Err(e)
      case Ok((w2, done)) =>
        assert SameSource(st) && st.aPacket.value.source in w ==>
          TakeA(w, st).value.1 + [] == TakeA(w, st).value.1;
        Ok((AgeAll(w2), done))
  }

  // ----------------------------------------------------------------------
  // Properties of a sample

  /** The open records stay well filed and every emitted record pairs a
      request with its response. */
  lemma SampleKeepsOpen(w: Table, st: Status)
    requires Open(w) && Sample(w, st).Ok?
    ensures Open(Sample(w, st).value.0)
    ensures forall k :: 0 <= k < |Sample(w, st).value.1| ==> Paired(Sample(w, st).value.1[k])
  {
    var r1 := TakeA(w, st).value;
    assert Open(r1.0);
  }

  /** No transaction is lost or duplicated: the records open after a
      sample and the records it emits are the records open before plus the
      one a request opens. */
  lemma SampleCounts(w: Table, st: Status)
    requires Sample(w, st).Ok?
    ensures |Sample(w, st).value.0| + |Sample(w, st).value.1| == |w| + (if st.aHandshake then 1 else 0)
  {
    var r1 := TakeA(w, st).value;
    TakeACounts(w, st);
    TakeDCounts(r1.0, st.dPacket, r1.2);
  }

  lemma TakeACounts(w: Table, st: Status)
    requires TakeA(w, st).Ok?
    ensures |TakeA(w, st).value.0| + |TakeA(w, st).value.1| == |w| + (if st.aHandshake then 1 else 0)
  {
    if Request(st) {
      var s := st.aPacket.value.source;
      if s in w {
        assert TakeA(w, st).value.0.Keys == w.Keys;
      } else {
        assert TakeA(w, st).value.0.Keys == w.Keys + {s};
      }
    }
  }

  lemma TakeDCounts(w: Table, d: DPacket, pending: bool)
    requires TakeD(w, d, pending).Ok?
    ensures |TakeD(w, d, pending).value.0| + |TakeD(w, d, pending).value.1| == |w|
  {
    if pending {
      assert TakeD(w, d, pending).value.0.Keys == w.Keys - {d.source};
    }
  }

  /** A request answered in the very sample that carries it opens and
      closes its record at once: nothing stays open for its source, and the
      emitted record has age 0. */
  lemma SameSampleResponse(w: Table, st: Status)
    requires SameSource(st) && st.aPacket.value.source !in w
    ensures Step(w, st, false) == Ok((AgeAll(w), [AddRsp(AddCmd(NewPacket(), st.aPacket.value), st.dPacket)]))
      && Step(w, st, false).value.1[0].age == 0
  {
    var s, p := st.aPacket.value.source, AddCmd(NewPacket(), st.aPacket.value);
    assert TakeA(w, st) == Ok((w[s := p], [], true));
    assert w[s := p] - {s} == w;
    assert TakeD(w[s := p], st.dPacket, true) == Ok((w, [AddRsp(p, st.dPacket)]));
    assert [] + [AddRsp(p, st.dPacket)] == [AddRsp(p, st.dPacket)];
    assert Sample(w, st) == Ok((w, [AddRsp(p, st.dPacket)]));
  }
}
