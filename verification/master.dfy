/** The bookkeeping of `SimSimpleMasterUL`: per-source queues of beats
    waiting to be presented, the beats left over while one of them is on the
    bus, the set of outstanding sources and the collected responses, plus
    the A/D channel registers.  Each operation is a pure function of the
    state; `Step` is one iteration of the master's `process` loop with the
    responder's outputs and the random source choice as inputs. */
module Master {
  import opened Bits
  import opened TileLinkTypes
  import Splitter

  /** `waiting` is `a_packet_queue`, `inFlight` is `a_packet_queue_send`
      (what remains of a source's beats after the one on the bus),
      `outstanding` is `a_packet_sources`, `responses` is `d_packets`. */
  datatype MasterState = MasterState(
    waiting: map<nat, seq<APacket>>,
    inFlight: map<nat, seq<APacket>>,
    outstanding: set<nat>,
    aPacket: APacket, aValid: bool, sendingA: bool, wasAHandshake: bool,
    responses: map<nat, seq<DPacket>>,
    dPacket: DPacket, dReady: bool, wasDHandshake: bool)

  /** The state a freshly constructed master starts in. */
  function Init(): (m: MasterState)
    ensures m.waiting == map[] && m.inFlight == map[] && m.outstanding == {} && m.responses == map[]
    ensures !m.aValid && !m.sendingA && !m.wasAHandshake && !m.dReady && !m.wasDHandshake
    ensures m.aPacket == DefaultA() && m.dPacket == DefaultD()
    ensures Inv(m)
  {
    MasterState(map[], map[], {}, DefaultA(), false, false, false, map[], DefaultD(), false, false)
  }

  /** A source is either waiting or in flight, never both; the outstanding
      sources are exactly those two; a waiting queue is never empty. */
  predicate Books(m: MasterState)
  {
    m.waiting.Keys !! m.inFlight.Keys
    && m.outstanding == m.waiting.Keys + m.inFlight.Keys
    && forall s :: s in m.waiting ==> m.waiting[s] != []
  }

  /** `Books`, and a beat being sent is presented as valid. */
  predicate Inv(m: MasterState)
  {
    Books(m) && (m.sendingA ==> m.aValid)
  }

  /** `m2` is `m` with `cmds` queued for `source`, an empty response list
      for it and the source marked outstanding; nothing else differs. */
  predicate Installed(m: MasterState, m2: MasterState, source: nat, cmds: seq<APacket>)
  {
    m2.waiting.Keys == m.waiting.Keys + {source} && m2.waiting[source] == cmds
    && (forall s :: s in m.waiting && s != source ==> m2.waiting[s] == m.waiting[s])
    && m2.responses.Keys == m.responses.Keys + {source} && m2.responses[source] == []
    && (forall s :: s in m.responses && s != source ==> m2.responses[s] == m.responses[s])
    && m2.outstanding == m.outstanding + {source}
    && m2.(waiting := m.waiting, responses := m.responses, outstanding := m.outstanding) == m
  }

  /** The common tail of `read` and `write` once the beats exist. */
  function Install(m: MasterState, source: nat, cmds: seq<APacket>): (m2: MasterState)
    ensures Installed(m, m2, source, cmds)
    ensures Inv(m) && source !in m.outstanding && cmds != [] ==> Inv(m2)
  {
    m.(waiting := m.waiting[source := cmds],
       responses := m.responses[source := []],
       outstanding := m.outstanding + {source})
  }

  /** `read`: refused while the source is outstanding, otherwise the beats
      of `Splitter.Read`, which tile the range with legal Gets. */
  function Read(m: MasterState, source: nat, address: nat, length: nat, W: nat): (r: Result<MasterState>)
    requires IsPow2(W)
    ensures source in m.outstanding ==> r == Err(SourceInUse)
    ensures source !in m.outstanding ==> (r.Ok? <==> length > 0)
    ensures source !in m.outstanding && length == 0 ==> r == Err(EmptyTransfer)
    ensures r.Ok? ==> exists cmds :: Installed(m, r.value, source, cmds)
    ensures r.Ok? ==> var cmds := r.value.waiting[source];
      Splitter.Tiles(cmds, address, address + length)
      && forall k :: 0 <= k < |cmds| ==> Legal(cmds[k], W) && cmds[k].opcode == Get && cmds[k].source == source
    ensures Inv(m) && r.Ok? ==> Inv(r.value)
  {
    if source in m.outstanding then Err(SourceInUse)
    else
      match Splitter.Read(source, address, length, W)
      case Err(e) => Err(e)
      case Ok(cmds) =>
        Splitter.ReadSplit(source, address, length, W);
        BeatsFacts(cmds, true, source, Log2(W));
        Ok(Install(m, source, cmds))
  }

  /** `write`: refused while the source is outstanding, then when the
      lengths disagree; otherwise the beats of `Splitter.Write`, which
      carry every byte and enable to its lane and pass the checks. */
  function Write(m: MasterState, source: nat, address: nat, length: nat,
                 vals: seq<Byte>, bits: seq<bool>, W: nat): (r: Result<MasterState>)
    requires IsPow2(W)
    ensures source in m.outstanding ==> r == Err(SourceInUse)
    ensures source !in m.outstanding && (length != |vals| || length != |bits|) ==> r == Err(LengthMismatch)
    ensures source !in m.outstanding && length == |vals| == |bits| ==> (r.Ok? <==> length > 0)
    ensures r.Ok? ==> exists cmds :: Installed(m, r.value, source, cmds)
    ensures r.Ok? ==> var cmds := r.value.waiting[source];
      Splitter.WriteTiles(cmds, address, vals, bits, 0, |vals|, W)
      && forall k :: 0 <= k < |cmds| ==>
           Legal(cmds[k], W) && cmds[k].opcode != Get && cmds[k].source == source
           && (Pow2(cmds[k].size) == W ==> cmds[k].opcode == GetWriteOpcode(Log2(W), W, cmds[k].mask))
           && (Pow2(cmds[k].size) < W ==> cmds[k].opcode == PutPartialData)
    ensures Inv(m) && r.Ok? ==> Inv(r.value)
  {
    if source in m.outstanding then Err(SourceInUse)
    else
      match Splitter.Write(source, address, length, vals, bits, W)
      case Err(e) => Err(e)
      case Ok(cmds) =>
        Splitter.WriteSplit(source, address, vals, bits, W);
        BeatsFacts(cmds, false, source, Log2(W));
        Ok(Install(m, source, cmds))
  }

  /** `Splitter.Beats` beat by beat. */
  lemma {:induction false} BeatsFacts(bs: seq<APacket>, read: bool, source: nat, max: nat)
    requires Splitter.Beats(bs, read, source, max)
    ensures forall k :: 0 <= k < |bs| ==> (bs[k].opcode == Get <==> read) && bs[k].source == source
    decreases |bs|
  {
    if bs != [] {
      BeatsFacts(bs[1..], read, source, max);
      forall k | 1 <= k < |bs|
        ensures bs[k] == bs[1..][k - 1]
      {
      }
    }
  }

  // ----------------------------------------------------------------------
  // The A channel

  /** `m2` is `m` with the head of `source`'s queue taken off the bus side:
      the source leaves `waiting`, its remaining beats go in flight. */
  predicate Moved(m: MasterState, m2: MasterState, source: nat, p: APacket)
  {
    source in m.waiting && source !in m2.waiting && source in m2.inFlight
    && m.waiting[source] == [p] + m2.inFlight[source]
    && m2.waiting == m.waiting - {source}
    && (forall s :: s in m.inFlight && s != source ==> s in m2.inFlight && m2.inFlight[s] == m.inFlight[s])
    && m2.inFlight.Keys == m.inFlight.Keys + {source}
    && m2.outstanding == m.outstanding && m2.responses == m.responses
  }

  /** `_get_random_A_packet`; `pick` is the source `random.choice` draws
      from the waiting sources.  Nothing waiting gives no packet; an empty
      queue would be Python's `IndexError`. */
  function Pick(m: MasterState, pick: nat): (r: Result<(MasterState, Option<APacket>)>)
    requires m.waiting == map[] || pick in m.waiting
    ensures m.waiting == map[] ==> r == Ok((m, None))
    ensures m.waiting != map[] ==> (r.Err? <==> m.waiting[pick] == [])
    ensures r.Err? ==> r.error == EmptyQueue
    ensures m.waiting != map[] && r.Ok? ==>
      r.value.1.Some? && Moved(m, r.value.0, pick, r.value.1.value) && !r.value.0.aValid
  {
    if m.waiting == map[] then Ok((m, None))
    else
      var queue := m.waiting[pick];
      if queue == [] then Err(EmptyQueue)
      else
        var m2 := m.(aValid := false, waiting := m.waiting - {pick}, inFlight := m.inFlight[pick := queue[1..]]);
        assert queue == [queue[0]] + queue[1..];
        Ok((m2, Some(queue[0])))
  }

  /** Picking keeps `Books`: an outstanding source moves from waiting to in
      flight, and a waiting queue is never empty so the pick succeeds. */
  lemma PickKeepsBooks(m: MasterState, pick: nat)
    requires Books(m) && (m.waiting == map[] || pick in m.waiting)
    ensures Pick(m, pick).Ok? && Books(Pick(m, pick).value.0)
  {
    if m.waiting != map[] {
      var m2 := Pick(m, pick).value.0;
      assert m2.waiting.Keys == m.waiting.Keys - {pick};
      assert m2.inFlight.Keys == m.inFlight.Keys + {pick};
    }
  }

  /** `_A_packet_prep`: while a beat is being sent it stays on the bus;
      otherwise the next one is picked and presented, or the default
      packet is shown as not valid when nothing waits. */
  function APrep(m: MasterState, pick: nat): (r: Result<MasterState>)
    requires m.waiting == map[] || pick in m.waiting
    ensures m.sendingA ==> r == Ok(m)
    ensures !m.sendingA && m.waiting == map[] ==>
      r.Ok? && r.value.aPacket == DefaultA() && !r.value.aValid && !r.value.sendingA
      && r.value.(aPacket := m.aPacket, aValid := m.aValid) == m
    ensures !m.sendingA && m.waiting != map[] && r.Ok? ==>
      r.value.aValid && r.value.sendingA && Moved(m, r.value, pick, r.value.aPacket)
    ensures Inv(m) ==> r.Ok? && Inv(r.value)
  {
    if m.sendingA then Ok(m)
    else
      match Pick(m, pick)
      case Err(e) => Err(e)
      case Ok((m2, p)) =>
        if p.None? then Ok(m2.(aPacket := DefaultA(), aValid := false, sendingA := false))
        else Ok(m2.(aPacket := p.value, aValid := true, sendingA := true))
  }

  /** `_A_packet_process`: a handshake is `a_ready` while the packet is
      valid, and it ends the send. */
  function AProcess(m: MasterState, aReady: bool): (r: MasterState)
    ensures r.wasAHandshake <==> aReady && m.aValid
    ensures r.wasAHandshake ==> !r.sendingA && !r.aValid
    ensures !r.wasAHandshake ==> r.sendingA == m.sendingA && r.aValid == m.aValid
    ensures r.(wasAHandshake := m.wasAHandshake, sendingA := m.sendingA, aValid := m.aValid) == m
    ensures Inv(m) ==> Inv(r)
  {
    if aReady && m.aValid then m.(wasAHandshake := true, sendingA := false, aValid := false)
    else m.(wasAHandshake := false)
  }

  // ----------------------------------------------------------------------
  // The D channel

  /** `_inner_D_packet_process`: record the response, then either requeue
      the source's remaining beats or free the source.  A response whose
      source has no response list or nothing in flight is the source's
      `KeyError`. */
  function InnerD(m: MasterState, d: DPacket): (r: Result<MasterState>)
    ensures r.Err? <==>
      d.source !in m.responses || d.source !in m.inFlight
      || (m.inFlight[d.source] == [] && d.source !in m.outstanding)
    ensures d.source !in m.responses ==> r == Err(UnknownSource)
    ensures d.source in m.responses && d.source !in m.inFlight ==> r == Err(ResponseWithoutRequest)
    ensures r.Ok? ==>
      var s, m2 := d.source, r.value;
      m2.dPacket == d
      && m2.responses.Keys == m.responses.Keys && m2.responses[s] == m.responses[s] + [d]
      && (forall t :: t in m.responses && t != s ==> m2.responses[t] == m.responses[t])
      && m2.inFlight == m.inFlight - {s}
      && (m.inFlight[s] != [] ==>
            m2.waiting == m.waiting[s := m.inFlight[s]] && m2.outstanding == m.outstanding)
      && (m.inFlight[s] == [] ==> m2.waiting == m.waiting && m2.outstanding == m.outstanding - {s})
  {
    var s := d.source;
    if s !in m.responses then Err(UnknownSource)
    else if s !in m.inFlight then Err(ResponseWithoutRequest)
    else
      var rest := m.inFlight[s];
      var m2 := m.(dPacket := d, responses := m.responses[s := m.responses[s] + [d]], inFlight := m.inFlight - {s});
      if |rest| > 0 then Ok(m2.(waiting := m.waiting[s := rest]))
      else if s !in m.outstanding then Err(SourceNotInUse)
      else Ok(m2.(outstanding := m.outstanding - {s}))
  }

  /** Taking in a response keeps `Books`: the source's remaining beats go
      back to waiting, or the source is freed when none remain. */
  lemma InnerDKeepsBooks(m: MasterState, d: DPacket)
    requires Books(m) && d.source in m.responses && d.source in m.inFlight
    ensures InnerD(m, d).Ok? && Books(InnerD(m, d).value)
  {
    var s := d.source;
    var m2 := InnerD(m, d).value;
    assert m2.inFlight.Keys == m.inFlight.Keys - {s};
    if m.inFlight[s] != [] {
      assert m2.waiting.Keys == m.waiting.Keys + {s};
    }
  }

  /** `_D_packet_process`: `d_ready` follows `d_valid`, and a valid
      response is taken in. */
  function DProcess(m: MasterState, d: DPacket, dValid: bool): (r: Result<MasterState>)
    ensures !dValid ==> r == Ok(m.(dReady := false, wasDHandshake := false))
    ensures dValid ==> (r.Ok? <==> InnerD(m, d).Ok?)
    ensures r.Ok? ==> r.value.dReady == dValid && r.value.wasDHandshake == dValid
    ensures r.Ok? ==> r.value.aPacket == m.aPacket && r.value.aValid == m.aValid && r.value.sendingA == m.sendingA
    ensures Inv(m) && r.Ok? ==> Inv(r.value)
  {
    var m2 := m.(dReady := false, wasDHandshake := false);
    if !dValid then Ok(m2)
    else
      match InnerD(m2.(dReady := true), d)
      case Err(e) => Err(e)
      case Ok(m3) => Ok(m3.(wasDHandshake := true))
  }

  /** `get_rsp`: hand over and forget the responses of a source. */
  function GetRsp(m: MasterState, source: nat): (r: Result<(MasterState, seq<DPacket>)>)
    ensures r.Err? <==> source !in m.responses
    ensures r.Err? ==> r.error == UnknownSource
    ensures r.Ok? ==>
      r.value.1 == m.responses[source] && r.value.0.responses == m.responses - {source}
      && r.value.0.(responses := m.responses) == m
    ensures Inv(m) && r.Ok? ==> Inv(r.value.0)
  {
    if source !in m.responses then Err(UnknownSource)
    else Ok((m.(responses := m.responses - {source}), m.responses[source]))
  }

  // ----------------------------------------------------------------------
  // Reset and the per-cycle step

  /** `do_reset` as the source writes it: the waiting queues, outstanding
      sources and responses are cleared and the A channel is idle, but the
      in-flight table is kept, and the two handshake flags survive because
      the assignments name misspelt attributes. */
  function Reset(m: MasterState): (r: MasterState)
    ensures r.waiting == map[] && r.outstanding == {} && r.responses == map[]
    ensures !r.sendingA && !r.aValid && r.aPacket == DefaultA() && !r.dReady
    ensures r.inFlight == m.inFlight && r.dPacket == m.dPacket
    ensures r.wasAHandshake == m.wasAHandshake && r.wasDHandshake == m.wasDHandshake
    ensures m.inFlight == map[] ==> Inv(r)
  {
    m.(sendingA := false, aValid := false, aPacket := DefaultA(), dReady := false,
       waiting := map[], outstanding := {}, responses := map[])
  }

  /** `do_reset` as evidently intended: it also forgets the beats left over
      from a transaction in flight, as it forgets the waiting ones.  The
      handshake flags are kept as in `Reset`; `StepForgetsHandshakes` shows
      that no later step reads them. */
  function ResetCorrected(m: MasterState): (r: MasterState)
    ensures r == Reset(m).(inFlight := map[])
    ensures r.waiting == map[] && r.inFlight == map[] && r.outstanding == {} && r.responses == map[]
    ensures Inv(r)
  {
    Reset(m).(inFlight := map[])
  }

  /** A reset while a source is in flight leaves a state outside `Books`:
      the source is no longer outstanding yet still has an in-flight entry,
      so a new transaction for it would be waiting and in flight at once. */
  lemma ResetKeepsInFlight()
    ensures var m := Init().(inFlight := map[0 := []], outstanding := {0});
      Inv(m) && !Books(Reset(m)) && 0 in Reset(m).inFlight && 0 !in Reset(m).outstanding
  {
    var m := Init().(inFlight := map[0 := []], outstanding := {0});
    assert 0 in Reset(m).inFlight;
  }

  /** One iteration of `process`: `do_reset` as written, or prepare the A
      channel, take the responder's D packet, then learn whether the A packet
      was accepted.  `pick` stands for the random choice among waiting
      sources.  A reset keeps `Inv` only when nothing was in flight
      (`ResetKeepsInFlight`). */
  function Step(m: MasterState, reset: bool, pick: nat, d: DPacket, dValid: bool, aReady: bool)
    : (r: Result<MasterState>)
    requires m.waiting == map[] || pick in m.waiting
    ensures reset ==> r == Ok(Reset(m))
    ensures !reset && Inv(m) && r.Ok? ==> Inv(r.value)
    ensures reset && m.inFlight == map[] ==> Inv(r.value)
    ensures !reset && r.Ok? ==> r.value.dReady == dValid
  {
    if reset then Ok(Reset(m))
    else
      match APrep(m, pick)
      case Err(e) => Err(e)
      case Ok(m1) =>
        match DProcess(m1, d, dValid)
        case Err(e) => Err(e)
        case Ok(m2) => Ok(AProcess(m2, aReady))
  }

  /** The cycle with the intended reset (`ResetCorrected`): every cycle,
      reset or not, keeps `Inv`. */
  function StepCorrected(m: MasterState, reset: bool, pick: nat, d: DPacket, dValid: bool, aReady: bool)
    : (r: Result<MasterState>)
    requires m.waiting == map[] || pick in m.waiting
    ensures reset ==> r == Ok(ResetCorrected(m))
    ensures !reset ==> r == Step(m, false, pick, d, dValid, aReady)
    ensures (reset || Inv(m)) && r.Ok? ==> Inv(r.value)
  {
    if reset then Ok(ResetCorrected(m)) else Step(m, false, pick, d, dValid, aReady)
  }

  /** A packet being sent stays on the bus, valid, until the cycle in which
      the responder is ready; that cycle ends the send. */
  lemma PresentedUntilHandshake(m: MasterState, pick: nat, d: DPacket, dValid: bool, aReady: bool)
    requires Inv(m) && m.sendingA && (m.waiting == map[] || pick in m.waiting)
    requires Step(m, false, pick, d, dValid, aReady).Ok?
    ensures var r := Step(m, false, pick, d, dValid, aReady).value;
      r.aPacket == m.aPacket && r.wasAHandshake == aReady
      && (r.sendingA <==> !aReady) && (r.aValid <==> !aReady)
  {
  }

  /** Without a reset, a step never fails on an `Inv` state unless the
      responder answers for a source that has nothing in flight. */
  lemma StepFailsOnlyOnStrayResponse(m: MasterState, pick: nat, d: DPacket, dValid: bool, aReady: bool)
    requires Inv(m) && (m.waiting == map[] || pick in m.waiting)
    requires Step(m, false, pick, d, dValid, aReady).Err?
    ensures dValid
    ensures var m1 := APrep(m, pick).value;
      d.source !in m1.responses || d.source !in m1.inFlight
  {
  }

  /** The handshake flags a state carries in are never read by a step
      outside reset: `_A_packet_process` and `_D_packet_process` overwrite
      them first.  So the flags `do_reset` fails to clear are not observed. */
  lemma StepForgetsHandshakes(m: MasterState, pick: nat, d: DPacket, dValid: bool, aReady: bool, x: bool, y: bool)
    requires m.waiting == map[] || pick in m.waiting
    ensures Step(m.(wasAHandshake := x, wasDHandshake := y), false, pick, d, dValid, aReady)
            == Step(m, false, pick, d, dValid, aReady)
  {
    var m' := m.(wasAHandshake := x, wasDHandshake := y);
    APrepFlags(m, pick, x, y);
    var a := APrep(m, pick);
    if a.Err? {
      StepStopsAtA(m, pick, d, dValid, aReady);
      StepStopsAtA(m', pick, d, dValid, aReady);
    } else {
      var m1 := a.value;
      var m1' := m1.(wasAHandshake := x, wasDHandshake := y);
      DProcessFlags(m1, d, dValid, x, y);
      var b := DProcess(m1, d, dValid);
      if b.Err? {
        StepStopsAtD(m, pick, d, dValid, aReady, m1);
        StepStopsAtD(m', pick, d, dValid, aReady, m1');
      } else {
        var m2 := b.value;
        AProcessFlag(m2, aReady, x);
        StepRuns(m, pick, d, dValid, aReady, m1, m2);
        StepRuns(m', pick, d, dValid, aReady, m1', m2.(wasAHandshake := x));
      }
    }
  }

  /** A step whose A-channel preparation fails fails with its error. */
  lemma StepStopsAtA(m: MasterState, pick: nat, d: DPacket, dValid: bool, aReady: bool)
    requires (m.waiting == map[] || pick in m.waiting) && APrep(m, pick).Err?
    ensures Step(m, false, pick, d, dValid, aReady) == Err(APrep(m, pick).error)
  {
  }

  /** A step whose response handling fails fails with its error. */
  lemma StepStopsAtD(m: MasterState, pick: nat, d: DPacket, dValid: bool, aReady: bool, m1: MasterState)
    requires (m.waiting == map[] || pick in m.waiting) && APrep(m, pick) == Ok(m1)
    requires DProcess(m1, d, dValid).Err?
    ensures Step(m, false, pick, d, dValid, aReady) == Err(DProcess(m1, d, dValid).error)
  {
  }

  /** A step that gets through both channels ends with `_A_packet_process`. */
  lemma StepRuns(m: MasterState, pick: nat, d: DPacket, dValid: bool, aReady: bool, m1: MasterState, m2: MasterState)
    requires (m.waiting == map[] || pick in m.waiting) && APrep(m, pick) == Ok(m1)
    requires DProcess(m1, d, dValid) == Ok(m2)
    ensures Step(m, false, pick, d, dValid, aReady) == Ok(AProcess(m2, aReady))
  {
  }

  /** `_A_packet_process` overwrites `was_a_handshake` without reading it. */
  lemma AProcessFlag(m: MasterState, aReady: bool, x: bool)
    ensures AProcess(m.(wasAHandshake := x), aReady) == AProcess(m, aReady)
  {
  }

  /** `_A_packet_prep` carries the handshake flags through untouched. */
  lemma APrepFlags(m: MasterState, pick: nat, x: bool, y: bool)
    requires m.waiting == map[] || pick in m.waiting
    ensures var r, r' := APrep(m, pick), APrep(m.(wasAHandshake := x, wasDHandshake := y), pick);
      (r.Err? ==> r' == r) && (r.Ok? ==> r'.Ok? && r'.value == r.value.(wasAHandshake := x, wasDHandshake := y))
  {
  }

  /** `_D_packet_process` clears `was_d_handshake` first and carries
      `was_a_handshake` through. */
  lemma DProcessFlags(m: MasterState, d: DPacket, dValid: bool, x: bool, y: bool)
    ensures var r, r' := DProcess(m, d, dValid), DProcess(m.(wasAHandshake := x, wasDHandshake := y), d, dValid);
      (r.Err? ==> r' == r) && (r.Ok? ==> r'.Ok? && r'.value == r.value.(wasAHandshake := x))
  {
    if dValid {
      var m' := m.(wasAHandshake := x, wasDHandshake := y);
      var n := m.(dReady := true, wasDHandshake := false);
      var n' := n.(wasAHandshake := x);
      assert n' == m'.(dReady := true, wasDHandshake := false);
      InnerDFlags(n, d, x);
      DProcessTakes(m, d, n);
      DProcessTakes(m', d, n');
      var k := InnerD(n, d);
      if k.Ok? {
        assert k.value.(wasAHandshake := x).(wasDHandshake := true)
            == k.value.(wasDHandshake := true).(wasAHandshake := x);
      }
    }
  }

  /** A valid response is handed to `_inner_D` with `d_ready` set and the
      D handshake flag cleared, and the flag is raised if it is taken. */
  lemma DProcessTakes(m: MasterState, d: DPacket, n: MasterState)
    requires n == m.(dReady := true, wasDHandshake := false)
    ensures DProcess(m, d, true) == (match InnerD(n, d)
      case Err(e) => Err(e)
      case Ok(k) => Ok(k.(wasDHandshake := true)))
  {
  }

  /** `_inner_D` neither reads nor writes `was_a_handshake`. */
  lemma InnerDFlags(m: MasterState, d: DPacket, x: bool)
    ensures var r, r' := InnerD(m, d), InnerD(m.(wasAHandshake := x), d);
      (r.Err? ==> r' == r) && (r.Ok? ==> r'.Ok? && r'.value == r.value.(wasAHandshake := x))
  {
    var s := d.source;
    if s in m.responses && s in m.inFlight {
      var rest := m.inFlight[s];
      var m2 := m.(dPacket := d, responses := m.responses[s := m.responses[s] + [d]], inFlight := m.inFlight - {s});
      var m2' := m.(wasAHandshake := x).(dPacket := d, responses := m.responses[s := m.responses[s] + [d]], inFlight := m.inFlight - {s});
      assert m2' == m2.(wasAHandshake := x);
      if |rest| > 0 {
        assert m2'.(waiting := m.waiting[s := rest]) == m2.(waiting := m.waiting[s := rest]).(wasAHandshake := x);
      } else if s in m.outstanding {
        assert m2'.(outstanding := m.outstanding - {s}) == m2.(outstanding := m.outstanding - {s}).(wasAHandshake := x);
      }
    }
  }
}
