/** The random traffic generator that only produces requests a responder
    accepts: how it draws a request beat, and its per-cycle bookkeeping of
    `a_valid`, the send and receive budgets and the D-side back-pressure
    counter `wait_for`.  Every `randint` is an input. */
module TrafficGenerator {
  import opened Bits
  import opened TileLinkTypes

  /** The draws `_get_random_A_packet` makes.  `size` is drawn only when
      `op != 1` and `mask` only when `op == 2`; an unused draw is ignored. */
  datatype Draws = Draws(op: nat, data: nat, address: nat, source: nat, size: nat, mask: nat)

  /** The ranges `randint` draws from, for a bus of `busWidth` bits and
      addresses of `addrWidth` bits. */
  predicate Drawn(d: Draws, busWidth: nat, addrWidth: nat)
    requires 8 <= busWidth
  {
    d.op <= 2 && d.data < Pow2(busWidth) && d.address < Pow2(addrWidth) && d.source <= 15
    && d.size <= Log2(busWidth / 8) && d.mask < Pow2(busWidth / 8)
  }

  /** `_get_random_A_packet`: a full-word PutFullData for `op == 1`;
      otherwise a Get or PutPartialData of a drawn size whose mask is cut
      down to the `2**size` lanes from the address's offset in the word
      (`address & (bus_byte_width - 1)`). */
  function RandomPacket(busWidth: nat, d: Draws): (r: APacket)
    requires 8 <= busWidth
    ensures r.param == 0 && r.source == d.source && r.data == d.data
    ensures d.op == 1 ==>
      r.opcode == PutFullData && r.size == Log2(busWidth / 8) && r.mask == Pow2(busWidth / 8) - 1
    ensures d.op != 1 ==> r.size == d.size && r.opcode == (if d.op == 0 then Get else PutPartialData)
    ensures r.address % Pow2(r.size) == 0 && r.address <= d.address < r.address + Pow2(r.size)
  {
    var W := busWidth / 8;
    if d.op == 1 then
      var size := Log2(W);
      APacket(PutFullData, 0, size, d.source, AlignDown(d.address, size), Pow2(W) - 1, d.data)
    else
      var address := AlignDown(d.address, d.size);
      var mask := if d.op == 0 then Pow2(W) - 1 else d.mask;
      var cut := And(mask, RunMask(Pow2(d.size), And(address, W - 1)));
      APacket(if d.op == 0 then Get else PutPartialData, 0, d.size, d.source, address, cut, d.data)
  }

  /** On a power-of-two bus the lanes a Get or PutPartialData enables are
      those of its `2**size`-byte beat, all of them for a Get and the drawn
      ones for a PutPartialData. */
  lemma MaskLanes(busWidth: nat, d: Draws, i: nat)
    requires 8 <= busWidth && IsPow2(busWidth / 8) && d.op != 1 && d.size <= Log2(busWidth / 8)
    ensures var p, W := RandomPacket(busWidth, d), busWidth / 8;
      p.address % W + Pow2(p.size) <= W
      && (Bit(p.mask, i) <==>
            p.address % W <= i < p.address % W + Pow2(p.size) && (d.op == 0 || Bit(d.mask, i)))
  {
    var p, W := RandomPacket(busWidth, d), busWidth / 8;
    var L := Log2(W);
    var off := p.address % W;
    var run := RunMask(Pow2(d.size), off);
    OffsetWithin(p.address, d.size, W);
    AndLowBits(p.address, L);
    assert And(p.address, W - 1) == off;
    RunMaskBits(Pow2(d.size), off, i);
    if d.op == 0 {
      forall j: nat | Bit(run, j)
        ensures j < W
      {
        RunMaskBits(Pow2(d.size), off, j);
      }
      AndOnes(W, run);
    } else {
      AndBit(d.mask, run, i);
    }
  }

  /** A beat aligned to its size `2**s <= W` sits inside one bus word. */
  lemma OffsetWithin(address: nat, s: nat, W: nat)
    requires IsPow2(W) && s <= Log2(W) && address % Pow2(s) == 0
    ensures address % W + Pow2(s) <= W && (address % W) % Pow2(s) == 0
  {
    AlignedOffset(address, s, Log2(W));
  }

  /** On a power-of-two bus every generated request passes `check_address`
      and `check_mask`; a Get's mask is exactly the run of its lanes. */
  lemma PacketLegal(busWidth: nat, addrWidth: nat, d: Draws)
    requires 8 <= busWidth && IsPow2(busWidth / 8) && Drawn(d, busWidth, addrWidth)
    ensures var p, W := RandomPacket(busWidth, d), busWidth / 8;
      Legal(p, W) && p.source <= 15
      && (p.opcode == Get ==> p.mask == RunMask(Pow2(p.size), p.address % W))
  {
    var p, W := RandomPacket(busWidth, d), busWidth / 8;
    var L := Log2(W);
    Pow2Mono(p.size, L);
    assert CheckAddress(p.address, W, p.size) == Pass;
    if d.op == 1 {
      assert p.address % W == 0;
    } else {
      forall i: nat
        ensures Bit(p.mask, i) <==> p.address % W <= i < p.address % W + Pow2(p.size) && (d.op == 0 || Bit(d.mask, i))
      {
        MaskLanes(busWidth, d, i);
      }
      if d.op == 0 {
        forall i: nat
          ensures Bit(p.mask, i) <==> Bit(RunMask(Pow2(p.size), p.address % W), i)
        {
          RunMaskBits(Pow2(p.size), p.address % W, i);
        }
        SameBits(p.mask, RunMask(Pow2(p.size), p.address % W));
      }
    }
  }

  /** Two masks with the same bits are equal. */
  lemma SameBits(a: nat, b: nat)
    requires forall i: nat :: Bit(a, i) <==> Bit(b, i)
    ensures a == b
  {
    forall k: nat
      ensures Digit(a, 2, k) == Digit(b, 2, k)
    {
      assert Bit(a, k) <==> Bit(b, k);
    }
    DigitsExt(a, b, 2);
  }

  // ----------------------------------------------------------------------
  // Per-cycle bookkeeping

  /** The generator's fields.  The budgets count down from
      `num_of_transactions`; `waitFor` is the number of cycles D stays
      back-pressured. */
  datatype Gen = Gen(
    aPacket: APacket, aValid: bool, sendingA: bool, wasAHandshake: bool,
    dPacket: DPacket, dReady: bool, wasDHandshake: bool,
    waitFor: int, send: int, recv: int)

  /** The constructor, for `num_of_transactions == n`. */
  function NewGen(n: int): (g: Gen)
    ensures g.send == n && g.recv == n && g.waitFor == 0
    ensures !g.aValid && !g.sendingA && !g.wasAHandshake && !g.dReady && !g.wasDHandshake
    ensures g.aPacket == DefaultA() && g.dPacket == DefaultD()
  {
    Gen(DefaultA(), false, false, false, DefaultD(), false, false, 0, n, n)
  }

  /** `randint(0,99) in range(75, 100)`: a quarter of the time a request
      still being offered is replaced by a fresh one. */
  predicate Redraw(roll: nat)
  {
    75 <= roll
  }

  /** `_A_packet_prep`: a fresh request when none is being offered or the
      roll says so; `a_valid` is the coin while the send budget lasts. */
  function APrep(g: Gen, busWidth: nat, roll: nat, d: Draws, coin: bool): (r: Gen)
    requires 8 <= busWidth
    ensures r.sendingA
    ensures r.aValid <==> coin && 0 < g.send
    ensures r.aPacket == if !g.sendingA || Redraw(roll) then RandomPacket(busWidth, d) else g.aPacket
    ensures r.(aPacket := g.aPacket, aValid := g.aValid, sendingA := g.sendingA) == g
  {
    var g1 := if !g.sendingA || Redraw(roll) then g.(aPacket := RandomPacket(busWidth, d), sendingA := true) else g;
    g1.(aValid := if 0 < g1.send then coin else false)
  }

  /** `_A_packet_process`: a handshake uses up one unit of the send budget
      and ends the offer; `a_valid` itself stays as it was. */
  function AProcess(g: Gen, aReady: bool): (r: Gen)
    ensures r.wasAHandshake <==> g.aValid && aReady
    ensures r.send == if r.wasAHandshake then g.send - 1 else g.send
    ensures r.sendingA == (g.sendingA && !r.wasAHandshake)
    ensures r.(wasAHandshake := g.wasAHandshake, send := g.send, sendingA := g.sendingA) == g
  {
    if g.aValid && aReady then g.(wasAHandshake := true, send := g.send - 1, sendingA := false)
    else g.(wasAHandshake := false)
  }

  /** A response is taken when offered and the back-pressure counter has run
      out. */
  predicate Takes(g: Gen, dValid: bool)
  {
    dValid && g.waitFor <= 0
  }

  /** The D side of one cycle: a taken response is stored, costs one unit of
      the receive budget and restarts the counter at the drawn `wait`; the
      counter then counts down by one. */
  function DStep(g: Gen, d: DPacket, dValid: bool, wait: nat): (r: Gen)
    ensures r.dReady == Takes(g, dValid) && r.wasDHandshake == Takes(g, dValid)
    ensures r.dPacket == if Takes(g, dValid) then d else g.dPacket
    ensures r.recv == if Takes(g, dValid) then g.recv - 1 else g.recv
    ensures r.waitFor == (if Takes(g, dValid) then wait else g.waitFor) - 1
    ensures r.(dPacket := g.dPacket, dReady := g.dReady, wasDHandshake := g.wasDHandshake,
               waitFor := g.waitFor, recv := g.recv) == g
  {
    var g1 := g.(wasDHandshake := false, dReady := false);
    var g2 := if dValid && g1.waitFor <= 0 then
      g1.(dReady := true, dPacket := d, waitFor := wait, recv := g1.recv - 1, wasDHandshake := true)
    else g1;
    g2.(waitFor := g2.waitFor - 1)
  }

  /** `do_reset`: the offer is withdrawn and `d_ready` dropped.  The two
      handshake flags survive, because the assignments name misspelt
      attributes (`was_a_handhake`, `was_d_handhake`). */
  function Reset(g: Gen): (r: Gen)
    ensures !r.aValid && !r.sendingA && !r.dReady && r.aPacket == DefaultA()
    ensures r.wasAHandshake == g.wasAHandshake && r.wasDHandshake == g.wasDHandshake
    ensures r.(aValid := g.aValid, sendingA := g.sendingA, dReady := g.dReady, aPacket := g.aPacket) == g
  {
    g.(sendingA := false, aValid := false, aPacket := DefaultA(), dReady := false)
  }

  /** Everything one clock cycle draws or observes. */
  datatype Cycle = Cycle(
    reset: bool, roll: nat, draws: Draws, coin: bool,
    dPacket: DPacket, dValid: bool, wait: nat, aReady: bool)

  /** The loop of `process` still runs while responses are expected. */
  predicate Running(g: Gen)
  {
    0 < g.recv
  }

  /** One cycle of `process`.  Once the receive budget is used up the loop
      has ended and every later cycle is a reset. */
  function Step(g: Gen, busWidth: nat, c: Cycle): (r: Gen)
    requires 8 <= busWidth
    ensures !Running(g) || c.reset ==> r == Reset(g)
    ensures Running(g) && !c.reset ==>
      (r.aValid ==> 0 < g.send) && (r.wasAHandshake ==> r.aValid) && r.sendingA == !r.wasAHandshake
  {
    if !Running(g) || c.reset then Reset(g)
    else AProcess(DStep(APrep(g, busWidth, c.roll, c.draws, c.coin), c.dPacket, c.dValid, c.wait), c.aReady)
  }

  /** In a running cycle outside reset a request is sent only while the send
      budget lasts, and a response is taken only when offered after the
      counter has run out. */
  lemma StepHandshakes(g: Gen, busWidth: nat, c: Cycle)
    requires 8 <= busWidth && Running(g) && !c.reset
    ensures var r := Step(g, busWidth, c);
      (r.wasAHandshake <==> c.coin && 0 < g.send && c.aReady)
      && r.send == (if r.wasAHandshake then g.send - 1 else g.send)
      && (r.wasDHandshake <==> c.dValid && g.waitFor <= 0)
      && r.recv == (if r.wasDHandshake then g.recv - 1 else g.recv)
      && r.waitFor == (if r.wasDHandshake then c.wait else g.waitFor) - 1
      && (r.wasAHandshake ==> !r.sendingA)
  {
  }

  /** A running step outside reset overwrites both handshake flags before
      anything reads them, so the flags `Reset` leaves behind are never
      observed by a later cycle. */
  lemma StepForgetsHandshakes(g: Gen, busWidth: nat, c: Cycle, x: bool, y: bool)
    requires 8 <= busWidth && Running(g) && !c.reset
    ensures Step(g.(wasAHandshake := x, wasDHandshake := y), busWidth, c) == Step(g, busWidth, c)
  {
  }

  /** Runs `cs` from `g`; the final state and the number of requests and
      responses exchanged in running cycles outside reset. */
  function Run(g: Gen, busWidth: nat, cs: seq<Cycle>): (r: (Gen, nat, nat))
    requires 8 <= busWidth
    decreases |cs|
  {
    if cs == [] then (g, 0, 0)
    else
      var g1 := Step(g, busWidth, cs[0]);
      var live := Running(g) && !cs[0].reset;
      var rest := Run(g1, busWidth, cs[1..]);
      (rest.0,
       rest.1 + (if live && g1.wasAHandshake then 1 else 0),
       rest.2 + (if live && g1.wasDHandshake then 1 else 0))
  }

  /** The budgets are exact: every request sent and every response taken
      costs one unit, and neither budget goes below zero, so at most
      `num_of_transactions` of each are exchanged. */
  lemma {:induction false} RunBudgets(g: Gen, busWidth: nat, cs: seq<Cycle>)
    requires 8 <= busWidth && 0 <= g.send && 0 <= g.recv
    ensures var r := Run(g, busWidth, cs);
      r.0.send == g.send - r.1 && r.0.recv == g.recv - r.2 && 0 <= r.0.send && 0 <= r.0.recv
    decreases |cs|
  {
    if cs != [] {
      var g1 := Step(g, busWidth, cs[0]);
      if Running(g) && !cs[0].reset {
        StepHandshakes(g, busWidth, cs[0]);
      }
      RunBudgets(g1, busWidth, cs[1..]);
    }
  }
}
