/** The traffic generator that mixes correct and incorrect requests: each
    of address alignment, size and mask is correct only when a coin says so.
    It keeps the sources of its outstanding requests so that it never
    reuses one before its response arrives.  Every `randint` is an input;
    the D side and the reset are those of the well-behaved generator. */
module RandomTrafficGenerator {
  import opened Bits
  import opened TileLinkTypes
  import opened TrafficGenerator

  /** The draws of `_get_random_A_packet`.  `size` and `mask` are drawn
      only in some branches; an unused draw is ignored. */
  datatype RDraws = RDraws(
    op: nat, data: nat, address: nat, source: nat,
    correctAddress: bool, correctSize: bool, correctMask: bool,
    size: nat, mask: nat)

  /** `n.bit_length()`. */
  function BitLength(n: nat): (r: nat)
    ensures n < Pow2(r) && (0 < n ==> Pow2(r - 1) <= n)
  {
    if n == 0 then 0 else Log2(n) + 1
  }

  /** The largest size drawn: up to `log2(width)` when the size or the mask
      is to be correct, up to the all-ones number as wide as that
      logarithm otherwise. */
  function SizeBound(d: RDraws, W: nat): nat
    requires 1 <= W
  {
    if d.correctMask || d.correctSize then Log2(W) else Pow2(BitLength(Log2(W))) - 1
  }

  /** The ranges `randint` draws from on a bus of `busWidth` bits (the
      address is drawn as wide as the data). */
  predicate RDrawn(d: RDraws, busWidth: nat)
    requires 8 <= busWidth
  {
    d.op <= 2 && d.data < Pow2(busWidth) && d.address < Pow2(busWidth) && d.source <= 15
    && d.size <= SizeBound(d, busWidth / 8) && d.mask < Pow2(busWidth / 8)
  }

  /** `bus_width // 8`, the bus width in bytes. */
  function Bytes(busWidth: nat): (W: nat)
    requires 8 <= busWidth
    ensures 1 <= W && W == busWidth / 8
  {
    busWidth / 8
  }

  /** `op` 0, 1 and 2 ask for Get, PutPartialData and PutFullData. */
  function Opcode(op: nat): (r: AOp)
    ensures op == 0 <==> r == Get
    ensures op == 1 <==> r == PutPartialData
  {
    if op == 0 then Get else if op == 1 then PutPartialData else PutFullData
  }

  /** The address, rounded down to the size when the address or the mask is
      to be correct. */
  function Address(d: RDraws): (r: nat)
    ensures d.correctMask || d.correctAddress ==> r % Pow2(d.size) == 0 && r <= d.address < r + Pow2(d.size)
    ensures !(d.correctMask || d.correctAddress) ==> r == d.address
  {
    if d.correctMask || d.correctAddress then AlignDown(d.address, d.size) else d.address
  }

  /** The shift of a correct Get mask as the source computes it:
      `address & (bus_byte_width-1 >> size)`, where `>>` binds tighter than
      `&` but looser than `-`, so the width is shifted, not the address. */
  function GetShiftAsWritten(address: nat, W: nat, size: nat): (r: nat)
    requires 1 <= W
    ensures size == 0 ==> r == And(address, W - 1)
  {
    assert Pow2(0) == 1;
    And(address, (W - 1) / Pow2(size))
  }

  /** The shift evidently intended, and used by the other generator:
      the address's offset in the bus word, `address & (bus_byte_width-1)`. */
  function GetShift(address: nat, W: nat): (r: nat)
    requires 1 <= W
    ensures IsPow2(W) ==> r == address % W
  {
    if IsPow2(W) then AndLowBits(address, Log2(W)); And(address, W - 1)
    else And(address, W - 1)
  }

  /** The beat `_get_random_A_packet` builds, given the shift of a correct
      Get mask.  The closing assertion limits masks to four bits. */
  function Build(busWidth: nat, d: RDraws, shift: nat): (r: Result<APacket>)
    requires 8 <= busWidth && RDrawn(d, busWidth)
    ensures var W := busWidth / 8;
      var mask := if !d.correctMask || d.op == 1 then d.mask
                  else if d.op == 2 then Pow2(W) - 1
                  else RunMask(Pow2(d.size), shift);
      (r.Ok? <==> mask < 16) && (r.Err? ==> r.error == MaskTooWide)
      && (r.Ok? ==> r.value == APacket(Opcode(d.op), 0, d.size, d.source, Address(d), mask, d.data))
    ensures r.Ok? && (d.correctMask || d.correctSize) ==> r.value.size <= Log2(busWidth / 8)
  {
    var W := busWidth / 8;
    var mask :=
      if d.correctMask then
        if d.op == 2 then Pow2(W) - 1
        else if d.op == 1 then d.mask
        else RunMask(Pow2(d.size), shift)
      else d.mask;
    if 16 <= mask then Err(MaskTooWide)
    else Ok(APacket(Opcode(d.op), 0, d.size, d.source, Address(d), mask, d.data))
  }

  /** `_get_random_A_packet` as written. */
  function GenerateAsWritten(busWidth: nat, d: RDraws): (r: Result<APacket>)
    requires 8 <= busWidth && RDrawn(d, busWidth)
    ensures d.correctMask && d.op == 0 && r.Ok? ==>
      r.value.mask == RunMask(Pow2(d.size), GetShiftAsWritten(r.value.address, Bytes(busWidth), d.size))
  {
    Build(busWidth, d, GetShiftAsWritten(Address(d), Bytes(busWidth), d.size))
  }

  /** `_get_random_A_packet` with the Get mask shifted to the address's
      offset in the bus word. */
  function Generate(busWidth: nat, d: RDraws): (r: Result<APacket>)
    requires 8 <= busWidth && RDrawn(d, busWidth)
    ensures IsPow2(busWidth / 8) && d.correctMask && d.op == 0 && r.Ok? ==>
      r.value.mask == RunMask(Pow2(d.size), r.value.address % (busWidth / 8))
  {
    Build(busWidth, d, GetShift(Address(d), Bytes(busWidth)))
  }

  /** The two generators differ only in the mask of a correct Get of more
      than one byte. */
  lemma AsWrittenAgrees(busWidth: nat, d: RDraws)
    requires 8 <= busWidth && RDrawn(d, busWidth)
    requires d.size == 0 || !d.correctMask || d.op != 0
    ensures GenerateAsWritten(busWidth, d) == Generate(busWidth, d)
  {
  }

  /** On the 4-byte bus the source assumes, a correct Get of two bytes at
      address 2 gets mask `0b0011` instead of `0b1100`, which `check_mask`
      rejects because lanes below the offset are set. */
  lemma AsWrittenGetRejected(busWidth: nat, d: RDraws)
    requires busWidth == 32 && d == RDraws(0, 0, 2, 0, false, false, true, 1, 0)
    ensures RDrawn(d, busWidth)
    ensures GenerateAsWritten(busWidth, d) == Ok(APacket(Get, 0, 1, 0, 2, 3, 0))
    ensures CheckMask(2, 4, 3, 1, false) == Fail(MaskError)
  {
    ExampleDrawn(busWidth, d);
    var shift := GetShiftAsWritten(Address(d), busWidth / 8, d.size);
    ShiftAsWrittenExample(Address(d), busWidth / 8, d.size, shift);
    var m := RunMask(Pow2(d.size), shift);
    ExampleMask(d.size, shift, m);
    BuildGet(busWidth, d, shift, m);
    LowLaneSet();
  }

  /** The same draws with the intended shift give mask `0b1100`, which
      both checks accept. */
  lemma IntendedGetAccepted(busWidth: nat, d: RDraws)
    requires busWidth == 32 && d == RDraws(0, 0, 2, 0, false, false, true, 1, 0)
    ensures RDrawn(d, busWidth)
    ensures Generate(busWidth, d) == Ok(APacket(Get, 0, 1, 0, 2, 12, 0))
    ensures Legal(APacket(Get, 0, 1, 0, 2, 12, 0), 4)
  {
    ExampleDrawn(busWidth, d);
    var shift := GetShift(Address(d), busWidth / 8);
    ShiftExample(Address(d), busWidth / 8, shift);
    var m := RunMask(Pow2(d.size), shift);
    ExampleMask(d.size, shift, m);
    BuildGet(busWidth, d, shift, m);
    ExampleLegal();
  }

  /** A correct Get whose mask passes the width assertion. */
  lemma BuildGet(busWidth: nat, d: RDraws, shift: nat, m: nat)
    requires 8 <= busWidth && RDrawn(d, busWidth) && d.correctMask && d.op == 0
    requires m == RunMask(Pow2(d.size), shift) && m < 16
    ensures Build(busWidth, d, shift) == Ok(APacket(Get, 0, d.size, d.source, Address(d), m, d.data))
  {
  }

  /** `2 & (3 >> 1)` is 0. */
  lemma ShiftAsWrittenExample(address: nat, W: nat, size: nat, shift: nat)
    requires address == 2 && W == 4 && size == 1 && shift == GetShiftAsWritten(address, W, size)
    ensures shift == 0
  {
    assert Pow2(1) == 2;
    assert And(2, 1) == 0;
  }

  /** `2 & 3` is 2. */
  lemma ShiftExample(address: nat, W: nat, shift: nat)
    requires address == 2 && W == 4 && shift == GetShift(address, W)
    ensures shift == 2
  {
    FourIsPow2(W);
  }

  /** `(2**2 - 1) << shift` for the two shifts of the example. */
  lemma ExampleMask(size: nat, shift: nat, m: nat)
    requires size == 1 && (shift == 0 || shift == 2) && m == RunMask(Pow2(size), shift)
    ensures m == if shift == 0 then 3 else 12
  {
    assert Pow2(1) == 2 && Pow2(2) == 4;
  }

  /** The example's draws are in range and its address is already aligned. */
  lemma ExampleDrawn(busWidth: nat, d: RDraws)
    requires busWidth == 32 && d == RDraws(0, 0, 2, 0, false, false, true, 1, 0)
    ensures RDrawn(d, busWidth) && Address(d) == 2
  {
    FourIsPow2(busWidth / 8);
    Pow2Mono(4, busWidth);
    assert Pow2(1) == 2 && Pow2(2) == 4 && Pow2(4) == 16;
  }

  /** Mask `0b0011` at offset 2 of a 4-byte word sets a lane below the
      offset. */
  lemma LowLaneSet()
    ensures CheckMask(2, 4, 3, 1, false) == Fail(MaskError)
  {
    assert Bit(3, 0);
  }

  /** Mask `0b1100` for two bytes at address 2 of a 4-byte word is legal. */
  lemma ExampleLegal()
    ensures Legal(APacket(Get, 0, 1, 0, 2, 12, 0), 4)
  {
    assert Pow2(1) == 2 && Pow2(2) == 4;
    assert RunMask(2, 2) == 12;
  }

  /** Four is a power of two with logarithm 2. */
  lemma FourIsPow2(W: nat)
    requires W == 4
    ensures Log2(W) == 2 && IsPow2(W) && Pow2(W) == 16
  {
    assert Pow2(1) == 2 && Pow2(2) == 4;
  }

  /** With the intended shift, a correct Get on a power-of-two bus passes
      `check_address` and `check_mask`: its mask is the run of its lanes. */
  lemma CorrectGetLegal(busWidth: nat, d: RDraws)
    requires 8 <= busWidth && RDrawn(d, busWidth) && IsPow2(busWidth / 8)
    requires d.correctMask && d.op == 0 && Generate(busWidth, d).Ok?
    ensures var p, W := Generate(busWidth, d).value, busWidth / 8;
      Legal(p, W) && p.opcode == Get && p.mask == RunMask(Pow2(p.size), p.address % W)
  {
    var p, W := Generate(busWidth, d).value, busWidth / 8;
    Pow2Mono(p.size, Log2(W));
    assert CheckAddress(p.address, W, p.size) == Pass;
  }

  /** The mask assertion fails for every correct PutFullData once the bus is
      wider than four bytes. */
  lemma WideFullMaskFails(busWidth: nat, d: RDraws)
    requires 8 <= busWidth && RDrawn(d, busWidth) && 4 < busWidth / 8
    requires d.correctMask && d.op == 2
    ensures Generate(busWidth, d) == Err(MaskTooWide)
    ensures GenerateAsWritten(busWidth, d) == Err(MaskTooWide)
  {
    Pow2Mono(5, busWidth / 8);
    assert Pow2(5) == 32;
  }

  // ----------------------------------------------------------------------
  // Per-cycle bookkeeping

  /** The generator's fields: those of the well-behaved generator and
      `master_in_use`, the sources of requests not yet answered. */
  datatype RGen = RGen(gen: Gen, inUse: set<nat>)

  /** The constructor, for `num_of_transactions == n`. */
  function NewRGen(n: int): (s: RGen)
    ensures s.gen == NewGen(n) && s.inUse == {}
  {
    RGen(NewGen(n), {})
  }

  /** Every outstanding request holds one source, and their number is the
      requests sent less the responses taken. */
  predicate Outstanding(s: RGen)
  {
    |s.inUse| == s.gen.recv - s.gen.send
  }

  /** `_A_packet_prep`, drawing with the generator as written
      (`GenerateAsWritten`): a fresh request when none is being offered or
      the roll says so; `a_valid` is the coin unless the request's source is
      still in use or the send budget is spent. */
  function RPrep(s: RGen, busWidth: nat, roll: nat, d: RDraws, coin: bool): (r: Result<RGen>)
    requires 8 <= busWidth && RDrawn(d, busWidth)
    ensures r.Err? <==> (!s.gen.sendingA || Redraw(roll)) && GenerateAsWritten(busWidth, d).Err?
    ensures r.Ok? ==>
      var g := r.value.gen;
      r.value.inUse == s.inUse && g.sendingA
      && g.aPacket == (if !s.gen.sendingA || Redraw(roll) then GenerateAsWritten(busWidth, d).value else s.gen.aPacket)
      && (g.aValid <==> coin && g.aPacket.source !in s.inUse && 0 < s.gen.send)
      && g.(aPacket := s.gen.aPacket, aValid := s.gen.aValid, sendingA := s.gen.sendingA) == s.gen
  {
    var g := s.gen;
    var next :=
      if !g.sendingA || Redraw(roll) then
        match GenerateAsWritten(busWidth, d)
        case Err(e) => Err(e)
        case Ok(p) => Ok(g.(aPacket := p, sendingA := true))
      else Ok(g);
    match next
    case Err(e) => Err(e)
    case Ok(g1) =>
      var valid := coin && !(g1.aPacket.source in s.inUse || g1.send <= 0);
      Ok(RGen(g1.(aValid := valid), s.inUse))
  }

  /** `_A_packet_process`: a handshake also marks the request's source as in
      use. */
  function RProcess(s: RGen, aReady: bool): (r: RGen)
    ensures r.gen == AProcess(s.gen, aReady)
    ensures r.inUse == if s.gen.aValid && aReady then s.inUse + {s.gen.aPacket.source} else s.inUse
  {
    var g := AProcess(s.gen, aReady);
    RGen(g, if g.wasAHandshake then s.inUse + {g.aPacket.source} else s.inUse)
  }

  /** After a response is taken its source is released; a response for a
      source not in use fails as `set.remove` does. */
  function Release(s: RGen, d: DPacket): (r: Result<RGen>)
    ensures !s.gen.wasDHandshake ==> r == Ok(s)
    ensures s.gen.wasDHandshake ==>
      (r.Ok? <==> d.source in s.inUse) && (r.Err? ==> r.error == SourceNotInUse)
      && (r.Ok? ==> r.value == RGen(s.gen, s.inUse - {d.source}))
  {
    if !s.gen.wasDHandshake then Ok(s)
    else if d.source !in s.inUse then Err(SourceNotInUse)
    else Ok(RGen(s.gen, s.inUse - {d.source}))
  }

  /** Everything one clock cycle draws or observes. */
  datatype RCycle = RCycle(
    reset: bool, roll: nat, draws: RDraws, coin: bool,
    dPacket: DPacket, dValid: bool, wait: nat, aReady: bool)

  /** One cycle of `process`: the request is prepared, the D side runs,
      the handshake is processed and the answered source released.  Once
      the receive budget is used up every later cycle is a reset, which
      leaves the sources in use alone. */
  function RStep(s: RGen, busWidth: nat, c: RCycle): (r: Result<RGen>)
    requires 8 <= busWidth && RDrawn(c.draws, busWidth)
    ensures !Running(s.gen) || c.reset ==> r == Ok(RGen(Reset(s.gen), s.inUse))
  {
    if !Running(s.gen) || c.reset then Ok(RGen(Reset(s.gen), s.inUse))
    else
      match RPrep(s, busWidth, c.roll, c.draws, c.coin)
      case Err(e) => Err(e)
      case Ok(s1) =>
        var s2 := s1.(gen := DStep(s1.gen, c.dPacket, c.dValid, c.wait));
        Release(RProcess(s2, c.aReady), c.dPacket)
  }

  /** As in the well-behaved generator, a running step outside reset
      overwrites both handshake flags before `Release` reads the D one, so
      the flags `Reset` leaves behind are never observed. */
  lemma RStepForgetsHandshakes(s: RGen, busWidth: nat, c: RCycle, x: bool, y: bool)
    requires 8 <= busWidth && RDrawn(c.draws, busWidth)
    requires Running(s.gen) && !c.reset
    ensures RStep(s.(gen := s.gen.(wasAHandshake := x, wasDHandshake := y)), busWidth, c) == RStep(s, busWidth, c)
  {
    var s' := s.(gen := s.gen.(wasAHandshake := x, wasDHandshake := y));
    RPrepFlags(s, busWidth, c.roll, c.draws, c.coin, x, y);
    var p := RPrep(s, busWidth, c.roll, c.draws, c.coin);
    if p.Err? {
      RStepStops(s, busWidth, c);
      RStepStops(s', busWidth, c);
    } else {
      var s1 := p.value;
      var s1' := s1.(gen := s1.gen.(wasAHandshake := x, wasDHandshake := y));
      var e := DStep(s1.gen, c.dPacket, c.dValid, c.wait);
      DStepFlags(s1.gen, c.dPacket, c.dValid, c.wait, x, y);
      RProcessFlag(s1.(gen := e), c.aReady, x);
      RStepRuns(s, busWidth, c, s1);
      RStepRuns(s', busWidth, c, s1');
    }
  }

  /** `_A_packet_prep` carries the handshake flags through untouched. */
  lemma RPrepFlags(s: RGen, busWidth: nat, roll: nat, d: RDraws, coin: bool, x: bool, y: bool)
    requires 8 <= busWidth && RDrawn(d, busWidth)
    ensures var r, r' := RPrep(s, busWidth, roll, d, coin),
                        RPrep(s.(gen := s.gen.(wasAHandshake := x, wasDHandshake := y)), busWidth, roll, d, coin);
      (r.Err? ==> r' == r)
      && (r.Ok? ==> r'.Ok? && r'.value == r.value.(gen := r.value.gen.(wasAHandshake := x, wasDHandshake := y)))
  {
  }

  /** The D side clears `was_d_handshake` first and carries
      `was_a_handshake` through. */
  lemma DStepFlags(g: Gen, d: DPacket, dValid: bool, wait: nat, x: bool, y: bool)
    ensures DStep(g.(wasAHandshake := x, wasDHandshake := y), d, dValid, wait)
            == DStep(g, d, dValid, wait).(wasAHandshake := x)
  {
  }

  /** `_A_packet_process` overwrites `was_a_handshake` without reading it. */
  lemma RProcessFlag(s: RGen, aReady: bool, x: bool)
    ensures RProcess(s.(gen := s.gen.(wasAHandshake := x)), aReady) == RProcess(s, aReady)
  {
  }

  /** A cycle whose request cannot be drawn fails with the draw's error. */
  lemma RStepStops(s: RGen, busWidth: nat, c: RCycle)
    requires 8 <= busWidth && RDrawn(c.draws, busWidth)
    requires Running(s.gen) && !c.reset && RPrep(s, busWidth, c.roll, c.draws, c.coin).Err?
    ensures RStep(s, busWidth, c) == Err(RPrep(s, busWidth, c.roll, c.draws, c.coin).error)
  {
  }

  /** A cycle that draws its request runs the D side, the handshake and
      the release in that order. */
  lemma RStepRuns(s: RGen, busWidth: nat, c: RCycle, s1: RGen)
    requires 8 <= busWidth && RDrawn(c.draws, busWidth)
    requires Running(s.gen) && !c.reset && RPrep(s, busWidth, c.roll, c.draws, c.coin) == Ok(s1)
    ensures RStep(s, busWidth, c)
            == Release(RProcess(s1.(gen := DStep(s1.gen, c.dPacket, c.dValid, c.wait)), c.aReady), c.dPacket)
  {
  }

  /** A cycle that prepares its request successfully: a request goes out
      only for a source not in use, the sources in use gain it and lose the
      answered one, and an answer for a source that is not outstanding is
      the only other way to fail. */
  lemma RStepSources(s: RGen, busWidth: nat, c: RCycle)
    requires 8 <= busWidth && RDrawn(c.draws, busWidth)
    requires Running(s.gen) && !c.reset && RPrep(s, busWidth, c.roll, c.draws, c.coin).Ok?
    ensures var p := RPrep(s, busWidth, c.roll, c.draws, c.coin).value.gen.aPacket;
      var r := RStep(s, busWidth, c);
      var sent := c.coin && p.source !in s.inUse && 0 < s.gen.send && c.aReady;
      var taken := c.dValid && s.gen.waitFor <= 0;
      var held := if sent then s.inUse + {p.source} else s.inUse;
      (r.Err? <==> taken && c.dPacket.source !in held)
      && (r.Err? ==> r.error == SourceNotInUse)
      && (r.Ok? ==>
            r.value.gen.wasAHandshake == sent && r.value.gen.wasDHandshake == taken
            && r.value.inUse == (if taken then held - {c.dPacket.source} else held)
            && r.value.gen.send == (if sent then s.gen.send - 1 else s.gen.send)
            && r.value.gen.recv == (if taken then s.gen.recv - 1 else s.gen.recv))
  {
    var s1 := RPrep(s, busWidth, c.roll, c.draws, c.coin).value;
    var s2 := s1.(gen := DStep(s1.gen, c.dPacket, c.dValid, c.wait));
    assert s2.gen.aValid == s1.gen.aValid && s2.gen.aPacket == s1.gen.aPacket;
    assert s2.inUse == s.inUse;
  }

  /** Every step keeps the count of sources in use equal to the requests
      still unanswered. */
  lemma RStepOutstanding(s: RGen, busWidth: nat, c: RCycle)
    requires 8 <= busWidth && RDrawn(c.draws, busWidth)
    requires Outstanding(s) && RStep(s, busWidth, c).Ok?
    ensures Outstanding(RStep(s, busWidth, c).value)
  {
    if Running(s.gen) && !c.reset {
      RStepSources(s, busWidth, c);
      var p := RPrep(s, busWidth, c.roll, c.draws, c.coin).value.gen.aPacket;
      var sent := c.coin && p.source !in s.inUse && 0 < s.gen.send && c.aReady;
      var held := if sent then s.inUse + {p.source} else s.inUse;
      assert |held| == |s.inUse| + (if sent then 1 else 0);
      if c.dValid && s.gen.waitFor <= 0 {
        assert |held - {c.dPacket.source}| == |held| - 1;
      }
    }
  }
}
