/** The TileLink Uncached Lightweight packet model: opcode encodings, the A
    (request) and D (response) packet records with their declared defaults,
    and the three pure checks every participant applies to a request. */
module TileLinkTypes {
  import opened Bits

  datatype Option<T> = None | Some(value: T)

  /** Every way an operation of the testbench can fail.  The checks raise the
      first seven; the rest are the assertions and lookups of the drivers,
      router tables and monitor. */
  datatype Error =
    | WidthError | SizeError | AlignmentError
    | MaskError | MaskContinuousError | MaskSizeError
    | DivisionByZero
    | SourceInUse | LengthMismatch | EmptyTransfer | TilingFailed
    | UnknownSource
    | SourceReused | ResponseWithoutRequest
    | TooManyParticipants | NameTaken | NameClash | AlreadyRegistered | BusTaken
    | MaskTooWide | SourceNotInUse | EmptyQueue
    | MissingPacket | UnknownBus

  datatype Result<T> = Ok(value: T) | Err(error: Error)

  datatype Check = Pass | Fail(error: Error)

  /** A-channel opcodes. */
  datatype AOp = PutFullData | PutPartialData | Get

  /** D-channel opcodes. */
  datatype DOp = AccessAck | AccessAckData

  /** D-channel error field. */
  datatype Resp = Processed | Denied

  function AOpCode(op: AOp): nat
  {
    match op
    case PutFullData => 0
    case PutPartialData => 1
    case Get => 4
  }

  /** `TileLinkULAOP(n)`: the opcode with encoding `n`, if there is one. */
  function AOpOfCode(n: nat): (r: Option<AOp>)
    ensures r.Some? <==> n == 0 || n == 1 || n == 4
    ensures r.Some? ==> AOpCode(r.value) == n
    ensures forall op :: AOpCode(op) == n ==> r == Some(op)
  {
    if n == 0 then Some(PutFullData)
    else if n == 1 then Some(PutPartialData)
    else if n == 4 then Some(Get)
    else None
  }

  function DOpCode(op: DOp): nat
  {
    match op
    case AccessAck => 0
    case AccessAckData => 1
  }

  function DOpOfCode(n: nat): (r: Option<DOp>)
    ensures r.Some? <==> n <= 1
    ensures r.Some? ==> DOpCode(r.value) == n
    ensures forall op :: DOpCode(op) == n ==> r == Some(op)
  {
    if n == 0 then Some(AccessAck) else if n == 1 then Some(AccessAckData) else None
  }

  function RespCode(e: Resp): nat
  {
    match e
    case Processed => 0
    case Denied => 1
  }

  function RespOfCode(n: nat): (r: Option<Resp>)
    ensures r.Some? <==> n <= 1
    ensures r.Some? ==> RespCode(r.value) == n
    ensures forall e :: RespCode(e) == n ==> r == Some(e)
  {
    if n == 0 then Some(Processed) else if n == 1 then Some(Denied) else None
  }

  /** A request beat.  `size` is log2 of the byte count, `mask` has one bit
      per byte lane, `data` holds byte lane `j` at bits `8*j .. 8*j+7`. */
  datatype APacket = APacket(
    opcode: AOp, param: nat, size: nat, source: nat,
    address: nat, mask: nat, data: nat)

  /** A response beat. */
  datatype DPacket = DPacket(
    opcode: DOp, param: nat, size: nat, source: nat,
    sink: nat, error: Resp, data: nat)

  /** `TileLinkAPacket()`. */
  function DefaultA(): APacket
  {
    APacket(Get, 0, 0, 0, 0, 0, 0)
  }

  /** `TileLinkDPacket()`. */
  function DefaultD(): DPacket
  {
    DPacket(AccessAckData, 0, 0, 0, 0, Processed, 0)
  }

  lemma Encodings()
    ensures AOpCode(Get) == 4 && AOpCode(PutFullData) == 0 && AOpCode(PutPartialData) == 1
    ensures DOpCode(AccessAck) == 0 && DOpCode(AccessAckData) == 1
    ensures RespCode(Processed) == 0 && RespCode(Denied) == 1
    ensures DefaultA().opcode == Get && DefaultA().mask == 0 && DefaultA().data == 0
    ensures DefaultD().opcode == AccessAckData && DefaultD().error == Processed && DefaultD().data == 0
  {
  }

  /** `2**size > width`.  For a negative size Python's `2**size` is a
      fraction in (0, 1/2], which exceeds a byte width only when it is 0. */
  predicate TooWide(width: nat, size: int)
  {
    if 0 <= size then width < Pow2(size) else width == 0
  }

  /** `check_address`: the beat must fit the bus and be aligned to its size.
      The tests run in the order width, size, alignment. */
  function CheckAddress(address: nat, width: nat, size: int): (r: Check)
    ensures r == Pass <==> 0 <= size && Pow2(size) <= width && address % Pow2(size) == 0
    ensures TooWide(width, size) ==> r == Fail(WidthError)
    ensures !TooWide(width, size) && size < 0 ==> r == Fail(SizeError)
    ensures r == Fail(AlignmentError) <==> 0 <= size && Pow2(size) <= width && address % Pow2(size) != 0
  {
    if TooWide(width, size) then Fail(WidthError)
    else if size < 0 then Fail(SizeError)
    else if AlignDown(address, size) != address then Fail(AlignmentError)
    else Pass
  }

  /** The loop of `check_mask` that walks a right-justified read mask: the
      number of ones if they are all below the top one, None at the first 0. */
  function RunLength(m: nat): (r: Option<nat>)
    ensures r.Some? ==> m == Pow2(r.value) - 1
    ensures forall k: nat :: m == Pow2(k) - 1 ==> r == Some(k)
    decreases m
  {
    LowRunHalves(m);
    if m == 0 then Some(0)
    else if m % 2 == 0 then None
    else
      match RunLength(m / 2)
      case None => NoLowRun(m); None
      case Some(k) => LowRunUnique(m, k + 1); Some(k + 1)
  }

  /** The exponent of `2**k - 1` is determined by the number. */
  lemma LowRunUnique(m: nat, k: nat)
    requires m == Pow2(k) - 1
    ensures forall j: nat :: m == Pow2(j) - 1 ==> j == k
  {
    forall j: nat | m == Pow2(j) - 1
      ensures j == k
    {
      Pow2Inj(j, k);
    }
  }

  /** An odd number whose half is not of the form `2**j - 1` is not either. */
  lemma NoLowRun(m: nat)
    requires m % 2 == 1 && forall j: nat :: m / 2 != Pow2(j) - 1
    ensures forall k: nat :: m != Pow2(k) - 1
  {
    forall k: nat
      ensures m != Pow2(k) - 1
    {
      if m == Pow2(k) - 1 {
        LowRunHalf(m, k);
      }
    }
  }

  lemma LowRunHalf(m: nat, k: nat)
    requires m == Pow2(k) - 1 && 0 < m
    ensures 1 <= k && m / 2 == Pow2(k - 1) - 1
  {
    LowRunHalves(m);
  }

  /** A non-zero `2**k - 1` is odd, and halving it gives `2**(k-1) - 1`. */
  lemma LowRunHalves(m: nat)
    ensures forall k: nat :: m == Pow2(k) - 1 && 0 < m ==>
      1 <= k && m % 2 == 1 && m / 2 == Pow2(k - 1) - 1
    ensures forall j: nat :: m % 2 == 1 && m / 2 == Pow2(j) - 1 ==> m == Pow2(j + 1) - 1
  {
    forall k: nat | m == Pow2(k) - 1 && 0 < m
      ensures 1 <= k && m % 2 == 1 && m / 2 == Pow2(k - 1) - 1
    {
      assert k != 0;
      assert m == 2 * (Pow2(k - 1) - 1) + 1;
      DivModUnique(m, 2, Pow2(k - 1) - 1, 1);
    }
  }

  /** Whether `m` has the form `2**k - 1`. */
  ghost predicate IsLowRun(m: nat)
  {
    exists k: nat :: m == Pow2(k) - 1
  }

  /** `check_mask`: no enabled lane below the address's offset in the bus word;
      for reads also a single run of exactly `2**size` lanes from there. */
  function CheckMask(address: nat, width: nat, mask: nat, size: int, write: bool): (r: Check)
    ensures r == Fail(DivisionByZero) <==> width == 0
    ensures 0 < width ==>
      (r == Fail(MaskError) <==> exists i :: 0 <= i < address % width && Bit(mask, i))
    ensures 0 < width && write ==>
      (r == Pass <==> forall i :: 0 <= i < address % width ==> !Bit(mask, i))
    ensures 0 < width && !write ==>
      (r == Pass <==> 0 <= size && mask == RunMask(Pow2(size), address % width))
    ensures 0 < width && !write ==>
      (r == Fail(MaskContinuousError) <==>
         mask % Pow2(address % width) == 0 && !IsLowRun(mask / Pow2(address % width)))
  {
    if width == 0 then Fail(DivisionByZero)
    else
      var offset := address % width;
      var p := Pow2(offset);
      MaskFacts(mask, offset, size);
      if mask != (mask / p) * p then Fail(MaskError)
      else if write then Pass
      else
        match RunLength(mask / p)
        case None => Fail(MaskContinuousError)
        case Some(count) =>
          if size < 0 || count != Pow2(size) then Fail(MaskSizeError) else Pass
  }

  /** What the shift tests of `check_mask` mean for the bits of the mask. */
  lemma MaskFacts(mask: nat, offset: nat, size: int)
    ensures mask != (mask / Pow2(offset)) * Pow2(offset) <==>
      exists i :: 0 <= i < offset && Bit(mask, i)
    ensures mask == (mask / Pow2(offset)) * Pow2(offset) <==> mask % Pow2(offset) == 0
    ensures RunLength(mask / Pow2(offset)).Some? <==> IsLowRun(mask / Pow2(offset))
    ensures 0 <= size ==>
      (mask % Pow2(offset) == 0 && RunLength(mask / Pow2(offset)) == Some(Pow2(size))
       <==> mask == RunMask(Pow2(size), offset))
  {
    var p := Pow2(offset);
    LowBitsClear(mask, offset);
    DivMod(mask, p);
    if 0 <= size && mask == RunMask(Pow2(size), offset) {
      RunMaskSplit(Pow2(size), offset);
    }
  }

  /** `get_write_opcode`. */
  function GetWriteOpcode(size: nat, width: nat, mask: nat): (r: AOp)
    ensures r != Get
    ensures r == PutFullData <==>
      Pow2(size) == width && forall i: nat :: Bit(mask, i) <==> i < width
  {
    AllOnesIff(mask, width);
    if Pow2(size) == width && mask == Pow2(Pow2(size)) - 1 then PutFullData
    else PutPartialData
  }

  /** A mask equals `2**n - 1` exactly when its set bits are those below `n`. */
  lemma AllOnesIff(mask: nat, n: nat)
    ensures mask == Pow2(n) - 1 <==> forall i: nat :: Bit(mask, i) <==> i < n
  {
    var ones: nat := Pow2(n) - 1;
    forall i: nat
      ensures Bit(ones, i) <==> i < n
    {
      AllOnesBits(n, i);
    }
    if forall i: nat :: Bit(mask, i) <==> i < n {
      forall k: nat
        ensures Digit(mask, 2, k) == Digit(ones, 2, k)
      {
        assert Bit(mask, k) <==> Bit(ones, k);
      }
      DigitsExt(mask, ones, 2);
    }
  }

  /** A request every responder accepts: it passes both checks, with the mask
      checked as a write for anything but Get. */
  predicate Legal(p: APacket, width: nat)
  {
    CheckAddress(p.address, width, p.size) == Pass
    && CheckMask(p.address, width, p.mask, p.size, p.opcode != Get) == Pass
  }

  /** The set lanes of an accepted read mask are exactly the `2**size` lanes
      starting at the address's offset in the bus word. */
  lemma AcceptedReadMaskLanes(address: nat, width: nat, mask: nat, size: int, i: nat)
    requires CheckMask(address, width, mask, size, false) == Pass
    ensures 0 <= size && (Bit(mask, i) <==> address % width <= i < address % width + Pow2(size))
  {
    RunMaskBits(Pow2(size), address % width, i);
  }

  /** An all-zero read mask is always rejected (its run has 0 lanes). */
  lemma ZeroReadMaskRejected(address: nat, width: nat, size: int)
    requires 0 < width
    ensures CheckMask(address, width, 0, size, false) == Fail(MaskSizeError)
  {
    assert 0 == Pow2(0) - 1;
    if 0 <= size {
      assert RunMask(Pow2(size), address % width) != 0 by {
        MulAtLeast(Pow2(address % width), Pow2(Pow2(size)) - 1);
      }
    }
  }

  /** A write mask may be sparse: a single lane anywhere at or above the
      offset is accepted. */
  lemma SparseWriteMaskAccepted(address: nat, width: nat, lane: nat, size: int)
    requires 0 < width && address % width <= lane
    ensures CheckMask(address, width, Pow2(lane), size, true) == Pass
  {
    forall i | 0 <= i < address % width
      ensures !Bit(Pow2(lane), i)
    {
      RunMaskBits(1, lane, i);
      assert RunMask(1, lane) == Pow2(lane);
    }
  }
}
