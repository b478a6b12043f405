/** How the simple master cuts a read or write of `length` bytes at `address`
    into TileLink-UL beats for a bus `W` bytes wide.  Both directions work in
    three phases: beats of growing power-of-two size until the address is
    word aligned, whole bus words, then beats of shrinking size for the tail.
    The functions return the beats; installing them in the master's queues
    is `Master.Read` / `Master.Write`. */
module Splitter {
  import opened Bits
  import opened TileLinkTypes

  function Min(a: nat, b: nat): nat
  {
    if a <= b then a else b
  }

  /** Progress through a write: the next address, and the index of the next
      byte of the caller's list (the source drops consumed bytes from the
      front of its lists; the model keeps the lists and moves the index). */
  datatype Cursor = Cursor(address: nat, next: nat)

  /** A Get beat of `2**i` bytes at `address`, its lanes starting at the
      address's offset in the bus word. */
  function ReadBeat(source: nat, address: nat, i: nat, W: nat): APacket
    requires 1 <= W
  {
    APacket(Get, 0, i, source, address, RunMask(Pow2(i), address % W), 0)
  }

  /** A Get beat of one whole bus word. */
  function WordReadBeat(source: nat, address: nat, W: nat): APacket
    requires 1 <= W
  {
    APacket(Get, 0, Log2(W), source, address, Pow2(W) - 1, 0)
  }

  /** The mask the source's inner loop ORs together for `n` bytes taken from
      index `from`: enable `from + j` at bit `off + j`.  The lanes are
      disjoint, so the OR is a sum. */
  function PutMask(bits: seq<bool>, from: nat, n: nat, off: nat): nat
    requires from + n <= |bits|
    decreases n
  {
    if n == 0 then 0
    else PutMask(bits, from, n - 1, off) + (if bits[from + n - 1] then Pow2(off + n - 1) else 0)
  }

  /** The data word the same loop builds: byte `from + j` in lane `off + j`. */
  function PutData(vals: seq<Byte>, from: nat, n: nat, off: nat): nat
    requires from + n <= |vals|
    decreases n
  {
    if n == 0 then 0
    else PutData(vals, from, n - 1, off) + vals[from + n - 1] * Pow(256, off + n - 1)
  }

  /** A PutPartialData beat of size `i` carrying the `n` bytes from index
      `from`, in the lanes starting at the address's offset in the bus word. */
  function WriteBeat(source: nat, address: nat, i: nat, W: nat,
                     vals: seq<Byte>, bits: seq<bool>, from: nat, n: nat): APacket
    requires 1 <= W && from + n <= |vals| == |bits|
  {
    var off := address % W;
    APacket(PutPartialData, 0, i, source, address, PutMask(bits, from, n, off), PutData(vals, from, n, off))
  }

  /** A whole-word write beat carrying the `W` bytes from index `from` in
      lanes `0 .. W-1`; PutFullData exactly when every byte is enabled. */
  function WordWriteBeat(source: nat, address: nat, W: nat, vals: seq<Byte>, bits: seq<bool>, from: nat): APacket
    requires 1 <= W && from + W <= |vals| == |bits|
  {
    var mask := PutMask(bits, from, W, 0);
    APacket(GetWriteOpcode(Log2(W), W, mask), 0, Log2(W), source, address, mask, PutData(vals, from, W, 0))
  }

  /** The last step of `read`/`write`: the transfer must have produced a beat. */
  function Finish(cmds: seq<APacket>): (r: Result<seq<APacket>>)
    ensures r.Ok? <==> |cmds| > 0
    ensures r.Ok? ==> r.value == cmds
    ensures r.Err? ==> r.error == EmptyTransfer
  {
    if |cmds| == 0 then Err(EmptyTransfer) else Ok(cmds)
  }

  // ----------------------------------------------------------------------
  // Reads

  /** First read phase: for `i` from 0 below `log2 W`, a beat of size `i`
      when bit `i` of the address is set and the beat ends by `end`. */
  function ReadUp(source: nat, a: nat, end: nat, i: nat, W: nat): (seq<APacket>, nat)
    requires 1 <= W
    decreases Log2(W) - i
  {
    if Log2(W) <= i then ([], a)
    else if Bit(a, i) && a + Pow2(i) <= end then
      var (rest, a') := ReadUp(source, a + Pow2(i), end, i + 1, W);
      ([ReadBeat(source, a, i, W)] + rest, a')
    else ReadUp(source, a, end, i + 1, W)
  }

  /** Second read phase: whole words while one still fits. */
  function ReadWords(source: nat, a: nat, end: nat, W: nat): (seq<APacket>, nat)
    requires 1 <= W
    decreases end - a
  {
    if a + W <= end then
      var (rest, a') := ReadWords(source, a + W, end, W);
      ([WordReadBeat(source, a, W)] + rest, a')
    else ([], a)
  }

  /** The word loop of `read` as the source writes it
      (`while address + bus_byte_width <= end_address`), with no lower bound
      on the width and at most `fuel` iterations; `None` when the loop is
      still running after them.  `bus_byte_width` is `bus_width // 8`, so a
      bus narrower than a byte gives `W == 0`. */
  function WordLoop(a: nat, end: nat, W: nat, fuel: nat): Option<nat>
    decreases fuel
  {
    if end < a + W then Some(a)
    else if fuel == 0 then None
    else WordLoop(a + W, end, W, fuel - 1)
  }

  /** On a zero-width bus the word loop never ends once there is a byte left
      to read: the address does not move and the guard stays true. */
  lemma {:induction false} ZeroWidthStalls(a: nat, end: nat, fuel: nat)
    requires a <= end
    ensures WordLoop(a, end, 0, fuel) == None
    decreases fuel
  {
    if fuel > 0 {
      ZeroWidthStalls(a, end, fuel - 1);
    }
  }

  /** On a bus at least a byte wide the loop ends, within `end - a + 1`
      iterations, exactly where `ReadWords` stops. */
  lemma {:induction false} WordLoopEnds(source: nat, a: nat, end: nat, W: nat, fuel: nat)
    requires 1 <= W && end < a + fuel
    ensures WordLoop(a, end, W, fuel) == Some(ReadWords(source, a, end, W).1)
    decreases fuel
  {
    if a + W <= end {
      WordLoopEnds(source, a + W, end, W, fuel - 1);
    }
  }

  /** Third read phase over sizes `k - 1` down to 0: a beat of each size that
      still fits. */
  function ReadDown(source: nat, a: nat, end: nat, k: nat, W: nat): (seq<APacket>, nat)
    requires 1 <= W
    decreases k
  {
    if k == 0 then ([], a)
    else if a + Pow2(k - 1) <= end then
      var (rest, a') := ReadDown(source, a + Pow2(k - 1), end, k - 1, W);
      ([ReadBeat(source, a, k - 1, W)] + rest, a')
    else ReadDown(source, a, end, k - 1, W)
  }

  /** `SimSimpleMasterUL.read` without the bookkeeping: the Get beats for
      `length` bytes at `address`.  The closing `assert False` of the source
      (`TilingFailed`) is never reached. */
  function Read(source: nat, address: nat, length: nat, W: nat): (r: Result<seq<APacket>>)
    requires 1 <= W
    ensures r.Err? <==> length == 0
    ensures r.Err? ==> r.error == EmptyTransfer
    ensures r.Ok? ==> Beats(r.value, true, source, Log2(W))
  {
    var end := address + length;
    var (c1, a1) := ReadUp(source, address, end, 0, W);
    ReadUpFacts(source, address, end, 0, W);
    TilesSpan(c1, address, a1);
    if a1 >= end then Finish(c1)
    else
      var (c2, a2) := ReadWords(source, a1, end, W);
      ReadWordsFacts(source, a1, end, W);
      BeatsAppend(c1, c2, true, source, Log2(W));
      if a2 >= end then Finish(c1 + c2)
      else
        var (c3, a3) := ReadDown(source, a2, end, Log2(W) + 1, W);
        ReadDownFacts(source, a2, end, Log2(W) + 1, W);
        TilesSpan(c3, a2, a3);
        BeatsAppend(c1 + c2, c3, true, source, Log2(W));
        if a3 >= end then Finish(c1 + c2 + c3)
        else Err(TilingFailed)
  }

  // ----------------------------------------------------------------------
  // Writes

  /** One iteration of the first write phase: when bit `i` of the address
      is set and bytes remain, a beat of size `i` with up to `2**i` of them.
      The address advances by `2**i` even if fewer were left. */
  function UpStep(source: nat, vals: seq<Byte>, bits: seq<bool>, c: Cursor, i: nat, W: nat)
    : (r: (seq<APacket>, Cursor))
    requires 1 <= W && |vals| == |bits| && c.next <= |vals|
    ensures c.next <= r.1.next <= |vals|
  {
    if Bit(c.address, i) && c.next < |vals| then
      var n := Min(Pow2(i), |vals| - c.next);
      ([WriteBeat(source, c.address, i, W, vals, bits, c.next, n)],
       Cursor(c.address + Pow2(i), c.next + n))
    else ([], c)
  }

  /** First write phase: `UpStep` for `i` from 0 below `log2 W`. */
  function WriteUp(source: nat, vals: seq<Byte>, bits: seq<bool>, c: Cursor, i: nat, W: nat)
    : (r: (seq<APacket>, Cursor))
    requires 1 <= W && |vals| == |bits| && c.next <= |vals|
    ensures c.next <= r.1.next <= |vals|
    decreases Log2(W) - i
  {
    if Log2(W) <= i then ([], c)
    else
      var (s, c') := UpStep(source, vals, bits, c, i, W);
      var (rest, d) := WriteUp(source, vals, bits, c', i + 1, W);
      (s + rest, d)
  }

  /** Second write phase: whole words while at least `W` bytes remain. */
  function WriteWords(source: nat, vals: seq<Byte>, bits: seq<bool>, c: Cursor, W: nat)
    : (r: (seq<APacket>, Cursor))
    requires 1 <= W && |vals| == |bits| && c.next <= |vals|
    ensures c.next <= r.1.next <= |vals|
    decreases |vals| - c.next
  {
    if W <= |vals| - c.next then
      var beat := WordWriteBeat(source, c.address, W, vals, bits, c.next);
      var (rest, d) := WriteWords(source, vals, bits, Cursor(c.address + W, c.next + W), W);
      ([beat] + rest, d)
    else ([], c)
  }

  /** The word loop of `write` as the source writes it
      (`while len(value) >= bus_byte_width`), on the number of bytes `left`,
      with no lower bound on the width and at most `fuel` iterations; `None`
      when the loop is still running after them.  Each iteration takes `W`
      bytes, so on a bus narrower than a byte (`W == 0`) it takes none. */
  function WriteWordLoop(left: nat, W: nat, fuel: nat): Option<nat>
    decreases fuel
  {
    if left < W then Some(left)
    else if fuel == 0 then None
    else WriteWordLoop(left - W, W, fuel - 1)
  }

  /** On a zero-width bus the write's word loop never ends, whatever is
      left: its guard `len(value) >= 0` always holds. */
  lemma {:induction false} ZeroWidthWriteStalls(left: nat, fuel: nat)
    ensures WriteWordLoop(left, 0, fuel) == None
    decreases fuel
  {
    if fuel > 0 {
      ZeroWidthWriteStalls(left, fuel - 1);
    }
  }

  /** On a bus at least a byte wide the loop ends within `left + 1`
      iterations, with exactly the bytes `WriteWords` leaves. */
  lemma {:induction false} WriteWordLoopEnds(source: nat, vals: seq<Byte>, bits: seq<bool>, c: Cursor, W: nat, fuel: nat)
    requires 1 <= W && |vals| == |bits| && c.next <= |vals| && |vals| - c.next < fuel
    ensures WriteWordLoop(|vals| - c.next, W, fuel) == Some(|vals| - WriteWords(source, vals, bits, c, W).1.next)
    decreases fuel
  {
    if W <= |vals| - c.next {
      WriteWordLoopEnds(source, vals, bits, Cursor(c.address + W, c.next + W), W, fuel - 1);
    }
  }

  /** One iteration of the third write phase: a beat of size `i` exactly
      when bit `i` of the number of remaining bytes is set. */
  function DownStep(source: nat, vals: seq<Byte>, bits: seq<bool>, c: Cursor, i: nat, W: nat)
    : (r: (seq<APacket>, Cursor))
    requires 1 <= W && |vals| == |bits| && c.next <= |vals|
    ensures c.next <= r.1.next <= |vals|
  {
    if Bit(|vals| - c.next, i) then
      var n := Pow2(i);
      BitAtLeast(|vals| - c.next, i);
      ([WriteBeat(source, c.address, i, W, vals, bits, c.next, n)],
       Cursor(c.address + n, c.next + n))
    else ([], c)
  }

  /** Third write phase: `DownStep` for sizes `k - 1` down to 0. */
  function WriteDown(source: nat, vals: seq<Byte>, bits: seq<bool>, c: Cursor, k: nat, W: nat)
    : (r: (seq<APacket>, Cursor))
    requires 1 <= W && |vals| == |bits| && c.next <= |vals|
    ensures c.next <= r.1.next <= |vals|
    decreases k
  {
    if k == 0 then ([], c)
    else
      var (s, c') := DownStep(source, vals, bits, c, k - 1, W);
      var (rest, d) := WriteDown(source, vals, bits, c', k - 1, W);
      (s + rest, d)
  }

  /** `SimSimpleMasterUL.write` without the bookkeeping: the Put beats that
      write `vals` (enabled by `bits`) at `address`.  The closing
      `assert False` of the source (`TilingFailed`) is never reached. */
  function Write(source: nat, address: nat, length: nat, vals: seq<Byte>, bits: seq<bool>, W: nat)
    : (r: Result<seq<APacket>>)
    requires 1 <= W
    ensures r == Err(LengthMismatch) <==> length != |vals| || length != |bits|
    ensures r == Err(EmptyTransfer) <==> length == 0 && |vals| == 0 && |bits| == 0
    ensures r.Err? ==> r.error == LengthMismatch || r.error == EmptyTransfer
    ensures r.Ok? ==> Beats(r.value, false, source, Log2(W))
  {
    if length != |vals| || length != |bits| then Err(LengthMismatch)
    else
      var end := address + length;
      var (c1, d1) := WriteUp(source, vals, bits, Cursor(address, 0), 0, W);
      WriteUpFacts(source, vals, bits, Cursor(address, 0), 0, W);
      if d1.address >= end then Finish(c1)
      else
        var (c2, d2) := WriteWords(source, vals, bits, d1, W);
        WriteWordsFacts(source, vals, bits, d1, W);
        BeatsAppend(c1, c2, false, source, Log2(W));
        if d2.address >= end then Finish(c1 + c2)
        else
          var (c3, d3) := WriteDown(source, vals, bits, d2, Log2(W) + 1, W);
          WriteDownFacts(source, vals, bits, d2, Log2(W) + 1, W);
          BeatsAppend(c1 + c2, c3, false, source, Log2(W));
          if d3.address >= end then Finish(c1 + c2 + c3)
          else Err(TilingFailed)
  }

  // ----------------------------------------------------------------------
  // What a split covers

  /** Total number of bytes the beats span. */
  function Span(beats: seq<APacket>): nat
  {
    if beats == [] then 0 else Pow2(beats[0].size) + Span(beats[1..])
  }

  /** The beats cover `[lo, hi)` in order, each starting where the previous
      one ended. */
  predicate Tiles(beats: seq<APacket>, lo: nat, hi: nat)
    decreases |beats|
  {
    if beats == [] then lo == hi
    else beats[0].address == lo && Tiles(beats[1..], lo + Pow2(beats[0].size), hi)
  }

  /** Beat `b` carries the `n` bytes of `vals` (enables from `bits`) from
      index `from` on, in consecutive lanes from its address's offset in the
      bus word.  `CarriedLanes` spells out what that means lane by lane. */
  predicate Carries(b: APacket, vals: seq<Byte>, bits: seq<bool>, from: nat, n: nat, W: nat)
    requires 1 <= W && from + n <= |vals| == |bits|
  {
    b.mask == PutMask(bits, from, n, b.address % W) && b.data == PutData(vals, from, n, b.address % W)
  }

  /** The beats write bytes `from .. to` of `vals` (enables `bits`) from `lo`
      on: each starts where the previous one ended and carries as many of the
      bytes left in `vals` as its size allows. */
  predicate WriteTiles(beats: seq<APacket>, lo: nat, vals: seq<Byte>, bits: seq<bool>,
                        from: nat, to: nat, W: nat)
    requires 1 <= W
    decreases |beats|
  {
    from <= to <= |vals| && |vals| == |bits| &&
    if beats == [] then from == to
    else
      var b := beats[0];
      var n := Min(Pow2(b.size), |vals| - from);
      from < to && b.address == lo && Carries(b, vals, bits, from, n, W)
      && WriteTiles(beats[1..], lo + Pow2(b.size), vals, bits, from + n, to, W)
  }

  /** Every beat is a Get exactly when `read`, comes from `source` and has
      size at most `max`. */
  predicate Beats(bs: seq<APacket>, read: bool, source: nat, max: nat)
    decreases |bs|
  {
    bs == [] ||
    ((bs[0].opcode == Get <==> read) && bs[0].source == source && bs[0].size <= max
     && Beats(bs[1..], read, source, max))
  }

  /** What the responder's checks ask of a beat on a `W`-byte bus, as
      arithmetic: it fits the bus, is aligned to its size, and its mask has
      no lane below the address's offset (for a Get: exactly the `2**size`
      lanes from there).  `WellFormedLegal` shows this is `Legal`. */
  predicate WellFormed(b: APacket, W: nat)
  {
    1 <= W && Pow2(b.size) <= W && b.address % Pow2(b.size) == 0
    && if b.opcode == Get then b.mask == RunMask(Pow2(b.size), b.address % W)
       else b.mask % Pow2(b.address % W) == 0
  }

  /** The opcode `write` gives a beat: a whole-word beat takes
      `get_write_opcode` of its mask, a smaller one is always PutPartialData. */
  predicate PutOpcode(b: APacket, W: nat)
  {
    (Pow2(b.size) == W ==> b.opcode == GetWriteOpcode(b.size, W, b.mask))
    && (Pow2(b.size) < W ==> b.opcode == PutPartialData)
  }

  predicate PutOpcodes(bs: seq<APacket>, W: nat)
  {
    forall k :: 0 <= k < |bs| ==> PutOpcode(bs[k], W)
  }

  predicate AllWellFormed(bs: seq<APacket>, W: nat)
    decreases |bs|
  {
    bs == [] || (WellFormed(bs[0], W) && AllWellFormed(bs[1..], W))
  }

  /** `a` is aligned to the largest power of two that fits in the `end - a`
      bytes left: the beats of shrinking size from `a` are all aligned. */
  predicate Fits(a: nat, end: nat)
  {
    a <= end && (a == end || a % Pow2(Log2(end - a)) == 0)
  }

  // ----------------------------------------------------------------------
  // Lemmas about the predicates

  lemma {:induction false} TilesAppend(b1: seq<APacket>, b2: seq<APacket>, lo: nat, mid: nat, hi: nat)
    requires Tiles(b1, lo, mid) && Tiles(b2, mid, hi)
    ensures Tiles(b1 + b2, lo, hi)
    decreases |b1|
  {
    if b1 != [] {
      assert (b1 + b2)[1..] == b1[1..] + b2;
      TilesAppend(b1[1..], b2, lo + Pow2(b1[0].size), mid, hi);
    } else {
      assert b1 + b2 == b2;
    }
  }

  lemma {:induction false} TilesSpan(beats: seq<APacket>, lo: nat, hi: nat)
    requires Tiles(beats, lo, hi)
    ensures hi == lo + Span(beats) && lo + |beats| <= hi
    ensures beats == [] <==> lo == hi
    decreases |beats|
  {
    if beats != [] {
      TilesSpan(beats[1..], lo + Pow2(beats[0].size), hi);
    }
  }

  lemma {:induction false} SpanAppend(b1: seq<APacket>, b2: seq<APacket>)
    ensures Span(b1 + b2) == Span(b1) + Span(b2)
    decreases |b1|
  {
    if b1 == [] {
      assert b1 + b2 == b2;
    } else {
      assert (b1 + b2)[1..] == b1[1..] + b2;
      SpanAppend(b1[1..], b2);
    }
  }

  lemma {:induction false} BeatsAppend(b1: seq<APacket>, b2: seq<APacket>, read: bool, source: nat, max: nat)
    ensures Beats(b1 + b2, read, source, max) <==> Beats(b1, read, source, max) && Beats(b2, read, source, max)
    decreases |b1|
  {
    if b1 == [] {
      assert b1 + b2 == b2;
    } else {
      assert (b1 + b2)[1..] == b1[1..] + b2;
      BeatsAppend(b1[1..], b2, read, source, max);
    }
  }

  lemma {:induction false} BeatsAt(bs: seq<APacket>, read: bool, source: nat, max: nat, k: nat)
    requires Beats(bs, read, source, max) && k < |bs|
    ensures (bs[k].opcode == Get <==> read) && bs[k].source == source && bs[k].size <= max
    decreases k
  {
    if k != 0 {
      BeatsAt(bs[1..], read, source, max, k - 1);
    }
  }

  lemma {:induction false} AllWellFormedAppend(b1: seq<APacket>, b2: seq<APacket>, W: nat)
    ensures AllWellFormed(b1 + b2, W) <==> AllWellFormed(b1, W) && AllWellFormed(b2, W)
    decreases |b1|
  {
    if b1 == [] {
      assert b1 + b2 == b2;
    } else {
      assert (b1 + b2)[1..] == b1[1..] + b2;
      AllWellFormedAppend(b1[1..], b2, W);
    }
  }

  lemma {:induction false} AllWellFormedAt(bs: seq<APacket>, W: nat, k: nat)
    requires AllWellFormed(bs, W) && k < |bs|
    ensures WellFormed(bs[k], W)
    decreases k
  {
    if k != 0 {
      AllWellFormedAt(bs[1..], W, k - 1);
    }
  }

  /** A write tiling spans at least the bytes it carries (exactly, unless its
      last beat runs past the end of `vals`) and tiles its own span. */
  lemma {:induction false} WriteTilesSpan(beats: seq<APacket>, lo: nat, vals: seq<Byte>, bits: seq<bool>,
                                          from: nat, to: nat, W: nat)
    requires 1 <= W && WriteTiles(beats, lo, vals, bits, from, to, W)
    ensures to - from <= Span(beats) && Tiles(beats, lo, lo + Span(beats))
    ensures to < |vals| ==> Span(beats) == to - from
    ensures beats == [] <==> from == to
    decreases |beats|
  {
    if beats != [] {
      var n := Min(Pow2(beats[0].size), |vals| - from);
      WriteTilesSpan(beats[1..], lo + Pow2(beats[0].size), vals, bits, from + n, to, W);
    }
  }

  /** Write tilings of consecutive byte ranges chain. */
  lemma {:induction false} WriteTilesAppend(
    b1: seq<APacket>, b2: seq<APacket>, lo: nat, lo2: nat, vals: seq<Byte>, bits: seq<bool>,
    from: nat, mid: nat, to: nat, W: nat)
    requires 1 <= W && lo2 == lo + Span(b1)
    requires WriteTiles(b1, lo, vals, bits, from, mid, W)
    requires WriteTiles(b2, lo2, vals, bits, mid, to, W)
    ensures WriteTiles(b1 + b2, lo, vals, bits, from, to, W)
    decreases |b1|
  {
    if b1 == [] {
      assert b1 + b2 == b2;
    } else {
      var b := b1[0];
      var n := Min(Pow2(b.size), |vals| - from);
      assert (b1 + b2)[0] == b && (b1 + b2)[1..] == b1[1..] + b2;
      WriteTilesAppend(b1[1..], b2, lo + Pow2(b.size), lo2, vals, bits, from + n, mid, to, W);
    }
  }

  /** Prepending a beat that takes the next bytes extends a write tiling. */
  lemma WriteTilesCons(beat: APacket, rest: seq<APacket>, lo: nat, vals: seq<Byte>, bits: seq<bool>,
                       from: nat, to: nat, W: nat)
    requires 1 <= W && from < to <= |vals| && beat.address == lo
    requires var n := Min(Pow2(beat.size), |vals| - from);
      WriteTiles(rest, lo + Pow2(beat.size), vals, bits, from + n, to, W)
      && Carries(beat, vals, bits, from, n, W)
    ensures WriteTiles([beat] + rest, lo, vals, bits, from, to, W)
  {
    assert ([beat] + rest)[0] == beat && ([beat] + rest)[1..] == rest;
  }

  // ----------------------------------------------------------------------
  // Read phases

  lemma {:induction false} ReadUpFacts(source: nat, a: nat, end: nat, i: nat, W: nat)
    requires 1 <= W && a <= end
    ensures var (bs, a') := ReadUp(source, a, end, i, W);
      Tiles(bs, a, a') && a' <= end && Beats(bs, true, source, Log2(W))
    decreases Log2(W) - i
  {
    if Log2(W) <= i {
    } else if Bit(a, i) && a + Pow2(i) <= end {
      ReadUpFacts(source, a + Pow2(i), end, i + 1, W);
      var (rest, _) := ReadUp(source, a + Pow2(i), end, i + 1, W);
      assert ([ReadBeat(source, a, i, W)] + rest)[1..] == rest;
    } else {
      ReadUpFacts(source, a, end, i + 1, W);
    }
  }

  lemma {:induction false} ReadWordsFacts(source: nat, a: nat, end: nat, W: nat)
    requires 1 <= W && a <= end
    ensures var (bs, a') := ReadWords(source, a, end, W);
      a' <= end && end - a' < W && (bs == [] <==> a' == a)
      && (IsPow2(W) ==> Tiles(bs, a, a')) && Beats(bs, true, source, Log2(W))
    decreases end - a
  {
    if a + W <= end {
      ReadWordsFacts(source, a + W, end, W);
      ReadWordsStep(source, a, end, W);
    }
  }

  /** The step of `ReadWordsFacts`: one whole-word beat, then the words
      after it. */
  lemma ReadWordsStep(source: nat, a: nat, end: nat, W: nat)
    requires 1 <= W && a + W <= end
    requires var (bs, a') := ReadWords(source, a + W, end, W);
      a' <= end && end - a' < W && (bs == [] <==> a' == a + W)
      && (IsPow2(W) ==> Tiles(bs, a + W, a')) && Beats(bs, true, source, Log2(W))
    ensures var (bs, a') := ReadWords(source, a, end, W);
      a' <= end && end - a' < W && (bs == [] <==> a' == a)
      && (IsPow2(W) ==> Tiles(bs, a, a')) && Beats(bs, true, source, Log2(W))
  {
    var (rest, a') := ReadWords(source, a + W, end, W);
    var beat := WordReadBeat(source, a, W);
    assert ReadWords(source, a, end, W) == ([beat] + rest, a');
    assert ([beat] + rest)[0] == beat && ([beat] + rest)[1..] == rest;
  }

  lemma {:induction false} ReadDownFacts(source: nat, a: nat, end: nat, k: nat, W: nat)
    requires 1 <= W && a <= end && end - a < Pow2(k) && k <= Log2(W) + 1
    ensures var (bs, a') := ReadDown(source, a, end, k, W);
      Tiles(bs, a, end) && a' == end && Beats(bs, true, source, Log2(W))
    decreases k
  {
    if k != 0 {
      var i := k - 1;
      Pow2Succ(i);
      if a + Pow2(i) <= end {
        ReadDownFacts(source, a + Pow2(i), end, i, W);
        var (rest, _) := ReadDown(source, a + Pow2(i), end, i, W);
        assert ([ReadBeat(source, a, i, W)] + rest)[1..] == rest;
      } else {
        ReadDownFacts(source, a, end, i, W);
      }
    }
  }

  // ----------------------------------------------------------------------
  // Write beats

  /** The loop's OR equals the number whose base-2 digits are `off` zeros
      followed by the enables. */
  lemma {:induction false} PutMaskPack(bits: seq<bool>, from: nat, n: nat, off: nat)
    requires from + n <= |bits|
    ensures PutMask(bits, from, n, off) == Pack(Zeros(off) + BitsOf(bits[from..from + n]), 2)
    decreases n
  {
    if n == 0 {
      assert Zeros(off) + BitsOf(bits[from..from]) == Zeros(off) + [];
      PackShift(off, [], 2);
    } else {
      var ds := Zeros(off) + BitsOf(bits[from..from + n - 1]);
      var e: nat := if bits[from + n - 1] then 1 else 0;
      assert Zeros(off) + BitsOf(bits[from..from + n]) == ds + [e];
      PutMaskPack(bits, from, n - 1, off);
      PackSnoc(ds, e, 2);
    }
  }

  lemma {:induction false} PutDataPack(vals: seq<Byte>, from: nat, n: nat, off: nat)
    requires from + n <= |vals|
    ensures PutData(vals, from, n, off) == Pack(Zeros(off) + vals[from..from + n], 256)
    decreases n
  {
    if n == 0 {
      assert Zeros(off) + vals[from..from] == Zeros(off) + [];
      PackShift(off, [], 256);
    } else {
      var ds: seq<nat> := Zeros(off) + vals[from..from + n - 1];
      var e: nat := vals[from + n - 1];
      assert Zeros(off) + vals[from..from + n] == ds + [e];
      PutDataPack(vals, from, n - 1, off);
      PackSnoc(ds, e, 256);
    }
  }

  /** Bit `t` of the mask is set exactly for the lanes that carry an enabled
      byte. */
  lemma PutMaskBits(bits: seq<bool>, from: nat, n: nat, off: nat, t: nat)
    requires from + n <= |bits|
    ensures Bit(PutMask(bits, from, n, off), t) <==> off <= t < off + n && bits[from + t - off]
  {
    PutMaskPack(bits, from, n, off);
    var ds := Zeros(off) + BitsOf(bits[from..from + n]);
    assert Digits(ds, 2);
    PackDigit(ds, 2, t);
  }

  /** Lane `t` of the data word holds the byte it carries, and the lanes
      outside the carried ones are zero. */
  lemma PutDataLanes(vals: seq<Byte>, from: nat, n: nat, off: nat, t: nat)
    requires from + n <= |vals|
    ensures Lane(PutData(vals, from, n, off), t) == if off <= t < off + n then vals[from + t - off] else 0
  {
    PutDataPack(vals, from, n, off);
    var ds: seq<nat> := Zeros(off) + vals[from..from + n];
    assert Digits(ds, 256);
    PackDigit(ds, 256, t);
  }

  /** What `Carries` means for each lane of the bus. */
  lemma CarriedLanes(b: APacket, vals: seq<Byte>, bits: seq<bool>, from: nat, n: nat, W: nat, t: nat)
    requires 1 <= W && from + n <= |vals| == |bits| && Carries(b, vals, bits, from, n, W)
    ensures var off := b.address % W;
      (Bit(b.mask, t) <==> off <= t < off + n && bits[from + t - off])
      && (off <= t < off + n ==> Lane(b.data, t) == vals[from + t - off])
  {
    PutMaskBits(bits, from, n, b.address % W, t);
    PutDataLanes(vals, from, n, b.address % W, t);
  }

  // ----------------------------------------------------------------------
  // Write phases

  lemma UpStepFacts(source: nat, vals: seq<Byte>, bits: seq<bool>, c: Cursor, i: nat, W: nat)
    requires 1 <= W && |vals| == |bits| && c.next <= |vals| && i < Log2(W)
    ensures var (s, c') := UpStep(source, vals, bits, c, i, W);
      c.address + (c'.next - c.next) <= c'.address
      && (c'.next < |vals| ==> c'.address == c.address + (c'.next - c.next))
      && (s == [] <==> c'.next == c.next) && Beats(s, false, source, Log2(W))
  {
    var (s, c') := UpStep(source, vals, bits, c, i, W);
    if s != [] {
      assert s[1..] == [];
    }
  }

  lemma {:induction false} WriteUpFacts(source: nat, vals: seq<Byte>, bits: seq<bool>, c: Cursor, i: nat, W: nat)
    requires 1 <= W && |vals| == |bits| && c.next <= |vals|
    ensures var (bs, d) := WriteUp(source, vals, bits, c, i, W);
      c.address + (d.next - c.next) <= d.address
      && (d.next < |vals| ==> d.address == c.address + (d.next - c.next))
      && (bs == [] <==> d.next == c.next) && Beats(bs, false, source, Log2(W))
    decreases Log2(W) - i
  {
    if Log2(W) > i {
      var (s, c') := UpStep(source, vals, bits, c, i, W);
      UpStepFacts(source, vals, bits, c, i, W);
      WriteUpFacts(source, vals, bits, c', i + 1, W);
      var (rest, d) := WriteUp(source, vals, bits, c', i + 1, W);
      BeatsAppend(s, rest, false, source, Log2(W));
    }
  }

  lemma {:induction false} WriteWordsFacts(source: nat, vals: seq<Byte>, bits: seq<bool>, c: Cursor, W: nat)
    requires 1 <= W && |vals| == |bits| && c.next <= |vals|
    ensures var (bs, d) := WriteWords(source, vals, bits, c, W);
      d.address == c.address + (d.next - c.next) && |vals| - d.next < W
      && (bs == [] <==> d.next == c.next) && Beats(bs, false, source, Log2(W))
    decreases |vals| - c.next
  {
    if W <= |vals| - c.next {
      var c' := Cursor(c.address + W, c.next + W);
      WriteWordsFacts(source, vals, bits, c', W);
      var (rest, _) := WriteWords(source, vals, bits, c', W);
      assert ([WordWriteBeat(source, c.address, W, vals, bits, c.next)] + rest)[1..] == rest;
    }
  }

  lemma DownStepFacts(source: nat, vals: seq<Byte>, bits: seq<bool>, c: Cursor, i: nat, W: nat)
    requires 1 <= W && |vals| == |bits| && c.next <= |vals| && i <= Log2(W)
    requires |vals| - c.next < Pow2(i + 1)
    ensures var (s, c') := DownStep(source, vals, bits, c, i, W);
      c'.address == c.address + (c'.next - c.next) && |vals| - c'.next < Pow2(i)
      && (s == [] <==> c'.next == c.next) && Beats(s, false, source, Log2(W))
  {
    BitSplit(|vals| - c.next, i);
    var (s, c') := DownStep(source, vals, bits, c, i, W);
    if s != [] {
      BitAtLeast(|vals| - c.next, i);
      assert s[1..] == [];
    }
  }

  lemma {:induction false} WriteDownFacts(source: nat, vals: seq<Byte>, bits: seq<bool>, c: Cursor, k: nat, W: nat)
    requires 1 <= W && |vals| == |bits| && c.next <= |vals|
    requires |vals| - c.next < Pow2(k) && k <= Log2(W) + 1
    ensures var (bs, d) := WriteDown(source, vals, bits, c, k, W);
      d.next == |vals| && d.address == c.address + (|vals| - c.next)
      && (bs == [] <==> c.next == |vals|) && Beats(bs, false, source, Log2(W))
    decreases k
  {
    if k != 0 {
      var (s, c') := DownStep(source, vals, bits, c, k - 1, W);
      DownStepFacts(source, vals, bits, c, k - 1, W);
      WriteDownFacts(source, vals, bits, c', k - 1, W);
      var (rest, d) := WriteDown(source, vals, bits, c', k - 1, W);
      BeatsAppend(s, rest, false, source, Log2(W));
    }
  }

  // ----------------------------------------------------------------------
  // Write tilings

  lemma UpStepTiles(source: nat, vals: seq<Byte>, bits: seq<bool>, c: Cursor, i: nat, W: nat)
    requires 1 <= W && |vals| == |bits| && c.next <= |vals|
    ensures var (s, c') := UpStep(source, vals, bits, c, i, W);
      c'.address == c.address + Span(s) && WriteTiles(s, c.address, vals, bits, c.next, c'.next, W)
  {
    var (s, c') := UpStep(source, vals, bits, c, i, W);
    if s != [] {
      assert s[1..] == [];
    }
  }

  lemma {:induction false} WriteUpTiles(source: nat, vals: seq<Byte>, bits: seq<bool>, c: Cursor, i: nat, W: nat)
    requires 1 <= W && |vals| == |bits| && c.next <= |vals|
    ensures var (bs, d) := WriteUp(source, vals, bits, c, i, W);
      d.address == c.address + Span(bs) && WriteTiles(bs, c.address, vals, bits, c.next, d.next, W)
    decreases Log2(W) - i
  {
    if Log2(W) > i {
      var (s, c') := UpStep(source, vals, bits, c, i, W);
      UpStepTiles(source, vals, bits, c, i, W);
      WriteUpTiles(source, vals, bits, c', i + 1, W);
      var (rest, d) := WriteUp(source, vals, bits, c', i + 1, W);
      SpanAppend(s, rest);
      WriteTilesAppend(s, rest, c.address, c'.address, vals, bits, c.next, c'.next, d.next, W);
    }
  }

  /** On a power-of-two bus a word beat at a word-aligned address spans
      exactly the `W` bytes it carries. */
  lemma WordBeatCarries(source: nat, a: nat, W: nat, vals: seq<Byte>, bits: seq<bool>, from: nat)
    requires IsPow2(W) && from + W <= |vals| == |bits| && a % W == 0
    ensures var beat := WordWriteBeat(source, a, W, vals, bits, from);
      beat.address == a && Pow2(beat.size) == W && Min(Pow2(beat.size), |vals| - from) == W
      && Carries(beat, vals, bits, from, W, W)
  {
  }

  /** On a power-of-two bus, word beats from a word-aligned address tile too. */
  lemma {:induction false} WriteWordsTiles(source: nat, vals: seq<Byte>, bits: seq<bool>, c: Cursor, W: nat)
    requires IsPow2(W) && |vals| == |bits| && c.next <= |vals| && c.address % W == 0
    ensures var (bs, d) := WriteWords(source, vals, bits, c, W);
      d.address == c.address + Span(bs) && d.address % W == 0
      && WriteTiles(bs, c.address, vals, bits, c.next, d.next, W)
    decreases |vals| - c.next
  {
    if W <= |vals| - c.next {
      ModSumZero(c.address, W, W);
      WriteWordsTiles(source, vals, bits, Cursor(c.address + W, c.next + W), W);
      WriteWordsStepTiles(source, vals, bits, c, W);
    }
  }

  /** The step of `WriteWordsTiles`: one whole-word beat, then the words
      after it. */
  lemma WriteWordsStepTiles(source: nat, vals: seq<Byte>, bits: seq<bool>, c: Cursor, W: nat)
    requires IsPow2(W) && |vals| == |bits| && W <= |vals| - c.next && c.address % W == 0
    requires var c' := Cursor(c.address + W, c.next + W);
      var (bs, d) := WriteWords(source, vals, bits, c', W);
      d.address == c'.address + Span(bs) && d.address % W == 0
      && WriteTiles(bs, c'.address, vals, bits, c'.next, d.next, W)
    ensures var (bs, d) := WriteWords(source, vals, bits, c, W);
      d.address == c.address + Span(bs) && d.address % W == 0
      && WriteTiles(bs, c.address, vals, bits, c.next, d.next, W)
  {
    var c' := Cursor(c.address + W, c.next + W);
    var beat := WordWriteBeat(source, c.address, W, vals, bits, c.next);
    WordBeatCarries(source, c.address, W, vals, bits, c.next);
    var (rest, d) := WriteWords(source, vals, bits, c', W);
    WriteWordsUnfold(source, vals, bits, c, W, beat, rest, d);
    SpanCons(beat, rest);
    WriteTilesCons(beat, rest, c.address, vals, bits, c.next, d.next, W);
  }

  /** One step of `WriteWords` that sends a whole word. */
  lemma WriteWordsUnfold(source: nat, vals: seq<Byte>, bits: seq<bool>, c: Cursor, W: nat,
                         beat: APacket, rest: seq<APacket>, d: Cursor)
    requires 1 <= W && |vals| == |bits| && W <= |vals| - c.next
    requires beat == WordWriteBeat(source, c.address, W, vals, bits, c.next)
    requires (rest, d) == WriteWords(source, vals, bits, Cursor(c.address + W, c.next + W), W)
    ensures WriteWords(source, vals, bits, c, W) == ([beat] + rest, d)
  {
  }

  lemma SpanCons(beat: APacket, rest: seq<APacket>)
    ensures Span([beat] + rest) == Pow2(beat.size) + Span(rest)
  {
    assert ([beat] + rest)[0] == beat && ([beat] + rest)[1..] == rest;
  }

  lemma DownStepTiles(source: nat, vals: seq<Byte>, bits: seq<bool>, c: Cursor, i: nat, W: nat)
    requires 1 <= W && |vals| == |bits| && c.next <= |vals|
    ensures var (s, c') := DownStep(source, vals, bits, c, i, W);
      c'.address == c.address + Span(s) && WriteTiles(s, c.address, vals, bits, c.next, c'.next, W)
  {
    var (s, c') := DownStep(source, vals, bits, c, i, W);
    if s != [] {
      BitAtLeast(|vals| - c.next, i);
      assert s[1..] == [];
    }
  }

  lemma {:induction false} WriteDownTiles(source: nat, vals: seq<Byte>, bits: seq<bool>, c: Cursor, k: nat, W: nat)
    requires 1 <= W && |vals| == |bits| && c.next <= |vals|
    ensures var (bs, d) := WriteDown(source, vals, bits, c, k, W);
      d.address == c.address + Span(bs) && WriteTiles(bs, c.address, vals, bits, c.next, d.next, W)
    decreases k
  {
    if k != 0 {
      var i := k - 1;
      WriteDownTiles(source, vals, bits, DownStep(source, vals, bits, c, i, W).1, i, W);
      WriteDownStepTiles(source, vals, bits, c, i, W);
    }
  }

  /** The step of `WriteDownTiles`: the beat of bit `i`, if any, followed by
      the tiles of the lower bits. */
  lemma WriteDownStepTiles(source: nat, vals: seq<Byte>, bits: seq<bool>, c: Cursor, i: nat, W: nat)
    requires 1 <= W && |vals| == |bits| && c.next <= |vals|
    requires var c' := DownStep(source, vals, bits, c, i, W).1;
      var (bs, d) := WriteDown(source, vals, bits, c', i, W);
      d.address == c'.address + Span(bs) && WriteTiles(bs, c'.address, vals, bits, c'.next, d.next, W)
    ensures var (bs, d) := WriteDown(source, vals, bits, c, i + 1, W);
      d.address == c.address + Span(bs) && WriteTiles(bs, c.address, vals, bits, c.next, d.next, W)
  {
    var (s, c') := DownStep(source, vals, bits, c, i, W);
    DownStepTiles(source, vals, bits, c, i, W);
    var (rest, d) := WriteDown(source, vals, bits, c', i, W);
    SpanAppend(s, rest);
    WriteTilesAppend(s, rest, c.address, c'.address, vals, bits, c.next, c'.next, d.next, W);
  }

  // ----------------------------------------------------------------------
  // Power-of-two buses: legality and coverage

  /** The arithmetic reading of the responder's checks. */
  lemma WellFormedLegal(b: APacket, W: nat)
    requires 1 <= W
    ensures WellFormed(b, W) <==> Legal(b, W)
  {
    var off := b.address % W;
    LowBitsClear(b.mask, off);
  }

  lemma ReadBeatWellFormed(source: nat, a: nat, i: nat, W: nat)
    requires IsPow2(W) && i <= Log2(W) && a % Pow2(i) == 0
    ensures WellFormed(ReadBeat(source, a, i, W), W)
  {
    Pow2Mono(i, Log2(W));
  }

  lemma WordReadBeatWellFormed(source: nat, a: nat, W: nat)
    requires IsPow2(W) && a % W == 0
    ensures WellFormed(WordReadBeat(source, a, W), W)
  {
    assert RunMask(Pow2(Log2(W)), a % W) == Pow2(W) - 1;
  }

  /** A Put mask built from offset `off` has its low `off` bits clear. */
  lemma PutMaskAligned(bits: seq<bool>, from: nat, n: nat, off: nat)
    requires from + n <= |bits|
    ensures PutMask(bits, from, n, off) % Pow2(off) == 0
  {
    var ds := BitsOf(bits[from..from + n]);
    var x, p := Pack(ds, 2), Pow2(off);
    PutMaskPack(bits, from, n, off);
    PackShift(off, ds, 2);
    assert p == Pow(2, off);
    MulComm(p, x);
    MulModZero(x, p);
  }

  lemma WriteBeatWellFormed(source: nat, a: nat, i: nat, W: nat, vals: seq<Byte>, bits: seq<bool>,
                            from: nat, n: nat)
    requires IsPow2(W) && i <= Log2(W) && a % Pow2(i) == 0 && from + n <= |vals| == |bits|
    ensures WellFormed(WriteBeat(source, a, i, W, vals, bits, from, n), W)
  {
    Pow2Mono(i, Log2(W));
    PutMaskAligned(bits, from, n, a % W);
  }

  lemma WordWriteBeatWellFormed(source: nat, a: nat, W: nat, vals: seq<Byte>, bits: seq<bool>, from: nat)
    requires IsPow2(W) && a % W == 0 && from + W <= |vals| == |bits|
    ensures WellFormed(WordWriteBeat(source, a, W, vals, bits, from), W)
  {
  }

  /** Alignment to `2**i` gives `Fits` once fewer than `2**i` bytes are left. */
  lemma FitsBelow(a: nat, end: nat, i: nat)
    requires a <= end && end - a < Pow2(i) && a % Pow2(i) == 0
    ensures Fits(a, end)
  {
    if a != end {
      var l := Log2(end - a);
      if i < l + 1 {
        Pow2Mono(i, l);
      }
      AlignedSmaller(a, l, i);
    }
  }

  lemma {:induction false} ReadUpWellFormed(source: nat, a: nat, end: nat, i: nat, W: nat)
    requires IsPow2(W) && a <= end && i <= Log2(W)
    requires a % Pow2(i) == 0 || (end - a < Pow2(i) && Fits(a, end))
    ensures var (bs, a') := ReadUp(source, a, end, i, W);
      AllWellFormed(bs, W) && (a' % W == 0 || (end - a' < W && Fits(a', end)))
    decreases Log2(W) - i
  {
    if Log2(W) <= i {
      assert Pow2(i) == W;
    } else if Bit(a, i) && a + Pow2(i) <= end {
      assert a % Pow2(i) == 0;
      ReadBeatWellFormed(source, a, i, W);
      AlignStep(a, i);
      ReadUpWellFormed(source, a + Pow2(i), end, i + 1, W);
      var (rest, a') := ReadUp(source, a + Pow2(i), end, i + 1, W);
      assert ReadUp(source, a, end, i, W) == ([ReadBeat(source, a, i, W)] + rest, a');
      assert ([ReadBeat(source, a, i, W)] + rest)[1..] == rest;
    } else {
      Pow2Succ(i);
      if a % Pow2(i) == 0 {
        AlignStep(a, i);
        if Bit(a, i) {
          FitsBelow(a, end, i);
        }
      }
      assert a % Pow2(i + 1) == 0 || (end - a < Pow2(i + 1) && Fits(a, end));
      ReadUpWellFormed(source, a, end, i + 1, W);
      assert ReadUp(source, a, end, i, W) == ReadUp(source, a, end, i + 1, W);
    }
  }

  lemma {:induction false} ReadWordsWellFormed(source: nat, a: nat, end: nat, W: nat)
    requires IsPow2(W) && a <= end && (a % W == 0 || (end - a < W && Fits(a, end)))
    ensures var (bs, a') := ReadWords(source, a, end, W);
      AllWellFormed(bs, W) && Fits(a', end)
    decreases end - a
  {
    if a + W <= end {
      WordReadBeatWellFormed(source, a, W);
      MulModZero(1, W);
      ModSumZero(a, W, W);
      ReadWordsWellFormed(source, a + W, end, W);
      var (rest, _) := ReadWords(source, a + W, end, W);
      assert ([WordReadBeat(source, a, W)] + rest)[1..] == rest;
    } else if a % W == 0 {
      FitsBelow(a, end, Log2(W));
    }
  }

  lemma ReadDownWellFormed(source: nat, a: nat, end: nat, k: nat, W: nat)
    requires IsPow2(W) && k <= Log2(W) + 1 && Fits(a, end) && end - a < Pow2(k)
    ensures AllWellFormed(ReadDown(source, a, end, k, W).0, W)
  {
    ReadDownFrom(source, a, end, k, W, Pow2(k));
  }

  /** `ReadDownWellFormed` with `m` standing for `2**k`, by induction on `k`. */
  lemma {:induction false} ReadDownFrom(source: nat, a: nat, end: nat, k: nat, W: nat, m: nat)
    requires IsPow2(W) && k <= Log2(W) + 1 && m == Pow2(k) && Fits(a, end) && end - a < m
    ensures AllWellFormed(ReadDown(source, a, end, k, W).0, W)
    decreases k
  {
    if k != 0 {
      var i := k - 1;
      var p := Pow2(i);
      var a' := if a + p <= end then a + p else a;
      ReadDownNext(a, end, i, p, m, a');
      ReadDownFrom(source, a', end, i, W, p);
      ReadDownStep(source, a, end, i, W, p, a');
    }
  }

  /** Where the next, smaller step of `ReadDown` starts, and that it still
      fits. */
  lemma ReadDownNext(a: nat, end: nat, i: nat, p: nat, m: nat, a': nat)
    requires p == Pow2(i) && m == Pow2(i + 1) && Fits(a, end) && end - a < m
    requires a' == if a + p <= end then a + p else a
    ensures Fits(a', end) && end - a' < p && (a' != a ==> a % p == 0)
  {
    Pow2Succ(i);
    if a + p <= end {
      ReadDownAligned(a, end, i, p);
    }
  }

  /** One step of `ReadDownFrom`: the beat it takes, if any, is well formed. */
  lemma ReadDownStep(source: nat, a: nat, end: nat, i: nat, W: nat, p: nat, a': nat)
    requires IsPow2(W) && i <= Log2(W) && p == Pow2(i)
    requires a' == if a + p <= end then a + p else a
    requires a' != a ==> a % p == 0
    requires AllWellFormed(ReadDown(source, a', end, i, W).0, W)
    ensures AllWellFormed(ReadDown(source, a, end, i + 1, W).0, W)
  {
    if a + p <= end {
      ReadDownTake(source, a, end, i, W, p);
    } else {
      ReadDownSkip(source, a, end, i, W, p);
    }
  }

  /** When a `2**i`-byte beat fits below `end`, it is aligned and what is
      left fits. */
  lemma ReadDownAligned(a: nat, end: nat, i: nat, p: nat)
    requires p == Pow2(i) && Fits(a, end) && end - a < 2 * p && a + p <= end
    ensures a % p == 0 && Fits(a + p, end) && end - (a + p) < p
  {
    assert Log2(end - a) == i by {
      var l := Log2(end - a);
      Pow2Succ(i);
      if l < i { Pow2Mono(l + 1, i); }
      if i < l { Pow2Mono(i + 1, l); }
    }
    MulModZero(1, p);
    ModSumZero(a, p, p);
    FitsBelow(a + p, end, i);
  }

  /** The step of `ReadDownWellFormed` that takes a `2**i`-byte beat. */
  lemma ReadDownTake(source: nat, a: nat, end: nat, i: nat, W: nat, p: nat)
    requires IsPow2(W) && i <= Log2(W) && p == Pow2(i) && a % p == 0 && a + p <= end
    requires AllWellFormed(ReadDown(source, a + p, end, i, W).0, W)
    ensures AllWellFormed(ReadDown(source, a, end, i + 1, W).0, W)
  {
    ReadBeatWellFormed(source, a, i, W);
    ReadDownUnfold(source, a, end, i, W, p);
    AllWellFormedCons(ReadBeat(source, a, i, W), ReadDown(source, a + p, end, i, W).0, W);
  }

  /** One step of `ReadDown` that takes a `2**i`-byte beat. */
  lemma ReadDownUnfold(source: nat, a: nat, end: nat, i: nat, W: nat, p: nat)
    requires 1 <= W && p == Pow2(i) && a + p <= end
    ensures ReadDown(source, a, end, i + 1, W).0 == [ReadBeat(source, a, i, W)] + ReadDown(source, a + p, end, i, W).0
  {
  }

  /** One step of `ReadDown` where a `2**i`-byte beat does not fit. */
  lemma ReadDownSkip(source: nat, a: nat, end: nat, i: nat, W: nat, p: nat)
    requires 1 <= W && p == Pow2(i) && end < a + p
    ensures ReadDown(source, a, end, i + 1, W) == ReadDown(source, a, end, i, W)
  {
  }

  lemma AllWellFormedCons(b: APacket, rest: seq<APacket>, W: nat)
    requires WellFormed(b, W) && AllWellFormed(rest, W)
    ensures AllWellFormed([b] + rest, W)
  {
    assert ([b] + rest)[1..] == rest;
  }

  lemma AllWellFormedLegal(bs: seq<APacket>, W: nat)
    requires 1 <= W && AllWellFormed(bs, W)
    ensures forall k :: 0 <= k < |bs| ==> Legal(bs[k], W)
  {
    forall k | 0 <= k < |bs|
      ensures Legal(bs[k], W)
    {
      AllWellFormedAt(bs, W, k);
      WellFormedLegal(bs[k], W);
    }
  }

  /** A successful split's beats tile `[lo, hi)` and are well formed. */
  predicate Covers(r: Result<seq<APacket>>, lo: nat, hi: nat, W: nat)
  {
    r.Ok? ==> Tiles(r.value, lo, hi) && AllWellFormed(r.value, W)
  }

  lemma FinishCovers(cs: seq<APacket>, lo: nat, hi: nat, W: nat)
    requires Tiles(cs, lo, hi) && AllWellFormed(cs, W)
    ensures Covers(Finish(cs), lo, hi, W)
  {
  }

  /** The first two read phases together tile `[address, a2)`, and the
      second leaves less than a word, from a well-aligned address. */
  lemma ReadFirstPhases(source: nat, address: nat, end: nat, W: nat,
                        c1: seq<APacket>, a1: nat, c2: seq<APacket>, a2: nat)
    requires IsPow2(W) && address <= end
    requires c1 == ReadUp(source, address, end, 0, W).0 && a1 == ReadUp(source, address, end, 0, W).1
    requires c2 == ReadWords(source, a1, end, W).0 && a2 == ReadWords(source, a1, end, W).1
    ensures a2 <= end && end - a2 < W && Fits(a2, end)
    ensures Tiles(c1 + c2, address, a2) && AllWellFormed(c1 + c2, W)
  {
    ReadUpFacts(source, address, end, 0, W);
    ReadUpWellFormed(source, address, end, 0, W);
    ReadWordsFacts(source, a1, end, W);
    ReadWordsWellFormed(source, a1, end, W);
    TilesAppend(c1, c2, address, a1, a2);
    AllWellFormedAppend(c1, c2, W);
  }

  /** The third read phase tiles the rest with well-formed beats. */
  lemma ReadLastPhase(source: nat, address: nat, end: nat, W: nat,
                      c12: seq<APacket>, a2: nat, c3: seq<APacket>)
    requires IsPow2(W) && a2 <= end && end - a2 < W && Fits(a2, end)
    requires Tiles(c12, address, a2) && AllWellFormed(c12, W)
    requires c3 == ReadDown(source, a2, end, Log2(W) + 1, W).0
    ensures Tiles(c12 + c3, address, end) && AllWellFormed(c12 + c3, W)
  {
    var L := Log2(W);
    assert Pow2(L + 1) == 2 * W;
    ReadDownFacts(source, a2, end, L + 1, W);
    ReadDownWellFormed(source, a2, end, L + 1, W);
    TilesAppend(c12, c3, address, a2, end);
    AllWellFormedAppend(c12, c3, W);
  }

  /** A read that ends in the first phase. */
  lemma ReadCoversUp(source: nat, address: nat, length: nat, W: nat)
    requires IsPow2(W) && ReadUp(source, address, address + length, 0, W).1 >= address + length
    ensures Covers(Read(source, address, length, W), address, address + length, W)
  {
    var end := address + length;
    var c1 := ReadUp(source, address, end, 0, W).0;
    assert Read(source, address, length, W) == Finish(c1);
    ReadUpFacts(source, address, end, 0, W);
    ReadUpWellFormed(source, address, end, 0, W);
    FinishCovers(c1, address, end, W);
  }

  /** A read that ends in the second phase. */
  lemma ReadCoversWords(source: nat, address: nat, length: nat, W: nat, a1: nat)
    requires IsPow2(W) && a1 == ReadUp(source, address, address + length, 0, W).1
    requires a1 < address + length && ReadWords(source, a1, address + length, W).1 >= address + length
    ensures Covers(Read(source, address, length, W), address, address + length, W)
  {
    var end := address + length;
    var c1 := ReadUp(source, address, end, 0, W).0;
    var c2, a2 := ReadWords(source, a1, end, W).0, ReadWords(source, a1, end, W).1;
    assert Read(source, address, length, W) == Finish(c1 + c2);
    ReadUpFacts(source, address, end, 0, W);
    ReadFirstPhases(source, address, end, W, c1, a1, c2, a2);
    FinishCovers(c1 + c2, address, end, W);
  }

  /** A read that reaches the third phase. */
  lemma ReadCoversDown(source: nat, address: nat, length: nat, W: nat, a1: nat)
    requires IsPow2(W) && a1 == ReadUp(source, address, address + length, 0, W).1
    requires a1 < address + length && ReadWords(source, a1, address + length, W).1 < address + length
    ensures Covers(Read(source, address, length, W), address, address + length, W)
  {
    var end := address + length;
    var c1 := ReadUp(source, address, end, 0, W).0;
    var c2, a2 := ReadWords(source, a1, end, W).0, ReadWords(source, a1, end, W).1;
    var c3 := ReadDown(source, a2, end, Log2(W) + 1, W).0;
    ReadUpFacts(source, address, end, 0, W);
    ReadWordsFacts(source, a1, end, W);
    assert Pow2(Log2(W) + 1) == 2 * W;
    ReadDownFacts(source, a2, end, Log2(W) + 1, W);
    assert Read(source, address, length, W) == Finish(c1 + c2 + c3);
    ReadFirstPhases(source, address, end, W, c1, a1, c2, a2);
    ReadLastPhase(source, address, end, W, c1 + c2, a2, c3);
    FinishCovers(c1 + c2 + c3, address, end, W);
  }

  /** On a power-of-two bus the beats a read produces tile exactly the bytes
      asked for and are well formed. */
  lemma ReadCovers(source: nat, address: nat, length: nat, W: nat)
    requires IsPow2(W)
    ensures Covers(Read(source, address, length, W), address, address + length, W)
  {
    ReadCoversFrom(source, address, length, W, ReadUp(source, address, address + length, 0, W).1);
  }

  /** `ReadCovers`, by the phase the read ends in; `a1` is where the first
      phase stops. */
  lemma ReadCoversFrom(source: nat, address: nat, length: nat, W: nat, a1: nat)
    requires IsPow2(W) && a1 == ReadUp(source, address, address + length, 0, W).1
    ensures Covers(Read(source, address, length, W), address, address + length, W)
  {
    if a1 >= address + length {
      ReadCoversUp(source, address, length, W);
    } else if ReadWords(source, a1, address + length, W).1 >= address + length {
      ReadCoversWords(source, address, length, W, a1);
    } else {
      ReadCoversDown(source, address, length, W, a1);
    }
  }

  /** On a power-of-two bus the Get beats of a read cover exactly the bytes
      asked for, in order, and each passes the responder's checks. */
  lemma ReadSplit(source: nat, address: nat, length: nat, W: nat)
    requires IsPow2(W)
    ensures var r := Read(source, address, length, W);
      r.Ok? ==> Tiles(r.value, address, address + length)
                && forall k :: 0 <= k < |r.value| ==> Legal(r.value[k], W)
  {
    ReadCovers(source, address, length, W);
    var r := Read(source, address, length, W);
    if r.Ok? {
      AllWellFormedLegal(r.value, W);
    }
  }

  lemma {:induction false} WriteUpWellFormed(source: nat, vals: seq<Byte>, bits: seq<bool>, c: Cursor, i: nat, W: nat)
    requires IsPow2(W) && |vals| == |bits| && c.next <= |vals| && i <= Log2(W)
    requires c.address % Pow2(i) == 0 || c.next == |vals|
    ensures var (bs, d) := WriteUp(source, vals, bits, c, i, W);
      AllWellFormed(bs, W) && (d.address % W == 0 || d.next == |vals|)
    decreases Log2(W) - i
  {
    if Log2(W) > i {
      var (s, c') := UpStep(source, vals, bits, c, i, W);
      if s != [] {
        WriteBeatWellFormed(source, c.address, i, W, vals, bits, c.next, Min(Pow2(i), |vals| - c.next));
        assert s[1..] == [];
        AlignStep(c.address, i);
      } else if c.next < |vals| {
        AlignStep(c.address, i);
      }
      WriteUpWellFormed(source, vals, bits, c', i + 1, W);
      var (rest, d) := WriteUp(source, vals, bits, c', i + 1, W);
      AllWellFormedAppend(s, rest, W);
    }
  }

  lemma {:induction false} WriteWordsWellFormed(source: nat, vals: seq<Byte>, bits: seq<bool>, c: Cursor, W: nat)
    requires IsPow2(W) && |vals| == |bits| && c.next <= |vals| && c.address % W == 0
    ensures AllWellFormed(WriteWords(source, vals, bits, c, W).0, W)
    decreases |vals| - c.next
  {
    if W <= |vals| - c.next {
      var c' := Cursor(c.address + W, c.next + W);
      WordWriteBeatWellFormed(source, c.address, W, vals, bits, c.next);
      MulModZero(1, W);
      ModSumZero(c.address, W, W);
      WriteWordsWellFormed(source, vals, bits, c', W);
      var (rest, _) := WriteWords(source, vals, bits, c', W);
      assert ([WordWriteBeat(source, c.address, W, vals, bits, c.next)] + rest)[1..] == rest;
    }
  }

  lemma {:induction false} WriteDownWellFormed(source: nat, vals: seq<Byte>, bits: seq<bool>, c: Cursor, k: nat, W: nat)
    requires IsPow2(W) && |vals| == |bits| && c.next <= |vals| && k <= Log2(W) + 1
    requires k == 0 || c.address % Pow2(k - 1) == 0
    ensures AllWellFormed(WriteDown(source, vals, bits, c, k, W).0, W)
    decreases k
  {
    if k != 0 {
      var i := k - 1;
      var c' := DownStep(source, vals, bits, c, i, W).1;
      DownStepAligned(source, vals, bits, c, i, W);
      WriteDownWellFormed(source, vals, bits, c', i, W);
      WriteDownStepWellFormed(source, vals, bits, c, i, W);
    }
  }

  /** After a beat of size `i` from a `2**i`-aligned address, the cursor is
      still aligned for the next, smaller size. */
  lemma DownStepAligned(source: nat, vals: seq<Byte>, bits: seq<bool>, c: Cursor, i: nat, W: nat)
    requires 1 <= W && |vals| == |bits| && c.next <= |vals| && c.address % Pow2(i) == 0
    ensures i == 0 || DownStep(source, vals, bits, c, i, W).1.address % Pow2(i - 1) == 0
  {
    var (s, c') := DownStep(source, vals, bits, c, i, W);
    if s != [] {
      MulModZero(1, Pow2(i));
      ModSumZero(c.address, Pow2(i), Pow2(i));
    }
    if i != 0 {
      AlignedSmaller(c'.address, i - 1, i);
    }
  }

  /** The step of `WriteDownWellFormed`: the beat of bit `i`, if any, is
      well formed. */
  lemma WriteDownStepWellFormed(source: nat, vals: seq<Byte>, bits: seq<bool>, c: Cursor, i: nat, W: nat)
    requires IsPow2(W) && |vals| == |bits| && c.next <= |vals| && i <= Log2(W)
    requires c.address % Pow2(i) == 0
    requires AllWellFormed(WriteDown(source, vals, bits, DownStep(source, vals, bits, c, i, W).1, i, W).0, W)
    ensures AllWellFormed(WriteDown(source, vals, bits, c, i + 1, W).0, W)
  {
    var (s, c') := DownStep(source, vals, bits, c, i, W);
    if s != [] {
      BitAtLeast(|vals| - c.next, i);
      WriteBeatWellFormed(source, c.address, i, W, vals, bits, c.next, Pow2(i));
      assert s[1..] == [];
    }
    var (rest, _) := WriteDown(source, vals, bits, c', i, W);
    AllWellFormedAppend(s, rest, W);
  }

  /** A successful write split's beats carry all of `vals` from `address`
      and are well formed. */
  predicate WriteCovers(r: Result<seq<APacket>>, address: nat, vals: seq<Byte>, bits: seq<bool>, W: nat)
    requires 1 <= W
  {
    r.Ok? ==> WriteTiles(r.value, address, vals, bits, 0, |vals|, W) && AllWellFormed(r.value, W)
  }

  lemma FinishWriteCovers(cs: seq<APacket>, address: nat, vals: seq<Byte>, bits: seq<bool>, W: nat)
    requires 1 <= W && WriteTiles(cs, address, vals, bits, 0, |vals|, W) && AllWellFormed(cs, W)
    ensures WriteCovers(Finish(cs), address, vals, bits, W)
  {
  }

  /** The first two write phases carry bytes `0 .. d2.next` with
      well-formed beats and stop at a word boundary. */
  lemma WriteFirstPhases(source: nat, address: nat, vals: seq<Byte>, bits: seq<bool>, W: nat,
                         c1: seq<APacket>, d1: Cursor, c2: seq<APacket>, d2: Cursor)
    requires IsPow2(W) && |vals| == |bits|
    requires c1 == WriteUp(source, vals, bits, Cursor(address, 0), 0, W).0
    requires d1 == WriteUp(source, vals, bits, Cursor(address, 0), 0, W).1
    requires d1.address < address + |vals|
    requires c2 == WriteWords(source, vals, bits, d1, W).0
    requires d2 == WriteWords(source, vals, bits, d1, W).1
    ensures d2.next <= |vals| && |vals| - d2.next < W
    ensures d2.address == address + d2.next && d2.address == address + Span(c1 + c2) && d2.address % W == 0
    ensures WriteTiles(c1 + c2, address, vals, bits, 0, d2.next, W) && AllWellFormed(c1 + c2, W)
  {
    var c0 := Cursor(address, 0);
    WriteUpFacts(source, vals, bits, c0, 0, W);
    WriteUpTiles(source, vals, bits, c0, 0, W);
    WriteUpWellFormed(source, vals, bits, c0, 0, W);
    WriteWordsFacts(source, vals, bits, d1, W);
    WriteWordsTiles(source, vals, bits, d1, W);
    WriteWordsWellFormed(source, vals, bits, d1, W);
    WriteTilesAppend(c1, c2, address, d1.address, vals, bits, 0, d1.next, d2.next, W);
    SpanAppend(c1, c2);
    AllWellFormedAppend(c1, c2, W);
  }

  /** The third write phase carries the rest of the bytes. */
  lemma WriteLastTiles(source: nat, address: nat, vals: seq<Byte>, bits: seq<bool>, W: nat,
                       c12: seq<APacket>, d2: Cursor, k: nat, c3: seq<APacket>)
    requires 1 <= W && |vals| == |bits| && d2.next <= |vals| && |vals| - d2.next < Pow2(k)
    requires k <= Log2(W) + 1
    requires d2.address == address + Span(c12)
    requires WriteTiles(c12, address, vals, bits, 0, d2.next, W)
    requires c3 == WriteDown(source, vals, bits, d2, k, W).0
    ensures WriteTiles(c12 + c3, address, vals, bits, 0, |vals|, W)
  {
    var d3 := WriteDown(source, vals, bits, d2, k, W).1;
    WriteDownFacts(source, vals, bits, d2, k, W);
    WriteDownTiles(source, vals, bits, d2, k, W);
    WriteTilesAppend(c12, c3, address, d2.address, vals, bits, 0, d2.next, d3.next, W);
  }

  /** The third write phase from a word boundary has well-formed beats. */
  lemma WriteLastWellFormed(source: nat, vals: seq<Byte>, bits: seq<bool>, W: nat,
                            c12: seq<APacket>, d2: Cursor, c3: seq<APacket>)
    requires IsPow2(W) && |vals| == |bits| && d2.next <= |vals| && d2.address % W == 0
    requires AllWellFormed(c12, W)
    requires c3 == WriteDown(source, vals, bits, d2, Log2(W) + 1, W).0
    ensures AllWellFormed(c12 + c3, W)
  {
    WriteDownWellFormed(source, vals, bits, d2, Log2(W) + 1, W);
    AllWellFormedAppend(c12, c3, W);
  }

  /** A write that ends in the first phase. */
  lemma WriteCoversUp(source: nat, address: nat, vals: seq<Byte>, bits: seq<bool>, W: nat)
    requires IsPow2(W) && |vals| == |bits|
    requires WriteUp(source, vals, bits, Cursor(address, 0), 0, W).1.address >= address + |vals|
    ensures WriteCovers(Write(source, address, |vals|, vals, bits, W), address, vals, bits, W)
  {
    var c0 := Cursor(address, 0);
    var c1 := WriteUp(source, vals, bits, c0, 0, W).0;
    assert Write(source, address, |vals|, vals, bits, W) == Finish(c1);
    WriteUpFacts(source, vals, bits, c0, 0, W);
    WriteUpTiles(source, vals, bits, c0, 0, W);
    WriteUpWellFormed(source, vals, bits, c0, 0, W);
    assert WriteUp(source, vals, bits, c0, 0, W).1.next == |vals|;
    FinishWriteCovers(c1, address, vals, bits, W);
  }

  /** A write that ends in the second phase. */
  lemma WriteCoversWords(source: nat, address: nat, vals: seq<Byte>, bits: seq<bool>, W: nat, d1: Cursor)
    requires IsPow2(W) && |vals| == |bits|
    requires d1 == WriteUp(source, vals, bits, Cursor(address, 0), 0, W).1
    requires d1.address < address + |vals| && d1.next <= |vals|
    requires WriteWords(source, vals, bits, d1, W).1.address >= address + |vals|
    ensures WriteCovers(Write(source, address, |vals|, vals, bits, W), address, vals, bits, W)
  {
    var c1 := WriteUp(source, vals, bits, Cursor(address, 0), 0, W).0;
    var c2, d2 := WriteWords(source, vals, bits, d1, W).0, WriteWords(source, vals, bits, d1, W).1;
    assert Write(source, address, |vals|, vals, bits, W) == Finish(c1 + c2);
    WriteFirstPhases(source, address, vals, bits, W, c1, d1, c2, d2);
    assert d2.next == |vals|;
    FinishWriteCovers(c1 + c2, address, vals, bits, W);
  }

  /** After the first two phases, finishing with the third covers the write. */
  lemma WriteLastCovers(source: nat, address: nat, vals: seq<Byte>, bits: seq<bool>, W: nat,
                        c12: seq<APacket>, d2: Cursor, c3: seq<APacket>)
    requires IsPow2(W) && |vals| == |bits| && d2.next <= |vals| && |vals| - d2.next < W
    requires d2.address == address + Span(c12) && d2.address % W == 0
    requires WriteTiles(c12, address, vals, bits, 0, d2.next, W) && AllWellFormed(c12, W)
    requires c3 == WriteDown(source, vals, bits, d2, Log2(W) + 1, W).0
    ensures WriteCovers(Finish(c12 + c3), address, vals, bits, W)
  {
    var L := Log2(W);
    Pow2Succ(L);
    WriteLastTiles(source, address, vals, bits, W, c12, d2, L + 1, c3);
    WriteLastWellFormed(source, vals, bits, W, c12, d2, c3);
    FinishWriteCovers(c12 + c3, address, vals, bits, W);
  }

  /** A write that reaches the third phase. */
  lemma WriteCoversDown(source: nat, address: nat, vals: seq<Byte>, bits: seq<bool>, W: nat, d1: Cursor)
    requires IsPow2(W) && |vals| == |bits|
    requires d1 == WriteUp(source, vals, bits, Cursor(address, 0), 0, W).1
    requires d1.address < address + |vals| && d1.next <= |vals|
    requires WriteWords(source, vals, bits, d1, W).1.address < address + |vals|
    ensures WriteCovers(Write(source, address, |vals|, vals, bits, W), address, vals, bits, W)
  {
    var c1 := WriteUp(source, vals, bits, Cursor(address, 0), 0, W).0;
    var c2, d2 := WriteWords(source, vals, bits, d1, W).0, WriteWords(source, vals, bits, d1, W).1;
    var c3 := WriteDown(source, vals, bits, d2, Log2(W) + 1, W).0;
    WriteFirstPhases(source, address, vals, bits, W, c1, d1, c2, d2);
    WriteThreePhases(source, address, vals, bits, W, c1, d1, c2, d2, c3);
    WriteLastCovers(source, address, vals, bits, W, c1 + c2, d2, c3);
  }

  /** A write whose first two phases stop short of the end is the three
      phases' beats together. */
  lemma WriteThreePhases(source: nat, address: nat, vals: seq<Byte>, bits: seq<bool>, W: nat,
                         c1: seq<APacket>, d1: Cursor, c2: seq<APacket>, d2: Cursor, c3: seq<APacket>)
    requires 1 <= W && |vals| == |bits|
    requires (c1, d1) == WriteUp(source, vals, bits, Cursor(address, 0), 0, W)
    requires d1.address < address + |vals| && d1.next <= |vals|
    requires (c2, d2) == WriteWords(source, vals, bits, d1, W) && d2.address < address + |vals|
    requires c3 == WriteDown(source, vals, bits, d2, Log2(W) + 1, W).0
    ensures Write(source, address, |vals|, vals, bits, W) == Finish(c1 + c2 + c3)
  {
  }

  /** On a power-of-two bus the beats a write produces carry `vals` in
      order, each at its own address, and are well formed. */
  lemma WriteCoversAll(source: nat, address: nat, vals: seq<Byte>, bits: seq<bool>, W: nat)
    requires IsPow2(W) && |vals| == |bits|
    ensures WriteCovers(Write(source, address, |vals|, vals, bits, W), address, vals, bits, W)
  {
    var d1 := WriteUp(source, vals, bits, Cursor(address, 0), 0, W).1;
    if d1.address >= address + |vals| {
      WriteCoversUp(source, address, vals, bits, W);
    } else if WriteWords(source, vals, bits, d1, W).1.address >= address + |vals| {
      WriteCoversWords(source, address, vals, bits, W, d1);
    } else {
      WriteCoversDown(source, address, vals, bits, W, d1);
    }
  }

  /** On a power-of-two bus the Put beats of a write carry every byte of
      `vals` exactly once, in order, each at its own address, and each passes
      the responder's checks; a whole-word beat is PutFullData exactly when
      all of its lanes are enabled, and a smaller beat is PutPartialData. */
  lemma WriteSplit(source: nat, address: nat, vals: seq<Byte>, bits: seq<bool>, W: nat)
    requires IsPow2(W) && |vals| == |bits|
    ensures var r := Write(source, address, |vals|, vals, bits, W);
      r.Ok? ==> WriteTiles(r.value, address, vals, bits, 0, |vals|, W)
                && forall k :: 0 <= k < |r.value| ==>
                     Legal(r.value[k], W)
                     && (Pow2(r.value[k].size) == W ==>
                           r.value[k].opcode == GetWriteOpcode(Log2(W), W, r.value[k].mask))
                     && (Pow2(r.value[k].size) < W ==> r.value[k].opcode == PutPartialData)
  {
    WriteCoversAll(source, address, vals, bits, W);
    WriteOpcodes(source, address, |vals|, vals, bits, W);
    var r := Write(source, address, |vals|, vals, bits, W);
    if r.Ok? {
      AllWellFormedLegal(r.value, W);
      forall k | 0 <= k < |r.value| && Pow2(r.value[k].size) == W
        ensures r.value[k].size == Log2(W)
      {
        Pow2Inj(r.value[k].size, Log2(W));
      }
    }
  }

  // ----------------------------------------------------------------------
  // Write opcodes

  lemma PutOpcodesAppend(b1: seq<APacket>, b2: seq<APacket>, W: nat)
    requires PutOpcodes(b1, W) && PutOpcodes(b2, W)
    ensures PutOpcodes(b1 + b2, W)
  {
    forall k | 0 <= k < |b1 + b2|
      ensures PutOpcode((b1 + b2)[k], W)
    {
      if k < |b1| {
        assert (b1 + b2)[k] == b1[k];
      } else {
        assert (b1 + b2)[k] == b2[k - |b1|];
      }
    }
  }

  /** The first phase only makes beats smaller than a word. */
  lemma {:induction false} WriteUpOpcodes(source: nat, vals: seq<Byte>, bits: seq<bool>, c: Cursor, i: nat, W: nat)
    requires 1 <= W && |vals| == |bits| && c.next <= |vals|
    ensures PutOpcodes(WriteUp(source, vals, bits, c, i, W).0, W)
    decreases Log2(W) - i
  {
    if Log2(W) > i {
      var (s, c') := UpStep(source, vals, bits, c, i, W);
      Pow2Strict(i, Log2(W));
      WriteUpOpcodes(source, vals, bits, c', i + 1, W);
      var (rest, _) := WriteUp(source, vals, bits, c', i + 1, W);
      PutOpcodesAppend(s, rest, W);
    }
  }

  /** The second phase makes whole-word beats with `get_write_opcode`. */
  lemma {:induction false} WriteWordsOpcodes(source: nat, vals: seq<Byte>, bits: seq<bool>, c: Cursor, W: nat)
    requires 1 <= W && |vals| == |bits| && c.next <= |vals|
    ensures PutOpcodes(WriteWords(source, vals, bits, c, W).0, W)
    decreases |vals| - c.next
  {
    if W <= |vals| - c.next {
      var beat := WordWriteBeat(source, c.address, W, vals, bits, c.next);
      var c' := Cursor(c.address + W, c.next + W);
      WriteWordsOpcodes(source, vals, bits, c', W);
      var (rest, _) := WriteWords(source, vals, bits, c', W);
      assert PutOpcode(beat, W);
      PutOpcodesAppend([beat], rest, W);
    }
  }

  /** The third phase, once fewer than `W` bytes remain, only makes beats
      smaller than a word. */
  lemma {:induction false} WriteDownOpcodes(source: nat, vals: seq<Byte>, bits: seq<bool>, c: Cursor, k: nat, W: nat)
    requires 1 <= W && |vals| == |bits| && c.next <= |vals| && |vals| - c.next < W
    ensures PutOpcodes(WriteDown(source, vals, bits, c, k, W).0, W)
    decreases k
  {
    if k != 0 {
      var (s, c') := DownStep(source, vals, bits, c, k - 1, W);
      BitAtLeast(|vals| - c.next, k - 1);
      WriteDownOpcodes(source, vals, bits, c', k - 1, W);
      var (rest, _) := WriteDown(source, vals, bits, c', k - 1, W);
      PutOpcodesAppend(s, rest, W);
    }
  }

  /** On any bus at least a byte wide, every beat of a write has the opcode
      `write` chooses: `get_write_opcode` for whole words, PutPartialData
      below. */
  lemma WriteOpcodes(source: nat, address: nat, length: nat, vals: seq<Byte>, bits: seq<bool>, W: nat)
    requires 1 <= W
    ensures var r := Write(source, address, length, vals, bits, W);
      r.Ok? ==> PutOpcodes(r.value, W)
  {
    if length == |vals| && length == |bits| {
      var c0 := Cursor(address, 0);
      var (c1, d1) := WriteUp(source, vals, bits, c0, 0, W);
      WriteUpOpcodes(source, vals, bits, c0, 0, W);
      var (c2, d2) := WriteWords(source, vals, bits, d1, W);
      WriteWordsOpcodes(source, vals, bits, d1, W);
      WriteWordsFacts(source, vals, bits, d1, W);
      var c3 := WriteDown(source, vals, bits, d2, Log2(W) + 1, W).0;
      WriteDownOpcodes(source, vals, bits, d2, Log2(W) + 1, W);
      PutOpcodesAppend(c1, c2, W);
      PutOpcodesAppend(c1 + c2, c3, W);
    }
  }
}
