/** The test benches' end-to-end claims, at transaction level: the beats the
    simple master cuts a write or a read into, served one after the other
    by the memory-backed responder, store exactly the enabled bytes and read
    back exactly the bytes in memory.  Addresses are assumed not to wrap
    around the responder's address space. */
module RoundTrip {
  import opened Bits
  import opened TileLinkTypes
  import Splitter
  import Slave
  import Oracles

  /** The responder serving `beats` in order, each response collected; the
      first rejected beat is the error. */
  function ServeAll(cfg: Slave.Config, mem: map<int, Byte>, beats: seq<APacket>)
    : (r: Result<(map<int, Byte>, seq<DPacket>)>)
    decreases |beats|
    ensures r.Ok? ==> |r.value.1| == |beats|
    ensures r.Ok? ==> forall k :: 0 <= k < |beats| ==> r.value.1[k].size == beats[k].size
  {
    if beats == [] then Ok((mem, []))
    else
      var first := Slave.Serve(cfg, mem, beats[0]);
      if first.Err? then Err(first.error)
      else
        var rest := ServeAll(cfg, first.value.0, beats[1..]);
        if rest.Err? then Err(rest.error)
        else Ok((rest.value.0, [first.value.1] + rest.value.1))
  }

  /** Byte `k` after the bytes `from .. to - 1` of `vals` were written at
      `base + from ..` with enables `bits`. */
  function MaskedByte(mem: map<int, Byte>, base: nat, vals: seq<Byte>, bits: seq<bool>, from: nat, to: nat, k: int)
    : Byte
    requires to <= |vals| == |bits|
  {
    if base + from <= k < base + to && bits[k - base] then vals[k - base] else Slave.ByteAt(mem, k)
  }

  /** Every beat passes the responder's checks and is a Get exactly when
      `get`. */
  predicate AllLegal(beats: seq<APacket>, W: nat, get: bool)
    decreases |beats|
  {
    beats == [] || (Legal(beats[0], W) && (beats[0].opcode == Get <==> get) && AllLegal(beats[1..], W, get))
  }

  lemma {:induction false} AllLegalEach(beats: seq<APacket>, W: nat, get: bool)
    requires forall k :: 0 <= k < |beats| ==> Legal(beats[k], W) && (beats[k].opcode == Get <==> get)
    ensures AllLegal(beats, W, get)
    decreases |beats|
  {
    if beats != [] {
      assert Legal(beats[0], W);
      forall k | 0 <= k < |beats| - 1
        ensures Legal(beats[1..][k], W) && (beats[1..][k].opcode == Get <==> get)
      {
        assert beats[1..][k] == beats[k + 1];
      }
      AllLegalEach(beats[1..], W, get);
    }
  }

  /** A Get beat both of the responder's checks accept, spelled out: its
      size fits the bus, its address is aligned to it, and its mask is the
      run of `2**size` lanes from the address's offset in the bus word. */
  predicate GoodRead(b: APacket, W: nat)
  {
    b.opcode == Get && 0 <= b.size && Pow2(b.size) <= W && b.address % Pow2(b.size) == 0
    && b.mask == RunMask(Pow2(b.size), b.address % W)
  }

  /** A spelled-out read is exactly a legal Get. */
  lemma GoodReadLegal(b: APacket, W: nat)
    requires 1 <= W
    ensures GoodRead(b, W) <==> Legal(b, W) && b.opcode == Get
  {
  }

  /** Every beat is a spelled-out read. */
  predicate AllReads(beats: seq<APacket>, W: nat)
    decreases |beats|
  {
    beats == [] || (GoodRead(beats[0], W) && AllReads(beats[1..], W))
  }

  lemma {:induction false} AllReadsEach(beats: seq<APacket>, W: nat)
    requires forall k :: 0 <= k < |beats| ==> GoodRead(beats[k], W)
    ensures AllReads(beats, W)
    decreases |beats|
  {
    if beats != [] {
      assert GoodRead(beats[0], W);
      forall k | 0 <= k < |beats| - 1
        ensures GoodRead(beats[1..][k], W)
      {
        assert beats[1..][k] == beats[k + 1];
      }
      AllReadsEach(beats[1..], W);
    }
  }

  /** Below the memory size the responder sees the beat unchanged. */
  lemma SeenSame(cfg: Slave.Config, b: APacket)
    requires b.address < cfg.size
    ensures Slave.Seen(cfg, b) == b
  {
    DivModUnique(b.address, cfg.size, 0, b.address);
  }

  /** One legal write beat carrying bytes `from .. from + n - 1`. */
  lemma ServeWriteBeat(cfg: Slave.Config, mem: map<int, Byte>, b: APacket, vals: seq<Byte>, bits: seq<bool>,
                       from: nat, n: nat, base: nat)
    requires 1 <= cfg.width && b.address < cfg.size && Legal(b, cfg.width) && b.opcode != Get
    requires b.address == base + from && n <= Pow2(b.size) && from + n <= |vals| == |bits|
    requires Splitter.Carries(b, vals, bits, from, n, cfg.width)
    ensures Slave.Serve(cfg, mem, b).Ok?
    ensures forall k :: Slave.ByteAt(Slave.Serve(cfg, mem, b).value.0, k)
                        == MaskedByte(mem, base, vals, bits, from, from + n, k)
  {
    SeenSame(cfg, b);
    DivModUnique(b.address, cfg.size, 0, b.address);
    var mem2 := Slave.Serve(cfg, mem, b).value.0;
    var off := b.address % cfg.width;
    forall k
      ensures Slave.ByteAt(mem2, k) == MaskedByte(mem, base, vals, bits, from, from + n, k)
    {
      Slave.ServeWrite(cfg, mem, b, k);
      if b.address <= k < b.address + Pow2(b.size) {
        Splitter.CarriedLanes(b, vals, bits, from, n, cfg.width, off + (k - b.address));
      }
    }
  }

  /** The beats of a write, served in order, leave every byte enabled in
      `from .. to - 1` holding its value and every other byte as it was. */
  lemma {:induction false} ServeWriteTiles(cfg: Slave.Config, mem: map<int, Byte>, beats: seq<APacket>, lo: nat,
                                           vals: seq<Byte>, bits: seq<bool>, from: nat, to: nat, base: nat)
    requires 1 <= cfg.width && Splitter.WriteTiles(beats, lo, vals, bits, from, to, cfg.width)
    requires lo == base + from && base + to <= cfg.size
    requires AllLegal(beats, cfg.width, false)
    decreases |beats|
    ensures ServeAll(cfg, mem, beats).Ok?
    ensures forall k :: Slave.ByteAt(ServeAll(cfg, mem, beats).value.0, k)
                        == MaskedByte(mem, base, vals, bits, from, to, k)
  {
    if beats != [] {
      var b := beats[0];
      var n := Splitter.Min(Pow2(b.size), |vals| - from);
      ServeWriteBeat(cfg, mem, b, vals, bits, from, n, base);
      var mem1 := Slave.Serve(cfg, mem, b).value.0;
      var rest := beats[1..];
      if rest == [] {
        assert from + n == to;
      } else {
        assert n == Pow2(b.size);
        ServeWriteTiles(cfg, mem1, rest, lo + Pow2(b.size), vals, bits, from + n, to, base);
      }
    }
  }

  /** Bytes a read gathers from memories a dump cannot tell apart agree,
      and a gather splits where a beat ends. */
  lemma GatherSplit(m1: map<int, Byte>, m2: map<int, Byte>, lo: nat, mid: nat, hi: nat)
    requires Slave.SameBytes(m1, m2) && lo <= mid <= hi
    ensures Slave.Gather(m1, lo, hi - lo) == Slave.Gather(m1, lo, mid - lo) + Slave.Gather(m2, mid, hi - mid)
  {
    var g := Slave.Gather(m1, lo, hi - lo);
    var h := Slave.Gather(m1, lo, mid - lo) + Slave.Gather(m2, mid, hi - mid);
    forall i | 0 <= i < hi - lo
      ensures g[i] == h[i]
    {
      if mid - lo <= i {
        assert h[i] == Slave.Gather(m2, mid, hi - mid)[i - (mid - lo)];
      }
    }
  }

  /** One legal Get beat: the response carries, from the address's lane on,
      the bytes at the address, and no byte changes. */
  lemma ServeReadBeat(cfg: Slave.Config, mem: map<int, Byte>, b: APacket) returns (mem2: map<int, Byte>, d: DPacket)
    requires 1 <= cfg.width && b.address < cfg.size && GoodRead(b, cfg.width)
    ensures Slave.Serve(cfg, mem, b) == Ok((mem2, d)) && d.size == b.size
    ensures Slave.SameBytes(mem, mem2)
    ensures Oracles.Chunk(d.data, b.address % cfg.width, Pow2(b.size)) == Slave.Gather(mem, b.address, Pow2(b.size))
  {
    GoodReadLegal(b, cfg.width);
    SeenSame(cfg, b);
    DivModUnique(b.address, cfg.size, 0, b.address);
    mem2, d := Slave.Serve(cfg, mem, b).value.0, Slave.Serve(cfg, mem, b).value.1;
    var off := b.address % cfg.width;
    var c := Oracles.Chunk(d.data, off, Pow2(b.size));
    forall j | 0 <= j < Pow2(b.size)
      ensures c[j] == Slave.Gather(mem, b.address, Pow2(b.size))[j]
    {
      Slave.ServeRead(cfg, mem, b, off + j);
    }
    Slave.ServeRead(cfg, mem, b, 0);
  }

  /** What the first beat of a tiling of legal reads tells about it and
      about the rest. */
  lemma ReadHead(beats: seq<APacket>, lo: nat, hi: nat, W: nat)
    requires beats != [] && Splitter.Tiles(beats, lo, hi) && AllReads(beats, W)
    ensures beats[0].address == lo && lo + Pow2(beats[0].size) <= hi && GoodRead(beats[0], W)
    ensures Splitter.Tiles(beats[1..], lo + Pow2(beats[0].size), hi) && AllReads(beats[1..], W)
  {
    Splitter.TilesSpan(beats[1..], lo + Pow2(beats[0].size), hi);
  }

  /** Serving a non-empty list of beats is serving the first and then the
      rest. */
  lemma ServeAllCons(cfg: Slave.Config, mem: map<int, Byte>, beats: seq<APacket>,
                     first: (map<int, Byte>, DPacket), later: (map<int, Byte>, seq<DPacket>))
    requires beats != [] && Slave.Serve(cfg, mem, beats[0]) == Ok(first)
    requires ServeAll(cfg, first.0, beats[1..]) == Ok(later)
    ensures ServeAll(cfg, mem, beats) == Ok((later.0, [first.1] + later.1))
  {
  }

  /** The beats of a read, served in order, bring back exactly the bytes
      `lo .. hi - 1` of memory. */
  lemma {:induction false} ServeReadTiles(cfg: Slave.Config, mem: map<int, Byte>, beats: seq<APacket>, lo: nat, hi: nat)
    requires 1 <= cfg.width && Splitter.Tiles(beats, lo, hi) && hi <= cfg.size
    requires AllReads(beats, cfg.width)
    decreases |beats|
    ensures lo <= hi && ServeAll(cfg, mem, beats).Ok?
    ensures Oracles.ConvertToIntList(ServeAll(cfg, mem, beats).value.1, lo, cfg.width) == Slave.Gather(mem, lo, hi - lo)
  {
    Splitter.TilesSpan(beats, lo, hi);
    if beats != [] {
      ReadHead(beats, lo, hi, cfg.width);
      var mid := lo + Pow2(beats[0].size);
      var mem1, d := ServeReadBeat(cfg, mem, beats[0]);
      ServeReadTiles(cfg, mem1, beats[1..], mid, hi);
      var later := ServeAll(cfg, mem1, beats[1..]).value;
      ServeAllCons(cfg, mem, beats, (mem1, d), later);
      ReadDataStep(mem, mem1, d, later.1, lo, mid, hi, cfg.width);
    }
  }

  /** The first response's bytes followed by the rest's are the gathered
      range. */
  lemma ReadDataStep(mem: map<int, Byte>, mem1: map<int, Byte>, d: DPacket, ds: seq<DPacket>,
                     lo: nat, mid: nat, hi: nat, W: nat)
    requires 1 <= W && lo + Pow2(d.size) == mid <= hi && Slave.SameBytes(mem, mem1)
    requires Oracles.Chunk(d.data, lo % W, Pow2(d.size)) == Slave.Gather(mem, lo, Pow2(d.size))
    requires Oracles.ConvertToIntList(ds, mid, W) == Slave.Gather(mem1, mid, hi - mid)
    ensures Oracles.ConvertToIntList([d] + ds, lo, W) == Slave.Gather(mem, lo, hi - lo)
  {
    var all := [d] + ds;
    assert all[0] == d && all[1..] == ds;
    assert Oracles.ConvertToIntList(all, lo, W)
        == Oracles.Chunk(d.data, lo % W, mid - lo) + Oracles.ConvertToIntList(ds, mid, W);
    GatherSplit(mem, mem1, lo, mid, hi);
  }

  /** Serving the beats of a read changes no byte. */
  lemma {:induction false} ServeReadKeeps(cfg: Slave.Config, mem: map<int, Byte>, beats: seq<APacket>, lo: nat, hi: nat)
    requires 1 <= cfg.width && Splitter.Tiles(beats, lo, hi) && hi <= cfg.size
    requires AllReads(beats, cfg.width)
    decreases |beats|
    ensures ServeAll(cfg, mem, beats).Ok? && Slave.SameBytes(mem, ServeAll(cfg, mem, beats).value.0)
  {
    if beats != [] {
      ReadHead(beats, lo, hi, cfg.width);
      var mem1, d := ServeReadBeat(cfg, mem, beats[0]);
      ServeReadKeeps(cfg, mem1, beats[1..], lo + Pow2(beats[0].size), hi);
      ServeAllCons(cfg, mem, beats, (mem1, d), ServeAll(cfg, mem1, beats[1..]).value);
    }
  }

  // ----------------------------------------------------------------------
  // Whole transactions

  /** `write(address, len(vals), vals, bits)` on the simple master, run to
      completion against the responder: the memory afterwards. */
  function DoWrite(cfg: Slave.Config, mem: map<int, Byte>, source: nat, address: nat, vals: seq<Byte>, bits: seq<bool>)
    : Result<map<int, Byte>>
    requires 1 <= cfg.width
  {
    var beats := Splitter.Write(source, address, |vals|, vals, bits, cfg.width);
    if beats.Err? then Err(beats.error)
    else
      var served := ServeAll(cfg, mem, beats.value);
      if served.Err? then Err(served.error) else Ok(served.value.0)
  }

  /** `read(address, length)` on the simple master, run to completion, and
      its responses turned into bytes with `conver_to_int_list`: the memory
      afterwards and the bytes read. */
  function DoRead(cfg: Slave.Config, mem: map<int, Byte>, source: nat, address: nat, length: nat)
    : Result<(map<int, Byte>, seq<Byte>)>
    requires 1 <= cfg.width
  {
    var beats := Splitter.Read(source, address, length, cfg.width);
    if beats.Err? then Err(beats.error)
    else
      var served := ServeAll(cfg, mem, beats.value);
      if served.Err? then Err(served.error)
      else Ok((served.value.0, Oracles.ConvertToIntList(served.value.1, address, cfg.width)))
  }

  /** The simple master's write beats tile the range, carry the bytes and
      enables, and are all legal Puts. */
  lemma WriteBeats(source: nat, address: nat, vals: seq<Byte>, bits: seq<bool>, W: nat)
    requires IsPow2(W) && |vals| == |bits| && 0 < |vals|
    ensures Splitter.Write(source, address, |vals|, vals, bits, W).Ok?
    ensures Splitter.WriteTiles(Splitter.Write(source, address, |vals|, vals, bits, W).value,
                                address, vals, bits, 0, |vals|, W)
    ensures AllLegal(Splitter.Write(source, address, |vals|, vals, bits, W).value, W, false)
  {
    Splitter.WriteSplit(source, address, vals, bits, W);
    var beats := Splitter.Write(source, address, |vals|, vals, bits, W).value;
    forall k | 0 <= k < |beats|
      ensures Legal(beats[k], W) && (beats[k].opcode == Get <==> false)
    {
      Splitter.BeatsAt(beats, false, source, Log2(W), k);
    }
    AllLegalEach(beats, W, false);
  }

  /** A write through the simple master: every byte of the range whose
      enable is set takes its value, every other byte keeps it. */
  lemma WriteRoundTrip(cfg: Slave.Config, mem: map<int, Byte>, source: nat, address: nat,
                       vals: seq<Byte>, bits: seq<bool>)
    requires IsPow2(cfg.width) && |vals| == |bits| && 0 < |vals| && address + |vals| <= cfg.size
    ensures DoWrite(cfg, mem, source, address, vals, bits).Ok?
    ensures forall k :: Slave.ByteAt(DoWrite(cfg, mem, source, address, vals, bits).value, k)
                        == MaskedByte(mem, address, vals, bits, 0, |vals|, k)
  {
    WriteBeats(source, address, vals, bits, cfg.width);
    var beats := Splitter.Write(source, address, |vals|, vals, bits, cfg.width).value;
    ServeWriteTiles(cfg, mem, beats, address, vals, bits, 0, |vals|, address);
  }

  /** A read through the simple master, turned back into bytes with
      `conver_to_int_list`, is the memory's bytes; no byte changes. */
  lemma ReadRoundTrip(cfg: Slave.Config, mem: map<int, Byte>, source: nat, address: nat, length: nat)
    requires IsPow2(cfg.width) && 0 < length && address + length <= cfg.size
    ensures DoRead(cfg, mem, source, address, length).Ok?
    ensures Slave.SameBytes(mem, DoRead(cfg, mem, source, address, length).value.0)
    ensures DoRead(cfg, mem, source, address, length).value.1 == Slave.Gather(mem, address, length)
  {
    ReadBeats(source, address, length, cfg.width);
    var beats := Splitter.Read(source, address, length, cfg.width).value;
    var hi := address + length;
    ReadServed(cfg, mem, beats, address, hi, length);
    var served := ServeAll(cfg, mem, beats).value;
    DoReadIs(cfg, mem, source, address, length, beats, served);
  }

  /** The read beats, served, keep memory and bring back its bytes. */
  lemma ReadServed(cfg: Slave.Config, mem: map<int, Byte>, beats: seq<APacket>, lo: nat, hi: nat, length: nat)
    requires 1 <= cfg.width && Splitter.Tiles(beats, lo, hi) && hi <= cfg.size && hi == lo + length
    requires AllReads(beats, cfg.width)
    ensures ServeAll(cfg, mem, beats).Ok?
    ensures Slave.SameBytes(mem, ServeAll(cfg, mem, beats).value.0)
    ensures Oracles.ConvertToIntList(ServeAll(cfg, mem, beats).value.1, lo, cfg.width) == Slave.Gather(mem, lo, length)
  {
    ServeReadKeeps(cfg, mem, beats, lo, hi);
    ServeReadTiles(cfg, mem, beats, lo, hi);
    assert hi - lo == length;
  }

  /** `DoRead` is the served beats' memory and their bytes. */
  lemma DoReadIs(cfg: Slave.Config, mem: map<int, Byte>, source: nat, address: nat, length: nat,
                 beats: seq<APacket>, served: (map<int, Byte>, seq<DPacket>))
    requires 1 <= cfg.width && Splitter.Read(source, address, length, cfg.width) == Ok(beats)
    requires ServeAll(cfg, mem, beats) == Ok(served)
    ensures DoRead(cfg, mem, source, address, length)
         == Ok((served.0, Oracles.ConvertToIntList(served.1, address, cfg.width)))
  {
  }

  /** The simple master's read beats tile the range and are all
      spelled-out reads. */
  lemma ReadBeats(source: nat, address: nat, length: nat, W: nat)
    requires IsPow2(W) && 0 < length
    ensures Splitter.Read(source, address, length, W).Ok?
    ensures Splitter.Tiles(Splitter.Read(source, address, length, W).value, address, address + length)
    ensures AllReads(Splitter.Read(source, address, length, W).value, W)
  {
    Splitter.ReadSplit(source, address, length, W);
    var beats := Splitter.Read(source, address, length, W).value;
    forall k | 0 <= k < |beats|
      ensures GoodRead(beats[k], W)
    {
      Splitter.BeatsAt(beats, true, source, Log2(W), k);
      GoodReadLegal(beats[k], W);
    }
    AllReadsEach(beats, W);
  }

  // ----------------------------------------------------------------------
  // The test benches' claims

  /** What a masked write leaves in a range, gathered, is the masked update
      of what was there. */
  lemma GatherAfterWrite(mem: map<int, Byte>, m1: map<int, Byte>, m2: map<int, Byte>, address: nat,
                         vals: seq<Byte>, bits: seq<bool>)
    requires |vals| == |bits| && Slave.SameBytes(mem, m1)
    requires forall k :: Slave.ByteAt(m2, k) == MaskedByte(m1, address, vals, bits, 0, |vals|, k)
    ensures Slave.Gather(m2, address, |vals|) == Oracles.UpdateExpected(Slave.Gather(mem, address, |vals|), vals, bits)
  {
    var g := Slave.Gather(m2, address, |vals|);
    var u := Oracles.UpdateExpected(Slave.Gather(mem, address, |vals|), vals, bits);
    forall i | 0 <= i < |vals|
      ensures g[i] == u[i]
    {
      ByteAfterWrite(mem, m1, m2, address, vals, bits, i);
    }
    SeqExt(g, u);
  }

  /** Two sequences that agree everywhere are equal. */
  lemma SeqExt<T>(a: seq<T>, b: seq<T>)
    requires |a| == |b| && forall i :: 0 <= i < |a| ==> a[i] == b[i]
    ensures a == b
  {
  }

  lemma ByteAfterWrite(mem: map<int, Byte>, m1: map<int, Byte>, m2: map<int, Byte>, address: nat,
                       vals: seq<Byte>, bits: seq<bool>, i: nat)
    requires |vals| == |bits| && i < |vals| && Slave.SameBytes(mem, m1)
    requires Slave.ByteAt(m2, address + i) == MaskedByte(m1, address, vals, bits, 0, |vals|, address + i)
    ensures Slave.Gather(m2, address, |vals|)[i]
         == Oracles.UpdateExpected(Slave.Gather(mem, address, |vals|), vals, bits)[i]
  {
    assert Slave.ByteAt(m1, address + i) == Slave.ByteAt(mem, address + i);
  }

  /** The single-master tests: read a range, write it with random bytes and
      enables, read it again; the second read is `update_expected_value` of
      the first. */
  lemma ReadWriteRead(cfg: Slave.Config, mem: map<int, Byte>, source: nat, address: nat,
                      vals: seq<Byte>, bits: seq<bool>)
    requires IsPow2(cfg.width) && |vals| == |bits| && 0 < |vals| && address + |vals| <= cfg.size
    ensures DoRead(cfg, mem, source, address, |vals|).Ok?
    ensures var first := DoRead(cfg, mem, source, address, |vals|).value;
      |first.1| == |vals| && DoWrite(cfg, first.0, source, address, vals, bits).Ok?
      && var m2 := DoWrite(cfg, first.0, source, address, vals, bits).value;
      DoRead(cfg, m2, source, address, |vals|).Ok?
      && DoRead(cfg, m2, source, address, |vals|).value.1 == Oracles.UpdateExpected(first.1, vals, bits)
  {
    ReadRoundTrip(cfg, mem, source, address, |vals|);
    var first := DoRead(cfg, mem, source, address, |vals|).value;
    WriteRoundTrip(cfg, first.0, source, address, vals, bits);
    var m2 := DoWrite(cfg, first.0, source, address, vals, bits).value;
    ReadRoundTrip(cfg, m2, source, address, |vals|);
    GatherAfterWrite(mem, first.0, m2, address, vals, bits);
  }

  /** `init_random_data`: writing the whole memory from address 0 with random
      bytes and enables leaves the dump equal to `update_expected_value` of
      the dump before. */
  lemma InitRandomData(cfg: Slave.Config, mem: map<int, Byte>, source: nat, vals: seq<Byte>, bits: seq<bool>)
    requires IsPow2(cfg.width) && |vals| == |bits| == cfg.size && 0 < cfg.size
    ensures DoWrite(cfg, mem, source, 0, vals, bits).Ok?
    ensures Slave.Dump(DoWrite(cfg, mem, source, 0, vals, bits).value, cfg.size)
         == Oracles.UpdateExpected(Slave.Dump(mem, cfg.size), vals, bits)
  {
    WriteRoundTrip(cfg, mem, source, 0, vals, bits);
    var m2 := DoWrite(cfg, mem, source, 0, vals, bits).value;
    var d := Slave.Dump(m2, cfg.size);
    var u := Oracles.UpdateExpected(Slave.Dump(mem, cfg.size), vals, bits);
    forall i | 0 <= i < cfg.size
      ensures d[i] == u[i]
    {
      assert Slave.ByteAt(m2, i) == MaskedByte(mem, 0, vals, bits, 0, |vals|, i);
    }
    SeqExt(d, u);
  }

  /** The sizes test's sequence, served by the simulated memory responder
      (`Slave.Serve`) in place of the device under test the test drives:
      read the bus word holding `address`, write `2**w` bytes at the
      `2**w`-aligned `address`, patch the word read with the sizes test's
      update loop, then read `2**r` bytes from `address` rounded down to
      `2**r`; `compare_read_size_values` accepts. */
  lemma ReadSizesAfterWrite(cfg: Slave.Config, mem: map<int, Byte>, source: nat, address: nat, w: nat, r: nat,
                            vals: seq<Byte>, bits: seq<bool>)
    requires IsPow2(cfg.width) && Pow2(w) <= cfg.width && Pow2(r) <= cfg.width
    requires address % Pow2(w) == 0 && |vals| == |bits| == Pow2(w)
    requires AlignDown(address, Log2(cfg.width)) + cfg.width <= cfg.size
    ensures var base := AlignDown(address, Log2(cfg.width));
      DoRead(cfg, mem, source, base, cfg.width).Ok?
      && var first := DoRead(cfg, mem, source, base, cfg.width).value;
      |first.1| == cfg.width && address % cfg.width + Pow2(w) <= cfg.width
      && DoWrite(cfg, first.0, source, address, vals, bits).Ok?
      && var m2 := DoWrite(cfg, first.0, source, address, vals, bits).value;
      DoRead(cfg, m2, source, AlignDown(address, r), Pow2(r)).Ok?
      && Oracles.CompareReadSize(Oracles.Patch(first.1, address % cfg.width, vals, bits),
                                 DoRead(cfg, m2, source, AlignDown(address, r), Pow2(r)).value.1,
                                 address, cfg.width, r)
  {
    var W := cfg.width;
    SizesFit(address, w, r, W);
    var base := AlignDown(address, Log2(W));
    ReadRoundTrip(cfg, mem, source, base, W);
    var first := DoRead(cfg, mem, source, base, W).value;
    WriteRoundTrip(cfg, first.0, source, address, vals, bits);
    var m2 := DoWrite(cfg, first.0, source, address, vals, bits).value;
    ReadRoundTrip(cfg, m2, source, AlignDown(address, r), Pow2(r));
    SizesCompare(mem, first.0, m2, first.1, DoRead(cfg, m2, source, AlignDown(address, r), Pow2(r)).value.1,
                 address, w, r, W, vals, bits);
  }

  /** Where the sizes test's accesses fall: the write stays inside the bus
      word holding `address`, and so does the `2**r`-byte read. */
  lemma SizesFit(address: nat, w: nat, r: nat, W: nat)
    requires IsPow2(W) && Pow2(w) <= W && Pow2(r) <= W && address % Pow2(w) == 0
    ensures var base := AlignDown(address, Log2(W));
      address == base + address % W && address % W + Pow2(w) <= W
      && base <= AlignDown(address, r) && AlignDown(address, r) + Pow2(r) <= base + W
      && AlignDown(address, r) - base == AlignDown(address % W, r)
  {
    var L := Log2(W);
    if L < w {
      Pow2Strict(L, w);
      assert false;
    }
    if L < r {
      Pow2Strict(L, r);
      assert false;
    }
    AlignedOffset(address, w, L);
    var low := AlignDown(address % W, r);
    AlignDownSplit(address, r, L);
    AlignedOffset(low, r, L);
    DivModUnique(low, Pow2(L), 0, low);
  }

  /** The memory-level heart of the sizes test. */
  lemma SizesCompare(mem: map<int, Byte>, m1: map<int, Byte>, m2: map<int, Byte>, word: seq<Byte>, read: seq<Byte>,
                     address: nat, w: nat, r: nat, W: nat, vals: seq<Byte>, bits: seq<bool>)
    requires IsPow2(W) && Pow2(w) <= W && Pow2(r) <= W && address % Pow2(w) == 0
    requires |vals| == |bits| == Pow2(w) && Slave.SameBytes(mem, m1)
    requires word == Slave.Gather(mem, AlignDown(address, Log2(W)), W)
    requires forall k :: Slave.ByteAt(m2, k) == MaskedByte(m1, address, vals, bits, 0, |vals|, k)
    requires read == Slave.Gather(m2, AlignDown(address, r), Pow2(r))
    ensures address % W + Pow2(w) <= W
    ensures Oracles.CompareReadSize(Oracles.Patch(word, address % W, vals, bits), read, address, W, r)
  {
    SizesFit(address, w, r, W);
    var base, off := AlignDown(address, Log2(W)), address % W;
    var low := AlignDown(off, r);
    GatherAfterPatch(mem, m1, m2, base, off, address, low, AlignDown(address, r), Pow2(r), W, vals, bits);
    Oracles.CompareReadSizeWithin(Oracles.Patch(word, off, vals, bits), read, address, W, r);
  }

  /** The bytes a read finds after a masked write inside one bus word are
      the matching slice of the word read before, patched. */
  lemma GatherAfterPatch(mem: map<int, Byte>, m1: map<int, Byte>, m2: map<int, Byte>, base: nat, off: nat,
                         address: nat, low: nat, start: nat, n: nat, W: nat, vals: seq<Byte>, bits: seq<bool>)
    requires address == base + off && start == base + low
    requires |vals| == |bits| && off + |vals| <= W && low + n <= W && Slave.SameBytes(mem, m1)
    requires forall k :: Slave.ByteAt(m2, k) == MaskedByte(m1, address, vals, bits, 0, |vals|, k)
    ensures Slave.Gather(m2, start, n) == Oracles.Patch(Slave.Gather(mem, base, W), off, vals, bits)[low..low + n]
  {
    var g := Slave.Gather(m2, start, n);
    var p := Oracles.Patch(Slave.Gather(mem, base, W), off, vals, bits)[low..low + n];
    forall j | 0 <= j < n
      ensures g[j] == p[j]
    {
      PatchedByte(mem, m1, m2, base, off, low + j, W, vals, bits);
    }
    SeqExt(g, p);
  }

  lemma PatchedByte(mem: map<int, Byte>, m1: map<int, Byte>, m2: map<int, Byte>, base: nat, off: nat,
                    q: nat, W: nat, vals: seq<Byte>, bits: seq<bool>)
    requires |vals| == |bits| && off + |vals| <= W && q < W && Slave.SameBytes(mem, m1)
    requires Slave.ByteAt(m2, base + q) == MaskedByte(m1, base + off, vals, bits, 0, |vals|, base + q)
    ensures Slave.ByteAt(m2, base + q) == Oracles.Patch(Slave.Gather(mem, base, W), off, vals, bits)[q]
  {
    assert Slave.ByteAt(m1, base + q) == Slave.ByteAt(mem, base + q);
  }
}
