/** `SimSimpleSlaveUL`: a responder backed by a sparse byte memory.  Each
    cycle it accepts at most one request, and only while no response is
    pending; it checks the request, applies a masked write or gathers a
    read, and holds the response until the master is ready for it. */
module Slave {
  import opened Bits
  import opened TileLinkTypes
  import Splitter

  /** `bus_byte_width`, `size` (the address space the address is reduced
      modulo) and `sink_id`, fixed at construction. */
  datatype Config = Config(width: nat, size: nat, sink: nat)

  /** `memory`, `a_ready`, `d_packet` and `d_valid`. */
  datatype SlaveState = SlaveState(memory: map<int, Byte>, aReady: bool, dPacket: DPacket, dValid: bool)

  function Init(): (st: SlaveState)
    ensures st.memory == map[] && !st.aReady && !st.dValid && st.dPacket == DefaultD()
  {
    SlaveState(map[], false, DefaultD(), false)
  }

  /** A byte of memory as a read sees it: absent bytes are 0. */
  function ByteAt(mem: map<int, Byte>, k: int): Byte
  {
    if k in mem then mem[k] else 0
  }

  /** `init_memory`: the array's bytes from `start` on, in order. */
  function InitMemory(mem: map<int, Byte>, arr: seq<Byte>, start: int): (r: map<int, Byte>)
    decreases |arr|
    ensures forall k :: k in r <==> k in mem || start <= k < start + |arr|
    ensures forall k :: start <= k < start + |arr| ==> r[k] == arr[k - start]
    ensures forall k :: k in mem && !(start <= k < start + |arr|) ==> r[k] == mem[k]
  {
    if arr == [] then mem
    else InitMemory(mem, arr[..|arr| - 1], start)[start + |arr| - 1 := arr[|arr| - 1]]
  }

  /** `memory_dump`: the first `n` bytes, absent ones as 0. */
  function Dump(mem: map<int, Byte>, n: nat): (r: seq<Byte>)
    ensures |r| == n
    ensures forall i :: 0 <= i < n ==> r[i] == ByteAt(mem, i)
  {
    if n == 0 then [] else Dump(mem, n - 1) + [ByteAt(mem, n - 1)]
  }

  /** Two memories a dump cannot tell apart. */
  ghost predicate SameBytes(m1: map<int, Byte>, m2: map<int, Byte>)
  {
    forall k :: ByteAt(m1, k) == ByteAt(m2, k)
  }

  lemma SameDump(m1: map<int, Byte>, m2: map<int, Byte>, n: nat)
    requires SameBytes(m1, m2)
    ensures Dump(m1, n) == Dump(m2, n)
  {
  }

  /** Byte `k` lies in the `n`-byte beat at `address` and its mask bit
      (bit `off + k - address`) is set. */
  predicate Enabled(address: nat, off: nat, n: nat, mask: nat, k: int)
  {
    address <= k < address + n && Bit(mask, off + (k - address))
  }

  /** What byte `k` holds after the beat is written: its data lane when
      enabled, otherwise what it held before. */
  function Written(mem: map<int, Byte>, address: nat, off: nat, n: nat, mask: nat, data: nat, k: int): Byte
  {
    if Enabled(address, off, n, mask, k) then Lane(data, off + (k - address)) else ByteAt(mem, k)
  }

  /** The write loop over the `n` bytes of a beat at `address`: byte `i`
      is stored when mask bit `off + i` is set, taken from data lane
      `off + i`. */
  function Store(mem: map<int, Byte>, address: nat, off: nat, n: nat, mask: nat, data: nat): (r: map<int, Byte>)
    decreases n
    ensures forall k :: k in r <==> k in mem || Enabled(address, off, n, mask, k)
    ensures forall k :: ByteAt(r, k) == Written(mem, address, off, n, mask, data, k)
  {
    if n == 0 then mem
    else
      var r := Store(mem, address, off, n - 1, mask, data);
      var r2 := if Bit(mask, off + n - 1) then r[address + n - 1 := Lane(data, off + n - 1)] else r;
      StoreStep(mem, address, off, n, mask, data, r, r2);
      r2
  }

  /** Storing byte `n - 1` extends what the first `n - 1` bytes did. */
  lemma StoreStep(mem: map<int, Byte>, address: nat, off: nat, n: nat, mask: nat, data: nat,
                  r: map<int, Byte>, r2: map<int, Byte>)
    requires n > 0
    requires forall k :: k in r <==> k in mem || Enabled(address, off, n - 1, mask, k)
    requires forall k :: ByteAt(r, k) == Written(mem, address, off, n - 1, mask, data, k)
    requires r2 == if Bit(mask, off + n - 1) then r[address + n - 1 := Lane(data, off + n - 1)] else r
    ensures forall k :: k in r2 <==> k in mem || Enabled(address, off, n, mask, k)
    ensures forall k :: ByteAt(r2, k) == Written(mem, address, off, n, mask, data, k)
  {
    forall k
      ensures (k in r2 <==> k in mem || Enabled(address, off, n, mask, k))
        && ByteAt(r2, k) == Written(mem, address, off, n, mask, data, k)
    {
      if k == address + n - 1 {
        assert off + (k - address) == off + n - 1;
        assert !Enabled(address, off, n - 1, mask, k);
      } else {
        assert Enabled(address, off, n, mask, k) == Enabled(address, off, n - 1, mask, k);
        assert ByteAt(r2, k) == ByteAt(r, k);
      }
    }
  }

  /** The bytes `address .. address + n - 1` as a read sees them. */
  function Gather(mem: map<int, Byte>, address: nat, n: nat): (r: seq<Byte>)
    decreases n
    ensures |r| == n && forall i :: 0 <= i < n ==> r[i] == ByteAt(mem, address + i)
  {
    if n == 0 then [] else Gather(mem, address, n - 1) + [ByteAt(mem, address + n - 1)]
  }

  /** The read loop: absent bytes are first filled in as 0, then byte `i`
      is ORed into data lane `off + i`.  The lanes are disjoint, so the OR
      is a sum; the result is the word `Splitter.PutData` builds from the
      gathered bytes, and no byte changes its value. */
  function Load(mem: map<int, Byte>, address: nat, off: nat, n: nat): (r: (map<int, Byte>, nat))
    decreases n
    ensures forall k :: k in r.0 <==> k in mem || address <= k < address + n
    ensures SameBytes(mem, r.0)
    ensures r.1 == Splitter.PutData(Gather(mem, address, n), 0, n, off)
  {
    if n == 0 then (mem, 0)
    else
      var (m1, v) := Load(mem, address, off, n - 1);
      var k := address + n - 1;
      var m2 := if k in m1 then m1 else m1[k := 0];
      MulMono(m2[k], 0, Pow(256, off + n - 1));
      var v2: nat := v + m2[k] * Pow(256, off + n - 1);
      LoadStep(mem, address, off, n, m1, v, m2, v2);
      (m2, v2)
  }

  /** Reading byte `n - 1` extends what the first `n - 1` bytes did. */
  lemma LoadStep(mem: map<int, Byte>, address: nat, off: nat, n: nat,
                 m1: map<int, Byte>, v: nat, m2: map<int, Byte>, v2: nat)
    requires n > 0
    requires forall k :: k in m1 <==> k in mem || address <= k < address + n - 1
    requires SameBytes(mem, m1)
    requires v == Splitter.PutData(Gather(mem, address, n - 1), 0, n - 1, off)
    requires m2 == if address + n - 1 in m1 then m1 else m1[address + n - 1 := 0]
    requires v2 == v + m2[address + n - 1] * Pow(256, off + n - 1)
    ensures forall k :: k in m2 <==> k in mem || address <= k < address + n
    ensures SameBytes(mem, m2)
    ensures v2 == Splitter.PutData(Gather(mem, address, n), 0, n, off)
  {
    var g := Gather(mem, address, n);
    PutDataPrefix(Gather(mem, address, n - 1), g, n - 1, off);
    assert g[n - 1] == m2[address + n - 1];
  }

  /** `PutData` only looks at the bytes it packs. */
  lemma {:induction false} PutDataPrefix(a: seq<Byte>, b: seq<Byte>, n: nat, off: nat)
    requires n <= |a| && n <= |b| && a[..n] == b[..n]
    ensures Splitter.PutData(a, 0, n, off) == Splitter.PutData(b, 0, n, off)
    decreases n
  {
    if n > 0 {
      assert a[..n - 1] == b[..n - 1] && a[n - 1] == b[n - 1] by {
        assert a[..n - 1] == a[..n][..n - 1] && b[..n - 1] == b[..n][..n - 1];
        assert a[n - 1] == a[..n][n - 1] && b[n - 1] == b[..n][n - 1];
      }
      PutDataPrefix(a, b, n - 1, off);
    }
  }

  /** Lane `t` of a read's data holds the byte at `address + t - off`, and
      the lanes outside the beat are zero. */
  lemma LoadLanes(mem: map<int, Byte>, address: nat, off: nat, n: nat, t: nat)
    ensures Lane(Load(mem, address, off, n).1, t) ==
      if off <= t < off + n then ByteAt(mem, address + (t - off)) else 0
  {
    Splitter.PutDataLanes(Gather(mem, address, n), 0, n, off, t);
  }

  /** `_create_d_packet`. */
  function CreateD(opcode: DOp, param: nat, size: nat, source: nat, sink: nat, data: nat): (d: DPacket)
    ensures d.opcode == opcode && d.param == param && d.size == size && d.source == source
    ensures d.sink == sink && d.error == Processed && d.data == data
  {
    DPacket(opcode, param, size, source, sink, Processed, data)
  }

  /** The request as the responder sees it: the address reduced modulo the
      memory size. */
  function Seen(cfg: Config, a: APacket): APacket
    requires cfg.size > 0
  {
    a.(address := a.address % cfg.size)
  }

  /** Serving one accepted request: reduce the address (a zero size is
      Python's `ZeroDivisionError`), check it, then write or read.  No
      memory changes unless both checks pass. */
  function Serve(cfg: Config, mem: map<int, Byte>, a: APacket): (r: Result<(map<int, Byte>, DPacket)>)
    ensures cfg.size == 0 ==> r == Err(DivisionByZero)
    ensures cfg.size > 0 ==> (r.Ok? <==> Legal(Seen(cfg, a), cfg.width))
    ensures cfg.size > 0 && CheckAddress(a.address % cfg.size, cfg.width, a.size) != Pass ==>
      r == Err(CheckAddress(a.address % cfg.size, cfg.width, a.size).error)
    ensures cfg.size > 0 && CheckAddress(a.address % cfg.size, cfg.width, a.size) == Pass ==>
      (r.Err? <==> CheckMask(a.address % cfg.size, cfg.width, a.mask, a.size, a.opcode != Get).Fail?)
    ensures r.Ok? ==>
      var d := r.value.1;
      d.param == a.param && d.size == a.size && d.source == a.source && d.sink == cfg.sink
      && d.error == Processed && (d.opcode == AccessAckData <==> a.opcode == Get)
  {
    if cfg.size == 0 then Err(DivisionByZero)
    else
      var address := a.address % cfg.size;
      var write := a.opcode != Get;
      match CheckAddress(address, cfg.width, a.size)
      case Fail(e) => Err(e)
      case Pass =>
        match CheckMask(address, cfg.width, a.mask, a.size, write)
        case Fail(e) => Err(e)
        case Pass =>
          var off := address % cfg.width;
          if write then
            Ok((Store(mem, address, off, Pow2(a.size), a.mask, a.data),
                CreateD(AccessAck, a.param, a.size, a.source, cfg.sink, 0)))
          else
            var (m2, v) := Load(mem, address, off, Pow2(a.size));
            Ok((m2, CreateD(AccessAckData, a.param, a.size, a.source, cfg.sink, v)))
  }

  /** What a served write does to memory: exactly the bytes whose mask bit
      is set take their lane of the data; everything else is untouched. */
  lemma ServeWrite(cfg: Config, mem: map<int, Byte>, a: APacket, k: int)
    requires cfg.size > 0 && a.opcode != Get && Serve(cfg, mem, a).Ok?
    ensures var address := a.address % cfg.size;
      var off, mem2 := address % cfg.width, Serve(cfg, mem, a).value.0;
      (k in mem2 <==> k in mem || Enabled(address, off, Pow2(a.size), a.mask, k))
      && ByteAt(mem2, k) == Written(mem, address, off, Pow2(a.size), a.mask, a.data, k)
  {
  }

  /** What a served read returns: lane `off + i` holds byte `address + i`
      of memory (0 when absent), the other lanes are 0, and no byte changes
      its value, so the memory dump is unchanged. */
  lemma ServeRead(cfg: Config, mem: map<int, Byte>, a: APacket, t: nat)
    requires cfg.size > 0 && a.opcode == Get && Serve(cfg, mem, a).Ok?
    ensures var address, off := a.address % cfg.size, a.address % cfg.size % cfg.width;
      var (mem2, d) := Serve(cfg, mem, a).value;
      SameBytes(mem, mem2)
      && (forall n: nat :: Dump(mem2, n) == Dump(mem, n))
      && Lane(d.data, t) == if off <= t < off + Pow2(a.size) then ByteAt(mem, address + (t - off)) else 0
  {
    var address := a.address % cfg.size;
    var off := address % cfg.width;
    LoadLanes(mem, address, off, Pow2(a.size), t);
    var mem2 := Serve(cfg, mem, a).value.0;
    forall n: nat
      ensures Dump(mem2, n) == Dump(mem, n)
    {
      SameDump(mem2, mem, n);
    }
  }

  /** Lines 107-139 of the cycle: `a_ready` drops, and a valid request is
      served only while no response is pending. */
  function Accept(cfg: Config, st: SlaveState, a: APacket, aValid: bool): (r: Result<SlaveState>)
    ensures !(aValid && !st.dValid) ==> r == Ok(st.(aReady := false))
    ensures aValid && !st.dValid ==> (r.Ok? <==> Serve(cfg, st.memory, a).Ok?)
    ensures r.Ok? ==> (r.value.aReady <==> aValid && !st.dValid)
    ensures r.Ok? && r.value.aReady ==>
      r.value.dValid && (r.value.memory, r.value.dPacket) == Serve(cfg, st.memory, a).value
  {
    var st1 := st.(aReady := false);
    if aValid && !st.dValid then
      match Serve(cfg, st.memory, a)
      case Err(e) => Err(e)
      case Ok((mem, d)) => Ok(st1.(aReady := true, dValid := true, memory := mem, dPacket := d))
    else Ok(st1)
  }

  /** Lines 142-145: a pending response is dropped once the master is
      ready for it. */
  function Release(st: SlaveState, dReady: bool): (r: SlaveState)
    ensures r.dValid <==> st.dValid && !dReady
    ensures st.dValid && dReady ==> r.dPacket == DefaultD()
    ensures !(st.dValid && dReady) ==> r == st
    ensures r.memory == st.memory && r.aReady == st.aReady
  {
    if dReady && st.dValid then st.(dValid := false, dPacket := DefaultD()) else st
  }

  /** `do_reset`. */
  function Reset(st: SlaveState): (r: SlaveState)
    ensures r.memory == map[] && !r.dValid && !r.aReady && r.dPacket == DefaultD()
  {
    st.(dValid := false, dPacket := DefaultD(), aReady := false, memory := map[])
  }

  /** One iteration of `process`; `dReady` is what the master answers after
      seeing this cycle's response. */
  function Step(cfg: Config, st: SlaveState, reset: bool, a: APacket, aValid: bool, dReady: bool)
    : (r: Result<SlaveState>)
    ensures reset ==> r == Ok(Reset(st))
    ensures !reset && r.Ok? ==> (r.value.aReady <==> aValid && !st.dValid)
    ensures !reset && r.Ok? ==> (r.value.dValid <==> (st.dValid || aValid) && !dReady)
    ensures !reset && !aValid ==> r.Ok? && r.value.memory == st.memory
  {
    if reset then Ok(Reset(st))
    else
      match Accept(cfg, st, a, aValid)
      case Err(e) => Err(e)
      case Ok(st1) => Ok(Release(st1, dReady))
  }
}
