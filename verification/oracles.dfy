/** The helpers the test benches use to predict what the memory should hold:
    the masked update of a byte list, the random memory image, turning read
    responses back into bytes, and re-cutting byte ranges into bus words. */
module Oracles {
  import opened Bits
  import opened TileLinkTypes

  /** `n` zero bytes. */
  function Blank(n: nat): (r: seq<Byte>)
    ensures |r| == n && forall i :: 0 <= i < n ==> r[i] == 0
  {
    seq(n, _ => 0)
  }

  /** `update_expected_value`: byte `i` becomes the written byte when its
      mask bit is set and keeps its previous value otherwise.  The source
      indexes the written bytes and mask at every position of `prev`. */
  function UpdateExpected(prev: seq<Byte>, write: seq<Byte>, mask: seq<bool>): (r: seq<Byte>)
    requires |prev| <= |write| && |prev| <= |mask|
    decreases |prev|
    ensures |r| == |prev|
    ensures forall i :: 0 <= i < |r| ==> r[i] == if mask[i] then write[i] else prev[i]
  {
    if |prev| == 0 then []
    else
      var n := |prev| - 1;
      UpdateExpected(prev[..n], write, mask) + [if mask[n] then write[n] else prev[n]]
  }

  /** Applying the same masked write twice is applying it once. */
  lemma UpdateIdempotent(prev: seq<Byte>, write: seq<Byte>, mask: seq<bool>)
    requires |prev| <= |write| && |prev| <= |mask|
    ensures UpdateExpected(UpdateExpected(prev, write, mask), write, mask) == UpdateExpected(prev, write, mask)
  {
  }

  /** A write with no enabled byte changes nothing. */
  lemma UpdateNothing(prev: seq<Byte>, write: seq<Byte>, mask: seq<bool>)
    requires |prev| <= |write| && |prev| <= |mask|
    requires forall i :: 0 <= i < |prev| ==> !mask[i]
    ensures UpdateExpected(prev, write, mask) == prev
  {
  }

  /** Writes whose masks enable no common byte can be applied in either
      order. */
  lemma UpdateDisjointCommute(prev: seq<Byte>, w1: seq<Byte>, m1: seq<bool>, w2: seq<Byte>, m2: seq<bool>)
    requires |prev| <= |w1| && |prev| <= |m1| && |prev| <= |w2| && |prev| <= |m2|
    requires forall i :: 0 <= i < |prev| ==> !(m1[i] && m2[i])
    ensures UpdateExpected(UpdateExpected(prev, w1, m1), w2, m2)
         == UpdateExpected(UpdateExpected(prev, w2, m2), w1, m1)
  {
  }

  /** One masked write of a bus word, as the multi-master test keeps them:
      the bytes and the per-byte enables. */
  datatype WordWrite = WordWrite(vals: seq<Byte>, mask: seq<bool>)

  /** Every write is long enough to be applied to `n` bytes. */
  predicate Covers(rows: seq<WordWrite>, n: nat)
  {
    forall k :: 0 <= k < |rows| ==> n <= |rows[k].vals| && n <= |rows[k].mask|
  }

  /** The writes applied one after the other with `update_expected_value`,
      as `compare_multimaster_read_values` does for one ordering. */
  function ApplyRows(prev: seq<Byte>, rows: seq<WordWrite>): (r: seq<Byte>)
    requires Covers(rows, |prev|)
    decreases |rows|
    ensures |r| == |prev|
  {
    if rows == [] then prev
    else
      var n := |rows| - 1;
      UpdateExpected(ApplyRows(prev, rows[..n]), rows[n].vals, rows[n].mask)
  }

  /** The array `mem_init` hands to `init_memory`: the random byte where the
      random mask bit is set, 0 elsewhere.  The draws are the inputs. */
  function MemInit(values: seq<Byte>, mask: seq<bool>): (r: seq<Byte>)
    requires |values| == |mask|
    decreases |mask|
    ensures |r| == |mask|
  {
    if |mask| == 0 then []
    else
      var n := |mask| - 1;
      MemInit(values[..n], mask[..n]) + [if mask[n] then values[n] else 0]
  }

  /** The memory image is the masked update of an all-zero memory. */
  lemma {:induction false} MemInitIsUpdate(values: seq<Byte>, mask: seq<bool>)
    requires |values| == |mask|
    ensures MemInit(values, mask) == UpdateExpected(Blank(|mask|), values, mask)
    decreases |mask|
  {
    if |mask| > 0 {
      var n := |mask| - 1;
      MemInitIsUpdate(values[..n], mask[..n]);
      var a := MemInit(values, mask);
      var b := UpdateExpected(Blank(|mask|), values, mask);
      forall i | 0 <= i < |mask|
        ensures a[i] == b[i]
      {
        if i < n {
          assert a[i] == MemInit(values[..n], mask[..n])[i];
          assert UpdateExpected(Blank(n), values[..n], mask[..n])[i] == b[i];
        }
      }
    }
  }

  // ----------------------------------------------------------------------
  // Responses back to bytes

  /** The inner loop of `conver_to_int_list`: the `n` bytes of a data word
      from lane `off` on. */
  function Chunk(data: nat, off: nat, n: nat): (r: seq<Byte>)
    decreases n
    ensures |r| == n && forall j :: 0 <= j < n ==> r[j] == Lane(data, off + j)
  {
    if n == 0 then [] else Chunk(data, off, n - 1) + [Lane(data, off + n - 1)]
  }

  /** Total number of bytes the responses carry. */
  function DSpan(rsp: seq<DPacket>): nat
  {
    if rsp == [] then 0 else Pow2(rsp[0].size) + DSpan(rsp[1..])
  }

  /** `conver_to_int_list`: each response contributes `2**d_size` bytes,
      read from the lanes starting at the current address's offset in the
      bus word, and the address advances by as many bytes. */
  function ConvertToIntList(rsp: seq<DPacket>, base: nat, W: nat): (r: seq<Byte>)
    requires 1 <= W
    decreases |rsp|
    ensures |r| == DSpan(rsp)
    ensures rsp != [] ==> r[..Pow2(rsp[0].size)] == Chunk(rsp[0].data, base % W, Pow2(rsp[0].size))
  {
    if rsp == [] then []
    else
      var n := Pow2(rsp[0].size);
      var c := Chunk(rsp[0].data, base % W, n);
      var r := c + ConvertToIntList(rsp[1..], base + n, W);
      assert r[..n] == c;
      r
  }

  // ----------------------------------------------------------------------
  // Reads of a sized beat

  /** Python's `s[lo:hi]` for `0 <= lo <= hi`: the bounds are clamped to the
      list. */
  function Slice<T>(s: seq<T>, lo: nat, hi: nat): (r: seq<T>)
    requires lo <= hi
    ensures hi <= |s| ==> r == s[lo..hi]
    ensures |s| <= lo ==> r == []
    ensures |r| <= hi - lo
  {
    if |s| <= lo then [] else if |s| <= hi then s[lo..] else s[lo..hi]
  }

  /** `compare_read_size_values` for a read of `2**k` bytes: the read must
      equal the `2**k` expected bytes from the read's offset in the bus word
      rounded down to a multiple of `2**k` (`offset & ~(size - 1)`). */
  predicate CompareReadSize(expected: seq<Byte>, read: seq<Byte>, address: nat, W: nat, k: nat)
    requires 1 <= W
  {
    var off := AlignDown(address % W, k);
    read == Slice(expected, off, off + Pow2(k))
  }

  /** The sizes test's update loop: for each written byte `i`, entry
      `i + off` of the expected word takes the byte when its mask bit is set
      and keeps its value otherwise. */
  function Patch(prev: seq<Byte>, off: nat, vals: seq<Byte>, bits: seq<bool>): (r: seq<Byte>)
    requires |vals| == |bits| && off + |vals| <= |prev|
    decreases |vals|
    ensures |r| == |prev|
    ensures forall q :: 0 <= q < |r| ==>
      r[q] == if off <= q < off + |vals| && bits[q - off] then vals[q - off] else prev[q]
  {
    if |vals| == 0 then prev
    else
      var n := |vals| - 1;
      var p := Patch(prev, off, vals[..n], bits[..n]);
      p[off + n := if bits[n] then vals[n] else p[off + n]]
  }

  /** Within the written window the loop is `update_expected_value` of the
      window; outside it nothing changes. */
  lemma PatchIsUpdate(prev: seq<Byte>, off: nat, vals: seq<Byte>, bits: seq<bool>)
    requires |vals| == |bits| && off + |vals| <= |prev|
    ensures Patch(prev, off, vals, bits)
         == prev[..off] + UpdateExpected(prev[off..off + |vals|], vals, bits) + prev[off + |vals|..]
  {
    var a := Patch(prev, off, vals, bits);
    var u := UpdateExpected(prev[off..off + |vals|], vals, bits);
    var b := prev[..off] + u + prev[off + |vals|..];
    forall q | 0 <= q < |prev|
      ensures a[q] == b[q]
    {
      if off <= q < off + |vals| {
        assert b[q] == u[q - off];
      } else if off + |vals| <= q {
        assert b[q] == prev[off + |vals|..][q - off - |vals|];
      }
    }
  }

  /** When the expected word is whole, the comparison looks at exactly the
      `2**k` bytes of the word the read covers. */
  lemma CompareReadSizeWithin(expected: seq<Byte>, read: seq<Byte>, address: nat, W: nat, k: nat)
    requires IsPow2(W) && Pow2(k) <= W && |expected| == W
    ensures var off := AlignDown(address % W, k);
      off + Pow2(k) <= W
      && (CompareReadSize(expected, read, address, W, k) <==> read == expected[off..off + Pow2(k)])
  {
    var off := AlignDown(address % W, k);
    var L := Log2(W);
    assert W == Pow2(L);
    if L < k {
      Pow2Strict(L, k);
      assert false;
    }
    assert off < W;
    AlignedOffset(off, k, L);
    DivModUnique(off, Pow2(L), 0, off);
  }
}
