/** The test helpers that re-cut byte ranges into bus words:
    `split_read_to_bus_width` (read bytes, overlaid word by word) and
    `split_write_to_bus_width` (each masked write as one padded row per word
    it touches). */
module BusWords {
  import opened Bits
  import opened TileLinkTypes
  import Oracles

  /** Position `p` lies in the `n` bytes from `address`. */
  predicate InRange(p: int, address: nat, n: nat)
  {
    address <= p < address + n
  }

  /** How many positions of the range `[address, address + n)` lie below
      `p`: the value of the source's running `offset` when the scan reaches
      `p`. */
  function Below(p: nat, address: nat, n: nat): (c: nat)
    ensures c <= n
  {
    if p <= address then 0 else if address + n <= p then n else p - address
  }

  /** `(address // W) * W`, the first word the range touches. */
  function FirstWord(address: nat, W: nat): (b: nat)
    requires 1 <= W
    ensures b % W == 0 && b <= address && Below(b, address, 0) == 0
  {
    DivMod(address, W);
    MulModZero(address / W, W);
    (address / W) * W
  }

  /** A position of the range lies in a word the scan from `FirstWord` visits. */
  lemma CoveredWordVisited(address: nat, n: nat, W: nat, b: nat, i: nat)
    requires 1 <= W && b % W == 0 && i < W && InRange(b + i, address, n)
    ensures FirstWord(address, W) <= b < address + n
  {
    var f := FirstWord(address, W);
    DivMod(address, W);
    DivMod(b, W);
    var q, t := address / W, b / W;
    assert address < W * q + W;
    assert b == W * t;
    if t < q {
      MulMono(W, t + 1, q);
      assert false;
    }
    MulMono(W, q, t);
  }

  /** Two different multiples of `W` are at least `W` apart. */
  lemma MultiplesApart(a: nat, b: nat, W: nat)
    requires 1 <= W && a % W == 0 && b % W == 0 && a < b
    ensures a + W <= b
  {
    DivMod(a, W);
    DivMod(b, W);
    MulMono(W, a / W + 1, b / W);
  }

  lemma NextMultiple(a: nat, W: nat)
    requires 1 <= W && a % W == 0
    ensures (a + W) % W == 0
  {
    ModSumZero(a, W, W);
  }

  // ----------------------------------------------------------------------
  // split_read_to_bus_width

  /** The lane loop for the word at `base`, from lane `i` on: a lane whose
      position lies in the range takes the next byte of `vals`. */
  function ReadLanes(row: seq<Byte>, base: nat, address: nat, vals: seq<Byte>, i: nat, offset: nat)
    : (r: (seq<Byte>, nat))
    requires i <= |row| && offset == Below(base + i, address, |vals|)
    decreases |row| - i
    ensures |r.0| == |row| && r.1 == Below(base + |row|, address, |vals|)
    ensures forall j :: 0 <= j < |row| ==>
      r.0[j] == if i <= j && InRange(base + j, address, |vals|) then vals[base + j - address] else row[j]
  {
    if i == |row| then (row, offset)
    else if InRange(base + i, address, |vals|) then
      ReadLanes(row[i := vals[offset]], base, address, vals, i + 1, offset + 1)
    else ReadLanes(row, base, address, vals, i + 1, offset)
  }

  /** Every row is a whole word and every key a word address. */
  predicate WordRows(ret: map<nat, seq<Byte>>, W: nat)
    requires 1 <= W
  {
    forall b :: b in ret ==> b % W == 0 && |ret[b]| == W
  }

  /** What the word loop from `base` leaves: the words from `base` up to
      the end of the range are present, and each lane holds its byte of
      `vals` if the range covers it, else what the word held before, else
      0. */
  ghost predicate WordsFilled(ret: map<nat, seq<Byte>>, r: map<nat, seq<Byte>>, address: nat, vals: seq<Byte>,
                              W: nat, base: nat)
    requires 1 <= W && WordRows(ret, W) && WordRows(r, W)
  {
    (forall b :: b in r <==> b in ret || (b % W == 0 && base <= b < address + |vals|))
    && forall b, i :: b in r && 0 <= i < W ==>
         r[b][i] == if base <= b && InRange(b + i, address, |vals|) then vals[b + i - address]
                    else if b in ret then ret[b][i] else 0
  }

  /** The word loop for one `(address, vals)` entry, from the word at
      `base` on: a word seen for the first time starts as zeros. */
  function ReadWords(ret: map<nat, seq<Byte>>, address: nat, vals: seq<Byte>, W: nat, base: nat, offset: nat)
    : (r: map<nat, seq<Byte>>)
    requires 1 <= W && base % W == 0 && WordRows(ret, W) && offset == Below(base, address, |vals|)
    decreases address + |vals| - base
    ensures WordRows(r, W) && WordsFilled(ret, r, address, vals, W, base)
  {
    if address + |vals| <= base then ret
    else
      var row := if base in ret then ret[base] else Oracles.Blank(W);
      var (row2, offset2) := ReadLanes(row, base, address, vals, 0, offset);
      NextMultiple(base, W);
      var ret2 := ret[base := row2];
      assert WordRows(ret2, W);
      var r := ReadWords(ret2, address, vals, W, base + W, offset2);
      ReadWordsStep(ret, address, vals, W, base, row2, r);
      r
  }

  lemma ReadWordsStep(ret: map<nat, seq<Byte>>, address: nat, vals: seq<Byte>, W: nat, base: nat,
                      row2: seq<Byte>, r: map<nat, seq<Byte>>)
    requires 1 <= W && base % W == 0 && WordRows(ret, W) && |row2| == W && WordRows(r, W)
    requires base < address + |vals|
    requires forall j :: 0 <= j < W ==>
      row2[j] == if InRange(base + j, address, |vals|) then vals[base + j - address]
                 else if base in ret then ret[base][j] else 0
    requires WordRows(ret[base := row2], W)
    requires WordsFilled(ret[base := row2], r, address, vals, W, base + W)
    ensures WordsFilled(ret, r, address, vals, W, base)
  {
    var ret2 := ret[base := row2];
    forall b | b in r
      ensures b in ret || (b % W == 0 && base <= b < address + |vals|)
    {
    }
    forall b | b in ret || (b % W == 0 && base <= b < address + |vals|)
      ensures b in r
    {
      if b !in ret && base < b {
        MultiplesApart(base, b, W);
      }
      assert b in ret2 || (b % W == 0 && base + W <= b < address + |vals|);
    }
    forall b, i | b in r && 0 <= i < W
      ensures r[b][i] == if base <= b && InRange(b + i, address, |vals|) then vals[b + i - address]
                         else if b in ret then ret[b][i] else 0
    {
      var was := if base + W <= b && InRange(b + i, address, |vals|) then vals[b + i - address]
                 else if b in ret2 then ret2[b][i] else 0;
      assert r[b][i] == was;
      if b == base {
        assert ret2[b] == row2;
      } else if base < b {
        MultiplesApart(base, b, W);
        assert b in ret2 <==> b in ret;
      } else {
        assert b in ret2 <==> b in ret;
      }
    }
  }

  /** One entry of the input dictionary. */
  function ReadEntry(ret: map<nat, seq<Byte>>, address: nat, vals: seq<Byte>, W: nat): (r: map<nat, seq<Byte>>)
    requires 1 <= W && WordRows(ret, W)
    ensures WordRows(r, W)
  {
    ReadWords(ret, address, vals, W, FirstWord(address, W), 0)
  }

  /** An entry adds exactly the words it touches. */
  lemma ReadEntryKeys(ret: map<nat, seq<Byte>>, address: nat, vals: seq<Byte>, W: nat, b: nat)
    requires 1 <= W && WordRows(ret, W)
    ensures b in ReadEntry(ret, address, vals, W) <==> b in ret || Touches(address, |vals|, W, b)
  {
    assert WordsFilled(ret, ReadEntry(ret, address, vals, W), address, vals, W, FirstWord(address, W));
  }

  /** An entry overwrites the lanes its range covers and leaves the other
      lanes of a word as they were, zeros for a new word. */
  lemma ReadEntryLane(ret: map<nat, seq<Byte>>, address: nat, vals: seq<Byte>, W: nat, b: nat, i: nat)
    requires 1 <= W && WordRows(ret, W) && i < W && b in ReadEntry(ret, address, vals, W)
    ensures ReadEntry(ret, address, vals, W)[b][i]
         == if InRange(b + i, address, |vals|) then vals[b + i - address]
            else if b in ret then ret[b][i] else 0
  {
    var r := ReadEntry(ret, address, vals, W);
    assert WordsFilled(ret, r, address, vals, W, FirstWord(address, W));
    if InRange(b + i, address, |vals|) {
      CoveredWordVisited(address, |vals|, W, b, i);
    }
  }

  /** The byte the entries put at position `p`: the last entry whose range
      holds `p` wins, since later entries overwrite earlier ones. */
  function Latest(items: seq<(nat, seq<Byte>)>, p: nat): Option<Byte>
  {
    if items == [] then None
    else
      var (a, vals) := items[|items| - 1];
      if InRange(p, a, |vals|) then Some(vals[p - a]) else Latest(items[..|items| - 1], p)
  }

  /** Word `b` is touched by the entry `(a, vals)`. */
  predicate Touches(a: nat, n: nat, W: nat, b: nat)
    requires 1 <= W
  {
    b % W == 0 && FirstWord(a, W) <= b < a + n
  }

  /** `split_read_to_bus_width`, the dictionary's entries in insertion order. */
  function SplitRead(items: seq<(nat, seq<Byte>)>, W: nat): (r: map<nat, seq<Byte>>)
    requires 1 <= W
    decreases |items|
    ensures WordRows(r, W)
  {
    if items == [] then map[]
    else
      var (a, vals) := items[|items| - 1];
      ReadEntry(SplitRead(items[..|items| - 1], W), a, vals, W)
  }

  /** Some entry touches word `b`. */
  predicate Touched(items: seq<(nat, seq<Byte>)>, W: nat, b: nat)
    requires 1 <= W
  {
    exists k :: 0 <= k < |items| && Touches(items[k].0, |items[k].1|, W, b)
  }

  /** The keys of `split_read_to_bus_width` are the words some entry
      touches. */
  lemma {:induction false} SplitReadKeys(items: seq<(nat, seq<Byte>)>, W: nat, b: nat)
    requires 1 <= W
    decreases |items|
    ensures b in SplitRead(items, W) <==> Touched(items, W, b)
  {
    if items != [] {
      var n := |items| - 1;
      var (a, vals) := items[n];
      var prev := SplitRead(items[..n], W);
      SplitReadKeys(items[..n], W, b);
      ReadEntryKeys(prev, a, vals, W, b);
      TouchedLast(items, W, b);
    }
  }

  /** The last entry touches `b` or an earlier one does. */
  lemma TouchedLast(items: seq<(nat, seq<Byte>)>, W: nat, b: nat)
    requires 1 <= W && items != []
    ensures var n := |items| - 1;
      Touched(items, W, b) <==> Touched(items[..n], W, b) || Touches(items[n].0, |items[n].1|, W, b)
  {
    var n := |items| - 1;
    if Touched(items[..n], W, b) {
      var k :| 0 <= k < n && Touches(items[..n][k].0, |items[..n][k].1|, W, b);
      assert items[k] == items[..n][k];
    }
    if Touched(items, W, b) && !Touches(items[n].0, |items[n].1|, W, b) {
      var k :| 0 <= k < |items| && Touches(items[k].0, |items[k].1|, W, b);
      assert items[k] == items[..n][k];
    }
  }

  /** Each lane of `split_read_to_bus_width` holds the byte the last entry
      covering it put there, and 0 when no entry covers it. */
  lemma {:induction false} SplitReadValues(items: seq<(nat, seq<Byte>)>, W: nat, b: nat, i: nat)
    requires 1 <= W && i < W
    requires b in SplitRead(items, W)
    decreases |items|
    ensures SplitRead(items, W)[b][i] == match Latest(items, b + i) case Some(v) => v case None => 0
  {
    var n := |items| - 1;
    var (a, vals) := items[n];
    var prev := SplitRead(items[..n], W);
    ReadEntryLane(prev, a, vals, W, b, i);
    assert Latest(items, b + i) == if InRange(b + i, a, |vals|) then Some(vals[b + i - a]) else Latest(items[..n], b + i);
    if !InRange(b + i, a, |vals|) {
      if b in prev {
        SplitReadValues(items[..n], W, b, i);
      } else {
        SplitReadKeys(items[..n], W, b);
        forall k | 0 <= k < n
          ensures !Touches(items[..n][k].0, |items[..n][k].1|, W, b)
        {
        }
        LatestNone(items[..n], W, b, i);
      }
    }
  }

  /** Both halves together, for every word and lane. */
  lemma SplitReadContents(items: seq<(nat, seq<Byte>)>, W: nat)
    requires 1 <= W
    ensures var r := SplitRead(items, W);
      (forall b: nat :: b in r <==> Touched(items, W, b))
      && forall b, i :: b in r && 0 <= i < W ==>
           r[b][i] == match Latest(items, b + i) case Some(v) => v case None => 0
  {
    forall b: nat
      ensures b in SplitRead(items, W) <==> Touched(items, W, b)
    {
      SplitReadKeys(items, W, b);
    }
    forall b, i | b in SplitRead(items, W) && 0 <= i < W
      ensures SplitRead(items, W)[b][i] == match Latest(items, b + i) case Some(v) => v case None => 0
    {
      SplitReadValues(items, W, b, i);
    }
  }

  /** A word no entry touches holds no position any entry covers. */
  lemma {:induction false} LatestNone(items: seq<(nat, seq<Byte>)>, W: nat, b: nat, i: nat)
    requires 1 <= W && b % W == 0 && i < W
    requires forall k :: 0 <= k < |items| ==> !Touches(items[k].0, |items[k].1|, W, b)
    ensures Latest(items, b + i) == None
    decreases |items|
  {
    if items != [] {
      var n := |items| - 1;
      var (a, vals) := items[n];
      if InRange(b + i, a, |vals|) {
        CoveredWordVisited(a, |vals|, W, b, i);
        assert false;
      }
      forall k | 0 <= k < n
        ensures !Touches(items[..n][k].0, |items[..n][k].1|, W, b)
      {
        assert items[..n][k] == items[k];
      }
      LatestNone(items[..n], W, b, i);
    }
  }

  // ----------------------------------------------------------------------
  // split_write_to_bus_width

  /** One masked write of the test: `vals[i]` goes to `address + i` when
      `mask[i]` is set.  The range is as long as the mask. */
  datatype MaskedWrite = MaskedWrite(address: nat, vals: seq<Byte>, mask: seq<bool>)

  /** The source indexes the values at every position of the mask. */
  predicate Sound(w: MaskedWrite)
  {
    |w.mask| <= |w.vals|
  }

  /** The padded row `w` contributes to the word at `b`: lanes the range
      covers carry its byte and enable, the others 0 and disabled. */
  function RowAt(b: nat, w: MaskedWrite, W: nat): (r: Oracles.WordWrite)
    requires Sound(w)
    ensures |r.vals| == W && |r.mask| == W
  {
    Oracles.WordWrite(
      seq(W, j => if InRange(b + j, w.address, |w.mask|) then w.vals[b + j - w.address] else 0),
      seq(W, j => InRange(b + j, w.address, |w.mask|) && w.mask[b + j - w.address]))
  }

  /** The lane loop of one word, from lane `i` on, appending to `acc`. */
  function WriteLanes(b: nat, w: MaskedWrite, W: nat, i: nat, offset: nat, acc: Oracles.WordWrite)
    : (r: (Oracles.WordWrite, nat))
    requires Sound(w) && i <= W && |acc.vals| == i && |acc.mask| == i
    requires offset == Below(b + i, w.address, |w.mask|)
    decreases W - i
    ensures |r.0.vals| == W && |r.0.mask| == W && r.1 == Below(b + W, w.address, |w.mask|)
    ensures r.0.vals[..i] == acc.vals && r.0.mask[..i] == acc.mask
    ensures forall j :: i <= j < W ==> r.0.vals[j] == RowAt(b, w, W).vals[j] && r.0.mask[j] == RowAt(b, w, W).mask[j]
  {
    if i == W then (acc, offset)
    else if InRange(b + i, w.address, |w.mask|) then
      WriteLanes(b, w, W, i + 1, offset + 1, Oracles.WordWrite(acc.vals + [w.vals[offset]], acc.mask + [w.mask[offset]]))
    else
      WriteLanes(b, w, W, i + 1, offset, Oracles.WordWrite(acc.vals + [0], acc.mask + [false]))
  }

  /** The whole lane loop builds exactly the padded row. */
  function Row(b: nat, w: MaskedWrite, W: nat, offset: nat): (r: (Oracles.WordWrite, nat))
    requires Sound(w) && offset == Below(b, w.address, |w.mask|)
    ensures r.0 == RowAt(b, w, W) && r.1 == Below(b + W, w.address, |w.mask|)
  {
    var r := WriteLanes(b, w, W, 0, offset, Oracles.WordWrite([], []));
    assert r.0.vals == RowAt(b, w, W).vals;
    assert r.0.mask == RowAt(b, w, W).mask;
    r
  }

  /** What the word loop from `base` leaves: every word from `base` to the
      end of the range has its padded row appended; nothing else changes. */
  ghost predicate RowsAppended(ret: map<nat, seq<Oracles.WordWrite>>, r: map<nat, seq<Oracles.WordWrite>>,
                               w: MaskedWrite, W: nat, base: nat)
    requires 1 <= W && Sound(w)
  {
    (forall b :: b in r <==> b in ret || (b % W == 0 && base <= b < w.address + |w.mask|))
    && forall b :: b in r ==>
         r[b] == (if b in ret then ret[b] else [])
                 + (if b % W == 0 && base <= b < w.address + |w.mask| then [RowAt(b, w, W)] else [])
  }

  /** The word loop for one write, from the word at `base` on. */
  function WriteWords(ret: map<nat, seq<Oracles.WordWrite>>, w: MaskedWrite, W: nat, base: nat, offset: nat)
    : (r: map<nat, seq<Oracles.WordWrite>>)
    requires 1 <= W && Sound(w) && base % W == 0 && offset == Below(base, w.address, |w.mask|)
    decreases w.address + |w.mask| - base
    ensures RowsAppended(ret, r, w, W, base)
  {
    if w.address + |w.mask| <= base then ret
    else
      var (row, offset2) := Row(base, w, W, offset);
      var rows := if base in ret then ret[base] else [];
      NextMultiple(base, W);
      var r := WriteWords(ret[base := rows + [row]], w, W, base + W, offset2);
      WriteWordsStep(ret, w, W, base, r);
      r
  }

  lemma WriteWordsStep(ret: map<nat, seq<Oracles.WordWrite>>, w: MaskedWrite, W: nat, base: nat,
                       r: map<nat, seq<Oracles.WordWrite>>)
    requires 1 <= W && Sound(w) && base % W == 0 && base < w.address + |w.mask|
    requires RowsAppended(ret[base := (if base in ret then ret[base] else []) + [RowAt(base, w, W)]], r, w, W, base + W)
    ensures RowsAppended(ret, r, w, W, base)
  {
    var ret2 := ret[base := (if base in ret then ret[base] else []) + [RowAt(base, w, W)]];
    forall b | b in r
      ensures b in ret || (b % W == 0 && base <= b < w.address + |w.mask|)
    {
    }
    forall b | b in ret || (b % W == 0 && base <= b < w.address + |w.mask|)
      ensures b in r
    {
      if b !in ret && base < b {
        MultiplesApart(base, b, W);
      }
      assert b in ret2 || (b % W == 0 && base + W <= b < w.address + |w.mask|);
    }
    forall b | b in r
      ensures r[b] == (if b in ret then ret[b] else [])
                      + (if b % W == 0 && base <= b < w.address + |w.mask| then [RowAt(b, w, W)] else [])
    {
      if b == base {
      } else if base < b && b % W == 0 {
        MultiplesApart(base, b, W);
        assert b in ret2 <==> b in ret;
      } else {
        assert b in ret2 <==> b in ret;
      }
    }
  }

  /** One write of the input: a row for every word it touches. */
  function WriteEntry(ret: map<nat, seq<Oracles.WordWrite>>, w: MaskedWrite, W: nat): (r: map<nat, seq<Oracles.WordWrite>>)
    requires 1 <= W && Sound(w)
  {
    WriteWords(ret, w, W, FirstWord(w.address, W), 0)
  }

  /** A write appends its padded row to exactly the words it touches. */
  lemma WriteEntryRows(ret: map<nat, seq<Oracles.WordWrite>>, w: MaskedWrite, W: nat, b: nat)
    requires 1 <= W && Sound(w)
    ensures var r := WriteEntry(ret, w, W);
      (b in r <==> b in ret || Touches(w.address, |w.mask|, W, b))
      && (b in r ==> r[b] == (if b in ret then ret[b] else [])
                             + (if Touches(w.address, |w.mask|, W, b) then [RowAt(b, w, W)] else []))
  {
    assert RowsAppended(ret, WriteEntry(ret, w, W), w, W, FirstWord(w.address, W));
  }

  /** The writes of the input dictionary in the order the two nested loops
      visit them: addresses in insertion order, each address's list in
      order. */
  function Flatten(items: seq<(nat, seq<Oracles.WordWrite>)>): (r: seq<MaskedWrite>)
    ensures |r| == Sum(items)
    decreases |items|
  {
    if items == [] then []
    else
      var (a, ws) := items[0];
      seq(|ws|, k requires 0 <= k < |ws| => MaskedWrite(a, ws[k].vals, ws[k].mask)) + Flatten(items[1..])
  }

  function Sum(items: seq<(nat, seq<Oracles.WordWrite>)>): nat
    decreases |items|
  {
    if items == [] then 0 else |items[0].1| + Sum(items[1..])
  }

  /** Every write indexes only values it has. */
  predicate AllSound(ws: seq<MaskedWrite>)
  {
    forall k :: 0 <= k < |ws| ==> Sound(ws[k])
  }

  /** The loops over the flattened writes. */
  function SplitWrites(ws: seq<MaskedWrite>, W: nat): (r: map<nat, seq<Oracles.WordWrite>>)
    requires 1 <= W && AllSound(ws)
    decreases |ws|
  {
    if ws == [] then map[]
    else
      var n := |ws| - 1;
      WriteEntry(SplitWrites(ws[..n], W), ws[n], W)
  }

  /** `split_write_to_bus_width`. */
  function SplitWrite(items: seq<(nat, seq<Oracles.WordWrite>)>, W: nat): (r: map<nat, seq<Oracles.WordWrite>>)
    requires 1 <= W && AllSound(Flatten(items))
  {
    SplitWrites(Flatten(items), W)
  }

  /** The rows word `b` should collect: one padded row per write touching
      it, in write order. */
  function RowsAt(ws: seq<MaskedWrite>, W: nat, b: nat): seq<Oracles.WordWrite>
    requires 1 <= W && AllSound(ws)
    decreases |ws|
  {
    if ws == [] then []
    else
      var n := |ws| - 1;
      RowsAt(ws[..n], W, b) + (if Touches(ws[n].address, |ws[n].mask|, W, b) then [RowAt(b, ws[n], W)] else [])
  }

  /** The keys of `split_write_to_bus_width` are the touched words, and each
      word holds one padded row per write touching it, in order. */
  lemma {:induction false} SplitWritesRows(ws: seq<MaskedWrite>, W: nat, b: nat)
    requires 1 <= W && AllSound(ws)
    decreases |ws|
    ensures var r := SplitWrites(ws, W);
      (b in r <==> RowsAt(ws, W, b) != []) && (b in r ==> r[b] == RowsAt(ws, W, b))
  {
    if ws != [] {
      var n := |ws| - 1;
      SplitWritesRows(ws[..n], W, b);
      WriteEntryRows(SplitWrites(ws[..n], W), ws[n], W, b);
    }
  }

  /** The byte position `p` holds after the writes, starting from `before`:
      the last write whose range covers `p` with the enable set wins. */
  function WrittenAt(ws: seq<MaskedWrite>, p: nat, before: Byte): Byte
    requires AllSound(ws)
    decreases |ws|
  {
    if ws == [] then before
    else
      var n := |ws| - 1;
      var w := ws[n];
      if InRange(p, w.address, |w.mask|) && w.mask[p - w.address] then w.vals[p - w.address]
      else WrittenAt(ws[..n], p, before)
  }

  /** Applying word `b`'s rows in order to its previous bytes gives what the
      writes, applied in order to the whole memory, leave in that word. */
  lemma {:induction false} RowsApplied(prev: seq<Byte>, ws: seq<MaskedWrite>, W: nat, b: nat, j: nat)
    requires 1 <= W && AllSound(ws) && |prev| == W && j < W && b % W == 0
    ensures Oracles.Covers(RowsAt(ws, W, b), W)
    ensures Oracles.ApplyRows(prev, RowsAt(ws, W, b))[j] == WrittenAt(ws, b + j, prev[j])
    decreases |ws|
  {
    if ws != [] {
      var n := |ws| - 1;
      var w := ws[n];
      RowsApplied(prev, ws[..n], W, b, j);
      var before := RowsAt(ws[..n], W, b);
      var rows := RowsAt(ws, W, b);
      if Touches(w.address, |w.mask|, W, b) {
        assert rows == before + [RowAt(b, w, W)];
        assert rows[..|before|] == before;
      } else {
        assert rows == before;
        if InRange(b + j, w.address, |w.mask|) {
          CoveredWordVisited(w.address, |w.mask|, W, b, j);
          assert false;
        }
      }
    }
  }
}
