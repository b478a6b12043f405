/** The multi-master read check: a word read while several masters wrote to
    it is accepted when some ordering of some non-empty subset of the writes
    produces it.  `get_powerset` and `itertools.permutations` are modelled
    as the lists they yield, in the order they yield them. */
module Orderings {
  import opened Bits
  import Oracles

  // ----------------------------------------------------------------------
  // Subsequences

  /** `x` is obtained from `s` by deleting elements (positions, not values:
      a repeated element may be picked at either position). */
  predicate IsSubseq<T(==)>(x: seq<T>, s: seq<T>)
    decreases |s|
  {
    if x == [] then true
    else if s == [] then false
    else (x[0] == s[0] && IsSubseq(x[1..], s[1..])) || IsSubseq(x, s[1..])
  }

  lemma {:induction false} SubseqShorter<T>(x: seq<T>, s: seq<T>)
    requires IsSubseq(x, s)
    ensures |x| <= |s|
    decreases |s|
  {
    if x != [] {
      if x[0] == s[0] && IsSubseq(x[1..], s[1..]) {
        SubseqShorter(x[1..], s[1..]);
      } else {
        SubseqShorter(x, s[1..]);
      }
    }
  }

  /** A subsequence takes no element more often than the list has it. */
  lemma {:induction false} SubseqMultiset<T>(x: seq<T>, s: seq<T>)
    requires IsSubseq(x, s)
    ensures multiset(x) <= multiset(s)
    decreases |s|
  {
    if x != [] {
      assert s == [s[0]] + s[1..];
      if x[0] == s[0] && IsSubseq(x[1..], s[1..]) {
        SubseqMultiset(x[1..], s[1..]);
        assert x == [x[0]] + x[1..];
      } else {
        SubseqMultiset(x, s[1..]);
      }
    }
  }

  /** `[x]` put in front of every list of `ss`. */
  function Prepend<T>(x: T, ss: seq<seq<T>>): (r: seq<seq<T>>)
    ensures |r| == |ss| && forall i :: 0 <= i < |ss| ==> r[i] == [x] + ss[i]
  {
    seq(|ss|, i requires 0 <= i < |ss| => [x] + ss[i])
  }

  lemma PrependMember<T>(x: T, ss: seq<seq<T>>, c: seq<T>)
    ensures c in Prepend(x, ss) <==> c != [] && c[0] == x && c[1..] in ss
  {
    var r := Prepend(x, ss);
    if c in r {
      var i :| 0 <= i < |r| && r[i] == c;
      assert c[1..] == ss[i];
    }
    if c != [] && c[0] == x && c[1..] in ss {
      var i :| 0 <= i < |ss| && ss[i] == c[1..];
      assert r[i] == c;
    }
  }

  /** `itertools.combinations(s, r)`: the `r`-element subsequences, in
      lexicographic order of the picked positions. */
  function Combinations<T>(s: seq<T>, r: nat): seq<seq<T>>
    decreases |s|
  {
    if r == 0 then [[]]
    else if |s| < r then []
    else Prepend(s[0], Combinations(s[1..], r - 1)) + Combinations(s[1..], r)
  }

  /** `combinations(s, r)` yields exactly the subsequences of length `r`. */
  lemma {:induction false} CombinationsMembers<T>(s: seq<T>, r: nat, c: seq<T>)
    ensures c in Combinations(s, r) <==> |c| == r && IsSubseq(c, s)
    decreases |s|
  {
    if r == 0 {
    } else if |s| < r {
      if IsSubseq(c, s) {
        SubseqShorter(c, s);
      }
    } else {
      CombinationsMembers(s[1..], r, c);
      if c != [] {
        CombinationsMembers(s[1..], r - 1, c[1..]);
      }
      CombinationsStep(s, r, c);
    }
  }

  /** The step of `CombinationsMembers`: a combination either starts with
      `s[0]` or leaves it out. */
  lemma CombinationsStep<T>(s: seq<T>, r: nat, c: seq<T>)
    requires 0 < r <= |s|
    requires c in Combinations(s[1..], r) <==> |c| == r && IsSubseq(c, s[1..])
    requires c != [] ==> (c[1..] in Combinations(s[1..], r - 1) <==> |c[1..]| == r - 1 && IsSubseq(c[1..], s[1..]))
    ensures c in Combinations(s, r) <==> |c| == r && IsSubseq(c, s)
  {
    PrependMember(s[0], Combinations(s[1..], r - 1), c);
  }

  /** The sizes `r` and up of `get_powerset`. */
  function PowersetFrom<T>(s: seq<T>, r: nat): seq<seq<T>>
    decreases |s| + 1 - r
  {
    if |s| < r then [] else Combinations(s, r) + PowersetFrom(s, r + 1)
  }

  /** `get_powerset`: the combinations of every size from 1 to `|s|`. */
  function Powerset<T>(s: seq<T>): seq<seq<T>>
  {
    PowersetFrom(s, 1)
  }

  lemma {:induction false} PowersetFromMembers<T>(s: seq<T>, r: nat, x: seq<T>)
    ensures x in PowersetFrom(s, r) <==> r <= |x| && IsSubseq(x, s)
    decreases |s| + 1 - r
  {
    if |s| < r {
      if IsSubseq(x, s) {
        SubseqShorter(x, s);
      }
    } else {
      assert x in PowersetFrom(s, r) <==> x in Combinations(s, r) || x in PowersetFrom(s, r + 1);
      CombinationsMembers(s, r, x);
      PowersetFromMembers(s, r + 1, x);
    }
  }

  /** `get_powerset` yields exactly the non-empty subsequences. */
  lemma PowersetMembers<T>(s: seq<T>, x: seq<T>)
    ensures x in Powerset(s) <==> x != [] && IsSubseq(x, s)
  {
    PowersetFromMembers(s, 1, x);
  }

  // ----------------------------------------------------------------------
  // Permutations

  /** `s` without position `i`. */
  function Remove<T>(s: seq<T>, i: nat): (r: seq<T>)
    requires i < |s|
    ensures |r| == |s| - 1 && multiset(r) + multiset{s[i]} == multiset(s)
  {
    assert s == s[..i] + [s[i]] + s[i + 1..];
    s[..i] + s[i + 1..]
  }

  /** `itertools.permutations(s)`: each position in turn goes first, followed
      by the permutations of the rest. */
  function Perms<T>(s: seq<T>): seq<seq<T>>
    decreases |s|, 1, 0
  {
    if s == [] then [[]] else PermsFrom(s, 0)
  }

  /** The permutations whose first element comes from position `i` or later. */
  function PermsFrom<T>(s: seq<T>, i: nat): seq<seq<T>>
    requires i <= |s|
    decreases |s|, 0, |s| - i
  {
    if i == |s| then [] else Prepend(s[i], Perms(Remove(s, i))) + PermsFrom(s, i + 1)
  }

  lemma {:induction false} PermsFromMembers<T>(s: seq<T>, i: nat, p: seq<T>)
    requires i <= |s|
    ensures p in PermsFrom(s, i) <==> exists j :: i <= j < |s| && p in Prepend(s[j], Perms(Remove(s, j)))
    decreases |s| - i
  {
    if i < |s| {
      PermsFromMembers(s, i + 1, p);
    }
  }

  /** Every list `permutations(s)` yields holds the elements of `s`, as
      often. */
  lemma {:induction false} PermsSound<T>(s: seq<T>, p: seq<T>)
    requires p in Perms(s)
    ensures multiset(p) == multiset(s)
    decreases |s|
  {
    if s == [] {
      assert p == [];
    } else {
      var j := PickFirst(s, p);
      PermsSound(Remove(s, j), p[1..]);
      PermsSoundStep(s, p, j);
    }
  }

  /** The position of `s` that a member of `permutations(s)` starts with. */
  lemma PickFirst<T>(s: seq<T>, p: seq<T>) returns (j: nat)
    requires s != [] && p in Perms(s)
    ensures j < |s| && p != [] && p[0] == s[j] && p[1..] in Perms(Remove(s, j))
  {
    PermsFromMembers(s, 0, p);
    j :| 0 <= j < |s| && p in Prepend(s[j], Perms(Remove(s, j)));
    PrependMember(s[j], Perms(Remove(s, j)), p);
  }

  /** The step of `PermsSound`: `s[j]` followed by a rearrangement of the
      rest of `s` rearranges `s`. */
  lemma PermsSoundStep<T>(s: seq<T>, p: seq<T>, j: nat)
    requires j < |s| && p != [] && p[0] == s[j] && multiset(p[1..]) == multiset(Remove(s, j))
    ensures multiset(p) == multiset(s)
  {
    assert p == [s[j]] + p[1..];
    assert multiset(p) == multiset{s[j]} + multiset(p[1..]);
  }

  /** Every rearrangement of `s` is among the lists `permutations(s)`
      yields. */
  lemma {:induction false} PermsComplete<T>(s: seq<T>, p: seq<T>)
    requires multiset(p) == multiset(s)
    ensures p in Perms(s)
    decreases |s|
  {
    if s == [] {
      assert |p| == |multiset(p)|;
    } else {
      var j := PickHead(s, p);
      PermsComplete(Remove(s, j), p[1..]);
      PermsCompleteStep(s, p, j);
    }
  }

  /** A position of `s` holding the first element of its rearrangement `p`;
      the rest of `p` rearranges the rest of `s`. */
  lemma PickHead<T>(s: seq<T>, p: seq<T>) returns (j: nat)
    requires s != [] && multiset(p) == multiset(s)
    ensures j < |s| && p != [] && s[j] == p[0]
    ensures multiset(p[1..]) == multiset(Remove(s, j))
  {
    assert p != [] by {
      assert s[0] in multiset(s);
    }
    assert p == [p[0]] + p[1..];
    assert multiset(p) == multiset{p[0]} + multiset(p[1..]);
    assert p[0] in multiset(s);
    j :| 0 <= j < |s| && s[j] == p[0];
    var rest := Remove(s, j);
    assert multiset(p[1..]) == multiset(p) - multiset{p[0]};
    assert multiset(rest) == multiset(s) - multiset{s[j]};
  }

  /** The step of `PermsComplete`: `p` starts with `s[j]` and continues with
      a permutation of the rest. */
  lemma PermsCompleteStep<T>(s: seq<T>, p: seq<T>, j: nat)
    requires j < |s| && p != [] && s[j] == p[0] && p[1..] in Perms(Remove(s, j))
    ensures p in Perms(s)
  {
    PrependMember(s[j], Perms(Remove(s, j)), p);
    PermsFromMembers(s, 0, p);
  }

  /** `permutations(s)` yields exactly the lists holding the same elements
      as `s`, as often. */
  lemma PermsMembers<T>(s: seq<T>, p: seq<T>)
    ensures p in Perms(s) <==> multiset(p) == multiset(s)
  {
    if p in Perms(s) {
      PermsSound(s, p);
    }
    if multiset(p) == multiset(s) {
      PermsComplete(s, p);
    }
  }

  // ----------------------------------------------------------------------
  // compare_multimaster_read_values

  /** Applying `p` in order to `start` gives `read`.  (When every write is
      long enough, the first conjunct always holds.) */
  predicate Hit(start: seq<Byte>, p: seq<Oracles.WordWrite>, read: seq<Byte>)
  {
    Oracles.Covers(p, |start|) && Oracles.ApplyRows(start, p) == read
  }

  /** Some ordering in `perms` turns `start` into `read`. */
  function AnyOrder(start: seq<Byte>, perms: seq<seq<Oracles.WordWrite>>, read: seq<Byte>): (r: bool)
    decreases |perms|
    ensures r <==> exists k :: 0 <= k < |perms| && Hit(start, perms[k], read)
  {
    if perms == [] then false
    else
      var later := AnyOrder(start, perms[1..], read);
      assert later ==> exists k :: 0 <= k < |perms| && Hit(start, perms[k], read) by {
        if later {
          var k :| 0 <= k < |perms| - 1 && Hit(start, perms[1..][k], read);
          assert perms[1..][k] == perms[k + 1];
        }
      }
      Hit(start, perms[0], read) || later
  }

  /** A reordering or a selection of writes that all fit stays fitting. */
  lemma CoversFewer(a: seq<Oracles.WordWrite>, b: seq<Oracles.WordWrite>, n: nat)
    requires Oracles.Covers(b, n) && multiset(a) <= multiset(b)
    ensures Oracles.Covers(a, n)
  {
    forall k | 0 <= k < |a|
      ensures n <= |a[k].vals| && n <= |a[k].mask|
    {
      assert a[k] in multiset(a);
      assert a[k] in b;
    }
  }

  /** Some ordering of some subset in `subs` turns `start` into `read`. */
  function AnySubset(start: seq<Byte>, subs: seq<seq<Oracles.WordWrite>>, read: seq<Byte>): (r: bool)
    decreases |subs|
    ensures r <==> exists k, p :: 0 <= k < |subs| && p in Perms(subs[k]) && Hit(start, p, read)
  {
    if subs == [] then false
    else
      var here := AnyOrder(start, Perms(subs[0]), read);
      var later := AnySubset(start, subs[1..], read);
      AnySubsetStep(start, subs, read, here, later);
      here || later
  }

  lemma AnySubsetStep(start: seq<Byte>, subs: seq<seq<Oracles.WordWrite>>, read: seq<Byte>, here: bool, later: bool)
    requires subs != []
    requires here <==> exists k :: 0 <= k < |Perms(subs[0])| && Hit(start, Perms(subs[0])[k], read)
    requires later <==> exists k, p :: 0 <= k < |subs| - 1 && p in Perms(subs[1..][k]) && Hit(start, p, read)
    ensures here || later <==> exists k, p :: 0 <= k < |subs| && p in Perms(subs[k]) && Hit(start, p, read)
  {
    var rest := subs[1..];
    if here {
      var j :| 0 <= j < |Perms(subs[0])| && Hit(start, Perms(subs[0])[j], read);
      var p := Perms(subs[0])[j];
      assert 0 <= 0 < |subs| && p in Perms(subs[0]);
    } else if later {
      var k, p :| 0 <= k < |rest| && p in Perms(rest[k]) && Hit(start, p, read);
      assert rest[k] == subs[k + 1];
    } else {
      forall k, p | 0 <= k < |subs| && p in Perms(subs[k])
        ensures !Hit(start, p, read)
      {
        if k == 0 {
          var j :| 0 <= j < |Perms(subs[0])| && Perms(subs[0])[j] == p;
          assert !Hit(start, Perms(subs[0])[j], read);
        } else {
          assert subs[k] == rest[k - 1];
          assert 0 <= k - 1 < |subs| - 1 && p in Perms(subs[1..][k - 1]);
        }
      }
    }
  }

  /** Some non-empty selection of the writes, applied in some order to
      `start`, gives `read`. */
  ghost predicate Reachable(start: seq<Byte>, writes: seq<Oracles.WordWrite>, read: seq<Byte>)
  {
    exists o :: o != [] && multiset(o) <= multiset(writes) && Oracles.Covers(o, |start|)
                && Oracles.ApplyRows(start, o) == read
  }

  /** The elements of `ws`, in order, that the multiset `m` asks for. */
  function Pick<T(==)>(ws: seq<T>, m: multiset<T>): (r: seq<T>)
    decreases |ws|
    ensures IsSubseq(r, ws)
    ensures m <= multiset(ws) ==> multiset(r) == m
  {
    if ws == [] then []
    else
      assert ws == [ws[0]] + ws[1..];
      if ws[0] in m then [ws[0]] + Pick(ws[1..], m - multiset{ws[0]})
      else Pick(ws[1..], m)
  }

  /** `compare_multimaster_read_values` returns (rather than failing its
      assertion) when some ordering of some non-empty subset of the writes
      turns `start` into `read`. */
  function CompareMultimaster(start: seq<Byte>, writes: seq<Oracles.WordWrite>, read: seq<Byte>): (r: bool)
    requires Oracles.Covers(writes, |start|)
  {
    AnySubset(start, Powerset(writes), read)
  }

  /** The check accepts exactly the reachable reads. */
  lemma CompareMultimasterReachable(start: seq<Byte>, writes: seq<Oracles.WordWrite>, read: seq<Byte>)
    requires Oracles.Covers(writes, |start|)
    ensures CompareMultimaster(start, writes, read) <==> Reachable(start, writes, read)
  {
    if CompareMultimaster(start, writes, read) {
      AcceptedReachable(start, writes, read);
    }
    if Reachable(start, writes, read) {
      ReachableAccepted(start, writes, read);
    }
  }

  /** What the check accepts is reachable. */
  lemma AcceptedReachable(start: seq<Byte>, writes: seq<Oracles.WordWrite>, read: seq<Byte>)
    requires Oracles.Covers(writes, |start|) && CompareMultimaster(start, writes, read)
    ensures Reachable(start, writes, read)
  {
    var subs := Powerset(writes);
    var k, p :| 0 <= k < |subs| && p in Perms(subs[k]) && Hit(start, p, read);
    PowersetMembers(writes, subs[k]);
    SubseqMultiset(subs[k], writes);
    PermsMembers(subs[k], p);
    assert p != [] by {
      assert subs[k][0] in multiset(subs[k]);
    }
  }

  /** What is reachable, the check accepts. */
  lemma ReachableAccepted(start: seq<Byte>, writes: seq<Oracles.WordWrite>, read: seq<Byte>)
    requires Oracles.Covers(writes, |start|) && Reachable(start, writes, read)
    ensures CompareMultimaster(start, writes, read)
  {
    var subs := Powerset(writes);
    var o :| o != [] && multiset(o) <= multiset(writes) && Oracles.Covers(o, |start|)
             && Oracles.ApplyRows(start, o) == read;
    var sub := Pick(writes, multiset(o));
    assert sub != [] by {
      assert o[0] in multiset(o);
    }
    PowersetMembers(writes, sub);
    var k :| 0 <= k < |subs| && subs[k] == sub;
    PermsMembers(sub, o);
    assert Hit(start, o, read);
  }
}
