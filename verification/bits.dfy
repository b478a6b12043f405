/** The arithmetic view of the unbounded integers the testbench packs bits and
    bytes into.  A byte mask is read through its base-2 digits (`Bit`), a data
    word through its base-256 digits (`Lane`): byte lane `j` of a data word `d`
    is `(d >> 8*j) & 0xFF`, and `Pow(256, j)` is `2**(8*j)`.  Building a word
    with `|=` over disjoint lanes is the same as `Pack`ing its digits. */
module Bits {

  /** A radix of a positional number system. */
  type Base = b: nat | 2 <= b witness 2

  /** A byte value. */
  type Byte = b: int | 0 <= b < 256

  function Pow(b: nat, n: nat): (r: nat)
    ensures 1 <= b ==> 1 <= r
  {
    if n == 0 then 1 else b * Pow(b, n - 1)
  }

  function Pow2(n: nat): (r: nat)
    ensures 1 <= r
  {
    Pow(2, n)
  }

  /** Digit `k` of `x` written in base `B`. */
  function Digit(x: nat, B: Base, k: nat): (d: nat)
    ensures d < B
  {
    (x / Pow(B, k)) % B
  }

  /** Bit `i` of a mask: `mask & 2**i != 0`. */
  predicate Bit(m: nat, i: nat)
  {
    Digit(m, 2, i) == 1
  }

  /** Byte lane `j` of a data word: `(d >> 8*j) & 0xFF`. */
  function Lane(d: nat, j: nat): Byte
  {
    Digit(d, 256, j)
  }

  /** The number whose base-`B` digits, least significant first, are `ds`. */
  function Pack(ds: seq<nat>, B: Base): nat
  {
    if ds == [] then 0 else ds[0] + B * Pack(ds[1..], B)
  }

  ghost predicate Digits(ds: seq<nat>, B: Base)
  {
    forall i :: 0 <= i < |ds| ==> ds[i] < B
  }

  function Zeros(n: nat): (z: seq<nat>)
    ensures |z| == n
  {
    seq(n, _ => 0)
  }

  function Ones(n: nat): (z: seq<nat>)
    ensures |z| == n
  {
    seq(n, _ => 1)
  }

  /** The 0/1 digits of a list of per-byte enables. */
  function BitsOf(bs: seq<bool>): (ds: seq<nat>)
    ensures |ds| == |bs|
  {
    seq(|bs|, i requires 0 <= i < |bs| => if bs[i] then 1 else 0)
  }

  /** The integer mask whose bit `i` is `bs[i]`. */
  function MaskOf(bs: seq<bool>): nat
  {
    Pack(BitsOf(bs), 2)
  }

  /** `(2**n - 1) << off`: `n` consecutive set bits starting at bit `off`. */
  function RunMask(n: nat, off: nat): nat
  {
    (Pow2(n) - 1) * Pow2(off)
  }

  /** `bit_length(n) - 1`, the floor of the base-2 logarithm. */
  function Log2(n: nat): (r: nat)
    requires 1 <= n
    ensures Pow2(r) <= n < Pow2(r + 1)
  {
    if n == 1 then 0 else 1 + Log2(n / 2)
  }

  predicate IsPow2(n: nat)
  {
    1 <= n && Pow2(Log2(n)) == n
  }

  /** Bitwise AND of two non-negative integers. */
  function And(a: nat, b: nat): nat
  {
    if a == 0 || b == 0 then 0
    else 2 * And(a / 2, b / 2) + (if a % 2 == 1 && b % 2 == 1 then 1 else 0)
  }

  /** `a & ~(2**k - 1)`: `a` with its low `k` bits cleared. */
  function AlignDown(a: nat, k: nat): (r: nat)
    ensures r % Pow2(k) == 0 && r <= a && a - r < Pow2(k)
  {
    DivMod(a, Pow2(k));
    MulModZero(a / Pow2(k), Pow2(k));
    a - a % Pow2(k)
  }

  // ----------------------------------------------------------------------
  // Division facts

  lemma MulAtLeast(d: int, k: int)
    requires 0 < d
    ensures 1 <= k ==> d <= d * k
    ensures k <= -1 ==> d * k <= -d
  {
    if 1 <= k {
      assert d * k == d + d * (k - 1);
    } else if k <= -1 {
      assert d * k == -d + d * (k + 1);
      assert d * (k + 1) == -(d * (-k - 1));
    }
  }

  lemma MulMono(a: nat, x: nat, y: nat)
    requires x <= y
    ensures a * x <= a * y
  {
    assert a * y == a * x + a * (y - x);
  }

  lemma DivModUnique(x: int, d: int, q: int, r: int)
    requires 0 < d && x == d * q + r && 0 <= r < d
    ensures x / d == q && x % d == r
  {
    var q', r' := x / d, x % d;
    assert x == d * q' + r';
    assert d * (q - q') == r' - r;
    MulAtLeast(d, q - q');
  }

  lemma DivMod(x: int, d: int)
    requires 0 < d
    ensures x == d * (x / d) + x % d && 0 <= x % d < d
  {
  }

  lemma MulModZero(q: nat, d: nat)
    requires 0 < d
    ensures (q * d) % d == 0 && (q * d) / d == q
  {
    DivModUnique(q * d, d, q, 0);
  }

  lemma DivDiv(x: nat, a: nat, b: nat)
    requires 0 < a && 0 < b
    ensures x / (a * b) == (x / a) / b
  {
    var q, r := x / a, x % a;
    var q2, r2 := q / b, q % b;
    Regroup(x, a, b, q, r, q2, r2);
    DivModUnique(x, a * b, q2, a * r2 + r);
  }

  /** `x = a*(b*q2 + r2) + r` regrouped as a division by `a*b`. */
  lemma Regroup(x: nat, a: nat, b: nat, q: nat, r: nat, q2: nat, r2: nat)
    requires 0 < a && 0 < b
    requires q == x / a && r == x % a && q2 == q / b && r2 == q % b
    ensures x == (a * b) * q2 + (a * r2 + r) && 0 <= a * r2 + r < a * b
  {
    DivMod(x, a);
    DivMod(q, b);
    assert x == a * (b * q2 + r2) + r;
    Distrib(a, b * q2, r2);
    MulAssoc(a, b, q2);
    MulMono(a, r2, b - 1);
    Distrib(a, b, -1);
  }

  /** `x % (a*b)` is zero exactly when `x % a` and `(x / a) % b` are. */
  lemma ModMulZero(x: nat, a: nat, b: nat)
    requires 0 < a && 0 < b
    ensures x % (a * b) == 0 <==> x % a == 0 && (x / a) % b == 0
  {
    var q, r := x / a, x % a;
    var q2, r2 := q / b, q % b;
    Regroup(x, a, b, q, r, q2, r2);
    DivModUnique(x, a * b, q2, a * r2 + r);
    if a * r2 + r == 0 {
      MulAtLeast(a, r2);
    }
  }

  /** Reducing modulo a multiple of `a` first does not change the residue
      modulo `a`. */
  lemma ModMod(x: nat, a: nat, b: nat)
    requires 0 < a && 0 < b
    ensures (x % (a * b)) % a == x % a
  {
    var q, r := x / a, x % a;
    var q2, r2 := q / b, q % b;
    Regroup(x, a, b, q, r, q2, r2);
    DivModUnique(x, a * b, q2, a * r2 + r);
    DivModUnique(a * r2 + r, a, r2, r);
  }

  // ----------------------------------------------------------------------
  // Powers

  lemma MulAssoc(a: int, b: int, c: int)
    ensures a * (b * c) == (a * b) * c
  {
  }

  lemma MulComm(a: int, b: int)
    ensures a * b == b * a
  {
  }

  lemma Distrib(a: int, b: int, c: int)
    ensures a * (b + c) == a * b + a * c
  {
  }

  lemma {:induction false} PowAdd(b: nat, m: nat, n: nat)
    ensures Pow(b, m + n) == Pow(b, m) * Pow(b, n)
  {
    if m > 0 {
      PowAdd(b, m - 1, n);
      MulAssoc(b, Pow(b, m - 1), Pow(b, n));
      assert Pow(b, m + n) == b * Pow(b, (m - 1) + n);
    }
  }

  lemma Pow2Mono(m: nat, n: nat)
    requires m <= n
    ensures Pow2(m) <= Pow2(n)
  {
    PowAdd(2, m, n - m);
  }

  lemma Pow2Strict(m: nat, n: nat)
    requires m < n
    ensures 2 * Pow2(m) <= Pow2(n)
  {
    PowAdd(2, m + 1, n - m - 1);
  }

  lemma Pow2Inj(m: nat, n: nat)
    ensures Pow2(m) == Pow2(n) <==> m == n
  {
    if m < n { Pow2Strict(m, n); }
    if n < m { Pow2Strict(n, m); }
  }

  lemma Pow2Succ(n: nat)
    ensures Pow2(n + 1) == 2 * Pow2(n)
  {
  }

  /** Alignment to `2**k` implies alignment to every smaller power of two. */
  lemma AlignedSmaller(a: nat, i: nat, k: nat)
    requires i <= k && a % Pow2(k) == 0
    ensures a % Pow2(i) == 0
  {
    var p, m := Pow2(i), Pow2(k - i);
    PowAdd(2, i, k - i);
    assert Pow2(k) == p * m;
    DivMod(a, p * m);
    var q := a / (p * m);
    MulAssoc(p, m, q);
    var t := m * q;
    assert a == t * p;
    MulModZero(t, p);
  }

  /** A multiple of `2**i` with bit `i` clear is a multiple of `2**(i+1)`;
      with bit `i` set, adding `2**i` makes it one. */
  lemma AlignStep(a: nat, i: nat)
    requires a % Pow2(i) == 0
    ensures !Bit(a, i) ==> a % Pow2(i + 1) == 0
    ensures Bit(a, i) ==> (a + Pow2(i)) % Pow2(i + 1) == 0
  {
    var p := Pow2(i);
    assert Pow2(i + 1) == p * 2;
    assert Bit(a, i) <==> (a / p) % 2 == 1;
    StepAligned(a, p);
  }

  lemma StepAligned(a: nat, p: nat)
    requires 0 < p && a % p == 0
    ensures (a / p) % 2 == 0 ==> a % (p * 2) == 0
    ensures (a / p) % 2 == 1 ==> (a + p) % (p * 2) == 0
  {
    ModMulZero(a, p, 2);
    DivMod(a, p);
    var q := a / p;
    assert a + p == (q + 1) * p;
    MulModZero(q + 1, p);
    ModMulZero(a + p, p, 2);
  }

  /** Rounding down to `2**r` is rounding down to the larger `2**l` and
      then rounding the offset within that block down to `2**r`; this is
      `a & ~(2**r - 1)` computed in two steps. */
  lemma AlignDownSplit(a: nat, r: nat, l: nat)
    requires r <= l
    ensures AlignDown(a, r) == AlignDown(a, l) + AlignDown(a % Pow2(l), r)
  {
    PowAdd(2, r, l - r);
    assert Pow2(l) == Pow2(r) * Pow2(l - r);
    ModMod(a, Pow2(r), Pow2(l - r));
  }

  lemma AlignedOffset(a: nat, i: nat, l: nat)
    requires i <= l && a % Pow2(i) == 0
    ensures (a % Pow2(l)) % Pow2(i) == 0
    ensures a % Pow2(l) + Pow2(i) <= Pow2(l)
  {
    PowAdd(2, i, l - i);
    OffsetAligned(a, Pow2(i), Pow2(l - i));
  }

  lemma OffsetAligned(a: nat, p: nat, m: nat)
    requires 0 < p && 0 < m && a % p == 0
    ensures (a % (p * m)) % p == 0 && a % (p * m) + p <= p * m
  {
    DivMod(a, p);
    var q := a / p;
    DivMod(q, m);
    var t, o := q / m, q % m;
    OffsetSplit(a, p, m, q, t, o);
    DivModUnique(a, p * m, t, p * o);
  }

  /** `a = p*(m*t + o)` with `o < m` regrouped as `(p*m)*t + p*o`, where
      `p*o` is a multiple of `p` that leaves room for `p` more below `p*m`. */
  lemma OffsetSplit(a: nat, p: nat, m: nat, q: nat, t: nat, o: nat)
    requires 0 < p && 0 < m && a == p * q && q == m * t + o && o < m
    ensures a == (p * m) * t + p * o && 0 <= p * o && p * o + p <= p * m
    ensures (p * o) % p == 0
  {
    Distrib(p, m * t, o);
    MulAssoc(p, m, t);
    MulMono(p, 0, o);
    MulMono(p, o + 1, m);
    Distrib(p, o, 1);
    MulComm(p, o);
    MulModZero(o, p);
  }

  lemma ModSumZero(x: nat, y: nat, d: nat)
    requires 0 < d && x % d == 0
    ensures (x + y) % d == y % d
  {
    DivMod(x, d);
    DivMod(y, d);
    assert x + y == d * (x / d + y / d) + y % d;
    DivModUnique(x + y, d, x / d + y / d, y % d);
  }

  // ----------------------------------------------------------------------
  // Digits

  lemma DigitZero(x: nat, B: Base)
    ensures Digit(x, B, 0) == x % B
  {
  }

  lemma DigitShift(x: nat, B: Base, k: nat)
    ensures Digit(x, B, k + 1) == Digit(x / B, B, k)
  {
    assert Pow(B, k + 1) == B * Pow(B, k);
    DivDiv(x, B, Pow(B, k));
  }

  lemma DigitOfZero(B: Base, k: nat)
    ensures Digit(0, B, k) == 0
  {
  }

  /** Reading a digit back out of a packed number gives the digit put in. */
  lemma {:induction false} PackDigit(ds: seq<nat>, B: Base, k: nat)
    requires Digits(ds, B)
    ensures Digit(Pack(ds, B), B, k) == if k < |ds| then ds[k] else 0
    decreases |ds|
  {
    if ds == [] {
      DigitOfZero(B, k);
    } else {
      var rest := Pack(ds[1..], B);
      assert Pack(ds, B) == ds[0] + B * rest;
      DivModUnique(Pack(ds, B), B, rest, ds[0]);
      if k == 0 {
        DigitZero(Pack(ds, B), B);
      } else {
        DigitShift(Pack(ds, B), B, k - 1);
        PackDigit(ds[1..], B, k - 1);
      }
    }
  }

  lemma {:induction false} PackBound(ds: seq<nat>, B: Base)
    requires Digits(ds, B)
    ensures Pack(ds, B) < Pow(B, |ds|)
    decreases |ds|
  {
    if ds != [] {
      PackBound(ds[1..], B);
      var rest, p := Pack(ds[1..], B), Pow(B, |ds| - 1);
      assert Pow(B, |ds|) == B * p;
      MulMono(B, rest + 1, p);
      assert B * (rest + 1) == B * rest + B;
    }
  }

  /** Numbers with the same digits are equal. */
  lemma {:induction false} DigitsExt(a: nat, b: nat, B: Base)
    requires forall k: nat :: Digit(a, B, k) == Digit(b, B, k)
    ensures a == b
    decreases a + b
  {
    if a != 0 || b != 0 {
      forall k: nat
        ensures Digit(a / B, B, k) == Digit(b / B, B, k)
      {
        DigitShift(a, B, k);
        DigitShift(b, B, k);
      }
      DivLess(a, B);
      DivLess(b, B);
      DigitsExt(a / B, b / B, B);
      assert Digit(a, B, 0) == Digit(b, B, 0);
      DigitZero(a, B);
      DigitZero(b, B);
      DivMod(a, B);
      DivMod(b, B);
    }
  }

  lemma DivLess(x: nat, B: Base)
    ensures x / B <= x && (0 < x ==> x / B < x)
  {
    var q := x / B;
    DivMod(x, B);
    MulMono(q, 2, B);
    assert q * 2 <= q * B == B * q;
  }

  lemma {:induction false} PackShift(n: nat, ds: seq<nat>, B: Base)
    ensures Pack(Zeros(n) + ds, B) == Pow(B, n) * Pack(ds, B)
    decreases n
  {
    if n > 0 {
      assert (Zeros(n) + ds)[0] == 0 && (Zeros(n) + ds)[1..] == Zeros(n - 1) + ds;
      PackShift(n - 1, ds, B);
      MulAssoc(B, Pow(B, n - 1), Pack(ds, B));
    } else {
      assert Zeros(0) + ds == ds;
    }
  }

  /** Appending a most significant digit. */
  lemma {:induction false} PackSnoc(ds: seq<nat>, d: nat, B: Base)
    ensures Pack(ds + [d], B) == Pack(ds, B) + d * Pow(B, |ds|)
    decreases |ds|
  {
    if ds == [] {
      assert (ds + [d])[1..] == [];
    } else {
      var tail := ds[1..];
      assert (ds + [d])[0] == ds[0] && (ds + [d])[1..] == tail + [d];
      PackSnoc(tail, d, B);
      var p, q := Pow(B, |tail|), Pack(tail, B);
      assert Pow(B, |ds|) == B * p;
      assert Pack(ds + [d], B) == ds[0] + B * (q + d * p);
      Distrib(B, q, d * p);
      MulAssoc(B, d, p);
      MulAssoc(d, B, p);
    }
  }

  lemma {:induction false} PackOnes(n: nat)
    ensures Pack(Ones(n), 2) == Pow2(n) - 1
    decreases n
  {
    if n > 0 {
      assert Ones(n)[1..] == Ones(n - 1);
      PackOnes(n - 1);
    }
  }

  lemma OnesDigits(n: nat, off: nat)
    ensures Digits(Zeros(off) + Ones(n), 2)
  {
  }

  /** The set bits of `(2**n - 1) << off` are exactly bits `off .. off+n-1`. */
  lemma RunMaskBits(n: nat, off: nat, i: nat)
    ensures Bit(RunMask(n, off), i) <==> off <= i < off + n
  {
    PackShift(off, Ones(n), 2);
    PackOnes(n);
    assert RunMask(n, off) == Pack(Zeros(off) + Ones(n), 2);
    OnesDigits(n, off);
    PackDigit(Zeros(off) + Ones(n), 2, i);
  }

  lemma RunMaskSplit(n: nat, off: nat)
    ensures RunMask(n, off) % Pow2(off) == 0
    ensures RunMask(n, off) / Pow2(off) == Pow2(n) - 1
  {
    MulModZero(Pow2(n) - 1, Pow2(off));
  }

  /** The bits of `MaskOf(bs)` are `bs`, and nothing above. */
  lemma MaskOfBits(bs: seq<bool>, i: nat)
    ensures Bit(MaskOf(bs), i) <==> i < |bs| && bs[i]
  {
    PackDigit(BitsOf(bs), 2, i);
  }

  /** A mask built from enables is all ones exactly when every enable is set. */
  lemma MaskOfAllOnes(bs: seq<bool>)
    ensures MaskOf(bs) == Pow2(|bs|) - 1 <==> forall i :: 0 <= i < |bs| ==> bs[i]
  {
    var n := |bs|;
    PackOnes(n);
    if forall i :: 0 <= i < n ==> bs[i] {
      assert BitsOf(bs) == Ones(n);
    } else {
      var i :| 0 <= i < n && !bs[i];
      MaskOfBits(bs, i);
      PackDigit(Ones(n), 2, i);
    }
  }

  /** The bits of a mask below `off` are all clear exactly when the mask is a
      multiple of `2**off`, i.e. `m == (m >> off) << off`. */
  lemma {:induction false} LowBitsClear(m: nat, off: nat)
    ensures m % Pow2(off) == 0 <==> forall i :: 0 <= i < off ==> !Bit(m, i)
    decreases off
  {
    if off > 0 {
      LowBitsClear(m / 2, off - 1);
      assert Pow2(off) == 2 * Pow2(off - 1);
      ModMulZero(m, 2, Pow2(off - 1));
      DigitZero(m, 2);
      forall i | 0 < i < off
        ensures Bit(m, i) == Bit(m / 2, i - 1)
      {
        DigitShift(m, 2, i - 1);
      }
      if m % 2 == 0 && (m / 2) % Pow2(off - 1) == 0 {
        forall i | 0 <= i < off
          ensures !Bit(m, i)
        {
        }
      }
      if forall i :: 0 <= i < off ==> !Bit(m, i) {
        assert !Bit(m, 0);
        forall i | 0 <= i < off - 1
          ensures !Bit(m / 2, i)
        {
          assert !Bit(m, i + 1);
        }
      }
    }
  }

  /** Bit `i` of `a & b` is set exactly when it is set in both. */
  lemma {:induction false} AndBit(a: nat, b: nat, i: nat)
    ensures Bit(And(a, b), i) <==> Bit(a, i) && Bit(b, i)
    decreases i
  {
    if a == 0 || b == 0 {
      DigitOfZero(2, i);
    } else {
      var r := And(a / 2, b / 2);
      var low := if a % 2 == 1 && b % 2 == 1 then 1 else 0;
      DivModUnique(And(a, b), 2, r, low);
      if i == 0 {
        DigitZero(And(a, b), 2);
        DigitZero(a, 2);
        DigitZero(b, 2);
      } else {
        DigitShift(And(a, b), 2, i - 1);
        DigitShift(a, 2, i - 1);
        DigitShift(b, 2, i - 1);
        AndBit(a / 2, b / 2, i - 1);
      }
    }
  }

  /** A number below `2**n` has no set bit at `n` or above. */
  lemma HighBitsClear(m: nat, n: nat, i: nat)
    requires m < Pow2(n) && n <= i
    ensures !Bit(m, i)
  {
    Pow2Mono(n, i);
    DivModUnique(m, Pow2(i), 0, m);
  }

  /** A set bit `i` means the number is at least `2**i`. */
  lemma BitAtLeast(n: nat, i: nat)
    ensures Bit(n, i) ==> Pow2(i) <= n
  {
    if n < Pow2(i) {
      DivModUnique(n, Pow2(i), 0, n);
    }
  }

  /** Below `2**(i+1)`, bit `i` is set exactly from `2**i` on. */
  lemma BitSplit(n: nat, i: nat)
    requires n < Pow2(i + 1)
    ensures Bit(n, i) <==> Pow2(i) <= n
  {
    Pow2Succ(i);
    if Pow2(i) <= n {
      DivModUnique(n, Pow2(i), 1, n - Pow2(i));
    } else {
      DivModUnique(n, Pow2(i), 0, n);
    }
  }

  lemma AllOnesBits(n: nat, i: nat)
    ensures Bit(Pow2(n) - 1, i) <==> i < n
  {
    RunMaskBits(n, 0, i);
    assert RunMask(n, 0) == Pow2(n) - 1;
  }

  /** `a & (2**k - 1)` keeps the low `k` bits: it is `a % 2**k`. */
  lemma AndLowBits(a: nat, k: nat)
    ensures And(a, Pow2(k) - 1) == a % Pow2(k)
  {
    AndLowMod(a, k, Pow2(k));
  }

  /** `AndLowBits` with `m` standing for `2**k`, by induction on `k`. */
  lemma {:induction false} AndLowMod(a: nat, k: nat, m: nat)
    requires m == Pow2(k)
    ensures And(a, m - 1) == a % m
  {
    if k > 0 && a > 0 {
      var j := k - 1;
      var p := Pow2(j);
      Pow2Succ(j);
      AndLowMod(a / 2, j, p);
      AndLowStep(a, p, m);
    }
  }

  /** The step of `AndLowMod`: from the low bits of `a / 2` to those of `a`. */
  lemma AndLowStep(a: nat, p: nat, m: nat)
    requires 0 < a && 0 < p && m == 2 * p
    requires And(a / 2, p - 1) == (a / 2) % p
    ensures And(a, m - 1) == a % m
  {
    HalfMod(a, p, m);
  }

  /** The low bit, then the rest: `a % (2p)` from `(a / 2) % p`; and the
      matching split of `2p - 1`. */
  lemma HalfMod(a: nat, p: nat, m: nat)
    requires 0 < p && m == 2 * p
    ensures a % m == 2 * ((a / 2) % p) + a % 2
    ensures (m - 1) % 2 == 1 && (m - 1) / 2 == p - 1
  {
    DivMod(a / 2, p);
    DivMod(a, 2);
    var q, r := (a / 2) / p, (a / 2) % p;
    MulAssoc(2, p, q);
    Distrib(2, p * q, r);
    DivModUnique(a, 2 * p, q, 2 * r + a % 2);
  }

  /** A mask with no set bit at `n` or above is unchanged by `& (2**n - 1)`. */
  lemma AndOnes(n: nat, m: nat)
    requires forall i: nat :: Bit(m, i) ==> i < n
    ensures And(Pow2(n) - 1, m) == m
  {
    var a := And(Pow2(n) - 1, m);
    forall k: nat
      ensures Digit(a, 2, k) == Digit(m, 2, k)
    {
      AndBit(Pow2(n) - 1, m, k);
      AllOnesBits(n, k);
      assert Bit(a, k) <==> Bit(m, k);
      assert Digit(a, 2, k) < 2 && Digit(m, 2, k) < 2;
    }
    DigitsExt(a, m, 2);
  }
}
