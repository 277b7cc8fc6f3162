/**
 The work of a block under several proof-of-work algorithms: the geometric mean of the algorithms' targets, taken
 root by root so that nothing leaves 256 bits, turned into an expected number of hashes.
 */
module BlockProof {
  import opened Bits
  import opened Integers
  import opened Limbs
  import opened BaseUint
  import opened NthRoot
  import opened Compact

  ghost function Product(s: seq<nat>): nat {
    if s == [] then 1 else Product(s[..|s| - 1]) * s[|s| - 1]
  }

  /** Targets that are negative, too big or zero give no work. */
  ghost predicate Usable(bits: nat) {
    var e := Unpack(bits);
    !e.negative && !e.overflow && e.value != 0
  }

  ghost function Targets(bits: seq<nat>): (r: seq<nat>)
    ensures |r| == |bits| && forall i :: 0 <= i < |bits| ==> r[i] == Unpack(bits[i]).value
  {
    seq(|bits|, i requires 0 <= i < |bits| => Unpack(bits[i]).value)
  }

  /** No decoded target is the largest 256-bit number: beyond three bytes its last byte is zero. */
  lemma TargetBelow(bits: nat)
    requires bits < UINT32 && !Unpack(bits).overflow
    ensures Unpack(bits).value < Pow2(256) - 1
  {
    hide Pow2, Quotient, Remainder, Expand;
    var size, mantissa := bits / BIT24, bits % BIT23;
    OverflowExact(size, (bits / BIT23) % 2 == 1, mantissa);
    Pow2Bytes();
    Pow2Mono(24, 256);
    if size > 3 {
      Pow2Add(8, 8 * (size - 4));
      Pow2Add(8, 248);
      MulSwap(256, Pow2(8 * (size - 4)));
      MulAssoc(mantissa, Pow2(8 * (size - 4)), 256);
      NotLast(mantissa * Pow2(8 * (size - 4)), Pow2(248), Unpack(bits).value);
    }
  }

  lemma NotLast(a: nat, b: nat, v: nat)
    requires v == a * 256 < b * 256
    ensures v < b * 256 - 1
  {
  }

  /** A product of numbers whose n-th powers stay below the targets stays below their geometric mean. */
  lemma {:induction false} ProductOfRoots(roots: seq<nat>, targets: seq<nat>, n: nat)
    requires |roots| == |targets| && forall i :: 0 <= i < |roots| ==> Pow(roots[i], n) <= targets[i]
    ensures Pow(Product(roots), n) <= Product(targets)
    decreases |roots|
  {
    hide Pow;
    if roots == [] {
      PowOfOne(n);
    } else {
      var k := |roots| - 1;
      ProductOfRoots(roots[..k], targets[..k], n);
      PowMul(Product(roots[..k]), roots[k], n);
      MulBoth(Pow(Product(roots[..k]), n), Product(targets[..k]), Pow(roots[k], n), targets[k]);
    }
  }

  lemma {:induction false} PowOfOne(n: nat)
    ensures Pow(1, n) == 1
  {
    if n > 0 { PowOfOne(n - 1); }
  }

  lemma {:induction false} ProductBelow(s: seq<nat>, m: nat)
    requires forall i :: 0 <= i < |s| ==> s[i] <= m
    ensures Product(s) <= Pow(m, |s|)
  {
    if s != [] {
      var k := |s| - 1;
      ProductBelow(s[..k], m);
      MulBoth(Product(s[..k]), Pow(m, k), s[k], m);
      MulSwap(Pow(m, k), m);
    }
  }

  /** Any product of at most n such roots stays below the bound on the targets. */
  lemma RootsFit(roots: seq<nat>, targets: seq<nat>, n: nat, m: nat)
    requires |roots| == |targets| <= n && n > 0 && m > 0
    requires forall i :: 0 <= i < |roots| ==> Pow(roots[i], n) <= targets[i]
    requires forall i :: 0 <= i < |targets| ==> targets[i] <= m
    ensures Product(roots) <= m
  {
    hide Pow, Product;
    ProductOfRoots(roots, targets, n);
    ProductBelow(targets, m);
    PowMono(m, |targets|, n);
    if Product(roots) > m { PowBaseMono(m, Product(roots), n); }
  }

  /** `~a / (a + 1) + 1` is the quotient of two to the width by `a + 1`. */
  lemma WorkQuotient(a: nat, m: nat)
    requires a + 1 < m
    ensures Quotient(m - 1 - a, a + 1) + 1 == Quotient(m, a + 1)
    ensures a > 0 ==> Quotient(m, a + 1) < m
  {
    hide Quotient, Remainder;
    var d := a + 1;
    QuotientRemainder(m - d, d);
    var q, r := Quotient(m - d, d), Remainder(m - d, d);
    Distribute(q, 1, d);
    DivideBack(q + 1, r, d);
    if a > 0 { MulMono(2, d, q + 1); }
  }

  lemma RootPositive(x: nat, n: nat, r: nat, s: nat)
    requires n > 1 && x > 0 && IsRoot(x, n, r, s)
    ensures r * Pow2(s) > 0
  {
    hide Pow, Parts;
    if r == 0 {
      assert s == 0;
      PowOfOne(n);
    }
    PositiveProduct(r, Pow2(s));
  }

  /** The roots taken so far and what is known of them. */
  ghost predicate Rooted(roots: seq<nat>, targets: seq<nat>, n: nat) {
    && |roots| <= |targets|
    && (forall i :: 0 <= i < |roots| ==> 0 < roots[i] && Pow(roots[i], n) <= targets[i])
    && (forall i :: 0 <= i < |roots| ==> IsRootOf(targets[i], n, roots[i]))
  }

  ghost predicate IsRootOf(x: nat, n: nat, root: nat) {
    n > 1 && exists r: nat, s: nat :: root == Scaled(r, s) && IsRoot(x, n, r, s)
  }

  lemma RootedStep(roots: seq<nat>, targets: seq<nat>, n: nat, r: nat, s: nat)
    requires Rooted(roots, targets, n) && |roots| < |targets| && n > 1
    requires IsRoot(targets[|roots|], n, r, s) && targets[|roots|] > 0
    ensures Rooted(roots + [r * Pow2(s)], targets, n)
    ensures Product(roots + [r * Pow2(s)]) == Product(roots) * (r * Pow2(s))
  {
    hide Parts, Pow;
    RootPositive(targets[|roots|], n, r, s);
    assert r * Pow2(s) == Scaled(r, s);
    assert (roots + [r * Pow2(s)])[..|roots|] == roots;
  }

  lemma {:induction false} ProductPositive(s: seq<nat>)
    requires forall i :: 0 <= i < |s| ==> s[i] > 0
    ensures Product(s) > 0
  {
    if s != [] {
      ProductPositive(s[..|s| - 1]);
      PositiveProduct(Product(s[..|s| - 1]), s[|s| - 1]);
    }
  }

  /** Products of roots of usable targets leave room for one more. */
  lemma RootedFits(roots: seq<nat>, targets: seq<nat>, n: nat)
    requires Rooted(roots, targets, n) && |targets| <= n && n > 0
    requires forall i :: 0 <= i < |roots| ==> targets[i] < Pow2(256) - 1
    ensures 0 < Product(roots) < Pow2(256) - 1
    ensures Pow(Product(roots), n) <= Product(targets[..|roots|])
  {
    hide Pow, Pow2, Product, IsRootOf;
    var k := |roots|;
    TwoFits();
    RootsFit(roots, targets[..k], n, Pow2(256) - 2);
    ProductOfRoots(roots, targets[..k], n);
    ProductPositive(roots);
  }

  lemma TwoFits()
    ensures Pow2(256) > 2
  {
    hide Pow2;
    Pow2Bytes();
    Pow2Mono(8, 256);
  }

  lemma SameWidth(x: Uint)
    requires x.Valid() && x.pn.Length == 8
    ensures x.Modulus() == Pow2(256) && x.Val() < Pow2(256)
  {
    x.ValBound();
  }

  /** The closing step: what the mean target says about the expected number of hashes. */
  method WorkOf(avg: Uint) returns (res: Uint)
    requires avg.Valid() && avg.pn.Length == 8 && 0 < avg.Val() < Pow2(256) - 1
    ensures fresh(res) && fresh(res.pn) && res.Valid() && res.pn.Length == 8
    ensures res.Val() == Quotient(Pow2(256), avg.Val() + 1)
  {
    hide Pow2, Value, Words, Top, Quotient, Remainder;
    ghost var a, m := avg.Val(), Pow2(256);
    SameWidth(avg);
    var one := new Uint(8, 1);
    var divisor := new Uint.Copy(avg);
    divisor.AddAssign(one);
    SameWidth(divisor);
    DivideBack(0, a + 1, m);
    res := avg.Not();
    var ok := res.DivideAssign(divisor);
    assert ok;
    WorkQuotient(a, m);
    DivideBack(0, Quotient(m - 1 - a, a + 1) + 1, m);
    SameWidth(res);
    res.AddAssign(one);
  }

  /** The expected number of hashes at a target, times 2^7, as far as 256 bits hold it. */
  ghost function ScaledWork(target: nat): nat {
    Remainder(Quotient(Pow2(256), target + 1) * Pow2(7), Pow2(256))
  }

  /** Scaling a quotient of `128 * p` by 128 within `128 * p`. */
  lemma ScaledQuotient(d: nat, p: nat)
    requires 128 < p && 0 < d <= 128 * p
    ensures
      var q := Quotient(128 * p, d);
      var w := Remainder(q * 128, 128 * p);
      (w == q * 128 <==> d > 128) && (w == 0 <==> Remainder(128, d) == 0)
  {
    hide Quotient, Remainder;
    ScaledParts(d, p);
    WhenWhole(d, p);
    WhenNothing(d, p);
  }

  /** The quotient is `k * p + e`, of which the scaling keeps `e`. */
  lemma ScaledParts(d: nat, p: nat)
    requires 128 < p && 0 < d <= 128 * p
    ensures
      var k, e := Quotient(128, d), Quotient(Remainder(128, d) * p, d);
      Quotient(128 * p, d) == k * p + e && Remainder((k * p + e) * 128, 128 * p) == 128 * e
  {
    hide Quotient, Remainder;
    var k, r := Quotient(128, d), Remainder(128, d);
    QuotientRemainder(128, d);
    var e, f := Quotient(r * p, d), Remainder(r * p, d);
    QuotientRemainder(r * p, d);
    SplitProduct(k, d, r, p, e, f);
    DivideBack(k * p + e, f, d);
    Below(e, d, r, p, f);
    DivideBack(k, 128 * e, 128 * p);
    Regroup(k, p, e);
  }

  lemma Below(e: nat, d: nat, r: nat, p: nat, f: nat)
    requires r < d && p > 0 && r * p == e * d + f
    ensures 128 * e < 128 * p
  {
    if e >= p {
      MulMono(p, e, d);
      MulMono(r + 1, d, p);
    }
  }

  lemma Regroup(k: nat, p: nat, e: nat)
    ensures (k * p + e) * 128 == k * (128 * p) + 128 * e
  {
    MulAssoc(k, 128, p);
    MulAssoc(k, p, 128);
    MulSwap(128, p);
    Distribute(k * p, e, 128);
  }

  lemma WhenWhole(d: nat, p: nat)
    requires p > 0 && d > 0
    ensures Quotient(128, d) * p == 0 <==> d > 128
  {
    hide Quotient, Remainder;
    QuotientRemainder(128, d);
    var k := Quotient(128, d);
    if k > 0 { MulMono(1, k, d); PositiveProduct(k, p); } else { assert k * d == 0; }
  }

  lemma WhenNothing(d: nat, p: nat)
    requires 128 < p && 0 < d <= 128 * p
    ensures Quotient(Remainder(128, d) * p, d) == 0 <==> Remainder(128, d) == 0
  {
    hide Quotient, Remainder;
    var r := Remainder(128, d);
    QuotientRemainder(128, d);
    QuotientRemainder(r * p, d);
    if r == 0 { DivideBack(0, 0, d); } else { MulMono(1, r, p); }
    if d > 128 { DivideBack(0, 128, d); }
  }

  lemma SplitProduct(k: nat, d: nat, r: nat, p: nat, e: nat, f: nat)
    requires 128 == k * d + r && r * p == e * d + f
    ensures 128 * p == (k * p + e) * d + f
  {
    Distribute(k * d, r, p);
    Distribute(k * p, e, d);
    MulAssoc(k, d, p);
    MulAssoc(k, p, d);
    MulSwap(d, p);
  }

  /** Within 256 bits the scaled work is exact if and only if the mean target is at least 2^7, and it is nothing if and
      only if the mean target plus one divides 2^7. */
  lemma WorkExact(target: nat)
    requires target < Pow2(256)
    ensures ScaledWork(target) == Quotient(Pow2(256), target + 1) * Pow2(7) <==> target + 1 > Pow2(7)
    ensures ScaledWork(target) == 0 <==> Remainder(Pow2(7), target + 1) == 0
  {
    hide Pow2, Quotient, Remainder;
    Pow2Bytes();
    PowersOfTwo();
    Pow2Mono(8, 249);
    Pow2Add(7, 249);
    ScaledQuotient(target + 1, Pow2(249));
  }

  lemma PowersOfTwo()
    ensures Pow2(1) == 2 && Pow2(7) == 128
  {
    assert Pow2(3) == 8 && Pow2(4) == 16;
    Pow2Add(3, 4);
  }

  /** The target one for every algorithm is usable, has the mean target one, and gives no work. */
  lemma ZeroWork(bits: seq<nat>, roots: seq<nat>)
    requires 1 < |bits| == |roots| && forall i :: 0 <= i < |bits| ==> bits[i] == SMALLEST_TARGET
    requires Rooted(roots, Targets(bits), |bits|)
    ensures forall i :: 0 <= i < |bits| ==> Usable(bits[i]) && Targets(bits)[i] == 1
    ensures Product(roots) == 1 && ScaledWork(Product(roots)) == 0
  {
    hide Pow, Pow2, Product, Quotient, Remainder, IsRootOf, Usable, Unpack;
    SmallestTarget();
    RootsFit(roots, Targets(bits), |bits|, 1);
    ProductPositive(roots);
    TwoFits();
    PowersOfTwo();
    WorkExact(1);
    DivideBack(64, 0, 2);
  }

  const SMALLEST_TARGET: nat := 0x0101_0000

  lemma SmallestTarget()
    ensures Usable(SMALLEST_TARGET) && Unpack(SMALLEST_TARGET).value == 1
  {
    hide Pow2;
    Pow2Bytes();
  }

  /** One compact target per algorithm; the work is scaled by 2^7 at the end, within 256 bits. */
  method GetBlockProof(bits: seq<nat>) returns (res: Uint, ghost roots: seq<nat>)
    requires 1 < |bits| < 64 && forall i :: 0 <= i < |bits| ==> bits[i] < UINT32
    ensures res.Valid() && res.pn.Length == 8
    ensures (exists i :: 0 <= i < |bits| && !Usable(bits[i])) ==> res.Val() == 0
    ensures (forall i :: 0 <= i < |bits| ==> Usable(bits[i])) ==>
      && |roots| == |bits| && Rooted(roots, Targets(bits), |bits|)
      && Pow(Product(roots), |bits|) <= Product(Targets(bits))
      && Product(roots) < Pow2(256) - 1
      && res.Val() == ScaledWork(Product(roots))
  {
    hide Pow2, Pow, Value, Words, Top, Quotient, Remainder, Product, Rooted, IsRoot, Unpack;
    var n := |bits|;
    ghost var targets := Targets(bits);
    var avg := new Uint(8, 1);
    roots := [];
    RootedStart(targets, n);
    var i := 0;
    while i < n
      invariant 0 <= i <= n && |roots| == i && avg.Valid() && avg.pn.Length == 8 && fresh(avg.pn)
      invariant Rooted(roots, targets, n) && avg.Val() == Product(roots)
      invariant forall k :: 0 <= k < i ==> Usable(bits[k])
    {
      var target := new Uint(8, 0);
      var negative, overflow := SetCompact(target, bits[i]);
      var zero := target.EqualTo(0);
      if negative || overflow || zero {
        assert !Usable(bits[i]);
        res := new Uint(8, 0);
        return;
      }
      var root, r, s := ApproxNthRoot(target, n);
      RootedStep(roots, targets, n, r, s);
      roots := roots + [r * Pow2(s)];
      FitsSoFar(bits, roots, n);
      SameWidth(avg);
      avg.MultiplyAssign(root);
      DivideBack(0, Product(roots), Pow2(256));
      i := i + 1;
    }
    FitsSoFar(bits, roots, n);
    assert targets[..n] == targets;
    res := WorkOf(avg);
    SameWidth(res);
    res.ShiftLeftAssign(7);
  }

  /** Blocks that get no work although every one of their targets is usable. */
  method NoWork(n: nat) returns (res: Uint)
    requires 1 < n < 64
    ensures res.Valid() && res.pn.Length == 8 && res.Val() == 0
  {
    hide Pow, Pow2, Product, Rooted, Usable, ScaledWork;
    var bits := seq<nat>(n, _ => SMALLEST_TARGET);
    SmallestTarget();
    ghost var roots;
    res, roots := GetBlockProof(bits);
    ZeroWork(bits, roots);
  }

  lemma RootedStart(targets: seq<nat>, n: nat)
    ensures Rooted([], targets, n) && Product([]) == 1
  {
  }

  lemma FitsSoFar(bits: seq<nat>, roots: seq<nat>, n: nat)
    requires |bits| == n > 0 && Rooted(roots, Targets(bits), n)
    requires forall i :: 0 <= i < |roots| ==> bits[i] < UINT32 && Usable(bits[i])
    ensures 0 < Product(roots) < Pow2(256) - 1
    ensures Pow(Product(roots), n) <= Product(Targets(bits)[..|roots|])
  {
    hide Pow, Pow2, Product, Unpack, IsRootOf;
    forall i | 0 <= i < |roots| ensures Targets(bits)[i] < Pow2(256) - 1 { TargetBelow(bits[i]); }
    RootedFits(roots, Targets(bits), n);
  }
}
