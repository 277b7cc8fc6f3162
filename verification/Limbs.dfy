/**
 Numbers as sequences of 32-bit words, the least significant first, and the word by word recurrences that the
 in-place operators of `base_uint` run through.
 */
module Limbs {
  import opened Bits
  import opened Integers

  ghost predicate Words(s: seq<nat>) {
    forall i :: 0 <= i < |s| ==> s[i] < UINT32
  }

  ghost function Value(s: seq<nat>): nat {
    if s == [] then 0 else s[0] + UINT32 * Value(s[1..])
  }

  /** The first number that does not fit into `n` words. */
  ghost function Top(n: nat): (t: nat)
    ensures t > 0
  {
    if n == 0 then 1 else UINT32 * Top(n - 1)
  }

  lemma {:induction false} TopIsPow2(n: nat)
    ensures Top(n) == Pow2(32 * n)
  {
    if n > 0 {
      TopIsPow2(n - 1);
      Pow2Add(32, 32 * (n - 1));
      Pow2Of32();
    }
  }

  lemma Pow2Of32()
    ensures Pow2(32) == UINT32
  {
    assert Pow2(8) == 256;
    Pow2Add(8, 8);
    Pow2Add(16, 16);
  }

  lemma {:induction false} TopAdd(m: nat, n: nat)
    ensures Top(m + n) == Top(m) * Top(n)
    decreases m
  {
    if m > 0 {
      TopAdd(m - 1, n);
      MulAssoc(UINT32, Top(m - 1), Top(n));
    }
  }

  lemma {:induction false} ValueBound(s: seq<nat>)
    requires Words(s)
    ensures Value(s) < Top(|s|)
  {
    if s != [] { ValueBound(s[1..]); }
  }

  lemma {:induction false} ValueSplit(s: seq<nat>, i: nat)
    requires i <= |s|
    ensures Value(s) == Value(s[..i]) + Top(i) * Value(s[i..])
    decreases i
  {
    if i == 0 {
      assert s[..0] == [] && s[0..] == s;
    } else {
      ValueSplit(s[1..], i - 1);
      assert s[1..][..i - 1] == s[..i][1..] && s[1..][i - 1..] == s[i..];
      MulAssoc(UINT32, Top(i - 1), Value(s[i..]));
    }
  }

  lemma {:induction false} ValueOfZeroes(s: seq<nat>)
    requires forall i :: 0 <= i < |s| ==> s[i] == 0
    ensures Value(s) == 0
  {
    if s != [] { ValueOfZeroes(s[1..]); }
  }

  lemma {:induction false} ValueInjective(s: seq<nat>, t: seq<nat>)
    requires Words(s) && Words(t) && |s| == |t| && Value(s) == Value(t)
    ensures s == t
  {
    if s != [] {
      ValueInjective(s[1..], t[1..]);
      assert s == [s[0]] + s[1..] && t == [t[0]] + t[1..];
    }
  }

  /** What is left after taking out whole multiples of the modulus. */
  lemma Reduced(v: nat, q: nat, m: nat, x: nat)
    requires v < m && v + q * m == x
    ensures v == Remainder(x, m) && q == Quotient(x, m)
  {
    DivideBack(q, v, m);
  }

  // ---------------------------------------------------------------- p + x * b, word by word

  /** One word of the sum with the carry before it. */
  function Sum(p: nat, x: nat, b: nat, carry: nat): nat { carry + p + x * b }

  /** The words of `p + x * b + carry` that fit into the length of `p`. */
  ghost function Row(p: seq<nat>, x: nat, b: seq<nat>, carry: nat): (r: seq<nat>)
    requires |p| == |b|
    ensures |r| == |p|
    decreases |p|
  {
    if p == [] then [] else
      var n := Sum(p[0], x, b[0], carry);
      [n % UINT32] + Row(p[1..], x, b[1..], n / UINT32)
  }

  /** The carry out of the last word. */
  ghost function RowCarry(p: seq<nat>, x: nat, b: seq<nat>, carry: nat): nat
    requires |p| == |b|
    decreases |p|
  {
    if p == [] then carry else RowCarry(p[1..], x, b[1..], Sum(p[0], x, b[0], carry) / UINT32)
  }

  lemma {:induction false} RowWords(p: seq<nat>, x: nat, b: seq<nat>, carry: nat)
    requires |p| == |b|
    ensures Words(Row(p, x, b, carry))
    decreases |p|
  {
    if p != [] { RowWords(p[1..], x, b[1..], Sum(p[0], x, b[0], carry) / UINT32); }
  }

  /** A word sum with its carry always fits into 64 bits, and the next carry into 32. */
  lemma SumFits(p: nat, x: nat, b: nat, carry: nat)
    requires p < UINT32 && x < UINT32 && b < UINT32 && carry < UINT32
    ensures Sum(p, x, b, carry) < UINT32 * UINT32
    ensures Sum(p, x, b, carry) / UINT32 < UINT32
  {
    MulBoth(x, UINT32 - 1, b, UINT32 - 1);
  }

  lemma {:induction false} RowValue(p: seq<nat>, x: nat, b: seq<nat>, carry: nat)
    requires |p| == |b|
    ensures Value(Row(p, x, b, carry)) + RowCarry(p, x, b, carry) * Top(|p|) == Value(p) + x * Value(b) + carry
    decreases |p|
  {
    if p != [] {
      var n := Sum(p[0], x, b[0], carry);
      RowValue(p[1..], x, b[1..], n / UINT32);
      var out, v := RowCarry(p, x, b, carry), Value(b[1..]);
      assert Row(p, x, b, carry)[1..] == Row(p[1..], x, b[1..], n / UINT32);
      RowArithmetic(out, Top(|p| - 1), x, b[0], v);
    }
  }

  lemma RowArithmetic(out: nat, top: nat, x: nat, b: nat, v: nat)
    ensures out * (UINT32 * top) == UINT32 * (out * top)
    ensures x * (b + UINT32 * v) == x * b + UINT32 * (x * v)
  {
    Distribute(b, UINT32 * v, x);
    MulAssoc(x, UINT32, v);
    MulAssoc(out, UINT32, top);
  }

  /** The whole row is the sum reduced by the width. */
  lemma RowReduced(p: seq<nat>, x: nat, b: seq<nat>)
    requires |p| == |b|
    ensures Words(Row(p, x, b, 0)) && Value(Row(p, x, b, 0)) == Remainder(Value(p) + x * Value(b), Top(|p|))
  {
    hide Row, RowCarry, Value, Top, Remainder, Quotient;
    RowWords(p, x, b, 0);
    ValueBound(Row(p, x, b, 0));
    RowValue(p, x, b, 0);
    Reduced(Value(Row(p, x, b, 0)), RowCarry(p, x, b, 0), Top(|p|), Value(p) + x * Value(b));
  }

  // ---------------------------------------------------------------- one row of a product

  lemma RowIdentity(low: nat, t: nat, r: nat, out: nat, h: nat, x: nat, b1: nat, b2: nat)
    requires r + out * t == h + x * b1
    ensures low * r + (out + x * b2) * (low * t) == low * h + low * (x * (b1 + t * b2))
  {
    calc {
      low * r + (out + x * b2) * (low * t);
      { Distribute(out, x * b2, low * t); }
      low * r + out * (low * t) + (x * b2) * (low * t);
      { assert out * (low * t) == low * (out * t); }
      low * r + low * (out * t) + (x * b2) * (low * t);
      { Distribute(r, out * t, low); }
      low * (h + x * b1) + (x * b2) * (low * t);
      { Distribute(h, x * b1, low); }
      low * h + low * (x * b1) + (x * b2) * (low * t);
      { assert (x * b2) * (low * t) == low * (x * (t * b2)); }
      low * h + low * (x * b1) + low * (x * (t * b2));
      { Distribute(x * b1, x * (t * b2), low); }
      low * h + low * (x * b1 + x * (t * b2));
      { Distribute(b1, t * b2, x); }
      low * h + low * (x * (b1 + t * b2));
    }
  }

  /** `s` with a row added at position `j`, as far as the words reach. */
  ghost function AddRow(s: seq<nat>, j: nat, x: nat, b: seq<nat>): (r: seq<nat>)
    requires |b| == |s| && j <= |s|
    ensures |r| == |s|
  {
    s[..j] + Row(s[j..], x, b[..|s| - j], 0)
  }

  /** Adding a row at position `j` adds `x * b` shifted by `j` words, up to multiples of the modulus. */
  lemma AddRowValue(s: seq<nat>, j: nat, x: nat, b: seq<nat>) returns (k: nat)
    requires |b| == |s| && j <= |s| && Words(s)
    ensures Words(AddRow(s, j, x, b))
    ensures Value(AddRow(s, j, x, b)) + k * Top(|s|) == Value(s) + Top(j) * (x * Value(b))
  {
    hide Row, RowCarry, Value, Top;
    var n := |s| - j;
    var r := Row(s[j..], x, b[..n], 0);
    RowWords(s[j..], x, b[..n], 0);
    RowValue(s[j..], x, b[..n], 0);
    var out := RowCarry(s[j..], x, b[..n], 0);
    ValueSplit(s, j);
    ValueSplit(b, n);
    var sum := AddRow(s, j, x, b);
    ValueSplit(sum, j);
    assert sum[..j] == s[..j] && sum[j..] == r;
    TopAdd(j, n);
    RowIdentity(Top(j), Top(n), Value(r), out, Value(s[j..]), x, Value(b[..n]), Value(b[n..]));
    k := out + x * Value(b[n..]);
  }

  /** One more word of the left factor. */
  lemma PrefixValue(a: seq<nat>, j: nat)
    requires j < |a|
    ensures Value(a[..j + 1]) == Value(a[..j]) + Top(j) * a[j]
  {
    ValueSplit(a[..j + 1], j);
    assert a[..j + 1][..j] == a[..j] && a[..j + 1][j..] == [a[j]];
    assert [a[j]][1..] == [];
    assert Value([a[j]]) == a[j];
  }

  lemma ProductStep(v: nat, k: nat, k': nat, m: nat, v': nat, low: nat, x: nat, b: nat, a: nat)
    requires v + k * m == a * b && v' + k' * m == v + low * (x * b)
    ensures v' + (k + k') * m == (a + low * x) * b
  {
    Distribute(k, k', m);
    Distribute(a, low * x, b);
    MulAssoc(low, x, b);
  }

  // ---------------------------------------------------------------- bits of natural numbers

  function BitOr(x: nat, y: nat): nat
    decreases x + y
  {
    if x + y == 0 then 0
    else 2 * BitOr(x / 2, y / 2) + if x % 2 == 1 || y % 2 == 1 then 1 else 0
  }

  lemma {:induction false} OrZero(x: nat)
    ensures BitOr(x, 0) == x && BitOr(0, x) == x
  {
    if x > 0 { OrZero(x / 2); }
  }

  /** Where the bits do not overlap, "or" adds. */
  lemma {:induction false} OrAdds(x: nat, y: nat, s: nat)
    requires y < Pow2(s)
    ensures BitOr(x * Pow2(s), y) == x * Pow2(s) + y && BitOr(y, x * Pow2(s)) == x * Pow2(s) + y
    decreases s
  {
    if s == 0 {
      OrZero(x);
    } else {
      OrAdds(x, y / 2, s - 1);
      var z := x * Pow2(s - 1);
      MulAssoc(x, 2, Pow2(s - 1));
      MulAssoc(2, x, Pow2(s - 1));
      assert x * Pow2(s) == 2 * z;
    }
  }

  // ---------------------------------------------------------------- shifting left

  ghost function Zeroes(n: nat): (z: seq<nat>)
    ensures |z| == n && (forall i :: 0 <= i < n ==> z[i] == 0) && Words(z)
  {
    seq(n, _ => 0)
  }

  /** A word times a power of two, split at the 32nd bit. */
  lemma ShiftWord(y: nat, c: nat, s: nat)
    requires s < 32 && c < Pow2(s)
    ensures Quotient(y * Pow2(s), UINT32) == Quotient(y, Pow2(32 - s))
    ensures Remainder(y * Pow2(s), UINT32) == Remainder(y, Pow2(32 - s)) * Pow2(s)
    ensures Quotient(c + y * Pow2(s), UINT32) == Quotient(y, Pow2(32 - s))
    ensures Remainder(c + y * Pow2(s), UINT32) == c + Remainder(y, Pow2(32 - s)) * Pow2(s)
  {
    hide Quotient, Remainder, Pow2;
    var p, h := Pow2(s), Pow2(32 - s);
    Pow2Of32();
    Pow2Add(32 - s, s);
    QuotientRemainder(y, h);
    var q, r := Quotient(y, h), Remainder(y, h);
    Distribute(q * h, r, p);
    MulAssoc(q, h, p);
    assert y * p == q * UINT32 + r * p;
    MulMono(r + 1, h, p);
    Distribute(r, 1, p);
    DivideBack(q, r * p, UINT32);
    DivideBack(q, c + r * p, UINT32);
  }

  /** What a word hands on to the word above it when shifted left by `s` bits. */
  function Above(y: nat, s: nat): nat
    requires s < 32
  {
    Quotient(y, Pow2(32 - s))
  }

  /** What a word keeps when shifted left by `s` bits. */
  function Kept(y: nat, s: nat): nat
    requires s < 32
  {
    Remainder(y, Pow2(32 - s)) * Pow2(s)
  }

  lemma AboveFits(y: nat, s: nat)
    requires s < 32 && y < UINT32
    ensures Above(y, s) < Pow2(s)
  {
    hide Quotient, Remainder, Pow2;
    QuotientRemainder(y, Pow2(32 - s));
    Pow2Of32();
    Pow2Add(s, 32 - s);
    if Above(y, s) >= Pow2(s) { MulMono(Pow2(s), Above(y, s), Pow2(32 - s)); }
  }

  /** The words of a row by a power of two. */
  lemma {:induction false} LeftWords(a: seq<nat>, s: nat, c: nat, i: nat)
    requires s < 32 && Words(a) && c < Pow2(s) && i < |a|
    ensures Row(Zeroes(|a|), Pow2(s), a, c)[i] == (if i == 0 then c else Above(a[i - 1], s)) + Kept(a[i], s)
    decreases |a|
  {
    hide Quotient, Remainder, Pow2;
    ShiftWord(a[0], c, s);
    AboveFits(a[0], s);
    var z := Zeroes(|a|);
    assert z[1..] == Zeroes(|a| - 1);
    MulSwap(Pow2(s), a[0]);
    var n := Sum(z[0], Pow2(s), a[0], c);
    assert n == c + a[0] * Pow2(s);
    assert n / UINT32 == Quotient(n, UINT32) && n % UINT32 == Remainder(n, UINT32) by { QuotientIs(n); }
    if i > 0 {
      LeftWords(a[1..], s, Above(a[0], s), i - 1);
      assert Row(z, Pow2(s), a, c)[1..] == Row(z[1..], Pow2(s), a[1..], n / UINT32);
    }
  }

  lemma QuotientIs(n: nat)
    ensures Quotient(n, UINT32) == n / UINT32 && Remainder(n, UINT32) == n % UINT32
  {
  }

  /** The words of a number shifted left by `k` words and `s` bits. */
  ghost function ShiftedLeft(a: seq<nat>, k: nat, s: nat): (r: seq<nat>)
    requires s < 32
    ensures |r| == |a|
  {
    if k > |a| then Zeroes(|a|) else AddRow(Zeroes(|a|), k, Pow2(s), a)
  }

  lemma ShiftedLeftValue(a: seq<nat>, k: nat, s: nat)
    requires s < 32 && Words(a)
    ensures Words(ShiftedLeft(a, k, s))
    ensures Value(ShiftedLeft(a, k, s)) == Remainder(Value(a) * Pow2(32 * k + s), Top(|a|))
  {
    hide Quotient, Remainder, Pow2, Value, Top, AddRow;
    var r := ShiftedLeft(a, k, s);
    TopIsPow2(k);
    Pow2Add(32 * k, s);
    ValueOfZeroes(Zeroes(|a|));
    if k <= |a| {
      var over := AddRowValue(Zeroes(|a|), k, Pow2(s), a);
      ValueBound(r);
      calc {
        Top(k) * (Pow2(s) * Value(a));
        { MulAssoc(Top(k), Pow2(s), Value(a)); MulSwap(Pow2(32 * k + s), Value(a)); }
        Value(a) * Pow2(32 * k + s);
      }
      Reduced(Value(r), over, Top(|a|), Value(a) * Pow2(32 * k + s));
    } else {
      TopAdd(|a|, k - |a|);
      var over := Value(a) * (Top(k - |a|) * Pow2(s));
      calc {
        over * Top(|a|);
        { MulAssoc(Value(a), Top(k - |a|) * Pow2(s), Top(|a|)); }
        Value(a) * ((Top(k - |a|) * Pow2(s)) * Top(|a|));
        { MulAssoc(Top(|a|), Top(k - |a|), Pow2(s)); MulSwap(Top(|a|), Top(k - |a|) * Pow2(s)); }
        Value(a) * Pow2(32 * k + s);
      }
      Reduced(0, over, Top(|a|), Value(a) * Pow2(32 * k + s));
    }
  }

  lemma ShiftedLeftAt(a: seq<nat>, k: nat, s: nat, m: nat)
    requires s < 32 && Words(a) && m < |a|
    ensures ShiftedLeft(a, k, s)[m] ==
            if m < k then 0 else (if m == k then 0 else Above(a[m - k - 1], s)) + Kept(a[m - k], s)
  {
    hide Row, Above, Kept, Pow2;
    if k <= m {
      var z, n := Zeroes(|a|), |a| - k;
      assert z[k..] == Zeroes(n);
      LeftWords(a[..n], s, 0, m - k);
    }
  }

  // ---------------------------------------------------------------- shifting right

  /** The words of a number shifted right by `s` bits: each takes the low bits of the word above it. */
  ghost function RightRow(t: seq<nat>, s: nat): (r: seq<nat>)
    requires s < 32
    ensures |r| == |t|
  {
    if t == [] then []
    else [Quotient(t[0], Pow2(s)) + Below(if |t| > 1 then t[1] else 0, s)] + RightRow(t[1..], s)
  }

  /** What a word hands down to the word below it when shifted right by `s` bits. */
  function Below(y: nat, s: nat): nat
    requires s < 32
  {
    Remainder(y, Pow2(s)) * Pow2(32 - s)
  }

  lemma {:induction false} RightRowAt(t: seq<nat>, s: nat, m: nat)
    requires s < 32 && m < |t|
    ensures RightRow(t, s)[m] == Quotient(t[m], Pow2(s)) + Below(if m + 1 < |t| then t[m + 1] else 0, s)
  {
    if m > 0 { RightRowAt(t[1..], s, m - 1); }
  }

  lemma RightWord(y: nat, z: nat, s: nat)
    requires s < 32 && y < UINT32
    ensures Quotient(y, Pow2(s)) < Pow2(32 - s)
    ensures Quotient(y, Pow2(s)) + Below(z, s) < UINT32
  {
    hide Quotient, Remainder, Pow2;
    var p, h := Pow2(s), Pow2(32 - s);
    Pow2Of32();
    Pow2Add(32 - s, s);
    QuotientRemainder(y, p);
    var q, r := Quotient(y, p), Remainder(z, p);
    if q >= h { MulMono(h, q, p); }
    MulMono(r + 1, p, h);
    Distribute(r, 1, h);
    MulSwap(p, h);
  }

  /** Dividing `y + 2^32 * v` by a power of two. */
  lemma QuotientOfSum(y: nat, v: nat, s: nat)
    requires s < 32 && y < UINT32
    ensures Quotient(y + UINT32 * v, Pow2(s)) == Quotient(y, Pow2(s)) + Remainder(v, Pow2(s)) * Pow2(32 - s) + UINT32 * Quotient(v, Pow2(s))
  {
    hide Quotient, Remainder, Pow2;
    var p, h := Pow2(s), Pow2(32 - s);
    Pow2Of32();
    Pow2Add(32 - s, s);
    QuotientRemainder(y, p);
    QuotientRemainder(v, p);
    var qy, ry, qv, rv := Quotient(y, p), Remainder(y, p), Quotient(v, p), Remainder(v, p);
    var q := qy + rv * h + UINT32 * qv;
    calc {
      q * p;
      { Distribute(qy + rv * h, UINT32 * qv, p); Distribute(qy, rv * h, p); }
      qy * p + (rv * h) * p + (UINT32 * qv) * p;
      { MulAssoc(rv, h, p); MulAssoc(UINT32, qv, p); MulSwap(rv, UINT32); }
      qy * p + UINT32 * rv + UINT32 * (qv * p);
    }
    DivideBack(q, ry, p);
  }

  /** Only the lowest word decides what lies below bit `s`. */
  lemma LowBits(y: nat, v: nat, s: nat)
    requires s < 32 && y < UINT32
    ensures Remainder(y + UINT32 * v, Pow2(s)) == Remainder(y, Pow2(s))
  {
    hide Quotient, Remainder, Pow2;
    var p, h := Pow2(s), Pow2(32 - s);
    Pow2Of32();
    Pow2Add(32 - s, s);
    QuotientRemainder(y, p);
    var q := Quotient(y, p) + h * v;
    Distribute(Quotient(y, p), h * v, p);
    MulSwap(h, v);
    MulAssoc(v, h, p);
    MulSwap(v, UINT32);
    DivideBack(q, Remainder(y, p), p);
  }

  lemma {:induction false} RightRowValue(t: seq<nat>, s: nat)
    requires s < 32 && Words(t)
    ensures Words(RightRow(t, s)) && Value(RightRow(t, s)) == Quotient(Value(t), Pow2(s))
  {
    hide Quotient, Remainder, Pow2;
    if t == [] {
      DivideBack(0, 0, Pow2(s));
    } else {
      var rest := t[1..];
      RightRowValue(rest, s);
      var v := Value(rest);
      QuotientOfSum(t[0], v, s);
      var above := if |t| > 1 then t[1] else 0;
      if |t| > 1 { LowBits(t[1], Value(rest[1..]), s); }
      assert Remainder(v, Pow2(s)) == Remainder(above, Pow2(s));
      RightWord(t[0], above, s);
      assert RightRow(t, s)[1..] == RightRow(rest, s);
    }
  }

  ghost function ShiftedRight(a: seq<nat>, k: nat, s: nat): (r: seq<nat>)
    requires s < 32
    ensures |r| == |a|
  {
    if k > |a| then Zeroes(|a|) else RightRow(a[k..], s) + Zeroes(k)
  }

  lemma QuotientQuotient(x: nat, d: nat, e: nat)
    requires d > 0 && e > 0
    ensures d * e > 0 && Quotient(Quotient(x, d), e) == Quotient(x, d * e)
  {
    hide Quotient, Remainder;
    PositiveProduct(d, e);
    QuotientRemainder(x, d);
    var y, r := Quotient(x, d), Remainder(x, d);
    QuotientRemainder(y, e);
    var z, t := Quotient(y, e), Remainder(y, e);
    Distribute(z * e, t, d);
    MulAssoc(z, e, d);
    MulSwap(d, e);
    MulMono(t + 1, e, d);
    Distribute(t, 1, d);
    DivideBack(z, t * d + r, d * e);
  }

  lemma ShiftedRightValue(a: seq<nat>, k: nat, s: nat)
    requires s < 32 && Words(a)
    ensures Words(ShiftedRight(a, k, s))
    ensures Value(ShiftedRight(a, k, s)) == Quotient(Value(a), Pow2(32 * k + s))
  {
    hide Quotient, Remainder, Pow2, Value, Top, RightRow;
    var r := ShiftedRight(a, k, s);
    TopIsPow2(k);
    Pow2Add(32 * k, s);
    ValueBound(a);
    if k <= |a| {
      ValueSplit(a, k);
      ValueBound(a[..k]);
      MulSwap(Top(k), Value(a[k..]));
      DivideBack(Value(a[k..]), Value(a[..k]), Top(k));
      RightRowValue(a[k..], s);
      QuotientQuotient(Value(a), Top(k), Pow2(s));
      ValueSplit(r, |a| - k);
      ValueOfZeroes(Zeroes(k));
      assert r[..|a| - k] == RightRow(a[k..], s) && r[|a| - k..] == Zeroes(k);
    } else {
      TopAdd(|a|, k - |a|);
      MulMono(1, Top(k - |a|), Top(|a|));
      DivideBack(0, Value(a), Top(k));
      QuotientQuotient(Value(a), Top(k), Pow2(s));
      DivideBack(0, 0, Pow2(s));
      ValueOfZeroes(Zeroes(|a|));
    }
  }

  lemma ShiftedRightAt(a: seq<nat>, k: nat, s: nat, m: nat)
    requires s < 32 && m < |a|
    ensures ShiftedRight(a, k, s)[m] ==
            if m + k >= |a| then 0
            else Quotient(a[m + k], Pow2(s)) + Below(if m + k + 1 < |a| then a[m + k + 1] else 0, s)
  {
    hide Quotient, Remainder, Pow2, Below, RightRow;
    if m + k < |a| { RightRowAt(a[k..], s, m); }
  }
}
