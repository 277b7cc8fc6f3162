/**
 The fixed-width unsigned integers of the node: arrays of 32-bit words that the operators rewrite in place. Every
 operator is proved to be the integer operation modulo the width.
 */
module BaseUint {
  import opened Bits
  import opened Integers
  import opened Limbs

  // ---------------------------------------------------------------- word by word facts

  ghost function Complement(a: seq<nat>): (r: seq<nat>)
    requires Words(a)
    ensures |r| == |a| && (forall i :: 0 <= i < |a| ==> r[i] == UINT32 - 1 - a[i]) && Words(r)
  {
    seq(|a|, i requires 0 <= i < |a| => UINT32 - 1 - a[i])
  }

  lemma {:induction false} ComplementValue(a: seq<nat>)
    requires Words(a)
    ensures Value(Complement(a)) + Value(a) + 1 == Top(|a|)
  {
    if a != [] {
      ComplementValue(a[1..]);
      assert Complement(a)[1..] == Complement(a[1..]);
    }
  }

  /** One more, carried through the words that wrap around. */
  ghost function Incremented(a: seq<nat>): (r: seq<nat>)
    ensures |r| == |a|
  {
    if a == [] then []
    else if a[0] + 1 < UINT32 then [a[0] + 1] + a[1..]
    else [0] + Incremented(a[1..])
  }

  lemma {:induction false} IncrementedValue(a: seq<nat>)
    requires Words(a)
    ensures Words(Incremented(a))
    ensures Value(Incremented(a)) == if Value(a) + 1 == Top(|a|) then 0 else Value(a) + 1
  {
    if a != [] {
      IncrementedValue(a[1..]);
      ValueBound(a[1..]);
      if a[0] + 1 < UINT32 {
        assert Incremented(a)[1..] == a[1..];
      } else {
        assert Incremented(a)[1..] == Incremented(a[1..]);
      }
    }
  }

  /** Words that wrap around up to the first that does not. */
  lemma {:induction false} WrappedWords(a: seq<nat>, r: seq<nat>, i: nat)
    requires |r| == |a| && i <= |a| && (forall k :: 0 <= k < i ==> a[k] == UINT32 - 1 && r[k] == 0)
    requires forall k :: i < k < |a| ==> r[k] == a[k]
    requires i < |a| ==> a[i] + 1 < UINT32 && r[i] == a[i] + 1
    ensures r == Incremented(a)
    decreases i
  {
    if i == 0 {
      if a != [] { assert r == [r[0]] + r[1..] && r[1..] == a[1..]; }
    } else {
      WrappedWords(a[1..], r[1..], i - 1);
      assert r == [0] + r[1..];
    }
  }

  ghost predicate AllZero(a: seq<nat>) { forall i :: 0 <= i < |a| ==> a[i] == 0 }

  lemma {:induction false} ZeroWords(a: seq<nat>)
    requires Words(a) && Value(a) == 0
    ensures AllZero(a)
  {
    if a != [] {
      ZeroWords(a[1..]);
      forall i | 0 <= i < |a| ensures a[i] == 0 { if i > 0 { assert a[i] == a[1..][i - 1]; } }
    }
  }

  lemma SumOfZeroes(x: nat)
    ensures Sum(0, x, 0, 0) == 0
  {
  }

  // ---------------------------------------------------------------- writing a row word by word

  /** The words once the first `i` of a row have been written from position `j` on. */
  ghost predicate Filled(was: seq<nat>, row: seq<nat>, j: nat, i: nat, words: seq<nat>) {
    && |words| == |was| == j + |row| && i <= |row|
    && forall k :: 0 <= k < |words| ==> words[k] == if j <= k < j + i then row[k - j] else was[k]
  }

  lemma FillStarts(was: seq<nat>, row: seq<nat>, j: nat)
    requires |was| == j + |row|
    ensures Filled(was, row, j, 0, was)
  {
  }

  lemma FillNext(was: seq<nat>, row: seq<nat>, j: nat, i: nat, words: seq<nat>)
    requires Filled(was, row, j, i, words) && i < |row|
    ensures |words| == |was| && words[i + j] == was[i + j] && Filled(was, row, j, i + 1, words[i + j := row[i]])
  {
  }

  lemma FillEnds(was: seq<nat>, row: seq<nat>, j: nat, words: seq<nat>)
    requires Filled(was, row, j, |row|, words)
    ensures words == was[..j] + row
  {
  }

  /** With this carry the rest of the sum gives the rest of the row. */
  ghost predicate Carried(p: seq<nat>, x: nat, b: seq<nat>, i: nat, carry: nat, row: seq<nat>) {
    |p| == |b| == |row| && i <= |p| && Row(p[i..], x, b[i..], carry) == row[i..]
  }

  lemma CarryStarts(p: seq<nat>, x: nat, b: seq<nat>)
    requires |p| == |b|
    ensures Carried(p, x, b, 0, 0, Row(p, x, b, 0))
  {
    assert p[0..] == p && b[0..] == b && Row(p, x, b, 0)[0..] == Row(p, x, b, 0);
  }

  lemma CarryNext(p: seq<nat>, x: nat, b: seq<nat>, i: nat, carry: nat, row: seq<nat>)
    requires Carried(p, x, b, i, carry, row) && i < |p|
    ensures |p| == |b| == |row|
    ensures var n := Sum(p[i], x, b[i], carry); row[i] == n % UINT32 && Carried(p, x, b, i + 1, n / UINT32, row)
  {
    hide Row, Sum;
    RowHead(p[i..], x, b[i..], carry);
    assert p[i..][1..] == p[i + 1..] && b[i..][1..] == b[i + 1..] && row[i..][1..] == row[i + 1..];
    assert row[i] == row[i..][0];
  }

  lemma RowHead(p: seq<nat>, x: nat, b: seq<nat>, carry: nat)
    requires |p| == |b| > 0
    ensures
      var n := Sum(p[0], x, b[0], carry);
      Row(p, x, b, carry) == [n % UINT32] + Row(p[1..], x, b[1..], n / UINT32)
  {
  }

  /** The highest words that differ decide. */
  lemma {:induction false} HigherDecides(a: seq<nat>, b: seq<nat>, i: nat)
    requires Words(a) && Words(b) && |a| == |b| && i < |a| && a[i + 1..] == b[i + 1..] && a[i] < b[i]
    ensures Value(a) < Value(b)
    decreases i
  {
    if i == 0 {
      assert a[1..] == b[1..];
    } else {
      assert a[1..][i..] == a[i + 1..] && b[1..][i..] == b[i + 1..];
      HigherDecides(a[1..], b[1..], i - 1);
    }
  }

  /** The number of bits of a number: the position of its highest bit plus one. */
  ghost predicate IsLength(v: nat, n: nat) {
    v < Pow2(n) && (n > 0 ==> Pow2(n - 1) <= v)
  }

  lemma LengthOfWords(a: seq<nat>, pos: nat, nbits: nat)
    requires Words(a) && pos < |a| && (forall i :: pos < i < |a| ==> a[i] == 0) && IsLength(a[pos], nbits) && nbits > 0
    ensures IsLength(Value(a), 32 * pos + nbits)
  {
    hide Value, Top, Pow2;
    ValueSplit(a, pos + 1);
    ValueOfZeroes(a[pos + 1..]);
    PrefixValue(a, pos);
    ValueBound(a[..pos]);
    TopIsPow2(pos);
    Pow2Add(32 * pos, nbits);
    Pow2Add(32 * pos, nbits - 1);
    MulMono(a[pos] + 1, Pow2(nbits), Top(pos));
    Distribute(a[pos], 1, Top(pos));
    MulMono(Pow2(nbits - 1), a[pos], Top(pos));
    MulSwap(Top(pos), a[pos]);
  }

  /** Whether bit `n` is set. */
  predicate BitSet(x: nat, n: nat) { Quotient(x, Pow2(n)) % 2 == 1 }

  lemma TopBit(x: nat, n: nat)
    requires x < Pow2(n + 1)
    ensures BitSet(x, n) <==> Pow2(n) <= x
  {
    hide Quotient, Remainder;
    QuotientRemainder(x, Pow2(n));
    var q := Quotient(x, Pow2(n));
    if q >= 2 { MulMono(2, q, Pow2(n)); }
    if q >= 1 { MulMono(1, q, Pow2(n)); }
  }

  /** Setting bit `shift` where all bits up to it are clear. */
  lemma BitAdded(a: seq<nat>, k: nat, s: nat, q: nat)
    requires Words(a) && k < |a| && s < 32 && Value(a) == q * Pow2(32 * k + s + 1)
    ensures BitOr(a[k], Pow2(s)) == a[k] + Pow2(s) < UINT32
    ensures Value(a[k := a[k] + Pow2(s)]) == Value(a) + Pow2(32 * k + s)
  {
    hide Quotient, Remainder, Value, Pow2, Top;
    TopIsPow2(k);
    Pow2Add(32 * k, s + 1);
    Pow2Add(32 * k, s);
    ValueSplit(a, k);
    ValueBound(a[..k]);
    var high := a[k..];
    MulAssoc(q, Pow2(s + 1), Top(k));
    MulSwap(Pow2(s + 1), Top(k));
    MulSwap(Top(k), Value(high));
    DivideBack(Value(high), Value(a[..k]), Top(k));
    DivideBack(q * Pow2(s + 1), 0, Top(k));
    var rest := Value(high[1..]);
    assert Value(high) == a[k] + UINT32 * rest by { ValueHead(high); }
    BitFree(a[k], rest, q, s);
    var b := a[k := a[k] + Pow2(s)];
    ValueSplit(b, k);
    assert b[..k] == a[..k] && b[k..][1..] == high[1..];
    ValueHead(b[k..]);
    Distribute(Value(high), Pow2(s), Top(k));
    MulSwap(Top(k), Value(b[k..]));
    MulSwap(Top(k), Pow2(s));
  }

  lemma ValueHead(s: seq<nat>)
    requires s != []
    ensures Value(s) == s[0] + UINT32 * Value(s[1..])
  {
  }

  lemma BitFree(w: nat, rest: nat, q: nat, s: nat)
    requires w < UINT32 && s < 32 && w + UINT32 * rest == q * Pow2(s + 1)
    ensures BitOr(w, Pow2(s)) == w + Pow2(s) < UINT32
  {
    hide Quotient, Remainder, Pow2;
    var p, h := Pow2(s + 1), Pow2(31 - s);
    Pow2Of32();
    Pow2Add(31 - s, s + 1);
    QuotientRemainder(w, p);
    var d, r := Quotient(w, p), Remainder(w, p);
    MulAssoc(rest, h, p);
    MulSwap(rest, UINT32);
    Distribute(d, rest * h, p);
    DivideBack(q, 0, p);
    DivideBack(d + rest * h, r, p);
    assert w == d * p;
    if d + 1 > h { MulMono(h, d, p); }
    MulMono(d + 1, h, p);
    Distribute(d, 1, p);
    Pow2Mono(s, s + 1);
    OrAdds(d, Pow2(s), s + 1);
  }

  lemma ValueOfTwo(s: seq<nat>, b: nat)
    requires |s| >= 2 && s[0] == b % UINT32 && s[1] == b / UINT32 && (forall i :: 2 <= i < |s| ==> s[i] == 0)
    ensures Value(s) == b
  {
    ValueOfZeroes(s[2..]);
    assert s[1..][1..] == s[2..];
    assert Value(s[1..]) == s[1] + UINT32 * Value(s[1..][1..]);
  }

  lemma LowWords(s: seq<nat>)
    requires |s| >= 2 && Words(s)
    ensures s[0] + UINT32 * s[1] == Remainder(Value(s), UINT64)
  {
    hide Value;
    ValueHead(s);
    ValueHead(s[1..]);
    var rest := Value(s[1..][1..]);
    DivideBack(rest, s[0] + UINT32 * s[1], UINT64);
  }

  /** A word of the result after the words below `i` have been shifted left. */
  ghost function LeftPartial(a: seq<nat>, k: nat, s: nat, i: nat, m: nat): nat
    requires i <= |a| && m < |a| && s < 32
  {
    if m < k || m > i + k then 0
    else (if m == k then 0 else Above(a[m - k - 1], s)) + if m < i + k then Kept(a[m - k], s) else 0
  }

  lemma LeftEnds(a: seq<nat>, k: nat, s: nat, m: nat)
    requires Words(a) && s < 32 && m < |a|
    ensures LeftPartial(a, k, s, 0, m) == 0 && LeftPartial(a, k, s, |a|, m) == ShiftedLeft(a, k, s)[m]
  {
    hide ShiftedLeft, Above, Kept;
    ShiftedLeftAt(a, k, s, m);
  }

  /** What one turn of the loop does to each word. */
  lemma LeftStep(a: seq<nat>, k: nat, s: nat, i: nat, m: nat)
    requires Words(a) && s < 32 && i < |a| && m < |a|
    ensures
      var was, now := LeftPartial(a, k, s, i, m), LeftPartial(a, k, s, i + 1, m);
      now == if m == i + k + 1 && s != 0 then BitOr(was, Quotient(a[i], Pow2(32 - s)))
             else if m == i + k then BitOr(was, Remainder(a[i] * Pow2(s), UINT32))
             else was
  {
    hide Quotient, Remainder, BitOr, Pow2;
    var y, c := a[i], if i == 0 then 0 else Above(a[i - 1], s);
    if m == i + k + 1 {
      AboveFits(y, s);
      OrZero(Above(y, s));
      Pow2Small();
    } else if m == i + k {
      if i > 0 { AboveFits(a[i - 1], s); }
      ShiftWord(y, c, s);
      OrAdds(Remainder(y, Pow2(32 - s)), c, s);
    }
  }

  /** A word of the result after the words below `i` have been shifted right. */
  ghost function RightPartial(a: seq<nat>, k: nat, s: nat, i: nat, m: nat): nat
    requires i <= |a| && m < |a| && s < 32
  {
    if m + k >= i then 0
    else Quotient(a[m + k], Pow2(s)) + if m + k + 1 < i then Below(a[m + k + 1], s) else 0
  }

  lemma RightEnds(a: seq<nat>, k: nat, s: nat, m: nat)
    requires s < 32 && m < |a|
    ensures RightPartial(a, k, s, 0, m) == 0 && RightPartial(a, k, s, |a|, m) == ShiftedRight(a, k, s)[m]
  {
    hide ShiftedRight, Below, Quotient, Pow2;
    ShiftedRightAt(a, k, s, m);
    BelowZero(s);
  }

  lemma BelowZero(s: nat)
    requires s < 32
    ensures Below(0, s) == 0
  {
    hide Quotient, Remainder, Pow2;
    DivideBack(0, 0, Pow2(s));
  }

  lemma RightStep(a: seq<nat>, k: nat, s: nat, i: nat, m: nat)
    requires Words(a) && s < 32 && i < |a| && m < |a|
    ensures
      var was, now := RightPartial(a, k, s, i, m), RightPartial(a, k, s, i + 1, m);
      now == if m + k + 1 == i && s != 0 then BitOr(was, Remainder(a[i] * Pow2(32 - s), UINT32))
             else if m + k == i then BitOr(was, Quotient(a[i], Pow2(s)))
             else was
  {
    hide Quotient, Remainder, BitOr, Pow2;
    var y := a[i];
    if m + k == i {
      OrZero(Quotient(y, Pow2(s)));
    } else if m + k + 1 == i {
      if s == 0 {
        Pow2Small();
        QuotientRemainder(y, 1);
      } else {
        ShiftWord(y, 0, 32 - s);
        RightWord(a[i - 1], y, s);
        OrAdds(Remainder(y, Pow2(s)), Quotient(a[i - 1], Pow2(s)), 32 - s);
      }
    }
  }

  // ---------------------------------------------------------------- binary long division

  ghost function Scaled(y: nat, sh: nat): nat { y * Pow2(sh) }

  /** So far `v` has been taken out of the quotient of `x` by `y`; `n` is left, and bits below `sh` are open. */
  ghost predicate Dividing(x: nat, y: nat, v: nat, n: nat, q: nat, sh: nat) {
    x == v * y + n && n < Scaled(y, sh) && v == Scaled(q, sh)
  }

  lemma LengthZero(v: nat, n: nat)
    requires IsLength(v, n)
    ensures n == 0 <==> v == 0
  {
  }

  lemma LengthOrder(x: nat, m: nat, y: nat, n: nat)
    requires IsLength(x, m) && IsLength(y, n) && m < n
    ensures x < y
  {
    hide Pow2;
    Pow2Mono(m, n - 1);
  }

  lemma DivideStart(x: nat, m: nat, y: nat, n: nat, width: nat)
    requires IsLength(x, m) && IsLength(y, n) && 0 < n <= m && x < Pow2(width)
    ensures m <= width && Scaled(y, m - n) < Pow2(width)
    ensures Dividing(x, y, 0, x, 0, m - n + 1)
  {
    hide Pow2;
    if width < m { Pow2Mono(width, m - 1); }
    var p := Pow2(m - n);
    Pow2Add(n, m - n);
    MulMono(y + 1, Pow2(n), p);
    Distribute(y, 1, p);
    Pow2Mono(m, width);
    Pow2Add(n - 1, m - n + 1);
    MulMono(Pow2(n - 1), y, Pow2(m - n + 1));
  }

  lemma DivideStep(x: nat, y: nat, v: nat, n: nat, q: nat, sh: nat)
    requires Dividing(x, y, v, n, q, sh + 1)
    ensures n < Scaled(y, sh) ==> Dividing(x, y, v, n, 2 * q, sh)
    ensures n >= Scaled(y, sh) ==> Dividing(x, y, v + Pow2(sh), n - Scaled(y, sh), 2 * q + 1, sh)
    ensures v == Scaled(q, sh + 1)
  {
    var p := Pow2(sh);
    MulAssoc(q, 2, p);
    MulAssoc(y, 2, p);
    MulSwap(q, 2);
    MulSwap(y, 2);
    MulAssoc(2, y, p);
    Distribute(2 * q, 1, p);
    Distribute(v, p, y);
    MulSwap(p, y);
  }

  lemma DivideEnd(x: nat, y: nat, v: nat, n: nat, q: nat)
    requires Dividing(x, y, v, n, q, 0) && y > 0
    ensures v == Quotient(x, y) && n == Remainder(x, y)
  {
    hide Quotient, Remainder;
    DivideBack(v, n, y);
  }

  lemma NotReduced(y: nat, sh: nat, m: nat)
    requires Scaled(y, sh) < m
    ensures Remainder(y * Pow2(sh), m) == Scaled(y, sh)
  {
    DivideBack(0, Scaled(y, sh), m);
  }

  lemma HalveBack(y: nat, sh: nat)
    ensures sh > 0 ==> Quotient(Scaled(y, sh), Pow2(1)) == Scaled(y, sh - 1)
  {
    hide Quotient, Remainder;
    if sh > 0 {
      Pow2Small();
      MulAssoc(y, Pow2(sh - 1), 2);
      DivideBack(y * Pow2(sh - 1), 0, 2);
    }
  }

  // ---------------------------------------------------------------- the operators

  class Uint {
    const pn: array<nat>

    ghost predicate Valid()
      reads pn
    {
      pn.Length >= 2 && Words(pn[..])
    }

    ghost function Val(): nat
      reads pn
    {
      Value(pn[..])
    }

    /** Two to the number of bits. */
    ghost function Modulus(): (m: nat)
      ensures m > 0
    {
      Top(pn.Length)
    }

    lemma ValBound()
      requires Valid()
      ensures Val() < Modulus() && Modulus() == Pow2(32 * pn.Length)
    {
      ValueBound(pn[..]);
      TopIsPow2(pn.Length);
    }

    constructor (width: nat, b: nat)
      requires width >= 2 && b < UINT64
      ensures Valid() && fresh(pn) && pn.Length == width && Val() == b
    {
      pn := new nat[width](i => if i == 0 then b % UINT32 else if i == 1 then b / UINT32 else 0);
      new;
      ValueOfTwo(pn[..], b);
    }

    constructor Copy(other: Uint)
      requires other.Valid()
      ensures Valid() && fresh(pn) && pn[..] == other.pn[..] && Val() == other.Val()
    {
      var words := new nat[other.pn.Length];
      for i := 0 to other.pn.Length
        invariant words[..i] == other.pn[..i]
      {
        words[i] := other.pn[i];
      }
      pn := words;
      new;
      assert pn[..] == other.pn[..];
    }

    /** Assigns a 64-bit number. */
    method Set(b: nat)
      requires Valid() && b < UINT64
      modifies pn
      ensures Valid() && Val() == b
    {
      pn[0] := b % UINT32;
      pn[1] := b / UINT32;
      for i := 2 to pn.Length
        invariant pn[0] == b % UINT32 && pn[1] == b / UINT32 && forall k :: 2 <= k < i ==> pn[k] == 0
      {
        pn[i] := 0;
      }
      ValueOfTwo(pn[..], b);
    }

    /** Adds `x * b` to the words from `j` on, with 64-bit sums and 32-bit carries. */
    method AddRowInPlace(j: nat, x: nat, b: Uint)
      requires Valid() && b.Valid() && b.pn.Length == pn.Length && j <= pn.Length && x < UINT32 && b.pn != pn
      modifies pn
      ensures Valid() && pn[..] == AddRow(old(pn[..]), j, x, b.pn[..])
    {
      hide Row, Sum, Filled, Carried;
      ghost var was, other := pn[..], b.pn[..];
      var carry, i, n := 0, 0, pn.Length - j;
      ghost var p, q := was[j..], other[..n];
      ghost var row := Row(p, x, q, 0);
      RowWords(p, x, q, 0);
      FillStarts(was, row, j);
      CarryStarts(p, x, q);
      while i < n
        invariant 0 <= i <= n && 0 <= carry < UINT32 && Filled(was, row, j, i, pn[..])
        invariant Carried(p, x, q, i, carry, row)
      {
        ghost var words := pn[..];
        FillNext(was, row, j, i, words);
        CarryNext(p, x, q, i, carry, row);
        var sum := Sum(pn[i + j], x, b.pn[i], carry);
        SumFits(pn[i + j], x, b.pn[i], carry);
        assert sum < UINT64;
        pn[i + j] := sum % UINT32;
        assert pn[..] == words[i + j := row[i]];
        carry := sum / UINT32;
        i := i + 1;
      }
      FillEnds(was, row, j, pn[..]);
    }

    /** Adds in place; the operands may be the same object, of which each word is read before it is written. */
    method AddAssign(b: Uint)
      requires Valid() && b.Valid() && b.pn.Length == pn.Length
      modifies pn
      ensures Valid() && Val() == Remainder(old(Val()) + old(b.Val()), Modulus())
    {
      hide Row, Value, Top, Remainder, Quotient, Filled, Carried;
      ghost var was, other := pn[..], b.pn[..];
      var carry, i, n := 0, 0, pn.Length;
      ghost var row := Row(was, 1, other, 0);
      RowReduced(was, 1, other);
      FillStarts(was, row, 0);
      CarryStarts(was, 1, other);
      while i < n
        invariant 0 <= i <= n && 0 <= carry < UINT32 && Filled(was, row, 0, i, pn[..])
        invariant Carried(was, 1, other, i, carry, row)
      {
        ghost var words := pn[..];
        FillNext(was, row, 0, i, words);
        CarryNext(was, 1, other, i, carry, row);
        assert b.pn[i] == other[i];
        SumFits(was[i], 1, other[i], carry);
        var sum := carry + pn[i] + b.pn[i];
        pn[i] := sum % UINT32;
        assert pn[..] == words[i := row[i]];
        carry := sum / UINT32;
        i := i + 1;
      }
      FillEnds(was, row, 0, pn[..]);
      assert was[..0] + row == row;
    }

    /** Multiplies by a 32-bit number. */
    method MultiplySmall(b32: nat)
      requires Valid() && b32 < UINT32
      modifies pn
      ensures Valid() && Val() == Remainder(old(Val()) * b32, Modulus())
    {
      hide Row, Value, Top, Remainder, Quotient, Filled, Carried, Sum;
      ghost var was, z := pn[..], Zeroes(pn.Length);
      var carry, i, n := 0, 0, pn.Length;
      ghost var row := Row(z, b32, was, 0);
      RowReduced(z, b32, was);
      ValueOfZeroes(z);
      MulSwap(b32, Value(was));
      FillStarts(was, row, 0);
      CarryStarts(z, b32, was);
      while i < n
        invariant 0 <= i <= n && 0 <= carry < UINT32 && Filled(was, row, 0, i, pn[..])
        invariant Carried(z, b32, was, i, carry, row)
      {
        ghost var words := pn[..];
        FillNext(was, row, 0, i, words);
        CarryNext(z, b32, was, i, carry, row);
        var sum := Sum(0, b32, pn[i], carry);
        SumFits(0, b32, pn[i], carry);
        pn[i] := sum % UINT32;
        assert pn[..] == words[i := row[i]];
        carry := sum / UINT32;
        i := i + 1;
      }
      FillEnds(was, row, 0, pn[..]);
      assert was[..0] + row == row;
    }

    /** Multiplies row by row. The left operand is cleared first: if both are the same object, that leaves nothing. */
    method MultiplyAssign(b: Uint)
      requires Valid() && b.Valid() && b.pn.Length == pn.Length
      modifies pn
      ensures Valid() && Val() == if b.pn == pn then 0 else Remainder(old(Val()) * old(b.Val()), Modulus())
    {
      hide Value, Top, Remainder;
      var a := new Uint.Copy(this);
      Set(0);
      if b.pn == pn {
        AddRowsOfItself(a);
      } else {
        AddRows(a, b);
      }
    }

    /** The rows of a product of two objects. */
    method AddRows(a: Uint, b: Uint)
      requires Valid() && a.Valid() && b.Valid() && a.pn.Length == b.pn.Length == pn.Length && a.pn != pn && b.pn != pn && Val() == 0
      modifies pn
      ensures Valid() && Val() == Remainder(a.Val() * b.Val(), Modulus())
    {
      hide Row, Value, Top, Remainder, Quotient, AddRow;
      ghost var was, other, m := a.pn[..], b.pn[..], Modulus();
      ValueOfZeroes(was[..0]);
      ghost var over := 0;
      var j := 0;
      assert Val() + over * m == Value(was[..0]) * Value(other);
      while j < pn.Length
        invariant 0 <= j <= pn.Length && Valid()
        invariant Val() + over * m == Value(was[..j]) * Value(other)
      {
        ghost var before := pn[..];
        ghost var k := AddRowValue(before, j, a.pn[j], other);
        AddRowInPlace(j, a.pn[j], b);
        PrefixValue(was, j);
        ProductStep(Value(before), over, k, m, Val(), Top(j), was[j], Value(other), Value(was[..j]));
        over := over + k;
        j := j + 1;
      }
      assert was[..j] == was;
      ValBound();
      Reduced(Val(), over, m, Value(was) * Value(other));
    }

    /** The same rows where the second factor is the cleared object itself. */
    method AddRowsOfItself(a: Uint)
      requires Valid() && a.Valid() && a.pn.Length == pn.Length && a.pn != pn && Val() == 0
      modifies pn
      ensures Valid() && Val() == 0
    {
      hide Value, Sum;
      ZeroWords(pn[..]);
      for j := 0 to pn.Length
        invariant AllZero(pn[..])
      {
        var carry := 0;
        for i := 0 to pn.Length - j
          invariant AllZero(pn[..]) && carry == 0
        {
          SumOfZeroes(a.pn[j]);
          var sum := Sum(pn[i + j], a.pn[j], pn[i], carry);
          pn[i + j] := sum % UINT32;
          carry := sum / UINT32;
        }
      }
      ValueOfZeroes(pn[..]);
    }

    /** Adds one word by word until a word does not wrap around. */
    method IncrementWords()
      requires Valid()
      modifies pn
      ensures pn[..] == Incremented(old(pn[..]))
    {
      hide Incremented;
      ghost var was := pn[..];
      var i := 0;
      while i < pn.Length
        invariant 0 <= i <= pn.Length
        invariant forall k :: 0 <= k < i ==> was[k] == UINT32 - 1 && pn[k] == 0
        invariant forall k :: i <= k < pn.Length ==> pn[k] == was[k]
      {
        pn[i] := (pn[i] + 1) % UINT32;
        if pn[i] != 0 {
          break;
        }
        i := i + 1;
      }
      WrappedWords(was, pn[..], i);
    }

    method Increment()
      requires Valid()
      modifies pn
      ensures Valid() && Val() == Remainder(old(Val()) + 1, Modulus())
    {
      hide Value, Top, Remainder, Quotient, Incremented, Words;
      IncrementedValue(pn[..]);
      ValBound();
      if Val() + 1 == Modulus() { DivideBack(1, 0, Modulus()); } else { DivideBack(0, Val() + 1, Modulus()); }
      IncrementWords();
    }

    method Not() returns (r: Uint)
      requires Valid()
      ensures fresh(r) && fresh(r.pn) && r.Valid() && r.pn.Length == pn.Length
      ensures r.Val() == Modulus() - 1 - Val()
    {
      hide Value, Top;
      r := new Uint(pn.Length, 0);
      ghost var was := pn[..];
      for i := 0 to pn.Length
        invariant r.pn.Length == pn.Length && pn[..] == was && forall k :: 0 <= k < i ==> r.pn[k] == UINT32 - 1 - was[k]
      {
        r.pn[i] := UINT32 - 1 - pn[i];
      }
      ComplementValue(was);
      assert r.pn[..] == Complement(was);
    }

    method Negate() returns (r: Uint)
      requires Valid()
      ensures fresh(r) && fresh(r.pn) && r.Valid() && r.pn.Length == pn.Length
      ensures r.Val() == if Val() == 0 then 0 else Modulus() - Val()
    {
      hide Value, Top, Remainder, Quotient;
      ValBound();
      ghost var m, v := Modulus(), Val();
      r := Not();
      r.Increment();
      if v == 0 { DivideBack(1, 0, m); } else { DivideBack(0, m - v, m); }
    }

    /** Subtracts by adding the negation. */
    method SubtractAssign(b: Uint)
      requires Valid() && b.Valid() && b.pn.Length == pn.Length
      modifies pn
      ensures Valid()
      ensures var x, y := old(Val()), old(b.Val()); Val() == if y <= x then x - y else Modulus() + x - y
    {
      hide Value, Top, Remainder, Quotient;
      ValBound();
      b.ValBound();
      ghost var x, y, m := Val(), b.Val(), Modulus();
      var c := b.Negate();
      AddAssign(c);
      if y == 0 { DivideBack(0, x, m); } else if y <= x { DivideBack(1, x - y, m); } else { DivideBack(0, m + x - y, m); }
    }

    method CompareTo(b: Uint) returns (r: int)
      requires Valid() && b.Valid() && b.pn.Length == pn.Length
      ensures r == if Val() < b.Val() then -1 else if Val() > b.Val() then 1 else 0
    {
      hide Value;
      ghost var x, y := pn[..], b.pn[..];
      var i := pn.Length;
      while i > 0
        invariant 0 <= i <= pn.Length && x[i..] == y[i..]
      {
        i := i - 1;
        assert x[i] == pn[i] && y[i] == b.pn[i];
        if pn[i] < b.pn[i] {
          HigherDecides(x, y, i);
          return -1;
        }
        if pn[i] > b.pn[i] {
          HigherDecides(y, x, i);
          return 1;
        }
        assert x[i..] == [x[i]] + x[i + 1..] && y[i..] == [y[i]] + y[i + 1..];
      }
      assert x == x[0..] == y[0..] == y;
      r := 0;
    }

    /** The position of the highest bit plus one, or zero for zero. */
    method BitLength() returns (n: nat)
      requires Valid()
      ensures IsLength(Val(), n)
    {
      hide Value, Pow2, BitSet;
      var pos := pn.Length;
      while pos > 0
        invariant 0 <= pos <= pn.Length && forall i :: pos <= i < pn.Length ==> pn[i] == 0
      {
        pos := pos - 1;
        if pn[pos] != 0 {
          var nbits := 31;
          Pow2Of32();
          while nbits > 0
            invariant 0 <= nbits <= 31 && pn[pos] < Pow2(nbits + 1)
          {
            TopBit(pn[pos], nbits);
            if BitSet(pn[pos], nbits) {
              LengthOfWords(pn[..], pos, nbits + 1);
              return 32 * pos + nbits + 1;
            }
            nbits := nbits - 1;
          }
          Pow2Small();
          LengthOfWords(pn[..], pos, 1);
          return 32 * pos + 1;
        }
      }
      ValueOfZeroes(pn[..]);
      Pow2Small();
      n := 0;
    }

    /** Clears all words. */
    method Clear()
      requires Valid()
      modifies pn
      ensures Valid() && forall k :: 0 <= k < pn.Length ==> pn[k] == 0
    {
      for i := 0 to pn.Length
        invariant forall k :: 0 <= k < i ==> pn[k] == 0
      {
        pn[i] := 0;
      }
    }

    /** Shifts left by whole words and then by bits; what passes the top is lost. */
    method ShiftLeftAssign(shift: nat)
      requires Valid()
      modifies pn
      ensures Valid() && Val() == Remainder(old(Val()) * Pow2(shift), Modulus())
    {
      hide Value, Top, Pow2, Quotient, Remainder, BitOr, Above, Kept, ShiftedLeft, LeftPartial;
      var a := new Uint.Copy(this);
      ghost var was := pn[..];
      Clear();
      var k, s := shift / 32, shift % 32;
      var i := 0;
      forall m | 0 <= m < |was| ensures LeftPartial(was, k, s, 0, m) == 0 { LeftEnds(was, k, s, m); }
      while i < pn.Length
        invariant 0 <= i <= pn.Length && a.pn[..] == was
        invariant forall m :: 0 <= m < pn.Length ==> pn[m] == LeftPartial(was, k, s, i, m)
      {
        var y := a.pn[i];
        forall m | 0 <= m < |was| { LeftStep(was, k, s, i, m); }
        if i + k + 1 < pn.Length && s != 0 {
          pn[i + k + 1] := BitOr(pn[i + k + 1], Quotient(y, Pow2(32 - s)));
        }
        if i + k < pn.Length {
          pn[i + k] := BitOr(pn[i + k], Remainder(y * Pow2(s), UINT32));
        }
        i := i + 1;
      }
      ShiftedLeftValue(was, k, s);
      forall m | 0 <= m < pn.Length ensures pn[m] == ShiftedLeft(was, k, s)[m] { LeftEnds(was, k, s, m); }
      assert pn[..] == ShiftedLeft(was, k, s);
    }

    method ShiftRightAssign(shift: nat)
      requires Valid()
      modifies pn
      ensures Valid() && Val() == Quotient(old(Val()), Pow2(shift))
    {
      hide Value, Top, Pow2, Quotient, Remainder, BitOr, Below, ShiftedRight, RightPartial;
      var a := new Uint.Copy(this);
      ghost var was := pn[..];
      Clear();
      var k, s := shift / 32, shift % 32;
      var i := 0;
      forall m | 0 <= m < |was| ensures RightPartial(was, k, s, 0, m) == 0 { RightEnds(was, k, s, m); }
      while i < pn.Length
        invariant 0 <= i <= pn.Length && a.pn[..] == was
        invariant forall m :: 0 <= m < pn.Length ==> pn[m] == RightPartial(was, k, s, i, m)
      {
        var y := a.pn[i];
        forall m | 0 <= m < |was| { RightStep(was, k, s, i, m); }
        if i - k - 1 >= 0 && s != 0 {
          pn[i - k - 1] := BitOr(pn[i - k - 1], Remainder(y * Pow2(32 - s), UINT32));
        }
        if i - k >= 0 {
          pn[i - k] := BitOr(pn[i - k], Quotient(y, Pow2(s)));
        }
        i := i + 1;
      }
      ShiftedRightValue(was, k, s);
      forall m | 0 <= m < pn.Length ensures pn[m] == ShiftedRight(was, k, s)[m] { RightEnds(was, k, s, m); }
      assert pn[..] == ShiftedRight(was, k, s);
    }

    /** Sets a bit below which, and at which, all bits are clear. */
    method SetBit(shift: nat, ghost q: nat)
      requires Valid() && shift < 32 * pn.Length && Val() == Scaled(q, shift + 1)
      modifies pn
      ensures Valid() && Val() == old(Val()) + Pow2(shift)
    {
      hide Value, Pow2, BitOr;
      var k, s := shift / 32, shift % 32;
      ghost var was := pn[..];
      BitAdded(was, k, s, q);
      pn[k] := BitOr(pn[k], Pow2(s));
      assert pn[..] == was[k := was[k] + Pow2(s)];
    }

    /** One bit of a long division, into this quotient. */
    method DivideBit(num: Uint, div: Uint, shift: nat, ghost x: nat, ghost y: nat, ghost q: nat) returns (ghost q': nat)
      requires Valid() && num.Valid() && div.Valid() && num.pn.Length == div.pn.Length == pn.Length
      requires num.pn != div.pn && num.pn != pn && div.pn != pn && shift < 32 * pn.Length
      requires Dividing(x, y, Val(), num.Val(), q, shift + 1) && div.Val() == Scaled(y, shift)
      modifies pn, num.pn, div.pn
      ensures Valid() && num.Valid() && div.Valid() && Dividing(x, y, Val(), num.Val(), q', shift)
      ensures shift > 0 ==> div.Val() == Scaled(y, shift - 1)
    {
      hide Words, Value, Pow2, Top, Quotient, Remainder, Dividing, Scaled;
      DivideStep(x, y, Val(), num.Val(), q, shift);
      var c := num.CompareTo(div);
      q' := 2 * q;
      if c >= 0 {
        num.SubtractAssign(div);
        SetBit(shift, q);
        q' := 2 * q + 1;
      }
      HalveBack(y, shift);
      div.ShiftRightAssign(1);
    }

    /** Long division in binary; division by zero is reported, after the quotient has been cleared. */
    method DivideAssign(b: Uint) returns (ok: bool)
      requires Valid() && b.Valid() && b.pn.Length == pn.Length
      modifies pn
      ensures Valid() && (ok <==> old(b.Val()) != 0)
      ensures !ok ==> Val() == 0
      ensures ok ==> Val() == Quotient(old(Val()), old(b.Val()))
    {
      hide Words, Value, Pow2, Top, Quotient, Remainder, IsLength, Dividing, Scaled;
      ghost var x, y, m := Val(), b.Val(), Modulus();
      ValBound();
      var div := new Uint.Copy(b);
      var num := new Uint.Copy(this);
      Set(0);
      var numBits := num.BitLength();
      var divBits := div.BitLength();
      LengthZero(y, divBits);
      if divBits == 0 {
        return false;
      }
      if divBits > numBits {
        LengthOrder(x, numBits, y, divBits);
        DivideBack(0, x, y);
        return true;
      }
      var shift: int := numBits - divBits;
      DivideStart(x, numBits, y, divBits, 32 * pn.Length);
      div.ShiftLeftAssign(shift);
      NotReduced(y, shift, m);
      ghost var q := 0;
      while shift >= 0
        invariant -1 <= shift < 32 * pn.Length
        invariant Valid() && num.Valid() && div.Valid() && num.pn.Length == div.pn.Length == pn.Length
        invariant fresh(num.pn) && fresh(div.pn) && num.pn != div.pn
        invariant Dividing(x, y, Val(), num.Val(), q, shift + 1)
        invariant shift >= 0 ==> div.Val() == Scaled(y, shift)
      {
        q := DivideBit(num, div, shift, x, y, q);
        shift := shift - 1;
      }
      DivideEnd(x, y, Val(), num.Val(), q);
      ok := true;
    }

    method EqualTo(b: nat) returns (r: bool)
      requires Valid() && b < UINT64
      ensures r <==> Val() == b
    {
      hide Value;
      ghost var words := pn[..];
      var other := seq(pn.Length, i => if i == 0 then b % UINT32 else if i == 1 then b / UINT32 else 0);
      ValueOfTwo(other, b);
      if words != other && Val() == b { ValueInjective(words, other); }
      var i := pn.Length;
      while i > 2
        invariant 2 <= i <= pn.Length && forall k :: i <= k < pn.Length ==> pn[k] == 0
      {
        i := i - 1;
        if pn[i] != 0 {
          assert words[i] != other[i];
          return false;
        }
      }
      if pn[1] != b / UINT32 {
        assert words[1] != other[1];
        return false;
      }
      if pn[0] != b % UINT32 {
        assert words[0] != other[0];
        return false;
      }
      assert words == other;
      r := true;
    }

    function GetLow64(): (r: nat)
      requires Valid()
      reads pn
      ensures r == Remainder(Val(), UINT64) < UINT64
    {
      LowWords(pn[..]);
      pn[0] + UINT32 * pn[1]
    }
  }

  lemma Pow2Small()
    ensures Pow2(0) == 1 && Pow2(1) == 2
  {
  }
}
