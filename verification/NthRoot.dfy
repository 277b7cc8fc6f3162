/** The approximate n-th root that block work is computed from: a 64-bit binary search on the leading bits. */
module NthRoot {
  import opened Bits
  import opened Integers
  import opened Limbs
  import opened BaseUint

  // ---------------------------------------------------------------- powers

  lemma {:induction false} PowBaseMono(a: nat, b: nat, n: nat)
    requires a <= b
    ensures Pow(a, n) <= Pow(b, n)
    ensures a < b && n > 0 ==> Pow(a, n) < Pow(b, n)
  {
    if n > 0 {
      PowBaseMono(a, b, n - 1);
      MulBoth(a, b, Pow(a, n - 1), Pow(b, n - 1));
      if a < b {
        PowPositive(b, n - 1);
        MulMono(Pow(a, n - 1), Pow(b, n - 1), a);
        MulMono(a + 1, b, Pow(b, n - 1));
        Distribute(a, 1, Pow(b, n - 1));
      }
    }
  }

  lemma {:induction false} PowMul(a: nat, b: nat, n: nat)
    ensures Pow(a * b, n) == Pow(a, n) * Pow(b, n)
  {
    if n > 0 {
      PowMul(a, b, n - 1);
      Interchange(a, b, Pow(a, n - 1), Pow(b, n - 1));
    }
  }

  lemma Interchange(a: nat, b: nat, c: nat, d: nat)
    ensures (a * b) * (c * d) == (a * c) * (b * d)
  {
    MulAssoc(a, b, c * d);
    MulAssoc(b, c, d);
    MulSwap(b, c);
    MulAssoc(c, b, d);
    MulAssoc(a, c, b * d);
  }

  lemma {:induction false} PowOfPow2(s: nat, n: nat)
    ensures Pow(Pow2(s), n) == Pow2(n * s)
  {
    if n == 0 {
      assert 0 * s == 0;
    } else {
      PowOfPow2(s, n - 1);
      Distribute(n - 1, 1, s);
      Pow2Add(s, (n - 1) * s);
    }
  }

  lemma {:induction false} PowAtLeastBase(a: nat, n: nat)
    requires n > 0
    ensures a <= Pow(a, n)
  {
    if n > 1 && a > 0 {
      PowPositive(a, n - 1);
      MulMono(1, Pow(a, n - 1), a);
    }
  }

  // ---------------------------------------------------------------- the leading bits

  /** The whole n-th part of 64 bits. */
  function Parts(n: nat): nat
    requires n > 0
  {
    Quotient(64, n)
  }

  /** How far a number of the given length is shifted so that its root search fits into 64 bits. */
  function Shifts(length: nat, n: nat): (s: nat)
    requires n > 0
  {
    var blocks := if length == 0 then 0 else Quotient(length - 1, n);
    if blocks + 1 < Parts(n) then 0 else blocks + 1 - Parts(n)
  }

  lemma PartsFit(n: nat)
    requires 1 < n < 64
    ensures Parts(n) >= 1 && n * Parts(n) <= 64
  {
    hide Quotient, Remainder;
    QuotientRemainder(64, n);
    MulSwap(n, Parts(n));
  }

  /** The last bit of a number lies in the block that its length counts. */
  lemma BlockOf(x: nat, length: nat, n: nat, blocks: nat)
    requires n > 0 && IsLength(x, length) && blocks == if length == 0 then 0 else Quotient(length - 1, n)
    ensures x < Pow2(n * (blocks + 1)) && (length > 0 ==> Pow2(n * blocks) <= x)
  {
    hide Pow2, Quotient, Remainder;
    Distribute(blocks, 1, n);
    if length == 0 {
      Pow2Mono(0, n * (blocks + 1));
    } else {
      QuotientRemainder(length - 1, n);
      MulSwap(n, blocks);
      Pow2Mono(length, n * (blocks + 1));
      Pow2Mono(n * blocks, length - 1);
    }
  }

  lemma QuotientBelow(x: nat, e: nat, f: nat)
    requires x < Pow2(e + f)
    ensures Quotient(x, Pow2(f)) < Pow2(e)
  {
    hide Pow2, Quotient, Remainder;
    Pow2Add(e, f);
    QuotientRemainder(x, Pow2(f));
    if Quotient(x, Pow2(f)) >= Pow2(e) { MulMono(Pow2(e), Quotient(x, Pow2(f)), Pow2(f)); }
  }

  lemma QuotientAbove(x: nat, e: nat, f: nat)
    requires Pow2(e + f) <= x
    ensures Pow2(e) <= Quotient(x, Pow2(f))
  {
    hide Pow2, Quotient, Remainder;
    Pow2Add(e, f);
    QuotientRemainder(x, Pow2(f));
    var q := Quotient(x, Pow2(f));
    if q < Pow2(e) {
      MulMono(q + 1, Pow2(e), Pow2(f));
      Distribute(q, 1, Pow2(f));
    }
  }

  /** The leading bits fit into whole n-th parts of 64 bits; if any bits were dropped, the top part is not empty. */
  lemma HeadFits(x: nat, length: nat, n: nat)
    requires 1 < n < 64 && IsLength(x, length)
    ensures
      var s := Shifts(length, n);
      var head := Quotient(x, Pow2(n * s));
      Parts(n) >= 1 && head < Pow2(n * Parts(n)) && (s > 0 ==> Pow2(n * (Parts(n) - 1)) <= head)
  {
    hide Pow2, Quotient, Remainder, Parts, IsLength;
    var s, parts := Shifts(length, n), Parts(n);
    var blocks := if length == 0 then 0 else Quotient(length - 1, n);
    PartsFit(n);
    BlockOf(x, length, n, blocks);
    MulMono(blocks + 1, s + parts, n);
    Distribute(s, parts, n);
    Pow2Mono(n * (blocks + 1), n * (s + parts));
    QuotientBelow(x, n * parts, n * s);
    if s > 0 && length > 0 {
      Distribute(s, parts - 1, n);
      QuotientAbove(x, n * (parts - 1), n * s);
    }
  }

  // ---------------------------------------------------------------- the search

  /** The root is found down to bit `i`. */
  ghost predicate Searching(root: nat, q: nat, head: nat, n: nat, i: nat, parts: nat) {
    && root == q * Pow2(i) && root + Pow2(i) <= Pow2(parts)
    && Pow(root, n) <= head < Pow(root + Pow2(i), n)
  }

  /** The next candidate sets a clear bit, and none of its powers up to the n-th leaves 64 bits. */
  lemma Candidate(root: nat, q: nat, head: nat, n: nat, i: nat, parts: nat, next: nat)
    requires 1 < n < 64 && n * parts <= 64 && Searching(root, q, head, n, i + 1, parts) && next == root + Pow2(i)
    ensures BitOr(root, Pow2(i)) == next < Pow2(parts)
    ensures forall j :: 0 <= j <= n ==> Pow(next, j) < UINT64
    ensures Pow(next, n) <= head ==> Searching(next, 2 * q + 1, head, n, i, parts)
    ensures Pow(next, n) > head ==> Searching(root, 2 * q, head, n, i, parts)
  {
    hide Pow, BitOr;
    var p := Pow2(i);
    OrAdds(q, p, i + 1);
    MulAssoc(q, 2, p);
    MulSwap(q, 2);
    Distribute(2 * q, 1, p);
    forall j | 0 <= j <= n ensures Pow(next, j) < UINT64 { PowersFit(next, j, n, parts); }
  }

  lemma PowersFit(next: nat, j: nat, n: nat, parts: nat)
    requires 0 < next < Pow2(parts) && j <= n && 0 < n && n * parts <= 64
    ensures Pow(next, j) < UINT64
  {
    hide Pow, Pow2;
    PowMono(next, j, n);
    PowBaseMono(next, Pow2(parts), n);
    PowOfPow2(parts, n);
    Pow2Mono(n * parts, 64);
    Pow2Of32();
    Pow2Add(32, 32);
  }

  lemma SearchStart(head: nat, n: nat, parts: nat)
    requires n > 0 && head < Pow2(n * parts)
    ensures Searching(0, 0, head, n, parts, parts)
  {
    PowOfPow2(parts, n);
    assert Pow(0, n) == 0;
  }

  /** A root of the leading bits, shifted back, is a root of the number to that precision. */
  lemma RootShifted(x: nat, root: nat, n: nat, s: nat)
    requires n > 0
    requires Pow(root, n) <= Quotient(x, Pow2(n * s)) < Pow(root + 1, n)
    ensures Pow(root * Pow2(s), n) <= x < Pow((root + 1) * Pow2(s), n)
  {
    hide Pow, Pow2, Quotient, Remainder;
    var p, head := Pow2(n * s), Quotient(x, Pow2(n * s));
    PowOfPow2(s, n);
    PowMul(root, Pow2(s), n);
    PowMul(root + 1, Pow2(s), n);
    QuotientRemainder(x, p);
    MulMono(Pow(root, n), head, p);
    MulMono(head + 1, Pow(root + 1, n), p);
    Distribute(head, 1, p);
  }

  /** `r * 2^s` is the n-th root of `x` from below, exact when `s` is 0 and to the leading bits of one part otherwise. */
  ghost predicate IsRoot(x: nat, n: nat, r: nat, s: nat)
    requires n > 1
  {
    && Pow(r * Pow2(s), n) <= x < Pow((r + 1) * Pow2(s), n)
    && r < Pow2(Parts(n))
    && (s > 0 ==> Parts(n) >= 1 && Pow2(Parts(n) - 1) <= r)
  }

  /** A root of leading bits that reach into the top part reaches into its own top bit. */
  lemma RootReaches(root: nat, head: nat, n: nat, parts: nat)
    requires n > 0 && parts > 0 && Pow2(n * (parts - 1)) <= head < Pow(root + 1, n)
    ensures Pow2(parts - 1) <= root
  {
    hide Pow, Pow2;
    PowOfPow2(parts - 1, n);
    if root < Pow2(parts - 1) { PowBaseMono(root + 1, Pow2(parts - 1), n); }
  }

  /** The n-th power by repeated multiplication in 64 bits. */
  method Power64(base: nat, n: nat) returns (p: nat)
    requires n > 0 && forall j :: 0 <= j <= n ==> Pow(base, j) < UINT64
    ensures p == Pow(base, n)
  {
    p := base;
    assert Pow(base, 1) == base;
    for j := 1 to n
      invariant p == Pow(base, j)
    {
      MulSwap(p, base);
      p := p * base;
      assert Pow(base, j + 1) == p < UINT64;
    }
  }

  /** Finds the n-th root of the leading bits, bit by bit. */
  method RootOf(head: nat, n: nat) returns (root: nat)
    requires 1 < n < 64 && head < Pow2(n * Parts(n))
    ensures Pow(root, n) <= head < Pow(root + 1, n) && root < Pow2(Parts(n)) <= UINT64
  {
    hide Pow, Pow2, Quotient, Parts, Searching, BitOr;
    ghost var parts := Parts(n);
    PartsFit(n);
    PartsBelow64(n);
    root := 0;
    ghost var q: nat := 0;
    SearchStart(head, n, parts);
    var i := Parts(n);
    while i > 0
      invariant 0 <= i <= parts && Searching(root, q, head, n, i, parts)
    {
      i := i - 1;
      Candidate(root, q, head, n, i, parts, root + Pow2(i));
      var next := BitOr(root, Pow2(i));
      var power := Power64(next, n);
      if power <= head {
        root := next;
        q := 2 * q + 1;
      } else {
        q := 2 * q;
      }
    }
    SearchEnd(root, q, head, n, parts);
  }

  lemma SearchEnd(root: nat, q: nat, head: nat, n: nat, parts: nat)
    requires Searching(root, q, head, n, 0, parts)
    ensures Pow(root, n) <= head < Pow(root + 1, n) && root < Pow2(parts)
  {
  }

  lemma PartsBelow64(n: nat)
    requires 1 < n < 64
    ensures Parts(n) <= 64 && Pow2(Parts(n)) <= UINT64
  {
    hide Pow2, Quotient, Parts;
    PartsFit(n);
    MulMono(1, n, Parts(n));
    Pow2Mono(Parts(n), 64);
    Pow2Of32();
    Pow2Add(32, 32);
  }

  method ApproxNthRoot(x: Uint, n: nat) returns (res: Uint, ghost r: nat, ghost s: nat)
    requires x.Valid() && 1 < n < 64
    ensures fresh(res) && fresh(res.pn) && res.Valid() && res.pn.Length == x.pn.Length
    ensures res.Val() == r * Pow2(s) && IsRoot(x.Val(), n, r, s)
  {
    hide Pow, Pow2, Quotient, Remainder, Parts, Shifts, IsLength, Words, Value, Top;
    ghost var v := x.Val();
    x.ValBound();
    var length := x.BitLength();
    var nShifts := Shifts(length, n);
    HeadFits(v, length, n);
    PartsFit(n);
    var shifted := new Uint.Copy(x);
    shifted.ShiftRightAssign(n * nShifts);
    HeadIn64(shifted.Val(), n);
    ghost var head := shifted.Val();
    var nHead := shifted.GetLow64();
    var root := RootOf(nHead, n);
    RootShifted(v, root, n, nShifts);
    if nShifts > 0 { RootReaches(root, head, n, Parts(n)); }
    res := new Uint(x.pn.Length, root);
    res.ShiftLeftAssign(nShifts);
    PowAtLeastBase(root * Pow2(nShifts), n);
    DivideBack(0, root * Pow2(nShifts), res.Modulus());
    r, s := root, nShifts;
  }

  lemma HeadIn64(head: nat, n: nat)
    requires 1 < n < 64 && head < Pow2(n * Parts(n))
    ensures Remainder(head, UINT64) == head
  {
    hide Pow2, Quotient, Parts, Remainder;
    PartsFit(n);
    Pow2Mono(n * Parts(n), 64);
    Pow2Of32();
    Pow2Add(32, 32);
    DivideBack(0, head, UINT64);
  }
}
