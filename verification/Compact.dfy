/**
 The compact form of difficulty targets: a size byte, a sign bit and 23 bits of mantissa. Decoding an encoded target
 loses less than one part in 2^15 of it, encoding again changes nothing more, and overflow is flagged exactly.
 */
module Compact {
  import opened Bits
  import opened Integers
  import opened Limbs
  import opened BaseUint

  const BIT23: nat := 0x80_0000
  const BIT24: nat := 0x100_0000

  datatype Expanded = Expanded(value: nat, negative: bool, overflow: bool)

  // ---------------------------------------------------------------- sizes

  /** The number of bytes a number takes. */
  ghost predicate IsSize(x: nat, n: nat) {
    x < Pow2(8 * n) && (n > 0 ==> Pow2(8 * (n - 1)) <= x)
  }

  lemma SizeOfLength(x: nat, length: nat)
    requires IsLength(x, length)
    ensures IsSize(x, (length + 7) / 8)
  {
    hide Pow2;
    var n := (length + 7) / 8;
    Pow2Mono(length, 8 * n);
    if n > 0 { Pow2Mono(8 * (n - 1), length - 1); }
  }

  lemma SizeUnique(x: nat, m: nat, n: nat)
    requires IsSize(x, m) && IsSize(x, n)
    ensures m == n
  {
    hide Pow2;
    if m < n { Pow2Mono(8 * m, 8 * (n - 1)); }
    if n < m { Pow2Mono(8 * n, 8 * (m - 1)); }
  }

  ghost function SizeOf(x: nat): nat {
    if x == 0 then 0 else 1 + SizeOf(x / 256)
  }

  lemma {:induction false} SizeOfIs(x: nat)
    ensures IsSize(x, SizeOf(x))
  {
    hide Pow2;
    Pow2Bytes();
    if x > 0 {
      var n := SizeOf(x / 256);
      SizeOfIs(x / 256);
      Pow2Add(8, 8 * n);
      if n > 0 { Pow2Add(8, 8 * (n - 1)); }
    }
  }

  // ---------------------------------------------------------------- the two directions

  /** The mantissa word as `SetCompact` uses it. */
  function Word(size: nat, mantissa: nat): nat {
    if size <= 3 then Quotient(mantissa, Pow2(8 * (3 - size))) else mantissa
  }

  function TooBig(size: nat, word: nat): bool {
    word != 0 && (size > 34 || (word > 0xff && size > 33) || (word > 0xffff && size > 32))
  }

  /** What a compact number with this size byte, sign bit and mantissa stands for in 256 bits. */
  function Expand(size: nat, sign: bool, mantissa: nat): Expanded {
    var word := Word(size, mantissa);
    var value := if size <= 3 then word else Remainder(word * Pow2(8 * (size - 3)), Pow2(256));
    Expanded(value, word != 0 && sign, TooBig(size, word))
  }

  /** The top three bytes of a number of `n` bytes. */
  function TopBytes(x: nat, n: nat): nat {
    if n <= 3 then x * Pow2(8 * (3 - n)) else Quotient(x, Pow2(8 * (n - 3)))
  }

  /** Size byte and mantissa; the mantissa gives way by a byte where it would reach the sign bit. */
  function Encoded(x: nat, n: nat): (nat, nat) {
    var m := TopBytes(x, n);
    if m >= BIT23 then (n + 1, m / 256) else (n, m)
  }

  // ---------------------------------------------------------------- overflow is exact

  lemma Pow2Bytes()
    ensures Pow2(0) == 1 && Pow2(8) == 0x100 && Pow2(16) == 0x1_0000 && Pow2(24) == BIT24
  {
    assert Pow2(4) == 16;
    Pow2Add(4, 4);
    Pow2Add(8, 8);
    Pow2Add(8, 16);
  }

  /** The flag is raised exactly when mantissa * 256^(size - 3) does not fit into 256 bits. */
  lemma OverflowExact(size: nat, sign: bool, mantissa: nat)
    requires mantissa < BIT23
    ensures size <= 3 ==> !Expand(size, sign, mantissa).overflow && Expand(size, sign, mantissa).value < BIT23
    ensures size > 3 ==> (Expand(size, sign, mantissa).overflow <==> mantissa * Pow2(8 * (size - 3)) >= Pow2(256))
    ensures size > 3 && !Expand(size, sign, mantissa).overflow ==>
              Expand(size, sign, mantissa).value == mantissa * Pow2(8 * (size - 3)) < Pow2(256)
  {
    hide Pow2, Quotient, Remainder;
    Pow2Bytes();
    if size <= 3 {
      QuotientRemainder(mantissa, Pow2(8 * (3 - size)));
      MulMono(1, Pow2(8 * (3 - size)), Quotient(mantissa, Pow2(8 * (3 - size))));
    } else {
      var e := 8 * (size - 3);
      OverflowAt(mantissa, size, if mantissa > 0xffff then 32 else if mantissa > 0xff then 33 else 34);
      if mantissa * Pow2(e) < Pow2(256) { DivideBack(0, mantissa * Pow2(e), Pow2(256)); }
    }
  }

  /** A mantissa of `35 - limit` bytes passes 256 bits exactly beyond size `limit`. */
  lemma OverflowAt(mantissa: nat, size: nat, limit: nat)
    requires size > 3 && mantissa < BIT24 && limit == if mantissa > 0xffff then 32 else if mantissa > 0xff then 33 else 34
    ensures mantissa > 0 ==> (size > limit <==> mantissa * Pow2(8 * (size - 3)) >= Pow2(256))
  {
    hide Pow2;
    Pow2Bytes();
    var e, bytes := 8 * (size - 3), 35 - limit;
    if mantissa > 0 {
      if size > limit {
        MulMono(Pow2(8 * (bytes - 1)), mantissa, Pow2(e));
        Pow2Add(8 * (bytes - 1), e);
        Pow2Mono(256, 8 * (bytes - 1) + e);
      } else {
        MulMono(mantissa + 1, Pow2(8 * bytes), Pow2(e));
        Distribute(mantissa, 1, Pow2(e));
        Pow2Add(8 * bytes, e);
        Pow2Mono(8 * bytes + e, 256);
      }
    }
  }

  // ---------------------------------------------------------------- what a round trip keeps

  /** At most one part in 2^15 of `x` is missing from `d`. */
  ghost predicate Close(x: nat, d: nat) {
    d <= x && (x - d) * 0x8000 <= x
  }

  lemma TopBytesRange(x: nat, n: nat)
    requires IsSize(x, n)
    ensures TopBytes(x, n) < BIT24 && (n > 0 ==> 0x1_0000 <= TopBytes(x, n))
  {
    hide Pow2, Quotient, Remainder;
    Pow2Bytes();
    if n <= 3 {
      Pow2Add(8 * n, 8 * (3 - n));
      MulMono(x + 1, Pow2(8 * n), Pow2(8 * (3 - n)));
      Distribute(x, 1, Pow2(8 * (3 - n)));
      if n > 0 {
        Pow2Add(8 * (n - 1), 8 * (3 - n));
        MulMono(Pow2(8 * (n - 1)), x, Pow2(8 * (3 - n)));
      }
    } else {
      var p, q := Pow2(8 * (n - 3)), Quotient(x, Pow2(8 * (n - 3)));
      QuotientRemainder(x, p);
      Pow2Add(24, 8 * (n - 3));
      Pow2Add(16, 8 * (n - 3));
      if q >= BIT24 { MulMono(BIT24, q, p); }
      if q < 0x1_0000 { MulMono(q + 1, 0x1_0000, p); Distribute(q, 1, p); }
    }
  }

  /** What an encoding must give back. */
  ghost predicate RoundTrips(x: nat, n: nat) {
    var (size, mantissa) := Encoded(x, n);
    var d := Expand(size, false, mantissa).value;
    mantissa < BIT23 && Close(x, d) && IsSize(d, n) && Encoded(d, n) == (size, mantissa)
  }

  lemma ExactRoundTrip(x: nat, n: nat)
    requires IsSize(x, n)
    requires var (size, mantissa) := Encoded(x, n); mantissa < BIT23 && Expand(size, false, mantissa).value == x
    ensures RoundTrips(x, n)
  {
    hide Pow2, Encoded, Expand, IsSize;
  }

  /** One or two bytes: the mantissa holds all of the number. */
  lemma TwoBytes(x: nat, n: nat)
    requires n <= 2 && IsSize(x, n)
    ensures var (size, mantissa) := Encoded(x, n); mantissa < BIT23 && Expand(size, false, mantissa).value == x
  {
    hide Pow2, Quotient, Remainder;
    Pow2Bytes();
    var (size, mantissa) := Encoded(x, n);
    if n == 0 {
      DivideBack(0, 0, Pow2(24));
    } else if n == 1 && x < 0x80 {
      DivideBack(x, 0, Pow2(16));
    } else if n == 1 || x < 0x8000 {
      DivideBack(x, 0, Pow2(8));
    } else {
      DivideBack(x, 0, Pow2(0));
    }
  }

  /** Three bytes: all of the number, or all but its last byte. */
  lemma ThreeBytes(x: nat)
    requires IsSize(x, 3)
    ensures RoundTrips(x, 3)
  {
    hide Pow2, Quotient, Remainder;
    Pow2Bytes();
    if x < BIT23 {
      DivideBack(x, 0, Pow2(0));
    } else {
      var m := x / 256;
      Pow2Mono(24, 256);
      DivideBack(0, m * Pow2(8), Pow2(256));
    }
  }

  lemma CloseBelow(x: nat, u: nat, p: nat)
    requires u * p <= x < (u + 1) * p && u >= 0x8000
    ensures Close(x, u * p)
  {
    MulMono(0x8000, u, p);
    Distribute(u, 1, p);
  }

  lemma SizeOfProduct(u: nat, n: nat, x: nat)
    requires n > 3 && IsSize(x, n) && 0x1_0000 <= u && u * Pow2(8 * (n - 3)) <= x
    ensures IsSize(u * Pow2(8 * (n - 3)), n)
  {
    hide Pow2;
    Pow2Bytes();
    Pow2Add(16, 8 * (n - 3));
    MulMono(0x1_0000, u, Pow2(8 * (n - 3)));
  }

  /** More than three bytes, the mantissa free of the sign bit. */
  lemma MoreBytes(x: nat, n: nat)
    requires 3 < n <= 32 && IsSize(x, n) && TopBytes(x, n) < BIT23
    ensures RoundTrips(x, n)
  {
    hide Pow2, Quotient, Remainder, TooBig, Close, IsSize;
    var p := Pow2(8 * (n - 3));
    TopBytesRange(x, n);
    QuotientRemainder(x, p);
    var m := Quotient(x, p);
    Distribute(m, 1, p);
    CloseBelow(x, m, p);
    SizeOfProduct(m, n, x);
    FitsWidth(x, n);
    CloseMeans(x, m * p);
    DivideBack(0, m * p, Pow2(256));
    DivideBack(m, 0, p);
  }

  /** More than three bytes, the mantissa shortened by a byte. */
  lemma MoreBytesShortened(x: nat, n: nat)
    requires 3 < n <= 32 && IsSize(x, n) && TopBytes(x, n) >= BIT23
    ensures RoundTrips(x, n)
  {
    hide Pow2, Quotient, Remainder, TooBig, Close, IsSize;
    var p, r := Pow2(8 * (n - 3)), Pow2(8 * (n - 2));
    TopBytesRange(x, n);
    var m := Quotient(x, p);
    var h := m / 256;
    Shortened(x, p, m, h);
    Pow2Bytes();
    Pow2Add(8, 8 * (n - 3));
    MulAssoc(h, 256, p);
    CloseBelow(x, h, r);
    SizeOfProduct(h * 256, n, x);
    FitsWidth(x, n);
    CloseMeans(x, h * r);
    DivideBack(0, h * r, Pow2(256));
    DivideBack(h * 256, 0, p);
  }

  lemma Shortened(x: nat, p: nat, m: nat, h: nat)
    requires p > 0 && m == Quotient(x, p) && h == m / 256
    ensures h * (256 * p) <= x < (h + 1) * (256 * p)
  {
    hide Quotient, Remainder;
    QuotientRemainder(x, p);
    MulAssoc(h, 256, p);
    MulAssoc(h + 1, 256, p);
    MulMono(h * 256, m, p);
    MulMono(m + 1, (h + 1) * 256, p);
    Distribute(m, 1, p);
  }

  lemma FitsWidth(x: nat, n: nat)
    requires n <= 32 && IsSize(x, n)
    ensures x < Pow2(256)
  {
    hide Pow2;
    Pow2Mono(8 * n, 256);
  }

  lemma CloseMeans(x: nat, d: nat)
    requires Close(x, d)
    ensures d <= x
  {
  }

  lemma RoundTrip(x: nat, n: nat)
    requires n <= 32 && IsSize(x, n)
    ensures RoundTrips(x, n)
  {
    hide RoundTrips, IsSize;
    if n <= 2 {
      TwoBytes(x, n);
      ExactRoundTrip(x, n);
    } else if n == 3 {
      ThreeBytes(x);
    } else if TopBytes(x, n) < BIT23 {
      MoreBytes(x, n);
    } else {
      MoreBytesShortened(x, n);
    }
  }

  // ---------------------------------------------------------------- the 32-bit form

  function Join(size: nat, sign: bool, mantissa: nat): nat {
    size * BIT24 + (if sign then BIT23 else 0) + mantissa
  }

  lemma FieldsOfJoin(size: nat, sign: bool, mantissa: nat)
    requires size < 256 && mantissa < BIT23
    ensures
      var c := Join(size, sign, mantissa);
      c < UINT32 && c / BIT24 == size && ((c / BIT23) % 2 == 1 <==> sign) && c % BIT23 == mantissa
  {
  }

  /** What a 32-bit compact number stands for. */
  function Unpack(c: nat): Expanded {
    Expand(c / BIT24, (c / BIT23) % 2 == 1, c % BIT23)
  }

  /** The compact form of a number of `n` bytes. */
  function Pack(x: nat, n: nat, negative: bool): nat {
    var (size, mantissa) := Encoded(x, n);
    Join(size, negative && mantissa != 0, mantissa)
  }

  lemma EncodedFields(x: nat, n: nat)
    requires IsSize(x, n)
    ensures var (size, mantissa) := Encoded(x, n); size <= n + 1 && mantissa < BIT23 && (mantissa == 0 <==> x == 0)
  {
    hide Pow2, TopBytes;
    TopBytesRange(x, n);
    Pow2Bytes();
    if n == 0 { assert TopBytes(0, 0) == 0 by { TopOfZero(); } }
  }

  lemma TopOfZero()
    ensures TopBytes(0, 0) == 0
  {
    hide Pow2;
    assert 0 * Pow2(24) == 0;
  }

  /** The compact form of a number. */
  ghost function CompactOf(x: nat, negative: bool): nat { Pack(x, SizeOf(x), negative) }

  /** Every 256-bit number comes back from its compact form within one part in 2^15, and then stays the same. */
  lemma CompactRoundTrip(x: nat, negative: bool)
    requires x < Pow2(256)
    ensures
      var c := CompactOf(x, negative);
      var e := Unpack(c);
      && c < UINT32 && !e.overflow && e.negative == (negative && x != 0)
      && Close(x, e.value) && CompactOf(e.value, negative) == c
  {
    hide Pow2, Pack, Unpack, IsSize, Close, SizeOf;
    var n := SizeOf(x);
    SizeOfIs(x);
    SizeWithin(x, n);
    SizedRoundTrip(x, n, negative);
    var d := Unpack(CompactOf(x, negative)).value;
    SizeOfIs(d);
    SizeUnique(d, n, SizeOf(d));
  }

  lemma SizedRoundTrip(x: nat, n: nat, negative: bool)
    requires n <= 32 && IsSize(x, n)
    ensures
      var c := Pack(x, n, negative);
      var e := Unpack(c);
      && c < UINT32 && !e.overflow && e.negative == (negative && x != 0)
      && Close(x, e.value) && IsSize(e.value, n) && Pack(e.value, n, negative) == c
  {
    hide Pow2, Quotient, Remainder, Join, Encoded, Expand, IsSize, Close;
    var (size, mantissa) := Encoded(x, n);
    EncodedFields(x, n);
    RoundTrip(x, n);
    var sign := negative && mantissa != 0;
    FieldsOfJoin(size, sign, mantissa);
    NoOverflow(x, n, sign);
  }

  lemma NoOverflow(x: nat, n: nat, sign: bool)
    requires n <= 32 && IsSize(x, n)
    ensures
      var (size, mantissa) := Encoded(x, n);
      var e := Expand(size, sign, mantissa);
      && !e.overflow && e.negative == (sign && x != 0)
      && e.value == Expand(size, false, mantissa).value
  {
    hide Pow2, Quotient, Remainder, TopBytes;
    var (size, mantissa) := Encoded(x, n);
    RoundTrip(x, n);
    EncodedFields(x, n);
    OverflowExact(size, sign, mantissa);
    FitsWidth(x, n);
    var d := Expand(size, false, mantissa).value;
    CloseMeans(x, d);
    if size > 3 {
      WithinWidth(x, n, size, mantissa);
    } else if x > 0 {
      SizePositive(d, n, x);
    }
  }

  lemma SizePositive(d: nat, n: nat, x: nat)
    requires IsSize(d, n) && IsSize(x, n) && x > 0
    ensures d > 0
  {
  }

  lemma WithinWidth(x: nat, n: nat, size: nat, mantissa: nat)
    requires n <= 32 && IsSize(x, n) && Encoded(x, n) == (size, mantissa) && size > 3
    ensures mantissa * Pow2(8 * (size - 3)) < Pow2(256)
  {
    hide Pow2, Quotient, Remainder;
    FitsWidth(x, n);
    var p := Pow2(8 * (n - 3));
    if n > 3 {
      QuotientRemainder(x, p);
      if size == n + 1 {
        Pow2Bytes();
        Pow2Add(8, 8 * (n - 3));
        Shortened(x, p, Quotient(x, p), mantissa);
      }
    } else {
      Pow2Bytes();
      Pow2Mono(24, 256);
    }
  }

  // ---------------------------------------------------------------- the methods of arith_uint256

  method SetCompact(x: Uint, nCompact: nat) returns (negative: bool, overflow: bool)
    requires x.Valid() && x.pn.Length == 8 && nCompact < UINT32
    modifies x.pn
    ensures x.Valid() && Unpack(nCompact) == Expanded(x.Val(), negative, overflow)
  {
    hide Pow2, Quotient, Remainder, Value, Words, Top;
    var nSize, nWord := nCompact / BIT24, nCompact % BIT23;
    x.ValBound();
    if nSize <= 3 {
      SmallWord(nWord, 8 * (3 - nSize));
      nWord := Quotient(nWord, Pow2(8 * (3 - nSize)));
      x.Set(nWord);
    } else {
      x.Set(nWord);
      x.ShiftLeftAssign(8 * (nSize - 3));
    }
    negative := nWord != 0 && (nCompact / BIT23) % 2 == 1;
    overflow := nWord != 0 && (nSize > 34 || (nWord > 0xff && nSize > 33) || (nWord > 0xffff && nSize > 32));
  }

  lemma SmallWord(w: nat, e: nat)
    ensures Quotient(w, Pow2(e)) <= w
  {
    hide Pow2, Quotient, Remainder;
    QuotientRemainder(w, Pow2(e));
    MulMono(1, Pow2(e), Quotient(w, Pow2(e)));
  }

  method GetCompact(x: Uint, fNegative: bool) returns (nCompact: nat)
    requires x.Valid() && x.pn.Length == 8
    ensures nCompact == CompactOf(x.Val(), fNegative)
  {
    hide Pow2, Quotient, Remainder, Value, Words, Top, IsLength, IsSize, BitOr, SizeOf;
    ghost var v := x.Val();
    x.ValBound();
    var length := x.BitLength();
    SizeOfLength(v, length);
    var nSize := (length + 7) / 8;
    SizeOfIs(v);
    SizeUnique(v, nSize, SizeOf(v));
    SizeWithin(v, nSize);
    TopBytesRange(v, nSize);
    ghost var top := TopBytes(v, nSize);
    if nSize <= 3 {
      LowIsAll(v, nSize);
      var low := x.GetLow64();
      nCompact := low * Pow2(8 * (3 - nSize));
    } else {
      var bn := new Uint.Copy(x);
      bn.ShiftRightAssign(8 * (nSize - 3));
      DivideBack(0, top, UINT64);
      nCompact := bn.GetLow64();
    }
    assert nCompact == top;
    if nCompact >= BIT23 {
      nCompact := nCompact / 256;
      nSize := nSize + 1;
    }
    assert nCompact < BIT23 && nSize < 256;
    FieldsOr(nSize, nCompact, fNegative);
    var joined := BitOr(nCompact, nSize * BIT24);
    nCompact := BitOr(joined, if fNegative && joined % BIT23 != 0 then BIT23 else 0);
  }

  /** The three fields occupy different bits. */
  lemma FieldsOr(size: nat, mantissa: nat, negative: bool)
    requires mantissa < BIT23
    ensures
      var joined := BitOr(mantissa, size * BIT24);
      && joined == Join(size, false, mantissa)
      && BitOr(joined, if negative && joined % BIT23 != 0 then BIT23 else 0) == Join(size, negative && mantissa != 0, mantissa)
  {
    hide BitOr, Pow2;
    Pow2Bytes();
    OrAdds(size, mantissa, 24);
    OrZero(Join(size, false, mantissa));
    OrBit23(size, mantissa);
  }

  lemma OrBit23(size: nat, mantissa: nat)
    requires mantissa < BIT23
    ensures BitOr(size * BIT24 + mantissa, BIT23) == size * BIT24 + BIT23 + mantissa
  {
    hide BitOr;
    assert Pow2(23) == BIT23 by { Pow2Bytes(); assert Pow2(24) == 2 * Pow2(23); }
    HighBits(size * 2, mantissa, 1, 23);
    assert BitOr(size * 2, 1) == size * 2 + 1 by { OrAdds(size, 1, 1); }
  }

  /** Bits from `s` on are combined separately from those below. */
  lemma {:induction false} HighBits(x: nat, low: nat, y: nat, s: nat)
    requires low < Pow2(s)
    ensures BitOr(x * Pow2(s) + low, y * Pow2(s)) == BitOr(x, y) * Pow2(s) + low
  {
    hide BitOr;
    if s > 0 {
      HighBits(x, low / 2, y, s - 1);
      var p := Pow2(s - 1);
      MulAssoc(x, p, 2);
      MulAssoc(y, p, 2);
      MulAssoc(BitOr(x, y), p, 2);
      MulSwap(2, p);
      BitOrHead(2 * (x * p + low / 2) + low % 2, 2 * (y * p));
    }
  }

  lemma BitOrHead(x: nat, y: nat)
    ensures BitOr(x, y) == 2 * BitOr(x / 2, y / 2) + if x % 2 == 1 || y % 2 == 1 then 1 else 0
  {
    if x + y == 0 { assert BitOr(0, 0) == 0; }
  }

  lemma SizeWithin(v: nat, n: nat)
    requires IsSize(v, n) && v < Pow2(256)
    ensures n <= 32
  {
    hide Pow2;
    if n > 32 { Pow2Mono(256, 8 * (n - 1)); }
  }

  lemma LowIsAll(v: nat, n: nat)
    requires n <= 3 && IsSize(v, n)
    ensures Remainder(v, UINT64) == v
  {
    hide Pow2, Remainder, Quotient;
    Pow2Bytes();
    DivideBack(0, v, UINT64);
  }
}
