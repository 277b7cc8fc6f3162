/**
 Base58 text: conversion between bytes and digits by repeated multiply-and-add in a buffer whose size is estimated
 beforehand. The buffers always suffice, decoding undoes encoding, and encoding undoes decoding.
 */
module Base58 {
  import opened Collections
  import opened Integers

  type Byte = b: nat | b < 256

  /** The 58 letters in order: 1 to 9, then A to Z without I and O, then a to z without l. */
  function Letter(d: nat): char
    requires d < 58
  {
    if d < 9 then '1' + d as char
    else if d < 17 then 'A' + (d - 9) as char
    else if d < 22 then 'J' + (d - 17) as char
    else if d < 33 then 'P' + (d - 22) as char
    else if d < 44 then 'a' + (d - 33) as char
    else 'm' + (d - 44) as char
  }

  // ---------------------------------------------------------------- positional notation

  ghost predicate AllBelow(s: seq<nat>, base: nat) {
    forall i :: 0 <= i < |s| ==> s[i] < base
  }

  /** The number a sequence of digits stands for, the most significant digit first. */
  ghost function Val(s: seq<nat>, base: nat): nat {
    if s == [] then 0 else Val(s[..|s| - 1], base) * base + s[|s| - 1]
  }

  /** The digits of a number, without leading zeroes. */
  ghost function Digits(n: nat, base: nat): (s: seq<nat>)
    requires base > 1
    ensures AllBelow(s, base)
  {
    if n == 0 then [] else
      QuotientSmaller(n, base);
      Digits(Quotient(n, base), base) + [Remainder(n, base)]
  }

  ghost predicate NoLeadingZero(s: seq<nat>) {
    s == [] || s[0] != 0
  }

  lemma {:induction false} DigitsValue(n: nat, base: nat)
    requires base > 1
    ensures Val(Digits(n, base), base) == n && NoLeadingZero(Digits(n, base))
  {
    hide Quotient, Remainder;
    if n > 0 {
      QuotientSmaller(n, base);
      QuotientRemainder(n, base);
      DigitsValue(Quotient(n, base), base);
      assert Digits(n, base)[..|Digits(n, base)| - 1] == Digits(Quotient(n, base), base);
    }
  }

  lemma {:induction false} ValueDigits(s: seq<nat>, base: nat)
    requires base > 1 && AllBelow(s, base) && NoLeadingZero(s)
    ensures Digits(Val(s, base), base) == s && (s != [] ==> Val(s, base) > 0)
  {
    hide Quotient, Remainder;
    if s != [] {
      var high, low := s[..|s| - 1], s[|s| - 1];
      ValueDigits(high, base);
      DivideBack(Val(high, base), low, base);
      assert s == high + [low];
      if high != [] { PositiveProduct(Val(high, base), base); }
    }
  }

  /** A new most significant digit. */
  lemma {:induction false} ValPrepend(d: nat, s: seq<nat>, base: nat)
    ensures Val([d] + s, base) == d * Pow(base, |s|) + Val(s, base)
    decreases |s|
  {
    if s == [] {
      assert [d] + s == [d];
      assert [d][..0] == [];
      assert Val([d], base) == Val([], base) * base + d;
      assert Pow(base, 0) == 1;
    } else {
      var init := s[..|s| - 1];
      assert ([d] + s)[..|s|] == [d] + init;
      ValPrepend(d, init, base);
      assert (d * Pow(base, |s| - 1)) * base == d * (base * Pow(base, |s| - 1));
      assert (d * Pow(base, |init|) + Val(init, base)) * base == (d * Pow(base, |init|)) * base + Val(init, base) * base;
    }
  }

  lemma {:induction false} ValBound(s: seq<nat>, base: nat)
    requires AllBelow(s, base)
    ensures Val(s, base) < Pow(base, |s|)
  {
    if s != [] {
      ValBound(s[..|s| - 1], base);
      var v, p := Val(s[..|s| - 1], base), Pow(base, |s| - 1);
      MulMono(v + 1, p, base);
      assert (v + 1) * base == v * base + base;
    }
  }

  /** Leading zeroes do not count. */
  lemma {:induction false} ValZeroes(s: seq<nat>, n: nat, base: nat)
    requires n <= |s| && forall i :: 0 <= i < n ==> s[i] == 0
    ensures Val(s, base) == Val(s[n..], base)
    decreases n
  {
    if n == 0 {
      assert s[0..] == s;
    } else {
      ValZeroes(s, n - 1, base);
      assert s[n - 1..] == [0] + s[n..];
      ValPrepend(0, s[n..], base);
    }
  }

  // ---------------------------------------------------------------- the buffers suffice

  /** As many characters as `size` buffers base 256 digits for. */
  function DecodeSize(length: nat): nat { length * 733 / 1000 + 1 }

  function EncodeSize(length: nat): nat { length * 138 / 100 + 1 }

  /** Powers below the fifteenth, one character at a time. */
  lemma PowersOf58()
    ensures Pow(58, 0) == 1
    ensures Pow(58, 1) == 58
    ensures Pow(58, 2) == 3364
    ensures Pow(58, 3) == 195112
    ensures Pow(58, 4) == 11316496
    ensures Pow(58, 5) == 656356768
    ensures Pow(58, 6) == 38068692544
    ensures Pow(58, 7) == 2207984167552
    ensures Pow(58, 8) == 128063081718016
    ensures Pow(58, 9) == 7427658739644928
    ensures Pow(58, 10) == 430804206899405824
    ensures Pow(58, 11) == 24986644000165537792
    ensures Pow(58, 12) == 1449225352009601191936
    ensures Pow(58, 13) == 84055070416556869132288
    ensures Pow(58, 14) == 4875194084160298409672704
    ensures Pow(58, 15) == 282761256881297307761016832
  {
    assert Pow(58, 0) == 1;
    assert Pow(58, 1) == 58;
    assert Pow(58, 2) == 3364;
    assert Pow(58, 3) == 195112;
    assert Pow(58, 4) == 11316496;
    assert Pow(58, 5) == 656356768;
    assert Pow(58, 6) == 38068692544;
    assert Pow(58, 7) == 2207984167552;
    assert Pow(58, 8) == 128063081718016;
    assert Pow(58, 9) == 7427658739644928;
    assert Pow(58, 10) == 430804206899405824;
    assert Pow(58, 11) == 24986644000165537792;
    assert Pow(58, 12) == 1449225352009601191936;
    assert Pow(58, 13) == 84055070416556869132288;
    assert Pow(58, 14) == 4875194084160298409672704;
    assert Pow(58, 15) == 282761256881297307761016832;
  }

  lemma PowersOf256()
    ensures Pow(256, 0) == 1
    ensures Pow(256, 1) == 256
    ensures Pow(256, 2) == 65536
    ensures Pow(256, 3) == 16777216
    ensures Pow(256, 4) == 4294967296
    ensures Pow(256, 5) == 1099511627776
    ensures Pow(256, 6) == 281474976710656
    ensures Pow(256, 7) == 72057594037927936
    ensures Pow(256, 8) == 18446744073709551616
    ensures Pow(256, 9) == 4722366482869645213696
    ensures Pow(256, 10) == 1208925819614629174706176
    ensures Pow(256, 11) == 309485009821345068724781056
  {
    assert Pow(256, 0) == 1;
    assert Pow(256, 1) == 256;
    assert Pow(256, 2) == 65536;
    assert Pow(256, 3) == 16777216;
    assert Pow(256, 4) == 4294967296;
    assert Pow(256, 5) == 1099511627776;
    assert Pow(256, 6) == 281474976710656;
    assert Pow(256, 7) == 72057594037927936;
    assert Pow(256, 8) == 18446744073709551616;
    assert Pow(256, 9) == 4722366482869645213696;
    assert Pow(256, 10) == 1208925819614629174706176;
    assert Pow(256, 11) == 309485009821345068724781056;
  }

  lemma Pow58Of71()
    ensures Pow(58, 71) <= Pow(256, 52)
  {
    PowersOf58();
    PowersOf256();
    PowAdd(58, 14, 14);
    assert Pow(58, 28) == 23767517358231570773047645414309870043308402671616;
    PowAdd(58, 28, 28);
    assert Pow(58, 56) == 564894881373839024900084406914207759789958898310195407558274037552011652085373041806835886332051456;
    PowAdd(58, 15, 56);
    assert Pow(58, 71) == 159730386663078066345306447337161584696769904898410078913243029577507397293846405390982563136983769384625594118558891106107392;
    PowAdd(256, 11, 11);
    assert Pow(256, 22) == 95780971304118053647396689196894323976171195136475136;
    PowAdd(256, 22, 22);
    assert Pow(256, 44) == 9173994463960286046443283581208347763186259956673124494950355357547691504353939232280074212440502746218496;
    PowAdd(256, 8, 44);
    assert Pow(256, 52) == 169230328010303641331690318856389386196071598838855992136870091590247882556495704531248437872567112920983350278405979725889536;
  }

  /** Up to 70 characters: by fifteens, which fit in eleven bytes, and the few left over. */
  lemma {:induction false} ByFifteens(p: nat, t: nat)
    requires t < 15
    ensures Pow(58, 15 * p + t) <= Pow(256, 11 * p + if t == 0 then 0 else DecodeSize(t))
    decreases p
  {
    hide Pow;
    if p == 0 {
      PowersOf58();
      PowersOf256();
      assert (if t == 0 then 0 else DecodeSize(t)) == [0, 1, 2, 3, 3, 4, 5, 6, 6, 7, 8, 9, 9, 10, 11][t];
    } else {
      ByFifteens(p - 1, t);
      var e := 11 * (p - 1) + if t == 0 then 0 else DecodeSize(t);
      assert Pow(58, 15) <= Pow(256, 11) by { PowersOf58(); PowersOf256(); }
      PowAdd(58, 15, 15 * (p - 1) + t);
      PowAdd(256, 11, e);
      MulBoth(Pow(58, 15), Pow(256, 11), Pow(58, 15 * (p - 1) + t), Pow(256, e));
    }
  }

  /** What eleven bytes for fifteen characters give away is less than any remainder leaves over. */
  lemma LeftOver(t: nat)
    requires 0 < t < 15
    ensures 733 * t >= 1000 * (t * 733 / 1000) + 63
  {
  }

  lemma DecodeSizeSmall(p: nat, t: nat)
    requires p <= 4 && t < 15
    ensures 11 * p + (if t == 0 then 0 else DecodeSize(t)) <= DecodeSize(15 * p + t)
  {
    if t > 0 { LeftOver(t); }
  }

  lemma DecodeSizeStep(n: nat)
    requires n > 70
    ensures 52 + DecodeSize(n - 71) <= DecodeSize(n)
  {
  }

  /** 733/1000 lies above log 58 / log 256: every 71 characters fit in 52 bytes, and the estimate adds at least 52. */
  lemma {:induction false} DecodeSizeSuffices(n: nat)
    ensures Pow(58, n) <= Pow(256, DecodeSize(n))
  {
    hide Pow, DecodeSize;
    if n <= 70 {
      var p, t := n / 15, n % 15;
      ByFifteens(p, t);
      DecodeSizeSmall(p, t);
      PowMono(256, 11 * p + if t == 0 then 0 else DecodeSize(t), DecodeSize(n));
    } else {
      DecodeSizeStep(n);
      DecodeSizeSuffices(n - 71);
      Pow58Of71();
      PowAdd(58, 71, n - 71);
      PowAdd(256, 52, DecodeSize(n - 71));
      MulBoth(Pow(58, 71), Pow(256, 52), Pow(58, n - 71), Pow(256, DecodeSize(n - 71)));
      PowMono(256, 52 + DecodeSize(n - 71), DecodeSize(n));
    }
  }

  /** 138/100 lies above log 256 / log 58: every 8 bytes fit in 11 characters, and the estimate adds at least 11. */
  lemma {:induction false} EncodeSizeSuffices(n: nat)
    ensures Pow(256, n) <= Pow(58, EncodeSize(n))
  {
    hide Pow;
    PowersOf58();
    PowersOf256();
    if n <= 7 {
      assert EncodeSize(n) == [1, 2, 3, 5, 6, 7, 9, 10][n];
    } else {
      EncodeSizeSuffices(n - 8);
      PowAdd(256, 8, n - 8);
      PowAdd(58, 11, EncodeSize(n - 8));
      MulBoth(Pow(256, 8), Pow(58, 11), Pow(256, n - 8), Pow(58, EncodeSize(n - 8)));
      PowMono(58, 11 + EncodeSize(n - 8), EncodeSize(n));
    }
  }

  // ---------------------------------------------------------------- multiply and add in place

  /** The digits done so far, with what is still carried, hold the product so far. */
  ghost predicate Balanced(low: nat, carry: nat, p: nat, mul: nat, high: nat, c: nat) {
    low + carry * p == mul * high + c
  }

  /** One digit: what goes back into the buffer and what is carried on. */
  lemma CarryStep(carry: nat, mul: nat, digit: nat, base: nat, p: nat, low: nat, high: nat, c: nat)
    requires base > 0 && Balanced(low, carry, p, mul, high, c)
    ensures
      var x := carry + mul * digit;
      Balanced(Remainder(x, base) * p + low, Quotient(x, base), base * p, mul, digit * p + high, c)
  {
    hide Quotient, Remainder;
    var x := carry + mul * digit;
    QuotientRemainder(x, base);
    var q, r := Quotient(x, base), Remainder(x, base);
    calc {
      r * p + low + q * (base * p);
      { MulAssoc(q, base, p); }
      r * p + (q * base) * p + low;
      { Distribute(r, q * base, p); }
      x * p + low;
      { Distribute(carry, mul * digit, p); MulAssoc(mul, digit, p); }
      carry * p + mul * (digit * p) + low;
      { Distribute(digit * p, high, mul); }
      mul * (digit * p + high) + c;
    }
  }

  /** The same over the digits themselves: the one at the front of `was` is replaced. */
  lemma DigitStep(carry: nat, mul: nat, base: nat, low: seq<nat>, was: seq<nat>, c: nat)
    requires base > 0 && |was| == |low| + 1
    requires Balanced(Val(low, base), carry, Pow(base, |low|), mul, Val(was[1..], base), c)
    ensures
      var x := carry + mul * was[0];
      Balanced(Val([Remainder(x, base)] + low, base), Quotient(x, base), Pow(base, |low| + 1), mul, Val(was, base), c)
  {
    hide Quotient, Remainder, Balanced, Val;
    var x := carry + mul * was[0];
    CarryStep(carry, mul, was[0], base, Pow(base, |low|), Val(low, base), Val(was[1..], base), c);
    ValPrepend(was[0], was[1..], base);
    assert was == [was[0]] + was[1..];
    ValPrepend(Remainder(x, base), low, base);
  }

  /** With room for the result nothing is left to carry. */
  lemma NoCarry(low: nat, carry: nat, p: nat, mul: nat, high: nat, c: nat)
    requires Balanced(low, carry, p, mul, high, c) && (carry == 0 || high * mul + c < p)
    ensures carry == 0 && low == high * mul + c
  {
    if carry > 0 { MulMono(1, carry, p); }
  }

  lemma BalancedStart(mul: nat, c: nat, base: nat)
    ensures Balanced(Val([], base), c, Pow(base, 0), mul, Val([], base), c)
  {
  }

  /** Applies "b = b * mul + c" to the big-endian digits in `b`; only the last `length` of them may be non-zero. */
  method MultiplyAdd(b: array<nat>, base: nat, mul: nat, c: nat, length: nat) returns (newLength: nat)
    requires base > 1 && AllBelow(b[..], base) && length <= b.Length
    requires forall k :: 0 <= k < b.Length - length ==> b[k] == 0
    requires Val(b[..], base) * mul + c < Pow(base, b.Length)
    modifies b
    ensures AllBelow(b[..], base) && newLength <= b.Length
    ensures forall k :: 0 <= k < b.Length - newLength ==> b[k] == 0
    ensures Val(b[..], base) == old(Val(b[..], base)) * mul + c
  {
    hide Val, Pow, Quotient, Remainder, Balanced;
    var carry: nat, i: nat := c, 0;
    ghost var was := b[..];
    var size := b.Length;
    BalancedStart(mul, c, base);
    assert was[size..] == [] && b[size..] == [];
    while (carry != 0 || i < length) && i < size
      invariant 0 <= i <= size && |was| == size && AllBelow(b[..], base)
      invariant forall k :: 0 <= k < size - i ==> b[k] == was[k]
      invariant Balanced(Val(b[size - i..], base), carry, Pow(base, i), mul, Val(was[size - i..], base), c)
      decreases size - i
    {
      var at := size - 1 - i;
      ghost var low := b[at + 1..];
      assert was[at..][1..] == was[at + 1..];
      DigitStep(carry, mul, base, low, was[at..], c);
      carry := carry + mul * b[at];
      b[at], carry := Remainder(carry, base), Quotient(carry, base);
      assert b[at..] == [b[at]] + low;
      i := i + 1;
    }
    assert b[0..] == b[..] && was[0..] == was;
    if i < size {
      ValZeroes(b[..], size - i, base);
      ValZeroes(was, size - i, base);
      assert b[..][size - i..] == b[size - i..];
    }
    NoCarry(Val(b[..], base), carry, Pow(base, i), mul, Val(was, base), c);
    assert carry == 0;
    newLength := i;
  }

  // ---------------------------------------------------------------- characters

  predicate IsSpace(c: char) { c == ' ' || '\t' <= c <= '\r' }
  predicate NotSpace(c: char) { !IsSpace(c) }
  predicate IsOne(c: char) { c == '1' }

  datatype Kind = Spaces | NonSpaces | Ones

  predicate Of(kind: Kind, c: char) {
    match kind
    case Spaces => IsSpace(c)
    case NonSpaces => NotSpace(c)
    case Ones => IsOne(c)
  }

  /** How many characters at the front are of a kind. */
  ghost function Leading(s: string, kind: Kind): (n: nat)
    ensures n <= |s| && (forall i :: 0 <= i < n ==> Of(kind, s[i])) && (n < |s| ==> !Of(kind, s[n]))
  {
    if s == [] || !Of(kind, s[0]) then 0 else 1 + Leading(s[1..], kind)
  }

  lemma LeadingIs(s: string, kind: Kind, n: nat)
    requires n <= |s| && (forall i :: 0 <= i < n ==> Of(kind, s[i])) && (n < |s| ==> !Of(kind, s[n]))
    ensures Leading(s, kind) == n
  {
    hide Of;
  }

  ghost function Zeroes(v: seq<Byte>): (n: nat)
    ensures n <= |v| && (forall i :: 0 <= i < n ==> v[i] == 0) && (n < |v| ==> v[n] != 0)
  {
    if v == [] || v[0] != 0 then 0 else 1 + Zeroes(v[1..])
  }

  lemma ZeroesIs(v: seq<Byte>, n: nat)
    requires n <= |v| && (forall i :: 0 <= i < n ==> v[i] == 0) && (n < |v| ==> v[n] != 0)
    ensures Zeroes(v) == n
  {
  }

  /** The alphabet ascends, so no letter occurs twice. */
  lemma LettersDistinct(d: nat, e: nat)
    requires d < 58 && e < 58
    ensures Letter(d) == Letter(e) ==> d == e
    ensures NotSpace(Letter(d)) && (Letter(d) == '1' <==> d == 0)
  {
    assert (Letter(d) as int) - (Letter(e) as int) == 0 ==> d == e;
  }

  /** The place of a character in the alphabet from `from` on; 58 if it has none. */
  function Place(c: char, from: nat): (d: nat)
    requires from <= 58
    ensures from <= d <= 58 && (d < 58 ==> Letter(d) == c)
    ensures forall i :: from <= i < d ==> Letter(i) != c
    decreases 58 - from
  {
    if from == 58 || Letter(from) == c then from else Place(c, from + 1)
  }

  lemma PlaceOf(d: nat)
    requires d < 58
    ensures Place(Letter(d), 0) == d
  {
    var e := Place(Letter(d), 0);
    if e < 58 { LettersDistinct(d, e); }
  }

  // ---------------------------------------------------------------- what the two directions compute

  ghost function Places(s: string): (r: seq<nat>)
    ensures |r| == |s| && forall i :: 0 <= i < |s| ==> r[i] == Place(s[i], 0)
  {
    seq(|s|, i requires 0 <= i < |s| => Place(s[i], 0))
  }

  ghost function Letters(digits: seq<nat>): (r: string)
    requires AllBelow(digits, 58)
    ensures |r| == |digits| && forall i :: 0 <= i < |r| ==> r[i] == Letter(digits[i])
  {
    seq(|digits|, i requires 0 <= i < |digits| => Letter(digits[i]))
  }

  ghost function Repeat<T>(n: nat, x: T): (r: seq<T>)
    ensures |r| == n && forall i :: 0 <= i < n ==> r[i] == x
  {
    seq(n, _ => x)
  }

  ghost function Bytes(digits: seq<nat>): (r: seq<Byte>)
    requires AllBelow(digits, 256)
    ensures |r| == |digits| && forall i :: 0 <= i < |r| ==> r[i] == digits[i]
  {
    seq(|digits|, i requires 0 <= i < |digits| => digits[i])
  }

  /** A '1' for every leading zero byte, then the remaining number in base 58. */
  ghost function Encode(v: seq<Byte>): string {
    var z := Zeroes(v);
    Repeat(z, '1') + Letters(Digits(Val(v[z..], 256), 58))
  }

  /** The text between surrounding spaces, up to the first space inside it. */
  ghost function Word(s: string): string {
    var t := s[Leading(s, Spaces)..];
    t[..Leading(t, NonSpaces)]
  }

  ghost predicate AllLetters(w: string) {
    forall i :: 0 <= i < |w| ==> Place(w[i], 0) < 58
  }

  ghost predicate AllSpaces(t: string) {
    forall i :: 0 <= i < |t| ==> IsSpace(t[i])
  }

  /** Whether a text is letters of the alphabet surrounded by spaces. */
  ghost predicate WellFormed(s: string) {
    var start := Leading(s, Spaces);
    start + |Word(s)| <= |s| && AllLetters(Word(s)) && AllSpaces(s[start + |Word(s)|..])
  }

  ghost function DecodeWord(w: string): seq<Byte> {
    var z := Leading(w, Ones);
    Repeat(z, 0) + Bytes(Digits(Val(Places(w[z..]), 58), 256))
  }

  ghost function Decode(s: string): Option<seq<Byte>> {
    if WellFormed(s) then Some(DecodeWord(Word(s))) else None
  }

  // ---------------------------------------------------------------- round trips

  lemma LetterPlaces(digits: seq<nat>)
    requires AllBelow(digits, 58)
    ensures Places(Letters(digits)) == digits
  {
    forall i | 0 <= i < |digits| ensures Place(Letter(digits[i]), 0) == digits[i] { PlaceOf(digits[i]); }
  }

  lemma PlaceLetters(w: string)
    requires AllLetters(w)
    ensures AllBelow(Places(w), 58) && Letters(Places(w)) == w
  {
  }

  /** Encoded text is one word of letters, with as many leading ones as there were zero bytes. */
  lemma EncodedShape(z: nat, digits: seq<nat>)
    requires AllBelow(digits, 58) && NoLeadingZero(digits)
    ensures
      var e := Repeat(z, '1') + Letters(digits);
      WellFormed(e) && Word(e) == e && Leading(e, Ones) == z && e[z..] == Letters(digits)
  {
    hide Leading, Repeat, Letters, Letter, Place, IsSpace;
    var e := Repeat(z, '1') + Letters(digits);
    forall i | 0 <= i < |e| ensures NotSpace(e[i]) && Place(e[i], 0) < 58 { EncodedCharacter(z, digits, i); }
    if digits != [] { LettersDistinct(digits[0], 0); }
    LeadingIs(e, Spaces, 0);
    LeadingIs(e, NonSpaces, |e|);
    LeadingIs(e, Ones, z);
    assert e[0..] == e;
  }

  lemma EncodedCharacter(z: nat, digits: seq<nat>, i: nat)
    requires AllBelow(digits, 58) && i < z + |digits|
    ensures var e := Repeat(z, '1') + Letters(digits); NotSpace(e[i]) && Place(e[i], 0) < 58
  {
    var d := if i < z then 0 else digits[i - z];
    LettersDistinct(d, 0);
    PlaceOf(d);
  }

  lemma BytesBelow(v: seq<Byte>)
    ensures AllBelow(v, 256) && Bytes(v) == v
  {
  }

  lemma BytesShape(v: seq<Byte>)
    ensures var z := Zeroes(v); NoLeadingZero(v[z..]) && v == Repeat(z, 0) + v[z..]
  {
    var z := Zeroes(v);
  }

  lemma DecodedShape(z: nat, digits: seq<nat>)
    requires AllBelow(digits, 256) && NoLeadingZero(digits)
    ensures var v := Repeat(z, 0) + Bytes(digits); Zeroes(v) == z && v[z..] == digits
  {
    ZeroesIs(Repeat(z, 0) + Bytes(digits), z);
  }

  lemma SplitAt<T>(w: seq<T>, z: nat, x: T)
    requires z <= |w| && forall i :: 0 <= i < z ==> w[i] == x
    ensures w == Repeat(z, x) + w[z..]
  {
  }

  lemma OnesAre(w: string)
    ensures forall i :: 0 <= i < Leading(w, Ones) ==> w[i] == '1'
    ensures Leading(w, Ones) < |w| ==> w[Leading(w, Ones)] != '1'
  {
    hide Leading, IsSpace, NotSpace;
    forall i | 0 <= i < Leading(w, Ones) ensures w[i] == '1' { assert Of(Ones, w[i]); }
  }

  lemma WordShape(w: string)
    requires AllLetters(w)
    ensures
      var z := Leading(w, Ones);
      var digits := Places(w[z..]);
      AllBelow(digits, 58) && NoLeadingZero(digits) && w == Repeat(z, '1') + Letters(digits)
  {
    hide Place, Letter, Leading, Repeat;
    OnesAre(w);
    var z := Leading(w, Ones);
    SplitAt(w, z, '1');
    PlaceLetters(w[z..]);
    if z < |w| { LettersDistinct(Place(w[z], 0), 0); }
  }

  lemma DecodeEncode(v: seq<Byte>)
    ensures Decode(Encode(v)) == Some(v)
  {
    hide Val, Digits, Place, Letter, WellFormed, Word, Places, Letters, Bytes, Leading, Repeat, AllBelow, NoLeadingZero;
    var z := Zeroes(v);
    var digits := Digits(Val(v[z..], 256), 58);
    DigitsValue(Val(v[z..], 256), 58);
    EncodedShape(z, digits);
    LetterPlaces(digits);
    BytesBelow(v[z..]);
    BytesShape(v);
    ValueDigits(v[z..], 256);
  }

  lemma WordOfUnspaced(s: string)
    requires forall i :: 0 <= i < |s| ==> NotSpace(s[i])
    ensures Word(s) == s
  {
    LeadingIs(s, Spaces, 0);
    LeadingIs(s, NonSpaces, |s|);
    assert s[0..] == s;
  }

  /** Encoding what was decoded gives the word back; so a text without spaces comes back itself. */
  lemma EncodeDecode(s: string)
    requires Decode(s).Some?
    ensures Encode(Decode(s).value) == Word(s)
    ensures (forall i :: 0 <= i < |s| ==> NotSpace(s[i])) ==> Word(s) == s
  {
    hide Val, Digits, Place, Letter, Word, Places, Letters, Bytes, Leading, Repeat, AllBelow, NoLeadingZero;
    var w := Word(s);
    var z := Leading(w, Ones);
    WordShape(w);
    var digits := Places(w[z..]);
    ValueDigits(digits, 58);
    DigitsValue(Val(digits, 58), 256);
    DecodedShape(z, Digits(Val(digits, 58), 256));
    if forall i :: 0 <= i < |s| ==> NotSpace(s[i]) { WordOfUnspaced(s); }
  }

  // ---------------------------------------------------------------- the two methods

  /** The digits in a buffer from the first non-zero one on are those of its value. */
  lemma BufferDigits(b: seq<nat>, at: nat, base: nat)
    requires base > 1 && AllBelow(b, base) && at <= |b|
    requires (forall k :: 0 <= k < at ==> b[k] == 0) && (at < |b| ==> b[at] != 0)
    ensures b[at..] == Digits(Val(b, base), base)
  {
    hide Digits, Val;
    ValZeroes(b, at, base);
    ValueDigits(b[at..], base);
  }

  lemma ZeroBuffer(b: seq<nat>, base: nat)
    requires forall k :: 0 <= k < |b| ==> b[k] == 0
    ensures Val(b, base) == 0
  {
    ValZeroes(b, |b|, base);
  }

  /** A buffer holds the value of the digits read so far, in its last `length` places. */
  ghost predicate Holds(b: seq<nat>, length: nat, to: nat, digits: seq<nat>, from: nat) {
    && length <= |b| && AllBelow(b, to) && AllBelow(digits, from)
    && (forall k :: 0 <= k < |b| - length ==> b[k] == 0)
    && Val(b, to) == Val(digits, from)
  }

  lemma HoldsNothing(b: seq<nat>, to: nat, from: nat)
    requires to > 1 && forall k :: 0 <= k < |b| ==> b[k] == 0
    ensures Holds(b, 0, to, [], from)
  {
    ZeroBuffer(b, to);
  }

  /** The value of what was read, with one digit more, always fits into a buffer of the estimated size. */
  lemma NextFits(digits: seq<nat>, d: nat, from: nat, n: nat, to: nat, size: nat)
    requires AllBelow(digits, from) && d < from && |digits| < n && Pow(from, n) <= Pow(to, size)
    ensures Val(digits + [d], from) == Val(digits, from) * from + d < Pow(to, size)
  {
    hide Val, Pow;
    ValLonger(digits, d, from);
    ValBound(digits + [d], from);
    PowMono(from, |digits| + 1, n);
  }

  lemma ValLonger(digits: seq<nat>, d: nat, base: nat)
    ensures Val(digits + [d], base) == Val(digits, base) * base + d
  {
    assert (digits + [d])[..|digits|] == digits;
  }

  /** Reads one more digit into the buffer; the carry ends at zero whatever follows. */
  method ReadDigit(b: array<nat>, length: nat, to: nat, ghost digits: seq<nat>, from: nat, d: nat, ghost n: nat) returns (newLength: nat)
    requires to > 1 && d < from && |digits| < n && Pow(from, n) <= Pow(to, b.Length) && Holds(b[..], length, to, digits, from)
    modifies b
    ensures Holds(b[..], newLength, to, digits + [d], from)
  {
    hide Val, Pow;
    NextFits(digits, d, from, n, to, b.Length);
    newLength := MultiplyAdd(b, to, from, d, length);
  }

  /** What the buffer holds, without leading zeroes. */
  method Significant(b: array<nat>, length: nat, to: nat, ghost digits: seq<nat>, ghost from: nat) returns (result: seq<nat>)
    requires to > 1 && Holds(b[..], length, to, digits, from)
    ensures AllBelow(result, to) && result == Digits(Val(digits, from), to)
  {
    hide Val, Digits;
    var at := b.Length - length;
    while at != b.Length && b[at] == 0
      invariant 0 <= at <= b.Length && forall k :: 0 <= k < at ==> b[k] == 0
    {
      at := at + 1;
    }
    BufferDigits(b[..], at, to);
    result := b[at..];
    assert b[..][at..] == result;
  }

  method EncodeBase58(v: seq<Byte>) returns (str: string)
    ensures str == Encode(v)
  {
    hide Val, Pow, Digits, EncodeSize, Holds;
    var zeroes := 0;
    str := "";
    while zeroes != |v| && v[zeroes] == 0
      invariant 0 <= zeroes <= |v| && (forall i :: 0 <= i < zeroes ==> v[i] == 0) && str == Repeat(zeroes, '1')
    {
      zeroes := zeroes + 1;
      str := str + ['1'];
    }
    ZeroesIs(v, zeroes);
    EncodeSizeSuffices(|v| - zeroes);
    var buffer := new nat[EncodeSize(|v| - zeroes)](_ => 0);
    var length, pbegin := 0, zeroes;
    ghost var rest: seq<nat> := v[zeroes..];
    HoldsNothing(buffer[..], 58, 256);
    assert rest[..0] == [];
    while pbegin != |v|
      invariant zeroes <= pbegin <= |v| && Holds(buffer[..], length, 58, rest[..pbegin - zeroes], 256)
    {
      assert rest[..pbegin + 1 - zeroes] == rest[..pbegin - zeroes] + [v[pbegin]];
      length := ReadDigit(buffer, length, 58, rest[..pbegin - zeroes], 256, v[pbegin], |v| - zeroes);
      pbegin := pbegin + 1;
    }
    assert rest[..|v| - zeroes] == rest;
    var b58 := Significant(buffer, length, 58, rest, 256);
    var it := 0;
    while it < |b58|
      invariant 0 <= it <= |b58| && str == Repeat(zeroes, '1') + Letters(b58)[..it]
    {
      str := str + [Letter(b58[it])];
      it := it + 1;
    }
  }

  /** Where the word of a text begins and ends. */
  ghost predicate Bounds(s: string, start: nat, end: nat) {
    && start <= end <= |s|
    && (forall i :: 0 <= i < start ==> IsSpace(s[i]))
    && (forall i :: start <= i < end ==> NotSpace(s[i]))
    && (start < |s| ==> NotSpace(s[start]))
    && (end < |s| ==> IsSpace(s[end]))
  }

  lemma WordIs(s: string, start: nat, end: nat)
    requires Bounds(s, start, end)
    ensures Leading(s, Spaces) == start && Word(s) == s[start..end]
  {
    hide Leading, Place, Letter, IsSpace;
    LeadingIs(s, Spaces, start);
    var t := s[start..];
    forall i | 0 <= i < end - start ensures NotSpace(t[i]) { assert NotSpace(s[start + i]); }
    LeadingIs(t, NonSpaces, end - start);
    assert t[..end - start] == s[start..end];
  }

  /** A character outside the alphabet, or something after the trailing spaces, makes a text malformed. */
  lemma Malformed(s: string, start: nat, end: nat, at: nat)
    requires Bounds(s, start, end) && start <= at < |s| && NotSpace(s[at]) && (at < end ==> Place(s[at], 0) == 58)
    ensures Decode(s) == None
  {
    hide Leading, Place, Letter, Word, DecodeWord;
    WordIs(s, start, end);
    if at < end {
      assert s[start..end][at - start] == s[at];
    } else {
      assert s[end..][at - end] == s[at];
    }
  }

  lemma PlacesGrow(s: string, from: nat, at: nat)
    requires from <= at < |s|
    ensures Places(s[from..at + 1]) == Places(s[from..at]) + [Place(s[at], 0)]
  {
    hide Place;
  }

  lemma OnesThenDigits(w: string, z: nat)
    requires z <= |w| && (forall i :: 0 <= i < z ==> IsOne(w[i])) && (z < |w| ==> !IsOne(w[z]))
    requires AllBelow(Places(w[z..]), 58)
    ensures Leading(w, Ones) == z && AllLetters(w)
  {
    hide Leading, Place, Letter;
    LeadingIs(w, Ones, z);
    OnePlace();
    forall i | 0 <= i < |w| ensures Place(w[i], 0) < 58 {
      if i >= z { assert Places(w[z..])[i - z] < 58; }
    }
  }

  lemma OnePlace()
    ensures Place('1', 0) == 0
  {
  }

  lemma Decoded(s: string, start: nat, first: nat, end: nat)
    requires Bounds(s, start, end) && start <= first <= end && AllSpaces(s[end..])
    requires (forall i :: start <= i < first ==> IsOne(s[i])) && (first < |s| ==> !IsOne(s[first]))
    requires AllBelow(Places(s[first..end]), 58)
    ensures Decode(s) == Some(Repeat(first - start, 0) + Bytes(Digits(Val(Places(s[first..end]), 58), 256)))
  {
    hide Val, Digits, Place, Letter, Bytes, Places, Leading, Word, AllBelow, Repeat, AllSpaces, AllLetters;
    WordIs(s, start, end);
    var w, z := s[start..end], first - start;
    assert w[z..] == s[first..end];
    OnesThenDigits(w, z);
  }

  /** Where the non-space characters from a place on end. */
  lemma {:induction false} EndOfWord(s: string, from: nat) returns (end: nat)
    requires from <= |s|
    ensures from <= end <= |s| && (forall i :: from <= i < end ==> NotSpace(s[i])) && (end < |s| ==> IsSpace(s[end]))
    decreases |s| - from
  {
    if from == |s| || IsSpace(s[from]) { return from; }
    end := EndOfWord(s, from + 1);
  }

  method DecodeBase58(s: string) returns (r: Option<seq<Byte>>)
    ensures r == Decode(s)
  {
    hide Val, Pow, Digits, DecodeSize, Decode, Place, Holds;
    var start := 0;
    while start < |s| && IsSpace(s[start])
      invariant 0 <= start <= |s| && forall i :: 0 <= i < start ==> IsSpace(s[i])
    {
      start := start + 1;
    }
    var first := start;
    while first < |s| && s[first] == '1'
      invariant start <= first <= |s| && forall i :: start <= i < first ==> IsOne(s[i])
    {
      first := first + 1;
    }
    var psz, length := first, 0;
    var b256 := new nat[DecodeSize(|s| - first)](_ => 0);
    ghost var digits: seq<nat> := [];
    ghost var end := EndOfWord(s, first);
    DecodeSizeSuffices(|s| - first);
    HoldsNothing(b256[..], 256, 58);
    while psz < |s| && !IsSpace(s[psz])
      invariant first <= psz <= end && digits == Places(s[first..psz]) && |digits| == psz - first
      invariant Holds(b256[..], length, 256, digits, 58)
    {
      var ch := Place(s[psz], 0);
      if ch == 58 {
        Malformed(s, start, end, psz);
        return None;
      }
      PlacesGrow(s, first, psz);
      length := ReadDigit(b256, length, 256, digits, 58, ch, |s| - first);
      digits := digits + [ch];
      psz := psz + 1;
    }
    assert psz == end;
    while psz < |s| && IsSpace(s[psz])
      invariant end <= psz <= |s| && forall i :: end <= i < psz ==> IsSpace(s[i])
    {
      psz := psz + 1;
    }
    if psz != |s| {
      Malformed(s, start, end, psz);
      return None;
    }
    HoldsBelow(b256[..], length, 256, digits, 58);
    Decoded(s, start, first, end);
    var bytes := Significant(b256, length, 256, digits, 58);
    r := Some(seq(first - start, _ => 0) + bytes);
    assert r.value == Repeat(first - start, 0) + Bytes(bytes);
  }

  lemma HoldsBelow(b: seq<nat>, length: nat, to: nat, digits: seq<nat>, from: nat)
    requires Holds(b, length, to, digits, from)
    ensures AllBelow(digits, from)
  {
  }
}
