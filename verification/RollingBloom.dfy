/**
 The rolling bloom filter. Every filter position is a two-bit cell spread over two words; a cell records in
 which of three rotating generations it was last touched. The theorem: each cell holds exactly the generation
 of its latest touch, as long as that lies in the last three generations, so that recent keys are always found.
 */
module RollingBloom {
  import opened Bits

  type Key = seq<nat>

  /** Keyed hash number `n` of a key. */
  type Hasher = (nat, nat, Key) -> nat

  // ---------------------------------------------------------------- bits of a word

  predicate BitAt(x: bv64, b: bv6) { (x >> b) & 1 == 1 }

  function One(b: bv6): bv64 { (1 as bv64) << b }

  /** A word with one bit replaced. */
  function SetWord(x: bv64, b: bv6, v: bool): bv64 { (x & !One(b)) | (if v then One(b) else 0) }

  lemma SetWordBit(x: bv64, b: bv6, v: bool, c: bv6)
    ensures BitAt(SetWord(x, b, v), c) == if c == b then v else BitAt(x, c)
  {
  }

  // The bitwise operators by name, so that facts about single bits can be combined without bit blasting.
  function And(x: bv64, y: bv64): bv64 { x & y }
  function Or(x: bv64, y: bv64): bv64 { x | y }
  function Xor(x: bv64, v: bool): bv64 { x ^ (if v then 0xFFFF_FFFF_FFFF_FFFF else 0) }

  lemma AndBit(x: bv64, y: bv64, c: bv6)
    ensures BitAt(And(x, y), c) == (BitAt(x, c) && BitAt(y, c))
  {
  }

  lemma OrBit(x: bv64, y: bv64, c: bv6)
    ensures BitAt(Or(x, y), c) == (BitAt(x, c) || BitAt(y, c))
  {
  }

  lemma XorBit(x: bv64, v: bool, c: bv6)
    ensures BitAt(Xor(x, v), c) == (BitAt(x, c) != v)
  {
  }

  /** A word `x` of the pair `p1`, `p2` with the bits of all cells of one generation cleared. */
  function WipeWord(x: bv64, p1: bv64, p2: bv64, g1: bool, g2: bool): bv64 {
    And(x, Or(Xor(p1, g1), Xor(p2, g2)))
  }

  lemma WipeBit(x: bv64, p1: bv64, p2: bv64, g1: bool, g2: bool, c: bv6)
    ensures BitAt(WipeWord(x, p1, p2, g1, g2), c) == (BitAt(x, c) && !(BitAt(p1, c) == g1 && BitAt(p2, c) == g2))
  {
    hide BitAt, And, Or, Xor;
    XorBit(p1, g1, c);
    XorBit(p2, g2, c);
    OrBit(Xor(p1, g1), Xor(p2, g2), c);
    AndBit(x, Or(Xor(p1, g1), Xor(p2, g2)), c);
  }

  // ---------------------------------------------------------------- cells

  /** Cell `b` of word pair `w`. */
  datatype Cell = Cell(w: nat, b: bv6)

  function ToNat(b: bool): nat { if b then 1 else 0 }

  /** The generation number stored in a cell; zero for none. */
  function Value(d: seq<bv64>, c: Cell): nat
    requires 2 * c.w + 1 < |d|
  {
    ToNat(BitAt(d[2 * c.w], c.b)) + 2 * ToNat(BitAt(d[2 * c.w + 1], c.b))
  }

  function SetCell(d: seq<bv64>, c: Cell, gen: nat): (r: seq<bv64>)
    requires 2 * c.w + 1 < |d|
    ensures |r| == |d|
  {
    d[2 * c.w := SetWord(d[2 * c.w], c.b, gen % 2 == 1)][2 * c.w + 1 := SetWord(d[2 * c.w + 1], c.b, gen / 2 == 1)]
  }

  lemma SetCellValue(d: seq<bv64>, c: Cell, gen: nat, x: Cell)
    requires 2 * c.w + 1 < |d| && 2 * x.w + 1 < |d| && gen <= 3
    ensures Value(SetCell(d, c, gen), x) == if x == c then gen else Value(d, x)
  {
    hide BitAt, SetWord;
    SetWordBit(d[2 * c.w], c.b, gen % 2 == 1, x.b);
    SetWordBit(d[2 * c.w + 1], c.b, gen / 2 == 1, x.b);
  }

  function Wipe(d: seq<bv64>, gen: nat): (r: seq<bv64>)
    requires |d| % 2 == 0
    ensures |r| == |d|
  {
    seq(|d|, p requires 0 <= p < |d| => WipeWord(d[p], d[2 * (p / 2)], d[2 * (p / 2) + 1], gen % 2 == 1, gen / 2 == 1))
  }

  /** Wiping clears exactly the cells of that generation. */
  lemma WipeValue(d: seq<bv64>, gen: nat, x: Cell)
    requires |d| % 2 == 0 && 2 * x.w + 1 < |d| && gen <= 3
    ensures Value(Wipe(d, gen), x) == if Value(d, x) == gen then 0 else Value(d, x)
  {
    hide BitAt, WipeWord, Wipe;
    var p1, p2 := d[2 * x.w], d[2 * x.w + 1];
    WipeBit(p1, p1, p2, gen % 2 == 1, gen / 2 == 1, x.b);
    WipeBit(p2, p1, p2, gen % 2 == 1, gen / 2 == 1, x.b);
    WipeAt(d, gen, x.w);
  }

  lemma WipeAt(d: seq<bv64>, gen: nat, w: nat)
    requires |d| % 2 == 0 && 2 * w + 1 < |d|
    ensures Wipe(d, gen)[2 * w] == WipeWord(d[2 * w], d[2 * w], d[2 * w + 1], gen % 2 == 1, gen / 2 == 1)
    ensures Wipe(d, gen)[2 * w + 1] == WipeWord(d[2 * w + 1], d[2 * w], d[2 * w + 1], gen % 2 == 1, gen / 2 == 1)
  {
    hide WipeWord;
    assert 2 * w / 2 == w && (2 * w + 1) / 2 == w;
  }

  // ---------------------------------------------------------------- which cells a key touches

  datatype Config = Config(hash: Hasher, tweak: nat, hashFuncs: nat, words: nat)

  function CellOf(k: Config, n: nat, key: Key): (c: Cell)
    requires k.words > 0 && k.words % 2 == 0
    ensures 2 * c.w + 1 < k.words
  {
    var h := k.hash(n, k.tweak, key) % UINT32;
    Cell(FastMod(h, k.words) / 2, (h % 64) as bv6)
  }

  predicate Touches(k: Config, key: Key, c: Cell)
    requires k.words > 0 && k.words % 2 == 0
  {
    exists n :: 0 <= n < k.hashFuncs && CellOf(k, n, key) == c
  }

  // ---------------------------------------------------------------- the history of a cell

  /** The generation in which a cell was last touched, -1 if never; generations have `per` entries. */
  function Latest(k: Config, per: nat, history: seq<Key>, c: Cell): int
    requires k.words > 0 && k.words % 2 == 0 && per > 0
  {
    if history == [] then -1
    else
      var last := |history| - 1;
      if Touches(k, history[last], c) then last / per else Latest(k, per, history[..last], c)
  }

  function Generation(per: nat, count: nat): nat
    requires per > 0
  {
    if count == 0 then 0 else (count - 1) / per
  }

  lemma {:induction false} LatestBounds(k: Config, per: nat, history: seq<Key>, c: Cell)
    requires k.words > 0 && k.words % 2 == 0 && per > 0
    ensures -1 <= Latest(k, per, history, c) <= Generation(per, |history|)
  {
    if history != [] {
      var last := |history| - 1;
      LatestBounds(k, per, history[..last], c);
      QuotientMonotone(if last == 0 then 0 else last - 1, last, per);
    }
  }

  lemma QuotientMonotone(a: nat, b: nat, d: nat)
    requires a <= b && d > 0
    ensures 0 <= a / d <= b / d
  {
    FitsIn(a / d, b, d);
    FitsIn(a / d, a, d);
    FitsIn(0, a, d);
  }

  /** A touch by an earlier entry is recorded at least with that entry's generation. */
  lemma {:induction false} LatestCovers(k: Config, per: nat, history: seq<Key>, j: nat, c: Cell)
    requires k.words > 0 && k.words % 2 == 0 && per > 0 && j < |history| && Touches(k, history[j], c)
    ensures Latest(k, per, history, c) >= j / per
  {
    var last := |history| - 1;
    if Touches(k, history[last], c) {
      QuotientMonotone(j, last, per);
    } else {
      LatestCovers(k, per, history[..last], j, c);
    }
  }

  /** The number stored for a latest touch in generation `latest` when the current one is `now`. */
  function Code(latest: int, now: nat): nat {
    if latest >= 0 && latest >= now - 2 then latest % 3 + 1 else 0
  }

  /** Every cell records the generation of its latest touch within the last three generations. */
  ghost predicate Records(k: Config, per: nat, d: seq<bv64>, history: seq<Key>, now: nat)
    requires k.words > 0 && k.words % 2 == 0 && per > 0
  {
    |d| == k.words && forall c: Cell :: 2 * c.w + 1 < |d| ==> Value(d, c) == Code(Latest(k, per, history, c), now)
  }

  lemma CodeStep(latest: int, now: nat)
    requires -1 <= latest <= now
    ensures Code(latest, now + 1) == if Code(latest, now) == (now + 1) % 3 + 1 then 0 else Code(latest, now)
  {
  }

  /** Starting a generation: wiping its number forgets exactly the touches three generations back. */
  lemma WipeRecords(k: Config, per: nat, d: seq<bv64>, history: seq<Key>, now: nat)
    requires k.words > 0 && k.words % 2 == 0 && per > 0 && Records(k, per, d, history, now)
    requires now == Generation(per, |history|)
    ensures Records(k, per, Wipe(d, (now + 1) % 3 + 1), history, now + 1)
  {
    hide Value, Latest, Wipe, Code;
    var w := Wipe(d, (now + 1) % 3 + 1);
    forall c: Cell | 2 * c.w + 1 < |w| ensures Value(w, c) == Code(Latest(k, per, history, c), now + 1) {
      WipeValue(d, (now + 1) % 3 + 1, c);
      LatestBounds(k, per, history, c);
      CodeStep(Latest(k, per, history, c), now);
    }
  }

  /** The words after the first `n` hashes of a key have been set. */
  function SetKey(k: Config, d: seq<bv64>, key: Key, gen: nat, n: nat): (r: seq<bv64>)
    requires k.words > 0 && k.words % 2 == 0 && |d| == k.words
    ensures |r| == |d|
  {
    if n == 0 then d else SetCell(SetKey(k, d, key, gen, n - 1), CellOf(k, n - 1, key), gen)
  }

  lemma {:induction false} SetKeyValue(k: Config, d: seq<bv64>, key: Key, gen: nat, n: nat, c: Cell)
    requires k.words > 0 && k.words % 2 == 0 && |d| == k.words && gen <= 3 && 2 * c.w + 1 < |d|
    ensures Value(SetKey(k, d, key, gen, n), c) == if exists m :: 0 <= m < n && CellOf(k, m, key) == c then gen else Value(d, c)
  {
    hide Value, SetCell, CellOf;
    if n > 0 {
      SetKeyValue(k, d, key, gen, n - 1, c);
      SetCellValue(SetKey(k, d, key, gen, n - 1), CellOf(k, n - 1, key), gen, c);
      if CellOf(k, n - 1, key) != c {
        assert (exists m :: 0 <= m < n && CellOf(k, m, key) == c) <==> exists m :: 0 <= m < n - 1 && CellOf(k, m, key) == c;
      }
    }
  }

  lemma InsertRecords(k: Config, per: nat, d: seq<bv64>, history: seq<Key>, now: nat, key: Key)
    requires k.words > 0 && k.words % 2 == 0 && per > 0 && Records(k, per, d, history, now)
    requires now == |history| / per
    ensures Records(k, per, SetKey(k, d, key, now % 3 + 1, k.hashFuncs), history + [key], now)
  {
    hide Value, SetKey, CellOf;
    var h := history + [key];
    assert h[..|h| - 1] == history;
    forall c: Cell | 2 * c.w + 1 < |d| ensures Value(SetKey(k, d, key, now % 3 + 1, k.hashFuncs), c) == Code(Latest(k, per, h, c), now) {
      SetKeyValue(k, d, key, now % 3 + 1, k.hashFuncs, c);
      assert Touches(k, key, c) <==> exists m :: 0 <= m < k.hashFuncs && CellOf(k, m, key) == c;
    }
  }

  // ---------------------------------------------------------------- recent keys are found

  /** All cells of the key were touched in the last three generations. */
  ghost predicate Recent(k: Config, per: nat, history: seq<Key>, now: nat, key: Key)
    requires k.words > 0 && k.words % 2 == 0 && per > 0
  {
    forall n :: 0 <= n < k.hashFuncs ==> Code(Latest(k, per, history, CellOf(k, n, key)), now) != 0
  }

  /** A key inserted in the current or one of the two previous generations counts as recent. */
  lemma InsertedIsRecent(k: Config, per: nat, history: seq<Key>, j: nat)
    requires k.words > 0 && k.words % 2 == 0 && per > 0 && j < |history|
    requires j / per >= Generation(per, |history|) - 2
    ensures Recent(k, per, history, Generation(per, |history|), history[j])
  {
    hide CellOf, Latest;
    forall n | 0 <= n < k.hashFuncs
      ensures Code(Latest(k, per, history, CellOf(k, n, history[j])), Generation(per, |history|)) != 0
    {
      var c := CellOf(k, n, history[j]);
      assert Touches(k, history[j], c);
      LatestCovers(k, per, history, j, c);
      FitsIn(0, j, per);
    }
  }

  /** The generation of an insert, from the counters: `g * per + inThis` inserts so far. */
  lemma NextGeneration(per: nat, count: nat, g: nat, inThis: nat)
    requires per > 0 && inThis <= per && count == g * per + inThis
    ensures inThis < per ==> count / per == g && Generation(per, count + 1) == g
    ensures inThis == per ==> count / per == g + 1 && Generation(per, count + 1) == g + 1
  {
    FitsIn(g, count, per);
    FitsIn(g + 1, count, per);
    FitsIn(g + 2, count, per);
    assert (g + 1) * per == g * per + per && (g + 2) * per == g * per + 2 * per;
  }

  class Filter {
    const hash: Hasher
    const nEntriesPerGeneration: nat
    const nHashFuncs: nat
    const data: array<bv64>
    var nEntriesThisGeneration: nat
    var nGeneration: nat
    var nTweak: nat
    /** The keys inserted since the last reset. */
    ghost var history: seq<Key>

    ghost predicate Sized() { data.Length > 0 && data.Length % 2 == 0 && nEntriesPerGeneration > 0 }

    function Settings(): Config
      reads this
    {
      Config(hash, nTweak, nHashFuncs, data.Length)
    }

    ghost function Now(): nat
      requires Sized()
      reads this
    {
      Generation(nEntriesPerGeneration, |history|)
    }

    ghost predicate Valid()
      reads this, data
    {
      && Sized()
      && Records(Settings(), nEntriesPerGeneration, data[..], history, Now())
      && nGeneration == Now() % 3 + 1
      && nEntriesThisGeneration <= nEntriesPerGeneration
      && |history| == Now() * nEntriesPerGeneration + nEntriesThisGeneration
    }

    /** `words` and `hashFuncs` come from the sizing formulas, which are left open. */
    constructor (hash: Hasher, nElements: nat, hashFuncs: nat, words: nat, tweak: nat)
      requires nElements >= 1 && words > 0 && words % 2 == 0
      ensures Valid() && history == [] && fresh(data) && nElements <= 2 * nEntriesPerGeneration <= nElements + 1
    {
      this.hash, nHashFuncs := hash, hashFuncs;
      nEntriesPerGeneration := (nElements + 1) / 2;
      data := new bv64[words];
      new;
      Reset(tweak);
    }

    method Reset(tweak: nat)
      requires Sized()
      modifies this, data
      ensures Valid() && history == [] && nTweak == tweak
    {
      nTweak, nEntriesThisGeneration, nGeneration := tweak, 0, 1;
      history := [];
      for i := 0 to data.Length
        modifies data
        invariant forall j :: 0 <= j < i ==> data[j] == 0
      {
        data[i] := 0;
      }
      forall c: Cell | 2 * c.w + 1 < data.Length ensures Value(data[..], c) == 0 { ZeroCell(data[..], c); }
    }

    static lemma ZeroCell(d: seq<bv64>, c: Cell)
      requires 2 * c.w + 1 < |d| && d[2 * c.w] == 0 && d[2 * c.w + 1] == 0
      ensures Value(d, c) == 0
    {
      ZeroBit(c.b);
    }

    static lemma ZeroBit(b: bv6)
      ensures !BitAt(0, b)
    {
    }

    method Insert(vKey: Key)
      requires Valid()
      modifies this, data
      ensures Valid() && history == old(history) + [vKey] && nTweak == old(nTweak)
    {
      hide Records, Wipe, SetKey;
      ghost var per, k := nEntriesPerGeneration, Settings();
      NextGeneration(per, |history|, Now(), nEntriesThisGeneration);
      ghost var g := Now();
      if nEntriesThisGeneration == nEntriesPerGeneration {
        WipeRecords(k, per, data[..], history, g);
        assert (g + 1) * per == g * per + per;
        g := g + 1;
        nEntriesThisGeneration := 0;
        nGeneration := nGeneration + 1;
        if nGeneration == 4 {
          nGeneration := 1;
        }
        WipeGeneration();
      }
      nEntriesThisGeneration := nEntriesThisGeneration + 1;
      InsertRecords(k, per, data[..], history, g, vKey);
      SetAll(vKey);
      history := history + [vKey];
    }

    /** Clears every cell of the generation that starts. */
    method WipeGeneration()
      requires Sized()
      modifies data
      ensures data[..] == Wipe(old(data[..]), nGeneration)
    {
      hide WipeWord, Wipe;
      ghost var was := data[..];
      var p := 0;
      ghost var w := 0;
      while p < data.Length
        invariant 0 <= p <= data.Length && p == 2 * w
        invariant forall j :: 0 <= j < data.Length ==> data[j] == if j < p then Wipe(was, nGeneration)[j] else was[j]
      {
        var p1, p2 := data[p], data[p + 1];
        WipeAt(was, nGeneration, w);
        data[p] := WipeWord(p1, p1, p2, nGeneration % 2 == 1, nGeneration / 2 == 1);
        data[p + 1] := WipeWord(p2, p1, p2, nGeneration % 2 == 1, nGeneration / 2 == 1);
        p, w := p + 2, w + 1;
      }
    }

    method SetAll(vKey: Key)
      requires Sized()
      modifies data
      ensures data[..] == SetKey(Settings(), old(data[..]), vKey, nGeneration, nHashFuncs)
    {
      hide SetWord;
      ghost var was := data[..];
      for n := 0 to nHashFuncs
        invariant data[..] == SetKey(Settings(), was, vKey, nGeneration, n)
      {
        ghost var d := data[..];
        var c := CellOf(Settings(), n, vKey);
        data[2 * c.w] := SetWord(data[2 * c.w], c.b, nGeneration % 2 == 1);
        data[2 * c.w + 1] := SetWord(data[2 * c.w + 1], c.b, nGeneration / 2 == 1);
        assert data[..] == SetCell(d, c, nGeneration);
      }
    }

    /** True exactly when all cells of the key were touched in the last three generations; in particular
        for each of the last N keys inserted. */
    method Contains(vKey: Key) returns (found: bool)
      requires Valid()
      ensures found <==> Recent(Settings(), nEntriesPerGeneration, history, Now(), vKey)
      ensures forall j :: 0 <= j < |history| && j >= |history| - 2 * nEntriesPerGeneration - nEntriesThisGeneration && history[j] == vKey ==> found
    {
      hide Value, CellOf, Latest;
      forall j | 0 <= j < |history| && j >= |history| - 2 * nEntriesPerGeneration - nEntriesThisGeneration && history[j] == vKey
        ensures Recent(Settings(), nEntriesPerGeneration, history, Now(), vKey)
      {
        LastKeys(nEntriesPerGeneration, Now(), j);
        InsertedIsRecent(Settings(), nEntriesPerGeneration, history, j);
      }
      for n := 0 to nHashFuncs
        invariant forall m :: 0 <= m < n ==> Code(Latest(Settings(), nEntriesPerGeneration, history, CellOf(Settings(), m, vKey)), Now()) != 0
      {
        var c := CellOf(Settings(), n, vKey);
        CellNonZero(data[..], c);
        if !BitAt(Or(data[2 * c.w], data[2 * c.w + 1]), c.b) {
          return false;
        }
      }
      return true;
    }

    static lemma LastKeys(per: nat, g: nat, j: nat)
      requires per > 0 && j >= (g - 2) * per
      ensures j / per >= g - 2
    {
      FitsIn(g - 2, j, per);
    }

    static lemma CellNonZero(d: seq<bv64>, c: Cell)
      requires 2 * c.w + 1 < |d|
      ensures BitAt(Or(d[2 * c.w], d[2 * c.w + 1]), c.b) <==> Value(d, c) != 0
    {
      hide BitAt, Or;
      OrBit(d[2 * c.w], d[2 * c.w + 1], c.b);
    }
  }
}
