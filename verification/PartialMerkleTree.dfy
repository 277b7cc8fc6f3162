/**
 The partial merkle tree object: addressing of nodes by height and position, the two recursive traversals,
 the checks around extraction, and the packing of flag bits into bytes.
 */
module PartialMerkleTree {
  import opened Bits
  import opened Consensus
  import opened MerkleBlock

  // ---------------------------------------------------------------- addresses

  /** The number of nodes at a height. */
  function CalcTreeWidth(n: nat, height: nat): nat {
    (n + Pow2(height) - 1) / Pow2(height)
  }

  /** The first transaction below a node: `pos << height`. */
  function FirstLeaf(height: nat, pos: nat): nat { pos * Pow2(height) }

  /** A node exists exactly when its first leaf does. */
  lemma WidthMeaning(n: nat, height: nat, pos: nat)
    ensures pos < CalcTreeWidth(n, height) <==> FirstLeaf(height, pos) < n
  {
    FitsIn(pos + 1, n + Pow2(height) - 1, Pow2(height));
  }

  /** The children of a node: the left one always exists, and they split the leaves between them. */
  lemma Children(n: nat, height: nat, pos: nat)
    requires height > 0 && pos < CalcTreeWidth(n, height)
    ensures 2 * pos < CalcTreeWidth(n, height - 1)
    ensures FirstLeaf(height, pos) == FirstLeaf(height - 1, 2 * pos) < FirstLeaf(height - 1, 2 * pos + 1)
    ensures FirstLeaf(height - 1, 2 * pos + 1) < FirstLeaf(height - 1, 2 * pos + 2) == FirstLeaf(height, pos + 1)
    ensures 2 * pos + 1 < CalcTreeWidth(n, height - 1) <==> FirstLeaf(height - 1, 2 * pos + 1) < n
  {
    var p := Pow2(height - 1);
    assert pos * (2 * p) == (2 * pos) * p;
    assert (pos + 1) * (2 * p) == (2 * pos + 2) * p;
    assert (2 * pos + 1) * p == (2 * pos) * p + p;
    assert (2 * pos + 2) * p == (2 * pos + 1) * p + p;
    WidthMeaning(n, height, pos);
    WidthMeaning(n, height - 1, 2 * pos);
    WidthMeaning(n, height - 1, 2 * pos + 1);
  }

  function HeightFrom(n: nat, height: nat): nat
    decreases n - Pow2(height)
  {
    WidthMeaning(n, height, 1);
    if CalcTreeWidth(n, height) > 1 then HeightFrom(n, height + 1) else height
  }

  function TreeHeight(n: nat): nat { HeightFrom(n, 0) }

  /** The root level has one node. */
  lemma {:induction false} RootLevel(n: nat, height: nat)
    requires n > 0
    ensures CalcTreeWidth(n, HeightFrom(n, height)) == 1
    decreases n - Pow2(height)
  {
    WidthMeaning(n, height, 1);
    WidthMeaning(n, height, 0);
    if CalcTreeWidth(n, height) > 1 { RootLevel(n, height + 1); }
  }

  /** The tree below a node. */
  function Shape(n: nat, height: nat, pos: nat): Node
    requires pos < CalcTreeWidth(n, height)
  {
    if height == 0 then Leaf(pos)
    else
      Children(n, height, pos);
      var left := Shape(n, height - 1, 2 * pos);
      if 2 * pos + 1 < CalcTreeWidth(n, height - 1) then Pair(left, Shape(n, height - 1, 2 * pos + 1)) else Single(left)
  }

  function Least(a: nat, b: nat): nat { if a < b then a else b }

  lemma UnitLevel(pos: nat)
    ensures FirstLeaf(0, pos) == pos
  {
  }

  /** Its leaves are the transactions from `pos << height` up to `(pos + 1) << height`, as far as they exist. */
  lemma {:induction false} ShapeCovers(n: nat, height: nat, pos: nat)
    requires pos < CalcTreeWidth(n, height)
    ensures Covers(Shape(n, height, pos), FirstLeaf(height, pos), height)
    ensures FirstLeaf(height, pos) + Size(Shape(n, height, pos)) == Least(FirstLeaf(height, pos + 1), n)
    ensures FirstLeaf(height, pos) < n
  {
    hide CalcTreeWidth, FirstLeaf;
    WidthMeaning(n, height, pos);
    if height == 0 {
      UnitLevel(pos);
      UnitLevel(pos + 1);
    } else {
      Children(n, height, pos);
      ShapeCovers(n, height - 1, 2 * pos);
      if 2 * pos + 1 < CalcTreeWidth(n, height - 1) { ShapeCovers(n, height - 1, 2 * pos + 1); }
    }
  }

  /** The whole tree of a block. */
  function Whole(n: nat): (t: Node)
    requires n > 0
  {
    RootLevel(n, 0);
    Shape(n, TreeHeight(n), 0)
  }

  lemma WholeCovers(n: nat)
    requires n > 0
    ensures Covers(Whole(n), 0, TreeHeight(n)) && Size(Whole(n)) == n
  {
    RootLevel(n, 0);
    ShapeCovers(n, TreeHeight(n), 0);
    WidthMeaning(n, TreeHeight(n), 1);
  }

  function MerkleRoot(H: Combine, txids: seq<Hash>): Hash
    requires |txids| > 0
  {
    WholeCovers(|txids|);
    CalcHash(H, txids, Whole(|txids|), 0)
  }

  /** The flag bits and hashes of the partial tree of a block. */
  function BuildWhole(H: Combine, txids: seq<Hash>, matches: seq<bool>): Parts
    requires 0 < |txids| == |matches|
  {
    WholeCovers(|txids|);
    Build(H, txids, matches, Whole(|txids|), 0)
  }

  // ---------------------------------------------------------------- extraction as a whole

  const START := Progress(0, 0, [], [], false)

  predicate Plausible(n: nat, bits: seq<bool>, hashes: seq<Hash>) {
    n != 0 && n <= MAX_BLOCK_SIZE / 60 && |hashes| <= n && |hashes| <= |bits|
  }

  /** All bits were used, up to the padding of the last byte, and all hashes. */
  predicate AllUsed(bits: seq<bool>, hashes: seq<Hash>, s: Progress) {
    (s.bitsUsed + 7) / 8 == (|bits| + 7) / 8 && s.hashUsed == |hashes|
  }

  /** The returned hash and the extracted transactions, for a tree whose failure flag is not yet set. */
  function Extraction(H: Combine, n: nat, bits: seq<bool>, hashes: seq<Hash>): (Hash, seq<Hash>, seq<nat>) {
    if !Plausible(n, bits, hashes) then (NULL_HASH, [], [])
    else
      var (hash, s) := Extract(H, bits, hashes, Whole(n), START);
      (if s.bad || !AllUsed(bits, hashes, s) then NULL_HASH else hash, s.txids, s.index)
  }

  /** Soundness, for arbitrary bits and hashes: if the returned root is that of the block with these
      transactions, every extracted pair is a transaction of the block at its true position. */
  lemma ExtractionSound(H: Combine, truth: seq<Hash>, bits: seq<bool>, hashes: seq<Hash>)
    requires Injective(H) && |truth| > 0
    requires Extraction(H, |truth|, bits, hashes).0 == MerkleRoot(H, truth) != NULL_HASH
    ensures Genuine(truth, Extraction(H, |truth|, bits, hashes).1, Extraction(H, |truth|, bits, hashes).2)
  {
    WholeCovers(|truth|);
    ExtractSound(H, truth, bits, hashes, Whole(|truth|), 0, TreeHeight(|truth|), START);
  }

  /** Flag bits that lead straight down to the first transaction, and one byte of zeroes more. */
  function StraightDown(depth: nat): (bits: seq<bool>)
    ensures |bits| == depth + 9 && forall k :: 0 <= k < |bits| ==> (bits[k] <==> k <= depth)
  {
    seq(depth + 9, k => k <= depth)
  }

  /** Following them takes the only hash for the first transaction; whatever else is visited finds none left. */
  lemma {:induction false} ForgedPath(H: Combine, depth: nat, forged: Hash, t: Node, lo: nat, height: nat, s: Progress)
    requires Covers(t, lo, height) && height <= depth && s.bitsUsed == depth - height && s.hashUsed == 0
    ensures
      var r := Extract(H, StraightDown(depth), [forged], t, s).1;
      && r.txids == s.txids + [forged] && r.index == s.index + [lo] && r.hashUsed == 1 && r.bitsUsed > depth
      && (r.bad || r.bitsUsed == depth + 1)
    decreases height
  {
    hide StraightDown;
    if !t.Leaf? {
      ForgedPath(H, depth, forged, if t.Single? then t.child else t.left, lo, height - 1, s.(bitsUsed := s.bitsUsed + 1));
    }
  }

  /** A block whose merkle root is the null hash cannot be told from a failure, and then the extracted transactions
      may be anything. */
  lemma NullRootUnsound(H: Combine, truth: seq<Hash>, forged: Hash)
    requires 0 < |truth| <= MAX_BLOCK_SIZE / 60 && forged != truth[0] && MerkleRoot(H, truth) == NULL_HASH
    ensures
      var got := Extraction(H, |truth|, StraightDown(TreeHeight(|truth|)), [forged]);
      got.0 == MerkleRoot(H, truth) && !Genuine(truth, got.1, got.2)
  {
    hide StraightDown, Extract, Whole;
    var n := |truth|;
    var depth := TreeHeight(n);
    WholeCovers(n);
    ForgedPath(H, depth, forged, Whole(n), 0, depth, START);
    assert [] + [forged] == [forged];
    var got := Extraction(H, n, StraightDown(depth), [forged]);
    assert got.2[0] == 0 && got.1[0] == forged;
  }

  /** Extraction is sound for a block exactly when its merkle root is not the null hash, or the block is too big
      for any extraction. */
  lemma SoundExactly(H: Combine, truth: seq<Hash>)
    requires Injective(H) && |truth| > 0
    ensures
      (forall bits, hashes :: Extraction(H, |truth|, bits, hashes).0 == MerkleRoot(H, truth) ==>
         Genuine(truth, Extraction(H, |truth|, bits, hashes).1, Extraction(H, |truth|, bits, hashes).2))
      <==> MerkleRoot(H, truth) != NULL_HASH || |truth| > MAX_BLOCK_SIZE / 60
  {
    hide MerkleRoot, StraightDown, Extract, Whole, TreeHeight;
    if MerkleRoot(H, truth) != NULL_HASH {
      forall bits, hashes | Extraction(H, |truth|, bits, hashes).0 == MerkleRoot(H, truth)
        ensures Genuine(truth, Extraction(H, |truth|, bits, hashes).1, Extraction(H, |truth|, bits, hashes).2) {
        ExtractionSound(H, truth, bits, hashes);
      }
    } else if |truth| <= MAX_BLOCK_SIZE / 60 {
      NullRootUnsound(H, truth, Other(truth[0]));
    }
  }

  function Other(h: Hash): (r: Hash)
    ensures r != h
  {
    h + 1
  }

  lemma BuiltPlausible(H: Combine, txids: seq<Hash>, matches: seq<bool>)
    requires 0 < |txids| == |matches| <= MAX_BLOCK_SIZE / 60
    ensures var parts := BuildWhole(H, txids, matches); Plausible(|txids|, parts.bits, parts.hashes)
  {
    hide Build, Whole, TreeHeight, Matched;
    var n := |txids|;
    WholeCovers(n);
    HashCount(H, txids, matches, Whole(n), 0, TreeHeight(n));
  }

  /** Round trip: what is built for distinct transactions and any mask extracts to the merkle root and
      exactly the matched transactions and positions in order, also with padding bits at the end. */
  lemma RoundTrip(H: Combine, txids: seq<Hash>, matches: seq<bool>, padding: seq<bool>)
    requires Injective(H) && Distinct(txids) && 0 < |txids| == |matches| <= MAX_BLOCK_SIZE / 60
    requires (|BuildWhole(H, txids, matches).bits| + 7) / 8 == (|BuildWhole(H, txids, matches).bits + padding| + 7) / 8
    ensures
      var parts := BuildWhole(H, txids, matches);
      var found := Matched(matches, 0, |txids|);
      Extraction(H, |txids|, parts.bits + padding, parts.hashes) == (MerkleRoot(H, txids), Pick(txids, found), found)
  {
    hide BuildWhole, Extract, Matched, MerkleRoot, Whole, Pick, Injective, Distinct;
    BuiltPlausible(H, txids, matches);
    WholeReadBack(H, txids, matches, padding);
  }

  lemma AtFront<T>(a: seq<T>, b: seq<T>)
    ensures At(a + b, 0, a)
  {
  }

  /** The traversal of the whole tree reads everything back. */
  lemma WholeReadBack(H: Combine, txids: seq<Hash>, matches: seq<bool>, padding: seq<bool>)
    requires Injective(H) && Distinct(txids) && 0 < |txids| == |matches|
    ensures
      var parts := BuildWhole(H, txids, matches);
      var found := Matched(matches, 0, |txids|);
      Extract(H, parts.bits + padding, parts.hashes, Whole(|txids|), START)
      == (MerkleRoot(H, txids), Progress(|parts.bits|, |parts.hashes|, Pick(txids, found), found, false))
  {
    hide Build, Extract, Matched, CalcHash, Whole, TreeHeight, Pick, Injective, Distinct, At, Covers, Size;
    var n := |txids|;
    WholeCovers(n);
    var parts := BuildWhole(H, txids, matches);
    var bits := parts.bits + padding;
    AtFront(parts.bits, padding);
    AtFront(parts.hashes, []);
    assert parts.hashes + [] == parts.hashes;
    ExtractBuilt(H, txids, matches, bits, parts.hashes, Whole(n), 0, TreeHeight(n), START);
    var found := Matched(matches, 0, n);
    assert [] + Pick(txids, found) == Pick(txids, found) && [] + found == found;
  }

  /** At most one hash per transaction, and at most one plus the tree height per matched transaction. */
  lemma HashBound(H: Combine, txids: seq<Hash>, matches: seq<bool>)
    requires 0 < |txids| == |matches|
    ensures
      var hashes := |BuildWhole(H, txids, matches).hashes|;
      hashes <= |txids| && hashes <= 1 + |Matched(matches, 0, |txids|)| * TreeHeight(|txids|)
  {
    WholeCovers(|txids|);
    HashCount(H, txids, matches, Whole(|txids|), 0, TreeHeight(|txids|));
    CapMeaning(|Matched(matches, 0, |txids|)|, TreeHeight(|txids|));
  }

  // ---------------------------------------------------------------- packing flag bits into bytes

  function Unpack(bytes: seq<bv8>): (bits: seq<bool>) {
    seq(8 * |bytes|, p requires 0 <= p < 8 * |bytes| => BitOf(bytes[p / 8], p % 8))
  }

  /** As few bytes as possible, and reading them back gives the bits followed by zero padding. */
  predicate Packs(bits: seq<bool>, bytes: seq<bv8>) {
    |bytes| == (|bits| + 7) / 8 && Unpack(bytes) == bits + seq(8 * |bytes| - |bits|, _ => false)
  }

  /** The round trip through serialisation: the receiver unpacks whole bytes and still extracts the merkle
      root and exactly the matched transactions. */
  lemma PackedRoundTrip(H: Combine, txids: seq<Hash>, matches: seq<bool>, bytes: seq<bv8>)
    requires Injective(H) && Distinct(txids) && 0 < |txids| == |matches| <= MAX_BLOCK_SIZE / 60
    requires Packs(BuildWhole(H, txids, matches).bits, bytes)
    ensures
      var found := Matched(matches, 0, |txids|);
      Extraction(H, |txids|, Unpack(bytes), BuildWhole(H, txids, matches).hashes) == (MerkleRoot(H, txids), Pick(txids, found), found)
  {
    hide BuildWhole, Extraction, Matched, MerkleRoot, Pick, Injective, Distinct;
    var bits := BuildWhole(H, txids, matches).bits;
    RoundTrip(H, txids, matches, seq(8 * |bytes| - |bits|, _ => false));
  }

  method PackBits(vBits: seq<bool>) returns (vBytes: seq<bv8>)
    ensures Packs(vBits, vBytes)
  {
    var buf := new bv8[(|vBits| + 7) / 8](_ => 0);
    for p := 0 to |vBits|
      invariant forall q :: 0 <= q < 8 * buf.Length ==> BitOf(buf[q / 8], q % 8) == (q < p && vBits[q])
    {
      ghost var was := buf[..];
      if vBits[p] {
        var mask := Mask(p % 8);
        buf[p / 8] := buf[p / 8] | mask;
        forall q | 0 <= q < 8 * buf.Length ensures BitOf(buf[q / 8], q % 8) == (q < p + 1 && vBits[q]) {
          OrMask(was[p / 8], p % 8, q % 8);
          assert q == 8 * (q / 8) + q % 8 && p == 8 * (p / 8) + p % 8;
          if q / 8 != p / 8 { assert buf[q / 8] == was[q / 8]; }
        }
      }
    }
    vBytes := buf[..];
  }

  method UnpackBits(vBytes: seq<bv8>) returns (vBits: seq<bool>)
    ensures vBits == Unpack(vBytes)
  {
    var bits := new bool[8 * |vBytes|];
    for p := 0 to bits.Length
      invariant forall q :: 0 <= q < p ==> bits[q] == BitOf(vBytes[q / 8], q % 8)
    {
      bits[p] := vBytes[p / 8] & Mask(p % 8) != 0;
    }
    vBits := bits[..];
  }

  // ---------------------------------------------------------------- traversals by address

  /** The hash of the node at an address, computed as the source does. */
  function CalcHashAt(H: Combine, txids: seq<Hash>, height: nat, pos: nat): Hash
    requires pos < CalcTreeWidth(|txids|, height)
  {
    WidthMeaning(|txids|, height, pos);
    if height == 0 then UnitLevel(pos); txids[pos]
    else
      Children(|txids|, height, pos);
      var left := CalcHashAt(H, txids, height - 1, pos * 2);
      var right := if pos * 2 + 1 < CalcTreeWidth(|txids|, height - 1) then CalcHashAt(H, txids, height - 1, pos * 2 + 1) else left;
      H(left, right)
  }

  lemma {:induction false} CalcHashAtMeaning(H: Combine, txids: seq<Hash>, height: nat, pos: nat)
    requires pos < CalcTreeWidth(|txids|, height)
    ensures FirstLeaf(height, pos) + Size(Shape(|txids|, height, pos)) <= |txids|
    ensures CalcHashAt(H, txids, height, pos) == CalcHash(H, txids, Shape(|txids|, height, pos), FirstLeaf(height, pos))
  {
    hide CalcTreeWidth, FirstLeaf;
    ShapeCovers(|txids|, height, pos);
    if height == 0 {
      UnitLevel(pos);
    } else {
      Children(|txids|, height, pos);
      ShapeCovers(|txids|, height - 1, 2 * pos);
      CalcHashAtMeaning(H, txids, height - 1, 2 * pos);
      if 2 * pos + 1 < CalcTreeWidth(|txids|, height - 1) { CalcHashAtMeaning(H, txids, height - 1, 2 * pos + 1); }
    }
  }

  function BuildAt(H: Combine, txids: seq<Hash>, matches: seq<bool>, height: nat, pos: nat): Parts
    requires |txids| == |matches| && pos < CalcTreeWidth(|txids|, height)
  {
    ShapeCovers(|txids|, height, pos);
    Build(H, txids, matches, Shape(|txids|, height, pos), FirstLeaf(height, pos))
  }

  /** One level of BuildAt. */
  lemma BuildAtStep(H: Combine, txids: seq<Hash>, matches: seq<bool>, height: nat, pos: nat)
    requires |txids| == |matches| && pos < CalcTreeWidth(|txids|, height)
    ensures FirstLeaf(height, pos) < Least(FirstLeaf(height, pos + 1), |txids|)
    ensures height > 0 ==> 2 * pos < CalcTreeWidth(|txids|, height - 1)
    ensures
      var any := Matched(matches, FirstLeaf(height, pos), Least(FirstLeaf(height, pos + 1), |txids|)) != [];
      var parts := BuildAt(H, txids, matches, height, pos);
      if height == 0 || !any then parts == Parts([any], [CalcHashAt(H, txids, height, pos)])
      else
        var left := BuildAt(H, txids, matches, height - 1, 2 * pos);
        if 2 * pos + 1 < CalcTreeWidth(|txids|, height - 1) then
          var right := BuildAt(H, txids, matches, height - 1, 2 * pos + 1);
          parts == Parts([true] + left.bits + right.bits, left.hashes + right.hashes)
        else parts == Parts([true] + left.bits, left.hashes)
  {
    hide CalcTreeWidth, FirstLeaf, Build, CalcHash, Matched;
    var t, lo := Shape(|txids|, height, pos), FirstLeaf(height, pos);
    ShapeCovers(|txids|, height, pos);
    if height > 0 { Children(|txids|, height, pos); }
    if height == 0 || Matched(matches, lo, lo + Size(t)) == [] {
      BuildStop(H, txids, matches, t, lo);
      CalcHashAtMeaning(H, txids, height, pos);
    } else {
      ShapeCovers(|txids|, height - 1, 2 * pos);
      if t.Single? { BuildSingle(H, txids, matches, t.child, lo); } else { BuildPair(H, txids, matches, t.left, t.right, lo); }
    }
  }

  // ---------------------------------------------------------------- the object

  /** The documented bound on flag bits holds exactly when no node with one child lies above a match. */
  lemma FlagBitsBound(H: Combine, txids: seq<Hash>, matches: seq<bool>)
    requires 0 < |txids| == |matches|
    ensures Size(Whole(|txids|)) == |txids|
    ensures
      var parts := BuildWhole(H, txids, matches);
      |parts.bits| <= 2 * |parts.hashes| - 1 <==> OnlyChildren(matches, Whole(|txids|), 0) == 0
  {
    hide Build, OnlyChildren, Whole;
    WholeCovers(|txids|);
    BitCount(H, txids, matches, Whole(|txids|), 0);
  }

  /** Widths of the levels of a block of five transactions: 5, 3, 2 and 1 nodes. */
  lemma FiveLeaves()
    ensures TreeHeight(5) == 3
    ensures CalcTreeWidth(5, 0) == 5 && CalcTreeWidth(5, 1) == 3 && CalcTreeWidth(5, 2) == 2 && CalcTreeWidth(5, 3) == 1
  {
    assert Pow2(0) == 1 && Pow2(1) == 2 && Pow2(2) == 4 && Pow2(3) == 8;
    assert HeightFrom(5, 3) == 3;
    assert HeightFrom(5, 2) == 3;
    assert HeightFrom(5, 1) == 3;
  }

  lemma OnlyLastOfFive(matches: seq<bool>, lo: nat, hi: nat)
    requires matches == [false, false, false, false, true] && lo <= hi <= 5
    ensures Matched(matches, lo, hi) != [] <==> lo <= 4 < hi
    decreases hi - lo
  {
    if lo < hi { OnlyLastOfFive(matches, lo + 1, hi); }
  }

  /** With the last of five transactions matched, two hashes come with five flag bits: more than 2 * N - 1. */
  lemma FlagBitsExceed(H: Combine, txids: seq<Hash>)
    requires |txids| == 5
    ensures
      var parts := BuildWhole(H, txids, [false, false, false, false, true]);
      |parts.hashes| == 2 && |parts.bits| == 5 > 2 * |parts.hashes| - 1
  {
    hide Build, Shape, CalcHash, Matched, HeightFrom;
    var m := [false, false, false, false, true];
    FiveLeaves();
    assert Pow2(0) == 1 && Pow2(1) == 2 && Pow2(2) == 4 && Pow2(3) == 8;
    assert BuildWhole(H, txids, m) == BuildAt(H, txids, m, 3, 0);
    OnlyLastOfFive(m, 0, 5);
    OnlyLastOfFive(m, 0, 4);
    OnlyLastOfFive(m, 4, 5);
    BuildAtStep(H, txids, m, 3, 0);
    BuildAtStep(H, txids, m, 2, 0);
    BuildAtStep(H, txids, m, 2, 1);
    BuildAtStep(H, txids, m, 1, 2);
    BuildAtStep(H, txids, m, 0, 4);
  }

  class PartialTree {
    const H: Combine
    var nTransactions: nat
    var vBits: seq<bool>
    var vHash: seq<Hash>
    var fBad: bool

    constructor Build(H: Combine, vTxid: seq<Hash>, vMatch: seq<bool>)
      requires 0 < |vTxid| == |vMatch|
      ensures this.H == H && nTransactions == |vTxid| && !fBad
      ensures Parts(vBits, vHash) == BuildWhole(H, vTxid, vMatch)
    {
      this.H := H;
      nTransactions, fBad := |vTxid|, false;
      vBits, vHash := [], [];
      new;
      var nHeight := ComputeHeight(nTransactions);
      RootLevel(nTransactions, 0);
      WholeCovers(nTransactions);
      TraverseAndBuild(nHeight, 0, vTxid, vMatch);
    }

    static method ComputeHeight(n: nat) returns (nHeight: nat)
      ensures nHeight == TreeHeight(n)
    {
      nHeight := 0;
      while CalcTreeWidth(n, nHeight) > 1
        invariant HeightFrom(n, nHeight) == TreeHeight(n)
        decreases n - Pow2(nHeight)
      {
        WidthMeaning(n, nHeight, 1);
        nHeight := nHeight + 1;
      }
    }

    /** Whether some transaction below a node is matched. */
    static method ParentOfMatch(n: nat, height: nat, pos: nat, vMatch: seq<bool>) returns (fParentOfMatch: bool)
      requires |vMatch| == n && FirstLeaf(height, pos) < n && FirstLeaf(height, pos) <= FirstLeaf(height, pos + 1)
      ensures fParentOfMatch == (Matched(vMatch, FirstLeaf(height, pos), Least(FirstLeaf(height, pos + 1), n)) != [])
    {
      hide FirstLeaf;
      fParentOfMatch := false;
      var p := FirstLeaf(height, pos);
      ghost var hi := Least(FirstLeaf(height, pos + 1), n);
      while p < FirstLeaf(height, pos + 1) && p < n
        invariant FirstLeaf(height, pos) <= p <= hi
        invariant (Matched(vMatch, FirstLeaf(height, pos), hi) != []) == (fParentOfMatch || Matched(vMatch, p, hi) != [])
      {
        fParentOfMatch := fParentOfMatch || vMatch[p];
        p := p + 1;
      }
    }

    method TraverseAndBuild(height: nat, pos: nat, vTxid: seq<Hash>, vMatch: seq<bool>)
      requires |vTxid| == |vMatch| == nTransactions && pos < CalcTreeWidth(nTransactions, height)
      modifies this`vBits, this`vHash
      ensures vBits == old(vBits) + BuildAt(H, vTxid, vMatch, height, pos).bits
      ensures vHash == old(vHash) + BuildAt(H, vTxid, vMatch, height, pos).hashes
      decreases height
    {
      hide CalcTreeWidth, FirstLeaf, MerkleBlock.Build, CalcHash, Matched;
      ShapeCovers(nTransactions, height, pos);
      var fParentOfMatch := ParentOfMatch(nTransactions, height, pos, vMatch);
      vBits := vBits + [fParentOfMatch];
      BuildAtStep(H, vTxid, vMatch, height, pos);
      if height == 0 || !fParentOfMatch {
        CalcHashAtMeaning(H, vTxid, height, pos);
        vHash := vHash + [CalcHashAt(H, vTxid, height, pos)];
      } else {
        Children(nTransactions, height, pos);
        TraverseAndBuild(height - 1, pos * 2, vTxid, vMatch);
        if pos * 2 + 1 < CalcTreeWidth(nTransactions, height - 1) {
          TraverseAndBuild(height - 1, pos * 2 + 1, vTxid, vMatch);
        }
      }
    }

    /** The counters and vectors the source passes by reference are threaded through. */
    method TraverseAndExtract(height: nat, pos: nat, nBitsUsed: nat, nHashUsed: nat, vMatch: seq<Hash>, vnIndex: seq<nat>)
      returns (hash: Hash, nBitsUsed': nat, nHashUsed': nat, vMatch': seq<Hash>, vnIndex': seq<nat>)
      requires pos < CalcTreeWidth(nTransactions, height)
      modifies this`fBad
      ensures (hash, Progress(nBitsUsed', nHashUsed', vMatch', vnIndex', fBad))
              == Extract(H, vBits, vHash, Shape(nTransactions, height, pos), Progress(nBitsUsed, nHashUsed, vMatch, vnIndex, old(fBad)))
      decreases height
    {
      hide CalcTreeWidth;
      nBitsUsed', nHashUsed', vMatch', vnIndex' := nBitsUsed, nHashUsed, vMatch, vnIndex;
      if nBitsUsed >= |vBits| {
        fBad := true;
        return NULL_HASH, nBitsUsed', nHashUsed', vMatch', vnIndex';
      }
      var fParentOfMatch := vBits[nBitsUsed];
      nBitsUsed' := nBitsUsed + 1;
      if height == 0 || !fParentOfMatch {
        if nHashUsed >= |vHash| {
          fBad := true;
          return NULL_HASH, nBitsUsed', nHashUsed', vMatch', vnIndex';
        }
        hash := vHash[nHashUsed];
        nHashUsed' := nHashUsed + 1;
        if height == 0 && fParentOfMatch {
          vMatch' := vMatch + [hash];
          vnIndex' := vnIndex + [pos];
        }
      } else {
        Children(nTransactions, height, pos);
        var left, right;
        left, nBitsUsed', nHashUsed', vMatch', vnIndex' := TraverseAndExtract(height - 1, pos * 2, nBitsUsed', nHashUsed', vMatch', vnIndex');
        if pos * 2 + 1 < CalcTreeWidth(nTransactions, height - 1) {
          right, nBitsUsed', nHashUsed', vMatch', vnIndex' := TraverseAndExtract(height - 1, pos * 2 + 1, nBitsUsed', nHashUsed', vMatch', vnIndex');
          if right == left {
            fBad := true;
          }
        } else {
          right := left;
        }
        hash := H(left, right);
      }
    }

    /** Returns the merkle root, or the null hash on failure. Only the transactions are cleared first; the
        positions are appended to what the caller passed in. */
    method ExtractMatches(vnIndexIn: seq<nat>) returns (root: Hash, vMatch: seq<Hash>, vnIndex: seq<nat>)
      modifies this`fBad
      ensures root == if old(fBad) then NULL_HASH else Extraction(H, nTransactions, vBits, vHash).0
      ensures !old(fBad) ==> vMatch == Extraction(H, nTransactions, vBits, vHash).1
      ensures !old(fBad) ==> vnIndex == vnIndexIn + Extraction(H, nTransactions, vBits, vHash).2
    {
      vMatch, vnIndex := [], vnIndexIn;
      root := NULL_HASH;
      if !Plausible(nTransactions, vBits, vHash) {
        return;
      }
      var nHeight := ComputeHeight(nTransactions);
      RootLevel(nTransactions, 0);
      ExtractAppends(H, vBits, vHash, Whole(nTransactions), vnIndexIn, START);
      assert vnIndexIn + [] == vnIndexIn;
      var hash, nBitsUsed, nHashUsed;
      hash, nBitsUsed, nHashUsed, vMatch, vnIndex := TraverseAndExtract(nHeight, 0, 0, 0, vMatch, vnIndex);
      if fBad || (nBitsUsed + 7) / 8 != (|vBits| + 7) / 8 || nHashUsed != |vHash| {
        return;
      }
      root := hash;
    }
  }
}
