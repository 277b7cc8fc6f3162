/**
 Partial merkle trees: a pruned merkle tree stored as flag bits and hashes in depth-first order (section
 "Partial Merkle branch format" of BIP 37). The two-argument hash is an arbitrary function `H`; where a
 theorem needs collision freedom it says so.

 The source addresses nodes by height and position. `Shape` turns such an address into the tree below it,
 and the theorems are proved by structural recursion on that tree.
 */
module MerkleBlock {

  type Hash = nat

  /** The null hash, which ExtractMatches returns for every failure. */
  const NULL_HASH: Hash := 0

  type Combine = (Hash, Hash) -> Hash

  ghost predicate Injective(H: Combine) {
    forall a, b, c, d :: H(a, b) == H(c, d) ==> a == c && b == d
  }

  predicate Distinct(txids: seq<Hash>) {
    forall i, j :: 0 <= i < j < |txids| ==> txids[i] != txids[j]
  }

  // ---------------------------------------------------------------- trees

  /** The part of the merkle tree below a node; the last node of an odd level has a single child. */
  datatype Node = Leaf(pos: nat) | Single(child: Node) | Pair(left: Node, right: Node)

  function Size(t: Node): (n: nat)
    ensures n > 0
  {
    match t
    case Leaf(_) => 1
    case Single(c) => Size(c)
    case Pair(l, r) => Size(l) + Size(r)
  }

  /** All leaves at the same depth, numbered from `lo` on. */
  predicate Covers(t: Node, lo: nat, height: nat) {
    match t
    case Leaf(p) => height == 0 && p == lo
    case Single(c) => height > 0 && Covers(c, lo, height - 1)
    case Pair(l, r) => height > 0 && Covers(l, lo, height - 1) && Covers(r, lo + Size(l), height - 1)
  }

  /** The hash of a node; a missing right child counts as a copy of the left one. */
  function CalcHash(H: Combine, txids: seq<Hash>, t: Node, lo: nat): Hash
    requires lo + Size(t) <= |txids|
  {
    match t
    case Leaf(_) => txids[lo]
    case Single(c) => var left := CalcHash(H, txids, c, lo); H(left, left)
    case Pair(l, r) => H(CalcHash(H, txids, l, lo), CalcHash(H, txids, r, lo + Size(l)))
  }

  // ---------------------------------------------------------------- matched transactions

  /** The matched positions in `lo .. hi`, in order. */
  function Matched(matches: seq<bool>, lo: nat, hi: nat): (r: seq<nat>)
    requires lo <= hi <= |matches|
    ensures forall i :: 0 <= i < |r| ==> lo <= r[i] < hi
    decreases hi - lo
  {
    if lo == hi then []
    else
      var rest := Matched(matches, lo + 1, hi);
      if matches[lo] then [lo] + rest else rest
  }

  lemma {:induction false} MatchedMeaning(matches: seq<bool>, lo: nat, hi: nat)
    requires lo <= hi <= |matches|
    ensures forall p :: p in Matched(matches, lo, hi) <==> lo <= p < hi && matches[p]
    ensures forall i, j :: 0 <= i < j < |Matched(matches, lo, hi)| ==> Matched(matches, lo, hi)[i] < Matched(matches, lo, hi)[j]
    decreases hi - lo
  {
    if lo < hi { MatchedMeaning(matches, lo + 1, hi); }
  }

  lemma {:induction false} MatchedSplit(matches: seq<bool>, lo: nat, mid: nat, hi: nat)
    requires lo <= mid <= hi <= |matches|
    ensures Matched(matches, lo, hi) == Matched(matches, lo, mid) + Matched(matches, mid, hi)
    decreases mid - lo
  {
    if lo < mid { MatchedSplit(matches, lo + 1, mid, hi); }
  }

  function Pick(txids: seq<Hash>, at: seq<nat>): (r: seq<Hash>)
    requires forall i :: 0 <= i < |at| ==> at[i] < |txids|
    ensures |r| == |at| && forall i :: 0 <= i < |at| ==> r[i] == txids[at[i]]
  {
    seq(|at|, i requires 0 <= i < |at| => txids[at[i]])
  }

  lemma PickAppend(txids: seq<Hash>, a: seq<nat>, b: seq<nat>, s: Progress)
    requires (forall i :: 0 <= i < |a| ==> a[i] < |txids|) && (forall i :: 0 <= i < |b| ==> b[i] < |txids|)
    ensures s.txids + Pick(txids, a) + Pick(txids, b) == s.txids + Pick(txids, a + b)
    ensures s.index + a + b == s.index + (a + b)
  {
  }

  // ---------------------------------------------------------------- building

  datatype Parts = Parts(bits: seq<bool>, hashes: seq<Hash>)

  /** What a traversal of a subtree stores: one flag bit per visited node, one hash per unexplored node. */
  function Build(H: Combine, txids: seq<Hash>, matches: seq<bool>, t: Node, lo: nat): (r: Parts)
    requires |txids| == |matches| && lo + Size(t) <= |txids|
    ensures 0 < |r.hashes| <= |r.bits|
    ensures |r.hashes| <= Size(t)
  {
    var any := Matched(matches, lo, lo + Size(t)) != [];
    if t.Leaf? || !any then Parts([any], [CalcHash(H, txids, t, lo)])
    else
      match t
      case Single(c) =>
        var below := Build(H, txids, matches, c, lo);
        Parts([true] + below.bits, below.hashes)
      case Pair(l, r) =>
        var left := Build(H, txids, matches, l, lo);
        var right := Build(H, txids, matches, r, lo + Size(l));
        Parts([true] + left.bits + right.bits, left.hashes + right.hashes)
  }

  // ---------------------------------------------------------------- extracting

  /** The running state of an extraction: counters, results, and the failure flag. */
  datatype Progress = Progress(bitsUsed: nat, hashUsed: nat, txids: seq<Hash>, index: seq<nat>, bad: bool)

  function Extract(H: Combine, bits: seq<bool>, hashes: seq<Hash>, t: Node, s: Progress): (r: (Hash, Progress))
    ensures s.bad ==> r.1.bad
  {
    if s.bitsUsed >= |bits| then (NULL_HASH, s.(bad := true))
    else
      var any := bits[s.bitsUsed];
      var s1 := s.(bitsUsed := s.bitsUsed + 1);
      if t.Leaf? || !any then
        if s.hashUsed >= |hashes| then (NULL_HASH, s1.(bad := true))
        else
          var hash := hashes[s.hashUsed];
          var s2 := s1.(hashUsed := s.hashUsed + 1);
          (hash, if t.Leaf? && any then s2.(txids := s.txids + [hash], index := s.index + [t.pos]) else s2)
      else
        match t
        case Single(c) =>
          var (left, s2) := Extract(H, bits, hashes, c, s1);
          (H(left, left), s2)
        case Pair(l, r) =>
          var (left, s2) := Extract(H, bits, hashes, l, s1);
          var (right, s3) := Extract(H, bits, hashes, r, s2);
          (H(left, right), s3.(bad := s3.bad || right == left))
  }

  /** One level of Extract. */
  lemma ExtractInner(H: Combine, bits: seq<bool>, hashes: seq<Hash>, t: Node, s: Progress)
    requires !t.Leaf? && s.bitsUsed < |bits| && bits[s.bitsUsed]
    ensures
      var s1 := s.(bitsUsed := s.bitsUsed + 1);
      match t
      case Single(c) =>
        var (left, s2) := Extract(H, bits, hashes, c, s1);
        Extract(H, bits, hashes, t, s) == (H(left, left), s2)
      case Pair(l, r) =>
        var (left, s2) := Extract(H, bits, hashes, l, s1);
        var (right, s3) := Extract(H, bits, hashes, r, s2);
        Extract(H, bits, hashes, t, s) == (H(left, right), s3.(bad := s3.bad || right == left))
  {
  }

  /** Positions found are appended to those already there. */
  lemma {:induction false} ExtractAppends(H: Combine, bits: seq<bool>, hashes: seq<Hash>, t: Node, before: seq<nat>, s: Progress)
    ensures
      var (hash, r) := Extract(H, bits, hashes, t, s);
      Extract(H, bits, hashes, t, s.(index := before + s.index)) == (hash, r.(index := before + r.index))
  {
    var s1 := s.(bitsUsed := s.bitsUsed + 1);
    match t
    case Leaf(pos) => assert before + (s.index + [pos]) == before + s.index + [pos];
    case Single(c) => ExtractAppends(H, bits, hashes, c, before, s1);
    case Pair(l, r) =>
      ExtractAppends(H, bits, hashes, l, before, s1);
      ExtractAppends(H, bits, hashes, r, before, Extract(H, bits, hashes, l, s1).1);
  }

  // ---------------------------------------------------------------- soundness

  /** The extracted pairs name real transactions. */
  predicate Genuine(truth: seq<Hash>, txids: seq<Hash>, index: seq<nat>) {
    |txids| == |index| && forall i :: 0 <= i < |index| ==> index[i] < |truth| && txids[i] == truth[index[i]]
  }

  /** If the hash computed for a node is the real one, everything extracted below it is real: collision
      freedom hands the equality down to both children. */
  lemma {:induction false} ExtractSound(H: Combine, truth: seq<Hash>, bits: seq<bool>, hashes: seq<Hash>,
                                        t: Node, lo: nat, height: nat, s: Progress)
    requires Injective(H) && Covers(t, lo, height) && lo + Size(t) <= |truth|
    requires Genuine(truth, s.txids, s.index)
    requires !Extract(H, bits, hashes, t, s).1.bad
    requires Extract(H, bits, hashes, t, s).0 == CalcHash(H, truth, t, lo)
    ensures Genuine(truth, Extract(H, bits, hashes, t, s).1.txids, Extract(H, bits, hashes, t, s).1.index)
  {
    hide Extract, CalcHash;
    if t.Leaf? || s.bitsUsed >= |bits| || !bits[s.bitsUsed] {
      StopSound(H, truth, bits, hashes, t, lo, height, s);
    } else {
      var s1 := s.(bitsUsed := s.bitsUsed + 1);
      ExtractInner(H, bits, hashes, t, s);
      CalcHashInner(H, truth, t, lo);
      match t
      case Leaf(_) =>
      case Single(c) => ExtractSound(H, truth, bits, hashes, c, lo, height - 1, s1);
      case Pair(l, r) =>
        var (left, s2) := Extract(H, bits, hashes, l, s1);
        var (right, s3) := Extract(H, bits, hashes, r, s2);
        assert H(left, right) == H(CalcHash(H, truth, l, lo), CalcHash(H, truth, r, lo + Size(l)));
        ExtractSound(H, truth, bits, hashes, l, lo, height - 1, s1);
        ExtractSound(H, truth, bits, hashes, r, lo + Size(l), height - 1, s2);
    }
  }

  lemma StopSound(H: Combine, truth: seq<Hash>, bits: seq<bool>, hashes: seq<Hash>, t: Node, lo: nat, height: nat, s: Progress)
    requires Covers(t, lo, height) && lo + Size(t) <= |truth| && Genuine(truth, s.txids, s.index)
    requires t.Leaf? || s.bitsUsed >= |bits| || !bits[s.bitsUsed]
    requires Extract(H, bits, hashes, t, s).1.bad || Extract(H, bits, hashes, t, s).0 == CalcHash(H, truth, t, lo)
    ensures Extract(H, bits, hashes, t, s).1.bad || Genuine(truth, Extract(H, bits, hashes, t, s).1.txids, Extract(H, bits, hashes, t, s).1.index)
  {
  }

  lemma CalcHashInner(H: Combine, txids: seq<Hash>, t: Node, lo: nat)
    requires lo + Size(t) <= |txids| && !t.Leaf?
    ensures CalcHash(H, txids, t, lo) ==
            match t
            case Single(c) => H(CalcHash(H, txids, c, lo), CalcHash(H, txids, c, lo))
            case Pair(l, r) => H(CalcHash(H, txids, l, lo), CalcHash(H, txids, r, lo + Size(l)))
  {
  }

  // ---------------------------------------------------------------- round trip

  /** Two subtrees of the same height with the same hash start with the same transaction. */
  lemma {:induction false} SameFirst(H: Combine, txids: seq<Hash>, a: Node, lo: nat, b: Node, lo': nat, height: nat)
    requires Injective(H) && Covers(a, lo, height) && Covers(b, lo', height)
    requires lo + Size(a) <= |txids| && lo' + Size(b) <= |txids|
    requires CalcHash(H, txids, a, lo) == CalcHash(H, txids, b, lo')
    ensures txids[lo] == txids[lo']
  {
    if !a.Leaf? {
      SameFirst(H, txids, if a.Single? then a.child else a.left, lo, if b.Single? then b.child else b.left, lo', height - 1);
    }
  }

  /** `inner` stands in `outer` from `from` on. */
  predicate At<T(==)>(outer: seq<T>, from: nat, inner: seq<T>) {
    from + |inner| <= |outer| && outer[from..from + |inner|] == inner
  }

  lemma AtSplit<T>(outer: seq<T>, from: nat, a: seq<T>, b: seq<T>)
    requires At(outer, from, a + b)
    ensures At(outer, from, a) && At(outer, from + |a|, b)
  {
    var whole := outer[from..from + |a + b|];
    assert outer[from..from + |a|] == whole[..|a|] == a;
    assert outer[from + |a|..from + |a| + |b|] == whole[|a|..] == b;
  }

  lemma AtFlag(bits: seq<bool>, from: nat, rest: seq<bool>)
    requires At(bits, from, [true] + rest)
    ensures from < |bits| && bits[from] && At(bits, from + 1, rest)
  {
    AtSplit(bits, from, [true], rest);
    assert bits[from] == bits[from..from + 1][0];
  }

  /** How an extraction that reads back a built subtree ends. */
  function ReadBack(H: Combine, txids: seq<Hash>, matches: seq<bool>, t: Node, lo: nat, s: Progress): (Hash, Progress)
    requires |txids| == |matches| && lo + Size(t) <= |txids|
  {
    var parts := Build(H, txids, matches, t, lo);
    var found := Matched(matches, lo, lo + Size(t));
    (CalcHash(H, txids, t, lo),
     Progress(s.bitsUsed + |parts.bits|, s.hashUsed + |parts.hashes|, s.txids + Pick(txids, found), s.index + found, s.bad))
  }

  /** Wherever the parts of a built subtree stand in longer vectors, extraction reads back exactly the
      node's hash and the matched transactions below it, and finds nothing wrong. */
  lemma {:induction false} ExtractBuilt(H: Combine, txids: seq<Hash>, matches: seq<bool>, bits: seq<bool>, hashes: seq<Hash>,
                                        t: Node, lo: nat, height: nat, s: Progress)
    requires Injective(H) && Distinct(txids) && Covers(t, lo, height)
    requires |txids| == |matches| && lo + Size(t) <= |txids|
    requires At(bits, s.bitsUsed, Build(H, txids, matches, t, lo).bits)
    requires At(hashes, s.hashUsed, Build(H, txids, matches, t, lo).hashes)
    ensures Extract(H, bits, hashes, t, s) == ReadBack(H, txids, matches, t, lo, s)
    decreases height
  {
    hide Extract, Matched, Build, CalcHash, At;
    var found := Matched(matches, lo, lo + Size(t));
    if t.Leaf? || found == [] {
      StopBuilt(H, txids, matches, bits, hashes, t, lo, height, s);
    } else if t.Single? {
      BuildSingle(H, txids, matches, t.child, lo);
      AtFlag(bits, s.bitsUsed, Build(H, txids, matches, t.child, lo).bits);
      ExtractBuilt(H, txids, matches, bits, hashes, t.child, lo, height - 1, s.(bitsUsed := s.bitsUsed + 1));
      SingleStep(H, txids, matches, bits, hashes, t.child, lo, s);
    } else {
      var l, r, mid := t.left, t.right, lo + Size(t.left);
      BuildPair(H, txids, matches, l, r, lo);
      var left, right := Build(H, txids, matches, l, lo), Build(H, txids, matches, r, mid);
      AtSplit(bits, s.bitsUsed, [true] + left.bits, right.bits);
      AtFlag(bits, s.bitsUsed, left.bits);
      AtSplit(hashes, s.hashUsed, left.hashes, right.hashes);
      var s1 := s.(bitsUsed := s.bitsUsed + 1);
      ExtractBuilt(H, txids, matches, bits, hashes, l, lo, height - 1, s1);
      ExtractBuilt(H, txids, matches, bits, hashes, r, mid, height - 1, ReadBack(H, txids, matches, l, lo, s1).1);
      if CalcHash(H, txids, l, lo) == CalcHash(H, txids, r, mid) { SameFirst(H, txids, l, lo, r, mid, height - 1); }
      PairStep(H, txids, matches, bits, hashes, l, r, lo, s);
    }
  }

  lemma BuildSingle(H: Combine, txids: seq<Hash>, matches: seq<bool>, c: Node, lo: nat)
    requires |txids| == |matches| && lo + Size(c) <= |txids| && Matched(matches, lo, lo + Size(c)) != []
    ensures
      var below := Build(H, txids, matches, c, lo);
      Build(H, txids, matches, Single(c), lo) == Parts([true] + below.bits, below.hashes)
  {
    hide Matched;
  }

  /** Reading back a node whose hash was stored. */
  lemma StopBuilt(H: Combine, txids: seq<Hash>, matches: seq<bool>, bits: seq<bool>, hashes: seq<Hash>,
                  t: Node, lo: nat, height: nat, s: Progress)
    requires |txids| == |matches| && lo + Size(t) <= |txids| && Covers(t, lo, height)
    requires t.Leaf? || Matched(matches, lo, lo + Size(t)) == []
    requires At(bits, s.bitsUsed, Build(H, txids, matches, t, lo).bits)
    requires At(hashes, s.hashUsed, Build(H, txids, matches, t, lo).hashes)
    ensures Extract(H, bits, hashes, t, s) == ReadBack(H, txids, matches, t, lo, s)
  {
    hide Matched, Build, CalcHash;
    var found := Matched(matches, lo, lo + Size(t));
    BuildStop(H, txids, matches, t, lo);
    assert bits[s.bitsUsed] == bits[s.bitsUsed..s.bitsUsed + 1][0] == (found != []);
    assert hashes[s.hashUsed] == hashes[s.hashUsed..s.hashUsed + 1][0] == CalcHash(H, txids, t, lo);
    if t.Leaf? { MatchedLeaf(matches, lo); }
    assert found == if found != [] then [lo] else [];
    assert Pick(txids, found) == if found != [] then [txids[lo]] else [];
    assert found == [] ==> s.txids + Pick(txids, found) == s.txids && s.index + found == s.index;
  }

  lemma MatchedLeaf(matches: seq<bool>, lo: nat)
    requires lo < |matches|
    ensures Matched(matches, lo, lo + 1) == if matches[lo] then [lo] else []
  {
    assert Matched(matches, lo + 1, lo + 1) == [];
  }

  lemma SingleStep(H: Combine, txids: seq<Hash>, matches: seq<bool>, bits: seq<bool>, hashes: seq<Hash>, c: Node, lo: nat, s: Progress)
    requires |txids| == |matches| && lo + Size(c) <= |txids| && Matched(matches, lo, lo + Size(c)) != []
    requires s.bitsUsed < |bits| && bits[s.bitsUsed]
    requires
      var s1 := s.(bitsUsed := s.bitsUsed + 1);
      Extract(H, bits, hashes, c, s1) == ReadBack(H, txids, matches, c, lo, s1)
    ensures Extract(H, bits, hashes, Single(c), s) == ReadBack(H, txids, matches, Single(c), lo, s)
  {
    hide Extract, Matched;
    ExtractInner(H, bits, hashes, Single(c), s);
  }

  lemma PairStep(H: Combine, txids: seq<Hash>, matches: seq<bool>, bits: seq<bool>, hashes: seq<Hash>, l: Node, r: Node, lo: nat, s: Progress)
    requires |txids| == |matches| && lo + Size(Pair(l, r)) <= |txids| && Matched(matches, lo, lo + Size(Pair(l, r))) != []
    requires s.bitsUsed < |bits| && bits[s.bitsUsed]
    requires CalcHash(H, txids, l, lo) != CalcHash(H, txids, r, lo + Size(l))
    requires
      var s1 := s.(bitsUsed := s.bitsUsed + 1);
      var s2 := ReadBack(H, txids, matches, l, lo, s1).1;
      && Extract(H, bits, hashes, l, s1) == ReadBack(H, txids, matches, l, lo, s1)
      && Extract(H, bits, hashes, r, s2) == ReadBack(H, txids, matches, r, lo + Size(l), s2)
    ensures Extract(H, bits, hashes, Pair(l, r), s) == ReadBack(H, txids, matches, Pair(l, r), lo, s)
  {
    hide Extract, Matched, Build, CalcHash;
    var t, mid, hi := Pair(l, r), lo + Size(l), lo + Size(l) + Size(r);
    BuildPair(H, txids, matches, l, r, lo);
    ExtractInner(H, bits, hashes, t, s);
    MatchedSplit(matches, lo, mid, hi);
    PickAppend(txids, Matched(matches, lo, mid), Matched(matches, mid, hi), s);
  }

  lemma BuildPair(H: Combine, txids: seq<Hash>, matches: seq<bool>, l: Node, r: Node, lo: nat)
    requires |txids| == |matches| && lo + Size(Pair(l, r)) <= |txids| && Matched(matches, lo, lo + Size(Pair(l, r))) != []
    ensures
      var left, right := Build(H, txids, matches, l, lo), Build(H, txids, matches, r, lo + Size(l));
      Build(H, txids, matches, Pair(l, r), lo) == Parts([true] + left.bits + right.bits, left.hashes + right.hashes)
    ensures CalcHash(H, txids, Pair(l, r), lo) == H(CalcHash(H, txids, l, lo), CalcHash(H, txids, r, lo + Size(l)))
  {
    hide Matched;
  }

  /** One hash plus one per matched transaction and level. */
  function Cap(matched: nat, height: nat): (r: nat)
    ensures r > 0
  {
    if height == 0 then 1 else Cap(matched, height - 1) + matched
  }

  lemma {:induction false} CapMeaning(matched: nat, height: nat)
    ensures Cap(matched, height) == 1 + matched * height
  {
    if height > 0 { CapMeaning(matched, height - 1); }
  }

  lemma {:induction false} CapSum(a: nat, b: nat, height: nat)
    requires a + b > 0
    ensures Cap(a, height) + Cap(b, height) <= Cap(a + b, height + 1)
  {
    if height > 0 { CapSum(a, b, height - 1); }
  }

  /** The documented bound on the number of stored hashes. */
  lemma {:induction false} HashCount(H: Combine, txids: seq<Hash>, matches: seq<bool>, t: Node, lo: nat, height: nat)
    requires |txids| == |matches| && lo + Size(t) <= |txids| && Covers(t, lo, height)
    ensures |Build(H, txids, matches, t, lo).hashes| <= Cap(|Matched(matches, lo, lo + Size(t))|, height)
  {
    hide Build, CalcHash, Matched;
    if t.Leaf? || Matched(matches, lo, lo + Size(t)) == [] {
      BuildStop(H, txids, matches, t, lo);
    } else if t.Single? {
      BuildSingle(H, txids, matches, t.child, lo);
      HashCount(H, txids, matches, t.child, lo, height - 1);
    } else {
      var l, r, mid := t.left, t.right, lo + Size(t.left);
      BuildPair(H, txids, matches, l, r, lo);
      HashCount(H, txids, matches, l, lo, height - 1);
      HashCount(H, txids, matches, r, mid, height - 1);
      MatchedSplit(matches, lo, mid, lo + Size(t));
      CapSum(|Matched(matches, lo, mid)|, |Matched(matches, mid, lo + Size(t))|, height - 1);
    }
  }

  /** How many nodes with one child lie above a match. */
  function OnlyChildren(matches: seq<bool>, t: Node, lo: nat): nat
    requires lo + Size(t) <= |matches|
  {
    if t.Leaf? || Matched(matches, lo, lo + Size(t)) == [] then 0
    else
      match t
      case Single(c) => 1 + OnlyChildren(matches, c, lo)
      case Pair(l, r) => OnlyChildren(matches, l, lo) + OnlyChildren(matches, r, lo + Size(l))
  }

  /** The exact number of flag bits: each such node adds one to the 2 * N - 1 of a full binary tree. */
  lemma {:induction false} BitCount(H: Combine, txids: seq<Hash>, matches: seq<bool>, t: Node, lo: nat)
    requires |txids| == |matches| && lo + Size(t) <= |txids|
    ensures
      var parts := Build(H, txids, matches, t, lo);
      |parts.bits| == 2 * |parts.hashes| - 1 + OnlyChildren(matches, t, lo)
  {
    hide Build, CalcHash, Matched;
    if t.Leaf? || Matched(matches, lo, lo + Size(t)) == [] {
      BuildStop(H, txids, matches, t, lo);
    } else if t.Single? {
      BuildSingle(H, txids, matches, t.child, lo);
      BitCount(H, txids, matches, t.child, lo);
    } else {
      BuildPair(H, txids, matches, t.left, t.right, lo);
      BitCount(H, txids, matches, t.left, lo);
      BitCount(H, txids, matches, t.right, lo + Size(t.left));
    }
  }

  lemma BuildStop(H: Combine, txids: seq<Hash>, matches: seq<bool>, t: Node, lo: nat)
    requires |txids| == |matches| && lo + Size(t) <= |txids| && (t.Leaf? || Matched(matches, lo, lo + Size(t)) == [])
    ensures Build(H, txids, matches, t, lo) == Parts([Matched(matches, lo, lo + Size(t)) != []], [CalcHash(H, txids, t, lo)])
    ensures t.Leaf? ==> CalcHash(H, txids, t, lo) == txids[lo]
  {
    hide Matched;
  }
}
