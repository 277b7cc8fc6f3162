/**
 Database transactions. A transaction records writes and deletes over a parent store (the database itself or
 another transaction); what it shows is the parent's contents with the deletes removed and the writes laid over.
 Its iterator merges two sorted cursors and must show exactly the keys of that view, in order.
 */
module DbTransaction {
  import opened Collections

  type Byte = b: nat | b < 256
  type Key = seq<Byte>
  type Value = seq<Byte>

  // ---------------------------------------------------------------- the order of keys

  /** Lexicographic order on bytes, a proper prefix first. */
  predicate Less(a: Key, b: Key) {
    b != [] && (a == [] || a[0] < b[0] || (a[0] == b[0] && Less(a[1..], b[1..])))
  }

  lemma {:induction false} LessTotal(a: Key, b: Key)
    ensures !Less(a, a)
    ensures a == b || Less(a, b) || Less(b, a)
    ensures !(Less(a, b) && Less(b, a))
    decreases |a| + |b|
  {
    if a != [] {
      LessTotal(a[1..], if b == [] then [] else b[1..]);
      if b != [] && a[0] == b[0] && a[1..] == b[1..] {
        assert a == [a[0]] + a[1..] == b;
      }
    }
  }

  lemma {:induction false} LessTransitive(a: Key, b: Key, c: Key)
    requires Less(a, b) && Less(b, c)
    ensures Less(a, c)
  {
    if a != [] && a[0] == b[0] == c[0] {
      LessTransitive(a[1..], b[1..], c[1..]);
    }
  }

  ghost predicate IsLeast(s: set<Key>, m: Key) {
    m in s && forall k :: k in s ==> k == m || Less(m, k)
  }

  lemma LeastUnique(s: set<Key>, m: Key, n: Key)
    requires IsLeast(s, m) && IsLeast(s, n)
    ensures m == n
  {
    LessTotal(m, n);
  }

  /** The members not below a key. */
  ghost function From(s: set<Key>, lo: Key): set<Key> {
    set k | k in s && !Less(k, lo)
  }

  /** Beyond the least member nothing but that member is lost. */
  lemma FromAfter(s: set<Key>, m: Key)
    requires m in s
    ensures forall k :: k in From(s, m) - {m} <==> k in s && Less(m, k)
  {
    forall k ensures k in From(s, m) - {m} <==> k in s && Less(m, k) { LessTotal(k, m); }
  }

  lemma FromLeast(s: set<Key>, m: Key)
    requires m in s
    ensures IsLeast(From(s, m), m)
  {
    LessTotal(m, m);
    forall k | k in From(s, m) ensures k == m || Less(m, k) { LessTotal(k, m); }
  }

  /** The lower bound of `lo` begins the members not below `lo`. */
  lemma FromBound(s: set<Key>, lo: Key, m: Key)
    requires IsLeast(From(s, lo), m)
    ensures From(s, m) == From(s, lo)
  {
    forall k | k in s ensures Less(k, m) <==> Less(k, lo) {
      LessTotal(k, m);
      LessTotal(k, lo);
      LessTotal(m, lo);
      if Less(k, lo) && !Less(k, m) {
        if k != m { LessTransitive(m, k, lo); }
      }
    }
  }

  /** The keys after a member are again the keys from their own least one. */
  lemma FromNext(s: set<Key>, m: Key, n: Key)
    requires m in s && IsLeast(From(s, m) - {m}, n)
    ensures From(s, n) == From(s, m) - {m}
  {
    FromAfter(s, m);
    forall k | k in s ensures !Less(k, n) <==> Less(m, k) {
      LessTotal(k, n);
      LessTotal(k, m);
      if !Less(k, n) && k != n { LessTransitive(m, n, k); }
    }
  }

  // ---------------------------------------------------------------- memory held by a transaction

  /** What each recorded key occupies: its own bytes, and the value's for a write. */
  ghost function Weights(writes: map<Key, Value>, deletes: set<Key>): map<Key, nat> {
    map k | k in writes.Keys + deletes :: |k| + if k in writes then |writes[k]| else 0
  }

  lemma WriteWeighs(writes: map<Key, Value>, deletes: set<Key>, key: Key, v: Value)
    requires writes.Keys !! deletes
    ensures Total(Weights(writes[key := v], deletes - {key}))
            == Total(Weights(writes, deletes)) - (if key in deletes then |key| else 0)
               - (if key in writes then |key| + |writes[key]| else 0) + |key| + |v|
  {
    TotalUpdate(Weights(writes, deletes), key, |key| + |v|);
    assert Weights(writes[key := v], deletes - {key}) == Weights(writes, deletes)[key := |key| + |v|];
  }

  lemma EraseWeighs(writes: map<Key, Value>, deletes: set<Key>, key: Key)
    requires writes.Keys !! deletes
    ensures Total(Weights(writes - {key}, deletes + {key}))
            == Total(Weights(writes, deletes)) - (if key in writes then |key| + |writes[key]| else 0)
               + (if key in deletes then 0 else |key|)
  {
    TotalUpdate(Weights(writes, deletes), key, |key|);
    assert Weights(writes - {key}, deletes + {key}) == Weights(writes, deletes)[key := |key|];
  }

  // ---------------------------------------------------------------- what a transaction shows

  ghost function Over(under: map<Key, Value>, writes: map<Key, Value>, deletes: set<Key>): map<Key, Value> {
    (under - deletes) + writes
  }

  lemma OverWrite(under: map<Key, Value>, writes: map<Key, Value>, deletes: set<Key>, key: Key, v: Value)
    ensures Over(under, writes[key := v], deletes - {key}) == Over(under, writes, deletes)[key := v]
  {
  }

  lemma OverErase(under: map<Key, Value>, writes: map<Key, Value>, deletes: set<Key>, key: Key)
    ensures Over(under, writes - {key}, deletes + {key}) == Over(under, writes, deletes) - {key}
  {
  }

  lemma OverNothing(under: map<Key, Value>)
    ensures Over(under, map[], {}) == under
  {
  }

  // ---------------------------------------------------------------- stores

  /** The database (no parent) or a transaction over its parent. */
  class Store {
    const parent: Store?
    const depth: nat
    var writes: map<Key, Value>
    var deletes: set<Key>
    var memoryUsage: int

    constructor Database(contents: map<Key, Value>)
      ensures fresh(this) && parent == null && Valid() && View() == contents
    {
      parent, depth, writes, deletes, memoryUsage := null, 0, contents, {}, 0;
    }

    constructor (under: Store)
      requires under.Valid()
      ensures fresh(this) && parent == under && Valid() && View() == under.View() && memoryUsage == 0
    {
      parent, depth, writes, deletes, memoryUsage := under, under.depth + 1, map[], {}, 0;
      under.LineFacts();
      new;
      OverNothing(under.View());
    }

    ghost predicate Grounded()
      decreases depth
    {
      parent != null ==> parent.depth < depth && parent.Grounded()
    }

    ghost function Line(): set<Store>
      requires Grounded()
      decreases depth
    {
      {this} + if parent == null then {} else parent.Line()
    }

    lemma {:induction false} LineFacts()
      requires Grounded()
      ensures forall s :: s in Line() ==> s.depth <= depth && allocated(s)
      decreases depth
    {
      if parent != null { parent.LineFacts(); }
    }

    ghost predicate Sound()
      requires Grounded()
      reads Line()
      decreases depth
    {
      if parent == null then deletes == {}
      else
        && writes.Keys !! deletes
        && memoryUsage == Total(Weights(writes, deletes))
        && parent.Sound()
    }

    ghost predicate Valid()
      reads if Grounded() then Line() else {}
    {
      Grounded() && Sound()
    }

    /** The contents this store shows. */
    ghost function View(): map<Key, Value>
      requires Grounded()
      reads Line()
      decreases depth
    {
      if parent == null then writes else Over(parent.View(), writes, deletes)
    }

    method Write(key: Key, v: Value)
      requires Valid()
      modifies this
      ensures Valid() && View() == old(View())[key := v]
      ensures parent != null ==> parent.View() == old(parent.View())
    {
      hide Total, Weights, Over;
      if parent == null {
        writes := writes[key := v];
        return;
      }
      LineFacts();
      parent.LineFacts();
      WriteWeighs(writes, deletes, key, v);
      OverWrite(parent.View(), writes, deletes, key, v);
      assert key !in deletes ==> deletes - {key} == deletes;
      if key in deletes {
        deletes := deletes - {key};
        memoryUsage := memoryUsage - |key|;
      }
      if key in writes {
        memoryUsage := memoryUsage - (|key| + |writes[key]|);
      }
      writes := writes[key := v];
      memoryUsage := memoryUsage + |key| + |v|;
    }

    method Erase(key: Key)
      requires Valid()
      modifies this
      ensures Valid() && View() == old(View()) - {key}
      ensures parent != null ==> parent.View() == old(parent.View())
    {
      hide Total, Weights, Over;
      if parent == null {
        writes := writes - {key};
        return;
      }
      LineFacts();
      parent.LineFacts();
      EraseWeighs(writes, deletes, key);
      OverErase(parent.View(), writes, deletes, key);
      assert key !in writes ==> writes - {key} == writes;
      assert key in deletes ==> deletes + {key} == deletes;
      if key in writes {
        memoryUsage := memoryUsage - (|key| + |writes[key]|);
        writes := writes - {key};
      }
      if key !in deletes {
        deletes := deletes + {key};
        memoryUsage := memoryUsage + |key|;
      }
    }

    function Read(key: Key): (r: Option<Value>)
      requires Valid()
      reads Line()
      ensures r == if key in View() then Some(View()[key]) else None
      decreases depth
    {
      if key in deletes then None
      else if key in writes then Some(writes[key])
      else if parent == null then None
      else parent.Read(key)
    }

    predicate Exists(key: Key)
      requires Valid()
      reads Line()
      ensures Exists(key) <==> key in View()
      decreases depth
    {
      key !in deletes && (key in writes || (parent != null && parent.Exists(key)))
    }

    method Clear()
      requires Valid() && parent != null
      modifies this
      ensures Valid() && View() == parent.View() == old(parent.View()) && memoryUsage == 0
      ensures writes == map[] && deletes == {}
    {
      LineFacts();
      parent.LineFacts();
      writes := map[];
      deletes := {};
      memoryUsage := 0;
      OverNothing(parent.View());
    }

    /** The first loop of a commit, on the side of the target. */
    method EraseAll(keys: set<Key>)
      requires Valid()
      modifies this
      ensures Valid() && View() == old(View()) - keys
      ensures parent != null ==> parent.View() == old(parent.View())
    {
      hide Total, Weights, Over;
      ghost var shown := View();
      var left := keys;
      assert shown - (keys - left) == shown;
      while left != {}
        invariant left <= keys && Valid() && View() == shown - (keys - left)
        invariant parent != null ==> parent.View() == old(parent.View())
        decreases left
      {
        var k :| k in left;
        Erase(k);
        ghost var before := left;
        left := left - {k};
        assert shown - (keys - before) - {k} == shown - (keys - left);
      }
    }

    /** The second loop of a commit, on the side of the target. */
    method WriteAll(pairs: map<Key, Value>)
      requires Valid()
      modifies this
      ensures Valid() && View() == old(View()) + pairs
      ensures parent != null ==> parent.View() == old(parent.View())
    {
      hide Total, Weights, Over;
      ghost var shown := View();
      var left := pairs.Keys;
      assert shown + (pairs - left) == shown;
      while left != {}
        invariant left <= pairs.Keys && Valid() && View() == shown + (pairs - left)
        invariant parent != null ==> parent.View() == old(parent.View())
        decreases left
      {
        var k :| k in left;
        Write(k, pairs[k]);
        ghost var before := left;
        left := left - {k};
        assert (shown + (pairs - before))[k := pairs[k]] == shown + (pairs - left);
      }
      assert pairs - left == pairs;
    }

    /** Erases and then writes into the parent; the view does not change, and the parent now shows it too. */
    method Commit()
      requires Valid() && parent != null
      modifies this, parent
      ensures Valid() && View() == parent.View() == old(View()) && memoryUsage == 0
      ensures writes == map[] && deletes == {}
      ensures parent.parent != null ==> parent.parent.View() == old(parent.parent.View())
    {
      hide Total, Weights;
      LineFacts();
      parent.LineFacts();
      var target: Store := parent;
      target.EraseAll(deletes);
      target.WriteAll(writes);
      Clear();
    }

    /** The reported usage is never the clamp for negative sums. */
    method GetMemoryUsage() returns (r: int)
      requires Valid() && parent != null
      ensures 0 <= r == memoryUsage == Total(Weights(writes, deletes))
    {
      if memoryUsage < 0 {
        return 0;
      }
      r := memoryUsage;
    }
  }

  // ---------------------------------------------------------------- merging two cursors

  /** The smaller of two least keys is the least of both sets. */
  lemma LeastOfBoth(s: set<Key>, t: set<Key>, m: Key, n: Key)
    requires IsLeast(s, m) && IsLeast(t, n)
    ensures IsLeast(s + t, if Less(m, n) then m else n)
  {
    LessTotal(m, n);
    forall k | k in s + t ensures k == m || k == n || Less(if Less(m, n) then m else n, k) {
      if k in t && k != n && Less(m, n) { LessTransitive(m, n, k); }
      if k in s && k != m && Less(n, m) { LessTransitive(n, m, k); }
    }
  }

  /** Where a search in an ordered map stands: the least of the keys still ahead. */
  ghost predicate Stands(it: Option<Key>, ahead: set<Key>) {
    if it.None? then ahead == {} else IsLeast(ahead, it.value)
  }

  method First(ahead: set<Key>) returns (it: Option<Key>)
    ensures Stands(it, ahead)
  {
    it := None;
    var left := ahead;
    while left != {}
      invariant left <= ahead && Stands(it, ahead - left)
      decreases left
    {
      var k :| k in left;
      if it.None? || Less(k, it.value) {
        forall x | x in ahead - left && it.Some? ensures Less(k, x) {
          if x != it.value { LessTransitive(k, it.value, x); }
        }
        it := Some(k);
      } else {
        LessTotal(k, it.value);
      }
      left := left - {k};
    }
    assert ahead - left == ahead;
  }

  /** Written keys still ahead of a position in the writes. */
  ghost function Mine(it: Option<Key>, writes: set<Key>): set<Key> {
    if it.None? then {} else From(writes, it.value)
  }

  /** All keys still ahead: the written ones, and the parent's that show through. */
  ghost function Ahead(it: Option<Key>, writes: set<Key>, deletes: set<Key>, theirs: set<Key>): set<Key> {
    Mine(it, writes) + (theirs - deletes - writes)
  }

  ghost predicate OnKeys(it: Option<Key>, writes: set<Key>) {
    it.Some? ==> it.value in writes
  }

  /** The parent's iterator stands on a key that shows through. */
  ghost predicate Ready(parentKey: Key, writes: set<Key>, deletes: set<Key>, theirs: set<Key>) {
    theirs != {} ==> IsLeast(theirs, parentKey) && parentKey !in deletes && parentKey !in writes
  }

  /** The smaller of the two current keys is chosen. */
  ghost predicate Decided(it: Option<Key>, parentKey: Key, curIsParent: bool, theirs: set<Key>) {
    it.Some? || theirs != {} ==> (curIsParent <==> theirs != {} && (it.None? || !Less(it.value, parentKey)))
  }

  lemma CurrentIsLeast(it: Option<Key>, parentKey: Key, curIsParent: bool, writes: set<Key>, deletes: set<Key>, theirs: set<Key>)
    requires OnKeys(it, writes) && Ready(parentKey, writes, deletes, theirs) && Decided(it, parentKey, curIsParent, theirs)
    ensures Ahead(it, writes, deletes, theirs) != {} <==> it.Some? || theirs != {}
    ensures it.Some? || theirs != {} ==>
      && (curIsParent ==> theirs != {} && IsLeast(Ahead(it, writes, deletes, theirs), parentKey))
      && (!curIsParent ==> it.Some? && IsLeast(Ahead(it, writes, deletes, theirs), it.value))
  {
    if it.Some? { FromLeast(writes, it.value); }
    if theirs != {} {
      assert IsLeast(theirs - deletes - writes, parentKey);
      if it.Some? { LeastOfBoth(Mine(it, writes), theirs - deletes - writes, it.value, parentKey); }
    }
  }

  lemma AheadParentSteps(it: Option<Key>, writes: set<Key>, deletes: set<Key>, theirs: set<Key>, k: Key)
    requires k in theirs && OnKeys(it, writes)
    ensures k in deletes || k in writes ==> Ahead(it, writes, deletes, theirs - {k}) == Ahead(it, writes, deletes, theirs)
    ensures k !in writes ==> Ahead(it, writes, deletes, theirs - {k}) == Ahead(it, writes, deletes, theirs) - {k}
  {
  }

  lemma AheadWritesStep(it: Option<Key>, next: Option<Key>, writes: set<Key>, deletes: set<Key>, theirs: set<Key>)
    requires it.Some? && it.value in writes && Stands(next, set k | k in writes && Less(it.value, k))
    ensures OnKeys(next, writes)
    ensures Ahead(next, writes, deletes, theirs) == Ahead(it, writes, deletes, theirs) - {it.value}
  {
    var after := set k | k in writes && Less(it.value, k);
    FromAfter(writes, it.value);
    assert after == From(writes, it.value) - {it.value};
    if next.Some? { FromNext(writes, it.value, next.value); }
  }

  lemma AheadSought(it: Option<Key>, under: map<Key, Value>, writes: map<Key, Value>, deletes: set<Key>, key: Key)
    requires writes.Keys !! deletes && Stands(it, From(writes.Keys, key))
    ensures OnKeys(it, writes.Keys)
    ensures Ahead(it, writes.Keys, deletes, From(under.Keys, key)) == From(Over(under, writes, deletes).Keys, key)
  {
    if it.Some? { FromBound(writes.Keys, key, it.value); }
  }

  /** Nothing is below the empty key. */
  lemma FromEmpty(s: set<Key>)
    ensures From(s, []) == s
  {
  }

  // ---------------------------------------------------------------- iterators

  /** Merges the cursor over a transaction's writes with the iterator of its parent. */
  class StoreIterator {
    const store: Store
    const parentIt: StoreIterator?
    var transactionIt: Option<Key>
    var parentKey: Key
    var curIsParent: bool

    /** A new iterator stands nowhere yet. */
    constructor (over: Store)
      requires over.Valid()
      ensures store == over && Grounded() && fresh(Line()) && Sound() && Rest() == {}
      decreases over.depth
    {
      store, transactionIt, parentKey, curIsParent := over, None, [], false;
      if over.parent == null {
        parentIt := null;
      } else {
        var under := new StoreIterator(over.parent);
        under.LineFacts();
        parentIt := under;
      }
      over.LineFacts();
      new;
      LineFacts();
    }

    ghost predicate Grounded()
      decreases store.depth
    {
      && store.Grounded()
      && (parentIt == null <==> store.parent == null)
      && (parentIt != null ==> parentIt.store == store.parent && parentIt.Grounded())
    }

    ghost function Line(): set<StoreIterator>
      requires Grounded()
      decreases store.depth
    {
      {this} + if parentIt == null then {} else parentIt.Line()
    }

    lemma {:induction false} LineFacts()
      requires Grounded()
      ensures forall i :: i in Line() ==> i.store.depth <= store.depth && allocated(i)
      ensures this in Line() && store.Grounded() && forall s :: s in store.Line() ==> allocated(s)
      ensures parentIt != null ==> this !in parentIt.Line() && parentIt.Line() <= Line()
      ensures parentIt != null ==> parentIt.store.Line() <= store.Line()
      ensures parentIt != null ==> forall i :: i in parentIt.Line() ==> allocated(i)
      ensures parentIt != null ==> forall s :: s in parentIt.store.Line() ==> allocated(s)
      decreases store.depth
    {
      store.LineFacts();
      if parentIt != null { parentIt.LineFacts(); }
    }

    /** What lies ahead of the parent's iterator. */
    ghost function Theirs(): set<Key>
      requires Grounded()
      reads if parentIt == null then {} else parentIt.Line(), store.Line()
      decreases store.depth, 0
    {
      if parentIt == null then {} else parentIt.Rest()
    }

    /** All keys still ahead, the current one included. */
    ghost function Rest(): set<Key>
      requires Grounded()
      reads Line(), store.Line()
      decreases store.depth, 1
    {
      Ahead(transactionIt, store.writes.Keys, store.deletes, Theirs())
    }

    ghost predicate ParentSound()
      requires Grounded()
      reads if parentIt == null then {} else parentIt.Line(), store.Line()
      decreases store.depth, 0
    {
      parentIt != null ==> parentIt.Sound()
    }

    ghost predicate Sound()
      requires Grounded()
      reads Line(), store.Line()
      decreases store.depth, 3
    {
      && OnKeys(transactionIt, store.writes.Keys)
      && Ready(parentKey, store.writes.Keys, store.deletes, Theirs())
      && Decided(transactionIt, parentKey, curIsParent, Theirs())
      && (parentIt != null ==> parentIt.Sound())
    }

    lemma Current()
      requires Grounded() && Sound()
      ensures Rest() != {} <==> transactionIt.Some? || Theirs() != {}
      ensures Rest() != {} ==>
        && (curIsParent ==> Theirs() != {} && IsLeast(Rest(), parentKey))
        && (!curIsParent ==> transactionIt.Some? && IsLeast(Rest(), transactionIt.value))
    {
      CurrentIsLeast(transactionIt, parentKey, curIsParent, store.writes.Keys, store.deletes, Theirs());
    }

    predicate HasCurrent()
      requires Grounded() && Sound()
      reads Line(), store.Line()
      ensures HasCurrent() <==> Rest() != {}
      decreases store.depth, 4
    {
      Current();
      transactionIt.Some? || (parentIt != null && parentIt.HasCurrent())
    }

    /** The current key is the least of those still ahead. */
    function GetKey(): (k: Key)
      requires Grounded() && Sound()
      reads Line(), store.Line()
      ensures Rest() != {} ==> IsLeast(Rest(), k)
    {
      Current();
      if !HasCurrent() then [] else if curIsParent then parentKey else transactionIt.value
    }

    /** Leaves the parent's iterator on the next key that shows through. */
    method SkipDeletedAndOverwritten()
      requires Grounded() && ParentSound() && OnKeys(transactionIt, store.writes.Keys)
      modifies Line()
      ensures ParentSound() && Ready(parentKey, store.writes.Keys, store.deletes, Theirs())
      ensures Rest() == old(Rest()) && transactionIt == old(transactionIt)
      decreases store.depth, 0
    {
      hide Ahead, IsLeast;
      if parentIt == null {
        return;
      }
      LineFacts();
      ghost var all := Rest();
      while parentIt.HasCurrent()
        invariant ParentSound() && Rest() == all && transactionIt == old(transactionIt)
        decreases |parentIt.Rest()|
      {
        parentKey := parentIt.GetKey();
        if parentKey !in store.deletes && parentKey !in store.writes {
          break;
        }
        LeastIn(parentIt.Rest(), parentKey);
        AheadParentSteps(transactionIt, store.writes.Keys, store.deletes, parentIt.Rest(), parentKey);
        parentIt.Next();
      }
    }

    static lemma LeastIn(s: set<Key>, m: Key)
      requires IsLeast(s, m)
      ensures m in s && |s - {m}| < |s|
    {
      assert s == (s - {m}) + {m};
    }

    method DecideCur()
      requires Grounded() && ParentSound() && OnKeys(transactionIt, store.writes.Keys)
      requires Ready(parentKey, store.writes.Keys, store.deletes, Theirs())
      modifies this
      ensures Sound() && Rest() == old(Rest()) && Theirs() == old(Theirs())
    {
      hide Ahead, IsLeast;
      LineFacts();
      var parentValid := parentIt != null && parentIt.HasCurrent();
      if transactionIt.Some? && !parentValid {
        curIsParent := false;
      } else if transactionIt.None? && parentValid {
        curIsParent := true;
      } else if transactionIt.Some? && parentValid {
        if Less(transactionIt.value, parentKey) {
          curIsParent := false;
        } else {
          curIsParent := true;
        }
      }
    }

    /** Passes over the current key and nothing else. */
    method Next()
      requires Grounded() && Sound()
      modifies Line()
      ensures Sound()
      ensures Rest() == if old(Rest()) == {} then {} else old(Rest()) - {old(GetKey())}
      decreases store.depth, 1
    {
      hide Ahead, IsLeast;
      LineFacts();
      Current();
      if !HasCurrent() {
        return;
      }
      if curIsParent {
        LeastUnique(parentIt.Rest(), parentKey, parentIt.GetKey());
        LeastIn(parentIt.Rest(), parentKey);
        AheadParentSteps(transactionIt, store.writes.Keys, store.deletes, parentIt.Rest(), parentKey);
        parentIt.Next();
        SkipDeletedAndOverwritten();
      } else {
        var at := transactionIt;
        transactionIt := First(set k | k in store.writes && Less(at.value, k));
        AheadWritesStep(at, transactionIt, store.writes.Keys, store.deletes, Theirs());
      }
      DecideCur();
    }

    /** What the parent shows. */
    ghost function Under(): map<Key, Value>
      requires Grounded()
      reads store.Line()
    {
      if store.parent == null then map[] else store.parent.View()
    }

    lemma RestIs()
      requires Grounded()
      ensures Rest() == Ahead(transactionIt, store.writes.Keys, store.deletes, Theirs())
      ensures Sound() ==> ParentSound()
    {
    }

    /** Only keys of the view lie ahead. */
    lemma {:induction false} RestShown()
      requires Grounded() && store.Valid()
      ensures Rest() <= store.View().Keys
      decreases store.depth
    {
      hide Less, Total, Weights;
      ViewIsOver();
      if parentIt != null { parentIt.RestShown(); }
    }

    lemma ViewIsOver()
      requires Grounded() && store.Valid()
      ensures store.View() == Over(Under(), store.writes, store.deletes)
      ensures store.writes.Keys !! store.deletes
    {
    }

    /** Seeks in the parent, where there is one. */
    method SeekParent(key: Key)
      requires Grounded() && ParentSound() && store.Valid()
      modifies if parentIt == null then {} else parentIt.Line()
      ensures ParentSound() && Theirs() == From(old(Under()).Keys, key)
      decreases store.depth, 0
    {
      hide Ahead, Over, Total, Weights, IsLeast;
      LineFacts();
      if parentIt != null {
        parentIt.Seek(key);
      }
    }

    /** The keys of the view not below `key` lie ahead. */
    method Seek(key: Key)
      requires Grounded() && Sound() && store.Valid()
      modifies Line()
      ensures Sound() && Rest() == From(store.View().Keys, key)
      decreases store.depth, 1
    {
      hide *;
      LineFacts();
      ViewIsOver();
      RestIs();
      ghost var shown := store.View();
      transactionIt := First(LowerBound(store.writes.Keys, key));
      AheadSought(transactionIt, Under(), store.writes, store.deletes, key);
      SeekParent(key);
      RestIs();
      assert Rest() == From(shown.Keys, key);
      SkipDeletedAndOverwritten();
      DecideCur();
      assert store.View() == shown;
    }

    static function LowerBound(keys: set<Key>, key: Key): (r: set<Key>)
      ensures r == From(keys, key)
    {
      set k | k in keys && !Less(k, key)
    }

    /** Starts the parent at its first key, where there is a parent. */
    method SeekParentToFirst()
      requires Grounded() && ParentSound() && store.Valid()
      modifies if parentIt == null then {} else parentIt.Line()
      ensures ParentSound() && Theirs() == old(Under()).Keys
      decreases store.depth, 0
    {
      hide Ahead, Over, Total, Weights, IsLeast;
      LineFacts();
      if parentIt != null {
        parentIt.SeekToFirst();
      }
    }

    /** All keys of the view lie ahead. */
    method SeekToFirst()
      requires Grounded() && Sound() && store.Valid()
      modifies Line()
      ensures Sound() && Rest() == store.View().Keys
      decreases store.depth, 1
    {
      hide *;
      LineFacts();
      ViewIsOver();
      RestIs();
      transactionIt := First(store.writes.Keys);
      FromEmpty(store.writes.Keys);
      FromEmpty(Under().Keys);
      ghost var shown := store.View();
      FromEmpty(shown.Keys);
      AheadSought(transactionIt, Under(), store.writes, store.deletes, []);
      SeekParentToFirst();
      RestIs();
      assert Rest() == shown.Keys;
      SkipDeletedAndOverwritten();
      DecideCur();
      assert store.View() == shown;
    }

    /** The value the view holds under the current key. */
    function GetValue(): (r: Option<Value>)
      requires Grounded() && Sound() && store.Valid()
      reads Line(), store.Line()
      ensures r == if Rest() != {} && GetKey() in store.View() then Some(store.View()[GetKey()]) else None
    {
      if !HasCurrent() then None else store.Read(GetKey())
    }

    /** From the first key on, the iterator shows the view: every key once, in increasing order, with its value. */
    method Enumerate() returns (keys: seq<Key>, values: seq<Value>)
      requires Grounded() && Sound() && store.Valid()
      modifies Line()
      ensures Listed(keys, values, {}, old(store.View()))
    {
      hide *;
      LineFacts();
      ghost var shown := store.View();
      SeekToFirst();
      Whole(shown);
      keys, values := EnumerateRest();
    }

    /** From a sought key on, the same for the keys of the view that are not below it. */
    method EnumerateFrom(key: Key) returns (keys: seq<Key>, values: seq<Value>)
      requires Grounded() && Sound() && store.Valid()
      modifies Line()
      ensures Listed(keys, values, {}, old(Only(store.View(), From(store.View().Keys, key))))
    {
      hide *;
      LineFacts();
      Seek(key);
      keys, values := EnumerateRest();
    }

    /** The loop over an iterator that was positioned. */
    method EnumerateRest() returns (keys: seq<Key>, values: seq<Value>)
      requires Grounded() && Sound() && store.Valid()
      modifies Line()
      ensures Listed(keys, values, {}, old(Only(store.View(), Rest())))
    {
      hide *;
      LineFacts();
      ghost var shown, contents := store.View(), Only(store.View(), Rest());
      keys, values := [], [];
      RestShown();
      ListedStart(shown, Rest());
      while HasCurrent()
        invariant Sound() && store.Valid() && store.View() == shown
        invariant Listed(keys, values, Rest(), contents)
        decreases |Rest()|
      {
        var k, v := GetKey(), GetValue();
        ghost var rest := Rest();
        LeastIn(rest, k);
        ListedStep(keys, values, rest, contents, k);
        OnlyAgrees(shown, old(Rest()), k);
        keys, values := keys + [k], values + [v.value];
        Next();
        assert Rest() == rest - {k};
      }
    }
  }

  /** The part of a map under some of its keys. */
  ghost function Only(m: map<Key, Value>, keys: set<Key>): map<Key, Value> { map k | k in m && k in keys :: m[k] }

  lemma Whole(m: map<Key, Value>)
    ensures Only(m, m.Keys) == m
  {
  }

  lemma OnlyAgrees(m: map<Key, Value>, keys: set<Key>, k: Key)
    requires k in Only(m, keys)
    ensures k in m && Only(m, keys)[k] == m[k]
  {
  }

  /** The pairs seen so far are sorted, lie below the rest, and make up the contents together with the rest. */
  ghost predicate Listed(keys: seq<Key>, values: seq<Value>, rest: set<Key>, contents: map<Key, Value>) {
    && |keys| == |values|
    && (set k | k in keys) + rest == contents.Keys
    && (forall i, j :: 0 <= i < j < |keys| ==> Less(keys[i], keys[j]))
    && (forall i, k :: 0 <= i < |keys| && k in rest ==> Less(keys[i], k))
    && (forall i :: 0 <= i < |keys| ==> keys[i] in contents && values[i] == contents[keys[i]])
  }

  lemma ListedStart(m: map<Key, Value>, rest: set<Key>)
    requires rest <= m.Keys
    ensures Listed([], [], rest, Only(m, rest))
  {
  }

  lemma ListedStep(keys: seq<Key>, values: seq<Value>, rest: set<Key>, contents: map<Key, Value>, k: Key)
    requires Listed(keys, values, rest, contents) && IsLeast(rest, k)
    ensures k in contents && Listed(keys + [k], values + [contents[k]], rest - {k}, contents)
  {
    assert k in contents.Keys;
    forall x ensures x in keys + [k] <==> x in keys || x == k {}
  }
}
