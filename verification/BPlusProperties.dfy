// What follows for a whole tree from the invariant of BPlusForest.
module BPlusProperties {
  import opened BPlusForest
  import opened BPlusTree

  // ----- no sharing, no cycles, one depth -----

  lemma SeparatorsGrow(x: Image, i: nat, j: nat)
    requires !x.isLeaf && Shape(x, |x.keys|) && i < j <= |x.keys| + 1
    ensures Sep(x, i) < Sep(x, j)
  {
    assert 0 < i && j <= |x.keys| ==> x.keys[i - 1] < x.keys[j - 1];
    assert j <= |x.keys| ==> x.lo < x.keys[j - 1];
    assert i > 0 ==> x.keys[i - 1] < x.hi;
  }

  // Every node but the root hangs at exactly one place, below the node its parent pointer names;
  // the root hangs nowhere, and a node is one level below its parent.
  lemma OnePlace(t: Index, n: Node, p: Node, i: nat, q: Node, j: nat)
    requires ValidTree(t) && n in t.nodes && p in t.nodes && q in t.nodes
    requires i < |t.nodes[p].children| && t.nodes[p].children[i] == n
    requires j < |t.nodes[q].children| && t.nodes[q].children[j] == n
    requires !t.nodes[p].isLeaf && !t.nodes[q].isLeaf
    ensures p == q == t.Parent(n) && i == j && n != t.root
    ensures t.nodes[n].level + 1 == t.nodes[p].level
  {
    assert Shape(t.nodes[p], t.cap) && Shape(t.nodes[q], t.cap);
    assert KidsOk(t, p, Nothing) && KidsOk(t, q, Nothing);
    assert ChildOk(t, p, i, Nothing) && ChildOk(t, q, j, Nothing);
    assert UpOk(t, n, Nothing);
    SeparatorsDiffer(t.nodes[t.Parent(n)], t.cap, i, j);
  }

  lemma SeparatorsDiffer(x: Image, cap: nat, i: nat, j: nat)
    requires Shape(x, cap) && !x.isLeaf && i <= |x.keys| && j <= |x.keys|
    ensures Sep(x, i) == Sep(x, j) ==> i == j
  {
    if i < j { SeparatorsGrow(x, i, j); } else if j < i { SeparatorsGrow(x, j, i); }
  }

  // The ancestors of n up to the root.
  ghost function Ancestors(t: Index, n: Node): seq<Node>
    requires ValidTree(t) && n in t.nodes
    decreases t.nodes[t.root].level - t.nodes[n].level
  {
    assert UpOk(t, n, Nothing);
    if n == t.root then [] else [t.Parent(n)] + Ancestors(t, t.Parent(n))
  }

  // Every node is reachable from the root, and all leaves lie equally deep.
  lemma {:induction false} Depth(t: Index, n: Node)
    requires ValidTree(t) && n in t.nodes
    ensures |Ancestors(t, n)| == t.nodes[t.root].level - t.nodes[n].level
    ensures n != t.root ==> Ancestors(t, n)[|Ancestors(t, n)| - 1] == t.root
    decreases t.nodes[t.root].level - t.nodes[n].level
  {
    assert UpOk(t, n, Nothing);
    if n != t.root { Depth(t, t.Parent(n)); }
  }

  // ----- the leaf chain -----

  // The first leaf, by descending to the first child.
  ghost function Leftmost(t: Index, n: Node): Node
    requires ValidTree(t) && n in t.nodes
    decreases t.nodes[n].level
  {
    if t.nodes[n].isLeaf then n
    else
      assert KidsOk(t, n, Nothing) && ChildOk(t, n, 0, Nothing);
      Leftmost(t, t.nodes[n].children[0])
  }

  lemma {:induction false} LeftmostIsLow(t: Index, n: Node)
    requires ValidTree(t) && n in t.nodes
    ensures var m := Leftmost(t, n); m in t.nodes && t.nodes[m].isLeaf && t.nodes[m].lo == t.nodes[n].lo
    decreases t.nodes[n].level
  {
    if !t.nodes[n].isLeaf {
      assert KidsOk(t, n, Nothing);
      assert ChildOk(t, n, 0, Nothing);
      LeftmostIsLow(t, t.nodes[n].children[0]);
    }
  }

  // The nodes met by following next for at most the given number of steps.
  ghost function Walk(t: Index, n: Node?, steps: nat): seq<Node> {
    if steps == 0 || n == null || n !in t.nodes then [] else [n] + Walk(t, t.nodes[n].next, steps - 1)
  }

  lemma {:induction false} WalkIsLeaves(t: Index, i: nat, steps: nat)
    requires LeavesOk(t) && i < |t.leaves| && steps >= |t.leaves| - i
    ensures Walk(t, t.leaves[i], steps) == t.leaves[i..]
    decreases steps
  {
    assert LinkOk(t, i);
    if i + 1 < |t.leaves| {
      WalkIsLeaves(t, i + 1, steps - 1);
    } else {
      assert Walk(t, null, steps - 1) == [];
    }
  }

  ghost function KeysOf(t: Index, ns: seq<Node>): seq<Key> {
    if ns == [] then []
    else (if ns[0] in t.nodes then t.nodes[ns[0]].keys else []) + KeysOf(t, ns[1..])
  }

  lemma {:induction false} KeysAfter(t: Index, i: nat)
    requires ValidTree(t) && i < |t.leaves|
    ensures t.leaves[i] in t.nodes
    ensures var ks := KeysOf(t, t.leaves[i..]);
      && Increasing(ks)
      && (forall k :: k in ks <==> k in t.contents && t.nodes[t.leaves[i]].lo <= k)
    decreases |t.leaves| - i
  {
    var n := t.leaves[i];
    assert LinkOk(t, i) && n in t.leaves && Holds(t, n) && Shape(t.nodes[n], t.cap);
    var x := t.nodes[n];
    forall k: Key ensures k in x.keys <==> k in t.contents && x.lo <= k < x.hi {
      assert k in t.contents && x.lo <= k < x.hi ==> HasKey(x, k);
    }
    assert t.leaves[i..][1..] == t.leaves[i + 1..];
    if i + 1 < |t.leaves| {
      KeysAfter(t, i + 1);
      var ks, rest := KeysOf(t, t.leaves[i..]), KeysOf(t, t.leaves[i + 1..]);
      assert ks == x.keys + rest;
      forall a, b | 0 <= a < b < |ks| ensures ks[a] < ks[b] {
        if a < |x.keys| <= b { assert ks[b] in rest; }
      }
    } else {
      assert KeysOf(t, t.leaves[i..]) == x.keys + [];
    }
  }

  // Following next from the leftmost leaf visits every leaf once and reads the keys of the map in
  // increasing order.
  lemma ScanReadsTheMap(t: Index, steps: nat)
    requires ValidTree(t) && steps >= |t.leaves|
    ensures var ns := Walk(t, Leftmost(t, t.root), steps);
      && (forall i, j :: 0 <= i < j < |ns| ==> ns[i] != ns[j])
      && (forall n :: n in ns <==> n in t.nodes && t.nodes[n].isLeaf)
      && Increasing(KeysOf(t, ns))
      && (forall k :: k in KeysOf(t, ns) <==> k in t.contents)
  {
    LeftmostIsLow(t, t.root);
    var m := Leftmost(t, t.root);
    assert Shape(t.nodes[m], t.cap);
    assert LinkOk(t, 0);
    assert t.leaves[0] in t.leaves && Shape(t.nodes[t.leaves[0]], t.cap);
    OneLeaf(t, m, t.leaves[0], INT_MIN);
    WalkIsLeaves(t, 0, steps);
    assert t.leaves[0..] == t.leaves;
    KeysAfter(t, 0);
    forall n | n in t.leaves ensures t.nodes[n].lo < t.nodes[n].hi { assert Shape(t.nodes[n], t.cap); }
    forall i, j | 0 <= i < j < |t.leaves| ensures t.leaves[i] != t.leaves[j] {
      LeavesApart(t, i, j);
      assert t.leaves[i] in t.leaves;
    }
  }

  // ----- how full a tree is -----

  ghost function KeysBetween(t: Index, lo: int, hi: int): set<Key> {
    set k: Key | k in t.contents && lo <= k < hi
  }

  function Power(b: nat, e: nat): nat {
    if e == 0 then 1 else b * Power(b, e - 1)
  }

  // The fewest keys below a node of the given level that is not the root.
  function Fewest(cap: nat, level: nat): nat {
    Power(MinKeys(false, cap) + 1, level) * MinKeys(true, cap)
  }

  lemma CountApart(t: Index, lo: int, mid: int, hi: int)
    requires lo <= mid <= hi
    ensures |KeysBetween(t, lo, hi)| == |KeysBetween(t, lo, mid)| + |KeysBetween(t, mid, hi)|
  {
    assert KeysBetween(t, lo, hi) == KeysBetween(t, lo, mid) + KeysBetween(t, mid, hi);
    assert KeysBetween(t, lo, mid) !! KeysBetween(t, mid, hi);
  }

  ghost function KeySet(ks: seq<Key>): set<Key> {
    set k | k in ks
  }

  lemma {:induction false} DistinctCount(ks: seq<Key>)
    requires Increasing(ks)
    ensures |KeySet(ks)| == |ks|
  {
    if ks == [] {
      assert KeySet(ks) == {};
    } else {
      var m := |ks| - 1;
      DistinctCount(ks[..m]);
      assert KeySet(ks) == KeySet(ks[..m]) + {ks[m]};
    }
  }

  lemma FewestStep(cap: nat, level: nat)
    ensures Fewest(cap, level + 1) == (MinKeys(false, cap) + 1) * Fewest(cap, level)
  {
    var b, e, m := MinKeys(false, cap) + 1, Power(MinKeys(false, cap) + 1, level), MinKeys(true, cap);
    assert (b * e) * m == b * (e * m);
  }

  lemma TimesGrows(m: nat, n: nat, f: nat)
    requires m <= n
    ensures m * f <= n * f
  {
    assert n * f == m * f + (n - m) * f;
  }

  lemma KeysInLeaf(t: Index, n: Node)
    requires ValidTree(t) && n in t.nodes && n != t.root && t.nodes[n].isLeaf
    ensures |KeysBetween(t, t.nodes[n].lo, t.nodes[n].hi)| >= Fewest(t.cap, t.nodes[n].level)
  {
    var x := t.nodes[n];
    assert Shape(x, t.cap) && Filled(t, n) && Holds(t, n);
    DistinctCount(x.keys);
    forall k | k in KeysBetween(t, x.lo, x.hi) ensures k in x.keys { assert HasKey(x, k); }
    assert KeysBetween(t, x.lo, x.hi) == KeySet(x.keys);
  }

  lemma {:induction false} KeysBelow(t: Index, n: Node)
    requires ValidTree(t) && n in t.nodes && n != t.root
    ensures |KeysBetween(t, t.nodes[n].lo, t.nodes[n].hi)| >= Fewest(t.cap, t.nodes[n].level)
    decreases t.nodes[n].level, 1, 0
  {
    var x := t.nodes[n];
    if x.isLeaf {
      KeysInLeaf(t, n);
    } else {
      assert Shape(x, t.cap) && Filled(t, n);
      KeysBelowKids(t, n, |x.keys| + 1);
      FewestStep(t.cap, x.level - 1);
      TimesGrows(MinKeys(false, t.cap) + 1, |x.keys| + 1, Fewest(t.cap, x.level - 1));
    }
  }

  lemma {:induction false} KeysBelowKids(t: Index, n: Node, i: nat)
    requires ValidTree(t) && n in t.nodes && !t.nodes[n].isLeaf && i <= |t.nodes[n].keys| + 1
    ensures t.nodes[n].level > 0
    ensures |KeysBetween(t, t.nodes[n].lo, Sep(t.nodes[n], i))| >= i * Fewest(t.cap, t.nodes[n].level - 1)
    decreases t.nodes[n].level, 0, i
  {
    var x := t.nodes[n];
    assert Shape(x, t.cap);
    if i > 0 {
      KeysBelowKids(t, n, i - 1);
      assert KidsOk(t, n, Nothing);
      assert ChildOk(t, n, i - 1, Nothing);
      var c := x.children[i - 1];
      assert UpOk(t, c, Nothing) && UpOk(t, t.root, Nothing);
      KeysBelow(t, c);
      if i > 1 { SeparatorsGrow(x, 0, i - 1); }
      SeparatorsGrow(x, i - 1, i);
      CountApart(t, x.lo, Sep(x, i - 1), Sep(x, i));
      var f := Fewest(t.cap, x.level - 1);
      assert (i - 1) * f + f == i * f;
    }
  }

  // A tree whose leaves are h levels below the root holds exponentially many keys, so descent, which
  // takes h steps, is logarithmic.
  lemma HeightBound(t: Index)
    requires ValidTree(t) && t.nodes[t.root].level >= 1
    ensures |t.contents| >= 2 * Fewest(t.cap, t.nodes[t.root].level - 1)
  {
    var x := t.nodes[t.root];
    assert Shape(x, t.cap) && Filled(t, t.root);
    KeysBelowKids(t, t.root, |x.keys| + 1);
    assert KeysBetween(t, INT_MIN, INT_END) == t.contents.Keys;
    assert |t.contents.Keys| == |t.contents|;
    TimesGrows(2, |x.keys| + 1, Fewest(t.cap, x.level - 1));
  }

  // With the three keys per node of the source: 2^(h + 1) keys for h levels.
  lemma HeightBoundOrderFour(t: Index)
    requires ValidTree(t) && t.cap == 3 && t.nodes[t.root].level >= 1
    ensures |t.contents| >= Power(2, t.nodes[t.root].level + 1)
  {
    HeightBound(t);
    var h := t.nodes[t.root].level;
    assert Power(2, h + 1) == 2 * Power(2, h) && Power(2, h) == 2 * Power(2, h - 1);
  }

  // ----- sequences of inserts -----

  // The map after a sequence of inserts: each key keeps the reference stored last.
  function Stored(was: map<Key, RecordRef>, ops: seq<(Key, RecordRef)>): map<Key, RecordRef>
    decreases |ops|
  {
    if ops == [] then was else Stored(was, ops[..|ops| - 1])[ops[|ops| - 1].0 := ops[|ops| - 1].1]
  }

  // Insert i is the last one of its key.
  predicate LastOf(ops: seq<(Key, RecordRef)>, i: nat) {
    i < |ops| && forall j :: i < j < |ops| ==> ops[j].0 != ops[i].0
  }

  lemma {:induction false} StoredIsLast(was: map<Key, RecordRef>, ops: seq<(Key, RecordRef)>, i: nat)
    requires LastOf(ops, i)
    ensures ops[i].0 in Stored(was, ops) && Stored(was, ops)[ops[i].0] == ops[i].1
    decreases |ops|
  {
    if i < |ops| - 1 {
      StoredIsLast(was, ops[..|ops| - 1], i);
    }
  }

  lemma {:induction false} StoredElsewhere(was: map<Key, RecordRef>, ops: seq<(Key, RecordRef)>, k: Key)
    requires forall i :: 0 <= i < |ops| ==> ops[i].0 != k
    ensures k in Stored(was, ops) <==> k in was
    ensures k in was ==> Stored(was, ops)[k] == was[k]
    decreases |ops|
  {
    if ops != [] {
      StoredElsewhere(was, ops[..|ops| - 1], k);
    }
  }

  lemma {:induction false} HasLast(ops: seq<(Key, RecordRef)>, n: nat, k: Key)
    requires n <= |ops| && forall j :: n <= j < |ops| ==> ops[j].0 != k
    requires exists i :: 0 <= i < |ops| && ops[i].0 == k
    ensures exists i: nat :: LastOf(ops, i) && ops[i].0 == k
    decreases n
  {
    if ops[n - 1].0 == k { assert LastOf(ops, n - 1); } else { HasLast(ops, n - 1, k); }
  }

  // Any number of calls of btree_insert, on any valid tree.
  method InsertAll(tree: Tree, ops: seq<(Key, RecordRef)>)
    requires tree.Valid()
    modifies tree, tree.t.nodes.Keys
    ensures tree.Valid() && fresh(tree.t.nodes.Keys - old(tree.t.nodes.Keys))
    ensures tree.t.contents == Stored(old(tree.t.contents), ops)
  {
    assert ops[..0] == [];
    for i := 0 to |ops|
      modifies tree, tree.t.nodes.Keys
      invariant tree.Valid() && fresh(tree.t.nodes.Keys - old(tree.t.nodes.Keys))
      invariant tree.t.contents == Stored(old(tree.t.contents), ops[..i])
    {
      assert ops[..i + 1][..i] == ops[..i];
      tree.Insert(ops[i].0, ops[i].1.pageId, ops[i].1.slotId);
    }
    assert ops[..|ops|] == ops;
  }

  // What a search finds after any sequence of inserts into a new tree of any node size: a key exactly
  // if it was inserted, with the reference of its last insert.
  method SearchAfterInserts(cap: nat, ops: seq<(Key, RecordRef)>, key: Key) returns (found: bool, result: RecordRef)
    requires cap >= 2
    ensures found <==> exists i :: 0 <= i < |ops| && ops[i].0 == key
    ensures found ==> exists i: nat :: LastOf(ops, i) && ops[i].0 == key && ops[i].1 == result
  {
    var tree := new Tree(cap);
    InsertAll(tree, ops);
    found, result := tree.Search(key);
    if exists i :: 0 <= i < |ops| && ops[i].0 == key {
      HasLast(ops, |ops|, key);
      ghost var i: nat :| LastOf(ops, i) && ops[i].0 == key;
      StoredIsLast(map[], ops, i);
    } else {
      StoredElsewhere(map[], ops, key);
    }
  }
}
