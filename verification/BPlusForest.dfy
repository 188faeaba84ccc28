// What a B+ tree is, stated on a snapshot of its nodes: every node maps to an image of its
// fields.  The heap code in BPlusTree.dfy is proved against the steps defined here.
module BPlusForest {

  const INT_MIN := -0x8000_0000
  const INT_END := 0x8000_0000

  // A C int.
  type Key = k: int | INT_MIN <= k < INT_END

  datatype RecordRef = RecordRef(pageId: int, slotId: int)

  // The arrays of the C struct are stored inside the struct and have no identity of their own;
  // they are fields of type seq whose length never changes.
  class Node {
    const isLeaf: bool
    var numKeys: nat
    var keys: seq<Key>
    var children: seq<Node?>
    var records: seq<RecordRef>
    var parent: Node?
    var next: Node?
    ghost const level: nat     // distance to the leaves
    ghost const lo: int        // the node is responsible for the keys in [lo, hi)
    ghost var hi: int

    constructor (isLeaf: bool, cap: nat, ghost level: nat, ghost lo: int, ghost hi: int)
      ensures this.isLeaf == isLeaf && this.level == level && this.lo == lo && this.hi == hi
      ensures numKeys == 0 && |keys| == |records| == cap && |children| == cap + 1
      ensures parent == null && next == null
    {
      this.isLeaf := isLeaf;
      numKeys := 0;
      keys := seq(cap, _ => 0);
      children := seq(cap + 1, _ => null);
      records := seq(cap, _ => RecordRef(0, 0));
      parent := null;
      next := null;
      this.level := level;
      this.lo := lo;
      this.hi := hi;
    }

    // The node's arrays have their fixed lengths, and x is the part of its fields that is in use.
    ghost predicate Shows(cap: nat, x: Image)
      reads this`numKeys, this`keys, this`children, this`records, this`next, this`hi
    {
      && numKeys <= |keys| == |records| == cap && |children| == cap + 1
      && x.isLeaf == isLeaf && x.level == level && x.lo == lo && x.hi == hi
      && x.keys == keys[..numKeys]
      && x.children == (if isLeaf then [] else children[..numKeys + 1])
      && x.records == (if isLeaf then records[..numKeys] else [])
      && x.next == next
    }
  }

  datatype Image = Image(isLeaf: bool, level: nat, lo: int, hi: int, keys: seq<Key>,
                         children: seq<Node?>, records: seq<RecordRef>, next: Node?)

  type Forest = map<Node, Image>

  // A tree: its nodes and their parents, its leaves from left to right, and the map it stores.
  datatype Index = Index(cap: nat, root: Node, nodes: Forest, up: map<Node, Node?>,
                         leaves: seq<Node>, contents: map<Key, RecordRef>)
  {
    function Parent(n: Node): Node? {
      if n in up then up[n] else null
    }
  }

  function InsertAt<T>(s: seq<T>, p: nat, x: T): (r: seq<T>)
    requires p <= |s|
    ensures |r| == |s| + 1 && r[p] == x
    ensures forall i :: 0 <= i < p ==> r[i] == s[i]
    ensures forall i :: p < i <= |s| ==> r[i] == s[i - 1]
  {
    s[..p] + [x] + s[p..]
  }

  lemma IsInsertAt<T>(r: seq<T>, s: seq<T>, p: nat, x: T)
    requires p <= |s| && |r| == |s| + 1 && r[p] == x
    requires forall i :: 0 <= i < p ==> r[i] == s[i]
    requires forall i :: p < i <= |s| ==> r[i] == s[i - 1]
    ensures r == InsertAt(s, p, x)
  {
  }

  // The first i entries of s, with x among them once it has been put in.
  ghost function Mixed<T>(s: seq<T>, i: nat, p: nat, x: T, inserted: bool): seq<T>
    requires i <= |s| && (inserted ==> p <= i)
  {
    if inserted then s[..p] + [x] + s[p..i] else s[..i]
  }

  lemma MixedAll<T>(s: seq<T>, p: nat, x: T)
    requires p <= |s|
    ensures Mixed(s, |s|, p, x, true) == InsertAt(s, p, x)
  {
  }

  lemma MixedPut<T>(s: seq<T>, i: nat, x: T)
    requires i <= |s|
    ensures Mixed(s, i, i, x, true) == Mixed(s, i, i, x, false) + [x]
  {
  }

  lemma MixedNext<T>(s: seq<T>, i: nat, p: nat, x: T, inserted: bool)
    requires i < |s| && (inserted ==> p <= i)
    ensures Mixed(s, i + 1, p, x, inserted) == Mixed(s, i, p, x, inserted) + [s[i]]
  {
    assert s[..i + 1] == s[..i] + [s[i]];
  }

  // The first n entries have been moved up by one from p on, and x put in the gap.
  lemma ShiftedUp<T>(now: seq<T>, was: seq<T>, n: nat, p: nat, x: T)
    requires p <= n < |now| && n <= |was| && now[p] == x
    requires forall i :: 0 <= i < p ==> now[i] == was[i]
    requires forall i :: p < i <= n ==> now[i] == was[i - 1]
    ensures now[..n + 1] == InsertAt(was[..n], p, x)
  {
  }

  lemma EntriesOf<T>(s: seq<T>, p: nat, x: T)
    requires p <= |s|
    ensures forall y :: y in InsertAt(s, p, x) ==> y in s || y == x
  {
  }

  lemma Prefix<T>(s: seq<T>, i: nat)
    requires i <= |s|
    ensures s[0..i] == s[..i] && s[i..] == s[i..|s|] && s == s[..i] + s[i..]
    ensures forall y :: y in s[..i] ==> y in s
    ensures forall y :: y in s[i..] ==> y in s
  {
  }

  predicate Increasing(s: seq<Key>) {
    forall i, j :: 0 <= i < j < |s| ==> s[i] < s[j]
  }

  lemma InsertIncreasing(s: seq<Key>, p: nat, x: Key)
    requires Increasing(s) && p <= |s|
    requires p > 0 ==> s[p - 1] < x
    requires p < |s| ==> x < s[p]
    ensures Increasing(InsertAt(s, p, x))
  {
    var r := InsertAt(s, p, x);
    forall i, j | 0 <= i < j < |r| ensures r[i] < r[j] {
      assert i < p ==> r[i] == s[i];
      assert p < i ==> r[i] == s[i - 1];
      assert j < p ==> r[j] == s[j];
      assert p < j ==> r[j] == s[j - 1];
    }
  }

  // ----- what must hold of one node -----

  ghost predicate Shape(x: Image, cap: nat) {
    && |x.keys| <= cap
    && (if x.isLeaf then x.level == 0 && |x.records| == |x.keys| else x.level > 0 && |x.children| == |x.keys| + 1)
    && INT_MIN <= x.lo < x.hi <= INT_END
    && Increasing(x.keys)
    && (forall i :: 0 <= i < |x.keys| ==> (if x.isLeaf then x.lo <= x.keys[i] else x.lo < x.keys[i]) && x.keys[i] < x.hi)
  }

  function MinKeys(isLeaf: bool, cap: nat): nat {
    if isLeaf then (cap + 1) / 2 else cap - (cap + 1) / 2
  }

  ghost predicate Filled(t: Index, n: Node)
    requires n in t.nodes
  {
    if n == t.root then !t.nodes[n].isLeaf ==> |t.nodes[n].keys| >= 1
    else |t.nodes[n].keys| >= MinKeys(t.nodes[n].isLeaf, t.cap)
  }

  // Child i of an internal node is responsible for [Sep(i), Sep(i + 1)).
  ghost function Sep(x: Image, i: nat): int
    requires i <= |x.keys| + 1
  {
    if i == 0 then x.lo else if i == |x.keys| + 1 then x.hi else x.keys[i - 1]
  }

  ghost predicate IsChild(x: Image, c: Node) {
    exists i :: 0 <= i < |x.children| && x.children[i] == c
  }

  // While the new right half of a node waits to be entered into the level above, the left half
  // answers, up to the right half's bound, for both.
  datatype Waiting = Nothing | Halves(left: Node, right: Node)

  ghost predicate WaitingOk(t: Index, w: Waiting) {
    w.Halves? ==>
      && w.left in t.nodes && w.right in t.nodes && w.left != w.right && w.right != t.root
      && var x, y := t.nodes[w.left], t.nodes[w.right];
      && x.level == y.level && x.hi == y.lo && t.Parent(w.left) == t.Parent(w.right)
      && |x.keys| >= MinKeys(x.isLeaf, t.cap)
  }

  ghost function PromisedHi(t: Index, c: Node, w: Waiting): int
    requires c in t.nodes && WaitingOk(t, w)
  {
    if w.Halves? && c == w.left then t.nodes[w.right].hi else t.nodes[c].hi
  }

  ghost predicate ChildOk(t: Index, p: Node, i: nat, w: Waiting)
    requires p in t.nodes && WaitingOk(t, w)
  {
    var x := t.nodes[p];
    && i <= |x.keys| && i < |x.children|
    && var c := x.children[i];
    && c != null && c in t.nodes
    && var y := t.nodes[c];
    && t.Parent(c) == p && y.level + 1 == x.level
    && y.lo == Sep(x, i) && PromisedHi(t, c, w) == Sep(x, i + 1)
  }

  ghost predicate KidsOk(t: Index, p: Node, w: Waiting)
    requires p in t.nodes && WaitingOk(t, w)
  {
    forall i {:trigger ChildOk(t, p, i, w)} :: 0 <= i <= |t.nodes[p].keys| ==> ChildOk(t, p, i, w)
  }

  ghost predicate UpOk(t: Index, n: Node, w: Waiting)
    requires n in t.nodes && t.root in t.nodes
  {
    var x := t.nodes[n];
    var q := t.Parent(n);
    if n == t.root then q == null
    else
      && x.level <= t.nodes[t.root].level
      && ((w.Halves? && n == w.right) ||
          (q != null && q in t.nodes && !t.nodes[q].isLeaf
           && t.nodes[q].level == x.level + 1 && x.level < t.nodes[t.root].level && IsChild(t.nodes[q], n)))
  }

  ghost predicate HasKey(x: Image, k: Key) {
    exists i :: 0 <= i < |x.keys| && x.keys[i] == k
  }

  // A leaf stores exactly the part of the map that lies in its interval.
  ghost predicate Holds(t: Index, n: Node)
    requires n in t.nodes
  {
    var x := t.nodes[n];
    && |x.records| == |x.keys|
    && (forall i :: 0 <= i < |x.keys| ==> x.keys[i] in t.contents && t.contents[x.keys[i]] == x.records[i])
    && (forall k: Key :: k in t.contents && x.lo <= k < x.hi ==> HasKey(x, k))
  }

  // The leaves are linked from left to right and their intervals follow one another.
  ghost predicate LinkOk(t: Index, i: nat) {
    && i < |t.leaves| && t.leaves[i] in t.nodes
    && var x := t.nodes[t.leaves[i]];
    && (i == 0 ==> x.lo == INT_MIN)
    && if i + 1 == |t.leaves| then x.hi == INT_END && x.next == null
       else t.leaves[i + 1] in t.nodes && x.next == t.leaves[i + 1] && x.hi == t.nodes[t.leaves[i + 1]].lo
  }

  // ----- the invariant -----

  ghost predicate ShapesOk(t: Index) {
    && (forall n {:trigger Shape(t.nodes[n], t.cap)} :: n in t.nodes ==> Shape(t.nodes[n], t.cap))
    && (forall n {:trigger Filled(t, n)} :: n in t.nodes ==> Filled(t, n))
  }

  ghost predicate UpsOk(t: Index, w: Waiting) {
    && t.root in t.nodes && t.up.Keys == t.nodes.Keys
    && forall n {:trigger UpOk(t, n, w)} :: n in t.nodes ==> UpOk(t, n, w)
  }

  ghost predicate DownsOk(t: Index, w: Waiting) {
    && WaitingOk(t, w)
    && forall n {:trigger KidsOk(t, n, w)} :: n in t.nodes && !t.nodes[n].isLeaf ==> KidsOk(t, n, w)
  }

  ghost predicate LeavesOk(t: Index) {
    && |t.leaves| > 0
    && (forall n {:trigger n in t.leaves} :: n in t.leaves ==> n in t.nodes && t.nodes[n].isLeaf)
    && (forall n {:trigger n in t.leaves} :: n in t.nodes && t.nodes[n].isLeaf ==> n in t.leaves)
    && (forall n {:trigger Holds(t, n)} :: n in t.nodes && t.nodes[n].isLeaf ==> Holds(t, n))
    && (forall i {:trigger LinkOk(t, i)} :: 0 <= i < |t.leaves| ==> LinkOk(t, i))
  }

  ghost predicate Inv(t: Index, w: Waiting) {
    && t.cap >= 2
    && ShapesOk(t) && UpsOk(t, w) && DownsOk(t, w) && LeavesOk(t)
    && t.nodes[t.root].lo == INT_MIN && PromisedHi(t, t.root, w) == INT_END
  }

  // A complete tree: nothing is waiting.
  ghost predicate ValidTree(t: Index) {
    Inv(t, Nothing)
  }

  // ----- growing a new root -----

  ghost function NewRootImage(level: nat, left: Node, key: Key, right: Node): Image {
    Image(false, level, INT_MIN, INT_END, [key], [left, right], [], null)
  }

  ghost function GrowRoot(t: Index, left: Node, key: Key, right: Node, newRoot: Node): Index
    requires left in t.nodes && right in t.nodes
  {
    t.(root := newRoot,
       nodes := t.nodes[newRoot := NewRootImage(t.nodes[left].level + 1, left, key, right)],
       up := t.up[left := newRoot][right := newRoot][newRoot := null])
  }

  lemma GrowRootShapes(t: Index, left: Node, key: Key, right: Node, newRoot: Node)
    requires Inv(t, Halves(left, right)) && newRoot !in t.nodes
    requires t.root == left && key == t.nodes[right].lo
    ensures ShapesOk(GrowRoot(t, left, key, right, newRoot))
  {
    var u := GrowRoot(t, left, key, right, newRoot);
    assert Shape(t.nodes[left], t.cap) && Shape(t.nodes[right], t.cap);
    forall n | n in u.nodes ensures Shape(u.nodes[n], u.cap) && Filled(u, n) {
      if n in t.nodes { assert Shape(t.nodes[n], t.cap) && Filled(t, n); }
    }
  }

  lemma GrowRootUps(t: Index, left: Node, key: Key, right: Node, newRoot: Node)
    requires Inv(t, Halves(left, right)) && newRoot !in t.nodes
    requires t.root == left && key == t.nodes[right].lo
    ensures UpsOk(GrowRoot(t, left, key, right, newRoot), Nothing)
  {
    var u := GrowRoot(t, left, key, right, newRoot);
    assert u.nodes[newRoot].children[0] == left && u.nodes[newRoot].children[1] == right;
    forall n | n in u.nodes ensures UpOk(u, n, Nothing) {
      if n in t.nodes {
        assert UpOk(t, n, Halves(left, right));
        if n != left && n != right { assert IsChild(t.nodes[t.Parent(n)], n); }
      }
    }
  }

  lemma GrowRootDowns(t: Index, left: Node, key: Key, right: Node, newRoot: Node)
    requires Inv(t, Halves(left, right)) && newRoot !in t.nodes
    requires t.root == left && key == t.nodes[right].lo
    ensures DownsOk(GrowRoot(t, left, key, right, newRoot), Nothing)
  {
    var u, w := GrowRoot(t, left, key, right, newRoot), Halves(left, right);
    assert UpOk(t, left, w);
    forall n | n in u.nodes && !u.nodes[n].isLeaf ensures KidsOk(u, n, Nothing) {
      if n in t.nodes {
        assert KidsOk(t, n, w);
        forall i | 0 <= i <= |u.nodes[n].keys| ensures ChildOk(u, n, i, Nothing) {
          assert ChildOk(t, n, i, w);
        }
      } else {
        assert ChildOk(u, n, 0, Nothing) && ChildOk(u, n, 1, Nothing);
      }
    }
  }

  lemma GrowRootLeaves(t: Index, left: Node, key: Key, right: Node, newRoot: Node)
    requires Inv(t, Halves(left, right)) && newRoot !in t.nodes
    ensures LeavesOk(GrowRoot(t, left, key, right, newRoot))
  {
    var u := GrowRoot(t, left, key, right, newRoot);
    forall n | n in u.nodes && u.nodes[n].isLeaf ensures Holds(u, n) { assert Holds(t, n); }
    forall i | 0 <= i < |u.leaves| ensures LinkOk(u, i) { assert LinkOk(t, i); }
  }

  lemma GrowRootValid(t: Index, left: Node, key: Key, right: Node, newRoot: Node)
    requires Inv(t, Halves(left, right)) && newRoot !in t.nodes
    requires t.Parent(left) == null && key == t.nodes[right].lo
    ensures ValidTree(GrowRoot(t, left, key, right, newRoot))
  {
    assert UpOk(t, left, Halves(left, right));
    GrowRootShapes(t, left, key, right, newRoot);
    GrowRootUps(t, left, key, right, newRoot);
    GrowRootDowns(t, left, key, right, newRoot);
    GrowRootLeaves(t, left, key, right, newRoot);
  }

  // ----- entering the waiting half into a parent with room -----

  ghost function Enter(t: Index, parent: Node, at: nat, key: Key, right: Node): Index
    requires parent in t.nodes && right in t.nodes && parent != right
    requires at <= |t.nodes[parent].keys| && at < |t.nodes[parent].children|
  {
    var x := t.nodes[parent];
    t.(nodes := t.nodes[parent := x.(keys := InsertAt(x.keys, at, key), children := InsertAt(x.children, at + 1, right))],
       up := t.up[right := parent])
  }

  // What the caller of Enter and Split knows: left is the at-th child of its parent.
  ghost predicate Sited(t: Index, parent: Node, at: nat, left: Node, key: Key, right: Node) {
    && Inv(t, Halves(left, right)) && key == t.nodes[right].lo
    && t.Parent(left) == parent && parent in t.nodes && !t.nodes[parent].isLeaf
    && parent != right && parent != left
    && at <= |t.nodes[parent].keys| && at < |t.nodes[parent].children| && t.nodes[parent].children[at] == left
  }

  // The separator falls strictly between its neighbours.
  lemma SeparatorFits(t: Index, parent: Node, at: nat, left: Node, key: Key, right: Node)
    requires Sited(t, parent, at, left, key, right)
    ensures var x := t.nodes[parent];
      && x.lo < key < x.hi && |x.children| == |x.keys| + 1
      && Sep(x, at) < key < Sep(x, at + 1)
      && t.nodes[left].lo == Sep(x, at) && t.nodes[right].hi == Sep(x, at + 1)
      && t.nodes[left].hi == key
      && x.level == t.nodes[left].level + 1
      && Increasing(InsertAt(x.keys, at, key))
  {
    var w := Halves(left, right);
    var x := t.nodes[parent];
    assert Shape(x, t.cap) && Shape(t.nodes[left], t.cap) && Shape(t.nodes[right], t.cap);
    assert KidsOk(t, parent, w);
    assert ChildOk(t, parent, at, w);
    InsertIncreasing(x.keys, at, key);
  }

  // Every other child of every node has bounds of its own.
  lemma OtherChildren(t: Index, parent: Node, at: nat, left: Node, key: Key, right: Node, p: Node, i: nat)
    requires Sited(t, parent, at, left, key, right)
    requires p in t.nodes && !t.nodes[p].isLeaf && i <= |t.nodes[p].keys|
    ensures ChildOk(t, p, i, Halves(left, right))
    ensures var c := t.nodes[p].children[i]; c != right && (c == left <==> p == parent && i == at)
  {
    var w := Halves(left, right);
    SeparatorFits(t, parent, at, left, key, right);
    assert KidsOk(t, p, w) && ChildOk(t, p, i, w);
    assert KidsOk(t, parent, w) && Shape(t.nodes[p], t.cap);
    if p == parent && i != at {
      var x := t.nodes[parent];
      assert i < at ==> i + 1 == at || x.keys[i] < x.keys[at - 1];
      assert i > at ==> i == at + 1 || x.keys[at] < x.keys[i - 1];
    }
  }

  lemma EnterShapes(t: Index, parent: Node, at: nat, left: Node, key: Key, right: Node)
    requires Sited(t, parent, at, left, key, right) && |t.nodes[parent].keys| < t.cap
    ensures ShapesOk(Enter(t, parent, at, key, right))
  {
    var u := Enter(t, parent, at, key, right);
    SeparatorFits(t, parent, at, left, key, right);
    forall n | n in u.nodes ensures Shape(u.nodes[n], u.cap) && Filled(u, n) {
      assert Shape(t.nodes[n], t.cap) && Filled(t, n);
    }
  }

  lemma EnterUps(t: Index, parent: Node, at: nat, left: Node, key: Key, right: Node)
    requires Sited(t, parent, at, left, key, right)
    ensures UpsOk(Enter(t, parent, at, key, right), Nothing)
  {
    var u, w := Enter(t, parent, at, key, right), Halves(left, right);
    SeparatorFits(t, parent, at, left, key, right);
    assert u.nodes[parent].children[at + 1] == right;
    assert UpOk(t, left, w) && UpOk(t, parent, w);
    forall n | n in u.nodes ensures UpOk(u, n, Nothing) {
      assert UpOk(t, n, w);
      if n != t.root && n != right && t.Parent(n) == parent {
        var i :| 0 <= i < |t.nodes[parent].children| && t.nodes[parent].children[i] == n;
        assert u.nodes[parent].children[if i <= at then i else i + 1] == n;
      }
    }
  }

  lemma EnterDowns(t: Index, parent: Node, at: nat, left: Node, key: Key, right: Node)
    requires Sited(t, parent, at, left, key, right)
    ensures DownsOk(Enter(t, parent, at, key, right), Nothing)
  {
    var u, w := Enter(t, parent, at, key, right), Halves(left, right);
    SeparatorFits(t, parent, at, left, key, right);
    forall n | n in u.nodes && !u.nodes[n].isLeaf ensures KidsOk(u, n, Nothing) {
      forall i | 0 <= i <= |u.nodes[n].keys| ensures ChildOk(u, n, i, Nothing) {
        if n == parent && i == at + 1 {
        } else {
          OtherChildren(t, parent, at, left, key, right, n, if n != parent || i <= at then i else i - 1);
        }
      }
    }
  }

  lemma EnterLeaves(t: Index, parent: Node, at: nat, left: Node, key: Key, right: Node)
    requires Sited(t, parent, at, left, key, right)
    ensures LeavesOk(Enter(t, parent, at, key, right))
  {
    var u := Enter(t, parent, at, key, right);
    forall n | n in u.nodes && u.nodes[n].isLeaf ensures Holds(u, n) { assert Holds(t, n); }
    forall i | 0 <= i < |u.leaves| ensures LinkOk(u, i) { assert LinkOk(t, i); }
  }

  lemma EnterValid(t: Index, parent: Node, at: nat, left: Node, key: Key, right: Node)
    requires Sited(t, parent, at, left, key, right) && |t.nodes[parent].keys| < t.cap
    ensures ValidTree(Enter(t, parent, at, key, right))
  {
    assert UpOk(t, left, Halves(left, right));
    EnterShapes(t, parent, at, left, key, right);
    EnterUps(t, parent, at, left, key, right);
    EnterDowns(t, parent, at, left, key, right);
    EnterLeaves(t, parent, at, left, key, right);
  }

  // ----- dividing an internal node that has one key too many -----

  // A complete tree except that p holds cap + 1 keys.
  ghost predicate Crowded(t: Index, p: Node) {
    && t.cap >= 2 && p in t.nodes
    && |t.nodes[p].keys| == t.cap + 1 && Shape(t.nodes[p], t.cap + 1)
    && (forall n {:trigger Shape(t.nodes[n], t.cap)} :: n in t.nodes && n != p ==> Shape(t.nodes[n], t.cap))
    && (forall n {:trigger Filled(t, n)} :: n in t.nodes ==> Filled(t, n))
    && UpsOk(t, Nothing) && DownsOk(t, Nothing) && LeavesOk(t)
    && t.nodes[t.root].lo == INT_MIN && t.nodes[t.root].hi == INT_END
  }

  ghost predicate Overfull(t: Index, p: Node) {
    Crowded(t, p) && !t.nodes[p].isLeaf
  }

  lemma EnterOverfull(t: Index, parent: Node, at: nat, left: Node, key: Key, right: Node)
    requires Sited(t, parent, at, left, key, right) && |t.nodes[parent].keys| == t.cap
    ensures Overfull(Enter(t, parent, at, key, right), parent)
  {
    assert UpOk(t, left, Halves(left, right));
    var u := Enter(t, parent, at, key, right);
    SeparatorFits(t, parent, at, left, key, right);
    assert Shape(t.nodes[parent], t.cap);
    forall n | n in u.nodes ensures Filled(u, n) && (n != parent ==> Shape(u.nodes[n], t.cap)) {
      assert Shape(t.nodes[n], t.cap) && Filled(t, n);
    }
    EnterUps(t, parent, at, left, key, right);
    EnterDowns(t, parent, at, left, key, right);
    EnterLeaves(t, parent, at, left, key, right);
  }

  ghost function Reparented(up: map<Node, Node?>, kids: seq<Node?>, p: Node): map<Node, Node?> {
    map n | n in up :: if n in kids then p else up[n]
  }

  // The middle key moves up; the keys and children after it move to newNode.
  ghost function LeftHalf(x: Image): Image
    requires |x.keys| >= 1 && |x.children| == |x.keys| + 1
  {
    var s := |x.keys| / 2;
    x.(keys := x.keys[..s], children := x.children[..s + 1], hi := x.keys[s])
  }

  ghost function RightHalf(x: Image): Image
    requires |x.keys| >= 1 && |x.children| == |x.keys| + 1
  {
    var s := |x.keys| / 2;
    Image(false, x.level, x.keys[s], x.hi, x.keys[s + 1..], x.children[s + 1..], [], null)
  }

  // p has become the left half of x and newNode is the right half.
  ghost function DivideTo(t: Index, p: Node, x: Image, newNode: Node): Index
    requires |x.keys| >= 1 && |x.children| == |x.keys| + 1
  {
    t.(nodes := t.nodes[p := LeftHalf(x)][newNode := RightHalf(x)],
       up := Reparented(t.up, RightHalf(x).children, newNode)[newNode := t.Parent(p)])
  }

  ghost function Divide(t: Index, p: Node, newNode: Node): Index
    requires p in t.nodes && |t.nodes[p].keys| >= 1 && |t.nodes[p].children| == |t.nodes[p].keys| + 1
  {
    DivideTo(t, p, t.nodes[p], newNode)
  }

  // Whose child a node of the divided tree is.
  lemma DividedNode(t: Index, p: Node, newNode: Node, n: Node)
    requires Overfull(t, p) && newNode !in t.nodes && n in t.nodes
    ensures n != p ==> Divide(t, p, newNode).nodes[n] == t.nodes[n]
    ensures Divide(t, p, newNode).Parent(n) ==
      if n in t.nodes[p].children[|t.nodes[p].keys| / 2 + 1..] then newNode else t.Parent(n)
  {
  }

  // The children of p are its own and pairwise distinct.
  lemma KidsDistinct(t: Index, p: Node, i: nat, j: nat)
    requires DownsOk(t, Nothing) && p in t.nodes && !t.nodes[p].isLeaf && Shape(t.nodes[p], t.cap + 1)
    requires i < j <= |t.nodes[p].keys|
    ensures ChildOk(t, p, i, Nothing) && ChildOk(t, p, j, Nothing)
    ensures t.nodes[p].children[i] != t.nodes[p].children[j]
  {
    assert KidsOk(t, p, Nothing);
    assert ChildOk(t, p, i, Nothing) && ChildOk(t, p, j, Nothing);
    var x := t.nodes[p];
    assert i > 0 ==> x.keys[i - 1] < x.keys[j - 1];
  }

  lemma DivideShapes(t: Index, p: Node, newNode: Node)
    requires Overfull(t, p) && newNode !in t.nodes
    ensures ShapesOk(Divide(t, p, newNode))
    ensures WaitingOk(Divide(t, p, newNode), Halves(p, newNode))
  {
    KidsInside(t, p, Nothing);
    DividedNode(t, p, newNode, p);
    var u := Divide(t, p, newNode);
    forall n | n in u.nodes ensures Shape(u.nodes[n], u.cap) && Filled(u, n) {
      if n in t.nodes && n != p {
        DividedNode(t, p, newNode, n);
        assert Shape(t.nodes[n], t.cap) && Filled(t, n);
      }
    }
  }

  lemma DivideUps(t: Index, p: Node, newNode: Node)
    requires Overfull(t, p) && newNode !in t.nodes
    ensures UpsOk(Divide(t, p, newNode), Halves(p, newNode))
  {
    var u, w := Divide(t, p, newNode), Halves(p, newNode);
    assert UpOk(t, p, Nothing);
    KidsInside(t, p, Nothing);
    DividedNode(t, p, newNode, p);
    if p != t.root { DividedParent(t, p, newNode, t.Parent(p)); }
    if t.root != p { DividedNode(t, p, newNode, t.root); }
    forall n | n in u.nodes ensures UpOk(u, n, w) {
      if n in t.nodes && n != p {
        assert UpOk(t, n, Nothing);
        if n != t.root && t.Parent(n) == p {
          DividedKidUp(t, p, newNode, n);
        } else {
          NotKid(t, p, n);
          DividedNode(t, p, newNode, n);
          if n != t.root { DividedParent(t, p, newNode, t.Parent(n)); }
        }
      }
    }
  }

  lemma NotKid(t: Index, p: Node, n: Node)
    requires Overfull(t, p) && n in t.nodes && t.Parent(n) != p
    ensures n !in t.nodes[p].children
  {
    assert KidsOk(t, p, Nothing);
    var x := t.nodes[p];
    forall j | 0 <= j < |x.children| ensures x.children[j] != n { assert ChildOk(t, p, j, Nothing); }
  }

  lemma DividedKidUp(t: Index, p: Node, newNode: Node, n: Node)
    requires Overfull(t, p) && newNode !in t.nodes && n in t.nodes && t.Parent(n) == p && n != t.root && n != p
    ensures var u := Divide(t, p, newNode); u.root in u.nodes && n in u.nodes && UpOk(u, n, Halves(p, newNode))
  {
    var u := Divide(t, p, newNode);
    var x := t.nodes[p];
    var s := |x.keys| / 2;
    assert UpOk(t, n, Nothing);
    DividedNode(t, p, newNode, n);
    var j :| 0 <= j < |x.children| && x.children[j] == n;
    assert j > s ==> x.children[s + 1..][j - (s + 1)] == n;
    if n in x.children[s + 1..] {
      var k :| 0 <= k < |x.children[s + 1..]| && x.children[s + 1..][k] == n;
      assert u.nodes[newNode].children[k] == n;
    } else {
      assert u.nodes[p].children[j] == n;
    }
    if t.root != p { DividedNode(t, p, newNode, t.root); }
  }

  // A node other than p keeps its children and stays internal.
  lemma DividedParent(t: Index, p: Node, newNode: Node, q: Node)
    requires Overfull(t, p) && newNode !in t.nodes && q in t.nodes && q != p
    ensures var u := Divide(t, p, newNode);
      && q in u.nodes && u.nodes[q].children == t.nodes[q].children && u.nodes[q].keys == t.nodes[q].keys
      && u.nodes[q].isLeaf == t.nodes[q].isLeaf && u.nodes[q].level == t.nodes[q].level
  {
    DividedNode(t, p, newNode, q);
  }

  lemma DivideDowns(t: Index, p: Node, newNode: Node)
    requires Overfull(t, p) && newNode !in t.nodes
    ensures DownsOk(Divide(t, p, newNode), Halves(p, newNode))
  {
    DivideShapes(t, p, newNode);
    var u, w := Divide(t, p, newNode), Halves(p, newNode);
    forall n | n in u.nodes && !u.nodes[n].isLeaf ensures KidsOk(u, n, w) {
      forall i | 0 <= i <= |u.nodes[n].keys| ensures ChildOk(u, n, i, w) {
        if n == p || n == newNode {
          DividedChild(t, p, newNode, if n == p then i else |t.nodes[p].keys| / 2 + 1 + i);
        } else {
          DividedNode(t, p, newNode, n);
          assert KidsOk(t, n, Nothing);
          assert ChildOk(t, n, i, Nothing);
          var c := t.nodes[n].children[i];
          NotKid(t, p, c);
          if c != p { DividedNode(t, p, newNode, c); }
        }
      }
    }
  }

  // Child k of the overfull node sits below one of the two halves, with the bounds it had.
  lemma DividedChild(t: Index, p: Node, newNode: Node, k: nat)
    requires Overfull(t, p) && newNode !in t.nodes && k <= |t.nodes[p].keys|
    requires WaitingOk(Divide(t, p, newNode), Halves(p, newNode))
    ensures var s := |t.nodes[p].keys| / 2;
      if k <= s then ChildOk(Divide(t, p, newNode), p, k, Halves(p, newNode))
      else ChildOk(Divide(t, p, newNode), newNode, k - (s + 1), Halves(p, newNode))
  {
    var x := t.nodes[p];
    var s := |x.keys| / 2;
    KidSide(t, p, k);
    var c := x.children[k];
    DividedNode(t, p, newNode, c);
  }

  lemma KidSide(t: Index, p: Node, k: nat)
    requires Overfull(t, p) && k <= |t.nodes[p].keys|
    ensures ChildOk(t, p, k, Nothing) && t.nodes[p].children[k] != p
    ensures t.nodes[p].children[k] in t.nodes[p].children[|t.nodes[p].keys| / 2 + 1..] <==> k > |t.nodes[p].keys| / 2
  {
    var x := t.nodes[p];
    var s := |x.keys| / 2;
    assert KidsOk(t, p, Nothing);
    assert ChildOk(t, p, k, Nothing);
    if k <= s {
      forall j | s < j < |x.children| ensures x.children[j] != x.children[k] { KidsDistinct(t, p, k, j); }
    } else {
      assert x.children[s + 1..][k - (s + 1)] == x.children[k];
    }
  }

  lemma DivideLeaves(t: Index, p: Node, newNode: Node)
    requires Overfull(t, p) && newNode !in t.nodes
    ensures LeavesOk(Divide(t, p, newNode))
  {
    var u := Divide(t, p, newNode);
    forall n | n in u.nodes && u.nodes[n].isLeaf ensures Holds(u, n) {
      DividedNode(t, p, newNode, n);
      assert Holds(t, n);
    }
    forall i | 0 <= i < |u.leaves| ensures LinkOk(u, i) {
      assert LinkOk(t, i);
      assert t.leaves[i] in t.leaves;
      DividedNode(t, p, newNode, t.leaves[i]);
    }
  }

  lemma DivideWaits(t: Index, p: Node, newNode: Node)
    requires Overfull(t, p) && newNode !in t.nodes
    ensures Inv(Divide(t, p, newNode), Halves(p, newNode))
  {
    DivideShapes(t, p, newNode);
    DivideUps(t, p, newNode);
    DivideDowns(t, p, newNode);
    DivideLeaves(t, p, newNode);
    if t.root != p { DividedNode(t, p, newNode, t.root); }
  }

  lemma KidsInside(t: Index, p: Node, w: Waiting)
    requires DownsOk(t, w) && p in t.nodes && !t.nodes[p].isLeaf && |t.nodes[p].children| == |t.nodes[p].keys| + 1
    ensures forall c: Node? :: c in t.nodes[p].children ==> c != null && c in t.nodes && c != p && t.Parent(c) == p
  {
    assert KidsOk(t, p, w);
    forall c: Node? | c in t.nodes[p].children ensures c != null && c in t.nodes && c != p && t.Parent(c) == p {
      var i :| 0 <= i < |t.nodes[p].children| && t.nodes[p].children[i] == c;
      assert ChildOk(t, p, i, w);
    }
  }

  lemma SitedKids(t: Index, p: Node, at: nat, left: Node, key: Key, right: Node)
    requires Sited(t, p, at, left, key, right)
    ensures |t.nodes[p].children| == |t.nodes[p].keys| + 1 && t.Parent(right) == p
    ensures t.nodes[left].level < t.nodes[p].level <= t.nodes[t.root].level
    ensures forall c: Node? :: c in t.nodes[p].children ==> c != null && c in t.nodes && c != p && t.Parent(c) == p
  {
    assert Shape(t.nodes[p], t.cap) && UpOk(t, left, Halves(left, right)) && UpOk(t, p, Halves(left, right));
    KidsInside(t, p, Halves(left, right));
  }

  // split_internal_and_insert leaves a new right half waiting one level up.
  lemma SplitWaits(t: Index, p: Node, at: nat, left: Node, key: Key, right: Node, newNode: Node)
    requires Sited(t, p, at, left, key, right) && |t.nodes[p].keys| == t.cap && newNode !in t.nodes
    ensures |t.nodes[p].children| == t.cap + 1
    ensures Inv(DivideTo(t, p, Enter(t, p, at, key, right).nodes[p], newNode), Halves(p, newNode))
  {
    var u := Enter(t, p, at, key, right);
    SitedKids(t, p, at, left, key, right);
    EnterOverfull(t, p, at, left, key, right);
    DivideWaits(u, p, newNode);
    assert u.up == t.up;
    assert u.nodes[p := LeftHalf(u.nodes[p])] == t.nodes[p := LeftHalf(u.nodes[p])];
  }

  // ----- storing a pair in a leaf -----

  // Exactly one leaf is responsible for a key.
  lemma {:induction false} LeavesApart(t: Index, i: nat, j: nat)
    requires LeavesOk(t) && i < j < |t.leaves|
    requires forall n {:trigger n in t.leaves} :: n in t.leaves ==> t.nodes[n].lo < t.nodes[n].hi
    ensures t.leaves[i] in t.nodes && t.leaves[j] in t.nodes
    ensures t.nodes[t.leaves[i]].hi <= t.nodes[t.leaves[j]].lo
    decreases j
  {
    assert t.leaves[i] in t.leaves && t.leaves[j] in t.leaves;
    assert LinkOk(t, j - 1);
    if i + 1 < j {
      LeavesApart(t, i, j - 1);
      assert t.leaves[j - 1] in t.leaves;
    }
  }

  lemma OneLeaf(t: Index, m: Node, n: Node, key: Key)
    requires LeavesOk(t) && ShapesOk(t)
    requires m in t.nodes && t.nodes[m].isLeaf && t.nodes[m].lo <= key < t.nodes[m].hi
    requires n in t.nodes && t.nodes[n].isLeaf && t.nodes[n].lo <= key < t.nodes[n].hi
    ensures m == n
  {
    assert m in t.leaves && n in t.leaves;
    forall x | x in t.leaves ensures t.nodes[x].lo < t.nodes[x].hi { assert Shape(t.nodes[x], t.cap); }
    var i :| 0 <= i < |t.leaves| && t.leaves[i] == m;
    var j :| 0 <= j < |t.leaves| && t.leaves[j] == n;
    if i < j { LeavesApart(t, i, j); } else if j < i { LeavesApart(t, j, i); }
  }

  ghost predicate Responsible(t: Index, leaf: Node, key: Key) {
    leaf in t.nodes && t.nodes[leaf].isLeaf && t.nodes[leaf].lo <= key < t.nodes[leaf].hi
  }

  // Only the keys and records of one leaf, and the map, have changed.
  ghost predicate LeafChanged(t: Index, u: Index, leaf: Node) {
    && leaf in t.nodes && t.nodes[leaf].isLeaf && leaf in u.nodes
    && u.cap == t.cap && u.root == t.root && u.leaves == t.leaves && u.up == t.up
    && u.nodes == t.nodes[leaf := t.nodes[leaf].(keys := u.nodes[leaf].keys, records := u.nodes[leaf].records)]
  }

  lemma LeafChangedLinks(t: Index, u: Index, leaf: Node)
    requires ValidTree(t) && LeafChanged(t, u, leaf)
    ensures UpsOk(u, Nothing) && DownsOk(u, Nothing)
    ensures forall i {:trigger LinkOk(u, i)} :: 0 <= i < |u.leaves| ==> LinkOk(u, i)
  {
    forall n | n in u.nodes ensures UpOk(u, n, Nothing) { assert UpOk(t, n, Nothing); }
    forall n | n in u.nodes && !u.nodes[n].isLeaf ensures KidsOk(u, n, Nothing) {
      assert KidsOk(t, n, Nothing);
      forall i | 0 <= i <= |u.nodes[n].keys| ensures ChildOk(u, n, i, Nothing) { assert ChildOk(t, n, i, Nothing); }
    }
    forall i | 0 <= i < |u.leaves| ensures LinkOk(u, i) { assert LinkOk(t, i); }
  }

  // The other leaves do not notice a change of the map at a key that is not theirs.
  lemma OthersHold(t: Index, u: Index, leaf: Node, key: Key, record: RecordRef)
    requires ValidTree(t) && LeafChanged(t, u, leaf) && Responsible(t, leaf, key)
    requires u.contents == t.contents[key := record]
    ensures forall n {:trigger Holds(u, n)} :: n in u.nodes && u.nodes[n].isLeaf && n != leaf ==> Holds(u, n)
  {
    forall n | n in u.nodes && u.nodes[n].isLeaf && n != leaf ensures Holds(u, n) {
      assert Holds(t, n) && Shape(t.nodes[n], t.cap);
      if t.nodes[n].lo <= key < t.nodes[n].hi { OneLeaf(t, leaf, n, key); }
      forall k: Key | k in u.contents && u.nodes[n].lo <= k < u.nodes[n].hi ensures HasKey(u.nodes[n], k) {
        assert HasKey(t.nodes[n], k);
      }
    }
  }

  ghost function Overwrite(t: Index, leaf: Node, i: nat, record: RecordRef): Index
    requires leaf in t.nodes && i < |t.nodes[leaf].keys| && i < |t.nodes[leaf].records|
  {
    var x := t.nodes[leaf];
    t.(nodes := t.nodes[leaf := x.(records := x.records[i := record])], contents := t.contents[x.keys[i] := record])
  }

  lemma OverwriteHolds(t: Index, leaf: Node, i: nat, record: RecordRef)
    requires ValidTree(t) && leaf in t.nodes && t.nodes[leaf].isLeaf
    requires i < |t.nodes[leaf].keys| && i < |t.nodes[leaf].records|
    ensures Holds(Overwrite(t, leaf, i, record), leaf)
  {
    var u := Overwrite(t, leaf, i, record);
    assert Shape(t.nodes[leaf], t.cap) && Holds(t, leaf);
    forall k: Key | k in u.contents && t.nodes[leaf].lo <= k < t.nodes[leaf].hi ensures HasKey(u.nodes[leaf], k) {
      assert HasKey(t.nodes[leaf], k);
    }
  }

  lemma OverwriteShapes(t: Index, leaf: Node, i: nat, record: RecordRef)
    requires ValidTree(t) && leaf in t.nodes && t.nodes[leaf].isLeaf
    requires i < |t.nodes[leaf].keys| && i < |t.nodes[leaf].records|
    ensures ShapesOk(Overwrite(t, leaf, i, record)) && LeafChanged(t, Overwrite(t, leaf, i, record), leaf)
    ensures Responsible(t, leaf, t.nodes[leaf].keys[i])
  {
    var u := Overwrite(t, leaf, i, record);
    assert Shape(t.nodes[leaf], t.cap);
    forall n | n in u.nodes ensures Shape(u.nodes[n], u.cap) && Filled(u, n) {
      assert Shape(t.nodes[n], t.cap) && Filled(t, n);
    }
  }

  lemma OverwriteValid(t: Index, leaf: Node, i: nat, record: RecordRef)
    requires ValidTree(t) && leaf in t.nodes && t.nodes[leaf].isLeaf
    requires i < |t.nodes[leaf].keys| && i < |t.nodes[leaf].records|
    ensures ValidTree(Overwrite(t, leaf, i, record))
  {
    var u := Overwrite(t, leaf, i, record);
    OverwriteShapes(t, leaf, i, record);
    LeafChangedLinks(t, u, leaf);
    OthersHold(t, u, leaf, t.nodes[leaf].keys[i], record);
    OverwriteHolds(t, leaf, i, record);
  }

  ghost function Put(t: Index, leaf: Node, p: nat, key: Key, record: RecordRef): Index
    requires leaf in t.nodes && p <= |t.nodes[leaf].keys| && p <= |t.nodes[leaf].records|
  {
    var x := t.nodes[leaf];
    t.(nodes := t.nodes[leaf := x.(keys := InsertAt(x.keys, p, key), records := InsertAt(x.records, p, record))],
       contents := t.contents[key := record])
  }

  // p is where key belongs among the keys of the leaf.
  ghost predicate Place(t: Index, leaf: Node, p: nat, key: Key) {
    && Responsible(t, leaf, key) && key !in t.contents
    && var x := t.nodes[leaf];
    && p <= |x.keys| && |x.records| == |x.keys|
    && (p > 0 ==> x.keys[p - 1] < key) && (p < |x.keys| ==> key < x.keys[p])
  }

  lemma PutHolds(t: Index, leaf: Node, p: nat, key: Key, record: RecordRef)
    requires ValidTree(t) && Place(t, leaf, p, key)
    ensures Holds(Put(t, leaf, p, key, record), leaf)
  {
    var u := Put(t, leaf, p, key, record);
    var x, y := t.nodes[leaf], u.nodes[leaf];
    assert Holds(t, leaf);
    forall i | 0 <= i < |y.keys| ensures y.keys[i] in u.contents && u.contents[y.keys[i]] == y.records[i] {
      if i != p {
        var j := if i < p then i else i - 1;
        assert y.keys[i] == x.keys[j] && y.records[i] == x.records[j];
      }
    }
    forall k: Key | k in u.contents && y.lo <= k < y.hi ensures HasKey(y, k) {
      if k == key {
        assert y.keys[p] == key;
      } else {
        assert HasKey(x, k);
        var j :| 0 <= j < |x.keys| && x.keys[j] == k;
        assert y.keys[if j < p then j else j + 1] == k;
      }
    }
  }

  lemma PutShapes(t: Index, leaf: Node, p: nat, key: Key, record: RecordRef)
    requires ValidTree(t) && Place(t, leaf, p, key)
    ensures var u := Put(t, leaf, p, key, record);
      && Shape(u.nodes[leaf], u.cap + 1)
      && (forall n {:trigger Shape(u.nodes[n], u.cap)} :: n in u.nodes && n != leaf ==> Shape(u.nodes[n], u.cap))
      && (forall n {:trigger Filled(u, n)} :: n in u.nodes ==> Filled(u, n))
  {
    var u := Put(t, leaf, p, key, record);
    var x := t.nodes[leaf];
    assert Shape(x, t.cap);
    InsertIncreasing(x.keys, p, key);
    forall n | n in u.nodes ensures Filled(u, n) && (n != leaf ==> Shape(u.nodes[n], u.cap)) {
      assert Shape(t.nodes[n], t.cap) && Filled(t, n);
    }
  }

  lemma PutValid(t: Index, leaf: Node, p: nat, key: Key, record: RecordRef)
    requires ValidTree(t) && Place(t, leaf, p, key)
    ensures var u := Put(t, leaf, p, key, record);
      if |t.nodes[leaf].keys| < t.cap then ValidTree(u) else Crowded(u, leaf)
  {
    var u := Put(t, leaf, p, key, record);
    var x := t.nodes[leaf];
    assert Shape(x, t.cap);
    PutShapes(t, leaf, p, key, record);
    LeafChangedLinks(t, u, leaf);
    OthersHold(t, u, leaf, key, record);
    PutHolds(t, leaf, p, key, record);
    assert |x.keys| < t.cap ==> Shape(u.nodes[leaf], u.cap);
  }

  // ----- dividing a leaf that has one pair too many -----

  ghost function LeftLeaf(x: Image, newLeaf: Node): Image
    requires |x.keys| == |x.records| >= 1
  {
    var s := |x.keys| / 2;
    x.(keys := x.keys[..s], records := x.records[..s], hi := x.keys[s], next := newLeaf)
  }

  ghost function RightLeaf(x: Image): Image
    requires |x.keys| == |x.records| >= 1
  {
    var s := |x.keys| / 2;
    Image(true, 0, x.keys[s], x.hi, x.keys[s..], [], x.records[s..], x.next)
  }

  // The leaf, merged with a new pair into x, is divided and the pair is in the map.
  ghost function DivideLeafTo(t: Index, leaf: Node, x: Image, at: nat, newLeaf: Node, key: Key, record: RecordRef): Index
    requires |x.keys| == |x.records| >= 1 && at < |t.leaves|
  {
    t.(nodes := t.nodes[leaf := LeftLeaf(x, newLeaf)][newLeaf := RightLeaf(x)],
       up := t.up[newLeaf := t.Parent(leaf)],
       leaves := InsertAt(t.leaves, at + 1, newLeaf),
       contents := t.contents[key := record])
  }

  ghost function DivideLeaf(t: Index, leaf: Node, at: nat, newLeaf: Node): Index
    requires leaf in t.nodes && |t.nodes[leaf].keys| == |t.nodes[leaf].records| >= 1 && at < |t.leaves|
  {
    t.(nodes := t.nodes[leaf := LeftLeaf(t.nodes[leaf], newLeaf)][newLeaf := RightLeaf(t.nodes[leaf])],
       up := t.up[newLeaf := t.Parent(leaf)],
       leaves := InsertAt(t.leaves, at + 1, newLeaf))
  }

  ghost predicate LeafToDivide(t: Index, leaf: Node, at: nat, newLeaf: Node) {
    && Crowded(t, leaf) && t.nodes[leaf].isLeaf && newLeaf !in t.nodes
    && at < |t.leaves| && t.leaves[at] == leaf
  }

  lemma DivideLeafShapes(t: Index, leaf: Node, at: nat, newLeaf: Node)
    requires LeafToDivide(t, leaf, at, newLeaf)
    ensures ShapesOk(DivideLeaf(t, leaf, at, newLeaf))
    ensures WaitingOk(DivideLeaf(t, leaf, at, newLeaf), Halves(leaf, newLeaf))
  {
    var u := DivideLeaf(t, leaf, at, newLeaf);
    assert t.nodes[leaf].keys[0] < t.nodes[leaf].keys[(t.cap + 1) / 2];
    forall n | n in u.nodes ensures Shape(u.nodes[n], u.cap) && Filled(u, n) {
      if n in t.nodes && n != leaf { assert Shape(t.nodes[n], t.cap) && Filled(t, n); }
    }
  }

  lemma DivideLeafTree(t: Index, leaf: Node, at: nat, newLeaf: Node)
    requires LeafToDivide(t, leaf, at, newLeaf)
    ensures UpsOk(DivideLeaf(t, leaf, at, newLeaf), Halves(leaf, newLeaf))
    ensures DownsOk(DivideLeaf(t, leaf, at, newLeaf), Halves(leaf, newLeaf))
  {
    var u, w := DivideLeaf(t, leaf, at, newLeaf), Halves(leaf, newLeaf);
    DivideLeafShapes(t, leaf, at, newLeaf);
    assert UpOk(t, leaf, Nothing);
    forall n | n in u.nodes ensures UpOk(u, n, w) {
      if n in t.nodes { assert UpOk(t, n, Nothing); }
    }
    forall n | n in u.nodes && !u.nodes[n].isLeaf ensures KidsOk(u, n, w) {
      assert KidsOk(t, n, Nothing);
      forall i | 0 <= i <= |u.nodes[n].keys| ensures ChildOk(u, n, i, w) { assert ChildOk(t, n, i, Nothing); }
    }
  }

  lemma DividedKey(t: Index, leaf: Node, at: nat, newLeaf: Node, k: Key)
    requires LeafToDivide(t, leaf, at, newLeaf) && k in t.contents && t.nodes[leaf].lo <= k < t.nodes[leaf].hi
    ensures var u, x := DivideLeaf(t, leaf, at, newLeaf), t.nodes[leaf];
      HasKey(if k < x.keys[|x.keys| / 2] then u.nodes[leaf] else u.nodes[newLeaf], k)
  {
    var u, x := DivideLeaf(t, leaf, at, newLeaf), t.nodes[leaf];
    var s := |x.keys| / 2;
    assert Holds(t, leaf);
    assert HasKey(x, k);
    var j :| 0 <= j < |x.keys| && x.keys[j] == k;
    if k < x.keys[s] {
      assert u.nodes[leaf].keys[j] == k;
    } else {
      assert u.nodes[newLeaf].keys[j - s] == k;
    }
  }

  lemma DivideLeafHolds(t: Index, leaf: Node, at: nat, newLeaf: Node)
    requires LeafToDivide(t, leaf, at, newLeaf)
    ensures var u := DivideLeaf(t, leaf, at, newLeaf); Holds(u, leaf) && Holds(u, newLeaf)
  {
    var u, x := DivideLeaf(t, leaf, at, newLeaf), t.nodes[leaf];
    assert Holds(t, leaf);
    forall k: Key | k in u.contents && x.lo <= k < x.hi
      ensures HasKey(if k < x.keys[|x.keys| / 2] then u.nodes[leaf] else u.nodes[newLeaf], k)
    {
      DividedKey(t, leaf, at, newLeaf, k);
    }
  }

  // A leaf is where it was in the chain, or one place further.
  lemma DividedListed(t: Index, leaf: Node, at: nat, newLeaf: Node, n: Node)
    requires LeafToDivide(t, leaf, at, newLeaf) && n in t.leaves
    ensures n in DivideLeaf(t, leaf, at, newLeaf).leaves
  {
    var i :| 0 <= i < |t.leaves| && t.leaves[i] == n;
    assert DivideLeaf(t, leaf, at, newLeaf).leaves[if i <= at then i else i + 1] == n;
  }

  lemma DividedLeaf(t: Index, leaf: Node, at: nat, newLeaf: Node, n: Node)
    requires LeafToDivide(t, leaf, at, newLeaf) && n in t.nodes && t.nodes[n].isLeaf
    ensures Holds(DivideLeaf(t, leaf, at, newLeaf), n) && n in DivideLeaf(t, leaf, at, newLeaf).leaves
  {
    assert n in t.leaves;
    DividedListed(t, leaf, at, newLeaf, n);
    if n == leaf { DivideLeafHolds(t, leaf, at, newLeaf); } else { assert Holds(t, n); }
  }

  lemma DividedLink(t: Index, leaf: Node, at: nat, newLeaf: Node, i: nat)
    requires LeafToDivide(t, leaf, at, newLeaf) && i <= |t.leaves|
    ensures var u := DivideLeaf(t, leaf, at, newLeaf); LinkOk(u, i) && u.leaves[i] in u.nodes && u.nodes[u.leaves[i]].isLeaf
  {
    LeavesDistinct(t, leaf, at);
    var j := if i <= at then i else i - 1;
    assert LinkOk(t, j);
    assert t.leaves[j] in t.leaves;
    if j + 1 < |t.leaves| { assert t.leaves[j + 1] in t.leaves; }
  }

  lemma DivideLeafLeaves(t: Index, leaf: Node, at: nat, newLeaf: Node)
    requires LeafToDivide(t, leaf, at, newLeaf)
    ensures LeavesOk(DivideLeaf(t, leaf, at, newLeaf))
  {
    var u := DivideLeaf(t, leaf, at, newLeaf);
    DivideLeafHolds(t, leaf, at, newLeaf);
    assert u.leaves[at + 1] == newLeaf;
    forall n | n in u.nodes && u.nodes[n].isLeaf ensures Holds(u, n) && n in u.leaves {
      if n in t.nodes { DividedLeaf(t, leaf, at, newLeaf, n); }
    }
    forall i | 0 <= i < |u.leaves| ensures LinkOk(u, i) && u.leaves[i] in u.nodes && u.nodes[u.leaves[i]].isLeaf {
      DividedLink(t, leaf, at, newLeaf, i);
    }
  }

  lemma LeavesDistinct(t: Index, leaf: Node, at: nat)
    requires Crowded(t, leaf) && at < |t.leaves| && t.leaves[at] == leaf
    ensures forall i :: 0 <= i < |t.leaves| && i != at ==> t.leaves[i] != leaf
  {
    forall n | n in t.leaves ensures t.nodes[n].lo < t.nodes[n].hi {
      assert n != leaf ==> Shape(t.nodes[n], t.cap);
    }
    forall i | 0 <= i < |t.leaves| && i != at ensures t.leaves[i] != leaf {
      if i < at { LeavesApart(t, i, at); } else { LeavesApart(t, at, i); }
    }
  }

  lemma DivideLeafWaits(t: Index, leaf: Node, at: nat, newLeaf: Node)
    requires LeafToDivide(t, leaf, at, newLeaf)
    ensures Inv(DivideLeaf(t, leaf, at, newLeaf), Halves(leaf, newLeaf))
  {
    DivideLeafShapes(t, leaf, at, newLeaf);
    DivideLeafTree(t, leaf, at, newLeaf);
    DivideLeafLeaves(t, leaf, at, newLeaf);
  }

  // split_leaf_and_insert leaves a new right half waiting one level up.
  lemma SplitLeafWaits(t: Index, leaf: Node, p: nat, key: Key, record: RecordRef, at: nat, newLeaf: Node)
    requires ValidTree(t) && Place(t, leaf, p, key) && |t.nodes[leaf].keys| == t.cap
    requires newLeaf !in t.nodes && at < |t.leaves| && t.leaves[at] == leaf
    ensures var x := Put(t, leaf, p, key, record).nodes[leaf];
      Inv(DivideLeafTo(t, leaf, x, at, newLeaf, key, record), Halves(leaf, newLeaf))
  {
    var u := Put(t, leaf, p, key, record);
    var x := u.nodes[leaf];
    PutValid(t, leaf, p, key, record);
    DivideLeafWaits(u, leaf, at, newLeaf);
    assert u.nodes[leaf := LeftLeaf(x, newLeaf)] == t.nodes[leaf := LeftLeaf(x, newLeaf)];
  }
}
