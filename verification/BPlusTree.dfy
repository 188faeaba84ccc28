// The B+ tree index of index/btree.c: node objects with parent and next pointers, updated in place.
// Valid() says that the snapshot of the nodes is a tree in the sense of BPlusForest; every method
// is proved to turn that snapshot into the one its step function gives.
module BPlusTree {
  import opened BPlusForest

  ghost predicate Bodies(cap: nat, f: Forest)
    reads f.Keys`numKeys, f.Keys`keys, f.Keys`children, f.Keys`records, f.Keys`next, f.Keys`hi
  {
    forall n {:trigger n.Shows(cap, f[n])} :: n in f ==> n.Shows(cap, f[n])
  }

  ghost predicate Parents(up: map<Node, Node?>)
    reads up.Keys`parent
  {
    forall n {:trigger up[n]} :: n in up ==> n.parent == up[n]
  }

  lemma LeafPlace(t: Index, leaf: Node, key: Key) returns (at: nat)
    requires ValidTree(t) && Responsible(t, leaf, key)
    ensures at < |t.leaves| && t.leaves[at] == leaf && leaf in t.up && t.Parent(leaf) == t.up[leaf]
    ensures Shape(t.nodes[leaf], t.cap) && Holds(t, leaf)
  {
    assert Holds(t, leaf) && Shape(t.nodes[leaf], t.cap) && leaf in t.leaves;
    at :| 0 <= at < |t.leaves| && t.leaves[at] == leaf;
  }

  lemma ParentsPlus(up: map<Node, Node?>, n: Node, p: Node?)
    requires Parents(up) && n.parent == p
    ensures Parents(up[n := p])
  {
  }

  lemma ParentsGrown(up: map<Node, Node?>, left: Node, right: Node, newRoot: Node)
    requires forall n :: n in up && n != left && n != right ==> n.parent == up[n]
    requires newRoot.parent == null && left.parent == right.parent == newRoot && newRoot !in up
    ensures Parents(up[left := newRoot][right := newRoot][newRoot := null])
  {
  }

  lemma BodiesBut(cap: nat, f: Forest, n: Node)
    requires Bodies(cap, f)
    ensures Bodies(cap, f - {n})
  {
    var g := f - {n};
    forall m | m in g ensures m.Shows(cap, g[m]) { assert m.Shows(cap, f[m]); }
  }

  lemma BodiesWith(cap: nat, f: Forest, n: Node, x: Image)
    requires Bodies(cap, f - {n}) && n.Shows(cap, x)
    ensures Bodies(cap, f[n := x])
  {
    var g := f - {n};
    var h := f[n := x];
    forall m | m in h ensures m.Shows(cap, h[m]) {
      if m != n { assert m.Shows(cap, g[m]); }
    }
  }

  lemma BodiesPlus(cap: nat, f: Forest, n: Node, x: Image)
    requires Bodies(cap, f) && n !in f && n.Shows(cap, x)
    ensures Bodies(cap, f[n := x])
  {
    assert f - {n} == f;
    BodiesWith(cap, f, n, x);
  }

  lemma BodiesWithTwo(cap: nat, f: Forest, n: Node, x: Image, m: Node, y: Image)
    requires Bodies(cap, f - {n}) && n.Shows(cap, x) && m.Shows(cap, y) && m !in f && n in f
    ensures Bodies(cap, f[n := x][m := y])
  {
    BodiesWith(cap, f, n, x);
    BodiesPlus(cap, f[n := x], m, y);
  }

  class Tree {
    const cap: nat          // BTREE_MAX_KEYS
    var root: Node
    ghost var t: Index      // what the heap holds

    ghost predicate Linked()
      reads this, t.nodes.Keys
    {
      && t.cap == cap && t.root == root
      && t.nodes.Keys == t.up.Keys && Bodies(cap, t.nodes) && Parents(t.up)
    }

    ghost predicate Valid()
      reads this, t.nodes.Keys
    {
      Linked() && ValidTree(t)
    }

    constructor (cap: nat)
      requires cap >= 2
      ensures Valid() && fresh(t.nodes.Keys) && this.cap == cap
      ensures t.contents == map[]
    {
      this.cap := cap;
      var r := new Node(true, cap, 0, INT_MIN, INT_END);
      root := r;
      t := Index(cap, r, map[r := Image(true, 0, INT_MIN, INT_END, [], [], [], null)], map[r := null], [r], map[]);
      new;
      assert LinkOk(t, 0);
    }

    // find_leaf_index: the number of keys not greater than key.
    static method FindLeafIndex(node: Node, key: Key) returns (i: nat)
      requires node.numKeys <= |node.keys|
      ensures i <= node.numKeys
      ensures forall j :: 0 <= j < i ==> node.keys[j] <= key
      ensures i < node.numKeys ==> key < node.keys[i]
    {
      i := 0;
      while i < node.numKeys && key >= node.keys[i]
        invariant i <= node.numKeys
        invariant forall j :: 0 <= j < i ==> node.keys[j] <= key
      {
        i := i + 1;
      }
    }

    // btree_find_leaf: descend to the leaf responsible for key, one level a step.
    method FindLeaf(key: Key) returns (leaf: Node, ghost steps: nat)
      requires Valid()
      ensures leaf in t.nodes && Responsible(t, leaf, key)
      ensures steps == root.level
    {
      leaf, steps := root, 0;
      assert root.Shows(cap, t.nodes[root]);
      while !leaf.isLeaf
        invariant leaf in t.nodes && t.nodes[leaf].lo <= key < t.nodes[leaf].hi
        invariant steps + leaf.level == root.level
        decreases leaf.level
      {
        assert leaf.Shows(cap, t.nodes[leaf]);
        assert KidsOk(t, leaf, Nothing) && Shape(t.nodes[leaf], cap);
        var index := FindLeafIndex(leaf, key);
        assert ChildOk(t, leaf, index, Nothing);
        leaf := leaf.children[index];
        assert leaf.Shows(cap, t.nodes[leaf]);
        steps := steps + 1;
      }
      assert Shape(t.nodes[leaf], cap) && leaf.Shows(cap, t.nodes[leaf]);
    }

    method Search(key: Key) returns (found: bool, result: RecordRef)
      requires Valid()
      ensures found <==> key in t.contents
      ensures found ==> result == t.contents[key]
    {
      result := RecordRef(0, 0);
      var leaf, _ := FindLeaf(key);
      assert Holds(t, leaf) && leaf.Shows(cap, t.nodes[leaf]);
      for i := 0 to leaf.numKeys
        invariant forall j :: 0 <= j < i ==> leaf.keys[j] != key
      {
        if leaf.keys[i] == key {
          assert t.nodes[leaf].keys[i] == key;
          return true, leaf.records[i];
        }
      }
      assert !HasKey(t.nodes[leaf], key);
      return false, result;
    }

    // insert_into_leaf: shift the larger keys up by one and put the new pair in the gap.
    static method InsertIntoLeaf(leaf: Node, key: Key, record: RecordRef) returns (ghost p: nat)
      requires leaf.numKeys < |leaf.keys| == |leaf.records|
      requires forall i :: 0 <= i < leaf.numKeys ==> leaf.keys[i] != key
      modifies leaf`keys, leaf`records, leaf`numKeys
      ensures |leaf.keys| == old(|leaf.keys|) && |leaf.records| == old(|leaf.records|)
      ensures leaf.numKeys == old(leaf.numKeys) + 1
      ensures p <= old(leaf.numKeys)
      ensures leaf.keys[..leaf.numKeys] == InsertAt(old(leaf.keys[..leaf.numKeys]), p, key)
      ensures leaf.records[..leaf.numKeys] == InsertAt(old(leaf.records[..leaf.numKeys]), p, record)
      ensures (p > 0 ==> old(leaf.keys)[p - 1] < key) && (p < old(leaf.numKeys) ==> key < old(leaf.keys)[p])
    {
      var i: int := leaf.numKeys - 1;
      while i >= 0 && leaf.keys[i] > key
        invariant leaf.numKeys == old(leaf.numKeys) && -1 <= i < leaf.numKeys
        invariant |leaf.keys| == old(|leaf.keys|) && |leaf.records| == old(|leaf.records|)
        invariant forall j :: 0 <= j <= i ==>
          leaf.keys[j] == old(leaf.keys[j]) && leaf.records[j] == old(leaf.records[j])
        invariant forall j :: i + 1 < j <= leaf.numKeys ==>
          leaf.keys[j] == old(leaf.keys)[j - 1] && leaf.records[j] == old(leaf.records)[j - 1]
        invariant i + 1 < leaf.numKeys ==> key < old(leaf.keys)[i + 1]
      {
        leaf.keys := leaf.keys[i + 1 := leaf.keys[i]];
        leaf.records := leaf.records[i + 1 := leaf.records[i]];
        i := i - 1;
      }
      p := i + 1;
      assert i >= 0 ==> old(leaf.keys)[i] != key;
      leaf.keys := leaf.keys[i + 1 := key];
      leaf.records := leaf.records[i + 1 := record];
      leaf.numKeys := leaf.numKeys + 1;
      ShiftedUp(leaf.keys, old(leaf.keys), old(leaf.numKeys), p, key);
      ShiftedUp(leaf.records, old(leaf.records), old(leaf.numKeys), p, record);
    }

    static method PutPair(tempKeys: array<Key>, tempRecords: array<RecordRef>, j: nat, key: Key, record: RecordRef)
      requires j < tempKeys.Length && j < tempRecords.Length
      modifies tempKeys, tempRecords
      ensures tempKeys[..j + 1] == old(tempKeys[..j]) + [key]
      ensures tempRecords[..j + 1] == old(tempRecords[..j]) + [record]
    {
      tempKeys[j] := key;
      tempRecords[j] := record;
    }

    // The temporary arrays of split_leaf_and_insert: the full leaf merged with the new pair.
    static method MergeLeaf(leaf: Node, key: Key, record: RecordRef)
      returns (tempKeys: array<Key>, tempRecords: array<RecordRef>, ghost p: nat)
      requires leaf.numKeys == |leaf.keys| == |leaf.records|
      requires forall i :: 0 <= i < leaf.numKeys ==> leaf.keys[i] != key
      ensures fresh(tempKeys) && fresh(tempRecords)
      ensures p <= |leaf.keys|
      ensures (forall k :: 0 <= k < p ==> leaf.keys[k] < key) && (p < |leaf.keys| ==> key < leaf.keys[p])
      ensures tempKeys[..] == InsertAt(leaf.keys, p, key)
      ensures tempRecords[..] == InsertAt(leaf.records, p, record)
    {
      var keys, records := leaf.keys, leaf.records;
      var cap := |keys|;
      tempKeys := new Key[cap + 1](_ => 0);
      tempRecords := new RecordRef[cap + 1](_ => RecordRef(0, 0));
      var inserted, i, j := false, 0, 0;
      p := 0;
      while i < cap
        modifies tempKeys, tempRecords
        invariant i <= cap && j == (if inserted then i + 1 else i)
        invariant if inserted then p < i && key < keys[p] else p == i
        invariant forall k :: 0 <= k < p ==> keys[k] < key
        invariant tempKeys[..j] == Mixed(keys, i, p, key, inserted)
        invariant tempRecords[..j] == Mixed(records, i, p, record, inserted)
      {
        if !inserted && key < keys[i] {
          MixedPut(keys, i, key);
          MixedPut(records, i, record);
          PutPair(tempKeys, tempRecords, j, key, record);
          inserted := true;
          j := j + 1;
        } else if !inserted {
          p := p + 1;
        }
        MixedNext(keys, i, p, key, inserted);
        MixedNext(records, i, p, record, inserted);
        PutPair(tempKeys, tempRecords, j, keys[i], records[i]);
        i := i + 1;
        j := j + 1;
      }
      if !inserted {
        MixedPut(keys, i, key);
        MixedPut(records, i, record);
        PutPair(tempKeys, tempRecords, j, key, record);
        j := j + 1;
      }
      MixedAll(keys, p, key);
      MixedAll(records, p, record);
    }

    // One of the two copy loops of split_leaf_and_insert.
    static method FillLeaf(node: Node, tempKeys: array<Key>, tempRecords: array<RecordRef>, from: nat, count: nat)
      requires |node.keys| == |node.records| >= count
      requires from + count <= tempKeys.Length == tempRecords.Length
      modifies node`keys, node`records, node`numKeys
      ensures |node.keys| == old(|node.keys|) && |node.records| == old(|node.records|)
      ensures node.numKeys == count
      ensures node.keys[..count] == tempKeys[from..from + count]
      ensures node.records[..count] == tempRecords[from..from + count]
    {
      node.numKeys := 0;
      for i := 0 to count
        invariant |node.keys| == old(|node.keys|) && |node.records| == old(|node.records|)
        invariant node.numKeys == i
        invariant node.keys[..i] == tempKeys[from..from + i]
        invariant node.records[..i] == tempRecords[from..from + i]
      {
        node.keys := node.keys[i := tempKeys[from + i]];
        node.records := node.records[i := tempRecords[from + i]];
        node.numKeys := node.numKeys + 1;
      }
    }

    // insert_into_internal: open a gap for the separator and for the child to its right.
    static method InsertIntoInternal(parent: Node, leftIndex: nat, key: Key, right: Node)
      requires parent.numKeys < |parent.keys| && |parent.children| == |parent.keys| + 1
      requires leftIndex <= parent.numKeys && parent != right
      modifies parent`keys, parent`children, parent`numKeys, right`parent
      ensures |parent.keys| == old(|parent.keys|) && |parent.children| == old(|parent.children|)
      ensures parent.numKeys == old(parent.numKeys) + 1
      ensures parent.keys[..parent.numKeys] == InsertAt(old(parent.keys[..parent.numKeys]), leftIndex, key)
      ensures parent.children[..parent.numKeys + 1]
           == InsertAt(old(parent.children[..parent.numKeys + 1]), leftIndex + 1, right)
      ensures right.parent == parent
    {
      ShiftKeys(parent, leftIndex, key);
      ShiftChildren(parent, leftIndex + 1, right);
      parent.numKeys := parent.numKeys + 1;
      right.parent := parent;
    }

    // The keys from p on move up by one, and key takes the gap.
    static method ShiftKeys(node: Node, p: nat, key: Key)
      requires p <= node.numKeys < |node.keys|
      modifies node`keys
      ensures |node.keys| == old(|node.keys|)
      ensures node.keys[..node.numKeys + 1] == InsertAt(old(node.keys[..node.numKeys]), p, key)
    {
      var i := node.numKeys;
      while i > p
        invariant p <= i <= node.numKeys && |node.keys| == old(|node.keys|)
        invariant forall j :: 0 <= j <= i && j < node.numKeys ==> node.keys[j] == old(node.keys[j])
        invariant forall j :: i < j <= node.numKeys ==> node.keys[j] == old(node.keys)[j - 1]
      {
        node.keys := node.keys[i := node.keys[i - 1]];
        i := i - 1;
      }
      node.keys := node.keys[p := key];
      IsInsertAt(node.keys[..node.numKeys + 1], old(node.keys[..node.numKeys]), p, key);
    }

    // The same for the children, of which there is one more.
    static method ShiftChildren(node: Node, p: nat, child: Node)
      requires p <= node.numKeys + 1 < |node.children|
      modifies node`children
      ensures |node.children| == old(|node.children|)
      ensures node.children[..node.numKeys + 2] == InsertAt(old(node.children[..node.numKeys + 1]), p, child)
    {
      var i := node.numKeys + 1;
      while i > p
        invariant p <= i <= node.numKeys + 1 && |node.children| == old(|node.children|)
        invariant forall j :: 0 <= j <= i && j <= node.numKeys ==> node.children[j] == old(node.children[j])
        invariant forall j :: i < j <= node.numKeys + 1 ==> node.children[j] == old(node.children)[j - 1]
      {
        node.children := node.children[i := node.children[i - 1]];
        i := i - 1;
      }
      node.children := node.children[p := child];
      IsInsertAt(node.children[..node.numKeys + 2], old(node.children[..node.numKeys + 1]), p, child);
    }

    static method GetChildIndex(parent: Node, child: Node) returns (index: int)
      requires parent.numKeys < |parent.children|
      ensures index == -1 <==> (forall j :: 0 <= j <= parent.numKeys ==> parent.children[j] != child)
      ensures index != -1 ==> 0 <= index <= parent.numKeys && parent.children[index] == child
    {
      for i := 0 to parent.numKeys + 1
        invariant forall j :: 0 <= j < i ==> parent.children[j] != child
      {
        if parent.children[i] == child {
          return i;
        }
      }
      return -1;
    }

    // A temporary array of split_internal_and_insert: s copied, the end moved up by one, x put in.
    static method Widened<T>(s: seq<T>, p: nat, x: T) returns (temp: array<T>)
      requires p <= |s|
      ensures fresh(temp) && temp[..] == InsertAt(s, p, x)
    {
      temp := new T[|s| + 1](_ => x);
      for i := 0 to |s|
        invariant forall j :: 0 <= j < i ==> temp[j] == s[j]
      {
        temp[i] := s[i];
      }
      var i := |s|;
      while i > p
        invariant p <= i <= |s|
        invariant forall j :: 0 <= j <= i && j < |s| ==> temp[j] == s[j]
        invariant forall j :: i < j <= |s| ==> temp[j] == s[j - 1]
      {
        temp[i] := temp[i - 1];
        i := i - 1;
      }
      temp[p] := x;
      IsInsertAt(temp[..], s, p, x);
    }

    // The full node with the separator and the new child put in.
    static method MergeInternal(node: Node, leftIndex: nat, key: Key, right: Node)
      returns (tempKeys: array<Key>, tempChildren: array<Node?>)
      requires node.numKeys == |node.keys| && |node.children| == |node.keys| + 1
      requires leftIndex <= node.numKeys
      ensures fresh(tempKeys) && fresh(tempChildren)
      ensures tempKeys[..] == InsertAt(node.keys, leftIndex, key)
      ensures tempChildren[..] == InsertAt(node.children, leftIndex + 1, right)
    {
      tempKeys := Widened(node.keys, leftIndex, key);
      tempChildren := Widened(node.children, leftIndex + 1, right);
    }

    // One of the two copy loops of split_internal_and_insert, with the child that follows it; the
    // moved children are re-parented.
    static method FillInternal(node: Node, tempKeys: array<Key>, tempChildren: array<Node?>, from: nat, count: nat,
                               ghost keys: seq<Key>, ghost moved: seq<Node?>, ghost kids: set<Node>)
      requires |node.keys| >= count && |node.children| > count && node !in kids
      requires from + count <= tempKeys.Length && from + count < tempChildren.Length
      requires keys == tempKeys[from..from + count] && moved == tempChildren[from..from + count + 1]
      requires forall c: Node? :: c in moved ==> c != null && c in kids
      modifies node`keys, node`children, node`numKeys, kids`parent
      ensures |node.keys| == old(|node.keys|) && |node.children| == old(|node.children|)
      ensures node.numKeys == count
      ensures node.keys[..count] == keys && node.children[..count + 1] == moved
      ensures forall c :: c in kids ==> c.parent == (if c in moved then node else old(c.parent))
    {
      node.numKeys := 0;
      node.children := seq(|node.children|, _ => null);
      for i := 0 to count
        invariant |node.keys| == old(|node.keys|) && |node.children| == old(|node.children|)
        invariant node.numKeys == i
        invariant node.keys[..i] == keys[..i] && node.children[..i] == moved[..i]
        invariant forall c :: c in kids ==> c.parent == (if c in moved[..i] then node else old(c.parent))
      {
        assert moved[i] in moved && moved[..i + 1] == moved[..i] + [moved[i]];
        assert keys[..i + 1] == keys[..i] + [keys[i]];
        node.keys := node.keys[i := tempKeys[from + i]];
        node.children := node.children[i := tempChildren[from + i]];
        assert node.keys[..i + 1] == node.keys[..i] + [keys[i]] && node.children[..i + 1] == node.children[..i] + [moved[i]];
        node.children[i].parent := node;
        node.numKeys := node.numKeys + 1;
      }
      assert moved[count] in moved && moved == moved[..count] + [moved[count]];
      node.children := node.children[count := tempChildren[from + count]];
      node.children[count].parent := node;
    }

    // x is what the node becomes.
    static method BecomeInternal(cap: nat, node: Node, tempKeys: array<Key>, tempChildren: array<Node?>,
                                 from: nat, count: nat, ghost x: Image, ghost kids: set<Node>)
      requires |node.keys| == |node.records| == cap && |node.children| == cap + 1 && count <= cap && node !in kids
      requires from + count <= tempKeys.Length && from + count < tempChildren.Length
      requires x.keys == tempKeys[from..from + count] && x.children == tempChildren[from..from + count + 1]
      requires !node.isLeaf && x == Image(false, node.level, node.lo, x.hi, x.keys, x.children, [], node.next)
      requires forall c: Node? :: c in x.children ==> c != null && c in kids
      modifies node`keys, node`children, node`numKeys, node`hi, kids`parent
      ensures node.Shows(cap, x)
      ensures forall c :: c in kids ==> c.parent == (if c in x.children then node else old(c.parent))
    {
      FillInternal(node, tempKeys, tempChildren, from, count, x.keys, x.children, kids);
      node.hi := x.hi;
    }

    // The branch of insert_into_parent for a split root.
    static method NewRoot(cap: nat, left: Node, key: Key, right: Node, ghost level: nat) returns (newRoot: Node)
      requires cap >= 2
      modifies left`parent, right`parent
      ensures fresh(newRoot) && newRoot.Shows(cap, NewRootImage(level, left, key, right))
      ensures newRoot.parent == null && left.parent == right.parent == newRoot
    {
      newRoot := new Node(false, cap, level, INT_MIN, INT_END);
      newRoot.keys := newRoot.keys[0 := key];
      newRoot.children := newRoot.children[0 := left];
      newRoot.children := newRoot.children[1 := right];
      newRoot.numKeys := 1;
      left.parent := newRoot;
      right.parent := newRoot;
    }

    // The nodes in the heap now show u.
    ghost method Adopt(u: Index)
      requires u.cap == cap && u.root == root && u.nodes.Keys == u.up.Keys
      requires Bodies(cap, u.nodes) && Parents(u.up)
      modifies this`t
      ensures t == u && Linked()
    {
      t := u;
    }

    method LinkNewRoot(left: Node, key: Key, right: Node) returns (newRoot: Node)
      requires Linked() && cap >= 2 && left in t.nodes && right in t.nodes && left != right
      modifies this, left`parent, right`parent
      ensures fresh(newRoot) && newRoot !in old(t).nodes && t.nodes.Keys == old(t.nodes.Keys) + {newRoot}
      ensures Linked() && t == GrowRoot(old(t), left, key, right, newRoot)
    {
      newRoot := NewRoot(cap, left, key, right, t.nodes[left].level + 1);
      BodiesPlus(cap, t.nodes, newRoot, NewRootImage(t.nodes[left].level + 1, left, key, right));
      ParentsGrown(t.up, left, right, newRoot);
      root := newRoot;
      Adopt(GrowRoot(t, left, key, right, newRoot));
    }

    method LinkChild(parent: Node, leftIndex: nat, key: Key, right: Node)
      requires Linked() && parent in t.nodes && right in t.nodes && parent != right && !parent.isLeaf
      requires parent.numKeys < cap && leftIndex <= parent.numKeys
      requires leftIndex <= |t.nodes[parent].keys| && leftIndex < |t.nodes[parent].children|
      modifies this`t, parent`keys, parent`children, parent`numKeys, right`parent
      ensures t.nodes.Keys == old(t.nodes.Keys)
      ensures Linked() && t == Enter(old(t), parent, leftIndex, key, right)
    {
      ghost var u := Enter(t, parent, leftIndex, key, right);
      BodiesBut(cap, t.nodes, parent);
      assert parent.Shows(cap, t.nodes[parent]);
      InsertIntoInternal(parent, leftIndex, key, right);
      assert parent.Shows(cap, u.nodes[parent]);
      BodiesWith(cap, t.nodes, parent, u.nodes[parent]);
      t := u;
    }

    // The copy loops of split_internal_and_insert: x is the image of oldNode with the separator and
    // the waiting child put in, and the arrays hold its keys and children.
    static method DealOut(cap: nat, oldNode: Node, newNode: Node, tempKeys: array<Key>, tempChildren: array<Node?>,
                          ghost x: Image, ghost left: Image, ghost right: Image, ghost kids: set<Node>)
      requires cap >= 2 && |oldNode.keys| == |oldNode.records| == cap && |oldNode.children| == cap + 1
      requires |newNode.keys| == |newNode.records| == cap && |newNode.children| == cap + 1
      requires tempKeys[..] == x.keys && tempChildren[..] == x.children && |x.keys| == cap + 1 && |x.children| == cap + 2
      requires oldNode != newNode && !oldNode.isLeaf && !newNode.isLeaf
      requires x == Image(false, oldNode.level, oldNode.lo, oldNode.hi, x.keys, x.children, [], oldNode.next)
      requires newNode.level == oldNode.level && newNode.lo == x.keys[(cap + 1) / 2] && newNode.hi == oldNode.hi
      requires newNode.next == null && left == LeftHalf(x) && right == RightHalf(x)
      requires oldNode !in kids && newNode !in kids && forall c: Node? :: c in x.children ==> c != null && c in kids
      modifies oldNode`keys, oldNode`children, oldNode`numKeys, oldNode`hi
      modifies newNode`keys, newNode`children, newNode`numKeys, newNode`hi, kids`parent
      ensures oldNode.Shows(cap, left) && newNode.Shows(cap, right)
      ensures forall c :: c in kids ==>
        c.parent == if c in right.children then newNode else if c in left.children then oldNode else old(c.parent)
    {
      var totalKeys := cap + 1;
      var split := totalKeys / 2;
      Prefix(x.keys, split);
      Prefix(x.keys, split + 1);
      Prefix(x.children, split + 1);
      BecomeInternal(cap, oldNode, tempKeys, tempChildren, 0, split, left, kids);
      BecomeInternal(cap, newNode, tempKeys, tempChildren, split + 1, totalKeys - split - 1, right, kids);
    }

    static method NewSibling(cap: nat, node: Node, lo: Key) returns (newNode: Node)
      ensures fresh(newNode) && newNode.isLeaf == node.isLeaf && newNode.parent == node.parent && newNode.next == null
      ensures |newNode.keys| == |newNode.records| == cap && |newNode.children| == cap + 1
      ensures newNode.level == node.level && newNode.lo == lo && newNode.hi == node.hi
    {
      newNode := new Node(node.isLeaf, cap, node.level, lo, node.hi);
      newNode.parent := node.parent;
    }

    // The merged arrays, the key in their middle and the empty node for what comes after it.
    static method MakeSibling(cap: nat, oldNode: Node, leftIndex: nat, key: Key, right: Node, ghost x: Image)
      returns (newNode: Node, promoted: Key, tempKeys: array<Key>, tempChildren: array<Node?>)
      requires oldNode.numKeys == |oldNode.keys| == cap && |oldNode.children| == cap + 1 && leftIndex <= cap
      requires x.keys == InsertAt(oldNode.keys, leftIndex, key) && x.children == InsertAt(oldNode.children, leftIndex + 1, right)
      ensures fresh(tempKeys) && fresh(tempChildren) && tempKeys[..] == x.keys && tempChildren[..] == x.children
      ensures fresh(newNode) && newNode.isLeaf == oldNode.isLeaf && newNode.parent == oldNode.parent && newNode.next == null
      ensures |newNode.keys| == |newNode.records| == cap && |newNode.children| == cap + 1
      ensures newNode.level == oldNode.level && newNode.hi == oldNode.hi
      ensures newNode.lo == promoted == x.keys[(cap + 1) / 2]
    {
      tempKeys, tempChildren := MergeInternal(oldNode, leftIndex, key, right);
      promoted := tempKeys[(oldNode.numKeys + 1) / 2];
      newNode := NewSibling(cap, oldNode, promoted);
    }

    static method DivideInternal(cap: nat, oldNode: Node, leftIndex: nat, key: Key, right: Node,
                                 ghost x: Image, ghost left: Image, ghost rest: Image, ghost kids: set<Node>)
      returns (newNode: Node, promoted: Key)
      requires cap >= 2 && !oldNode.isLeaf && oldNode.numKeys == |oldNode.keys| == |oldNode.records| == cap
      requires |oldNode.children| == cap + 1 && leftIndex <= cap
      requires x.keys == InsertAt(oldNode.keys, leftIndex, key) && x.children == InsertAt(oldNode.children, leftIndex + 1, right)
      requires x == Image(false, oldNode.level, oldNode.lo, oldNode.hi, x.keys, x.children, [], oldNode.next)
      requires left == LeftHalf(x) && rest == RightHalf(x)
      requires oldNode !in kids && forall c: Node? :: c in x.children ==> c != null && c in kids
      modifies oldNode`keys, oldNode`children, oldNode`numKeys, oldNode`hi, kids`parent
      ensures fresh(newNode) && newNode.lo == promoted && newNode.parent == oldNode.parent
      ensures oldNode.Shows(cap, left) && newNode.Shows(cap, rest)
      ensures forall c :: c in kids ==>
        c.parent == if c in rest.children then newNode else if c in left.children then oldNode else old(c.parent)
    {
      var tempKeys, tempChildren;
      newNode, promoted, tempKeys, tempChildren := MakeSibling(cap, oldNode, leftIndex, key, right, x);
      DealOut(cap, oldNode, newNode, tempKeys, tempChildren, x, left, rest, kids);
    }

    method DivideLinked(oldNode: Node, leftIndex: nat, key: Key, right: Node, ghost x: Image)
      returns (newNode: Node, promoted: Key)
      requires Linked() && oldNode in t.nodes && !oldNode.isLeaf && oldNode.numKeys == cap >= 2 && leftIndex <= cap
      requires |t.nodes[oldNode].keys| == cap && |t.nodes[oldNode].children| == cap + 1
      requires x == t.nodes[oldNode].(keys := InsertAt(t.nodes[oldNode].keys, leftIndex, key),
                                      children := InsertAt(t.nodes[oldNode].children, leftIndex + 1, right))
      requires forall c: Node? :: c in x.children ==> c != null && c in t.nodes && c != oldNode
      modifies oldNode`keys, oldNode`children, oldNode`numKeys, oldNode`hi, t.nodes.Keys`parent
      ensures fresh(newNode) && newNode !in t.nodes && newNode.parent == oldNode.parent == t.up[oldNode] && promoted == newNode.lo
      ensures Bodies(cap, t.nodes[oldNode := LeftHalf(x)][newNode := RightHalf(x)])
      ensures forall c :: c in t.up && c != oldNode ==>
        c.parent == if c in RightHalf(x).children then newNode else if c in LeftHalf(x).children then oldNode else t.up[c]
    {
      assert oldNode.Shows(cap, t.nodes[oldNode]);
      assert oldNode.keys[..cap] == oldNode.keys && oldNode.children[..cap + 1] == oldNode.children;
      BodiesBut(cap, t.nodes, oldNode);
      ghost var left, rest := LeftHalf(x), RightHalf(x);
      newNode, promoted := DivideInternal(cap, oldNode, leftIndex, key, right, x, left, rest, t.nodes.Keys - {oldNode});
      BodiesWithTwo(cap, t.nodes, oldNode, left, newNode, rest);
    }

    static lemma ParentsDivided(up: map<Node, Node?>, left: seq<Node?>, moved: seq<Node?>, oldNode: Node, newNode: Node)
      requires oldNode in up && newNode !in up && oldNode !in moved && newNode !in moved
      requires forall c :: c in up && c in left ==> up[c] == oldNode
      requires forall c :: c in up && c != oldNode ==>
        c.parent == if c in moved then newNode else if c in left then oldNode else up[c]
      requires oldNode.parent == newNode.parent == up[oldNode]
      ensures Parents(Reparented(up, moved, newNode)[newNode := up[oldNode]])
    {
    }

    static lemma HalvesChildren(up: map<Node, Node?>, x: Image, oldNode: Node, newNode: Node)
      requires |x.keys| >= 1 && |x.children| == |x.keys| + 1 && newNode !in up
      requires forall c: Node? :: c in x.children ==> c != null && c in up && c != oldNode && up[c] == oldNode
      ensures oldNode !in RightHalf(x).children && newNode !in RightHalf(x).children
      ensures forall c :: c in up && c in LeftHalf(x).children ==> up[c] == oldNode
    {
      Prefix(x.children, |x.keys| / 2 + 1);
    }

    static lemma DividedKeys(t: Index, oldNode: Node, x: Image, newNode: Node)
      requires |x.keys| >= 1 && |x.children| == |x.keys| + 1 && oldNode in t.nodes && t.nodes.Keys == t.up.Keys
      ensures var u := DivideTo(t, oldNode, x, newNode); u.nodes.Keys == u.up.Keys == t.nodes.Keys + {newNode}
    {
    }

    method LinkSplit(oldNode: Node, leftIndex: nat, key: Key, right: Node, ghost x: Image)
      returns (newNode: Node, promoted: Key)
      requires Linked() && oldNode in t.nodes && !oldNode.isLeaf && oldNode.numKeys == cap >= 2 && leftIndex <= cap
      requires |t.nodes[oldNode].keys| == cap && |t.nodes[oldNode].children| == cap + 1
      requires x == t.nodes[oldNode].(keys := InsertAt(t.nodes[oldNode].keys, leftIndex, key),
                                      children := InsertAt(t.nodes[oldNode].children, leftIndex + 1, right))
      requires forall c: Node? :: c in x.children ==> c != null && c in t.nodes && c != oldNode && t.Parent(c) == oldNode
      modifies this`t, oldNode`keys, oldNode`children, oldNode`numKeys, oldNode`hi, t.nodes.Keys`parent
      ensures fresh(newNode) && newNode !in old(t).nodes && t.nodes.Keys == old(t.nodes.Keys) + {newNode}
      ensures Linked() && t == DivideTo(old(t), oldNode, x, newNode)
      ensures promoted == newNode.lo
    {
      newNode, promoted := DivideLinked(oldNode, leftIndex, key, right, x);
      HalvesChildren(t.up, x, oldNode, newNode);
      ParentsDivided(t.up, LeftHalf(x).children, RightHalf(x).children, oldNode, newNode);
      DividedKeys(t, oldNode, x, newNode);
      Adopt(DivideTo(t, oldNode, x, newNode));
    }

    // ----- the cascade -----

    // insert_into_parent: enter right, the new sibling of left, into the level above.
    method InsertIntoParent(left: Node, key: Key, right: Node)
      requires Linked() && Inv(t, Halves(left, right)) && key == right.lo
      modifies this, t.nodes.Keys
      ensures Valid() && fresh(t.nodes.Keys - old(t.nodes.Keys))
      ensures t.contents == old(t.contents)
      decreases root.level - left.level, 1
    {
      ghost var was := t;
      assert UpOk(t, left, Halves(left, right));
      assert left.Shows(cap, t.nodes[left]) && right.Shows(cap, t.nodes[right]);
      if left.parent == null {
        var newRoot := LinkNewRoot(left, key, right);
        GrowRootValid(was, left, key, right, newRoot);
      } else {
        var parent := left.parent;
        assert Shape(t.nodes[parent], cap) && parent.Shows(cap, t.nodes[parent]);
        var leftIndex := GetChildIndex(parent, left);
        assert leftIndex != -1 ==> t.nodes[parent].children[leftIndex] == left;
        if leftIndex == -1 {
          assert false;  // the "inconsistencia" branch cannot be reached
        } else if parent.numKeys < cap {
          LinkChild(parent, leftIndex, key, right);
          EnterValid(was, parent, leftIndex, left, key, right);
        } else {
          SplitInternalAndInsert(left, parent, leftIndex, key, right);
        }
      }
    }

    method SplitInternal(left: Node, oldNode: Node, leftIndex: nat, key: Key, right: Node)
      returns (newNode: Node, promoted: Key)
      requires Linked() && Sited(t, oldNode, leftIndex, left, key, right)
      requires oldNode.numKeys == cap
      modifies this`t, t.nodes.Keys
      ensures Linked() && Inv(t, Halves(oldNode, newNode)) && promoted == newNode.lo
      ensures fresh(newNode) && t.nodes.Keys == old(t.nodes.Keys) + {newNode}
      ensures t.contents == old(t.contents)
      ensures left.level < oldNode.level <= root.level
    {
      ghost var was := t;
      SitedKids(t, oldNode, leftIndex, left, key, right);
      assert oldNode.Shows(cap, t.nodes[oldNode]) && left.Shows(cap, t.nodes[left]) && root.Shows(cap, t.nodes[root]);
      ghost var x := Enter(t, oldNode, leftIndex, key, right).nodes[oldNode];
      EntriesOf(t.nodes[oldNode].children, leftIndex + 1, right);
      newNode, promoted := LinkSplit(oldNode, leftIndex, key, right, x);
      SplitWaits(was, oldNode, leftIndex, left, key, right, newNode);
    }

    method SplitInternalAndInsert(left: Node, oldNode: Node, leftIndex: nat, key: Key, right: Node)
      requires Linked() && Sited(t, oldNode, leftIndex, left, key, right)
      requires oldNode.numKeys == cap
      modifies this, t.nodes.Keys
      ensures Valid() && fresh(t.nodes.Keys - old(t.nodes.Keys))
      ensures t.contents == old(t.contents)
      decreases root.level - left.level, 0
    {
      var newNode, promoted := SplitInternal(left, oldNode, leftIndex, key, right);
      InsertIntoParent(oldNode, promoted, newNode);
    }

    // ----- the leaf level -----

    method LinkOverwrite(leaf: Node, i: nat, record: RecordRef)
      requires Linked() && leaf in t.nodes && leaf.isLeaf && i < leaf.numKeys
      requires i < |t.nodes[leaf].keys| == |t.nodes[leaf].records|
      modifies this`t, leaf`records
      ensures Linked() && t == Overwrite(old(t), leaf, i, record)
    {
      BodiesBut(cap, t.nodes, leaf);
      assert leaf.Shows(cap, t.nodes[leaf]);
      leaf.records := leaf.records[i := record];
      BodiesWith(cap, t.nodes, leaf, t.nodes[leaf].(records := t.nodes[leaf].records[i := record]));
      t := Overwrite(t, leaf, i, record);
    }

    method LinkPut(leaf: Node, key: Key, record: RecordRef) returns (ghost p: nat)
      requires Linked() && leaf in t.nodes && leaf.isLeaf && leaf.numKeys < cap
      requires |t.nodes[leaf].keys| == |t.nodes[leaf].records| && key !in t.nodes[leaf].keys
      modifies this`t, leaf`keys, leaf`records, leaf`numKeys
      ensures p <= |old(t).nodes[leaf].keys|
      ensures var x := old(t).nodes[leaf]; (p > 0 ==> x.keys[p - 1] < key) && (p < |x.keys| ==> key < x.keys[p])
      ensures Linked() && t == Put(old(t), leaf, p, key, record)
    {
      BodiesBut(cap, t.nodes, leaf);
      assert leaf.Shows(cap, t.nodes[leaf]);
      assert forall i :: 0 <= i < leaf.numKeys ==> t.nodes[leaf].keys[i] == leaf.keys[i];
      p := InsertIntoLeaf(leaf, key, record);
      BodiesWith(cap, t.nodes, leaf, Put(t, leaf, p, key, record).nodes[leaf]);
      Adopt(Put(t, leaf, p, key, record));
    }

    // The copy loops of split_leaf_and_insert: x is the image of the leaf with the new pair merged in,
    // and the arrays hold its keys and records.
    static method DivideLeafArrays(cap: nat, leaf: Node, newLeaf: Node, tempKeys: array<Key>,
                                   tempRecords: array<RecordRef>, ghost x: Image)
      requires cap >= 2 && |leaf.keys| == |leaf.records| == cap && |leaf.children| == cap + 1
      requires |newLeaf.keys| == |newLeaf.records| == cap && |newLeaf.children| == cap + 1
      requires tempKeys[..] == x.keys && tempRecords[..] == x.records && |x.keys| == |x.records| == cap + 1
      requires leaf != newLeaf && leaf.isLeaf && newLeaf.isLeaf && newLeaf.level == 0
      requires x == Image(true, leaf.level, leaf.lo, leaf.hi, x.keys, [], x.records, leaf.next)
      requires newLeaf.lo == x.keys[(cap + 1) / 2] && newLeaf.hi == leaf.hi
      modifies leaf`keys, leaf`records, leaf`numKeys, leaf`next, leaf`hi
      modifies newLeaf`keys, newLeaf`records, newLeaf`numKeys, newLeaf`next
      ensures leaf.Shows(cap, LeftLeaf(x, newLeaf)) && newLeaf.Shows(cap, RightLeaf(x))
    {
      var split := (cap + 1) / 2;
      Prefix(x.keys, split);
      Prefix(x.records, split);
      FillLeaf(leaf, tempKeys, tempRecords, 0, split);
      FillLeaf(newLeaf, tempKeys, tempRecords, split, cap + 1 - split);
      newLeaf.next := leaf.next;
      leaf.next := newLeaf;
      leaf.hi := newLeaf.lo;
    }

    static method DivideLeafNode(cap: nat, leaf: Node, key: Key, record: RecordRef, ghost y: Image)
      returns (newLeaf: Node, ghost p: nat, ghost x: Image)
      requires cap >= 2 && leaf.isLeaf && leaf.level == 0 && leaf.numKeys == cap && leaf.Shows(cap, y)
      requires y.keys == leaf.keys && y.records == leaf.records && key !in y.keys
      modifies leaf`keys, leaf`records, leaf`numKeys, leaf`next, leaf`hi
      ensures fresh(newLeaf) && newLeaf.parent == leaf.parent
      ensures p <= cap && (p > 0 ==> y.keys[p - 1] < key) && (p < cap ==> key < y.keys[p])
      ensures x == y.(keys := InsertAt(y.keys, p, key), records := InsertAt(y.records, p, record))
      ensures leaf.Shows(cap, LeftLeaf(x, newLeaf)) && newLeaf.Shows(cap, RightLeaf(x))
      ensures 0 < newLeaf.numKeys <= |newLeaf.keys| && newLeaf.keys[0] == newLeaf.lo
    {
      var tempKeys, tempRecords;
      tempKeys, tempRecords, p := MergeLeaf(leaf, key, record);
      x := y.(keys := tempKeys[..], records := tempRecords[..]);
      newLeaf := NewSibling(cap, leaf, tempKeys[(cap + 1) / 2]);
      DivideLeafArrays(cap, leaf, newLeaf, tempKeys, tempRecords, x);
      assert newLeaf.keys[0] == RightLeaf(x).keys[0];
    }

    // split_leaf_and_insert up to the call of insert_into_parent: the heap changes ...
    method DivideLinkedLeaf(leaf: Node, key: Key, record: RecordRef) returns (newLeaf: Node, ghost p: nat, ghost x: Image)
      requires Linked() && leaf in t.nodes && leaf.isLeaf && leaf.level == 0 && leaf.numKeys == cap >= 2
      requires |t.nodes[leaf].keys| == |t.nodes[leaf].records| == cap && key !in t.nodes[leaf].keys
      modifies leaf`keys, leaf`records, leaf`numKeys, leaf`next, leaf`hi
      ensures fresh(newLeaf) && newLeaf !in t.nodes && newLeaf.parent == t.up[leaf]
      ensures p <= cap
      ensures (p > 0 ==> t.nodes[leaf].keys[p - 1] < key) && (p < cap ==> key < t.nodes[leaf].keys[p])
      ensures x == t.nodes[leaf].(keys := InsertAt(t.nodes[leaf].keys, p, key), records := InsertAt(t.nodes[leaf].records, p, record))
      ensures Bodies(cap, t.nodes[leaf := LeftLeaf(x, newLeaf)][newLeaf := RightLeaf(x)])
      ensures 0 < newLeaf.numKeys <= |newLeaf.keys| && newLeaf.keys[0] == newLeaf.lo
    {
      assert leaf.Shows(cap, t.nodes[leaf]);
      assert leaf.keys[..cap] == leaf.keys && leaf.records[..cap] == leaf.records;
      BodiesBut(cap, t.nodes, leaf);
      newLeaf, p, x := DivideLeafNode(cap, leaf, key, record, t.nodes[leaf]);
      BodiesWithTwo(cap, t.nodes, leaf, LeftLeaf(x, newLeaf), newLeaf, RightLeaf(x));
    }

    // ... and the tree they leave behind.
    method SplitLeaf(leaf: Node, key: Key, record: RecordRef) returns (newLeaf: Node)
      requires Valid() && Responsible(t, leaf, key) && key !in t.contents && leaf.numKeys == cap
      modifies this`t, leaf`keys, leaf`records, leaf`numKeys, leaf`next, leaf`hi
      ensures fresh(newLeaf) && t.nodes.Keys == old(t.nodes.Keys) + {newLeaf}
      ensures t.contents == old(t.contents)[key := record]
      ensures Linked() && Inv(t, Halves(leaf, newLeaf))
      ensures 0 < newLeaf.numKeys <= |newLeaf.keys| && newLeaf.keys[0] == newLeaf.lo
    {
      ghost var at := LeafPlace(t, leaf, key);
      assert leaf.Shows(cap, t.nodes[leaf]);
      ghost var p, x;
      newLeaf, p, x := DivideLinkedLeaf(leaf, key, record);
      SplitLeafWaits(t, leaf, p, key, record, at, newLeaf);
      ParentsPlus(t.up, newLeaf, t.up[leaf]);
      Adopt(DivideLeafTo(t, leaf, x, at, newLeaf, key, record));
    }

    method SplitLeafAndInsert(leaf: Node, key: Key, record: RecordRef)
      requires Valid() && Responsible(t, leaf, key) && key !in t.contents && leaf.numKeys == cap
      modifies this, t.nodes.Keys
      ensures Valid() && fresh(t.nodes.Keys - old(t.nodes.Keys))
      ensures t.contents == old(t.contents)[key := record]
    {
      var newLeaf := SplitLeaf(leaf, key, record);
      InsertIntoParent(leaf, newLeaf.keys[0], newLeaf);
    }

    // btree_insert: whatever cascade of splits follows, the map is updated at key.
    method Insert(key: Key, pageId: int, slotId: int)
      requires Valid()
      modifies this, t.nodes.Keys
      ensures Valid() && fresh(t.nodes.Keys - old(t.nodes.Keys))
      ensures t.contents == old(t.contents)[key := RecordRef(pageId, slotId)]
    {
      var found, _ := Search(key);
      if found {
        var leaf, _ := FindLeaf(key);
        assert leaf.Shows(cap, t.nodes[leaf]) && Holds(t, leaf) && HasKey(t.nodes[leaf], key);
        for i := 0 to leaf.numKeys
          invariant Valid() && unchanged(this, t.nodes.Keys)
          invariant forall j :: 0 <= j < i ==> t.nodes[leaf].keys[j] != key
        {
          if leaf.keys[i] == key {
            OverwriteValid(t, leaf, i, RecordRef(pageId, slotId));
            LinkOverwrite(leaf, i, RecordRef(pageId, slotId));
            return;
          }
        }
      }
      var record := RecordRef(pageId, slotId);
      var leaf, _ := FindLeaf(key);
      assert leaf.Shows(cap, t.nodes[leaf]) && Holds(t, leaf) && Shape(t.nodes[leaf], cap);
      if leaf.numKeys < cap {
        ghost var was := t;
        ghost var p := LinkPut(leaf, key, record);
        PutValid(was, leaf, p, key, record);
      } else {
        SplitLeafAndInsert(leaf, key, record);
      }
    }
  }
}
