/**
 * Attaching a new leaf in the empty child slot the search found (lines 93-97 of
 * `_insert_with_stats`), and keeping the min/max fingers (`_update_min_max_on_insert`).
 *
 * The new node gets the next free id, `|ns|`, and joins the subtree set of every ancestor of
 * its parent. Attaching keeps the pool a tree with exact parent links and keeps the search
 * order; it adds one copy of the key to the stored keys; and in an AVL tree it leaves the
 * pool in the state the rebalancing walk expects at the parent.
 */
module Insertion {
  import opened Pool
  import opened TreeFacts
  import opened Search
  import opened Rebalance

  /** `AVLNode(key, 1, parent=parent)`: frequency 1, height 1, no children. */
  function Leaf(key: int, parent: int): (r: Node)
    ensures r.key == key && r.value == 1 && r.parent == parent
    ensures r.left == -1 && r.right == -1 && r.height == 1
  {
    Node(key, 1, -1, -1, parent, 1)
  }

  /** The pool after the new leaf is linked in as the `dir` child of `p` (left when `dir < 0`). */
  function Attached(ns: seq<Node>, p: int, dir: int, key: int): seq<Node>
    requires 0 <= p < |ns|
  {
    var n := |ns|;
    var ns1 := if dir < 0 then ns[p := ns[p].(left := n)] else ns[p := ns[p].(right := n)];
    ns1 + [Leaf(key, p)]
  }

  /**
   * Where the attach puts the new leaf: it gets the next id `|ns|` with `p` as its parent and
   * fills `p`'s left slot when `dir < 0`, its right slot otherwise; no other node changes.
   */
  lemma AttachedSlot(ns: seq<Node>, p: int, dir: int, key: int)
    requires 0 <= p < |ns|
    ensures var ns' := Attached(ns, p, dir, key); var n := |ns|;
      && |ns'| == n + 1 && ns'[n] == Leaf(key, p) && ns'[n].value == 1
      && ns'[p] == (if dir < 0 then ns[p].(left := n) else ns[p].(right := n))
      && forall j | 0 <= j < n && j != p :: ns'[j] == ns[j]
  {
  }

  /** Subtree sets after the attach: the new id joins the set of every ancestor of `p` (and of `p`). */
  ghost function AttachedSub(sub: seq<set<int>>, p: int): seq<set<int>> {
    seq(|sub| + 1, i requires 0 <= i <= |sub| =>
      if i == |sub| then {|sub|} else if p in sub[i] then sub[i] + {|sub|} else sub[i])
  }

  lemma AttachSubAt(ns: seq<Node>, sub: seq<set<int>>, root: int, p: int, dir: int, key: int, i: int)
    requires Shape(ns, sub, root) && Slot(ns, sub, p, dir, key)
    requires LinksInRange(Attached(ns, p, dir, key)) && 0 <= i <= |ns|
    ensures SubAt(Attached(ns, p, dir, key), AttachedSub(sub, p), i)
  {
    var ns', sub', n := Attached(ns, p, dir, key), AttachedSub(sub, p), |ns|;
    if i < n {
      assert SubAt(ns, sub, i);
      var l, r := ns[i].left, ns[i].right;
      if l != -1 {
        assert SubAt(ns, sub, l);
      }
      if r != -1 {
        assert SubAt(ns, sub, r);
      }
      if i == p {
        assert p in sub[p];
      }
    }
  }

  /** Attaching keeps the pool one tree, with exact parent links, rooted where it was. */
  lemma AttachShape(ns: seq<Node>, sub: seq<set<int>>, root: int, p: int, dir: int, key: int)
    requires Shape(ns, sub, root) && Slot(ns, sub, p, dir, key)
    ensures Shape(Attached(ns, p, dir, key), AttachedSub(sub, p), root)
    ensures |Attached(ns, p, dir, key)| == |ns| + 1
  {
    var ns', sub', n := Attached(ns, p, dir, key), AttachedSub(sub, p), |ns|;
    assert LinksInRange(ns');
    forall i | 0 <= i < |ns'| ensures SubAt(ns', sub', i) {
      AttachSubAt(ns, sub, root, p, dir, key, i);
    }
    forall i | 0 <= i < |ns'| ensures LinkedAt(ns', root, i) {
      if i < n {
        assert LinkedAt(ns, root, i);
      }
    }
    assert SubAt(ns, sub, p);
    assert p in sub[root];
  }

  /** Attaching at a slot the key fits keeps the search order. */
  lemma AttachOrdered(ns: seq<Node>, sub: seq<set<int>>, root: int, p: int, dir: int, key: int)
    requires Shape(ns, sub, root) && Ordered(ns, sub) && Slot(ns, sub, p, dir, key)
    ensures Shape(Attached(ns, p, dir, key), AttachedSub(sub, p), root)
    ensures Ordered(Attached(ns, p, dir, key), AttachedSub(sub, p))
  {
    AttachShape(ns, sub, root, p, dir, key);
    var ns', sub', n := Attached(ns, p, dir, key), AttachedSub(sub, p), |ns|;
    forall i | 0 <= i < |ns'| ensures OrderedAt(ns', sub', i) {
      if i < n {
        assert OrderedAt(ns, sub, i) && SubAt(ns, sub, i);
        var l, r := ns[i].left, ns[i].right;
        if l != -1 {
          assert SubAt(ns, sub, l);
        }
        if r != -1 {
          assert SubAt(ns, sub, r);
        }
      }
    }
  }

  /** Attaching adds exactly one copy of the key to the stored keys. */
  lemma AttachBag(ns: seq<Node>, p: int, dir: int, key: int)
    requires 0 <= p < |ns|
    ensures Bag(Attached(ns, p, dir, key)) == Bag(ns) + multiset{key}
  {
    var n := |ns|;
    var ns1 := if dir < 0 then ns[p := ns[p].(left := n)] else ns[p := ns[p].(right := n)];
    BagSameEntries(ns, ns1);
    BagAppend(ns1, Leaf(key, p));
  }

  /** A node other than the parent and the grandparent keeps its children and their heights, so stays consistent and balanced; so is the new leaf. */
  lemma AttachOthersOK(ns: seq<Node>, root: int, p: int, dir: int, key: int, i: int)
    requires LinksInRange(ns) && ParentLinks(ns, root) && AVL(ns) && 0 <= p < |ns|
    requires LinksInRange(Attached(ns, p, dir, key))
    requires 0 <= i <= |ns| && i != p && i != ns[p].parent
    ensures LocalOK(Attached(ns, p, dir, key), i)
  {
    var ns' := Attached(ns, p, dir, key);
    if i < |ns| {
      assert LocalOK(ns, i) && LinkedAt(ns, root, i);
      assert ns'[i] == ns[i];
    }
  }

  /** The parent grows by at most one over its old height `h0` after the attach, and the grandparent still fits `h0`. */
  lemma AttachAtParent(ns: seq<Node>, sub: seq<set<int>>, root: int, p: int, dir: int, key: int)
    requires Shape(ns, sub, root) && AVL(ns) && Slot(ns, sub, p, dir, key)
    requires LinksInRange(Attached(ns, p, dir, key))
    ensures CurOK(Attached(ns, p, dir, key), p, ns[p].height)
    ensures ParentOK(Attached(ns, p, dir, key), p, ns[p].height)
  {
    var ns' := Attached(ns, p, dir, key);
    var g := ns[p].parent;
    assert LocalOK(ns, p) && LinkedAt(ns, root, p);
    if g != -1 {
      assert LocalOK(ns, g) && SubAt(ns, sub, g) && SubAt(ns, sub, p);
      assert Sibling(ns', g, p) == Sibling(ns, g, p);
    }
  }

  /** In an AVL tree, after the attach the rebalancing walk can start at the parent, whose old height is `h0`. */
  lemma AttachWalk(ns: seq<Node>, sub: seq<set<int>>, root: int, p: int, dir: int, key: int)
    requires Shape(ns, sub, root) && AVL(ns) && Slot(ns, sub, p, dir, key)
    ensures Walk(Attached(ns, p, dir, key), AttachedSub(sub, p), root, p, ns[p].height)
  {
    AttachShape(ns, sub, root, p, dir, key);
    var ns' := Attached(ns, p, dir, key);
    var g := ns[p].parent;
    forall i | 0 <= i < |ns'| && i != p && i != g ensures LocalOK(ns', i) {
      AttachOthersOK(ns, root, p, dir, key, i);
    }
    AttachAtParent(ns, sub, root, p, dir, key);
  }

  /**
   * `_update_min_max_on_insert` after an attach: the new node becomes the minimum finger when
   * its key is below the minimum's and the maximum finger when above the maximum's. A key equal
   * to the maximum never reaches an attach (the search returns the maximum node for it).
   */
  lemma AttachFingers(ns: seq<Node>, ns': seq<Node>, root: int, root': int, mn: int, mx: int, key: int)
    requires Fingers(ns, root, mn, mx) && root != -1 && root' != -1
    requires |ns'| == |ns| + 1 && ns'[|ns|].key == key && key != ns[mx].key
    requires forall i | 0 <= i < |ns| :: ns'[i].key == ns[i].key
    ensures Fingers(ns', root', if key < ns[mn].key then |ns| else mn, if key > ns[mx].key then |ns| else mx)
  {
  }

  /** Relinking nodes and recomputing heights (as rebalancing does) keeps the fingers. */
  lemma FingersSameEntries(ns: seq<Node>, ns': seq<Node>, root: int, root': int, mn: int, mx: int)
    requires Fingers(ns, root, mn, mx) && root != -1 && root' != -1 && SameEntries(ns, ns')
    ensures Fingers(ns', root', mn, mx)
  {
  }

  /** The pool after the duplicate path of `_insert_with_stats`: the frequency of node `e` grows by one. */
  function Bumped(ns: seq<Node>, e: int): seq<Node>
    requires 0 <= e < |ns|
  {
    ns[e := ns[e].(value := ns[e].value + 1)]
  }

  lemma BumpShape(ns: seq<Node>, sub: seq<set<int>>, root: int, e: int)
    requires Shape(ns, sub, root) && 0 <= e < |ns|
    ensures Shape(Bumped(ns, e), sub, root)
  {
    var ns' := Bumped(ns, e);
    assert LinksInRange(ns');
    forall i | 0 <= i < |ns'| ensures SubAt(ns', sub, i) {
      assert SubAt(ns, sub, i);
    }
    forall i | 0 <= i < |ns'| ensures LinkedAt(ns', root, i) {
      assert LinkedAt(ns, root, i);
    }
  }

  lemma BumpOrdered(ns: seq<Node>, sub: seq<set<int>>, root: int, e: int)
    requires Shape(ns, sub, root) && Ordered(ns, sub) && 0 <= e < |ns|
    ensures Shape(Bumped(ns, e), sub, root) && Ordered(Bumped(ns, e), sub)
  {
    var ns' := Bumped(ns, e);
    BumpShape(ns, sub, root, e);
    forall i | 0 <= i < |ns'| ensures OrderedAt(ns', sub, i) {
      assert OrderedAt(ns, sub, i);
      forall j | j in S(sub, ns[i].left) + S(sub, ns[i].right) ensures ns'[j].key == ns[j].key {
        assert SubAt(ns, sub, i);
      }
    }
  }

  lemma BumpAVL(ns: seq<Node>, e: int)
    requires LinksInRange(ns) && AVL(ns) && 0 <= e < |ns|
    ensures LinksInRange(Bumped(ns, e)) && AVL(Bumped(ns, e))
  {
    var ns' := Bumped(ns, e);
    forall i | 0 <= i < |ns'| ensures LocalOK(ns', i) {
      assert LocalOK(ns, i);
    }
  }

  /** A repeated key changes only a frequency: the shape, order, balance and fingers stay, and one copy of the key is added. */
  lemma BumpKeeps(ns: seq<Node>, sub: seq<set<int>>, root: int, mn: int, mx: int, e: int)
    requires Shape(ns, sub, root) && Ordered(ns, sub) && AVL(ns) && Fingers(ns, root, mn, mx) && 0 <= e < |ns|
    ensures Shape(Bumped(ns, e), sub, root) && Ordered(Bumped(ns, e), sub) && AVL(Bumped(ns, e))
    ensures Fingers(Bumped(ns, e), root, mn, mx)
    ensures Bag(Bumped(ns, e)) == Bag(ns) + multiset{ns[e].key}
  {
    BagBump(ns, e);
    BumpOrdered(ns, sub, root, e);
    BumpAVL(ns, e);
  }

  /** The tree of one node that the first insertion creates: root and both fingers, holding the key once. */
  lemma SingletonTree(key: int)
    ensures Shape([Leaf(key, -1)], [{0}], 0) && Ordered([Leaf(key, -1)], [{0}]) && AVL([Leaf(key, -1)])
    ensures Fingers([Leaf(key, -1)], 0, 0, 0) && Bag([Leaf(key, -1)]) == multiset{key}
  {
    var ns, sub := [Leaf(key, -1)], [{0}];
    assert LinksInRange(ns);
    assert SubAt(ns, sub, 0) && LinkedAt(ns, 0, 0) && LocalOK(ns, 0);
    assert Bag(ns) == BagUpTo(ns, 0) + Copies(key, 1);
  }
}
