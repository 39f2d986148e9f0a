/**
 * Facts behind `_find_parent_for_insert_from_max`: the search starts at the maximum node,
 * climbs towards the root while the key is below the parent's key, then descends as in a
 * binary search tree.
 *
 * The maximum node holds the one greatest key, so it and every node the climb reaches lie on
 * the right spine of the tree. Where the climb stops, the key is at least the key of every
 * ancestor above, and each descent step keeps the key between the bounds its ancestors set
 * (`Bracketed`). When the descent falls off the tree, the empty child slot it stopped at is a
 * place where a node with the key keeps the search order (`Slot`).
 */
module Search {
  import opened Pool
  import opened TreeFacts

  /** `key` may sit at `v`: it is at most every ancestor that has `v` on its left, and at least every ancestor that has `v` on its right. */
  ghost predicate Bracketed(ns: seq<Node>, sub: seq<set<int>>, v: int, key: int)
    requires LinksInRange(ns) && SubOK(ns, sub)
  {
    forall b | 0 <= b < |ns| ::
      && (v in S(sub, ns[b].left) ==> key <= ns[b].key)
      && (v in S(sub, ns[b].right) ==> ns[b].key <= key)
  }

  /**
   * The empty child slot of `p` on side `dir` (-1 left, +1 right) is where a new node with
   * `key` belongs: the key is strictly on that side of `p`'s key and within `p`'s bounds.
   */
  ghost predicate Slot(ns: seq<Node>, sub: seq<set<int>>, p: int, dir: int, key: int)
    requires LinksInRange(ns) && SubOK(ns, sub)
  {
    && 0 <= p < |ns|
    && (|| (dir == -1 && ns[p].left == -1 && key < ns[p].key)
        || (dir == 1 && ns[p].right == -1 && ns[p].key < key))
    && Bracketed(ns, sub, p, key)
  }

  /** The maximum node is on the right of every ancestor, and nothing is on its right. */
  lemma MaxOnRightSpine(ns: seq<Node>, sub: seq<set<int>>, root: int, mn: int, mx: int, b: int)
    requires Shape(ns, sub, root) && Ordered(ns, sub) && Fingers(ns, root, mn, mx) && root != -1
    requires 0 <= b < |ns|
    ensures mx !in S(sub, ns[b].left)
    ensures b == mx ==> ns[b].right == -1
  {
    assert SubAt(ns, sub, b) && OrderedAt(ns, sub, b);
    if ns[b].right != -1 {
      assert SubAt(ns, sub, ns[b].right);
    }
  }

  /** A node whose subtree holds the maximum node is the right child of its parent. */
  lemma ClimbStep(ns: seq<Node>, sub: seq<set<int>>, root: int, mn: int, mx: int, a: int)
    requires Shape(ns, sub, root) && Ordered(ns, sub) && Fingers(ns, root, mn, mx) && root != -1
    requires 0 <= a < |ns| && mx in sub[a] && ns[a].parent != -1
    ensures var pa := ns[a].parent;
      && 0 <= pa < |ns| && ns[pa].right == a && pa !in sub[a] && sub[a] < sub[pa] && mx in sub[pa]
  {
    var pa := ns[a].parent;
    assert LinkedAt(ns, root, a) && SubAt(ns, sub, pa) && SubAt(ns, sub, a);
    if ns[pa].left == a {
      Nested(ns, sub, a, mx);
      MaxOnRightSpine(ns, sub, root, mn, mx, pa);
    }
  }

  /** Where the climb stops (at the root, or below a parent whose key is at most `key`), the key fits there. */
  lemma DescentStart(ns: seq<Node>, sub: seq<set<int>>, root: int, mn: int, mx: int, a: int, key: int)
    requires Shape(ns, sub, root) && Ordered(ns, sub) && Fingers(ns, root, mn, mx) && root != -1
    requires 0 <= a < |ns| && mx in sub[a]
    requires ns[a].parent != -1 ==> ns[ns[a].parent].key <= key
    ensures Bracketed(ns, sub, a, key)
  {
    forall b | 0 <= b < |ns|
      ensures a in S(sub, ns[b].left) ==> key <= ns[b].key
      ensures a in S(sub, ns[b].right) ==> ns[b].key <= key
    {
      assert SubAt(ns, sub, b) && OrderedAt(ns, sub, b);
      var l, r := ns[b].left, ns[b].right;
      if a in S(sub, l) {
        Nested(ns, sub, l, a);
        Nested(ns, sub, a, mx);
        MaxOnRightSpine(ns, sub, root, mn, mx, b);
      }
      if a in S(sub, r) {
        assert a in sub[b] && a != b;
        ParentInside(ns, sub, root, b, a);
        var pa := ns[a].parent;
        assert LinkedAt(ns, root, a) && SubAt(ns, sub, a);
        if pa != b {
          assert SubAt(ns, sub, pa) && a in sub[pa];
          if pa in S(sub, l) {
            Nested(ns, sub, l, pa);
          }
        }
      }
    }
  }

  /** Stepping from `v` to the child on the side the key points to keeps the key within its bounds. */
  lemma DescentStep(ns: seq<Node>, sub: seq<set<int>>, root: int, v: int, key: int, goLeft: bool)
    requires Shape(ns, sub, root) && 0 <= v < |ns| && Bracketed(ns, sub, v, key)
    requires if goLeft then key < ns[v].key else ns[v].key < key
    requires (if goLeft then ns[v].left else ns[v].right) != -1
    ensures Bracketed(ns, sub, if goLeft then ns[v].left else ns[v].right, key)
  {
    var c := if goLeft then ns[v].left else ns[v].right;
    assert LinkedAt(ns, root, v) && SubAt(ns, sub, v) && SubAt(ns, sub, c);
    forall b | 0 <= b < |ns|
      ensures c in S(sub, ns[b].left) ==> key <= ns[b].key
      ensures c in S(sub, ns[b].right) ==> ns[b].key <= key
    {
      assert LinkedAt(ns, root, b) && SubAt(ns, sub, b);
      var l, r := ns[b].left, ns[b].right;
      if b != v {
        if c in S(sub, l) {
          ParentInside(ns, sub, root, l, c);
        }
        if c in S(sub, r) {
          ParentInside(ns, sub, root, r, c);
        }
      }
    }
  }

  /** A key above the maximum belongs in the empty right slot of the maximum node. */
  lemma FastPath(ns: seq<Node>, sub: seq<set<int>>, root: int, mn: int, mx: int, key: int)
    requires Shape(ns, sub, root) && Ordered(ns, sub) && Fingers(ns, root, mn, mx) && root != -1
    requires ns[mx].key < key
    ensures Slot(ns, sub, mx, 1, key)
  {
    MaxOnRightSpine(ns, sub, root, mn, mx, mx);
    forall b | 0 <= b < |ns|
      ensures mx in S(sub, ns[b].left) ==> key <= ns[b].key
      ensures mx in S(sub, ns[b].right) ==> ns[b].key <= key
    {
      MaxOnRightSpine(ns, sub, root, mn, mx, b);
      assert OrderedAt(ns, sub, b);
    }
  }

  /** The nodes on the downward path from `top` to `low`: those in `top`'s subtree that hold `low` in theirs. */
  ghost function Between(sub: seq<set<int>>, top: int, low: int): set<int>
    requires 0 <= top < |sub|
  {
    set v | v in sub[top] && 0 <= v < |sub| && low in sub[v]
  }

  /** The path from a node to itself is that node alone. */
  lemma BetweenSelf(ns: seq<Node>, sub: seq<set<int>>, v: int)
    requires Tree(ns, sub) && 0 <= v < |ns|
    ensures Between(sub, v, v) == {v}
  {
    assert SubAt(ns, sub, v);
    var l, r := ns[v].left, ns[v].right;
    forall u | u in Between(sub, v, v) ensures u == v {
      if u in S(sub, l) {
        Nested(ns, sub, l, u);
      } else if u in S(sub, r) {
        Nested(ns, sub, r, u);
      }
    }
  }

  /** Going down from `p` to its child `c` extends the path from `top` by `c`. */
  lemma BetweenDown(ns: seq<Node>, sub: seq<set<int>>, root: int, top: int, p: int, c: int)
    requires Shape(ns, sub, root) && 0 <= top < |ns| && 0 <= p < |ns| && p in sub[top]
    requires c != -1 && (c == ns[p].left || c == ns[p].right)
    ensures c in sub[top] && Between(sub, top, c) == Between(sub, top, p) + {c}
  {
    assert SubAt(ns, sub, p) && SubAt(ns, sub, c) && LinkedAt(ns, root, p);
    Nested(ns, sub, top, p);
    forall v | v in Between(sub, top, p) ensures c in sub[v] {
      Nested(ns, sub, v, p);
    }
    forall v | v in Between(sub, top, c) && v != c ensures p in sub[v] {
      ParentInside(ns, sub, root, v, c);
    }
  }

  /** Going up from `a` to its parent extends every path ending below `a` by the parent. */
  lemma BetweenUp(ns: seq<Node>, sub: seq<set<int>>, root: int, a: int, low: int)
    requires Shape(ns, sub, root) && 0 <= a < |ns| && low in sub[a] && ns[a].parent != -1
    ensures var p := ns[a].parent; 0 <= p < |ns| && Between(sub, p, low) == Between(sub, a, low) + {p}
  {
    var p := ns[a].parent;
    assert LinkedAt(ns, root, a) && SubAt(ns, sub, p);
    var b := if ns[p].left == a then ns[p].right else ns[p].left;
    forall v | v in Between(sub, p, low) && v != p ensures v in sub[a] {
      if v in S(sub, b) {
        Nested(ns, sub, b, v);
      }
    }
  }

  /**
   * The descent from `a` has entered the path down to `v` and no more, beyond the nodes in
   * `seen0` entered before it; no node on the path above `v` holds `key`.
   */
  ghost predicate Entered(ns: seq<Node>, sub: seq<set<int>>, a: int, v: int, seen0: set<int>, seen: set<int>, key: int)
    requires LinksInRange(ns) && SubOK(ns, sub) && 0 <= a < |ns|
  {
    && 0 <= v < |ns| && v in sub[a] && seen == seen0 + Between(sub, a, v)
    && forall u | u in Between(sub, a, v) && u != v :: ns[u].key != key
  }

  /** The descent starts having entered `a` alone, which was entered before. */
  lemma EnterFirst(ns: seq<Node>, sub: seq<set<int>>, a: int, seen0: set<int>, key: int)
    requires Tree(ns, sub) && 0 <= a < |ns| && a in seen0
    ensures Entered(ns, sub, a, a, seen0, seen0, key)
  {
    assert SubAt(ns, sub, a);
    BetweenSelf(ns, sub, a);
  }

  /** Stepping from `p`, whose key is not `key`, to its child `c` enters `c`. */
  lemma EnterNext(ns: seq<Node>, sub: seq<set<int>>, root: int, a: int, p: int, c: int, seen0: set<int>, seen: set<int>, key: int)
    requires Shape(ns, sub, root) && 0 <= a < |ns| && Entered(ns, sub, a, p, seen0, seen, key) && ns[p].key != key
    requires c != -1 && (c == ns[p].left || c == ns[p].right)
    ensures Entered(ns, sub, a, c, seen0, seen + {c}, key)
  {
    BetweenDown(ns, sub, root, a, p, c);
  }

  /**
   * The outcome of `_find_parent_for_insert_from_max(start, key)` from the maximum node
   * `start`, with `seen` the nodes it enters and `anchor` the node where the climb stops.
   * A key above the maximum goes right of it, and a key equal to it is found there, both
   * after entering `start` alone. Below the maximum, the climb enters the path from `start`
   * up to `anchor`, whose keys are all above `key`, and stops at the root or below a parent
   * whose key is at most `key`. The descent then enters the path from `anchor` down to the
   * last node: no node on it holds `key` except a node returned as found, and when nothing
   * is found the last node has the empty slot where the key belongs.
   */
  ghost predicate FromMax(ns: seq<Node>, sub: seq<set<int>>, start: int, key: int,
                          parent: int, direction: int, existing: int, anchor: int, seen: set<int>)
    requires LinksInRange(ns) && SubOK(ns, sub) && 0 <= start < |ns|
  {
    if ns[start].key < key then
      parent == start && direction == 1 && existing == -1 && seen == {start}
    else if ns[start].key == key then
      parent == start && direction == 0 && existing == start && seen == {start}
    else
      var last := if existing != -1 then existing else parent;
      && 0 <= anchor < |ns| && 0 <= last < |ns| && start in sub[anchor] && last in sub[anchor]
      && seen == Between(sub, anchor, start) + Between(sub, anchor, last)
      && (forall v | v in Between(sub, anchor, start) :: key < ns[v].key)
      && (ns[anchor].parent != -1 ==> ns[ns[anchor].parent].key <= key)
      && (forall v | v in Between(sub, anchor, last) && v != existing :: ns[v].key != key)
      && (existing != -1 ==> parent == existing && direction == 0 && ns[existing].key == key)
      && (existing == -1 ==> Slot(ns, sub, parent, direction, key))
  }

  /** Below the maximum, a climb to `a` followed by a descent from `a` make up the search outcome. */
  lemma ClimbThenDescend(ns: seq<Node>, sub: seq<set<int>>, start: int, key: int,
                         parent: int, direction: int, existing: int, a: int, seen: set<int>)
    requires LinksInRange(ns) && SubOK(ns, sub) && 0 <= start < |ns| && key < ns[start].key
    requires 0 <= a < |ns| && start in sub[a]
    requires forall v | v in Between(sub, a, start) :: key < ns[v].key
    requires ns[a].parent != -1 ==> ns[ns[a].parent].key <= key
    requires Entered(ns, sub, a, if existing != -1 then existing else parent, Between(sub, a, start), seen, key)
    requires existing != -1 ==> parent == existing && direction == 0 && ns[existing].key == key
    requires existing == -1 ==> Slot(ns, sub, parent, direction, key)
    ensures FromMax(ns, sub, start, key, parent, direction, existing, a, seen)
  {
  }

  /** The tree that inserting 1, 2 and 3 builds: node 1 (key 2) is the root, node 0 (key 1) its left child, node 2 (key 3) its right child. */
  function ThreeKeys(): seq<Node> {
    [Node(1, 1, -1, -1, 1, 1), Node(2, 1, 0, 2, -1, 2), Node(3, 1, -1, -1, 1, 1)]
  }

  ghost function ThreeKeysSub(): seq<set<int>> {
    [{0}, {0, 1, 2}, {2}]
  }

  /** The search finds a node exactly when some node it enters holds the key. */
  lemma FoundIffEntered(ns: seq<Node>, sub: seq<set<int>>, start: int, key: int,
                        parent: int, direction: int, existing: int, anchor: int, seen: set<int>)
    requires LinksInRange(ns) && SubOK(ns, sub) && 0 <= start < |ns|
    requires FromMax(ns, sub, start, key, parent, direction, existing, anchor, seen)
    ensures existing != -1 <==> exists v | v in seen :: ns[v].key == key
  {
    if existing != -1 && key < ns[start].key {
      assert SubAt(ns, sub, existing);
      assert existing in seen;
    }
  }

  /** `ThreeKeys` is one tree rooted at node 1 with exact parent links. */
  lemma ThreeKeysShape()
    ensures Shape(ThreeKeys(), ThreeKeysSub(), 1)
  {
    var ns, sub := ThreeKeys(), ThreeKeysSub();
    assert SubAt(ns, sub, 0) && SubAt(ns, sub, 1) && SubAt(ns, sub, 2);
  }

  /** `ThreeKeys` is in search order, AVL-balanced, with fingers 0 and 2. */
  lemma ThreeKeysValid()
    ensures Shape(ThreeKeys(), ThreeKeysSub(), 1) && Ordered(ThreeKeys(), ThreeKeysSub())
    ensures AVL(ThreeKeys()) && Fingers(ThreeKeys(), 1, 0, 2)
  {
    ThreeKeysShape();
    var ns, sub := ThreeKeys(), ThreeKeysSub();
    assert OrderedAt(ns, sub, 0) && OrderedAt(ns, sub, 1) && OrderedAt(ns, sub, 2);
  }

  /**
   * Searching `ThreeKeys` from its maximum (node 2, key 3) for the key 2 misses the root,
   * which holds 2: the climb stops at once because the root's key is not above 2, and the
   * descent from node 2 ends at its empty left slot after entering node 2 alone.
   */
  lemma RepeatedKeyMissed(parent: int, direction: int, existing: int, anchor: int, seen: set<int>)
    requires FromMax(ThreeKeys(), ThreeKeysSub(), 2, 2, parent, direction, existing, anchor, seen)
    ensures ThreeKeys()[1].key == 2
    ensures existing == -1 && parent == 2 && direction == -1 && seen == {2}
  {
    var ns, sub := ThreeKeys(), ThreeKeysSub();
    assert 1 in Between(sub, 1, 2);
    assert anchor == 2;
    assert Between(sub, 2, 2) == {2};
  }
}
