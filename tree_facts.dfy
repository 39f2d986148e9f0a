/**
 * Facts about a pool that has the shape of a tree: the subtree sets nest, an ancestor's
 * subtree holds the parent of every proper descendant, and the in-order traversal of an
 * ordered pool is sorted and holds exactly the keys stored (with their frequencies).
 */
module TreeFacts {
  import opened Pool

  ghost predicate Tree(ns: seq<Node>, sub: seq<set<int>>) {
    LinksInRange(ns) && SubOK(ns, sub)
  }

  /** Subtrees nest: a node inside the subtree of `d` has its whole subtree inside it. */
  lemma {:induction false} Nested(ns: seq<Node>, sub: seq<set<int>>, d: int, a: int)
    requires Tree(ns, sub) && 0 <= d < |ns| && a in sub[d]
    ensures 0 <= a < |ns| && sub[a] <= sub[d]
    decreases sub[d]
  {
    assert SubAt(ns, sub, d);
    var l, r := ns[d].left, ns[d].right;
    if a != d {
      if a in S(sub, l) {
        Nested(ns, sub, l, a);
      } else {
        Nested(ns, sub, r, a);
      }
    }
  }

  /** A proper descendant's parent lies inside the same subtree. */
  lemma {:induction false} ParentInside(ns: seq<Node>, sub: seq<set<int>>, root: int, d: int, c: int)
    requires Shape(ns, sub, root) && 0 <= d < |ns| && c in sub[d] && c != d
    ensures 0 <= c < |ns| && ns[c].parent != -1 && ns[c].parent in sub[d]
    decreases sub[d]
  {
    assert SubAt(ns, sub, d) && LinkedAt(ns, root, d);
    var l, r := ns[d].left, ns[d].right;
    if c in S(sub, l) {
      assert SubAt(ns, sub, l);
      if c != l {
        ParentInside(ns, sub, root, l, c);
      }
    } else {
      assert SubAt(ns, sub, r);
      if c != r {
        ParentInside(ns, sub, root, r, c);
      }
    }
  }

  /** One step of the in-order traversal at a node. */
  lemma UnfoldInorder(ns: seq<Node>, sub: seq<set<int>>, p: int)
    requires Tree(ns, sub) && 0 <= p < |ns|
    ensures IsPtr(ns, ns[p].left) && IsPtr(ns, ns[p].right)
    ensures Inorder(ns, sub, p) == Inorder(ns, sub, ns[p].left) + Rep(ns[p].key, ns[p].value) + Inorder(ns, sub, ns[p].right)
  {
  }

  /** Every key the in-order traversal emits is at most `v` when every key of the subtree is. */
  lemma {:induction false} InorderBelow(ns: seq<Node>, sub: seq<set<int>>, p: int, v: int)
    requires Tree(ns, sub) && IsPtr(ns, p)
    requires forall j | j in S(sub, p) :: 0 <= j < |ns| && ns[j].key <= v
    ensures forall k | 0 <= k < |Inorder(ns, sub, p)| :: Inorder(ns, sub, p)[k] <= v
    decreases S(sub, p)
  {
    if p != -1 {
      assert SubAt(ns, sub, p);
      InorderBelow(ns, sub, ns[p].left, v);
      InorderBelow(ns, sub, ns[p].right, v);
    }
  }

  /** Every key the in-order traversal emits is at least `v` when every key of the subtree is. */
  lemma {:induction false} InorderAbove(ns: seq<Node>, sub: seq<set<int>>, p: int, v: int)
    requires Tree(ns, sub) && IsPtr(ns, p)
    requires forall j | j in S(sub, p) :: 0 <= j < |ns| && v <= ns[j].key
    ensures forall k | 0 <= k < |Inorder(ns, sub, p)| :: v <= Inorder(ns, sub, p)[k]
    decreases S(sub, p)
  {
    if p != -1 {
      assert SubAt(ns, sub, p);
      InorderAbove(ns, sub, ns[p].left, v);
      InorderAbove(ns, sub, ns[p].right, v);
    }
  }

  lemma SortedConcat(a: seq<int>, v: int, c: nat, b: seq<int>)
    requires Sorted(a) && Sorted(b)
    requires forall k | 0 <= k < |a| :: a[k] <= v
    requires forall k | 0 <= k < |b| :: v <= b[k]
    ensures Sorted(a + Rep(v, c) + b)
  {
    var s := a + Rep(v, c) + b;
    forall x, y | 0 <= x < y < |s| ensures s[x] <= s[y] {
      if x < |a| && y >= |a| {
        assert s[x] <= v;
      }
    }
  }

  /** In an ordered pool, the in-order traversal of every subtree is non-decreasing. */
  lemma {:induction false} InorderSorted(ns: seq<Node>, sub: seq<set<int>>, p: int)
    requires Tree(ns, sub) && Ordered(ns, sub) && IsPtr(ns, p)
    ensures Sorted(Inorder(ns, sub, p))
    decreases S(sub, p)
  {
    if p != -1 {
      assert SubAt(ns, sub, p) && OrderedAt(ns, sub, p);
      var l, r := ns[p].left, ns[p].right;
      InorderSorted(ns, sub, l);
      InorderSorted(ns, sub, r);
      InorderBelow(ns, sub, l, ns[p].key);
      InorderAbove(ns, sub, r, ns[p].key);
      SortedConcat(Inorder(ns, sub, l), ns[p].key, ns[p].value, Inorder(ns, sub, r));
    }
  }

  lemma {:induction false} MultisetRep(key: int, c: nat)
    ensures multiset(Rep(key, c)) == Copies(key, c)
  {
    if c > 0 {
      MultisetRep(key, c - 1);
      assert Rep(key, c) == Rep(key, c - 1) + [key];
    }
  }

  lemma {:induction false} BagInUnion(ns: seq<Node>, a: set<int>, b: set<int>, m: nat)
    requires m <= |ns| && a !! b
    ensures BagIn(ns, a + b, m) == BagIn(ns, a, m) + BagIn(ns, b, m)
  {
    if m > 0 {
      BagInUnion(ns, a, b, m - 1);
    }
  }

  lemma {:induction false} BagInSingle(ns: seq<Node>, i: int, m: nat)
    requires m <= |ns| && 0 <= i
    ensures BagIn(ns, {i}, m) == if i < m then Copies(ns[i].key, ns[i].value) else multiset{}
  {
    if m > 0 {
      BagInSingle(ns, i, m - 1);
    }
  }

  /** The in-order traversal holds each key of the subtree exactly as often as its frequency. */
  lemma {:induction false} InorderBag(ns: seq<Node>, sub: seq<set<int>>, p: int)
    requires Tree(ns, sub) && IsPtr(ns, p)
    ensures multiset(Inorder(ns, sub, p)) == BagIn(ns, S(sub, p), |ns|)
    decreases S(sub, p)
  {
    if p == -1 {
      BagInEmpty(ns, |ns|);
    } else {
      assert SubAt(ns, sub, p);
      var l, r := ns[p].left, ns[p].right;
      InorderBag(ns, sub, l);
      InorderBag(ns, sub, r);
      MultisetRep(ns[p].key, ns[p].value);
      BagInUnion(ns, {p}, S(sub, l), |ns|);
      BagInUnion(ns, {p} + S(sub, l), S(sub, r), |ns|);
      BagInSingle(ns, p, |ns|);
      assert {p} + S(sub, l) + S(sub, r) == S(sub, l) + {p} + S(sub, r);
    }
  }

  lemma {:induction false} BagInEmpty(ns: seq<Node>, m: nat)
    requires m <= |ns|
    ensures BagIn(ns, {}, m) == multiset{}
  {
    if m > 0 {
      BagInEmpty(ns, m - 1);
    }
  }

  /** Restricted to a set holding every id below `m`, the restricted bag is the bag of the first `m` nodes. */
  lemma {:induction false} BagInAll(ns: seq<Node>, s: set<int>, m: nat)
    requires m <= |ns| && forall j | 0 <= j < m :: j in s
    ensures BagIn(ns, s, m) == BagUpTo(ns, m)
  {
    if m > 0 {
      BagInAll(ns, s, m - 1);
    }
  }

  /** The traversal of the whole tree holds exactly the keys stored, each as often as its frequency. */
  lemma InorderIsBag(ns: seq<Node>, sub: seq<set<int>>, root: int)
    requires Shape(ns, sub, root)
    ensures multiset(Inorder(ns, sub, root)) == Bag(ns)
  {
    InorderBag(ns, sub, root);
    if root == -1 {
      BagInEmpty(ns, 0);
    } else {
      BagInAll(ns, sub[root], |ns|);
    }
  }

  ghost predicate SameEntries(ns: seq<Node>, ns': seq<Node>) {
    |ns| == |ns'| && forall i | 0 <= i < |ns| :: ns'[i].key == ns[i].key && ns'[i].value == ns[i].value
  }

  lemma {:induction false} BagUpToSameEntries(ns: seq<Node>, ns': seq<Node>, m: nat)
    requires SameEntries(ns, ns') && m <= |ns|
    ensures BagUpTo(ns', m) == BagUpTo(ns, m)
  {
    if m > 0 {
      BagUpToSameEntries(ns, ns', m - 1);
    }
  }

  /** Relinking nodes and changing heights leaves the stored keys and frequencies alone. */
  lemma BagSameEntries(ns: seq<Node>, ns': seq<Node>)
    requires SameEntries(ns, ns')
    ensures Bag(ns') == Bag(ns)
  {
    BagUpToSameEntries(ns, ns', |ns|);
  }

  lemma CopiesSucc(key: int, c: nat)
    ensures Copies(key, c + 1) == Copies(key, c) + multiset{key}
  {
    var m, m' := Copies(key, c), Copies(key, c + 1);
    assert forall k :: m'[k] == (m + multiset{key})[k];
  }

  lemma MultisetSwap(a: multiset<int>, b: multiset<int>, c: multiset<int>)
    ensures (a + b) + c == (a + c) + b
  {
    assert forall x :: ((a + b) + c)[x] == ((a + c) + b)[x];
  }

  lemma {:induction false} BagUpToBump(ns: seq<Node>, e: int, m: nat)
    requires 0 <= e < |ns| && m <= |ns|
    ensures var ns' := ns[e := ns[e].(value := ns[e].value + 1)];
      BagUpTo(ns', m) == BagUpTo(ns, m) + (if e < m then multiset{ns[e].key} else multiset{})
  {
    if m > 0 {
      BagUpToBump(ns, e, m - 1);
      if e == m - 1 {
        CopiesSucc(ns[e].key, ns[e].value);
      } else if e < m - 1 {
        MultisetSwap(BagUpTo(ns, m - 1), multiset{ns[e].key}, Copies(ns[m - 1].key, ns[m - 1].value));
      }
    }
  }

  /** Raising one node's frequency by one adds one copy of its key. */
  lemma BagBump(ns: seq<Node>, e: int)
    requires 0 <= e < |ns|
    ensures Bag(ns[e := ns[e].(value := ns[e].value + 1)]) == Bag(ns) + multiset{ns[e].key}
  {
    BagUpToBump(ns, e, |ns|);
  }

  lemma {:induction false} BagUpToAppend(ns: seq<Node>, x: Node, m: nat)
    requires m <= |ns|
    ensures BagUpTo(ns + [x], m) == BagUpTo(ns, m)
  {
    if m > 0 {
      BagUpToAppend(ns, x, m - 1);
    }
  }

  /** Appending a node adds its copies. */
  lemma BagAppend(ns: seq<Node>, x: Node)
    ensures Bag(ns + [x]) == Bag(ns) + Copies(x.key, x.value)
  {
    BagUpToAppend(ns, x, |ns|);
  }

  /** With every cached height consistent, each cached height is the true height of its subtree. */
  lemma {:induction false} CachedHeightIsTrue(ns: seq<Node>, sub: seq<set<int>>, p: int)
    requires Tree(ns, sub) && AVL(ns) && IsPtr(ns, p)
    ensures H(ns, p) == TrueHeight(ns, sub, p)
    decreases S(sub, p)
  {
    if p != -1 {
      assert SubAt(ns, sub, p) && LocalOK(ns, p);
      CachedHeightIsTrue(ns, sub, ns[p].left);
      CachedHeightIsTrue(ns, sub, ns[p].right);
    }
  }

  /** A subset is no larger than its superset. */
  lemma CardSubset(a: set<int>, b: set<int>)
    requires a <= b
    ensures |a| <= |b|
  {
    assert b == a + (b - a);
  }

  /** A superset with an element the subset lacks is strictly larger. */
  lemma CardGrows(a: set<int>, b: set<int>, x: int)
    requires a <= b && x in b && x !in a
    ensures |a| < |b|
  {
    CardSubset(a + {x}, b);
  }

  /** The ids `0 .. n-1` number `n`. */
  lemma {:induction false} CardRange(s: set<int>, n: nat)
    requires forall j :: j in s <==> 0 <= j < n
    ensures |s| == n
  {
    if n > 0 {
      CardRange(s - {n - 1}, n - 1);
      assert s == (s - {n - 1}) + {n - 1};
    } else {
      assert forall j :: j !in s;
    }
  }

  /** Every node of `s` has a consistent cached height. */
  ghost predicate HeightsOKIn(ns: seq<Node>, s: set<int>)
    requires LinksInRange(ns)
  {
    forall j | j in s && 0 <= j < |ns| :: HeightOK(ns, j)
  }

  /** When every node of a subtree has a consistent cached height, the cached height at its top is its true height. */
  lemma {:induction false} CachedHeightInSubtree(ns: seq<Node>, sub: seq<set<int>>, p: int)
    requires Tree(ns, sub) && IsPtr(ns, p) && HeightsOKIn(ns, S(sub, p))
    ensures H(ns, p) == TrueHeight(ns, sub, p)
    decreases S(sub, p)
  {
    if p != -1 {
      assert SubAt(ns, sub, p) && HeightOK(ns, p);
      CachedHeightInSubtree(ns, sub, ns[p].left);
      CachedHeightInSubtree(ns, sub, ns[p].right);
    }
  }

  /**
   * The difference of the children's cached heights at `i` is the difference of their true
   * heights, once every node below `i` has a consistent cached height.
   */
  lemma ChildHeightsTrue(ns: seq<Node>, sub: seq<set<int>>, i: int)
    ensures 0 <= i < |ns| && Tree(ns, sub) && HeightsOKIn(ns, S(sub, ns[i].left) + S(sub, ns[i].right)) ==>
      H(ns, ns[i].left) - H(ns, ns[i].right) == TrueHeight(ns, sub, ns[i].left) - TrueHeight(ns, sub, ns[i].right)
  {
    if 0 <= i < |ns| && Tree(ns, sub) && HeightsOKIn(ns, S(sub, ns[i].left) + S(sub, ns[i].right)) {
      CachedHeightInSubtree(ns, sub, ns[i].left);
      CachedHeightInSubtree(ns, sub, ns[i].right);
    }
  }

  /** The in-order traversal of an ordered tree storing exactly the keys `ins` is `ins` sorted: non-decreasing and a permutation of it. */
  lemma InorderSortsKeys(ns: seq<Node>, sub: seq<set<int>>, root: int, ins: seq<int>)
    requires Shape(ns, sub, root) && Ordered(ns, sub) && Bag(ns) == multiset(ins)
    ensures Sorted(Inorder(ns, sub, root)) && multiset(Inorder(ns, sub, root)) == multiset(ins)
  {
    InorderSorted(ns, sub, root);
    InorderIsBag(ns, sub, root);
  }
}
