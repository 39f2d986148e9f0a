/**
 * The node pool of the finger-search AVL tree.
 *
 * Every AVLNode of the tree is an entry of `ns: seq<Node>`, named by its index; the links
 * `left`, `right` and `parent` are indices, with -1 standing for None. `value` is the
 * frequency of the key (duplicates share a node) and `height` the cached subtree height.
 *
 * The ghost sequence `sub` gives, for every node, the set of node ids of its subtree. It makes
 * the shape of the pool a finite tree (a node is never inside its own children's subtrees,
 * and the two children's subtrees are disjoint), it gives the ancestor relation
 * (`j in sub[i]`), and it is the termination measure of everything that recurses or loops
 * along links.
 */
module Pool {

  datatype Node = Node(key: int, value: nat, left: int, right: int, parent: int, height: nat)

  /** A link: -1 (None) or the id of a node. */
  predicate IsPtr(ns: seq<Node>, p: int) {
    p == -1 || 0 <= p < |ns|
  }

  /** `_h`: the cached height, 0 for an absent child. */
  function H(ns: seq<Node>, p: int): nat {
    if 0 <= p < |ns| then ns[p].height else 0
  }

  /** `hl if hl > hr else hr` */
  function Max(a: int, b: int): int {
    if a > b then a else b
  }

  /** The subtree node set of a link (empty for None). */
  ghost function S(sub: seq<set<int>>, p: int): set<int>
    requires p == -1 || 0 <= p < |sub|
  {
    if p == -1 then {} else sub[p]
  }

  ghost predicate LinksInRange(ns: seq<Node>) {
    forall i | 0 <= i < |ns| :: IsPtr(ns, ns[i].left) && IsPtr(ns, ns[i].right) && IsPtr(ns, ns[i].parent)
  }

  /** The subtree of `i` is `i` and its children's subtrees, which are disjoint and do not hold `i`. */
  ghost predicate SubAt(ns: seq<Node>, sub: seq<set<int>>, i: int)
    requires LinksInRange(ns) && |sub| == |ns| && 0 <= i < |ns|
  {
    var l, r := ns[i].left, ns[i].right;
    && sub[i] == {i} + S(sub, l) + S(sub, r)
    && i !in S(sub, l) && i !in S(sub, r)
    && S(sub, l) !! S(sub, r)
  }

  ghost predicate SubOK(ns: seq<Node>, sub: seq<set<int>>)
    requires LinksInRange(ns)
  {
    && |sub| == |ns|
    && (forall i | 0 <= i < |ns| :: SubAt(ns, sub, i))
    && (forall i, j | 0 <= i < |ns| && j in sub[i] :: 0 <= j < |ns|)
  }

  /** At node `i`: its children point back to it, it is a child of its parent, and it has no parent exactly when it is the root. */
  ghost predicate LinkedAt(ns: seq<Node>, root: int, i: int)
    requires LinksInRange(ns) && 0 <= i < |ns|
  {
    var l, r, p := ns[i].left, ns[i].right, ns[i].parent;
    && (l != -1 ==> ns[l].parent == i)
    && (r != -1 ==> ns[r].parent == i)
    && (p != -1 ==> ns[p].left == i || ns[p].right == i)
    && (p == -1 <==> i == root)
  }

  /** Parent links are the exact inverse of the child links; the root, and only the root, has no parent. */
  ghost predicate ParentLinks(ns: seq<Node>, root: int)
    requires LinksInRange(ns)
  {
    forall i | 0 <= i < |ns| :: LinkedAt(ns, root, i)
  }

  /** The pool is one tree rooted at `root` holding every node; frequencies and heights are positive. */
  ghost predicate Shape(ns: seq<Node>, sub: seq<set<int>>, root: int) {
    && IsPtr(ns, root)
    && (root == -1 <==> |ns| == 0)
    && LinksInRange(ns)
    && SubOK(ns, sub)
    && ParentLinks(ns, root)
    && (root != -1 ==> forall j | 0 <= j < |ns| :: j in sub[root])
    && (forall i | 0 <= i < |ns| :: ns[i].value >= 1 && ns[i].height >= 1)
  }

  /** Keys in the left subtree of `i` are at most its key, keys in its right subtree at least its key. */
  ghost predicate OrderedAt(ns: seq<Node>, sub: seq<set<int>>, i: int)
    requires LinksInRange(ns) && SubOK(ns, sub) && 0 <= i < |ns|
  {
    && (forall j | j in S(sub, ns[i].left) :: ns[j].key <= ns[i].key)
    && (forall j | j in S(sub, ns[i].right) :: ns[i].key <= ns[j].key)
  }

  /**
   * Search-tree order, non-strict on both sides (equal keys may sit on either side of each
   * other, since the finger search can place a repeated key below an equal ancestor).
   */
  ghost predicate Ordered(ns: seq<Node>, sub: seq<set<int>>)
    requires LinksInRange(ns) && SubOK(ns, sub)
  {
    forall i | 0 <= i < |ns| :: OrderedAt(ns, sub, i)
  }

  /** The cached height is one more than the taller child's (an absent child counting 0). */
  ghost predicate HeightOK(ns: seq<Node>, i: int)
    requires LinksInRange(ns) && 0 <= i < |ns|
  {
    ns[i].height == 1 + Max(H(ns, ns[i].left), H(ns, ns[i].right))
  }

  /** The children's cached heights differ by at most one. */
  ghost predicate BalancedAt(ns: seq<Node>, i: int)
    requires LinksInRange(ns) && 0 <= i < |ns|
  {
    -1 <= H(ns, ns[i].left) - H(ns, ns[i].right) <= 1
  }

  ghost predicate LocalOK(ns: seq<Node>, i: int)
    requires LinksInRange(ns) && 0 <= i < |ns|
  {
    HeightOK(ns, i) && BalancedAt(ns, i)
  }

  ghost predicate AVL(ns: seq<Node>)
    requires LinksInRange(ns)
  {
    forall i | 0 <= i < |ns| :: LocalOK(ns, i)
  }

  /** The length of the longest downward path, counted in nodes. */
  ghost function TrueHeight(ns: seq<Node>, sub: seq<set<int>>, p: int): nat
    requires LinksInRange(ns) && SubOK(ns, sub) && IsPtr(ns, p)
    decreases S(sub, p)
  {
    if p == -1 then 0
    else
      assert SubAt(ns, sub, p);
      1 + Max(TrueHeight(ns, sub, ns[p].left), TrueHeight(ns, sub, ns[p].right))
  }

  /** `key` repeated `c` times. */
  function Rep(key: int, c: nat): (r: seq<int>)
    ensures |r| == c && forall k | 0 <= k < c :: r[k] == key
  {
    seq(c, _ => key)
  }

  /** In-order key sequence of a subtree, each key repeated by its frequency. */
  ghost function Inorder(ns: seq<Node>, sub: seq<set<int>>, p: int): seq<int>
    requires LinksInRange(ns) && SubOK(ns, sub) && IsPtr(ns, p)
    decreases S(sub, p)
  {
    if p == -1 then []
    else
      assert SubAt(ns, sub, p);
      Inorder(ns, sub, ns[p].left) + Rep(ns[p].key, ns[p].value) + Inorder(ns, sub, ns[p].right)
  }

  ghost predicate Sorted(s: seq<int>) {
    forall a, b | 0 <= a < b < |s| :: s[a] <= s[b]
  }

  function Copies(key: int, c: nat): multiset<int> {
    multiset{}[key := c]
  }

  /** The multiset of keys the pool stores: every node's key, as many times as its frequency. */
  ghost function Bag(ns: seq<Node>): multiset<int> {
    BagUpTo(ns, |ns|)
  }

  /** The same for the first `m` nodes. */
  ghost function BagUpTo(ns: seq<Node>, m: nat): multiset<int>
    requires m <= |ns|
  {
    if m == 0 then multiset{}
    else BagUpTo(ns, m - 1) + Copies(ns[m - 1].key, ns[m - 1].value)
  }

  /** The same, restricted to the ids in `s` among the first `m` nodes. */
  ghost function BagIn(ns: seq<Node>, s: set<int>, m: nat): multiset<int>
    requires m <= |ns|
  {
    if m == 0 then multiset{}
    else BagIn(ns, s, m - 1) + (if m - 1 in s then Copies(ns[m - 1].key, ns[m - 1].value) else multiset{})
  }

  /** The min/max fingers: `mn` holds a least key, `mx` the greatest, which no other node shares. */
  ghost predicate Fingers(ns: seq<Node>, root: int, mn: int, mx: int) {
    if root == -1 then mn == -1 && mx == -1
    else
      && 0 <= mn < |ns| && 0 <= mx < |ns|
      && (forall j | 0 <= j < |ns| :: ns[mn].key <= ns[j].key)
      && (forall j | 0 <= j < |ns| && j != mx :: ns[j].key < ns[mx].key)
  }
}
