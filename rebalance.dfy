/**
 * The upward rebalancing walk of `_rebalance_from`, as facts about the node pool.
 *
 * After a leaf is attached, only the cached heights on the path from the new leaf to the root
 * can be stale. The walk visits that path bottom-up. `Walk(ns, sub, root, cur, h0)` is what
 * holds each time the walk reaches `cur`: `h0` is the height the subtree at `cur`'s position had
 * before the insertion; every node other than `cur` and its parent is consistent and balanced;
 * the children of `cur` differ in height by at most two, and its subtree has grown by at most
 * one (exactly one when it is out of balance); the parent's cached height was computed from
 * `h0`. One step (a height update, then either moving up or rotating) keeps it, and when the
 * walk leaves the root the whole pool is an AVL tree again.
 *
 * A rotation is `lft` (to the left) when the pivot leans right, and the other way round;
 * `Up(ns, x, lft)` is the heavy child that moves up.
 */
module Rebalance {
  import opened Pool
  import opened TreeFacts
  import opened Rotations
  import opened RotationFacts

  /** `_rotate_left(x)` or `_rotate_right(x)`. */
  function Rotated(ns: seq<Node>, x: int, lft: bool): seq<Node>
    requires LinksInRange(ns) && 0 <= x < |ns| && Up(ns, x, lft) != -1
  {
    if lft then LeftRotated(ns, x) else RightRotated(ns, x)
  }

  /** `_balance_factor`: the left child's cached height minus the right child's. */
  function Skew(ns: seq<Node>, i: int): int
    requires 0 <= i < |ns|
  {
    H(ns, ns[i].left) - H(ns, ns[i].right)
  }

  /** How far `i` leans towards the side a rotation `lft` would lift: positive means heavy on that side. */
  function Lean(ns: seq<Node>, i: int, lft: bool): int
    requires 0 <= i < |ns|
  {
    if lft then -Skew(ns, i) else Skew(ns, i)
  }

  /** The child of `p` other than `c`. */
  function Sibling(ns: seq<Node>, p: int, c: int): int
    requires 0 <= p < |ns|
  {
    if ns[p].left == c then ns[p].right else ns[p].left
  }

  /** A rotation keeps the pool a tree with exact parent links, the entries, the search order and the in-order sequence. */
  lemma RotationKeeps(ns: seq<Node>, sub: seq<set<int>>, root: int, x: int, lft: bool)
    requires Shape(ns, sub, root) && 0 <= x < |ns| && Up(ns, x, lft) != -1
    ensures Rewired(ns, Rotated(ns, x, lft), x, lft)
    ensures Shape(Rotated(ns, x, lft), RotatedSub(ns, sub, x, lft), RotatedRoot(ns, root, x, Up(ns, x, lft)))
    ensures SameEntries(ns, Rotated(ns, x, lft))
    ensures Ordered(ns, sub) ==> Ordered(Rotated(ns, x, lft), RotatedSub(ns, sub, x, lft))
    ensures Inorder(Rotated(ns, x, lft), RotatedSub(ns, sub, x, lft), RotatedRoot(ns, root, x, Up(ns, x, lft)))
         == Inorder(ns, sub, root)
  {
    if lft {
      LeftPoints(ns, sub, root, x);
    } else {
      RightPoints(ns, sub, root, x);
    }
    var ns' := Rotated(ns, x, lft);
    RewiredShape(ns, sub, root, ns', x, lft);
    if Ordered(ns, sub) {
      RewiredOrdered(ns, sub, root, ns', x, lft);
    }
    RewiredInorder(ns, sub, root, ns', x, lft);
  }

  /** Every node other than `a` and `b` has a consistent cached height and is balanced. */
  ghost predicate OKExcept(ns: seq<Node>, a: int, b: int)
    requires LinksInRange(ns)
  {
    forall i | 0 <= i < |ns| && i != a && i != b :: LocalOK(ns, i)
  }

  /** The subtree at `cur` has grown by at most one over `h0`, and by exactly one when its children differ by two. */
  ghost predicate CurOK(ns: seq<Node>, cur: int, h0: int)
    requires LinksInRange(ns) && 0 <= cur < |ns|
  {
    var hl, hr := H(ns, ns[cur].left), H(ns, ns[cur].right);
    && -2 <= hl - hr <= 2
    && h0 <= 1 + Max(hl, hr) <= h0 + 1
    && (hl - hr == 2 || hr - hl == 2 ==> 1 + Max(hl, hr) == h0 + 1)
  }

  /** The parent of `cur` is consistent and balanced with `h0` standing for `cur`'s height. */
  ghost predicate ParentOK(ns: seq<Node>, cur: int, h0: int)
    requires LinksInRange(ns) && 0 <= cur < |ns|
  {
    var p := ns[cur].parent;
    p != -1 ==>
      var s := Sibling(ns, p, cur);
      ns[p].height == 1 + Max(h0, H(ns, s)) && -1 <= h0 - H(ns, s) <= 1
  }

  /** What holds whenever the walk of `_rebalance_from` reaches `cur` (-1 once it has left the root). */
  ghost predicate Walk(ns: seq<Node>, sub: seq<set<int>>, root: int, cur: int, h0: int) {
    && Shape(ns, sub, root)
    && IsPtr(ns, cur)
    && if cur == -1 then AVL(ns)
       else OKExcept(ns, cur, ns[cur].parent) && CurOK(ns, cur, h0) && ParentOK(ns, cur, h0)
  }

  /** What holds at `cur` right after `_update_height_conditionally(cur)`. */
  ghost predicate Fixed(ns: seq<Node>, sub: seq<set<int>>, root: int, cur: int, h0: int) {
    && Shape(ns, sub, root)
    && 0 <= cur < |ns|
    && OKExcept(ns, cur, ns[cur].parent) && HeightOK(ns, cur) && CurOK(ns, cur, h0) && ParentOK(ns, cur, h0)
  }

  /** Recomputing one height changes no link, key or frequency, so the tree, its order and its traversal stay. */
  lemma HeightFixedKeeps(ns: seq<Node>, sub: seq<set<int>>, root: int, i: int)
    requires Shape(ns, sub, root) && 0 <= i < |ns|
    ensures Shape(HeightFixed(ns, i), sub, root) && SameEntries(ns, HeightFixed(ns, i))
    ensures Ordered(ns, sub) ==> Ordered(HeightFixed(ns, i), sub)
  {
    var ns' := HeightFixed(ns, i);
    assert LinksInRange(ns');
    assert SubOK(ns', sub) by {
      forall j | 0 <= j < |ns| ensures SubAt(ns', sub, j) {
        assert SubAt(ns, sub, j);
      }
    }
    forall j | 0 <= j < |ns| ensures LinkedAt(ns', root, j) {
      assert LinkedAt(ns, root, j);
    }
    if Ordered(ns, sub) {
      forall j | 0 <= j < |ns| ensures OrderedAt(ns', sub, j) {
        assert OrderedAt(ns, sub, j);
      }
    }
  }

  /** `_update_height_conditionally(cur)` at the walk's position establishes `Fixed`. */
  lemma FixCur(ns: seq<Node>, sub: seq<set<int>>, root: int, cur: int, h0: int)
    requires Walk(ns, sub, root, cur, h0) && cur != -1
    ensures Fixed(HeightFixed(ns, cur), sub, root, cur, h0)
  {
    var ns' := HeightFixed(ns, cur);
    HeightFixedKeeps(ns, sub, root, cur);
    assert LinkedAt(ns, root, cur);
    var p := ns[cur].parent;
    forall i | 0 <= i < |ns| && i != cur && i != p ensures LocalOK(ns', i) {
      assert LocalOK(ns, i) && LinkedAt(ns, root, i);
    }
    if p != -1 {
      assert SubAt(ns, sub, p) && SubAt(ns, sub, cur);
      assert Sibling(ns, p, cur) != cur;
    }
  }

  /** Without a rotation, the walk moves to the parent, whose old cached height is the new `h0`. */
  lemma StepUp(ns: seq<Node>, sub: seq<set<int>>, root: int, cur: int, h0: int)
    requires Fixed(ns, sub, root, cur, h0) && BalancedAt(ns, cur)
    ensures Walk(ns, sub, root, ns[cur].parent, H(ns, ns[cur].parent))
  {
    var p := ns[cur].parent;
    assert LocalOK(ns, cur);
    assert LinkedAt(ns, root, cur);
    if p != -1 {
      var g := ns[p].parent;
      assert LinkedAt(ns, root, p);
      forall i | 0 <= i < |ns| && i != p && i != g ensures LocalOK(ns, i) {
      }
      if g != -1 {
        assert LocalOK(ns, g) && LinkedAt(ns, root, g);
        assert SubAt(ns, sub, g);
      }
    }
  }

  /** A rotation leaves the cached heights of every node but the pivot and `y` as they were. */
  lemma RewiredHeights(ns: seq<Node>, ns': seq<Node>, x: int, lft: bool, j: int)
    requires LinksInRange(ns) && 0 <= x < |ns| && Up(ns, x, lft) != -1 && Rewired(ns, ns', x, lft)
    requires j != x && j != Up(ns, x, lft)
    ensures H(ns', j) == H(ns, j)
  {
    if 0 <= j < |ns| {
      var y, t2, p := Up(ns, x, lft), Mid(ns, x, lft), ns[x].parent;
      if j == p || j == t2 {
      } else {
        assert ns'[j] == ns[j];
      }
    }
  }

  /** A node away from the pivot, `y` and the pivot's parent keeps its children and their heights, so stays consistent and balanced. */
  lemma RewiredKeepsOK(ns: seq<Node>, sub: seq<set<int>>, root: int, ns': seq<Node>, x: int, lft: bool, i: int)
    requires Shape(ns, sub, root) && 0 <= x < |ns| && Up(ns, x, lft) != -1 && Rewired(ns, ns', x, lft)
    requires LinksInRange(ns')
    requires 0 <= i < |ns| && i != x && i != Up(ns, x, lft) && i != ns[x].parent && LocalOK(ns, i)
    ensures LocalOK(ns', i)
  {
    Distinct(ns, sub, root, x, lft);
    var y := Up(ns, x, lft);
    assert LinkedAt(ns, root, i);
    assert ns'[i].left == ns[i].left && ns'[i].right == ns[i].right;
    RewiredHeights(ns, ns', x, lft, ns[i].left);
    RewiredHeights(ns, ns', x, lft, ns[i].right);
  }

  /**
   * After the rotation (or the second rotation of a double one) at the walk's position, with
   * the pivot and `y` consistent and balanced and `y` no more than one taller than `h0`, the
   * walk can go on from `y`, which now stands where the pivot stood.
   */
  lemma RewiredWalk(ns: seq<Node>, sub: seq<set<int>>, root: int, ns': seq<Node>, x: int, lft: bool, h0: int)
    requires Shape(ns, sub, root) && 0 <= x < |ns| && Up(ns, x, lft) != -1 && Rewired(ns, ns', x, lft)
    requires Shape(ns', RotatedSub(ns, sub, x, lft), RotatedRoot(ns, root, x, Up(ns, x, lft)))
    requires forall i | 0 <= i < |ns| && i != x && i != Up(ns, x, lft) && i != ns[x].parent :: LocalOK(ns, i)
    requires ParentOK(ns, x, h0)
    requires LocalOK(ns', x) && LocalOK(ns', Up(ns, x, lft)) && h0 <= ns'[Up(ns, x, lft)].height <= h0 + 1
    ensures Walk(ns', RotatedSub(ns, sub, x, lft), RotatedRoot(ns, root, x, Up(ns, x, lft)), Up(ns, x, lft), h0)
  {
    Distinct(ns, sub, root, x, lft);
    var y, p := Up(ns, x, lft), ns[x].parent;
    assert ns'[y].parent == p;
    forall i | 0 <= i < |ns| && i != y && i != p ensures LocalOK(ns', i) {
      if i != x {
        RewiredKeepsOK(ns, sub, root, ns', x, lft, i);
      }
    }
    assert LocalOK(ns', y);
    if p != -1 {
      assert SubAt(ns, sub, p) && SubAt(ns, sub, x);
      var o := Sibling(ns, p, x);
      assert o != x && o != y;
      assert Sibling(ns', p, y) == o;
      RewiredHeights(ns, ns', x, lft, o);
    }
  }

  /** The nodes a rotation at `x` moves keep their heights; only the pivot and `y` are recomputed, from them. */
  ghost predicate Apart(ns: seq<Node>, x: int, lft: bool)
    requires LinksInRange(ns) && 0 <= x < |ns| && Up(ns, x, lft) != -1
  {
    var y, t2 := Up(ns, x, lft), Mid(ns, x, lft);
    var a := if lft then ns[x].left else ns[x].right;
    var c := if lft then ns[y].right else ns[y].left;
    y != x && y != ns[x].parent && t2 != x && t2 != y && a != x && a != y && c != x && c != y
  }

  /** After a rotation, the pivot's height comes from its outer subtree `a` and `t2`, and `y`'s from the pivot and `c`. */
  lemma RotatedHeights(ns: seq<Node>, ns': seq<Node>, x: int, lft: bool)
    requires LinksInRange(ns) && 0 <= x < |ns| && Up(ns, x, lft) != -1 && Rewired(ns, ns', x, lft)
    requires LinksInRange(ns') && Apart(ns, x, lft)
    ensures var y, t2 := Up(ns, x, lft), Mid(ns, x, lft);
      var a := if lft then ns[x].left else ns[x].right;
      var c := if lft then ns[y].right else ns[y].left;
      && ns'[x].height == 1 + Max(H(ns, a), H(ns, t2))
      && ns'[y].height == 1 + Max(ns'[x].height, H(ns, c))
      && (LocalOK(ns', x) <==> -1 <= H(ns, a) - H(ns, t2) <= 1)
      && (LocalOK(ns', y) <==> -1 <= ns'[x].height - H(ns, c) <= 1)
  {
    var y, t2 := Up(ns, x, lft), Mid(ns, x, lft);
    var a := if lft then ns[x].left else ns[x].right;
    var c := if lft then ns[y].right else ns[y].left;
    RewiredHeights(ns, ns', x, lft, a);
    RewiredHeights(ns, ns', x, lft, t2);
    RewiredHeights(ns, ns', x, lft, c);
  }

  /** The nodes a rotation moves are distinct from the pivot and `y`. */
  lemma DistinctApart(ns: seq<Node>, sub: seq<set<int>>, root: int, x: int, lft: bool)
    requires Shape(ns, sub, root) && 0 <= x < |ns| && Up(ns, x, lft) != -1
    ensures Apart(ns, x, lft)
  {
    Distinct(ns, sub, root, x, lft);
  }

  /** The heights after a single rotation: the pivot and `y` come out balanced, and `y` fits `h0` or one more. */
  lemma SingleHeights(ns: seq<Node>, ns': seq<Node>, x: int, lft: bool, h0: int)
    requires LinksInRange(ns) && 0 <= x < |ns| && Up(ns, x, lft) != -1 && Rewired(ns, ns', x, lft)
    requires LinksInRange(ns') && Apart(ns, x, lft)
    requires CurOK(ns, x, h0) && Lean(ns, x, lft) == 2
    requires LocalOK(ns, Up(ns, x, lft)) && Lean(ns, Up(ns, x, lft), lft) >= 0
    ensures LocalOK(ns', x) && LocalOK(ns', Up(ns, x, lft)) && h0 <= ns'[Up(ns, x, lft)].height <= h0 + 1
  {
    RotatedHeights(ns, ns', x, lft);
  }

  /** A pivot two taller on one side, whose heavy child does not lean the other way: one rotation rebalances it. */
  lemma StepSingle(ns: seq<Node>, sub: seq<set<int>>, root: int, x: int, lft: bool, h0: int)
    requires Fixed(ns, sub, root, x, h0) && Lean(ns, x, lft) == 2
    requires Up(ns, x, lft) != -1 && Lean(ns, Up(ns, x, lft), lft) >= 0
    ensures Rotated(ns, x, lft)[x].parent == Up(ns, x, lft)
    ensures Walk(Rotated(ns, x, lft), RotatedSub(ns, sub, x, lft), RotatedRoot(ns, root, x, Up(ns, x, lft)), Up(ns, x, lft), h0)
    ensures BalancedAt(Rotated(ns, x, lft), Up(ns, x, lft)) && RotatedSub(ns, sub, x, lft)[Up(ns, x, lft)] == sub[x]
  {
    RotationKeeps(ns, sub, root, x, lft);
    DistinctApart(ns, sub, root, x, lft);
    var ns' := Rotated(ns, x, lft);
    assert LocalOK(ns, Up(ns, x, lft));
    SingleHeights(ns, ns', x, lft, h0);
    RewiredWalk(ns, sub, root, ns', x, lft, h0);
  }

  /**
   * The second rotation of a double one: at the pivot, whose light child is `k` tall, while
   * the child `z` moving up carries a `k + 1` tall subtree on its outer side and a subtree of
   * `k - 1` or `k` on its inner side.
   */
  lemma SecondRotation(ns: seq<Node>, sub: seq<set<int>>, root: int, x: int, lft: bool, h0: int, k: int)
    requires Shape(ns, sub, root) && 0 <= x < |ns| && Up(ns, x, lft) != -1
    requires forall i | 0 <= i < |ns| && i != x && i != Up(ns, x, lft) && i != ns[x].parent :: LocalOK(ns, i)
    requires ParentOK(ns, x, h0) && h0 == k + 2
    requires H(ns, if lft then ns[x].left else ns[x].right) == k
    requires k - 1 <= H(ns, Mid(ns, x, lft)) <= k
    requires var z := Up(ns, x, lft); H(ns, if lft then ns[z].right else ns[z].left) == k + 1
    ensures Rotated(ns, x, lft)[x].parent == Up(ns, x, lft)
    ensures Walk(Rotated(ns, x, lft), RotatedSub(ns, sub, x, lft), RotatedRoot(ns, root, x, Up(ns, x, lft)), Up(ns, x, lft), h0)
    ensures BalancedAt(Rotated(ns, x, lft), Up(ns, x, lft)) && RotatedSub(ns, sub, x, lft)[Up(ns, x, lft)] == sub[x]
  {
    RotationKeeps(ns, sub, root, x, lft);
    DistinctApart(ns, sub, root, x, lft);
    var ns' := Rotated(ns, x, lft);
    RotatedHeights(ns, ns', x, lft);
    RewiredWalk(ns, sub, root, ns', x, lft, h0);
  }

  /**
   * The first rotation of a double one, at the pivot's heavy child `y`, the other way: `y`
   * comes out `k + 1` tall and balanced below `z`, and the pivot, still at its place, now has
   * `z` as its heavy child.
   */
  lemma FirstRotation(ns: seq<Node>, sub: seq<set<int>>, root: int, x: int, lft: bool, h0: int)
    requires Fixed(ns, sub, root, x, h0) && Lean(ns, x, lft) == 2
    requires Up(ns, x, lft) != -1 && Lean(ns, Up(ns, x, lft), lft) < 0
    ensures Up(ns, Up(ns, x, lft), !lft) != -1
    ensures var y := Up(ns, x, lft); var z := Up(ns, y, !lft);
      var ns1 := Rotated(ns, y, !lft);
      var k := h0 - 2;
      && Shape(ns1, RotatedSub(ns, sub, y, !lft), RotatedRoot(ns, root, y, z))
      && Rewired(ns, ns1, y, !lft)
      && Up(ns1, x, lft) == z && ns1[x].parent == ns[x].parent
      && LocalOK(ns1, y)
      && H(ns1, if lft then ns1[x].left else ns1[x].right) == k
      && k - 1 <= H(ns1, Mid(ns1, x, lft)) <= k
      && H(ns1, if lft then ns1[z].right else ns1[z].left) == k + 1
  {
    var y := Up(ns, x, lft);
    Distinct(ns, sub, root, x, lft);
    assert LocalOK(ns, y);
    var z := Up(ns, y, !lft);
    RotationKeeps(ns, sub, root, y, !lft);
    Distinct(ns, sub, root, y, !lft);
    DistinctApart(ns, sub, root, y, !lft);
    var ns1 := Rotated(ns, y, !lft);
    var p := ns[x].parent;
    assert z != x && z != p && z in sub[x] by {
      Nested(ns, sub, x, y);
    }
    assert LocalOK(ns, z);
    FirstHeights(ns, ns1, x, lft, h0);
    FirstLinks(ns, ns1, x, lft);
  }

  /** The links around the first rotation of a double one: the pivot now has `z` where it had `y`, and `z` has `y` on its outer side. */
  lemma FirstLinks(ns: seq<Node>, ns1: seq<Node>, x: int, lft: bool)
    requires LinksInRange(ns) && 0 <= x < |ns| && Up(ns, x, lft) != -1 && Up(ns, Up(ns, x, lft), !lft) != -1
    requires Rewired(ns, ns1, Up(ns, x, lft), !lft) && LinksInRange(ns1)
    requires var y := Up(ns, x, lft);
      && ns[y].parent == x && x != y && x != Up(ns, y, !lft) && x != Mid(ns, y, !lft)
      && (if lft then ns[x].left else ns[x].right) != y
    ensures var y := Up(ns, x, lft); var z := Up(ns, y, !lft);
      && Up(ns1, x, lft) == z && ns1[x].parent == ns[x].parent
      && (if lft then ns1[x].left else ns1[x].right) == (if lft then ns[x].left else ns[x].right)
      && Mid(ns1, x, lft) == (if lft then ns[z].left else ns[z].right)
      && (if lft then ns1[z].right else ns1[z].left) == y
  {
  }

  /** The heights around the first rotation of a double one, at the pivot's heavy child `y` towards its heavier inner child `z`. */
  lemma FirstHeights(ns: seq<Node>, ns1: seq<Node>, x: int, lft: bool, h0: int)
    requires LinksInRange(ns) && 0 <= x < |ns| && Up(ns, x, lft) != -1
    requires Up(ns, Up(ns, x, lft), !lft) != -1 && Rewired(ns, ns1, Up(ns, x, lft), !lft)
    requires LinksInRange(ns1) && Apart(ns, Up(ns, x, lft), !lft)
    requires CurOK(ns, x, h0) && Lean(ns, x, lft) == 2
    requires LocalOK(ns, Up(ns, x, lft)) && Lean(ns, Up(ns, x, lft), lft) < 0 && LocalOK(ns, Up(ns, Up(ns, x, lft), !lft))
    requires var a := if lft then ns[x].left else ns[x].right;
      a != Up(ns, x, lft) && a != Up(ns, Up(ns, x, lft), !lft)
    ensures var y := Up(ns, x, lft); var z := Up(ns, y, !lft); var k := h0 - 2;
      && LocalOK(ns1, y) && ns1[y].height == k + 1
      && H(ns1, if lft then ns[x].left else ns[x].right) == k
      && k - 1 <= H(ns1, if lft then ns[z].left else ns[z].right) <= k
  {
    var y := Up(ns, x, lft);
    var z := Up(ns, y, !lft);
    var a := if lft then ns[x].left else ns[x].right;
    var ya := if lft then ns[y].right else ns[y].left;
    var k := H(ns, a);
    assert H(ns, y) == k + 2 && h0 == k + 2;
    assert H(ns, z) == k + 1 && H(ns, ya) == k;
    var z1, z2 := Mid(ns, y, !lft), if lft then ns[z].left else ns[z].right;
    assert k - 1 <= H(ns, z1) <= k && k - 1 <= H(ns, z2) <= k;
    RotatedHeights(ns, ns1, y, !lft);
    RewiredHeights(ns, ns1, y, !lft, a);
    RewiredHeights(ns, ns1, y, !lft, z2);
  }

  /** Around the first rotation of a double one, every node but the pivot, `z` and the pivot's parent stays consistent and balanced, and the pivot's parent still fits `h0`. */
  lemma FirstRotationOthers(ns: seq<Node>, sub: seq<set<int>>, root: int, x: int, lft: bool, h0: int, ns1: seq<Node>)
    requires Fixed(ns, sub, root, x, h0)
    requires Up(ns, x, lft) != -1 && Up(ns, Up(ns, x, lft), !lft) != -1
    requires Rewired(ns, ns1, Up(ns, x, lft), !lft) && LinksInRange(ns1) && ns1[x].parent == ns[x].parent
    requires LocalOK(ns1, Up(ns, x, lft))
    ensures var z, p := Up(ns, Up(ns, x, lft), !lft), ns[x].parent;
      (forall i | 0 <= i < |ns1| && i != x && i != z && i != p :: LocalOK(ns1, i)) && ParentOK(ns1, x, h0)
  {
    var y := Up(ns, x, lft);
    var z := Up(ns, y, !lft);
    Distinct(ns, sub, root, x, lft);
    Distinct(ns, sub, root, y, !lft);
    var p := ns[x].parent;
    forall i | 0 <= i < |ns1| && i != x && i != z && i != p ensures LocalOK(ns1, i) {
      if i != y {
        RewiredKeepsOK(ns, sub, root, ns1, y, !lft, i);
      }
    }
    if p != -1 {
      assert SubAt(ns, sub, p);
      var o := Sibling(ns, p, x);
      var t := Mid(ns, y, !lft);
      assert y in sub[x] && z in sub[x] && (t != -1 ==> t in sub[x]) by {
        assert SubAt(ns, sub, x) && SubAt(ns, sub, y);
        Nested(ns, sub, x, y);
        Nested(ns, sub, y, z);
        Nested(ns, sub, x, z);
        assert SubAt(ns, sub, z);
        if t != -1 {
          assert SubAt(ns, sub, t);
        }
      }
      assert ns1[p] == ns[p];
      if o != -1 {
        assert SubAt(ns, sub, o);
        assert o !in sub[x];
      }
      assert Sibling(ns1, p, x) == o;
      RewiredHeights(ns, ns1, y, !lft, o);
    }
  }

  /** The first rotation of a double one leaves the pivot's subtree set as it was. */
  lemma DoubleKeepsPivotSub(ns: seq<Node>, sub: seq<set<int>>, root: int, x: int, lft: bool)
    requires Shape(ns, sub, root) && 0 <= x < |ns| && Up(ns, x, lft) != -1 && Up(ns, Up(ns, x, lft), !lft) != -1
    ensures RotatedSub(ns, sub, Up(ns, x, lft), !lft)[x] == sub[x]
  {
    var y := Up(ns, x, lft);
    assert SubAt(ns, sub, x) && SubAt(ns, sub, y);
  }

  /** 1 when the children of `cur` differ in height by more than one (the walk is about to rotate there), else 0. */
  function Tilt(ns: seq<Node>, cur: int): int {
    if 0 <= cur < |ns| && (H(ns, ns[cur].left) - H(ns, ns[cur].right) > 1 || H(ns, ns[cur].right) - H(ns, ns[cur].left) > 1)
    then 1 else 0
  }

  /** The parent's subtree strictly contains the child's. */
  lemma ParentGrows(ns: seq<Node>, sub: seq<set<int>>, root: int, c: int)
    requires Shape(ns, sub, root) && 0 <= c < |ns| && ns[c].parent != -1
    ensures var p := ns[c].parent; sub[c] <= sub[p] && p in sub[p] && p !in sub[c]
  {
    var p := ns[c].parent;
    assert LinkedAt(ns, root, c) && SubAt(ns, sub, p);
  }

  /** Recomputing a height leaves every in-order sequence as it was. */
  lemma {:induction false} HeightFixedInorder(ns: seq<Node>, sub: seq<set<int>>, root: int, i: int, p: int)
    requires Shape(ns, sub, root) && 0 <= i < |ns| && IsPtr(ns, p)
    ensures Shape(HeightFixed(ns, i), sub, root)
    ensures Inorder(HeightFixed(ns, i), sub, p) == Inorder(ns, sub, p)
    decreases S(sub, p)
  {
    HeightFixedKeeps(ns, sub, root, i);
    if p != -1 {
      assert SubAt(ns, sub, p);
      HeightFixedInorder(ns, sub, root, i, ns[p].left);
      HeightFixedInorder(ns, sub, root, i, ns[p].right);
    }
  }
}
