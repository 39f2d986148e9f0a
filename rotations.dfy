/**
 * Single AVL rotations on the node pool, as `_rotate_left` and `_rotate_right` perform them,
 * and what they preserve: the tree shape with its parent links, the search order, the stored
 * keys and frequencies, and the in-order key sequence of the whole tree.
 *
 * In both rotations `x` is the pivot (the node the source passes in) and `y` the child that
 * takes its place.
 */
module Rotations {
  import opened Pool
  import opened TreeFacts

  /** `_update_height_no_count`: height recomputed from the children's cached heights. */
  function HeightFixed(ns: seq<Node>, i: int): (r: seq<Node>)
    requires 0 <= i < |ns|
    ensures |r| == |ns| && r[i].height == 1 + Max(H(ns, ns[i].left), H(ns, ns[i].right))
    ensures forall j | 0 <= j < |ns| && j != i :: r[j] == ns[j]
    ensures r[i] == ns[i].(height := r[i].height)
  {
    ns[i := ns[i].(height := 1 + Max(H(ns, ns[i].left), H(ns, ns[i].right)))]
  }

  /** The pool after `_rotate_left(x)`, when `x` has a right child. */
  function LeftRotated(ns: seq<Node>, x: int): seq<Node>
    requires LinksInRange(ns) && 0 <= x < |ns| && ns[x].right != -1
  {
    var y := ns[x].right;
    var t2 := ns[y].left;
    var p := ns[x].parent;
    var n1 := ns[y := ns[y].(left := x)];
    var n2 := n1[x := n1[x].(right := t2)];
    var n3 := n2[y := n2[y].(parent := p)];
    var n4 := if p == -1 then n3
              else if n3[p].left == x then n3[p := n3[p].(left := y)]
              else n3[p := n3[p].(right := y)];
    var n5 := n4[x := n4[x].(parent := y)];
    var n6 := if t2 == -1 then n5 else n5[t2 := n5[t2].(parent := x)];
    var n7 := HeightFixed(n6, x);
    HeightFixed(n7, y)
  }

  /** The pool after `_rotate_right(x)`, when `x` has a left child. */
  function RightRotated(ns: seq<Node>, x: int): seq<Node>
    requires LinksInRange(ns) && 0 <= x < |ns| && ns[x].left != -1
  {
    var y := ns[x].left;
    var t2 := ns[y].right;
    var p := ns[x].parent;
    var n1 := ns[y := ns[y].(right := x)];
    var n2 := n1[x := n1[x].(left := t2)];
    var n3 := n2[y := n2[y].(parent := p)];
    var n4 := if p == -1 then n3
              else if n3[p].left == x then n3[p := n3[p].(left := y)]
              else n3[p := n3[p].(right := y)];
    var n5 := n4[x := n4[x].(parent := y)];
    var n6 := if t2 == -1 then n5 else n5[t2 := n5[t2].(parent := x)];
    var n7 := HeightFixed(n6, x);
    HeightFixed(n7, y)
  }

  /** Subtree sets after a rotation: the pivot keeps its outer child and the moved middle subtree; `y` takes over the pivot's set. */
  ghost function RotatedSub(ns: seq<Node>, sub: seq<set<int>>, x: int, left: bool): seq<set<int>>
    requires LinksInRange(ns) && SubOK(ns, sub) && 0 <= x < |ns|
    requires if left then ns[x].right != -1 else ns[x].left != -1
  {
    if left then
      var y := ns[x].right;
      sub[x := {x} + S(sub, ns[x].left) + S(sub, ns[y].left)][y := sub[x]]
    else
      var y := ns[x].left;
      sub[x := {x} + S(sub, ns[y].right) + S(sub, ns[x].right)][y := sub[x]]
  }

  /** The root after a rotation: `y` when the pivot was the root. */
  function RotatedRoot(ns: seq<Node>, root: int, x: int, y: int): int
    requires 0 <= x < |ns|
  {
    if ns[x].parent == -1 then y else root
  }

  /** Which nodes can be told apart around a pivot with a child `y`. */
  lemma Around(ns: seq<Node>, sub: seq<set<int>>, root: int, x: int, y: int)
    requires Shape(ns, sub, root) && 0 <= x < |ns| && (y == ns[x].left || y == ns[x].right) && y != -1
    ensures y != x && ns[y].parent == x
    ensures var p := ns[x].parent; p != -1 ==> 0 <= p < |ns| && p !in sub[x] && x in sub[p] && sub[x] <= sub[p]
    ensures sub[y] <= sub[x] && x !in sub[y]
    ensures var c := ns[y].left; c != -1 ==> c in sub[y] && c != x && c != y
    ensures var c := ns[y].right; c != -1 ==> c in sub[y] && c != x && c != y
  {
    assert SubAt(ns, sub, x) && SubAt(ns, sub, y) && LinkedAt(ns, root, x);
    if ns[y].left != -1 {
      assert SubAt(ns, sub, ns[y].left);
    }
    if ns[y].right != -1 {
      assert SubAt(ns, sub, ns[y].right);
    }
    var p := ns[x].parent;
    if p != -1 {
      assert SubAt(ns, sub, p);
      assert x in sub[p];
      Nested(ns, sub, p, x);
      if p in sub[x] {
        assert false;
      }
    }
  }

}

module RotationFacts {
  import opened Pool
  import opened TreeFacts
  import opened Rotations

  /** The child that moves up in a rotation at `x`. */
  function Up(ns: seq<Node>, x: int, lft: bool): int
    requires 0 <= x < |ns|
  {
    if lft then ns[x].right else ns[x].left
  }

  /** The middle subtree that changes sides, moving from `Up` to the pivot. */
  function Mid(ns: seq<Node>, x: int, lft: bool): int
    requires LinksInRange(ns) && 0 <= x < |ns| && Up(ns, x, lft) != -1
  {
    var y := Up(ns, x, lft);
    if lft then ns[y].left else ns[y].right
  }

  /**
   * How a rotation rewires the pool: `y` takes the pivot's place under the pivot's parent, the
   * pivot becomes `y`'s child on the `lft` side, the middle subtree `t2` moves from `y` to the
   * pivot, both cached heights are recomputed from the children, and no other node changes.
   */
  ghost predicate Rewired(ns: seq<Node>, ns': seq<Node>, x: int, lft: bool)
    requires LinksInRange(ns) && 0 <= x < |ns| && Up(ns, x, lft) != -1
  {
    var y, t2, p := Up(ns, x, lft), Mid(ns, x, lft), ns[x].parent;
    && |ns'| == |ns|
    && (forall i | 0 <= i < |ns| && i != x && i != y && i != p && i != t2 :: ns'[i] == ns[i])
    && (t2 != -1 ==> ns'[t2] == ns[t2].(parent := x))
    && (p != -1 ==> ns'[p] == if ns[p].left == x then ns[p].(left := y) else ns[p].(right := y))
    && (if lft then
          && ns'[x] == ns[x].(right := t2, parent := y, height := ns'[x].height)
          && ns'[y] == ns[y].(left := x, parent := p, height := ns'[y].height)
        else
          && ns'[x] == ns[x].(left := t2, parent := y, height := ns'[x].height)
          && ns'[y] == ns[y].(right := x, parent := p, height := ns'[y].height))
    && ns'[x].height == 1 + Max(H(ns', ns'[x].left), H(ns', ns'[x].right))
    && ns'[y].height == 1 + Max(H(ns', ns'[y].left), H(ns', ns'[y].right))
  }

  /** The nodes a rotation touches are pairwise distinct, and the moved subtrees sit where expected. */
  lemma Distinct(ns: seq<Node>, sub: seq<set<int>>, root: int, x: int, lft: bool)
    requires Shape(ns, sub, root) && 0 <= x < |ns| && Up(ns, x, lft) != -1
    ensures var y, t2, p := Up(ns, x, lft), Mid(ns, x, lft), ns[x].parent;
      && y != x && ns[y].parent == x && p != x && p != y
      && (t2 != -1 ==> t2 != x && t2 != y && t2 != p && ns[t2].parent == y)
      && (p != -1 ==> x in sub[p] && p !in sub[x] && sub[x] <= sub[p] && (ns[p].left == x || ns[p].right == x))
      && sub[y] <= sub[x] && x !in sub[y] && y in sub[x]
      && (var a := if lft then ns[x].left else ns[x].right;
          a != -1 ==> a != x && a != y && a != p && a != t2 && a in sub[x] && y !in sub[a] && ns[a].parent == x)
      && (var c := if lft then ns[y].right else ns[y].left;
          c != -1 ==> c != x && c != y && c != p && c != t2 && ns[c].parent == y)
  {
    var y := Up(ns, x, lft);
    Around(ns, sub, root, x, y);
    assert SubAt(ns, sub, x) && SubAt(ns, sub, y) && LinkedAt(ns, root, x) && LinkedAt(ns, root, y);
    var p := ns[x].parent;
    if p != -1 {
      assert SubAt(ns, sub, p);
    }
    var a := if lft then ns[x].left else ns[x].right;
    if a != -1 {
      assert SubAt(ns, sub, a);
    }
    var c := if lft then ns[y].right else ns[y].left;
    if c != -1 {
      assert SubAt(ns, sub, c);
    }
  }

  lemma LeftPoints(ns: seq<Node>, sub: seq<set<int>>, root: int, x: int)
    requires Shape(ns, sub, root) && 0 <= x < |ns| && ns[x].right != -1
    ensures Rewired(ns, LeftRotated(ns, x), x, true)
  {
    Distinct(ns, sub, root, x, true);
  }

  lemma RightPoints(ns: seq<Node>, sub: seq<set<int>>, root: int, x: int)
    requires Shape(ns, sub, root) && 0 <= x < |ns| && ns[x].left != -1
    ensures Rewired(ns, RightRotated(ns, x), x, false)
  {
    Distinct(ns, sub, root, x, false);
  }

  lemma RewiredSubAtOther(ns: seq<Node>, sub: seq<set<int>>, root: int, ns': seq<Node>, x: int, lft: bool, i: int)
    requires Shape(ns, sub, root) && 0 <= x < |ns| && Up(ns, x, lft) != -1 && Rewired(ns, ns', x, lft)
    requires LinksInRange(ns')
    requires 0 <= i < |ns| && i != x && i != Up(ns, x, lft) && i != ns[x].parent
    ensures SubAt(ns', RotatedSub(ns, sub, x, lft), i)
  {
    Distinct(ns, sub, root, x, lft);
    var sub' := RotatedSub(ns, sub, x, lft);
    assert SubAt(ns, sub, i);
    assert ns'[i].left == ns[i].left && ns'[i].right == ns[i].right;
    assert LinkedAt(ns, root, i);
  }

  lemma RewiredSubAtParent(ns: seq<Node>, sub: seq<set<int>>, root: int, ns': seq<Node>, x: int, lft: bool)
    requires Shape(ns, sub, root) && 0 <= x < |ns| && Up(ns, x, lft) != -1 && Rewired(ns, ns', x, lft)
    requires LinksInRange(ns') && ns[x].parent != -1
    ensures SubAt(ns', RotatedSub(ns, sub, x, lft), ns[x].parent)
  {
    Distinct(ns, sub, root, x, lft);
    var p := ns[x].parent;
    assert SubAt(ns, sub, p);
    var o := if ns[p].left == x then ns[p].right else ns[p].left;
    assert LinkedAt(ns, root, p);
  }

  lemma RewiredSubAtPair(ns: seq<Node>, sub: seq<set<int>>, root: int, ns': seq<Node>, x: int, lft: bool)
    requires Shape(ns, sub, root) && 0 <= x < |ns| && Up(ns, x, lft) != -1 && Rewired(ns, ns', x, lft)
    requires LinksInRange(ns')
    ensures SubAt(ns', RotatedSub(ns, sub, x, lft), x)
    ensures SubAt(ns', RotatedSub(ns, sub, x, lft), Up(ns, x, lft))
  {
    Distinct(ns, sub, root, x, lft);
    var sub' := RotatedSub(ns, sub, x, lft);
    var y, t2 := Up(ns, x, lft), Mid(ns, x, lft);
    var a, c := if lft then ns[x].left else ns[x].right, if lft then ns[y].right else ns[y].left;
    assert SubAt(ns, sub, x) && SubAt(ns, sub, y);
    assert sub'[x] == {x} + S(sub, a) + S(sub, t2);
    assert S(sub', a) == S(sub, a) && S(sub', t2) == S(sub, t2) && S(sub', c) == S(sub, c);
    assert sub'[y] == {y} + sub'[x] + S(sub', c);
  }

  /** After a rotation, every subtree set still holds only node ids. */
  lemma RewiredSubRange(ns: seq<Node>, sub: seq<set<int>>, root: int, x: int, lft: bool)
    requires Shape(ns, sub, root) && 0 <= x < |ns| && Up(ns, x, lft) != -1
    ensures forall i, j | 0 <= i < |ns| && j in RotatedSub(ns, sub, x, lft)[i] :: 0 <= j < |ns|
  {
    var sub' := RotatedSub(ns, sub, x, lft);
    assert SubAt(ns, sub, x) && SubAt(ns, sub, Up(ns, x, lft));
    forall i, j | 0 <= i < |ns| && j in sub'[i] ensures 0 <= j < |ns| {
      if i == x {
        assert j in sub[x] + sub[Up(ns, x, lft)];
      }
    }
  }

  /** A rotation only links nodes that exist, and keeps every key and frequency. */
  lemma RewiredLinks(ns: seq<Node>, ns': seq<Node>, x: int, lft: bool)
    requires LinksInRange(ns) && 0 <= x < |ns| && Up(ns, x, lft) != -1 && Rewired(ns, ns', x, lft)
    ensures LinksInRange(ns') && SameEntries(ns, ns')
  {
    var y, t2, p := Up(ns, x, lft), Mid(ns, x, lft), ns[x].parent;
    forall i | 0 <= i < |ns'| ensures IsPtr(ns', ns'[i].left) && IsPtr(ns', ns'[i].right) && IsPtr(ns', ns'[i].parent) {
      if i != x && i != y && i != p && i != t2 {
        assert ns'[i] == ns[i];
      }
    }
  }

  lemma RewiredSubOK(ns: seq<Node>, sub: seq<set<int>>, root: int, ns': seq<Node>, x: int, lft: bool)
    requires Shape(ns, sub, root) && 0 <= x < |ns| && Up(ns, x, lft) != -1 && Rewired(ns, ns', x, lft)
    ensures LinksInRange(ns') && SubOK(ns', RotatedSub(ns, sub, x, lft))
    ensures forall i | 0 <= i < |ns| && i != x && i != Up(ns, x, lft) :: RotatedSub(ns, sub, x, lft)[i] == sub[i]
    ensures RotatedSub(ns, sub, x, lft)[Up(ns, x, lft)] == sub[x]
  {
    Distinct(ns, sub, root, x, lft);
    var sub' := RotatedSub(ns, sub, x, lft);
    var y, p := Up(ns, x, lft), ns[x].parent;
    RewiredLinks(ns, ns', x, lft);
    RewiredSubAtPair(ns, sub, root, ns', x, lft);
    if p != -1 {
      RewiredSubAtParent(ns, sub, root, ns', x, lft);
    }
    forall i | 0 <= i < |ns| ensures SubAt(ns', sub', i) {
      if i != x && i != y && i != p {
        RewiredSubAtOther(ns, sub, root, ns', x, lft, i);
      }
    }
    RewiredSubRange(ns, sub, root, x, lft);
  }


  lemma RewiredLeftLink(ns: seq<Node>, sub: seq<set<int>>, root: int, ns': seq<Node>, x: int, lft: bool, i: int)
    requires Shape(ns, sub, root) && 0 <= x < |ns| && Up(ns, x, lft) != -1 && Rewired(ns, ns', x, lft)
    requires LinksInRange(ns') && 0 <= i < |ns|
    ensures ns'[i].left != -1 ==> ns'[ns'[i].left].parent == i
  {
    Distinct(ns, sub, root, x, lft);
    var y, t2, p := Up(ns, x, lft), Mid(ns, x, lft), ns[x].parent;
    if ns'[i].left == -1 || i == x || i == y {
    } else if i == p {
      if ns[p].right == x {
        var o := ns[p].left;
        assert SubAt(ns, sub, p) && SubAt(ns, sub, o) && SubAt(ns, sub, y);
        assert LinkedAt(ns, root, p);
      }
    } else if i == t2 {
      var d := ns[t2].left;
      assert SubAt(ns, sub, t2) && SubAt(ns, sub, y) && SubAt(ns, sub, d);
      assert LinkedAt(ns, root, t2);
    } else {
      assert ns'[i].left == ns[i].left;
      assert LinkedAt(ns, root, i);
    }
  }

  lemma RewiredRightLink(ns: seq<Node>, sub: seq<set<int>>, root: int, ns': seq<Node>, x: int, lft: bool, i: int)
    requires Shape(ns, sub, root) && 0 <= x < |ns| && Up(ns, x, lft) != -1 && Rewired(ns, ns', x, lft)
    requires LinksInRange(ns') && 0 <= i < |ns|
    ensures ns'[i].right != -1 ==> ns'[ns'[i].right].parent == i
  {
    Distinct(ns, sub, root, x, lft);
    var y, t2, p := Up(ns, x, lft), Mid(ns, x, lft), ns[x].parent;
    if ns'[i].right == -1 || i == x || i == y {
    } else if i == p {
      if ns[p].left == x {
        var o := ns[p].right;
        assert SubAt(ns, sub, p) && SubAt(ns, sub, o) && SubAt(ns, sub, y);
        assert LinkedAt(ns, root, p);
      }
    } else if i == t2 {
      var d := ns[t2].right;
      assert SubAt(ns, sub, t2) && SubAt(ns, sub, y) && SubAt(ns, sub, d);
      assert LinkedAt(ns, root, t2);
    } else {
      assert ns'[i].right == ns[i].right;
      assert LinkedAt(ns, root, i);
    }
  }

  lemma RewiredLinkedAt(ns: seq<Node>, sub: seq<set<int>>, root: int, ns': seq<Node>, x: int, lft: bool, i: int)
    requires Shape(ns, sub, root) && 0 <= x < |ns| && Up(ns, x, lft) != -1 && Rewired(ns, ns', x, lft)
    requires LinksInRange(ns') && 0 <= i < |ns|
    ensures LinkedAt(ns', RotatedRoot(ns, root, x, Up(ns, x, lft)), i)
  {
    Distinct(ns, sub, root, x, lft);
    RewiredLeftLink(ns, sub, root, ns', x, lft, i);
    RewiredRightLink(ns, sub, root, ns', x, lft, i);
    var y, t2, p := Up(ns, x, lft), Mid(ns, x, lft), ns[x].parent;
    assert LinkedAt(ns, root, i) && LinkedAt(ns, root, x) && LinkedAt(ns, root, y);
    var q := ns[i].parent;
    if i != x && i != y && i != t2 && q != -1 {
      assert LinkedAt(ns, root, q);
      if i == p {
        assert SubAt(ns, sub, q);
        if q in sub[x] {
          Nested(ns, sub, x, q);
          assert false;
        }
      }
    }
  }

  lemma RewiredParentLinks(ns: seq<Node>, sub: seq<set<int>>, root: int, ns': seq<Node>, x: int, lft: bool)
    requires Shape(ns, sub, root) && 0 <= x < |ns| && Up(ns, x, lft) != -1 && Rewired(ns, ns', x, lft)
    ensures LinksInRange(ns') && ParentLinks(ns', RotatedRoot(ns, root, x, Up(ns, x, lft)))
  {
    Distinct(ns, sub, root, x, lft);
    RewiredLinks(ns, ns', x, lft);
    forall i | 0 <= i < |ns| ensures LinkedAt(ns', RotatedRoot(ns, root, x, Up(ns, x, lft)), i) {
      RewiredLinkedAt(ns, sub, root, ns', x, lft, i);
    }
  }

  /** A rotation keeps the pool one tree, with exact parent links and the root updated when the pivot was the root. */
  lemma RewiredShape(ns: seq<Node>, sub: seq<set<int>>, root: int, ns': seq<Node>, x: int, lft: bool)
    requires Shape(ns, sub, root) && 0 <= x < |ns| && Up(ns, x, lft) != -1 && Rewired(ns, ns', x, lft)
    ensures Shape(ns', RotatedSub(ns, sub, x, lft), RotatedRoot(ns, root, x, Up(ns, x, lft)))
    ensures SameEntries(ns, ns')
  {
    RewiredSubOK(ns, sub, root, ns', x, lft);
    RewiredParentLinks(ns, sub, root, ns', x, lft);
    Distinct(ns, sub, root, x, lft);
    var y := Up(ns, x, lft);
    var root' := RotatedRoot(ns, root, x, y);
    assert LinkedAt(ns, root, x) && LinkedAt(ns, root, y);
    if root' != -1 {
      assert root' == y || (root != x && root != y);
    }
  }

  /** Away from the pivot and the node moving up, every child's subtree set is the same set after the rotation. */
  lemma RewiredChildSets(ns: seq<Node>, sub: seq<set<int>>, root: int, ns': seq<Node>, x: int, lft: bool, i: int)
    requires Shape(ns, sub, root) && 0 <= x < |ns| && Up(ns, x, lft) != -1 && Rewired(ns, ns', x, lft)
    requires Shape(ns', RotatedSub(ns, sub, x, lft), RotatedRoot(ns, root, x, Up(ns, x, lft)))
    requires 0 <= i < |ns| && i != x && i != Up(ns, x, lft)
    ensures S(RotatedSub(ns, sub, x, lft), ns'[i].left) == S(sub, ns[i].left)
    ensures S(RotatedSub(ns, sub, x, lft), ns'[i].right) == S(sub, ns[i].right)
  {
    Distinct(ns, sub, root, x, lft);
    RewiredSubOK(ns, sub, root, ns', x, lft);
    var sub' := RotatedSub(ns, sub, x, lft);
    var y, p := Up(ns, x, lft), ns[x].parent;
    assert LinkedAt(ns, root, i);
    if i == p {
      assert S(sub', y) == sub[x] && SubAt(ns, sub, p) && SubAt(ns, sub, y);
      var o := if ns[p].left == x then ns[p].right else ns[p].left;
      if o != -1 {
        assert SubAt(ns, sub, o);
        assert o != y && o != x && sub'[o] == sub[o];
      }
    } else {
      assert ns'[i].left == ns[i].left && ns'[i].right == ns[i].right;
    }
  }

  /** After a rotation the pivot, now holding its outer subtree and the middle one, is still in order. */
  lemma RewiredOrderedPivot(ns: seq<Node>, sub: seq<set<int>>, root: int, ns': seq<Node>, x: int, lft: bool)
    requires Shape(ns, sub, root) && Ordered(ns, sub) && 0 <= x < |ns| && Up(ns, x, lft) != -1
    requires Rewired(ns, ns', x, lft) && LinksInRange(ns') && SameEntries(ns, ns')
    requires SubOK(ns', RotatedSub(ns, sub, x, lft))
    ensures OrderedAt(ns', RotatedSub(ns, sub, x, lft), x)
  {
    Distinct(ns, sub, root, x, lft);
    var sub' := RotatedSub(ns, sub, x, lft);
    var y, t2 := Up(ns, x, lft), Mid(ns, x, lft);
    var a := if lft then ns[x].left else ns[x].right;
    assert SubAt(ns, sub, y) && OrderedAt(ns, sub, x);
    assert S(sub', a) == S(sub, a) && S(sub', t2) == S(sub, t2);
    assert S(sub, t2) <= sub[y];
  }

  /** After a rotation the node moved up, now holding the pivot's subtree and its own outer one, is still in order. */
  lemma RewiredOrderedUp(ns: seq<Node>, sub: seq<set<int>>, root: int, ns': seq<Node>, x: int, lft: bool)
    requires Shape(ns, sub, root) && Ordered(ns, sub) && 0 <= x < |ns| && Up(ns, x, lft) != -1
    requires Rewired(ns, ns', x, lft) && LinksInRange(ns') && SameEntries(ns, ns')
    requires SubOK(ns', RotatedSub(ns, sub, x, lft))
    ensures OrderedAt(ns', RotatedSub(ns, sub, x, lft), Up(ns, x, lft))
  {
    Distinct(ns, sub, root, x, lft);
    var sub' := RotatedSub(ns, sub, x, lft);
    var y, t2 := Up(ns, x, lft), Mid(ns, x, lft);
    var a := if lft then ns[x].left else ns[x].right;
    var c := if lft then ns[y].right else ns[y].left;
    assert SubAt(ns, sub, x) && SubAt(ns, sub, y) && OrderedAt(ns, sub, x) && OrderedAt(ns, sub, y);
    assert sub'[x] == {x} + S(sub, a) + S(sub, t2);
    assert S(sub', c) == S(sub, c);
    if lft {
      assert ns[x].key <= ns[y].key;
      forall j | j in sub'[x] ensures ns[j].key <= ns[y].key {
        if j in S(sub, a) {
          assert ns[j].key <= ns[x].key;
        }
      }
    } else {
      assert ns[y].key <= ns[x].key;
      forall j | j in sub'[x] ensures ns[y].key <= ns[j].key {
        if j in S(sub, a) {
          assert ns[x].key <= ns[j].key;
        }
      }
    }
  }

  lemma RewiredOrderedAt(ns: seq<Node>, sub: seq<set<int>>, root: int, ns': seq<Node>, x: int, lft: bool, i: int)
    requires Shape(ns, sub, root) && Ordered(ns, sub) && 0 <= x < |ns| && Up(ns, x, lft) != -1
    requires Rewired(ns, ns', x, lft)
    requires Shape(ns', RotatedSub(ns, sub, x, lft), RotatedRoot(ns, root, x, Up(ns, x, lft)))
    requires 0 <= i < |ns|
    ensures OrderedAt(ns', RotatedSub(ns, sub, x, lft), i)
  {
    RewiredSubOK(ns, sub, root, ns', x, lft);
    RewiredLinks(ns, ns', x, lft);
    if i == x {
      RewiredOrderedPivot(ns, sub, root, ns', x, lft);
    } else if i == Up(ns, x, lft) {
      RewiredOrderedUp(ns, sub, root, ns', x, lft);
    } else {
      RewiredChildSets(ns, sub, root, ns', x, lft, i);
      RewiredSubOK(ns, sub, root, ns', x, lft);
      assert OrderedAt(ns, sub, i);
      assert ns'[i].key == ns[i].key;
      assert forall j | j in S(sub, ns[i].left) :: ns'[j].key == ns[j].key;
      assert forall j | j in S(sub, ns[i].right) :: ns'[j].key == ns[j].key;
    }
  }

  /** A rotation keeps the search order. */
  lemma RewiredOrdered(ns: seq<Node>, sub: seq<set<int>>, root: int, ns': seq<Node>, x: int, lft: bool)
    requires Shape(ns, sub, root) && Ordered(ns, sub) && 0 <= x < |ns| && Up(ns, x, lft) != -1
    requires Rewired(ns, ns', x, lft)
    ensures Shape(ns', RotatedSub(ns, sub, x, lft), RotatedRoot(ns, root, x, Up(ns, x, lft)))
    ensures Ordered(ns', RotatedSub(ns, sub, x, lft))
  {
    RewiredShape(ns, sub, root, ns', x, lft);
    var sub' := RotatedSub(ns, sub, x, lft);
    forall i | 0 <= i < |ns'| ensures OrderedAt(ns', sub', i) {
      RewiredOrderedAt(ns, sub, root, ns', x, lft, i);
    }
  }

  lemma Regroup(a: seq<int>, b: seq<int>, c: seq<int>, d: seq<int>, e: seq<int>)
    ensures (a + b + c) + d + e == a + b + (c + d + e)
  {
  }

  /** The subtree now rooted at `y` lists the same keys in order as the pivot's subtree did. */
  lemma {:induction false} RewiredInorderUp(ns: seq<Node>, sub: seq<set<int>>, root: int, ns': seq<Node>, x: int, lft: bool)
    requires Shape(ns, sub, root) && 0 <= x < |ns| && Up(ns, x, lft) != -1 && Rewired(ns, ns', x, lft)
    requires Shape(ns', RotatedSub(ns, sub, x, lft), RotatedRoot(ns, root, x, Up(ns, x, lft)))
    ensures Inorder(ns', RotatedSub(ns, sub, x, lft), Up(ns, x, lft)) == Inorder(ns, sub, x)
    decreases S(RotatedSub(ns, sub, x, lft), Up(ns, x, lft)), 1
  {
    var sub' := RotatedSub(ns, sub, x, lft);
    var y, t2 := Up(ns, x, lft), Mid(ns, x, lft);
    var a := if lft then ns[x].left else ns[x].right;
    var c := if lft then ns[y].right else ns[y].left;
    assert && a != x && a != y && t2 != x && t2 != y && c != x && c != y
                   && IsPtr(ns', a) && IsPtr(ns', t2) && IsPtr(ns', c)
                   && S(sub', a) < sub'[y] && S(sub', t2) < sub'[y] && S(sub', c) < sub'[y]
                   && (if lft then ns'[y].left == x && ns'[y].right == c && ns'[x].left == a && ns'[x].right == t2
                       else ns'[y].right == x && ns'[y].left == c && ns'[x].right == a && ns'[x].left == t2)
                   && (if lft then ns[x].left == a && ns[x].right == y && ns[y].left == t2 && ns[y].right == c
                       else ns[x].right == a && ns[x].left == y && ns[y].right == t2 && ns[y].left == c)
    by {
      Distinct(ns, sub, root, x, lft);
      assert SubAt(ns', sub', y) && SubAt(ns', sub', x);
      assert SubAt(ns, sub, x) && SubAt(ns, sub, y);
    }
    RewiredInorderAt(ns, sub, root, ns', x, lft, a);
    RewiredInorderAt(ns, sub, root, ns', x, lft, t2);
    RewiredInorderAt(ns, sub, root, ns', x, lft, c);
    UnfoldInorder(ns', sub', y);
    UnfoldInorder(ns', sub', x);
    UnfoldInorder(ns, sub, x);
    UnfoldInorder(ns, sub, y);
    var ia, it, ic := Inorder(ns, sub, a), Inorder(ns, sub, t2), Inorder(ns, sub, c);
    var rx, ry := Rep(ns[x].key, ns[x].value), Rep(ns[y].key, ns[y].value);
    assert ns'[x].key == ns[x].key && ns'[x].value == ns[x].value;
    assert ns'[y].key == ns[y].key && ns'[y].value == ns[y].value;
    if lft {
      assert Inorder(ns', sub', x) == ia + rx + it;
      assert Inorder(ns, sub, y) == it + ry + ic;
      Regroup(ia, rx, it, ry, ic);
    } else {
      assert Inorder(ns', sub', x) == it + rx + ia;
      assert Inorder(ns, sub, y) == ic + ry + it;
      Regroup(ic, ry, it, rx, ia);
    }
  }

  /** A node away from the pivot and `y` keeps its entry, and a child link to the pivot now leads to `y`. */
  lemma RewiredNodeAt(ns: seq<Node>, sub: seq<set<int>>, root: int, ns': seq<Node>, x: int, lft: bool, b: int)
    requires Shape(ns, sub, root) && 0 <= x < |ns| && Up(ns, x, lft) != -1 && Rewired(ns, ns', x, lft)
    requires Shape(ns', RotatedSub(ns, sub, x, lft), RotatedRoot(ns, root, x, Up(ns, x, lft)))
    requires 0 <= b < |ns| && b != x && b != Up(ns, x, lft)
    ensures ns'[b].key == ns[b].key && ns'[b].value == ns[b].value
    ensures ns'[b].left != x && ns'[b].right != x && ns[b].left != Up(ns, x, lft) && ns[b].right != Up(ns, x, lft)
    ensures ns'[b].left == if ns[b].left == x then Up(ns, x, lft) else ns[b].left
    ensures ns'[b].right == if ns[b].right == x then Up(ns, x, lft) else ns[b].right
  {
    var sub' := RotatedSub(ns, sub, x, lft);
    var root' := RotatedRoot(ns, root, x, Up(ns, x, lft));
    Distinct(ns, sub, root, x, lft);
    assert SubAt(ns', sub', b) && LinkedAt(ns', root', b) && SubAt(ns, sub, b) && LinkedAt(ns, root, b);
  }

  /**
   * Every other subtree of the rotated tree, away from the pivot and `y`, lists the same keys
   * in order as the old subtree at that node.
   */
  lemma {:induction false} RewiredInorderAt(ns: seq<Node>, sub: seq<set<int>>, root: int, ns': seq<Node>, x: int, lft: bool, b: int)
    requires Shape(ns, sub, root) && 0 <= x < |ns| && Up(ns, x, lft) != -1 && Rewired(ns, ns', x, lft)
    requires Shape(ns', RotatedSub(ns, sub, x, lft), RotatedRoot(ns, root, x, Up(ns, x, lft)))
    requires IsPtr(ns', b) && b != x && b != Up(ns, x, lft)
    ensures Inorder(ns', RotatedSub(ns, sub, x, lft), b) == Inorder(ns, sub, b)
    decreases S(RotatedSub(ns, sub, x, lft), b), 0
  {
    var sub' := RotatedSub(ns, sub, x, lft);
    var y := Up(ns, x, lft);
    if b != -1 {
      RewiredNodeAt(ns, sub, root, ns', x, lft, b);
      assert SubAt(ns', sub', b);
      UnfoldInorder(ns', sub', b);
      UnfoldInorder(ns, sub, b);
      var l', r' := ns'[b].left, ns'[b].right;
      if l' == y {
        RewiredInorderUp(ns, sub, root, ns', x, lft);
      } else {
        RewiredInorderAt(ns, sub, root, ns', x, lft, l');
      }
      if r' == y {
        RewiredInorderUp(ns, sub, root, ns', x, lft);
      } else {
        RewiredInorderAt(ns, sub, root, ns', x, lft, r');
      }
    }
  }

  /** A rotation keeps the in-order key sequence of the whole tree. */
  lemma RewiredInorder(ns: seq<Node>, sub: seq<set<int>>, root: int, ns': seq<Node>, x: int, lft: bool)
    requires Shape(ns, sub, root) && 0 <= x < |ns| && Up(ns, x, lft) != -1 && Rewired(ns, ns', x, lft)
    requires Shape(ns', RotatedSub(ns, sub, x, lft), RotatedRoot(ns, root, x, Up(ns, x, lft)))
    ensures Inorder(ns', RotatedSub(ns, sub, x, lft), RotatedRoot(ns, root, x, Up(ns, x, lft))) == Inorder(ns, sub, root)
  {
    var y := Up(ns, x, lft);
    Distinct(ns, sub, root, x, lft);
    assert LinkedAt(ns, root, x) && LinkedAt(ns, root, y);
    if ns[x].parent == -1 {
      RewiredInorderUp(ns, sub, root, ns', x, lft);
    } else {
      RewiredInorderAt(ns, sub, root, ns', x, lft, root);
    }
  }
}
