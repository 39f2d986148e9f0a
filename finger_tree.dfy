/**
 * The finger-search AVL tree `AVLFingerTree` and its insertion sort.
 *
 * The object's state is the node pool `nodes` (every AVLNode, named by its index), the root
 * and the two fingers `minNode` and `maxNode` (-1 for None), the node count `size` and the two
 * statistics counters. The ghost fields give the subtree set of every node (`sub`) and the
 * keys inserted so far (`inserted`). `Valid()` is what every public operation keeps: the pool
 * is one tree with exact parent links, in search order, AVL-balanced with correct cached
 * heights, with correct fingers, and it stores exactly the inserted keys.
 */
module FingerTree {
  import opened Pool
  import opened TreeFacts
  import opened Rotations
  import opened RotationFacts
  import opened Rebalance
  import opened Search
  import opened Insertion

  ghost predicate StrictlyIncreasing(s: seq<int>) {
    forall i, j | 0 <= i < j < |s| :: s[i] < s[j]
  }

  ghost predicate AllEqual(s: seq<int>) {
    forall i | 0 <= i < |s| :: s[i] == s[0]
  }

  class AVLFingerTree {
    var nodes: seq<Node>
    var root: int
    var minNode: int
    var maxNode: int
    var size: int
    var searchOps: int
    var rebalanceOps: int
    ghost var sub: seq<set<int>>
    ghost var inserted: seq<int>

    ghost predicate Valid()
      reads this
    {
      && Shape(nodes, sub, root)
      && Ordered(nodes, sub)
      && AVL(nodes)
      && Fingers(nodes, root, minNode, maxNode)
      && size == |nodes|
      && Bag(nodes) == multiset(inserted)
    }

    constructor ()
      ensures Valid() && root == -1 && size == 0 && inserted == []
      ensures searchOps == 0 && rebalanceOps == 0
    {
      nodes := [];
      root := -1;
      minNode := -1;
      maxNode := -1;
      size := 0;
      searchOps := 0;
      rebalanceOps := 0;
      sub := [];
      inserted := [];
    }

    /**
     * `_balance_factor`: the cached height of the left child minus that of the right child.
     * Once the heights below `i` are consistent, this is the difference of the children's
     * true heights. (`Lean` is the same quantity, from the side of a rotation.)
     */
    function BalanceFactor(i: int): (bf: int)
      reads this
      requires 0 <= i < |nodes|
      ensures Tree(nodes, sub) && HeightsOKIn(nodes, S(sub, nodes[i].left) + S(sub, nodes[i].right)) ==>
        bf == TrueHeight(nodes, sub, nodes[i].left) - TrueHeight(nodes, sub, nodes[i].right)
      ensures bf == Lean(nodes, i, false) && -bf == Lean(nodes, i, true)
    {
      ChildHeightsTrue(nodes, sub, i);
      Skew(nodes, i)
    }

    /** `_update_height_no_count`. */
    method UpdateHeightNoCount(i: int)
      requires 0 <= i < |nodes|
      modifies this`nodes
      ensures nodes == HeightFixed(old(nodes), i)
    {
      var hl := H(nodes, nodes[i].left);
      var hr := H(nodes, nodes[i].right);
      nodes := nodes[i := nodes[i].(height := 1 + Max(hl, hr))];
    }

    /**
     * `_update_height_conditionally`: the height is recomputed, and the rebalance counter goes
     * up by one exactly when the height changed while the node is not out of balance.
     */
    method UpdateHeightConditionally(i: int)
      requires 0 <= i < |nodes|
      modifies this`nodes, this`rebalanceOps
      ensures nodes == HeightFixed(old(nodes), i)
      ensures var bf := H(old(nodes), old(nodes)[i].left) - H(old(nodes), old(nodes)[i].right);
        rebalanceOps == old(rebalanceOps) + (if nodes[i].height != old(nodes)[i].height && -2 < bf < 2 then 1 else 0)
    {
      var oldH := nodes[i].height;
      var hl: int := H(nodes, nodes[i].left);
      var hr: int := H(nodes, nodes[i].right);
      var newH := 1 + Max(hl, hr);
      var bf := hl - hr;
      if newH != oldH && -2 < bf < 2 {
        rebalanceOps := rebalanceOps + 1;
      }
      nodes := nodes[i := nodes[i].(height := newH)];
    }

    /**
     * `_rotate_left(x)`: nothing happens without a right child; otherwise the right child takes
     * `x`'s place. The tree stays a tree in search order with the same traversal, and the root
     * moves to the new top when `x` was the root. No counter changes.
     */
    method RotateLeft(x: int) returns (r: int)
      requires Shape(nodes, sub, root) && Ordered(nodes, sub) && 0 <= x < |nodes|
      modifies this`nodes, this`root, this`sub
      ensures old(nodes[x].right) == -1 ==> r == x && nodes == old(nodes) && root == old(root) && sub == old(sub)
      ensures old(nodes[x].right) != -1 ==>
        && r == old(nodes[x].right)
        && nodes == LeftRotated(old(nodes), x)
        && sub == RotatedSub(old(nodes), old(sub), x, true)
        && root == RotatedRoot(old(nodes), old(root), x, r)
      ensures Shape(nodes, sub, root) && Ordered(nodes, sub) && SameEntries(old(nodes), nodes)
      ensures Inorder(nodes, sub, root) == old(Inorder(nodes, sub, root))
    {
      var y := nodes[x].right;
      if y == -1 {
        return x;
      }
      ghost var ns0, sub0, root0 := nodes, sub, root;
      RotationKeeps(ns0, sub0, root0, x, true);
      var t2 := nodes[y].left;
      nodes := nodes[y := nodes[y].(left := x)];
      nodes := nodes[x := nodes[x].(right := t2)];
      var p := nodes[x].parent;
      nodes := nodes[y := nodes[y].(parent := p)];
      if p == -1 {
        root := y;
      } else if nodes[p].left == x {
        nodes := nodes[p := nodes[p].(left := y)];
      } else {
        nodes := nodes[p := nodes[p].(right := y)];
      }
      nodes := nodes[x := nodes[x].(parent := y)];
      if t2 != -1 {
        nodes := nodes[t2 := nodes[t2].(parent := x)];
      }
      UpdateHeightNoCount(x);
      UpdateHeightNoCount(y);
      sub := RotatedSub(ns0, sub0, x, true);
      return y;
    }

    /** `_rotate_right(x)`, the mirror image of `RotateLeft`. */
    method RotateRight(x: int) returns (r: int)
      requires Shape(nodes, sub, root) && Ordered(nodes, sub) && 0 <= x < |nodes|
      modifies this`nodes, this`root, this`sub
      ensures old(nodes[x].left) == -1 ==> r == x && nodes == old(nodes) && root == old(root) && sub == old(sub)
      ensures old(nodes[x].left) != -1 ==>
        && r == old(nodes[x].left)
        && nodes == RightRotated(old(nodes), x)
        && sub == RotatedSub(old(nodes), old(sub), x, false)
        && root == RotatedRoot(old(nodes), old(root), x, r)
      ensures Shape(nodes, sub, root) && Ordered(nodes, sub) && SameEntries(old(nodes), nodes)
      ensures Inorder(nodes, sub, root) == old(Inorder(nodes, sub, root))
    {
      var y := nodes[x].left;
      if y == -1 {
        return x;
      }
      ghost var ns0, sub0, root0 := nodes, sub, root;
      RotationKeeps(ns0, sub0, root0, x, false);
      var t2 := nodes[y].right;
      nodes := nodes[y := nodes[y].(right := x)];
      nodes := nodes[x := nodes[x].(left := t2)];
      var p := nodes[x].parent;
      nodes := nodes[y := nodes[y].(parent := p)];
      if p == -1 {
        root := y;
      } else if nodes[p].left == x {
        nodes := nodes[p := nodes[p].(left := y)];
      } else {
        nodes := nodes[p := nodes[p].(right := y)];
      }
      nodes := nodes[x := nodes[x].(parent := y)];
      if t2 != -1 {
        nodes := nodes[t2 := nodes[t2].(parent := x)];
      }
      UpdateHeightNoCount(x);
      UpdateHeightNoCount(y);
      sub := RotatedSub(ns0, sub0, x, false);
      return y;
    }
  
    /**
     * The `bf > 1` branch of `_rebalance_from`: at a node two taller on the left, one right
     * rotation, preceded by a left rotation at the left child when that child leans right.
     * The node that comes up is balanced, takes over the node's subtree set, and is where
     * the walk goes on, with the same `h0`.
     */
    method FixLeftHeavy(x: int, ghost h0: int)
      requires Fixed(nodes, sub, root, x, h0) && Ordered(nodes, sub) && Lean(nodes, x, false) == 2
      modifies this`nodes, this`root, this`sub
      ensures Shape(nodes, sub, root) && Ordered(nodes, sub) && SameEntries(old(nodes), nodes)
      ensures Inorder(nodes, sub, root) == old(Inorder(nodes, sub, root))
      ensures 0 <= nodes[x].parent < |nodes| && Walk(nodes, sub, root, nodes[x].parent, h0)
      ensures BalancedAt(nodes, nodes[x].parent) && sub[nodes[x].parent] == old(sub[x])
    {
      var y := nodes[x].left;
      if BalanceFactor(y) < 0 {
        FirstRotation(nodes, sub, root, x, false, h0);
        DoubleKeepsPivotSub(nodes, sub, root, x, false);
        ghost var ns0, sub0, root0 := nodes, sub, root;
        var _ := RotateLeft(y);
        FirstRotationOthers(ns0, sub0, root0, x, false, h0, nodes);
        SecondRotation(nodes, sub, root, x, false, h0, h0 - 2);
      } else {
        StepSingle(nodes, sub, root, x, false, h0);
      }
      var _ := RotateRight(x);
    }

    /** The `bf < -1` branch of `_rebalance_from`, the mirror image of `FixLeftHeavy`. */
    method FixRightHeavy(x: int, ghost h0: int)
      requires Fixed(nodes, sub, root, x, h0) && Ordered(nodes, sub) && Lean(nodes, x, true) == 2
      modifies this`nodes, this`root, this`sub
      ensures Shape(nodes, sub, root) && Ordered(nodes, sub) && SameEntries(old(nodes), nodes)
      ensures Inorder(nodes, sub, root) == old(Inorder(nodes, sub, root))
      ensures 0 <= nodes[x].parent < |nodes| && Walk(nodes, sub, root, nodes[x].parent, h0)
      ensures BalancedAt(nodes, nodes[x].parent) && sub[nodes[x].parent] == old(sub[x])
    {
      var y := nodes[x].right;
      if BalanceFactor(y) > 0 {
        FirstRotation(nodes, sub, root, x, true, h0);
        DoubleKeepsPivotSub(nodes, sub, root, x, true);
        ghost var ns0, sub0, root0 := nodes, sub, root;
        var _ := RotateRight(y);
        FirstRotationOthers(ns0, sub0, root0, x, true, h0, nodes);
        SecondRotation(nodes, sub, root, x, true, h0, h0 - 2);
      } else {
        StepSingle(nodes, sub, root, x, true, h0);
      }
      var _ := RotateLeft(x);
    }

    /**
     * One pass of the loop of `_rebalance_from` at `cur`: the height update, then a rotation
     * when `cur` is two taller on one side. Returns the next node of the walk, the parent of
     * `cur` afterwards, and the height its position had before the insertion. The walk's
     * subtree set grows, or stays while the imbalance there has been removed.
     */
    method RebalanceStep(cur: int, ghost g: int) returns (next: int, ghost g': int)
      requires Walk(nodes, sub, root, cur, g) && Ordered(nodes, sub) && cur != -1
      modifies this`nodes, this`root, this`sub, this`rebalanceOps
      ensures Walk(nodes, sub, root, next, g') && Ordered(nodes, sub)
      ensures SameEntries(old(nodes), nodes)
      ensures var ns := old(nodes); var hl, hr := H(ns, ns[cur].left), H(ns, ns[cur].right);
        rebalanceOps == old(rebalanceOps) + (if 1 + Max(hl, hr) != ns[cur].height && -2 < hl - hr < 2 then 1 else 0)
      ensures Inorder(nodes, sub, root) == old(Inorder(nodes, sub, root))
      ensures next == nodes[cur].parent
      ensures next != -1 ==>
        || (old(sub[cur]) <= sub[next] && next in sub[next] && next !in old(sub[cur]))
        || (sub[next] == old(sub[cur]) && Tilt(nodes, next) < Tilt(old(nodes), cur) && rebalanceOps == old(rebalanceOps))
    {
      FixCur(nodes, sub, root, cur, g);
      HeightFixedKeeps(nodes, sub, root, cur);
      HeightFixedInorder(nodes, sub, root, cur, root);
      UpdateHeightConditionally(cur);
      var bf := BalanceFactor(cur);
      if bf > 1 {
        FixLeftHeavy(cur, g);
        g' := g;
      } else if bf < -1 {
        FixRightHeavy(cur, g);
        g' := g;
      } else {
        StepUp(nodes, sub, root, cur, g);
        if nodes[cur].parent != -1 {
          ParentGrows(nodes, sub, root, cur);
        }
        g' := H(nodes, nodes[cur].parent);
      }
      next := nodes[cur].parent;
    }

    /**
     * `_rebalance_from(node)`: walks from `node` to the root, recomputing each height and
     * rotating where a node is two taller on one side. `h0` is the height `node` had before
     * the insertion below it. Afterwards every cached height is correct, every node is
     * balanced, the parent links are exact, and the keys, frequencies and traversal are those
     * of before.
     */
    method RebalanceFrom(node: int, ghost h0: int)
      requires Walk(nodes, sub, root, node, h0) && Ordered(nodes, sub) && node != -1
      modifies this`nodes, this`root, this`sub, this`rebalanceOps
      ensures Shape(nodes, sub, root) && Ordered(nodes, sub) && AVL(nodes)
      ensures SameEntries(old(nodes), nodes)
      ensures old(rebalanceOps) <= rebalanceOps <= old(rebalanceOps) + |nodes|
      ensures Inorder(nodes, sub, root) == old(Inorder(nodes, sub, root))
    {
      var cur := node;
      ghost var g := h0;
      ghost var all := sub[root];
      assert SubAt(nodes, sub, cur);
      while cur != -1
        invariant Walk(nodes, sub, root, cur, g) && Ordered(nodes, sub)
        invariant SameEntries(old(nodes), nodes) && rebalanceOps >= old(rebalanceOps)
        invariant Inorder(nodes, sub, root) == old(Inorder(nodes, sub, root))
        invariant forall j :: j in all <==> 0 <= j < |nodes|
        invariant cur != -1 ==> rebalanceOps < old(rebalanceOps) + |sub[cur]|
        invariant cur == -1 ==> rebalanceOps <= old(rebalanceOps) + |all|
        decreases cur != -1, all - S(sub, cur), Tilt(nodes, cur)
      {
        ghost var sc := sub[cur];
        CardSubset(sc, all);
        cur, g := RebalanceStep(cur, g);
        if cur != -1 && sub[cur] != sc {
          CardGrows(sc, sub[cur], cur);
        }
      }
      CardRange(all, |nodes|);
    }
  
    /**
     * The climb of `_find_parent_for_insert_from_max`: from the maximum node, step to the
     * parent while the key is below the parent's key, counting each node stepped onto. The
     * nodes entered are the path from `start` up to `a`, all with keys above `key`, and the
     * climb stops at the root or below a parent whose key is at most `key`.
     */
    method ClimbFromMax(start: int, key: int, ghost seen0: set<int>) returns (a: int, ghost seen: set<int>)
      requires Shape(nodes, sub, root) && Ordered(nodes, sub) && Fingers(nodes, root, minNode, maxNode)
      requires root != -1 && start == maxNode && key < nodes[start].key && seen0 == {start}
      modifies this`searchOps
      ensures 0 <= a < |nodes| && maxNode in sub[a] && key < nodes[a].key
      ensures nodes[a].parent != -1 ==> key >= nodes[nodes[a].parent].key
      ensures seen == Between(sub, a, start) && forall v | v in seen :: key < nodes[v].key
      ensures a in seen && start in seen && seen <= {a} + S(sub, nodes[a].right)
      ensures searchOps == old(searchOps) + |seen| - 1
    {
      a := start;
      seen := seen0;
      ghost var all := sub[root];
      assert SubAt(nodes, sub, a);
      BetweenSelf(nodes, sub, a);
      while nodes[a].parent != -1 && key < nodes[nodes[a].parent].key
        invariant 0 <= a < |nodes| && maxNode in sub[a] && key < nodes[a].key
        invariant seen == Between(sub, a, start) && forall v | v in seen :: key < nodes[v].key
        invariant a in seen && start in seen && seen <= {a} + S(sub, nodes[a].right)
        invariant searchOps == old(searchOps) + |seen| - 1
        invariant forall j :: j in all <==> 0 <= j < |nodes|
        decreases all - sub[a]
      {
        ClimbStep(nodes, sub, root, minNode, maxNode, a);
        BetweenUp(nodes, sub, root, a, start);
        assert SubAt(nodes, sub, a);
        a := nodes[a].parent;
        searchOps := searchOps + 1;
        seen := seen + {a};
        assert SubAt(nodes, sub, a);
      }
    }

    /**
     * The descent of `_find_parent_for_insert_from_max` from where the climb stopped: a
     * binary-search descent that counts every node it enters except `a`, which the climb
     * already counted. The nodes entered are the path from `a` down to the node returned,
     * and none of them above it holds `key`.
     */
    method DescendFrom(a: int, key: int, ghost seen0: set<int>) returns (parent: int, direction: int, existing: int, ghost seen: set<int>)
      requires Shape(nodes, sub, root) && 0 <= a < |nodes| && key < nodes[a].key
      requires Bracketed(nodes, sub, a, key)
      requires a in seen0 && seen0 <= {a} + S(sub, nodes[a].right)
      modifies this`searchOps
      ensures searchOps == old(searchOps) + |seen| - |seen0|
      ensures existing != -1 ==> 0 <= existing < |nodes| && parent == existing && direction == 0 && nodes[existing].key == key
      ensures existing == -1 ==> Slot(nodes, sub, parent, direction, key)
      ensures Entered(nodes, sub, a, if existing != -1 then existing else parent, seen0, seen, key)
    {
      seen := seen0;
      assert SubAt(nodes, sub, a);
      var node := a;
      parent := -1;
      direction := 0;
      while node != -1
        invariant IsPtr(nodes, node)
        invariant node != -1 ==> Bracketed(nodes, sub, node, key)
        invariant node != a ==>
          && 0 <= parent < |nodes| && Bracketed(nodes, sub, parent, key)
          && (|| (direction == -1 && node == nodes[parent].left && key < nodes[parent].key)
              || (direction == 1 && node == nodes[parent].right && nodes[parent].key < key))
          && seen !! S(sub, node)
        invariant node == a ==> seen == seen0
        invariant node != a ==> Entered(nodes, sub, a, parent, seen0, seen, key) && nodes[parent].key != key
        invariant seen0 <= seen
        invariant searchOps == old(searchOps) + |seen| - |seen0|
        decreases S(sub, node)
      {
        assert SubAt(nodes, sub, node);
        if node != a {
          EnterNext(nodes, sub, root, a, parent, node, seen0, seen, key);
          searchOps := searchOps + 1;
          seen := seen + {node};
        } else {
          EnterFirst(nodes, sub, a, seen0, key);
        }
        parent := node;
        if key == nodes[node].key {
          return node, 0, node, seen;
        } else if key < nodes[node].key {
          direction := -1;
          if nodes[node].left != -1 {
            DescentStep(nodes, sub, root, node, key, true);
          }
          node := nodes[node].left;
        } else {
          direction := 1;
          if nodes[node].right != -1 {
            DescentStep(nodes, sub, root, node, key, false);
          }
          node := nodes[node].right;
        }
      }
      return parent, direction, -1, seen;
    }

    /**
     * `_find_parent_for_insert_from_max(start, key)`: from the maximum node, climb while the
     * key is below the parent's key, then descend as in a binary search tree. Returns the
     * node holding the key (as `existing`, also as `parent`, with direction 0), or the parent
     * and side (-1 left, +1 right) of the empty slot where the key belongs. `seen` is the set
     * of nodes the search entered and `anchor` the node where the climb stopped, as `FromMax`
     * describes; `searchOps` grows by the number of nodes in `seen`.
     */
    method FindParentForInsertFromMax(start: int, key: int) returns (parent: int, direction: int, existing: int, ghost anchor: int, ghost seen: set<int>)
      requires Shape(nodes, sub, root) && Ordered(nodes, sub) && Fingers(nodes, root, minNode, maxNode)
      requires root != -1 && start == maxNode
      modifies this`searchOps
      ensures FromMax(nodes, sub, start, key, parent, direction, existing, anchor, seen)
      ensures start in seen && searchOps == old(searchOps) + |seen|
      ensures existing != -1 ==> 0 <= existing < |nodes| && parent == existing && direction == 0 && nodes[existing].key == key
      ensures existing == -1 ==> Slot(nodes, sub, parent, direction, key)
    {
      searchOps := searchOps + 1;
      seen := {start};
      anchor := start;
      if key > nodes[start].key {
        FastPath(nodes, sub, root, minNode, maxNode, key);
        parent, direction, existing := start, 1, -1;
        return;
      }
      if key == nodes[start].key {
        parent, direction, existing := start, 0, start;
        return;
      }
      var a;
      a, seen := ClimbFromMax(start, key, seen);
      anchor := a;
      DescentStart(nodes, sub, root, minNode, maxNode, a, key);
      parent, direction, existing, seen := DescendFrom(a, key, seen);
      ClimbThenDescend(nodes, sub, start, key, parent, direction, existing, a, seen);
    }
  
    /** `_update_min_max_on_insert(n)`: node `n` becomes a finger where there is none or its key goes beyond it. */
    method UpdateMinMaxOnInsert(n: int)
      requires 0 <= n < |nodes| && IsPtr(nodes, minNode) && IsPtr(nodes, maxNode)
      modifies this`minNode, this`maxNode
      ensures minNode == if old(minNode) == -1 || nodes[n].key < nodes[old(minNode)].key then n else old(minNode)
      ensures maxNode == if old(maxNode) == -1 || nodes[n].key > nodes[old(maxNode)].key then n else old(maxNode)
    {
      if minNode == -1 || nodes[n].key < nodes[minNode].key {
        minNode := n;
      }
      if maxNode == -1 || nodes[n].key > nodes[maxNode].key {
        maxNode := n;
      }
    }

    /** Line 90 of `_insert_with_stats`: a key already stored gains one in frequency, and nothing else changes. */
    method BumpFrequency(e: int)
      requires Valid() && 0 <= e < |nodes|
      modifies this`nodes, this`inserted
      ensures Valid() && nodes == Bumped(old(nodes), e) && inserted == old(inserted) + [nodes[e].key]
    {
      BumpKeeps(nodes, sub, root, minNode, maxNode, e);
      inserted := inserted + [nodes[e].key];
      nodes := nodes[e := nodes[e].(value := nodes[e].value + 1)];
    }

    /**
     * Lines 93-100 of `_insert_with_stats`: a new node for the key is linked into the empty
     * slot the search found, the size grows by one and the fingers follow it. The tree is then
     * ready for the rebalancing walk from the parent, whose height before was `h0`.
     */
    method LinkNewNode(parent: int, direction: int, key: int) returns (n: int, ghost h0: int)
      requires Valid() && root != -1 && Slot(nodes, sub, parent, direction, key) && key != nodes[maxNode].key
      modifies this`nodes, this`sub, this`inserted, this`size, this`minNode, this`maxNode
      ensures nodes == Attached(old(nodes), parent, direction, key) && sub == AttachedSub(old(sub), parent)
      ensures Walk(nodes, sub, root, parent, h0) && Ordered(nodes, sub) && parent != -1
      ensures Fingers(nodes, root, minNode, maxNode) && size == |nodes| && Bag(nodes) == multiset(inserted)
      ensures inserted == old(inserted) + [key]
      ensures n == old(|nodes|) && |nodes| == n + 1 && nodes[n].key == key && size == old(size) + 1
      ensures minNode == (if key < old(nodes[minNode].key) then n else old(minNode))
      ensures maxNode == (if key > old(nodes[maxNode].key) then n else old(maxNode))
    {
      ghost var ns0, sub0 := nodes, sub;
      AttachOrdered(ns0, sub0, root, parent, direction, key);
      AttachBag(ns0, parent, direction, key);
      AttachWalk(ns0, sub0, root, parent, direction, key);
      h0 := ns0[parent].height;
      n := |nodes|;
      nodes := nodes + [Leaf(key, parent)];
      if direction < 0 {
        nodes := nodes[parent := nodes[parent].(left := n)];
      } else {
        nodes := nodes[parent := nodes[parent].(right := n)];
      }
      assert nodes == Attached(ns0, parent, direction, key);
      sub := AttachedSub(sub0, parent);
      inserted := inserted + [key];
      size := size + 1;
      ghost var mn0, mx0 := minNode, maxNode;
      UpdateMinMaxOnInsert(n);
      AttachFingers(ns0, nodes, root, root, mn0, mx0, key);
    }

    /**
     * Lines 93-103 of `_insert_with_stats`: the new node is linked in (`LinkNewNode`), then the
     * walk from its parent restores the AVL shape. Returns the new node.
     */
    method AttachNew(parent: int, direction: int, key: int) returns (n: int)
      requires Valid() && root != -1 && Slot(nodes, sub, parent, direction, key) && key != nodes[maxNode].key
      modifies this
      ensures Valid() && inserted == old(inserted) + [key]
      ensures SameEntries(Attached(old(nodes), parent, direction, key), nodes)
      ensures n == old(|nodes|) && |nodes| == n + 1 && nodes[n].key == key && nodes[n].value == 1 && size == old(size) + 1
      ensures minNode == (if key < old(nodes[minNode].key) then n else old(minNode))
      ensures maxNode == (if key > old(nodes[maxNode].key) then n else old(maxNode))
      ensures searchOps == old(searchOps) && old(rebalanceOps) <= rebalanceOps <= old(rebalanceOps) + |nodes|
    {
      ghost var h0;
      n, h0 := LinkNewNode(parent, direction, key);
      ghost var ns1, root1, mn1, mx1 := nodes, root, minNode, maxNode;
      RebalanceFrom(parent, h0);
      BagSameEntries(ns1, nodes);
      FingersSameEntries(ns1, nodes, root1, root, mn1, mx1);
    }

    /**
     * Lines 83-103 of `_insert_with_stats`, on a tree that is not empty: the search from the
     * maximum node enters the nodes `seen`, counted in `searchOps`, with the outcome `FromMax`
     * describes; a key it finds gains one in frequency and nothing else changes; otherwise a
     * new node is linked in (see `AttachNew`). Returns the node holding the key.
     */
    method InsertIntoTree(key: int) returns (n: int, ghost parent: int, ghost direction: int, ghost anchor: int, ghost seen: set<int>)
      requires Valid() && root != -1
      modifies this
      ensures Valid() && inserted == old(inserted) + [key]
      ensures FromMax(old(nodes), old(sub), old(maxNode), key, parent, direction, if n < old(|nodes|) then n else -1, anchor, seen)
      ensures searchOps == old(searchOps) + |seen| && old(maxNode) in seen
      ensures 0 <= n < |nodes| && nodes[n].key == key && n <= old(|nodes|)
      ensures n < old(|nodes|) ==>
        && nodes == Bumped(old(nodes), n) && sub == old(sub) && root == old(root)
        && minNode == old(minNode) && maxNode == old(maxNode) && size == old(size)
        && rebalanceOps == old(rebalanceOps)
      ensures n == old(|nodes|) ==>
        && 0 <= parent < old(|nodes|) && SameEntries(Attached(old(nodes), parent, direction, key), nodes)
        && |nodes| == old(|nodes|) + 1 && nodes[n].value == 1 && size == old(size) + 1
        && old(rebalanceOps) <= rebalanceOps <= old(rebalanceOps) + |nodes|
        && minNode == (if key < old(nodes[minNode].key) then n else old(minNode))
        && maxNode == (if key > old(nodes[maxNode].key) then n else old(maxNode))
    {
      var start := maxNode;
      var p, d, existing;
      p, d, existing, anchor, seen := FindParentForInsertFromMax(start, key);
      parent, direction := p, d;
      if existing != -1 {
        BumpFrequency(existing);
        n := existing;
        return;
      }
      n := AttachNew(p, d, key);
    }

    /**
     * `_insert_with_stats(key)`. Into an empty tree the key becomes the one node: root and
     * both fingers, frequency 1, and no search counted. Otherwise see `InsertIntoTree`: the
     * search counts the nodes it enters, exactly one when the key is at least the maximum,
     * and a new node is made exactly when no node the search entered holds the key. Returns
     * the node holding the key.
     */
    method InsertWithStats(key: int) returns (n: int, ghost parent: int, ghost direction: int, ghost anchor: int, ghost seen: set<int>)
      requires Valid()
      modifies this
      ensures Valid() && inserted == old(inserted) + [key]
      ensures 0 <= n < |nodes| && nodes[n].key == key && n <= old(|nodes|)
      ensures old(root) == -1 ==>
        && nodes == [Leaf(key, -1)] && n == 0 && root == 0 && minNode == 0 && maxNode == 0 && size == 1
        && searchOps == old(searchOps) && rebalanceOps == old(rebalanceOps)
      ensures old(root) != -1 ==>
        && FromMax(old(nodes), old(sub), old(maxNode), key, parent, direction, if n < old(|nodes|) then n else -1, anchor, seen)
        && searchOps == old(searchOps) + |seen| && old(maxNode) in seen
        && old(rebalanceOps) <= rebalanceOps <= old(rebalanceOps) + |nodes|
      ensures old(root) != -1 && key >= old(nodes[maxNode].key) ==> searchOps == old(searchOps) + 1
      ensures old(root) != -1 && key == old(nodes[maxNode].key) ==> n == old(maxNode)
      ensures old(root) != -1 && key > old(nodes[maxNode].key) ==>
        n == old(|nodes|) && maxNode == n && parent == old(maxNode) && direction == 1
      ensures n < old(|nodes|) ==>
        && nodes == Bumped(old(nodes), n) && sub == old(sub) && root == old(root)
        && minNode == old(minNode) && maxNode == old(maxNode) && size == old(size)
        && rebalanceOps == old(rebalanceOps)
      ensures n == old(|nodes|) ==>
        && |nodes| == old(|nodes|) + 1 && nodes[n].value == 1 && size == old(size) + 1
        && (old(root) != -1 ==>
             && 0 <= parent < old(|nodes|) && SameEntries(Attached(old(nodes), parent, direction, key), nodes)
             && minNode == (if key < old(nodes[minNode].key) then n else old(minNode))
             && maxNode == (if key > old(nodes[maxNode].key) then n else old(maxNode)))
    {
      if root == -1 {
        SingletonTree(key);
        nodes := [Leaf(key, -1)];
        root := 0;
        minNode := 0;
        maxNode := 0;
        size := 1;
        sub := [{0}];
        inserted := inserted + [key];
        n := 0;
        parent, direction, anchor, seen := -1, 0, -1, {};
        return;
      }
      n, parent, direction, anchor, seen := InsertIntoTree(key);
    }

    /** `_inorder_to_list(node, out)`: appends the in-order keys of the subtree at `node`, each as often as its frequency. */
    method InorderToList(node: int, out: seq<int>) returns (res: seq<int>)
      requires LinksInRange(nodes) && SubOK(nodes, sub) && IsPtr(nodes, node)
      ensures res == out + Inorder(nodes, sub, node)
      decreases S(sub, node)
    {
      if node == -1 {
        return out;
      }
      assert SubAt(nodes, sub, node);
      res := InorderToList(nodes[node].left, out);
      var freq := nodes[node].value;
      while freq > 0
        invariant 0 <= freq <= nodes[node].value
        invariant res == out + Inorder(nodes, sub, nodes[node].left) + Rep(nodes[node].key, nodes[node].value - freq)
      {
        res := res + [nodes[node].key];
        freq := freq - 1;
      }
      res := InorderToList(nodes[node].right, res);
    }

    /** Lines 56-62 of `insertion_sort`: an empty tree with both counters at zero. */
    method Reset()
      modifies this
      ensures Valid() && nodes == [] && root == -1 && minNode == -1 && maxNode == -1 && size == 0
      ensures searchOps == 0 && rebalanceOps == 0 && sub == [] && inserted == []
    {
      nodes := [];
      root := -1;
      minNode := -1;
      maxNode := -1;
      size := 0;
      searchOps := 0;
      rebalanceOps := 0;
      sub := [];
      inserted := [];
    }

    /** Lines 65-66 of `insertion_sort`: inserts the numbers of `arr` one by one into an empty tree. */
    method InsertAll(arr: seq<int>)
      requires Valid() && root == -1 && inserted == [] && searchOps == 0 && rebalanceOps == 0
      modifies this
      ensures Valid() && inserted == arr && rebalanceOps >= 0 && size <= |arr|
      ensures |arr| == 0 ==> root == -1 && searchOps == 0 && rebalanceOps == 0
      ensures |arr| > 0 ==> searchOps >= |arr| - 1
      ensures |arr| > 0 && StrictlyIncreasing(arr) ==> searchOps == |arr| - 1 && size == |arr|
      ensures |arr| > 0 && AllEqual(arr) ==> searchOps == |arr| - 1 && size == 1 && rebalanceOps == 0
    {
      for i := 0 to |arr|
        invariant Valid() && inserted == arr[..i] && rebalanceOps >= 0 && size <= i
        invariant i == 0 ==> root == -1 && searchOps == 0 && rebalanceOps == 0
        invariant i > 0 ==> root != -1 && searchOps >= i - 1
        invariant i > 0 && StrictlyIncreasing(arr) ==> searchOps == i - 1 && size == i && nodes[maxNode].key == arr[i - 1]
        invariant i > 0 && AllEqual(arr) ==> searchOps == i - 1 && size == 1 && nodes[maxNode].key == arr[0] && rebalanceOps == 0
      {
        ghost var rising := i > 0 && StrictlyIncreasing(arr);
        ghost var flat := i > 0 && AllEqual(arr);
        if rising { assert arr[i - 1] < arr[i]; }
        if flat { assert arr[i] == arr[0]; }
        var n;
        ghost var parent, direction, anchor, seen;
        n, parent, direction, anchor, seen := InsertWithStats(arr[i]);
        assert arr[..i + 1] == arr[..i] + [arr[i]];
      }
      assert arr[..|arr|] == arr;
    }

    /**
     * `insertion_sort(arr)`: resets the tree and both counters, inserts the numbers in order,
     * and returns the in-order scan with the two counters. The output is `arr` sorted (a
     * non-decreasing permutation of it). Every insertion but the first counts at least one
     * search step, so the search count is at least `|arr| - 1`; it is exactly that when `arr`
     * is strictly increasing (each key goes right of the maximum), and when all numbers are
     * equal (then one node holds them all).
     */
    method InsertionSort(arr: seq<int>) returns (out: seq<int>, rebalance: int, search: int)
      modifies this
      ensures Valid() && inserted == arr && out == Inorder(nodes, sub, root)
      ensures Sorted(out) && multiset(out) == multiset(arr)
      ensures rebalance == rebalanceOps && search == searchOps && rebalance >= 0 && size <= |arr|
      ensures |arr| == 0 ==> out == [] && rebalance == 0 && search == 0 && root == -1
      ensures |arr| > 0 ==> search >= |arr| - 1
      ensures |arr| > 0 && StrictlyIncreasing(arr) ==> search == |arr| - 1 && size == |arr|
      ensures |arr| > 0 && AllEqual(arr) ==> search == |arr| - 1 && size == 1 && rebalance == 0
    {
      Reset();
      InsertAll(arr);
      out := InorderToList(root, []);
      InorderSortsKeys(nodes, sub, root, inserted);
      return out, rebalanceOps, searchOps;
    }
  }
}
