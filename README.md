# Finger-search AVL tree with insertion sort

This project models `AVLFingerTree` from `src/AVLFingerTree.py` in Dafny and proves its
contracts. The tree is an AVL tree with parent links and two fingers, one to the node with
the least key and one to the node with the greatest key. Every insertion searches from the
maximum finger: it climbs towards the root while the key is below the parent's key, then
descends as in a binary search tree. A repeated key that the search finds gains one in its
node's frequency (`value`). Otherwise a new leaf is attached and the walk
`_rebalance_from` goes up to the root, recomputing heights and rotating. Two counters are
kept:

- `_search_ops` counts the nodes the search enters;
- `_rebalance_ops` counts the height changes the walk makes at nodes whose children's heights
  differ by less than two when the walk reaches them (none made inside a rotation).

`insertion_sort(arr)` resets the tree, inserts the numbers one by one, and returns the
in-order scan together with both counters.

The model keeps the source's imperative form. The class `FingerTree.AVLFingerTree` has the
source's fields. Its methods follow the source's statements, loops and branches, and they
modify those fields:

- `nodes: seq<Node>` is the pool of every `AVLNode`. A node is named by its index, and -1
  stands for `None`.
- `root`, `minNode`, `maxNode` and `size` are the source's fields of the same meaning.
- `searchOps` and `rebalanceOps` are the two counters.

Two ghost fields carry the proofs:

- `sub` gives the set of node ids in each node's subtree. It is the termination measure of
  every walk along links.
- `inserted` lists the keys inserted so far.

`Valid()` is the invariant every public operation keeps. It holds when:

- the pool is one tree whose parent links are the exact inverse of its child links, and
  only the root has no parent;
- keys are in search order. The order is non-strict on both sides, because the search's
  climb stops at an equal key, so a repeated key can end up on either side of an equal one;
- every cached height is right and every node is AVL-balanced;
- `minNode` holds a least key, and `maxNode` holds the greatest key, which no other node
  shares;
- `size` is the number of nodes;
- the nodes hold exactly the inserted keys, each as often as its frequency.

Modules:

- `Pool` defines the node datatype and the tree predicates.
- `TreeFacts` holds the facts about traversal, multisets and heights.
- `Search` holds the facts behind the finger search.
- `Rotations` and `RotationFacts` define the two rotations as functions on the pool and
  prove what they keep.
- `Rebalance` holds the invariant of the rebalancing walk and its steps.
- `Insertion` covers attaching a leaf and the duplicate path.
- `FingerTree` is the class.

Two consequences of the code are stated by the contracts:

- **Search count for strictly increasing input.** The first insertion into the empty tree
  counts no search (lines 78-84). Each later insertion of a strictly increasing input takes
  the fast path and counts one visit (lines 126-130). Inserting `[1,2,3,4,5]` therefore
  counts 4 visits, and `InsertionSort` proves `search == |arr| - 1` for every strictly
  increasing input.
- **Nodes with equal keys.** A key already present can get a second node, so `size` counts
  nodes, not distinct keys. The climb stops below a parent whose key is not above the key
  (line 137), and the descent (lines 146-172) only looks inside the subtree where the climb
  stopped. After inserting 1, 2 and 3, the root holds 2 and the maximum node holds 3.
  Inserting 2 then stops the climb at the node with 3 and ends at its empty left slot, so a
  fourth node is made. `Search.RepeatedKeyMissed` proves this outcome of the search, and
  `InsertWithStats` makes a new node exactly when the search finds no node with the key. The
  input `[2,3,2]` behaves the same way. For the same reason the search order is non-strict.
  An input of all-equal numbers gives one node.

## Model

| member | source | states |
|---|---|---|
| FingerTree.AVLFingerTree.constructor | src/AVLFingerTree.py:35-43 | a new tree is empty and valid, with both counters zero |
| FingerTree.AVLFingerTree.InsertionSort | src/AVLFingerTree.py:48-72 | resets all state; the output is the in-order scan, non-decreasing and a permutation of `arr`; the returned counters are the tree's; an empty input gives an empty output and zero counts; at least `\|arr\| - 1` search visits; exactly `\|arr\| - 1` with `\|arr\|` nodes for strictly increasing input; exactly `\|arr\| - 1` visits, one node and no rebalance count for all-equal input |
| FingerTree.AVLFingerTree.Reset | src/AVLFingerTree.py:56-62 | after the reset the tree is empty, valid, and both counters are zero |
| FingerTree.AVLFingerTree.InsertAll | src/AVLFingerTree.py:64-66 | inserting `arr` into an empty tree keeps it valid and stores exactly `arr`; search count at least `\|arr\| - 1`; exactly that with `\|arr\|` nodes for strictly increasing input; exactly that with one node and a zero rebalance count for all-equal input |
| FingerTree.AVLFingerTree.InsertWithStats | src/AVLFingerTree.py:77-104 | keeps `Valid` and adds the key once; into an empty tree the new node is root, min and max, size 1, frequency 1, no search counted; otherwise the search's outcome, its climb stop and the nodes it enters are those `Search.FromMax` describes for the old tree, the count grows by the number of nodes entered, the max node among them, and a new node is made exactly when the search found no node holding the key; exactly one visit when the key is at least the maximum; an equal-to-max key bumps the max node; a greater key becomes the new max node, and the search gives the old max node's right slot as its place (`parent` is the old max node, `direction` 1); the duplicate path changes only that node's frequency; a new node has frequency 1, and the pool's keys and frequencies are those of `Insertion.Attached` at the search's `parent` and `direction`, the slot `LinkNewNode` fills before the walk; size grows by one and the fingers move by the key comparison; the rebalance counter grows by at most the number of nodes |
| FingerTree.AVLFingerTree.InsertIntoTree | src/AVLFingerTree.py:86-104 | on a non-empty tree: keeps `Valid` and adds the key once; the search outcome and the nodes it enters are those `Search.FromMax` describes, counted in the search counter; a found key gains one in frequency and nothing else changes; otherwise a new node with frequency 1 is linked into the search's `parent` at its `direction` slot (keys and frequencies those of `Insertion.Attached`), the size grows by one, the fingers follow the key comparison and the rebalance counter grows by at most the number of nodes |
| FingerTree.AVLFingerTree.BumpFrequency | src/AVLFingerTree.py:89-91 | the found node's frequency grows by one, everything else stays, and `Valid` is kept with one more copy of the key |
| FingerTree.AVLFingerTree.LinkNewNode | src/AVLFingerTree.py:93-100 | the pool becomes exactly `Insertion.Attached(old pool, parent, direction, key)`: the new leaf, with frequency 1 and parent link `parent`, takes the next id and fills `parent`'s left slot when `direction < 0`, its right slot otherwise, and no other node changes (`Insertion.AttachedSlot`); size grows by one; fingers follow the key comparison; the stored keys gain the key; the tree is in the state the rebalancing walk expects at the parent |
| FingerTree.AVLFingerTree.AttachNew | src/AVLFingerTree.py:93-104 | after the attach and the walk from the parent `Valid` holds again; keys and frequencies are those of `Insertion.Attached` at `parent`'s `direction` slot, so the new node holds the key with frequency 1; the fingers are updated by the key comparison, no search is counted and the rebalance counter grows by at most the number of nodes |
| Insertion.Leaf | src/AVLFingerTree.py:22-28 | a new node holds the key with frequency 1, the given parent link, no children and height 1 |
| FingerTree.AVLFingerTree.UpdateMinMaxOnInsert | src/AVLFingerTree.py:106-110 | each finger moves to the node when it is unset or the node's key goes strictly beyond it |
| FingerTree.AVLFingerTree.FindParentForInsertFromMax | src/AVLFingerTree.py:115-172 | the result and the set of nodes entered satisfy `Search.FromMax`: a key above the maximum goes right of the max node and a key equal to it returns the max node, each after entering the max node alone; otherwise the nodes entered are the path from the max node up to where the climb stops, all with keys above the key, plus the path from there down to the node returned, none of which holds the key above that node; the count grows by the number of nodes entered; the result is a node holding the key or the empty child slot where the key keeps the search order |
| FingerTree.AVLFingerTree.ClimbFromMax | src/AVLFingerTree.py:135-139 | the nodes entered are exactly the path from the max node up to the stop node, all with keys above the key, and the count grows by one per node stepped onto; the climb stops at the root or below a parent whose key is at most the key |
| FingerTree.AVLFingerTree.DescendFrom | src/AVLFingerTree.py:141-172 | the nodes entered are exactly the path from the start node down to the node returned, none of which holds the key except a node returned as found; the count grows by one per node entered except the first, which the climb already counted; returns the node holding the key, or an empty slot where the key keeps the search order |
| Search.FoundIffEntered | src/AVLFingerTree.py:129-172 | the search returns a found node exactly when some node it entered holds the key |
| Search.RepeatedKeyMissed | src/AVLFingerTree.py:136-172 | in the valid tree with 2 at the root, 1 on its left and 3 on its right (the shape inserting 1, 2 and 3 gives), the search from the maximum for 2 enters only the node with 3 and returns its empty left slot, missing the 2 at the root |
| TreeFacts.CachedHeightIsTrue | src/AVLFingerTree.py:177-178 | in a valid tree the height `_h` reads (0 for None) is the true height of the subtree |
| TreeFacts.CachedHeightInSubtree | src/AVLFingerTree.py:177-178 | when every node of a subtree has a consistent cached height, the height `_h` reads at its top is its true height |
| FingerTree.AVLFingerTree.UpdateHeightConditionally | src/AVLFingerTree.py:180-198 | the height becomes one more than the taller child; the counter grows by exactly one iff the height changed and the balance factor is within (-2, 2), and by zero otherwise |
| FingerTree.AVLFingerTree.UpdateHeightNoCount | src/AVLFingerTree.py:201-207 | the height becomes one more than the taller child; no counter is touched |
| FingerTree.AVLFingerTree.BalanceFactor | src/AVLFingerTree.py:209-210 | once every node below the node has a consistent cached height, the result is the left child's true height minus the right child's |
| FingerTree.AVLFingerTree.RotateLeft | src/AVLFingerTree.py:215-243 | without a right child nothing changes; otherwise the right child takes `x`'s place, becoming root if `x` was; the tree keeps exact parent links, search order, keys, frequencies and the in-order sequence; no counter changes |
| FingerTree.AVLFingerTree.RotateRight | src/AVLFingerTree.py:245-273 | the mirror image of `RotateLeft` |
| Rebalance.RotationKeeps | src/AVLFingerTree.py:215-273 | a rotation keeps one tree with exact parent links and root updated, keys and frequencies, search order and the in-order sequence |
| RotationFacts.RewiredInorder | src/AVLFingerTree.py:222-238 | the rewiring of a rotation keeps the whole tree's in-order sequence |
| RotationFacts.RewiredShape | src/AVLFingerTree.py:226-238 | after the rewiring, parent links are the exact inverse of child links and the root is the lifted child when the pivot was the root |
| RotationFacts.RewiredOrdered | src/AVLFingerTree.py:222-238 | the rewiring keeps the search order |
| Rebalance.FixCur | src/AVLFingerTree.py:282 | the counted height update at the walk's node leaves its height correct and every other node but its parent consistent |
| Rebalance.StepUp | src/AVLFingerTree.py:297 | at a balanced node the walk moves to the parent with the invariant restored there |
| Rebalance.StepSingle | src/AVLFingerTree.py:287-295 | a single rotation at a node two taller on one side, whose heavy child does not lean the other way, leaves the lifted child balanced, at most one taller than the old height, and the walk invariant holds there |
| Rebalance.FirstRotation | src/AVLFingerTree.py:288-289 | the first rotation of a double one, at the heavy child leaning inwards, leaves that child balanced and the pivot with heights a second rotation fixes |
| Rebalance.SecondRotation | src/AVLFingerTree.py:290 | the second rotation of a double one leaves the lifted node balanced and the walk invariant holding there |
| FingerTree.AVLFingerTree.FixLeftHeavy | src/AVLFingerTree.py:287-290 | the `bf > 1` branch: keeps tree, order, keys and traversal; the node lifted to the pivot's place is balanced, takes over its subtree and continues the walk |
| FingerTree.AVLFingerTree.FixRightHeavy | src/AVLFingerTree.py:292-295 | the `bf < -1` branch, mirror image of `FixLeftHeavy` |
| FingerTree.AVLFingerTree.RebalanceStep | src/AVLFingerTree.py:281-297 | one pass of the loop keeps the walk invariant, the order, the keys and the traversal, and moves to the node's new parent; the counter grows by exactly one when the node's recomputed height differs from its cached one and the balance factor is within (-2, 2), and by zero otherwise |
| FingerTree.AVLFingerTree.RebalanceFrom | src/AVLFingerTree.py:278-297 | afterwards every cached height is correct, every node is AVL-balanced, parent links are exact with a parentless root, and the order, keys, frequencies and in-order sequence are those of before; the counter grows by at least zero and at most the number of nodes |
| Search.FastPath | src/AVLFingerTree.py:129-130 | a key above the maximum belongs in the max node's empty right slot |
| Search.ClimbStep | src/AVLFingerTree.py:137-138 | a node holding the max node in its subtree is its parent's right child |
| Search.DescentStart | src/AVLFingerTree.py:137-142 | where the climb stops, the key lies between the bounds every ancestor sets |
| Search.DescentStep | src/AVLFingerTree.py:160-167 | stepping to the child the key points to keeps the key within those bounds |
| Insertion.AttachOrdered | src/AVLFingerTree.py:93-97 | linking a leaf into the slot the search found keeps the tree with exact parent links and the search order |
| Insertion.AttachBag | src/AVLFingerTree.py:93-97 | the attach adds exactly one copy of the key to the stored keys |
| Insertion.AttachWalk | src/AVLFingerTree.py:93-103 | after the attach, the rebalancing walk's invariant holds at the parent |
| Insertion.AttachFingers | src/AVLFingerTree.py:99-110 | the fingers updated by the key comparison are again a least key and the unique greatest key |
| Insertion.FingersSameEntries | src/AVLFingerTree.py:103 | rebalancing, which keeps every key, keeps the fingers |
| Insertion.BumpKeeps | src/AVLFingerTree.py:89-91 | raising one frequency keeps shape, order, balance and fingers, and adds one copy of the key |
| Insertion.SingletonTree | src/AVLFingerTree.py:78-84 | the first node is a valid tree: root and both fingers, holding the key once |
| TreeFacts.InorderSortsKeys | src/AVLFingerTree.py:68-70 | the in-order scan of an ordered tree storing the keys `ins` is non-decreasing and a permutation of `ins` |
| FingerTree.AVLFingerTree.InorderToList | src/AVLFingerTree.py:303-312 | appends to `out` exactly the subtree's in-order sequence, each key repeated by its frequency |

## Left out

- `src/AVLTree.py` (the plain AVL tree) and `src/student_tester_AVLFingerTree.py` (the tester) are not part of this model.
- `AVLNode.__repr__` is printing only and is left out.
- The cost claims behind the counters (amortized bounds, comparison with a root-started search) are not stated. The model proves the rule each counter follows at each step, and totals only for the input shapes named below.
- Object identity and aliasing: nodes are indices into one pool, and a new node gets the next free index. Node objects that are shared or reachable from outside the tree are not modelled.
- Python integers are unbounded, as Dafny's are, so no width or overflow is modelled.
- Keys are modelled as integers. The source takes any Python value that compares, floats included; float keys, and NaN in particular (which compares false both ways and so breaks the search order the tree relies on), are not modelled.
- FingerTree.AVLFingerTree.InsertionSort: the search count is stated as a lower bound in general, and exactly only for strictly increasing and all-equal input; the rebalance count is stated only for all-equal input (zero). Neither has a closed form for every input, because both depend on the shape the earlier insertions built.
- FingerTree.AVLFingerTree.InsertAll: the same as for `InsertionSort`, whose counts it provides.
- FingerTree.AVLFingerTree.AttachNew: the amount the rebalancing walk adds to the rebalance counter is bounded by the number of nodes rather than given in closed form, as for `RebalanceFrom`.
- FingerTree.AVLFingerTree.InsertIntoTree: on the new-node path the rebalance counter is bounded the same way; on the duplicate path it is unchanged.
- FingerTree.AVLFingerTree.InsertWithStats: the same bound as `InsertIntoTree`; on an empty tree and on the duplicate path the rebalance counter is unchanged.
- FingerTree.AVLFingerTree.AttachNew, `InsertIntoTree` and `InsertWithStats` state the child links of the new leaf only through `LinkNewNode`, before the walk: the rotations of the walk may move the leaf, so after the call only keys and frequencies are tied to `Insertion.Attached`.
- FingerTree.AVLFingerTree.RebalanceFrom: the total the walk adds to the rebalance counter is bounded by the number of nodes rather than given in closed form; the exact amount each pass adds is stated by `RebalanceStep`.

