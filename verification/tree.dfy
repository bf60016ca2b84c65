/**
  The node graph of the binary search tree, as an inductive value.

  `Leaf` stands for the absent (`null`) child slot, and for the absent root of
  an empty tree; `Node(left, value, data, right)` is one stored key with its
  opaque payload together with the two subtrees it exclusively owns.  A tree
  therefore *is* its root: the class field `_root` is modelled by a `Tree<D>`.

  The `parent` field of the source's node record is not represented: every node
  is created with `parent: null` and the field is never written afterwards, so
  it carries no information.
 */
module Trees {

  datatype Tree<D> = Leaf | Node(left: Tree<D>, value: int, data: D, right: Tree<D>)

  /** The keys stored anywhere in `t`. */
  function Keys<D>(t: Tree<D>): set<int>
  {
    match t
    case Leaf => {}
    case Node(l, v, _, r) => Keys(l) + {v} + Keys(r)
  }

  /** The number of nodes of `t`. */
  function Count<D>(t: Tree<D>): nat
  {
    match t
    case Leaf => 0
    case Node(l, _, _, r) => Count(l) + 1 + Count(r)
  }

  /** The ordering invariant: at every node, all keys of the left subtree are
      strictly smaller than the node's key, and all keys of the right subtree
      strictly larger. */
  predicate BST<D>(t: Tree<D>)
  {
    match t
    case Leaf => true
    case Node(l, v, _, r) =>
      && BST(l)
      && BST(r)
      && (forall k :: k in Keys(l) ==> k < v)
      && (forall k :: k in Keys(r) ==> v < k)
  }

  /** `s` is a node of `t` (with the subtree below it), or `t` itself. */
  ghost predicate IsSubtree<D>(s: Tree<D>, t: Tree<D>)
  {
    s == t || (t.Node? && (IsSubtree(s, t.left) || IsSubtree(s, t.right)))
  }

  /** `u` is `t` with exactly one empty slot -- a null child, or the null root --
      filled by the fresh childless node `Node(Leaf, v, d, Leaf)`.  Every node of
      `t` keeps its position, its key and its payload. */
  ghost predicate FillsOneSlot<D>(t: Tree<D>, u: Tree<D>, v: int, d: D)
  {
    match t
    case Leaf => u == Node(Leaf, v, d, Leaf)
    case Node(l, k, e, r) =>
      && u.Node?
      && u.value == k
      && u.data == e
      && ((FillsOneSlot(l, u.left, v, d) && u.right == r)
          || (u.left == l && FillsOneSlot(r, u.right, v, d)))
  }

  /** Filling one slot adds exactly one node and exactly the key `v`. */
  lemma {:induction false} FillsOneSlotGrows<D>(t: Tree<D>, u: Tree<D>, v: int, d: D)
    requires FillsOneSlot(t, u, v, d)
    ensures Count(u) == Count(t) + 1
    ensures Keys(u) == Keys(t) + {v}
  {
    match t
    case Leaf =>
    case Node(l, k, e, r) =>
      if FillsOneSlot(l, u.left, v, d) && u.right == r {
        FillsOneSlotGrows(l, u.left, v, d);
      } else {
        FillsOneSlotGrows(r, u.right, v, d);
      }
  }

  /** In a search tree keys are unique, so the node count is the number of
      distinct keys. */
  lemma {:induction false} CountIsDistinctKeys<D>(t: Tree<D>)
    requires BST(t)
    ensures Count(t) == |Keys(t)|
  {
    match t
    case Leaf =>
    case Node(l, v, _, r) =>
      CountIsDistinctKeys(l);
      CountIsDistinctKeys(r);
      forall k | k in Keys(r)
        ensures k !in Keys(l) + {v}
      {
        assert v < k;
      }
      assert (Keys(l) + {v}) !! Keys(r);
  }
}
