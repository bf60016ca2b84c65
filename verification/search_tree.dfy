/**
  The operations of the `BinarySearchTree` class -- `add`, `get`, `contains`,
  `traverse`, `size`, `toArray` and `toString` -- as pure functions of the root,
  with the properties the class promises its callers.

  Keys are mathematical integers.  The source's keys are JavaScript numbers,
  which coincide with them only on the integers a double represents exactly
  (every integer of magnitude at most 2^53).
 */
module SearchTree {
  import opened Trees
  import Decimal

  /** `add(value, data)`: descend from the root, going left on a smaller key and
      right on a larger one, and write a fresh childless node into the first
      empty slot reached; an equal key ends the descent and leaves the tree as
      it was.  An empty tree gets the new node as its root. */
  function Add<D>(t: Tree<D>, v: int, d: D): (r: Tree<D>)
    ensures r.Node?
    ensures Keys(r) == Keys(t) + {v}
    ensures BST(t) ==> BST(r)
    ensures Contains(t, v) ==> r == t
    ensures !Contains(t, v) ==> FillsOneSlot(t, r, v, d)
  {
    match t
    case Leaf => Node(Leaf, v, d, Leaf)
    case Node(l, k, e, rt) =>
      if v < k then Node(Add(l, v, d), k, e, rt)
      else if v > k then Node(l, k, e, Add(rt, v, d))
      else t
  }

  /** `get(value)`: the same descent, read-only; the result is the node holding
      `v` (with the subtree it owns), or `Leaf` for the source's `null`. */
  function Get<D>(t: Tree<D>, v: int): (r: Tree<D>)
    ensures r.Node? ==> r.value == v && IsSubtree(r, t)
    ensures BST(t) ==> (r.Node? <==> v in Keys(t))
  {
    match t
    case Leaf => Leaf
    case Node(l, k, _, rt) =>
      if v < k then Get(l, v)
      else if v > k then Get(rt, v)
      else t
  }

  /** `contains(value)`: a second, separate copy of the descent of `get`, which
      reports only whether it stopped on a matching node. */
  function Contains<D>(t: Tree<D>, v: int): (b: bool)
    ensures b ==> v in Keys(t)
    ensures BST(t) ==> (b <==> v in Keys(t))
  {
    match t
    case Leaf => false
    case Node(l, k, _, rt) =>
      if v < k then Contains(l, v)
      else if v > k then Contains(rt, v)
      else true
  }

  /** `traverse(process)`: the nodes handed to `process`, in the order the
      in-order walk visits them -- left subtree, the node, right subtree. */
  function InOrder<D>(t: Tree<D>): (s: seq<Tree<D>>)
    ensures |s| == Count(t)
    ensures forall i :: 0 <= i < |s| ==> s[i].Node? && IsSubtree(s[i], t)
  {
    match t
    case Leaf => []
    case Node(l, _, _, r) => InOrder(l) + [t] + InOrder(r)
  }

  /** `size()`: the number of times `traverse` calls its callback. */
  function Size<D>(t: Tree<D>): (n: nat)
    ensures n == 0 <==> t.Leaf?
  {
    |InOrder(t)|
  }

  /** `toArray()`: the key of each visited node, in visiting order. */
  function ToArray<D>(t: Tree<D>): (a: seq<int>)
    ensures |a| == Size(t)
  {
    var visits := InOrder(t);
    seq(|visits|, i requires 0 <= i < |visits| => visits[i].value)
  }

  /** `toString()`: the keys of `toArray()` rendered in decimal and joined by
      commas, as `Array.prototype.toString` does for integers. */
  function ToString<D>(t: Tree<D>): (s: string)
    ensures s == "" <==> t.Leaf?
  {
    Decimal.Join(Decimal.RenderAll(ToArray(t)))
  }

  /** Reads back the display string of a tree. */
  function ParseKeys(s: string): seq<int>
  {
    if s == "" then [] else Decimal.ParseAll(Decimal.Split(s))
  }

  ghost predicate StrictlyAscending(a: seq<int>)
  {
    forall i, j :: 0 <= i < j < |a| ==> a[i] < a[j]
  }

  // ---------------------------------------------------------------------------
  // Lookup

  /** `contains` and `get` perform the same descent: `contains(v)` holds
      exactly when `get(v)` is not null -- on every tree, ordered or not. */
  lemma {:induction false} ContainsIffGet<D>(t: Tree<D>, v: int)
    ensures Contains(t, v) <==> Get(t, v).Node?
  {
    match t
    case Leaf =>
    case Node(l, k, _, r) =>
      if v < k {
        ContainsIffGet(l, v);
      } else if v > k {
        ContainsIffGet(r, v);
      }
  }

  /** Round-trip lookup on a search tree: a stored key is found, with its own
      key; an absent key yields null and `contains` is false. */
  lemma LookupRoundTrip<D>(t: Tree<D>, v: int)
    requires BST(t)
    ensures v in Keys(t) ==> Contains(t, v) && Get(t, v).Node? && Get(t, v).value == v
    ensures v !in Keys(t) ==> !Contains(t, v) && Get(t, v) == Leaf
  {
  }

  // ---------------------------------------------------------------------------
  // Insertion

  /** A key that the descent finds is left alone: adding it again changes
      nothing, so its first payload is kept and the size is unchanged. */
  lemma DuplicateAddIsNoOp<D>(t: Tree<D>, v: int, d: D)
    requires BST(t)
    requires v in Keys(t)
    ensures Add(t, v, d) == t
    ensures Get(Add(t, v, d), v).data == Get(t, v).data
    ensures Size(Add(t, v, d)) == Size(t)
  {
  }

  /** Adding a key the tree does not hold inserts exactly one node, so the size
      grows by one. */
  lemma {:induction false} FreshAddGrows<D>(t: Tree<D>, v: int, d: D)
    requires BST(t)
    requires v !in Keys(t)
    ensures FillsOneSlot(t, Add(t, v, d), v, d)
    ensures Size(Add(t, v, d)) == Size(t) + 1
  {
    FillsOneSlotGrows(t, Add(t, v, d), v, d);
  }

  /** After a fresh insertion, `get` finds the new node, childless and holding
      the payload just given. */
  lemma {:induction false} GetAfterFreshAdd<D>(t: Tree<D>, v: int, d: D)
    requires !Contains(t, v)
    ensures Get(Add(t, v, d), v) == Node(Leaf, v, d, Leaf)
  {
    match t
    case Leaf =>
    case Node(l, k, _, r) =>
      if v < k {
        GetAfterFreshAdd(l, v, d);
      } else {
        GetAfterFreshAdd(r, v, d);
      }
  }

  /** Insertion never moves or rewrites a node: a key `get` finds before an
      `add` it still finds afterwards, with the same payload. */
  lemma {:induction false} AddKeepsFoundNodes<D>(t: Tree<D>, v: int, d: D, k: int)
    requires Get(t, k).Node?
    ensures Get(Add(t, v, d), k).Node?
    ensures Get(Add(t, v, d), k).value == k
    ensures Get(Add(t, v, d), k).data == Get(t, k).data
  {
    match t
    case Node(l, key, _, r) =>
      if k < key {
        if v < key {
          AddKeepsFoundNodes(l, v, d, k);
        }
      } else if k > key {
        if v > key {
          AddKeepsFoundNodes(r, v, d, k);
        }
      }
  }

  /** The tree never returns to empty: every `add` leaves a root. */
  lemma NonEmptyIsAbsorbing<D>(t: Tree<D>, v: int, d: D)
    ensures Add(t, v, d).Node?
    ensures Size(Add(t, v, d)) > 0
  {
  }

  // ---------------------------------------------------------------------------
  // Traversal and derived queries

  /** The in-order visits of a node split as visits of the left subtree, the
      node, and the visits of the right subtree -- for the keys as well. */
  lemma ToArrayNode<D>(l: Tree<D>, v: int, d: D, r: Tree<D>)
    ensures ToArray(Node(l, v, d, r)) == ToArray(l) + [v] + ToArray(r)
  {
  }

  /** `toArray()` lists exactly the stored keys, in any tree. */
  lemma {:induction false} ToArrayHoldsKeys<D>(t: Tree<D>)
    ensures forall k :: k in ToArray(t) <==> k in Keys(t)
  {
    match t
    case Leaf =>
    case Node(l, v, d, r) =>
      ToArrayHoldsKeys(l);
      ToArrayHoldsKeys(r);
      ToArrayNode(l, v, d, r);
  }

  /** Ordering law: on a search tree the in-order walk meets the keys in
      strictly ascending order, and meets every key. */
  lemma {:induction false} ToArrayAscending<D>(t: Tree<D>)
    requires BST(t)
    ensures StrictlyAscending(ToArray(t))
    ensures forall k :: k in ToArray(t) <==> k in Keys(t)
  {
    ToArrayHoldsKeys(t);
    match t
    case Leaf =>
    case Node(l, v, d, r) =>
      ToArrayAscending(l);
      ToArrayAscending(r);
      ToArrayNode(l, v, d, r);
      var a := ToArray(t);
      var al, ar := ToArray(l), ToArray(r);
      forall i, j | 0 <= i < j < |a|
        ensures a[i] < a[j]
      {
        if j < |al| {
        } else if i < |al| {
          assert al[i] in Keys(l);
          if j > |al| {
            assert a[j] == ar[j - |al| - 1];
            assert ar[j - |al| - 1] in Keys(r);
          }
        } else if i == |al| {
          assert a[j] == ar[j - |al| - 1];
          assert ar[j - |al| - 1] in Keys(r);
        } else {
          assert a[i] == ar[i - |al| - 1];
          assert a[j] == ar[j - |al| - 1];
        }
      }
  }

  /** `size()` is the length of `toArray()`, and on a search tree the number of
      distinct keys. */
  lemma SizeCountsKeys<D>(t: Tree<D>)
    requires BST(t)
    ensures Size(t) == |ToArray(t)|
    ensures Size(t) == |Keys(t)|
  {
    CountIsDistinctKeys(t);
  }

  /** `toString()` loses nothing: reading its output back gives `toArray()`. */
  lemma ToStringRoundTrip<D>(t: Tree<D>)
    ensures ParseKeys(ToString(t)) == ToArray(t)
  {
    var a := ToArray(t);
    var parts := Decimal.RenderAll(a);
    if a == [] {
      assert ToString(t) == "";
    } else {
      Decimal.SplitJoin(parts);
      Decimal.ParseRenderAll(a);
    }
  }

  /** The empty tree: no root, nothing visited, every lookup misses. */
  lemma EmptyTree<D>(v: int)
    ensures Size<D>(Leaf) == 0
    ensures ToArray<D>(Leaf) == []
    ensures ToString<D>(Leaf) == ""
    ensures Get<D>(Leaf, v) == Leaf
    ensures !Contains<D>(Leaf, v)
  {
  }
}
