/**
  The `while` loops of `add`, `get` and `contains`, step for step, proved to
  compute what the recursive definitions in `SearchTree` compute.

  The source links the new node into the existing object graph in place.  A
  value cannot be updated in place, so the loop of `add` records the path it
  descends -- for each node passed, the direction taken and the parts of the
  node it left behind -- and, once it finds the empty slot, rebuilds the nodes
  along that path around the new node.  No node off the path is touched.
 */
module Loops {
  import opened Trees
  import opened SearchTree

  /** One step of a descent: which child the walk went to, and what the node
      it left holds apart from that child. */
  datatype Frame<D> =
    | WentLeft(value: int, data: D, right: Tree<D>)
    | WentRight(left: Tree<D>, value: int, data: D)

  /** The node a frame describes, with `child` in the slot the walk entered. */
  function Wrap<D>(f: Frame<D>, child: Tree<D>): (n: Tree<D>)
    ensures n.Node? && n.value == f.value && n.data == f.data
  {
    match f
    case WentLeft(v, d, r) => Node(child, v, d, r)
    case WentRight(l, v, d) => Node(l, v, d, child)
  }

  /** Puts `t` back at the end of the descent `path` (whose first frame is the
      root), giving the whole tree. */
  function Plug<D>(path: seq<Frame<D>>, t: Tree<D>): Tree<D>
  {
    if |path| == 0 then t else Plug(path[..|path| - 1], Wrap(path[|path| - 1], t))
  }

  /** `add(value, data)` as the source's loop: the empty tree gets the new
      node as its root; otherwise walk down until an equal key (stop, change
      nothing) or an empty child slot on the side the key belongs (put the new
      node there). */
  method AddLoop<D>(t: Tree<D>, v: int, d: D) returns (r: Tree<D>)
    ensures r == Add(t, v, d)
  {
    var node := Node(Leaf, v, d, Leaf);
    if t.Leaf? {
      return node;
    }
    var path: seq<Frame<D>> := [];
    var current := t;
    while true
      invariant current.Node?
      invariant Plug(path, current) == t
      invariant Plug(path, Add(current, v, d)) == Add(t, v, d)
      decreases current
    {
      if v < current.value {
        var f := WentLeft(current.value, current.data, current.right);
        if current.left.Leaf? {
          return Plug(path, Wrap(f, node));
        }
        path, current := path + [f], current.left;
      } else if v > current.value {
        var f := WentRight(current.left, current.value, current.data);
        if current.right.Leaf? {
          return Plug(path, Wrap(f, node));
        }
        path, current := path + [f], current.right;
      } else {
        return t;
      }
    }
  }

  /** `get(value)` as the source's loop. */
  method GetLoop<D>(t: Tree<D>, v: int) returns (r: Tree<D>)
    ensures r == Get(t, v)
  {
    var found := false;
    var current := t;
    while !found && current.Node?
      invariant Get(current, v) == Get(t, v)
      invariant found ==> current.Node? && current.value == v
      decreases current, !found
    {
      if v < current.value {
        current := current.left;
      } else if v > current.value {
        current := current.right;
      } else {
        found := true;
      }
    }
    return current;
  }

  /** `contains(value)` as the source's loop. */
  method ContainsLoop<D>(t: Tree<D>, v: int) returns (found: bool)
    ensures found == Contains(t, v)
  {
    found := false;
    var current := t;
    while !found && current.Node?
      invariant Contains(current, v) == Contains(t, v)
      invariant found ==> current.Node? && current.value == v
      decreases current, !found
    {
      if v < current.value {
        current := current.left;
      } else if v > current.value {
        current := current.right;
      } else {
        found := true;
      }
    }
  }
}
