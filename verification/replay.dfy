/**
  A tree built by replaying a sequence of insertion steps, one `add` per step
  in the order given, starting from the empty tree -- what a caller of the
  class observes after any history of insertions.
 */
module Replay {
  import opened Trees
  import opened SearchTree

  /** One insertion: a key and the payload to store with it. */
  datatype Step<D> = Step(value: int, data: D)

  /** The keys that occur in `steps`, each once. */
  function InsertedKeys<D>(steps: seq<Step<D>>): set<int>
  {
    set i | 0 <= i < |steps| :: steps[i].value
  }

  /** The tree after `add(s.value, s.data)` for each step `s` in turn. */
  function Build<D>(steps: seq<Step<D>>): (t: Tree<D>)
    ensures BST(t)
    ensures Keys(t) == InsertedKeys(steps)
    ensures |steps| > 0 <==> t.Node?
  {
    if |steps| == 0 then Leaf
    else
      var last := steps[|steps| - 1];
      var t := Add(Build(steps[..|steps| - 1]), last.value, last.data);
      assert InsertedKeys(steps) == InsertedKeys(steps[..|steps| - 1]) + {last.value};
      t
  }

  /** First writer wins: a key is stored with the payload of its FIRST step;
      later steps with the same key are ignored. */
  lemma {:induction false} FirstWriterWins<D>(steps: seq<Step<D>>, i: nat)
    requires i < |steps|
    requires forall j :: 0 <= j < i ==> steps[j].value != steps[i].value
    ensures Get(Build(steps), steps[i].value).Node?
    ensures Get(Build(steps), steps[i].value).value == steps[i].value
    ensures Get(Build(steps), steps[i].value).data == steps[i].data
  {
    var n := |steps|;
    var prefix := steps[..n - 1];
    var k := steps[i].value;
    if i == n - 1 {
      forall j | 0 <= j < |prefix|
        ensures prefix[j].value != k
      {
        assert prefix[j] == steps[j];
      }
      assert k !in InsertedKeys(prefix);
      GetAfterFreshAdd(Build(prefix), k, steps[i].data);
    } else {
      assert prefix[i] == steps[i];
      FirstWriterWins(prefix, i);
      AddKeepsFoundNodes(Build(prefix), steps[n - 1].value, steps[n - 1].data, k);
    }
  }

  /** Two strictly ascending sequences with the same elements are equal. */
  lemma {:induction false} AscendingUnique(a: seq<int>, b: seq<int>)
    requires StrictlyAscending(a)
    requires StrictlyAscending(b)
    requires forall x :: x in a <==> x in b
    ensures a == b
  {
    assert a != [] ==> a[0] in a && a[0] in b;
    assert b != [] ==> b[0] in b && b[0] in a;
    if a != [] && b != [] {
      assert a[0] == b[0] by {
        assert a[0] in a && b[0] in b;
        var ja :| 0 <= ja < |a| && a[ja] == b[0];
        var jb :| 0 <= jb < |b| && b[jb] == a[0];
        assert a[0] <= a[ja];
        assert b[0] <= b[jb];
      }
      forall x
        ensures x in a[1..] <==> x in b[1..]
      {
        if x in a[1..] {
          var j :| 1 <= j < |a| && a[j] == x;
          assert x in b && x != b[0];
        }
        if x in b[1..] {
          var j :| 1 <= j < |b| && b[j] == x;
          assert x in a && x != a[0];
        }
      }
      AscendingUnique(a[1..], b[1..]);
      assert a == [a[0]] + a[1..];
      assert b == [b[0]] + b[1..];
    }
  }

  /** Ordering law: after any history of insertions, `toArray()` is THE
      strictly ascending list of the distinct inserted keys. */
  lemma OrderingLaw<D>(steps: seq<Step<D>>, sorted: seq<int>)
    requires StrictlyAscending(sorted)
    requires forall x :: x in sorted <==> x in InsertedKeys(steps)
    ensures ToArray(Build(steps)) == sorted
  {
    ToArrayOfListing(Build(steps), sorted);
  }

  /** Size consistency: `size()` is the number of distinct keys inserted. */
  lemma SizeIsDistinctInserted<D>(steps: seq<Step<D>>)
    ensures Size(Build(steps)) == |InsertedKeys(steps)|
  {
    SizeCountsKeys(Build(steps));
  }

  /** Ties `toArray()` of a concrete search tree to its listing. */
  lemma ToArrayOfListing<D>(t: Tree<D>, sorted: seq<int>)
    requires BST(t)
    requires StrictlyAscending(sorted)
    requires forall x :: x in sorted <==> x in Keys(t)
    ensures ToArray(t) == sorted
  {
    ToArrayAscending(t);
    AscendingUnique(ToArray(t), sorted);
  }

  /** Keys 5, 3, 8, 3, 1, 4 with payloads "a" .. "f": the second 3 is ignored. */
  lemma MixedInsertionScenario()
    ensures var t := Build([Step(5, "a"), Step(3, "b"), Step(8, "c"), Step(3, "d"), Step(1, "e"), Step(4, "f")]);
      && t.Node? && t.value == 5
      && Size(t) == 5
      && ToArray(t) == [1, 3, 4, 5, 8]
      && Get(t, 3).Node? && Get(t, 3).data == "b"
      && Get(t, 9) == Leaf
  {
    var t := Node(Node(Node(Leaf, 1, "e", Leaf), 3, "b", Node(Leaf, 4, "f", Leaf)), 5, "a", Node(Leaf, 8, "c", Leaf));
    BuildMixed();
    MixedTreeQueries(t);
  }

  lemma MixedTreeQueries(t: Tree<string>)
    requires t == Node(Node(Node(Leaf, 1, "e", Leaf), 3, "b", Node(Leaf, 4, "f", Leaf)), 5, "a", Node(Leaf, 8, "c", Leaf))
    ensures Size(t) == 5
    ensures ToArray(t) == [1, 3, 4, 5, 8]
    ensures Get(t, 3).Node? && Get(t, 3).data == "b"
    ensures Get(t, 9) == Leaf
  {
  }

  lemma BuildMixed()
    ensures Build([Step(5, "a"), Step(3, "b"), Step(8, "c"), Step(3, "d"), Step(1, "e"), Step(4, "f")])
         == Node(Node(Node(Leaf, 1, "e", Leaf), 3, "b", Node(Leaf, 4, "f", Leaf)), 5, "a", Node(Leaf, 8, "c", Leaf))
  {
    var steps := [Step(5, "a"), Step(3, "b"), Step(8, "c"), Step(3, "d"), Step(1, "e"), Step(4, "f")];
    assert steps[..1] == [Step(5, "a")];
    assert steps[..2] == steps[..1] + [Step(3, "b")];
    assert steps[..3] == steps[..2] + [Step(8, "c")];
    assert steps[..4] == steps[..3] + [Step(3, "d")];
    assert steps[..5] == steps[..4] + [Step(1, "e")];
    assert Build(steps[..1]) == Node(Leaf, 5, "a", Leaf);
    assert Build(steps[..2]) == Node(Node(Leaf, 3, "b", Leaf), 5, "a", Leaf);
    assert Build(steps[..3]) == Node(Node(Leaf, 3, "b", Leaf), 5, "a", Node(Leaf, 8, "c", Leaf));
    assert Build(steps[..4]) == Build(steps[..3]);
    assert Build(steps[..5]) == Node(Node(Node(Leaf, 1, "e", Leaf), 3, "b", Leaf), 5, "a", Node(Leaf, 8, "c", Leaf));
  }

  /** Keys inserted in ascending order degenerate into a chain of right
      children. */
  lemma AscendingInsertionScenario()
    ensures var t := Build([Step(1, 'a'), Step(2, 'b'), Step(3, 'c'), Step(4, 'd')]);
      && t == Node(Leaf, 1, 'a', Node(Leaf, 2, 'b', Node(Leaf, 3, 'c', Node(Leaf, 4, 'd', Leaf))))
      && ToArray(t) == [1, 2, 3, 4]
      && Get(t, 1).left == Leaf
      && Get(t, 1).right.value == 2
  {
    var steps := [Step(1, 'a'), Step(2, 'b'), Step(3, 'c'), Step(4, 'd')];
    var t := Node(Leaf, 1, 'a', Node(Leaf, 2, 'b', Node(Leaf, 3, 'c', Node(Leaf, 4, 'd', Leaf))));
    assert steps[..1] == [Step(1, 'a')];
    assert steps[..2] == steps[..1] + [Step(2, 'b')];
    assert steps[..3] == steps[..2] + [Step(3, 'c')];
    assert Build(steps[..1]) == Node(Leaf, 1, 'a', Leaf);
    assert Build(steps[..2]) == Node(Leaf, 1, 'a', Node(Leaf, 2, 'b', Leaf));
    assert Build(steps[..3]) == Node(Leaf, 1, 'a', Node(Leaf, 2, 'b', Node(Leaf, 3, 'c', Leaf)));
    assert Build(steps) == t;
    assert Keys(t) == {1, 2, 3, 4};
    ToArrayOfListing(t, [1, 2, 3, 4]);
  }
}
