# Binary search tree of `binary-hooks`, modelled in Dafny

The repository's one piece of real logic is an unbalanced binary search tree
(`BinarySearchTree`). It stores unique integer keys, each with an opaque
payload (`data`). Its operations are:

- `add`: an iterative descent that writes a new node into the first empty child slot. A duplicate key is ignored.
- `get` and `contains`: two separate iterative descents.
- `traverse`: a recursive in-order walk.
- `size`, `toArray` and `toString`: built on `traverse`.

This project models that class as pure functions over an inductive tree. It
proves the properties the class promises:

- the ordering invariant;
- key-set semantics of insertion;
- first-writer-wins for duplicate keys;
- lookup round trips;
- ascending traversal;
- the size law;
- the empty and non-empty states.

It also gives the `while` loops of `add`, `get` and `contains` as methods, proved equal to the recursive definitions.

Files:

- `tree.dfy`, module `Trees`: the node datatype `Tree<D> = Leaf | Node(left, value, data, right)`, plus `Keys`, `Count` and the ordering predicate `BST`. It also holds `FillsOneSlot`, a relation saying that a tree differs from another only by one newly filled empty slot. `Leaf` is the source's `null`, both as a child and as an empty root. A tree value *is* the `_root` field.
- `search_tree.dfy`, module `SearchTree`: `Add`, `Get`, `Contains`, `InOrder` (traverse), `Size`, `ToArray` and `ToString`, with their lemmas.
- `decimal.dfy`, module `Decimal`: how `toString` renders integer keys and comma lists, and the parsing that reads them back.
- `loops.dfy`, module `Loops`: the source's three `while` loops as methods.
- `replay.dfy`, module `Replay`: the tree built by calling `add` on a sequence of `(key, payload)` steps from the empty tree. It states the history-level laws and the two concrete insertion scenarios.

`get` returns the found node with the subtree it owns, or `Leaf` for `null`. This is what a caller holding the returned node reference observes at the time of the call; later `add` calls may link new children into that node in place.

## Model

| member | source | states |
|---|---|---|
| SearchTree.Add | src/hooks/UseBinary/binarySearchTree.ts:48-94 | The result always has a root. Its key set is the old key set plus `v`. It keeps the ordering invariant. It is the unchanged tree exactly when the descent meets `v`. Otherwise it differs from the old tree only by one empty slot (a null child or the null root) filled with a childless node `(v, d)`; every existing node keeps its place, key and payload. |
| SearchTree.Get | src/hooks/UseBinary/binarySearchTree.ts:96-110 | A non-null result holds key `v` and is a node of the tree. On an ordered tree the result is non-null exactly when `v` is stored. |
| SearchTree.Contains | src/hooks/UseBinary/binarySearchTree.ts:112-134 | True only when `v` is stored. On an ordered tree, true exactly when `v` is stored. |
| SearchTree.ContainsIffGet | src/hooks/UseBinary/binarySearchTree.ts:96-134 | The two descents agree on every tree: `contains(v)` holds exactly when `get(v)` is non-null. |
| SearchTree.LookupRoundTrip | src/hooks/UseBinary/binarySearchTree.ts:96-134 | On an ordered tree, a stored key is found by both lookups and `get` returns a node with that key. An absent key gives null and false. |
| SearchTree.DuplicateAddIsNoOp | src/hooks/UseBinary/binarySearchTree.ts:88-91 | Adding a stored key leaves the tree identical. `get` still returns the first payload, and `size` is unchanged. |
| SearchTree.FreshAddGrows | src/hooks/UseBinary/binarySearchTree.ts:64-92 | Adding an absent key fills exactly one empty slot and grows `size` by one. |
| SearchTree.GetAfterFreshAdd | src/hooks/UseBinary/binarySearchTree.ts:48-56 | After adding a key the descent does not find, `get` returns the new childless node with the given payload. |
| SearchTree.AddKeepsFoundNodes | src/hooks/UseBinary/binarySearchTree.ts:64-92 | A key that `get` finds before an `add` is still found afterwards, with the same payload. Nodes are never moved or rewritten. |
| SearchTree.NonEmptyIsAbsorbing | src/hooks/UseBinary/binarySearchTree.ts:59-60 | Every `add` leaves a root and a positive size. The tree never returns to empty. |
| SearchTree.InOrder | src/hooks/UseBinary/binarySearchTree.ts:158-181 | The number of visits equals the number of nodes, and every visited item is a node of the tree. |
| SearchTree.Size | src/hooks/UseBinary/binarySearchTree.ts:136-142 | The visit count is zero exactly for the empty tree. |
| SearchTree.ToArray | src/hooks/UseBinary/binarySearchTree.ts:144-152 | One key per visit, so the length equals `size()`. |
| SearchTree.ToArrayNode | src/hooks/UseBinary/binarySearchTree.ts:161-177 | The key list of a node is its left subtree's keys, then its own key, then its right subtree's keys. |
| SearchTree.ToArrayHoldsKeys | src/hooks/UseBinary/binarySearchTree.ts:144-152 | On every tree, `toArray()` contains exactly the stored keys. |
| SearchTree.ToArrayAscending | src/hooks/UseBinary/binarySearchTree.ts:144-181 | On an ordered tree, `toArray()` is strictly ascending and contains exactly the stored keys. |
| SearchTree.SizeCountsKeys | src/hooks/UseBinary/binarySearchTree.ts:136-152 | On an ordered tree, `size()` equals the length of `toArray()` and the number of distinct stored keys. |
| SearchTree.ToString | src/hooks/UseBinary/binarySearchTree.ts:154-156 | The output is the decimal numerals of `toArray()` joined by commas; it is empty exactly for the empty tree. Its partner `SearchTree.ToStringRoundTrip` proves that it can be read back into `toArray()`. |
| Decimal.NatToString | src/hooks/UseBinary/binarySearchTree.ts:154-156 | The numeral of a non-negative key is non-empty, all decimal digits, with no leading zero, as `Number.prototype.toString` writes integers. Its partner `Decimal.ParseNatToString` reads it back to the same number. |
| Decimal.ParseNatToString | src/hooks/UseBinary/binarySearchTree.ts:154-156 | Reading the numeral of a non-negative key gives the key back. |
| Decimal.Join | src/hooks/UseBinary/binarySearchTree.ts:154-156 | Comma-joining, as `Array.prototype.toString` does, gives the empty string only for no parts or one empty part; two or more parts always leave a comma. Its partner `Decimal.SplitJoin` splits the result back into the parts. |
| SearchTree.ToStringRoundTrip | src/hooks/UseBinary/binarySearchTree.ts:154-156 | Splitting `toString()` at the commas and reading each field as a decimal integer gives back `toArray()`. |
| SearchTree.EmptyTree | src/hooks/UseBinary/binarySearchTree.ts:42 | For the empty tree: `size` is 0, `toArray` is empty, `toString` is empty, `get` returns null and `contains` is false for every key. |
| Trees.FillsOneSlotGrows | src/hooks/UseBinary/binarySearchTree.ts:59-92 | Filling one empty slot adds exactly one node and exactly one key. |
| Trees.CountIsDistinctKeys | src/hooks/UseBinary/binarySearchTree.ts:24-27 | In an ordered tree each key occurs once, so the node count equals the number of distinct keys. |
| Decimal.IntToString | src/hooks/UseBinary/binarySearchTree.ts:154-156 | Every key renders as a non-empty field with no comma. |
| Decimal.ParseIntToString | src/hooks/UseBinary/binarySearchTree.ts:154-156 | Reading a rendered key gives the key back, negative keys included. |
| Decimal.SplitJoin | src/hooks/UseBinary/binarySearchTree.ts:154-156 | Splitting a comma-joined list of comma-free fields at the commas gives back the fields. |
| Loops.AddLoop | src/hooks/UseBinary/binarySearchTree.ts:48-94 | The source's `add` loop (root special case, descend, fill the empty child slot or stop on an equal key) computes `Add`. |
| Loops.GetLoop | src/hooks/UseBinary/binarySearchTree.ts:96-110 | The source's `get` loop computes `Get`. |
| Loops.ContainsLoop | src/hooks/UseBinary/binarySearchTree.ts:112-134 | The source's `contains` loop computes `Contains`. |
| Replay.Build | src/hooks/UseBinary/binarySearchTree.ts:48-94 | After any sequence of `add` calls from the empty tree, the tree is ordered and its keys are exactly the inserted keys. It is non-empty exactly when something was inserted. |
| Replay.FirstWriterWins | src/hooks/UseBinary/binarySearchTree.ts:88-91 | For the first step that inserts a key, `get` of that key returns a node with that key and that step's payload. Later steps with the same key do not change it. |
| Replay.AscendingUnique | src/hooks/UseBinary/binarySearchTree.ts:144-152 | A strictly ascending list is determined by its elements, so "ascending with the stored keys" fixes `toArray()`. |
| Replay.OrderingLaw | src/hooks/UseBinary/binarySearchTree.ts:144-181 | After any insertions, `toArray()` equals the strictly ascending list of the distinct inserted keys. |
| Replay.SizeIsDistinctInserted | src/hooks/UseBinary/binarySearchTree.ts:136-142 | After any insertions, `size()` is the number of distinct inserted keys. |
| Replay.MixedInsertionScenario | src/hooks/UseBinary/binarySearchTree.ts:48-152 | Inserting 5, 3, 8, 3, 1, 4 with payloads "a".."f" gives root 5, size 5 and `toArray` `[1,3,4,5,8]`. `get(3)` holds "b" and `get(9)` is null. |
| Replay.AscendingInsertionScenario | src/hooks/UseBinary/binarySearchTree.ts:64-92 | Inserting 1, 2, 3, 4 gives a chain of right children with `toArray` `[1,2,3,4]`. `get(1)` has no left child and its right child holds 2. |

## Left out

- The `parent` field of a node is not represented. The code creates every node with `parent: null` and never writes the field (binarySearchTree.ts:50-56). It is also typed as a number, not a node (binarySearchTree.ts:35).
- `src/hooks/UseBinary/UseBinary.tsx`, the React hook, is not part of this model. It only calls `add` and `get` and reads `_root`. `Replay.Build` stands for its `forEach` of `add` calls, without any React state.
- The `currentView` field is not modelled. It is UI state that no tree operation reads.
- The `root` getter is not modelled separately: it returns `_root`, and a tree value here is its root.
- `traverse` takes a callback. The model returns the visited nodes as a sequence instead, and `size` and `toArray` are computed from that sequence. The callback's `this` binding is not modelled.
- Object identity and aliasing are not modelled. `get` returns the node's value together with its subtree, not a heap reference. The in-place mutation in `add` becomes the rebuilding of the path in `Loops.AddLoop`.
- Keys are mathematical integers, not JavaScript numbers. Fractions, NaN, -0 and infinities are not modelled. So `toString`'s exponent notation for magnitudes of 1e21 and above is not modelled either.
- Stack exhaustion in `traverse` is not modelled. `traverse` recurses once per tree level (binarySearchTree.ts:161-177), while `add` is iterative (:64-92). Under sorted insertion the height reaches the number of keys, so in a JavaScript engine a long enough chain makes `size()`, `toArray()` and `toString()` throw `RangeError` (maximum call stack size exceeded). `SearchTree.InOrder`, `SearchTree.Size`, `SearchTree.ToArray` and `SearchTree.ToString` return a value for every tree; the call-stack limit and that exception are left out.
- Keys beyond 2^53 in magnitude are not modelled faithfully. JavaScript rounds them to the nearest double, so `add(2**53 + 1)` stores 2**53, while the model keeps every integer distinct.
- Concurrency is not modelled. The class is single-threaded and synchronous.
