# Copy-on-write trie

A Dafny model of the persistent trie in `src/primer/trie.cpp` (the primer of the
BusTub storage engine). The trie maps keys, which are strings of characters, to
typed values. `Put` and `Remove` never modify a node; each returns a new trie.
The new trie re-creates only the nodes on the path to the key and shares every
other subtree with the old version. `Get<T>` only reads.

The model is split into these modules:

- `Wrappers` (`wrappers.dfy`): the `Option` type, used for null pointers and absent results.
- `TrieNodes` (`trie_nodes.dfy`): nodes, payloads and the trie handle. Nodes are
  immutable values, `Node(children: map<char, Node>, value: Option<Payload>)`.
  A node with `Some` payload is a `TrieNodeWithValue`; a `TrieNode` has `None`.
  The handle is `Trie(root: Option<Node>)`, and `None` is the null root.
  - The payload is a tagged union over the types the trie is instantiated with:
    `uint32_t`, `uint64_t`, `std::string`, `std::unique_ptr<uint32_t>` and
    `MoveBlocked`. A failed `dynamic_cast` becomes a tag mismatch.
  - `Descend` follows a key. `ValueAt` and `Find` are the lookups.
  - `Contents` is the abstract view of a trie: a `map<Key, Payload>`.
  - `NoDangling` / `WellFormed` state the invariant that no node is both
    valueless and childless.
- `TrieGet` (`trie_get.dfy`): `Get<T>` as a method with the cursor loop of the source.
- `TrieSpine` (`trie_spine.dfy`): the descent that `Put` and `Remove` share. It
  pushes each visited node onto the spine (the stack of the source).
- `TriePut` (`trie_put.dfy`): `Put` as a method with the stack and the two
  bottom-up loops. It is proved equal to the recursive reference function
  `PutNode`, and the lemmas are stated about `PutNode`.
- `TrieRemove` (`trie_remove.dfy`): `Remove` as a method with the stack and the
  bottom-up loop, including the `flag`. It is proved equal to the recursive
  reference function `RemoveNode`, and the lemmas are stated about `RemoveNode`.
- `TrieDebug` (`trie_debug.dfy`): the put sequence of the debugger test, plus
  two small remove scenarios.

`Remove` does not check that the node at the end of the key holds a value. It
returns early only when the path breaks (`trie.cpp:95`). Otherwise it demotes the
terminal node and rebuilds the path, even when that node was already a plain
node. Nodes are values in this model, so for a well-formed trie the rebuilt trie
is the input trie itself (`RemoveAbsent`).

## Model

| member | source | states |
|---|---|---|
| `TrieGet.Get` | src/primer/trie.cpp:11-25 | The cursor loop over the key returns exactly `Find`: the payload when every edge exists, the last node is a value node and the type matches, otherwise nothing. |
| `TrieGet.GetAbsentCases` | src/primer/trie.cpp:12-23 | Get finds nothing if and only if one of four cases holds: the root is null, some edge `key[i]` is missing after the first `i` edges exist, the final node is a plain node, or the payload has another type. |
| `TrieGet.GetEmptyKeyReadsRoot` | src/primer/trie.cpp:12-24 | The empty key reads the root's own payload. |
| `TrieSpine.WalkSpine` | src/primer/trie.cpp:33-43 | The descent loop, which is the same in `Put` and `Remove` (lines 81-94). Spine entry `j` is the existing node at `key[..j]`. The spine is no longer than the key. The cursor is the node at the key, or null if the path breaks. If the walk reaches the end, the spine holds exactly one node per key character. |
| `TriePut.Put` | src/primer/trie.cpp:28-74 | Descent, new value node, synthesized suffix nodes and bottom-up clones of the spine together build exactly the reference trie `PutTrie`. The returned root is never null. |
| `TriePut.PutReads` | src/primer/trie.cpp:46-69 | After a put, `key` reads the new payload and every other key reads what it read before. This includes the keys below `key`, which the new value node inherits. |
| `TriePut.PutContents` | src/primer/trie.cpp:28-74 | The abstract view after `Put(k, v)` is the old view updated at `k` to `v`. |
| `TriePut.PutThenGet` | src/primer/trie.cpp:28-74 | Round trip: `Get` with the payload's type returns the payload just put. `Get` with another type returns nothing. Every other key returns the old result. |
| `TriePut.PutKeepsNoDangling` | src/primer/trie.cpp:47-60 | Putting into a trie without valueless childless nodes yields such a trie. |
| `TriePut.PutSharesOffPath` | src/primer/trie.cpp:61-69 | Every node at a position that is not a prefix of the key is the old trie's node at that position, shared unchanged. |
| `TriePut.PutPathNode` | src/primer/trie.cpp:54-69 | The new trie's node at prefix `key[..i]` is the rebuilt node for the old node at that prefix. |
| `TriePut.PutRebuildsPath` | src/primer/trie.cpp:47-69 | One new node exists per prefix of the key, one more than the key length in all. Above the end of the key, each is a copy of the old node (or of an empty plain node where there was none) with only edge `key[i]` redirected. At the end, the value node keeps the old node's children. |
| `TriePut.PutIdempotent` | src/primer/trie.cpp:28-74 | Putting the same payload at the same key twice builds the same trie as putting it once. |
| `TrieRemove.Remove` | src/primer/trie.cpp:76-121 | The method, including the early return on a broken path, the demotion of the terminal node, and the `flag`-guarded pruning of valueless single-child ancestors, builds exactly the reference trie `RemoveTrie`. The pops never underflow. |
| `TrieRemove.RemoveReads` | src/primer/trie.cpp:97-118 | After a removal, `key` reads nothing and every other key reads what it read before. |
| `TrieRemove.RemoveContents` | src/primer/trie.cpp:76-121 | The abstract view after `Remove(k)` is the old view without `k`. |
| `TrieRemove.RemoveThenGet` | src/primer/trie.cpp:95-120 | Delete then get: `Get` of the removed key finds nothing, for every type. Every other key returns the old result. |
| `TrieRemove.RemoveNodeKeepsNoDangling` | src/primer/trie.cpp:98-118 | Removal from a node without valueless childless descendants produces no valueless childless node. |
| `TrieRemove.RemoveKeepsWellFormed` | src/primer/trie.cpp:95-120 | Removing from a well-formed trie gives a well-formed trie. |
| `TrieRemove.RemoveLastKey` | src/primer/trie.cpp:102-120 | Removing the only key of a well-formed trie yields the empty trie (null root), not a chain of empty nodes. |
| `TrieRemove.RemoveNodeAbsent` | src/primer/trie.cpp:97-118 | If the key ends on a plain node of a well-formed trie, the demotion and the rebuilt path reproduce the original node. |
| `TrieRemove.RemoveAbsent` | src/primer/trie.cpp:95-120 | Removing a key that holds no payload from a well-formed trie returns the input trie, whether the path breaks or ends on a plain node. |
| `TrieRemove.RemoveSharesOffPath` | src/primer/trie.cpp:113-118 | Every position that is not a prefix of the key holds the old trie's node at that position: off-path nodes all survive and are shared unchanged, and a position empty before stays empty. |
| `TrieRemove.RemovePathNode` | src/primer/trie.cpp:103-118 | The new trie's node at prefix `key[..i]` is the rebuilt node for the old node at that prefix, and it is missing exactly when removing the rest of the key prunes that old node. |
| `TrieRemove.RemoveRebuildsPath` | src/primer/trie.cpp:97-118 | A surviving node on the path keeps the old node's payload and every edge except `key[i]`. At the end of the key it is the old node's children without the payload. |
| `TrieDebug.DebugScenario` | test/primer/trie_debug_test.cpp:23-58 | After the ten puts on an empty trie, the root has 7 children, the node under `'9'` has 2, and `"93"` reads 30. |
| `TrieDebug.TrieDebugger` | test/primer/trie_debug_test.cpp:23-33 | The debugger test written with the `Put` and `Get` methods yields 7, 2 and 30. |
| `TrieDebug.PutPutPutRemove` | src/primer/trie.cpp:97-118 | After the puts `"65"`, `"61"` and `"2"`, the root has the edges `'6'` and `'2'`, `"65"` reads 25 and `"6"` reads nothing. After removing `"65"`, `"61"` still reads 65 and the node under `'6'` has the single edge `'1'`. |
| `TrieDebug.RemoveCollapsesChain` | src/primer/trie.cpp:102-112 | Removing the only key `"abc"` prunes the whole chain, so the trie becomes empty. |

## Left out

- `src/primer/my_trie.cpp` is not part of this model. It is an older, superseded implementation of the same class.
- Memory management is not modelled: `shared_ptr` reference counts, node lifetime, `const_cast` and pointer identity. Nodes are immutable values, so a shared subtree is the same value in both versions. The old trie is untouched because it is a value; `PutSharesOffPath` and `RemoveSharesOffPath` state which nodes are shared. Pointer identity is not modelled: `Remove` of a key ending on a plain node returns a rebuilt trie that equals the input rather than the same handle.
- `primer/trie.h` is not part of this model. `TrieNode`, `TrieNodeWithValue` and `Clone` are modelled from their use in `trie.cpp`: a clone copies the children map, the value flag and the payload reference.
- Move-only payloads and the explicit template instantiations (`trie.cpp:131-149`) are ownership and RTTI concerns. The payload is a tagged value, and the fields of `MoveBlocked` are not modelled.
- `Get` returns the payload value, not a pointer whose lifetime is tied to the trie.
- The null check on the final node in `Get` (`trie.cpp:19`) is not modelled, because in this model a child edge always leads to a node.
- Key characters are Dafny `char`s rather than 8-bit C++ `char`s. Only equality of edge labels matters to the three operations.
- The order of edges in `std::map` is not modelled, because no operation depends on it.
