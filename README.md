# LinkedTrieImpl: a persisted, oldest-to-newest doubly linked list

`LinkedTrieImpl` keeps a doubly linked chain of node records in a key-value
store. Each node `{NextNode, PrevNode, Data, LastModified}` is stored under its
own key. The handle caches the keys of the oldest and newest nodes and mirrors
them under two reserved store identifiers, `[0,1,2]` and `[0,2,4]`.

- `Put` stores a value as the newest node, moving an existing key to the newest end.
- `Delete` splices a node out.
- `Iterator` walks the values oldest first.
- `RemoveOldNodes` evicts, oldest first, the nodes whose age in blocks exceeds a limit.

The model is imperative, like the code it follows:

- `types.dfy` (module `Types`): bytes, non-empty keys, the node record, the two sentinel identifiers, `Option`/`Result` and the error kinds `NotFound` and `WrongKey`.
- `links.dfy` (module `Links`): the chain invariant `Chain(store, order)`, which says the store holds exactly the keys of `order` and each node's `nextNode`/`prevNode` name its neighbours in `order`. The module also holds the pure splice `Relinked`, key removal `Without`, the staleness count `StaleCount`, and the lemmas saying how `Put`, `Delete` and the sweep transform the chain.
- `linked_trie.dfy` (module `LinkedTrie`): `class LinkedTrieImpl`. Its fields are `store: map<Key, Node>` (the trie), `raw` (the two sentinel entries), `oldest`, `newest`, `clock` (the block number), the constant `maxDiff`, and a ghost `order`. Each Go operation is a method or function with the same branches. `class Cursor` is the state captured by the closure that `Iterator` returns.
- `driver.dfy` (module `Driver`): the test program's iteration loop and its call sequence, with the values it leaves in the trie.

Go's nil key is `None`. Keys are non-empty, so `bytes.Equal` and `== nil` agree on them.

## Model

| member | source | states |
|---|---|---|
| LinkedTrie.LinkedTrieImpl.constructor | linked_trie_impl.go:26-54 | The sentinels are read from the raw entries; a missing entry reads as nil. The handle is valid when the persisted records form a chain whose ends the entries name. |
| LinkedTrie.LinkedTrieImpl.IsEmpty | linked_trie_impl.go:70-72 | True exactly when the store holds no node. For a valid handle this holds exactly when `oldest` is nil, and exactly when `newest` is nil. |
| LinkedTrie.LinkedTrieImpl.ChainEmptyIfValid | linked_trie_impl.go:70-72 | In a valid handle the store is empty exactly when the order is empty. |
| LinkedTrie.LinkedTrieImpl.GetNode | linked_trie_impl.go:74-81 | Returns the record stored under the key when there is one. A nil or absent key gives NotFound. |
| LinkedTrie.LinkedTrieImpl.Get | linked_trie_impl.go:83-90 | Succeeds exactly when the key is stored, and then returns its data. In a valid handle it succeeds exactly when the key is in the order. |
| LinkedTrie.LinkedTrieImpl.Put | linked_trie_impl.go:100-165 | Keeps the chain invariant and the sentinel entries. The key ends up newest, and the other keys keep their relative order. The stored node holds the data and the clock, has no `nextNode`, and has the old newest as `prevNode` (its old `prevNode` when it was already newest). Other keys keep their data and stamps. A new key is linked from the old newest node. The oldest moves only when it was the key, and then to the key's old `nextNode`. Putting the newest key again changes neither the order nor the oldest. |
| LinkedTrie.LinkedTrieImpl.PutNew | linked_trie_impl.go:101-103 | A key not yet stored is appended at the newest end, the old newest node points at it, and the oldest is unchanged. On an empty chain the key becomes both the oldest and the newest. |
| LinkedTrie.LinkedTrieImpl.PutExisting | linked_trie_impl.go:104-114 | A stored key is spliced out and linked in again at the newest end, and the other keys keep their order. |
| LinkedTrie.LinkedTrieImpl.Detach | linked_trie_impl.go:107-114 | The newest node is first pointed at itself, so its splice leaves the store as it was. Any other node is spliced out of the chain. Data and stamps are unchanged. |
| LinkedTrie.LinkedTrieImpl.Reinsert | linked_trie_impl.go:115-165 | After the splice, the node is rewritten with the data and the clock and linked in as the newest. The result is a valid chain `Without(o, key) + [key]`. |
| LinkedTrie.LinkedTrieImpl.LinkAsNewest | linked_trie_impl.go:124-162 | The old newest node (when it is another key) gets `nextNode = key`. An empty chain gets `key` as its oldest. A chain whose oldest was `key` moves the oldest to the key's old `nextNode` when there is one. `key` becomes the newest. Both sentinel entries stay equal to the cached fields. |
| LinkedTrie.LinkedTrieImpl.Update | linked_trie_impl.go:200-225 | Succeeds exactly when both named neighbours are stored, and then leaves the store as `Relinked`. A failure leaves the first write or nothing, as the code does. It modifies only the store, so it never touches the sentinels. |
| Links.Relinked | linked_trie_impl.go:200-225 | The previous neighbour takes over `node.nextNode` and the next neighbour takes over `node.prevNode`. Every other record is unchanged, and so are all keys, data and stamps. |
| LinkedTrie.LinkedTrieImpl.Delete | linked_trie_impl.go:167-198 | A nil key gives WrongKey and an absent key gives NotFound; both change nothing. A stored key is spliced out and dropped from the store and the order. The newest moves to its `prevNode` when it was newest, and the oldest to its `nextNode` when it was oldest. Deleting the sole node leaves both sentinels nil and the store empty. The chain invariant is kept. |
| LinkedTrie.LinkedTrieImpl.Unlink | linked_trie_impl.go:176-197 | Splices the node out, moves the sentinels that named it, and drops the record. The order loses exactly the key. |
| LinkedTrie.LinkedTrieImpl.MoveSentinels | linked_trie_impl.go:181-195 | A sentinel naming the key moves to the neighbour on its side, and the raw entry is written through. |
| LinkedTrie.LinkedTrieImpl.DeleteOldest | linked_trie_impl.go:251 | Deleting the oldest key succeeds and drops exactly the head of the order. |
| LinkedTrie.LinkedTrieImpl.RemoveOldNodes | linked_trie_impl.go:243-260 | Deletes exactly the longest oldest-first prefix of nodes with `clock - lastModified > maxDiff` and keeps the rest in order with their payloads. Afterwards the head is not stale. |
| LinkedTrie.LinkedTrieImpl.Iterator | linked_trie_impl.go:227-228 | The cursor starts at the oldest key. |
| LinkedTrie.Cursor.Next | linked_trie_impl.go:229-236 | Yields the value at the cursor's position in the order and moves along `nextNode`. Past the newest it reports NotFound, as often as it is called. |
| Links.ChainIsWalk | linked_trie_impl.go:227-237 | In a chain, following `nextNode` from the oldest visits every stored key exactly once and stops after the newest. Following `prevNode` from the newest visits them in reverse. |
| Links.ChainEmpty | linked_trie_impl.go:143-144 | A chain's store is empty exactly when its order is. |
| Links.PutChain | linked_trie_impl.go:100-165 | For all three branches of `Put`, the writes leave a chain over `Without(o, key) + [key]`. The new oldest is what the sentinel update sets, and other keys keep their payloads. |
| Links.PutNewChain | linked_trie_impl.go:101-103 | Appending a new key keeps a chain, and the oldest only changes from nil. |
| Links.PutNewestChain | linked_trie_impl.go:107-108 | Rewriting the newest key with its own `prevNode` keeps the order and the chain. |
| Links.PutMovedChain | linked_trie_impl.go:104-115 | Splicing a non-newest key out and appending it keeps a chain. The oldest moves to its `nextNode` when it was the oldest. |
| Links.DetachFacts | linked_trie_impl.go:104-110 | A stored node's neighbours are stored. It has no `nextNode` exactly when it is newest, and then its self-linked splice changes nothing. |
| Links.ReputNewestSplice | linked_trie_impl.go:107-110 | After the newest node is pointed at itself, its splice rewrites exactly what its neighbours hold. |
| Links.DeleteChain | linked_trie_impl.go:176-197 | Splicing out a key and dropping its record leaves a chain over `Without(o, key)`. Its ends are the old ends, or the node's neighbours where the key was an end. |
| Links.SoleNode | linked_trie_impl.go:181-195 | The only node has no neighbours, and removing it leaves the empty order. |
| Links.ChainRemove | linked_trie_impl.go:176-197 | Removing position `i` by a splice leaves a chain over the other keys in their old relative order. |
| Links.ChainAppend | linked_trie_impl.go:115-141 | Writing a node at the newest end, with `prevNode` the old newest, and pointing the old newest at it, gives a chain with the key appended. |
| Links.Without | linked_trie_impl.go:100-198 | The keys of the result are the keys of the order minus `k`, and an order without `k` is unchanged. |
| Links.WithoutAt | linked_trie_impl.go:100-198 | In an order without repeats, removing a key removes exactly its one position. |
| Links.KeysRemoveAt | linked_trie_impl.go:197 | Removing position `i` of an order without repeats removes exactly the key at `i` from its key set. |
| Links.StaleCount | linked_trie_impl.go:244-257 | The count is at most the length of the order. Every node before it is stale, and the node at it, if any, is not. |
| Links.StaleCountExact | linked_trie_impl.go:244-257 | A stale prefix of length `r` followed by a fresh node or the end is exactly what `StaleCount` counts. |
| Links.StaleCountIdempotent | linked_trie_impl.go:243-260 | After the stale prefix is gone, nothing is stale at the head. |
| Driver.SweepTwice | linked_trie_impl.go:243-260 | A second sweep at the same block number deletes nothing: two sweeps leave what one leaves. |
| Driver.Collect | test/main.go:48-60 | Calling the cursor until it reports an error yields every stored value, oldest first. |
| Driver.PutAt | test/main.go:23-36 | A put at block number `c` moves the key to the newest end with the data and stamp `c`. Every other key keeps its data and stamp. |
| Driver.Fill | test/main.go:23-37 | After the four puts the order is Test2, Test3, Test1, with the stamps 13000 and 1700000 on Test2 and Test3. |
| Driver.Scenario | test/main.go:10-42 | After the puts, iteration yields Data2, Data3, Data1New. After the sweep at block 2900000 with limit 2600000, only Test2 is gone, so iteration yields Data3, Data1New. |
| Types.Sentinel.Id | linked_trie_impl.go:8-9 | The two reserved identifiers are three bytes starting with 0. |
| Types.SentinelIdsDiffer | linked_trie_impl.go:8-9 | The two reserved identifiers differ. |

## Left out

- The gob `encode`/`decode` of node records (linked_trie_impl.go:56-68) is a foreign codec. Records are map values here. This also drops the case where `getNode` hands `Put` a node after a decode error.
- The underlying store `PromethoniXTrie` (its `Get`/`Put`/`Delete`, `storage` and `IsEmpty`) is not part of this model. It is a map, and the `Hash` values that `Put` and `Delete` return are not modelled.
- Failures of store writes, and the half-updated state they leave, are not modelled. Writes always succeed, and `Update` reports its own failure on a missing neighbour, which a valid chain never has.
- `ActionLogEntries` (linked_trie_impl.go:239-241) is a pass-through to an audit log outside this model.
- `blockNumberFunc` is replaced by the `clock` field, which the caller sets with `SetClock`.
- LinkedTrie.LinkedTrieImpl.RemoveOldNodes: the Go loop reads the block number on every pass, while the model reads one clock for the whole sweep, as with a callback that returns the same value during the call.
- The `int64` subtraction `clock - lastModified` is unbounded here, so its overflow is not modelled.
- The `isActionLogEnabled` flag and the console output of test/main.go are left out.
- Locking and sharing the store across processes are left out; the code is single-writer.
- LinkedTrie.LinkedTrieImpl.Put: its caller must hold a valid chain, and the nil key is not accepted, because `Put` has no nil check of its own.
- LinkedTrie.LinkedTrieImpl.Delete: its caller must hold a valid chain. Only the nil key and the absent key are error paths, as in the code.
- Go's nil and empty byte slices coincide only for the empty key, which the model excludes. An empty persisted sentinel reads as nil.
