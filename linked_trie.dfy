/** The handle `LinkedTrieImpl`: a doubly linked, oldest-to-newest chain of
    node records kept in a key-value store, with the oldest and newest keys
    cached on the handle and mirrored under two reserved identifiers. */
module LinkedTrie {
  import opened Types
  import opened Links

  class LinkedTrieImpl {
    /** The node records, by key (the trie's `Get`/`Put`/`Delete`). */
    var store: map<Key, Node>
    /** The raw key-value surface that holds the two sentinel entries. */
    var raw: map<Sentinel, Option<Key>>
    var oldest: Option<Key>
    var newest: Option<Key>
    /** The logical clock (block number) the caller has set. */
    var clock: int
    const maxDiff: int
    /** The keys from oldest to newest. */
    ghost var order: seq<Key>

    /** The chain invariant: the store holds exactly the keys of `order`, each
        linked to its neighbours in `order`; the cached sentinels are the ends
        of `order` and the durable sentinel entries equal them. */
    ghost predicate Valid()
      reads this
    {
      Chain(store, order) &&
      oldest == First(order) && newest == Last(order) &&
      Slot(raw, OldestNodeKey) == oldest && Slot(raw, NewestNodeKey) == newest
    }

    /** The stored values, oldest first. */
    ghost function Values(): (v: seq<Data>)
      reads this
      requires Valid()
      ensures |v| == |order|
      ensures forall i | 0 <= i < |order| :: v[i] == store[order[i]].data
    {
      seq(|order|, i requires 0 <= i < |order| && Valid() reads this => store[order[i]].data)
    }

    /** Opens the handle over a persisted store: the sentinels are read from
        the raw entries, a missing entry reading as nil. When the persisted
        records form the chain `order` and the entries name its ends, the
        handle is valid. */
    constructor (persisted: map<Key, Node>, raw: map<Sentinel, Option<Key>>, maxDiff: int, clock: int,
                 ghost order: seq<Key>)
      ensures store == persisted && this.raw == raw && this.maxDiff == maxDiff && this.clock == clock
      ensures oldest == Slot(raw, OldestNodeKey) && newest == Slot(raw, NewestNodeKey)
      ensures this.order == order
      ensures (Chain(persisted, order) && Slot(raw, OldestNodeKey) == First(order) &&
               Slot(raw, NewestNodeKey) == Last(order)) ==> Valid()
    {
      store := persisted;
      this.raw := raw;
      this.maxDiff := maxDiff;
      this.clock := clock;
      oldest := Slot(raw, OldestNodeKey);
      newest := Slot(raw, NewestNodeKey);
      this.order := order;
    }

    /** True when the store holds no node; for a valid handle, exactly when
        both sentinels are nil. */
    function IsEmpty(): (b: bool)
      reads this
      ensures b <==> |store| == 0
      ensures Valid() ==> (b <==> oldest.None?) && (b <==> newest.None?)
    {
      ChainEmptyIfValid();
      |store| == 0
    }

    /** The caller moves the block number that `Put` stamps and
        `RemoveOldNodes` measures against. */
    method SetClock(c: int)
      requires Valid()
      modifies this`clock
      ensures Valid() && clock == c
    {
      clock := c;
    }

    lemma ChainEmptyIfValid()
      ensures Valid() ==> (|store| == 0 <==> |order| == 0)
    {
      if Valid() {
        ChainEmpty(store, order);
      }
    }

    /** The node record stored under `key`; a nil or absent key is NotFound. */
    function GetNode(key: Option<Key>): (r: Result<Node>)
      reads this
      ensures r.Ok? <==> key.Some? && key.value in store
      ensures r.Ok? ==> r.value == store[key.value]
      ensures r.Err? ==> r.error == NotFound
    {
      if key.Some? && key.value in store then Ok(store[key.value]) else Err(NotFound)
    }

    /** The value stored under `key`. */
    function Get(key: Key): (r: Result<Data>)
      reads this
      ensures r.Ok? <==> key in store
      ensures r.Ok? ==> r.value == store[key].data
      ensures Valid() ==> (r.Ok? <==> key in Keys(order))
    {
      match GetNode(Some(key))
      case Ok(node) => Ok(node.data)
      case Err(e) => Err(e)
    }

    /** The neighbour splice: the previous neighbour of `node` takes over its
        `nextNode`, the next neighbour takes over its `prevNode`. A neighbour
        that is not stored stops the splice with an error, after whatever
        was already written. */
    method Update(node: Node) returns (ok: bool)
      modifies this`store
      ensures ok <==> Linkable(old(store), node)
      ensures ok ==> store == Relinked(old(store), node)
      ensures !ok && node.prevNode.Some? && node.prevNode.value in old(store) ==>
                store == old(store)[node.prevNode.value := old(store)[node.prevNode.value].(nextNode := node.nextNode)]
      ensures !ok && !(node.prevNode.Some? && node.prevNode.value in old(store)) ==> store == old(store)
    {
      if node.prevNode.Some? {
        var prev := GetNode(node.prevNode);
        if prev.Err? {
          return false;
        }
        store := store[node.prevNode.value := prev.value.(nextNode := node.nextNode)];
      }
      if node.nextNode.Some? {
        var next := GetNode(node.nextNode);
        if next.Err? {
          return false;
        }
        store := store[node.nextNode.value := next.value.(prevNode := node.prevNode)];
      }
      return true;
    }

    /** The second half of `Put`, once the node of `key` is written: the node
        that was newest is pointed at `key`, an empty chain gets `key` as its
        oldest, a chain whose oldest was `key` gets `nodeNextKey` as its oldest
        when there is one, and `key` becomes the newest. Each sentinel change is
        written through to the raw store. */
    method LinkAsNewest(key: Key, nodeNextKey: Option<Key>)
      requires newest.Some? ==> newest.value in store
      requires Slot(raw, OldestNodeKey) == oldest && Slot(raw, NewestNodeKey) == newest
      modifies this`store, this`raw, this`oldest, this`newest
      ensures store == if old(newest).Some? && old(newest) != Some(key) then
                         old(store)[old(newest).value := old(store)[old(newest).value].(nextNode := Some(key))]
                       else old(store)
      ensures newest == Some(key)
      ensures oldest == if old(oldest).None? then Some(key)
                        else if old(oldest) == Some(key) && nodeNextKey.Some? then nodeNextKey
                        else old(oldest)
      ensures Slot(raw, OldestNodeKey) == oldest && Slot(raw, NewestNodeKey) == newest
    {
      if newest.None? {
        newest := Some(key);
        raw := raw[NewestNodeKey := Some(key)];
      } else if newest != Some(key) {
        var newestNode := GetNode(newest);
        store := store[newest.value := newestNode.value.(nextNode := Some(key))];
      }
      if oldest.None? {
        oldest := Some(key);
        raw := raw[OldestNodeKey := Some(key)];
      } else if oldest == Some(key) {
        if nodeNextKey.Some? {
          oldest := nodeNextKey;
          raw := raw[OldestNodeKey := nodeNextKey];
        }
      }
      newest := Some(key);
      raw := raw[NewestNodeKey := Some(key)];
    }

    /** Stores `data` under `key` stamped with the clock, as the newest node:
        a new key is appended at the newest end, a stored key is moved there
        and the other keys keep their order. */
    method Put(key: Key, data: Data)
      requires Valid()
      modifies this`store, this`raw, this`oldest, this`newest, this`order
      ensures Valid()
      ensures order == Without(old(order), key) + [key]
      ensures newest == Some(key)
      ensures key in store &&
              store[key] == Node(None, if old(newest) == Some(key) then old(store)[key].prevNode else old(newest), data, clock)
      ensures KeepsPayloads(old(store), store - {key})
      ensures key !in old(store) && old(newest).Some? ==>
                old(newest).value in store && store[old(newest).value].nextNode == Some(key)
      ensures old(oldest) != Some(key) ==> oldest == if old(oldest).None? then Some(key) else old(oldest)
      ensures old(oldest) == Some(key) && old(newest) != Some(key) ==> oldest == old(store)[key].nextNode
      ensures old(newest) == Some(key) ==> order == old(order) && oldest == old(oldest)
    {
      var found := GetNode(Some(key));
      if found.Err? {
        PutNew(key, data);
      } else {
        PutExisting(key, data, found.value);
      }
    }

    /** `Put` of a key that is not stored: a blank node takes the data and the
        clock, and is appended at the newest end. */
    method PutNew(key: Key, data: Data)
      requires Valid() && key !in store
      modifies this`store, this`raw, this`oldest, this`newest, this`order
      ensures Valid()
      ensures order == old(order) + [key] && Without(old(order), key) == old(order)
      ensures newest == Some(key)
      ensures store == Appended(old(store), old(order), key, Node(None, Last(old(order)), data, clock))
      ensures oldest == if old(oldest).None? then Some(key) else old(oldest)
      ensures old(oldest) != Some(key)
    {
      ghost var o := order;
      ghost var s0 := store;
      var node := Node(None, None, [], 0);
      var nodeNextKey := node.nextNode;
      node := node.(lastModified := clock, nextNode := None, prevNode := newest, data := data);
      store := store[key := node];
      LinkAsNewest(key, nodeNextKey);
      order := o + [key];
      PutNewChain(s0, o, key, node);
    }

    /** `Put` of a stored key: its node is spliced out where it was, takes the
        data and the clock, and is linked in again at the newest end. */
    method PutExisting(key: Key, data: Data, found: Node)
      requires Valid() && key in store && found == store[key]
      modifies this`store, this`raw, this`oldest, this`newest, this`order
      ensures Valid()
      ensures order == Without(old(order), key) + [key]
      ensures newest == Some(key)
      ensures key in store &&
              store[key] == Node(None, if old(newest) == Some(key) then old(store)[key].prevNode else old(newest), data, clock)
      ensures KeepsPayloads(old(store), store - {key})
      ensures old(oldest) != Some(key) ==> oldest == old(oldest)
      ensures old(oldest) == Some(key) && old(newest) != Some(key) ==> oldest == old(store)[key].nextNode
      ensures old(newest) == Some(key) ==> order == old(order) && oldest == old(oldest)
    {
      ghost var o := order;
      ghost var s0 := store;
      var node := Detach(key, found);
      Reinsert(key, data, node, s0, o);
    }

    /** The second half of `PutExisting`, once the node of `key` is spliced
        out of the chain `o` over `s0`: the node takes the data and the clock,
        is written back and linked in at the newest end. */
    method Reinsert(key: Key, data: Data, node: Node, ghost s0: map<Key, Node>, ghost o: seq<Key>)
      requires Chain(s0, o) && key in s0 && order == o
      requires oldest == First(o) && newest == Last(o)
      requires Slot(raw, OldestNodeKey) == oldest && Slot(raw, NewestNodeKey) == newest
      requires Some(key) == Last(o) ==> node == s0[key].(nextNode := Some(key)) && store == s0
      requires Some(key) != Last(o) ==> node == s0[key] && Linkable(s0, node) && store == Relinked(s0, node)
      modifies this`store, this`raw, this`oldest, this`newest, this`order
      ensures Valid()
      ensures order == Without(o, key) + [key]
      ensures newest == Some(key)
      ensures key in store && store[key] == Node(None, if Last(o) == Some(key) then s0[key].prevNode else Last(o), data, clock)
      ensures KeepsPayloads(s0, store - {key})
      ensures First(o) != Some(key) ==> oldest == First(o)
      ensures First(o) == Some(key) && Last(o) != Some(key) ==> oldest == s0[key].nextNode
      ensures Last(o) == Some(key) ==> order == o && oldest == First(o)
    {
      var nodeNextKey := node.nextNode;
      var node := node.(lastModified := clock, nextNode := None);
      if Some(key) != newest {
        node := node.(prevNode := newest);
      }
      node := node.(data := data);
      ghost var s1 := store;
      store := store[key := node];
      assert store[key] == node;
      LinkAsNewest(key, nodeNextKey);
      order := Without(o, key) + [key];
      PutChain(s0, o, key, s1, node, store, nodeNextKey);
    }

    /** The first half of `PutExisting`: the stored node of `key` is taken out
        of the chain by splicing its neighbours together, and returned as
        spliced. The newest node has no `nextNode`; it is first pointed at the
        newest key, itself, which makes its splice leave the store as it was. */
    method Detach(key: Key, found: Node) returns (node: Node)
      requires Valid() && key in store && found == store[key]
      modifies this`store
      ensures Some(key) == Last(order) ==> node == found.(nextNode := Some(key)) && store == old(store)
      ensures Some(key) != Last(order) ==>
                node == found && Linkable(old(store), node) && store == Relinked(old(store), node)
      ensures KeepsPayloads(old(store), store)
    {
      node := found;
      if node.nextNode.None? {
        node := node.(nextNode := newest);
      }
      DetachFacts(store, order, key);
      var ok := Update(node);
      assert ok;
    }

    /** The middle of `Delete`, once the node of `key` is unlinked: a sentinel
        that named `key` moves to the neighbour on its side, written through
        to the raw store. */
    method MoveSentinels(key: Key, node: Node)
      requires Slot(raw, OldestNodeKey) == oldest && Slot(raw, NewestNodeKey) == newest
      modifies this`raw, this`oldest, this`newest
      ensures newest == if old(newest) == Some(key) then node.prevNode else old(newest)
      ensures oldest == if old(oldest) == Some(key) then node.nextNode else old(oldest)
      ensures Slot(raw, OldestNodeKey) == oldest && Slot(raw, NewestNodeKey) == newest
    {
      if newest == Some(key) {
        newest := node.prevNode;
        raw := raw[NewestNodeKey := node.prevNode];
      }
      if oldest == Some(key) {
        oldest := node.nextNode;
        raw := raw[OldestNodeKey := node.nextNode];
      }
    }

    /** The body of `Delete` once the node of `key` is found: the node's
        neighbours are spliced together, a sentinel that named `key` moves to
        the neighbour, and the record is dropped. */
    method Unlink(key: Key, node: Node)
      requires Valid() && key in store && node == store[key]
      modifies this`store, this`raw, this`oldest, this`newest, this`order
      ensures Valid()
      ensures Linkable(old(store), node) && store == Relinked(old(store), node) - {key}
      ensures order == Without(old(order), key) && store.Keys == old(store).Keys - {key}
      ensures KeepsPayloads(old(store), store)
      ensures newest == if old(newest) == Some(key) then node.prevNode else old(newest)
      ensures oldest == if old(oldest) == Some(key) then node.nextNode else old(oldest)
    {
      ghost var o := order;
      ghost var s0 := store;
      DeleteChain(s0, o, key);
      var ok := Update(node);
      assert ok;
      ghost var s1 := store;
      MoveSentinels(key, node);
      store := store - {key};
      assert store == s1 - {key};
      order := Without(o, key);
    }

    /** Removes `key`: a nil key is refused with WrongKey and an absent key
        reported NotFound, both without any change; otherwise the node is
        unlinked and dropped. */
    method Delete(key: Option<Key>) returns (r: Outcome)
      requires Valid()
      modifies this`store, this`raw, this`oldest, this`newest, this`order
      ensures Valid()
      ensures key.None? ==> r == Fail(WrongKey)
      ensures key.Some? && key.value !in old(store) ==> r == Fail(NotFound)
      ensures r.Fail? ==> store == old(store) && order == old(order) && raw == old(raw) &&
                          oldest == old(oldest) && newest == old(newest)
      ensures key.Some? && key.value in old(store) ==> r == Pass
      ensures r.Pass? ==> key.Some? && key.value in old(store) && Linkable(old(store), old(store)[key.value]) &&
                          store == Relinked(old(store), old(store)[key.value]) - {key.value}
      ensures r.Pass? ==> order == Without(old(order), key.value) && store.Keys == old(store).Keys - {key.value}
      ensures r.Pass? ==> KeepsPayloads(old(store), store)
      ensures r.Pass? ==> newest == if old(newest) == key then old(store)[key.value].prevNode else old(newest)
      ensures r.Pass? ==> oldest == if old(oldest) == key then old(store)[key.value].nextNode else old(oldest)
      ensures r.Pass? && |old(order)| == 1 ==> oldest == None && newest == None && |store| == 0
    {
      if key.None? {
        return Fail(WrongKey);
      }
      var found := GetNode(key);
      if found.Err? {
        return Fail(found.error);
      }
      if |order| == 1 {
        SoleNode(store, order);
      }
      Unlink(key.value, found.value);
      return Pass;
    }

    /** One eviction of `RemoveOldNodes`: deleting the oldest key drops the
        head of the order. */
    method DeleteOldest() returns (r: Outcome)
      requires Valid() && oldest.Some?
      modifies this`store, this`raw, this`oldest, this`newest, this`order
      ensures Valid() && r == Pass
      ensures |old(order)| > 0 && order == old(order)[1..]
      ensures KeepsPayloads(old(store), store)
    {
      r := Delete(oldest);
      WithoutAt(old(order), 0);
      assert RemoveAt(old(order), 0) == old(order)[1..];
    }

    /** Evicts, oldest first, every node whose age `clock - lastModified`
        exceeds `maxDiff`, stopping at the first node that does not: exactly
        the stale prefix of the order goes, and what is left starts fresh. */
    method RemoveOldNodes()
      requires Valid()
      modifies this`store, this`raw, this`oldest, this`newest, this`order
      ensures Valid()
      ensures order == old(order)[StaleCount(old(store), old(order), clock, maxDiff)..]
      ensures KeepsPayloads(old(store), store)
      ensures StaleCount(store, order, clock, maxDiff) == 0
    {
      ghost var removed: nat := 0;
      while oldest.Some?
        invariant Valid()
        invariant removed <= |old(order)| && order == old(order)[removed..]
        invariant forall j | 0 <= j < removed :: Stale(old(store)[old(order)[j]], clock, maxDiff)
        invariant KeepsPayloads(old(store), store)
        decreases |order|
      {
        var node := GetNode(oldest);
        assert node.Ok?;
        if clock - node.value.lastModified > maxDiff {
          ghost var before := store;
          ghost var rest := order;
          var r := DeleteOldest();
          assert order == old(order)[removed + 1..] by {
            assert rest[1..] == old(order)[removed + 1..];
          }
          KeepsPayloadsTrans(old(store), before, store);
          removed := removed + 1;
        } else {
          StaleCountExact(old(store), old(order), clock, maxDiff, removed);
          return;
        }
      }
      ChainEmpty(store, order);
      StaleCountExact(old(store), old(order), clock, maxDiff, removed);
    }

    /** A cursor at the oldest node, for walking the values in order. */
    method Iterator() returns (c: Cursor)
      requires Valid()
      ensures fresh(c) && c.Valid() && c.trie == this && c.pos == 0
    {
      c := new Cursor(this);
    }
  }

  /** The state the closure returned by `Iterator` captures: the handle and
      the key it reads next. */
  class Cursor {
    const trie: LinkedTrieImpl
    var root: Option<Key>
    /** How many values have been yielded. */
    ghost var pos: nat

    ghost predicate Valid()
      reads this, trie
    {
      trie.Valid() && pos <= |trie.order| &&
      root == if pos < |trie.order| then Some(trie.order[pos]) else None
    }

    constructor (t: LinkedTrieImpl)
      requires t.Valid()
      ensures Valid() && trie == t && pos == 0
    {
      trie := t;
      root := t.oldest;
      pos := 0;
    }

    /** Yields the value at the cursor and moves along `nextNode`; past the
        newest node it reports NotFound, as often as it is called. */
    method Next() returns (r: Result<Data>)
      requires Valid()
      modifies this
      ensures Valid()
      ensures old(pos) < |trie.order| ==> r == Ok(trie.Values()[old(pos)]) && pos == old(pos) + 1
      ensures old(pos) == |trie.order| ==> r == Err(NotFound) && pos == old(pos)
    {
      var node := trie.GetNode(root);
      if node.Err? {
        return Err(node.error);
      }
      assert node.value.nextNode == NextOf(trie.order, pos);
      root := node.value.nextNode;
      pos := pos + 1;
      return Ok(node.value.data);
    }
  }
}
