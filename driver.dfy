/** The walk the test program prints after each step, and the test program's
    own sequence of calls with what it leaves in the trie. */
module Driver {
  import opened Types
  import opened Links
  import opened LinkedTrie

  /** Calls the cursor until it reports an error, collecting what it yields:
      every stored value, oldest first. */
  method Collect(t: LinkedTrieImpl) returns (values: seq<Data>)
    requires t.Valid()
    ensures values == t.Values()
  {
    var c := t.Iterator();
    values := [];
    var done := false;
    while !done
      invariant c.Valid() && c.trie == t
      invariant values == t.Values()[..c.pos]
      invariant done ==> c.pos == |t.order|
      decreases |t.order| - c.pos, if done then 0 else 1
    {
      var r := c.Next();
      if r.Ok? {
        values := values + [r.value];
      } else {
        done := true;
      }
    }
  }

  /** `Put` at block number `c`, seen from the caller: the key moves to the
      newest end with the new data and stamp, and every other stored key keeps
      its data and stamp. */
  method PutAt(t: LinkedTrieImpl, c: int, key: Key, data: Data)
    requires t.Valid()
    modifies t
    ensures t.Valid() && t.clock == c
    ensures t.order == Without(old(t.order), key) + [key]
    ensures key in t.store && t.store[key].data == data && t.store[key].lastModified == c
    ensures KeepsPayloads(old(t.store), t.store - {key})
  {
    t.SetClock(c);
    t.Put(key, data);
  }

  /** Two sweeps at the same block number: the second evicts nothing. */
  method SweepTwice(t: LinkedTrieImpl)
    requires t.Valid()
    modifies t
    ensures t.Valid()
    ensures t.order == old(t.order)[StaleCount(old(t.store), old(t.order), t.clock, t.maxDiff)..]
  {
    t.RemoveOldNodes();
    t.RemoveOldNodes();
  }

  const Test1: Key := Bytes("Test1")
  const Test2: Key := Bytes("Test2")
  const Test3: Key := Bytes("Test3")

  lemma KeysDiffer()
    ensures Test1 != Test2 && Test1 != Test3 && Test2 != Test3
  {
    assert Test1[4] != Test2[4] && Test1[4] != Test3[4] && Test2[4] != Test3[4];
  }

  /** The first two puts of the test program on an empty store. */
  method FillTwo() returns (t: LinkedTrieImpl)
    ensures fresh(t) && t.Valid() && t.maxDiff == 2600000
    ensures t.order == [Test1, Test2]
    ensures Test2 in t.store && t.store[Test2].data == Bytes("Data2")
    ensures t.store[Test2].lastModified == 13000
  {
    KeysDiffer();
    t := new LinkedTrieImpl(map[], map[], 2600000, 1, []);
    PutAt(t, 5, Test1, Bytes("Data1"));
    assert t.order == [Test1];
    PutAt(t, 13000, Test2, Bytes("Data2"));
    assert Keys([Test1]) == {Test1} by { assert [Test1][1..] == []; }
  }

  /** The third put of the test program: a new key goes to the newest end. */
  method FillThree() returns (t: LinkedTrieImpl)
    ensures fresh(t) && t.Valid() && t.maxDiff == 2600000
    ensures t.order == [Test1, Test2, Test3]
    ensures Test2 in t.store && Test3 in t.store
    ensures t.store[Test2].data == Bytes("Data2") && t.store[Test2].lastModified == 13000
    ensures t.store[Test3].data == Bytes("Data3") && t.store[Test3].lastModified == 1700000
  {
    KeysDiffer();
    t := FillTwo();
    PutAt(t, 1700000, Test3, Bytes("Data3"));
    KeysAppend([Test1], Test2);
    assert Keys([Test1]) == {Test1} by { assert [Test1][1..] == []; }
    KeysAt(t.order, 1);
  }

  /** The four puts of the test program on an empty store: the last puts
      `Test1` again, which moves it from the oldest to the newest end. */
  method Fill() returns (t: LinkedTrieImpl)
    ensures fresh(t) && t.Valid() && t.maxDiff == 2600000
    ensures t.order == [Test2, Test3, Test1]
    ensures Test1 in t.store && Test2 in t.store && Test3 in t.store
    ensures t.store[Test2].data == Bytes("Data2") && t.store[Test2].lastModified == 13000
    ensures t.store[Test3].data == Bytes("Data3") && t.store[Test3].lastModified == 1700000
    ensures t.store[Test1].data == Bytes("Data1New")
  {
    KeysDiffer();
    t := FillThree();
    PutAt(t, 1800000, Test1, Bytes("Data1New"));
    WithoutAt([Test1, Test2, Test3], 0);
    assert RemoveAt([Test1, Test2, Test3], 0) == [Test2, Test3];
    KeysAt(t.order, 0);
    KeysAt(t.order, 1);
  }

  /** The test program on an empty store: three keys put at rising block
      numbers, the first put again later, then the old nodes evicted once
      the block number has moved past the age limit for all but the two
      newest. */
  method Scenario() returns (before: seq<Data>, after: seq<Data>)
    ensures before == [Bytes("Data2"), Bytes("Data3"), Bytes("Data1New")]
    ensures after == [Bytes("Data3"), Bytes("Data1New")]
  {
    var t := Fill();
    before := Collect(t);
    ghost var s4 := t.store;
    t.SetClock(2900000);
    assert StaleCount(s4, [Test2, Test3, Test1], 2900000, 2600000) == 1 by {
      assert [Test2, Test3, Test1][1..] == [Test3, Test1];
    }
    t.RemoveOldNodes();
    assert t.order == [Test3, Test1];
    assert Test3 in t.store && Test1 in t.store;
    after := Collect(t);
  }
}
