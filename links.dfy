/** The doubly linked chain of node records, as a relation between a store
    (key to node) and the oldest-to-newest order of its keys, and the pure
    facts about splicing a node out of it and appending one at its newest end. */
module Links {
  import opened Types

  ghost predicate Distinct(o: seq<Key>)
  {
    forall i, j | 0 <= i < j < |o| :: o[i] != o[j]
  }

  /** The neighbour of position `i` towards the newest end. */
  function NextOf(o: seq<Key>, i: nat): Option<Key>
    requires i < |o|
  {
    if i + 1 < |o| then Some(o[i + 1]) else None
  }

  /** The neighbour of position `i` towards the oldest end. */
  function PrevOf(o: seq<Key>, i: nat): Option<Key>
    requires i < |o|
  {
    if i > 0 then Some(o[i - 1]) else None
  }

  function First(o: seq<Key>): Option<Key>
  {
    if |o| == 0 then None else Some(o[0])
  }

  function Last(o: seq<Key>): Option<Key>
  {
    if |o| == 0 then None else Some(o[|o| - 1])
  }

  /** Every key of `o` is stored and points forward to its successor in `o`.
      The link fact is triggered by `NextOf(o, i)` rather than by `o[i]`: the
      definition of `NextOf` names `o[i + 1]`, so an `o[i]` trigger would
      instantiate along the whole sequence. */
  ghost predicate ForwardLinked(s: map<Key, Node>, o: seq<Key>)
  {
    (forall i | 0 <= i < |o| :: o[i] in s) &&
    (forall i {:trigger NextOf(o, i)} | 0 <= i < |o| :: s[o[i]].nextNode == NextOf(o, i))
  }

  /** Every key of `o` is stored and points back to its predecessor in `o`. */
  ghost predicate BackwardLinked(s: map<Key, Node>, o: seq<Key>)
  {
    (forall i | 0 <= i < |o| :: o[i] in s) &&
    (forall i {:trigger PrevOf(o, i)} | 0 <= i < |o| :: s[o[i]].prevNode == PrevOf(o, i))
  }

  /** `o` lists every stored key exactly once, and every stored node links to
      exactly its neighbours in `o`: the first has no `prevNode`, the last no
      `nextNode`. */
  ghost predicate Chain(s: map<Key, Node>, o: seq<Key>)
  {
    Distinct(o) &&
    s.Keys == Keys(o) &&
    ForwardLinked(s, o) && BackwardLinked(s, o)
  }

  /** The keys listed in `o`. */
  function Keys(o: seq<Key>): set<Key>
  {
    if o == [] then {} else {o[0]} + Keys(o[1..])
  }

  /** Where `x` first occurs in `o`. */
  function IndexOf(o: seq<Key>, x: Key): (i: nat)
    requires x in Keys(o)
    ensures i < |o| && o[i] == x
    ensures forall j | 0 <= j < i :: o[j] != x
  {
    if o[0] == x then 0 else 1 + IndexOf(o[1..], x)
  }

  lemma {:induction false} KeysAt(o: seq<Key>, i: nat)
    requires i < |o|
    ensures o[i] in Keys(o)
  {
    if i > 0 {
      KeysAt(o[1..], i - 1);
    }
  }

  lemma {:induction false} KeysConcat(a: seq<Key>, b: seq<Key>)
    ensures Keys(a + b) == Keys(a) + Keys(b)
  {
    if a != [] {
      KeysConcat(a[1..], b);
      assert (a + b)[1..] == a[1..] + b;
    } else {
      assert a + b == b;
    }
  }

  /** A key of a list without repeats occurs nowhere else in it. */
  lemma NotElsewhere(o: seq<Key>, i: nat)
    requires Distinct(o) && i < |o|
    ensures o[i] !in Keys(o[..i]) && o[i] !in Keys(o[i + 1..])
  {
    if o[i] in Keys(o[..i]) {
      var j := IndexOf(o[..i], o[i]);
      DistinctAt(o, j, i);
    }
    if o[i] in Keys(o[i + 1..]) {
      var j := IndexOf(o[i + 1..], o[i]);
      DistinctAt(o, i + 1 + j, i);
    }
  }

  /** The keys on either side of position `i`, with and without it. */
  lemma KeysSplit(o: seq<Key>, i: nat)
    requires i < |o|
    ensures Keys(o) == Keys(o[..i]) + {o[i]} + Keys(o[i + 1..])
    ensures Keys(RemoveAt(o, i)) == Keys(o[..i]) + Keys(o[i + 1..])
  {
    var a, m, b := o[..i], [o[i]], o[i + 1..];
    assert m + b == o[i..];
    assert o == a + o[i..];
    assert RemoveAt(o, i) == a + b;
    KeysConcat(a, b);
    KeysConcat(a, m + b);
    KeysConcat(m, b);
    assert Keys(m) == {o[i]} by { assert m[1..] == []; }
  }

  /** Taking a key that occurs only at `i` out of the listing. */
  lemma KeysRemoveAt(o: seq<Key>, i: nat)
    requires Distinct(o) && i < |o|
    ensures Keys(RemoveAt(o, i)) == Keys(o) - {o[i]}
  {
    KeysSplit(o, i);
    NotElsewhere(o, i);
  }

  lemma KeysAppend(o: seq<Key>, k: Key)
    ensures Keys(o + [k]) == Keys(o) + {k}
  {
    KeysConcat(o, [k]);
    assert Keys([k]) == {k} by { assert [k][1..] == []; }
  }

  /** `o` with every occurrence of `k` taken out. */
  function Without(o: seq<Key>, k: Key): (r: seq<Key>)
    ensures Keys(r) == Keys(o) - {k}
    ensures k !in Keys(o) ==> r == o
  {
    if o == [] then []
    else
      var rest := Without(o[1..], k);
      if o[0] == k then rest
      else
        assert ([o[0]] + rest)[1..] == rest;
        [o[0]] + rest
  }

  function RemoveAt(o: seq<Key>, i: nat): seq<Key>
    requires i < |o|
  {
    o[..i] + o[i + 1..]
  }

  /** Taking a key that occurs once, at `i`, out of `o` removes position `i`. */
  lemma {:induction false} WithoutAt(o: seq<Key>, i: nat)
    requires Distinct(o) && i < |o|
    ensures Without(o, o[i]) == RemoveAt(o, i)
  {
    if i == 0 {
      NotElsewhere(o, 0);
      assert Without(o, o[0]) == Without(o[1..], o[0]);
      assert RemoveAt(o, 0) == o[1..];
    } else {
      var t := o[1..];
      assert t[i - 1] == o[i];
      DistinctRemoveAt(o, 0);
      assert RemoveAt(o, 0) == t;
      WithoutAt(t, i - 1);
      DistinctAt(o, 0, i);
      WithoutCons(o, o[i]);
      RemoveAtCons(o, i);
    }
  }

  lemma WithoutCons(o: seq<Key>, k: Key)
    requires |o| > 0 && o[0] != k
    ensures Without(o, k) == [o[0]] + Without(o[1..], k)
  {
  }

  lemma RemoveAtCons(o: seq<Key>, i: nat)
    requires 0 < i < |o|
    ensures RemoveAt(o, i) == [o[0]] + RemoveAt(o[1..], i - 1)
  {
    assert [o[0]] + o[1..][..i - 1] == o[..i];
    assert o[1..][i..] == o[i + 1..];
  }

  /** Both neighbours `node` names are stored. */
  predicate Linkable(s: map<Key, Node>, node: Node)
  {
    (node.prevNode.Some? ==> node.prevNode.value in s) &&
    (node.nextNode.Some? ==> node.nextNode.value in s)
  }

  /** The store after the neighbour splice of `node`: its previous neighbour
      takes over `node.nextNode`, its next neighbour takes over `node.prevNode`. */
  function Relinked(s: map<Key, Node>, node: Node): (r: map<Key, Node>)
    requires Linkable(s, node)
    ensures r.Keys == s.Keys
    ensures forall k | k in s && Some(k) != node.prevNode && Some(k) != node.nextNode :: r[k] == s[k]
    ensures node.prevNode.Some? ==> r[node.prevNode.value].nextNode == node.nextNode
    ensures node.nextNode.Some? ==> r[node.nextNode.value].prevNode == node.prevNode
    ensures node.prevNode.Some? && node.prevNode != node.nextNode ==>
              r[node.prevNode.value].prevNode == s[node.prevNode.value].prevNode
    ensures node.nextNode.Some? && node.prevNode != node.nextNode ==>
              r[node.nextNode.value].nextNode == s[node.nextNode.value].nextNode
    ensures forall k | k in s :: r[k].data == s[k].data && r[k].lastModified == s[k].lastModified
  {
    var s1 := if node.prevNode.Some? then
                s[node.prevNode.value := s[node.prevNode.value].(nextNode := node.nextNode)]
              else s;
    if node.nextNode.Some? then
      s1[node.nextNode.value := s1[node.nextNode.value].(prevNode := node.prevNode)]
    else s1
  }

  /** The store after a node `n` is written under `k` and the node that was
      newest (the last of `o`) is pointed at it. */
  function Appended(s: map<Key, Node>, o: seq<Key>, k: Key, n: Node): map<Key, Node>
    requires |o| > 0 ==> o[|o| - 1] in s || o[|o| - 1] == k
  {
    var s1 := s[k := n];
    if |o| == 0 then s1 else s1[o[|o| - 1] := s1[o[|o| - 1]].(nextNode := Some(k))]
  }

  lemma DistinctRemoveAt(o: seq<Key>, i: nat)
    requires Distinct(o) && i < |o|
    ensures Distinct(RemoveAt(o, i))
  {
    var t := RemoveAt(o, i);
    forall a, b | 0 <= a < b < |t| ensures t[a] != t[b] {
      var a' := if a < i then a else a + 1;
      var b' := if b < i then b else b + 1;
      assert t[a] == o[a'] && t[b] == o[b'] && a' < b';
    }
  }

  lemma DistinctAt(o: seq<Key>, a: nat, b: nat)
    requires Distinct(o) && a < |o| && b < |o| && a != b
    ensures o[a] != o[b]
  {
    if b < a {
      assert o[b] != o[a];
    }
  }

  /** The links of the key at position `i`, spelled out. */
  lemma LinksAt(s: map<Key, Node>, o: seq<Key>, i: nat)
    requires ForwardLinked(s, o) && BackwardLinked(s, o) && i < |o|
    ensures o[i] in s && s[o[i]].nextNode == NextOf(o, i) && s[o[i]].prevNode == PrevOf(o, i)
  {
  }

  lemma RemoveAtIndex(o: seq<Key>, i: nat, j: nat)
    requires i < |o| && j < |o| - 1
    ensures |RemoveAt(o, i)| == |o| - 1
    ensures RemoveAt(o, i)[j] == o[if j < i then j else j + 1]
  {
  }

  /** The neighbours of position `j` once position `i` is removed: those of
      its old position `j'`, except that the removed position hands over its
      own neighbour on the far side. */
  lemma RemoveAtNeighbours(o: seq<Key>, i: nat, j: nat)
    requires i < |o| && j < |o| - 1
    ensures var j' := if j < i then j else j + 1;
            NextOf(RemoveAt(o, i), j) == (if j' + 1 == i then NextOf(o, i) else NextOf(o, j')) &&
            PrevOf(RemoveAt(o, i), j) == (if j' == i + 1 then PrevOf(o, i) else PrevOf(o, j'))
  {
    var t := RemoveAt(o, i);
    RemoveAtIndex(o, i, j);
    if j + 1 < |t| { RemoveAtIndex(o, i, j + 1); }
    if j > 0 { RemoveAtIndex(o, i, j - 1); }
  }

  /** After the splice, the node at position `j` of the shortened order links
      to its new neighbours. */
  lemma RemoveLink(s: map<Key, Node>, o: seq<Key>, i: nat, j: nat)
    requires Distinct(o) && ForwardLinked(s, o) && BackwardLinked(s, o)
    requires i < |o| && j < |o| - 1
    ensures Linkable(s, s[o[i]])
    ensures var t := RemoveAt(o, i);
            var r := Relinked(s, s[o[i]]);
            t[j] != o[i] && t[j] in r && r[t[j]].nextNode == NextOf(t, j) && r[t[j]].prevNode == PrevOf(t, j)
  {
    var k := o[i];
    var node := s[k];
    LinksAt(s, o, i);
    var t := RemoveAt(o, i);
    var r := Relinked(s, node);
    var j' := if j < i then j else j + 1;
    var x := o[j'];
    RemoveAtIndex(o, i, j);
    DistinctAt(o, j', i);
    LinksAt(s, o, j');
    var nx := if j' + 1 == i then NextOf(o, i) else NextOf(o, j');
    var pv := if j' == i + 1 then PrevOf(o, i) else PrevOf(o, j');
    RemoveAtNeighbours(o, i, j);
    if j' + 1 == i {
      assert Some(x) == node.prevNode;
      if i + 1 < |o| { DistinctAt(o, i + 1, j'); }
      assert r[x].nextNode == nx && r[x].prevNode == pv;
    } else if j' == i + 1 {
      assert Some(x) == node.nextNode;
      if i > 0 { DistinctAt(o, i - 1, j'); }
      assert r[x].nextNode == nx && r[x].prevNode == pv;
    } else {
      if i > 0 { DistinctAt(o, i - 1, j'); }
      if i + 1 < |o| { DistinctAt(o, i + 1, j'); }
      assert r[x] == s[x];
    }
  }

  /** Splicing out the node at position `i` and dropping its record leaves a
      chain over the remaining keys in their old relative order. */
  lemma ChainRemove(s: map<Key, Node>, o: seq<Key>, i: nat)
    requires Chain(s, o) && i < |o|
    ensures o[i] in s && Linkable(s, s[o[i]])
    ensures Chain(Relinked(s, s[o[i]]) - {o[i]}, RemoveAt(o, i))
  {
    LinksAt(s, o, i);
    var t := RemoveAt(o, i);
    DistinctRemoveAt(o, i);
    KeysRemoveAt(o, i);
    forall j | 0 <= j < |t|
      ensures t[j] in Relinked(s, s[o[i]]) - {o[i]}
      ensures (Relinked(s, s[o[i]]) - {o[i]})[t[j]].nextNode == NextOf(t, j)
      ensures (Relinked(s, s[o[i]]) - {o[i]})[t[j]].prevNode == PrevOf(t, j)
    {
      RemoveLink(s, o, i, j);
    }
  }

  /** Writing a node `n` under a key `k` that is not in the chain `o`, with
      `prevNode` the old newest and no `nextNode`, and pointing the old newest
      at `k`, gives a chain with `k` at its newest end. The store may still hold
      an old record of `k`; it is overwritten. */
  lemma {:induction false} ChainAppend(s: map<Key, Node>, o: seq<Key>, k: Key, n: Node)
    requires Chain(s - {k}, o)
    requires n.prevNode == Last(o) && n.nextNode == None
    ensures k !in Keys(o)
    ensures |o| > 0 ==> o[|o| - 1] in s
    ensures Chain(Appended(s, o, k, n), o + [k])
  {
    var t := s - {k};
    assert k !in t;
    if |o| > 0 { assert o[|o| - 1] in t; }
    var r := Appended(s, o, k, n);
    var o' := o + [k];
    assert Distinct(o') by {
      forall a, b | 0 <= a < b < |o'| ensures o'[a] != o'[b] {
        if b == |o| { assert o'[a] == o[a]; assert o[a] in t; }
      }
    }
    KeysAppend(o, k);
    assert r.Keys == Keys(o');
    forall j | 0 <= j < |o'|
      ensures o'[j] in r && r[o'[j]].nextNode == NextOf(o', j) && r[o'[j]].prevNode == PrevOf(o', j)
    {
      if j == |o| {
        assert o'[j] == k;
        if |o| > 0 { assert o[|o| - 1] != k; }
      } else {
        var x := o[j];
        assert o'[j] == x && x in t && x != k;
        assert t[x].nextNode == NextOf(o, j) && t[x].prevNode == PrevOf(o, j);
        if j == |o| - 1 {
          assert r[x] == t[x].(nextNode := Some(k));
        } else {
          assert x != o[|o| - 1];
          assert r[x] == t[x];
        }
      }
    }
  }

  /** Re-splicing the newest node after its `nextNode` has been pointed at
      itself writes back exactly what its neighbours already hold. */
  lemma ReputNewestSplice(s: map<Key, Node>, o: seq<Key>)
    requires Chain(s, o) && |o| > 0
    ensures o[|o| - 1] in s
    ensures var k := o[|o| - 1];
            var node := s[k].(nextNode := Some(k));
            Linkable(s, node) && Relinked(s, node) == s
  {
    var n := |o| - 1;
    var k := o[n];
    assert k in s;
    var node := s[k].(nextNode := Some(k));
    assert s[k].prevNode == PrevOf(o, n);
    if n > 0 {
      assert o[n - 1] in s;
      assert s[o[n - 1]].nextNode == NextOf(o, n - 1) == Some(k);
      assert s[o[n - 1]].(nextNode := Some(k)) == s[o[n - 1]];
    }
    var s1 := if node.prevNode.Some? then
                s[node.prevNode.value := s[node.prevNode.value].(nextNode := node.nextNode)]
              else s;
    assert s1 == s;
    assert s1[k].(prevNode := node.prevNode) == s[k];
  }

  /** What `Put` relies on when it finds `key` stored: its neighbours are
      stored, it has no `nextNode` exactly when it is the newest, and the
      self-linked splice of the newest node changes nothing. */
  lemma DetachFacts(s: map<Key, Node>, o: seq<Key>, key: Key)
    requires Chain(s, o) && key in s
    ensures Linkable(s, s[key])
    ensures s[key].nextNode.None? <==> Some(key) == Last(o)
    ensures Some(key) == Last(o) ==> Relinked(s, s[key].(nextNode := Some(key))) == s
  {
    var i := IndexOf(o, key);
    assert s[key].nextNode == NextOf(o, i) && s[key].prevNode == PrevOf(o, i);
    if i > 0 { assert o[i - 1] in s; }
    if i + 1 < |o| {
      assert o[i + 1] in s;
      assert Some(key) != Last(o) by { assert o[i] != o[|o| - 1]; }
    }
    if Some(key) == Last(o) {
      ReputNewestSplice(s, o);
    }
  }

  /** The chain `Put` leaves: `s1` is the store after the splice (if any),
      `n` the node written under `key`, `s2` the store after the old newest
      node is pointed at `key`, and `nnk` the `nextNode` the spliced node had.
      The key is now newest, the other keys keep their order, and the oldest
      end is what the sentinel update makes it. */
  lemma PutChain(s0: map<Key, Node>, o: seq<Key>, key: Key, s1: map<Key, Node>, n: Node,
                 s2: map<Key, Node>, nnk: Option<Key>)
    requires Chain(s0, o)
    requires key !in s0 ==> s1 == s0 && nnk == None
    requires key in s0 && Some(key) == Last(o) ==> s1 == s0 && nnk == Some(key)
    requires key in s0 && Some(key) != Last(o) ==>
               Linkable(s0, s0[key]) && s1 == Relinked(s0, s0[key]) && nnk == s0[key].nextNode
    requires n.nextNode == None
    requires n.prevNode == if key in s0 && Some(key) == Last(o) then s0[key].prevNode else Last(o)
    requires Last(o).Some? ==> Last(o).value in s1
    requires s2 == if Last(o).Some? && Last(o) != Some(key) then
                     s1[key := n][Last(o).value := s1[key := n][Last(o).value].(nextNode := Some(key))]
                   else s1[key := n]
    ensures Chain(s2, Without(o, key) + [key])
    ensures n.prevNode == Last(Without(o, key))
    ensures First(Without(o, key) + [key]) ==
              if First(o).None? then Some(key)
              else if First(o) == Some(key) && nnk.Some? then nnk
              else First(o)
    ensures Some(key) == Last(o) ==> Without(o, key) + [key] == o
    ensures KeepsPayloads(s0, s2 - {key})
  {
    if key !in s0 {
      PutNewChain(s0, o, key, n);
    } else if Some(key) == Last(o) {
      PutNewestChain(s0, o, key, n);
    } else {
      PutMovedChain(s0, o, key, n);
    }
    assert KeepsPayloads(s0, s1);
    assert KeepsPayloads(s1, s2 - {key}) by {
      forall k | k in s2 - {key}
        ensures k in s1 && s2[k].data == s1[k].data && s2[k].lastModified == s1[k].lastModified
      {
        if Last(o) != Some(k) {
          assert s2[k] == s1[k];
        }
      }
    }
    KeepsPayloadsTrans(s0, s1, s2 - {key});
  }

  /** `PutChain` for a key that was not stored: it is appended. */
  lemma PutNewChain(s0: map<Key, Node>, o: seq<Key>, key: Key, n: Node)
    requires Chain(s0, o) && key !in s0
    requires n.nextNode == None && n.prevNode == Last(o)
    ensures Without(o, key) == o
    ensures Last(o).Some? ==> Last(o).value in s0 && Last(o) != Some(key)
    ensures Chain(Appended(s0, o, key, n), o + [key])
    ensures First(o + [key]) == if First(o).None? then Some(key) else First(o)
    ensures First(o) != Some(key)
  {
    assert s0 - {key} == s0;
    assert Without(o, key) == o;
    ChainAppend(s0, o, key, n);
    if |o| > 0 {
      assert o[0] in s0;
    }
  }

  /** `PutChain` for the key that was already newest: the order is kept and
      only its record changes. */
  lemma PutNewestChain(s0: map<Key, Node>, o: seq<Key>, key: Key, n: Node)
    requires Chain(s0, o) && key in s0 && Some(key) == Last(o)
    requires n.nextNode == None && n.prevNode == s0[key].prevNode
    ensures Without(o, key) + [key] == o
    ensures Chain(s0[key := n], o)
    ensures n.prevNode == Last(Without(o, key))
  {
    var i := |o| - 1;
    LinksAt(s0, o, i);
    ChainRefresh(s0, o, key, n);
    WithoutAt(o, i);
    assert RemoveAt(o, i) + [key] == o;
    EndsAfterRemove(o, i);
  }

  /** `PutChain` for a stored key that was not newest: it is spliced out and
      appended. */
  lemma PutMovedChain(s0: map<Key, Node>, o: seq<Key>, key: Key, n: Node)
    requires Chain(s0, o) && key in s0 && Some(key) != Last(o)
    requires n.nextNode == None && n.prevNode == Last(o)
    ensures Linkable(s0, s0[key]) && Last(o).Some? && Last(o).value in s0 && Last(o) != Some(key)
    ensures Last(Without(o, key)) == Last(o)
    ensures First(Without(o, key) + [key]) ==
              if First(o) == Some(key) && s0[key].nextNode.Some? then s0[key].nextNode else First(o)
    ensures Chain(Appended(Relinked(s0, s0[key]), Without(o, key), key, n), Without(o, key) + [key])
  {
    var i := IndexOf(o, key);
    assert s0[key].nextNode == NextOf(o, i) && s0[key].prevNode == PrevOf(o, i);
    assert i < |o| - 1;
    ChainRemove(s0, o, i);
    WithoutAt(o, i);
    EndsAfterRemove(o, i);
    ChainAppend(Relinked(s0, s0[key]), RemoveAt(o, i), key, n);
    assert |RemoveAt(o, i)| > 0;
  }

  /** The chain `Delete` leaves: the splice and the removal of the record
      take `key` out of the order; the oldest end moves to the node's
      `nextNode` if `key` was oldest, the newest end to its `prevNode` if `key`
      was newest. */
  lemma DeleteChain(s0: map<Key, Node>, o: seq<Key>, key: Key)
    requires Chain(s0, o) && key in s0
    ensures Linkable(s0, s0[key])
    ensures Chain(Relinked(s0, s0[key]) - {key}, Without(o, key))
    ensures First(Without(o, key)) == if First(o) == Some(key) then s0[key].nextNode else First(o)
    ensures Last(Without(o, key)) == if Last(o) == Some(key) then s0[key].prevNode else Last(o)
  {
    var i := IndexOf(o, key);
    assert s0[key].nextNode == NextOf(o, i) && s0[key].prevNode == PrevOf(o, i);
    if i > 0 { assert o[i - 1] in s0; assert o[i - 1] != key; }
    if i + 1 < |o| { assert o[i + 1] in s0; assert o[i + 1] != key; }
    ChainRemove(s0, o, i);
    WithoutAt(o, i);
    EndsAfterRemove(o, i);
  }

  /** The only node of a chain has no neighbours, and taking it out leaves
      the empty order. */
  lemma SoleNode(s: map<Key, Node>, o: seq<Key>)
    requires Chain(s, o) && |o| == 1
    ensures o[0] in s && s[o[0]].nextNode == None && s[o[0]].prevNode == None
    ensures Without(o, o[0]) == []
  {
    LinksAt(s, o, 0);
    assert o[1..] == [];
  }

  /** Rewriting a node with the same links keeps the chain. */
  lemma ChainRefresh(s: map<Key, Node>, o: seq<Key>, k: Key, n: Node)
    requires Chain(s, o) && k in s
    requires n.nextNode == s[k].nextNode && n.prevNode == s[k].prevNode
    ensures Chain(s[k := n], o)
  {
    var r := s[k := n];
    forall i | 0 <= i < |o| ensures r[o[i]].nextNode == NextOf(o, i) && r[o[i]].prevNode == PrevOf(o, i) {
      assert o[i] in s;
    }
  }

  /** The ends of the chain after position `i` is removed. */
  lemma EndsAfterRemove(o: seq<Key>, i: nat)
    requires Distinct(o) && i < |o|
    ensures First(RemoveAt(o, i)) == if i == 0 then NextOf(o, 0) else First(o)
    ensures Last(RemoveAt(o, i)) == if i == |o| - 1 then PrevOf(o, i) else Last(o)
  {
    var t := RemoveAt(o, i);
    assert |t| == |o| - 1;
    if |t| > 0 {
      assert t[0] == if i == 0 then o[1] else o[0];
      assert t[|t| - 1] == if i == |o| - 1 then o[|o| - 2] else o[|o| - 1];
    }
  }

  // ---------------------------------------------------------------------
  // Following the links

  /** The keys visited by following `nextNode` from `from`, at most `fuel` of them. */
  ghost function Walk(s: map<Key, Node>, from: Option<Key>, fuel: nat): seq<Key>
    decreases fuel
  {
    if fuel == 0 || from.None? || from.value !in s then []
    else [from.value] + Walk(s, s[from.value].nextNode, fuel - 1)
  }

  /** The keys visited by following `prevNode` from `from`, at most `fuel` of them. */
  ghost function WalkBack(s: map<Key, Node>, from: Option<Key>, fuel: nat): seq<Key>
    decreases fuel
  {
    if fuel == 0 || from.None? || from.value !in s then []
    else [from.value] + WalkBack(s, s[from.value].prevNode, fuel - 1)
  }

  /** `o` newest first. */
  function Reverse(o: seq<Key>): (r: seq<Key>)
    ensures |r| == |o|
    ensures forall i | 0 <= i < |o| :: r[i] == o[|o| - 1 - i]
  {
    if o == [] then [] else [o[|o| - 1]] + Reverse(o[..|o| - 1])
  }

  lemma {:induction false} WalkFrom(s: map<Key, Node>, o: seq<Key>, i: nat, fuel: nat)
    requires ForwardLinked(s, o) && i <= |o| && fuel >= |o| - i
    ensures Walk(s, if i < |o| then Some(o[i]) else None, fuel) == o[i..]
    decreases |o| - i
  {
    if i < |o| {
      WalkFrom(s, o, i + 1, fuel - 1);
      assert s[o[i]].nextNode == NextOf(o, i);
      assert o[i..] == [o[i]] + o[i + 1..];
    }
  }

  lemma {:induction false} WalkBackFrom(s: map<Key, Node>, o: seq<Key>, i: nat, fuel: nat)
    requires BackwardLinked(s, o) && i <= |o| && fuel >= i
    ensures WalkBack(s, if i > 0 then Some(o[i - 1]) else None, fuel) == Reverse(o[..i])
    decreases i
  {
    if i > 0 {
      WalkBackFrom(s, o, i - 1, fuel - 1);
      assert s[o[i - 1]].prevNode == PrevOf(o, i - 1);
      assert o[..i][..i - 1] == o[..i - 1];
    }
  }

  /** Following `nextNode` from the oldest key visits every stored key exactly
      once, in order, and stops at the newest; following `prevNode` from the
      newest visits them in reverse. */
  lemma ChainIsWalk(s: map<Key, Node>, o: seq<Key>)
    requires Chain(s, o)
    ensures Walk(s, First(o), |o| + 1) == o
    ensures WalkBack(s, Last(o), |o| + 1) == Reverse(o)
  {
    WalkFrom(s, o, 0, |o| + 1);
    assert o[0..] == o;
    WalkBackFrom(s, o, |o|, |o| + 1);
    assert o[..|o|] == o;
  }

  /** No nodes exactly when the chain is empty. */
  lemma ChainEmpty(s: map<Key, Node>, o: seq<Key>)
    requires Chain(s, o)
    ensures |s| == 0 <==> |o| == 0
  {
    if |o| > 0 { assert o[0] in s; }
    if |s| > 0 { var k :| k in s; assert k in Keys(o); }
  }

  // ---------------------------------------------------------------------
  // Age-based eviction

  /** `t` keeps the data and the timestamp `s` holds for each of its keys. */
  ghost predicate KeepsPayloads(s: map<Key, Node>, t: map<Key, Node>)
  {
    forall k | k in t :: k in s && t[k].data == s[k].data && t[k].lastModified == s[k].lastModified
  }

  lemma KeepsPayloadsTrans(a: map<Key, Node>, b: map<Key, Node>, c: map<Key, Node>)
    requires KeepsPayloads(a, b) && KeepsPayloads(b, c)
    ensures KeepsPayloads(a, c)
  {
  }

  predicate Stale(n: Node, clock: int, maxDiff: int)
  {
    clock - n.lastModified > maxDiff
  }

  /** How many nodes, oldest first, are stale before the first fresh one. */
  function StaleCount(s: map<Key, Node>, o: seq<Key>, clock: int, maxDiff: int): (c: nat)
    requires forall i | 0 <= i < |o| :: o[i] in s
    ensures c <= |o|
    ensures forall j | 0 <= j < c :: Stale(s[o[j]], clock, maxDiff)
    ensures c < |o| ==> !Stale(s[o[c]], clock, maxDiff)
  {
    if |o| == 0 || !Stale(s[o[0]], clock, maxDiff) then 0
    else 1 + StaleCount(s, o[1..], clock, maxDiff)
  }

  /** A prefix of `r` stale nodes followed by a fresh node (or the end) is
      exactly what `StaleCount` counts. */
  lemma StaleCountExact(s: map<Key, Node>, o: seq<Key>, clock: int, maxDiff: int, r: nat)
    requires forall i | 0 <= i < |o| :: o[i] in s
    requires r <= |o|
    requires forall j | 0 <= j < r :: Stale(s[o[j]], clock, maxDiff)
    requires r < |o| ==> !Stale(s[o[r]], clock, maxDiff)
    ensures StaleCount(s, o, clock, maxDiff) == r
  {
  }

  /** After the stale prefix is gone nothing more is stale at its head. */
  lemma StaleCountIdempotent(s: map<Key, Node>, o: seq<Key>, clock: int, maxDiff: int)
    requires forall i | 0 <= i < |o| :: o[i] in s
    ensures var c := StaleCount(s, o, clock, maxDiff);
            StaleCount(s, o[c..], clock, maxDiff) == 0
  {
  }
}
