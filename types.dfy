/** Values shared by the linked trie: bytes, keys, node records and the
    error kinds the operations report. */
module Types {

  newtype byte = x: int | 0 <= x < 256

  /** A node key. Go's `nil` key is `None` of `Option<Key>`; a key itself is
      never empty, so `bytes.Equal` on two optional keys is plain equality. */
  type Key = k: seq<byte> | |k| > 0 witness [0]

  /** An opaque value stored verbatim in a node. */
  type Data = seq<byte>

  datatype Option<+T> = None | Some(value: T)

  datatype Error = NotFound | WrongKey

  datatype Result<+R> = Ok(value: R) | Err(error: Error)

  datatype Outcome = Pass | Fail(error: Error)

  /** The persisted node record `linkedNode`: `nextNode` points to the more
      recently touched neighbour, `prevNode` to the less recently touched one. */
  datatype Node = Node(nextNode: Option<Key>, prevNode: Option<Key>, data: Data, lastModified: int)

  /** The two reserved entries of the raw store that hold the oldest and the
      newest key. */
  datatype Sentinel = OldestNodeKey | NewestNodeKey {
    /** The reserved identifier the entry is stored under. */
    function Id(): (id: seq<byte>)
      ensures |id| == 3 && id[0] == 0
    {
      match this
      case OldestNodeKey => [0, 1, 2]
      case NewestNodeKey => [0, 2, 4]
    }
  }

  /** The two sentinel entries live under different identifiers. */
  lemma SentinelIdsDiffer()
    ensures OldestNodeKey.Id() != NewestNodeKey.Id()
  {
    assert OldestNodeKey.Id()[1] != NewestNodeKey.Id()[1];
  }

  /** What the raw store holds in a sentinel entry; a missing entry reads as
      `nil`. */
  function Slot(raw: map<Sentinel, Option<Key>>, id: Sentinel): (r: Option<Key>)
    ensures id !in raw ==> r.None?
    ensures id in raw ==> r == raw[id]
  {
    if id in raw then raw[id] else None
  }

  /** The bytes of an ASCII string, as Go's `[]byte(s)` gives them. */
  function Bytes(s: string): (b: seq<byte>)
    requires forall i | 0 <= i < |s| :: s[i] as int < 256
    ensures |b| == |s|
    ensures forall i | 0 <= i < |s| :: b[i] as int == s[i] as int
  {
    seq(|s|, i requires 0 <= i < |s| => s[i] as int as byte)
  }
}
