/**
  Shared vocabulary of the video integrity system: file contents as bytes,
  the content digest as a caller-supplied deterministic function, the
  ledger's record of a registration, and the naming convention that ties
  a video id to its object in the content store.
 */
module Integrity {

  newtype byte = x: int | 0 <= x < 256

  /** The contents of a video file, as read from disk or downloaded. */
  type Bytes = seq<byte>

  /**
    The content digest (SHA-256 rendered as lower-case hex in the
    scripts). Only determinism is relied on: any Dafny function
    of this type is deterministic, and nothing else about it is assumed.
   */
  type Hasher = Bytes -> string

  datatype Option<T> = None | Some(value: T)

  /** What the ledger contract's `getVideo(id)` returns: the registered digest and the block time. */
  datatype LedgerEntry = LedgerEntry(digest: string, timestamp: nat)

  /**
    The outcome of `registerVideo(id, hash)` followed by `tx.wait()`, as the
    ledger decides it: a confirmed transaction, carrying its hash and the
    block time the contract records, or a transaction that fails.
   */
  datatype LedgerReply = Confirmed(txHash: string, blockTime: nat) | Reverted

  /** The fixed file-name extension of every stored video. */
  const Extension: string := ".mp4"

  /** The object name under which the video with id `id` is uploaded and downloaded. */
  function StoreKey(id: string): string
  {
    id + Extension
  }

  /** Distinct video ids name distinct stored objects. */
  lemma StoreKeyDistinct(a: string, b: string)
    requires a != b
    ensures StoreKey(a) != StoreKey(b)
  {
    if |a| == |b| {
      var i :| 0 <= i < |a| && a[i] != b[i];
      assert StoreKey(a)[i] == a[i];
      assert StoreKey(b)[i] == b[i];
    }
  }

  /** `m2` keeps every entry of `m1` unchanged: nothing was removed or overwritten. */
  ghost predicate Extends<K, V>(m1: map<K, V>, m2: map<K, V>)
  {
    forall k :: k in m1 ==> k in m2 && m2[k] == m1[k]
  }
}
