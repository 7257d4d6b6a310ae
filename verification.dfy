/**
  The verification step shared by every entry point: hash the content,
  look up the ledger record, compare by exact string equality. The result
  keeps "content missing", "ledger record missing" and a completed
  comparison apart; only the last carries `valid` and `tampered`.
 */
module Verification {
  import opened Integrity

  datatype Verdict =
    | ContentNotFound
    | LedgerRecordNotFound
    | Checked(valid: bool, tampered: bool, currentHash: string, storedHash: string, timestamp: nat)

  /** A completed comparison says `valid` exactly when the two digests are equal, and `tampered` is its negation. */
  predicate Consistent(v: Verdict)
  {
    v.Checked? ==> (v.valid <==> v.currentHash == v.storedHash) && v.tampered == !v.valid
  }

  /** Compare a freshly computed digest with a ledger record (`isValid = currentHash === storedHash`). */
  function Compare(currentHash: string, entry: LedgerEntry): Verdict
  {
    var isValid := currentHash == entry.digest;
    Checked(isValid, !isValid, currentHash, entry.digest, entry.timestamp)
  }

  /**
    Verification of bytes the caller already holds: the content store is
    not an input at all; only the ledger record of `id` is consulted.
   */
  function VerifyLocal(h: Hasher, ledger: map<string, LedgerEntry>, id: string, bytes: Bytes): (r: Verdict)
    ensures !r.ContentNotFound?
    ensures r.LedgerRecordNotFound? <==> id !in ledger
    ensures r.Checked? ==>
      && r.currentHash == h(bytes)
      && r.storedHash == ledger[id].digest
      && r.timestamp == ledger[id].timestamp
    ensures Consistent(r)
  {
    if id !in ledger then LedgerRecordNotFound
    else Compare(h(bytes), ledger[id])
  }

  /**
    Verification of the stored copy: download `id + ".mp4"`; if it is
    missing, stop before the ledger is read; otherwise hash the
    downloaded bytes, read the ledger record with `getVideo` and compare.
   */
  function VerifyRemote(h: Hasher, store: map<string, Bytes>, ledger: map<string, LedgerEntry>, id: string): (r: Verdict)
    ensures r.ContentNotFound? <==> StoreKey(id) !in store
    ensures r.LedgerRecordNotFound? <==> StoreKey(id) in store && id !in ledger
    ensures r.Checked? ==>
      && r.currentHash == h(store[StoreKey(id)])
      && r.storedHash == ledger[id].digest
      && r.timestamp == ledger[id].timestamp
    ensures Consistent(r)
  {
    var key := StoreKey(id);
    if key !in store then ContentNotFound
    else
      var currentHash := h(store[key]);
      if id !in ledger then LedgerRecordNotFound
      else Compare(currentHash, ledger[id])
  }

  /**
    The read-back that the register-then-verify pipelines perform, where
    either call may also fail on its own (a network or client error):
    `downloadOk` and `lookupOk` say whether the download and the
    `getVideo` call go through.
   */
  function ReadBack(h: Hasher, store: map<string, Bytes>, ledger: map<string, LedgerEntry>, id: string,
                    downloadOk: bool, lookupOk: bool): (r: Verdict)
    ensures downloadOk && lookupOk ==> r == VerifyRemote(h, store, ledger, id)
    ensures r.ContentNotFound? <==> !downloadOk || StoreKey(id) !in store
    ensures r.LedgerRecordNotFound? <==> downloadOk && StoreKey(id) in store && (!lookupOk || id !in ledger)
    ensures r.Checked? ==> r == VerifyRemote(h, store, ledger, id)
  {
    if !downloadOk then ContentNotFound
    else if !lookupOk && StoreKey(id) in store then LedgerRecordNotFound
    else VerifyRemote(h, store, ledger, id)
  }

  /** When the content is missing the outcome does not depend on the ledger: it is not consulted. */
  lemma MissingContentIgnoresLedger(h: Hasher, store: map<string, Bytes>, l1: map<string, LedgerEntry>,
                                    l2: map<string, LedgerEntry>, id: string)
    requires StoreKey(id) !in store
    ensures VerifyRemote(h, store, l1, id) == VerifyRemote(h, store, l2, id) == ContentNotFound
  {
  }

  /** Remote verification is local verification of the downloaded copy. */
  lemma RemoteIsLocalOfStoredCopy(h: Hasher, store: map<string, Bytes>, ledger: map<string, LedgerEntry>, id: string)
    requires StoreKey(id) in store
    ensures VerifyRemote(h, store, ledger, id) == VerifyLocal(h, ledger, id, store[StoreKey(id)])
  {
  }

  /** Round trip: content stored under `id` and its digest recorded under `id` verify as authentic. */
  lemma RegisteredVerifiesAuthentic(h: Hasher, store: map<string, Bytes>, ledger: map<string, LedgerEntry>,
                                    id: string, bytes: Bytes, t: nat)
    ensures VerifyRemote(h, store[StoreKey(id) := bytes], ledger[id := LedgerEntry(h(bytes), t)], id)
            == Checked(true, false, h(bytes), h(bytes), t)
  {
  }

  /**
    With a collision-free digest, replacing the stored copy of a
    registered video by different bytes is always reported as tampering.
   */
  lemma ReplacementDetected(h: Hasher, store: map<string, Bytes>, ledger: map<string, LedgerEntry>,
                            id: string, original: Bytes, replacement: Bytes)
    requires forall x, y :: h(x) == h(y) ==> x == y
    requires id in ledger && ledger[id].digest == h(original)
    requires replacement != original
    ensures VerifyRemote(h, store[StoreKey(id) := replacement], ledger, id).tampered
    ensures VerifyRemote(h, store[StoreKey(id) := replacement], ledger, id).currentHash != ledger[id].digest
  {
  }

  /**
    Writing the content and the record of one id leaves the verdict of
    every other id as it was.
   */
  lemma OtherVerdictsUnaffected(h: Hasher, store: map<string, Bytes>, ledger: map<string, LedgerEntry>,
                                id: string, other: string, bytes: Bytes, entry: LedgerEntry)
    requires other != id
    ensures VerifyRemote(h, store[StoreKey(id) := bytes], ledger, other) == VerifyRemote(h, store, ledger, other)
    ensures VerifyRemote(h, store[StoreKey(id) := bytes], ledger[id := entry], other) == VerifyRemote(h, store, ledger, other)
  {
    StoreKeyDistinct(id, other);
  }

  /**
    A completed comparison never changes while the store and the ledger
    only grow: a verdict once reached is reached again by any later call.
   */
  lemma CheckedVerdictStable(h: Hasher, s1: map<string, Bytes>, l1: map<string, LedgerEntry>,
                             s2: map<string, Bytes>, l2: map<string, LedgerEntry>, id: string)
    requires Extends(s1, s2) && Extends(l1, l2)
    requires VerifyRemote(h, s1, l1, id).Checked?
    ensures VerifyRemote(h, s2, l2, id) == VerifyRemote(h, s1, l1, id)
  {
  }
}
