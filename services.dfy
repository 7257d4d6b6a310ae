/**
  The external state every script works against, the content store
  (bucket "videos") and the ledger contract, as one object whose two maps
  the register pipeline updates in order: upload first, ledger write
  second, each step gated by the success of the one before.
 */
module Services {
  import opened Integrity
  import opened Verification

  /** The result of the register pipeline (upload, then ledger write). */
  datatype Registration =
    | StoreFailed
      /** The upload succeeded and the ledger write failed: the blob stays, with no ledger record. */
    | PartialRegistration
    | Registered(digest: string, txHash: string)

  /** The step of a register-then-verify pipeline at which an error was thrown. */
  datatype Step = UploadStep | LedgerWriteStep | DownloadStep | LedgerReadStep

  /**
    How the external calls of one pipeline run turn out, apart from what
    the state decides: whether the store accepts the upload, how the
    ledger answers the write, and whether the download and the `getVideo`
    call of the read-back go through.
   */
  datatype Network = Network(uploadAccepted: bool, ledgerReply: LedgerReply, downloadOk: bool, lookupOk: bool)

  /** Whether both writes of the register pipeline go through for `id`, given the state before it runs. */
  predicate WritesSucceed(store: map<string, Bytes>, ledger: map<string, LedgerEntry>, id: string, net: Network)
  {
    net.uploadAccepted && StoreKey(id) !in store && net.ledgerReply.Confirmed? && id !in ledger
  }

  class IntegritySystem {
    /** Stored objects by name (`id + ".mp4"`). */
    var store: map<string, Bytes>
    /** Ledger records by video id. */
    var ledger: map<string, LedgerEntry>

    constructor ()
      ensures store == map[] && ledger == map[]
    {
      store := map[];
      ledger := map[];
    }

    /**
      `storage.from("videos").upload(key, bytes)`: without `upsert` an
      existing object is never overwritten, so the upload fails when the
      key is taken or when the store refuses it.
     */
    method Upload(key: string, bytes: Bytes, accepted: bool) returns (ok: bool)
      modifies this`store
      ensures ok <==> accepted && key !in old(store)
      ensures store == if ok then old(store)[key := bytes] else old(store)
    {
      ok := accepted && key !in store;
      if ok {
        store := store[key := bytes];
      }
    }

    /**
      `contract.registerVideo(id, digest)` and `tx.wait()`. The ledger is
      append-only: a write for an id that already has a record fails, as
      does a reverted transaction. On success the record carries the
      block time of the confirming transaction.
     */
    method RegisterVideo(id: string, digest: string, reply: LedgerReply) returns (tx: Option<string>)
      modifies this`ledger
      ensures tx.Some? <==> reply.Confirmed? && id !in old(ledger)
      ensures tx.Some? ==> tx.value == reply.txHash
      ensures ledger == if tx.Some? then old(ledger)[id := LedgerEntry(digest, reply.blockTime)] else old(ledger)
    {
      if reply.Confirmed? && id !in ledger {
        ledger := ledger[id := LedgerEntry(digest, reply.blockTime)];
        tx := Some(reply.txHash);
      } else {
        tx := None;
      }
    }

    /**
      The register pipeline: hash the bytes, upload them under
      `id + ".mp4"`, and only if that succeeded write the digest to the
      ledger under `id`. A failed ledger write leaves the uploaded blob in
      place; nothing is rolled back or retried.
     */
    method Register(h: Hasher, bytes: Bytes, id: string, accepted: bool, reply: LedgerReply) returns (r: Registration)
      modifies this
      ensures Extends(old(store), store) && Extends(old(ledger), ledger)
      ensures r.StoreFailed? <==> !accepted || StoreKey(id) in old(store)
      ensures r.StoreFailed? ==> store == old(store) && ledger == old(ledger)
      ensures !r.StoreFailed? ==> store == old(store)[StoreKey(id) := bytes]
      ensures r.PartialRegistration? <==> !r.StoreFailed? && (reply.Reverted? || id in old(ledger))
      ensures r.PartialRegistration? ==> ledger == old(ledger)
      ensures r.PartialRegistration? && id !in old(ledger) ==> VerifyRemote(h, store, ledger, id) == LedgerRecordNotFound
      ensures r.Registered? ==>
        && r.digest == h(bytes)
        && r.txHash == reply.txHash
        && ledger == old(ledger)[id := LedgerEntry(r.digest, reply.blockTime)]
      ensures r.Registered? ==> VerifyRemote(h, store, ledger, id) == Checked(true, false, r.digest, r.digest, reply.blockTime)
      ensures forall other :: other != id ==> VerifyRemote(h, store, ledger, other) == VerifyRemote(h, old(store), old(ledger), other)
    {
      var digest := h(bytes);
      var uploaded := Upload(StoreKey(id), bytes, accepted);
      if !uploaded {
        return StoreFailed;
      }
      var tx := RegisterVideo(id, digest, reply);
      var entry := if id in ledger then ledger[id] else LedgerEntry(digest, 0);
      forall other | other != id
        ensures VerifyRemote(h, store, ledger, other) == VerifyRemote(h, old(store), old(ledger), other)
      {
        OtherVerdictsUnaffected(h, old(store), old(ledger), id, other, bytes, entry);
      }
      if tx.None? {
        return PartialRegistration;
      }
      r := Registered(digest, tx.value);
    }
  }
}
