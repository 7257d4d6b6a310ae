/**
  The HTTP service: `POST /upload` registers an uploaded video,
  `GET /verify/:videoId` verifies the stored copy of one.
 */
module Server {
  import opened Integrity
  import opened Verification
  import opened Services

  datatype UploadResponse =
    | NoFile
    | StorageError
      /** The error thrown by the ledger write, caught by the handler. */
    | ServerError
    | Uploaded(videoId: string, hash: string, txHash: string)
  {
    function Status(): nat
    {
      match this
      case NoFile => 400
      case StorageError => 500
      case ServerError => 500
      case Uploaded(_, _, _) => 200
    }
  }

  /**
    `POST /upload`. `file` is the uploaded file (absent when the request
    carries none), `videoId` stands for the `crypto.randomUUID()` the
    handler draws, `accepted` and `reply` for the store's and the
    ledger's answers.
   */
  method HandleUpload(sys: IntegritySystem, h: Hasher, file: Option<Bytes>, videoId: string,
                      accepted: bool, reply: LedgerReply) returns (r: UploadResponse)
    modifies sys
    ensures Extends(old(sys.store), sys.store) && Extends(old(sys.ledger), sys.ledger)
    ensures r.NoFile? <==> file.None?
    ensures r.NoFile? ==> r.Status() == 400
    ensures r.NoFile? || r.StorageError? ==> sys.store == old(sys.store) && sys.ledger == old(sys.ledger)
    ensures r.StorageError? <==> file.Some? && (!accepted || StoreKey(videoId) in old(sys.store))
    ensures r.ServerError? <==> file.Some? && accepted && StoreKey(videoId) !in old(sys.store)
                                && (reply.Reverted? || videoId in old(sys.ledger))
    ensures r.ServerError? ==> sys.store == old(sys.store)[StoreKey(videoId) := file.value] && sys.ledger == old(sys.ledger)
    ensures r.StorageError? || r.ServerError? ==> r.Status() == 500
    ensures r.Uploaded? <==>
      file.Some? && accepted && StoreKey(videoId) !in old(sys.store) && reply.Confirmed? && videoId !in old(sys.ledger)
    ensures r.Uploaded? ==>
      && file.Some?
      && r.Status() == 200
      && r.videoId == videoId
      && r.hash == h(file.value)
      && r.txHash == reply.txHash
      && sys.store == old(sys.store)[StoreKey(r.videoId) := file.value]
      && sys.ledger == old(sys.ledger)[r.videoId := LedgerEntry(r.hash, reply.blockTime)]
    ensures r.Uploaded? ==> VerifyRemote(h, sys.store, sys.ledger, r.videoId) == Checked(true, false, r.hash, r.hash, reply.blockTime)
  {
    if file.None? {
      return NoFile;
    }
    var registration := sys.Register(h, file.value, videoId, accepted, reply);
    match registration
    case StoreFailed => r := StorageError;
    case PartialRegistration => r := ServerError;
    case Registered(hash, txHash) => r := Uploaded(videoId, hash, txHash);
  }

  /** The reply to `GET /verify/:videoId`: the status code and the verdict it reports. */
  datatype VerifyReply = VerifyReply(status: nat, verdict: Verdict, videoId: string)

  /**
    `GET /verify/:videoId`: 404 with "Video not found in database" when
    the download fails, 404 with "Video hash not found on blockchain" when
    the ledger lookup fails, and 200 with the comparison otherwise.
   */
  function HandleVerify(h: Hasher, store: map<string, Bytes>, ledger: map<string, LedgerEntry>, videoId: string): (r: VerifyReply)
    ensures r.videoId == videoId
    ensures r.verdict == VerifyRemote(h, store, ledger, videoId)
    ensures r.status == 404 <==> StoreKey(videoId) !in store || videoId !in ledger
    ensures r.status == 200 <==> StoreKey(videoId) in store && videoId in ledger
    ensures r.status == 200 ==>
      && r.verdict.currentHash == h(store[StoreKey(videoId)])
      && r.verdict.storedHash == ledger[videoId].digest
      && (r.verdict.valid <==> r.verdict.currentHash == r.verdict.storedHash)
      && r.verdict.tampered == !r.verdict.valid
  {
    var v := VerifyRemote(h, store, ledger, videoId);
    VerifyReply(if v.Checked? then 200 else 404, v, videoId)
  }
}
