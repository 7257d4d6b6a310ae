/**
  `node process-video.js <path>`: hash the file, upload it, register its
  digest on the ledger, then download the stored copy and verify it. Every
  error is thrown to one handler that exits, so a run either returns the
  full summary or fails at one named step.
 */
module ProcessVideoCli {
  import opened Integrity
  import opened Verification
  import opened Services
  import opened Cli

  datatype ProcessOutcome =
    | MissingPath
    | FileMissing
    | Failed(step: Step)
    | Processed(videoId: string, hash: string, txHash: string, valid: bool, tampered: bool)

  /**
    One run. `files` is the local file system (a path exists exactly when
    it is a key), `videoId` stands for the generated `crypto.randomUUID()`,
    `net` for the answers of the external calls.
   */
  method ProcessVideo(sys: IntegritySystem, h: Hasher, files: map<string, Bytes>, pathArg: Option<string>,
                      videoId: string, net: Network) returns (r: ProcessOutcome)
    modifies sys
    ensures Extends(old(sys.store), sys.store) && Extends(old(sys.ledger), sys.ledger)
    ensures !Given(pathArg) ==> r == MissingPath
    ensures Given(pathArg) && pathArg.value !in files ==> r == FileMissing
    ensures r.MissingPath? || r.FileMissing? || r == Failed(UploadStep) ==>
      sys.store == old(sys.store) && sys.ledger == old(sys.ledger)
    ensures r == Failed(UploadStep) <==>
      Given(pathArg) && pathArg.value in files && (!net.uploadAccepted || StoreKey(videoId) in old(sys.store))
    ensures r == Failed(LedgerWriteStep) <==>
      && Given(pathArg) && pathArg.value in files
      && net.uploadAccepted && StoreKey(videoId) !in old(sys.store)
      && (net.ledgerReply.Reverted? || videoId in old(sys.ledger))
    ensures r == Failed(LedgerWriteStep) ==>
      sys.store == old(sys.store)[StoreKey(videoId) := files[pathArg.value]] && sys.ledger == old(sys.ledger)
    ensures r == Failed(DownloadStep) <==>
      Given(pathArg) && pathArg.value in files && WritesSucceed(old(sys.store), old(sys.ledger), videoId, net) && !net.downloadOk
    ensures r == Failed(LedgerReadStep) <==>
      && Given(pathArg) && pathArg.value in files && WritesSucceed(old(sys.store), old(sys.ledger), videoId, net)
      && net.downloadOk && !net.lookupOk
    ensures r.Processed? <==>
      && Given(pathArg) && pathArg.value in files && WritesSucceed(old(sys.store), old(sys.ledger), videoId, net)
      && net.downloadOk && net.lookupOk
    ensures r == Failed(DownloadStep) || r == Failed(LedgerReadStep) || r.Processed? ==>
      && net.ledgerReply.Confirmed?
      && sys.store == old(sys.store)[StoreKey(videoId) := files[pathArg.value]]
      && sys.ledger == old(sys.ledger)[videoId := LedgerEntry(h(files[pathArg.value]), net.ledgerReply.blockTime)]
    ensures r.Processed? ==>
      && r.videoId == videoId
      && r.hash == h(files[pathArg.value])
      && r.txHash == net.ledgerReply.txHash
      && sys.store == old(sys.store)[StoreKey(videoId) := files[pathArg.value]]
      && sys.ledger == old(sys.ledger)[videoId := LedgerEntry(r.hash, net.ledgerReply.blockTime)]
      && r.valid && !r.tampered
  {
    if !Given(pathArg) {
      return MissingPath;
    }
    var path := pathArg.value;
    if path !in files {
      return FileMissing;
    }
    var fileBuffer := files[path];
    var registration := sys.Register(h, fileBuffer, videoId, net.uploadAccepted, net.ledgerReply);
    match registration
    case StoreFailed => r := Failed(UploadStep);
    case PartialRegistration => r := Failed(LedgerWriteStep);
    case Registered(hash, txHash) =>
      var check := ReadBack(h, sys.store, sys.ledger, videoId, net.downloadOk, net.lookupOk);
      match check
      case ContentNotFound => r := Failed(DownloadStep);
      case LedgerRecordNotFound => r := Failed(LedgerReadStep);
      case Checked(valid, tampered, _, _, _) => r := Processed(videoId, hash, txHash, valid, tampered);
  }
}
