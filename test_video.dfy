/**
  `node test-video.js [path]`: register a video and verify it straight
  away. Without an argument the script uses its bundled sample file.
 */
module TestVideoCli {
  import opened Integrity
  import opened Verification
  import opened Services
  import opened Cli

  const DefaultPath: string := "./video/test.mp4"

  /** `process.argv[2] || "./video/test.mp4"`: an absent or empty argument selects the sample file. */
  function VideoPath(arg: Option<string>): (path: string)
    ensures Given(arg) ==> path == arg.value
    ensures !Given(arg) ==> path == DefaultPath
  {
    if Given(arg) then arg.value else DefaultPath
  }

  datatype TestOutcome =
    | FileMissing(path: string)
    | Failed(step: Step)
    | Tested(videoId: string, hash: string, isValid: bool, timestamp: nat)

  /**
    One run: upload, ledger write (its error is rethrown), then the
    immediate read-back, where a failed download raises an error instead
    of producing a verdict.
   */
  method TestVideo(sys: IntegritySystem, h: Hasher, files: map<string, Bytes>, arg: Option<string>,
                   videoId: string, net: Network) returns (r: TestOutcome)
    modifies sys
    ensures Extends(old(sys.store), sys.store) && Extends(old(sys.ledger), sys.ledger)
    ensures r.FileMissing? <==> VideoPath(arg) !in files
    ensures r.FileMissing? ==> r.path == VideoPath(arg)
    ensures r.FileMissing? || r == Failed(UploadStep) ==> sys.store == old(sys.store) && sys.ledger == old(sys.ledger)
    ensures r == Failed(UploadStep) <==>
      VideoPath(arg) in files && (!net.uploadAccepted || StoreKey(videoId) in old(sys.store))
    ensures r == Failed(LedgerWriteStep) <==>
      && VideoPath(arg) in files && net.uploadAccepted && StoreKey(videoId) !in old(sys.store)
      && (net.ledgerReply.Reverted? || videoId in old(sys.ledger))
    ensures r == Failed(LedgerWriteStep) ==>
      sys.store == old(sys.store)[StoreKey(videoId) := files[VideoPath(arg)]] && sys.ledger == old(sys.ledger)
    ensures r == Failed(DownloadStep) <==>
      VideoPath(arg) in files && WritesSucceed(old(sys.store), old(sys.ledger), videoId, net) && !net.downloadOk
    ensures r == Failed(LedgerReadStep) <==>
      VideoPath(arg) in files && WritesSucceed(old(sys.store), old(sys.ledger), videoId, net) && net.downloadOk && !net.lookupOk
    ensures r.Tested? <==>
      VideoPath(arg) in files && WritesSucceed(old(sys.store), old(sys.ledger), videoId, net) && net.downloadOk && net.lookupOk
    ensures r == Failed(DownloadStep) || r == Failed(LedgerReadStep) || r.Tested? ==>
      && VideoPath(arg) in files
      && net.ledgerReply.Confirmed?
      && sys.store == old(sys.store)[StoreKey(videoId) := files[VideoPath(arg)]]
      && sys.ledger == old(sys.ledger)[videoId := LedgerEntry(h(files[VideoPath(arg)]), net.ledgerReply.blockTime)]
    ensures r.Tested? ==>
      && r.videoId == videoId
      && r.hash == h(files[VideoPath(arg)])
      && r.timestamp == net.ledgerReply.blockTime
      && sys.store == old(sys.store)[StoreKey(videoId) := files[VideoPath(arg)]]
      && sys.ledger == old(sys.ledger)[videoId := LedgerEntry(r.hash, r.timestamp)]
      && r.isValid
  {
    var path := VideoPath(arg);
    if path !in files {
      return FileMissing(path);
    }
    var fileBuffer := files[path];
    var registration := sys.Register(h, fileBuffer, videoId, net.uploadAccepted, net.ledgerReply);
    match registration
    case StoreFailed => r := Failed(UploadStep);
    case PartialRegistration => r := Failed(LedgerWriteStep);
    case Registered(hash, _) =>
      var check := ReadBack(h, sys.store, sys.ledger, videoId, net.downloadOk, net.lookupOk);
      match check
      case ContentNotFound => r := Failed(DownloadStep);
      case LedgerRecordNotFound => r := Failed(LedgerReadStep);
      case Checked(isValid, _, _, _, timestamp) => r := Tested(videoId, hash, isValid, timestamp);
  }
}
