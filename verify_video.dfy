/**
  `node verify-video.js <videoId>`: verify the stored copy of a video and
  return the comparison. Each error exits with status 1 after its own
  message; a completed comparison, authentic or tampered, returns.
 */
module VerifyVideoCli {
  import opened Integrity
  import opened Verification
  import opened Cli

  /** The object the script returns. */
  datatype VideoReport = VideoReport(valid: bool, tampered: bool, videoId: string,
                                     currentHash: string, storedHash: string, timestamp: nat)

  datatype VerifyOutcome = Exited(message: Message) | Returned(report: VideoReport)
  {
    /** `process.exit(1)` on every error; a returned report ends the run normally. */
    function ExitCode(): nat
    {
      if Exited? then 1 else 0
    }
  }

  function VerifyVideo(h: Hasher, store: map<string, Bytes>, ledger: map<string, LedgerEntry>,
                       arg: Option<string>): (r: VerifyOutcome)
    ensures r == Exited(Usage) <==> !Given(arg)
    ensures r == Exited(NotInDatabase) <==> Given(arg) && StoreKey(arg.value) !in store
    ensures r == Exited(NotOnBlockchain) <==> Given(arg) && StoreKey(arg.value) in store && arg.value !in ledger
    ensures r.Returned? <==> Given(arg) && StoreKey(arg.value) in store && arg.value in ledger
    ensures r.ExitCode() == 0 <==> r.Returned?
    ensures r.Returned? ==>
      && Given(arg) && StoreKey(arg.value) in store && arg.value in ledger
      && r.report.videoId == arg.value
      && r.report.currentHash == h(store[StoreKey(arg.value)])
      && r.report.storedHash == ledger[arg.value].digest
      && r.report.timestamp == ledger[arg.value].timestamp
      && (r.report.valid <==> r.report.currentHash == r.report.storedHash)
      && r.report.tampered == !r.report.valid
  {
    if !Given(arg) then Exited(Usage)
    else
      var videoId := arg.value;
      match VerifyRemote(h, store, ledger, videoId)
      case ContentNotFound => Exited(NotInDatabase)
      case LedgerRecordNotFound => Exited(NotOnBlockchain)
      case Checked(valid, tampered, currentHash, storedHash, timestamp) =>
        Returned(VideoReport(valid, tampered, videoId, currentHash, storedHash, timestamp))
  }
}
