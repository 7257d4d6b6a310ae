/**
  `node verify-local.js <path> <videoId>`: verify a file on disk against
  the ledger record of a video; the content store is not involved.
 */
module VerifyLocalCli {
  import opened Integrity
  import opened Verification
  import opened Cli
  import VerifyCli

  function VerifyLocalVideo(h: Hasher, files: map<string, Bytes>, ledger: map<string, LedgerEntry>,
                            pathArg: Option<string>, idArg: Option<string>): (r: Exit)
    ensures r.message == Usage <==> !Given(pathArg) || !Given(idArg)
    ensures r.message == FileNotFound <==> Given(pathArg) && Given(idArg) && pathArg.value !in files
    ensures r.message == NotOnBlockchain <==>
      Given(pathArg) && Given(idArg) && pathArg.value in files && idArg.value !in ledger
    ensures r.message == Authentic <==>
      Given(pathArg) && Given(idArg) && pathArg.value in files && idArg.value in ledger
      && h(files[pathArg.value]) == ledger[idArg.value].digest
    ensures r.message == TamperedWarning <==>
      Given(pathArg) && Given(idArg) && pathArg.value in files && idArg.value in ledger
      && h(files[pathArg.value]) != ledger[idArg.value].digest
    ensures r.message != NotInDatabase
    ensures r.code == 0 <==> r.message == Authentic
    ensures r.code <= 1
  {
    if !Given(pathArg) || !Given(idArg) then Exit(1, Usage)
    else if pathArg.value !in files then Exit(1, FileNotFound)
    else ExitFor(VerifyLocal(h, ledger, idArg.value, files[pathArg.value]))
  }

  /**
    A local file with the same bytes as the stored copy gets the same
    verdict, and the same status, as remote verification of that id.
   */
  lemma LocalMatchesRemote(h: Hasher, files: map<string, Bytes>, store: map<string, Bytes>,
                           ledger: map<string, LedgerEntry>, path: string, id: string)
    requires path != "" && id != ""
    requires path in files && StoreKey(id) in store && files[path] == store[StoreKey(id)]
    ensures VerifyLocalVideo(h, files, ledger, Some(path), Some(id)) == VerifyCli.Verify(h, store, ledger, Some(id))
  {
  }
}
