/**
  `node verify.js <videoId>`: verify the stored copy of a video; the exit
  status is the verdict.
 */
module VerifyCli {
  import opened Integrity
  import opened Verification
  import opened Cli

  function Verify(h: Hasher, store: map<string, Bytes>, ledger: map<string, LedgerEntry>, arg: Option<string>): (r: Exit)
    ensures r.message == Usage <==> !Given(arg)
    ensures r.message == NotInDatabase <==> Given(arg) && StoreKey(arg.value) !in store
    ensures r.message == NotOnBlockchain <==> Given(arg) && StoreKey(arg.value) in store && arg.value !in ledger
    ensures r.message == Authentic <==>
      Given(arg) && StoreKey(arg.value) in store && arg.value in ledger
      && h(store[StoreKey(arg.value)]) == ledger[arg.value].digest
    ensures r.message == TamperedWarning <==>
      Given(arg) && StoreKey(arg.value) in store && arg.value in ledger
      && h(store[StoreKey(arg.value)]) != ledger[arg.value].digest
    ensures r.message != FileNotFound
    ensures r.code == 0 <==> r.message == Authentic
    ensures r.code <= 1
  {
    if !Given(arg) then Exit(1, Usage)
    else ExitFor(VerifyRemote(h, store, ledger, arg.value))
  }

  /**
    By its status alone a run cannot tell a missing video or record from
    a tampered one: all of them exit with 1.
   */
  lemma StatusConflatesFailures(h: Hasher, store: map<string, Bytes>, ledger: map<string, LedgerEntry>, id: string)
    requires id != ""
    ensures Verify(h, store, ledger, Some(id)).code == 1 <==>
      (!VerifyRemote(h, store, ledger, id).Checked? || VerifyRemote(h, store, ledger, id).tampered)
  {
  }
}
