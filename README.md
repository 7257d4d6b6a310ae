# Video integrity: register, store, ledger, verify

A Dafny model of the protocol behind the video integrity scripts. Registering
a video hashes its bytes (SHA-256, hex). The bytes are uploaded to the content
store as `<videoId>.mp4` (Supabase bucket `videos`). Then the digest is
written to the ledger under `videoId` (the `registerVideo` call of the
blockchain contract). Verifying a video recomputes the digest, either of the
stored copy or of a local file. It reads `(storedHash, timestamp)` back with
`getVideo`. It reports `valid` exactly when the two digests are equal as
strings (`===`), and `tampered` as the negation.

The model follows the repository's six entry points:

- `integrity.dfy` (`Integrity`): bytes, the digest as a parameter `h`, ledger
  records, the store key `id + ".mp4"` and why distinct ids give distinct keys.
- `verification.dfy` (`Verification`): the pure verdict functions (remote,
  local, and the read-back of the pipelines) and the lemmas about them:
  tamper detection, the register-then-verify round trip, isolation between
  ids, stability of a verdict while the state only grows.
- `services.dfy` (`Services`): the class `IntegritySystem`. Its fields `store`
  and `ledger` are the two external maps. Its methods are the upload, the
  ledger write, and the register pipeline that runs them in order.
- `cli.dfy` (`Cli`): how scripts read `process.argv` (`!arg` rejects an
  absent and an empty argument) and how a verdict becomes an exit status.
- `server.dfy`, `process_video.dfy`, `test_video.dfy`, `verify_video.dfy`,
  `verify.dfy`, `verify_local.dfy`: one module per script.

Inputs the scripts get from outside become parameters:

- the digest function `h: Bytes -> string` (only determinism is assumed);
- the generated `crypto.randomUUID()` (`videoId`);
- the local file system (`files`, a map from path to bytes);
- the answers of the external calls: whether the store accepts the upload,
  whether the ledger transaction is confirmed (with its hash and block time),
  and, in the two pipelines, whether the download and the `getVideo` of the
  read-back go through.

Verification functions take the store and ledger maps as values. So the
remote and local checks only read, by construction.

Policies the source leaves to its collaborators, chosen here:

- The store never overwrites. An upload to a name that is already taken fails,
  as the Supabase client does without `upsert`.
- The ledger is append-only. A write for an id that already has a record
  fails; the old record stays.
- A failed download is treated as absent content, and a failed `getVideo` as
  an absent record. The source itself folds `downloadError || !data` into one
  branch.

The comparison is `===` on the hex strings, and nothing is case-normalised.
The 500 reply for a failed ledger write carries only the error message, not
the generated id; the model's `ServerError` carries nothing more.

## Model

| member | source | states |
|---|---|---|
| `Integrity.StoreKeyDistinct` | server.js:82-84 | distinct video ids name distinct stored objects (`id + ".mp4"`), so one id's upload never touches another id's content |
| `Verification.VerifyLocal` | verify-local.js:32-58 | never reports missing content; reports a missing ledger record exactly when the id has none; otherwise `currentHash` is the digest of the given bytes, `storedHash`/`timestamp` are the ledger's, `valid` iff they are equal, `tampered == !valid` |
| `Verification.VerifyRemote` | server.js:81-113 | hashes the downloaded copy, reads the ledger record and compares: content missing exactly when `id + ".mp4"` is absent from the store; ledger record missing exactly when the content is present and the id has no record, never a `valid:false`; with both present, a comparison where `currentHash` is the digest of the stored bytes, `valid` iff it equals the ledger digest, `tampered == !valid` |
| `Verification.ReadBack` | process-video.js:144-163 | the pipelines' read-back: a failed download gives content-not-found before any ledger read; a failed lookup gives record-not-found; with both calls working it is exactly remote verification |
| `Verification.MissingContentIgnoresLedger` | server.js:86-91 | with no stored content the outcome is content-not-found whatever the ledger holds: the ledger is not consulted |
| `Verification.RemoteIsLocalOfStoredCopy` | verify-video.js:36-72 | downloading, hashing the stored copy, `getVideo` and comparing (the remote formulation) agree with local verification of the downloaded bytes |
| `Verification.RegisteredVerifiesAuthentic` | test-video.js:46-94 | bytes stored under `id + ".mp4"` with their digest recorded under `id` verify as `valid`, not `tampered`, with both hashes equal to the digest and the ledger's timestamp |
| `Verification.ReplacementDetected` | server.js:96-117 | for a collision-free digest, replacing the stored copy of a registered video by different bytes yields `tampered` with `currentHash` differing from the ledger digest |
| `Verification.OtherVerdictsUnaffected` | server.js:37-59 | writing one id's content, and also its ledger record, leaves the verdict of every other id unchanged |
| `Verification.CheckedVerdictStable` | server.js:77-124 | while the store and the ledger only grow, a verdict that reached a comparison is reached again: verification is recomputed from state, and nothing cached changes it |
| `Services.IntegritySystem.Upload` | server.js:47-55 | the upload succeeds iff the store accepts it and the name is free; on success the store gains exactly that blob, on failure it is unchanged |
| `Services.IntegritySystem.RegisterVideo` | server.js:58-59 | the write succeeds iff the transaction is confirmed and the id has no record; on success the ledger gains `(digest, block time)` for the id and the transaction hash is returned, on failure it is unchanged |
| `Services.IntegritySystem.Register` | server.js:37-59 | upload, then ledger write. Upload failure changes nothing and skips the ledger write. Ledger failure keeps the blob (no compensating delete), changes no record, and a later verify of a new id reports record-not-found. Success stores the bytes and records their digest, and the id then verifies as authentic. No other id's verdict changes; store and ledger only grow |
| `Cli.ExitFor` | verify.js:25-76 | status 0 exactly for an authentic verdict, 1 otherwise; the distinct messages match content missing, record missing, authentic and tampered one-to-one |
| `Server.HandleUpload` | server.js:31-72 | 400 with nothing touched when no file is sent; 500 with nothing touched when the upload fails; 500 with the blob kept and no ledger record when the ledger write fails; 200 exactly when a file is sent, the upload is accepted under a free name and the ledger write is confirmed for a new id; on 200 the returned `videoId` and `hash` are the store key's id and the digest recorded on the ledger, and that video verifies as authentic |
| `Server.HandleVerify` | server.js:77-129 | replies with remote verification; 404 exactly when the content or the ledger record is missing, 200 with `valid` iff the digests are equal and `tampered == !valid` otherwise |
| `ProcessVideoCli.ProcessVideo` | process-video.js:21-213 | a missing path or missing file stops before any store or ledger call. An upload error skips the ledger write. Each failing step yields only its own failure, never a partial summary. The ledger records the digest of the same buffer that was uploaded, under the same id as the store key. A failed download or `getVideo` after registration leaves the stored blob and the ledger record in place (no rollback). A summary is returned exactly when every step succeeds; it has `hash` equal to that digest, `valid`, and `tampered == !valid` |
| `TestVideoCli.VideoPath` | test-video.js:12 | an absent or empty argument selects `./video/test.mp4`, any other argument is used as given |
| `TestVideoCli.TestVideo` | test-video.js:12-118 | a missing file stops before any call. An upload error skips the ledger write. A ledger error is rethrown before the read-back. A failed download is an error, never a verdict. After a failed download or `getVideo` the blob and the ledger record stay in place. The immediate verification of the just-registered bytes is valid, with the ledger's timestamp |
| `VerifyVideoCli.VerifyVideo` | verify-video.js:17-110 | a missing id, missing content and a missing record each exit with status 1 and their own message, the content check first. A report is returned exactly when the id is given and both content and record exist, tampered or not. It holds the digest of the downloaded bytes, the ledger digest and timestamp, `valid` iff they are equal and `tampered == !valid`, and the run ends with status 0 |
| `VerifyCli.Verify` | verify.js:11-81 | a missing id, missing content, missing record, authentic and tampered each give their own message, exactly under the stated conditions; status 0 iff authentic |
| `VerifyCli.StatusConflatesFailures` | verify.js:32-76 | for a given id the status is 1 exactly when the video or record is missing or the video is tampered: by status alone these cannot be told apart |
| `VerifyLocalCli.VerifyLocalVideo` | verify-local.js:11-79 | path and id are both required and the file must exist, all checked before the ledger lookup; the digest is of the local bytes and the store is never consulted; a missing record gets its own message; status 0 iff the local digest equals the ledger digest |
| `VerifyLocalCli.LocalMatchesRemote` | verify-local.js:32-74 | a local file with the same bytes as the stored copy gets the same report and status as `verify.js` for that id |

## Left out

- SHA-256 itself: the digest is a parameter, and only determinism is assumed. Sensitivity to single-bit changes cannot be proved; `Verification.ReplacementDetected` assumes a collision-free digest instead.
- `crypto.randomUUID()`: the id is a parameter. Nothing checks it against the ledger, as in the source. A reused id runs into the chosen policies: the store refuses a taken name, the ledger refuses a second record.
- What `getVideo` returns for an unknown id, and whether `registerVideo` rejects duplicates, are decided by the ledger contract, whose code is not part of this model. Unknown ids are modelled as "not found"; duplicates as rejected.
- Bucket provisioning (process-video.js:84-100), client construction (blockchain.js, supabaase.js), configuration loading and the setup checks of check-setup.js and setup-bucket.js.
- calculate-hash.js: it only prints the digest.
- Console output, the MB size formatting and the rendering of the timestamp as a date. The timestamp is passed through as a number.
- HTTP and runtime plumbing: Express and multer, the temp directory and the unlink of the temp file, `process.exit` (modelled as the returned status), async latency, and transaction receipts (block number, gas).
- Errors thrown by code the model does not enter, each of which ends in the scripts' generic catch: a failing `readFileSync` on an existing path, a failing `arrayBuffer()`.
- ProcessVideoCli.ProcessVideo, TestVideoCli.TestVideo: the read-back runs on the state just written, and no other client runs in between. So a completed re-verification is always valid. A change to the store between the steps, which only another client could make, is not modelled.
- Concurrent requests: each operation is one sequential run against the two maps.
