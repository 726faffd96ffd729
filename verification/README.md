# Certificate installer, one-time codes and small protocols: a verified model

This project models the parts of the OnPrem AI Gateway and its server agent whose correctness
rests on many steps together, and proves what those steps promise.

- **The certificate installer of the server agent** (`server-agent/internal/certinstall`). A Sync
  reads the certificate directory, makes a conditional GET, decides, stages up to five temp files,
  renames them one by one with `privkey.pem` last, stores the etag memo and runs the reload hook.
  Every step can fail and the process can die between any two. `Pem.dfy` holds the PEM texts,
  `AtomicWriter.dfy` the batch of renames, `CertSync.dfy` the effect of one Sync as functions,
  `CertEndings.dfy` its ending and its report in terms of the answer, the directory and the faults,
  `Installer.dfy` the installer as a class proved to have that effect, `CertRuns.dfy` the theorems
  about whole runs, and `CertAgent.dfy` the polling that makes a run of the class a run of the
  model. Where a guarantee ends is stated exactly: `CertLimits.dfy` for interrupted installs,
  `CertStale.dfy` for cert.pem and chain.pem beside the installed pair, `CertReturn.dfy` for a gateway
  that serves an earlier response again, `CertReloads.dfy` for the number of reloads, and
  `CertSamples.dfy` with a concrete run for each failure.
- **One-time codes** (`Powers.dfy`, `JsNumbers.dfy`, `Base32.dfy`, `Decimal.dfy`, `Totp.dfy`): base32
  decoding in a 32-bit register that overflows, dynamic truncation in signed 32-bit arithmetic, the
  generator of the end-to-end tests and the gateway's own verifier.
- **Small stateful pieces**: the stream holds (`StreamHolds.dfy`), the bounded output buffer
  (`BoundedBuffer.dfy`), the retry loop (`Retry.dfy`), the composite collectors
  (`Collectors.dfy`) and the rate formatter (`RateFormat.dfy`).

`dafny verify dfyconfig.toml` checks everything.

## How the installer is modelled

A PEM text is a sequence of items: an armoured block with its layout, or one character outside any
block. What X.509 and key parsing find in a block is part of the block. SHA-256 is symbolic, so it
is injective. The gateway answers 304 exactly when the If-None-Match value it is sent is the
validator of what it serves (section 13.1.2 of RFC 9110). Faults are parameters: where staging and
renaming stop, by a failing step or by the death of the process, and what becomes of the stale-file
removal, the memo and the hook. After a death the returned report and ending only describe the
directory that is left. A Sync keeps nothing in memory, so a restart is the next Sync.

Conditions the run theorems need, each a named predicate:

- `AllHonest`: the served fingerprint is that of the served leaf. The code does not recompute it.
  `HealsExactly` says exactly when a Sync heals without it, and `ReloadsForOneResponse` exactly when
  the reloads loop: a foreign fingerprint alone does not do it, only together with the lack of a
  validator.
- `NoReturn`: an etag names one leaf and bundle and does not come back; times at which nothing is
  served do not matter. The gateway's own etag comes back whenever a bundle does
  (`gateway/backend/internal/portal/service_agent_cert.go:121-126`). `NotModifiedSoundExactly` needs
  none of this, nor honest fingerprints: 304 is sound throughout a run exactly if no Sync of it is a
  `Falsifies`. `FalseMemoIsFinal` says that the harm then stays.
- `FreshKeys`: a new chain brings a new key; and `MultiBlock`: every chain has more than one
  certificate. They are sufficient for a usable pair to vouch for `cert.pem` and `chain.pem`.
  `PairingProvesExactly` needs neither: the pair vouches for them throughout a run exactly if no Sync
  of it is a `Stales`. `StalePartIsFinal` and `StaleCertRepairedExactly` say when the harm stays.

Where comments of the source promise more than the code does, the model follows the code:

- A failed install is said to leave what was installed before untouched
  (`server-agent/internal/agent/agent.go:1384-1386`). This holds for failing stages, and for failing
  renames exactly if every file renamed so far was already there: `FailedInstallUntouchedExactly`,
  `FailedInstallLeavesTraces`. The pair that was installed may even be broken: `BrokenPairExists`.
- A reload can be lost for good although the new files are installed, by a death or by a failing
  rename that comes after the directory already agrees: `LostReloadExactly`, `LostReloadExists`,
  `LostReloadByFailedRename`.
- The code of five minutes ago is said to be always rejected
  (`gateway/e2e/e2e-totp/totp.ts:42-43`). It may collide: `WrongCodeAcceptedExactly`,
  `WrongCodeMayBeAccepted`.
- A rate is said never to be shown too high (`gateway/frontend/src/audioFigures.ts:28-31`). Within
  the allowance it is: `ShownAboveExactly`, `GateMissedButShown`.

## Model

| member | source | states |
|---|---|---|
| `Pem.Decode` | server-agent/internal/certinstall/install.go:116-126 | the first block and a strictly shorter remainder that holds exactly the other blocks; nothing exactly when there is no block |
| `Pem.SplitKeepsBlocks` | server-agent/internal/certinstall/install.go:199-220 | leaf and rest together are all blocks in order; the standalone leaf has the fingerprint and the pairing of the chain; when either part is empty |
| `Pem.PairsExactly` | server-agent/internal/certinstall/install.go:111-172 | chain and key pair exactly if their first blocks are a certificate and a private key for the same comparable public key |
| `Pem.SplitChain` | server-agent/internal/certinstall/install.go:204-220 | the scanning loop terminates and yields the first block and the others, re-encoded |
| `Pem.ReportedIffPresent` | server-agent/internal/certinstall/install.go:174-197 | a certificate is reported exactly when it is a block of the file, and nothing else is reported |
| `Pem.ReportedInOrder` | server-agent/internal/certinstall/install.go:177-197 | the certificates are reported in the order of the blocks, one for each |
| `Pem.ReadCAFingerprints` | server-agent/internal/certinstall/install.go:177-197 | the loop yields the fingerprints of the certificate blocks in order, skipping the others; nothing without a file |
| `AtomicWriter.PrefixExactly` | server-agent/internal/certinstall/atomic.go:108-126 | wherever the renames stop, exactly the first k files are new and all others are as before |
| `AtomicWriter.WholeBatchIsOneUpdate` | server-agent/internal/certinstall/atomic.go:114-126 | with no fault the loop of renames is one map update |
| `AtomicWriter.Directory.WriteTemp` | server-agent/internal/certinstall/atomic.go:55-75 | a fresh temp file with the content, or no trace of it |
| `AtomicWriter.Writer.Stage` | server-agent/internal/certinstall/atomic.go:98-106 | the write joins the batch; a failure removes every temp file of the batch and touches no final file |
| `AtomicWriter.Writer.Commit` | server-agent/internal/certinstall/atomic.go:114-126 | the final files are the prefix up to the fault; after a failure or success no temp file of the batch is left, after a death only those not renamed |
| `AtomicWriter.Writer.Abort` | server-agent/internal/certinstall/atomic.go:129-134 | exactly the temp files of the batch go |
| `CertSync.MemoReadsBack` | server-agent/internal/gwapi/gwapi.go:120-128 | the validator that is stored is read back verbatim through the trimming of the memo file |
| `CertSync.TrimExactly` | server-agent/internal/gwapi/gwapi.go:120-123 | trimming takes away exactly the white space around a text |
| `CertSync.SpacesOfGo` | server-agent/internal/gwapi/gwapi.go:121-121 | which characters are white space there and which are not |
| `CertSync.ETagExactly` | server-agent/internal/gwapi/gwapi.go:112-128 | the trimmed header wins; only without one the field, in quotes; without either nothing |
| `CertSync.BatchOrder` | server-agent/internal/certinstall/install.go:246-265 | the batch has distinct names, the chain first, the leaf second, the key last, issuers and bundle only when there are any |
| `CertSync.AfterRenames` | server-agent/internal/certinstall/install.go:246-268 | after k renames a file is new if its position is below k and as before if not |
| `CertSync.ChangedIffDisagrees` | server-agent/internal/certinstall/fetch.go:155-157 | the three-way test says "changed" exactly when the directory is not paired, or has another leaf, or lacks a served bundle |
| `CertSync.PassiveKeepsFiles` | server-agent/internal/certinstall/fetch.go:100-141 | every ending but a decoded, paired 200 leaves all files unchanged, and those endings are exactly the other answers |
| `CertSync.FileAfterDelivery` | server-agent/internal/certinstall/fetch.go:143-169 | what a Sync does to each final file under any faults: new if renamed, else as before, only a stale chain.pem may go |
| `CertSync.BundleSurvives` | server-agent/internal/certinstall/install.go:227-229 | no Sync removes or empties ca.pem; it holds the old bundle or the served one |
| `CertSync.CompleteInstall` | server-agent/internal/certinstall/install.go:237-277 | a complete install puts every served part in place and leaves the memo alone |
| `CertSync.HealsExactly` | server-agent/internal/certinstall/fetch.go:143-169 | from any directory at the re-read, a fault-free Sync on a paired 200 ends paired, and in agreement if and only if the fingerprint is honest or it agreed before; it installs exactly when it did not agree |
| `CertSync.UnpairedAsksUnconditionally` | server-agent/internal/certinstall/fetch.go:94-98 | a conditional request is sent only by a paired directory, with its own memo |
| `CertSync.AgreementIsIdle` | server-agent/internal/certinstall/fetch.go:151-161 | where the directory agrees, no answer and no fault changes a final file or runs the hook |
| `CertSync.ReportTellsWhatWasServed` | server-agent/internal/certinstall/install.go:35-48 | a Sync that gets through reports the served leaf and the roots of the served bundle |
| `CertSync.ReportReadsAsDecided` | server-agent/internal/certinstall/install.go:39-45 | the report and the decision read the same leaf, and the standalone leaf has the same fingerprint |
| `CertEndings.EndsExactly` | server-agent/internal/certinstall/fetch.go:131-169 | for every answer, directory and fault: an error exactly if an install is due and making the directory, one of its stages or one of its renames fails; unchanged, installed or cut short by a death exactly otherwise, and never cut short without one |
| `CertEndings.PassiveEndsExactly` | server-agent/internal/certinstall/fetch.go:100-141 | each of the other endings exactly for its own answers |
| `CertEndings.StagingTouchesNothing` | server-agent/internal/certinstall/install.go:238-265 | a directory that cannot be made and staging that stops touch no final file |
| `CertEndings.ReportExactly` | server-agent/internal/certinstall/install.go:35-48 | the fingerprint and the expiry are those of exactly the certificate that fullchain.pem starts with, the roots those of ca.pem, and nothing of a file that is not there |
| `CertEndings.OffReportsNothing` | server-agent/internal/certinstall/install.go:36-38 | switched off, all fields but the mode are empty |
| `CertEndings.ReportTellsExpiry` | server-agent/internal/certinstall/install.go:39-45 | a Sync that gets through reports the expiry of the served leaf |
| `Installer.CertInstaller.CurrentReport` | server-agent/internal/certinstall/install.go:35-48 | the report of the directory as it is |
| `Installer.CertInstaller.StageAll` | server-agent/internal/certinstall/install.go:246-265 | the whole batch is staged, or nothing is left of it, for every fault position |
| `Installer.CertInstaller.Install` | server-agent/internal/certinstall/install.go:237-277 | files and result for every fault; old temp files stay, and new ones remain only after a death |
| `Installer.CertInstaller.SaveETagSidecar` | server-agent/internal/certinstall/atomic.go:141-158 | the memo is replaced or left; an empty value does nothing; no temp file is left |
| `Installer.CertInstaller.Sync` | server-agent/internal/certinstall/fetch.go:89-170 | the directory and the ending for every answer, interference and fault; an error exactly for a failing step of an install that is due; switched off nothing is touched; the report is that of the final directory on every path; the hook runs exactly on an install; without a death no temp file is left |
| `CertAgent.Poll` | server-agent/internal/agent/agent.go:1363-1374 | Syncs one after the other have the directory and the hook count of the run, and leave no temp file unless the process died in one |
| `CertRuns.SyncShape` | server-agent/internal/certinstall/fetch.go:94-141 | a Sync does nothing at all or acts on the served response, which then paired and was not matched by the memo |
| `CertRuns.DeathsExactly` | server-agent/internal/agent/agent.go:1363-1374 | the count of deaths is zero exactly if no Sync of the run is cut short |
| `CertRuns.NoDeaths` | server-agent/internal/agent/agent.go:1363-1374 | it is zero if the process meets none |
| `CertRuns.Provenance` | server-agent/internal/certinstall/fetch.go:131-141 | in every run each installed file is what the response of the last Sync that renamed it gives it, and that response paired |
| `CertRuns.TrustBundlePersists` | server-agent/internal/certinstall/install.go:227-229 | once there, ca.pem is never removed or emptied in any run, and it is the bundle of the last response whose ca.pem rename happened |
| `CertRuns.Sandwich` | server-agent/internal/certinstall/atomic.go:108-126 | in every run with any faults fullchain.pem is never older than cert.pem, nor that than chain.pem, ca.pem and privkey.pem, nor chain.pem than privkey.pem |
| `CertRuns.PairedMeansConsistent` | server-agent/internal/certinstall/install.go:73-82 | in every run, pairing of only the first and last file proves that cert.pem and chain.pem belong to that same chain |
| `CertRuns.MemoStep` | server-agent/internal/certinstall/fetch.go:158-167 | one Sync keeps the memo truthful, whatever fails |
| `CertRuns.MemoInvariant` | server-agent/internal/certinstall/install.go:73-82 | in every run the memo is an etag once served, and if it is the one served last the directory agrees |
| `CertRuns.NotModifiedIsSound` | server-agent/internal/certinstall/fetch.go:94-109 | in every run with any faults, deaths and lost memo writes, a 304 means that the directory agrees with what is served |
| `CertRuns.NeverWedged` | server-agent/internal/certinstall/install.go:73-79 | after any run one clear, fault-free Sync ends in agreement with what is served |
| `CertRuns.NoReloadLoop` | server-agent/internal/certinstall/fetch.go:151-169 | in every run the hook runs at most once per change of the delivered leaf or bundle, and once less while the directory lags behind |
| `CertRuns.ReloadsBoundedByServing` | server-agent/internal/certinstall/fetch.go:151-169 | the same bound by the changes of what the gateway serves |
| `CertRuns.OneServingCountsOnce` | server-agent/internal/certinstall/fetch.go:151-157 | a gateway that sticks to one leaf and bundle counts as one change, so it costs at most one reload |
| `CertRuns.ServingsAddUp` | server-agent/internal/certinstall/fetch.go:151-157 | the changes of a run are at most those of its pieces together |
| `CertRuns.SteadyStateIsNotModified` | server-agent/internal/certinstall/fetch.go:158-169 | after a fault-free Sync the next request for the same response is answered 304 and changes nothing |
| `CertLimits.AgreementIsFinal` | server-agent/internal/certinstall/fetch.go:151-161 | no run on the same leaf and bundle, empty bundles included, ever installs or reloads again |
| `CertLimits.FailedInstallUntouchedExactly` | server-agent/internal/agent/agent.go:1384-1386 | a failed install leaves the directory untouched if and only if each file it got to rename was already there with that content |
| `CertLimits.InterruptedPairExactly` | server-agent/internal/certinstall/atomic.go:108-126 | an interrupted install leaves a usable pair exactly if nothing was renamed and there was one, or the new leaf fits the old key |
| `CertLimits.AgreesAfterExactly` | server-agent/internal/certinstall/fetch.go:144-157 | after how many renames the directory agrees, for every directory and response; never with a foreign fingerprint |
| `CertLimits.LostReloadExactly` | server-agent/internal/certinstall/fetch.go:163-169 | a reload is lost exactly when the fingerprint is honest and the install stops before the hook but not before the rename that brings agreement |
| `CertLimits.LostReloadIsFinal` | server-agent/internal/certinstall/atomic.go:217-233 | no later run on the same material ever makes up for it |
| `CertLimits.ConvergesExactly` | server-agent/internal/certinstall/fetch.go:94-109 | from any directory one clear Sync ends in agreement exactly if it agreed before, or the fingerprint is honest and no usable pair has a memo that names the response |
| `CertStale.PartAfterDelivery` | server-agent/internal/certinstall/install.go:246-277 | from any directory and under any faults, a delivery that renames something leaves cert.pem or chain.pem of another chain beside a usable pair exactly if the new leaf meets a key that fits it and the part is neither renewed nor right already; one that renames nothing leaves it as it was |
| `CertStale.StaleCertExactly` | server-agent/internal/certinstall/install.go:246-252 | spelled out for cert.pem, from any directory and for every stopping point: exactly after one rename with a key that fits and another cert.pem |
| `CertStale.StaleChainExactly` | server-agent/internal/certinstall/install.go:253-275 | spelled out for chain.pem, for every delivery: before the third rename of a longer chain, or without the removal for a single certificate |
| `CertStale.LastInstallDecides` | server-agent/internal/certinstall/fetch.go:143-169 | in every run from any directory, at every moment, the last Sync that renamed anything decides whether the pair vouches for the part |
| `CertStale.PairingProvesExactly` | server-agent/internal/certinstall/install.go:73-82 | in every run, whatever is served and fails, pairing of only the first and last file proves cert.pem or chain.pem at every moment if and only if no Sync leaves it stale |
| `CertStale.StalePartIsFinal` | server-agent/internal/certinstall/fetch.go:151-161 | a stale part in a directory that agrees is never repaired by a run on the same material |
| `CertStale.StaleCertIsFinal` | server-agent/internal/certinstall/fetch.go:151-161 | so it is with the stale cert.pem of a reused key, from any directory, if the bundle is there already |
| `CertStale.StaleCertRepairedExactly` | server-agent/internal/certinstall/fetch.go:151-169 | from any directory, after one clear Sync it is still stale exactly if the directory agreed or its memo named the response |
| `CertReturn.TruthStep` | server-agent/internal/certinstall/fetch.go:143-169 | from any directory, under any faults and for any two responses, a 304 for one is sound after the delivery of the other exactly unless the memo then names it and the usable pair then there has another leaf or bundle, both read off the directory, the batch and the faults |
| `CertReturn.NotModifiedSoundExactly` | server-agent/internal/certinstall/fetch.go:94-109 | in every run, with any faults and a gateway that serves what it likes, foreign fingerprints and reused etags included, a 304 is sound at every moment for every response if and only if no Sync is such a delivery |
| `CertReturn.NotModifiedIsSoundUndisturbed` | server-agent/internal/certinstall/fetch.go:94-109 | with honest fingerprints and etags that name one leaf and bundle it is enough that each delivery renames nothing, leaves no usable pair, or gets through to its memo |
| `CertReturn.ForeignMemoStartsSound` | server-agent/internal/certinstall/fetch.go:94-98 | a directory whose memo is none of the etags served, the empty one included, makes no 304 unsound |
| `CertReturn.FalseMemoIsFinal` | server-agent/internal/certinstall/fetch.go:108-109 | behind an unsound 304 no run on that validator changes a file or agrees again |
| `CertReturn.ReturningGatewayWedges` | server-agent/internal/certinstall/fetch.go:108-109 | a gateway returning to an earlier etag after a death leaves the directory wrong for any number of Syncs |
| `CertReturn.WedgingRunFalsifies` | server-agent/internal/certinstall/fetch.go:108-109 | the exact condition fails on that run |
| `CertReloads.ReloadsForOneResponse` | server-agent/internal/certinstall/install.go:50-55 | from any directory, a response served n times runs the hook not at all if it was settled, once if it has its own fingerprint or a validator, and n times if neither |
| `CertReloads.LagStep` | server-agent/internal/certinstall/fetch.go:151-169 | under any faults, a reload or a growing lag of one delivery is paid for by a change of the goal or by an interruption |
| `CertReloads.ReloadsFollowGoal` | server-agent/internal/certinstall/fetch.go:151-157 | in every run with any faults the reloads are at most the changes of leaf and non-empty bundle plus the interrupted deliveries, less the lag |
| `CertReloads.CompleteInstallsDoNotInterrupt` | server-agent/internal/certinstall/install.go:266-277 | a delivery that reaches its last rename is no interruption, whatever fails after it |
| `CertReloads.ReloadsCountGoals` | server-agent/internal/certinstall/fetch.go:151-169 | from a directory without a pair or bundle, Syncs that reach their hook run it exactly once per change: none too many and none missing |
| `CertReloads.InterruptedBundleReloadsTwice` | server-agent/internal/certinstall/fetch.go:151-157 | the bound is met: two reloads for one change and one interruption |
| `CertSamples.FailedInstallLeavesTraces` | server-agent/internal/agent/agent.go:1384-1386 | a failed install that does not leave the directory untouched |
| `CertSamples.BrokenPairExists` | server-agent/internal/certinstall/atomic.go:108-126 | a concrete run that breaks an installed pair, by a failing rename as well as by a death |
| `CertSamples.StaleCertExists` | server-agent/internal/certinstall/install.go:246-252 | a concrete run to a directory that agrees but has a stale cert.pem, by a failing rename as well as by a death |
| `CertSamples.StaleCertFromBrokenPair` | server-agent/internal/certinstall/install.go:246-252 | a concrete run to the same by way of a broken pair |
| `CertSamples.StaleChainExists` | server-agent/internal/certinstall/install.go:270-275 | a concrete run to a directory that agrees but has a stale chain.pem, after a shorter chain |
| `CertSamples.InterruptedChainExists` | server-agent/internal/certinstall/install.go:253-260 | the same with another issuer, after one or two renames |
| `CertSamples.LostReloadExists` | server-agent/internal/certinstall/fetch.go:163-169 | a concrete certificate for which the hook never runs after a death, for any number of later Syncs |
| `CertSamples.LostReloadByFailedRename` | server-agent/internal/certinstall/fetch.go:163-169 | the same after a failing rename |
| `CertSamples.DishonestGatewayLoops` | server-agent/internal/certinstall/install.go:50-55 | a concrete response for which every single Sync reinstalls and reloads |
| `CertSamples.ReturningGatewayExists` | server-agent/internal/certinstall/fetch.go:108-109 | two concrete responses with which a returning gateway leaves the directory wrong for any number of Syncs |
| `JsNumbers.OrDisjoint` | gateway/e2e/e2e-totp/totp.ts:34-38 | OR of bits that do not overlap is addition |
| `JsNumbers.ShiftIn5` | gateway/e2e/e2e-totp/totp.ts:16-16 | shifting five bits in is multiplication and addition modulo 2^32, for negative registers too |
| `Base32.RegisterStep` | gateway/e2e/e2e-totp/totp.ts:16-17 | the register keeps the last 32 bits of the unbounded number |
| `Base32.NextByte` | gateway/e2e/e2e-totp/totp.ts:18-21 | the byte that leaves the register is the next byte of the unbounded number |
| `Base32.DecodeClean` | gateway/e2e/e2e-totp/totp.ts:10-23 | the 32-bit loop equals decoding over unbounded integers, for texts of any length |
| `Base32.Base32Decode` | gateway/e2e/e2e-totp/totp.ts:8-24 | the decoder equals unbounded decoding of the cleaned text |
| `Base32.RefusedExactly` | gateway/e2e/e2e-totp/totp.ts:13-15 | a text is refused exactly for a character outside the alphabet and the first is named; otherwise every digit is its character's index |
| `Base32.CleanExactly` | gateway/e2e/e2e-totp/totp.ts:9-9 | cleaning goes character by character: spaces go, the others are mapped in order, and only the padding at the very end goes |
| `Base32.SpacesOfScript` | gateway/e2e/e2e-totp/totp.ts:9-9 | which characters are spaces there and which are not |
| `Base32.UnboundedInverts` | gateway/e2e/e2e-totp/totp.ts:10-23 | unbounded decoding inverts the digits of section 6 of RFC 4648 |
| `Base32.RoundTrip` | gateway/e2e/e2e-totp/totp.ts:8-24 | decoding inverts the encoder of section 6 of RFC 4648 on every byte string, whether padded in full, in part or not at all |
| `Base32.RoundTripAsTyped` | gateway/e2e/e2e-totp/totp.ts:8-24 | so does an encoded text in any mix of cases, with any spaces in between, padded or not |
| `Base32.SpaceAfterPadding` | gateway/e2e/e2e-totp/totp.ts:9-9 | a space after the padding keeps the padding in, and the text is refused |
| `Base32.StandardVectors` | gateway/e2e/e2e-totp/totp.ts:8-24 | the digits are those of the test vectors in section 10 of RFC 4648 |
| `Totp.BinIsTruncation` | gateway/e2e/e2e-totp/totp.ts:33-38 | all reads are in range and the signed value is the non-negative 31-bit number of section 5.3 of RFC 4226 |
| `Totp.StandardExample` | gateway/e2e/e2e-totp/totp.ts:33-38 | the truncation of the example in section 5.4 of RFC 4226 |
| `Totp.MessageSpells` | gateway/e2e/e2e-totp/totp.ts:30-31 | the eight bytes that are hashed spell the counter, most significant first |
| `Totp.CodeIsHotp` | gateway/e2e/e2e-totp/totp.ts:33-39 | a code is exactly six digits that spell that number modulo 10^6 |
| `Totp.TotpCode` | gateway/e2e/e2e-totp/totp.ts:27-40 | the code of the moment, or the error for a bad character or a counter out of range |
| `Totp.NoCodeExactly` | gateway/e2e/e2e-totp/totp.ts:13-31 | there is no code exactly for a character outside the alphabet, of which the first is named, or else for a counter out of range |
| `Totp.CounterOfSeconds` | gateway/e2e/e2e-totp/totp.ts:29-29 | milliseconds and whole seconds give the same step |
| `Totp.TimeWindow` | gateway/e2e/e2e-totp/totp.ts:42-46 | codes depend on the time only through its window; the wrong code is that of the counter exactly ten lower |
| `Totp.BothCodesAreHotp` | gateway/backend/internal/totp/totp.go:125-146 | the signed generator and the unsigned gateway compute the same code |
| `Totp.Verify` | gateway/backend/internal/totp/totp.go:58-90 | for any secret and code: accepted exactly if the secret is not empty, decodes, and the code is that of the step of the moment or one on either side; the early refusals refuse nothing else |
| `Totp.VerifiedExactly` | gateway/backend/internal/totp/totp.go:63-90 | an empty secret and one that does not decode accept no code, another exactly the three codes of its key |
| `Totp.ServerWraps` | gateway/backend/internal/totp/totp.go:79-90 | around the epoch the counter wraps in 64 bits |
| `Totp.GeneratedCodeIsAccepted` | gateway/e2e/e2e-totp/totp.ts:26-40 | the code generated from an encoded key, padded or not, is accepted for that key at every moment at most one step away |
| `Totp.IssuedSecretVerifies` | gateway/backend/internal/totp/totp.go:36-45 | for a secret as the gateway issues it, `Verify` accepts that code exactly if the secret is not empty |
| `Totp.WrongCodeAcceptedExactly` | gateway/e2e/e2e-totp/totp.ts:42-46 | for every secret that decodes and whenever it is verified, the wrong code of a moment is accepted exactly when its value collides with one of the three tried; when there is such a code |
| `Totp.WrongCodeInItsWindow` | gateway/e2e/e2e-totp/totp.ts:42-46 | in the window it is made in, the three are the counters nine, ten and eleven steps ahead |
| `Totp.WrongCodeMayBeAccepted` | gateway/e2e/e2e-totp/totp.ts:42-46 | an HMAC for which it is accepted, for every secret that decodes, whenever made and verified |
| `StreamHolds.StepKeepsInv` | gateway/e2e/e2e/stream-stub.ts:36-72 | every single event keeps the invariant |
| `StreamHolds.EveryInterleaving` | gateway/e2e/e2e/stream-stub.ts:36-72 | in every interleaving the k-th pause that finds a hold has the k-th armed hold, a hold is reached exactly when taken, armed = taken + queued, the counter is the number of open pauses, and none ends before its own release or timer |
| `StreamHolds.ResumeIsIndependent` | gateway/e2e/e2e/stream-stub.ts:61-68 | a settled pause can finish whatever the others wait for, and changes nothing for them |
| `StreamHolds.StateExactly` | gateway/e2e/e2e/stream-stub.ts:36-72 | the state has as many holds as were asked for, the time that has passed, and as released the holds released after they were armed |
| `StreamHolds.PauseTakesHold` | gateway/e2e/e2e/stream-stub.ts:53-60 | a pause takes a hold exactly while more are armed than taken |
| `StreamHolds.HoldHolds` | gateway/e2e/e2e/stream-stub.ts:61-68 | whatever happens, until its hold is released or 15000 ms have passed, a pause is not over and cannot be resumed |
| `StreamHolds.ReleaseLetsGo` | gateway/e2e/e2e/stream-stub.ts:61-68 | once its hold has been released, a pause ends whenever it is resumed |
| `StreamHolds.NothingHeldForever` | gateway/e2e/e2e/stream-stub.ts:11-16 | from every reachable state, with no release, the safety time ends with nothing held |
| `StreamHolds.ResumedInTheEnd` | gateway/e2e/e2e/stream-stub.ts:11-16 | in every continuation, a pause resumed once after the safety time is over in the end, released or not |
| `StreamHolds.Replay` | gateway/e2e/e2e/stream-stub.ts:36-72 | any sequence of calls on the object, with any passing of time, has the state of the run |
| `StreamHolds.Holds.Arm` | gateway/e2e/e2e/stream-stub.ts:40-52 | the holds armed are new, consecutive and queued in that order |
| `StreamHolds.Holds.BeginPause` | gateway/e2e/e2e/stream-stub.ts:53-60 | the oldest hold is taken and marked reached, or nothing happens without one |
| `StreamHolds.Holds.ResumePause` | gateway/e2e/e2e/stream-stub.ts:67-68 | only this pause ends |
| `StreamHolds.Holds.Held` | gateway/e2e/e2e/stream-stub.ts:70-70 | true exactly when some pause is open |
| `BoundedBuffer.Buffer.Write` | server-agent/internal/certinstall/atomic.go:185-193 | the buffer is, byte by byte, the last 2048 bytes of what it was followed by the write; the full length is reported |
| `BoundedBuffer.KeepsTheTail` | server-agent/internal/certinstall/atomic.go:177-193 | after any writes the buffer is, byte by byte, the last min(cap, total) bytes of the stream |
| `BoundedBuffer.Capture` | server-agent/internal/certinstall/atomic.go:177-193 | any writes to a new buffer are taken whole and leave it with the tail of all of them |
| `Retry.PostOnce` | server-agent/internal/client/client.go:132-159 | nil exactly for a 2xx, the transport's error exactly without an answer, else the status itself; retryable exactly without an answer or from 500 up |
| `Retry.RetryLoop` | server-agent/internal/client/client.go:104-129 | for any limit: the attempts, the result and the delays, nil exactly when an attempt succeeded, delays summing to base * (2^(tries-1) - 1) |
| `Retry.OneEnd` | server-agent/internal/client/client.go:104-129 | that description fits exactly one number of attempts and one result |
| `Retry.PostBody` | server-agent/internal/client/client.go:103-159 | for every sequence of answers: at most three attempts and 600 milliseconds, never another one after an answer below 500, nil exactly if the last answer is a 2xx, the context's error exactly if it ends during a wait, and else the status of the last answer or the transport's error |
| `Collectors.MultiAvailable` | server-agent/internal/collector/collector.go:67-75 | available exactly when some member is |
| `Collectors.AvailableExactly` | server-agent/internal/collector/collector.go:67-75 | a nest of groups is available exactly if one of its sources is |
| `Collectors.MultiPowerCollect` | server-agent/internal/collector/collector.go:77-94 | per metric, independently, the first value of a member without an error |
| `Collectors.PowerOfSources` | server-agent/internal/collector/collector.go:57-59 | a group of sources gives the CPU value of exactly the first source that read one, and on its own the system value of the first that read one |
| `Collectors.MultiTempCollect` | server-agent/internal/collector/collector.go:152-174 | the first value of an available member, else the first error |
| `Collectors.FirstCPUExactly` | server-agent/internal/collector/collector.go:57-59 | the CPU value is the one at the first place without an error that has one, and there is none only if no place has |
| `Collectors.FirstSystemExactly` | server-agent/internal/collector/collector.go:57-59 | the same for the system value, independently |
| `Collectors.FirstError` | server-agent/internal/collector/collector.go:148-151 | an error is surfaced exactly when no available source measured and it is the first of theirs |
| `Collectors.FirstMeasured` | server-agent/internal/collector/collector.go:136-136 | a value is the answer exactly when an available source measured it and none before it measured |
| `Collectors.NestedAvailabilityIsFlat` | server-agent/internal/collector/collector.go:67-75 | nesting composites does not change the availability |
| `Collectors.NestedPowerIsFlat` | server-agent/internal/collector/collector.go:57-59 | nesting composites does not change the values |
| `Collectors.NestedTempIsFlat` | server-agent/internal/collector/collector.go:152-174 | nesting composites changes neither the value nor the error |
| `RateFormat.SpellsOne` | gateway/frontend/src/audioFigures.ts:34-41 | a text spells at most one number |
| `RateFormat.ShowsTheCut` | gateway/frontend/src/audioFigures.ts:38-40 | the text shown, read back, is the cut figure, with or without the trailing zero |
| `RateFormat.ShowsDecimals` | gateway/frontend/src/audioFigures.ts:31-40 | below 10 two decimals unless the second is a zero, else one; no other leading zero; a sign exactly below zero |
| `RateFormat.CutBounds` | gateway/frontend/src/audioFigures.ts:37-38 | the figure is above rate - 1/scale and at most rate + 1e-9/scale |
| `RateFormat.CutIsMonotone` | gateway/frontend/src/audioFigures.ts:35-38 | a higher rate never shows a lower figure, also across 10 |
| `RateFormat.GateReachedExactly` | gateway/frontend/src/audioFigures.ts:28-32 | a two-decimal gate is shown as reached exactly from 1e-11 below it |
| `RateFormat.ShownAboveExactly` | gateway/frontend/src/audioFigures.ts:28-32 | a figure above the rate is shown exactly within the allowance of the next figure |
| `RateFormat.GateMissedButShown` | gateway/frontend/src/audioFigures.ts:28-32 | a rate that misses the gate of 1.2 and reads 1.2 |

## Left out

- HTTP transport, TLS trust, JSON decoding and the tolerant parsing of If-None-Match lists: an answer is an abstract value and the match is equality.
- X.509, key parsing, SHA-256 and HMAC internals: library code, represented by what they find.
- File modes, fsync, failing removals of temp files and a temp file half written at a death: a rename is one step and a removal succeeds.
- Running the reload command, its timeouts and its command line: only that it is run.
- A writer that interferes between two steps of one install: interference is modelled between the request and the re-read.
- Retry.RetryLoop: delays are unbounded integers, so the overflow of a duration for large attempt limits is not modelled.
- Totp.Verify: the library's base32 decoder is a parameter, and constant-time comparison is not modelled.
- Case mapping beyond the alphabet: a parameter of the decoder, which must leave the base32 alphabet alone for the round trip.
- Rounding of binary floating point in the rate and in the time: both are over the reals.
- Collectors whose answer changes within a cycle or depends on being asked: a cycle is a snapshot.
- The runtime manager, routing, the log store and the portal: large, and not part of this model.
- User interface texts, configuration and wiring: they hold no state or arithmetic of their own, so nothing beyond their text could be stated.
