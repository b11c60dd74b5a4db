# iMail in Dafny

A model of the parts of iMail, a desktop mail client with a local service, whose correctness is hardest to see
from the code, with proofs about every run or every input. Each module follows one component:

- `ServiceSwitch`, `DaemonMemory`, `SwitchOutcome`: the hand-over of a data directory from the retained daemon to the embedded host: any number of supervisors, their service children and the application as interleaved atomic steps
- `ExecutableDeployment`: replacing the installed service binary, cut after any file operation
- `Srp`, `SrpServer`, `Powers`: the SRP-6a client of the Apple sign-in, against a server written from section 3 of RFC 2945 and sections 2.5 and 2.6 of RFC 5054
- `Hashcash`, `Radix`: the proof-of-work stamp of the Apple sign-in
- `AppleSession`: merging saved Apple sessions
- `CookieJar`, `CookieRoundTrip`: the cookie list of an Apple session as a last-write-wins map (section 5.3 of RFC 6265)
- `MessageText`, `TextRows`, `QuotedHistory`, `LongSegments`, `ChunkRuns`, `BlankChunks`, `Segmentation`, `SegmentFacts`, `BlankSegments`: from a message body to numbered segments
- `TranslationSettings`, `TranslationCache`: who may translate, and translations that line up with the document
- `Contacts`, `ContactFacts`, `ContactParties`, `ContactLogos`, `LogoRun`, `CaseFolding`: rebuilding the contact list from all messages, and the logos discovered for it
- `MailRules`, `Ordering`: choosing the rules that apply to a message
- `SseFraming`, `EventStream`, `EventRoundTrip`, `EventResume`: cutting the event stream into blocks and events, what the service writes against what the application reads, and what arrives over several connections
- `PreviewQuota`, `Sums`: attachment previews in memory
- `Eviction`, `AttachmentCache`, `AttachmentStore`, `OverlappingWrites`, `OverlapLimit`, `CacheKeys`: downloaded attachments on disk
- `Text`, `Options`: trimming, lines and lengths of strings; values that may be missing

State that the program changes in place is a class whose methods state the whole new state; loops are methods with
invariants, tied to specification functions. Hashes, lower-casing, the credential codec, the quotation-marker
expression, the public suffix list, JSON encoding and archive reading are parameters; what is demanded of them
(an injective hash, decryption that undoes encryption) stands in `requires`. Clocks, random identifiers and failing
file operations are parameters or free choices.

Where a plausible promise fails, a lemma gives the exact condition under which it holds:

- One writer: `stop_legacy_service` reports success without stopping anything when its own read of the configuration
  fails; a killed supervisor, one whose wait fails, and one that ignores a failed kill each leave a child behind; and a
  validation host that does not shut down is still open when the daemon is restored. The promise holds exactly when none
  of the five can happen, with a run for each (`OneWriterExactly`).
- A crash of the application after it has removed `enabled` forgets the daemon for good; it can come back exactly while
  it is enabled or the attempt under way remembers it (`ComesBackExactly`).
- Event framing: a CRLF pair anywhere in the buffer is preferred to an earlier LF pair, so blocks can depend on how
  the network chunks the stream; exactly the unambiguous streams are safe (`ChunkingIrrelevantExactly`).
- The event stream delivers every event behind its starting point exactly once, over any number of broken connections
  (`ReceivedExactly`). Until a first event has arrived the application has no cursor, and a connection that ends before
  that loses what was recorded meanwhile (`FirstConnectionLoses`).
- The guard for a single on-device translation profile looks only at new identifiers (`EdgeStaysSingleExactly`).
- `split_long_segment` can emit a blank chunk, and a document with one cannot be translated by leaving it as it is; both
  happen exactly when a sentence that does not fit meets a chunk that is blank so far, or an over-long sentence has a
  blank block (`BlankChunkExactly`, `EchoAcceptedExactly`). It takes a sentence of 4000 characters
  (`BlankNeedsLongSentence`). Chunks respect the maximum exactly when that is at least one or the text is blank
  (`ChunksFitExactly`).
- A `Max-Age` so large that the expiry wraps around 64 bits deletes the cookie (`ParsedDeletesExactly`).
- Merging sessions is associative around exactly the sessions with one login state per kind (`MergeAssociativeExactly`).
- Overlapping writes can exceed the attachment quota; it holds exactly when writes do not overlap (`QuotaHoldsExactly`).
  The most that n overlapping writes can store is the quota and n - 1 largest attachments more (`LimitExactly`).
- Reconciling contacts is idempotent exactly when every contact keeps its logo in its own list
  (`ReconcileIdempotentExactly`). A logo may have been found on another host of the contact's domain and is then filed
  under that host, so the program can store a list on which it is not (`StoredListChanges`); it is on every list stored
  by runs whose logos were found at the sender's own host or registrable domain (`StoredIdempotent`).
- A cached attachment whose encoded metadata exceeds 16 KiB is written but never read back (`RoundTripExactly`).
- Two segments share an identifier exactly when chunks with different digests share sixteen digits and have occurred
  equally often (`SameIdExactly`).

One function promises less than the program does with it. Leaving out quotations is idempotent exactly when no
carriage return hides one (`OmitIdempotentExactly`); its one caller passes normalised text, which has none, so nothing
quoted is ever visible (`NothingQuotedVisible`).

## Model

| member | source | states |
|---|---|---|
| `ServiceSwitch.SupKeepsSeal` | src-tauri/src/local_service.rs:1554-1660 | no step of any supervisor undoes a sealed hand-over |
| `ServiceSwitch.SealedPersists` | src-tauri/src/local_service.rs:1521-1661 | once no child runs and none can be spawned, every step of every process except the switch's own restore keeps it so |
| `ServiceSwitch.SupKeepsLocks` | src-tauri/src/local_service.rs:1537-1661 | a supervisor holds the lock exactly from acquisition to exit, and a child lives only under a supervisor that watches or stops it |
| `ServiceSwitch.SupKeepsInvariant` | src-tauri/src/local_service.rs:1521-1661 | every supervisor step keeps the whole invariant |
| `ServiceSwitch.AppKeepsSeal` | src-tauri/src/local_service.rs:1191-1343 | every application step that reaches the probe, validation, completion or the running host does so only sealed |
| `ServiceSwitch.AppKeepsInvariant` | src-tauri/src/local_service.rs:1168-1343 | every step of the switch, the stop and the restore keeps the invariant |
| `ServiceSwitch.StepKeepsInvariant` | src-tauri/src/local_service.rs:1188-1343 | every interleaved step of every process keeps the invariant |
| `ServiceSwitch.RunKeepsInvariant` | src-tauri/src/local_service.rs:1188-1190 | so does every run |
| `ServiceSwitch.SealedUntilRestored` | src-tauri/src/local_service.rs:1188-1190 | after sealing, no run without the switch's own restore brings a service child back |
| `ServiceSwitch.ReachableInvariant` | src-tauri/src/local_service.rs:1191-1343 | the invariant holds in every reachable state |
| `ServiceSwitch.ProbeSeals` | src-tauri/src/local_service.rs:1304-1343 | whatever interleaved before, a probe that finds the lock free leaves no child running, none spawnable and `enabled` absent |
| `ServiceSwitch.UnreadableConfigBreaksIt` | src-tauri/src/local_service.rs:1296-1303 | if the configuration can become unreadable, a reachable state has two writers |
| `ServiceSwitch.KilledBreaksIt` | src-tauri/src/local_service.rs:1550-1661 | if a supervisor can be killed, a reachable state has two writers |
| `ServiceSwitch.FailedWaitBreaksIt` | src-tauri/src/local_service.rs:1631-1643 | if waiting for a child can fail, a reachable state has two writers |
| `ServiceSwitch.FailedStopBreaksIt` | src-tauri/src/local_service.rs:1618-1630 | if stopping a child can fail, which is ignored, a reachable state has two writers |
| `ServiceSwitch.StuckHostBreaksIt` | src-tauri/src/local_service.rs:1145-1186 | if the validation host can stay open, restoring the daemon yields two writers |
| `ServiceSwitch.HandOverPossible` | src-tauri/src/local_service.rs:1191-1294 | from a serving daemon a run reaches the embedded host as the only writer |
| `ServiceSwitch.OneWriterExactly` | src-tauri/src/local_service.rs:1188-1343 | every reachable state has at most one writer if and only if the five assumptions hold |
| `DaemonMemory.CrashForgets` | src-tauri/src/local_service.rs:1191-1223 | after a crash with `enabled` removed, no run ever enables the daemon again |
| `DaemonMemory.ComesBackExactly` | src-tauri/src/local_service.rs:1264-1293 | some run enables the daemon again if and only if it is enabled or the attempt under way remembers that it was |
| `DaemonMemory.GiveUpRestoresExactly` | src-tauri/src/local_service.rs:1264-1275 | giving up brings a stopped daemon back if and only if it was enabled before and the database is unchanged |
| `DaemonMemory.RestoredOnlyIntact` | src-tauri/src/local_service.rs:1243-1275 | no run that never finds the database unchanged enables a stopped daemon again, whatever fails in it |
| `SwitchOutcome.RolledBackMeansEnabled` | src-tauri/src/local_service.rs:1271-1284 | whatever the environment does, a rolled-back record stands only beside an enabled daemon, and an attempt under way is recorded as such |
| `SwitchOutcome.RolledBackOnlyRelaunched` | src-tauri/src/local_service.rs:1264-1284 | no run without a successful relaunch records a roll-back |
| `SwitchOutcome.StaleNeverLaunches` | src-tauri/src/local_service.rs:1425-1429 | a supervisor that read another supervisor id launches no service in any run that does not configure that id again |
| `SwitchOutcome.OneFailureFails` | src-tauri/src/local_service.rs:1211-1263 | in every interleaving one failing report ends the attempt; only giving up or a crash leads on |
| `SwitchOutcome.NoHostUnvalidated` | src-tauri/src/local_service.rs:1191-1260 | beside a retained daemon no run opens the embedded host or records completion before a validation succeeded |
| `ExecutableDeployment.RecoveredIsOldOrNew` | src-tauri/src/local_service.rs:559-572 | from every state a cut run can leave, recovery settles on the complete old or new binary, and on some binary if there was one |
| `ExecutableDeployment.Disk.Copy` | src-tauri/src/local_service.rs:579-605 | a copy may stop anywhere and leave anything, but only at its destination, at every instant |
| `ExecutableDeployment.Recover` | src-tauri/src/local_service.rs:556-572 | every instant of recovery is recoverable again; success leaves no rollback file and the binary recovery settles on |
| `ExecutableDeployment.StageExecutable` | src-tauri/src/local_service.rs:556-605 | every instant is recoverable; success leaves no rollback file, the recovered target and a complete staged copy |
| `ExecutableDeployment.CopyToStage` | src-tauri/src/local_service.rs:576-605 | success means the staged file equals the source; only the staged file ever changes |
| `ExecutableDeployment.Deployment.Activate` | src-tauri/src/local_service.rs:609-625 | every instant is recoverable; success puts the new binary in place and keeps the old one as rollback file |
| `ExecutableDeployment.Deployment.Rollback` | src-tauri/src/local_service.rs:627-645 | every instant is recoverable; success after activation restores the old binary and removes the rollback file |
| `ExecutableDeployment.Deployment.Commit` | src-tauri/src/local_service.rs:647-658 | every instant is recoverable and the new binary stays; success removes both helper files |
| `ExecutableDeployment.Finish` | src-tauri/src/local_service.rs:838-942 | commits exactly an activated binary whose service answered; otherwise the old one is kept throughout, and a failed activation never shows the new one |
| `ExecutableDeployment.HeldRecovers` | src-tauri/src/local_service.rs:559-572 | whatever is staged later, recovery yields a complete known binary and loses none |
| `ExecutableDeployment.Deploy` | src-tauri/src/local_service.rs:818-942 | an update is kept only when the service answered, and is then the new binary; otherwise the binary recovery settles on stays complete in place or as rollback file at every instant, and is in place again after a successful rollback; at no instant are the states left from which a known binary is recovered |
| `ExecutableDeployment.Sessions` | src-tauri/src/local_service.rs:498-659 | any number of attempts with different binaries, each cut anywhere or finished, never loses an installed binary |
| `Srp.Pad` | crates/imail-apple-hme/src/srp.rs:170-178 | the buffer filled in place is the left-padded big-endian form |
| `Srp.PadRoundTrip` | crates/imail-apple-hme/src/srp.rs:170-178 | for every width, padding decodes back to its value and has the width exactly below that power of 256; the source pads to 256 bytes |
| `Srp.PadInjective` | crates/imail-apple-hme/src/srp.rs:170-178 | for every width, different values have different padded forms |
| `Srp.FromSecret` | crates/imail-apple-hme/src/srp.rs:47-63 | accepted exactly for a non-zero secret, with a public value below the modulus |
| `Srp.Base` | crates/imail-apple-hme/src/srp.rs:128-134 | the subtraction never underflows: the result lies below the modulus and is congruent to the difference |
| `Srp.BaseIsServerPower` | crates/imail-apple-hme/src/srp.rs:124-134 | against an honest server the base is congruent to the generator raised to the server's exponent |
| `Srp.ClientSecretIsPower` | crates/imail-apple-hme/src/srp.rs:128-136 | the client's secret is the generator raised to b(a + ux), modulo N |
| `Srp.ServerSecretIsPower` | crates/imail-apple-hme/src/srp.rs:128-136 | so is the secret of the server of section 2.6 of RFC 5054 |
| `Srp.SecretsAgree` | crates/imail-apple-hme/src/srp.rs:81-137 | both sides compute the same secret for every modulus and all exponents |
| `SrpServer.PaddingAgrees` | crates/imail-apple-hme/src/srp.rs:170-178 | the client's padding is the `PAD` of RFC 5054, for every value and width |
| `SrpServer.HexLowerIsHex` | crates/imail-apple-hme/src/srp.rs:180-188 | the hexadecimal text has two lower-case digits per byte that decode to it |
| `SrpServer.InputAgrees` | crates/imail-apple-hme/src/srp.rs:88-101 | the key derivation is fed exactly what the account was enrolled with: the digest, or its lower-case hexadecimal digits |
| `SrpServer.XorUndoes` | crates/imail-apple-hme/src/srp.rs:141-145 | combining twice with the same bytes gives the first ones back |
| `SrpServer.ProofsAgree` | crates/imail-apple-hme/src/srp.rs:137-160 | a proof over the server's secret is the `M` of section 3 of RFC 2945 that the server computes from the bytes it received, with its answer |
| `SrpServer.ExchangeAgrees` | crates/imail-apple-hme/src/srp.rs:69-162 | a whole exchange: the client proves itself exactly when iterations, B and u are usable; the server accepts that proof and no other, and answers with the value the client expects |
| `SrpServer.OddModulus` | crates/imail-apple-hme/src/srp.rs:47-63 | with an odd modulus the public value is never zero, which the server would refuse |
| `Hashcash.LeadingZeroBits` | crates/imail-apple-hme/src/auth.rs:1338-1348 | the loop counts the zero bits before the first one |
| `Hashcash.ZeroBitsBound` | crates/imail-apple-hme/src/auth.rs:1338-1348 | having n leading zero bits is being below a power of two, for every digest and n up to its length in bits |
| `Hashcash.Radix36` | crates/imail-apple-hme/src/auth.rs:1350-1366 | the division loop renders the number in base 36 |
| `Hashcash.StampFields` | crates/imail-apple-hme/src/auth.rs:1322-1325 | split at colons, a stamp has version, bits, time, challenge, an empty field and the counter, and the numbers decode |
| `Radix.RenderRoundTrip` | crates/imail-apple-hme/src/auth.rs:1350-1366 | a rendered number decodes to itself |
| `Radix.RenderInjective` | crates/imail-apple-hme/src/auth.rs:1350-1366 | different numbers are rendered differently |
| `Hashcash.StampsDiffer` | crates/imail-apple-hme/src/auth.rs:1322-1330 | no two counters try the same string |
| `Hashcash.Mint` | crates/imail-apple-hme/src/auth.rs:1293-1336 | the stamp returned is the first that meets the difficulty, and each error is returned exactly in its case |
| `Hashcash.MeetsIsBound` | crates/imail-apple-hme/src/auth.rs:1324-1348 | a stamp meets the difficulty exactly when its digest, as a number, is below 2 to the 160 minus bits |
| `AppleSession.AppleSession.PutState` | crates/imail-apple-hme/src/model.rs:107-114 | the state of its kind is the new one, all others stay, and one per kind stays one per kind |
| `AppleSession.AppleSession.Merge` | crates/imail-apple-hme/src/model.rs:116-144 | the merged session field by field, with one state per kind kept |
| `AppleSession.MergeTakesIncoming` | crates/imail-apple-hme/src/model.rs:116-144 | what the incoming session says wins, where it says nothing the old value stays, abilities only accumulate |
| `AppleSession.PutKeepsOnePerKind` | crates/imail-apple-hme/src/model.rs:101-114 | putting keeps at most one login state per kind |
| `AppleSession.PutFinds` | crates/imail-apple-hme/src/model.rs:97-114 | the state put is found under its kind and no other kind changes |
| `AppleSession.PutAllAssociative` | crates/imail-apple-hme/src/model.rs:107-141 | merging login states is associative, their order included, when the middle list has one per kind |
| `AppleSession.MergeAssociative` | crates/imail-apple-hme/src/model.rs:116-144 | merging whole sessions is associative up to the time stamp |
| `AppleSession.MergeOverrides` | crates/imail-apple-hme/src/model.rs:107-141 | after a merge every kind has the incoming state if there is one, its own otherwise |
| `AppleSession.LastIncomingDecides` | crates/imail-apple-hme/src/model.rs:107-141 | whatever is merged in, one state per kind or not, the last incoming state of a kind decides |
| `AppleSession.AssociativeExactly` | crates/imail-apple-hme/src/model.rs:107-141 | merging around a list is associative for all lists beside it if and only if it has one state per kind |
| `AppleSession.MergeAssociativeExactly` | crates/imail-apple-hme/src/model.rs:116-144 | so is merging around a session, up to the time stamps |
| `AppleSession.DuplicateKindsBreakIt` | crates/imail-apple-hme/src/model.rs:107-142 | an instance: with two states of one kind in the middle, merging is not associative |
| `CookieJar.ParseSetCookie` | crates/imail-apple-hme/src/protocol.rs:119-154 | the attribute loop computes the parsed cookie, or none for a header without a name, a pair or a host |
| `CookieJar.ParsedFields` | crates/imail-apple-hme/src/protocol.rs:119-154 | the last non-empty Domain in lower case or else the host, the last non-empty Path or else the root, the last usable Max-Age, and the flags that occur |
| `CookieJar.ParsedDeletesExactly` | crates/imail-apple-hme/src/protocol.rs:107-154 | a parsed cookie deletes exactly when its value is empty, its last usable `Max-Age` is not positive, or that age leaves 64 bits |
| `CookieJar.Jar.MergeResponse` | crates/imail-apple-hme/src/protocol.rs:90-117 | one response updates the list header by header and keeps keys distinct |
| `CookieJar.Jar.MergeOne` | crates/imail-apple-hme/src/protocol.rs:102-115 | one cookie is replaced in place, removed, pushed or ignored |
| `CookieJar.MergeKeepsDistinct` | crates/imail-apple-hme/src/protocol.rs:102-115 | keys (name, case-folded domain, path) stay distinct |
| `CookieJar.MergeIsStore` | crates/imail-apple-hme/src/protocol.rs:102-115 | one merge is one write or delete in the map the list stands for |
| `CookieJar.ResponseIsStores` | crates/imail-apple-hme/src/protocol.rs:90-117 | a response is a sequence of such writes |
| `CookieJar.JarRefinesMap` | crates/imail-apple-hme/src/protocol.rs:90-154 | any sequence of responses keeps keys distinct and the list equals the last-write-wins map |
| `CookieRoundTrip.KeyExactly` | crates/imail-apple-hme/src/protocol.rs:98-106 | cookies stand in for each other exactly with equal name and path and domains equal up to ASCII case |
| `CookieRoundTrip.MergeEffect` | crates/imail-apple-hme/src/protocol.rs:102-115 | after one cookie, the jar holds it unless it deletes, none it stands in for, and everything else as before |
| `CookieRoundTrip.HeaderRoundTrip` | crates/imail-apple-hme/src/protocol.rs:119-154 | whatever cookie a server writes into a header, the parser reads exactly that, from any host |
| `CookieRoundTrip.OverExactly` | crates/imail-apple-hme/src/protocol.rs:137-146 | an age that fits is counted from now, and an age of zero is over at once |
| `MessageText.NormalIsFixed` | crates/imail-core/src/translations.rs:338-349 | text that is normal, character by character, is left as it is |
| `MessageText.NormalizeIsNormal` | crates/imail-core/src/translations.rs:338-349 | every result is normal: no carriage return, no space before a break, no blank after one, trimmed |
| `MessageText.NormalizeIdempotent` | crates/imail-core/src/translations.rs:338-349 | normalising twice is normalising once, for every text |
| `TextRows.NormalizeExactly` | crates/imail-core/src/translations.rs:338-349 | every text normalises to its rows, ended by CRLF, CR or LF, each without indentation and trailing space, joined and trimmed |
| `TextRows.RowEndsIrrelevant` | crates/imail-core/src/translations.rs:338-349 | with CRLF or lone CR in place of LF a text normalises to the same |
| `SegmentFacts.NormalizeKeepsContent` | crates/imail-core/src/translations.rs:338-349 | normalising keeps every character that is no space, in order |
| `QuotedHistory.NormalizeKeepsLines` | crates/imail-core/src/translations.rs:338-349 | normalising keeps every line that is not blank, in order, up to the space around it |
| `QuotedHistory.OmitQuotedHistory` | crates/imail-core/src/translations.rs:252-272 | the loop keeps exactly the lines before the first marker that are not quoted, and says whether any was left out |
| `SegmentFacts.VisibleExactly` | crates/imail-core/src/translations.rs:252-272 | the kept lines are, in order, exactly those before every marker that are not quoted |
| `SegmentFacts.QuotedExactly` | crates/imail-core/src/translations.rs:262-267 | a line is quoted exactly when its first character that is no space is a greater-than sign |
| `QuotedHistory.OmitIdempotentExactly` | crates/imail-core/src/translations.rs:252-272 | no quoted or marker line survives, and a second pass changes nothing, exactly when no carriage return hides one |
| `QuotedHistory.OmitIdempotent` | crates/imail-core/src/translations.rs:252-272 | on text without carriage returns, and so on normalised text, omitting is idempotent and leaves nothing quoted |
| `QuotedHistory.CarriageReturnHidesQuote` | crates/imail-core/src/translations.rs:258-271 | a text, which the one caller never passes, in which a quoted line survives |
| `Segmentation.NothingQuotedVisible` | crates/imail-core/src/translations.rs:165-182 | whatever the message, the visible text has no quoted or marker line, and omitting again would change nothing |
| `LongSegments.SplitLongSegment` | crates/imail-core/src/translations.rs:274-300 | the sentence loop and the character loop compute the chunks |
| `LongSegments.ChunksFit` | crates/imail-core/src/translations.rs:274-300 | for every text and every maximum of at least one, each chunk fits |
| `LongSegments.ChunksKeepContent` | crates/imail-core/src/translations.rs:274-300 | for every text and maximum, the chunks together hold exactly the characters that are no spaces, in order |
| `LongSegments.ChunksFitExactly` | crates/imail-core/src/translations.rs:274-300 | every chunk fits exactly when the maximum is at least one or the text is blank |
| `ChunkRuns.SentencesAre` | crates/imail-core/src/translations.rs:280 | the sentences give the text back, each ending with its only terminator |
| `ChunkRuns.ChunksAreRuns` | crates/imail-core/src/translations.rs:274-300 | where no sentence is too long by itself, a block is cut between sentences only and each chunk takes in as many as fit |
| `LongSegments.BlankChunk` | crates/imail-core/src/translations.rs:281-283 | an instance for every maximum: two full sentences with a break between them yield a blank chunk |
| `BlankChunks.BlankChunkExactly` | crates/imail-core/src/translations.rs:274-300 | for every text and maximum, some chunk is blank if and only if the text fits and is blank, or a sentence that does not fit meets a chunk blank so far, or an over-long sentence has a blank block |
| `BlankChunks.BlankWithoutBreaksExactly` | crates/imail-core/src/translations.rs:280-293 | without line breaks that is exactly an over-long sentence with a blank block at a multiple of the maximum |
| `BlankChunks.NoRunNoBlank` | crates/imail-core/src/translations.rs:274-300 | text that is not blank, without line breaks and without a run of maximum spaces, yields no blank chunk |
| `BlankChunks.ShortSentencesNoBlank` | crates/imail-core/src/translations.rs:280-293 | with no space before line breaks and no sentence of maximum characters, no chunk is blank |
| `Segmentation.SegmentMessageBody` | crates/imail-core/src/translations.rs:165-214 | refused exactly beyond the size limit; otherwise hash, version, omission flag and segments of the visible text |
| `SegmentFacts.SourceExactly` | crates/imail-core/src/translations.rs:170-174 | the plain text is translated if it has a character that is no space, else the text of the HTML body; none of the characters of the chosen one is lost |
| `SegmentFacts.ParagraphsAre` | crates/imail-core/src/translations.rs:184-188 | the blocks give the text back and contain no empty line |
| `SegmentFacts.ParagraphsUnique` | crates/imail-core/src/translations.rs:184-188 | and no other blocks do, cut from the left |
| `SegmentFacts.KindExactly` | crates/imail-core/src/translations.rs:192-196 | a chunk is a list item exactly when every line begins like one behind its indentation |
| `SegmentFacts.SomethingToTranslate` | crates/imail-core/src/translations.rs:184-188 | there are segments exactly when the visible text has a character that is no space |
| `Segmentation.SegmentVisible` | crates/imail-core/src/translations.rs:184-206 | the block loop with its occurrence map yields the segments of the specification |
| `Segmentation.NumberMore` | crates/imail-core/src/translations.rs:191-205 | the occurrence map counts each chunk's digest so far, so each identifier carries the right occurrence |
| `Segmentation.SameIdExactly` | crates/imail-core/src/translations.rs:197-204 | two segments share an identifier if and only if their digests differ, share sixteen digits and have occurred equally often |
| `Segmentation.IdsDistinctExactly` | crates/imail-core/src/translations.rs:184-206 | all identifiers of a document differ, repeated chunks included, if and only if no two chunks collide so |
| `Segmentation.SegmentsCoverText` | crates/imail-core/src/translations.rs:184-206 | every segment fits and together they hold every visible character that is no space |
| `BlankSegments.BlankSegmentExactly` | crates/imail-core/src/translations.rs:186-205 | some segment is blank if and only if some block splits into a blank chunk |
| `BlankSegments.EchoAcceptedExactly` | crates/imail-core/src/translations.rs:216-250 | a translation that leaves every segment as it is is refused as incomplete exactly for such documents |
| `BlankSegments.BlankNeedsLongSentence` | crates/imail-core/src/translations.rs:165-214 | whatever the message, without a sentence of 4000 characters no segment is blank |
| `TranslationSettings.EdgeStaysSingleExactly` | crates/imail-core/src/translation_settings.rs:132-146 | an accepted upsert keeps a single local profile exactly when it does not turn an existing profile into a second one |
| `TranslationSettings.SecondLocalProfile` | crates/imail-core/src/translation_settings.rs:132-146 | three accepted upserts from an empty store end with two local profiles |
| `TranslationSettings.UpsertKeepsRecord` | crates/imail-core/src/translation_settings.rs:147-180 | the record an upsert writes keeps credential, ciphertext, secret and consent in line with the provider |
| `TranslationSettings.UpsertKeepsExactly` | crates/imail-core/src/translation_settings.rs:147-180 | an upsert takes over exactly a secret the new provider can use, a consent given for just this provider and the creation time |
| `TranslationSettings.StatusExactly` | crates/imail-core/src/translation_settings.rs:484-504 | each status says exactly one thing about secret, consent and provider, a secret being needed where the registry lists a kind of credential |
| `TranslationSettings.SettingsService.constructor` | crates/imail-core/src/translation_settings.rs:47-49 | an empty store satisfies the invariant |
| `TranslationSettings.SettingsService.Read` | crates/imail-core/src/translation_settings.rs:51-75 | a default profile is shown exactly while it is enabled, has a secret where required and consent where content leaves the device; the profiles are the user's, each once, with a status that refuses use exactly where one of these is missing |
| `TranslationSettings.SettingsService.Update` | crates/imail-core/src/translation_settings.rs:77-118 | accepted exactly for valid languages and a default profile that can be used; nothing changes otherwise |
| `TranslationSettings.SettingsService.UpsertProfile` | crates/imail-core/src/translation_settings.rs:120-185 | accepted exactly when valid and not guarded; a secret survives exactly with its credential |
| `TranslationSettings.SettingsService.SetCredential` | crates/imail-core/src/translation_settings.rs:187-237 | accepted exactly for a kind the provider allows and a secret of proper length that encrypts; the trimmed secret becomes the last one set |
| `TranslationSettings.SettingsService.ClearCredential` | crates/imail-core/src/translation_settings.rs:239-257 | credential and ciphertext go together |
| `TranslationSettings.SettingsService.CredentialSecret` | crates/imail-core/src/translation_settings.rs:259-320 | returns the trimmed secret last set, exactly to a caller that expects its kind |
| `TranslationSettings.SettingsService.AcceptConsent` | crates/imail-core/src/translation_settings.rs:322-351 | consent is recorded exactly for off-device providers, at the current disclosure revision |
| `TranslationSettings.SettingsService.RevokeConsent` | crates/imail-core/src/translation_settings.rs:353-370 | an off-device profile cannot be used after revocation |
| `TranslationSettings.SettingsService.DeleteProfile` | crates/imail-core/src/translation_settings.rs:372-395 | record, secret and a default that names it go together |
| `TranslationCache.Validate` | crates/imail-core/src/translations.rs:216-250 | accepts exactly translations that are small enough, have the document's identifiers in order and are not blank |
| `TranslationCache.RowsFaithful` | crates/imail-storage-sqlite/src/translation_cache.rs:10-51 | on valid languages the stored row determines the key, an unknown source included |
| `TranslationCache.TranslationService.Gate` | crates/imail-core/src/translations.rs:49-66 | passes exactly enabled, credentialed and consented profiles of the user |
| `TranslationCache.TranslationService.Prepare` | crates/imail-core/src/translations.rs:36-100 | succeeds exactly for valid languages, a profile that can be used and a message within the limit with something to translate; a cached artifact it returns has exactly the identifiers of the document and belongs to its key |
| `TranslationCache.TranslationService.Upgrade` | crates/imail-core/src/translations.rs:76-85 | the cache stays coherent across releases with other segmentations, because the version is part of the key |
| `TranslationCache.TranslationService.StoreArtifact` | crates/imail-core/src/translations.rs:102-122 | stores exactly complete results of an earlier preparation, keeps the first creation time, and keeps the cache coherent |
| `TranslationCache.TranslationService.Complete` | crates/imail-core/src/translations.rs:124-153 | a client completes exactly on-device translations that can be prepared, with acceptable segments for the document's identifiers |
| `TranslationCache.TranslationService.ClearCache` | crates/imail-storage-sqlite/src/translation_cache.rs:95-100 | removes exactly the user's rows and counts them |
| `Contacts.Reconcile` | crates/imail-core/src/contacts.rs:159-253 | the nested loops list the fold over the messages, whatever order the map yields |
| `Contacts.ListingUnique` | crates/imail-core/src/contacts.rs:240-252 | there is only one such list |
| `Contacts.SortedLists` | crates/imail-core/src/contacts.rs:240-252 | sorting the values in any order gives every contact once, strictly ordered |
| `Contacts.FoldKeyed` | crates/imail-core/src/contacts.rs:178-239 | every contact is kept under its own lower-cased address |
| `ContactFacts.FoldAt` | crates/imail-core/src/contacts.rs:178-239 | each contact is what its own mentions, in order, make of it, one per message |
| `ContactFacts.FoldMeetsSpec` | crates/imail-core/src/contacts.rs:178-239 | a contact is listed exactly when some message mentions it; its count is the number of those messages, its date their latest |
| `ContactFacts.FoldNames` | crates/imail-core/src/contacts.rs:188-224 | the address is that of the first mention with the latest date; the name that of the last mention later than all before it that has one, else the previous name |
| `ContactParties.ReconciledExactly` | crates/imail-core/src/contacts.rs:159-277 | over senders, recipients and previous list alone: who is listed, once each, and with which owner, count, latest date, address and name |
| `ContactParties.ListedOrder` | crates/imail-core/src/contacts.rs:240-252 | in the list the latest date comes first, then the larger count, then the smaller address |
| `ContactParties.ReconciledLogo` | crates/imail-core/src/contacts.rs:170-204 | the logo of every listed contact: the last in the previous list under its exact key, else under its root key, else its own |
| `ContactParties.HostsExactly` | crates/imail-core/src/contacts.rs:85-120 | a dot behind the host makes no difference, and a host the suffix list does not know has equal keys |
| `ContactFacts.GrowLogo` | crates/imail-core/src/contacts.rs:191-204 | however many messages mention a contact, its logo is the one chosen from the keys of its address and its previous logo |
| `ContactFacts.FirstNamedExactly` | crates/imail-core/src/contacts.rs:182-187 | a message mentions a contact exactly when a participant has that address, is not blank and not one's own |
| `ContactFacts.MentionsPermute` | crates/imail-core/src/contacts.rs:180-187 | permuting the messages permutes the mentions |
| `ContactFacts.OrderIrrelevant` | crates/imail-core/src/contacts.rs:178-253 | who is listed, with which count and date, is the same for every order of the messages |
| `ContactFacts.ListedByAddress` | crates/imail-core/src/contacts.rs:170-173 | looked up by address, a listed result is the map it lists |
| `ContactFacts.SecondContactExactly` | crates/imail-core/src/contacts.rs:188-237 | on top of the first result a contact is the same again if and only if it keeps its logo when looked up in that result |
| `ContactFacts.ReconcileIdempotentExactly` | crates/imail-core/src/contacts.rs:166-253 | reconciling the same messages again, with the first result read back in any order, returns exactly that result if and only if every contact of it keeps its logo |
| `ContactFacts.ReconcileIdempotent` | crates/imail-core/src/contacts.rs:166-253 | so it does when previous logos agree per key, whatever the order |
| `ContactLogos.RememberLogo` | crates/imail-http/src/messages.rs:1269-1292 | whatever key a logo has, it goes to the contacts with the root key it was found for if it is filed under that, else to those with the exact key, and to no other |
| `ContactLogos.RememberKeepsSites` | crates/imail-http/src/logo.rs:225-281 | remembering a logo from any site offered for a sender leaves every contact with a logo from a site of its own domain |
| `ContactLogos.ReconcileKeepsSites` | crates/imail-core/src/contacts.rs:194-204 | so does reconciling |
| `ContactLogos.StoredSites` | crates/imail-http/src/messages.rs:1240-1292 | in every run of reconciling, remembering (each contact or only some) and listing, every stored logo was found on a site of its contact's domain |
| `ContactLogos.StoredRoots` | crates/imail-http/src/logo.rs:150-153 | so the host in a stored logo key has the contact's root key, for every suffix list under which registrable domains and their `www` hosts are registrable as themselves |
| `ContactLogos.ReconcileKeepsOwn` | crates/imail-core/src/contacts.rs:194-204 | a reconciled list has own logos again |
| `ContactLogos.OwnLogosIdempotent` | crates/imail-core/src/contacts.rs:166-253 | on every list whose logos are filed under exact or root keys of their contacts, agreeing or not, reconciling twice is reconciling once, in whatever order the first result is read back |
| `ContactLogos.StoredIdempotent` | crates/imail-core/src/contacts.rs:166-253 | so it is from every list that a run stores whose logos were all found at the exact or the root key of their sender |
| `LogoRun.StoredListChanges` | crates/imail-core/src/contacts.rs:174-204 | a run with logos found at a sibling host stores a list, the same by recency and by address, from which the second reconciliation changes a logo |
| `CaseFolding.LoweringIsCaseBlind` | crates/imail-core/src/contacts.rs:85-120 | lower-casing that keeps at signs, blanks and final dots, final sigma and expansions included, makes logo keys independent of letter case |
| `CaseFolding.CharacterWiseKeepsMarks` | crates/imail-core/src/contacts.rs:89-94 | lower-casing each character to one or more is of that kind |
| `MailRules.Validate` | crates/imail-core/src/rules.rs:70-125 | the loops accept exactly the valid rules |
| `MailRules.OneMoreCondition` | crates/imail-core/src/rules.rs:127-139 | one more condition narrows a rule that wants all and widens a rule that wants any |
| `MailRules.ScopeExactly` | crates/imail-core/src/rules.rs:127-139 | a rule never matches outside its accounts; inside, which accounts it names makes no difference |
| `MailRules.MatchingRules` | crates/imail-core/src/rules.rs:203-218 | the sorted loop with its break computes the selection |
| `MailRules.MatchingMembers` | crates/imail-core/src/rules.rs:203-218 | the selection is exactly the enabled matching rules that no matching stop rule precedes, strictly ordered by priority, creation and identifier |
| `MailRules.ResultOrder` | crates/imail-core/src/rules.rs:203-218 | in the result a smaller priority number comes first, then the earlier creation, then the smaller identifier |
| `Ordering.LessExactly` | crates/imail-core/src/rules.rs:203-218 | one string precedes another exactly when it is a proper beginning of it or has the smaller character at the first difference |
| `MailRules.PermutationIrrelevant` | crates/imail-core/src/rules.rs:203-218 | the order in which rules are stored does not matter |
| `MailRules.AfterStopIrrelevant` | crates/imail-core/src/rules.rs:203-218 | nothing ordered after a matching stop rule has any influence |
| `SseFraming.DrainConserves` | src-tauri/src/http_bridge.rs:513-527 | blocks, delimiters and rest are the bytes drained, and no delimiter is left |
| `SseFraming.FeedConserves` | src-tauri/src/http_bridge.rs:583-596 | blocks, delimiters and the remaining buffer are always exactly the bytes fed |
| `SseFraming.CutStable` | src-tauri/src/http_bridge.rs:513-527 | in an unambiguous stream the cut of a prefix is the cut of the whole |
| `SseFraming.FeedIsDrain` | src-tauri/src/http_bridge.rs:583-596 | an unambiguous stream is framed as if it had come in one piece |
| `SseFraming.ChunkingIrrelevantExactly` | src-tauri/src/http_bridge.rs:513-527 | every chunking frames a stream alike if and only if no LF pair precedes a CRLF pair at which it is cut |
| `SseFraming.OneDelimiterUnambiguous` | src-tauri/src/http_bridge.rs:514-523 | a stream with only one of the two delimiters is unambiguous |
| `EventStream.ParseSseBlock` | src-tauri/src/http_bridge.rs:529-554 | the line loop takes the last event and identifier and joins the data lines |
| `EventStream.EventReader.TakeBlock` | src-tauri/src/http_bridge.rs:513-527 | takes the first block off the buffer in place, losing nothing |
| `EventStream.EventReader.OnChunk` | src-tauri/src/http_bridge.rs:583-596 | one turn of the loop emits the events of the drained blocks and moves the cursor to the last identifier |
| `EventStream.ReadStream` | src-tauri/src/http_bridge.rs:583-596 | a whole response read chunk by chunk |
| `EventStream.EventsIgnoreChunking` | src-tauri/src/http_bridge.rs:583-596 | on an unambiguous stream neither events nor cursor depend on the chunks |
| `EventRoundTrip.ReadsWhatWasSent` | crates/imail-http/src/sync_control.rs:458-511 | however the network chunks what the service writes and wherever it breaks off, the application emits exactly the frames that arrived whole, with the last of their identifiers as cursor |
| `EventRoundTrip.EveryPrefix` | crates/imail-http/src/sync_control.rs:458-511 | wherever a connection ends, some frames have arrived whole and perhaps a part of the next |
| `EventResume.EventFrames` | crates/imail-http/src/sync_control.rs:458-481 | one look at the log sends the user's events between the old and the new cursor, in order, and passes every event |
| `EventResume.ReceivedExactly` | src-tauri/src/http_bridge.rs:562-603 | over any number of connections, broken anywhere, the application receives each event of its accounts between its starting point and its cursor exactly once, in order |
| `EventResume.NothingLostLater` | src-tauri/src/http_bridge.rs:562-603 | once an event has arrived, no later one is lost |
| `EventResume.FirstConnectionLoses` | crates/imail-http/src/sync_control.rs:345-358 | a first connection that ends before anything arrived loses what was recorded meanwhile |
| `EventResume.MissedForever` | crates/imail-http/src/sync_control.rs:345-358 | what lies at or below the starting point never arrives |
| `PreviewQuota.Bytes` | crates/imail-http/src/attachment_previews.rs:177-185 | the sums over records in any order are the stored bytes |
| `PreviewQuota.OwnersShare` | crates/imail-http/src/attachment_previews.rs:177-185 | what counts for an owner is all that this owner's previews hold and nothing of others' |
| `PreviewQuota.InsertWithinQuotas` | crates/imail-http/src/attachment_previews.rs:177-191 | the two checks suffice for every owner's quota and the global one, a repeated identifier included |
| `PreviewQuota.PreviewState.Cleanup` | crates/imail-http/src/attachment_previews.rs:199-201 | drops no record still young at the end and keeps none that was not young at the start |
| `PreviewQuota.PreviewState.Create` | crates/imail-http/src/attachment_previews.rs:164-197 | accepted exactly when both quotas allow after the sweep; both quotas hold in every run |
| `PreviewQuota.PreviewState.RemoveFor` | crates/imail-http/src/attachment_previews.rs:203-215 | only the owner of a young preview removes it, and nothing else goes |
| `PreviewQuota.PreviewState.ResourceFor` | crates/imail-http/src/attachment_previews.rs:228-265 | the bytes stored at creation, only to their creator, only while young |
| `Eviction.SweepIsMinimal` | crates/imail-http/src/attachment_cache.rs:173-190 | after the expired files go, the shortest oldest-first prefix goes that leaves room, or everything; nothing kept is older than anything given up |
| `Eviction.NewestSurvive` | crates/imail-http/src/attachment_cache.rs:173-190 | if everything unexpired from some moment on fits, all of it survives, whatever order the directory lists it in |
| `AttachmentCache.SweptHasRoom` | crates/imail-http/src/attachment_cache.rs:157-191 | after a complete sweep the incoming file fits into 512 MiB |
| `AttachmentCache.WholeOrNothing` | crates/imail-http/src/attachment_cache.rs:84-107 | metadata written for an attachment yields that attachment or nothing, whatever content is found |
| `AttachmentCache.ReadsAreWhole` | crates/imail-http/src/attachment_cache.rs:84-107 | a read whose four looks fall at any instants of a history returns an attachment written whole under its key, or nothing |
| `AttachmentCache.RoundTripExactly` | crates/imail-http/src/attachment_cache.rs:73-144 | what a write left is read back exactly when neither file is too large or too old |
| `AttachmentStore.UserCache.RemovePair` | crates/imail-http/src/attachment_cache.rs:193-196 | deletes at most the two files of its stem |
| `AttachmentStore.UserCache.Scan` | crates/imail-http/src/attachment_cache.rs:159-172 | reports content files at most once, in any order |
| `AttachmentStore.UserCache.DropExpired` | crates/imail-http/src/attachment_cache.rs:173-178 | loses only files of expired stems |
| `AttachmentStore.UserCache.EvictOldest` | crates/imail-http/src/attachment_cache.rs:183-190 | the running total is the survivors' sum throughout, and exactly the specified prefix goes |
| `AttachmentStore.UserCache.Cleanup` | crates/imail-http/src/attachment_cache.rs:157-191 | loses only what the specification gives up, and all of it when deletions succeed |
| `AttachmentStore.UserCache.Commit` | crates/imail-http/src/attachment_cache.rs:206-218 | renames over the target, or succeeds without replacing an existing target |
| `AttachmentStore.UserCache.Write` | crates/imail-http/src/attachment_cache.rs:109-144 | with a reliable sweep no instant exceeds the quota, whichever operation fails; other files are lost only if given up |
| `AttachmentStore.UserCache.Read` | crates/imail-http/src/attachment_cache.rs:73-82 | returns what the lookup finds, always an attachment written under the key, and deletes an unusable pair |
| `OverlappingWrites.OverlapBounded` | crates/imail-http/src/attachment_cache.rs:109-217 | in every interleaving with at most n writes under way, every instant stores at most the quota and n - 1 largest attachments |
| `OverlappingWrites.ClashStoresBoth` | crates/imail-http/src/attachment_cache.rs:120-141 | from every directory with room for either of two attachments, two overlapping writes store both |
| `OverlapLimit.OverlapStoresAll` | crates/imail-http/src/attachment_cache.rs:109-141 | from every directory with room for an attachment, n overlapping writes of it store it n times |
| `OverlapLimit.LimitReached` | crates/imail-http/src/attachment_cache.rs:109-141 | for every n a run with n writes under way stores the quota and n - 1 largest attachments |
| `OverlapLimit.LimitExactly` | crates/imail-http/src/attachment_cache.rs:109-217 | no run with up to n writes under way stores more than a bound if and only if the bound is at least that |
| `OverlapLimit.QuotaHoldsExactly` | crates/imail-http/src/attachment_cache.rs:109-217 | every run with up to n writes under way stays within the quota if and only if n is one |
| `CacheKeys.FramedInjective` | crates/imail-http/src/attachment_cache.rs:28-42 | length-framed lists can be told apart, whatever their lengths |
| `CacheKeys.KeysAgreeExactly` | crates/imail-http/src/attachment_cache.rs:23-47 | two attachments share a file name exactly when owner, message and index agree, a missing message identifier counting as empty |

## Left out

- Supervisor diagnostics, log rotation, the failure counter behind the back-off time and uninstalling the daemon.
- `local_service_enable` beyond the deployment it drives; the registration of the service with the operating system.
- Durability: a file operation that has returned is taken to have happened, and a rename to be atomic.
- The comparison of a rule condition with message fields and the syntax of mail addresses are parameters, so the rule theorems hold for any of them.
- TranslationSettings.SettingsService.Read: storage errors, the preferences and the registry in the view are not modelled; the mutators return success instead of reading the view back.
- Segmentation.SegmentMessageBody: turning HTML into plain text is a parameter.
- TranslationCache: the repository is a map with deletion of a message's rows; SQL errors are not modelled, and later segmentations are a parameter.
- Choosing which cookies to send (`cookie_header`, `domain_matches`).
- CookieJar.ParseSetCookie: models a release build, where the addition wraps; a debug build would stop there.
- PreviewQuota.PreviewState.ResourceFor: archive reading is a parameter; byte ranges of the response and lock poisoning are not modelled.
- AttachmentStore.UserCache.Write: the quota bound is for one write at a time; `OverlappingWrites` covers several, with a sweep as one step that succeeds.
- ContactLogos.StoredSites: the logo files on disk, which usually keep a host from being searched twice, are not modelled; nor is the rewriting of an all-digit host name into an address when it becomes a URL.
- EventResume.ReceivedExactly: the user's accounts stay the same, and events are not deleted for their age while the application is away.
- ExecutableDeployment.Deploy: everything between the activation and the answer of the service is one outcome; so is stopping its supervisor before a rollback.
- Eviction.SweepIsMinimal: sizes are unbounded numbers, so a directory of more than 2 to the 64 bytes is not modelled.
- Contacts.Reconcile: counts are unbounded numbers rather than 64-bit ones; the three logo details count only together with a logo key.
- Hashing, key derivation, regular expressions and the public suffix list are abstract.
- HTTP routes, the user interface, synchronisation, outbox, accounts and authentication: they would add only easy members.
