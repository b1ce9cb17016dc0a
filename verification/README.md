# Peerline: a model of the transfer protocol and its proofs

Peerline sends files over an encrypted, resumable channel. This project models the parts of it whose
correctness does not depend on sockets, in Dafny, and proves what they promise. `dafny verify dfyconfig.toml`
checks everything.

The model has six parts.

* **The resumable transfer.** `ResumeStore` is the store of partial archives as a list of effects on files, so
  that a process crash can fall between any two effects or inside one of them; `ResumeLaws` says what each
  operation and each crash leaves. `ChunkRatchet` and `SecureChannel` are the key ratchet and the numbered
  frames over symbolic terms: a key is the term it was derived by, a ciphertext is a sealing under a key or
  junk. `DirectTransfer` is the sender's and the receiver's loop. `ReceiverDisk` and `DiskLaws` put the store
  where it is, in a directory of the destination that archives are unpacked into. `ReceiverRuns` is any run of
  any number of direct and libp2p sessions on that disk: chunks come through channels that may lose, reorder,
  repeat and invent them, finished archives are unpacked, sessions disconnect, and the process crashes. It
  follows, step by step, the machine of the store alone (`TransferRuns`). The prefix law and, in
  `TransferProgress`, the law of progress are proved for these runs; `SessionLaws` says what a session takes and
  what the end of a transfer leaves. `OverlappingSessions`, `AlteredOffers` and `PlantedPartials` with
  `PlantedRuns` are the inputs on which they fail.
* **The libp2p sessions.** `Libp2pReceiver` is the per-peer session machine, `Libp2pLaws` what every run of it
  keeps, `Libp2pExchange` the login and key exchange with the sender's side of it, `Libp2pReplies` which request
  gets which reply, `Libp2pSender` the request-and-acknowledge sender, `Libp2pRuns` the proof that its steps are
  moves of `ReceiverRuns`.
* **The archive.** `Scanning` and `ScanLaws` (which entries, in which order), `Packing` and `Compressing` (body,
  manifest, compression), `ArchiveIdentity` (totals and identifiers), `Framing` (length prefixes, for archive frames and wire frames), `Paths` and `FileTree`
  (path checks, numbered names, a file system), `Unpacking` and `UnpackLaws` (the unpacking machine on arbitrary
  bytes), `UnpackExactly` (which streams it takes), `ArchiveRoundTrip` and `SourceRoundTrip` (the round trip), `EndToEnd` (transfer and round trip
  together, over whole runs).
* **The pkarr announcement.** `Pkarr` is the packing under a byte budget and the cursor parser, `PkarrRanks` which
  addresses are carried, `PkarrDecoding` which payloads decode.
* **The rendezvous service.** `Rendezvous` (the table refines a map), `RendezvousLifetimes`, `RendezvousPaging`,
  `RateLimiter`, `Keepalive`.
* **Encodings.** `I2pBase32` and `Transcripts`; `Bytes` holds what all share.

Code that changes state is a class or a method with its loops, proved against a function of the old state; the
laws are about those functions. Hashes, serializers, compressors, the password login and the key exchange are
parameters. A law that needs a hypothesis on one of them (a serializer decodes what it encoded, a hash has no
second input for one archive) states it as a precondition.

Where the code does something that a reader might not expect, the model follows the code:

* `decrypt_secure` moves the expected sequence before it opens the chunk, so one chunk with the right number
  that does not open ends the session for good (`SecureChannel.BrokenStaysBroken`).
* The sequence counters are 64-bit and wrap in a release build. The laws of the channel are stated with the
  wrap.
* An append writes its bytes before it checks the length, so a chunk that is refused is in the part file all
  the same (`ResumeLaws.AppendOutcome`).
* Two sessions on one partial can make the store offer bytes that are not the sender's
  (`OverlappingSessions.OverlapOffersWrongBytes`). The hash check at the end still holds.
* The directory of the partials lies in the destination and `.peerline-resume` is an accepted name, so an
  archive that lists paths in there can leave, or with overwriting replace, a partial of another transfer, and
  the store then offers to resume behind bytes that were never received
  (`PlantedPartials.PlantedPartialIsOffered`, `PlantedRuns.PlantedBytesAreOffered`); it can also give a part to a
  session that is under way, which loses all its progress (`PlantedRuns.PlantedPartStopsProgress`). A sender does
  this without intent when one of its sources has that name (`EndToEnd.PackedKeepsOutExactly`). The hash check at
  the end still holds. `DiskLaws.CompletedEntriesLeaveRootExactly` and `DiskLaws.UnpackedBesidePartialsExactly` say
  which archives leave that directory alone, and the laws of prefix and progress are proved for runs that unpack
  no archive that lists a path in it.
* The offset that a receiver offers travels in its unprotected introduction. An honest sender that is told another
  one writes the archive from there, and over one undisturbed session these bytes become the beginning of the part
  (`AlteredOffers.AlteredOfferIsStored`); `AlteredOffers.NextChunkKeepsPrefixExactly` says that the prefix is kept
  exactly when the sender was told the session's start. The prefix law is proved for offers that arrive. The hash
  check at the end still holds.
* A transfer of zero bytes has no part file, so its check fails to open one
  (`ReceiverRuns.HonestEndIsReceived`). No archive has zero bytes, because it starts with a manifest.
* One to three stray bytes behind an archive read as its end, and directory frames are taken inside a file
  (`SourceRoundTrip.RawRoundTrip`, `Unpacking.HandleFrame`).
* Unpacking is not atomic (`SourceRoundTrip.EarlierEntriesStay`).
* Two sources with the same base name give an archive that cannot be unpacked
  (`SourceRoundTrip.ArchiveMirrorsSources`).
* The `cookie` of a discover response is the largest in the store and no safe cursor
  (`RendezvousPaging.ResponseCookieSkipsExactly`).
* A direct address that would fit on its own can be left out while a tunnel is carried, when a shorter direct
  address has taken its room (`PkarrRanks.TunnelBesideLeftOutDirect`); `PkarrRanks.LeftOutHasNoRoom` says when an
  address is left out.
* An announcement has no place for an IPv6 endpoint's flow and scope (`Pkarr.PackedAlikeExactly`).
* A transfer without a name and one to the name "direct-ip" have the same direct transcript
  (`Transcripts.DirectTranscriptsAgreeExactly`).
* A registration with a lifetime under two seconds lapses between two punctual refreshes, and no other does
  (`Keepalive.PunctualIsEnoughExactly`).
* A client that asks for pages of more than 128 records and takes a shorter page for the last one stops early
  (`RendezvousPaging.ShortPageMisleadsExactly`).
* A peer that is introduced again between the acknowledged end of its transfer and the delivery of that
  acknowledgement loses its result (`Libp2pLaws.ReportedExactly`).

## Model

| member | source | states |
|---|---|---|
| ResumeStore.ResumeDisk.CleanupExpired | crates/peerline-net/src/resume.rs:136-163 | in whatever order the directory is listed, exactly the expired or unreadable partials go |
| ResumeStore.CleanupKeepsFresh | crates/peerline-net/src/resume.rs:136-163 | cleaning a listing keeps exactly the partials that are not both listed and stale |
| ResumeStore.ResumeDisk.ResumeState | crates/peerline-net/src/resume.rs:31-78 | the whole store after resuming, as the effects of the code in their order, and the offset that is offered |
| ResumeStore.ResumeDisk.Claim | crates/peerline-net/src/resume.rs:45-77 | keeps a partial that matches and starts over otherwise, effect by effect |
| ResumeStore.ResumeDisk.AppendChunk | crates/peerline-net/src/resume.rs:80-111 | the bytes go to the part first, then the caller's offset moves, and metadata follows only if the length fits; the error cases |
| ResumeStore.ResumeDisk.CompletePartial | crates/peerline-net/src/resume.rs:113-130 | returns the part exactly when length and hash agree; a part that fails is gone with its metadata and no other partial changes; otherwise nothing changes |
| ResumeStore.ResumeDisk.WriteMetadata | crates/peerline-net/src/resume.rs:187-196 | afterwards the directory is there with this metadata, its part and all other partials as they were |
| ResumeStore.ResumeDisk.RemovePartial | crates/peerline-net/src/resume.rs:198-232 | afterwards part and metadata are gone, and the directory too unless a temporary file is in it |
| ResumeLaws.KeepsExactlyItsOwn | crates/peerline-net/src/resume.rs:45-69 | a partial is kept exactly when it is what the store writes for this transfer at that length |
| ResumeLaws.ResumeOutcome | crates/peerline-net/src/resume.rs:31-78 | after resuming, the part has exactly the offered length, unchanged or cleared, metadata agrees, other partials are untouched or had expired |
| ResumeLaws.AppendOutcome | crates/peerline-net/src/resume.rs:80-111 | an append adds its bytes, accepted or not, records the new length only when accepted, and touches nothing else |
| ResumeLaws.CrashDuringAppend | crates/peerline-net/src/resume.rs:80-111 | a crash anywhere in an append leaves the old part with some beginning of the new bytes |
| ResumeLaws.CrashWithoutAppend | crates/peerline-net/src/resume.rs:187-211 | a crash in any other operation leaves a part as it was or takes it away |
| ResumeLaws.CrashElsewhere | crates/peerline-net/src/resume.rs:165-169 | a crash in work on one partial leaves the others alone |
| ResumeLaws.SettledResumes | crates/peerline-net/src/resume.rs:41-78 | an unexpired transfer is taken up where it stopped |
| ResumeLaws.OfferedExactly | crates/peerline-net/src/resume.rs:31-78 | of everything that the store can hold: a resume offers more than nothing exactly when the part has that length and its metadata is what the store wrote for this transfer at this length within the last day |
| ResumeLaws.OthersKeptExactly | crates/peerline-net/src/resume.rs:136-163 | of the other partials a resume leaves exactly those with readable metadata at most a day old, as they are |
| ResumeLaws.CheckClearsExactly | crates/peerline-net/src/resume.rs:113-130 | a part that fails its check is removed with its metadata, one that passes stays, and nothing else changes |
| ResumeLaws.GoneOffersNothing | crates/peerline-net/src/resume.rs:41-78 | of a partial that is gone nothing is offered |
| SessionLaws.EndClears | crates/peerline-net/src/direct.rs:1230-1256 | an end that finds a part leaves neither part nor metadata, whether it fails the check, fails to unpack or is received, and wherever the archive reaches, so the next offer is 0; a failed check changes nothing else on the disk, and an archive that keeps out of the resume directory leaves the other partials as they were |
| SessionLaws.OutcomeExactly | crates/peerline-net/src/direct.rs:1190-1264 | which frames take a direct session on, and to where, and which end completes it |
| SessionLaws.DirectSessionsStayInShape | crates/peerline-net/src/direct.rs:1190-1264 | over any run at all, every direct session has taken nothing or the announced header and then chunks, and appends behind exactly their bytes |
| TransferProgress.RunsProgress | crates/peerline-net/src/resume.rs:41-111 | over any run on the disk without crash or expiry, with any direct or libp2p sessions of other transfers in between whose archives list no path in the resume directory, the next offset is higher by exactly the bytes that were taken, and at most as many moves as the archive has bytes bring any |
| TransferProgress.TurnKeepsStep | crates/peerline-net/src/resume.rs:41-111 | every such move, unpacking included, keeps the recorded bytes and the live session in step |
| TransferProgress.FirstIsInStep | crates/peerline-net/src/resume.rs:31-78 | whatever a tidy disk's store holds, the first session brings it in step |
| ChunkRatchet.ChunkAead.Encrypt | crates/peerline-crypto/src/aead.rs:38-66 | seals under the message key and nonce of the sequence and advances; a plaintext over the cipher's limit changes nothing |
| ChunkRatchet.ChunkAead.Decrypt | crates/peerline-crypto/src/aead.rs:68-88 | opens exactly what was sealed for this state and number; a failure leaves the ratchet alone |
| ChunkRatchet.ChunkAead.Nonce | crates/peerline-crypto/src/aead.rs:90-95 | the buffer is the prefix and the big-endian sequence |
| ChunkRatchet.ChunkAead.DeriveNext | crates/peerline-crypto/src/aead.rs:97-121 | two new keys that differ from each other, from the chain key and from the keys for any other number |
| ChunkRatchet.MessageKeysAreFresh | crates/peerline-crypto/src/aead.rs:38-127 | no message key is used twice by one ratchet and none is a chain key, whatever sequence numbers are handed in |
| ChunkRatchet.OpensExactlyItsOwn | crates/peerline-crypto/src/aead.rs:68-88 | a chunk opens if and only if the ratchets and the numbers agree |
| SecureChannel.EncryptSecure | crates/peerline-net/src/protocol.rs:66-75 | seals the encoded frame; ratchet and counter move together |
| SecureChannel.DecryptSecure | crates/peerline-net/src/protocol.rs:77-88 | the counter moves before the chunk is opened |
| SecureChannel.AcceptedExactly | crates/peerline-net/src/protocol.rs:77-88 | which delivered chunk is accepted, exactly: the next one, unchanged; a wrong number changes nothing |
| SecureChannel.AcceptedIsPrefixOfSent | crates/peerline-net/src/protocol.rs:66-88 | whatever the channel does, accepted frames are a prefix of the sent ones and no two chunks share a key |
| SecureChannel.LockstepAlways | crates/peerline-net/src/protocol.rs:66-88 | both sides' ratchets and counters stay in step with the frames they handled, over every run |
| SecureChannel.BrokenStaysBroken | crates/peerline-net/src/protocol.rs:82-86 | after one failed decryption nothing is accepted again, until 2^64 failures |
| SecureChannel.InOrderDeliveryAcceptsAll | crates/peerline-net/src/protocol.rs:66-88 | in-order delivery loses nothing |
| DirectTransfer.SenderConnection.WriteSecure | crates/peerline-net/src/protocol.rs:43-52 | a successful write puts exactly the sealed frame behind what was written |
| DirectTransfer.SenderConnection.SendArchive | crates/peerline-net/src/direct.rs:832-923 | for any read sizes: header, the archive from the offset in chunks of at most 64 KiB (all full but the last when the reads are), end; refused exactly when the offset lies beyond the archive |
| DirectTransfer.ReceiveFrame | crates/peerline-net/src/direct.rs:1190-1264 | session and whole disk after one frame; at the end the archive is checked, unpacked beside its own partial, and this removed |
| ReceiverDisk.UnpackReceived | crates/peerline-transfer/src/archive.rs:265-288 | unpacking on the file system that shows the partials, and the store that is left in it |
| ReceiverDisk.EndTransfer | crates/peerline-net/src/direct.rs:1230-1256 | check, unpacking and removal, on the store that the unpacking leaves |
| DiskLaws.StoreOfFull | crates/peerline-net/src/resume.rs:165-173 | the partials are read back from the file system that shows them |
| DiskLaws.UnpackingLeavesStore | crates/peerline-net/src/direct.rs:1230-1237 | an archive that lists no path in the resume directory leaves every partial as it was, on success and on failure |
| DiskLaws.MidLeavesStore | crates/peerline-net/src/direct.rs:1230-1237 | so does a crash in the middle of unpacking it |
| DiskLaws.CompletedEntriesLeaveRootExactly | crates/peerline-net/src/direct.rs:1230-1237 | for every archive, whether it unpacks or fails half way: the resume directory stays as it was if and only if each listed entry that was completed keeps out of it, is a folder that was there or, when overwriting, the very same file |
| DiskLaws.UnpackedBesidePartialsExactly | crates/peerline-net/src/direct.rs:1230-1237 | a successful unpacking leaves the resume directory alone if and only if the listed paths into it are folders that are there or, when overwriting, the very files that are there |
| PlantedPartials.PlantedPathIsAccepted | crates/peerline-core/src/path.rs:37-65 | the path check accepts the paths of every partial |
| PlantedPartials.PlantedPartialIsOffered | crates/peerline-net/src/resume.rs:41-78 | for any bytes, an archive with two files makes the next offset of a transfer that never ran the length of these bytes |
| PlantedPartials.PlantedPartJoins | crates/peerline-net/src/resume.rs:80-111 | an archive with one file gives a partial without a part that part and leaves its metadata |
| TransferRuns.ReceiptsAlwaysVerified | crates/peerline-net/src/direct.rs:1230-1256 | under any interleaving and any crashes, what is reported received has the announced length and hash |
| TransferRuns.ReceivedIsTheArchive | crates/peerline-net/src/direct.rs:1207-1256 | if nothing else has the archive's hash, what is received under that hash is the archive |
| TransferRuns.TurnKeepsPrefix | crates/peerline-net/src/resume.rs:31-111 | on the store alone: every move of non-overlapping honest sessions, crashes inside any effect included, keeps the part a prefix of the archive |
| ReceiverRuns.ArrivedIsNext | crates/peerline-net/src/protocol.rs:66-88 | whatever the channel does, a frame that arrives on an honest session is the next one its sender wrote |
| ReceiverRuns.TurnKeepsInv | crates/peerline-net/src/direct.rs:1190-1264 | every move of such a run, of direct and libp2p sessions, unpacking and crashes included, keeps the prefix law and the channels in step |
| ReceiverRuns.LawAlwaysHolds | crates/peerline-net/src/resume.rs:31-111 | over every run in which sessions on the partial come from its sender, are told the offset that was offered and do not overlap, and no unpacked archive lists a path in the resume directory |
| ReceiverRuns.ResumeOffersPrefix | crates/peerline-net/src/resume.rs:31-111 | after any such run the offset is within the archive, so that the sender accepts it, and the part is exactly that many bytes of it |
| ReceiverRuns.ReceiptsAreTruthful | crates/peerline-net/src/direct.rs:1230-1256 | over every run at all, what is reported received has the announced length and hash and was unpacked onto the files that were there |
| ReceiverRuns.HonestEndIsReceived | crates/peerline-net/src/direct.rs:1207-1250 | the sender's end is received, up to the reply that tells the sender, if and only if the part is still there and the sender's archive unpacks |
| TransferRuns.CompleteOfferNeedsNoChunks | crates/peerline-net/src/direct.rs:880-923 | a session offered the whole archive has only header and end to take |
| TransferRuns.AppendKeepsPrefixExactly | crates/peerline-net/src/resume.rs:80-103 | in any world: a chunk that was read at some position keeps the part a prefix, for every archive that begins with the part, if and only if the part ends there |
| OverlappingSessions.OverlapOffersWrongBytes | crates/peerline-cli/src/main.rs:896-926 | a run of the store's machine in which three overlapping sessions of one honest sender leave an offer to resume on wrong bytes |
| OverlappingSessions.HonestExactly | crates/peerline-net/src/resume.rs:31-111 | the honest moves of the prefix law are those of such a run in which no session opens while another is live |
| AlteredOffers.AlteredOfferIsStored | crates/peerline-net/src/direct.rs:780-923 | for any archive and any told offset: a run that is honest but for the offer after which the store offers the bytes from there as the beginning |
| AlteredOffers.HonestRunExactly | crates/peerline-net/src/direct.rs:780-923 | the honest runs of the prefix law are those runs in which offers arrive |
| AlteredOffers.NextChunkKeepsPrefixExactly | crates/peerline-net/src/direct.rs:880-923 | for a session that stands at the end of its part: the sender's next chunk keeps it a prefix, for every archive that begins with it, if and only if the sender was told the session's start |
| Libp2pReceiver.Receiver.HandleTransferEvent | crates/peerline-net/src/libp2p_transfer/receiver.rs:426-506 | sessions, disk and reply after any event |
| Libp2pReceiver.Receiver.Introduce | crates/peerline-net/src/libp2p_transfer/receiver.rs:522-594 | version and name refusals, resuming, and the session that replaces an earlier one |
| Libp2pReceiver.Receiver.Finish | crates/peerline-net/src/libp2p_transfer/receiver.rs:595-619 | the login state is taken out before it is used, so it serves once; the session gets the key of the exchange, see Libp2pExchange.FinishedExactly |
| Libp2pReceiver.Receiver.TakeSecure | crates/peerline-net/src/libp2p_transfer/receiver.rs:620-718 | the opened frame on session and disk, with the refusals that keep the session |
| Libp2pReceiver.Receiver.TakeEnd | crates/peerline-net/src/libp2p_transfer/receiver.rs:669-714 | check, unpacking and removal; the pending result is set exactly when the archive unpacked |
| Libp2pReceiver.Receiver.SettleResponse | crates/peerline-net/src/libp2p_transfer/receiver.rs:465-494 | the pending result is yielded for its own request and put back otherwise |
| Libp2pLaws.SessionsStayInOrder | crates/peerline-net/src/libp2p_transfer/receiver.rs:426-726 | over every run of successful steps every session only moves from introduction over handshake and header to chunks and end |
| Libp2pLaws.LegalHasShape | crates/peerline-net/src/libp2p_transfer/receiver.rs:512-726 | position by position: one introduction, one handshake, one header, at most one result and that last |
| Libp2pLaws.YieldedIsVerified | crates/peerline-net/src/libp2p_transfer/receiver.rs:465-494 | a yielded result is that of the session's own checked request, with the introduced length and hash, and was unpacked |
| Libp2pLaws.ReportedExactly | crates/peerline-net/src/libp2p_transfer/receiver.rs:465-494 | over any run: a waiting result is reported by the delivery of its response if and only if its peer was not introduced again, completed nothing else and had nothing else delivered meanwhile |
| Libp2pLaws.EventSettles | crates/peerline-net/src/libp2p_transfer/receiver.rs:426-506 | an event changes a peer's waiting result only by what it does to that peer |
| Libp2pLaws.AppendsOnlyAfterHeader | crates/peerline-net/src/libp2p_transfer/receiver.rs:648-658 | no byte reaches a part file before the session has a matching header |
| Libp2pLaws.IntroducedExactly | crates/peerline-net/src/libp2p_transfer/receiver.rs:522-594 | one step of the runs above: which introductions open a session, under whose name and at which offset; a refusal changes nothing |
| Libp2pLaws.AckMeansDone | crates/peerline-net/src/libp2p_transfer/receiver.rs:629-716 | one step: an acknowledgement answers exactly the requests that took effect, and that of an end means checked and unpacked |
| Libp2pLaws.SameDiskAsDirect | crates/peerline-net/src/libp2p_transfer/receiver.rs:629-714 | one step: on the disk a secure request does what the frame does to a direct session |
| Libp2pExchange.FinishedExactly | crates/peerline-net/src/libp2p_transfer/receiver.rs:595-619 | a finishing request is acknowledged exactly when an unused login and an unused exchange give a secret, with the session's own hello and transcript; the session then opens what is sealed with that secret; a second one ends the receiver |
| Libp2pExchange.FirstFrameExactly | crates/peerline-net/src/libp2p_transfer/receiver.rs:620-646 | a new session takes the first frame sealed with its secret and nothing sealed with another one |
| Libp2pExchange.ForeignSecretFails | crates/peerline-net/src/libp2p_transfer/receiver.rs:620-628 | at no time does a chunk sealed under a key of another secret open |
| Libp2pExchange.BothEndsAgree | crates/peerline-net/src/libp2p_transfer/sender.rs:140-206 | a sender that answers the reply to its introduction, whatever other peers do in between, is acknowledged, and the session opens what the sender's own secret seals, from the offset that it was offered |
| Libp2pReplies.IntroductionRefusedExactly | crates/peerline-net/src/libp2p_transfer/receiver.rs:522-594 | which introduction gets which refusal |
| Libp2pReplies.SecureRefusedExactly | crates/peerline-net/src/libp2p_transfer/receiver.rs:629-714 | which opened frame gets which refusal |
| Libp2pReplies.SecureFailsExactly | crates/peerline-net/src/libp2p_transfer/receiver.rs:620-718 | which secure request ends the receiver |
| Libp2pReplies.ResponseEndsExactly | crates/peerline-net/src/libp2p_transfer/receiver.rs:465-494 | a session is over exactly when the reply to its end, good or bad, has been sent |
| Libp2pReplies.RefusedEndIsForgotten | crates/peerline-net/src/libp2p_transfer/receiver.rs:465-494 | the session of a refused end is gone with its reply and nothing is reported |
| Libp2pRuns.SecureArrives | crates/peerline-net/src/libp2p_transfer/receiver.rs:620-714 | a secure request is the arrival of its chunk in the runs on the disk: same disk, session at the same place or gone, receipt exactly for what is completed; so the laws of these runs hold when both kinds of session share a destination |
| Libp2pRuns.IntroductionOpens | crates/peerline-net/src/libp2p_transfer/receiver.rs:522-594 | an introduction is the opening of a session of these runs at the offered offset |
| Libp2pRuns.FinishMatches | crates/peerline-net/src/libp2p_transfer/receiver.rs:595-619 | and the finished key exchange gives it the channel that was opened with the exchanged secret |
| Libp2pSender.SendSecureRequest | crates/peerline-net/src/libp2p_transfer/sender.rs:280-300 | one sealed frame, then the reply decides |
| Libp2pSender.SendPrebuilt | crates/peerline-net/src/libp2p_transfer/sender.rs:183-278 | success means every frame was sealed in order and acknowledged; at any error at most the last frame is unacknowledged |
| Libp2pSender.SendChunks | crates/peerline-net/src/libp2p_transfer/sender.rs:238-261 | the loop over the archive |
| Libp2pSender.AcknowledgedEndIsReceived | crates/peerline-net/src/libp2p_transfer/sender.rs:263-270 | an acknowledged end means the receiver has checked and unpacked the sender's archive; over any run that follows it reports it if and only if nothing replaced or settled the session's result |
| Libp2pSender.AcknowledgedFrameIsTaken | crates/peerline-net/src/libp2p_transfer/sender.rs:227-261 | one step: an acknowledged header was accepted, an acknowledged chunk appended |
| Framing.ReadFrameFrom | crates/peerline-transfer/src/archive.rs:487-498 | fewer than four bytes are the end, a short or undecodable payload an error |
| Framing.FrameRoundTripExactly | crates/peerline-transfer/src/archive.rs:480-498 | a written frame reads back, leaving the rest, if and only if its payload is shorter than 2^32 bytes |
| Framing.WireRoundTripExactly | crates/peerline-net/src/protocol.rs:90-112 | a wire frame reads back if and only if its payload is at most 64 MiB, and is an error from there to 2^32 |
| Framing.ReceivesAPrefix | crates/peerline-net/src/protocol.rs:90-112 | from a connection that breaks off anywhere a prefix of the frames is read |
| Paths.AcceptedExactly | crates/peerline-core/src/path.rs:37-65 | accepted are exactly names joined by single separators; the later component checks never fire |
| Paths.SameComponentsSameText | crates/peerline-transfer/src/archive.rs:438-478 | for accepted paths, equality by components is equality of text |
| Paths.NumberedInjective | crates/peerline-core/src/path.rs:79-84 | different numbers give different names |
| Paths.NumberedIsName | crates/peerline-core/src/path.rs:79-84 | a numbered name is again one name in the same directory |
| Paths.NumberedKeepsExtension | crates/peerline-core/src/path.rs:79-84 | a numbered name is the stem with the number behind it and the same extension |
| Paths.StemAndExtension | crates/peerline-core/src/path.rs:70-84 | a name is its stem, or stem, dot and extension, which it has exactly when there is a dot behind its first byte |
| Paths.DecimalReads | crates/peerline-core/src/path.rs:79-84 | the digits are those of the number, without a zero in front |
| FileTree.FindFreePath | crates/peerline-core/src/path.rs:67-91 | the loop ends, at a path that does not exist |
| FileTree.NonOverwritingIsFree | crates/peerline-core/src/path.rs:67-91 | the path is the wanted one or the first free number, at most one more than the existing locations |
| FileTree.FileSystem.MakeDirs | crates/peerline-transfer/src/archive.rs:320-332 | the tree after `create_dir_all` |
| FileTree.FileSystem.PersistAt | crates/peerline-transfer/src/archive.rs:375-375 | the rename works exactly onto a place in a folder that is no folder itself; then the bytes are there and nothing else has changed |
| FileTree.CreateDirAllFailsExactly | crates/peerline-transfer/src/archive.rs:322-332 | making folders fails exactly when a file is on the way |
| Scanning.Scan | crates/peerline-transfer/src/scan.rs:16-35 | the entries of all sources, sorted by path |
| ScanLaws.ScannedIsFound | crates/peerline-transfer/src/scan.rs:37-72 | every scanned entry is what lies at its path below the sources |
| ScanLaws.FoundIsScanned | crates/peerline-transfer/src/scan.rs:37-72 | everything below the sources is scanned |
| ScanLaws.ScanDiffersExactly | crates/peerline-transfer/src/scan.rs:16-35 | a path occurs twice if and only if two sources have the same base name |
| ScanLaws.SortSorts | crates/peerline-transfer/src/scan.rs:33-33 | the sort is a permutation into path order |
| ScanLaws.ScanOrderIsCanonical | crates/peerline-transfer/src/scan.rs:33-33 | the entries do not depend on the order in which the sources were given |
| ScanLaws.PathOrderExactly | crates/peerline-transfer/src/scan.rs:33-33 | a folder comes before what it holds, and otherwise the names decide where two paths part |
| ScanLaws.BytesOrderExactly | crates/peerline-transfer/src/scan.rs:33-33 | a name comes before the longer ones it begins, and otherwise the smaller byte decides |
| ScanLaws.SortIsStable | crates/peerline-transfer/src/scan.rs:33-33 | entries of one path keep their order |
| Packing.WriteFile | crates/peerline-transfer/src/archive.rs:179-208 | for any read sizes: start, the content in chunks of at most 64 KiB (all full but the last when the reads are), end |
| Packing.CreateArchiveBody | crates/peerline-transfer/src/archive.rs:167-213 | the frames of all entries in order |
| Packing.CreateArchive | crates/peerline-transfer/src/archive.rs:83-109 | manifest, compression with the 1024-byte threshold, id and resource id of the archive |
| ArchiveIdentity.TotalIsSourceBytes | crates/peerline-transfer/src/archive.rs:83-109 | the total of a manifest is the number of bytes in all files of the sources, counted in 64 bits |
| ArchiveIdentity.SameIdExactly | crates/peerline-transfer/src/archive.rs:128-149 | two archives have the same manifest id exactly when they list the same entries and are compressed alike |
| Unpacking.CheckEntries | crates/peerline-transfer/src/archive.rs:415-436 | the first invalid entry decides |
| Unpacking.CollectEntries | crates/peerline-transfer/src/archive.rs:438-448 | the map of expected entries, none for duplicates |
| Unpacking.HandleFrame | crates/peerline-transfer/src/archive.rs:305-383 | the tree, the remaining entries and the current file after any frame, and every error |
| Unpacking.FinishFile | crates/peerline-transfer/src/archive.rs:356-382 | the checks of a finished file in their order, and where it lands |
| Unpacking.Unpack | crates/peerline-transfer/src/archive.rs:290-400 | result and tree for every byte stream |
| UnpackLaws.UnpackIsSound | crates/peerline-transfer/src/archive.rs:290-400 | for every stream: what is on disk is explained by the entries made, success means each manifest entry was made exactly once, "already consumed" never occurs |
| UnpackLaws.FrameKeeps | crates/peerline-transfer/src/archive.rs:305-383 | every frame keeps the ledger of entries and tree, and a frame that fails changes nothing |
| UnpackLaws.CollectedExactly | crates/peerline-transfer/src/archive.rs:438-448 | collecting succeeds if and only if no two entries have the same path |
| UnpackLaws.ValidationCovers | crates/peerline-transfer/src/archive.rs:415-436 | validation passes if and only if every entry is valid |
| UnpackLaws.ExistingFilesAreKept | crates/peerline-transfer/src/archive.rs:369-375 | without overwriting, everything that existed is as it was, on success and on failure, and files land on fresh distinct paths |
| UnpackLaws.NothingOutsideChanges | crates/peerline-core/src/path.rs:32-35 | nothing outside the destination changes but folders on the way to it |
| UnpackLaws.ArchiveIsSound | crates/peerline-transfer/src/archive.rs:265-400 | the same for every compression and for an unpacking cut short anywhere; what is made comes from listed entries |
| UnpackLaws.RootUntouchedExactly | crates/peerline-transfer/src/archive.rs:290-400 | a folder of the destination stays as it was if and only if whatever was made in it was there already |
| UnpackLaws.AllMadeLeavesAloneExactly | crates/peerline-transfer/src/archive.rs:290-400 | once every entry was made: if and only if each listed path into the folder is a folder that was there or, when overwriting, the same file |
| UnpackExactly.UnpacksExactlyWhatIsWritten | crates/peerline-transfer/src/archive.rs:290-400 | for every stream: it unpacks only if all of it can be read and was written like an archive of the entries it lists (valid entries, no path twice, each directory named once at any place, each file once with its size and hash), and then nothing but a path in the way can make it fail |
| UnpackExactly.RefusedFrame | crates/peerline-transfer/src/archive.rs:305-383 | why a frame is refused, with nothing changed |
| UnpackExactly.RefusedManifest | crates/peerline-transfer/src/archive.rs:290-304 | why the beginning of a stream is refused: the first invalid entry decides, then a repeated path |
| UnpackExactly.UndecodableMakesDestination | crates/peerline-transfer/src/archive.rs:265-288 | bytes that are no LZMA stream leave nothing but the destination |
| ArchiveRoundTrip.FolderLands | crates/peerline-transfer/src/archive.rs:308-323 | on a destination that holds exactly the earlier entries, the next folder can be made and joins them |
| ArchiveRoundTrip.FileLands | crates/peerline-transfer/src/archive.rs:356-382 | likewise the next file, whose own path is free |
| ArchiveRoundTrip.ConsumeBody | crates/peerline-transfer/src/archive.rs:305-383 | after the frames of the first entries exactly these have landed and the others are awaited |
| SourceRoundTrip.RawRoundTrip | crates/peerline-transfer/src/archive.rs:290-400 | a written archive, with up to three stray bytes, unpacks wherever there is room for its entries, next to whatever else is there |
| SourceRoundTrip.DuplicateRefused | crates/peerline-transfer/src/archive.rs:438-448 | with a repeated path it is refused and nothing changes |
| SourceRoundTrip.EarlierEntriesStay | crates/peerline-transfer/src/archive.rs:386-397 | an archive cut after some entries is refused and these entries stay |
| Unpacking.UnpackArchiveFromReader | crates/peerline-transfer/src/archive.rs:265-288 | decompression in front of unpacking |
| SourceRoundTrip.FoundExactly | crates/peerline-transfer/src/scan.rs:16-72 | an entry is in the archive if and only if it is what lies at its path below the sources |
| SourceRoundTrip.ScanIsCompatible | crates/peerline-transfer/src/scan.rs:16-72 | the entries of a scan go together if and only if the base names differ |
| SourceRoundTrip.LandedMirrors | crates/peerline-transfer/src/archive.rs:305-383 | where exactly the entries of a scan have landed, the destination shows at every path below the base names what the sources have there |
| SourceRoundTrip.ArchiveMirrorsSources | crates/peerline-transfer/src/archive.rs:83-400 | where there is room for the sources, unpacking a created archive succeeds if and only if the base names differ, and then the destination mirrors the sources; nothing else changes |
| EndToEnd.ReceivedTransferMirrorsSources | crates/peerline-net/src/direct.rs:1207-1256 | over any run at all: what is reported received under an archive's id was unpacked and, if there was room at that time, mirrors the sender's sources |
| EndToEnd.HonestTransferMirrorsSources | crates/peerline-net/src/direct.rs:1207-1250 | when the sender's end arrives and there is room for the sources, it is received, up to the reply that tells the sender, if and only if their base names differ and the part is still there; then the disk mirrors them |
| EndToEnd.HonestRunMirrorsSources | crates/peerline-net/src/direct.rs:1207-1250 | the same from an empty store over every honest run, in which offers arrive |
| EndToEnd.PackedKeepsOutExactly | crates/peerline-transfer/src/scan.rs:16-72 | an archive lists a path in the resume directory if and only if a source has that name |
| PlantedRuns.PlantedBytesAreOffered | crates/peerline-net/src/direct.rs:1230-1256 | the end of another transfer that plants a partial is a legal and honest move, is received, and afterwards the planted bytes are offered |
| PlantedRuns.PlantedPartStopsProgress | crates/peerline-net/src/resume.rs:80-111 | a part that is unpacked under a session which has received nothing yet: it takes its next chunk, and the next offer is 0; the moves are steady but for where the archive reaches |
| Pkarr.EncodeWithBudget | crates/peerline-net/src/pkarr.rs:242-280 | succeeds exactly when the peer id fits its length byte and some record fits the budget, with the error for the one or the other; never exceeds the budget |
| Pkarr.PackRecords | crates/peerline-net/src/pkarr.rs:253-273 | the packing loop |
| Pkarr.PackingIsOptimal | crates/peerline-net/src/pkarr.rs:253-273 | no selection within the budget has more records of the first priority where it differs; each priority keeps its smallest records |
| Pkarr.Decode | crates/peerline-net/src/pkarr.rs:282-324 | the header checks and the records |
| Pkarr.ReadRecords | crates/peerline-net/src/pkarr.rs:300-318 | the cursor loop |
| Pkarr.RecordRoundTrip | crates/peerline-net/src/pkarr.rs:371-473 | a record comes back up to what the format cannot carry, and encodes the same again |
| Pkarr.PackedAlikeExactly | crates/peerline-net/src/pkarr.rs:430-473 | two records encode alike if and only if they differ at most in IPv6 flow and scope |
| Pkarr.AnnouncementRoundTrip | crates/peerline-net/src/pkarr.rs:242-324 | decoding an encoding returns the peer and exactly the carried records in wire order |
| Pkarr.AllCarriedWhenAllFit | crates/peerline-net/src/pkarr.rs:253-273 | nothing is left out when everything is eligible and fits |
| PkarrRanks.CarriesTheMostWanted | crates/peerline-net/src/pkarr.rs:253-273 | told by kinds of address (private direct, public direct, I2P, Tor or plain libp2p, QUIC, WebRTC, tunnel, relayed) and bytes on the wire: no selection that fits has more addresses of the first kind where it differs from what the encoding decodes to |
| PkarrRanks.CarriedComesFirst | crates/peerline-net/src/pkarr.rs:258-273 | an address that is left out although it is no longer than a carried one is less wanted, or of the same rank and a later kind |
| PkarrRanks.GivenFirstIsCarriedFirst | crates/peerline-net/src/pkarr.rs:258-258 | of addresses alike in rank, kind and length the one given first is carried first |
| PkarrRanks.LeftOutHasNoRoom | crates/peerline-net/src/pkarr.rs:260-273 | an address that is left out has no room beside what is carried and wanted no less |
| PkarrRanks.DirectComesFirst | crates/peerline-net/src/pkarr.rs:253-273 | when a direct address would fit on its own, a direct address is carried |
| PkarrRanks.TunnelBesideLeftOutDirect | crates/peerline-net/src/pkarr.rs:260-273 | with room for more, a tunnel can be carried while a longer direct address that would fit on its own is left out |
| PkarrRanks.EncodingLayout | crates/peerline-net/src/pkarr.rs:242-280 | the encoding is version, peer and the records it decodes to, byte by byte, within the budget |
| PkarrDecoding.DecodedExactly | crates/peerline-net/src/pkarr.rs:282-324 | a payload decodes to an announcement exactly when it is version, peer and pieces that stand for its records; everything else is refused |
| Rendezvous.RendezvousShard.Register | services/peerline-rendezvous/src/lib.rs:281-338 | the live registrations with this one put in or replaced; a live peer keeps its cookie and any other gets one above all |
| Rendezvous.RendezvousShard.Unregister | services/peerline-rendezvous/src/lib.rs:523-535 | the live registrations without this peer's, and whether there was one |
| Rendezvous.RendezvousShard.Discover | services/peerline-rendezvous/src/lib.rs:410-460 | the page for a cursor and limit; a cursor outside the integer range is refused first |
| Rendezvous.RendezvousShard.CleanupExpired | services/peerline-rendezvous/src/lib.rs:673-677 | a row stays if and only if it has not expired |
| Rendezvous.RegisterRefines | services/peerline-rendezvous/src/lib.rs:281-338 | one map update; a live peer keeps its cookie, any other gets a strictly larger one |
| Rendezvous.UnregisterRefines | services/peerline-rendezvous/src/lib.rs:523-535 | one map removal |
| Rendezvous.TableRefinesMap | services/peerline-rendezvous/src/lib.rs:281-338 | every sequence of requests refines the map, with one row for each peer |
| Rendezvous.CookiesAreNeverReused | services/peerline-rendezvous/src/lib.rs:869-888 | a cookie never passes to another peer |
| RendezvousLifetimes.ShownExactlyForItsLifetime | services/peerline-rendezvous/src/lib.rs:281-338 | from the seconds that were asked for: a peer that registers is shown, with its descriptor, at every instant before its lifetime (at least a second, at most the cap) is over and at none from then on, unless it refreshes or unregisters, whatever the others do |
| RendezvousLifetimes.ShownExactly | services/peerline-rendezvous/src/lib.rs:410-460 | a peer can be paged to exactly when its registration is live |
| RendezvousPaging.PagingShowsEveryStayerOnce | services/peerline-rendezvous/src/lib.rs:410-460 | with any requested limits, which the service cuts to 1 to 128, a peer registered throughout is shown exactly once to a client that pages by the last record, despite other requests |
| RendezvousPaging.LawHolds | services/peerline-rendezvous/src/lib.rs:410-460 | every event keeps the law of the cursor: at or below it a staying peer was shown once, beyond it not at all |
| RendezvousPaging.PageShows | services/peerline-rendezvous/src/lib.rs:410-460 | what one page shows of a live peer |
| RendezvousPaging.RequestKeepsCookie | services/peerline-rendezvous/src/lib.rs:293-334 | no request moves a peer that stays live to another cookie |
| RendezvousPaging.ResponseCookieSkipsExactly | services/peerline-rendezvous/src/lib.rs:430-460 | going on from the response's cookie skips live rows if and only if the limit cut the page short |
| RateLimiter.RateLimits.EnforceRateLimit | services/peerline-rendezvous/src/lib.rs:644-671 | the window row after a call and the answer |
| RateLimiter.RateLimits.CleanupExpired | services/peerline-rendezvous/src/lib.rs:678-682 | exactly the windows older than two lengths go; the current and the previous one stay |
| RateLimiter.ExactlyTheFirstAreAllowed | services/peerline-rendezvous/src/lib.rs:644-682 | exactly the first calls up to the limit are allowed in each window, whatever clean-ups happen |
| RateLimiter.AtMostTwiceTheLimit | services/peerline-rendezvous/src/lib.rs:644-671 | at most twice the limit in any 60 seconds |
| Keepalive.ClientKnowsItsLifetime | crates/peerline-net/src/rendezvous.rs:709-726 | the client reckons with the lifetime that the server grants, the longest within the ttl and the three minutes of the cap |
| Keepalive.RefreshLeavesTolerance | crates/peerline-net/src/rendezvous.rs:705-726 | a refresh comes early by the tolerance, and with a lifetime of one second exactly at its end |
| Keepalive.IntervalIsGreatest | crates/peerline-net/src/rendezvous.rs:709-726 | the interval is the greatest whole number of seconds within what is requested, though at least one, that leaves the tolerance |
| Keepalive.ToleranceIsGreatest | crates/peerline-net/src/rendezvous.rs:715-722 | the tolerance is the greatest number of seconds up to a minute and half the lifetime |
| Keepalive.RequestIsHonouredExactly | crates/peerline-net/src/rendezvous.rs:709-726 | a requested number of seconds is taken exactly when it is at least one and leaves the tolerance |
| Keepalive.RegistrationNeverLapses | crates/peerline-net/src/rendezvous.rs:387-423 | in runs whose registrations ask for seconds and are granted by the server: with refreshes late by less than the tolerance whoever looks is shown the peer at every instant |
| Keepalive.ShortLifetimeLapses | crates/peerline-net/src/rendezvous.rs:709-726 | with any lifetime under two seconds a punctual refresh finds the row gone |
| Keepalive.PunctualIsEnoughExactly | crates/peerline-net/src/rendezvous.rs:705-726 | punctual refreshes keep a registration through every run if and only if the lifetime is at least two seconds |
| I2pBase32.Base32I2pNoPadding | crates/peerline-net/src/tunnel/i2p.rs:389-410 | the shift loop computes the bit-level encoding of section 6 of RFC 4648 and its 16-bit buffer never overflows |
| I2pBase32.Base32RoundTrip | crates/peerline-net/src/tunnel/i2p.rs:389-410 | ceil(8n/5) letters, and decoding returns the input |
| I2pBase32.AddressIsHost | crates/peerline-net/src/tunnel/i2p.rs:360-366 | the address of a digest passes the host check |
| I2pBase32.AddressesExactly | crates/peerline-net/src/tunnel/i2p.rs:312-320 | the addresses of digests are exactly the accepted hosts that end in the letter a or q |
| Transcripts.FeedHasher | crates/peerline-crypto/src/transcript.rs:21-28 | what the hasher is fed |
| Transcripts.EncodingUnique | crates/peerline-crypto/src/transcript.rs:15-28 | the encoding is uniquely decodable |
| Transcripts.DirectTranscriptsAgreeExactly | crates/peerline-net/src/protocol.rs:122-137 | direct transcripts agree exactly when route and name agree, with the one exception |
| Transcripts.Libp2pTranscriptsAgreeExactly | crates/peerline-net/src/protocol.rs:139-151 | libp2p transcripts agree only in full |
| Transcripts.Libp2pIsNotDirect | crates/peerline-net/src/protocol.rs:122-151 | no libp2p transcript equals a direct one |
| Transcripts.FeedManifestId | crates/peerline-transfer/src/archive.rs:128-145 | what the manifest id is hashed over |
| Transcripts.ManifestIdInputUnique | crates/peerline-transfer/src/archive.rs:128-149 | the manifest-id input determines compression and all entries |

## Left out

- SecureChannel.BrokenStaysBroken: holds for fewer than 2^64 failures, because the 64-bit counter comes round to the ratchet's position after that many.
- UnpackLaws.UnpackIsSound: states a file's declared size modulo 2^64, because the counter of written bytes is 64-bit and wraps in a release build.
- ReceiverRuns.LawAlwaysHolds: for sessions that do not overlap on one partial, offers that arrive, and archives that list no path in the resume directory; without the first it is false, see OverlappingSessions.OverlapOffersWrongBytes, without the second, see AlteredOffers.AlteredOfferIsStored, and without the third, see PlantedRuns.PlantedBytesAreOffered.
- TransferProgress.RunsProgress: for runs without a crash and within the retention, because a crash between the part write and the metadata rename resets the partial, and for archives that list no path in the resume directory, see PlantedRuns.PlantedPartStopsProgress.
- ReceiverRuns.HonestEndIsReceived: up to the last reply; a direct receiver that cannot write its acknowledgement reports an error although it has unpacked everything. The same goes for EndToEnd.HonestTransferMirrorsSources.
- DiskLaws.CompletedEntriesLeaveRootExactly: about the whole resume directory; an archive that only leaves stray files in it changes the directory and no partial. Which entries were completed before a failure is taken from the unpacking.
- SourceRoundTrip.RawRoundTrip: for entries none of whose files is another one's folder, which holds of every scan with different base names (SourceRoundTrip.ScanIsCompatible).
- SourceRoundTrip.ArchiveMirrorsSources: asks that every frame's payload is below 2^32 bytes, which is exactly when a frame reads back (Framing.FrameRoundTripExactly).
- UnpackExactly.UnpacksExactlyWhatIsWritten: counts a file's bytes in 64 bits, as the code does; for files shorter than 2^64 bytes that is their size.
- RendezvousLifetimes.ShownExactlyForItsLifetime: for a cap of at least one second, which is what the service starts with.
- Libp2pExchange.BothEndsAgree: asks that the login and the key exchange do what they are for, with the same code and the same transcript on both sides; what they do when these differ is inside the parameters.
- DirectTransfer.SenderConnection.SendArchive: ends with the last write; the wait for the receiver's final reply is not part of this model.
- FileTree.FindFreePath: counts without bound; the source's index is a 32-bit integer, which would take 2^31 existing names to matter.
- Keepalive.RegistrationNeverLapses: against a server with the default cap of 180 seconds.
- I/O errors other than crashes and paths in the way (disk full, permissions, NUL bytes, over-long names), symbolic links, special files and non-UTF-8 names.
- Power loss: a crash is the end of the process, and what was written stays written.
- Windows path prefixes and separators.
- The names of temporary files other than the store's, which are not locations of the modelled tree.
- Contents of the resume directory that are no partial: stray files and folders in it, a folder in the place of a part, an empty resume directory that a clean-up leaves, which bytes an unreadable metadata file holds, and how a readable one is spelled: it is shown as the store would write it, also where an archive wrote it.
- Sessions of the libp2p receiver are values in its map; the ratchet inside a session is a value too, and its in-place form is ChunkRatchet.ChunkAead.
- The inside of HKDF, ChaCha20-Poly1305, BLAKE3, OPAQUE, X25519, ML-KEM, zstd, LZMA, postcard and JSON.
- The introductions of direct connections, whose login and key exchange are those of Libp2pExchange; a direct session begins with the secret that they give.
- Sockets, the libp2p swarm, WebSocket, SOCKS, SAM and port-mapping plumbing, timeouts and events for the user interface.
- crates/peerline-net/src/tunnel.rs, whose sender and receiver repeat the direct ones.
- Request signatures, client certificates, telemetry and validators of the rendezvous worker.
- Discovery snapshots, candidate ranking, command line, terminal interface, installers and release scripts.
